// The table-driven transliteration of VocBuilder.mk_candidate (scripts/buildvoc.py): the
// source word is consumed from the left, always by the longest table key that is a prefix
// of what remains, and an unmatched first character is copied.
module Transliteration {
  import opened Text
  import opened Phonology

  /** A conversion table: input characters to their output and penalty flag. */
  type Table = map<string, Conversion>

  /** One step of the conversion: a table key consumed, or a character copied verbatim. */
  datatype Segment = Matched(key: string) | Copied(c: char)

  /** The input a segment consumes. */
  function Consumed(seg: Segment): string
  {
    match seg
    case Matched(key) => key
    case Copied(c) => [c]
  }

  function ConsumedAll(segs: seq<Segment>): string
  {
    if |segs| == 0 then "" else Consumed(segs[0]) + ConsumedAll(segs[1..])
  }

  function Min(a: nat, b: nat): nat { if a < b then a else b }

  /** The longest `idx` in 1..n for which `rest[..idx]` is a key, or 0 (the inner `for` loop,
      which counts down from n). */
  function LongestMatch(table: Table, rest: string, n: nat): (idx: nat)
    requires n <= |rest|
    ensures idx <= n
    ensures idx > 0 ==> rest[..idx] in table
    ensures forall j :: idx < j <= n ==> rest[..j] !in table
  {
    if n == 0 then 0
    else if rest[..n] in table then n
    else LongestMatch(table, rest, n - 1)
  }

  /** The steps by which the `while rest_word` loop consumes `rest`. */
  function Segments(table: Table, maxKeyLen: nat, rest: string): (segs: seq<Segment>)
    decreases |rest|
  {
    if |rest| == 0 then []
    else
      var idx := LongestMatch(table, rest, Min(maxKeyLen, |rest|));
      if idx > 0 then [Matched(rest[..idx])] + Segments(table, maxKeyLen, rest[idx..])
      else [Copied(rest[0])] + Segments(table, maxKeyLen, rest[1..])
  }

  /** What a segment contributes to the output. */
  function Output(table: Table, seg: Segment): string
  {
    match seg
    case Matched(key) => if key in table then table[key].output else ""
    case Copied(c) => [c]
  }

  function OutputAll(table: Table, segs: seq<Segment>): string
  {
    if |segs| == 0 then "" else Output(table, segs[0]) + OutputAll(table, segs[1..])
  }

  /** The number of consumed table entries whose penalty flag is set. */
  function FlaggedCount(table: Table, segs: seq<Segment>): nat
  {
    if |segs| == 0 then 0
    else
      (if segs[0].Matched? && segs[0].key in table && table[segs[0].key].penalty then 1 else 0)
      + FlaggedCount(table, segs[1..])
  }

  /** The segments partition the word, and each is either the longest key that is a prefix of
      what remains (and no longer than `maxKeyLen`) or a first character that starts no key. */
  lemma {:induction false} SegmentsPartition(table: Table, maxKeyLen: nat, rest: string)
    ensures ConsumedAll(Segments(table, maxKeyLen, rest)) == rest
    ensures forall k :: 0 <= k < |Segments(table, maxKeyLen, rest)| ==>
              var seg := Segments(table, maxKeyLen, rest)[k];
              seg.Matched? ==> seg.key in table && 1 <= |seg.key| <= maxKeyLen
    decreases |rest|
  {
    if |rest| > 0 {
      var segs := Segments(table, maxKeyLen, rest);
      var idx := LongestMatch(table, rest, Min(maxKeyLen, |rest|));
      var next := if idx > 0 then idx else 1;
      SegmentsPartition(table, maxKeyLen, rest[next..]);
      assert segs[1..] == Segments(table, maxKeyLen, rest[next..]);
      assert rest[..next] + rest[next..] == rest;
    }
  }

  /** The first step takes the longest key that is a prefix of the word; when no key of
      length 1..maxKeyLen fits, the first character is copied. */
  lemma FirstSegmentIsLongest(table: Table, maxKeyLen: nat, rest: string)
    requires |rest| > 0
    ensures var seg := Segments(table, maxKeyLen, rest)[0];
      (seg.Matched? ==> forall j :: |seg.key| < j <= Min(maxKeyLen, |rest|) ==> rest[..j] !in table)
      && (seg.Copied? ==> seg.c == rest[0]
                          && forall j :: 1 <= j <= Min(maxKeyLen, |rest|) ==> rest[..j] !in table)
  {
  }

  /** A copied character adds nothing to the penalty: the flagged count of a word is at most
      the number of table entries consumed. */
  lemma {:induction false} FlaggedAtMostMatched(table: Table, segs: seq<Segment>)
    ensures FlaggedCount(table, segs) <= |segs|
    ensures (forall k :: 0 <= k < |segs| ==> segs[k].Copied?) ==> FlaggedCount(table, segs) == 0
  {
    if |segs| > 0 {
      FlaggedAtMostMatched(table, segs[1..]);
      assert forall k :: 1 <= k < |segs| ==> segs[1..][k - 1] == segs[k];
    }
  }

  /** Every segment consumes at least one character, so a word yields at most as many
      segments as it has characters, and at most that many flagged ones. */
  lemma {:induction false} SegmentsAtMostLength(table: Table, maxKeyLen: nat, rest: string)
    ensures |Segments(table, maxKeyLen, rest)| <= |rest|
    ensures FlaggedCount(table, Segments(table, maxKeyLen, rest)) <= |rest|
    decreases |rest|
  {
    FlaggedAtMostMatched(table, Segments(table, maxKeyLen, rest));
    if |rest| > 0 {
      var idx := LongestMatch(table, rest, Min(maxKeyLen, |rest|));
      var next := if idx > 0 then idx else 1;
      SegmentsAtMostLength(table, maxKeyLen, rest[next..]);
    }
  }

  lemma {:induction false} OutputSnoc(table: Table, segs: seq<Segment>, seg: Segment)
    ensures OutputAll(table, segs + [seg]) == OutputAll(table, segs) + Output(table, seg)
  {
    if |segs| > 0 {
      assert (segs + [seg])[1..] == segs[1..] + [seg];
      OutputSnoc(table, segs[1..], seg);
    }
  }

  lemma {:induction false} FlaggedSnoc(table: Table, segs: seq<Segment>, seg: Segment)
    ensures FlaggedCount(table, segs + [seg]) == FlaggedCount(table, segs) + FlaggedCount(table, [seg])
  {
    if |segs| > 0 {
      assert (segs + [seg])[1..] == segs[1..] + [seg];
      FlaggedSnoc(table, segs[1..], seg);
    }
  }

  /** The segment one turn of the loop takes, given the longest match `idx` found there. */
  function StepSegment(rest: string, idx: nat): Segment
    requires |rest| > 0 && idx <= |rest|
  {
    if idx > 0 then Matched(rest[..idx]) else Copied(rest[0])
  }

  function StepWidth(idx: nat): nat { if idx > 0 then idx else 1 }

  /** One turn of the loop takes the segment `StepSegment` and leaves the rest after it. */
  lemma SegmentsStep(table: Table, maxKeyLen: nat, rest: string, idx: nat)
    requires |rest| > 0 && idx == LongestMatch(table, rest, Min(maxKeyLen, |rest|))
    ensures Segments(table, maxKeyLen, rest)
            == [StepSegment(rest, idx)] + Segments(table, maxKeyLen, rest[StepWidth(idx)..])
  {
  }

  /** What that segment adds to the output and to the penalty. */
  lemma StepContribution(table: Table, done: seq<Segment>, rest: string, idx: nat)
    requires |rest| > 0 && idx <= |rest| && (idx > 0 ==> rest[..idx] in table)
    ensures OutputAll(table, done + [StepSegment(rest, idx)])
            == OutputAll(table, done) + (if idx > 0 then table[rest[..idx]].output else [rest[0]])
    ensures FlaggedCount(table, done + [StepSegment(rest, idx)])
            == FlaggedCount(table, done) + (if idx > 0 && table[rest[..idx]].penalty then 1 else 0)
  {
    var seg := StepSegment(rest, idx);
    OutputSnoc(table, done, seg);
    FlaggedSnoc(table, done, seg);
    assert FlaggedCount(table, [seg]) == (if idx > 0 && table[rest[..idx]].penalty then 1 else 0) by {
      assert [seg][1..] == [];
    }
  }

  /** One turn of the loop keeps its invariant. */
  lemma ConvertStep(table: Table, maxKeyLen: nat, word: string, done: seq<Segment>, rest: string, idx: nat)
    requires |rest| > 0 && idx == LongestMatch(table, rest, Min(maxKeyLen, |rest|))
    requires done + Segments(table, maxKeyLen, rest) == Segments(table, maxKeyLen, word)
    ensures (done + [StepSegment(rest, idx)]) + Segments(table, maxKeyLen, rest[StepWidth(idx)..])
            == Segments(table, maxKeyLen, word)
  {
    SegmentsStep(table, maxKeyLen, rest, idx);
    var tail := Segments(table, maxKeyLen, rest[StepWidth(idx)..]);
    assert done + ([StepSegment(rest, idx)] + tail) == (done + [StepSegment(rest, idx)]) + tail;
  }

  /** The inner `for idx in range(n, 0, -1)` loop: the first (longest) prefix that is a key. */
  method FindLongest(table: Table, rest: string, n: nat) returns (idx: nat)
    requires n <= |rest|
    ensures idx == LongestMatch(table, rest, n)
  {
    idx := n;
    while idx > 0
      invariant idx <= n
      invariant LongestMatch(table, rest, n) == LongestMatch(table, rest, idx)
      decreases idx
    {
      if rest[..idx] in table {
        break;
      }
      idx := idx - 1;
    }
  }

  /** The `while rest_word` loop of mk_candidate: the converted text and the table penalty. */
  method Convert(table: Table, maxKeyLen: nat, word: string) returns (outWord: string, penalty: nat)
    ensures outWord == OutputAll(table, Segments(table, maxKeyLen, word))
    ensures penalty == FlaggedCount(table, Segments(table, maxKeyLen, word))
  {
    outWord := "";
    penalty := 0;
    var restWord := word;
    ghost var done: seq<Segment> := [];
    while |restWord| > 0
      invariant done + Segments(table, maxKeyLen, restWord) == Segments(table, maxKeyLen, word)
      invariant outWord == OutputAll(table, done)
      invariant penalty == FlaggedCount(table, done)
      decreases |restWord|
    {
      var idx := FindLongest(table, restWord, Min(maxKeyLen, |restWord|));
      ConvertStep(table, maxKeyLen, word, done, restWord, idx);
      StepContribution(table, done, restWord, idx);
      done := done + [StepSegment(restWord, idx)];
      if idx > 0 {
        var conv := table[restWord[..idx]];
        outWord := outWord + conv.output;
        penalty := penalty + (if conv.penalty then 1 else 0);
        restWord := restWord[idx..];
      } else {
        outWord := outWord + [restWord[0]];
        restWord := restWord[1..];
      }
    }
    assert done == Segments(table, maxKeyLen, word);
  }

  // ----- Tables -----

  /** The length of the longest key (`len(max(dct.keys(), key=len))`), 0 for no keys. */
  ghost function MaxLen(keys: set<string>): (r: nat)
    ensures forall k :: k in keys ==> |k| <= r
    ensures keys != {} ==> exists k :: k in keys && |k| == r
    decreases keys
  {
    if keys == {} then 0
    else
      var k :| k in keys;
      var m := MaxLen(keys - {k});
      if |k| >= m then |k| else m
  }

  ghost function MaxKeyLength(table: Table): (r: nat)
    ensures forall k :: k in table ==> |k| <= r
  {
    MaxLen(table.Keys)
  }

  /** With the table's own maximum key length, the first step takes the longest key of the
      whole table that is a prefix of the word, and a character is copied only when no
      non-empty key is a prefix. */
  lemma FirstSegmentLongestKey(table: Table, rest: string, key: string)
    requires |rest| > 0 && key in table && |key| > 0 && key <= rest
    ensures var seg := Segments(table, MaxKeyLength(table), rest)[0];
      seg.Matched? && |key| <= |seg.key|
  {
    var n := Min(MaxKeyLength(table), |rest|);
    FirstSegmentIsLongest(table, MaxKeyLength(table), rest);
    assert |key| <= n;
    assert rest[..|key|] == key;
  }

  /** The characters read_conversion_dict adds when the table lacks them. */
  const DefaultChars: string := " -."

  /** read_conversion_dict: space, hyphen and full stop become a space unless the table
      already lists them. */
  method AddDefaults(table: Table) returns (r: Table)
    ensures forall k :: k in r <==> k in table || (|k| == 1 && k[0] in DefaultChars)
    ensures forall k :: k in table ==> r[k] == table[k]
    ensures forall k :: k in r && k !in table ==> r[k] == Conversion(" ", false)
  {
    r := table;
    for j := 0 to |DefaultChars|
      invariant forall k :: k in r <==> k in table || (|k| == 1 && k[0] in DefaultChars[..j])
      invariant forall k :: k in table ==> r[k] == table[k]
      invariant forall k :: k in r && k !in table ==> r[k] == Conversion(" ", false)
    {
      var key := [DefaultChars[j]];
      assert DefaultChars[..j + 1] == DefaultChars[..j] + [DefaultChars[j]];
      forall k: string | |k| == 1 && k[0] == DefaultChars[j]
        ensures k == key
      {
      }
      if key !in r {
        r := r[key := Conversion(" ", false)];
      }
    }
    assert DefaultChars[..|DefaultChars|] == DefaultChars;
  }
}
