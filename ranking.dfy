// The presentation of candidates for selection in scripts/buildvoc.py (print_cands): the
// candidates sorted by related natural languages, total score and external form, then
// numbered, starred and filtered.
module Ranking {
  import opened Wrappers
  import opened Text
  import opened Phonology
  import opened Candidates
  import opened CandidateConstraints

  // ----- The sort key -----

  /** The sort key of a candidate: (-related count, -total score, external form). */
  datatype SortKey = SortKey(related: nat, total: real, exported: string)

  /** The order of Python's tuple comparison on the key: more related languages first, then
      the higher total score, then the external forms alphabetically. */
  predicate KeyLess(a: SortKey, b: SortKey)
  {
    a.related > b.related
    || (a.related == b.related && (a.total > b.total || (a.total == b.total && Less(a.exported, b.exported))))
  }

  lemma KeyLessIrreflexive(a: SortKey)
    ensures !KeyLess(a, a)
  {
    LessIrreflexive(a.exported);
  }

  /** Two keys are ordered one way or the other, or equal, and never both ways. */
  lemma KeyLessTotal(a: SortKey, b: SortKey)
    ensures KeyLess(a, b) || KeyLess(b, a) || a == b
    ensures !(KeyLess(a, b) && KeyLess(b, a))
  {
    LessTotal(a.exported, b.exported);
  }

  lemma KeyLessTransitive(a: SortKey, b: SortKey, c: SortKey)
    requires KeyLess(a, b) && KeyLess(b, c)
    ensures KeyLess(a, c)
  {
    if a.related == b.related == c.related && a.total == b.total == c.total {
      LessTransitive(a.exported, b.exported, c.exported);
    }
  }

  // ----- The data print_cands reads from each candidate -----

  /** What print_cands looks at: the sort key, the normalised external form, the length in
      sounds, the distortion score and the reason the constraints reject the candidate. */
  datatype Info = Info(key: SortKey, norm: string, len: nat, dscore: real, failure: string)

  datatype Entry = Entry(cand: Candidate, info: Info)

  /** The data of `c`; the failure is "" without constraints. */
  function InfoOf(c: Candidate, constraints: Option<Constraints>): Info
    reads c
  {
    var ex := c.ExportedWord();
    Info(SortKey(c.CountRelatedNatlangCands(), c.TotalScore(), ex), Normalized(ex),
         |c.word|, c.DScore(), if constraints.Some? then constraints.value.Fails(c) else "")
  }

  /** The candidates with their data, in the order given. */
  function Entries(cands: seq<Candidate>, constraints: Option<Constraints>): (r: seq<Entry>)
    reads set i | 0 <= i < |cands| :: cands[i]
    ensures |r| == |cands|
    ensures forall i :: 0 <= i < |cands| ==> r[i] == Entry(cands[i], InfoOf(cands[i], constraints))
  {
    seq(|cands|, i requires 0 <= i < |cands| reads if 0 <= i < |cands| then {cands[i]} else {} =>
      Entry(cands[i], InfoOf(cands[i], constraints)))
  }

  // ----- Sorting (Python's sorted, which is stable) -----

  predicate Sorted(s: seq<Entry>)
  {
    forall i, j :: 0 <= i < j < |s| ==> !KeyLess(s[j].info.key, s[i].info.key)
  }

  /** `x` placed after every entry whose key is not greater than its own. */
  function Insert(x: Entry, s: seq<Entry>): (r: seq<Entry>)
    ensures |r| == |s| + 1
  {
    if |s| == 0 then [x]
    else if KeyLess(x.info.key, s[0].info.key) then [x] + s
    else [s[0]] + Insert(x, s[1..])
  }

  /** `sorted(entries, key=...)`, as an insertion sort from the left. */
  function SortEntries(s: seq<Entry>): (r: seq<Entry>)
    ensures |r| == |s|
  {
    if |s| == 0 then [] else Insert(s[|s| - 1], SortEntries(s[..|s| - 1]))
  }

  lemma {:induction false} InsertPermutes(x: Entry, s: seq<Entry>)
    ensures multiset(Insert(x, s)) == multiset(s) + multiset{x}
  {
    if |s| > 0 && !KeyLess(x.info.key, s[0].info.key) {
      InsertPermutes(x, s[1..]);
      assert s == [s[0]] + s[1..];
    }
  }

  /** Every key of `Insert(x, s)` is that of `x` or a key of `s`. */
  lemma {:induction false} InsertKeys(x: Entry, s: seq<Entry>)
    ensures forall e :: e in Insert(x, s) ==> e == x || e in s
  {
    if |s| > 0 && !KeyLess(x.info.key, s[0].info.key) {
      InsertKeys(x, s[1..]);
    }
  }

  lemma {:induction false} InsertSorted(x: Entry, s: seq<Entry>)
    requires Sorted(s)
    ensures Sorted(Insert(x, s))
  {
    if |s| == 0 {
    } else if KeyLess(x.info.key, s[0].info.key) {
      var r := [x] + s;
      forall i, j | 0 <= i < j < |r| ensures !KeyLess(r[j].info.key, r[i].info.key) {
        if i == 0 {
          var k := r[j].info.key;
          if j > 1 {
            KeyLessTotal(s[0].info.key, k);
            if KeyLess(s[0].info.key, k) {
              KeyLessTransitive(x.info.key, s[0].info.key, k);
            }
          }
          KeyLessTotal(x.info.key, k);
        }
      }
    } else {
      var t := s[1..];
      assert Sorted(t);
      InsertSorted(x, t);
      InsertKeys(x, t);
      var r := [s[0]] + Insert(x, t);
      forall i, j | 0 <= i < j < |r| ensures !KeyLess(r[j].info.key, r[i].info.key) {
        if i == 0 {
          var e := r[j];
          assert e in Insert(x, t);
          if e == x {
            KeyLessTotal(x.info.key, s[0].info.key);
          } else {
            assert e in s[1..];
          }
        }
      }
    }
  }

  /** The sorted entries are ordered by the key and are the entries given, rearranged. */
  lemma {:induction false} SortEntriesSorted(s: seq<Entry>)
    ensures Sorted(SortEntries(s))
    ensures multiset(SortEntries(s)) == multiset(s)
  {
    if |s| > 0 {
      var n := |s| - 1;
      SortEntriesSorted(s[..n]);
      InsertSorted(s[n], SortEntries(s[..n]));
      InsertPermutes(s[n], SortEntries(s[..n]));
      assert s == s[..n] + [s[n]];
    }
  }

  // ----- Skipping, numbering and starring -----

  /** Why a candidate is not offered for selection. */
  datatype SkipReason = WordExists | TooShort | TooDistorted | Rejected(reason: string)

  /** The first reason that applies, in the order print_cands checks them. */
  function Skip(info: Info, minLength: nat, existingNormWords: set<string>, allowDuplicates: bool)
    : (r: Option<SkipReason>)
    ensures r == Some(WordExists) <==> info.norm in existingNormWords && !allowDuplicates
    ensures r.None? <==> (info.norm !in existingNormWords || allowDuplicates) && info.len >= minLength
                         && info.dscore > 0.6 && info.failure == ""
    ensures r.Some? && r.value.Rejected? ==> r.value.reason == info.failure && info.failure != ""
  {
    if info.norm in existingNormWords && !allowDuplicates then Some(WordExists)
    else if info.len < minLength then Some(TooShort)
    else if info.dscore <= 0.6 then Some(TooDistorted)
    else if info.failure != "" then Some(Rejected(info.failure))
    else None
  }

  /** The prefix printed before a candidate: its number or why it was skipped, and whether it
      has the best total score. */
  datatype Prefix = Numbered(num: nat, star: bool) | Skipped(reason: SkipReason, star: bool)

  /** The candidates of `s` that are offered, in order. */
  function Kept(s: seq<Entry>, minLength: nat, existingNormWords: set<string>, allowDuplicates: bool)
    : (r: seq<Candidate>)
    ensures |r| <= |s|
    ensures forall c :: c in r ==> exists i :: 0 <= i < |s| && s[i].cand == c
  {
    if |s| == 0 then []
    else
      var n := |s| - 1;
      var before := Kept(s[..n], minLength, existingNormWords, allowDuplicates);
      assert forall i :: 0 <= i < n ==> s[..n][i] == s[i];
      if Skip(s[n].info, minLength, existingNormWords, allowDuplicates).None? then before + [s[n].cand] else before
  }

  lemma KeptSnoc(s: seq<Entry>, i: nat, minLength: nat, existingNormWords: set<string>, allowDuplicates: bool)
    requires i < |s|
    ensures Kept(s[..i + 1], minLength, existingNormWords, allowDuplicates)
            == Kept(s[..i], minLength, existingNormWords, allowDuplicates)
               + (if Skip(s[i].info, minLength, existingNormWords, allowDuplicates).None? then [s[i].cand] else [])
  {
    assert s[..i + 1][..i] == s[..i];
  }

  /** The best total score among the candidates. */
  function BestScore(cands: seq<Candidate>): (r: real)
    requires |cands| > 0
    reads set i | 0 <= i < |cands| :: cands[i]
    ensures forall i :: 0 <= i < |cands| ==> cands[i].TotalScore() <= r
    ensures exists i :: 0 <= i < |cands| && cands[i].TotalScore() == r
  {
    if |cands| == 1 then cands[0].TotalScore()
    else
      var m := BestScore(cands[1..]);
      assert forall i :: 1 <= i < |cands| ==> cands[1..][i - 1] == cands[i];
      var t := cands[0].TotalScore();
      if t > m then t else m
  }

  /** print_cands: the candidates offered for selection, in sorted order, and the prefix of
      each printed line. Every line with the best total score carries a star, skipped or not;
      the offered candidates are numbered 1, 2, 3, ... in order. */
  method PrintCands(candList: seq<Candidate>, minLength: nat, constraints: Option<Constraints>,
                    existingNormWords: set<string>, allowDuplicates: bool)
    returns (result: seq<Candidate>, prefixes: seq<Prefix>)
    ensures |candList| == 0 ==> result == [] && prefixes == []
    ensures |candList| > 0 ==>
      LinesFor(result, prefixes, SortEntries(Entries(candList, constraints)), BestScore(candList),
               minLength, existingNormWords, allowDuplicates)
  {
    if |candList| == 0 {
      return [], [];
    }
    var bestScore := BestScore(candList);
    var sorted := SortEntries(Entries(candList, constraints));
    result, prefixes := Present(sorted, bestScore, minLength, existingNormWords, allowDuplicates);
  }

  /** The loop of print_cands over the sorted entries. */
  method Present(sorted: seq<Entry>, bestScore: real, minLength: nat, existingNormWords: set<string>,
                 allowDuplicates: bool)
    returns (result: seq<Candidate>, prefixes: seq<Prefix>)
    ensures LinesFor(result, prefixes, sorted, bestScore, minLength, existingNormWords, allowDuplicates)
  {
    result, prefixes := [], [];
    var num := 1;
    for i := 0 to |sorted|
      invariant result == Kept(sorted[..i], minLength, existingNormWords, allowDuplicates)
      invariant num == |result| + 1
      invariant |prefixes| == i
      invariant forall k :: 0 <= k < i ==>
        PrefixFor(prefixes[k], sorted, k, bestScore, minLength, existingNormWords, allowDuplicates)
    {
      KeptSnoc(sorted, i, minLength, existingNormWords, allowDuplicates);
      var info := sorted[i].info;
      var star := info.key.total == bestScore;
      var prefix: Prefix;
      if info.norm in existingNormWords && !allowDuplicates {
        prefix := Skipped(WordExists, star);
      } else if info.len < minLength {
        prefix := Skipped(TooShort, star);
      } else if info.dscore <= 0.6 {
        prefix := Skipped(TooDistorted, star);
      } else if info.failure != "" {
        prefix := Skipped(Rejected(info.failure), star);
      } else {
        prefix := Numbered(num, star);
        num := num + 1;
        result := result + [sorted[i].cand];
      }
      prefixes := prefixes + [prefix];
    }
    assert sorted[..|sorted|] == sorted;
  }

  /** The prefix of the `k`-th sorted line: a number one past the offered candidates before
      it, or the reason it is skipped; a star exactly when its total score is the best. */
  ghost predicate PrefixFor(p: Prefix, sorted: seq<Entry>, k: nat, bestScore: real, minLength: nat,
                            existingNormWords: set<string>, allowDuplicates: bool)
  {
    k < |sorted|
    && (p.star <==> sorted[k].info.key.total == bestScore)
    && (var skip := Skip(sorted[k].info, minLength, existingNormWords, allowDuplicates);
        (skip.None? <==> p.Numbered?)
        && (p.Skipped? ==> skip == Some(p.reason))
        && (p.Numbered? ==> p.num == |Kept(sorted[..k], minLength, existingNormWords, allowDuplicates)| + 1))
  }

  /** The output of print_cands: the kept candidates of the sorted entries, and one prefix per
      sorted entry. */
  ghost predicate LinesFor(result: seq<Candidate>, prefixes: seq<Prefix>, sorted: seq<Entry>, bestScore: real,
                           minLength: nat, existingNormWords: set<string>, allowDuplicates: bool)
  {
    result == Kept(sorted, minLength, existingNormWords, allowDuplicates)
    && |prefixes| == |sorted|
    && forall k :: 0 <= k < |sorted| ==>
         PrefixFor(prefixes[k], sorted, k, bestScore, minLength, existingNormWords, allowDuplicates)
  }

  /** Entry `k` of `s` is offered, after `m` offered entries. */
  predicate OfferedAt(s: seq<Entry>, k: int, m: nat, minLength: nat, existingNormWords: set<string>,
                      allowDuplicates: bool)
  {
    0 <= k < |s| && Skip(s[k].info, minLength, existingNormWords, allowDuplicates).None?
    && |Kept(s[..k], minLength, existingNormWords, allowDuplicates)| == m
  }

  /** The candidate numbered `m + 1` is the `m`-th offered candidate: the offered candidates
      are numbered 1, 2, 3, ... in sorted order. */
  lemma {:induction false} KeptNumbering(s: seq<Entry>, m: nat, minLength: nat, existingNormWords: set<string>,
                                         allowDuplicates: bool)
    requires m < |Kept(s, minLength, existingNormWords, allowDuplicates)|
    ensures exists k :: OfferedAt(s, k, m, minLength, existingNormWords, allowDuplicates)
                        && s[k].cand == Kept(s, minLength, existingNormWords, allowDuplicates)[m]
  {
    var n := |s| - 1;
    var t := s[..n];
    var before := Kept(t, minLength, existingNormWords, allowDuplicates);
    if m < |before| {
      KeptNumbering(t, m, minLength, existingNormWords, allowDuplicates);
      var k :| OfferedAt(t, k, m, minLength, existingNormWords, allowDuplicates)
               && t[k].cand == Kept(t, minLength, existingNormWords, allowDuplicates)[m];
      assert t[..k] == s[..k];
      assert OfferedAt(s, k, m, minLength, existingNormWords, allowDuplicates);
    } else {
      assert OfferedAt(s, n, m, minLength, existingNormWords, allowDuplicates);
    }
  }

  /** A non-empty list has a line with a star. */
  lemma SomeLineStarred(candList: seq<Candidate>, constraints: Option<Constraints>)
    requires |candList| > 0
    ensures exists k ::
      0 <= k < |candList| && SortEntries(Entries(candList, constraints))[k].info.key.total == BestScore(candList)
  {
    var es := Entries(candList, constraints);
    var sorted := SortEntries(es);
    var i :| 0 <= i < |candList| && candList[i].TotalScore() == BestScore(candList);
    SortEntriesSorted(es);
    assert es[i] in multiset(sorted);
    var k :| 0 <= k < |sorted| && sorted[k] == es[i];
  }
}
