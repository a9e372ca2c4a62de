// The line-oriented key/value record format of scripts/linedict.py.
module LineDicts {
  import opened Wrappers
  import opened Text

  // ----- The contents of a LineDict as a value -----

  /** The state of a LineDict: its keys in insertion order (Python's dict order), the value
      and the line number stored for each key, and the line number of the very first `add`
      (None before it). The file name, only used in warnings, is not modelled. */
  datatype Dict = Dict(keys: seq<string>, store: map<string, string>, lines: map<string, int>,
                       first: Option<int>)

  /** The keys are distinct and are exactly those with a value; every stored key has a line
      number; before the first `add` no line number was recorded. */
  ghost predicate WellFormed(d: Dict)
  {
    (forall i, j :: 0 <= i < j < |d.keys| ==> d.keys[i] != d.keys[j])
    && (forall k :: k in d.store <==> k in d.keys)
    && d.store.Keys <= d.lines.Keys
    && (d.first.None? ==> d.lines == map[])
  }

  const Empty: Dict := Dict([], map[], map[], None)

  /** `dct.get(key, default)` */
  function Lookup(d: Dict, key: string, default: string): string
  {
    if key in d.store then d.store[key] else default
  }

  /** add: store the value and the line number, replacing an existing value (a new key goes
      last, an existing one keeps its place); only the first call sets `first`. */
  function AddTo(d: Dict, key: string, value: string, lineno: int): Dict
  {
    Dict(if key in d.store then d.keys else d.keys + [key],
         d.store[key := value], d.lines[key := lineno],
         if d.first.None? then Some(lineno) else d.first)
  }

  /** append_to_val: the text goes at the end of the key's value; an unknown key (a KeyError
      in Python) leaves the dictionary as it is. */
  function AppendTo(d: Dict, key: string, text: string): Dict
  {
    if key in d.store then d.(store := d.store[key := d.store[key] + text]) else d
  }

  lemma AddToWellFormed(d: Dict, key: string, value: string, lineno: int)
    requires WellFormed(d)
    ensures WellFormed(AddTo(d, key, value, lineno))
  {
  }

  /** One `add` call with its line number. */
  datatype Item = Item(key: string, value: string, lineno: int)

  /** The dictionary built by calling `add` for the first `n` items in turn on an empty
      one. */
  function AddPrefix(items: seq<Item>, n: nat): (r: Dict)
    requires n <= |items|
    ensures WellFormed(r)
  {
    if n == 0 then Empty
    else
      var it := items[n - 1];
      AddToWellFormed(AddPrefix(items, n - 1), it.key, it.value, it.lineno);
      AddTo(AddPrefix(items, n - 1), it.key, it.value, it.lineno)
  }

  /** The dictionary built by calling `add` for each item in turn. */
  function AddAll(items: seq<Item>): (r: Dict)
    ensures WellFormed(r)
  {
    AddPrefix(items, |items|)
  }

  /** For each key the value and line number of its LAST item are kept (a repeated key
      keeps its last value). */
  lemma {:induction false} AddPrefixLastWins(items: seq<Item>, n: nat, i: nat)
    requires i < n <= |items|
    requires forall j :: i < j < n ==> items[j].key != items[i].key
    ensures items[i].key in AddPrefix(items, n).store
    ensures AddPrefix(items, n).store[items[i].key] == items[i].value
    ensures AddPrefix(items, n).lines[items[i].key] == items[i].lineno
  {
    if i < n - 1 {
      AddPrefixLastWins(items, n - 1, i);
    }
  }

  /** A key no item carries is not in the built dictionary. */
  lemma {:induction false} AddPrefixAbsent(items: seq<Item>, n: nat, k: string)
    requires n <= |items|
    requires forall j :: 0 <= j < n ==> items[j].key != k
    ensures k !in AddPrefix(items, n).store && k !in AddPrefix(items, n).lines
  {
    if n > 0 {
      AddPrefixAbsent(items, n - 1, k);
    }
  }

  /** The first line number is that of the first item, and stays unset without items. */
  lemma {:induction false} AddPrefixFirst(items: seq<Item>, n: nat)
    requires n <= |items|
    ensures n == 0 ==> AddPrefix(items, n).first == None
    ensures n > 0 ==> AddPrefix(items, n).first == Some(items[0].lineno)
  {
    if n > 0 {
      AddPrefixFirst(items, n - 1);
    }
  }

  // ----- The mutable LineDict -----

  class LineDict {
    var keys: seq<string>
    var store: map<string, string>
    var lines: map<string, int>
    var first: Option<int>

    function Model(): Dict
      reads this
    {
      Dict(keys, store, lines, first)
    }

    ghost predicate Valid()
      reads this
    {
      WellFormed(Model())
    }

    constructor ()
      ensures Valid() && Model() == Empty
    {
      keys := [];
      store := map[];
      lines := map[];
      first := None;
    }

    /** add (the duplicate-key warning is not modelled). */
    method Add(key: string, value: string, lineno: int)
      requires Valid()
      modifies this
      ensures Valid() && Model() == AddTo(old(Model()), key, value, lineno)
    {
      if key !in store {
        keys := keys + [key];
      }
      store := store[key := value];
      lines := lines[key := lineno];
      if first.None? {
        first := Some(lineno);
      }
    }

    /** append_to_val; `found` is false where Python raises KeyError. */
    method AppendToVal(key: string, appendText: string) returns (found: bool)
      requires Valid()
      modifies this
      ensures found <==> key in old(store)
      ensures Valid() && Model() == AppendTo(old(Model()), key, appendText)
    {
      found := key in store;
      if found {
        store := store[key := store[key] + appendText];
      }
    }

    /** __setitem__: `add` with the first line number (or -1) as the line number. */
    method SetItem(key: string, item: string)
      requires Valid()
      modifies this
      ensures Valid() && Model() == AddTo(old(Model()), key, item, old(FirstLineno()))
    {
      Add(key, item, FirstLineno());
    }

    /** __delitem__: the key and its value go, its line number stays recorded; `found` is
        false where Python raises KeyError. */
    method DelItem(key: string) returns (found: bool)
      requires Valid()
      modifies this
      ensures found <==> key in old(store)
      ensures Valid() && lines == old(lines) && first == old(first)
      ensures store == old(store) - {key}
      ensures keys == if found then RemoveKey(old(keys), key) else old(keys)
    {
      found := key in store;
      if found {
        RemoveKeyProperties(keys, key);
        keys := RemoveKey(keys, key);
        store := store - {key};
      }
    }

    /** `dct.get(key, default)` */
    function Get(key: string, default: string): string
      reads this
    {
      Lookup(Model(), key, default)
    }

    /** first_lineno: the line number given to the first `add`, or -1. */
    function FirstLineno(): int
      reads this
    {
      if first.Some? then first.value else -1
    }

    /** lineno: the line number recorded for the key, or -1. */
    function Lineno(key: string): int
      reads this
    {
      if key in lines then lines[key] else -1
    }
  }

  function RemoveKey(ks: seq<string>, k: string): seq<string>
  {
    if |ks| == 0 then [] else if ks[0] == k then ks[1..] else [ks[0]] + RemoveKey(ks[1..], k)
  }

  /** Removing a key from a duplicate-free key list drops exactly that key. */
  lemma {:induction false} RemoveKeyProperties(ks: seq<string>, k: string)
    requires forall i, j :: 0 <= i < j < |ks| ==> ks[i] != ks[j]
    ensures forall x :: x in RemoveKey(ks, k) <==> x in ks && x != k
    ensures forall i, j :: 0 <= i < j < |RemoveKey(ks, k)| ==>
              RemoveKey(ks, k)[i] != RemoveKey(ks, k)[j]
    decreases |ks|
  {
    if |ks| > 0 {
      assert forall i, j :: 0 <= i < j < |ks[1..]| ==> ks[1..][i] != ks[1..][j] by {
        forall i, j | 0 <= i < j < |ks[1..]| ensures ks[1..][i] != ks[1..][j] {
          assert ks[1..][i] == ks[i + 1] && ks[1..][j] == ks[j + 1];
        }
      }
      RemoveKeyProperties(ks[1..], k);
      assert ks[0] !in ks[1..];
    }
  }

  /** First line number and line numbers of a dictionary built by a series of `add` calls:
      the line number of the first call, -1 when there was none, the line number of a key's
      last `add`, and -1 for a key never added. */
  lemma LinenoAfterAdds(d: LineDict, items: seq<Item>, k: string)
    requires d.Model() == AddAll(items)
    ensures |items| == 0 ==> d.FirstLineno() == -1
    ensures |items| > 0 ==> d.FirstLineno() == items[0].lineno
    ensures (forall j :: 0 <= j < |items| ==> items[j].key != k) ==> d.Lineno(k) == -1
  {
    AddPrefixFirst(items, |items|);
    if forall j :: 0 <= j < |items| ==> items[j].key != k {
      AddPrefixAbsent(items, |items|, k);
    }
  }

  /** `add` replaces: the value and line number read back are the latest ones. */
  lemma AddStores(d: LineDict, items: seq<Item>, i: nat)
    requires d.Model() == AddAll(items)
    requires i < |items|
    requires forall j :: i < j < |items| ==> items[j].key != items[i].key
    ensures d.Get(items[i].key, "") == items[i].value
    ensures d.Lineno(items[i].key) == items[i].lineno
  {
    AddPrefixLastWins(items, |items|, i);
  }

  // ----- Lines -----

  /** A line boundary of `str.splitlines()`. */
  predicate IsLineBreak(c: char)
  {
    c == '\n' || c == '\r' || c == '\U{000B}' || c == '\U{000C}' || '\U{001C}' <= c <= '\U{001E}'
    || c == '\U{0085}' || c == '\U{2028}' || c == '\U{2029}'
  }

  predicate NoBreak(s: string)
  {
    forall i :: 0 <= i < |s| ==> !IsLineBreak(s[i])
  }

  /** The first line boundary at or after `i`, or |s|. */
  function BreakFrom(s: string, i: nat): (j: nat)
    requires i <= |s|
    ensures i <= j <= |s| && (j < |s| ==> IsLineBreak(s[j]))
    ensures forall k :: i <= k < j ==> !IsLineBreak(s[k])
    decreases |s| - i
  {
    if i == |s| || IsLineBreak(s[i]) then i else BreakFrom(s, i + 1)
  }

  /** Where the line after a boundary at `i` begins: "\r\n" counts as one boundary. */
  function NextLine(s: string, i: nat): (j: nat)
    requires i < |s|
    ensures i < j <= |s|
  {
    if s[i] == '\r' && i + 1 < |s| && s[i + 1] == '\n' then i + 2 else i + 1
  }

  /** `s.splitlines()`: the lines without their boundaries; text after the last boundary is
      a line of its own, a final boundary opens no empty line. */
  function SplitLines(s: string): (r: seq<string>)
    ensures forall k :: 0 <= k < |r| ==> NoBreak(r[k])
    decreases |s|
  {
    if s == "" then []
    else
      var i := BreakFrom(s, 0);
      if i == |s| then [s] else [s[..i]] + SplitLines(s[NextLine(s, i)..])
  }

  /** Splitting text whose first part ends with "\n" splits each part separately. */
  lemma {:induction false} SplitLinesAppend(a: string, b: string)
    requires |a| > 0 && a[|a| - 1] == '\n'
    ensures SplitLines(a + b) == SplitLines(a) + SplitLines(b)
    decreases |a|
  {
    var i := BreakFrom(a, 0);
    var j := NextLine(a, i);
    SplitLinesAppendHead(a, b);
    var rest := a[j..];
    if j < |a| {
      assert rest[|rest| - 1] == '\n';
      SplitLinesAppend(rest, b);
    } else {
      assert rest == "";
      assert rest + b == b;
    }
    ConsAssoc(a[..i], SplitLines(rest), SplitLines(b));
  }

  lemma ConsAssoc(x: string, p: seq<string>, q: seq<string>)
    ensures [x] + (p + q) == [x] + p + q
  {
  }

  /** The first line of `a + b` is the first line of `a`, when `a` ends with "\n". */
  lemma SplitLinesAppendHead(a: string, b: string)
    requires |a| > 0 && a[|a| - 1] == '\n'
    ensures BreakFrom(a, 0) < |a|
    ensures SplitLines(a + b)
            == [a[..BreakFrom(a, 0)]] + SplitLines(a[NextLine(a, BreakFrom(a, 0))..] + b)
  {
    var i := BreakFrom(a, 0);
    assert i < |a|;
    BreakFromPrefix(a, b, 0);
    NextLineAppend(a, b, i);
    var j := NextLine(a, i);
    TakeDropAppend(a, b, i, j);
  }

  lemma NextLineAppend(a: string, b: string, i: nat)
    requires i < |a| && a[|a| - 1] == '\n'
    ensures NextLine(a + b, i) == NextLine(a, i)
  {
    var s := a + b;
    assert s[i] == a[i];
    if i + 1 < |a| {
      assert s[i + 1] == a[i + 1];
    } else {
      assert a[i] == '\n';
    }
  }

  lemma TakeDropAppend(a: string, b: string, i: nat, j: nat)
    requires i <= |a| && j <= |a|
    ensures (a + b)[..i] == a[..i] && (a + b)[j..] == a[j..] + b
  {
  }

  lemma BreakFromPrefix(a: string, b: string, i: nat)
    requires i <= |a| && BreakFrom(a, i) < |a|
    ensures BreakFrom(a + b, i) == BreakFrom(a, i)
    decreases |a| - i
  {
    if i < |a| && !IsLineBreak(a[i]) {
      BreakFromPrefix(a, b, i + 1);
    }
  }

  /** A single break-free line followed by "\n" splits into that line. */
  lemma SplitOneLine(l: string)
    requires NoBreak(l)
    ensures SplitLines(l + "\n") == [l]
  {
    var s := l + "\n";
    assert forall k :: 0 <= k < |l| ==> s[k] == l[k];
    assert BreakFrom(s, 0) == |l| by {
      BreakFromFree(s, 0, |l|);
    }
    assert s[..|l|] == l;
    assert s[|l| + 1..] == "";
  }

  lemma BreakFromFree(s: string, i: nat, n: nat)
    requires i <= n < |s| && IsLineBreak(s[n])
    requires forall k :: i <= k < n ==> !IsLineBreak(s[k])
    ensures BreakFrom(s, i) == n
    decreases n - i
  {
    if i < n {
      BreakFromFree(s, i + 1, n);
    }
  }

  // ----- dict_from_str -----

  /** What the parser remembers of the previous lines: None at the start, "" after a
      comment, an empty line or an empty key, otherwise the key last added. */
  datatype ParseState = ParseState(d: Dict, last: Option<string>)

  predicate StartsWith(s: string, p: string)
  {
    |p| <= |s| && s[..|p|] == p
  }

  /** A comment line: '#' after possible whitespace. */
  predicate IsComment(line: string)
  {
    |LStrip(line)| > 0 && LStrip(line)[0] == '#'
  }

  /** One line of dict_from_str.
      A continuation line (two leading spaces) adds a line break and its text after those
      spaces to the value of the last key, if there is one.
      An empty or comment line is skipped and forgets the last key.
      Otherwise the line, without leading whitespace, is split at its first ':' into a key
      and a value, both stripped; a line without ':' and a line with an empty key are
      dropped. */
  function ParseLine(st: ParseState, raw: string, lineno: int): ParseState
  {
    var line := RStrip(raw);
    if StartsWith(line, "  ") then Continuation(st, line)
    else if line == "" || IsComment(line) then ParseState(st.d, Some(""))
    else KeyValueLine(st, line, lineno)
  }

  /** A continuation line (its first two characters are the spaces). */
  function Continuation(st: ParseState, line: string): ParseState
    requires |line| >= 2
  {
    if st.last.Some? && st.last.value != "" then
      ParseState(AppendTo(st.d, st.last.value, "\n" + line[2..]), st.last)
    else st
  }

  /** A line that should hold a key/value pair; without leading blanks or tabs it is split
      into a key and a value. */
  function KeyValueLine(st: ParseState, line: string, lineno: int): ParseState
    requires line != ""
  {
    var content := if line[0] == ' ' || line[0] == '\t' then LStrip(line) else line;
    match SplitKeyValue(content)
    case None => st
    case Some((key, value)) =>
      if key == "" then ParseState(st.d, Some(key))
      else ParseState(AddTo(st.d, key, value, lineno), Some(key))
  }

  /** `line.split(':', 1)` with both parts stripped, None when there is no ':'. */
  function SplitKeyValue(line: string): Option<(string, string)>
  {
    var i := FindChar(line, ':');
    if i < 0 then None else Some((Strip(line[..i]), Strip(line[i + 1..])))
  }

  /** The index of the first `c` in `s`, or -1. */
  function FindChar(s: string, c: char): (i: int)
    ensures -1 <= i < |s|
    ensures i >= 0 ==> s[i] == c && forall k :: 0 <= k < i ==> s[k] != c
    ensures i < 0 ==> forall k :: 0 <= k < |s| ==> s[k] != c
  {
    if |s| == 0 then -1
    else if s[0] == c then 0
    else
      var k := FindChar(s[1..], c);
      if k < 0 then -1 else k + 1
  }

  lemma ParseLineWellFormed(st: ParseState, raw: string, lineno: int)
    requires WellFormed(st.d)
    ensures WellFormed(ParseLine(st, raw, lineno).d)
  {
    var line := RStrip(raw);
    if !StartsWith(line, "  ") && line != "" && !IsComment(line) {
      var content := if line[0] == ' ' || line[0] == '\t' then LStrip(line) else line;
      if SplitKeyValue(content).Some? {
        var (key, value) := SplitKeyValue(content).value;
        AddToWellFormed(st.d, key, value, lineno);
      }
    }
  }

  /** The state after the first `n` lines, the first one numbered `firstline`. */
  function ParsePrefix(lines: seq<string>, n: nat, firstline: int): ParseState
    requires n <= |lines|
  {
    if n == 0 then ParseState(Empty, None)
    else
      var k := n - 1;
      ParseLine(ParsePrefix(lines, k, firstline), lines[k], LineNumber(firstline, k))
  }

  /** The dictionary dict_from_str builds. */
  function Parsed(entry: string, firstline: int): Dict
  {
    var lines := SplitLines(entry);
    ParsePrefix(lines, |lines|, firstline).d
  }

  lemma {:induction false} ParsePrefixWellFormed(lines: seq<string>, n: nat, firstline: int)
    requires n <= |lines|
    ensures WellFormed(ParsePrefix(lines, n, firstline).d)
  {
    if n > 0 {
      var k := n - 1;
      ParsePrefixWellFormed(lines, k, firstline);
      ParseLineWellFormed(ParsePrefix(lines, k, firstline), lines[k], LineNumber(firstline, k));
    }
  }

  /** dict_from_str, as the loop over the lines that fills a new LineDict. */
  method DictFromStr(entry: string, firstline: int) returns (result: LineDict)
    ensures fresh(result) && result.Valid()
    ensures result.Model() == Parsed(entry, firstline)
  {
    var lines := SplitLines(entry);
    var lineno := firstline - 1;
    result := new LineDict();
    var lastKeyAdded: Option<string> := None;
    for i := 0 to |lines|
      invariant lineno + 1 == LineNumber(firstline, i)
      invariant result.Valid()
      invariant ParseState(result.Model(), lastKeyAdded) == ParsePrefix(lines, i, firstline)
    {
      lineno := lineno + 1;
      var line := lines[i];
      ParsePrefixStep(lines, i, firstline, lineno);
      lastKeyAdded := ReadLine(result, lastKeyAdded, line, lineno);
    }
  }

  lemma ParsePrefixStep(lines: seq<string>, i: nat, firstline: int, lineno: int)
    requires i < |lines| && lineno == LineNumber(firstline, i)
    ensures ParsePrefix(lines, i + 1, firstline)
            == ParseLine(ParsePrefix(lines, i, firstline), lines[i], lineno)
  {
  }

  /** The number of the line at index `k` of an entry whose first line is `firstline`. */
  function LineNumber(firstline: int, k: nat): int
  {
    firstline + k
  }

  /** The body of the line loop of dict_from_str: the line is added to `result`, and the
      new "last key" is returned. */
  method ReadLine(result: LineDict, lastKeyAdded: Option<string>, raw: string, lineno: int)
    returns (last: Option<string>)
    requires result.Valid()
    modifies result
    ensures result.Valid()
    ensures ParseState(result.Model(), last)
            == ParseLine(ParseState(old(result.Model()), lastKeyAdded), raw, lineno)
  {
    last := lastKeyAdded;
    var line := RStrip(raw);
    if StartsWith(line, "  ") {
      if lastKeyAdded.Some? && lastKeyAdded.value != "" {
        var _ := result.AppendToVal(lastKeyAdded.value, "\n" + line[2..]);
      }
      return;
    }
    if line == "" || IsComment(line) {
      return Some("");
    }
    if line[0] == ' ' || line[0] == '\t' {
      line := LStrip(line);
    }
    var parts := SplitKeyValue(line);
    if parts.None? {
      return;
    }
    var (key, value) := parts.value;
    last := Some(key);
    if key == "" {
      return;
    }
    result.Add(key, value, lineno);
  }

  /** The line kinds of dict_from_str: a continuation line extends only the value of the
      last key and is dropped at the start and after a comment or empty line; an empty
      or comment line changes no value; a line without ':', or with nothing before its
      first ':', adds nothing. */
  lemma LineKinds(st: ParseState, raw: string, lineno: int)
    ensures var line := RStrip(raw);
            StartsWith(line, "  ") && (st.last.None? || st.last == Some("")) ==>
              ParseLine(st, raw, lineno) == st
    ensures var line := RStrip(raw);
            StartsWith(line, "  ") && st.last.Some? && st.last.value != "" ==>
              ParseLine(st, raw, lineno).d == AppendTo(st.d, st.last.value, "\n" + line[2..])
    ensures var line := RStrip(raw);
            !StartsWith(line, "  ") && (line == "" || IsComment(line)) ==>
              ParseLine(st, raw, lineno) == ParseState(st.d, Some(""))
  {
  }

  /** A key/value line is split at its first ':', key and value stripped; leading
      whitespace does not change the outcome. It is dropped without a ':', and adds nothing
      when the key is empty; otherwise the pair is added. */
  lemma KeyValueKinds(st: ParseState, raw: string, lineno: int)
    requires !StartsWith(RStrip(raw), "  ") && RStrip(raw) != "" && !IsComment(RStrip(raw))
    ensures SplitKeyValue(RStrip(raw)).None? <==> ':' !in RStrip(raw)
    ensures SplitKeyValue(RStrip(raw)).None? ==> ParseLine(st, raw, lineno) == st
    ensures SplitKeyValue(RStrip(raw)).Some? && SplitKeyValue(RStrip(raw)).value.0 == "" ==>
              ParseLine(st, raw, lineno) == ParseState(st.d, Some(""))
    ensures SplitKeyValue(RStrip(raw)).Some? && SplitKeyValue(RStrip(raw)).value.0 != "" ==>
              var (key, value) := SplitKeyValue(RStrip(raw)).value;
              ParseLine(st, raw, lineno) == ParseState(AddTo(st.d, key, value, lineno), Some(key))
  {
    var line := RStrip(raw);
    if line[0] == ' ' || line[0] == '\t' {
      IndentIgnored(line);
    }
  }

  /** Stripping leading whitespace does not change the split. */
  lemma IndentIgnored(line: string)
    ensures SplitKeyValue(LStrip(line)) == SplitKeyValue(line)
  {
    var i := FindChar(line, ':');
    if i >= 0 {
      IndentSplit(line, i);
    } else {
      IndentNoColon(line);
    }
  }

  lemma IndentSplit(line: string, i: nat)
    requires FindChar(line, ':') == i
    ensures SplitKeyValue(LStrip(line)) == SplitKeyValue(line)
  {
    var content := LStrip(line);
    IndentColon(line, i);
    var j := FindChar(content, ':');
    IndentKey(line, i, j);
    IndentValue(line, i, j);
    SplitAt(content, j);
    SplitAt(line, i);
    SameSplit(Strip(content[..j]), Strip(content[j + 1..]), Strip(line[..i]), Strip(line[i + 1..]),
              content[j + 1..], line[i + 1..]);
  }

  /** The split of a line whose first ':' is at `i`. */
  lemma SplitAt(line: string, i: nat)
    requires FindChar(line, ':') == i
    ensures SplitKeyValue(line) == Some((Strip(line[..i]), Strip(line[i + 1..])))
  {
  }

  lemma SameSplit(k1: string, v1: string, k2: string, v2: string, r1: string, r2: string)
    requires k1 == k2 && r1 == r2 && v1 == Strip(r1) && v2 == Strip(r2)
    ensures Some((k1, v1)) == Some((k2, v2))
  {
  }

  /** The first ':' moves left by the whitespace dropped. */
  lemma IndentColon(line: string, i: nat)
    requires FindChar(line, ':') == i
    ensures |line| - |LStrip(line)| <= i
    ensures FindChar(LStrip(line), ':') == i - (|line| - |LStrip(line)|)
  {
    var content := LStrip(line);
    var m := |line| - |content|;
    assert content == line[m..];
    assert i >= m;
    FindCharFirst(content, ':', i - m);
  }

  /** The key part is the same once stripped. */
  lemma IndentKey(line: string, i: nat, j: nat)
    requires |line| - |LStrip(line)| <= i < |line| && j == i - (|line| - |LStrip(line)|)
    ensures Strip(LStrip(line)[..j]) == Strip(line[..i])
  {
    var content := LStrip(line);
    var m := |line| - |content|;
    SliceShiftTake(line, content, m, j, i);
    LStripSkips(line[..i], m);
  }

  /** The value part is the same. */
  lemma IndentValue(line: string, i: nat, j: nat)
    requires |line| - |LStrip(line)| <= i < |line| && j == i - (|line| - |LStrip(line)|)
    ensures LStrip(line)[j + 1..] == line[i + 1..]
  {
    SliceShiftNext(line, LStrip(line), |line| - |LStrip(line)|, j, i);
  }

  /** The text after index `j` of `s[m..]` is the text after index `m + j` of `s`. */
  lemma SliceShiftNext(s: string, t: string, m: nat, j: nat, i: nat)
    requires m + j == i && i < |s| && t == s[m..]
    ensures t[j + 1..] == s[i + 1..]
  {
  }

  /** Taking `a` after dropping `m` is taking `m + a` and dropping `m`. */
  lemma SliceShiftTake(s: string, t: string, m: nat, a: nat, b: nat)
    requires m + a == b && b <= |s| && t == s[m..]
    ensures t[..a] == s[..b][m..]
  {
  }

  /** Without ':' in the line there is none after the whitespace either. */
  lemma IndentNoColon(line: string)
    requires FindChar(line, ':') < 0
    ensures FindChar(LStrip(line), ':') < 0
  {
    var content := LStrip(line);
    var m := |line| - |content|;
    assert forall k :: 0 <= k < |content| ==> content[k] == line[m + k];
  }

  /** The first occurrence of a character is found. */
  lemma FindCharFirst(s: string, c: char, i: nat)
    requires i < |s| && s[i] == c && forall k :: 0 <= k < i ==> s[k] != c
    ensures FindChar(s, c) == i
  {
  }

  /** Dropping leading whitespace before stripping on the left changes nothing. */
  lemma {:induction false} LStripSkips(s: string, m: nat)
    requires m <= |s|
    requires forall k :: 0 <= k < m ==> IsSpace(s[k])
    ensures LStrip(s[m..]) == LStrip(s)
    decreases m
  {
    if m > 0 {
      assert s[1..][m - 1..] == s[m..];
      LStripSkips(s[1..], m - 1);
    }
  }

  // ----- stringify_dict and its round trip -----

  /** The line stringify_dict writes for one pair. */
  function PairLine(key: string, value: string): string
  {
    Normalize(key) + ": " + Normalize(value)
  }

  /** The text stringify_dict builds: one "key: value" line per pair, in order. */
  function Stringified(pairs: seq<(string, string)>): string
  {
    if |pairs| == 0 then ""
    else
      var n := |pairs| - 1;
      Stringified(pairs[..n]) + (PairLine(pairs[n].0, pairs[n].1) + "\n")
  }

  /** stringify_dict over the dictionary's items in order. */
  method StringifyDict(pairs: seq<(string, string)>) returns (result: string)
    ensures result == Stringified(pairs)
  {
    result := "";
    for i := 0 to |pairs|
      invariant result == Stringified(pairs[..i])
    {
      assert pairs[..i + 1][..i] == pairs[..i];
      var normKey := Normalize(pairs[i].0);
      var normValue := Normalize(pairs[i].1);
      result := result + (normKey + ": " + normValue + "\n");
    }
    assert pairs[..|pairs|] == pairs;
  }

  /** A key that reads back as itself: non-empty after normalisation, no ':' and no
      leading '#'. */
  predicate ParsableKey(key: string)
  {
    var k := Normalize(key);
    |k| > 0 && ':' !in k && k[0] != '#'
  }

  /** The `add` calls the parser makes for the written lines: the normalised pairs, the
      i-th on line firstline + i. */
  function NormalizedItems(pairs: seq<(string, string)>, firstline: int): (r: seq<Item>)
    ensures |r| == |pairs|
    ensures forall i :: 0 <= i < |pairs| ==>
              r[i] == Item(Normalize(pairs[i].0), Normalize(pairs[i].1), LineNumber(firstline, i))
  {
    seq(|pairs|, i requires 0 <= i < |pairs| =>
      Item(Normalize(pairs[i].0), Normalize(pairs[i].1), LineNumber(firstline, i)))
  }

  /** The lines stringify_dict writes, without their line breaks. */
  function PairLines(pairs: seq<(string, string)>): (r: seq<string>)
    ensures |r| == |pairs|
  {
    if |pairs| == 0 then []
    else PairLines(pairs[..|pairs| - 1]) + [PairLine(pairs[|pairs| - 1].0, pairs[|pairs| - 1].1)]
  }

  lemma {:induction false} PairLinesAt(pairs: seq<(string, string)>, i: nat)
    requires i < |pairs|
    ensures PairLines(pairs)[i] == PairLine(pairs[i].0, pairs[i].1)
    decreases |pairs|
  {
    if i < |pairs| - 1 {
      PairLinesAt(pairs[..|pairs| - 1], i);
      assert pairs[..|pairs| - 1][i] == pairs[i];
    }
  }

  /** Reading back what stringify_dict wrote gives the normalised pairs, in order, each on
      its own line (so a repeated normalised key keeps its last value). */
  lemma StringifyRoundTrip(pairs: seq<(string, string)>, firstline: int)
    requires forall i :: 0 <= i < |pairs| ==> ParsableKey(pairs[i].0)
    ensures Parsed(Stringified(pairs), firstline) == AddAll(NormalizedItems(pairs, firstline))
  {
    StringifiedLines(pairs);
    ParseWrittenLines(pairs, |pairs|, firstline);
    var items := NormalizedItems(pairs, firstline);
    assert items[..|pairs|] == items;
  }

  /** The written text splits into the pair lines. */
  lemma {:induction false} StringifiedLines(pairs: seq<(string, string)>)
    ensures SplitLines(Stringified(pairs)) == PairLines(pairs)
    decreases |pairs|
  {
    if |pairs| > 0 {
      StringifiedLines(pairs[..|pairs| - 1]);
      var l := PairLine(pairs[|pairs| - 1].0, pairs[|pairs| - 1].1);
      PairLineNoBreak(pairs[|pairs| - 1].0, pairs[|pairs| - 1].1);
      if |pairs| > 1 {
        WrittenEndsWithBreak(pairs[..|pairs| - 1]);
      }
      SplitLinesSnoc(Stringified(pairs[..|pairs| - 1]), l);
    }
  }

  /** One more line written after complete lines is one more line read. */
  lemma SplitLinesSnoc(a: string, l: string)
    requires NoBreak(l) && (a == "" || a[|a| - 1] == '\n')
    ensures SplitLines(a + (l + "\n")) == SplitLines(a) + [l]
  {
    SplitOneLine(l);
    if a == "" {
      assert a + (l + "\n") == l + "\n";
    } else {
      SplitLinesAppend(a, l + "\n");
    }
  }

  lemma WrittenEndsWithBreak(pairs: seq<(string, string)>)
    requires |pairs| > 0
    ensures var a := Stringified(pairs); |a| > 0 && a[|a| - 1] == '\n'
  {
  }

  lemma PairLineNoBreak(key: string, value: string)
    ensures NoBreak(PairLine(key, value))
  {
    NormalizeIsSingleSpaced(key);
    NormalizeIsSingleSpaced(value);
    JoinedNoBreak(Normalize(key), Normalize(value));
  }

  lemma JoinedNoBreak(k: string, v: string)
    requires SingleSpaced(k) && SingleSpaced(v)
    ensures NoBreak(k + ": " + v)
  {
    SingleSpacedNoBreak(k);
    SingleSpacedNoBreak(v);
    var s := k + ": " + v;
    forall i | 0 <= i < |s| ensures !IsLineBreak(s[i]) {
      if i < |k| {
        assert s[i] == k[i];
      } else if i >= |k| + 2 {
        assert s[i] == v[i - |k| - 2];
      }
    }
  }

  /** The only whitespace in a single-spaced text is ' ', which is no line boundary. */
  lemma SingleSpacedNoBreak(r: string)
    requires SingleSpaced(r)
    ensures NoBreak(r)
  {
    forall i | 0 <= i < |r| ensures !IsLineBreak(r[i]) {
      assert IsLineBreak(r[i]) ==> IsSpace(r[i]);
    }
  }

  /** Parsing the first `n` pair lines performs the first `n` normalised `add` calls. */
  lemma ParseWrittenLines(pairs: seq<(string, string)>, n: nat, firstline: int)
    requires n <= |pairs|
    requires forall i :: 0 <= i < |pairs| ==> ParsableKey(pairs[i].0)
    ensures ParsePrefix(PairLines(pairs), n, firstline).d
            == AddPrefix(NormalizedItems(pairs, firstline), n)
  {
    var lines := PairLines(pairs);
    var items := NormalizedItems(pairs, firstline);
    forall k, st | 0 <= k < |lines|
      ensures ParseLine(st, lines[k], LineNumber(firstline, k)).d
              == AddTo(st.d, items[k].key, items[k].value, items[k].lineno)
    {
      PairLinesAt(pairs, k);
      PairLineParses(st, pairs[k].0, pairs[k].1, LineNumber(firstline, k));
    }
    ParsesAsAdds(lines, items, n, firstline);
  }

  /** When each line, whatever the state, performs the `add` of its item, parsing the
      first `n` lines performs the first `n` `add` calls. */
  lemma ParsesAsAdds(lines: seq<string>, items: seq<Item>, n: nat, firstline: int)
    requires n <= |lines| == |items|
    requires forall k, st :: 0 <= k < |lines| ==>
               ParseLine(st, lines[k], LineNumber(firstline, k)).d
               == AddTo(st.d, items[k].key, items[k].value, items[k].lineno)
    ensures ParsePrefix(lines, n, firstline).d == AddPrefix(items, n)
  {
    for k := 0 to n
      invariant ParsePrefix(lines, k, firstline).d == AddPrefix(items, k)
    {
    }
  }

  /** A line written for a pair with a parsable key adds the normalised pair. */
  lemma PairLineParses(st: ParseState, key: string, value: string, lineno: int)
    requires ParsableKey(key)
    ensures ParseLine(st, PairLine(key, value), lineno).d
            == AddTo(st.d, Normalize(key), Normalize(value), lineno)
  {
    NormalizeIsSingleSpaced(key);
    NormalizeIsSingleSpaced(value);
    WrittenLineParses(st, Normalize(key), Normalize(value), lineno);
  }

  lemma WrittenLineParses(st: ParseState, k: string, v: string, lineno: int)
    requires SingleSpaced(k) && SingleSpaced(v)
    requires |k| > 0 && ':' !in k && k[0] != '#'
    ensures ParseLine(st, k + ": " + v, lineno).d == AddTo(st.d, k, v, lineno)
  {
    WrittenLineStrip(k, v);
    WrittenLineKind(k, v);
    WrittenLineSplit(k, v);
    KeyValueKinds(st, k + ": " + v, lineno);
  }

  /** A written line is a key/value line. */
  lemma WrittenLineKind(k: string, v: string)
    requires SingleSpaced(k) && |k| > 0 && k[0] != '#'
    ensures var line := WrittenLine(k, v);
            !StartsWith(line, "  ") && line != "" && !IsComment(line)
  {
    SingleSpacedStrips(k);
    var line := WrittenLine(k, v);
    assert line[0] == k[0];
    assert LStrip(line) == line;
  }

  /** What a written line is once its trailing whitespace is gone. */
  function WrittenLine(k: string, v: string): string
  {
    if v == "" then k + ":" else k + ": " + v
  }

  lemma WrittenLineStrip(k: string, v: string)
    requires SingleSpaced(k) && SingleSpaced(v) && |k| > 0
    ensures RStrip(k + ": " + v) == WrittenLine(k, v)
  {
    SingleSpacedStrips(v);
    var raw := k + ": " + v;
    if v == "" {
      assert raw == WrittenLine(k, v) + " ";
      assert RStrip(raw) == RStrip(WrittenLine(k, v));
    } else {
      assert raw[|raw| - 1] == v[|v| - 1];
    }
  }

  lemma WrittenLineSplit(k: string, v: string)
    requires SingleSpaced(k) && SingleSpaced(v) && ':' !in k
    ensures SplitKeyValue(WrittenLine(k, v)) == Some((k, v))
  {
    var rest := if v == "" then "" else " " + v;
    assert WrittenLine(k, v) == k + ":" + rest by {
      if v != "" {
        ColonSpace(k, v);
      }
    }
    SplitAtColon(k, rest);
    SingleSpacedStrips(k);
    assert Strip(rest) == v by {
      if v != "" {
        SingleSpacedStrips(v);
        LStripSpace(v);
      }
    }
  }

  /** A line `a:b` whose key part has no ':' splits into the stripped `a` and `b`. */
  lemma SplitAtColon(a: string, b: string)
    requires ':' !in a
    ensures SplitKeyValue(a + ":" + b) == Some((Strip(a), Strip(b)))
  {
    ColonSplit(a, b, |a|);
    ColonFirst(a, b);
  }

  /** The first ':' of `a + ":" + b` is the one after `a` when `a` holds none. */
  lemma ColonFirst(a: string, b: string)
    requires ':' !in a
    ensures FindChar(a + ":" + b, ':') == |a|
  {
    var line := a + ":" + b;
    forall j | 0 <= j < |a| ensures line[j] != ':' {
      assert line[j] == a[j];
    }
    FindCharFirst(line, ':', |a|);
  }

  lemma ColonSpace(k: string, v: string)
    ensures k + ": " + v == k + ":" + (" " + v)
  {
  }

  lemma LStripSpace(v: string)
    ensures LStrip(" " + v) == LStrip(v)
  {
    assert (" " + v)[1..] == v;
  }

  /** The two sides of the ':' at index `j` of `a + ":" + b`. */
  lemma ColonSplit(a: string, b: string, j: nat)
    requires j == |a|
    ensures (a + ":" + b)[..j] == a && (a + ":" + b)[j + 1..] == b
  {
  }

  /** A single-spaced text is its own strip. */
  lemma SingleSpacedStrips(r: string)
    requires SingleSpaced(r)
    ensures LStrip(r) == r && RStrip(r) == r && Strip(r) == r
  {
  }
}
