// The frequencies of WALS feature values among the source languages
// (scripts/walsfeaturefreq.py): the source language list with its fallbacks, the grouping
// of one feature's values, and the order in which the values are written.
module WalsFreq {
  import opened Wrappers
  import opened Text
  import Sets

  // ----- The source language list -----

  /** Fallbacks for two languages that WALS documents poorly: Egyptian Arabic for Modern
      Standard Arabic, Sango for Nigerian Pidgin. */
  function ExtraFallback(code: string): Option<string>
  {
    if code == "ar" then Some("arz") else if code == "pcm" then Some("sg") else None
  }

  function ExtraNames(): map<string, string>
  {
    map["arz" := "Egyptian Arabic", "sg" := "Sango"]
  }

  /** The first two fields of a row of the source language list: a name and an ISO code,
      or two of each joined by '/' for a main language and its fallback. */
  datatype SourceRow = SourceRow(name: string, isoCode: string)

  /** What the list yields: the 1-based position of every code, the main language of every
      fallback, and the name of every code. */
  datatype SourceLangs = SourceLangs(positions: map<string, nat>, fallbacks: map<string, string>,
                                     names: map<string, string>)

  /** What a row stands for: a main language with its fallback, or a single language. */
  datatype RowEntry =
    | Pair(main: string, fallback: string, mainName: string, fallbackName: string)
    | Single(code: string, name: string)

  /** Unpacking a row at the first '/' of its code and of its name; a "main/fallback" code
      whose name has no '/' fails to unpack. */
  function ParseRow(row: SourceRow): Result<RowEntry>
  {
    if Contains(row.isoCode, "/") then
      var codes := SplitOnce(row.isoCode, "/");
      if !Contains(row.name, "/") then Err("ValueError: not enough values to unpack")
      else
        var names := SplitOnce(row.name, "/");
        Ok(Pair(codes[0], codes[1], names[0], names[1]))
    else Ok(Single(row.isoCode, row.name))
  }

  /** A row fails to unpack exactly when its code has a '/' and its name has none; a pair
      is split at the first '/' of each. */
  lemma ParseRowSpec(row: SourceRow)
    ensures ParseRow(row).Err? <==> Contains(row.isoCode, "/") && !Contains(row.name, "/")
    ensures ParseRow(row).Ok? && ParseRow(row).value.Pair? ==>
              var e := ParseRow(row).value;
              row.isoCode == e.main + "/" + e.fallback && !Contains(e.main, "/")
              && row.name == e.mainName + "/" + e.fallbackName && !Contains(e.mainName, "/")
    ensures ParseRow(row).Ok? && ParseRow(row).value.Single? ==>
              ParseRow(row).value == Single(row.isoCode, row.name) && !Contains(row.isoCode, "/")
  {
  }

  /** The codes an entry registers, a single language's extra fallback included. */
  function EntryCodes(e: RowEntry): set<string>
  {
    match e
    case Pair(main, fallback, _, _) => {main, fallback}
    case Single(code, _) => if ExtraFallback(code).Some? then {code, ExtraFallback(code).value} else {code}
  }

  /** Registering an entry at position `pos`. */
  function Apply(st: SourceLangs, pos: nat, e: RowEntry): SourceLangs
  {
    match e
    case Pair(main, fallback, mainName, fallbackName) =>
      SourceLangs(st.positions[main := pos][fallback := pos], st.fallbacks[fallback := main],
                  st.names[main := mainName][fallback := fallbackName])
    case Single(code, name) =>
      if ExtraFallback(code).Some? then
        var extra := ExtraFallback(code).value;
        SourceLangs(st.positions[code := pos][extra := pos], st.fallbacks[extra := code], st.names[code := name])
      else SourceLangs(st.positions[code := pos], st.fallbacks, st.names[code := name])
  }

  /** The entry's codes get position `pos`; the other positions stay. */
  lemma ApplyPositions(st: SourceLangs, pos: nat, e: RowEntry)
    ensures Apply(st, pos, e).positions.Keys == st.positions.Keys + EntryCodes(e)
    ensures forall c :: c in EntryCodes(e) ==> Apply(st, pos, e).positions[c] == pos
    ensures forall c :: c in st.positions && c !in EntryCodes(e) ==> Apply(st, pos, e).positions[c] == st.positions[c]
  {
  }

  /** New fallbacks are among the entry's codes and point into them; the others stay. */
  lemma ApplyFallbacks(st: SourceLangs, pos: nat, e: RowEntry)
    ensures Apply(st, pos, e).fallbacks.Keys <= st.fallbacks.Keys + EntryCodes(e)
    ensures forall c :: c in st.fallbacks && c !in EntryCodes(e) ==> Apply(st, pos, e).fallbacks[c] == st.fallbacks[c]
    ensures forall c :: c in Apply(st, pos, e).fallbacks && c in EntryCodes(e) && c !in st.fallbacks ==>
              Apply(st, pos, e).fallbacks[c] in EntryCodes(e)
    ensures forall c :: c in Apply(st, pos, e).fallbacks && c in EntryCodes(e) ==>
              Apply(st, pos, e).fallbacks[c] in EntryCodes(e) || Apply(st, pos, e).fallbacks[c] == st.fallbacks[c]
  {
  }

  /** The names an entry gives its codes. */
  lemma ApplyNames(st: SourceLangs, pos: nat, e: RowEntry)
    ensures e.Pair? ==> Apply(st, pos, e).names == st.names[e.main := e.mainName][e.fallback := e.fallbackName]
    ensures e.Single? ==> Apply(st, pos, e).names == st.names[e.code := e.name]
  {
  }

  /** One row of `_read_sourcelangs_file`, at position `pos`. */
  function ReadRow(st: SourceLangs, pos: nat, row: SourceRow): Result<SourceLangs>
  {
    var e := ParseRow(row);
    if e.Err? then Err(e.error) else Ok(Apply(st, pos, e.value))
  }

  /** The codes a row registers. */
  function RowCodes(row: SourceRow): set<string>
  {
    var e := ParseRow(row);
    if e.Err? then {} else EntryCodes(e.value)
  }

  /** The state after the first `n` rows. */
  function ReadUpTo(rows: seq<SourceRow>, n: nat): Result<SourceLangs>
    requires n <= |rows|
  {
    if n == 0 then Ok(SourceLangs(map[], map[], ExtraNames()))
    else
      var prev := ReadUpTo(rows, n - 1);
      if prev.Err? then prev else ReadRow(prev.value, n, rows[n - 1])
  }

  /** `_read_sourcelangs_file` on the rows of the list. */
  function SourceLangsOf(rows: seq<SourceRow>): (r: Result<SourceLangs>)
    ensures r.Ok? ==> "ar" in r.value.names && r.value.names["ar"] == "Standard Arabic"
    ensures r.Ok? <==> forall i :: 0 <= i < |rows| ==> ParseRow(rows[i]).Ok?
  {
    var st := ReadUpTo(rows, |rows|);
    OkRows(rows, |rows|);
    if st.Err? then st else Ok(st.value.(names := st.value.names["ar" := "Standard Arabic"]))
  }

  /** Reading fails exactly when some row fails to unpack. */
  lemma {:induction false} OkRows(rows: seq<SourceRow>, n: nat)
    requires n <= |rows|
    ensures ReadUpTo(rows, n).Ok? <==> forall i :: 0 <= i < n ==> ParseRow(rows[i]).Ok?
  {
    if n > 0 {
      OkRows(rows, n - 1);
    }
  }

  /** Positions count rows from 1. */
  lemma {:induction false} PositionsInRange(rows: seq<SourceRow>, n: nat)
    requires n <= |rows| && ReadUpTo(rows, n).Ok?
    ensures forall c :: c in ReadUpTo(rows, n).value.positions ==> 1 <= ReadUpTo(rows, n).value.positions[c] <= n
  {
    if n > 0 {
      var prev := ReadUpTo(rows, n - 1);
      assert prev.Ok?;
      PositionsInRange(rows, n - 1);
      ApplyPositions(prev.value, n, ParseRow(rows[n - 1]).value);
    }
  }

  /** A code is known exactly when one of the rows read registers it. */
  lemma {:induction false} KeysOfRows(rows: seq<SourceRow>, n: nat)
    requires n <= |rows| && ReadUpTo(rows, n).Ok?
    ensures forall c :: c in ReadUpTo(rows, n).value.positions <==> exists i :: 0 <= i < n && c in RowCodes(rows[i])
  {
    if n > 0 {
      var prev := ReadUpTo(rows, n - 1);
      assert prev.Ok?;
      KeysOfRows(rows, n - 1);
      ApplyPositions(prev.value, n, ParseRow(rows[n - 1]).value);
      forall c ensures c in ReadUpTo(rows, n).value.positions <==> exists i :: 0 <= i < n && c in RowCodes(rows[i]) {
        if c in RowCodes(rows[n - 1]) {
          assert 0 <= n - 1 < n;
        }
      }
    }
  }

  /** A fallback and its main language are both known and share a position. */
  predicate Aligned(st: SourceLangs)
  {
    forall c :: c in st.fallbacks ==>
      c in st.positions && st.fallbacks[c] in st.positions && st.positions[c] == st.positions[st.fallbacks[c]]
  }

  predicate DistinctCodes(rows: seq<SourceRow>)
  {
    forall i, j :: 0 <= i < j < |rows| ==> RowCodes(rows[i]) !! RowCodes(rows[j])
  }

  lemma AlignedStep(st: SourceLangs, pos: nat, e: RowEntry)
    requires Aligned(st) && EntryCodes(e) !! st.positions.Keys
    ensures Aligned(Apply(st, pos, e))
  {
    var r := Apply(st, pos, e);
    ApplyPositions(st, pos, e);
    ApplyFallbacks(st, pos, e);
    forall c | c in r.fallbacks
      ensures c in r.positions && r.fallbacks[c] in r.positions && r.positions[c] == r.positions[r.fallbacks[c]]
    {
      if c !in EntryCodes(e) {
        assert c in st.fallbacks && st.fallbacks[c] in st.positions;
      } else {
        assert c !in st.fallbacks;
      }
    }
  }

  /** When no two rows register the same code, every fallback sits at the position of its
      main language. */
  lemma {:induction false} FallbacksAligned(rows: seq<SourceRow>, n: nat)
    requires n <= |rows| && DistinctCodes(rows) && ReadUpTo(rows, n).Ok?
    ensures Aligned(ReadUpTo(rows, n).value)
  {
    if n > 0 {
      var prev := ReadUpTo(rows, n - 1);
      assert prev.Ok?;
      FallbacksAligned(rows, n - 1);
      KeysOfRows(rows, n - 1);
      var e := ParseRow(rows[n - 1]).value;
      assert EntryCodes(e) == RowCodes(rows[n - 1]);
      forall c | c in EntryCodes(e) ensures c !in prev.value.positions {
        forall i | 0 <= i < n - 1 ensures c !in RowCodes(rows[i]) {
          assert RowCodes(rows[i]) !! RowCodes(rows[n - 1]);
        }
      }
      AlignedStep(prev.value, n, e);
    }
  }

  /** `_read_sourcelangs_file`, looping over the rows. */
  method ReadSourceLangs(rows: seq<SourceRow>) returns (r: Result<SourceLangs>)
    ensures r == SourceLangsOf(rows)
  {
    var st := SourceLangs(map[], map[], ExtraNames());
    for i := 0 to |rows|
      invariant ReadUpTo(rows, i) == Ok(st)
    {
      var next := ReadRow(st, i + 1, rows[i]);
      if next.Err? {
        ErrStays(rows, i + 1, |rows|);
        return next;
      }
      st := next.value;
    }
    r := Ok(st.(names := st.names["ar" := "Standard Arabic"]));
  }

  /** Once a row fails, reading stays failed with the same error. */
  lemma {:induction false} ErrStays(rows: seq<SourceRow>, i: nat, n: nat)
    requires i <= n <= |rows| && ReadUpTo(rows, i).Err?
    ensures ReadUpTo(rows, n) == ReadUpTo(rows, i)
    decreases n - i
  {
    if i < n {
      ErrStays(rows, i, n - 1);
    }
  }

  /** `_fill_iso3_to_iso1_map` after the first `n` rows (639-1 code, 639-3 code): pairs
      with both codes present, '–' meaning absent. */
  function Iso3To1UpTo(rows: seq<(string, string)>, n: nat): map<string, string>
    requires n <= |rows|
  {
    if n == 0 then map[]
    else
      var m := Iso3To1UpTo(rows, n - 1);
      var (iso1, iso3) := rows[n - 1];
      if iso1 != "–" && iso3 != "–" then m[iso3 := iso1] else m
  }

  /** A 639-3 code is mapped exactly when some row has it with a 639-1 code; the last
      such row wins. */
  lemma {:induction false} Iso3To1Keys(rows: seq<(string, string)>, n: nat, c: string)
    requires n <= |rows|
    ensures c in Iso3To1UpTo(rows, n) <==> exists i :: 0 <= i < n && rows[i].1 == c && rows[i].0 != "–" && c != "–"
    ensures c in Iso3To1UpTo(rows, n) ==>
              exists i :: 0 <= i < n && rows[i].1 == c && rows[i].0 != "–" && Iso3To1UpTo(rows, n)[c] == rows[i].0
                          && forall j :: i < j < n && rows[j].1 == c ==> rows[j].0 == "–"
  {
    if n > 0 {
      Iso3To1Keys(rows, n - 1, c);
      var (iso1, iso3) := rows[n - 1];
      if iso1 != "–" && iso3 != "–" && iso3 == c {
        assert 0 <= n - 1 < n && rows[n - 1].1 == c;
      } else if c in Iso3To1UpTo(rows, n - 1) {
        var i :| 0 <= i < n - 1 && rows[i].1 == c && rows[i].0 != "–" && Iso3To1UpTo(rows, n - 1)[c] == rows[i].0
                 && forall j :: i < j < n - 1 && rows[j].1 == c ==> rows[j].0 == "–";
        assert forall j :: i < j < n && rows[j].1 == c ==> rows[j].0 == "–";
      }
    }
  }

  method FillIso3To1(rows: seq<(string, string)>) returns (m: map<string, string>)
    ensures m == Iso3To1UpTo(rows, |rows|)
  {
    m := map[];
    for i := 0 to |rows|
      invariant m == Iso3To1UpTo(rows, i)
    {
      var (iso1, iso3) := rows[i];
      if iso1 != "–" && iso3 != "–" {
        m := m[iso3 := iso1];
      }
    }
  }

  // ----- Grouping the values of one feature -----

  /** A source language representing `value` in the feature map `mapName`. */
  datatype FeatureValue = FeatureValue(isoCode: string, mapName: string, value: int)

  function CodesOf(fvs: seq<FeatureValue>): set<string>
  {
    set i | 0 <= i < |fvs| :: fvs[i].isoCode
  }

  /** A value is dropped when it comes from a fallback whose main language is also present. */
  predicate Kept(fv: FeatureValue, langset: set<string>, fallbacks: map<string, string>)
  {
    !(fv.isoCode in fallbacks && fallbacks[fv.isoCode] in langset)
  }

  /** The grouping after the first `n` values. */
  function GroupedUpTo(fvs: seq<FeatureValue>, n: nat, langset: set<string>, fallbacks: map<string, string>): map<int, set<string>>
    requires n <= |fvs|
  {
    if n == 0 then map[]
    else
      var g := GroupedUpTo(fvs, n - 1, langset, fallbacks);
      var fv := fvs[n - 1];
      if !Kept(fv, langset, fallbacks) then g
      else g[fv.value := (if fv.value in g then g[fv.value] else {}) + {fv.isoCode}]
  }

  function CounterAt(counter: map<string, nat>, c: string): nat
  {
    if c in counter then counter[c] else 0
  }

  /** The language counter after the first `n` values. */
  function CountedUpTo(counter: map<string, nat>, fvs: seq<FeatureValue>, n: nat, langset: set<string>,
                       fallbacks: map<string, string>): map<string, nat>
    requires n <= |fvs|
  {
    if n == 0 then counter
    else
      var m := CountedUpTo(counter, fvs, n - 1, langset, fallbacks);
      var fv := fvs[n - 1];
      if !Kept(fv, langset, fallbacks) then m else m[fv.isoCode := CounterAt(m, fv.isoCode) + 1]
  }

  /** How many of the first `n` values are kept and come from `c`. */
  function KeptCount(fvs: seq<FeatureValue>, n: nat, langset: set<string>, fallbacks: map<string, string>, c: string): nat
    requires n <= |fvs|
  {
    if n == 0 then 0
    else KeptCount(fvs, n - 1, langset, fallbacks, c)
         + (if fvs[n - 1].isoCode == c && Kept(fvs[n - 1], langset, fallbacks) then 1 else 0)
  }

  /** A language is listed under a value exactly when a kept entry of it has that value. */
  lemma {:induction false} GroupedMembers(fvs: seq<FeatureValue>, n: nat, langset: set<string>,
                                          fallbacks: map<string, string>, v: int, c: string)
    requires n <= |fvs|
    ensures (v in GroupedUpTo(fvs, n, langset, fallbacks) && c in GroupedUpTo(fvs, n, langset, fallbacks)[v])
            <==> exists i :: 0 <= i < n && fvs[i].value == v && fvs[i].isoCode == c && Kept(fvs[i], langset, fallbacks)
    ensures v in GroupedUpTo(fvs, n, langset, fallbacks) ==> GroupedUpTo(fvs, n, langset, fallbacks)[v] != {}
  {
    if n > 0 {
      GroupedMembers(fvs, n - 1, langset, fallbacks, v, c);
      var fv := fvs[n - 1];
      if fv.value == v && fv.isoCode == c && Kept(fv, langset, fallbacks) {
        assert 0 <= n - 1 < n;
      }
    }
  }

  /** Each kept value adds one to its language's count; nothing else changes. */
  lemma {:induction false} CountedAdds(counter: map<string, nat>, fvs: seq<FeatureValue>, n: nat, langset: set<string>,
                                       fallbacks: map<string, string>, c: string)
    requires n <= |fvs|
    ensures CounterAt(CountedUpTo(counter, fvs, n, langset, fallbacks), c)
            == CounterAt(counter, c) + KeptCount(fvs, n, langset, fallbacks, c)
  {
    if n > 0 {
      CountedAdds(counter, fvs, n - 1, langset, fallbacks, c);
    }
  }

  /** A fallback's value is dropped exactly when its main language has a value too. */
  lemma FallbackDropped(fvs: seq<FeatureValue>, i: nat, fallbacks: map<string, string>)
    requires i < |fvs|
    ensures !Kept(fvs[i], CodesOf(fvs), fallbacks)
            <==> fvs[i].isoCode in fallbacks && exists j :: 0 <= j < |fvs| && fvs[j].isoCode == fallbacks[fvs[i].isoCode]
  {
  }

  // ----- The finder -----

  class FeatureFreqFinder {
    var sourceDict: map<string, nat>
    var fallbackMap: map<string, string>
    var langNames: map<string, string>
    var langCounter: map<string, nat>

    /** A finder for the languages read from the source list. */
    constructor (langs: SourceLangs)
      ensures sourceDict == langs.positions && fallbackMap == langs.fallbacks && langNames == langs.names
      ensures langCounter == map[]
    {
      sourceDict, fallbackMap, langNames := langs.positions, langs.fallbacks, langs.names;
      langCounter := map[];
    }

    /** `source_set`: all source codes, or only those that are not fallbacks. */
    function SourceSet(inclFallbackLangs: bool): (r: set<string>)
      reads this
      ensures r <= sourceDict.Keys
      ensures !inclFallbackLangs ==> forall c :: c in r <==> c in sourceDict && c !in fallbackMap
      ensures inclFallbackLangs ==> r == sourceDict.Keys
    {
      if inclFallbackLangs then sourceDict.Keys else sourceDict.Keys - fallbackMap.Keys
    }

    /** `_group_feature_values`: the languages of the kept values under each value; the
        counter of each kept value's language goes up by one. */
    method GroupFeatureValues(featureValues: seq<FeatureValue>) returns (result: map<int, set<string>>)
      modifies this
      ensures result == GroupedUpTo(featureValues, |featureValues|, CodesOf(featureValues), fallbackMap)
      ensures langCounter == CountedUpTo(old(langCounter), featureValues, |featureValues|, CodesOf(featureValues), fallbackMap)
      ensures sourceDict == old(sourceDict) && fallbackMap == old(fallbackMap) && langNames == old(langNames)
    {
      result := map[];
      var langset := set i | 0 <= i < |featureValues| :: featureValues[i].isoCode;
      for i := 0 to |featureValues|
        invariant result == GroupedUpTo(featureValues, i, langset, fallbackMap)
        invariant langCounter == CountedUpTo(old(langCounter), featureValues, i, langset, fallbackMap)
        invariant sourceDict == old(sourceDict) && fallbackMap == old(fallbackMap) && langNames == old(langNames)
      {
        var featureValue := featureValues[i];
        if featureValue.isoCode in fallbackMap && fallbackMap[featureValue.isoCode] in langset {
          continue;
        }
        var old_ := if featureValue.value in result then result[featureValue.value] else {};
        result := result[featureValue.value := old_ + {featureValue.isoCode}];
        langCounter := langCounter[featureValue.isoCode := CounterAt(langCounter, featureValue.isoCode) + 1];
      }
    }
  }

  // ----- Writing one feature -----

  function MinOver(langs: seq<string>, positions: map<string, nat>): (r: nat)
    requires |langs| > 0 && forall i :: 0 <= i < |langs| ==> langs[i] in positions
    ensures exists i :: 0 <= i < |langs| && positions[langs[i]] == r
    ensures forall i :: 0 <= i < |langs| ==> r <= positions[langs[i]]
  {
    if |langs| == 1 then positions[langs[0]]
    else
      var m := MinOver(langs[1..], positions);
      assert forall i :: 1 <= i < |langs| ==> langs[1..][i - 1] == langs[i];
      if positions[langs[0]] <= m then positions[langs[0]] else m
  }

  /** `_find_smallest_language_position`: the best position among the languages. */
  function SmallestPosition(langset: set<string>, positions: map<string, nat>): (r: nat)
    requires langset != {} && langset <= positions.Keys
    ensures exists l :: l in langset && positions[l] == r
    ensures forall l :: l in langset ==> r <= positions[l]
  {
    var langs := SortedSet(langset);
    assert |langs| > 0 by { var x :| x in langset; assert x in langs; }
    var r := MinOver(langs, positions);
    assert forall l :: l in langset ==> r <= positions[l] by {
      forall l | l in langset ensures r <= positions[l] {
        var i :| 0 <= i < |langs| && langs[i] == l;
      }
    }
    r
  }

  /** Every value has languages, all of them source languages. */
  predicate WellGrouped(grouped: map<int, set<string>>, positions: map<string, nat>)
  {
    forall v :: v in grouped ==> grouped[v] != {} && grouped[v] <= positions.Keys
  }

  /** The sort key of each value: its number of languages and its best position. */
  function SortKeys(grouped: map<int, set<string>>, positions: map<string, nat>): (keys: map<int, (nat, nat)>)
    requires WellGrouped(grouped, positions)
    ensures keys.Keys == grouped.Keys
    ensures forall v :: v in keys ==> keys[v].0 == |grouped[v]| > 0
  {
    map v | v in grouped :: (|grouped[v]|, SmallestPosition(grouped[v], positions))
  }

  /** Value `a` may be written before `b`: more languages first, then the better position. */
  predicate KeyBefore(keys: map<int, (nat, nat)>, a: int, b: int)
    requires a in keys && b in keys
  {
    keys[a].0 > keys[b].0 || (keys[a].0 == keys[b].0 && keys[a].1 <= keys[b].1)
  }

  predicate KeysOrdered(keys: map<int, (nat, nat)>, order: seq<int>)
    requires forall i :: 0 <= i < |order| ==> order[i] in keys
  {
    forall i :: 0 < i < |order| ==> KeyBefore(keys, order[i - 1], order[i])
  }

  predicate IsFirstKey(keys: map<int, (nat, nat)>, m: int, s: set<int>)
    requires s <= keys.Keys
  {
    m in s && forall y :: y in s ==> KeyBefore(keys, m, y)
  }

  lemma {:induction false} FirstKeyExists(keys: map<int, (nat, nat)>, s: set<int>)
    requires s <= keys.Keys && s != {}
    ensures exists m :: IsFirstKey(keys, m, s)
    decreases |s|
  {
    Sets.IntHasElement(s);
    var x :| x in s;
    if s == {x} {
      assert IsFirstKey(keys, x, s);
    } else {
      FirstKeyExists(keys, s - {x});
      var m :| IsFirstKey(keys, m, s - {x});
      if KeyBefore(keys, x, m) {
        forall y | y in s ensures KeyBefore(keys, x, y) {
          if y != x {
            assert y in s - {x} && KeyBefore(keys, m, y);
          }
        }
        assert IsFirstKey(keys, x, s);
      } else {
        assert IsFirstKey(keys, m, s);
      }
    }
  }

  /** `sorted(self._feature_values.items(), key=...)` in `_write_feature_mapping`: every
      value once, in key order. */
  method OrderValues(keys: map<int, (nat, nat)>) returns (order: seq<int>)
    ensures multiset(order) == multiset(keys.Keys)
    ensures forall i :: 0 <= i < |order| ==> order[i] in keys
    ensures KeysOrdered(keys, order)
  {
    order := [];
    var rest := keys.Keys;
    while rest != {}
      invariant rest <= keys.Keys && multiset(order) + multiset(rest) == multiset(keys.Keys)
      invariant forall i :: 0 <= i < |order| ==> order[i] in keys && order[i] !in rest
      invariant KeysOrdered(keys, order)
      invariant forall i, y :: 0 <= i < |order| && y in rest ==> KeyBefore(keys, order[i], y)
      decreases |rest|
    {
      FirstKeyExists(keys, rest);
      var m :| IsFirstKey(keys, m, rest);
      assert multiset(rest) == multiset(rest - {m}) + multiset{m};
      order := order + [m];
      rest := rest - {m};
    }
  }

  /** A value's share of the most frequent value's languages, in per cent, before
      rounding. */
  function RelFrequency(langcount: nat, maxLangcount: nat): real
    requires maxLangcount > 0
  {
    (langcount * 100) as real / maxLangcount as real
  }

  lemma {:induction false} OrderedCounts(keys: map<int, (nat, nat)>, order: seq<int>, j: nat)
    requires (forall i :: 0 <= i < |order| ==> order[i] in keys) && KeysOrdered(keys, order) && j < |order|
    ensures keys[order[j]].0 <= keys[order[0]].0
  {
    if j > 0 {
      OrderedCounts(keys, order, j - 1);
    }
  }

  /** In key order, the first value written has the most languages: its frequency is 100
      and no value has more. */
  lemma RelFrequencies(grouped: map<int, set<string>>, positions: map<string, nat>, order: seq<int>)
    requires WellGrouped(grouped, positions)
    requires forall i :: 0 <= i < |order| ==> order[i] in SortKeys(grouped, positions)
    requires KeysOrdered(SortKeys(grouped, positions), order) && |order| > 0
    ensures |grouped[order[0]]| > 0
    ensures RelFrequency(|grouped[order[0]]|, |grouped[order[0]]|) == 100.0
    ensures forall j :: 0 <= j < |order| ==> RelFrequency(|grouped[order[j]]|, |grouped[order[0]]|) <= 100.0
  {
    var keys := SortKeys(grouped, positions);
    var top := |grouped[order[0]]|;
    assert keys[order[0]].0 == top > 0;
    RelFrequencyAtMost(top, top);
    forall j | 0 <= j < |order| ensures RelFrequency(|grouped[order[j]]|, top) <= 100.0 {
      OrderedCounts(keys, order, j);
      assert keys[order[j]].0 == |grouped[order[j]]|;
      RelFrequencyAtMost(|grouped[order[j]]|, top);
    }
  }

  /** A share of at most the whole is at most 100 per cent, and the whole is exactly 100. */
  lemma RelFrequencyAtMost(langcount: nat, maxLangcount: nat)
    requires 0 < maxLangcount && langcount <= maxLangcount
    ensures RelFrequency(langcount, maxLangcount) <= 100.0
    ensures langcount == maxLangcount ==> RelFrequency(langcount, maxLangcount) == 100.0
  {
    assert (langcount * 100) as real <= (maxLangcount * 100) as real;
  }
}
