// The summary of one WALS area (scripts/printwalsarea.py): the CSV form of a feature value,
// the quorum filter, the grouping of a feature's values by relative frequency, the language
// lists that name a language only on its first mention, and the cross-combination features
// added to an area.
module WalsArea {
  import opened Wrappers
  import opened Text
  import Merging
  import CandidateConstraints

  // ----- One feature value and its CSV row -----

  /** A value of a feature with the source languages that have it. */
  datatype FeatureValue = FeatureValue(feature: string, value: int, name: string, languages: seq<string>,
                                       languageCount: int, relativeFrequency: int)

  /** `str.rstrip(c)` for a single character. */
  function RStripChar(s: string, c: char): (r: string)
    ensures r <= s && (r == [] || r[|r| - 1] != c)
    ensures forall i :: |r| <= i < |s| ==> s[i] == c
  {
    if |s| > 0 && s[|s| - 1] == c then RStripChar(s[..|s| - 1], c) else s
  }

  /** Every string stripped of surrounding whitespace. */
  function StripAll(parts: seq<string>): (r: seq<string>)
    ensures |r| == |parts|
  {
    if |parts| == 0 then [] else [Strip(parts[0])] + StripAll(parts[1..])
  }

  /** `to_row`: the six fields, the languages sorted and joined with ", ", the relative
      frequency followed by '%'. */
  function ToRow(f: FeatureValue): (r: seq<string>)
    ensures |r| == 6 && r[0] == f.feature && r[2] == f.name
    ensures r[3] == Join(SortStrings(f.languages), ", ")
    ensures r[1] == Merging.IntToString(f.value) && r[4] == Merging.IntToString(f.languageCount)
    ensures r[5] == Merging.IntToString(f.relativeFrequency) + "%"
  {
    [f.feature, Merging.IntToString(f.value), f.name, Join(SortStrings(f.languages), ", "),
     Merging.IntToString(f.languageCount), Merging.IntToString(f.relativeFrequency) + "%"]
  }

  /** `from_row`: a row of six fields, the languages split at ',' and stripped; a row of
      another length, or a field that is no integer, raises ValueError. */
  function FromRow(data: seq<string>): (r: Result<FeatureValue>)
    ensures |data| != 6 ==> r.Err?
    ensures r.Ok? ==> r.value.feature == data[0] && r.value.name == data[2] && |r.value.languages| >= 1
  {
    if |data| != 6 then Err("ValueError: Input row must contain exactly 6 elements")
    else
      var value := Merging.ParseInt(data[1]);
      var count := Merging.ParseInt(data[4]);
      var freq := Merging.ParseInt(RStripChar(data[5], '%'));
      if value.None? || count.None? || freq.None? then Err("ValueError: invalid literal for int()")
      else Ok(FeatureValue(data[0], value.value, data[2], StripAll(Split(data[3], ",")), count.value, freq.value))
  }

  /** A space in front of a string does not change it once stripped. */
  lemma StripLeadingSpace(p: string)
    ensures Strip(" " + p) == Strip(p)
  {
    assert (" " + p)[1..] == p;
  }

  /** The number written by `str` does not end in '%'. */
  lemma WrittenIntEndsInDigit(n: int)
    ensures RStripChar(Merging.IntToString(n) + "%", '%') == Merging.IntToString(n)
  {
    var s := Merging.IntToString(n);
    var digits := WrittenDigits(n);
    assert s[|s| - 1] == digits[|digits| - 1];
    assert (s + "%")[..|s + "%"| - 1] == s;
  }

  /** The digits of `str(n)` without its sign. */
  function WrittenDigits(n: int): (d: string)
    ensures Merging.IntToString(n) == (if n < 0 then "-" else "") + d
    ensures |d| > 0 && '0' <= d[|d| - 1] <= '9'
  {
    var d := if n < 0 then CandidateConstraints.NatToString(-n) else CandidateConstraints.NatToString(n);
    assert CandidateConstraints.IsDigit(d[|d| - 1]);
    d
  }

  /** The pieces that splitting `pre + ", ".join(parts)` at ',' yields: each part after the
      first keeps the space that followed its comma. */
  function Spaced(pre: string, parts: seq<string>): (r: seq<string>)
    ensures |r| == |parts|
    decreases |parts|
  {
    if |parts| == 0 then [] else [pre + parts[0]] + Spaced(" ", parts[1..])
  }

  lemma {:induction false} JoinSpaced(pre: string, parts: seq<string>)
    requires |parts| >= 1
    ensures pre + Join(parts, ", ") == Join(Spaced(pre, parts), ",")
    decreases |parts|
  {
    if |parts| >= 2 {
      JoinSpaced(" ", parts[1..]);
      var sp := Spaced(pre, parts);
      assert sp[1..] == Spaced(" ", parts[1..]);
    }
  }

  lemma StripAllCons(x: string, xs: seq<string>)
    ensures StripAll([x] + xs) == [Strip(x)] + StripAll(xs)
  {
    assert ([x] + xs)[1..] == xs;
  }

  /** A text made of comma-free parts holds no comma. */
  lemma NoCommaPrefixed(pre: string, p: string)
    requires ',' !in pre && ',' !in p
    ensures ',' !in pre + p
  {
    forall k | 0 <= k < |pre + p| ensures (pre + p)[k] != ',' {
      if k >= |pre| { assert (pre + p)[k] == p[k - |pre|]; } else { assert (pre + p)[k] == pre[k]; }
    }
  }

  /** The text neither starts nor ends with whitespace. */
  predicate Trimmed(p: string)
  {
    p == [] || (!IsSpace(p[0]) && !IsSpace(p[|p| - 1]))
  }

  lemma TrimmedStrip(p: string)
    requires Trimmed(p)
    ensures Strip(p) == p
  {
    assert LStrip(p) == p;
  }

  lemma StripPrefixed(pre: string, p: string)
    requires (pre == "" || pre == " ") && Trimmed(p)
    ensures Strip(pre + p) == p
  {
    TrimmedStrip(p);
    if pre == " " { StripLeadingSpace(p); } else { assert pre + p == p; }
  }

  lemma {:induction false} SpacedNoComma(pre: string, parts: seq<string>)
    requires ',' !in pre
    requires forall k :: 0 <= k < |parts| ==> ',' !in parts[k]
    ensures forall k :: 0 <= k < |parts| ==> ',' !in Spaced(pre, parts)[k]
    decreases |parts|
  {
    if |parts| > 0 {
      var tail := parts[1..];
      forall k | 0 <= k < |tail| ensures ',' !in tail[k] {
        assert tail[k] == parts[k + 1];
      }
      SpacedNoComma(" ", tail);
      NoCommaPrefixed(pre, parts[0]);
      var sp := Spaced(pre, parts);
      assert sp[1..] == Spaced(" ", tail);
      forall k | 0 <= k < |parts| ensures ',' !in sp[k] {
        if k > 0 { assert sp[k] == Spaced(" ", tail)[k - 1]; }
      }
    }
  }

  lemma HeadTail(parts: seq<string>)
    requires |parts| > 0
    ensures parts == [parts[0]] + parts[1..]
  {
  }

  lemma {:induction false} SpacedStripped(pre: string, parts: seq<string>)
    requires pre == "" || pre == " "
    requires forall k :: 0 <= k < |parts| ==> Trimmed(parts[k])
    ensures StripAll(Spaced(pre, parts)) == parts
    decreases |parts|
  {
    if |parts| > 0 {
      var tail := parts[1..];
      forall k | 0 <= k < |tail| ensures Trimmed(tail[k]) {
        assert tail[k] == parts[k + 1];
      }
      var head := pre + parts[0];
      var rest := Spaced(" ", tail);
      assert Spaced(pre, parts) == [head] + rest;
      SpacedStripped(" ", tail);
      assert StripAll(rest) == tail;
      StripPrefixed(pre, parts[0]);
      assert Strip(head) == parts[0];
      StripAllCons(head, rest);
      assert StripAll([head] + rest) == [parts[0]] + tail;
      HeadTail(parts);
    }
  }

  /** Splitting "a, b, c" at ',' and stripping each part gives the parts back when none of
      them holds a ',' or surrounding whitespace. */
  lemma SplitJoinedLanguages(parts: seq<string>)
    requires |parts| > 0 && forall k :: 0 <= k < |parts| ==> ',' !in parts[k] && Trimmed(parts[k])
    ensures StripAll(Split(Join(parts, ", "), ",")) == parts
  {
    JoinSpaced("", parts);
    assert "" + Join(parts, ", ") == Join(parts, ", ");
    SpacedNoComma("", parts);
    SpacedStripped("", parts);
    SplitJoin(Spaced("", parts), ",");
  }

  /** The fields of a row that parse as integers give the feature value `from_row` builds. */
  lemma FromRowFields(data: seq<string>, value: int, count: int, freq: int)
    requires |data| == 6
    requires Merging.ParseInt(data[1]) == Some(value) && Merging.ParseInt(data[4]) == Some(count)
    requires Merging.ParseInt(RStripChar(data[5], '%')) == Some(freq)
    ensures FromRow(data) == Ok(FeatureValue(data[0], value, data[2], StripAll(Split(data[3], ",")), count, freq))
  {
  }

  /** The numeric fields of a written row read back as the numbers written. */
  lemma WrittenFields(row: seq<string>, value: int, count: int, freq: int)
    requires |row| == 6 && row[1] == Merging.IntToString(value) && row[4] == Merging.IntToString(count)
    requires row[5] == Merging.IntToString(freq) + "%"
    ensures FromRow(row) == Ok(FeatureValue(row[0], value, row[2], StripAll(Split(row[3], ",")), count, freq))
  {
    Merging.IntRoundTrip(value);
    Merging.IntRoundTrip(count);
    Merging.IntRoundTrip(freq);
    WrittenIntEndsInDigit(freq);
    FromRowFields(row, value, count, freq);
  }

  /** Sorting keeps every code, so a property of each code holds after it. */
  lemma SortedCodes(langs: seq<string>)
    requires |langs| > 0
    requires forall k :: 0 <= k < |langs| ==> ',' !in langs[k] && Trimmed(langs[k])
    ensures |SortStrings(langs)| > 0
    ensures forall k :: 0 <= k < |SortStrings(langs)| ==> ',' !in SortStrings(langs)[k] && Trimmed(SortStrings(langs)[k])
  {
    var sorted := SortStrings(langs);
    assert |sorted| > 0 by { assert multiset(sorted) == multiset(langs); assert langs[0] in multiset(sorted); }
    forall k | 0 <= k < |sorted| ensures ',' !in sorted[k] && Trimmed(sorted[k]) {
      assert sorted[k] in multiset(langs);
      var j :| 0 <= j < |langs| && langs[j] == sorted[k];
    }
  }

  /** Reading back a written row gives the feature value with its languages sorted, when
      there are languages and no code holds a ',' or surrounding whitespace. */
  lemma FromRowToRow(f: FeatureValue)
    requires |f.languages| > 0
    requires forall k :: 0 <= k < |f.languages| ==> ',' !in f.languages[k] && Trimmed(f.languages[k])
    ensures FromRow(ToRow(f)) == Ok(f.(languages := SortStrings(f.languages)))
  {
    SortedCodes(f.languages);
    SplitJoinedLanguages(SortStrings(f.languages));
    WrittenFields(ToRow(f), f.value, f.languageCount, f.relativeFrequency);
  }

  // ----- The quorum -----

  /** `_calc_quorum`: 40% of the source languages, rounded; 0.4 times a whole number is
      never halfway between two whole numbers, so rounding takes the nearest one. */
  function CalcQuorum(sourceLangCount: nat): (q: nat)
    ensures -5 < 10 * q - 4 * sourceLangCount <= 5
  {
    (4 * sourceLangCount + 5) / 10
  }

  /** The languages counted for a feature: the sum of its values' counts. */
  function TotalCount(fvs: seq<FeatureValue>): int
  {
    if |fvs| == 0 then 0 else TotalCount(fvs[..|fvs| - 1]) + fvs[|fvs| - 1].languageCount
  }

  /** The features among the first `n` that reach the quorum, in their order. */
  function KeptUpTo(valueMap: seq<(string, seq<FeatureValue>)>, quorum: int, n: nat): seq<(string, seq<FeatureValue>)>
    requires n <= |valueMap|
  {
    if n == 0 then []
    else
      var prev := KeptUpTo(valueMap, quorum, n - 1);
      if TotalCount(valueMap[n - 1].1) >= quorum then prev + [valueMap[n - 1]] else prev
  }

  /** The features among the first `n` below the quorum, each with its total. */
  function BelowUpTo(valueMap: seq<(string, seq<FeatureValue>)>, quorum: int, n: nat): seq<(string, int)>
    requires n <= |valueMap|
  {
    if n == 0 then []
    else
      var prev := BelowUpTo(valueMap, quorum, n - 1);
      var total := TotalCount(valueMap[n - 1].1);
      if total >= quorum then prev else prev + [(valueMap[n - 1].0, total)]
  }

  /** `_filter_features_by_quorum`, looping over the features in their order. */
  method FilterFeaturesByQuorum(valueMap: seq<(string, seq<FeatureValue>)>, quorum: int)
    returns (filtered: seq<(string, seq<FeatureValue>)>, belowQuorum: seq<(string, int)>)
    ensures filtered == KeptUpTo(valueMap, quorum, |valueMap|)
    ensures belowQuorum == BelowUpTo(valueMap, quorum, |valueMap|)
  {
    filtered, belowQuorum := [], [];
    for i := 0 to |valueMap|
      invariant filtered == KeptUpTo(valueMap, quorum, i)
      invariant belowQuorum == BelowUpTo(valueMap, quorum, i)
    {
      var (featureId, featureValues) := valueMap[i];
      var totalLanguageCount := TotalCount(featureValues);
      if totalLanguageCount >= quorum {
        filtered := filtered + [(featureId, featureValues)];
      } else {
        belowQuorum := belowQuorum + [(featureId, totalLanguageCount)];
      }
    }
  }

  /** The filter partitions the features: each is kept exactly when its total reaches the
      quorum, and is otherwise recorded with its total; nothing else is in either result. */
  lemma QuorumPartition(valueMap: seq<(string, seq<FeatureValue>)>, quorum: int, n: nat)
    requires n <= |valueMap|
    ensures |KeptUpTo(valueMap, quorum, n)| + |BelowUpTo(valueMap, quorum, n)| == n
    ensures forall i :: 0 <= i < n ==>
              (valueMap[i] in KeptUpTo(valueMap, quorum, n) <==> TotalCount(valueMap[i].1) >= quorum)
    ensures forall i :: 0 <= i < n ==>
              ((valueMap[i].0, TotalCount(valueMap[i].1)) in BelowUpTo(valueMap, quorum, n)
               <==> TotalCount(valueMap[i].1) < quorum)
    ensures forall e :: e in KeptUpTo(valueMap, quorum, n) ==> e in valueMap[..n] && TotalCount(e.1) >= quorum
    ensures forall e :: e in BelowUpTo(valueMap, quorum, n) ==>
              e.1 < quorum && exists i :: 0 <= i < n && valueMap[i].0 == e.0 && TotalCount(valueMap[i].1) == e.1
  {
    QuorumSizes(valueMap, quorum, n);
    QuorumKept(valueMap, quorum, n);
    QuorumBelow(valueMap, quorum, n);
  }

  lemma {:induction false} QuorumSizes(valueMap: seq<(string, seq<FeatureValue>)>, quorum: int, n: nat)
    requires n <= |valueMap|
    ensures |KeptUpTo(valueMap, quorum, n)| + |BelowUpTo(valueMap, quorum, n)| == n
  {
    if n > 0 {
      QuorumSizes(valueMap, quorum, n - 1);
    }
  }

  lemma {:induction false} QuorumKept(valueMap: seq<(string, seq<FeatureValue>)>, quorum: int, n: nat)
    requires n <= |valueMap|
    ensures forall i :: 0 <= i < n ==>
              (valueMap[i] in KeptUpTo(valueMap, quorum, n) <==> TotalCount(valueMap[i].1) >= quorum)
    ensures forall e :: e in KeptUpTo(valueMap, quorum, n) ==> e in valueMap[..n] && TotalCount(e.1) >= quorum
  {
    if n > 0 {
      QuorumKept(valueMap, quorum, n - 1);
      var prev := KeptUpTo(valueMap, quorum, n - 1);
      var last := valueMap[n - 1];
      var kept := KeptUpTo(valueMap, quorum, n);
      assert valueMap[..n] == valueMap[..n - 1] + [last];
      assert kept == prev + (if TotalCount(last.1) >= quorum then [last] else []);
      forall e | e in kept ensures e in valueMap[..n] && TotalCount(e.1) >= quorum {
        if e in prev { assert e in valueMap[..n - 1]; }
      }
      forall i | 0 <= i < n ensures valueMap[i] in kept <==> TotalCount(valueMap[i].1) >= quorum {
        if i < n - 1 && valueMap[i] != last {
          assert valueMap[i] in kept <==> valueMap[i] in prev;
        }
      }
    }
  }

  lemma {:induction false} QuorumBelow(valueMap: seq<(string, seq<FeatureValue>)>, quorum: int, n: nat)
    requires n <= |valueMap|
    ensures forall i :: 0 <= i < n ==>
              ((valueMap[i].0, TotalCount(valueMap[i].1)) in BelowUpTo(valueMap, quorum, n)
               <==> TotalCount(valueMap[i].1) < quorum)
    ensures forall e :: e in BelowUpTo(valueMap, quorum, n) ==>
              e.1 < quorum && exists i :: 0 <= i < n && valueMap[i].0 == e.0 && TotalCount(valueMap[i].1) == e.1
  {
    if n > 0 {
      QuorumBelow(valueMap, quorum, n - 1);
      var prev := BelowUpTo(valueMap, quorum, n - 1);
      var last := valueMap[n - 1];
      var total := TotalCount(last.1);
      var below := BelowUpTo(valueMap, quorum, n);
      assert below == prev + (if total >= quorum then [] else [(last.0, total)]);
      forall e | e in below
        ensures e.1 < quorum && exists i :: 0 <= i < n && valueMap[i].0 == e.0 && TotalCount(valueMap[i].1) == e.1
      {
        if e in prev {
          var i :| 0 <= i < n - 1 && valueMap[i].0 == e.0 && TotalCount(valueMap[i].1) == e.1;
        } else {
          assert valueMap[n - 1].0 == e.0 && TotalCount(valueMap[n - 1].1) == e.1;
        }
      }
      forall i | 0 <= i < n
        ensures (valueMap[i].0, TotalCount(valueMap[i].1)) in below <==> TotalCount(valueMap[i].1) < quorum
      {
        var e := (valueMap[i].0, TotalCount(valueMap[i].1));
        if i < n - 1 && e != (last.0, total) {
          assert e in below <==> e in prev;
        }
      }
    }
  }

  // ----- Grouping a feature's values by relative frequency -----

  /** The values whose relative frequency is 100. */
  function TopOf(values: seq<FeatureValue>): seq<FeatureValue>
  {
    if |values| == 0 then []
    else TopOf(values[..|values| - 1]) + (if values[|values| - 1].relativeFrequency == 100 then [values[|values| - 1]] else [])
  }

  /** The other values with a relative frequency of at least 50. */
  function FrequentOf(values: seq<FeatureValue>): seq<FeatureValue>
  {
    if |values| == 0 then []
    else
      var v := values[|values| - 1];
      FrequentOf(values[..|values| - 1]) + (if v.relativeFrequency != 100 && v.relativeFrequency >= 50 then [v] else [])
  }

  /** The values with a relative frequency below 50. */
  function RareOf(values: seq<FeatureValue>): seq<FeatureValue>
  {
    if |values| == 0 then []
    else RareOf(values[..|values| - 1]) + (if values[|values| - 1].relativeFrequency < 50 then [values[|values| - 1]] else [])
  }

  /** The grouping loop of `_print_feature_values`: 100 is top, 50 or more frequent, less
      than 50 rare. */
  method GroupByFrequency(featureValues: seq<FeatureValue>)
    returns (top: seq<FeatureValue>, frequent: seq<FeatureValue>, rare: seq<FeatureValue>)
    ensures top == TopOf(featureValues) && frequent == FrequentOf(featureValues) && rare == RareOf(featureValues)
  {
    top, frequent, rare := [], [], [];
    for i := 0 to |featureValues|
      invariant top == TopOf(featureValues[..i])
      invariant frequent == FrequentOf(featureValues[..i])
      invariant rare == RareOf(featureValues[..i])
    {
      assert featureValues[..i + 1][..i] == featureValues[..i];
      var value := featureValues[i];
      if value.relativeFrequency == 100 {
        top := top + [value];
      } else if value.relativeFrequency >= 50 {
        frequent := frequent + [value];
      } else {
        rare := rare + [value];
      }
    }
    assert featureValues[..|featureValues|] == featureValues;
  }

  /** Every value lands in exactly one group, the one its relative frequency selects. */
  lemma GroupsPartition(values: seq<FeatureValue>)
    ensures multiset(TopOf(values)) + multiset(FrequentOf(values)) + multiset(RareOf(values)) == multiset(values)
    ensures forall v :: v in TopOf(values) ==> v.relativeFrequency == 100
    ensures forall v :: v in FrequentOf(values) ==> 50 <= v.relativeFrequency && v.relativeFrequency != 100
    ensures forall v :: v in RareOf(values) ==> v.relativeFrequency < 50
  {
    GroupsCover(values);
    GroupsSelect(values);
  }

  lemma {:induction false} GroupsCover(values: seq<FeatureValue>)
    ensures multiset(TopOf(values)) + multiset(FrequentOf(values)) + multiset(RareOf(values)) == multiset(values)
  {
    if |values| > 0 {
      var init := values[..|values| - 1];
      GroupsCover(init);
      assert values == init + [values[|values| - 1]];
    }
  }

  lemma {:induction false} GroupsSelect(values: seq<FeatureValue>)
    ensures forall v :: v in TopOf(values) ==> v.relativeFrequency == 100
    ensures forall v :: v in FrequentOf(values) ==> 50 <= v.relativeFrequency && v.relativeFrequency != 100
    ensures forall v :: v in RareOf(values) ==> v.relativeFrequency < 50
  {
    if |values| > 0 {
      GroupsSelect(values[..|values| - 1]);
    }
  }

  // ----- Naming languages -----

  /** The codes of a list, as a set. */
  function CodeSet(codes: seq<string>): set<string>
  {
    set k | 0 <= k < |codes| :: codes[k]
  }

  /** The label of each code: the bare code when it was seen before, in `seen` or earlier in
      the list, else "Name/code". */
  function Labels(codes: seq<string>, seen: set<string>, names: map<string, string>): (r: seq<string>)
    requires forall k :: 0 <= k < |codes| ==> codes[k] in names
    ensures |r| == |codes|
  {
    if |codes| == 0 then []
    else
      var init := codes[..|codes| - 1];
      var c := codes[|codes| - 1];
      Labels(init, seen, names) + [if c in seen + CodeSet(init) then c else names[c] + "/" + c]
  }

  /** A language gets its name on its first mention only. */
  lemma {:induction false} LabelsFirstMention(codes: seq<string>, seen: set<string>, names: map<string, string>, i: nat)
    requires forall k :: 0 <= k < |codes| ==> codes[k] in names
    requires i < |codes|
    ensures Labels(codes, seen, names)[i]
            == if codes[i] in seen || codes[i] in codes[..i] then codes[i] else names[codes[i]] + "/" + codes[i]
  {
    var init := codes[..|codes| - 1];
    if i < |codes| - 1 {
      LabelsFirstMention(init, seen, names, i);
      assert init[i] == codes[i] && init[..i] == codes[..i];
    } else {
      assert init == codes[..i];
      assert codes[i] in CodeSet(init) <==> codes[i] in codes[..i] by {
        if codes[i] in CodeSet(init) {
          var k :| 0 <= k < |init| && init[k] == codes[i];
          assert codes[..i][k] == codes[i];
        }
      }
    }
  }

  /** `_lang_count_formatted`: a count followed by the singular or the plural. */
  function LangCountFormatted(languageCount: int): (r: string)
    ensures r == Merging.IntToString(languageCount) + (if languageCount == 1 then " language" else " languages")
  {
    if languageCount == 1 then "1 language" else Merging.IntToString(languageCount) + " languages"
  }

  lemma CodeSetSnoc(codes: seq<string>, c: string)
    ensures CodeSet(codes + [c]) == CodeSet(codes) + {c}
  {
    var s := codes + [c];
    assert s[|codes|] == c;
    forall x | x in CodeSet(codes) ensures x in CodeSet(s) {
      var k :| 0 <= k < |codes| && codes[k] == x;
      assert s[k] == x;
    }
  }

  class AreaPrinter {
    var langNames: map<string, string>
    var langsSeen: set<string>
    var quorum: int

    /** A printer that has named no language yet. */
    constructor (langNames: map<string, string>, sourceLangCount: nat)
      ensures this.langNames == langNames && langsSeen == {} && quorum == CalcQuorum(sourceLangCount)
    {
      this.langNames := langNames;
      langsSeen := {};
      quorum := CalcQuorum(sourceLangCount);
    }

    /** `_format_language_list`: the labels joined with ", "; every listed code is seen
        afterwards. */
    method FormatLanguageList(isoCodes: seq<string>) returns (r: string)
      requires forall k :: 0 <= k < |isoCodes| ==> isoCodes[k] in langNames
      modifies this`langsSeen
      ensures r == Join(Labels(isoCodes, old(langsSeen), langNames), ", ")
      ensures langsSeen == old(langsSeen) + CodeSet(isoCodes)
    {
      var langNamesList: seq<string> := [];
      for i := 0 to |isoCodes|
        invariant langsSeen == old(langsSeen) + CodeSet(isoCodes[..i])
        invariant langNamesList == Labels(isoCodes[..i], old(langsSeen), langNames)
      {
        var isoCode := isoCodes[i];
        assert isoCodes[..i + 1][..i] == isoCodes[..i] && isoCodes[..i + 1][i] == isoCode;
        if isoCode in langsSeen {
          langNamesList := langNamesList + [isoCode];
        } else {
          langNamesList := langNamesList + [langNames[isoCode] + "/" + isoCode];
        }
        langsSeen := langsSeen + {isoCode};
        CodeSetSnoc(isoCodes[..i], isoCode);
        assert isoCodes[..i] + [isoCode] == isoCodes[..i + 1];
      }
      assert isoCodes[..|isoCodes|] == isoCodes;
      r := Join(langNamesList, ", ");
    }
  }

  // ----- Cross-combination features -----

  function IdsOf(features: seq<(string, string)>): set<string>
  {
    set k | 0 <= k < |features| :: features[k].0
  }

  /** No feature id occurs twice (a dictionary's keys). */
  predicate DistinctIds(features: seq<(string, string)>)
  {
    forall i, j :: 0 <= i < j < |features| ==> features[i].0 != features[j].0
  }

  /** `feature_id[:-1]`: the chapter of a feature id. */
  function ChapterOf(featureId: string): string
  {
    if |featureId| == 0 then "" else featureId[..|featureId| - 1]
  }

  /** The candidate ids, chapter + 'E' and chapter + 'X' for every feature, in order. */
  function ExtraIds(features: seq<(string, string)>): (r: seq<string>)
    ensures |r| == 2 * |features|
    ensures forall k :: 0 <= k < |features| ==>
              r[2 * k] == ChapterOf(features[k].0) + "E" && r[2 * k + 1] == ChapterOf(features[k].0) + "X"
  {
    if |features| == 0 then []
    else
      var c := ChapterOf(features[0].0);
      [c + "E", c + "X"] + ExtraIds(features[1..])
  }

  /** Adding the first `n` candidate ids that are missing, as cross-combinations. */
  function AddMissingUpTo(features: seq<(string, string)>, ids: seq<string>, n: nat): (r: seq<(string, string)>)
    requires n <= |ids|
  {
    if n == 0 then features
    else
      var prev := AddMissingUpTo(features, ids, n - 1);
      if ids[n - 1] in IdsOf(prev) then prev else prev + [(ids[n - 1], "Cross-combination")]
  }

  /** The extension of `_find_features_in_area`. */
  function WithCrossCombinations(features: seq<(string, string)>): seq<(string, string)>
  {
    AddMissingUpTo(features, ExtraIds(features), 2 * |features|)
  }

  /** The extension as the nested loop over chapters and endings. */
  method AddCrossCombinations(features: seq<(string, string)>) returns (result: seq<(string, string)>)
    ensures result == WithCrossCombinations(features)
  {
    var ids := ExtraIds(features);
    result := features;
    for i := 0 to |features|
      invariant result == AddMissingUpTo(features, ids, 2 * i)
    {
      result := AddChapterIds(features, ids, i, result);
    }
  }

  /** One pass of the outer loop: the chapter's 'E' and 'X' ids, each added when missing. */
  method AddChapterIds(features: seq<(string, string)>, ids: seq<string>, i: nat, prev: seq<(string, string)>)
    returns (result: seq<(string, string)>)
    requires i < |features| && ids == ExtraIds(features) && prev == AddMissingUpTo(features, ids, 2 * i)
    ensures result == AddMissingUpTo(features, ids, 2 * i + 2)
  {
    result := prev;
    var chapterId := ChapterOf(features[i].0);
    var extraFeatureId := chapterId + "E";
    if extraFeatureId !in IdsOf(result) {
      result := result + [(extraFeatureId, "Cross-combination")];
    }
    assert result == AddMissingUpTo(features, ids, 2 * i + 1);
    extraFeatureId := chapterId + "X";
    if extraFeatureId !in IdsOf(result) {
      result := result + [(extraFeatureId, "Cross-combination")];
    }
  }

  lemma IdsOfSnoc(features: seq<(string, string)>, e: (string, string))
    ensures IdsOf(features + [e]) == IdsOf(features) + {e.0}
  {
    var s := features + [e];
    assert s[|features|] == e;
    forall x | x in IdsOf(features) ensures x in IdsOf(s) {
      var k :| 0 <= k < |features| && features[k].0 == x;
      assert s[k] == features[k];
    }
  }

  /** The original features stay first and unchanged; every candidate id is present
      afterwards; an added entry is a cross-combination whose id was missing; ids stay
      distinct. */
  lemma {:induction false} AddMissingSpec(features: seq<(string, string)>, ids: seq<string>, n: nat)
    requires n <= |ids| && DistinctIds(features)
    ensures features <= AddMissingUpTo(features, ids, n)
    ensures DistinctIds(AddMissingUpTo(features, ids, n))
    ensures IdsOf(AddMissingUpTo(features, ids, n)) == IdsOf(features) + set k | 0 <= k < n :: ids[k]
    ensures forall k :: |features| <= k < |AddMissingUpTo(features, ids, n)| ==>
              AddMissingUpTo(features, ids, n)[k].1 == "Cross-combination"
              && AddMissingUpTo(features, ids, n)[k].0 !in IdsOf(features)
  {
    if n > 0 {
      AddMissingSpec(features, ids, n - 1);
      var prev := AddMissingUpTo(features, ids, n - 1);
      assert (set k | 0 <= k < n :: ids[k]) == (set k | 0 <= k < n - 1 :: ids[k]) + {ids[n - 1]};
      if ids[n - 1] !in IdsOf(prev) {
        IdsOfSnoc(prev, (ids[n - 1], "Cross-combination"));
        var r := prev + [(ids[n - 1], "Cross-combination")];
        forall i, j | 0 <= i < j < |r| ensures r[i].0 != r[j].0 {
          if j == |prev| {
            assert r[i].0 in IdsOf(prev) by { assert r[i] == prev[i]; }
          }
        }
        assert features <= r;
      }
    }
  }

  /** After the extension, every chapter of the area has its 'E' and 'X' feature, and the
      features that were there keep their names. */
  lemma CrossCombinationsPresent(features: seq<(string, string)>)
    requires DistinctIds(features)
    ensures features <= WithCrossCombinations(features)
    ensures DistinctIds(WithCrossCombinations(features))
    ensures forall k :: 0 <= k < |features| ==>
              ChapterOf(features[k].0) + "E" in IdsOf(WithCrossCombinations(features))
              && ChapterOf(features[k].0) + "X" in IdsOf(WithCrossCombinations(features))
    ensures forall k :: |features| <= k < |WithCrossCombinations(features)| ==>
              WithCrossCombinations(features)[k].1 == "Cross-combination"
              && WithCrossCombinations(features)[k].0 !in IdsOf(features)
  {
    var ids := ExtraIds(features);
    AddMissingSpec(features, ids, 2 * |features|);
    forall k | 0 <= k < |features|
      ensures ids[2 * k] in (set j | 0 <= j < 2 * |features| :: ids[j])
      ensures ids[2 * k + 1] in (set j | 0 <= j < 2 * |features| :: ids[j])
    {
    }
  }
}
