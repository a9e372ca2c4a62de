// The consistency checks and corrections of the WALS feature table
// (scripts/checkwalsfeatures.py): completeness of a feature's language lists with the
// fallback languages counted as their main language, the recount of language counts and
// relative frequencies, the agreement of the two article features, and the
// cross-combination of two features into a new one.
module WalsCheck {
  import opened Wrappers
  import opened Text
  import opened WalsArea

  // ----- Rounding and ordering shared by the recount and the cross-combination -----

  /** Python's `round(p / q)` taken on the exact quotient: the nearest whole number, and
      the even one of the two when the quotient lies halfway between them. */
  function RoundHalfEven(p: nat, q: nat): (r: nat)
    requires q > 0
    ensures -(q as int) <= 2 * (q * r - p) <= q
    ensures 2 * (q * r - p) == q || 2 * (q * r - p) == -(q as int) ==> r % 2 == 0
  {
    var d := p / q;
    var rem := p % q;
    assert p == q * d + rem;
    assert q * (d + 1) == q * d + q;
    if 2 * rem > q then d + 1
    else if 2 * rem < q then d
    else if d % 2 == 0 then d else d + 1
  }

  lemma MulMonotone(a: nat, b: int, c: int)
    requires b <= c
    ensures a * b <= a * c
  {
    assert a * c - a * b == a * (c - b);
  }

  /** The relative frequency of the highest count is 100. */
  lemma RoundTop(top: nat)
    requires top > 0
    ensures RoundHalfEven(100 * top, top) == 100
  {
    var r := RoundHalfEven(100 * top, top);
    if r > 100 {
      MulMonotone(top, 101, r);
      assert false;
    }
    if r < 100 {
      MulMonotone(top, r, 99);
      assert false;
    }
  }

  /** A count no higher than the top count gets a relative frequency of at most 100. */
  lemma RoundBelowTop(count: nat, top: nat)
    requires 0 < top && count <= top
    ensures RoundHalfEven(100 * count, top) <= 100
  {
    var r := RoundHalfEven(100 * count, top);
    MulMonotone(100, count, top);
    if r > 100 {
      MulMonotone(top, 101, r);
      assert false;
    }
  }

  /** The values are in order of non-increasing language count. */
  predicate NonIncreasing(s: seq<FeatureValue>)
  {
    forall i, j :: 0 <= i < j < |s| ==> s[i].languageCount >= s[j].languageCount
  }

  /** `x` placed after every leading value whose count is at least its own. */
  function InsertDesc(x: FeatureValue, s: seq<FeatureValue>): seq<FeatureValue>
  {
    if |s| == 0 then [x]
    else if s[0].languageCount >= x.languageCount then [s[0]] + InsertDesc(x, s[1..])
    else [x] + s
  }

  /** `sorted(s, key=lambda f: f.language_count, reverse=True)`: the stable sort from the
      highest count to the lowest. */
  function SortByCountDesc(s: seq<FeatureValue>): (r: seq<FeatureValue>)
    ensures multiset(r) == multiset(s) && NonIncreasing(r)
  {
    if |s| == 0 then []
    else
      var init := SortByCountDesc(s[..|s| - 1]);
      InsertDescKeeps(s, init);
      InsertDesc(s[|s| - 1], init)
  }

  lemma InsertDescKeeps(s: seq<FeatureValue>, init: seq<FeatureValue>)
    requires |s| > 0 && multiset(init) == multiset(s[..|s| - 1]) && NonIncreasing(init)
    ensures multiset(InsertDesc(s[|s| - 1], init)) == multiset(s) && NonIncreasing(InsertDesc(s[|s| - 1], init))
  {
    InsertDescPerm(s[|s| - 1], init);
    InsertDescSorted(s[|s| - 1], init);
    LastSplit(s);
  }

  lemma {:induction false} InsertDescPerm(x: FeatureValue, s: seq<FeatureValue>)
    ensures multiset(InsertDesc(x, s)) == multiset(s) + multiset{x}
  {
    if |s| > 0 && s[0].languageCount >= x.languageCount {
      InsertDescPerm(x, s[1..]);
      assert s == [s[0]] + s[1..];
    }
  }

  lemma {:induction false} InsertDescSorted(x: FeatureValue, s: seq<FeatureValue>)
    requires NonIncreasing(s)
    ensures NonIncreasing(InsertDesc(x, s))
    ensures |InsertDesc(x, s)| == |s| + 1
    ensures InsertDesc(x, s)[0] == (if |s| > 0 && s[0].languageCount >= x.languageCount then s[0] else x)
  {
    if |s| > 0 && s[0].languageCount >= x.languageCount {
      InsertDescSorted(x, s[1..]);
      var r := InsertDesc(x, s[1..]);
      forall j | 0 <= j < |r| ensures s[0].languageCount >= r[j].languageCount {
        InsertDescPerm(x, s[1..]);
        assert r[j] in multiset(r);
        if r[j] != x {
          assert r[j] in multiset(s[1..]);
          var k :| 0 <= k < |s[1..]| && s[1..][k] == r[j];
          assert s[k + 1] == r[j];
        }
      }
    }
  }

  /** The values with count `c`, in their order. */
  function WithCount(s: seq<FeatureValue>, c: int): seq<FeatureValue>
  {
    if |s| == 0 then []
    else (if s[0].languageCount == c then [s[0]] else []) + WithCount(s[1..], c)
  }

  lemma {:induction false} WithCountAppend(s: seq<FeatureValue>, x: FeatureValue, c: int)
    ensures WithCount(s + [x], c) == WithCount(s, c) + (if x.languageCount == c then [x] else [])
  {
    if |s| > 0 {
      WithCountAppend(s[1..], x, c);
      assert (s + [x])[1..] == s[1..] + [x];
    }
  }

  lemma {:induction false} WithCountNone(s: seq<FeatureValue>, c: int)
    requires forall k :: 0 <= k < |s| ==> s[k].languageCount < c
    ensures WithCount(s, c) == []
  {
    if |s| > 0 {
      WithCountNone(s[1..], c);
    }
  }

  lemma {:induction false} InsertDescStable(x: FeatureValue, s: seq<FeatureValue>, c: int)
    requires NonIncreasing(s)
    ensures WithCount(InsertDesc(x, s), c) == WithCount(s, c) + (if x.languageCount == c then [x] else [])
  {
    if |s| > 0 {
      if s[0].languageCount >= x.languageCount {
        InsertDescStable(x, s[1..], c);
      } else if x.languageCount == c {
        WithCountNone(s, c);
        assert InsertDesc(x, s) == [x] + s;
        assert ([x] + s)[1..] == s;
      } else {
        assert ([x] + s)[1..] == s;
      }
    }
  }

  /** The sort is stable: the values of each count keep their order. */
  lemma {:induction false} SortStable(s: seq<FeatureValue>, c: int)
    ensures WithCount(SortByCountDesc(s), c) == WithCount(s, c)
  {
    if |s| > 0 {
      var init := s[..|s| - 1];
      SortStable(init, c);
      InsertDescStable(s[|s| - 1], SortByCountDesc(init), c);
      WithCountAppend(init, s[|s| - 1], c);
      assert s == init + [s[|s| - 1]];
    }
  }

  lemma {:induction false} InsertDescAtEnd(x: FeatureValue, s: seq<FeatureValue>)
    requires forall k :: 0 <= k < |s| ==> s[k].languageCount >= x.languageCount
    ensures InsertDesc(x, s) == s + [x]
  {
    if |s| > 0 {
      InsertDescAtEnd(x, s[1..]);
      assert s == [s[0]] + s[1..];
    }
  }

  lemma LastSplit(s: seq<FeatureValue>)
    requires |s| > 0
    ensures s == s[..|s| - 1] + [s[|s| - 1]]
  {
  }

  /** Values already in order are left as they are. */
  lemma {:induction false} SortSorted(s: seq<FeatureValue>)
    requires NonIncreasing(s)
    ensures SortByCountDesc(s) == s
  {
    if |s| > 0 {
      var init := s[..|s| - 1];
      var x := s[|s| - 1];
      assert NonIncreasing(init) by {
        forall i, j | 0 <= i < j < |init| ensures init[i].languageCount >= init[j].languageCount {
          assert init[i] == s[i] && init[j] == s[j];
        }
      }
      SortSorted(init);
      forall k | 0 <= k < |init| ensures init[k].languageCount >= x.languageCount {
        assert init[k] == s[k];
      }
      InsertDescAtEnd(x, init);
      LastSplit(s);
    }
  }

  // ----- Completeness and consistency of one feature -----

  /** The value list of a feature as `defaultdict(list)` hands it out: empty when absent. */
  function Get(maps: map<string, seq<FeatureValue>>, id: string): seq<FeatureValue>
  {
    if id in maps then maps[id] else []
  }

  /** How often each language is listed in the first `n` values. */
  function LangCounter(features: seq<FeatureValue>, n: nat): multiset<string>
    requires n <= |features|
  {
    if n == 0 then multiset{} else LangCounter(features, n - 1) + multiset(features[n - 1].languages)
  }

  /** The counter after the first `n` (fallback, main) pairs: a counted fallback's count is
      moved onto its main language. */
  function MoveFallbacks(counter: multiset<string>, fallbacks: seq<(string, string)>, n: nat): multiset<string>
    requires n <= |fallbacks|
  {
    if n == 0 then counter
    else
      var m := MoveFallbacks(counter, fallbacks, n - 1);
      var (fallback, main) := fallbacks[n - 1];
      if m[fallback] > 0 then m[main := m[main] + m[fallback]][fallback := 0] else m
  }

  /** What the completeness check reports for a feature. */
  datatype Report = NotFound | Checked(repeated: set<string>, missing: set<string>, extra: set<string>)

  /** The languages counted twice or more, the source languages not listed, and the listed
      languages that are no source language. */
  function Problems(counter: multiset<string>, sourceSet: set<string>): (r: Report)
    ensures r.Checked?
    ensures forall x :: x in r.repeated <==> counter[x] >= 2
    ensures forall x :: x in r.missing <==> x in sourceSet && counter[x] == 0
    ensures forall x :: x in r.extra <==> counter[x] > 0 && x !in sourceSet
  {
    var listed := set x | x in counter;
    var repeated := set x | x in counter && counter[x] >= 2;
    Checked(repeated, sourceSet - listed, listed - sourceSet)
  }

  /** The report of `_check_feature_completeness_and_consistency` for a feature's values. */
  function Completeness(features: seq<FeatureValue>, fallbacks: seq<(string, string)>, sourceSet: set<string>): Report
  {
    if |features| == 0 then NotFound
    else Problems(MoveFallbacks(LangCounter(features, |features|), fallbacks, |fallbacks|), sourceSet)
  }

  /** Whether a report holds no problem. */
  predicate AllClear(r: Report)
  {
    r.Checked? && r.repeated == {} && r.missing == {} && r.extra == {}
  }

  /** A feature passes exactly when, fallbacks counted as their main language, every source
      language is listed once and no other language is listed. */
  lemma CompleteIffExactlyOnce(counter: multiset<string>, sourceSet: set<string>)
    ensures AllClear(Problems(counter, sourceSet)) <==> forall x :: counter[x] == (if x in sourceSet then 1 else 0)
  {
    var r := Problems(counter, sourceSet);
    if AllClear(r) {
      forall x ensures counter[x] == (if x in sourceSet then 1 else 0) {
        assert x !in r.repeated && x !in r.missing && x !in r.extra;
      }
    }
  }

  /** A language that is neither a fallback nor a main language keeps its count; when no
      fallback is also a main language, no fallback is counted afterwards. */
  lemma MovedCounts(counter: multiset<string>, fallbacks: seq<(string, string)>, n: nat)
    requires n <= |fallbacks|
    ensures forall x :: (forall k :: 0 <= k < n ==> x != fallbacks[k].0 && x != fallbacks[k].1) ==>
              MoveFallbacks(counter, fallbacks, n)[x] == counter[x]
    ensures (forall k, j :: 0 <= k < n && 0 <= j < n ==> fallbacks[k].0 != fallbacks[j].1) ==>
              forall k :: 0 <= k < n ==> MoveFallbacks(counter, fallbacks, n)[fallbacks[k].0] == 0
  {
    forall x | forall k :: 0 <= k < n ==> x != fallbacks[k].0 && x != fallbacks[k].1
      ensures MoveFallbacks(counter, fallbacks, n)[x] == counter[x]
    {
      MovedKeeps(counter, fallbacks, n, x);
    }
    if forall k, j :: 0 <= k < n && 0 <= j < n ==> fallbacks[k].0 != fallbacks[j].1 {
      forall k | 0 <= k < n ensures MoveFallbacks(counter, fallbacks, n)[fallbacks[k].0] == 0 {
        MovedEmptied(counter, fallbacks, n, k);
      }
    }
  }

  lemma {:induction false} MovedKeeps(counter: multiset<string>, fallbacks: seq<(string, string)>, n: nat, x: string)
    requires n <= |fallbacks|
    requires forall k :: 0 <= k < n ==> x != fallbacks[k].0 && x != fallbacks[k].1
    ensures MoveFallbacks(counter, fallbacks, n)[x] == counter[x]
  {
    if n > 0 {
      MovedKeeps(counter, fallbacks, n - 1, x);
      assert x != fallbacks[n - 1].0 && x != fallbacks[n - 1].1;
    }
  }

  lemma {:induction false} MovedEmptied(counter: multiset<string>, fallbacks: seq<(string, string)>, n: nat, k: nat)
    requires k < n <= |fallbacks|
    requires forall i, j :: 0 <= i < n && 0 <= j < n ==> fallbacks[i].0 != fallbacks[j].1
    ensures MoveFallbacks(counter, fallbacks, n)[fallbacks[k].0] == 0
  {
    assert fallbacks[k].0 != fallbacks[n - 1].1;
    if k < n - 1 {
      MovedEmptied(counter, fallbacks, n - 1, k);
    }
  }

  // ----- The recount of one feature -----

  /** Some of the first `n` values has a language count other than its number of languages. */
  function CountWrong(features: seq<FeatureValue>, n: nat): bool
    requires n <= |features|
  {
    n > 0 && (CountWrong(features, n - 1) || |features[n - 1].languages| != features[n - 1].languageCount)
  }

  /** The language count the loop compares the `n`-th value with: the previous value's
      number of languages, or the initial 1000000. */
  function PrevCount(features: seq<FeatureValue>, n: nat): int
    requires n <= |features|
  {
    if n == 0 then 1000000 else |features[n - 1].languages|
  }

  /** Among the first `n` values, some has more languages than the one before it. */
  function OutOfOrder(features: seq<FeatureValue>, n: nat): bool
    requires n <= |features|
  {
    n > 0 && (OutOfOrder(features, n - 1) || |features[n - 1].languages| > PrevCount(features, n - 1))
  }

  /** Every value with its language count set to its number of languages. */
  function Recounted(features: seq<FeatureValue>): (r: seq<FeatureValue>)
    ensures |r| == |features|
    ensures forall k :: 0 <= k < |r| ==> r[k] == features[k].(languageCount := |features[k].languages|)
  {
    seq(|features|, k requires 0 <= k < |features| => features[k].(languageCount := |features[k].languages|))
  }

  /** Every value with its relative frequency recomputed against `top`. */
  function WithFrequencies(features: seq<FeatureValue>, top: nat): (r: seq<FeatureValue>)
    requires top > 0 && forall k :: 0 <= k < |features| ==> features[k].languageCount >= 0
    ensures |r| == |features|
    ensures forall k :: 0 <= k < |r| ==>
              r[k] == features[k].(relativeFrequency := RoundHalfEven(100 * features[k].languageCount, top))
  {
    seq(|features|, k requires 0 <= k < |features| =>
      features[k].(relativeFrequency := RoundHalfEven(100 * features[k].languageCount, top)))
  }

  /** Every value lists some language. */
  predicate HasLanguages(features: seq<FeatureValue>)
  {
    forall k :: 0 <= k < |features| ==> |features[k].languages| > 0
  }

  /** The recounted values, sorted when the loop found them out of order. */
  function Ordered(features: seq<FeatureValue>): (r: seq<FeatureValue>)
    ensures |r| == |features| && multiset(r) == multiset(Recounted(features))
    ensures forall k :: 0 <= k < |r| ==> r[k].languageCount == |r[k].languages|
  {
    var counted := Recounted(features);
    var r := if OutOfOrder(features, |features|) then SortByCountDesc(counted) else counted;
    assert |r| == |counted| by { assert |multiset(r)| == |multiset(counted)|; }
    assert forall k :: 0 <= k < |r| ==> r[k].languageCount == |r[k].languages| by {
      forall k | 0 <= k < |r| ensures r[k].languageCount == |r[k].languages| {
        assert r[k] in multiset(counted);
      }
    }
    r
  }

  /** `_correct_feature_counts` on a feature's values: whether a count was wrong, and the
      values to store then, recounted, sorted when the loop found them out of order, and
      with their relative frequencies recomputed. */
  function Corrected(features: seq<FeatureValue>): (seq<FeatureValue>, bool)
    requires HasLanguages(features)
  {
    var ordered := Ordered(features);
    if CountWrong(features, |features|) then
      assert ordered[0].languageCount > 0 by { assert ordered[0] in multiset(Recounted(features)); }
      (WithFrequencies(ordered, ordered[0].languageCount), true)
    else (features, false)
  }

  lemma {:induction false} CountWrongIff(features: seq<FeatureValue>, n: nat)
    requires n <= |features|
    ensures CountWrong(features, n) <==> exists k :: 0 <= k < n && |features[k].languages| != features[k].languageCount
  {
    if n > 0 {
      CountWrongIff(features, n - 1);
    }
  }

  /** The loop finds the values out of order exactly when their numbers of languages do not
      fall from left to right, or the first exceeds 1000000. */
  lemma {:induction false} OutOfOrderIff(features: seq<FeatureValue>, n: nat)
    requires n <= |features|
    ensures !OutOfOrder(features, n) <==>
              (n == 0 || |features[0].languages| <= 1000000)
              && forall i, j :: 0 <= i < j < n ==> |features[i].languages| >= |features[j].languages|
  {
    if n > 0 {
      OutOfOrderIff(features, n - 1);
      if !OutOfOrder(features, n) && n > 1 {
        forall i, j | 0 <= i < j < n ensures |features[i].languages| >= |features[j].languages| {
          if j == n - 1 && i < n - 2 {
            assert |features[i].languages| >= |features[n - 2].languages|;
          }
        }
      }
    }
  }

  /** After a recount that changed something, every count is the number of languages, the
      values run from the highest count down, the first has relative frequency 100 and none
      more than 100, and the languages lists are those of before. */
  lemma OrderedSorted(features: seq<FeatureValue>)
    ensures NonIncreasing(Ordered(features))
  {
    if !OutOfOrder(features, |features|) {
      OutOfOrderIff(features, |features|);
      assert Ordered(features) == Recounted(features);
    }
  }

  lemma OrderedLists(features: seq<FeatureValue>)
    ensures multiset(LanguageLists(Ordered(features))) == multiset(LanguageLists(features))
  {
    ListsOfRecounted(features);
    if OutOfOrder(features, |features|) {
      ListsOfSorted(Recounted(features));
    }
  }

  lemma CorrectedFacts(features: seq<FeatureValue>)
    requires HasLanguages(features) && Corrected(features).1
    ensures var r := Corrected(features).0;
      |r| == |features| > 0
      && (forall k :: 0 <= k < |r| ==> r[k].languageCount == |r[k].languages|)
      && NonIncreasing(r)
      && r[0].relativeFrequency == 100
      && (forall k :: 0 <= k < |r| ==> 0 <= r[k].relativeFrequency <= 100)
      && multiset(LanguageLists(r)) == multiset(LanguageLists(features))
  {
    var ordered := Ordered(features);
    var top := ordered[0].languageCount;
    var r := Corrected(features).0;
    assert r == WithFrequencies(ordered, top);
    OrderedSorted(features);
    RoundTop(top);
    forall k | 0 <= k < |r| ensures 0 <= r[k].relativeFrequency <= 100 {
      RoundBelowTop(ordered[k].languageCount, top);
    }
    OrderedLists(features);
    ListsOfFrequencies(ordered, top);
  }

  /** The languages lists of the values, in their order. */
  function LanguageLists(features: seq<FeatureValue>): (r: seq<seq<string>>)
    ensures |r| == |features| && forall k :: 0 <= k < |r| ==> r[k] == features[k].languages
  {
    seq(|features|, k requires 0 <= k < |features| => features[k].languages)
  }

  lemma ListsOfRecounted(features: seq<FeatureValue>)
    ensures LanguageLists(Recounted(features)) == LanguageLists(features)
  {
  }

  lemma ListsOfFrequencies(features: seq<FeatureValue>, top: nat)
    requires top > 0 && forall k :: 0 <= k < |features| ==> features[k].languageCount >= 0
    ensures LanguageLists(WithFrequencies(features, top)) == LanguageLists(features)
  {
  }

  lemma ListsConcat(a: seq<FeatureValue>, b: seq<FeatureValue>)
    ensures LanguageLists(a + b) == LanguageLists(a) + LanguageLists(b)
  {
  }

  lemma {:induction false} ListsOfInsert(x: FeatureValue, s: seq<FeatureValue>)
    ensures multiset(LanguageLists(InsertDesc(x, s))) == multiset(LanguageLists(s)) + multiset{x.languages}
  {
    if |s| == 0 {
      assert LanguageLists([x]) == [x.languages];
    } else if s[0].languageCount >= x.languageCount {
      ListsOfInsert(x, s[1..]);
      ListsConcat([s[0]], InsertDesc(x, s[1..]));
      ListsConcat([s[0]], s[1..]);
      assert s == [s[0]] + s[1..];
      assert LanguageLists([s[0]]) == [s[0].languages];
    } else {
      ListsConcat([x], s);
      assert LanguageLists([x]) == [x.languages];
    }
  }

  /** Sorting moves the values, languages lists and all. */
  lemma {:induction false} ListsOfSorted(s: seq<FeatureValue>)
    ensures multiset(LanguageLists(SortByCountDesc(s))) == multiset(LanguageLists(s))
  {
    if |s| > 0 {
      var init := s[..|s| - 1];
      var x := s[|s| - 1];
      ListsOfSorted(init);
      ListsOfInsert(x, SortByCountDesc(init));
      LastSplit(s);
      ListsConcat(init, [x]);
      assert LanguageLists([x]) == [x.languages];
    }
  }

  /** A second recount right after one that changed something changes nothing. */
  lemma CorrectionSettles(features: seq<FeatureValue>)
    requires HasLanguages(features) && Corrected(features).1
    ensures HasLanguages(Corrected(features).0)
    ensures !Corrected(Corrected(features).0).1
    ensures Corrected(Corrected(features).0).0 == Corrected(features).0
  {
    CorrectedFacts(features);
    var r := Corrected(features).0;
    forall k | 0 <= k < |r| ensures |r[k].languages| > 0 {
      assert LanguageLists(r)[k] in multiset(LanguageLists(features));
    }
    CountWrongIff(r, |r|);
  }

  // ----- The two article features -----

  /** How often each language is listed among the first `n` values with value `v`. */
  function ValueCounter(features: seq<FeatureValue>, n: nat, v: int): multiset<string>
    requires n <= |features|
  {
    if n == 0 then multiset{}
    else ValueCounter(features, n - 1, v) + (if features[n - 1].value == v then multiset(features[n - 1].languages) else multiset{})
  }

  /** The languages a value lists, as a set. */
  function LanguageSet(f: FeatureValue): set<string>
  {
    set k | 0 <= k < |f.languages| :: f.languages[k]
  }

  /** The languages listed among the first `n` values with value `v`. */
  function ValueSet(features: seq<FeatureValue>, n: nat, v: int): set<string>
    requires n <= |features|
  {
    if n == 0 then {}
    else ValueSet(features, n - 1, v) + (if features[n - 1].value == v then LanguageSet(features[n - 1]) else {})
  }

  /** The languages listed among the first `n` values with a value other than 4 and 5. */
  function OtherSet(features: seq<FeatureValue>, n: nat): set<string>
    requires n <= |features|
  {
    if n == 0 then {}
    else
      var v := features[n - 1].value;
      OtherSet(features, n - 1) + (if v != 4 && v != 5 then LanguageSet(features[n - 1]) else {})
  }

  /** What `_check_consistency_between_article_features` reports. */
  datatype ArticleFindings = ArticleFindings(singletons: set<string>, spuriousDefinite: set<string>,
                                             spuriousIndefinite: set<string>)

  /** Feature 37A describes definite articles and 38A indefinite ones; value 5 of both
      means neither article and value 4 means only the other one. A language listed for
      value 5 only once, a language with only a definite article by 38A and no definite
      article by 37A, and the converse for indefinite articles, are reported. */
  function ArticleCheck(f37: seq<FeatureValue>, f38: seq<FeatureValue>): ArticleFindings
  {
    var neither := ValueCounter(f37, |f37|, 5) + ValueCounter(f38, |f38|, 5);
    var singletons := set x | x in neither && neither[x] == 1;
    ArticleFindings(singletons, ValueSet(f38, |f38|, 4) - OtherSet(f37, |f37|),
                    ValueSet(f37, |f37|, 4) - OtherSet(f38, |f38|))
  }

  lemma {:induction false} ValueSetIff(features: seq<FeatureValue>, n: nat, v: int)
    requires n <= |features|
    ensures forall x :: x in ValueSet(features, n, v) <==>
              exists k :: 0 <= k < n && features[k].value == v && x in features[k].languages
  {
    if n > 0 {
      ValueSetIff(features, n - 1, v);
    }
  }

  lemma {:induction false} OtherSetIff(features: seq<FeatureValue>, n: nat)
    requires n <= |features|
    ensures forall x :: x in OtherSet(features, n) <==>
              exists k :: 0 <= k < n && features[k].value != 4 && features[k].value != 5 && x in features[k].languages
  {
    if n > 0 {
      OtherSetIff(features, n - 1);
    }
  }

  /** When 37A and 38A list the same languages for value 5, no language is listed once. */
  lemma NeitherIdentical(f37: seq<FeatureValue>, f38: seq<FeatureValue>)
    requires ValueCounter(f37, |f37|, 5) == ValueCounter(f38, |f38|, 5)
    ensures ArticleCheck(f37, f38).singletons == {}
  {
    var neither := ValueCounter(f37, |f37|, 5) + ValueCounter(f38, |f38|, 5);
    forall x | x in neither ensures neither[x] != 1 {
      assert neither[x] == 2 * ValueCounter(f37, |f37|, 5)[x];
    }
  }

  /** A language given only a definite article by 38A is reported exactly when 37A gives
      it no definite article; likewise for indefinite articles. */
  lemma ArticlesAgreeIff(f37: seq<FeatureValue>, f38: seq<FeatureValue>, x: string)
    ensures x in ArticleCheck(f37, f38).spuriousDefinite <==>
              (exists k :: 0 <= k < |f38| && f38[k].value == 4 && x in f38[k].languages)
              && !exists j :: 0 <= j < |f37| && f37[j].value != 4 && f37[j].value != 5 && x in f37[j].languages
    ensures x in ArticleCheck(f37, f38).spuriousIndefinite <==>
              (exists k :: 0 <= k < |f37| && f37[k].value == 4 && x in f37[k].languages)
              && !exists j :: 0 <= j < |f38| && f38[j].value != 4 && f38[j].value != 5 && x in f38[j].languages
  {
    ValueSetIff(f37, |f37|, 4);
    ValueSetIff(f38, |f38|, 4);
    OtherSetIff(f37, |f37|);
    OtherSetIff(f38, |f38|);
  }

  // ----- Cross-combining two features -----

  /** The labels after the first `j` languages of a value of the first feature: each gets
      the value's name. */
  function NameFirst(m: map<string, string>, langs: seq<string>, j: nat, name: string): map<string, string>
    requires j <= |langs|
  {
    if j == 0 then m else NameFirst(m, langs, j - 1, name)[langs[j - 1] := name]
  }

  /** The labels after the first `n` values of the first feature. */
  function FirstSides(fs: seq<FeatureValue>, n: nat): map<string, string>
    requires n <= |fs|
  {
    if n == 0 then map[] else NameFirst(FirstSides(fs, n - 1), fs[n - 1].languages, |fs[n - 1].languages|, fs[n - 1].name)
  }

  /** A language's label so far, or '???' when it has none. */
  function Base(m: map<string, string>, l: string): string
  {
    if l in m then m[l] else "???"
  }

  /** The labels after the first `j` languages of a value of the second feature: each gets
      '/' and the value's name appended to its label, or to '???'. */
  function NameSecond(m: map<string, string>, langs: seq<string>, j: nat, name: string): map<string, string>
    requires j <= |langs|
  {
    if j == 0 then m
    else
      var p := NameSecond(m, langs, j - 1, name);
      p[langs[j - 1] := Base(p, langs[j - 1]) + "/" + name]
  }

  /** The labels after the first `n` values of the second feature. */
  function AddSeconds(m: map<string, string>, fs: seq<FeatureValue>, n: nat): map<string, string>
    requires n <= |fs|
  {
    if n == 0 then m else NameSecond(AddSeconds(m, fs, n - 1), fs[n - 1].languages, |fs[n - 1].languages|, fs[n - 1].name)
  }

  /** A label holding no '/' gets '/???'. */
  function MarkMissing(m: map<string, string>): map<string, string>
  {
    map l | l in m :: if '/' in m[l] then m[l] else m[l] + "/???"
  }

  /** The label of every language either feature lists. */
  function CombinedNames(f1: seq<FeatureValue>, f2: seq<FeatureValue>): map<string, string>
  {
    MarkMissing(AddSeconds(FirstSides(f1, |f1|), f2, |f2|))
  }

  // The labels described directly, language by language.

  /** The name of the last of the first `n` values that lists `l`. */
  function LastName(fs: seq<FeatureValue>, n: nat, l: string): Option<string>
    requires n <= |fs|
  {
    if n == 0 then None
    else if l in fs[n - 1].languages then Some(fs[n - 1].name)
    else LastName(fs, n - 1, l)
  }

  /** `s` written `k` times. */
  function Rep(s: string, k: nat): string
  {
    if k == 0 then "" else Rep(s, k - 1) + s
  }

  /** '/' and the name of each of the first `n` values, once for each time it lists `l`. */
  function Suffix(fs: seq<FeatureValue>, n: nat, l: string): string
    requires n <= |fs|
  {
    if n == 0 then "" else Suffix(fs, n - 1, l) + Rep("/" + fs[n - 1].name, multiset(fs[n - 1].languages)[l])
  }

  /** Some of the first `n` values lists `l`. */
  predicate Appears(fs: seq<FeatureValue>, n: nat, l: string)
    requires n <= |fs|
  {
    exists k :: 0 <= k < n && l in fs[k].languages
  }

  /** The label of `l`: its value name in the first feature (the last one listing it) or
      '???', then '/' and each value name in the second feature listing it; '/???' when the
      result holds no '/'. */
  function Label(f1: seq<FeatureValue>, f2: seq<FeatureValue>, l: string): (r: string)
    ensures '/' in r
  {
    var first := if LastName(f1, |f1|, l).Some? then LastName(f1, |f1|, l).value else "???";
    var raw := first + Suffix(f2, |f2|, l);
    if '/' in raw then raw
    else
      assert (raw + "/???")[|raw|] == '/';
      raw + "/???"
  }

  lemma {:induction false} NameFirstLabels(m: map<string, string>, langs: seq<string>, j: nat, name: string)
    requires j <= |langs|
    ensures forall l :: l in NameFirst(m, langs, j, name) <==> l in m || l in langs[..j]
    ensures forall l :: l in NameFirst(m, langs, j, name) ==>
              NameFirst(m, langs, j, name)[l] == if l in langs[..j] then name else m[l]
  {
    if j > 0 {
      NameFirstLabels(m, langs, j - 1, name);
      assert langs[..j] == langs[..j - 1] + [langs[j - 1]];
    }
  }

  lemma {:induction false} FirstSidesLabels(fs: seq<FeatureValue>, n: nat)
    requires n <= |fs|
    ensures forall l :: l in FirstSides(fs, n) <==> LastName(fs, n, l).Some?
    ensures forall l :: l in FirstSides(fs, n) ==> FirstSides(fs, n)[l] == LastName(fs, n, l).value
  {
    if n > 0 {
      FirstSidesLabels(fs, n - 1);
      var langs := fs[n - 1].languages;
      NameFirstLabels(FirstSides(fs, n - 1), langs, |langs|, fs[n - 1].name);
      assert langs[..|langs|] == langs;
    }
  }

  lemma SliceCount(langs: seq<string>, j: nat, l: string)
    requires 0 < j <= |langs|
    ensures multiset(langs[..j])[l] == multiset(langs[..j - 1])[l] + (if langs[j - 1] == l then 1 else 0)
    ensures l in langs[..j] <==> l in langs[..j - 1] || l == langs[j - 1]
  {
    assert langs[..j] == langs[..j - 1] + [langs[j - 1]];
  }

  lemma AppendAssoc(a: string, b: string, c: string)
    ensures (a + b) + c == a + (b + c)
  {
  }

  lemma {:induction false} NameSecondHas(m: map<string, string>, langs: seq<string>, j: nat, name: string, l: string)
    requires j <= |langs|
    ensures l in NameSecond(m, langs, j, name) <==> l in m || l in langs[..j]
  {
    if j > 0 {
      NameSecondHas(m, langs, j - 1, name, l);
      SliceCount(langs, j, l);
    }
  }

  lemma {:induction false} NameSecondValue(m: map<string, string>, langs: seq<string>, j: nat, name: string, l: string)
    requires j <= |langs| && l in NameSecond(m, langs, j, name)
    ensures NameSecond(m, langs, j, name)[l] == Base(m, l) + Rep("/" + name, multiset(langs[..j])[l])
  {
    if j > 0 {
      if l == langs[j - 1] {
        NameSecondHas(m, langs, j - 1, name, l);
        SliceCount(langs, j, l);
        if l in NameSecond(m, langs, j - 1, name) {
          NameSecondValue(m, langs, j - 1, name, l);
        }
        NameSecondHit(m, langs, j, name, l);
      } else {
        NameSecondValue(m, langs, j - 1, name, l);
        NameSecondMiss(m, langs, j, name, l);
      }
    }
  }

  /** One step of `NameSecondValue` for a language the step does not name. */
  lemma NameSecondMiss(m: map<string, string>, langs: seq<string>, j: nat, name: string, l: string)
    requires 0 < j <= |langs| && l != langs[j - 1] && l in NameSecond(m, langs, j, name)
    requires l in NameSecond(m, langs, j - 1, name) ==>
               NameSecond(m, langs, j - 1, name)[l] == Base(m, l) + Rep("/" + name, multiset(langs[..j - 1])[l])
    ensures NameSecond(m, langs, j, name)[l] == Base(m, l) + Rep("/" + name, multiset(langs[..j])[l])
  {
    assert langs[..j] == langs[..j - 1] + [langs[j - 1]];
  }

  /** One step of `NameSecondValue` for the language the step names. */
  lemma NameSecondHit(m: map<string, string>, langs: seq<string>, j: nat, name: string, l: string)
    requires 0 < j <= |langs| && l == langs[j - 1]
    requires l in NameSecond(m, langs, j - 1, name) <==> l in m || l in langs[..j - 1]
    requires l in NameSecond(m, langs, j - 1, name) ==>
               NameSecond(m, langs, j - 1, name)[l] == Base(m, l) + Rep("/" + name, multiset(langs[..j - 1])[l])
    requires multiset(langs[..j])[l] == multiset(langs[..j - 1])[l] + 1
    requires l !in langs[..j - 1] ==> multiset(langs[..j - 1])[l] == 0
    ensures NameSecond(m, langs, j, name)[l] == Base(m, l) + Rep("/" + name, multiset(langs[..j])[l])
  {
    var p := NameSecond(m, langs, j - 1, name);
    var sfx := "/" + name;
    var c := multiset(langs[..j - 1])[l];
    assert Base(p, l) == Base(m, l) + Rep(sfx, c);
    assert Rep(sfx, c + 1) == Rep(sfx, c) + sfx;
    AppendAssoc(Base(m, l), Rep(sfx, c), sfx);
  }

  lemma {:induction false} SuffixAbsent(fs: seq<FeatureValue>, n: nat, l: string)
    requires n <= |fs| && !Appears(fs, n, l)
    ensures Suffix(fs, n, l) == ""
  {
    if n > 0 {
      assert !Appears(fs, n - 1, l) by {
        forall k | 0 <= k < n - 1 ensures l !in fs[k].languages {
          assert k < n;
        }
      }
      SuffixAbsent(fs, n - 1, l);
      assert multiset(fs[n - 1].languages)[l] == 0;
    }
  }

  lemma {:induction false} AddSecondsHas(m: map<string, string>, fs: seq<FeatureValue>, n: nat, l: string)
    requires n <= |fs|
    ensures l in AddSeconds(m, fs, n) <==> l in m || Appears(fs, n, l)
  {
    if n > 0 {
      AddSecondsHas(m, fs, n - 1, l);
      var langs := fs[n - 1].languages;
      NameSecondHas(AddSeconds(m, fs, n - 1), langs, |langs|, fs[n - 1].name, l);
      assert langs[..|langs|] == langs;
      AppearsStep(fs, n, l);
    }
  }

  lemma {:induction false} AddSecondsValue(m: map<string, string>, fs: seq<FeatureValue>, n: nat, l: string)
    requires n <= |fs| && l in AddSeconds(m, fs, n)
    ensures AddSeconds(m, fs, n)[l] == Base(m, l) + Suffix(fs, n, l)
  {
    if n == 0 {
      assert Suffix(fs, n, l) == "";
    } else {
      var p := AddSeconds(m, fs, n - 1);
      if l in p {
        AddSecondsValue(m, fs, n - 1, l);
      } else {
        AddSecondsHas(m, fs, n - 1, l);
        SuffixAbsent(fs, n - 1, l);
      }
      BaseSuffixStep(m, p, fs, n, l);
      var langs := fs[n - 1].languages;
      NameSecondValue(p, langs, |langs|, fs[n - 1].name, l);
      assert langs[..|langs|] == langs;
    }
  }

  lemma AppearsStep(fs: seq<FeatureValue>, n: nat, l: string)
    requires 0 < n <= |fs|
    ensures Appears(fs, n, l) <==> Appears(fs, n - 1, l) || l in fs[n - 1].languages
  {
    if Appears(fs, n, l) && l !in fs[n - 1].languages {
      var k :| 0 <= k < n && l in fs[k].languages;
      assert k < n - 1;
    }
    if Appears(fs, n - 1, l) {
      var k :| 0 <= k < n - 1 && l in fs[k].languages;
      assert k < n;
    }
  }

  lemma BaseSuffixStep(m: map<string, string>, p: map<string, string>, fs: seq<FeatureValue>, n: nat, l: string)
    requires 0 < n <= |fs|
    requires l in p ==> p[l] == Base(m, l) + Suffix(fs, n - 1, l)
    requires l !in p ==> l !in m && Suffix(fs, n - 1, l) == ""
    ensures Base(p, l) + Rep("/" + fs[n - 1].name, multiset(fs[n - 1].languages)[l]) == Base(m, l) + Suffix(fs, n, l)
  {
    var t := Rep("/" + fs[n - 1].name, multiset(fs[n - 1].languages)[l]);
    assert Suffix(fs, n, l) == Suffix(fs, n - 1, l) + t;
    if l in p {
      AppendAssoc(Base(m, l), Suffix(fs, n - 1, l), t);
    } else {
      assert Base(p, l) == Base(m, l);
    }
  }

  /** The labels the three loops of `_cross_combine` compute are the labels described
      language by language, for exactly the languages either feature lists. */
  lemma CombinedNamesLabels(f1: seq<FeatureValue>, f2: seq<FeatureValue>)
    ensures forall l :: l in CombinedNames(f1, f2) <==> LastName(f1, |f1|, l).Some? || Appears(f2, |f2|, l)
    ensures forall l :: l in CombinedNames(f1, f2) ==> CombinedNames(f1, f2)[l] == Label(f1, f2, l)
  {
    var first := FirstSides(f1, |f1|);
    FirstSidesLabels(f1, |f1|);
    forall l ensures l in AddSeconds(first, f2, |f2|) <==> l in first || Appears(f2, |f2|, l)
      ensures l in AddSeconds(first, f2, |f2|) ==> AddSeconds(first, f2, |f2|)[l] == Base(first, l) + Suffix(f2, |f2|, l)
    {
      AddSecondsHas(first, f2, |f2|, l);
      if l in AddSeconds(first, f2, |f2|) {
        AddSecondsValue(first, f2, |f2|, l);
      }
    }
  }

  /** The first index of a value named `name`, or -1. */
  function FindName(g: seq<FeatureValue>, name: string): (r: int)
    ensures -1 <= r < |g|
    ensures r >= 0 ==> g[r].name == name
    ensures r == -1 ==> forall i :: 0 <= i < |g| ==> g[i].name != name
  {
    if |g| == 0 then -1
    else if g[0].name == name then 0
    else
      var r := FindName(g[1..], name);
      if r < 0 then -1 else r + 1
  }

  /** The first index of `x` in `s`, or -1. */
  function IndexOf(s: seq<string>, x: string): (r: int)
    ensures -1 <= r < |s|
    ensures r >= 0 ==> s[r] == x
    ensures r == -1 ==> x !in s
  {
    if |s| == 0 then -1
    else if s[0] == x then 0
    else
      var r := IndexOf(s[1..], x);
      if r < 0 then -1 else r + 1
  }

  /** The values the grouping loop of `_cross_combine` has built after the first `n`
      languages: a language joins the value of its label, or starts one, numbered by the
      label's place in `sortedNames`. */
  function Grouped(langs: seq<string>, names: map<string, string>, n: nat, outfmap: string,
                   sortedNames: seq<string>): (g: seq<FeatureValue>)
    requires n <= |langs| && forall k :: 0 <= k < |langs| ==> langs[k] in names
  {
    if n == 0 then []
    else
      var g := Grouped(langs, names, n - 1, outfmap, sortedNames);
      var l := langs[n - 1];
      var k := FindName(g, names[l]);
      if k >= 0 then g[k := g[k].(languages := g[k].languages + [l])]
      else g + [FeatureValue(outfmap, IndexOf(sortedNames, names[l]) + 1, names[l], [l], 0, 0)]
  }

  /** The first `n` languages whose label is `name`, in their order. */
  function LangsNamed(langs: seq<string>, names: map<string, string>, n: nat, name: string): seq<string>
    requires n <= |langs| && forall k :: 0 <= k < |langs| ==> langs[k] in names
  {
    if n == 0 then []
    else LangsNamed(langs, names, n - 1, name) + (if names[langs[n - 1]] == name then [langs[n - 1]] else [])
  }

  /** No two values share a name. */
  predicate DistinctNames(s: seq<FeatureValue>)
  {
    forall i, j :: 0 <= i < |s| && 0 <= j < |s| && s[i].name == s[j].name ==> i == j
  }

  /** The names of the values. */
  function GroupNames(g: seq<FeatureValue>): set<string>
  {
    set i | 0 <= i < |g| :: g[i].name
  }

  /** The labels of the first `n` languages. */
  function LangNames(langs: seq<string>, names: map<string, string>, n: nat): set<string>
    requires n <= |langs| && forall k :: 0 <= k < |langs| ==> langs[k] in names
  {
    set k | 0 <= k < n :: names[langs[k]]
  }

  /** `_cross_combine` on the values of the two features: None when neither lists a
      language (the source then fails on an empty list), else the new feature's values from
      the most languages down, with counts and relative frequencies. */
  function CrossCombined(f1: seq<FeatureValue>, f2: seq<FeatureValue>, outfmap: string): Option<seq<FeatureValue>>
  {
    CrossOf(CombinedNames(f1, f2), outfmap)
  }

  /** The values of the new feature for the labels `names`. */
  function CrossOf(names: map<string, string>, outfmap: string): Option<seq<FeatureValue>>
  {
    var sorted := CrossSorted(names, outfmap);
    if |sorted| == 0 then None else Some(WithFrequencies(sorted, sorted[0].languageCount))
  }

  /** The grouped values for the labels `names`, taking the languages in alphabetical order. */
  function GroupedAll(names: map<string, string>, outfmap: string): seq<FeatureValue>
  {
    var langs := SortedSet(names.Keys);
    Grouped(langs, names, |langs|, outfmap, SortedSet(names.Values))
  }

  /** The grouped values recounted and sorted from the most languages down. */
  function CrossSorted(names: map<string, string>, outfmap: string): (r: seq<FeatureValue>)
    ensures multiset(r) == multiset(Recounted(GroupedAll(names, outfmap)))
    ensures |r| == |GroupedAll(names, outfmap)| && NonIncreasing(r)
    ensures forall k :: 0 <= k < |r| ==> r[k].languageCount == |r[k].languages| > 0
  {
    var g := GroupedAll(names, outfmap);
    GroupedAllListed(names, outfmap);
    var sorted := SortByCountDesc(Recounted(g));
    RecountedSorted(g, sorted);
    sorted
  }

  /** Every grouped value lists a language. */
  lemma GroupedAllListed(names: map<string, string>, outfmap: string)
    ensures forall i :: 0 <= i < |GroupedAll(names, outfmap)| ==> |GroupedAll(names, outfmap)[i].languages| > 0
  {
    var langs := SortedSet(names.Keys);
    GroupedShape(langs, names, |langs|, outfmap, SortedSet(names.Values));
  }

  /** A reordering of recounted values that each list a language keeps their number, and
      each counts its languages. */
  lemma RecountedSorted(g: seq<FeatureValue>, sorted: seq<FeatureValue>)
    requires forall i :: 0 <= i < |g| ==> |g[i].languages| > 0
    requires multiset(sorted) == multiset(Recounted(g))
    ensures |sorted| == |g|
    ensures forall k :: 0 <= k < |sorted| ==> sorted[k].languageCount == |sorted[k].languages| > 0
  {
    var counted := Recounted(g);
    assert |sorted| == |counted| by { assert |multiset(sorted)| == |multiset(counted)|; }
    forall k | 0 <= k < |sorted| ensures sorted[k].languageCount == |sorted[k].languages| > 0 {
      assert sorted[k] in multiset(counted);
    }
  }

  /** Each value built by the grouping loop belongs to the new feature, lists a language,
      and is numbered by its name's place among the sorted names; the names are distinct
      and are the labels of the languages seen. */
  lemma GroupedShape(langs: seq<string>, names: map<string, string>, n: nat, outfmap: string,
                     sortedNames: seq<string>)
    requires n <= |langs| && forall k :: 0 <= k < |langs| ==> langs[k] in names
    ensures var g := Grouped(langs, names, n, outfmap, sortedNames);
      DistinctNames(g) && GroupNames(g) == LangNames(langs, names, n)
      && forall i :: 0 <= i < |g| ==>
           g[i].feature == outfmap && g[i].value == IndexOf(sortedNames, g[i].name) + 1 && |g[i].languages| > 0
  {
    GroupedNames(langs, names, n, outfmap, sortedNames);
    GroupedFields(langs, names, n, outfmap, sortedNames);
  }

  /** Every value belongs to `outfmap`, lists a language, and is numbered by its name's
      place in `sortedNames`. */
  predicate NumberedValues(g: seq<FeatureValue>, outfmap: string, sortedNames: seq<string>)
  {
    forall i :: 0 <= i < |g| ==>
      g[i].feature == outfmap && g[i].value == IndexOf(sortedNames, g[i].name) + 1 && |g[i].languages| > 0
  }

  lemma {:induction false} GroupedFields(langs: seq<string>, names: map<string, string>, n: nat, outfmap: string,
                                         sortedNames: seq<string>)
    requires n <= |langs| && forall k :: 0 <= k < |langs| ==> langs[k] in names
    ensures NumberedValues(Grouped(langs, names, n, outfmap, sortedNames), outfmap, sortedNames)
  {
    if n > 0 {
      GroupedFields(langs, names, n - 1, outfmap, sortedNames);
      var g := Grouped(langs, names, n - 1, outfmap, sortedNames);
      var g' := Grouped(langs, names, n, outfmap, sortedNames);
      var k := FindName(g, names[langs[n - 1]]);
      forall i | 0 <= i < |g'|
        ensures g'[i].feature == outfmap && g'[i].value == IndexOf(sortedNames, g'[i].name) + 1 && |g'[i].languages| > 0
      {
        if i < |g| && i != k {
          assert g'[i] == g[i];
        }
      }
    }
  }

  lemma {:induction false} GroupedNames(langs: seq<string>, names: map<string, string>, n: nat, outfmap: string,
                                        sortedNames: seq<string>)
    requires n <= |langs| && forall k :: 0 <= k < |langs| ==> langs[k] in names
    ensures var g := Grouped(langs, names, n, outfmap, sortedNames);
      DistinctNames(g) && GroupNames(g) == LangNames(langs, names, n)
  {
    if n > 0 {
      GroupedNames(langs, names, n - 1, outfmap, sortedNames);
      var g := Grouped(langs, names, n - 1, outfmap, sortedNames);
      var l := langs[n - 1];
      var k := FindName(g, names[l]);
      var g' := Grouped(langs, names, n, outfmap, sortedNames);
      assert LangNames(langs, names, n) == LangNames(langs, names, n - 1) + {names[l]};
      if k >= 0 {
        assert GroupNames(g') == GroupNames(g) by {
          forall i | 0 <= i < |g| ensures g'[i].name == g[i].name { }
        }
      } else {
        assert GroupNames(g') == GroupNames(g) + {names[l]} by {
          assert forall i :: 0 <= i < |g| ==> g'[i] == g[i];
          assert g'[|g|].name == names[l];
        }
      }
    }
  }

  lemma {:induction false} LangsNamedEmpty(langs: seq<string>, names: map<string, string>, n: nat, name: string)
    requires n <= |langs| && forall k :: 0 <= k < |langs| ==> langs[k] in names
    requires name !in LangNames(langs, names, n)
    ensures LangsNamed(langs, names, n, name) == []
  {
    if n > 0 {
      assert names[langs[n - 1]] in LangNames(langs, names, n);
      assert LangNames(langs, names, n - 1) <= LangNames(langs, names, n);
      LangsNamedEmpty(langs, names, n - 1, name);
    }
  }

  /** Each value built by the grouping loop lists, in their order, exactly the languages
      labelled with its name. */
  lemma {:induction false} GroupedLanguages(langs: seq<string>, names: map<string, string>, n: nat, outfmap: string,
                                            sortedNames: seq<string>)
    requires n <= |langs| && forall k :: 0 <= k < |langs| ==> langs[k] in names
    ensures var g := Grouped(langs, names, n, outfmap, sortedNames);
      forall i :: 0 <= i < |g| ==> g[i].languages == LangsNamed(langs, names, n, g[i].name)
  {
    if n > 0 {
      GroupedLanguages(langs, names, n - 1, outfmap, sortedNames);
      GroupedShape(langs, names, n - 1, outfmap, sortedNames);
      var g := Grouped(langs, names, n - 1, outfmap, sortedNames);
      var l := langs[n - 1];
      var k := FindName(g, names[l]);
      var g' := Grouped(langs, names, n, outfmap, sortedNames);
      forall i | 0 <= i < |g'| ensures g'[i].languages == LangsNamed(langs, names, n, g'[i].name) {
        if i == |g| {
          assert names[l] !in GroupNames(g);
          LangsNamedEmpty(langs, names, n - 1, names[l]);
        } else if i != k {
          assert g'[i] == g[i];
          assert g[i].name != names[l] by {
            if k >= 0 { assert g[k].name == names[l]; }
          }
        }
      }
    }
  }

  lemma {:induction false} LangsNamedMembers(langs: seq<string>, names: map<string, string>, n: nat, name: string)
    requires n <= |langs| && forall k :: 0 <= k < |langs| ==> langs[k] in names
    ensures forall l :: l in LangsNamed(langs, names, n, name) <==> l in langs[..n] && names[l] == name
  {
    if n > 0 {
      LangsNamedMembers(langs, names, n - 1, name);
      assert langs[..n] == langs[..n - 1] + [langs[n - 1]];
    }
  }

  lemma DupCount(t: seq<FeatureValue>, i: nat, j: nat)
    requires i < j < |t| && t[i] == t[j]
    ensures multiset(t)[t[i]] >= 2
  {
    assert t == t[..j] + t[j..];
    assert t[i] == t[..j][i];
    assert t[j] == t[j..][0];
  }

  lemma {:induction false} DistinctOnce(s: seq<FeatureValue>, x: FeatureValue)
    requires DistinctNames(s)
    ensures multiset(s)[x] <= 1
  {
    if |s| > 0 {
      var rest := s[1..];
      assert DistinctNames(rest) by {
        forall i, j | 0 <= i < |rest| && 0 <= j < |rest| && rest[i].name == rest[j].name ensures i == j {
          assert s[i + 1] == rest[i] && s[j + 1] == rest[j];
        }
      }
      DistinctOnce(rest, x);
      assert s == [s[0]] + rest;
      if x == s[0] {
        forall k | 0 <= k < |rest| ensures rest[k] != x {
          assert s[k + 1] == rest[k];
        }
      }
    }
  }

  lemma PositionOf(s: seq<FeatureValue>, x: FeatureValue) returns (a: nat)
    requires x in multiset(s)
    ensures a < |s| && s[a] == x
  {
    a :| a < |s| && s[a] == x;
  }

  /** Reordering values keeps their names distinct. */
  lemma DistinctPerm(s: seq<FeatureValue>, t: seq<FeatureValue>)
    requires multiset(s) == multiset(t) && DistinctNames(s)
    ensures DistinctNames(t)
  {
    forall i, j | 0 <= i < |t| && 0 <= j < |t| && i != j ensures t[i].name != t[j].name {
      if t[i] == t[j] {
        if i < j { DupCount(t, i, j); } else { DupCount(t, j, i); }
        DistinctOnce(s, t[i]);
        assert false;
      } else {
        var a := PositionOf(s, t[i]);
        var b := PositionOf(s, t[j]);
        assert a != b;
      }
    }
  }

  /** Each sorted value is one of the grouped values, recounted. */
  lemma SortedFrom(names: map<string, string>, outfmap: string, i: nat) returns (k: nat)
    requires i < |CrossSorted(names, outfmap)|
    ensures var g := GroupedAll(names, outfmap);
      k < |g| && CrossSorted(names, outfmap)[i] == g[k].(languageCount := |g[k].languages|)
  {
    k := PositionOf(Recounted(GroupedAll(names, outfmap)), CrossSorted(names, outfmap)[i]);
  }

  /** The cross-combination fails exactly when no language has a label. */
  lemma CrossNone(names: map<string, string>, outfmap: string)
    ensures CrossOf(names, outfmap).None? <==> names == map[]
  {
    var langs := SortedSet(names.Keys);
    GroupedShape(langs, names, |langs|, outfmap, SortedSet(names.Values));
    if names != map[] {
      var l0 :| l0 in names;
      assert names[langs[IndexOf(langs, l0)]] in LangNames(langs, names, |langs|);
    }
  }

  /** Each value of the cross-combination lists exactly the languages whose label is its
      name, belongs to the new feature, and is numbered by its name's place among the
      sorted labels. */
  lemma CrossLanguages(names: map<string, string>, outfmap: string)
    ensures CrossOf(names, outfmap).Some? ==>
      var r := CrossOf(names, outfmap).value;
      forall i :: 0 <= i < |r| ==>
        (forall l :: l in r[i].languages <==> l in names && names[l] == r[i].name)
        && r[i].feature == outfmap && r[i].value == IndexOf(SortedSet(names.Values), r[i].name) + 1
  {
    if CrossOf(names, outfmap).Some? {
      var r := CrossOf(names, outfmap).value;
      forall i | 0 <= i < |r|
        ensures (forall l :: l in r[i].languages <==> l in names && names[l] == r[i].name)
        ensures r[i].feature == outfmap && r[i].value == IndexOf(SortedSet(names.Values), r[i].name) + 1
      {
        CrossValue(names, outfmap, i);
      }
    }
  }

  /** One value of the cross-combination, as CrossLanguages states it for all of them. */
  lemma CrossValue(names: map<string, string>, outfmap: string, i: nat)
    requires CrossOf(names, outfmap).Some? && i < |CrossOf(names, outfmap).value|
    ensures var v := CrossOf(names, outfmap).value[i];
      (forall l :: l in v.languages <==> l in names && names[l] == v.name)
      && v.feature == outfmap && v.value == IndexOf(SortedSet(names.Values), v.name) + 1
  {
    var k := SortedFrom(names, outfmap, i);
    GroupedValueAt(names, outfmap, k);
  }

  /** One grouped value lists exactly the languages labelled with its name, belongs to the
      new feature and is numbered by its name's place among the sorted labels. */
  lemma GroupedValueAt(names: map<string, string>, outfmap: string, k: nat)
    requires k < |GroupedAll(names, outfmap)|
    ensures var v := GroupedAll(names, outfmap)[k];
      (forall l :: l in v.languages <==> l in names && names[l] == v.name)
      && v.feature == outfmap && v.value == IndexOf(SortedSet(names.Values), v.name) + 1
  {
    GroupedValueFields(names, outfmap, k);
    GroupedValueLanguages(names, outfmap, k);
  }

  lemma GroupedValueFields(names: map<string, string>, outfmap: string, k: nat)
    requires k < |GroupedAll(names, outfmap)|
    ensures var v := GroupedAll(names, outfmap)[k];
      v.feature == outfmap && v.value == IndexOf(SortedSet(names.Values), v.name) + 1
  {
    var langs := SortedSet(names.Keys);
    GroupedFields(langs, names, |langs|, outfmap, SortedSet(names.Values));
  }

  lemma GroupedValueLanguages(names: map<string, string>, outfmap: string, k: nat)
    requires k < |GroupedAll(names, outfmap)|
    ensures var v := GroupedAll(names, outfmap)[k];
      forall l :: l in v.languages <==> l in names && names[l] == v.name
  {
    var langs := SortedSet(names.Keys);
    var g := Grouped(langs, names, |langs|, outfmap, SortedSet(names.Values));
    assert g == GroupedAll(names, outfmap);
    GroupedLanguagesAt(langs, names, |langs|, outfmap, SortedSet(names.Values), k);
    LangsNamedAll(langs, names, g[k].name);
  }

  /** With every label's language listed, the languages named `name` are exactly those
      whose label it is. */
  lemma LangsNamedAll(langs: seq<string>, names: map<string, string>, name: string)
    requires forall x :: x in langs <==> x in names
    ensures forall l :: l in LangsNamed(langs, names, |langs|, name) <==> l in names && names[l] == name
  {
    LangsNamedMembers(langs, names, |langs|, name);
    assert langs[..|langs|] == langs;
  }

  lemma GroupedLanguagesAt(langs: seq<string>, names: map<string, string>, n: nat, outfmap: string,
                           sortedNames: seq<string>, i: nat)
    requires n <= |langs| && forall k :: 0 <= k < |langs| ==> langs[k] in names
    requires i < |Grouped(langs, names, n, outfmap, sortedNames)|
    ensures Grouped(langs, names, n, outfmap, sortedNames)[i].languages
            == LangsNamed(langs, names, n, Grouped(langs, names, n, outfmap, sortedNames)[i].name)
  {
    GroupedLanguages(langs, names, n, outfmap, sortedNames);
  }

  /** The names of the cross-combination's values are distinct, and every label is one. */
  lemma CrossNames(names: map<string, string>, outfmap: string)
    ensures CrossOf(names, outfmap).Some? ==>
      var r := CrossOf(names, outfmap).value;
      DistinctNames(r) && forall l :: l in names ==> exists i :: 0 <= i < |r| && r[i].name == names[l]
  {
    if CrossOf(names, outfmap).Some? {
      var sorted := CrossSorted(names, outfmap);
      var r := CrossOf(names, outfmap).value;
      CrossSortedDistinct(names, outfmap);
      forall l | l in names ensures exists i :: 0 <= i < |r| && r[i].name == names[l] {
        var i := CrossSortedCovers(names, outfmap, l);
        assert r[i].name == sorted[i].name;
      }
    }
  }

  lemma CrossSortedDistinct(names: map<string, string>, outfmap: string)
    ensures DistinctNames(CrossSorted(names, outfmap))
  {
    var langs := SortedSet(names.Keys);
    GroupedShape(langs, names, |langs|, outfmap, SortedSet(names.Values));
    var counted := Recounted(GroupedAll(names, outfmap));
    assert DistinctNames(counted);
    DistinctPerm(counted, CrossSorted(names, outfmap));
  }

  lemma CrossSortedCovers(names: map<string, string>, outfmap: string, l: string) returns (i: nat)
    requires l in names
    ensures i < |CrossSorted(names, outfmap)| && CrossSorted(names, outfmap)[i].name == names[l]
  {
    var k := GroupedAllCovers(names, outfmap, l);
    var counted := Recounted(GroupedAll(names, outfmap));
    i := PositionOf(CrossSorted(names, outfmap), counted[k]);
  }

  /** Some grouped value is named by the label of `l`. */
  lemma GroupedAllCovers(names: map<string, string>, outfmap: string, l: string) returns (k: nat)
    requires l in names
    ensures k < |GroupedAll(names, outfmap)| && GroupedAll(names, outfmap)[k].name == names[l]
  {
    var langs := SortedSet(names.Keys);
    var g := Grouped(langs, names, |langs|, outfmap, SortedSet(names.Values));
    assert g == GroupedAll(names, outfmap);
    GroupedNames(langs, names, |langs|, outfmap, SortedSet(names.Values));
    var m := IndexOf(langs, l);
    assert names[langs[m]] in LangNames(langs, names, |langs|);
    k := NamedIndex(g, names[l]);
  }

  /** A name of the grouped values is the name of one of them. */
  lemma NamedIndex(g: seq<FeatureValue>, x: string) returns (k: nat)
    requires x in GroupNames(g)
    ensures k < |g| && g[k].name == x
  {
    k :| 0 <= k < |g| && g[k].name == x;
  }

  /** The values of a cross-combination count their languages, run from the most languages
      down, and the first has relative frequency 100 and none more than 100. */
  lemma CrossCounts(names: map<string, string>, outfmap: string)
    ensures CrossOf(names, outfmap).Some? ==>
      var r := CrossOf(names, outfmap).value;
      |r| > 0 && (forall i :: 0 <= i < |r| ==> r[i].languageCount == |r[i].languages|)
      && NonIncreasing(r) && r[0].relativeFrequency == 100
      && (forall i :: 0 <= i < |r| ==> 0 <= r[i].relativeFrequency <= 100)
  {
    if CrossOf(names, outfmap).Some? {
      var sorted := CrossSorted(names, outfmap);
      var top := sorted[0].languageCount;
      var r := CrossOf(names, outfmap).value;
      RoundTop(top);
      forall i | 0 <= i < |r| ensures 0 <= r[i].relativeFrequency <= 100 {
        RoundBelowTop(sorted[i].languageCount, top);
      }
    }
  }

  // ----- Reading the table -----

  /** What `from_row` makes of each row. */
  function RowResults(rows: seq<seq<string>>): (r: seq<Result<FeatureValue>>)
    ensures |r| == |rows|
  {
    if |rows| == 0 then [] else RowResults(rows[..|rows| - 1]) + [FromRow(rows[|rows| - 1])]
  }

  /** The result of row `k` is `from_row` of it. */
  lemma {:induction false} RowResultAt(rows: seq<seq<string>>, k: nat)
    requires k < |rows|
    ensures RowResults(rows)[k] == FromRow(rows[k])
  {
    if k < |rows| - 1 {
      RowResultAt(rows[..|rows| - 1], k);
    }
  }

  /** `from_row` on row `i`, stated through `RowResults` so that the loop reading the rows
      does not unfold the parser. */
  method ParseRow(rows: seq<seq<string>>, i: nat) returns (r: Result<FeatureValue>)
    requires i < |rows|
    ensures r == RowResults(rows)[i]
  {
    r := FromRow(rows[i]);
    RowResultAt(rows, i);
  }

  /** The feature maps after the first `n` results: each value appended to the list of
      its feature, or the first error. */
  function FeatureMapsFrom(results: seq<Result<FeatureValue>>, n: nat): Result<map<string, seq<FeatureValue>>>
    requires n <= |results|
  {
    if n == 0 then Ok(map[])
    else
      var prev := FeatureMapsFrom(results, n - 1);
      if prev.Err? then prev
      else if results[n - 1].Err? then Err(results[n - 1].error)
      else
        var v := results[n - 1].value;
        Ok(prev.value[v.feature := Get(prev.value, v.feature) + [v]])
  }

  /** The feature maps `_read_feature_maps` builds from the rows after the header. */
  function FeatureMapsOf(rows: seq<seq<string>>): Result<map<string, seq<FeatureValue>>>
  {
    FeatureMapsFrom(RowResults(rows), |rows|)
  }

  /** Reading fails exactly when some result is an error. */
  lemma {:induction false} FeatureMapsErrIff(results: seq<Result<FeatureValue>>, n: nat)
    requires n <= |results|
    ensures FeatureMapsFrom(results, n).Err? <==> exists k :: 0 <= k < n && results[k].Err?
  {
    if n > 0 {
      FeatureMapsErrIff(results, n - 1);
    }
  }

  /** Every value read is in the list of its feature. */
  lemma {:induction false} FeatureMapsKeepAll(results: seq<Result<FeatureValue>>, n: nat)
    requires n <= |results| && FeatureMapsFrom(results, n).Ok?
    ensures var m := FeatureMapsFrom(results, n).value;
      forall k :: 0 <= k < n ==> results[k].Ok? && results[k].value.feature in m && results[k].value in m[results[k].value.feature]
  {
    if n > 0 {
      FeatureMapsKeepAll(results, n - 1);
      var prev := FeatureMapsFrom(results, n - 1).value;
      var v := results[n - 1].value;
      assert FeatureMapsFrom(results, n).value[v.feature] == Get(prev, v.feature) + [v];
    }
  }

  /** Every list holds values of its own feature, each listing a language when every
      value read does. */
  lemma {:induction false} FeatureMapsShape(results: seq<Result<FeatureValue>>, n: nat)
    requires n <= |results| && FeatureMapsFrom(results, n).Ok?
    requires forall k :: 0 <= k < n && results[k].Ok? ==> |results[k].value.languages| > 0
    ensures var m := FeatureMapsFrom(results, n).value;
      forall id :: id in m ==> HasLanguages(m[id]) && forall j :: 0 <= j < |m[id]| ==> m[id][j].feature == id
  {
    if n > 0 {
      FeatureMapsShape(results, n - 1);
    }
  }

  /** Every list read holds values of its own feature that list some language. */
  lemma FeatureMapsValid(rows: seq<seq<string>>)
    ensures FeatureMapsOf(rows).Ok? ==>
      var m := FeatureMapsOf(rows).value;
      forall id :: id in m ==> HasLanguages(m[id]) && forall j :: 0 <= j < |m[id]| ==> m[id][j].feature == id
  {
    var results := RowResults(rows);
    if FeatureMapsOf(rows).Ok? {
      forall k | 0 <= k < |rows| && results[k].Ok? ensures |results[k].value.languages| > 0 {
        RowResultAt(rows, k);
      }
      FeatureMapsShape(results, |rows|);
    }
  }

  /** `_read_feature_maps` on the rows after the header. */
  method ReadFeatureMaps(rows: seq<seq<string>>) returns (r: Result<map<string, seq<FeatureValue>>>)
    ensures r == FeatureMapsOf(rows)
  {
    var results := RowResults(rows);
    var result: map<string, seq<FeatureValue>> := map[];
    for i := 0 to |rows|
      invariant FeatureMapsFrom(results, i) == Ok(result)
    {
      var featureValue := ParseRow(rows, i);
      if featureValue.Err? {
        FailsAt(results, i);
        return Err(featureValue.error);
      }
      var featureId := featureValue.value.feature;
      result := result[featureId := Get(result, featureId) + [featureValue.value]];
    }
    r := Ok(result);
  }

  /** A row that does not parse, after rows that do, gives the error of reading. */
  lemma FailsAt(results: seq<Result<FeatureValue>>, i: nat)
    requires i < |results| && FeatureMapsFrom(results, i).Ok? && results[i].Err?
    ensures FeatureMapsFrom(results, |results|) == Err(results[i].error)
  {
    FailureStays(results, i + 1, |results|);
  }

  /** Once reading has failed, later results do not change the error. */
  lemma {:induction false} FailureStays(results: seq<Result<FeatureValue>>, i: nat, n: nat)
    requires i <= n <= |results| && FeatureMapsFrom(results, i).Err?
    ensures FeatureMapsFrom(results, n) == FeatureMapsFrom(results, i)
  {
    if n > i {
      FailureStays(results, i, n - 1);
    }
  }

  // ----- The checker -----

  /** The counting loops of `_check_feature_completeness_and_consistency`: how often each
      language is listed, a fallback's count moved onto its main language. */
  method CountLanguages(features: seq<FeatureValue>, fallbacks: seq<(string, string)>) returns (langCounter: multiset<string>)
    ensures langCounter == MoveFallbacks(LangCounter(features, |features|), fallbacks, |fallbacks|)
  {
    langCounter := multiset{};
    for i := 0 to |features|
      invariant langCounter == LangCounter(features, i)
    {
      langCounter := langCounter + multiset(features[i].languages);
    }
    var counted := langCounter;
    for i := 0 to |fallbacks|
      invariant langCounter == MoveFallbacks(counted, fallbacks, i)
    {
      var (fallback, main) := fallbacks[i];
      if fallback in langCounter {
        langCounter := langCounter[main := langCounter[main] + langCounter[fallback]];
        langCounter := langCounter[fallback := 0];
      }
    }
  }

  /** One loop of `_check_consistency_between_article_features` over an article feature:
      the languages of value 5 counted, and the languages of value 4 and of the other
      values collected. */
  method TallyArticles(features: seq<FeatureValue>) returns (neither: multiset<string>, four: set<string>, other: set<string>)
    ensures neither == ValueCounter(features, |features|, 5)
    ensures four == ValueSet(features, |features|, 4)
    ensures other == OtherSet(features, |features|)
  {
    neither, four, other := multiset{}, {}, {};
    for i := 0 to |features|
      invariant neither == ValueCounter(features, i, 5)
      invariant four == ValueSet(features, i, 4)
      invariant other == OtherSet(features, i)
    {
      var feature := features[i];
      if feature.value == 5 {
        neither := neither + multiset(feature.languages);
      } else if feature.value == 4 {
        four := four + LanguageSet(feature);
      } else {
        other := other + LanguageSet(feature);
      }
    }
  }

  /** The first loop of `_correct_feature_counts`: every language count set to the number
      of languages, whether one was wrong, and whether some value has more languages than
      the one before it. */
  method RecountLanguages(features: seq<FeatureValue>) returns (counted: seq<FeatureValue>, changed: bool, outOfOrder: bool)
    ensures counted == Recounted(features)
    ensures changed == CountWrong(features, |features|) && outOfOrder == OutOfOrder(features, |features|)
  {
    changed, outOfOrder := false, false;
    var prevLangCount := 1000000;
    counted := features;
    for i := 0 to |features|
      invariant |counted| == |features|
      invariant forall k :: 0 <= k < i ==> counted[k] == features[k].(languageCount := |features[k].languages|)
      invariant forall k :: i <= k < |features| ==> counted[k] == features[k]
      invariant changed == CountWrong(features, i)
      invariant outOfOrder == OutOfOrder(features, i)
      invariant prevLangCount == PrevCount(features, i)
    {
      var actualLangCount := |features[i].languages|;
      if actualLangCount != counted[i].languageCount {
        counted := counted[i := counted[i].(languageCount := actualLangCount)];
        changed := true;
      }
      if actualLangCount > prevLangCount {
        outOfOrder := true;
      }
      prevLangCount := actualLangCount;
    }
  }

  /** The loop setting relative frequencies: each value's count against `top`, in percent,
      rounded. */
  method SetFrequencies(features: seq<FeatureValue>, top: nat) returns (result: seq<FeatureValue>)
    requires top > 0 && forall k :: 0 <= k < |features| ==> features[k].languageCount >= 0
    ensures result == WithFrequencies(features, top)
  {
    result := features;
    for i := 0 to |result|
      invariant |result| == |features|
      invariant forall k :: 0 <= k < i ==>
                  result[k] == features[k].(relativeFrequency := RoundHalfEven(100 * features[k].languageCount, top))
      invariant forall k :: i <= k < |result| ==> result[k] == features[k]
    {
      result := result[i := result[i].(relativeFrequency := RoundHalfEven(100 * result[i].languageCount, top))];
    }
  }

  /** The loops of `_cross_combine` that label each language: the name of its value in
      the first feature, then '/' and its value's name in the second, then '/???' where the
      second names none. */
  method CombineNames(features1: seq<FeatureValue>, features2: seq<FeatureValue>) returns (combined: map<string, string>)
    ensures combined == CombinedNames(features1, features2)
  {
    var first := NameFirsts(features1);
    var named := NameSeconds(first, features2);
    combined := MarkUnnamed(named);
  }

  /** The first loop of `_cross_combine`: each language labelled with its value's name in
      the first feature. */
  method NameFirsts(features1: seq<FeatureValue>) returns (combined: map<string, string>)
    ensures combined == FirstSides(features1, |features1|)
  {
    combined := map[];
    for i := 0 to |features1|
      invariant combined == FirstSides(features1, i)
    {
      var feature := features1[i];
      for j := 0 to |feature.languages|
        invariant combined == NameFirst(FirstSides(features1, i), feature.languages, j, feature.name)
      {
        combined := combined[feature.languages[j] := feature.name];
      }
    }
  }

  /** The second loop of `_cross_combine`: '/' and the value's name in the second feature
      appended to each language's label, or to '???'. */
  method NameSeconds(first: map<string, string>, features2: seq<FeatureValue>) returns (combined: map<string, string>)
    ensures combined == AddSeconds(first, features2, |features2|)
  {
    combined := first;
    for i := 0 to |features2|
      invariant combined == AddSeconds(first, features2, i)
    {
      combined := NameSecondOnce(combined, features2[i].languages, features2[i].name);
    }
  }

  /** The inner loop of the second loop: the languages of one value of the second feature. */
  method NameSecondOnce(m: map<string, string>, langs: seq<string>, name: string) returns (combined: map<string, string>)
    ensures combined == NameSecond(m, langs, |langs|, name)
  {
    combined := m;
    for j := 0 to |langs|
      invariant combined == NameSecond(m, langs, j, name)
    {
      var lang := langs[j];
      var combinedName := if lang in combined then combined[lang] else "???";
      combined := combined[lang := combinedName + "/" + name];
    }
  }

  /** The third loop of `_cross_combine`: a label holding no '/' gets '/???'. */
  method MarkUnnamed(unmarked: map<string, string>) returns (combined: map<string, string>)
    ensures combined == MarkMissing(unmarked)
  {
    combined := unmarked;
    var todo := combined.Keys;
    while todo != {}
      invariant todo <= unmarked.Keys && combined.Keys == unmarked.Keys
      invariant forall l :: l in unmarked ==> combined[l] == if l in todo then unmarked[l] else MarkMissing(unmarked)[l]
      decreases |todo|
    {
      var lang :| lang in todo;
      if '/' !in combined[lang] {
        combined := combined[lang := combined[lang] + "/???"];
      }
      todo := todo - {lang};
    }
    assert combined == MarkMissing(unmarked);
  }

  /** The grouping of `_cross_combine`: the languages in alphabetical order, each joining
      the value of its label or starting one numbered by the label's place among the
      sorted labels. */
  method GroupByName(combined: map<string, string>, outfmap: string) returns (groups: seq<FeatureValue>)
    ensures groups == GroupedAll(combined, outfmap)
  {
    var sortedNames := SortedSet(combined.Values);
    var langs := SortedSet(combined.Keys);
    groups := GroupLanguages(langs, combined, outfmap, sortedNames);
  }

  /** The grouping loop over the languages `langs`. */
  method GroupLanguages(langs: seq<string>, combined: map<string, string>, outfmap: string, sortedNames: seq<string>)
    returns (groups: seq<FeatureValue>)
    requires forall k :: 0 <= k < |langs| ==> langs[k] in combined
    ensures groups == Grouped(langs, combined, |langs|, outfmap, sortedNames)
  {
    groups := [];
    for i := 0 to |langs|
      invariant groups == Grouped(langs, combined, i, outfmap, sortedNames)
    {
      var lang := langs[i];
      var name := combined[lang];
      var k := FindName(groups, name);
      GroupedStep(langs, combined, i, outfmap, sortedNames);
      if k >= 0 {
        groups := groups[k := groups[k].(languages := groups[k].languages + [lang])];
      } else {
        groups := groups + [FeatureValue(outfmap, IndexOf(sortedNames, name) + 1, name, [lang], 0, 0)];
      }
    }
  }

  /** One more language joins the value of its label, or starts one. */
  lemma GroupedStep(langs: seq<string>, names: map<string, string>, i: nat, outfmap: string, sortedNames: seq<string>)
    requires i < |langs| && forall k :: 0 <= k < |langs| ==> langs[k] in names
    ensures var g := Grouped(langs, names, i, outfmap, sortedNames);
      var l := langs[i];
      var k := FindName(g, names[l]);
      Grouped(langs, names, i + 1, outfmap, sortedNames)
        == if k >= 0 then g[k := g[k].(languages := g[k].languages + [l])]
           else g + [FeatureValue(outfmap, IndexOf(sortedNames, names[l]) + 1, names[l], [l], 0, 0)]
  {
  }

  /** Whether storing the cross-combination `r` under `outfmap` changes the feature maps. */
  predicate Differs(maps: map<string, seq<FeatureValue>>, outfmap: string, r: Option<seq<FeatureValue>>)
  {
    r.Some? && (outfmap !in maps || maps[outfmap] != r.value)
  }

  /** The feature maps with the cross-combination `r` stored under `outfmap`, when it
      changes them. */
  function Stored(maps: map<string, seq<FeatureValue>>, outfmap: string, r: Option<seq<FeatureValue>>): (m: map<string, seq<FeatureValue>>)
    ensures r.Some? ==> outfmap in m && m[outfmap] == r.value
    ensures forall id :: id != outfmap ==> (id in m <==> id in maps) && (id in m ==> m[id] == maps[id])
    ensures r.None? ==> m == maps
  {
    if Differs(maps, outfmap, r) then maps[outfmap := r.value] else maps
  }

  /** The computation of `_cross_combine`: the labels, the values grouped by label, their
      counts, the values sorted from the most languages down, and their relative
      frequencies; None where the source fails on an empty list. */
  method CrossCombination(features1: seq<FeatureValue>, features2: seq<FeatureValue>, outfmap: string)
    returns (r: Option<seq<FeatureValue>>)
    ensures r == CrossCombined(features1, features2, outfmap)
    ensures r.Some? ==> HasLanguages(r.value)
  {
    var combined := CombineNames(features1, features2);
    var groups := GroupByName(combined, outfmap);
    var counted, _, _ := RecountLanguages(groups);
    var sortedExtraFeatures := SortByCountDesc(counted);
    assert sortedExtraFeatures == CrossSorted(combined, outfmap);
    if |sortedExtraFeatures| == 0 {
      return None;
    }
    var result := SetFrequencies(sortedExtraFeatures, sortedExtraFeatures[0].languageCount);
    assert forall k :: 0 <= k < |result| ==> |result[k].languages| > 0 by {
      forall k | 0 <= k < |result| ensures |result[k].languages| > 0 {
        assert result[k].languages == sortedExtraFeatures[k].languages;
      }
    }
    r := Some(result);
  }

  /** The features `check` checks for completeness and recounts. */
  const CheckedFeatures: seq<string> := ["37A", "38A", "117A", "121A"]

  /** The cross-combinations `check` makes: two features and the combined one. */
  const CrossCombinations: seq<(string, string, string)> :=
    [("46A", "56A", "56E"), ("85A", "86A", "86X"), ("86A", "87A", "87X"), ("87A", "90A", "90X")]

  // ----- What `check` does to the checker's state -----

  /** The checker's state: the feature maps and the two status flags. */
  datatype CheckState = CheckState(maps: map<string, seq<FeatureValue>>, allWell: bool, changed: bool)

  /** `Corrected` on stored values; every value the checker stores lists some language, so
      the second branch is never reached from a checker's state. */
  function Correction(features: seq<FeatureValue>): (seq<FeatureValue>, bool)
  {
    if HasLanguages(features) then Corrected(features) else (features, false)
  }

  /** One checked feature: its completeness checked, then its counts corrected. */
  function CheckedStep(st: CheckState, id: string, fallbacks: seq<(string, string)>, sourceSet: set<string>): CheckState
  {
    var features := Get(st.maps, id);
    CheckState(st.maps[id := Correction(features).0],
               st.allWell && AllClear(Completeness(features, fallbacks, sourceSet)),
               st.changed || Correction(features).1)
  }

  /** The state after the first `n` checked features. */
  function CheckedUpTo(st: CheckState, n: nat, fallbacks: seq<(string, string)>, sourceSet: set<string>): CheckState
    requires n <= |CheckedFeatures|
  {
    if n == 0 then st else CheckedStep(CheckedUpTo(st, n - 1, fallbacks, sourceSet), CheckedFeatures[n - 1], fallbacks, sourceSet)
  }

  /** The article check: both features looked up, and any finding clears `allWell`. */
  function ArticleStep(st: CheckState): CheckState
  {
    var f37 := Get(st.maps, "37A");
    var f38 := Get(st.maps, "38A");
    CheckState(st.maps["37A" := f37]["38A" := f38],
               st.allWell && ArticleCheck(f37, f38) == ArticleFindings({}, {}, {}), st.changed)
  }

  /** The computation of a cross-combination. */
  type Combiner = (seq<FeatureValue>, seq<FeatureValue>, string) -> Option<seq<FeatureValue>>

  /** One cross-combination, made by `combine`, and whether it succeeded. */
  function CrossStep(st: CheckState, c: (string, string, string), combine: Combiner): (CheckState, bool)
  {
    var (fmap1, fmap2, outfmap) := c;
    var touched := st.maps[fmap1 := Get(st.maps, fmap1)][fmap2 := Get(st.maps, fmap2)];
    var r := combine(Get(st.maps, fmap1), Get(st.maps, fmap2), outfmap);
    (CheckState(Stored(touched, outfmap, r), st.allWell, st.changed || Differs(touched, outfmap, r)), r.Some?)
  }

  /** The state after the first `n` cross-combinations of `cs`; the first one that fails ends the run. */
  function CrossUpTo(st: CheckState, cs: seq<(string, string, string)>, combine: Combiner, n: nat): (CheckState, bool)
    requires n <= |cs|
  {
    if n == 0 then (st, true)
    else
      var prev := CrossUpTo(st, cs, combine, n - 1);
      if !prev.1 then prev else CrossStep(prev.0, cs[n - 1], combine)
  }

  /** `check` on a state: the checked features, the article check, the cross-combinations. */
  function CheckRun(st: CheckState, fallbacks: seq<(string, string)>, sourceSet: set<string>): (CheckState, bool)
  {
    CrossUpTo(ArticleStep(CheckedUpTo(st, |CheckedFeatures|, fallbacks, sourceSet)), CrossCombinations, CrossCombined, |CrossCombinations|)
  }

  /** The checked features are distinct. */
  lemma CheckedDistinct()
    ensures forall i, j :: 0 <= i < j < |CheckedFeatures| ==> CheckedFeatures[i] != CheckedFeatures[j]
  {
    forall i, j | 0 <= i < j < |CheckedFeatures| ensures CheckedFeatures[i] != CheckedFeatures[j] {
      assert CheckedFeatures[i][1] != CheckedFeatures[j][1];
    }
  }

  /** After the first `n` checked features each of them holds its corrected values and the
      later ones are untouched. */
  lemma {:induction false} CheckedUpToMaps(st: CheckState, n: nat, fallbacks: seq<(string, string)>, sourceSet: set<string>)
    requires n <= |CheckedFeatures|
    ensures var c := CheckedUpTo(st, n, fallbacks, sourceSet);
      (forall i :: 0 <= i < n ==> Get(c.maps, CheckedFeatures[i]) == Correction(Get(st.maps, CheckedFeatures[i])).0)
      && (forall i :: n <= i < |CheckedFeatures| ==> Get(c.maps, CheckedFeatures[i]) == Get(st.maps, CheckedFeatures[i]))
  {
    CheckedDistinct();
    if n > 0 {
      CheckedUpToMaps(st, n - 1, fallbacks, sourceSet);
      var p := CheckedUpTo(st, n - 1, fallbacks, sourceSet);
      var id := CheckedFeatures[n - 1];
      var c := CheckedUpTo(st, n, fallbacks, sourceSet);
      assert c.maps == p.maps[id := Correction(Get(p.maps, id)).0];
      forall i | 0 <= i < |CheckedFeatures| && i != n - 1
        ensures Get(c.maps, CheckedFeatures[i]) == Get(p.maps, CheckedFeatures[i])
      {
      }
    }
  }

  /** Whether the reports of the first `n` checked features are all clear. */
  predicate ClearUpTo(maps: map<string, seq<FeatureValue>>, n: nat, fallbacks: seq<(string, string)>, sourceSet: set<string>)
    requires n <= |CheckedFeatures|
  {
    n == 0 || (ClearUpTo(maps, n - 1, fallbacks, sourceSet) && AllClear(Completeness(Get(maps, CheckedFeatures[n - 1]), fallbacks, sourceSet)))
  }

  lemma {:induction false} ClearUpToAll(maps: map<string, seq<FeatureValue>>, n: nat, fallbacks: seq<(string, string)>, sourceSet: set<string>)
    requires n <= |CheckedFeatures|
    ensures ClearUpTo(maps, n, fallbacks, sourceSet)
            <==> forall i :: 0 <= i < n ==> AllClear(Completeness(Get(maps, CheckedFeatures[i]), fallbacks, sourceSet))
  {
    if n > 0 {
      ClearUpToAll(maps, n - 1, fallbacks, sourceSet);
    }
  }

  /** After the first `n` checked features `allWell` survives exactly when the old one held
      and every report was clear. */
  lemma {:induction false} CheckedUpToAllWell(st: CheckState, n: nat, fallbacks: seq<(string, string)>, sourceSet: set<string>)
    requires n <= |CheckedFeatures|
    ensures CheckedUpTo(st, n, fallbacks, sourceSet).allWell <==> st.allWell && ClearUpTo(st.maps, n, fallbacks, sourceSet)
  {
    if n > 0 {
      CheckedUpToAllWell(st, n - 1, fallbacks, sourceSet);
      CheckedUpToMaps(st, n - 1, fallbacks, sourceSet);
      var p := CheckedUpTo(st, n - 1, fallbacks, sourceSet);
      var id := CheckedFeatures[n - 1];
      assert Get(p.maps, id) == Get(st.maps, id);
    }
  }

  /** After the first `n` checked features `changed` is set exactly when it was or a
      correction changed something. */
  lemma {:induction false} CheckedUpToChanged(st: CheckState, n: nat, fallbacks: seq<(string, string)>, sourceSet: set<string>)
    requires n <= |CheckedFeatures|
    ensures CheckedUpTo(st, n, fallbacks, sourceSet).changed
            <==> st.changed || exists i :: 0 <= i < n && Correction(Get(st.maps, CheckedFeatures[i])).1
  {
    if n > 0 {
      CheckedUpToChanged(st, n - 1, fallbacks, sourceSet);
      CheckedUpToMaps(st, n - 1, fallbacks, sourceSet);
      var p := CheckedUpTo(st, n - 1, fallbacks, sourceSet);
      var id := CheckedFeatures[n - 1];
      assert Get(p.maps, id) == Get(st.maps, id);
      assert CheckedUpTo(st, n, fallbacks, sourceSet).changed == (p.changed || Correction(Get(st.maps, id)).1);
    }
  }

  /** The cross-combinations leave `allWell` alone and never clear `changed`. */
  lemma {:induction false} CrossUpToFlags(st: CheckState, cs: seq<(string, string, string)>, combine: Combiner, n: nat)
    requires n <= |cs|
    ensures CrossUpTo(st, cs, combine, n).0.allWell == st.allWell
    ensures st.changed ==> CrossUpTo(st, cs, combine, n).0.changed
  {
    if n > 0 {
      CrossUpToFlags(st, cs, combine, n - 1);
    }
  }

  /** A run that has not failed yet makes the next cross-combination. */
  lemma CrossUpToNext(st: CheckState, cs: seq<(string, string, string)>, combine: Combiner, i: nat)
    requires i < |cs| && CrossUpTo(st, cs, combine, i).1
    ensures CrossUpTo(st, cs, combine, i + 1) == CrossStep(CrossUpTo(st, cs, combine, i).0, cs[i], combine)
  {
  }

  /** The features made by the first `n` cross-combinations. */
  function Outputs(cs: seq<(string, string, string)>, n: nat): set<string>
    requires n <= |cs|
  {
    if n == 0 then {} else Outputs(cs, n - 1) + {cs[n - 1].2}
  }

  /** The made features are exactly the third parts of the first `n` cross-combinations. */
  lemma {:induction false} OutputsMembers(cs: seq<(string, string, string)>, n: nat)
    requires n <= |cs|
    ensures forall k :: 0 <= k < n ==> cs[k].2 in Outputs(cs, n)
    ensures forall x :: x in Outputs(cs, n) ==> exists k :: 0 <= k < n && cs[k].2 == x
  {
    if n > 0 {
      OutputsMembers(cs, n - 1);
    }
  }

  /** No feature is lost, and after a run without failure every combined feature made so
      far is present. */
  lemma {:induction false} CrossUpToPresent(st: CheckState, cs: seq<(string, string, string)>, combine: Combiner, n: nat)
    requires n <= |cs|
    ensures st.maps.Keys <= CrossUpTo(st, cs, combine, n).0.maps.Keys
    ensures CrossUpTo(st, cs, combine, n).1 ==> Outputs(cs, n) <= CrossUpTo(st, cs, combine, n).0.maps.Keys
  {
    if n > 0 {
      CrossUpToPresent(st, cs, combine, n - 1);
      var p := CrossUpTo(st, cs, combine, n - 1);
      if p.1 {
        CrossUpToNext(st, cs, combine, n - 1);
        CrossStepKeys(p.0, cs[n - 1], combine);
      }
    }
  }

  /** A cross-combination keeps every feature and, when it succeeds, adds its own. */
  lemma CrossStepKeys(st: CheckState, c: (string, string, string), combine: Combiner)
    ensures st.maps.Keys <= CrossStep(st, c, combine).0.maps.Keys
    ensures CrossStep(st, c, combine).1 ==> c.2 in CrossStep(st, c, combine).0.maps
  {
    var touched := st.maps[c.0 := Get(st.maps, c.0)][c.1 := Get(st.maps, c.1)];
    var r := combine(Get(st.maps, c.0), Get(st.maps, c.1), c.2);
    assert CrossStep(st, c, combine) == (CheckState(Stored(touched, c.2, r), st.allWell, st.changed || Differs(touched, c.2, r)), r.Some?);
    assert st.maps.Keys <= touched.Keys;
  }

  /** Once a cross-combination has failed, the later ones are not made. */
  lemma {:induction false} CrossUpToStops(st: CheckState, cs: seq<(string, string, string)>, combine: Combiner, i: nat, n: nat)
    requires i <= n <= |cs| && !CrossUpTo(st, cs, combine, i).1
    ensures CrossUpTo(st, cs, combine, n) == CrossUpTo(st, cs, combine, i)
  {
    if n > i {
      CrossUpToStops(st, cs, combine, i, n - 1);
    }
  }

  /** All is well after `check` exactly when all was well before, every checked feature's
      report is clear, and the article check of the corrected 37A and 38A finds nothing;
      the data has changed when it had before or a correction changed a checked feature. */
  lemma CheckedFlags(st: CheckState, fallbacks: seq<(string, string)>, sourceSet: set<string>)
    ensures var r := CheckRun(st, fallbacks, sourceSet).0;
      (r.allWell <==>
         st.allWell
         && (forall i :: 0 <= i < |CheckedFeatures| ==> AllClear(Completeness(Get(st.maps, CheckedFeatures[i]), fallbacks, sourceSet)))
         && ArticleCheck(Correction(Get(st.maps, "37A")).0, Correction(Get(st.maps, "38A")).0) == ArticleFindings({}, {}, {}))
      && ((st.changed || exists i :: 0 <= i < |CheckedFeatures| && Correction(Get(st.maps, CheckedFeatures[i])).1) ==> r.changed)
  {
    var c := CheckedUpTo(st, |CheckedFeatures|, fallbacks, sourceSet);
    CheckedUpToMaps(st, |CheckedFeatures|, fallbacks, sourceSet);
    CheckedUpToAllWell(st, |CheckedFeatures|, fallbacks, sourceSet);
    ClearUpToAll(st.maps, |CheckedFeatures|, fallbacks, sourceSet);
    CheckedUpToChanged(st, |CheckedFeatures|, fallbacks, sourceSet);
    assert Get(c.maps, CheckedFeatures[0]) == Correction(Get(st.maps, "37A")).0;
    assert Get(c.maps, CheckedFeatures[1]) == Correction(Get(st.maps, "38A")).0;
    CrossUpToFlags(ArticleStep(c), CrossCombinations, CrossCombined, |CrossCombinations|);
  }

  /** The body of `_correct_feature_counts` on a feature's values: the recount loop, the
      sort when it found them out of order, and the new relative frequencies. */
  method CorrectCounts(features: seq<FeatureValue>) returns (result: seq<FeatureValue>, changed: bool)
    requires HasLanguages(features)
    ensures (result, changed) == Corrected(features)
    ensures HasLanguages(result)
  {
    var counted, outOfOrder;
    counted, changed, outOfOrder := RecountLanguages(features);
    var ordered := if outOfOrder then SortByCountDesc(counted) else counted;
    result := features;
    if changed {
      assert ordered == Ordered(features);
      assert ordered[0] in multiset(Recounted(features));
      result := SetFrequencies(ordered, ordered[0].languageCount);
      assert result == Corrected(features).0;
      CorrectionSettles(features);
    }
  }

  /** `WalsChecker`: the feature maps read from the table, the source languages and the
      fallback pairs (fallback, main) of the frequency finder, and the two status flags. */
  class WalsChecker {
    var sourceSet: set<string>
    var fallbacks: seq<(string, string)>
    var featureMaps: map<string, seq<FeatureValue>>
    var allWell: bool
    var dataHasChanged: bool

    /** Every stored value lists some language, as every value read from the table does. */
    predicate Valid()
      reads this
    {
      forall id :: id in featureMaps ==> HasLanguages(featureMaps[id])
    }

    /** A checker that has found no problem and changed nothing. */
    constructor (sourceSet: set<string>, fallbacks: seq<(string, string)>, featureMaps: map<string, seq<FeatureValue>>)
      requires forall id :: id in featureMaps ==> HasLanguages(featureMaps[id])
      ensures this.sourceSet == sourceSet && this.fallbacks == fallbacks && this.featureMaps == featureMaps
      ensures allWell && !dataHasChanged && Valid()
    {
      this.sourceSet := sourceSet;
      this.fallbacks := fallbacks;
      this.featureMaps := featureMaps;
      allWell := true;
      dataHasChanged := false;
    }

    /** Looking a feature up in the `defaultdict`: its values, an empty list stored first
        for a feature not present. */
    method Lookup(id: string) returns (features: seq<FeatureValue>)
      requires Valid()
      modifies this`featureMaps
      ensures features == Get(old(featureMaps), id) && featureMaps == old(featureMaps)[id := features]
      ensures Valid()
    {
      features := Get(featureMaps, id);
      featureMaps := featureMaps[id := features];
    }

    /** `_check_feature_completeness_and_consistency`: the report of `Completeness`; a
        report with any problem clears `allWell`. Looking the feature up stores an empty
        list for a feature not present. */
    method CheckFeatureCompletenessAndConsistency(featureMap: string) returns (report: Report)
      requires Valid()
      modifies this`featureMaps, this`allWell
      ensures featureMaps == old(featureMaps)[featureMap := Get(old(featureMaps), featureMap)]
      ensures report == Completeness(Get(old(featureMaps), featureMap), fallbacks, sourceSet)
      ensures allWell == (old(allWell) && AllClear(report))
      ensures Valid()
    {
      var features := Lookup(featureMap);
      if |features| == 0 {
        allWell := false;
        return NotFound;
      }
      var langCounter := CountLanguages(features, fallbacks);
      report := Problems(langCounter, sourceSet);
      if report.repeated != {} {
        allWell := false;
      }
      if report.missing != {} {
        allWell := false;
      }
      if report.extra != {} {
        allWell := false;
      }
    }

    /** `_correct_feature_counts`: when some language count is wrong, the feature's values
        are replaced by `Corrected` and `dataHasChanged` is set; otherwise nothing changes
        but the lookup. */
    method CorrectFeatureCounts(featureMap: string)
      requires Valid()
      modifies this`featureMaps, this`dataHasChanged
      ensures featureMaps == old(featureMaps)[featureMap := Corrected(Get(old(featureMaps), featureMap)).0]
      ensures dataHasChanged == (old(dataHasChanged) || Corrected(Get(old(featureMaps), featureMap)).1)
      ensures Valid()
    {
      var features := Lookup(featureMap);
      var result, changed := CorrectCounts(features);
      if changed {
        featureMaps := featureMaps[featureMap := result];
        dataHasChanged := true;
      }
    }

    /** `_check_consistency_between_article_features`: the findings of `ArticleCheck` on
        features 37A and 38A; any finding clears `allWell`. */
    method CheckConsistencyBetweenArticleFeatures() returns (findings: ArticleFindings)
      requires Valid()
      modifies this`featureMaps, this`allWell
      ensures featureMaps == old(featureMaps)["37A" := Get(old(featureMaps), "37A")]["38A" := Get(old(featureMaps), "38A")]
      ensures findings == ArticleCheck(Get(old(featureMaps), "37A"), Get(old(featureMaps), "38A"))
      ensures allWell == (old(allWell) && findings == ArticleFindings({}, {}, {}))
      ensures Valid()
    {
      var f37 := Lookup("37A");
      var neither37, hasIndefiniteButNoDefinite, hasDefinite := TallyArticles(f37);
      assert "37A"[1] != "38A"[1];
      var f38 := Lookup("38A");
      var neither38, hasDefiniteButNoIndefinite, hasIndefinite := TallyArticles(f38);
      var hasNeither := neither37 + neither38;
      var singletons := set lang | lang in hasNeither && hasNeither[lang] == 1;
      if singletons != {} {
        allWell := false;
      }
      var spuriousDefinite := hasDefiniteButNoIndefinite - hasDefinite;
      if spuriousDefinite != {} {
        allWell := false;
      }
      var spuriousIndefinite := hasIndefiniteButNoDefinite - hasIndefinite;
      if spuriousIndefinite != {} {
        allWell := false;
      }
      findings := ArticleFindings(singletons, spuriousDefinite, spuriousIndefinite);
    }

    /** `_cross_combine`: the values of `CrossCombined` on the two features are stored under
        `outfmap`, and `dataHasChanged` set, when `outfmap` was absent or held other values;
        when neither feature lists a language the source fails, and `ok` is false. */
    method CrossCombine(fmap1: string, fmap2: string, outfmap: string) returns (ok: bool)
      requires Valid()
      modifies this`featureMaps, this`dataHasChanged
      ensures var touched := old(featureMaps)[fmap1 := Get(old(featureMaps), fmap1)][fmap2 := Get(old(featureMaps), fmap2)];
        var r := CrossCombined(Get(old(featureMaps), fmap1), Get(old(featureMaps), fmap2), outfmap);
        ok == r.Some? && featureMaps == Stored(touched, outfmap, r)
        && dataHasChanged == (old(dataHasChanged) || Differs(touched, outfmap, r))
      ensures Valid()
    {
      ghost var before := featureMaps;
      var features1 := Lookup(fmap1);
      var features2 := Lookup(fmap2);
      assert features2 == Get(before, fmap2);
      var r := CrossCombination(features1, features2, outfmap);
      StoreCombination(outfmap, r);
      ok := r.Some?;
    }

    /** The end of `_cross_combine`: the combined feature replaces the stored one, and sets
        `dataHasChanged`, only when it differs from it; a failed combination changes
        nothing. */
    method StoreCombination(outfmap: string, r: Option<seq<FeatureValue>>)
      requires Valid() && (r.Some? ==> HasLanguages(r.value))
      modifies this`featureMaps, this`dataHasChanged
      ensures featureMaps == Stored(old(featureMaps), outfmap, r)
      ensures dataHasChanged == (old(dataHasChanged) || Differs(old(featureMaps), outfmap, r))
      ensures Valid()
    {
      if r.None? {
        return;
      }
      var oldExtraFeatures: Option<seq<FeatureValue>> := if outfmap in featureMaps then Some(featureMaps[outfmap]) else None;
      if oldExtraFeatures.None? || oldExtraFeatures.value != r.value {
        featureMaps := featureMaps[outfmap := r.value];
        dataHasChanged := true;
      }
    }

    /** One checked feature of `check`: its completeness checked, then its counts corrected. */
    method CheckFeature(id: string)
      requires Valid()
      modifies this`featureMaps, this`allWell, this`dataHasChanged
      ensures featureMaps == old(featureMaps)[id := Corrected(Get(old(featureMaps), id)).0]
      ensures allWell == (old(allWell) && AllClear(Completeness(Get(old(featureMaps), id), fallbacks, sourceSet)))
      ensures dataHasChanged == (old(dataHasChanged) || Corrected(Get(old(featureMaps), id)).1)
      ensures CheckState(featureMaps, allWell, dataHasChanged)
              == CheckedStep(CheckState(old(featureMaps), old(allWell), old(dataHasChanged)), id, fallbacks, sourceSet)
      ensures Valid()
    {
      var _ := CheckFeatureCompletenessAndConsistency(id);
      CorrectFeatureCounts(id);
    }

    /** One cross-combination of `check`: `CrossCombine`, whose new state is `CrossStep`'s. */
    method AddCrossCombination(fmap1: string, fmap2: string, outfmap: string) returns (ok: bool)
      requires Valid()
      modifies this`featureMaps, this`dataHasChanged
      ensures var touched := old(featureMaps)[fmap1 := Get(old(featureMaps), fmap1)][fmap2 := Get(old(featureMaps), fmap2)];
        var r := CrossCombined(Get(old(featureMaps), fmap1), Get(old(featureMaps), fmap2), outfmap);
        ok == r.Some? && featureMaps == Stored(touched, outfmap, r)
        && dataHasChanged == (old(dataHasChanged) || Differs(touched, outfmap, r))
      ensures (CheckState(featureMaps, allWell, dataHasChanged), ok)
              == CrossStep(CheckState(old(featureMaps), allWell, old(dataHasChanged)), (fmap1, fmap2, outfmap), CrossCombined)
      ensures Valid()
    {
      ok := CrossCombine(fmap1, fmap2, outfmap);
    }

    /** `check`: each of the four checked features checked and corrected, the article
        features compared, and the four cross-combinations stored in order; a
        cross-combination that fails stops the run with `ok` false. The new state is
        `CheckRun` of the old one, whose flags `CheckedFlags` describes, and after a full
        run every combined feature is present. */
    method Check() returns (ok: bool)
      requires Valid()
      modifies this`featureMaps, this`allWell, this`dataHasChanged
      ensures (CheckState(featureMaps, allWell, dataHasChanged), ok)
              == CheckRun(CheckState(old(featureMaps), old(allWell), old(dataHasChanged)), fallbacks, sourceSet)
      ensures Valid()
      ensures ok ==> forall k :: 0 <= k < |CrossCombinations| ==> CrossCombinations[k].2 in featureMaps
    {
      CheckFeatures();
      var _ := CheckConsistencyBetweenArticleFeatures();
      ok := AddCrossCombinations();
      OutputsMembers(CrossCombinations, |CrossCombinations|);
    }

    /** The first loop of `check`: the checked features, one after the other. */
    method CheckFeatures()
      requires Valid()
      modifies this`featureMaps, this`allWell, this`dataHasChanged
      ensures CheckState(featureMaps, allWell, dataHasChanged)
              == CheckedUpTo(CheckState(old(featureMaps), old(allWell), old(dataHasChanged)), |CheckedFeatures|, fallbacks, sourceSet)
      ensures Valid()
    {
      ghost var st0 := CheckState(featureMaps, allWell, dataHasChanged);
      for i := 0 to |CheckedFeatures|
        invariant Valid()
        invariant CheckState(featureMaps, allWell, dataHasChanged) == CheckedUpTo(st0, i, fallbacks, sourceSet)
      {
        CheckFeature(CheckedFeatures[i]);
      }
    }

    /** The cross-combinations of `check`, in order, until one fails. */
    method AddCrossCombinations() returns (ok: bool)
      requires Valid()
      modifies this`featureMaps, this`dataHasChanged
      ensures (CheckState(featureMaps, allWell, dataHasChanged), ok)
              == CrossUpTo(CheckState(old(featureMaps), allWell, old(dataHasChanged)), CrossCombinations, CrossCombined, |CrossCombinations|)
      ensures Valid()
      ensures ok ==> Outputs(CrossCombinations, |CrossCombinations|) <= featureMaps.Keys
    {
      ghost var st1 := CheckState(featureMaps, allWell, dataHasChanged);
      ok := true;
      for i := 0 to |CrossCombinations|
        invariant Valid()
        invariant ok && (CheckState(featureMaps, allWell, dataHasChanged), ok) == CrossUpTo(st1, CrossCombinations, CrossCombined, i)
      {
        var c := CrossCombinations[i];
        ghost var before := CheckState(featureMaps, allWell, dataHasChanged);
        ghost var prev := CrossUpTo(st1, CrossCombinations, CrossCombined, i);
        assert prev.0 == before && prev.1;
        ok := AddCrossCombination(c.0, c.1, c.2);
        ghost var step := CrossStep(before, c, CrossCombined);
        assert (CheckState(featureMaps, allWell, dataHasChanged), ok) == step;
        CrossUpToNext(st1, CrossCombinations, CrossCombined, i);
        assert CrossUpTo(st1, CrossCombinations, CrossCombined, i + 1) == step;
        if !ok {
          CrossUpToStops(st1, CrossCombinations, CrossCombined, i + 1, |CrossCombinations|);
          return;
        }
      }
      CrossUpToPresent(st1, CrossCombinations, CrossCombined, |CrossCombinations|);
    }
  }
}
