// Entry-level helpers of the vocabulary builder (scripts/buildvoc.py): the kind of an
// entry and which kinds are rarest, the minimum candidate length, cleaning up a translation
// for export, checking a gloss against its word, and choosing which of several candidate
// sets to handle first.
module Entries {
  import opened Wrappers
  import opened Text
  import Util
  import opened LineDicts
  import opened CandidateConstraints
  import opened Candidates
  import Phonology

  // ----- Kinds -----

  /** CONTENT_CLASSES: the word classes whose candidates must have at least 3 sounds. */
  const ContentClasses: set<string> := {"adj", "name", "noun", "verb"}

  /** Kind, in the order of its values 1, 2, 3 (also the order of KIND_DESC). */
  datatype Kind = Noun | Adj | Verb

  const AllKinds: set<Kind> := {Noun, Adj, Verb}

  /** The comma-separated classes of an entry. */
  function Classes(entry: Dict): seq<string>
  {
    Util.SplitOnCommas(Some(Lookup(entry, "class", "")))
  }

  /** get_kind on the list of classes: only the first counts; nouns and names are NOUN,
      adjectives and adverbs ADJ, everything else VERB, and no class at all means NOUN. */
  function KindOfClasses(classes: seq<string>): (k: Kind)
    ensures k == Noun <==> classes == [] || classes[0] == "noun" || classes[0] == "name"
    ensures k == Adj <==> classes != [] && (classes[0] == "adj" || classes[0] == "adv")
  {
    if classes == [] then Noun
    else if classes[0] == "noun" || classes[0] == "name" then Noun
    else if classes[0] == "adj" || classes[0] == "adv" then Adj
    else Verb
  }

  /** get_kind */
  function GetKind(entry: Dict): Kind
  {
    KindOfClasses(Classes(entry))
  }

  /** The kinds of the first n entries, in order. */
  function KindsUpTo(entries: seq<Dict>, n: nat): (kinds: seq<Kind>)
    requires n <= |entries|
    ensures |kinds| == n
  {
    if n == 0 then [] else KindsUpTo(entries, n - 1) + [GetKind(entries[n - 1])]
  }

  /** The kinds of the entries, in order. */
  function KindsOf(entries: seq<Dict>): (kinds: seq<Kind>)
    ensures |kinds| == |entries|
  {
    KindsUpTo(entries, |entries|)
  }

  /** How often k occurs among the kinds. */
  function CountOf(kinds: seq<Kind>, k: Kind): (n: nat)
    ensures n <= |kinds|
  {
    if |kinds| == 0 then 0
    else CountOf(kinds[..|kinds| - 1], k) + (if kinds[|kinds| - 1] == k then 1 else 0)
  }

  /** The number of entries of a kind. */
  function KindCount(entries: seq<Dict>, k: Kind): (n: nat)
    ensures n <= |entries|
  {
    CountOf(KindsOf(entries), k)
  }

  /** Every kind is one of three, so the three counts add up to the number of kinds. */
  lemma {:induction false} CountsAddUp(kinds: seq<Kind>)
    ensures CountOf(kinds, Noun) + CountOf(kinds, Adj) + CountOf(kinds, Verb) == |kinds|
  {
    if |kinds| > 0 {
      CountsAddUp(kinds[..|kinds| - 1]);
    }
  }

  /** Every entry has exactly one kind, so the three counts add up to the number of
      entries. */
  lemma KindCountsAddUp(entries: seq<Dict>)
    ensures KindCount(entries, Noun) + KindCount(entries, Adj) + KindCount(entries, Verb)
            == |entries|
  {
    CountsAddUp(KindsOf(entries));
  }

  /** The count of every kind. */
  function CountsOf(kinds: seq<Kind>): (m: map<Kind, nat>)
    ensures m.Keys == AllKinds
  {
    map[Noun := CountOf(kinds, Noun), Adj := CountOf(kinds, Adj), Verb := CountOf(kinds, Verb)]
  }

  /** The count of every kind among the entries. */
  function Counts(entries: seq<Dict>): (m: map<Kind, nat>)
    ensures m.Keys == AllKinds
    ensures forall k :: k in m ==> m[k] == KindCount(entries, k)
  {
    CountsOf(KindsOf(entries))
  }

  /** One more kind adds one to its count. */
  lemma CountsOfSnoc(prefix: seq<Kind>, g: Kind, longer: seq<Kind>)
    requires longer == prefix + [g]
    ensures CountsOf(longer) == CountsOf(prefix)[g := CountsOf(prefix)[g] + 1]
  {
    assert longer[..|longer| - 1] == prefix;
    var before, after := CountsOf(prefix), CountsOf(longer);
    match g
    case Noun => assert after == before[Noun := before[Noun] + 1];
    case Adj => assert after == before[Adj := before[Adj] + 1];
    case Verb => assert after == before[Verb := before[Verb] + 1];
  }

  /** The counter after one more kind. */
  lemma CountStep(counter: map<Kind, nat>, before: seq<Kind>, kind: Kind, after: seq<Kind>)
    requires counter == CountsOf(before) && after == before + [kind]
    ensures kind in counter && counter[kind := counter[kind] + 1] == CountsOf(after)
  {
    CountsOfSnoc(before, kind, after);
  }

  /** count_existing_kinds: a count for every kind, 0 for a kind no entry has. */
  method CountExistingKinds(entries: seq<Dict>) returns (counter: map<Kind, nat>)
    ensures counter == Counts(entries)
  {
    counter := map[Noun := 0, Adj := 0, Verb := 0];
    for i := 0 to |entries|
      invariant counter == CountsOf(KindsUpTo(entries, i))
    {
      var kind := GetKind(entries[i]);
      ghost var before := KindsUpTo(entries, i);
      ghost var after := KindsUpTo(entries, i + 1);
      CountStep(counter, before, kind, after);
      counter := counter[kind := counter[kind] + 1];
    }
  }

  /** The weight determine_kinds_to_add gives a kind: a noun counts half, so that twice as
      many nouns as other words are allowed. */
  function Weight(entries: seq<Dict>, k: Kind): real
  {
    if k == Noun then KindCount(entries, k) as real * 0.5 else KindCount(entries, k) as real
  }

  /** The weight of a kind, given the weights of the three kinds. */
  function WeightOf(k: Kind, n: real, a: real, v: real): real
  {
    match k
    case Noun => n
    case Adj => a
    case Verb => v
  }

  /** The kinds of least weight, given the weights of the three kinds. */
  function LeastKinds(n: real, a: real, v: real): set<Kind>
  {
    set k | k in AllKinds && WeightOf(k, n, a, v) <= n && WeightOf(k, n, a, v) <= a
                          && WeightOf(k, n, a, v) <= v
  }

  /** The kinds of least weight. */
  function RarestKinds(entries: seq<Dict>): set<Kind>
  {
    LeastKinds(Weight(entries, Noun), Weight(entries, Adj), Weight(entries, Verb))
  }

  /** Some kind is always rarest. */
  lemma RarestKindsNonEmpty(entries: seq<Dict>)
    ensures RarestKinds(entries) != {}
  {
    var n, a, v := Weight(entries, Noun), Weight(entries, Adj), Weight(entries, Verb);
    if n <= a && n <= v {
      assert Noun in RarestKinds(entries);
    } else if a <= v {
      assert Adj in RarestKinds(entries);
    } else {
      assert Verb in RarestKinds(entries);
    }
  }

  /** With twice as many nouns as adjectives and as verbs, all three kinds are due. */
  lemma BalancedKinds(entries: seq<Dict>)
    requires KindCount(entries, Noun) == 2 * KindCount(entries, Adj)
    requires KindCount(entries, Noun) == 2 * KindCount(entries, Verb)
    ensures RarestKinds(entries) == AllKinds
  {
  }

  /** Each count is at most the next one. */
  predicate SortedByCount(s: seq<(Kind, real)>)
  {
    forall i :: 0 < i < |s| ==> s[i - 1].1 <= s[i].1
  }

  /** Inserts a pair into a list sorted by count, after the pairs of equal count. */
  function InsertByCount(p: (Kind, real), s: seq<(Kind, real)>): (r: seq<(Kind, real)>)
    requires SortedByCount(s)
    ensures SortedByCount(r) && multiset(r) == multiset(s) + multiset{p}
    ensures |r| == |s| + 1 && forall q :: q in r <==> q == p || q in s
    ensures r[|r| - 1] == p || (|s| > 0 && r[|r| - 1] == s[|s| - 1])
  {
    if |s| == 0 || s[|s| - 1].1 <= p.1 then s + [p]
    else
      var n := |s| - 1;
      var front := InsertByCount(p, s[..n]);
      assert s == s[..n] + [s[n]];
      front + [s[n]]
  }

  /** `sorted(pairs, key=count)`: Python's stable sort. */
  function SortByCount(s: seq<(Kind, real)>): (r: seq<(Kind, real)>)
    ensures SortedByCount(r) && multiset(r) == multiset(s)
    ensures |r| == |s| && forall q :: q in r <==> q in s
  {
    if |s| == 0 then []
    else
      var n := |s| - 1;
      assert s == s[..n] + [s[n]];
      InsertByCount(s[n], SortByCount(s[..n]))
  }

  /** The kinds of the first n pairs whose count is c. */
  function KindsWithCount(pairs: seq<(Kind, real)>, n: nat, c: real): set<Kind>
    requires n <= |pairs|
  {
    if n == 0 then {}
    else KindsWithCount(pairs, n - 1, c) + (if pairs[n - 1].1 == c then {pairs[n - 1].0} else {})
  }

  /** The kinds collected are those of the pairs with that count. */
  lemma {:induction false} KindsWithCountMembers(pairs: seq<(Kind, real)>, n: nat, c: real)
    requires n <= |pairs|
    ensures forall k :: k in KindsWithCount(pairs, n, c) <==>
              exists j :: 0 <= j < n && pairs[j].0 == k && pairs[j].1 == c
  {
    if n > 0 {
      KindsWithCountMembers(pairs, n - 1, c);
    }
  }

  /** A pair that carries its kind's weight. */
  predicate Weighted(p: (Kind, real), n: real, a: real, v: real)
  {
    p.1 == WeightOf(p.0, n, a, v)
  }

  /** Some pair carries kind k. */
  predicate HasKind(pairs: seq<(Kind, real)>, k: Kind)
  {
    exists j :: 0 <= j < |pairs| && pairs[j].0 == k
  }

  /** A sorted permutation of the three weighted kinds holds each kind once with its
      weight, and its first count is the least weight. */
  lemma SortedWeights(n: real, a: real, v: real, pairs: seq<(Kind, real)>)
    requires SortedByCount(pairs) && |pairs| == 3
    requires forall q :: q in pairs <==> q in [(Noun, n), (Adj, a), (Verb, v)]
    ensures forall j :: 0 <= j < 3 ==> Weighted(pairs[j], n, a, v)
    ensures HasKind(pairs, Noun) && HasKind(pairs, Adj) && HasKind(pairs, Verb)
    ensures pairs[0].1 <= n && pairs[0].1 <= a && pairs[0].1 <= v
    ensures pairs[0].1 == n || pairs[0].1 == a || pairs[0].1 == v
  {
    var items := [(Noun, n), (Adj, a), (Verb, v)];
    assert pairs[0] in items && pairs[1] in items && pairs[2] in items;
    assert items[0] in pairs && items[1] in pairs && items[2] in pairs;
  }

  /** Sorting the three weighted kinds puts a least weight first, so the kinds that share
      the first weight are the rarest ones. */
  lemma FirstCountIsLeast(n: real, a: real, v: real, pairs: seq<(Kind, real)>)
    requires n >= 0.0 && a >= 0.0 && v >= 0.0
    requires SortedByCount(pairs) && |pairs| == 3
    requires forall q :: q in pairs <==> q in [(Noun, n), (Adj, a), (Verb, v)]
    ensures pairs[0].1 >= 0.0
    ensures KindsWithCount(pairs, 3, pairs[0].1) == LeastKinds(n, a, v)
  {
    SortedWeights(n, a, v, pairs);
    var c := pairs[0].1;
    KindsWithCountMembers(pairs, 3, c);
    forall k
      ensures k in KindsWithCount(pairs, 3, c) <==> k in LeastKinds(n, a, v)
    {
      assert HasKind(pairs, k) by {
        match k
        case Noun =>
        case Adj =>
        case Verb =>
      }
      var j :| 0 <= j < |pairs| && pairs[j].0 == k;
      assert Weighted(pairs[j], n, a, v);
    }
  }

  /** The loop of determine_kinds_to_add: the first pair sets the least count, and every
      pair of that count contributes its kind. */
  method TakeLeastCounted(pairs: seq<(Kind, real)>) returns (result: set<Kind>)
    requires |pairs| == 3 && pairs[0].1 >= 0.0
    ensures result == KindsWithCount(pairs, 3, pairs[0].1)
  {
    ghost var least := pairs[0].1;
    result := {};
    var rarestCount := -1.0;
    for i := 0 to 3
      invariant rarestCount == if i == 0 then -1.0 else least
      invariant result == KindsWithCount(pairs, i, least)
    {
      var kind := pairs[i].0;
      var count := pairs[i].1;
      if rarestCount < 0.0 {
        result := result + {kind};
        rarestCount := count;
      } else if count == rarestCount {
        result := result + {kind};
      }
    }
  }

  /** determine_kinds_to_add: the kinds whose weight equals that of the first pair in
      sorted order. */
  method DetermineKindsToAdd(entries: seq<Dict>) returns (result: set<Kind>)
    ensures result == RarestKinds(entries)
  {
    var counts := CountExistingKinds(entries);
    var counter: map<Kind, real> := map[Noun := counts[Noun] as real * 0.5,
                                        Adj := counts[Adj] as real, Verb := counts[Verb] as real];
    ghost var n, a, v := Weight(entries, Noun), Weight(entries, Adj), Weight(entries, Verb);
    assert counter[Noun] == n && counter[Adj] == a && counter[Verb] == v;
    var items := [(Noun, counter[Noun]), (Adj, counter[Adj]), (Verb, counter[Verb])];
    var pairs := SortByCount(items);
    FirstCountIsLeast(n, a, v, pairs);
    result := TakeLeastCounted(pairs);
  }

  // ----- Minimum length -----

  /** min_length: 1 when short candidates are allowed (the --allowshort option or an
      "Allow short" constraint), otherwise 3 for a first class in CONTENT_CLASSES and 1 for
      any other; an entry without a class has no first class (an IndexError). */
  function MinLength(entry: Dict, allowShort: bool, constraints: Option<Constraints>)
    : (r: Result<nat>)
    ensures r.Ok? ==> r.value == 1 || r.value == 3
    ensures allowShort || (constraints.Some? && constraints.value.allowShort) ==> r == Ok(1)
  {
    if allowShort || (constraints.Some? && constraints.value.allowShort) then Ok(1)
    else MinLengthOfClasses(Classes(entry))
  }

  function MinLengthOfClasses(classes: seq<string>): Result<nat>
  {
    if classes == [] then Err("IndexError: list index out of range")
    else Ok(if classes[0] in ContentClasses then 3 else 1)
  }

  /** Unless short candidates are allowed, the minimum length is 3 exactly for nouns and
      names, verbs, and adjectives other than adverbs; an entry without a class, which
      get_kind counts as a noun, makes min_length fail. */
  lemma MinLengthByKind(classes: seq<string>)
    ensures var r := MinLengthOfClasses(classes); var k := KindOfClasses(classes);
      && (r.Err? <==> classes == [])
      && (r.Err? ==> k == Noun)
      && (r == Ok(3) <==> classes != [] && (k == Noun || (k == Adj && classes[0] == "adj")
                                           || (k == Verb && classes[0] == "verb")))
  {
  }

  // ----- Cleaning up a translation -----

  /** A translation that is only a comment: it starts with '(' and ends with ')'. */
  predicate IsParenthesized(t: string)
  {
    |t| > 0 && t[0] == '(' && t[|t| - 1] == ')'
  }

  /** Comments are dropped only when there is more than one translation. */
  predicate Skipped(translations: seq<string>, t: string)
  {
    |translations| > 1 && IsParenthesized(t)
  }

  predicate NoDuplicates(s: seq<string>)
  {
    forall i, j :: 0 <= i < j < |s| ==> s[i] != s[j]
  }

  /** What the loop of cleanup_translation_value keeps of the first n translations. */
  function KeptPrefix(ts: seq<string>, n: nat): seq<string>
    requires n <= |ts|
  {
    if n == 0 then []
    else
      var kept := KeptPrefix(ts, n - 1);
      var t := ts[n - 1];
      if Skipped(ts, t) || t in kept then kept else kept + [t]
  }

  /** The translations cleanup_translation_value keeps; when every one was a dropped
      comment, the first one. */
  function CleanedTranslations(ts: seq<string>): seq<string>
  {
    var kept := KeptPrefix(ts, |ts|);
    if kept == [] && ts != [] then [ts[0]] else kept
  }

  /** The loop keeps each translation that is not a dropped comment, once. */
  lemma {:induction false} KeptPrefixContents(ts: seq<string>, n: nat)
    requires n <= |ts|
    ensures NoDuplicates(KeptPrefix(ts, n))
    ensures forall x :: x in KeptPrefix(ts, n) <==> x in ts[..n] && !Skipped(ts, x)
  {
    if n > 0 {
      KeptPrefixContents(ts, n - 1);
      assert ts[..n] == ts[..n - 1] + [ts[n - 1]];
    }
  }

  /** The cleaned list has no duplicates and is empty only for no translations. Unless
      every translation is a dropped comment, it holds exactly the translations that are
      not; otherwise it is the first translation alone. */
  lemma CleanedTranslationsContents(ts: seq<string>)
    ensures var r := CleanedTranslations(ts);
      && NoDuplicates(r)
      && (r == [] <==> ts == [])
      && ((exists i :: 0 <= i < |ts| && !Skipped(ts, ts[i])) ==>
            forall x :: x in r <==> x in ts && !Skipped(ts, x))
      && ((forall i :: 0 <= i < |ts| ==> Skipped(ts, ts[i])) && ts != [] ==> r == [ts[0]])
  {
    var kept := KeptPrefix(ts, |ts|);
    KeptPrefixContents(ts, |ts|);
    assert ts[..|ts|] == ts;
    if exists i :: 0 <= i < |ts| && !Skipped(ts, ts[i]) {
      var i :| 0 <= i < |ts| && !Skipped(ts, ts[i]);
      assert ts[i] in kept;
    }
    if kept != [] {
      assert kept[0] in ts && !Skipped(ts, kept[0]);
    }
  }

  /** The loop of cleanup_translation_value and the fallback to the first translation. */
  method KeepTranslations(translations: seq<string>) returns (resultList: seq<string>)
    ensures resultList == CleanedTranslations(translations)
  {
    resultList := [];
    var resultSet: set<string> := {};
    for i := 0 to |translations|
      invariant resultList == KeptPrefix(translations, i)
      invariant forall t :: t in resultSet <==> t in resultList
    {
      var trans := translations[i];
      if !Skipped(translations, trans) && trans !in resultSet {
        resultList := resultList + [trans];
        resultSet := resultSet + {trans};
      }
    }
    if resultList == [] && translations != [] {
      resultList := resultList + [translations[0]];
    }
  }

  /** cleanup_translation_value: bracketed text is removed, the semicolon-separated
      translations are cleaned and joined again. */
  method CleanupTranslationValue(value: string) returns (r: string)
    ensures r == Join(CleanedTranslations(
                        Util.SplitOnSemicolons(Some(Util.DiscardTextInBrackets(value)))), "; ")
  {
    var stripped := Util.DiscardTextInBrackets(value);
    var translations := Util.SplitOnSemicolons(Some(stripped));
    var resultList := KeepTranslations(translations);
    r := Join(resultList, "; ");
  }

  // ----- Checking a gloss -----

  /** check_that_parts_fit: None when the joined parts, without spaces, are the word up to
      case, otherwise the error message. */
  function CheckThatPartsFit(word: string, parts: seq<string>, firstIsPrefix: bool,
                             lastIsSuffix: bool): (r: Option<string>)
    ensures r.None? <==> Lower(Replace(Concat(parts), " ", "")) == Lower(word)
  {
    var spacelessParts := Lower(Replace(Concat(parts), " ", ""));
    if spacelessParts != Lower(word) then
      Some("gloss doesn't correspond to word \"" + word + "\" (expected \"" + spacelessParts
           + "\")")
    else None
  }

  /** Parts that spell the word fit it. */
  lemma PartsOfWordFit(word: string, parts: seq<string>, firstIsPrefix: bool,
                       lastIsSuffix: bool)
    requires Concat(parts) == word && ' ' !in word
    ensures CheckThatPartsFit(word, parts, firstIsPrefix, lastIsSuffix) == None
  {
    ReplaceMissing(word, " ", "", ' ');
  }

  lemma ConcatOne(a: string)
    ensures Concat([a]) == a
  {
    assert [a][1..] == [];
  }

  lemma ConcatTwo(a: string, b: string)
    ensures Concat([a, b]) == a + b
  {
    assert [a, b][1..] == [b];
    ConcatOne(b);
  }

  /** Deleting spaces from a text with one more space in it. */
  lemma SpaceDeleted(a: string, b: string)
    ensures Replace(a + " " + b, " ", "") == Replace(a + b, " ", "")
  {
    assert a + " " + b == (a + " ") + b;
    ReplaceCharAppend(a + " ", b, ' ');
    ReplaceCharAppend(a, " ", ' ');
    ReplaceCharAppend(a, b, ' ');
    assert Replace(" ", " ", "") == "";
  }

  /** A space inside a part does not matter: "des sis" fits as well as "des" and "sis". */
  lemma SpaceInGlossIgnored(word: string, a: string, b: string, firstIsPrefix: bool,
                            lastIsSuffix: bool)
    ensures CheckThatPartsFit(word, [a + " " + b], firstIsPrefix, lastIsSuffix)
            == CheckThatPartsFit(word, [a, b], firstIsPrefix, lastIsSuffix)
  {
    ConcatOne(a + " " + b);
    ConcatTwo(a, b);
    SpaceDeleted(a, b);
  }

  lemma LowerIdempotent(s: string)
    ensures Lower(Lower(s)) == Lower(s)
  {
  }

  /** The word's case does not matter. */
  lemma FitIgnoresCase(word: string, parts: seq<string>, firstIsPrefix: bool,
                       lastIsSuffix: bool)
    ensures CheckThatPartsFit(Lower(word), parts, firstIsPrefix, lastIsSuffix).None?
            <==> CheckThatPartsFit(word, parts, firstIsPrefix, lastIsSuffix).None?
  {
    LowerIdempotent(word);
  }

  // ----- Choosing the candidate set to handle first -----

  /** Python's comparison of lists of strings: lexicographic, a proper prefix first. */
  predicate ListLess(a: seq<string>, b: seq<string>)
    decreases |a|
  {
    if |a| == 0 then |b| > 0
    else if |b| == 0 then false
    else if a[0] != b[0] then Less(a[0], b[0])
    else ListLess(a[1..], b[1..])
  }

  lemma {:induction false} ListLessIrreflexive(a: seq<string>)
    ensures !ListLess(a, a)
    decreases |a|
  {
    if |a| > 0 {
      ListLessIrreflexive(a[1..]);
    }
  }

  lemma {:induction false} ListLessTotal(a: seq<string>, b: seq<string>)
    ensures ListLess(a, b) || ListLess(b, a) || a == b
    ensures !(ListLess(a, b) && ListLess(b, a))
    decreases |a|
  {
    if |a| > 0 && |b| > 0 {
      if a[0] == b[0] {
        ListLessTotal(a[1..], b[1..]);
        assert a == [a[0]] + a[1..] && b == [b[0]] + b[1..];
      } else {
        LessTotal(a[0], b[0]);
      }
    }
  }

  lemma {:induction false} ListLessTransitive(a: seq<string>, b: seq<string>, c: seq<string>)
    requires ListLess(a, b) && ListLess(b, c)
    ensures ListLess(a, c)
    decreases |a|
  {
    if |a| > 0 && |b| > 0 && |c| > 0 {
      if a[0] == b[0] && b[0] == c[0] {
        ListLessTransitive(a[1..], b[1..], c[1..]);
      } else if a[0] != b[0] && b[0] != c[0] {
        LessTransitive(a[0], b[0], c[0]);
        LessIrreflexive(a[0]);
      }
    }
  }

  /** The position `min(enumerate(lists), key=itemgetter(1))` picks: its list is not
      greater than any other, and is smaller than every list before it. */
  function FirstMinimum(lists: seq<seq<string>>): (pos: nat)
    requires |lists| > 0
    ensures pos < |lists|
    ensures forall j :: 0 <= j < |lists| ==> !ListLess(lists[j], lists[pos])
    ensures forall j :: 0 <= j < pos ==> ListLess(lists[pos], lists[j])
  {
    if |lists| == 1 then
      ListLessIrreflexive(lists[0]);
      0
    else
      var n := |lists| - 1;
      var p := FirstMinimum(lists[..n]);
      assert forall j :: 0 <= j < n ==> lists[..n][j] == lists[j];
      if ListLess(lists[n], lists[p]) then
        assert forall j :: 0 <= j < n ==> ListLess(lists[n], lists[j]) by {
          forall j | 0 <= j < n
            ensures ListLess(lists[n], lists[j])
          {
            ListLessTotal(lists[j], lists[p]);
            if lists[j] != lists[p] {
              ListLessTransitive(lists[n], lists[p], lists[j]);
            }
          }
        }
        assert forall j :: 0 <= j <= n ==> !ListLess(lists[j], lists[n]) by {
          forall j | 0 <= j <= n
            ensures !ListLess(lists[j], lists[n])
          {
            ListLessTotal(lists[j], lists[n]);
          }
        }
        n
      else
        assert !ListLess(lists[n], lists[p]);
        p
  }

  /** The "word/lang" label of a candidate, with the word in its external form. */
  function Label(c: Candidate): string
    reads c
  {
    Phonology.Exported(c.word) + "/" + c.lang
  }

  /** The labels of the first n candidates. */
  function LabelsUpTo(cands: seq<Candidate>, n: nat): (labels: seq<string>)
    requires n <= |cands|
    reads cands
    ensures |labels| == n
  {
    if n == 0 then [] else LabelsUpTo(cands, n - 1) + [Label(cands[n - 1])]
  }

  /** The label of each candidate. */
  function Labels(cands: seq<Candidate>): seq<string>
    reads cands
  {
    LabelsUpTo(cands, |cands|)
  }

  /** The labels of a candidate set, sorted. */
  function SortedLabels(cands: seq<Candidate>): seq<string>
    reads cands
  {
    SortStrings(Labels(cands))
  }

  /** The sorted labels of each candidate set: the loop that builds `list_of_cand_lists`. */
  method SortedLabelLists(candDictList: seq<seq<Candidate>>) returns (lists: seq<seq<string>>)
    ensures |lists| == |candDictList|
    ensures forall j :: 0 <= j < |lists| ==> lists[j] == SortedLabels(candDictList[j])
  {
    lists := [];
    for i := 0 to |candDictList|
      invariant |lists| == i
      invariant forall j :: 0 <= j < i ==> lists[j] == SortedLabels(candDictList[j])
    {
      var cands := candDictList[i];
      var candList := [];
      for k := 0 to |cands|
        invariant candList == LabelsUpTo(cands, k)
      {
        candList := candList + [Phonology.Exported(cands[k].word) + "/" + cands[k].lang];
      }
      lists := lists + [SortStrings(candList)];
    }
  }

  /** The position of the candidate set whose sorted labels come first, and the first
      such one. */
  method FirstLabelledPosition(candDictList: seq<seq<Candidate>>) returns (pos: nat)
    requires |candDictList| > 0
    ensures pos < |candDictList|
    ensures forall j :: 0 <= j < |candDictList| ==>
              !ListLess(SortedLabels(candDictList[j]), SortedLabels(candDictList[pos]))
    ensures forall j :: 0 <= j < pos ==>
              ListLess(SortedLabels(candDictList[pos]), SortedLabels(candDictList[j]))
  {
    var lists := SortedLabelLists(candDictList);
    pos := FirstMinimum(lists);
  }

  /** select_cand_dict_to_handle_first: the position of the candidate set (and so of the
      entry) to handle first, the one whose sorted labels come first; a length mismatch and
      an empty list are ValueErrors. A candidate dictionary is given as the candidates of
      all its lists in order. */
  method SelectCandDictToHandleFirst(candDictList: seq<seq<Candidate>>, entries: seq<Dict>)
    returns (r: Result<nat>)
    ensures r.Ok? <==> |candDictList| == |entries| && |entries| > 0
    ensures r.Ok? ==> r.value < |entries|
    ensures r.Ok? ==> forall j :: 0 <= j < |candDictList| ==>
              !ListLess(SortedLabels(candDictList[j]), SortedLabels(candDictList[r.value]))
    ensures r.Ok? ==> forall j :: 0 <= j < r.value ==>
              ListLess(SortedLabels(candDictList[r.value]), SortedLabels(candDictList[j]))
  {
    if |candDictList| != |entries| {
      return Err("ValueError: both arguments must have the same number of elements");
    }
    if |candDictList| == 1 {
      ListLessIrreflexive(SortedLabels(candDictList[0]));
      return Ok(0);
    }
    if |candDictList| == 0 {
      return Err("ValueError: min() arg is an empty sequence");
    }
    var pos := FirstLabelledPosition(candDictList);
    r := Ok(pos);
  }
}
