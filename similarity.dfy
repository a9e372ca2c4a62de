// Similarity of candidate words (VocBuilder.calc_distance, calc_sim_penalties and
// store_normalized_sim_penalties in scripts/buildvoc.py): an edit distance between two
// words, a test whether they are related, per-language minimum distances, and their
// normalisation into a similarity score.
module Similarity {
  import opened Text
  import opened Phonology
  import opened Candidates

  function Min3(a: nat, b: nat, c: nat): (r: nat)
    ensures r <= a && r <= b && r <= c && (r == a || r == b || r == c)
  {
    if a <= b && a <= c then a else if b <= c then b else c
  }

  function Max(a: nat, b: nat): nat { if a >= b then a else b }

  /** The Levenshtein distance: the fewest insertions, deletions and substitutions of single
      characters that turn `a` into `b`. */
  function EditDistance(a: string, b: string): nat
    decreases |a| + |b|
  {
    if |a| == 0 then |b|
    else if |b| == 0 then |a|
    else
      var m := |a| - 1;
      var n := |b| - 1;
      Min3(EditDistance(a[..m], b) + 1, EditDistance(a, b[..n]) + 1,
           EditDistance(a[..m], b[..n]) + (if a[m] == b[n] then 0 else 1))
  }

  /** The distance does not depend on the order of the arguments. */
  lemma {:induction false} EditDistanceSymmetric(a: string, b: string)
    ensures EditDistance(a, b) == EditDistance(b, a)
    decreases |a| + |b|
  {
    if |a| > 0 && |b| > 0 {
      var m := |a| - 1;
      var n := |b| - 1;
      EditDistanceSymmetric(a[..m], b);
      EditDistanceSymmetric(a, b[..n]);
      EditDistanceSymmetric(a[..m], b[..n]);
    }
  }

  /** The distance is at most the longer length. */
  lemma {:induction false} EditDistanceAtMostLonger(a: string, b: string)
    ensures EditDistance(a, b) <= Max(|a|, |b|)
    decreases |a| + |b|
  {
    if |a| > 0 && |b| > 0 {
      EditDistanceAtMostLonger(a[..|a| - 1], b[..|b| - 1]);
    }
  }

  /** The distance is at least the difference of the lengths. */
  lemma {:induction false} EditDistanceAtLeastDifference(a: string, b: string)
    ensures |a| <= EditDistance(a, b) + |b| && |b| <= EditDistance(a, b) + |a|
    decreases |a| + |b|
  {
    if |a| > 0 && |b| > 0 {
      var m := |a| - 1;
      var n := |b| - 1;
      EditDistanceAtLeastDifference(a[..m], b);
      EditDistanceAtLeastDifference(a, b[..n]);
      EditDistanceAtLeastDifference(a[..m], b[..n]);
    }
  }

  /** A word is at distance 0 from itself. */
  lemma {:induction false} EditDistanceSelf(a: string)
    ensures EditDistance(a, a) == 0
    decreases |a|
  {
    if |a| > 0 {
      EditDistanceSelf(a[..|a| - 1]);
    }
  }

  /** Both words start with a filler 'ə'. */
  predicate SharedLeadingFiller(word: string, other: string)
  {
    |word| > 0 && |other| > 0 && word[0] == 'ə' && other[0] == 'ə'
  }

  /** Both words end with a filler 'ə'. */
  predicate SharedTrailingFiller(word: string, other: string)
  {
    |word| > 0 && |other| > 0 && word[|word| - 1] == 'ə' && other[|other| - 1] == 'ə'
  }

  /** The two words without the filler vowels they share at the start, then at the end. */
  function StripFillers(word: string, other: string): (r: (string, string))
    ensures !SharedLeadingFiller(r.0, r.1) && !SharedTrailingFiller(r.0, r.1)
    ensures |word| - |r.0| == |other| - |r.1| >= 0
    decreases |word|
  {
    if SharedLeadingFiller(word, other) then StripFillers(word[1..], other[1..])
    else if SharedTrailingFiller(word, other) then StripFillers(word[..|word| - 1], other[..|other| - 1])
    else (word, other)
  }

  lemma {:induction false} StripFillersSymmetric(word: string, other: string)
    ensures StripFillers(other, word) == (StripFillers(word, other).1, StripFillers(word, other).0)
    decreases |word|
  {
    if SharedLeadingFiller(word, other) {
      StripFillersSymmetric(word[1..], other[1..]);
    } else if SharedTrailingFiller(word, other) {
      StripFillersSymmetric(word[..|word| - 1], other[..|other| - 1]);
    }
  }

  lemma {:induction false} StripFillersSame(word: string)
    ensures StripFillers(word, word).0 == StripFillers(word, word).1
    decreases |word|
  {
    if SharedLeadingFiller(word, word) {
      StripFillersSame(word[1..]);
    } else if SharedTrailingFiller(word, word) {
      StripFillersSame(word[..|word| - 1]);
    }
  }

  /** calc_distance divides by the longer length once the shared fillers are gone, so the
      stripped words must not both be empty. */
  predicate Comparable(word: string, other: string)
  {
    |StripFillers(word, other).0| + |StripFillers(word, other).1| > 0
  }

  /** The consonants of a word, with 'N' counted as 'n'. */
  function ConsonantSet(w: string): set<char>
  {
    set c | c in Replace(w, "N", "n") && c in AllConsonants
  }

  /** The shorter and the longer word; the second word counts as the shorter one when the
      lengths are equal. */
  function ShorterLonger(w: string, o: string): (string, string)
  {
    if |w| < |o| then (w, o) else (o, w)
  }

  /** The comparison proper, on words without shared outer fillers: the edit distance, and
      whether the words are related. They are when the distance is at most half the longer
      length, or the shorter word (of 2 letters at least) starts or ends the longer one; and
      then only if they share a consonant whenever both have one. */
  function Compare(w: string, o: string): (nat, bool)
  {
    var edist := EditDistance(w, o);
    var close := 2 * edist <= Max(|w|, |o|);
    var shorter := ShorterLonger(w, o).0;
    var longer := ShorterLonger(w, o).1;
    var affix := |shorter| >= 2 && (shorter <= longer || EndsWith(longer, shorter));
    var wc := ConsonantSet(w);
    var oc := ConsonantSet(o);
    (edist, (close || affix) && (wc == {} || oc == {} || wc * oc != {}))
  }

  /** calc_distance: shared leading, then trailing, fillers are stripped one at a time, the
      arguments are put in alphabetical order, and the ordered pair is compared. */
  function CalcDistance(word: string, other: string): (nat, bool)
    requires Comparable(word, other)
    decreases |word| + |other|, if Less(other, word) then 1 else 0
  {
    if SharedLeadingFiller(word, other) then CalcDistance(word[1..], other[1..])
    else if SharedTrailingFiller(word, other) then CalcDistance(word[..|word| - 1], other[..|other| - 1])
    else if Less(other, word) then
      LessTotal(word, other);
      CalcDistance(other, word)
    else Compare(word, other)
  }

  /** calc_distance compares the stripped words in alphabetical order. */
  lemma {:induction false} CalcDistanceCompares(word: string, other: string)
    requires Comparable(word, other)
    ensures var p := StripFillers(word, other);
      CalcDistance(word, other) == if Less(p.1, p.0) then Compare(p.1, p.0) else Compare(p.0, p.1)
    decreases |word| + |other|
  {
    if SharedLeadingFiller(word, other) {
      CalcDistanceCompares(word[1..], other[1..]);
    } else if SharedTrailingFiller(word, other) {
      CalcDistanceCompares(word[..|word| - 1], other[..|other| - 1]);
    } else if Less(other, word) {
      LessTotal(word, other);
      assert StripFillers(other, word) == (other, word);
      assert !SharedLeadingFiller(other, word) && !SharedTrailingFiller(other, word);
    }
  }

  /** calc_distance is symmetric. */
  lemma CalcDistanceSymmetric(word: string, other: string)
    requires Comparable(word, other)
    ensures Comparable(other, word)
    ensures CalcDistance(word, other) == CalcDistance(other, word)
  {
    StripFillersSymmetric(word, other);
    var p := StripFillers(word, other);
    LessTotal(p.0, p.1);
    CalcDistanceCompares(word, other);
    CalcDistanceCompares(other, word);
  }

  /** The distance is at most the length of the longer word. */
  lemma CalcDistanceBound(word: string, other: string)
    requires Comparable(word, other)
    ensures CalcDistance(word, other).0 <= Max(|word|, |other|)
  {
    CalcDistanceCompares(word, other);
    var p := StripFillers(word, other);
    EditDistanceAtMostLonger(p.0, p.1);
    EditDistanceAtMostLonger(p.1, p.0);
  }

  /** A word is at distance 0 from itself and related to itself. */
  lemma CalcDistanceSelf(word: string)
    requires Comparable(word, word)
    ensures CalcDistance(word, word) == (0, true)
  {
    CalcDistanceCompares(word, word);
    StripFillersSame(word);
    var p := StripFillers(word, word);
    LessIrreflexive(p.0);
    EditDistanceSelf(p.0);
    var wc := ConsonantSet(p.0);
    assert wc * wc == wc;
  }

  /** The comparison does not depend on the order of the words: the edit distance is
      symmetric, and for words of equal length either being a prefix or suffix of the
      other makes them equal. */
  lemma CompareSymmetric(w: string, o: string)
    ensures Compare(w, o) == Compare(o, w)
  {
    EditDistanceSymmetric(w, o);
    if |w| == |o| {
      assert o <= w ==> o == w;
      assert w <= o ==> w == o;
      assert EndsWith(w, o) ==> o == w;
      assert EndsWith(o, w) ==> w == o;
    }
  }

  /** Closeness or a shared affix is not enough: two words that both have consonants are
      related only when they share one ('N' counting as 'n'). */
  lemma CompareNeedsSharedConsonant(w: string, o: string)
    requires ConsonantSet(w) != {} && ConsonantSet(o) != {}
    ensures Compare(w, o).1 ==> ConsonantSet(w) * ConsonantSet(o) != {}
    ensures 2 * Compare(w, o).0 <= Max(|w|, |o|) && ConsonantSet(w) * ConsonantSet(o) != {}
            ==> Compare(w, o).1
  {
  }

  /** The distance table of "kub" against the prefixes of "sab", one row per lemma. */
  lemma KubSabRowK()
    ensures EditDistance("k", "s") == 1 && EditDistance("k", "sa") == 2 && EditDistance("k", "sab") == 3
  {
    assert "k"[..0] == [] && "s"[..0] == [] && "sa"[..1] == "s" && "sab"[..2] == "sa";
    assert EditDistance("k", "s") == 1;
    assert EditDistance("k", "sa") == 2;
  }

  lemma KubSabRowKu()
    ensures EditDistance("ku", "s") == 2 && EditDistance("ku", "sa") == 2 && EditDistance("ku", "sab") == 3
  {
    KubSabRowK();
    assert "ku"[..1] == "k" && "s"[..0] == [] && "sa"[..1] == "s" && "sab"[..2] == "sa";
    assert EditDistance("ku", "s") == 2;
    assert EditDistance("ku", "sa") == 2;
  }

  lemma KubSabDistance()
    ensures EditDistance("kub", "sab") == 2
  {
    KubSabRowKu();
    assert "kub"[..2] == "ku" && "s"[..0] == [] && "sa"[..1] == "s" && "sab"[..2] == "sa";
    assert EditDistance("kub", "s") == 3;
    assert EditDistance("kub", "sa") == 3;
  }

  /** "kubə" and "sabə" share only the final filler: they are compared as "kub" and "sab",
      at distance 2, and are not related. */
  lemma FillerAloneDoesNotRelate()
    ensures Comparable("kubə", "sabə")
    ensures CalcDistance("kubə", "sabə") == (2, false)
  {
    KubSabStripped();
    assert Less("kub", "sab");
    CalcDistanceCompares("kubə", "sabə");
    KubSabCompare();
  }

  lemma KubSabStripped()
    ensures StripFillers("kubə", "sabə") == ("kub", "sab")
  {
    assert "kubə"[..3] == "kub" && "sabə"[..3] == "sab";
    assert StripFillers("kub", "sab") == ("kub", "sab");
  }

  lemma KubSabCompare()
    ensures Compare("kub", "sab") == (2, false)
  {
    KubSabDistance();
    assert !("sab" <= "kub") && !EndsWith("kub", "sab");
  }

  // ----- Raw similarity penalties (calc_sim_penalties) -----

  /** The smallest distance from `word` to any of `others`, and 1000 when that is smaller
      (the start value of `min_dist`). */
  function MinDist(word: string, others: seq<string>): (d: nat)
    requires forall k :: 0 <= k < |others| ==> Comparable(word, others[k])
    ensures d <= 1000
    ensures forall k :: 0 <= k < |others| ==> d <= CalcDistance(word, others[k]).0
    ensures d == 1000 || exists k :: 0 <= k < |others| && d == CalcDistance(word, others[k]).0
  {
    if |others| == 0 then 1000
    else
      var n := |others| - 1;
      var d := MinDist(word, others[..n]);
      var e := CalcDistance(word, others[n]).0;
      assert forall k :: 0 <= k < n ==> others[..n][k] == others[k];
      if e < d then e else d
  }

  lemma MinDistSnoc(word: string, others: seq<string>, k: nat)
    requires k < |others| && forall i :: 0 <= i < |others| ==> Comparable(word, others[i])
    ensures MinDist(word, others[..k + 1])
            == if CalcDistance(word, others[k]).0 < MinDist(word, others[..k])
               then CalcDistance(word, others[k]).0 else MinDist(word, others[..k])
  {
    assert others[..k + 1][..k] == others[..k];
  }

  /** The lists of other languages that count: not the candidate's own language, not the
      pseudo-language "", and not empty. */
  predicate Eligible(l: string, lang: string, words: map<string, seq<string>>)
  {
    l != lang && l != "" && l in words && |words[l]| > 0
  }

  /** `word` can be compared with every word of every eligible list. */
  predicate ComparableWith(word: string, lang: string, langs: seq<string>, words: map<string, seq<string>>)
  {
    forall j, k :: 0 <= j < |langs| && Eligible(langs[j], lang, words) && 0 <= k < |words[langs[j]]|
      ==> Comparable(word, words[langs[j]][k])
  }

  /** The raw similarity penalty of `word`: the sum, over the eligible lists in `langs`, of
      the minimum distance to that list. */
  function SimPenalty(word: string, lang: string, langs: seq<string>, words: map<string, seq<string>>): (r: nat)
    requires ComparableWith(word, lang, langs, words)
    ensures r <= 1000 * |langs|
  {
    if |langs| == 0 then 0
    else
      var n := |langs| - 1;
      var l := langs[n];
      SimPenalty(word, lang, langs[..n], words) + (if Eligible(l, lang, words) then MinDist(word, words[l]) else 0)
  }

  /** The candidates of `others` related to `word`, in order (`words` are their words). */
  function RelatedOf(word: string, others: seq<Candidate>, words: seq<string>): (r: seq<Candidate>)
    requires |words| == |others|
    requires forall k :: 0 <= k < |words| ==> Comparable(word, words[k])
    ensures |r| <= |others|
    ensures forall c :: c in r ==> c in others
  {
    if |others| == 0 then []
    else
      var n := |others| - 1;
      RelatedOf(word, others[..n], words[..n]) + (if CalcDistance(word, words[n]).1 then [others[n]] else [])
  }

  lemma RelatedOfSnoc(word: string, others: seq<Candidate>, words: seq<string>, k: nat)
    requires |words| == |others| && k < |others|
    requires forall i :: 0 <= i < |words| ==> Comparable(word, words[i])
    ensures RelatedOf(word, others[..k + 1], words[..k + 1])
            == RelatedOf(word, others[..k], words[..k]) + (if CalcDistance(word, words[k]).1 then [others[k]] else [])
  {
    assert others[..k + 1][..k] == others[..k] && words[..k + 1][..k] == words[..k];
  }

  /** `related_cands` after appending `rel` to the list of `l`; the defaultdict gets the key
      only when something is appended. */
  function AddRelated(rc: map<string, seq<Candidate>>, l: string, rel: seq<Candidate>): map<string, seq<Candidate>>
  {
    if |rel| == 0 then rc else rc[l := (if l in rc then rc[l] else []) + rel]
  }

  /** Each list in `candidates` has its words in `words`. */
  predicate WordsMatch(candidates: map<string, seq<Candidate>>, words: map<string, seq<string>>)
  {
    forall l :: l in candidates ==> l in words && |words[l]| == |candidates[l]|
  }

  /** `related_cands` after the related candidates of every eligible list in `langs` have
      been appended, language by language. */
  function RelatedAll(rc: map<string, seq<Candidate>>, word: string, lang: string, langs: seq<string>,
                      candidates: map<string, seq<Candidate>>, words: map<string, seq<string>>)
    : (r: map<string, seq<Candidate>>)
    requires ComparableWith(word, lang, langs, words) && WordsMatch(candidates, words)
    requires forall j :: 0 <= j < |langs| ==> langs[j] in candidates
    ensures forall l :: l in r ==> l in rc || l in langs
    ensures forall l :: l in rc ==> l in r
    ensures forall l :: l in rc && l !in langs ==> r[l] == rc[l]
  {
    if |langs| == 0 then rc
    else
      var n := |langs| - 1;
      var l := langs[n];
      var before := RelatedAll(rc, word, lang, langs[..n], candidates, words);
      if Eligible(l, lang, words) then AddRelated(before, l, RelatedOf(word, candidates[l], words[l]))
      else before
  }

  lemma AddRelatedSnoc(rc: map<string, seq<Candidate>>, l: string, rel: seq<Candidate>, x: Candidate)
    ensures AddRelated(rc, l, rel + [x]) == AddRelated(AddRelated(rc, l, rel), l, [x])
  {
    var base := if l in rc then rc[l] else [];
    if |rel| == 0 {
      assert rel + [x] == [x];
    } else {
      assert (base + rel) + [x] == base + (rel + [x]);
    }
  }

  /** The candidates of all lists. */
  function AllCands(candidates: map<string, seq<Candidate>>): set<Candidate>
  {
    set l, i | l in candidates && 0 <= i < |candidates[l]| :: candidates[l][i]
  }

  function WordsOf(cs: seq<Candidate>): (ws: seq<string>)
    reads (set i | 0 <= i < |cs| :: cs[i])`word
    ensures |ws| == |cs| && forall i :: 0 <= i < |cs| ==> ws[i] == cs[i].word
  {
    if |cs| == 0 then [] else WordsOf(cs[..|cs| - 1]) + [cs[|cs| - 1].word]
  }

  /** The words of every list. */
  function WordMap(candidates: map<string, seq<Candidate>>): (w: map<string, seq<string>>)
    reads AllCands(candidates)`word
    ensures WordsMatch(candidates, w) && w.Keys == candidates.Keys
    ensures forall l, k :: l in candidates && 0 <= k < |candidates[l]| ==> w[l][k] == candidates[l][k].word
  {
    map l | l in candidates :: WordsOf(candidates[l])
  }

  /** The candidates of a list, as a set. */
  function Members(cs: seq<Candidate>): set<Candidate>
  {
    set c | c in cs
  }

  /** calc_sim_penalties: every candidate of language `lang` gets as `rawPsim` its summed
      minimum distances to the other eligible lists, and each related candidate is appended
      to `related_cands` under its language; nothing else changes. `langs` are the keys of
      `candidates` in their order. */
  method CalcSimPenalties(lang: string, langs: seq<string>, candidates: map<string, seq<Candidate>>)
    requires lang in candidates
    requires forall l :: l in candidates <==> l in langs
    requires forall j, j' :: 0 <= j < j' < |langs| ==> langs[j] != langs[j']
    requires forall i, i' :: 0 <= i < i' < |candidates[lang]| ==> candidates[lang][i] != candidates[lang][i']
    requires forall i :: 0 <= i < |candidates[lang]| ==>
      ComparableWith(candidates[lang][i].word, lang, langs, WordMap(candidates))
    modifies Members(candidates[lang])`rawPsim, Members(candidates[lang])`relatedCands
    ensures forall i :: 0 <= i < |candidates[lang]| ==>
      Scored(candidates[lang][i], old(candidates[lang][i].relatedCands), lang, langs, candidates,
             old(WordMap(candidates)))
  {
    var myCands := candidates[lang];
    var n := |myCands|;
    ghost var words := WordMap(candidates);
    ghost var before := RelatedOfEach(myCands);
    ghost var mine := words[lang];
    ghost var psim := Penalties(mine, lang, langs, words);
    ghost var rel := RelatedEach(before, mine, lang, langs, candidates, words);
    ScoreAll(myCands, lang, langs, candidates, words, before, psim, rel);
  }

  /** The outer loop of calc_sim_penalties: each candidate of `myCands` gets its penalty
      `psim[i]` and its related candidates `rel[i]`. */
  method ScoreAll(myCands: seq<Candidate>, lang: string, langs: seq<string>,
                  candidates: map<string, seq<Candidate>>, ghost words: map<string, seq<string>>,
                  ghost before: seq<map<string, seq<Candidate>>>, ghost psim: seq<nat>,
                  ghost rel: seq<map<string, seq<Candidate>>>)
    requires |before| == |psim| == |rel| == |myCands|
    requires forall i, i' :: 0 <= i < i' < |myCands| ==> myCands[i] != myCands[i']
    requires WordsMatch(candidates, words) && forall l :: l in langs ==> l in candidates
    requires forall l, k :: l in candidates && 0 <= k < |candidates[l]| ==> candidates[l][k].word == words[l][k]
    requires forall i :: 0 <= i < |myCands| ==> myCands[i].relatedCands == before[i]
    requires forall i :: 0 <= i < |myCands| ==>
      ComparableWith(myCands[i].word, lang, langs, words)
      && psim[i] == SimPenalty(myCands[i].word, lang, langs, words)
      && rel[i] == RelatedAll(before[i], myCands[i].word, lang, langs, candidates, words)
    modifies Members(myCands)`rawPsim, Members(myCands)`relatedCands
    ensures forall i :: 0 <= i < |myCands| ==> myCands[i].rawPsim == psim[i] && myCands[i].relatedCands == rel[i]
  {
    for i := 0 to |myCands|
      invariant forall i' :: 0 <= i' < i ==> myCands[i'].rawPsim == psim[i'] && myCands[i'].relatedCands == rel[i']
      invariant forall i' :: i <= i' < |myCands| ==> myCands[i'].relatedCands == before[i']
    {
      var cand := myCands[i];
      ScoreOne(cand, cand.word, lang, langs, candidates, words, psim[i], rel[i]);
      forall i' | 0 <= i' < i + 1
        ensures myCands[i'].rawPsim == psim[i'] && myCands[i'].relatedCands == rel[i']
      {
        if i' < i {
          assert myCands[i'] != cand;
        }
      }
    }
  }

  /** The raw penalty of each of `ws`. */
  ghost function Penalties(ws: seq<string>, lang: string, langs: seq<string>, words: map<string, seq<string>>)
    : (r: seq<nat>)
    requires forall i :: 0 <= i < |ws| ==> ComparableWith(ws[i], lang, langs, words)
    ensures |r| == |ws| && forall i :: 0 <= i < |ws| ==> r[i] == SimPenalty(ws[i], lang, langs, words)
  {
    if |ws| == 0 then []
    else Penalties(ws[..|ws| - 1], lang, langs, words) + [SimPenalty(ws[|ws| - 1], lang, langs, words)]
  }

  /** The `related_cands` each of `ws` ends with, when they were `rcs` before. */
  ghost function RelatedEach(rcs: seq<map<string, seq<Candidate>>>, ws: seq<string>, lang: string, langs: seq<string>,
                             candidates: map<string, seq<Candidate>>, words: map<string, seq<string>>)
    : (r: seq<map<string, seq<Candidate>>>)
    requires |rcs| == |ws| && WordsMatch(candidates, words) && forall l :: l in langs ==> l in candidates
    requires forall i :: 0 <= i < |ws| ==> ComparableWith(ws[i], lang, langs, words)
    ensures |r| == |ws|
    ensures forall i :: 0 <= i < |ws| ==> r[i] == RelatedAll(rcs[i], ws[i], lang, langs, candidates, words)
  {
    if |ws| == 0 then []
    else
      var n := |ws| - 1;
      RelatedEach(rcs[..n], ws[..n], lang, langs, candidates, words)
      + [RelatedAll(rcs[n], ws[n], lang, langs, candidates, words)]
  }

  /** The `related_cands` of each candidate. */
  ghost function RelatedOfEach(cs: seq<Candidate>): (r: seq<map<string, seq<Candidate>>>)
    reads (set i | 0 <= i < |cs| :: cs[i])`relatedCands
    ensures |r| == |cs| && forall i :: 0 <= i < |cs| ==> r[i] == cs[i].relatedCands
  {
    if |cs| == 0 then [] else RelatedOfEach(cs[..|cs| - 1]) + [cs[|cs| - 1].relatedCands]
  }

  /** `c` has the similarity data calc_sim_penalties gives it, when its `related_cands` were
      `rc` before and the lists of `candidates` have the words `words`. */
  ghost predicate Scored(c: Candidate, rc: map<string, seq<Candidate>>, lang: string, langs: seq<string>,
                         candidates: map<string, seq<Candidate>>, words: map<string, seq<string>>)
    reads c`word, c`rawPsim, c`relatedCands
  {
    WordsMatch(candidates, words)
    && ComparableWith(c.word, lang, langs, words)
    && (forall j :: 0 <= j < |langs| ==> langs[j] in candidates)
    && c.rawPsim == SimPenalty(c.word, lang, langs, words)
    && c.relatedCands == RelatedAll(rc, c.word, lang, langs, candidates, words)
  }

  /** The body of the outer loop: the candidate `cand`, whose word is `word`, gets the
      penalty `pen` and the related candidates `rel` that calc_sim_penalties gives it. */
  method ScoreOne(cand: Candidate, word: string, lang: string, langs: seq<string>,
                  candidates: map<string, seq<Candidate>>, ghost words: map<string, seq<string>>,
                  ghost pen: nat, ghost rel: map<string, seq<Candidate>>)
    requires WordsMatch(candidates, words) && forall l :: l in langs ==> l in candidates
    requires forall l, k :: l in candidates && 0 <= k < |candidates[l]| ==> candidates[l][k].word == words[l][k]
    requires cand.word == word && ComparableWith(word, lang, langs, words)
    requires pen == SimPenalty(word, lang, langs, words)
    requires rel == RelatedAll(cand.relatedCands, word, lang, langs, candidates, words)
    modifies cand`rawPsim, cand`relatedCands
    ensures cand.rawPsim == pen && cand.relatedCands == rel
  {
    var p := PenaltyOf(cand, word, lang, langs, candidates, words);
    cand.rawPsim := p;
  }

  /** One turn of the outer loop, for `cand`, whose word is `word`: the penalty, with the
      related candidates appended as they are found. */
  method PenaltyOf(cand: Candidate, word: string, lang: string, langs: seq<string>,
                   candidates: map<string, seq<Candidate>>, ghost words: map<string, seq<string>>)
    returns (pen: nat)
    requires WordsMatch(candidates, words) && forall l :: l in langs ==> l in candidates
    requires forall l, k :: l in candidates && 0 <= k < |candidates[l]| ==> candidates[l][k].word == words[l][k]
    requires cand.word == word && ComparableWith(word, lang, langs, words)
    modifies cand`relatedCands
    ensures pen == SimPenalty(word, lang, langs, words)
    ensures cand.relatedCands == RelatedAll(old(cand.relatedCands), word, lang, langs, candidates, words)
  {
    ghost var rc0 := cand.relatedCands;
    pen := 0;
    for j := 0 to |langs|
      invariant pen == SimPenalty(word, lang, langs[..j], words)
      invariant cand.relatedCands == RelatedAll(rc0, word, lang, langs[..j], candidates, words)
    {
      assert langs[..j + 1][..j] == langs[..j];
      var otherLang := langs[j];
      if otherLang != lang && otherLang != "" && |candidates[otherLang]| > 0 {
        var minDist := MinDistTo(cand, word, candidates[otherLang], otherLang, words[otherLang]);
        pen := pen + minDist;
      }
    }
    assert langs[..|langs|] == langs;
  }

  /** The innermost loop: the minimum distance from `word` to the list of `otherLang`,
      appending the related candidates of that list to `cand.relatedCands`. */
  method MinDistTo(cand: Candidate, word: string, others: seq<Candidate>, otherLang: string,
                   ghost otherWords: seq<string>)
    returns (minDist: nat)
    requires |otherWords| == |others| && forall k :: 0 <= k < |others| ==> others[k].word == otherWords[k]
    requires forall k :: 0 <= k < |otherWords| ==> Comparable(word, otherWords[k])
    modifies cand`relatedCands
    ensures minDist == MinDist(word, otherWords)
    ensures cand.relatedCands == AddRelated(old(cand.relatedCands), otherLang, RelatedOf(word, others, otherWords))
  {
    minDist := 1000;
    for k := 0 to |others|
      invariant minDist == MinDist(word, otherWords[..k])
      invariant cand.relatedCands == AddRelated(old(cand.relatedCands), otherLang, RelatedOf(word, others[..k], otherWords[..k]))
    {
      MinDistSnoc(word, otherWords, k);
      RelatedOfSnoc(word, others, otherWords, k);
      ghost var rel := RelatedOf(word, others[..k], otherWords[..k]);
      var distRelated := CalcDistance(word, others[k].word);
      if distRelated.0 < minDist {
        minDist := distRelated.0;
      }
      if distRelated.1 {
        AddRelatedSnoc(old(cand.relatedCands), otherLang, rel, others[k]);
        cand.relatedCands := cand.relatedCands[otherLang :=
          (if otherLang in cand.relatedCands then cand.relatedCands[otherLang] else []) + [others[k]]];
      } else {
        assert rel + [] == rel;
      }
    }
    assert otherWords[..|others|] == otherWords && others[..|others|] == others;
  }

  // ----- Normalised similarity scores (store_normalized_sim_penalties) -----

  /** The candidates shown, list by list in the order of `langs`: the non-empty lists, less
      the language-less one of the word mode. */
  function Shown(langs: seq<string>, candidates: map<string, seq<Candidate>>, wordMode: bool): (r: seq<Candidate>)
    requires forall j :: 0 <= j < |langs| ==> langs[j] in candidates
    reads AllCands(candidates)`lang
    ensures forall c :: c in r ==> exists j :: 0 <= j < |langs| && c in candidates[langs[j]]
  {
    if |langs| == 0 then []
    else
      var n := |langs| - 1;
      var cs := candidates[langs[n]];
      assert forall c :: c in cs ==> c in AllCands(candidates);
      Shown(langs[..n], candidates, wordMode) + (if |cs| > 0 && (cs[0].lang != "" || !wordMode) then cs else [])
  }

  /** The lowest raw penalty among `cs`. */
  function MinPsim(cs: seq<Candidate>): (r: int)
    requires |cs| > 0
    reads Members(cs)`rawPsim
    ensures forall i :: 0 <= i < |cs| ==> r <= cs[i].rawPsim
    ensures exists i :: 0 <= i < |cs| && cs[i].rawPsim == r
  {
    if |cs| == 1 then cs[0].rawPsim
    else
      var m := MinPsim(cs[1..]);
      assert forall i :: 1 <= i < |cs| ==> cs[1..][i - 1] == cs[i];
      if cs[0].rawPsim < m then cs[0].rawPsim else m
  }

  /** The highest raw penalty among `cs`. */
  function MaxPsim(cs: seq<Candidate>): (r: int)
    requires |cs| > 0
    reads Members(cs)`rawPsim
    ensures forall i :: 0 <= i < |cs| ==> cs[i].rawPsim <= r
    ensures exists i :: 0 <= i < |cs| && cs[i].rawPsim == r
  {
    if |cs| == 1 then cs[0].rawPsim
    else
      var m := MaxPsim(cs[1..]);
      assert forall i :: 1 <= i < |cs| ==> cs[1..][i - 1] == cs[i];
      if cs[0].rawPsim > m then cs[0].rawPsim else m
  }

  /** The similarity score of raw penalty `raw` in the range `lo..hi`: the penalty inverted
      and scaled, and 1 when all penalties are the same. */
  function Normalized(raw: int, lo: int, hi: int): real
  {
    var diff := hi - lo;
    if diff != 0 then (lo - raw) as real / diff as real + 1.0 else 1.0
  }

  /** Scores lie between 0 and 1; the lowest penalty scores 1 and the highest 0. */
  lemma NormalizedRange(raw: int, lo: int, hi: int)
    requires lo <= raw <= hi
    ensures 0.0 <= Normalized(raw, lo, hi) <= 1.0
    ensures raw == lo ==> Normalized(raw, lo, hi) == 1.0
    ensures raw == hi && lo < hi ==> Normalized(raw, lo, hi) == 0.0
  {
    if lo < hi {
      var d := (hi - lo) as real;
      var x := (raw - lo) as real;
      assert 0.0 <= x <= d;
      assert x / d <= 1.0 by {
        assert x / d * d == x;
      }
      assert (lo - raw) as real / d == -(x / d);
    }
  }

  /** A lower penalty never scores lower. */
  lemma NormalizedAntitone(raw: int, raw': int, lo: int, hi: int)
    requires lo <= hi && raw <= raw'
    ensures Normalized(raw', lo, hi) <= Normalized(raw, lo, hi)
  {
    if lo < hi {
      var d := (hi - lo) as real;
      assert (lo - raw') as real / d <= (lo - raw) as real / d by {
        assert (lo - raw') as real / d * d == (lo - raw') as real;
        assert (lo - raw) as real / d * d == (lo - raw) as real;
      }
    }
  }

  /** store_normalized_sim_penalties: gathers the shown candidates and gives each the score of
      its raw penalty within the range of all of them; nothing but the scores changes. */
  method StoreNormalizedSimPenalties(langs: seq<string>, candidates: map<string, seq<Candidate>>, wordMode: bool)
    returns (result: seq<Candidate>)
    requires forall j :: 0 <= j < |langs| ==> langs[j] in candidates
    modifies AllCands(candidates)`simscore
    ensures result == Shown(langs, candidates, wordMode)
    ensures NormalizedScores(result)
    ensures forall c :: c in AllCands(candidates) && c !in result ==> c.simscore == old(c.simscore)
  {
    result := GatherShown(langs, candidates, wordMode);
    Normalize(result, candidates);
  }

  /** The scores of `cs` are their raw penalties normalised to the range of all of them: each
      between 0 and 1, and a lower penalty never scoring lower. */
  ghost predicate NormalizedScores(cs: seq<Candidate>)
    reads Members(cs)`rawPsim, Members(cs)`simscore
  {
    (|cs| > 0 ==> forall i :: 0 <= i < |cs| ==>
      cs[i].simscore == Normalized(cs[i].rawPsim, MinPsim(cs), MaxPsim(cs)))
    && (forall i :: 0 <= i < |cs| ==> 0.0 <= cs[i].simscore <= 1.0)
    && (forall i, i' :: 0 <= i < |cs| && 0 <= i' < |cs| && cs[i].rawPsim <= cs[i'].rawPsim
          ==> cs[i'].simscore <= cs[i].simscore)
  }

  /** The range of the raw penalties and the second loop of store_normalized_sim_penalties. */
  method Normalize(result: seq<Candidate>, candidates: map<string, seq<Candidate>>)
    requires forall c :: c in result ==> c in AllCands(candidates)
    modifies AllCands(candidates)`simscore
    ensures NormalizedScores(result)
    ensures forall c :: c in AllCands(candidates) && c !in result ==> c.simscore == old(c.simscore)
  {
    if |result| > 0 {
      var maxPsim := MaxPsim(result);
      var minPsim := MinPsim(result);
      assert forall i :: 0 <= i < |result| ==> minPsim <= result[i].rawPsim <= maxPsim;
      StoreScores(result, candidates, minPsim, maxPsim);
      ScoresOrdered(result, minPsim, maxPsim);
      assert MinPsim(result) == minPsim && MaxPsim(result) == maxPsim;
    }
  }

  /** The first loop of store_normalized_sim_penalties. */
  method GatherShown(langs: seq<string>, candidates: map<string, seq<Candidate>>, wordMode: bool)
    returns (result: seq<Candidate>)
    requires forall j :: 0 <= j < |langs| ==> langs[j] in candidates
    ensures result == Shown(langs, candidates, wordMode)
  {
    result := [];
    for j := 0 to |langs|
      invariant result == Shown(langs[..j], candidates, wordMode)
    {
      assert langs[..j + 1][..j] == langs[..j];
      var langCands := candidates[langs[j]];
      if |langCands| > 0 && (langCands[0].lang != "" || !wordMode) {
        result := result + langCands;
      }
    }
    assert langs[..|langs|] == langs;
  }

  /** The second loop of store_normalized_sim_penalties: every candidate of `result` gets the
      score of its raw penalty within the range `minPsim..maxPsim`. */
  method StoreScores(result: seq<Candidate>, candidates: map<string, seq<Candidate>>, minPsim: int, maxPsim: int)
    requires forall c :: c in result ==> c in AllCands(candidates)
    modifies AllCands(candidates)`simscore
    ensures forall i :: 0 <= i < |result| ==>
      result[i].simscore == Normalized(result[i].rawPsim, minPsim, maxPsim)
    ensures forall c :: c in AllCands(candidates) && c !in result ==> c.simscore == old(c.simscore)
  {
    for i := 0 to |result|
      invariant forall i' :: 0 <= i' < i ==> result[i'].simscore == Normalized(result[i'].rawPsim, minPsim, maxPsim)
      invariant forall c :: c in AllCands(candidates) && c !in result ==> c.simscore == old(c.simscore)
    {
      var cand := result[i];
      var raw := cand.rawPsim;
      var score := Normalized(raw, minPsim, maxPsim);
      cand.simscore := score;
      forall i' | 0 <= i' < i + 1
        ensures result[i'].simscore == Normalized(result[i'].rawPsim, minPsim, maxPsim)
      {
        if result[i'] == cand {
          assert result[i'].rawPsim == raw;
        }
      }
    }
  }

  /** Normalised scores lie between 0 and 1, and a lower raw penalty never scores lower. */
  lemma ScoresOrdered(cs: seq<Candidate>, lo: int, hi: int)
    requires forall i :: 0 <= i < |cs| ==> lo <= cs[i].rawPsim <= hi
    requires forall i :: 0 <= i < |cs| ==> cs[i].simscore == Normalized(cs[i].rawPsim, lo, hi)
    ensures forall i :: 0 <= i < |cs| ==> 0.0 <= cs[i].simscore <= 1.0
    ensures forall i, i' :: 0 <= i < |cs| && 0 <= i' < |cs| && cs[i].rawPsim <= cs[i'].rawPsim
              ==> cs[i'].simscore <= cs[i].simscore
  {
    forall i, i' | 0 <= i < |cs| && 0 <= i' < |cs|
      ensures 0.0 <= cs[i].simscore <= 1.0
      ensures cs[i].rawPsim <= cs[i'].rawPsim ==> cs[i'].simscore <= cs[i].simscore
    {
      NormalizedRange(cs[i].rawPsim, lo, hi);
      if cs[i].rawPsim <= cs[i'].rawPsim {
        NormalizedAntitone(cs[i].rawPsim, cs[i'].rawPsim, lo, hi);
      }
    }
  }
}
