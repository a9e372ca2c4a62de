// The fixpoint loop of `Candidate.insert_filler_vowels` (scripts/buildutil.py): consonant
// pairs that may neither end nor start a syllable are separated by a filler 'ə' until none
// is left.
module Separation {
  import opened Text
  import opened Wrappers
  import opened Phonology
  import opened Scan

  /** Two adjacent consonants at `k` that may neither end nor start a syllable. */
  predicate IllegalPairAt(s: string, k: nat)
  {
    k + 1 < |s| && s[k] in NotSyllableFinalNonSemivowel && s[k + 1] in NotSecondConsonants
  }

  /** ILLEGAL_CONS_PAIR_RE `([NOT_SYLLABLE_FINAL_NON_SEMIVOWEL])([NOT_SECOND_CONSONANTS])`
      with the replacement '\1ə\2'. */
  const IllegalPair: Matcher :=
    (s: string, i: nat) =>
      if IllegalPairAt(s, i) then Some(Hit(2, [s[i], 'ə', s[i + 1]])) else None

  /** The number of adjacent consonant pairs that ILLEGAL_CONS_PAIR_RE matches. */
  function IllegalPairs(s: string): nat
  {
    if |s| < 2 then 0
    else (if IllegalPairAt(s, 0) then 1 else 0) + IllegalPairs(s[1..])
  }

  lemma PairsCons(c: char, t: string)
    ensures IllegalPairs([c] + t)
            == (if |t| > 0 && c in NotSyllableFinalNonSemivowel && t[0] in NotSecondConsonants
                then 1 else 0) + IllegalPairs(t)
  {
    var u := [c] + t;
    assert |u| == |t| + 1 && u[1..] == t;
    if |t| > 0 {
      assert u[0] == c && u[1] == t[0];
      assert IllegalPairAt(u, 0)
             == (c in NotSyllableFinalNonSemivowel && t[0] in NotSecondConsonants);
    }
  }

  /** One step of the substitution at `i`, spelled out. */
  lemma SubStep(s: string, i: nat)
    requires i < |s|
    ensures IllegalPairAt(s, i) ==>
      SubFrom(s, IllegalPair, i) == [s[i]] + (['ə'] + ([s[i + 1]] + SubFrom(s, IllegalPair, i + 2)))
      && CountFrom(s, IllegalPair, i) == 1 + CountFrom(s, IllegalPair, i + 2)
    ensures !IllegalPairAt(s, i) ==>
      SubFrom(s, IllegalPair, i) == [s[i]] + SubFrom(s, IllegalPair, i + 1)
      && CountFrom(s, IllegalPair, i) == CountFrom(s, IllegalPair, i + 1)
  {
    if IllegalPairAt(s, i) {
      assert HitAt(s, IllegalPair, i) == Some(Hit(2, [s[i], 'ə', s[i + 1]]));
      assert [s[i], 'ə', s[i + 1]] + SubFrom(s, IllegalPair, i + 2)
          == [s[i]] + (['ə'] + ([s[i + 1]] + SubFrom(s, IllegalPair, i + 2)));
    } else {
      assert HitAt(s, IllegalPair, i) == None;
    }
  }

  /** Each replacement lengthens the text by one and the first character stays. */
  lemma {:induction false} SubLength(s: string, i: nat)
    requires i <= |s|
    ensures |SubFrom(s, IllegalPair, i)| == |s| - i + CountFrom(s, IllegalPair, i)
    ensures i < |s| ==> SubFrom(s, IllegalPair, i)[0] == s[i]
    decreases |s| - i
  {
    if i < |s| {
      SubStep(s, i);
      if IllegalPairAt(s, i) { SubLength(s, i + 2); } else { SubLength(s, i + 1); }
    }
  }

  /** Each replacement inserts exactly one 'ə'. */
  lemma {:induction false} SubFillers(s: string, i: nat)
    requires i <= |s|
    ensures CountChar(SubFrom(s, IllegalPair, i), 'ə')
            == CountChar(s[i..], 'ə') + CountFrom(s, IllegalPair, i)
    decreases |s| - i
  {
    if i < |s| {
      SubStep(s, i);
      assert s[i..] == [s[i]] + s[i + 1..];
      CountCharCons(s[i], s[i + 1..], 'ə');
      if IllegalPairAt(s, i) {
        SubFillers(s, i + 2);
        var f := SubFrom(s, IllegalPair, i + 2);
        assert s[i + 1..] == [s[i + 1]] + s[i + 2..];
        CountCharCons(s[i + 1], s[i + 2..], 'ə');
        CountCharCons(s[i + 1], f, 'ə');
        CountCharCons('ə', [s[i + 1]] + f, 'ə');
        CountCharCons(s[i], ['ə'] + ([s[i + 1]] + f), 'ə');
      } else {
        SubFillers(s, i + 1);
        CountCharCons(s[i], SubFrom(s, IllegalPair, i + 1), 'ə');
      }
    }
  }

  /** Each replacement removes exactly one illegal pair and creates none. */
  lemma {:induction false} SubPairs(s: string, i: nat)
    requires i <= |s|
    ensures IllegalPairs(SubFrom(s, IllegalPair, i)) + CountFrom(s, IllegalPair, i)
            == IllegalPairs(s[i..])
    decreases |s| - i
  {
    if i < |s| {
      if IllegalPairAt(s, i) {
        SubPairs(s, i + 2);
        SubPairsHit(s, i);
      } else {
        SubPairs(s, i + 1);
        SubPairsMiss(s, i);
      }
    }
  }

  /** The step of SubPairs where a pair is replaced at `i`. */
  lemma SubPairsHit(s: string, i: nat)
    requires i < |s| && IllegalPairAt(s, i)
    requires IllegalPairs(SubFrom(s, IllegalPair, i + 2)) + CountFrom(s, IllegalPair, i + 2)
             == IllegalPairs(s[i + 2..])
    ensures IllegalPairs(SubFrom(s, IllegalPair, i)) + CountFrom(s, IllegalPair, i)
            == IllegalPairs(s[i..])
  {
    SubStep(s, i);
    SubLength(s, i + 2);
    var f := SubFrom(s, IllegalPair, i + 2);
    InsertedFillerPairs(s[i], s[i + 1], f);
    SameHeadPairs(s[i + 1], f, s[i + 2..]);
    TwoPairs(s, i);
  }

  /** The pairs of `s[i..]` when an illegal pair starts at `i`. */
  lemma TwoPairs(s: string, i: nat)
    requires i < |s| && IllegalPairAt(s, i)
    ensures IllegalPairs(s[i..]) == 1 + IllegalPairs([s[i + 1]] + s[i + 2..])
  {
    assert s[i..] == [s[i]] + s[i + 1..];
    assert s[i + 1..] == [s[i + 1]] + s[i + 2..];
    PairsCons(s[i], s[i + 1..]);
  }

  /** A filler 'ə' between two consonants forms no pair with either. */
  lemma InsertedFillerPairs(a: char, b: char, f: string)
    ensures IllegalPairs([a] + (['ə'] + ([b] + f))) == IllegalPairs([b] + f)
  {
    PairsCons('ə', [b] + f);
    PairsCons(a, ['ə'] + ([b] + f));
  }

  /** The pairs of `[b] + t` depend on `t` only through its first character and its pairs. */
  lemma SameHeadPairs(b: char, f: string, t: string)
    requires |t| == 0 <==> |f| == 0
    requires |t| > 0 ==> f[0] == t[0]
    ensures IllegalPairs([b] + f) - IllegalPairs(f) == IllegalPairs([b] + t) - IllegalPairs(t)
  {
    PairsCons(b, f);
    PairsCons(b, t);
  }

  /** The step of SubPairs where the character at `i` is copied. */
  lemma SubPairsMiss(s: string, i: nat)
    requires i < |s| && !IllegalPairAt(s, i)
    requires IllegalPairs(SubFrom(s, IllegalPair, i + 1)) + CountFrom(s, IllegalPair, i + 1)
             == IllegalPairs(s[i + 1..])
    ensures IllegalPairs(SubFrom(s, IllegalPair, i)) + CountFrom(s, IllegalPair, i)
            == IllegalPairs(s[i..])
  {
    SubStep(s, i);
    SubLength(s, i + 1);
    assert s[i..] == [s[i]] + s[i + 1..];
    PairsCons(s[i], s[i + 1..]);
    PairsCons(s[i], SubFrom(s, IllegalPair, i + 1));
  }

  /** `count = 1; while count: word, count = ILLEGAL_CONS_PAIR_RE.subn(r'\1ə\2', word)`.
      The result has no illegal pair left, and it differs from `w` only by inserted 'ə'. */
  function SeparateIllegalPairs(w: string): (r: string)
    ensures forall k :: 0 <= k < |r| ==> !IllegalPairAt(r, k)
    ensures |r| >= |w| && CountChar(r, 'ə') == CountChar(w, 'ə') + (|r| - |w|)
    decreases IllegalPairs(w)
  {
    var next := Sub(w, IllegalPair);
    SubPairs(w, 0);
    SubLength(w, 0);
    SubFillers(w, 0);
    assert w[0..] == w;
    if Count(w, IllegalPair) == 0 then
      NoCountNoChange(w, IllegalPair, 0);
      assert forall k :: 0 <= k < |w| ==> !IllegalPairAt(w, k) by {
        forall k | 0 <= k < |w| ensures !IllegalPairAt(w, k) {
          assert HitAt(w, IllegalPair, k).None?;
        }
      }
      next
    else
      SeparateIllegalPairs(next)
  }

  /** The loop itself: `count = 1; while count: word, count = ILLEGAL_CONS_PAIR_RE.subn(...)`. */
  method SeparatePairs(w: string) returns (r: string)
    ensures r == SeparateIllegalPairs(w)
  {
    r := w;
    var count := 1;
    while count != 0
      invariant count == 0 ==> r == SeparateIllegalPairs(w)
      invariant count != 0 ==> SeparateIllegalPairs(r) == SeparateIllegalPairs(w)
      decreases IllegalPairs(r) + (if count != 0 then 1 else 0)
    {
      SubPairs(r, 0);
      assert r[0..] == r;
      if Count(r, IllegalPair) == 0 {
        NoCountNoChange(r, IllegalPair, 0);
      }
      r, count := Sub(r, IllegalPair), Count(r, IllegalPair);
    }
  }
}
