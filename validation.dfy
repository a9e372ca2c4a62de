// What `Candidate.validate` (scripts/buildutil.py) accepts, stated declaratively: the
// characters allowed, and the consonant clusters between the syllable nuclei of every
// sub-word.
module Validation {
  import opened Text
  import opened Phonology
  import opened Wrappers

  /** Why a candidate word is rejected; the strings are the offending cluster and sub-word. */
  datatype ValidationError =
    | UnexpectedChars(chars: set<char>)
    | BadEnd(part: string, word: string)
    | BadStart(part: string, word: string)

  /** The alternatives of FALLING_DIPHTHONGS. */
  const Diphthongs: seq<string> := ["ay", "aw", "ew", "oy"]

  /** Length of the match of `(?:ay|aw|ew|oy|[aeiouə])` at `i`, or 0 when there is none;
      the diphthongs are tried before the single vowels, as in the alternation. */
  function NucleusAt(s: string, i: nat): (n: nat)
    ensures n <= 2 && (n > 0 ==> i + n <= |s|)
    ensures n == 0 ==> i >= |s| || s[i] !in InternalVowels
  {
    if i + 1 < |s| && s[i..i + 2] in Diphthongs then 2
    else if i < |s| && s[i] in InternalVowels then 1
    else 0
  }

  /** `re.split` at the nuclei, scanning from `i` with the current part starting at `start`. */
  function SplitFrom(s: string, start: nat, i: nat): (r: seq<string>)
    requires start <= i <= |s|
    requires forall j :: start <= j < i ==> s[j] !in InternalVowels
    ensures |r| >= 1
    decreases |s| - i
  {
    if i == |s| then [s[start..]]
    else
      var n := NucleusAt(s, i);
      if n > 0 then [s[start..i]] + SplitFrom(s, i + n, i + n)
      else SplitFrom(s, start, i + 1)
  }

  /** The consonant clusters of a sub-word: the parts between its nuclei (possibly empty). */
  function Clusters(w: string): (r: seq<string>)
    ensures |r| >= 1
  {
    SplitFrom(w, 0, 0)
  }

  predicate NoVowel(part: string)
  {
    forall j :: 0 <= j < |part| ==> part[j] !in InternalVowels
  }

  /** A slice of a stretch without vowels has none. */
  lemma SliceNoVowel(s: string, start: nat, i: nat)
    requires start <= i <= |s|
    requires forall j :: start <= j < i ==> s[j] !in InternalVowels
    ensures NoVowel(s[start..i])
  {
    var part := s[start..i];
    forall j | 0 <= j < |part| ensures part[j] !in InternalVowels {
      assert part[j] == s[start + j];
    }
  }

  /** The parts between the nuclei hold no vowel: every vowel is inside a nucleus. */
  lemma {:induction false} SplitFromNoVowels(s: string, start: nat, i: nat)
    requires start <= i <= |s|
    requires forall j :: start <= j < i ==> s[j] !in InternalVowels
    ensures forall k :: 0 <= k < |SplitFrom(s, start, i)| ==> NoVowel(SplitFrom(s, start, i)[k])
    decreases |s| - i
  {
    var r := SplitFrom(s, start, i);
    if i == |s| {
      SliceNoVowel(s, start, |s|);
      assert r == [s[start..]];
    } else {
      var n := NucleusAt(s, i);
      if n > 0 {
        SliceNoVowel(s, start, i);
        SplitFromNoVowels(s, i + n, i + n);
        var tail := SplitFrom(s, i + n, i + n);
        assert r == [s[start..i]] + tail;
        forall k | 0 <= k < |r| ensures NoVowel(r[k]) {
          if k > 0 {
            assert r[k] == tail[k - 1];
          } else {
            assert r[k] == s[start..i];
          }
        }
      } else {
        assert s[i] !in InternalVowels;
        SplitFromNoVowels(s, start, i + 1);
        assert r == SplitFrom(s, start, i + 1);
      }
    }
  }

  /** No cluster of a sub-word contains a vowel. */
  lemma ClustersHaveNoVowels(w: string)
    ensures forall k :: 0 <= k < |Clusters(w)| ==> NoVowel(Clusters(w)[k])
  {
    SplitFromNoVowels(w, 0, 0);
  }

  /** The only cluster allowed at the end of a word: a single word-final consonant. */
  predicate FinalOk(part: string)
  {
    |part| == 1 && part[0] in WordFinalConsonants
  }

  /** A cluster after the first loses one leading syllable-final consonant (the coda of the
      preceding syllable); what is left is the onset of the next syllable. */
  function Onset(part: string, idx: nat): string
  {
    if idx > 0 && |part| > 0 && part[0] in SyllableFinalConsonants then part[1..] else part
  }

  /** An onset is empty, or an initial consonant optionally followed by a second consonant. */
  predicate OnsetOk(o: string)
  {
    |o| == 0 || (|o| <= 2 && o[0] in InitialConsonants && (|o| == 2 ==> o[1] in SecondConsonants))
  }

  predicate ClusterOk(parts: seq<string>, idx: nat)
    requires idx < |parts|
  {
    |parts[idx]| == 0
    || ((idx == |parts| - 1 ==> FinalOk(parts[idx])) && OnsetOk(Onset(parts[idx], idx)))
  }

  predicate WordOk(w: string)
  {
    var parts := Clusters(w);
    forall idx :: 0 <= idx < |parts| ==> ClusterOk(parts, idx)
  }

  /** The characters of `word` outside the internal alphabet and the space. */
  function Unexpected(word: string): set<char>
  {
    set c | c in word && c !in AllConsonants + InternalVowels + " "
  }

  /** A valid candidate word: only expected characters, and every sub-word well formed. */
  predicate Valid(word: string)
  {
    var words := SplitWs(word);
    Unexpected(word) == {} && forall k :: 0 <= k < |words| ==> WordOk(words[k])
  }

  /** The checks of one cluster, in the order the loop body makes them. */
  method CheckCluster(parts: seq<string>, idx: nat, w: string) returns (r: Option<ValidationError>)
    requires idx < |parts|
    ensures r.None? <==> ClusterOk(parts, idx)
    ensures r.Some? ==> !r.value.UnexpectedChars?
  {
    var part := parts[idx];
    if |part| == 0 {
      return None;
    }
    if idx == |parts| - 1 && (|part| > 1 || part[0] !in WordFinalConsonants) {
      return Some(BadEnd(part, w));
    }
    if idx > 0 && part[0] in SyllableFinalConsonants {
      part := part[1..];
    }
    assert part == Onset(parts[idx], idx);
    if |part| == 0 {
      return None;
    }
    if |part| > 2 || part[0] !in InitialConsonants || (|part| == 2 && part[1] !in SecondConsonants) {
      return Some(BadStart(part, w));
    }
    return None;
  }

  /** The inner loop of validate: the clusters of one sub-word, left to right. */
  method CheckWord(w: string) returns (r: Option<ValidationError>)
    ensures r.None? <==> WordOk(w)
    ensures r.Some? ==> !r.value.UnexpectedChars?
  {
    var parts := Clusters(w);
    for idx := 0 to |parts|
      invariant forall j :: 0 <= j < idx ==> ClusterOk(parts, j)
    {
      var problem := CheckCluster(parts, idx, w);
      if problem.Some? {
        assert !ClusterOk(parts, idx);
        return problem;
      }
    }
    return None;
  }
}
