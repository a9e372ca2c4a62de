// VocBuilder.mk_candidate (scripts/buildvoc.py): turning a source-language word into a
// candidate word of the internal phonology, with a cache keyed by language and word.
module Building {
  import opened Wrappers
  import opened Text
  import opened Transliteration
  import opened Preprocessing
  import opened Postprocessing
  import opened Candidates
  import Util

  /** A letter whose Unicode name starts with "LATIN": the Latin letters of Basic Latin,
      Latin-1, Latin Extended-A and -B, IPA Extensions and Latin Extended Additional. */
  predicate IsLatinLetter(c: char)
  {
    ('A' <= c <= 'Z') || ('a' <= c <= 'z')
    || ('\U{00C0}' <= c <= '\U{00D6}') || ('\U{00D8}' <= c <= '\U{00F6}')
    || ('\U{00F8}' <= c <= '\U{02AF}') || ('\U{1E00}' <= c <= '\U{1EFF}')
  }

  /** util.has_latin_letter */
  predicate HasLatinLetter(s: string)
  {
    exists i :: 0 <= i < |s| && IsLatinLetter(s[i])
  }

  /** The comment stripping of mk_candidate: a word ending in ')' loses everything from its
      first '(' on, and surrounding whitespace. */
  function StripComment(word: string): (r: string)
    ensures EndsWith(word, ")") && '(' in word ==> '(' !in r && |r| < |word|
    ensures !(EndsWith(word, ")") && '(' in word) ==> r == word
  {
    if EndsWith(word, ")") then
      var start := Find(word, "(");
      if start >= 0 then
        assert word[start] == '(' by { assert word[start..start + 1] == "("; }
        FirstParenAbsent(word, start);
        Util.StripKeepsAbsent(word[..start], '(');
        Strip(word[..start])
      else
        ParenFound(word);
        word
    else word
  }

  /** The first '(' found leaves no '(' before it. */
  lemma FirstParenAbsent(word: string, start: int)
    requires 0 <= start < |word| && start == Find(word, "(")
    ensures '(' !in word[..start]
  {
    forall k | 0 <= k < start ensures word[..start][k] != '(' {
      assert !OccursAt(word, "(", k);
      assert word[k..k + 1] == [word[k]];
    }
  }

  /** A '(' in the word is found. */
  lemma ParenFound(word: string)
    requires Find(word, "(") < 0
    ensures '(' !in word
  {
    forall k | 0 <= k < |word| ensures word[k] != '(' {
      assert !OccursAt(word, "(", k);
      assert word[k..k + 1] == [word[k]];
    }
  }

  /** A word that is all comment, in parentheses, leaves nothing. */
  lemma EnclosedWordIsEmpty(t: string)
    requires '(' !in t
    ensures StripComment("(" + t + ")") == ""
  {
    var word := "(" + t + ")";
    assert EndsWith(word, ")");
    assert OccursAt(word, "(", 0) by { assert word[0..1] == "("; }
    var start := Find(word, "(");
    assert start == 0;
    assert word[..start] == "";
    assert LStrip("") == "" && RStrip("") == "";
  }

  /** The converted word and penalty mk_candidate computes with the table `name`: preprocess,
      transliterate by longest match, postprocess against the preprocessed word. */
  function Adapted(table: Table, maxKeyLen: nat, word: string, name: string, cls: string): (string, nat)
  {
    var pre := Preprocess(word, name, cls);
    var segs := Segments(table, maxKeyLen, pre);
    (Join(PostWords(SplitWs(OutputAll(table, segs)), pre, name, cls), " "), FlaggedCount(table, segs))
  }

  /** The penalty is at most one per character of the preprocessed word, and 0 when no
      consumed table entry is flagged. */
  lemma AdaptedPenaltyBound(table: Table, maxKeyLen: nat, word: string, name: string, cls: string)
    ensures Adapted(table, maxKeyLen, word, name, cls).1 <= |Preprocess(word, name, cls)|
    ensures (forall k :: k in table ==> !table[k].penalty) ==> Adapted(table, maxKeyLen, word, name, cls).1 == 0
  {
    var pre := Preprocess(word, name, cls);
    var segs := Segments(table, maxKeyLen, pre);
    assert Adapted(table, maxKeyLen, word, name, cls).1 == FlaggedCount(table, segs);
    SegmentsAtMostLength(table, maxKeyLen, pre);
    if forall k :: k in table ==> !table[k].penalty {
      NoFlagsNoPenalty(table, segs);
    }
  }

  lemma {:induction false} NoFlagsNoPenalty(table: Table, segs: seq<Segment>)
    requires forall k :: k in table ==> !table[k].penalty
    ensures FlaggedCount(table, segs) == 0
  {
    if |segs| > 0 {
      NoFlagsNoPenalty(table, segs[1..]);
    }
  }

  class VocBuilder {
    /** Candidates already made, under "<language code>:<word>". */
    var candiCache: map<string, Option<Candidate>>
    /** The conversion tables, by name. */
    var convdicts: map<string, Table>
    /** The length of each table's longest key. */
    var maxKeyLengths: map<string, nat>
    /** The auxiliary languages. */
    var auxlangs: seq<string>

    /** Every table has its maximum key length recorded. */
    ghost predicate Valid()
      reads this`convdicts, this`maxKeyLengths
    {
      forall name :: name in convdicts ==>
        name in maxKeyLengths && maxKeyLengths[name] == MaxKeyLength(convdicts[name])
    }

    /** mk_candidate: the cached result when there is one; otherwise the candidate NewCandidate
        describes, which is then cached under "<language code>:<word>". */
    method MkCandidate(word: string, langcode: string, convDictName: string, cls: string,
                       trueOriginal: Option<string>)
      returns (result: Option<Candidate>)
      requires Valid()
      modifies this`candiCache
      ensures Valid()
      ensures langcode + ":" + word in old(candiCache) ==>
        result == old(candiCache)[langcode + ":" + word] && candiCache == old(candiCache)
      ensures langcode + ":" + word !in old(candiCache) ==>
        candiCache == old(candiCache)[langcode + ":" + word := result]
        && (result.None? <==> !HasLatinLetter(StripComment(word)))
        && (result.Some? ==> fresh(result.value))
        && (result.Some? ==>
              MadeFrom(result.value, word, langcode, convDictName, cls, trueOriginal, auxlangs, convdicts))
    {
      var cacheKey := langcode + ":" + word;
      if cacheKey in candiCache {
        return candiCache[cacheKey];
      }
      result := NewCandidate(word, langcode, convDictName, cls, trueOriginal, auxlangs,
                             convdicts, maxKeyLengths);
      candiCache := candiCache[cacheKey := result];
    }

    /** A second call with the same language and word returns the same candidate. */
    method MkCandidateTwice(word: string, langcode: string, convDictName: string, cls: string)
      returns (first: Option<Candidate>, second: Option<Candidate>)
      requires Valid()
      modifies this`candiCache
      ensures first == second
    {
      first := MkCandidate(word, langcode, convDictName, cls, None);
      second := MkCandidate(word, langcode, convDictName, cls, None);
    }
  }

  /** The candidate mk_candidate makes from `word` when nothing is cached: its original is the
      word without its comment, and its word and penalty are the lower-cased original and 0
      without a table, or what Adapted computes with the table. */
  ghost predicate MadeFrom(c: Candidate, word: string, langcode: string, name: string, cls: string,
                           trueOriginal: Option<string>, auxlangs: seq<string>, convdicts: map<string, Table>)
    reads c
  {
    var orig := StripComment(word);
    c.lang == langcode && c.original == orig && c.trueOriginal == trueOriginal
    && c.auxlangs == auxlangs && c.relatedCands == map[] && !c.filled
    && (name !in convdicts ==> c.word == Lower(orig) && c.penalty == 0)
    && (name in convdicts ==>
          (c.word, c.penalty) == Adapted(convdicts[name], MaxKeyLength(convdicts[name]), orig, name, cls))
  }

  /** Everything mk_candidate does below the cache: None for a word without Latin letters
      once its comment is stripped, otherwise a new candidate. */
  method NewCandidate(word: string, langcode: string, convDictName: string, cls: string,
                      trueOriginal: Option<string>, auxlangs: seq<string>,
                      convdicts: map<string, Table>, maxKeyLengths: map<string, nat>)
    returns (result: Option<Candidate>)
    requires convDictName in convdicts ==>
      convDictName in maxKeyLengths && maxKeyLengths[convDictName] == MaxKeyLength(convdicts[convDictName])
    ensures result.None? <==> !HasLatinLetter(StripComment(word))
    ensures result.Some? ==> fresh(result.value)
    ensures result.Some? ==>
      MadeFrom(result.value, word, langcode, convDictName, cls, trueOriginal, auxlangs, convdicts)
  {
    var w := StripCommentScan(word);
    var latin := HasLatinLetterScan(w);
    if !(|w| > 0 && latin) {
      return None;
    }
    var original := w;
    if convDictName !in convdicts {
      var c := new Candidate(Lower(original), 0, langcode, original, trueOriginal, auxlangs);
      return Some(c);
    }
    var outWord, penalty := Adapt(convdicts[convDictName], maxKeyLengths[convDictName], w, convDictName, cls);
    var c := new Candidate(outWord, penalty, langcode, original, trueOriginal, auxlangs);
    return Some(c);
  }

  /** The comment stripping as mk_candidate does it, on a local variable. */
  method StripCommentScan(word: string) returns (w: string)
    ensures w == StripComment(word)
  {
    w := word;
    if EndsWith(w, ")") {
      var startIdx := Find(w, "(");
      if startIdx >= 0 {
        w := w[..startIdx];
        w := Strip(w);
      }
    }
  }

  /** The conversion proper: preprocess, the longest-match loop, postprocess. */
  method Adapt(convdict: Table, maxkeylen: nat, word: string, name: string, cls: string)
    returns (outWord: string, penalty: nat)
    ensures (outWord, penalty) == Adapted(convdict, maxkeylen, word, name, cls)
  {
    var w := Preprocess(word, name, cls);
    outWord, penalty := Convert(convdict, maxkeylen, w);
    outWord := PostprocessCandidate(outWord, w, name, cls);
  }

  /** The `any(...)` of has_latin_letter, stopping at the first Latin letter. */
  method HasLatinLetterScan(s: string) returns (found: bool)
    ensures found <==> HasLatinLetter(s)
  {
    found := false;
    var i := 0;
    while i < |s| && !found
      invariant 0 <= i <= |s|
      invariant found <==> exists j :: 0 <= j < i && IsLatinLetter(s[j])
    {
      found := IsLatinLetter(s[i]);
      i := i + 1;
    }
  }
}
