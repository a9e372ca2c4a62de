// The language-specific postprocessing of a converted candidate
// (VocBuilder.postprocess_candidate, scripts/buildvoc.py): word by word, the velar nasal and
// affricate rules for all languages, then rules for single languages and the stripping of
// infinitive markers from verbs.
module Postprocessing {
  import opened Text
  import opened Scan
  import opened Wrappers
  import opened Phonology

  // ----- All languages -----

  /** `N(?=[lrwy]?[aeiouə])` → 'Ng': /N/ before a vowel, possibly after a second consonant. */
  const NBeforeVowel: Matcher :=
    (s: string, i: nat) =>
      if Is(s, i, 'N')
         && (At(s, i + 1, InternalVowels) || (At(s, i + 1, SecondConsonants) && At(s, i + 2, InternalVowels)))
      then Some(Hit(1, "Ng")) else None

  /** 'ng' → 'Ng', 'nk' → 'Nk', 'tS' → 'C', 'dj' → 'j'. */
  function NasalsAndAffricates(word: string): string
  {
    Replace(Replace(Replace(Replace(word, "ng", "Ng"), "nk", "Nk"), "tS", "C"), "dj", "j")
  }

  /** The rules for all languages; a final 'Ng' is reduced to 'N'. */
  function Velar(word: string): (r: string)
    ensures !EndsWith(r, "Ng")
  {
    var w := Sub(NasalsAndAffricates(word), NBeforeVowel);
    if EndsWith(w, "Ng") then
      var r := w[..|w| - 1];
      assert r[|r| - 1] == w[|w| - 2] == 'N';
      r
    else w
  }

  // ----- Single languages -----

  /** `([aeiou])\1` → '\1' */
  const DoubledVowel: Matcher :=
    (s: string, i: nat) =>
      if At(s, i, SimpleVowels) && Is(s, i + 1, s[i]) then Some(Hit(2, [s[i]])) else None

  /** LIdepla: with at least three vowel letters, a doubled vowel stands for one vowel. */
  function Lidepla(w: string): string
  {
    if CountVowelsInternal(w) >= 3 then Sub(w, DoubledVowel) else w
  }

  /** `([aeiou])h([ALL_CONSONANTS])` → '\1\2' */
  const HBetweenVowelAndConsonant: Matcher :=
    (s: string, i: nat) =>
      if At(s, i, SimpleVowels) && Is(s, i + 1, 'h') && At(s, i + 2, AllConsonants)
      then Some(Hit(3, [s[i], s[i + 2]])) else None

  /** `er\b`, searched for in the original word. */
  const ErAtWordEnd: Matcher :=
    (s: string, i: nat) =>
      if Is(s, i, 'e') && Is(s, i + 1, 'r') && WordBoundary(s, i + 2) then Some(Hit(2, "er")) else None

  /** German: 'h' after a vowel and before a consonant is dropped; final 'er' becomes 'a'
      when the original has 'er' at the end of a word. */
  function German(w: string, original: string): string
  {
    var w1 := Sub(w, HBetweenVowelAndConsonant);
    if EndsWith(w1, "er") && SearchFrom(original, ErAtWordEnd, 0) then w1[..|w1| - 2] + "a" else w1
  }

  /** FINAL_R_COLORED_SCHWA `(ɚ|əɹ|\(ə\)ɹ)$` */
  predicate FinalRColoredSchwa(o: string)
  {
    EndsWith(o, "ɚ") || EndsWith(o, "əɹ") || EndsWith(o, "(ə)ɹ")
  }

  /** English: a final R-coloured schwa, and a final schwa written as such, become 'a'. The
      IPA original is first stripped of its slashes. */
  function English(w: string, original: string): string
  {
    var o := StripChar(original, '/');
    if EndsWith(w, "er") && FinalRColoredSchwa(o) && !EndsWith(o, "ɛəɹ") then w[..|w| - 2] + "a"
    else if EndsWith(w, "e") && EndsWith(o, "ə") then w[..|w| - 1] + "a"
    else w
  }

  /** IU_BEFORE_VOWEL `(?<![INITIAL_CONSONANTS][SECOND_CONSONANTS])([iu])([aeiouáéíóú])`,
      replaced by 'y' or 'w' and the vowel. */
  const IuBeforeVowel: Matcher :=
    (s: string, i: nat) =>
      if At(s, i, "iu") && At(s, i + 1, "aeiouáéíóú")
         && !(2 <= i && s[i - 2] in InitialConsonants && s[i - 1] in SecondConsonants)
      then Some(Hit(2, [if s[i] == 'i' then 'y' else 'w', s[i + 1]])) else None

  /** Spanish: initial 'ks' is 's', 'i' and 'u' before a vowel are semivowels, the marker 'H'
      of silent letters goes, and so do acute accents. */
  function Spanish(w: string): string
  {
    var w1 := if "ks" <= w then w[1..] else w;
    var w2 := Replace(Sub(w1, IuBeforeVowel), "H", "");
    Translate(w2, AcuteAccents, VowelsWithoutAccent, "")
  }

  /** French: final -tion is -syon. */
  function French(w: string, original: string): string
  {
    if EndsWith(w, "tyon") && EndsWith(original, "tYon") then w[..|w| - 4] + "syon" else w
  }

  /** Indonesian: final 'Nk' is 'n', another final 'k' (a glottal stop) is dropped. */
  function Indonesian(w: string): (r: string)
    ensures !EndsWith(r, "k") || EndsWith(w, "kk")
  {
    if EndsWith(w, "Nk") then w[..|w| - 2] + "n"
    else if EndsWith(w, "k") then w[..|w| - 1]
    else w
  }

  /** Russian: a final 'i' is 'e' when the original ends in 'e', and 'a' when it ends in 'ja'. */
  function Russian(w: string, original: string): string
  {
    if EndsWith(w, "i") then
      if EndsWith(original, "e") then w[..|w| - 1] + "e"
      else if EndsWith(original, "ja") then w[..|w| - 1] + "a"
      else w
    else w
  }

  /** LIdepla never lengthens a word, and leaves a word with fewer than three vowel letters
      (such as "zoo") as it is. */
  lemma LideplaShortens(w: string)
    ensures |Lidepla(w)| <= |w|
    ensures CountVowelsInternal(w) < 3 ==> Lidepla(w) == w
  {
    if CountVowelsInternal(w) >= 3 {
      SubNoLonger(w, DoubledVowel, 0);
    }
  }

  /** German never lengthens a word; a word without 'h' that ends in "er", from an original
      with 'er' at a word end, ends in 'a'. */
  lemma GermanShortens(w: string, original: string)
    ensures |German(w, original)| <= |w|
    ensures 'h' !in w && EndsWith(w, "er") && SearchFrom(original, ErAtWordEnd, 0)
            ==> German(w, original) == w[..|w| - 2] + "a"
  {
    SubNoLonger(w, HBetweenVowelAndConsonant, 0);
    if 'h' !in w {
      forall j | 0 <= j < |w| ensures HBetweenVowelAndConsonant(w, j).None? {
        assert !Is(w, j + 1, 'h');
      }
      NoHitNoChange(w, HBetweenVowelAndConsonant, 0);
    }
  }

  /** English changes at most the ending: a changed word keeps all but its last letter from
      the original word and ends in 'a', one letter shorter at most. */
  lemma EnglishEnding(w: string, original: string)
    ensures |w| - 1 <= |English(w, original)| <= |w|
    ensures English(w, original) != w
            ==> EndsWith(English(w, original), "a")
                && English(w, original)[..|English(w, original)| - 1] == w[..|English(w, original)| - 1]
  {
  }

  /** Spanish leaves no acute accent and no silent-letter marker 'H'. */
  lemma SpanishUnaccented(w: string)
    ensures forall c :: c in AcuteAccents ==> c !in Spanish(w)
    ensures 'H' !in Spanish(w)
  {
    var w1 := if "ks" <= w then w[1..] else w;
    var w2 := Replace(Sub(w1, IuBeforeVowel), "H", "");
    ReplaceRemoves(Sub(w1, IuBeforeVowel), 'H', "");
    TranslateKeepsAbsent(w2, AcuteAccents, VowelsWithoutAccent, "", 'H');
    forall c | c in AcuteAccents ensures c !in Spanish(w) {
      TranslateRemoves(w2, AcuteAccents, VowelsWithoutAccent, "", c);
    }
  }

  /** French keeps the length of the word and changes only a final "tyon", into "syon". */
  lemma FrenchTion(w: string, original: string)
    ensures |French(w, original)| == |w|
    ensures French(w, original) != w
            ==> EndsWith(w, "tyon") && EndsWith(original, "tYon")
                && French(w, original) == w[..|w| - 4] + "syon"
  {
  }

  /** Russian keeps the length of the word and changes at most its final 'i': into 'e' after
      an original ending in 'e', into 'a' after one ending in "ja". */
  lemma RussianFinalVowel(w: string, original: string)
    ensures |Russian(w, original)| == |w|
    ensures Russian(w, original) != w
            ==> EndsWith(w, "i") && Russian(w, original)[..|w| - 1] == w[..|w| - 1]
                && (EndsWith(original, "e") ==> Russian(w, original)[|w| - 1] == 'e')
                && (!EndsWith(original, "e") ==> EndsWith(original, "ja") && Russian(w, original)[|w| - 1] == 'a')
  {
  }

  /** The chain of rules for English, Spanish, French, Indonesian and Russian. */
  function LanguageRules(w: string, original: string, lang: string): string
  {
    if lang == "en" then English(w, original)
    else if lang == "es" then Spanish(w)
    else if lang == "fr" then French(w, original)
    else if lang == "id" then Indonesian(w)
    else if lang == "ru" then Russian(w, original)
    else w
  }

  // ----- Verbs -----

  /** `[^ALL_CONSONANTS][WORD_FINAL_CONSONANTS]?v$`: the word ends in `v` after a
      non-consonant, with at most one word-final consonant between them. */
  predicate VowelAfterFinalConsonant(w: string, v: char)
  {
    |w| >= 2 && w[|w| - 1] == v
    && (w[|w| - 2] !in AllConsonants
        || (|w| >= 3 && w[|w| - 2] in WordFinalConsonants && w[|w| - 3] !in AllConsonants))
  }

  /** The Arabic and Japanese rule: with three or more vowels, a final `v` that can go (after
      a word-final consonant or a vowel), or the ending `iy`+v or `uv`+v. */
  predicate FinalVowelStrippable(w: string, v: char, ends: seq<string>)
  {
    (CountVowelsInternal(w) >= 3 && |w| >= 2 && w[|w| - 1] == v
     && (w[|w| - 2] in WordFinalConsonants || LowerChar(w[|w| - 2]) in SimpleVowels))
    || (|w| >= 3 && Lower(w[|w| - 3..]) in ends)
  }

  /** The infinitive endings of French and Spanish verbs. */
  function RomanceVerb(w: string, original: string, lang: string): (r: string)
    ensures |r| <= |w|
  {
    if lang == "fr" && EndsWith(w, "var")
       && (EndsWith(original, "avoir") || EndsWith(original, "ouvoir") || EndsWith(original, "loir"))
    then w[..|w| - 3] + "e"
    else if lang == "fr" && VowelAfterFinalConsonant(w, 'e') then w[..|w| - 1]
    else if lang == "fr" && EndsWith(w, "tr") then w[..|w| - 2]
    else if EndsWith(w, "r") then w[..|w| - 1]
    else if lang == "es" && EndsWith(w, "rse") then w[..|w| - 3] + "se"
    else w
  }

  /** The stripping of infinitive and base-form markers from verbs. Except for French and
      Spanish (which may replace an ending) and Swahili (which drops an initial 'ku'), the
      result is the word with at most its last three letters removed. */
  function StripVerbEnding(w: string, original: string, lang: string): (r: string)
    ensures |r| <= |w|
    ensures lang != "es" && lang != "fr" && lang != "sw" ==> |w| <= |r| + 3 && r == w[..|r|]
    ensures lang == "sw" ==> r == w || (|w| >= 2 && r == w[2..])
  {
    if lang == "bn" then
      if VowelAfterFinalConsonant(w, 'a') then w[..|w| - 1] else w
    else if lang == "de" then
      if EndsWith(w, "en") then w[..|w| - 1] else w
    else if lang == "es" || lang == "fr" then RomanceVerb(w, original, lang)
    else if lang == "hi" then
      if EndsWith(w, "na") then w[..|w| - 2] else w
    else if lang == "ko" then
      if EndsWith(w, "da") then w[..|w| - 2] else w
    else if lang == "fa" then
      if EndsWith(w, "dan") then w[..|w| - 3] else if EndsWith(w, "n") then w[..|w| - 1] else w
    else if lang == "ru" then
      if EndsWith(w, "t") then w[..|w| - 1] else w
    else if lang == "ar" then
      if FinalVowelStrippable(w, 'a', ["iya", "uva"]) then w[..|w| - 1] else w
    else if lang == "ja" then
      if FinalVowelStrippable(w, 'u', ["iyu", "uvu"]) then w[..|w| - 1] else w
    else if lang == "sw" then
      if "ku" <= w && CountVowelsInternal(w) >= 3 then w[2..] else w
    else if lang == "ta" || lang == "te" then
      if VowelAfterFinalConsonant(w, 'u') then w[..|w| - 1] else w
    else if lang == "tr" then
      if EndsWith(w, "mak") || EndsWith(w, "mek") then w[..|w| - 3] else w
    else w
  }

  // ----- Words and candidates -----

  /** The rules for one word before the verb endings, in the order of the scripts. */
  function WordRules(word: string, original: string, lang: string): string
  {
    var w1 := Velar(word);
    var w2 := if lang == "lidepla" then Lidepla(w1) else w1;
    var w3 := if lang == "de" then German(w2, original) else w2;
    var w4 := LanguageRules(w3, original, lang);
    if lang == "es" || lang == "fr" then Replace(w4, "oo", "o") else w4
  }

  /** The rules for one word of the candidate. */
  function PostWord(word: string, original: string, lang: string, cls: string): string
  {
    var w := WordRules(word, original, lang);
    if cls == "verb" then StripVerbEnding(w, original, lang) else w
  }

  /** Each word processed on its own. */
  function PostWords(words: seq<string>, original: string, lang: string, cls: string): (r: seq<string>)
    ensures |r| == |words|
  {
    if |words| == 0 then []
    else PostWords(words[..|words| - 1], original, lang, cls)
         + [PostWord(words[|words| - 1], original, lang, cls)]
  }

  /** `original.strip('/')` is idempotent, so stripping it again for each further word (as the
      English rule does to the variable it shares across words) changes nothing. */
  lemma StripCharIdempotent(s: string, c: char)
    ensures StripChar(StripChar(s, c), c) == StripChar(s, c)
  {
  }

  /** English verbs keep their ending. */
  lemma EnglishVerbsKeepEnding(w: string, original: string)
    ensures StripVerbEnding(w, original, "en") == w
  {
  }

  lemma EnglishIgnoresSlashes(word: string, original: string)
    ensures WordRules(word, StripChar(original, '/'), "en") == WordRules(word, original, "en")
  {
    StripCharIdempotent(original, '/');
    var w := Velar(word);
    assert LanguageRules(w, StripChar(original, '/'), "en") == LanguageRules(w, original, "en");
  }

  lemma PostWordStrippedOriginal(word: string, original: string, cls: string)
    ensures PostWord(word, StripChar(original, '/'), "en", cls) == PostWord(word, original, "en", cls)
  {
    EnglishIgnoresSlashes(word, original);
    var w := WordRules(word, original, "en");
    EnglishVerbsKeepEnding(w, original);
    EnglishVerbsKeepEnding(w, StripChar(original, '/'));
  }

  /** The variable the loop passes as the original word gives the same result as the
      original word itself. */
  lemma SameOriginal(word: string, orig: string, original: string, lang: string, cls: string)
    requires orig == original || (lang == "en" && orig == StripChar(original, '/'))
    ensures PostWord(word, orig, lang, cls) == PostWord(word, original, lang, cls)
  {
    if orig != original {
      PostWordStrippedOriginal(word, original, cls);
    }
  }

  /** One turn of the word loop extends the processed words by the next one. */
  lemma PostWordsStep(words: seq<string>, k: nat, orig: string, original: string, lang: string,
                      cls: string, done: seq<string>)
    requires k < |words| && done == PostWords(words[..k], original, lang, cls)
    requires orig == original || (lang == "en" && orig == StripChar(original, '/'))
    ensures done + [PostWord(words[k], orig, lang, cls)] == PostWords(words[..k + 1], original, lang, cls)
  {
    SameOriginal(words[k], orig, original, lang, cls);
    assert words[..k + 1][..k] == words[..k];
  }

  /** postprocess_candidate: the words of the candidate, each processed, joined by spaces. */
  method PostprocessCandidate(candidate: string, original: string, lang: string, cls: string)
    returns (r: string)
    ensures r == Join(PostWords(SplitWs(candidate), original, lang, cls), " ")
  {
    var words := SplitWs(candidate);
    var newWords: seq<string> := [];
    var orig := original;
    for k := 0 to |words|
      invariant newWords == PostWords(words[..k], original, lang, cls)
      invariant orig == original || (lang == "en" && orig == StripChar(original, '/'))
    {
      var word := PostWord(words[k], orig, lang, cls);
      PostWordsStep(words, k, orig, original, lang, cls, newWords);
      if lang == "en" {
        orig := StripChar(orig, '/');
        StripCharIdempotent(original, '/');
      }
      newWords := newWords + [word];
    }
    assert words[..|words|] == words;
    r := Join(newWords, " ");
  }

  // ----- Word boundaries -----

  /** No rule puts a space into a word. */
  lemma SpacelessHits(s: string, m: Matcher)
    requires ' ' !in s
    requires m == NBeforeVowel || m == DoubledVowel || m == HBetweenVowelAndConsonant || m == IuBeforeVowel
    ensures forall j :: 0 <= j < |s| && HitAt(s, m, j).Some? ==> ' ' !in HitAt(s, m, j).value.out
  {
    forall j | 0 <= j < |s| && HitAt(s, m, j).Some? ensures ' ' !in HitAt(s, m, j).value.out {
      assert s[j] in s;
      if j + 1 < |s| { assert s[j + 1] in s; }
      if j + 2 < |s| { assert s[j + 2] in s; }
    }
  }

  lemma SubSpaceless(s: string, m: Matcher)
    requires ' ' !in s
    requires m == NBeforeVowel || m == DoubledVowel || m == HBetweenVowelAndConsonant || m == IuBeforeVowel
    ensures ' ' !in Sub(s, m)
  {
    SpacelessHits(s, m);
    SubKeepsAbsent(s, m, 0, ' ');
  }

  lemma VelarSpaceless(word: string)
    requires ' ' !in word
    ensures ' ' !in Velar(word)
  {
    var w0 := Replace(Replace(word, "ng", "Ng"), "nk", "Nk");
    ReplaceKeepsAbsent(word, "ng", "Ng", ' ');
    ReplaceKeepsAbsent(Replace(word, "ng", "Ng"), "nk", "Nk", ' ');
    ReplaceKeepsAbsent(w0, "tS", "C", ' ');
    ReplaceKeepsAbsent(Replace(w0, "tS", "C"), "dj", "j", ' ');
    var w := Sub(NasalsAndAffricates(word), NBeforeVowel);
    SubSpaceless(NasalsAndAffricates(word), NBeforeVowel);
    if EndsWith(w, "Ng") { SliceKeepsAbsent(w, ' ', 0, |w| - 1); }
  }

  lemma TrimSpaceless(w: string, k: nat, tail: string)
    requires ' ' !in w && k <= |w| && ' ' !in tail
    ensures ' ' !in w[..|w| - k] + tail
  {
    SliceKeepsAbsent(w, ' ', 0, |w| - k);
  }

  lemma GermanSpaceless(w: string, original: string)
    requires ' ' !in w
    ensures ' ' !in German(w, original)
  {
    SubSpaceless(w, HBetweenVowelAndConsonant);
    var w1 := Sub(w, HBetweenVowelAndConsonant);
    if EndsWith(w1, "er") { TrimSpaceless(w1, 2, "a"); }
  }

  lemma SpanishSpaceless(w: string)
    requires ' ' !in w
    ensures ' ' !in Spanish(w)
  {
    var w1 := if "ks" <= w then w[1..] else w;
    if "ks" <= w { SliceKeepsAbsent(w, ' ', 1, |w|); }
    SubSpaceless(w1, IuBeforeVowel);
    ReplaceKeepsAbsent(Sub(w1, IuBeforeVowel), "H", "", ' ');
    TranslateKeepsAbsent(Replace(Sub(w1, IuBeforeVowel), "H", ""), AcuteAccents, VowelsWithoutAccent, "", ' ');
  }

  lemma LanguageRulesSpaceless(w: string, original: string, lang: string)
    requires ' ' !in w
    ensures ' ' !in LanguageRules(w, original, lang)
  {
    if lang == "en" {
      if EndsWith(w, "er") { TrimSpaceless(w, 2, "a"); }
      if EndsWith(w, "e") { TrimSpaceless(w, 1, "a"); }
    } else if lang == "es" {
      SpanishSpaceless(w);
    } else if lang == "fr" {
      if EndsWith(w, "tyon") { TrimSpaceless(w, 4, "syon"); }
    } else if lang == "id" {
      if EndsWith(w, "Nk") { TrimSpaceless(w, 2, "n"); }
      if EndsWith(w, "k") { TrimSpaceless(w, 1, ""); }
    } else if lang == "ru" {
      if EndsWith(w, "i") { TrimSpaceless(w, 1, "e"); TrimSpaceless(w, 1, "a"); }
    }
  }

  lemma VerbEndingSpaceless(w: string, original: string, lang: string)
    requires ' ' !in w
    ensures ' ' !in StripVerbEnding(w, original, lang)
  {
    var r := StripVerbEnding(w, original, lang);
    if lang == "es" || lang == "fr" {
      if |w| >= 3 { TrimSpaceless(w, 3, "e"); TrimSpaceless(w, 3, "se"); }
      if |w| >= 2 { TrimSpaceless(w, 2, ""); }
      if |w| >= 1 { TrimSpaceless(w, 1, ""); }
    } else if lang == "sw" {
      if |w| >= 2 { SliceKeepsAbsent(w, ' ', 2, |w|); }
    } else {
      SliceKeepsAbsent(w, ' ', 0, |r|);
    }
  }

  lemma PostWordSpaceless(word: string, original: string, lang: string, cls: string)
    requires ' ' !in word
    ensures ' ' !in PostWord(word, original, lang, cls)
  {
    var w1 := Velar(word);
    VelarSpaceless(word);
    var w2 := if lang == "lidepla" then Lidepla(w1) else w1;
    if lang == "lidepla" && CountVowelsInternal(w1) >= 3 { SubSpaceless(w1, DoubledVowel); }
    var w3 := if lang == "de" then German(w2, original) else w2;
    if lang == "de" { GermanSpaceless(w2, original); }
    var w4 := LanguageRules(w3, original, lang);
    LanguageRulesSpaceless(w3, original, lang);
    ReplaceKeepsAbsent(w4, "oo", "o", ' ');
    var w5 := WordRules(word, original, lang);
    VerbEndingSpaceless(w5, original, lang);
  }

  lemma {:induction false} PostWordsSpaceless(words: seq<string>, original: string, lang: string, cls: string)
    requires forall k :: 0 <= k < |words| ==> ' ' !in words[k]
    ensures forall k :: 0 <= k < |words| ==> ' ' !in PostWords(words, original, lang, cls)[k]
    decreases |words|
  {
    if |words| > 0 {
      var n := |words| - 1;
      PostWordsSpaceless(words[..n], original, lang, cls);
      PostWordSpaceless(words[n], original, lang, cls);
    }
  }

  /** Postprocessing works word by word: splitting the result at single spaces gives exactly
      the processed words, one per word of the candidate. */
  lemma PostprocessWordByWord(candidate: string, original: string, lang: string, cls: string)
    requires |SplitWs(candidate)| > 0
    ensures Split(Join(PostWords(SplitWs(candidate), original, lang, cls), " "), " ")
            == PostWords(SplitWs(candidate), original, lang, cls)
  {
    var words := SplitWs(candidate);
    forall k | 0 <= k < |words| ensures ' ' !in words[k] {
      NoSpaceNoBlank(words[k]);
    }
    PostWordsSpaceless(words, original, lang, cls);
    SplitJoinSpace(PostWords(words, original, lang, cls));
  }
}
