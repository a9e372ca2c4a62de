// The language-specific preprocessing of a source word before table conversion
// (VocBuilder.preprocess_candidate_word, scripts/buildvoc.py). Each regular expression is a
// `Scan.Matcher`; an anchored `^...` substitution, which can fire only at the start, is
// written as a prefix test.
module Preprocessing {
  import opened Text
  import opened Scan
  import opened Wrappers
  import opened Phonology

  // ----- Translation tables -----

  /** tone_trans_table: the vowels of Pinyin and other languages with a tone mark or
      diacritic, and their plain forms. */
  const ToneSrc: string := "āēīōūǖáéíóúǘǎěǐǒǔǚàèìòùǜăĕĭŏŭâêîôû"
  const ToneDst: string := "aeiouüaeiouüaeiouüaeiouüaeiouaeiou"

  /** ipa_trans_table: the combining tilde becomes 'n'; some other combining marks of IPA
      are deleted (inverted breve, undertie, double inverted breve, ring below, syllabic). */
  const IpaSrc: string := "\U{0303}"
  const IpaDst: string := "n"
  const IpaDel: string := "\U{032F}‿\U{0361}\U{0325}\U{0329}"

  /** thai_tone_marks_trans_table: combining tone marks, deleted. */
  const ThaiDel: string := "\U{0302}\U{0300}\U{0301}\U{030C}\U{0304}\U{0312}"

  /** vietnamese_vowel_trans_table */
  const VietSrc: string := "ắằẵẳấầẫẩãảạặậçếềễểëẽẻẹệĩỉịńốồỗổõỏọộqüũủứừữửựụýỳỹỷỵờớởỡợ"
  const VietDst: string := "aaaaaaaaaaaaaceeeeeeeeeiiinooooooooquuuuuuuuuyyyyyơơơơơ"

  const Zwnj: char := '\U{200C}'

  /** The languages whose words first lose their tone marks. */
  predicate ToneLang(lang: string)
  {
    lang == "cmn" || lang == "de" || lang == "fr" || lang == "ja" || lang == "ha" || lang == "th"
  }

  // ----- Chinese -----

  const PinyinVowels: string := "aeiouü"

  /** NR_BETWEEN_VOWELS `([aeiouü]n?)([nr][aeiouü])` → '\1+\2'; the optional 'n' is taken
      first and given up when the rest does not match. */
  const NrBetweenVowels: Matcher :=
    (s: string, i: nat) =>
      if At(s, i, PinyinVowels) && Is(s, i + 1, 'n') && At(s, i + 2, "nr") && At(s, i + 3, PinyinVowels)
      then Some(Hit(4, [s[i], s[i + 1], '+', s[i + 2], s[i + 3]]))
      else if At(s, i, PinyinVowels) && At(s, i + 1, "nr") && At(s, i + 2, PinyinVowels)
      then Some(Hit(3, [s[i], '+', s[i + 1], s[i + 2]]))
      else None

  /** A hit of NR_BETWEEN_VOWELS is the matched text with '+' inserted before its last two
      characters. */
  lemma NrHit(s: string, i: nat)
    requires HitAt(s, NrBetweenVowels, i).Some?
    ensures var h := HitAt(s, NrBetweenVowels, i).value;
      3 <= h.len <= 4 && i + h.len <= |s|
      && h.out == s[i..i + h.len - 2] + "+" + s[i + h.len - 2..i + h.len]
  {
  }

  lemma DropPlus(a: string, b: string)
    requires '+' !in a && '+' !in b
    ensures Replace(a + "+" + b, "+", "") == a + b
  {
    var p: string := "+";
    assert Replace(p, p, "") == "" by {
      ReplaceCharCons('+', "", '+');
      assert p == ['+'] + "";
    }
    ReplaceMissing(a, p, "", '+');
    ReplaceMissing(b, p, "", '+');
    ReplaceCharAppend(a, p, '+');
    assert Replace(a + p, p, "") == a;
    ReplaceCharAppend(a + p, b, '+');
  }

  /** A hit followed by a text that already gives back the rest gives back its own part. */
  lemma PlusHitStep(s: string, i: nat, j: nat, out: string, tail: string)
    requires i + 2 <= j <= |s| && '+' !in s
    requires out == s[i..j - 2] + "+" + s[j - 2..j]
    requires Replace(tail, "+", "") == s[j..]
    ensures Replace(out + tail, "+", "") == s[i..]
  {
    assert '+' !in s[i..j - 2] && '+' !in s[j - 2..j] by {
      forall m | i <= m < j ensures s[m] != '+' { assert s[m] in s; }
    }
    DropPlus(s[i..j - 2], s[j - 2..j]);
    ReplaceCharAppend(out, tail, '+');
    assert s[i..] == s[i..j - 2] + s[j - 2..j] + s[j..];
  }

  lemma PlusMissStep(s: string, i: nat, tail: string)
    requires i < |s| && '+' !in s
    requires Replace(tail, "+", "") == s[i + 1..]
    ensures Replace([s[i]] + tail, "+", "") == s[i..]
  {
    assert s[i] != '+' by { assert s[i] in s; }
    ReplaceCharCons(s[i], tail, '+');
    assert s[i..] == [s[i]] + s[i + 1..];
  }

  /** Deleting the inserted '+' signs again (as the conversion does) gives back the text
      from `i` on, provided it had none. */
  lemma {:induction false} PlusRoundTripFrom(s: string, i: nat)
    requires i <= |s| && '+' !in s
    ensures Replace(SubFrom(s, NrBetweenVowels, i), "+", "") == s[i..]
    decreases |s| - i
  {
    if i < |s| {
      match HitAt(s, NrBetweenVowels, i)
      case Some(h) =>
        PlusRoundTripFrom(s, i + h.len);
        NrHit(s, i);
        PlusHitStep(s, i, i + h.len, h.out, SubFrom(s, NrBetweenVowels, i + h.len));
      case None =>
        PlusRoundTripFrom(s, i + 1);
        PlusMissStep(s, i, SubFrom(s, NrBetweenVowels, i + 1));
    }
  }

  /** The '+' signs only mark syllable boundaries: removing them restores the word. */
  lemma ChinesePlusRoundTrip(word: string)
    requires '+' !in word
    ensures Replace(Sub(word, NrBetweenVowels), "+", "") == word
  {
    PlusRoundTripFrom(word, 0);
  }

  // ----- French -----

  const FrontAfterC: string := "eÉiy"

  /** `s?c(?=[eÉiy])` → 's' */
  const SoftC: Matcher :=
    (s: string, i: nat) =>
      if Is(s, i, 's') && Is(s, i + 1, 'c') && At(s, i + 2, FrontAfterC) then Some(Hit(2, "s"))
      else if Is(s, i, 'c') && At(s, i + 1, FrontAfterC) then Some(Hit(1, "s"))
      else None

  /** `g(?=[eÉiy])` → 'j' */
  const SoftG: Matcher :=
    (s: string, i: nat) => if Is(s, i, 'g') && At(s, i + 1, FrontAfterC) then Some(Hit(1, "j")) else None

  /** `gu(?=[eÉiy])` → 'g' */
  const GuBeforeFront: Matcher :=
    (s: string, i: nat) =>
      if Is(s, i, 'g') && Is(s, i + 1, 'u') && At(s, i + 2, FrontAfterC) then Some(Hit(2, "g")) else None

  /** `[cx]c(?=[eÉiy])` → 'x' */
  const CcBeforeFront: Matcher :=
    (s: string, i: nat) =>
      if At(s, i, "cx") && Is(s, i + 1, 'c') && At(s, i + 2, FrontAfterC) then Some(Hit(2, "x")) else None

  /** `ge(?=[aoOu])` → 'j' */
  const GeBeforeBack: Matcher :=
    (s: string, i: nat) =>
      if Is(s, i, 'g') && Is(s, i + 1, 'e') && At(s, i + 2, "aoOu") then Some(Hit(2, "j")) else None

  /** The letters after which i/y/ou keep their vowel value, and the vowels that follow. */
  const FrenchVowelsBefore: string := SimpleVowels + "AEÊ"
  const FrenchVowelsAfter: string := SimpleVowels + "ÉO"

  predicate NotAfterVowel(s: string, i: nat)
  {
    !(0 < i <= |s| && s[i - 1] in FrenchVowelsBefore)
  }

  /** `(?<![aeiouAEÊ])[iy](?=[aeiouÉO])` → 'Y' */
  const IyBeforeVowel: Matcher :=
    (s: string, i: nat) =>
      if At(s, i, "iy") && NotAfterVowel(s, i) && At(s, i + 1, FrenchVowelsAfter)
      then Some(Hit(1, "Y")) else None

  /** `(?<![aeiouAEÊ])ou(?=[aeiouÉO])` → 'w' */
  const OuBeforeVowel: Matcher :=
    (s: string, i: nat) =>
      if Is(s, i, 'o') && Is(s, i + 1, 'u') && NotAfterVowel(s, i) && At(s, i + 2, FrenchVowelsAfter)
      then Some(Hit(2, "w")) else None

  /** `(?<=qu)i(?=[aeiouÉO])` → 'Y' */
  const IAfterQu: Matcher :=
    (s: string, i: nat) =>
      if Is(s, i, 'i') && 2 <= i && s[i - 2] == 'q' && s[i - 1] == 'u' && At(s, i + 1, FrenchVowelsAfter)
      then Some(Hit(1, "Y")) else None

  /** `(ng|[ps]t|^.ix|^-.)$`: endings after which a final consonant is pronounced. */
  predicate FrenchKeepsFinal(w: string)
  {
    EndsWith(w, "ng") || EndsWith(w, "pt") || EndsWith(w, "st")
    || (|w| == 3 && w[1..] == "ix") || (|w| == 2 && w[0] == '-')
  }

  /** How many final letters are usually silent: one of final -er/-il (not -eil) after an
      earlier vowel and of final -ngt, two of final -s after one of "bdefgpt" (unless the
      original ended in -ès), one final consonant of "bdegpstxz" unless the ending is
      pronounced (or the original ended in -é). */
  function SilentLetters(w: string, original: string): (k: nat)
    ensures k <= 2 && k <= |w|
  {
    if |w| > 3 && (EndsWith(w, "er") || EndsWith(w, "il")) && !EndsWith(w, "eil")
       && HasAny(w[..|w| - 2], SimpleVowels + "AEOÉÊYw")
    then 1
    else if EndsWith(w, "ngt") then 1
    else if |w| > 2 && EndsWith(w, "s") && w[|w| - 2] in "bdefgpt" && !EndsWith(original, "ès")
    then 2
    else if |w| > 1 && w[|w| - 1] in "bdegpstxz" && !(FrenchKeepsFinal(w) || EndsWith(original, "é"))
    then 1
    else 0
  }

  /** The deletion of final letters that are usually silent: a prefix of the word, at most
      two letters shorter. */
  function FrenchSilentFinal(w: string, original: string): (r: string)
    ensures |r| <= |w| && |w| <= |r| + 2
    ensures r == w[..|r|]
  {
    w[..|w| - SilentLetters(w, original)]
  }

  /** The French rules: marked vowel pairs, soft c and g, 'ouill', final -ie, i/y/ou before
      vowels, silent final letters. */
  function PreFrench(word: string, original: string): string
  {
    var w1 := Replace(Replace(Replace(word, "éa", "ÉA"), "ée", "ÉE"), "oê", "OÊ");
    var w2 := Sub(Sub(Sub(Sub(Sub(w1, SoftC), SoftG), GuBeforeFront), CcBeforeFront), GeBeforeBack);
    var w3 := Replace(w2, "ouill", "ouY");
    var w4 := if EndsWith(w3, "ie") then w3[..|w3| - 1] else w3;
    var w5 := Sub(Sub(Sub(w4, IyBeforeVowel), OuBeforeVowel), IAfterQu);
    FrenchSilentFinal(w5, original)
  }

  // ----- Indonesian -----

  /** `re.sub('^' + pat + '(?=[follow])', rep, w)`, with no look-ahead when `follow` is "". */
  function ReplaceInitial(w: string, pat: string, follow: string, rep: string): (r: string)
  {
    if pat <= w && (follow == "" || At(w, |pat|, follow)) then rep + w[|pat|..] else w
  }

  /** The meng- prefix chain exactly as the scripts order it: 'menge' → 'ke', else 'meng',
      and only while nothing has changed 'mem', 'men', 'me' and finally 'meny' → 's'. */
  function IndonesianVerbAsWritten(word: string): (r: string)
    ensures |r| <= |word|
    ensures !("me" <= word) ==> r == word
  {
    var w1 := if "menge" <= word then "ke" + word[5..] else ReplaceInitial(word, "meng", "ghkaeiou", "");
    var w2 := if w1 == word then ReplaceInitial(word, "mem", "bfp", "") else w1;
    var w3 := if w2 == word then ReplaceInitial(word, "men", "cdjstz", "") else w2;
    var w4 := if w3 == word then ReplaceInitial(word, "me", "lmnrwy", "") else w3;
    if w4 == word then ReplaceInitial(word, "meny", "", "s") else w4
  }

  /** The last rule of that chain is never reached: a word that starts with 'meny' has 'n'
      after 'me' and so loses only 'me' ("menyapu" becomes "nyapu", not "sapu"). */
  lemma MenyRuleUnreachable(rest: string)
    ensures IndonesianVerbAsWritten("meny" + rest) == "ny" + rest
  {
    var w := "meny" + rest;
    assert !("meng" <= w) by { assert w[3] == 'y'; }
    assert !("mem" <= w) by { assert w[2] == 'n'; }
    assert !At(w, 3, "cdjstz") by { assert w[3] == 'y'; }
    assert "me" <= w && At(w, 2, "lmnrwy") by { assert w[2] == 'n'; }
    assert w[2..] == "ny" + rest;
  }

  lemma MenyapuAsWritten()
    ensures IndonesianVerbAsWritten("menyapu") == "nyapu"
  {
    assert "menyapu" == "meny" + "apu" && "nyapu" == "ny" + "apu";
    MenyRuleUnreachable("apu");
  }

  /** The meng- prefix and its variants, with 'meny' → 's' tried before the 'me' rule that
      would otherwise take every 'meny' word; at most one variant is removed. */
  function PreIndonesianVerb(word: string): (r: string)
    ensures |r| <= |word|
    ensures !("me" <= word) ==> r == word
  {
    var w1 := if "menge" <= word then "ke" + word[5..] else ReplaceInitial(word, "meng", "ghkaeiou", "");
    var w2 := if w1 == word then ReplaceInitial(word, "mem", "bfp", "") else w1;
    var w3 := if w2 == word then ReplaceInitial(word, "men", "cdjstz", "") else w2;
    var w4 := if w3 == word then ReplaceInitial(word, "meny", "", "s") else w3;
    if w4 == word then ReplaceInitial(word, "me", "lmnrwy", "") else w4
  }

  /** With the corrected order the 'meny' prefix becomes 's' ("menyapu" → "sapu"). */
  lemma MenyBecomesS(rest: string)
    ensures PreIndonesianVerb("meny" + rest) == "s" + rest
  {
    var w := "meny" + rest;
    assert !("meng" <= w) by { assert w[3] == 'y'; }
    assert !("mem" <= w) by { assert w[2] == 'n'; }
    assert !At(w, 3, "cdjstz") by { assert w[3] == 'y'; }
    assert w[4..] == rest;
  }

  /** The two orders agree on every word that does not start with 'meny'. */
  lemma IndonesianOrdersAgree(word: string)
    requires !("meny" <= word)
    ensures PreIndonesianVerb(word) == IndonesianVerbAsWritten(word)
  {
  }

  /** The other prefixes are removed, leaving the stem after them. */
  lemma MengPrefix(rest: string)
    requires At(rest, 0, "ghkaiou")
    ensures PreIndonesianVerb("meng" + rest) == rest
  {
    var w := "meng" + rest;
    assert !("menge" <= w) by { assert w[4] == rest[0] != 'e'; }
    assert "meng" <= w && At(w, 4, "ghkaeiou") by { assert w[4] == rest[0]; }
    assert w[4..] == rest;
  }

  lemma MemPrefix(rest: string)
    requires At(rest, 0, "bfp")
    ensures PreIndonesianVerb("mem" + rest) == rest
  {
    var w := "mem" + rest;
    assert !("menge" <= w) && !("meng" <= w) by { assert w[2] == 'm'; }
    assert "mem" <= w && At(w, 3, "bfp") by { assert w[3] == rest[0]; }
    assert w[3..] == rest;
  }

  lemma MenPrefix(rest: string)
    requires At(rest, 0, "cdjstz")
    ensures PreIndonesianVerb("men" + rest) == rest
  {
    var w := "men" + rest;
    assert !("menge" <= w) && !("meng" <= w) by { assert w[3] == rest[0] != 'g'; }
    assert !("mem" <= w) by { assert w[2] == 'n'; }
    assert "men" <= w && At(w, 3, "cdjstz") by { assert w[3] == rest[0]; }
    assert w[3..] == rest;
  }

  lemma MengePrefix(rest: string)
    ensures PreIndonesianVerb("menge" + rest) == "ke" + rest
  {
    var w := "menge" + rest;
    assert "menge" <= w && w[5..] == rest;
  }

  // ----- Russian -----

  /** The accented form of an unaccented vowel (ACUTE_ACCENTS at its VOWELS_WO_ACCENT index). */
  function Accented(c: char): char
  {
    if c == 'a' then 'á' else if c == 'e' then 'é' else if c == 'i' then 'í'
    else if c == 'o' then 'ó' else if c == 'u' then 'ú' else if c == 'y' then 'ý' else c
  }

  /** VOWEL_WO_ACCENT_RE `[aeiouy]`, replaced by its accented form. */
  const UnaccentedVowel: Matcher :=
    (s: string, i: nat) =>
      if At(s, i, VowelsWithoutAccent) then Some(Hit(1, [Accented(s[i])])) else None

  /** Stress the first vowel if none is stressed. */
  function Stress(w: string): string
  {
    if !HasAny(w, AcuteAccents) then SubFirstFrom(w, UnaccentedVowel, 0) else w
  }

  /** Final 'd' is pronounced /t/. */
  function Devoice(w: string): (r: string)
    ensures |r| == |w| && !EndsWith(r, "d")
  {
    if EndsWith(w, "d") then w[..|w| - 1] + "t" else w
  }

  /** 'lj' → 'l', final 'd' → 't', and the first vowel stressed when none is. */
  function PreRussian(word: string): string
  {
    Stress(Devoice(Replace(word, "lj", "l")))
  }

  lemma AccentedIsAcute(c: char)
    requires c in VowelsWithoutAccent
    ensures Accented(c) in AcuteAccents
  {
  }

  lemma StressMissStep(s: string, i: nat, r: string)
    requires i < |s| && s[i] !in VowelsWithoutAccent
    requires HasAny(r, AcuteAccents) || (r == s[i + 1..] && !HasAny(s[i + 1..], VowelsWithoutAccent))
    ensures HasAny([s[i]] + r, AcuteAccents)
            || ([s[i]] + r == s[i..] && !HasAny(s[i..], VowelsWithoutAccent))
  {
    if HasAny(r, AcuteAccents) {
      var k :| 0 <= k < |r| && r[k] in AcuteAccents;
      assert ([s[i]] + r)[k + 1] == r[k];
    } else {
      assert s[i..] == [s[i]] + s[i + 1..];
      forall k | 0 <= k < |s[i..]| ensures s[i..][k] !in VowelsWithoutAccent {
        if k > 0 { assert s[i..][k] == s[i + 1..][k - 1]; }
      }
    }
  }

  /** Stressing the first unstressed vowel from `i` on either places an acute accent or
      finds no vowel and changes nothing. */
  lemma {:induction false} StressFrom(s: string, i: nat)
    requires i <= |s|
    ensures HasAny(SubFirstFrom(s, UnaccentedVowel, i), AcuteAccents)
            || (SubFirstFrom(s, UnaccentedVowel, i) == s[i..] && !HasAny(s[i..], VowelsWithoutAccent))
    decreases |s| - i
  {
    if i < |s| {
      match HitAt(s, UnaccentedVowel, i)
      case Some(h) =>
        AccentedIsAcute(s[i]);
        assert SubFirstFrom(s, UnaccentedVowel, i)[0] == Accented(s[i]);
      case None =>
        StressFrom(s, i + 1);
        StressMissStep(s, i, SubFirstFrom(s, UnaccentedVowel, i + 1));
    }
  }

  /** Stressing leaves a stressed vowel, or no vowel of "aeiouy" at all. */
  lemma StressPlaced(w: string)
    ensures HasAny(Stress(w), AcuteAccents) || !HasAny(Stress(w), VowelsWithoutAccent)
  {
    if !HasAny(w, AcuteAccents) {
      StressFrom(w, 0);
      assert w[0..] == w;
    }
  }

  /** A Russian word comes out with a stressed vowel, or with no vowel of "aeiouy" at all. */
  lemma RussianStressed(word: string)
    ensures HasAny(PreRussian(word), AcuteAccents) || !HasAny(PreRussian(word), VowelsWithoutAccent)
  {
    StressPlaced(Devoice(Replace(word, "lj", "l")));
  }

  // ----- Tone marks -----

  /** No marked vowel is the plain form of another. */
  lemma ToneTablesDisjoint(c: char)
    requires c in ToneSrc
    ensures c !in ToneDst
    ensures '\U{00E0}' <= c <= '\U{01DC}'
  {
    assert forall k :: 0 <= k < |ToneSrc| ==>
      '\U{00E0}' <= ToneSrc[k] <= '\U{01DC}' && ToneSrc[k] != 'ü';
    assert forall k :: 0 <= k < |ToneDst| ==> ToneDst[k] <= 'u' || ToneDst[k] == 'ü';
  }

  /** The tone table removes every marked vowel it lists. */
  lemma ToneMarksRemoved(w: string, c: char)
    requires c in ToneSrc
    ensures c !in Translate(w, ToneSrc, ToneDst, "")
  {
    ToneTablesDisjoint(c);
    TranslateRemoves(w, ToneSrc, ToneDst, "", c);
  }

  /** So the French marking of 'éa', 'ée' and 'oê', which runs after the tone table, never
      finds its patterns: for French these three replacements change nothing. */
  lemma FrenchMarkingInert(w: string)
    ensures var t := Translate(w, ToneSrc, ToneDst, "");
      Replace(Replace(Replace(t, "éa", "ÉA"), "ée", "ÉE"), "oê", "OÊ") == t
  {
    var t := Translate(w, ToneSrc, ToneDst, "");
    ToneMarksRemoved(w, 'é');
    ToneMarksRemoved(w, 'ê');
    ReplaceMissing(t, "éa", "ÉA", 'é');
    ReplaceMissing(t, "ée", "ÉE", 'é');
    ReplaceMissing(t, "oê", "OÊ", 'ê');
  }

  // ----- All languages -----

  /** The branch for the language's own conversion table. */
  function PreLanguage(word: string, original: string, lang: string, cls: string): string
  {
    if lang == "ar" then
      if "al-" <= word && |word| > 3 then word[3..] else word
    else if lang == "cmn" then Sub(word, NrBetweenVowels)
    else if lang == "en" then Translate(word, IpaSrc, IpaDst, IpaDel)
    else if lang == "fr" then PreFrench(word, original)
    else if lang == "ha" then Replace(word, "\U{0300}", "")
    else if lang == "hi" then Replace(word, "\U{0360}", "")
    else if lang == "id" && cls == "verb" then PreIndonesianVerb(word)
    else if lang == "ru" then PreRussian(word)
    else if lang == "th" then Translate(word, "", "", ThaiDel)
    else if lang == "tl" then Translate(word, AcuteAccents, VowelsWithoutAccent, "")
    else if lang == "tr" then Replace(Translate(word, AcuteAccents, VowelsWithoutAccent, ""), "\U{0307}", "")
    else if lang == "vi" then
      Translate(Translate(word, ToneSrc, ToneDst, ""), VietSrc, VietDst, "")
    else word
  }

  /** preprocess_candidate_word: lower case, tone marks removed for some languages, the
      language's own rules, and no zero-width non-joiner left. */
  function Preprocess(word: string, lang: string, cls: string): (r: string)
    ensures Zwnj !in r
  {
    var w0 := Lower(word);
    var w1 := if ToneLang(lang) then Translate(w0, ToneSrc, ToneDst, "") else w0;
    var w2 := PreLanguage(w1, word, lang, cls);
    ReplaceRemoves(w2, Zwnj, "");
    Replace(w2, [Zwnj], "")
  }

  /** The boundary marks add only '+': every other character of a hit comes from the word. */
  lemma NrKeepsAbsent(t: string, c: char)
    requires c !in t && c != '+'
    ensures c !in Sub(t, NrBetweenVowels)
  {
    forall j | 0 <= j < |t| && HitAt(t, NrBetweenVowels, j).Some?
      ensures c !in HitAt(t, NrBetweenVowels, j).value.out
    {
      NrHit(t, j);
      var h := HitAt(t, NrBetweenVowels, j).value;
      forall m | j <= m < j + h.len ensures t[m] != c { assert t[m] in t; }
      assert c !in t[j..j + h.len - 2] && c !in t[j + h.len - 2..j + h.len];
    }
    assert forall j :: 0 <= j < |t| ==> t[j] != c;
    SubKeepsAbsent(t, NrBetweenVowels, 0, c);
  }

  /** For Chinese, preprocessing is the tone table, the boundary marks and the removal of
      zero-width non-joiners. */
  lemma ChineseSteps(word: string, cls: string)
    ensures Preprocess(word, "cmn", cls)
            == Replace(Sub(Translate(Lower(word), ToneSrc, ToneDst, ""), NrBetweenVowels), [Zwnj], "")
  {
    assert ToneLang("cmn");
  }

  /** A Chinese word keeps no tone mark. */
  lemma ChineseToneless(word: string, cls: string, c: char)
    requires c in ToneSrc
    ensures c !in Preprocess(word, "cmn", cls)
  {
    var t := Translate(Lower(word), ToneSrc, ToneDst, "");
    ChineseSteps(word, cls);
    ToneTablesDisjoint(c);
    ToneMarksRemoved(Lower(word), c);
    NrKeepsAbsent(t, c);
    ReplaceKeepsAbsent(Sub(t, NrBetweenVowels), [Zwnj], "", c);
  }

  // ----- What preprocessing leaves out, language by language -----

  /** The last step, which deletes zero-width non-joiners, brings no character back. */
  lemma ZwnjRemovalKeepsAbsent(w: string, c: char)
    requires c !in w
    ensures c !in Replace(w, [Zwnj], "")
  {
    ReplaceKeepsAbsent(w, [Zwnj], "", c);
  }

  /** A Vietnamese word keeps no character that the tone table or the Vietnamese table
      maps to another one (the Vietnamese targets are plain letters and 'ơ'). */
  lemma VietnameseUnmarked(word: string, cls: string, c: char)
    requires (c in ToneSrc || c in VietSrc) && c !in VietDst
    ensures c !in Preprocess(word, "vi", cls)
  {
    var t := Translate(Lower(word), ToneSrc, ToneDst, "");
    var w2 := Translate(t, VietSrc, VietDst, "");
    assert c !in w2 by {
      if c in ToneSrc {
        ToneMarksRemoved(Lower(word), c);
        TranslateKeepsAbsent(t, VietSrc, VietDst, "", c);
      } else {
        TranslateRemoves(t, VietSrc, VietDst, "", c);
      }
    }
    PreprocessVietnamese(word, cls);
    ZwnjRemovalKeepsAbsent(w2, c);
  }

  lemma PreprocessVietnamese(word: string, cls: string)
    ensures Preprocess(word, "vi", cls)
            == Replace(Translate(Translate(Lower(word), ToneSrc, ToneDst, ""), VietSrc, VietDst, ""), [Zwnj], "")
  {
    assert !ToneLang("vi");
    VietnameseRule(Lower(word), word, cls);
  }

  // The branch of `PreLanguage` each language takes.

  lemma TurkishRule(w: string, original: string, cls: string)
    ensures PreLanguage(w, original, "tr", cls) == Replace(Translate(w, AcuteAccents, VowelsWithoutAccent, ""), "\U{0307}", "")
  {
  }

  lemma TagalogRule(w: string, original: string, cls: string)
    ensures PreLanguage(w, original, "tl", cls) == Translate(w, AcuteAccents, VowelsWithoutAccent, "")
  {
  }

  lemma ThaiRule(w: string, original: string, cls: string)
    ensures PreLanguage(w, original, "th", cls) == Translate(w, "", "", ThaiDel)
  {
  }

  lemma HausaRule(w: string, original: string, cls: string)
    ensures PreLanguage(w, original, "ha", cls) == Replace(w, "\U{0300}", "")
  {
  }

  lemma HindiRule(w: string, original: string, cls: string)
    ensures PreLanguage(w, original, "hi", cls) == Replace(w, "\U{0360}", "")
  {
  }

  lemma EnglishRule(w: string, original: string, cls: string)
    ensures PreLanguage(w, original, "en", cls) == Translate(w, IpaSrc, IpaDst, IpaDel)
  {
  }

  lemma RussianRule(w: string, original: string, cls: string)
    ensures PreLanguage(w, original, "ru", cls) == PreRussian(w)
  {
  }

  lemma VietnameseRule(w: string, original: string, cls: string)
    ensures PreLanguage(w, original, "vi", cls) == Translate(Translate(w, ToneSrc, ToneDst, ""), VietSrc, VietDst, "")
  {
  }

  /** A Turkish word keeps no acute accent and no combining dot above. */
  lemma TurkishUnaccented(word: string, cls: string, c: char)
    requires c in AcuteAccents || c == '\U{0307}'
    ensures c !in Preprocess(word, "tr", cls)
  {
    var w0 := Lower(word);
    var t := Translate(w0, AcuteAccents, VowelsWithoutAccent, "");
    var w2 := Replace(t, "\U{0307}", "");
    assert !ToneLang("tr");
    if c == '\U{0307}' {
      ReplaceRemoves(t, c, "");
    } else {
      TranslateRemoves(w0, AcuteAccents, VowelsWithoutAccent, "", c);
      ReplaceKeepsAbsent(t, "\U{0307}", "", c);
    }
    TurkishRule(w0, word, cls);
    ZwnjRemovalKeepsAbsent(w2, c);
  }

  /** A Tagalog word keeps no acute accent. */
  lemma TagalogUnaccented(word: string, cls: string, c: char)
    requires c in AcuteAccents
    ensures c !in Preprocess(word, "tl", cls)
  {
    var w0 := Lower(word);
    var w2 := Translate(w0, AcuteAccents, VowelsWithoutAccent, "");
    assert !ToneLang("tl");
    TranslateRemoves(w0, AcuteAccents, VowelsWithoutAccent, "", c);
    TagalogRule(w0, word, cls);
    ZwnjRemovalKeepsAbsent(w2, c);
  }

  /** A Thai word keeps no tone-marked vowel and no combining tone mark. */
  lemma ThaiUnmarked(word: string, cls: string, c: char)
    requires c in ToneSrc || c in ThaiDel
    ensures c !in Preprocess(word, "th", cls)
  {
    var w0 := Lower(word);
    var w1 := Translate(w0, ToneSrc, ToneDst, "");
    var w2 := Translate(w1, "", "", ThaiDel);
    assert ToneLang("th");
    if c in ToneSrc {
      ToneMarksRemoved(w0, c);
      TranslateKeepsAbsent(w1, "", "", ThaiDel, c);
    } else {
      TranslateRemoves(w1, "", "", ThaiDel, c);
    }
    ThaiRule(w1, word, cls);
    ZwnjRemovalKeepsAbsent(w2, c);
  }

  /** A Hausa word keeps no tone-marked vowel and no combining grave accent. */
  lemma HausaUnmarked(word: string, cls: string, c: char)
    requires c in ToneSrc || c == '\U{0300}'
    ensures c !in Preprocess(word, "ha", cls)
  {
    var w0 := Lower(word);
    var w1 := Translate(w0, ToneSrc, ToneDst, "");
    var w2 := Replace(w1, "\U{0300}", "");
    assert ToneLang("ha");
    if c in ToneSrc {
      ToneMarksRemoved(w0, c);
      ReplaceKeepsAbsent(w1, "\U{0300}", "", c);
    } else {
      ReplaceRemoves(w1, c, "");
    }
    HausaRule(w1, word, cls);
    ZwnjRemovalKeepsAbsent(w2, c);
  }

  /** A Hindi word keeps no combining double tilde. */
  lemma HindiUnmarked(word: string, cls: string)
    ensures '\U{0360}' !in Preprocess(word, "hi", cls)
  {
    var w0 := Lower(word);
    var w2 := Replace(w0, "\U{0360}", "");
    assert !ToneLang("hi");
    ReplaceRemoves(w0, '\U{0360}', "");
    HindiRule(w0, word, cls);
    ZwnjRemovalKeepsAbsent(w2, '\U{0360}');
  }

  /** An English transcription keeps no combining tilde (it becomes 'n') and none of the
      deleted IPA marks. */
  lemma EnglishIpaCleaned(word: string, cls: string, c: char)
    requires c in IpaSrc || c in IpaDel
    ensures c !in Preprocess(word, "en", cls)
  {
    var w0 := Lower(word);
    var w2 := Translate(w0, IpaSrc, IpaDst, IpaDel);
    assert !ToneLang("en");
    TranslateRemoves(w0, IpaSrc, IpaDst, IpaDel, c);
    EnglishRule(w0, word, cls);
    ZwnjRemovalKeepsAbsent(w2, c);
  }

  /** German and Japanese words only lose their tone marks (and zero-width non-joiners). */
  lemma ToneOnlyLanguages(word: string, lang: string, cls: string, c: char)
    requires lang == "de" || lang == "ja"
    ensures Preprocess(word, lang, cls)
            == Replace(Translate(Lower(word), ToneSrc, ToneDst, ""), [Zwnj], "")
    ensures c in ToneSrc ==> c !in Preprocess(word, lang, cls)
  {
    var w1 := Translate(Lower(word), ToneSrc, ToneDst, "");
    assert ToneLang(lang);
    assert PreLanguage(w1, word, lang, cls) == w1;
    if c in ToneSrc {
      ToneMarksRemoved(Lower(word), c);
      ZwnjRemovalKeepsAbsent(w1, c);
    }
  }

  /** An Arabic word loses an initial article 'al-' unless that is all of it. */
  lemma ArabicArticle(word: string, cls: string)
    ensures var w0 := Lower(word);
      Preprocess(word, "ar", cls)
      == Replace(if "al-" <= w0 && |w0| > 3 then w0[3..] else w0, [Zwnj], "")
  {
    assert !ToneLang("ar");
  }

  /** An Indonesian verb loses a meng- prefix (in the corrected order); other Indonesian
      words are only lower-cased. */
  lemma IndonesianSteps(word: string, cls: string)
    ensures Preprocess(word, "id", cls)
            == Replace(if cls == "verb" then PreIndonesianVerb(Lower(word)) else Lower(word),
                       [Zwnj], "")
  {
    assert !ToneLang("id");
  }

  /** A Russian word goes through the Russian rules only (RussianStressed says what they
      leave). */
  lemma RussianSteps(word: string, cls: string)
    ensures Preprocess(word, "ru", cls) == Replace(PreRussian(Lower(word)), [Zwnj], "")
  {
    assert !ToneLang("ru");
    RussianRule(Lower(word), word, cls);
  }

  /** Any other language is only lower-cased. */
  lemma OtherLanguages(word: string, lang: string, cls: string)
    requires lang !in {"ar", "cmn", "de", "en", "fr", "ha", "hi", "id", "ja", "ru", "th", "tl",
                       "tr", "vi"}
    ensures Preprocess(word, lang, cls) == Replace(Lower(word), [Zwnj], "")
  {
  }
}
