// Syllable repair of candidate words: the per-word pipeline of
// `Candidate.insert_filler_vowels` (scripts/buildutil.py). Every regular expression of the
// pipeline is written out as a `Scan.Matcher`.
module Repair {
  import opened Text
  import opened Wrappers
  import opened Phonology
  import opened Scan
  import opened Separation

  // ----- Matchers, one per regular expression -----

  /** PUNCTUATION_RE `[-,.…;:!?"/()]+` → ' ' */
  const Punctuation: string := "-,.…;:!?\"/()"

  function PunctRun(s: string, i: nat): (k: nat)
    ensures i + k <= |s| || k == 0
    decreases |s| - i
  {
    if At(s, i, Punctuation) then 1 + PunctRun(s, i + 1) else 0
  }

  const PunctuationRun: Matcher :=
    (s: string, i: nat) => if At(s, i, Punctuation) then Some(Hit(PunctRun(s, i), " ")) else None

  /** `X([<cls>])` → 'h\1' */
  function XBefore(cls: string): Matcher
  {
    (s: string, i: nat) =>
      if Is(s, i, 'X') && At(s, i + 1, cls) then Some(Hit(2, ['h', s[i + 1]])) else None
  }

  /** DOUBLE_CONS_RE `([ALL_CONSONANTS])\1` → '\1' */
  const DoubleCons: Matcher :=
    (s: string, i: nat) =>
      if At(s, i, AllConsonants) && Is(s, i + 1, s[i]) then Some(Hit(2, [s[i]])) else None

  /** NY_BEFORE_CONSONANT `ny([INITIAL_CONSONANTS])` → 'n\1' */
  const NyBeforeConsonant: Matcher :=
    (s: string, i: nat) =>
      if Is(s, i, 'n') && Is(s, i + 1, 'y') && At(s, i + 2, InitialConsonants)
      then Some(Hit(3, ['n', s[i + 2]])) else None

  /** `([ALL_CONSONANTS])<sv>(?=[ALL_CONSONANTS])` → '\1<vowel>' */
  function SemivowelBetweenConsonants(sv: char, vowel: char): Matcher
  {
    (s: string, i: nat) =>
      if At(s, i, AllConsonants) && Is(s, i + 1, sv) && At(s, i + 2, AllConsonants)
      then Some(Hit(2, [s[i], vowel])) else None
  }

  /** `^<pat>` → rep */
  function Initial(pat: string, rep: string): Matcher
  {
    (s: string, i: nat) => if i == 0 && OccursAt(s, pat, 0) then Some(Hit(|pat|, rep)) else None
  }

  /** TS_COMBI_RE `(?:^|(?<=[SYLLABLE_FINAL_CONSONANTS]))ts` → 's' */
  const TsCombi: Matcher :=
    (s: string, i: nat) =>
      if Is(s, i, 't') && Is(s, i + 1, 's') && (i == 0 || s[i - 1] in SyllableFinalConsonants)
      then Some(Hit(2, "s")) else None

  /** IU_FALLING_DIPHTHONGS_RE `(iw|uy)(?![aeiou])` → 'iu' / 'ui' */
  const IuFallingDiphthong: Matcher :=
    (s: string, i: nat) =>
      if ((Is(s, i, 'i') && Is(s, i + 1, 'w')) || (Is(s, i, 'u') && Is(s, i + 1, 'y')))
         && !At(s, i + 2, SimpleVowels)
      then Some(Hit(2, if s[i] == 'i' then "iu" else "ui")) else None

  /** ILLEGAL_FALLING_DIPHTHONGS_RE `(ey|iy|ow|uw)(?![aeiou])` → its first vowel */
  const IllegalFallingDiphthong: Matcher :=
    (s: string, i: nat) =>
      if ((At(s, i, "ei") && Is(s, i + 1, 'y')) || (At(s, i, "ou") && Is(s, i + 1, 'w')))
         && !At(s, i + 2, SimpleVowels)
      then Some(Hit(2, [s[i]])) else None

  /** `(eil|illes?)\b`, searched in the French original. */
  const EilOrIlle: Matcher :=
    (s: string, i: nat) =>
      if OccursAt(s, "eil", i) && WordBoundary(s, i + 3) then Some(Hit(3, ""))
      else if OccursAt(s, "illes", i) && WordBoundary(s, i + 5) then Some(Hit(5, ""))
      else if OccursAt(s, "ille", i) && WordBoundary(s, i + 4) then Some(Hit(4, ""))
      else None

  /** H_BEFORE_CONSONANT `h([ALL_NON_SEMIVOWELS])` → '\1' */
  const HBeforeConsonant: Matcher :=
    (s: string, i: nat) =>
      if Is(s, i, 'h') && At(s, i + 1, AllNonSemivowels) then Some(Hit(2, [s[i + 1]])) else None

  /** `([ALL_NON_SEMIVOWELS])N$` → '\1əN' */
  const FinalNAfterConsonant: Matcher :=
    (s: string, i: nat) =>
      if At(s, i, AllNonSemivowels) && Is(s, i + 1, 'N') && i + 2 == |s|
      then Some(Hit(2, [s[i], 'ə', 'N'])) else None

  /** Length of a match of `Ng?[aeioulr]` at `j`, or 0. */
  function NOnset(s: string, j: nat): (k: nat)
    ensures k == 0 || (k in {2, 3} && j + k <= |s|)
  {
    if Is(s, j, 'N') && Is(s, j + 1, 'g') && At(s, j + 2, SimpleVowels + "lr") then 3
    else if Is(s, j, 'N') && At(s, j + 1, SimpleVowels + "lr") then 2
    else 0
  }

  /** `(^|[SYLLABLE_FINAL_CONSONANTS])(Ng?[aeioulr])` → '\1ə\2' */
  const FillerBeforeN: Matcher :=
    (s: string, i: nat) =>
      if i == 0 && NOnset(s, 0) > 0 then Some(Hit(NOnset(s, 0), "ə" + s[..NOnset(s, 0)]))
      else if At(s, i, SyllableFinalConsonants) && NOnset(s, i + 1) > 0
      then Some(Hit(1 + NOnset(s, i + 1), [s[i]] + "ə" + s[i + 1..i + 1 + NOnset(s, i + 1)]))
      else None

  /** `([INTERNAL_VOWELS])SC` → '\1sC' */
  const VowelSC: Matcher :=
    (s: string, i: nat) =>
      if At(s, i, InternalVowels) && Is(s, i + 1, 'S') && Is(s, i + 2, 'C')
      then Some(Hit(3, [s[i], 's', 'C'])) else None

  /** ILLEGAL_SKPT_TRIPLE_RE `([SYLLABLE_FINAL_CONSONANTS])(s[kpt].)` → '\1ə\2' */
  const SkptTriple: Matcher :=
    (s: string, i: nat) =>
      if At(s, i, SyllableFinalConsonants) && Is(s, i + 1, 's') && At(s, i + 2, "kpt")
         && i + 3 < |s| && s[i + 3] != '\n'
      then Some(Hit(4, [s[i], 'ə', 's', s[i + 2], s[i + 3]])) else None

  /** `Sv([INTERNAL_VOWELS])` → 'Sw\1' */
  const GermanSv: Matcher :=
    (s: string, i: nat) =>
      if Is(s, i, 'S') && Is(s, i + 1, 'v') && At(s, i + 2, InternalVowels)
      then Some(Hit(3, ['S', 'w', s[i + 2]])) else None

  /** ILLEGAL_RN_TRIPLE_RE `([rs][mnt])([NOT_SECOND_CONSONANTS])` → '\1ə\2' */
  const RnTriple: Matcher :=
    (s: string, i: nat) =>
      if At(s, i, "rs") && At(s, i + 1, "mnt") && At(s, i + 2, NotSecondConsonants)
      then Some(Hit(3, [s[i], s[i + 1], 'ə', s[i + 2]])) else None

  /** `([np])mn` → '\1mən' */
  const NpMn: Matcher :=
    (s: string, i: nat) =>
      if At(s, i, "np") && Is(s, i + 1, 'm') && Is(s, i + 2, 'n')
      then Some(Hit(3, [s[i], 'm', 'ə', 'n'])) else None

  /** `^(s[INITIAL_NON_SEMIVOWELS][SECOND_CONSONANTS])` → 'ə\1' */
  const InitialSCluster: Matcher :=
    (s: string, i: nat) =>
      if i == 0 && Is(s, 0, 's') && At(s, 1, InitialNonSemivowels) && At(s, 2, SecondConsonants)
      then Some(Hit(3, ['ə', 's', s[1], s[2]])) else None

  /** INITIAL_CONS_TRIPLE_RE `\b([INITIAL_CONSONANTS])([SYLLABLE_FINAL_CONSONANTS][INITIAL_CONSONANTS])` */
  const InitialConsTriple: Matcher :=
    (s: string, i: nat) =>
      if WordBoundary(s, i) && At(s, i, InitialConsonants) && At(s, i + 1, SyllableFinalConsonants)
         && At(s, i + 2, InitialConsonants)
      then Some(Hit(3, [s[i], 'ə', s[i + 1], s[i + 2]])) else None

  /** ILLEGAL_CONS_TRIPLE_RE `([SFC][SFC])([NOT_SECOND_CONSONANTS])` → '\1ə\2' */
  const IllegalConsTriple: Matcher :=
    (s: string, i: nat) =>
      if At(s, i, SyllableFinalConsonants) && At(s, i + 1, SyllableFinalConsonants)
         && At(s, i + 2, NotSecondConsonants)
      then Some(Hit(3, [s[i], s[i + 1], 'ə', s[i + 2]])) else None

  /** ILLEGAL_CONS_TRIPLE2_RE `([INITIAL_NON_SEMIVOWELS][lr])([ALL_NON_SEMIVOWELS])` → '\1ə\2' */
  const IllegalConsTriple2: Matcher :=
    (s: string, i: nat) =>
      if At(s, i, InitialNonSemivowels) && At(s, i + 1, "lr") && At(s, i + 2, AllNonSemivowels)
      then Some(Hit(3, [s[i], s[i + 1], 'ə', s[i + 2]])) else None

  /** The vowel a semivowel turns into: 'u' for 'w', 'i' for 'y'. */
  function VowelOf(sv: char): char { if sv == 'w' then 'u' else 'i' }

  /** `^([wy])([NOT_SECOND_CONSONANTS])` → vowel + '\2' */
  const InitialSemivowel: Matcher :=
    (s: string, i: nat) =>
      if i == 0 && At(s, 0, Semivowels) && At(s, 1, NotSecondConsonants)
      then Some(Hit(2, [VowelOf(s[0]), s[1]])) else None

  /** `(^|[SFC])([INITIAL_NON_SEMIVOWELS][lr])([wy])` → '\1\2' + vowel */
  const ThirdSemivowel: Matcher :=
    (s: string, i: nat) =>
      if i == 0 && At(s, 0, InitialNonSemivowels) && At(s, 1, "lr") && At(s, 2, Semivowels)
      then Some(Hit(3, [s[0], s[1], VowelOf(s[2])]))
      else if At(s, i, SyllableFinalConsonants) && At(s, i + 1, InitialNonSemivowels)
              && At(s, i + 2, "lr") && At(s, i + 3, Semivowels)
      then Some(Hit(4, [s[i], s[i + 1], s[i + 2], VowelOf(s[i + 3])]))
      else None

  /** `([INTERNAL_VOWELS wy][NOT_SYLLABLE_FINAL_NON_SEMIVOWEL][lr])([wy])` → '\1' + vowel */
  const ThirdSemivowelAfterVowel: Matcher :=
    (s: string, i: nat) =>
      if At(s, i, InternalVowels + Semivowels) && At(s, i + 1, NotSyllableFinalNonSemivowel)
         && At(s, i + 2, "lr") && At(s, i + 3, Semivowels)
      then Some(Hit(4, [s[i], s[i + 1], s[i + 2], VowelOf(s[i + 3])])) else None

  /** `wy` or `yw` at `j`. */
  predicate SemivowelPairAt(s: string, j: nat)
  {
    (Is(s, j, 'w') && Is(s, j + 1, 'y')) || (Is(s, j, 'y') && Is(s, j + 1, 'w'))
  }

  /** 'uy' for "wy", 'iw' for "yw" */
  function SemivowelPairRepl(first: char): string { if first == 'w' then "uy" else "iw" }

  /** `(^|[SFC])([INITIAL_NON_SEMIVOWELS])(wy|yw)` → '\1\2' + 'uy' / 'iw' */
  const DoubleSemivowel: Matcher :=
    (s: string, i: nat) =>
      if i == 0 && At(s, 0, InitialNonSemivowels) && SemivowelPairAt(s, 1)
      then Some(Hit(3, [s[0]] + SemivowelPairRepl(s[1])))
      else if At(s, i, SyllableFinalConsonants) && At(s, i + 1, InitialNonSemivowels)
              && SemivowelPairAt(s, i + 2)
      then Some(Hit(4, [s[i], s[i + 1]] + SemivowelPairRepl(s[i + 2])))
      else None

  /** `([INTERNAL_VOWELS wy][NOT_SYLLABLE_FINAL_NON_SEMIVOWEL])(wy|yw)` → '\1' + 'uy' / 'iw' */
  const DoubleSemivowelAfterVowel: Matcher :=
    (s: string, i: nat) =>
      if At(s, i, InternalVowels + Semivowels) && At(s, i + 1, NotSyllableFinalNonSemivowel)
         && SemivowelPairAt(s, i + 2)
      then Some(Hit(4, [s[i], s[i + 1]] + SemivowelPairRepl(s[i + 2]))) else None

  /** `([SYLLABLE_FINAL_CONSONANTS])Nək` → '\1nək' */
  const NAfterFinalConsonant: Matcher :=
    (s: string, i: nat) =>
      if At(s, i, SyllableFinalConsonants) && Is(s, i + 1, 'N') && Is(s, i + 2, 'ə')
         && Is(s, i + 3, 'k')
      then Some(Hit(4, [s[i], 'n', 'ə', 'k'])) else None

  // ----- The pipeline before the fixpoint loop -----

  /** 'X' (IPA /x/) becomes 'h' before vowels (and, in Spanish, semivowels), else 'k' with
      one penalty point each. */
  function RespellX(word: string, lang: string): (r: (string, nat))
    ensures 'X' !in r.0
  {
    var w1 := Sub(word, XBefore(InternalVowels));
    var w2 := if lang == "es" then Sub(w1, XBefore(Semivowels)) else w1;
    var xCount := CountChar(w2, 'X');
    ReplaceRemoves(w2, 'X', "k");
    CountCharPositive(w2, 'X');
    var w3 := if xCount > 0 then Replace(w2, "X", "k") else w2;
    (w3, xCount)
  }

  /** The cost-free simplifications: tx/tc, iy/uw, double consonants, 'ny' before a
      consonant (not in German) and semivowels between consonants. */
  function Simplify(word: string, lang: string): string
  {
    SimplifyClusters(SimplifySpellings(word), lang)
  }

  /** tx/tc → c, iy → i, uw → u. */
  function SimplifySpellings(word: string): string
  {
    var w1 := Replace(Replace(word, "tx", "c"), "tc", "c");
    Replace(Replace(w1, "iy", "i"), "uw", "u")
  }

  /** Double consonants, 'ny' before a consonant (not in German), semivowels between
      consonants. */
  function SimplifyClusters(w2: string, lang: string): string
  {
    var w3 := Sub(w2, DoubleCons);
    var w4 := if lang != "de" then Sub(w3, NyBeforeConsonant) else w3;
    var w5 := Sub(w4, SemivowelBetweenConsonants('y', 'i'));
    Sub(w5, SemivowelBetweenConsonants('w', 'u'))
  }

  /** Initial 'ks' → 's', initial 'dz' → 'z', and 'ts' at the start or after a
      syllable-final consonant → 's', one penalty point per replacement. */
  function InitialClusters(word: string): (string, nat)
  {
    var c1 := Count(word, Initial("ks", "s"));
    var w1 := Sub(word, Initial("ks", "s"));
    var c2 := Count(w1, Initial("dz", "z"));
    var w2 := Sub(w1, Initial("dz", "z"));
    var c3 := Count(w2, TsCombi);
    (Sub(w2, TsCombi), c1 + c2 + c3)
  }

  /** Final 'iy' → 'i', then the 'iw'/'uy' diphthongs. */
  function FinalIyAndIu(word: string): string
  {
    var w1 := if |word| >= 2 && word[|word| - 2..] == "iy" then word[..|word| - 1] else word;
    Sub(w1, IuFallingDiphthong)
  }

  /** Final 'iy', the 'iw'/'uy' diphthongs, French -eil/-ille words, and the other illegal
      falling diphthongs (one penalty point each). */
  function Diphthongs(word: string, lang: string, original: string): (string, nat)
  {
    var w2 := FinalIyAndIu(word);
    var w3 :=
      if lang == "fr" && |w2| > 0 && w2[|w2| - 1] == 'y' && SearchFrom(original, EilOrIlle, 0)
         && |w2| >= 2 && Contains(IllegalFallingDiphthongs, w2[|w2| - 2..])
      then w2[..|w2| - 1] + "i" else w2;
    var n := Count(w3, IllegalFallingDiphthong);
    (Sub(w3, IllegalFallingDiphthong), n)
  }

  /** 'h' at the end or before a consonant, 'N' at the end or at a syllable start, "SC",
      a final 'z', 'rld', the 'sk'/'sp'/'st' triples and German "Sv". */
  function Consonants(word: string, lang: string): (r: (string, nat))
  {
    var finalH := |word| > 0 && word[|word| - 1] == 'h';
    var w1 := if finalH then word[..|word| - 1] else word;
    var p1 := if finalH then 1 else 0;
    var p2 := Count(w1, HBeforeConsonant);
    var w2 := Sub(w1, HBeforeConsonant);
    var w3 := Replace(Sub(w2, FinalNAfterConsonant), "nN", "N");
    var w4 := Sub(w3, FillerBeforeN);
    var p5 := Count(w4, VowelSC);
    var w5 := Sub(w4, VowelSC);
    var p6 := CountSub(w5, "SC");
    var w6 := if p6 > 0 then Replace(w5, "SC", "C") else w5;
    var finalZ := |w6| >= 2 && w6[|w6| - 2] in InternalVowels && w6[|w6| - 1] == 'z';
    var w7 := if finalZ then w6[..|w6| - 1] + "s" else w6;
    var p7 := if finalZ then 1 else 0;
    var w8 := Sub(Replace(w7, "rld", "rəld"), SkptTriple);
    var w9 := if lang == "de" then Sub(w8, GermanSv) else w8;
    (w9, p1 + p2 + p5 + p6 + p7)
  }

  /** The steps of insert_filler_vowels before the illegal-pair loop: the word and the
      penalty they add. */
  function PrePhase(word: string, lang: string, original: string): (string, nat)
  {
    var s1 := RespellX(word, lang);
    var s2 := InitialClusters(Simplify(s1.0, lang));
    var s3 := Diphthongs(s2.0, lang, original);
    var s4 := Consonants(s3.0, lang);
    (s4.0, s1.1 + s2.1 + s3.1 + s4.1)
  }

  // ----- The pipeline after the loop -----

  /** The filler insertions for the remaining illegal triples and clusters. */
  function Triples(word: string): (r: string)
  {
    var w1 := Sub(Sub(word, RnTriple), NpMn);
    var w2 := Replace(Replace(Replace(w1, "stl", "stəl"), "stv", "stəv"), "smr", "səmr");
    var w3 := Sub(w2, InitialSCluster);
    Sub(Sub(Sub(w3, InitialConsTriple), IllegalConsTriple), IllegalConsTriple2)
  }

  /** Initial 'wh', and semivowels that cannot stand where they are become vowels. */
  function RespellSemivowels(word: string): (r: string)
  {
    var w1 := Sub(Sub(word, Initial("wh", "w")), InitialSemivowel);
    var w2 := Sub(Sub(w1, ThirdSemivowel), ThirdSemivowelAfterVowel);
    var w3 := Sub(Sub(w2, DoubleSemivowel), DoubleSemivowelAfterVowel);
    Sub(w3, NAfterFinalConsonant)
  }

  /** The word cannot end as it does (a consonant not allowed at the end, a consonant pair,
      or a semivowel outside a falling diphthong). */
  predicate NeedsFinalVowel(w: string)
  {
    (|w| > 0 && w[|w| - 1] in NotWordFinalNonSemivowel)
    || (|w| > 2 && ((w[|w| - 2] in InitialConsonants && w[|w| - 1] in SecondConsonants)
                    || (w[|w| - 2] in SyllableFinalConsonants && w[|w| - 1] in InitialConsonants)
                    || (w[|w| - 1] in Semivowels && !Contains(FallingDiphthongs, w[|w| - 2..]))))
  }

  /** Some character of `w` is in `cs` (`re.search('[cs]', w)`). */
  /** Fillers at the word edges, the cleanup of 'N' and of double letters. */
  function Edges(word: string, lang: string): (r: string)
  {
    EdgeCleanup(EdgeFillers(word), lang)
  }

  /** The fillers at the edges: a lone initial-final pair, a leading syllable-final pair,
      a final vowel where needed, and a vowel for a word of consonants only. */
  function EdgeFillers(word: string): (r: string)
  {
    var w1 :=
      if |word| == 2 && word[0] in InitialNonSemivowels && word[1] in WordFinalConsonants
         && word[1] !in SecondConsonants
      then [word[0], 'ə', word[1]] else word;
    var w2 :=
      if |w1| >= 2 && w1[0] in SyllableFinalConsonants && w1[1] in NotSecondConsonants
      then "ə" + w1 else w1;
    var w3 := if NeedsFinalVowel(w2) then w2 + "ə" else w2;
    if HasAny(w3, AllConsonants) && !HasAny(w3, InternalVowels) then w3 + "ə" else w3
  }

  /** The edge rules only add filler vowels, and a word that holds a consonant comes out
      holding a vowel. */
  lemma EdgeFillersGiveVowel(word: string)
    ensures |word| <= |EdgeFillers(word)| <= |word| + 3
    ensures HasAny(EdgeFillers(word), AllConsonants) ==> HasAny(EdgeFillers(word), InternalVowels)
  {
    var w1 :=
      if |word| == 2 && word[0] in InitialNonSemivowels && word[1] in WordFinalConsonants
         && word[1] !in SecondConsonants
      then [word[0], 'ə', word[1]] else word;
    var w2 :=
      if |w1| >= 2 && w1[0] in SyllableFinalConsonants && w1[1] in NotSecondConsonants
      then "ə" + w1 else w1;
    var w3 := if NeedsFinalVowel(w2) then w2 + "ə" else w2;
    var r := EdgeFillers(word);
    if HasAny(w3, AllConsonants) && !HasAny(w3, InternalVowels) {
      assert r == w3 + "ə";
      assert r[|r| - 1] in InternalVowels;
    } else {
      assert r == w3;
    }
  }

  /** "Nə" turned round, "Nəg" and doubled consonants simplified, Russian "ii". */
  function EdgeCleanup(w4: string, lang: string): (r: string)
  {
    var w5 := if w4 == "Nə" then "əN" else w4;
    var w6 := Sub(Replace(w5, "Nəg", "Ng"), DoubleCons);
    if lang == "ru" then Replace(w6, "ii", "i") else w6
  }

  /** The steps after the loop; their penalty is the number of 'ə' in the final word. */
  function PostPhase(word: string, lang: string): (r: (string, nat))
    ensures r.1 == CountChar(r.0, 'ə')
  {
    var w := Edges(RespellSemivowels(Triples(word)), lang);
    (w, CountChar(w, 'ə'))
  }

  /** The repaired form of one sub-word and the penalty its repair adds. */
  function RepairedWord(word: string, lang: string, original: string): (r: (string, nat))
    ensures r.1 >= CountChar(r.0, 'ə')
  {
    var pre := PrePhase(word, lang, original);
    var post := PostPhase(SeparateIllegalPairs(pre.0), lang);
    (post.0, pre.1 + post.1)
  }

  /** The per-word body of insert_filler_vowels, with its `while count` loop. */
  method RepairWord(word: string, lang: string, original: string) returns (r: string, added: nat)
    ensures r == RepairedWord(word, lang, original).0
    ensures added == RepairedWord(word, lang, original).1
  {
    var pre := PrePhase(word, lang, original);
    var separated := SeparatePairs(pre.0);
    var post := PostPhase(separated, lang);
    r, added := post.0, pre.1 + post.1;
  }

  // ----- All sub-words -----

  /** The repaired sub-words and the total penalty they add, left to right. */
  function RepairAll(words: seq<string>, lang: string, original: string): (r: (seq<string>, nat))
    ensures |r.0| == |words|
    ensures r.1 >= CountCharAll(r.0, 'ə')
  {
    if |words| == 0 then ([], 0)
    else
      var init := RepairAll(words[..|words| - 1], lang, original);
      var last := RepairedWord(words[|words| - 1], lang, original);
      var r := (init.0 + [last.0], init.1 + last.1);
      CountCharAllSnoc(init.0, last.0, 'ə');
      assert CountCharAll(r.0, 'ə') == CountCharAll(init.0, 'ə') + CountChar(last.0, 'ə');
      r
  }

  /** One more sub-word extends the repaired list and the penalty. */
  lemma RepairAllSnoc(words: seq<string>, k: nat, lang: string, original: string)
    requires k < |words|
    ensures RepairAll(words[..k + 1], lang, original).0
            == RepairAll(words[..k], lang, original).0 + [RepairedWord(words[k], lang, original).0]
    ensures RepairAll(words[..k + 1], lang, original).1
            == RepairAll(words[..k], lang, original).1 + RepairedWord(words[k], lang, original).1
  {
    assert words[..k + 1][..k] == words[..k];
  }

  /** The sub-words insert_filler_vowels works on: punctuation runs become spaces, then
      `str.split()`. */
  function SubWords(text: string): (r: seq<string>)
    ensures forall k :: 0 <= k < |r| ==> |r[k]| > 0
  {
    SplitWs(Sub(text, PunctuationRun))
  }

  /** The new word and the added penalty of a first call of insert_filler_vowels. */
  function Repaired(text: string, lang: string, original: string): (r: (string, nat))
    ensures r.1 >= CountChar(r.0, 'ə')
  {
    var all := RepairAll(SubWords(text), lang, original);
    CountCharJoin(all.0, " ", 'ə');
    (Join(all.0, " "), all.1)
  }

  /** The loop of insert_filler_vowels over the sub-words of `text`. */
  method RepairText(text: string, lang: string, original: string) returns (r: string, added: nat)
    ensures r == Repaired(text, lang, original).0
    ensures added == Repaired(text, lang, original).1
    ensures added >= CountChar(r, 'ə')
  {
    var words := SubWords(text);
    var newWords: seq<string> := [];
    added := 0;
    for k := 0 to |words|
      invariant newWords == RepairAll(words[..k], lang, original).0
      invariant added == RepairAll(words[..k], lang, original).1
    {
      var repaired, penalty := RepairWord(words[k], lang, original);
      RepairAllSnoc(words, k, lang, original);
      newWords := newWords + [repaired];
      added := added + penalty;
    }
    assert words[..|words|] == words;
    r := Join(newWords, " ");
  }

  /** Up to the French -eil/-ille rule no step empties a non-empty sub-word, so the
      `word[-1]` there never fails and the `|w2| > 0` guard in `Diphthongs` decides nothing. */
  lemma FrenchRuleSeesNonEmptyWord(word: string, lang: string)
    requires |word| > 0
    ensures |FinalIyAndIu(InitialClusters(Simplify(RespellX(word, lang).0, lang)).0)| > 0
  {
    RespellXKeepsNonEmpty(word, lang);
    var x := RespellX(word, lang).0;
    SimplifyKeepsNonEmpty(x, lang);
    var y := Simplify(x, lang);
    InitialClustersKeepNonEmpty(y);
    var z := InitialClusters(y).0;
    FinalIyAndIuKeepsNonEmpty(z);
  }

  lemma RespellXKeepsNonEmpty(word: string, lang: string)
    requires |word| > 0
    ensures |RespellX(word, lang).0| > 0
  {
    var w1 := Sub(word, XBefore(InternalVowels));
    SubKeepsNonEmpty(word, XBefore(InternalVowels));
    var w2 := if lang == "es" then Sub(w1, XBefore(Semivowels)) else w1;
    SubKeepsNonEmpty(w1, XBefore(Semivowels));
    ReplaceKeepsNonEmpty(w2, "X", "k");
  }

  lemma InitialClustersKeepNonEmpty(y: string)
    requires |y| > 0
    ensures |InitialClusters(y).0| > 0
  {
    SubKeepsNonEmpty(y, Initial("ks", "s"));
    var y1 := Sub(y, Initial("ks", "s"));
    SubKeepsNonEmpty(y1, Initial("dz", "z"));
    var y2 := Sub(y1, Initial("dz", "z"));
    SubKeepsNonEmpty(y2, TsCombi);
  }

  lemma FinalIyAndIuKeepsNonEmpty(z: string)
    requires |z| > 0
    ensures |FinalIyAndIu(z)| > 0
  {
    var z1 := if |z| >= 2 && z[|z| - 2..] == "iy" then z[..|z| - 1] else z;
    SubKeepsNonEmpty(z1, IuFallingDiphthong);
  }

  lemma SimplifyKeepsNonEmpty(word: string, lang: string)
    requires |word| > 0
    ensures |Simplify(word, lang)| > 0
  {
    SpellingsKeepNonEmpty(word);
    ClustersKeepNonEmpty(SimplifySpellings(word), lang);
  }

  lemma SpellingsKeepNonEmpty(word: string)
    requires |word| > 0
    ensures |SimplifySpellings(word)| > 0
  {
    ReplaceKeepsNonEmpty(word, "tx", "c");
    var a := Replace(word, "tx", "c");
    ReplaceKeepsNonEmpty(a, "tc", "c");
    var b := Replace(a, "tc", "c");
    ReplaceKeepsNonEmpty(b, "iy", "i");
    var c := Replace(b, "iy", "i");
    ReplaceKeepsNonEmpty(c, "uw", "u");
  }

  lemma ClustersKeepNonEmpty(w2: string, lang: string)
    requires |w2| > 0
    ensures |SimplifyClusters(w2, lang)| > 0
  {
    SubKeepsNonEmpty(w2, DoubleCons);
    var w3 := Sub(w2, DoubleCons);
    SubKeepsNonEmpty(w3, NyBeforeConsonant);
    var w4 := if lang != "de" then Sub(w3, NyBeforeConsonant) else w3;
    SubKeepsNonEmpty(w4, SemivowelBetweenConsonants('y', 'i'));
    var w5 := Sub(w4, SemivowelBetweenConsonants('y', 'i'));
    SubKeepsNonEmpty(w5, SemivowelBetweenConsonants('w', 'u'));
  }

  /** A matcher that fires nowhere leaves the text as it is. */
  lemma Unchanged(s: string, m: Matcher)
    requires forall j :: 0 <= j < |s| ==> m(s, j).None?
    ensures Sub(s, m) == s && Count(s, m) == 0
  {
    NoHitNoChange(s, m, 0);
    assert s[0..] == s;
  }

  /** The same for a two-letter word, checked position by position. */
  lemma Unchanged2(s: string, m: Matcher)
    requires |s| == 2 && m(s, 0).None? && m(s, 1).None?
    ensures Sub(s, m) == s && Count(s, m) == 0
  {
    forall j | 0 <= j < |s| ensures m(s, j).None? {
      if j == 0 {} else {}
    }
    Unchanged(s, m);
  }

  /** The same for a three-letter word. */
  lemma Unchanged3(s: string, m: Matcher)
    requires |s| == 3 && m(s, 0).None? && m(s, 1).None? && m(s, 2).None?
    ensures Sub(s, m) == s && Count(s, m) == 0
  {
    forall j | 0 <= j < |s| ensures m(s, j).None? {
      if j == 0 {} else if j == 1 {} else {}
    }
    Unchanged(s, m);
  }

  /** The first letters a lone consonant pair may have here: initial consonants that may
      also end a syllable (no 'h', no 'C', 'S', 'f', 'j', 'v' or 'z', which the illegal-pair
      loop separates first). */
  const FillerFirst: string := "bdgklmnprst"

  /** The second letters: word-final consonants that are not second consonants, and not
      'N', which the rule for a final 'N' after a consonant handles. */
  const FillerSecond: string := "kmnpst"

  /** A two-letter word whose letters are not doubled and that is not one of the initial
      clusters 'ks' and 'ts' (which simplify to 's'). */
  predicate FillerPair(st: string)
  {
    |st| == 2 && st[0] in FillerFirst && st[1] in FillerSecond && st[0] != st[1]
    && st != "ks" && st != "ts"
  }

  /** Neither letter of such a pair is a vowel, a semivowel or a filler. */
  lemma PairNoVowel(st: string)
    requires FillerPair(st)
    ensures st[0] !in InternalVowels + Semivowels && st[1] !in InternalVowels + Semivowels
  {
  }

  lemma PairPrePhase(st: string, lang: string, original: string)
    requires FillerPair(st)
    ensures PrePhase(st, lang, original) == (st, 0)
  {
    Unchanged2(st, XBefore(InternalVowels));
    Unchanged2(st, XBefore(Semivowels));
    CountCharAbsent(st, 'X');
    assert RespellX(st, lang) == (st, 0);
    PairSimplify(st, lang);
    PairInitialClusters(st);
    PairDiphthongs(st, lang, original);
    PairConsonants(st, lang);
  }

  lemma PairSimplify(st: string, lang: string)
    requires FillerPair(st)
    ensures Simplify(st, lang) == st
  {
    PairSpellings(st);
    PairClusters(st, lang);
  }

  lemma PairSpellings(st: string)
    requires FillerPair(st)
    ensures SimplifySpellings(st) == st
  {
    ReplaceMissing(st, "tx", "c", 'x');
    ReplaceMissing(st, "tc", "c", 'c');
    ReplaceMissing(st, "iy", "i", 'i');
    ReplaceMissing(st, "uw", "u", 'u');
  }

  lemma PairClusters(st: string, lang: string)
    requires FillerPair(st)
    ensures SimplifyClusters(st, lang) == st
  {
    PairNoDouble(st);
    PairNoNy(st);
    PairNoSemivowel(st, 'y', 'i');
    PairNoSemivowel(st, 'w', 'u');
  }

  lemma PairNoDouble(st: string)
    requires FillerPair(st)
    ensures Sub(st, DoubleCons) == st
  {
    assert !Is(st, 1, st[0]) && !Is(st, 2, st[1]);
    Unchanged2(st, DoubleCons);
  }

  lemma PairNoNy(st: string)
    requires FillerPair(st)
    ensures Sub(st, NyBeforeConsonant) == st
  {
    Unchanged2(st, NyBeforeConsonant);
  }

  lemma PairNoSemivowel(st: string, sv: char, vowel: char)
    requires FillerPair(st) && sv in Semivowels
    ensures Sub(st, SemivowelBetweenConsonants(sv, vowel)) == st
  {
    Unchanged2(st, SemivowelBetweenConsonants(sv, vowel));
  }

  lemma PairInitialClusters(st: string)
    requires FillerPair(st)
    ensures InitialClusters(st) == (st, 0)
  {
    Unchanged2(st, Initial("ks", "s"));
    Unchanged2(st, Initial("dz", "z"));
    Unchanged2(st, TsCombi);
  }

  lemma PairDiphthongs(st: string, lang: string, original: string)
    requires FillerPair(st)
    ensures Diphthongs(st, lang, original) == (st, 0)
  {
    PairNoVowel(st);
    assert st[0] != 'i' && st[1] != 'y';
    Unchanged2(st, IuFallingDiphthong);
    assert FinalIyAndIu(st) == st;
    Unchanged2(st, IllegalFallingDiphthong);
  }

  lemma PairConsonants(st: string, lang: string)
    requires FillerPair(st)
    ensures Consonants(st, lang) == (st, 0)
  {
    Unchanged2(st, HBeforeConsonant);
    Unchanged2(st, FinalNAfterConsonant);
    ReplaceMissing(st, "nN", "N", 'N');
    assert NOnset(st, 0) == 0 && NOnset(st, 1) == 0 && NOnset(st, 2) == 0;
    Unchanged2(st, FillerBeforeN);
    Unchanged2(st, VowelSC);
    ReplaceMissing(st, "SC", "C", 'S');
    Unchanged2(st, SkptTriple);
    Unchanged2(st, GermanSv);
  }

  lemma PairPostPhase(st: string, lang: string)
    requires FillerPair(st)
    ensures PostPhase(st, lang) == ([st[0], 'ə', st[1]], 1)
  {
    PairNoVowel(st);
    assert st[0] != 'ə' && st[1] != 'ə';
    PairTriples(st);
    PairSemivowels(st);
    PairEdges(st, lang);
    var filled := [st[0], 'ə', st[1]];
    CountCharCons(st[0], ['ə', st[1]], 'ə');
    CountCharCons('ə', [st[1]], 'ə');
    CountCharCons(st[1], [], 'ə');
    assert CountChar(filled, 'ə') == 1;
  }

  lemma PairTriples(st: string)
    requires FillerPair(st)
    ensures Triples(st) == st
  {
    Unchanged2(st, RnTriple);
    Unchanged2(st, NpMn);
    Unchanged2(st, InitialSCluster);
    Unchanged2(st, InitialConsTriple);
    Unchanged2(st, IllegalConsTriple);
    Unchanged2(st, IllegalConsTriple2);
  }

  lemma PairSemivowels(st: string)
    requires FillerPair(st)
    ensures RespellSemivowels(st) == st
  {
    Unchanged2(st, Initial("wh", "w"));
    assert !At(st, 0, Semivowels) && !At(st, 1, "lr");
    Unchanged2(st, InitialSemivowel);
    Unchanged2(st, ThirdSemivowel);
    Unchanged2(st, ThirdSemivowelAfterVowel);
    assert !SemivowelPairAt(st, 1) && !SemivowelPairAt(st, 2) && !SemivowelPairAt(st, 3);
    Unchanged2(st, DoubleSemivowel);
    Unchanged2(st, DoubleSemivowelAfterVowel);
    Unchanged2(st, NAfterFinalConsonant);
  }

  lemma PairEdges(st: string, lang: string)
    requires FillerPair(st)
    ensures Edges(st, lang) == [st[0], 'ə', st[1]]
  {
    PairEdgeFillers(st);
    PairEdgeCleanup([st[0], 'ə', st[1]], lang);
  }

  lemma PairEdgeFillers(st: string)
    requires FillerPair(st)
    ensures EdgeFillers(st) == [st[0], 'ə', st[1]]
  {
    var filled := [st[0], 'ə', st[1]];
    FillerPairClasses(st);
    assert 'ə' !in NotSecondConsonants && 'ə' !in InitialConsonants && 'ə' !in SyllableFinalConsonants;
    assert !NeedsFinalVowel(filled);
    assert HasAny(filled, InternalVowels) by { assert filled[1] in InternalVowels; }
  }

  /** The classes the letters of a filler pair belong to. */
  lemma FillerPairClasses(st: string)
    requires FillerPair(st)
    ensures st[0] in InitialNonSemivowels && st[1] in WordFinalConsonants && st[1] !in SecondConsonants
    ensures st[1] !in NotWordFinalNonSemivowel && st[1] !in Semivowels
  {
  }

  lemma PairEdgeCleanup(filled: string, lang: string)
    requires |filled| == 3 && filled[0] in FillerFirst && filled[1] == 'ə' && filled[2] in FillerSecond
    ensures EdgeCleanup(filled, lang) == filled
  {
    assert filled != "Nə";
    PairLettersAbsent(filled);
    ReplaceMissing(filled, "Nəg", "Ng", 'N');
    PairNoDoubleCons(filled);
    ReplaceMissing(filled, "ii", "i", 'i');
  }

  lemma PairLettersAbsent(filled: string)
    requires |filled| == 3 && filled[0] in FillerFirst && filled[1] == 'ə' && filled[2] in FillerSecond
    ensures 'N' !in filled && 'i' !in filled
  {
    assert filled == [filled[0], filled[1], filled[2]];
  }

  lemma PairNoDoubleCons(filled: string)
    requires |filled| == 3 && filled[1] == 'ə'
    ensures Sub(filled, DoubleCons) == filled
  {
    assert filled[1] !in AllConsonants;
    Unchanged3(filled, DoubleCons);
  }

  /** A lone pair of consonants that no earlier rule touches, such as "st", gets a filler
      between its letters with one penalty point, whatever the language. */
  lemma PairGetsFiller(st: string, lang: string, original: string)
    requires FillerPair(st)
    ensures RepairedWord(st, lang, original) == ([st[0], 'ə', st[1]], 1)
  {
    PairPrePhase(st, lang, original);
    PairSeparate(st);
    PairPostPhase(st, lang);
  }

  lemma PairSeparate(st: string)
    requires FillerPair(st)
    ensures SeparateIllegalPairs(st) == st
  {
    Unchanged2(st, IllegalPair);
  }
}
