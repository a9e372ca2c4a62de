// The internal alphabet of candidate words (scripts/buildutil.py, constants and helpers).
//
// In the internal form semivowels are written 'w' and 'y', 'C', 'S' and 'N' stand for
// "ch", "sh" and "ng", and filler vowels are written 'ə'.
module Phonology {
  import opened Text
  import opened Wrappers
  import Scan
  import Util

  const InitialNonSemivowels: string := "bCdfghjklmnprsStvz"
  const Semivowels: string := "wy"
  const InitialConsonants: string := InitialNonSemivowels + Semivowels
  const AllConsonants: string := InitialConsonants + "N"
  const AllNonSemivowels: string := InitialNonSemivowels + "N"
  /** Consonants that may end a word (semivowels belong to falling diphthongs instead). */
  const WordFinalConsonants: string := "klmnNprst"
  const SyllableFinalConsonants: string := WordFinalConsonants + "bdg"
  const SecondConsonants: string := "lrwy"
  const NotWordFinalNonSemivowel: string := "CSbdfghjvz"
  const NotSyllableFinalNonSemivowel: string := "CSfhjvz"
  const NotSecondConsonants: string := "bCdfghjkmnpsStvz"
  const SimpleVowels: string := "aeiou"
  const InternalVowels: string := SimpleVowels + "ə"
  /** Pipe-separated list of falling diphthongs, tested with `in` as a substring. */
  const FallingDiphthongs: string := "ay|aw|ew|oy"
  const IllegalFallingDiphthongs: string := "ey|iy|ow|uw"
  const AcuteAccents: string := "áéíóúý"
  const VowelsWithoutAccent: string := "aeiouy"

  /** The replacement table of `export_word`, applied in this order. */
  const ExportRepl: seq<(string, string)> := [
    ("sh", "s-h"), ("C", "ch"), ("Ng", "ng"), ("Nk", "nk"), ("N", "ng"), ("S", "sh"), ("ə", "e")
  ]

  /** The replacement table of `normalize_word`, applied in this order. */
  const NormRepl: seq<(string, string)> := [
    ("v", "u"), ("w", "u"), ("y", "i"), ("z", "s"), ("-", "")
  ]

  /** Applies `table` entry by entry with `str.replace`. */
  function ReplaceAll(s: string, table: seq<(string, string)>): string
    requires forall k :: 0 <= k < |table| ==> |table[k].0| > 0
  {
    if |table| == 0 then s
    else Replace(ReplaceAll(s, table[..|table| - 1]), table[|table| - 1].0, table[|table| - 1].1)
  }

  /** W_RE / Y_RE: the semivowel `sv` right after an internal vowel and not before one. */
  function SemivowelAfterVowel(sv: char, vowel: char): Scan.Matcher
  {
    (s: string, i: nat) =>
      if i + 1 < |s| && s[i] in InternalVowels && s[i + 1] == sv
         && !(i + 2 < |s| && s[i + 2] in InternalVowels)
      then Some(Scan.Hit(2, [s[i], vowel]))
      else None
  }

  /** The semivowel respellings `export_word` makes before its table. */
  function SpellSemivowels(word: string): string
  {
    Scan.Sub(Scan.Sub(word, SemivowelAfterVowel('w', 'u')), SemivowelAfterVowel('y', 'i'))
  }

  /** The external form of an internal word (export_word). */
  function Exported(word: string): string
  {
    ReplaceAll(SpellSemivowels(word), ExportRepl)
  }

  /** export_word: the loop over the replacement table. */
  method ExportWord(word: string) returns (r: string)
    ensures r == Exported(word)
  {
    r := SpellSemivowels(word);
    ghost var start := r;
    for k := 0 to |ExportRepl|
      invariant r == ReplaceAll(start, ExportRepl[..k])
    {
      assert ExportRepl[..k + 1][..k] == ExportRepl[..k];
      r := Replace(r, ExportRepl[k].0, ExportRepl[k].1);
    }
    assert ExportRepl[..|ExportRepl|] == ExportRepl;
  }

  /** A character absent from `s` and from every replacement stays absent. */
  lemma {:induction false} ReplaceAllKeepsAbsent(s: string, table: seq<(string, string)>, d: char)
    requires forall k :: 0 <= k < |table| ==> |table[k].0| > 0 && d !in table[k].1
    requires d !in s
    ensures d !in ReplaceAll(s, table)
    decreases |table|
  {
    if |table| > 0 {
      var init := table[..|table| - 1];
      ReplaceAllKeepsAbsent(s, init, d);
      ReplaceKeepsAbsent(ReplaceAll(s, init), table[|table| - 1].0, table[|table| - 1].1, d);
    }
  }

  /** Entry `k` replaces the single character `c`, and no later entry brings it back. */
  lemma {:induction false} ReplaceAllRemoves(s: string, table: seq<(string, string)>, k: nat, c: char)
    requires forall j :: 0 <= j < |table| ==> |table[j].0| > 0
    requires k < |table| && table[k].0 == [c]
    requires forall j :: k <= j < |table| ==> c !in table[j].1
    ensures c !in ReplaceAll(s, table)
    decreases |table|
  {
    var init := table[..|table| - 1];
    var last := table[|table| - 1];
    if k == |table| - 1 {
      ReplaceRemoves(ReplaceAll(s, init), c, last.1);
    } else {
      ReplaceAllRemoves(s, init, k, c);
      ReplaceKeepsAbsent(ReplaceAll(s, init), last.0, last.1, c);
    }
  }

  /** The external form has none of the internal letters 'C', 'S', 'N' and 'ə'. */
  lemma ExportedHasNoInternalLetters(word: string)
    ensures 'C' !in Exported(word) && 'S' !in Exported(word)
    ensures 'N' !in Exported(word) && 'ə' !in Exported(word)
  {
    var s := SpellSemivowels(word);
    ReplaceAllRemoves(s, ExportRepl, 1, 'C');
    ReplaceAllRemoves(s, ExportRepl, 4, 'N');
    ReplaceAllRemoves(s, ExportRepl, 5, 'S');
    ReplaceAllRemoves(s, ExportRepl, 6, 'ə');
  }

  /** `re.sub(r'\s+', '', word)` */
  function DropWhitespace(s: string): (r: string)
    ensures NoSpace(r)
  {
    if |s| == 0 then []
    else if IsSpace(s[0]) then DropWhitespace(s[1..])
    else [s[0]] + DropWhitespace(s[1..])
  }

  /** `word.lower()`, whitespace removed and a final "ng" cut to "n" (before NORM_REPL). */
  function NormalizeStart(word: string): string
  {
    var w := DropWhitespace(Lower(word));
    if |w| >= 2 && w[|w| - 2..] == "ng" then w[..|w| - 1] else w
  }

  /** The form used to detect minimal pairs (normalize_word). */
  function Normalized(word: string): string
  {
    ReplaceAll(NormalizeStart(word), NormRepl)
  }

  /** normalize_word: the loop over the replacement table. */
  method NormalizeWord(word: string) returns (r: string)
    ensures r == Normalized(word)
  {
    r := NormalizeStart(word);
    ghost var start := r;
    for k := 0 to |NormRepl|
      invariant r == ReplaceAll(start, NormRepl[..k])
    {
      assert NormRepl[..k + 1][..k] == NormRepl[..k];
      r := Replace(r, NormRepl[k].0, NormRepl[k].1);
    }
    assert NormRepl[..|NormRepl|] == NormRepl;
  }

  /** A normalised word has no whitespace, no hyphen and none of 'v', 'w', 'y', 'z'. */
  lemma NormalizedLetters(word: string)
    ensures forall c :: c in "vwyz-" ==> c !in Normalized(word)
    ensures NoSpace(Normalized(word))
  {
    var s := NormalizeStart(word);
    ReplaceAllRemoves(s, NormRepl, 0, 'v');
    ReplaceAllRemoves(s, NormRepl, 1, 'w');
    ReplaceAllRemoves(s, NormRepl, 2, 'y');
    ReplaceAllRemoves(s, NormRepl, 3, 'z');
    ReplaceAllRemoves(s, NormRepl, 4, '-');
    forall c | IsSpace(c) ensures c !in Normalized(word) {
      NoSpaceHasNo(word, c);
      ReplaceAllKeepsAbsent(s, NormRepl, c);
    }
  }

  lemma NoSpaceHasNo(word: string, c: char)
    requires IsSpace(c)
    ensures c !in NormalizeStart(word)
  {
    var w := DropWhitespace(Lower(word));
    assert forall i :: 0 <= i < |w| ==> w[i] != c;
    if |w| >= 2 && w[|w| - 2..] == "ng" {
      assert forall i :: 0 <= i < |w| - 1 ==> w[..|w| - 1][i] == w[i];
    }
  }

  /** count_vowels_internal: the internal vowels of `word.lower()`. */
  function CountVowelsInternal(word: string): (r: nat)
    ensures r <= |word|
    ensures r == 0 <==> forall i :: 0 <= i < |word| ==> LowerChar(word[i]) !in InternalVowels
  {
    CountIn(Lower(word), InternalVowels)
  }

  /** The number of characters of `s` that occur in `chars`. */
  function CountIn(s: string, chars: string): (r: nat)
    ensures r <= |s|
    ensures r == 0 <==> forall i :: 0 <= i < |s| ==> s[i] !in chars
  {
    if |s| == 0 then 0
    else
      var k := CountIn(s[1..], chars);
      assert forall i :: 1 <= i < |s| ==> s[i] == s[1..][i - 1];
      (if s[0] in chars then 1 else 0) + k
  }

  /** Conversion: one entry of a phonetic conversion table. */
  datatype Conversion = Conversion(output: string, penalty: bool)

  /** extract_phonetic_conversion_rule: (input, Conversion(output, penalty)) from a CSV row. */
  function ConversionRule(row: seq<string>): (r: (string, Conversion))
    ensures r.0 == (if |row| > 0 then row[0] else "")
    ensures r.1.output == (if |row| > 1 then row[1] else "")
    ensures !r.1.penalty <==> (|row| > 2 && row[2] == "0")
  {
    var inchar := Util.GetElem(row, 0, "");
    var outchar := Util.GetElem(row, 1, "");
    var rawpenalty := Util.GetElem(row, 2, "1");
    (inchar, Conversion(outchar, rawpenalty != "0"))
  }
}
