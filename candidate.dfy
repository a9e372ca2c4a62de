// The candidate word of scripts/buildutil.py: a word in the internal phonology together with
// its conversion penalty and the similarity data the ranking fills in later.
module Candidates {
  import opened Wrappers
  import opened Text
  import opened Phonology
  import opened Validation
  import Repair
  import Sets

  class Candidate {
    var word: string
    /** The penalty incurred when converting the source word into the internal phonology. */
    var penalty: int
    /** The code of the language the candidate was adapted from. */
    var lang: string
    /** The original word, romanisation or IPA ("" when not set). */
    var original: string
    /** The actual original word when `original` is a romanisation or IPA. */
    var trueOriginal: Option<string>
    /** The auxiliary languages that might be related. */
    var auxlangs: seq<string>
    /** The raw similarity penalty: summed distances to the other languages' candidates. */
    var rawPsim: int
    /** The similarity score, from 0 (worst) to 1 (best) once normalised. */
    var simscore: real
    /** Per language, the related candidates of that language. */
    var relatedCands: map<string, seq<Candidate>>
    /** Set by InsertFillerVowels. */
    var filled: bool

    constructor(word: string, penalty: int, lang: string, original: string,
                trueOriginal: Option<string>, auxlangs: seq<string>)
      ensures this.word == word && this.penalty == penalty && this.lang == lang
      ensures this.original == original && this.trueOriginal == trueOriginal
      ensures this.auxlangs == auxlangs
      ensures rawPsim == -1 && simscore == -1.0 && relatedCands == map[] && !filled
    {
      this.word := word;
      this.penalty := penalty;
      this.lang := lang;
      this.original := original;
      this.trueOriginal := trueOriginal;
      this.auxlangs := auxlangs;
      rawPsim := -1;
      simscore := -1.0;
      relatedCands := map[];
      filled := false;
    }

    /** The distortion score: 1 less a fifth of the penalty, but never below 0. */
    function DScore(): (r: real)
      reads this
      ensures r >= 0.0
      ensures penalty >= 0 ==> r <= 1.0
      ensures r == 0.0 <==> penalty >= 5
      ensures r == 1.0 <==> penalty == 0
      ensures penalty < 5 ==> r == 1.0 - penalty as real / 5.0
    {
      var d := 1.0 - penalty as real / 5.0;
      if d > 0.0 then d else 0.0
    }

    /** The total score: simscore times dscore. */
    function TotalScore(): (r: real)
      reads this
      ensures penalty >= 0 && 0.0 <= simscore ==> 0.0 <= r <= simscore
      ensures penalty >= 5 ==> r == 0.0
      ensures penalty == 0 ==> r == simscore
    {
      Sets.ScaleBounds(simscore, DScore());
      simscore * DScore()
    }

    /** The external form of the word (export_word). */
    function ExportedWord(): (r: string)
      reads this
      ensures 'C' !in r && 'S' !in r && 'N' !in r && 'ə' !in r
    {
      ExportedHasNoInternalLetters(word);
      Exported(word)
    }

    /** The number of syllables: the vowel count, less a half when the word both starts and
        ends with an internal vowel. */
    function Syllables(): (r: real)
      reads this
      ensures |word| > 0 && word[0] in InternalVowels && word[|word| - 1] in InternalVowels
              ==> r == CountVowelsInternal(word) as real - 0.5
      ensures !(|word| > 0 && word[0] in InternalVowels && word[|word| - 1] in InternalVowels)
              ==> r == CountVowelsInternal(word) as real
      ensures 0.0 <= r <= |word| as real
    {
      var count := CountVowelsInternal(word);
      assert |word| > 0 && word[0] in InternalVowels ==> LowerChar(word[0]) == word[0];
      if count != 0 && word[0] in InternalVowels && word[|word| - 1] in InternalVowels
      then count as real - 0.5
      else count as real
    }

    /** The number of natural languages (those not in `auxlangs`) with related candidates. */
    function CountRelatedNatlangCands(): (r: nat)
      reads this
      ensures r <= |relatedCands.Keys|
      ensures r == 0 <==> forall l :: l in relatedCands ==> l in auxlangs
    {
      var natlangs := set l | l in relatedCands && l !in auxlangs;
      Sets.SubsetCard(natlangs, relatedCands.Keys);
      assert forall l :: l in relatedCands && l !in auxlangs ==> l in natlangs;
      |natlangs|
    }

    /** Some related candidate comes from a natural language; for Glosa, from one that is
        neither Spanish nor French. */
    function HasSuitableRelatedNatlangCands(): (r: bool)
      reads this
      ensures r <==> exists l :: l in relatedCands && l !in auxlangs
                                 && !(lang == "glosa" && (l == "es" || l == "fr"))
      ensures lang != "glosa" ==> (r <==> CountRelatedNatlangCands() > 0)
      ensures r ==> CountRelatedNatlangCands() > 0
    {
      var dontCount := auxlangs + (if lang == "glosa" then ["es", "fr"] else []);
      exists l :: l in relatedCands && l !in dontCount
    }

    /** The languages with a related candidate whose external form equals this one's. */
    method FindLangsWithIdenticalCandidate() returns (result: set<string>)
      ensures forall l :: l in result <==>
        l in relatedCands && HasExport(relatedCands[l], Exported(word))
    {
      result := {};
      var w := Phonology.ExportWord(word);
      var todo := relatedCands.Keys;
      while todo != {}
        invariant todo <= relatedCands.Keys
        invariant forall l :: l in result <==>
          l in relatedCands && l !in todo && HasExport(relatedCands[l], w)
        decreases |todo|
      {
        var l :| l in todo;
        var found := FindExport(relatedCands[l], w);
        if found {
          result := result + {l};
        }
        todo := todo - {l};
      }
    }

    /** insert_filler_vowels: repairs every sub-word once and adds the penalties; a second
        call changes nothing. */
    method InsertFillerVowels()
      modifies this`word, this`penalty, this`filled
      ensures old(filled) ==> word == old(word) && penalty == old(penalty)
      ensures !old(filled) ==> word == Repair.Repaired(old(word), old(lang), old(original)).0
      ensures !old(filled) ==> penalty == old(penalty) + Repair.Repaired(old(word), old(lang), old(original)).1
      ensures !old(filled) ==> penalty >= old(penalty) + CountChar(word, 'ə')
      ensures filled
    {
      if filled {
        return;
      }
      var repaired, added := Repair.RepairText(word, lang, original);
      word := repaired;
      penalty := penalty + added;
      filled := true;
    }

    /** validate: None when the word is valid, otherwise the first problem found. */
    method Validate() returns (r: Option<ValidationError>)
      ensures r.None? <==> Valid(word)
      ensures (r.Some? && r.value.UnexpectedChars?) <==> Unexpected(word) != {}
      ensures r.Some? && r.value.UnexpectedChars? ==> r.value.chars == Unexpected(word)
    {
      var unexpected := set c | c in word && c !in AllConsonants + InternalVowels + " ";
      if unexpected != {} {
        return Some(UnexpectedChars(unexpected));
      }
      r := CheckWords(SplitWs(word));
    }
  }

  /** The outer loop of validate: the sub-words, left to right. */
  method CheckWords(words: seq<string>) returns (r: Option<ValidationError>)
    ensures r.None? <==> forall k :: 0 <= k < |words| ==> WordOk(words[k])
    ensures r.Some? ==> !r.value.UnexpectedChars?
  {
    for k := 0 to |words|
      invariant forall j :: 0 <= j < k ==> WordOk(words[j])
    {
      var problem := CheckWord(words[k]);
      if problem.Some? {
        return problem;
      }
    }
    return None;
  }

  /** Some candidate of `list` has the external form `w`. */
  ghost predicate HasExport(list: seq<Candidate>, w: string)
    reads set i | 0 <= i < |list| :: list[i]
  {
    exists i :: 0 <= i < |list| && Exported(list[i].word) == w
  }

  /** The inner loop of find_langs_with_identical_candidate, ending at the first match. */
  method FindExport(list: seq<Candidate>, w: string) returns (found: bool)
    ensures found <==> HasExport(list, w)
  {
    var j := 0;
    found := false;
    while j < |list| && !found
      invariant 0 <= j <= |list|
      invariant found <==> exists i :: 0 <= i < j && Exported(list[i].word) == w
    {
      var e := Phonology.ExportWord(list[j].word);
      found := e == w;
      j := j + 1;
    }
  }
}
