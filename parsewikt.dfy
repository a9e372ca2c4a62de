// Wiktionary translation records (scripts/parsewikt.py): a translation gathers the words
// one language gives for a word sense, a term gathers the translations of one sense, and
// the parser decides which language code a translation gets and which ones it skips.
module Wiktionary {
  import opened Wrappers
  import opened Text
  import Merging

  // ----- Translation -----

  /** The value of a `Translation`: parallel lists of words, romanisations and IPA
      transcriptions ('' where missing), and the set of the words. */
  datatype Trans = Trans(code: string, word: seq<string>, wordSet: set<string>,
                         latin: seq<string>, ipa: seq<string>)

  /** The lists run in parallel and the set holds exactly the listed words. */
  predicate Consistent(t: Trans)
  {
    |t.latin| == |t.word| && |t.ipa| == |t.word| && t.wordSet == set w | w in t.word
  }

  /** No character that the serialised form uses as punctuation. */
  predicate CleanText(s: string)
  {
    ';' !in s && '[' !in s && ']' !in s
  }

  /** Every word, romanisation and transcription is clean; transcriptions hold no '/'. */
  predicate Clean(t: Trans)
  {
    (forall k :: 0 <= k < |t.word| ==> CleanText(t.word[k]))
    && (forall k :: 0 <= k < |t.latin| ==> CleanText(t.latin[k]))
    && (forall k :: 0 <= k < |t.ipa| ==> CleanText(t.ipa[k]) && '/' !in t.ipa[k])
  }

  /** `_WORD_TRANS`: ';', '[' and ']' become ',', '(' and ')'. */
  function CleanWord(s: string): string
  {
    Translate(s, ";[]", ",()", "")
  }

  /** `_IPA_TRANS`: ';', '[', ']' and '/' are deleted. */
  function CleanIpa(s: string): string
  {
    Translate(s, "", "", ";[]/")
  }

  lemma CleanWordIsClean(s: string)
    ensures CleanText(CleanWord(s))
  {
    TranslateRemoves(s, ";[]", ",()", "", ';');
    TranslateRemoves(s, ";[]", ",()", "", '[');
    TranslateRemoves(s, ";[]", ",()", "", ']');
  }

  lemma CleanIpaIsClean(s: string)
    ensures CleanText(CleanIpa(s)) && '/' !in CleanIpa(s)
  {
    TranslateRemoves(s, "", "", ";[]/", ';');
    TranslateRemoves(s, "", "", ";[]/", '[');
    TranslateRemoves(s, "", "", ";[]/", ']');
    TranslateRemoves(s, "", "", ";[]/", '/');
  }

  /** `Translation.create`: one word, with '' for a missing romanisation or IPA. */
  function Created(code: string, word: string, latin: Option<string>, ipa: Option<string>): (t: Trans)
    ensures Consistent(t) && Clean(t) && t.code == code && |t.word| == 1
    ensures latin.None? ==> t.latin == [""]
    ensures ipa.None? ==> t.ipa == [""]
  {
    CleanWordIsClean(word);
    CleanWordIsClean(if latin.None? then "" else latin.value);
    CleanIpaIsClean(if ipa.None? then "" else ipa.value);
    var w := CleanWord(word);
    Trans(code, [w], {w}, [if latin.None? then "" else CleanWord(latin.value)],
          [if ipa.None? then "" else CleanIpa(ipa.value)])
  }

  /** A clean word is taken over unchanged. */
  lemma CreatedKeepsCleanWord(code: string, word: string, latin: Option<string>, ipa: Option<string>)
    requires CleanText(word)
    ensures Created(code, word, latin, ipa).word == [word]
  {
    forall k | 0 <= k < |word| ensures word[k] !in ";[]" && word[k] !in "" {
      assert word[k] in word;
    }
    TranslateIdentity(word, ";[]", ",()", "");
  }

  /** `Translation.merge`: an error for another language, nothing new when every word of
      `o` is already present, else the lists of `o` appended. */
  function Merged(t: Trans, o: Trans): (r: Result<Trans>)
    ensures r.Err? <==> t.code != o.code
    ensures r.Ok? ==> r.value.code == t.code && t.word <= r.value.word
    ensures r.Ok? ==> r.value.wordSet == t.wordSet + o.wordSet
    ensures t.code == o.code && o.wordSet <= t.wordSet ==> r == Ok(t)
    ensures r.Ok? && !(o.wordSet <= t.wordSet) ==>
      r.value.word == t.word + o.word && r.value.latin == t.latin + o.latin && r.value.ipa == t.ipa + o.ipa
    ensures r.Ok? && Consistent(t) && Consistent(o) ==> Consistent(r.value)
    ensures r.Ok? && Clean(t) && Clean(o) ==> Clean(r.value)
  {
    if t.code != o.code then
      Err("ValueError: Cannot merge " + t.code + " translation with one for " + o.code)
    else if o.wordSet <= t.wordSet then Ok(t)
    else
      var m := Trans(t.code, t.word + o.word, t.wordSet + o.wordSet, t.latin + o.latin, t.ipa + o.ipa);
      assert Consistent(t) && Consistent(o) ==> Consistent(m) by {
        if Consistent(t) && Consistent(o) {
          forall w ensures w in m.word <==> w in t.word || w in o.word {
          }
        }
      }
      Ok(m)
  }

  /** A translation whose words are all present changes nothing, so merging is
      idempotent: a translation merged into itself, or merged twice, stays as it was. */
  lemma MergeIdempotent(t: Trans, o: Trans)
    requires t.code == o.code
    ensures Merged(t, t) == Ok(t)
    ensures Merged(Merged(t, o).value, o) == Merged(t, o)
  {
  }

  // ----- Serialisation -----

  /** The romanisation, or the IPA when there is none. */
  function Extra(t: Trans, k: nat): string
    requires Consistent(t) && k < |t.word|
  {
    if t.latin[k] != "" then t.latin[k] else t.ipa[k]
  }

  /** A word followed by its extra in brackets, if it has one. */
  function EntryText(w: string, extra: string): string
  {
    if extra == "" then w else w + " [" + extra + "]"
  }

  function Entries(t: Trans): (es: seq<string>)
    requires Consistent(t)
    ensures |es| == |t.word|
  {
    seq(|t.word|, k requires 0 <= k < |t.word| => EntryText(t.word[k], Extra(t, k)))
  }

  /** `Translation.serialize` */
  function Serialized(t: Trans): string
    requires Consistent(t)
  {
    Join(Entries(t), "; ")
  }

  /** An entry splits at '[' into the word (with the space before the bracket) and the
      extra (with the closing bracket). */
  lemma EntryReadsBack(w: string, extra: string)
    requires CleanText(w) && CleanText(extra)
    ensures Split(EntryText(w, extra), "[") == if extra == "" then [w] else [w + " ", extra + "]"]
  {
    if extra == "" {
      SplitJoin([w], "[");
    } else {
      assert '[' !in w + " " && '[' !in extra + "]";
      SplitJoin([w + " ", extra + "]"], "[");
      assert Join([w + " ", extra + "]"], "[") == EntryText(w, extra);
    }
  }

  /** A clean translation with at least one word serialises to text that splits at "; "
      into one entry per word: the word and its romanisation or IPA in brackets. */
  lemma SerializedReadsBack(t: Trans)
    requires Consistent(t) && Clean(t) && |t.word| > 0
    ensures Split(Serialized(t), "; ") == Entries(t)
    ensures forall k :: 0 <= k < |t.word| ==>
              Split(Entries(t)[k], "[")
              == if Extra(t, k) == "" then [t.word[k]] else [t.word[k] + " ", Extra(t, k) + "]"]
  {
    var es := Entries(t);
    forall k | 0 <= k < |es| ensures ';' !in es[k] {
      assert CleanText(t.word[k]) && CleanText(Extra(t, k));
    }
    SplitJoin(es, "; ");
    forall k | 0 <= k < |t.word|
      ensures Split(es[k], "[")
              == if Extra(t, k) == "" then [t.word[k]] else [t.word[k] + " ", Extra(t, k) + "]"]
    {
      EntryReadsBack(t.word[k], Extra(t, k));
    }
  }

  class Translation {
    var code: string
    var word: seq<string>
    var wordSet: set<string>
    var latin: seq<string>
    var ipa: seq<string>

    function Model(): Trans
      reads this
    {
      Trans(code, word, wordSet, latin, ipa)
    }

    ghost predicate Valid()
      reads this
    {
      Consistent(Model())
    }

    /** `Translation.create` */
    constructor Create(code: string, word: string, latin: Option<string>, ipa: Option<string>)
      ensures Valid() && Model() == Created(code, word, latin, ipa)
    {
      var w := CleanWord(word);
      this.code := code;
      this.word := [w];
      this.wordSet := {w};
      this.latin := [if latin.None? then "" else CleanWord(latin.value)];
      this.ipa := [if ipa.None? then "" else CleanIpa(ipa.value)];
    }

    /** `Translation.merge`; on an error the translation is left as it was. */
    method Merge(other: Translation) returns (err: Option<string>)
      modifies this
      ensures Merged(old(Model()), old(other.Model())) == if err.Some? then Err(err.value) else Ok(Model())
      ensures err.Some? ==> Model() == old(Model())
    {
      var oCode, oWord, oSet, oLatin, oIpa := other.code, other.word, other.wordSet, other.latin, other.ipa;
      if code != oCode {
        return Some("ValueError: Cannot merge " + code + " translation with one for " + oCode);
      }
      if oSet <= wordSet {
        return None;
      }
      word := word + oWord;
      wordSet := wordSet + oSet;
      latin := latin + oLatin;
      ipa := ipa + oIpa;
      return None;
    }

    /** `Translation.serialize` */
    method Serialize() returns (s: string)
      requires Valid()
      ensures s == Serialized(Model())
    {
      var entries: seq<string> := [];
      for idx := 0 to |word|
        invariant |entries| == idx
        invariant forall k :: 0 <= k < idx ==> entries[k] == EntryText(word[k], Extra(Model(), k))
      {
        var extra := latin[idx];
        if extra == "" {
          extra := ipa[idx];
        }
        var entry := word[idx];
        if extra != "" {
          entry := entry + " [" + extra + "]";
        }
        entries := entries + [entry];
      }
      assert entries == Entries(Model());
      s := Join(entries, "; ");
    }
  }

  // ----- Term -----

  /** The value of a `Term`. */
  datatype TermValue = TermValue(enWordLower: string, cls: string, sense: string,
                                 transcount: int, trans: map<string, Trans>)

  /** Each translation is filed under its own code and is consistent. */
  predicate Keyed(m: map<string, Trans>)
  {
    forall c :: c in m ==> m[c].code == c && Consistent(m[c])
  }

  /** `Term.add_trans`: merged into the translation for the same code, else filed as a new
      one and counted; an English translation refreshes the lower-cased English word. */
  function AddedTrans(v: TermValue, t: Trans): (r: TermValue)
    requires Keyed(v.trans)
    ensures r.trans.Keys == v.trans.Keys + {t.code}
    ensures forall c :: c in v.trans && c != t.code ==> r.trans[c] == v.trans[c]
    ensures r.transcount == if t.code in v.trans then v.transcount else v.transcount + 1
    ensures t.code !in v.trans ==> r.trans[t.code] == t
    ensures t.code in v.trans ==> r.trans[t.code].wordSet == v.trans[t.code].wordSet + t.wordSet
    ensures Consistent(t) ==> Keyed(r.trans)
    ensures r.cls == v.cls && r.sense == v.sense
    ensures r.enWordLower == if t.code == "en" then Lower(Join(r.trans["en"].word, ";")) else v.enWordLower
  {
    var trans := if t.code in v.trans then v.trans[t.code := Merged(v.trans[t.code], t).value]
                 else v.trans[t.code := t];
    var count := if t.code in v.trans then v.transcount else v.transcount + 1;
    var en := if t.code == "en" then Lower(Join(trans[t.code].word, ";")) else v.enWordLower;
    TermValue(en, v.cls, v.sense, count, trans)
  }

  /** `Term.filter_trans`: only the listed codes stay; the count is not reduced. */
  function Filtered(v: TermValue, codeSet: set<string>): (r: TermValue)
    ensures r.trans.Keys == v.trans.Keys * codeSet
    ensures forall c :: c in r.trans ==> r.trans[c] == v.trans[c]
    ensures r.transcount == v.transcount && r.enWordLower == v.enWordLower
    ensures r.cls == v.cls && r.sense == v.sense
    ensures Keyed(v.trans) ==> Keyed(r.trans)
  {
    v.(trans := map c | c in v.trans && c in codeSet :: v.trans[c])
  }

  /** A Python dict of strings, with its keys in insertion order. */
  datatype StrDict = StrDict(keys: seq<string>, store: map<string, string>)

  /** `d[k] = v`: a new key goes last, an existing one keeps its place. */
  function Put(d: StrDict, k: string, v: string): (r: StrDict)
  {
    StrDict(if k in d.store then d.keys else d.keys + [k], d.store[k := v])
  }

  /** The sense shown for a term: its own, or "Translations" when it has none. */
  function SenseShown(sense: string): string
  {
    if sense != "" then sense else "Translations"
  }

  /** The fields every term dict starts with. */
  function TermHeader(v: TermValue): StrDict
  {
    Put(Put(Put(StrDict([], map[]), "class", v.cls), "sense", SenseShown(v.sense)),
        "transcount", Merging.IntToString(v.transcount))
  }

  /** The header extended by the serialised translations of the first `n` codes. */
  function PutCodes(d: StrDict, m: map<string, Trans>, codes: seq<string>, n: nat): StrDict
    requires Keyed(m) && n <= |codes| && forall i :: 0 <= i < |codes| ==> codes[i] in m
  {
    if n == 0 then d
    else Put(PutCodes(d, m, codes, n - 1), codes[n - 1], Serialized(m[codes[n - 1]]))
  }

  /** `Term.to_dict`: class, sense and count, then each translation by sorted code. */
  function TermDict(v: TermValue): StrDict
    requires Keyed(v.trans)
  {
    var codes := SortedSet(v.trans.Keys);
    PutCodes(TermHeader(v), v.trans, codes, |codes|)
  }

  /** A code put so far maps to its serialised translation; any other key keeps its
      value. */
  lemma {:induction false} PutCodesAt(d: StrDict, m: map<string, Trans>, codes: seq<string>, n: nat, k: string)
    requires Keyed(m) && n <= |codes| && forall i :: 0 <= i < |codes| ==> codes[i] in m
    ensures k in codes[..n] ==> k in PutCodes(d, m, codes, n).store
                                && PutCodes(d, m, codes, n).store[k] == Serialized(m[k])
    ensures k !in codes[..n] ==> (k in PutCodes(d, m, codes, n).store <==> k in d.store)
    ensures k !in codes[..n] && k in d.store ==> PutCodes(d, m, codes, n).store[k] == d.store[k]
  {
    if n > 0 {
      PutCodesAt(d, m, codes, n - 1, k);
      assert codes[..n] == codes[..n - 1] + [codes[n - 1]];
    }
  }

  /** New, distinct codes are appended to the keys in their order. */
  lemma {:induction false} PutCodesKeys(d: StrDict, m: map<string, Trans>, codes: seq<string>, n: nat)
    requires Keyed(m) && n <= |codes| && forall i :: 0 <= i < |codes| ==> codes[i] in m
    requires StrictlySorted(codes) && forall i :: 0 <= i < |codes| ==> codes[i] !in d.store
    ensures PutCodes(d, m, codes, n).keys == d.keys + codes[..n]
  {
    if n > 0 {
      PutCodesKeys(d, m, codes, n - 1);
      assert codes[n - 1] !in codes[..n - 1] by {
        forall i | 0 <= i < n - 1 ensures codes[i] != codes[n - 1] {
          SortedBelow(codes, i, n - 1);
          LessIrreflexive(codes[i]);
        }
      }
      PutCodesAt(d, m, codes, n - 1, codes[n - 1]);
      assert codes[..n] == codes[..n - 1] + [codes[n - 1]];
    }
  }

  lemma {:induction false} SortedBelow(s: seq<string>, i: nat, j: nat)
    requires StrictlySorted(s) && i < j < |s|
    ensures Less(s[i], s[j])
    decreases j - i
  {
    if i + 1 < j {
      SortedBelow(s, i, j - 1);
      LessTransitive(s[i], s[j - 1], s[j]);
    }
  }

  /** A term dict holds the class, the sense (defaulted) and the count, then one entry per
      language code with the serialised translation, codes in ascending order, as long
      as no code clashes with the three field names. */
  lemma TermDictContents(v: TermValue)
    requires Keyed(v.trans)
    requires "class" !in v.trans && "sense" !in v.trans && "transcount" !in v.trans
    ensures TermDict(v).keys == ["class", "sense", "transcount"] + SortedSet(v.trans.Keys)
    ensures "class" in TermDict(v).store && TermDict(v).store["class"] == v.cls
    ensures "sense" in TermDict(v).store && TermDict(v).store["sense"] == SenseShown(v.sense)
    ensures "transcount" in TermDict(v).store
            && TermDict(v).store["transcount"] == Merging.IntToString(v.transcount)
    ensures forall c :: c in v.trans ==> c in TermDict(v).store && TermDict(v).store[c] == Serialized(v.trans[c])
  {
    TermDictKeys(v);
    TermDictField(v, "class");
    TermDictField(v, "sense");
    TermDictField(v, "transcount");
    forall c | c in v.trans
      ensures c in TermDict(v).store && TermDict(v).store[c] == Serialized(v.trans[c])
    {
      TermDictCode(v, c);
    }
  }

  lemma TermDictKeys(v: TermValue)
    requires Keyed(v.trans)
    requires "class" !in v.trans && "sense" !in v.trans && "transcount" !in v.trans
    ensures TermDict(v).keys == ["class", "sense", "transcount"] + SortedSet(v.trans.Keys)
  {
    var codes := SortedSet(v.trans.Keys);
    var h := TermHeader(v);
    HeaderShape(v);
    forall i | 0 <= i < |codes| ensures codes[i] !in h.store {
      assert codes[i] in v.trans;
    }
    assert codes[..|codes|] == codes;
    PutCodesKeys(h, v.trans, codes, |codes|);
  }

  lemma HeaderShape(v: TermValue)
    ensures TermHeader(v).keys == ["class", "sense", "transcount"]
    ensures TermHeader(v).store.Keys == {"class", "sense", "transcount"}
  {
  }

  /** A header field that is not a language code keeps its header value. */
  lemma TermDictField(v: TermValue, f: string)
    requires Keyed(v.trans) && f !in v.trans && f in {"class", "sense", "transcount"}
    ensures f in TermDict(v).store && TermDict(v).store[f] == TermHeader(v).store[f]
    ensures f == "class" ==> TermHeader(v).store[f] == v.cls
    ensures f == "sense" ==> TermHeader(v).store[f] == SenseShown(v.sense)
    ensures f == "transcount" ==> TermHeader(v).store[f] == Merging.IntToString(v.transcount)
  {
    var codes := SortedSet(v.trans.Keys);
    assert codes[..|codes|] == codes;
    PutCodesAt(TermHeader(v), v.trans, codes, |codes|, f);
  }

  lemma TermDictCode(v: TermValue, c: string)
    requires Keyed(v.trans) && c in v.trans
    ensures c in TermDict(v).store && TermDict(v).store[c] == Serialized(v.trans[c])
  {
    var codes := SortedSet(v.trans.Keys);
    assert codes[..|codes|] == codes;
    PutCodesAt(TermHeader(v), v.trans, codes, |codes|, c);
  }

  /** The loop of `Term.to_dict`: each translation, serialised, in the order of `codes`. */
  method PutTranslations(header: StrDict, m: map<string, Trans>, codes: seq<string>) returns (d: StrDict)
    requires Keyed(m) && forall i :: 0 <= i < |codes| ==> codes[i] in m
    ensures d == PutCodes(header, m, codes, |codes|)
  {
    d := header;
    for i := 0 to |codes|
      invariant d == PutCodes(header, m, codes, i)
    {
      d := Put(d, codes[i], Serialized(m[codes[i]]));
    }
  }

  /** A term keeps the values of its translations: a stored translation is only ever
      changed by merging into it, which the term does by replacing the value. */
  class Term {
    var enWordLower: string
    var cls: string
    var sense: string
    var transcount: int
    var transdict: map<string, Trans>

    function Model(): TermValue
      reads this
    {
      TermValue(enWordLower, cls, sense, transcount, transdict)
    }

    ghost predicate Valid()
      reads this
    {
      Keyed(transdict)
    }

    constructor (cls: string, sense: string)
      ensures Valid() && Model() == TermValue("", cls, sense, 0, map[])
    {
      enWordLower := "";
      this.cls := cls;
      this.sense := sense;
      transcount := 0;
      transdict := map[];
    }

    /** `Term.add_trans` */
    method AddTrans(trans: Trans)
      requires Valid() && Consistent(trans)
      modifies this
      ensures Valid()
      ensures Model() == AddedTrans(old(Model()), trans)
    {
      if trans.code in transdict {
        var merged := Merged(transdict[trans.code], trans);
        transdict := transdict[trans.code := merged.value];
      } else {
        transdict := transdict[trans.code := trans];
        transcount := transcount + 1;
      }
      if trans.code == "en" {
        enWordLower := Lower(Join(transdict[trans.code].word, ";"));
      }
    }

    /** `Term.filter_trans` */
    method FilterTrans(codeSet: set<string>)
      requires Valid()
      modifies this
      ensures Valid()
      ensures Model() == Filtered(old(Model()), codeSet)
    {
      transdict := map c | c in transdict && c in codeSet :: transdict[c];
    }

    /** `Term.to_dict` */
    method ToDict() returns (d: StrDict)
      requires Valid()
      ensures d == TermDict(Model())
    {
      d := StrDict([], map[]);
      d := Put(d, "class", cls);
      d := Put(d, "sense", if sense != "" then sense else "Translations");
      d := Put(d, "transcount", Merging.IntToString(transcount));
      assert d == TermHeader(Model());
      var codes := SortedSet(transdict.Keys);
      d := PutTranslations(d, transdict, codes);
    }
  }

  // ----- Language codes -----

  /** The fields of a translation record that decide its language code. */
  datatype TransInfo = TransInfo(code: Option<string>, lang: Option<string>, tags: Option<seq<string>>)

  /** The language name, stripped when non-empty. */
  function LangOf(t: TransInfo): Option<string>
  {
    if t.lang.Some? && t.lang.value != "" then Some(Strip(t.lang.value)) else t.lang
  }

  /** The code before the Mandarin rule; None when the language has to be looked up and is
      not known. */
  function BaseCode(lang2code: map<string, string>, t: TransInfo): Option<string>
  {
    var lang := LangOf(t);
    if t.code.None? || t.code.value == "" || (t.code.value == "en" && lang != Some("English")) then
      if lang.Some? && lang.value in lang2code && lang2code[lang.value] != "" then Some(lang2code[lang.value])
      else None
    else t.code
  }

  /** `WiktParser.get_code`: a missing code, or 'en' for a language other than English, is
      looked up by language name, else 'mis'; 'zh' marked Mandarin becomes 'cmn'. Testing
      for Mandarin in a missing language name is the TypeError the source raises. */
  function CodeOf(lang2code: map<string, string>, t: TransInfo): (r: Result<string>)
    ensures r.Ok? ==> r.value != ""
    ensures BaseCode(lang2code, t).None? ==> r == Ok("mis")
    ensures t.code.Some? && t.code.value !in {"", "en", "zh"} ==> r == Ok(t.code.value)
    ensures ((t.code.None? || t.code.value == "") && LangOf(t).Some? && LangOf(t).value in lang2code
             && lang2code[LangOf(t).value] !in {"", "zh"}) ==> r == Ok(lang2code[LangOf(t).value])
    ensures BaseCode(lang2code, t) == Some("zh") && t.tags.Some? && "Mandarin" in t.tags.value ==> r == Ok("cmn")
    ensures r.Err? <==> BaseCode(lang2code, t) == Some("zh") && LangOf(t).None?
                        && !(t.tags.Some? && "Mandarin" in t.tags.value)
  {
    var code := if BaseCode(lang2code, t).Some? then BaseCode(lang2code, t).value else "mis";
    var lang := LangOf(t);
    if code != "zh" then Ok(code)
    else if t.tags.Some? && "Mandarin" in t.tags.value then Ok("cmn")
    else if lang.None? then Err("TypeError: argument of type 'NoneType' is not iterable")
    else if Contains(lang.value, "Mandarin") then Ok("cmn")
    else Ok(code)
  }

  /** `counter[key] += 1` on a Python Counter. */
  function Bump(counter: map<Option<string>, nat>, key: Option<string>): (r: map<Option<string>, nat>)
    ensures key in r && r[key] == (if key in counter then counter[key] else 0) + 1
    ensures forall k :: k in counter && k != key ==> k in r && r[k] == counter[k]
    ensures r.Keys == counter.Keys + {key}
  {
    counter[key := (if key in counter then counter[key] else 0) + 1]
  }

  /** The part of `WiktParser` that assigns language codes. */
  class CodeFinder {
    var lang2code: map<string, string>
    var unknownLangCounter: map<Option<string>, nat>

    constructor (lang2code: map<string, string>)
      ensures this.lang2code == lang2code && unknownLangCounter == map[]
    {
      this.lang2code := lang2code;
      unknownLangCounter := map[];
    }

    /** `WiktParser.get_code`; a language that has no code is counted. */
    method GetCode(t: TransInfo) returns (r: Result<string>)
      modifies this
      ensures r == CodeOf(lang2code, t) && lang2code == old(lang2code)
      ensures unknownLangCounter == if BaseCode(lang2code, t).None? then Bump(old(unknownLangCounter), LangOf(t))
                                    else old(unknownLangCounter)
    {
      var code := t.code;
      var lang := t.lang;
      if lang.Some? && lang.value != "" {
        lang := Some(Strip(lang.value));
      }
      if code.None? || code.value == "" || (code.value == "en" && lang != Some("English")) {
        code := if lang.Some? && lang.value in lang2code then Some(lang2code[lang.value]) else None;
        if code.None? || code.value == "" {
          code := Some("mis");
          unknownLangCounter := Bump(unknownLangCounter, lang);
        }
      }
      if code.value == "zh" {
        if t.tags.Some? && "Mandarin" in t.tags.value {
          return Ok("cmn");
        }
        if lang.None? {
          return Err("TypeError: argument of type 'NoneType' is not iterable");
        }
        if Contains(lang.value, "Mandarin") {
          return Ok("cmn");
        }
      }
      return Ok(code.value);
    }
  }

  // ----- Skip rules -----

  /** Translations marked with one of these tags are unsuitable (archaic, rare, ...). */
  const TagsToSkip: set<string> := {"archaic", "colloquial", "dated", "derogatory", "dialectal",
    "historical", "obsolete", "pejorative", "rare", "regional", "slang", "uncommon", "vulgar"}

  /** Regional variants of German. */
  const DeTagsToSkip: set<string> := {"Alemannic-German", "Austria", "Austrian", "Bavaria",
    "Liechtenstein", "Palatine", "Swabian", "Swiss", "Swiss-German", "Switzerland", "Swabian German"}

  /** Regional variants of Spanish. */
  const EsTagsToSkip: set<string> := {"Aragon", "Argentina", "Belize", "Bolivia", "Canary-Islands",
    "Caribbean", "Central-America", "Chile", "Colombia", "Costa-Rica", "Cuba", "Dominican-Republic",
    "Ecuador", "El-Salvador", "Guatemala", "Honduras", "Latin-America", "Mexico", "Nicaragua",
    "Panama", "Paraguay", "Peru", "Philippines", "Puerto-Rico", "South-America", "Uruguay", "US",
    "Venezuela"}

  /** Regional variants of French. */
  const FrTagsToSkip: set<string> := {"Belgium", "Canada", "Canadian-French", "Louisiana",
    "Luxembourg", "North-America", "Quebec", "Switzerland"}

  /** The fields of a translation record that the skip rules look at; `tags` is the
      record's tags followed by its raw tags. */
  datatype TransEntry = TransEntry(tags: seq<string>, lang: Option<string>, roman: Option<string>,
                                   word: Option<string>)

  /** Some earlier translation of the same sense is for `code`. */
  predicate HasCode(existing: seq<Trans>, code: string)
  {
    exists k :: 0 <= k < |existing| && existing[k].code == code
  }

  predicate AnyIn(tags: seq<string>, s: set<string>)
  {
    exists k :: 0 <= k < |tags| && tags[k] in s
  }

  predicate AnyContains(tags: seq<string>, sub: string)
  {
    exists k :: 0 <= k < |tags| && Contains(tags[k], sub)
  }

  predicate StartsWith(s: string, prefix: string)
  {
    |prefix| <= |s| && s[..|prefix|] == prefix
  }

  predicate AnyEndsWith(words: seq<string>, suffix: string)
  {
    exists k :: 0 <= k < |words| && EndsWith(words[k], suffix)
  }

  predicate AnyStartsWith(words: seq<string>, prefix: string)
  {
    exists k :: 0 <= k < |words| && StartsWith(words[k], prefix)
  }

  /** The rules that do not concern words marked "disused". */
  predicate OtherSkipRules(t: Trans, e: TransEntry, existing: seq<Trans>)
  {
    var tags := e.tags;
    (AnyIn(tags, TagsToSkip) && HasCode(existing, t.code))
    || (t.code == "ar" && (AnyContains(tags, " Arabic") || AnyContains(tags, "-Arabic"))
        && HasCode(existing, "ar"))
    || (t.code == "de" && (e.lang != Some("German") || (AnyIn(tags, DeTagsToSkip) && HasCode(existing, "de"))))
    || (t.code == "es" && AnyIn(tags, EsTagsToSkip) && "Spain" !in tags && HasCode(existing, "es"))
    || (t.code == "fr" && AnyIn(tags, FrTagsToSkip) && "France" !in tags && HasCode(existing, "fr"))
    || (t.code == "jv" && e.roman.Some? && e.roman.value != (if e.word.Some? then e.word.value else ""))
    || (t.code == "ko" && "North Korea" in tags)
    || (t.code == "ms" && "Jawi" in tags)
  }

  /** `WiktParser.skip_trans` as written: by Python's precedence the "disused:" prefix test
      stands outside the test for Spanish. */
  predicate SkipTransAsWritten(t: Trans, e: TransEntry, existing: seq<Trans>)
  {
    OtherSkipRules(t, e, existing)
    || (t.code == "es" && AnyEndsWith(t.word, "disused)"))
    || AnyStartsWith(t.word, "disused:")
  }

  /** `WiktParser.skip_trans` as documented: only a Spanish word can be skipped for being
      marked "disused". */
  predicate SkipTrans(t: Trans, e: TransEntry, existing: seq<Trans>)
  {
    OtherSkipRules(t, e, existing)
    || (t.code == "es" && (AnyEndsWith(t.word, "disused)") || AnyStartsWith(t.word, "disused:")))
  }

  /** A French word starting with "disused:" is skipped as written, though the rule is
      meant for Spanish only. */
  lemma DisusedSkipsAnyLanguage()
    ensures SkipTransAsWritten(Trans("fr", ["disused: x"], {"disused: x"}, [""], [""]),
                               TransEntry([], Some("French"), None, Some("disused: x")), [])
    ensures !SkipTrans(Trans("fr", ["disused: x"], {"disused: x"}, [""], [""]),
                       TransEntry([], Some("French"), None, Some("disused: x")), [])
  {
    var w := "disused: x";
    assert StartsWith(w, "disused:");
    assert ["disused: x"][0] == w;
  }

  /** A flagged tag, a regional variant or an Arabic variant only counts against a
      translation when its language already has one; the first translation of a language
      other than German, Spanish, Javanese, Korean and Malay is always kept. */
  lemma FirstOfLanguageKept(t: Trans, e: TransEntry, existing: seq<Trans>)
    requires !HasCode(existing, t.code)
    requires t.code != "de" && t.code != "es" && t.code != "jv" && t.code != "ko" && t.code != "ms"
    ensures !SkipTrans(t, e, existing)
  {
  }

  /** A flagged tag skips any later translation of the same language. */
  lemma TaggedSkipped(t: Trans, e: TransEntry, existing: seq<Trans>, k: nat)
    requires k < |e.tags| && e.tags[k] in TagsToSkip && HasCode(existing, t.code)
    ensures SkipTrans(t, e, existing)
  {
  }

  /** Korean 'North Korea' and Malay 'Jawi' translations are always skipped. */
  lemma RegionalScriptsSkipped(t: Trans, e: TransEntry, existing: seq<Trans>)
    requires (t.code == "ko" && "North Korea" in e.tags) || (t.code == "ms" && "Jawi" in e.tags)
    ensures SkipTrans(t, e, existing)
  {
  }

  /** The two versions differ only on non-Spanish words carrying the "disused:" prefix. */
  lemma SkipVersionsAgree(t: Trans, e: TransEntry, existing: seq<Trans>)
    ensures SkipTrans(t, e, existing) ==> SkipTransAsWritten(t, e, existing)
    ensures SkipTransAsWritten(t, e, existing) && !SkipTrans(t, e, existing)
            ==> t.code != "es" && AnyStartsWith(t.word, "disused:")
  {
  }

  // ----- English pronunciation -----

  /** `val in second and val not in first` */
  predicate OnlyInSecond(val: string, first: string, second: string)
  {
    Contains(second, val) && !Contains(first, val)
  }

  /** The pronunciations of a Wiktionary entry: a transcription, if any, and the tags. */
  datatype Sound = Sound(ipa: Option<string>, tags: seq<string>)

  /** Tags marking a US pronunciation. */
  const UsTags: set<string> := {"US", "General-American", "General American"}

  predicate IsUs(s: Sound)
  {
    exists k :: 0 <= k < |s.tags| && s.tags[k] in UsTags
  }

  /** A sound with a transcription, and a US one when `us` is set. */
  predicate Wanted(s: Sound, us: bool)
  {
    s.ipa.Some? && (us ==> IsUs(s))
  }

  /** The index of the first wanted sound at or after `from`, or the length. */
  function FirstWanted(sounds: seq<Sound>, us: bool, from: nat): (i: nat)
    requires from <= |sounds|
    ensures from <= i <= |sounds|
    ensures i < |sounds| ==> Wanted(sounds[i], us)
    ensures forall j :: from <= j < i ==> !Wanted(sounds[j], us)
    decreases |sounds| - from
  {
    if from == |sounds| || Wanted(sounds[from], us) then from else FirstWanted(sounds, us, from + 1)
  }

  function IpaAt(sounds: seq<Sound>, i: nat): Option<string>
  {
    if i < |sounds| then sounds[i].ipa else None
  }

  /** The first transcription. */
  function VeryFirst(sounds: seq<Sound>): Option<string>
  {
    IpaAt(sounds, FirstWanted(sounds, false, 0))
  }

  /** The first transcription tagged as US. */
  function FirstUs(sounds: seq<Sound>): Option<string>
  {
    IpaAt(sounds, FirstWanted(sounds, true, 0))
  }

  /** `WiktParser.find_en_ipa`: the first US transcription when the word has an 'r' that
      only the US form renders as 'ɹ' or 'ɚ', else the very first transcription. */
  function EnIpa(sounds: seq<Sound>, word: string): (r: Option<string>)
    ensures r == VeryFirst(sounds) || r == FirstUs(sounds)
    ensures r.None? <==> forall j :: 0 <= j < |sounds| ==> sounds[j].ipa.None?
    ensures !Contains(word, "r") ==> r == VeryFirst(sounds)
    ensures FirstUs(sounds).None? ==> r == VeryFirst(sounds)
  {
    var vf := VeryFirst(sounds);
    var fu := FirstUs(sounds);
    assert fu.Some? ==> vf.Some? by {
      if FirstWanted(sounds, false, 0) == |sounds| {
        assert FirstWanted(sounds, true, 0) == |sounds| by {
          if FirstWanted(sounds, true, 0) < |sounds| {
            assert Wanted(sounds[FirstWanted(sounds, true, 0)], false);
          }
        }
      }
    }
    if vf == fu || fu.None? then vf
    else if Contains(word, "r") && (OnlyInSecond("ɹ", vf.value, fu.value) || OnlyInSecond("ɚ", vf.value, fu.value))
    then fu
    else vf
  }

  /** A rhotic US transcription wins over an earlier one without the rhotic sound. */
  lemma RhoticUsPreferred(sounds: seq<Sound>, word: string)
    requires VeryFirst(sounds).Some? && FirstUs(sounds).Some?
    requires Contains(word, "r") && OnlyInSecond("ɹ", VeryFirst(sounds).value, FirstUs(sounds).value)
    ensures EnIpa(sounds, word) == FirstUs(sounds)
  {
  }

  /** `WiktParser.find_en_ipa` */
  method FindEnIpa(sounds: seq<Sound>, word: string) returns (r: Option<string>)
    ensures r == EnIpa(sounds, word)
  {
    var veryFirst: Option<string> := None;
    var firstUs: Option<string> := None;
    var i := 0;
    while i < |sounds| && firstUs.None?
      invariant 0 <= i <= |sounds|
      invariant veryFirst == if FirstWanted(sounds, false, 0) < i then VeryFirst(sounds) else None
      invariant firstUs.None? ==> forall j :: 0 <= j < i ==> !Wanted(sounds[j], true)
      invariant firstUs.Some? ==> firstUs == FirstUs(sounds) && FirstWanted(sounds, false, 0) < i
    {
      var sound := sounds[i];
      if sound.ipa.Some? {
        var ipa := sound.ipa.value;
        if veryFirst.None? {
          veryFirst := Some(ipa);
        }
        if exists k :: 0 <= k < |sound.tags| && sound.tags[k] in UsTags {
          firstUs := Some(ipa);
        }
      }
      i := i + 1;
    }
    if veryFirst == firstUs || firstUs.None? {
      return veryFirst;
    }
    if Contains(word, "r") && (OnlyInSecond("ɹ", veryFirst.value, firstUs.value)
                               || OnlyInSecond("ɚ", veryFirst.value, firstUs.value)) {
      return firstUs;
    }
    return veryFirst;
  }
}
