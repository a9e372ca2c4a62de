// The PHOIBLE phoneme inventories of the source languages (scripts/listphoiblesounds.py):
// which inventories are used, how the rows of the inventory table become per-language
// consonant and vowel lists, how related sounds are merged into their basic form, and how
// phonemes and list lengths are tallied.
module Phoible {
  import opened Wrappers
  import opened Text
  import WalsFreq

  /** Inventories with known errors, never used. */
  const BlockedInventories: set<int> := {286, 304, 423, 530, 553, 574, 597}

  /** The modifiers stripped from a phoneme to reach its basic form: length, aspiration,
      palatalisation, labialisation, pharyngealisation, ejective, velarisation, and the
      combining marks for breathy voice, retracted, dental, nasalised, non-syllabic, rhotic,
      glottalised, lowered, raised, retracted, syllabic, laminal, voiceless, centralised and
      apical articulation. */
  const PhonemeModifiers: string := "ːʰʲʷˤʼˠ"
    + "\U{0324}\U{0319}\U{032a}\U{0303}\U{032f}\U{02de}\U{02c0}\U{031e}\U{031f}\U{0320}\U{0329}\U{033b}"
    + "\U{0325}\U{0308}\U{033a}"

  /** The columns of a row of the PHOIBLE table that the lister reads: the inventory ID, the
      ISO 639-3 code, the phoneme, the marginality flag and the segment class. */
  datatype PhoibleRow = PhoibleRow(inventoryId: int, iso3Code: string, phoneme: string,
                                   marginal: string, segmentClass: string)

  /** A source language and its sounds. `iso3Code` is only set for languages that also have a
      two-letter code; `inventoryId` is the PHOIBLE inventory chosen for it. */
  datatype LanguageDetails = LanguageDetails(name: string, isoCode: string, iso3Code: Option<string>,
                                             inventoryId: Option<int>,
                                             consonantList: seq<string>, vowelList: seq<string>)
  {
    function ConsonantCount(): nat { |consonantList| }
    function VowelCount(): nat { |vowelList| }
  }

  // ----- Useful inventories -----

  /** The inventories among the first `n` rows that are not blocked and that record the
      marginality of some phoneme. */
  function UsefulUpTo(rows: seq<PhoibleRow>, n: nat): set<int>
    requires n <= |rows|
  {
    if n == 0 then {}
    else
      var prev := UsefulUpTo(rows, n - 1);
      var id := rows[n - 1].inventoryId;
      if id in prev || id in BlockedInventories then prev
      else if rows[n - 1].marginal == "TRUE" || rows[n - 1].marginal == "FALSE" then prev + {id}
      else prev
  }

  /** `_find_useful_inventories` */
  method FindUsefulInventories(rows: seq<PhoibleRow>) returns (result: set<int>)
    ensures result == UsefulUpTo(rows, |rows|)
  {
    result := {};
    for i := 0 to |rows|
      invariant result == UsefulUpTo(rows, i)
    {
      var id := rows[i].inventoryId;
      if id in result || id in BlockedInventories {
        continue;
      }
      if rows[i].marginal in {"TRUE", "FALSE"} {
        result := result + {id};
      }
    }
  }

  /** An inventory is useful exactly when it is not blocked and one of its rows says
      'TRUE' or 'FALSE' in the marginal column. */
  lemma {:induction false} UsefulIff(rows: seq<PhoibleRow>, n: nat, id: int)
    requires n <= |rows|
    ensures id in UsefulUpTo(rows, n) <==>
      id !in BlockedInventories
      && exists k :: 0 <= k < n && rows[k].inventoryId == id && (rows[k].marginal == "TRUE" || rows[k].marginal == "FALSE")
  {
    if n > 0 {
      UsefulIff(rows, n - 1, id);
    }
  }

  // ----- The most widely spoken languages -----

  /** A source list code without its fallback: 'hi' for 'hi/ur'. */
  function MainCode(code: string): string
  {
    SplitOnce(code, "/")[0]
  }

  /** The main code has no '/': it is the whole code, or the part before its first '/'. */
  lemma MainCodeShape(code: string)
    ensures !Contains(MainCode(code), "/")
    ensures var r := MainCode(code);
      r == code || (|r| < |code| && code[..|r| + 1] == r + "/")
  {
    var parts := SplitOnce(code, "/");
    if |parts| == 2 {
      assert code == parts[0] + "/" + parts[1];
      assert code[..|parts[0]| + 1] == parts[0] + "/";
    }
  }

  /** The code of a row of the source list, with any fallback part removed. */
  method StripFallback(code: string) returns (isoCode: string)
    ensures isoCode == MainCode(code)
  {
    isoCode := code;
    ContainsChar(isoCode, '/');
    if '/' in isoCode {
      isoCode := SplitOnce(isoCode, "/")[0];
    }
  }

  /** The main codes of the languages of the source list. */
  function MainCodes(codes: seq<string>): (r: seq<string>)
    ensures |r| == |codes| && forall k :: 0 <= k < |codes| ==> r[k] == MainCode(codes[k])
  {
    seq(|codes|, k requires 0 <= k < |codes| => MainCode(codes[k]))
  }

  /** The set of the first `n` strings of `s`. */
  function FirstOf(s: seq<string>, n: nat): set<string>
    requires n <= |s|
  {
    if n == 0 then {} else FirstOf(s, n - 1) + {s[n - 1]}
  }


  /** The main codes of the first `number` languages, or of all when there are fewer. */
  function TopLangsOf(codes: seq<string>, number: nat): set<string>
  {
    FirstOf(MainCodes(codes), if number < |codes| then number else |codes|)
  }

  /** `_top_5_langs`, for any `number`. */
  method TopLangs(codes: seq<string>, number: nat) returns (result: set<string>)
    ensures result == TopLangsOf(codes, number)
  {
    result := {};
    ghost var mains := MainCodes(codes);
    for i := 0 to |codes|
      invariant i <= number
      invariant result == FirstOf(mains, i)
    {
      var pos := i + 1;
      if pos > number {
        assert i == number;
        return;
      }
      var isoCode := StripFallback(codes[i]);
      assert isoCode == mains[i];
      result := result + {isoCode};
    }
    assert |codes| <= number;
  }

  /** A string is among the first `n` of `s` exactly when one of them is it; there are at
      most `n` of them. */
  lemma {:induction false} FirstOfHas(s: seq<string>, n: nat, c: string)
    requires n <= |s|
    ensures c in FirstOf(s, n) <==> exists k :: 0 <= k < n && s[k] == c
    ensures |FirstOf(s, n)| <= n
  {
    if n > 0 {
      FirstOfHas(s, n - 1, c);
      if c == s[n - 1] {
        assert s[n - 1] == c;
      }
    }
  }

  /** At most `number` languages are top languages, each the main code of one of the first
      `number` entries, so none has a fallback part. */
  lemma TopLangsBound(codes: seq<string>, number: nat, c: string)
    ensures |TopLangsOf(codes, number)| <= number
    ensures c in TopLangsOf(codes, number) <==> exists k :: 0 <= k < |codes| && k < number && MainCode(codes[k]) == c
    ensures c in TopLangsOf(codes, number) ==> !Contains(c, "/")
  {
    var n := if number < |codes| then number else |codes|;
    FirstOfHas(MainCodes(codes), n, c);
    if c in TopLangsOf(codes, number) {
      var k :| 0 <= k < n && MainCodes(codes)[k] == c;
      MainCodeShape(codes[k]);
    }
  }

  // ----- Reading the rows of the inventory table -----

  /** A phoneme in a double form such as 'l̪|l' is reduced to the part after the first '|'. */
  function GeneralPart(phoneme: string): string
  {
    var parts := SplitOnce(phoneme, "|");
    parts[|parts| - 1]
  }

  /** A phoneme without '|' is kept whole; otherwise what is kept is what follows its
      first '|'. */
  lemma GeneralPartShape(phoneme: string)
    ensures !Contains(phoneme, "|") ==> GeneralPart(phoneme) == phoneme
    ensures var r := GeneralPart(phoneme);
      Contains(phoneme, "|") ==>
        |r| < |phoneme| && phoneme[|phoneme| - |r| - 1] == '|' && phoneme[|phoneme| - |r|..] == r
        && !Contains(phoneme[..|phoneme| - |r| - 1], "|")
  {
    var parts := SplitOnce(phoneme, "|");
    if |parts| == 2 {
      assert phoneme == parts[0] + "|" + parts[1];
      assert phoneme[..|parts[0]|] == parts[0] && phoneme[|parts[0]| + 1..] == parts[1];
    }
  }

  /** The language accepts rows of inventory `id`: it has none yet and `id` is useful, or
      `id` is the one it has. */
  predicate TakesInventory(d: LanguageDetails, useful: set<int>, id: int)
  {
    (d.inventoryId.None? && id in useful) || d.inventoryId == Some(id)
  }

  /** A row of the table applied to the language it belongs to. */
  function RowDetails(d: LanguageDetails, useful: set<int>, row: PhoibleRow): LanguageDetails
  {
    if !TakesInventory(d, useful, row.inventoryId) then d
    else
      var fixed := d.(inventoryId := Some(row.inventoryId));
      var phoneme := GeneralPart(row.phoneme);
      if row.marginal == "TRUE" then fixed
      else if row.segmentClass == "consonant" then fixed.(consonantList := fixed.consonantList + [phoneme])
      else if row.segmentClass == "vowel" then fixed.(vowelList := fixed.vowelList + [phoneme])
      else fixed
  }

  /** One row of the table applied to the language map: rows of other languages are
      skipped. */
  function ListRow(langMap: map<string, LanguageDetails>, useful: set<int>, row: PhoibleRow): map<string, LanguageDetails>
  {
    if row.iso3Code !in langMap then langMap
    else langMap[row.iso3Code := RowDetails(langMap[row.iso3Code], useful, row)]
  }

  /** The language map after the first `n` rows. */
  function ListedUpTo(langMap: map<string, LanguageDetails>, useful: set<int>, rows: seq<PhoibleRow>, n: nat): map<string, LanguageDetails>
    requires n <= |rows|
  {
    if n == 0 then langMap else ListRow(ListedUpTo(langMap, useful, rows, n - 1), useful, rows[n - 1])
  }

  /** The inventory of `iso` after `row`: the row's, when `iso` has none yet and the row is
      of `iso` and of a useful inventory. */
  function NextInventory(inv: Option<int>, useful: set<int>, row: PhoibleRow, iso: string): Option<int>
  {
    if inv.None? && row.iso3Code == iso && row.inventoryId in useful then Some(row.inventoryId) else inv
  }

  /** The phoneme `row` contributes to the `cls` list of `iso` with inventory `inv`. */
  function Taken(row: PhoibleRow, iso: string, inv: Option<int>, cls: string): seq<string>
  {
    if row.iso3Code == iso && inv == Some(row.inventoryId) && row.marginal != "TRUE" && row.segmentClass == cls
    then [GeneralPart(row.phoneme)] else []
  }

  /** The inventory of the first row for `iso` whose inventory is useful, if any. */
  function FirstUseful(rows: seq<PhoibleRow>, useful: set<int>, iso: string, n: nat): (r: Option<int>)
    requires n <= |rows|
    ensures r.Some? ==> r.value in useful
  {
    if n == 0 then None else NextInventory(FirstUseful(rows, useful, iso, n - 1), useful, rows[n - 1], iso)
  }

  /** The general parts of the phonemes of class `cls` among the first `n` rows for `iso`
      that belong to inventory `inv` and are not marked as marginal. */
  function RowsOf(rows: seq<PhoibleRow>, iso: string, inv: Option<int>, cls: string, n: nat): seq<string>
    requires n <= |rows|
  {
    if n == 0 then [] else RowsOf(rows, iso, inv, cls, n - 1) + Taken(rows[n - 1], iso, inv, cls)
  }

  /** A row of the language: it fixes the inventory if none is yet, and adds its phoneme
      to the list of its class when it is of that inventory and not marginal. */
  lemma RowDetailsTaken(d: LanguageDetails, useful: set<int>, row: PhoibleRow)
    ensures var inv := NextInventory(d.inventoryId, useful, row, row.iso3Code);
      RowDetails(d, useful, row)
        == d.(inventoryId := inv,
              consonantList := d.consonantList + Taken(row, row.iso3Code, inv, "consonant"),
              vowelList := d.vowelList + Taken(row, row.iso3Code, inv, "vowel"))
  {
  }

  /** One row, seen from one language. */
  lemma ListRowLanguage(m: map<string, LanguageDetails>, useful: set<int>, row: PhoibleRow, iso: string, d: LanguageDetails)
    requires iso in m && m[iso] == d
    ensures iso in ListRow(m, useful, row)
    ensures var inv := NextInventory(d.inventoryId, useful, row, iso);
      ListRow(m, useful, row)[iso]
        == d.(inventoryId := inv,
              consonantList := d.consonantList + Taken(row, iso, inv, "consonant"),
              vowelList := d.vowelList + Taken(row, iso, inv, "vowel"))
  {
    if row.iso3Code == iso {
      RowDetailsTaken(d, useful, row);
    } else {
      assert Taken(row, iso, d.inventoryId, "consonant") == [] && Taken(row, iso, d.inventoryId, "vowel") == [];
      assert d.consonantList + [] == d.consonantList && d.vowelList + [] == d.vowelList;
    }
  }

  /** No row is taken while no inventory is fixed. */
  lemma {:induction false} NothingUnfixed(rows: seq<PhoibleRow>, iso: string, cls: string, n: nat)
    requires n <= |rows|
    ensures RowsOf(rows, iso, None, cls, n) == []
  {
    if n > 0 {
      NothingUnfixed(rows, iso, cls, n - 1);
    }
  }

  /** Before the first useful row of a language, no row of that language belongs to a useful
      inventory. */
  lemma {:induction false} NothingBeforeFirst(rows: seq<PhoibleRow>, useful: set<int>, iso: string, cls: string, n: nat, id: int)
    requires n <= |rows| && FirstUseful(rows, useful, iso, n).None? && id in useful
    ensures RowsOf(rows, iso, Some(id), cls, n) == []
  {
    if n > 0 {
      NothingBeforeFirst(rows, useful, iso, cls, n - 1, id);
    }
  }

  /** `list_sounds` leaves the set of languages as it is. */
  lemma {:induction false} ListedKeys(langMap: map<string, LanguageDetails>, useful: set<int>, rows: seq<PhoibleRow>, n: nat)
    requires n <= |rows|
    ensures ListedUpTo(langMap, useful, rows, n).Keys == langMap.Keys
  {
    if n > 0 {
      ListedKeys(langMap, useful, rows, n - 1);
    }
  }

  /** For a language with no inventory yet, `list_sounds` fixes the first useful inventory
      met in the table and appends, in table order, the general part of every phoneme of that
      inventory not marked as marginal, consonants and vowels each to their own list; rows
      of other inventories are skipped. */
  lemma {:induction false} ListedLanguage(langMap: map<string, LanguageDetails>, useful: set<int>, rows: seq<PhoibleRow>, n: nat, iso: string)
    requires n <= |rows| && iso in langMap && langMap[iso].inventoryId.None?
    ensures iso in ListedUpTo(langMap, useful, rows, n)
    ensures var d := langMap[iso];
      var inv := FirstUseful(rows, useful, iso, n);
      ListedUpTo(langMap, useful, rows, n)[iso]
        == d.(inventoryId := inv,
              consonantList := d.consonantList + RowsOf(rows, iso, inv, "consonant", n),
              vowelList := d.vowelList + RowsOf(rows, iso, inv, "vowel", n))
  {
    if n > 0 {
      ListedLanguage(langMap, useful, rows, n - 1, iso);
      var d := langMap[iso];
      var prevInv := FirstUseful(rows, useful, iso, n - 1);
      var prevCons := RowsOf(rows, iso, prevInv, "consonant", n - 1);
      var prevVows := RowsOf(rows, iso, prevInv, "vowel", n - 1);
      var prev := ListedUpTo(langMap, useful, rows, n - 1);
      assert ListedUpTo(langMap, useful, rows, n) == ListRow(prev, useful, rows[n - 1]);
      ListRowLanguage(prev, useful, rows[n - 1], iso,
        d.(inventoryId := prevInv, consonantList := d.consonantList + prevCons, vowelList := d.vowelList + prevVows));
      RowsStep(rows, useful, iso, "consonant", n);
      RowsStep(rows, useful, iso, "vowel", n);
    }
  }

  /** The rows taken with the inventory fixed after `n` rows are those taken after `n - 1`
      rows and what row `n` adds. */
  lemma RowsStep(rows: seq<PhoibleRow>, useful: set<int>, iso: string, cls: string, n: nat)
    requires 0 < n <= |rows|
    ensures var inv := FirstUseful(rows, useful, iso, n);
      RowsOf(rows, iso, inv, cls, n)
        == RowsOf(rows, iso, FirstUseful(rows, useful, iso, n - 1), cls, n - 1) + Taken(rows[n - 1], iso, inv, cls)
  {
    var inv := FirstUseful(rows, useful, iso, n);
    var prevInv := FirstUseful(rows, useful, iso, n - 1);
    if inv != prevInv {
      NothingBeforeFirst(rows, useful, iso, cls, n - 1, inv.value);
      NothingUnfixed(rows, iso, cls, n - 1);
    }
  }

  // ----- Merging related sounds -----

  /** Lengths never decrease along `s`. */
  predicate ShortestFirst(s: seq<string>)
  {
    forall i :: 0 < i < |s| ==> |s[i - 1]| <= |s[i]|
  }

  /** Insert `x` after every string no longer than it. */
  function InsertByLength(x: string, s: seq<string>): (r: seq<string>)
    requires ShortestFirst(s)
    ensures ShortestFirst(r)
    ensures |r| == |s| + 1 && (r[0] == x || (|s| > 0 && r[0] == s[0]))
  {
    if |s| == 0 || |x| < |s[0]| then [x] + s
    else
      assert s == [s[0]] + s[1..];
      [s[0]] + InsertByLength(x, s[1..])
  }

  /** `sorted(phoneme_list, key=len)`: a stable sort by length. */
  function SortByLength(s: seq<string>): (r: seq<string>)
    ensures ShortestFirst(r) && |r| == |s|
  {
    if |s| == 0 then []
    else
      assert s == s[..|s| - 1] + [s[|s| - 1]];
      InsertByLength(s[|s| - 1], SortByLength(s[..|s| - 1]))
  }

  lemma {:induction false} InsertByLengthAdds(x: string, s: seq<string>)
    requires ShortestFirst(s)
    ensures multiset(InsertByLength(x, s)) == multiset(s) + multiset{x}
  {
    if |s| > 0 && |x| >= |s[0]| {
      InsertByLengthAdds(x, s[1..]);
      assert s == [s[0]] + s[1..];
    }
  }

  /** The sort is a permutation. */
  lemma {:induction false} SortByLengthPermutes(s: seq<string>)
    ensures multiset(SortByLength(s)) == multiset(s)
  {
    if |s| > 0 {
      SortByLengthPermutes(s[..|s| - 1]);
      InsertByLengthAdds(s[|s| - 1], SortByLength(s[..|s| - 1]));
      assert s == s[..|s| - 1] + [s[|s| - 1]];
    }
  }

  /** The strings of length `len` in `s`, in order. */
  function OfLength(s: seq<string>, len: nat): seq<string>
  {
    if |s| == 0 then [] else (if |s[0]| == len then [s[0]] else []) + OfLength(s[1..], len)
  }

  lemma {:induction false} OfLengthConcat(a: seq<string>, b: seq<string>, len: nat)
    ensures OfLength(a + b, len) == OfLength(a, len) + OfLength(b, len)
  {
    if |a| > 0 {
      OfLengthConcat(a[1..], b, len);
      assert (a + b)[1..] == a[1..] + b;
    } else {
      assert a + b == b;
    }
  }

  lemma {:induction false} NoneOfLength(s: seq<string>, len: nat)
    requires forall i :: 0 <= i < |s| ==> |s[i]| > len
    ensures OfLength(s, len) == []
  {
    if |s| > 0 {
      NoneOfLength(s[1..], len);
    }
  }

  lemma OfLengthCons(a: string, t: seq<string>, len: nat)
    ensures OfLength([a] + t, len) == (if |a| == len then [a] else []) + OfLength(t, len)
  {
    assert ([a] + t)[1..] == t;
  }

  /** A string shorter than all of `s` goes first without changing the order of any length. */
  lemma InsertFrontStable(x: string, s: seq<string>, len: nat)
    requires ShortestFirst(s) && (|s| == 0 || |x| < |s[0]|)
    ensures OfLength([x] + s, len) == OfLength(s, len) + if |x| == len then [x] else []
  {
    OfLengthCons(x, s, len);
    if |x| == len && |s| > 0 {
      forall i | 0 <= i < |s| ensures |s[i]| > len {
        ShortestFirstFrom(s, i);
      }
      NoneOfLength(s, len);
    }
  }

  lemma {:induction false} InsertByLengthStable(x: string, s: seq<string>, len: nat)
    requires ShortestFirst(s)
    ensures OfLength(InsertByLength(x, s), len) == OfLength(s, len) + if |x| == len then [x] else []
  {
    if |s| == 0 || |x| < |s[0]| {
      InsertFrontStable(x, s, len);
    } else {
      var rest := InsertByLength(x, s[1..]);
      assert InsertByLength(x, s) == [s[0]] + rest;
      InsertByLengthStable(x, s[1..], len);
      OfLengthCons(s[0], rest, len);
      OfLengthCons(s[0], s[1..], len);
      assert [s[0]] + s[1..] == s;
    }
  }

  lemma {:induction false} ShortestFirstFrom(s: seq<string>, i: nat)
    requires ShortestFirst(s) && i < |s|
    ensures |s[0]| <= |s[i]|
  {
    if i > 0 {
      ShortestFirstFrom(s, i - 1);
    }
  }

  /** The sort is stable: phonemes of the same length keep their order. */
  lemma {:induction false} SortByLengthStable(s: seq<string>, len: nat)
    ensures OfLength(SortByLength(s), len) == OfLength(s, len)
  {
    if |s| > 0 {
      var init, last := s[..|s| - 1], s[|s| - 1];
      SortByLengthStable(init, len);
      InsertByLengthStable(last, SortByLength(init), len);
      assert s == init + [last];
      OfLengthConcat(init, [last], len);
      OfLengthCons(last, [], len);
      assert [last] + [] == [last];
    }
  }

  /** The basic form of a phoneme longer than one character: its modifiers removed. */
  function BaseForm(p: string): (r: string)
    ensures |r| <= |p|
  {
    if |p| > 1 then Translate(p, "", "", PhonemeModifiers) else p
  }

  /** A basic form of a longer phoneme has no modifier left. */
  lemma BaseFormPlain(p: string, c: char)
    requires |p| > 1 && c in PhonemeModifiers
    ensures c !in BaseForm(p)
  {
    TranslateRemoves(p, "", "", PhonemeModifiers, c);
  }

  /** The basic forms of a list of phonemes. */
  function Bases(ps: seq<string>): (r: seq<string>)
    ensures |r| == |ps| && forall i :: 0 <= i < |ps| ==> r[i] == BaseForm(ps[i])
  {
    seq(|ps|, i requires 0 <= i < |ps| => BaseForm(ps[i]))
  }

  /** The phonemes kept so far and the variants recorded under each basic sound. */
  datatype Simplified = Simplified(kept: set<string>, variants: map<string, set<string>>)

  /** `variant_map[key].add(p)` on a `defaultdict(set)`. */
  function AddVariant(variants: map<string, set<string>>, key: string, p: string): (r: map<string, set<string>>)
    ensures r.Keys == variants.Keys + {key}
  {
    variants[key := (if key in variants then variants[key] else {}) + {p}]
  }

  /** Every letter of `base` is already kept on its own. */
  predicate PartsKnown(base: string, kept: set<string>)
  {
    forall i :: 0 <= i < |base| ==> [base[i]] in kept
  }

  /** A vowel whose basic form has several letters, all of them already kept: a diphthong. */
  predicate Absorbed(base: string, consonants: bool, kept: set<string>)
  {
    !consonants && |base| > 1 && PartsKnown(base, kept)
  }

  /** One phoneme `p` with basic form `base`: a diphthong becomes a variant of its first
      letter; a phoneme with modifiers contributes its basic form and becomes its variant;
      any other is kept. */
  function SimplifyStep(st: Simplified, p: string, base: string, consonants: bool): Simplified
  {
    if Absorbed(base, consonants, st.kept) then st.(variants := AddVariant(st.variants, [base[0]], p))
    else if base != p then Simplified(st.kept + {base}, AddVariant(st.variants, base, p))
    else st.(kept := st.kept + {p})
  }

  /** The state after the first `n` phonemes of `ps`, whose basic forms are `bases`. */
  function SimplifiedUpTo(ps: seq<string>, bases: seq<string>, consonants: bool, variants: map<string, set<string>>, n: nat): Simplified
    requires n <= |ps| == |bases|
  {
    if n == 0 then Simplified({}, variants)
    else SimplifyStep(SimplifiedUpTo(ps, bases, consonants, variants, n - 1), ps[n - 1], bases[n - 1], consonants)
  }

  lemma SimplifiedNext(ps: seq<string>, bases: seq<string>, consonants: bool, variants: map<string, set<string>>, k: nat)
    requires k < |ps| == |bases|
    ensures SimplifiedUpTo(ps, bases, consonants, variants, k + 1)
      == SimplifyStep(SimplifiedUpTo(ps, bases, consonants, variants, k), ps[k], bases[k], consonants)
  {
  }

  /** `p` is recorded as a variant of some sound. */
  predicate Recorded(p: string, variants: map<string, set<string>>)
  {
    exists key :: key in variants && p in variants[key]
  }

  /** `b` keeps everything `a` keeps and records every variant `a` records. */
  predicate Extends(a: Simplified, b: Simplified)
  {
    a.kept <= b.kept
    && forall key :: key in a.variants ==> key in b.variants && a.variants[key] <= b.variants[key]
  }

  lemma ExtendsTransitive(a: Simplified, b: Simplified, c: Simplified)
    requires Extends(a, b) && Extends(b, c)
    ensures Extends(a, c)
  {
  }

  lemma StepExtends(st: Simplified, p: string, base: string, consonants: bool)
    ensures Extends(st, SimplifyStep(st, p, base, consonants))
  {
  }

  /** Kept phonemes and recorded variants are never taken back. */
  lemma {:induction false} SimplifiedGrows(ps: seq<string>, bases: seq<string>, consonants: bool, variants: map<string, set<string>>, j: nat, n: nat)
    requires j <= n <= |ps| == |bases|
    ensures Extends(SimplifiedUpTo(ps, bases, consonants, variants, j), SimplifiedUpTo(ps, bases, consonants, variants, n))
    decreases n - j
  {
    if j < n {
      SimplifiedGrows(ps, bases, consonants, variants, j + 1, n);
      StepExtends(SimplifiedUpTo(ps, bases, consonants, variants, j), ps[j], bases[j], consonants);
      ExtendsTransitive(SimplifiedUpTo(ps, bases, consonants, variants, j), SimplifiedUpTo(ps, bases, consonants, variants, j + 1),
                        SimplifiedUpTo(ps, bases, consonants, variants, n));
    }
  }

  lemma StepKeptCard(st: Simplified, p: string, base: string, consonants: bool)
    ensures |SimplifyStep(st, p, base, consonants).kept| <= |st.kept| + 1
  {
    if Absorbed(base, consonants, st.kept) {
    } else if base != p {
      assert SimplifyStep(st, p, base, consonants).kept == st.kept + {base};
    } else {
      assert SimplifyStep(st, p, base, consonants).kept == st.kept + {p};
    }
  }

  /** No more phonemes are kept than were given. */
  lemma {:induction false} SimplifiedNoLonger(ps: seq<string>, bases: seq<string>, consonants: bool, variants: map<string, set<string>>, n: nat)
    requires n <= |ps| == |bases|
    ensures |SimplifiedUpTo(ps, bases, consonants, variants, n).kept| <= n
  {
    if n > 0 {
      SimplifiedNoLonger(ps, bases, consonants, variants, n - 1);
      StepKeptCard(SimplifiedUpTo(ps, bases, consonants, variants, n - 1), ps[n - 1], bases[n - 1], consonants);
    }
  }

  /** Every kept phoneme is the basic form of a given one. */
  lemma {:induction false} KeptAreBases(ps: seq<string>, bases: seq<string>, consonants: bool, variants: map<string, set<string>>, n: nat, x: string)
    requires n <= |ps| == |bases| && x in SimplifiedUpTo(ps, bases, consonants, variants, n).kept
    ensures exists k :: 0 <= k < n && bases[k] == x
  {
    var prev := SimplifiedUpTo(ps, bases, consonants, variants, n - 1);
    if x in prev.kept {
      KeptAreBases(ps, bases, consonants, variants, n - 1, x);
    } else {
      assert bases[n - 1] == x;
    }
  }

  /** So a kept phoneme of several characters has no modifier left. */
  lemma KeptArePlain(ps: seq<string>, consonants: bool, variants: map<string, set<string>>, x: string, c: char)
    requires x in SimplifiedUpTo(ps, Bases(ps), consonants, variants, |ps|).kept
    requires |x| > 1 && c in PhonemeModifiers
    ensures c !in x
  {
    KeptAreBases(ps, Bases(ps), consonants, variants, |ps|, x);
    var k :| 0 <= k < |ps| && Bases(ps)[k] == x;
    if |ps[k]| > 1 {
      BaseFormPlain(ps[k], c);
    }
  }

  lemma AbsorbedStep(st: Simplified, p: string, base: string)
    requires Absorbed(base, false, st.kept)
    ensures var r := SimplifyStep(st, p, base, false);
      r.kept == st.kept && [base[0]] in r.variants && p in r.variants[[base[0]]]
  {
  }

  lemma BaseStep(st: Simplified, p: string, base: string, consonants: bool)
    requires !Absorbed(base, consonants, st.kept) && base != p
    ensures var r := SimplifyStep(st, p, base, consonants);
      base in r.kept && base in r.variants && p in r.variants[base]
  {
  }

  lemma PlainStep(st: Simplified, p: string, base: string, consonants: bool)
    requires !Absorbed(base, consonants, st.kept) && base == p
    ensures SimplifyStep(st, p, base, consonants).kept == st.kept + {p}
  {
  }

  /** A phoneme kept in `a` is still kept in any extension of it. */
  lemma StillKept(a: Simplified, b: Simplified, x: string)
    requires Extends(a, b) && x in a.kept
    ensures x in b.kept
  {
  }

  /** A variant recorded in `a` is still recorded in any extension of it. */
  lemma StillRecorded(a: Simplified, b: Simplified, key: string, p: string)
    requires Extends(a, b) && key in a.variants && p in a.variants[key]
    ensures key in b.variants && p in b.variants[key]
  {
  }

  /** A diphthong — a vowel of several letters whose letters are all kept when it comes up —
      is not kept, but recorded as a variant of its first letter. */
  lemma DiphthongRecorded(ps: seq<string>, bases: seq<string>, variants: map<string, set<string>>, k: nat, n: nat)
    requires k < n <= |ps| == |bases|
    requires Absorbed(bases[k], false, SimplifiedUpTo(ps, bases, false, variants, k).kept)
    ensures SimplifiedUpTo(ps, bases, false, variants, k + 1).kept == SimplifiedUpTo(ps, bases, false, variants, k).kept
    ensures var first := [bases[k][0]];
      first in SimplifiedUpTo(ps, bases, false, variants, n).variants && ps[k] in SimplifiedUpTo(ps, bases, false, variants, n).variants[first]
  {
    SimplifiedNext(ps, bases, false, variants, k);
    AbsorbedStep(SimplifiedUpTo(ps, bases, false, variants, k), ps[k], bases[k]);
    SimplifiedGrows(ps, bases, false, variants, k + 1, n);
    StillRecorded(SimplifiedUpTo(ps, bases, false, variants, k + 1), SimplifiedUpTo(ps, bases, false, variants, n), [bases[k][0]], ps[k]);
  }

  /** A phoneme that is not a diphthong and differs from its basic form contributes the
      basic form and is recorded as its variant. */
  lemma BaseRecorded(ps: seq<string>, bases: seq<string>, consonants: bool, variants: map<string, set<string>>, k: nat, n: nat)
    requires k < n <= |ps| == |bases|
    requires !Absorbed(bases[k], consonants, SimplifiedUpTo(ps, bases, consonants, variants, k).kept)
    requires bases[k] != ps[k]
    ensures bases[k] in SimplifiedUpTo(ps, bases, consonants, variants, n).kept
    ensures bases[k] in SimplifiedUpTo(ps, bases, consonants, variants, n).variants
      && ps[k] in SimplifiedUpTo(ps, bases, consonants, variants, n).variants[bases[k]]
  {
    SimplifiedNext(ps, bases, consonants, variants, k);
    BaseStep(SimplifiedUpTo(ps, bases, consonants, variants, k), ps[k], bases[k], consonants);
    SimplifiedGrows(ps, bases, consonants, variants, k + 1, n);
    StillKept(SimplifiedUpTo(ps, bases, consonants, variants, k + 1), SimplifiedUpTo(ps, bases, consonants, variants, n), bases[k]);
    StillRecorded(SimplifiedUpTo(ps, bases, consonants, variants, k + 1), SimplifiedUpTo(ps, bases, consonants, variants, n), bases[k], ps[k]);
  }

  /** A phoneme that is not a diphthong and is its own basic form is kept. */
  lemma PlainKept(ps: seq<string>, bases: seq<string>, consonants: bool, variants: map<string, set<string>>, k: nat, n: nat)
    requires k < n <= |ps| == |bases|
    requires !Absorbed(bases[k], consonants, SimplifiedUpTo(ps, bases, consonants, variants, k).kept)
    requires bases[k] == ps[k]
    ensures ps[k] in SimplifiedUpTo(ps, bases, consonants, variants, n).kept
  {
    var p := ps[k];
    var st := SimplifiedUpTo(ps, bases, consonants, variants, k);
    var next := SimplifiedUpTo(ps, bases, consonants, variants, k + 1);
    SimplifiedNext(ps, bases, consonants, variants, k);
    PlainStep(st, p, bases[k], consonants);
    SimplifiedGrows(ps, bases, consonants, variants, k + 1, n);
    StillKept(next, SimplifiedUpTo(ps, bases, consonants, variants, n), p);
  }

  /** No phoneme is lost: each is kept or recorded as a variant. */
  lemma NothingLost(ps: seq<string>, bases: seq<string>, consonants: bool, variants: map<string, set<string>>, k: nat, n: nat)
    requires k < n <= |ps| == |bases|
    ensures ps[k] in SimplifiedUpTo(ps, bases, consonants, variants, n).kept
      || Recorded(ps[k], SimplifiedUpTo(ps, bases, consonants, variants, n).variants)
  {
    var st := SimplifiedUpTo(ps, bases, consonants, variants, k);
    if Absorbed(bases[k], consonants, st.kept) {
      DiphthongRecorded(ps, bases, variants, k, n);
    } else if bases[k] != ps[k] {
      BaseRecorded(ps, bases, consonants, variants, k, n);
    } else {
      PlainKept(ps, bases, consonants, variants, k, n);
    }
  }

  // ----- Counting -----

  /** The consonants or the vowels of a language. */
  function PhonemesOf(d: LanguageDetails, consonants: bool): seq<string>
  {
    if consonants then d.consonantList else d.vowelList
  }

  /** `set(l)` */
  function ListSet(l: seq<string>): (r: set<string>)
    ensures forall p :: p in r <==> p in l
  {
    set i | 0 <= i < |l| :: l[i]
  }

  /** The phoneme counter after the first `n` languages: each language adds one for every
      distinct phoneme of its list. */
  function PhonemeCounts(details: seq<LanguageDetails>, consonants: bool, n: nat): multiset<string>
    requires n <= |details|
  {
    if n == 0 then multiset{}
    else PhonemeCounts(details, consonants, n - 1) + multiset(ListSet(PhonemesOf(details[n - 1], consonants)))
  }

  /** The number of the first `n` languages whose list holds `p`. */
  function LanguagesWith(details: seq<LanguageDetails>, consonants: bool, p: string, n: nat): nat
    requires n <= |details|
  {
    if n == 0 then 0
    else LanguagesWith(details, consonants, p, n - 1) + if p in PhonemesOf(details[n - 1], consonants) then 1 else 0
  }

  /** `_count_phonemes` */
  method CountPhonemes(details: seq<LanguageDetails>, consonants: bool) returns (counter: multiset<string>)
    ensures counter == PhonemeCounts(details, consonants, |details|)
  {
    counter := multiset{};
    for i := 0 to |details|
      invariant counter == PhonemeCounts(details, consonants, i)
    {
      var phonemeList := if consonants then details[i].consonantList else details[i].vowelList;
      var phonemeSet := ListSet(phonemeList);
      counter := counter + multiset(phonemeSet);
    }
  }

  /** A phoneme is counted once for each language that has it, however often its list
      repeats it, so never more often than there are languages. */
  lemma {:induction false} CountsLanguages(details: seq<LanguageDetails>, consonants: bool, p: string, n: nat)
    requires n <= |details|
    ensures PhonemeCounts(details, consonants, n)[p] == LanguagesWith(details, consonants, p, n) <= n
  {
    if n > 0 {
      CountsLanguages(details, consonants, p, n - 1);
      var s := ListSet(PhonemesOf(details[n - 1], consonants));
      assert multiset(s)[p] == if p in PhonemesOf(details[n - 1], consonants) then 1 else 0;
    }
  }

  // ----- The most frequent list lengths -----

  /** Each number is below the next one. */
  predicate Increasing(s: seq<int>)
  {
    forall i :: 0 < i < |s| ==> s[i - 1] < s[i]
  }

  function InsertInt(x: int, s: seq<int>): (r: seq<int>)
    requires Increasing(s)
    ensures Increasing(r) && forall y :: y in r <==> y == x || y in s
    ensures |r| > 0 && (r[0] == x || (|s| > 0 && r[0] == s[0]))
  {
    if |s| == 0 || x < s[0] then [x] + s
    else if x == s[0] then s
    else
      assert s == [s[0]] + s[1..];
      [s[0]] + InsertInt(x, s[1..])
  }

  /** The distinct numbers of `s` in increasing order. */
  function SortedDistinct(s: seq<int>): (r: seq<int>)
    ensures Increasing(r) && forall y :: y in r <==> y in s
  {
    if |s| == 0 then []
    else
      assert s == [s[0]] + s[1..];
      InsertInt(s[0], SortedDistinct(s[1..]))
  }

  /** The largest count in `m` of an element of `s` (0 for none). */
  function MaxCount(m: multiset<int>, s: seq<int>): (r: nat)
    ensures forall x :: x in s ==> m[x] <= r
    ensures |s| > 0 ==> exists x :: x in s && m[x] == r
  {
    if |s| == 0 then 0
    else
      var rest := MaxCount(m, s[1..]);
      assert forall x :: x in s ==> x == s[0] || x in s[1..];
      if m[s[0]] > rest then m[s[0]] else rest
  }

  /** The elements of `s` whose count in `m` is `c`. */
  function WithCount(s: seq<int>, m: multiset<int>, c: nat): (r: seq<int>)
    ensures forall x :: x in r <==> x in s && m[x] == c
  {
    if |s| == 0 then []
    else
      assert forall x :: x in s ==> x == s[0] || x in s[1..];
      (if m[s[0]] == c then [s[0]] else []) + WithCount(s[1..], m, c)
  }

  /** `_most_frequent_values`; `None` for no values, where `max` raises. */
  function MostFrequentValues(values: seq<int>): (r: Option<seq<int>>)
    ensures r.None? <==> |values| == 0
    ensures r.Some? ==> Increasing(r.value) && |r.value| > 0
  {
    if |values| == 0 then None
    else
      var m := multiset(values);
      var top := MaxCount(m, values);
      Some(SortedDistinct(WithCount(values, m, top)))
  }

  /** The result holds exactly the values that occur at least as often as any other. */
  lemma MostFrequentExact(values: seq<int>, v: int)
    requires |values| > 0
    ensures v in MostFrequentValues(values).value <==>
      v in values && forall w :: w in values ==> multiset(values)[w] <= multiset(values)[v]
  {
    var m := multiset(values);
    var top := MaxCount(m, values);
    var x :| x in values && m[x] == top;
  }

  // ----- The lister -----

  /** The language map of a source language before any row is read. */
  function NewDetails(iso: string, iso1To3: map<string, string>, names: map<string, string>): LanguageDetails
    requires iso in names
  {
    var iso3 := Iso3Of(iso, iso1To3);
    LanguageDetails(names[iso], iso, if iso == iso3 then None else Some(iso3), None, [], [])
  }

  /** `iso1_to_iso3_map.get(iso, iso)` */
  function Iso3Of(iso: string, iso1To3: map<string, string>): string
  {
    if iso in iso1To3 then iso1To3[iso] else iso
  }

  /** The language map holds one entry under the ISO 639-3 code of each source language, the
      entry of one of the languages with that code. */
  predicate InitialLangMap(langMap: map<string, LanguageDetails>, sources: set<string>, iso1To3: map<string, string>, names: map<string, string>)
    requires sources <= names.Keys
  {
    (forall iso :: iso in sources ==> Iso3Of(iso, iso1To3) in langMap)
    && forall k :: k in langMap ==> exists iso :: iso in sources && Iso3Of(iso, iso1To3) == k && langMap[k] == NewDetails(iso, iso1To3, names)
  }

  /** Adding one more language keeps the map an initial map of the languages added. */
  lemma InitialLangMapAdd(langMap: map<string, LanguageDetails>, done: set<string>, iso: string,
                          iso1To3: map<string, string>, names: map<string, string>)
    requires done + {iso} <= names.Keys && InitialLangMap(langMap, done, iso1To3, names)
    ensures InitialLangMap(langMap[Iso3Of(iso, iso1To3) := NewDetails(iso, iso1To3, names)], done + {iso}, iso1To3, names)
  {
    var m := langMap[Iso3Of(iso, iso1To3) := NewDetails(iso, iso1To3, names)];
    forall k | k in m
      ensures exists j :: j in done + {iso} && Iso3Of(j, iso1To3) == k && m[k] == NewDetails(j, iso1To3, names)
    {
      if k != Iso3Of(iso, iso1To3) {
        var j :| j in done && Iso3Of(j, iso1To3) == k && langMap[k] == NewDetails(j, iso1To3, names);
        assert j in done + {iso};
      }
    }
  }

  /** The loop of the constructor that maps the ISO 639-3 code of each source language to
      its details, in the arbitrary order in which a set is iterated. */
  method InitialLanguages(sources: set<string>, iso1To3: map<string, string>, names: map<string, string>)
    returns (m: map<string, LanguageDetails>)
    requires sources <= names.Keys
    ensures InitialLangMap(m, sources, iso1To3, names)
  {
    m := map[];
    var todo := sources;
    ghost var done: set<string> := {};
    while todo != {}
      invariant done + todo == sources
      invariant InitialLangMap(m, done, iso1To3, names)
      decreases |todo|
    {
      var iso :| iso in todo;
      var iso3 := if iso in iso1To3 then iso1To3[iso] else iso;
      var details := LanguageDetails(names[iso], iso, if iso == iso3 then None else Some(iso3), None, [], []);
      assert iso3 == Iso3Of(iso, iso1To3) && details == NewDetails(iso, iso1To3, names);
      InitialLangMapAdd(m, done, iso, iso1To3, names);
      MoveOne(done, todo, iso);
      m := m[iso3 := details];
      todo, done := todo - {iso}, done + {iso};
    }
  }

  lemma MoveOne(done: set<string>, todo: set<string>, x: string)
    requires x in todo
    ensures (done + {x}) + (todo - {x}) == done + todo
  {
  }

  /** `_combine_related_sounds` on one language and the variant map: the consonants, then
      the vowels, each sorted by length, simplified, and stored as a sorted list; the
      variants found are added to the map. */
  function Combined(details: LanguageDetails, variants: map<string, set<string>>): (LanguageDetails, map<string, set<string>>)
  {
    var cons := SortByLength(details.consonantList);
    var vows := SortByLength(details.vowelList);
    var cs := SimplifiedUpTo(cons, Bases(cons), true, variants, |cons|);
    var vs := SimplifiedUpTo(vows, Bases(vows), false, cs.variants, |vows|);
    (details.(consonantList := SortedSet(cs.kept), vowelList := SortedSet(vs.kept)), vs.variants)
  }

  /** A step that merges the related sounds of one language, given the variant map so far. */
  type LanguageStep = (LanguageDetails, map<string, set<string>>) -> (LanguageDetails, map<string, set<string>>)

  /** The first `n` languages put through `step` in order, each with the variant map the
      ones before it left, and the variant map after them. */
  function CombinedUpTo(details: seq<LanguageDetails>, step: LanguageStep, variants: map<string, set<string>>, n: nat): (seq<LanguageDetails>, map<string, set<string>>)
    requires n <= |details|
  {
    if n == 0 then ([], variants)
    else
      var prev := CombinedUpTo(details, step, variants, n - 1);
      var next := step(details[n - 1], prev.1);
      (prev.0 + [next.0], next.1)
  }

  /** `merged` is `original` with its sounds merged: the same name and codes, strictly
      sorted sound lists, and no list longer than before. */
  predicate MergedFrom(merged: LanguageDetails, original: LanguageDetails)
  {
    merged.name == original.name && merged.isoCode == original.isoCode
    && merged.inventoryId == original.inventoryId
    && StrictlySorted(merged.consonantList) && StrictlySorted(merged.vowelList)
    && merged.ConsonantCount() <= original.ConsonantCount() && merged.VowelCount() <= original.VowelCount()
  }

  lemma MergedAppend(merged: seq<LanguageDetails>, last: LanguageDetails, details: seq<LanguageDetails>, n: nat)
    requires |merged| == n < |details|
    requires forall j :: 0 <= j < n ==> MergedFrom(merged[j], details[j])
    requires MergedFrom(last, details[n])
    ensures forall j :: 0 <= j < n + 1 ==> MergedFrom((merged + [last])[j], details[j])
  {
  }

  /** Merging the sounds of one language keeps its name and codes, leaves both sound
      lists strictly sorted and grows neither. */
  lemma CombinedMerges(details: LanguageDetails, variants: map<string, set<string>>)
    ensures MergedFrom(Combined(details, variants).0, details)
  {
    var cons := SortByLength(details.consonantList);
    var vows := SortByLength(details.vowelList);
    var cs := SimplifiedUpTo(cons, Bases(cons), true, variants, |cons|);
    SimplifiedNoLonger(cons, Bases(cons), true, variants, |cons|);
    SimplifiedNoLonger(vows, Bases(vows), false, cs.variants, |vows|);
  }

  /** Every language that `CombineAll` returns is merged from the one at its position. */
  lemma CombinedUpToMerges(details: seq<LanguageDetails>, variants: map<string, set<string>>, n: nat)
    requires n <= |details|
    ensures |CombinedUpTo(details, Combined, variants, n).0| == n
    ensures forall i :: 0 <= i < n ==> MergedFrom(CombinedUpTo(details, Combined, variants, n).0[i], details[i])
  {
    CombinedUpToShape(details, Combined, variants, n);
    forall i | 0 <= i < n
      ensures MergedFrom(CombinedUpTo(details, Combined, variants, n).0[i], details[i])
    {
      CombinedMerges(details[i], CombinedUpTo(details, Combined, variants, i).1);
    }
  }

  /** One more language put through `step`. */
  lemma CombinedUpToNext(details: seq<LanguageDetails>, step: LanguageStep, variants: map<string, set<string>>, n: nat)
    requires n < |details|
    ensures var prev := CombinedUpTo(details, step, variants, n);
      CombinedUpTo(details, step, variants, n + 1)
      == (prev.0 + [step(details[n], prev.1).0], step(details[n], prev.1).1)
  {
  }

  /** One result per language, the i-th made from the i-th with the variant map of the
      languages before it. */
  lemma {:induction false} CombinedUpToShape(details: seq<LanguageDetails>, step: LanguageStep, variants: map<string, set<string>>, n: nat)
    requires n <= |details|
    ensures |CombinedUpTo(details, step, variants, n).0| == n
    ensures forall i {:trigger CombinedUpTo(details, step, variants, n).0[i]} :: 0 <= i < n ==>
      CombinedUpTo(details, step, variants, n).0[i] == step(details[i], CombinedUpTo(details, step, variants, i).1).0
  {
    if n > 0 {
      CombinedUpToShape(details, step, variants, n - 1);
      var prev := CombinedUpTo(details, step, variants, n - 1);
      forall i | 0 <= i < n
        ensures CombinedUpTo(details, step, variants, n).0[i] == step(details[i], CombinedUpTo(details, step, variants, i).1).0
      {
        if i < n - 1 {
          assert CombinedUpTo(details, step, variants, n).0[i] == prev.0[i];
        }
      }
    }
  }

  /** `PhoibleLister`, built from the inventory table, the languages known to the WALS
      frequency finder and the source language list. */
  class PhoibleLister {
    var usefulInventories: set<int>
    var langMap: map<string, LanguageDetails>
    var topLangs: set<string>
    var variantMap: map<string, set<string>>

    constructor (finder: WalsFreq.FeatureFreqFinder, iso1To3: map<string, string>,
                 phoibleRows: seq<PhoibleRow>, sourceLangCodes: seq<string>)
      requires finder.SourceSet(false) <= finder.langNames.Keys
      ensures usefulInventories == UsefulUpTo(phoibleRows, |phoibleRows|)
      ensures InitialLangMap(langMap, finder.SourceSet(false), iso1To3, finder.langNames)
      ensures topLangs == TopLangsOf(sourceLangCodes, 5)
      ensures variantMap == map[]
    {
      var sources := finder.SourceSet(false);
      var names := finder.langNames;
      var useful := FindUsefulInventories(phoibleRows);
      var m := InitialLanguages(sources, iso1To3, names);
      var top := TopLangs(sourceLangCodes, 5);
      usefulInventories, langMap, topLangs, variantMap := useful, m, top, map[];
    }

    /** The row-reading part of `list_sounds`. */
    method ListSounds(rows: seq<PhoibleRow>)
      modifies this`langMap
      ensures langMap == ListedUpTo(old(langMap), usefulInventories, rows, |rows|)
    {
      for i := 0 to |rows|
        invariant langMap == ListedUpTo(old(langMap), usefulInventories, rows, i)
      {
        var row := rows[i];
        var iso3 := row.iso3Code;
        if iso3 !in langMap {
          continue;
        }
        var details := ReadRow(langMap[iso3], row);
        langMap := langMap[iso3 := details];
      }
    }

    /** The body of the loop of `list_sounds` for a row of a known language. */
    method ReadRow(details: LanguageDetails, row: PhoibleRow) returns (result: LanguageDetails)
      ensures result == RowDetails(details, usefulInventories, row)
    {
      result := details;
      var id := row.inventoryId;
      if result.inventoryId.None? && id in usefulInventories {
        result := result.(inventoryId := Some(id));
      } else if result.inventoryId != Some(id) {
        return;
      }
      var phoneme := row.phoneme;
      ContainsChar(phoneme, '|');
      if '|' in phoneme {
        phoneme := SplitOnce(phoneme, "|")[1];
      }
      if row.marginal == "TRUE" {
        return;
      }
      if row.segmentClass == "consonant" {
        result := result.(consonantList := result.consonantList + [phoneme]);
      } else if row.segmentClass == "vowel" {
        result := result.(vowelList := result.vowelList + [phoneme]);
      }
    }

    /** `_simplify_phoneme_set`: the kept phonemes, sorted; the variants found are added to
        the variant map. */
    method SimplifyPhonemeSet(phonemeList: seq<string>, consonants: bool) returns (result: seq<string>)
      modifies this`variantMap
      ensures var sorted := SortByLength(phonemeList);
        var st := SimplifiedUpTo(sorted, Bases(sorted), consonants, old(variantMap), |sorted|);
        result == SortedSet(st.kept) && variantMap == st.variants
      ensures StrictlySorted(result) && |result| <= |phonemeList|
      ensures forall p :: p in phonemeList ==> p in result || Recorded(p, variantMap)
    {
      var sorted := SortByLength(phonemeList);
      ghost var bases := Bases(sorted);
      var resultSet: set<string> := {};
      ghost var start := variantMap;
      for i := 0 to |sorted|
        invariant Simplified(resultSet, variantMap) == SimplifiedUpTo(sorted, bases, consonants, start, i)
      {
        resultSet := SimplifyPhoneme(sorted[i], consonants, resultSet);
      }
      SimplifiedNoLonger(sorted, bases, consonants, start, |sorted|);
      result := SortedSet(resultSet);
      forall p | p in phonemeList
        ensures p in result || Recorded(p, variantMap)
      {
        SortByLengthPermutes(phonemeList);
        assert p in multiset(sorted);
        var k :| 0 <= k < |sorted| && sorted[k] == p;
        NothingLost(sorted, bases, consonants, start, k, |sorted|);
      }
    }

    /** One pass of the loop of `_simplify_phoneme_set`. */
    method SimplifyPhoneme(phoneme: string, consonants: bool, resultSet: set<string>) returns (newSet: set<string>)
      modifies this`variantMap
      ensures Simplified(newSet, variantMap) == SimplifyStep(Simplified(resultSet, old(variantMap)), phoneme, BaseForm(phoneme), consonants)
    {
      var base := if |phoneme| > 1 then Translate(phoneme, "", "", PhonemeModifiers) else phoneme;
      if !consonants && |base| > 1 {
        if forall j :: 0 <= j < |base| ==> [base[j]] in resultSet {
          variantMap := AddVariant(variantMap, [base[0]], phoneme);
          return resultSet;
        }
      }
      if base != phoneme {
        newSet := resultSet + {base};
        variantMap := AddVariant(variantMap, base, phoneme);
      } else {
        newSet := resultSet + {phoneme};
      }
    }

    /** `_combine_related_sounds`: a copy of the language with merged consonants and vowels. */
    method CombineRelatedSounds(details: LanguageDetails) returns (result: LanguageDetails)
      modifies this`variantMap
      ensures (result, variantMap) == Combined(details, old(variantMap))
      ensures result.name == details.name && result.isoCode == details.isoCode && result.inventoryId == details.inventoryId
      ensures result.ConsonantCount() <= details.ConsonantCount() && result.VowelCount() <= details.VowelCount()
      ensures StrictlySorted(result.consonantList) && StrictlySorted(result.vowelList)
    {
      var consonants := SimplifyPhonemeSet(details.consonantList, true);
      var vowels := SimplifyPhonemeSet(details.vowelList, false);
      result := details.(consonantList := consonants, vowelList := vowels);
    }

    /** The list comprehension of `list_sounds` that merges related sounds in every
        language, in order, with the variant map carried from one to the next: each
        language keeps its name and codes, and no list grows. */
    method CombineAll(details: seq<LanguageDetails>) returns (result: seq<LanguageDetails>)
      modifies this`variantMap
      ensures (result, variantMap) == CombinedUpTo(details, Combined, old(variantMap), |details|)
      ensures |result| == |details|
      ensures forall i :: 0 <= i < |details| ==> MergedFrom(result[i], details[i])
    {
      result := [];
      ghost var variants0 := variantMap;
      for i := 0 to |details|
        invariant (result, variantMap) == CombinedUpTo(details, Combined, variants0, i)
        invariant |result| == i
        invariant forall j :: 0 <= j < i ==> MergedFrom(result[j], details[j])
      {
        result := CombineNext(details, variants0, result);
      }
    }

    /** One round of `CombineAll`: the next language merged and appended. */
    method CombineNext(details: seq<LanguageDetails>, ghost variants0: map<string, set<string>>, sofar: seq<LanguageDetails>)
      returns (extended: seq<LanguageDetails>)
      requires |sofar| < |details|
      requires (sofar, variantMap) == CombinedUpTo(details, Combined, variants0, |sofar|)
      requires forall j :: 0 <= j < |sofar| ==> MergedFrom(sofar[j], details[j])
      modifies this`variantMap
      ensures |extended| == |sofar| + 1
      ensures (extended, variantMap) == CombinedUpTo(details, Combined, variants0, |extended|)
      ensures forall j :: 0 <= j < |extended| ==> MergedFrom(extended[j], details[j])
    {
      var combined := CombineRelatedSounds(details[|sofar|]);
      CombinedUpToNext(details, Combined, variants0, |sofar|);
      MergedAppend(sofar, combined, details, |sofar|);
      extended := sofar + [combined];
    }
  }
}
