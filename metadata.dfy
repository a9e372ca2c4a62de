// The translation table of metadata values (ValueProvider in scripts/metadata.py): built
// from the records of a values file, one LineDict per record, and looked up by value.
module Metadata {
  import opened LineDicts

  /** The table after the first `n` records: a record with both a "value" field and a
      translation into `lang` maps that value to it (a later record overwrites an earlier
      one); records lacking either are skipped with a warning. */
  function TableUpTo(records: seq<Dict>, lang: string, n: nat): (t: map<string, string>)
    requires n <= |records|
  {
    if n == 0 then map[]
    else
      var prev := TableUpTo(records, lang, n - 1);
      var r := records[n - 1];
      if "value" in r.store && lang in r.store then prev[r.store["value"] := r.store[lang]]
      else prev
  }

  lemma TableStep(records: seq<Dict>, lang: string, i: nat)
    requires i < |records|
    ensures TableUpTo(records, lang, i + 1)
            == if "value" in records[i].store && lang in records[i].store
               then TableUpTo(records, lang, i)[records[i].store["value"] := records[i].store[lang]]
               else TableUpTo(records, lang, i)
  {
  }

  /** A record that has both fields is usable. */
  predicate Usable(r: Dict, lang: string)
  {
    "value" in r.store && lang in r.store
  }

  /** A value is in the table exactly when some usable record names it. */
  lemma {:induction false} TableKeys(records: seq<Dict>, lang: string, n: nat, v: string)
    requires n <= |records|
    ensures v in TableUpTo(records, lang, n)
            <==> exists i :: 0 <= i < n && Usable(records[i], lang) && records[i].store["value"] == v
  {
    if n > 0 {
      TableKeys(records, lang, n - 1, v);
      if Usable(records[n - 1], lang) && records[n - 1].store["value"] == v {
        assert 0 <= n - 1 < n;
      }
    }
  }

  /** The translation of a value is that of the last usable record naming it. */
  lemma {:induction false} TableLastWins(records: seq<Dict>, lang: string, n: nat, i: nat)
    requires i < n <= |records| && Usable(records[i], lang)
    requires forall j :: i < j < n && Usable(records[j], lang) ==>
                         records[j].store["value"] != records[i].store["value"]
    ensures records[i].store["value"] in TableUpTo(records, lang, n)
    ensures TableUpTo(records, lang, n)[records[i].store["value"]] == records[i].store[lang]
  {
    if i < n - 1 {
      TableLastWins(records, lang, n - 1, i);
    }
  }

  class ValueProvider {
    var lang: string
    var translations: map<string, string>

    /** Reads the records in turn, keeping the usable ones. */
    constructor (lang: string, records: seq<Dict>)
      ensures this.lang == lang && translations == TableUpTo(records, lang, |records|)
    {
      this.lang := lang;
      var dct: map<string, string> := map[];
      for i := 0 to |records|
        invariant dct == TableUpTo(records, lang, i)
      {
        TableStep(records, lang, i);
        var r := records[i];
        if "value" !in r.store {
          continue;
        }
        if lang !in r.store {
          continue;
        }
        dct := dct[r.store["value"] := r.store[lang]];
      }
      translations := dct;
    }

    /** The stored translation, else the value marked with " (?)". */
    function Lookup(value: string): (r: string)
      reads this
      ensures value in translations ==> r == translations[value]
      ensures value !in translations ==> r == value + " (?)"
    {
      if value in translations then translations[value] else value + " (?)"
    }
  }

  /** A provider built from `records` marks a value no usable record names as
      untranslated. */
  lemma LookupUnknown(p: ValueProvider, records: seq<Dict>, value: string)
    requires p.translations == TableUpTo(records, p.lang, |records|)
    requires forall i :: 0 <= i < |records| && Usable(records[i], p.lang) ==>
                         records[i].store["value"] != value
    ensures p.Lookup(value) == value + " (?)"
  {
    TableKeys(records, p.lang, |records|, value);
  }

  /** A provider built from `records` translates a value as the last usable record
      naming it does. */
  lemma LookupKnown(p: ValueProvider, records: seq<Dict>, i: nat)
    requires p.translations == TableUpTo(records, p.lang, |records|)
    requires i < |records| && Usable(records[i], p.lang)
    requires forall j :: i < j < |records| && Usable(records[j], p.lang) ==>
                         records[j].store["value"] != records[i].store["value"]
    ensures p.Lookup(records[i].store["value"]) == records[i].store[p.lang]
  {
    TableLastWins(records, p.lang, |records|, i);
  }
}
