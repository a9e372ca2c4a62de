// The grouped wordlist export (scripts/dict2wordlist.py): one WordInfo per dictionary
// entry, rendered as a DokuWiki list line, grouped by first word class and emitted in a
// fixed class order.
module Wordlist {
  import opened Wrappers
  import opened Text
  import Util
  import opened LineDicts
  import CandidateConstraints
  import Merging
  import opened Metadata

  // ----- Parsing the "value" field -----

  /** A fraction "x/y" is rewritten to "y.x" (split at the first '/', both halves
      stripped), so that it sorts behind the base number y; other text is kept. */
  function FractionRewrite(raw: string): (r: string)
  {
    var parts := SplitOnce(raw, "/");
    if |parts| == 2 then Strip(parts[1]) + "." + Strip(parts[0]) else raw
  }

  /** `pow(b, e)` on two ints: an int for e >= 0, the float 1 / b ** -e otherwise;
      0 to a negative power is a ZeroDivisionError. */
  function Power(b: int, e: int): (r: Result<real>)
    ensures e >= 0 ==> r == Ok(IntPow(b, e) as real)
    ensures e < 0 && b != 0 ==> r == Ok(1.0 / IntPow(b, -e) as real)
    ensures r.Err? <==> b == 0 && e < 0
  {
    if e >= 0 then Ok(IntPow(b, e) as real)
    else if b == 0 then Err("ZeroDivisionError: 0.0 cannot be raised to a negative power")
    else Ok(1.0 / IntPow(b, -e) as real)
  }

  function IntPow(b: int, e: nat): (r: int)
    ensures b != 0 ==> r != 0
    ensures e == 0 ==> r == 1
    ensures e == 1 ==> r == b
  {
    if e == 0 then 1 else b * IntPow(b, e - 1)
  }

  /** Exponents add: b^(m + n) is b^m times b^n. */
  lemma {:induction false} IntPowAdd(b: int, m: nat, n: nat)
    ensures IntPow(b, m + n) == IntPow(b, m) * IntPow(b, n)
  {
    if m > 0 {
      IntPowAdd(b, m - 1, n);
      var x, y := IntPow(b, m - 1), IntPow(b, n);
      assert IntPow(b, m + n) == b * (x * y);
      MulAssoc(b, x, y);
    }
  }

  lemma MulAssoc(a: int, x: int, y: int)
    ensures a * (x * y) == (a * x) * y
  {
  }

  /** A negative power is the reciprocal of the positive one: b^-e * b^e == 1. */
  lemma PowerInverse(b: int, e: int)
    requires b != 0 && e >= 0
    ensures Power(b, -e).Ok? && Power(b, e).Ok?
    ensures Power(b, -e).value * Power(b, e).value == 1.0
  {
    var p := IntPow(b, e) as real;
    assert p != 0.0;
    if e > 0 {
      assert Power(b, -e).value == 1.0 / p;
    }
  }

  /** parse_value on the raw text: power notation "b^e" with two ints, else `float`
      (surrounding whitespace allowed); text that is not a number gives None after a
      warning. */
  function NumberOf(raw: string): (r: Result<Option<real>>)
  {
    var parts := SplitOnce(raw, "^");
    if |parts| == 2 then
      match (Merging.ParseInt(parts[0]), Merging.ParseInt(parts[1]))
      case (Some(b), Some(e)) =>
        (match Power(b, e)
         case Ok(v) => Ok(Some(v))
         case Err(msg) => Err(msg))
      case _ => Ok(None)
    else Ok(CandidateConstraints.ParseDecimal(Strip(raw)))
  }

  /** parse_value: a missing or empty "value" field gives None. */
  function ParseValue(entry: Dict): (r: Result<Option<real>>)
    ensures ("value" !in entry.store || entry.store["value"] == "") ==> r == Ok(None)
  {
    if "value" !in entry.store || entry.store["value"] == "" then Ok(None)
    else NumberOf(FractionRewrite(entry.store["value"]))
  }

  /** A value without '/' in power notation "b^e", whose halves `int` reads as b and e,
      is read as the power b^e: the int b^e for e >= 0, the float 1 / b^-e for e < 0,
      and a ZeroDivisionError for 0 to a negative power. */
  lemma ParsePower(entry: Dict, b: int, e: int)
    requires "value" in entry.store && entry.store["value"] != ""
    requires !Contains(entry.store["value"], "/")
    requires var parts := SplitOnce(entry.store["value"], "^");
      |parts| == 2 && Merging.ParseInt(parts[0]) == Some(b) && Merging.ParseInt(parts[1]) == Some(e)
    ensures Power(b, e).Ok? ==> ParseValue(entry) == Ok(Some(Power(b, e).value))
    ensures Power(b, e).Err? ==> ParseValue(entry) == Err(Power(b, e).error)
    ensures e >= 0 ==> ParseValue(entry) == Ok(Some(IntPow(b, e) as real))
  {
    FractionRewriteShape(entry.store["value"]);
  }

  /** A value with a '/' is rewritten to the stripped text after the first '/', a '.',
      and the stripped text before it; a value without one is kept. */
  lemma FractionRewriteShape(raw: string)
    ensures Contains(raw, "/") ==>
              exists before, after :: raw == before + "/" + after && !Contains(before, "/")
                                      && FractionRewrite(raw) == Strip(after) + "." + Strip(before)
    ensures !Contains(raw, "/") ==> FractionRewrite(raw) == raw
  {
    var parts := SplitOnce(raw, "/");
    if |parts| == 2 {
      assert raw == parts[0] + "/" + parts[1] && !Contains(parts[0], "/");
      assert FractionRewrite(raw) == Strip(parts[1]) + "." + Strip(parts[0]);
    }
  }

  /** A value without power notation whose stripped text holds, after its first
      character, anything but digits and '.' is not a number: it reads as None. */
  lemma NotANumber(entry: Dict, i: nat)
    requires "value" in entry.store && entry.store["value"] != ""
    requires !Contains(FractionRewrite(entry.store["value"]), "^")
    requires var t := Strip(FractionRewrite(entry.store["value"]));
      0 < i < |t| && !CandidateConstraints.IsDigit(t[i]) && t[i] != '.'
    ensures ParseValue(entry) == Ok(None)
  {
    CandidateConstraints.ParseDecimalChars(Strip(FractionRewrite(entry.store["value"])), i);
  }

  // ----- WordInfo -----

  datatype WordInfo = WordInfo(classes: seq<string>, tags: seq<string>, word: string,
                               trans: string, gloss: Option<string>, infl: seq<string>,
                               numvalue: Option<real>)

  function Get(entry: Dict, key: string): Option<string>
  {
    if key in entry.store then Some(entry.store[key]) else None
  }

  /** from_entry: the fields of an entry, with '???' for a missing translation. */
  function FromEntry(entry: Dict, lang: string): (r: Result<WordInfo>)
    ensures r.Ok? ==> r.value.trans == Lookup(entry, lang, "???")
                      && r.value.word == Lookup(entry, "word", "")
                      && r.value.gloss == Get(entry, "gloss")
  {
    match ParseValue(entry)
    case Err(msg) => Err(msg)
    case Ok(v) =>
      Ok(WordInfo(Util.SplitOnCommas(Some(Lookup(entry, "class", ""))),
                  Util.SplitOnCommas(Some(Lookup(entry, "tags", ""))),
                  Lookup(entry, "word", ""), Lookup(entry, lang, "???"), Get(entry, "gloss"),
                  Util.SplitOnCommas(Some(Lookup(entry, "infl", ""))), v))
  }

  // ----- Rendering one word -----

  /** SHORT_CLASS_NAMES, with any other class kept. */
  function ShortClassName(cls: string): string
  {
    match cls
    case "name" => "PN"
    case "noun" => "n"
    case "particle" => "par"
    case "prefix" => "Pref"
    case "suffix" => "Suf"
    case "verb" => "v"
    case _ => cls
  }

  function FormattedClasses(classes: seq<string>): (r: seq<string>)
    ensures |r| == |classes|
  {
    if |classes| == 0 then []
    else FormattedClasses(classes[..|classes| - 1])
         + [Util.Capitalize(ShortClassName(classes[|classes| - 1]))]
  }

  function ClassInfo(classes: seq<string>): string
  {
    if |classes| > 1 then " <sup>" + Join(FormattedClasses(classes), "/") + "</sup>" else ""
  }

  /** A gloss is shown when it contains '+' or starts with '='. */
  predicate GlossShown(gloss: Option<string>)
  {
    gloss.Some? && gloss.value != "" && ('+' in gloss.value || "=" <= gloss.value)
  }

  function GlossInfo(gloss: Option<string>): string
  {
    if GlossShown(gloss) then " (" + gloss.value + ")" else ""
  }

  function InflInfo(infl: seq<string>): string
  {
    if |infl| > 0 then " <sup>(sources: " + Join(infl, ", ") + ")</sup>" else ""
  }

  /** WordInfo.__str__ */
  function Render(w: WordInfo): string
  {
    "  * **" + w.word + "** – " + w.trans + ClassInfo(w.classes) + GlossInfo(w.gloss)
    + InflInfo(w.infl)
  }

  /** The class list is shown exactly when the word has several classes. */
  lemma ClassesShownWhenSeveral(w: WordInfo)
    ensures |w.classes| <= 1 ==> Render(w) == Render(w.(classes := []))
    ensures |w.classes| > 1 ==> |Render(w)| > |Render(w.(classes := []))|
  {
  }

  /** The gloss is shown exactly when it contains '+' or starts with '='. */
  lemma GlossShownWhenMarked(w: WordInfo)
    ensures !GlossShown(w.gloss) ==> Render(w) == Render(w.(gloss := None))
    ensures GlossShown(w.gloss) ==> |Render(w)| > |Render(w.(gloss := None))|
  {
  }

  /** The sources are shown exactly when there are inflection sources. */
  lemma SourcesShownWhenPresent(w: WordInfo)
    ensures |w.infl| == 0 ==> Render(w) == Render(w.(infl := []))
    ensures |w.infl| > 0 ==> |Render(w)| > |Render(w.(infl := []))|
  {
  }

  /** Every rendered line starts with the bold word and its translation. */
  lemma RenderStartsWithWord(w: WordInfo)
    ensures "  * **" + w.word + "** – " + w.trans <= Render(w)
  {
  }

  // ----- print_group: the order of the words of one class -----

  /** The sort key of print_group: the numeric value, a missing one counting as infinity. */
  predicate ValueLess(a: Option<real>, b: Option<real>)
  {
    a.Some? && (b.None? || a.value < b.value)
  }

  predicate SortedByValue(s: seq<WordInfo>)
  {
    forall i, j :: 0 <= i < j < |s| ==> !ValueLess(s[j].numvalue, s[i].numvalue)
  }

  /** `x` placed after every word whose value is not greater than its own. */
  function InsertByValue(x: WordInfo, s: seq<WordInfo>): (r: seq<WordInfo>)
    ensures |r| == |s| + 1
  {
    if |s| == 0 then [x]
    else if ValueLess(x.numvalue, s[0].numvalue) then [x] + s
    else [s[0]] + InsertByValue(x, s[1..])
  }

  /** `sorted(word_infos, key=...)`: an insertion sort from the left, which is stable. */
  function SortByValue(s: seq<WordInfo>): (r: seq<WordInfo>)
    ensures |r| == |s|
  {
    if |s| == 0 then [] else InsertByValue(s[|s| - 1], SortByValue(s[..|s| - 1]))
  }

  /** The words that print_group prints, in order: sorted by value only when the first
      word has one. */
  function PrintOrder(ws: seq<WordInfo>): seq<WordInfo>
    requires |ws| > 0
  {
    if ws[0].numvalue.Some? then SortByValue(ws) else ws
  }

  /** The words of `s` with value `v`, in order. */
  function WithValue(s: seq<WordInfo>, v: Option<real>): (r: seq<WordInfo>)
  {
    if |s| == 0 then []
    else (if s[0].numvalue == v then [s[0]] else []) + WithValue(s[1..], v)
  }

  lemma {:induction false} WithValueAppend(a: seq<WordInfo>, b: seq<WordInfo>, v: Option<real>)
    ensures WithValue(a + b, v) == WithValue(a, v) + WithValue(b, v)
  {
    if |a| > 0 {
      WithValueAppend(a[1..], b, v);
      var h := if a[0].numvalue == v then [a[0]] else [];
      assert (a + b)[0] == a[0] && (a + b)[1..] == a[1..] + b;
      assert WithValue(a + b, v) == h + WithValue(a[1..] + b, v);
      assert WithValue(a, v) == h + WithValue(a[1..], v);
    } else {
      assert a + b == b;
    }
  }

  lemma ValueLessTransitive(a: Option<real>, b: Option<real>, c: Option<real>)
    requires ValueLess(a, b) && ValueLess(b, c)
    ensures ValueLess(a, c)
  {
  }

  lemma {:induction false} InsertByValuePermutes(x: WordInfo, s: seq<WordInfo>)
    ensures multiset(InsertByValue(x, s)) == multiset(s) + multiset{x}
  {
    if |s| > 0 && !ValueLess(x.numvalue, s[0].numvalue) {
      InsertByValuePermutes(x, s[1..]);
      assert s == [s[0]] + s[1..];
    }
  }

  lemma {:induction false} InsertByValueMembers(x: WordInfo, s: seq<WordInfo>)
    ensures forall e :: e in InsertByValue(x, s) ==> e == x || e in s
  {
    if |s| > 0 && !ValueLess(x.numvalue, s[0].numvalue) {
      InsertByValueMembers(x, s[1..]);
    }
  }

  lemma {:induction false} InsertByValueSorted(x: WordInfo, s: seq<WordInfo>)
    requires SortedByValue(s)
    ensures SortedByValue(InsertByValue(x, s))
  {
    if |s| == 0 {
    } else if ValueLess(x.numvalue, s[0].numvalue) {
      var r := [x] + s;
      forall i, j | 0 <= i < j < |r| ensures !ValueLess(r[j].numvalue, r[i].numvalue) {
        if i == 0 && j > 1 {
          assert r[j] == s[j - 1];
        }
      }
    } else {
      var t := s[1..];
      assert SortedByValue(t);
      InsertByValueSorted(x, t);
      InsertByValueMembers(x, t);
      var r := [s[0]] + InsertByValue(x, t);
      forall i, j | 0 <= i < j < |r| ensures !ValueLess(r[j].numvalue, r[i].numvalue) {
        if i == 0 {
          var e := r[j];
          assert e in InsertByValue(x, t);
          if e != x {
            assert e in s[1..];
          }
        }
      }
    }
  }

  lemma {:induction false} WithValueNone(s: seq<WordInfo>, v: Option<real>)
    requires forall j :: 0 <= j < |s| ==> s[j].numvalue != v
    ensures WithValue(s, v) == []
  {
    if |s| > 0 {
      WithValueNone(s[1..], v);
    }
  }

  /** A word smaller than the first of a sorted list has a value no word of it has. */
  lemma BelowSorted(x: WordInfo, s: seq<WordInfo>)
    requires SortedByValue(s) && |s| > 0 && ValueLess(x.numvalue, s[0].numvalue)
    ensures WithValue(s, x.numvalue) == []
  {
    forall j | 0 <= j < |s|
      ensures s[j].numvalue != x.numvalue
    {
      assert j == 0 || !ValueLess(s[j].numvalue, s[0].numvalue);
    }
    WithValueNone(s, x.numvalue);
  }

  /** Putting a word in front adds it in front of the words of its value. */
  lemma WithValueCons(h: WordInfo, t: seq<WordInfo>, v: Option<real>)
    ensures WithValue([h] + t, v) == (if h.numvalue == v then [h] else []) + WithValue(t, v)
  {
    assert ([h] + t)[0] == h && ([h] + t)[1..] == t;
  }

  /** Inserting keeps the words of each value in their order, `x` after them. */
  lemma {:induction false} InsertByValueStable(x: WordInfo, s: seq<WordInfo>, v: Option<real>)
    requires SortedByValue(s)
    ensures WithValue(InsertByValue(x, s), v) == WithValue(s, v) + (if x.numvalue == v then [x] else [])
  {
    if |s| == 0 {
      WithValueCons(x, [], v);
      assert [x] + [] == [x];
    } else if ValueLess(x.numvalue, s[0].numvalue) {
      InsertBelowStable(x, s, v);
    } else {
      var t := s[1..];
      assert SortedByValue(t);
      InsertByValueStable(x, t, v);
      assert InsertByValue(x, s) == [s[0]] + InsertByValue(x, t);
      WithValueCons(s[0], InsertByValue(x, t), v);
      WithValueCons(s[0], t, v);
      assert [s[0]] + t == s;
    }
  }

  lemma InsertBelowStable(x: WordInfo, s: seq<WordInfo>, v: Option<real>)
    requires SortedByValue(s) && |s| > 0 && ValueLess(x.numvalue, s[0].numvalue)
    ensures WithValue([x] + s, v) == WithValue(s, v) + (if x.numvalue == v then [x] else [])
  {
    WithValueCons(x, s, v);
    if x.numvalue == v {
      BelowSorted(x, s);
      assert [x] + [] == [x] && [] + [x] == [x];
    }
  }

  /** print_group's sort orders the words by value. */
  lemma {:induction false} SortByValueSorted(s: seq<WordInfo>)
    ensures SortedByValue(SortByValue(s))
  {
    if |s| > 0 {
      SortByValueSorted(s[..|s| - 1]);
      InsertByValueSorted(s[|s| - 1], SortByValue(s[..|s| - 1]));
    }
  }

  /** print_group's sort keeps every word. */
  lemma {:induction false} SortByValuePermutes(s: seq<WordInfo>)
    ensures multiset(SortByValue(s)) == multiset(s)
  {
    if |s| > 0 {
      var n := |s| - 1;
      SortByValuePermutes(s[..n]);
      InsertByValuePermutes(s[n], SortByValue(s[..n]));
      assert s == s[..n] + [s[n]];
    }
  }

  /** print_group's sort keeps the words of equal value (those without one in particular)
      in their order. */
  lemma {:induction false} SortByValueStable(s: seq<WordInfo>, v: Option<real>)
    ensures WithValue(SortByValue(s), v) == WithValue(s, v)
  {
    if |s| > 0 {
      var n := |s| - 1;
      SortByValueSorted(s[..n]);
      SortByValueStable(s[..n], v);
      InsertByValueStable(s[n], SortByValue(s[..n]), v);
      WithValueAppend(s[..n], [s[n]], v);
      assert s == s[..n] + [s[n]];
    }
  }

  /** print_group keeps the words of a group, leaves their order alone unless the first
      word has a value, and otherwise sorts them by value, stably. */
  lemma PrintOrderMeaning(ws: seq<WordInfo>)
    requires |ws| > 0
    ensures multiset(PrintOrder(ws)) == multiset(ws)
    ensures ws[0].numvalue.None? ==> PrintOrder(ws) == ws
    ensures ws[0].numvalue.Some? ==>
              SortedByValue(PrintOrder(ws))
              && forall v :: WithValue(PrintOrder(ws), v) == WithValue(ws, v)
  {
    if ws[0].numvalue.Some? {
      SortByValueSorted(ws);
      SortByValuePermutes(ws);
      forall v {
        SortByValueStable(ws, v);
      }
    }
  }

  // ----- create_wordlist: grouping by first class -----

  /** GROUP_ORDER: the order in which the known classes are printed. */
  const GroupOrder: seq<string> := ["noun", "name", "adj", "adv", "verb", "aux", "particle",
                                    "quant", "sel", "pron", "num", "prep", "prep_phrase",
                                    "conj", "prefix", "suffix", "intj", "phrase"]

  lemma GroupOrderDistinct()
    ensures forall i, j :: 0 <= i < j < |GroupOrder| ==> GroupOrder[i] != GroupOrder[j]
  {
  }

  /** The first position of `c` in `s`, or `|s|` when it does not occur. */
  function IndexIn(s: seq<string>, c: string): (r: nat)
    ensures r <= |s| && (r < |s| <==> c in s) && (r < |s| ==> s[r] == c)
    ensures forall k :: 0 <= k < r ==> s[k] != c
  {
    if |s| == 0 || s[0] == c then 0 else 1 + IndexIn(s[1..], c)
  }

  lemma PrefixStep(s: seq<string>, i: nat)
    requires i < |s|
    ensures s[..i + 1] == s[..i] + [s[i]]
  {
  }

  /** One entry as the grouping loop sees it: from_entry's result, or the IndexError of
      taking the first class of an entry that has none. */
  function Converted(entry: Dict, lang: string): (r: Result<WordInfo>)
    ensures r.Ok? ==> FromEntry(entry, lang) == r && |r.value.classes| > 0
  {
    match FromEntry(entry, lang)
    case Err(msg) => Err(msg)
    case Ok(w) => if |w.classes| == 0 then Err("IndexError: list index out of range") else Ok(w)
  }

  /** The conversion of each entry, in order. */
  function Conversions(entries: seq<Dict>, lang: string): (r: seq<Result<WordInfo>>)
    ensures |r| == |entries|
  {
    seq(|entries|, i requires 0 <= i < |entries| => Converted(entries[i], lang))
  }

  /** The words of the first `n` conversions, or the first error among them. */
  function Converts(vals: seq<Result<WordInfo>>, n: nat): (r: Result<seq<WordInfo>>)
    requires n <= |vals|
  {
    if n == 0 then Ok([])
    else
      match Converts(vals, n - 1)
      case Err(msg) => Err(msg)
      case Ok(ws) =>
        (match vals[n - 1]
         case Err(msg) => Err(msg)
         case Ok(w) => Ok(ws + [w]))
  }

  /** The conversion succeeds exactly when every entry converts, and then lists their
      words in order; otherwise it stops with the error of the first entry that fails. */
  lemma {:induction false} ConvertsContents(vals: seq<Result<WordInfo>>, n: nat)
    requires n <= |vals|
    ensures Converts(vals, n).Ok? <==> forall i :: 0 <= i < n ==> vals[i].Ok?
    ensures Converts(vals, n).Ok? ==>
              |Converts(vals, n).value| == n
              && forall i :: 0 <= i < n ==> Converts(vals, n).value[i] == vals[i].value
    ensures Converts(vals, n).Err? ==>
              exists k :: 0 <= k < n && vals[k].Err? && Converts(vals, n).error == vals[k].error
                          && forall i :: 0 <= i < k ==> vals[i].Ok?
  {
    if n > 0 {
      ConvertsContents(vals, n - 1);
      if Converts(vals, n - 1).Ok? && vals[n - 1].Err? {
        assert Converts(vals, n).error == vals[n - 1].error;
      }
    }
  }

  lemma ConvertsStep(vals: seq<Result<WordInfo>>, i: nat, ws: seq<WordInfo>, w: WordInfo)
    requires i < |vals| && Converts(vals, i) == Ok(ws) && vals[i] == Ok(w)
    ensures Converts(vals, i + 1) == Ok(ws + [w])
  {
  }

  /** Once an entry fails, so does the whole conversion, with that entry's error. */
  lemma {:induction false} ConvertsFailsAt(vals: seq<Result<WordInfo>>, i: nat, n: nat)
    requires i < n <= |vals| && Converts(vals, i).Ok? && vals[i].Err?
    ensures Converts(vals, n) == Err(vals[i].error)
  {
    if n > i + 1 {
      ConvertsFailsAt(vals, i, n - 1);
    }
  }

  predicate HasFirstClass(w: WordInfo, c: string)
  {
    |w.classes| > 0 && w.classes[0] == c
  }

  /** The words whose first class is `c`, in order. */
  function Members(ws: seq<WordInfo>, c: string): (r: seq<WordInfo>)
    ensures |r| <= |ws|
  {
    if |ws| == 0 then []
    else
      Members(ws[..|ws| - 1], c)
      + (if HasFirstClass(ws[|ws| - 1], c) then [ws[|ws| - 1]] else [])
  }

  /** The first classes of the words, each once, where it first occurs: the key order of
      class_dict. */
  function FirstClasses(ws: seq<WordInfo>): seq<string>
  {
    if |ws| == 0 then []
    else
      var prev := FirstClasses(ws[..|ws| - 1]);
      var w := ws[|ws| - 1];
      if |w.classes| == 0 || w.classes[0] in prev then prev else prev + [w.classes[0]]
  }

  /** class_dict after the words `ws`: each word appended to the list of its first class. */
  function ClassDict(ws: seq<WordInfo>): map<string, seq<WordInfo>>
  {
    if |ws| == 0 then map[]
    else
      var d := ClassDict(ws[..|ws| - 1]);
      var w := ws[|ws| - 1];
      if |w.classes| == 0 then d
      else d[w.classes[0] := (if w.classes[0] in d then d[w.classes[0]] else []) + [w]]
  }

  lemma ClassDictStep(ws: seq<WordInfo>, w: WordInfo)
    requires |w.classes| > 0
    ensures var c := w.classes[0];
            var d := ClassDict(ws);
            ClassDict(ws + [w]) == d[c := (if c in d then d[c] else []) + [w]]
            && FirstClasses(ws + [w]) == if c in FirstClasses(ws) then FirstClasses(ws) else FirstClasses(ws) + [c]
  {
    assert (ws + [w])[..|ws|] == ws;
  }

  /** A word is a member of `c` exactly when it is one of the words and `c` is its first
      class. */
  lemma {:induction false} MembersOf(ws: seq<WordInfo>, c: string, w: WordInfo)
    ensures w in Members(ws, c) <==> w in ws && HasFirstClass(w, c)
  {
    if |ws| > 0 {
      var n := |ws| - 1;
      MembersOf(ws[..n], c, w);
      assert ws == ws[..n] + [ws[n]];
    }
  }

  /** class_dict holds exactly the classes that occur first, each with its members. */
  lemma {:induction false} ClassDictContents(ws: seq<WordInfo>, c: string)
    ensures c in ClassDict(ws) <==> c in FirstClasses(ws)
    ensures c in ClassDict(ws) <==> |Members(ws, c)| > 0
    ensures c in ClassDict(ws) ==> ClassDict(ws)[c] == Members(ws, c)
  {
    if |ws| > 0 {
      ClassDictContents(ws[..|ws| - 1], c);
    }
  }

  predicate Distinct(s: seq<string>)
  {
    forall i, j :: 0 <= i < j < |s| ==> s[i] != s[j]
  }

  lemma {:induction false} FirstClassesDistinct(ws: seq<WordInfo>)
    ensures Distinct(FirstClasses(ws))
  {
    if |ws| > 0 {
      FirstClassesDistinct(ws[..|ws| - 1]);
    }
  }

  /** `s` without the strings of `excl`, in order. */
  function Without(s: seq<string>, excl: seq<string>): (r: seq<string>)
    ensures forall x :: x in r <==> x in s && x !in excl
  {
    if |s| == 0 then [] else (if s[0] in excl then [] else [s[0]]) + Without(s[1..], excl)
  }

  lemma {:induction false} WithoutStep(s: seq<string>, excl: seq<string>, c: string)
    ensures Without(s, excl + [c]) == Without(Without(s, excl), [c])
  {
    if |s| > 0 {
      WithoutStep(s[1..], excl, c);
      assert s[0] in excl + [c] <==> s[0] in excl || s[0] == c;
      if s[0] !in excl {
        assert Without(s, excl) == [s[0]] + Without(s[1..], excl);
        assert Without(s, excl)[1..] == Without(s[1..], excl);
      } else {
        assert Without(s, excl) == Without(s[1..], excl);
      }
    }
  }

  lemma {:induction false} WithoutNothing(s: seq<string>)
    ensures Without(s, []) == s
  {
    if |s| > 0 {
      WithoutNothing(s[1..]);
      assert s == [s[0]] + s[1..];
    }
  }

  lemma {:induction false} WithoutDistinct(s: seq<string>, excl: seq<string>)
    requires Distinct(s)
    ensures Distinct(Without(s, excl))
  {
    if |s| > 0 {
      WithoutDistinct(s[1..], excl);
      assert s[0] !in s[1..];
    }
  }

  /** One printed group: its class, the header line's translated class name and the
      words in print order. */
  datatype Group = Group(cls: string, header: string, words: seq<WordInfo>)

  /** print_group for each class of `cs` that has words, in the order of `cs`. */
  function GroupsFor(ws: seq<WordInfo>, p: ValueProvider, cs: seq<string>): seq<Group>
    reads p
  {
    if |cs| == 0 then []
    else
      var c := cs[|cs| - 1];
      var m := Members(ws, c);
      GroupsFor(ws, p, cs[..|cs| - 1]) + (if |m| > 0 then [Group(c, p.Lookup(c), PrintOrder(m))] else [])
  }

  /** The classes outside `order`, sorted. */
  function LeftoverClasses(ws: seq<WordInfo>, order: seq<string>): seq<string>
  {
    SortStrings(Without(FirstClasses(ws), order))
  }

  /** The groups of the classes of `order` that have words, then those of the other
      classes in sorted order. */
  function ListingBy(ws: seq<WordInfo>, p: ValueProvider, order: seq<string>): seq<Group>
    reads p
  {
    GroupsFor(ws, p, order) + GroupsFor(ws, p, LeftoverClasses(ws, order))
  }

  /** The groups printed for the words `ws`. */
  function Listing(ws: seq<WordInfo>, p: ValueProvider): seq<Group>
    reads p
  {
    ListingBy(ws, p, GroupOrder)
  }

  /** What create_wordlist prints after the header for `entries`, or the error it stops
      with. */
  function Wordlist(entries: seq<Dict>, lang: string, p: ValueProvider): Result<seq<Group>>
    reads p
  {
    ListingOf(Conversions(entries, lang), p)
  }

  /** The groups for the converted entries `vals`, or the first error among them. */
  function ListingOf(vals: seq<Result<WordInfo>>, p: ValueProvider): Result<seq<Group>>
    reads p
  {
    match Converts(vals, |vals|)
    case Err(msg) => Err(msg)
    case Ok(ws) => Ok(Listing(ws, p))
  }

  // ----- create_wordlist, step by step -----

  method ConvertEntry(entries: seq<Dict>, lang: string, i: nat) returns (r: Result<WordInfo>)
    requires i < |entries|
    ensures r == Conversions(entries, lang)[i]
    ensures r.Ok? ==> |r.value.classes| > 0
  {
    r := Converted(entries[i], lang);
  }

  /** The first loop: converts each entry and appends it to the list of its first class. */
  method GroupByClass(entries: seq<Dict>, lang: string)
    returns (err: Option<string>, classDict: map<string, seq<WordInfo>>, keys: seq<string>,
             ghost ws: seq<WordInfo>)
    ensures Converts(Conversions(entries, lang), |entries|) == if err.Some? then Err(err.value) else Ok(ws)
    ensures classDict == ClassDict(ws) && keys == FirstClasses(ws)
  {
    err, classDict, keys, ws := None, map[], [], [];
    var i := 0;
    while i < |entries| && err.None?
      invariant 0 <= i <= |entries|
      invariant err.None? ==> Converts(Conversions(entries, lang), i) == Ok(ws)
      invariant err.Some? ==> Converts(Conversions(entries, lang), |entries|) == Err(err.value)
      invariant classDict == ClassDict(ws) && keys == FirstClasses(ws)
    {
      err, classDict, keys, ws := GroupEntry(entries, lang, i, classDict, keys, ws);
      i := i + 1;
    }
  }

  /** One turn of the first loop. */
  method GroupEntry(entries: seq<Dict>, lang: string, i: nat,
                    classDict0: map<string, seq<WordInfo>>, keys0: seq<string>,
                    ghost ws0: seq<WordInfo>)
    returns (err: Option<string>, classDict: map<string, seq<WordInfo>>, keys: seq<string>,
             ghost ws: seq<WordInfo>)
    requires i < |entries| && Converts(Conversions(entries, lang), i) == Ok(ws0)
    requires classDict0 == ClassDict(ws0) && keys0 == FirstClasses(ws0)
    ensures err.None? ==> Converts(Conversions(entries, lang), i + 1) == Ok(ws)
    ensures err.Some? ==> Converts(Conversions(entries, lang), |entries|) == Err(err.value)
    ensures classDict == ClassDict(ws) && keys == FirstClasses(ws)
  {
    ghost var vals := Conversions(entries, lang);
    var c := ConvertEntry(entries, lang, i);
    match c {
      case Err(msg) =>
        ConvertsFailsAt(vals, i, |entries|);
        err, classDict, keys, ws := Some(msg), classDict0, keys0, ws0;
      case Ok(w) =>
        ConvertsStep(vals, i, ws0, w);
        classDict, keys := AddToClass(classDict0, keys0, ws0, w);
        err, ws := None, ws0 + [w];
    }
  }

  /** `class_dict[word_info.classes[0]].append(word_info)` */
  method AddToClass(classDict0: map<string, seq<WordInfo>>, keys0: seq<string>,
                    ghost ws: seq<WordInfo>, w: WordInfo)
    returns (classDict: map<string, seq<WordInfo>>, keys: seq<string>)
    requires |w.classes| > 0
    requires classDict0 == ClassDict(ws) && keys0 == FirstClasses(ws)
    ensures classDict == ClassDict(ws + [w]) && keys == FirstClasses(ws + [w])
  {
    var cls := w.classes[0];
    ClassDictContents(ws, cls);
    ClassDictStep(ws, w);
    if cls !in classDict0 {
      assert [] + [w] == [w];
      keys := keys0 + [cls];
      classDict := classDict0[cls := [w]];
    } else {
      keys := keys0;
      classDict := classDict0[cls := classDict0[cls] + [w]];
    }
  }

  /** The second loop: pops the classes of GROUP_ORDER in turn, printing those that have
      words. */
  method PrintKnownClasses(classDict0: map<string, seq<WordInfo>>, keys0: seq<string>,
                           p: ValueProvider, ghost ws: seq<WordInfo>)
    returns (groups: seq<Group>, classDict: map<string, seq<WordInfo>>, keys: seq<string>)
    requires classDict0 == ClassDict(ws) && keys0 == FirstClasses(ws)
    ensures groups == GroupsFor(ws, p, GroupOrder)
    ensures keys == Without(keys0, GroupOrder)
    ensures forall k :: k in keys ==> k in keys0
    ensures forall k :: k in classDict <==> k in keys
    ensures forall k :: k in classDict ==> classDict[k] == Members(ws, k)
  {
    groups, classDict, keys := [], classDict0, keys0;
    forall k | true
      ensures k in classDict0 <==> k in keys0
      ensures k in classDict0 ==> classDict0[k] == Members(ws, k)
    {
      ClassDictContents(ws, k);
    }
    GroupOrderDistinct();
    WithoutNothing(keys0);
    assert GroupOrder[..0] == [];
    for i := 0 to |GroupOrder|
      invariant groups == GroupsFor(ws, p, GroupOrder[..i])
      invariant keys == Without(keys0, GroupOrder[..i])
      invariant forall k :: k in classDict <==> k in keys
      invariant forall k :: k in classDict ==> classDict[k] == Members(ws, k)
    {
      var cls := GroupOrder[i];
      var words := if cls in classDict then classDict[cls] else [];
      ClassDictContents(ws, cls);
      assert cls !in GroupOrder[..i];
      assert words == Members(ws, cls);
      classDict := classDict - {cls};
      WithoutStep(keys0, GroupOrder[..i], cls);
      PrefixStep(GroupOrder, i);
      assert Without(keys0, GroupOrder[..i + 1]) == Without(keys, [cls]);
      keys := Without(keys, [cls]);
      if |words| > 0 {
        groups := groups + [Group(cls, p.Lookup(cls), PrintOrder(words))];
      }
    }
    assert GroupOrder[..|GroupOrder|] == GroupOrder;
  }

  /** The third loop: prints the classes left in class_dict, sorted. */
  method PrintLeftoverClasses(classDict: map<string, seq<WordInfo>>, keys: seq<string>,
                              p: ValueProvider, ghost ws: seq<WordInfo>)
    returns (groups: seq<Group>)
    requires forall k :: k in keys ==> k in FirstClasses(ws)
    requires forall k :: k in classDict <==> k in keys
    requires forall k :: k in classDict ==> classDict[k] == Members(ws, k)
    ensures groups == GroupsFor(ws, p, SortStrings(keys))
  {
    var order := SortStrings(keys);
    groups := [];
    for j := 0 to |order|
      invariant groups == GroupsFor(ws, p, order[..j])
    {
      var cls := order[j];
      assert cls in multiset(order);
      assert cls in keys;
      ClassDictContents(ws, cls);
      PrefixStep(order, j);
      groups := groups + [Group(cls, p.Lookup(cls), PrintOrder(classDict[cls]))];
    }
    assert order[..|order|] == order;
  }

  /** create_wordlist, after the header: converts and groups the entries, then prints the
      groups of GROUP_ORDER and the left-over classes. */
  method CreateWordlist(entries: seq<Dict>, lang: string, p: ValueProvider)
    returns (r: Result<seq<Group>>)
    ensures r == Wordlist(entries, lang, p)
  {
    var err, classDict, keys, ws := GroupByClass(entries, lang);
    if err.Some? {
      return Err(err.value);
    }
    var known, rest, left := PrintKnownClasses(classDict, keys, p, ws);
    var others := PrintLeftoverClasses(rest, left, p, ws);
    r := Ok(known + others);
  }

  // ----- What create_wordlist prints -----

  lemma IndexInPrefix(s: seq<string>, n: nat, c: string)
    requires n <= |s| && c in s[..n]
    ensures IndexIn(s, c) == IndexIn(s[..n], c)
  {
    var r := IndexIn(s[..n], c);
    assert s[r] == c;
  }

  lemma IndexInDistinct(s: seq<string>, k: nat)
    requires Distinct(s) && k < |s|
    ensures IndexIn(s, s[k]) == k
  {
  }

  /** Each group of `GroupsFor(ws, p, cs)` is print_group's output for a class of `cs`
      that has words. */
  lemma {:induction false} GroupsForShape(ws: seq<WordInfo>, p: ValueProvider, cs: seq<string>, i: nat)
    requires i < |GroupsFor(ws, p, cs)|
    ensures var g := GroupsFor(ws, p, cs)[i];
            g.cls in cs && |Members(ws, g.cls)| > 0 && g.header == p.Lookup(g.cls)
            && g.words == PrintOrder(Members(ws, g.cls))
  {
    var n := |cs|;
    var prev := GroupsFor(ws, p, cs[..n - 1]);
    if i < |prev| {
      GroupsForShape(ws, p, cs[..n - 1], i);
      assert GroupsFor(ws, p, cs)[i] == prev[i];
      assert prev[i].cls in cs[..n - 1];
    }
  }

  /** Every class of `cs` that has words gets a group. */
  lemma {:induction false} GroupsForCovers(ws: seq<WordInfo>, p: ValueProvider, cs: seq<string>, c: string)
    requires c in cs && |Members(ws, c)| > 0
    ensures exists i :: 0 <= i < |GroupsFor(ws, p, cs)| && GroupsFor(ws, p, cs)[i].cls == c
  {
    var n := |cs|;
    var prev := GroupsFor(ws, p, cs[..n - 1]);
    if cs[n - 1] == c {
      assert GroupsFor(ws, p, cs)[|prev|].cls == c;
    } else {
      assert c in cs[..n - 1];
      GroupsForCovers(ws, p, cs[..n - 1], c);
      var i :| 0 <= i < |prev| && prev[i].cls == c;
      assert GroupsFor(ws, p, cs)[i] == prev[i];
    }
  }

  /** When every class of `cs` has words, there is one group per class, in the order of
      `cs`. */
  lemma {:induction false} GroupsForExact(ws: seq<WordInfo>, p: ValueProvider, cs: seq<string>)
    requires forall c :: c in cs ==> |Members(ws, c)| > 0
    ensures |GroupsFor(ws, p, cs)| == |cs|
    ensures forall i :: 0 <= i < |cs| ==> GroupsFor(ws, p, cs)[i].cls == cs[i]
  {
    if |cs| > 0 {
      var n := |cs|;
      assert cs[n - 1] in cs;
      assert forall c :: c in cs[..n - 1] ==> c in cs;
      GroupsForExact(ws, p, cs[..n - 1]);
    }
  }

  /** The groups follow the order of a list of distinct classes. */
  lemma {:induction false} GroupsForRanks(ws: seq<WordInfo>, p: ValueProvider, cs: seq<string>)
    requires Distinct(cs)
    ensures forall i, j :: 0 <= i < j < |GroupsFor(ws, p, cs)| ==>
              IndexIn(cs, GroupsFor(ws, p, cs)[i].cls) < IndexIn(cs, GroupsFor(ws, p, cs)[j].cls)
  {
    if |cs| > 0 {
      var n := |cs|;
      var pre := cs[..n - 1];
      var prev := GroupsFor(ws, p, pre);
      var gs := GroupsFor(ws, p, cs);
      GroupsForRanks(ws, p, pre);
      forall i | 0 <= i < |prev|
        ensures gs[i] == prev[i] && prev[i].cls in pre
        ensures IndexIn(cs, prev[i].cls) == IndexIn(pre, prev[i].cls) < n - 1
      {
        GroupsForShape(ws, p, pre, i);
        IndexInPrefix(cs, n - 1, prev[i].cls);
      }
      IndexInDistinct(cs, n - 1);
    }
  }

  lemma {:induction false} DistinctCount(a: seq<string>, x: string)
    requires Distinct(a)
    ensures multiset(a)[x] <= 1
  {
    if |a| > 0 {
      DistinctCount(a[1..], x);
      assert a == [a[0]] + a[1..];
      assert a[0] !in a[1..];
    }
  }

  lemma CountTwo(b: seq<string>, i: nat, j: nat)
    requires i < j < |b| && b[i] == b[j]
    ensures multiset(b)[b[i]] >= 2
  {
    assert b == b[..j] + b[j..];
    assert b[i] in b[..j];
    assert b[j] in b[j..];
  }

  /** A permutation of distinct strings is distinct. */
  lemma MultisetDistinct(a: seq<string>, b: seq<string>)
    requires multiset(a) == multiset(b) && Distinct(a)
    ensures Distinct(b)
  {
    forall i, j | 0 <= i < j < |b|
      ensures b[i] != b[j]
    {
      if b[i] == b[j] {
        CountTwo(b, i, j);
        DistinctCount(a, b[i]);
      }
    }
  }

  /** A sorted list of distinct strings is strictly increasing. */
  lemma {:induction false} SortedDistinctLess(r: seq<string>, i: nat, j: nat)
    requires SortedStrings(r) && Distinct(r) && i < j < |r|
    ensures Less(r[i], r[j])
    decreases j - i
  {
    if j > i + 1 {
      SortedDistinctLess(r, i + 1, j);
      assert LessEq(r[i], r[i + 1]) && r[i] != r[i + 1];
      LessTransitive(r[i], r[i + 1], r[j]);
    } else {
      assert LessEq(r[i], r[i + 1]) && r[i] != r[i + 1];
    }
  }

  /** The left-over classes are those that occur first but are not in `order`, each
      once, in strictly increasing order. */
  lemma LeftoverClassesShape(ws: seq<WordInfo>, order: seq<string>)
    ensures forall c :: c in LeftoverClasses(ws, order) <==> c in FirstClasses(ws) && c !in order
    ensures forall i, j :: 0 <= i < j < |LeftoverClasses(ws, order)| ==>
              Less(LeftoverClasses(ws, order)[i], LeftoverClasses(ws, order)[j])
  {
    var rest := Without(FirstClasses(ws), order);
    var r := LeftoverClasses(ws, order);
    forall c
      ensures c in r <==> c in rest
    {
      assert c in r <==> c in multiset(r);
      assert c in rest <==> c in multiset(rest);
    }
    FirstClassesDistinct(ws);
    WithoutDistinct(FirstClasses(ws), order);
    MultisetDistinct(rest, r);
    forall i, j | 0 <= i < j < |r|
      ensures Less(r[i], r[j])
    {
      SortedDistinctLess(r, i, j);
    }
  }

  /** Class `a` is printed before class `b`: by position in `order`, the classes outside
      it last and alphabetically. */
  predicate Before(order: seq<string>, a: string, b: string)
  {
    IndexIn(order, a) < IndexIn(order, b)
    || (IndexIn(order, a) == IndexIn(order, b) == |order| && Less(a, b))
  }

  /** Each group holds print_group's output for its class: the header's translation and
      the class's words, none left out and none added. */
  lemma ListingContents(ws: seq<WordInfo>, p: ValueProvider, order: seq<string>, i: nat)
    requires i < |ListingBy(ws, p, order)|
    ensures var g := ListingBy(ws, p, order)[i];
            |g.words| > 0 && g.header == p.Lookup(g.cls) && |Members(ws, g.cls)| > 0
            && g.words == PrintOrder(Members(ws, g.cls))
            && multiset(g.words) == multiset(Members(ws, g.cls))
            && forall w :: w in g.words <==> w in ws && HasFirstClass(w, g.cls)
  {
    var known := GroupsFor(ws, p, order);
    var g := ListingBy(ws, p, order)[i];
    if i < |known| {
      GroupsForShape(ws, p, order, i);
    } else {
      assert g == GroupsFor(ws, p, LeftoverClasses(ws, order))[i - |known|];
      GroupsForShape(ws, p, LeftoverClasses(ws, order), i - |known|);
    }
    PrintOrderMeaning(Members(ws, g.cls));
    forall w
      ensures w in g.words <==> w in ws && HasFirstClass(w, g.cls)
    {
      assert w in g.words <==> w in multiset(g.words);
      assert w in Members(ws, g.cls) <==> w in multiset(Members(ws, g.cls));
      MembersOf(ws, g.cls, w);
    }
  }

  /** A class gets a group exactly when some word has it as its first class. */
  lemma ListingCovers(ws: seq<WordInfo>, p: ValueProvider, order: seq<string>, c: string)
    ensures (exists i :: 0 <= i < |ListingBy(ws, p, order)| && ListingBy(ws, p, order)[i].cls == c)
            <==> exists w :: w in ws && HasFirstClass(w, c)
  {
    var l := ListingBy(ws, p, order);
    if exists i :: 0 <= i < |l| && l[i].cls == c {
      var i :| 0 <= i < |l| && l[i].cls == c;
      ListingContents(ws, p, order, i);
      assert l[i].words[0] in l[i].words;
    }
    if exists w :: w in ws && HasFirstClass(w, c) {
      var w :| w in ws && HasFirstClass(w, c);
      MembersOf(ws, c, w);
      ClassDictContents(ws, c);
      ListingCoversClass(ws, p, order, c);
    }
  }

  lemma ListingCoversClass(ws: seq<WordInfo>, p: ValueProvider, order: seq<string>, c: string)
    requires |Members(ws, c)| > 0 && c in FirstClasses(ws)
    ensures exists i :: 0 <= i < |ListingBy(ws, p, order)| && ListingBy(ws, p, order)[i].cls == c
  {
    var known := GroupsFor(ws, p, order);
    var rest := GroupsFor(ws, p, LeftoverClasses(ws, order));
    if c in order {
      GroupsForCovers(ws, p, order, c);
    } else {
      LeftoverHas(ws, order, c);
      GroupsForCovers(ws, p, LeftoverClasses(ws, order), c);
    }
    ConcatHasClass(known, rest, c);
    assert ListingBy(ws, p, order) == known + rest;
  }

  lemma LeftoverHas(ws: seq<WordInfo>, order: seq<string>, c: string)
    requires c in FirstClasses(ws) && c !in order
    ensures c in LeftoverClasses(ws, order)
  {
    LeftoverClassesShape(ws, order);
  }

  lemma ConcatHasClass(a: seq<Group>, b: seq<Group>, c: string)
    requires (exists i :: 0 <= i < |a| && a[i].cls == c) || (exists i :: 0 <= i < |b| && b[i].cls == c)
    ensures exists i :: 0 <= i < |a + b| && (a + b)[i].cls == c
  {
    if exists i :: 0 <= i < |a| && a[i].cls == c {
      var i :| 0 <= i < |a| && a[i].cls == c;
      assert (a + b)[i] == a[i];
    } else {
      var i :| 0 <= i < |b| && b[i].cls == c;
      assert (a + b)[|a| + i] == b[i];
    }
  }

  /** The classes of `order` come first, in that order, then the others alphabetically;
      so no class has two groups. */
  lemma ListingOrder(ws: seq<WordInfo>, p: ValueProvider, order: seq<string>)
    requires Distinct(order)
    ensures forall i, j :: 0 <= i < j < |ListingBy(ws, p, order)| ==>
              Before(order, ListingBy(ws, p, order)[i].cls, ListingBy(ws, p, order)[j].cls)
    ensures forall i, j :: 0 <= i < j < |ListingBy(ws, p, order)| ==>
              ListingBy(ws, p, order)[i].cls != ListingBy(ws, p, order)[j].cls
  {
    var known := GroupsFor(ws, p, order);
    var cs := LeftoverClasses(ws, order);
    var rest := GroupsFor(ws, p, cs);
    var l := ListingBy(ws, p, order);
    GroupsForRanks(ws, p, order);
    LeftoverClassesShape(ws, order);
    forall c | c in cs
      ensures |Members(ws, c)| > 0
    {
      ClassDictContents(ws, c);
    }
    GroupsForExact(ws, p, cs);
    forall i | 0 <= i < |known|
      ensures l[i] == known[i] && IndexIn(order, l[i].cls) < |order|
    {
      GroupsForShape(ws, p, order, i);
    }
    forall i | |known| <= i < |l|
      ensures l[i].cls == cs[i - |known|] && IndexIn(order, l[i].cls) == |order|
    {
      assert l[i] == rest[i - |known|];
      assert cs[i - |known|] in cs;
    }
    forall i, j | 0 <= i < j < |l|
      ensures Before(order, l[i].cls, l[j].cls) && l[i].cls != l[j].cls
    {
      if i >= |known| {
        LessIrreflexive(l[i].cls);
      }
    }
  }

  /** A word is in group `i` exactly when the group is that of its first class; so each
      word of the dictionary is printed once. */
  lemma ListingPartition(ws: seq<WordInfo>, p: ValueProvider, order: seq<string>, w: WordInfo)
    requires w in ws && |w.classes| > 0
    ensures exists i :: 0 <= i < |ListingBy(ws, p, order)| && ListingBy(ws, p, order)[i].cls == w.classes[0]
    ensures forall i :: 0 <= i < |ListingBy(ws, p, order)| ==>
              (w in ListingBy(ws, p, order)[i].words <==> ListingBy(ws, p, order)[i].cls == w.classes[0])
  {
    ListingCovers(ws, p, order, w.classes[0]);
    forall i | 0 <= i < |ListingBy(ws, p, order)|
      ensures w in ListingBy(ws, p, order)[i].words <==> ListingBy(ws, p, order)[i].cls == w.classes[0]
    {
      ListingContents(ws, p, order, i);
    }
  }

  /** create_wordlist's groups: GROUP_ORDER's classes first, in that order, then the
      others alphabetically, each class once and each word in the group of its first
      class. */
  lemma WordlistGroups(ws: seq<WordInfo>, p: ValueProvider)
    ensures forall i, j :: 0 <= i < j < |Listing(ws, p)| ==>
              Before(GroupOrder, Listing(ws, p)[i].cls, Listing(ws, p)[j].cls)
    ensures forall w, i :: w in ws && |w.classes| > 0 && 0 <= i < |Listing(ws, p)| ==>
              (w in Listing(ws, p)[i].words <==> Listing(ws, p)[i].cls == w.classes[0])
  {
    GroupOrderDistinct();
    ListingOrder(ws, p, GroupOrder);
    forall w | w in ws && |w.classes| > 0 {
      ListingPartition(ws, p, GroupOrder, w);
    }
  }

  /** create_wordlist prints the groups when every entry converts, their words in
      dictionary order; otherwise it stops with the error of the first entry that fails. */
  lemma ListingOutcome(vals: seq<Result<WordInfo>>, p: ValueProvider)
    ensures ListingOf(vals, p).Ok? <==> forall i :: 0 <= i < |vals| ==> vals[i].Ok?
    ensures ListingOf(vals, p).Ok? ==>
              exists ws :: |ws| == |vals| && (forall i :: 0 <= i < |vals| ==> Ok(ws[i]) == vals[i])
                           && ListingOf(vals, p) == Ok(Listing(ws, p))
    ensures ListingOf(vals, p).Err? ==>
              exists k :: 0 <= k < |vals| && vals[k] == Err(ListingOf(vals, p).error)
                          && forall i :: 0 <= i < k ==> vals[i].Ok?
  {
    ConvertsContents(vals, |vals|);
    if Converts(vals, |vals|).Ok? {
      var ws := Converts(vals, |vals|).value;
      assert forall i :: 0 <= i < |vals| ==> Ok(ws[i]) == vals[i];
    } else {
      var k :| 0 <= k < |vals| && vals[k].Err? && Converts(vals, |vals|).error == vals[k].error
               && forall i :: 0 <= i < k ==> vals[i].Ok?;
      assert vals[k] == Err(ListingOf(vals, p).error);
    }
  }

  /** An entry converts exactly when from_entry succeeds and it has a word class. */
  lemma ConvertedOk(entry: Dict, lang: string)
    ensures Converted(entry, lang).Ok? <==>
              FromEntry(entry, lang).Ok? && |FromEntry(entry, lang).value.classes| > 0
    ensures FromEntry(entry, lang).Err? ==> Converted(entry, lang) == FromEntry(entry, lang)
  {
  }
}
