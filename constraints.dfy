// The selection constraints of scripts/buildutil.py (class Constraints): parsed from the
// semicolon-separated "Constraint" value of an entry, then used to filter candidates.
module CandidateConstraints {
  import opened Wrappers
  import opened Text
  import Util
  import opened Candidates

  /** The settings a constraint string makes. A Constraints object is never changed after
      its constructor, so it is a value here. */
  datatype Constraints = Constraints(
    maxSyllables: Option<real>,
    allowedLangs: Option<set<string>>,
    allowedLangsRationale: Option<string>,
    skip: map<string, Option<string>>,
    added: Option<string>,
    addingRationale: Option<string>,
    allowShort: bool,
    compound: Option<string>,
    compoundRationale: Option<string>,
    chosen: Option<string>,
    chosenRationale: Option<string>,
    targetClass: Option<string>,
    mergeWith: Option<string>,
    premerge: bool)
  {
    /** fails: the reason the candidate is rejected, or "" when it passes. A violated
        allow-list or skip entry without a rationale also yields "". */
    function Fails(cand: Candidate): (r: string)
      reads cand
      ensures TooLong(cand) ==> r == "too long"
      ensures !TooLong(cand) && LangExcluded(cand) ==> r == allowedLangsRationale.GetOr("")
      ensures !TooLong(cand) && !LangExcluded(cand) && cand.ExportedWord() in skip
              ==> r == skip[cand.ExportedWord()].GetOr("")
      ensures !TooLong(cand) && !LangExcluded(cand) && cand.ExportedWord() !in skip
              && NotChosen(cand)
              ==> r == "not the chosen candidate"
      ensures !TooLong(cand) && !LangExcluded(cand) && cand.ExportedWord() !in skip
              && !NotChosen(cand)
              ==> r == ""
      ensures cand.lang == "" ==> !LangExcluded(cand)
    {
      if maxSyllables.Some? && cand.Syllables() > maxSyllables.value then "too long"
      else if allowedLangs.Some? && allowedLangs.value != {} && cand.lang != ""
              && cand.lang !in allowedLangs.value
      then allowedLangsRationale.GetOr("")
      else
        var candWord := cand.ExportedWord();
        if candWord in skip then skip[candWord].GetOr("")
        else if chosen.Some? && chosen.value != "" && candWord != chosen.value
        then "not the chosen candidate"
        else ""
    }

    /** The candidate has more syllables than allowed. */
    predicate TooLong(cand: Candidate)
      reads cand
    {
      maxSyllables.Some? && cand.Syllables() > maxSyllables.value
    }

    /** A non-empty allow-list is set and the candidate's (non-empty) language is not on it. */
    predicate LangExcluded(cand: Candidate)
      reads cand
    {
      allowedLangs.Some? && allowedLangs.value != {} && cand.lang != ""
      && cand.lang !in allowedLangs.value
    }

    /** Another candidate was chosen. */
    predicate NotChosen(cand: Candidate)
      reads cand
    {
      chosen.Some? && chosen.value != "" && cand.ExportedWord() != chosen.value
    }
  }

  /** The settings before any constraint is read. */
  const NoConstraints := Constraints(None, None, None, map[], None, None, false, None, None,
                                     None, None, None, None, false)

  /** `s.removeprefix(p)` */
  function RemovePrefix(s: string, p: string): (r: string)
    ensures p <= s ==> s == p + r
    ensures !(p <= s) ==> r == s
  {
    if p <= s then s[|p|..] else s
  }

  // ----- float(value) for plain decimal numbers -----

  predicate IsDigit(c: char) { '0' <= c <= '9' }

  predicate AllDigits(s: string) { forall i :: 0 <= i < |s| ==> IsDigit(s[i]) }

  /** The value of a string of decimal digits. */
  function DigitsValue(s: string): (n: nat)
    requires AllDigits(s)
  {
    if |s| == 0 then 0
    else 10 * DigitsValue(s[..|s| - 1]) + (s[|s| - 1] as int - '0' as int)
  }

  function Pow10(k: nat): (p: nat)
    ensures p >= 1
  {
    if k == 0 then 1 else 10 * Pow10(k - 1)
  }

  /** `float(value)` for an optional sign, digits, and an optional fraction after a '.'
      (at least one digit in all); any other text (exponents, "inf", "nan", '_') gives None. */
  function ParseDecimal(s: string): (r: Option<real>)
  {
    if |s| > 0 && s[0] == '-' then
      match ParseUnsigned(s[1..])
      case Some(v) => Some(-v)
      case None => None
    else if |s| > 0 && s[0] == '+' then ParseUnsigned(s[1..])
    else ParseUnsigned(s)
  }

  /** A character other than a digit or '.', past a leading sign, makes the text no
      number. */
  lemma ParseDecimalChars(s: string, i: nat)
    requires 0 < i < |s| && !IsDigit(s[i]) && s[i] != '.'
    ensures ParseDecimal(s).None?
  {
    if s[0] == '-' || s[0] == '+' {
      assert s[1..][i - 1] == s[i];
      ParseUnsignedChars(s[1..], i - 1);
    } else {
      ParseUnsignedChars(s, i);
    }
  }

  lemma ParseUnsignedChars(body: string, j: nat)
    requires j < |body| && !IsDigit(body[j]) && body[j] != '.'
    ensures ParseUnsigned(body).None?
  {
    var dot := Find(body, ".");
    if dot < 0 {
      assert !AllDigits(body);
    } else {
      assert body[dot..dot + 1] == ".";
      assert body[dot] == '.';
      if j < dot {
        assert body[..dot][j] == body[j];
        assert !AllDigits(body[..dot]);
      } else {
        assert body[dot + 1..][j - dot - 1] == body[j];
        assert !AllDigits(body[dot + 1..]);
      }
    }
  }

  /** Digits with an optional fraction after a '.'. */
  function ParseUnsigned(body: string): (r: Option<real>)
  {
    var dot := Find(body, ".");
    if dot < 0 then
      if |body| == 0 || !AllDigits(body) then None else Some(DigitsValue(body) as real)
    else
      var intPart := body[..dot];
      var fracPart := body[dot + 1..];
      if |intPart| + |fracPart| == 0 || !AllDigits(intPart) || !AllDigits(fracPart) then None
      else Some(DigitsValue(intPart) as real + DigitsValue(fracPart) as real / Pow10(|fracPart|) as real)
  }

  /** The decimal digits of `n` (Python's `str(n)`). */
  function NatToString(n: nat): (s: string)
    ensures |s| > 0 && AllDigits(s)
  {
    if n < 10 then [('0' as int + n) as char]
    else NatToString(n / 10) + [('0' as int + n % 10) as char]
  }

  /** Reading back the digits of a number gives the number. */
  lemma {:induction false} DigitsRoundTrip(n: nat)
    ensures DigitsValue(NatToString(n)) == n
  {
    var s := NatToString(n);
    if n >= 10 {
      DigitsRoundTrip(n / 10);
      assert s[..|s| - 1] == NatToString(n / 10);
    }
  }

  /** A whole syllable count written in digits is read back exactly. */
  lemma ParseWholeNumber(n: nat)
    ensures ParseDecimal(NatToString(n)) == Some(n as real)
  {
    var s := NatToString(n);
    assert IsDigit(s[0]);
    ParseDigits(s);
    DigitsRoundTrip(n);
  }

  /** A fractional syllable limit such as "Syllables:2.5" is read with its fraction. */
  lemma ParseFraction()
    ensures ParseDecimal("2.5") == Some(2.5)
  {
    var b := "2.5";
    assert !OccursAt(b, ".", 0) by { assert b[0..1] == "2"; }
    assert OccursAt(b, ".", 1) by { assert b[1..2] == "."; }
    assert b[..1] == "2" && b[2..] == "5";
    assert DigitsValue("2") == 2 by { assert "2"[..0] == ""; }
    assert DigitsValue("5") == 5 by { assert "5"[..0] == ""; }
  }

  /** As for `float`, a sign may lead and the integer part may be missing. */
  lemma ParseSignedFraction()
    ensures ParseDecimal("-.5") == Some(-0.5)
  {
    var b := ".5";
    assert "-.5"[1..] == b;
    assert OccursAt(b, ".", 0) by { assert b[0..1] == "."; }
    assert b[..0] == "" && b[1..] == "5";
    assert DigitsValue("5") == 5 by { assert "5"[..0] == ""; }
  }

  /** A string of digits reads as its value. */
  lemma ParseDigits(s: string)
    requires |s| > 0 && AllDigits(s)
    ensures ParseUnsigned(s) == Some(DigitsValue(s) as real)
  {
    NoDotInDigits(s);
  }

  lemma NoDotInDigits(s: string)
    requires AllDigits(s)
    ensures Find(s, ".") == -1
  {
    forall j ensures !OccursAt(s, ".", j) {
      if 0 <= j && j + 1 <= |s| {
        assert s[j..j + 1][0] == s[j];
        assert IsDigit(s[j]);
      }
    }
  }

  // ----- Reading the constraint string -----

  /** The kinds of constraint, in the order their prefixes are tried. */
  datatype Kind =
    | SyllablesLimit | AllowLangs | AllowShort | Choose | Skip
    | Add | Compound | SetClass | Merge | Premerge

  const Order: seq<Kind> :=
    [SyllablesLimit, AllowLangs, AllowShort, Choose, Skip, Add, Compound, SetClass, Merge, Premerge]

  /** The prefix that introduces a kind; "Allow short" is matched exactly instead. */
  function PrefixOf(kind: Kind): string
  {
    match kind
    case SyllablesLimit => "Syllables:"
    case AllowLangs => "Allow langs:"
    case AllowShort => "Allow short"
    case Choose => "Choose:"
    case Skip => "Skip:"
    case Add => "Add:"
    case Compound => "Compound:"
    case SetClass => "Set class:"
    case Merge => "Merge:"
    case Premerge => "Premerge:"
  }

  /** A constraint as recognised, with the (stripped) value after its prefix. */
  datatype Directive = Directive(kind: Kind, value: string) | Unknown(constraint: string)

  /** `value := constraint.removeprefix(prefix).strip()` followed by `value != constraint`. */
  predicate HasPrefixValue(constraint: string, prefix: string)
  {
    Strip(RemovePrefix(constraint, prefix)) != constraint
  }

  /** The first kind from `Order[i..]` whose test the constraint passes. */
  function ClassifyFrom(constraint: string, i: nat): (d: Directive)
    ensures d.Directive? && d.kind == AllowShort ==> constraint == "Allow short"
    decreases |Order| - i
  {
    if i >= |Order| then Unknown(constraint)
    else
      var kind := Order[i];
      if kind == AllowShort then
        if constraint == PrefixOf(AllowShort) then Directive(AllowShort, "")
        else ClassifyFrom(constraint, i + 1)
      else if HasPrefixValue(constraint, PrefixOf(kind))
      then Directive(kind, Strip(RemovePrefix(constraint, PrefixOf(kind))))
      else ClassifyFrom(constraint, i + 1)
  }

  function Classify(constraint: string): Directive
  {
    ClassifyFrom(constraint, 0)
  }

  /** The position of a kind in `Order`. */
  function IndexOf(kind: Kind): (i: nat)
    ensures i < |Order| && Order[i] == kind
  {
    match kind
    case SyllablesLimit => 0
    case AllowLangs => 1
    case AllowShort => 2
    case Choose => 3
    case Skip => 4
    case Add => 5
    case Compound => 6
    case SetClass => 7
    case Merge => 8
    case Premerge => 9
  }

  /** A prefix tried earlier than that of a kind other than AllowShort differs from it in
      its first two characters. */
  lemma EarlierPrefixDiffers(q: Kind, k: Kind)
    requires IndexOf(q) < IndexOf(k) && k != AllowShort
    ensures PrefixOf(q)[0] != PrefixOf(k)[0] || PrefixOf(q)[1] != PrefixOf(k)[1]
  {
  }

  lemma IndexOfOrder(i: nat)
    requires i < |Order|
    ensures IndexOf(Order[i]) == i
  {
  }

  /** For a constraint without surrounding whitespace, as split_on_sep yields them, the
      prefix test is a plain prefix test. */
  lemma StrippedPrefixTest(constraint: string, prefix: string)
    requires Strip(constraint) == constraint && |prefix| > 0
    ensures HasPrefixValue(constraint, prefix) <==> prefix <= constraint
  {
    if prefix <= constraint {
      var rest := RemovePrefix(constraint, prefix);
      assert |LStrip(rest)| <= |rest| < |constraint|;
      assert |Strip(rest)| <= |LStrip(rest)|;
    }
  }

  /** A constraint without surrounding whitespace that starts with a kind's prefix is read
      as that kind, with the stripped rest as its value. */
  lemma ClassifyPrefixed(kind: Kind, constraint: string)
    requires kind != AllowShort
    requires Strip(constraint) == constraint && PrefixOf(kind) <= constraint
    ensures Classify(constraint) == Directive(kind, Strip(RemovePrefix(constraint, PrefixOf(kind))))
  {
    ClassifySkips(kind, constraint, 0);
  }

  lemma {:induction false} ClassifySkips(kind: Kind, constraint: string, i: nat)
    requires kind != AllowShort && i <= IndexOf(kind)
    requires Strip(constraint) == constraint && PrefixOf(kind) <= constraint
    ensures ClassifyFrom(constraint, i) == Directive(kind, Strip(RemovePrefix(constraint, PrefixOf(kind))))
    decreases IndexOf(kind) - i
  {
    if Order[i] == kind {
      StrippedPrefixTest(constraint, PrefixOf(kind));
    } else {
      ClassifyPasses(kind, constraint, i);
      ClassifySkips(kind, constraint, i + 1);
    }
  }

  /** An earlier kind's test fails on a constraint that starts with a later kind's prefix. */
  lemma ClassifyPasses(kind: Kind, constraint: string, i: nat)
    requires kind != AllowShort && i < IndexOf(kind)
    requires Strip(constraint) == constraint && PrefixOf(kind) <= constraint
    ensures ClassifyFrom(constraint, i) == ClassifyFrom(constraint, i + 1)
  {
    EarlierPrefixAbsent(kind, constraint, i);
    ClassifyStepsOver(constraint, i);
  }

  /** The prefix of an earlier kind is not a prefix of the constraint. */
  lemma EarlierPrefixAbsent(kind: Kind, constraint: string, i: nat)
    requires kind != AllowShort && i < IndexOf(kind) && PrefixOf(kind) <= constraint
    ensures !(PrefixOf(Order[i]) <= constraint)
  {
    var q := Order[i];
    var p := PrefixOf(q);
    var pk := PrefixOf(kind);
    assert |p| >= 2 && |pk| >= 2;
    IndexOfOrder(i);
    EarlierPrefixDiffers(q, kind);
    assert constraint[0] == pk[0] && constraint[1] == pk[1];
  }

  /** A kind whose prefix the stripped constraint does not start with is passed over. */
  lemma ClassifyStepsOver(constraint: string, i: nat)
    requires i < |Order| && Strip(constraint) == constraint
    requires !(PrefixOf(Order[i]) <= constraint)
    ensures ClassifyFrom(constraint, i) == ClassifyFrom(constraint, i + 1)
  {
    var p := PrefixOf(Order[i]);
    assert |p| > 0;
    assert !HasPrefixValue(constraint, p) by {
      StrippedPrefixTest(constraint, p);
    }
  }

  /** The constraint is accepted: recognised, and a syllable limit is a number. */
  predicate Accepted(d: Directive)
  {
    d.Directive? && (d.kind == SyllablesLimit ==> ParseDecimal(d.value).Some?)
  }

  /** The settings after one more constraint, recognised as `d`, or the ValueError it raises. */
  function ApplyDirective(c: Constraints, d: Directive): (r: Result<Constraints>)
    ensures r.Ok? <==> Accepted(d)
    ensures r.Ok? && c.allowShort ==> r.value.allowShort
    ensures r.Ok? && d == Directive(AllowShort, "") ==> r.value.allowShort
    ensures r.Ok? && c.premerge ==> r.value.premerge
    ensures r.Ok? && d.Directive? && d.kind == Premerge ==> r.value.premerge
    ensures r.Ok? && d.Directive? && d.kind == Skip ==> Util.SplitTextAndExplanation(d.value).0 in r.value.skip
  {
    if d.Unknown? then Err("ValueError: Unknown constraint: " + d.constraint)
    else
      var value := d.value;
      match d.kind
      case SyllablesLimit =>
        (match ParseDecimal(value)
         case Some(x) => Ok(c.(maxSyllables := Some(x)))
         case None => Err("ValueError: could not convert string to float: " + value))
      case AllowLangs =>
        var split := Util.SplitTextAndExplanation(value);
        Ok(c.(allowedLangs := Some(set w | w in SplitWs(split.0)), allowedLangsRationale := split.1))
      case AllowShort => Ok(c.(allowShort := true))
      case Choose =>
        var split := Util.SplitTextAndExplanation(value);
        Ok(c.(chosen := Some(split.0), chosenRationale := split.1))
      case Skip =>
        var split := Util.SplitTextAndExplanation(value);
        Ok(c.(skip := c.skip[split.0 := split.1]))
      case Add =>
        var split := Util.SplitTextAndExplanation(value);
        Ok(c.(added := Some(split.0), addingRationale := split.1))
      case Compound =>
        var split := Util.SplitTextAndExplanation(value);
        Ok(c.(compound := Some(split.0), compoundRationale := split.1))
      case SetClass => Ok(c.(targetClass := Some(value)))
      case Merge => Ok(c.(mergeWith := Some(value)))
      case Premerge => Ok(c.(mergeWith := Some(value), premerge := true))
  }

  /** The constraints, each as recognised. */
  function ClassifyAll(parts: seq<string>): (ds: seq<Directive>)
  {
    seq(|parts|, k requires 0 <= k < |parts| => Classify(parts[k]))
  }

  /** The settings after the constraints `ds`, stopping at the first error. */
  function ApplyAll(c: Constraints, ds: seq<Directive>): Result<Constraints>
    decreases |ds|
  {
    if |ds| == 0 then Ok(c)
    else
      match ApplyDirective(c, ds[0])
      case Ok(next) => ApplyAll(next, ds[1..])
      case Err(e) => Err(e)
  }

  /** What the constructor makes of a constraint string. */
  function Parsed(constraintStr: string): Result<Constraints>
  {
    ApplyAll(NoConstraints, ClassifyAll(Util.SplitOnSemicolons(Some(constraintStr))))
  }

  /** The constructor's loop over the semicolon-separated constraints. */
  method ParseConstraints(constraintStr: string) returns (r: Result<Constraints>)
    ensures r == Parsed(constraintStr)
  {
    var constraints := Util.SplitOnSep(Some(constraintStr), "; ");
    ghost var ds := ClassifyAll(constraints);
    var c := NoConstraints;
    for k := 0 to |constraints|
      invariant ApplyAll(c, ds[k..]) == Parsed(constraintStr)
    {
      assert ds[k..][1..] == ds[k + 1..];
      var next := ApplyDirective(c, Classify(constraints[k]));
      if next.Err? {
        return Err(next.error);
      }
      c := next.value;
    }
    return Ok(c);
  }

  /** The constraints are read without error exactly when each one is recognised and every
      syllable limit is a number. */
  lemma {:induction false} ApplyAllOk(c: Constraints, ds: seq<Directive>)
    ensures ApplyAll(c, ds).Ok? <==> forall k :: 0 <= k < |ds| ==> Accepted(ds[k])
    decreases |ds|
  {
    if |ds| > 0 {
      var first := ApplyDirective(c, ds[0]);
      if first.Ok? {
        ApplyAllOk(first.value, ds[1..]);
        assert forall k :: 1 <= k < |ds| ==> ds[k] == ds[1..][k - 1];
      }
    }
  }

  /** An unknown constraint, or a syllable limit that is not a number, anywhere makes the
      constructor raise. */
  lemma UnknownConstraintRaises(constraintStr: string, k: nat)
    requires k < |Util.SplitOnSemicolons(Some(constraintStr))|
    requires !Accepted(Classify(Util.SplitOnSemicolons(Some(constraintStr))[k]))
    ensures Parsed(constraintStr).Err?
  {
    var ds := ClassifyAll(Util.SplitOnSemicolons(Some(constraintStr)));
    assert !Accepted(ds[k]);
    ApplyAllOk(NoConstraints, ds);
  }

  /** "Allow short" anywhere in a string that is read without error sets allowShort. */
  lemma {:induction false} AllowShortSticks(c: Constraints, ds: seq<Directive>, k: nat)
    requires k < |ds| && ds[k] == Directive(AllowShort, "")
    requires ApplyAll(c, ds).Ok?
    ensures ApplyAll(c, ds).value.allowShort
    decreases |ds|
  {
    ApplyAllCons(c, ds);
    var next := ApplyDirective(c, ds[0]).value;
    if k == 0 {
      KeepsAllowShort(next, ds[1..]);
    } else {
      assert ds[1..][k - 1] == ds[k];
      AllowShortSticks(next, ds[1..], k - 1);
    }
  }

  /** A successful run applied its first directive successfully and went on from there. */
  lemma ApplyAllCons(c: Constraints, ds: seq<Directive>)
    requires |ds| > 0 && ApplyAll(c, ds).Ok?
    ensures ApplyDirective(c, ds[0]).Ok?
    ensures ApplyAll(c, ds) == ApplyAll(ApplyDirective(c, ds[0]).value, ds[1..])
  {
  }

  /** Once set, allowShort stays set. */
  lemma {:induction false} KeepsAllowShort(c: Constraints, ds: seq<Directive>)
    requires c.allowShort && ApplyAll(c, ds).Ok?
    ensures ApplyAll(c, ds).value.allowShort
    decreases |ds|
  {
    if |ds| > 0 {
      KeepsAllowShort(ApplyDirective(c, ds[0]).value, ds[1..]);
    }
  }
}
