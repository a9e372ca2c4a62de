// Merging an entry with the one named by --merge (VocBuilder.do_merge_entries in
// scripts/buildvoc.py): values of shared keys are joined key by key, the senses are
// disambiguated when the English words no longer match them, and the keys only the
// second entry has are copied.
module Merging {
  import opened Wrappers
  import opened Text
  import Util
  import opened LineDicts
  import CandidateConstraints

  // ----- int() and str() for the "transcount" field -----

  /** `int(s)`: optional surrounding whitespace, an optional sign and decimal digits;
      anything else is a ValueError (None). */
  function ParseInt(s: string): (r: Option<int>)
  {
    var t := Strip(s);
    var signed := |t| > 0 && (t[0] == '-' || t[0] == '+');
    var body := if signed then t[1..] else t;
    if |body| == 0 || !CandidateConstraints.AllDigits(body) then None
    else
      var n: int := CandidateConstraints.DigitsValue(body);
      Some(if t[0] == '-' then -n else n)
  }

  /** `str(n)` */
  function IntToString(n: int): (s: string)
    ensures |s| > 0
  {
    if n < 0 then "-" + CandidateConstraints.NatToString(-n)
    else CandidateConstraints.NatToString(n)
  }

  /** A number written by `str` is read back by `int`. */
  lemma IntRoundTrip(n: int)
    ensures ParseInt(IntToString(n)) == Some(n)
  {
    if n < 0 {
      NegativeRoundTrip(n);
    } else {
      NonNegativeRoundTrip(n);
    }
  }

  lemma NonNegativeRoundTrip(n: int)
    requires n >= 0
    ensures ParseInt(IntToString(n)) == Some(n)
  {
    var digits := CandidateConstraints.NatToString(n);
    assert CandidateConstraints.IsDigit(digits[0]) && CandidateConstraints.IsDigit(digits[|digits| - 1]);
    StripUnpadded(digits);
    CandidateConstraints.DigitsRoundTrip(n);
  }

  lemma NegativeRoundTrip(n: int)
    requires n < 0
    ensures ParseInt(IntToString(n)) == Some(n)
  {
    var digits := CandidateConstraints.NatToString(-n);
    var s := "-" + digits;
    assert CandidateConstraints.IsDigit(s[|s| - 1]);
    StripUnpadded(s);
    assert s[1..] == digits;
    CandidateConstraints.DigitsRoundTrip(-n);
  }

  /** A string that neither starts nor ends with whitespace is its own strip. */
  lemma StripUnpadded(s: string)
    requires |s| > 0 && !IsSpace(s[0]) && !IsSpace(s[|s| - 1])
    ensures Strip(s) == s
  {
    assert LStrip(s) == s;
  }

  // ----- Joining the values of one key -----

  /** The items among the first `n` of `ws` that are not in `existing`, in their order
      (repetitions within `ws` are kept). */
  function Unlisted(ws: seq<string>, existing: seq<string>, n: nat): (r: seq<string>)
    requires n <= |ws|
    ensures |r| <= n
  {
    if n == 0 then []
    else Unlisted(ws, existing, n - 1) + (if ws[n - 1] in existing then [] else [ws[n - 1]])
  }

  /** The unlisted items are exactly the items not in `existing`. */
  lemma {:induction false} UnlistedMembers(ws: seq<string>, existing: seq<string>, n: nat, w: string)
    requires n <= |ws|
    ensures w in Unlisted(ws, existing, n) <==> w in ws[..n] && w !in existing
  {
    if n > 0 {
      UnlistedMembers(ws, existing, n - 1, w);
      assert ws[..n] == ws[..n - 1] + [ws[n - 1]];
    }
  }

  lemma UnlistedStep(ws: seq<string>, existing: seq<string>, i: nat)
    requires i < |ws|
    ensures Unlisted(ws, existing, i + 1)
            == Unlisted(ws, existing, i) + (if ws[i] in existing then [] else [ws[i]])
  {
  }

  /** The semicolon-separated words of `value`, followed by those of `value2` that it
      does not list yet. */
  function JointWords(value: string, value2: string): string
  {
    var ws2 := Util.SplitOnSemicolons(Some(value2));
    Join([value] + Unlisted(ws2, Util.SplitOnSemicolons(Some(value)), |ws2|), "; ")
  }

  /** Two word classes: only the first is kept, except that an affix class (one ending
      in "fix") is added after a comma unless an already comma-separated list names it. */
  function JointClass(value: string, value2: string): string
  {
    if value == value2 then value
    else if EndsWith(value, "fix") || EndsWith(value2, "fix") then
      if ',' in value && value2 in Util.SplitOnCommas(Some(value)) then value
      else value + ", " + value2
    else value
  }

  /** The larger of two translation counts; a count that `int` cannot read is a
      ValueError. */
  function JointCount(value: string, value2: string): Result<string>
  {
    match (ParseInt(value), ParseInt(value2))
    case (Some(a), Some(b)) => Ok(IntToString(if a >= b then a else b))
    case _ => Err("ValueError: invalid literal for int()")
  }

  /** The value the merged entry gets for a key of the first entry; `value2` is the
      second entry's value ("" when it has none). */
  function JointValue(key: string, value: string, value2: string): Result<string>
  {
    if value2 == "" then Ok(value)
    else if key == "class" then Ok(JointClass(value, value2))
    else if key == "sense" then Ok(value + " | " + value2)
    else if key == "transcount" then JointCount(value, value2)
    else Ok(JointWords(value, value2))
  }

  /** The value of one key as the merge loop computes it. */
  method MergeValue(key: string, value: string, value2: string) returns (r: Result<string>)
    ensures r == JointValue(key, value, value2)
  {
    if value2 == "" {
      r := Ok(value);
    } else if key == "class" {
      r := Ok(JointClass(value, value2));
    } else if key == "sense" {
      r := Ok(value + " | " + value2);
    } else if key == "transcount" {
      r := JointCount(value, value2);
    } else {
      var joint := JoinWordLists(value, value2);
      r := Ok(joint);
    }
  }

  /** The translations of the first entry followed by the new ones of the second. */
  method JoinWordLists(value: string, value2: string) returns (joint: string)
    ensures joint == JointWords(value, value2)
  {
    var words := Util.SplitOnSemicolons(Some(value));
    var words2 := Util.SplitOnSemicolons(Some(value2));
    var jointWordList := AppendUnlisted(value, words, words2);
    joint := Join(jointWordList, "; ");
  }

  /** The loop over the second entry's words: those not among `words` are appended. */
  method AppendUnlisted(value: string, words: seq<string>, words2: seq<string>)
    returns (jointWordList: seq<string>)
    ensures jointWordList == [value] + Unlisted(words2, words, |words2|)
  {
    jointWordList := [value];
    for i := 0 to |words2|
      invariant jointWordList == [value] + Unlisted(words2, words, i)
    {
      UnlistedStep(words2, words, i);
      if words2[i] !in words {
        jointWordList := jointWordList + [words2[i]];
      }
    }
  }

  // ----- Properties of the joint value -----

  /** A key the second entry leaves empty keeps the first entry's value. */
  lemma JointWithEmpty(key: string, value: string)
    ensures JointValue(key, value, "") == Ok(value)
  {
  }

  /** Merging a value with itself changes nothing, except for "sense" (the senses are
      listed twice) and "transcount" (the count is rewritten by `str`). */
  lemma JointWithItself(key: string, value: string)
    requires key != "sense" && key != "transcount"
    ensures JointValue(key, value, value) == Ok(value)
  {
    if value != "" && key != "class" {
      var ws := Util.SplitOnSemicolons(Some(value));
      var rest := Unlisted(ws, ws, |ws|);
      if rest != [] {
        UnlistedMembers(ws, ws, |ws|, rest[0]);
        assert false;
      }
      assert [value] + rest == [value];
    }
  }

  /** The joint translations start with the first entry's; a word of the second entry
      is appended exactly when the first does not list it. */
  lemma JointWordsContents(value: string, value2: string, w: string)
    ensures value <= JointWords(value, value2)
    ensures var ws2 := Util.SplitOnSemicolons(Some(value2));
      w in Unlisted(ws2, Util.SplitOnSemicolons(Some(value)), |ws2|)
      <==> w in ws2 && w !in Util.SplitOnSemicolons(Some(value))
  {
    var ws2 := Util.SplitOnSemicolons(Some(value2));
    assert ws2[..|ws2|] == ws2;
    UnlistedMembers(ws2, Util.SplitOnSemicolons(Some(value)), |ws2|, w);
    var rest := Unlisted(ws2, Util.SplitOnSemicolons(Some(value)), |ws2|);
    if |rest| > 0 {
      assert [value] + rest == [value] + rest[..];
      assert Join([value] + rest, "; ") == value + "; " + Join(([value] + rest)[1..], "; ");
    }
  }

  /** The transcount of the merged entry is the larger count, and reads back as it. */
  lemma TranscountKeepsLarger(a: int, b: int)
    ensures JointValue("transcount", IntToString(a), IntToString(b))
            == Ok(IntToString(if a >= b then a else b))
    ensures ParseInt(JointValue("transcount", IntToString(a), IntToString(b)).value)
            == Some(if a >= b then a else b)
  {
    var m := if a >= b then a else b;
    CountsOfNumbers(a, b);
    assert JointValue("transcount", IntToString(a), IntToString(b))
           == JointCount(IntToString(a), IntToString(b));
    IntRoundTrip(m);
  }

  lemma CountsOfNumbers(a: int, b: int)
    ensures JointCount(IntToString(a), IntToString(b)) == Ok(IntToString(if a >= b then a else b))
  {
    IntRoundTrip(a);
    IntRoundTrip(b);
  }

  /** A transcount that `int` cannot read makes the merge a ValueError once the second
      entry has one. */
  lemma TranscountUnreadable(value: string, value2: string)
    requires value2 != ""
    requires ParseInt(value).None? || ParseInt(value2).None?
    ensures JointValue("transcount", value, value2).Err?
  {
  }

  /** The joint class is the first class, or the first and the second after a comma; the
      second is added only when one of them is an affix and no comma-separated list of
      the first names it. */
  lemma JointClassShape(value: string, value2: string)
    requires value2 != ""
    ensures var r := JointValue("class", value, value2).value;
      (r == value || r == value + ", " + value2)
      && (r == value + ", " + value2 <==>
            value != value2 && (EndsWith(value, "fix") || EndsWith(value2, "fix"))
            && !(',' in value && value2 in Util.SplitOnCommas(Some(value))))
  {
    assert |value + ", " + value2| > |value|;
  }

  // ----- The merge, step by step -----

  /** The joint value of every key of `e`, in order. */
  function JointValues(e: Dict, o: Dict): (r: seq<Result<string>>)
    requires WellFormed(e)
    ensures |r| == |e.keys|
  {
    seq(|e.keys|, i requires 0 <= i < |e.keys| => JointValue(e.keys[i], e.store[e.keys[i]], Lookup(o, e.keys[i], "")))
  }

  /** The entry after the first loop has handled the first `n` keys: each is added with
      its joint value and line number -1; the first ValueError ends the merge. */
  function Combine(keys: seq<string>, vals: seq<Result<string>>, n: nat): (r: Result<Dict>)
    requires n <= |keys| && n <= |vals|
  {
    if n == 0 then Ok(Empty)
    else
      match Combine(keys, vals, n - 1)
      case Err(msg) => Err(msg)
      case Ok(d) =>
        match vals[n - 1]
        case Err(msg) => Err(msg)
        case Ok(v) => Ok(AddTo(d, keys[n - 1], v, -1))
  }

  /** Whether the i-th sense lacks an explanation in parentheses and must be tagged with
      an original English word; a tag past the end of the words re-uses the last one
      (an IndexError, None, when there are none). */
  function TagSense(subsense: string, idx: nat, orig: seq<string>): (r: Option<string>)
  {
    if Util.SplitTextAndExplanation(subsense).1.Some? then Some(subsense)
    else if idx >= |orig| then
      if |orig| == 0 then None
      else Some(subsense + " (" + Util.EliminateParens(orig[|orig| - 1]) + ")")
    else Some(subsense + " (" + Util.EliminateParens(orig[idx]) + ")")
  }

  /** The tag of every sense, in order. */
  function Tags(senses: seq<string>, orig: seq<string>): (r: seq<Option<string>>)
    ensures |r| == |senses|
  {
    seq(|senses|, i requires 0 <= i < |senses| => TagSense(senses[i], i, orig))
  }

  /** The first `n` tags as a list, or None when one of them failed (the loop stops at
      the first IndexError). */
  function Collect(tags: seq<Option<string>>, n: nat): (r: Option<seq<string>>)
    requires n <= |tags|
    ensures r.Some? ==> |r.value| == n
  {
    if n == 0 then Some([])
    else
      var prev := Collect(tags, n - 1);
      if prev.None? || tags[n - 1].None? then None else Some(prev.value + [tags[n - 1].value])
  }

  /** The sense the second entry contributes, with its English words in parentheses. */
  function NewSubsense(o: Dict): string
  {
    Lookup(o, "sense", "") + " (" + Util.DiscardTextInBrackets(Lookup(o, "en", "")) + ")"
  }

  /** The English words of the first entry, without bracketed text. */
  function OriginalWords(e: Dict): seq<string>
  {
    Util.SplitOnSemicolons(Some(Util.DiscardTextInBrackets(Lookup(e, "en", ""))))
  }

  /** Disambiguation is needed when there are several English words but not as many
      senses. */
  predicate NeedsDisambiguation(c: Dict)
    requires "sense" in c.store && "en" in c.store
  {
    var enWords := Util.SplitOnSemicolons(Some(c.store["en"]));
    |enWords| > 1 && |Split(c.store["sense"], " | ")| != |enWords|
  }

  /** The sense disambiguation step: the merged entry must have "sense" and "en" (a
      KeyError otherwise); when disambiguation is needed, every sense but the last is
      tagged and the second entry's sense replaces the last. */
  function Disambiguate(c: Dict, e: Dict, o: Dict): (r: Result<Dict>)
  {
    if "sense" !in c.store then Err("KeyError: 'sense'")
    else if "en" !in c.store then Err("KeyError: 'en'")
    else if NeedsDisambiguation(c) then
      match RetaggedSense(Tags(Split(c.store["sense"], " | "), OriginalWords(e)), o)
      case None => Err("IndexError: list index out of range")
      case Some(sense) => Ok(AddTo(c, "sense", sense, -1))
    else Ok(c)
  }

  /** The new "sense" value: every sense but the last is tagged, and the second entry's
      sense replaces the last; None when a tag fails (an IndexError). */
  function RetaggedSense(tags: seq<Option<string>>, o: Dict): (r: Option<string>)
    requires |tags| > 0
  {
    match Collect(tags, |tags| - 1)
    case None => None
    case Some(tagged) => Some(Join(tagged + [NewSubsense(o)], " | "))
  }

  /** The entry after the last loop has looked at the first `n` keys of `o`: a key the
      entry lacks is added with the second entry's value. */
  function CopyUpTo(d: Dict, o: Dict, n: nat): (r: Dict)
    requires WellFormed(o) && n <= |o.keys|
  {
    if n == 0 then d
    else
      var prev := CopyUpTo(d, o, n - 1);
      var key := o.keys[n - 1];
      if key in prev.store then prev else AddTo(prev, key, o.store[key], -1)
  }

  /** do_merge_entries: what it returns. */
  function Merged(e: Dict, o: Dict): Result<Dict>
    requires WellFormed(e) && WellFormed(o)
  {
    match Combine(e.keys, JointValues(e, o), |e.keys|)
    case Err(msg) => Err(msg)
    case Ok(c) =>
      match Disambiguate(c, e, o)
      case Err(msg) => Err(msg)
      case Ok(d) => Ok(CopyUpTo(d, o, |o.keys|))
  }

  /** The loop over all senses but the last: the tags are collected in order and the
      first one that fails ends the loop (the IndexError). */
  method TagSenses(tags: seq<Option<string>>, count: nat) returns (r: Option<seq<string>>)
    requires count <= |tags|
    ensures r == Collect(tags, count)
  {
    var newSubsenses := [];
    for idx := 0 to count
      invariant Collect(tags, idx) == Some(newSubsenses)
    {
      CollectStep(tags, idx);
      if tags[idx].None? {
        CollectStaysNone(tags, idx, count);
        return None;
      }
      newSubsenses := newSubsenses + [tags[idx].value];
    }
    r := Some(newSubsenses);
  }

  /** do_merge_entries. The entries are left unchanged; a Python exception is an Err. */
  method DoMergeEntries(entry: LineDict, other: LineDict) returns (r: Result<LineDict>)
    requires entry.Valid() && other.Valid()
    ensures r.Ok? <==> Merged(entry.Model(), other.Model()).Ok?
    ensures r.Err? ==> r.error == Merged(entry.Model(), other.Model()).error
    ensures r.Ok? ==> fresh(r.value) && r.value.Valid()
                      && r.value.Model() == Merged(entry.Model(), other.Model()).value
  {
    var e := entry.Model();
    var o := other.Model();
    var combined := new LineDict();
    var error := AddJointValues(combined, e, o);
    if error.Some? {
      return Err(error.value);
    }
    error := DisambiguateSenses(combined, e, o);
    if error.Some? {
      return Err(error.value);
    }
    CopyMissing(combined, o);
    r := Ok(combined);
  }

  /** The first loop: every key of the first entry is added with its joint value. */
  method AddJointValues(combined: LineDict, e: Dict, o: Dict) returns (error: Option<string>)
    requires WellFormed(e) && combined.Valid() && combined.Model() == Empty
    modifies combined
    ensures combined.Valid()
    ensures error.None? <==> Combine(e.keys, JointValues(e, o), |e.keys|).Ok?
    ensures error.None? ==> combined.Model() == Combine(e.keys, JointValues(e, o), |e.keys|).value
    ensures error.Some? ==> Combine(e.keys, JointValues(e, o), |e.keys|) == Err(error.value)
  {
    ghost var vals := JointValues(e, o);
    error := None;
    var i := 0;
    while i < |e.keys| && error.None?
      invariant i <= |e.keys| && combined.Valid()
      invariant error.None? ==> Combine(e.keys, vals, i) == Ok(combined.Model())
      invariant error.Some? ==> Combine(e.keys, vals, |e.keys|) == Err(error.value)
    {
      error := AddJointValue(combined, e, o, i);
      i := i + 1;
    }
  }

  /** One iteration of the first loop: the i-th key is added with its joint value, or its
      ValueError ends the loop. */
  method AddJointValue(combined: LineDict, e: Dict, o: Dict, i: nat) returns (error: Option<string>)
    requires WellFormed(e) && i < |e.keys| && combined.Valid()
    requires Combine(e.keys, JointValues(e, o), i) == Ok(combined.Model())
    modifies combined
    ensures combined.Valid()
    ensures error.None? ==> Combine(e.keys, JointValues(e, o), i + 1) == Ok(combined.Model())
    ensures error.Some? ==> Combine(e.keys, JointValues(e, o), |e.keys|) == Err(error.value)
  {
    ghost var vals := JointValues(e, o);
    var key := e.keys[i];
    var jointValue := MergeKey(e, o, i);
    CombineStep(e.keys, vals, i);
    if jointValue.Err? {
      CombineFailsAt(e.keys, vals, i, |e.keys|);
      return Some(jointValue.error);
    }
    combined.Add(key, jointValue.value, -1);
    error := None;
  }

  /** The joint value of the i-th key of `e`. */
  method MergeKey(e: Dict, o: Dict, i: nat) returns (r: Result<string>)
    requires WellFormed(e) && i < |e.keys|
    ensures r == JointValues(e, o)[i]
  {
    var key := e.keys[i];
    r := MergeValue(key, e.store[key], Lookup(o, key, ""));
  }

  /** The sense disambiguation, on the entry built by the first loop. */
  method DisambiguateSenses(combined: LineDict, e: Dict, o: Dict) returns (error: Option<string>)
    requires combined.Valid()
    modifies combined
    ensures combined.Valid()
    ensures error.None? <==> Disambiguate(old(combined.Model()), e, o).Ok?
    ensures error.None? ==> combined.Model() == Disambiguate(old(combined.Model()), e, o).value
    ensures error.Some? ==> Disambiguate(old(combined.Model()), e, o) == Err(error.value)
  {
    ghost var c := combined.Model();
    if "sense" !in combined.store {
      return Some("KeyError: 'sense'");
    }
    var sense := combined.store["sense"];
    var senses := Split(sense, " | ");
    if "en" !in combined.store {
      return Some("KeyError: 'en'");
    }
    var enWords := Util.SplitOnSemicolons(Some(combined.store["en"]));
    if |enWords| > 1 && |senses| != |enWords| {
      assert NeedsDisambiguation(c);
      var origEnWords := OriginalWords(e);
      var newSense := RetagSenses(Tags(senses, origEnWords), o);
      if newSense.None? {
        return Some("IndexError: list index out of range");
      }
      combined.Add("sense", newSense.value, -1);
      error := None;
    } else {
      assert !NeedsDisambiguation(c);
      error := None;
    }
  }

  /** The disambiguation branch: the senses but the last are tagged and the second
      entry's sense is appended. */
  method RetagSenses(tags: seq<Option<string>>, o: Dict) returns (r: Option<string>)
    requires |tags| > 0
    ensures r == RetaggedSense(tags, o)
  {
    var count := |tags| - 1;
    var tagged := TagSenses(tags, count);
    if tagged.None? {
      r := None;
    } else {
      r := Some(Join(tagged.value + [NewSubsense(o)], " | "));
    }
  }

  /** The last loop: the keys only the second entry has are added. */
  method CopyMissing(combined: LineDict, o: Dict)
    requires combined.Valid() && WellFormed(o)
    modifies combined
    ensures combined.Valid() && combined.Model() == CopyUpTo(old(combined.Model()), o, |o.keys|)
  {
    ghost var d := combined.Model();
    for i := 0 to |o.keys|
      invariant combined.Valid()
      invariant combined.Model() == CopyUpTo(d, o, i)
    {
      var key := o.keys[i];
      CopyStep(d, o, i);
      if key !in combined.store {
        combined.Add(key, o.store[key], -1);
      }
    }
  }

  // ----- Lemmas about the step functions -----

  /** One step of Combine, with the index arithmetic inside the contract. */
  lemma CombineStep(keys: seq<string>, vals: seq<Result<string>>, i: nat)
    requires i < |keys| && i < |vals|
    ensures Combine(keys, vals, i + 1)
            == match Combine(keys, vals, i)
               case Err(msg) => Err(msg)
               case Ok(d) =>
                 match vals[i]
                 case Err(msg) => Err(msg)
                 case Ok(v) => Ok(AddTo(d, keys[i], v, -1))
  {
  }

  /** A ValueError at the i-th key is the result of every later prefix, so of the whole
      first loop. */
  lemma {:induction false} CombineFailsAt(keys: seq<string>, vals: seq<Result<string>>, i: nat, n: nat)
    requires i < n <= |keys| && n <= |vals| && Combine(keys, vals, i).Ok? && vals[i].Err?
    ensures Combine(keys, vals, n) == Err(vals[i].error)
  {
    if n - 1 > i {
      CombineFailsAt(keys, vals, i, n - 1);
    }
  }

  /** One step of CopyUpTo, with the index arithmetic inside the contract. */
  lemma CopyStep(d: Dict, o: Dict, i: nat)
    requires WellFormed(o) && i < |o.keys|
    ensures CopyUpTo(d, o, i + 1)
            == if o.keys[i] in CopyUpTo(d, o, i).store then CopyUpTo(d, o, i)
               else AddTo(CopyUpTo(d, o, i), o.keys[i], o.store[o.keys[i]], -1)
  {
  }

  /** One step of Collect, with the index arithmetic inside the contract. */
  lemma CollectStep(tags: seq<Option<string>>, i: nat)
    requires i < |tags|
    ensures Collect(tags, i + 1)
            == if Collect(tags, i).None? || tags[i].None? then None
               else Some(Collect(tags, i).value + [tags[i].value])
  {
  }

  /** Once a tag fails, collecting more tags fails too. */
  lemma {:induction false} CollectStaysNone(tags: seq<Option<string>>, i: nat, n: nat)
    requires i < n <= |tags|
    requires Collect(tags, i + 1).None?
    ensures Collect(tags, n).None?
  {
    var j := i + 1;
    while j < n
      invariant i + 1 <= j <= n && Collect(tags, j).None?
    {
      CollectStep(tags, j);
      j := j + 1;
    }
  }

  /** Collecting fails exactly when one of the tags failed; otherwise the i-th item is the
      i-th tag. */
  lemma {:induction false} CollectContents(tags: seq<Option<string>>, n: nat)
    requires n <= |tags|
    ensures Collect(tags, n).None? <==> exists k :: 0 <= k < n && tags[k].None?
    ensures Collect(tags, n).Some? ==> forall k :: 0 <= k < n ==> Collect(tags, n).value[k] == tags[k].value
  {
    if n > 0 {
      CollectContents(tags, n - 1);
      if tags[n - 1].None? {
        assert 0 <= n - 1 < n;
      }
    }
  }

  /** Tagging fails, an IndexError, exactly when the first entry has no English words and
      one of the senses to tag has no explanation in parentheses; otherwise each sense
      keeps its text at the start of its tagged form. */
  lemma TaggingFails(senses: seq<string>, orig: seq<string>, n: nat)
    requires n <= |senses|
    ensures Collect(Tags(senses, orig), n).None?
            <==> |orig| == 0 && exists k :: 0 <= k < n && Unexplained(senses[k])
    ensures Collect(Tags(senses, orig), n).Some? ==>
              forall k :: 0 <= k < n ==> senses[k] <= Collect(Tags(senses, orig), n).value[k]
  {
    var tags := Tags(senses, orig);
    CollectContents(tags, n);
    forall k | 0 <= k < n
      ensures (tags[k].None? <==> Unexplained(senses[k]) && |orig| == 0)
      ensures tags[k].Some? ==> senses[k] <= tags[k].value
    {
      TagSenseFails(senses[k], k, orig);
    }
  }

  /** A sense has no explanation in parentheses. */
  predicate Unexplained(subsense: string)
  {
    Util.SplitTextAndExplanation(subsense).1.None?
  }

  /** One tag fails exactly when the sense has no explanation and there are no English
      words; a tag starts with the sense it tags. */
  lemma TagSenseFails(subsense: string, idx: nat, orig: seq<string>)
    ensures TagSense(subsense, idx, orig).None? <==> Unexplained(subsense) && |orig| == 0
    ensures TagSense(subsense, idx, orig).Some? ==> subsense <= TagSense(subsense, idx, orig).value
  {
    if !Unexplained(subsense) {
      assert TagSense(subsense, idx, orig) == Some(subsense);
    } else if |orig| == 0 {
      assert TagSense(subsense, idx, orig) == None;
    } else {
      var w := if idx >= |orig| then orig[|orig| - 1] else orig[idx];
      assert TagSense(subsense, idx, orig) == Some(subsense + " (" + Util.EliminateParens(w) + ")");
    }
  }

  // ----- Properties of the merged entry -----

  /** After the first loop the entry has the keys in their order, each with line number
      -1. */
  lemma {:induction false} CombineKeys(keys: seq<string>, vals: seq<Result<string>>, n: nat)
    requires n <= |keys| && n <= |vals| && Combine(keys, vals, n).Ok?
    requires forall i, j :: 0 <= i < j < |keys| ==> keys[i] != keys[j]
    ensures var d := Combine(keys, vals, n).value;
      WellFormed(d) && d.keys == keys[..n]
      && (forall k :: k in d.lines ==> d.lines[k] == -1)
  {
    if n > 0 {
      CombineKeys(keys, vals, n - 1);
      var d := Combine(keys, vals, n - 1).value;
      var key := keys[n - 1];
      forall j | 0 <= j < n - 1
        ensures d.keys[j] != key
      {
        assert d.keys[j] == keys[j];
      }
      AddToWellFormed(d, key, vals[n - 1].value, -1);
      assert keys[..n] == keys[..n - 1] + [key];
    }
  }

  /** After the first loop every key has its value; no value is an error. */
  lemma {:induction false} CombineValues(keys: seq<string>, vals: seq<Result<string>>, n: nat, i: nat)
    requires i < n <= |keys| && n <= |vals| && Combine(keys, vals, n).Ok?
    requires forall i, j :: 0 <= i < j < |keys| ==> keys[i] != keys[j]
    ensures vals[i].Ok? && keys[i] in Combine(keys, vals, n).value.store
            && Combine(keys, vals, n).value.store[keys[i]] == vals[i].value
  {
    if i < n - 1 {
      CombineValues(keys, vals, n - 1, i);
      assert keys[n - 1] != keys[i];
    }
  }

  /** The last loop appends the keys of `o` the entry lacks, in their order. */
  lemma {:induction false} CopyKeys(d: Dict, o: Dict, n: nat)
    requires WellFormed(o) && n <= |o.keys|
    requires forall k :: k in d.store <==> k in d.keys
    ensures forall k :: k in CopyUpTo(d, o, n).store <==> k in CopyUpTo(d, o, n).keys
    ensures CopyUpTo(d, o, n).keys == d.keys + Unlisted(o.keys, d.keys, n)
  {
    if n > 0 {
      CopyKeys(d, o, n - 1);
      var prev := CopyUpTo(d, o, n - 1);
      var key := o.keys[n - 1];
      UnlistedMembers(o.keys, d.keys, n - 1, key);
      NotEarlier(o.keys, n - 1);
      UnlistedStep(o.keys, d.keys, n - 1);
      assert key !in Unlisted(o.keys, d.keys, n - 1);
      assert key in prev.keys <==> key in d.keys;
      assert key in prev.store <==> key in d.keys;
      if key !in prev.store {
        assert CopyUpTo(d, o, n).keys == prev.keys + [key];
        assert d.keys + (Unlisted(o.keys, d.keys, n - 1) + [key])
               == (d.keys + Unlisted(o.keys, d.keys, n - 1)) + [key];
      } else {
        assert CopyUpTo(d, o, n) == prev;
        assert Unlisted(o.keys, d.keys, n) == Unlisted(o.keys, d.keys, n - 1);
      }
    } else {
      assert d.keys + [] == d.keys;
    }
  }

  /** The last loop keeps the entry well formed. */
  lemma {:induction false} CopyWellFormed(d: Dict, o: Dict, n: nat)
    requires WellFormed(d) && WellFormed(o) && n <= |o.keys|
    ensures WellFormed(CopyUpTo(d, o, n))
  {
    if n > 0 {
      CopyWellFormed(d, o, n - 1);
      AddToWellFormed(CopyUpTo(d, o, n - 1), o.keys[n - 1], o.store[o.keys[n - 1]], -1);
    }
  }

  /** In a list without repetitions an item does not occur before its position. */
  lemma NotEarlier(keys: seq<string>, i: nat)
    requires i < |keys| && forall a, b :: 0 <= a < b < |keys| ==> keys[a] != keys[b]
    ensures keys[i] !in keys[..i]
  {
  }

  /** The last loop keeps the values and line numbers of the keys the entry has. */
  lemma {:induction false} CopyKeeps(d: Dict, o: Dict, n: nat, k: string)
    requires WellFormed(d) && WellFormed(o) && n <= |o.keys|
    ensures k in d.store ==> k in CopyUpTo(d, o, n).store && CopyUpTo(d, o, n).store[k] == d.store[k]
    ensures k in d.store ==> k in CopyUpTo(d, o, n).lines && CopyUpTo(d, o, n).lines[k] == d.lines[k]
  {
    if n > 0 {
      CopyKeeps(d, o, n - 1, k);
    }
  }

  /** A key the last loop adds has the second entry's value and line number -1. */
  lemma {:induction false} CopyAdds(d: Dict, o: Dict, n: nat, k: string)
    requires WellFormed(d) && WellFormed(o) && n <= |o.keys|
    requires k in CopyUpTo(d, o, n).store && k !in d.store
    ensures k in o.store && CopyUpTo(d, o, n).store[k] == o.store[k]
    ensures k in CopyUpTo(d, o, n).lines && CopyUpTo(d, o, n).lines[k] == -1
  {
    var prev := CopyUpTo(d, o, n - 1);
    if k in prev.store {
      CopyAdds(d, o, n - 1, k);
    }
  }

  /** Disambiguation changes at most the "sense" value, which the entry has. */
  lemma DisambiguateOnlySense(c: Dict, e: Dict, o: Dict)
    requires Disambiguate(c, e, o).Ok?
    ensures "sense" in c.store
    ensures var d := Disambiguate(c, e, o).value;
      d == c || ("sense" in d.store && d == AddTo(c, "sense", d.store["sense"], -1))
  {
  }

  /** The three stages of a successful merge. */
  lemma MergedStages(e: Dict, o: Dict)
    requires WellFormed(e) && WellFormed(o) && Merged(e, o).Ok?
    ensures Combine(e.keys, JointValues(e, o), |e.keys|).Ok?
    ensures var c := Combine(e.keys, JointValues(e, o), |e.keys|).value;
      Disambiguate(c, e, o).Ok? && Merged(e, o).value == CopyUpTo(Disambiguate(c, e, o).value, o, |o.keys|)
  {
  }

  /** The entry between disambiguation and the last loop: the keys of the first entry in
      their order, each with line number -1, and the joined values except for "sense". */
  lemma {:induction false} DisambiguatedShape(e: Dict, vals: seq<Result<string>>, c: Dict, d: Dict)
    requires WellFormed(e) && |vals| == |e.keys|
    requires Combine(e.keys, vals, |e.keys|) == Ok(c) && "sense" in c.store
    requires d == c || ("sense" in d.store && d == AddTo(c, "sense", d.store["sense"], -1))
    ensures WellFormed(d) && d.keys == e.keys
    ensures forall k :: k in d.store ==> d.lines[k] == -1
    ensures forall k :: k != "sense" && k in c.store ==> k in d.store && d.store[k] == c.store[k]
  {
    CombineKeys(e.keys, vals, |e.keys|);
    assert e.keys[..|e.keys|] == e.keys;
    AddToWellFormed(c, "sense", d.store["sense"], -1);
  }

  /** The merged entry has the keys of the first entry in their order, then those only
      the second has, in theirs; every key has line number -1. */
  lemma MergedKeys(e: Dict, o: Dict)
    requires WellFormed(e) && WellFormed(o) && Merged(e, o).Ok?
    ensures var m := Merged(e, o).value;
      WellFormed(m) && m.keys == e.keys + Unlisted(o.keys, e.keys, |o.keys|)
      && forall k :: k in m.store ==> m.lines[k] == -1
  {
    MergedStages(e, o);
    var vals := JointValues(e, o);
    var c := Combine(e.keys, vals, |e.keys|).value;
    DisambiguateOnlySense(c, e, o);
    var d := Disambiguate(c, e, o).value;
    DisambiguatedShape(e, vals, c, d);
    CopyKeys(d, o, |o.keys|);
    CopyWellFormed(d, o, |o.keys|);
    var m := CopyUpTo(d, o, |o.keys|);
    forall k | k in m.store
      ensures m.lines[k] == -1
    {
      CopyKeeps(d, o, |o.keys|, k);
      if k !in d.store {
        CopyAdds(d, o, |o.keys|, k);
      }
    }
  }

  /** A key of the first entry other than "sense" gets its joint value; the merge
      succeeds only when every such join does. */
  lemma MergedValues(e: Dict, o: Dict, k: string)
    requires WellFormed(e) && WellFormed(o) && Merged(e, o).Ok?
    requires k in e.store && k != "sense"
    ensures JointValue(k, e.store[k], Lookup(o, k, "")).Ok?
    ensures k in Merged(e, o).value.store
            && Merged(e, o).value.store[k] == JointValue(k, e.store[k], Lookup(o, k, "")).value
  {
    MergedStages(e, o);
    var vals := JointValues(e, o);
    var c := Combine(e.keys, vals, |e.keys|).value;
    var i :| 0 <= i < |e.keys| && e.keys[i] == k;
    CombineValues(e.keys, vals, |e.keys|, i);
    assert vals[i] == JointValue(k, e.store[k], Lookup(o, k, ""));
    DisambiguateOnlySense(c, e, o);
    var d := Disambiguate(c, e, o).value;
    DisambiguatedShape(e, vals, c, d);
    CopyKeeps(d, o, |o.keys|, k);
  }

  /** A key only the second entry has is copied with its value. */
  lemma MergedCopies(e: Dict, o: Dict, k: string)
    requires WellFormed(e) && WellFormed(o) && Merged(e, o).Ok?
    requires k in o.store && k !in e.store
    ensures k in Merged(e, o).value.store && Merged(e, o).value.store[k] == o.store[k]
  {
    MergedStages(e, o);
    var vals := JointValues(e, o);
    var c := Combine(e.keys, vals, |e.keys|).value;
    DisambiguateOnlySense(c, e, o);
    var d := Disambiguate(c, e, o).value;
    DisambiguatedShape(e, vals, c, d);
    CopyKeys(d, o, |o.keys|);
    UnlistedMembers(o.keys, d.keys, |o.keys|, k);
    assert o.keys[..|o.keys|] == o.keys;
    CopyAdds(d, o, |o.keys|, k);
  }

  /** Once the values are joined, an entry without "sense" or without "en" makes the
      merge a KeyError. */
  lemma MergedNeedsSenseAndEn(e: Dict, o: Dict)
    requires WellFormed(e) && WellFormed(o)
    requires Combine(e.keys, JointValues(e, o), |e.keys|).Ok?
    ensures "sense" !in e.store ==> Merged(e, o) == Err("KeyError: 'sense'")
    ensures "sense" in e.store && "en" !in e.store ==> Merged(e, o) == Err("KeyError: 'en'")
  {
    var vals := JointValues(e, o);
    CombineKeys(e.keys, vals, |e.keys|);
    assert e.keys[..|e.keys|] == e.keys;
  }
}
