// The data and text helpers of scripts/util.py.
module Util {
  import opened Wrappers
  import opened Text
  import Scan

  // ----- Data helpers -----

  /** coalesce: the first argument that is not None. */
  function Coalesce<T>(args: seq<Option<T>>): (r: Option<T>)
    ensures r.None? <==> forall i :: 0 <= i < |args| ==> args[i].None?
    ensures r.Some? ==> exists i :: 0 <= i < |args| && args[i] == r
                                    && forall j :: 0 <= j < i ==> args[j].None?
  {
    if |args| == 0 then None
    else if args[0].Some? then args[0]
    else
      var r := Coalesce(args[1..]);
      assert forall i :: 1 <= i < |args| ==> args[i] == args[1..][i - 1];
      r
  }

  /** get_elem: `row[idx]` when the row is long enough, else `default`. */
  function GetElem(row: seq<string>, idx: nat, default: string): (r: string)
    ensures idx < |row| ==> r == row[idx]
    ensures idx >= |row| ==> r == default
  {
    if |row| > idx then row[idx] else default
  }

  /** extract_key_val: the first two fields of a row, "" for a missing one (the warning
      about a wrong field count is not modelled). */
  function ExtractKeyVal(row: seq<string>): (r: (string, string))
    ensures r.0 == GetElem(row, 0, "") && r.1 == GetElem(row, 1, "")
    ensures |row| >= 2 ==> r == (row[0], row[1])
  {
    (if |row| > 0 then row[0] else "", if |row| >= 2 then row[1] else "")
  }

  // ----- Text helpers -----

  /** capitalize: the first character upper-cased, the rest unchanged. */
  function Capitalize(text: string): (r: string)
    ensures |r| == |text|
    ensures |text| > 0 ==> r[0] == UpperChar(text[0]) && r[1..] == text[1..]
    ensures |text| == 0 ==> r == text
  {
    if |text| > 0 then [UpperChar(text[0])] + text[1..] else text
  }

  /** gloss_is_informal: a space, and neither a plus sign nor a leading equals sign. */
  function GlossIsInformal(gloss: string): (r: bool)
    ensures r <==> ' ' in gloss && '+' !in gloss && !(|gloss| > 0 && gloss[0] == '=')
  {
    ContainsChar(gloss, ' ') && !(ContainsChar(gloss, '+') || (|gloss| > 0 && gloss[0] == '='))
  }

  /** `c in s` for a one-character string `c`, as a substring test. */
  function ContainsChar(s: string, c: char): (r: bool)
    ensures r <==> c in s
  {
    var i := Find(s, [c]);
    assert i >= 0 ==> s[i..i + 1] == [c] && s[i] == c;
    assert forall j :: 0 <= j < |s| && s[j] == c ==> OccursAt(s, [c], j);
    i >= 0
  }

  /** split_text_and_explanation: "main text (explanation)" becomes the stripped main text
      and the stripped explanation between the LAST '(' and the final ')'. */
  function SplitTextAndExplanation(text: string): (r: (string, Option<string>))
    ensures var t := Strip(text); r.1.Some? <==> |t| > 0 && t[|t| - 1] == ')' && '(' in t
    ensures r.1.None? ==> r.0 == Strip(text)
    ensures r.1.Some? ==> '(' !in r.1.value
  {
    var t := Strip(text);
    if |t| > 0 && t[|t| - 1] == ')' && '(' in t then
      var p := RFindChar(t, '(');
      LastParen(t);
      (Strip(t[..p]), Some(Strip(t[p + 1..|t| - 1])))
    else (t, None)
  }

  /** An explanation is the stripped text between the last '(' and the final ')', and the
      main text what precedes that '(', stripped. */
  lemma ExplanationIsLastParenGroup(text: string)
    ensures var t := Strip(text); var r := SplitTextAndExplanation(text);
      r.1.Some? ==> exists p :: 0 <= p < |t| - 1 && t[p] == '(' && '(' !in t[p + 1..]
                                && r.0 == Strip(t[..p]) && r.1.value == Strip(t[p + 1..|t| - 1])
  {
    var t := Strip(text);
    var r := SplitTextAndExplanation(text);
    if r.1.Some? {
      LastParen(t);
      var p := RFindChar(t, '(');
      assert r == (Strip(t[..p]), Some(Strip(t[p + 1..|t| - 1])));
      assert 0 <= p < |t| - 1 && t[p] == '(' && '(' !in t[p + 1..];
    }
  }

  /** The last '(' of a text that ends with ')' comes before that ')', and neither what
      follows it nor the stripped explanation holds another '('. */
  lemma LastParen(t: string)
    requires |t| > 0 && t[|t| - 1] == ')' && '(' in t
    ensures var p := RFindChar(t, '(');
      0 <= p < |t| - 1 && t[p] == '(' && '(' !in t[p + 1..] && '(' !in Strip(t[p + 1..|t| - 1])
  {
    var p := RFindChar(t, '(');
    LastParenIndex(t, p);
    AbsentAfter(t, '(', p + 1, |t|);
    AbsentAfter(t, '(', p + 1, |t| - 1);
    StripKeepsAbsent(t[p + 1..|t| - 1], '(');
  }

  lemma LastParenIndex(t: string, p: int)
    requires |t| > 0 && t[|t| - 1] == ')' && '(' in t && p == RFindChar(t, '(')
    ensures 0 <= p < |t| - 1 && t[p] == '(' && forall k :: p + 1 <= k < |t| ==> t[k] != '('
  {
  }

  /** A character that occurs nowhere in `s[i..j]` is not in that slice. */
  lemma AbsentAfter(s: string, c: char, i: nat, j: nat)
    requires i <= j <= |s| && forall k :: i <= k < j ==> s[k] != c
    ensures c !in s[i..j]
  {
    var u := s[i..j];
    forall k | 0 <= k < |u| ensures u[k] != c {
      assert u[k] == s[i + k];
    }
  }

  /** Stripping only removes characters. */
  lemma StripKeepsAbsent(s: string, c: char)
    requires c !in s
    ensures c !in Strip(s)
  {
    var l := LStrip(s);
    assert c !in l by {
      forall i | 0 <= i < |l| ensures l[i] != c {
        assert l[i] == s[|s| - |l| + i];
      }
    }
    var r := RStrip(l);
    assert Strip(s) == r;
    forall i | 0 <= i < |r| ensures r[i] != c {
      assert r[i] == l[i];
    }
  }

  /** extract_text_in_brackets: the text between the first '[' and the first ']' when that
      ']' comes after the '['; otherwise the whole text, or None. */
  function ExtractTextInBrackets(text: string, otherwiseReturnFully: bool): (r: Option<string>)
    ensures var start := Find(text, "["); var end := Find(text, "]");
      (0 <= start < end ==> r == Some(text[start + 1..end]))
      && (!(0 <= start < end) ==> r == (if otherwiseReturnFully then Some(text) else None))
    ensures r.Some? && r.value != text ==> ']' !in r.value
  {
    var start := Find(text, "[");
    var end := Find(text, "]");
    if start != -1 && end > start then
      var inner := text[start + 1..end];
      assert forall j :: start + 1 <= j < end ==> !OccursAt(text, "]", j);
      assert forall j :: start + 1 <= j < end ==> text[j] != ']' by {
        forall j | start + 1 <= j < end ensures text[j] != ']' {
          assert !OccursAt(text, "]", j);
          assert j + 1 <= |text|;
          assert text[j..j + 1] == [text[j]];
        }
      }
      Some(inner)
    else if otherwiseReturnFully then Some(text)
    else None
  }

  /** The length of the whitespace run starting at `i`. */
  function WsRun(s: string, i: nat): (k: nat)
    ensures i + k <= |s| || k == 0
    ensures forall j :: i <= j < i + k ==> IsSpace(s[j])
    ensures i + k >= |s| || !IsSpace(s[i + k])
    decreases |s| - i
  {
    if i < |s| && IsSpace(s[i]) then 1 + WsRun(s, i + 1) else 0
  }

  /** `\s*\[.*?\]`: whitespace, '[', then up to the first ']' without crossing a newline. */
  function BracketGroup(s: string, i: nat): Option<Scan.Hit>
  {
    var w := WsRun(s, i);
    var open := i + w;
    if open < |s| && s[open] == '[' then
      var close := FindFrom(s, "]", open + 1);
      if close > open && '\n' !in s[open + 1..close] then Some(Scan.Hit(close + 1 - i, ""))
      else None
    else None
  }

  /** discard_text_in_brackets: every bracketed group is removed with the whitespace
      before it. */
  function DiscardTextInBrackets(text: string): (r: string)
    ensures '[' !in text ==> r == text
  {
    assert '[' !in text ==> Scan.Sub(text, BracketGroup) == text by {
      if '[' !in text {
        Scan.NoHitNoChange(text, BracketGroup, 0);
      }
    }
    Scan.Sub(text, BracketGroup)
  }

  /** A closing group `[...]` on one line is dropped together with the whitespace before
      it, when nothing before it opens a bracket. */
  lemma DiscardTrailingGroup(a: string, b: string)
    requires '[' !in a && ']' !in b && '\n' !in b
    ensures DiscardTextInBrackets(a + "[" + b + "]") == RStrip(a)
  {
    var s := a + "[" + b + "]";
    var p := |RStrip(a)|;
    GroupShape(a, b, '[', ']');
    forall j | 0 <= j < p ensures Scan.HitAt(s, BracketGroup, j).None? {
      RunStopsBefore(s, j, p);
    }
    Scan.CopiedUntil(s, BracketGroup, 0, p);
    assert s[|a| + 1..|s| - 1] == b;
    BracketHitAtEnd(s, |a|, p);
    assert Scan.SubFrom(s, BracketGroup, p) == [];
  }

  lemma BracketHitAtEnd(s: string, n: nat, p: nat)
    requires p <= n < |s| - 1 && s[n] == '[' && s[|s| - 1] == ']'
    requires forall j :: p <= j < n ==> IsSpace(s[j])
    requires forall j :: n < j < |s| - 1 ==> s[j] != ']'
    requires '\n' !in s[n + 1..|s| - 1]
    ensures Scan.HitAt(s, BracketGroup, p) == Some(Scan.Hit(|s| - p, ""))
  {
    TrailingGroupHit(s, n, p, '[', ']');
  }

  /** The layout of `a + [o] + b + [c]`, with `RStrip(a)` as its prefix. */
  lemma GroupShape(a: string, b: string, o: char, c: char)
    ensures var s := a + [o] + b + [c];
      |s| == |a| + |b| + 2 && s[|a|] == o && s[|s| - 1] == c
      && (forall j :: 0 <= j < |a| ==> s[j] == a[j])
      && (forall j :: |a| < j < |s| - 1 ==> s[j] == b[j - |a| - 1])
      && s[..|RStrip(a)|] == RStrip(a)
  {
  }

  /** A whitespace run starting before a non-space character ends before it. */
  lemma RunStopsBefore(s: string, j: nat, p: nat)
    requires j < p <= |s| && !IsSpace(s[p - 1])
    ensures j + WsRun(s, j) < p
  {
  }

  /** In a text whose opener `open` sits at `n`, preceded from `p` by whitespace, and whose
      first `close` after it is the last character, the whitespace run from `p` reaches the
      opener and the search for `close` ends at the last character. */
  lemma TrailingGroupHit(s: string, n: nat, p: nat, open: char, close: char)
    requires p <= n < |s| - 1 && s[n] == open && s[|s| - 1] == close && !IsSpace(open)
    requires forall j :: p <= j < n ==> IsSpace(s[j])
    requires forall j :: n < j < |s| - 1 ==> s[j] != close
    ensures WsRun(s, p) == n - p
    ensures FindFrom(s, [close], n + 1) == |s| - 1
  {
    WsRunReaches(s, p, n);
    assert OccursAt(s, [close], |s| - 1) by { assert s[|s| - 1..|s|] == [close]; }
    forall j | n < j < |s| - 1 ensures !OccursAt(s, [close], j) {
      assert j + 1 <= |s| && s[j..j + 1] == [s[j]];
    }
  }

  lemma {:induction false} WsRunReaches(s: string, p: nat, n: nat)
    requires p <= n < |s| && !IsSpace(s[n])
    requires forall j :: p <= j < n ==> IsSpace(s[j])
    ensures WsRun(s, p) == n - p
    decreases n - p
  {
    if p < n {
      WsRunReaches(s, p + 1, n);
    }
  }

  /** `\s*\([^)]*\)`: whitespace, '(', then up to the first ')'. */
  function ParenGroup(s: string, i: nat): Option<Scan.Hit>
  {
    var w := WsRun(s, i);
    var open := i + w;
    if open < |s| && s[open] == '(' then
      var close := FindFrom(s, ")", open + 1);
      if close > open then Some(Scan.Hit(close + 1 - i, "")) else None
    else None
  }

  /** eliminate_parens: every parenthesised group is removed with the whitespace before
      it, and the result is stripped. */
  function EliminateParens(text: string): (r: string)
    ensures r == [] || (!IsSpace(r[0]) && !IsSpace(r[|r| - 1]))
    ensures '(' !in text ==> r == Strip(text)
  {
    assert '(' !in text ==> Scan.Sub(text, ParenGroup) == text by {
      if '(' !in text {
        Scan.NoHitNoChange(text, ParenGroup, 0);
      }
    }
    Strip(Scan.Sub(text, ParenGroup))
  }

  /** A closing group `(...)` is dropped together with the whitespace before it, when
      nothing before it opens a parenthesis; the rest is stripped. */
  lemma EliminateTrailingParens(a: string, b: string)
    requires '(' !in a && ')' !in b
    ensures EliminateParens(a + "(" + b + ")") == Strip(RStrip(a))
  {
    var s := a + "(" + b + ")";
    var p := |RStrip(a)|;
    GroupShape(a, b, '(', ')');
    forall j | 0 <= j < p ensures Scan.HitAt(s, ParenGroup, j).None? {
      RunStopsBefore(s, j, p);
    }
    Scan.CopiedUntil(s, ParenGroup, 0, p);
    ParenHitAtEnd(s, |a|, p);
    assert Scan.SubFrom(s, ParenGroup, p) == [];
    assert Scan.Sub(s, ParenGroup) == RStrip(a);
  }

  lemma ParenHitAtEnd(s: string, n: nat, p: nat)
    requires p <= n < |s| - 1 && s[n] == '(' && s[|s| - 1] == ')'
    requires forall j :: p <= j < n ==> IsSpace(s[j])
    requires forall j :: n < j < |s| - 1 ==> s[j] != ')'
    ensures Scan.HitAt(s, ParenGroup, p) == Some(Scan.Hit(|s| - p, ""))
  {
    TrailingGroupHit(s, n, p, '(', ')');
  }

  // ----- split_on_sep -----

  /** The length of the match of `\s*SEP\s*` at `i`, or 0 when there is none. Since `sep`
      does not start with whitespace, the leading `\s*` must take the whole run. */
  function SepMatchAt(s: string, sep: string, i: nat): (n: nat)
    requires |sep| > 0
    ensures n == 0 || (|sep| <= n && i + n <= |s|)
  {
    var w := WsRun(s, i);
    if OccursAt(s, sep, i + w) then w + |sep| + WsRun(s, i + w + |sep|) else 0
  }

  /** `re.split(r'\s*SEP\s*', s)` from `i`, the current part starting at `start`. */
  function SepSplitFrom(s: string, sep: string, start: nat, i: nat): (r: seq<string>)
    requires |sep| > 0 && start <= i <= |s|
    ensures |r| >= 1
    decreases |s| - i
  {
    if i == |s| then [s[start..]]
    else
      var n := SepMatchAt(s, sep, i);
      if n > 0 then [s[start..i]] + SepSplitFrom(s, sep, i + n, i + n)
      else SepSplitFrom(s, sep, start, i + 1)
  }

  /** `\([^)]*SEP[^)]*\)` occurs: a separator inside parentheses. */
  predicate SepInParens(s: string, sep: string)
  {
    exists a, j :: 0 <= a < j <= |s| && s[a] == '(' && OccursAt(s, sep, j)
                   && (forall m :: a < m < j ==> s[m] != ')')
                   && (exists k :: j + |sep| <= k < |s| && s[k] == ')')
  }

  /** The remerging loop of split_on_sep from some state on: while waiting for the closing
      parenthesis, each part is glued to the previous one with the full `sep`. */
  function RemergeFrom(parts: seq<string>, sep: string, merged: seq<string>, wait: bool): (r: seq<string>)
    requires wait ==> |merged| > 0
    ensures |r| <= |merged| + |parts|
    ensures |merged| + |parts| > 0 ==> |r| > 0
    decreases |parts|
  {
    if |parts| == 0 then merged
    else
      var elem := parts[0];
      if wait then
        var glued := merged[..|merged| - 1] + [merged[|merged| - 1] + sep + elem];
        RemergeFrom(parts[1..], sep, glued, !(')' in elem && '(' !in elem))
      else
        RemergeFrom(parts[1..], sep, merged + [elem], '(' in elem && ')' !in elem)
  }

  function Remerge(parts: seq<string>, sep: string): seq<string>
  {
    RemergeFrom(parts, sep, [], false)
  }

  /** split_on_sep: what the function returns. */
  function SplitOnSepSpec(text: Option<string>, sep: string): seq<string>
    requires |Strip(sep)| > 0
  {
    if text.None? || text.value == "" then []
    else
      var t := Strip(text.value);
      var actual := Strip(sep);
      var parts := SepSplitFrom(t, actual, 0, 0);
      if SepInParens(t, actual) then Remerge(parts, sep) else parts
  }

  /** split_on_sep, with its remerging loop. */
  method SplitOnSep(text: Option<string>, sep: string) returns (r: seq<string>)
    requires |Strip(sep)| > 0
    ensures r == SplitOnSepSpec(text, sep)
  {
    if text.None? || text.value == "" {
      return [];
    }
    var t := Strip(text.value);
    var actual := Strip(sep);
    var needToHandleParens := SepInParens(t, actual);
    var result := SepSplitFrom(t, actual, 0, 0);
    if needToHandleParens {
      var waitForEnd := false;
      var mergedResult: seq<string> := [];
      for k := 0 to |result|
        invariant waitForEnd ==> |mergedResult| > 0
        invariant RemergeFrom(result[k..], sep, mergedResult, waitForEnd) == Remerge(result, sep)
      {
        var elem := result[k];
        assert result[k..][1..] == result[k + 1..];
        if waitForEnd {
          mergedResult := mergedResult[..|mergedResult| - 1] + [mergedResult[|mergedResult| - 1] + sep + elem];
          if ')' in elem && '(' !in elem {
            waitForEnd := false;
          }
        } else {
          if '(' in elem && ')' !in elem {
            waitForEnd := true;
          }
          mergedResult := mergedResult + [elem];
        }
      }
      return mergedResult;
    }
    return result;
  }

  function SplitOnCommas(text: Option<string>): seq<string> { SplitOnSepSpec(text, ", ") }

  function SplitOnPipes(text: Option<string>): seq<string> { SplitOnSepSpec(text, " | ") }

  function SplitOnSemicolons(text: Option<string>): seq<string> { SplitOnSepSpec(text, "; ") }

  /** Without any separator match the scan returns the whole rest as one part. */
  lemma {:induction false} SepSplitNoMatch(s: string, sep: string, start: nat, i: nat)
    requires |sep| > 0 && start <= i <= |s|
    requires forall j :: 0 <= j <= |s| ==> !OccursAt(s, sep, j)
    ensures SepSplitFrom(s, sep, start, i) == [s[start..]]
    decreases |s| - i
  {
    if i < |s| {
      SepSplitNoMatch(s, sep, start, i + 1);
    }
  }

  /** Empty input gives no parts; input without the separator gives its stripped self. */
  lemma SplitOnSepTrivialCases(text: Option<string>, sep: string)
    requires |Strip(sep)| > 0
    ensures text.None? || text == Some("") ==> SplitOnSepSpec(text, sep) == []
    ensures text.Some? && text.value != "" && !Contains(Strip(text.value), Strip(sep))
            ==> SplitOnSepSpec(text, sep) == [Strip(text.value)]
  {
    if text.Some? && text.value != "" && !Contains(Strip(text.value), Strip(sep)) {
      var t := Strip(text.value);
      SepSplitNoMatch(t, Strip(sep), 0, 0);
      assert !SepInParens(t, Strip(sep));
    }
  }

  /** The comma splitter: no text gives no parts, and a text without ',' gives its
      stripped self. */
  lemma CommaSplit(text: Option<string>)
    ensures text.None? || text == Some("") ==> SplitOnCommas(text) == []
    ensures text.Some? && text.value != "" && !Contains(Strip(text.value), ",") ==>
              SplitOnCommas(text) == [Strip(text.value)]
  {
    StrippedSep(", ", ",");
    SplitOnSepTrivialCases(text, ", ");
  }

  /** The pipe splitter: no text gives no parts, and a text without '|' gives its
      stripped self. */
  lemma PipeSplit(text: Option<string>)
    ensures text.None? || text == Some("") ==> SplitOnPipes(text) == []
    ensures text.Some? && text.value != "" && !Contains(Strip(text.value), "|") ==>
              SplitOnPipes(text) == [Strip(text.value)]
  {
    StrippedSep(" | ", "|");
    SplitOnSepTrivialCases(text, " | ");
  }

  /** The semicolon splitter: no text gives no parts, and a text without ';' gives its
      stripped self. */
  lemma SemicolonSplit(text: Option<string>)
    ensures text.None? || text == Some("") ==> SplitOnSemicolons(text) == []
    ensures text.Some? && text.value != "" && !Contains(Strip(text.value), ";") ==>
              SplitOnSemicolons(text) == [Strip(text.value)]
  {
    StrippedSep("; ", ";");
    SplitOnSepTrivialCases(text, "; ");
  }

  /** A separator of one non-space character with optional single spaces around it strips
      to that character. */
  lemma StrippedSep(sep: string, core: string)
    requires |core| == 1 && !IsSpace(core[0])
    requires sep == core + " " || sep == " " + core + " "
    ensures Strip(sep) == core
  {
    StrippedTrailing(core);
    if sep != core + " " {
      assert LStrip(sep) == LStrip(sep[1..]);
      assert sep[1..] == core + " ";
    }
  }

  lemma StrippedTrailing(core: string)
    requires |core| == 1 && !IsSpace(core[0])
    ensures LStrip(core + " ") == core + " " && RStrip(core + " ") == core
  {
    var sep := core + " ";
    assert IsSpace(sep[1]);
    assert sep[..1] == core;
    assert RStrip(sep) == RStrip(core);
  }

  /** Joining `a + b` puts one separator between the joins of `a` and `b`. */
  lemma {:induction false} JoinConcat(a: seq<string>, b: seq<string>, sep: string)
    requires |a| > 0 && |b| > 0
    ensures Join(a + b, sep) == Join(a, sep) + sep + Join(b, sep)
    decreases |a|
  {
    if |a| == 1 {
      assert (a + b)[1..] == b;
    } else {
      assert (a + b)[1..] == a[1..] + b;
      JoinConcat(a[1..], b, sep);
    }
  }

  /** Gluing two neighbouring parts with `sep` leaves the joined text unchanged. */
  lemma GlueKeepsJoin(pre: seq<string>, x: string, y: string, post: seq<string>, sep: string)
    ensures Join(pre + [x + sep + y] + post, sep) == Join(pre + [x, y] + post, sep)
  {
    var g := pre + [x + sep + y];
    var h := pre + [x, y];
    if |pre| == 0 {
      assert g == [x + sep + y] && h == [x, y];
      assert h[1..] == [y];
    } else {
      JoinConcat(pre, [x + sep + y], sep);
      JoinConcat(pre, [x, y], sep);
      assert [x, y][1..] == [y];
    }
    if |post| > 0 {
      JoinConcat(g, post, sep);
      JoinConcat(h, post, sep);
    } else {
      assert g + post == g && h + post == h;
    }
  }

  /** Remerging never changes the text the parts join to. */
  lemma {:induction false} RemergeKeepsJoin(parts: seq<string>, sep: string, merged: seq<string>, wait: bool)
    requires wait ==> |merged| > 0
    ensures Join(RemergeFrom(parts, sep, merged, wait), sep) == Join(merged + parts, sep)
    decreases |parts|
  {
    if |parts| == 0 {
      assert merged + parts == merged;
    } else {
      var elem := parts[0];
      if wait {
        var pre := merged[..|merged| - 1];
        var last := merged[|merged| - 1];
        var glued := pre + [last + sep + elem];
        RemergeKeepsJoin(parts[1..], sep, glued, !(')' in elem && '(' !in elem));
        GlueKeepsJoin(pre, last, elem, parts[1..], sep);
        assert glued + parts[1..] == pre + [last + sep + elem] + parts[1..];
        assert merged + parts == pre + [last, elem] + parts[1..];
      } else {
        RemergeKeepsJoin(parts[1..], sep, merged + [elem], '(' in elem && ')' !in elem);
        assert merged + [elem] + parts[1..] == merged + parts;
      }
    }
  }

  /** split_on_sep's remerging only re-glues neighbouring parts with the full separator. */
  lemma RemergePreservesText(parts: seq<string>, sep: string)
    ensures Join(Remerge(parts, sep), sep) == Join(parts, sep)
    ensures |Remerge(parts, sep)| <= |parts|
  {
    RemergeKeepsJoin(parts, sep, [], false);
    assert [] + parts == parts;
  }

  // ----- format_compact_string_list -----

  /** The lines still to come, given the line being filled (which ends with `sep`). */
  function CompactLines(items: seq<string>, line: string, prefix: string, sep: string, maxLineLength: int): (r: seq<string>)
    ensures |r| >= 1
    decreases |items|
  {
    if |items| == 0 then [line]
    else if |line| + |items[0]| + |sep| < maxLineLength then
      CompactLines(items[1..], line + " " + items[0] + sep, prefix, sep, maxLineLength)
    else [line] + CompactLines(items[1..], prefix + items[0] + sep, prefix, sep, maxLineLength)
  }

  /** `line[:-n]` for the `n` = len(sep) of the source: with n == 0 Python yields "". */
  function DropTail(line: string, n: nat): string
  {
    if n == 0 || n > |line| then [] else line[..|line| - n]
  }

  /** The lines of format_compact_string_list, the trailing separator dropped from the
      last one. */
  function CompactLineList(strlist: seq<string>, prefix: string, sep: string, maxLineLength: int): seq<string>
  {
    if |strlist| == 0 then []
    else
      var lines := CompactLines(strlist[1..], prefix + strlist[0] + sep, prefix, sep, maxLineLength);
      lines[..|lines| - 1] + [DropTail(lines[|lines| - 1], |sep|)]
  }

  /** Every line CompactLines produces starts with `prefix` and ends with `sep`. */
  lemma {:induction false} CompactLinesShape(items: seq<string>, line: string, prefix: string, sep: string, maxLineLength: int)
    requires prefix <= line && |prefix| + |sep| <= |line| && line[|line| - |sep|..] == sep
    ensures forall k :: 0 <= k < |CompactLines(items, line, prefix, sep, maxLineLength)| ==>
      var l := CompactLines(items, line, prefix, sep, maxLineLength)[k];
      prefix <= l && |prefix| + |sep| <= |l| && l[|l| - |sep|..] == sep
    decreases |items|
  {
    if |items| > 0 {
      var next := if |line| + |items[0]| + |sep| < maxLineLength then line + " " + items[0] + sep
                  else prefix + items[0] + sep;
      assert next[..|prefix|] == prefix;
      assert next[|next| - |sep|..] == sep;
      CompactLinesShape(items[1..], next, prefix, sep, maxLineLength);
    }
  }

  /** With a non-empty separator every line starts with `prefix`, and there are lines
      exactly when the list is non-empty. */
  lemma CompactLinesStartWithPrefix(strlist: seq<string>, prefix: string, sep: string, maxLineLength: int)
    requires |sep| > 0
    ensures |CompactLineList(strlist, prefix, sep, maxLineLength)| == 0 <==> |strlist| == 0
    ensures forall k :: 0 <= k < |CompactLineList(strlist, prefix, sep, maxLineLength)| ==>
      prefix <= CompactLineList(strlist, prefix, sep, maxLineLength)[k]
  {
    if |strlist| > 0 {
      var first := prefix + strlist[0] + sep;
      assert first[..|prefix|] == prefix;
      assert first[|first| - |sep|..] == sep;
      CompactLinesShape(strlist[1..], first, prefix, sep, maxLineLength);
      var lines := CompactLines(strlist[1..], first, prefix, sep, maxLineLength);
      var last := lines[|lines| - 1];
      assert DropTail(last, |sep|)[..|prefix|] == last[..|prefix|];
    }
  }

  /** The line-filling loop of format_compact_string_list; `rest` is the caller's list
      after its first item was popped. */
  method FormatCompactStringList(strlist: seq<string>, prefix: string, sep: string, maxLineLength: int)
    returns (r: string, rest: seq<string>)
    ensures r == Join(CompactLineList(strlist, prefix, sep, maxLineLength), "\n")
    ensures rest == (if |strlist| == 0 then strlist else strlist[1..])
  {
    if |strlist| == 0 {
      return "", strlist;
    }
    rest := strlist[1..];
    var resultArr: seq<string> := [];
    var line := prefix + strlist[0] + sep;
    ghost var all := CompactLines(rest, line, prefix, sep, maxLineLength);
    for k := 0 to |rest|
      invariant resultArr + CompactLines(rest[k..], line, prefix, sep, maxLineLength) == all
    {
      var item := rest[k];
      assert rest[k..][0] == item && rest[k..][1..] == rest[k + 1..];
      if |line| + |item| + |sep| < maxLineLength {
        line := line + " " + item + sep;
      } else {
        resultArr := resultArr + [line];
        line := prefix + item + sep;
      }
    }
    assert all == resultArr + [line];
    assert all[..|all| - 1] == resultArr;
    resultArr := resultArr + [DropTail(line, |sep|)];
    r := Join(resultArr, "\n");
  }
}
