// Left-to-right substitution in the manner of Python's `re.sub` / `re.subn`, for the
// fixed-shape patterns of the scripts. A pattern is given as a matcher that, at index i of
// the ORIGINAL string, either fails or reports how many characters it consumes and what
// replaces them; look-behind and look-ahead read the original string, as in `re`.
module Scan {
  import opened Wrappers
  import Text

  /** `\w` of Python's `re`: ASCII letters, digits and '_'; beyond ASCII, any character from
      U+00C0 on that is neither whitespace nor '×' or '÷' (an approximation of Unicode's
      alphanumeric classes). */
  predicate IsWordChar(c: char)
  {
    'a' <= c <= 'z' || 'A' <= c <= 'Z' || '0' <= c <= '9' || c == '_'
    || (c >= '\U{00C0}' && c != '\U{00D7}' && c != '\U{00F7}' && !Text.IsSpace(c))
  }

  /** `\b`: a word character on exactly one side of position `i`. */
  predicate WordBoundary(s: string, i: nat)
  {
    (0 < i <= |s| && IsWordChar(s[i - 1])) != (i < |s| && IsWordChar(s[i]))
  }

  /** The character at `i` exists and belongs to `cs` (a character class `[...]`). */
  predicate At(s: string, i: nat, cs: string)
  {
    i < |s| && s[i] in cs
  }

  /** The character at `i` exists and is `c`. */
  predicate Is(s: string, i: nat, c: char)
  {
    i < |s| && s[i] == c
  }

  datatype Hit = Hit(len: nat, out: string)

  type Matcher = (string, nat) -> Option<Hit>

  /** The hit of `m` at `i`, if it consumes at least one character within `s`. */
  function HitAt(s: string, m: Matcher, i: nat): Option<Hit>
  {
    match m(s, i)
    case Some(h) => if 1 <= h.len && i + h.len <= |s| then Some(h) else None
    case None => None
  }

  /** `re.sub` from index `i` onwards. */
  function SubFrom(s: string, m: Matcher, i: nat): string
    decreases |s| - i
  {
    if i >= |s| then []
    else
      match HitAt(s, m, i)
      case Some(h) => h.out + SubFrom(s, m, i + h.len)
      case None => [s[i]] + SubFrom(s, m, i + 1)
  }

  /** The number of replacements `re.subn` reports from index `i` onwards. */
  function CountFrom(s: string, m: Matcher, i: nat): nat
    decreases |s| - i
  {
    if i >= |s| then 0
    else
      match HitAt(s, m, i)
      case Some(h) => 1 + CountFrom(s, m, i + h.len)
      case None => CountFrom(s, m, i + 1)
  }

  function Sub(s: string, m: Matcher): string { SubFrom(s, m, 0) }

  function Count(s: string, m: Matcher): nat { CountFrom(s, m, 0) }

  /** `re.sub(..., count=1)`: only the leftmost match is replaced. */
  function SubFirstFrom(s: string, m: Matcher, i: nat): string
    decreases |s| - i
  {
    if i >= |s| then []
    else
      match HitAt(s, m, i)
      case Some(h) => h.out + s[i + h.len..]
      case None => [s[i]] + SubFirstFrom(s, m, i + 1)
  }

  /** `re.search(...) is not None` for a matcher. */
  predicate SearchFrom(s: string, m: Matcher, i: nat)
    decreases |s| - i
  {
    i < |s| && (HitAt(s, m, i).Some? || SearchFrom(s, m, i + 1))
  }

  /** With no replacement reported, the text is left as it was. */
  lemma {:induction false} NoCountNoChange(s: string, m: Matcher, i: nat)
    requires i <= |s| && CountFrom(s, m, i) == 0
    ensures SubFrom(s, m, i) == s[i..]
    ensures forall j :: i <= j < |s| ==> HitAt(s, m, j).None?
    decreases |s| - i
  {
    if i < |s| {
      NoCountNoChange(s, m, i + 1);
      assert s[i..] == [s[i]] + s[i + 1..];
    }
  }

  /** When the matcher fires nowhere, substitution is the identity. */
  lemma {:induction false} NoHitNoChange(s: string, m: Matcher, i: nat)
    requires i <= |s|
    requires forall j :: i <= j < |s| ==> m(s, j).None?
    ensures SubFrom(s, m, i) == s[i..] && CountFrom(s, m, i) == 0
    decreases |s| - i
  {
    if i < |s| {
      NoHitNoChange(s, m, i + 1);
      assert s[i..] == [s[i]] + s[i + 1..];
    }
  }

  /** Where the matcher fires nowhere in `[i, k)`, that stretch is copied as it is. */
  lemma {:induction false} CopiedUntil(s: string, m: Matcher, i: nat, k: nat)
    requires i <= k <= |s|
    requires forall j :: i <= j < k ==> HitAt(s, m, j).None?
    ensures SubFrom(s, m, i) == s[i..k] + SubFrom(s, m, k)
    decreases k - i
  {
    if i < k {
      MissCopies(s, m, i);
      CopiedUntil(s, m, i + 1, k);
      ConsSlice(s, i, k, SubFrom(s, m, k));
    }
  }

  /** `[s[i]] + (s[i + 1..k] + x) == s[i..k] + x` */
  lemma ConsSlice(s: string, i: nat, k: nat, x: string)
    requires i < k <= |s|
    ensures [s[i]] + (s[i + 1..k] + x) == s[i..k] + x
  {
    assert s[i..k] == [s[i]] + s[i + 1..k];
  }

  /** Where the matcher does not fire, the character is copied. */
  lemma MissCopies(s: string, m: Matcher, i: nat)
    requires i < |s| && HitAt(s, m, i).None?
    ensures SubFrom(s, m, i) == [s[i]] + SubFrom(s, m, i + 1)
  {
  }

  /** A character that neither the text (from `i`) nor any replacement holds stays out. */
  lemma {:induction false} SubKeepsAbsent(s: string, m: Matcher, i: nat, c: char)
    requires forall j :: i <= j < |s| ==> s[j] != c
    requires forall j :: i <= j < |s| && HitAt(s, m, j).Some? ==> c !in HitAt(s, m, j).value.out
    ensures c !in SubFrom(s, m, i)
    decreases |s| - i
  {
    if i < |s| {
      match HitAt(s, m, i)
      case Some(h) => SubKeepsAbsent(s, m, i + h.len, c);
      case None => SubKeepsAbsent(s, m, i + 1, c);
    }
  }

  /** When no replacement is longer than the text it replaces, substitution never lengthens
      the text. */
  lemma {:induction false} SubNoLonger(s: string, m: Matcher, i: nat)
    requires i <= |s|
    requires forall j :: i <= j < |s| && HitAt(s, m, j).Some? ==> |HitAt(s, m, j).value.out| <= HitAt(s, m, j).value.len
    ensures |SubFrom(s, m, i)| <= |s| - i
    decreases |s| - i
  {
    if i < |s| {
      match HitAt(s, m, i)
      case Some(h) => SubNoLonger(s, m, i + h.len);
      case None => SubNoLonger(s, m, i + 1);
    }
  }

  /** A non-empty replacement at the first position keeps a non-empty text non-empty. */
  lemma SubKeepsNonEmpty(s: string, m: Matcher)
    requires |s| > 0
    requires HitAt(s, m, 0).Some? ==> |HitAt(s, m, 0).value.out| > 0
    ensures |Sub(s, m)| > 0
  {
  }
}
