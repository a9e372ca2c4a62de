// Python's `str` operations that the scripts rely on, defined on `seq<char>`.
module Text {

  /** Python's `str.isspace()` on one character. */
  predicate IsSpace(c: char)
  {
    c == ' ' || '\t' <= c <= '\r' || '\U{001C}' <= c <= '\U{001F}' || c == '\U{0085}'
    || c == '\U{00A0}' || c == '\U{1680}' || '\U{2000}' <= c <= '\U{200A}' || c == '\U{2028}'
    || c == '\U{2029}' || c == '\U{202F}' || c == '\U{205F}' || c == '\U{3000}'
  }

  predicate NoSpace(s: string) { forall i :: 0 <= i < |s| ==> !IsSpace(s[i]) }

  lemma NoSpaceNoBlank(s: string)
    requires NoSpace(s)
    ensures ' ' !in s
  {
    assert IsSpace(' ');
  }

  /** `s.lstrip()` */
  function LStrip(s: string): (r: string)
    ensures |r| <= |s| && r == s[|s| - |r|..]
    ensures r == [] || !IsSpace(r[0])
    ensures forall i :: 0 <= i < |s| - |r| ==> IsSpace(s[i])
  {
    if |s| > 0 && IsSpace(s[0]) then LStrip(s[1..]) else s
  }

  /** `s.rstrip()` */
  function RStrip(s: string): (r: string)
    ensures r <= s
    ensures r == [] || !IsSpace(r[|r| - 1])
    ensures forall i :: |r| <= i < |s| ==> IsSpace(s[i])
  {
    if |s| > 0 && IsSpace(s[|s| - 1]) then RStrip(s[..|s| - 1]) else s
  }

  /** `s.strip()` */
  function Strip(s: string): (r: string)
    ensures |r| <= |s|
    ensures r == [] || (!IsSpace(r[0]) && !IsSpace(r[|r| - 1]))
  {
    RStrip(LStrip(s))
  }

  /** The length of the longest prefix of `s` free of whitespace. */
  function NonSpaceRun(s: string): (k: nat)
    ensures k <= |s| && NoSpace(s[..k]) && (k == |s| || IsSpace(s[k]))
    ensures |s| > 0 && !IsSpace(s[0]) ==> k > 0
  {
    if |s| == 0 || IsSpace(s[0]) then 0
    else
      var k := NonSpaceRun(s[1..]);
      assert s[..k + 1] == [s[0]] + s[1..][..k];
      k + 1
  }

  /** Every part is non-empty and free of whitespace. */
  predicate AllWords(parts: seq<string>)
  {
    forall i :: 0 <= i < |parts| ==> |parts[i]| > 0 && NoSpace(parts[i])
  }

  lemma AllWordsCons(w: string, rest: seq<string>)
    requires |w| > 0 && NoSpace(w) && AllWords(rest)
    ensures AllWords([w] + rest)
  {
    var r := [w] + rest;
    forall i | 0 <= i < |r| ensures |r[i]| > 0 && NoSpace(r[i]) {
      if i > 0 {
        assert r[i] == rest[i - 1];
      }
    }
  }

  /** `s.split()`: the maximal runs of non-whitespace characters, in order. */
  function SplitWs(s: string): (r: seq<string>)
    ensures AllWords(r)
    decreases |s|
  {
    var t := LStrip(s);
    if t == [] then []
    else
      var k := NonSpaceRun(t);
      var rest := SplitWs(t[k..]);
      AllWordsCons(t[..k], rest);
      [t[..k]] + rest
  }

  /** `sep.join(parts)` */
  function Join(parts: seq<string>, sep: string): string
  {
    if |parts| == 0 then ""
    else if |parts| == 1 then parts[0]
    else parts[0] + sep + Join(parts[1..], sep)
  }

  /** `''.join(parts)` */
  function Concat(parts: seq<string>): string
  {
    if |parts| == 0 then "" else parts[0] + Concat(parts[1..])
  }

  /** The text contains no whitespace at either end and, inside, only single spaces, each
      between two non-whitespace characters. */
  predicate SingleSpaced(r: string)
  {
    (r == [] || (!IsSpace(r[0]) && !IsSpace(r[|r| - 1])))
    && forall i :: 0 <= i < |r| && IsSpace(r[i]) ==>
         r[i] == ' ' && 0 < i < |r| - 1 && !IsSpace(r[i - 1]) && !IsSpace(r[i + 1])
  }

  /** Joining non-empty whitespace-free parts with single spaces gives a single-spaced text. */
  lemma {:induction false} JoinSingleSpaced(parts: seq<string>)
    requires forall k :: 0 <= k < |parts| ==> |parts[k]| > 0 && NoSpace(parts[k])
    ensures SingleSpaced(Join(parts, " "))
    decreases |parts|
  {
    if |parts| >= 2 {
      var rest := Join(parts[1..], " ");
      JoinSingleSpaced(parts[1..]);
      JoinNonEmpty(parts[1..], " ");
      var r := parts[0] + " " + rest;
      var p := |parts[0]|;
      assert Join(parts, " ") == r;
      assert forall i :: 0 <= i < p ==> r[i] == parts[0][i];
      assert forall i :: p < i < |r| ==> r[i] == rest[i - p - 1];
    }
  }

  /** The join of non-empty parts is non-empty. */
  lemma {:induction false} JoinNonEmpty(parts: seq<string>, sep: string)
    requires |parts| > 0 && |parts[0]| > 0
    ensures |Join(parts, sep)| > 0
  {
  }

  /** `' '.join(text.strip().split())` (util.normalize). */
  function Normalize(text: string): string
  {
    Join(SplitWs(Strip(text)), " ")
  }

  /** normalize: no whitespace at the ends and single inner spaces. */
  lemma NormalizeIsSingleSpaced(text: string)
    ensures SingleSpaced(Normalize(text))
  {
    SplitJoinSingleSpaced(Strip(text));
  }

  lemma SplitJoinSingleSpaced(s: string)
    ensures SingleSpaced(Join(SplitWs(s), " "))
  {
    JoinSingleSpaced(SplitWs(s));
  }

  /** `sub` occurs in `s` at index `i`. */
  predicate OccursAt(s: string, sub: string, i: int)
  {
    0 <= i && i + |sub| <= |s| && s[i..i + |sub|] == sub
  }

  /** The first index at or after `i` where `sub` occurs, or -1. */
  function FindFrom(s: string, sub: string, i: nat): (r: int)
    ensures r == -1 || (i <= r && OccursAt(s, sub, r))
    ensures r >= 0 ==> forall j :: i <= j < r ==> !OccursAt(s, sub, j)
    ensures r == -1 ==> forall j :: i <= j ==> !OccursAt(s, sub, j)
    decreases |s| - i
  {
    if i + |sub| > |s| then -1
    else if s[i..i + |sub|] == sub then i
    else FindFrom(s, sub, i + 1)
  }

  /** `s.find(sub)` */
  function Find(s: string, sub: string): (r: int)
    ensures r == -1 || OccursAt(s, sub, r)
    ensures r >= 0 ==> forall j :: 0 <= j < r ==> !OccursAt(s, sub, j)
    ensures r == -1 ==> forall j :: !OccursAt(s, sub, j)
  {
    FindFrom(s, sub, 0)
  }

  /** `s.find(sub, start)`, where a negative `start` counts from the end. */
  function FindStart(s: string, sub: string, start: int): int
  {
    if start < 0 then FindFrom(s, sub, if |s| + start < 0 then 0 else |s| + start)
    else FindFrom(s, sub, start)
  }

  /** Some character of `w` belongs to `cs` (a search for the class `[cs]`). */
  predicate HasAny(w: string, cs: string)
  {
    exists k :: 0 <= k < |w| && w[k] in cs
  }

  /** `s.endswith(suffix)` */
  predicate EndsWith(s: string, suffix: string)
  {
    |suffix| <= |s| && s[|s| - |suffix|..] == suffix
  }

  /** `s.strip(c)` for a single character `c`. */
  function StripChar(s: string, c: char): (r: string)
    ensures |r| <= |s|
    ensures |r| > 0 ==> r[0] != c && r[|r| - 1] != c
    decreases |s|
  {
    if |s| > 0 && s[0] == c then StripChar(s[1..], c)
    else if |s| > 0 && s[|s| - 1] == c then StripChar(s[..|s| - 1], c)
    else s
  }

  /** `s.translate(str.maketrans(src, dst, del))`: a character of `del` is dropped, one of
      `src` becomes the character of `dst` at its last position in `src` (the later pair of
      the table wins), any other character stays. */
  function TranslateChar(c: char, src: string, dst: string, del: string): (r: string)
    requires |src| == |dst|
    ensures |r| <= 1
  {
    if c in del then ""
    else
      var k := RFindChar(src, c);
      if k >= 0 then [dst[k]] else [c]
  }

  function Translate(s: string, src: string, dst: string, del: string): (r: string)
    requires |src| == |dst|
    ensures |r| <= |s|
  {
    if |s| == 0 then "" else TranslateChar(s[0], src, dst, del) + Translate(s[1..], src, dst, del)
  }

  /** After translation no character is left that the table deletes or maps, unless some
      other character is mapped to it. */
  lemma {:induction false} TranslateRemoves(s: string, src: string, dst: string, del: string, c: char)
    requires |src| == |dst|
    requires (c in del || c in src) && c !in dst
    ensures c !in Translate(s, src, dst, del)
    decreases |s|
  {
    if |s| > 0 {
      TranslateRemoves(s[1..], src, dst, del, c);
      var k := RFindChar(src, s[0]);
      assert c !in TranslateChar(s[0], src, dst, del) by {
        if s[0] !in del && k < 0 {
          assert s[0] !in src;
        }
      }
    }
  }

  /** `sub in s` */
  predicate Contains(s: string, sub: string)
  {
    Find(s, sub) >= 0
  }

  /** A one-character string occurs in `s` exactly when the character does. */
  lemma ContainsChar(s: string, c: char)
    ensures Contains(s, [c]) <==> c in s
  {
    if c in s {
      var i :| 0 <= i < |s| && s[i] == c;
      assert OccursAt(s, [c], i);
    }
    if Contains(s, [c]) {
      var i := Find(s, [c]);
      assert s[i] == s[i..i + 1][0];
    }
  }

  /** `s.rfind(c)` for a single character. */
  function RFindChar(s: string, c: char): (r: int)
    ensures -1 <= r < |s|
    ensures r >= 0 ==> s[r] == c && forall j :: r < j < |s| ==> s[j] != c
    ensures r == -1 ==> c !in s
  {
    if |s| == 0 then -1
    else if s[|s| - 1] == c then |s| - 1
    else RFindChar(s[..|s| - 1], c)
  }

  /** `s.replace(pat, rep)`: every non-overlapping occurrence, from left to right. */
  function Replace(s: string, pat: string, rep: string): string
    requires |pat| > 0
    decreases |s|
  {
    if |s| < |pat| then s
    else if s[..|pat|] == pat then rep + Replace(s[|pat|..], pat, rep)
    else [s[0]] + Replace(s[1..], pat, rep)
  }

  /** `s.count(sub)` for a non-empty `sub`: non-overlapping occurrences from left to right. */
  function CountSub(s: string, sub: string): nat
    requires |sub| > 0
    decreases |s|
  {
    if |s| < |sub| then 0
    else if s[..|sub|] == sub then 1 + CountSub(s[|sub|..], sub)
    else CountSub(s[1..], sub)
  }

  /** `s.count(c)` for one character. */
  function CountChar(s: string, c: char): nat
  {
    if |s| == 0 then 0 else (if s[0] == c then 1 else 0) + CountChar(s[1..], c)
  }

  /** `s.split(sep)` with an explicit, non-empty separator. */
  function Split(s: string, sep: string): (r: seq<string>)
    requires |sep| > 0
    ensures |r| >= 1
    decreases |s|
  {
    var i := Find(s, sep);
    if i < 0 then [s] else [s[..i]] + Split(s[i + |sep|..], sep)
  }

  /** `s.split(sep, 1)`: the text before the first `sep` and, when there is one, the rest. */
  function SplitOnce(s: string, sep: string): (r: seq<string>)
    requires |sep| > 0
    ensures 1 <= |r| <= 2
    ensures |r| == 1 <==> !Contains(s, sep)
    ensures |r| == 1 ==> r[0] == s
    ensures |r| == 2 ==> s == r[0] + sep + r[1] && !Contains(r[0], sep)
  {
    var i := Find(s, sep);
    if i < 0 then [s]
    else
      assert s == s[..i] + sep + s[i + |sep|..];
      assert forall j :: !OccursAt(s[..i], sep, j) by {
        forall j | OccursAt(s[..i], sep, j) ensures false {
          assert s[..i][j..j + |sep|] == s[j..j + |sep|];
          assert OccursAt(s, sep, j);
        }
      }
      [s[..i], s[i + |sep|..]]
  }

  /** `str.lower()` on one character (ASCII and Latin-1 letters). */
  function LowerChar(c: char): char
  {
    if 'A' <= c <= 'Z' || ('\U{00C0}' <= c <= '\U{00DE}' && c != '\U{00D7}')
    then (c as int + 32) as char
    else c
  }

  /** `str.upper()` on one character (ASCII and Latin-1 letters). */
  function UpperChar(c: char): char
  {
    if 'a' <= c <= 'z' || ('\U{00E0}' <= c <= '\U{00FE}' && c != '\U{00F7}')
    then (c as int - 32) as char
    else c
  }

  /** `s.lower()` */
  function Lower(s: string): (r: string)
    ensures |r| == |s| && forall i :: 0 <= i < |s| ==> r[i] == LowerChar(s[i])
  {
    if |s| == 0 then [] else [LowerChar(s[0])] + Lower(s[1..])
  }

  /** Python's `a < b` on strings: lexicographic order of code points. */
  predicate Less(a: string, b: string)
    decreases |a|
  {
    if |a| == 0 then |b| > 0
    else if |b| == 0 then false
    else if a[0] != b[0] then a[0] < b[0]
    else Less(a[1..], b[1..])
  }

  predicate LessEq(a: string, b: string) { a == b || Less(a, b) }

  lemma {:induction false} LessIrreflexive(a: string)
    ensures !Less(a, a)
    decreases |a|
  {
    if |a| > 0 { LessIrreflexive(a[1..]); }
  }

  lemma {:induction false} LessTotal(a: string, b: string)
    ensures Less(a, b) || Less(b, a) || a == b
    ensures !(Less(a, b) && Less(b, a))
    decreases |a|
  {
    if |a| > 0 && |b| > 0 && a[0] == b[0] {
      LessTotal(a[1..], b[1..]);
      assert a == [a[0]] + a[1..] && b == [b[0]] + b[1..];
    }
  }

  lemma {:induction false} LessTransitive(a: string, b: string, c: string)
    requires Less(a, b) && Less(b, c)
    ensures Less(a, c)
    decreases |a|
  {
    if |a| > 0 && a[0] == b[0] && b[0] == c[0] {
      LessTransitive(a[1..], b[1..], c[1..]);
    }
  }

  /** Each string is at most the next one. */
  predicate SortedStrings(s: seq<string>)
  {
    forall i :: 0 < i < |s| ==> LessEq(s[i - 1], s[i])
  }

  function InsertString(x: string, s: seq<string>): (r: seq<string>)
    requires SortedStrings(s)
    ensures SortedStrings(r) && multiset(r) == multiset(s) + multiset{x}
    ensures |r| == |s| + 1 && (r[0] == x || (|s| > 0 && r[0] == s[0]))
  {
    if |s| == 0 || LessEq(x, s[0]) then [x] + s
    else
      LessTotal(x, s[0]);
      var rest := InsertString(x, s[1..]);
      assert s == [s[0]] + s[1..];
      [s[0]] + rest
  }

  /** Sorting strings (`list.sort()`, `sorted`) by `Less`. */
  function SortStrings(s: seq<string>): (r: seq<string>)
    ensures SortedStrings(r) && multiset(r) == multiset(s)
  {
    if |s| == 0 then []
    else
      assert s == [s[0]] + s[1..];
      InsertString(s[0], SortStrings(s[1..]))
  }

  // ----- Lemmas about Replace, CountChar and Join -----

  /** A one-character `pat` that `rep` does not contain disappears. */
  lemma {:induction false} ReplaceRemoves(s: string, c: char, rep: string)
    requires c !in rep
    ensures c !in Replace(s, [c], rep)
    decreases |s|
  {
    if |s| >= 1 {
      if s[..1] == [c] {
        ReplaceRemoves(s[1..], c, rep);
      } else {
        ReplaceRemoves(s[1..], c, rep);
        assert s[0] != c;
      }
    }
  }

  /** A character absent from `s` and from `rep` stays absent. */
  lemma {:induction false} ReplaceKeepsAbsent(s: string, pat: string, rep: string, d: char)
    requires |pat| > 0 && d !in s && d !in rep
    ensures d !in Replace(s, pat, rep)
    decreases |s|
  {
    if |s| >= |pat| {
      if s[..|pat|] == pat {
        ReplaceKeepsAbsent(s[|pat|..], pat, rep, d);
      } else {
        ReplaceKeepsAbsent(s[1..], pat, rep, d);
      }
    }
  }

  lemma {:induction false} CountCharAppend(a: string, b: string, c: char)
    ensures CountChar(a + b, c) == CountChar(a, c) + CountChar(b, c)
    decreases |a|
  {
    if |a| > 0 {
      assert (a + b)[0] == a[0] && (a + b)[1..] == a[1..] + b;
      CountCharAppend(a[1..], b, c);
      assert CountChar(a + b, c) == (if a[0] == c then 1 else 0) + CountChar(a[1..] + b, c);
    } else {
      assert a + b == b;
    }
  }

  /** The sum of the counts of `c` over `parts`. */
  function CountCharAll(parts: seq<string>, c: char): nat
  {
    if |parts| == 0 then 0 else CountChar(parts[0], c) + CountCharAll(parts[1..], c)
  }

  /** Joining with a separator that lacks `c` adds no `c`. */
  lemma {:induction false} CountCharJoin(parts: seq<string>, sep: string, c: char)
    requires c !in sep
    ensures CountChar(Join(parts, sep), c) == CountCharAll(parts, c)
    decreases |parts|
  {
    if |parts| == 0 {
    } else if |parts| == 1 {
    } else {
      CountCharJoin(parts[1..], sep, c);
      CountCharAppend(parts[0], sep, c);
      CountCharAppend(parts[0] + sep, Join(parts[1..], sep), c);
      CountCharAbsent(sep, c);
    }
  }

  lemma {:induction false} CountCharAbsent(s: string, c: char)
    requires c !in s
    ensures CountChar(s, c) == 0
    decreases |s|
  {
    if |s| > 0 { CountCharAbsent(s[1..], c); }
  }

  lemma {:induction false} CountCharPositive(s: string, c: char)
    ensures CountChar(s, c) > 0 <==> c in s
    decreases |s|
  {
    if |s| > 0 {
      CountCharPositive(s[1..], c);
      assert c in s <==> s[0] == c || c in s[1..];
    }
  }

  lemma {:induction false} CountCharAllSnoc(parts: seq<string>, last: string, c: char)
    ensures CountCharAll(parts + [last], c) == CountCharAll(parts, c) + CountChar(last, c)
    decreases |parts|
  {
    if |parts| == 0 {
      assert (parts + [last])[1..] == [];
    } else {
      assert (parts + [last])[1..] == parts[1..] + [last];
      CountCharAllSnoc(parts[1..], last, c);
    }
  }

  /** A pattern holding a character that `s` lacks does not occur: nothing is replaced. */
  lemma {:induction false} ReplaceMissing(s: string, pat: string, rep: string, c: char)
    requires |pat| > 0 && c in pat && c !in s
    ensures Replace(s, pat, rep) == s
    ensures CountSub(s, pat) == 0
    decreases |s|
  {
    if |s| >= |pat| {
      var i :| 0 <= i < |pat| && pat[i] == c;
      assert s[..|pat|][i] != pat[i];
      ReplaceMissing(s[1..], pat, rep, c);
      assert [s[0]] + s[1..] == s;
    }
  }

  lemma CountCharCons(c: char, t: string, d: char)
    ensures CountChar([c] + t, d) == (if c == d then 1 else 0) + CountChar(t, d)
  {
    assert ([c] + t)[1..] == t;
  }

  lemma ReplaceCharCons(x: char, t: string, c: char)
    ensures Replace([x] + t, [c], "") == (if x == c then "" else [x]) + Replace(t, [c], "")
  {
    assert ([x] + t)[..1] == [x] && ([x] + t)[1..] == t;
  }

  /** Deleting a character distributes over concatenation. */
  lemma {:induction false} ReplaceCharAppend(a: string, b: string, c: char)
    ensures Replace(a + b, [c], "") == Replace(a, [c], "") + Replace(b, [c], "")
    decreases |a|
  {
    if |a| > 0 {
      assert a + b == [a[0]] + (a[1..] + b);
      ReplaceCharCons(a[0], a[1..] + b, c);
      ReplaceCharAppend(a[1..], b, c);
      ReplaceCharCons(a[0], a[1..], c);
      assert [a[0]] + a[1..] == a;
    } else {
      assert a + b == b;
    }
  }

  /** A character that neither the text nor the target characters hold stays out. */
  lemma {:induction false} TranslateKeepsAbsent(s: string, src: string, dst: string, del: string, c: char)
    requires |src| == |dst| && c !in s && c !in dst
    ensures c !in Translate(s, src, dst, del)
    decreases |s|
  {
    if |s| > 0 {
      assert s[0] != c && c !in s[1..];
      TranslateKeepsAbsent(s[1..], src, dst, del, c);
    }
  }

  lemma SliceKeepsAbsent(s: string, c: char, i: nat, j: nat)
    requires i <= j <= |s| && c !in s
    ensures c !in s[i..j]
  {
    forall k | i <= k < j ensures s[k] != c { assert s[k] in s; }
  }

  lemma NoSpaceNotFound(p: string)
    requires ' ' !in p
    ensures Find(p, " ") == -1
  {
    forall j | 0 <= j < |p| ensures !OccursAt(p, " ", j) {
      assert p[j..j + 1][0] == p[j] && p[j] in p;
    }
  }

  /** The first space of `p + " " + rest` is the one after `p`. */
  lemma FirstSpace(p: string, rest: string)
    requires ' ' !in p
    ensures Find(p + " " + rest, " ") == |p|
  {
    var s := p + " " + rest;
    assert s[|p|..|p| + 1] == " ";
    assert OccursAt(s, " ", |p|);
    forall j | 0 <= j < |p| ensures !OccursAt(s, " ", j) {
      assert s[j..j + 1][0] == s[j] == p[j] && p[j] in p;
    }
  }

  /** Splitting a space-joined list at single spaces gives the list back when no part holds
      a space. */
  lemma {:induction false} SplitJoinSpace(parts: seq<string>)
    requires |parts| >= 1 && forall k :: 0 <= k < |parts| ==> ' ' !in parts[k]
    ensures Split(Join(parts, " "), " ") == parts
    decreases |parts|
  {
    var p := parts[0];
    if |parts| == 1 {
      NoSpaceNotFound(p);
    } else {
      var rest := Join(parts[1..], " ");
      var s := p + " " + rest;
      FirstSpace(p, rest);
      assert Join(parts, " ") == s;
      assert s[..|p|] == p && s[|p| + 1..] == rest;
      assert Split(s, " ") == [p] + Split(rest, " ");
      forall k | 0 <= k < |parts[1..]| ensures ' ' !in parts[1..][k] { assert parts[1..][k] == parts[k + 1]; }
      SplitJoinSpace(parts[1..]);
      assert parts == [p] + parts[1..];
    }
  }

  /** A non-empty replacement keeps a non-empty text non-empty. */
  lemma ReplaceKeepsNonEmpty(s: string, pat: string, rep: string)
    requires |pat| > 0 && |rep| > 0 && |s| > 0
    ensures |Replace(s, pat, rep)| > 0
  {
  }

  /** A text without the separator's first character holds no separator. */
  lemma NoSepNotFound(p: string, sep: string)
    requires |sep| > 0 && sep[0] !in p
    ensures Find(p, sep) == -1
  {
    forall j ensures !OccursAt(p, sep, j) {
      if 0 <= j && j + |sep| <= |p| {
        assert p[j..j + |sep|][0] == p[j] != sep[0];
      }
    }
  }

  /** The first separator of `p + sep + rest` is the one after `p`. */
  lemma FirstSep(p: string, sep: string, rest: string)
    requires |sep| > 0 && sep[0] !in p
    ensures Find(p + sep + rest, sep) == |p|
  {
    var s := p + sep + rest;
    assert s[|p|..|p| + |sep|] == sep;
    assert OccursAt(s, sep, |p|);
    forall j | 0 <= j < |p| ensures !OccursAt(s, sep, j) {
      assert s[j] == p[j] != sep[0];
      if j + |sep| <= |s| {
        assert s[j..j + |sep|][0] == s[j];
      }
    }
  }

  lemma SplitAfterFirst(p: string, sep: string, rest: string)
    requires |sep| > 0 && sep[0] !in p
    ensures Split(p + sep + rest, sep) == [p] + Split(rest, sep)
  {
    var s := p + sep + rest;
    FirstSep(p, sep, rest);
    assert s[..|p|] == p && s[|p| + |sep|..] == rest;
  }

  /** Splitting a joined list at the separator gives the list back when no part holds the
      separator's first character. */
  lemma {:induction false} SplitJoin(parts: seq<string>, sep: string)
    requires |sep| > 0 && |parts| >= 1
    requires forall k :: 0 <= k < |parts| ==> sep[0] !in parts[k]
    ensures Split(Join(parts, sep), sep) == parts
    decreases |parts|
  {
    var p := parts[0];
    if |parts| == 1 {
      NoSepNotFound(p, sep);
    } else {
      var rest := Join(parts[1..], sep);
      SplitAfterFirst(p, sep, rest);
      forall k | 0 <= k < |parts[1..]| ensures sep[0] !in parts[1..][k] {
        assert parts[1..][k] == parts[k + 1];
      }
      SplitJoin(parts[1..], sep);
      assert parts == [p] + parts[1..];
    }
  }

  /** A translation leaves a text alone when the table neither maps nor deletes any of its
      characters. */
  lemma {:induction false} TranslateIdentity(s: string, src: string, dst: string, del: string)
    requires |src| == |dst|
    requires forall k :: 0 <= k < |s| ==> s[k] !in src && s[k] !in del
    ensures Translate(s, src, dst, del) == s
    decreases |s|
  {
    if |s| > 0 {
      assert RFindChar(src, s[0]) == -1;
      TranslateIdentity(s[1..], src, dst, del);
      assert s == [s[0]] + s[1..];
    }
  }

  /** Each string is below the next one, so none repeats. */
  predicate StrictlySorted(s: seq<string>)
  {
    forall i :: 0 < i < |s| ==> Less(s[i - 1], s[i])
  }

  /** In a strictly sorted list every string is below every later one. */
  lemma {:induction false} StrictlySortedLess(s: seq<string>, i: nat, j: nat)
    requires StrictlySorted(s) && i < j < |s|
    ensures Less(s[i], s[j]) && s[i] != s[j]
    decreases j - i
  {
    if i + 1 < j {
      StrictlySortedLess(s, i, j - 1);
      LessTransitive(s[i], s[j - 1], s[j]);
    }
    LessIrreflexive(s[i]);
  }

  /** `m` is the least string of `s`. */
  predicate IsLeast(m: string, s: set<string>)
  {
    m in s && forall y :: y in s ==> LessEq(m, y)
  }

  lemma {:induction false} LeastExists(s: set<string>)
    requires s != {}
    ensures exists m :: IsLeast(m, s)
    decreases |s|
  {
    var x :| x in s;
    if s != {x} {
      var rest := s - {x};
      LeastExists(rest);
      var m :| IsLeast(m, rest);
      LessTotal(x, m);
      if Less(x, m) {
        forall y | y in s ensures LessEq(x, y) {
          if y != x && y != m {
            assert y in rest && LessEq(m, y);
            LessTransitive(x, m, y);
          }
        }
        assert IsLeast(x, s);
      } else {
        assert IsLeast(m, s);
      }
    } else {
      assert IsLeast(x, s);
    }
  }

  lemma LeastUnique(a: string, b: string, s: set<string>)
    requires IsLeast(a, s) && IsLeast(b, s)
    ensures a == b
  {
    LessTotal(a, b);
  }

  /** `sorted(s)` for a set of strings. */
  function SortedSet(s: set<string>): (r: seq<string>)
    ensures StrictlySorted(r)
    ensures forall x :: x in r <==> x in s
    ensures |r| == |s|
    decreases |s|
  {
    if s == {} then []
    else
      LeastExists(s);
      assert forall a, b :: IsLeast(a, s) && IsLeast(b, s) ==> a == b by {
        forall a, b | IsLeast(a, s) && IsLeast(b, s) ensures a == b { LeastUnique(a, b, s); }
      }
      var m :| IsLeast(m, s);
      var rest := SortedSet(s - {m});
      assert |rest| > 0 ==> rest[0] in s - {m};
      [m] + rest
  }
}
