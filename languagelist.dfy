// The language list of scripts/parselanguagelist.py: fragments and wikilinks cut out of
// wikitext, related languages combined into one entry, and the biggest languages split
// into a main list (at most two per language branch) and the rest.
module LanguageList {
  import opened Wrappers
  import opened Text

  // ----- Fragments of wikitext -----

  /** The occurrence of `sub` found from `i` on is found from `j` on as well when none
      starts in between. */
  lemma {:induction false} FindFromSkip(s: string, sub: string, i: nat, j: nat)
    requires i <= j && forall k :: i <= k < j ==> !OccursAt(s, sub, k)
    ensures FindFrom(s, sub, i) == FindFrom(s, sub, j)
    decreases j - i
  {
    if i < j {
      FindFromSkip(s, sub, i + 1, j);
    }
  }

  /** Searching `a + b` from inside `b` is searching `b`, shifted by `|a|`. */
  lemma {:induction false} FindFromShift(a: string, b: string, sub: string, k: nat)
    requires k <= |b|
    ensures FindFrom(a + b, sub, |a| + k) == if FindFrom(b, sub, k) < 0 then -1 else |a| + FindFrom(b, sub, k)
    decreases |b| - k
  {
    if k + |sub| <= |b| {
      assert (a + b)[|a| + k..|a| + k + |sub|] == b[k..k + |sub|];
      if b[k..k + |sub|] != sub {
        FindFromShift(a, b, sub, k + 1);
      }
    }
  }

  /** The text between `b.0` and `b.1` and the text after the end marker at `b.1`, each
      without surrounding whitespace. */
  function Cut(text: string, end: string, b: Option<(nat, nat)>): Option<(string, string)>
    requires b.Some? ==> b.value.0 <= b.value.1 && b.value.1 + |end| <= |text|
  {
    if b.None? then None else Some(StripPair(text[b.value.0..b.value.1], text[b.value.1 + |end|..]))
  }

  /** A fragment and the rest after it, each without surrounding whitespace. */
  function StripPair(fragment: string, rest: string): (string, string)
  {
    (Strip(fragment), Strip(rest))
  }

  /** `extract_fragment` as written: the end marker is searched from where the start
      marker begins, so it may be found inside it; Python's slice is then empty. */
  function FragmentAsWritten(text: string, start: string, end: string): Option<(string, string)>
  {
    Cut(text, end, BoundsAsWritten(text, start, end))
  }

  function BoundsAsWritten(text: string, start: string, end: string): (r: Option<(nat, nat)>)
    ensures r.Some? ==> r.value.0 <= r.value.1 && r.value.1 + |end| <= |text|
  {
    var si := Find(text, start);
    if si < 0 then None
    else
      var ei := FindFrom(text, end, si);
      if ei < 0 then None else Some((if si + |start| <= ei then si + |start| else ei, ei))
  }

  /** `extract_fragment` as documented: the stripped text between the first `start` and
      the first `end` after it, with the stripped rest after that `end`; None when either
      marker is missing. */
  function Fragment(text: string, start: string, end: string): Option<(string, string)>
  {
    Cut(text, end, Bounds(text, start, end))
  }

  /** Where the fragment begins and where the end marker after it is. */
  function Bounds(text: string, start: string, end: string): (r: Option<(nat, nat)>)
    ensures r.Some? ==> r.value.0 <= r.value.1 && r.value.1 + |end| <= |text|
  {
    var si := Find(text, start);
    if si < 0 then None
    else
      var ei := FindFrom(text, end, si + |start|);
      if ei < 0 then None else Some((si + |start|, ei))
  }

  lemma StripKeeps(s: string)
    requires |s| == 0 || (!IsSpace(s[0]) && !IsSpace(s[|s| - 1]))
    ensures Strip(s) == s
  {
  }

  lemma StripIdempotent(s: string)
    ensures Strip(Strip(s)) == Strip(s)
  {
    StripKeeps(Strip(s));
  }

  /** The fragment is found by the first start marker and the first end marker after it. */
  lemma FragmentAt(text: string, start: string, end: string, i: nat, j: nat)
    requires OccursAt(text, start, i) && forall k :: 0 <= k < i ==> !OccursAt(text, start, k)
    requires i + |start| <= j && OccursAt(text, end, j)
    requires forall k :: i + |start| <= k < j ==> !OccursAt(text, end, k)
    ensures Fragment(text, start, end) == Some(StripPair(text[i + |start|..j], text[j + |end|..]))
  {
    assert Find(text, start) == i;
    FindFromSkip(text, end, i + |start|, j);
    assert FindFrom(text, end, j) == j;
    BoundsOf(text, start, end, i, j);
    FragmentOfBounds(text, start, end, i + |start|, j);
  }

  lemma BoundsOf(text: string, start: string, end: string, i: nat, j: nat)
    requires Find(text, start) == i && FindFrom(text, end, i + |start|) == j >= 0
    ensures Bounds(text, start, end) == Some((i + |start|, j))
  {
  }

  lemma FragmentOfBounds(text: string, start: string, end: string, a: nat, b: nat)
    requires Bounds(text, start, end) == Some((a, b))
    ensures Fragment(text, start, end) == Some(StripPair(text[a..b], text[b + |end|..]))
  {
  }

  /** Without a start marker, or without an end marker after it, there is no fragment. */
  lemma FragmentMissing(text: string, start: string, end: string)
    requires (forall k :: !OccursAt(text, start, k))
             || (Find(text, start) >= 0 && forall k :: Find(text, start) + |start| <= k ==> !OccursAt(text, end, k))
    ensures Fragment(text, start, end).None?
  {
  }

  /** The text between two markers, when the marker characters are absent where they
      would be found first. */
  lemma Delimited(pre: string, start: string, mid: string, end: string, post: string)
    requires |start| > 0 && |end| > 0 && start[0] !in pre && end[0] !in mid
    ensures Fragment(pre + start + mid + end + post, start, end) == Some(StripPair(mid, post))
  {
    var text := pre + start + mid + end + post;
    var a: nat := |pre| + |start|;
    var b: nat := a + |mid|;
    DelimitedBounds(pre, start, mid, end, post);
    assert text[a..b] == mid;
    assert text[b + |end|..] == post;
    FragmentOfBounds(text, start, end, a, b);
  }

  lemma DelimitedBounds(pre: string, start: string, mid: string, end: string, post: string)
    requires |start| > 0 && |end| > 0 && start[0] !in pre && end[0] !in mid
    ensures Bounds(pre + start + mid + end + post, start, end) == Some((|pre| + |start|, |pre| + |start| + |mid|))
  {
    DelimitedStart(pre, start, mid, end, post);
    DelimitedEnd(pre, start, mid, end, post);
    BoundsOf(pre + start + mid + end + post, start, end, |pre|, |pre| + |start| + |mid|);
  }

  lemma DelimitedStart(pre: string, start: string, mid: string, end: string, post: string)
    requires |start| > 0 && start[0] !in pre
    ensures Find(pre + start + mid + end + post, start) == |pre|
  {
    assert pre + start + mid + end + post == pre + start + (mid + end + post);
    FirstSep(pre, start, mid + end + post);
  }

  lemma DelimitedEnd(pre: string, start: string, mid: string, end: string, post: string)
    requires |end| > 0 && end[0] !in mid
    ensures FindFrom(pre + start + mid + end + post, end, |pre| + |start|) == |pre| + |start| + |mid|
  {
    assert pre + start + mid + end + post == (pre + start) + (mid + end + post);
    FindFromShift(pre + start, mid + end + post, end, 0);
    FirstSep(mid, end, post);
  }

  /** When the end marker cannot begin inside the start marker, the code as written and
      the documented behaviour agree: so on every marker pair the scripts use. */
  lemma FragmentsAgree(text: string, start: string, end: string)
    requires |end| > 0 && end[0] !in start
    ensures FragmentAsWritten(text, start, end) == Fragment(text, start, end)
  {
    var si := Find(text, start);
    if si >= 0 {
      EndNotInsideStart(text, start, end, si);
      FindFromSkip(text, end, si, si + |start|);
    }
    SameSearch(text, start, end);
  }

  lemma EndNotInsideStart(text: string, start: string, end: string, si: nat)
    requires |end| > 0 && end[0] !in start && OccursAt(text, start, si)
    ensures forall k :: si <= k < si + |start| ==> !OccursAt(text, end, k)
  {
    forall k | si <= k < si + |start| ensures !OccursAt(text, end, k) {
      assert text[k] == text[si..si + |start|][k - si] == start[k - si];
      assert k + |end| <= |text| ==> text[k..k + |end|][0] == text[k];
    }
  }

  lemma SameSearch(text: string, start: string, end: string)
    requires Find(text, start) >= 0 ==> FindFrom(text, end, Find(text, start)) == FindFrom(text, end, Find(text, start) + |start|)
    ensures FragmentAsWritten(text, start, end) == Fragment(text, start, end)
  {
  }

  lemma AsWrittenAt(text: string, start: string, end: string, i: nat, j: nat)
    requires Find(text, start) == i && FindFrom(text, end, i) == j >= 0 && j < i + |start|
    ensures FragmentAsWritten(text, start, end) == Some(StripPair(text[j..j], text[j + |end|..]))
  {
    BoundsAsWrittenAt(text, start, end, i, j);
    AsWrittenOfBounds(text, start, end, j, j);
  }

  lemma BoundsAsWrittenAt(text: string, start: string, end: string, i: nat, j: nat)
    requires Find(text, start) == i && FindFrom(text, end, i) == j >= 0 && j < i + |start|
    ensures BoundsAsWritten(text, start, end) == Some((j, j))
  {
  }

  lemma AsWrittenOfBounds(text: string, start: string, end: string, a: nat, b: nat)
    requires BoundsAsWritten(text, start, end) == Some((a, b))
    ensures FragmentAsWritten(text, start, end) == Some(StripPair(text[a..b], text[b + |end|..]))
  {
  }

  lemma StripPairEmpty(fragment: string, rest: string)
    requires |fragment| == 0
    ensures StripPair(fragment, rest) == ("", Strip(rest))
  {
  }

  /** With the same one-character marker on both sides, the code as written finds the end
      marker where the start marker is: the fragment is always empty and the rest is all
      the text after the first marker. */
  lemma SameMarkerAsWritten(pre: string, m: char, rest: string)
    requires m !in pre
    ensures FragmentAsWritten(pre + [m] + rest, [m], [m]) == Some(("", Strip(rest)))
  {
    var text := pre + [m] + rest;
    FirstSep(pre, [m], rest);
    assert FindFrom(text, [m], |pre|) == |pre| by {
      assert text[|pre|..|pre| + 1] == [m];
    }
    AsWrittenAt(text, [m], [m], |pre|, |pre|);
    assert text[|pre| + 1..] == rest;
    StripPairEmpty(text[|pre|..|pre|], rest);
  }

  /** On "a-b-c" with '-' as both markers: the code as written gives ('', 'b-c') where the
      documented behaviour gives ('b', 'c'). */
  lemma FragmentOverlap(pre: string, mid: string, post: string)
    requires '-' !in pre && '-' !in mid
    ensures FragmentAsWritten(pre + "-" + mid + "-" + post, "-", "-") == Some(("", Strip(mid + "-" + post)))
    ensures Fragment(pre + "-" + mid + "-" + post, "-", "-") == Some(StripPair(mid, post))
  {
    assert pre + "-" + mid + "-" + post == pre + ['-'] + (mid + "-" + post);
    SameMarkerAsWritten(pre, '-', mid + "-" + post);
    Delimited(pre, "-", mid, "-", post);
  }

  // ----- Wikilinks -----

  /** The linked text, the link itself when it differs from the text, and the rest after
      the link; each None when the text has no link. */
  datatype Wikilink = Wikilink(text: Option<string>, link: Option<string>, rest: Option<string>)

  /** `extract_first_wikilink`; a link with several '|' fails to unpack into two parts. */
  function FirstWikilink(text: string): Result<Wikilink>
  {
    var f := Fragment(text, "[[", "]]");
    if f.Some? && '|' in f.value.0 then
      var parts := Split(f.value.0, "|");
      if |parts| == 2 then Ok(Wikilink(Some(parts[1]), Some(parts[0]), Some(f.value.1)))
      else Err("ValueError: too many values to unpack (expected 2)")
    else if f.Some? then Ok(Wikilink(Some(f.value.0), None, Some(f.value.1)))
    else Ok(Wikilink(None, None, None))
  }

  /** "[[link|text]]" gives the text, the link and the stripped rest. */
  lemma WikilinkPiped(pre: string, link: string, txt: string, post: string)
    requires '[' !in pre && ']' !in link && ']' !in txt && '|' !in link && '|' !in txt
    requires |link| > 0 && |txt| > 0 && !IsSpace(link[0]) && !IsSpace(txt[|txt| - 1])
    ensures FirstWikilink(pre + "[[" + link + "|" + txt + "]]" + post)
            == Ok(Wikilink(Some(txt), Some(link), Some(Strip(post))))
  {
    var text := pre + "[[" + link + "|" + txt + "]]" + post;
    FragmentPiped(pre, link, txt, post);
    PipeSplit(link, txt);
    PipedLink(text, link + "|" + txt, Strip(post));
  }

  lemma FragmentPiped(pre: string, link: string, txt: string, post: string)
    requires '[' !in pre && ']' !in link && ']' !in txt
    requires |link| > 0 && |txt| > 0 && !IsSpace(link[0]) && !IsSpace(txt[|txt| - 1])
    ensures Fragment(pre + "[[" + link + "|" + txt + "]]" + post, "[[", "]]") == Some((link + "|" + txt, Strip(post)))
  {
    var mid := link + "|" + txt;
    assert pre + "[[" + link + "|" + txt + "]]" + post == pre + "[[" + mid + "]]" + post;
    assert ']' !in mid;
    Delimited(pre, "[[", mid, "]]", post);
    StripKeeps(mid);
  }

  lemma PipeSplit(link: string, txt: string)
    requires '|' !in link && '|' !in txt
    ensures '|' in link + "|" + txt && Split(link + "|" + txt, "|") == [link, txt]
  {
    SplitJoin([link, txt], "|");
    assert Join([link, txt], "|") == link + "|" + txt;
    assert (link + "|" + txt)[|link|] == '|';
  }

  lemma PipedLink(text: string, frag: string, rest: string)
    requires Fragment(text, "[[", "]]") == Some((frag, rest)) && '|' in frag && |Split(frag, "|")| == 2
    ensures FirstWikilink(text) == Ok(Wikilink(Some(Split(frag, "|")[1]), Some(Split(frag, "|")[0]), Some(rest)))
  {
  }

  /** "[[text]]" gives the text, no link and the stripped rest. */
  lemma WikilinkPlain(pre: string, txt: string, post: string)
    requires '[' !in pre && ']' !in txt && '|' !in txt
    requires |txt| > 0 && !IsSpace(txt[0]) && !IsSpace(txt[|txt| - 1])
    ensures FirstWikilink(pre + "[[" + txt + "]]" + post) == Ok(Wikilink(Some(txt), None, Some(Strip(post))))
  {
    Delimited(pre, "[[", txt, "]]", post);
    StripKeeps(txt);
  }

  /** A text without "[[" has no link. */
  lemma NoWikilink(text: string)
    requires forall k :: !OccursAt(text, "[[", k)
    ensures FirstWikilink(text) == Ok(Wikilink(None, None, None))
  {
    FragmentMissing(text, "[[", "]]");
  }

  // ----- Lines and rows -----

  lemma NotContainsChar(s: string, c: char)
    requires !Contains(s, [c])
    ensures c !in s
  {
    forall k | 0 <= k < |s| ensures s[k] != c {
      assert s[k..k + 1] == [s[k]];
      assert s[k] == c ==> OccursAt(s, [c], k);
    }
  }

  /** `split_first_line_from_rest`: the stripped text split at its first line break. */
  function SplitFirstLine(text: string): (r: seq<string>)
    ensures 1 <= |r| <= 2 && '\n' !in r[0]
    ensures Join(r, "\n") == Strip(text)
  {
    var r := SplitOnce(Strip(text), "\n");
    NotContainsChar(r[0], '\n');
    r
  }

  /** The facts kept about a language. */
  datatype LanguageInfo = LanguageInfo(name: string, isoCode: string, family: string,
                                       branch: Option<string>, speakers: real,
                                       script: Option<string>, related: Option<string>)

  function HeaderRow(): seq<string>
  {
    ["Language", "ISO 639", "Family", "Branch", "Speakers (million)", "Script"]
  }

  /** `LanguageInfo.to_row`, given the speaker count as written by '{:g}'; a missing or
      empty branch is shown as '–', a missing script as ''. */
  function ToRow(l: LanguageInfo, speakersShown: string): (row: seq<string>)
    ensures |row| == |HeaderRow()|
    ensures row[3] == "–" <==> l.branch.None? || l.branch.value in {"", "–"}
    ensures row[5] == "" <==> l.script.None? || l.script.value == ""
  {
    [l.name, l.isoCode, l.family, if l.branch.Some? && l.branch.value != "" then l.branch.value else "–",
     speakersShown, if l.script.Some? then l.script.value else ""]
  }

  /** `name.split(maxsplit=1)`: the first word and, when more follows, the remainder
      without the whitespace before it. */
  function SplitFirstWord(name: string): (parts: seq<string>)
    ensures |parts| <= 2
  {
    var s := LStrip(name);
    if |s| == 0 then []
    else
      var k := NonSpaceRun(s);
      var rest := LStrip(s[k..]);
      if |rest| == 0 then [s[..k]] else [s[..k], rest]
  }

  /** `_postprocess_lang`: a leading "Standard" or "Iranian" is dropped from a name of
      two or more words. */
  function PostprocessLang(l: LanguageInfo): (r: LanguageInfo)
    ensures r == l.(name := r.name)
    ensures r.name != l.name ==> |SplitFirstWord(l.name)| == 2 && SplitFirstWord(l.name)[0] in {"Standard", "Iranian"}
  {
    var parts := SplitFirstWord(l.name);
    if |parts| >= 2 && (parts[0] == "Standard" || parts[0] == "Iranian") then l.(name := parts[1]) else l
  }

  /** "Standard German" becomes "German", "Iranian Persian" becomes "Persian". */
  lemma {:induction false} NonSpaceRunAll(s: string)
    requires NoSpace(s)
    ensures NonSpaceRun(s) == |s|
  {
    if |s| > 0 {
      NonSpaceRunAll(s[1..]);
    }
  }

  /** A word, one space and a remainder that starts with no whitespace split into the word
      and the remainder. */
  lemma FirstWordOf(w: string, rest: string)
    requires |w| > 0 && NoSpace(w) && |rest| > 0 && !IsSpace(rest[0])
    ensures SplitFirstWord(w + " " + rest) == [w, rest]
  {
    var s := w + " " + rest;
    assert LStrip(s) == s by { assert s[0] == w[0]; }
    assert NonSpaceRun(s) == |w| by {
      assert s[..|w|] == w;
      NonSpaceRunAll(w);
      assert s[|w|] == ' ';
      NonSpaceRunPrefix(s, |w|);
    }
    assert s[..|w|] == w;
    assert LStrip(s[|w|..]) == rest by {
      assert s[|w|..] == " " + rest;
      assert (" " + rest)[1..] == rest;
    }
  }

  lemma {:induction false} NonSpaceRunPrefix(s: string, k: nat)
    requires k < |s| && NoSpace(s[..k]) && IsSpace(s[k])
    ensures NonSpaceRun(s) == k
  {
    if k > 0 {
      assert s[1..][..k - 1] == s[..k][1..];
      assert s[1..][k - 1] == s[k];
      NonSpaceRunPrefix(s[1..], k - 1);
    }
  }

  /** "Standard German" becomes "German", "Iranian Persian" becomes "Persian". */
  lemma PrefixDropped(l: LanguageInfo, w: string, rest: string)
    requires w == "Standard" || w == "Iranian"
    requires |rest| > 0 && !IsSpace(rest[0]) && l.name == w + " " + rest
    ensures PostprocessLang(l).name == rest
  {
    assert NoSpace(w);
    FirstWordOf(w, rest);
  }

  /** A one-word name is left alone, "Standard" included. */
  lemma OneWordKept(l: LanguageInfo)
    requires NoSpace(l.name)
    ensures PostprocessLang(l) == l
  {
    var s := l.name;
    if |s| > 0 {
      assert LStrip(s) == s;
      NonSpaceRunAll(s);
      assert s[|s|..] == "";
    }
  }

  // ----- Combining related languages -----

  function Lookup(m: map<string, string>, k: string): Option<string>
  {
    if k in m then Some(m[k]) else None
  }

  /** A language with its 639-1 code when its 639-3 code has one, and with the script
      known for its code. */
  function Prepared(l: LanguageInfo, iso3to1: map<string, string>, scripts: map<string, string>): (r: LanguageInfo)
    ensures r == l.(isoCode := r.isoCode, script := r.script)
    ensures r.isoCode == (if l.isoCode in iso3to1 then iso3to1[l.isoCode] else l.isoCode)
    ensures r.isoCode in scripts ==> r.script == Some(scripts[r.isoCode])
  {
    var l1 := if l.isoCode in iso3to1 then l.(isoCode := iso3to1[l.isoCode]) else l;
    if l1.isoCode in scripts then l1.(script := Some(scripts[l1.isoCode])) else l1
  }

  /** Languages listed under several names and folded into one entry. */
  datatype Variety = Arabic | Punjabi | Plain

  function VarietyOf(name: string): Variety
  {
    if Contains(name, "Arabic") then Arabic else if Contains(name, "Punjabi") then Punjabi else Plain
  }

  /** The state of `_combine_related` after some languages. */
  datatype Combining = Combining(results: set<LanguageInfo>, handled: set<string>,
                                 arabic: Option<LanguageInfo>, punjabi: Option<LanguageInfo>)

  /** One turn of the loop of `_combine_related`, for the language listed as `name`. */
  function CombineStep(c: Combining, name: string, langdict: map<string, LanguageInfo>,
                       iso3to1: map<string, string>, scripts: map<string, string>): Combining
    requires name in langdict
  {
    var l := Prepared(langdict[name], iso3to1, scripts);
    if name in c.handled then c
    else if VarietyOf(name) == Arabic then
      if c.arabic.None? then
        c.(arabic := Some(l.(name := "Arabic", isoCode := "ar", related := None, script := Lookup(scripts, "ar"))))
      else c.(arabic := Some(c.arabic.value.(speakers := c.arabic.value.speakers + l.speakers)))
    else if VarietyOf(name) == Punjabi then
      if c.punjabi.None? then c.(punjabi := Some(l.(name := "Punjabi", isoCode := "pa", related := None)))
      else c.(punjabi := Some(c.punjabi.value.(speakers := c.punjabi.value.speakers + l.speakers)))
    else PlainStep(c, l, langdict, iso3to1)
  }

  /** A language that is neither Arabic nor Punjabi: it is combined with the language it
      names as related when that one is listed too, or with Malay. */
  function PlainStep(c: Combining, l: LanguageInfo, langdict: map<string, LanguageInfo>,
                     iso3to1: map<string, string>): Combining
  {
    if l.related.Some? && l.related.value != "" && l.related.value in langdict then
      var other := langdict[l.related.value];
      var otherCode := if other.isoCode in iso3to1 then iso3to1[other.isoCode] else other.isoCode;
      c.(handled := c.handled + {l.related.value},
         results := c.results + {l.(name := l.name + "/" + other.name, isoCode := l.isoCode + "/" + otherCode,
                                    speakers := l.speakers + other.speakers, related := None)})
    else if l.related == Some("Malay") then
      c.(results := c.results + {l.(name := l.name + "/Malay", isoCode := l.isoCode + "/ms", related := None)})
    else c.(results := c.results + {l})
  }

  predicate AllListed(names: seq<string>, langdict: map<string, LanguageInfo>)
  {
    forall i :: 0 <= i < |names| ==> names[i] in langdict
  }

  /** The state after the first `n` of `names`. */
  function CombineUpTo(names: seq<string>, n: nat, langdict: map<string, LanguageInfo>,
                       iso3to1: map<string, string>, scripts: map<string, string>): Combining
    requires n <= |names| && AllListed(names, langdict)
  {
    if n == 0 then Combining({}, {}, None, None)
    else CombineStep(CombineUpTo(names, n - 1, langdict, iso3to1, scripts), names[n - 1], langdict, iso3to1, scripts)
  }

  /** The combined entries with the Arabic and Punjabi ones added. */
  function CombinedSet(c: Combining): set<LanguageInfo>
  {
    c.results + (if c.arabic.Some? then {c.arabic.value} else {})
    + (if c.punjabi.Some? then {c.punjabi.value} else {})
  }

  /** How many of the first `n` names are of variety `v`. */
  function CountVariety(names: seq<string>, n: nat, v: Variety): nat
    requires n <= |names|
  {
    if n == 0 then 0
    else CountVariety(names, n - 1, v) + (if VarietyOf(names[n - 1]) == v then 1 else 0)
  }

  /** The speakers of the first `n` names of variety `v`. */
  function VarietySpeakers(names: seq<string>, n: nat, langdict: map<string, LanguageInfo>, v: Variety): real
    requires n <= |names| && AllListed(names, langdict)
  {
    if n == 0 then 0.0
    else VarietySpeakers(names, n - 1, langdict, v)
         + (if VarietyOf(names[n - 1]) == v then langdict[names[n - 1]].speakers else 0.0)
  }

  /** No language gives an Arabic or Punjabi variety as its related language. */
  predicate PlainRelated(langdict: map<string, LanguageInfo>)
  {
    forall key :: key in langdict && langdict[key].related.Some? ==> VarietyOf(langdict[key].related.value) == Plain
  }

  /** The folded entry of variety `v` after the first `n` names. */
  function Folded(c: Combining, v: Variety): Option<LanguageInfo>
  {
    if v == Arabic then c.arabic else if v == Punjabi then c.punjabi else None
  }

  /** The name and code the folded entry of a variety gets. */
  function FoldedName(v: Variety): string { if v == Arabic then "Arabic" else "Punjabi" }

  function FoldedCode(v: Variety): string { if v == Arabic then "ar" else "pa" }

  /** Unless some language gives such a variety as related, no Arabic or Punjabi name is
      ever marked as handled. */
  lemma {:induction false} HandledPlain(names: seq<string>, n: nat, langdict: map<string, LanguageInfo>,
                                        iso3to1: map<string, string>, scripts: map<string, string>)
    requires n <= |names| && AllListed(names, langdict) && PlainRelated(langdict)
    ensures forall h :: h in CombineUpTo(names, n, langdict, iso3to1, scripts).handled ==> VarietyOf(h) == Plain
  {
    if n > 0 {
      HandledPlain(names, n - 1, langdict, iso3to1, scripts);
      assert Prepared(langdict[names[n - 1]], iso3to1, scripts).related == langdict[names[n - 1]].related;
    }
  }

  /** The folded entry of variety `v` exists once `count` names of it were seen, with the
      fixed name and code and with their `speakers` summed. */
  predicate FoldedAs(c: Combining, v: Variety, count: nat, speakers: real)
  {
    (Folded(c, v).Some? <==> count > 0) && (count == 0 ==> speakers == 0.0)
    && (Folded(c, v).Some? ==>
          Folded(c, v).value.name == FoldedName(v) && Folded(c, v).value.isoCode == FoldedCode(v)
          && Folded(c, v).value.related.None? && Folded(c, v).value.speakers == speakers)
  }

  lemma FoldStep(c: Combining, name: string, langdict: map<string, LanguageInfo>,
                 iso3to1: map<string, string>, scripts: map<string, string>,
                 v: Variety, count: nat, speakers: real)
    requires name in langdict && v != Plain && FoldedAs(c, v, count, speakers)
    requires name in c.handled ==> VarietyOf(name) == Plain
    ensures FoldedAs(CombineStep(c, name, langdict, iso3to1, scripts), v,
                     count + (if VarietyOf(name) == v then 1 else 0),
                     speakers + (if VarietyOf(name) == v then langdict[name].speakers else 0.0))
  {
  }

  /** Every name containing 'Arabic' is folded into one 'ar' entry named "Arabic", and
      every other name containing 'Punjabi' into one 'pa' entry named "Punjabi", each with
      the summed speakers, provided no language gives such a variety as related. */
  lemma {:induction false} CombineFoldsVarieties(names: seq<string>, n: nat, langdict: map<string, LanguageInfo>,
                                                 iso3to1: map<string, string>, scripts: map<string, string>,
                                                 v: Variety)
    requires n <= |names| && AllListed(names, langdict) && PlainRelated(langdict) && v != Plain
    ensures FoldedAs(CombineUpTo(names, n, langdict, iso3to1, scripts), v,
                     CountVariety(names, n, v), VarietySpeakers(names, n, langdict, v))
  {
    if n > 0 {
      CombineFoldsVarieties(names, n - 1, langdict, iso3to1, scripts, v);
      HandledPlain(names, n - 1, langdict, iso3to1, scripts);
      FoldStep(CombineUpTo(names, n - 1, langdict, iso3to1, scripts), names[n - 1], langdict, iso3to1, scripts,
               v, CountVariety(names, n - 1, v), VarietySpeakers(names, n - 1, langdict, v));
    }
  }

  /** The body of the loop of `_combine_related`. */
  method CombineOne(results0: set<LanguageInfo>, handled0: set<string>, arabic0: Option<LanguageInfo>,
                    punjabi0: Option<LanguageInfo>, name: string, langdict: map<string, LanguageInfo>,
                    iso3to1: map<string, string>, scripts: map<string, string>)
    returns (results: set<LanguageInfo>, handled: set<string>, arabic: Option<LanguageInfo>, punjabi: Option<LanguageInfo>)
    requires name in langdict
    ensures Combining(results, handled, arabic, punjabi)
            == CombineStep(Combining(results0, handled0, arabic0, punjabi0), name, langdict, iso3to1, scripts)
  {
    results, handled, arabic, punjabi := results0, handled0, arabic0, punjabi0;
    var langinfo := langdict[name];
    if langinfo.isoCode in iso3to1 {
      langinfo := langinfo.(isoCode := iso3to1[langinfo.isoCode]);
    }
    if langinfo.isoCode in scripts {
      langinfo := langinfo.(script := Some(scripts[langinfo.isoCode]));
    }
    assert langinfo == Prepared(langdict[name], iso3to1, scripts);
    if name in handled {
      return;
    } else if VarietyOf(name) == Arabic {
      if arabic.None? {
        arabic := Some(langinfo.(name := "Arabic", isoCode := "ar", related := None, script := Lookup(scripts, "ar")));
      } else {
        arabic := Some(arabic.value.(speakers := arabic.value.speakers + langinfo.speakers));
      }
    } else if VarietyOf(name) == Punjabi {
      if punjabi.None? {
        punjabi := Some(langinfo.(name := "Punjabi", isoCode := "pa", related := None));
      } else {
        punjabi := Some(punjabi.value.(speakers := punjabi.value.speakers + langinfo.speakers));
      }
    } else {
      var c := CombinePlain(Combining(results, handled, arabic, punjabi), langinfo, langdict, iso3to1);
      results, handled := c.results, c.handled;
    }
  }

  method CombinePlain(c0: Combining, langinfo0: LanguageInfo, langdict: map<string, LanguageInfo>,
                      iso3to1: map<string, string>) returns (c: Combining)
    ensures c == PlainStep(c0, langinfo0, langdict, iso3to1)
  {
    var langinfo := langinfo0;
    var handled := c0.handled;
    if langinfo.related.Some? && langinfo.related.value != "" {
      if langinfo.related.value in langdict {
        handled := handled + {langinfo.related.value};
        var relatedLang := langdict[langinfo.related.value];
        var relatedCode := if relatedLang.isoCode in iso3to1 then iso3to1[relatedLang.isoCode] else relatedLang.isoCode;
        langinfo := langinfo.(name := langinfo.name + "/" + relatedLang.name,
                              isoCode := langinfo.isoCode + "/" + relatedCode,
                              speakers := langinfo.speakers + relatedLang.speakers, related := None);
      } else if langinfo.related.value == "Malay" {
        langinfo := langinfo.(name := langinfo.name + "/Malay", isoCode := langinfo.isoCode + "/ms", related := None);
      }
    }
    c := c0.(results := c0.results + {langinfo}, handled := handled);
  }

  /** `_combine_related` over the names in sorted order. */
  method CombineRelated(langdict: map<string, LanguageInfo>, iso3to1: map<string, string>,
                        scripts: map<string, string>) returns (r: set<LanguageInfo>)
    ensures r == CombinedSet(CombineUpTo(SortedSet(langdict.Keys), |SortedSet(langdict.Keys)|, langdict, iso3to1, scripts))
  {
    var names := SortedSet(langdict.Keys);
    r := CombineNames(names, langdict, iso3to1, scripts);
  }

  method CombineNames(names: seq<string>, langdict: map<string, LanguageInfo>, iso3to1: map<string, string>,
                      scripts: map<string, string>) returns (r: set<LanguageInfo>)
    requires AllListed(names, langdict)
    ensures r == CombinedSet(CombineUpTo(names, |names|, langdict, iso3to1, scripts))
  {
    var results: set<LanguageInfo> := {};
    var handled: set<string> := {};
    var arabic: Option<LanguageInfo> := None;
    var punjabi: Option<LanguageInfo> := None;
    for i := 0 to |names|
      invariant Combining(results, handled, arabic, punjabi) == CombineUpTo(names, i, langdict, iso3to1, scripts)
    {
      results, handled, arabic, punjabi := CombineOne(results, handled, arabic, punjabi, names[i], langdict, iso3to1, scripts);
    }
    if arabic.Some? {
      results := results + {arabic.value};
    }
    if punjabi.Some? {
      results := results + {punjabi.value};
    }
    r := results;
  }

  // ----- Ordering and the main list -----

  /** `a` may come before `b`: more speakers first, then by name. */
  predicate RankedBefore(a: LanguageInfo, b: LanguageInfo)
  {
    a.speakers > b.speakers || (a.speakers == b.speakers && LessEq(a.name, b.name))
  }

  predicate Ranked(s: seq<LanguageInfo>)
  {
    forall i :: 0 < i < |s| ==> RankedBefore(s[i - 1], s[i])
  }

  predicate IsFirst(m: LanguageInfo, s: set<LanguageInfo>)
  {
    m in s && forall y :: y in s ==> RankedBefore(m, y)
  }

  lemma RankedTransitive(a: LanguageInfo, b: LanguageInfo, c: LanguageInfo)
    requires RankedBefore(a, b) && RankedBefore(b, c)
    ensures RankedBefore(a, c)
  {
    if a.speakers == b.speakers == c.speakers && a.name != b.name && b.name != c.name {
      LessTransitive(a.name, b.name, c.name);
    }
  }

  lemma {:induction false} FirstExists(s: set<LanguageInfo>)
    requires s != {}
    ensures exists m :: IsFirst(m, s)
    decreases |s|
  {
    var x :| x in s;
    if s == {x} {
      assert IsFirst(x, s) by { LessIrreflexive(x.name); }
    } else {
      FirstExists(s - {x});
      var m :| IsFirst(m, s - {x});
      LessTotal(x.name, m.name);
      if RankedBefore(x, m) {
        forall y | y in s ensures RankedBefore(x, y) {
          if y != x {
            RankedTransitive(x, m, y);
          }
        }
        assert IsFirst(x, s);
      } else {
        assert IsFirst(m, s);
      }
    }
  }

  /** `sorted(languages, key=(-speakers, name))`: every language once, in rank order. */
  method OrderLanguages(languages: set<LanguageInfo>) returns (r: seq<LanguageInfo>)
    ensures Ranked(r) && multiset(r) == multiset(languages)
  {
    r := [];
    var rest := languages;
    while rest != {}
      invariant Ranked(r) && multiset(r) + multiset(rest) == multiset(languages)
      invariant forall x, y :: x in r && y in rest ==> RankedBefore(x, y)
      decreases |rest|
    {
      FirstExists(rest);
      var m :| IsFirst(m, rest);
      assert multiset(rest) == multiset(rest - {m}) + multiset{m};
      r := r + [m];
      rest := rest - {m};
    }
  }

  /** The subfamily a language is counted in for the main list. */
  function Subfamily(l: LanguageInfo): (string, Option<string>)
  {
    (l.family, l.branch)
  }

  /** How many languages of `s` belong to subfamily `sf`. */
  function CountIn(s: seq<LanguageInfo>, sf: (string, Option<string>)): nat
  {
    if |s| == 0 then 0 else CountIn(s[..|s| - 1], sf) + (if Subfamily(s[|s| - 1]) == sf then 1 else 0)
  }

  /** The languages of `s` with fewer than two before them in their subfamily. */
  function MainOf(s: seq<LanguageInfo>): seq<LanguageInfo>
  {
    if |s| == 0 then []
    else
      var p := s[..|s| - 1];
      MainOf(p) + (if CountIn(p, Subfamily(s[|s| - 1])) < 2 then [s[|s| - 1]] else [])
  }

  /** The other languages of `s`. */
  function RestOf(s: seq<LanguageInfo>): seq<LanguageInfo>
  {
    if |s| == 0 then []
    else
      var p := s[..|s| - 1];
      RestOf(p) + (if CountIn(p, Subfamily(s[|s| - 1])) < 2 then [] else [s[|s| - 1]])
  }

  function Min2(n: nat): nat { if n < 2 then n else 2 }

  /** The main list takes the first two languages of every subfamily, so at most two. */
  lemma {:induction false} MainCount(s: seq<LanguageInfo>, sf: (string, Option<string>))
    ensures CountIn(MainOf(s), sf) == Min2(CountIn(s, sf))
  {
    if |s| > 0 {
      var p := s[..|s| - 1];
      MainCount(p, sf);
      MainCount(p, Subfamily(s[|s| - 1]));
      CountInAppend(MainOf(p), if CountIn(p, Subfamily(s[|s| - 1])) < 2 then [s[|s| - 1]] else [], sf);
    }
  }

  lemma CountInAppend(a: seq<LanguageInfo>, b: seq<LanguageInfo>, sf: (string, Option<string>))
    requires |b| <= 1
    ensures CountIn(a + b, sf) == CountIn(a, sf) + CountIn(b, sf)
  {
    if |b| == 1 {
      assert (a + b)[..|a + b| - 1] == a;
      assert [] + b == b;
    } else {
      assert a + b == a;
    }
  }

  /** Every language lands in exactly one of the two lists. */
  lemma {:induction false} SplitPartitions(s: seq<LanguageInfo>)
    ensures multiset(MainOf(s)) + multiset(RestOf(s)) == multiset(s)
  {
    if |s| > 0 {
      SplitPartitions(s[..|s| - 1]);
      assert s == s[..|s| - 1] + [s[|s| - 1]];
    }
  }

  lemma {:induction false} CountInMonotone(s: seq<LanguageInfo>, k: nat, sf: (string, Option<string>))
    requires k <= |s|
    ensures CountIn(s[..k], sf) <= CountIn(s, sf)
    decreases |s|
  {
    if k < |s| {
      assert s[..|s| - 1][..k] == s[..k];
      CountInMonotone(s[..|s| - 1], k, sf);
    } else {
      assert s[..k] == s;
    }
  }

  /** A language in the rest list comes after two languages of its subfamily, which are
      in the main list. */
  lemma {:induction false} RestFull(s: seq<LanguageInfo>, x: LanguageInfo)
    requires x in RestOf(s)
    ensures CountIn(s, Subfamily(x)) >= 2 && CountIn(MainOf(s), Subfamily(x)) == 2
  {
    var p := s[..|s| - 1];
    MainCount(s, Subfamily(x));
    if x in RestOf(p) {
      RestFull(p, x);
    }
  }

  lemma {:induction false} MainBelongs(s: seq<LanguageInfo>)
    ensures multiset(MainOf(s)) <= multiset(s) && multiset(RestOf(s)) <= multiset(s)
  {
    SplitPartitions(s);
  }

  lemma {:induction false} RankedAll(s: seq<LanguageInfo>, i: nat, j: nat)
    requires Ranked(s) && i < j < |s|
    ensures RankedBefore(s[i], s[j])
    decreases j - i
  {
    if i + 1 < j {
      RankedAll(s, i + 1, j);
      RankedTransitive(s[i], s[i + 1], s[j]);
    }
  }

  /** A ranked sequence taken from `p` stays ranked when an element ranked after all of
      `p` is appended. */
  lemma AppendRanked(sub: seq<LanguageInfo>, p: seq<LanguageInfo>, last: LanguageInfo)
    requires Ranked(sub) && multiset(sub) <= multiset(p)
    requires forall i :: 0 <= i < |p| ==> RankedBefore(p[i], last)
    ensures Ranked(sub + [last])
  {
    if |sub| > 0 {
      var x := sub[|sub| - 1];
      assert x in multiset(p);
      var i :| 0 <= i < |p| && p[i] == x;
    }
  }

  lemma PrefixBeforeLast(p: seq<LanguageInfo>, last: LanguageInfo)
    requires Ranked(p + [last])
    ensures forall i :: 0 <= i < |p| ==> RankedBefore(p[i], last)
  {
    forall i | 0 <= i < |p| ensures RankedBefore(p[i], last) {
      RankedAll(p + [last], i, |p|);
      assert (p + [last])[i] == p[i] && (p + [last])[|p|] == last;
    }
  }

  /** Both lists keep the rank order of the input. */
  lemma {:induction false} SplitKeepsRank(s: seq<LanguageInfo>)
    requires Ranked(s)
    ensures Ranked(MainOf(s)) && Ranked(RestOf(s))
  {
    if |s| > 0 {
      var p := s[..|s| - 1];
      var last := s[|s| - 1];
      assert Ranked(p);
      SplitKeepsRank(p);
      MainBelongs(p);
      assert s == p + [last];
      PrefixBeforeLast(p, last);
      AppendRanked(MainOf(p), p, last);
      AppendRanked(RestOf(p), p, last);
      assert MainOf(p) + [] == MainOf(p) && RestOf(p) + [] == RestOf(p);
    }
  }

  function CounterAt(counter: map<(string, Option<string>), nat>, sf: (string, Option<string>)): nat
  {
    if sf in counter then counter[sf] else 0
  }

  /** The split loop of `parselanguagelist`: a language joins the main list while fewer
      than two of its subfamily are in it, else the rest. */
  method SplitBySubfamily(languages: seq<LanguageInfo>) returns (mainlist: seq<LanguageInfo>, rest: seq<LanguageInfo>)
    ensures mainlist == MainOf(languages) && rest == RestOf(languages)
  {
    mainlist, rest := [], [];
    var counter: map<(string, Option<string>), nat> := map[];
    for i := 0 to |languages|
      invariant mainlist == MainOf(languages[..i]) && rest == RestOf(languages[..i])
      invariant forall sf :: CounterAt(counter, sf) == Min2(CountIn(languages[..i], sf))
    {
      var langinfo := languages[i];
      var subfamily := Subfamily(langinfo);
      assert languages[..i + 1][..i] == languages[..i];
      if CounterAt(counter, subfamily) < 2 {
        mainlist := mainlist + [langinfo];
        counter := counter[subfamily := CounterAt(counter, subfamily) + 1];
      } else {
        rest := rest + [langinfo];
      }
    }
    assert languages[..|languages|] == languages;
  }

  /** `parselanguagelist` after the list is read: related languages combined, names
      shortened, languages ranked and split into the main list and the rest. */
  method ParseLanguageList(langdict: map<string, LanguageInfo>, iso3to1: map<string, string>,
                           scripts: map<string, string>) returns (mainlist: seq<LanguageInfo>, rest: seq<LanguageInfo>)
    ensures Ranked(mainlist) && Ranked(rest)
    ensures multiset(mainlist) + multiset(rest)
            == multiset(set l | l in CombinedSet(CombineUpTo(SortedSet(langdict.Keys), |SortedSet(langdict.Keys)|,
                                                              langdict, iso3to1, scripts)) :: PostprocessLang(l))
    ensures forall sf :: CountIn(mainlist, sf) <= 2
    ensures forall x :: x in rest ==> CountIn(mainlist, Subfamily(x)) == 2
  {
    var combined := CombineRelated(langdict, iso3to1, scripts);
    var shortened := set l | l in combined :: PostprocessLang(l);
    var ordered := OrderLanguages(shortened);
    mainlist, rest := SplitBySubfamily(ordered);
    SplitKeepsRank(ordered);
    SplitPartitions(ordered);
    forall sf ensures CountIn(mainlist, sf) <= 2 {
      MainCount(ordered, sf);
    }
    forall x | x in rest ensures CountIn(mainlist, Subfamily(x)) == 2 {
      RestFull(ordered, x);
    }
  }
}
