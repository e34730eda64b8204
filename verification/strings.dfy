/** The handful of Python `str` operations the core relies on, written out
    over `seq<char>`: `isspace`, `split()` with and without a separator,
    `strip()`, `sep.join(...)`, `title()`, slicing with possibly negative
    bounds, and substring search. */
module Strings {

  /** Python's `str.isspace` for one character: the characters CPython
      classifies as whitespace (bidirectional class WS, B or S, or general
      category Zs). */
  predicate IsSpace(c: char) {
    || c == ' ' || c == '\t' || c == '\n' || c == '\r'
    || c == '\U{0B}' || c == '\U{0C}'
    || ('\U{1C}' <= c <= '\U{1F}')
    || c == '\U{85}' || c == '\U{A0}' || c == '\U{1680}'
    || ('\U{2000}' <= c <= '\U{200A}')
    || c == '\U{2028}' || c == '\U{2029}' || c == '\U{202F}'
    || c == '\U{205F}' || c == '\U{3000}'
  }

  predicate NoSpace(s: string) {
    forall i :: 0 <= i < |s| ==> !IsSpace(s[i])
  }

  predicate StartsWith(s: string, p: string) {
    |p| <= |s| && s[..|p|] == p
  }

  predicate EndsWith(s: string, p: string) {
    |p| <= |s| && s[|s| - |p|..] == p
  }

  /** `p in s` for strings. */
  predicate Contains(s: string, p: string) {
    exists j :: 0 <= j <= |s| && StartsWith(s[j..], p)
  }

  /** Index of the first occurrence of `p` in `s`, or `|s|` when there is none. */
  function Find(s: string, p: string): (i: nat)
    ensures i <= |s|
    ensures forall j :: 0 <= j < i ==> !StartsWith(s[j..], p)
    ensures i < |s| ==> StartsWith(s[i..], p)
    decreases |s|
  {
    if |s| == 0 || StartsWith(s, p) then 0
    else
      var k := Find(s[1..], p);
      assert forall j :: 1 <= j <= |s| ==> s[j..] == s[1..][j - 1..];
      1 + k
  }

  /** The first occurrence is the one `Find` reports. */
  lemma FindIs(s: string, p: string, i: nat)
    requires i < |s| && StartsWith(s[i..], p)
    requires forall j :: 0 <= j < i ==> !StartsWith(s[j..], p)
    ensures Find(s, p) == i
  {
  }

  /** Python `s.split(p)[0]` for a non-empty separator `p`: everything before
      the first occurrence of `p`. */
  function SplitFirst(s: string, p: string): string
    requires |p| > 0
  {
    s[..Find(s, p)]
  }

  /** A string is what lies before, at and after a position. */
  lemma SplitAround(s: string, i: nat)
    requires i < |s|
    ensures s == s[..i] + [s[i]] + s[i + 1..]
  {
  }

  /** With the first occurrence of `p` at `i`, `s.split(p)[0]` is `s[:i]`. */
  lemma SplitFirstIs(s: string, p: string, i: nat)
    requires |p| > 0 && i < |s| && StartsWith(s[i..], p)
    requires forall j :: 0 <= j < i ==> !StartsWith(s[j..], p)
    ensures SplitFirst(s, p) == s[..i]
  {
    FindIs(s, p, i);
  }

  /** Index of the first `c` in `s`, or `|s|`. */
  function IndexOf(s: string, c: char): (i: nat)
    ensures i <= |s|
    ensures forall j :: 0 <= j < i ==> s[j] != c
    ensures i < |s| ==> s[i] == c
  {
    if |s| == 0 || s[0] == c then 0 else 1 + IndexOf(s[1..], c)
  }

  /** The first `c` is the one `IndexOf` reports. */
  lemma IndexOfIs(s: string, c: char, i: nat)
    requires i <= |s|
    requires forall j :: 0 <= j < i ==> s[j] != c
    requires i < |s| ==> s[i] == c
    ensures IndexOf(s, c) == i
  {
  }

  /** Python `s.split(sep)` for a one-character separator: never empty. */
  function SplitOn(s: string, sep: char): (parts: seq<string>)
    ensures |parts| >= 1
    ensures parts[0] == s[..IndexOf(s, sep)]
    ensures forall k :: 0 <= k < |parts| ==> sep !in parts[k]
    decreases |s|
  {
    var i := IndexOf(s, sep);
    if i == |s| then [s] else [s[..i]] + SplitOn(s[i + 1..], sep)
  }

  /** Length of the leading run of non-whitespace characters. */
  function WordLen(s: string): (n: nat)
    ensures n <= |s|
    ensures NoSpace(s[..n])
    ensures n < |s| ==> IsSpace(s[n])
  {
    if |s| == 0 || IsSpace(s[0]) then 0
    else
      var k := WordLen(s[1..]);
      assert s[..k + 1] == [s[0]] + s[1..][..k];
      k + 1
  }

  /** Python `s.split()`: the maximal runs of non-whitespace characters. */
  function Words(s: string): (ws: seq<string>)
    ensures forall i :: 0 <= i < |ws| ==> |ws[i]| > 0 && NoSpace(ws[i])
    decreases |s|
  {
    if |s| == 0 then []
    else if IsSpace(s[0]) then Words(s[1..])
    else
      var n := WordLen(s);
      [s[..n]] + Words(s[n..])
  }

  /** Python `sep.join(ws)`. */
  function Join(sep: string, ws: seq<string>): string
    decreases |ws|
  {
    if |ws| == 0 then ""
    else if |ws| == 1 then ws[0]
    else ws[0] + sep + Join(sep, ws[1..])
  }

  /** Python `s.lstrip()`. */
  function LStrip(s: string): (r: string)
    ensures |r| <= |s|
    ensures r == s[|s| - |r|..]
    decreases |s|
  {
    if |s| > 0 && IsSpace(s[0]) then LStrip(s[1..]) else s
  }

  /** Python `s.rstrip()`. */
  function RStrip(s: string): (r: string)
    ensures |r| <= |s|
    ensures r == s[..|r|]
    decreases |s|
  {
    if |s| > 0 && IsSpace(s[|s| - 1]) then RStrip(s[..|s| - 1]) else s
  }

  /** Python `s.strip()`. */
  function Strip(s: string): string {
    RStrip(LStrip(s))
  }

  lemma {:induction false} StripNoSpace(s: string)
    requires |s| == 0 || (!IsSpace(s[0]) && !IsSpace(s[|s| - 1]))
    ensures Strip(s) == s
  {
  }

  lemma {:induction false} LStripAllSpace(s: string)
    requires forall i :: 0 <= i < |s| ==> IsSpace(s[i])
    ensures LStrip(s) == ""
    decreases |s|
  {
    if |s| > 0 {
      LStripAllSpace(s[1..]);
    }
  }

  /** Stripping a run made only of whitespace leaves nothing. */
  lemma StripAllSpace(s: string)
    requires forall i :: 0 <= i < |s| ==> IsSpace(s[i])
    ensures Strip(s) == ""
  {
    LStripAllSpace(s);
  }

  /** Python `s[:a]`, where a negative `a` counts from the end. */
  function SliceTo(s: string, a: int): (r: string)
    ensures StartsWith(s, r)
  {
    if a >= 0 then (if a <= |s| then s[..a] else s)
    else if |s| + a >= 0 then s[..|s| + a]
    else ""
  }

  /** Python `s[b:]`, where a negative `b` counts from the end. */
  function SliceFrom(s: string, b: int): (r: string)
    ensures EndsWith(s, r)
  {
    if b >= 0 then (if b <= |s| then s[b..] else "")
    else if |s| + b >= 0 then s[|s| + b..]
    else s
  }

  predicate IsUpper(c: char) { 'A' <= c <= 'Z' }
  predicate IsLower(c: char) { 'a' <= c <= 'z' }
  predicate IsCased(c: char) { IsUpper(c) || IsLower(c) }

  function ToLower(c: char): char {
    if IsUpper(c) then (c as int + 32) as char else c
  }

  function ToUpper(c: char): char {
    if IsLower(c) then (c as int - 32) as char else c
  }

  function LowerAll(s: string): (r: string)
    ensures |r| == |s|
    ensures forall i :: 0 <= i < |s| ==> r[i] == ToLower(s[i])
  {
    seq(|s|, i requires 0 <= i < |s| => ToLower(s[i]))
  }

  /** CPython's `title` loop: a character that follows a cased character is
      lower-cased, every other one is upper-cased (only ASCII letters carry
      case here). */
  function TitleFrom(s: string, previousIsCased: bool): (r: string)
    ensures |r| == |s|
    decreases |s|
  {
    if |s| == 0 then ""
    else
      var c := if previousIsCased then ToLower(s[0]) else ToUpper(s[0]);
      [c] + TitleFrom(s[1..], IsCased(s[0]))
  }

  /** Title-casing changes letter case and nothing else. */
  lemma {:induction false} TitleFromKeepsLetters(s: string, previousIsCased: bool)
    ensures LowerAll(TitleFrom(s, previousIsCased)) == LowerAll(s)
    ensures forall i :: 0 <= i < |s| ==> (TitleFrom(s, previousIsCased)[i] == '_' <==> s[i] == '_')
    decreases |s|
  {
    if |s| > 0 {
      TitleFromKeepsLetters(s[1..], IsCased(s[0]));
      var r := TitleFrom(s, previousIsCased);
      assert r[1..] == TitleFrom(s[1..], IsCased(s[0]));
      assert LowerAll(r)[1..] == LowerAll(r[1..]);
      assert LowerAll(s)[1..] == LowerAll(s[1..]);
    }
  }

  /** Python `s.title()`. */
  function Title(s: string): (r: string)
    ensures |r| == |s|
  {
    TitleFrom(s, false)
  }

  /** Concatenation of a sequence of strings (`"".join(ws)`). */
  function Concat(ws: seq<string>): string
    decreases |ws|
  {
    if |ws| == 0 then "" else ws[0] + Concat(ws[1..])
  }

  /** `s` with every `c` removed. */
  function Without(s: string, c: char): (r: string)
    ensures |r| <= |s|
    decreases |s|
  {
    if |s| == 0 then ""
    else (if s[0] == c then "" else [s[0]]) + Without(s[1..], c)
  }

  /** `x` is a prefix of `x + y`, and dropping it leaves `y`. */
  lemma PrefixParts(x: string, y: string)
    ensures StartsWith(x + y, x) && (x + y)[|x|..] == y
  {
    assert (x + y)[..|x|] == x;
  }

  /** What a suffix contains, the whole text contains. */
  lemma ContainsSuffix(s: string, k: nat, p: string)
    requires k <= |s| && Contains(s[k..], p)
    ensures Contains(s, p)
  {
    var j :| 0 <= j <= |s[k..]| && StartsWith(s[k..][j..], p);
    assert s[k..][j..] == s[k + j..];
  }

  lemma ConcatAssoc(x: string, y: string, z: string)
    ensures x + y + z == x + (y + z)
  {
  }

  /** Python `sep.join(ws + [w])` extends `sep.join(ws)` by `sep + w`. */
  lemma {:induction false} JoinAppend(sep: string, ws: seq<string>, w: string)
    requires |ws| > 0
    ensures Join(sep, ws + [w]) == Join(sep, ws) + sep + w
    decreases |ws|
  {
    if |ws| == 1 {
      assert (ws + [w])[1..] == [w];
    } else {
      assert (ws + [w])[1..] == ws[1..] + [w];
      JoinAppend(sep, ws[1..], w);
    }
  }

  /** A common prefix and suffix cancel. */
  lemma ConcatCancel(pre: string, a: string, b: string, suf: string)
    requires pre + a + suf == pre + b + suf
    ensures a == b
  {
    var s := pre + a + suf;
    assert |a| == |b|;
    assert a == s[|pre|..|pre| + |a|];
    assert b == (pre + b + suf)[|pre|..|pre| + |b|];
  }
}
