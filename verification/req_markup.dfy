/** The requirement markup of a prompt (zeno/test.py, zeno/backend.py): the
    `<req name="…">…</req>` span that anchors a requirement's snippet, and
    the substitution `pattern.sub(wrap_non_req_text, prompt)` with
    `pattern = (<req name=".*?">.*?</req>)|([^<]+)`, which keeps every
    requirement span and wraps every other run of text in `<text>…</text>`. */
module ReqMarkup {
  import opened Wrappers
  import opened Strings

  const ReqOpen: string := "<req name=\""
  const NameEnd: string := "\">"
  const ReqClose: string := "</req>"

  /** The span spliced around a matched snippet. */
  function ReqTag(name: string, body: string): string {
    ReqOpen + name + NameEnd + body + ReqClose
  }

  /** `.*?` followed by `pat`: the lazy group grows one character at a time
      (never across a newline) until `pat` matches. The offset of `pat`, or
      `None` when a newline or the end of the text comes first. */
  function LazyFind(s: string, pat: string): (r: Option<nat>)
    ensures r.Some? ==> r.value + |pat| <= |s| && StartsWith(s[r.value..], pat)
    decreases |s|
  {
    if StartsWith(s, pat) then Some(0)
    else if |s| == 0 || s[0] == '\n' then None
    else
      match LazyFind(s[1..], pat)
      case None => None
      case Some(k) =>
        assert s[k + 1..] == s[1..][k..];
        Some(k + 1)
  }

  /** Length of the first alternative `<req name=".*?">.*?</req>` matched at
      the start of `s`, if it matches. Letting the first lazy group grow past
      the first `">` cannot help: any `</req>` reachable from a later `">`
      without crossing a newline is reachable from the first one too, so the
      first `">` and the first `</req>` after it decide the match. */
  function ReqSpanLen(s: string): (r: Option<nat>)
    ensures r.Some? ==> |ReqOpen| + |NameEnd| + |ReqClose| <= r.value <= |s|
  {
    if !StartsWith(s, ReqOpen) then None
    else
      match NameAndBodyLen(s[|ReqOpen|..])
      case None => None
      case Some(n) => Some(|ReqOpen| + n)
  }

  /** `.*?">.*?</req>` at the start of `a`. */
  function NameAndBodyLen(a: string): (r: Option<nat>)
    ensures r.Some? ==> |NameEnd| + |ReqClose| <= r.value <= |a|
  {
    match LazyFind(a, NameEnd)
    case None => None
    case Some(p) =>
      match BodyLen(a[p + |NameEnd|..])
      case None => None
      case Some(m) => Some(p + |NameEnd| + m)
  }

  /** `.*?</req>` at the start of `b`. */
  function BodyLen(b: string): (r: Option<nat>)
    ensures r.Some? ==> |ReqClose| <= r.value <= |b|
  {
    match LazyFind(b, ReqClose)
    case None => None
    case Some(q) => Some(q + |ReqClose|)
  }

  /** Length of the leading run matched by the greedy `[^<]+`. */
  function RunLen(s: string): (n: nat)
    ensures n <= |s|
    ensures forall i :: 0 <= i < n ==> s[i] != '<'
    ensures n < |s| ==> s[n] == '<'
  {
    if |s| == 0 || s[0] == '<' then 0 else 1 + RunLen(s[1..])
  }

  /** What `wrap_non_req_text` returns for a run of plain text. */
  function TextElem(run: string): string {
    "<text>" + Strip(run) + "</text>"
  }

  /** `pattern.sub(wrap_non_req_text, s)`. At each position the first
      alternative is tried, then the second; a `<` that starts no complete
      requirement span matches neither and is copied unchanged. A matched
      run is replaced by `<text>` + its stripped text + `</text>`, even
      when it strips to nothing, since the run itself is non-empty. */
  function WrapNonReq(s: string): string
    decreases |s|
  {
    if |s| == 0 then ""
    else if s[0] != '<' then
      var n := RunLen(s);
      TextElem(s[..n]) + WrapNonReq(s[n..])
    else
      match ReqSpanLen(s)
      case Some(n) => s[..n] + WrapNonReq(s[n..])
      case None => [s[0]] + WrapNonReq(s[1..])
  }

  /** The final prompt text: the wrapped text inside `<prompt>…</prompt>`. */
  function RenderPrompt(s: string): string {
    "<prompt>" + WrapNonReq(s) + "</prompt>"
  }

  // ---------------------------------------------------------------------
  // Properties of the substitution
  // ---------------------------------------------------------------------

  /** A pattern whose first character does not recur in it cannot occur in
      `x` when that character does not. */
  lemma AbsentHeadNotContained(x: string, pat: string)
    requires |pat| > 0 && pat[0] !in x
    ensures !Contains(x, pat)
  {
    forall j | 0 <= j <= |x|
      ensures !StartsWith(x[j..], pat)
    {
      if j < |x| {
        assert x[j..][0] == x[j];
      }
    }
  }

  lemma ContainsShift(x: string, pat: string)
    requires |x| > 0 && !Contains(x, pat)
    ensures !Contains(x[1..], pat)
  {
    forall j | 0 <= j <= |x| - 1
      ensures !StartsWith(x[1..][j..], pat)
    {
      assert x[1..][j..] == x[j + 1..];
    }
  }

  /** An occurrence of `pat` at the start of `x + pat + y` that reaches
      past `x` puts the head of `pat` at offset `|x|` within it. */
  lemma OccurrenceOverlap(x: string, pat: string, y: string)
    requires |x| < |pat| && StartsWith(x + pat + y, pat)
    ensures pat[|x|] == pat[0]
  {
    var s := x + pat + y;
    assert s[..|pat|][|x|] == s[|x|];
  }

  /** With a head character that does not recur in `pat`, no occurrence of
      `pat` can start inside `x` when `x` itself does not contain it. */
  lemma NoEarlyOccurrence(x: string, pat: string, y: string)
    requires |x| > 0
    requires |pat| > 0 && forall i :: 1 <= i < |pat| ==> pat[i] != pat[0]
    requires !Contains(x, pat)
    ensures !StartsWith(x + pat + y, pat)
  {
    var s := x + pat + y;
    if StartsWith(s, pat) {
      if |pat| <= |x| {
        assert x[0..][..|pat|] == s[..|pat|];
        assert StartsWith(x[0..], pat);
      } else {
        OccurrenceOverlap(x, pat, y);
      }
    }
  }

  /** The lazy group stops at the first occurrence of `pat`. */
  lemma {:induction false} LazyFindAt(x: string, pat: string, y: string)
    requires '\n' !in x
    requires |pat| > 0 && forall i :: 1 <= i < |pat| ==> pat[i] != pat[0]
    requires !Contains(x, pat)
    ensures LazyFind(x + pat + y, pat) == Some(|x|)
    decreases |x|
  {
    if |x| == 0 {
      LazyFindHere(x, pat, y);
    } else {
      NoEarlyOccurrence(x, pat, y);
      ContainsShift(x, pat);
      LazyFindAt(x[1..], pat, y);
      TailShape(x, pat + y);
      ConcatAssoc(x, pat, y);
      ConcatAssoc(x[1..], pat, y);
      LazyFindStep(x + pat + y, pat, |x| - 1);
    }
  }

  lemma LazyFindHere(x: string, pat: string, y: string)
    requires |x| == 0
    ensures LazyFind(x + pat + y, pat) == Some(0)
  {
    assert x + pat + y == pat + y;
    PrefixParts(pat, y);
  }

  /** `x + t` starts with the head of `x` and continues with its tail. */
  lemma TailShape(x: string, t: string)
    requires |x| > 0
    ensures (x + t)[0] == x[0] && x[0] in x
    ensures (x + t)[1..] == x[1..] + t
  {
  }

  /** Past a first character that neither starts `pat` nor is a newline,
      the lazy group grows by one. */
  lemma LazyFindStep(s: string, pat: string, k: nat)
    requires |s| > 0 && s[0] != '\n' && !StartsWith(s, pat)
    requires LazyFind(s[1..], pat) == Some(k)
    ensures LazyFind(s, pat) == Some(k + 1)
  {
  }

  lemma RunLenOf(run: string, rest: string)
    requires '<' !in run
    requires |rest| == 0 || rest[0] == '<'
    ensures RunLen(run + rest) == |run|
  {
    var s := run + rest;
    assert forall i :: 0 <= i < |run| ==> s[i] == run[i];
    assert |rest| > 0 ==> s[|run|] == rest[0];
  }

  /** A run of text followed by the end or by a `<` is wrapped as one
      `<text>` element. */
  lemma WrapRun(run: string, rest: string)
    requires |run| > 0 && '<' !in run
    requires |rest| == 0 || rest[0] == '<'
    ensures WrapNonReq(run + rest) == TextElem(run) + WrapNonReq(rest)
  {
    var s := run + rest;
    assert s[0] == run[0];
    RunLenOf(run, rest);
    assert s[..|run|] == run;
    assert s[|run|..] == rest;
  }

  /** A run of whitespace outside a span becomes an empty `<text>` element. */
  lemma WrapBlankRun(run: string, rest: string)
    requires |run| > 0 && forall i :: 0 <= i < |run| ==> IsSpace(run[i])
    requires |rest| == 0 || rest[0] == '<'
    ensures WrapNonReq(run + rest) == "<text></text>" + WrapNonReq(rest)
  {
    SpacesHaveNoLt(run);
    WrapRun(run, rest);
    BlankTextElem(run);
  }

  lemma SpacesHaveNoLt(run: string)
    requires forall i :: 0 <= i < |run| ==> IsSpace(run[i])
    ensures '<' !in run
  {
    forall i | 0 <= i < |run|
      ensures run[i] != '<'
    {
      assert IsSpace(run[i]);
    }
  }

  lemma BlankTextElem(run: string)
    requires forall i :: 0 <= i < |run| ==> IsSpace(run[i])
    ensures TextElem(run) == "<text></text>"
  {
    StripAllSpace(run);
  }

  /** Text without any `<` is one `<text>` element holding its stripped form;
      the empty text stays empty. */
  lemma WrapPlainText(s: string)
    requires '<' !in s
    ensures |s| == 0 ==> WrapNonReq(s) == ""
    ensures |s| > 0 ==> WrapNonReq(s) == TextElem(s)
  {
    if |s| > 0 {
      WrapRun(s, "");
      assert s + "" == s;
    }
  }

  lemma NameEndAt(name: string, tail: string)
    requires '\n' !in name && !Contains(name, NameEnd)
    ensures LazyFind(name + NameEnd + tail, NameEnd) == Some(|name|)
  {
    LazyFindAt(name, NameEnd, tail);
  }

  lemma ReqCloseAt(body: string, rest: string)
    requires '\n' !in body && !Contains(body, ReqClose)
    ensures LazyFind(body + ReqClose + rest, ReqClose) == Some(|body|)
  {
    LazyFindAt(body, ReqClose, rest);
  }

  /** A tag followed by more text starts with `<req name="`, after which
      come the name, `">`, the body and `</req>`. */
  lemma TagParts(name: string, body: string, rest: string)
    ensures StartsWith(ReqTag(name, body) + rest, ReqOpen)
    ensures (ReqTag(name, body) + rest)[|ReqOpen|..] == name + NameEnd + (body + ReqClose + rest)
    ensures |ReqTag(name, body)| == |ReqOpen| + (|name| + |NameEnd| + |body| + |ReqClose|)
  {
    var tail := body + ReqClose + rest;
    assert ReqTag(name, body) + rest == ReqOpen + (name + NameEnd + tail);
    PrefixParts(ReqOpen, name + NameEnd + tail);
  }

  /** A requirement span whose name holds no `">` and whose body holds no
      `</req>`, neither with a newline, is matched by the first alternative
      exactly. */
  lemma ReqSpanLenOfTag(name: string, body: string, rest: string)
    requires '\n' !in name && '\n' !in body
    requires !Contains(name, NameEnd) && !Contains(body, ReqClose)
    ensures ReqSpanLen(ReqTag(name, body) + rest) == Some(|ReqTag(name, body)|)
  {
    NameAndBodyLenOf(name, body, rest);
    TagSpan(name, body, rest, |name| + |NameEnd| + |body| + |ReqClose|);
  }

  lemma TagSpan(name: string, body: string, rest: string, n: nat)
    requires NameAndBodyLen(name + NameEnd + (body + ReqClose + rest)) == Some(n)
    requires n == |name| + |NameEnd| + |body| + |ReqClose|
    ensures ReqSpanLen(ReqTag(name, body) + rest) == Some(|ReqTag(name, body)|)
  {
    TagParts(name, body, rest);
    ReqSpanLenAfterOpen(ReqTag(name, body) + rest, name + NameEnd + (body + ReqClose + rest), n);
  }

  /** Past the opening `<req name="`, the span's length is that of the
      name and body. */
  lemma ReqSpanLenAfterOpen(s: string, a: string, n: nat)
    requires StartsWith(s, ReqOpen) && s[|ReqOpen|..] == a
    requires NameAndBodyLen(a) == Some(n)
    ensures ReqSpanLen(s) == Some(|ReqOpen| + n)
  {
  }

  lemma NameAndBodyLenOf(name: string, body: string, rest: string)
    requires '\n' !in name && '\n' !in body
    requires !Contains(name, NameEnd) && !Contains(body, ReqClose)
    ensures NameAndBodyLen(name + NameEnd + (body + ReqClose + rest)) == Some(|name| + |NameEnd| + |body| + |ReqClose|)
  {
    var tail := body + ReqClose + rest;
    NameEndAt(name, tail);
    assert (name + NameEnd + tail)[|name| + |NameEnd|..] == tail;
    BodyLenOf(body, rest);
  }

  lemma BodyLenOf(body: string, rest: string)
    requires '\n' !in body && !Contains(body, ReqClose)
    ensures BodyLen(body + ReqClose + rest) == Some(|body| + |ReqClose|)
  {
    ReqCloseAt(body, rest);
  }

  /** Such a span is emitted unchanged and the pass goes on after it. */
  lemma WrapReqSpan(name: string, body: string, rest: string)
    requires '\n' !in name && '\n' !in body
    requires !Contains(name, NameEnd) && !Contains(body, ReqClose)
    ensures WrapNonReq(ReqTag(name, body) + rest) == ReqTag(name, body) + WrapNonReq(rest)
  {
    var t := ReqTag(name, body);
    var s := t + rest;
    ReqSpanLenOfTag(name, body, rest);
    assert s[0] == '<';
    assert s[..|t|] == t;
    assert s[|t|..] == rest;
  }

  /** A `<` that does not open a complete requirement span is copied through
      unwrapped: either it does not start `<req name="`, or no `</req>`
      follows it. */
  lemma WrapStrayLt(rest: string)
    requires !StartsWith("<" + rest, ReqOpen) || !Contains(rest, ReqClose)
    ensures WrapNonReq("<" + rest) == "<" + WrapNonReq(rest)
  {
    var s := "<" + rest;
    SpanNeedsClose(rest);
    assert s[1..] == rest;
  }

  /** A span matched at a `<` needs the opening tag there and a `</req>`
      after it. */
  lemma SpanNeedsClose(rest: string)
    ensures ReqSpanLen("<" + rest).Some? ==> StartsWith("<" + rest, ReqOpen) && Contains(rest, ReqClose)
  {
    var s := "<" + rest;
    if ReqSpanLen(s).Some? {
      NameAndBodyNeedsClose(s[|ReqOpen|..]);
      assert s[|ReqOpen|..] == rest[|ReqOpen| - 1..];
      ContainsSuffix(rest, |ReqOpen| - 1, ReqClose);
    }
  }

  lemma NameAndBodyNeedsClose(a: string)
    ensures NameAndBodyLen(a).Some? ==> Contains(a, ReqClose)
  {
    if NameAndBodyLen(a).Some? {
      var p := LazyFind(a, NameEnd).value;
      BodyNeedsClose(a[p + |NameEnd|..]);
      ContainsSuffix(a, p + |NameEnd|, ReqClose);
    }
  }

  lemma BodyNeedsClose(b: string)
    ensures BodyLen(b).Some? ==> Contains(b, ReqClose)
  {
    if BodyLen(b).Some? {
      var q := LazyFind(b, ReqClose).value;
      assert StartsWith(b[q..], ReqClose);
    }
  }

  // ---------------------------------------------------------------------
  // Worked examples
  // ---------------------------------------------------------------------

  const ExampleRun: string := "aanjnxakacoddsfvsv"
  const ExampleName: string := "sdncujisd"
  const ExampleBody: string := "HIHIHIHIHIH"

  lemma TagStartsWithLt(name: string, body: string, rest: string)
    ensures |ReqTag(name, body) + rest| > 0 && (ReqTag(name, body) + rest)[0] == '<'
  {
    assert ReqTag(name, body) + rest == ReqOpen + (name + NameEnd + body + ReqClose + rest);
  }

  /** A run of text followed by a clean span. */
  lemma WrapRunThenSpan(a: string, name: string, body: string, rest: string)
    requires |a| > 0 && '<' !in a
    requires '\n' !in name && '\n' !in body
    requires !Contains(name, NameEnd) && !Contains(body, ReqClose)
    ensures WrapNonReq(a + ReqTag(name, body) + rest)
      == TextElem(a) + ReqTag(name, body) + WrapNonReq(rest)
  {
    var span := ReqTag(name, body);
    TagStartsWithLt(name, body, rest);
    WrapRun(a, span + rest);
    WrapReqSpan(name, body, rest);
    ConcatAssoc(a, span, rest);
    ConcatAssoc(TextElem(a), span, WrapNonReq(rest));
  }

  /** A span between runs of text, generically. */
  lemma WrapRunSpanRun(a: string, name: string, body: string, c: string)
    requires |a| > 0 && '<' !in a && |c| > 0 && '<' !in c
    requires '\n' !in name && '\n' !in body
    requires !Contains(name, NameEnd) && !Contains(body, ReqClose)
    ensures WrapNonReq(a + ReqTag(name, body) + c)
      == TextElem(a) + ReqTag(name, body) + TextElem(c)
  {
    WrapRunThenSpan(a, name, body, c);
    WrapPlainText(c);
  }

  /** Three runs around two equal spans, generically. */
  lemma WrapThreeRunsTwoSpans(a: string, name: string, body: string)
    requires |a| > 0 && '<' !in a
    requires '\n' !in name && '\n' !in body
    requires !Contains(name, NameEnd) && !Contains(body, ReqClose)
    ensures WrapNonReq(a + ReqTag(name, body) + (a + ReqTag(name, body) + a))
      == TextElem(a) + ReqTag(name, body) + (TextElem(a) + ReqTag(name, body) + TextElem(a))
  {
    WrapRunSpanRun(a, name, body, a);
    WrapRunThenSpan(a, name, body, a + ReqTag(name, body) + a);
  }

  lemma ExampleNameIsClean()
    ensures '\n' !in ExampleName && !Contains(ExampleName, NameEnd)
  {
    AbsentHeadNotContained(ExampleName, NameEnd);
  }

  lemma ExampleBodyIsClean()
    ensures '\n' !in ExampleBody && !Contains(ExampleBody, ReqClose)
  {
    AbsentHeadNotContained(ExampleBody, ReqClose);
  }

  lemma ExampleRunIsClean()
    ensures '<' !in ExampleRun && |ExampleRun| > 0
    ensures Strip(ExampleRun) == ExampleRun
  {
    ExampleRunHasNoLt();
    ExampleRunIsStripped();
  }

  lemma ExampleRunHasNoLt()
    ensures '<' !in ExampleRun
  {
    forall i | 0 <= i < |ExampleRun|
      ensures ExampleRun[i] != '<'
    {
      assert 'a' <= ExampleRun[i] <= 'z';
    }
  }

  lemma ExampleRunIsStripped()
    ensures Strip(ExampleRun) == ExampleRun
  {
    assert ExampleRun[0] == 'a' && ExampleRun[|ExampleRun| - 1] == 'v';
    StripNoSpace(ExampleRun);
  }

  /** The literal input of zeno/test.py: three runs around two spans come
      out as three `<text>` elements alternating with the unchanged spans. */
  lemma TestPyExample()
    ensures WrapNonReq(ExampleRun + ReqTag(ExampleName, ExampleBody)
                       + (ExampleRun + ReqTag(ExampleName, ExampleBody) + ExampleRun))
      == "<text>" + ExampleRun + "</text>" + ReqTag(ExampleName, ExampleBody)
         + ("<text>" + ExampleRun + "</text>" + ReqTag(ExampleName, ExampleBody)
            + ("<text>" + ExampleRun + "</text>"))
  {
    ExampleNameIsClean();
    ExampleBodyIsClean();
    ExampleRunIsClean();
    WrapThreeRunsTwoSpans(ExampleRun, ExampleName, ExampleBody);
  }

  const ShortBefore: string := "AB"
  const ShortName: string := "X"
  const ShortBody: string := "Y"
  const ShortAfter: string := "CD"

  lemma ShortSpanIsClean()
    ensures '\n' !in ShortName && !Contains(ShortName, NameEnd)
    ensures '\n' !in ShortBody && !Contains(ShortBody, ReqClose)
  {
    AbsentHeadNotContained(ShortName, NameEnd);
    AbsentHeadNotContained(ShortBody, ReqClose);
  }

  lemma ShortRunsHaveNoLt()
    ensures '<' !in ShortBefore && '<' !in ShortAfter
  {
  }

  lemma ShortBeforeIsStripped()
    ensures Strip(ShortBefore) == ShortBefore
  {
    StripNoSpace(ShortBefore);
  }

  lemma ShortAfterIsStripped()
    ensures Strip(ShortAfter) == ShortAfter
  {
    StripNoSpace(ShortAfter);
  }

  /** `AB<req name="X">Y</req>CD` becomes
      `<text>AB</text><req name="X">Y</req><text>CD</text>`. */
  lemma SingleSpanExample()
    ensures WrapNonReq(ShortBefore + ReqTag(ShortName, ShortBody) + ShortAfter)
      == "<text>" + ShortBefore + "</text>" + ReqTag(ShortName, ShortBody)
         + ("<text>" + ShortAfter + "</text>")
  {
    ShortSpanIsClean();
    ShortRunsHaveNoLt();
    ShortBeforeIsStripped();
    ShortAfterIsStripped();
    WrapRunSpanRun(ShortBefore, ShortName, ShortBody, ShortAfter);
  }
}
