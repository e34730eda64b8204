/** The snippet aligner of zeno/backend.py: `find_best_match` slides a window
    as long as the whitespace-normalised snippet over the prompt and keeps
    the first window with the highest similarity ratio; the caller then
    splices `<req name="…">…</req>` around the matched text. The similarity
    ratio (difflib's `SequenceMatcher.ratio`) is a parameter. */
module Aligner {
  import opened Strings
  import opened ReqMarkup

  // ---------------------------------------------------------------------
  // Whitespace normalisation
  // ---------------------------------------------------------------------

  /** `" ".join(s.split())`. */
  function Normalize(s: string): string {
    Join(" ", Words(s))
  }

  /** Text in normal form: its only whitespace is single inner spaces. */
  predicate IsNormal(t: string) {
    && (forall i :: 0 <= i < |t| && IsSpace(t[i]) ==> t[i] == ' ')
    && (|t| > 0 ==> t[0] != ' ' && t[|t| - 1] != ' ')
    && (forall i :: 0 <= i < |t| - 1 ==> t[i] != ' ' || t[i + 1] != ' ')
  }

  lemma JoinGlue(w: string, r: string)
    requires |w| > 0 && NoSpace(w)
    requires IsNormal(r) && |r| > 0 && !IsSpace(r[0]) && !IsSpace(r[|r| - 1])
    ensures var t := w + " " + r; IsNormal(t) && !IsSpace(t[0]) && !IsSpace(t[|t| - 1])
  {
    var t := w + " " + r;
    assert forall i :: 0 <= i < |w| ==> t[i] == w[i];
    assert forall i :: |w| < i < |t| ==> t[i] == r[i - |w| - 1];
    forall i | 0 <= i < |t| - 1
      ensures t[i] != ' ' || t[i + 1] != ' '
    {
      if i < |w| {
        assert t[i] == w[i];
      } else if i == |w| {
        assert t[i + 1] == r[0];
      } else {
        assert t[i] == r[i - |w| - 1];
        assert t[i + 1] == r[i - |w|];
      }
    }
    assert t[0] == w[0];
    assert t[|t| - 1] == r[|r| - 1];
  }

  lemma {:induction false} JoinWordsIsNormal(ws: seq<string>)
    requires forall i :: 0 <= i < |ws| ==> |ws[i]| > 0 && NoSpace(ws[i])
    ensures IsNormal(Join(" ", ws))
    ensures |ws| > 0 ==>
      var t := Join(" ", ws); |t| > 0 && !IsSpace(t[0]) && !IsSpace(t[|t| - 1])
    decreases |ws|
  {
    if |ws| == 1 {
      var w := ws[0];
      assert NoSpace(w);
    } else if |ws| > 1 {
      JoinWordsIsNormal(ws[1..]);
      JoinGlue(ws[0], Join(" ", ws[1..]));
    }
  }

  /** Normalised text is in normal form. */
  lemma NormalizeIsNormal(s: string)
    ensures IsNormal(Normalize(s))
  {
    JoinWordsIsNormal(Words(s));
  }

  lemma SuffixAfterSpaceIsNormal(t: string, k: nat)
    requires IsNormal(t) && 0 < k < |t| && t[k - 1] == ' '
    ensures IsNormal(t[k..]) && !IsSpace(t[k])
  {
    var u := t[k..];
    assert t[k - 1] != ' ' || t[k] != ' ';
    forall i | 0 <= i < |u| && IsSpace(u[i])
      ensures u[i] == ' '
    {
      assert u[i] == t[k + i];
    }
    forall i | 0 <= i < |u| - 1
      ensures u[i] != ' ' || u[i + 1] != ' '
    {
      assert u[i] == t[k + i] && u[i + 1] == t[k + i + 1];
    }
  }

  /** Text in normal form is left unchanged by normalisation. */
  lemma {:induction false} NormalIsFixed(t: string)
    requires IsNormal(t)
    ensures Normalize(t) == t
    decreases |t|
  {
    if |t| > 0 {
      assert !IsSpace(t[0]);
      var n := WordLen(t);
      assert n >= 1;
      if n == |t| {
        assert t[..n] == t;
        assert Words(t) == [t] + Words([]);
      } else {
        NormalWordsSplit(t);
        NormalIsFixed(t[n + 1..]);
        NormalizeSplit(t, n);
      }
    }
  }

  /** The inductive step: text that is its first word, one space, and a
      fixed rest is fixed. */
  lemma NormalizeSplit(t: string, n: nat)
    requires n + 1 < |t| && t[n] == ' ' && !IsSpace(t[n + 1])
    requires Words(t) == [t[..n]] + Words(t[n + 1..])
    requires Normalize(t[n + 1..]) == t[n + 1..]
    ensures Normalize(t) == t
  {
    var u := t[n + 1..];
    WordsNonEmpty(u);
    JoinCons(" ", t[..n], Words(u));
    SplitAround(t, n);
    assert [t[n]] == " ";
    assert Normalize(t) == t[..n] + " " + Join(" ", Words(u));
  }

  lemma WordsNonEmpty(u: string)
    requires |u| > 0 && !IsSpace(u[0])
    ensures |Words(u)| > 0
  {
  }

  lemma JoinCons(sep: string, w: string, ws: seq<string>)
    requires |ws| > 0
    ensures Join(sep, [w] + ws) == w + sep + Join(sep, ws)
  {
    assert ([w] + ws)[1..] == ws;
  }

  /** Normal text that holds a space splits into its first word and a
      normal rest. */
  lemma NormalWordsSplit(t: string)
    requires IsNormal(t) && |t| > 0 && WordLen(t) < |t|
    ensures var n := WordLen(t);
      && n + 1 < |t| && t[n] == ' '
      && Words(t) == [t[..n]] + Words(t[n + 1..])
      && IsNormal(t[n + 1..]) && !IsSpace(t[n + 1])
  {
    assert !IsSpace(t[0]);
    var n := WordLen(t);
    assert t[n] == ' ';
    assert n + 1 < |t|;
    SuffixAfterSpaceIsNormal(t, n + 1);
    assert t[n..][1..] == t[n + 1..];
    assert Words(t[n..]) == Words(t[n + 1..]);
  }

  /** Normalising twice is normalising once. */
  lemma NormalizeIdempotent(s: string)
    ensures Normalize(Normalize(s)) == Normalize(s)
  {
    NormalizeIsNormal(s);
    NormalIsFixed(Normalize(s));
  }

  // ---------------------------------------------------------------------
  // Sliding-window best match
  // ---------------------------------------------------------------------

  /** A similarity ratio, as `SequenceMatcher.ratio` returns: in [0, 1]. */
  type Score = r: real | 0.0 <= r <= 1.0 witness 0.0

  /** The triple `(best_match, start_index, end_index)`. */
  datatype Match = Match(text: string, start: int, end: int)

  /** What `find_best_match` returns when no window scores above zero. */
  const NoMatch: Match := Match("", -1, -1)

  /** Score of the window of the prompt starting at `i`, as long as the
      normalised snippet `ns`: the window is normalised before comparing. */
  function WindowScore(ratio: (string, string) -> Score, ns: string, prompt: string, i: nat): Score
    requires i + |ns| <= |prompt|
  {
    ratio(ns, Normalize(prompt[i..i + |ns|]))
  }

  /** The windows `0 .. |prompt| - |ns|` in order, keeping a window only when
      it scores strictly above the best so far. */
  function Scan(ratio: (string, string) -> Score, ns: string, prompt: string,
                i: nat, best: Match, highest: real): Match
    decreases |prompt| + 1 - i
  {
    if i + |ns| > |prompt| then best
    else
      var r := WindowScore(ratio, ns, prompt, i);
      if r > highest then Scan(ratio, ns, prompt, i + 1, Match(prompt[i..i + |ns|], i, i + |ns|), r)
      else Scan(ratio, ns, prompt, i + 1, best, highest)
  }

  /** `find_best_match(prompt, snippet)`. */
  function BestMatch(ratio: (string, string) -> Score, prompt: string, snippet: string): Match {
    Scan(ratio, Normalize(snippet), prompt, 0, NoMatch, 0.0)
  }

  /** Reference definition: `m` is the leftmost window whose score is the
      highest and above zero, or `NoMatch` when every window scores zero
      (in particular when the prompt is shorter than the snippet). */
  predicate IsBestMatch(ratio: (string, string) -> Score, ns: string, prompt: string, m: Match) {
    if m.start == -1 then
      && m == NoMatch
      && forall i :: 0 <= i && i + |ns| <= |prompt| ==> WindowScore(ratio, ns, prompt, i) == 0.0
    else
      && 0 <= m.start && m.start + |ns| <= |prompt|
      && m.end == m.start + |ns|
      && m.text == prompt[m.start..m.end]
      && WindowScore(ratio, ns, prompt, m.start) > 0.0
      && (forall i :: 0 <= i && i + |ns| <= |prompt| ==>
            WindowScore(ratio, ns, prompt, i) <= WindowScore(ratio, ns, prompt, m.start))
      && (forall i :: 0 <= i < m.start ==>
            WindowScore(ratio, ns, prompt, i) < WindowScore(ratio, ns, prompt, m.start))
  }

  /** What the scan knows after looking at the windows before `i`. */
  predicate ScanInv(ratio: (string, string) -> Score, ns: string, prompt: string,
                    i: nat, best: Match, highest: real) {
    if best.start == -1 then
      && best == NoMatch && highest == 0.0
      && forall j :: 0 <= j < i && j + |ns| <= |prompt| ==> WindowScore(ratio, ns, prompt, j) == 0.0
    else
      && 0 <= best.start < i && best.start + |ns| <= |prompt|
      && best.end == best.start + |ns|
      && best.text == prompt[best.start..best.end]
      && highest == WindowScore(ratio, ns, prompt, best.start) && highest > 0.0
      && (forall j :: 0 <= j < i && j + |ns| <= |prompt| ==> WindowScore(ratio, ns, prompt, j) <= highest)
      && (forall j :: 0 <= j < best.start ==> WindowScore(ratio, ns, prompt, j) < highest)
  }

  lemma ScanStep(ratio: (string, string) -> Score, ns: string, prompt: string,
                 i: nat, best: Match, highest: real)
    requires ScanInv(ratio, ns, prompt, i, best, highest)
    requires i + |ns| <= |prompt|
    ensures
      var r := WindowScore(ratio, ns, prompt, i);
      if r > highest then ScanInv(ratio, ns, prompt, i + 1, Match(prompt[i..i + |ns|], i, i + |ns|), r)
      else ScanInv(ratio, ns, prompt, i + 1, best, highest)
  {
  }

  lemma {:induction false} ScanMeetsSpec(ratio: (string, string) -> Score, ns: string, prompt: string,
                                         i: nat, best: Match, highest: real)
    requires ScanInv(ratio, ns, prompt, i, best, highest)
    ensures IsBestMatch(ratio, ns, prompt, Scan(ratio, ns, prompt, i, best, highest))
    decreases |prompt| + 1 - i
  {
    if i + |ns| <= |prompt| {
      ScanStep(ratio, ns, prompt, i, best, highest);
      var r := WindowScore(ratio, ns, prompt, i);
      if r > highest {
        ScanMeetsSpec(ratio, ns, prompt, i + 1, Match(prompt[i..i + |ns|], i, i + |ns|), r);
      } else {
        ScanMeetsSpec(ratio, ns, prompt, i + 1, best, highest);
      }
    }
  }

  /** `find_best_match` returns the leftmost highest-scoring window. */
  lemma BestMatchIsBest(ratio: (string, string) -> Score, prompt: string, snippet: string)
    ensures IsBestMatch(ratio, Normalize(snippet), prompt, BestMatch(ratio, prompt, snippet))
  {
    ScanMeetsSpec(ratio, Normalize(snippet), prompt, 0, NoMatch, 0.0);
  }

  /** The reference definition admits exactly one match. */
  lemma BestMatchUnique(ratio: (string, string) -> Score, ns: string, prompt: string, m1: Match, m2: Match)
    requires IsBestMatch(ratio, ns, prompt, m1) && IsBestMatch(ratio, ns, prompt, m2)
    ensures m1 == m2
  {
  }

  /** A match is found exactly when some window scores above zero. */
  lemma BestMatchFoundIff(ratio: (string, string) -> Score, prompt: string, snippet: string)
    ensures var ns := Normalize(snippet);
      BestMatch(ratio, prompt, snippet).start != -1 <==>
      exists i :: 0 <= i && i + |ns| <= |prompt| && WindowScore(ratio, ns, prompt, i) > 0.0
  {
    BestMatchIsBest(ratio, prompt, snippet);
  }

  /** The loop of `find_best_match`. */
  method FindBestMatch(ratio: (string, string) -> Score, prompt: string, snippet: string)
    returns (best: string, start: int, end: int)
    ensures Match(best, start, end) == BestMatch(ratio, prompt, snippet)
    ensures IsBestMatch(ratio, Normalize(snippet), prompt, Match(best, start, end))
  {
    var ns := Normalize(snippet);
    var promptLength := |prompt|;
    var snippetLength := |ns|;
    best, start, end := "", -1, -1;
    var highest: real := 0.0;
    var i := 0;
    while i < promptLength - snippetLength + 1
      invariant i == 0 || i <= promptLength - snippetLength + 1
      invariant Scan(ratio, ns, prompt, i, Match(best, start, end), highest) == BestMatch(ratio, prompt, snippet)
    {
      var substring := prompt[i..i + snippetLength];
      var r := ratio(ns, Normalize(substring));
      if r > highest {
        highest := r;
        best := substring;
        start := i;
        end := i + snippetLength;
      }
      i := i + 1;
    }
    BestMatchIsBest(ratio, prompt, snippet);
  }

  // ---------------------------------------------------------------------
  // Splicing the requirement span into the prompt
  // ---------------------------------------------------------------------

  /** `prompt[:start_index] + wrapped_snippet + prompt[end_index:]`. */
  function Splice(prompt: string, name: string, m: Match): string {
    SliceTo(prompt, m.start) + ReqTag(name, m.text) + SliceFrom(prompt, m.end)
  }

  /** Whatever the aligner returns, the text around the span and the text
      inside it put back together give the prompt again, and the splice
      lengthens the prompt by exactly the markup. */
  lemma SpliceKeepsPrompt(ratio: (string, string) -> Score, prompt: string, snippet: string, name: string)
    ensures var m := BestMatch(ratio, prompt, snippet);
      && SliceTo(prompt, m.start) + m.text + SliceFrom(prompt, m.end) == prompt
      && |Splice(prompt, name, m)| == |prompt| + |ReqTag(name, "")|
  {
    var m := BestMatch(ratio, prompt, snippet);
    BestMatchIsBest(ratio, prompt, snippet);
    if m.start == -1 {
      if |prompt| > 0 {
        assert prompt[..|prompt| - 1] + prompt[|prompt| - 1..] == prompt;
      }
    } else {
      assert prompt[..m.start] + prompt[m.start..m.end] + prompt[m.end..] == prompt;
    }
  }

  /** When a window matched, the span encloses exactly that window. */
  lemma SpliceFound(ratio: (string, string) -> Score, prompt: string, snippet: string, name: string)
    requires BestMatch(ratio, prompt, snippet).start != -1
    ensures var m := BestMatch(ratio, prompt, snippet);
      && 0 <= m.start <= m.end <= |prompt|
      && Splice(prompt, name, m) == prompt[..m.start] + ReqTag(name, prompt[m.start..m.end]) + prompt[m.end..]
  {
    BestMatchIsBest(ratio, prompt, snippet);
  }

  /** When nothing matched, the `-1` indices put an empty span before the
      last character of the prompt (or make it the whole text of an empty
      prompt). */
  lemma SpliceNoMatch(prompt: string, name: string)
    ensures |prompt| > 0 ==>
      Splice(prompt, name, NoMatch)
        == prompt[..|prompt| - 1] + ReqTag(name, "") + [prompt[|prompt| - 1]]
    ensures |prompt| == 0 ==> Splice(prompt, name, NoMatch) == ReqTag(name, "")
  {
    if |prompt| > 0 {
      assert prompt[|prompt| - 1..] == [prompt[|prompt| - 1]];
    }
  }

  /** One requirement to anchor: its name and its prompt snippet. */
  datatype Anchor = Anchor(name: string, snippet: string)

  /** The splice loop of `extract_requirements` and `compile_prompt`: each
      requirement in turn is aligned against the prompt as spliced so far,
      with its snippet stripped. */
  function Annotate(ratio: (string, string) -> Score, prompt: string, anchors: seq<Anchor>): string
    decreases |anchors|
  {
    if |anchors| == 0 then prompt
    else
      var m := BestMatch(ratio, prompt, Strip(anchors[0].snippet));
      Annotate(ratio, Splice(prompt, anchors[0].name, m), anchors[1..])
  }

  /** Total length of the markup added for the given requirements. */
  function MarkupLength(anchors: seq<Anchor>): nat
    decreases |anchors|
  {
    if |anchors| == 0 then 0 else |ReqTag(anchors[0].name, "")| + MarkupLength(anchors[1..])
  }

  /** Every requirement adds one span and removes no text. */
  lemma {:induction false} AnnotateLength(ratio: (string, string) -> Score, prompt: string, anchors: seq<Anchor>)
    ensures |Annotate(ratio, prompt, anchors)| == |prompt| + MarkupLength(anchors)
    decreases |anchors|
  {
    if |anchors| > 0 {
      var m := BestMatch(ratio, prompt, Strip(anchors[0].snippet));
      SpliceKeepsPrompt(ratio, prompt, Strip(anchors[0].snippet), anchors[0].name);
      AnnotateLength(ratio, Splice(prompt, anchors[0].name, m), anchors[1..]);
    }
  }

  // ---------------------------------------------------------------------
  // Taking the markup out again
  // ---------------------------------------------------------------------

  /** Where a splice put its span: the length of the text before it, the
      requirement's name and the length of the enclosed text. */
  datatype Cut = Cut(at: nat, name: string, len: nat)

  /** The cut a splice of match `m` makes. */
  function CutOf(prompt: string, name: string, m: Match): Cut {
    Cut(|SliceTo(prompt, m.start)|, name, |m.text|)
  }

  /** Removes the span a cut describes, keeping the text it enclosed; text
      too short to hold the span is left as it is. */
  function Unsplice(u: string, c: Cut): string {
    var open := |ReqOpen + c.name + NameEnd|;
    var close := c.at + open + c.len;
    if close + |ReqClose| <= |u| then u[..c.at] + u[c.at + open..close] + u[close + |ReqClose|..]
    else u
  }

  lemma UnspliceParts(pre: string, name: string, body: string, post: string)
    ensures Unsplice(pre + ReqTag(name, body) + post, Cut(|pre|, name, |body|)) == pre + body + post
  {
    var opening := ReqOpen + name + NameEnd;
    var u := pre + ReqTag(name, body) + post;
    assert u == pre + opening + body + ReqClose + post;
    var at, close := |pre|, |pre| + |opening| + |body|;
    assert u[..at] == pre;
    assert u[at + |opening|..close] == body;
    assert u[close + |ReqClose|..] == post;
  }

  /** Removing the span of a splice gives back the prompt it was made from. */
  lemma UnspliceUndoesSplice(ratio: (string, string) -> Score, prompt: string, snippet: string, name: string)
    ensures var m := BestMatch(ratio, prompt, snippet);
      Unsplice(Splice(prompt, name, m), CutOf(prompt, name, m)) == prompt
  {
    var m := BestMatch(ratio, prompt, snippet);
    SpliceKeepsPrompt(ratio, prompt, snippet, name);
    UnspliceParts(SliceTo(prompt, m.start), name, m.text, SliceFrom(prompt, m.end));
  }

  /** The cuts of the splice loop, one per requirement, in order. */
  function Cuts(ratio: (string, string) -> Score, prompt: string, anchors: seq<Anchor>): (r: seq<Cut>)
    ensures |r| == |anchors|
    decreases |anchors|
  {
    if |anchors| == 0 then []
    else
      var m := BestMatch(ratio, prompt, Strip(anchors[0].snippet));
      [CutOf(prompt, anchors[0].name, m)] + Cuts(ratio, Splice(prompt, anchors[0].name, m), anchors[1..])
  }

  /** Undoes the cuts, the last one first. */
  function Restore(u: string, cuts: seq<Cut>): string
    decreases |cuts|
  {
    if |cuts| == 0 then u else Unsplice(Restore(u, cuts[1..]), cuts[0])
  }

  /** Taking the spans out in reverse order gives back the prompt the
      requirements were anchored in. */
  lemma {:induction false} AnnotateUndo(ratio: (string, string) -> Score, prompt: string, anchors: seq<Anchor>)
    ensures Restore(Annotate(ratio, prompt, anchors), Cuts(ratio, prompt, anchors)) == prompt
    decreases |anchors|
  {
    if |anchors| > 0 {
      var a := anchors[0];
      var m := BestMatch(ratio, prompt, Strip(a.snippet));
      AnnotateUndo(ratio, Splice(prompt, a.name, m), anchors[1..]);
      UnspliceUndoesSplice(ratio, prompt, Strip(a.snippet), a.name);
    }
  }

  /** The text stored for a prompt: the annotated prompt passed through the
      markup substitution and enclosed in `<prompt>…</prompt>`. */
  function CompiledText(ratio: (string, string) -> Score, prompt: string, anchors: seq<Anchor>): string {
    RenderPrompt(Annotate(ratio, prompt, anchors))
  }

  /** Without requirements, a prompt free of `<` is stored as one stripped
      `<text>` element. */
  lemma CompiledPlainText(ratio: (string, string) -> Score, prompt: string)
    requires '<' !in prompt && |prompt| > 0
    ensures CompiledText(ratio, prompt, []) == "<prompt>" + TextElem(prompt) + "</prompt>"
  {
    WrapPlainText(prompt);
  }
}
