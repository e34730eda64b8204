/** The example formatters of zeno/compiler.py: `example2text` renders one
    example as labelled lines, `examples2text` numbers a list of them. */
module Compiler {
  import opened Wrappers
  import opened Strings
  import opened Numerals

  /** `Union[int, str]`. */
  datatype ExampleId = IntId(n: int) | StrId(s: string)

  /** The pydantic `Example` record; `feedback` is `Optional[str]`. */
  datatype Example = Example(id: ExampleId, input: string, output: string,
                             isPositive: bool, feedback: Option<string>)

  /** An f-string interpolation of an `Optional[str]`: `None` prints as `None`. */
  function Interpolate(o: Option<string>): string {
    match o
    case Some(s) => s
    case None => "None"
  }

  const InputLabel: string := "Input: "
  const ExpectedLabel: string := "\nExpected Output: "
  const IncorrectLabel: string := "\nIncorrect Output: "
  const FeedbackLabel: string := "\nFeedback: "

  /** `example2text`. */
  function Example2Text(e: Example): string {
    if e.isPositive then InputLabel + e.input + ExpectedLabel + e.output
    else InputLabel + e.input + IncorrectLabel + e.output + FeedbackLabel + Interpolate(e.feedback)
  }

  /** The argument of `examples2text`: a string, or a list of examples. */
  datatype ExamplesArg = Text(text: string) | Items(examples: seq<Example>)

  /** The `k`-th entry (counting from one) of the list rendering, around
      an example's text. */
  function Quote(k: nat, x: string): string {
    "[" + Decimal(k) + "] «" + x + "»"
  }

  function Entry(k: nat, e: Example): string {
    Quote(k, Example2Text(e))
  }

  /** The texts of the examples, in order. */
  function Texts(es: seq<Example>): (r: seq<string>)
    ensures |r| == |es|
    ensures forall i :: 0 <= i < |es| ==> r[i] == Example2Text(es[i])
  {
    seq(|es|, i requires 0 <= i < |es| => Example2Text(es[i]))
  }

  /** The texts `xs` as entries numbered from `k`. */
  function Quotes(k: nat, xs: seq<string>): (r: seq<string>)
    ensures |r| == |xs|
    ensures forall i :: 0 <= i < |xs| ==> r[i] == Quote(k + i, xs[i])
  {
    seq(|xs|, i requires 0 <= i < |xs| => Quote(k + i, xs[i]))
  }

  function Entries(es: seq<Example>): (r: seq<string>)
    ensures |r| == |es|
    ensures forall i :: 0 <= i < |es| ==> r[i] == Entry(i + 1, es[i])
  {
    Quotes(1, Texts(es))
  }

  /** `examples2text`. */
  function Examples2Text(arg: ExamplesArg): string {
    match arg
    case Text(s) => s
    case Items(es) => Join("\n", Entries(es))
  }

  // ---------------------------------------------------------------------
  // The list rendering
  // ---------------------------------------------------------------------

  /** A string argument comes back unchanged, an empty list gives the empty
      string, and each further example adds a newline and its numbered
      entry after the ones before it. */
  lemma Examples2TextShape(s: string, es: seq<Example>, e: Example)
    ensures Examples2Text(Text(s)) == s
    ensures Examples2Text(Items([])) == ""
    ensures Examples2Text(Items([e])) == Entry(1, e)
    ensures |es| > 0 ==>
      Examples2Text(Items(es + [e])) == Examples2Text(Items(es)) + "\n" + Entry(|es| + 1, e)
  {
    assert Entries([e]) == [Entry(1, e)];
    if |es| > 0 {
      assert Entries(es + [e]) == Entries(es) + [Entry(|es| + 1, e)];
      JoinAppend("\n", Entries(es), Entry(|es| + 1, e));
    }
  }

  // ---------------------------------------------------------------------
  // Reading a list rendering back
  // ---------------------------------------------------------------------

  /** Reads newline-separated entries `[k] «…»`, `[k+1] «…»`, … up to the
      end of `t`; each text runs to the first `»`. */
  function ReadEntries(t: string, k: nat): Option<seq<string>>
    decreases |t|
  {
    var head := "[" + Decimal(k) + "] «";
    if !StartsWith(t, head) then None
    else
      var rest := t[|head|..];
      var j := IndexOf(rest, '»');
      if j == |rest| then None
      else if j + 1 == |rest| then Some([rest[..j]])
      else if rest[j + 1] != '\n' then None
      else
        match ReadEntries(rest[j + 2..], k + 1)
        case None => None
        case Some(more) => Some([rest[..j]] + more)
  }

  /** Reads a list rendering: no entries at all, or entries from `[1]`. */
  function ReadExamples(t: string): Option<seq<string>> {
    if t == "" then Some([]) else ReadEntries(t, 1)
  }

  /** No field of the example holds the closing quote of an entry. */
  predicate Unquoted(e: Example) {
    '»' !in e.input && '»' !in e.output && '»' !in Interpolate(e.feedback)
  }

  lemma UnquotedText(e: Example)
    requires Unquoted(e)
    ensures '»' !in Example2Text(e)
  {
  }

  /** One entry is read off the front of the text, then the rest. */
  lemma ReadOneEntry(k: nat, x: string, more: string)
    requires '»' !in x
    requires more == "" || more[0] == '\n'
    ensures ReadEntries(Quote(k, x) + more, k) ==
      if more == "" then Some([x])
      else match ReadEntries(more[1..], k + 1)
        case None => None
        case Some(m) => Some([x] + m)
  {
    var head := "[" + Decimal(k) + "] «";
    var rest := x + "»" + more;
    assert Quote(k, x) + more == head + rest;
    PrefixParts(head, rest);
    assert forall j :: 0 <= j < |x| ==> rest[j] == x[j];
    IndexOfIs(rest, '»', |x|);
    assert rest[..|x|] == x;
    if more != "" {
      assert rest[|x| + 2..] == more[1..];
    }
  }

  /** Texts without a `»`, quoted as numbered entries and joined by
      newlines, read back as themselves. */
  lemma {:induction false} ReadEntriesInverse(k: nat, xs: seq<string>)
    requires |xs| > 0
    requires forall i :: 0 <= i < |xs| ==> '»' !in xs[i]
    ensures ReadEntries(Join("\n", Quotes(k, xs)), k) == Some(xs)
    decreases |xs|
  {
    if |xs| == 1 {
      assert Join("\n", Quotes(k, xs)) == Quote(k, xs[0]) + "";
      ReadOneEntry(k, xs[0], "");
      assert xs == [xs[0]];
    } else {
      var tail := Join("\n", Quotes(k + 1, xs[1..]));
      assert Join("\n", Quotes(k, xs)) == Quote(k, xs[0]) + ("\n" + tail) by {
        assert Quotes(k, xs)[1..] == Quotes(k + 1, xs[1..]);
      }
      ReadEntriesInverse(k + 1, xs[1..]);
      ReadOneEntry(k, xs[0], "\n" + tail);
      assert ("\n" + tail)[1..] == tail;
      assert xs == [xs[0]] + xs[1..];
    }
  }

  /** The list rendering reads back as the examples' texts, in order, when
      no field holds a `»`. */
  lemma Examples2TextInverse(es: seq<Example>)
    requires forall i :: 0 <= i < |es| ==> Unquoted(es[i])
    ensures ReadExamples(Examples2Text(Items(es))) == Some(Texts(es))
  {
    if |es| > 0 {
      forall i | 0 <= i < |es|
        ensures '»' !in Example2Text(es[i])
      {
        UnquotedText(es[i]);
      }
      ReadEntriesInverse(1, Texts(es));
      assert Join("\n", Entries(es)) != "" by {
        assert Entries(es)[0][0] == '[';
        if |es| > 1 {
          assert Join("\n", Entries(es)) == Entries(es)[0] + "\n" + Join("\n", Entries(es)[1..]);
        }
      }
    }
  }

  // ---------------------------------------------------------------------
  // Reading one example back
  // ---------------------------------------------------------------------

  /** Splits `label1 + a + label2 + b` at the first newline after `label1`,
      provided `label2` starts there. */
  function SplitLabelled(t: string, label1: string, label2: string): Option<(string, string)> {
    if !StartsWith(t, label1) then None
    else
      var rest := t[|label1|..];
      var k := IndexOf(rest, '\n');
      if StartsWith(rest[k..], label2) then Some((rest[..k], rest[k + |label2|..])) else None
  }

  lemma {:induction false} SplitLabelledInverse(label1: string, a: string, label2: string, b: string)
    requires '\n' !in a && |label2| > 0 && label2[0] == '\n'
    ensures SplitLabelled(label1 + a + label2 + b, label1, label2) == Some((a, b))
  {
    var t := label1 + a + label2 + b;
    var rest := a + label2 + b;
    assert t == label1 + rest;
    PrefixParts(label1, rest);
    ConcatAssoc(a, label2, b);
    PrefixParts(a, label2 + b);
    assert rest[|a|] == '\n';
    IndexOfIs(rest, '\n', |a|);
    PrefixParts(label2, b);
    assert rest[..|a|] == a;
    assert rest[|a| + |label2|..] == (label2 + b)[|label2|..];
  }

  /** Input and output of a positive rendering. */
  function ParsePositive(t: string): Option<(string, string)> {
    SplitLabelled(t, InputLabel, ExpectedLabel)
  }

  /** Input, output and feedback of a negative rendering. */
  function ParseNegative(t: string): Option<(string, string, string)> {
    match SplitLabelled(t, InputLabel, IncorrectLabel)
    case None => None
    case Some((input, more)) =>
      match SplitLabelled(more, "", FeedbackLabel)
      case None => None
      case Some((output, feedback)) => Some((input, output, feedback))
  }

  /** A positive rendering gives back its input and output, as long as the
      input is a single line. */
  lemma PositiveRoundTrip(e: Example)
    requires e.isPositive && '\n' !in e.input
    ensures ParsePositive(Example2Text(e)) == Some((e.input, e.output))
  {
    SplitLabelledInverse(InputLabel, e.input, ExpectedLabel, e.output);
  }

  /** A negative rendering gives back input, output and the printed
      feedback, as long as input and output are single lines. */
  lemma NegativeRoundTrip(e: Example)
    requires !e.isPositive && '\n' !in e.input && '\n' !in e.output
    ensures ParseNegative(Example2Text(e)) == Some((e.input, e.output, Interpolate(e.feedback)))
  {
    var fb := Interpolate(e.feedback);
    var more := e.output + FeedbackLabel + fb;
    assert Example2Text(e) == InputLabel + e.input + IncorrectLabel + more;
    SplitLabelledInverse(InputLabel, e.input, IncorrectLabel, more);
    SplitLabelledInverse("", e.output, FeedbackLabel, fb);
    assert "" + e.output + FeedbackLabel + fb == more;
  }

  lemma LabelsDiffer(more: string)
    ensures !StartsWith(IncorrectLabel + more, ExpectedLabel)
  {
    assert (IncorrectLabel + more)[1] == 'I';
    assert ExpectedLabel[1] == 'E';
  }

  /** A negative rendering never reads as a positive one. */
  lemma NegativeIsNotPositive(e: Example)
    requires !e.isPositive && '\n' !in e.input
    ensures ParsePositive(Example2Text(e)) == None
  {
    var t := Example2Text(e);
    var more := e.output + FeedbackLabel + Interpolate(e.feedback);
    var rest := e.input + IncorrectLabel + more;
    assert t == InputLabel + rest;
    PrefixParts(InputLabel, rest);
    ConcatAssoc(e.input, IncorrectLabel, more);
    PrefixParts(e.input, IncorrectLabel + more);
    IndexOfIs(rest, '\n', |e.input|);
    LabelsDiffer(more);
  }

  /** Positive renderings with single-line inputs are distinct for distinct
      inputs or outputs. */
  lemma PositiveInjective(e1: Example, e2: Example)
    requires e1.isPositive && e2.isPositive && '\n' !in e1.input && '\n' !in e2.input
    requires Example2Text(e1) == Example2Text(e2)
    ensures e1.input == e2.input && e1.output == e2.output
  {
    PositiveRoundTrip(e1);
    PositiveRoundTrip(e2);
  }
}
