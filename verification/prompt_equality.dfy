/** Structural equality of requirements in the frontend
    (frontend/src/zenoservice/models/Prompt.ts): `areExamplesEqual` and
    `areRequirementsEqual`. An optional field (`examples?`, `mode?`) is an
    `Option`, with `None` for `undefined`. */
module PromptEquality {
  import opened Wrappers

  datatype Example = Example(id: string, input: string, output: string, isPositive: bool, feedback: string)

  datatype Requirement = Requirement(
    id: string,
    name: string,
    description: string,
    promptSnippet: string,
    evaluationMethod: string,
    examples: Option<seq<Example>>,
    mode: Option<string>)

  /** The five field comparisons of the loop body, all `===`. */
  predicate SameFields(a: Example, b: Example) {
    && a.id == b.id
    && a.input == b.input
    && a.output == b.output
    && a.isPositive == b.isPositive
    && a.feedback == b.feedback
  }

  /** Positions `i ..` of two lists of equal length agree field by field. */
  function SameFrom(xs: seq<Example>, ys: seq<Example>, i: nat): bool
    requires |xs| == |ys| && i <= |xs|
    decreases |xs| - i
  {
    if i == |xs| then true
    else SameFields(xs[i], ys[i]) && SameFrom(xs, ys, i + 1)
  }

  /** `areExamplesEqual`: two absent lists are equal, one absent list is not
      (an empty array is truthy), lists of different lengths are not, and
      otherwise the lists are compared position by position. */
  function AreExamplesEqual(e1: Option<seq<Example>>, e2: Option<seq<Example>>): bool {
    if e1.None? && e2.None? then true
    else if e1.None? || e2.None? then false
    else if |e1.value| != |e2.value| then false
    else SameFrom(e1.value, e2.value, 0)
  }

  /** `areRequirementsEqual`. */
  function AreRequirementsEqual(r1: Requirement, r2: Requirement): bool {
    && r1.id == r2.id
    && r1.name == r2.name
    && r1.description == r2.description
    && r1.promptSnippet == r2.promptSnippet
    && r1.evaluationMethod == r2.evaluationMethod
    && r1.mode == r2.mode
    && AreExamplesEqual(r1.examples, r2.examples)
  }

  // ---------------------------------------------------------------------
  // The comparisons are equality
  // ---------------------------------------------------------------------

  lemma {:induction false} SameFromIff(xs: seq<Example>, ys: seq<Example>, i: nat)
    requires |xs| == |ys| && i <= |xs|
    ensures SameFrom(xs, ys, i) <==> xs[i..] == ys[i..]
    decreases |xs| - i
  {
    if i < |xs| {
      SameFromIff(xs, ys, i + 1);
      assert xs[i..] == [xs[i]] + xs[i + 1..];
      assert ys[i..] == [ys[i]] + ys[i + 1..];
      if xs[i..] == ys[i..] {
        assert xs[i] == xs[i..][0] && ys[i] == ys[i..][0];
        assert xs[i + 1..] == xs[i..][1..] && ys[i + 1..] == ys[i..][1..];
      }
    }
  }

  /** `areExamplesEqual` holds exactly when both lists are absent or both
      are present with equal elements in the same order. */
  lemma AreExamplesEqualIff(e1: Option<seq<Example>>, e2: Option<seq<Example>>)
    ensures AreExamplesEqual(e1, e2) <==> e1 == e2
  {
    if e1.Some? && e2.Some? && |e1.value| == |e2.value| {
      SameFromIff(e1.value, e2.value, 0);
      assert e1.value[0..] == e1.value && e2.value[0..] == e2.value;
    }
  }

  /** An absent list differs from every present one, the empty one
      included, and present lists of different lengths differ. */
  lemma AreExamplesEqualEdgeCases(xs: seq<Example>, ys: seq<Example>)
    ensures !AreExamplesEqual(None, Some(xs)) && !AreExamplesEqual(Some(xs), None)
    ensures AreExamplesEqual(None, None)
    ensures |xs| != |ys| ==> !AreExamplesEqual(Some(xs), Some(ys))
  {
  }

  /** `areRequirementsEqual` holds exactly when the two requirements agree on
      every field. */
  lemma AreRequirementsEqualIff(r1: Requirement, r2: Requirement)
    ensures AreRequirementsEqual(r1, r2) <==> r1 == r2
  {
    AreExamplesEqualIff(r1.examples, r2.examples);
  }

  /** It is therefore an equivalence relation. */
  lemma AreRequirementsEqualIsEquivalence(r1: Requirement, r2: Requirement, r3: Requirement)
    ensures AreRequirementsEqual(r1, r1)
    ensures AreRequirementsEqual(r1, r2) ==> AreRequirementsEqual(r2, r1)
    ensures AreRequirementsEqual(r1, r2) && AreRequirementsEqual(r2, r3) ==> AreRequirementsEqual(r1, r3)
  {
    AreRequirementsEqualIff(r1, r1);
    AreRequirementsEqualIff(r1, r2);
    AreRequirementsEqualIff(r2, r1);
    AreRequirementsEqualIff(r2, r3);
    AreRequirementsEqualIff(r1, r3);
  }

  /** The loop of `areExamplesEqual`, returning on the first position where
      a field differs. */
  method CompareExamples(e1: Option<seq<Example>>, e2: Option<seq<Example>>) returns (equal: bool)
    ensures equal <==> e1 == e2
    ensures equal == AreExamplesEqual(e1, e2)
  {
    AreExamplesEqualIff(e1, e2);
    if e1.None? && e2.None? {
      return true;
    }
    if e1.None? || e2.None? {
      return false;
    }
    var examples1 := e1.value;
    var examples2 := e2.value;
    if |examples1| != |examples2| {
      return false;
    }
    var i := 0;
    while i < |examples1|
      invariant 0 <= i <= |examples1|
      invariant examples1[..i] == examples2[..i]
    {
      var example1 := examples1[i];
      var example2 := examples2[i];
      if !SameFields(example1, example2) {
        assert examples1[i] != examples2[i];
        return false;
      }
      assert examples1[..i + 1] == examples1[..i] + [example1];
      assert examples2[..i + 1] == examples2[..i] + [example2];
      i := i + 1;
    }
    assert examples1 == examples1[..i] && examples2 == examples2[..i];
    return true;
  }
}
