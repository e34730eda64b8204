/** Prompt versions and `create_new_prompt` (zeno/backend.py): a new
    prompt is stored under `v<n+1>`, where `n` is the largest version
    number stored so far, and becomes the current prompt. */
module PromptVersions {
  import opened Wrappers
  import opened Numerals
  import opened OrderedMaps
  import opened Records
  import opened Backend

  /** `int(x[1:])` raising `ValueError`, or `max` of nothing. */
  datatype VersionError = ValueError | EmptyMax

  /** `int(x[1:])` for a key made of one leading character and decimal
      digits; anything else raises. */
  function ParseVersion(k: string): Result<nat, VersionError> {
    if |k| >= 2 && AllDigits(k[1..]) then Success(ParseDigits(k[1..])) else Failure(ValueError)
  }

  /** The list comprehension: every key parsed, the first failure raised. */
  function ParseAll(keys: seq<string>): (r: Result<seq<nat>, VersionError>)
    ensures r.Success? ==> |r.value| == |keys|
    decreases |keys|
  {
    if |keys| == 0 then Success([])
    else
      var n :- ParseVersion(keys[0]);
      var rest :- ParseAll(keys[1..]);
      Success([n] + rest)
  }

  function Max(xs: seq<nat>): (m: nat)
    requires |xs| > 0
    ensures m in xs
    ensures forall i :: 0 <= i < |xs| ==> xs[i] <= m
    decreases |xs|
  {
    if |xs| == 1 then xs[0]
    else
      var rest := Max(xs[1..]);
      assert forall i :: 1 <= i < |xs| ==> xs[i] == xs[1..][i - 1];
      if xs[0] >= rest then xs[0] else rest
  }

  /** `get_new_prompt_version`. */
  function NewPromptVersion(keys: seq<string>): Result<string, VersionError> {
    var versions :- ParseAll(keys);
    if |versions| == 0 then Failure(EmptyMax) else Success("v" + Decimal(Max(versions) + 1))
  }

  /** The compile step rewrites the stored prompt's text and requirement
      snippets; it is a parameter here. It leaves the prompt as far as it
      got, and says whether it raised on the way. */
  datatype Compiled = Compiled(prompt: Prompt, raised: bool)

  type Compile = Prompt -> Compiled

  datatype CreateError = VersionFailed(e: VersionError) | CompileRaised

  /** The session after a call, what the call returned, and what it
      raised. */
  datatype Created = Created(state: State, returned: Option<Prompt>, error: Option<CreateError>)

  /** `create_new_prompt`: a read-only session changes nothing and returns
      nothing; otherwise the request is stored under the new version and
      made current before it is compiled, so a compile step that raises
      leaves it stored and current as far as it got, and nothing is
      returned; when it does not raise, the compiled prompt is returned. */
  function CreateNewPrompt(b: State, req: Prompt, compile: Compile): Created {
    if !b.editable then Created(b, None, None)
    else
      match NewPromptVersion(b.prompts.keys)
      case Failure(e) => Created(b, None, Some(VersionFailed(e)))
      case Success(v) =>
        var c := compile(req.(version := v));
        var stored := Prompt(c.prompt.text, v, c.prompt.requirements);
        var s := b.(prompts := Put(b.prompts, v, stored), currentPromptId := v);
        if c.raised then Created(s, None, Some(CompileRaised)) else Created(s, Some(stored), None)
  }

  // ---------------------------------------------------------------------
  // Properties
  // ---------------------------------------------------------------------

  /** Parsing succeeds exactly when every key parses, and then lists the
      keys' numbers in order. */
  lemma {:induction false} ParseAllSpec(keys: seq<string>)
    ensures ParseAll(keys).Success? <==> forall i :: 0 <= i < |keys| ==> ParseVersion(keys[i]).Success?
    ensures ParseAll(keys).Success? ==>
      forall i :: 0 <= i < |keys| ==> ParseAll(keys).value[i] == ParseVersion(keys[i]).value
    decreases |keys|
  {
    if |keys| > 0 {
      ParseAllSpec(keys[1..]);
      assert forall i :: 1 <= i < |keys| ==> keys[i] == keys[1..][i - 1];
    }
  }

  /** A version string `v<n>` parses back to `n`. */
  lemma ParseVersionOfDecimal(n: nat)
    ensures ParseVersion("v" + Decimal(n)) == Success(n)
  {
    var k := "v" + Decimal(n);
    assert k[1..] == Decimal(n);
    ParseDecimal(n);
  }

  /** The new version fails exactly when there are no prompts or some key
      is not a letter followed by digits; otherwise it parses to one more
      than every stored version, so it is not among the keys. */
  lemma NewPromptVersionSpec(keys: seq<string>)
    ensures NewPromptVersion(keys).Success? <==>
      |keys| > 0 && forall i :: 0 <= i < |keys| ==> ParseVersion(keys[i]).Success?
    ensures NewPromptVersion(keys).Success? ==>
      var v := NewPromptVersion(keys).value;
      && ParseVersion(v).Success?
      && (forall i :: 0 <= i < |keys| ==> ParseVersion(keys[i]).value < ParseVersion(v).value)
      && (exists i :: 0 <= i < |keys| && ParseVersion(v).value == ParseVersion(keys[i]).value + 1)
      && v !in keys
  {
    ParseAllSpec(keys);
    var r := NewPromptVersion(keys);
    if r.Success? {
      var versions := ParseAll(keys).value;
      var m := Max(versions);
      ParseVersionOfDecimal(m + 1);
      var i :| 0 <= i < |versions| && versions[i] == m;
      assert ParseVersion(r.value).value == ParseVersion(keys[i]).value + 1;
      forall j | 0 <= j < |keys|
        ensures keys[j] != r.value
      {
        assert versions[j] <= m;
      }
    }
  }

  /** `v1` alone is followed by `v2`. */
  lemma NewPromptVersionExample()
    ensures NewPromptVersion(["v1"]) == Success("v2")
  {
    assert "v1"[1..] == "1";
    assert ParseVersion("v1") == Success(1);
    var keys := ["v1"];
    assert keys[0] == "v1" && keys[1..] == [];
    assert ParseAll(keys[1..]) == Success([]);
    assert ParseVersion(keys[0]) == Success(1);
    assert [1] + [] == [1];
    assert ParseAll(keys) == Success([1]);
    assert Max([1]) == 1;
    assert Decimal(2) == "2";
    assert NewPromptVersion(keys) == Success("v" + Decimal(2));
    assert "v" + "2" == "v2";
  }

  /** A read-only session is left as it is. */
  lemma CreateNewPromptReadOnly(b: State, req: Prompt, compile: Compile)
    requires !b.editable
    ensures CreateNewPrompt(b, req, compile) == Created(b, None, None)
  {
  }

  /** In an editable session the version fails exactly when it cannot be
      computed (with no prompt stored, `max` of nothing), and then nothing
      changes. Otherwise the new prompt is appended under a fresh version,
      carries that version and becomes current, whether or not the compile
      step raises; the stored prompts are untouched and nothing else in the
      session changes; the stored prompt is returned exactly when the
      compile step does not raise. */
  lemma CreateNewPromptSpec(b: State, req: Prompt, compile: Compile)
    requires b.editable && Valid(b.prompts)
    ensures var r := CreateNewPrompt(b, req, compile);
      && (r.error.Some? && r.error.value.VersionFailed? <==> NewPromptVersion(b.prompts.keys).Failure?)
      && (NewPromptVersion(b.prompts.keys).Failure? ==> r.state == b && r.returned == None)
      && (|b.prompts.keys| == 0 ==> r.error == Some(VersionFailed(EmptyMax)))
    ensures NewPromptVersion(b.prompts.keys).Success? ==>
      var r := CreateNewPrompt(b, req, compile);
      var s := r.state;
      var v := s.currentPromptId;
      var c := compile(req.(version := v));
      && v !in b.prompts.entries
      && s.prompts.keys == b.prompts.keys + [v]
      && v in s.prompts.entries
      && s.prompts.entries == b.prompts.entries[v := s.prompts.entries[v]]
      && s.prompts.entries[v] == c.prompt.(version := v)
      && Valid(s.prompts)
      && s == b.(prompts := s.prompts, currentPromptId := v)
      && (r.returned.Some? <==> !c.raised)
      && (r.error == Some(CompileRaised) <==> c.raised)
      && (r.returned.Some? ==> r.returned.value == s.prompts.entries[v])
  {
    var r := CreateNewPrompt(b, req, compile);
    NewPromptVersionSpec(b.prompts.keys);
    if NewPromptVersion(b.prompts.keys).Success? {
      var v := NewPromptVersion(b.prompts.keys).value;
      assert v !in b.prompts.entries;
      var c := compile(req.(version := v));
      PutSpec(b.prompts, v, Prompt(c.prompt.text, v, c.prompt.requirements));
    } else if |b.prompts.keys| == 0 {
      assert ParseAll(b.prompts.keys) == Success([]);
    }
  }
}
