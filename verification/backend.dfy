/** `ZenoBackend` (zeno/backend.py) as a state record: setup, column
    enumeration, and the pipeline `__process` runs with its status strings
    and the `done_running_inference` flag. The background thread is left
    out: `start_processing` here runs the pipeline to the end, and the
    states a concurrent reader can observe, one after each assignment to
    the status or the flag, are returned as a list. */
module Backend {
  import opened Wrappers
  import opened Columns
  import opened OrderedMaps
  import opened Records
  import opened ColumnStore
  import opened Stages

  datatype Status = Initializing | RunningPredistill | RunningInference | RunningPostdistill | DoneProcessing

  /** The `status` string of each phase. */
  function StatusText(s: Status): string {
    match s
    case Initializing => "Initializing"
    case RunningPredistill => "Running predistill functions"
    case RunningInference => "Running inference"
    case RunningPostdistill => "Running postdistill functions"
    case DoneProcessing => "Done processing"
  }

  /** The phases in the order the pipeline goes through them. */
  function Rank(s: Status): nat {
    match s
    case Initializing => 0
    case RunningPredistill => 1
    case RunningInference => 2
    case RunningPostdistill => 3
    case DoneProcessing => 4
  }

  /** The one transition out of each phase. */
  predicate Next(a: Status, b: Status) {
    Rank(b) == Rank(a) + 1
  }

  /** The registered functions by kind, as `__parse_test_functions` sorts
      them: every test function, the predistill and postdistill function
      names, the metric names, and whether there is a predict function. */
  datatype Registry = Registry(
    tests: seq<string>,
    predistill: seq<string>,
    postdistill: seq<string>,
    metrics: seq<string>,
    hasPredict: bool)

  datatype State = State(
    editable: bool,
    models: seq<string>,
    registry: Registry,
    store: Store,
    columns: seq<ZenoColumn>,
    prompts: ODict<Prompt>,
    currentPromptId: string,
    status: Status,
    doneInference: bool,
    labelColumn: string,
    folders: seq<string>,
    reports: seq<Report>,
    slices: ODict<Slice>,
    tags: ODict<Tag>)

  // ---------------------------------------------------------------------
  // Setup
  // ---------------------------------------------------------------------

  /** What `initial_setup` reads: the parameters, the dataframe's own
      columns, and the pickled folders, reports, slices, tags and prompts
      (or their defaults). */
  datatype Setup = Setup(
    editable: bool,
    models: seq<string>,
    registry: Registry,
    store: Store,
    metadataColumns: seq<ZenoColumn>,
    prompts: ODict<Prompt>,
    labelColumn: string,
    folders: seq<string>,
    reports: seq<Report>,
    slices: ODict<Slice>,
    tags: ODict<Tag>)

  datatype SetupError = IndexError

  /** The slices with "All Instances" put first unless already there. */
  function WithDefaultSlice(slices: ODict<Slice>): ODict<Slice> {
    if AllInstances in slices.entries then slices
    else WithFirst(slices, AllInstances, AllInstancesSlice())
  }

  /** `initial_setup`: the last prompt version is current (which raises on
      no prompts), the status is "Initializing", and the metadata columns
      are both the columns and the complete columns. */
  function InitialSetup(p: Setup): Result<State, SetupError> {
    match LastKey(p.prompts)
    case None => Failure(IndexError)
    case Some(current) =>
      Success(State(
        p.editable, p.models, p.registry,
        p.store.(complete := p.metadataColumns),
        p.metadataColumns, p.prompts, current,
        Initializing, false, p.labelColumn,
        p.folders, p.reports, WithDefaultSlice(p.slices), p.tags))
  }

  /** Setup fails exactly when there is no prompt; otherwise the current
      prompt is the last one stored, inference is not done, and "All
      Instances" is a slice: the first one when it had to be added, with
      every stored slice kept. */
  lemma InitialSetupSpec(p: Setup)
    requires Valid(p.slices)
    ensures InitialSetup(p).Failure? <==> |p.prompts.keys| == 0
    ensures InitialSetup(p).Success? ==>
      var b := InitialSetup(p).value;
      && b.currentPromptId == p.prompts.keys[|p.prompts.keys| - 1]
      && b.status == Initializing && !b.doneInference
      && Valid(b.slices)
      && AllInstances in b.slices.entries
      && (forall k :: k in p.slices.entries ==> k in b.slices.entries && b.slices.entries[k] == p.slices.entries[k])
      && (AllInstances !in p.slices.entries ==>
            b.slices.keys == [AllInstances] + p.slices.keys &&
            b.slices.entries[AllInstances] == AllInstancesSlice())
  {
    if AllInstances !in p.slices.entries {
      WithFirstSpec(p.slices, AllInstances, AllInstancesSlice());
    }
  }

  // ---------------------------------------------------------------------
  // Column enumeration
  // ---------------------------------------------------------------------

  function PredistillColumns(fns: seq<string>): (r: seq<ZenoColumn>)
    ensures |r| == |fns|
  {
    seq(|fns|, i requires 0 <= i < |fns| => NewColumn(PREDISTILL, fns[i], "", ""))
  }

  /** One POSTDISTILL column per function and model, function-major. */
  function PostdistillColumns(fns: seq<string>, models: seq<string>): seq<ZenoColumn> {
    var pairs := Pairs(fns, models);
    seq(|pairs|, i requires 0 <= i < |pairs| => NewColumn(POSTDISTILL, pairs[i].1, pairs[i].0, ""))
  }

  /** The columns `start_processing` adds: one PREDISTILL column per
      predistill function, then one POSTDISTILL column per postdistill
      function and model. */
  function EnumeratedColumns(reg: Registry, models: seq<string>): seq<ZenoColumn> {
    PredistillColumns(reg.predistill) + PostdistillColumns(reg.postdistill, models)
  }

  /** There are `|pre| + |post| * |models|` of them; column `i` is the
      PREDISTILL column of predistill function `i`, and column
      `|pre| + f * |models| + m` is the POSTDISTILL column of postdistill
      function `f` for model `m`. */
  lemma EnumeratedColumnsSpec(reg: Registry, models: seq<string>, i: nat, f: nat, m: nat)
    ensures |EnumeratedColumns(reg, models)| == |reg.predistill| + |reg.postdistill| * |models|
    ensures i < |reg.predistill| ==>
      EnumeratedColumns(reg, models)[i] == NewColumn(PREDISTILL, reg.predistill[i], "", "")
    ensures f < |reg.postdistill| && m < |models| ==>
      |reg.predistill| + f * |models| + m < |EnumeratedColumns(reg, models)| &&
      EnumeratedColumns(reg, models)[|reg.predistill| + f * |models| + m] ==
        NewColumn(POSTDISTILL, reg.postdistill[f], models[m], "")
  {
    PairsLength(reg.postdistill, models);
    if f < |reg.postdistill| && m < |models| {
      PairsOrder(reg.postdistill, models, f, m);
    }
  }

  // ---------------------------------------------------------------------
  // The pipeline
  // ---------------------------------------------------------------------

  /** A run of the pipeline: the states a concurrent reader can observe,
      one after each assignment to the status or to the inference flag,
      and the state the run leaves behind. */
  datatype Trace = Trace(observed: seq<State>, last: State)

  /** The assignments of `__process` around the outcomes of its three
      stages. The flag is set after the inference stage returns and before
      the status moves on, so one observable state has the flag set while
      the status still reads "Running inference". A stage that raises ends
      the run (a later outcome is then never looked at): the exception
      leaves the thread, the store keeps what the stage did before it
      raised, and the status and the flag stay as they were. */
  function Advance(b: State, o1: Outcome, o2: Outcome, o3: Outcome): Trace {
    var b1 := b.(status := RunningPredistill);
    if o1.raised then Trace([b1], b1.(store := o1.store))
    else
      var b2 := b1.(store := o1.store, status := RunningInference);
      if o2.raised then Trace([b1, b2], b2.(store := o2.store))
      else
        var b2f := b2.(store := o2.store, doneInference := true);
        var b3 := b2f.(status := RunningPostdistill);
        if o3.raised then Trace([b1, b2, b2f, b3], b3.(store := o3.store))
        else
          var b4 := b3.(store := o3.store, status := DoneProcessing);
          Trace([b1, b2, b2f, b3, b4], b4)
  }

  /** The outcome of the first stage that raises, or of the last one. */
  function Ended(o1: Outcome, o2: Outcome, o3: Outcome): Outcome {
    if o1.raised then o1 else if o2.raised then o2 else o3
  }

  /** The three stages on a store, each working on the store the one
      before left. */
  function Stages3(run: Runner, s: Store, b: State): Outcome {
    var o1 := Predistill(run, s, b.columns);
    var o2 := Inference(run, o1.store, b.prompts.keys, b.models, b.registry.hasPredict);
    var o3 := Postdistill(run, o2.store, b.columns);
    Ended(o1, o2, o3)
  }

  /** `__process`. */
  function Pipeline(run: Runner, b: State): Trace {
    var o1 := Predistill(run, b.store, b.columns);
    var o2 := Inference(run, o1.store, b.prompts.keys, b.models, b.registry.hasPredict);
    var o3 := Postdistill(run, o2.store, b.columns);
    Advance(b, o1, o2, o3)
  }

  function ProcessStates(run: Runner, b: State): seq<State> {
    Pipeline(run, b).observed
  }

  function Process(run: Runner, b: State): State {
    Pipeline(run, b).last
  }

  /** `start_processing`: with no test function at all, go straight to
      "Done processing" with inference marked done; otherwise add the
      enumerated columns and run the pipeline. */
  function StartProcessing(run: Runner, b: State): State {
    if |b.registry.tests| == 0 then b.(doneInference := true, status := DoneProcessing)
    else Process(run, b.(columns := b.columns + EnumeratedColumns(b.registry, b.models)))
  }

  /** One observable step: either the status moves on one phase and the
      flag stays, or the status stays and the flag is set. */
  predicate Step(x: State, y: State) {
    || (Next(x.status, y.status) && y.doneInference == x.doneInference)
    || (y.status == x.status && !x.doneInference && y.doneInference)
  }

  /** Inference is marked done in every phase after the inference stage,
      and in no phase before it. */
  predicate FlagWithinPhase(x: State) {
    && (Rank(x.status) >= Rank(RunningPostdistill) ==> x.doneInference)
    && (x.doneInference ==> Rank(x.status) >= Rank(RunningInference))
  }

  /** Whatever the stages do, the observed states step one at a time from
      "Initializing", ending at "Done processing" exactly when no stage
      raised; the flag is set only while the status reads "Running
      inference"; the run leaves the last observed state's status and flag
      behind, with the store of the stage that ended it. */
  lemma AdvanceFollowsPhases(b: State, o1: Outcome, o2: Outcome, o3: Outcome)
    requires b.status == Initializing && !b.doneInference
    ensures var t := Advance(b, o1, o2, o3).observed;
      var r := Advance(b, o1, o2, o3).last;
      && 1 <= |t| <= 5
      && Step(b, t[0])
      && (forall i :: 0 < i < |t| ==> Step(t[i - 1], t[i]))
      && (forall i :: 0 <= i < |t| ==> FlagWithinPhase(t[i]))
      && (|t| >= 3 ==> t[2].status == RunningInference && t[2].doneInference)
      && r.status == t[|t| - 1].status && r.doneInference == t[|t| - 1].doneInference
      && r.store == Ended(o1, o2, o3).store
      && (r.status == DoneProcessing <==> |t| == 5)
      && (r.status == DoneProcessing <==> !Ended(o1, o2, o3).raised)
  {
  }

  /** The observed states step one at a time from "Initializing", ending
      at "Done processing" exactly when no stage raised; between the
      inference and postdistill statuses there is a state with the flag
      already set; the run leaves the last observed status behind, and no
      observed state contradicts its phase. */
  lemma ProcessFollowsPhases(run: Runner, b: State)
    requires b.status == Initializing && !b.doneInference
    ensures var t := ProcessStates(run, b);
      var r := Process(run, b);
      && 1 <= |t| <= 5
      && Step(b, t[0])
      && (forall i :: 0 < i < |t| ==> Step(t[i - 1], t[i]))
      && (forall i :: 0 <= i < |t| ==> FlagWithinPhase(t[i]))
      && (|t| >= 3 ==> t[2].status == RunningInference && t[2].doneInference)
      && r.status == t[|t| - 1].status && r.doneInference == t[|t| - 1].doneInference
      && r.store == Stages3(run, b.store, b).store
      && (r.status == DoneProcessing <==> |t| == 5)
      && (r.status == DoneProcessing <==> !Stages3(run, b.store, b).raised)
  {
    var o1 := Predistill(run, b.store, b.columns);
    var o2 := Inference(run, o1.store, b.prompts.keys, b.models, b.registry.hasPredict);
    var o3 := Postdistill(run, o2.store, b.columns);
    AdvanceFollowsPhases(b, o1, o2, o3);
  }

  /** The stage that raises fixes where the run stops: the status names
      that stage, and inference is marked done only once the inference
      stage has returned. */
  lemma ProcessStopsAtRaise(run: Runner, b: State)
    requires !b.doneInference
    ensures var r := Process(run, b);
      var o1 := Predistill(run, b.store, b.columns);
      var o2 := Inference(run, o1.store, b.prompts.keys, b.models, b.registry.hasPredict);
      && (o1.raised ==> r.status == RunningPredistill && !r.doneInference && r.store == o1.store)
      && (!o1.raised && o2.raised ==> r.status == RunningInference && !r.doneInference && r.store == o2.store)
      && (!o1.raised && !o2.raised ==> r.doneInference)
  {
    var o1 := Predistill(run, b.store, b.columns);
    var o2 := Inference(run, o1.store, b.prompts.keys, b.models, b.registry.hasPredict);
    var o3 := Postdistill(run, o2.store, b.columns);
    AdvanceStopsAtRaise(b, o1, o2, o3);
  }

  lemma AdvanceStopsAtRaise(b: State, o1: Outcome, o2: Outcome, o3: Outcome)
    requires !b.doneInference
    ensures var r := Advance(b, o1, o2, o3).last;
      && (o1.raised ==> r.status == RunningPredistill && !r.doneInference && r.store == o1.store)
      && (!o1.raised && o2.raised ==> r.status == RunningInference && !r.doneInference && r.store == o2.store)
      && (!o1.raised && !o2.raised ==> r.doneInference)
  {
  }

  /** The pipeline never touches the prompts, the columns, the models or
      the registry, nor anything the mutators own. */
  lemma ProcessKeepsConfiguration(run: Runner, b: State)
    ensures var r := Process(run, b);
      r == b.(store := r.store, status := r.status, doneInference := r.doneInference)
  {
    var o1 := Predistill(run, b.store, b.columns);
    var o2 := Inference(run, o1.store, b.prompts.keys, b.models, b.registry.hasPredict);
    var o3 := Postdistill(run, o2.store, b.columns);
    AdvanceKeepsConfiguration(b, o1, o2, o3);
  }

  lemma AdvanceKeepsConfiguration(b: State, o1: Outcome, o2: Outcome, o3: Outcome)
    ensures var r := Advance(b, o1, o2, o3).last;
      r == b.(store := r.store, status := r.status, doneInference := r.doneInference)
  {
  }

  /** Without test functions the pipeline is skipped: nothing is called and
      no column is added. */
  lemma StartProcessingNoTests(run: Runner, b: State)
    requires |b.registry.tests| == 0
    ensures var r := StartProcessing(run, b);
      && r.status == DoneProcessing && StatusText(r.status) == "Done processing"
      && r.doneInference
      && r.store == b.store && r.columns == b.columns
  {
  }

  /** With test functions, the columns grow by exactly the enumerated ones
      and the pipeline runs; it reaches "Done processing", with inference
      done, exactly when no stage raises, which is the case when no
      registered function raises and no model name is empty. */
  lemma StartProcessingWithTests(run: Runner, b: State)
    requires |b.registry.tests| > 0 && b.status == Initializing && !b.doneInference
    ensures var b0 := b.(columns := b.columns + EnumeratedColumns(b.registry, b.models));
      var r := StartProcessing(run, b);
      && r.columns == b0.columns
      && (r.status == DoneProcessing <==> !Stages3(run, b.store, b0).raised)
      && (r.status == DoneProcessing ==> r.doneInference)
      && (NeverRaises(run) && (forall m :: m in b.models ==> m != "") ==> r.status == DoneProcessing)
  {
    var b0 := b.(columns := b.columns + EnumeratedColumns(b.registry, b.models));
    ProcessFollowsPhases(run, b0);
    if NeverRaises(run) && (forall m :: m in b.models ==> m != "") {
      NeverRaisesStages(run, b.store, b0);
    }
  }

  /** Functions that never raise, and no empty model name, make no stage
      raise. */
  lemma NeverRaisesStages(run: Runner, s: Store, b: State)
    requires NeverRaises(run) && forall m :: m in b.models ==> m != ""
    ensures !Stages3(run, s, b).raised
  {
    var o1 := Predistill(run, s, b.columns);
    PredistillCallsIncomplete(run, s, b.columns);
    var o2 := Inference(run, o1.store, b.prompts.keys, b.models, b.registry.hasPredict);
    InferenceNeverRaises(run, o1.store, b.prompts.keys, b.models, b.registry.hasPredict);
    var o3 := Postdistill(run, o2.store, b.columns);
    PostdistillCallsNew(run, o2.store, b.columns);
    assert Stages3(run, s, b) == Ended(o1, o2, o3);
  }

  /** Inference raises only through a raising call or an empty model name. */
  lemma InferenceNeverRaises(run: Runner, s: Store, promptIds: seq<string>, models: seq<string>, hasPredict: bool)
    requires NeverRaises(run) && forall m :: m in models ==> m != ""
    ensures !Inference(run, s, promptIds, models, hasPredict).raised
  {
    var pairs := Pairs(promptIds, models);
    CheckPairsSpec(s, pairs);
    if CheckPairs(s, pairs).raised {
      var p :| p in pairs && p.0 == "";
      PairsMembers(promptIds, models, p);
    }
    InferenceCallsIncomplete(run, s, promptIds, models, hasPredict);
  }

  // ---------------------------------------------------------------------
  // Re-running the pipeline
  // ---------------------------------------------------------------------

  /** No stage changes the row count. */
  lemma StageRows(run: Runner, s: Store, b: State)
    ensures Predistill(run, s, b.columns).store.rows == s.rows
    ensures Inference(run, s, b.prompts.keys, b.models, b.registry.hasPredict).store.rows == s.rows
    ensures Postdistill(run, s, b.columns).store.rows == s.rows
  {
    var pre := Check(s, OfKind(b.columns, PREDISTILL));
    CheckSpec(s, OfKind(b.columns, PREDISTILL));
    DispatchLogsCalls(run, pre.0, PredistillCalls(pre.1));
    var pairs := CheckPairs(s, Pairs(b.prompts.keys, b.models));
    CheckPairsSpec(s, Pairs(b.prompts.keys, b.models));
    DispatchLogsCalls(run, pairs.store, InferenceCalls(pairs.queue));
    var post := CheckNew(s, OfKind(b.columns, POSTDISTILL));
    CheckNewSpec(s, OfKind(b.columns, POSTDISTILL));
    DispatchLogsCalls(run, post.0, PostdistillCalls(post.1));
  }

  /** The postdistill stage leaves every postdistill column's key in the
      table, raising or not. */
  lemma PostdistillLoadsAll(run: Runner, s: Store, columns: seq<ZenoColumn>, c: ZenoColumn)
    requires c in OfKind(columns, POSTDISTILL)
    ensures Key(c) in Postdistill(run, s, columns).store.table
  {
    var cands := OfKind(columns, POSTDISTILL);
    CheckNewSpec(s, cands);
    var r := CheckNew(s, cands);
    var i :| 0 <= i < |cands| && cands[i] == c;
    DispatchKeepsKeys(run, r.0, PostdistillCalls(r.1), Key(c));
  }

  /** Predistill and inference remove no table key, raising or not. */
  lemma StagesKeepKeys(run: Runner, s: Store, b: State, x: string)
    requires x in s.table
    ensures x in Predistill(run, s, b.columns).store.table
    ensures x in Inference(run, s, b.prompts.keys, b.models, b.registry.hasPredict).store.table
  {
    var pre := Check(s, OfKind(b.columns, PREDISTILL));
    TableKeysKept(s, OfKind(b.columns, PREDISTILL), x);
    DispatchKeepsKeys(run, pre.0, PredistillCalls(pre.1), x);
    var pairs := CheckPairs(s, Pairs(b.prompts.keys, b.models));
    CheckPairsSpec(s, Pairs(b.prompts.keys, b.models));
    DispatchKeepsKeys(run, pairs.store, InferenceCalls(pairs.queue), x);
  }

  /** After a run in which no stage raised, with sound functions, every
      predistill column and, with a predict function, every output column
      is complete, and every postdistill column is in the table. */
  lemma AfterOneRun(run: Runner, b: State)
    requires Sound(run, b.store.rows)
    ensures var o := Stages3(run, b.store, b);
      && o.store.rows == b.store.rows
      && (!o.raised ==> forall c :: c in OfKind(b.columns, PREDISTILL) ==> Settled(o.store, Key(c)))
      && (!o.raised && b.registry.hasPredict ==>
            forall p :: p in Pairs(b.prompts.keys, b.models) ==> Settled(o.store, Key(OutputColumn(p.0, p.1))))
      && (!o.raised ==> forall c :: c in OfKind(b.columns, POSTDISTILL) ==> Key(c) in o.store.table)
  {
    var s := b.store;
    var o1 := Predistill(run, s, b.columns);
    var o2 := Inference(run, o1.store, b.prompts.keys, b.models, b.registry.hasPredict);
    StageRows(run, s, b);
    StageRows(run, o1.store, b);
    StageRows(run, o2.store, b);
    var o := Stages3(run, s, b);
    if !o.raised {
      forall c | c in OfKind(b.columns, PREDISTILL)
        ensures Settled(o.store, Key(c))
      {
        PredistillSettles(run, s, b.columns, c, Key(c));
        assert multiset(OfKind(b.columns, PREDISTILL))[c] > 0;
        KindKeyUnscanned(c);
        InferenceKeepsSettledKey(run, o1.store, b.prompts.keys, b.models, b.registry.hasPredict, Key(c));
        PostdistillSettlesNew(run, o2.store, b.columns, c, Key(c));
      }
      if b.registry.hasPredict {
        forall p | p in Pairs(b.prompts.keys, b.models)
          ensures Settled(o.store, Key(OutputColumn(p.0, p.1)))
        {
          InferenceSettles(run, o1.store, b.prompts.keys, b.models, p, "");
          PostdistillSettlesNew(run, o2.store, b.columns, OutputColumn(p.0, p.1), Key(OutputColumn(p.0, p.1)));
        }
      }
      forall c | c in OfKind(b.columns, POSTDISTILL)
        ensures Key(c) in o.store.table
      {
        PostdistillLoadsAll(run, o2.store, b.columns, c);
      }
    }
  }

  /** After a run that reached "Done processing", with sound functions and
      a predict function, running the whole pipeline again calls no
      registered function: every stage finds its work list empty. */
  lemma ProcessSecondRunIdle(run: Runner, b: State)
    requires Sound(run, b.store.rows) && b.registry.hasPredict
    ensures var b1 := Process(run, b);
      b1.status == DoneProcessing ==> Process(run, b1).store.calls == b1.store.calls
  {
    var b1 := Process(run, b);
    if b1.status == DoneProcessing {
      assert !Stages3(run, b.store, b).raised;
      assert b1.store == Stages3(run, b.store, b).store;
      AfterOneRun(run, b);
      assert b1.columns == b.columns && b1.prompts == b.prompts && b1.models == b.models && b1.registry == b.registry;
      var s := b1.store;
      // Predistill: every candidate is complete already.
      var pre := OfKind(b.columns, PREDISTILL);
      forall i | 0 <= i < |pre|
        ensures Settled(s, Key(pre[i]))
      {
        assert pre[i] in pre;
      }
      NothingIncomplete(s, pre);
      CheckSpec(s, pre);
      var o1 := Predistill(run, s, b.columns);
      assert o1 == Outcome(Check(s, pre).0, false);
      // Inference: every output column is complete already.
      var pairs := Pairs(b.prompts.keys, b.models);
      forall i | 0 <= i < |pairs|
        ensures Settled(o1.store, Key(OutputColumn(pairs[i].0, pairs[i].1)))
      {
        assert pairs[i] in pairs;
        assert Loaded(o1.store, Key(OutputColumn(pairs[i].0, pairs[i].1))) == Loaded(s, Key(OutputColumn(pairs[i].0, pairs[i].1)));
      }
      NoIncompletePairs(o1.store, pairs);
      InferenceCallsIncomplete(run, o1.store, b.prompts.keys, b.models, true);
      var o2 := Inference(run, o1.store, b.prompts.keys, b.models, true);
      if !o2.raised {
        // Postdistill: every candidate is in the table already.
        var post := OfKind(b.columns, POSTDISTILL);
        forall i | 0 <= i < |post|
          ensures Key(post[i]) in o2.store.table
        {
          assert post[i] in post;
          StagesKeepKeys(run, s, b, Key(post[i]));
          StagesKeepKeys(run, o1.store, b, Key(post[i]));
        }
        CheckNewAllPresent(o2.store, post);
      }
    }
  }
}
