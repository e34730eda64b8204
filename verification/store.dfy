/** The backend's data: the table (one series per column key, one entry per
    row, `None` for a missing value), the on-disk cache of series (file stem
    to series, in directory order), the registry of complete columns, and a
    log of the calls made into registered functions.

    Rows are positions `0 .. rows - 1`; pandas aligns a series on the row
    index, which is modelled by position. `load_series` (zeno/util.py, not
    part of this model) is taken to splice the cached series in when the
    cache file exists, to add an all-missing column when neither file nor
    column exists, and to leave an existing column alone otherwise. */
module ColumnStore {
  import opened Wrappers
  import opened Columns
  import opened OrderedMaps

  datatype Value = BoolV(b: bool) | IntV(i: int) | FloatV(r: real) | StrV(s: string)

  type Series = seq<Option<Value>>

  /** `not series.isna().any()`. */
  predicate Complete(xs: Series) {
    forall i :: 0 <= i < |xs| ==> xs[i].Some?
  }

  /** A new column of `n` missing values. */
  function AllMissing(n: nat): (r: Series)
    ensures |r| == n
    ensures forall i :: 0 <= i < n ==> r[i] == None
  {
    seq(n, i => None)
  }

  /** A series aligned on `n` rows: rows it has no entry for are missing. */
  function Align(xs: Series, n: nat): (r: Series)
    ensures |r| == n
    ensures forall i :: 0 <= i < n ==> r[i] == (if i < |xs| then xs[i] else None)
  {
    seq(n, i requires 0 <= i < n => if i < |xs| then xs[i] else None)
  }

  /** A registered function invoked by a stage. */
  datatype Call =
    | PredistillCall(column: ZenoColumn)
    | InferenceCall(model: string, promptId: string)
    | PostdistillCall(column: ZenoColumn)

  /** `DataProcessingReturn`. */
  datatype Ret = Ret(column: ZenoColumn, output: Series)

  /** The registered functions, `predistill_data`, `run_inference` and
      `postdistill_data`: what a call returns for the table it is given, or
      `None` when it raises. */
  type Runner = (Call, map<string, Series>) -> Option<seq<Ret>>

  datatype Store = Store(
    rows: nat,
    table: map<string, Series>,
    cache: ODict<Series>,
    complete: seq<ZenoColumn>,
    calls: seq<Call>)

  /** The model output column of a model under a prompt version. */
  function OutputColumn(model: string, promptId: string): ZenoColumn {
    NewColumn(OUTPUT, "output", model, promptId)
  }

  function EmbeddingColumn(model: string, promptId: string): ZenoColumn {
    NewColumn(EMBEDDING, "embedding", model, promptId)
  }

  /** The column a call is made to fill. */
  function Target(c: Call): ZenoColumn {
    match c
    case PredistillCall(col) => col
    case InferenceCall(m, p) => OutputColumn(m, p)
    case PostdistillCall(col) => col
  }

  // ---------------------------------------------------------------------
  // Loading from the cache
  // ---------------------------------------------------------------------

  /** What the column under `k` holds once `load_series` has run. */
  function Loaded(s: Store, k: string): Series {
    if k in s.cache.entries then Align(s.cache.entries[k], s.rows)
    else if k in s.table then s.table[k]
    else AllMissing(s.rows)
  }

  /** `load_series`. */
  function Load(s: Store, k: string): Store {
    s.(table := s.table[k := Loaded(s, k)])
  }

  /** The column is complete once loaded. */
  predicate Settled(s: Store, k: string) {
    Complete(Loaded(s, k))
  }

  /** Loading is idempotent and does not disturb what any key would load
      to: after `Load(s, k)` the table holds the loaded series under `k`,
      and every key, `k` included, loads as before. */
  lemma LoadKeepsLoaded(s: Store, k: string, x: string)
    ensures k in Load(s, k).table && Load(s, k).table[k] == Loaded(s, k)
    ensures Loaded(Load(s, k), x) == Loaded(s, x)
    ensures Load(Load(s, k), k) == Load(s, k)
  {
  }

  /** A column with no cache file is complete exactly when it is present
      and complete in the table, or the table has no rows. */
  lemma SettledWithoutFile(s: Store, k: string)
    requires k !in s.cache.entries
    ensures Settled(s, k) <==> (k in s.table && Complete(s.table[k])) || (k !in s.table && s.rows == 0)
  {
    if k !in s.table && s.rows > 0 {
      assert Loaded(s, k)[0] == None;
    }
  }

  // ---------------------------------------------------------------------
  // The work-list partition
  // ---------------------------------------------------------------------

  /** The candidates some row of which is missing once loaded. */
  function Incomplete(s: Store, cands: seq<ZenoColumn>): seq<ZenoColumn>
    decreases |cands|
  {
    if |cands| == 0 then []
    else (if Settled(s, Key(cands[0])) then [] else [cands[0]]) + Incomplete(s, cands[1..])
  }

  /** The candidates with no missing row once loaded. */
  function CompleteOnes(s: Store, cands: seq<ZenoColumn>): seq<ZenoColumn>
    decreases |cands|
  {
    if |cands| == 0 then []
    else (if Settled(s, Key(cands[0])) then [cands[0]] else []) + CompleteOnes(s, cands[1..])
  }

  /** The check loop of a stage: load each candidate, then queue it to run
      if a row is missing and register it as complete otherwise. Returns the
      new store and the work list. */
  function Check(s: Store, cands: seq<ZenoColumn>): (Store, seq<ZenoColumn>)
    decreases |cands|
  {
    if |cands| == 0 then (s, [])
    else
      var r := Check(CheckStep(s, cands[0]), cands[1..]);
      (r.0, (if Settled(s, Key(cands[0])) then [] else [cands[0]]) + r.1)
  }

  /** One candidate: load it, and register it if no row is missing. */
  function CheckStep(s: Store, c: ZenoColumn): Store {
    var s1 := Load(s, Key(c));
    if Settled(s, Key(c)) then s1.(complete := s1.complete + [c]) else s1
  }

  /** Each candidate lands on exactly one side: the work list is the
      candidates with a missing row, the complete registry grows by the
      others, both in candidate order; nothing is called, the cache is not
      touched, and every key loads as before. */
  lemma CheckSpec(s: Store, cands: seq<ZenoColumn>)
    ensures var r := Check(s, cands);
      && r.1 == Incomplete(s, cands)
      && r.0.complete == s.complete + CompleteOnes(s, cands)
      && r.0.calls == s.calls
      && r.0.cache == s.cache
      && r.0.rows == s.rows
      && (forall x :: Loaded(r.0, x) == Loaded(s, x))
  {
    CheckFrame(s, cands);
    CheckPartition(s, cands);
  }

  /** For one candidate: the check leaves it as settled as it was, and
      queues it exactly when it is not settled. */
  lemma CheckSettledIff(s: Store, cands: seq<ZenoColumn>, c: ZenoColumn)
    requires c in cands
    ensures Check(s, cands).0.rows == s.rows
    ensures Settled(Check(s, cands).0, Key(c)) == Settled(s, Key(c))
    ensures c in Check(s, cands).1 <==> !Settled(s, Key(c))
  {
    CheckSpec(s, cands);
    PartitionMembers(s, cands, c);
  }

  lemma CheckStepFrame(s: Store, c: ZenoColumn)
    ensures var s2 := CheckStep(s, c);
      && s2.calls == s.calls && s2.cache == s.cache && s2.rows == s.rows
      && (forall x :: Loaded(s2, x) == Loaded(s, x))
  {
    forall x
      ensures Loaded(CheckStep(s, c), x) == Loaded(s, x)
    {
      LoadKeepsLoaded(s, Key(c), x);
    }
  }

  lemma {:induction false} CheckFrame(s: Store, cands: seq<ZenoColumn>)
    ensures var r := Check(s, cands);
      && r.0.calls == s.calls && r.0.cache == s.cache && r.0.rows == s.rows
      && (forall x :: Loaded(r.0, x) == Loaded(s, x))
    decreases |cands|
  {
    if |cands| > 0 {
      var s2 := CheckStep(s, cands[0]);
      assert Check(s, cands).0 == Check(s2, cands[1..]).0;
      CheckStepFrame(s, cands[0]);
      CheckFrame(s2, cands[1..]);
    }
  }

  lemma CheckPartition(s: Store, cands: seq<ZenoColumn>)
    ensures var r := Check(s, cands);
      && r.1 == Incomplete(s, cands)
      && r.0.complete == s.complete + CompleteOnes(s, cands)
  {
    CheckWorkList(s, cands);
    CheckRegisters(s, cands);
  }

  lemma CheckStepSettled(s: Store, c: ZenoColumn)
    ensures forall x :: Settled(CheckStep(s, c), x) == Settled(s, x)
  {
    CheckStepFrame(s, c);
  }

  lemma {:induction false} CheckWorkList(s: Store, cands: seq<ZenoColumn>)
    ensures Check(s, cands).1 == Incomplete(s, cands)
    decreases |cands|
  {
    if |cands| > 0 {
      var s2 := CheckStep(s, cands[0]);
      CheckStepSettled(s, cands[0]);
      CheckWorkList(s2, cands[1..]);
      IncompleteFrame(s2, s, cands[1..]);
    }
  }

  lemma {:induction false} CheckRegisters(s: Store, cands: seq<ZenoColumn>)
    ensures Check(s, cands).0.complete == s.complete + CompleteOnes(s, cands)
    decreases |cands|
  {
    if |cands| > 0 {
      var s2 := CheckStep(s, cands[0]);
      CheckStepSettled(s, cands[0]);
      CheckRegisters(s2, cands[1..]);
      IncompleteFrame(s2, s, cands[1..]);
      var head: seq<ZenoColumn> := if Settled(s, Key(cands[0])) then [cands[0]] else [];
      assert s2.complete == s.complete + head;
      assert CompleteOnes(s, cands) == head + CompleteOnes(s, cands[1..]);
      AppendAssoc(s.complete, head, CompleteOnes(s, cands[1..]));
    }
  }

  lemma AppendAssoc(a: seq<ZenoColumn>, b: seq<ZenoColumn>, c: seq<ZenoColumn>)
    ensures a + b + c == a + (b + c)
  {
  }

  /** After the check every candidate has a column in the table. */
  lemma {:induction false} CheckLoadsAll(s: Store, cands: seq<ZenoColumn>)
    ensures forall i :: 0 <= i < |cands| ==> Key(cands[i]) in Check(s, cands).0.table
    decreases |cands|
  {
    if |cands| > 0 {
      var c := cands[0];
      var s2 := CheckStep(s, c);
      assert Check(s, cands).0 == Check(s2, cands[1..]).0;
      CheckLoadsAll(s2, cands[1..]);
      TableKeysKept(s2, cands[1..], Key(c));
      forall i | 0 <= i < |cands|
        ensures Key(cands[i]) in Check(s, cands).0.table
      {
        if i > 0 {
          assert cands[i] == cands[1..][i - 1];
        }
      }
    }
  }

  /** The filters only depend on what the keys load to. */
  lemma {:induction false} IncompleteFrame(s: Store, t: Store, cands: seq<ZenoColumn>)
    requires forall x :: Settled(s, x) == Settled(t, x)
    ensures Incomplete(s, cands) == Incomplete(t, cands)
    ensures CompleteOnes(s, cands) == CompleteOnes(t, cands)
    decreases |cands|
  {
    if |cands| > 0 {
      IncompleteFrame(s, t, cands[1..]);
    }
  }

  lemma {:induction false} TableKeysKept(s: Store, cands: seq<ZenoColumn>, k: string)
    requires k in s.table
    ensures k in Check(s, cands).0.table
    decreases |cands|
  {
    if |cands| > 0 {
      var s1 := Load(s, Key(cands[0]));
      if Settled(s, Key(cands[0])) {
        TableKeysKept(s1.(complete := s1.complete + [cands[0]]), cands[1..], k);
      } else {
        TableKeysKept(s1, cands[1..], k);
      }
    }
  }

  /** Membership: a candidate is queued exactly when it has a missing row,
      and registered exactly when it has none. */
  lemma {:induction false} PartitionMembers(s: Store, cands: seq<ZenoColumn>, c: ZenoColumn)
    requires c in cands
    ensures c in Incomplete(s, cands) <==> !Settled(s, Key(c))
    ensures c in CompleteOnes(s, cands) <==> Settled(s, Key(c))
    decreases |cands|
  {
    if cands[0] != c {
      PartitionMembers(s, cands[1..], c);
    } else if c in cands[1..] {
      PartitionMembers(s, cands[1..], c);
    } else {
      NotInFilters(s, cands[1..], c);
    }
  }

  lemma {:induction false} NotInFilters(s: Store, cands: seq<ZenoColumn>, c: ZenoColumn)
    requires c !in cands
    ensures c !in Incomplete(s, cands) && c !in CompleteOnes(s, cands)
    decreases |cands|
  {
    if |cands| > 0 {
      NotInFilters(s, cands[1..], c);
    }
  }

  /** When every candidate is already complete, the work list is empty. */
  lemma {:induction false} NothingIncomplete(s: Store, cands: seq<ZenoColumn>)
    requires forall i :: 0 <= i < |cands| ==> Settled(s, Key(cands[i]))
    ensures Incomplete(s, cands) == []
    decreases |cands|
  {
    if |cands| > 0 {
      NothingIncomplete(s, cands[1..]);
    }
  }

  // ---------------------------------------------------------------------
  // Running the work list and merging the results
  // ---------------------------------------------------------------------

  /** The calls of a work list made in order against the same table (the
      sequential branch): the returns of the calls that returned,
      concatenated, how many calls were made, and whether the last one made
      raised. */
  datatype Batch = Batch(rets: seq<Ret>, made: nat, raised: bool)

  function RunAll(run: Runner, calls: seq<Call>, t: map<string, Series>): (b: Batch)
    ensures b.made <= |calls|
    decreases |calls|
  {
    if |calls| == 0 then Batch([], 0, false)
    else
      match run(calls[0], t)
      case None => Batch([], 1, true)
      case Some(head) =>
        var rest := RunAll(run, calls[1..], t);
        Batch(head + rest.rets, rest.made + 1, rest.raised)
  }

  /** A stage's store and whether it ended in an exception. */
  datatype Outcome = Outcome(store: Store, raised: bool)

  /** One return: the processing function has saved the series under the
      column key, and `__set_data_processing_returns` writes it into the
      table and registers the column as complete. */
  function Write(s: Store, r: Ret): Store {
    var k := Key(r.column);
    s.(table := s.table[k := Align(r.output, s.rows)],
       cache := Put(s.cache, k, r.output),
       complete := s.complete + [r.column])
  }

  function Absorb(s: Store, rets: seq<Ret>): Store
    decreases |rets|
  {
    if |rets| == 0 then s else Absorb(Write(s, rets[0]), rets[1..])
  }

  /** The series the processing functions saved to the cache. */
  function Save(cache: ODict<Series>, rets: seq<Ret>): ODict<Series>
    decreases |rets|
  {
    if |rets| == 0 then cache else Save(Put(cache, Key(rets[0].column), rets[0].output), rets[1..])
  }

  /** Make the calls and log them; when every call returns, merge what they
      returned. A raising call ends the stage: the calls before it have
      saved their series to the cache, but nothing is merged into the
      table. */
  function Dispatch(run: Runner, s: Store, calls: seq<Call>): Outcome {
    var b := RunAll(run, calls, s.table);
    var s1 := s.(calls := s.calls + calls[..b.made]);
    if b.raised then Outcome(s1.(cache := Save(s1.cache, b.rets)), true)
    else Outcome(Absorb(s1, b.rets), false)
  }

  /** The calls are made in order up to and including the first that
      raises; the batch raises exactly when some call raises. */
  lemma {:induction false} RunAllSpec(run: Runner, calls: seq<Call>, t: map<string, Series>)
    ensures var b := RunAll(run, calls, t);
      && (b.raised <==> exists i :: 0 <= i < |calls| && run(calls[i], t).None?)
      && (!b.raised ==> b.made == |calls|)
      && (b.raised ==> 0 < b.made && run(calls[b.made - 1], t).None?)
      && (forall i :: 0 <= i < b.made - 1 ==> run(calls[i], t).Some?)
    decreases |calls|
  {
    if |calls| > 0 && run(calls[0], t).Some? {
      RunAllSpec(run, calls[1..], t);
      var rest := RunAll(run, calls[1..], t);
      assert forall i :: 0 < i < |calls| ==> calls[i] == calls[1..][i - 1];
      if rest.raised {
        var i :| 0 <= i < |calls| - 1 && run(calls[1..][i], t).None?;
        assert run(calls[i + 1], t).None?;
      }
    }
  }

  /** The registered columns of a list of returns, in order. */
  function ColumnsOf(rets: seq<Ret>): (cs: seq<ZenoColumn>)
    ensures |cs| == |rets|
    ensures forall i :: 0 <= i < |rets| ==> cs[i] == rets[i].column
  {
    seq(|rets|, i requires 0 <= i < |rets| => rets[i].column)
  }

  /** A well-behaved return: one value per row, none missing. */
  predicate GoodRet(r: Ret, rows: nat) {
    |r.output| == rows && Complete(r.output)
  }

  predicate GoodRets(rets: seq<Ret>, rows: nat) {
    forall i :: 0 <= i < |rets| ==> GoodRet(rets[i], rows)
  }

  /** Some return fills the key. */
  predicate Covers(rets: seq<Ret>, k: string) {
    exists i :: 0 <= i < |rets| && Key(rets[i].column) == k
  }

  /** Registered functions that never raise. */
  ghost predicate NeverRaises(run: Runner) {
    forall c, t :: run(c, t).Some?
  }

  /** Registered functions that fill every row of the column they are
      called for, and of any other column they return. */
  ghost predicate Sound(run: Runner, rows: nat) {
    forall c, t :: run(c, t).Some? ==> GoodRets(run(c, t).value, rows) && Covers(run(c, t).value, Key(Target(c)))
  }

  /** Merging registers the returned columns in order and calls nothing. */
  lemma {:induction false} AbsorbRegisters(s: Store, rets: seq<Ret>)
    ensures Absorb(s, rets).complete == s.complete + ColumnsOf(rets)
    ensures Absorb(s, rets).calls == s.calls
    ensures Absorb(s, rets).rows == s.rows
    decreases |rets|
  {
    if |rets| > 0 {
      var s1 := Write(s, rets[0]);
      AbsorbRegisters(s1, rets[1..]);
      assert s1.complete == s.complete + [rets[0].column];
      ColumnsOfCons(rets);
      AppendAssoc(s.complete, [rets[0].column], ColumnsOf(rets[1..]));
    }
  }

  lemma ColumnsOfCons(rets: seq<Ret>)
    requires |rets| > 0
    ensures ColumnsOf(rets) == [rets[0].column] + ColumnsOf(rets[1..])
  {
  }

  /** `after` is `before` followed by the first calls of `calls`. */
  predicate LogsPrefix(before: seq<Call>, after: seq<Call>, calls: seq<Call>) {
    |before| <= |after| <= |before| + |calls| && after == before + calls[..|after| - |before|]
  }

  /** The first `n` calls stop at the first that raises: each call before
      the last one returned, and the last one raised. */
  predicate StoppedAtRaise(run: Runner, t: map<string, Series>, calls: seq<Call>, n: int) {
    && 0 < n <= |calls|
    && run(calls[n - 1], t).None?
    && forall i :: 0 <= i < n - 1 ==> run(calls[i], t).Some?
  }

  /** What a stage's dispatch of `calls` on table `t` promises about the
      calls it logs, counted from the calls logged before the stage. */
  predicate StageLogged(run: Runner, before: seq<Call>, t: map<string, Series>, calls: seq<Call>, o: Outcome) {
    && (o.raised <==> exists i :: 0 <= i < |calls| && run(calls[i], t).None?)
    && LogsPrefix(before, o.store.calls, calls)
    && (!o.raised ==> o.store.calls == before + calls)
    && (o.raised ==> StoppedAtRaise(run, t, calls, |o.store.calls| - |before|))
  }

  /** Dispatching logs the calls made, in order, up to and including the
      first that raises, and all of them when none raises; the stage raises
      exactly when some call does. */
  lemma DispatchLogsCalls(run: Runner, s: Store, calls: seq<Call>)
    ensures StageLogged(run, s.calls, s.table, calls, Dispatch(run, s, calls))
    ensures Dispatch(run, s, calls).store.rows == s.rows
  {
    var b := RunAll(run, calls, s.table);
    RunAllSpec(run, calls, s.table);
    if !b.raised {
      AbsorbRegisters(s.(calls := s.calls + calls[..b.made]), b.rets);
      assert calls[..|calls|] == calls;
    }
  }

  /** A stage's dispatch of its work list, skipped when the list is empty. */
  function DispatchIfAny(run: Runner, s: Store, calls: seq<Call>): Outcome {
    if |calls| > 0 then Dispatch(run, s, calls) else Outcome(s, false)
  }

  /** `DispatchLogsCalls` for a stage whose check, on store `s`, left `r0`
      and the work list `calls` without calling anything, and whose
      dispatch is skipped when the list is empty. */
  lemma StageLogsCalls(run: Runner, s: Store, r0: Store, calls: seq<Call>)
    requires r0.calls == s.calls
    ensures StageLogged(run, s.calls, r0.table, calls, DispatchIfAny(run, r0, calls))
  {
    if |calls| > 0 {
      DispatchLogsCalls(run, r0, calls);
    } else {
      NothingLogged(run, s, r0);
    }
  }

  lemma NothingLogged(run: Runner, s: Store, r0: Store)
    requires r0.calls == s.calls
    ensures StageLogged(run, s.calls, r0.table, [], Outcome(r0, false))
  {
    assert s.calls + [] == s.calls;
  }

  /** Merging only ever adds table keys. */
  lemma {:induction false} AbsorbKeepsKeys(s: Store, rets: seq<Ret>, x: string)
    requires x in s.table
    ensures x in Absorb(s, rets).table
    decreases |rets|
  {
    if |rets| > 0 {
      AbsorbKeepsKeys(Write(s, rets[0]), rets[1..], x);
    }
  }

  /** Dispatching, raising or not, removes no table key. */
  lemma DispatchKeepsKeys(run: Runner, s: Store, calls: seq<Call>, x: string)
    requires x in s.table
    ensures x in Dispatch(run, s, calls).store.table
  {
    var b := RunAll(run, calls, s.table);
    if !b.raised {
      AbsorbKeepsKeys(s.(calls := s.calls + calls[..b.made]), b.rets, x);
    }
  }

  /** Writing a good return settles its key and keeps every settled key
      settled. */
  lemma WriteSettles(s: Store, r: Ret, x: string)
    requires GoodRet(r, s.rows)
    ensures Settled(Write(s, r), Key(r.column))
    ensures Settled(s, x) ==> Settled(Write(s, r), x)
  {
    assert Align(r.output, s.rows) == r.output;
  }

  /** Merging good returns settles every returned key and unsettles none. */
  lemma {:induction false} AbsorbSettles(s: Store, rets: seq<Ret>, x: string)
    requires GoodRets(rets, s.rows)
    ensures Settled(s, x) ==> Settled(Absorb(s, rets), x)
    ensures Covers(rets, x) ==> Settled(Absorb(s, rets), x)
    decreases |rets|
  {
    if |rets| > 0 {
      var w := Write(s, rets[0]);
      WriteSettles(s, rets[0], x);
      RetsTail(rets, s.rows, x);
      AbsorbSettles(w, rets[1..], x);
    }
  }

  /** The returns after the first are good when all are, and cover a key
      the first does not fill when all do. */
  lemma RetsTail(rets: seq<Ret>, rows: nat, x: string)
    requires |rets| > 0
    ensures GoodRets(rets, rows) ==> GoodRets(rets[1..], rows)
    ensures Covers(rets, x) && Key(rets[0].column) != x ==> Covers(rets[1..], x)
  {
    if GoodRets(rets, rows) {
      forall i | 0 <= i < |rets| - 1
        ensures GoodRet(rets[1..][i], rows)
      {
        assert rets[1..][i] == rets[i + 1];
      }
    }
    if Covers(rets, x) && Key(rets[0].column) != x {
      var i :| 0 <= i < |rets| && Key(rets[i].column) == x;
      assert rets[1..][i - 1] == rets[i];
    }
  }

  /** Every return of every call is good when the functions are sound, and
      when no call raises each call's target is among them. */
  lemma {:induction false} RunAllGood(run: Runner, calls: seq<Call>, t: map<string, Series>, rows: nat)
    requires Sound(run, rows)
    ensures GoodRets(RunAll(run, calls, t).rets, rows)
    ensures !RunAll(run, calls, t).raised ==>
      forall i :: 0 <= i < |calls| ==> Covers(RunAll(run, calls, t).rets, Key(Target(calls[i])))
    decreases |calls|
  {
    if |calls| > 0 && run(calls[0], t).Some? {
      RunAllGood(run, calls[1..], t, rows);
      var head := run(calls[0], t).value;
      var tail := RunAll(run, calls[1..], t).rets;
      assert GoodRets(head, rows) && Covers(head, Key(Target(calls[0])));
      assert forall i :: 0 <= i < |head| ==> (head + tail)[i] == head[i];
      assert forall i :: 0 <= i < |tail| ==> (head + tail)[|head| + i] == tail[i];
      if !RunAll(run, calls, t).raised {
        forall i | 0 <= i < |calls|
          ensures Covers(head + tail, Key(Target(calls[i])))
        {
          if i == 0 {
            var j :| 0 <= j < |head| && Key(head[j].column) == Key(Target(calls[0]));
            assert (head + tail)[j] == head[j];
          } else {
            assert calls[i] == calls[1..][i - 1];
            var j :| 0 <= j < |tail| && Key(tail[j].column) == Key(Target(calls[i]));
            assert (head + tail)[|head| + j] == tail[j];
          }
        }
      }
    }
  }

  /** With sound functions, a dispatch that does not raise settles every
      call's target and unsettles nothing; the calls are logged in order. */
  lemma DispatchSettles(run: Runner, s: Store, calls: seq<Call>, x: string)
    requires Sound(run, s.rows)
    ensures var o := Dispatch(run, s, calls);
      && (!o.raised ==> o.store.calls == s.calls + calls)
      && (!o.raised && Settled(s, x) ==> Settled(o.store, x))
      && (!o.raised ==> forall i :: 0 <= i < |calls| && Key(Target(calls[i])) == x ==> Settled(o.store, x))
  {
    var b := RunAll(run, calls, s.table);
    if !b.raised {
      RunAllSpec(run, calls, s.table);
      assert calls[..b.made] == calls;
      var s1 := s.(calls := s.calls + calls);
      AbsorbRegisters(s1, b.rets);
      RunAllGood(run, calls, s.table, s.rows);
      AbsorbSettles(s1, b.rets, x);
      assert forall y :: Settled(s1, y) == Settled(s, y);
    }
  }
}
