/** The three processing stages of zeno/backend.py, sequential branch:
    `__predistill`, `__inference` with its legacy POSTDISTILL cache scan, and
    `__postdistill`. Each loads its candidate columns, queues those with a
    missing row, and calls the registered functions on the queue only. */
module Stages {
  import opened Wrappers
  import opened Strings
  import opened Columns
  import opened OrderedMaps
  import opened ColumnStore

  /** `[c for c in self.columns if c.column_type == t]`. */
  function OfKind(cols: seq<ZenoColumn>, t: ColumnType): (r: seq<ZenoColumn>)
    ensures forall c :: c in r <==> c in cols && c.columnType == t
    ensures forall c :: multiset(r)[c] == if c.columnType == t then multiset(cols)[c] else 0
    decreases |cols|
  {
    if |cols| == 0 then []
    else
      assert cols == [cols[0]] + cols[1..];
      (if cols[0].columnType == t then [cols[0]] else []) + OfKind(cols[1..], t)
  }

  function PredistillCalls(cs: seq<ZenoColumn>): (r: seq<Call>)
    ensures |r| == |cs|
    ensures forall i :: 0 <= i < |cs| ==> r[i] == PredistillCall(cs[i])
  {
    seq(|cs|, i requires 0 <= i < |cs| => PredistillCall(cs[i]))
  }

  function PostdistillCalls(cs: seq<ZenoColumn>): (r: seq<Call>)
    ensures |r| == |cs|
    ensures forall i :: 0 <= i < |cs| ==> r[i] == PostdistillCall(cs[i])
  {
    seq(|cs|, i requires 0 <= i < |cs| => PostdistillCall(cs[i]))
  }

  // ---------------------------------------------------------------------
  // Predistill
  // ---------------------------------------------------------------------

  /** `__predistill`. */
  function Predistill(run: Runner, s: Store, columns: seq<ZenoColumn>): Outcome {
    var r := Check(s, OfKind(columns, PREDISTILL));
    if |r.1| > 0 then Dispatch(run, r.0, PredistillCalls(r.1)) else Outcome(r.0, false)
  }

  /** The stage calls its function for the predistill columns with a
      missing row, in column order, and for nothing else: for all of them
      when none raises, up to and including the first that raises
      otherwise. It raises exactly when the function raises on one of
      them. */
  lemma PredistillCallsIncomplete(run: Runner, s: Store, columns: seq<ZenoColumn>)
    ensures var q := Incomplete(s, OfKind(columns, PREDISTILL));
      var t := Check(s, OfKind(columns, PREDISTILL)).0.table;
      var o := Predistill(run, s, columns);
      && LogsPrefix(s.calls, o.store.calls, PredistillCalls(q))
      && (!o.raised ==> o.store.calls == s.calls + PredistillCalls(q))
      && (o.raised ==> StoppedAtRaise(run, t, PredistillCalls(q), |o.store.calls| - |s.calls|))
      && (o.raised <==> exists i :: 0 <= i < |q| && run(PredistillCalls(q)[i], t).None?)
  {
    var cands := OfKind(columns, PREDISTILL);
    var r := Check(s, cands);
    assert r.1 == Incomplete(s, cands) && r.0.calls == s.calls by {
      CheckSpec(s, cands);
    }
    PredistillIsDispatch(run, s, columns);
    StageLogsCalls(run, s, r.0, PredistillCalls(Incomplete(s, cands)));
  }

  lemma PredistillIsDispatch(run: Runner, s: Store, columns: seq<ZenoColumn>)
    ensures var r := Check(s, OfKind(columns, PREDISTILL));
      Predistill(run, s, columns) == DispatchIfAny(run, r.0, PredistillCalls(r.1))
  {
  }

  /** With sound functions, a stage that does not raise leaves every
      predistill column complete and keeps a complete column complete. */
  lemma PredistillSettles(run: Runner, s: Store, columns: seq<ZenoColumn>, c: ZenoColumn, x: string)
    requires Sound(run, s.rows)
    ensures var o := Predistill(run, s, columns);
      && (!o.raised && c in OfKind(columns, PREDISTILL) ==> Settled(o.store, Key(c)))
      && (!o.raised && Settled(s, x) ==> Settled(o.store, x))
  {
    PredistillKeepsSettledKey(run, s, columns, x);
    if c in OfKind(columns, PREDISTILL) {
      PredistillSettlesTarget(run, s, columns, c);
    }
  }

  lemma PredistillKeepsSettledKey(run: Runner, s: Store, columns: seq<ZenoColumn>, x: string)
    requires Sound(run, s.rows)
    ensures var o := Predistill(run, s, columns);
      !o.raised && Settled(s, x) ==> Settled(o.store, x)
  {
    var cands := OfKind(columns, PREDISTILL);
    CheckSpec(s, cands);
    var r := Check(s, cands);
    assert Settled(r.0, x) == Settled(s, x);
    if |r.1| > 0 {
      DispatchSettles(run, r.0, PredistillCalls(r.1), x);
    }
  }

  lemma PredistillSettlesTarget(run: Runner, s: Store, columns: seq<ZenoColumn>, c: ZenoColumn)
    requires Sound(run, s.rows)
    requires c in OfKind(columns, PREDISTILL)
    ensures var o := Predistill(run, s, columns);
      !o.raised ==> Settled(o.store, Key(c))
  {
    var cands := OfKind(columns, PREDISTILL);
    var r := Check(s, cands);
    CheckSettledIff(s, cands, c);
    var calls := PredistillCalls(r.1);
    if !Settled(s, Key(c)) {
      var i :| 0 <= i < |r.1| && r.1[i] == c;
      assert Target(calls[i]) == c;
      DispatchSettles(run, r.0, calls, Key(c));
    } else if |r.1| > 0 {
      DispatchSettles(run, r.0, calls, Key(c));
    }
  }

  /** After a stage that did not raise, with sound functions, running it
      again calls nothing and does not raise. */
  lemma PredistillSecondRunIdle(run: Runner, s: Store, columns: seq<ZenoColumn>)
    requires Sound(run, s.rows)
    ensures var o := Predistill(run, s, columns);
      !o.raised ==>
        var o2 := Predistill(run, o.store, columns);
        !o2.raised && o2.store.calls == o.store.calls
  {
    var cands := OfKind(columns, PREDISTILL);
    var o := Predistill(run, s, columns);
    if !o.raised {
      forall i | 0 <= i < |cands|
        ensures Settled(o.store, Key(cands[i]))
      {
        PredistillSettles(run, s, columns, cands[i], Key(cands[i]));
      }
      NothingIncomplete(o.store, cands);
      PredistillCallsIncomplete(run, o.store, columns);
    }
  }

  // ---------------------------------------------------------------------
  // Inference
  // ---------------------------------------------------------------------

  /** `[(model, prompt) for prompt in prompts for model in models]`. */
  function Pairs(promptIds: seq<string>, models: seq<string>): seq<(string, string)>
    decreases |promptIds|
  {
    if |promptIds| == 0 then []
    else seq(|models|, j requires 0 <= j < |models| => (models[j], promptIds[0])) + Pairs(promptIds[1..], models)
  }

  /** The pairs run prompt-major: pair `i * |models| + j` is model `j` under
      prompt `i`. */
  lemma {:induction false} PairsOrder(promptIds: seq<string>, models: seq<string>, i: nat, j: nat)
    requires i < |promptIds| && j < |models|
    ensures |Pairs(promptIds, models)| == |promptIds| * |models|
    ensures i * |models| + j < |Pairs(promptIds, models)| &&
            Pairs(promptIds, models)[i * |models| + j] == (models[j], promptIds[i])
    decreases |promptIds|
  {
    PairsLength(promptIds, models);
    IndexBound(i, j, |models|, |promptIds|);
    if i == 0 {
      PairsSplit(promptIds, models, j);
    } else {
      PairsLength(promptIds[1..], models);
      PairsOrder(promptIds[1..], models, i - 1, j);
      RowIndex(i, j, |models|, |promptIds|);
      PairsSplit(promptIds, models, i * |models| + j);
      assert promptIds[1..][i - 1] == promptIds[i];
    }
  }

  /** The first prompt's block, then the rest. */
  lemma PairsSplit(promptIds: seq<string>, models: seq<string>, k: nat)
    requires |promptIds| > 0
    requires k < |models| + |Pairs(promptIds[1..], models)|
    ensures k < |models| ==> Pairs(promptIds, models)[k] == (models[k], promptIds[0])
    ensures k >= |models| ==> Pairs(promptIds, models)[k] == Pairs(promptIds[1..], models)[k - |models|]
  {
  }

  lemma IndexBound(i: nat, j: nat, m: nat, n: nat)
    requires i < n && j < m
    ensures i * m + j < n * m
  {
    assert i * m + m <= n * m by {
      assert (i + 1) * m <= n * m;
    }
  }

  /** Index arithmetic of a row-major table with `m` columns and `n` rows. */
  lemma RowIndex(i: nat, j: nat, m: nat, n: nat)
    requires 0 < i < n && j < m
    ensures i * m + j == m + ((i - 1) * m + j)
    ensures (i - 1) * m + j < (n - 1) * m
  {
    assert i * m == m + (i - 1) * m;
    assert (i - 1) * m + m <= (n - 1) * m by {
      assert i * m <= (n - 1) * m;
    }
  }

  lemma {:induction false} PairsLength(promptIds: seq<string>, models: seq<string>)
    ensures |Pairs(promptIds, models)| == |promptIds| * |models|
    decreases |promptIds|
  {
    if |promptIds| > 0 {
      PairsLength(promptIds[1..], models);
    }
  }

  function InferenceCalls(pairs: seq<(string, string)>): (r: seq<Call>)
    ensures |r| == |pairs|
    ensures forall i :: 0 <= i < |pairs| ==> r[i] == InferenceCall(pairs[i].0, pairs[i].1)
  {
    seq(|pairs|, i requires 0 <= i < |pairs| => InferenceCall(pairs[i].0, pairs[i].1))
  }

  /** The pairs are exactly the combinations of a listed model with a
      listed prompt version. */
  lemma PairsMembers(promptIds: seq<string>, models: seq<string>, p: (string, string))
    ensures p in Pairs(promptIds, models) <==> p.0 in models && p.1 in promptIds
  {
    if p in Pairs(promptIds, models) {
      PairsListed(promptIds, models, p);
    }
    if p.0 in models && p.1 in promptIds {
      var i :| 0 <= i < |promptIds| && promptIds[i] == p.1;
      var j :| 0 <= j < |models| && models[j] == p.0;
      PairsOrder(promptIds, models, i, j);
    }
  }

  /** Every pair joins a listed model with a listed prompt version. */
  lemma {:induction false} PairsListed(promptIds: seq<string>, models: seq<string>, p: (string, string))
    requires p in Pairs(promptIds, models)
    ensures p.0 in models && p.1 in promptIds
    decreases |promptIds|
  {
    var head := seq(|models|, j requires 0 <= j < |models| => (models[j], promptIds[0]));
    if p in head {
      var j :| 0 <= j < |models| && head[j] == p;
    } else {
      PairsListed(promptIds[1..], models, p);
      assert promptIds[1..] <= promptIds[1..] && forall q :: q in promptIds[1..] ==> q in promptIds;
    }
  }

  // ---------------------------------------------------------------------
  // The legacy POSTDISTILL scan
  // ---------------------------------------------------------------------

  /** Keys the legacy scan never writes: those without the POSTDISTILL
      prefix. */
  predicate Unscanned(x: string) {
    !StartsWith(x, TypeName(POSTDISTILL))
  }

  /** Predistill, output and embedding keys start with their own kind. */
  lemma KindKeyUnscanned(c: ZenoColumn)
    requires c.columnType == PREDISTILL || c.columnType == OUTPUT || c.columnType == EMBEDDING
    ensures Unscanned(Key(c))
  {
    var k := Key(c);
    var p := TypeName(POSTDISTILL);
    assert k == TypeName(c.columnType) + (c.name + ModelPart(c) + PromptPart(c));
    if |p| <= |k| {
      if c.columnType == PREDISTILL {
        assert k[..|p|][1] == 'R' != p[1];
      } else {
        assert k[..|p|][0] != p[0];
      }
    }
  }

  /** A cache file the glob of a model lists. */
  predicate Matches(s: Store, model: string, f: string) {
    f in s.cache.entries && GlobMatch(f + PickleExt, model)
  }

  /** What the scan does for one matching file whose name it read. */
  function LegacyWrite(s: Store, model: string, f: string, name: string): Store
    requires f in s.cache.entries
  {
    var col := NewColumn(POSTDISTILL, name, model, "");
    s.(table := s.table[Key(col) := Align(s.cache.entries[f], s.rows)], complete := s.complete + [col])
  }

  /** `glob("POSTDISTILL*" + model + ".pickle")` over the cache, as
      written: each listed file that matches is read into the table under
      the key of the column named `basename.split(model)[0][11:]`, and that
      column is registered as complete. With an empty model name the split
      raises at the first matching file, before anything is read. */
  function LegacyScan(s: Store, model: string, files: seq<string>): Outcome
    decreases |files|
  {
    if |files| == 0 then Outcome(s, false)
    else
      var f := files[0];
      var base := f + PickleExt;
      if f in s.cache.entries && GlobMatch(base, model) then
        match LegacyNameAsWritten(base, model)
        case Failure(_) => Outcome(s, true)
        case Success(name) => LegacyScan(LegacyWrite(s, model, f, name), model, files[1..])
      else LegacyScan(s, model, files[1..])
  }

  /** The scan as written calls nothing and leaves the cache alone; it
      removes no key and writes only keys with the POSTDISTILL prefix; it
      raises exactly when the model name is empty and some listed file
      matches, and then before changing anything. */
  lemma {:induction false} LegacyScanFrame(s: Store, model: string, files: seq<string>)
    ensures var o := LegacyScan(s, model, files);
      && o.store.calls == s.calls && o.store.cache == s.cache && o.store.rows == s.rows
      && (forall x :: Unscanned(x) ==> Loaded(o.store, x) == Loaded(s, x))
      && (forall x :: x in s.table ==> x in o.store.table)
      && (o.raised <==> model == "" && exists f :: f in files && Matches(s, model, f))
      && (o.raised ==> o.store == s)
    decreases |files|
  {
    if |files| > 0 {
      var f := files[0];
      assert forall g :: g in files <==> g == f || g in files[1..];
      if Matches(s, model, f) && model != "" {
        var name := LegacyNameAsWritten(f + PickleExt, model).value;
        var s1 := LegacyWrite(s, model, f, name);
        LegacyWriteFrame(s, model, f, name);
        LegacyScanFrame(s1, model, files[1..]);
      } else if !Matches(s, model, f) {
        LegacyScanFrame(s, model, files[1..]);
      }
    }
  }

  /** Reading one file back writes a POSTDISTILL key only, and changes which
      files match nothing. */
  lemma LegacyWriteFrame(s: Store, model: string, f: string, name: string)
    requires f in s.cache.entries
    ensures var s1 := LegacyWrite(s, model, f, name);
      && s1.calls == s.calls && s1.cache == s.cache && s1.rows == s.rows
      && (forall x :: Unscanned(x) ==> Loaded(s1, x) == Loaded(s, x))
      && (forall x :: x in s.table ==> x in s1.table)
      && (forall g :: Matches(s1, model, g) == Matches(s, model, g))
  {
    var col := NewColumn(POSTDISTILL, name, model, "");
    assert Key(col) == TypeName(POSTDISTILL) + (name + model);
    PrefixParts(TypeName(POSTDISTILL), name + model);
  }

  /** The column the scan is after for one cache file: the name between the
      kind prefix and the model. */
  function IntendedLegacyColumn(base: string, model: string): ZenoColumn
    requires GlobMatch(base, model)
  {
    NewColumn(POSTDISTILL, RecoverName(base, model), model, "")
  }

  /** The scan as evidently intended: the same loop, naming each column by
      `RecoverName`. It never raises. */
  function IntendedLegacyScan(s: Store, model: string, files: seq<string>): Store
    decreases |files|
  {
    if |files| == 0 then s
    else
      var f := files[0];
      var base := f + PickleExt;
      if f in s.cache.entries && GlobMatch(base, model) then
        IntendedLegacyScan(LegacyWrite(s, model, f, RecoverName(base, model)), model, files[1..])
      else IntendedLegacyScan(s, model, files[1..])
  }

  /** The column the intended scan reads back from a matching file has that
      file's stem as its key, so the series goes back under the key it was
      saved under. */
  lemma LegacyKeyIsStem(f: string, model: string)
    requires GlobMatch(f + PickleExt, model)
    ensures Key(IntendedLegacyColumn(f + PickleExt, model)) == f
  {
    var base := f + PickleExt;
    var p := TypeName(POSTDISTILL);
    var name := RecoverName(base, model);
    assert base[..|p|] == p;
    assert base[|base| - |model + PickleExt|..] == model + PickleExt;
    assert f == base[..|base| - |PickleExt|];
    assert f[..|p|] == p;
    assert base[|f| - |model|..] == model + PickleExt;
    assert (model + PickleExt)[..|model|] == model;
    assert base[|f| - |model|..][..|model|] == base[|f| - |model|..|f|];
    assert f[|f| - |model|..] == base[|f| - |model|..|f|];
    assert f[|p|..|f| - |model|] == name;
    assert f == f[..|p|] + f[|p|..|f| - |model|] + f[|f| - |model|..];
    assert Key(IntendedLegacyColumn(base, model)) == p + name + model + "";
  }

  /** The intended scan only re-reads cached series: every key loads as
      before, and nothing is called or written to the cache. */
  lemma {:induction false} IntendedLegacyScanFrame(s: Store, model: string, files: seq<string>)
    ensures var r := IntendedLegacyScan(s, model, files);
      && r.calls == s.calls && r.cache == s.cache && r.rows == s.rows
      && (forall x :: Loaded(r, x) == Loaded(s, x))
    decreases |files|
  {
    if |files| > 0 {
      var f := files[0];
      var base := f + PickleExt;
      if f in s.cache.entries && GlobMatch(base, model) {
        LegacyKeyIsStem(f, model);
        var s1 := LegacyWrite(s, model, f, RecoverName(base, model));
        assert forall x :: Loaded(s1, x) == Loaded(s, x);
        IntendedLegacyScanFrame(s1, model, files[1..]);
      } else {
        IntendedLegacyScanFrame(s, model, files[1..]);
      }
    }
  }

  /** Where the split reads every matching file's name back as intended,
      the scan as written is the intended scan. */
  lemma {:induction false} LegacyScanAsIntended(s: Store, model: string, files: seq<string>)
    requires forall f :: f in files && Matches(s, model, f) ==>
      LegacyNameAsWritten(f + PickleExt, model) == Success(RecoverName(f + PickleExt, model))
    ensures LegacyScan(s, model, files) == Outcome(IntendedLegacyScan(s, model, files), false)
    decreases |files|
  {
    if |files| > 0 {
      var f := files[0];
      var base := f + PickleExt;
      assert forall g :: g in files[1..] ==> g in files;
      if Matches(s, model, f) {
        var s1 := LegacyWrite(s, model, f, RecoverName(base, model));
        LegacyWriteFrame(s, model, f, RecoverName(base, model));
        LegacyScanAsIntended(s1, model, files[1..]);
      } else {
        LegacyScanAsIntended(s, model, files[1..]);
      }
    }
  }

  /** The scan as written puts the cached series of function `gpt4_length`
      for model `gpt4` back under the key of a column with the empty name,
      and registers that column as complete, where the intended scan uses
      the file's own stem. */
  lemma LegacyScanCounterexample(s: Store)
    requires Key(NewColumn(POSTDISTILL, "gpt4_length", "gpt4", "")) in s.cache.entries
    ensures var f := Key(NewColumn(POSTDISTILL, "gpt4_length", "gpt4", ""));
      var wrong := NewColumn(POSTDISTILL, "", "gpt4", "");
      var o := LegacyScan(s, "gpt4", [f]);
      && !o.raised
      && Key(wrong) != f
      && o.store.table == s.table[Key(wrong) := Align(s.cache.entries[f], s.rows)]
      && o.store.complete == s.complete + [wrong]
      && Key(IntendedLegacyColumn(f + PickleExt, "gpt4")) == f
  {
    var f := Key(NewColumn(POSTDISTILL, "gpt4_length", "gpt4", ""));
    CounterexampleFile();
    LegacyScanOneFile(s, "gpt4", f, "");
  }

  /** The cache file of function `gpt4_length` for model `gpt4`: it matches
      the model's glob, the split recovers the empty name, and the
      corrected recovery gives back its stem. */
  lemma CounterexampleFile()
    ensures var f := Key(NewColumn(POSTDISTILL, "gpt4_length", "gpt4", ""));
      && GlobMatch(f + PickleExt, "gpt4")
      && LegacyNameAsWritten(f + PickleExt, "gpt4") == Success("")
      && Key(NewColumn(POSTDISTILL, "", "gpt4", "")) != f
      && Key(IntendedLegacyColumn(f + PickleExt, "gpt4")) == f
  {
    var f := Key(NewColumn(POSTDISTILL, "gpt4_length", "gpt4", ""));
    CounterexampleSplit();
    LegacyKeyIsStem(f, "gpt4");
    assert |Key(NewColumn(POSTDISTILL, "", "gpt4", ""))| < |f|;
  }

  lemma CounterexampleSplit()
    ensures var f := Key(NewColumn(POSTDISTILL, "gpt4_length", "gpt4", ""));
      && GlobMatch(f + PickleExt, "gpt4")
      && LegacyNameAsWritten(f + PickleExt, "gpt4") == Success("")
  {
    var f := Key(NewColumn(POSTDISTILL, "gpt4_length", "gpt4", ""));
    LegacyNameAsWrittenCounterexample();
    assert "gpt4" + "_length" == "gpt4_length";
    assert FileName(NewColumn(POSTDISTILL, "gpt4_length", "gpt4", "")) == f + PickleExt;
  }

  /** The scan as written over a single matching file. */
  lemma LegacyScanOneFile(s: Store, model: string, f: string, name: string)
    requires f in s.cache.entries && GlobMatch(f + PickleExt, model)
    requires LegacyNameAsWritten(f + PickleExt, model) == Success(name)
    ensures LegacyScan(s, model, [f]) == Outcome(LegacyWrite(s, model, f, name), false)
  {
    assert [f][1..] == [];
  }

  // ---------------------------------------------------------------------
  // The inference check
  // ---------------------------------------------------------------------

  /** One pair: load its output and embedding columns; when the output is
      complete, register it and scan the cache for the model's legacy
      POSTDISTILL files, listed in the cache's order. */
  function PairStep(s: Store, pair: (string, string)): Outcome {
    var out := OutputColumn(pair.0, pair.1);
    var s1 := Load(Load(s, Key(out)), Key(EmbeddingColumn(pair.0, pair.1)));
    if Settled(s, Key(out)) then LegacyScan(s1.(complete := s1.complete + [out]), pair.0, s1.cache.keys)
    else Outcome(s1, false)
  }

  /** The pairs whose output column has a missing row once loaded. */
  function IncompletePairs(s: Store, pairs: seq<(string, string)>): seq<(string, string)>
    decreases |pairs|
  {
    if |pairs| == 0 then []
    else
      var head := if Settled(s, Key(OutputColumn(pairs[0].0, pairs[0].1))) then [] else [pairs[0]];
      head + IncompletePairs(s, pairs[1..])
  }

  /** The store after the inference check, its work list, and whether the
      legacy scan raised. */
  datatype PairCheck = PairCheck(store: Store, queue: seq<(string, string)>, raised: bool)

  function CheckPairs(s: Store, pairs: seq<(string, string)>): PairCheck
    decreases |pairs|
  {
    if |pairs| == 0 then PairCheck(s, [], false)
    else
      var o := PairStep(s, pairs[0]);
      if o.raised then PairCheck(o.store, [], true)
      else
        var r := CheckPairs(o.store, pairs[1..]);
        var head := if Settled(s, Key(OutputColumn(pairs[0].0, pairs[0].1))) then [] else [pairs[0]];
        PairCheck(r.store, head + r.queue, r.raised)
  }

  /** `__inference` over every prompt version and model. Without a predict
      function nothing is run; a raising legacy scan ends the stage before
      anything is run. */
  function Inference(run: Runner, s: Store, promptIds: seq<string>, models: seq<string>, hasPredict: bool): Outcome {
    var r := CheckPairs(s, Pairs(promptIds, models));
    if r.raised then Outcome(r.store, true)
    else if |r.queue| > 0 && hasPredict then Dispatch(run, r.store, InferenceCalls(r.queue))
    else Outcome(r.store, false)
  }

  lemma PairStepFrame(s: Store, pair: (string, string))
    ensures var o := PairStep(s, pair);
      && o.store.calls == s.calls && o.store.cache == s.cache && o.store.rows == s.rows
      && (forall x :: Unscanned(x) ==> Loaded(o.store, x) == Loaded(s, x))
      && (forall x :: x in s.table ==> x in o.store.table)
      && (o.raised ==> pair.0 == "")
  {
    var out := Key(OutputColumn(pair.0, pair.1));
    var emb := Key(EmbeddingColumn(pair.0, pair.1));
    var s0 := Load(s, out);
    var s1 := Load(s0, emb);
    forall x
      ensures Loaded(s1, x) == Loaded(s, x)
    {
      LoadKeepsLoaded(s, out, x);
      LoadKeepsLoaded(s0, emb, x);
    }
    if Settled(s, out) {
      LegacyScanFrame(s1.(complete := s1.complete + [OutputColumn(pair.0, pair.1)]), pair.0, s1.cache.keys);
    }
  }

  lemma {:induction false} IncompletePairsFrame(s: Store, t: Store, pairs: seq<(string, string)>)
    requires forall x :: Unscanned(x) ==> Settled(s, x) == Settled(t, x)
    ensures IncompletePairs(s, pairs) == IncompletePairs(t, pairs)
    decreases |pairs|
  {
    if |pairs| > 0 {
      KindKeyUnscanned(OutputColumn(pairs[0].0, pairs[0].1));
      IncompletePairsFrame(s, t, pairs[1..]);
    }
  }

  /** When the check does not raise its work list is the pairs with a
      missing output row; it raises only for a pair of the empty model
      name. It calls nothing, removes no key, and every key outside the
      scan's reach loads as before. */
  lemma {:induction false} CheckPairsSpec(s: Store, pairs: seq<(string, string)>)
    ensures var r := CheckPairs(s, pairs);
      && (!r.raised ==> r.queue == IncompletePairs(s, pairs))
      && (r.raised ==> exists p :: p in pairs && p.0 == "")
      && r.store.calls == s.calls && r.store.rows == s.rows
      && (forall x :: Unscanned(x) ==> Settled(r.store, x) == Settled(s, x))
      && (forall x :: x in s.table ==> x in r.store.table)
    decreases |pairs|
  {
    if |pairs| > 0 {
      var o := PairStep(s, pairs[0]);
      PairStepFrame(s, pairs[0]);
      assert forall x :: Unscanned(x) ==> Settled(o.store, x) == Settled(s, x);
      assert pairs[0] in pairs;
      if !o.raised {
        CheckPairsSpec(o.store, pairs[1..]);
        IncompletePairsFrame(o.store, s, pairs[1..]);
        assert forall p :: p in pairs[1..] ==> p in pairs;
      }
    }
  }

  /** A pair is queued exactly when its output column has a missing row. */
  lemma {:induction false} IncompletePairsMembers(s: Store, pairs: seq<(string, string)>, p: (string, string))
    requires p in pairs
    ensures p in IncompletePairs(s, pairs) <==> !Settled(s, Key(OutputColumn(p.0, p.1)))
    decreases |pairs|
  {
    if pairs[0] != p || p in pairs[1..] {
      IncompletePairsMembers(s, pairs[1..], p);
    } else {
      NotInIncompletePairs(s, pairs[1..], p);
    }
  }

  lemma {:induction false} NotInIncompletePairs(s: Store, pairs: seq<(string, string)>, p: (string, string))
    requires p !in pairs
    ensures p !in IncompletePairs(s, pairs)
    decreases |pairs|
  {
    if |pairs| > 0 {
      NotInIncompletePairs(s, pairs[1..], p);
    }
  }

  lemma {:induction false} NoIncompletePairs(s: Store, pairs: seq<(string, string)>)
    requires forall i :: 0 <= i < |pairs| ==> Settled(s, Key(OutputColumn(pairs[i].0, pairs[i].1)))
    ensures IncompletePairs(s, pairs) == []
    decreases |pairs|
  {
    if |pairs| > 0 {
      NoIncompletePairs(s, pairs[1..]);
    }
  }

  /** Inference calls the predict function for the pairs with a missing
      output row, in pair order, and for nothing else: for all of them when
      the stage does not raise, none when the check raises, up to and
      including the first that raises otherwise, and not at all without a
      predict function. It raises exactly when the check raises or the
      function raises on a queued pair. */
  lemma InferenceCallsIncomplete(run: Runner, s: Store, promptIds: seq<string>, models: seq<string>, hasPredict: bool)
    ensures var q := IncompletePairs(s, Pairs(promptIds, models));
      var r := CheckPairs(s, Pairs(promptIds, models));
      var o := Inference(run, s, promptIds, models, hasPredict);
      && LogsPrefix(s.calls, o.store.calls, InferenceCalls(q))
      && (!o.raised ==> o.store.calls == s.calls + (if hasPredict then InferenceCalls(q) else []))
      && (r.raised ==> o.store.calls == s.calls)
      && (o.raised && !r.raised ==> StoppedAtRaise(run, r.store.table, InferenceCalls(q), |o.store.calls| - |s.calls|))
      && (o.raised <==>
            (r.raised || (hasPredict && exists i :: 0 <= i < |q| && run(InferenceCalls(q)[i], r.store.table).None?)))
  {
    if CheckPairs(s, Pairs(promptIds, models)).raised {
      InferenceCheckRaised(run, s, promptIds, models, hasPredict);
      assert InferenceCalls(IncompletePairs(s, Pairs(promptIds, models)))[..0] == [];
    } else {
      InferenceDispatched(run, s, promptIds, models, hasPredict);
    }
  }

  lemma InferenceCheckRaised(run: Runner, s: Store, promptIds: seq<string>, models: seq<string>, hasPredict: bool)
    requires CheckPairs(s, Pairs(promptIds, models)).raised
    ensures var o := Inference(run, s, promptIds, models, hasPredict);
      o.raised && o.store.calls == s.calls
  {
    CheckPairsQueue(s, Pairs(promptIds, models));
  }

  lemma InferenceDispatched(run: Runner, s: Store, promptIds: seq<string>, models: seq<string>, hasPredict: bool)
    requires !CheckPairs(s, Pairs(promptIds, models)).raised
    ensures var q := IncompletePairs(s, Pairs(promptIds, models));
      var r := CheckPairs(s, Pairs(promptIds, models));
      var o := Inference(run, s, promptIds, models, hasPredict);
      && LogsPrefix(s.calls, o.store.calls, InferenceCalls(q))
      && (!o.raised ==> o.store.calls == s.calls + (if hasPredict then InferenceCalls(q) else []))
      && (o.raised ==> StoppedAtRaise(run, r.store.table, InferenceCalls(q), |o.store.calls| - |s.calls|))
      && (o.raised <==> hasPredict && exists i :: 0 <= i < |q| && run(InferenceCalls(q)[i], r.store.table).None?)
  {
    var pairs := Pairs(promptIds, models);
    var r := CheckPairs(s, pairs);
    CheckPairsQueue(s, pairs);
    InferenceIsDispatch(run, s, promptIds, models, hasPredict);
    PredictLogsCalls(run, s, r.store, InferenceCalls(r.queue), hasPredict, Inference(run, s, promptIds, models, hasPredict));
  }

  /** The dispatch of the inference stage, skipped without a predict
      function. */
  lemma PredictLogsCalls(run: Runner, s: Store, r0: Store, calls: seq<Call>, hasPredict: bool, o: Outcome)
    requires o == DispatchIfAny(run, r0, if hasPredict then calls else []) && r0.calls == s.calls
    ensures && LogsPrefix(s.calls, o.store.calls, calls)
            && (!o.raised ==> o.store.calls == s.calls + (if hasPredict then calls else []))
            && (o.raised ==> StoppedAtRaise(run, r0.table, calls, |o.store.calls| - |s.calls|))
            && (o.raised <==> hasPredict && exists i :: 0 <= i < |calls| && run(calls[i], r0.table).None?)
  {
    StageLogsCalls(run, s, r0, if hasPredict then calls else []);
    if !hasPredict {
      assert calls[..0] == [];
    }
  }

  /** The work list of the inference check, with nothing called. */
  lemma CheckPairsQueue(s: Store, pairs: seq<(string, string)>)
    ensures var r := CheckPairs(s, pairs);
      r.store.calls == s.calls && (!r.raised ==> r.queue == IncompletePairs(s, pairs))
  {
    CheckPairsSpec(s, pairs);
  }

  lemma InferenceIsDispatch(run: Runner, s: Store, promptIds: seq<string>, models: seq<string>, hasPredict: bool)
    ensures var r := CheckPairs(s, Pairs(promptIds, models));
      !r.raised ==>
        Inference(run, s, promptIds, models, hasPredict)
          == DispatchIfAny(run, r.store, if hasPredict then InferenceCalls(r.queue) else [])
  {
  }

  /** With a predict function and sound functions, a stage that does not
      raise leaves every output column complete, and keeps complete every
      complete column the scan cannot reach. */
  lemma InferenceSettles(run: Runner, s: Store, promptIds: seq<string>, models: seq<string>, p: (string, string), x: string)
    requires Sound(run, s.rows)
    ensures var o := Inference(run, s, promptIds, models, true);
      && (!o.raised && Unscanned(x) && Settled(s, x) ==> Settled(o.store, x))
      && (!o.raised && p in Pairs(promptIds, models) ==> Settled(o.store, Key(OutputColumn(p.0, p.1))))
  {
    InferenceKeepsSettledKey(run, s, promptIds, models, true, x);
    if p in Pairs(promptIds, models) {
      InferenceSettlesTarget(run, s, promptIds, models, p);
    }
  }

  /** With or without a predict function, inference that does not raise
      keeps complete every complete column the scan cannot reach. */
  lemma InferenceKeepsSettledKey(run: Runner, s: Store, promptIds: seq<string>, models: seq<string>, hasPredict: bool, x: string)
    requires Sound(run, s.rows)
    ensures var o := Inference(run, s, promptIds, models, hasPredict);
      !o.raised && Unscanned(x) && Settled(s, x) ==> Settled(o.store, x)
  {
    var pairs := Pairs(promptIds, models);
    CheckPairsSpec(s, pairs);
    var r := CheckPairs(s, pairs);
    if !r.raised && |r.queue| > 0 && hasPredict {
      DispatchSettles(run, r.store, InferenceCalls(r.queue), x);
    }
  }

  lemma InferenceSettlesTarget(run: Runner, s: Store, promptIds: seq<string>, models: seq<string>, p: (string, string))
    requires Sound(run, s.rows)
    requires p in Pairs(promptIds, models)
    ensures var o := Inference(run, s, promptIds, models, true);
      !o.raised ==> Settled(o.store, Key(OutputColumn(p.0, p.1)))
  {
    var pairs := Pairs(promptIds, models);
    var r := CheckPairs(s, pairs);
    CheckPairsSettledIff(s, pairs, p);
    var k := Key(OutputColumn(p.0, p.1));
    if !r.raised {
      var calls := InferenceCalls(r.queue);
      if !Settled(s, k) {
        var i :| 0 <= i < |r.queue| && r.queue[i] == p;
        assert Target(calls[i]) == OutputColumn(p.0, p.1);
        DispatchSettles(run, r.store, calls, k);
      } else if |r.queue| > 0 {
        DispatchSettles(run, r.store, calls, k);
      }
    }
  }

  /** For one pair: the check leaves its output as settled as it was, and
      when it does not raise it queues the pair exactly when its output is
      not settled. */
  lemma CheckPairsSettledIff(s: Store, pairs: seq<(string, string)>, p: (string, string))
    requires p in pairs
    ensures CheckPairs(s, pairs).store.rows == s.rows
    ensures var k := Key(OutputColumn(p.0, p.1));
      && Settled(CheckPairs(s, pairs).store, k) == Settled(s, k)
      && (!CheckPairs(s, pairs).raised ==> (p in CheckPairs(s, pairs).queue <==> !Settled(s, k)))
  {
    CheckPairsSpec(s, pairs);
    KindKeyUnscanned(OutputColumn(p.0, p.1));
    IncompletePairsMembers(s, pairs, p);
  }

  /** After inference that did not raise, with a predict function and
      sound functions, running it again calls nothing. */
  lemma InferenceSecondRunIdle(run: Runner, s: Store, promptIds: seq<string>, models: seq<string>)
    requires Sound(run, s.rows)
    ensures var o := Inference(run, s, promptIds, models, true);
      !o.raised ==> Inference(run, o.store, promptIds, models, true).store.calls == o.store.calls
  {
    var pairs := Pairs(promptIds, models);
    var o := Inference(run, s, promptIds, models, true);
    if !o.raised {
      forall i | 0 <= i < |pairs|
        ensures Settled(o.store, Key(OutputColumn(pairs[i].0, pairs[i].1)))
      {
        InferenceSettles(run, s, promptIds, models, pairs[i], "");
      }
      NoIncompletePairs(o.store, pairs);
      InferenceCallsIncomplete(run, o.store, promptIds, models, true);
    }
  }

  // ---------------------------------------------------------------------
  // Postdistill
  // ---------------------------------------------------------------------

  /** The check loop of `__postdistill`: a column whose key is already in
      the table (read back by the legacy scan, or loaded for an earlier
      column of the same key) is skipped outright. */
  function CheckNew(s: Store, cands: seq<ZenoColumn>): (Store, seq<ZenoColumn>)
    decreases |cands|
  {
    if |cands| == 0 then (s, [])
    else if Key(cands[0]) in s.table then CheckNew(s, cands[1..])
    else
      var r := CheckNew(CheckStep(s, cands[0]), cands[1..]);
      (r.0, (if Settled(s, Key(cands[0])) then [] else [cands[0]]) + r.1)
  }

  /** `__postdistill`. */
  function Postdistill(run: Runner, s: Store, columns: seq<ZenoColumn>): Outcome {
    var r := CheckNew(s, OfKind(columns, POSTDISTILL));
    if |r.1| > 0 then Dispatch(run, r.0, PostdistillCalls(r.1)) else Outcome(r.0, false)
  }

  /** The first candidate of each key not in `present`, in order. */
  function Firsts(present: set<string>, cands: seq<ZenoColumn>): seq<ZenoColumn>
    decreases |cands|
  {
    if |cands| == 0 then []
    else if Key(cands[0]) in present then Firsts(present, cands[1..])
    else [cands[0]] + Firsts(present + {Key(cands[0])}, cands[1..])
  }

  /** Candidate `i` is the first of its key, and that key is not in
      `present`. */
  predicate FirstOfKey(present: set<string>, cands: seq<ZenoColumn>, i: int) {
    && 0 <= i < |cands|
    && Key(cands[i]) !in present
    && forall j :: 0 <= j < i ==> Key(cands[j]) != Key(cands[i])
  }

  lemma FirstOfKeyTail(present: set<string>, cands: seq<ZenoColumn>, i: int)
    requires 0 < i < |cands|
    ensures var k0 := Key(cands[0]);
      var next := if k0 in present then present else present + {k0};
      FirstOfKey(present, cands, i) <==> FirstOfKey(next, cands[1..], i - 1)
  {
    assert cands[i] == cands[1..][i - 1];
    assert forall j :: 0 < j < i ==> cands[j] == cands[1..][j - 1];
  }

  /** A column is among the firsts exactly when it is a first of its key
      that is not in `present`. */
  lemma {:induction false} FirstsMembers(present: set<string>, cands: seq<ZenoColumn>, c: ZenoColumn)
    ensures c in Firsts(present, cands) <==> exists i :: FirstOfKey(present, cands, i) && cands[i] == c
    decreases |cands|
  {
    if |cands| > 0 {
      var k0 := Key(cands[0]);
      var rest := cands[1..];
      var next := if k0 in present then present else present + {k0};
      FirstsMembers(next, rest, c);
      if exists i :: FirstOfKey(present, cands, i) && cands[i] == c {
        var i :| FirstOfKey(present, cands, i) && cands[i] == c;
        if i > 0 {
          FirstOfKeyTail(present, cands, i);
          assert FirstOfKey(next, rest, i - 1) && rest[i - 1] == c;
        }
      }
      if exists i :: FirstOfKey(next, rest, i) && rest[i] == c {
        var i :| FirstOfKey(next, rest, i) && rest[i] == c;
        FirstOfKeyTail(present, cands, i + 1);
        assert FirstOfKey(present, cands, i + 1) && cands[i + 1] == c;
      }
      if k0 !in present {
        assert FirstOfKey(present, cands, 0);
      }
    }
  }

  /** The postdistill check is the predistill check run on the first
      candidate of each key absent from the table. */
  lemma {:induction false} CheckNewIsCheck(s: Store, cands: seq<ZenoColumn>)
    ensures CheckNew(s, cands) == Check(s, Firsts(s.table.Keys, cands))
    decreases |cands|
  {
    if |cands| > 0 {
      var c := cands[0];
      if Key(c) !in s.table {
        var s1 := CheckStep(s, c);
        assert s1.table.Keys == s.table.Keys + {Key(c)};
        CheckNewIsCheck(s1, cands[1..]);
        var f := Firsts(s.table.Keys, cands);
        assert f[0] == c && f[1..] == Firsts(s1.table.Keys, cands[1..]);
      } else {
        CheckNewIsCheck(s, cands[1..]);
      }
    }
  }

  lemma {:induction false} CheckNewKeys(s: Store, cands: seq<ZenoColumn>)
    ensures var r := CheckNew(s, cands);
      && (forall x :: x in s.table ==> x in r.0.table)
      && (forall i :: 0 <= i < |cands| ==> Key(cands[i]) in r.0.table)
    decreases |cands|
  {
    if |cands| > 0 {
      var c := cands[0];
      var t := if Key(c) in s.table then s else CheckStep(s, c);
      assert Key(c) in t.table && forall x :: x in s.table ==> x in t.table;
      CheckNewKeys(t, cands[1..]);
      forall i | 0 <= i < |cands|
        ensures Key(cands[i]) in CheckNew(s, cands).0.table
      {
        if i > 0 {
          assert cands[i] == cands[1..][i - 1];
        }
      }
    }
  }

  /** The check queues the firsts with a missing row and registers the
      others, in candidate order; it calls nothing, touches no cache entry,
      leaves every key loading as before, and leaves every candidate's key
      in the table. */
  /** The work list of the postdistill check, with nothing called. */
  lemma CheckNewQueue(s: Store, columns: seq<ZenoColumn>)
    ensures var r := CheckNew(s, OfKind(columns, POSTDISTILL));
      r.1 == NewIncomplete(s, columns) && r.0.calls == s.calls
  {
    CheckNewSpec(s, OfKind(columns, POSTDISTILL));
  }

  lemma CheckNewSpec(s: Store, cands: seq<ZenoColumn>)
    ensures var r := CheckNew(s, cands);
      var f := Firsts(s.table.Keys, cands);
      && r.1 == Incomplete(s, f)
      && r.0.complete == s.complete + CompleteOnes(s, f)
      && r.0.calls == s.calls && r.0.cache == s.cache && r.0.rows == s.rows
      && (forall x :: Loaded(r.0, x) == Loaded(s, x))
      && (forall x :: x in s.table ==> x in r.0.table)
      && (forall i :: 0 <= i < |cands| ==> Key(cands[i]) in r.0.table)
  {
    CheckNewIsCheck(s, cands);
    CheckSpec(s, Firsts(s.table.Keys, cands));
    CheckNewKeys(s, cands);
  }

  /** A candidate is queued exactly when it is the first of a key absent
      from the table and has a missing row once loaded, and registered as
      complete exactly when it is such a first with none. */
  lemma CheckNewMembers(s: Store, cands: seq<ZenoColumn>, c: ZenoColumn)
    ensures var r := CheckNew(s, cands);
      && |s.complete| <= |r.0.complete|
      && (c in r.1 <==> (exists i :: FirstOfKey(s.table.Keys, cands, i) && cands[i] == c) && !Settled(s, Key(c)))
      && (c in r.0.complete[|s.complete|..] <==>
            (exists i :: FirstOfKey(s.table.Keys, cands, i) && cands[i] == c) && Settled(s, Key(c)))
  {
    var f := Firsts(s.table.Keys, cands);
    CheckNewSpec(s, cands);
    FirstsMembers(s.table.Keys, cands, c);
    var r := CheckNew(s, cands);
    assert r.0.complete[|s.complete|..] == CompleteOnes(s, f);
    if c in f {
      PartitionMembers(s, f, c);
    } else {
      NotInFilters(s, f, c);
    }
  }

  lemma {:induction false} CheckNewAllPresent(s: Store, cands: seq<ZenoColumn>)
    requires forall i :: 0 <= i < |cands| ==> Key(cands[i]) in s.table
    ensures CheckNew(s, cands).1 == [] && CheckNew(s, cands).0 == s
    decreases |cands|
  {
    if |cands| > 0 {
      CheckNewAllPresent(s, cands[1..]);
    }
  }

  /** The columns the stage runs: the first postdistill column of each key
      absent from the table, of those the ones with a missing row once
      loaded, in column order. */
  function NewIncomplete(s: Store, columns: seq<ZenoColumn>): seq<ZenoColumn> {
    Incomplete(s, Firsts(s.table.Keys, OfKind(columns, POSTDISTILL)))
  }

  /** The stage calls its function for exactly those columns, in order: for
      all of them when none raises, up to and including the first that raises
      otherwise. It raises exactly when the function raises on one of them. */
  lemma PostdistillCallsNew(run: Runner, s: Store, columns: seq<ZenoColumn>)
    ensures var q := NewIncomplete(s, columns);
      var t := CheckNew(s, OfKind(columns, POSTDISTILL)).0.table;
      var o := Postdistill(run, s, columns);
      && LogsPrefix(s.calls, o.store.calls, PostdistillCalls(q))
      && (!o.raised ==> o.store.calls == s.calls + PostdistillCalls(q))
      && (o.raised ==> StoppedAtRaise(run, t, PostdistillCalls(q), |o.store.calls| - |s.calls|))
      && (o.raised <==> exists i :: 0 <= i < |q| && run(PostdistillCalls(q)[i], t).None?)
  {
    var r := CheckNew(s, OfKind(columns, POSTDISTILL));
    CheckNewQueue(s, columns);
    PostdistillIsDispatch(run, s, columns);
    StageLogsCalls(run, s, r.0, PostdistillCalls(NewIncomplete(s, columns)));
  }

  lemma PostdistillIsDispatch(run: Runner, s: Store, columns: seq<ZenoColumn>)
    ensures var r := CheckNew(s, OfKind(columns, POSTDISTILL));
      Postdistill(run, s, columns) == DispatchIfAny(run, r.0, PostdistillCalls(r.1))
  {
  }

  /** The first candidate with the key of `c`. */
  lemma {:induction false} FirstWithKey(cands: seq<ZenoColumn>, c: ZenoColumn) returns (i: nat)
    requires c in cands
    ensures i < |cands| && Key(cands[i]) == Key(c)
    ensures forall j :: 0 <= j < i ==> Key(cands[j]) != Key(c)
    decreases |cands|
  {
    if Key(cands[0]) == Key(c) {
      i := 0;
    } else {
      assert c in cands[1..];
      var k := FirstWithKey(cands[1..], c);
      i := k + 1;
      assert forall j :: 0 < j <= i ==> cands[j] == cands[1..][j - 1];
    }
  }

  /** With sound functions, a stage that does not raise leaves complete
      every postdistill column whose key was absent from the table, and
      keeps every complete column complete. */
  lemma PostdistillSettlesNew(run: Runner, s: Store, columns: seq<ZenoColumn>, c: ZenoColumn, x: string)
    requires Sound(run, s.rows)
    ensures var o := Postdistill(run, s, columns);
      && (!o.raised && c in OfKind(columns, POSTDISTILL) && Key(c) !in s.table ==> Settled(o.store, Key(c)))
      && (!o.raised && Settled(s, x) ==> Settled(o.store, x))
  {
    var cands := OfKind(columns, POSTDISTILL);
    CheckNewSpec(s, cands);
    var r := CheckNew(s, cands);
    var calls := PostdistillCalls(r.1);
    assert forall y :: Settled(r.0, y) == Settled(s, y);
    if |r.1| > 0 {
      DispatchSettles(run, r.0, calls, x);
    }
    if c in cands && Key(c) !in s.table {
      var i := FirstWithKey(cands, c);
      var d := cands[i];
      assert FirstOfKey(s.table.Keys, cands, i);
      CheckNewMembers(s, cands, d);
      if !Settled(s, Key(c)) {
        var m :| 0 <= m < |r.1| && r.1[m] == d;
        assert Key(Target(calls[m])) == Key(c);
        DispatchSettles(run, r.0, calls, Key(c));
      } else if |r.1| > 0 {
        DispatchSettles(run, r.0, calls, Key(c));
      }
    }
  }

  /** A second run of the stage calls nothing and changes nothing, whatever
      the functions did the first time, raising included: the check loaded
      every candidate's key into the table before anything was called, and
      a column already in the table is skipped even when some of its rows
      are missing. */
  lemma PostdistillSecondRunIdle(run: Runner, s: Store, columns: seq<ZenoColumn>)
    ensures var o := Postdistill(run, s, columns);
      Postdistill(run, o.store, columns) == Outcome(o.store, false)
  {
    var cands := OfKind(columns, POSTDISTILL);
    CheckNewSpec(s, cands);
    var r := CheckNew(s, cands);
    var o := Postdistill(run, s, columns);
    if |r.1| > 0 {
      forall i | 0 <= i < |cands|
        ensures Key(cands[i]) in o.store.table
      {
        DispatchKeepsKeys(run, r.0, PostdistillCalls(r.1), Key(cands[i]));
      }
    }
    CheckNewAllPresent(o.store, cands);
  }
}
