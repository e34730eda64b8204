/** The result policy of the slice-metric queries of zeno/backend.py:
    `get_metrics_for_slices` and `calculate_metric`. `filter_table` and the
    metric functions are parameters; what the model fixes is which result
    each request gets, what the metric function is told, and which errors
    are caught. */
module Metrics {
  import opened Wrappers
  import opened Columns
  import opened Records
  import opened ColumnStore
  import opened Backend

  /** The rows a filter selects. */
  type Frame = seq<nat>

  /** `filter_table` either selects rows or raises; only pandas'
      `UndefinedVariableError` is caught by the query. */
  datatype FilterError = UndefinedVariable | OtherFilterError

  /** `filter_table(df, predicates, filter_ids)`. */
  type Filter = (FilterGroup, Option<seq<string>>) -> Result<Frame, FilterError>

  /** The part of `ZenoOptions` the query rewrites: the output column and
      the distill columns by function name. */
  datatype Options = Options(outputColumn: string, distillColumns: map<string, string>)

  /** A registered metric function, by name, applied to the selected rows:
      its value, or `None` when it raises. */
  type MetricFn = (string, Frame, Options) -> Option<real>

  /** The errors that leave the query: a filter error other than an unknown
      column, the `KeyError` of an unregistered metric, and whatever the
      metric function raises. */
  datatype QueryError = FilterFailed(e: FilterError) | UnknownMetric(metric: string) | MetricRaised(metric: string)

  /** The predistill and postdistill columns, of the given model when one is
      given (a column's `model` compared with `==`). */
  function DistillColumns(cols: seq<ZenoColumn>, model: Option<string>): seq<ZenoColumn>
    decreases |cols|
  {
    if |cols| == 0 then []
    else
      var c := cols[0];
      var keep := (c.columnType == PREDISTILL || c.columnType == POSTDISTILL) && (model.Some? ==> c.model == model);
      (if keep then [c] else []) + DistillColumns(cols[1..], model)
  }

  /** `dict(zip(names, keys))`: a later name wins. */
  function ZipMap(names: seq<string>, keys: seq<string>): map<string, string>
    requires |names| == |keys|
    decreases |names|
  {
    if |names| == 0 then map[]
    else ZipMap(names[..|names| - 1], keys[..|keys| - 1])[names[|names| - 1] := keys[|keys| - 1]]
  }

  /** The distill columns of a model by name, each to its key. */
  function NameMap(cs: seq<ZenoColumn>): map<string, string> {
    ZipMap(seq(|cs|, i requires 0 <= i < |cs| => cs[i].name), seq(|cs|, i requires 0 <= i < |cs| => Key(cs[i])))
  }

  /** The options the metric function gets: for a model, its output column
      under the current prompt version and its distill columns; without one,
      the unchanged output column and every distill column. */
  function LocalOptions(b: State, base: Options, model: Option<string>): Options {
    var distill := NameMap(DistillColumns(b.columns, model));
    match model
    case Some(m) => Options(Key(OutputColumn(m, b.currentPromptId)), distill)
    case None => base.(distillColumns := distill)
  }

  /** `calculate_metric`: nothing before inference is done, a `KeyError`
      for an unregistered metric, and otherwise the metric function's value
      or what it raises. */
  function CalculateMetric(b: State, fn: MetricFn, base: Options, frame: Frame, model: Option<string>, metric: string): Result<Option<real>, QueryError> {
    if !b.doneInference then Success(None)
    else if metric !in b.registry.metrics then Failure(UnknownMetric(metric))
    else match fn(metric, frame, LocalOptions(b, base, model))
      case None => Failure(MetricRaised(metric))
      case Some(v) => Success(Some(v))
  }

  /** One request of `get_metrics_for_slices`. */
  function SliceMetric(b: State, filter: Filter, fn: MetricFn, base: Options, filterIds: Option<seq<string>>, key: MetricKey): Result<GroupMetric, QueryError> {
    match filter(key.sli.filterPredicates, filterIds)
    case Failure(UndefinedVariable) => Success(GroupMetric(None, 0))
    case Failure(e) => Failure(FilterFailed(e))
    case Success(frame) =>
      if key.metric == "" || b.labelColumn == "" then Success(GroupMetric(None, |frame|))
      else
        var m :- CalculateMetric(b, fn, base, frame, Some(key.model), key.metric);
        Success(GroupMetric(m, |frame|))
  }

  /** `get_metrics_for_slices`: one result per request, in order; an error
      that is not caught ends the query. */
  function GetMetricsForSlices(b: State, filter: Filter, fn: MetricFn, base: Options, filterIds: Option<seq<string>>, requests: seq<MetricKey>): Result<seq<GroupMetric>, QueryError>
    decreases |requests|
  {
    if |requests| == 0 then Success([])
    else
      var g :- SliceMetric(b, filter, fn, base, filterIds, requests[0]);
      var rest :- GetMetricsForSlices(b, filter, fn, base, filterIds, requests[1..]);
      Success([g] + rest)
  }

  // ---------------------------------------------------------------------
  // Properties
  // ---------------------------------------------------------------------

  /** The query answers every request, in order, exactly when no request
      raises; otherwise it raises the first request's error. */
  lemma GetMetricsForSlicesSpec(b: State, filter: Filter, fn: MetricFn, base: Options, filterIds: Option<seq<string>>, requests: seq<MetricKey>)
    ensures var r := GetMetricsForSlices(b, filter, fn, base, filterIds, requests);
      && (r.Success? <==> forall i :: 0 <= i < |requests| ==> SliceMetric(b, filter, fn, base, filterIds, requests[i]).Success?)
      && (r.Success? ==>
            && |r.value| == |requests|
            && forall i :: 0 <= i < |requests| ==> r.value[i] == SliceMetric(b, filter, fn, base, filterIds, requests[i]).value)
      && (r.Failure? ==>
            exists i :: 0 <= i < |requests| &&
              SliceMetric(b, filter, fn, base, filterIds, requests[i]) == Failure(r.error) &&
              forall j :: 0 <= j < i ==> SliceMetric(b, filter, fn, base, filterIds, requests[j]).Success?)
  {
    GetMetricsAnswers(b, filter, fn, base, filterIds, requests);
    GetMetricsFirstError(b, filter, fn, base, filterIds, requests);
  }

  /** The success half: every request succeeds, and the answers are theirs. */
  lemma {:induction false} GetMetricsAnswers(b: State, filter: Filter, fn: MetricFn, base: Options, filterIds: Option<seq<string>>, requests: seq<MetricKey>)
    ensures var r := GetMetricsForSlices(b, filter, fn, base, filterIds, requests);
      && (r.Success? <==> forall i :: 0 <= i < |requests| ==> SliceMetric(b, filter, fn, base, filterIds, requests[i]).Success?)
      && (r.Success? ==>
            && |r.value| == |requests|
            && forall i :: 0 <= i < |requests| ==> r.value[i] == SliceMetric(b, filter, fn, base, filterIds, requests[i]).value)
    decreases |requests|
  {
    if |requests| > 0 {
      GetMetricsAnswers(b, filter, fn, base, filterIds, requests[1..]);
      assert forall i :: 1 <= i < |requests| ==> requests[i] == requests[1..][i - 1];
    }
  }

  /** The failure half: the error is that of the first failing request. */
  lemma {:induction false} GetMetricsFirstError(b: State, filter: Filter, fn: MetricFn, base: Options, filterIds: Option<seq<string>>, requests: seq<MetricKey>)
    ensures var r := GetMetricsForSlices(b, filter, fn, base, filterIds, requests);
      r.Failure? ==>
        exists i :: 0 <= i < |requests| &&
          SliceMetric(b, filter, fn, base, filterIds, requests[i]) == Failure(r.error) &&
          forall j :: 0 <= j < i ==> SliceMetric(b, filter, fn, base, filterIds, requests[j]).Success?
    decreases |requests|
  {
    if |requests| > 0 {
      GetMetricsFirstError(b, filter, fn, base, filterIds, requests[1..]);
      var r := GetMetricsForSlices(b, filter, fn, base, filterIds, requests);
      var g := SliceMetric(b, filter, fn, base, filterIds, requests[0]);
      var rest := GetMetricsForSlices(b, filter, fn, base, filterIds, requests[1..]);
      if g.Success? && rest.Failure? {
        var i :| 0 <= i < |requests| - 1 &&
          SliceMetric(b, filter, fn, base, filterIds, requests[1..][i]) == Failure(rest.error) &&
          forall j :: 0 <= j < i ==> SliceMetric(b, filter, fn, base, filterIds, requests[1..][j]).Success?;
        assert requests[i + 1] == requests[1..][i];
        assert forall j :: 1 <= j < i + 1 ==> requests[j] == requests[1..][j - 1];
      }
    }
  }

  /** The policy for one request: a slice whose predicates name an unknown
      column gets no metric and size 0; no metric name or no label column
      gives no metric with the slice size; before inference is done the
      metric is absent; an unregistered metric raises; otherwise the metric
      function's value for the slice's rows, and its exception when it
      raises. Other filter errors raise. */
  lemma SliceMetricPolicy(b: State, filter: Filter, fn: MetricFn, base: Options, filterIds: Option<seq<string>>, key: MetricKey)
    ensures var f := filter(key.sli.filterPredicates, filterIds);
      var r := SliceMetric(b, filter, fn, base, filterIds, key);
      && (f == Failure(UndefinedVariable) ==> r == Success(GroupMetric(None, 0)))
      && (f == Failure(OtherFilterError) ==> r == Failure(FilterFailed(OtherFilterError)))
      && (f.Success? && (key.metric == "" || b.labelColumn == "") ==> r == Success(GroupMetric(None, |f.value|)))
      && (f.Success? && !b.doneInference ==> r == Success(GroupMetric(None, |f.value|)))
      && (f.Success? && key.metric != "" && b.labelColumn != "" && b.doneInference ==>
            (key.metric !in b.registry.metrics <==> r == Failure(UnknownMetric(key.metric))))
      && (f.Success? && key.metric != "" && b.labelColumn != "" && b.doneInference && key.metric in b.registry.metrics ==>
            (fn(key.metric, f.value, LocalOptions(b, base, Some(key.model))).None? <==> r == Failure(MetricRaised(key.metric))))
      && (r.Success? && r.value.metric.Some? ==>
            && f.Success? && b.doneInference && key.metric in b.registry.metrics
            && r.value == GroupMetric(fn(key.metric, f.value, LocalOptions(b, base, Some(key.model))), |f.value|))
  {
  }

  /** Before inference is done the query reports no metric at all, and it
      raises only when the filter raises something other than an unknown
      column. */
  lemma NoMetricBeforeInference(b: State, filter: Filter, fn: MetricFn, base: Options, filterIds: Option<seq<string>>, requests: seq<MetricKey>)
    requires !b.doneInference
    ensures var r := GetMetricsForSlices(b, filter, fn, base, filterIds, requests);
      && (r.Success? ==> forall i :: 0 <= i < |r.value| ==> r.value[i].metric == None)
      && (r.Failure? <==> exists i :: 0 <= i < |requests| && filter(requests[i].sli.filterPredicates, filterIds) == Failure(OtherFilterError))
  {
    GetMetricsForSlicesSpec(b, filter, fn, base, filterIds, requests);
    forall i | 0 <= i < |requests| {
      SliceMetricPolicy(b, filter, fn, base, filterIds, requests[i]);
    }
  }

  /** The options for a model name the output column of that model under
      the current prompt version, and map each function name to the key of
      a distill column of that name and that model. */
  lemma LocalOptionsForModel(b: State, base: Options, m: string, n: string)
    ensures var o := LocalOptions(b, base, Some(m));
      && o.outputColumn == Key(OutputColumn(m, b.currentPromptId))
      && (n in o.distillColumns <==>
            exists c :: c in b.columns && c.name == n && c.model == Some(m) &&
              (c.columnType == PREDISTILL || c.columnType == POSTDISTILL))
      && (n in o.distillColumns ==>
            exists c :: c in b.columns && c.name == n && c.model == Some(m) &&
              (c.columnType == PREDISTILL || c.columnType == POSTDISTILL) && o.distillColumns[n] == Key(c))
  {
    var cs := DistillColumns(b.columns, Some(m));
    DistillColumnsMembers(b.columns, Some(m));
    NameMapSpec(cs, n);
  }

  /** The PREDISTILL columns `start_processing` enumerates carry the empty
      model, so a metric asked for a named model is told only about that
      model's POSTDISTILL columns. */
  lemma NamedModelSeesOnlyPostdistill(b: State, base: Options, m: string)
    requires m != ""
    requires forall c :: c in b.columns && c.columnType == PREDISTILL ==> c.model == Some("")
    ensures var o := LocalOptions(b, base, Some(m));
      forall n :: n in o.distillColumns ==>
        exists c :: c in b.columns && c.columnType == POSTDISTILL && c.model == Some(m) && c.name == n && o.distillColumns[n] == Key(c)
  {
    forall n | n in LocalOptions(b, base, Some(m)).distillColumns
      ensures exists c :: (c in b.columns && c.columnType == POSTDISTILL && c.model == Some(m) && c.name == n &&
        LocalOptions(b, base, Some(m)).distillColumns[n] == Key(c))
    {
      LocalOptionsForModel(b, base, m, n);
    }
  }

  lemma {:induction false} DistillColumnsMembers(cols: seq<ZenoColumn>, model: Option<string>)
    ensures forall c :: c in DistillColumns(cols, model) <==>
      c in cols && (c.columnType == PREDISTILL || c.columnType == POSTDISTILL) && (model.Some? ==> c.model == model)
    decreases |cols|
  {
    if |cols| > 0 {
      DistillColumnsMembers(cols[1..], model);
      assert forall c :: c in cols <==> c == cols[0] || c in cols[1..];
    }
  }

  /** A name is mapped exactly when some column has it, and then to the
      key of the last column with that name. */
  lemma NameMapSpec(cs: seq<ZenoColumn>, n: string)
    ensures n in NameMap(cs) <==> exists i :: 0 <= i < |cs| && cs[i].name == n
    ensures n in NameMap(cs) ==>
      exists i :: 0 <= i < |cs| && cs[i].name == n && NameMap(cs)[n] == Key(cs[i]) &&
        (forall j :: i < j < |cs| ==> cs[j].name != n)
  {
    var names := seq(|cs|, i requires 0 <= i < |cs| => cs[i].name);
    var keys := seq(|cs|, i requires 0 <= i < |cs| => Key(cs[i]));
    assert NameMap(cs) == ZipMap(names, keys);
    ZipMapKeys(names, keys, n);
    if n in names {
      var i := LastIndex(names, n);
      ZipMapAt(names, keys, i);
      assert cs[i].name == n && keys[i] == Key(cs[i]);
      assert forall j :: i < j < |cs| ==> cs[j].name == names[j];
    }
    if exists i :: 0 <= i < |cs| && cs[i].name == n {
      var i :| 0 <= i < |cs| && cs[i].name == n;
      assert names[i] == n;
    }
  }

  /** The position of the last occurrence of `n`. */
  function LastIndex(names: seq<string>, n: string): (i: nat)
    requires n in names
    ensures i < |names| && names[i] == n
    ensures forall j :: i < j < |names| ==> names[j] != n
    decreases |names|
  {
    var last := |names| - 1;
    if names[last] == n then last
    else
      assert n in names[..last];
      LastIndex(names[..last], n)
  }

  lemma {:induction false} ZipMapKeys(names: seq<string>, keys: seq<string>, n: string)
    requires |names| == |keys|
    ensures n in ZipMap(names, keys) <==> n in names
    decreases |names|
  {
    if |names| > 0 {
      var init := names[..|names| - 1];
      ZipMapKeys(init, keys[..|keys| - 1], n);
      assert names == init + [names[|names| - 1]];
    }
  }

  /** A name is mapped to the value paired with its last occurrence. */
  lemma {:induction false} ZipMapAt(names: seq<string>, keys: seq<string>, i: nat)
    requires |names| == |keys| && i < |names|
    requires forall j :: i < j < |names| ==> names[j] != names[i]
    ensures names[i] in ZipMap(names, keys) && ZipMap(names, keys)[names[i]] == keys[i]
    decreases |names|
  {
    var last := |names| - 1;
    if i < last {
      assert names[last] != names[i];
      ZipMapAt(names[..last], keys[..last], i);
    }
  }
}
