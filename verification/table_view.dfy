/** The pure part of `getFilteredTable` in frontend/src/api/table.ts: which
    complete columns are requested, and the two diff columns built for the
    comparison view. A JavaScript `undefined` (a missing column, an
    out-of-range array read, an absent `model`) is `None`. */
module TableView {
  import opened Wrappers
  import opened Strings
  import opened Columns

  /** The filter condition on one column: not an embedding, a model among
      the selected ones or empty, and a prompt among the selected ones or
      empty. An undefined model or prompt id passes neither test. */
  predicate Requested(filterModels: seq<string>, promptIds: seq<string>, c: ZenoColumn) {
    && c.columnType != EMBEDDING
    && c.model.Some? && (c.model.value in filterModels || c.model.value == "")
    && c.promptId.Some? && (c.promptId.value in promptIds || c.promptId.value == "")
  }

  /** `completeColumns.filter(...)`. */
  function RequestedColumns(filterModels: seq<string>, promptIds: seq<string>, cs: seq<ZenoColumn>): seq<ZenoColumn>
    decreases |cs|
  {
    if |cs| == 0 then []
    else
      var rest := RequestedColumns(filterModels, promptIds, cs[1..]);
      if Requested(filterModels, promptIds, cs[0]) then [cs[0]] + rest else rest
  }

  /** `xs` is `ys` with some elements left out, order kept. */
  predicate IsSubsequence<T(==)>(xs: seq<T>, ys: seq<T>)
    decreases |ys|
  {
    if |xs| == 0 then true
    else if |ys| == 0 then false
    else (xs[0] == ys[0] && IsSubsequence(xs[1..], ys[1..])) || IsSubsequence(xs, ys[1..])
  }

  /** The requested columns are exactly the complete columns that meet the
      condition, in their original order. */
  lemma {:induction false} RequestedColumnsSpec(filterModels: seq<string>, promptIds: seq<string>, cs: seq<ZenoColumn>)
    ensures var r := RequestedColumns(filterModels, promptIds, cs);
      && (forall c :: c in r <==> c in cs && Requested(filterModels, promptIds, c))
      && (forall c :: multiset(r)[c] == if Requested(filterModels, promptIds, c) then multiset(cs)[c] else 0)
      && IsSubsequence(r, cs)
    decreases |cs|
  {
    if |cs| > 0 {
      RequestedColumnsSpec(filterModels, promptIds, cs[1..]);
      var rest := RequestedColumns(filterModels, promptIds, cs[1..]);
      assert forall c :: c in cs <==> c == cs[0] || c in cs[1..];
      assert cs == [cs[0]] + cs[1..];
      if Requested(filterModels, promptIds, cs[0]) {
        assert ([cs[0]] + rest)[0] == cs[0] && ([cs[0]] + rest)[1..] == rest;
      } else if |rest| > 0 {
        assert IsSubsequence(rest, cs[1..]);
      }
    }
  }

  /** No requested column is an embedding, and each one's model and prompt
      id are among the selected ones or empty. */
  lemma RequestedColumnsAreSelected(filterModels: seq<string>, promptIds: seq<string>, cs: seq<ZenoColumn>, c: ZenoColumn)
    requires c in RequestedColumns(filterModels, promptIds, cs)
    ensures c.columnType != EMBEDDING
    ensures c.model == Some("") || (c.model.Some? && c.model.value in filterModels)
    ensures c.promptId == Some("") || (c.promptId.Some? && c.promptId.value in promptIds)
  {
    RequestedColumnsSpec(filterModels, promptIds, cs);
  }

  /** `xs[i]` in JavaScript: `undefined` past the end. */
  function At(xs: seq<string>, i: nat): Option<string> {
    if i < |xs| then Some(xs[i]) else None
  }

  /** Outputs and postdistill results are per model; the other kinds are not. */
  predicate HasModel(t: ColumnType) {
    t == POSTDISTILL || t == OUTPUT
  }

  /** The `diffColumn1`/`diffColumn2` construction: shallow copies of
      `diffColumn` whose `model` is replaced. */
  function DiffColumns(diffColumn: Option<ZenoColumn>, filterModels: seq<string>): (Option<ZenoColumn>, Option<ZenoColumn>) {
    match diffColumn
    case None => (None, None)
    case Some(d) =>
      var addModel := HasModel(d.columnType);
      (Some(d.(model := if addModel then At(filterModels, 0) else Some(""))),
       Some(d.(model := if addModel then At(filterModels, 1) else Some(""))))
  }

  /** Without a diff column both stay undefined. With one, each copy agrees
      with it on everything but the model, which is the first (second)
      selected model for a per-model kind and empty otherwise. */
  lemma DiffColumnsSpec(diffColumn: Option<ZenoColumn>, filterModels: seq<string>)
    ensures var (d1, d2) := DiffColumns(diffColumn, filterModels);
      && (diffColumn.None? <==> d1.None? && d2.None?)
      && (diffColumn.Some? ==>
            && d1.Some? && d2.Some?
            && d1.value.(model := diffColumn.value.model) == diffColumn.value
            && d2.value.(model := diffColumn.value.model) == diffColumn.value
            && (HasModel(diffColumn.value.columnType) ==>
                  && (|filterModels| > 0 ==> d1.value.model == Some(filterModels[0]))
                  && (|filterModels| > 1 ==> d2.value.model == Some(filterModels[1]))
                  && (|filterModels| == 0 ==> d1.value.model.None?)
                  && (|filterModels| <= 1 ==> d2.value.model.None?))
            && (!HasModel(diffColumn.value.columnType) ==>
                  d1.value.model == Some("") && d2.value.model == Some("")))
  {
  }

  /** The two copies have the same key exactly when they got the same model. */
  lemma DiffColumnsSameKeyIff(d: ZenoColumn, filterModels: seq<string>)
    ensures var (d1, d2) := DiffColumns(Some(d), filterModels);
      Key(d1.value) == Key(d2.value) <==> ModelPart(d1.value) == ModelPart(d2.value)
  {
    var (d1, d2) := DiffColumns(Some(d), filterModels);
    var c1, c2 := d1.value, d2.value;
    assert KindPart(c1) + c1.name == KindPart(c2) + c2.name;
    assert PromptPart(c1) == PromptPart(c2);
    if Key(c1) == Key(c2) {
      ConcatCancel(KindPart(c1) + c1.name, ModelPart(c1), ModelPart(c2), PromptPart(c1));
    }
  }
}
