/** Column identity (zeno/classes/base.py): the kinds of derived column, the
    canonical key `str(col)` that names a column both in the table and in
    the cache directory, and the camel-case aliasing of field names that the
    frontend types rely on. */
module Columns {
  import opened Wrappers
  import opened Strings

  // ---------------------------------------------------------------------
  // Field aliasing
  // ---------------------------------------------------------------------

  function TitleAll(ws: seq<string>): (ts: seq<string>)
    ensures |ts| == |ws|
    ensures forall i :: 0 <= i < |ws| ==> ts[i] == Title(ws[i])
  {
    seq(|ws|, i requires 0 <= i < |ws| => Title(ws[i]))
  }

  /** `to_camel`: the first `_`-separated component is kept as it is, every
      later one is title-cased, and the underscores disappear. */
  function ToCamel(s: string): string {
    var parts := SplitOn(s, '_');
    parts[0] + Concat(TitleAll(parts[1..]))
  }

  lemma {:induction false} ConcatNoChar(ws: seq<string>, c: char)
    requires forall i :: 0 <= i < |ws| ==> c !in ws[i]
    ensures c !in Concat(ws)
    decreases |ws|
  {
    if |ws| > 0 {
      ConcatNoChar(ws[1..], c);
    }
  }

  /** The alias never contains an underscore. */
  lemma ToCamelHasNoUnderscore(s: string)
    ensures '_' !in ToCamel(s)
  {
    var parts := SplitOn(s, '_');
    var titled := TitleAll(parts[1..]);
    forall i | 0 <= i < |titled|
      ensures '_' !in titled[i]
    {
      assert '_' !in parts[1..][i];
      TitleFromKeepsLetters(parts[1..][i], false);
    }
    ConcatNoChar(titled, '_');
  }

  /** The alias starts with the part of the name before its first `_`,
      unchanged. */
  lemma ToCamelKeepsHead(s: string)
    ensures StartsWith(ToCamel(s), s[..IndexOf(s, '_')])
  {
  }

  /** A name without underscores is its own alias. */
  lemma ToCamelIdentity(s: string)
    requires '_' !in s
    ensures ToCamel(s) == s
  {
    assert IndexOf(s, '_') == |s|;
    assert SplitOn(s, '_') == [s];
  }

  lemma {:induction false} LowerAllAppend(a: string, b: string)
    ensures LowerAll(a + b) == LowerAll(a) + LowerAll(b)
  {
  }

  lemma {:induction false} WithoutAppend(a: string, b: string, c: char)
    ensures Without(a + b, c) == Without(a, c) + Without(b, c)
    decreases |a|
  {
    if |a| == 0 {
      assert a + b == b;
    } else {
      WithoutAppend(a[1..], b, c);
      assert (a + b)[1..] == a[1..] + b;
      assert (a + b)[0] == a[0];
      var h := if a[0] == c then "" else [a[0]];
      assert Without(a + b, c) == h + Without(a[1..] + b, c);
      ConcatAssoc(h, Without(a[1..], c), Without(b, c));
    }
  }

  lemma {:induction false} WithoutAbsent(s: string, c: char)
    requires c !in s
    ensures Without(s, c) == s
    decreases |s|
  {
    if |s| > 0 {
      WithoutAbsent(s[1..], c);
    }
  }

  lemma WithoutOneSeparator(head: string, tail: string, c: char)
    requires c !in head
    ensures Without(head + [c] + tail, c) == head + Without(tail, c)
  {
    var rest := [c] + tail;
    assert head + [c] + tail == head + rest;
    WithoutAppend(head, rest, c);
    WithoutAbsent(head, c);
    assert rest[0] == c && rest[1..] == tail;
    assert Without(rest, c) == Without(tail, c);
  }

  /** Removing every separator is the same as concatenating the pieces the
      separator splits the string into. */
  lemma {:induction false} WithoutIsConcatOfSplit(s: string, c: char)
    ensures Without(s, c) == Concat(SplitOn(s, c))
    decreases |s|
  {
    var i := IndexOf(s, c);
    if i == |s| {
      WithoutAbsent(s, c);
      assert SplitOn(s, c) == [s];
    } else {
      var head, tail := s[..i], s[i + 1..];
      assert s == head + [c] + tail;
      WithoutOneSeparator(head, tail, c);
      WithoutIsConcatOfSplit(tail, c);
      var parts := SplitOn(s, c);
      assert parts == [head] + SplitOn(tail, c);
      assert parts[1..] == SplitOn(tail, c);
    }
  }

  lemma {:induction false} LowerConcatTitled(ws: seq<string>)
    ensures LowerAll(Concat(TitleAll(ws))) == LowerAll(Concat(ws))
    decreases |ws|
  {
    if |ws| > 0 {
      var ts := TitleAll(ws);
      assert ts[1..] == TitleAll(ws[1..]);
      LowerConcatTitled(ws[1..]);
      LowerAllAppend(ts[0], Concat(ts[1..]));
      LowerAllAppend(ws[0], Concat(ws[1..]));
      TitleFromKeepsLetters(ws[0], false);
    }
  }

  /** Up to letter case, the alias is the name with its underscores deleted:
      `to_camel` changes nothing but case and the separators. */
  lemma ToCamelCaseInsensitive(s: string)
    ensures LowerAll(ToCamel(s)) == LowerAll(Without(s, '_'))
    ensures |ToCamel(s)| == |Without(s, '_')|
  {
    var parts := SplitOn(s, '_');
    WithoutIsConcatOfSplit(s, '_');
    assert parts == [parts[0]] + parts[1..];
    assert Concat(parts) == parts[0] + Concat(parts[1..]);
    LowerConcatTitled(parts[1..]);
    LowerAllAppend(parts[0], Concat(TitleAll(parts[1..])));
    LowerAllAppend(parts[0], Concat(parts[1..]));
  }

  /** A name with one underscore joins its head to its title-cased tail. */
  lemma ToCamelOneUnderscore(a: string, b: string)
    requires '_' !in a && '_' !in b
    ensures ToCamel(a + "_" + b) == a + Title(b)
  {
    var s := a + "_" + b;
    IndexOfIs(s, '_', |a|);
    assert s[..|a|] == a;
    assert s[|a| + 1..] == b;
    IndexOfIs(b, '_', |b|);
    assert SplitOn(b, '_') == [b];
    var parts := SplitOn(s, '_');
    assert parts == [a] + SplitOn(b, '_');
    assert parts[1..] == [b];
    assert TitleAll([b]) == [Title(b)];
    assert Concat([Title(b)]) == Title(b) + Concat([]);
  }

  lemma {:induction false} TitleAfterLetter(w: string)
    requires forall i :: 0 <= i < |w| ==> IsLower(w[i])
    ensures TitleFrom(w, true) == w
    decreases |w|
  {
    if |w| > 0 {
      TitleAfterLetter(w[1..]);
    }
  }

  /** A lower-case word is title-cased by upper-casing its first letter. */
  lemma TitleLowerWord(w: string)
    requires |w| > 0 && forall i :: 0 <= i < |w| ==> IsLower(w[i])
    ensures Title(w) == [ToUpper(w[0])] + w[1..]
  {
    TitleAfterLetter(w[1..]);
  }

  /** `head_word` with a lower-case `word` becomes `headWord`. */
  lemma ToCamelLowerWord(a: string, b: string, t: string)
    requires '_' !in a && '_' !in b
    requires |b| > 0 && forall i :: 0 <= i < |b| ==> IsLower(b[i])
    requires t == [ToUpper(b[0])] + b[1..]
    ensures ToCamel(a + "_" + b) == a + t
  {
    ToCamelOneUnderscore(a, b);
    TitleLowerWord(b);
  }

  /** The pydantic aliases of the requirement and example fields are the keys
      of the frontend `Requirement` and `Example` types (`promptSnippet`,
      `evaluationMethod`, `isPositive`, `promptId`). */
  const AliasedFields: seq<(string, string, string)> :=
    [("prompt", "snippet", "Snippet"), ("evaluation", "method", "Method"),
     ("is", "positive", "Positive"), ("prompt", "id", "Id")]

  lemma FieldAliases(i: nat)
    requires i < |AliasedFields|
    ensures var (head, word, titled) := AliasedFields[i];
      ToCamel(head + "_" + word) == head + titled
  {
    var (head, word, titled) := AliasedFields[i];
    AliasedWordsLower(i);
    ToCamelLowerWord(head, word, titled);
  }

  /** The second word of each aliased field is a lower-case word, and the
      alias spells it with its first letter upper-cased. */
  lemma AliasedWordsLower(i: nat)
    requires i < |AliasedFields|
    ensures var (head, word, titled) := AliasedFields[i];
      && '_' !in head && '_' !in word && |word| > 0
      && (forall k :: 0 <= k < |word| ==> IsLower(word[k]))
      && titled == [ToUpper(word[0])] + word[1..]
  {
  }

  // ---------------------------------------------------------------------
  // Column identity
  // ---------------------------------------------------------------------

  datatype ColumnType = METADATA | PREDISTILL | OUTPUT | EMBEDDING | POSTDISTILL

  /** The enum's string value, which `__str__` uses as the kind prefix. */
  function TypeName(t: ColumnType): string {
    match t
    case METADATA => "METADATA"
    case PREDISTILL => "PREDISTILL"
    case OUTPUT => "OUTPUT"
    case EMBEDDING => "EMBEDDING"
    case POSTDISTILL => "POSTDISTILL"
  }

  datatype MetadataType = NOMINAL | CONTINUOUS | BOOLEAN | DATETIME | OTHER

  /** `model` and `prompt_id` are `Optional[str]` defaulting to `""`. */
  datatype ZenoColumn = ZenoColumn(
    columnType: ColumnType,
    name: string,
    metadataType: Option<MetadataType>,
    model: Option<string>,
    promptId: Option<string>)

  /** A column built with the constructor defaults for the fields not given. */
  function NewColumn(t: ColumnType, name: string, model: string, promptId: string): ZenoColumn {
    ZenoColumn(t, name, Some(OTHER), Some(model), Some(promptId))
  }

  function ModelPart(c: ZenoColumn): string {
    c.model.GetOr("")
  }

  function PromptPart(c: ZenoColumn): string {
    if c.promptId.Some? && c.promptId.value != "" then "_" + c.promptId.value else ""
  }

  function KindPart(c: ZenoColumn): string {
    if c.columnType == METADATA then "" else TypeName(c.columnType)
  }

  /** `str(col)`: kind prefix (none for metadata), name, model, and `_` plus
      the prompt id when there is one. This is both the table column name and
      the cache file stem. */
  function Key(c: ZenoColumn): string {
    KindPart(c) + c.name + ModelPart(c) + PromptPart(c)
  }

  /** `hash(col)` is Python's string hash of the key; the string hash itself
      is a parameter. */
  function Hash(c: ZenoColumn, strHash: string -> int): int {
    strHash(Key(c))
  }

  /** The key's layout: a metadata column is named by name, model and prompt
      suffix alone; every other kind is prefixed with its enum value. */
  lemma KeyLayout(c: ZenoColumn)
    ensures c.columnType == METADATA ==> StartsWith(Key(c), c.name)
    ensures c.columnType != METADATA ==> StartsWith(Key(c), TypeName(c.columnType) + c.name)
    ensures c.promptId.Some? && c.promptId.value != "" ==> EndsWith(Key(c), "_" + c.promptId.value)
    ensures (c.promptId == None || c.promptId == Some("")) ==> EndsWith(Key(c), c.name + c.model.GetOr(""))
    ensures |Key(c)| == |KindPart(c)| + |c.name| + |c.model.GetOr("")| + |PromptPart(c)|
    ensures var a := |KindPart(c)| + |c.name|; Key(c)[a..a + |ModelPart(c)|] == c.model.GetOr("")
  {
    var k := Key(c);
    assert k == (KindPart(c) + c.name) + ModelPart(c) + PromptPart(c);
    assert k[..|KindPart(c) + c.name|] == KindPart(c) + c.name;
  }

  /** A missing model or prompt id names the same column as an empty one. */
  lemma KeyNoneIsEmpty(c: ZenoColumn)
    ensures Key(c.(model := None)) == Key(c.(model := Some("")))
    ensures Key(c.(promptId := None)) == Key(c.(promptId := Some("")))
  {
  }

  /** The metadata type is not part of the identity: changing it changes
      neither the key nor the hash. */
  lemma KeyIgnoresMetadataType(c: ZenoColumn, t: Option<MetadataType>, strHash: string -> int)
    ensures Key(c.(metadataType := t)) == Key(c)
    ensures Hash(c.(metadataType := t), strHash) == Hash(c, strHash)
  {
  }

  /** Columns with equal keys hash equally. */
  lemma EqualKeysEqualHashes(a: ZenoColumn, b: ZenoColumn, strHash: string -> int)
    requires Key(a) == Key(b)
    ensures Hash(a, strHash) == Hash(b, strHash)
  {
  }

  /** The key is plain concatenation, so it is not injective: distinct
      identities share a key (and so a cache file). */
  lemma KeyCollision()
    ensures NewColumn(PREDISTILL, "ab", "", "") != NewColumn(PREDISTILL, "a", "b", "")
    ensures Key(NewColumn(PREDISTILL, "ab", "", "")) == Key(NewColumn(PREDISTILL, "a", "b", ""))
    ensures NewColumn(METADATA, "OUTPUTx", "", "") != NewColumn(OUTPUT, "x", "", "")
    ensures Key(NewColumn(METADATA, "OUTPUTx", "", "")) == Key(NewColumn(OUTPUT, "x", "", ""))
  {
    assert Key(NewColumn(PREDISTILL, "ab", "", "")) == "PREDISTILLab";
    assert Key(NewColumn(PREDISTILL, "a", "b", "")) == "PREDISTILLab";
  }

  /** With kind, model and prompt id fixed, the key does determine the name. */
  lemma KeyDeterminesName(a: ZenoColumn, b: ZenoColumn)
    requires a.columnType == b.columnType && a.model == b.model && a.promptId == b.promptId
    requires Key(a) == Key(b)
    ensures a.name == b.name
  {
    var pre := KindPart(a);
    assert KindPart(b) == pre && ModelPart(b) == ModelPart(a) && PromptPart(b) == PromptPart(a);
    ConcatAssoc(pre + a.name, ModelPart(a), PromptPart(a));
    ConcatAssoc(pre + b.name, ModelPart(a), PromptPart(a));
    ConcatCancel(pre, a.name, b.name, ModelPart(a) + PromptPart(a));
  }

  // ---------------------------------------------------------------------
  // Cache file names and the legacy POSTDISTILL scan
  // ---------------------------------------------------------------------

  const PickleExt: string := ".pickle"

  /** The cache file of a column: its key plus the pickle extension. */
  function FileName(c: ZenoColumn): string {
    Key(c) + PickleExt
  }

  /** `glob("POSTDISTILL*" + model + ".pickle")` on one base name. */
  predicate GlobMatch(base: string, model: string) {
    && |base| >= |TypeName(POSTDISTILL)| + |model| + |PickleExt|
    && StartsWith(base, TypeName(POSTDISTILL))
    && EndsWith(base, model + PickleExt)
  }

  datatype SplitError = EmptySeparator

  /** The scan as written: `basename.split(model)[0][11:]`, which raises on
      an empty model. */
  function LegacyNameAsWritten(base: string, model: string): Result<string, SplitError> {
    if model == "" then Failure(EmptySeparator)
    else Success(SliceFrom(SplitFirst(base, model), 11))
  }

  /** The name the scan is after: what lies between the kind prefix and the
      model at the end of the file name. */
  function RecoverName(base: string, model: string): string
    requires GlobMatch(base, model)
  {
    base[|TypeName(POSTDISTILL)|..|base| - |model| - |PickleExt|]
  }

  /** Every POSTDISTILL cache file of a model matches that model's glob, and
      the corrected scan recovers exactly the function name it was saved
      under. */
  lemma RecoverNameInverse(name: string, model: string)
    ensures GlobMatch(FileName(NewColumn(POSTDISTILL, name, model, "")), model)
    ensures RecoverName(FileName(NewColumn(POSTDISTILL, name, model, "")), model) == name
  {
    var base := FileName(NewColumn(POSTDISTILL, name, model, ""));
    assert base == TypeName(POSTDISTILL) + name + (model + PickleExt);
  }

  /** The scan as written is right when the first occurrence of the model
      in prefix, name and model is the trailing one. */
  lemma LegacyNameAsWrittenWhenModelIsFirst(name: string, model: string)
    requires model != ""
    requires Find(TypeName(POSTDISTILL) + name + model, model) == |TypeName(POSTDISTILL) + name|
    ensures LegacyNameAsWritten(FileName(NewColumn(POSTDISTILL, name, model, "")), model) == Success(name)
  {
    var pre := TypeName(POSTDISTILL) + name;
    var x := pre + model;
    var base := FileName(NewColumn(POSTDISTILL, name, model, ""));
    PostdistillFileName(name, model);
    NoEarlierOccurrenceExtends(x, PickleExt, model, |pre|);
    assert base[|pre|..][..|model|] == model;
    SplitFirstIs(base, model, |pre|);
    assert base[..|pre|] == pre;
  }

  /** The cache file of a POSTDISTILL column of a model. */
  lemma PostdistillFileName(name: string, model: string)
    ensures FileName(NewColumn(POSTDISTILL, name, model, "")) == TypeName(POSTDISTILL) + name + model + PickleExt
    ensures FileName(NewColumn(POSTDISTILL, name, model, "")) == TypeName(POSTDISTILL) + (name + model + PickleExt)
  {
  }

  /** Occurrences that end inside `x` are the same in `x + y`. */
  lemma NoEarlierOccurrenceExtends(x: string, y: string, p: string, k: nat)
    requires k + |p| <= |x|
    requires forall j :: 0 <= j < k ==> !StartsWith(x[j..], p)
    ensures forall j :: 0 <= j < k ==> !StartsWith((x + y)[j..], p)
  {
    forall j | 0 <= j < k
      ensures !StartsWith((x + y)[j..], p)
    {
      assert (x + y)[j..][..|p|] == x[j..][..|p|];
    }
  }

  /** The scan as written loses the name when the model name is part of the
      function name, and raises on an empty model name. */
  lemma LegacyNameAsWrittenCounterexample()
    ensures GlobMatch(FileName(NewColumn(POSTDISTILL, "gpt4" + "_length", "gpt4", "")), "gpt4")
    ensures LegacyNameAsWritten(FileName(NewColumn(POSTDISTILL, "gpt4" + "_length", "gpt4", "")), "gpt4") == Success("")
  {
    RecoverNameInverse("gpt4" + "_length", "gpt4");
    LegacyNameLostWhenNameStartsWithModel("_length", "gpt4");
  }

  /** The weaker condition "the model does not occur in the kind prefix plus
      name" is not enough: the model may start inside the name and end
      inside the model suffix. */
  lemma LegacyNameAsWrittenOverlap()
    ensures !Contains(TypeName(POSTDISTILL) + "x", "xx")
    ensures LegacyNameAsWritten(FileName(NewColumn(POSTDISTILL, "x", "xx", "")), "xx") == Success("")
  {
    ModelAbsentFromPrefixAndName();
    LegacyNameAsWrittenOverlapResult();
  }

  lemma ModelAbsentFromPrefixAndName()
    ensures !Contains(TypeName(POSTDISTILL) + "x", "xx")
  {
    var p := TypeName(POSTDISTILL) + "x";
    forall j | 0 <= j <= |p|
      ensures !StartsWith(p[j..], "xx")
    {
      if j < |p| - 1 {
        assert p[j] != 'x';
        assert p[j..][0] == p[j];
      }
    }
  }

  lemma LegacyNameAsWrittenOverlapResult()
    ensures LegacyNameAsWritten(FileName(NewColumn(POSTDISTILL, "x", "xx", "")), "xx") == Success("")
  {
    var base := FileName(NewColumn(POSTDISTILL, "x", "xx", ""));
    PostdistillFileName("x", "xx");
    assert base == TypeName(POSTDISTILL) + ("x" + "xx" + PickleExt);
    PrefixBlocksNoOccurrence(base, "x" + "xx" + PickleExt, "xx");
    assert base[11..][..2] == "xx";
    SplitFirstIs(base, "xx", 11);
    assert base[..11] == TypeName(POSTDISTILL);
  }

  /** An empty model name makes the scan as written raise. */
  lemma LegacyNameAsWrittenEmptyModel(base: string)
    ensures LegacyNameAsWritten(base, "").Failure?
  {
  }

  /** A function name that begins with the model name is recovered as the
      empty name by the scan as written. */
  lemma LegacyNameLostWhenNameStartsWithModel(rest: string, model: string)
    requires |model| > 0 && IsLower(model[0])
    ensures LegacyNameAsWritten(FileName(NewColumn(POSTDISTILL, model + rest, model, "")), model) == Success("")
  {
    var base := FileName(NewColumn(POSTDISTILL, model + rest, model, ""));
    PostdistillFileName(model + rest, model);
    assert base == TypeName(POSTDISTILL) + (model + rest + model + PickleExt);
    PrefixBlocksNoOccurrence(base, model + rest + model + PickleExt, model);
    assert base[11..][..|model|] == model;
    SplitFirstIs(base, model, 11);
    assert base[..11] == TypeName(POSTDISTILL);
  }

  /** No lower-case pattern starts inside the upper-case kind prefix. */
  lemma PrefixBlocksNoOccurrence(base: string, rest: string, p: string)
    requires base == TypeName(POSTDISTILL) + rest
    requires |p| > 0 && IsLower(p[0])
    ensures forall j :: 0 <= j < |TypeName(POSTDISTILL)| ==> !StartsWith(base[j..], p)
  {
    forall j | 0 <= j < |TypeName(POSTDISTILL)|
      ensures !StartsWith(base[j..], p)
    {
      assert base[j] == TypeName(POSTDISTILL)[j];
      assert !IsLower(base[j]);
      assert base[j..][0] == base[j];
    }
  }
}
