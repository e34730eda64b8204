/** The session mutators of zeno/backend.py: folders, reports, tags and
    slices. Each one does nothing in a read-only session; the pickle write
    that follows each change is not modelled. Tags and slices are stored
    by name, so creating one under an existing name replaces it in place,
    and deleting a missing name raises `KeyError`. */
module Mutators {
  import opened Wrappers
  import opened OrderedMaps
  import opened Records
  import opened Backend

  /** `set_folders`. */
  function SetFolders(b: State, folders: seq<string>): State {
    if !b.editable then b else b.(folders := folders)
  }

  /** `set_reports`. */
  function SetReports(b: State, reports: seq<Report>): State {
    if !b.editable then b else b.(reports := reports)
  }

  /** `create_new_tag`. */
  function CreateNewTag(b: State, t: Tag): State {
    if !b.editable then b else b.(tags := Put(b.tags, t.tagName, t))
  }

  /** `delete_tag`. */
  function DeleteTag(b: State, name: string): Result<State, DictError> {
    if !b.editable then Success(b)
    else
      var tags :- Remove(b.tags, name);
      Success(b.(tags := tags))
  }

  /** `create_new_slice`. */
  function CreateNewSlice(b: State, s: Slice): State {
    if !b.editable then b else b.(slices := Put(b.slices, s.sliceName, s))
  }

  /** `delete_slice`; nothing protects the `All Instances` slice. */
  function DeleteSlice(b: State, name: string): Result<State, DictError> {
    if !b.editable then Success(b)
    else
      var slices :- Remove(b.slices, name);
      Success(b.(slices := slices))
  }

  // ---------------------------------------------------------------------
  // Properties
  // ---------------------------------------------------------------------

  /** A read-only session is left as it is by every mutator. */
  lemma ReadOnlyUnchanged(b: State, folders: seq<string>, reports: seq<Report>, t: Tag, s: Slice, name: string)
    requires !b.editable
    ensures SetFolders(b, folders) == b && SetReports(b, reports) == b
    ensures CreateNewTag(b, t) == b && DeleteTag(b, name) == Success(b)
    ensures CreateNewSlice(b, s) == b && DeleteSlice(b, name) == Success(b)
  {
  }

  /** In an editable session the folders and reports are replaced and
      nothing else changes. */
  lemma SetListsSpec(b: State, folders: seq<string>, reports: seq<Report>)
    requires b.editable
    ensures SetFolders(b, folders).folders == folders
    ensures SetFolders(b, folders).(folders := b.folders) == b
    ensures SetReports(b, reports).reports == reports
    ensures SetReports(b, reports).(reports := b.reports) == b
  {
  }

  /** A created tag is found under its name; other tags and the rest of
      the session are untouched; a new name goes last, an existing one
      keeps its place. */
  lemma CreateNewTagSpec(b: State, t: Tag)
    requires b.editable && Valid(b.tags)
    ensures var r := CreateNewTag(b, t);
      && Valid(r.tags)
      && t.tagName in r.tags.entries && r.tags.entries[t.tagName] == t
      && (forall x :: x != t.tagName ==> (x in r.tags.entries <==> x in b.tags.entries))
      && (forall x :: x != t.tagName && x in b.tags.entries ==> r.tags.entries[x] == b.tags.entries[x])
      && (t.tagName in b.tags.entries ==> r.tags.keys == b.tags.keys)
      && (t.tagName !in b.tags.entries ==> r.tags.keys == b.tags.keys + [t.tagName])
      && r.(tags := b.tags) == b
  {
    PutSpec(b.tags, t.tagName, t);
    if t.tagName in b.tags.entries {
      assert Put(b.tags, t.tagName, t).keys == b.tags.keys;
    }
  }

  /** Deleting a tag fails exactly when no tag has that name; otherwise
      the tag is gone and the others are untouched. */
  lemma DeleteTagSpec(b: State, name: string)
    requires b.editable && Valid(b.tags)
    ensures DeleteTag(b, name).Failure? <==> name !in b.tags.entries
    ensures DeleteTag(b, name).Success? ==>
      var r := DeleteTag(b, name).value;
      && Valid(r.tags)
      && name !in r.tags.entries
      && (forall x :: x != name ==> (x in r.tags.entries <==> x in b.tags.entries))
      && (forall x :: x != name && x in b.tags.entries ==> r.tags.entries[x] == b.tags.entries[x])
      && (exists i :: 0 <= i < |b.tags.keys| && b.tags.keys[i] == name && r.tags.keys == b.tags.keys[..i] + b.tags.keys[i + 1..])
      && r.(tags := b.tags) == b
  {
    RemoveSpec(b.tags, name);
  }

  /** Deleting a tag just created under a new name gives back the session. */
  lemma DeleteTagUndoesCreate(b: State, t: Tag)
    requires b.editable && Valid(b.tags) && t.tagName !in b.tags.entries
    ensures DeleteTag(CreateNewTag(b, t), t.tagName) == Success(b)
  {
    RemoveUndoesPut(b.tags, t.tagName, t);
  }

  /** A created slice is found under its name; other slices and the rest
      of the session are untouched; a new name goes last. */
  lemma CreateNewSliceSpec(b: State, s: Slice)
    requires b.editable && Valid(b.slices)
    ensures var r := CreateNewSlice(b, s);
      && Valid(r.slices)
      && s.sliceName in r.slices.entries && r.slices.entries[s.sliceName] == s
      && (forall x :: x != s.sliceName ==> (x in r.slices.entries <==> x in b.slices.entries))
      && (forall x :: x != s.sliceName && x in b.slices.entries ==> r.slices.entries[x] == b.slices.entries[x])
      && (s.sliceName in b.slices.entries ==> r.slices.keys == b.slices.keys)
      && (s.sliceName !in b.slices.entries ==> r.slices.keys == b.slices.keys + [s.sliceName])
      && r.(slices := b.slices) == b
  {
    PutSpec(b.slices, s.sliceName, s);
    if s.sliceName in b.slices.entries {
      assert Put(b.slices, s.sliceName, s).keys == b.slices.keys;
    }
  }

  /** Deleting a slice fails exactly when no slice has that name;
      otherwise the slice is gone and the others are untouched. */
  lemma DeleteSliceSpec(b: State, name: string)
    requires b.editable && Valid(b.slices)
    ensures DeleteSlice(b, name).Failure? <==> name !in b.slices.entries
    ensures DeleteSlice(b, name).Success? ==>
      var r := DeleteSlice(b, name).value;
      && Valid(r.slices)
      && name !in r.slices.entries
      && (forall x :: x != name ==> (x in r.slices.entries <==> x in b.slices.entries))
      && (forall x :: x != name && x in b.slices.entries ==> r.slices.entries[x] == b.slices.entries[x])
      && (exists i :: 0 <= i < |b.slices.keys| && b.slices.keys[i] == name && r.slices.keys == b.slices.keys[..i] + b.slices.keys[i + 1..])
      && r.(slices := b.slices) == b
  {
    RemoveSpec(b.slices, name);
  }

  /** Deleting a slice just created under a new name gives back the
      session. */
  lemma DeleteSliceUndoesCreate(b: State, s: Slice)
    requires b.editable && Valid(b.slices) && s.sliceName !in b.slices.entries
    ensures DeleteSlice(CreateNewSlice(b, s), s.sliceName) == Success(b)
  {
    RemoveUndoesPut(b.slices, s.sliceName, s);
  }

  /** The default slice can be deleted like any other. */
  lemma AllInstancesDeletable(b: State)
    requires b.editable && Valid(b.slices) && AllInstances in b.slices.entries
    ensures DeleteSlice(b, AllInstances).Success?
    ensures AllInstances !in DeleteSlice(b, AllInstances).value.slices.entries
  {
    DeleteSliceSpec(b, AllInstances);
  }
}
