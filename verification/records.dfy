/** The records the backend keeps: prompts with their requirements
    (zeno/classes/classes.py), slices, tags and reports, metric requests and
    their results. Slices, tags and reports are defined in
    zeno/classes/slice.py, tag.py and report.py, which are not part of this
    model: only the fields the backend reads are kept, and a slice's filter
    predicates are kept as uninterpreted text. */
module Records {
  import opened Wrappers
  import opened OrderedMaps
  import Compiler

  /** `Requirement`; its examples are the compiler's `Example`. */
  datatype Requirement = Requirement(
    id: string,
    name: string,
    description: string,
    promptSnippet: string,
    evaluationMethod: string,
    examples: seq<Compiler.Example>)

  /** `Prompt`: the text, the version key it is stored under, and its
      requirements by id. */
  datatype Prompt = Prompt(text: string, version: string, requirements: ODict<Requirement>)

  /** `FilterPredicateGroup`. */
  datatype FilterGroup = FilterGroup(predicates: seq<string>, join: string)

  datatype Slice = Slice(sliceName: string, folder: string, filterPredicates: FilterGroup)

  datatype Tag = Tag(tagName: string, folder: string, selectionIds: seq<string>)

  datatype Report = Report(name: string)

  /** `MetricKey`: a slice, a model, a metric name, and optional prompt and
      requirement ids. */
  datatype MetricKey = MetricKey(
    sli: Slice,
    model: string,
    metric: string,
    promptId: Option<string>,
    requirementId: Option<string>)

  /** `GroupMetric`: the metric (absent when not computed) and the number of
      rows in the slice. */
  datatype GroupMetric = GroupMetric(metric: Option<real>, size: nat)

  const AllInstances: string := "All Instances"

  /** The slice every session starts with: no predicates, no folder. */
  function AllInstancesSlice(): Slice {
    Slice(AllInstances, "", FilterGroup([], ""))
  }
}
