/** The decoded data-requirements document read by the validator and by the
    diagram generator: raw inputs, final ("required") outputs with their
    inputs, and per-target processing steps. Mappings keep the YAML's key
    order; values the modelled code never reads are left out. */
module RequirementsDoc {
  import opened Common
  import opened OrderedDict

  /** An `input_data` value: one name, or a list of names. */
  datatype InputData = Single(name: string) | Many(names: seq<string>)

  /** The names an `input_data` entry stands for: a single name is a
      one-element list and a missing entry is the empty list. */
  function InputNames(d: Option<InputData>): seq<string> {
    match d
    case None => []
    case Some(Single(n)) => [n]
    case Some(Many(ns)) => ns
  }

  /** One entry of a target's `steps` list. A bare string reuses a step
      defined (as a mapping) under some target's steps; a mapping defines one,
      with each key possibly absent. `outputData` holds the keys of its
      `output_data` mapping. */
  datatype Step =
    | Reuse(reused: string)
    | Inline(name: Option<string>, inputData: Option<InputData>, outputData: Option<seq<string>>)

  /** A `required_data` entry; only its `input_data` is ever read. */
  datatype TargetEntry = TargetEntry(inputData: Option<InputData>)

  /** A `processing` entry: its optional `steps` list, and whether it holds
      any other key (which makes it a non-empty, truthy mapping). */
  datatype ProcessingEntry = ProcessingEntry(steps: Option<seq<Step>>, hasOtherKeys: bool)

  /** `processing.get("steps", [])`. */
  function StepsOf(p: ProcessingEntry): seq<Step> {
    p.steps.GetOr([])
  }

  /** The top-level mapping: each of the three sections may be missing. Raw
      data entries are only ever iterated for their names. */
  datatype Document = Document(
    requiredData: Option<Dict<string, TargetEntry>>,
    rawData: Option<seq<string>>,
    processing: Option<Dict<string, ProcessingEntry>>)

  /** `doc.get("required_data", {})`. */
  function Targets(doc: Document): Dict<string, TargetEntry> {
    doc.requiredData.GetOr([])
  }

  /** The keys of `doc.get("raw_data", {})`. */
  function RawNames(doc: Document): seq<string> {
    doc.rawData.GetOr([])
  }

  /** `doc.get("processing", {})`. */
  function Processing(doc: Document): Dict<string, ProcessingEntry> {
    doc.processing.GetOr([])
  }

  /** A mapping step whose `name` is `n`: what a bare reference to `n` looks for. */
  predicate Defines(s: Step, n: string) {
    s.Inline? && s.name == Some(n)
  }

  /** Some target's steps hold a mapping step named `n`. */
  predicate DefinesStep(procs: Dict<string, ProcessingEntry>, n: string) {
    exists i, j :: 0 <= i < |procs| && 0 <= j < |StepsOf(procs[i].1)| && Defines(StepsOf(procs[i].1)[j], n)
  }
}
