# Data-flow specification tools: a Dafny model

The repository keeps a data-requirements document in YAML. The document has
three sections:

- `required_data`: the final data items, each with its `input_data`.
- `raw_data`: the raw inputs.
- `processing`: for each final data item, a list of `steps`. A step is
  either a mapping with `name`, `input_data` and `output_data`, or the bare
  name of a step defined as a mapping under another item.

A second document lists `data` and `parameter` entries and their mutual
references.

This project models the three programs that read these documents. It proves
what each of them reports or draws.

- **The data-requirements validator** (`YamlValidator`). It loads the
  document, stops at the first missing section, and collects the final,
  raw, step and output names into sets. It then appends findings to its
  `errors` list:
  - cross-category name overlaps;
  - dangling `input_data` references;
  - `processing` keys that are not final data;
  - bare step names no mapping step defines;
  - missing required properties.

  It succeeds iff `errors` is empty.
- **The Mermaid diagram generator.** For each final data item it:
  1. resolves the bare step names;
  2. records nodes (raw, final, step), the step that last writes each output
     and the steps that read each input;
  3. builds the edges;
  4. numbers the nodes `A`…`Z`, `A1`…;
  5. returns the lines joined by line breaks.

  It raises when a bare step name does not resolve.
- **The data-dependencies validator.** It returns a list of errors and a
  list of warnings:
  - missing sections;
  - target items that are not data;
  - dangling `required_data` and `required_parameter` references;
  - one error listing every name that is both a data and a parameter name;
  - warnings for missing description/format/unit(/value) fields.

The decoded YAML is a typed value. Mappings are insertion-ordered
association lists (module `OrderedDict`), so key order, overwriting and
`setdefault`-style appends follow Python's dict. Findings are datatype values
that carry the names their messages mention.

Modules:

- **`Common`:** Option, Result and first-occurrence order.
- **`OrderedDict`:** the Python dict.
- **`RequirementsDoc`:** the data-requirements document.
- **`RequirementsFindings` and `RequirementsValidator`:** what each check
  appends, then the class that runs the checks.
- **`FlowGraph`, `MermaidText` and `FlowDiagram`:** the graph, the
  identifiers and text, then the generator's loops.
- **`DependencyFindings` and `DependencyValidator`:** the second validator.
- **`Consistency`:** how the validator and the generator agree.

Each loop of the source is a method with a `while` loop. Its postcondition
ties the result, or the object's new state, to a specification function.
Lemmas state what those functions mean.

Behaviours of the code that a reader might not expect, all modelled as
written:

- **Node identifiers.** After `Z` the identifiers are `A1`, `B1`, …, the
  suffix counting completed cycles
  (scripts/misc/gen_data_flow_diagrams.py:111-113).
- **Bare-name resolution.** The generator resolves a bare name to the first
  matching step of the *last* target that defines it. The inner loop's
  `break` does not end the outer loop
  (scripts/misc/gen_data_flow_diagrams.py:46-55).
- **Unresolved bare names.** An unresolved bare name makes the generator
  raise, because the name string has no `get`
  (scripts/misc/gen_data_flow_diagrams.py:42-64).
- **Missing sections.** The data-requirements validator stops at the first
  missing section (scripts/misc/validate_data_requirements.py:72-84). The
  dependency validator reports every missing section
  (scripts/misc/gen_data_flow/validate_data_dependencies.py:10-16).
- **Names in two sections.** The data-requirements validator never compares
  names against parameters
  (scripts/misc/validate_data_requirements.py:116-132). Only the dependency
  validator checks data/parameter overlap, with one error for all
  overlapping names
  (scripts/misc/gen_data_flow/validate_data_dependencies.py:44-52).

## Model

| member | source | states |
|---|---|---|
| RequirementsValidator.YamlValidator.constructor | scripts/misc/validate_data_requirements.py:13-29 | a new validator has the path, no document, empty error and warning lists and five empty name sets |
| RequirementsValidator.YamlValidator.LoadYaml | scripts/misc/validate_data_requirements.py:31-43 | succeeds iff decoding succeeded; then the document is stored and nothing appended, else exactly one load error carrying the exception text is appended |
| RequirementsValidator.YamlValidator.Validate | scripts/misc/validate_data_requirements.py:45-70 | result true iff the error list is empty. A load failure or a missing section appends one finding and leaves the name sets unchanged. Otherwise the name sets gain the collected names, and the errors gain the duplicate report, then the reference findings, then the property findings, in that order |
| RequirementsValidator.YamlValidator.RunChecks | scripts/misc/validate_data_requirements.py:58-68 | collection, duplicate, reference and property checks run in that order, each later check seeing the collected names |
| RequirementsValidator.YamlValidator.CheckRequiredSections | scripts/misc/validate_data_requirements.py:72-84 | true iff no required section is missing; otherwise exactly one finding, for the first missing section in the order required_data, raw_data, processing |
| RequirementsFindings.FirstMissingIsFirst | scripts/misc/validate_data_requirements.py:78-84 | nothing is missing iff every section is present; a reported section is missing and every section before it is present |
| RequirementsValidator.YamlValidator.CollectDataNames | scripts/misc/validate_data_requirements.py:86-114 | each name set grows by exactly the names of its category; all_data_names grows by all of them |
| RequirementsValidator.YamlValidator.CollectTargetNames | scripts/misc/validate_data_requirements.py:88-91 | required_data_names and all_data_names gain exactly the required_data keys |
| RequirementsValidator.YamlValidator.CollectRawNames | scripts/misc/validate_data_requirements.py:93-96 | raw_data_names and all_data_names gain exactly the raw_data names |
| RequirementsValidator.YamlValidator.CollectProcessingNames | scripts/misc/validate_data_requirements.py:98-114 | step and output name sets gain the names over every processing entry |
| RequirementsValidator.YamlValidator.CollectStepNames | scripts/misc/validate_data_requirements.py:100-114 | step and output name sets gain the names of one target's steps |
| RequirementsValidator.YamlValidator.CollectStep | scripts/misc/validate_data_requirements.py:101-114 | a bare name adds itself; a named mapping adds its name and its output keys; a mapping without name adds nothing |
| RequirementsValidator.YamlValidator.CollectOutputNames | scripts/misc/validate_data_requirements.py:112-114 | output_data_names and all_data_names gain exactly the output keys |
| RequirementsFindings.ProcessingStepNamesMember | scripts/misc/validate_data_requirements.py:99-109 | a name is collected as a step name iff some target's steps hold it as a bare name or as the name of a mapping step |
| RequirementsFindings.ProcessingOutputNamesMember | scripts/misc/validate_data_requirements.py:105-114 | a name is collected as an output name iff it is an output_data key of a named mapping step |
| RequirementsFindings.StepNamesMember | scripts/misc/validate_data_requirements.py:100-109 | one target's step names are exactly the names its entries contribute |
| RequirementsFindings.OutputNamesMember | scripts/misc/validate_data_requirements.py:111-114 | one target's output names are exactly those its named mapping steps contribute |
| RequirementsValidator.YamlValidator.CheckDuplicateNames | scripts/misc/validate_data_requirements.py:116-132 | appends nothing from the in-category checks, then every final/raw, final/step and raw/step overlap exactly once, in that order |
| RequirementsValidator.YamlValidator.CheckDuplicatesInSet | scripts/misc/validate_data_requirements.py:134-140 | walking a set never meets a name twice, so the error list is unchanged |
| RequirementsValidator.YamlValidator.CheckOverlap | scripts/misc/validate_data_requirements.py:142-150 | appends one overlap finding per name in both sets, each exactly once and nothing else |
| RequirementsFindings.OverlapReportAdd | scripts/misc/validate_data_requirements.py:146-150 | reporting one more common name keeps the report exact |
| RequirementsValidator.DuplicateReportOfParts | scripts/misc/validate_data_requirements.py:124-132 | the three overlap reports in turn form the duplicate report |
| RequirementsValidator.YamlValidator.CheckReferenceIntegrity | scripts/misc/validate_data_requirements.py:152-208 | appends exactly the target-input findings, then the processing findings |
| RequirementsValidator.YamlValidator.CheckTargetReferences | scripts/misc/validate_data_requirements.py:154-164 | appends, entry by entry, one finding per unknown input name |
| RequirementsValidator.YamlValidator.CheckInputs | scripts/misc/validate_data_requirements.py:160-164 | appends one finding per input name not among all collected names, for a target or for a step |
| RequirementsValidator.YamlValidator.CheckProcessingReferences | scripts/misc/validate_data_requirements.py:166-208 | appends the findings of every processing entry in order |
| RequirementsValidator.YamlValidator.CheckEntryReferences | scripts/misc/validate_data_requirements.py:167-208 | a key that is not a final-data name is reported, then its steps are checked |
| RequirementsValidator.YamlValidator.CheckStepReferences | scripts/misc/validate_data_requirements.py:174-208 | appends the findings of each step in order |
| RequirementsValidator.YamlValidator.CheckStepReference | scripts/misc/validate_data_requirements.py:175-208 | a bare name is reported iff no mapping step anywhere defines it; a named mapping step's unknown inputs are reported; a mapping without name yields nothing |
| RequirementsValidator.FindStepDefinition | scripts/misc/validate_data_requirements.py:176-190 | the flag is set iff some target's steps hold a mapping step with that name |
| RequirementsFindings.UnknownTargetInputsCount | scripts/misc/validate_data_requirements.py:160-164 | an unknown input name yields one finding per occurrence in input_data, a known one none |
| RequirementsFindings.UnknownTargetInputsKind | scripts/misc/validate_data_requirements.py:160-164 | a target's input findings all concern that target |
| RequirementsFindings.UnknownTargetInputsMember | scripts/misc/validate_data_requirements.py:160-164 | a target's findings name an input iff it is one of that target's unknown inputs |
| RequirementsFindings.TargetInputFindingsMember | scripts/misc/validate_data_requirements.py:154-164 | an input is reported for a final-data entry iff that entry lists it and it is unknown |
| RequirementsFindings.UnknownStepInputsCount | scripts/misc/validate_data_requirements.py:204-208 | an unknown step input yields one finding per occurrence, a known one none |
| RequirementsFindings.UnknownStepInputsKind | scripts/misc/validate_data_requirements.py:204-208 | a step's input findings all concern that step |
| RequirementsFindings.StepsReferenceUnknownStep | scripts/misc/validate_data_requirements.py:175-194 | within one target's steps, an unknown-step finding appears iff the bare name occurs and nothing defines it (how often: StepsUnknownStepCount) |
| RequirementsFindings.StepsUnknownStepCount | scripts/misc/validate_data_requirements.py:174-194 | an undefined bare name is reported under the target once per occurrence in its steps, a defined one never |
| RequirementsFindings.UnknownStepMember | scripts/misc/validate_data_requirements.py:166-194 | an unknown-step finding for (target, name) appears iff no mapping step defines the name and that target's steps hold it bare (how often: ProcessingUnknownStepCount) |
| RequirementsFindings.ProcessingUnknownStepCount | scripts/misc/validate_data_requirements.py:166-194 | over all processing entries, an undefined bare name is reported under a target once per occurrence in the steps of the entries keyed by it, a defined one never |
| RequirementsFindings.UnknownProcessingTargetMember | scripts/misc/validate_data_requirements.py:168-172 | a processing key is reported iff it is not a final-data name |
| RequirementsFindings.StepsReferenceNoProcessingTarget | scripts/misc/validate_data_requirements.py:174-208 | the step checks never report a processing key |
| RequirementsValidator.YamlValidator.CheckRequiredProperties | scripts/misc/validate_data_requirements.py:210-239 | appends exactly the target-property findings, then the step-property findings |
| RequirementsValidator.YamlValidator.CheckTargetProperties | scripts/misc/validate_data_requirements.py:212-217 | one finding per final-data entry without input_data, in order |
| RequirementsValidator.YamlValidator.CheckProcessingProperties | scripts/misc/validate_data_requirements.py:219-239 | appends the property findings of every processing entry in order |
| RequirementsValidator.YamlValidator.CheckStepProperties | scripts/misc/validate_data_requirements.py:221-239 | appends the property findings of each step in order |
| RequirementsValidator.YamlValidator.CheckStepProperty | scripts/misc/validate_data_requirements.py:222-239 | a mapping without name yields one finding only; a named one yields one per missing input_data and output_data; a bare name yields nothing |
| RequirementsFindings.TargetPropertyFindingsMember | scripts/misc/validate_data_requirements.py:212-217 | an entry is reported iff it lacks input_data, and only such findings are produced |
| RequirementsFindings.StepsPropertyFindingsCount | scripts/misc/validate_data_requirements.py:221-239 | the number of property findings is one per nameless mapping step plus one per missing input_data or output_data of a named one |
| RequirementsFindings.StepWithoutNameMember | scripts/misc/validate_data_requirements.py:223-227 | a nameless-step finding appears for a target iff one of its mapping steps has no name |
| RequirementsFindings.StepWithoutInputDataMember | scripts/misc/validate_data_requirements.py:229-234 | a missing input_data is reported under a step's name iff a named mapping step lacks it |
| RequirementsFindings.StepWithoutOutputDataMember | scripts/misc/validate_data_requirements.py:236-239 | a missing output_data is reported under a step's name iff a named mapping step lacks it |
| FlowGraph.FirstDefinition | scripts/misc/gen_data_flow_diagrams.py:49-55 | the result, if any, is a mapping step of that name from the list; none iff no step of the list defines it |
| FlowGraph.FirstDefinitionFirst | scripts/misc/gen_data_flow_diagrams.py:49-55 | the step found is the first of the list that defines the name, since the inner loop breaks at the first match |
| FlowGraph.FindDefinition | scripts/misc/gen_data_flow_diagrams.py:46-55 | a found step defines the name |
| FlowGraph.FindDefinitionDefines | scripts/misc/gen_data_flow_diagrams.py:46-55 | a bare name resolves iff some target's steps define it |
| FlowGraph.FindDefinitionLast | scripts/misc/gen_data_flow_diagrams.py:46-55 | the definition used is the first one in the last target that has one |
| FlowGraph.ResolveAllSuccess | scripts/misc/gen_data_flow_diagrams.py:40-61 | resolution succeeds iff each step resolves, and then the i-th resolved step is the i-th step's resolution |
| FlowGraph.ResolveAllPrefixFailure | scripts/misc/gen_data_flow_diagrams.py:41-64 | once a prefix fails, the whole walk fails the same way |
| FlowGraph.ResolveAllFailure | scripts/misc/gen_data_flow_diagrams.py:41-64 | a failure is that of the first step that does not resolve |
| FlowGraph.Nodes | scripts/misc/gen_data_flow_diagrams.py:26-61 | every step is a step node, the target otherwise final, a raw input otherwise raw, nothing else is a node; no key repeats |
| FlowGraph.NodesOrder | scripts/misc/gen_data_flow_diagrams.py:26-61 | nodes appear in the order their key is first assigned: raw inputs, target, steps |
| FlowGraph.SourcesLastWriter | scripts/misc/gen_data_flow_diagrams.py:73-76 | the source recorded for an output is the last step writing it |
| FlowGraph.SourcesDefined | scripts/misc/gen_data_flow_diagrams.py:73-76 | an output has a recorded source iff some step writes it, and the source is a step |
| FlowGraph.SourcesOrder | scripts/misc/gen_data_flow_diagrams.py:73-79 | sources are iterated in order of the first write of each output |
| FlowGraph.ConsumersGet | scripts/misc/gen_data_flow_diagrams.py:63-71 | the readers recorded for a name are exactly the steps reading it, in order, once per listing; a name is present iff some step reads it |
| FlowGraph.ReadersAreSteps | scripts/misc/gen_data_flow_diagrams.py:63-71 | every recorded reader is one of the steps |
| FlowGraph.ConsumerEdges | scripts/misc/gen_data_flow_diagrams.py:90-92 | one edge per reader entry, in reader order: the i-th edge runs from the source to the i-th reader with the given label |
| FlowGraph.ConsumerEdgesCount | scripts/misc/gen_data_flow_diagrams.py:90-92 | an edge occurs as often as its destination occurs among the readers, so a step listing an input twice gets two edges |
| FlowGraph.ProducedEdgesMember | scripts/misc/gen_data_flow_diagrams.py:78-92 | a produced edge runs from the recorded source of its label to the final node when the label is the target, else to a reader of it; unread intermediate outputs give no edge |
| FlowGraph.ProducedEdgesCount | scripts/misc/gen_data_flow_diagrams.py:78-92 | a produced edge from the recorded source is drawn once to the final node, and to a reader once per reader entry recorded for its label; any other edge never |
| FlowGraph.RawEdgesMember | scripts/misc/gen_data_flow_diagrams.py:94-98 | a raw edge is unlabelled and runs from a raw input to a step reading it |
| FlowGraph.RawEdgesCount | scripts/misc/gen_data_flow_diagrams.py:94-98 | a raw edge is drawn once per listing of its raw input times the reader entries recorded for that input; a labelled edge never |
| FlowGraph.EdgesWithinNodes | scripts/misc/gen_data_flow_diagrams.py:123-130 | both ends of every edge are nodes, so the generator's end check never drops an edge |
| FlowGraph.ProducedEdgeWithinNodes | scripts/misc/gen_data_flow_diagrams.py:78-92 | a produced edge joins a step to the final node or to a step |
| FlowGraph.RawEdgeWithinNodes | scripts/misc/gen_data_flow_diagrams.py:94-98 | a raw edge joins a raw node to a step |
| MermaidText.NatToString | scripts/misc/gen_data_flow_diagrams.py:112 | the numeral is a non-empty string of decimal digits, one digit long iff the number is below 10 |
| MermaidText.NatToStringInjective | scripts/misc/gen_data_flow_diagrams.py:112 | different numbers have different numerals |
| MermaidText.IdOf | scripts/misc/gen_data_flow_diagrams.py:111-113 | an identifier starts with a capital letter and is one character long iff the counter is below 26 |
| MermaidText.IdOfInjective | scripts/misc/gen_data_flow_diagrams.py:111-113 | no two nodes get the same identifier |
| MermaidText.SplitJoin | scripts/misc/gen_data_flow_diagrams.py:132 | splitting the joined text at line breaks gives back the lines, when no line holds a break |
| MermaidText.JoinStartsWithFirst | scripts/misc/gen_data_flow_diagrams.py:132 | the joined text starts with the first line |
| FlowDiagram.NodeIdsGet | scripts/misc/gen_data_flow_diagrams.py:104-114 | the identifier table has exactly the node keys, and the i-th node's identifier is the i-th identifier |
| FlowDiagram.NodeLinesAt | scripts/misc/gen_data_flow_diagrams.py:116-121 | the i-th node line declares the i-th node with the i-th identifier and the shape of its type |
| FlowDiagram.EdgeLinesAt | scripts/misc/gen_data_flow_diagrams.py:123-130 | when both ends of every edge are known, there is one line per edge and the j-th joins the identifiers of the j-th edge's ends, labelled iff the label is non-empty |
| FlowDiagram.LinesNodes | scripts/misc/gen_data_flow_diagrams.py:101-121 | the drawing starts with the header, then one declaration per node in order |
| FlowDiagram.LinesEdges | scripts/misc/gen_data_flow_diagrams.py:123-130 | after the nodes come exactly one line per edge, in edge order, between the identifiers of its ends |
| FlowDiagram.DiagramEdges | scripts/misc/gen_data_flow_diagrams.py:78-130 | a diagram has 1 + nodes + edges lines, and every edge is drawn between its ends' identifiers |
| FlowDiagram.MermaidFails | scripts/misc/gen_data_flow_diagrams.py:17-66 | generation for a target fails iff its processing entry exists, is non-empty and holds a bare name no mapping step defines |
| FlowDiagram.MermaidEmpty | scripts/misc/gen_data_flow_diagrams.py:17-20 | the text is empty iff the target has no processing entry or an empty one; otherwise a diagram starts with its header |
| FlowDiagram.MermaidForGet | scripts/misc/gen_data_flow_diagrams.py:135-142 | the run succeeds iff every diagram does, and then maps each final data item to its diagram and nothing else |
| FlowDiagram.MermaidForKeys | scripts/misc/gen_data_flow_diagrams.py:135-142 | the results are keyed in required_data order |
| FlowDiagram.MermaidForPrefixFailure | scripts/misc/gen_data_flow_diagrams.py:138-140 | a failing diagram ends the whole run with that failure |
| FlowDiagram.FindReusedStep | scripts/misc/gen_data_flow_diagrams.py:46-55 | the nested search returns exactly the specified definition, the last target's first match |
| FlowDiagram.ResolveStep | scripts/misc/gen_data_flow_diagrams.py:42-57 | a step resolves as specified: a bare name through its definition, keeping its own name |
| FlowDiagram.CollectSteps | scripts/misc/gen_data_flow_diagrams.py:40-76 | fails iff resolution fails, with the same error; otherwise the step nodes, sources and readers are those of the resolved steps |
| FlowDiagram.CollectStops | scripts/misc/gen_data_flow_diagrams.py:41-64 | a step that does not resolve decides the outcome of the whole walk |
| FlowDiagram.RecordReaders | scripts/misc/gen_data_flow_diagrams.py:68-71 | each input gains the step as a reader, a new input first getting an empty list |
| FlowDiagram.RecordSources | scripts/misc/gen_data_flow_diagrams.py:75-76 | each output's source becomes the step |
| FlowDiagram.AddReaderEdges | scripts/misc/gen_data_flow_diagrams.py:91-92 | appends one edge per reader after the existing edges |
| FlowDiagram.BuildEdges | scripts/misc/gen_data_flow_diagrams.py:78-98 | the edges are the produced edges in source order, then the raw edges |
| FlowDiagram.AddProducedEdges | scripts/misc/gen_data_flow_diagrams.py:78-92 | builds exactly the produced edges |
| FlowDiagram.AddRawEdges | scripts/misc/gen_data_flow_diagrams.py:94-98 | builds exactly the raw edges |
| FlowDiagram.Render | scripts/misc/gen_data_flow_diagrams.py:100-130 | the lines are the header, the node declarations and the drawn edges |
| FlowDiagram.DeclareNodes | scripts/misc/gen_data_flow_diagrams.py:101-121 | the header plus one declaration per node, and the identifier table of the nodes |
| FlowDiagram.DrawEdges | scripts/misc/gen_data_flow_diagrams.py:123-130 | appends the line of each edge whose ends have identifiers |
| FlowDiagram.DeclareRawNodes | scripts/misc/gen_data_flow_diagrams.py:27-29 | every raw input becomes a raw node, in order |
| FlowDiagram.GenerateMermaidForData | scripts/misc/gen_data_flow_diagrams.py:15-132 | returns the specified diagram text or failure for the target |
| FlowDiagram.GenerateAllMermaid | scripts/misc/gen_data_flow_diagrams.py:135-142 | returns the specified diagrams of every final data item |
| Consistency.MermaidFailsIffUnknownStep | scripts/misc/validate_data_requirements.py:174-194 | with distinct processing keys, a target's diagram cannot be generated iff the validator reports an unknown bare step under that target |
| Consistency.ReferenceUnknownStep | scripts/misc/validate_data_requirements.py:152-208 | unknown-step findings come only from the processing part of the reference check |
| DependencyValidator.ValidateSectionsExist | scripts/misc/gen_data_flow/validate_data_dependencies.py:10-16 | returns exactly the specified section errors |
| DependencyFindings.SectionErrorsCount | scripts/misc/gen_data_flow/validate_data_dependencies.py:10-16 | a missing section is reported once per occurrence in the list, a present one never |
| DependencyFindings.SectionErrorsKind | scripts/misc/gen_data_flow/validate_data_dependencies.py:10-16 | every section error names a listed section that is missing |
| DependencyFindings.RequiredSectionErrors | scripts/misc/gen_data_flow/validate_data_dependencies.py:78-79 | the errors are those of metadata, target, data, parameter, in that order |
| DependencyValidator.ValidateTargetInData | scripts/misc/gen_data_flow/validate_data_dependencies.py:18-24 | returns exactly the specified target errors |
| DependencyFindings.TargetErrorsCount | scripts/misc/gen_data_flow/validate_data_dependencies.py:18-24 | a target item absent from data is reported once per occurrence, a present one never |
| DependencyFindings.TargetErrorsKind | scripts/misc/gen_data_flow/validate_data_dependencies.py:18-24 | every target error names a target item absent from data |
| DependencyFindings.TargetErrorsEmpty | scripts/misc/gen_data_flow/validate_data_dependencies.py:18-24 | no target error iff every target item is a data key |
| DependencyValidator.ValidateRequiredData | scripts/misc/gen_data_flow/validate_data_dependencies.py:26-33 | returns exactly the specified required_data errors |
| DependencyValidator.ValidateRequiredParameters | scripts/misc/gen_data_flow/validate_data_dependencies.py:35-42 | returns exactly the specified required_parameter errors |
| DependencyFindings.EntryRefErrorsMember | scripts/misc/gen_data_flow/validate_data_dependencies.py:30-32 | one entry's errors are exactly its references missing from the section |
| DependencyFindings.EntryRefErrorsCount | scripts/misc/gen_data_flow/validate_data_dependencies.py:30-32 | a reference absent from the section is reported once per listing by the entry, a present one never |
| DependencyFindings.RefErrorsMember | scripts/misc/gen_data_flow/validate_data_dependencies.py:26-42 | an error for (entry, reference) appears iff that entry lists the reference and the section lacks it |
| DependencyFindings.RefErrorsCount | scripts/misc/gen_data_flow/validate_data_dependencies.py:26-42 | over all entries, a missing reference is reported once per listing by an entry of that name, a present one never |
| DependencyFindings.RefErrorsKind | scripts/misc/gen_data_flow/validate_data_dependencies.py:26-42 | every reference error is of the checked kind and names a missing reference |
| DependencyFindings.RefErrorsEmpty | scripts/misc/gen_data_flow/validate_data_dependencies.py:26-42 | no reference error iff every reference of every entry resolves |
| DependencyFindings.ValidateUniqueNames | scripts/misc/gen_data_flow/validate_data_dependencies.py:44-52 | at most one error; present iff some name is both a data and a parameter name; it carries exactly those names |
| DependencyValidator.ValidateRequiredFields | scripts/misc/gen_data_flow/validate_data_dependencies.py:54-70 | returns exactly the data-entry field warnings, then the parameter ones |
| DependencyFindings.EntryFieldWarningsMember | scripts/misc/gen_data_flow/validate_data_dependencies.py:60-62 | one entry's warnings are exactly its missing required fields |
| DependencyFindings.FieldWarningsMember | scripts/misc/gen_data_flow/validate_data_dependencies.py:54-70 | a warning for (entry, field) appears iff the field is required and that entry lacks it |
| DependencyFindings.FieldWarningsEmpty | scripts/misc/gen_data_flow/validate_data_dependencies.py:54-70 | no warning iff every entry has every required field |
| DependencyValidator.ValidateDataDependencies | scripts/misc/gen_data_flow/validate_data_dependencies.py:72-101 | returns exactly the specified errors and warnings |
| DependencyFindings.NotCheckable | scripts/misc/gen_data_flow/validate_data_dependencies.py:77-101 | without data or parameter, only section errors are returned, including one for the missing section, and no warning |
| DependencyFindings.MissingTarget | scripts/misc/gen_data_flow/validate_data_dependencies.py:81-87 | a missing target is reported as a section and otherwise treated as an empty list |
| DependencyFindings.NoTargetErrors | scripts/misc/gen_data_flow/validate_data_dependencies.py:84-96 | with an empty target list no content error is about a target item |
| DependencyFindings.SectionErrorsEmpty | scripts/misc/gen_data_flow/validate_data_dependencies.py:77-79 | no section error iff all four sections are present |
| DependencyFindings.CleanIffWellFormed | scripts/misc/gen_data_flow/validate_data_dependencies.py:72-101 | no error and no warning iff every section is present, every reference resolves, no name is both data and parameter, and every entry has its required fields |
| OrderedDict.Put | scripts/misc/gen_data_flow_diagrams.py:29-32 | assigning a key sets its value and keeps every other; a new key goes last, a present one keeps its place |
| OrderedDict.PutEachKeys | scripts/misc/gen_data_flow_diagrams.py:28-29 | keys assigned in turn appear in the order of their first assignment, after the existing keys |
| OrderedDict.AppendEachGet | scripts/misc/gen_data_flow_diagrams.py:68-71 | appending a value under each key gives each key its old list plus one copy per occurrence |
| OrderedDict.AppendEachKeys | scripts/misc/gen_data_flow_diagrams.py:68-71 | new keys appear in the order of their first occurrence |
| Common.FirstOccurrencesOrder | scripts/misc/gen_data_flow_diagrams.py:106 | the first-occurrence order places an element after every element that occurred before it |

## Left out

- Reading and decoding YAML (the `load_yaml` functions and `yaml.safe_load`): file I/O and a foreign library. The decoded document is a typed input, and `LoadYaml` takes the decoding outcome as a parameter.
- `main`, `print_results` and the Markdown writing: argument handling, printing and file output.
- `scripts/misc/gen_data_flow/extract_sections.py` is not part of this model: it only loads YAML and applies defaults.
- Message texts: findings are datatype values carrying the names the messages mention, not the formatted strings.
- Document shapes the scripts do not expect are not modelled: explicit nulls, scalars where a mapping or a list belongs, and a `required_data` string iterated character by character. In the dependency document only the `metadata`, `target`, `data` and `parameter` keys are modelled, since nothing else is read.
- The generator's warning print when a target has no processing entry (line 19): output only. The model returns the empty text.
- `steps_info` in the generator is filled but never read. It is not modelled.
- The node-type filter when numbering nodes (lines 108-109) never skips a node, because every node is raw, step or final. It is not modelled.
- `YamlValidator.warnings` is never appended to by any check. It is a field that stays empty.
- RequirementsValidator.YamlValidator.CheckOverlap: Python iterates a set in hash order. The contract fixes which findings are appended and that each appears once, but not their order.
- DependencyFindings.ValidateUniqueNames: the error carries the set of overlapping names rather than the text joined in hash order.
- Consistency.MermaidFailsIffUnknownStep: assumes distinct `processing` keys, as any decoded mapping has. With repeated keys the generator reads the first entry and the validator checks every one.
