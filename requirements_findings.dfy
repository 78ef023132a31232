/** What each check of the data-requirements validator reports, as functions
    of the document and of the name sets collected from it, with the lemmas
    that characterise those reports. The class that runs the checks in turn
    is in module RequirementsValidator. */
module RequirementsFindings {
  import opened Common
  import opened OrderedDict
  import opened RequirementsDoc

  /** The three name categories compared for overlaps. */
  datatype Category = FinalData | RawData | StepCategory

  /** One entry of the validator's `errors` list, carrying the names its
      message mentions. */
  datatype Finding =
    | LoadError(reason: string)
    | MissingSection(section: string)
    | DuplicateName(category: Category, name: string)
    | CategoryOverlap(first: Category, second: Category, name: string)
    | UnknownTargetInput(target: string, input: string)
    | UnknownProcessingTarget(target: string)
    | UnknownStep(target: string, step: string)
    | UnknownStepInput(step: string, input: string)
    | TargetWithoutInputData(target: string)
    | StepWithoutName(target: string)
    | StepWithoutInputData(step: string)
    | StepWithoutOutputData(step: string)

  // ---------------------------------------------------------------------
  // Required sections
  // ---------------------------------------------------------------------

  /** The sections checked, in the order they are checked. */
  const RequiredSections: seq<string> := ["required_data", "raw_data", "processing"]

  /** Whether the document has the named top-level section. */
  predicate HasSection(doc: Document, section: string)
    requires section in RequiredSections
  {
    if section == "required_data" then doc.requiredData.Some?
    else if section == "raw_data" then doc.rawData.Some?
    else doc.processing.Some?
  }

  /** The first of `sections` the document lacks. */
  function FirstMissing(doc: Document, sections: seq<string>): Option<string>
    requires forall s :: s in sections ==> s in RequiredSections
  {
    if sections == [] then None
    else if !HasSection(doc, sections[0]) then Some(sections[0])
    else FirstMissing(doc, sections[1..])
  }

  /** The section whose absence stops validation, if any. */
  function FirstMissingSection(doc: Document): Option<string> {
    FirstMissing(doc, RequiredSections)
  }

  /** Nothing is missing iff every section is present; otherwise the section
      reported is missing and every section checked before it is present. */
  lemma {:induction false} FirstMissingIsFirst(doc: Document, sections: seq<string>)
    requires forall s :: s in sections ==> s in RequiredSections
    ensures FirstMissing(doc, sections).None? <==> forall s :: s in sections ==> HasSection(doc, s)
    ensures FirstMissing(doc, sections).Some? ==>
      exists i :: 0 <= i < |sections| && sections[i] == FirstMissing(doc, sections).value
        && !HasSection(doc, sections[i]) && forall k :: 0 <= k < i ==> HasSection(doc, sections[k])
  {
    if sections != [] && HasSection(doc, sections[0]) {
      FirstMissingIsFirst(doc, sections[1..]);
      assert forall s :: s in sections ==> s == sections[0] || s in sections[1..];
      if FirstMissing(doc, sections[1..]).Some? {
        var i :| 0 <= i < |sections[1..]| && sections[1..][i] == FirstMissing(doc, sections[1..]).value
          && !HasSection(doc, sections[1..][i]) && forall k :: 0 <= k < i ==> HasSection(doc, sections[1..][k]);
        assert sections[i + 1] == sections[1..][i];
        assert forall k :: 1 <= k < i + 1 ==> sections[k] == sections[1..][k - 1];
      }
    }
  }

  // ---------------------------------------------------------------------
  // Collected names
  // ---------------------------------------------------------------------

  /** The step name a steps-list entry contributes: a bare string is itself a
      step name; a mapping contributes its `name`, if it has one. */
  function StepNameOf(s: Step): set<string> {
    match s
    case Reuse(n) => {n}
    case Inline(Some(n), _, _) => {n}
    case Inline(None, _, _) => {}
  }

  /** The output names a steps-list entry contributes: only a named mapping
      step contributes, with the keys of its `output_data`. */
  function OutputNamesOf(s: Step): set<string> {
    match s
    case Inline(Some(_), _, outs) => Elements(outs.GetOr([]))
    case _ => {}
  }

  function StepNames(steps: seq<Step>): set<string> {
    if steps == [] then {}
    else StepNames(steps[..|steps| - 1]) + StepNameOf(steps[|steps| - 1])
  }

  function OutputNames(steps: seq<Step>): set<string> {
    if steps == [] then {}
    else OutputNames(steps[..|steps| - 1]) + OutputNamesOf(steps[|steps| - 1])
  }

  /** Step names over every target's steps. */
  function ProcessingStepNames(procs: Dict<string, ProcessingEntry>): set<string> {
    if procs == [] then {}
    else ProcessingStepNames(procs[..|procs| - 1]) + StepNames(StepsOf(procs[|procs| - 1].1))
  }

  /** Output names over every target's steps. */
  function ProcessingOutputNames(procs: Dict<string, ProcessingEntry>): set<string> {
    if procs == [] then {}
    else ProcessingOutputNames(procs[..|procs| - 1]) + OutputNames(StepsOf(procs[|procs| - 1].1))
  }

  /** The entry at (i, j) names step `n`, as a bare reference or a named mapping. */
  predicate NamesStepAt(procs: Dict<string, ProcessingEntry>, i: int, j: int, n: string)
    requires 0 <= i < |procs| && 0 <= j < |StepsOf(procs[i].1)|
  {
    var s := StepsOf(procs[i].1)[j];
    s == Reuse(n) || Defines(s, n)
  }

  /** The entry at (i, j) is a named mapping step whose `output_data` has key `o`. */
  predicate OutputsAt(procs: Dict<string, ProcessingEntry>, i: int, j: int, o: string)
    requires 0 <= i < |procs| && 0 <= j < |StepsOf(procs[i].1)|
  {
    var s := StepsOf(procs[i].1)[j];
    s.Inline? && s.name.Some? && o in s.outputData.GetOr([])
  }

  lemma {:induction false} StepNamesMember(steps: seq<Step>, n: string)
    ensures n in StepNames(steps) <==> exists j :: 0 <= j < |steps| && n in StepNameOf(steps[j])
  {
    if steps != [] {
      var steps' := steps[..|steps| - 1];
      StepNamesMember(steps', n);
      assert forall j :: 0 <= j < |steps'| ==> steps'[j] == steps[j];
    }
  }

  lemma {:induction false} OutputNamesMember(steps: seq<Step>, o: string)
    ensures o in OutputNames(steps) <==> exists j :: 0 <= j < |steps| && o in OutputNamesOf(steps[j])
  {
    if steps != [] {
      var steps' := steps[..|steps| - 1];
      OutputNamesMember(steps', o);
      assert forall j :: 0 <= j < |steps'| ==> steps'[j] == steps[j];
    }
  }

  /** A name is a step name iff some target's steps hold it as a bare
      reference or as the `name` of a mapping step. */
  lemma {:induction false} ProcessingStepNamesMember(procs: Dict<string, ProcessingEntry>, n: string)
    ensures n in ProcessingStepNames(procs) <==>
      exists i, j :: 0 <= i < |procs| && 0 <= j < |StepsOf(procs[i].1)| && NamesStepAt(procs, i, j, n)
  {
    if procs != [] {
      var last := |procs| - 1;
      var procs' := procs[..last];
      ProcessingStepNamesMember(procs', n);
      StepNamesMember(StepsOf(procs[last].1), n);
      assert forall i :: 0 <= i < last ==> procs'[i] == procs[i];
      if n in ProcessingStepNames(procs) {
        if n in ProcessingStepNames(procs') {
          var i, j :| 0 <= i < |procs'| && 0 <= j < |StepsOf(procs'[i].1)| && NamesStepAt(procs', i, j, n);
          assert NamesStepAt(procs, i, j, n);
        } else {
          var j :| 0 <= j < |StepsOf(procs[last].1)| && n in StepNameOf(StepsOf(procs[last].1)[j]);
          assert NamesStepAt(procs, last, j, n);
        }
      } else {
        forall i, j | 0 <= i < |procs| && 0 <= j < |StepsOf(procs[i].1)|
          ensures !NamesStepAt(procs, i, j, n)
        {
          if i < last {
            assert !NamesStepAt(procs', i, j, n);
          } else {
            assert n !in StepNameOf(StepsOf(procs[last].1)[j]);
          }
        }
      }
    }
  }

  /** A name is an output name iff it is a key of the `output_data` of some
      named mapping step: bare references and unnamed steps contribute none. */
  lemma {:induction false} ProcessingOutputNamesMember(procs: Dict<string, ProcessingEntry>, o: string)
    ensures o in ProcessingOutputNames(procs) <==>
      exists i, j :: 0 <= i < |procs| && 0 <= j < |StepsOf(procs[i].1)| && OutputsAt(procs, i, j, o)
  {
    if procs != [] {
      var last := |procs| - 1;
      var procs' := procs[..last];
      ProcessingOutputNamesMember(procs', o);
      OutputNamesMember(StepsOf(procs[last].1), o);
      assert forall i :: 0 <= i < last ==> procs'[i] == procs[i];
      if o in ProcessingOutputNames(procs) {
        if o in ProcessingOutputNames(procs') {
          var i, j :| 0 <= i < |procs'| && 0 <= j < |StepsOf(procs'[i].1)| && OutputsAt(procs', i, j, o);
          assert OutputsAt(procs, i, j, o);
        } else {
          var j :| 0 <= j < |StepsOf(procs[last].1)| && o in OutputNamesOf(StepsOf(procs[last].1)[j]);
          assert OutputsAt(procs, last, j, o);
        }
      } else {
        forall i, j | 0 <= i < |procs| && 0 <= j < |StepsOf(procs[i].1)|
          ensures !OutputsAt(procs, i, j, o)
        {
          if i < last {
            assert !OutputsAt(procs', i, j, o);
          } else {
            assert o !in OutputNamesOf(StepsOf(procs[last].1)[j]);
          }
        }
      }
    }
  }

  // ---------------------------------------------------------------------
  // Overlaps between categories
  // ---------------------------------------------------------------------

  /** `part` reports every name of `names` exactly once as an overlap of
      categories `c1` and `c2`, in some order. */
  ghost predicate OverlapReport(part: seq<Finding>, names: set<string>, c1: Category, c2: Category) {
    && |part| == |names|
    && Distinct(part)
    && (forall k :: 0 <= k < |part| ==> part[k].CategoryOverlap? && part[k].first == c1 && part[k].second == c2 && part[k].name in names)
    && (forall n :: n in names ==> CategoryOverlap(c1, c2, n) in part)
  }

  /** Reporting one more name keeps the report exact. */
  lemma OverlapReportAdd(part: seq<Finding>, names: set<string>, c1: Category, c2: Category, n: string)
    requires OverlapReport(part, names, c1, c2) && n !in names
    ensures OverlapReport(part + [CategoryOverlap(c1, c2, n)], names + {n}, c1, c2)
  {
    var part' := part + [CategoryOverlap(c1, c2, n)];
    assert forall k :: 0 <= k < |part| ==> part'[k] == part[k];
    assert CategoryOverlap(c1, c2, n) !in part;
  }

  /** The findings the duplicate-name check appends: the in-category checks
      add nothing, then the overlaps final/raw, final/step and raw/step
      follow in that order. */
  ghost predicate DuplicateReport(part: seq<Finding>, required: set<string>, raw: set<string>, steps: set<string>) {
    var o1 := |required * raw|;
    var o2 := o1 + |required * steps|;
    && |part| == o2 + |raw * steps|
    && OverlapReport(part[..o1], required * raw, FinalData, RawData)
    && OverlapReport(part[o1..o2], required * steps, FinalData, StepCategory)
    && OverlapReport(part[o2..], raw * steps, RawData, StepCategory)
  }

  // ---------------------------------------------------------------------
  // Reference integrity
  // ---------------------------------------------------------------------

  /** One finding per name of a target's `input_data` that is not known. */
  function UnknownTargetInputs(target: string, inputs: seq<string>, known: set<string>): seq<Finding> {
    if inputs == [] then []
    else
      var x := inputs[|inputs| - 1];
      UnknownTargetInputs(target, inputs[..|inputs| - 1], known) + (if x in known then [] else [UnknownTargetInput(target, x)])
  }

  /** The `input_data` findings over all `required_data` entries. */
  function TargetInputFindings(targets: Dict<string, TargetEntry>, known: set<string>): seq<Finding> {
    if targets == [] then []
    else
      var (name, entry) := targets[|targets| - 1];
      TargetInputFindings(targets[..|targets| - 1], known) + UnknownTargetInputs(name, InputNames(entry.inputData), known)
  }

  /** One finding per name of a step's `input_data` that is not known. */
  function UnknownStepInputs(step: string, inputs: seq<string>, known: set<string>): seq<Finding> {
    if inputs == [] then []
    else
      var x := inputs[|inputs| - 1];
      UnknownStepInputs(step, inputs[..|inputs| - 1], known) + (if x in known then [] else [UnknownStepInput(step, x)])
  }

  /** The findings for one entry of a target's steps: a bare reference must be
      defined as a mapping step somewhere in `procs`; a named mapping step's
      inputs must be known; a mapping without `name` is not checked here. */
  function StepReferenceFindings(procs: Dict<string, ProcessingEntry>, target: string, s: Step, known: set<string>): seq<Finding> {
    match s
    case Reuse(n) => if DefinesStep(procs, n) then [] else [UnknownStep(target, n)]
    case Inline(Some(n), inputData, _) => UnknownStepInputs(n, InputNames(inputData), known)
    case Inline(None, _, _) => []
  }

  function StepsReferenceFindings(procs: Dict<string, ProcessingEntry>, target: string, steps: seq<Step>, known: set<string>): seq<Finding> {
    if steps == [] then []
    else StepsReferenceFindings(procs, target, steps[..|steps| - 1], known) + StepReferenceFindings(procs, target, steps[|steps| - 1], known)
  }

  /** The findings for one `processing` entry: its key must be a final-data name. */
  function EntryReferenceFindings(procs: Dict<string, ProcessingEntry>, target: string, entry: ProcessingEntry, known: set<string>, required: set<string>): seq<Finding> {
    (if target in required then [] else [UnknownProcessingTarget(target)])
      + StepsReferenceFindings(procs, target, StepsOf(entry), known)
  }

  /** The findings for the `processing` entries `entries`, reuse being looked up in `procs`. */
  function ProcessingReferenceFindings(procs: Dict<string, ProcessingEntry>, entries: Dict<string, ProcessingEntry>, known: set<string>, required: set<string>): seq<Finding> {
    if entries == [] then []
    else
      var (target, entry) := entries[|entries| - 1];
      ProcessingReferenceFindings(procs, entries[..|entries| - 1], known, required)
        + EntryReferenceFindings(procs, target, entry, known, required)
  }

  /** Everything the reference check appends, given the collected names. */
  function ReferenceFindings(doc: Document, known: set<string>, required: set<string>): seq<Finding> {
    TargetInputFindings(Targets(doc), known)
      + ProcessingReferenceFindings(Processing(doc), Processing(doc), known, required)
  }

  /** Every occurrence of an unknown name in a target's `input_data` yields
      exactly one finding, and a known name none. */
  lemma {:induction false} UnknownTargetInputsCount(target: string, inputs: seq<string>, known: set<string>, x: string)
    ensures multiset(UnknownTargetInputs(target, inputs, known))[UnknownTargetInput(target, x)]
      == if x in known then 0 else multiset(inputs)[x]
  {
    if inputs != [] {
      var inputs' := inputs[..|inputs| - 1];
      var y := inputs[|inputs| - 1];
      UnknownTargetInputsCount(target, inputs', known, x);
      assert inputs == inputs' + [y];
      assert multiset(inputs)[x] == multiset(inputs')[x] + multiset([y])[x];
      var added := if y in known then [] else [UnknownTargetInput(target, y)];
      assert UnknownTargetInputs(target, inputs, known) == UnknownTargetInputs(target, inputs', known) + added;
      assert multiset(UnknownTargetInputs(target, inputs, known))[UnknownTargetInput(target, x)]
        == multiset(UnknownTargetInputs(target, inputs', known))[UnknownTargetInput(target, x)] + multiset(added)[UnknownTargetInput(target, x)];
    }
  }

  /** Those findings all concern the target itself. */
  lemma {:induction false} UnknownTargetInputsKind(target: string, inputs: seq<string>, known: set<string>)
    ensures forall f :: f in UnknownTargetInputs(target, inputs, known) ==> f.UnknownTargetInput? && f.target == target
  {
    if inputs != [] {
      UnknownTargetInputsKind(target, inputs[..|inputs| - 1], known);
    }
  }

  /** Every occurrence of an unknown name in a step's `input_data` yields
      exactly one finding, and a known name none. */
  lemma {:induction false} UnknownStepInputsCount(step: string, inputs: seq<string>, known: set<string>, x: string)
    ensures multiset(UnknownStepInputs(step, inputs, known))[UnknownStepInput(step, x)]
      == if x in known then 0 else multiset(inputs)[x]
  {
    if inputs != [] {
      var inputs' := inputs[..|inputs| - 1];
      var y := inputs[|inputs| - 1];
      UnknownStepInputsCount(step, inputs', known, x);
      assert inputs == inputs' + [y];
      assert multiset(inputs)[x] == multiset(inputs')[x] + multiset([y])[x];
      var added := if y in known then [] else [UnknownStepInput(step, y)];
      assert UnknownStepInputs(step, inputs, known) == UnknownStepInputs(step, inputs', known) + added;
      assert multiset(UnknownStepInputs(step, inputs, known))[UnknownStepInput(step, x)]
        == multiset(UnknownStepInputs(step, inputs', known))[UnknownStepInput(step, x)] + multiset(added)[UnknownStepInput(step, x)];
    }
  }

  /** Those findings all concern the step itself. */
  lemma {:induction false} UnknownStepInputsKind(step: string, inputs: seq<string>, known: set<string>)
    ensures forall f :: f in UnknownStepInputs(step, inputs, known) ==> f.UnknownStepInput? && f.step == step
  {
    if inputs != [] {
      UnknownStepInputsKind(step, inputs[..|inputs| - 1], known);
    }
  }

  /** A `required_data` entry is reported for input `x` iff `x` occurs in its
      `input_data` (a single string counting as a one-element list) and is
      not a known name. */
  lemma TargetInputFindingsMember(targets: Dict<string, TargetEntry>, known: set<string>, t: string, x: string)
    ensures UnknownTargetInput(t, x) in TargetInputFindings(targets, known) <==>
      x !in known && exists i :: 0 <= i < |targets| && targets[i].0 == t && x in InputNames(targets[i].1.inputData)
  {
    if UnknownTargetInput(t, x) in TargetInputFindings(targets, known) {
      var i := TargetInputFound(targets, known, t, x);
    }
    if x !in known && exists i :: 0 <= i < |targets| && targets[i].0 == t && x in InputNames(targets[i].1.inputData) {
      var i :| 0 <= i < |targets| && targets[i].0 == t && x in InputNames(targets[i].1.inputData);
      TargetInputReported(targets, known, i, x);
    }
  }

  /** A reported input has an entry that lists it. */
  lemma {:induction false} TargetInputFound(targets: Dict<string, TargetEntry>, known: set<string>, t: string, x: string) returns (i: int)
    requires UnknownTargetInput(t, x) in TargetInputFindings(targets, known)
    ensures x !in known && 0 <= i < |targets| && targets[i].0 == t && x in InputNames(targets[i].1.inputData)
  {
    var last := |targets| - 1;
    var targets' := targets[..last];
    UnknownTargetInputsMember(targets[last].0, InputNames(targets[last].1.inputData), known, t, x);
    if UnknownTargetInput(t, x) in TargetInputFindings(targets', known) {
      i := TargetInputFound(targets', known, t, x);
      assert targets[i] == targets'[i];
    } else {
      i := last;
    }
  }

  /** An unknown input an entry lists is reported. */
  lemma {:induction false} TargetInputReported(targets: Dict<string, TargetEntry>, known: set<string>, i: int, x: string)
    requires 0 <= i < |targets| && x !in known && x in InputNames(targets[i].1.inputData)
    ensures UnknownTargetInput(targets[i].0, x) in TargetInputFindings(targets, known)
  {
    var last := |targets| - 1;
    var targets' := targets[..last];
    if i < last {
      assert targets'[i] == targets[i];
      TargetInputReported(targets', known, i, x);
    } else {
      UnknownTargetInputsMember(targets[last].0, InputNames(targets[last].1.inputData), known, targets[i].0, x);
    }
  }

  /** One target's findings name an input iff it is that target's unknown input. */
  lemma UnknownTargetInputsMember(target: string, inputs: seq<string>, known: set<string>, t: string, x: string)
    ensures UnknownTargetInput(t, x) in UnknownTargetInputs(target, inputs, known) <==> t == target && x !in known && x in inputs
  {
    UnknownTargetInputsCount(target, inputs, known, x);
    UnknownTargetInputsKind(target, inputs, known);
    if UnknownTargetInput(t, x) in UnknownTargetInputs(target, inputs, known) {
      assert t == target;
      assert multiset(UnknownTargetInputs(target, inputs, known))[UnknownTargetInput(t, x)] > 0;
    }
    if t == target && x !in known && x in inputs {
      assert multiset(inputs)[x] > 0;
    }
  }

  /** A bare reference is reported iff no target's steps define it. */
  lemma {:induction false} StepsReferenceUnknownStep(procs: Dict<string, ProcessingEntry>, target: string, steps: seq<Step>, known: set<string>, t: string, n: string)
    ensures UnknownStep(t, n) in StepsReferenceFindings(procs, target, steps, known) <==>
      t == target && !DefinesStep(procs, n) && Reuse(n) in steps
  {
    if steps != [] {
      var steps' := steps[..|steps| - 1];
      StepsReferenceUnknownStep(procs, target, steps', known, t, n);
      assert steps == steps' + [steps[|steps| - 1]];
      var s := steps[|steps| - 1];
      if s.Inline? && s.name.Some? {
        UnknownStepInputsKind(s.name.value, InputNames(s.inputData), known);
      }
    }
  }

  /** One finding per bare occurrence: an undefined bare name is reported as
      often as the target's steps hold it, a defined one never. */
  lemma {:induction false} StepsUnknownStepCount(procs: Dict<string, ProcessingEntry>, target: string, steps: seq<Step>, known: set<string>, n: string)
    ensures multiset(StepsReferenceFindings(procs, target, steps, known))[UnknownStep(target, n)]
            == if DefinesStep(procs, n) then 0 else multiset(steps)[Reuse(n)]
  {
    if steps != [] {
      var steps' := steps[..|steps| - 1];
      var s := steps[|steps| - 1];
      StepsUnknownStepCount(procs, target, steps', known, n);
      MultisetLast(steps);
      var here := StepReferenceFindings(procs, target, s, known);
      assert multiset(StepsReferenceFindings(procs, target, steps, known))
             == multiset(StepsReferenceFindings(procs, target, steps', known)) + multiset(here);
      if s.Inline? && s.name.Some? {
        UnknownStepInputsKind(s.name.value, InputNames(s.inputData), known);
        assert UnknownStep(target, n) !in here;
      }
    }
  }

  /** How many times the steps of the `processing` entries keyed `t` hold
      the bare name `n`. */
  function ReuseListings(entries: Dict<string, ProcessingEntry>, t: string, n: string): nat {
    if entries == [] then 0
    else
      var (target, entry) := entries[|entries| - 1];
      ReuseListings(entries[..|entries| - 1], t, n) + (if target == t then multiset(StepsOf(entry))[Reuse(n)] else 0)
  }

  /** Over all `processing` entries: an undefined bare name is reported
      under target `t` once per occurrence in the steps of `t`. */
  lemma {:induction false} ProcessingUnknownStepCount(procs: Dict<string, ProcessingEntry>, entries: Dict<string, ProcessingEntry>, known: set<string>, required: set<string>, t: string, n: string)
    ensures multiset(ProcessingReferenceFindings(procs, entries, known, required))[UnknownStep(t, n)]
            == if DefinesStep(procs, n) then 0 else ReuseListings(entries, t, n)
  {
    if entries != [] {
      var last := |entries| - 1;
      var entries' := entries[..last];
      var (target, entry) := entries[last];
      ProcessingUnknownStepCount(procs, entries', known, required, t, n);
      var head: seq<Finding> := if target in required then [] else [UnknownProcessingTarget(target)];
      var steps := StepsReferenceFindings(procs, target, StepsOf(entry), known);
      assert multiset(ProcessingReferenceFindings(procs, entries, known, required))
             == multiset(ProcessingReferenceFindings(procs, entries', known, required)) + multiset(head) + multiset(steps);
      assert multiset(head)[UnknownStep(t, n)] == 0;
      if target == t {
        StepsUnknownStepCount(procs, target, StepsOf(entry), known, n);
      } else {
        StepsReferenceUnknownStep(procs, target, StepsOf(entry), known, t, n);
        assert multiset(steps)[UnknownStep(t, n)] == 0;
      }
    }
  }

  /** Processing-level view: `UnknownStep(t, n)` is reported iff target `t`'s
      steps hold the bare reference `n` and no target's steps hold a mapping
      step named `n`. */
  lemma UnknownStepMember(procs: Dict<string, ProcessingEntry>, entries: Dict<string, ProcessingEntry>, known: set<string>, required: set<string>, t: string, n: string)
    ensures UnknownStep(t, n) in ProcessingReferenceFindings(procs, entries, known, required) <==>
      !DefinesStep(procs, n) && exists i :: 0 <= i < |entries| && entries[i].0 == t && Reuse(n) in StepsOf(entries[i].1)
  {
    if UnknownStep(t, n) in ProcessingReferenceFindings(procs, entries, known, required) {
      var i := UnknownStepFound(procs, entries, known, required, t, n);
    }
    if !DefinesStep(procs, n) && exists i :: 0 <= i < |entries| && entries[i].0 == t && Reuse(n) in StepsOf(entries[i].1) {
      var i :| 0 <= i < |entries| && entries[i].0 == t && Reuse(n) in StepsOf(entries[i].1);
      UnknownStepReported(procs, entries, known, required, i, n);
    }
  }

  /** A reported bare reference sits in the steps of the named target. */
  lemma {:induction false} UnknownStepFound(procs: Dict<string, ProcessingEntry>, entries: Dict<string, ProcessingEntry>, known: set<string>, required: set<string>, t: string, n: string)
    returns (i: int)
    requires UnknownStep(t, n) in ProcessingReferenceFindings(procs, entries, known, required)
    ensures !DefinesStep(procs, n) && 0 <= i < |entries| && entries[i].0 == t && Reuse(n) in StepsOf(entries[i].1)
  {
    var last := |entries| - 1;
    var entries' := entries[..last];
    StepsReferenceUnknownStep(procs, entries[last].0, StepsOf(entries[last].1), known, t, n);
    if UnknownStep(t, n) in ProcessingReferenceFindings(procs, entries', known, required) {
      i := UnknownStepFound(procs, entries', known, required, t, n);
      assert entries[i] == entries'[i];
    } else {
      i := last;
    }
  }

  /** An undefined bare reference in a target's steps is reported. */
  lemma {:induction false} UnknownStepReported(procs: Dict<string, ProcessingEntry>, entries: Dict<string, ProcessingEntry>, known: set<string>, required: set<string>, i: int, n: string)
    requires !DefinesStep(procs, n) && 0 <= i < |entries| && Reuse(n) in StepsOf(entries[i].1)
    ensures UnknownStep(entries[i].0, n) in ProcessingReferenceFindings(procs, entries, known, required)
  {
    var last := |entries| - 1;
    var entries' := entries[..last];
    var (target, entry) := entries[last];
    var before := ProcessingReferenceFindings(procs, entries', known, required);
    var here := EntryReferenceFindings(procs, target, entry, known, required);
    assert ProcessingReferenceFindings(procs, entries, known, required) == before + here;
    if i < last {
      assert entries'[i] == entries[i];
      UnknownStepReported(procs, entries', known, required, i, n);
      assert UnknownStep(entries[i].0, n) in before;
    } else {
      StepsReferenceUnknownStep(procs, target, StepsOf(entry), known, target, n);
      assert UnknownStep(target, n) in here;
    }
  }

  /** A `processing` key is reported iff it is not a final-data name. */
  lemma {:induction false} UnknownProcessingTargetMember(procs: Dict<string, ProcessingEntry>, entries: Dict<string, ProcessingEntry>, known: set<string>, required: set<string>, t: string)
    ensures UnknownProcessingTarget(t) in ProcessingReferenceFindings(procs, entries, known, required) <==>
      t !in required && t in Keys(entries)
  {
    if entries != [] {
      var last := |entries| - 1;
      var entries' := entries[..last];
      UnknownProcessingTargetMember(procs, entries', known, required, t);
      var (target, entry) := entries[last];
      StepsReferenceNoProcessingTarget(procs, target, StepsOf(entry), known, t);
      assert Keys(entries) == Keys(entries') + [target];
    }
  }

  /** Step entries never yield a finding about a `processing` key. */
  lemma {:induction false} StepsReferenceNoProcessingTarget(procs: Dict<string, ProcessingEntry>, target: string, steps: seq<Step>, known: set<string>, t: string)
    ensures UnknownProcessingTarget(t) !in StepsReferenceFindings(procs, target, steps, known)
  {
    if steps != [] {
      StepsReferenceNoProcessingTarget(procs, target, steps[..|steps| - 1], known, t);
      var s := steps[|steps| - 1];
      if s.Inline? && s.name.Some? {
        UnknownStepInputsKind(s.name.value, InputNames(s.inputData), known);
      }
    }
  }

  // ---------------------------------------------------------------------
  // Required properties
  // ---------------------------------------------------------------------

  /** One finding per `required_data` entry without `input_data`. */
  function TargetPropertyFindings(targets: Dict<string, TargetEntry>): seq<Finding> {
    if targets == [] then []
    else
      var (name, entry) := targets[|targets| - 1];
      TargetPropertyFindings(targets[..|targets| - 1]) + (if entry.inputData.None? then [TargetWithoutInputData(name)] else [])
  }

  /** A mapping step without `name` yields one finding and nothing else;
      a named one yields one finding per missing `input_data` and
      `output_data`; a bare reference yields none. */
  function StepPropertyFindings(target: string, s: Step): seq<Finding> {
    match s
    case Reuse(_) => []
    case Inline(None, _, _) => [StepWithoutName(target)]
    case Inline(Some(n), inputData, outputData) =>
      (if inputData.None? then [StepWithoutInputData(n)] else [])
        + (if outputData.None? then [StepWithoutOutputData(n)] else [])
  }

  function StepsPropertyFindings(target: string, steps: seq<Step>): seq<Finding> {
    if steps == [] then []
    else StepsPropertyFindings(target, steps[..|steps| - 1]) + StepPropertyFindings(target, steps[|steps| - 1])
  }

  function ProcessingPropertyFindings(procs: Dict<string, ProcessingEntry>): seq<Finding> {
    if procs == [] then []
    else
      var (target, entry) := procs[|procs| - 1];
      ProcessingPropertyFindings(procs[..|procs| - 1]) + StepsPropertyFindings(target, StepsOf(entry))
  }

  /** Everything the required-property check appends. */
  function PropertyFindings(doc: Document): seq<Finding> {
    TargetPropertyFindings(Targets(doc)) + ProcessingPropertyFindings(Processing(doc))
  }

  /** A `required_data` entry is reported iff it lacks `input_data`. */
  lemma {:induction false} TargetPropertyFindingsMember(targets: Dict<string, TargetEntry>, t: string)
    ensures TargetWithoutInputData(t) in TargetPropertyFindings(targets) <==>
      exists i :: 0 <= i < |targets| && targets[i].0 == t && targets[i].1.inputData.None?
    ensures forall f :: f in TargetPropertyFindings(targets) ==> f.TargetWithoutInputData?
  {
    if targets != [] {
      var last := |targets| - 1;
      TargetPropertyFindingsMember(targets[..last], t);
      assert forall i :: 0 <= i < last ==> targets[..last][i] == targets[i];
    }
  }

  /** The number of findings over a target's steps: one per mapping step
      without `name`, and for each named mapping step one per missing
      `input_data` and one per missing `output_data`. */
  function PropertyCount(s: Step): nat {
    match s
    case Reuse(_) => 0
    case Inline(None, _, _) => 1
    case Inline(Some(_), inputData, outputData) =>
      (if inputData.None? then 1 else 0) + (if outputData.None? then 1 else 0)
  }

  function PropertyCounts(steps: seq<Step>): nat {
    if steps == [] then 0 else PropertyCount(steps[0]) + PropertyCounts(steps[1..])
  }

  lemma {:induction false} PropertyCountsAppend(steps: seq<Step>, s: Step)
    ensures PropertyCounts(steps + [s]) == PropertyCounts(steps) + PropertyCount(s)
  {
    if steps == [] {
      assert [s][1..] == [];
    } else {
      assert (steps + [s])[1..] == steps[1..] + [s];
      PropertyCountsAppend(steps[1..], s);
    }
  }

  /** The step-property findings of one target are counted exactly by
      `PropertyCounts`. */
  lemma {:induction false} StepsPropertyFindingsCount(target: string, steps: seq<Step>)
    ensures |StepsPropertyFindings(target, steps)| == PropertyCounts(steps)
  {
    if steps != [] {
      var steps' := steps[..|steps| - 1];
      var s := steps[|steps| - 1];
      StepsPropertyFindingsCount(target, steps');
      assert steps == steps' + [s];
      PropertyCountsAppend(steps', s);
    }
  }

  /** A mapping step without `name` is reported under its target. */
  lemma StepWithoutNameMember(target: string, steps: seq<Step>, t: string)
    ensures StepWithoutName(t) in StepsPropertyFindings(target, steps) <==>
      t == target && exists j :: 0 <= j < |steps| && steps[j].Inline? && steps[j].name.None?
  {
    if StepWithoutName(t) in StepsPropertyFindings(target, steps) {
      var j := StepWithoutNameFound(target, steps, t);
    }
    if exists j :: 0 <= j < |steps| && steps[j].Inline? && steps[j].name.None? {
      var j :| 0 <= j < |steps| && steps[j].Inline? && steps[j].name.None?;
      StepWithoutNameReported(target, steps, j);
    }
  }

  /** A reported finding has a step that causes it. */
  lemma {:induction false} StepWithoutNameFound(target: string, steps: seq<Step>, t: string) returns (j: int)
    requires StepWithoutName(t) in StepsPropertyFindings(target, steps)
    ensures t == target && 0 <= j < |steps| && steps[j].Inline? && steps[j].name.None?
  {
    var steps' := steps[..|steps| - 1];
    if StepWithoutName(t) in StepsPropertyFindings(target, steps') {
      j := StepWithoutNameFound(target, steps', t);
      assert steps[j] == steps'[j];
    } else {
      j := |steps| - 1;
    }
  }

  /** A step that causes the finding gets it reported. */
  lemma {:induction false} StepWithoutNameReported(target: string, steps: seq<Step>, j: int)
    requires 0 <= j < |steps| && steps[j].Inline? && steps[j].name.None?
    ensures StepWithoutName(target) in StepsPropertyFindings(target, steps)
  {
    var steps' := steps[..|steps| - 1];
    if j < |steps'| {
      assert steps'[j] == steps[j];
      StepWithoutNameReported(target, steps', j);
    }
  }

  /** A missing `input_data` is reported under the step's name, and only for
      named mapping steps. */
  lemma StepWithoutInputDataMember(target: string, steps: seq<Step>, n: string)
    ensures StepWithoutInputData(n) in StepsPropertyFindings(target, steps) <==>
      exists j :: 0 <= j < |steps| && steps[j].Inline? && steps[j].name == Some(n) && steps[j].inputData.None?
  {
    if StepWithoutInputData(n) in StepsPropertyFindings(target, steps) {
      var j := StepWithoutInputDataFound(target, steps, n);
    }
    if exists j :: 0 <= j < |steps| && steps[j].Inline? && steps[j].name == Some(n) && steps[j].inputData.None? {
      var j :| 0 <= j < |steps| && steps[j].Inline? && steps[j].name == Some(n) && steps[j].inputData.None?;
      StepWithoutInputDataReported(target, steps, n, j);
    }
  }

  /** A reported finding has a step that causes it. */
  lemma {:induction false} StepWithoutInputDataFound(target: string, steps: seq<Step>, n: string) returns (j: int)
    requires StepWithoutInputData(n) in StepsPropertyFindings(target, steps)
    ensures 0 <= j < |steps| && steps[j].Inline? && steps[j].name == Some(n) && steps[j].inputData.None?
  {
    var steps' := steps[..|steps| - 1];
    if StepWithoutInputData(n) in StepsPropertyFindings(target, steps') {
      j := StepWithoutInputDataFound(target, steps', n);
      assert steps[j] == steps'[j];
    } else {
      j := |steps| - 1;
    }
  }

  /** A step that causes the finding gets it reported. */
  lemma {:induction false} StepWithoutInputDataReported(target: string, steps: seq<Step>, n: string, j: int)
    requires 0 <= j < |steps| && steps[j].Inline? && steps[j].name == Some(n) && steps[j].inputData.None?
    ensures StepWithoutInputData(n) in StepsPropertyFindings(target, steps)
  {
    var steps' := steps[..|steps| - 1];
    if j < |steps'| {
      assert steps'[j] == steps[j];
      StepWithoutInputDataReported(target, steps', n, j);
    }
  }

  /** A missing `output_data` is reported under the step's name, and only for
      named mapping steps. */
  lemma StepWithoutOutputDataMember(target: string, steps: seq<Step>, n: string)
    ensures StepWithoutOutputData(n) in StepsPropertyFindings(target, steps) <==>
      exists j :: 0 <= j < |steps| && steps[j].Inline? && steps[j].name == Some(n) && steps[j].outputData.None?
  {
    if StepWithoutOutputData(n) in StepsPropertyFindings(target, steps) {
      var j := StepWithoutOutputDataFound(target, steps, n);
    }
    if exists j :: 0 <= j < |steps| && steps[j].Inline? && steps[j].name == Some(n) && steps[j].outputData.None? {
      var j :| 0 <= j < |steps| && steps[j].Inline? && steps[j].name == Some(n) && steps[j].outputData.None?;
      StepWithoutOutputDataReported(target, steps, n, j);
    }
  }

  /** A reported finding has a step that causes it. */
  lemma {:induction false} StepWithoutOutputDataFound(target: string, steps: seq<Step>, n: string) returns (j: int)
    requires StepWithoutOutputData(n) in StepsPropertyFindings(target, steps)
    ensures 0 <= j < |steps| && steps[j].Inline? && steps[j].name == Some(n) && steps[j].outputData.None?
  {
    var steps' := steps[..|steps| - 1];
    if StepWithoutOutputData(n) in StepsPropertyFindings(target, steps') {
      j := StepWithoutOutputDataFound(target, steps', n);
      assert steps[j] == steps'[j];
    } else {
      j := |steps| - 1;
    }
  }

  /** A step that causes the finding gets it reported. */
  lemma {:induction false} StepWithoutOutputDataReported(target: string, steps: seq<Step>, n: string, j: int)
    requires 0 <= j < |steps| && steps[j].Inline? && steps[j].name == Some(n) && steps[j].outputData.None?
    ensures StepWithoutOutputData(n) in StepsPropertyFindings(target, steps)
  {
    var steps' := steps[..|steps| - 1];
    if j < |steps'| {
      assert steps'[j] == steps[j];
      StepWithoutOutputDataReported(target, steps', n, j);
    }
  }

  // ---------------------------------------------------------------------
  // One more entry: what a check appends for the next entry of a list
  // follows what it appended for the entries before it
  // ---------------------------------------------------------------------

  lemma TargetInputFindingsNext(base: seq<Finding>, targets: Dict<string, TargetEntry>, i: int, known: set<string>)
    requires 0 <= i < |targets|
    ensures base + TargetInputFindings(targets[..i + 1], known)
            == base + TargetInputFindings(targets[..i], known) + UnknownTargetInputs(targets[i].0, InputNames(targets[i].1.inputData), known)
  {
    assert targets[..i + 1][..i] == targets[..i];
    AppendAssociative(base, TargetInputFindings(targets[..i], known), UnknownTargetInputs(targets[i].0, InputNames(targets[i].1.inputData), known));
  }

  lemma ProcessingReferenceFindingsNext(base: seq<Finding>, procs: Dict<string, ProcessingEntry>, i: int, known: set<string>, required: set<string>)
    requires 0 <= i < |procs|
    ensures base + ProcessingReferenceFindings(procs, procs[..i + 1], known, required)
            == base + ProcessingReferenceFindings(procs, procs[..i], known, required) + EntryReferenceFindings(procs, procs[i].0, procs[i].1, known, required)
  {
    assert procs[..i + 1][..i] == procs[..i];
    AppendAssociative(base, ProcessingReferenceFindings(procs, procs[..i], known, required), EntryReferenceFindings(procs, procs[i].0, procs[i].1, known, required));
  }

  lemma StepsReferenceFindingsNext(base: seq<Finding>, procs: Dict<string, ProcessingEntry>, target: string, steps: seq<Step>, j: int, known: set<string>)
    requires 0 <= j < |steps|
    ensures base + StepsReferenceFindings(procs, target, steps[..j + 1], known)
            == base + StepsReferenceFindings(procs, target, steps[..j], known) + StepReferenceFindings(procs, target, steps[j], known)
  {
    assert steps[..j + 1][..j] == steps[..j];
    AppendAssociative(base, StepsReferenceFindings(procs, target, steps[..j], known), StepReferenceFindings(procs, target, steps[j], known));
  }

  lemma ProcessingPropertyFindingsNext(base: seq<Finding>, procs: Dict<string, ProcessingEntry>, i: int)
    requires 0 <= i < |procs|
    ensures base + ProcessingPropertyFindings(procs[..i + 1])
            == base + ProcessingPropertyFindings(procs[..i]) + StepsPropertyFindings(procs[i].0, StepsOf(procs[i].1))
  {
    assert procs[..i + 1][..i] == procs[..i];
    AppendAssociative(base, ProcessingPropertyFindings(procs[..i]), StepsPropertyFindings(procs[i].0, StepsOf(procs[i].1)));
  }

  lemma StepsPropertyFindingsNext(base: seq<Finding>, target: string, steps: seq<Step>, j: int)
    requires 0 <= j < |steps|
    ensures base + StepsPropertyFindings(target, steps[..j + 1])
            == base + StepsPropertyFindings(target, steps[..j]) + StepPropertyFindings(target, steps[j])
  {
    assert steps[..j + 1][..j] == steps[..j];
    AppendAssociative(base, StepsPropertyFindings(target, steps[..j]), StepPropertyFindings(target, steps[j]));
  }
}
