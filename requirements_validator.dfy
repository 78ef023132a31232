/** The data-requirements validator: an object that loads a document,
    collects its names into sets and appends findings to its `errors` list,
    check after check. Each method is proved to append exactly the findings
    module RequirementsFindings describes. */
module RequirementsValidator {
  import opened Common
  import opened OrderedDict
  import opened RequirementsDoc
  import opened RequirementsFindings

  /** The search a bare step reference triggers: over every target's steps,
      look for a mapping step with that `name`. The inner loop stops at the
      first match; the outer loop goes on, which changes nothing once found. */
  method FindStepDefinition(procs: Dict<string, ProcessingEntry>, stepName: string) returns (found: bool)
    ensures found <==> DefinesStep(procs, stepName)
  {
    found := false;
    var i := 0;
    while i < |procs|
      invariant 0 <= i <= |procs|
      invariant found <==> exists i', j :: 0 <= i' < i && 0 <= j < |StepsOf(procs[i'].1)| && Defines(StepsOf(procs[i'].1)[j], stepName)
    {
      var steps := StepsOf(procs[i].1);
      var j := 0;
      while j < |steps|
        invariant 0 <= j <= |steps|
        invariant found <==>
          (exists i', j' :: 0 <= i' < i && 0 <= j' < |StepsOf(procs[i'].1)| && Defines(StepsOf(procs[i'].1)[j'], stepName))
          || (exists j' :: 0 <= j' < j && Defines(steps[j'], stepName))
      {
        if Defines(steps[j], stepName) {
          found := true;
          break;
        }
        j := j + 1;
      }
      i := i + 1;
    }
  }

  /** Three overlap reports in turn make up a duplicate report. */
  lemma DuplicateReportOfParts(p1: seq<Finding>, p2: seq<Finding>, p3: seq<Finding>,
                               required: set<string>, raw: set<string>, steps: set<string>)
    requires OverlapReport(p1, required * raw, FinalData, RawData)
    requires OverlapReport(p2, required * steps, FinalData, StepCategory)
    requires OverlapReport(p3, raw * steps, RawData, StepCategory)
    ensures DuplicateReport(p1 + p2 + p3, required, raw, steps)
  {
    var part := p1 + p2 + p3;
    assert part[..|p1|] == p1;
    assert part[|p1|..|p1| + |p2|] == p2;
    assert part[|p1| + |p2|..] == p3;
    DuplicateReportOfSlices(part, required, raw, steps);
  }

  /** The slice form of the same fact, kept apart from any concatenation. */
  lemma DuplicateReportOfSlices(part: seq<Finding>, required: set<string>, raw: set<string>, steps: set<string>)
    requires |required * raw| + |required * steps| <= |part|
    requires OverlapReport(part[..|required * raw|], required * raw, FinalData, RawData)
    requires OverlapReport(part[|required * raw|..|required * raw| + |required * steps|], required * steps, FinalData, StepCategory)
    requires OverlapReport(part[|required * raw| + |required * steps|..], raw * steps, RawData, StepCategory)
    ensures DuplicateReport(part, required, raw, steps)
  {
  }

  class YamlValidator {
    var yamlPath: string
    var yamlData: Option<Document>
    var errors: seq<Finding>
    /** Never appended to by any check. */
    var warnings: seq<Finding>
    var allDataNames: set<string>
    var rawDataNames: set<string>
    var requiredDataNames: set<string>
    var stepNames: set<string>
    var outputDataNames: set<string>

    constructor (path: string)
      ensures yamlPath == path && yamlData == None
      ensures errors == [] && warnings == []
      ensures allDataNames == {} && rawDataNames == {} && requiredDataNames == {}
      ensures stepNames == {} && outputDataNames == {}
    {
      yamlPath := path;
      yamlData := None;
      errors := [];
      warnings := [];
      allDataNames := {};
      rawDataNames := {};
      requiredDataNames := {};
      stepNames := {};
      outputDataNames := {};
    }

    /** Loading the file. Reading and decoding it are outside the model: their
        outcome is the parameter, either the decoded document or the text of
        the exception raised. */
    method LoadYaml(decoded: Result<Document, string>) returns (ok: bool)
      modifies this`yamlData, this`errors
      ensures ok == decoded.Success?
      ensures ok ==> yamlData == Some(decoded.value) && errors == old(errors)
      ensures !ok ==> yamlData == old(yamlData) && errors == old(errors) + [LoadError(decoded.error)]
    {
      match decoded
      case Success(doc) =>
        yamlData := Some(doc);
        ok := true;
      case Failure(reason) =>
        errors := errors + [LoadError(reason)];
        ok := false;
    }

    /** Runs every check in turn and succeeds iff no finding was appended
        at all (including findings present before the call). A failed load or
        a missing section appends one finding and stops; otherwise
        `duplicates` is what the duplicate-name check appended. */
    method Validate(decoded: Result<Document, string>) returns (ok: bool, ghost duplicates: seq<Finding>)
      modifies this`yamlData, this`errors, this`allDataNames, this`rawDataNames,
               this`requiredDataNames, this`stepNames, this`outputDataNames
      ensures ok <==> errors == []
      ensures decoded.Failure? ==>
        && errors == old(errors) + [LoadError(decoded.error)]
        && yamlData == old(yamlData)
        && NamesUnchanged(old(allDataNames), old(rawDataNames), old(requiredDataNames), old(stepNames), old(outputDataNames))
      ensures decoded.Success? && FirstMissingSection(decoded.value).Some? ==>
        && errors == old(errors) + [MissingSection(FirstMissingSection(decoded.value).value)]
        && yamlData == Some(decoded.value)
        && NamesUnchanged(old(allDataNames), old(rawDataNames), old(requiredDataNames), old(stepNames), old(outputDataNames))
      ensures decoded.Success? && FirstMissingSection(decoded.value).None? ==>
        && yamlData == Some(decoded.value)
        && CollectedFrom(decoded.value, old(allDataNames), old(rawDataNames), old(requiredDataNames), old(stepNames), old(outputDataNames))
        && DuplicateReport(duplicates, requiredDataNames, rawDataNames, stepNames)
        && errors == old(errors) + duplicates + ReferenceFindings(decoded.value, allDataNames, requiredDataNames) + PropertyFindings(decoded.value)
    {
      duplicates := [];
      ok := LoadYaml(decoded);
      if ok {
        ok := CheckRequiredSections();
        if ok {
          duplicates := RunChecks();
          ok := |errors| == 0;
        }
      }
    }

    /** The checks after the sections are found: collect, then the
        duplicate, reference and property checks in that order. */
    method RunChecks() returns (ghost duplicates: seq<Finding>)
      requires yamlData.Some?
      modifies this`errors, this`allDataNames, this`rawDataNames,
               this`requiredDataNames, this`stepNames, this`outputDataNames
      ensures CollectedFrom(yamlData.value, old(allDataNames), old(rawDataNames), old(requiredDataNames), old(stepNames), old(outputDataNames))
      ensures DuplicateReport(duplicates, requiredDataNames, rawDataNames, stepNames)
      ensures errors == old(errors) + duplicates + ReferenceFindings(yamlData.value, allDataNames, requiredDataNames) + PropertyFindings(yamlData.value)
    {
      CollectDataNames();
      duplicates := CheckDuplicateNames();
      CheckReferenceIntegrity();
      CheckRequiredProperties();
    }

    /** The name sets are those given plus the names collected from `doc`. */
    ghost predicate CollectedFrom(doc: Document, all: set<string>, raw: set<string>, required: set<string>, steps: set<string>, outputs: set<string>)
      reads this
    {
      && requiredDataNames == required + KeySet(Targets(doc))
      && rawDataNames == raw + Elements(RawNames(doc))
      && stepNames == steps + ProcessingStepNames(Processing(doc))
      && outputDataNames == outputs + ProcessingOutputNames(Processing(doc))
      && allDataNames == all + KeySet(Targets(doc)) + Elements(RawNames(doc))
           + ProcessingStepNames(Processing(doc)) + ProcessingOutputNames(Processing(doc))
    }

    /** The name sets are those given. */
    ghost predicate NamesUnchanged(all: set<string>, raw: set<string>, required: set<string>, steps: set<string>, outputs: set<string>)
      reads this
    {
      allDataNames == all && rawDataNames == raw && requiredDataNames == required
        && stepNames == steps && outputDataNames == outputs
    }

    /** Checks the sections in order and stops at the first missing one,
        after reporting it. */
    method CheckRequiredSections() returns (ok: bool)
      requires yamlData.Some?
      modifies this`errors
      ensures ok <==> FirstMissingSection(yamlData.value).None?
      ensures ok ==> errors == old(errors)
      ensures !ok ==> errors == old(errors) + [MissingSection(FirstMissingSection(yamlData.value).value)]
    {
      var doc := yamlData.value;
      var i := 0;
      while i < |RequiredSections|
        invariant 0 <= i <= |RequiredSections|
        invariant FirstMissing(doc, RequiredSections[i..]) == FirstMissingSection(doc)
        invariant errors == old(errors)
      {
        var section := RequiredSections[i];
        assert RequiredSections[i..][1..] == RequiredSections[i + 1..];
        if !HasSection(doc, section) {
          errors := errors + [MissingSection(section)];
          return false;
        }
        i := i + 1;
      }
      return true;
    }

    /** Adds the final-data, raw-data, step and output names to their sets,
        and every one of them to `allDataNames`. */
    method CollectDataNames()
      requires yamlData.Some?
      modifies this`requiredDataNames, this`allDataNames, this`rawDataNames, this`stepNames, this`outputDataNames
      ensures requiredDataNames == old(requiredDataNames) + KeySet(Targets(yamlData.value))
      ensures rawDataNames == old(rawDataNames) + Elements(RawNames(yamlData.value))
      ensures stepNames == old(stepNames) + ProcessingStepNames(Processing(yamlData.value))
      ensures outputDataNames == old(outputDataNames) + ProcessingOutputNames(Processing(yamlData.value))
      ensures allDataNames == old(allDataNames) + KeySet(Targets(yamlData.value)) + Elements(RawNames(yamlData.value))
        + ProcessingStepNames(Processing(yamlData.value)) + ProcessingOutputNames(Processing(yamlData.value))
    {
      CollectTargetNames(Targets(yamlData.value));
      CollectRawNames(RawNames(yamlData.value));
      CollectProcessingNames(Processing(yamlData.value));
    }

    /** The `required_data` keys. */
    method CollectTargetNames(targets: Dict<string, TargetEntry>)
      modifies this`requiredDataNames, this`allDataNames
      ensures requiredDataNames == old(requiredDataNames) + KeySet(targets)
      ensures allDataNames == old(allDataNames) + KeySet(targets)
    {
      var i := 0;
      while i < |targets|
        invariant 0 <= i <= |targets|
        invariant requiredDataNames == old(requiredDataNames) + KeySet(targets[..i])
        invariant allDataNames == old(allDataNames) + KeySet(targets[..i])
      {
        assert targets[..i + 1][..i] == targets[..i];
        assert KeySet(targets[..i + 1]) == KeySet(targets[..i]) + {targets[i].0};
        requiredDataNames := requiredDataNames + {targets[i].0};
        allDataNames := allDataNames + {targets[i].0};
        i := i + 1;
      }
      assert targets[..i] == targets;
    }

    /** The `raw_data` keys. */
    method CollectRawNames(raws: seq<string>)
      modifies this`rawDataNames, this`allDataNames
      ensures rawDataNames == old(rawDataNames) + Elements(raws)
      ensures allDataNames == old(allDataNames) + Elements(raws)
    {
      var i := 0;
      while i < |raws|
        invariant 0 <= i <= |raws|
        invariant rawDataNames == old(rawDataNames) + Elements(raws[..i])
        invariant allDataNames == old(allDataNames) + Elements(raws[..i])
      {
        assert raws[..i + 1][..i] == raws[..i];
        rawDataNames := rawDataNames + {raws[i]};
        allDataNames := allDataNames + {raws[i]};
        i := i + 1;
      }
      assert raws[..i] == raws;
    }

    /** The step and output names under every `processing` entry. */
    method CollectProcessingNames(procs: Dict<string, ProcessingEntry>)
      modifies this`stepNames, this`allDataNames, this`outputDataNames
      ensures stepNames == old(stepNames) + ProcessingStepNames(procs)
      ensures outputDataNames == old(outputDataNames) + ProcessingOutputNames(procs)
      ensures allDataNames == old(allDataNames) + ProcessingStepNames(procs) + ProcessingOutputNames(procs)
    {
      var i := 0;
      while i < |procs|
        invariant 0 <= i <= |procs|
        invariant stepNames == old(stepNames) + ProcessingStepNames(procs[..i])
        invariant outputDataNames == old(outputDataNames) + ProcessingOutputNames(procs[..i])
        invariant allDataNames == old(allDataNames) + ProcessingStepNames(procs[..i]) + ProcessingOutputNames(procs[..i])
      {
        assert procs[..i + 1][..i] == procs[..i];
        CollectStepNames(StepsOf(procs[i].1));
        i := i + 1;
      }
      assert procs[..i] == procs;
    }

    /** The step-name collection for one target's steps. */
    method CollectStepNames(steps: seq<Step>)
      modifies this`stepNames, this`allDataNames, this`outputDataNames
      ensures stepNames == old(stepNames) + StepNames(steps)
      ensures outputDataNames == old(outputDataNames) + OutputNames(steps)
      ensures allDataNames == old(allDataNames) + StepNames(steps) + OutputNames(steps)
    {
      var j := 0;
      while j < |steps|
        invariant 0 <= j <= |steps|
        invariant stepNames == old(stepNames) + StepNames(steps[..j])
        invariant outputDataNames == old(outputDataNames) + OutputNames(steps[..j])
        invariant allDataNames == old(allDataNames) + StepNames(steps[..j]) + OutputNames(steps[..j])
      {
        assert steps[..j + 1][..j] == steps[..j];
        assert StepNames(steps[..j + 1]) == StepNames(steps[..j]) + StepNameOf(steps[j]);
        assert OutputNames(steps[..j + 1]) == OutputNames(steps[..j]) + OutputNamesOf(steps[j]);
        CollectStep(steps[j]);
        j := j + 1;
      }
      assert steps[..j] == steps;
    }

    /** The name of one step and, for a named inline step, its outputs. */
    method CollectStep(step: Step)
      modifies this`stepNames, this`allDataNames, this`outputDataNames
      ensures stepNames == old(stepNames) + StepNameOf(step)
      ensures outputDataNames == old(outputDataNames) + OutputNamesOf(step)
      ensures allDataNames == old(allDataNames) + StepNameOf(step) + OutputNamesOf(step)
    {
      match step {
        case Reuse(name) =>
          stepNames := stepNames + {name};
          allDataNames := allDataNames + {name};
        case Inline(Some(name), _, outputData) =>
          stepNames := stepNames + {name};
          allDataNames := allDataNames + {name};
          CollectOutputNames(outputData.GetOr([]));
        case Inline(None, _, _) =>
      }
    }

    /** The keys of one step's `output_data`. */
    method CollectOutputNames(outputs: seq<string>)
      modifies this`outputDataNames, this`allDataNames
      ensures outputDataNames == old(outputDataNames) + Elements(outputs)
      ensures allDataNames == old(allDataNames) + Elements(outputs)
    {
      var k := 0;
      while k < |outputs|
        invariant 0 <= k <= |outputs|
        invariant outputDataNames == old(outputDataNames) + Elements(outputs[..k])
        invariant allDataNames == old(allDataNames) + Elements(outputs[..k])
      {
        assert outputs[..k + 1][..k] == outputs[..k];
        outputDataNames := outputDataNames + {outputs[k]};
        allDataNames := allDataNames + {outputs[k]};
        k := k + 1;
      }
      assert outputs[..k] == outputs;
    }

    /** Runs the in-category duplicate checks, which report nothing, and then
        the three cross-category overlap checks; `part` is what they appended. */
    method CheckDuplicateNames() returns (ghost part: seq<Finding>)
      modifies this`errors
      ensures errors == old(errors) + part
      ensures DuplicateReport(part, requiredDataNames, rawDataNames, stepNames)
    {
      CheckDuplicatesInSet(requiredDataNames, FinalData);
      CheckDuplicatesInSet(rawDataNames, RawData);
      CheckDuplicatesInSet(stepNames, StepCategory);
      ghost var e0 := errors;
      var p1 := CheckOverlap(requiredDataNames, rawDataNames, FinalData, RawData);
      var p2 := CheckOverlap(requiredDataNames, stepNames, FinalData, StepCategory);
      var p3 := CheckOverlap(rawDataNames, stepNames, RawData, StepCategory);
      part := p1 + p2 + p3;
      assert errors == e0 + part by {
        assert e0 + p1 + p2 + p3 == e0 + (p1 + p2 + p3);
      }
      DuplicateReportOfParts(p1, p2, p3, requiredDataNames, rawDataNames, stepNames);
    }

    /** Looks for a repeated name while walking a set: since a set holds each
        name once, nothing is ever reported. The findings of the walk are
        gathered in `repeated` and appended when it ends. */
    method CheckDuplicatesInSet(nameSet: set<string>, category: Category)
      modifies this`errors
      ensures errors == old(errors)
    {
      var seen: set<string> := {};
      var remaining := nameSet;
      var repeated: seq<Finding> := [];
      while remaining != {}
        invariant seen !! remaining
        invariant repeated == []
        decreases remaining
      {
        var name :| name in remaining;
        if name in seen {
          repeated := repeated + [DuplicateName(category, name)];
        }
        seen := seen + {name};
        remaining := remaining - {name};
      }
      errors := errors + repeated;
    }

    /** Reports each name common to both sets once, in the set's iteration
        order (which the model leaves open); `part` is what it appended. */
    method CheckOverlap(set1: set<string>, set2: set<string>, cat1: Category, cat2: Category) returns (ghost part: seq<Finding>)
      modifies this`errors
      ensures errors == old(errors) + part
      ensures OverlapReport(part, set1 * set2, cat1, cat2)
    {
      var overlap := set1 * set2;
      var done: set<string> := {};
      var remaining := overlap;
      part := [];
      while remaining != {}
        invariant remaining <= overlap && done == overlap - remaining
        invariant errors == old(errors) + part
        invariant OverlapReport(part, done, cat1, cat2)
        decreases remaining
      {
        var name :| name in remaining;
        OverlapReportAdd(part, done, cat1, cat2, name);
        errors := errors + [CategoryOverlap(cat1, cat2, name)];
        part := part + [CategoryOverlap(cat1, cat2, name)];
        done := done + {name};
        remaining := remaining - {name};
      }
    }

    /** Checks every reference against the collected names. */
    method CheckReferenceIntegrity()
      requires yamlData.Some?
      modifies this`errors
      ensures errors == old(errors) + ReferenceFindings(yamlData.value, allDataNames, requiredDataNames)
    {
      CheckTargetReferences(Targets(yamlData.value));
      CheckProcessingReferences(Processing(yamlData.value));
    }

    /** The `input_data` of every final-data entry must name known data. */
    method CheckTargetReferences(targets: Dict<string, TargetEntry>)
      modifies this`errors
      ensures errors == old(errors) + TargetInputFindings(targets, allDataNames)
    {
      var i := 0;
      while i < |targets|
        invariant 0 <= i <= |targets|
        invariant errors == old(errors) + TargetInputFindings(targets[..i], allDataNames)
      {
        TargetInputFindingsNext(old(errors), targets, i, allDataNames);
        CheckInputs(targets[i].0, InputNames(targets[i].1.inputData), false);
        i := i + 1;
      }
      assert targets[..i] == targets;
    }

    /** Every `processing` key must be a final-data name, then its steps are
        checked. */
    method CheckProcessingReferences(procs: Dict<string, ProcessingEntry>)
      modifies this`errors
      ensures errors == old(errors) + ProcessingReferenceFindings(procs, procs, allDataNames, requiredDataNames)
    {
      var i := 0;
      while i < |procs|
        invariant 0 <= i <= |procs|
        invariant errors == old(errors) + ProcessingReferenceFindings(procs, procs[..i], allDataNames, requiredDataNames)
      {
        ProcessingReferenceFindingsNext(old(errors), procs, i, allDataNames, requiredDataNames);
        CheckEntryReferences(procs, procs[i].0, procs[i].1);
        i := i + 1;
      }
      assert procs[..i] == procs;
    }

    /** One `processing` entry: its key must be a final-data name, then its
        steps are checked. */
    method CheckEntryReferences(procs: Dict<string, ProcessingEntry>, dataName: string, processing: ProcessingEntry)
      modifies this`errors
      ensures errors == old(errors) + EntryReferenceFindings(procs, dataName, processing, allDataNames, requiredDataNames)
    {
      if dataName !in requiredDataNames {
        errors := errors + [UnknownProcessingTarget(dataName)];
      }
      CheckStepReferences(procs, dataName, StepsOf(processing));
    }

    /** The reference check of one target's steps; bare references are
        looked up in `procs`. */
    method CheckStepReferences(procs: Dict<string, ProcessingEntry>, dataName: string, steps: seq<Step>)
      modifies this`errors
      ensures errors == old(errors) + StepsReferenceFindings(procs, dataName, steps, allDataNames)
    {
      var j := 0;
      while j < |steps|
        invariant 0 <= j <= |steps|
        invariant errors == old(errors) + StepsReferenceFindings(procs, dataName, steps[..j], allDataNames)
      {
        StepsReferenceFindingsNext(old(errors), procs, dataName, steps, j, allDataNames);
        CheckStepReference(procs, dataName, steps[j]);
        j := j + 1;
      }
      assert steps[..j] == steps;
    }

    /** One step: a bare reference must be defined somewhere, a named
        mapping step's inputs must be known. */
    method CheckStepReference(procs: Dict<string, ProcessingEntry>, dataName: string, step: Step)
      modifies this`errors
      ensures errors == old(errors) + StepReferenceFindings(procs, dataName, step, allDataNames)
    {
      match step {
        case Reuse(stepName) =>
          var stepFound := FindStepDefinition(procs, stepName);
          if !stepFound {
            errors := errors + [UnknownStep(dataName, stepName)];
          }
        case Inline(Some(stepName), inputData, _) =>
          CheckInputs(stepName, InputNames(inputData), true);
        case Inline(None, _, _) =>
      }
    }

    /** Reports each input name that is not a known data name, for a final
        data entry or (when `ofStep` holds) for a step. */
    method CheckInputs(owner: string, inputs: seq<string>, ofStep: bool)
      modifies this`errors
      ensures !ofStep ==> errors == old(errors) + UnknownTargetInputs(owner, inputs, allDataNames)
      ensures ofStep ==> errors == old(errors) + UnknownStepInputs(owner, inputs, allDataNames)
    {
      var k := 0;
      while k < |inputs|
        invariant 0 <= k <= |inputs|
        invariant !ofStep ==> errors == old(errors) + UnknownTargetInputs(owner, inputs[..k], allDataNames)
        invariant ofStep ==> errors == old(errors) + UnknownStepInputs(owner, inputs[..k], allDataNames)
      {
        assert inputs[..k + 1][..k] == inputs[..k];
        if inputs[k] !in allDataNames {
          errors := errors + [if ofStep then UnknownStepInput(owner, inputs[k]) else UnknownTargetInput(owner, inputs[k])];
        }
        k := k + 1;
      }
      assert inputs[..k] == inputs;
    }

    /** Checks that every final-data entry has `input_data` and every mapping
        step has `name`, `input_data` and `output_data`. */
    method CheckRequiredProperties()
      requires yamlData.Some?
      modifies this`errors
      ensures errors == old(errors) + PropertyFindings(yamlData.value)
    {
      CheckTargetProperties(Targets(yamlData.value));
      CheckProcessingProperties(Processing(yamlData.value));
    }

    /** A final-data entry without `input_data` is reported. */
    method CheckTargetProperties(targets: Dict<string, TargetEntry>)
      modifies this`errors
      ensures errors == old(errors) + TargetPropertyFindings(targets)
    {
      var i := 0;
      while i < |targets|
        invariant 0 <= i <= |targets|
        invariant errors == old(errors) + TargetPropertyFindings(targets[..i])
      {
        assert targets[..i + 1][..i] == targets[..i];
        var (name, data) := targets[i];
        if data.inputData.None? {
          errors := errors + [TargetWithoutInputData(name)];
        }
        i := i + 1;
      }
      assert targets[..i] == targets;
    }

    /** The property check of every target's steps. */
    method CheckProcessingProperties(procs: Dict<string, ProcessingEntry>)
      modifies this`errors
      ensures errors == old(errors) + ProcessingPropertyFindings(procs)
    {
      var i := 0;
      while i < |procs|
        invariant 0 <= i <= |procs|
        invariant errors == old(errors) + ProcessingPropertyFindings(procs[..i])
      {
        ProcessingPropertyFindingsNext(old(errors), procs, i);
        CheckStepProperties(procs[i].0, StepsOf(procs[i].1));
        i := i + 1;
      }
      assert procs[..i] == procs;
    }

    /** The property check of one target's steps: a mapping step without
        `name` is reported once and then skipped. */
    method CheckStepProperties(dataName: string, steps: seq<Step>)
      modifies this`errors
      ensures errors == old(errors) + StepsPropertyFindings(dataName, steps)
    {
      var j := 0;
      while j < |steps|
        invariant 0 <= j <= |steps|
        invariant errors == old(errors) + StepsPropertyFindings(dataName, steps[..j])
      {
        StepsPropertyFindingsNext(old(errors), dataName, steps, j);
        CheckStepProperty(dataName, steps[j]);
        j := j + 1;
      }
      assert steps[..j] == steps;
    }

    /** One step: a mapping step without `name` is reported once; otherwise
        a missing `input_data` and a missing `output_data` are reported. */
    method CheckStepProperty(dataName: string, step: Step)
      modifies this`errors
      ensures errors == old(errors) + StepPropertyFindings(dataName, step)
    {
      match step {
        case Reuse(_) =>
        case Inline(None, _, _) =>
          errors := errors + [StepWithoutName(dataName)];
        case Inline(Some(stepName), inputData, outputData) =>
          if inputData.None? {
            errors := errors + [StepWithoutInputData(stepName)];
          }
          if outputData.None? {
            errors := errors + [StepWithoutOutputData(stepName)];
          }
      }
    }
  }
}
