/** How the data-requirements validator and the diagram generator agree on
    one document: generating a target's diagram raises exactly when the
    validator reports a bare step reference under that target that no
    named inline step defines. */
module Consistency {
  import opened Common
  import opened OrderedDict
  import opened RequirementsDoc
  import opened RequirementsFindings
  import opened FlowDiagram

  /** The `input_data` findings are never about steps. */
  lemma {:induction false} TargetInputFindingsNoStep(targets: Dict<string, TargetEntry>, known: set<string>, t: string, n: string)
    ensures UnknownStep(t, n) !in TargetInputFindings(targets, known)
  {
    if targets != [] {
      var (name, entry) := targets[|targets| - 1];
      TargetInputFindingsNoStep(targets[..|targets| - 1], known, t, n);
      UnknownTargetInputsKind(name, InputNames(entry.inputData), known);
    }
  }

  /** An unknown-step finding of the reference check is one about a
      `processing` entry. */
  lemma ReferenceUnknownStep(doc: Document, known: set<string>, required: set<string>, t: string, n: string)
    ensures UnknownStep(t, n) in ReferenceFindings(doc, known, required)
            <==> UnknownStep(t, n) in ProcessingReferenceFindings(Processing(doc), Processing(doc), known, required)
  {
    TargetInputFindingsNoStep(Targets(doc), known, t, n);
  }

  /** For a document whose `processing` keys are distinct, as in any
      decoded mapping: the diagram of `t` cannot be generated iff the
      validator reports an unknown bare step under `t`, whatever names it
      collected. */
  lemma MermaidFailsIffUnknownStep(doc: Document, known: set<string>, required: set<string>, t: string)
    requires IsDict(Processing(doc))
    ensures Mermaid(t, doc).Failure? <==> exists n :: UnknownStep(t, n) in ReferenceFindings(doc, known, required)
  {
    var procs := Processing(doc);
    MermaidFails(t, doc);
    if Mermaid(t, doc).Failure? {
      var p := Get(procs, t).value;
      var i :| 0 <= i < |StepsOf(p)| && StepsOf(p)[i].Reuse? && !DefinesStep(procs, StepsOf(p)[i].reused);
      var n := StepsOf(p)[i].reused;
      var k := IndexOf(procs, t);
      assert Reuse(n) in StepsOf(procs[k].1);
      UnknownStepMember(procs, procs, known, required, t, n);
      ReferenceUnknownStep(doc, known, required, t, n);
    }
    if exists n :: UnknownStep(t, n) in ReferenceFindings(doc, known, required) {
      var n :| UnknownStep(t, n) in ReferenceFindings(doc, known, required);
      ReferenceUnknownStep(doc, known, required, t, n);
      UnknownStepMember(procs, procs, known, required, t, n);
      var k :| 0 <= k < |procs| && procs[k].0 == t && Reuse(n) in StepsOf(procs[k].1);
      GetAt(procs, k);
      var p := procs[k].1;
      var i :| 0 <= i < |StepsOf(p)| && StepsOf(p)[i] == Reuse(n);
      assert p.steps.Some?;
    }
  }
}
