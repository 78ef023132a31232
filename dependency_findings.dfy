/** The decoded data-dependencies document and what each check of its
    validator reports, as functions of the document, with the lemmas that
    characterise those reports. The methods that run the checks with loops
    are in module DependencyValidator. */
module DependencyFindings {
  import opened Common
  import opened OrderedDict

  /** One entry of the `data` or `parameter` mapping: the keys it has, and
      the `required_data` and `required_parameter` lists when present. */
  datatype Entry = Entry(keys: set<string>, requiredData: Option<seq<string>>, requiredParameter: Option<seq<string>>)

  /** The decoded document: whether `metadata` is present, and the `target`
      list and the `data` and `parameter` mappings when present. */
  datatype DependencyDoc = DependencyDoc(
    hasMetadata: bool,
    target: Option<seq<string>>,
    data: Option<Dict<string, Entry>>,
    parameter: Option<Dict<string, Entry>>)

  /** Which reference list of a data entry is checked, and against which
      section. */
  datatype RefKind = DataRef | ParameterRef

  /** Which section a field warning is about. */
  datatype EntryKind = DataItem | ParameterItem

  /** One entry of the `errors` list, carrying the names its message
      mentions. */
  datatype DepError =
    | MissingSection(section: string)
    | TargetNotInData(item: string)
    | MissingReference(kind: RefKind, dataName: string, name: string)
    | NameOverlap(names: set<string>)

  /** One entry of the `warnings` list. */
  datatype DepWarning = MissingField(kind: EntryKind, entryName: string, field: string)

  const RequiredSections: seq<string> := ["metadata", "target", "data", "parameter"]
  const DataFields: seq<string> := ["description", "format", "unit"]
  const ParameterFields: seq<string> := ["description", "format", "unit", "value"]

  /** `section in data_dependencies`: only the four sections are modelled. */
  predicate HasSection(doc: DependencyDoc, section: string) {
    || (section == "metadata" && doc.hasMetadata)
    || (section == "target" && doc.target.Some?)
    || (section == "data" && doc.data.Some?)
    || (section == "parameter" && doc.parameter.Some?)
  }

  // ---------------------------------------------------------------------
  // Sections
  // ---------------------------------------------------------------------

  /** The error for one section name, if it is missing. */
  function SectionError(doc: DependencyDoc, section: string): seq<DepError> {
    if HasSection(doc, section) then [] else [MissingSection(section)]
  }

  /** The errors for `sections`, in their order. */
  function SectionErrors(doc: DependencyDoc, sections: seq<string>): seq<DepError> {
    if sections == [] then []
    else SectionErrors(doc, sections[..|sections| - 1]) + SectionError(doc, sections[|sections| - 1])
  }

  /** Every missing section is reported once per occurrence in `sections`,
      and nothing else is reported: the check does not stop at the first
      missing section. */
  lemma {:induction false} SectionErrorsCount(doc: DependencyDoc, sections: seq<string>, s: string)
    ensures multiset(SectionErrors(doc, sections))[MissingSection(s)]
            == if HasSection(doc, s) then 0 else multiset(sections)[s]
  {
    if sections != [] {
      var init := sections[..|sections| - 1];
      SectionErrorsCount(doc, init, s);
      assert sections == init + [sections[|sections| - 1]];
      assert multiset(sections) == multiset(init) + multiset{sections[|sections| - 1]};
      assert multiset(SectionErrors(doc, sections))
             == multiset(SectionErrors(doc, init)) + multiset(SectionError(doc, sections[|sections| - 1]));
    }
  }

  /** Every section error names a missing section of `sections`. */
  lemma {:induction false} SectionErrorsKind(doc: DependencyDoc, sections: seq<string>)
    ensures forall e :: e in SectionErrors(doc, sections) ==>
      e.MissingSection? && e.section in sections && !HasSection(doc, e.section)
  {
    if sections != [] {
      SectionErrorsKind(doc, sections[..|sections| - 1]);
    }
  }

  /** For the four required sections: the error for each missing one, in
      the order metadata, target, data, parameter. */
  lemma RequiredSectionErrors(doc: DependencyDoc)
    ensures SectionErrors(doc, RequiredSections)
            == SectionError(doc, "metadata") + SectionError(doc, "target")
               + SectionError(doc, "data") + SectionError(doc, "parameter")
  {
    var r := RequiredSections;
    assert r[..1][..0] == [];
    assert SectionErrors(doc, r[..1]) == SectionError(doc, "metadata");
    assert r[..2][..1] == r[..1];
    assert SectionErrors(doc, r[..2]) == SectionError(doc, "metadata") + SectionError(doc, "target");
    assert r[..3][..2] == r[..2];
    assert SectionErrors(doc, r[..3]) == SectionErrors(doc, r[..2]) + SectionError(doc, "data");
    assert r[..3] == r[..4][..3];
  }

  /** A document with no section at all gets all four section errors, in
      order: the check does not stop at the first. */
  lemma EmptyDocumentSections()
    ensures SectionErrors(DependencyDoc(false, None, None, None), RequiredSections)
            == [MissingSection("metadata"), MissingSection("target"), MissingSection("data"), MissingSection("parameter")]
  {
    RequiredSectionErrors(DependencyDoc(false, None, None, None));
  }

  // ---------------------------------------------------------------------
  // Targets
  // ---------------------------------------------------------------------

  /** The error for one target item, if `data` lacks it. */
  function TargetError(item: string, data: Dict<string, Entry>): seq<DepError> {
    if item in Keys(data) then [] else [TargetNotInData(item)]
  }

  /** The errors for the target items, in target order. */
  function TargetErrors(target: seq<string>, data: Dict<string, Entry>): seq<DepError> {
    if target == [] then []
    else TargetErrors(target[..|target| - 1], data) + TargetError(target[|target| - 1], data)
  }

  /** A target item absent from `data` is reported once per occurrence in
      the target list; one present is not reported. */
  lemma {:induction false} TargetErrorsCount(target: seq<string>, data: Dict<string, Entry>, x: string)
    ensures multiset(TargetErrors(target, data))[TargetNotInData(x)]
            == if x in Keys(data) then 0 else multiset(target)[x]
  {
    if target != [] {
      var init := target[..|target| - 1];
      TargetErrorsCount(init, data, x);
      assert target == init + [target[|target| - 1]];
      assert multiset(target) == multiset(init) + multiset{target[|target| - 1]};
      assert multiset(TargetErrors(target, data))
             == multiset(TargetErrors(init, data)) + multiset(TargetError(target[|target| - 1], data));
    }
  }

  /** Every target error names a target item missing from `data`. */
  lemma {:induction false} TargetErrorsKind(target: seq<string>, data: Dict<string, Entry>)
    ensures forall e :: e in TargetErrors(target, data) ==>
      e.TargetNotInData? && e.item in target && e.item !in Keys(data)
  {
    if target != [] {
      TargetErrorsKind(target[..|target| - 1], data);
    }
  }

  /** No target error iff every target item is a `data` key. */
  lemma {:induction false} TargetErrorsEmpty(target: seq<string>, data: Dict<string, Entry>)
    ensures TargetErrors(target, data) == [] <==> forall x :: x in target ==> x in Keys(data)
  {
    if target != [] {
      var init := target[..|target| - 1];
      TargetErrorsEmpty(init, data);
      assert target == init + [target[|target| - 1]];
    }
  }

  // ---------------------------------------------------------------------
  // required_data and required_parameter
  // ---------------------------------------------------------------------

  /** The reference list of kind `kind`, empty when the key is absent. */
  function RefsOf(kind: RefKind, entry: Entry): seq<string> {
    match kind
    case DataRef => entry.requiredData.GetOr([])
    case ParameterRef => entry.requiredParameter.GetOr([])
  }

  /** The error for one reference of entry `name`, if `scope` lacks it. */
  function RefError(kind: RefKind, name: string, x: string, scope: Dict<string, Entry>): seq<DepError> {
    if x in Keys(scope) then [] else [MissingReference(kind, name, x)]
  }

  /** The errors for the references `refs` of the entry `name`, in order. */
  function EntryRefErrors(kind: RefKind, name: string, refs: seq<string>, scope: Dict<string, Entry>): seq<DepError> {
    if refs == [] then []
    else EntryRefErrors(kind, name, refs[..|refs| - 1], scope) + RefError(kind, name, refs[|refs| - 1], scope)
  }

  /** The errors for the references of kind `kind` of every entry of
      `entries`, entry by entry, each looked up in `scope` (the `data`
      section for `required_data`, the `parameter` section for
      `required_parameter`). */
  function RefErrors(kind: RefKind, entries: Dict<string, Entry>, scope: Dict<string, Entry>): seq<DepError> {
    if entries == [] then []
    else
      var (name, entry) := entries[|entries| - 1];
      RefErrors(kind, entries[..|entries| - 1], scope) + EntryRefErrors(kind, name, RefsOf(kind, entry), scope)
  }

  /** The errors of one entry are about missing references of that entry. */
  lemma {:induction false} EntryRefErrorsMember(kind: RefKind, name: string, refs: seq<string>, scope: Dict<string, Entry>, e: DepError)
    ensures e in EntryRefErrors(kind, name, refs, scope) <==>
      e.MissingReference? && e.kind == kind && e.dataName == name && e.name in refs && e.name !in Keys(scope)
  {
    if refs != [] {
      var init := refs[..|refs| - 1];
      EntryRefErrorsMember(kind, name, init, scope, e);
      assert refs == init + [refs[|refs| - 1]];
    }
  }

  /** One error per listing: a reference the scope lacks is reported as
      often as the entry lists it, a present one never. */
  lemma {:induction false} EntryRefErrorsCount(kind: RefKind, name: string, refs: seq<string>, scope: Dict<string, Entry>, x: string)
    ensures multiset(EntryRefErrors(kind, name, refs, scope))[MissingReference(kind, name, x)]
            == if x in Keys(scope) then 0 else multiset(refs)[x]
  {
    if refs != [] {
      var init := refs[..|refs| - 1];
      EntryRefErrorsCount(kind, name, init, scope, x);
      MultisetLast(refs);
      assert multiset(EntryRefErrors(kind, name, refs, scope))
             == multiset(EntryRefErrors(kind, name, init, scope)) + multiset(RefError(kind, name, refs[|refs| - 1], scope));
    }
  }

  /** How many times the entries named `n` list `x` among their references
      of kind `kind`. */
  function RefListings(kind: RefKind, entries: Dict<string, Entry>, n: string, x: string): nat {
    if entries == [] then 0
    else
      var (name, entry) := entries[|entries| - 1];
      RefListings(kind, entries[..|entries| - 1], n, x) + (if name == n then multiset(RefsOf(kind, entry))[x] else 0)
  }

  /** Over all entries: a missing reference is reported once per listing
      by an entry of that name, a present one never. */
  lemma {:induction false} RefErrorsCount(kind: RefKind, entries: Dict<string, Entry>, scope: Dict<string, Entry>, n: string, x: string)
    ensures multiset(RefErrors(kind, entries, scope))[MissingReference(kind, n, x)]
            == if x in Keys(scope) then 0 else RefListings(kind, entries, n, x)
  {
    if entries != [] {
      var last := |entries| - 1;
      var (name, entry) := entries[last];
      var e := MissingReference(kind, n, x);
      RefErrorsCount(kind, entries[..last], scope, n, x);
      var here := EntryRefErrors(kind, name, RefsOf(kind, entry), scope);
      assert multiset(RefErrors(kind, entries, scope)) == multiset(RefErrors(kind, entries[..last], scope)) + multiset(here);
      if name == n {
        EntryRefErrorsCount(kind, name, RefsOf(kind, entry), scope, x);
      } else {
        EntryRefErrorsMember(kind, name, RefsOf(kind, entry), scope, e);
        assert multiset(here)[e] == 0;
      }
    }
  }

  /** Every reference error is about a missing reference of kind `kind`
      of some entry. */
  lemma {:induction false} RefErrorsKind(kind: RefKind, entries: Dict<string, Entry>, scope: Dict<string, Entry>, e: DepError)
    requires e in RefErrors(kind, entries, scope)
    ensures e.MissingReference? && e.kind == kind && e.name !in Keys(scope)
  {
    var last := |entries| - 1;
    var (name, entry) := entries[last];
    if e in RefErrors(kind, entries[..last], scope) {
      RefErrorsKind(kind, entries[..last], scope, e);
    } else {
      EntryRefErrorsMember(kind, name, RefsOf(kind, entry), scope, e);
    }
  }

  /** A reported missing reference has an entry naming it. */
  lemma {:induction false} RefErrorFound(kind: RefKind, entries: Dict<string, Entry>, scope: Dict<string, Entry>, n: string, x: string)
    returns (i: int)
    requires MissingReference(kind, n, x) in RefErrors(kind, entries, scope)
    ensures 0 <= i < |entries| && entries[i].0 == n && x in RefsOf(kind, entries[i].1) && x !in Keys(scope)
  {
    var last := |entries| - 1;
    var (name, entry) := entries[last];
    var e := MissingReference(kind, n, x);
    if e in RefErrors(kind, entries[..last], scope) {
      i := RefErrorFound(kind, entries[..last], scope, n, x);
    } else {
      EntryRefErrorsMember(kind, name, RefsOf(kind, entry), scope, e);
      i := last;
    }
  }

  /** A reference of entry `i` that `scope` lacks is reported. */
  lemma {:induction false} RefErrorReported(kind: RefKind, entries: Dict<string, Entry>, scope: Dict<string, Entry>, i: int, x: string)
    requires 0 <= i < |entries| && x in RefsOf(kind, entries[i].1) && x !in Keys(scope)
    ensures MissingReference(kind, entries[i].0, x) in RefErrors(kind, entries, scope)
  {
    var last := |entries| - 1;
    var init := entries[..last];
    var (name, entry) := entries[last];
    var before := RefErrors(kind, init, scope);
    var here := EntryRefErrors(kind, name, RefsOf(kind, entry), scope);
    assert RefErrors(kind, entries, scope) == before + here;
    if i < last {
      assert init[i] == entries[i];
      RefErrorReported(kind, init, scope, i, x);
      assert MissingReference(kind, entries[i].0, x) in before;
    } else {
      EntryRefErrorsMember(kind, name, RefsOf(kind, entry), scope, MissingReference(kind, name, x));
      assert MissingReference(kind, name, x) in here;
    }
  }

  /** An error for (entry, reference) appears iff some entry of that name
      lists a reference absent from `scope`; RefErrorsCount gives how often. */
  lemma RefErrorsMember(kind: RefKind, entries: Dict<string, Entry>, scope: Dict<string, Entry>, n: string, x: string)
    ensures MissingReference(kind, n, x) in RefErrors(kind, entries, scope) <==>
      exists i :: 0 <= i < |entries| && entries[i].0 == n && x in RefsOf(kind, entries[i].1) && x !in Keys(scope)
  {
    if MissingReference(kind, n, x) in RefErrors(kind, entries, scope) {
      var i := RefErrorFound(kind, entries, scope, n, x);
    }
    if exists i :: 0 <= i < |entries| && entries[i].0 == n && x in RefsOf(kind, entries[i].1) && x !in Keys(scope) {
      var i :| 0 <= i < |entries| && entries[i].0 == n && x in RefsOf(kind, entries[i].1) && x !in Keys(scope);
      RefErrorReported(kind, entries, scope, i, x);
    }
  }

  /** Every reference of every entry resolves iff there is no reference
      error. */
  lemma {:induction false} RefErrorsEmpty(kind: RefKind, entries: Dict<string, Entry>, scope: Dict<string, Entry>)
    ensures RefErrors(kind, entries, scope) == [] <==>
      forall i, x :: 0 <= i < |entries| && x in RefsOf(kind, entries[i].1) ==> x in Keys(scope)
  {
    if RefErrors(kind, entries, scope) != [] {
      var e := RefErrors(kind, entries, scope)[0];
      RefErrorsKind(kind, entries, scope, e);
      var i := RefErrorFound(kind, entries, scope, e.dataName, e.name);
    }
    if !forall i, x :: 0 <= i < |entries| && x in RefsOf(kind, entries[i].1) ==> x in Keys(scope) {
      var i, x :| 0 <= i < |entries| && x in RefsOf(kind, entries[i].1) && x !in Keys(scope);
      RefErrorReported(kind, entries, scope, i, x);
    }
  }

  // ---------------------------------------------------------------------
  // Unique names
  // ---------------------------------------------------------------------

  /** `validate_unique_names`: one error carrying every name that is both a
      data name and a parameter name, when there is any. */
  function ValidateUniqueNames(data: Dict<string, Entry>, parameters: Dict<string, Entry>): (r: seq<DepError>)
    ensures |r| <= 1
    ensures r != [] <==> exists k :: k in Keys(data) && k in Keys(parameters)
    ensures forall e :: e in r ==> e.NameOverlap? && forall k :: k in e.names <==> k in Keys(data) && k in Keys(parameters)
  {
    var overlap := KeySet(data) * KeySet(parameters);
    if overlap != {} then [NameOverlap(overlap)]
    else []
  }

  // ---------------------------------------------------------------------
  // Required fields
  // ---------------------------------------------------------------------

  /** The warning for one field of the entry `name`, if the entry lacks it. */
  function FieldWarning(kind: EntryKind, name: string, keys: set<string>, field: string): seq<DepWarning> {
    if field in keys then [] else [MissingField(kind, name, field)]
  }

  /** The warnings for the fields `fields` of one entry, in field order. */
  function EntryFieldWarnings(kind: EntryKind, name: string, keys: set<string>, fields: seq<string>): seq<DepWarning> {
    if fields == [] then []
    else EntryFieldWarnings(kind, name, keys, fields[..|fields| - 1]) + FieldWarning(kind, name, keys, fields[|fields| - 1])
  }

  /** The warnings for every entry of `entries`, entry by entry. */
  function FieldWarnings(kind: EntryKind, entries: Dict<string, Entry>, fields: seq<string>): seq<DepWarning> {
    if entries == [] then []
    else
      var (name, entry) := entries[|entries| - 1];
      FieldWarnings(kind, entries[..|entries| - 1], fields) + EntryFieldWarnings(kind, name, entry.keys, fields)
  }

  /** `validate_required_fields`: the data entries' warnings, then the
      parameters'. */
  function RequiredFieldWarnings(data: Dict<string, Entry>, parameters: Dict<string, Entry>): seq<DepWarning> {
    FieldWarnings(DataItem, data, DataFields) + FieldWarnings(ParameterItem, parameters, ParameterFields)
  }

  /** The warnings of one entry are about its missing fields. */
  lemma {:induction false} EntryFieldWarningsMember(kind: EntryKind, name: string, keys: set<string>, fields: seq<string>, w: DepWarning)
    ensures w in EntryFieldWarnings(kind, name, keys, fields) <==>
      w.kind == kind && w.entryName == name && w.field in fields && w.field !in keys
  {
    if fields != [] {
      var init := fields[..|fields| - 1];
      EntryFieldWarningsMember(kind, name, keys, init, w);
      assert fields == init + [fields[|fields| - 1]];
    }
  }

  /** A reported missing field has an entry lacking it. */
  lemma {:induction false} FieldWarningFound(kind: EntryKind, entries: Dict<string, Entry>, fields: seq<string>, w: DepWarning)
    returns (i: int)
    requires w in FieldWarnings(kind, entries, fields)
    ensures 0 <= i < |entries| && w.kind == kind && entries[i].0 == w.entryName
    ensures w.field in fields && w.field !in entries[i].1.keys
  {
    var last := |entries| - 1;
    var (name, entry) := entries[last];
    if w in FieldWarnings(kind, entries[..last], fields) {
      i := FieldWarningFound(kind, entries[..last], fields, w);
    } else {
      EntryFieldWarningsMember(kind, name, entry.keys, fields, w);
      i := last;
    }
  }

  /** A field that entry `i` lacks is reported. */
  lemma {:induction false} FieldWarningReported(kind: EntryKind, entries: Dict<string, Entry>, fields: seq<string>, i: int, f: string)
    requires 0 <= i < |entries| && f in fields && f !in entries[i].1.keys
    ensures MissingField(kind, entries[i].0, f) in FieldWarnings(kind, entries, fields)
  {
    var last := |entries| - 1;
    var init := entries[..last];
    var (name, entry) := entries[last];
    var before := FieldWarnings(kind, init, fields);
    var here := EntryFieldWarnings(kind, name, entry.keys, fields);
    assert FieldWarnings(kind, entries, fields) == before + here;
    if i < last {
      assert init[i] == entries[i];
      FieldWarningReported(kind, init, fields, i, f);
      assert MissingField(kind, entries[i].0, f) in before;
    } else {
      EntryFieldWarningsMember(kind, name, entry.keys, fields, MissingField(kind, name, f));
      assert MissingField(kind, name, f) in here;
    }
  }

  /** One warning per (entry, required field) pair whose field the entry
      lacks, and no other warning. */
  lemma FieldWarningsMember(kind: EntryKind, entries: Dict<string, Entry>, fields: seq<string>, n: string, f: string)
    ensures MissingField(kind, n, f) in FieldWarnings(kind, entries, fields) <==>
      f in fields && exists i :: 0 <= i < |entries| && entries[i].0 == n && f !in entries[i].1.keys
  {
    if MissingField(kind, n, f) in FieldWarnings(kind, entries, fields) {
      var i := FieldWarningFound(kind, entries, fields, MissingField(kind, n, f));
    }
    if f in fields && exists i :: 0 <= i < |entries| && entries[i].0 == n && f !in entries[i].1.keys {
      var i :| 0 <= i < |entries| && entries[i].0 == n && f !in entries[i].1.keys;
      FieldWarningReported(kind, entries, fields, i, f);
    }
  }

  /** Every entry has every field iff there is no warning. */
  lemma {:induction false} FieldWarningsEmpty(kind: EntryKind, entries: Dict<string, Entry>, fields: seq<string>)
    ensures FieldWarnings(kind, entries, fields) == [] <==>
      forall i, f :: 0 <= i < |entries| && f in fields ==> f in entries[i].1.keys
  {
    if FieldWarnings(kind, entries, fields) != [] {
      var i := FieldWarningFound(kind, entries, fields, FieldWarnings(kind, entries, fields)[0]);
    }
    if !forall i, f :: 0 <= i < |entries| && f in fields ==> f in entries[i].1.keys {
      var i, f :| 0 <= i < |entries| && f in fields && f !in entries[i].1.keys;
      FieldWarningReported(kind, entries, fields, i, f);
    }
  }

  // ---------------------------------------------------------------------
  // The whole validation
  // ---------------------------------------------------------------------

  /** The content checks run only when both `data` and `parameter` exist. */
  predicate Checkable(doc: DependencyDoc) {
    doc.data.Some? && doc.parameter.Some?
  }

  /** The errors of the checks that need both `data` and `parameter`: the
      target, `required_data`, `required_parameter` and unique-name errors
      in that order. */
  function ContentErrors(target: seq<string>, data: Dict<string, Entry>, parameters: Dict<string, Entry>): seq<DepError> {
    TargetErrors(target, data)
      + RefErrors(DataRef, data, data)
      + RefErrors(ParameterRef, data, parameters)
      + ValidateUniqueNames(data, parameters)
  }

  /** `validate_data_dependencies`' error list: the section errors, then,
      when both `data` and `parameter` exist, the content errors, a missing
      `target` counting as an empty list. */
  function Errors(doc: DependencyDoc): seq<DepError> {
    SectionErrors(doc, RequiredSections)
      + if !Checkable(doc) then []
        else ContentErrors(doc.target.GetOr([]), doc.data.value, doc.parameter.value)
  }

  /** `validate_data_dependencies`' warning list. */
  function Warnings(doc: DependencyDoc): seq<DepWarning> {
    if !Checkable(doc) then []
    else RequiredFieldWarnings(doc.data.value, doc.parameter.value)
  }

  /** Without `data` or `parameter`, only the section errors are returned,
      and no warning; one of them is about the missing section. */
  lemma NotCheckable(doc: DependencyDoc)
    requires !Checkable(doc)
    ensures Errors(doc) == SectionErrors(doc, RequiredSections)
    ensures forall e :: e in Errors(doc) ==> e.MissingSection?
    ensures Warnings(doc) == []
    ensures MissingSection("data") in Errors(doc) || MissingSection("parameter") in Errors(doc)
  {
    RequiredSectionErrors(doc);
  }

  /** A missing `target` section is reported as such and otherwise treated
      as an empty list: no target item is reported. */
  lemma MissingTarget(doc: DependencyDoc, x: string)
    requires doc.target.None?
    ensures MissingSection("target") in Errors(doc)
    ensures TargetNotInData(x) !in Errors(doc)
  {
    RequiredSectionErrors(doc);
    if Checkable(doc) {
      NoTargetErrors(doc.data.value, doc.parameter.value, x);
    }
  }

  /** With no target item, no content error is about a target item. */
  lemma NoTargetErrors(data: Dict<string, Entry>, parameters: Dict<string, Entry>, x: string)
    ensures TargetNotInData(x) !in ContentErrors([], data, parameters)
  {
    var dataRefs := RefErrors(DataRef, data, data);
    var paramRefs := RefErrors(ParameterRef, data, parameters);
    assert ContentErrors([], data, parameters) == dataRefs + paramRefs + ValidateUniqueNames(data, parameters);
    if TargetNotInData(x) in dataRefs {
      RefErrorsKind(DataRef, data, data, TargetNotInData(x));
    }
    if TargetNotInData(x) in paramRefs {
      RefErrorsKind(ParameterRef, data, parameters, TargetNotInData(x));
    }
  }

  /** The documents the validator accepts without any error or warning:
      every section present, every target item and `required_data` entry a
      data name, every `required_parameter` entry a parameter name, no name
      both a data and a parameter name, and every entry carrying its
      required fields. */
  predicate WellFormed(doc: DependencyDoc) {
    && doc.hasMetadata && doc.target.Some? && doc.data.Some? && doc.parameter.Some?
    && (forall x :: x in doc.target.value ==> x in Keys(doc.data.value))
    && (forall i, x :: 0 <= i < |doc.data.value| && x in RefsOf(DataRef, doc.data.value[i].1) ==> x in Keys(doc.data.value))
    && (forall i, x :: 0 <= i < |doc.data.value| && x in RefsOf(ParameterRef, doc.data.value[i].1) ==> x in Keys(doc.parameter.value))
    && (forall k :: k in Keys(doc.data.value) ==> k !in Keys(doc.parameter.value))
    && (forall i, f :: 0 <= i < |doc.data.value| && f in DataFields ==> f in doc.data.value[i].1.keys)
    && (forall i, f :: 0 <= i < |doc.parameter.value| && f in ParameterFields ==> f in doc.parameter.value[i].1.keys)
  }

  /** All four sections are present iff there is no section error. */
  lemma SectionErrorsEmpty(doc: DependencyDoc)
    ensures SectionErrors(doc, RequiredSections) == [] <==>
      doc.hasMetadata && doc.target.Some? && doc.data.Some? && doc.parameter.Some?
  {
    RequiredSectionErrors(doc);
  }

  /** A document gets no error and no warning iff it is well formed. */
  lemma CleanIffWellFormed(doc: DependencyDoc)
    ensures Errors(doc) == [] && Warnings(doc) == [] <==> WellFormed(doc)
  {
    SectionErrorsEmpty(doc);
    if Checkable(doc) {
      var data := doc.data.value;
      var parameters := doc.parameter.value;
      TargetErrorsEmpty(doc.target.GetOr([]), data);
      RefErrorsEmpty(DataRef, data, data);
      RefErrorsEmpty(ParameterRef, data, parameters);
      FieldWarningsEmpty(DataItem, data, DataFields);
      FieldWarningsEmpty(ParameterItem, parameters, ParameterFields);
    } else {
      NotCheckable(doc);
    }
  }
}
