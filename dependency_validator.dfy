/** The checks of the data-dependencies validator as the loops that build
    each list of errors or warnings, each proved to return what module
    DependencyFindings says it reports. No state is shared between them. */
module DependencyValidator {
  import opened Common
  import opened OrderedDict
  import opened DependencyFindings

  /** `validate_sections_exist`: one error per section of `sections` the
      document lacks, without stopping at the first. */
  method ValidateSectionsExist(doc: DependencyDoc, sections: seq<string>) returns (errors: seq<DepError>)
    ensures errors == SectionErrors(doc, sections)
  {
    errors := [];
    var i := 0;
    while i < |sections|
      invariant 0 <= i <= |sections|
      invariant errors == SectionErrors(doc, sections[..i])
    {
      assert sections[..i + 1][..i] == sections[..i];
      if !HasSection(doc, sections[i]) {
        errors := errors + [MissingSection(sections[i])];
      }
      i := i + 1;
    }
    assert sections[..i] == sections;
  }

  /** `validate_target_in_data`: one error per target item that is not a
      `data` key, in target order. */
  method ValidateTargetInData(target: seq<string>, data: Dict<string, Entry>) returns (errors: seq<DepError>)
    ensures errors == TargetErrors(target, data)
  {
    errors := [];
    var i := 0;
    while i < |target|
      invariant 0 <= i <= |target|
      invariant errors == TargetErrors(target[..i], data)
    {
      assert target[..i + 1][..i] == target[..i];
      if target[i] !in Keys(data) {
        errors := errors + [TargetNotInData(target[i])];
      }
      i := i + 1;
    }
    assert target[..i] == target;
  }

  /** `validate_required_data`: one error per `required_data` entry that is
      not a `data` key. */
  method ValidateRequiredData(data: Dict<string, Entry>) returns (errors: seq<DepError>)
    ensures errors == RefErrors(DataRef, data, data)
  {
    errors := [];
    var i := 0;
    while i < |data|
      invariant 0 <= i <= |data|
      invariant errors == RefErrors(DataRef, data[..i], data)
    {
      var (dataName, details) := data[i];
      var refs := details.requiredData.GetOr([]);
      ghost var before := errors;
      var k := 0;
      while k < |refs|
        invariant 0 <= k <= |refs|
        invariant errors == before + EntryRefErrors(DataRef, dataName, refs[..k], data)
      {
        RefNext(before, DataRef, dataName, refs, k, data);
        if refs[k] !in Keys(data) {
          errors := errors + [MissingReference(DataRef, dataName, refs[k])];
        }
        k := k + 1;
      }
      assert refs[..k] == refs;
      EntryNext(DataRef, data, i, data);
      i := i + 1;
    }
    assert data[..i] == data;
  }

  /** `validate_required_parameters`: one error per `required_parameter`
      entry of a data entry that is not a `parameter` key. */
  method ValidateRequiredParameters(data: Dict<string, Entry>, parameters: Dict<string, Entry>) returns (errors: seq<DepError>)
    ensures errors == RefErrors(ParameterRef, data, parameters)
  {
    errors := [];
    var i := 0;
    while i < |data|
      invariant 0 <= i <= |data|
      invariant errors == RefErrors(ParameterRef, data[..i], parameters)
    {
      var (dataName, details) := data[i];
      var refs := details.requiredParameter.GetOr([]);
      ghost var before := errors;
      var k := 0;
      while k < |refs|
        invariant 0 <= k <= |refs|
        invariant errors == before + EntryRefErrors(ParameterRef, dataName, refs[..k], parameters)
      {
        RefNext(before, ParameterRef, dataName, refs, k, parameters);
        if refs[k] !in Keys(parameters) {
          errors := errors + [MissingReference(ParameterRef, dataName, refs[k])];
        }
        k := k + 1;
      }
      assert refs[..k] == refs;
      EntryNext(ParameterRef, data, i, parameters);
      i := i + 1;
    }
    assert data[..i] == data;
  }

  /** `validate_required_fields`: one warning per missing description,
      format or unit of a data entry, then one per missing description,
      format, unit or value of a parameter. */
  method ValidateRequiredFields(data: Dict<string, Entry>, parameters: Dict<string, Entry>) returns (warnings: seq<DepWarning>)
    ensures warnings == RequiredFieldWarnings(data, parameters)
  {
    warnings := [];
    var i := 0;
    while i < |data|
      invariant 0 <= i <= |data|
      invariant warnings == FieldWarnings(DataItem, data[..i], DataFields)
    {
      var (dataName, details) := data[i];
      ghost var before := warnings;
      var k := 0;
      while k < |DataFields|
        invariant 0 <= k <= |DataFields|
        invariant warnings == before + EntryFieldWarnings(DataItem, dataName, details.keys, DataFields[..k])
      {
        FieldNext(before, DataItem, dataName, details.keys, DataFields, k);
        if DataFields[k] !in details.keys {
          warnings := warnings + [MissingField(DataItem, dataName, DataFields[k])];
        }
        k := k + 1;
      }
      assert DataFields[..k] == DataFields;
      FieldEntryNext(DataItem, data, i, DataFields);
      i := i + 1;
    }
    assert data[..i] == data;
    ghost var dataWarnings := warnings;
    i := 0;
    while i < |parameters|
      invariant 0 <= i <= |parameters|
      invariant warnings == dataWarnings + FieldWarnings(ParameterItem, parameters[..i], ParameterFields)
    {
      var (paramName, details) := parameters[i];
      ghost var before := warnings;
      var k := 0;
      while k < |ParameterFields|
        invariant 0 <= k <= |ParameterFields|
        invariant warnings == before + EntryFieldWarnings(ParameterItem, paramName, details.keys, ParameterFields[..k])
      {
        FieldNext(before, ParameterItem, paramName, details.keys, ParameterFields, k);
        if ParameterFields[k] !in details.keys {
          warnings := warnings + [MissingField(ParameterItem, paramName, ParameterFields[k])];
        }
        k := k + 1;
      }
      assert ParameterFields[..k] == ParameterFields;
      FieldEntryNext(ParameterItem, parameters, i, ParameterFields);
      AppendAssociative(dataWarnings, FieldWarnings(ParameterItem, parameters[..i], ParameterFields),
                        EntryFieldWarnings(ParameterItem, paramName, details.keys, ParameterFields));
      i := i + 1;
    }
    assert parameters[..i] == parameters;
  }

  /** `validate_data_dependencies`: the section errors, then, when both
      `data` and `parameter` are present, the content errors and the field
      warnings; a missing `target` is an empty list. */
  method ValidateDataDependencies(doc: DependencyDoc) returns (errors: seq<DepError>, warnings: seq<DepWarning>)
    ensures errors == Errors(doc)
    ensures warnings == Warnings(doc)
  {
    errors := [];
    warnings := [];
    var sections := ValidateSectionsExist(doc, RequiredSections);
    errors := errors + sections;
    assert errors == sections;
    if doc.data.Some? && doc.parameter.Some? {
      var data := doc.data.value;
      var parameters := doc.parameter.value;
      var target := doc.target.GetOr([]);
      var targets := ValidateTargetInData(target, data);
      errors := errors + targets;
      var dataRefs := ValidateRequiredData(data);
      errors := errors + dataRefs;
      var paramRefs := ValidateRequiredParameters(data, parameters);
      errors := errors + paramRefs;
      var overlap := ValidateUniqueNames(data, parameters);
      errors := errors + overlap;
      var missing := ValidateRequiredFields(data, parameters);
      warnings := warnings + missing;
      assert warnings == missing;
      AppendFour(sections, targets, dataRefs, paramRefs, overlap);
    }
  }

  /** Extending a list four times appends the four lists joined. */
  lemma AppendFour(s: seq<DepError>, a: seq<DepError>, b: seq<DepError>, c: seq<DepError>, d: seq<DepError>)
    ensures s + a + b + c + d == s + (a + b + c + d)
  {
    AppendAssociative(s, a, b);
    AppendAssociative(s, a + b, c);
    AppendAssociative(s, a + b + c, d);
  }

  // ---------------------------------------------------------------------
  // One more reference or field
  // ---------------------------------------------------------------------

  /** Checking reference `k` of an entry extends its errors by that
      reference's error. */
  lemma RefNext(base: seq<DepError>, kind: RefKind, name: string, refs: seq<string>, k: int, scope: Dict<string, Entry>)
    requires 0 <= k < |refs|
    ensures base + EntryRefErrors(kind, name, refs[..k + 1], scope)
            == base + EntryRefErrors(kind, name, refs[..k], scope) + RefError(kind, name, refs[k], scope)
  {
    assert refs[..k + 1][..k] == refs[..k];
    AppendAssociative(base, EntryRefErrors(kind, name, refs[..k], scope), RefError(kind, name, refs[k], scope));
  }

  /** Checking entry `i` extends the errors by that entry's errors. */
  lemma EntryNext(kind: RefKind, entries: Dict<string, Entry>, i: int, scope: Dict<string, Entry>)
    requires 0 <= i < |entries|
    ensures RefErrors(kind, entries[..i + 1], scope)
            == RefErrors(kind, entries[..i], scope) + EntryRefErrors(kind, entries[i].0, RefsOf(kind, entries[i].1), scope)
  {
    assert entries[..i + 1][..i] == entries[..i];
  }

  /** Checking field `k` of an entry extends its warnings by that field's
      warning. */
  lemma FieldNext(base: seq<DepWarning>, kind: EntryKind, name: string, keys: set<string>, fields: seq<string>, k: int)
    requires 0 <= k < |fields|
    ensures base + EntryFieldWarnings(kind, name, keys, fields[..k + 1])
            == base + EntryFieldWarnings(kind, name, keys, fields[..k]) + FieldWarning(kind, name, keys, fields[k])
  {
    assert fields[..k + 1][..k] == fields[..k];
    AppendAssociative(base, EntryFieldWarnings(kind, name, keys, fields[..k]), FieldWarning(kind, name, keys, fields[k]));
  }

  /** Checking entry `i` extends the warnings by that entry's warnings. */
  lemma FieldEntryNext(kind: EntryKind, entries: Dict<string, Entry>, i: int, fields: seq<string>)
    requires 0 <= i < |entries|
    ensures FieldWarnings(kind, entries[..i + 1], fields)
            == FieldWarnings(kind, entries[..i], fields) + EntryFieldWarnings(kind, entries[i].0, entries[i].1.keys, fields)
  {
    assert entries[..i + 1][..i] == entries[..i];
  }
}
