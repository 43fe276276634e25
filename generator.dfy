/**
 * `generateClass`, `createValidator`, `createFields` and
 * `createValidationMethod`: the parts of the generated `Validator_<Name>`
 * class, as structured values rather than Java text.
 */
module Generator {
  import opened Wrappers
  import opened TypeNames
  import opened TypeTokens
  import opened Annotations
  import opened Elements
  import opened TypeSearch
  import opened Extensions
  import opened NameAllocation
  import opened Strategies

  datatype Parameter = Parameter(parameterType: TypeName, name: string)

  const InspectorParameter := Parameter(ClassName("io.sweers.inspector.Inspector"), "inspector")
  const TypesParameter := Parameter(ArrayType(ClassName("java.lang.reflect.Type")), "types")

  datatype Constructor = Constructor(parameters: seq<Parameter>, body: seq<ConstructorStatement>)

  /** The statements `validate` emits for one property: the local binding
      `T name = value.m();`, the extension contributions, and
      `field.validate(name);`. */
  datatype ValidationBlock = ValidationBlock(
    methodName: string,
    localType: TypeName,
    localName: string,
    contributions: seq<Contribution>,
    validatorField: string)

  /** `public void validate(T value) throws ValidationException` */
  datatype ValidateMethod = ValidateMethod(parameter: Parameter, blocks: seq<ValidationBlock>)

  /** The generated `final class Validator_<Name> extends Validator<T>`;
      `hasValidatorHelper` says whether the private `validator(inspector,
      methodName)` method is added. */
  datatype ValidatorClass = ValidatorClass(
    name: string,
    superclass: TypeName,
    typeVariables: seq<string>,
    fields: seq<Field>,
    validatorConstructor: Constructor,
    validate: ValidateMethod,
    hasValidatorHelper: bool)

  /** The field `createFields` makes for a property. */
  function FieldFor(p: Property): Field {
    Field(Parameterized(ValidatorClassName, [Box(p.typeName)]), p.HumanName() + "Validator")
  }

  function Entries(properties: seq<Property>): (r: seq<FieldEntry>)
    ensures |r| == |properties|
    ensures forall i :: 0 <= i < |r| ==> r[i] == FieldEntry(properties[i], FieldFor(properties[i]))
  {
    seq(|properties|, i requires 0 <= i < |properties| => FieldEntry(properties[i], FieldFor(properties[i])))
  }

  function FieldsOf(entries: seq<FieldEntry>): (r: seq<Field>)
    ensures |r| == |entries| && forall i :: 0 <= i < |r| ==> r[i] == entries[i].field
  {
    seq(|entries|, i requires 0 <= i < |entries| => entries[i].field)
  }

  /** One field per property, in order, named after the property and typed
      `Validator<T>` for its boxed type. */
  lemma EntriesSpec(properties: seq<Property>)
    ensures var fields := Entries(properties);
      && |fields| == |properties|
      && forall i :: 0 <= i < |properties| ==>
        && fields[i].property == properties[i]
        && fields[i].field.name == properties[i].HumanName() + "Validator"
        && fields[i].field.fieldType.Parameterized?
        && fields[i].field.fieldType.rawType == ValidatorClassName
        && |fields[i].field.fieldType.typeArguments| == 1
        && !fields[i].field.fieldType.typeArguments[0].Primitive?
        && (!properties[i].typeName.Primitive? ==> fields[i].field.fieldType.typeArguments[0] == properties[i].typeName)
        && (properties[i].typeName.Primitive? ==>
              Unbox(fields[i].field.fieldType.typeArguments[0]) == Some(properties[i].typeName.kind))
  {
  }

  /** Appending one property to the prefix appends its entry. */
  lemma EntriesPrefixStep(properties: seq<Property>, i: nat)
    requires i < |properties|
    ensures Entries(properties[..i + 1]) == Entries(properties[..i]) + [FieldEntry(properties[i], FieldFor(properties[i]))]
  {
    var prefix := properties[..i + 1];
    assert prefix[..i] == properties[..i];
  }

  /** `createFields(properties)`: one field per property, in order, named
      after the property and typed `Validator<T>` for its boxed type. */
  method CreateFields(properties: seq<Property>) returns (fields: seq<FieldEntry>)
    ensures fields == Entries(properties)
  {
    fields := [];
    var i := 0;
    while i < |properties|
      invariant 0 <= i <= |properties|
      invariant fields == Entries(properties[..i])
    {
      var property := properties[i];
      var t := if property.typeName.Primitive? then Box(property.typeName) else property.typeName;
      var adp := Parameterized(ValidatorClassName, [t]);
      EntriesPrefixStep(properties, i);
      assert Field(adp, property.HumanName() + "Validator") == FieldFor(property);
      fields := fields + [FieldEntry(property, Field(adp, property.HumanName() + "Validator"))];
      i := i + 1;
    }
    assert properties[..i] == properties;
  }

  /** The properties `validate` covers: those with `shouldValidate()`, in
      field order. */
  function Validated(entries: seq<FieldEntry>): (r: seq<FieldEntry>)
    ensures |r| <= |entries|
    ensures forall e :: e in r <==> e in entries && e.property.ShouldValidate()
  {
    if entries == [] then []
    else
      var last := entries[|entries| - 1];
      assert entries == entries[..|entries| - 1] + [last];
      Validated(entries[..|entries| - 1]) + (if last.property.ShouldValidate() then [last] else [])
  }

  /** The filter keeps field order: the validated entries of a
      concatenation are those of its first part followed by those of its
      second. */
  lemma {:induction false} ValidatedAppend(a: seq<FieldEntry>, b: seq<FieldEntry>)
    ensures Validated(a + b) == Validated(a) + Validated(b)
    decreases |b|
  {
    if b == [] {
      assert a + b == a;
    } else {
      var front := b[..|b| - 1];
      assert (a + b)[..|a + b| - 1] == a + front;
      assert (a + b)[|a + b| - 1] == b[|b| - 1];
      ValidatedAppend(a, front);
    }
  }

  /** The locals bound by `blocks`. */
  function LocalNames(blocks: seq<ValidationBlock>): set<string> {
    set k | 0 <= k < |blocks| :: blocks[k].localName
  }

  lemma LocalNamesSnoc(blocks: seq<ValidationBlock>, b: ValidationBlock)
    ensures LocalNames(blocks + [b]) == LocalNames(blocks) + {b.localName}
  {
    var blocks' := blocks + [b];
    forall x | x in LocalNames(blocks) ensures x in LocalNames(blocks') {
      var k :| 0 <= k < |blocks| && blocks[k].localName == x;
      assert blocks'[k] == blocks[k];
    }
    assert blocks'[|blocks|] == b;
  }

  /** `name` is what the allocator gives for `methodName` after the locals of
      `earlier`: the shortest underscore extension of `methodName` that is no
      keyword and not yet bound. */
  predicate FreshLocal(earlier: seq<ValidationBlock>, name: string, methodName: string) {
    && DerivedFrom(name, methodName)
    && !IsKeyword(name)
    && name !in LocalNames(earlier)
    && (forall n :: 0 <= n < |name| - |methodName| ==>
          var shorter := methodName + Underscores(n);
          IsKeyword(shorter) || shorter in LocalNames(earlier))
  }

  /** `blocks` are the validation blocks for `validated`, with `container`
      the name of `validate`'s parameter. */
  predicate BlocksFor(blocks: seq<ValidationBlock>, validated: seq<FieldEntry>, exts: seq<Extension>, container: string) {
    && |blocks| == |validated|
    && forall i :: 0 <= i < |blocks| ==>
      && blocks[i].methodName == validated[i].property.methodName
      && blocks[i].localType == validated[i].property.typeName
      && blocks[i].validatorField == validated[i].field.name
      && blocks[i].contributions == ExtensionContributions(exts, validated[i].property, blocks[i].localName, container)
      && FreshLocal(blocks[..i], blocks[i].localName, validated[i].property.methodName)
  }

  predicate ValidateMethodFor(m: ValidateMethod, targetClassName: TypeName, entries: seq<FieldEntry>, exts: seq<Extension>) {
    m.parameter == Parameter(targetClassName, "value") && BlocksFor(m.blocks, Validated(entries), exts, "value")
  }

  /** The local names of a `validate` method are pairwise distinct. */
  lemma LocalNamesDistinct(m: ValidateMethod, targetClassName: TypeName, entries: seq<FieldEntry>, exts: seq<Extension>)
    requires ValidateMethodFor(m, targetClassName, entries, exts)
    ensures forall i, j :: 0 <= i < j < |m.blocks| ==> m.blocks[i].localName != m.blocks[j].localName
  {
    forall i, j | 0 <= i < j < |m.blocks| ensures m.blocks[i].localName != m.blocks[j].localName {
      assert FreshLocal(m.blocks[..j], m.blocks[j].localName, Validated(entries)[j].property.methodName);
      assert m.blocks[..j][i] == m.blocks[i];
    }
  }

  lemma ValueIsNoKeyword()
    ensures !IsKeyword("value")
  {
  }

  /** A name without underscores derives only from itself. */
  lemma OnlyValueDerivesValue(methodName: string)
    requires DerivedFrom("value", methodName)
    ensures methodName == "value"
  {
    var u := Underscores(|"value"| - |methodName|);
    assert "value" == methodName + u;
    assert (methodName + u)[4] == 'e';
  }

  /** The allocator is not told about the parameter `value`: the first
      validated accessor named `value()`, wherever it comes, gets the local
      `value` too, and the generated `validate` declares a local with the
      parameter's name, which Java rejects. */
  lemma LocalMayRedeclareParameter(m: ValidateMethod, targetClassName: TypeName, entries: seq<FieldEntry>,
      exts: seq<Extension>, i: nat)
    requires ValidateMethodFor(m, targetClassName, entries, exts)
    requires i < |Validated(entries)| && Validated(entries)[i].property.methodName == "value"
    requires forall j :: 0 <= j < i ==> Validated(entries)[j].property.methodName != "value"
    ensures m.blocks[i].localName == m.parameter.name
  {
    var validated := Validated(entries);
    var name := m.blocks[i].localName;
    assert FreshLocal(m.blocks[..i], name, "value");
    if |name| > |"value"| {
      assert "value" + Underscores(0) == "value";
      ValueIsNoKeyword();
      assert "value" in LocalNames(m.blocks[..i]);
      var k :| 0 <= k < i && m.blocks[..i][k].localName == "value";
      assert m.blocks[..i][k] == m.blocks[k];
      assert FreshLocal(m.blocks[..k], m.blocks[k].localName, validated[k].property.methodName);
      OnlyValueDerivesValue(validated[k].property.methodName);
      assert false;
    }
  }

  /** `createValidationMethod(targetClassName, validators)` */
  method CreateValidationMethod(targetClassName: TypeName, validators: seq<FieldEntry>, extensions: seq<Extension>)
    returns (m: ValidateMethod)
    ensures ValidateMethodFor(m, targetClassName, validators, extensions)
  {
    var valueName := "value";
    var value := Parameter(targetClassName, valueName);
    var allocator := new NameAllocator();
    var blocks: seq<ValidationBlock> := [];
    var i := 0;
    while i < |validators|
      invariant 0 <= i <= |validators|
      invariant BlocksFor(blocks, Validated(validators[..i]), extensions, valueName)
      invariant allocator.allocatedNames == LocalNames(blocks)
    {
      var entry := validators[i];
      assert validators[..i + 1] == validators[..i] + [entry];
      if entry.property.ShouldValidate() {
        var prop := entry.property;
        var name := allocator.NewName(prop.methodName);
        var contributions := CollectContributions(extensions, prop, name, valueName);
        var b := ValidationBlock(prop.methodName, prop.typeName, name, contributions, entry.field.name);
        AppendBlock(blocks, Validated(validators[..i]), entry, extensions, valueName, b);
        LocalNamesSnoc(blocks, b);
        blocks := blocks + [b];
      }
      i := i + 1;
    }
    assert validators[..i] == validators;
    m := ValidateMethod(value, blocks);
  }

  /** The inner `forEach` of `createValidationMethod`: the extensions in
      priority order, the applicable ones asked for a block, `null` skipped. */
  method CollectContributions(extensions: seq<Extension>, prop: Property, name: string, valueName: string)
    returns (contributions: seq<Contribution>)
    ensures contributions == ExtensionContributions(extensions, prop, name, valueName)
  {
    var order := Sorted(extensions);
    contributions := [];
    var j := 0;
    while j < |order|
      invariant 0 <= j <= |order|
      invariant contributions == Collect(extensions, order[..j], prop, name, valueName)
    {
      var k := order[j];
      var e := extensions[k];
      assert order[..j + 1][..j] == order[..j];
      if e.applicable(prop) {
        var block := e.generateValidation(prop, name, valueName);
        if block.Some? {
          contributions := contributions + [Contribution(k, e.description, block.value)];
        }
      }
      j := j + 1;
    }
    assert order[..j] == order;
  }

  /** A block whose local was freshly allocated extends `BlocksFor`. */
  lemma AppendBlock(blocks: seq<ValidationBlock>, validated: seq<FieldEntry>, entry: FieldEntry,
      exts: seq<Extension>, container: string, b: ValidationBlock)
    requires BlocksFor(blocks, validated, exts, container)
    requires b.methodName == entry.property.methodName && b.localType == entry.property.typeName
    requires b.validatorField == entry.field.name
    requires b.contributions == ExtensionContributions(exts, entry.property, b.localName, container)
    requires FreshLocal(blocks, b.localName, b.methodName)
    ensures BlocksFor(blocks + [b], validated + [entry], exts, container)
  {
    var blocks', validated' := blocks + [b], validated + [entry];
    forall i | 0 <= i < |blocks'|
      ensures FreshLocal(blocks'[..i], blocks'[i].localName, validated'[i].property.methodName)
    {
      if i < |blocks| {
        assert blocks'[..i] == blocks[..i];
        assert blocks'[i] == blocks[i] && validated'[i] == validated[i];
      } else {
        assert blocks'[..i] == blocks;
      }
    }
  }

  /** The type-variable names the array holds, when the class is generic. */
  function GenericNames(genericTypeNames: Option<array<string>>): Option<seq<string>>
    reads if genericTypeNames.Some? then {genericTypeNames.value} else {}
  {
    if genericTypeNames.Some? then Some(genericTypeNames.value[..]) else None
  }

  /** One iteration of `createValidator`'s loop: the scan of the accessor's
      annotations for a `@ValidationQualifier`, then the chain of strategies. */
  method ResolveEntry(entry: FieldEntry, genericTypeNames: Option<array<string>>)
    returns (usesValidationQualifier: bool, step: Result<Step, GenerationError>)
    ensures usesValidationQualifier == UsesValidationQualifier(entry.property)
    ensures step == Resolve(entry, GenericNames(genericTypeNames))
  {
    var prop, field := entry.property, entry.field;
    var annotations := prop.element.annotations;
    usesValidationQualifier := false;
    var j := 0;
    while j < |annotations|
      invariant 0 <= j <= |annotations|
      invariant usesValidationQualifier <==> exists k :: 0 <= k < j && annotations[k].isValidationQualifier
    {
      if annotations[j].isValidationQualifier {
        usesValidationQualifier := true;
      }
      j := j + 1;
    }
    var validatedBy := prop.ValidatedByMirror();
    if validatedBy.Some? {
      var validatorClasses := ValidatorClasses(validatedBy.value);
      if |validatorClasses| == 0 {
        step := Success(Report(Diagnostic(NoValidatorClasses, prop.methodName)));
      } else if |validatorClasses| == 1 {
        step := Success(Emit(NewSingle(field.name, validatorClasses[0])));
      } else {
        step := Success(Emit(NewComposite(field.name, prop.typeName, validatorClasses)));
      }
    } else if usesValidationQualifier {
      step := Success(Emit(QualifiedLookup(field.name, prop.methodName)));
    } else if genericTypeNames.Some? && prop.typeName.Parameterized? {
      var typeName := prop.typeName;
      if |typeName.typeArguments| == 0 {
        step := Failure(MissingTypeArgument(typeName.rawType));
      } else {
        var index := GetTypeIndexInArray(genericTypeNames.value, typeName.typeArguments[0]);
        step := Success(Emit(WrappedGeneric(field.name, typeName.rawType, index)));
      }
    } else {
      var direct := -1;
      if genericTypeNames.Some? {
        direct := GetTypeIndexInArray(genericTypeNames.value, prop.typeName);
      }
      if genericTypeNames.Some? && direct >= 0 {
        step := Success(Emit(DirectGeneric(field.name, direct)));
      } else {
        var token := MakeType(prop.typeName);
        if token.Failure? {
          step := Failure(UnrepresentableWildcard(token.error));
        } else {
          step := Success(Emit(DefaultLookup(field.name, token.value)));
        }
      }
    }
  }

  /** The class `createValidator` builds from a run of the loop that did not
      fail. */
  function ValidatorClassOf(simpleName: string, targetClassName: TypeName, generic: Option<seq<string>>,
      entries: seq<FieldEntry>, steps: seq<Step>, validate: ValidateMethod): ValidatorClass
  {
    ValidatorClass(
      "Validator_" + simpleName,
      Parameterized(ValidatorClassName, [targetClassName]),
      if generic.Some? then generic.value else [],
      FieldsOf(entries),
      Constructor([InspectorParameter] + (if generic.Some? then [TypesParameter] else []), Statements(steps)),
      validate,
      AnyUsesValidationQualifier(entries))
  }

  /** The loop of `createValidator` over the fields: it appends a statement
      or reports an error for each, flips `needsValidatorMethod` when the
      accessor carries a validation qualifier, and stops at the first
      exception. */
  method ResolveAll(validators: seq<FieldEntry>, genericTypeNames: Option<array<string>>)
    returns (error: Option<GenerationError>, body: seq<ConstructorStatement>, diagnostics: seq<Diagnostic>,
      needsValidatorMethod: bool)
    ensures var run := RunSteps(validators, GenericNames(genericTypeNames));
      && error == run.error
      && diagnostics == Diagnostics(run.steps)
      && (error.None? ==> body == Statements(run.steps))
      && (error.None? ==> needsValidatorMethod == AnyUsesValidationQualifier(validators))
  {
    ghost var generic := GenericNames(genericTypeNames);
    body := [];
    diagnostics := [];
    needsValidatorMethod := false;
    var i := 0;
    ghost var steps: seq<Step> := [];
    while i < |validators|
      invariant 0 <= i <= |validators| && |steps| == i
      invariant ResolvesTo(validators, generic, steps)
      invariant body == Statements(steps)
      invariant diagnostics == Diagnostics(steps)
      invariant needsValidatorMethod == AnyUsesValidationQualifier(validators[..i])
    {
      var entry := validators[i];
      AnyUsesValidationQualifierExtend(validators, i);
      var usesValidationQualifier, step := ResolveEntry(entry, genericTypeNames);
      if usesValidationQualifier {
        needsValidatorMethod := true;
      }
      if step.Failure? {
        RunStepsFromResolutions(validators, generic, steps, Some(step.error));
        return Some(step.error), body, diagnostics, needsValidatorMethod;
      }
      var resolved := step.value;
      ResolvesToSnoc(validators, generic, steps, resolved);
      StepsSnoc(steps, resolved);
      steps := steps + [resolved];
      if resolved.Emit? {
        body := body + [resolved.statement];
      } else {
        diagnostics := diagnostics + [resolved.diagnostic];
      }
      i := i + 1;
    }
    assert validators[..i] == validators;
    RunStepsFromResolutions(validators, generic, steps, None);
    error := None;
  }

  /** What `createValidator` produces for `properties`: the diagnostics of
      the loop's run; a failure exactly when the run fails, with its error;
      otherwise the class built from the run, with a `validate` method that
      meets its specification. */
  predicate CreatesValidator(result: Result<ValidatorClass, GenerationError>, diagnostics: seq<Diagnostic>,
      simpleName: string, targetClassName: TypeName, generic: Option<seq<string>>, properties: seq<Property>,
      extensions: seq<Extension>)
  {
    var entries := Entries(properties);
    var run := RunSteps(entries, generic);
    && diagnostics == Diagnostics(run.steps)
    && (result.Failure? <==> run.error.Some?)
    && (result.Failure? ==> result.error == run.error.value)
    && (result.Success? ==>
          && result.value == ValidatorClassOf(simpleName, targetClassName, generic, entries, run.steps, result.value.validate)
          && ValidateMethodFor(result.value.validate, targetClassName, entries, extensions))
  }

  /** `createValidator(simpleName, targetClassName, genericTypeNames,
      properties)`: the fields, the constructor, `validate`, and the class. A
      failure aborts it; the diagnostics reported until then stay reported. */
  method CreateValidator(simpleName: string, targetClassName: TypeName, genericTypeNames: Option<array<string>>,
      properties: seq<Property>, extensions: seq<Extension>)
    returns (result: Result<ValidatorClass, GenerationError>, diagnostics: seq<Diagnostic>)
    ensures CreatesValidator(result, diagnostics, simpleName, targetClassName, GenericNames(genericTypeNames),
      properties, extensions)
  {
    var validators := CreateFields(properties);
    var parameters := [InspectorParameter];
    if genericTypeNames.Some? {
      parameters := parameters + [TypesParameter];
    }
    var error, body, needsValidatorMethod;
    error, body, diagnostics, needsValidatorMethod := ResolveAll(validators, genericTypeNames);
    if error.Some? {
      return Failure(error.value), diagnostics;
    }
    var validate := CreateValidationMethod(targetClassName, validators, extensions);
    var typeVariables := if genericTypeNames.Some? then genericTypeNames.value[..] else [];
    result := Success(ValidatorClass(
      "Validator_" + simpleName,
      Parameterized(ValidatorClassName, [targetClassName]),
      typeVariables,
      FieldsOf(validators),
      Constructor(parameters, body),
      validate,
      needsValidatorMethod));
  }

  lemma StepsSnoc(steps: seq<Step>, s: Step)
    ensures Statements(steps + [s]) == Statements(steps) + (if s.Emit? then [s.statement] else [])
    ensures Diagnostics(steps + [s]) == Diagnostics(steps) + (if s.Report? then [s.diagnostic] else [])
  {
    assert (steps + [s])[..|steps|] == steps;
  }

  /** The shape the class takes: named after the target, one field per
      entry, the `Type[] types` parameter and the type variables exactly for
      a generic target, and the helper exactly when some accessor carries a
      validation qualifier (whichever strategy wins for it). */
  lemma ValidatorClassShape(simpleName: string, targetClassName: TypeName, generic: Option<seq<string>>,
      entries: seq<FieldEntry>, steps: seq<Step>, validate: ValidateMethod)
    ensures var c := ValidatorClassOf(simpleName, targetClassName, generic, entries, steps, validate);
      && c.name == "Validator_" + simpleName
      && c.superclass == Parameterized(ValidatorClassName, [targetClassName])
      && |c.fields| == |entries|
      && (forall i :: 0 <= i < |entries| ==> c.fields[i] == entries[i].field)
      && c.validatorConstructor.parameters[0] == InspectorParameter
      && (TypesParameter in c.validatorConstructor.parameters <==> generic.Some?)
      && (generic.Some? ==> c.typeVariables == generic.value)
      && (generic.None? ==> c.typeVariables == [])
      && (c.hasValidatorHelper <==> exists i :: 0 <= i < |entries| && UsesValidationQualifier(entries[i].property))
  {
    AnyUsesValidationQualifierIffSome(entries);
  }

  /** The class being processed: its package, names, type parameters and
      enclosed elements. */
  datatype TargetClass = TargetClass(
    packageName: string,
    simpleName: string,
    qualifiedName: string,
    typeParameters: seq<string>,
    enclosedElements: seq<Element>)

  /** The Java file written for the target: its package and the class. */
  datatype GeneratedFile = GeneratedFile(packageName: string, validator: ValidatorClass)

  /** The target's type: `C<T1, …, Tn>` when it has type parameters, `C`
      otherwise. */
  function TargetClassName(c: TargetClass): TypeName {
    if |c.typeParameters| > 0 then
      Parameterized(c.qualifiedName, seq(|c.typeParameters|, i requires 0 <= i < |c.typeParameters| => TypeVariable(c.typeParameters[i])))
    else ClassName(c.qualifiedName)
  }

  function GenericOf(c: TargetClass): Option<seq<string>> {
    if |c.typeParameters| > 0 then Some(c.typeParameters) else None
  }

  /** The loop of `generateClass` that fills `new TypeVariableName[n]` with
      the type parameters, in order. */
  method TypeVariableArray(typeParams: seq<string>) returns (names: array<string>)
    ensures fresh(names) && names[..] == typeParams
  {
    names := new string[|typeParams|];
    var i := 0;
    while i < |typeParams|
      invariant 0 <= i <= |typeParams|
      invariant names[..i] == typeParams[..i]
      modifies names
    {
      names[i] := typeParams[i];
      i := i + 1;
    }
    assert names[..] == names[..i];
  }

  /** The first half of `generateClass`: `getProperties` of the enclosed
      elements, then `readProperties` of that map. */
  method ExtractProperties(enclosed: seq<Element>) returns (properties: seq<Property>)
    ensures properties == Extracted(enclosed)
  {
    var propertiesMap := GetProperties(enclosed);
    properties := ReadProperties(propertiesMap);
  }

  /** The types `generateClass` computes for the target: its class name,
      parameterized by type variables named after its type parameters when
      it has any, and the array of those names. */
  method TargetTypes(targetClass: TargetClass) returns (targetClassName: TypeName, genericTypeNames: Option<array<string>>)
    ensures targetClassName == TargetClassName(targetClass)
    ensures GenericNames(genericTypeNames) == GenericOf(targetClass)
  {
    var typeParams := targetClass.typeParameters;
    var shouldCreateGenerics := |typeParams| > 0;
    var initialClassName := ClassName(targetClass.qualifiedName);
    genericTypeNames := None;
    targetClassName := initialClassName;
    if shouldCreateGenerics {
      var names := TypeVariableArray(typeParams);
      genericTypeNames := Some(names);
      targetClassName := Parameterized(initialClassName.qualifiedName,
        seq(|typeParams|, i requires 0 <= i < |typeParams| => TypeVariable(typeParams[i])));
    }
  }

  /** `generateClass(targetClass)`, up to writing the file: the validator
      `createValidator` makes of the target's extracted properties, typed
      `C<T1, …, Tn>` when it has type parameters, in the target's package. */
  method GenerateClass(targetClass: TargetClass, extensions: seq<Extension>)
    returns (result: Result<GeneratedFile, GenerationError>, diagnostics: seq<Diagnostic>)
    ensures var properties := Extracted(targetClass.enclosedElements);
      var validator := if result.Success? then Success(result.value.validator) else Failure(result.error);
      && CreatesValidator(validator, diagnostics, targetClass.simpleName, TargetClassName(targetClass),
           GenericOf(targetClass), properties, extensions)
      && (result.Success? ==> result.value.packageName == targetClass.packageName)
  {
    var properties := ExtractProperties(targetClass.enclosedElements);
    var targetClassName, genericTypeNames := TargetTypes(targetClass);
    var validator;
    validator, diagnostics := CreateValidator(targetClass.simpleName, targetClassName, genericTypeNames, properties, extensions);
    if validator.Failure? {
      return Failure(validator.error), diagnostics;
    }
    result := Success(GeneratedFile(targetClass.packageName, validator.value));
  }
}
