/**
 * The constructor statement `createValidator` writes for each property, and
 * the order in which it tries the strategies: `@ValidatedBy`, a
 * `@ValidationQualifier` lookup, a wrapped type variable, a bare type
 * variable, and the default `makeType` lookup. The first that applies wins.
 */
module Strategies {
  import opened Wrappers
  import opened Seqs
  import opened TypeNames
  import opened TypeTokens
  import opened Annotations
  import opened Elements
  import opened TypeSearch

  /** A private final field of the generated class. */
  datatype Field = Field(fieldType: TypeName, name: string)

  /** An entry of the `ImmutableMap<Property, FieldSpec>` built by
      `createFields`. */
  datatype FieldEntry = FieldEntry(property: Property, field: Field)

  /** The statements of the generated constructor; `inspector` and `types` are
      its parameters. */
  datatype ConstructorStatement =
      /** `this.f = new C()` */
    | NewSingle(field: string, validatorClass: string)
      /** `this.f = CompositeValidator.<T>of(new C1(), …, new Cn())` */
    | NewComposite(field: string, validatedType: TypeName, validatorClasses: seq<string>)
      /** `this.f = validator(inspector, "m")` */
    | QualifiedLookup(field: string, methodName: string)
      /** `this.f = inspector.validator(Types.newParameterizedType(R.class, types[i]))` */
    | WrappedGeneric(field: string, rawType: string, index: int)
      /** `this.f = inspector.validator(types[i])` */
    | DirectGeneric(field: string, index: int)
      /** `this.f = inspector.validator(<makeType(T)>)` */
    | DefaultLookup(field: string, token: TypeToken)

  /** An ERROR reported through the `Messager` on the accessor `methodName`. */
  datatype Diagnostic = Diagnostic(message: string, methodName: string)

  const NoValidatorClasses := "No validator classes specified in @ValidatedBy annotation!"

  /** What one iteration of the loop does: add a statement or report an error. */
  datatype Step = Emit(statement: ConstructorStatement) | Report(diagnostic: Diagnostic)

  /** The exceptions that abort generation: `makeType`'s
      IllegalArgumentException, and `typeArguments.get(0)` on a parameterized
      type without arguments. */
  datatype GenerationError = UnrepresentableWildcard(wildcard: TypeName) | MissingTypeArgument(rawType: string)

  function Target(s: ConstructorStatement): string {
    match s
    case NewSingle(f, _) => f
    case NewComposite(f, _, _) => f
    case QualifiedLookup(f, _) => f
    case WrappedGeneric(f, _, _) => f
    case DirectGeneric(f, _) => f
    case DefaultLookup(f, _) => f
  }

  /** Some annotation of the accessor has an annotation type marked
      `@ValidationQualifier`. */
  predicate UsesValidationQualifier(p: Property) {
    exists i :: 0 <= i < |p.element.annotations| && p.element.annotations[i].isValidationQualifier
  }

  /** Some entry's accessor carries a `@ValidationQualifier` annotation: the
      flag `needsValidatorMethod` after the loop over `entries`. */
  function AnyUsesValidationQualifier(entries: seq<FieldEntry>): bool {
    if entries == [] then false
    else AnyUsesValidationQualifier(entries[..|entries| - 1]) || UsesValidationQualifier(entries[|entries| - 1].property)
  }

  lemma AnyUsesValidationQualifierExtend(entries: seq<FieldEntry>, i: nat)
    requires i < |entries|
    ensures AnyUsesValidationQualifier(entries[..i + 1]) ==
      (AnyUsesValidationQualifier(entries[..i]) || UsesValidationQualifier(entries[i].property))
  {
    assert entries[..i + 1][..i] == entries[..i];
  }

  lemma {:induction false} AnyUsesValidationQualifierIffSome(entries: seq<FieldEntry>)
    ensures AnyUsesValidationQualifier(entries) <==>
      exists i :: 0 <= i < |entries| && UsesValidationQualifier(entries[i].property)
  {
    if entries != [] {
      var front := entries[..|entries| - 1];
      AnyUsesValidationQualifierIffSome(front);
      assert forall i :: 0 <= i < |front| ==> front[i] == entries[i];
    }
  }

  /** The step for one field entry; `generic` holds the names of the type
      variables when the target class is generic. */
  function Resolve(entry: FieldEntry, generic: Option<seq<string>>): (r: Result<Step, GenerationError>)
    ensures r.Success? && r.value.Emit? ==> Target(r.value.statement) == entry.field.name
    ensures r.Success? && r.value.Report? ==>
      r.value.diagnostic == Diagnostic(NoValidatorClasses, entry.property.methodName)
    ensures r.Failure? && r.error.UnrepresentableWildcard? ==> IsUnrepresentable(r.error.wildcard)
  {
    var p, f := entry.property, entry.field.name;
    match p.ValidatedByMirror()
    case Some(v) =>
      var classes := ValidatorClasses(v);
      if |classes| == 0 then Success(Report(Diagnostic(NoValidatorClasses, p.methodName)))
      else if |classes| == 1 then Success(Emit(NewSingle(f, classes[0])))
      else Success(Emit(NewComposite(f, p.typeName, classes)))
    case None =>
      if UsesValidationQualifier(p) then Success(Emit(QualifiedLookup(f, p.methodName)))
      else if generic.Some? && p.typeName.Parameterized? then
        if |p.typeName.typeArguments| == 0 then Failure(MissingTypeArgument(p.typeName.rawType))
        else Success(Emit(WrappedGeneric(f, p.typeName.rawType, Search(generic.value, p.typeName.typeArguments[0]))))
      else if generic.Some? && Search(generic.value, p.typeName) >= 0 then
        Success(Emit(DirectGeneric(f, Search(generic.value, p.typeName))))
      else
        match MakeType(p.typeName)
        case Failure(w) => Failure(UnrepresentableWildcard(w))
        case Success(token) => Success(Emit(DefaultLookup(f, token)))
  }

  /** The strategies, in the order they are tried. */
  datatype Strategy = ByValidatedBy | ByQualifier | ByWrappedGeneric | ByDirectGeneric | ByDefault

  function Rank(s: Strategy): nat {
    match s
    case ByValidatedBy => 0
    case ByQualifier => 1
    case ByWrappedGeneric => 2
    case ByDirectGeneric => 3
    case ByDefault => 4
  }

  /** The condition under which each strategy applies to a property. */
  predicate Applies(s: Strategy, p: Property, generic: Option<seq<string>>) {
    match s
    case ByValidatedBy => p.ValidatedByMirror().Some?
    case ByQualifier => UsesValidationQualifier(p)
    case ByWrappedGeneric => generic.Some? && p.typeName.Parameterized?
    case ByDirectGeneric => generic.Some? && Search(generic.value, p.typeName) >= 0
    case ByDefault => true
  }

  /** The strategy a step comes from. */
  function StrategyOf(step: Step): Strategy {
    match step
    case Report(_) => ByValidatedBy
    case Emit(s) =>
      match s
      case NewSingle(_, _) => ByValidatedBy
      case NewComposite(_, _, _) => ByValidatedBy
      case QualifiedLookup(_, _) => ByQualifier
      case WrappedGeneric(_, _, _) => ByWrappedGeneric
      case DirectGeneric(_, _) => ByDirectGeneric
      case DefaultLookup(_, _) => ByDefault
  }

  /** The strategy of the step is the first one that applies; a failure comes
      from the wrapped or the default strategy, when each earlier one does not
      apply. */
  lemma FirstApplicableStrategyWins(entry: FieldEntry, generic: Option<seq<string>>)
    ensures var r, p := Resolve(entry, generic), entry.property;
      && (r.Success? ==>
            && Applies(StrategyOf(r.value), p, generic)
            && forall s :: Rank(s) < Rank(StrategyOf(r.value)) ==> !Applies(s, p, generic))
      && (r.Failure? && r.error.MissingTypeArgument? ==>
            && Applies(ByWrappedGeneric, p, generic)
            && forall s :: Rank(s) < Rank(ByWrappedGeneric) ==> !Applies(s, p, generic))
      && (r.Failure? && r.error.UnrepresentableWildcard? ==>
            forall s :: Rank(s) < Rank(ByDefault) ==> !Applies(s, p, generic))
  {
    var r, p := Resolve(entry, generic), entry.property;
    if r.Success? {
      forall s | Rank(s) < Rank(StrategyOf(r.value)) ensures !Applies(s, p, generic) {
        match s
        case ByValidatedBy =>
        case ByQualifier =>
        case ByWrappedGeneric =>
        case ByDirectGeneric =>
        case ByDefault =>
      }
    }
  }

  /** `@ValidatedBy` decides by the number of distinct classes it names: none
      reports an error, one is instantiated, several are combined, each once
      and in the order of first occurrence. */
  lemma ValidatedByOutcome(entry: FieldEntry, generic: Option<seq<string>>, v: AnnotationValue)
    requires entry.property.ValidatedByMirror() == Some(v)
    ensures var r, cs := Resolve(entry, generic), Dedup(ClassLiterals(v));
      && (|cs| == 0 ==> r == Success(Report(Diagnostic(NoValidatorClasses, entry.property.methodName))))
      && (|cs| == 1 ==> r == Success(Emit(NewSingle(entry.field.name, cs[0]))))
      && (|cs| >= 2 ==> r == Success(Emit(NewComposite(entry.field.name, entry.property.typeName, cs))))
  {
  }

  /** The wrapped strategy searches for the first type argument whatever it
      is: an argument that is not a type variable gives the index
      `-(n + 1)`, so `types[-(n + 1)]` is emitted. */
  lemma WrappedIndexOfNonVariableArgument(entry: FieldEntry, names: seq<string>, raw: string, args: seq<TypeName>)
    requires entry.property.ValidatedByMirror().None? && !UsesValidationQualifier(entry.property)
    requires entry.property.typeName == Parameterized(raw, args) && |args| > 0 && !args[0].TypeVariable?
    ensures Resolve(entry, Some(names)) == Success(Emit(WrappedGeneric(entry.field.name, raw, -(|names| + 1))))
  {
  }

  /** The steps of the loop over the field entries, up to and without the
      first failure, and that failure. */
  datatype Run = Run(steps: seq<Step>, error: Option<GenerationError>)

  function RunSteps(entries: seq<FieldEntry>, generic: Option<seq<string>>): (r: Run)
    ensures |r.steps| <= |entries|
  {
    if entries == [] then Run([], None)
    else
      var prev := RunSteps(entries[..|entries| - 1], generic);
      if prev.error.Some? then prev
      else
        match Resolve(entries[|entries| - 1], generic)
        case Failure(e) => Run(prev.steps, Some(e))
        case Success(step) => Run(prev.steps + [step], None)
  }

  /** The loop resolves the entries one by one, in order, and stops at the
      first that fails. */
  lemma {:induction false} RunStepsStopsAtFirstFailure(entries: seq<FieldEntry>, generic: Option<seq<string>>)
    ensures var r := RunSteps(entries, generic);
      && (forall i :: 0 <= i < |r.steps| ==> Resolve(entries[i], generic) == Success(r.steps[i]))
      && (r.error.None? ==> |r.steps| == |entries|)
      && (r.error.Some? ==> |r.steps| < |entries| && Resolve(entries[|r.steps|], generic) == Failure(r.error.value))
  {
    if entries != [] {
      var front := entries[..|entries| - 1];
      RunStepsStopsAtFirstFailure(front, generic);
      var prev := RunSteps(front, generic);
      forall i | 0 <= i < |prev.steps| ensures entries[i] == front[i] {
      }
      if prev.error.Some? {
        assert entries[|prev.steps|] == front[|prev.steps|];
      }
    }
  }

  /** `steps` are the resolutions of the first `|steps|` entries. */
  predicate ResolvesTo(entries: seq<FieldEntry>, generic: Option<seq<string>>, steps: seq<Step>) {
    |steps| <= |entries| && forall k :: 0 <= k < |steps| ==> Resolve(entries[k], generic) == Success(steps[k])
  }

  lemma ResolvesToSnoc(entries: seq<FieldEntry>, generic: Option<seq<string>>, steps: seq<Step>, step: Step)
    requires ResolvesTo(entries, generic, steps) && |steps| < |entries|
    requires Resolve(entries[|steps|], generic) == Success(step)
    ensures ResolvesTo(entries, generic, steps + [step])
  {
    var steps' := steps + [step];
    forall k | 0 <= k < |steps'| ensures Resolve(entries[k], generic) == Success(steps'[k]) {
      if k < |steps| {
        assert steps'[k] == steps[k];
      }
    }
  }

  /** Conversely, steps that are the resolutions of the first entries, ended
      by all the entries or by the first failure, are the run. */
  lemma RunStepsFromResolutions(entries: seq<FieldEntry>, generic: Option<seq<string>>, steps: seq<Step>,
      error: Option<GenerationError>)
    requires ResolvesTo(entries, generic, steps)
    requires error.None? ==> |steps| == |entries|
    requires error.Some? ==> |steps| < |entries| && Resolve(entries[|steps|], generic) == Failure(error.value)
    ensures RunSteps(entries, generic) == Run(steps, error)
  {
    var r := RunSteps(entries, generic);
    RunStepsStopsAtFirstFailure(entries, generic);
    assert |r.steps| == |steps|;
    forall k | 0 <= k < |steps| ensures r.steps[k] == steps[k] {
      assert Success(r.steps[k]) == Resolve(entries[k], generic) == Success(steps[k]);
    }
  }

  /** Once the loop has failed, further entries change nothing. */
  lemma {:induction false} RunStepsAfterFailure(entries: seq<FieldEntry>, generic: Option<seq<string>>, n: nat)
    requires n <= |entries| && RunSteps(entries[..n], generic).error.Some?
    ensures RunSteps(entries, generic) == RunSteps(entries[..n], generic)
    decreases |entries| - n
  {
    if n < |entries| {
      assert entries[..n + 1][..n] == entries[..n];
      RunStepsAfterFailure(entries, generic, n + 1);
    } else {
      assert entries[..n] == entries;
    }
  }

  /** The constructor body: the emitted statements, in order. */
  function Statements(steps: seq<Step>): (r: seq<ConstructorStatement>)
    ensures |r| <= |steps|
    ensures forall s :: s in r <==> Emit(s) in steps
  {
    if steps == [] then []
    else
      var last := steps[|steps| - 1];
      assert steps == steps[..|steps| - 1] + [last];
      Statements(steps[..|steps| - 1]) + (if last.Emit? then [last.statement] else [])
  }

  /** The reported errors, in order. */
  function Diagnostics(steps: seq<Step>): (r: seq<Diagnostic>)
    ensures |r| <= |steps|
    ensures forall d :: d in r <==> Report(d) in steps
  {
    if steps == [] then []
    else
      var last := steps[|steps| - 1];
      assert steps == steps[..|steps| - 1] + [last];
      Diagnostics(steps[..|steps| - 1]) + (if last.Report? then [last.diagnostic] else [])
  }

  /** Every statement of a successful run initialises the field of the entry
      it was made for, and an entry reports an error exactly when its
      `@ValidatedBy` names no class. */
  lemma EveryStatementInitialisesItsField(entries: seq<FieldEntry>, generic: Option<seq<string>>)
    requires RunSteps(entries, generic).error.None?
    ensures var steps := RunSteps(entries, generic).steps;
      && |steps| == |entries|
      && (forall i :: 0 <= i < |entries| && steps[i].Emit? ==> Target(steps[i].statement) == entries[i].field.name)
      && (forall i :: 0 <= i < |entries| ==> (steps[i].Report? <==> ReportsNoClasses(entries[i])))
  {
    var steps := RunSteps(entries, generic).steps;
    RunStepsStopsAtFirstFailure(entries, generic);
    forall i | 0 <= i < |entries| ensures steps[i].Report? <==> ReportsNoClasses(entries[i]) {
      ReportIffNoClasses(entries[i], generic);
    }
  }

  /** The entry carries `@ValidatedBy` and it names no class. */
  predicate ReportsNoClasses(entry: FieldEntry) {
    entry.property.ValidatedByMirror().Some? && ValidatorClasses(entry.property.ValidatedByMirror().value) == []
  }

  lemma ReportIffNoClasses(entry: FieldEntry, generic: Option<seq<string>>)
    ensures Resolve(entry, generic).Success? ==>
      (Resolve(entry, generic).value.Report? <==> ReportsNoClasses(entry))
  {
  }

  /** Each entry of a successful run gives a statement or a diagnostic. */
  lemma StatementsAndDiagnosticsCoverEntries(entries: seq<FieldEntry>, generic: Option<seq<string>>)
    requires RunSteps(entries, generic).error.None?
    ensures var steps := RunSteps(entries, generic).steps;
      |Statements(steps)| + |Diagnostics(steps)| == |entries|
  {
    RunStepsStopsAtFirstFailure(entries, generic);
    StatementsPlusDiagnostics(RunSteps(entries, generic).steps);
  }

  lemma {:induction false} StatementsPlusDiagnostics(steps: seq<Step>)
    ensures |Statements(steps)| + |Diagnostics(steps)| == |steps|
  {
    if steps != [] {
      StatementsPlusDiagnostics(steps[..|steps| - 1]);
    }
  }
}
