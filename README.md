# Inspector validator generator, modelled in Dafny

Inspector is an annotation processor. For each class it processes, it writes a
`Validator_<Name>` class. This project models the code-generation engine of
`JavaInspectorProcessor`:

- **Property extraction.** `getProperties` collects the class's non-private,
  non-static, non-`@InspectorIgnored` methods into a `LinkedHashMap` keyed by
  simple name. `readProperties` then drops the entries whose return type is
  `NoType`.
- **Field creation.** `createFields` makes one `Validator<boxed T>` field per
  property.
- **Strategy resolution.** The loop of `createValidator` writes one constructor
  statement, or one error diagnostic, per field. It tries the strategies in this
  order:
  - `@ValidatedBy`, with one class or a composite of several;
  - a `@ValidationQualifier` lookup;
  - a wrapped type variable;
  - a bare type variable;
  - the default `makeType` lookup.

  The same loop decides whether the private `validator(inspector, methodName)`
  helper is added.
- **Type-variable search.** `getTypeIndexInArray` is modelled as the JDK's
  `Arrays.binarySearch` loop with the processor's comparator. That comparator
  is never positive, so the search only ever moves right. As a result, it can
  miss a type variable that is present.
- **Type tokens.** `makeType` recursively encodes a `TypeName` as a tree of
  `Types.newParameterizedType`, `subtypeOf`, `supertypeOf` and `X.class` tokens.
  It refuses a wildcard it cannot represent.
- **Validate-method assembly.** `createValidationMethod` handles each
  validated property in field order:
  - it allocates a fresh local name through a `NameAllocator`;
  - it adds the blocks of the applicable extensions, sorted by priority, with
    missing blocks skipped;
  - it adds the `validate` call on the property's field.

The generated class is a structured value (`Generator.ValidatorClass`), not
Java text. The class's javax.lang.model elements, annotation mirrors and the
extension plugins are plain input records. An extension's `applicable` and
`generateValidation` are function values.

Modules, in dependency order:

- `Wrappers`: `Option`, `Result`.
- `TypeNames`: JavaPoet's `TypeName` and boxing.
- `TypeTokens`: `makeType`.
- `Seqs`: first-occurrence deduplication, the ordering of `ImmutableSet` and `LinkedHashMap` keys.
- `Annotations`: `getValueFieldOfClasses`.
- `Elements`: `getProperties` and `readProperties`.
- `TypeSearch`: `getTypeIndexInArray`.
- `Extensions`: the priority sort and the contributions.
- `NameAllocation`: the `NameAllocator` class.
- `Strategies`: the strategy chain and the loop's run.
- `Generator`: `createFields`, `createValidationMethod`, `createValidator` and `generateClass`.

Methods with loops are proved equal to a specification function. Lemmas then
state the properties of that function.

Two behaviours of the code are worth stating outright:

- **Wildcard with one upper and one lower bound.** `makeType` does not refuse
  it. It tests for exactly one lower bound first, so it encodes this wildcard
  as `supertypeOf(lower)`. See `TypeTokens.DoublyBoundedWildcardUsesLowerBound`.
- **Order of the two generic strategies.** The test for a parameterized
  property type (the wrapped strategy) comes before the test for a property
  type that is itself a type variable (the direct strategy).

The model also exhibits four quirks of the code as written:

- **Index 0 is never found.** In an array of three or more type variables,
  the search never finds index 0: `TypeSearch.IndexZeroNeverFound`,
  `TypeSearch.FirstOfThreeMissed`.
- **A first type argument that is not a type variable.** The wrapped strategy
  searches for it anyway, and emits `types[-(n+1)]`:
  `Strategies.WrappedIndexOfNonVariableArgument`.
- **A local with the parameter's name.** The name allocator is not told about
  the parameter `value`. The first validated accessor named `value()`, wherever
  it comes, gets the local `value` as well. Java rejects a local that redeclares
  a parameter, so the generated `validate` does not compile:
  `Generator.LocalMayRedeclareParameter`.
- **Class literals that are not legal Java.** `makeType` writes `X.class` for
  the non-parameterized type itself, for every argument that is neither
  parameterized nor a wildcard, and for every wildcard bound. When `X` is a type
  variable, a parameterized type or an array of a type variable, the generated
  code does not compile: `TypeTokens.TypeVariableArgumentIsIllegalLiteral`,
  `TypeTokens.ParameterizedBoundIsIllegalLiteral`,
  `TypeTokens.TypeVariableArrayIsIllegalLiteral`. The round-trip lemmas
  `TypeTokens.MakeTypeDenotesItsInput` and its two partners are stated only for
  types whose `.class` positions all have class literals (`TypeTokens.Canonical`).

## Model

| member | source | states |
|---|---|---|
| TypeNames.Box | inspector-compiler/src/main/java/io/sweers/inspector/compiler/JavaInspectorProcessor.java:318 | the field's type argument is never primitive; a primitive becomes the wrapper class of its own kind, and any other type is unchanged |
| TypeTokens.MakeType | inspector-compiler/src/main/java/io/sweers/inspector/compiler/JavaInspectorProcessor.java:340-372 | a failure names an unrepresentable wildcard; a parameterized type gives `newParameterizedType` of its own raw type, with one token per type argument |
| TypeTokens.MakeArgument | inspector-compiler/src/main/java/io/sweers/inspector/compiler/JavaInspectorProcessor.java:346-365 | one type argument is encoded, or it fails on an unrepresentable wildcard |
| TypeTokens.MakeArguments | inspector-compiler/src/main/java/io/sweers/inspector/compiler/JavaInspectorProcessor.java:345-366 | one token per argument on success; a failure names an unrepresentable wildcard |
| TypeTokens.MakeArgumentsPointwise | inspector-compiler/src/main/java/io/sweers/inspector/compiler/JavaInspectorProcessor.java:345-366 | for every argument list: on success the token at each position is that argument's encoding; on failure the error is that of the first failing argument, and every earlier argument was encoded |
| TypeTokens.MakeTypeFailsAtReachedWildcard | inspector-compiler/src/main/java/io/sweers/inspector/compiler/JavaInspectorProcessor.java:340-372 | the wildcard named in the exception is an argument `makeType` reaches inside its input, not an arbitrary one |
| TypeTokens.MakeTypeSucceedsIffRepresentable | inspector-compiler/src/main/java/io/sweers/inspector/compiler/JavaInspectorProcessor.java:340-372 | `makeType` succeeds exactly when no argument it reaches is a wildcard without exactly one lower or exactly one upper bound |
| TypeTokens.MakeArgumentSucceedsIffRepresentable | inspector-compiler/src/main/java/io/sweers/inspector/compiler/JavaInspectorProcessor.java:346-365 | the same for a single type argument |
| TypeTokens.MakeArgumentsSucceedIffRepresentable | inspector-compiler/src/main/java/io/sweers/inspector/compiler/JavaInspectorProcessor.java:345-366 | the argument loop succeeds exactly when every argument is representable |
| TypeTokens.MakeTypeDenotesItsInput | inspector-compiler/src/main/java/io/sweers/inspector/compiler/JavaInspectorProcessor.java:340-372 | for every type whose wildcards are `?`, `? extends B` or `? super B` and whose `.class` positions are classes, primitives or arrays of those, `makeType` succeeds, every class literal it emits is legal, and the token constructs exactly that type |
| TypeTokens.MakeArgumentDenotesItsInput | inspector-compiler/src/main/java/io/sweers/inspector/compiler/JavaInspectorProcessor.java:346-365 | the same for one type argument |
| TypeTokens.MakeArgumentsDenoteTheirInputs | inspector-compiler/src/main/java/io/sweers/inspector/compiler/JavaInspectorProcessor.java:345-366 | under the same condition on every argument, every argument token is legal and constructs its argument |
| TypeTokens.DoublyBoundedWildcardUsesLowerBound | inspector-compiler/src/main/java/io/sweers/inspector/compiler/JavaInspectorProcessor.java:352-357 | a wildcard with one upper and one lower bound is not refused: it is encoded as `supertypeOf(lower)` |
| TypeTokens.WildcardBoundsAreNotEncoded | inspector-compiler/src/main/java/io/sweers/inspector/compiler/JavaInspectorProcessor.java:348-362 | a wildcard's bound becomes a class literal and is not encoded recursively |
| TypeTokens.TypeVariableArgumentIsIllegalLiteral | inspector-compiler/src/main/java/io/sweers/inspector/compiler/JavaInspectorProcessor.java:364 | a type-variable argument `T` is emitted as `T.class`, which is no legal class literal |
| TypeTokens.ParameterizedBoundIsIllegalLiteral | inspector-compiler/src/main/java/io/sweers/inspector/compiler/JavaInspectorProcessor.java:362 | a parameterized wildcard bound `Map<K, V>` is emitted as `Map<K, V>.class`, which is no legal class literal |
| TypeTokens.TypeVariableArrayIsIllegalLiteral | inspector-compiler/src/main/java/io/sweers/inspector/compiler/JavaInspectorProcessor.java:369 | a top-level `T[]` is emitted as `T[].class`, which is no legal class literal |
| Annotations.ValueFieldOfClasses | inspector-compiler/src/main/java/io/sweers/inspector/compiler/JavaInspectorProcessor.java:221-237 | the visitor's result holds no class twice |
| Annotations.ValueFieldIsDedupOfLiterals | inspector-compiler/src/main/java/io/sweers/inspector/compiler/JavaInspectorProcessor.java:221-237 | collecting sets level by level gives every class literal in the value once, in the order of first occurrence |
| Annotations.ValidatorClasses | inspector-compiler/src/main/java/io/sweers/inspector/compiler/JavaInspectorProcessor.java:159-161 | the `@ValidatedBy` classes: no duplicates, exactly the classes written in the value, in first-occurrence order |
| Elements.LinkedMap.Put | inspector-compiler/src/main/java/io/sweers/inspector/compiler/JavaInspectorProcessor.java:380-381 | `put` keeps the keys distinct and in step with the values |
| Elements.Candidates | inspector-compiler/src/main/java/io/sweers/inspector/compiler/JavaInspectorProcessor.java:376-379 | exactly the enclosed methods that are neither private, static nor `@InspectorIgnored` |
| Elements.CandidatesAppend | inspector-compiler/src/main/java/io/sweers/inspector/compiler/JavaInspectorProcessor.java:375-379 | the filter keeps declaration order: the candidates of `a + b` are those of `a` followed by those of `b` |
| Elements.LastNamed | inspector-compiler/src/main/java/io/sweers/inspector/compiler/JavaInspectorProcessor.java:380-381 | finds a candidate with that simple name exactly when one exists |
| Elements.LastNamedIsLast | inspector-compiler/src/main/java/io/sweers/inspector/compiler/JavaInspectorProcessor.java:380-381 | no candidate of that name comes after the one found |
| Elements.LastOfEachName | inspector-compiler/src/main/java/io/sweers/inspector/compiler/JavaInspectorProcessor.java:380-381 | the map of last values has exactly the candidates' names as keys |
| Elements.MapOfCandidatesKeysStep | inspector-compiler/src/main/java/io/sweers/inspector/compiler/JavaInspectorProcessor.java:380-381 | one more candidate changes the first-occurrence keys exactly as a `put` of its name does |
| Elements.MapOfCandidatesValuesStep | inspector-compiler/src/main/java/io/sweers/inspector/compiler/JavaInspectorProcessor.java:380-381 | one more candidate overwrites the value of its name and no other |
| Elements.MapOfCandidatesStep | inspector-compiler/src/main/java/io/sweers/inspector/compiler/JavaInspectorProcessor.java:380-381 | one more candidate is one more `put` on the map of first-occurrence keys and last values |
| Elements.PropertyMapStep | inspector-compiler/src/main/java/io/sweers/inspector/compiler/JavaInspectorProcessor.java:376-383 | one more enclosed element is a `put` exactly when it passes the filter |
| Elements.PropertyMapPrefixStep | inspector-compiler/src/main/java/io/sweers/inspector/compiler/JavaInspectorProcessor.java:376-383 | the same step for the loop's prefix `enclosed[..i + 1]` |
| Elements.GetProperties | inspector-compiler/src/main/java/io/sweers/inspector/compiler/JavaInspectorProcessor.java:374-385 | the loop builds the map of candidates: keys in first-occurrence order, each holding the last candidate of that name |
| Elements.PropertiesFrom | inspector-compiler/src/main/java/io/sweers/inspector/compiler/JavaInspectorProcessor.java:327-338 | each property is an entry of the map whose value returns a type, and carries that type |
| Elements.PropertiesFromComplete | inspector-compiler/src/main/java/io/sweers/inspector/compiler/JavaInspectorProcessor.java:329-336 | no entry that returns a type is dropped |
| Elements.PropertiesFromOrdered | inspector-compiler/src/main/java/io/sweers/inspector/compiler/JavaInspectorProcessor.java:329-336 | properties follow the key order |
| Elements.ReadProperties | inspector-compiler/src/main/java/io/sweers/inspector/compiler/JavaInspectorProcessor.java:327-338 | the loop yields the properties of exactly the entries that do not return `NoType`, in key order |
| Elements.ExtractedAreLastCandidates | inspector-compiler/src/main/java/io/sweers/inspector/compiler/JavaInspectorProcessor.java:374-385 | every extracted property is a candidate: the last one of its name, with its return type |
| Elements.ExtractedComplete | inspector-compiler/src/main/java/io/sweers/inspector/compiler/JavaInspectorProcessor.java:329-335 | a name yields a property exactly when its last candidate returns a type |
| Elements.ExtractedInFirstOccurrenceOrder | inspector-compiler/src/main/java/io/sweers/inspector/compiler/JavaInspectorProcessor.java:375-381 | properties come in the order in which their names first occur among the candidates |
| TypeSearch.Compare | inspector-compiler/src/main/java/io/sweers/inspector/compiler/JavaInspectorProcessor.java:281 | the comparator answers 0 exactly for the equal type variable, and -1 otherwise |
| TypeSearch.SearchFrom | inspector-compiler/src/main/java/io/sweers/inspector/compiler/JavaInspectorProcessor.java:280-282 | a hit is an index holding the key, at or after `low`; a miss is `-(length + 1)` |
| TypeSearch.Search | inspector-compiler/src/main/java/io/sweers/inspector/compiler/JavaInspectorProcessor.java:280-282 | a non-negative result indexes the key; a negative result is `-(length + 1)` |
| TypeSearch.GetTypeIndexInArray | inspector-compiler/src/main/java/io/sweers/inspector/compiler/JavaInspectorProcessor.java:280-282 | the binary-search loop on the array equals `Search`: a hit holds the key, and a miss is `-(length + 1)` |
| TypeSearch.FoundNotBeforeFirstProbe | inspector-compiler/src/main/java/io/sweers/inspector/compiler/JavaInspectorProcessor.java:281 | a hit is never left of the first probe `(low + n - 1) / 2` |
| TypeSearch.IndexZeroNeverFound | inspector-compiler/src/main/java/io/sweers/inspector/compiler/JavaInspectorProcessor.java:281 | with three or more type variables the result is never 0 |
| TypeSearch.LastIndexAlwaysFound | inspector-compiler/src/main/java/io/sweers/inspector/compiler/JavaInspectorProcessor.java:281 | a key in the last position is always found |
| TypeSearch.FirstOfThreeMissed | inspector-compiler/src/main/java/io/sweers/inspector/compiler/JavaInspectorProcessor.java:281 | `<A, B, C>` searched for `A` gives -4 |
| TypeSearch.SmallArraysFindEveryIndex | inspector-compiler/src/main/java/io/sweers/inspector/compiler/JavaInspectorProcessor.java:281 | with at most two type variables every present key is found |
| Extensions.Insert | inspector-compiler/src/main/java/io/sweers/inspector/compiler/JavaInspectorProcessor.java:264 | inserting a later extension keeps the order ascending by priority, with ties in iteration order, and adds exactly that element |
| Extensions.SortByPriority | inspector-compiler/src/main/java/io/sweers/inspector/compiler/JavaInspectorProcessor.java:264 | a stable priority order of exactly the first `n` extensions |
| Extensions.Sorted | inspector-compiler/src/main/java/io/sweers/inspector/compiler/JavaInspectorProcessor.java:263-264 | every extension once, ascending by priority, ties in iteration order |
| Extensions.Collect | inspector-compiler/src/main/java/io/sweers/inspector/compiler/JavaInspectorProcessor.java:265-271 | every contribution is the block its extension generated, from an applicable extension in the order |
| Extensions.CollectComplete | inspector-compiler/src/main/java/io/sweers/inspector/compiler/JavaInspectorProcessor.java:265-271 | every applicable extension in the order that returns a block contributes |
| Extensions.CollectAscending | inspector-compiler/src/main/java/io/sweers/inspector/compiler/JavaInspectorProcessor.java:263-271 | collecting along an ascending order keeps it ascending |
| Extensions.ContributionsSpec | inspector-compiler/src/main/java/io/sweers/inspector/compiler/JavaInspectorProcessor.java:263-272 | contributions are sound and complete, and in ascending priority with stable ties; a `null` block contributes nothing |
| NameAllocation.NameAllocator.constructor | inspector-compiler/src/main/java/io/sweers/inspector/compiler/JavaInspectorProcessor.java:251 | a new allocator has allocated no name |
| NameAllocation.NameAllocator.NewName | inspector-compiler/src/main/java/io/sweers/inspector/compiler/JavaInspectorProcessor.java:259 | the result is the shortest underscore extension of the suggestion that is neither a keyword nor taken, and only it is added |
| NameAllocation.ShorterTakenStep | inspector-compiler/src/main/java/io/sweers/inspector/compiler/JavaInspectorProcessor.java:259 | a taken or reserved name extended by one underscore keeps every shorter extension ruled out |
| Strategies.AnyUsesValidationQualifierIffSome | inspector-compiler/src/main/java/io/sweers/inspector/compiler/JavaInspectorProcessor.java:143-156 | `needsValidatorMethod` after the loop holds exactly when some accessor carries a `@ValidationQualifier` annotation |
| Strategies.Resolve | inspector-compiler/src/main/java/io/sweers/inspector/compiler/JavaInspectorProcessor.java:157-196 | a statement initialises the entry's own field; a report is the "No validator classes" error on the accessor; a wildcard failure is unrepresentable |
| Strategies.FirstApplicableStrategyWins | inspector-compiler/src/main/java/io/sweers/inspector/compiler/JavaInspectorProcessor.java:157-196 | the strategy used is the first that applies, and none before it applies; failures come from the wrapped or the default strategy |
| Strategies.ValidatedByOutcome | inspector-compiler/src/main/java/io/sweers/inspector/compiler/JavaInspectorProcessor.java:157-179 | `@ValidatedBy` with no class reports an error; with one class it emits `new C()`; with several it emits a composite of the distinct classes in first-occurrence order |
| Strategies.WrappedIndexOfNonVariableArgument | inspector-compiler/src/main/java/io/sweers/inspector/compiler/JavaInspectorProcessor.java:183-188 | a first type argument that is not a type variable gives the index `-(n + 1)` |
| Strategies.RunSteps | inspector-compiler/src/main/java/io/sweers/inspector/compiler/JavaInspectorProcessor.java:144-197 | no more steps than entries |
| Strategies.RunStepsStopsAtFirstFailure | inspector-compiler/src/main/java/io/sweers/inspector/compiler/JavaInspectorProcessor.java:144-197 | the entries resolve one by one, in order; the run covers all of them or ends at the first failure, with its error |
| Strategies.RunStepsAfterFailure | inspector-compiler/src/main/java/io/sweers/inspector/compiler/JavaInspectorProcessor.java:144-197 | after a failure, later entries change nothing |
| Strategies.ResolvesToSnoc | inspector-compiler/src/main/java/io/sweers/inspector/compiler/JavaInspectorProcessor.java:144-197 | the entries resolved one by one so far, plus the next one, are resolved |
| Strategies.RunStepsFromResolutions | inspector-compiler/src/main/java/io/sweers/inspector/compiler/JavaInspectorProcessor.java:144-197 | steps that resolve the entries in order, ending at the first failure or covering all entries, are the run |
| Strategies.Statements | inspector-compiler/src/main/java/io/sweers/inspector/compiler/JavaInspectorProcessor.java:166-195 | the constructor body is exactly the emitted statements |
| Strategies.Diagnostics | inspector-compiler/src/main/java/io/sweers/inspector/compiler/JavaInspectorProcessor.java:162-164 | the diagnostics are exactly the reported errors |
| Strategies.EveryStatementInitialisesItsField | inspector-compiler/src/main/java/io/sweers/inspector/compiler/JavaInspectorProcessor.java:144-197 | one step per entry; each statement assigns that entry's field; an entry reports exactly when its `@ValidatedBy` names no class |
| Strategies.ReportIffNoClasses | inspector-compiler/src/main/java/io/sweers/inspector/compiler/JavaInspectorProcessor.java:162-164 | a step is a report exactly when `@ValidatedBy` is present and names no class |
| Strategies.StatementsAndDiagnosticsCoverEntries | inspector-compiler/src/main/java/io/sweers/inspector/compiler/JavaInspectorProcessor.java:144-197 | each entry gives exactly one statement or one diagnostic |
| Generator.Entries | inspector-compiler/src/main/java/io/sweers/inspector/compiler/JavaInspectorProcessor.java:314-325 | one entry per property, in order, each with that property's field |
| Generator.EntriesSpec | inspector-compiler/src/main/java/io/sweers/inspector/compiler/JavaInspectorProcessor.java:317-322 | fields are named `humanName + "Validator"` and typed `Validator<T>`, with `T` never primitive: a primitive is boxed to its own kind, and any other type is kept |
| Generator.EntriesPrefixStep | inspector-compiler/src/main/java/io/sweers/inspector/compiler/JavaInspectorProcessor.java:316-323 | one more property appends exactly its own entry |
| Generator.CreateFields | inspector-compiler/src/main/java/io/sweers/inspector/compiler/JavaInspectorProcessor.java:314-325 | the loop builds exactly those entries |
| Generator.Validated | inspector-compiler/src/main/java/io/sweers/inspector/compiler/JavaInspectorProcessor.java:252-255 | exactly the entries whose property has `shouldValidate()` |
| Generator.ValidatedAppend | inspector-compiler/src/main/java/io/sweers/inspector/compiler/JavaInspectorProcessor.java:252-255 | the filter keeps field order: the validated entries of `a + b` are those of `a` followed by those of `b` |
| Generator.LocalNamesDistinct | inspector-compiler/src/main/java/io/sweers/inspector/compiler/JavaInspectorProcessor.java:251-259 | the locals of `validate` are pairwise distinct |
| Generator.LocalMayRedeclareParameter | inspector-compiler/src/main/java/io/sweers/inspector/compiler/JavaInspectorProcessor.java:241-259 | the first validated accessor named `value()`, at any position, gets the local `value`, the parameter's name, because the allocator is never told about the parameter |
| Generator.CreateValidationMethod | inspector-compiler/src/main/java/io/sweers/inspector/compiler/JavaInspectorProcessor.java:239-278 | parameter `value` of the target type; one block per validated property, in field order: a fresh local, the extension contributions, and the validate call on the field |
| Generator.CollectContributions | inspector-compiler/src/main/java/io/sweers/inspector/compiler/JavaInspectorProcessor.java:263-272 | the inner loop yields exactly the sorted, filtered, non-null contributions |
| Generator.ResolveEntry | inspector-compiler/src/main/java/io/sweers/inspector/compiler/JavaInspectorProcessor.java:145-196 | the annotation scan finds a qualifier exactly when there is one, and the branch chain gives the step of `Resolve` |
| Generator.ResolveAll | inspector-compiler/src/main/java/io/sweers/inspector/compiler/JavaInspectorProcessor.java:143-197 | the loop gives the run's error, diagnostics, statements and `needsValidatorMethod` |
| Generator.CreateValidator | inspector-compiler/src/main/java/io/sweers/inspector/compiler/JavaInspectorProcessor.java:122-215 | it fails exactly when the run fails, keeping the diagnostics reported so far; otherwise it gives the class built from the run and a `validate` that meets its specification |
| Generator.ValidatorClassShape | inspector-compiler/src/main/java/io/sweers/inspector/compiler/JavaInspectorProcessor.java:199-212 | name, superclass and one field per entry; the `types` parameter and type variables exactly for a generic target; the helper exactly when some accessor has a qualifier |
| Generator.ExtractProperties | inspector-compiler/src/main/java/io/sweers/inspector/compiler/JavaInspectorProcessor.java:83-84 | `readProperties` of `getProperties` is the extracted property list |
| Generator.TypeVariableArray | inspector-compiler/src/main/java/io/sweers/inspector/compiler/JavaInspectorProcessor.java:99-103 | a fresh array holding the type parameters' names in order |
| Generator.TargetTypes | inspector-compiler/src/main/java/io/sweers/inspector/compiler/JavaInspectorProcessor.java:86-105 | `C<T1..Tn>` and the array of type-variable names when the target has type parameters; otherwise the plain class name and no array |
| Generator.GenerateClass | inspector-compiler/src/main/java/io/sweers/inspector/compiler/JavaInspectorProcessor.java:82-120 | the class generated for the target's extracted properties, typed `C<T1..Tn>` when it has type parameters, in the target's package; it fails exactly when the loop fails |

## Left out

- **Writing the file.** `JavaFile.writeTo(filer)` and the wrapping of `IOException` are I/O. `GenerateClass` returns the package and the class instead.
- **Diagnostic presentation.** The `Messager` is not modelled, so a diagnostic is only recorded, as a message and the accessor's name.
- **Text and modifiers.** Rendering through JavaPoet (`TypeSpec`, `MethodSpec`, `CodeBlock` text and comments) is kept as structured values. Modifiers such as `PUBLIC`, `FINAL` and `@Override` are not recorded.
- **The `createAdapterMethod` body.** It is a fixed template of reflective code. Only whether this helper is added is modelled.
- **The `Property` class.** Its code is not part of this model. `humanName`, `shouldValidate` and the `@ValidatedBy` value are inputs carried by each element.
- **Extension output.** What an extension generates is an opaque input.
- **Extension iteration order.** The iteration order of the extension set is taken to be the given sequence. Ties in priority keep that order.
- **Name sanitising.** `NameAllocator`'s `toJavaIdentifier` sanitising and its tag map are not modelled. Accessor names are already Java identifiers. `newName(suggestion)` passes a fresh random UUID as the tag, which never collides with an earlier tag, so the tag map changes no outcome.
- **`Validator.java`.** It declares only the abstract `validate`, a `Factory` interface and `nullSafe`, so there is nothing to verify.
- **Identity of validator classes.** A `@ValidatedBy` class is identified by its qualified name. Mapping distinct declared types to one type element is not modelled.
- **Duplicate keys in `ImmutableMap`.** `ImmutableMap` refuses duplicate keys. The properties are distinct by method name, so this cannot happen, and the model does not check it.
- **The unreachable branch of `Arrays.binarySearch`.** The branch for a positive comparison cannot be taken with this comparator, so it is not modelled.
- Generator.CreateValidator: When the loop throws, the model does not describe the constructor statements built before the exception. They are never emitted, so only the diagnostics reported up to that point are kept.
- **Missing first type argument.** JavaPoet builds a parameterized type without type arguments for a non-static inner class of a parameterized outer type (`Outer<String>.Inner`). The model represents `typeArguments.get(0)` throwing on it as the failure `MissingTypeArgument`.
- **Type-variable bounds.** `TypeVariableName.get(typeParams.get(i))` keeps each type parameter's bounds, and `addTypeVariables` declares them on the generated class (`Validator_Foo<T extends Bound>`). The model records only the names (`typeVariables: seq<string>`), so the bounds on the generated class are not captured. The type-variable search compares names only, so it is unaffected.
- **Enclosing types.** `TypeNames.TypeName` has no enclosing-type part, so `Outer<A>.Inner<B>` cannot be expressed. The model therefore does not capture that `makeType` drops the outer type's arguments and emits `newParameterizedType(Outer.Inner.class, B.class)`.
