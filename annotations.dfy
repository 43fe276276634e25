/**
 * `getValueFieldOfClasses`: the classes named by the `Class[]`-typed "value"
 * of a `@ValidatedBy` annotation, collected by an annotation-value visitor
 * into `ImmutableSet`s.
 */
module Annotations {
  import opened Seqs

  /** An annotation value as the visitor meets it: a class literal (visitType),
      whose declared type is identified by its class, or an array of values
      (visitArray). */
  datatype AnnotationValue =
    | ClassValue(className: string)
    | ArrayValue(values: seq<AnnotationValue>)

  /** The visitor: a class literal gives a one-element set; an array gives the
      flattened sets of its elements, collected into one `ImmutableSet`. */
  function ValueFieldOfClasses(v: AnnotationValue): (r: seq<string>)
    ensures NoDuplicates(r)
    decreases v, 1
  {
    match v
    case ClassValue(c) => [c]
    case ArrayValue(values) => Dedup(FlatMap(values))
  }

  /** `values.stream().flatMap(value -> value.accept(this, null).stream())` */
  function FlatMap(values: seq<AnnotationValue>): seq<string>
    decreases values, 0
  {
    if values == [] then [] else ValueFieldOfClasses(values[0]) + FlatMap(values[1..])
  }

  /** Reference: every class literal written in the value, in source order,
      repeats included. */
  function ClassLiterals(v: AnnotationValue): seq<string>
    decreases v, 1
  {
    match v
    case ClassValue(c) => [c]
    case ArrayValue(values) => ClassLiteralsOfAll(values)
  }

  function ClassLiteralsOfAll(values: seq<AnnotationValue>): seq<string>
    decreases values, 0
  {
    if values == [] then [] else ClassLiterals(values[0]) + ClassLiteralsOfAll(values[1..])
  }

  /** Collecting sets level by level keeps the first occurrence of each class
      in the whole tree, as one collection of all literals would. */
  lemma {:induction false} ValueFieldIsDedupOfLiterals(v: AnnotationValue)
    ensures ValueFieldOfClasses(v) == Dedup(ClassLiterals(v))
    decreases v, 1
  {
    match v
    case ClassValue(c) =>
      var none: set<string> := {};
      assert [c][1..] == [] && c !in none && none + {c} == {c};
      assert DedupAfter({c}, []) == [];
      assert DedupAfter(none, [c]) == [c] + DedupAfter({c}, [c][1..]);
    case ArrayValue(values) =>
      FlatMapDedup({}, values);
  }

  lemma {:induction false} FlatMapDedup(seen: set<string>, values: seq<AnnotationValue>)
    ensures DedupAfter(seen, FlatMap(values)) == DedupAfter(seen, ClassLiteralsOfAll(values))
    decreases values, 0
  {
    if values != [] {
      var head, rest := values[0], values[1..];
      var found := ValueFieldOfClasses(head);
      var literals := ClassLiterals(head);
      ValueFieldIsDedupOfLiterals(head);
      DedupAfterAppend(seen, found, FlatMap(rest));
      DedupAfterTwice(seen, {}, literals);
      assert seen + {} == seen;
      assert ToSet(found) == ToSet(literals);
      FlatMapDedup(seen + ToSet(literals), rest);
      DedupAfterAppend(seen, literals, ClassLiteralsOfAll(rest));
    }
  }

  /** `getValueFieldOfClasses(validatedBy).stream().map(MoreTypes::asTypeElement)
      .collect(toImmutableSet())`: each class named in the value once, in the
      order of first occurrence. */
  function ValidatorClasses(v: AnnotationValue): (r: seq<string>)
    ensures r == Dedup(ClassLiterals(v))
    ensures NoDuplicates(r)
    ensures forall c :: c in r <==> c in ClassLiterals(v)
    ensures forall i, j :: 0 <= i < j < |r| ==>
      FirstIndex(ClassLiterals(v), r[i]) < FirstIndex(ClassLiterals(v), r[j])
  {
    ValueFieldIsDedupOfLiterals(v);
    DedupIdempotent(ClassLiterals(v));
    DedupKeepsFirstOccurrenceOrder(ClassLiterals(v));
    Dedup(ValueFieldOfClasses(v))
  }
}
