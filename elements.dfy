/**
 * Property extraction: `getProperties` collects the accessors of the target
 * class into a `LinkedHashMap` keyed by simple name, and `readProperties`
 * turns every entry whose return type is not `NoType` into a `Property`.
 * The javax.lang.model elements are plain records here.
 */
module Elements {
  import opened Wrappers
  import opened Seqs
  import opened TypeNames
  import opened Annotations

  datatype ElementKind = MethodKind | ConstructorKind | FieldKind | OtherKind

  datatype Modifier = Public | Protected | Private | Abstract | Default | Static | Final

  /** An annotation mirror, in terms of its annotation type: its qualified name
      and whether that type is itself annotated `@ValidationQualifier`. */
  datatype Annotation = Annotation(annotationType: string, isValidationQualifier: bool)

  datatype ReturnType = NoType | Returns(typeName: TypeName)

  /** An enclosed element of the target class. The last three fields are what
      the `Property` class derives from an accessor (its code is not part of
      this model): the human-readable name, whether the property is validated,
      and the "value" of its `@ValidatedBy` annotation, if any. */
  datatype Element = Element(
    kind: ElementKind,
    simpleName: string,
    modifiers: set<Modifier>,
    annotations: seq<Annotation>,
    returnType: ReturnType,
    humanName: string,
    shouldValidate: bool,
    validatedBy: Option<AnnotationValue>)

  const InspectorIgnored := "io.sweers.inspector.InspectorIgnored"

  predicate IsIgnored(e: Element) {
    exists i :: 0 <= i < |e.annotations| && e.annotations[i].annotationType == InspectorIgnored
  }

  /** The filter of `getProperties`: a method (`ElementFilter.methodsIn`) that is
      neither private nor static nor `@InspectorIgnored`. */
  predicate IsCandidate(e: Element) {
    e.kind == MethodKind && Private !in e.modifiers && Static !in e.modifiers && !IsIgnored(e)
  }

  datatype Property = Property(methodName: string, element: Element, typeName: TypeName) {
    function HumanName(): string { element.humanName }
    predicate ShouldValidate() { element.shouldValidate }
    function ValidatedByMirror(): Option<AnnotationValue> { element.validatedBy }
  }

  /** A `LinkedHashMap<String, ExecutableElement>`: keys in insertion order and
      the current value of each. */
  datatype LinkedMap = LinkedMap(keys: seq<string>, values: map<string, Element>) {
    ghost predicate Valid() {
      NoDuplicates(keys) && forall k :: k in values <==> k in keys
    }

    /** `put`: a new key goes to the end; an existing key keeps its position
        and takes the new value. */
    function Put(k: string, v: Element): (r: LinkedMap)
      requires Valid()
      ensures r.Valid()
    {
      if k in values then LinkedMap(keys, values[k := v]) else LinkedMap(keys + [k], values[k := v])
    }
  }

  /** The candidates among `ms`, in order. */
  function Candidates(ms: seq<Element>): (r: seq<Element>)
    ensures forall e :: e in r <==> e in ms && IsCandidate(e)
  {
    if ms == [] then []
    else Candidates(ms[..|ms| - 1]) + (if IsCandidate(ms[|ms| - 1]) then [ms[|ms| - 1]] else [])
  }

  /** The filter keeps declaration order: the candidates of a concatenation
      are those of its first part followed by those of its second. */
  lemma {:induction false} CandidatesAppend(a: seq<Element>, b: seq<Element>)
    ensures Candidates(a + b) == Candidates(a) + Candidates(b)
    decreases |b|
  {
    if b == [] {
      assert a + b == a;
    } else {
      var front := b[..|b| - 1];
      assert (a + b)[..|a + b| - 1] == a + front;
      assert (a + b)[|a + b| - 1] == b[|b| - 1];
      CandidatesAppend(a, front);
    }
  }

  function Names(es: seq<Element>): (r: seq<string>)
    ensures |r| == |es| && forall i :: 0 <= i < |es| ==> r[i] == es[i].simpleName
  {
    seq(|es|, i requires 0 <= i < |es| => es[i].simpleName)
  }

  /** The last element of `es` with simple name `k`. */
  function LastNamed(es: seq<Element>, k: string): (r: Option<Element>)
    ensures r.None? <==> k !in Names(es)
    ensures r.Some? ==> r.value in es && r.value.simpleName == k
  {
    if es == [] then None
    else if es[|es| - 1].simpleName == k then Some(es[|es| - 1])
    else
      var r := LastNamed(es[..|es| - 1], k);
      assert Names(es) == Names(es[..|es| - 1]) + [es[|es| - 1].simpleName];
      r
  }

  /** The map `put` builds from a sequence of candidates: one key per distinct
      name, in the order of first occurrence, holding the last candidate of
      that name. */
  function MapOfCandidates(cs: seq<Element>): (r: LinkedMap)
    ensures r.Valid()
  {
    LinkedMap(Dedup(Names(cs)), LastOfEachName(cs))
  }

  /** Each name of `cs` mapped to the last candidate of that name. */
  function LastOfEachName(cs: seq<Element>): (r: map<string, Element>)
    ensures forall k :: k in r <==> k in Names(cs)
  {
    map k | k in Names(cs) :: LastNamed(cs, k).value
  }

  /** Reference definition of the map `getProperties` builds. */
  function PropertyMapOf(ms: seq<Element>): (r: LinkedMap)
    ensures r.Valid()
  {
    MapOfCandidates(Candidates(ms))
  }

  lemma LastNamedSnoc(es: seq<Element>, e: Element, k: string)
    ensures LastNamed(es + [e], k) == if e.simpleName == k then Some(e) else LastNamed(es, k)
  {
    assert (es + [e])[..|es|] == es;
  }

  /** `LastNamed` finds the last element of that name: none comes after it. */
  lemma {:induction false} LastNamedIsLast(es: seq<Element>, k: string)
    requires k in Names(es)
    ensures exists i :: (0 <= i < |es| && es[i] == LastNamed(es, k).value && es[i].simpleName == k &&
      (forall j :: i < j < |es| ==> es[j].simpleName != k))
  {
    var n := |es| - 1;
    if es[n].simpleName == k {
      assert es[n] == LastNamed(es, k).value;
    } else {
      var front := es[..n];
      assert Names(es) == Names(front) + [es[n].simpleName];
      LastNamedIsLast(front, k);
      var i :| 0 <= i < |front| && front[i] == LastNamed(front, k).value && front[i].simpleName == k &&
        (forall j :: i < j < |front| ==> front[j].simpleName != k);
      assert LastNamed(es, k) == LastNamed(front, k);
      forall j | i < j < |es|
        ensures es[j].simpleName != k
      {
        if j < n {
          assert es[j] == front[j];
        }
      }
      assert es[i] == front[i];
    }
  }

  lemma NamesSnoc(cs: seq<Element>, e: Element)
    ensures Names(cs + [e]) == Names(cs) + [e.simpleName]
  {
  }

  lemma MapOfCandidatesKeysStep(cs: seq<Element>, e: Element)
    ensures MapOfCandidates(cs + [e]).keys == MapOfCandidates(cs).Put(e.simpleName, e).keys
  {
    var names, name := Names(cs), e.simpleName;
    NamesSnoc(cs, e);
    DedupSnoc(names, name);
    assert name in MapOfCandidates(cs).values <==> name in names;
  }

  lemma MapOfCandidatesValuesStep(cs: seq<Element>, e: Element)
    ensures LastOfEachName(cs + [e]) == LastOfEachName(cs)[e.simpleName := e]
  {
    NamesSnoc(cs, e);
    var after, updated := LastOfEachName(cs + [e]), LastOfEachName(cs)[e.simpleName := e];
    assert after.Keys == updated.Keys;
    forall k | k in after ensures after[k] == updated[k] {
      LastNamedSnoc(cs, e, k);
    }
  }

  /** Adding a candidate to the sequence is a `put` on its map. */
  lemma MapOfCandidatesStep(cs: seq<Element>, e: Element)
    ensures MapOfCandidates(cs + [e]) == MapOfCandidates(cs).Put(e.simpleName, e)
  {
    MapOfCandidatesKeysStep(cs, e);
    MapOfCandidatesValuesStep(cs, e);
  }

  lemma PropertyMapStep(ms: seq<Element>, e: Element)
    ensures PropertyMapOf(ms + [e]) ==
      if IsCandidate(e) then PropertyMapOf(ms).Put(e.simpleName, e) else PropertyMapOf(ms)
  {
    assert (ms + [e])[..|ms|] == ms;
    if IsCandidate(e) {
      assert Candidates(ms + [e]) == Candidates(ms) + [e];
      MapOfCandidatesStep(Candidates(ms), e);
    } else {
      assert Candidates(ms + [e]) == Candidates(ms);
    }
  }

  /** The map of one more enclosed element, as `PropertyMapStep` gives it. */
  lemma PropertyMapPrefixStep(ms: seq<Element>, i: nat)
    requires i < |ms|
    ensures PropertyMapOf(ms[..i + 1]) ==
      if IsCandidate(ms[i]) then PropertyMapOf(ms[..i]).Put(ms[i].simpleName, ms[i]) else PropertyMapOf(ms[..i])
  {
    assert ms[..i + 1] == ms[..i] + [ms[i]];
    PropertyMapStep(ms[..i], ms[i]);
  }

  /** `getProperties(targetClass)` over the class's enclosed elements. */
  method GetProperties(enclosed: seq<Element>) returns (properties: LinkedMap)
    ensures properties == PropertyMapOf(enclosed)
  {
    properties := LinkedMap([], map[]);
    var i := 0;
    while i < |enclosed|
      invariant 0 <= i <= |enclosed|
      invariant properties == PropertyMapOf(enclosed[..i])
    {
      var element := enclosed[i];
      PropertyMapPrefixStep(enclosed, i);
      if element.kind == MethodKind && Private !in element.modifiers && Static !in element.modifiers
        && !IsIgnored(element)
      {
        properties := properties.Put(element.simpleName, element);
      }
      i := i + 1;
    }
    assert enclosed[..i] == enclosed;
  }

  /** The properties `readProperties` makes of the map's entries, in key order:
      every entry whose value returns a type (not `NoType`). */
  function PropertiesFrom(keys: seq<string>, values: map<string, Element>): (r: seq<Property>)
    requires forall k :: k in keys ==> k in values
    ensures forall i :: 0 <= i < |r| ==>
      && r[i].methodName in keys
      && r[i].element == values[r[i].methodName]
      && r[i].element.returnType == Returns(r[i].typeName)
  {
    if keys == [] then []
    else
      var prefix, k := keys[..|keys| - 1], keys[|keys| - 1];
      PropertiesFrom(prefix, values) + match values[k].returnType {
        case NoType => []
        case Returns(t) => [Property(k, values[k], t)]
      }
  }

  /** No entry that returns a type is dropped. */
  lemma {:induction false} PropertiesFromComplete(keys: seq<string>, values: map<string, Element>, k: string)
    requires forall k :: k in keys ==> k in values
    requires k in keys && values[k].returnType.Returns?
    ensures exists i :: 0 <= i < |PropertiesFrom(keys, values)| && PropertiesFrom(keys, values)[i].methodName == k
  {
    var r := PropertiesFrom(keys, values);
    var prefix, last := keys[..|keys| - 1], keys[|keys| - 1];
    assert keys == prefix + [last];
    var front := PropertiesFrom(prefix, values);
    if k == last {
      assert r[|front|].methodName == k;
    } else {
      assert k in prefix;
      PropertiesFromComplete(prefix, values, k);
      var i :| 0 <= i < |front| && front[i].methodName == k;
      assert r[i] == front[i];
    }
  }

  /** With distinct keys, the properties follow the key order. */
  lemma {:induction false} PropertiesFromOrdered(keys: seq<string>, values: map<string, Element>)
    requires forall k :: k in keys ==> k in values
    requires NoDuplicates(keys)
    ensures forall i, j :: 0 <= i < j < |PropertiesFrom(keys, values)| ==>
      FirstIndex(keys, PropertiesFrom(keys, values)[i].methodName) <
      FirstIndex(keys, PropertiesFrom(keys, values)[j].methodName)
  {
    if keys != [] {
      var r := PropertiesFrom(keys, values);
      var prefix, last := keys[..|keys| - 1], keys[|keys| - 1];
      assert keys == prefix + [last];
      var front := PropertiesFrom(prefix, values);
      PropertiesFromOrdered(prefix, values);
      forall p | p in prefix ensures FirstIndex(keys, p) == FirstIndex(prefix, p) {
        FirstIndexOfPrefix(prefix, [last], p);
      }
      assert FirstIndex(keys, last) == |prefix| && last !in prefix;
      forall i, j | 0 <= i < j < |r|
        ensures FirstIndex(keys, r[i].methodName) < FirstIndex(keys, r[j].methodName)
      {
        assert r[i] == front[i] && front[i].methodName in prefix;
        assert FirstIndex(keys, r[i].methodName) == FirstIndex(prefix, r[i].methodName) < |prefix|;
        if j < |front| {
          assert r[j] == front[j] && front[j].methodName in prefix;
          assert FirstIndex(keys, r[j].methodName) == FirstIndex(prefix, r[j].methodName);
          assert FirstIndex(prefix, front[i].methodName) < FirstIndex(prefix, front[j].methodName);
        } else {
          assert r[j].methodName == last;
        }
      }
    }
  }

  /** `readProperties(propertiesMap)` */
  method ReadProperties(properties: LinkedMap) returns (values: seq<Property>)
    requires properties.Valid()
    ensures values == PropertiesFrom(properties.keys, properties.values)
  {
    values := [];
    var i := 0;
    while i < |properties.keys|
      invariant 0 <= i <= |properties.keys|
      invariant values == PropertiesFrom(properties.keys[..i], properties.values)
    {
      var key := properties.keys[i];
      var element := properties.values[key];
      assert properties.keys[..i + 1][..i] == properties.keys[..i];
      if element.returnType.NoType? {
        // an entry without a return type yields no property
      } else {
        values := values + [Property(key, element, element.returnType.typeName)];
      }
      i := i + 1;
    }
    assert properties.keys[..i] == properties.keys;
  }

  /** The properties extracted from the enclosed elements `ms`. */
  function Extracted(ms: seq<Element>): seq<Property> {
    PropertiesFrom(PropertyMapOf(ms).keys, PropertyMapOf(ms).values)
  }

  /** Every extracted property holds the last candidate of its name, and its
      type is that candidate's return type. */
  lemma ExtractedAreLastCandidates(ms: seq<Element>)
    ensures var cs, props := Candidates(ms), Extracted(ms);
      forall i :: 0 <= i < |props| ==>
        && props[i].element in ms && IsCandidate(props[i].element)
        && props[i].methodName in Names(cs)
        && LastNamed(cs, props[i].methodName) == Some(props[i].element)
        && props[i].element.returnType == Returns(props[i].typeName)
  {
    var m := PropertyMapOf(ms);
    assert forall k :: k in m.keys <==> k in Names(Candidates(ms));
  }

  /** A name yields a property exactly when its last candidate
      returns a type: a `NoType` entry is dropped even when an earlier
      candidate of that name returned one, since `put` replaced it. */
  lemma ExtractedComplete(ms: seq<Element>, k: string)
    ensures var cs, props := Candidates(ms), Extracted(ms);
      (exists i :: 0 <= i < |props| && props[i].methodName == k) <==>
        LastNamed(cs, k).Some? && LastNamed(cs, k).value.returnType.Returns?
  {
    var cs := Candidates(ms);
    var m := PropertyMapOf(ms);
    if LastNamed(cs, k).Some? && LastNamed(cs, k).value.returnType.Returns? {
      assert k in m.keys && m.values[k].returnType.Returns?;
      PropertiesFromComplete(m.keys, m.values, k);
    }
  }

  /** The properties come in the order in which their names first occur among
      the candidates. */
  lemma ExtractedInFirstOccurrenceOrder(ms: seq<Element>)
    ensures var cs, props := Candidates(ms), Extracted(ms);
      forall i, j :: 0 <= i < j < |props| ==>
        FirstIndex(Names(cs), props[i].methodName) < FirstIndex(Names(cs), props[j].methodName)
  {
    var cs := Candidates(ms);
    var m := PropertyMapOf(ms);
    var props := Extracted(ms);
    PropertiesFromOrdered(m.keys, m.values);
    forall i, j | 0 <= i < j < |props|
      ensures FirstIndex(Names(cs), props[i].methodName) < FirstIndex(Names(cs), props[j].methodName)
    {
      DedupPreservesOrder(Names(cs), props[i].methodName, props[j].methodName);
    }
  }
}
