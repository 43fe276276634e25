/**
 * `makeType`: the encoder of a `TypeName` into the Java expression that builds
 * the matching `java.lang.reflect.Type` at run time, used by the default
 * validator lookup. Tokens are kept as a tree; rendering them to text is not
 * part of this model.
 */
module TypeTokens {
  import opened Wrappers
  import opened TypeNames

  datatype TypeToken =
      /** `T.class` */
    | ClassLiteral(target: TypeName)
      /** `Types.newParameterizedType(R.class, a1, …, an)` */
    | NewParameterizedType(rawType: string, arguments: seq<TypeToken>)
      /** `Types.subtypeOf(B.class)` */
    | SubtypeOf(bound: TypeName)
      /** `Types.supertypeOf(B.class)` */
    | SupertypeOf(bound: TypeName)

  /** A wildcard that `makeType` refuses with IllegalArgumentException: it has
      neither exactly one lower bound nor exactly one upper bound. */
  predicate IsUnrepresentable(w: TypeName) {
    w.Wildcard? && |w.lowerBounds| != 1 && |w.upperBounds| != 1
  }

  /** `makeType(type)`; a failure carries the wildcard named in the exception. */
  function MakeType(t: TypeName): (r: Result<TypeToken, TypeName>)
    ensures r.Failure? ==> IsUnrepresentable(r.error)
    ensures r.Success? && t.Parameterized? ==>
      && r.value.NewParameterizedType?
      && r.value.rawType == t.rawType
      && |r.value.arguments| == |t.typeArguments|
    decreases t, 1
  {
    if t.Parameterized? then
      var arguments :- MakeArguments(t.typeArguments);
      Success(NewParameterizedType(t.rawType, arguments))
    else
      Success(ClassLiteral(t))
  }

  /** One iteration of the loop over the type arguments: only parameterized
      arguments are encoded recursively; a wildcard is tested for one lower
      bound first and for one upper bound second. */
  function MakeArgument(a: TypeName): (r: Result<TypeToken, TypeName>)
    ensures r.Failure? ==> IsUnrepresentable(r.error)
    decreases a, 2
  {
    match a
    case Parameterized(_, _) => MakeType(a)
    case Wildcard(upper, lower) =>
      if |lower| == 1 then Success(SupertypeOf(lower[0]))
      else if |upper| == 1 then Success(SubtypeOf(upper[0]))
      else Failure(a)
    case _ => Success(ClassLiteral(a))
  }

  /** The loop over the type arguments, left to right; the first failure
      aborts it. */
  function MakeArguments(args: seq<TypeName>): (r: Result<seq<TypeToken>, TypeName>)
    ensures r.Success? ==> |r.value| == |args|
    ensures r.Failure? ==> IsUnrepresentable(r.error)
    decreases args, 0
  {
    if args == [] then Success([])
    else
      var head :- MakeArgument(args[0]);
      var tail :- MakeArguments(args[1..]);
      Success([head] + tail)
  }

  /** The loop over the type arguments encodes them position by position:
      on success the token at `i` is the encoding of argument `i`; on
      failure the error is that of the first argument that fails, and every
      argument before it was encoded. */
  lemma {:induction false} MakeArgumentsPointwise(args: seq<TypeName>)
    ensures var r := MakeArguments(args);
      && (r.Success? ==> forall i :: 0 <= i < |args| ==> MakeArgument(args[i]) == Success(r.value[i]))
      && (r.Failure? ==>
            exists i :: (0 <= i < |args| && MakeArgument(args[i]) == Failure(r.error) &&
              forall j :: 0 <= j < i ==> MakeArgument(args[j]).Success?))
  {
    if args != [] {
      var r, head, tail := MakeArguments(args), MakeArgument(args[0]), MakeArguments(args[1..]);
      MakeArgumentsPointwise(args[1..]);
      if head.Success? {
        if tail.Success? {
          assert r.value == [head.value] + tail.value;
          forall i | 0 <= i < |args| ensures MakeArgument(args[i]) == Success(r.value[i]) {
            if 0 < i {
              assert args[i] == args[1..][i - 1];
            }
          }
        } else {
          var k :| 0 <= k < |args[1..]| && MakeArgument(args[1..][k]) == Failure(tail.error) &&
            forall j :: 0 <= j < k ==> MakeArgument(args[1..][j]).Success?;
          assert args[k + 1] == args[1..][k];
          forall j | 0 <= j < k + 1 ensures MakeArgument(args[j]).Success? {
            if 0 < j {
              assert args[j] == args[1..][j - 1];
            }
          }
        }
      }
    }
  }

  /** `w` is an argument that `makeType` reaches inside `t`: an argument of
      `t`, or one reached inside a parameterized argument of `t`. */
  predicate Reaches(t: TypeName, w: TypeName)
    decreases t
  {
    t.Parameterized? &&
    exists i :: (0 <= i < |t.typeArguments| && (t.typeArguments[i] == w || Reaches(t.typeArguments[i], w)))
  }

  /** The wildcard `makeType` refuses is one it meets inside its input. */
  lemma {:induction false} MakeTypeFailsAtReachedWildcard(t: TypeName)
    ensures MakeType(t).Failure? ==> Reaches(t, MakeType(t).error)
    decreases t
  {
    if t.Parameterized? && MakeType(t).Failure? {
      MakeArgumentsPointwise(t.typeArguments);
      var i :| 0 <= i < |t.typeArguments| && MakeArgument(t.typeArguments[i]) == Failure(MakeType(t).error) &&
        forall j :: 0 <= j < i ==> MakeArgument(t.typeArguments[j]).Success?;
      var a := t.typeArguments[i];
      if a.Parameterized? {
        MakeTypeFailsAtReachedWildcard(a);
      }
    }
  }

  /** Reference definition of the types `makeType` accepts: no argument the
      encoder reaches is an unrepresentable wildcard. */
  predicate Representable(t: TypeName)
    decreases t, 1
  {
    t.Parameterized? ==>
      forall i :: 0 <= i < |t.typeArguments| ==> ArgumentRepresentable(t.typeArguments[i])
  }

  predicate ArgumentRepresentable(a: TypeName)
    decreases a, 2
  {
    match a
    case Parameterized(_, _) => Representable(a)
    case Wildcard(_, _) => !IsUnrepresentable(a)
    case _ => true
  }

  lemma {:induction false} MakeTypeSucceedsIffRepresentable(t: TypeName)
    ensures MakeType(t).Success? <==> Representable(t)
    decreases t, 1
  {
    if t.Parameterized? {
      MakeArgumentsSucceedIffRepresentable(t.typeArguments);
    }
  }

  lemma {:induction false} MakeArgumentSucceedsIffRepresentable(a: TypeName)
    ensures MakeArgument(a).Success? <==> ArgumentRepresentable(a)
    decreases a, 2
  {
    if a.Parameterized? {
      MakeTypeSucceedsIffRepresentable(a);
    }
  }

  lemma {:induction false} MakeArgumentsSucceedIffRepresentable(args: seq<TypeName>)
    ensures MakeArguments(args).Success? <==>
      forall i :: 0 <= i < |args| ==> ArgumentRepresentable(args[i])
    decreases args, 0
  {
    if args != [] {
      MakeArgumentSucceedsIffRepresentable(args[0]);
      MakeArgumentsSucceedIffRepresentable(args[1..]);
      assert forall i :: 1 <= i < |args| ==> args[i] == args[1..][i - 1];
    }
  }

  /** The type a token constructs at run time: `Types.subtypeOf(B)` is
      `? extends B`, and `Types.supertypeOf(B)` is `? super B`, whose upper
      bound is `Object`. */
  function Denotation(tok: TypeToken): TypeName {
    match tok
    case ClassLiteral(t) => t
    case NewParameterizedType(raw, args) =>
      Parameterized(raw, seq(|args|, i requires 0 <= i < |args| => Denotation(args[i])))
    case SubtypeOf(b) => Wildcard([b], [])
    case SupertypeOf(b) => Wildcard([ObjectClass], [b])
  }

  /** The types `X` for which `X.class` is a legal Java class literal: a
      class, a primitive, or an array of one of those. A type variable, a
      parameterized type or a wildcard has no class literal. */
  predicate HasClassLiteral(t: TypeName) {
    match t
    case ClassName(_) => true
    case Primitive(_) => true
    case ArrayType(component) => HasClassLiteral(component)
    case _ => false
  }

  /** A token whose every `X.class` is a legal class literal, so that the
      generated Java compiles. */
  predicate LegalToken(tok: TypeToken) {
    match tok
    case ClassLiteral(t) => HasClassLiteral(t)
    case NewParameterizedType(_, args) => forall i :: 0 <= i < |args| ==> LegalToken(args[i])
    case SubtypeOf(b) => HasClassLiteral(b)
    case SupertypeOf(b) => HasClassLiteral(b)
  }

  /** The types `makeType` can encode faithfully: every wildcard is one Java
      source can write, as JavaPoet represents it (`?` and `? extends B`
      carry one upper bound and no lower bound, `? super B` carries the upper
      bound `Object` and the lower bound `B`), and every type that ends up
      as `X.class` (the type itself when it is not parameterized, an argument
      that is neither parameterized nor a wildcard, a wildcard's bound) has a
      class literal. */
  predicate Canonical(t: TypeName)
    decreases t, 1
  {
    if t.Parameterized? then
      forall i :: 0 <= i < |t.typeArguments| ==> CanonicalArgument(t.typeArguments[i])
    else
      HasClassLiteral(t)
  }

  predicate CanonicalArgument(a: TypeName)
    decreases a, 2
  {
    match a
    case Parameterized(_, _) => Canonical(a)
    case Wildcard(upper, lower) =>
      || (|lower| == 0 && |upper| == 1 && HasClassLiteral(upper[0]))
      || (|lower| == 1 && upper == [ObjectClass] && HasClassLiteral(lower[0]))
    case _ => HasClassLiteral(a)
  }

  /** The token `makeType` emits has only legal class literals and
      constructs exactly the type it was given. */
  lemma {:induction false} MakeTypeDenotesItsInput(t: TypeName)
    requires Canonical(t)
    ensures MakeType(t).Success? && LegalToken(MakeType(t).value) && Denotation(MakeType(t).value) == t
    decreases t, 1
  {
    if t.Parameterized? {
      MakeArgumentsDenoteTheirInputs(t.typeArguments);
      var tokens := MakeArguments(t.typeArguments).value;
      var back := seq(|tokens|, i requires 0 <= i < |tokens| => Denotation(tokens[i]));
      assert back == t.typeArguments;
    }
  }

  lemma {:induction false} MakeArgumentDenotesItsInput(a: TypeName)
    requires CanonicalArgument(a)
    ensures MakeArgument(a).Success? && LegalToken(MakeArgument(a).value) && Denotation(MakeArgument(a).value) == a
    decreases a, 2
  {
    if a.Parameterized? {
      MakeTypeDenotesItsInput(a);
    }
  }

  lemma {:induction false} MakeArgumentsDenoteTheirInputs(args: seq<TypeName>)
    requires forall i :: 0 <= i < |args| ==> CanonicalArgument(args[i])
    ensures MakeArguments(args).Success?
    ensures forall i :: 0 <= i < |args| ==>
      LegalToken(MakeArguments(args).value[i]) && Denotation(MakeArguments(args).value[i]) == args[i]
    decreases args, 0
  {
    if args != [] {
      MakeArgumentDenotesItsInput(args[0]);
      assert forall i :: 0 <= i < |args| - 1 ==> args[1..][i] == args[i + 1];
      MakeArgumentsDenoteTheirInputs(args[1..]);
    }
  }

  /** A wildcard with one upper and one lower bound is not refused: the lower
      bound is tested first and wins. */
  lemma DoublyBoundedWildcardUsesLowerBound(raw: string, upper: TypeName, lower: TypeName)
    ensures MakeType(Parameterized(raw, [Wildcard([upper], [lower])]))
         == Success(NewParameterizedType(raw, [SupertypeOf(lower)]))
  {
    var args := [Wildcard([upper], [lower])];
    assert args[1..] == [] && MakeArguments([]) == Success([]);
    assert MakeArgument(args[0]) == Success(SupertypeOf(lower));
    var tail := MakeArguments(args[1..]);
    assert tail.Success? && tail.value == [];
    assert MakeArguments(args).Success? && MakeArguments(args).value == [SupertypeOf(lower)];
  }

  /** A wildcard bound is written as a class literal and never encoded
      recursively, even when it is itself parameterized. */
  lemma {:induction false} WildcardBoundsAreNotEncoded(raw: string, bound: TypeName)
    ensures MakeType(Parameterized(raw, [Wildcard([bound], [])]))
         == Success(NewParameterizedType(raw, [SubtypeOf(bound)]))
  {
    var args := [Wildcard([bound], [])];
    assert args[1..] == [] && MakeArguments([]) == Success([]);
    assert MakeArgument(args[0]) == Success(SubtypeOf(bound));
    var tail := MakeArguments(args[1..]);
    assert tail.Success? && tail.value == [];
    assert MakeArguments(args).Success? && MakeArguments(args).value == [SubtypeOf(bound)];
  }

  /** A type-variable argument is written as `T.class`, which is no legal
      class literal. */
  lemma TypeVariableArgumentIsIllegalLiteral(raw: string, name: string)
    ensures MakeType(Parameterized(raw, [TypeVariable(name)]))
         == Success(NewParameterizedType(raw, [ClassLiteral(TypeVariable(name))]))
    ensures !LegalToken(NewParameterizedType(raw, [ClassLiteral(TypeVariable(name))]))
  {
    var args := [TypeVariable(name)];
    assert args[1..] == [] && MakeArguments([]) == Success([]);
    assert MakeArgument(args[0]) == Success(ClassLiteral(TypeVariable(name)));
    var tail := MakeArguments(args[1..]);
    assert tail.Success? && tail.value == [];
    assert MakeArguments(args).Success? && MakeArguments(args).value == [ClassLiteral(TypeVariable(name))];
    assert [ClassLiteral(TypeVariable(name))][0] == ClassLiteral(TypeVariable(name));
    assert !HasClassLiteral(TypeVariable(name));
  }

  /** A parameterized wildcard bound, as in `List<? extends Map<K, V>>`, is
      written as `Map<K, V>.class`, which is no legal class literal. */
  lemma ParameterizedBoundIsIllegalLiteral(raw: string, boundRaw: string, boundArgs: seq<TypeName>)
    ensures var bound := Parameterized(boundRaw, boundArgs);
      && MakeType(Parameterized(raw, [Wildcard([bound], [])])) == Success(NewParameterizedType(raw, [SubtypeOf(bound)]))
      && !LegalToken(NewParameterizedType(raw, [SubtypeOf(bound)]))
  {
    var bound := Parameterized(boundRaw, boundArgs);
    WildcardBoundsAreNotEncoded(raw, bound);
    assert [SubtypeOf(bound)][0] == SubtypeOf(bound);
  }

  /** An array of a type variable, `T[]`, is written as `T[].class`, which is
      no legal class literal. */
  lemma TypeVariableArrayIsIllegalLiteral(name: string)
    ensures MakeType(ArrayType(TypeVariable(name))) == Success(ClassLiteral(ArrayType(TypeVariable(name))))
    ensures !LegalToken(ClassLiteral(ArrayType(TypeVariable(name))))
  {
    assert !HasClassLiteral(TypeVariable(name));
  }
}
