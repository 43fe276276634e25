/**
 * JavaPoet's `TypeName` hierarchy, as far as the validator generator looks
 * into it: primitives, class names, parameterized types, wildcards, type
 * variables and arrays.
 */
module TypeNames {
  import opened Wrappers

  datatype PrimitiveKind = Boolean | Byte | Short | Int | Long | Char | Float | Double

  datatype TypeName =
    | Primitive(kind: PrimitiveKind)
    | ClassName(qualifiedName: string)
    | Parameterized(rawType: string, typeArguments: seq<TypeName>)
    | Wildcard(upperBounds: seq<TypeName>, lowerBounds: seq<TypeName>)
    | TypeVariable(name: string)
    | ArrayType(componentType: TypeName)

  const ObjectClass := ClassName("java.lang.Object")

  /** The qualified name of `io.sweers.inspector.Validator`. */
  const ValidatorClassName := "io.sweers.inspector.Validator"

  /** The wrapper class of each primitive kind. */
  function BoxedName(k: PrimitiveKind): string {
    match k
    case Boolean => "java.lang.Boolean"
    case Byte => "java.lang.Byte"
    case Short => "java.lang.Short"
    case Int => "java.lang.Integer"
    case Long => "java.lang.Long"
    case Char => "java.lang.Character"
    case Float => "java.lang.Float"
    case Double => "java.lang.Double"
  }

  /** The primitive kind a wrapper class stands for, if it is one. */
  function Unbox(t: TypeName): Option<PrimitiveKind> {
    if t == ClassName(BoxedName(Boolean)) then Some(Boolean)
    else if t == ClassName(BoxedName(Byte)) then Some(Byte)
    else if t == ClassName(BoxedName(Short)) then Some(Short)
    else if t == ClassName(BoxedName(Int)) then Some(Int)
    else if t == ClassName(BoxedName(Long)) then Some(Long)
    else if t == ClassName(BoxedName(Char)) then Some(Char)
    else if t == ClassName(BoxedName(Float)) then Some(Float)
    else if t == ClassName(BoxedName(Double)) then Some(Double)
    else None
  }

  /** `TypeName.box()` applied where `isPrimitive()` holds: a primitive becomes
      its wrapper class, every other type is left as it is. */
  function Box(t: TypeName): (r: TypeName)
    ensures !r.Primitive?
    ensures t.Primitive? ==> r.ClassName? && Unbox(r) == Some(t.kind)
    ensures !t.Primitive? ==> r == t
  {
    if t.Primitive? then ClassName(BoxedName(t.kind)) else t
  }
}
