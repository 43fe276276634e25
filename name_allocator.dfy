/**
 * JavaPoet's `NameAllocator`, as `createValidationMethod` uses it: each
 * `newName(suggestion)` appends `_` to the suggestion until the result is
 * neither a Java keyword nor already allocated, and records it.
 */
module NameAllocation {

  /** The words `SourceVersion.isKeyword` rejects, by length. */
  function KeywordsOfLength(n: nat): set<string> {
    match n
    case 1 => {"_"}
    case 2 => {"do", "if"}
    case 3 => {"for", "int", "new", "try"}
    case 4 => {"byte", "case", "char", "else", "enum", "goto", "long", "this", "void", "true", "null"}
    case 5 => {"break", "catch", "class", "const", "final", "float", "short", "super", "throw", "while", "false"}
    case 6 => {"assert", "double", "import", "native", "public", "return", "static", "switch", "throws"}
    case 7 => {"boolean", "default", "extends", "finally", "package", "private"}
    case 8 => {"abstract", "continue", "strictfp", "volatile"}
    case 9 => {"interface", "protected", "transient"}
    case 10 => {"implements", "instanceof"}
    case 12 => {"synchronized"}
    case _ => {}
  }

  predicate IsKeyword(s: string) {
    s in KeywordsOfLength(|s|)
  }

  /** All keywords: none is longer than 12 characters. */
  function AllKeywords(): (r: set<string>)
    ensures forall s :: IsKeyword(s) ==> s in r
  {
    var r := set n, s | 0 <= n <= 12 && s in KeywordsOfLength(n) :: s;
    assert forall s :: IsKeyword(s) ==> |s| <= 12 && s in KeywordsOfLength(|s|);
    r
  }

  /** `n` underscores. */
  function Underscores(n: nat): (r: string)
    ensures |r| == n && forall i :: 0 <= i < n ==> r[i] == '_'
  {
    if n == 0 then "" else Underscores(n - 1) + "_"
  }

  /** `name` is `suggestion` followed by underscores only. */
  predicate DerivedFrom(name: string, suggestion: string) {
    |suggestion| <= |name| && name == suggestion + Underscores(|name| - |suggestion|)
  }

  /** Every extension of `suggestion` shorter than `name` is a keyword or in
      `taken`. */
  predicate ShorterTaken(taken: set<string>, suggestion: string, name: string) {
    forall n :: 0 <= n < |name| - |suggestion| ==>
      var shorter := suggestion + Underscores(n);
      shorter in taken || IsKeyword(shorter)
  }

  /** Passing over a taken candidate keeps both facts for the next one. */
  lemma ShorterTakenStep(taken: set<string>, suggestion: string, name: string)
    requires DerivedFrom(name, suggestion) && ShorterTaken(taken, suggestion, name)
    requires name in taken || IsKeyword(name)
    ensures DerivedFrom(name + "_", suggestion) && ShorterTaken(taken, suggestion, name + "_")
  {
    var k := |name| - |suggestion|;
    assert Underscores(k + 1) == Underscores(k) + "_";
    assert name + "_" == suggestion + Underscores(k + 1);
    forall n | 0 <= n < |name + "_"| - |suggestion|
      ensures var shorter := suggestion + Underscores(n); shorter in taken || IsKeyword(shorter)
    {
      if n == k {
        assert suggestion + Underscores(n) == name;
      }
    }
  }

  class NameAllocator {
    var allocatedNames: set<string>

    constructor()
      ensures allocatedNames == {}
    {
      allocatedNames := {};
    }

    /** `newName(suggestion)`: the shortest underscore extension of the
        suggestion that is neither a keyword nor taken, now taken. */
    method NewName(suggestion: string) returns (name: string)
      modifies this
      ensures name !in old(allocatedNames) && !IsKeyword(name)
      ensures allocatedNames == old(allocatedNames) + {name}
      ensures DerivedFrom(name, suggestion)
      ensures forall n :: 0 <= n < |name| - |suggestion| ==>
        var shorter := suggestion + Underscores(n);
        shorter in old(allocatedNames) || IsKeyword(shorter)
    {
      ghost var taken := allocatedNames + AllKeywords();
      ghost var tried: set<string> := {};
      name := suggestion;
      while IsKeyword(name) || name in allocatedNames
        invariant allocatedNames == old(allocatedNames)
        invariant DerivedFrom(name, suggestion)
        invariant ShorterTaken(allocatedNames, suggestion, name)
        invariant tried <= taken
        invariant forall t :: t in tried ==> |t| < |name|
        decreases taken - tried
      {
        ShorterTakenStep(allocatedNames, suggestion, name);
        tried := tried + {name};
        name := name + "_";
      }
      allocatedNames := allocatedNames + {name};
    }
  }
}
