/**
 * `getTypeIndexInArray`: `Arrays.binarySearch` over the class's type
 * variables with a comparator that answers 0 for an equal element and -1 for
 * any other. The comparator is never positive, so the search only ever moves
 * right: it returns the first probed index that holds the key, or
 * `-(length + 1)` when no probe hits. It is not a membership test.
 */
module TypeSearch {
  import opened TypeNames

  /** The comparator `(typeName1, t1) -> typeName1.equals(t1) ? 0 : -1`,
      applied to an element of the type-variable array and the key. */
  function Compare(element: string, key: TypeName): (r: int)
    ensures r == 0 <==> TypeVariable(element) == key
    ensures r == 0 || r == -1
  {
    if TypeVariable(element) == key then 0 else -1
  }

  /** The search state of the JDK's `binarySearch0` loop from `low` on, with
      `high` fixed at `|a| - 1` (it only changes when the comparator is
      positive). */
  function SearchFrom(a: seq<string>, key: TypeName, low: nat): (r: int)
    requires low <= |a|
    ensures r >= 0 ==> low <= r < |a| && TypeVariable(a[r]) == key
    ensures r < 0 ==> r == -(|a| + 1)
    decreases |a| - low
  {
    if |a| - 1 < low then -(low + 1)
    else
      var mid := (low + |a| - 1) / 2;
      if Compare(a[mid], key) < 0 then SearchFrom(a, key, mid + 1) else mid
  }

  function Search(a: seq<string>, key: TypeName): (r: int)
    ensures r >= 0 ==> r < |a| && TypeVariable(a[r]) == key
    ensures r < 0 ==> r == -(|a| + 1)
  {
    SearchFrom(a, key, 0)
  }

  /** `getTypeIndexInArray(array, typeName)`, the loop of `binarySearch0`.
      The branch for a positive comparison is left out: it cannot be taken. */
  method GetTypeIndexInArray(typeVariables: array<string>, typeName: TypeName) returns (index: int)
    ensures index == Search(typeVariables[..], typeName)
    ensures index >= 0 ==> index < typeVariables.Length && TypeVariable(typeVariables[index]) == typeName
    ensures index < 0 ==> index == -(typeVariables.Length + 1)
  {
    ghost var a := typeVariables[..];
    var low := 0;
    var high := typeVariables.Length - 1;
    while low <= high
      invariant 0 <= low <= |a| && high == |a| - 1
      invariant SearchFrom(a, typeName, low) == SearchFrom(a, typeName, 0)
      decreases high - low
    {
      var mid := (low + high) / 2;
      var cmp := Compare(typeVariables[mid], typeName);
      if cmp < 0 {
        low := mid + 1;
      } else {
        assert SearchFrom(a, typeName, low) == mid;
        return mid;
      }
    }
    assert SearchFrom(a, typeName, low) == -(low + 1);
    return -(low + 1);
  }

  /** A hit is never left of the first probe: the search cannot find anything
      in the first half of the range. */
  lemma {:induction false} FoundNotBeforeFirstProbe(a: seq<string>, key: TypeName, low: nat)
    requires low <= |a|
    ensures SearchFrom(a, key, low) >= 0 ==> SearchFrom(a, key, low) >= (low + |a| - 1) / 2
    decreases |a| - low
  {
    if low <= |a| - 1 {
      var mid := (low + |a| - 1) / 2;
      if Compare(a[mid], key) < 0 {
        FoundNotBeforeFirstProbe(a, key, mid + 1);
      }
    }
  }

  /** In an array of three or more type variables, index 0 is never found,
      even when it holds the key. */
  lemma IndexZeroNeverFound(a: seq<string>, key: TypeName)
    requires |a| >= 3
    ensures Search(a, key) != 0
  {
    FoundNotBeforeFirstProbe(a, key, 0);
  }

  /** The probes end at the last index, so a key there is always found. */
  lemma {:induction false} LastIndexAlwaysFound(a: seq<string>, key: TypeName, low: nat)
    requires low < |a| && TypeVariable(a[|a| - 1]) == key
    ensures SearchFrom(a, key, low) >= 0
    decreases |a| - low
  {
    var mid := (low + |a| - 1) / 2;
    if Compare(a[mid], key) < 0 {
      assert mid != |a| - 1;
      LastIndexAlwaysFound(a, key, mid + 1);
    }
  }

  /** A first type variable is missed among three: `<A, B, C>` searched for
      `A` gives -4. */
  lemma FirstOfThreeMissed()
    ensures Search(["A", "B", "C"], TypeVariable("A")) == -4
  {
    var a, key := ["A", "B", "C"], TypeVariable("A");
    assert Compare(a[1], key) == -1;
    assert Compare(a[2], key) == -1;
    assert SearchFrom(a, key, 3) == -4;
    assert SearchFrom(a, key, 2) == -4;
  }

  /** With one or two type variables every index is found. */
  lemma SmallArraysFindEveryIndex(a: seq<string>, key: TypeName, i: nat)
    requires |a| <= 2 && i < |a| && TypeVariable(a[i]) == key
    ensures Search(a, key) >= 0
  {
    if i == |a| - 1 {
      LastIndexAlwaysFound(a, key, 0);
    } else {
      assert i == 0 && |a| == 2;
      assert Compare(a[0], key) == 0;
    }
  }
}
