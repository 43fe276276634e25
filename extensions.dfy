/**
 * The extension plugins consulted by `createValidationMethod`: sorted by
 * priority (ascending, ties kept in iteration order), filtered by
 * `applicable`, and each asked for a code block, with no block (`null`)
 * skipped. What a plugin generates is an opaque input.
 */
module Extensions {
  import opened Wrappers
  import opened Elements

  /** A generated fragment of Java code, kept abstract. */
  type CodeBlock = string

  /** An `InspectorExtension`: its `toString()`, `priority()`, `applicable`
      and `generateValidation(property, localName, container)`. */
  datatype Extension = Extension(
    description: string,
    priority: int,
    applicable: Property -> bool,
    generateValidation: (Property, string, string) -> Option<CodeBlock>)

  /** A block contributed by the extension at index `extension`, emitted under
      the comment naming it. */
  datatype Contribution = Contribution(extension: nat, description: string, block: CodeBlock)

  /** The order `sorted(comparing(priority))` puts the extensions in: by
      priority, and by position among equal priorities. */
  predicate Before(exts: seq<Extension>, a: nat, b: nat)
    requires a < |exts| && b < |exts|
  {
    exts[a].priority < exts[b].priority || (exts[a].priority == exts[b].priority && a < b)
  }

  predicate InBounds(exts: seq<Extension>, s: seq<nat>) {
    forall i :: 0 <= i < |s| ==> s[i] < |exts|
  }

  /** `s` lists extension indices strictly in `Before` order. */
  predicate Ascending(exts: seq<Extension>, s: seq<nat>) {
    InBounds(exts, s) && forall i, j :: 0 <= i < j < |s| ==> Before(exts, s[i], s[j])
  }

  /** Inserts `x`, later in iteration order than all of `s`, behind every
      element of no greater priority. */
  function Insert(exts: seq<Extension>, x: nat, s: seq<nat>): (r: seq<nat>)
    requires x < |exts| && Ascending(exts, s)
    requires forall i :: 0 <= i < |s| ==> s[i] < x
    ensures |r| == |s| + 1
    ensures forall k: nat :: k in r <==> k in s || k == x
    ensures Ascending(exts, r)
  {
    if s == [] then [x]
    else if exts[x].priority < exts[s[0]].priority then
      assert forall i :: 0 <= i < |s| ==> Before(exts, x, s[i]) by {
        forall i | 0 <= i < |s| ensures Before(exts, x, s[i]) {
          if i > 0 {
            assert Before(exts, s[0], s[i]);
          }
        }
      }
      [x] + s
    else
      var tail := Insert(exts, x, s[1..]);
      assert forall k :: k in tail ==> Before(exts, s[0], k) by {
        forall k | k in tail ensures Before(exts, s[0], k) {
          if k != x {
            var i :| 0 <= i < |s[1..]| && s[1..][i] == k;
            assert Before(exts, s[0], s[i + 1]);
          }
        }
      }
      [s[0]] + tail
  }

  /** The indices `0 .. n - 1` sorted by priority, stably. */
  function SortByPriority(exts: seq<Extension>, n: nat): (r: seq<nat>)
    requires n <= |exts|
    ensures |r| == n
    ensures forall k: nat :: k in r <==> k < n
    ensures Ascending(exts, r)
  {
    if n == 0 then []
    else
      var s := SortByPriority(exts, n - 1);
      assert forall i :: 0 <= i < |s| ==> s[i] < n - 1 by {
        forall i | 0 <= i < |s| ensures s[i] < n - 1 {
          assert s[i] in s;
        }
      }
      Insert(exts, n - 1, s)
  }

  function Sorted(exts: seq<Extension>): (r: seq<nat>)
    ensures |r| == |exts|
    ensures forall k: nat :: k in r <==> k < |exts|
    ensures Ascending(exts, r)
  {
    SortByPriority(exts, |exts|)
  }

  /** Extension `k` is applicable to `prop` and produces a block. */
  predicate Emits(exts: seq<Extension>, k: nat, prop: Property, local: string, container: string)
    requires k < |exts|
  {
    exts[k].applicable(prop) && exts[k].generateValidation(prop, local, container).Some?
  }

  /** What one extension contributes: its block, if it is applicable and has
      one. */
  function ContributionOf(exts: seq<Extension>, k: nat, prop: Property, local: string, container: string): seq<Contribution>
    requires k < |exts|
  {
    var e := exts[k];
    if e.applicable(prop) then
      match e.generateValidation(prop, local, container) {
        case None => []
        case Some(block) => [Contribution(k, e.description, block)]
      }
    else []
  }

  /** The contributions of the extensions in `order`, in that order. */
  function Collect(exts: seq<Extension>, order: seq<nat>, prop: Property, local: string, container: string): (r: seq<Contribution>)
    requires InBounds(exts, order)
    ensures forall i :: 0 <= i < |r| ==>
      && r[i].extension in order
      && Emits(exts, r[i].extension, prop, local, container)
      && exts[r[i].extension].generateValidation(prop, local, container) == Some(r[i].block)
      && r[i].description == exts[r[i].extension].description
  {
    if order == [] then []
    else
      var k := order[|order| - 1];
      Collect(exts, order[..|order| - 1], prop, local, container) + ContributionOf(exts, k, prop, local, container)
  }

  /** Every extension in `order` that emits a block contributes. */
  lemma {:induction false} CollectComplete(exts: seq<Extension>, order: seq<nat>, prop: Property, local: string, container: string, k: nat)
    requires InBounds(exts, order)
    requires k in order && k < |exts| && Emits(exts, k, prop, local, container)
    ensures exists i :: (0 <= i < |Collect(exts, order, prop, local, container)| &&
      Collect(exts, order, prop, local, container)[i].extension == k)
  {
    var r := Collect(exts, order, prop, local, container);
    var front, last := order[..|order| - 1], order[|order| - 1];
    assert order == front + [last];
    var before := Collect(exts, front, prop, local, container);
    if k == last {
      assert r[|before|].extension == k;
    } else {
      assert k in front;
      CollectComplete(exts, front, prop, local, container, k);
      var i :| 0 <= i < |before| && before[i].extension == k;
      assert r[i] == before[i];
    }
  }

  /** Collecting along an ascending order gives contributions in that order. */
  lemma {:induction false} CollectAscending(exts: seq<Extension>, order: seq<nat>, prop: Property, local: string, container: string)
    requires Ascending(exts, order)
    ensures forall i, j :: 0 <= i < j < |Collect(exts, order, prop, local, container)| ==>
      Before(exts, Collect(exts, order, prop, local, container)[i].extension,
        Collect(exts, order, prop, local, container)[j].extension)
  {
    if order != [] {
      var r := Collect(exts, order, prop, local, container);
      var front, last := order[..|order| - 1], order[|order| - 1];
      var before := Collect(exts, front, prop, local, container);
      assert Ascending(exts, front);
      CollectAscending(exts, front, prop, local, container);
      forall i, j | 0 <= i < j < |r| ensures Before(exts, r[i].extension, r[j].extension) {
        assert r[i] == before[i];
        if j < |before| {
          assert r[j] == before[j];
        } else {
          assert r[j].extension == last;
          assert r[i].extension in front;
          var p :| 0 <= p < |front| && front[p] == r[i].extension;
          assert order[p] == front[p] && p < |order| - 1;
          assert Before(exts, order[p], order[|order| - 1]);
        }
      }
    }
  }

  /** The contributions for one property: those of the applicable extensions
      with a block, in ascending priority. */
  function ExtensionContributions(exts: seq<Extension>, prop: Property, local: string, container: string): seq<Contribution> {
    Collect(exts, Sorted(exts), prop, local, container)
  }

  /** Each contribution is a block its extension generated for this
      property; every extension that emits a block contributes; priorities
      ascend, ties in iteration order (so no extension contributes twice). */
  lemma ContributionsSpec(exts: seq<Extension>, prop: Property, local: string, container: string)
    ensures var r := ExtensionContributions(exts, prop, local, container);
      && (forall i :: 0 <= i < |r| ==>
            && r[i].extension < |exts|
            && exts[r[i].extension].applicable(prop)
            && exts[r[i].extension].generateValidation(prop, local, container) == Some(r[i].block))
      && (forall k :: 0 <= k < |exts| && Emits(exts, k, prop, local, container) ==>
            exists i :: 0 <= i < |r| && r[i].extension == k)
      && (forall i, j :: 0 <= i < j < |r| ==> Before(exts, r[i].extension, r[j].extension))
  {
    var r := ExtensionContributions(exts, prop, local, container);
    forall k | 0 <= k < |exts| && Emits(exts, k, prop, local, container)
      ensures exists i :: 0 <= i < |r| && r[i].extension == k
    {
      CollectComplete(exts, Sorted(exts), prop, local, container, k);
    }
    CollectAscending(exts, Sorted(exts), prop, local, container);
  }
}
