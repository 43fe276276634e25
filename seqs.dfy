/**
 * Sequences without repeats, kept in first-occurrence order: what an
 * `ImmutableSet` built from a stream and the key order of a `LinkedHashMap`
 * both are.
 */
module Seqs {

  predicate NoDuplicates<T(==)>(s: seq<T>) {
    forall i, j :: 0 <= i < j < |s| ==> s[i] != s[j]
  }

  function ToSet<T>(s: seq<T>): set<T> {
    set x | x in s
  }

  /** The position of the first occurrence of `x` in `s`. */
  function FirstIndex<T(==)>(s: seq<T>, x: T): (r: nat)
    requires x in s
    ensures r < |s| && s[r] == x
    ensures forall i :: 0 <= i < r ==> s[i] != x
  {
    if s[0] == x then 0 else 1 + FirstIndex(s[1..], x)
  }

  /** The first occurrence of every element of `s` that is not in `seen`,
      in the order of `s`. */
  function DedupAfter<T(==,!new)>(seen: set<T>, s: seq<T>): (r: seq<T>)
    ensures forall x :: x in r <==> x in s && x !in seen
    ensures NoDuplicates(r)
    decreases s
  {
    if s == [] then []
    else if s[0] in seen then DedupAfter(seen, s[1..])
    else [s[0]] + DedupAfter(seen + {s[0]}, s[1..])
  }

  /** `s` with every repeat after the first occurrence dropped. */
  function Dedup<T(==,!new)>(s: seq<T>): (r: seq<T>)
    ensures forall x :: x in r <==> x in s
    ensures NoDuplicates(r)
  {
    DedupAfter({}, s)
  }

  /** The kept elements stand in the order of their first occurrences. */
  lemma {:induction false} DedupAfterKeepsFirstOccurrenceOrder<T(!new)>(seen: set<T>, s: seq<T>)
    ensures forall i, j :: 0 <= i < j < |DedupAfter(seen, s)| ==>
      FirstIndex(s, DedupAfter(seen, s)[i]) < FirstIndex(s, DedupAfter(seen, s)[j])
    decreases s
  {
    if s != [] {
      var seen' := if s[0] in seen then seen else seen + {s[0]};
      DedupAfterKeepsFirstOccurrenceOrder(seen', s[1..]);
      var tail := DedupAfter(seen', s[1..]);
      forall x | x in tail ensures FirstIndex(s, x) == 1 + FirstIndex(s[1..], x) {
        assert x != s[0];
      }
      var r := DedupAfter(seen, s);
      if s[0] in seen {
        assert r == tail;
      } else {
        assert r == [s[0]] + tail;
        forall i, j | 0 <= i < j < |r| ensures FirstIndex(s, r[i]) < FirstIndex(s, r[j]) {
          assert r[j] == tail[j - 1];
          if i > 0 {
            assert r[i] == tail[i - 1];
          }
        }
      }
    }
  }

  lemma DedupKeepsFirstOccurrenceOrder<T(!new)>(s: seq<T>)
    ensures forall i, j :: 0 <= i < j < |Dedup(s)| ==> FirstIndex(s, Dedup(s)[i]) < FirstIndex(s, Dedup(s)[j])
  {
    DedupAfterKeepsFirstOccurrenceOrder({}, s);
    assert Dedup(s) == DedupAfter({}, s);
  }

  /** Positions in `Dedup(s)` order elements as their first occurrences in `s` do. */
  lemma DedupPreservesOrder<T(!new)>(s: seq<T>, x: T, y: T)
    requires x in s && y in s
    requires FirstIndex(Dedup(s), x) < FirstIndex(Dedup(s), y)
    ensures FirstIndex(s, x) < FirstIndex(s, y)
  {
    var d := Dedup(s);
    var p, q := FirstIndex(d, x), FirstIndex(d, y);
    DedupKeepsFirstOccurrenceOrder(s);
    assert d[p] == x && d[q] == y;
  }

  lemma {:induction false} DedupAfterTwice<T(!new)>(outer: set<T>, inner: set<T>, s: seq<T>)
    ensures DedupAfter(outer, DedupAfter(inner, s)) == DedupAfter(outer + inner, s)
    decreases s
  {
    if s != [] {
      var x := s[0];
      if x in inner {
        DedupAfterTwice(outer, inner, s[1..]);
      } else if x in outer {
        DedupAfterTwice(outer, inner + {x}, s[1..]);
        assert outer + (inner + {x}) == outer + inner;
      } else {
        DedupAfterTwice(outer + {x}, inner + {x}, s[1..]);
        assert (outer + {x}) + (inner + {x}) == (outer + inner) + {x};
      }
    }
  }

  lemma {:induction false} DedupAfterAppend<T(!new)>(seen: set<T>, a: seq<T>, b: seq<T>)
    ensures DedupAfter(seen, a + b) == DedupAfter(seen, a) + DedupAfter(seen + ToSet(a), b)
    decreases a
  {
    if a == [] {
      assert a + b == b;
      assert seen + ToSet(a) == seen;
    } else {
      var x := a[0];
      assert (a + b)[0] == x && (a + b)[1..] == a[1..] + b;
      assert ToSet(a) == {x} + ToSet(a[1..]);
      if x in seen {
        DedupAfterAppend(seen, a[1..], b);
        assert seen + ToSet(a) == seen + ToSet(a[1..]);
      } else {
        DedupAfterAppend(seen + {x}, a[1..], b);
        assert seen + {x} + ToSet(a[1..]) == seen + ToSet(a);
      }
    }
  }

  lemma DedupIdempotent<T(!new)>(s: seq<T>)
    ensures Dedup(Dedup(s)) == Dedup(s)
  {
    var none: set<T> := {};
    DedupAfterTwice(none, none, s);
    assert none + none == none;
  }

  /** Appending an element keeps the kept prefix and adds the element iff it is new. */
  lemma DedupSnoc<T(!new)>(s: seq<T>, x: T)
    ensures Dedup(s + [x]) == if x in s then Dedup(s) else Dedup(s) + [x]
  {
    DedupAfterAppend({}, s, [x]);
    assert {} + ToSet(s) == ToSet(s);
    assert [x][1..] == [];
  }

  lemma FirstIndexOfPrefix<T>(s: seq<T>, t: seq<T>, x: T)
    requires x in s
    ensures x in s + t && FirstIndex(s + t, x) == FirstIndex(s, x)
  {
    var i := FirstIndex(s, x);
    assert (s + t)[i] == x;
  }
}
