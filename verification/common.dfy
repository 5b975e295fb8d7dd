/**
 Small shared vocabulary: an optional value, strictly ascending sequences,
 and the conversion of a `std::set` of indices into the ascending
 `std::vector` that `vector::assign(set.begin(), set.end())` produces.
 */
module Common {

  datatype Option<+T> = None | Some(value: T)

  /** Strictly ascending, hence also free of duplicates. */
  predicate Increasing(s: seq<nat>) {
    forall i, j :: 0 <= i < j < |s| ==> s[i] < s[j]
  }

  predicate IsLeast(m: nat, s: set<nat>) {
    m in s && forall y :: y in s ==> m <= y
  }

  lemma LeastExists(s: set<nat>)
    requires s != {}
    ensures exists m :: IsLeast(m, s)
    decreases |s|
  {
    var x :| x in s;
    if s == {x} {
      assert IsLeast(x, s);
    } else {
      LeastExists(s - {x});
      var m :| IsLeast(m, s - {x});
      assert forall y :: y in s ==> y == x || y in s - {x};
      if x < m {
        assert IsLeast(x, s);
      } else {
        assert IsLeast(m, s);
      }
    }
  }

  /** The elements of `s` in ascending order: what iterating a `std::set`
      yields. */
  function SortedElements(s: set<nat>): (r: seq<nat>)
    ensures Increasing(r)
    ensures forall x :: x in r <==> x in s
    ensures |r| == |s|
    decreases |s|
  {
    if s == {} then []
    else
      LeastExists(s);
      var m :| IsLeast(m, s);
      [m] + SortedElements(s - {m})
  }

  /** A set holding at least one element and, with each element, a different
      one, never has exactly one element. */
  lemma NoSingleton(s: set<nat>)
    requires forall x :: x in s ==> exists y :: y in s && y != x
    ensures |s| != 1
  {
    if s != {} {
      var x :| x in s;
      var y :| y in s && y != x;
      assert y in s - {x};
      assert |s - {x}| == |s| - 1;
    }
  }

  predicate NoDuplicates(s: seq<nat>) {
    forall i, j :: 0 <= i < j < |s| ==> s[i] != s[j]
  }

  lemma NoDuplicatesAppend(a: seq<nat>, b: seq<nat>)
    requires NoDuplicates(a) && NoDuplicates(b)
    requires forall x :: x in a ==> x !in b
    ensures NoDuplicates(a + b)
  {
    forall i, j | 0 <= i < j < |a + b|
      ensures (a + b)[i] != (a + b)[j]
    {
      if i < |a| && j >= |a| {
        assert (a + b)[i] in a && (a + b)[j] in b;
      }
    }
  }

  /** Two ascending sequences with the same elements are equal: the list
      `vector::assign` makes from a set is determined by the set. */
  lemma {:induction false} IncreasingIsUnique(a: seq<nat>, b: seq<nat>)
    requires Increasing(a) && Increasing(b)
    requires forall x :: x in a <==> x in b
    ensures a == b
    decreases |a|
  {
    if a != [] {
      assert a[0] in b;
    }
    if b != [] {
      assert b[0] in a;
    }
    if a != [] && b != [] {
      assert a[0] == b[0] by {
        assert b[0] in a && a[0] in b;
      }
      forall x
        ensures x in a[1..] <==> x in b[1..]
      {
        if x in a[1..] {
          assert x > a[0];
          assert x in b;
        }
        if x in b[1..] {
          assert x > b[0];
          assert x in a;
        }
      }
      IncreasingIsUnique(a[1..], b[1..]);
      assert a == [a[0]] + a[1..];
      assert b == [b[0]] + b[1..];
    }
  }

  /** Numbering the elements of `order` with a running counter, a later
      occurrence overwriting an earlier one: each element maps to the
      position of its last occurrence. */
  function LastPositions(order: seq<nat>): (r: map<nat, nat>)
    ensures forall x :: x in r <==> x in order
    ensures forall x :: x in r ==> IsLastPosition(order, x, r[x])
    decreases |order|
  {
    if order == [] then map[]
    else
      var k := |order| - 1;
      LastPositions(order[..k])[order[k] := k]
  }

  predicate IsLastPosition(order: seq<nat>, x: nat, k: nat) {
    k < |order| && order[k] == x && forall j :: k < j < |order| ==> order[j] != x
  }

  /** Without repeats the numbering is the identity on positions. */
  lemma PositionsOfDistinct(order: seq<nat>, k: nat)
    requires NoDuplicates(order) && k < |order|
    ensures LastPositions(order)[order[k]] == k
  {
  }
}
