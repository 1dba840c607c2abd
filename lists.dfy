/**
 The two library behaviours of Java collections the index relies on: removing
 the first equal element of an `ArrayList`, and walking the key set of a
 `HashMap` in an order the program does not choose.
 */
module Lists {

  /** No element occurs twice. */
  predicate Distinct<T(==)>(xs: seq<T>)
  {
    forall i, j :: 0 <= i < j < |xs| ==> xs[i] != xs[j]
  }

  /** `ArrayList.remove(Object)`: deletes the first element equal to `x`, if there is one. */
  function RemoveFirst<T(==)>(xs: seq<T>, x: T): (r: seq<T>)
    ensures x !in xs ==> r == xs
    ensures x in xs ==> |r| == |xs| - 1
  {
    if xs == [] then []
    else if xs[0] == x then xs[1..]
    else
      assert xs == [xs[0]] + xs[1..];
      [xs[0]] + RemoveFirst(xs[1..], x)
  }

  /** Exactly one copy of `x` goes, when there is one; every other element keeps its count. */
  lemma {:induction false} RemoveFirstMultiset<T>(xs: seq<T>, x: T)
    ensures multiset(RemoveFirst(xs, x)) == multiset(xs) - multiset{x}
  {
    if xs != [] {
      assert xs == [xs[0]] + xs[1..];
      if xs[0] != x {
        RemoveFirstMultiset(xs[1..], x);
      }
    }
  }

  /** When `i` is the first position holding `x`, exactly that position goes and the rest keep their order. */
  lemma {:induction false} RemoveFirstAt<T>(xs: seq<T>, x: T, i: nat)
    requires i < |xs| && xs[i] == x
    requires forall j :: 0 <= j < i ==> xs[j] != x
    ensures RemoveFirst(xs, x) == xs[..i] + xs[i + 1..]
  {
    if i == 0 {
      assert xs[..0] == [];
    } else {
      var tail := xs[1..];
      assert tail[i - 1] == x;
      RemoveFirstAt(tail, x, i - 1);
      assert tail[..i - 1] == xs[1..i];
      assert tail[i..] == xs[i + 1..];
      assert xs[..i] == [xs[0]] + xs[1..i];
      assert xs[0] != x;
      assert RemoveFirst(xs, x) == [xs[0]] + RemoveFirst(tail, x);
    }
  }

  /** `x` survives its own removal exactly when it occurred at least twice; other elements are untouched. */
  lemma RemoveFirstMembership<T>(xs: seq<T>, x: T, y: T)
    ensures x in RemoveFirst(xs, x) <==> multiset(xs)[x] >= 2
    ensures y != x ==> (y in RemoveFirst(xs, x) <==> y in xs)
  {
    var r := RemoveFirst(xs, x);
    RemoveFirstMultiset(xs, x);
    assert x in r <==> multiset(r)[x] > 0;
    assert y in r <==> multiset(r)[y] > 0;
    assert y in xs <==> multiset(xs)[y] > 0;
  }

  /**
   The elements of a finite set, each exactly once, in an order the caller
   cannot predict: how the source walks `HashMap.keySet()`.
   */
  method Enumerate<T(==)>(s: set<T>) returns (xs: seq<T>)
    ensures Distinct(xs) && |xs| == |s|
    ensures forall x :: x in xs <==> x in s
  {
    xs := [];
    var rest := s;
    while rest != {}
      invariant rest <= s
      invariant Distinct(xs)
      invariant forall x :: x in xs <==> x in s && x !in rest
      invariant |xs| + |rest| == |s|
      decreases rest
    {
      var x :| x in rest;
      xs := xs + [x];
      rest := rest - {x};
    }
  }
}
