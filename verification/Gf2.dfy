/**
 Linear algebra over GF(2).  A column is the set of rows holding a one, a matrix a sequence of
 columns; adding columns is symmetric difference.
 */
module Gf2 {
  import opened Wrappers

  type Column = set<nat>

  function Xor(a: Column, b: Column): (c: Column)
    ensures forall x :: x in c <==> (x in a) != (x in b)
  {
    (a - b) + (b - a)
  }

  ghost predicate Within(a: Column, n: nat) {
    forall x :: x in a ==> x < n
  }

  /** The sum of the columns d[i] with i < n and i in sel. */
  function Combine(d: seq<Column>, sel: Column, n: nat): (c: Column)
    requires n <= |d|
  {
    if n == 0 then {}
    else if n - 1 in sel then Xor(Combine(d, sel, n - 1), d[n - 1])
    else Combine(d, sel, n - 1)
  }

  /** Matrix times vector. */
  function Apply(d: seq<Column>, v: Column): Column {
    Combine(d, v, |d|)
  }

  lemma {:induction false} CombineXor(d: seq<Column>, s: Column, t: Column, n: nat)
    requires n <= |d|
    ensures Combine(d, Xor(s, t), n) == Xor(Combine(d, s, n), Combine(d, t, n))
  {
    if n > 0 {
      CombineXor(d, s, t, n - 1);
      var a, b, x := Combine(d, s, n - 1), Combine(d, t, n - 1), d[n - 1];
      assert Xor(Xor(a, x), Xor(b, x)) == Xor(a, b);
      assert Xor(Xor(a, x), b) == Xor(Xor(a, b), x);
      assert Xor(a, Xor(b, x)) == Xor(Xor(a, b), x);
    }
  }

  /** Multiplication by a matrix is linear. */
  lemma ApplyXor(d: seq<Column>, s: Column, t: Column)
    ensures Apply(d, Xor(s, t)) == Xor(Apply(d, s), Apply(d, t))
  {
    CombineXor(d, s, t, |d|);
  }

  lemma {:induction false} CombineNone(d: seq<Column>, s: Column, n: nat)
    requires n <= |d| && forall i :: i in s ==> i >= n
    ensures Combine(d, s, n) == {}
  {
    if n > 0 { CombineNone(d, s, n - 1); }
  }

  lemma {:induction false} CombineUpTo(d: seq<Column>, s: Column, m: nat, n: nat)
    requires m <= n <= |d| && Within(s, m)
    ensures Combine(d, s, n) == Combine(d, s, m)
    decreases n
  {
    if m < n { CombineUpTo(d, s, m, n - 1); }
  }

  lemma CombineSingle(d: seq<Column>, i: nat, n: nat)
    requires i < n <= |d|
    ensures Combine(d, {i}, n) == d[i]
  {
    CombineNone(d, {i}, i);
    CombineUpTo(d, {i}, i + 1, n);
    assert Xor({}, d[i]) == d[i];
  }

  lemma {:induction false} CombineWithin(d: seq<Column>, s: Column, n: nat, k: nat)
    requires n <= |d| && forall i :: 0 <= i < n && i in s ==> Within(d[i], k)
    ensures Within(Combine(d, s, n), k)
  {
    if n > 0 { CombineWithin(d, s, n - 1, k); }
  }

  // The highest set bit.

  /** The highest row of a column with rows below n. */
  function Highest(a: Column, n: nat): (r: Option<nat>)
    ensures r.Some? ==> r.value < n && r.value in a && forall x :: x in a && x < n ==> x <= r.value
    ensures r.None? ==> forall x :: x in a ==> x >= n
  {
    if n == 0 then None
    else if n - 1 in a then Some(n - 1)
    else Highest(a, n - 1)
  }

  ghost predicate IsTop(a: Column, p: nat) {
    p in a && forall x :: x in a ==> x <= p
  }

  lemma XorTop(a: Column, p: nat, b: Column, q: nat)
    requires IsTop(a, p) && IsTop(b, q) && p != q
    ensures IsTop(Xor(a, b), if p < q then q else p)
  {
  }

  /** Adding two columns with the same top cancels it. */
  lemma XorSameTop(a: Column, b: Column, p: nat)
    requires IsTop(a, p) && IsTop(b, p)
    ensures Within(Xor(a, b), p)
  {
  }

  // The boundary property.

  /** Every column of d is a cycle: d times d is zero. */
  ghost predicate SquaresToZero(d: seq<Column>) {
    forall j :: 0 <= j < |d| ==> Apply(d, d[j]) == {}
  }

  ghost predicate StrictlyUpper(d: seq<Column>) {
    forall j :: 0 <= j < |d| ==> Within(d[j], j)
  }

  /** Then every boundary is a cycle. */
  lemma {:induction false} BoundaryOfBoundary(d: seq<Column>, s: Column, n: nat)
    requires SquaresToZero(d) && n <= |d|
    ensures Apply(d, Combine(d, s, n)) == {}
  {
    if n == 0 {
      CombineNone(d, {}, |d|);
    } else {
      BoundaryOfBoundary(d, s, n - 1);
      ApplyXor(d, Combine(d, s, n - 1), d[n - 1]);
      assert Xor({}, {}) == {};
    }
  }
}
