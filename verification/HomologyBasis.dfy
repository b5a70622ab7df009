/**
 What the unpaired cells stand for: the columns of the reducing matrix that belong to the unpaired
 cells of a dimension are a basis of the cycles of that dimension modulo boundaries.  So the number
 of unpaired cells, the Betti number, is the dimension of the homology.
 */
module HomologyBasis {
  import opened Counting
  import opened Gf2
  import opened Homology
  import opened Persistence
  import opened Sorting
  import opened SquareComplex

  ghost predicate Cycle(d: seq<Column>, z: Column) {
    Within(z, |d|) && Apply(d, z) == {}
  }

  /** A set of unpaired cells. */
  ghost predicate Essential(r: seq<Column>, cells: Column) {
    forall j :: j in cells ==> j < |r| && r[j] == {} && !IsBirth(r, j)
  }

  /** z differs from the sum of the columns of `cells` by the boundary of c. */
  ghost predicate Represents(d: seq<Column>, v: seq<Column>, z: Column, cells: Column, c: Column) {
    z == Xor(Apply(v, cells), Apply(d, c))
  }

  ghost predicate Reduced(d: seq<Column>, r: seq<Column>, v: seq<Column>, rank: seq<nat>) {
    && SquaresToZero(d) && |r| == |d| && Reduces(d, r, v) && DistinctTops(r)
    && |rank| == |d| && Graded(r, rank) && Homogeneous(v, rank)
  }

  lemma XorTwice(a: Column, b: Column)
    ensures Xor(Xor(a, b), b) == a
  {
  }

  lemma ColumnIsApplied(d: seq<Column>, r: seq<Column>, v: seq<Column>, j: nat)
    requires Reduces(d, r, v) && |r| == |d| && j < |d|
    ensures Apply(d, v[j]) == r[j]
  {
    CombineUpTo(d, v[j], j + 1, |d|);
  }

  // The columns of the unpaired cells span.

  /** The top of the cycle is a birth: take the boundary with that top away. */
  lemma SpanBirth(d: seq<Column>, r: seq<Column>, v: seq<Column>, rank: seq<nat>, z: Column, dim: nat, t: nat, j: nat)
    requires Reduced(d, r, v, rank) && Cycle(d, z) && OfRank(z, rank, dim)
    requires IsTop(z, t) && j < |d| && IsTop(r[j], t)
    ensures var rest := Xor(z, r[j]);
      Cycle(d, rest) && OfRank(rest, rank, dim) && Within(rest, t) && OfRank(v[j], rank, dim + 1)
  {
    XorSameTop(z, r[j], t);
    BoundaryOfBoundary(d, v[j], j + 1);
    ApplyXor(d, z, r[j]);
    assert Xor({}, {}) == {};
    assert GradedColumn(r[j], rank, j) && rank[t] == dim;
    assert OfRank(v[j], rank, rank[j]);
  }

  /** The top of the cycle is unpaired: take its column away. */
  lemma SpanEssential(d: seq<Column>, r: seq<Column>, v: seq<Column>, rank: seq<nat>, z: Column, dim: nat, t: nat)
    requires Reduced(d, r, v, rank) && Cycle(d, z) && OfRank(z, rank, dim)
    requires IsTop(z, t) && !IsBirth(r, t)
    ensures r[t] == {}
    ensures var rest := Xor(z, v[t]); Cycle(d, rest) && OfRank(rest, rank, dim) && Within(rest, t)
  {
    CycleTop(d, r, v, z, t);
    ColumnIsApplied(d, r, v, t);
    XorSameTop(z, v[t], t);
    ApplyXor(d, z, v[t]);
    assert Xor({}, {}) == {};
    assert OfRank(v[t], rank, rank[t]);
  }

  lemma AddBoundary(d: seq<Column>, v: seq<Column>, z: Column, part: Column, chain: Column, cells: Column, c: Column)
    requires part == Apply(d, chain) && Represents(d, v, Xor(z, part), cells, c)
    ensures Represents(d, v, z, cells, Xor(c, chain))
  {
    var sum, bound := Apply(v, cells), Apply(d, c);
    ApplyXor(d, c, chain);
    XorTwice(z, part);
    assert Xor(Xor(sum, bound), part) == Xor(sum, Xor(bound, part));
  }

  lemma AddCell(d: seq<Column>, v: seq<Column>, z: Column, t: nat, cells: Column, c: Column)
    requires t < |v| && Within(cells, t) && Represents(d, v, Xor(z, v[t]), cells, c)
    ensures Represents(d, v, z, Xor(cells, {t}), c)
  {
    var sum, bound := Apply(v, cells), Apply(d, c);
    ApplyXor(v, cells, {t});
    CombineSingle(v, t, |v|);
    XorTwice(z, v[t]);
    assert Xor(Xor(sum, bound), v[t]) == Xor(Xor(sum, v[t]), bound);
  }

  /** By the top of the cycle, from the highest down. */
  lemma {:induction false} Span(d: seq<Column>, r: seq<Column>, v: seq<Column>, rank: seq<nat>,
                                z: Column, dim: nat, n: nat)
      returns (cells: Column, c: Column)
    requires Reduced(d, r, v, rank) && Cycle(d, z) && OfRank(z, rank, dim) && Within(z, n)
    ensures Essential(r, cells) && Within(cells, n) && OfRank(cells, rank, dim)
    ensures OfRank(c, rank, dim + 1) && Represents(d, v, z, cells, c)
    decreases n
  {
    if z == {} {
      cells, c := {}, {};
      CombineNone(v, {}, |v|);
      CombineNone(d, {}, |d|);
    } else {
      var t := HasTop(z);
      if j :| 0 <= j < |r| && IsTop(r[j], t) {
        SpanBirth(d, r, v, rank, z, dim, t, j);
        cells, c := Span(d, r, v, rank, Xor(z, r[j]), dim, t);
        ColumnIsApplied(d, r, v, j);
        AddBoundary(d, v, z, r[j], v[j], cells, c);
        c := Xor(c, v[j]);
      } else {
        SpanEssential(d, r, v, rank, z, dim, t);
        cells, c := Span(d, r, v, rank, Xor(z, v[t]), dim, t);
        AddCell(d, v, z, t, cells, c);
        cells := Xor(cells, {t});
      }
    }
  }

  // And they are independent.

  lemma DistinctDiagonal(d: seq<Column>, r: seq<Column>, v: seq<Column>)
    requires Reduces(d, r, v)
    ensures DistinctTops(v)
  {
  }

  /** No sum of columns of unpaired cells is a boundary, but for the empty one. */
  lemma IndependentCells(d: seq<Column>, r: seq<Column>, v: seq<Column>, rank: seq<nat>, cells: Column, c: Column)
    requires Reduced(d, r, v, rank) && Essential(r, cells) && Within(c, |d|) && Apply(v, cells) == Apply(d, c)
    ensures cells == {}
  {
    if cells != {} {
      var j :| j in cells;
      DistinctDiagonal(d, r, v);
      assert IsTop(v[j], j) && v[j] != {};
      var k, p := TopOfCombination(v, cells, |v|);
      assert IsTop(v[k], k) && p == k;
      var i := TopInSpan(d, r, v, c, |d|, k);
      assert IsBirth(r, k);
    }
  }

  /** The cells a cycle stands for are determined by its class. */
  lemma RepresentedOnce(d: seq<Column>, r: seq<Column>, v: seq<Column>, rank: seq<nat>,
                        z: Column, a: Column, b: Column, c: Column, e: Column)
    requires Reduced(d, r, v, rank) && Essential(r, a) && Essential(r, b) && Within(c, |d|) && Within(e, |d|)
    requires Represents(d, v, z, a, c) && Represents(d, v, z, b, e)
    ensures a == b
  {
    ApplyXor(v, a, b);
    ApplyXor(d, c, e);
    var p, q, s, t := Apply(v, a), Apply(v, b), Apply(d, c), Apply(d, e);
    assert Xor(p, s) == Xor(q, t);
    assert Xor(p, q) == Xor(s, t) by {
      forall x ensures x in Xor(p, q) <==> x in Xor(s, t) {
        assert x in Xor(p, s) <==> x in Xor(q, t);
      }
    }
    IndependentCells(d, r, v, rank, Xor(a, b), Xor(c, e));
    assert forall x :: x in Xor(a, b) <==> (x in a) != (x in b);
  }

  // A basis of the homology.

  /** Every cycle of the dimension is a sum of columns of `cells`, but for the boundary of a chain. */
  ghost predicate Spans(d: seq<Column>, v: seq<Column>, rank: seq<nat>, cells: Column, dim: nat) {
    forall z :: Cycle(d, z) && OfRank(z, rank, dim) ==> Spanned(d, v, rank, cells, dim, z)
  }

  ghost predicate Spanned(d: seq<Column>, v: seq<Column>, rank: seq<nat>, cells: Column, dim: nat, z: Column) {
    exists some, c :: some <= cells && OfRank(c, rank, dim + 1) && Represents(d, v, z, some, c)
  }

  ghost predicate Independent(d: seq<Column>, v: seq<Column>, cells: Column) {
    forall some, c :: some <= cells && Within(c, |d|) && Apply(v, some) == Apply(d, c) ==> some == {}
  }

  ghost predicate IsBasis(d: seq<Column>, v: seq<Column>, rank: seq<nat>, cells: Column, dim: nat) {
    && (forall j :: j in cells ==> j < |v| && Cycle(d, v[j]) && OfRank(v[j], rank, dim))
    && Spans(d, v, rank, cells, dim) && Independent(d, v, cells)
  }

  ghost function EssentialCells(r: seq<Column>, rank: seq<nat>, dim: nat): Column
    requires |r| <= |rank|
  {
    set j: nat | j < |r| && r[j] == {} && !IsBirth(r, j) && rank[j] == dim
  }

  /** The columns of the unpaired cells of a dimension are a basis of its cycles modulo boundaries. */
  lemma ReducedBasis(d: seq<Column>, r: seq<Column>, v: seq<Column>, rank: seq<nat>, dim: nat)
    requires Reduced(d, r, v, rank)
    ensures IsBasis(d, v, rank, EssentialCells(r, rank, dim), dim)
  {
    var cells := EssentialCells(r, rank, dim);
    forall j | j in cells ensures Cycle(d, v[j]) && OfRank(v[j], rank, dim) {
      ColumnIsApplied(d, r, v, j);
      assert IsTop(v[j], j);
    }
    forall z | Cycle(d, z) && OfRank(z, rank, dim) ensures Spanned(d, v, rank, cells, dim, z) {
      var some, c := Span(d, r, v, rank, z, dim, |d|);
      assert some <= cells;
    }
    forall some, c | some <= cells && Within(c, |d|) && Apply(v, some) == Apply(d, c) ensures some == {} {
      IndependentCells(d, r, v, rank, some, c);
    }
  }

  lemma RankBlock(cx: Complex, dim: nat) returns (lo: nat, hi: nat)
    requires dim <= 2
    ensures forall unpaired :: Betti(cx, unpaired, dim) == Count(unpaired, In(lo, hi))
    ensures forall j: nat :: j < |Ranks(cx)| ==> (Ranks(cx)[j] == dim <==> lo <= j < hi)
  {
    var n, m := cx.numVertices, cx.numVertices + |cx.edges|;
    lo := if dim == 0 then 0 else if dim == 1 then n else m;
    hi := if dim == 0 then n else if dim == 1 then m else m + |cx.squares|;
  }

  lemma CountBlock(unpaired: seq<nat>, lo: nat, hi: nat, cells: Column)
    requires forall a, b :: 0 <= a < b < |unpaired| ==> unpaired[a] < unpaired[b]
    requires forall j :: j in cells <==> j in unpaired && lo <= j < hi
    ensures |cells| == Count(unpaired, In(lo, hi))
  {
    var kept := Filter(unpaired, In(lo, hi));
    FilterSize(unpaired, In(lo, hi));
    FilterStrictlySorted(unpaired, In(lo, hi), NatLe());
    DistinctSize(kept);
    assert Elements(kept) == cells;
  }

  /** The Betti number of a dimension is the dimension of its homology. */
  lemma BettiIsDimension(cx: Complex, d: seq<Column>, r: seq<Column>, v: seq<Column>,
                         pairs: seq<(nat, nat)>, unpaired: seq<nat>, dim: nat)
    requires Closed(cx) && IsPersistence(cx, d, r, v, pairs, unpaired) && dim <= 2
    ensures |d| == |Ranks(cx)|
    ensures var cells := EssentialCells(r, Ranks(cx), dim);
      IsBasis(d, v, Ranks(cx), cells, dim) && |cells| == Betti(cx, unpaired, dim)
  {
    ReducedBasis(d, r, v, Ranks(cx), dim);
    var lo, hi := RankBlock(cx, dim);
    var cells := EssentialCells(r, Ranks(cx), dim);
    forall j ensures j in cells <==> j in unpaired && lo <= j < hi {
      if j in unpaired { var a :| 0 <= a < |unpaired| && unpaired[a] == j; }
    }
    CountBlock(unpaired, lo, hi, cells);
  }
}
