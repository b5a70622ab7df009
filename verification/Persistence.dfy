/**
 Column reduction of a boundary matrix and the persistence pairs read off from it.
 */
module Persistence {
  import opened Counting
  import opened Gf2
  import opened Wrappers

  /** r is d times v, with v upper triangular and ones on its diagonal. */
  ghost predicate Reduces(d: seq<Column>, r: seq<Column>, v: seq<Column>) {
    && |r| == |v| && |r| <= |d|
    && forall j :: 0 <= j < |r| ==> IsTop(v[j], j) && r[j] == Combine(d, v[j], j + 1)
  }

  /** No two non-zero columns have the same top. */
  ghost predicate DistinctTops(r: seq<Column>) {
    forall j, k, p :: 0 <= j < k < |r| && IsTop(r[j], p) ==> !IsTop(r[k], p)
  }

  /** rank[j] is the dimension of cell j; boundaries go down by one dimension. */
  ghost predicate Graded(d: seq<Column>, rank: seq<nat>) {
    && |d| <= |rank|
    && forall j :: 0 <= j < |d| ==> GradedColumn(d[j], rank, j)
  }

  ghost predicate GradedColumn(col: Column, rank: seq<nat>, j: nat)
    requires j < |rank|
  {
    forall i :: i in col ==> i < |rank| && rank[i] + 1 == rank[j]
  }

  /** A chain of one dimension. */
  ghost predicate OfRank(chain: Column, rank: seq<nat>, dim: nat) {
    forall i :: i in chain ==> i < |rank| && rank[i] == dim
  }

  /** Only columns of the same dimension have been added up. */
  ghost predicate Homogeneous(v: seq<Column>, rank: seq<nat>) {
    && |v| <= |rank|
    && forall j :: 0 <= j < |v| ==> OfRank(v[j], rank, rank[j])
  }

  /** The pivot map so far: row p belongs to the reduced column with top p. */
  ghost predicate PivotsOf(pivotMap: seq<Option<nat>>, r: seq<Column>) {
    && (forall p :: 0 <= p < |pivotMap| && pivotMap[p].Some? ==>
         pivotMap[p].value < |r| && IsTop(r[pivotMap[p].value], p))
    && (forall j, p :: 0 <= j < |r| && 0 <= p < |pivotMap| && IsTop(r[j], p) ==> pivotMap[p] == Some(j))
  }

  /** One column: add earlier reduced columns until its top is new or it is zero. */
  method ReduceColumn(d: seq<Column>, rows: nat, r: seq<Column>, pivotMap: seq<Option<nat>>,
                      ghost v: seq<Column>, ghost rank: seq<nat>)
      returns (col: Column, top: Option<nat>, ghost vcol: Column)
    requires |r| < |d| && |pivotMap| == rows
    requires forall j :: 0 <= j < |d| ==> Within(d[j], rows)
    requires forall j :: 0 <= j < |r| ==> Within(r[j], rows)
    requires Reduces(d, r, v) && PivotsOf(pivotMap, r)
    ensures Within(col, rows) && IsTop(vcol, |r|) && col == Combine(d, vcol, |r| + 1)
    ensures top.None? ==> col == {}
    ensures top.Some? ==> top.value < rows && IsTop(col, top.value) && pivotMap[top.value].None?
    ensures Graded(d, rank) && Graded(r, rank) && Homogeneous(v, rank) ==>
      GradedColumn(col, rank, |r|) && OfRank(vcol, rank, rank[|r|])
  {
    ghost var j := |r|;
    col, vcol := d[|r|], {j};
    CombineSingle(d, j, j + 1);
    top := Highest(col, rows);
    while top.Some? && pivotMap[top.value].Some?
      invariant Within(col, rows) && IsTop(vcol, j) && col == Combine(d, vcol, j + 1)
      invariant top == Highest(col, rows)
      invariant Graded(d, rank) && Graded(r, rank) && Homogeneous(v, rank) ==>
        GradedColumn(col, rank, j) && OfRank(vcol, rank, rank[j])
      decreases if top.None? then 0 else top.value + 1
    {
      var existing := pivotMap[top.value].value;
      ghost var p := top.value;
      AddColumn(d, r, v, existing, col, vcol, p);
      if Graded(d, rank) && Graded(r, rank) && Homogeneous(v, rank) {
        assert rank[p] + 1 == rank[existing] && rank[p] + 1 == rank[j];
      }
      col, vcol := Xor(col, r[existing]), Xor(vcol, v[existing]);
      top := Highest(col, rows);
    }
  }

  lemma AddColumn(d: seq<Column>, r: seq<Column>, v: seq<Column>, existing: nat,
                  col: Column, vcol: Column, p: nat)
    requires Reduces(d, r, v) && existing < |r| < |d|
    requires IsTop(vcol, |r|) && col == Combine(d, vcol, |r| + 1)
    requires IsTop(col, p) && IsTop(r[existing], p)
    ensures IsTop(Xor(vcol, v[existing]), |r|)
    ensures Xor(col, r[existing]) == Combine(d, Xor(vcol, v[existing]), |r| + 1)
    ensures Within(Xor(col, r[existing]), p)
  {
    XorSameTop(col, r[existing], p);
    XorTop(vcol, |r|, v[existing], existing);
    CombineXor(d, vcol, v[existing], |r| + 1);
    CombineUpTo(d, v[existing], existing + 1, |r| + 1);
  }

  /** Left-to-right reduction. */
  method Reduce(d: seq<Column>, rows: nat, ghost rank: seq<nat>)
      returns (r: seq<Column>, pivotMap: seq<Option<nat>>, ghost v: seq<Column>)
    requires forall j :: 0 <= j < |d| ==> Within(d[j], rows)
    ensures |r| == |d| && Reduces(d, r, v) && DistinctTops(r)
    ensures forall j :: 0 <= j < |r| ==> Within(r[j], rows)
    ensures |pivotMap| == rows && PivotsOf(pivotMap, r)
    ensures Graded(d, rank) ==> Graded(r, rank) && Homogeneous(v, rank)
  {
    r, v := [], [];
    pivotMap := seq(rows, _ => None);
    while |r| < |d|
      invariant |r| <= |d| && |pivotMap| == rows
      invariant Reduces(d, r, v) && DistinctTops(r) && PivotsOf(pivotMap, r)
      invariant forall j :: 0 <= j < |r| ==> Within(r[j], rows)
      invariant Graded(d, rank) ==> Graded(r, rank) && Homogeneous(v, rank)
    {
      var col, top;
      ghost var vcol;
      col, top, vcol := ReduceColumn(d, rows, r, pivotMap, v, rank);
      ExtendPivots(pivotMap, r, col, top);
      ExtendReduces(d, r, v, col, vcol);
      if Graded(d, rank) { ExtendGraded(r, v, rank, col, vcol); }
      if top.Some? {
        pivotMap := pivotMap[top.value := Some(|r|)];
      }
      r, v := r + [col], v + [vcol];
    }
  }

  lemma ExtendReduces(d: seq<Column>, r: seq<Column>, v: seq<Column>, col: Column, vcol: Column)
    requires Reduces(d, r, v) && |r| < |d| && IsTop(vcol, |r|) && col == Combine(d, vcol, |r| + 1)
    ensures Reduces(d, r + [col], v + [vcol])
  {
  }

  lemma ExtendGraded(r: seq<Column>, v: seq<Column>, rank: seq<nat>, col: Column, vcol: Column)
    requires Graded(r, rank) && Homogeneous(v, rank) && |r| == |v| < |rank|
    requires GradedColumn(col, rank, |r|) && OfRank(vcol, rank, rank[|r|])
    ensures Graded(r + [col], rank) && Homogeneous(v + [vcol], rank)
  {
  }

  lemma ExtendPivots(pivotMap: seq<Option<nat>>, r: seq<Column>, col: Column, top: Option<nat>)
    requires PivotsOf(pivotMap, r) && DistinctTops(r)
    requires Within(col, |pivotMap|)
    requires top.None? ==> col == {}
    requires top.Some? ==> top.value < |pivotMap| && IsTop(col, top.value) && pivotMap[top.value].None?
    ensures DistinctTops(r + [col])
    ensures PivotsOf(if top.Some? then pivotMap[top.value := Some(|r|)] else pivotMap, r + [col])
  {
    var r' := r + [col];
    forall j, k, p: nat | 0 <= j < k < |r'| && IsTop(r'[j], p) ensures !IsTop(r'[k], p) {
      if k == |r| && IsTop(col, p) {
        assert false;
      }
    }
    var pivots := if top.Some? then pivotMap[top.value := Some(|r|)] else pivotMap;
    forall j, p: nat | 0 <= j < |r'| && p < |pivots| && IsTop(r'[j], p) ensures pivots[p] == Some(j) {
      if j < |r| { assert r'[j] == r[j]; } else { assert r'[j] == col; }
    }
  }

  // What a reduction determines.

  /** Every combination of the first m columns of d is one of the first m columns of r. */
  lemma {:induction false} SpanOfReduced(d: seq<Column>, r: seq<Column>, v: seq<Column>, w: Column, m: nat)
      returns (w': Column)
    requires Reduces(d, r, v) && m <= |r| && Within(w, m)
    ensures Within(w', m) && Combine(d, w, m) == Combine(r, w', m)
    decreases m
  {
    if m == 0 {
      w' := {};
    } else if m - 1 !in w {
      w' := SpanOfReduced(d, r, v, w, m - 1);
    } else {
      var j := m - 1;
      XorSameTop(w, v[j], j);
      var rest := Xor(w, v[j]);
      w' := SpanOfReduced(d, r, v, rest, j);
      CombineXor(d, rest, v[j], m);
      assert Xor(rest, v[j]) == w;
      CombineUpTo(d, rest, j, m);
      w' := WithLast(r, w', j);
    }
  }

  lemma WithLast(r: seq<Column>, w: Column, j: nat) returns (w': Column)
    requires j < |r| && Within(w, j)
    ensures Within(w', j + 1) && j in w'
    ensures Combine(r, w', j + 1) == Xor(Combine(r, w, j), r[j])
  {
    w' := w + {j};
    SameBelow(r, w, w', j);
  }

  lemma {:induction false} SameBelow(r: seq<Column>, s: Column, t: Column, n: nat)
    requires n <= |r| && forall i :: 0 <= i < n ==> (i in s <==> i in t)
    ensures Combine(r, s, n) == Combine(r, t, n)
  {
    if n > 0 { SameBelow(r, s, t, n - 1); }
  }

  /** And the other way round. */
  lemma {:induction false} SpanOfOriginal(d: seq<Column>, r: seq<Column>, v: seq<Column>, w: Column, m: nat)
      returns (w': Column)
    requires Reduces(d, r, v) && m <= |r|
    ensures Within(w', m) && Combine(r, w, m) == Combine(d, w', m)
  {
    if m == 0 {
      w' := {};
    } else {
      w' := SpanOfOriginal(d, r, v, w, m - 1);
      CombineUpTo(d, w', m - 1, m);
      if m - 1 in w {
        CombineXor(d, w', v[m - 1], m);
        w' := Xor(w', v[m - 1]);
      }
    }
  }

  /**
   A combination of columns with distinct tops is zero only if it uses no non-zero column, and its
   top is the top of one it uses.
   */
  lemma {:induction false} TopOfCombination(r: seq<Column>, s: Column, n: nat) returns (k: nat, p: nat)
    requires DistinctTops(r) && n <= |r|
    requires exists i :: 0 <= i < n && i in s && r[i] != {}
    ensures k < n && k in s && IsTop(r[k], p) && IsTop(Combine(r, s, n), p)
  {
    var last := n - 1;
    var before := Combine(r, s, last);
    if i :| 0 <= i < last && i in s && r[i] != {} {
      k, p := TopOfCombination(r, s, last);
      if last in s {
        if r[last] == {} {
          assert Xor(before, {}) == before;
        } else {
          var q := HasTop(r[last]);
          assert p != q;
          XorTop(before, p, r[last], q);
          if p < q { k, p := last, q; }
        }
      }
    } else {
      CombineZeros(r, s, last);
      assert Xor({}, r[last]) == r[last];
      p := HasTop(r[last]);
      k := last;
    }
  }

  lemma {:induction false} CombineZeros(r: seq<Column>, s: Column, n: nat)
    requires n <= |r| && forall i :: 0 <= i < n && i in s ==> r[i] == {}
    ensures Combine(r, s, n) == {}
  {
    if n > 0 {
      CombineZeros(r, s, n - 1);
      assert Xor({}, {}) == {};
    }
  }

  lemma {:induction false} HasTop(a: Column) returns (p: nat)
    requires a != {}
    ensures IsTop(a, p)
  {
    var x :| x in a;
    if a == {x} {
      p := x;
    } else {
      var q := HasTop(a - {x});
      p := if x < q then q else x;
      assert forall y :: y in a ==> y == x || y in a - {x};
    }
  }

  /** The top of a non-zero combination of the first m columns of d is the top of one of r's first m columns. */
  lemma TopInSpan(d: seq<Column>, r: seq<Column>, v: seq<Column>, w: Column, m: nat, p: nat) returns (k: nat)
    requires Reduces(d, r, v) && DistinctTops(r) && m <= |r| && Within(w, m)
    requires IsTop(Combine(d, w, m), p)
    ensures k < m && IsTop(r[k], p)
  {
    var w' := SpanOfReduced(d, r, v, w, m);
    if !(exists i :: 0 <= i < m && i in w' && r[i] != {}) {
      CombineZeros(r, w', m);
      assert false;
    }
    var q;
    k, q := TopOfCombination(r, w', m);
    assert q == p;
  }

  lemma SameTopForward(d: seq<Column>, r: seq<Column>, v: seq<Column>, r': seq<Column>, v': seq<Column>, j: nat, p: nat)
    requires Reduces(d, r, v) && Reduces(d, r', v') && DistinctTops(r) && DistinctTops(r')
    requires j < |r| == |r'| && IsTop(r[j], p)
    ensures IsTop(r'[j], p)
  {
    var k := TopInSpan(d, r', v', v[j], j + 1, p);
    if k < j {
      var l := TopInSpan(d, r, v, v'[k], k + 1, p);
      assert false;
    }
  }

  /** The tops, and so the persistence pairs, depend on the matrix alone: any two reductions agree. */
  lemma PairingUnique(d: seq<Column>, r: seq<Column>, v: seq<Column>, r': seq<Column>, v': seq<Column>, j: nat, p: nat)
    requires Reduces(d, r, v) && Reduces(d, r', v') && DistinctTops(r) && DistinctTops(r')
    requires j < |r| == |r'|
    ensures IsTop(r[j], p) <==> IsTop(r'[j], p)
  {
    if IsTop(r[j], p) { SameTopForward(d, r, v, r', v', j, p); }
    if IsTop(r'[j], p) { SameTopForward(d, r', v', r, v, j, p); }
  }

  /** The column of the top of a cycle reduces to zero. */
  lemma CycleTop(d: seq<Column>, r: seq<Column>, v: seq<Column>, z: Column, i: nat)
    requires Reduces(d, r, v) && DistinctTops(r) && |r| == |d| && i < |d|
    requires IsTop(z, i) && Apply(d, z) == {}
    ensures r[i] == {}
  {
    CombineUpTo(d, z, i + 1, |d|);
    var w := Xor(v[i], z);
    XorSameTop(v[i], z, i);
    CombineXor(d, v[i], z, i + 1);
    assert Xor(r[i], {}) == r[i];
    CombineUpTo(d, w, i, i + 1);
    if r[i] != {} {
      var p := HasTop(r[i]);
      var k := TopInSpan(d, r, v, w, i, p);
      assert false;
    }
  }

  /** If d squares to zero, the top row of a reduced column is itself a zero column: births are cycles. */
  lemma BirthsAreCycles(d: seq<Column>, r: seq<Column>, v: seq<Column>, j: nat, i: nat)
    requires Reduces(d, r, v) && DistinctTops(r) && |r| == |d| && SquaresToZero(d)
    requires j < |d| && i < |d| && IsTop(r[j], i)
    ensures r[i] == {}
  {
    BoundaryOfBoundary(d, v[j], j + 1);
    CycleTop(d, r, v, r[j], i);
  }

  /** In a strictly upper triangular matrix births come before deaths. */
  lemma BirthBeforeDeath(d: seq<Column>, r: seq<Column>, v: seq<Column>, j: nat)
    requires Reduces(d, r, v) && StrictlyUpper(d) && j < |r|
    ensures Within(r[j], j)
  {
    CombineWithin(d, v[j], j + 1, j);
  }

  // Persistence pairs.

  /** The pairs (top row, column) of the non-zero columns below n, by column. */
  ghost predicate PairsBelow(r: seq<Column>, n: nat, pairs: seq<(nat, nat)>)
    requires n <= |r|
  {
    && (forall a, b :: 0 <= a < b < |pairs| ==> pairs[a].1 < pairs[b].1)
    && (forall a :: 0 <= a < |pairs| ==> pairs[a].1 < n && IsTop(r[pairs[a].1], pairs[a].0))
    && (forall p: nat, j: nat :: j < n && IsTop(r[j], p) ==> (p, j) in pairs)
  }

  ghost predicate IsBirth(r: seq<Column>, i: nat) {
    exists j :: 0 <= j < |r| && IsTop(r[j], i)
  }

  /** The zero columns below n that are nobody's birth, in order. */
  ghost predicate UnpairedBelow(r: seq<Column>, n: nat, unpaired: seq<nat>)
    requires n <= |r|
  {
    && (forall a, b :: 0 <= a < b < |unpaired| ==> unpaired[a] < unpaired[b])
    && (forall a :: 0 <= a < |unpaired| ==> unpaired[a] < n && r[unpaired[a]] == {} && !IsBirth(r, unpaired[a]))
    && (forall j: nat :: j < n && r[j] == {} && !IsBirth(r, j) ==> j in unpaired)
  }

  method CollectPairs(r: seq<Column>, rows: nat) returns (pairs: seq<(nat, nat)>)
    requires forall j :: 0 <= j < |r| ==> Within(r[j], rows)
    ensures PairsBelow(r, |r|, pairs)
  {
    pairs := [];
    for j := 0 to |r|
      invariant PairsBelow(r, j, pairs)
    {
      var top := Highest(r[j], rows);
      if top.Some? {
        pairs := pairs + [(top.value, j)];
        assert IsTop(r[j], top.value);
        assert pairs[|pairs| - 1] == (top.value, j);
      } else {
        assert r[j] == {};
      }
    }
  }

  method PersistencePairs(r: seq<Column>, rows: nat) returns (pairs: seq<(nat, nat)>, unpaired: seq<nat>)
    requires forall j :: 0 <= j < |r| ==> Within(r[j], rows)
    ensures PairsBelow(r, |r|, pairs) && UnpairedBelow(r, |r|, unpaired)
  {
    pairs := CollectPairs(r, rows);
    var isDeath := new bool[|r|](_ => false);
    var isBirth := new bool[rows](_ => false);
    for a := 0 to |pairs|
      invariant forall j :: 0 <= j < |r| ==> (isDeath[j] <==> exists b :: 0 <= b < a && pairs[b].1 == j)
      invariant forall i :: 0 <= i < rows ==> (isBirth[i] <==> exists b :: 0 <= b < a && pairs[b].0 == i)
    {
      isBirth[pairs[a].0] := true;
      isDeath[pairs[a].1] := true;
    }
    unpaired := CollectUnpaired(r, rows, pairs, isDeath[..], isBirth[..]);
  }

  method CollectUnpaired(r: seq<Column>, rows: nat, ghost pairs: seq<(nat, nat)>,
                         isDeath: seq<bool>, isBirth: seq<bool>)
      returns (unpaired: seq<nat>)
    requires PairsBelow(r, |r|, pairs)
    requires |isDeath| == |r| && |isBirth| == rows
    requires forall j :: 0 <= j < |r| ==> Within(r[j], rows)
    requires forall j :: 0 <= j < |r| ==> (isDeath[j] <==> exists b :: 0 <= b < |pairs| && pairs[b].1 == j)
    requires forall i :: 0 <= i < rows ==> (isBirth[i] <==> exists b :: 0 <= b < |pairs| && pairs[b].0 == i)
    ensures UnpairedBelow(r, |r|, unpaired)
  {
    unpaired := [];
    for j := 0 to |r|
      invariant UnpairedBelow(r, j, unpaired)
    {
      BirthFlag(r, rows, pairs, isBirth, j);
      if !isDeath[j] && !(j < rows && isBirth[j]) && r[j] == {} {
        unpaired := unpaired + [j];
        assert unpaired[|unpaired| - 1] == j;
      }
    }
  }

  lemma BirthFlag(r: seq<Column>, rows: nat, pairs: seq<(nat, nat)>, isBirth: seq<bool>, i: nat)
    requires PairsBelow(r, |r|, pairs) && |isBirth| == rows
    requires forall j :: 0 <= j < |r| ==> Within(r[j], rows)
    requires forall x :: 0 <= x < rows ==> (isBirth[x] <==> exists b :: 0 <= b < |pairs| && pairs[b].0 == x)
    ensures i < rows && isBirth[i] <==> IsBirth(r, i)
  {
    if IsBirth(r, i) {
      var j :| 0 <= j < |r| && IsTop(r[j], i);
      assert (i, j) in pairs;
      var b :| 0 <= b < |pairs| && pairs[b] == (i, j);
    }
  }

  /** How many pairs are born, or die, at x. */
  ghost function Births(pairs: seq<(nat, nat)>, x: nat): nat {
    Count(pairs, BornAt(x))
  }

  ghost function Deaths(pairs: seq<(nat, nat)>, x: nat): nat {
    Count(pairs, DiesAt(x))
  }

  function BornAt(x: nat): ((nat, nat)) -> bool { (p: (nat, nat)) => p.0 == x }
  function DiesAt(x: nat): ((nat, nat)) -> bool { (p: (nat, nat)) => p.1 == x }

  lemma BirthCount(r: seq<Column>, pairs: seq<(nat, nat)>, x: nat)
    requires DistinctTops(r) && PairsBelow(r, |r|, pairs)
    ensures Births(pairs, x) == Bit(IsBirth(r, x))
  {
    CountUnique(pairs, BornAt(x));
    if IsBirth(r, x) {
      var j :| 0 <= j < |r| && IsTop(r[j], x);
      assert (x, j) in pairs;
      var a :| 0 <= a < |pairs| && pairs[a] == (x, j);
      assert BornAt(x)(pairs[a]);
    }
  }

  lemma DeathCount(r: seq<Column>, pairs: seq<(nat, nat)>, x: nat)
    requires PairsBelow(r, |r|, pairs) && x < |r|
    ensures Deaths(pairs, x) == Bit(r[x] != {})
  {
    CountUnique(pairs, DiesAt(x));
    if r[x] != {} {
      var p := HasTop(r[x]);
      assert (p, x) in pairs;
      var a :| 0 <= a < |pairs| && pairs[a] == (p, x);
      assert DiesAt(x)(pairs[a]);
    }
  }

  /**
   For a boundary matrix (square, squaring to zero) every cell is exactly one of: the birth of
   one pair, the death of one pair, or unpaired.
   */
  lemma PairsPartition(d: seq<Column>, r: seq<Column>, v: seq<Column>,
                       pairs: seq<(nat, nat)>, unpaired: seq<nat>, x: nat)
    requires Reduces(d, r, v) && DistinctTops(r) && |r| == |d| && SquaresToZero(d)
    requires PairsBelow(r, |r|, pairs) && UnpairedBelow(r, |r|, unpaired)
    requires x < |d|
    ensures Births(pairs, x) + Deaths(pairs, x) + Bit(x in unpaired) == 1
  {
    BirthCount(r, pairs, x);
    DeathCount(r, pairs, x);
    if IsBirth(r, x) {
      var j :| 0 <= j < |r| && IsTop(r[j], x);
      BirthsAreCycles(d, r, v, j, x);
    }
  }
}
