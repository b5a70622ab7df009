/**
 The homology of the test graphs: the grid and the diamond chain are contractible, so vertex 0 is
 the only unpaired cell and every square ends a loop.
 */
module LatticeHomology {
  import opened Counting
  import opened Gf2
  import opened Sorting
  import opened SquareComplex
  import opened ComplexBuilder
  import opened Persistence
  import opened Homology
  import opened Components
  import opened DiamondChain
  import opened Grid

  /** Every vertex but 0 is the end of an edge from an earlier one. */
  ghost predicate Entered(n: nat, edges: seq<Edge>) {
    forall w: nat :: 0 < w < n ==> EntersFromBelow(edges, w)
  }

  ghost predicate EntersFromBelow(edges: seq<Edge>, w: nat) {
    exists u: nat :: u < w && (u, w) in edges
  }

  lemma NotRoot(edges: seq<Edge>, w: nat)
    requires EntersFromBelow(edges, w)
    ensures !Root(edges, w)
  {
    var u: nat :| u < w && (u, w) in edges;
    assert Connects(edges, [w, u], w, u);
    assert Connected(edges, w, u);
  }

  lemma NoneBetween(s: seq<nat>, lo: nat, hi: nat)
    requires forall x :: x in s ==> !(lo <= x < hi)
    ensures Count(s, In(lo, hi)) == 0
  {
    forall i | 0 <= i < |s| ensures !In(lo, hi)(s[i]) {
      assert s[i] in s;
    }
    CountNone(s, In(lo, hi));
  }

  lemma SomeBetween(s: seq<nat>, lo: nat, hi: nat, x: nat)
    requires x in s && lo <= x < hi
    ensures Count(s, In(lo, hi)) > 0
  {
    var i :| 0 <= i < |s| && s[i] == x;
    assert In(lo, hi)(s[i]);
    CountUpdate(s, i, x, In(lo, hi));
  }

  /** Below m only, and below n only zero. */
  ghost predicate OnlyZeroBelow(s: seq<nat>, n: nat, m: nat) {
    forall x :: x in s ==> x < m && (x < n ==> x == 0)
  }

  lemma OnlyZero(s: seq<nat>)
    requires Increasing(s) && 0 in s && forall x :: x in s ==> x == 0
    ensures s == [0]
  {
    assert s[0] in s && s[|s| - 1] in s;
  }

  lemma EulerOne(pairs: seq<(nat, nat)>, s: seq<nat>, n: nat, m: nat, k: nat)
    requires 0 < n <= m <= k && Joins(pairs, n, m, k) && Partitioned(pairs, s, k)
    requires Increasing(s) && OnlyZeroBelow(s, n, m) && n - (m - n) + (k - m) == 1
    ensures s == [0] && Count(pairs, DiesIn(m, k)) == k - m
  {
    EulerCount(pairs, s, n, m, k);
    NoneBetween(s, m, k);
    NoneBetween(s, 1, n);
    CountSplit(s, In(0, 1), In(1, n), In(0, n));
    CountMember(s, 0);
    forall x | x in s ensures x == 0 {
      if n <= x { SomeBetween(s, n, m, x); }
    }
    OnlyZero(s);
    BlockCount(pairs, s, m, k, k);
    CountNone(pairs, BornIn(m, k));
  }

  lemma UnpairedRoots(cx: Complex, d: seq<Column>, r: seq<Column>, v: seq<Column>,
                      pairs: seq<(nat, nat)>, unpaired: seq<nat>)
    requires Closed(cx) && IsPersistence(cx, d, r, v, pairs, unpaired) && Upward(cx.edges)
    requires OneSquareEach(cx.squares) && Entered(cx.numVertices, cx.edges)
    ensures Increasing(unpaired) && OnlyZeroBelow(unpaired, cx.numVertices, cx.numVertices + |cx.edges|)
  {
    NoUnpairedSquares(cx, d, r, v, pairs, unpaired);
    forall w | w in unpaired ensures w < cx.numVertices ==> w == 0 {
      if 0 < w < cx.numVertices {
        NotRoot(cx.edges, w);
        UnpairedVertices(cx, d, r, v, pairs, unpaired, w);
        assert false;
      }
    }
  }

  /** How many pairs die at a square. */
  function LoopsEnded(cx: Complex, pairs: seq<(nat, nat)>): nat {
    var m := cx.numVertices + |cx.edges|;
    Count(pairs, DiesIn(m, m + |cx.squares|))
  }

  /** Euler characteristic one, one component and no unpaired square leave no unpaired edge. */
  lemma Contractible(cx: Complex, d: seq<Column>, r: seq<Column>, v: seq<Column>,
                     pairs: seq<(nat, nat)>, unpaired: seq<nat>)
    requires Closed(cx) && IsPersistence(cx, d, r, v, pairs, unpaired)
    requires Upward(cx.edges) && OneSquareEach(cx.squares) && Entered(cx.numVertices, cx.edges)
    requires cx.numVertices > 0 && cx.numVertices - |cx.edges| + |cx.squares| == 1
    ensures unpaired == [0]
    ensures LoopsEnded(cx, pairs) == |cx.squares|
  {
    UnpairedRoots(cx, d, r, v, pairs, unpaired);
    PersistencePartitioned(cx, d, r, v, pairs, unpaired);
    PairsJoin(cx, d, r, v, pairs, unpaired);
    var n, m, k := cx.numVertices, cx.numVertices + |cx.edges|, |d|;
    EulerOne(pairs, unpaired, n, m, k);
    LoopsCount(cx, pairs, m, k);
  }

  lemma LoopsCount(cx: Complex, pairs: seq<(nat, nat)>, m: nat, k: nat)
    requires m == cx.numVertices + |cx.edges| && k == m + |cx.squares|
    ensures LoopsEnded(cx, pairs) == Count(pairs, DiesIn(m, k))
  {
  }

  /** A complex as `from_edges` builds it. */
  ghost predicate Built(cx: Complex, n: nat, given: seq<Edge>) {
    && cx.numVertices == n && cx.edges == CleanEdges(n, given)
    && StrictlySorted(cx.squares, SquareLe())
    && forall q :: q in cx.squares <==> Diamond(cx.edges, q)
  }

  lemma UpwardAll(edges: seq<Edge>)
    requires forall e :: e in edges ==> e.0 < e.1
    ensures Upward(edges)
  {
    forall i | 0 <= i < |edges| ensures edges[i].0 < edges[i].1 {
      assert edges[i] in edges;
    }
  }

  // The diamond chain.

  lemma {:induction false} ChainFirstCorners(n: nat, a: nat)
    requires a < n
    ensures ChainSquares(n)[a].0 == 3 * a
  {
    if a < n - 1 { ChainFirstCorners(n - 1, a); }
  }

  lemma ChainStepInto(n: nat, w: nat) returns (u: nat)
    requires 0 < w < 3 * n + 1
    ensures u < w && ChainEdge(n, (u, w))
  {
    var i, j := w / 3, w % 3;
    assert w == 3 * i + j;
    if j == 0 { u := w - 1; } else { u := 3 * i; }
  }

  lemma ChainEntered(n: nat, w: nat)
    requires 0 < w < 3 * n + 1
    ensures EntersFromBelow(ChainEdges(n), w)
  {
    var u := ChainStepInto(n, w);
    ChainEdgesAre(n);
    assert (u, w) in ChainEdges(n);
  }

  lemma ChainShape(n: nat)
    ensures Upward(ChainEdges(n)) && OneSquareEach(ChainSquares(n)) && Entered(3 * n + 1, ChainEdges(n))
  {
    var s := ChainEdges(n);
    ChainEdgesAre(n);
    forall e | e in s ensures e.0 < e.1 {
      assert ChainEdge(n, e);
    }
    UpwardAll(s);
    forall a, b | 0 <= a < b < n ensures ChainSquares(n)[a].0 < ChainSquares(n)[b].0 {
      ChainFirstCorners(n, a);
      ChainFirstCorners(n, b);
    }
    forall w: nat | 0 < w < 3 * n + 1 ensures EntersFromBelow(s, w) {
      ChainEntered(n, w);
    }
  }

  /** `build_diamond_chain` of n diamonds: 3n pairs of a vertex and n of a loop, nothing left but vertex 0. */
  lemma ChainHomology(n: nat, cx: Complex, d: seq<Column>, r: seq<Column>, v: seq<Column>,
                      pairs: seq<(nat, nat)>, unpaired: seq<nat>)
    requires Built(cx, 3 * n + 1, ChainEdges(n)) && Closed(cx) && IsPersistence(cx, d, r, v, pairs, unpaired)
    ensures unpaired == [0] && LoopsEnded(cx, pairs) == n
  {
    ChainComplex(n, cx);
    ChainShape(n);
    Contractible(cx, d, r, v, pairs, unpaired);
  }

  // The grid.

  lemma StrictFirstCorners(s: seq<Square>, n: nat)
    requires StrictlySorted(s, SquareLe()) && forall q :: q in s ==> q == UnitSquare(n, q.0)
    ensures OneSquareEach(s)
  {
    forall a, b | 0 <= a < b < |s| ensures s[a].0 < s[b].0 {
      assert s[a] in s && s[b] in s;
      assert SquareLe()(s[a], s[b]) && !SquareLe()(s[b], s[a]);
    }
  }

  lemma StepIntoRow(n: nat, i: nat, j: nat)
    requires i < n && 0 < j < n
    ensures 0 < i * n + j && HasRight(n)(i * n + j - 1)
  {
    CellFacts(n, i, j - 1);
    assert i * n + j - 1 == i * n + (j - 1);
  }

  lemma StepIntoColumn(n: nat, i: nat)
    requires 0 < i < n
    ensures n <= i * n && HasBelow(n)(i * n - n)
  {
    CellFacts(n, i - 1, 0);
    assert i * n - n == (i - 1) * n + 0;
  }

  /** Every vertex but the first has an edge from the left or from above. */
  lemma StepInto(n: nat, w: nat) returns (u: nat)
    requires n > 0 && 0 < w < n * n
    ensures u < w && StepEdge(n, HasRight(n), HasBelow(n), (u, w))
  {
    CellOf(n, w);
    var i, j := w / n, w % n;
    if j > 0 {
      StepIntoRow(n, i, j);
      u := w - 1;
    } else {
      StepIntoColumn(n, i);
      u := w - n;
    }
  }

  lemma StepEnters(n: nat, right: nat -> bool, below: nat -> bool, m: nat, u: nat, w: nat)
    requires n < 2 ==> forall v: nat :: !right(v)
    requires u < w && u < m && StepEdge(n, right, below, (u, w))
    ensures EntersFromBelow(EdgesUpTo(n, right, below, m), w)
  {
    EdgesUpToAre(n, right, below, m);
    assert (u, w) in EdgesUpTo(n, right, below, m);
  }

  lemma GridEntered(n: nat, w: nat)
    requires n > 0 && 0 < w < n * n
    ensures EntersFromBelow(GridEdges(n), w)
  {
    var u := StepInto(n, w);
    StepEnters(n, HasRight(n), HasBelow(n), n * n, u, w);
  }

  lemma GridShape(n: nat)
    requires n > 0
    ensures Upward(GridEdges(n)) && OneSquareEach(GridSquares(n)) && Entered(n * n, GridEdges(n))
  {
    EdgesUpToAre(n, HasRight(n), HasBelow(n), n * n);
    forall e | e in GridEdges(n) ensures e.0 < e.1 {
      assert StepEdge(n, HasRight(n), HasBelow(n), e);
    }
    UpwardAll(GridEdges(n));
    SquaresUpToAre(n, HasRight(n), HasBelow(n), n * n);
    StrictFirstCorners(GridSquares(n), n);
    forall w: nat | 0 < w < n * n ensures EntersFromBelow(GridEdges(n), w) {
      GridEntered(n, w);
    }
  }

  lemma GridEuler(n: nat)
    requires n > 0
    ensures n * n - |GridEdges(n)| + |GridSquares(n)| == 1
  {
    GridCounts(n);
    assert (n - 1) * (n - 1) == n * n - 2 * n + 1;
    assert 2 * n * (n - 1) == 2 * (n * n) - 2 * n;
  }

  /** `build_grid_edges`: the (n-1)^2 squares end as many loops, and only vertex 0 is left. */
  lemma GridHomology(n: nat, cx: Complex, d: seq<Column>, r: seq<Column>, v: seq<Column>,
                     pairs: seq<(nat, nat)>, unpaired: seq<nat>)
    requires n > 0
    requires Built(cx, n * n, GridEdges(n)) && Closed(cx) && IsPersistence(cx, d, r, v, pairs, unpaired)
    ensures unpaired == [0] && LoopsEnded(cx, pairs) == (n - 1) * (n - 1)
  {
    GridComplex(n, cx);
    GridShape(n);
    GridEuler(n);
    GridCounts(n);
    Contractible(cx, d, r, v, pairs, unpaired);
  }

  // From the builders to the persistence pairs.

  method ChainPersistence(n: nat) returns (cx: Complex, pairs: seq<(nat, nat)>, unpaired: seq<nat>)
    ensures Built(cx, 3 * n + 1, ChainEdges(n)) && unpaired == [0] && LoopsEnded(cx, pairs) == |cx.squares| == n
  {
    var numVerts, edges := BuildDiamondChain(n);
    ghost var d, r, v;
    cx, pairs, unpaired, d, r, v := PersistenceOfEdges(numVerts, edges);
    ChainHomology(n, cx, d, r, v, pairs, unpaired);
    ChainComplex(n, cx);
  }

  /** Nothing in, nothing out. */
  lemma EmptyHomology(cx: Complex, d: seq<Column>, r: seq<Column>, v: seq<Column>,
                      pairs: seq<(nat, nat)>, unpaired: seq<nat>)
    requires Built(cx, 0, []) && Closed(cx) && IsPersistence(cx, d, r, v, pairs, unpaired)
    ensures pairs == [] && unpaired == []
  {
    assert cx.edges == [];
    NoSquares(cx);
    NoPairs(r, pairs);
    NoneUnpaired(r, unpaired);
  }

  lemma NoSquares(cx: Complex)
    ensures Built(cx, 0, []) ==> cx.squares == []
  {
    if cx.squares != [] { assert cx.squares[0] in cx.squares; }
  }

  lemma NoPairs(r: seq<Column>, pairs: seq<(nat, nat)>)
    ensures PairsBelow(r, 0, pairs) ==> pairs == []
  {
    if pairs != [] { assert pairs[0].1 >= 0; }
  }

  lemma NoneUnpaired(r: seq<Column>, unpaired: seq<nat>)
    ensures UnpairedBelow(r, 0, unpaired) ==> unpaired == []
  {
    if unpaired != [] { assert unpaired[0] >= 0; }
  }

  lemma NoGridEdges()
    ensures GridEdges(0) == []
  {
  }

  /** An n by n grid: one component, and a loop for every square. */
  ghost predicate GridResult(n: nat, cx: Complex, pairs: seq<(nat, nat)>, unpaired: seq<nat>) {
    if n == 0 then pairs == [] && unpaired == []
    else unpaired == [0] && LoopsEnded(cx, pairs) == (n - 1) * (n - 1)
  }

  lemma GridResultHolds(n: nat, numVerts: nat, cx: Complex, d: seq<Column>, r: seq<Column>, v: seq<Column>,
                        pairs: seq<(nat, nat)>, unpaired: seq<nat>)
    requires numVerts == n * n && Built(cx, numVerts, GridEdges(n))
    requires Closed(cx) && IsPersistence(cx, d, r, v, pairs, unpaired)
    ensures GridResult(n, cx, pairs, unpaired)
  {
    if n == 0 {
      NoGridEdges();
      EmptyHomology(cx, d, r, v, pairs, unpaired);
    } else {
      GridHomology(n, cx, d, r, v, pairs, unpaired);
    }
  }

  method GridPersistence(n: nat) returns (cx: Complex, pairs: seq<(nat, nat)>, unpaired: seq<nat>)
    ensures Built(cx, n * n, GridEdges(n)) && GridResult(n, cx, pairs, unpaired)
  {
    var numVerts, edges := BuildGridEdges(n);
    ghost var d, r, v;
    cx, pairs, unpaired, d, r, v := PersistenceOfEdges(numVerts, edges);
    GridResultHolds(n, numVerts, cx, d, r, v, pairs, unpaired);
  }
}
