/** The second family of test graphs: the n x n grid, vertex (i, j) having number i*n + j. */
module Grid {
  import opened Arithmetic
  import opened Counting
  import opened Sorting
  import opened SquareComplex
  import opened ComplexBuilder

  /** Whether vertex u has a neighbour to its right, and one below it. */
  function HasRight(n: nat): nat -> bool { (u: nat) => n > 0 && u % n + 1 < n }
  function HasBelow(n: nat): nat -> bool { (u: nat) => u + n < n * n }

  // Everything but the counting is about steps of 1 and of n between vertices, taken where
  // `right` and `below` say so.

  function VertexEdges(n: nat, right: nat -> bool, below: nat -> bool, u: nat): seq<Edge> {
    (if right(u) then [(u, u + 1)] else []) + (if below(u) then [(u, u + n)] else [])
  }

  /** The edges leaving the first u vertices. */
  function EdgesUpTo(n: nat, right: nat -> bool, below: nat -> bool, u: nat): seq<Edge> {
    if u == 0 then [] else EdgesUpTo(n, right, below, u - 1) + VertexEdges(n, right, below, u - 1)
  }

  /** The squares whose first corner is among the first u vertices. */
  function SquaresUpTo(n: nat, right: nat -> bool, below: nat -> bool, u: nat): seq<Square> {
    if u == 0 then []
    else SquaresUpTo(n, right, below, u - 1) + VertexSquares(n, right, below, u - 1)
  }

  function VertexSquares(n: nat, right: nat -> bool, below: nat -> bool, u: nat): seq<Square> {
    if right(u) && below(u) then [UnitSquare(n, u)] else []
  }

  function UnitSquare(n: nat, u: nat): Square { (u, u + 1, u + n, u + n + 1) }

  function GridEdges(n: nat): seq<Edge> { EdgesUpTo(n, HasRight(n), HasBelow(n), n * n) }

  function GridSquares(n: nat): seq<Square> { SquaresUpTo(n, HasRight(n), HasBelow(n), n * n) }

  lemma RowsBelow(n: nat, i: nat)
    requires i < n
    ensures i * n + n <= n * n
    ensures i + 1 < n ==> i * n + 2 * n <= n * n
    ensures i + 1 == n ==> i * n + n == n * n
  {
    assert n * n == i * n + (n - i) * n;
    MultipleBounds(n, n - i);
    MultipleBounds(n, n - i - 1);
    assert (n - i) * n == n + (n - i - 1) * n;
  }

  lemma CellFacts(n: nat, i: nat, j: nat)
    requires i < n && j < n
    ensures i * n + j < n * n && (i + 1) * n == i * n + n
    ensures HasRight(n)(i * n + j) <==> j + 1 < n
    ensures HasBelow(n)(i * n + j) <==> i + 1 < n
  {
    RemainderUnique(i * n + j, i, j, n);
    RowsBelow(n, i);
  }

  /** The body of the two loops: the edges to the right and down from (i, j). */
  method PushCell(n: nat, i: nat, j: nat, edges: seq<Edge>) returns (more: seq<Edge>)
    requires i < n && j < n
    ensures more == edges + VertexEdges(n, HasRight(n), HasBelow(n), i * n + j)
  {
    CellFacts(n, i, j);
    more := edges;
    if j + 1 < n {
      more := more + [(i * n + j, i * n + (j + 1))];
    }
    if i + 1 < n {
      more := more + [(i * n + j, (i + 1) * n + j)];
    }
  }

  method BuildGridEdges(n: nat) returns (numVerts: nat, edges: seq<Edge>)
    ensures numVerts == n * n && edges == GridEdges(n)
  {
    edges := [];
    ghost var u := 0;
    for i := 0 to n
      invariant u == i * n && edges == EdgesUpTo(n, HasRight(n), HasBelow(n), u)
    {
      for j := 0 to n
        invariant u == i * n + j && edges == EdgesUpTo(n, HasRight(n), HasBelow(n), u)
      {
        edges := PushCell(n, i, j, edges);
        u := u + 1;
      }
      AddRow(i + 1, n);
    }
    numVerts := n * n;
  }

  // What the edges and the squares are.

  ghost predicate StepEdge(n: nat, right: nat -> bool, below: nat -> bool, e: Edge) {
    (e.1 == e.0 + 1 && right(e.0)) || (e.1 == e.0 + n && below(e.0))
  }

  lemma VertexEdgesAre(n: nat, right: nat -> bool, below: nat -> bool, u: nat)
    requires right(u) ==> n >= 2
    ensures forall e :: e in VertexEdges(n, right, below, u) <==> e.0 == u && StepEdge(n, right, below, e)
    ensures StrictlySorted(VertexEdges(n, right, below, u), EdgeLe())
  {
    var t := VertexEdges(n, right, below, u);
    if right(u) {
      assert t[0] == (u, u + 1);
      if below(u) { assert t[1] == (u, u + n); }
    } else if below(u) {
      assert t[0] == (u, u + n);
    }
  }

  lemma {:induction false} EdgesUpToAre(n: nat, right: nat -> bool, below: nat -> bool, u: nat)
    requires n < 2 ==> forall v: nat :: !right(v)
    ensures forall e :: e in EdgesUpTo(n, right, below, u) <==> e.0 < u && StepEdge(n, right, below, e)
    ensures StrictlySorted(EdgesUpTo(n, right, below, u), EdgeLe())
  {
    if u > 0 {
      EdgesUpToAre(n, right, below, u - 1);
      var s, t := EdgesUpTo(n, right, below, u - 1), VertexEdges(n, right, below, u - 1);
      VertexEdgesAre(n, right, below, u - 1);
      forall x, y | x in s && y in t ensures EdgeLe()(x, y) && !EdgeLe()(y, x) {
        assert x.0 < y.0;
      }
      ConcatStrict(s, t, EdgeLe());
    }
  }

  ghost predicate StepSquare(n: nat, right: nat -> bool, below: nat -> bool, q: Square) {
    q == UnitSquare(n, q.0) && right(q.0) && below(q.0)
  }

  lemma VertexSquaresAre(n: nat, right: nat -> bool, below: nat -> bool, u: nat)
    ensures forall q :: q in VertexSquares(n, right, below, u) <==> q.0 == u && StepSquare(n, right, below, q)
    ensures StrictlySorted(VertexSquares(n, right, below, u), SquareLe())
  {
    assert right(u) && below(u) ==> VertexSquares(n, right, below, u)[0] == UnitSquare(n, u);
  }

  lemma {:induction false} SquaresUpToAre(n: nat, right: nat -> bool, below: nat -> bool, u: nat)
    ensures forall q :: q in SquaresUpTo(n, right, below, u) <==> q.0 < u && StepSquare(n, right, below, q)
    ensures StrictlySorted(SquaresUpTo(n, right, below, u), SquareLe())
  {
    if u > 0 {
      SquaresUpToAre(n, right, below, u - 1);
      var s, t := SquaresUpTo(n, right, below, u - 1), VertexSquares(n, right, below, u - 1);
      VertexSquaresAre(n, right, below, u - 1);
      forall x, y | x in s && y in t ensures SquareLe()(x, y) && !SquareLe()(y, x) {
        assert x.0 < y.0;
      }
      ConcatStrict(s, t, SquareLe());
    }
  }

  /** Two routes from one vertex to another go around a unit square. */
  lemma StepDiamond(n: nat, right: nat -> bool, below: nat -> bool, q: Square)
    requires n >= 2
    requires right(q.0) && below(q.0) ==> right(q.0 + n) && below(q.0 + 1)
    ensures q.1 < q.2 && StepEdge(n, right, below, (q.0, q.1)) && StepEdge(n, right, below, (q.0, q.2))
      && StepEdge(n, right, below, (q.1, q.3)) && StepEdge(n, right, below, (q.2, q.3))
      <==> StepSquare(n, right, below, q)
  {
  }

  /** The cell of a vertex, from its number. */
  lemma CellOf(n: nat, u: nat)
    requires n > 0 && u < n * n
    ensures u / n < n && u % n < n && u == u / n * n + u % n
  {
    var i := u / n;
    assert u == i * n + u % n;
    if i >= n {
      assert i * n == n * n + (i - n) * n;
      MultipleBounds(i - n, n);
      assert false;
    }
  }

  lemma CellSteps(n: nat, i: nat, j: nat, u: nat)
    requires i < n && j < n && u == i * n + j
    ensures HasRight(n)(u) && HasBelow(n)(u) ==> HasRight(n)(u + n) && HasBelow(n)(u + 1)
    ensures HasRight(n)(u) ==> u + 1 < n * n
  {
    CellFacts(n, i, j);
    if j + 1 < n {
      CellFacts(n, i, j + 1);
      assert i * n + (j + 1) == u + 1;
      if i + 1 < n {
        CellFacts(n, i + 1, j);
        assert (i + 1) * n + j == u + n;
      }
    }
  }

  lemma GridSteps(n: nat, u: nat)
    requires u < n * n
    ensures HasRight(n)(u) && HasBelow(n)(u) ==> HasRight(n)(u + n) && HasBelow(n)(u + 1)
    ensures HasRight(n)(u) ==> u + 1 < n * n
  {
    if n > 0 {
      CellOf(n, u);
      CellSteps(n, u / n, u % n, u);
    }
  }

  // How many.

  lemma CellCounts(n: nat, i: nat, row: nat, j: nat)
    requires i < n && j < n && row == i * n
    ensures |VertexEdges(n, HasRight(n), HasBelow(n), row + j)| == Bit(j + 1 < n) + Bit(i + 1 < n)
    ensures |VertexSquares(n, HasRight(n), HasBelow(n), row + j)| == Bit(j + 1 < n && i + 1 < n)
  {
    CellFacts(n, i, j);
  }

  lemma {:induction false} RowCounts(n: nat, i: nat, row: nat, j: nat)
    requires i < n && j <= n && row == i * n
    ensures |EdgesUpTo(n, HasRight(n), HasBelow(n), row + j)|
      == |EdgesUpTo(n, HasRight(n), HasBelow(n), row)| + (if j < n then j else n - 1) + (if i + 1 < n then j else 0)
    ensures |SquaresUpTo(n, HasRight(n), HasBelow(n), row + j)|
      == |SquaresUpTo(n, HasRight(n), HasBelow(n), row)| + (if i + 1 == n then 0 else if j < n then j else n - 1)
  {
    if j > 0 {
      RowCounts(n, i, row, j - 1);
      CellCounts(n, i, row, j - 1);
      assert row + j - 1 == row + (j - 1);
    }
  }

  lemma {:induction false} RowsCounts(n: nat, i: nat)
    requires i < n
    ensures |EdgesUpTo(n, HasRight(n), HasBelow(n), i * n)| == i * (2 * n - 1)
    ensures |SquaresUpTo(n, HasRight(n), HasBelow(n), i * n)| == i * (n - 1)
  {
    if i > 0 {
      RowsCounts(n, i - 1);
      RowCounts(n, i - 1, (i - 1) * n, n);
      AddRow(i, n);
      AddRow(i, 2 * n - 1);
      AddRow(i, n - 1);
    }
  }

  lemma AddRow(i: int, m: int)
    ensures (i - 1) * m + m == i * m
  {
  }

  /** An n x n grid has 2n(n-1) edges and (n-1)^2 squares. */
  /** From (i, j) there are edges to (i, j + 1) and (i + 1, j), and no others. */
  lemma GridEdgeIff(n: nat, i: nat, j: nat, i': nat, j': nat, u: nat, v: nat)
    requires i < n && j < n && i' < n && j' < n && u == i * n + j && v == i' * n + j'
    ensures (u, v) in GridEdges(n) <==> (i' == i && j' == j + 1) || (i' == i + 1 && j' == j)
  {
    CellStep(n, i, j, i', j', u, v);
    InGrid(n, HasRight(n), HasBelow(n), n * n, u, v);
  }

  lemma InGrid(n: nat, right: nat -> bool, below: nat -> bool, m: nat, u: nat, v: nat)
    requires u < m && (n < 2 ==> forall x: nat :: !right(x))
    ensures (u, v) in EdgesUpTo(n, right, below, m) <==> StepEdge(n, right, below, (u, v))
  {
    EdgesUpToAre(n, right, below, m);
    var e: Edge := (u, v);
    assert e in EdgesUpTo(n, right, below, m) <==> e.0 < m && StepEdge(n, right, below, e);
  }

  lemma CellStep(n: nat, i: nat, j: nat, i': nat, j': nat, u: nat, v: nat)
    requires i < n && j < n && i' < n && j' < n && u == i * n + j && v == i' * n + j'
    ensures u < n * n
    ensures StepEdge(n, HasRight(n), HasBelow(n), (u, v)) <==> (i' == i && j' == j + 1) || (i' == i + 1 && j' == j)
  {
    CellFacts(n, i, j);
    if j + 1 < n && v == u + 1 { SameCell(n, i, j + 1, i', j'); }
    if i + 1 < n && v == u + n { SameCell(n, i + 1, j, i', j'); }
  }

  lemma SameCell(n: nat, i: nat, j: nat, i': nat, j': nat)
    requires j < n && j' < n && i * n + j == i' * n + j'
    ensures i == i' && j == j'
  {
    RemainderUnique(i * n + j, i, j, n);
    RemainderUnique(i * n + j, i', j', n);
    DivUnique(i * n + j, i, j, n);
    DivUnique(i * n + j, i', j', n);
  }

  lemma GridCounts(n: nat)
    requires n > 0
    ensures |GridEdges(n)| == 2 * n * (n - 1) && |GridSquares(n)| == (n - 1) * (n - 1)
  {
    RowsCounts(n, n - 1);
    RowCounts(n, n - 1, (n - 1) * n, n);
    AddRow(n, n);
    LastRow(n);
  }

  lemma LastRow(n: nat)
    ensures (n - 1) * (2 * n - 1) + (n - 1) == 2 * n * (n - 1)
  {
    AddRow(2 * n, n - 1);
  }

  // The complex.

  lemma GridClean(n: nat)
    ensures CleanEdges(n * n, GridEdges(n)) == GridEdges(n)
  {
    var s := GridEdges(n);
    EdgesUpToAre(n, HasRight(n), HasBelow(n), n * n);
    forall e | e in s ensures Proper(n * n, e) {
      GridSteps(n, e.0);
    }
    CleanEdgesSpec(n * n, s);
    StrictlySortedUnique(CleanEdges(n * n, s), s, EdgeLe());
  }

  lemma GridDiamond(n: nat, q: Square)
    ensures Diamond(GridEdges(n), q) <==> q in GridSquares(n)
  {
    EdgesUpToAre(n, HasRight(n), HasBelow(n), n * n);
    SquaresUpToAre(n, HasRight(n), HasBelow(n), n * n);
    if n >= 2 && q.0 < n * n {
      GridSteps(n, q.0);
      StepDiamond(n, HasRight(n), HasBelow(n), q);
    }
  }

  lemma GridSquaresSorted(n: nat)
    ensures StrictlySorted(GridSquares(n), SquareLe())
  {
    SquaresUpToAre(n, HasRight(n), HasBelow(n), n * n);
  }

  /** The complex built from the grid has exactly the grid's edges and its unit squares. */
  lemma GridComplex(n: nat, cx: Complex)
    requires cx.edges == CleanEdges(n * n, GridEdges(n))
    requires StrictlySorted(cx.squares, SquareLe()) && forall q :: q in cx.squares <==> Diamond(cx.edges, q)
    ensures cx.edges == GridEdges(n) && cx.squares == GridSquares(n)
  {
    GridClean(n);
    GridSquaresSorted(n);
    forall q: Square ensures q in cx.squares <==> q in GridSquares(n) {
      GridDiamond(n, q);
    }
    StrictlySortedUnique(cx.squares, GridSquares(n), SquareLe());
  }
}
