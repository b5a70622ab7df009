/**
 The square cell complex of a dependency graph: vertices, edges and commuting diamonds, and
 its combined boundary matrix.
 */
module SquareComplex {
  import opened Gf2

  type Edge = (nat, nat)
  type Square = (nat, nat, nat, nat)

  datatype Complex = Complex(numVertices: nat, edges: seq<Edge>, squares: seq<Square>)

  function EdgeLe(): (Edge, Edge) -> bool {
    (x: Edge, y: Edge) => x.0 < y.0 || (x.0 == y.0 && x.1 <= y.1)
  }

  predicate Proper(n: nat, e: Edge) {
    e.0 < n && e.1 < n && e.0 < e.1
  }

  /** a -> b, a -> c, b -> d and c -> d are edges and b comes before c. */
  ghost predicate Diamond(edges: seq<Edge>, q: Square) {
    q.1 < q.2 && (q.0, q.1) in edges && (q.0, q.2) in edges && (q.1, q.3) in edges && (q.2, q.3) in edges
  }

  // The combined boundary matrix.

  function IndexOf(edges: seq<Edge>, e: Edge): (i: nat)
    requires e in edges
    ensures i < |edges| && edges[i] == e
  {
    if edges[0] == e then 0 else 1 + IndexOf(edges[1..], e)
  }

  /** The rows set in the column of an edge, and of a square. */
  function EdgeColumn(e: Edge): Column { {e.0, e.1} }

  function SquareColumn(n: nat, edges: seq<Edge>, q: Square): Column
    requires (q.0, q.1) in edges && (q.0, q.2) in edges && (q.1, q.3) in edges && (q.2, q.3) in edges
  {
    {n + IndexOf(edges, (q.0, q.1)), n + IndexOf(edges, (q.0, q.2)),
     n + IndexOf(edges, (q.1, q.3)), n + IndexOf(edges, (q.2, q.3))}
  }

  /** The four edges of every square are present; nothing is assumed about order or duplicates. */
  ghost predicate Closed(cx: Complex) {
    && (forall i :: 0 <= i < |cx.edges| ==> cx.edges[i].0 < cx.numVertices && cx.edges[i].1 < cx.numVertices)
    && (forall i :: 0 <= i < |cx.squares| ==> Bounded(cx.edges, cx.squares[i]))
  }

  ghost predicate Bounded(edges: seq<Edge>, q: Square) {
    (q.0, q.1) in edges && (q.0, q.2) in edges && (q.1, q.3) in edges && (q.2, q.3) in edges
  }

  /** Column j of the combined matrix: a vertex, an edge or a square. */
  ghost function CellColumn(cx: Complex, j: nat): Column
    requires Closed(cx) && j < |cx.squares| + |cx.edges| + cx.numVertices
  {
    if j < cx.numVertices then {}
    else if j < cx.numVertices + |cx.edges| then EdgeColumn(cx.edges[j - cx.numVertices])
    else SquareColumn(cx.numVertices, cx.edges, cx.squares[j - cx.numVertices - |cx.edges|])
  }

  ghost predicate IsCombined(cx: Complex, d: seq<Column>)
    requires Closed(cx)
  {
    && |d| == cx.numVertices + |cx.edges| + |cx.squares|
    && forall j :: 0 <= j < |d| ==> d[j] == CellColumn(cx, j)
  }

  /** The first j columns are done, the others still empty. */
  ghost predicate FilledUpTo(cx: Complex, d: seq<Column>, j: nat)
    requires Closed(cx)
  {
    && |d| == cx.numVertices + |cx.edges| + |cx.squares| && j <= |d|
    && (forall k :: 0 <= k < j ==> d[k] == CellColumn(cx, k))
    && (forall k :: j <= k < |d| ==> d[k] == {})
  }

  method SetEdge(cx: Complex, d: seq<Column>, i: nat) returns (d': seq<Column>)
    requires Closed(cx) && i < |cx.edges| && FilledUpTo(cx, d, cx.numVertices + i)
    ensures FilledUpTo(cx, d', cx.numVertices + i + 1)
  {
    var col := cx.numVertices + i;
    d' := Set(d, cx.edges[i].0, col);
    d' := Set(d', cx.edges[i].1, col);
    assert d'[col] == EdgeColumn(cx.edges[i]);
  }

  method SetSquare(cx: Complex, d: seq<Column>, i: nat) returns (d': seq<Column>)
    requires Closed(cx) && i < |cx.squares| && FilledUpTo(cx, d, cx.numVertices + |cx.edges| + i)
    ensures FilledUpTo(cx, d', cx.numVertices + |cx.edges| + i + 1)
  {
    var edgeOffset := cx.numVertices;
    var col := edgeOffset + |cx.edges| + i;
    var q := cx.squares[i];
    assert Bounded(cx.edges, q);
    d' := Set(d, edgeOffset + IndexOf(cx.edges, (q.0, q.1)), col);
    d' := Set(d', edgeOffset + IndexOf(cx.edges, (q.0, q.2)), col);
    d' := Set(d', edgeOffset + IndexOf(cx.edges, (q.1, q.3)), col);
    d' := Set(d', edgeOffset + IndexOf(cx.edges, (q.2, q.3)), col);
    assert d'[col] == SquareColumn(cx.numVertices, cx.edges, q);
  }

  method CombinedBoundaryMatrix(cx: Complex) returns (d: seq<Column>)
    requires Closed(cx)
    ensures IsCombined(cx, d)
  {
    d := seq(cx.numVertices + |cx.edges| + |cx.squares|, _ => {});
    for i := 0 to |cx.edges|
      invariant FilledUpTo(cx, d, cx.numVertices + i)
    {
      d := SetEdge(cx, d, i);
    }
    for i := 0 to |cx.squares|
      invariant FilledUpTo(cx, d, cx.numVertices + |cx.edges| + i)
    {
      d := SetSquare(cx, d, i);
    }
  }

  function Set(d: seq<Column>, row: nat, col: nat): seq<Column>
    requires col < |d|
  {
    d[col := d[col] + {row}]
  }

  // The boundary of a boundary.

  ghost predicate NoLoops(edges: seq<Edge>) {
    forall i :: 0 <= i < |edges| ==> edges[i].0 != edges[i].1
  }

  lemma SingletonCell(cx: Complex, d: seq<Column>, j: nat)
    requires Closed(cx) && IsCombined(cx, d) && j < |d|
    ensures Apply(d, {j}) == CellColumn(cx, j)
  {
    CombineSingle(d, j, |d|);
  }

  lemma EdgeBoundaryVanishes(cx: Complex, d: seq<Column>, e: Edge)
    requires Closed(cx) && IsCombined(cx, d) && NoLoops(cx.edges) && e in cx.edges
    ensures Apply(d, EdgeColumn(e)) == {}
  {
    SingletonCell(cx, d, e.0);
    SingletonCell(cx, d, e.1);
    ApplyXor(d, {e.0}, {e.1});
    assert EdgeColumn(e) == Xor({e.0}, {e.1});
    assert Xor({}, {}) == {};
  }

  /** The boundary of a square's column, when its sides do not coincide. */
  lemma SquareBoundary(cx: Complex, d: seq<Column>, q: Square)
    requires Closed(cx) && IsCombined(cx, d) && NoLoops(cx.edges) && Bounded(cx.edges, q)
    requires q.1 != q.2
    ensures Apply(d, SquareColumn(cx.numVertices, cx.edges, q)) == {}
  {
    var n := cx.numVertices;
    var (a, b, c, dd) := q;
    var ab, ac := IndexOf(cx.edges, (a, b)), IndexOf(cx.edges, (a, c));
    var bd, cd := IndexOf(cx.edges, (b, dd)), IndexOf(cx.edges, (c, dd));
    assert ab != ac && ab != bd && ab != cd && ac != bd && ac != cd && bd != cd;
    PairBoundary(cx, d, ab, ac);
    PairBoundary(cx, d, bd, cd);
    ApplyXor(d, {n + ab, n + ac}, {n + bd, n + cd});
    assert SquareColumn(n, cx.edges, q) == Xor({n + ab, n + ac}, {n + bd, n + cd});
    assert Xor({a, b}, {a, c}) == Xor({b, dd}, {c, dd});
    assert Xor(Xor({a, b}, {a, c}), Xor({b, dd}, {c, dd})) == {};
  }

  lemma PairBoundary(cx: Complex, d: seq<Column>, i: nat, j: nat)
    requires Closed(cx) && IsCombined(cx, d) && i < |cx.edges| && j < |cx.edges| && i != j
    ensures Apply(d, {cx.numVertices + i, cx.numVertices + j})
      == Xor(EdgeColumn(cx.edges[i]), EdgeColumn(cx.edges[j]))
  {
    var n := cx.numVertices;
    SingletonCell(cx, d, n + i);
    SingletonCell(cx, d, n + j);
    ApplyXor(d, {n + i}, {n + j});
    assert {n + i, n + j} == Xor({n + i}, {n + j});
  }

  /** A degenerate square (b == c) has boundary a + d. */
  lemma DegenerateBoundary(cx: Complex, d: seq<Column>, q: Square)
    requires Closed(cx) && IsCombined(cx, d) && NoLoops(cx.edges) && Bounded(cx.edges, q)
    requires q.1 == q.2
    ensures Apply(d, SquareColumn(cx.numVertices, cx.edges, q)) == {} <==> q.0 == q.3
  {
    var n := cx.numVertices;
    var (a, b, c, dd) := q;
    var ab, bd := IndexOf(cx.edges, (a, b)), IndexOf(cx.edges, (b, dd));
    assert ab != bd;
    PairBoundary(cx, d, ab, bd);
    assert SquareColumn(n, cx.edges, q) == {n + ab, n + bd};
    if a != dd { assert a in Xor({a, b}, {b, dd}); }
  }

  lemma LowCellBoundary(cx: Complex, d: seq<Column>, j: nat)
    requires Closed(cx) && IsCombined(cx, d) && NoLoops(cx.edges) && j < cx.numVertices + |cx.edges|
    ensures Apply(d, d[j]) == {}
  {
    if j < cx.numVertices {
      CombineNone(d, {}, |d|);
    } else {
      EdgeBoundaryVanishes(cx, d, cx.edges[j - cx.numVertices]);
    }
  }

  lemma SquareCellBoundary(cx: Complex, d: seq<Column>, i: nat)
    requires Closed(cx) && IsCombined(cx, d) && NoLoops(cx.edges) && i < |cx.squares|
    ensures Apply(d, d[cx.numVertices + |cx.edges| + i]) == {} <==>
      cx.squares[i].1 != cx.squares[i].2 || cx.squares[i].0 == cx.squares[i].3
  {
    assert Bounded(cx.edges, cx.squares[i]);
    if cx.squares[i].1 != cx.squares[i].2 {
      SquareBoundary(cx, d, cx.squares[i]);
    } else {
      DegenerateBoundary(cx, d, cx.squares[i]);
    }
  }

  /**
   The combined matrix of a complex without self-loops squares to zero exactly when no square is
   degenerate, that is, has b == c while a != d.
   */
  lemma CombinedSquaresToZeroIff(cx: Complex, d: seq<Column>)
    requires Closed(cx) && IsCombined(cx, d) && NoLoops(cx.edges)
    ensures SquaresToZero(d) <==>
      forall i :: 0 <= i < |cx.squares| ==> cx.squares[i].1 != cx.squares[i].2 || cx.squares[i].0 == cx.squares[i].3
  {
    if SquaresToZero(d) {
      forall i | 0 <= i < |cx.squares|
        ensures cx.squares[i].1 != cx.squares[i].2 || cx.squares[i].0 == cx.squares[i].3
      {
        SquareCellBoundary(cx, d, i);
        assert Apply(d, d[cx.numVertices + |cx.edges| + i]) == {};
      }
    }
    if forall i :: 0 <= i < |cx.squares| ==> cx.squares[i].1 != cx.squares[i].2 || cx.squares[i].0 == cx.squares[i].3 {
      forall j | 0 <= j < |d| ensures Apply(d, d[j]) == {} {
        if j < cx.numVertices + |cx.edges| {
          LowCellBoundary(cx, d, j);
        } else {
          SquareCellBoundary(cx, d, j - cx.numVertices - |cx.edges|);
        }
      }
    }
  }

  lemma CombinedStrictlyUpper(cx: Complex, d: seq<Column>)
    requires Closed(cx) && IsCombined(cx, d)
    ensures StrictlyUpper(d)
  {
    forall j | 0 <= j < |d| ensures Within(d[j], j) {
      if cx.numVertices + |cx.edges| <= j {
        assert Bounded(cx.edges, cx.squares[j - cx.numVertices - |cx.edges|]);
      }
    }
  }
}
