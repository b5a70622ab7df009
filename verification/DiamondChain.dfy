/** The first family of test graphs: n diamonds in a row, each sharing a vertex with the next. */
module DiamondChain {
  import opened Sorting
  import opened SquareComplex
  import opened ComplexBuilder

  function ChainPiece(k: nat): seq<Edge> {
    [(3 * k, 3 * k + 1), (3 * k, 3 * k + 2), (3 * k + 1, 3 * k + 3), (3 * k + 2, 3 * k + 3)]
  }

  function ChainEdges(n: nat): (s: seq<Edge>)
    ensures |s| == 4 * n
  {
    if n == 0 then [] else ChainEdges(n - 1) + ChainPiece(n - 1)
  }

  function ChainSquares(n: nat): (s: seq<Square>)
    ensures |s| == n
  {
    if n == 0 then [] else
      var k := 3 * (n - 1);
      ChainSquares(n - 1) + [(k, k + 1, k + 2, k + 3)]
  }

  method BuildDiamondChain(n: nat) returns (numVerts: nat, edges: seq<Edge>)
    ensures numVerts == 3 * n + 1 && edges == ChainEdges(n)
  {
    numVerts := 3 * n + 1;
    edges := [];
    for k := 0 to n
      invariant edges == ChainEdges(k)
    {
      var left, top, bot, right := 3 * k, 3 * k + 1, 3 * k + 2, 3 * k + 3;
      edges := edges + [(left, top)];
      edges := edges + [(left, bot)];
      edges := edges + [(top, right)];
      edges := edges + [(bot, right)];
    }
  }

  /** From each vertex: 3k goes to 3k+1 and 3k+2, and both of those go to 3k+3. */
  ghost predicate ChainEdge(n: nat, e: Edge) {
    && e.0 < 3 * n
    && (if e.0 % 3 == 0 then e.1 == e.0 + 1 || e.1 == e.0 + 2
        else e.1 == e.0 / 3 * 3 + 3)
  }

  ghost predicate InDiamond(k: nat, e: Edge) {
    || e == (3 * k, 3 * k + 1) || e == (3 * k, 3 * k + 2)
    || e == (3 * k + 1, 3 * k + 3) || e == (3 * k + 2, 3 * k + 3)
  }

  lemma ChainPieceIs(k: nat, e: Edge)
    ensures e in ChainPiece(k) <==> InDiamond(k, e)
  {
    var t := ChainPiece(k);
    if e in t { var i :| 0 <= i < 4 && t[i] == e; }
    assert t[0] in t && t[1] in t && t[2] in t && t[3] in t;
  }

  lemma NewChainEdge(k: nat, e: Edge)
    ensures ChainEdge(k + 1, e) <==> ChainEdge(k, e) || InDiamond(k, e)
  {
  }

  lemma ChainPieceAfter(k: nat, s: seq<Edge>)
    requires forall e :: e in s ==> ChainEdge(k, e)
    ensures StrictlySorted(ChainPiece(k), EdgeLe())
    ensures forall x, y :: x in s && y in ChainPiece(k) ==> EdgeLe()(x, y) && !EdgeLe()(y, x)
  {
    forall x, y | x in s && y in ChainPiece(k) ensures EdgeLe()(x, y) && !EdgeLe()(y, x) {
      assert ChainEdge(k, x);
      ChainPieceIs(k, y);
    }
  }

  lemma ChainEdgeNext(n: nat, e: Edge)
    requires n > 0 && (e in ChainEdges(n - 1) <==> ChainEdge(n - 1, e))
    ensures e in ChainEdges(n) <==> ChainEdge(n, e)
  {
    ChainPieceIs(n - 1, e);
    NewChainEdge(n - 1, e);
  }

  lemma {:induction false} ChainEdgesAre(n: nat)
    ensures forall e :: e in ChainEdges(n) <==> ChainEdge(n, e)
    ensures StrictlySorted(ChainEdges(n), EdgeLe())
  {
    if n > 0 {
      ChainEdgesAre(n - 1);
      var s, t := ChainEdges(n - 1), ChainPiece(n - 1);
      forall e ensures e in ChainEdges(n) <==> ChainEdge(n, e) { ChainEdgeNext(n, e); }
      ChainPieceAfter(n - 1, s);
      ConcatStrict(s, t, EdgeLe());
    }
  }

  ghost predicate ChainSquare(n: nat, q: Square) {
    q.0 % 3 == 0 && q.0 < 3 * n && q.1 == q.0 + 1 && q.2 == q.0 + 2 && q.3 == q.0 + 3
  }

  lemma {:induction false} ChainSquaresAre(n: nat)
    ensures forall q :: q in ChainSquares(n) <==> ChainSquare(n, q)
    ensures StrictlySorted(ChainSquares(n), SquareLe())
  {
    if n > 0 {
      ChainSquaresAre(n - 1);
      var k := 3 * (n - 1);
      var last: Square := (k, k + 1, k + 2, k + 3);
      forall q ensures q in ChainSquares(n) <==> ChainSquare(n, q) {
        assert ChainSquare(n, q) <==> ChainSquare(n - 1, q) || q == last;
      }
      ConcatStrict(ChainSquares(n - 1), [last], SquareLe());
    }
  }

  lemma ChainDiamond(n: nat, q: Square)
    ensures q.1 < q.2 && ChainEdge(n, (q.0, q.1)) && ChainEdge(n, (q.0, q.2))
      && ChainEdge(n, (q.1, q.3)) && ChainEdge(n, (q.2, q.3))
      <==> ChainSquare(n, q)
  {
  }

  lemma ChainProper(n: nat)
    ensures StrictlySorted(ChainEdges(n), EdgeLe())
    ensures forall e :: e in ChainEdges(n) ==> Proper(3 * n + 1, e)
  {
    ChainEdgesAre(n);
    forall e | e in ChainEdges(n) ensures Proper(3 * n + 1, e) { assert ChainEdge(n, e); }
  }

  lemma ChainClean(n: nat)
    ensures CleanEdges(3 * n + 1, ChainEdges(n)) == ChainEdges(n)
  {
    ChainProper(n);
    CleanEdgesSpec(3 * n + 1, ChainEdges(n));
    StrictlySortedUnique(CleanEdges(3 * n + 1, ChainEdges(n)), ChainEdges(n), EdgeLe());
  }

  /** The complex built from the chain has 3n+1 vertices, 4n edges and exactly its n diamonds. */
  lemma ChainComplex(n: nat, cx: Complex)
    requires cx.edges == CleanEdges(3 * n + 1, ChainEdges(n))
    requires StrictlySorted(cx.squares, SquareLe()) && forall q :: q in cx.squares <==> Diamond(cx.edges, q)
    ensures cx.edges == ChainEdges(n) && cx.squares == ChainSquares(n)
  {
    ChainClean(n);
    ChainEdgesAre(n);
    ChainSquaresAre(n);
    forall q: Square ensures q in cx.squares <==> q in ChainSquares(n) {
      ChainDiamond(n, q);
    }
    StrictlySortedUnique(cx.squares, ChainSquares(n), SquareLe());
  }
}
