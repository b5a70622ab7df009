/**
 What the unpaired vertices and squares are.  A vertex is unpaired exactly when it is the least of
 its connected component, and no square is unpaired when every vertex starts at most one square.
 */
module Components {
  import opened Gf2
  import opened SquareComplex
  import opened Persistence
  import opened Homology

  ghost predicate Path(edges: seq<Edge>, p: seq<nat>) {
    p != [] && forall i :: 0 <= i < |p| - 1 ==> (p[i], p[i + 1]) in edges || (p[i + 1], p[i]) in edges
  }

  ghost predicate Connects(edges: seq<Edge>, p: seq<nat>, x: nat, y: nat) {
    Path(edges, p) && p[0] == x && p[|p| - 1] == y
  }

  ghost predicate Connected(edges: seq<Edge>, x: nat, y: nat) {
    exists p :: Connects(edges, p, x, y)
  }

  /** The vertices in the component of w, as a function so that it can be passed around. */
  ghost function ComponentOf(edges: seq<Edge>, w: nat): nat -> bool {
    (x: nat) => Connected(edges, w, x)
  }

  ghost predicate Root(edges: seq<Edge>, w: nat) {
    forall y: nat :: Connected(edges, w, y) ==> w <= y
  }

  lemma ConnectedStep(edges: seq<Edge>, w: nat, x: nat, y: nat)
    requires Connected(edges, w, x) && ((x, y) in edges || (y, x) in edges)
    ensures Connected(edges, w, y)
  {
    var p :| Connects(edges, p, w, x);
    assert Connects(edges, p + [y], w, y);
  }

  lemma EdgeWithin(edges: seq<Edge>, w: nat, e: Edge)
    requires e in edges
    ensures Connected(edges, w, e.0) == Connected(edges, w, e.1)
  {
    if Connected(edges, w, e.0) { ConnectedStep(edges, w, e.0, e.1); }
    if Connected(edges, w, e.1) { ConnectedStep(edges, w, e.1, e.0); }
  }

  // A path bounds its two ends.

  lemma PathTail(edges: seq<Edge>, p: seq<nat>)
    requires Path(edges, p) && |p| > 1
    ensures Path(edges, p[1..])
  {
    var q := p[1..];
    forall i | 0 <= i < |q| - 1 ensures (q[i], q[i + 1]) in edges || (q[i + 1], q[i]) in edges {
      assert q[i] == p[i + 1] && q[i + 1] == p[i + 1 + 1];
    }
  }

  lemma {:induction false} PathBoundary(cx: Complex, d: seq<Column>, p: seq<nat>) returns (sel: Column)
    requires Closed(cx) && IsCombined(cx, d) && NoLoops(cx.edges) && Path(cx.edges, p)
    ensures Within(sel, |d|) && Combine(d, sel, |d|) == Xor({p[0]}, {p[|p| - 1]})
  {
    if |p| == 1 {
      sel := {};
      CombineNone(d, {}, |d|);
    } else {
      var u, v := p[0], p[1];
      PathTail(cx.edges, p);
      var rest := PathBoundary(cx, d, p[1..]);
      var j := LinkCell(cx, d, u, v);
      sel := Xor(rest, {j});
      CombineXor(d, rest, {j}, |d|);
      CombineSingle(d, j, |d|);
      Telescope(u, v, p[|p| - 1]);
    }
  }

  lemma Telescope(u: nat, v: nat, w: nat)
    ensures Xor(Xor({v}, {w}), Xor({u}, {v})) == Xor({u}, {w})
  {
  }

  lemma LinkCell(cx: Complex, d: seq<Column>, u: nat, v: nat) returns (j: nat)
    requires Closed(cx) && IsCombined(cx, d) && NoLoops(cx.edges)
    requires (u, v) in cx.edges || (v, u) in cx.edges
    ensures j < |d| && d[j] == Xor({u}, {v})
  {
    var i :| 0 <= i < |cx.edges| && (cx.edges[i] == (u, v) || cx.edges[i] == (v, u));
    j := cx.numVertices + i;
    assert d[j] == CellColumn(cx, j) == EdgeColumn(cx.edges[i]);
    assert {u, v} == Xor({u}, {v});
  }

  // Every boundary meets a component an even number of times.

  /** Whether an odd number of rows below n of the column satisfy c. */
  ghost predicate Odd(col: Column, c: nat -> bool, n: nat) {
    n > 0 && (n - 1 in col && c(n - 1)) != Odd(col, c, n - 1)
  }

  lemma {:induction false} OddXor(a: Column, b: Column, c: nat -> bool, n: nat)
    ensures Odd(Xor(a, b), c, n) == (Odd(a, c, n) != Odd(b, c, n))
  {
    if n > 0 { OddXor(a, b, c, n - 1); }
  }

  lemma {:induction false} OddNone(col: Column, c: nat -> bool, n: nat)
    requires forall x :: x in col && x < n ==> !c(x)
    ensures !Odd(col, c, n)
  {
    if n > 0 { OddNone(col, c, n - 1); }
  }

  lemma {:induction false} OddSingle(col: Column, c: nat -> bool, n: nat, w: nat)
    requires w in col && c(w) && w < n
    requires forall x :: x in col && x < n && c(x) ==> x == w
    ensures Odd(col, c, n)
  {
    if w == n - 1 { OddNone(col, c, n - 1); } else { OddSingle(col, c, n - 1, w); }
  }

  lemma CellEven(cx: Complex, d: seq<Column>, w: nat, j: nat)
    requires Closed(cx) && IsCombined(cx, d) && NoLoops(cx.edges) && j < |d|
    ensures !Odd(d[j], ComponentOf(cx.edges, w), cx.numVertices)
  {
    var c, n := ComponentOf(cx.edges, w), cx.numVertices;
    if n <= j < n + |cx.edges| {
      var e := cx.edges[j - n];
      assert d[j] == CellColumn(cx, j) == {e.0, e.1};
      EdgeWithin(cx.edges, w, e);
      assert {e.0, e.1} == Xor({e.0}, {e.1});
      OddXor({e.0}, {e.1}, c, n);
      if c(e.0) {
        OddSingle({e.0}, c, n, e.0);
        OddSingle({e.1}, c, n, e.1);
      } else {
        OddNone({e.0}, c, n);
        OddNone({e.1}, c, n);
      }
    } else {
      assert d[j] == CellColumn(cx, j);
      if n + |cx.edges| <= j { assert Bounded(cx.edges, cx.squares[j - n - |cx.edges|]); }
      OddNone(d[j], c, n);
    }
  }

  lemma {:induction false} BoundariesEven(cx: Complex, d: seq<Column>, w: nat, sel: Column, m: nat)
    requires Closed(cx) && IsCombined(cx, d) && NoLoops(cx.edges) && m <= |d|
    ensures !Odd(Combine(d, sel, m), ComponentOf(cx.edges, w), cx.numVertices)
  {
    var c := ComponentOf(cx.edges, w);
    if m == 0 {
      OddNone({}, c, cx.numVertices);
    } else {
      BoundariesEven(cx, d, w, sel, m - 1);
      CellEven(cx, d, w, m - 1);
      OddXor(Combine(d, sel, m - 1), d[m - 1], c, cx.numVertices);
    }
  }

  /** The least vertex of a component is never the top of a reduced column. */
  lemma RootNotBorn(cx: Complex, d: seq<Column>, r: seq<Column>, v: seq<Column>, w: nat, k: nat)
    requires Closed(cx) && IsCombined(cx, d) && NoLoops(cx.edges) && Reduces(d, r, v)
    requires w < cx.numVertices && k < |r| && Root(cx.edges, w)
    ensures !IsTop(r[k], w)
  {
    if IsTop(r[k], w) {
      BoundariesEven(cx, d, w, v[k], k + 1);
      assert Connects(cx.edges, [w], w, w);
      OddSingle(r[k], ComponentOf(cx.edges, w), cx.numVertices, w);
      assert false;
    }
  }

  /** Any other vertex is. */
  lemma NonRootBorn(cx: Complex, d: seq<Column>, r: seq<Column>, v: seq<Column>, w: nat)
    requires Closed(cx) && IsCombined(cx, d) && NoLoops(cx.edges) && Reduces(d, r, v) && DistinctTops(r)
    requires |r| == |d| && !Root(cx.edges, w)
    ensures IsBirth(r, w)
  {
    var y: nat :| Connected(cx.edges, w, y) && y < w;
    var p :| Connects(cx.edges, p, w, y);
    var sel := PathBoundary(cx, d, p);
    assert IsTop(Xor({w}, {y}), w);
    var k := TopInSpan(d, r, v, sel, |d|, w);
  }

  /** H0: the unpaired vertices are the least vertices of the connected components. */
  lemma UnpairedVertices(cx: Complex, d: seq<Column>, r: seq<Column>, v: seq<Column>,
                         pairs: seq<(nat, nat)>, unpaired: seq<nat>, w: nat)
    requires Closed(cx) && IsPersistence(cx, d, r, v, pairs, unpaired) && NoLoops(cx.edges)
    requires w < cx.numVertices
    ensures w in unpaired <==> Root(cx.edges, w)
  {
    assert GradedColumn(r[w], Ranks(cx), w) && Ranks(cx)[w] == 0;
    assert r[w] == {};
    if Root(cx.edges, w) {
      forall k | 0 <= k < |r| ensures !IsTop(r[k], w) {
        RootNotBorn(cx, d, r, v, w, k);
      }
    } else {
      NonRootBorn(cx, d, r, v, w);
    }
  }

  // Squares.

  lemma {:induction false} RowAbsent(d: seq<Column>, sel: Column, n: nat, x: nat)
    requires n <= |d| && forall k :: 0 <= k < n && k in sel ==> x !in d[k]
    ensures x !in Combine(d, sel, n)
  {
    if n > 0 { RowAbsent(d, sel, n - 1, x); }
  }

  lemma {:induction false} RowOnce(d: seq<Column>, sel: Column, n: nat, x: nat, i: nat)
    requires n <= |d| && i < n && i in sel && x in d[i]
    requires forall k :: 0 <= k < n && k in sel && k != i ==> x !in d[k]
    ensures x in Combine(d, sel, n)
  {
    if i == n - 1 { RowAbsent(d, sel, n - 1, x); } else { RowOnce(d, sel, n - 1, x, i); }
  }

  /** Squares in the order of their first corners, at most one at each vertex. */
  ghost predicate OneSquareEach(squares: seq<Square>) {
    forall a, b :: 0 <= a < b < |squares| ==> squares[a].0 < squares[b].0
  }

  ghost predicate Upward(edges: seq<Edge>) {
    forall i :: 0 <= i < |edges| ==> edges[i].0 < edges[i].1
  }

  /** The row of the first edge of square a: no cell other than a and earlier squares has it. */
  ghost function FreeRow(cx: Complex, a: nat): nat
    requires Closed(cx) && a < |cx.squares|
  {
    assert Bounded(cx.edges, cx.squares[a]);
    FirstEdgeRow(cx.numVertices, cx.edges, cx.squares[a])
  }

  ghost function FirstEdgeRow(n: nat, edges: seq<Edge>, q: Square): nat
    requires Bounded(edges, q)
  {
    n + IndexOf(edges, (q.0, q.1))
  }

  lemma FreeRowOnce(cx: Complex, d: seq<Column>, a: nat, i: nat, k: nat)
    requires Closed(cx) && IsCombined(cx, d) && Upward(cx.edges) && OneSquareEach(cx.squares)
    requires a < |cx.squares| && k < |d| && i == cx.numVertices + |cx.edges| + a
    requires k < cx.numVertices + |cx.edges| || i <= k
    ensures FreeRow(cx, a) in d[k] <==> k == i
  {
    if k < i { FreeRowBefore(cx, a, k, d[k]); } else { FreeRowAfter(cx, a, k - i + a, d[k]); }
  }

  lemma FreeRowBefore(cx: Complex, a: nat, k: nat, column: Column)
    requires Closed(cx) && a < |cx.squares| && k < cx.numVertices + |cx.edges| && column == CellColumn(cx, k)
    ensures FreeRow(cx, a) !in column
  {
  }

  lemma FreeRowAfter(cx: Complex, a: nat, b: nat, column: Column)
    requires Closed(cx) && Upward(cx.edges) && OneSquareEach(cx.squares) && a <= b < |cx.squares|
    requires column == CellColumn(cx, cx.numVertices + |cx.edges| + b)
    ensures FreeRow(cx, a) in column <==> a == b
  {
    FreeRowColumn(cx, a, b);
  }

  lemma FreeRowColumn(cx: Complex, a: nat, b: nat)
    requires Closed(cx) && Upward(cx.edges) && OneSquareEach(cx.squares) && a <= b < |cx.squares|
    ensures Bounded(cx.edges, cx.squares[b])
    ensures FreeRow(cx, a) in SquareColumn(cx.numVertices, cx.edges, cx.squares[b]) <==> a == b
  {
    var q, s := cx.squares[a], cx.squares[b];
    assert Bounded(cx.edges, q) && Bounded(cx.edges, s);
    assert q == s <==> a == b;
    UpwardSquare(cx.edges, s);
    FirstEdgeFree(cx.numVertices, cx.edges, q, s);
  }

  lemma UpwardSquare(edges: seq<Edge>, s: Square)
    requires Upward(edges) && Bounded(edges, s)
    ensures s.0 < s.1 && s.0 < s.2
  {
  }

  lemma FirstEdgeFree(n: nat, edges: seq<Edge>, q: Square, s: Square)
    requires Bounded(edges, q) && Bounded(edges, s) && s.0 < s.1 && s.0 < s.2
    requires q == s || q.0 < s.0
    ensures FirstEdgeRow(n, edges, q) in SquareColumn(n, edges, s) <==> q == s
  {
    var i := IndexOf(edges, (q.0, q.1));
    assert edges[i].0 == q.0;
  }

  lemma {:induction false} LeastFrom(sel: Column, lo: nat, j: nat) returns (i: nat)
    requires lo <= j && j in sel
    ensures lo <= i <= j && i in sel && forall k :: lo <= k < i ==> k !in sel
    decreases j - lo
  {
    if lo in sel { i := lo; } else { i := LeastFrom(sel, lo + 1, j); }
  }

  /** Then a combination that includes a square is not a cycle: its least square has a free edge. */
  lemma SquareCombination(cx: Complex, d: seq<Column>, sel: Column, j: nat)
    requires Closed(cx) && IsCombined(cx, d) && Upward(cx.edges) && OneSquareEach(cx.squares)
    requires cx.numVertices + |cx.edges| <= j < |d| && j in sel
    ensures Combine(d, sel, j + 1) != {}
  {
    var m := cx.numVertices + |cx.edges|;
    var i := LeastFrom(sel, m, j);
    LeastSquareShows(cx, d, sel, j, i, i - m);
  }

  lemma LeastSquareShows(cx: Complex, d: seq<Column>, sel: Column, j: nat, i: nat, a: nat)
    requires Closed(cx) && IsCombined(cx, d) && Upward(cx.edges) && OneSquareEach(cx.squares)
    requires i <= j < |d| && i in sel && a < |cx.squares| && i == cx.numVertices + |cx.edges| + a
    requires forall k :: cx.numVertices + |cx.edges| <= k < i ==> k !in sel
    ensures FreeRow(cx, a) in Combine(d, sel, j + 1)
  {
    forall k | 0 <= k < j + 1 && k in sel ensures FreeRow(cx, a) in d[k] <==> k == i {
      FreeRowOnce(cx, d, a, i, k);
    }
    RowOnce(d, sel, j + 1, FreeRow(cx, a), i);
  }

  /** H2: no square is unpaired when every vertex starts at most one square. */
  lemma NoUnpairedSquares(cx: Complex, d: seq<Column>, r: seq<Column>, v: seq<Column>,
                          pairs: seq<(nat, nat)>, unpaired: seq<nat>)
    requires Closed(cx) && IsPersistence(cx, d, r, v, pairs, unpaired)
    requires Upward(cx.edges) && OneSquareEach(cx.squares)
    ensures forall j :: j in unpaired ==> j < cx.numVertices + |cx.edges|
  {
    forall j | j in unpaired ensures j < cx.numVertices + |cx.edges| {
      if j >= cx.numVertices + |cx.edges| {
        SquareCombination(cx, d, v[j], j);
        assert false;
      }
    }
  }
}
