/** Building the square complex from an arbitrary edge list. */
module ComplexBuilder {
  import opened Gf2
  import opened Sorting
  import opened SquareComplex

  function SquareLe(): (Square, Square) -> bool {
    (x: Square, y: Square) =>
      x.0 < y.0 || (x.0 == y.0 && (x.1 < y.1 || (x.1 == y.1 && (x.2 < y.2 || (x.2 == y.2 && x.3 <= y.3)))))
  }

  /** `dedup`: consecutive equal elements are merged. */
  function Dedup<T(==)>(s: seq<T>): seq<T> {
    if |s| <= 1 then s
    else if s[0] == s[1] then Dedup(s[1..])
    else [s[0]] + Dedup(s[1..])
  }

  /** Sorting and then merging neighbours gives the strictly sorted list of the same elements. */
  lemma {:induction false} DedupSorted(s: seq<Edge>)
    requires Sorted(s, EdgeLe())
    ensures StrictlySorted(Dedup(s), EdgeLe())
    ensures forall x :: x in Dedup(s) <==> x in s
  {
    if |s| > 1 {
      DedupSorted(s[1..]);
      assert s == [s[0]] + s[1..];
      if s[0] != s[1] {
        forall y | y in Dedup(s[1..]) ensures EdgeLe()(s[0], y) && !EdgeLe()(y, s[0]) {
          assert y in s[1..];
          var i :| 0 <= i < |s| - 1 && s[1..][i] == y;
          assert EdgeLe()(s[0], s[1]) && (i == 0 || EdgeLe()(s[1], s[i + 1]));
        }
      }
    }
  }

  function ProperIn(n: nat): Edge -> bool { (e: Edge) => Proper(n, e) }

  /** The edge list of the complex: proper edges, sorted, without duplicates. */
  function CleanEdges(n: nat, edges: seq<Edge>): seq<Edge> {
    Dedup(Sort(Filter(edges, ProperIn(n)), EdgeLe()))
  }

  lemma CleanEdgesSpec(n: nat, edges: seq<Edge>)
    ensures StrictlySorted(CleanEdges(n, edges), EdgeLe())
    ensures forall e :: e in CleanEdges(n, edges) <==> e in edges && Proper(n, e)
  {
    var kept := Filter(edges, ProperIn(n));
    SortSorted(kept, EdgeLe());
    SameElements(kept, Sort(kept, EdgeLe()));
    DedupSorted(Sort(kept, EdgeLe()));
  }

  /** The targets of the edges leaving v, in list order. */
  function Targets(edges: seq<Edge>, v: nat): (s: seq<nat>)
    ensures forall t :: t in s <==> (v, t) in edges
  {
    if edges == [] then []
    else
      var front, last := edges[..|edges| - 1], edges[|edges| - 1];
      assert edges == front + [last];
      if last.0 == v then Targets(front, v) + [last.1] else Targets(front, v)
  }

  lemma {:induction false} TargetsIncreasing(edges: seq<Edge>, v: nat)
    requires StrictlySorted(edges, EdgeLe())
    ensures Increasing(Targets(edges, v))
  {
    if edges != [] {
      var front, last := edges[..|edges| - 1], edges[|edges| - 1];
      TargetsIncreasing(front, v);
      var s := Targets(front, v);
      forall i | 0 <= i < |s| && last.0 == v ensures s[i] < last.1 {
        assert s[i] in s;
        var k :| 0 <= k < |front| && front[k] == (v, s[i]);
        assert !EdgeLe()(edges[|edges| - 1], edges[k]);
      }
    }
  }

  method BuildSuccessors(n: nat, edges: seq<Edge>) returns (succs: seq<seq<nat>>)
    requires forall i :: 0 <= i < |edges| ==> Proper(n, edges[i])
    ensures |succs| == n && forall v :: 0 <= v < n ==> succs[v] == Targets(edges, v)
  {
    succs := seq(n, _ => []);
    for i := 0 to |edges|
      invariant |succs| == n
      invariant forall v :: 0 <= v < n ==> succs[v] == Targets(edges[..i], v)
    {
      var (s, t) := edges[i];
      assert edges[..i + 1][..i] == edges[..i];
      succs := succs[s := succs[s] + [t]];
    }
    assert edges[..|edges|] == edges;
  }

  /** The merge walk over two increasing lists finds exactly their common elements. */
  method Common(sb: seq<nat>, sc: seq<nat>) returns (ds: seq<nat>)
    requires Increasing(sb) && Increasing(sc)
    ensures Increasing(ds)
    ensures forall x :: x in ds <==> x in sb && x in sc
  {
    ds := [];
    var jb, jc := 0, 0;
    while jb < |sb| && jc < |sc|
      invariant 0 <= jb <= |sb| && 0 <= jc <= |sc|
      invariant Increasing(ds)
      invariant forall i :: 0 <= i < |ds| ==> (jb < |sb| ==> ds[i] < sb[jb]) && (jc < |sc| ==> ds[i] < sc[jc])
      invariant forall i :: 0 <= i < |ds| ==> ds[i] in sb && ds[i] in sc
      invariant forall k :: 0 <= k < jb ==> sb[k] in ds || sb[k] !in sc
      invariant forall k :: 0 <= k < jc ==> sc[k] in ds || sc[k] !in sb
      decreases |sb| - jb + |sc| - jc
    {
      if sb[jb] < sc[jc] {
        Skipped(sc, jc, sb[jb], ds, sb);
        jb := jb + 1;
      } else if sb[jb] > sc[jc] {
        Skipped(sb, jb, sc[jc], ds, sc);
        jc := jc + 1;
      } else {
        ds := ds + [sb[jb]];
        assert ds[|ds| - 1] == sb[jb];
        jb, jc := jb + 1, jc + 1;
      }
    }
  }

  /** A value smaller than list[j] is in the list only among the elements already passed. */
  lemma Skipped(list: seq<nat>, j: nat, x: nat, ds: seq<nat>, other: seq<nat>)
    requires Increasing(list) && j < |list| && x < list[j]
    requires forall k :: 0 <= k < j ==> list[k] in ds || list[k] !in other
    requires x in other
    ensures x in ds || x !in list
  {
    if x in list {
      var k :| 0 <= k < |list| && list[k] == x;
      assert k < j;
    }
  }

  /** The squares found from vertex a: b and c are successors of a, d a common successor of b and c. */
  ghost predicate SquaresFrom(a: nat, bs: seq<nat>, sa: seq<nat>, succs: seq<seq<nat>>, squares: seq<Square>) {
    && StrictlySorted(squares, SquareLe())
    && forall q :: q in squares <==>
         q.0 == a && q.1 in bs && q.2 in sa && q.1 < q.2
         && q.1 < |succs| && q.2 < |succs| && q.3 in succs[q.1] && q.3 in succs[q.2]
  }

  method SquaresOfPair(a: nat, b: nat, c: nat, sb: seq<nat>, sc: seq<nat>) returns (squares: seq<Square>)
    requires Increasing(sb) && Increasing(sc)
    ensures StrictlySorted(squares, SquareLe())
    ensures forall q :: q in squares <==> q.0 == a && q.1 == b && q.2 == c && q.3 in sb && q.3 in sc
  {
    var ds := Common(sb, sc);
    squares := seq(|ds|, i requires 0 <= i < |ds| => (a, b, c, ds[i]));
    forall q: Square | q.0 == a && q.1 == b && q.2 == c && q.3 in ds ensures q in squares {
      var i :| 0 <= i < |ds| && ds[i] == q.3;
      assert squares[i] == q;
    }
  }

  ghost predicate Successors(n: nat, succs: seq<seq<nat>>) {
    && |succs| == n
    && (forall v :: 0 <= v < n ==> Increasing(succs[v]))
    && (forall v, i :: 0 <= v < n && 0 <= i < |succs[v]| ==> succs[v][i] < n)
  }

  /** All c after b among the successors of a. */
  method SquaresOfB(n: nat, a: nat, b: nat, cs: seq<nat>, succs: seq<seq<nat>>) returns (squares: seq<Square>)
    requires Successors(n, succs) && b < n && Increasing(cs) && forall i :: 0 <= i < |cs| ==> b < cs[i] < n
    ensures SquaresFrom(a, [b], cs, succs, squares)
  {
    squares := [];
    for i := 0 to |cs|
      invariant SquaresFrom(a, [b], cs[..i], succs, squares)
    {
      var more := SquaresOfPair(a, b, cs[i], succs[b], succs[cs[i]]);
      ExtendC(a, b, cs[..i], cs[i], succs, squares, more);
      assert cs[..i + 1] == cs[..i] + [cs[i]];
      squares := squares + more;
    }
    assert cs[..|cs|] == cs;
  }

  lemma ExtendC(a: nat, b: nat, cs: seq<nat>, c: nat, succs: seq<seq<nat>>, s: seq<Square>, t: seq<Square>)
    requires SquaresFrom(a, [b], cs, succs, s) && StrictlySorted(t, SquareLe())
    requires forall i :: 0 <= i < |cs| ==> cs[i] < c
    requires b < c && b < |succs| && c < |succs|
    requires forall q :: q in t <==> q.0 == a && q.1 == b && q.2 == c && q.3 in succs[b] && q.3 in succs[c]
    ensures SquaresFrom(a, [b], cs + [c], succs, s + t)
  {
    ConcatStrict(s, t, SquareLe());
  }

  /** All b among the successors of a. */
  method SquaresOfA(n: nat, a: nat, succs: seq<seq<nat>>) returns (squares: seq<Square>)
    requires Successors(n, succs) && a < n
    ensures SquaresFrom(a, succs[a], succs[a], succs, squares)
  {
    var sa := succs[a];
    squares := [];
    for ib := 0 to |sa|
      invariant SquaresFrom(a, sa[..ib], sa, succs, squares)
    {
      var more := SquaresOfB(n, a, sa[ib], sa[ib + 1..], succs);
      ExtendB(a, sa, ib, succs, squares, more);
      squares := squares + more;
    }
    assert sa[..|sa|] == sa;
  }

  lemma ExtendB(a: nat, sa: seq<nat>, ib: nat, succs: seq<seq<nat>>, s: seq<Square>, t: seq<Square>)
    requires ib < |sa| && Increasing(sa)
    requires SquaresFrom(a, sa[..ib], sa, succs, s) && SquaresFrom(a, [sa[ib]], sa[ib + 1..], succs, t)
    ensures SquaresFrom(a, sa[..ib + 1], sa, succs, s + t)
  {
    forall x, y | x in s && y in t ensures SquareLe()(x, y) && !SquareLe()(y, x) {
      assert x.1 in sa[..ib];
      assert x.1 < sa[ib] == y.1;
    }
    ConcatStrict(s, t, SquareLe());
    LaterInList(sa, ib);
  }

  lemma LaterInList(sa: seq<nat>, ib: nat)
    requires ib < |sa| && Increasing(sa)
    ensures forall c :: c in sa && sa[ib] < c <==> c in sa[ib + 1..]
    ensures forall b :: b in sa[..ib + 1] <==> b in sa[..ib] || b == sa[ib]
  {
    forall c | c in sa && sa[ib] < c ensures c in sa[ib + 1..] {
      var k :| 0 <= k < |sa| && sa[k] == c;
      assert k > ib;
      assert sa[ib + 1..][k - ib - 1] == c;
    }
    assert sa[..ib + 1] == sa[..ib] + [sa[ib]];
  }

  /** The squares whose first vertex is below m. */
  ghost predicate SquaresBelow(m: nat, succs: seq<seq<nat>>, squares: seq<Square>) {
    && StrictlySorted(squares, SquareLe())
    && forall q :: q in squares <==> q.0 < m && Commutes(succs, q)
  }

  ghost predicate Commutes(succs: seq<seq<nat>>, q: Square) {
    && q.0 < |succs| && q.1 < |succs| && q.2 < |succs|
    && q.1 in succs[q.0] && q.2 in succs[q.0] && q.1 < q.2
    && q.3 in succs[q.1] && q.3 in succs[q.2]
  }

  method DetectSquares(n: nat, succs: seq<seq<nat>>) returns (squares: seq<Square>)
    requires Successors(n, succs)
    ensures SquaresBelow(n, succs, squares)
  {
    squares := [];
    for a := 0 to n
      invariant SquaresBelow(a, succs, squares)
    {
      var more := SquaresOfA(n, a, succs);
      ConcatStrict(squares, more, SquareLe());
      squares := squares + more;
    }
  }

  lemma {:induction false} DedupIncreasing(s: seq<nat>)
    requires Increasing(s)
    ensures Dedup(s) == s
  {
    if |s| > 1 { DedupIncreasing(s[1..]); }
  }

  lemma CleanIncreasing(s: seq<nat>)
    requires Increasing(s)
    ensures Dedup(Sort(s, NatLe())) == s
  {
    SortOfSorted(s, NatLe());
    DedupIncreasing(s);
  }

  /**
   The complex of any edge list: malformed edges go, the rest are sorted without duplicates, and
   the squares are exactly the commuting diamonds, sorted and without duplicates.
   */
  method FromEdges(numVertices: nat, given: seq<Edge>) returns (cx: Complex)
    ensures cx.numVertices == numVertices && cx.edges == CleanEdges(numVertices, given)
    ensures StrictlySorted(cx.squares, SquareLe())
    ensures forall q :: q in cx.squares <==> Diamond(cx.edges, q)
  {
    var edges := CleanEdges(numVertices, given);
    CleanEdgesSpec(numVertices, given);
    ProperAll(numVertices, given);
    var succs := BuildSuccessors(numVertices, edges);
    forall v | 0 <= v < numVertices
      ensures Increasing(succs[v]) && Dedup(Sort(succs[v], NatLe())) == succs[v]
    {
      TargetsIncreasing(edges, v);
      CleanIncreasing(succs[v]);
    }
    succs := seq(numVertices, v requires 0 <= v < |succs| => Dedup(Sort(succs[v], NatLe())));
    SuccessorsOk(numVertices, edges, succs);
    var squares := DetectSquares(numVertices, succs);
    DiamondsAre(numVertices, edges, succs);
    SortOfSorted(squares, SquareLe());
    cx := Complex(numVertices, edges, Sort(squares, SquareLe()));
  }

  lemma ProperAll(n: nat, given: seq<Edge>)
    ensures forall i :: 0 <= i < |CleanEdges(n, given)| ==> Proper(n, CleanEdges(n, given)[i])
  {
    CleanEdgesSpec(n, given);
    forall i | 0 <= i < |CleanEdges(n, given)| ensures Proper(n, CleanEdges(n, given)[i]) {
      assert CleanEdges(n, given)[i] in CleanEdges(n, given);
    }
  }

  ghost predicate TargetLists(n: nat, edges: seq<Edge>, succs: seq<seq<nat>>) {
    && |succs| == n
    && (forall v :: 0 <= v < n ==> succs[v] == Targets(edges, v) && Increasing(succs[v]))
    && (forall i :: 0 <= i < |edges| ==> Proper(n, edges[i]))
  }

  lemma SuccessorsOk(n: nat, edges: seq<Edge>, succs: seq<seq<nat>>)
    requires TargetLists(n, edges, succs)
    ensures Successors(n, succs)
  {
    forall v, i | 0 <= v < n && 0 <= i < |succs[v]| ensures succs[v][i] < n {
      assert succs[v][i] in Targets(edges, v);
      var k :| 0 <= k < |edges| && edges[k] == (v, succs[v][i]);
    }
  }

  lemma DiamondsAre(n: nat, edges: seq<Edge>, succs: seq<seq<nat>>)
    requires TargetLists(n, edges, succs)
    ensures forall q: Square :: q.0 < n && Commutes(succs, q) <==> Diamond(edges, q)
  {
    forall q: Square ensures q.0 < n && Commutes(succs, q) <==> Diamond(edges, q) {
      if Diamond(edges, q) {
        var i :| 0 <= i < |edges| && edges[i] == (q.0, q.1);
        var j :| 0 <= j < |edges| && edges[j] == (q.0, q.2);
      }
    }
  }

  /** So the combined matrix of any edge list is a boundary matrix. */
  lemma BuiltComplexIsChain(cx: Complex, given: seq<Edge>, d: seq<Column>)
    requires cx.edges == CleanEdges(cx.numVertices, given)
    requires forall q :: q in cx.squares <==> Diamond(cx.edges, q)
    requires Closed(cx) ==> IsCombined(cx, d)
    ensures Closed(cx) && SquaresToZero(d) && StrictlyUpper(d)
  {
    ProperAll(cx.numVertices, given);
    forall i | 0 <= i < |cx.squares| ensures Bounded(cx.edges, cx.squares[i]) && cx.squares[i].1 != cx.squares[i].2 {
      assert cx.squares[i] in cx.squares;
    }
    CombinedSquaresToZeroIff(cx, d);
    CombinedStrictlyUpper(cx, d);
  }
}
