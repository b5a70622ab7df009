/** From an edge list to its persistence pairs, and what the numbers of cells say about them. */
module Homology {
  import opened Counting
  import opened Gf2
  import opened Sorting
  import opened SquareComplex
  import opened ComplexBuilder
  import opened Persistence

  /** The dimension of each cell of the combined matrix. */
  function Ranks(cx: Complex): (rank: seq<nat>)
    ensures |rank| == cx.numVertices + |cx.edges| + |cx.squares|
  {
    seq(cx.numVertices, _ => 0) + seq(|cx.edges|, _ => 1) + seq(|cx.squares|, _ => 2)
  }

  lemma CombinedGraded(cx: Complex, d: seq<Column>)
    requires Closed(cx) && IsCombined(cx, d)
    ensures Graded(d, Ranks(cx))
  {
    var rank := Ranks(cx);
    forall j | 0 <= j < |d| ensures GradedColumn(d[j], rank, j) {
      if cx.numVertices + |cx.edges| <= j {
        assert Bounded(cx.edges, cx.squares[j - cx.numVertices - |cx.edges|]);
      }
    }
  }

  /** A persistence result: the reduced matrix it was read from, its pairs and its unpaired cells. */
  ghost predicate IsPersistence(cx: Complex, d: seq<Column>, r: seq<Column>, v: seq<Column>,
                                pairs: seq<(nat, nat)>, unpaired: seq<nat>)
    requires Closed(cx)
  {
    && IsCombined(cx, d) && SquaresToZero(d) && StrictlyUpper(d)
    && |r| == |d| && Reduces(d, r, v) && DistinctTops(r)
    && Graded(r, Ranks(cx)) && Homogeneous(v, Ranks(cx))
    && PairsBelow(r, |r|, pairs) && UnpairedBelow(r, |r|, unpaired)
  }

  /** The whole pipeline, on any edge list. */
  method PersistenceOfEdges(numVertices: nat, given: seq<Edge>)
      returns (cx: Complex, pairs: seq<(nat, nat)>, unpaired: seq<nat>,
               ghost d: seq<Column>, ghost r: seq<Column>, ghost v: seq<Column>)
    ensures cx.numVertices == numVertices && cx.edges == CleanEdges(numVertices, given)
    ensures StrictlySorted(cx.squares, SquareLe()) && forall q :: q in cx.squares <==> Diamond(cx.edges, q)
    ensures Closed(cx) && IsPersistence(cx, d, r, v, pairs, unpaired)
    ensures Partitioned(pairs, unpaired, |d|)
    ensures Joins(pairs, cx.numVertices, cx.numVertices + |cx.edges|, |d|)
  {
    cx := FromEdges(numVertices, given);
    BuiltComplexClosed(cx, given);
    var matrix := CombinedBoundaryMatrix(cx);
    d := matrix;
    BuiltComplexIsChain(cx, given, d);
    CombinedGraded(cx, d);
    UpperWithin(d);
    var reduced, pivotMap;
    reduced, pivotMap, v := Reduce(matrix, |matrix|, Ranks(cx));
    r := reduced;
    pairs, unpaired := PersistencePairs(reduced, |matrix|);
    PersistencePartitioned(cx, d, r, v, pairs, unpaired);
    PairsJoin(cx, d, r, v, pairs, unpaired);
  }

  lemma UpperWithin(d: seq<Column>)
    requires StrictlyUpper(d)
    ensures forall j :: 0 <= j < |d| ==> Within(d[j], |d|)
  {
    forall j | 0 <= j < |d| ensures Within(d[j], |d|) {
      assert Within(d[j], j);
    }
  }

  lemma BuiltComplexClosed(cx: Complex, given: seq<Edge>)
    requires cx.edges == CleanEdges(cx.numVertices, given)
    requires forall q :: q in cx.squares <==> Diamond(cx.edges, q)
    ensures Closed(cx)
  {
    ProperAll(cx.numVertices, given);
    forall i | 0 <= i < |cx.squares| ensures Bounded(cx.edges, cx.squares[i]) {
      assert cx.squares[i] in cx.squares;
    }
  }

  /** A pair joins a cell to one of the next dimension, born before it dies. */
  lemma PairDimensions(cx: Complex, d: seq<Column>, r: seq<Column>, v: seq<Column>,
                       pairs: seq<(nat, nat)>, unpaired: seq<nat>, a: nat)
    requires Closed(cx) && IsPersistence(cx, d, r, v, pairs, unpaired) && a < |pairs|
    ensures var (birth, death) := pairs[a];
      birth < death < |d| && Ranks(cx)[birth] + 1 == Ranks(cx)[death]
  {
    var (birth, death) := pairs[a];
    BirthBeforeDeath(d, r, v, death);
    assert GradedColumn(r[death], Ranks(cx), death);
  }

  // The H1 classes.

  function In(lo: nat, hi: nat): nat -> bool { (x: nat) => lo <= x < hi }
  function BornIn(lo: nat, hi: nat): ((nat, nat)) -> bool { (p: (nat, nat)) => lo <= p.0 < hi }
  function DiesIn(lo: nat, hi: nat): ((nat, nat)) -> bool { (p: (nat, nat)) => lo <= p.1 < hi }
  function BornAndDies(lo: nat, mid: nat, hi: nat): ((nat, nat)) -> bool {
    (p: (nat, nat)) => lo <= p.0 < mid && mid <= p.1 < hi
  }

  /**
   `h1_persistence_pairs`: pairs born at an edge and dying at a square, and unpaired edges, both in
   the order given.  On the pairs of a complex testing the death would be enough.
   */
  method H1PersistencePairs(cx: Complex, pairs: seq<(nat, nat)>, unpaired: seq<nat>)
      returns (h1: seq<(nat, nat)>, h1Unpaired: seq<nat>)
    ensures var n, m, k := cx.numVertices, cx.numVertices + |cx.edges|, cx.numVertices + |cx.edges| + |cx.squares|;
      && (forall p :: p in h1 <==> p in pairs && n <= p.0 < m && m <= p.1 < k)
      && (forall x :: x in h1Unpaired <==> x in unpaired && n <= x < m)
      && (Joins(pairs, n, m, k) ==> forall p :: p in h1 <==> p in pairs && m <= p.1 < k)
      && (Joins(pairs, n, m, k) && Partitioned(pairs, unpaired, k) ==> EachEdgeOnce(pairs, n, m, h1, h1Unpaired))
    ensures ByDeath(pairs) ==> ByDeath(h1)
    ensures Increasing(unpaired) ==> Increasing(h1Unpaired)
  {
    var edgeStart := cx.numVertices;
    var edgeEnd := edgeStart + |cx.edges|;
    var squareEnd := edgeEnd + |cx.squares|;
    h1 := Filter(pairs, BornAndDies(edgeStart, edgeEnd, squareEnd));
    h1Unpaired := Filter(unpaired, In(edgeStart, edgeEnd));
    if ByDeath(pairs) { FilterByDeath(pairs, BornAndDies(edgeStart, edgeEnd, squareEnd)); }
    if Increasing(unpaired) { FilterStrictlySorted(unpaired, In(edgeStart, edgeEnd), NatLe()); }
    if Joins(pairs, edgeStart, edgeEnd, squareEnd) {
      JoinedPairs(pairs, edgeStart, edgeEnd, squareEnd);
      if Partitioned(pairs, unpaired, squareEnd) {
        EdgeClasses(pairs, unpaired, edgeStart, edgeEnd, squareEnd);
      }
    }
  }

  /** An edge is in the result, once, exactly when it does not itself end an H0 class. */
  ghost predicate EachEdgeOnce(pairs: seq<(nat, nat)>, n: nat, m: nat, h1: seq<(nat, nat)>, h1Unpaired: seq<nat>) {
    forall x: nat :: n <= x < m ==> Births(h1, x) + Count(h1Unpaired, In(x, x + 1)) == 1 - Deaths(pairs, x)
  }

  lemma EdgeClasses(pairs: seq<(nat, nat)>, unpaired: seq<nat>, n: nat, m: nat, k: nat)
    requires Joins(pairs, n, m, k) && Partitioned(pairs, unpaired, k) && m <= k
    ensures EachEdgeOnce(pairs, n, m, Filter(pairs, BornAndDies(n, m, k)), Filter(unpaired, In(n, m)))
  {
    forall x: nat | n <= x < m
      ensures Births(Filter(pairs, BornAndDies(n, m, k)), x) + Count(Filter(unpaired, In(n, m)), In(x, x + 1))
        == 1 - Deaths(pairs, x)
    {
      EdgeClass(pairs, unpaired, n, m, k, x);
    }
  }

  ghost predicate ByDeath(pairs: seq<(nat, nat)>) {
    forall a, b :: 0 <= a < b < |pairs| ==> pairs[a].1 < pairs[b].1
  }

  function DeathLe(): ((nat, nat), (nat, nat)) -> bool { (p: (nat, nat), q: (nat, nat)) => p.1 <= q.1 }

  lemma FilterByDeath(pairs: seq<(nat, nat)>, keep: ((nat, nat)) -> bool)
    requires ByDeath(pairs)
    ensures ByDeath(Filter(pairs, keep))
  {
    FilterStrictlySorted(pairs, keep, DeathLe());
    var s := Filter(pairs, keep);
    forall a, b | 0 <= a < b < |s| ensures s[a].1 < s[b].1 {
      assert !DeathLe()(s[b], s[a]);
    }
  }

  /** The H1 classes of any edge list. */
  method H1OfEdges(numVertices: nat, given: seq<Edge>)
      returns (cx: Complex, h1: seq<(nat, nat)>, h1Unpaired: seq<nat>,
               ghost d: seq<Column>, ghost r: seq<Column>, ghost v: seq<Column>,
               ghost pairs: seq<(nat, nat)>, ghost unpaired: seq<nat>)
    ensures cx.numVertices == numVertices && cx.edges == CleanEdges(numVertices, given)
    ensures Closed(cx) && IsPersistence(cx, d, r, v, pairs, unpaired)
    ensures forall p :: p in h1 <==>
      p in pairs && cx.numVertices + |cx.edges| <= p.1 < cx.numVertices + |cx.edges| + |cx.squares|
    ensures forall x :: x in h1Unpaired <==> x in unpaired && cx.numVertices <= x < cx.numVertices + |cx.edges|
    ensures ByDeath(h1) && Increasing(h1Unpaired) && |h1Unpaired| == Betti(cx, unpaired, 1)
  {
    var found, left;
    cx, found, left, d, r, v := PersistenceOfEdges(numVertices, given);
    h1, h1Unpaired := H1PersistencePairs(cx, found, left);
    pairs, unpaired := found, left;
    BettiFiltered(cx, unpaired, h1Unpaired);
  }

  lemma BettiFiltered(cx: Complex, unpaired: seq<nat>, h1Unpaired: seq<nat>)
    requires Increasing(unpaired) && Increasing(h1Unpaired)
    requires forall x :: x in h1Unpaired <==> x in unpaired && cx.numVertices <= x < cx.numVertices + |cx.edges|
    ensures |h1Unpaired| == Betti(cx, unpaired, 1)
  {
    var block := In(cx.numVertices, cx.numVertices + |cx.edges|);
    FilterStrictlySorted(unpaired, block, NatLe());
    StrictlySortedUnique(h1Unpaired, Filter(unpaired, block), NatLe());
    FilterSize(unpaired, block);
  }

  lemma {:induction false} FilterSize<T(!new)>(s: seq<T>, p: T -> bool)
    ensures |Filter(s, p)| == Count(s, p)
  {
    if s != [] { FilterSize(s[1..], p); }
  }

  lemma JoinedPairs(pairs: seq<(nat, nat)>, n: nat, m: nat, k: nat)
    requires Joins(pairs, n, m, k)
    ensures forall p :: p in Filter(pairs, BornAndDies(n, m, k)) <==> p in pairs && m <= p.1 < k
  {
    forall p | p in pairs && m <= p.1 < k ensures BornAndDies(n, m, k)(p) {
      var a :| 0 <= a < |pairs| && pairs[a] == p;
      assert DiesIn(m, k)(pairs[a]);
    }
  }

  lemma EdgeClass(pairs: seq<(nat, nat)>, unpaired: seq<nat>, n: nat, m: nat, k: nat, x: nat)
    requires Joins(pairs, n, m, k) && Partitioned(pairs, unpaired, k) && n <= x < m <= k
    ensures Births(Filter(pairs, BornAndDies(n, m, k)), x) + Count(Filter(unpaired, In(n, m)), In(x, x + 1))
      == 1 - Deaths(pairs, x)
  {
    var keep := BornAndDies(n, m, k);
    forall a | 0 <= a < |pairs| && BornAt(x)(pairs[a]) ensures keep(pairs[a]) {
      assert BornIn(n, m)(pairs[a]) == DiesIn(m, k)(pairs[a]);
    }
    CountFiltered(pairs, keep, BornAt(x));
    CountFiltered(unpaired, In(n, m), In(x, x + 1));
    assert Births(pairs, x) + Deaths(pairs, x) + Count(unpaired, In(x, x + 1)) == 1;
  }

  lemma {:induction false} CountFiltered<T(!new)>(s: seq<T>, keep: T -> bool, p: T -> bool)
    requires forall i :: 0 <= i < |s| && p(s[i]) ==> keep(s[i])
    ensures Count(Filter(s, keep), p) == Count(s, p)
  {
    if s != [] {
      forall i | 0 <= i < |s[1..]| && p(s[1..][i]) ensures keep(s[1..][i]) {
        assert s[1..][i] == s[i + 1];
      }
      CountFiltered(s[1..], keep, p);
      var rest := Filter(s[1..], keep);
      if keep(s[0]) {
        assert Filter(s, keep) == [s[0]] + rest && ([s[0]] + rest)[1..] == rest;
      } else {
        assert !p(s[0]) && Filter(s, keep) == rest;
      }
    }
  }

  // The Euler characteristic.

  lemma {:induction false} CountSplit<T(!new)>(s: seq<T>, p: T -> bool, q: T -> bool, r: T -> bool)
    requires forall x :: Bit(p(x)) + Bit(q(x)) == Bit(r(x))
    ensures Count(s, p) + Count(s, q) == Count(s, r)
  {
    if s != [] { CountSplit(s[1..], p, q, r); }
  }

  lemma {:induction false} CountSame<T>(s: seq<T>, p: T -> bool, q: T -> bool)
    requires forall i :: 0 <= i < |s| ==> p(s[i]) == q(s[i])
    ensures Count(s, p) == Count(s, q)
  {
    if s != [] {
      assert p(s[0]) == q(s[0]);
      CountSame(s[1..], p, q);
    }
  }

  ghost predicate Partitioned(pairs: seq<(nat, nat)>, unpaired: seq<nat>, n: nat) {
    forall x: nat :: x < n ==> Births(pairs, x) + Deaths(pairs, x) + Count(unpaired, In(x, x + 1)) == 1
  }

  /** A block of cells is made of births, deaths and unpaired cells. */
  lemma {:induction false} BlockCount(pairs: seq<(nat, nat)>, unpaired: seq<nat>, lo: nat, hi: nat, n: nat)
    requires lo <= hi <= n && Partitioned(pairs, unpaired, n)
    ensures hi - lo == Count(pairs, BornIn(lo, hi)) + Count(pairs, DiesIn(lo, hi)) + Count(unpaired, In(lo, hi))
    decreases hi
  {
    if lo == hi {
      CountNone(pairs, BornIn(lo, hi));
      CountNone(pairs, DiesIn(lo, hi));
      CountNone(unpaired, In(lo, hi));
    } else {
      BlockCount(pairs, unpaired, lo, hi - 1, n);
      CountSplit(pairs, BornIn(lo, hi - 1), BornAt(hi - 1), BornIn(lo, hi));
      CountSplit(pairs, DiesIn(lo, hi - 1), DiesAt(hi - 1), DiesIn(lo, hi));
      CountSplit(unpaired, In(lo, hi - 1), In(hi - 1, hi), In(lo, hi));
      assert Births(pairs, hi - 1) + Deaths(pairs, hi - 1) + Count(unpaired, In(hi - 1, hi)) == 1;
    }
  }

  lemma PersistencePartitioned(cx: Complex, d: seq<Column>, r: seq<Column>, v: seq<Column>,
                               pairs: seq<(nat, nat)>, unpaired: seq<nat>)
    requires Closed(cx) && IsPersistence(cx, d, r, v, pairs, unpaired)
    ensures Partitioned(pairs, unpaired, |d|)
  {
    forall x: nat | x < |d|
      ensures Births(pairs, x) + Deaths(pairs, x) + Count(unpaired, In(x, x + 1)) == 1
    {
      PairsPartition(d, r, v, pairs, unpaired, x);
      CountMember(unpaired, x);
    }
  }

  lemma CountMember(s: seq<nat>, x: nat)
    requires forall a, b :: 0 <= a < b < |s| ==> s[a] < s[b]
    ensures Count(s, In(x, x + 1)) == Bit(x in s)
  {
    CountUnique(s, In(x, x + 1));
    if x in s {
      var i :| 0 <= i < |s| && s[i] == x;
      assert In(x, x + 1)(s[i]);
    }
  }

  /** The pairs of a complex join vertices to edges and edges to squares. */
  ghost predicate Joins(pairs: seq<(nat, nat)>, n: nat, m: nat, k: nat) {
    forall a :: 0 <= a < |pairs| ==> JoinsCells(pairs[a], n, m, k)
  }

  ghost predicate JoinsCells(p: (nat, nat), n: nat, m: nat, k: nat) {
    && (p.0 < n <==> n <= p.1 < m)
    && (n <= p.0 < m <==> m <= p.1 < k)
    && n <= p.1 && !(m <= p.0 < k)
  }

  function RankIn(n: nat, m: nat, x: nat): nat {
    if x < n then 0 else if x < m then 1 else 2
  }

  lemma RankAt(cx: Complex, x: nat)
    requires x < |Ranks(cx)|
    ensures Ranks(cx)[x] == RankIn(cx.numVertices, cx.numVertices + |cx.edges|, x)
  {
  }

  lemma NextRankJoins(p: (nat, nat), n: nat, m: nat, k: nat)
    requires p.1 < k && RankIn(n, m, p.0) + 1 == RankIn(n, m, p.1)
    ensures JoinsCells(p, n, m, k)
  {
  }

  lemma PairsJoin(cx: Complex, d: seq<Column>, r: seq<Column>, v: seq<Column>,
                  pairs: seq<(nat, nat)>, unpaired: seq<nat>)
    requires Closed(cx) && IsPersistence(cx, d, r, v, pairs, unpaired)
    ensures Joins(pairs, cx.numVertices, cx.numVertices + |cx.edges|, |d|)
  {
    forall a | 0 <= a < |pairs| ensures JoinsCells(pairs[a], cx.numVertices, cx.numVertices + |cx.edges|, |d|) {
      PairDimensions(cx, d, r, v, pairs, unpaired, a);
      RankAt(cx, pairs[a].0);
      RankAt(cx, pairs[a].1);
      NextRankJoins(pairs[a], cx.numVertices, cx.numVertices + |cx.edges|, |d|);
    }
  }

  lemma EulerCount(pairs: seq<(nat, nat)>, unpaired: seq<nat>, n: nat, m: nat, k: nat)
    requires n <= m <= k && Joins(pairs, n, m, k) && Partitioned(pairs, unpaired, k)
    ensures n - (m - n) + (k - m)
      == Count(unpaired, In(0, n)) - Count(unpaired, In(n, m)) + Count(unpaired, In(m, k))
  {
    BlockCount(pairs, unpaired, 0, n, k);
    BlockCount(pairs, unpaired, n, m, k);
    BlockCount(pairs, unpaired, m, k, k);
    CountSame(pairs, BornIn(0, n), DiesIn(n, m));
    CountSame(pairs, BornIn(n, m), DiesIn(m, k));
    CountNone(pairs, DiesIn(0, n));
    CountNone(pairs, BornIn(m, k));
  }

  /** How many cells of a dimension are unpaired: the Betti number. */
  function Betti(cx: Complex, unpaired: seq<nat>, dim: nat): nat {
    var m := cx.numVertices + |cx.edges|;
    if dim == 0 then Count(unpaired, In(0, cx.numVertices))
    else if dim == 1 then Count(unpaired, In(cx.numVertices, m))
    else Count(unpaired, In(m, m + |cx.squares|))
  }

  lemma BettiCounts(cx: Complex, unpaired: seq<nat>, n: nat, m: nat, k: nat)
    requires n == cx.numVertices && m == n + |cx.edges| && k == m + |cx.squares|
    ensures Betti(cx, unpaired, 0) == Count(unpaired, In(0, n))
    ensures Betti(cx, unpaired, 1) == Count(unpaired, In(n, m))
    ensures Betti(cx, unpaired, 2) == Count(unpaired, In(m, k))
  {
  }

  /**
   Euler characteristic: vertices - edges + squares equals the alternating count of unpaired
   cells by dimension.
   */
  lemma EulerCharacteristic(cx: Complex, d: seq<Column>, r: seq<Column>, v: seq<Column>,
                            pairs: seq<(nat, nat)>, unpaired: seq<nat>)
    requires Closed(cx) && IsPersistence(cx, d, r, v, pairs, unpaired)
    ensures cx.numVertices - |cx.edges| + |cx.squares|
      == Betti(cx, unpaired, 0) - Betti(cx, unpaired, 1) + Betti(cx, unpaired, 2)
  {
    PersistencePartitioned(cx, d, r, v, pairs, unpaired);
    PairsJoin(cx, d, r, v, pairs, unpaired);
    var n, m, k := cx.numVertices, cx.numVertices + |cx.edges|, |d|;
    EulerCount(pairs, unpaired, n, m, k);
    BettiCounts(cx, unpaired, n, m, k);
  }
}
