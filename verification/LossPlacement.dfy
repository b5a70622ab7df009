/**
 The rejection loops that scatter packet losses: draw an index from a wrapping generator,
 keep it if it is new, repeat until enough distinct indices are kept.
 Nothing in the loop bounds the number of rejected draws; termination rests on the
 generator's full period.
 */
module LossPlacement {
  import opened Arithmetic
  import opened Counting
  import opened Lcg

  /** The generator of the RaptorQ loss patterns. */
  const ANSI_C := Generator(1103515245, 12345)

  /** The indices in base together with those of the first n draws from seed, reduced modulo k. */
  ghost function Taken(g: Generator, k: nat, base: set<nat>, seed: nat, n: nat): (s: set<nat>)
    requires k > 0
  {
    if n == 0 then base else Taken(g, k, base, seed, n - 1) + {g.After(seed, n) % k}
  }

  /** The i-th draw is the state after i steps: the seed itself is never used. */
  lemma {:induction false} TakenIff(g: Generator, k: nat, base: set<nat>, seed: nat, n: nat, x: nat)
    requires k > 0
    ensures x in Taken(g, k, base, seed, n) <==> x in base || exists i: nat :: 1 <= i <= n && DrawnAt(g, k, seed, i, x)
  {
    if n > 0 {
      TakenIff(g, k, base, seed, n - 1, x);
      if x == g.After(seed, n) % k { assert DrawnAt(g, k, seed, n, x); }
    }
  }

  ghost predicate DrawnAt(g: Generator, k: nat, seed: nat, i: nat, x: nat)
    requires k > 0
  {
    x == g.After(seed, i) % k
  }

  /** The distinct indices among the first n draws from seed. */
  ghost function Drawn(g: Generator, k: nat, seed: nat, n: nat): set<nat>
    requires k > 0
  {
    Taken(g, k, {}, seed, n)
  }

  ghost function LostSet(pattern: seq<bool>): set<nat> {
    set i: nat | i < |pattern| && pattern[i]
  }

  lemma LostSetUpdate(pattern: seq<bool>, idx: nat)
    requires idx < |pattern|
    ensures LostSet(pattern[idx := true]) == LostSet(pattern) + {idx}
    ensures pattern[idx] <==> idx in LostSet(pattern)
  {
  }

  lemma {:induction false} DrawnWitness(g: Generator, k: nat, seed: nat, n: nat, r: nat) returns (i: nat)
    requires k > 0 && r in Drawn(g, k, seed, n)
    ensures 1 <= i <= n && g.After(seed, i) % k == r
  {
    if g.After(seed, n) % k == r && n > 0 {
      i := n;
    } else {
      i := DrawnWitness(g, k, seed, n - 1, r);
    }
  }

  lemma {:induction false} DrawnGrows(g: Generator, k: nat, seed: nat, i: nat, n: nat)
    requires k > 0 && i <= n
    ensures Drawn(g, k, seed, i) <= Drawn(g, k, seed, n)
    decreases n
  {
    if i < n { DrawnGrows(g, k, seed, i, n - 1); }
  }

  lemma {:induction false} DrawnInRange(g: Generator, k: nat, seed: nat, n: nat)
    requires k > 0
    ensures forall r :: r in Drawn(g, k, seed, n) ==> r < k
  {
    if n > 0 {
      DrawnInRange(g, k, seed, n - 1);
      assert Drawn(g, k, seed, n) == Drawn(g, k, seed, n - 1) + {g.After(seed, n) % k};
    }
  }

  lemma DrawnBelow(g: Generator, k: nat, seed: nat, n: nat)
    requires k > 0
    ensures Drawn(g, k, seed, n) <= Below(k)
    ensures |Drawn(g, k, seed, n)| <= k
  {
    DrawnInRange(g, k, seed, n);
    SubsetSize(Drawn(g, k, seed, n), Below(k));
  }

  /** The number of further draws until the word `target` comes up. */
  lemma DrawsUntil(g: Generator, x: nat, target: nat) returns (n: nat)
    requires g.FullPeriod() && x < WORDS && target < WORDS
    ensures 1 <= n <= WORDS && g.After(x, n) == target
  {
    var rest := ReachesWord(g, g.After(x, 1), target);
    AfterAdd(g, x, 1, rest);
    n := 1 + rest;
  }

  /** 2^64 draws hit every index below k. */
  lemma EveryIndexDrawn(g: Generator, k: nat, seed: nat)
    requires g.FullPeriod() && 0 < k <= WORDS && seed < WORDS
    ensures Drawn(g, k, seed, WORDS) == Below(k)
  {
    DrawnBelow(g, k, seed, WORDS);
    forall r: nat | r < k ensures r in Drawn(g, k, seed, WORDS) {
      var n := DrawsUntil(g, seed, r);
      RemainderUnique(r, 0, r, k);
      assert r in Drawn(g, k, seed, n);
      DrawnGrows(g, k, seed, n, WORDS);
    }
  }

  /** Exactly the loss counts up to k can be reached; for a larger count the loop spins forever. */
  lemma PlacementHaltsIff(g: Generator, k: nat, seed: nat, lossCount: nat)
    requires g.FullPeriod() && 0 < k <= WORDS && seed < WORDS
    ensures (exists n: nat :: |Drawn(g, k, seed, n)| >= lossCount) <==> lossCount <= k
  {
    if lossCount <= k {
      EveryIndexDrawn(g, k, seed);
      assert |Drawn(g, k, seed, WORDS)| >= lossCount;
    }
    forall n: nat ensures |Drawn(g, k, seed, n)| <= k {
      DrawnBelow(g, k, seed, n);
    }
  }

  /** Modulo a power of two the first 2^m draws are pairwise distinct. */
  lemma {:induction false} NoRepeatsModPow2(g: Generator, m: nat, seed: nat, n: nat)
    requires g.FullPeriod() && m <= 64 && n <= Pow2(m)
    ensures |Drawn(g, Pow2(m), seed, n)| == n
  {
    var k := Pow2(m);
    if n > 0 {
      NoRepeatsModPow2(g, m, seed, n - 1);
      var r := g.After(seed, n) % k;
      if r in Drawn(g, k, seed, n - 1) {
        var i := DrawnWitness(g, k, seed, n - 1, r);
        LowBitsPeriod(g, seed, i, n, m);
        RemainderUnique(i, 0, i, k);
        if n < k { RemainderUnique(n, 0, n, k); } else { RemainderUnique(n, 1, 0, k); }
        assert false;
      }
    }
  }

  /** The losses of the shortest run of draws that holds lossCount distinct indices. */
  ghost predicate Placed(g: Generator, k: nat, lossCount: nat, seed: nat, lost: set<nat>, draws: nat) {
    && |lost| == lossCount
    && (k > 0 ==> lost == Drawn(g, k, seed, draws))
    && (k > 0 && draws > 0 ==> |Drawn(g, k, seed, draws - 1)| < lossCount)
  }

  /** Marks slot idx as lost and says whether it was not lost before. */
  method Mark(pattern: array<bool>, idx: nat) returns (isNew: bool)
    requires idx < pattern.Length
    modifies pattern
    ensures LostSet(pattern[..]) == LostSet(old(pattern[..])) + {idx}
    ensures isNew <==> idx !in LostSet(old(pattern[..]))
    ensures |LostSet(pattern[..])| == |LostSet(old(pattern[..]))| + if isNew then 1 else 0
  {
    isNew := !pattern[idx];
    if isNew {
      pattern[idx] := true;
    }
    LostSetUpdate(old(pattern[..]), idx);
    assert pattern[..] == old(pattern[..])[idx := true];
  }

  /** The loop.  It ends for every seed, with exactly lossCount slots set. */
  method PlaceLosses(g: Generator, k: nat, lossCount: nat, seed: nat)
      returns (pattern: array<bool>, ghost draws: nat)
    requires g.FullPeriod() && lossCount <= k < WORDS && seed < WORDS
    ensures pattern.Length == k
    ensures Placed(g, k, lossCount, seed, LostSet(pattern[..]), draws)
  {
    pattern := new bool[k](i => false);
    var rngState: nat := seed;
    var lossesPlaced: nat := 0;
    draws := 0;
    assert LostSet(pattern[..]) == {};
    ghost var toGo := BeginDrawing(g, k, lossCount, seed, {});
    while lossesPlaced < lossCount
      invariant lossesPlaced == |LostSet(pattern[..])| <= lossCount
      invariant Drawing(g, k, lossCount, seed, {}, LostSet(pattern[..]), rngState, draws, toGo)
      decreases lossCount - lossesPlaced, toGo
    {
      var isNew;
      rngState, isNew, toGo := TryIndex(g, k, lossCount, seed, pattern, rngState, draws, toGo);
      draws := draws + 1;
      if isNew {
        lossesPlaced := lossesPlaced + 1;
      }
    }
    DrawingDone(g, k, lossCount, seed, LostSet(pattern[..]), rngState, draws, toGo);
  }

  /** The loop's body: one draw, and its slot marked. */
  method TryIndex(g: Generator, k: nat, lossCount: nat, ghost seed: nat, pattern: array<bool>,
                  rngState: nat, ghost draws: nat, ghost toGo: nat)
      returns (rngState': nat, isNew: bool, ghost toGo': nat)
    requires Drawing(g, k, lossCount, seed, {}, LostSet(pattern[..]), rngState, draws, toGo)
    requires pattern.Length == k && |LostSet(pattern[..])| < lossCount
    modifies pattern
    ensures Drawing(g, k, lossCount, seed, {}, LostSet(pattern[..]), rngState', draws + 1, toGo')
    ensures |LostSet(pattern[..])| == |LostSet(old(pattern[..]))| + if isNew then 1 else 0
    ensures !isNew ==> toGo' < toGo
  {
    rngState' := g.Step(rngState);
    var idx := rngState' % k;
    toGo' := DrawOnce(g, k, lossCount, seed, {}, LostSet(pattern[..]), rngState, draws, toGo, rngState', idx);
    isNew := Mark(pattern, idx);
  }

  /** The pattern of `create_scattered_loss_pattern`; a power-of-two k never rejects a draw. */
  method CreateScatteredLossPattern(k: nat, lossCount: nat, seed: nat)
      returns (pattern: array<bool>, ghost draws: nat)
    requires lossCount <= k < WORDS && seed < WORDS
    ensures pattern.Length == k
    ensures Placed(ANSI_C, k, lossCount, seed, LostSet(pattern[..]), draws)
    ensures forall m: nat :: m <= 64 && k == Pow2(m) ==> draws == lossCount
  {
    pattern, draws := PlaceLosses(ANSI_C, k, lossCount, seed);
    forall m: nat | m <= 64 && k == Pow2(m) ensures draws == lossCount {
      PowerOfTwoNeverRejects(ANSI_C, m, seed, lossCount, draws);
    }
  }

  lemma DrawingDone(g: Generator, k: nat, goal: nat, seed: nat, taken: set<nat>, x: nat, draws: nat, toGo: nat)
    requires Drawing(g, k, goal, seed, {}, taken, x, draws, toGo) && |taken| == goal
    ensures Placed(g, k, goal, seed, taken, draws)
  {
  }

  /**
   A rejection loop in progress: starting from the indices in base, the draws so far have
   taken `taken`, and toGo draws from now an index outside it comes up.
   */
  ghost predicate Drawing(g: Generator, k: nat, goal: nat, seed: nat, base: set<nat>, taken: set<nat>,
                          x: nat, draws: nat, toGo: nat)
  {
    && g.FullPeriod()
    && goal <= k < WORDS && x < WORDS
    && x == g.After(seed, draws)
    && (k > 0 ==> taken == Taken(g, k, base, seed, draws))
    && (k > 0 && draws > 0 ==> |taken| <= goal && |Taken(g, k, base, seed, draws - 1)| < goal)
    && (|taken| < goal ==> 1 <= toGo && g.After(x, toGo) % k !in taken)
  }

  lemma BeginDrawing(g: Generator, k: nat, goal: nat, seed: nat, base: set<nat>) returns (toGo: nat)
    requires g.FullPeriod() && goal <= k < WORDS && seed < WORDS
    ensures Drawing(g, k, goal, seed, base, base, seed, 0, toGo)
  {
    toGo := 0;
    if |base| < goal { toGo := NextNew(g, k, seed, base); }
  }

  /** One draw: a new index brings the goal closer, a repeated one shrinks toGo. */
  lemma DrawOnce(g: Generator, k: nat, goal: nat, seed: nat, base: set<nat>, taken: set<nat>,
                 x: nat, draws: nat, toGo: nat, x': nat, c: nat) returns (toGo': nat)
    requires Drawing(g, k, goal, seed, base, taken, x, draws, toGo) && |taken| < goal
    requires x' == g.Step(x) && c == x' % k
    ensures Drawing(g, k, goal, seed, base, taken + {c}, x', draws + 1, toGo')
    ensures c in taken ==> toGo' < toGo
  {
    var taken' := taken + {c};
    if c in taken {
      assert taken' == taken;
      AfterAdd(g, x, 1, toGo - 1);
      toGo' := toGo - 1;
    } else {
      toGo' := 0;
      if |taken'| < goal { toGo' := NextNew(g, k, x', taken'); }
    }
  }

  /** While some index below k is not taken, a later draw lands on such an index. */
  lemma NextNew(g: Generator, k: nat, x: nat, taken: set<nat>) returns (n: nat)
    requires g.FullPeriod() && k < WORDS && x < WORDS
    requires |taken| < k
    ensures 1 <= n && g.After(x, n) % k !in taken
  {
    var free := FreeIndex(k, taken);
    n := DrawsUntil(g, x, free);
    RemainderUnique(free, 0, free, k);
  }

  lemma FreeIndex(k: nat, taken: set<nat>) returns (free: nat)
    requires |taken| < k
    ensures free < k && free !in taken
  {
    if Below(k) <= taken {
      SubsetSize(Below(k), taken);
      assert false;
    }
    free :| free in Below(k) && free !in taken;
  }

  /** For a power-of-two k no draw is rejected: lossCount losses take exactly lossCount draws. */
  lemma PowerOfTwoNeverRejects(g: Generator, m: nat, seed: nat, lossCount: nat, draws: nat)
    requires g.FullPeriod() && m <= 64 && lossCount <= Pow2(m)
    requires Placed(g, Pow2(m), lossCount, seed, Drawn(g, Pow2(m), seed, draws), draws)
    ensures draws == lossCount
  {
    var k := Pow2(m);
    if draws <= k {
      NoRepeatsModPow2(g, m, seed, draws);
    } else {
      NoRepeatsModPow2(g, m, seed, k);
      DrawnGrows(g, k, seed, k, draws - 1);
      SubsetSize(Drawn(g, k, seed, k), Drawn(g, k, seed, draws - 1));
      assert false;
    }
  }
}
