/**
 Choosing which source symbols to drop, and assembling the symbols a decoder receives.
 Symbols are represented by their encoding symbol id (ESI) and kind; payloads are copied
 along unchanged and play no part here.
 */
module DecodeReceived {
  import opened Arithmetic
  import opened Counting
  import opened Lcg
  import opened LossPlacement
  import opened Sorting

  /** The generator that picks extra drops in the "alternating" pattern. */
  const KNUTH := Generator(6_364_136_223_846_793_005, 1)

  const U32_MAX := 0xFFFF_FFFF
  const USIZE_MAX := 0xFFFF_FFFF_FFFF_FFFF

  function Min(a: nat, b: nat): nat { if a <= b then a else b }
  function Max(a: nat, b: nat): nat { if a <= b then b else a }

  function OddBelow(k: nat): (s: seq<nat>)
    ensures |s| == k / 2 && forall i :: 0 <= i < |s| ==> s[i] == 2 * i + 1
  {
    if k == 0 then []
    else if (k - 1) % 2 != 0 then OddBelow(k - 1) + [k - 1]
    else OddBelow(k - 1)
  }

  function UpTo(n: nat): (s: seq<nat>)
    ensures |s| == n && forall i :: 0 <= i < n ==> s[i] == i
  {
    seq(n, i => i)
  }

  /** Sorting distinct numbers gives the increasing list of the same numbers. */
  lemma SortDistinct(s: seq<nat>)
    requires Distinct(s)
    ensures var r := Sort(s, NatLe());
      |r| == |s| && Increasing(r) && Elements(r) == Elements(s)
  {
    var r := Sort(s, NatLe());
    SortSorted(s, NatLe());
    SameElements(s, r);
    DistinctSize(s);
    assert Elements(r) == Elements(s);
    forall i, j | 0 <= i < j < |r| ensures r[i] < r[j] {
      if r[i] == r[j] {
        RepeatShrinks(r, i, j);
        assert false;
      }
      assert NatLe()(r[i], r[j]);
    }
  }

  lemma RepeatShrinks(s: seq<nat>, i: nat, j: nat)
    requires i < j < |s| && s[i] == s[j]
    ensures |Elements(s)| < |s|
  {
    var t := s[..j] + s[j + 1..];
    assert forall x :: x in s ==> x in t by {
      forall x | x in s ensures x in t {
        var n :| 0 <= n < |s| && s[n] == x;
        if n < j { assert t[n] == x; } else if n > j { assert t[n - 1] == x; } else { assert t[i] == x; }
      }
    }
    assert Elements(s) == Elements(t);
    ElementsAtMost(t);
  }

  lemma {:induction false} ElementsAtMost(s: seq<nat>)
    ensures |Elements(s)| <= |s|
  {
    if s == [] {
      assert Elements(s) == {};
    } else {
      ElementsAtMost(s[1..]);
      assert Elements(s) == {s[0]} + Elements(s[1..]);
    }
  }

  /** Distinct indices below k that start with the odd ones. */
  ghost predicate Candidates(k: nat, indices: seq<nat>) {
    && OddBelow(k) <= indices
    && Distinct(indices)
    && (forall i :: 0 <= i < |indices| ==> indices[i] < k)
  }

  lemma AddCandidate(k: nat, indices: seq<nat>, c: nat)
    requires Candidates(k, indices) && c < k
    ensures c in indices ==> Elements(indices) + {c} == Elements(indices)
    ensures c !in indices ==>
      && Candidates(k, indices + [c])
      && Elements(indices + [c]) == Elements(indices) + {c}
      && |Elements(indices + [c])| == |indices| + 1
  {
    if c !in indices {
      var after := indices + [c];
      assert OddBelow(k) <= after;
      DistinctSize(after);
    }
  }

  /**
   `rounded` is the rounded product of k and the loss fraction.  The result is increasing,
   below k, and of length min(rounded, k).  In the alternating pattern it holds the first odd
   numbers, or, when those run out, all of them and the indices of the first draws that are new.
   */
  method ComputeDropIndices(k: nat, rounded: nat, alternating: bool, seed: nat)
      returns (indices: seq<nat>, ghost draws: nat)
    requires k < WORDS && seed < WORDS
    ensures |indices| == Min(rounded, k)
    ensures Increasing(indices) && forall i :: 0 <= i < |indices| ==> indices[i] < k
    ensures !alternating ==> forall i :: 0 <= i < |indices| ==> indices[i] == i
    ensures alternating && |indices| <= k / 2 ==> forall i :: 0 <= i < |indices| ==> indices[i] == 2 * i + 1
    ensures alternating && |indices| > k / 2 ==>
      Elements(indices) == Taken(KNUTH, k, Elements(OddBelow(k)), seed, draws)
  {
    var nDrop := Min(rounded, k);
    if alternating {
      indices, draws := AddEvenIndices(KNUTH, k, nDrop, seed);
      indices := Truncated(k, nDrop, indices);
    } else {
      indices, draws := UpTo(nDrop), 0;
    }
  }

  ghost predicate Gathering(g: Generator, k: nat, nDrop: nat, seed: nat, indices: seq<nat>, x: nat,
                            draws: nat, toGo: nat)
  {
    && Candidates(k, indices) && |Elements(indices)| == |indices|
    && k / 2 <= |indices| <= Max(nDrop, k / 2)
    && Drawing(g, k, nDrop, seed, Elements(OddBelow(k)), Elements(indices), x, draws, toGo)
  }

  lemma GatherOnce(g: Generator, k: nat, nDrop: nat, seed: nat, indices: seq<nat>, x: nat, draws: nat, toGo: nat)
      returns (toGo': nat)
    requires Gathering(g, k, nDrop, seed, indices, x, draws, toGo) && |indices| < nDrop && |indices| < k
    ensures var c := g.Step(x) % k;
      Gathering(g, k, nDrop, seed, if c in indices then indices else indices + [c], g.Step(x), draws + 1, toGo')
      && (c in indices ==> toGo' < toGo)
  {
    var c := g.Step(x) % k;
    toGo' := DrawOnce(g, k, nDrop, seed, Elements(OddBelow(k)), Elements(indices), x, draws, toGo, g.Step(x), c);
    AddCandidate(k, indices, c);
  }

  lemma BeginGathering(g: Generator, k: nat, nDrop: nat, seed: nat) returns (toGo: nat)
    requires g.FullPeriod() && nDrop <= k < WORDS && seed < WORDS
    ensures Gathering(g, k, nDrop, seed, OddBelow(k), seed, 0, toGo)
  {
    toGo := BeginDrawing(g, k, nDrop, seed, Elements(OddBelow(k)));
    DistinctSize(OddBelow(k));
  }

  lemma Gathered(g: Generator, k: nat, nDrop: nat, seed: nat, indices: seq<nat>, x: nat, draws: nat, toGo: nat)
    requires nDrop <= k && Gathering(g, k, nDrop, seed, indices, x, draws, toGo)
    requires |indices| >= nDrop || |indices| >= k
    ensures Candidates(k, indices) && |indices| == Max(nDrop, k / 2)
    ensures k > 0 ==> Elements(indices) == Taken(g, k, Elements(OddBelow(k)), seed, draws)
  {
  }

  /** The body of the loop: one draw, kept if it is new. */
  method DrawIndex(g: Generator, k: nat, ghost nDrop: nat, ghost seed: nat, indices: seq<nat>, extraSeed: nat,
                   ghost draws: nat, ghost toGo: nat)
      returns (indices': seq<nat>, extraSeed': nat, ghost toGo': nat)
    requires Gathering(g, k, nDrop, seed, indices, extraSeed, draws, toGo) && |indices| < nDrop && |indices| < k
    ensures Gathering(g, k, nDrop, seed, indices', extraSeed', draws + 1, toGo')
    ensures |indices| < |indices'| || (indices' == indices && toGo' < toGo)
  {
    toGo' := GatherOnce(g, k, nDrop, seed, indices, extraSeed, draws, toGo);
    extraSeed' := g.Step(extraSeed);
    var candidate := extraSeed' % k;
    indices' := if candidate in indices then indices else indices + [candidate];
  }

  /** The odd indices, and drawn even ones until there are nDrop. */
  method AddEvenIndices(g: Generator, k: nat, nDrop: nat, seed: nat)
      returns (indices: seq<nat>, ghost draws: nat)
    requires g.FullPeriod() && nDrop <= k < WORDS && seed < WORDS
    ensures Candidates(k, indices)
    ensures |indices| == Max(nDrop, k / 2)
    ensures k > 0 ==> Elements(indices) == Taken(g, k, Elements(OddBelow(k)), seed, draws)
  {
    indices := OddBelow(k);
    var extraSeed: nat := seed;
    draws := 0;
    ghost var toGo := BeginGathering(g, k, nDrop, seed);
    while |indices| < nDrop && |indices| < k
      invariant Gathering(g, k, nDrop, seed, indices, extraSeed, draws, toGo)
      decreases nDrop - |indices|, toGo
    {
      indices, extraSeed, toGo := DrawIndex(g, k, nDrop, seed, indices, extraSeed, draws, toGo);
      draws := draws + 1;
    }
    Gathered(g, k, nDrop, seed, indices, extraSeed, draws, toGo);
  }

  /** `truncate(nDrop)` followed by `sort_unstable()`. */
  method Truncated(k: nat, nDrop: nat, indices: seq<nat>) returns (kept: seq<nat>)
    requires Candidates(k, indices) && nDrop <= |indices|
    ensures |kept| == nDrop && Increasing(kept)
    ensures forall i :: 0 <= i < nDrop ==> kept[i] < k
    ensures nDrop <= k / 2 ==> kept == OddBelow(k)[..nDrop]
    ensures nDrop == |indices| ==> Elements(kept) == Elements(indices)
  {
    var cut := indices[..nDrop];
    SortDistinct(cut);
    kept := Sort(cut, NatLe());
    forall i | 0 <= i < nDrop ensures kept[i] < k {
      assert kept[i] in Elements(cut);
    }
    if nDrop <= k / 2 {
      assert cut == OddBelow(k)[..nDrop];
      SortOfSorted(cut, NatLe());
    }
    assert nDrop == |indices| ==> cut == indices;
  }

  datatype Symbol = Source(esi: nat) | Repair(esi: nat)

  /** The indices below n that are not dropped, increasing. */
  function Kept(n: nat, dropIndices: seq<nat>): (s: seq<nat>)
    ensures Increasing(s) && forall i: nat :: i in s <==> i < n && i !in dropIndices
  {
    if n == 0 then []
    else
      var t := Kept(n - 1, dropIndices);
      assert forall i :: 0 <= i < |t| ==> t[i] in t;
      if n - 1 in dropIndices then t else t + [n - 1]
  }

  /** The number of repair symbols wanted, with the source's saturating arithmetic. */
  function WantedRepairs(l: nat, kept: nat, extraRepair: nat): nat {
    Min((if l > kept then l - kept else 0) + extraRepair, USIZE_MAX)
  }

  /** The number of repair symbols produced: the range of ESIs is cut to 32 bits at both ends. */
  function ProducedRepairs(k: nat, wanted: nat): nat {
    Min(k % (U32_MAX + 1) + wanted % (U32_MAX + 1), U32_MAX) - k % (U32_MAX + 1)
  }

  /** No repair symbol is lost to 32-bit truncation exactly when all their ESIs fit below u32::MAX. */
  lemma AllRepairsProducedIff(k: nat, wanted: nat)
    ensures ProducedRepairs(k, wanted) == wanted <==> k % (U32_MAX + 1) + wanted <= U32_MAX
  {
    if wanted > U32_MAX {
      assert wanted % (U32_MAX + 1) <= U32_MAX;
    }
  }

  function Sources(kept: seq<nat>): seq<Symbol> {
    seq(|kept|, i requires 0 <= i < |kept| => Source(kept[i] % (U32_MAX + 1)))
  }

  /** The received list: the kept source symbols in order, then consecutive repair symbols. */
  function Received(kept: seq<nat>, k: nat, repairs: nat): seq<Symbol> {
    Sources(kept) + seq(repairs, (i: nat) => Repair(k % (U32_MAX + 1) + i))
  }

  /**
   The symbols one by one: the kept sources under their own indices, then repairs numbered on from k,
   as many as are wanted but none with an id of u32::MAX or more; indices and counts are cut to 32 bits.
   */
  ghost predicate IsReceived(r: seq<Symbol>, kept: seq<nat>, k: nat, wanted: nat) {
    && |kept| <= |r|
    && (forall i :: 0 <= i < |kept| ==> r[i].Source? && r[i].esi == kept[i] % 0x1_0000_0000)
    && (forall i :: |kept| <= i < |r| ==> r[i].Repair? && r[i].esi == k % 0x1_0000_0000 + (i - |kept|))
    && (|r| - |kept| == wanted % 0x1_0000_0000 || k % 0x1_0000_0000 + (|r| - |kept|) == U32_MAX)
    && |r| - |kept| <= wanted % 0x1_0000_0000 && k % 0x1_0000_0000 + (|r| - |kept|) <= U32_MAX
  }

  lemma ReceivedIs(kept: seq<nat>, k: nat, wanted: nat)
    ensures IsReceived(Received(kept, k, ProducedRepairs(k, wanted)), kept, k, wanted)
  {
  }

  /** Dropping distinct indices below k leaves k less their number as sources, and they are the ids below k. */
  lemma SourcesFirst(k: nat, indices: seq<nat>, wanted: nat, r: seq<Symbol>)
    requires Increasing(indices) && forall i :: 0 <= i < |indices| ==> indices[i] < k
    requires IsReceived(r, Kept(k, indices), k, wanted)
    ensures forall i :: 0 <= i < |r| ==> (r[i].Source? <==> i < k - |indices|)
    ensures k <= U32_MAX ==> forall i :: 0 <= i < |r| ==> (r[i].Source? <==> r[i].esi < k)
  {
    KeptSize(k, indices);
    var kept := Kept(k, indices);
    forall i | 0 <= i < |kept| ensures kept[i] < k { assert kept[i] in kept; }
  }

  method MarkDropped(k: nat, dropIndices: seq<nat>) returns (dropped: array<bool>)
    ensures dropped.Length == k
    ensures forall i :: 0 <= i < k ==> (dropped[i] <==> i in dropIndices)
  {
    dropped := new bool[k](i => false);
    for n := 0 to |dropIndices|
      invariant forall i :: 0 <= i < k ==> (dropped[i] <==> i in dropIndices[..n])
    {
      assert dropIndices[..n + 1] == dropIndices[..n] + [dropIndices[n]];
      if dropIndices[n] < k {
        dropped[dropIndices[n]] := true;
      }
    }
    assert dropIndices[..|dropIndices|] == dropIndices;
  }

  method KeepSources(dropped: seq<bool>, ghost dropIndices: seq<nat>) returns (received: seq<Symbol>)
    requires forall i :: 0 <= i < |dropped| ==> (dropped[i] <==> i in dropIndices)
    ensures received == Sources(Kept(|dropped|, dropIndices))
  {
    received := [];
    for idx := 0 to |dropped|
      invariant received == Sources(Kept(idx, dropIndices))
    {
      if !dropped[idx] {
        received := received + [Source(idx % (U32_MAX + 1))];
      }
    }
  }

  method BuildDecodeReceived(k: nat, l: nat, dropIndices: seq<nat>, extraRepair: nat)
      returns (received: seq<Symbol>)
    requires k <= USIZE_MAX && l <= USIZE_MAX && extraRepair <= USIZE_MAX
    ensures var kept := Kept(k, dropIndices);
      received == Received(kept, k, ProducedRepairs(k, WantedRepairs(l, |kept|, extraRepair)))
    ensures var kept := Kept(k, dropIndices);
      var required := if l > |kept| then l - |kept| else 0;
      IsReceived(received, kept, k, Min(required + extraRepair, USIZE_MAX))
  {
    var dropped := MarkDropped(k, dropIndices);
    received := KeepSources(dropped[..], dropIndices);
    ghost var kept := Kept(k, dropIndices);
    var wanted := WantedRepairs(l, |received|, extraRepair);
    received := AddRepairs(k, wanted, received, kept);
    ReceivedIs(kept, k, wanted);
  }

  method AddRepairs(k: nat, wanted: nat, sources: seq<Symbol>, ghost kept: seq<nat>) returns (received: seq<Symbol>)
    requires sources == Sources(kept)
    ensures received == Received(kept, k, ProducedRepairs(k, wanted))
  {
    received := sources;
    var repairStart := k % (U32_MAX + 1);
    var repairEnd := Min(repairStart + wanted % (U32_MAX + 1), U32_MAX);
    for esi := repairStart to repairEnd
      invariant received == Received(kept, k, esi - repairStart)
    {
      received := received + [Repair(esi)];
    }
  }

  ghost predicate InOrder(r: seq<Symbol>) { forall i, j :: 0 <= i < j < |r| ==> r[i].esi < r[j].esi }

  /** The ESIs fit in 32 bits, and they are increasing if the block size does too. */
  lemma ReceivedInOrder(kept: seq<nat>, k: nat, wanted: nat)
    requires Increasing(kept) && forall i :: 0 <= i < |kept| ==> kept[i] < k
    ensures var r := Received(kept, k, ProducedRepairs(k, wanted));
      (forall i :: 0 <= i < |r| ==> r[i].esi <= U32_MAX) && (k <= U32_MAX ==> InOrder(r))
  {
    var r := Received(kept, k, ProducedRepairs(k, wanted));
    if k <= U32_MAX {
      assert forall i :: 0 <= i < |kept| ==> r[i].esi == kept[i];
      assert forall i :: |kept| <= i < |r| ==> r[i].esi == k + (i - |kept|);
    }
  }

  /** From a to b the ids go up, unless a multiple of 2^32 lies between and b is no further from it than a. */
  predicate Rises(a: nat, b: nat) {
    a / (U32_MAX + 1) == b / (U32_MAX + 1) || a % (U32_MAX + 1) < b % (U32_MAX + 1)
  }

  lemma RisesIff(a: nat, b: nat)
    requires a < b
    ensures Rises(a, b) <==> a % (U32_MAX + 1) < b % (U32_MAX + 1)
  {
  }

  lemma {:induction false} NeighboursInOrder(r: seq<Symbol>)
    requires forall i :: 0 < i < |r| ==> r[i - 1].esi < r[i].esi
    ensures InOrder(r)
  {
    if |r| > 1 {
      var front := r[..|r| - 1];
      NeighboursInOrder(front);
      forall i, j | 0 <= i < j < |r| ensures r[i].esi < r[j].esi {
        if j == |r| - 1 && i < j - 1 { assert front[i].esi < front[j - 1].esi; }
        if j < |r| - 1 { assert front[i].esi < front[j].esi; }
      }
    }
  }

  /** What decides the order: neighbours among the kept sources, and the last of them with the first repair. */
  ghost predicate AllRise(kept: seq<nat>, k: nat, repairs: nat) {
    && (forall i :: 0 < i < |kept| ==> Rises(kept[i - 1], kept[i]))
    && (kept != [] && repairs > 0 ==> Rises(kept[|kept| - 1], k))
  }

  /** Position i of the received list is reached by a rise; among the repairs it always is. */
  ghost predicate RisesAt(kept: seq<nat>, k: nat, i: nat) {
    if 0 < i < |kept| then Rises(kept[i - 1], kept[i])
    else if 0 < i == |kept| then Rises(kept[i - 1], k)
    else true
  }

  lemma AllRiseAt(kept: seq<nat>, k: nat, repairs: nat)
    ensures AllRise(kept, k, repairs) <==> forall i :: 0 < i < |kept| + repairs ==> RisesAt(kept, k, i)
  {
    if forall i :: 0 < i < |kept| + repairs ==> RisesAt(kept, k, i) {
      forall i | 0 < i < |kept| ensures Rises(kept[i - 1], kept[i]) { assert RisesAt(kept, k, i); }
      if kept != [] && repairs > 0 { assert RisesAt(kept, k, |kept|); }
    }
  }

  ghost predicate StepsUp(r: seq<Symbol>, i: nat)
    requires 0 < i < |r|
  {
    r[i - 1].esi < r[i].esi
  }

  lemma StepsUpIff(kept: seq<nat>, k: nat, repairs: nat, i: nat)
    requires Increasing(kept) && forall j :: 0 <= j < |kept| ==> kept[j] < k
    requires 0 < i < |kept| + repairs
    ensures StepsUp(Received(kept, k, repairs), i) <==> RisesAt(kept, k, i)
  {
    if i < |kept| {
      RisesIff(kept[i - 1], kept[i]);
    } else if i == |kept| {
      RisesIff(kept[i - 1], k);
    }
  }

  lemma InOrderStepsUp(r: seq<Symbol>)
    ensures InOrder(r) <==> forall i :: 0 < i < |r| ==> StepsUp(r, i)
  {
    if forall i :: 0 < i < |r| ==> StepsUp(r, i) {
      forall i | 0 < i < |r| ensures r[i - 1].esi < r[i].esi { assert StepsUp(r, i); }
      NeighboursInOrder(r);
    }
  }

  /** Whatever is dropped, the ids are increasing exactly when they rise wherever a multiple of 2^32 is passed. */
  lemma InOrderIff(kept: seq<nat>, k: nat, wanted: nat)
    requires Increasing(kept) && forall i :: 0 <= i < |kept| ==> kept[i] < k
    ensures InOrder(Received(kept, k, ProducedRepairs(k, wanted))) <==> AllRise(kept, k, ProducedRepairs(k, wanted))
  {
    var repairs := ProducedRepairs(k, wanted);
    var r := Received(kept, k, repairs);
    assert |r| == |kept| + repairs;
    forall i | 0 < i < |r| ensures StepsUp(r, i) <==> RisesAt(kept, k, i) { StepsUpIff(kept, k, repairs, i); }
    InOrderStepsUp(r);
    AllRiseAt(kept, k, repairs);
  }

  /** With nothing dropped they are increasing exactly when all of them are different modulo 2^32. */
  lemma WholeInOrderIff(k: nat, wanted: nat)
    ensures InOrder(Received(UpTo(k), k, ProducedRepairs(k, wanted)))
      <==> k <= U32_MAX || (k == U32_MAX + 1 && ProducedRepairs(k, wanted) == 0)
  {
    var produced := ProducedRepairs(k, wanted);
    var r := Received(UpTo(k), k, produced);
    if k <= U32_MAX {
      ReceivedInOrder(UpTo(k), k, wanted);
    } else {
      assert r[0].esi == 0;
      if k > U32_MAX + 1 {
        assert r[U32_MAX + 1].esi == 0;
      } else if produced > 0 {
        assert r[k].esi == 0;
      } else {
        assert forall i :: 0 <= i < |r| ==> r[i].esi == i;
      }
    }
  }

  lemma KeptSize(k: nat, indices: seq<nat>)
    requires Increasing(indices) && forall i :: 0 <= i < |indices| ==> indices[i] < k
    ensures |Kept(k, indices)| == k - |indices|
  {
    var kept := Kept(k, indices);
    DistinctSize(indices);
    DistinctSize(kept);
    assert Elements(indices) !! Elements(kept);
    assert Below(k) == Elements(indices) + Elements(kept);
  }

  /**
   Dropping an increasing list of indices below k keeps k minus its length symbols, and
   max(l, that) + extraRepair are received, as long as every ESI fits in 32 bits.
   */
  lemma ReceivedCount(k: nat, l: nat, extraRepair: nat, indices: seq<nat>)
    requires Increasing(indices) && forall i :: 0 <= i < |indices| ==> indices[i] < k
    requires k % (U32_MAX + 1) + WantedRepairs(l, |Kept(k, indices)|, extraRepair) <= U32_MAX
    ensures |Kept(k, indices)| == k - |indices|
    ensures var kept := Kept(k, indices);
      var repairs := ProducedRepairs(k, WantedRepairs(l, |kept|, extraRepair));
      |Received(kept, k, repairs)| == Max(l, k - |indices|) + extraRepair
  {
    KeptSize(k, indices);
    AllRepairsProducedIff(k, WantedRepairs(l, |Kept(k, indices)|, extraRepair));
  }
}
