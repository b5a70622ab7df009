/**
 Owner switches of the generated traces.  Every event is a spawn, whose owner is its task, so a
 trace is the sequence of its owners.
 */
module OwnerSwitches {
  import opened Arithmetic
  import opened Counting
  import opened Sorting

  /** Adjacent events with different owners. */
  function Switches(s: seq<nat>): (n: nat)
    ensures n <= if |s| < 2 then 0 else |s| - 1
  {
    if |s| < 2 then 0 else Switches(s[..|s| - 1]) + Bit(s[|s| - 2] != s[|s| - 1])
  }

  /** Counting over pairs of neighbours. */
  /** Where the owner changes. */
  ghost function SwitchesAt(s: seq<nat>): set<nat> {
    set i: nat | i < |s| && Changes(s, i)
  }

  ghost predicate Changes(s: seq<nat>, i: nat) { 0 < i < |s| && s[i - 1] != s[i] }

  lemma {:induction false} SwitchesCounted(s: seq<nat>)
    ensures Switches(s) == |SwitchesAt(s)|
  {
    if |s| < 2 {
      assert SwitchesAt(s) == {};
    } else {
      var last := |s| - 1;
      SwitchesCounted(s[..last]);
      forall i: nat | i < last ensures Changes(s[..last], i) <==> Changes(s, i) {
      }
      assert SwitchesAt(s) == SwitchesAt(s[..last]) + if Changes(s, last) then {last} else {};
    }
  }

  method CountSwitches(events: seq<nat>) returns (n: nat)
    ensures n == Switches(events) == |SwitchesAt(events)|
  {
    SwitchesCounted(events);
    n := 0;
    if |events| < 2 {
      return;
    }
    for i := 1 to |events|
      invariant n == Switches(events[..i])
    {
      assert events[..i + 1][..i] == events[..i];
      if events[i - 1] != events[i] {
        n := n + 1;
      }
    }
    assert events[..|events|] == events;
  }

  method HighContention(n: nat, owners: nat) returns (events: seq<nat>)
    requires owners >= 1
    ensures |events| == n && forall i :: 0 <= i < n ==> events[i] == i % owners
  {
    events := [];
    for i := 0 to n
      invariant |events| == i && forall j :: 0 <= j < i ==> events[j] == j % owners
    {
      events := events + [i % owners];
    }
  }

  method LowContention(n: nat, owners: nat) returns (events: seq<nat>)
    requires owners >= 1
    ensures |events| == n && forall i :: 0 <= i < n ==> events[i] == ChunkOwner(n, owners, i)
    ensures forall i :: 0 <= i < n ==> InChunk(n, owners, i, events[i])
  {
    events := [];
    for i := 0 to n
      invariant |events| == i && forall j :: 0 <= j < i ==> events[j] == ChunkOwner(n, owners, j)
    {
      events := events + [ChunkOwner(n, owners, i)];
    }
    forall i: nat | i < n ensures InChunk(n, owners, i, ChunkOwner(n, owners, i)) { ChunkOwnerIs(n, owners, i); }
  }

  /**
   Owner o has the events from o times the chunk length on, up to the next multiple, and the last
   owner has the rest.  The chunk length is the largest of which `owners` fit into n, but at least one.
   */
  ghost predicate InChunk(n: nat, owners: nat, i: nat, o: nat) {
    exists c: nat :: ChunkLength(n, owners, c) && o < owners && c * o <= i && (i < c * o + c || o == owners - 1)
  }

  ghost predicate ChunkLength(n: nat, owners: nat, c: nat) {
    c >= 1 && (c * owners <= n || c == 1) && n < c * owners + owners
  }

  lemma ChunkOwnerIs(n: nat, owners: nat, i: nat)
    requires owners >= 1
    ensures InChunk(n, owners, i, ChunkOwner(n, owners, i))
  {
    var c, o := ChunkSize(n, owners), ChunkOwner(n, owners, i);
    DivMod(n, owners);
    ChunkFits(n, owners, c);
    assert ChunkLength(n, owners, c);
    DivMod(i, c);
    var q := i / c;
    if q != o {
      assert c * q == c * o + c * (q - o);
      MultipleBounds(c, q - o);
    }
  }

  function ChunkSize(n: nat, owners: nat): (c: nat)
    requires owners >= 1
    ensures c >= 1
  {
    if n / owners >= 1 then n / owners else 1
  }

  function ChunkOwner(n: nat, owners: nat, i: nat): nat
    requires owners >= 1
  {
    var chunk := i / ChunkSize(n, owners);
    if chunk < owners - 1 then chunk else owners - 1
  }

  // Bounds that hold of every trace.

  /** A trace with k owners switches at least k - 1 times, in whatever order its events come. */
  lemma {:induction false} SwitchesAtLeast(s: seq<nat>)
    requires s != []
    ensures |Elements(s)| <= Switches(s) + 1
  {
    var t, last := s[..|s| - 1], s[|s| - 1];
    assert s == t + [last];
    assert Elements(s) == Elements(t) + {last};
    if t == [] {
      assert Elements(t) == {};
    } else {
      SwitchesAtLeast(t);
      if s[|s| - 2] == last {
        assert t[|t| - 1] == last;
        assert Elements(s) == Elements(t);
      }
    }
  }

  /** Starts at zero and moves by nought or one. */
  ghost predicate Stairs(s: seq<nat>) {
    s != [] && s[0] == 0 && forall i :: 0 < i < |s| ==> s[i - 1] <= s[i] <= s[i - 1] + 1
  }

  /** It switches as often as it moves. */
  lemma {:induction false} SwitchesOfStairs(s: seq<nat>)
    requires Stairs(s)
    ensures Switches(s) == s[|s| - 1]
  {
    if |s| > 1 { SwitchesOfStairs(s[..|s| - 1]); }
  }

  /** And it visits every owner on the way up. */
  lemma {:induction false} StairsVisit(s: seq<nat>, k: nat)
    requires Stairs(s) && k <= s[|s| - 1]
    ensures k in s
  {
    if k < s[|s| - 1] {
      var t := s[..|s| - 1];
      assert s[|s| - 1] <= s[|s| - 2] + 1;
      StairsVisit(t, k);
      assert forall x :: x in t ==> x in s;
    }
  }

  lemma StairElements(s: seq<nat>)
    requires Stairs(s)
    ensures s[|s| - 1] + 1 <= |Elements(s)|
  {
    forall k: nat | k <= s[|s| - 1] ensures k in s {
      StairsVisit(s, k);
    }
    SubsetSize(Below(s[|s| - 1] + 1), Elements(s));
  }

  lemma StairStep(i: nat, c: nat)
    requires c >= 1 && i >= 1
    ensures (i - 1) / c <= i / c <= (i - 1) / c + 1
  {
    var q := (i - 1) / c;
    assert i - 1 == c * q + (i - 1) % c;
    var d := i / c - q;
    assert c * d == 1 + (i - 1) % c - i % c;
    MultipleBounds(c, d);
    MultipleBounds(c, d - 1);
    assert c * (d - 1) == c * d - c;
  }

  lemma ChunksCover(owners: nat, c: nat, n: nat, d: nat, rest: nat)
    requires 1 <= owners && owners * c <= n && n - 1 == c * d + rest && rest < c
    ensures owners - 1 <= d
  {
    if d < owners - 1 {
      assert c * (owners - 1 - d) == owners * c - c - c * d;
      MultipleBounds(c, owners - 1 - d);
      assert false;
    }
  }

  lemma ChunkFits(n: nat, owners: nat, c: nat)
    requires owners >= 1 && c == ChunkSize(n, owners)
    ensures n >= owners ==> owners * c <= n
    ensures n < owners ==> c == 1
  {
    DivMod(n, owners);
    MultipleBounds(owners, n / owners);
  }

  lemma LastChunk(n: nat, owners: nat)
    requires n >= 1 && owners >= 1
    ensures ChunkOwner(n, owners, n - 1) == (if n < owners then n else owners) - 1
  {
    var c := ChunkSize(n, owners);
    ChunkFits(n, owners, c);
    if n >= owners {
      DivMod(n - 1, c);
      ChunksCover(owners, c, n, (n - 1) / c, (n - 1) % c);
    }
  }

  lemma ChunksAreStairs(n: nat, owners: nat, events: seq<nat>)
    requires n >= 1 && owners >= 1
    requires |events| == n && forall i :: 0 <= i < n ==> events[i] == ChunkOwner(n, owners, i)
    ensures Stairs(events)
  {
    forall i | 0 < i < n ensures events[i - 1] <= events[i] <= events[i - 1] + 1 {
      StairStep(i, ChunkSize(n, owners));
    }
    assert events[0] == 0;
  }

  /** Long runs: as few switches as any order of the same events can have. */
  lemma LowContentionOptimal(n: nat, owners: nat, events: seq<nat>, other: seq<nat>)
    requires n >= 1 && owners >= 1
    requires |events| == n && forall i :: 0 <= i < n ==> events[i] == ChunkOwner(n, owners, i)
    requires multiset(other) == multiset(events)
    ensures Switches(events) == (if n < owners then n else owners) - 1
    ensures Switches(events) <= Switches(other)
  {
    ChunksAreStairs(n, owners, events);
    SwitchesOfStairs(events);
    StairElements(events);
    LastChunk(n, owners);
    SameElements(events, other);
    assert Elements(events) == Elements(other);
    SwitchesAtLeast(other);
  }

  lemma {:induction false} SwitchesAlways(s: seq<nat>)
    requires forall i :: 0 < i < |s| ==> s[i - 1] != s[i]
    ensures Switches(s) == if |s| < 2 then 0 else |s| - 1
  {
    if |s| >= 2 { SwitchesAlways(s[..|s| - 1]); }
  }

  lemma NextOwner(i: nat, owners: nat)
    requires owners >= 2 && i >= 1
    ensures (i - 1) % owners != i % owners
  {
    var d := i / owners - (i - 1) / owners;
    assert owners * d == 1 - (i % owners - (i - 1) % owners);
    MultipleBounds(owners, d);
  }

  /** Round robin over two owners or more: every event switches, and no trace of that length switches more often. */
  lemma HighContentionWorst(n: nat, owners: nat, events: seq<nat>, other: seq<nat>)
    requires owners >= 2
    requires |events| == n == |other| && forall i :: 0 <= i < n ==> events[i] == i % owners
    ensures Switches(events) == (if n == 0 then 0 else n - 1) && Switches(other) <= Switches(events)
  {
    forall i | 0 < i < n ensures events[i - 1] != events[i] {
      NextOwner(i, owners);
    }
    SwitchesAlways(events);
  }
}
