/** The heap and vector timer stores, each proved against the timer specification. */
module TimerStores {
  import opened Sorting
  import opened TimerSpec
  import opened Wrappers

  lemma {:induction false} FilterConcat<T(!new)>(a: seq<T>, b: seq<T>, keep: T -> bool)
    ensures Filter(a + b, keep) == Filter(a, keep) + Filter(b, keep)
  {
    if a == [] {
      assert a + b == b;
    } else {
      assert (a + b)[1..] == a[1..] + b;
      FilterConcat(a[1..], b, keep);
    }
  }

  // The vector store.

  datatype Slot<W> = Slot(deadline: nat, id: nat, waker: Option<W>)

  /** The slots that still hold a waker. */
  function LiveOf<W>(slots: seq<Slot<W>>): seq<Entry<W>> {
    if slots == [] then []
    else LiveOfOne(slots[0]) + LiveOf(slots[1..])
  }

  function LiveOfOne<W>(s: Slot<W>): seq<Entry<W>> {
    if s.waker.Some? then [Entry(s.deadline, s.id, s.waker.value)] else []
  }

  lemma {:induction false} LiveOfConcat<W>(a: seq<Slot<W>>, b: seq<Slot<W>>)
    ensures LiveOf(a + b) == LiveOf(a) + LiveOf(b)
  {
    if a == [] {
      assert a + b == b;
    } else {
      assert (a + b)[1..] == a[1..] + b;
      LiveOfConcat(a[1..], b);
    }
  }

  lemma LiveOfSnoc<W>(a: seq<Slot<W>>, s: Slot<W>)
    ensures LiveOf(a + [s]) == LiveOf(a) + LiveOfOne(s)
  {
    LiveOfConcat(a, [s]);
    assert [s][1..] == [];
    assert LiveOf([s]) == LiveOfOne(s) + [];
  }

  lemma {:induction false} LiveOfAbsent<W(!new)>(slots: seq<Slot<W>>, id: nat)
    requires forall i :: 0 <= i < |slots| ==> slots[i].id != id || slots[i].waker.None?
    ensures Filter(LiveOf(slots), Not(id)) == LiveOf(slots)
    ensures id !in Ids(LiveOf(slots))
  {
    if slots != [] {
      LiveOfAbsent(slots[1..], id);
      FilterConcat(LiveOfOne(slots[0]), LiveOf(slots[1..]), Not(id));
      assert Filter(LiveOfOne(slots[0]), Not(id)) == LiveOfOne(slots[0]);
      var head := LiveOfOne(slots[0]);
      forall i | 0 <= i < |LiveOf(slots)| ensures LiveOf(slots)[i].id != id {
        if i >= |head| { assert LiveOf(slots)[i] == LiveOf(slots[1..])[i - |head|]; }
      }
    }
  }

  lemma {:induction false} LiveOfOrdered<W>(slots: seq<Slot<W>>, nextId: nat)
    requires IdsAscend(slots, nextId)
    ensures Ordered(LiveOf(slots), nextId)
    ensures slots != [] ==> forall i :: 0 <= i < |LiveOf(slots)| ==> slots[0].id <= LiveOf(slots)[i].id
  {
    if slots != [] {
      LiveOfOrdered(slots[1..], nextId);
      if |slots| > 1 { assert slots[0].id < slots[1].id; }
    }
  }

  ghost predicate IdsAscend<W>(slots: seq<Slot<W>>, nextId: nat) {
    && (forall i, j :: 0 <= i < j < |slots| ==> slots[i].id < slots[j].id)
    && (forall i :: 0 <= i < |slots| ==> slots[i].id < nextId)
  }

  /** `retain` with its closure: entries due are dropped, and their wakers collected if they have one. */
  method Retain<W(!new)>(entries: seq<Slot<W>>, ghost nextId: nat, now: nat)
      returns (kept: seq<Slot<W>>, expired: seq<W>)
    requires IdsAscend(entries, nextId)
    ensures IdsAscend(kept, nextId)
    ensures expired == Wakers(Expiring(LiveOf(entries), now))
    ensures LiveOf(kept) == Filter(LiveOf(entries), NotDue(now))
  {
    expired, kept := [], [];
    for i := 0 to |entries|
      invariant Retaining(entries[..i], kept, expired, nextId, now)
    {
      var e := entries[i];
      assert entries[..i + 1] == entries[..i] + [e];
      if e.deadline <= now {
        RetainDue(entries[..i], e, kept, expired, nextId, now);
        if e.waker.Some? { expired := expired + [e.waker.value]; }
      } else {
        RetainKept(entries[..i], e, kept, expired, nextId, now);
        kept := kept + [e];
      }
    }
    assert entries[..|entries|] == entries;
  }

  ghost predicate Retaining<W(!new)>(done: seq<Slot<W>>, kept: seq<Slot<W>>, expired: seq<W>, nextId: nat, now: nat) {
    && IdsAscend(kept, nextId)
    && (forall k :: k in kept ==> k in done)
    && expired == Wakers(Expiring(LiveOf(done), now))
    && LiveOf(kept) == Filter(LiveOf(done), NotDue(now))
  }

  lemma RetainIds<W>(done: seq<Slot<W>>, e: Slot<W>, kept: seq<Slot<W>>, nextId: nat)
    requires IdsAscend(kept, nextId) && IdsAscend(done + [e], nextId)
    requires forall k :: k in kept ==> k in done
    ensures IdsAscend(kept + [e], nextId)
  {
    assert (done + [e])[|done|].id < nextId;
    forall i | 0 <= i < |kept| ensures kept[i].id < e.id {
      assert kept[i] in done;
      var j :| 0 <= j < |done| && done[j] == kept[i];
      assert (done + [e])[j].id < (done + [e])[|done|].id;
    }
  }

  /** A slot that is due leaves, and fires if it still has its waker. */
  lemma RetainDue<W(!new)>(done: seq<Slot<W>>, e: Slot<W>, kept: seq<Slot<W>>, expired: seq<W>, nextId: nat, now: nat)
    requires Retaining(done, kept, expired, nextId, now) && e.deadline <= now
    ensures Retaining(done + [e], kept, expired + if e.waker.Some? then [e.waker.value] else [], nextId, now)
  {
    LiveStep(done, e, now);
    if e.waker.Some? {
      WakersSnoc(Expiring(LiveOf(done), now), Entry(e.deadline, e.id, e.waker.value));
    }
  }

  /** Any other slot stays. */
  lemma RetainKept<W(!new)>(done: seq<Slot<W>>, e: Slot<W>, kept: seq<Slot<W>>, expired: seq<W>, nextId: nat, now: nat)
    requires Retaining(done, kept, expired, nextId, now) && e.deadline > now
    requires IdsAscend(done + [e], nextId)
    ensures Retaining(done + [e], kept + [e], expired, nextId, now)
  {
    assert LiveOf(kept + [e]) == Filter(LiveOf(done + [e]), NotDue(now)) by {
      LiveStep(done, e, now);
      LiveOfSnoc(kept, e);
    }
    assert Expiring(LiveOf(done + [e]), now) == Expiring(LiveOf(done), now) by {
      LiveStep(done, e, now);
    }
    RetainIds(done, e, kept, nextId);
  }

  lemma LiveStep<W(!new)>(done: seq<Slot<W>>, e: Slot<W>, now: nat)
    ensures var later := Filter(LiveOf(done), NotDue(now));
      Filter(LiveOf(done + [e]), NotDue(now)) == if e.deadline > now then later + LiveOfOne(e) else later
    ensures Expiring(LiveOf(done + [e]), now)
      == if e.deadline <= now then Expiring(LiveOf(done), now) + LiveOfOne(e) else Expiring(LiveOf(done), now)
  {
    LiveOfSnoc(done, e);
    FilterConcat(LiveOf(done), LiveOfOne(e), NotDue(now));
    FilterConcat(LiveOf(done), LiveOfOne(e), Due(now));
    assert Filter(LiveOfOne(e), NotDue(now)) == if e.deadline > now then LiveOfOne(e) else [];
    assert Filter(LiveOfOne(e), Due(now)) == if e.deadline <= now then LiveOfOne(e) else [];
  }

  class VecTimers<W(!new)> {
    var entries: seq<Slot<W>>
    var nextId: nat

    ghost predicate Valid()
      reads this
    {
      IdsAscend(entries, nextId)
    }

    function Live(): seq<Entry<W>>
      reads this
    {
      LiveOf(entries)
    }

    constructor ()
      ensures Valid() && Live() == [] && nextId == 0
    {
      entries := [];
      nextId := 0;
    }

    method Insert(deadline: nat, waker: W) returns (id: nat)
      requires Valid()
      modifies this
      ensures Valid() && id == old(nextId) && nextId == id + 1
      ensures Live() == old(Live()) + [Entry(deadline, id, waker)]
    {
      id := nextId;
      nextId := nextId + 1;
      LiveOfSnoc(entries, Slot(deadline, id, Some(waker)));
      entries := entries + [Slot(deadline, id, Some(waker))];
    }

    method Cancel(id: nat) returns (found: bool)
      requires Valid()
      modifies this
      ensures Valid() && nextId == old(nextId)
      ensures found <==> id in Ids(old(Live()))
      ensures Live() == Filter(old(Live()), Not(id))
    {
      for i := 0 to |entries|
        invariant Valid() && entries == old(entries) && nextId == old(nextId)
        invariant forall j :: 0 <= j < i ==> entries[j].id != id || entries[j].waker.None?
      {
        if entries[i].id == id && entries[i].waker.Some? {
          CancelAt(entries, i);
          entries := entries[i := entries[i].(waker := None)];
          return true;
        }
      }
      LiveOfAbsent(entries, id);
      return false;
    }

    method CollectExpired(now: nat) returns (expired: seq<W>)
      requires Valid()
      modifies this
      ensures Valid() && nextId == old(nextId)
      ensures expired == Wakers(Expiring(old(Live()), now))
      ensures Live() == Filter(old(Live()), NotDue(now))
    {
      entries, expired := Retain(entries, nextId, now);
    }

    method Len() returns (n: nat)
      ensures n == |Live()|
    {
      n := 0;
      for i := 0 to |entries|
        invariant n == |LiveOf(entries[..i])|
      {
        assert entries[..i + 1] == entries[..i] + [entries[i]];
        LiveOfSnoc(entries[..i], entries[i]);
        if entries[i].waker.Some? { n := n + 1; }
      }
      assert entries[..|entries|] == entries;
    }
  }

  lemma CancelAt<W(!new)>(slots: seq<Slot<W>>, i: nat)
    requires i < |slots| && slots[i].waker.Some?
    requires forall j, k :: 0 <= j < k < |slots| ==> slots[j].id < slots[k].id
    ensures LiveOf(slots[i := slots[i].(waker := None)]) == Filter(LiveOf(slots), Not(slots[i].id))
    ensures slots[i].id in Ids(LiveOf(slots))
  {
    var e := slots[i];
    var a, b := slots[..i], slots[i + 1..];
    var dead := e.(waker := None);
    assert slots == a + [e] + b;
    assert slots[i := dead] == a + [dead] + b;
    LiveOfSnoc(a, e);
    LiveOfSnoc(a, dead);
    LiveOfConcat(a + [e], b);
    LiveOfConcat(a + [dead], b);
    LiveOfAbsent(a, e.id);
    LiveOfAbsent(b, e.id);
    FilterConcat(LiveOf(a) + LiveOfOne(e), LiveOf(b), Not(e.id));
    FilterConcat(LiveOf(a), LiveOfOne(e), Not(e.id));
    assert Filter(LiveOfOne(e), Not(e.id)) == [];
    assert LiveOf(slots)[|LiveOf(a)|].id == e.id;
  }

  // The heap store.

  /** The order of the heap: `Reverse` of the pair order, so the least pair is on top. */
  predicate PairLe(a: (nat, nat), b: (nat, nat)) {
    a.0 < b.0 || (a.0 == b.0 && a.1 <= b.1)
  }

  ghost predicate IsTop(heap: set<(nat, nat)>, top: (nat, nat)) {
    top in heap && forall x :: x in heap ==> PairLe(top, x)
  }

  lemma {:induction false} TopExists(heap: set<(nat, nat)>)
    requires heap != {}
    ensures exists top :: IsTop(heap, top)
  {
    var x :| x in heap;
    if heap == {x} {
      assert IsTop(heap, x);
    } else {
      TopExists(heap - {x});
      var top :| IsTop(heap - {x}, top);
      var least := if PairLe(x, top) then x else top;
      forall y | y in heap ensures PairLe(least, y) {
        if y != x { assert y in heap - {x}; }
      }
      assert IsTop(heap, least);
    }
  }

  method Peek(heap: set<(nat, nat)>) returns (top: (nat, nat))
    requires heap != {}
    ensures IsTop(heap, top)
  {
    TopExists(heap);
    top :| top in heap && forall x :: x in heap ==> PairLe(top, x);
  }

  /** Every live timer is in the heap under its deadline, and a heap entry with a live id is that timer's. */
  ghost predicate HeapRep<W(!new)>(heap: set<(nat, nat)>, wakers: map<nat, W>, live: seq<Entry<W>>, nextId: nat) {
    && Ordered(live, nextId)
    && wakers.Keys == Ids(live)
    && (forall e :: e in live ==> e.id in wakers && wakers[e.id] == e.waker && (e.deadline, e.id) in heap)
    && (forall x, e :: x in heap && e in live && x.1 == e.id ==> x.0 == e.deadline)
    && (forall x :: x in heap ==> x.1 < nextId)
  }

  lemma RepInsert<W(!new)>(heap: set<(nat, nat)>, wakers: map<nat, W>, live: seq<Entry<W>>, nextId: nat,
                           deadline: nat, waker: W)
    requires HeapRep(heap, wakers, live, nextId)
    ensures HeapRep(heap + {(deadline, nextId)}, wakers[nextId := waker],
                    live + [Entry(deadline, nextId, waker)], nextId + 1)
  {
    var e := Entry(deadline, nextId, waker);
    OrderedAppend(live, nextId, e);
    IdsSnoc(live, e);
    forall x | x in live ensures x.id < nextId {
      var i :| 0 <= i < |live| && live[i] == x;
    }
  }

  lemma RepCancel<W(!new)>(heap: set<(nat, nat)>, wakers: map<nat, W>, live: seq<Entry<W>>, nextId: nat, id: nat)
    requires HeapRep(heap, wakers, live, nextId)
    ensures HeapRep(heap, wakers - {id}, Filter(live, Not(id)), nextId)
  {
    OrderedFilter(live, nextId, Not(id));
    IdsWithout(live, id);
  }

  /** An entry whose id is no longer live can leave the heap. */
  lemma RepPopDead<W(!new)>(heap: set<(nat, nat)>, wakers: map<nat, W>, live: seq<Entry<W>>, nextId: nat,
                            top: (nat, nat))
    requires HeapRep(heap, wakers, live, nextId) && top.1 !in wakers
    ensures HeapRep(heap - {top}, wakers, live, nextId)
  {
  }

  /** The top of the heap, when live, is the least live timer. */
  lemma TopIsLeast<W(!new)>(heap: set<(nat, nat)>, wakers: map<nat, W>, live: seq<Entry<W>>, nextId: nat,
                            top: (nat, nat)) returns (e: Entry<W>)
    requires HeapRep(heap, wakers, live, nextId) && IsTop(heap, top) && top.1 in wakers
    ensures e in live && e == Entry(top.0, top.1, wakers[top.1])
    ensures forall x :: x in live ==> ByBoth()(e, x)
  {
    assert top.1 in Ids(live);
    var i :| 0 <= i < |live| && live[i].id == top.1;
    e := live[i];
    forall x | x in live ensures ByBoth()(e, x) {
      assert PairLe(top, (x.deadline, x.id));
    }
  }

  /** Nothing live is due when the heap is empty or its top is not due; then only later timers remain. */
  lemma NothingDue<W(!new)>(heap: set<(nat, nat)>, wakers: map<nat, W>, live: seq<Entry<W>>, nextId: nat, now: nat)
    requires HeapRep(heap, wakers, live, nextId)
    requires forall x :: x in heap ==> x.0 > now
    ensures ExpiringSorted(live, now) == [] && Filter(live, NotDue(now)) == live
  {
    forall e | e in live ensures e.deadline > now {
      assert (e.deadline, e.id) in heap;
    }
    AllStay(live, nextId, now);
    NoneExpire(live, nextId, now);
  }

  lemma AllStay<W(!new)>(live: seq<Entry<W>>, nextId: nat, now: nat)
    requires Ordered(live, nextId) && forall e :: e in live ==> e.deadline > now
    ensures Filter(live, NotDue(now)) == live
  {
    OrderedFilter(live, nextId, NotDue(now));
    OrderedUnique(Filter(live, NotDue(now)), live, nextId);
  }

  lemma NoneExpire<W(!new)>(live: seq<Entry<W>>, nextId: nat, now: nat)
    requires Ordered(live, nextId) && forall e :: e in live ==> e.deadline > now
    ensures ExpiringSorted(live, now) == []
  {
    ExpiringSortedFacts(live, nextId, now);
    assert forall e :: e !in ExpiringSorted(live, now);
  }

  /** Dropping a due timer first changes nothing about what stays. */
  lemma KeepWithout<W(!new)>(live: seq<Entry<W>>, nextId: nat, e: Entry<W>, now: nat)
    requires Ordered(live, nextId) && e in live && e.deadline <= now
    ensures Filter(Filter(live, Not(e.id)), NotDue(now)) == Filter(live, NotDue(now))
  {
    OrderedFilter(live, nextId, Not(e.id));
    OrderedFilter(live, nextId, NotDue(now));
    OrderedFilter(Filter(live, Not(e.id)), nextId, NotDue(now));
    forall x | x in live && x.deadline > now ensures x.id != e.id {
      if x.id == e.id { SameIdSameEntry(live, nextId, x, e); }
    }
    OrderedUnique(Filter(Filter(live, Not(e.id)), NotDue(now)), Filter(live, NotDue(now)), nextId);
  }

  /** `out` has fired; what is still live fires after it, and nothing else has been touched. */
  ghost predicate Popping<W(!new)>(out: seq<Entry<W>>, live: seq<Entry<W>>, live0: seq<Entry<W>>, now: nat) {
    && out + ExpiringSorted(live, now) == ExpiringSorted(live0, now)
    && Filter(live, NotDue(now)) == Filter(live0, NotDue(now))
  }

  lemma PopOrder<W(!new)>(live: seq<Entry<W>>, nextId: nat, now: nat, e: Entry<W>,
                          out: seq<Entry<W>>, live0: seq<Entry<W>>)
    requires Ordered(live, nextId) && e in live && e.deadline <= now
    requires forall x :: x in live ==> ByBoth()(e, x)
    requires Popping(out, live, live0, now)
    ensures Popping(out + [e], Filter(live, Not(e.id)), live0, now)
  {
    PopLeast(live, nextId, now, e);
    KeepWithout(live, nextId, e, now);
    ConcatAssoc(out, [e], ExpiringSorted(Filter(live, Not(e.id)), now));
  }

  lemma PopLive<W(!new)>(heap: set<(nat, nat)>, wakers: map<nat, W>, live: seq<Entry<W>>, nextId: nat,
                         top: (nat, nat))
    requires HeapRep(heap, wakers, live, nextId) && top.1 in wakers
    ensures HeapRep(heap - {top}, wakers - {top.1}, Filter(live, Not(top.1)), nextId)
  {
    RepCancel(heap, wakers, live, nextId, top.1);
    RepPopDead(heap, wakers - {top.1}, Filter(live, Not(top.1)), nextId, top);
  }

  /** One turn of the loop for a top that is live and due. */
  lemma PopNext<W(!new)>(heap: set<(nat, nat)>, wakers: map<nat, W>, live: seq<Entry<W>>, nextId: nat,
                         top: (nat, nat), now: nat, out: seq<Entry<W>>, live0: seq<Entry<W>>)
      returns (out': seq<Entry<W>>, live': seq<Entry<W>>)
    requires HeapRep(heap, wakers, live, nextId) && IsTop(heap, top) && top.1 in wakers && top.0 <= now
    requires Popping(out, live, live0, now)
    ensures HeapRep(heap - {top}, wakers - {top.1}, live', nextId) && Popping(out', live', live0, now)
    ensures Wakers(out') == Wakers(out) + [wakers[top.1]]
  {
    var e := TopIsLeast(heap, wakers, live, nextId, top);
    PopOrder(live, nextId, now, e, out, live0);
    PopLive(heap, wakers, live, nextId, top);
    WakersSnoc(out, e);
    out', live' := out + [e], Filter(live, Not(top.1));
  }

  lemma PoppedAll<W(!new)>(heap: set<(nat, nat)>, wakers: map<nat, W>, live: seq<Entry<W>>, nextId: nat,
                           now: nat, out: seq<Entry<W>>, live0: seq<Entry<W>>)
    requires HeapRep(heap, wakers, live, nextId) && Popping(out, live, live0, now)
    requires forall x :: x in heap ==> x.0 > now
    ensures out == ExpiringSorted(live0, now) && live == Filter(live0, NotDue(now))
  {
    NothingDue(heap, wakers, live, nextId, now);
    assert out + [] == out;
  }

  /** The loop of `collect_expired`. */
  method Drain<W(!new)>(heap0: set<(nat, nat)>, wakers0: map<nat, W>, ghost live0: seq<Entry<W>>,
                        ghost nextId: nat, now: nat)
      returns (heap: set<(nat, nat)>, wakers: map<nat, W>, ghost live: seq<Entry<W>>, expired: seq<W>)
    requires HeapRep(heap0, wakers0, live0, nextId)
    ensures HeapRep(heap, wakers, live, nextId)
    ensures expired == Wakers(ExpiringSorted(live0, now))
    ensures live == Filter(live0, NotDue(now))
  {
    heap, wakers, live, expired := heap0, wakers0, live0, [];
    ghost var out: seq<Entry<W>> := [];
    while heap != {}
      invariant HeapRep(heap, wakers, live, nextId)
      invariant expired == Wakers(out)
      invariant Popping(out, live, live0, now)
      decreases heap
    {
      var top := Peek(heap);
      if top.0 > now {
        break;
      }
      if top.1 in wakers {
        out, live := PopNext(heap, wakers, live, nextId, top, now, out, live0);
        expired := expired + [wakers[top.1]];
        wakers := wakers - {top.1};
      } else {
        RepPopDead(heap, wakers, live, nextId, top);
      }
      heap := heap - {top};
    }
    PoppedAll(heap, wakers, live, nextId, now, out, live0);
  }

  class HeapTimers<W(!new)> {
    var heap: set<(nat, nat)>
    var wakers: map<nat, W>
    var nextId: nat
    ghost var live: seq<Entry<W>>

    ghost predicate Valid()
      reads this
    {
      HeapRep(heap, wakers, live, nextId)
    }

    constructor ()
      ensures Valid() && live == [] && nextId == 0
    {
      heap, wakers, nextId, live := {}, map[], 0, [];
    }

    method Insert(deadline: nat, waker: W) returns (id: nat)
      requires Valid()
      modifies this
      ensures Valid() && id == old(nextId) && nextId == id + 1
      ensures live == old(live) + [Entry(deadline, id, waker)]
    {
      RepInsert(heap, wakers, live, nextId, deadline, waker);
      id := nextId;
      nextId := nextId + 1;
      heap := heap + {(deadline, id)};
      wakers := wakers[id := waker];
      live := live + [Entry(deadline, id, waker)];
    }

    /** Lazy deletion: the heap entry stays. */
    method Cancel(id: nat) returns (found: bool)
      requires Valid()
      modifies this
      ensures Valid() && nextId == old(nextId)
      ensures found <==> id in Ids(old(live))
      ensures live == Filter(old(live), Not(id))
    {
      RepCancel(heap, wakers, live, nextId, id);
      found := id in wakers;
      wakers := wakers - {id};
      live := Filter(live, Not(id));
    }

    method CollectExpired(now: nat) returns (expired: seq<W>)
      requires Valid()
      modifies this
      ensures Valid() && nextId == old(nextId)
      ensures expired == Wakers(ExpiringSorted(old(live), now))
      ensures live == Filter(old(live), NotDue(now))
    {
      heap, wakers, live, expired := Drain(heap, wakers, live, nextId, now);
    }

    method Len() returns (n: nat)
      requires Valid()
      ensures n == |live|
    {
      IdsSize(live, nextId);
      n := |wakers|;
    }
  }
}
