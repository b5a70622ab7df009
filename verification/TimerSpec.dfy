/**
 What a timer store does: the live timers in insertion order, and the next id.
 Two expiry orders are in use, insertion order and (deadline, id) order.
 */
module TimerSpec {
  import opened Sorting

  datatype Entry<W> = Entry(deadline: nat, id: nat, waker: W)

  function Due<W>(now: nat): Entry<W> -> bool { (e: Entry<W>) => e.deadline <= now }
  function NotDue<W>(now: nat): Entry<W> -> bool { (e: Entry<W>) => e.deadline > now }
  function Not<W>(id: nat): Entry<W> -> bool { (e: Entry<W>) => e.id != id }

  function ById<W>(): (Entry<W>, Entry<W>) -> bool { (a: Entry<W>, b: Entry<W>) => a.id <= b.id }
  function ByDeadline<W>(): (Entry<W>, Entry<W>) -> bool { (a: Entry<W>, b: Entry<W>) => a.deadline <= b.deadline }
  function ByBoth<W>(): (Entry<W>, Entry<W>) -> bool {
    (a: Entry<W>, b: Entry<W>) => a.deadline < b.deadline || (a.deadline == b.deadline && a.id <= b.id)
  }

  ghost function Ids<W>(live: seq<Entry<W>>): set<nat> {
    set i | 0 <= i < |live| :: live[i].id
  }

  ghost predicate Ordered<W>(live: seq<Entry<W>>, nextId: nat) {
    && StrictlySorted(live, ById())
    && forall i :: 0 <= i < |live| ==> live[i].id < nextId
  }

  lemma {:induction false} IdsSize<W>(live: seq<Entry<W>>, nextId: nat)
    requires Ordered(live, nextId)
    ensures |Ids(live)| == |live|
  {
    if live == [] {
      assert Ids(live) == {};
    } else {
      var front, last := live[..|live| - 1], live[|live| - 1];
      IdsSize(front, nextId);
      assert live == front + [last];
      IdsSnoc(front, last);
      IdFresh(live, nextId);
    }
  }

  lemma IdFresh<W>(live: seq<Entry<W>>, nextId: nat)
    requires Ordered(live, nextId) && live != []
    ensures live[|live| - 1].id !in Ids(live[..|live| - 1])
  {
    var front, last := live[..|live| - 1], live[|live| - 1];
    forall i | 0 <= i < |front| ensures front[i].id != last.id {
      assert !ById()(last, live[i]);
    }
  }

  lemma IdsSnoc<W>(live: seq<Entry<W>>, e: Entry<W>)
    ensures Ids(live + [e]) == Ids(live) + {e.id}
  {
    forall id | id in Ids(live) ensures id in Ids(live + [e]) {
      var i :| 0 <= i < |live| && live[i].id == id;
      assert (live + [e])[i].id == id;
    }
    assert (live + [e])[|live|].id == e.id;
  }

  lemma IdsWithout<W(!new)>(live: seq<Entry<W>>, id: nat)
    ensures Ids(Filter(live, Not(id))) == Ids(live) - {id}
  {
    var rest := Filter(live, Not(id));
    forall x | x in Ids(rest) ensures x in Ids(live) - {id} {
      var i :| 0 <= i < |rest| && rest[i].id == x;
      assert rest[i] in live;
    }
    forall x | x in Ids(live) - {id} ensures x in Ids(rest) {
      var i :| 0 <= i < |live| && live[i].id == x;
      assert live[i] in rest;
    }
  }

  /** What expires at `now`, in insertion order and in (deadline, id) order. */
  function Expiring<W(!new)>(live: seq<Entry<W>>, now: nat): seq<Entry<W>> {
    Filter(live, Due(now))
  }

  function ExpiringSorted<W(!new)>(live: seq<Entry<W>>, now: nat): seq<Entry<W>> {
    Sort(Expiring(live, now), ByDeadline())
  }

  function Wakers<W>(es: seq<Entry<W>>): seq<W> {
    seq(|es|, i requires 0 <= i < |es| => es[i].waker)
  }

  lemma WakersSnoc<W>(es: seq<Entry<W>>, e: Entry<W>)
    ensures Wakers(es + [e]) == Wakers(es) + [e.waker]
  {
  }

  lemma OrderedFilter<W(!new)>(live: seq<Entry<W>>, nextId: nat, keep: Entry<W> -> bool)
    requires Ordered(live, nextId)
    ensures Ordered(Filter(live, keep), nextId)
  {
    FilterStrictlySorted(live, keep, ById());
    var t := Filter(live, keep);
    forall i | 0 <= i < |t| ensures t[i].id < nextId {
      assert t[i] in live;
    }
  }

  lemma OrderedAppend<W>(live: seq<Entry<W>>, nextId: nat, e: Entry<W>)
    requires Ordered(live, nextId) && e.id == nextId
    ensures Ordered(live + [e], nextId + 1)
  {
  }

  /** Inserting an entry with a smaller id by deadline alone keeps (deadline, id) order. */
  lemma {:induction false} InsertKeepsBoth<W(!new)>(e: Entry<W>, s: seq<Entry<W>>)
    requires StrictlySorted(s, ByBoth())
    requires forall i :: 0 <= i < |s| ==> e.id < s[i].id
    ensures StrictlySorted(Insert(e, s, ByDeadline()), ByBoth())
  {
    if s == [] || ByDeadline()(e, s[0]) {
      forall y | y in s ensures ByBoth()(e, y) && !ByBoth()(y, e) {
        var i :| 0 <= i < |s| && s[i] == y;
        assert i == 0 || ByBoth()(s[0], s[i]);
      }
      ConsStrict(e, s, ByBoth());
    } else {
      TailStrict(s, ByBoth());
      InsertKeepsBoth(e, s[1..]);
      var t := Insert(e, s[1..], ByDeadline());
      forall y | y in t ensures ByBoth()(s[0], y) && !ByBoth()(y, s[0]) {
        InsertElement(e, s[1..], ByDeadline(), y);
      }
      ConsStrict(s[0], t, ByBoth());
    }
  }

  /** A stable sort by deadline of a list in id order is in (deadline, id) order. */
  lemma {:induction false} StableSortByBoth<W(!new)>(s: seq<Entry<W>>)
    requires StrictlySorted(s, ById())
    ensures StrictlySorted(Sort(s, ByDeadline()), ByBoth())
  {
    if s != [] {
      StableSortByBoth(s[1..]);
      var t := Sort(s[1..], ByDeadline());
      SameElements(s[1..], t);
      forall i | 0 <= i < |t| ensures s[0].id < t[i].id {
        assert t[i] in s[1..];
      }
      InsertKeepsBoth(s[0], t);
    }
  }

  lemma ExpiringSortedFacts<W(!new)>(live: seq<Entry<W>>, nextId: nat, now: nat)
    requires Ordered(live, nextId)
    ensures StrictlySorted(ExpiringSorted(live, now), ByBoth())
    ensures forall e :: e in ExpiringSorted(live, now) <==> e in live && e.deadline <= now
  {
    OrderedFilter(live, nextId, Due(now));
    StableSortByBoth(Expiring(live, now));
    SameElements(Expiring(live, now), ExpiringSorted(live, now));
  }

  /** What is left and what fires, entry by entry, and in which order. */
  lemma ExpiryIs<W(!new)>(live: seq<Entry<W>>, nextId: nat, now: nat, e: Entry<W>)
    requires Ordered(live, nextId)
    ensures e in Filter(live, NotDue(now)) <==> e in live && e.deadline > now
    ensures e in Expiring(live, now) <==> e in live && e.deadline <= now
    ensures e in ExpiringSorted(live, now) <==> e in live && e.deadline <= now
    ensures var s := Expiring(live, now); forall i, j :: 0 <= i < j < |s| ==> s[i].id < s[j].id
    ensures var s := ExpiringSorted(live, now);
      forall i, j :: 0 <= i < j < |s| ==>
        s[i].deadline < s[j].deadline || (s[i].deadline == s[j].deadline && s[i].id < s[j].id)
  {
    OrderedFilter(live, nextId, Due(now));
    ExpiringSortedFacts(live, nextId, now);
    var s, t := Expiring(live, now), ExpiringSorted(live, now);
    forall i, j | 0 <= i < j < |s| ensures s[i].id < s[j].id { assert !ById()(s[j], s[i]); }
    forall i, j | 0 <= i < j < |t|
      ensures t[i].deadline < t[j].deadline || (t[i].deadline == t[j].deadline && t[i].id < t[j].id)
    {
      assert ByBoth()(t[i], t[j]) && !ByBoth()(t[j], t[i]);
    }
  }

  lemma CancelIs<W(!new)>(live: seq<Entry<W>>, id: nat, e: Entry<W>)
    ensures e in Filter(live, Not(id)) <==> e in live && e.id != id
    ensures id in Ids(live) <==> exists x :: x in live && x.id == id
  {
    if x :| x in live && x.id == id { var i :| 0 <= i < |live| && live[i] == x; }
    if id in Ids(live) {
      var i :| 0 <= i < |live| && live[i].id == id;
      assert live[i] in live;
    }
  }

  /** The least (deadline, id) of what expires comes out first, followed by the rest sorted. */
  lemma PopLeast<W(!new)>(live: seq<Entry<W>>, nextId: nat, now: nat, e: Entry<W>)
    requires Ordered(live, nextId)
    requires e in live && e.deadline <= now
    requires forall x :: x in live ==> ByBoth()(e, x)
    ensures ExpiringSorted(live, now) == [e] + ExpiringSorted(Filter(live, Not(e.id)), now)
  {
    var rest := Filter(live, Not(e.id));
    OrderedFilter(live, nextId, Not(e.id));
    ExpiringSortedFacts(live, nextId, now);
    ExpiringSortedFacts(rest, nextId, now);
    var t := ExpiringSorted(rest, now);
    forall x | x in t ensures ByBoth()(e, x) && !ByBoth()(x, e) {
      assert x in live && x.id != e.id;
    }
    ConsStrict(e, t, ByBoth());
    forall x ensures x in ExpiringSorted(live, now) <==> x in [e] + t {
      if x in live && x.id == e.id { SameIdSameEntry(live, nextId, x, e); }
      assert x in [e] + t <==> x == e || x in t;
    }
    StrictlySortedUnique(ExpiringSorted(live, now), [e] + t, ByBoth());
  }

  lemma SameIdSameEntry<W>(live: seq<Entry<W>>, nextId: nat, a: Entry<W>, b: Entry<W>)
    requires Ordered(live, nextId) && a in live && b in live && a.id == b.id
    ensures a == b
  {
    var i :| 0 <= i < |live| && live[i] == a;
    var j :| 0 <= j < |live| && live[j] == b;
    assert i == j;
  }

  /** Two ordered lists with the same entries are the same list. */
  lemma OrderedUnique<W(!new)>(a: seq<Entry<W>>, b: seq<Entry<W>>, nextId: nat)
    requires Ordered(a, nextId) && Ordered(b, nextId)
    requires forall e :: e in a <==> e in b
    ensures a == b
  {
    StrictlySortedUnique(a, b, ById());
  }

  lemma KeepTwice<W(!new)>(live: seq<Entry<W>>, nextId: nat, t1: nat, t2: nat)
    requires Ordered(live, nextId) && t1 <= t2
    ensures Filter(Filter(live, NotDue(t1)), NotDue(t2)) == Filter(live, NotDue(t2))
  {
    var later := Filter(live, NotDue(t1));
    OrderedFilter(live, nextId, NotDue(t1));
    OrderedFilter(live, nextId, NotDue(t2));
    OrderedFilter(later, nextId, NotDue(t2));
    OrderedUnique(Filter(later, NotDue(t2)), Filter(live, NotDue(t2)), nextId);
  }

  lemma ConcatStrictlySorted<W>(a: seq<Entry<W>>, b: seq<Entry<W>>, t: nat)
    requires StrictlySorted(a, ByBoth()) && StrictlySorted(b, ByBoth())
    requires forall i :: 0 <= i < |a| ==> a[i].deadline <= t
    requires forall i :: 0 <= i < |b| ==> t < b[i].deadline
    ensures StrictlySorted(a + b, ByBoth())
  {
  }

  /** Expiring at t1 and then at t2 >= t1 gives the same list as expiring once at t2. */
  lemma ExpireTwice<W(!new)>(live: seq<Entry<W>>, nextId: nat, t1: nat, t2: nat)
    requires Ordered(live, nextId) && t1 <= t2
    ensures ExpiringSorted(live, t1) + ExpiringSorted(Filter(live, NotDue(t1)), t2) == ExpiringSorted(live, t2)
  {
    var later := Filter(live, NotDue(t1));
    OrderedFilter(live, nextId, NotDue(t1));
    ExpiringSortedFacts(live, nextId, t1);
    ExpiringSortedFacts(later, nextId, t2);
    ExpiringSortedFacts(live, nextId, t2);
    var a, b := ExpiringSorted(live, t1), ExpiringSorted(later, t2);
    forall i | 0 <= i < |a| ensures a[i].deadline <= t1 { assert a[i] in a; }
    forall i | 0 <= i < |b| ensures t1 < b[i].deadline { assert b[i] in b; }
    ConcatStrictlySorted(a, b, t1);
    StrictlySortedUnique(a + b, ExpiringSorted(live, t2), ByBoth());
  }

  /** The outputs of expiring at each of a list of times, one after the other. */
  function ExpireAll<W(!new)>(live: seq<Entry<W>>, times: seq<nat>): (seq<Entry<W>>, seq<Entry<W>>)
    decreases |times|
  {
    if times == [] then ([], live)
    else
      var (out, rest) := ExpireAll(Filter(live, NotDue(times[0])), times[1..]);
      (ExpiringSorted(live, times[0]) + out, rest)
  }

  lemma ExpireOnce<W(!new)>(live: seq<Entry<W>>, t: nat)
    ensures ExpireAll(live, [t]) == (ExpiringSorted(live, t), Filter(live, NotDue(t)))
  {
    var rest := Filter(live, NotDue(t));
    assert [t][1..] == [];
    assert ExpireAll(rest, []) == ([], rest);
    assert ExpiringSorted(live, t) + [] == ExpiringSorted(live, t);
  }

  /** Expiring at non-decreasing times is expiring once at the last time. */
  lemma {:induction false} ExpireStepwise<W(!new)>(live: seq<Entry<W>>, nextId: nat, times: seq<nat>, last: nat)
    requires Ordered(live, nextId) && times != [] && last == times[|times| - 1]
    requires forall i, j :: 0 <= i < j < |times| ==> times[i] <= times[j]
    ensures ExpireAll(live, times) == (ExpiringSorted(live, last), Filter(live, NotDue(last)))
    decreases |times|
  {
    if |times| == 1 {
      assert times == [last];
      ExpireOnce(live, last);
    } else {
      var t := times[0];
      var rest := Filter(live, NotDue(t));
      OrderedFilter(live, nextId, NotDue(t));
      ExpireStepwise(rest, nextId, times[1..], last);
      ExpireTwice(live, nextId, t, last);
      KeepTwice(live, nextId, t, last);
    }
  }
}
