/**
 The ordered-map timer store.  Its cancel is approximate: it removes some waker at the
 cancelled timer's deadline, and its index never forgets a timer that has expired.
 */
module BTreeTimers {
  import opened Counting
  import opened Minimum
  import opened Sorting
  import opened TimerSpec

  datatype Tree<W> = Tree(byDeadline: map<nat, seq<W>>, index: map<nat, nat>, nextId: nat) {

    function Insert(deadline: nat, waker: W): Tree<W> {
      var here := if deadline in byDeadline then byDeadline[deadline] else [];
      Tree(byDeadline[deadline := here + [waker]], index[nextId := deadline], nextId + 1)
    }

    function Cancel(id: nat): (Tree<W>, bool) {
      if id !in index then (this, false)
      else
        var d := index[id];
        var rest :=
          if d !in byDeadline then byDeadline
          else if |byDeadline[d]| <= 1 then byDeadline - {d}
          else byDeadline[d := byDeadline[d][..|byDeadline[d]| - 1]];
        (Tree(rest, index - {id}, nextId), true)
    }

    /** The entries up to and including now, in deadline order. */
    function CollectExpired(now: nat): (Tree<W>, seq<W>) {
      (Tree(map d | d in byDeadline && d > now :: byDeadline[d], index, nextId), InOrder(byDeadline, now + 1))
    }
  }

  function At<W>(m: map<nat, seq<W>>, d: nat): seq<W> {
    if d in m then m[d] else []
  }

  /** The lists of all deadlines below n, least deadline first. */
  function InOrder<W>(m: map<nat, seq<W>>, n: nat): seq<W> {
    if n == 0 then [] else InOrder(m, n - 1) + At(m, n - 1)
  }

  class BTreeTimers<W> {
    var byDeadline: map<nat, seq<W>>
    var idToDeadline: map<nat, nat>
    var nextId: nat

    function View(): Tree<W>
      reads this
    {
      Tree(byDeadline, idToDeadline, nextId)
    }

    constructor ()
      ensures View() == Tree(map[], map[], 0)
    {
      byDeadline, idToDeadline, nextId := map[], map[], 0;
    }

    method Insert(deadline: nat, waker: W) returns (id: nat)
      modifies this
      ensures id == old(nextId) && View() == old(View()).Insert(deadline, waker)
    {
      id := nextId;
      nextId := nextId + 1;
      if deadline !in byDeadline {
        byDeadline := byDeadline[deadline := []];
      }
      byDeadline := byDeadline[deadline := byDeadline[deadline] + [waker]];
      idToDeadline := idToDeadline[id := deadline];
    }

    method Cancel(id: nat) returns (found: bool)
      modifies this
      ensures (View(), found) == old(View()).Cancel(id)
    {
      if id in idToDeadline {
        var deadline := idToDeadline[id];
        idToDeadline := idToDeadline - {id};
        if deadline in byDeadline {
          var wakers := byDeadline[deadline];
          if |wakers| <= 1 {
            byDeadline := byDeadline - {deadline};
          } else {
            byDeadline := byDeadline[deadline := wakers[..|wakers| - 1]];
          }
        }
        found := true;
      } else {
        found := false;
      }
    }

    method CollectExpired(now: nat) returns (expired: seq<W>)
      modifies this
      ensures (View(), expired) == old(View()).CollectExpired(now)
    {
      var remaining := map d | d in byDeadline && d > now :: byDeadline[d];
      expired := Iterate(byDeadline, now);
      byDeadline := remaining;
    }

    method Len() returns (n: nat)
      ensures n == |View().index|
    {
      n := |idToDeadline|;
    }
  }

  /** Walks the keys up to now in ascending order, as iterating the split-off map does. */
  method Iterate<W>(m: map<nat, seq<W>>, now: nat) returns (out: seq<W>)
    ensures out == InOrder(m, now + 1)
  {
    out := [];
    var left := set d | d in m && d <= now;
    var from: nat := 0;
    while left != {}
      invariant from <= now + 1
      invariant left == set d | d in m && from <= d <= now
      invariant out == InOrder(m, from)
      decreases left
    {
      var d := Least(left);
      assert forall x :: from <= x < d && x in m ==> x in left;
      SkipGap(m, from, d);
      out := out + m[d];
      left := left - {d};
      from := d + 1;
    }
    assert forall x :: from <= x <= now && x in m ==> x in left;
    SkipGap(m, from, now + 1);
  }

  lemma {:induction false} SkipGap<W>(m: map<nat, seq<W>>, i: nat, j: nat)
    requires i <= j && forall d :: i <= d < j ==> d !in m
    ensures InOrder(m, j) == InOrder(m, i)
    decreases j
  {
    if i < j {
      SkipGap(m, i, j - 1);
      assert InOrder(m, j - 1) + [] == InOrder(m, j - 1);
    }
  }

  // Comparison with the specification.

  /** The live timers and the ids that have expired. */
  datatype Store<W> = Store(live: seq<Entry<W>>, nextId: nat, expired: set<nat>)

  datatype Op<W> = Insert(deadline: nat, waker: W) | Cancel(id: nat) | Collect(now: nat)
  datatype Reply = Inserted(id: nat) | Cancelled(found: bool) | Fired(count: nat)

  function OnDeadline<W>(d: nat): Entry<W> -> bool { (e: Entry<W>) => e.deadline == d }
  function Before<W>(n: nat): Entry<W> -> bool { (e: Entry<W>) => e.deadline < n }

  ghost function SpecStep<W(!new)>(st: Store<W>, op: Op<W>): (Store<W>, Reply) {
    match op
    case Insert(d, w) =>
      (Store(st.live + [Entry(d, st.nextId, w)], st.nextId + 1, st.expired), Inserted(st.nextId))
    case Cancel(id) =>
      (st.(live := Filter(st.live, Not(id))), Cancelled(id in Ids(st.live)))
    case Collect(now) =>
      (st.(live := Filter(st.live, NotDue(now)), expired := st.expired + Ids(Expiring(st.live, now))),
       Fired(|Expiring(st.live, now)|))
  }

  function TreeStep<W>(t: Tree<W>, op: Op<W>): (Tree<W>, Reply) {
    match op
    case Insert(d, w) => (t.Insert(d, w), Inserted(t.nextId))
    case Cancel(id) => var (t', found) := t.Cancel(id); (t', Cancelled(found))
    case Collect(now) => var (t', fired) := t.CollectExpired(now); (t', Fired(|fired|))
  }

  /** As many wakers at each deadline as live timers; the index knows the live and the expired ids. */
  ghost predicate Tracks<W(!new)>(t: Tree<W>, st: Store<W>) {
    && Ordered(st.live, st.nextId) && t.nextId == st.nextId
    && t.index.Keys == Ids(st.live) + st.expired
    && Ids(st.live) !! st.expired
    && (forall id :: id in st.expired ==> id < st.nextId)
    && (forall e :: e in st.live ==> e.id in t.index && t.index[e.id] == e.deadline)
    && Balanced(t.byDeadline, st.live)
  }

  ghost predicate Balanced<W(!new)>(m: map<nat, seq<W>>, live: seq<Entry<W>>) {
    && (forall d: nat :: |At(m, d)| == Count(live, OnDeadline(d)))
    && (forall d :: d in m ==> m[d] != [])
  }

  lemma BalancedInsert<W(!new)>(t: Tree<W>, live: seq<Entry<W>>, e: Entry<W>)
    requires Balanced(t.byDeadline, live)
    ensures Balanced(t.Insert(e.deadline, e.waker).byDeadline, live + [e])
  {
    var m := t.Insert(e.deadline, e.waker).byDeadline;
    forall d: nat ensures |At(m, d)| == Count(live + [e], OnDeadline(d)) {
      CountSnoc(live, e, OnDeadline(d));
      assert |At(t.byDeadline, d)| == Count(live, OnDeadline(d));
    }
  }

  lemma WithoutInTail<T>(s: seq<T>, i: nat)
    requires 0 < i < |s|
    ensures s[..i] + s[i + 1..] == [s[0]] + (s[1..][..i - 1] + s[1..][i..])
  {
  }

  lemma {:induction false} FilterNotAt<W(!new)>(live: seq<Entry<W>>, nextId: nat, i: nat)
    requires Ordered(live, nextId) && i < |live|
    ensures Filter(live, Not(live[i].id)) == live[..i] + live[i + 1..]
  {
    if i == 0 {
      forall x | x in live[1..] ensures x.id != live[0].id {
        var j :| 0 <= j < |live| - 1 && live[1..][j] == x;
        assert !ById()(live[j + 1], live[0]);
      }
      FilterAll(live[1..], Not(live[0].id));
    } else {
      var tail := live[1..];
      FilterNotAt(tail, nextId, i - 1);
      assert tail[i - 1] == live[i];
      assert !ById()(live[i], live[0]);
      WithoutInTail(live, i);
    }
  }

  lemma BalancedCancel<W(!new)>(t: Tree<W>, live: seq<Entry<W>>, nextId: nat, i: nat)
    requires Ordered(live, nextId) && Balanced(t.byDeadline, live) && i < |live|
    requires live[i].id in t.index && t.index[live[i].id] == live[i].deadline
    ensures Balanced(t.Cancel(live[i].id).0.byDeadline, Filter(live, Not(live[i].id)))
  {
    var e := live[i];
    var m, m' := t.byDeadline, t.Cancel(e.id).0.byDeadline;
    FilterNotAt(live, nextId, i);
    forall d: nat ensures |At(m', d)| == Count(live[..i] + live[i + 1..], OnDeadline(d)) {
      CountWithout(live, i, OnDeadline(d));
      assert |At(m, d)| == Count(live, OnDeadline(d));
      if d == e.deadline {
        CountUpdate(live, i, e, OnDeadline(d));
        assert |At(m, d)| >= 1;
      }
    }
  }

  lemma {:induction false} CountKept<W(!new)>(live: seq<Entry<W>>, now: nat, d: nat)
    ensures Count(Filter(live, NotDue(now)), OnDeadline(d)) == if d > now then Count(live, OnDeadline(d)) else 0
  {
    if live != [] {
      CountKept(live[1..], now, d);
      CountConcat(if NotDue(now)(live[0]) then [live[0]] else [], Filter(live[1..], NotDue(now)), OnDeadline(d));
    }
  }

  lemma BalancedCollect<W(!new)>(t: Tree<W>, live: seq<Entry<W>>, now: nat)
    requires Balanced(t.byDeadline, live)
    ensures Balanced(t.CollectExpired(now).0.byDeadline, Filter(live, NotDue(now)))
  {
    var m := t.CollectExpired(now).0.byDeadline;
    forall d: nat ensures |At(m, d)| == Count(Filter(live, NotDue(now)), OnDeadline(d)) {
      CountKept(live, now, d);
      assert |At(t.byDeadline, d)| == Count(live, OnDeadline(d));
    }
  }

  lemma {:induction false} CountBefore<W>(live: seq<Entry<W>>, n: nat)
    ensures Count(live, Before(n + 1)) == Count(live, Before(n)) + Count(live, OnDeadline(n))
    ensures Count(live, Before(0)) == 0
  {
    if live != [] { CountBefore(live[1..], n); }
  }

  lemma {:induction false} InOrderSize<W(!new)>(m: map<nat, seq<W>>, live: seq<Entry<W>>, n: nat)
    requires Balanced(m, live)
    ensures |InOrder(m, n)| == Count(live, Before(n))
  {
    if n > 0 {
      InOrderSize(m, live, n - 1);
      CountBefore(live, n - 1);
      assert |At(m, n - 1)| == Count(live, OnDeadline(n - 1));
    } else {
      CountBefore(live, 0);
    }
  }

  lemma {:induction false} ExpiringSize<W(!new)>(live: seq<Entry<W>>, now: nat)
    ensures |Expiring(live, now)| == Count(live, Before(now + 1))
  {
    if live != [] { ExpiringSize(live[1..], now); }
  }

  lemma TracksInsert<W(!new)>(t: Tree<W>, st: Store<W>, d: nat, w: W)
    requires Tracks(t, st)
    ensures Tracks(t.Insert(d, w), SpecStep(st, Insert(d, w)).0)
  {
    var e := Entry(d, st.nextId, w);
    OrderedAppend(st.live, st.nextId, e);
    IdsSnoc(st.live, e);
    BalancedInsert(t, st.live, e);
    IdsBelow(st.live, st.nextId);
  }

  lemma IdsBelow<W>(live: seq<Entry<W>>, nextId: nat)
    requires Ordered(live, nextId)
    ensures forall id :: id in Ids(live) ==> id < nextId
    ensures forall e :: e in live ==> e.id in Ids(live)
  {
  }

  lemma TracksCancel<W(!new)>(t: Tree<W>, st: Store<W>, id: nat)
    requires Tracks(t, st) && id !in st.expired
    ensures Tracks(t.Cancel(id).0, SpecStep(st, Cancel(id)).0)
    ensures t.Cancel(id).1 <==> id in Ids(st.live)
  {
    if id in Ids(st.live) {
      TracksCancelLive(t, st, id);
    } else {
      FilterAbsent(st.live, id);
    }
  }

  lemma TracksCancelLive<W(!new)>(t: Tree<W>, st: Store<W>, id: nat)
    requires Tracks(t, st) && id in Ids(st.live)
    ensures Tracks(t.Cancel(id).0, SpecStep(st, Cancel(id)).0) && t.Cancel(id).1
  {
    OrderedFilter(st.live, st.nextId, Not(id));
    IdsWithout(st.live, id);
    var i :| 0 <= i < |st.live| && st.live[i].id == id;
    assert st.live[i] in st.live;
    BalancedCancel(t, st.live, st.nextId, i);
  }

  lemma {:induction false} FilterAll<T(!new)>(s: seq<T>, keep: T -> bool)
    requires forall x :: x in s ==> keep(x)
    ensures Filter(s, keep) == s
  {
    if s != [] {
      assert s[0] in s;
      FilterAll(s[1..], keep);
    }
  }

  lemma FilterAbsent<W(!new)>(live: seq<Entry<W>>, id: nat)
    requires id !in Ids(live)
    ensures Filter(live, Not(id)) == live
  {
    forall x | x in live ensures x.id != id {
      var i :| 0 <= i < |live| && live[i] == x;
      assert live[i].id in Ids(live);
    }
    FilterAll(live, Not(id));
  }

  lemma IdsSplit<W(!new)>(live: seq<Entry<W>>, nextId: nat, now: nat)
    requires Ordered(live, nextId)
    ensures Ids(live) == Ids(Expiring(live, now)) + Ids(Filter(live, NotDue(now)))
    ensures Ids(Expiring(live, now)) !! Ids(Filter(live, NotDue(now)))
  {
    var a, b := Expiring(live, now), Filter(live, NotDue(now));
    forall id | id in Ids(live) ensures id in Ids(a) + Ids(b) {
      var i :| 0 <= i < |live| && live[i].id == id;
      if live[i].deadline <= now { assert live[i] in a; } else { assert live[i] in b; }
    }
    forall id | id in Ids(a) ensures id in Ids(live) && id !in Ids(b) {
      var i :| 0 <= i < |a| && a[i].id == id;
      assert a[i] in live;
      if id in Ids(b) {
        var j :| 0 <= j < |b| && b[j].id == id;
        assert b[j] in live;
        SameIdSameEntry(live, nextId, a[i], b[j]);
        assert false;
      }
    }
    forall id | id in Ids(b) ensures id in Ids(live) {
      var i :| 0 <= i < |b| && b[i].id == id;
      assert b[i] in live;
    }
  }

  lemma TracksCollect<W(!new)>(t: Tree<W>, st: Store<W>, now: nat)
    requires Tracks(t, st)
    ensures Tracks(t.CollectExpired(now).0, SpecStep(st, Collect(now)).0)
    ensures |t.CollectExpired(now).1| == |Expiring(st.live, now)|
  {
    CollectedTracks(t, st, now, t.CollectExpired(now).0, SpecStep(st, Collect(now)).0);
    InOrderSize(t.byDeadline, st.live, now + 1);
    ExpiringSize(st.live, now);
  }

  lemma CollectedTracks<W(!new)>(t: Tree<W>, st: Store<W>, now: nat, t': Tree<W>, st': Store<W>)
    requires Tracks(t, st) && t' == t.CollectExpired(now).0 && st' == SpecStep(st, Collect(now)).0
    ensures Tracks(t', st')
  {
    OrderedFilter(st.live, st.nextId, NotDue(now));
    IdsSplit(st.live, st.nextId, now);
    IdsBelow(st.live, st.nextId);
    BalancedCollect(t, st.live, now);
  }

  ghost function SpecReplies<W(!new)>(st: Store<W>, ops: seq<Op<W>>): seq<Reply>
    decreases |ops|
  {
    if ops == [] then []
    else var (st', r) := SpecStep(st, ops[0]); [r] + SpecReplies(st', ops[1..])
  }

  function TreeReplies<W>(t: Tree<W>, ops: seq<Op<W>>): seq<Reply>
    decreases |ops|
  {
    if ops == [] then []
    else var (t', r) := TreeStep(t, ops[0]); [r] + TreeReplies(t', ops[1..])
  }

  /** No timer is cancelled after it has expired. */
  ghost predicate Disciplined<W(!new)>(st: Store<W>, ops: seq<Op<W>>)
    decreases |ops|
  {
    ops != [] ==>
      && (ops[0].Cancel? ==> ops[0].id !in st.expired)
      && Disciplined(SpecStep(st, ops[0]).0, ops[1..])
  }

  /**
   Over every sequence of operations, the ordered-map store gives the specified ids, cancel
   results and expiry counts exactly when no timer is cancelled after it has expired.
   */
  lemma {:induction false} AgreesIffDisciplined<W(!new)>(t: Tree<W>, st: Store<W>, ops: seq<Op<W>>)
    requires Tracks(t, st)
    ensures TreeReplies(t, ops) == SpecReplies(st, ops) <==> Disciplined(st, ops)
    decreases |ops|
  {
    if ops != [] {
      var op := ops[0];
      var (t', r) := TreeStep(t, op);
      var (st', q) := SpecStep(st, op);
      if op.Cancel? && op.id in st.expired {
        assert r != q;
        assert TreeReplies(t, ops)[0] == r && SpecReplies(st, ops)[0] == q;
      } else {
        match op {
          case Insert(d, w) => TracksInsert(t, st, d, w);
          case Cancel(id) => TracksCancel(t, st, id);
          case Collect(now) => TracksCollect(t, st, now);
        }
        assert r == q && Tracks(t', st');
        AgreesIffDisciplined(t', st', ops[1..]);
        assert TreeReplies(t, ops) == [r] + TreeReplies(t', ops[1..]);
        assert SpecReplies(st, ops) == [q] + SpecReplies(st', ops[1..]);
        assert TreeReplies(t, ops)[1..] == TreeReplies(t', ops[1..]);
        assert SpecReplies(st, ops)[1..] == SpecReplies(st', ops[1..]);
      }
    }
  }

  // Whole runs from empty stores.

  function EmptyStore<W>(): Store<W> { Store([], 0, {}) }
  function EmptyTree<W>(): Tree<W> { Tree(map[], map[], 0) }

  ghost function SpecAfter<W(!new)>(st: Store<W>, ops: seq<Op<W>>): Store<W>
    decreases |ops|
  {
    if ops == [] then st else SpecAfter(SpecStep(st, ops[0]).0, ops[1..])
  }

  function TreeAfter<W>(t: Tree<W>, ops: seq<Op<W>>): Tree<W>
    decreases |ops|
  {
    if ops == [] then t else TreeAfter(TreeStep(t, ops[0]).0, ops[1..])
  }

  lemma {:induction false} SpecAfterSnoc<W(!new)>(st: Store<W>, ops: seq<Op<W>>, op: Op<W>)
    ensures SpecAfter(st, ops + [op]) == SpecStep(SpecAfter(st, ops), op).0
    decreases |ops|
  {
    if ops == [] {
      assert [op][1..] == [] && ops + [op] == [op];
    } else {
      SpecAfterSnoc(SpecStep(st, ops[0]).0, ops[1..], op);
      assert (ops + [op])[1..] == ops[1..] + [op];
    }
  }

  lemma {:induction false} TreeAfterSnoc<W>(t: Tree<W>, ops: seq<Op<W>>, op: Op<W>)
    ensures TreeAfter(t, ops + [op]) == TreeStep(TreeAfter(t, ops), op).0
    decreases |ops|
  {
    if ops == [] {
      assert [op][1..] == [] && ops + [op] == [op];
    } else {
      TreeAfterSnoc(TreeStep(t, ops[0]).0, ops[1..], op);
      assert (ops + [op])[1..] == ops[1..] + [op];
    }
  }

  lemma {:induction false} TracksEmpty<W(!new)>()
    ensures Tracks(EmptyTree<W>(), EmptyStore<W>())
  {
    assert Ids<W>([]) == {};
  }

  /** On a disciplined run the tree keeps as many wakers at each deadline as there are live timers. */
  lemma {:induction false} TracksRun<W(!new)>(t: Tree<W>, st: Store<W>, ops: seq<Op<W>>)
    requires Tracks(t, st) && Disciplined(st, ops)
    ensures Tracks(TreeAfter(t, ops), SpecAfter(st, ops))
    decreases |ops|
  {
    if ops != [] {
      match ops[0] {
        case Insert(d, w) => TracksInsert(t, st, d, w);
        case Cancel(id) => TracksCancel(t, st, id);
        case Collect(now) => TracksCollect(t, st, now);
      }
      TracksRun(TreeStep(t, ops[0]).0, SpecStep(st, ops[0]).0, ops[1..]);
    }
  }

  /** The index has the live and the expired ids, but for those cancelled after they had expired. */
  ghost predicate Indexed<W>(t: Tree<W>, st: Store<W>, stale: set<nat>) {
    && Ordered(st.live, st.nextId) && t.nextId == st.nextId
    && stale <= st.expired && t.index.Keys == Ids(st.live) + st.expired - stale
    && Ids(st.live) !! st.expired && forall id :: id in st.expired ==> id < st.nextId
  }

  ghost function StaleAfter<W>(st: Store<W>, op: Op<W>, stale: set<nat>): set<nat> {
    if op.Cancel? && op.id in st.expired then stale + {op.id} else stale
  }

  lemma IndexedStep<W(!new)>(t: Tree<W>, st: Store<W>, stale: set<nat>, op: Op<W>)
    requires Indexed(t, st, stale)
    ensures Indexed(TreeStep(t, op).0, SpecStep(st, op).0, StaleAfter(st, op, stale))
  {
    match op {
      case Insert(d, w) => IndexedInsert(t, st, stale, d, w);
      case Cancel(id) => IndexedCancel(t, st, stale, id);
      case Collect(now) => IndexedCollect(t, st, stale, now);
    }
  }

  lemma IndexedInsert<W(!new)>(t: Tree<W>, st: Store<W>, stale: set<nat>, d: nat, w: W)
    requires Indexed(t, st, stale)
    ensures Indexed(t.Insert(d, w), SpecStep(st, Insert(d, w)).0, stale)
  {
    var e := Entry(d, st.nextId, w);
    OrderedAppend(st.live, st.nextId, e);
    IdsSnoc(st.live, e);
    IdsBelow(st.live, st.nextId);
  }

  lemma IndexedCancel<W(!new)>(t: Tree<W>, st: Store<W>, stale: set<nat>, id: nat)
    requires Indexed(t, st, stale)
    ensures Indexed(t.Cancel(id).0, SpecStep(st, Cancel(id)).0, StaleAfter(st, Cancel(id), stale))
  {
    OrderedFilter(st.live, st.nextId, Not(id));
    IdsWithout(st.live, id);
  }

  lemma IndexedCollect<W(!new)>(t: Tree<W>, st: Store<W>, stale: set<nat>, now: nat)
    requires Indexed(t, st, stale)
    ensures Indexed(t.CollectExpired(now).0, SpecStep(st, Collect(now)).0, stale)
  {
    OrderedFilter(st.live, st.nextId, NotDue(now));
    IdsSplit(st.live, st.nextId, now);
    IdsBelow(st.live, st.nextId);
  }

  lemma {:induction false} IndexedRun<W(!new)>(t: Tree<W>, st: Store<W>, stale: set<nat>, ops: seq<Op<W>>)
      returns (stale': set<nat>)
    requires Indexed(t, st, stale)
    ensures Indexed(TreeAfter(t, ops), SpecAfter(st, ops), stale')
    ensures stale' == {} <==> stale == {} && Disciplined(st, ops)
    decreases |ops|
  {
    stale' := stale;
    if ops != [] {
      IndexedStep(t, st, stale, ops[0]);
      stale' := IndexedRun(TreeStep(t, ops[0]).0, SpecStep(st, ops[0]).0, StaleAfter(st, ops[0], stale), ops[1..]);
    }
  }

  lemma IndexSize<W(!new)>(t: Tree<W>, st: Store<W>, stale: set<nat>)
    requires Indexed(t, st, stale)
    ensures |t.index| == |st.live| + |st.expired| - |stale|
  {
    IdsSize(st.live, st.nextId);
    assert |t.index| == |t.index.Keys|;
    assert |Ids(st.live) + st.expired| == |st.live| + |st.expired|;
  }

  /**
   After every run from the empty store, len() is at most the number of live and expired timers,
   and it is exactly that as long as no timer has been cancelled after it expired.
   */
  lemma LenExcessIff<W(!new)>(ops: seq<Op<W>>)
    ensures var t, st := TreeAfter(EmptyTree<W>(), ops), SpecAfter(EmptyStore<W>(), ops);
      && |t.index| <= |st.live| + |st.expired|
      && (|t.index| == |st.live| + |st.expired| <==> Disciplined(EmptyStore(), ops))
  {
    TracksEmpty<W>();
    var stale := IndexedRun(EmptyTree<W>(), EmptyStore<W>(), {}, ops);
    IndexSize(TreeAfter(EmptyTree<W>(), ops), SpecAfter(EmptyStore<W>(), ops), stale);
  }
}
