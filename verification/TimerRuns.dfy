/** The three timer stores side by side. */
module TimerRuns {
  import opened Sorting
  import opened TimerSpec
  import opened TimerStores
  import opened BTreeTimers

  // The heap and the vector store over the same operations.

  /** What a store answers to one operation, and its len() afterwards. */
  datatype Answer<W> = Answer(reply: Reply, fired: seq<W>, len: nat)

  ghost function AnswerTo<W(!new)>(st: Store<W>, op: Op<W>, sorted: bool): Answer<W> {
    Answer(SpecStep(st, op).1, if op.Collect? then Fires(st.live, op.now, sorted) else [], |SpecStep(st, op).0.live|)
  }

  ghost function Fires<W(!new)>(live: seq<Entry<W>>, now: nat, sorted: bool): seq<W> {
    Wakers(if sorted then ExpiringSorted(live, now) else Expiring(live, now))
  }

  /** Each answer is the one specified for the timers that the run has left up to there. */
  ghost predicate AnsweredAs<W(!new)>(ops: seq<Op<W>>, answers: seq<Answer<W>>, sorted: bool) {
    && |answers| <= |ops|
    && forall i :: 0 <= i < |answers| ==> answers[i] == AnswerTo(SpecAfter(EmptyStore(), ops[..i]), ops[i], sorted)
  }

  lemma AnsweredNext<W(!new)>(ops: seq<Op<W>>, answers: seq<Answer<W>>, answer: Answer<W>, sorted: bool)
    requires |answers| < |ops| && AnsweredAs(ops, answers, sorted)
    requires answer == AnswerTo(SpecAfter(EmptyStore(), ops[..|answers|]), ops[|answers|], sorted)
    ensures AnsweredAs(ops, answers + [answer], sorted)
  {
    var more := answers + [answer];
    forall i | 0 <= i < |more|
      ensures more[i] == AnswerTo(SpecAfter(EmptyStore(), ops[..i]), ops[i], sorted)
    {
      if i < |answers| { assert more[i] == answers[i]; } else { assert more[i] == answer; }
    }
  }

  lemma SpecAfterNext<W(!new)>(ops: seq<Op<W>>, i: nat)
    requires i < |ops|
    ensures SpecAfter(EmptyStore(), ops[..i + 1]) == SpecStep(SpecAfter(EmptyStore(), ops[..i]), ops[i]).0
  {
    assert ops[..i + 1] == ops[..i] + [ops[i]];
    SpecAfterSnoc(EmptyStore(), ops[..i], ops[i]);
  }

  method AskVec<W(!new)>(store: VecTimers<W>, op: Op<W>, ghost st: Store<W>) returns (answer: Answer<W>)
    requires store.Valid() && store.Live() == st.live && store.nextId == st.nextId
    modifies store
    ensures store.Valid() && store.Live() == SpecStep(st, op).0.live && store.nextId == SpecStep(st, op).0.nextId
    ensures answer == AnswerTo(st, op, false)
  {
    var reply: Reply;
    var fired: seq<W> := [];
    match op {
      case Insert(d, w) =>
        var id := store.Insert(d, w);
        reply := Inserted(id);
      case Cancel(id) =>
        var found := store.Cancel(id);
        reply := Cancelled(found);
      case Collect(now) =>
        fired := store.CollectExpired(now);
        reply := Fired(|fired|);
    }
    var n := store.Len();
    answer := Answer(reply, fired, n);
  }

  /** Every operation of a run is answered as specified for the timers that the run has left so far. */
  method ReplayVec<W(!new)>(ops: seq<Op<W>>) returns (answers: seq<Answer<W>>)
    ensures |answers| == |ops| && AnsweredAs(ops, answers, false)
  {
    var store := new VecTimers<W>();
    answers := [];
    ghost var st := EmptyStore<W>();
    for i := 0 to |ops|
      invariant store.Valid() && fresh(store) && |answers| == i
      invariant store.Live() == st.live && store.nextId == st.nextId && st == SpecAfter(EmptyStore(), ops[..i])
      invariant AnsweredAs(ops, answers, false)
    {
      SpecAfterNext(ops, i);
      var answer := AskVec(store, ops[i], st);
      AnsweredNext(ops, answers, answer, false);
      st := SpecStep(st, ops[i]).0;
      answers := answers + [answer];
    }
  }

  method AskHeap<W(!new)>(store: HeapTimers<W>, op: Op<W>, ghost st: Store<W>) returns (answer: Answer<W>)
    requires store.Valid() && store.live == st.live && store.nextId == st.nextId
    modifies store
    ensures store.Valid() && store.live == SpecStep(st, op).0.live && store.nextId == SpecStep(st, op).0.nextId
    ensures answer == AnswerTo(st, op, true)
  {
    var reply: Reply;
    var fired: seq<W> := [];
    match op {
      case Insert(d, w) =>
        var id := store.Insert(d, w);
        reply := Inserted(id);
      case Cancel(id) =>
        var found := store.Cancel(id);
        reply := Cancelled(found);
      case Collect(now) =>
        SameElements(Expiring(store.live, now), ExpiringSorted(store.live, now));
        fired := store.CollectExpired(now);
        reply := Fired(|fired|);
    }
    var n := store.Len();
    answer := Answer(reply, fired, n);
  }

  /** Every operation of a run is answered as specified for the timers that the run has left so far. */
  method ReplayHeap<W(!new)>(ops: seq<Op<W>>) returns (answers: seq<Answer<W>>)
    ensures |answers| == |ops| && AnsweredAs(ops, answers, true)
  {
    var store := new HeapTimers<W>();
    answers := [];
    ghost var st := EmptyStore<W>();
    for i := 0 to |ops|
      invariant store.Valid() && fresh(store) && |answers| == i
      invariant store.live == st.live && store.nextId == st.nextId && st == SpecAfter(EmptyStore(), ops[..i])
      invariant AnsweredAs(ops, answers, true)
    {
      SpecAfterNext(ops, i);
      var answer := AskHeap(store, ops[i], st);
      AnsweredNext(ops, answers, answer, true);
      st := SpecStep(st, ops[i]).0;
      answers := answers + [answer];
    }
  }

  // The ordered-map store over the same operations.

  function TreeAnswerTo<W>(t: Tree<W>, op: Op<W>): Answer<W> {
    var (t', reply) := TreeStep(t, op);
    Answer(reply, if op.Collect? then t.CollectExpired(op.now).1 else [], |t'.index|)
  }

  method AskTree<W>(store: BTreeTimers<W>, op: Op<W>) returns (answer: Answer<W>)
    modifies store
    ensures store.View() == TreeStep(old(store.View()), op).0 && answer == TreeAnswerTo(old(store.View()), op)
  {
    var reply: Reply;
    var fired: seq<W> := [];
    match op {
      case Insert(d, w) =>
        var id := store.Insert(d, w);
        reply := Inserted(id);
      case Cancel(id) =>
        var found := store.Cancel(id);
        reply := Cancelled(found);
      case Collect(now) =>
        fired := store.CollectExpired(now);
        reply := Fired(|fired|);
    }
    var n := store.Len();
    answer := Answer(reply, fired, n);
  }

  ghost predicate TreeAnswered<W>(ops: seq<Op<W>>, answers: seq<Answer<W>>) {
    && |answers| <= |ops|
    && forall i :: 0 <= i < |answers| ==> answers[i] == TreeAnswerTo(TreeAfter(EmptyTree(), ops[..i]), ops[i])
  }

  lemma TreeAnsweredNext<W>(ops: seq<Op<W>>, answers: seq<Answer<W>>, answer: Answer<W>)
    requires |answers| < |ops| && TreeAnswered(ops, answers)
    requires answer == TreeAnswerTo(TreeAfter(EmptyTree(), ops[..|answers|]), ops[|answers|])
    ensures TreeAnswered(ops, answers + [answer])
  {
    var more := answers + [answer];
    forall i | 0 <= i < |more|
      ensures more[i] == TreeAnswerTo(TreeAfter(EmptyTree(), ops[..i]), ops[i])
    {
      if i < |answers| { assert more[i] == answers[i]; } else { assert more[i] == answer; }
    }
  }

  method ReplayTree<W>(ops: seq<Op<W>>) returns (answers: seq<Answer<W>>)
    ensures |answers| == |ops| && TreeAnswered(ops, answers)
  {
    var store := new BTreeTimers<W>();
    answers := [];
    for i := 0 to |ops|
      invariant fresh(store) && store.View() == TreeAfter(EmptyTree(), ops[..i]) && |answers| == i
      invariant TreeAnswered(ops, answers)
    {
      TreeAfterNext(ops, i);
      var answer := AskTree(store, ops[i]);
      TreeAnsweredNext(ops, answers, answer);
      answers := answers + [answer];
    }
  }

  lemma TreeAfterNext<W>(ops: seq<Op<W>>, i: nat)
    requires i < |ops|
    ensures TreeAfter(EmptyTree(), ops[..i + 1]) == TreeStep(TreeAfter(EmptyTree(), ops[..i]), ops[i]).0
  {
    assert ops[..i + 1] == ops[..i] + [ops[i]];
    TreeAfterSnoc(EmptyTree(), ops[..i], ops[i]);
  }

  lemma {:induction false} TreeReplyAt<W>(t: Tree<W>, ops: seq<Op<W>>, i: nat)
    requires i < |ops|
    ensures |TreeReplies(t, ops)| == |ops|
    ensures TreeReplies(t, ops)[i] == TreeStep(TreeAfter(t, ops[..i]), ops[i]).1
    decreases |ops|
  {
    var t', rest := TreeStep(t, ops[0]).0, ops[1..];
    if rest == [] {
      assert TreeReplies(t', rest) == [];
    } else {
      TreeReplyAt(t', rest, if i == 0 then 0 else i - 1);
    }
    if i > 0 { assert ops[..i][1..] == rest[..i - 1]; }
  }

  lemma {:induction false} SpecReplyAt<W(!new)>(st: Store<W>, ops: seq<Op<W>>, i: nat)
    requires i < |ops|
    ensures |SpecReplies(st, ops)| == |ops|
    ensures SpecReplies(st, ops)[i] == SpecStep(SpecAfter(st, ops[..i]), ops[i]).1
    decreases |ops|
  {
    var st', rest := SpecStep(st, ops[0]).0, ops[1..];
    if rest == [] {
      assert SpecReplies(st', rest) == [];
    } else {
      SpecReplyAt(st', rest, if i == 0 then 0 else i - 1);
    }
    if i > 0 { assert ops[..i][1..] == rest[..i - 1]; }
  }

  // Which wakers the ordered-map store fires.

  /** At each deadline the tree holds exactly the live wakers, in insertion order. */
  ghost predicate Faithful<W(!new)>(t: Tree<W>, live: seq<Entry<W>>) {
    forall d: nat :: At(t.byDeadline, d) == Wakers(Filter(live, OnDeadline(d)))
  }

  function Grouped<W(!new)>(live: seq<Entry<W>>, n: nat): seq<Entry<W>> {
    if n == 0 then [] else Grouped(live, n - 1) + Filter(live, OnDeadline(n - 1))
  }

  lemma WakersConcat<W>(a: seq<Entry<W>>, b: seq<Entry<W>>)
    ensures Wakers(a + b) == Wakers(a) + Wakers(b)
  {
  }

  lemma {:induction false} InOrderFaithful<W(!new)>(t: Tree<W>, live: seq<Entry<W>>, n: nat)
    requires Faithful(t, live)
    ensures InOrder(t.byDeadline, n) == Wakers(Grouped(live, n))
  {
    if n > 0 {
      InOrderFaithful(t, live, n - 1);
      WakersConcat(Grouped(live, n - 1), Filter(live, OnDeadline(n - 1)));
      assert At(t.byDeadline, n - 1) == Wakers(Filter(live, OnDeadline(n - 1)));
    }
  }

  lemma InConcat<T>(a: seq<T>, b: seq<T>, x: T)
    ensures x in a + b <==> x in a || x in b
  {
  }

  lemma {:induction false} GroupedElement<W(!new)>(live: seq<Entry<W>>, n: nat, e: Entry<W>)
    ensures e in Grouped(live, n) <==> e in live && e.deadline < n
  {
    if n > 0 {
      GroupedElement(live, n - 1, e);
      InConcat(Grouped(live, n - 1), Filter(live, OnDeadline(n - 1)), e);
    }
  }

  lemma GroupedElements<W(!new)>(live: seq<Entry<W>>, n: nat)
    ensures forall e :: e in Grouped(live, n) <==> e in live && e.deadline < n
  {
    forall e ensures e in Grouped(live, n) <==> e in live && e.deadline < n {
      GroupedElement(live, n, e);
    }
  }

  lemma {:induction false} GroupedSorted<W(!new)>(live: seq<Entry<W>>, nextId: nat, n: nat)
    requires Ordered(live, nextId)
    ensures StrictlySorted(Grouped(live, n), ByBoth())
  {
    if n > 0 {
      GroupedSorted(live, nextId, n - 1);
      GroupedElements(live, n - 1);
      var a, b := Grouped(live, n - 1), Filter(live, OnDeadline(n - 1));
      FilterStrictlySorted(live, OnDeadline(n - 1), ById());
      forall i | 0 <= i < |a| ensures a[i].deadline < n - 1 { assert a[i] in a; }
      forall i | 0 <= i < |b| ensures b[i].deadline == n - 1 { assert b[i] in b; }
      AppendGroup(a, b, n - 1);
    }
  }

  lemma AppendGroup<W>(a: seq<Entry<W>>, b: seq<Entry<W>>, d: nat)
    requires StrictlySorted(a, ByBoth()) && StrictlySorted(b, ById())
    requires forall i :: 0 <= i < |a| ==> a[i].deadline < d
    requires forall i :: 0 <= i < |b| ==> b[i].deadline == d
    ensures StrictlySorted(a + b, ByBoth())
  {
  }

  /** A faithful tree fires exactly what the heap fires, in the same order. */
  lemma FaithfulFires<W(!new)>(t: Tree<W>, live: seq<Entry<W>>, nextId: nat, now: nat)
    requires Ordered(live, nextId) && Faithful(t, live)
    ensures t.CollectExpired(now).1 == Wakers(ExpiringSorted(live, now))
  {
    InOrderFaithful(t, live, now + 1);
    GroupedSorted(live, nextId, now + 1);
    GroupedElements(live, now + 1);
    ExpiringSortedFacts(live, nextId, now);
    StrictlySortedUnique(Grouped(live, now + 1), ExpiringSorted(live, now), ByBoth());
  }

  /**
   Cancelling a live timer keeps the tree faithful exactly when every later timer at its deadline
   has the same waker, as when there is none; otherwise the wrong waker is dropped.
   */
  lemma CancelFaithfulIff<W(!new)>(t: Tree<W>, live: seq<Entry<W>>, nextId: nat, i: nat)
    requires Ordered(live, nextId) && Faithful(t, live) && i < |live|
    requires live[i].id in t.index && t.index[live[i].id] == live[i].deadline
    ensures Faithful(t.Cancel(live[i].id).0, Filter(live, Not(live[i].id)))
      <==> forall j :: i < j < |live| && live[j].deadline == live[i].deadline ==> live[j].waker == live[i].waker
  {
    var e, rest := live[i], live[..i] + live[i + 1..];
    var t' := t.Cancel(e.id).0;
    FilterNotAt(live, nextId, i);
    OtherDeadlines(t, live, i);
    ThisDeadline(t, live, i);
    LaterAtDeadline(live, i);
    if At(t'.byDeadline, e.deadline) == Wakers(Filter(rest, OnDeadline(e.deadline))) {
      forall d: nat ensures At(t'.byDeadline, d) == Wakers(Filter(rest, OnDeadline(d))) {
      }
    }
  }

  ghost predicate AllWake<W(!new)>(es: seq<Entry<W>>, w: W) { forall x :: x in es ==> x.waker == w }

  /** At the cancelled timer's deadline the last waker goes, which is right only if it is that timer's. */
  lemma ThisDeadline<W(!new)>(t: Tree<W>, live: seq<Entry<W>>, i: nat)
    requires Faithful(t, live) && i < |live|
    requires live[i].id in t.index && t.index[live[i].id] == live[i].deadline
    ensures var d := live[i].deadline;
      At(t.Cancel(live[i].id).0.byDeadline, d) == Wakers(Filter(live[..i] + live[i + 1..], OnDeadline(d)))
      <==> AllWake(Filter(live[i + 1..], OnDeadline(d)), live[i].waker)
  {
    var e, b := live[i], live[i + 1..];
    var la, lb := Filter(live[..i], OnDeadline(e.deadline)), Filter(b, OnDeadline(e.deadline));
    SplitAt(live, i, e.deadline);
    assert At(t.byDeadline, e.deadline) == Wakers(la + [e] + lb);
    assert At(t.Cancel(e.id).0.byDeadline, e.deadline) == Wakers(la + [e] + lb)[..|la| + |lb|];
    TrimmedIff(la, e, lb);
  }

  lemma TrimmedIff<W(!new)>(la: seq<Entry<W>>, e: Entry<W>, lb: seq<Entry<W>>)
    ensures Wakers(la + [e] + lb)[..|la| + |lb|] == Wakers(la + lb) <==> AllWake(lb, e.waker)
  {
    var trimmed, kept := Wakers(la + [e] + lb)[..|la| + |lb|], Wakers(la + lb);
    if trimmed == kept {
      ShiftedAlike(la, e, lb, |lb|);
      assert lb[..|lb|] == lb;
    }
    if AllWake(lb, e.waker) {
      forall k | 0 <= k < |trimmed| ensures trimmed[k] == kept[k] {
        if k >= |la| { assert lb[k - |la|] in lb && (k > |la| ==> lb[k - |la| - 1] in lb); }
      }
    }
  }

  lemma {:induction false} ShiftedAlike<W(!new)>(la: seq<Entry<W>>, e: Entry<W>, lb: seq<Entry<W>>, n: nat)
    requires n <= |lb| && Wakers(la + [e] + lb)[..|la| + |lb|] == Wakers(la + lb)
    ensures AllWake(lb[..n], e.waker)
    decreases n
  {
    if n > 0 {
      ShiftedAlike(la, e, lb, n - 1);
      assert lb[..n] == lb[..n - 1] + [lb[n - 1]];
      assert n > 1 ==> lb[n - 2] in lb[..n - 1];
      assert Wakers(la + lb)[|la| + n - 1] == lb[n - 1].waker;
      assert Wakers(la + [e] + lb)[|la| + n - 1] == (if n == 1 then e else lb[n - 2]).waker;
    }
  }

  lemma LaterAtDeadline<W(!new)>(live: seq<Entry<W>>, i: nat)
    requires i < |live|
    ensures AllWake(Filter(live[i + 1..], OnDeadline(live[i].deadline)), live[i].waker)
      <==> forall j :: i < j < |live| && live[j].deadline == live[i].deadline ==> live[j].waker == live[i].waker
  {
    var b, d := live[i + 1..], live[i].deadline;
    var lb := Filter(b, OnDeadline(d));
    if AllWake(lb, live[i].waker) {
      forall j | i < j < |live| && live[j].deadline == d ensures live[j].waker == live[i].waker {
        assert b[j - i - 1] == live[j];
        assert live[j] in lb;
      }
    } else {
      var x :| x in lb && x.waker != live[i].waker;
      assert x in b;
      var j :| 0 <= j < |b| && b[j] == x;
      assert live[i + 1 + j].waker != live[i].waker;
    }
  }

  /** Cancel leaves the lists of all other deadlines alone, and so does the specification. */
  lemma OtherDeadlines<W(!new)>(t: Tree<W>, live: seq<Entry<W>>, i: nat)
    requires Faithful(t, live) && i < |live|
    requires live[i].id in t.index && t.index[live[i].id] == live[i].deadline
    ensures forall d: nat :: d != live[i].deadline ==>
      At(t.Cancel(live[i].id).0.byDeadline, d) == Wakers(Filter(live[..i] + live[i + 1..], OnDeadline(d)))
  {
    forall d: nat | d != live[i].deadline
      ensures At(t.Cancel(live[i].id).0.byDeadline, d) == Wakers(Filter(live[..i] + live[i + 1..], OnDeadline(d)))
    {
      assert At(t.byDeadline, d) == Wakers(Filter(live, OnDeadline(d)));
      SplitOff(live, i, d);
    }
  }

  lemma SplitOff<W(!new)>(live: seq<Entry<W>>, i: nat, d: nat)
    requires i < |live| && live[i].deadline != d
    ensures Filter(live, OnDeadline(d)) == Filter(live[..i] + live[i + 1..], OnDeadline(d))
  {
    SplitAt(live, i, d);
    assert Filter(live[..i], OnDeadline(d)) + [] == Filter(live[..i], OnDeadline(d));
  }

  lemma SplitAt<W(!new)>(live: seq<Entry<W>>, i: nat, d: nat)
    requires i < |live|
    ensures var a, e, b := live[..i], live[i], live[i + 1..];
      var p := OnDeadline(d);
      && Filter(live, p) == Filter(a, p) + (if e.deadline == d then [e] else []) + Filter(b, p)
      && Filter(a + b, p) == Filter(a, p) + Filter(b, p)
  {
    var a, e, b := live[..i], live[i], live[i + 1..];
    var p := OnDeadline(d);
    assert live == a + [e] + b;
    FilterConcat(a + [e], b, p);
    FilterConcat(a, [e], p);
    FilterConcat(a, b, p);
    assert Filter([e], p) == if e.deadline == d then [e] else [];
  }

  // And over whole runs.

  /** The tree is faithful, and its index knows the live timers. */
  ghost predicate Trusty<W(!new)>(t: Tree<W>, st: Store<W>) {
    && Ordered(st.live, st.nextId) && t.nextId == st.nextId && Faithful(t, st.live)
    && (forall e :: e in st.live ==> e.id in t.index && t.index[e.id] == e.deadline)
  }

  /**
   An operation that drops no waker but the right one: a cancellation of an id that the index does
   not have, of a live timer none of whose later companions at the deadline has another waker, or of
   an expired timer with no live one at its deadline; or anything else.
   */
  ghost predicate Harmless<W(!new)>(t: Tree<W>, live: seq<Entry<W>>, op: Op<W>) {
    op.Cancel? && op.id in t.index ==>
      if op.id in Ids(live) then forall i :: 0 <= i < |live| && live[i].id == op.id ==> LaterAlike(live, i)
      else forall e :: e in live ==> e.deadline != t.index[op.id]
  }

  ghost predicate LaterAlike<W(!new)>(live: seq<Entry<W>>, i: nat)
    requires i < |live|
  {
    forall j :: i < j < |live| && live[j].deadline == live[i].deadline ==> live[j].waker == live[i].waker
  }

  lemma AppendOn<W(!new)>(live: seq<Entry<W>>, e: Entry<W>, c: nat)
    ensures Wakers(Filter(live + [e], OnDeadline(c)))
      == Wakers(Filter(live, OnDeadline(c))) + if c == e.deadline then [e.waker] else []
  {
    FilterConcat(live, [e], OnDeadline(c));
    var here := if c == e.deadline then [e] else [];
    assert Filter([e], OnDeadline(c)) == here;
    WakersConcat(Filter(live, OnDeadline(c)), here);
  }

  lemma FaithfulInsert<W(!new)>(t: Tree<W>, live: seq<Entry<W>>, e: Entry<W>)
    requires Faithful(t, live)
    ensures Faithful(t.Insert(e.deadline, e.waker), live + [e])
  {
    var m := t.Insert(e.deadline, e.waker).byDeadline;
    forall c: nat ensures At(m, c) == Wakers(Filter(live + [e], OnDeadline(c))) {
      AppendOn(live, e, c);
      assert At(m, c) == At(t.byDeadline, c) + if c == e.deadline then [e.waker] else [];
    }
  }

  lemma TrustyInsert<W(!new)>(t: Tree<W>, st: Store<W>, d: nat, w: W)
    requires Trusty(t, st)
    ensures Trusty(t.Insert(d, w), SpecStep(st, Insert(d, w)).0)
  {
    var e := Entry(d, st.nextId, w);
    FaithfulInsert(t, st.live, e);
    OrderedAppend(st.live, st.nextId, e);
    IdsBelow(st.live, st.nextId);
  }

  lemma {:induction false} KeptOn<W(!new)>(live: seq<Entry<W>>, now: nat, d: nat)
    ensures Filter(Filter(live, NotDue(now)), OnDeadline(d)) == if d > now then Filter(live, OnDeadline(d)) else []
  {
    if live != [] {
      KeptOn(live[1..], now, d);
      FilterConcat(if NotDue(now)(live[0]) then [live[0]] else [], Filter(live[1..], NotDue(now)), OnDeadline(d));
    }
  }

  lemma TrustyCollect<W(!new)>(t: Tree<W>, st: Store<W>, now: nat)
    requires Trusty(t, st)
    ensures Trusty(t.CollectExpired(now).0, SpecStep(st, Collect(now)).0)
  {
    OrderedFilter(st.live, st.nextId, NotDue(now));
    forall d: nat
      ensures At(t.CollectExpired(now).0.byDeadline, d) == Wakers(Filter(Filter(st.live, NotDue(now)), OnDeadline(d)))
    {
      KeptOn(st.live, now, d);
      assert At(t.byDeadline, d) == Wakers(Filter(st.live, OnDeadline(d)));
    }
  }

  lemma NoneOn<W(!new)>(live: seq<Entry<W>>, d: nat)
    ensures Filter(live, OnDeadline(d)) == [] <==> forall e :: e in live ==> e.deadline != d
  {
    var on := Filter(live, OnDeadline(d));
    if on != [] { assert on[0] in on; }
  }

  /** Cancelling an expired timer drops a waker of a live one, if there is one at its deadline. */
  lemma CancelExpiredIff<W(!new)>(t: Tree<W>, st: Store<W>, id: nat)
    requires Trusty(t, st) && id in t.index && id !in Ids(st.live)
    ensures Faithful(t.Cancel(id).0, st.live) <==> forall e :: e in st.live ==> e.deadline != t.index[id]
  {
    var d, t' := t.index[id], t.Cancel(id).0;
    NoneOn(st.live, d);
    assert At(t.byDeadline, d) == Wakers(Filter(st.live, OnDeadline(d)));
    if Filter(st.live, OnDeadline(d)) == [] {
      forall c: nat ensures At(t'.byDeadline, c) == Wakers(Filter(st.live, OnDeadline(c))) {
        assert At(t.byDeadline, c) == Wakers(Filter(st.live, OnDeadline(c)));
      }
    } else {
      assert |At(t'.byDeadline, d)| < |Wakers(Filter(st.live, OnDeadline(d)))|;
    }
  }

  lemma TrustyCancelLive<W(!new)>(t: Tree<W>, st: Store<W>, i: nat)
    requires Trusty(t, st) && i < |st.live|
    ensures var t', st' := t.Cancel(st.live[i].id).0, SpecStep(st, Cancel(st.live[i].id)).0;
      (Faithful(t', st'.live) <==> LaterAlike(st.live, i)) && (LaterAlike(st.live, i) ==> Trusty(t', st'))
  {
    var id := st.live[i].id;
    assert st.live[i] in st.live;
    CancelFaithfulIff(t, st.live, st.nextId, i);
    OrderedFilter(st.live, st.nextId, Not(id));
  }

  lemma TrustyCancel<W(!new)>(t: Tree<W>, st: Store<W>, id: nat)
    requires Trusty(t, st)
    ensures var t', st' := t.Cancel(id).0, SpecStep(st, Cancel(id)).0;
      && (Faithful(t', st'.live) <==> Harmless(t, st.live, Cancel(id)))
      && (Harmless(t, st.live, Cancel(id)) ==> Trusty(t', st'))
  {
    if id in Ids(st.live) {
      var i :| 0 <= i < |st.live| && st.live[i].id == id;
      assert st.live[i] in st.live;
      forall j | 0 <= j < |st.live| && st.live[j].id == id ensures j == i { SameIdSamePlace(st.live, st.nextId, i, j); }
      TrustyCancelLive(t, st, i);
    } else {
      FilterAbsent(st.live, id);
      if id in t.index { CancelExpiredIff(t, st, id); }
      forall e | e in st.live ensures e.id != id { IdsBelow(st.live, st.nextId); }
    }
  }

  lemma SameIdSamePlace<W>(live: seq<Entry<W>>, nextId: nat, i: nat, j: nat)
    requires Ordered(live, nextId) && i < |live| && j < |live| && live[i].id == live[j].id
    ensures i == j
  {
  }

  lemma TrustyStep<W(!new)>(t: Tree<W>, st: Store<W>, op: Op<W>)
    requires Trusty(t, st)
    ensures var t', st' := TreeStep(t, op).0, SpecStep(st, op).0;
      (Faithful(t', st'.live) <==> Harmless(t, st.live, op)) && (Harmless(t, st.live, op) ==> Trusty(t', st'))
  {
    match op {
      case Insert(d, w) => TrustyInsert(t, st, d, w);
      case Cancel(id) => TrustyCancel(t, st, id);
      case Collect(now) => TrustyCollect(t, st, now);
    }
  }

  lemma TrustyEmpty<W(!new)>()
    ensures Trusty(EmptyTree<W>(), EmptyStore<W>())
  {
  }

  ghost predicate Careful<W(!new)>(t: Tree<W>, st: Store<W>, ops: seq<Op<W>>)
    decreases |ops|
  {
    ops != [] ==> Harmless(t, st.live, ops[0]) && Careful(TreeStep(t, ops[0]).0, SpecStep(st, ops[0]).0, ops[1..])
  }

  /** After the first i operations the tree holds exactly the live wakers. */
  ghost predicate FaithfulAfter<W(!new)>(t: Tree<W>, st: Store<W>, ops: seq<Op<W>>, i: nat)
    requires i <= |ops|
  {
    Faithful(TreeAfter(t, ops[..i]), SpecAfter(st, ops[..i]).live)
  }

  lemma AfterNext<W(!new)>(t: Tree<W>, st: Store<W>, ops: seq<Op<W>>, i: nat)
    requires i < |ops|
    ensures FaithfulAfter(t, st, ops, i + 1)
      <==> FaithfulAfter(TreeStep(t, ops[0]).0, SpecStep(st, ops[0]).0, ops[1..], i)
  {
    assert ops[..i + 1][1..] == ops[1..][..i];
  }

  lemma {:induction false} AlwaysFaithfulIff<W(!new)>(t: Tree<W>, st: Store<W>, ops: seq<Op<W>>)
    requires Trusty(t, st)
    ensures (forall i: nat :: i <= |ops| ==> FaithfulAfter(t, st, ops, i)) <==> Careful(t, st, ops)
    decreases |ops|
  {
    if ops == [] {
      forall i: nat | i <= |ops| ensures FaithfulAfter(t, st, ops, i) { assert ops[..i] == []; }
    } else {
      var op, rest := ops[0], ops[1..];
      var t', st' := TreeStep(t, op).0, SpecStep(st, op).0;
      TrustyStep(t, st, op);
      forall i: nat | i < |ops| ensures FaithfulAfter(t, st, ops, i + 1) <==> FaithfulAfter(t', st', rest, i) {
        AfterNext(t, st, ops, i);
      }
      if Harmless(t, st.live, op) {
        AlwaysFaithfulIff(t', st', rest);
        AlwaysNext(t, st, ops);
      } else {
        assert !FaithfulAfter(t', st', rest, 0);
        assert !FaithfulAfter(t, st, ops, 0 + 1);
      }
    }
  }

  lemma AlwaysNext<W(!new)>(t: Tree<W>, st: Store<W>, ops: seq<Op<W>>)
    requires ops != [] && Faithful(t, st.live)
    ensures (forall i: nat :: i <= |ops| ==> FaithfulAfter(t, st, ops, i))
      <==> forall i: nat :: i <= |ops[1..]| ==>
        FaithfulAfter(TreeStep(t, ops[0]).0, SpecStep(st, ops[0]).0, ops[1..], i)
  {
    var t', st', rest := TreeStep(t, ops[0]).0, SpecStep(st, ops[0]).0, ops[1..];
    assert ops[..0] == [] && FaithfulAfter(t, st, ops, 0);
    forall i: nat | i < |ops| ensures FaithfulAfter(t, st, ops, i + 1) <==> FaithfulAfter(t', st', rest, i) {
      AfterNext(t, st, ops, i);
    }
    if forall i: nat :: i <= |rest| ==> FaithfulAfter(t', st', rest, i) {
      forall i: nat | i <= |ops| ensures FaithfulAfter(t, st, ops, i) {
        if i > 0 { assert FaithfulAfter(t', st', rest, i - 1) && i == (i - 1) + 1; }
      }
    }
    if forall i: nat :: i <= |ops| ==> FaithfulAfter(t, st, ops, i) {
      forall i: nat | i <= |rest| ensures FaithfulAfter(t', st', rest, i) { assert FaithfulAfter(t, st, ops, i + 1); }
    }
  }

  /**
   On a run from the empty store the tree holds exactly the live wakers, in order, after every
   operation, exactly when every cancellation on the way is harmless.
   */
  lemma FaithfulRunIff<W(!new)>(ops: seq<Op<W>>)
    ensures (forall i: nat :: i <= |ops| ==> FaithfulAfter(EmptyTree(), EmptyStore(), ops, i))
      <==> Careful(EmptyTree(), EmptyStore(), ops)
  {
    TrustyEmpty<W>();
    AlwaysFaithfulIff(EmptyTree<W>(), EmptyStore<W>(), ops);
  }

  lemma {:induction false} CarefulTrusty<W(!new)>(t: Tree<W>, st: Store<W>, ops: seq<Op<W>>, i: nat)
    requires Trusty(t, st) && Careful(t, st, ops) && i <= |ops|
    ensures Trusty(TreeAfter(t, ops[..i]), SpecAfter(st, ops[..i]))
    decreases |ops|
  {
    if i > 0 {
      TrustyStep(t, st, ops[0]);
      CarefulTrusty(TreeStep(t, ops[0]).0, SpecStep(st, ops[0]).0, ops[1..], i - 1);
      assert ops[..i][1..] == ops[1..][..i - 1];
    }
  }

  /** On such a run the ordered map fires what the heap fires, in the same order. */
  lemma CarefulFires<W(!new)>(ops: seq<Op<W>>, i: nat)
    requires i < |ops| && Careful(EmptyTree(), EmptyStore(), ops)
    ensures TreeAnswerTo(TreeAfter(EmptyTree(), ops[..i]), ops[i]).fired
      == AnswerTo(SpecAfter(EmptyStore(), ops[..i]), ops[i], true).fired
  {
    var t, st := TreeAfter(EmptyTree<W>(), ops[..i]), SpecAfter(EmptyStore<W>(), ops[..i]);
    TrustyEmpty<W>();
    CarefulTrusty(EmptyTree(), EmptyStore(), ops, i);
    if ops[i].Collect? { FaithfulFires(t, st.live, st.nextId, ops[i].now); }
  }

  /** Two timers at one deadline, the first of which is cancelled and fires all the same. */
  lemma WrongWakerFires()
    ensures var ops: seq<Op<int>> := [Insert(5, 1), Insert(5, 2), Cancel(0)];
      && TreeAfter(EmptyTree(), ops).CollectExpired(5).1 == [1]
      && Fires(SpecAfter(EmptyStore(), ops).live, 5, true) == [2]
  {
    var a: Op<int>, b: Op<int>, c: Op<int> := Insert(5, 1), Insert(5, 2), Cancel(0);
    TreeAfterSnoc(EmptyTree(), [], a);
    TreeAfterSnoc(EmptyTree(), [a], b);
    TreeAfterSnoc(EmptyTree(), [a, b], c);
    SpecAfterSnoc(EmptyStore(), [], a);
    SpecAfterSnoc(EmptyStore(), [a], b);
    SpecAfterSnoc(EmptyStore(), [a, b], c);
    assert [] + [a] == [a] && [a] + [b] == [a, b] && [a, b] + [c] == [a, b, c];
    WrongWakerTree();
    WrongWakerSpec();
  }

  lemma WrongWakerTree()
    ensures EmptyTree<int>().Insert(5, 1).Insert(5, 2).Cancel(0).0.CollectExpired(5).1 == [1]
  {
    var m := EmptyTree<int>().Insert(5, 1).Insert(5, 2).Cancel(0).0.byDeadline;
    assert At(m, 5) == [1] && m.Keys == {5};
    SkipGap(m, 0, 5);
    assert InOrder(m, 6) == InOrder(m, 5) + At(m, 5);
  }

  lemma WrongWakerSpec()
    ensures Fires(Filter([Entry(5, 0, 1)] + [Entry(5, 1, 2)], Not(0)), 5, true) == [2]
  {
    var one, two := Entry(5, 0, 1), Entry(5, 1, 2);
    FilterConcat([one], [two], Not(0));
    assert Filter([one], Not(0)) == [] && Filter([two], Not(0)) == [two] && Expiring([two], 5) == [two];
  }

  // The three stores side by side.

  /**
   The heap and the vector store answer alike, except for the order of what fires: the due timers in
   insertion order there, their stable sort by deadline here.
   */
  ghost predicate SameButOrder<W(!new)>(h: Answer<W>, v: Answer<W>, live: seq<Entry<W>>, op: Op<W>) {
    && h.reply == v.reply && h.len == v.len && (!op.Collect? ==> h == v)
    && (op.Collect? ==>
         var due := Expiring(live, op.now); v.fired == Wakers(due) && h.fired == Wakers(Sort(due, ByDeadline())))
  }

  ghost predicate TreeAgrees<W>(tree: seq<Answer<W>>, heap: seq<Answer<W>>) {
    |tree| == |heap| && forall i :: 0 <= i < |tree| ==> tree[i].reply == heap[i].reply
  }

  lemma TreeAgreesIff<W(!new)>(ops: seq<Op<W>>, tree: seq<Answer<W>>, heap: seq<Answer<W>>)
    requires |tree| == |heap| == |ops|
    requires forall i :: 0 <= i < |ops| ==> tree[i].reply == TreeStep(TreeAfter(EmptyTree(), ops[..i]), ops[i]).1
    requires forall i :: 0 <= i < |ops| ==> heap[i].reply == SpecStep(SpecAfter(EmptyStore(), ops[..i]), ops[i]).1
    ensures TreeAgrees(tree, heap) <==> Disciplined(EmptyStore(), ops)
  {
    TracksEmpty<W>();
    AgreesIffDisciplined(EmptyTree<W>(), EmptyStore<W>(), ops);
    forall i | 0 <= i < |ops|
      ensures |TreeReplies(EmptyTree(), ops)| == |SpecReplies(EmptyStore(), ops)| == |ops|
      ensures TreeReplies(EmptyTree(), ops)[i] == tree[i].reply && SpecReplies(EmptyStore(), ops)[i] == heap[i].reply
    {
      TreeReplyAt(EmptyTree(), ops, i);
      SpecReplyAt(EmptyStore(), ops, i);
    }
    if ops == [] { assert TreeReplies(EmptyTree<W>(), ops) == SpecReplies(EmptyStore<W>(), ops); }
    if TreeAgrees(tree, heap) { assert TreeReplies(EmptyTree<W>(), ops) == SpecReplies(EmptyStore<W>(), ops); }
  }

  /** The one len() exceeds the other by the number of timers that have expired in the run so far. */
  ghost predicate AheadByExpired<W(!new)>(tree: Answer<W>, heap: Answer<W>, done: seq<Op<W>>) {
    tree.len == heap.len + |SpecAfter(EmptyStore(), done).expired|
  }

  lemma AheadIff<W(!new)>(ops: seq<Op<W>>, i: nat, tree: Answer<W>, heap: Answer<W>)
    requires i < |ops| && tree == TreeAnswerTo(TreeAfter(EmptyTree(), ops[..i]), ops[i])
    requires heap == AnswerTo(SpecAfter(EmptyStore(), ops[..i]), ops[i], true)
    ensures AheadByExpired(tree, heap, ops[..i + 1]) <==> Disciplined(EmptyStore(), ops[..i + 1])
  {
    SpecAfterNext(ops, i);
    TreeAfterNext(ops, i);
    LenExcessIff(ops[..i + 1]);
  }

  /**
   The same operations given to all three stores.  Heap and vector agree on every run.  The
   ordered map gives the heap's replies throughout exactly if no timer is cancelled after it has
   expired, and up to then its len() is ahead by the number of timers expired so far.  It fires the
   heap's wakers in the heap's order if every cancellation is harmless.
   */
  method CompareStores<W(!new)>(ops: seq<Op<W>>)
      returns (heap: seq<Answer<W>>, vec: seq<Answer<W>>, tree: seq<Answer<W>>)
    ensures |heap| == |vec| == |tree| == |ops|
    ensures forall i :: 0 <= i < |ops| ==> SameButOrder(heap[i], vec[i], SpecAfter(EmptyStore(), ops[..i]).live, ops[i])
    ensures TreeAgrees(tree, heap) <==> Disciplined(EmptyStore(), ops)
    ensures Careful(EmptyTree(), EmptyStore(), ops) ==> forall i :: 0 <= i < |ops| ==> tree[i].fired == heap[i].fired
    ensures forall i :: 0 <= i < |ops| ==>
      (AheadByExpired(tree[i], heap[i], ops[..i + 1]) <==> Disciplined(EmptyStore(), ops[..i + 1]))
  {
    heap := ReplayHeap(ops);
    vec := ReplayVec(ops);
    tree := ReplayTree(ops);
    TreeAgreesIff(ops, tree, heap);
    if Careful(EmptyTree(), EmptyStore(), ops) {
      forall i | 0 <= i < |ops| ensures tree[i].fired == heap[i].fired { CarefulFires(ops, i); }
    }
    forall i | 0 <= i < |ops|
      ensures AheadByExpired(tree[i], heap[i], ops[..i + 1]) <==> Disciplined(EmptyStore(), ops[..i + 1])
    {
      AheadIff(ops, i, tree[i], heap[i]);
    }
  }

  /** Expiring a heap store again and again, with nothing in between. */
  method ExpireAtTimes<W(!new)>(store: HeapTimers<W>, times: seq<nat>) returns (out: seq<W>)
    requires store.Valid()
    modifies store
    ensures store.Valid() && store.nextId == old(store.nextId)
    ensures (out, store.live) == (Wakers(ExpireAll(old(store.live), times).0), ExpireAll(old(store.live), times).1)
    ensures times != [] && (forall i, j :: 0 <= i < j < |times| ==> times[i] <= times[j]) ==>
      var last := times[|times| - 1];
      out == Wakers(ExpiringSorted(old(store.live), last)) && store.live == Filter(old(store.live), NotDue(last))
  {
    out := [];
    ghost var live0 := store.live;
    ghost var fired: seq<Entry<W>> := [];
    assert times[0..] == times && [] + ExpireAll(live0, times).0 == ExpireAll(live0, times).0;
    for i := 0 to |times|
      invariant store.Valid() && store.nextId == old(store.nextId) && out == Wakers(fired)
      invariant var (rest, end) := ExpireAll(store.live, times[i..]); ExpireAll(live0, times) == (fired + rest, end)
    {
      ghost var due := ExpiringSorted(store.live, times[i]);
      ExpireNext(store.live, times, i, fired);
      var expired := store.CollectExpired(times[i]);
      WakersConcat(fired, due);
      out, fired := out + expired, fired + due;
    }
    assert fired + [] == fired;
    if times != [] && forall i, j :: 0 <= i < j < |times| ==> times[i] <= times[j] {
      ExpireStepwise(live0, store.nextId, times, times[|times| - 1]);
    }
  }

  lemma ExpireNext<W(!new)>(live: seq<Entry<W>>, times: seq<nat>, i: nat, fired: seq<Entry<W>>)
    requires i < |times|
    ensures var (rest, end) := ExpireAll(Filter(live, NotDue(times[i])), times[i + 1..]);
      var due := ExpiringSorted(live, times[i]);
      ExpireAll(live, times[i..]) == (due + rest, end) && fired + (due + rest) == fired + due + rest
  {
    assert times[i..][1..] == times[i + 1..];
  }
}
