/**
 The book of the live timers by id, which is what the wheel is for, and how what is stored relates
 to it: every operation on the storage is an operation on the book.
 */
module WheelBook {
  import opened Counting
  import opened Sorting
  import opened Wrappers
  import opened WheelAdvance
  import opened WheelClock
  import opened WheelCoalesce
  import opened WheelCopies
  import opened WheelDeadline
  import opened WheelDrain
  import opened WheelGroup
  import opened WheelOrder
  import opened WheelRanges
  import opened WheelRuns
  import opened WheelStorage
  import opened WheelTurn

  type Book<W> = map<nat, Entry<W>>

  /** A stored entry is older than the next generation, and the book has it if it is live. */
  ghost predicate Known<W>(e: Entry<W>, active: Active, book: Book<W>, nextGeneration: nat) {
    e.generation < nextGeneration && (IsLive(active, e) ==> e.id in book && e == book[e.id])
  }

  ghost predicate Listed<W>(active: Active, book: Book<W>) {
    book.Keys == active.Keys && forall id :: id in book ==> book[id].id == id && book[id].generation == active[id]
  }

  ghost predicate Tracked<W(!new)>(st: Storage<W>, active: Active, book: Book<W>, nextGeneration: nat) {
    && Listed(active, book)
    && (forall e :: Stored(st, e) ==> Known(e, active, book, nextGeneration))
    && (forall id :: id in book ==> Stored(st, book[id]))
    && (active == map[] ==> forall e :: !Stored(st, e))
  }

  ghost predicate Singles<W(!new)>(st: Storage<W>) { forall x :: Copies(st, x) <= 1 }

  /** Every entry is where it fits and there is only one of it, and the book is what is live. */
  ghost predicate Sound<W(!new)>(config: Config, w: Wheel<W>, book: Book<W>) {
    Fit(config, w.storage) && Tracked(w.storage, w.active, book, w.nextGeneration) && Singles(w.storage)
  }

  lemma EmptySingles<W(!new)>(st: Storage<W>)
    requires forall e :: !Stored(st, e)
    ensures Singles(st)
  {
    forall x ensures Copies(st, x) <= 1 { CopiesStored(st, x); }
  }

  /** Moving entries about without losing a live one changes nothing for the callers. */
  lemma KeepsTracked<W(!new)>(st: Storage<W>, st': Storage<W>, active: Active, book: Book<W>, nextGeneration: nat)
    requires Tracked(st, active, book, nextGeneration) && Keeps(active, st, st')
    ensures Tracked(st', active, book, nextGeneration)
  {
  }

  /** The earliest deadline in the book, or `current` if that has passed. */
  ghost predicate EarliestOf<W>(book: Book<W>, current: nat, t: Option<nat>) {
    && (t.None? <==> book == map[])
    && (t.Some? ==> (exists id :: id in book && NoEarlier(book[id].deadline, current) == t.value)
                    && forall id :: id in book ==> t.value <= NoEarlier(book[id].deadline, current))
  }

  lemma EarliestBooked<W(!new)>(st: Storage<W>, active: Active, book: Book<W>, nextGeneration: nat, t: Option<nat>)
    requires Tracked(st, active, book, nextGeneration) && IsEarliest(active, st, t)
    ensures EarliestOf(book, st.tick * MS, t)
  {
    forall id | id in book
      ensures Pending(active, st, book[id]) && Clamped(st, book[id]) == NoEarlier(book[id].deadline, st.tick * MS)
    {
      BookedIsLive(active, book, id);
    }
    if t.Some? {
      var e :| Pending(active, st, e) && Clamped(st, e) == t.value;
      assert Known(e, active, book, nextGeneration);
      assert NoEarlier(book[e.id].deadline, st.tick * MS) == t.value;
    }
  }

  // Draining the ready list.

  /** Part of the way through: `left` is still to be looked at, the book has lost what was fired. */
  ghost predicate Draining<W(!new)>(st: Storage<W>, left: seq<Entry<W>>, active: Active, book: Book<W>,
                                    nextGeneration: nat, book0: Book<W>, fired: seq<Entry<W>>, now: nat)
  {
    && Listed(active, book)
    && (forall e :: Stored(st, e) || e in left ==> Known(e, active, book, nextGeneration))
    && (forall id :: id in book ==> Stored(st, book[id]) || book[id] in left)
    && Fired(book0, book, fired, now)
  }

  /** The book has lost exactly what was fired, each timer once, and all of that was due. */
  ghost predicate Fired<W>(book0: Book<W>, book: Book<W>, fired: seq<Entry<W>>, now: nat) {
    && (forall id :: id in book ==> id in book0 && book0[id] == book[id])
    && (forall id :: id in book0 && id !in book ==> book0[id] in fired)
    && (forall f :: f in fired ==> f.id in book0 && f.id !in book && f == book0[f.id] && f.deadline <= now)
    && (forall a, b :: 0 <= a < b < |fired| ==> fired[a].id != fired[b].id)
  }

  /** A dead entry is passed over. */
  lemma DrainDead<W(!new)>(st: Storage<W>, left: seq<Entry<W>>, active: Active, book: Book<W>,
                           nextGeneration: nat, book0: Book<W>, fired: seq<Entry<W>>, now: nat)
    requires Draining(st, left, active, book, nextGeneration, book0, fired, now)
    requires left != [] && !IsLive(active, left[0])
    ensures Draining(st, left[1..], active, book, nextGeneration, book0, fired, now)
  {
    assert left == [left[0]] + left[1..];
  }

  /** A live entry that is due fires. */
  lemma DrainFire<W(!new)>(st: Storage<W>, left: seq<Entry<W>>, active: Active, book: Book<W>,
                           nextGeneration: nat, book0: Book<W>, fired: seq<Entry<W>>, now: nat)
    requires Draining(st, left, active, book, nextGeneration, book0, fired, now)
    requires left != [] && IsLive(active, left[0]) && left[0].deadline <= now
    ensures var e := left[0];
      Draining(st, left[1..], active - {e.id}, book - {e.id}, nextGeneration, book0, fired + [e], now)
  {
    var e := left[0];
    assert left == [e] + left[1..];
    assert Known(e, active, book, nextGeneration);
    FireFired(book0, book, fired, now, e);
    var active', book' := active - {e.id}, book - {e.id};
    forall x | Stored(st, x) || x in left[1..] ensures Known(x, active', book', nextGeneration) {
      assert Known(x, active, book, nextGeneration);
    }
    forall id | id in book' ensures Stored(st, book'[id]) || book'[id] in left[1..] {
      assert book'[id] == book[id] != e;
    }
  }

  lemma FireFired<W(!new)>(book0: Book<W>, book: Book<W>, fired: seq<Entry<W>>, now: nat, e: Entry<W>)
    requires Fired(book0, book, fired, now) && e.id in book && e == book[e.id] && e.deadline <= now
    ensures Fired(book0, book - {e.id}, fired + [e], now)
  {
    forall i | 0 <= i < |fired| ensures fired[i].id != e.id {
      assert fired[i] in fired;
    }
  }

  /** A live entry that is not due is kept. */
  lemma DrainKeep<W(!new)>(st: Storage<W>, st': Storage<W>, left: seq<Entry<W>>, active: Active, book: Book<W>,
                           nextGeneration: nat, book0: Book<W>, fired: seq<Entry<W>>, now: nat)
    requires Draining(st, left, active, book, nextGeneration, book0, fired, now) && left != []
    requires forall x :: Stored(st', x) <==> Stored(st, x) || x == left[0]
    ensures Draining(st', left[1..], active, book, nextGeneration, book0, fired, now)
  {
    assert left == [left[0]] + left[1..];
  }

  /** Everything due is still ahead. */
  ghost predicate DueAhead<W>(book: Book<W>, left: seq<Entry<W>>, now: nat) {
    forall id :: id in book && book[id].deadline <= now ==> book[id] in left
  }

  lemma DueAheadNext<W>(book: Book<W>, book': Book<W>, left: seq<Entry<W>>, now: nat)
    requires DueAhead(book, left, now) && left != []
    requires forall id :: id in book' ==> id in book && book'[id] == book[id]
    requires forall id :: id in book' && book[id] == left[0] ==> book[id].deadline > now
    ensures DueAhead(book', left[1..], now)
  {
    assert left == [left[0]] + left[1..];
  }

  lemma BookedIsLive<W>(active: Active, book: Book<W>, id: nat)
    requires Listed(active, book) && id in book
    ensures IsLive(active, book[id])
  {
  }

  lemma DeadAhead<W>(active: Active, book: Book<W>, left: seq<Entry<W>>, now: nat)
    requires Listed(active, book) && left != [] && !IsLive(active, left[0])
    ensures DueAhead(book, left, now) ==> DueAhead(book, left[1..], now)
  {
    forall id | id in book ensures book[id] != left[0] { BookedIsLive(active, book, id); }
    if DueAhead(book, left, now) { DueAheadNext(book, book, left, now); }
  }

  lemma FireAhead<W>(book: Book<W>, left: seq<Entry<W>>, now: nat)
    requires left != [] && left[0].id in book && book[left[0].id] == left[0]
    requires forall id :: id in book ==> book[id].id == id
    ensures DueAhead(book, left, now) ==> DueAhead(book - {left[0].id}, left[1..], now)
  {
    if DueAhead(book, left, now) { DueAheadNext(book, book - {left[0].id}, left, now); }
  }

  /** One entry of the ready list, as the book sees it. */
  lemma DrainStep<W(!new)>(st: Storage<W>, left: seq<Entry<W>>, active: Active, book: Book<W>, nextGeneration: nat,
                           maxRange: nat, now: nat, book0: Book<W>, fired: seq<Entry<W>>)
      returns (st': Storage<W>, active': Active, book': Book<W>, one: seq<Entry<W>>)
    requires Shaped(st) && left != [] && Draining(st, left, active, book, nextGeneration, book0, fired, now)
    ensures Shaped(st') && Draining(st', left[1..], active', book', nextGeneration, book0, fired + one, now)
    ensures DueAhead(book, left, now) ==> DueAhead(book', left[1..], now)
    ensures var rest := Drain(st', left[1..], active', maxRange, now);
      Drain(st, left, active, maxRange, now) == rest.(fired := one + rest.fired)
  {
    var e := left[0];
    st', active', book', one := st, active, book, [];
    if !IsLive(active, e) {
      DrainDead(st, left, active, book, nextGeneration, book0, fired, now);
      DeadAhead(active, book, left, now);
      assert fired + [] == fired;
    } else if e.deadline <= now {
      active', book', one := active - {e.id}, book - {e.id}, [e];
      DrainFire(st, left, active, book, nextGeneration, book0, fired, now);
      assert Known(e, active, book, nextGeneration);
      FireAhead(book, left, now);
    } else {
      st' := WheelStorage.Insert(st, maxRange, e);
      forall x ensures Stored(st', x) <==> Stored(st, x) || x == e { InsertStored(st, maxRange, e, x); }
      DrainKeep(st, st', left, active, book, nextGeneration, book0, fired, now);
      if DueAhead(book, left, now) { DueAheadNext(book, book, left, now); }
      assert fired + [] == fired;
    }
  }

  /** The same step, with what is left and what has fired named. */
  lemma DrainNext<W(!new)>(st: Storage<W>, left: seq<Entry<W>>, active: Active, book: Book<W>, nextGeneration: nat,
                           maxRange: nat, now: nat, book0: Book<W>, fired: seq<Entry<W>>)
      returns (st': Storage<W>, left': seq<Entry<W>>, active': Active, book': Book<W>, fired': seq<Entry<W>>,
               one: seq<Entry<W>>)
    requires Shaped(st) && left != [] && Draining(st, left, active, book, nextGeneration, book0, fired, now)
    ensures Shaped(st') && |left'| < |left| && fired' == fired + one
    ensures Draining(st', left', active', book', nextGeneration, book0, fired', now)
    ensures DueAhead(book, left, now) ==> DueAhead(book', left', now)
    ensures var rest := Drain(st', left', active', maxRange, now);
      Drain(st, left, active, maxRange, now) == rest.(fired := one + rest.fired)
  {
    st', active', book', one := DrainStep(st, left, active, book, nextGeneration, maxRange, now, book0, fired);
    left', fired' := left[1..], fired + one;
  }

  /** Draining, as the book sees it. */
  lemma {:induction false} DrainBook<W(!new)>(st: Storage<W>, left: seq<Entry<W>>, active: Active, book: Book<W>,
                                              nextGeneration: nat, maxRange: nat, now: nat, book0: Book<W>,
                                              fired: seq<Entry<W>>)
      returns (book': Book<W>, r: Drained<W>, all: seq<Entry<W>>)
    requires Shaped(st) && Draining(st, left, active, book, nextGeneration, book0, fired, now)
    ensures r == Drain(st, left, active, maxRange, now) && all == fired + r.fired
    ensures Draining(r.storage, [], r.active, book', nextGeneration, book0, all, now)
    ensures DueAhead(book, left, now) ==> DueAhead(book', [], now)
    decreases |left|
  {
    if left == [] {
      book', r, all := book, Drained(st, active, []), fired;
    } else {
      var st1, left1, active1, book1, fired1, one :=
        DrainNext(st, left, active, book, nextGeneration, maxRange, now, book0, fired);
      var rest;
      book', rest, all := DrainBook(st1, left1, active1, book1, nextGeneration, maxRange, now, book0, fired1);
      r := rest.(fired := one + rest.fired);
      ConcatAssoc(fired, one, rest.fired);
    }
  }

  lemma DrainedTracked<W(!new)>(st: Storage<W>, active: Active, book: Book<W>, nextGeneration: nat,
                                book0: Book<W>, fired: seq<Entry<W>>, now: nat)
    requires Draining(st, [], active, book, nextGeneration, book0, fired, now)
    ensures active != map[] ==> Tracked(st, active, book, nextGeneration)
    ensures active == map[] ==> Tracked(Emptied(st), active, book, nextGeneration)
  {
    forall e ensures !Stored(Emptied(st), e) { NothingEmptied(st, e); }
  }

  lemma NothingEmptied<W>(st: Storage<W>, e: Entry<W>)
    ensures !Stored(Emptied(st), e)
  {
  }

  // Which timers fire together.

  ghost function DueBy<W>(book: Book<W>, t: nat): set<nat> { set id | id in book && book[id].deadline <= t }

  /** The end of the window if enough timers are due by then, and otherwise now. */
  ghost function BookCutoff<W>(c: Coalescing, book: Book<W>, now: nat): nat {
    if c.window > 0 && |DueBy(book, Boundary(c.window, now))| >= c.Needed() then Boundary(c.window, now) else now
  }

  /**
   What the cutoff is: now without a window; with one, the least multiple of the window after now if
   at least one timer and at least the minimum group are due by then, and now if not.
   */
  ghost predicate CutoffRule<W>(c: Coalescing, book: Book<W>, now: nat, cutoff: nat) {
    && (c.window == 0 ==> cutoff == now)
    && (c.window > 0 && cutoff != now ==> cutoff % c.window == 0 && cutoff - c.window <= now < cutoff)
    && (c.window > 0 ==>
         forall b: nat :: b % c.window == 0 && b - c.window <= now < b ==>
           var due := |DueBy(book, b)|; cutoff == if due >= 1 && due >= c.minGroup then b else now)
  }

  lemma BookCutoffRule<W>(c: Coalescing, book: Book<W>, now: nat)
    ensures CutoffRule(c, book, now, BookCutoff(c, book, now))
  {
    if c.window > 0 {
      forall b: nat | b % c.window == 0 && b - c.window <= now < b ensures b == Boundary(c.window, now) {
        BoundaryUnique(c.window, now, b);
      }
    }
  }

  ghost function LiveIds<W>(active: Active, list: seq<Entry<W>>, t: nat): set<nat> {
    set i | 0 <= i < |list| && LiveBy(active, t)(list[i]) :: list[i].id
  }

  ghost predicate OneEach<W>(active: Active, list: seq<Entry<W>>, t: nat) {
    forall i, j :: 0 <= i < j < |list| && LiveBy(active, t)(list[i]) && LiveBy(active, t)(list[j]) ==>
      list[i].id != list[j].id
  }

  lemma LiveIdsFirst<W>(active: Active, list: seq<Entry<W>>, t: nat)
    requires list != []
    ensures LiveIds(active, list, t)
      == LiveIds(active, list[1..], t) + if LiveBy(active, t)(list[0]) then {list[0].id} else {}
  {
    var p, rest := LiveBy<W>(active, t), list[1..];
    forall id | id in LiveIds(active, list, t)
      ensures id in LiveIds(active, rest, t) + if p(list[0]) then {list[0].id} else {}
    {
      var i :| 0 <= i < |list| && p(list[i]) && list[i].id == id;
      if i > 0 { assert rest[i - 1] == list[i]; }
    }
    forall id | id in LiveIds(active, rest, t) ensures id in LiveIds(active, list, t) {
      var i :| 0 <= i < |rest| && p(rest[i]) && rest[i].id == id;
      assert list[i + 1] == rest[i];
    }
  }

  lemma {:induction false} CountIds<W>(active: Active, list: seq<Entry<W>>, t: nat)
    requires OneEach(active, list, t)
    ensures Count(list, LiveBy(active, t)) == |LiveIds(active, list, t)|
  {
    if list == [] {
      assert LiveIds(active, list, t) == {};
    } else {
      CountIds(active, list[1..], t);
      LiveIdsFirst(active, list, t);
      if LiveBy(active, t)(list[0]) { FirstIdOnce(active, list, t); }
    }
  }

  lemma FirstIdOnce<W>(active: Active, list: seq<Entry<W>>, t: nat)
    requires list != [] && OneEach(active, list, t) && LiveBy(active, t)(list[0])
    ensures list[0].id !in LiveIds(active, list[1..], t)
  {
    var rest := list[1..];
    forall i | 0 <= i < |rest| && LiveBy(active, t)(rest[i]) ensures rest[i].id != list[0].id {
      assert rest[i] == list[i + 1];
    }
  }

  lemma TimesTwice<T>(s: seq<T>, i: nat, j: nat)
    requires i < j < |s| && s[i] == s[j]
    ensures Times(s, s[i]) >= 2
  {
    assert s == s[..j] + s[j..] && s[..j][i] == s[i] && s[j..][0] == s[i];
    TimesConcat(s[..j], s[j..], s[i]);
    TimesPositive(s[..j], s[i]);
    TimesPositive(s[j..], s[i]);
  }

  lemma KnownOneEach<W(!new)>(list: seq<Entry<W>>, active: Active, book: Book<W>, nextGeneration: nat, t: nat)
    requires Listed(active, book)
    requires forall e :: e in list ==> Known(e, active, book, nextGeneration) && Times(list, e) <= 1
    ensures OneEach(active, list, t)
  {
    forall i, j | 0 <= i < j < |list| && LiveBy(active, t)(list[i]) && LiveBy(active, t)(list[j])
      ensures list[i].id != list[j].id
    {
      assert list[i] in list && list[j] in list;
      if list[i].id == list[j].id { TimesTwice(list, i, j); }
    }
  }

  /** A list that has each due timer of the book once counts them. */
  lemma GroupCount<W(!new)>(list: seq<Entry<W>>, active: Active, book: Book<W>, nextGeneration: nat, t: nat)
    requires Listed(active, book) && DueAhead(book, list, t)
    requires forall e :: e in list ==> Known(e, active, book, nextGeneration) && Times(list, e) <= 1
    ensures Count(list, LiveBy(active, t)) == |DueBy(book, t)|
  {
    KnownOneEach(list, active, book, nextGeneration, t);
    CountIds(active, list, t);
    forall id | id in DueBy(book, t) ensures id in LiveIds(active, list, t) {
      BookedIsLive(active, book, id);
      var i :| 0 <= i < |list| && list[i] == book[id];
    }
    forall id | id in LiveIds(active, list, t) ensures id in DueBy(book, t) {
      var i :| 0 <= i < |list| && LiveBy(active, t)(list[i]) && list[i].id == id;
      assert list[i] in list;
    }
    assert LiveIds(active, list, t) == DueBy(book, t);
  }

  lemma GatheredBook<W(!new)>(config: Config, w: Wheel<W>, book: Book<W>, now: nat)
    requires Sound(config, w, book) && now / MS <= w.storage.tick
    ensures Shaped(w.storage)
    ensures var c, g := config.coalescing, Gathered(config.coalescing, w.storage, now);
      && (forall x :: Stored(w.storage, x) <==> Stored(g.storage, x) || x in g.taken)
      && (forall x :: Times(g.taken, x) <= 1)
      && (TakesIn(config) || c.window > 0 ==> DueAhead(book, g.taken, now))
      && (c.window > 0 ==> DueAhead(book, g.taken, Boundary(c.window, now)))
  {
    var c, g := config.coalescing, Gathered(config.coalescing, w.storage, now);
    forall x ensures (Stored(w.storage, x) <==> Stored(g.storage, x) || x in g.taken) && Times(g.taken, x) <= 1 {
      GatheredStored(c, w.storage, now, x);
      GatheredCopies(c, w.storage, now, x);
    }
    forall id | id in book
      ensures (TakesIn(config) || c.window > 0) && book[id].deadline <= now ==> book[id] in g.taken
      ensures c.window > 0 && book[id].deadline <= Boundary(c.window, now) ==> book[id] in g.taken
    {
      if TakesIn(config) || c.window > 0 { GatheredDue(config, w.storage, now, book[id]); }
      if c.window > 0 { GatheredAll(c, w.storage, config.Reach(), now, book[id]); }
    }
  }

  /** A collection fires up to the time that the book gives. */
  lemma CutoffBooked<W(!new)>(config: Config, w: Wheel<W>, book: Book<W>, now: nat)
    requires Sound(config, w, book) && now / MS <= w.storage.tick
    ensures Shaped(w.storage)
    ensures var c, g := config.coalescing, Gathered(config.coalescing, w.storage, now);
      && Cutoff(c, w.active, g.taken, now) == BookCutoff(c, book, now)
      && (c.window > 0 ==>
           var b := Boundary(c.window, now); Count(g.taken, LiveBy(w.active, b)) == |DueBy(book, b)|)
  {
    GatheredBook(config, w, book, now);
    var c, g := config.coalescing, Gathered(config.coalescing, w.storage, now);
    if c.window > 0 {
      GroupCount(g.taken, w.active, book, w.nextGeneration, Boundary(c.window, now));
    }
  }

  // In which order they fire.

  lemma {:induction false} FilterAlike<T(!new)>(s: seq<T>, p: T -> bool, q: T -> bool)
    requires forall i :: 0 <= i < |s| ==> p(s[i]) == q(s[i])
    ensures Filter(s, p) == Filter(s, q)
  {
    if s != [] {
      assert p(s[0]) == q(s[0]);
      FilterAlike(s[1..], p, q);
    }
  }

  lemma OneEachRest<W>(active: Active, list: seq<Entry<W>>, t: nat)
    requires list != [] && OneEach(active, list, t)
    ensures OneEach(active, list[1..], t)
    ensures LiveBy(active, t)(list[0]) ==> OneEach(active - {list[0].id}, list[1..], t)
    ensures LiveBy(active, t)(list[0]) ==>
      forall i :: 0 <= i < |list[1..]| ==>
        LiveBy(active, t)(list[1..][i]) == LiveBy(active - {list[0].id}, t)(list[1..][i])
  {
    var rest := list[1..];
    forall i | 0 <= i < |rest| ensures rest[i] == list[i + 1] {
    }
  }

  /** Draining a list that has each live timer once fires its live due entries in the order of the list. */
  lemma {:induction false} DrainFires<W(!new)>(st: Storage<W>, ready: seq<Entry<W>>, active: Active, maxRange: nat,
                                               now: nat)
    requires Shaped(st) && OneEach(active, ready, now)
    ensures Drain(st, ready, active, maxRange, now).fired == Filter(ready, LiveBy(active, now))
    decreases |ready|
  {
    if ready != [] {
      var e, rest := ready[0], ready[1..];
      OneEachRest(active, ready, now);
      if !IsLive(active, e) {
        DrainFires(st, rest, active, maxRange, now);
      } else if e.deadline <= now {
        DrainFires(st, rest, active - {e.id}, maxRange, now);
        FilterAlike(rest, LiveBy(active, now), LiveBy(active - {e.id}, now));
      } else {
        DrainFires(WheelStorage.Insert(st, maxRange, e), rest, active, maxRange, now);
      }
    }
  }

  /** A collection fires the live entries due by the cutoff in the order they are gathered. */
  lemma CollectedInOrder<W(!new)>(config: Config, w: Wheel<W>, book: Book<W>, now: nat)
    requires Sound(config, w, book) && now / MS <= w.storage.tick
    ensures Shaped(w.storage)
    ensures DrainedAt(config.coalescing, w.storage, w.active, config.maxRange, now).fired
      == Filter(Gathered(config.coalescing, w.storage, now).taken,
                LiveBy(w.active, BookCutoff(config.coalescing, book, now)))
  {
    GatheredBook(config, w, book, now);
    CutoffBooked(config, w, book, now);
    var c, cutoff := config.coalescing, BookCutoff(config.coalescing, book, now);
    var g := Gathered(c, w.storage, now);
    KnownOneEach(g.taken, w.active, book, w.nextGeneration, cutoff);
    DrainFires(g.storage, g.taken, w.active, config.maxRange, cutoff);
  }

  /** What a collection does to a wheel and its book. */
  lemma CollectedSound<W(!new)>(config: Config, w: Wheel<W>, book: Book<W>, now: nat) returns (book': Book<W>)
    requires Sound(config, w, book) && now / MS <= w.storage.tick
    ensures Shaped(w.storage) && Sound(config, Collected(config, w, now), book')
    ensures var r := DrainedAt(config.coalescing, w.storage, w.active, config.maxRange, now);
      Fired(book, book', r.fired, BookCutoff(config.coalescing, book, now))
    ensures TakesIn(config) || config.coalescing.window > 0 ==>
      DueAhead(book', [], BookCutoff(config.coalescing, book, now))
  {
    GatheredBook(config, w, book, now);
    CutoffBooked(config, w, book, now);
    var c, range := config.coalescing, config.maxRange;
    var g, cutoff := Gathered(c, w.storage, now), BookCutoff(c, book, now);
    var r, all;
    book', r, all := DrainBook(g.storage, g.taken, w.active, book, w.nextGeneration, range, cutoff, book, []);
    assert all == r.fired;
    assert r == DrainedAt(c, w.storage, w.active, range, now);
    CollectedFit(config, w, now);
    DrainedTracked(r.storage, r.active, book', w.nextGeneration, book, r.fired, cutoff);
    CollectedSingles(config, w, now);
  }

  lemma CollectedSingles<W(!new)>(config: Config, w: Wheel<W>, now: nat)
    requires Shaped(w.storage) && Singles(w.storage)
    ensures Singles(Collected(config, w, now).storage)
  {
    var c := config.coalescing;
    var g, r := Gathered(c, w.storage, now), DrainedAt(c, w.storage, w.active, config.maxRange, now);
    forall x ensures Copies(r.storage, x) <= 1 {
      GatheredCopies(c, w.storage, now, x);
      DrainCopies(g.storage, g.taken, w.active, config.maxRange, Cutoff(c, w.active, g.taken, now), x);
    }
    forall e ensures !Stored(Emptied(r.storage), e) { NothingEmptied(r.storage, e); }
    EmptySingles(Emptied(r.storage));
  }

  lemma SynchronizedSound<W(!new)>(config: Config, w: Wheel<W>, book: Book<W>, now: nat) returns (w': Wheel<W>)
    requires Sound(config, w, book)
    ensures w' == Synchronized(config, w, now) && Sound(config, w', book)
    ensures w'.storage.tick == if now / MS > w.storage.tick then now / MS else w.storage.tick
  {
    w' := Synchronized(config, w, now);
    SynchronizedFit(config, w, now);
    KeepsTracked(w.storage, w'.storage, w.active, book, w.nextGeneration);
    if now / MS > w.storage.tick {
      TicksSingles(w.storage, config.Reach(), w.active, now / MS - w.storage.tick, w'.storage);
    }
  }

  lemma TicksSingles<W(!new)>(st: Storage<W>, reach: nat, active: Active, n: nat, st': Storage<W>)
    requires Shaped(st) && Singles(st) && reach <= PHYSICAL_RANGE && st' == Ticks(st, reach, active, n)
    ensures Singles(st')
  {
    forall x ensures Copies(st', x) <= 1 { TicksCopies(st, reach, active, n, x); }
  }

  lemma InsertedTracked<W(!new)>(config: Config, w: Wheel<W>, book: Book<W>, e: Entry<W>)
    requires Shaped(w.storage) && Tracked(w.storage, w.active, book, w.nextGeneration)
    requires e.id !in w.active && e.generation == w.nextGeneration
    ensures var w' := Inserted(config, w, e); Tracked(w'.storage, w'.active, book[e.id := e], w'.nextGeneration)
  {
    forall x ensures Stored(Inserted(config, w, e).storage, x) <==> Stored(w.storage, x) || x == e {
      InsertStored(w.storage, config.maxRange, e, x);
    }
    assert e.id in w.active[e.id := e.generation];
  }

  lemma InsertedSingles<W(!new)>(config: Config, w: Wheel<W>, e: Entry<W>)
    requires Shaped(w.storage) && Singles(w.storage) && !Stored(w.storage, e)
    ensures Singles(Inserted(config, w, e).storage)
  {
    CopiesStored(w.storage, e);
    forall x ensures Copies(Inserted(config, w, e).storage, x) <= 1 {
      InsertCopies(w.storage, config.maxRange, e, x);
    }
  }

  lemma InsertedSound<W(!new)>(config: Config, w: Wheel<W>, book: Book<W>, e: Entry<W>)
    requires Sound(config, w, book) && e.id !in w.active && e.generation == w.nextGeneration
    requires e.deadline <= w.Now() + config.maxTimer
    ensures Shaped(w.storage) && Sound(config, Inserted(config, w, e), book[e.id := e])
  {
    InsertedFit(config, w, e);
    InsertedTracked(config, w, book, e);
    InsertedSingles(config, w, e);
  }

  lemma CancelledSound<W(!new)>(config: Config, w: Wheel<W>, book: Book<W>, id: nat, generation: nat)
    requires Sound(config, w, book)
    ensures var found := id in book && book[id].generation == generation;
      Sound(config, Cancelled(w, id, generation), if found then book - {id} else book)
  {
    EmptiedFacts(w.storage, config.Reach());
    EmptySingles(Emptied(w.storage));
  }

  lemma AskedSound<W(!new)>(config: Config, w: Wheel<W>, book: Book<W>)
    requires Sound(config, w, book)
    ensures Shaped(w.storage) && Sound(config, Asked(config, w), book)
  {
    if !Immediate(config, w) {
      var st, st' := w.storage, Asked(config, w).storage;
      ReportFit(config, w.active, st);
      forall e
        ensures (Stored(st', e) ==> Stored(st, e)) && (Stored(st, e) && IsLive(w.active, e) ==> Stored(st', e))
        ensures Copies(st', e) <= 1
      {
        PrunedKeeps(w.active, st.overflow, e);
        PrunedCopies(w.active, st.overflow, e);
        assert Copies(st', e) <= Copies(st, e);
      }
      KeepsTracked(st, st', w.active, book, w.nextGeneration);
    }
  }

  // What a group is to the callers.

  /** The ready list has all that is due at a time. */
  predicate ReadyFor<W>(config: Config, w: Wheel<W>, now: nat) {
    if TakesIn(config) then now / MS <= w.storage.tick else 0 < config.maxRange && now <= w.Now()
  }

  lemma DueAreReady<W(!new)>(config: Config, w: Wheel<W>, book: Book<W>, now: nat)
    requires Sound(config, w, book) && ReadyFor(config, w, now)
    ensures DueAhead(book, w.storage.ready, now)
  {
    forall id | id in book && book[id].deadline <= now ensures book[id] in w.storage.ready {
      if TakesIn(config) {
        TakesInReach(config, w.storage);
        DueIsReady(w.storage, config.Reach(), now, book[id]);
      } else {
        PastIsReady(w.storage, config.Reach(), book[id]);
      }
    }
  }

  /** `coalescing_group_size` is the number of timers that a collection at that time fires. */
  lemma GroupSizeBooked<W(!new)>(config: Config, w: Wheel<W>, book: Book<W>, now: nat)
    requires Sound(config, w, book) && ReadyFor(config, w, now)
    ensures Shaped(w.storage)
    ensures var c := config.coalescing;
      GroupSize(c, w.active, w.storage, now) == |DueBy(book, BookCutoff(c, book, now))|
  {
    TicksBelow(now, w.storage.tick + 1);
    CutoffBooked(config, w, book, now);
    DueAreReady(config, w, book, now);
    forall e | e in w.storage.ready
      ensures Known(e, w.active, book, w.nextGeneration) && Times(w.storage.ready, e) <= 1
    {
      assert Stored(w.storage, e) && Copies(w.storage, e) <= 1;
    }
    GroupCount(w.storage.ready, w.active, book, w.nextGeneration, now);
  }

  lemma FiredCount<W>(book: Book<W>, book': Book<W>, fired: seq<Entry<W>>, t: nat)
    requires Fired(book, book', fired, t) && DueAhead(book', [], t) && forall id :: id in book ==> book[id].id == id
    ensures |fired| == |DueBy(book, t)|
  {
    var ids := seq(|fired|, i requires 0 <= i < |fired| => fired[i].id);
    DistinctSize(ids);
    forall id | id in DueBy(book, t) ensures id in Elements(ids) {
      assert id !in book';
      var i :| 0 <= i < |fired| && fired[i] == book[id];
      assert fired[i] in fired;
      assert ids[i] == id;
    }
    forall id | id in Elements(ids) ensures id in DueBy(book, t) {
      var i :| 0 <= i < |ids| && ids[i] == id;
      assert fired[i] in fired;
    }
    assert Elements(ids) == DueBy(book, t);
  }

  /** With coalescing, `next_deadline` reports the current time exactly when a collection would fire something. */
  lemma ImmediateIff<W(!new)>(config: Config, w: Wheel<W>, book: Book<W>, t: Option<nat>)
    requires Sound(config, w, book) && 0 < config.Reach() && config.coalescing.window > 0
    requires Shaped(w.storage) && Reports(config, w, t)
    ensures t == Some(w.Now()) <==> DueBy(book, BookCutoff(config.coalescing, book, w.Now())) != {}
  {
    GroupSizeBooked(config, w, book, w.Now());
    if !Immediate(config, w) { ReportedDue(config.coalescing, w, book, t); }
  }

  /**
   What the reported deadline says about the book.  With coalescing it is the current time exactly
   when a collection would fire something now.  Otherwise it is the first pending timer in the order
   of the places the wheel looks at, and that is the earliest if the wheel is configured to use its
   finest level only, and on any wheel while all timers are on one level and none is a full turn
   ahead of its hand.
   */
  ghost predicate ReportRight<W(!new)>(config: Config, w: Wheel<W>, book: Book<W>, t: Option<nat>)
    requires Shaped(w.storage)
  {
    && (0 < config.Reach() && config.coalescing.window > 0 ==>
          (t == Some(w.Now()) <==> DueBy(book, BookCutoff(config.coalescing, book, w.Now())) != {}))
    && (!Immediate(config, w) ==> FirstInOrder(w.active, w.storage, t))
    && (!Immediate(config, w) && 0 < config.Reach() <= SLOTS * MS ==> EarliestOf(book, w.Now(), t))
    && (forall j: nat :: !Immediate(config, w) && OnOneLevel(w.active, w.storage, j) ==> EarliestOf(book, w.Now(), t))
  }

  lemma ReportBooked<W(!new)>(config: Config, w: Wheel<W>, book: Book<W>, t: Option<nat>)
    requires Sound(config, w, book) && Shaped(w.storage) && Reports(config, w, t)
    ensures ReportRight(config, w, book, t)
  {
    if !Immediate(config, w) {
      ReportedFirst(w.active, w.storage, config.Reach(), t);
      forall j: nat | OnOneLevel(w.active, w.storage, j) ensures EarliestOf(book, w.Now(), t) {
        OneLevelEarliest(w.active, w.storage, config.Reach(), j, t);
        EarliestBooked(w.storage, w.active, book, w.nextGeneration, t);
      }
    }
    if 0 < config.Reach() <= SLOTS * MS && !Immediate(config, w) {
      ShortRangeReports(w.active, w.storage, config.Reach(), t);
      EarliestBooked(w.storage, w.active, book, w.nextGeneration, t);
    }
    if 0 < config.Reach() && config.coalescing.window > 0 { ImmediateIff(config, w, book, t); }
  }

  lemma ReportedDue<W(!new)>(c: Coalescing, w: Wheel<W>, book: Book<W>, t: Option<nat>)
    requires Tracked(w.storage, w.active, book, w.nextGeneration)
    requires Shaped(w.storage) && Reported(w.active, w.storage, t)
    ensures t == Some(w.Now()) ==> DueBy(book, BookCutoff(c, book, w.Now())) != {}
  {
    if t == Some(w.Now()) {
      var e := ReportedPending(w.active, w.storage, t);
      assert Known(e, w.active, book, w.nextGeneration);
      assert e.id in DueBy(book, BookCutoff(c, book, w.Now()));
    }
  }

  lemma BoundaryMono(window: nat, u: nat, v: nat)
    requires window > 0 && u <= v
    ensures Boundary(window, u) <= Boundary(window, v)
  {
    DivMono(u, v, window);
    TimesMono(u / window + 1, v / window + 1, window);
  }

  lemma DueByMono<W>(book: Book<W>, s: nat, t: nat)
    requires s <= t
    ensures |DueBy(book, s)| <= |DueBy(book, t)|
  {
    SubsetSize(DueBy(book, s), DueBy(book, t));
  }

  ghost predicate WouldFire<W>(c: Coalescing, book: Book<W>, u: nat) { DueBy(book, BookCutoff(c, book, u)) != {} }

  /** Just before the earliest deadline, if enough timers are due by the end of the window then. */
  lemma FiresAtLast<W(!new)>(c: Coalescing, book: Book<W>, current: nat, deadline: nat, b: nat)
    requires c.window > 0 && current < deadline && EarliestOf(book, current, Some(deadline))
    requires b == Boundary(c.window, deadline - 1) && |DueBy(book, b)| >= c.Needed()
    ensures WouldFire(c, book, deadline - 1)
  {
    var id :| id in book && NoEarlier(book[id].deadline, current) == deadline;
    assert id in DueBy(book, b);
  }

  /** And at no earlier time if not. */
  lemma FiresBefore<W(!new)>(c: Coalescing, book: Book<W>, current: nat, deadline: nat, u: nat, b: nat, last: nat)
    requires c.window > 0 && current <= u < deadline && EarliestOf(book, current, Some(deadline))
    requires WouldFire(c, book, u)
    requires b == Boundary(c.window, u) && b <= last
    ensures |DueBy(book, last)| >= c.Needed()
  {
    DueByMono(book, b, last);
  }

  /**
   With coalescing, a collection before the earliest deadline would already fire something exactly
   when enough timers are due by the end of the window just before that deadline.  A caller that
   sleeps until the deadline reported has then slept past that moment.
   */
  lemma SleepsPastIff<W(!new)>(c: Coalescing, book: Book<W>, current: nat, deadline: nat)
    requires c.window > 0 && current < deadline && EarliestOf(book, current, Some(deadline))
    ensures (exists u: nat :: current <= u < deadline && WouldFire(c, book, u))
      <==> |DueBy(book, Boundary(c.window, deadline - 1))| >= c.Needed()
  {
    var last := Boundary(c.window, deadline - 1);
    if |DueBy(book, last)| >= c.Needed() { FiresAtLast(c, book, current, deadline, last); }
    if u: nat :| current <= u < deadline && WouldFire(c, book, u) {
      BoundaryMono(c.window, u, deadline - 1);
      FiresBefore(c, book, current, deadline, u, Boundary(c.window, u), last);
    }
  }
}
