/** Draining a list of entries: what is live and due fires, what is not due yet is put back. */
module WheelDrain {
  import opened WheelClock
  import opened WheelReach
  import opened WheelStorage
  import opened WheelTurn

  datatype Drained<W> = Drained(storage: Storage<W>, active: Active, fired: seq<Entry<W>>)

  ghost function Drain<W>(st: Storage<W>, ready: seq<Entry<W>>, active: Active, maxRange: nat, now: nat)
      : (r: Drained<W>)
    requires Shaped(st)
    ensures Shaped(r.storage) && r.storage.tick == st.tick
    decreases |ready|
  {
    if ready == [] then Drained(st, active, [])
    else
      var e := ready[0];
      if !IsLive(active, e) then Drain(st, ready[1..], active, maxRange, now)
      else if e.deadline <= now then
        var r := Drain(st, ready[1..], active - {e.id}, maxRange, now);
        r.(fired := [e] + r.fired)
      else Drain(Insert(st, maxRange, e), ready[1..], active, maxRange, now)
  }

  function WakersOf<W>(fired: seq<Entry<W>>): (ws: seq<W>)
    ensures |ws| == |fired| && forall i :: 0 <= i < |ws| ==> ws[i] == fired[i].waker
  {
    if fired == [] then [] else [fired[0].waker] + WakersOf(fired[1..])
  }

  lemma {:induction false} WakersSnoc<W>(fired: seq<Entry<W>>, e: Entry<W>)
    ensures WakersOf(fired + [e]) == WakersOf(fired) + [e.waker]
  {
    if fired != [] {
      assert (fired + [e])[1..] == fired[1..] + [e];
      WakersSnoc(fired[1..], e);
    }
  }

  /** One round of the loop of `drain_ready`. */
  method DrainOne<W>(st0: Storage<W>, ready: seq<Entry<W>>, active0: Active, maxRange: nat, now: nat)
      returns (st: Storage<W>, active: Active, fired: seq<Entry<W>>)
    requires Shaped(st0) && ready != []
    ensures Shaped(st) && |fired| <= 1
    ensures var rest := Drain(st, ready[1..], active, maxRange, now);
      Drain(st0, ready, active0, maxRange, now) == rest.(fired := fired + rest.fired)
  {
    st, active, fired := st0, active0, [];
    var e := ready[0];
    if IsLive(active, e) {
      if e.deadline <= now {
        active, fired := active - {e.id}, [e];
      } else {
        st := InsertEntry(st, maxRange, e);
      }
    }
  }

  /** The loop of `drain_ready`. */
  method DrainList<W>(st0: Storage<W>, list: seq<Entry<W>>, active0: Active, maxRange: nat, now: nat)
      returns (st: Storage<W>, active: Active, wakers: seq<W>)
    requires Shaped(st0)
    ensures var r := Drain(st0, list, active0, maxRange, now);
      st == r.storage && active == r.active && wakers == WakersOf(r.fired)
  {
    var ready := list;
    st, active, wakers := st0, active0, [];
    ghost var fired: seq<Entry<W>> := [];
    ghost var whole := Drain(st, ready, active, maxRange, now);
    while ready != []
      invariant Shaped(st) && wakers == WakersOf(fired)
      invariant var rest := Drain(st, ready, active, maxRange, now); whole == rest.(fired := fired + rest.fired)
      decreases |ready|
    {
      var one;
      st, active, one := DrainOne(st, ready, active, maxRange, now);
      ready := ready[1..];
      if one != [] {
        WakersSnoc(fired, one[0]);
        wakers, fired := wakers + [one[0].waker], fired + [one[0]];
      }
    }
    assert fired + [] == fired;
  }

  lemma {:induction false} DrainAtRest<W>(st: Storage<W>, ready: seq<Entry<W>>, active: Active, maxRange: nat, now: nat)
    requires AtRest(st, maxRange) && maxRange <= PHYSICAL_RANGE
    ensures Shaped(st) && AtRest(Drain(st, ready, active, maxRange, now).storage, maxRange)
    decreases |ready|
  {
    if ready != [] {
      var e := ready[0];
      if !IsLive(active, e) {
        DrainAtRest(st, ready[1..], active, maxRange, now);
      } else if e.deadline <= now {
        DrainAtRest(st, ready[1..], active - {e.id}, maxRange, now);
      } else {
        InsertAtRest(st, maxRange, e);
        DrainAtRest(Insert(st, maxRange, e), ready[1..], active, maxRange, now);
      }
    }
  }

  /** Whatever is stored afterwards was stored before, or was on the list and is not due. */
  lemma {:induction false} DrainStored<W>(st: Storage<W>, ready: seq<Entry<W>>, active: Active, maxRange: nat, now: nat,
                                          x: Entry<W>)
    requires Shaped(st)
    ensures Stored(Drain(st, ready, active, maxRange, now).storage, x) ==>
      Stored(st, x) || (x in ready && x.deadline > now)
    decreases |ready|
  {
    if ready != [] {
      var e := ready[0];
      if !IsLive(active, e) {
        DrainStored(st, ready[1..], active, maxRange, now, x);
      } else if e.deadline <= now {
        DrainStored(st, ready[1..], active - {e.id}, maxRange, now, x);
      } else {
        InsertStored(st, maxRange, e, x);
        DrainStored(Insert(st, maxRange, e), ready[1..], active, maxRange, now, x);
      }
    }
  }

  /** Draining under the range is draining under the reach. */
  lemma {:induction false} DrainInReach<W>(st: Storage<W>, ready: seq<Entry<W>>, active: Active, maxRange: nat,
                                           maxTimer: nat, now: nat)
    requires Shaped(st) && forall e :: e in ready ==> e.deadline <= st.tick * MS + maxTimer
    ensures Drain(st, ready, active, maxRange, now) == Drain(st, ready, active, Reach(maxRange, maxTimer), now)
    decreases |ready|
  {
    if ready != [] {
      var e, rest := ready[0], ready[1..];
      if !IsLive(active, e) {
        DrainInReach(st, rest, active, maxRange, maxTimer, now);
      } else if e.deadline <= now {
        DrainInReach(st, rest, active - {e.id}, maxRange, maxTimer, now);
      } else {
        InsertInReach(st, maxRange, maxTimer, e);
        DrainInReach(Insert(st, maxRange, e), rest, active, maxRange, maxTimer, now);
      }
    }
  }
}
