/** The producer/consumer protocol always finishes when every thread keeps getting turns. */
module MpmcLiveness {
  import opened Counting
  import opened Mpmc

  function ProducerSteps(p: Producer): nat { 3 * p.pushed + p.stage }

  function ConsumerSteps(c: Consumer): nat {
    match c
    case Dequeue => 1
    case Uncount => 2
    case Tally => 3
    case _ => 0
  }

  /** The number of steps made so far that brought some item closer to being counted. */
  function Progress(s: State): nat {
    Sum(s.producers, ProducerSteps) + Sum(s.consumers, ConsumerSteps) + 4 * s.consumed
  }

  /** Within its next k turns this thread makes progress, unless another does first. */
  predicate Ripe(s: State, e: Event, k: nat) {
    match e
    case P(i) => Moves(s, i) && k >= 1
    case C(i) =>
      && i < |s.consumers|
      && match s.consumers[i]
         case Load => s.published > 0 && s.consumed < s.total && k >= 2
         case Reserve => s.published > 0 && k >= 1
         case Exited => false
         case _ => k >= 1
  }

  lemma ProducerProgress(s: State, i: nat)
    requires ProducersOk(s) && Moves(s, i)
    ensures Progress(StepProducer(s, i)) == Progress(s) + 1
  {
    SumUpdate(s.producers, i, StepProducer(s, i).producers[i], ProducerSteps);
  }

  /** A consumer's turn either makes progress or only moves that consumer between waiting states. */
  lemma ConsumerProgress(s: State, i: nat)
    requires QueueOk(s) && i < |s.consumers|
    ensures var s' := StepConsumer(s, i);
      || Progress(s') == Progress(s) + 1
      || (Progress(s') == Progress(s) && ConsumerSteps(s.consumers[i]) == 0
          && (s.consumers[i].Reserve? ==> s.published == 0)
          && s' == s.(consumers := s.consumers[i := s'.consumers[i]]))
  {
    ReservationBacked(s, i);
    SumUpdate(s.consumers, i, StepConsumer(s, i).consumers[i], ConsumerSteps);
  }

  lemma NeverBackwards(s: State, e: Event)
    requires Inv(s)
    ensures Progress(s) <= Progress(Step(s, e)) <= Progress(s) + 1
  {
    match e
    case P(i) => if Moves(s, i) { ProducerProgress(s, i); }
    case C(i) => if i < |s.consumers| { ConsumerProgress(s, i); }
  }

  lemma RipeStep(s: State, e: Event, k: nat, now: Event)
    requires Inv(s) && Ripe(s, e, k)
    ensures || Progress(Step(s, now)) > Progress(s)
            || (now != e && Ripe(Step(s, now), e, k))
            || (now == e && k >= 2 && Ripe(Step(s, now), e, k - 1))
  {
    match now
    case P(i) => if Moves(s, i) { ProducerProgress(s, i); }
    case C(i) => if i < |s.consumers| { ConsumerProgress(s, i); }
  }

  lemma {:induction false} RipeRun(s: State, schedule: seq<Event>, e: Event, k: nat)
    requires Inv(s) && Ripe(s, e, k) && Times(schedule, e) >= k
    ensures Progress(Run(s, schedule)) > Progress(s)
    decreases |schedule|
  {
    if schedule != [] {
      var s' := Step(s, schedule[0]);
      InvStep(s, schedule[0]);
      NeverBackwards(s, schedule[0]);
      RipeStep(s, e, k, schedule[0]);
      TimesFirst(schedule, e);
      if Progress(s') > Progress(s) {
        NeverBackwardsRun(s', schedule[1..]);
      } else if schedule[0] == e {
        RipeRun(s', schedule[1..], e, k - 1);
      } else {
        RipeRun(s', schedule[1..], e, k);
      }
    }
  }

  lemma {:induction false} NeverBackwardsRun(s: State, schedule: seq<Event>)
    requires Inv(s)
    ensures Progress(s) <= Progress(Run(s, schedule))
    decreases |schedule|
  {
    if schedule != [] {
      InvStep(s, schedule[0]);
      NeverBackwards(s, schedule[0]);
      NeverBackwardsRun(Step(s, schedule[0]), schedule[1..]);
    }
  }

  /** While items are uncounted the protocol is not stuck: some thread is two turns from progress. */
  lemma NotStuck(s: State) returns (e: Event)
    requires Inv(s) && Sized(s) && s.consumed < s.total && |s.consumers| >= 1
    ensures Ripe(s, e, 2)
    ensures e.P? ==> e.id < |s.producers|
    ensures e.C? ==> e.id < |s.consumers|
  {
    if i :| 0 <= i < |s.producers| && Moves(s, i) {
      e := P(i);
    } else if i :| 0 <= i < |s.consumers| && ConsumerSteps(s.consumers[i]) > 0 {
      e := C(i);
    } else {
      AllPublished(s);
      e := C(0);
    }
  }

  lemma AllPublished(s: State)
    requires Inv(s) && Sized(s) && s.consumed < s.total
    requires forall i :: 0 <= i < |s.producers| ==> !Moves(s, i)
    requires forall i :: 0 <= i < |s.consumers| ==> ConsumerSteps(s.consumers[i]) == 0
    ensures s.published > 0
  {
    forall i | 0 <= i < |s.producers|
      ensures !Publishing(s.producers[i]) && Placed(s.producers[i]) == s.perProducer
    {
      assert !Moves(s, i);
    }
    CountNone(s.consumers, Reserved);
    CountNone(s.consumers, Untallied);
    CountNone(s.producers, Publishing);
    SumConstant(s.producers, Placed, s.perProducer);
  }

  lemma {:induction false} SumConstant<T>(s: seq<T>, w: T -> nat, c: nat)
    requires forall i :: 0 <= i < |s| ==> w(s[i]) == c
    ensures Sum(s, w) == |s| * c
  {
    if s != [] {
      assert w(s[0]) == c;
      SumConstant(s[1..], w, c);
      assert |s| * c == c + |s[1..]| * c;
    }
  }

  /** Every thread gets at least two turns. */
  ghost predicate Fair(s: State, round: seq<Event>) {
    && (forall i: nat :: i < |s.producers| ==> Times(round, P(i)) >= 2)
    && (forall i: nat :: i < |s.consumers| ==> Times(round, C(i)) >= 2)
  }

  lemma FairRound(s: State, round: seq<Event>)
    requires Inv(s) && Sized(s) && s.consumed < s.total && |s.consumers| >= 1 && Fair(s, round)
    ensures Progress(Run(s, round)) > Progress(s)
  {
    var e := NotStuck(s);
    RipeRun(s, round, e, 2);
  }

  ghost predicate Finished(s: State) {
    && s.consumed == s.total
    && (forall i :: 0 <= i < |s.producers| ==> s.producers[i].pushed == s.perProducer)
    && (forall i :: 0 <= i < |s.consumers| ==> s.consumers[i].Exited?)
  }

  /** All items are counted and each consumer is on its way out. */
  ghost predicate Draining(s: State) {
    && s.consumed == s.total && s.published == 0
    && (forall i :: 0 <= i < |s.producers| ==> s.producers[i].pushed == s.perProducer)
    && (forall i :: 0 <= i < |s.consumers| ==> ConsumerSteps(s.consumers[i]) == 0)
  }

  lemma CountedMeansDraining(s: State)
    requires Inv(s) && Sized(s) && s.consumed >= s.total
    ensures Draining(s)
  {
    AllConsumedOnce(s, 0);
    forall i | 0 <= i < |s.producers| ensures s.producers[i].stage != 2 {
      CountUpdate(s.producers, i, s.producers[i], Publishing);
    }
    forall i | 0 <= i < |s.consumers| ensures ConsumerSteps(s.consumers[i]) == 0 {
      CountUpdate(s.consumers, i, s.consumers[i], Reserved);
      CountUpdate(s.consumers, i, s.consumers[i], Untallied);
    }
  }

  function ToExit(c: Consumer): nat {
    if c.Exited? then 0 else if c.Load? then 1 else 2
  }

  /** Two turns of each consumer empty the room. */
  lemma {:induction false} DrainingRun(s: State, schedule: seq<Event>, i: nat)
    requires Draining(s) && i < |s.consumers| && Times(schedule, C(i)) >= ToExit(s.consumers[i])
    ensures var s' := Run(s, schedule); |s'.consumers| == |s.consumers| && s'.consumers[i].Exited?
    decreases |schedule|
  {
    if schedule != [] {
      TimesFirst(schedule, C(i));
      DrainingStep(s, schedule[0]);
      DrainingRun(Step(s, schedule[0]), schedule[1..], i);
    }
  }

  lemma DrainingStep(s: State, e: Event)
    requires Draining(s)
    ensures var s' := Step(s, e);
      && Draining(s') && |s'.consumers| == |s.consumers|
      && forall i :: 0 <= i < |s.consumers| ==>
           if e == C(i) && !s.consumers[i].Exited?
           then ToExit(s'.consumers[i]) == ToExit(s.consumers[i]) - 1
           else s'.consumers[i] == s.consumers[i]
  {
  }

  lemma {:induction false} DrainingStays(s: State, schedule: seq<Event>)
    requires Draining(s)
    ensures Draining(Run(s, schedule))
    decreases |schedule|
  {
    if schedule != [] {
      DrainingStep(s, schedule[0]);
      DrainingStays(Step(s, schedule[0]), schedule[1..]);
    }
  }

  function RunRounds(s: State, rounds: seq<seq<Event>>): State
    decreases |rounds|
  {
    if rounds == [] then s else RunRounds(Run(s, rounds[0]), rounds[1..])
  }

  lemma ProgressAtMost(s: State)
    requires Inv(s) && Sized(s)
    ensures Progress(s) <= 7 * s.total
  {
    PoppedWithinTotal(s);
    ProducerStepsAtMost(s.producers, s.perProducer);
    ConsumerStepsAtMost(s.consumers);
  }

  lemma {:induction false} ProducerStepsAtMost(ps: seq<Producer>, k: nat)
    requires forall i :: 0 <= i < |ps| ==>
      ps[i].stage <= 2 && (ps[i].pushed < k || (ps[i].pushed == k && ps[i].stage == 0))
    ensures Sum(ps, ProducerSteps) <= 3 * (|ps| * k)
  {
    if ps != [] {
      ProducerStepsAtMost(ps[1..], k);
      assert |ps| * k == k + |ps[1..]| * k;
    }
  }

  lemma {:induction false} ConsumerStepsAtMost(cs: seq<Consumer>)
    ensures Sum(cs, ConsumerSteps) <= 4 * (Count(cs, Reserved) + Count(cs, Untallied))
  {
    if cs != [] { ConsumerStepsAtMost(cs[1..]); }
  }

  /**
   Termination: after more than 7 * total rounds in which every thread gets two turns, in any
   order and with any extra turns, all producers are done and all consumers have exited.
   */
  lemma {:induction false} FairRunsFinish(s: State, rounds: seq<seq<Event>>)
    requires Inv(s) && Sized(s) && |s.consumers| >= 1
    requires forall r :: 0 <= r < |rounds| ==> Fair(s, rounds[r])
    requires |rounds| > 7 * s.total - Progress(s)
    ensures Finished(RunRounds(s, rounds))
    decreases |rounds|
  {
    ProgressAtMost(s);
    var s' := Run(s, rounds[0]);
    InvRun(s, rounds[0]);
    if s.consumed < s.total {
      FairRound(s, rounds[0]);
      FairRunsFinish(s', rounds[1..]);
    } else {
      CountedMeansDraining(s);
      DrainingStays(s, rounds[0]);
      forall i | 0 <= i < |s.consumers| ensures s'.consumers[i].Exited? {
        DrainingRun(s, rounds[0], i);
      }
      FinishedStays(s', rounds[1..]);
    }
  }

  lemma {:induction false} FinishedStays(s: State, rounds: seq<seq<Event>>)
    requires Finished(s)
    ensures Finished(RunRounds(s, rounds))
    decreases |rounds|
  {
    if rounds != [] {
      FinishedRun(s, rounds[0]);
      FinishedStays(Run(s, rounds[0]), rounds[1..]);
    }
  }

  lemma {:induction false} FinishedRun(s: State, schedule: seq<Event>)
    requires Finished(s)
    ensures Run(s, schedule) == s
    decreases |schedule|
  {
    if schedule != [] {
      assert Step(s, schedule[0]) == s;
      FinishedRun(s, schedule[1..]);
    }
  }

  /** From the start: any fair run of 7 * producers * perProducer + 1 rounds finishes. */
  lemma ProtocolTerminates(producers: nat, consumers: nat, perProducer: nat, rounds: seq<seq<Event>>)
    requires consumers >= 1
    requires forall r :: 0 <= r < |rounds| ==> Fair(Init(producers, consumers, perProducer), rounds[r])
    requires |rounds| > 7 * (producers * perProducer)
    ensures Finished(RunRounds(Init(producers, consumers, perProducer), rounds))
  {
    InvInit(producers, consumers, perProducer);
    FairRunsFinish(Init(producers, consumers, perProducer), rounds);
  }
}
