/**
 One reliable processor is enough: while it answers 200 and the other never
 answers 422, no call of `process` is wasted, and n queued payments drain in exactly
 n calls, whatever happened before.
 */
module PipelineProgress {
  import opened Bytes
  import opened Failover
  import opened Ledger
  import opened Pipeline
  import opened PipelineSafety
  import S = PipelineSafety
  import R = WorkerRing
  import P = Payload

  /** Calls reach this processor: with the failover switched off only Default is called. */
  predicate Usable(c: Settings, good: Processor) {
    c.routing.enabled || good.Default?
  }

  /** In this step, `good` answers 200 and the other processor does not answer 422. */
  ghost predicate Reliable(good: Processor, st: State, step: Step) {
    step.Respond? && step.slot < |st.slots| ==>
      var x := st.slots[step.slot];
      (x.Sending? || x.Retrying? ==>
         var called := if x.Sending? then x.first else x.second;
         if called == good then step.answer.Ok() else step.answer.code != 422)
  }

  ghost predicate ReliableRun(c: Settings, good: Processor, st: State, steps: seq<Step>)
    requires WellShaped(st) && IsRun(c, st, steps)
    decreases |steps|
  {
    steps == [] ||
    (Reliable(good, st, steps[0]) &&
     (NextWellShaped(c, st, steps[0]); ReliableRun(c, good, Next(c, st, steps[0]), steps[1..])))
  }

  ghost predicate ArrivalFree(steps: seq<Step>) {
    forall i :: 0 <= i < |steps| ==> !steps[i].Accept?
  }

  lemma ArrivalFreeTail(steps: seq<Step>)
    requires ArrivalFree(steps) && steps != []
    ensures !steps[0].Accept? && ArrivalFree(steps[1..])
  {
    assert forall i :: 0 <= i < |steps| - 1 ==> steps[1..][i] == steps[i + 1];
  }

  // ---- No call is wasted ----

  /** A call under way is on its first attempt, or on its second with `good`, or has its success. */
  ghost predicate Hopeful(good: Processor, x: Slot) {
    && (x.Retrying? ==> x.second == good)
    && (x.Answered? ==> x.result.Stored?)
  }

  ghost predicate IsActive(x: Slot) {
    x.Sending? || x.Retrying? || x.Answered?
  }

  ghost function Activities(slots: seq<Slot>): (r: seq<int>)
    ensures |r| == |slots| && forall i :: 0 <= i < |slots| ==> r[i] == if IsActive(slots[i]) then 1 else 0
  {
    seq(|slots|, i requires 0 <= i < |slots| => if IsActive(slots[i]) then 1 else 0)
  }

  /** The calls of `process` that are under way. */
  ghost function Active(slots: seq<Slot>): int {
    S.Sum(Activities(slots))
  }

  lemma ActiveUpdate(slots: seq<Slot>, s: nat, x: Slot)
    requires s < |slots|
    ensures Active(slots[s := x]) == Active(slots) - (if IsActive(slots[s]) then 1 else 0) + if IsActive(x) then 1 else 0
  {
    var n := if IsActive(x) then 1 else 0;
    assert Activities(slots[s := x]) == Activities(slots)[s := n];
    SumUpdate(Activities(slots), s, n);
  }

  /** Since the history `base`, nothing was discarded, and every call of `process` has stored its
      payment or is under way. */
  ghost predicate NoCallWasted(good: Processor, base: History, st: State) {
    && (forall i :: 0 <= i < |st.slots| ==> Hopeful(good, st.slots[i]))
    && st.history.discarded == base.discarded
    && st.history.calls - base.calls == |st.history.log| - |base.log| + Active(st.slots)
  }

  ghost predicate AllIdle(st: State) {
    forall i :: 0 <= i < |st.slots| ==> st.slots[i].Idle?
  }

  lemma IdleWastesNothing(good: Processor, st: State)
    requires AllIdle(st)
    ensures NoCallWasted(good, st.history, st) && Active(st.slots) == 0 && forall w: Weight :: InFlight(st.slots, w) == 0
  {
    SumZero(Activities(st.slots));
    forall w: Weight
      ensures InFlight(st.slots, w) == 0
    {
      SumZero(SlotWeights(st.slots, w));
    }
  }

  lemma AnswerWastesNoCall(c: Settings, good: Processor, base: History, st: State, s: nat, a: Answer)
    requires s < |st.slots| && (st.slots[s].Sending? || st.slots[s].Retrying?) && SlotRouted(c, st.slots[s])
    requires Usable(c, good) && NoCallWasted(good, base, st) && Reliable(good, st, Respond(s, a))
    ensures NoCallWasted(good, base, DoRespond(c, st, s, a))
  {
    hide HandleResponse, Active;
    ActiveUpdate(st.slots, s, DoRespond(c, st, s, a).slots[s]);
  }

  lemma NextWastesNoCall(c: Settings, good: Processor, base: History, st: State, step: Step)
    requires WellShaped(st) && CanStep(c, st, step) && Usable(c, good) && Routed(c, st)
    requires NoCallWasted(good, base, st) && Reliable(good, st, step)
    ensures NoCallWasted(good, base, Next(c, st, step))
  {
    hide DoRespond, R.Put, R.Drop, R.Peek, P.Stamped, Refines, Aligned, P.IsBody, InWindow, Shaped, Active, Store, Amount, Reliable,
         QueueShaped;
    var st' := Next(c, st, step);
    match step
    case Accept(q, body) =>
    case Fetch(k) => ActiveUpdate(st.slots, k, st'.slots[k]);
    case StartPool(k) =>
      var n := PoolSlot(st);
      ActiveUpdate(st.slots, n, st.slots[k]);
      ActiveUpdate(st.slots[n := st.slots[k]], k, Idle);
    case Begin(s, now, ts) => ActiveUpdate(st.slots, s, st'.slots[s]);
    case Respond(s, a) =>
      assert SlotRouted(c, st.slots[s]);
      AnswerWastesNoCall(c, good, base, st, s, a);
    case Finish(s) =>
      assert Hopeful(good, st.slots[s]);
      ActiveUpdate(st.slots, s, Idle);
  }

  /** In every reliable run, arrivals included. */
  lemma {:induction false} ReliableRunWastesNoCall(c: Settings, good: Processor, base: History, st: State, steps: seq<Step>)
    requires WellShaped(st) && IsRun(c, st, steps) && ReliableRun(c, good, st, steps) && Usable(c, good)
    requires Routed(c, st) && NoCallWasted(good, base, st)
    ensures Routed(c, After(c, st, steps)) && NoCallWasted(good, base, After(c, st, steps))
    decreases |steps|
  {
    hide Routed, NoCallWasted, Next, CanStep, WellShaped, NoOverflow, Reliable;
    if steps != [] {
      NextWellShaped(c, st, steps[0]);
      NextRouted(c, st, steps[0]);
      NextWastesNoCall(c, good, base, st, steps[0]);
      ReliableRunWastesNoCall(c, good, base, Next(c, st, steps[0]), steps[1..]);
    }
  }

  // ---- Steps use up potential ----

  /** The most steps a slot's payment can still take. */
  ghost function StepsLeft(x: Slot, pool: bool): int {
    match x
    case Idle => 0
    case Held(_, _) => if pool then 4 else 5
    case Sending(_, _, _, _, _, _, _) => 3
    case Retrying(_, _, _, _, _, _, _) => 2
    case Answered(_, _, _, _, _, _) => 1
  }

  ghost function AllStepsLeft(slots: seq<Slot>): (r: seq<int>)
    ensures |r| == |slots| && forall i :: 0 <= i < |slots| ==> r[i] == StepsLeft(slots[i], i == |slots| - 1)
  {
    seq(|slots|, i requires 0 <= i < |slots| => StepsLeft(slots[i], i == |slots| - 1))
  }

  ghost function Potential(st: State): int {
    6 * Queued(st.queues, Each()) + S.Sum(AllStepsLeft(st.slots))
  }

  lemma StepsLeftUpdate(slots: seq<Slot>, s: nat, x: Slot)
    requires s < |slots|
    ensures S.Sum(AllStepsLeft(slots[s := x]))
            == S.Sum(AllStepsLeft(slots)) - StepsLeft(slots[s], s == |slots| - 1) + StepsLeft(x, s == |slots| - 1)
  {
    var n := StepsLeft(x, s == |slots| - 1);
    assert AllStepsLeft(slots[s := x]) == AllStepsLeft(slots)[s := n];
    SumUpdate(AllStepsLeft(slots), s, n);
  }

  lemma FetchUsesPotential(c: Settings, st: State, k: nat)
    requires WellShaped(st) && CanStep(c, st, Fetch(k))
    ensures Potential(Next(c, st, Fetch(k))) < Potential(st)
  {
    hide R.Put, R.Drop, R.Peek, Refines, Aligned, P.IsBody, InWindow, Shaped, Queued, AllStepsLeft, QueueWeight;
    var st' := Next(c, st, Fetch(k));
    assert QueueShaped(st.queues[k]);
    DropWeight(st.queues[k], Each());
    QueueUpdate(st.queues, k, st'.queues[k], Each());
    StepsLeftUpdate(st.slots, k, st'.slots[k]);
  }

  lemma StartPoolUsesPotential(c: Settings, st: State, k: nat)
    requires WellShaped(st) && CanStep(c, st, StartPool(k))
    ensures Potential(Next(c, st, StartPool(k))) < Potential(st)
  {
    hide Queued, AllStepsLeft, QueueShaped;
    var n := PoolSlot(st);
    StepsLeftUpdate(st.slots, n, st.slots[k]);
    StepsLeftUpdate(st.slots[n := st.slots[k]], k, Idle);
  }

  /** Without arrivals every step of a reliable run uses up potential. */
  lemma NextUsesPotential(c: Settings, good: Processor, base: History, st: State, step: Step)
    requires WellShaped(st) && CanStep(c, st, step) && !step.Accept? && NoCallWasted(good, base, st)
    ensures Potential(Next(c, st, step)) < Potential(st)
  {
    hide HandleResponse, R.Put, R.Drop, R.Peek, P.Stamped, Refines, Aligned, P.IsBody, InWindow, Shaped, Store, Amount, Queued,
         AllStepsLeft, QueueShaped, Active;
    match step
    case Fetch(k) => FetchUsesPotential(c, st, k);
    case StartPool(k) => StartPoolUsesPotential(c, st, k);
    case Begin(s, now, ts) => StepsLeftUpdate(st.slots, s, Next(c, st, step).slots[s]);
    case Respond(s, a) => StepsLeftUpdate(st.slots, s, Next(c, st, step).slots[s]);
    case Finish(s) =>
      assert Hopeful(good, st.slots[s]);
      StepsLeftUpdate(st.slots, s, Idle);
  }

  lemma QueuedNotNegative(st: State)
    ensures Queued(st.queues, Each()) >= 0
  {
    forall i | 0 <= i < |st.queues|
      ensures QueueWeights(st.queues, Each())[i] >= 0
    {
      if R.Fits(st.queues[i]) {
        SumNotNegative(Weights(R.Pending(st.queues[i]), Each()));
      }
    }
    SumNotNegative(QueueWeights(st.queues, Each()));
  }

  lemma PotentialNotNegative(st: State)
    ensures Potential(st) >= 0
  {
    QueuedNotNegative(st);
    SumNotNegative(AllStepsLeft(st.slots));
  }

  /** So a reliable run without arrivals is no longer than the potential it starts with. */
  lemma {:induction false} RunIsBounded(c: Settings, good: Processor, base: History, st: State, steps: seq<Step>)
    requires WellShaped(st) && IsRun(c, st, steps) && ReliableRun(c, good, st, steps) && Usable(c, good)
    requires Routed(c, st) && NoCallWasted(good, base, st) && ArrivalFree(steps)
    ensures |steps| <= Potential(st)
    decreases |steps|
  {
    hide Routed, NoCallWasted, Next, CanStep, WellShaped, NoOverflow, Reliable, Potential, ArrivalFree;
    if steps == [] {
      PotentialNotNegative(st);
    } else {
      NextWellShaped(c, st, steps[0]);
      NextRouted(c, st, steps[0]);
      NextWastesNoCall(c, good, base, st, steps[0]);
      ArrivalFreeTail(steps);
      NextUsesPotential(c, good, base, st, steps[0]);
      RunIsBounded(c, good, base, Next(c, st, steps[0]), steps[1..]);
    }
  }

  // ---- Runs go on until everything is stored ----

  /** Nothing is queued and nothing is in flight. */
  ghost predicate Drained(st: State) {
    AllIdle(st) && forall k :: 0 <= k < |st.queues| ==> R.IsEmpty(st.queues[k])
  }

  /** A step other than an arrival that may follow in a reliable run. */
  ghost predicate CanGoOn(c: Settings, good: Processor, st: State, step: Step)
    requires WellShaped(st)
  {
    !step.Accept? && CanStep(c, st, step) && NoOverflow(Next(c, st, step).queues) && Reliable(good, st, step)
  }

  /** While no call is wasted only an arrival can overflow a ring. */
  lemma NothingOverflows(c: Settings, good: Processor, base: History, st: State, step: Step)
    requires WellShaped(st) && CanStep(c, st, step) && !step.Accept? && NoCallWasted(good, base, st)
    ensures NoOverflow(Next(c, st, step).queues)
  {
    hide HandleResponse, R.Put, R.Peek, P.Stamped, P.IsBody, InWindow, Shaped, Store, Amount, Active;
    assert forall i :: 0 <= i < |st.queues| ==> QueueShaped(st.queues[i]);
    if step.Finish? {
      assert Hopeful(good, st.slots[step.slot]);
    }
  }

  /** Unless everything is stored, the run can go on. */
  lemma NeverStuck(c: Settings, good: Processor, base: History, st: State) returns (step: Step)
    requires WellShaped(st) && NoCallWasted(good, base, st) && !Drained(st)
    ensures CanGoOn(c, good, st, step)
  {
    hide QueueShaped, NoCallWasted, NoOverflow;
    if s :| 0 <= s < |st.slots| && !st.slots[s].Idle? {
      step := if st.slots[s].Held? then Begin(s, st.buckets.start, "")
              else if st.slots[s].Answered? then Finish(s)
              else Respond(s, Pipeline.Answer(true, 200, 1.0));
    } else {
      var k :| 0 <= k < |st.queues| && !R.IsEmpty(st.queues[k]);
      step := Fetch(k);
    }
    NothingOverflows(c, good, base, st, step);
  }

  /** From a state in which no call was wasted there is a reliable run without arrivals that stores
      everything. */
  lemma {:induction false} DrainingRun(c: Settings, good: Processor, base: History, st: State) returns (steps: seq<Step>)
    requires WellShaped(st) && Routed(c, st) && NoCallWasted(good, base, st) && Usable(c, good)
    ensures IsRun(c, st, steps) && ReliableRun(c, good, st, steps) && ArrivalFree(steps) && Drained(After(c, st, steps))
    decreases Potential(st)
  {
    hide Routed, NoCallWasted, Next, CanStep, WellShaped, NoOverflow, Reliable, Potential, Drained;
    if Drained(st) {
      return [];
    }
    var step := NeverStuck(c, good, base, st);
    NextWellShaped(c, st, step);
    NextRouted(c, st, step);
    NextWastesNoCall(c, good, base, st, step);
    NextUsesPotential(c, good, base, st, step);
    PotentialNotNegative(st);
    PotentialNotNegative(Next(c, st, step));
    var rest := DrainingRun(c, good, base, Next(c, st, step));
    steps := [step] + rest;
    assert steps[1..] == rest;
  }

  lemma {:induction false} ArrivalFreeAcceptsNothing(c: Settings, st: State, steps: seq<Step>)
    requires WellShaped(st) && IsRun(c, st, steps) && ArrivalFree(steps)
    ensures After(c, st, steps).history.accepted == st.history.accepted
    decreases |steps|
  {
    hide ArrivalFree, WellShaped, HandleResponse, Store, P.Stamped, R.Put, R.Drop, R.Peek, Amount;
    if steps != [] {
      ArrivalFreeTail(steps);
      NextWellShaped(c, st, steps[0]);
      ArrivalFreeAcceptsNothing(c, Next(c, st, steps[0]), steps[1..]);
    }
  }

  lemma DrainedHoldsNothing(st: State, w: Weight)
    requires Drained(st)
    ensures Queued(st.queues, w) == 0 && InFlight(st.slots, w) == 0 && Active(st.slots) == 0
  {
    IdleWastesNothing(Default, st);
    forall i | 0 <= i < |st.queues|
      ensures QueueWeights(st.queues, w)[i] == 0
    {
      assert R.IsEmpty(st.queues[i]);
      if R.Fits(st.queues[i]) {
        assert R.Pending(st.queues[i]) == [];
      }
    }
    SumZero(QueueWeights(st.queues, w));
  }

  lemma {:induction false} CountedEach(log: seq<Entry>)
    ensures Counted(log, Each()) == |log|
  {
    if log != [] {
      CountedEach(log[..|log| - 1]);
    }
  }

  /** The main result. Take any reachable state in which every thread is idle, whatever outages came
      before, and let n payments be queued in it. Every reliable run without arrivals from there that
      cannot go on has drained: it has made exactly n calls of `process`, stored exactly the n queued
      payments, each once, and discarded nothing. Such a run exists, and no run takes more than
      6n steps. */
  lemma OneCallEach(c: Settings, good: Processor, st: State, steps: seq<Step>, w: Weight)
    requires Reachable(c, st) && WellShaped(st) && AllIdle(st) && Usable(c, good)
    requires IsRun(c, st, steps) && ReliableRun(c, good, st, steps) && ArrivalFree(steps)
    ensures var n := Queued(st.queues, Each());
            var r := After(c, st, steps);
            && |steps| <= 6 * n
            && ((forall step :: !CanGoOn(c, good, r, step)) <==> Drained(r))
            && (Drained(r) ==>
                  && r.history.calls == st.history.calls + n
                  && |r.history.log| == |st.history.log| + n
                  && Counted(r.history.log, w) == Counted(st.history.log, w) + Queued(st.queues, w)
                  && r.history.discarded == st.history.discarded)
  {
    hide WellShaped, Genuine, IsRun, ReliableRun, After, Queued, InFlight, SuccessesCounted, Reachable, ArrivalFree, Active,
         Discarded, Counted, AcceptedWeight, Routed, Drained, CanGoOn, AllIdle;
    var r := After(c, st, steps);
    IdleWastesNothing(good, st);
    SlotsIdleUseNothing(st);
    ReachableHolds(c, st, w);
    RunKeeps(c, st, steps, w);
    ReachableHolds(c, st, Each());
    RunKeeps(c, st, steps, Each());
    ArrivalFreeAcceptsNothing(c, st, steps);
    ReliableRunWastesNoCall(c, good, st.history, st, steps);
    RunIsBounded(c, good, st.history, st, steps);
    if Drained(r) {
      DrainedHoldsNothing(r, w);
      DrainedHoldsNothing(r, Each());
      CountedEach(st.history.log);
      CountedEach(r.history.log);
      DrainedCannotGoOn(c, good, r);
    } else {
      var step := NeverStuck(c, good, st.history, r);
    }
  }

  lemma SlotsIdleUseNothing(st: State)
    requires AllIdle(st)
    ensures Potential(st) == 6 * Queued(st.queues, Each())
  {
    hide Queued;
    SumZero(AllStepsLeft(st.slots));
  }

  lemma DrainedCannotGoOn(c: Settings, good: Processor, st: State)
    requires WellShaped(st) && Drained(st)
    ensures forall step :: !CanGoOn(c, good, st, step)
  {
    hide NoOverflow, Next, QueueShaped;
  }

  /** And the draining run exists. */
  lemma PaymentsDrain(c: Settings, good: Processor, st: State) returns (steps: seq<Step>)
    requires Reachable(c, st) && WellShaped(st) && AllIdle(st) && Usable(c, good)
    ensures IsRun(c, st, steps) && ReliableRun(c, good, st, steps) && ArrivalFree(steps) && Drained(After(c, st, steps))
    ensures var n := Queued(st.queues, Each());
            var r := After(c, st, steps);
            |steps| <= 6 * n && r.history.calls == st.history.calls + n && |r.history.log| == |st.history.log| + n
  {
    hide WellShaped, Genuine, IsRun, ReliableRun, After, Queued, SuccessesCounted, Reachable, ArrivalFree, Routed, Drained, AllIdle,
         NoCallWasted, Conserved, CanGoOn;
    IdleWastesNothing(good, st);
    ReachableHolds(c, st, Each());
    steps := DrainingRun(c, good, st.history, st);
    OneCallEach(c, good, st, steps, Each());
  }
}
