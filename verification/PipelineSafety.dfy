/**
 What every run of the pipeline keeps: no payment is lost, duplicated or counted
 twice, the buckets account for every success, and every request carries the body
 that was accepted.
 */
module PipelineSafety {
  import opened Bytes
  import opened Failover
  import opened Ledger
  import opened Pipeline
  import R = WorkerRing
  import P = Payload

  // ---- Sums ----

  ghost function Sum(ns: seq<int>): int {
    if ns == [] then 0 else ns[0] + Sum(ns[1..])
  }

  lemma {:induction false} SumUpdate(ns: seq<int>, i: nat, n: int)
    requires i < |ns|
    ensures Sum(ns[i := n]) == Sum(ns) - ns[i] + n
  {
    if i == 0 {
      assert ns[i := n][1..] == ns[1..];
    } else {
      assert ns[i := n][1..] == ns[1..][i - 1 := n];
      SumUpdate(ns[1..], i - 1, n);
    }
  }

  lemma {:induction false} SumAppend(ns: seq<int>, n: int)
    ensures Sum(ns + [n]) == Sum(ns) + n
  {
    if ns == [] {
      assert ns + [n] == [n];
    } else {
      assert (ns + [n])[1..] == ns[1..] + [n];
      SumAppend(ns[1..], n);
    }
  }

  lemma {:induction false} SumZero(ns: seq<int>)
    requires forall i :: 0 <= i < |ns| ==> ns[i] == 0
    ensures Sum(ns) == 0
  {
    if ns != [] {
      SumZero(ns[1..]);
    }
  }

  /** A weight for every payment. Weight one everywhere counts payments; weight one at a single
      payment and zero elsewhere says how often that payment occurs. */
  type Weight = nat -> int

  // ---- Where payments are ----

  ghost function Weights(ps: seq<Payment>, w: Weight): (r: seq<int>)
    ensures |r| == |ps| && forall i :: 0 <= i < |ps| ==> r[i] == w(ps[i].id)
  {
    seq(|ps|, i requires 0 <= i < |ps| => w(ps[i].id))
  }

  ghost function QueueWeight(q: R.Ring<Payment>, w: Weight): int {
    if R.Fits(q) then Sum(Weights(R.Pending(q), w)) else 0
  }

  ghost function SlotWeight(x: Slot, w: Weight): int {
    if x.Idle? then 0 else w(x.payment.id)
  }

  /** A call that has its success from `p` and has not yet stored it. */
  ghost function WinWeight(x: Slot, p: Processor, w: Weight): int {
    if x.Answered? && x.result == Stored(p) then w(x.payment.id) else 0
  }

  ghost function QueueWeights(queues: seq<R.Ring<Payment>>, w: Weight): (r: seq<int>)
    ensures |r| == |queues| && forall i :: 0 <= i < |queues| ==> r[i] == QueueWeight(queues[i], w)
  {
    seq(|queues|, i requires 0 <= i < |queues| => QueueWeight(queues[i], w))
  }

  ghost function SlotWeights(slots: seq<Slot>, w: Weight): (r: seq<int>)
    ensures |r| == |slots| && forall i :: 0 <= i < |slots| ==> r[i] == SlotWeight(slots[i], w)
  {
    seq(|slots|, i requires 0 <= i < |slots| => SlotWeight(slots[i], w))
  }

  ghost function WinWeights(slots: seq<Slot>, p: Processor, w: Weight): (r: seq<int>)
    ensures |r| == |slots| && forall i :: 0 <= i < |slots| ==> r[i] == WinWeight(slots[i], p, w)
  {
    seq(|slots|, i requires 0 <= i < |slots| => WinWeight(slots[i], p, w))
  }

  ghost function Queued(queues: seq<R.Ring<Payment>>, w: Weight): int {
    Sum(QueueWeights(queues, w))
  }

  ghost function InFlight(slots: seq<Slot>, w: Weight): int {
    Sum(SlotWeights(slots, w))
  }

  ghost function Winning(slots: seq<Slot>, p: Processor, w: Weight): int {
    Sum(WinWeights(slots, p, w))
  }

  ghost function Discarded(ids: seq<nat>, w: Weight): int {
    if ids == [] then 0 else Discarded(ids[..|ids| - 1], w) + w(ids[|ids| - 1])
  }

  ghost function Counted(log: seq<Entry>, w: Weight): int {
    if log == [] then 0 else Counted(log[..|log| - 1], w) + w(log[|log| - 1].id)
  }

  ghost function CountedBy(log: seq<Entry>, p: Processor, w: Weight): int {
    if log == [] then 0
    else
      var e := log[|log| - 1];
      CountedBy(log[..|log| - 1], p, w) + if e.processor == p then w(e.id) else 0
  }

  ghost function SuccessesOf(ss: seq<Success>, p: Processor, w: Weight): int {
    if ss == [] then 0
    else
      var s := ss[|ss| - 1];
      SuccessesOf(ss[..|ss| - 1], p, w) + if s.processor == p then w(s.id) else 0
  }

  ghost function AcceptedWeight(n: nat, w: Weight): int {
    if n == 0 then 0 else AcceptedWeight(n - 1, w) + w(n - 1)
  }

  // ---- The invariants ----

  /** What is queued, in flight, discarded and counted is what was accepted. */
  ghost predicate Conserved(st: State, w: Weight) {
    Queued(st.queues, w) + InFlight(st.slots, w) + Discarded(st.history.discarded, w) + Counted(st.history.log, w)
    == AcceptedWeight(|st.history.accepted|, w)
  }

  /** Every success of a processor is in the log, or about to be. */
  ghost predicate SuccessesCounted(st: State, p: Processor, w: Weight) {
    SuccessesOf(st.history.successes, p, w) == CountedBy(st.history.log, p, w) + Winning(st.slots, p, w)
  }

  ghost predicate IsAccepted(h: History, p: Payment) {
    p.id < |h.accepted| && p.body == h.accepted[p.id]
  }

  ghost predicate SlotGenuine(h: History, x: Slot) {
    x.Idle? || (IsAccepted(h, x.payment)
                && (!x.Held? ==> P.IsBody(x.payment.body) && P.IsTimestamp(x.ts) && x.payload == P.Stamped(x.payment.body, x.ts)))
  }

  ghost predicate QueueGenuine(h: History, q: R.Ring<Payment>) {
    R.Fits(q) ==> forall k :: 0 <= k < q.tail - q.head ==> IsAccepted(h, R.Pending(q)[k])
  }

  ghost predicate SendGenuine(h: History, s: Send) {
    && s.id < |h.accepted| && P.IsBody(h.accepted[s.id]) && P.IsTimestamp(s.ts)
    && s.payload == P.Stamped(h.accepted[s.id], s.ts)
  }

  ghost predicate EntryGenuine(c: Settings, h: History, e: Entry) {
    e.id < |h.accepted| && e.amount == Amount(c, h.accepted[e.id])
  }

  /** Payments are what was accepted, requests carry them with one timestamp, and amounts are theirs. */
  ghost predicate Genuine(c: Settings, st: State) {
    && (forall i :: 0 <= i < |st.queues| ==> QueueGenuine(st.history, st.queues[i]))
    && (forall i :: 0 <= i < |st.slots| ==> SlotGenuine(st.history, st.slots[i]))
    && (forall k :: 0 <= k < |st.history.sends| ==> SendGenuine(st.history, st.history.sends[k]))
    && (forall k :: 0 <= k < |st.history.log| ==> EntryGenuine(c, st.history, st.history.log[k]))
  }

  /** Without a fallback only Default is ever used; the two attempts of a call differ. */
  ghost predicate SlotRouted(c: Settings, x: Slot) {
    && (x.Sending? ==> x.second == Other(x.first) && (!c.routing.enabled ==> x.first.Default?))
    && (x.Retrying? ==> c.routing.enabled && x.firstCode != 422)
    && (x.Answered? && x.result.Stored? && !c.routing.enabled ==> x.result.processor.Default?)
  }

  ghost predicate Routed(c: Settings, st: State) {
    && Aligned(c.routing, st.routing)
    && (forall i :: 0 <= i < |st.slots| ==> SlotRouted(c, st.slots[i]))
    && Refines(st.buckets, st.history.log)
    && |st.slots| > 0 && (st.poolRunning <==> !st.slots[PoolSlot(st)].Idle?)
    && (st.poolRunning ==> c.routing.enabled)
  }

  // ---- How updates move payments ----

  lemma SlotUpdate(slots: seq<Slot>, s: nat, x: Slot, w: Weight)
    requires s < |slots|
    ensures InFlight(slots[s := x], w) == InFlight(slots, w) - SlotWeight(slots[s], w) + SlotWeight(x, w)
  {
    assert SlotWeights(slots[s := x], w) == SlotWeights(slots, w)[s := SlotWeight(x, w)];
    SumUpdate(SlotWeights(slots, w), s, SlotWeight(x, w));
  }

  lemma WinUpdate(slots: seq<Slot>, s: nat, x: Slot, p: Processor, w: Weight)
    requires s < |slots|
    ensures Winning(slots[s := x], p, w) == Winning(slots, p, w) - WinWeight(slots[s], p, w) + WinWeight(x, p, w)
  {
    assert WinWeights(slots[s := x], p, w) == WinWeights(slots, p, w)[s := WinWeight(x, p, w)];
    SumUpdate(WinWeights(slots, p, w), s, WinWeight(x, p, w));
  }

  lemma QueueUpdate(queues: seq<R.Ring<Payment>>, q: nat, r: R.Ring<Payment>, w: Weight)
    requires q < |queues|
    ensures Queued(queues[q := r], w) == Queued(queues, w) - QueueWeight(queues[q], w) + QueueWeight(r, w)
  {
    hide QueueWeight;
    assert QueueWeights(queues[q := r], w) == QueueWeights(queues, w)[q := QueueWeight(r, w)];
    SumUpdate(QueueWeights(queues, w), q, QueueWeight(r, w));
  }

  lemma PutWeight(q: R.Ring<Payment>, p: Payment, w: Weight)
    requires R.Fits(q) && R.Fits(R.Put(q, p))
    ensures QueueWeight(R.Put(q, p), w) == QueueWeight(q, w) + w(p.id)
  {
    hide R.Pending;
    R.PutPending(q, p);
    assert Weights(R.Pending(R.Put(q, p)), w) == Weights(R.Pending(q), w) + [w(p.id)];
    SumAppend(Weights(R.Pending(q), w), w(p.id));
  }

  lemma DropWeight(q: R.Ring<Payment>, w: Weight)
    requires R.Fits(q) && !R.IsEmpty(q)
    ensures QueueWeight(R.Drop(q), w) == QueueWeight(q, w) - w(R.Peek(q).id)
  {
    hide R.Pending;
    R.DropPending(q);
    var rest := Weights(R.Pending(R.Drop(q)), w);
    assert Weights(R.Pending(q), w) == [w(R.Peek(q).id)] + rest;
    assert ([w(R.Peek(q).id)] + rest)[1..] == rest;
  }

  // ---- Each step keeps them ----

  lemma AnswerConserves(c: Settings, st: State, s: nat, a: Answer, w: Weight)
    requires s < |st.slots| && (st.slots[s].Sending? || st.slots[s].Retrying?) && Conserved(st, w)
    ensures Conserved(DoRespond(c, st, s, a), w)
  {
    hide HandleResponse, Queued, InFlight, Discarded, Counted, AcceptedWeight;
    SlotUpdate(st.slots, s, DoRespond(c, st, s, a).slots[s], w);
  }

  lemma FinishConserves(c: Settings, st: State, s: nat, w: Weight)
    requires WellShaped(st) && s < |st.slots| && st.slots[s].Answered?
    requires NoOverflow(DoFinish(c, st, s).queues) && Conserved(st, w)
    ensures Conserved(DoFinish(c, st, s), w)
  {
    hide R.Put, Store, P.IsBody, InWindow, Shaped, Queued, InFlight, QueueWeight, Amount;
    var x, st' := st.slots[s], DoFinish(c, st, s);
    SlotUpdate(st.slots, s, Idle, w);
    if x.result.TryAgain? {
      assert R.Fits(st'.queues[x.worker]) && QueueShaped(st.queues[x.worker]);
      PutWeight(st.queues[x.worker], x.payment, w);
      QueueUpdate(st.queues, x.worker, st'.queues[x.worker], w);
    }
  }

  lemma StartPoolConserves(st: State, k: nat, w: Weight)
    requires |st.slots| > 0 && k < PoolSlot(st) && st.slots[k].Held? && st.slots[PoolSlot(st)].Idle? && Conserved(st, w)
    ensures Conserved(DoStartPool(st, k), w)
  {
    hide Queued, InFlight, Discarded, Counted, AcceptedWeight;
    var n := PoolSlot(st);
    SlotUpdate(st.slots, n, st.slots[k], w);
    SlotUpdate(st.slots[n := st.slots[k]], k, Idle, w);
  }

  lemma NextConserves(c: Settings, st: State, step: Step, w: Weight)
    requires WellShaped(st) && CanStep(c, st, step) && NoOverflow(Next(c, st, step).queues)
    requires Conserved(st, w) && Routed(c, st)
    ensures Conserved(Next(c, st, step), w)
  {
    hide DoRespond, DoFinish, DoStartPool, R.Put, R.Drop, R.Peek, P.Stamped, Refines, Aligned, SlotRouted, P.IsBody, InWindow,
         Queued, InFlight, QueueWeight, Shaped;
    var st' := Next(c, st, step);
    match step
    case Accept(q, body) =>
      assert R.Fits(st'.queues[q]) && QueueShaped(st.queues[q]);
      PutWeight(st.queues[q], Payment(|st.history.accepted|, body), w);
      QueueUpdate(st.queues, q, st'.queues[q], w);
    case Fetch(k) =>
      assert QueueShaped(st.queues[k]);
      DropWeight(st.queues[k], w);
      QueueUpdate(st.queues, k, st'.queues[k], w);
      SlotUpdate(st.slots, k, st'.slots[k], w);
    case StartPool(k) => StartPoolConserves(st, k, w);
    case Begin(s, now, ts) => SlotUpdate(st.slots, s, st'.slots[s], w);
    case Respond(s, a) => AnswerConserves(c, st, s, a, w);
    case Finish(s) => FinishConserves(c, st, s, w);
  }

  lemma AnswerCountsSuccesses(c: Settings, st: State, s: nat, a: Answer, p: Processor, w: Weight)
    requires s < |st.slots| && (st.slots[s].Sending? || st.slots[s].Retrying?) && SuccessesCounted(st, p, w)
    ensures SuccessesCounted(DoRespond(c, st, s, a), p, w)
  {
    hide HandleResponse, Winning, CountedBy;
    WinUpdate(st.slots, s, DoRespond(c, st, s, a).slots[s], p, w);
  }

  lemma FinishCountsSuccesses(c: Settings, st: State, s: nat, p: Processor, w: Weight)
    requires WellShaped(st) && s < |st.slots| && st.slots[s].Answered? && SuccessesCounted(st, p, w)
    ensures SuccessesCounted(DoFinish(c, st, s), p, w)
  {
    hide R.Put, Store, P.IsBody, InWindow, Shaped, Winning, Amount, SuccessesOf;
    WinUpdate(st.slots, s, Idle, p, w);
  }

  lemma StartPoolCountsSuccesses(st: State, k: nat, p: Processor, w: Weight)
    requires |st.slots| > 0 && k < PoolSlot(st) && st.slots[k].Held? && st.slots[PoolSlot(st)].Idle?
    requires SuccessesCounted(st, p, w)
    ensures SuccessesCounted(DoStartPool(st, k), p, w)
  {
    hide Winning, CountedBy, SuccessesOf;
    var n := PoolSlot(st);
    WinUpdate(st.slots, n, st.slots[k], p, w);
    WinUpdate(st.slots[n := st.slots[k]], k, Idle, p, w);
  }

  lemma NextCountsSuccesses(c: Settings, st: State, step: Step, p: Processor, w: Weight)
    requires WellShaped(st) && CanStep(c, st, step)
    requires SuccessesCounted(st, p, w) && Routed(c, st)
    ensures SuccessesCounted(Next(c, st, step), p, w)
  {
    hide DoRespond, DoFinish, DoStartPool, R.Put, R.Drop, R.Peek, P.Stamped, Refines, Aligned, SlotRouted, P.IsBody, InWindow, Shaped,
         Winning, SuccessesOf, CountedBy;
    var st' := Next(c, st, step);
    match step
    case Accept(q, body) =>
    case Fetch(k) => WinUpdate(st.slots, k, st'.slots[k], p, w);
    case StartPool(k) => StartPoolCountsSuccesses(st, k, p, w);
    case Begin(s, now, ts) => WinUpdate(st.slots, s, st'.slots[s], p, w);
    case Respond(s, a) => AnswerCountsSuccesses(c, st, s, a, p, w);
    case Finish(s) => FinishCountsSuccesses(c, st, s, p, w);
  }

  lemma NextRouted(c: Settings, st: State, step: Step)
    requires WellShaped(st) && CanStep(c, st, step) && Routed(c, st)
    ensures Routed(c, Next(c, st, step))
  {
    hide DoFinish, HandleResponse, R.Put, R.Drop, R.Peek, P.Stamped, Refines, P.IsBody, InWindow, Shaped, QueueShaped, Url;
    match step
    case Accept(q, body) =>
    case Fetch(k) =>
    case StartPool(k) =>
    case Begin(s, now, ts) =>
    case Respond(s, a) => AnswerRouted(c, st, s, a);
    case Finish(s) => FinishRouted(c, st, s);
  }

  lemma AnswerRouted(c: Settings, st: State, s: nat, a: Answer)
    requires s < |st.slots| && (st.slots[s].Sending? || st.slots[s].Retrying?) && Routed(c, st)
    ensures Routed(c, DoRespond(c, st, s, a))
  {
    hide HandleResponse, Refines, Aligned;
    var x := st.slots[s];
    assert SlotRouted(c, x);
    var reset := st.routing.(evaluated := false);
    assert Aligned(c.routing, reset) by { ReactKeepsAligned(c.routing, st.routing, ProbeAnswered); }
    var p := if x.Sending? then x.first else x.second;
    ReactKeepsAligned(c.routing, st.routing, Failover.Answer(p, a.elapsed, a.code));
    ReactKeepsAligned(c.routing, reset, Failover.Answer(p, a.elapsed, a.code));
  }

  lemma FinishRouted(c: Settings, st: State, s: nat)
    requires WellShaped(st) && s < |st.slots| && st.slots[s].Answered? && Routed(c, st)
    ensures Routed(c, DoFinish(c, st, s))
  {
    hide R.Put, P.IsBody, Refines, Aligned, Store, Amount;
    var x := st.slots[s];
    assert SlotRouted(c, x) && SlotShaped(st.buckets, |st.queues|, x);
    if x.result.Stored? {
      StoreRefines(st.buckets, st.history.log, c.routing.enabled,
                   Entry(x.payment.id, x.result.processor, x.at, Amount(c, x.payload)));
    }
  }

  // ---- Payments are genuine ----

  /** The history only grows. */
  lemma GenuineGrows(c: Settings, h: History, h': History)
    requires h.accepted <= h'.accepted
    ensures forall p :: IsAccepted(h, p) ==> IsAccepted(h', p)
    ensures forall q :: QueueGenuine(h, q) ==> QueueGenuine(h', q)
    ensures forall x :: SlotGenuine(h, x) ==> SlotGenuine(h', x)
    ensures forall s :: SendGenuine(h, s) ==> SendGenuine(h', s)
    ensures forall e :: EntryGenuine(c, h, e) ==> EntryGenuine(c, h', e)
  {
  }

  lemma PutGenuine(h: History, q: R.Ring<Payment>, p: Payment)
    requires R.Fits(q) && R.Fits(R.Put(q, p)) && QueueGenuine(h, q) && IsAccepted(h, p)
    ensures QueueGenuine(h, R.Put(q, p))
  {
    hide R.Pending, IsAccepted;
    R.PutPending(q, p);
  }

  lemma DropGenuine(h: History, q: R.Ring<Payment>)
    requires R.Fits(q) && !R.IsEmpty(q) && QueueGenuine(h, q)
    ensures QueueGenuine(h, R.Drop(q)) && IsAccepted(h, R.Peek(q))
  {
    hide R.Pending, IsAccepted;
    R.DropPending(q);
    assert R.Pending(q)[0] == R.Peek(q);
    forall k | 0 <= k < R.Drop(q).tail - R.Drop(q).head
      ensures IsAccepted(h, R.Pending(R.Drop(q))[k])
    {
      assert R.Pending(R.Drop(q))[k] == R.Pending(q)[k + 1];
    }
  }

  lemma NextGenuine(c: Settings, st: State, step: Step)
    requires WellShaped(st) && CanStep(c, st, step) && NoOverflow(Next(c, st, step).queues) && Genuine(c, st)
    ensures Genuine(c, Next(c, st, step))
  {
    hide DoFinish, DoRespond, R.Put, R.Drop, R.Peek, R.Pending, P.Stamped, P.IsBody, P.IsTimestamp, InWindow, Shaped,
         QueueGenuine, EntryGenuine;
    var st' := Next(c, st, step);
    match step
    case Accept(q, body) => AcceptGenuine(c, st, q, body);
    case Fetch(k) =>
      assert QueueShaped(st.queues[k]) && QueueGenuine(st.history, st.queues[k]);
      DropGenuine(st.history, st.queues[k]);
    case StartPool(k) =>
    case Begin(s, now, ts) => BeginGenuine(c, st, s, now, ts);
    case Respond(s, a) => AnswerGenuine(c, st, s, a);
    case Finish(s) => FinishGenuine(c, st, s);
  }

  lemma AcceptGenuine(c: Settings, st: State, q: nat, body: string)
    requires q < |st.queues| && R.Fits(st.queues[q]) && P.IsBody(body) && Genuine(c, st)
    requires R.Fits(DoAccept(st, q, body).queues[q])
    ensures Genuine(c, DoAccept(st, q, body))
  {
    hide R.Put, QueueGenuine, SlotGenuine, SendGenuine, EntryGenuine;
    var st' := DoAccept(st, q, body);
    GenuineGrows(c, st.history, st'.history);
    PutGenuine(st'.history, st.queues[q], Payment(|st.history.accepted|, body));
  }

  lemma BeginGenuine(c: Settings, st: State, s: nat, now: nat, ts: string)
    requires s < |st.slots| && st.slots[s].Held? && P.IsBody(st.slots[s].payment.body) && P.IsTimestamp(ts) && Genuine(c, st)
    ensures Genuine(c, DoBegin(st, s, now, ts))
  {
    hide P.Stamped, P.IsTimestamp, QueueGenuine, EntryGenuine;
    var st' := DoBegin(st, s, now, ts);
    GenuineGrows(c, st.history, st'.history);
    assert SlotGenuine(st.history, st.slots[s]);
  }

  lemma AnswerGenuine(c: Settings, st: State, s: nat, a: Answer)
    requires s < |st.slots| && (st.slots[s].Sending? || st.slots[s].Retrying?) && Genuine(c, st)
    ensures Genuine(c, DoRespond(c, st, s, a))
  {
    hide HandleResponse, P.Stamped, P.IsTimestamp, P.IsBody, QueueGenuine, EntryGenuine;
    var st' := DoRespond(c, st, s, a);
    GenuineGrows(c, st.history, st'.history);
    assert SlotGenuine(st.history, st.slots[s]);
  }

  lemma FinishGenuine(c: Settings, st: State, s: nat)
    requires WellShaped(st) && s < |st.slots| && st.slots[s].Answered? && Genuine(c, st)
    requires NoOverflow(DoFinish(c, st, s).queues)
    ensures Genuine(c, DoFinish(c, st, s))
  {
    hide R.Put, Store, P.Stamped, P.IsTimestamp, P.IsBody, QueueGenuine, SendGenuine, P.AmountText;
    var x, st' := st.slots[s], DoFinish(c, st, s);
    GenuineGrows(c, st.history, st'.history);
    assert SlotGenuine(st.history, x);
    P.AmountKept(x.payment.body, x.ts);
    if x.result.TryAgain? {
      assert R.Fits(st'.queues[x.worker]) && QueueShaped(st.queues[x.worker]);
      PutGenuine(st.history, st.queues[x.worker], x.payment);
    }
  }

  // ---- Every run ----

  lemma StartHolds(c: Settings, st: State, w: Weight)
    requires IsStart(c, st)
    ensures WellShaped(st) && Routed(c, st) && Genuine(c, st) && Conserved(st, w)
    ensures forall p :: SuccessesCounted(st, p, w)
  {
    OpenRefines(st.buckets.start);
    SumZero(QueueWeights(st.queues, w));
    SumZero(SlotWeights(st.slots, w));
    forall p
      ensures SuccessesCounted(st, p, w)
    {
      SumZero(WinWeights(st.slots, p, w));
    }
  }

  /** From a state in which the invariants hold, they hold after every run. */
  lemma {:induction false} RunKeeps(c: Settings, st: State, steps: seq<Step>, w: Weight)
    requires WellShaped(st) && IsRun(c, st, steps) && Routed(c, st) && Genuine(c, st) && Conserved(st, w)
    requires forall p :: SuccessesCounted(st, p, w)
    ensures var r := After(c, st, steps);
            Routed(c, r) && Genuine(c, r) && Conserved(r, w) && forall p :: SuccessesCounted(r, p, w)
    decreases |steps|
  {
    hide Routed, Genuine, Conserved, SuccessesCounted, Next, CanStep, WellShaped, NoOverflow;
    if steps != [] {
      var n := Next(c, st, steps[0]);
      NextWellShaped(c, st, steps[0]);
      NextRouted(c, st, steps[0]);
      NextGenuine(c, st, steps[0]);
      NextConserves(c, st, steps[0], w);
      forall p
        ensures SuccessesCounted(n, p, w)
      {
        NextCountsSuccesses(c, st, steps[0], p, w);
      }
      RunKeeps(c, n, steps[1..], w);
    }
  }

  ghost predicate Reachable(c: Settings, st: State) {
    exists start, steps :: Reaches(c, start, steps, st)
  }

  ghost predicate Reaches(c: Settings, start: State, steps: seq<Step>, st: State) {
    IsStart(c, start) && WellShaped(start) && IsRun(c, start, steps) && After(c, start, steps) == st
  }

  lemma ReachableHolds(c: Settings, st: State, w: Weight)
    requires Reachable(c, st)
    ensures Routed(c, st) && Genuine(c, st) && Conserved(st, w) && forall p :: SuccessesCounted(st, p, w)
  {
    hide Routed, Genuine, Conserved, SuccessesCounted, WellShaped, IsRun;
    var start, steps :| Reaches(c, start, steps, st);
    StartHolds(c, start, w);
    RunKeeps(c, start, steps, w);
  }

  // ---- What this means ----

  /** Weight one at `id`. */
  ghost function Only(id: nat): Weight {
    (i: nat) => if i == id then 1 else 0
  }

  ghost function Each(): Weight {
    (i: nat) => 1
  }

  lemma {:induction false} AcceptedOnce(n: nat, id: nat)
    ensures AcceptedWeight(n, Only(id)) == if id < n then 1 else 0
  {
    if n > 0 {
      AcceptedOnce(n - 1, id);
    }
  }

  /** In every run without overflow, each accepted payment is in exactly one place: the number of
      times it is queued, in flight, discarded and counted adds up to one. */
  lemma ExactlyOnePlace(c: Settings, st: State, id: nat)
    requires Reachable(c, st)
    ensures Queued(st.queues, Only(id)) + InFlight(st.slots, Only(id))
            + Discarded(st.history.discarded, Only(id)) + Counted(st.history.log, Only(id))
            == if id < |st.history.accepted| then 1 else 0
  {
    ReachableHolds(c, st, Only(id));
    AcceptedOnce(|st.history.accepted|, id);
  }

  lemma {:induction false} CountedSplits(log: seq<Entry>, w: Weight)
    ensures CountedBy(log, Default, w) + CountedBy(log, Fallback, w) == Counted(log, w)
  {
    if log != [] {
      CountedSplits(log[..|log| - 1], w);
    }
  }

  lemma {:induction false} WinsAreInFlight(slots: seq<Slot>, id: nat)
    ensures Winning(slots, Default, Only(id)) + Winning(slots, Fallback, Only(id)) <= InFlight(slots, Only(id))
  {
    var w := Only(id);
    SumsCompare(WinWeights(slots, Default, w), WinWeights(slots, Fallback, w), SlotWeights(slots, w));
  }

  lemma {:induction false} SumsCompare(a: seq<int>, b: seq<int>, c: seq<int>)
    requires |a| == |b| == |c| && forall i :: 0 <= i < |a| ==> a[i] + b[i] <= c[i]
    ensures Sum(a) + Sum(b) <= Sum(c)
  {
    if a != [] {
      SumsCompare(a[1..], b[1..], c[1..]);
    }
  }

  lemma {:induction false} NotNegative(st: State, id: nat)
    ensures Queued(st.queues, Only(id)) >= 0 && Discarded(st.history.discarded, Only(id)) >= 0
  {
    forall i | 0 <= i < |st.queues|
      ensures QueueWeights(st.queues, Only(id))[i] >= 0
    {
      if R.Fits(st.queues[i]) {
        SumNotNegative(Weights(R.Pending(st.queues[i]), Only(id)));
      }
    }
    SumNotNegative(QueueWeights(st.queues, Only(id)));
    DiscardedNotNegative(st.history.discarded, id);
  }

  lemma {:induction false} DiscardedNotNegative(ids: seq<nat>, id: nat)
    ensures Discarded(ids, Only(id)) >= 0
  {
    if ids != [] {
      DiscardedNotNegative(ids[..|ids| - 1], id);
    }
  }

  lemma {:induction false} SumNotNegative(ns: seq<int>)
    requires forall i :: 0 <= i < |ns| ==> ns[i] >= 0
    ensures Sum(ns) >= 0
  {
    if ns != [] {
      SumNotNegative(ns[1..]);
    }
  }

  /** Over all its attempts and retries a payment gets at most one success, from either processor. */
  lemma AtMostOneSuccess(c: Settings, st: State, id: nat)
    requires Reachable(c, st)
    ensures SuccessesOf(st.history.successes, Default, Only(id)) + SuccessesOf(st.history.successes, Fallback, Only(id)) <= 1
  {
    hide Routed, Genuine;
    ReachableHolds(c, st, Only(id));
    AcceptedOnce(|st.history.accepted|, id);
    CountedSplits(st.history.log, Only(id));
    WinsAreInFlight(st.slots, id);
    NotNegative(st, id);
    assert SuccessesCounted(st, Default, Only(id)) && SuccessesCounted(st, Fallback, Only(id));
  }

  /** The whole of a bucket vector counts the log's entries of its processor. */
  lemma {:induction false} BucketsCount(b: Buckets, log: seq<Entry>, p: Processor)
    requires Shaped(b) && forall k :: 0 <= k < |log| ==> InWindow(b, log[k].second)
    ensures Total(log, p, b.start, b.start + WINDOW).totalRequests == CountedBy(log, p, Each())
  {
    if log != [] {
      var rest := log[..|log| - 1];
      assert forall k :: 0 <= k < |rest| ==> rest[k] == log[k];
      BucketsCount(b, rest, p);
      assert InWindow(b, log[|log| - 1].second);
    }
  }

  /** What a processor's buckets count, plus the successes in flight, is the number of its successes. */
  lemma BucketsCountSuccesses(c: Settings, st: State, p: Processor)
    requires Reachable(c, st)
    ensures Shaped(st.buckets)
    ensures Ledger.Sum(Side(st.buckets, p), 0, WINDOW).totalRequests + Winning(st.slots, p, Each())
            == SuccessesOf(st.history.successes, p, Each())
  {
    hide Genuine, Conserved, Winning, Total, Ledger.Sum, SuccessesOf, CountedBy;
    ReachableHolds(c, st, Each());
    SumIsTotal(st.buckets, st.history.log, p, 0, WINDOW);
    BucketsCount(st.buckets, st.history.log, p);
    assert SuccessesCounted(st, p, Each());
  }

  /** Every request that was ever sent carries an accepted body with one timestamp member added, and
      the amount read from it is the body's. It has one `requestedAt` exactly when the body has none. */
  lemma EverySendCarriesItsBody(c: Settings, st: State, k: nat)
    requires Reachable(c, st) && k < |st.history.sends|
    ensures var s := st.history.sends[k];
            && s.id < |st.history.accepted|
            && P.IsBody(st.history.accepted[s.id])
            && s.payload == P.Stamped(st.history.accepted[s.id], s.ts)
            && Amount(c, s.payload) == Amount(c, st.history.accepted[s.id])
            && ((forall i: nat :: P.OccursAt(P.STAMP_KEY, s.payload, i) <==> i == |st.history.accepted[s.id]|)
                <==> !P.Mentions(P.STAMP_KEY, st.history.accepted[s.id]))
  {
    hide Routed, P.Stamped, P.AmountText, P.OccursAt, P.Mentions;
    ReachableHolds(c, st, Each());
    var s := st.history.sends[k];
    assert SendGenuine(st.history, s);
    P.AmountKept(st.history.accepted[s.id], s.ts);
    P.StampedOnce(st.history.accepted[s.id], s.ts);
  }

  // ---- When a payment is dropped ----

  /** In every reachable state, the answer to a first request drops the payment exactly when its code
      is 422. The answer to a second request never does, whatever it is: the code looked at is the
      first one, and a first 422 leads to no second request. */
  lemma DroppedByFirst422(c: Settings, st: State, s: nat, a: Answer)
    requires Reachable(c, st) && s < |st.slots| && (st.slots[s].Sending? || st.slots[s].Retrying?)
    ensures var x := DoRespond(c, st, s, a).slots[s];
            x.Answered? && x.result.Discard? <==> st.slots[s].Sending? && a.code == 422
  {
    hide HandleResponse, Genuine, Conserved, SuccessesCounted, Reachable;
    ReachableHolds(c, st, Each());
    assert SlotRouted(c, st.slots[s]);
  }
}
