/**
 The payment pipeline as a state machine. Worker threads and the one detached
 pool job interleave between their steps: accept, fetch, start the pool job,
 begin a call of `process` (capture labels, build the payload, send), receive an
 answer, and finish the call.
 */
module Pipeline {
  import opened Bytes
  import opened Failover
  import opened Ledger
  import R = WorkerRing
  import P = Payload

  datatype Payment = Payment(id: nat, body: string)

  datatype Settings = Settings(routing: Config, stod: string -> real)

  /** What a processor call returned. It counts as a success when the transfer completed with a 200. */
  datatype Answer = Answer(completed: bool, code: int, elapsed: real) {
    predicate Ok() { completed && code == 200 }
  }

  datatype Result = Stored(processor: Processor) | Discard | TryAgain

  /** What a worker thread, or the pool job, is doing. `worker` is the queue the payment came from. */
  datatype Slot =
    | Idle
    | Held(payment: Payment, worker: nat)
    | Sending(payment: Payment, worker: nat, first: Processor, second: Processor, at: nat, ts: string, payload: string)
    | Retrying(payment: Payment, worker: nat, second: Processor, at: nat, ts: string, payload: string, firstCode: int)
    | Answered(payment: Payment, worker: nat, result: Result, at: nat, ts: string, payload: string)

  /** A request that was sent. */
  datatype Send = Send(id: nat, processor: Processor, ts: string, payload: string)

  datatype Success = Success(id: nat, processor: Processor)

  /** What has happened so far; no operation reads it. */
  datatype History = History(accepted: seq<string>, sends: seq<Send>, successes: seq<Success>,
                             discarded: seq<nat>, log: seq<Entry>, calls: nat)

  /** The last slot is the pool job's; the others are the workers'. */
  datatype State = State(queues: seq<R.Ring<Payment>>, slots: seq<Slot>, poolRunning: bool,
                         routing: Routing, buckets: Buckets, history: History)

  datatype Step =
    | Accept(queue: nat, body: string)
    | Fetch(worker: nat)
    | StartPool(worker: nat)
    | Begin(slot: nat, now: nat, ts: string)
    | Respond(slot: nat, answer: Answer)
    | Finish(slot: nat)

  function PoolSlot(st: State): int {
    |st.slots| - 1
  }

  /** `stod` of the amount's text, or zero where there is none. */
  function Amount(c: Settings, json: string): real {
    match P.AmountText(json)
    case None => 0.0
    case Some(t) => c.stod(t)
  }

  /** The amount counted is what `stod` makes of the text between the first amount key and the next comma
      or brace, and zero without such a text. */
  lemma AmountCounted(c: Settings, json: string, i: nat, t: string)
    ensures P.IsAmount(json, i, t) ==> Amount(c, json) == c.stod(t)
    ensures P.AmountText(json).None? ==> Amount(c, json) == 0.0
  {
    hide P.AmountText, P.IsAmount;
    if P.IsAmount(json, i, t) {
      P.AmountIs(json, i, t);
    }
  }

  // ---- Steps ----

  ghost predicate NoOverflow(queues: seq<R.Ring<Payment>>) {
    forall i :: 0 <= i < |queues| ==> R.Fits(queues[i])
  }

  ghost predicate SlotShaped(b: Buckets, workers: nat, x: Slot) {
    x.Idle? || (P.IsBody(x.payment.body) && x.worker < workers && (!x.Held? ==> InWindow(b, x.at)))
  }

  ghost predicate QueueShaped(q: R.Ring<Payment>) {
    R.Fits(q) && forall k :: 0 <= k < q.tail - q.head ==> P.IsBody(R.Pending(q)[k].body)
  }

  ghost predicate WellShaped(st: State) {
    && |st.queues| > 0 && |st.slots| == |st.queues| + 1 && Shaped(st.buckets)
    && (forall i :: 0 <= i < |st.queues| ==> QueueShaped(st.queues[i]))
    && (forall i :: 0 <= i < |st.slots| ==> SlotShaped(st.buckets, |st.queues|, st.slots[i]))
  }

  ghost predicate CanStep(c: Settings, st: State, step: Step)
    requires WellShaped(st)
  {
    match step
    case Accept(q, body) => q < |st.queues| && P.IsBody(body)
    case Fetch(w) => w < PoolSlot(st) && st.slots[w].Idle? && !R.IsEmpty(st.queues[w])
    case StartPool(w) => w < PoolSlot(st) && st.slots[w].Held? && c.routing.enabled && !st.poolRunning
    case Begin(s, now, ts) => s < |st.slots| && st.slots[s].Held? && InWindow(st.buckets, now) && P.IsTimestamp(ts)
    case Respond(s, _) => s < |st.slots| && (st.slots[s].Sending? || st.slots[s].Retrying?)
    case Finish(s) => s < |st.slots| && st.slots[s].Answered?
  }

  function Enqueue(st: State, q: nat, p: Payment): State
    requires q < |st.queues| && |st.queues[q].slots| > 0
  {
    st.(queues := st.queues[q := R.Put(st.queues[q], p)])
  }

  function SetSlot(st: State, s: nat, slot: Slot): State
    requires s < |st.slots|
  {
    st.(slots := st.slots[s := slot])
  }

  ghost function Next(c: Settings, st: State, step: Step): State
    requires WellShaped(st) && CanStep(c, st, step)
  {
    match step
    case Accept(q, body) => DoAccept(st, q, body)
    case Fetch(w) => DoFetch(st, w)
    case StartPool(w) => DoStartPool(st, w)
    case Begin(s, now, ts) => DoBegin(st, s, now, ts)
    case Respond(s, answer) => DoRespond(c, st, s, answer)
    case Finish(s) => DoFinish(c, st, s)
  }

  function DoAccept(st: State, q: nat, body: string): State
    requires q < |st.queues| && |st.queues[q].slots| > 0
  {
    var h := st.history;
    Enqueue(st, q, Payment(|h.accepted|, body)).(history := h.(accepted := h.accepted + [body]))
  }

  function DoFetch(st: State, w: nat): State
    requires w < |st.queues| && w < |st.slots| && |st.queues[w].slots| > 0
  {
    SetSlot(st, w, Held(R.Peek(st.queues[w]), w)).(queues := st.queues[w := R.Drop(st.queues[w])])
  }

  function DoStartPool(st: State, w: nat): State
    requires |st.slots| > 0 && w < PoolSlot(st) && st.slots[w].Held?
  {
    SetSlot(SetSlot(st, PoolSlot(st), st.slots[w]), w, Idle).(poolRunning := true)
  }

  /** The start of `process`: the pool job swaps the two labels. */
  function DoBegin(st: State, s: nat, now: nat, ts: string): State
    requires s < |st.slots| && st.slots[s].Held? && st.slots[s].payment.body != ""
  {
    var pool := s == PoolSlot(st);
    var p := st.slots[s].payment;
    var first := if pool then st.routing.secondary else st.routing.primary;
    var second := if pool then st.routing.primary else st.routing.secondary;
    var payload := P.Stamped(p.body, ts);
    var h := st.history;
    SetSlot(st, s, Sending(p, st.slots[s].worker, first, second, now, ts, payload))
      .(history := h.(sends := h.sends + [Send(p.id, first, ts, payload)], calls := h.calls + 1))
  }

  function Succeeded(h: History, ok: bool, id: nat, p: Processor): History {
    if ok then h.(successes := h.successes + [Success(id, p)]) else h
  }

  /** An answer arrives and `handle_response` reacts to it. */
  function DoRespond(c: Settings, st: State, s: nat, a: Answer): State
    requires s < |st.slots| && (st.slots[s].Sending? || st.slots[s].Retrying?)
  {
    if st.slots[s].Sending? then FirstAnswer(c, st, s, a) else SecondAnswer(c, st, s, a)
  }

  function FirstAnswer(c: Settings, st: State, s: nat, a: Answer): State
    requires s < |st.slots| && st.slots[s].Sending?
  {
    var x := st.slots[s];
    var f := if s == PoolSlot(st) then st.routing.(evaluated := false) else st.routing;
    var f1 := HandleResponse(c.routing, f, x.first, a.elapsed, a.code);
    var h := Succeeded(st.history, a.Ok(), x.payment.id, x.first);
    if !a.Ok() && a.code != 422 && c.routing.enabled then
      SetSlot(st, s, Retrying(x.payment, x.worker, x.second, x.at, x.ts, x.payload, a.code))
        .(routing := f1, history := h.(sends := h.sends + [Send(x.payment.id, x.second, x.ts, x.payload)]))
    else
      var result := if a.Ok() then Stored(x.first) else if a.code == 422 then Discard else TryAgain;
      SetSlot(st, s, Answered(x.payment, x.worker, result, x.at, x.ts, x.payload)).(routing := f1, history := h)
  }

  /** The second attempt looks at the first attempt's code to discard. */
  function SecondAnswer(c: Settings, st: State, s: nat, a: Answer): State
    requires s < |st.slots| && st.slots[s].Retrying?
  {
    var x := st.slots[s];
    var f1 := HandleResponse(c.routing, st.routing, x.second, a.elapsed, a.code);
    var result := if a.Ok() then Stored(x.second) else if x.firstCode == 422 then Discard else TryAgain;
    SetSlot(st, s, Answered(x.payment, x.worker, result, x.at, x.ts, x.payload))
      .(routing := f1, history := Succeeded(st.history, a.Ok(), x.payment.id, x.second))
  }

  /** The end of `process`: queue again, drop, or count. */
  function DoFinish(c: Settings, st: State, s: nat): State
    requires s < |st.slots| && st.slots[s].Answered? && st.slots[s].worker < |st.queues|
    requires |st.queues[st.slots[s].worker].slots| > 0 && Shaped(st.buckets) && InWindow(st.buckets, st.slots[s].at)
  {
    var x, h := st.slots[s], st.history;
    var st1 := SetSlot(st, s, Idle).(poolRunning := if s == PoolSlot(st) then false else st.poolRunning);
    match x.result
    case TryAgain => Enqueue(st1, x.worker, x.payment)
    case Discard => st1.(history := h.(discarded := h.discarded + [x.payment.id]))
    case Stored(p) =>
      var e := Entry(x.payment.id, p, x.at, Amount(c, x.payload));
      st1.(buckets := Store(st.buckets, c.routing.enabled, e), history := h.(log := h.log + [e]))
  }

  // ---- Runs ----

  ghost predicate IsStart(c: Settings, st: State) {
    && |st.queues| > 0 && |st.slots| == |st.queues| + 1
    && (forall i :: 0 <= i < |st.queues| ==> |st.queues[i].slots| > 0 && st.queues[i].head == st.queues[i].tail == 0)
    && (forall i :: 0 <= i < |st.slots| ==> st.slots[i].Idle?)
    && !st.poolRunning && st.routing == Start(c.routing)
    && st.buckets.start < TWO63 && st.buckets == Open(st.buckets.start)
    && st.history == History([], [], [], [], [], 0)
  }

  lemma PutShaped(q: R.Ring<Payment>, p: Payment)
    requires QueueShaped(q) && P.IsBody(p.body) && R.Fits(R.Put(q, p))
    ensures QueueShaped(R.Put(q, p))
  {
    hide R.Pending, P.IsBody;
    R.PutPending(q, p);
  }

  lemma DropShaped(q: R.Ring<Payment>)
    requires QueueShaped(q) && !R.IsEmpty(q)
    ensures QueueShaped(R.Drop(q)) && P.IsBody(R.Peek(q).body)
  {
    hide R.Pending, P.IsBody;
    R.DropPending(q);
    assert R.Pending(q)[0] == R.Peek(q);
    forall k | 0 <= k < R.Drop(q).tail - R.Drop(q).head
      ensures P.IsBody(R.Pending(R.Drop(q))[k].body)
    {
      assert R.Pending(R.Drop(q))[k] == R.Pending(q)[k + 1];
    }
  }

  /** A step keeps the shape, unless it overflows a ring. */
  lemma NextWellShaped(c: Settings, st: State, step: Step)
    requires WellShaped(st) && CanStep(c, st, step) && NoOverflow(Next(c, st, step).queues)
    ensures WellShaped(Next(c, st, step))
  {
    hide R.Fits, R.Put, R.Drop, R.Peek, R.Pending, P.IsBody, QueueShaped, HandleResponse, P.Stamped, Store, Shaped;
    match step
    case Accept(q, body) =>
      assert R.Fits(Next(c, st, step).queues[q]);
      PutShaped(st.queues[q], Payment(|st.history.accepted|, body));
    case Fetch(w) => DropShaped(st.queues[w]);
    case StartPool(w) =>
    case Begin(s, now, ts) =>
    case Respond(s, a) =>
    case Finish(s) =>
      var x := st.slots[s];
      if x.result.TryAgain? {
        assert R.Fits(Next(c, st, step).queues[x.worker]);
        PutShaped(st.queues[x.worker], x.payment);
      }
  }

  /** `steps` can be taken from `st`, and no ring overflows on the way. */
  ghost predicate IsRun(c: Settings, st: State, steps: seq<Step>)
    requires WellShaped(st)
    decreases |steps|
  {
    steps == [] ||
    (CanStep(c, st, steps[0]) && NoOverflow(Next(c, st, steps[0]).queues) &&
     (NextWellShaped(c, st, steps[0]); IsRun(c, Next(c, st, steps[0]), steps[1..])))
  }

  ghost function After(c: Settings, st: State, steps: seq<Step>): (r: State)
    requires WellShaped(st) && IsRun(c, st, steps)
    ensures WellShaped(r)
    decreases |steps|
  {
    if steps == [] then st
    else
      NextWellShaped(c, st, steps[0]);
      After(c, Next(c, st, steps[0]), steps[1..])
  }
}
