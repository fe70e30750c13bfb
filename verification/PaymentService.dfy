/**
 `PaymentService` as the object it is: the worker queues, the routing fields and
 the bucket vectors, updated in place. Each method is proved against the functions
 of the value-level modules, and one whole call of `process` against the steps of
 the pipeline.
 */
module PaymentService {
  import opened Bytes
  import opened Failover
  import opened Ledger
  import opened WorkerRing
  import opened Pipeline
  import P = Payload

  /** What `process_payment` decides when nothing interleaves with it: the result, and the routing after. */
  function ProcessPaymentResult(c: Config, f: Routing, pool: bool, a1: Answer, a2: Answer): (Result, Routing) {
    var first := if pool then f.secondary else f.primary;
    var second := if pool then f.primary else f.secondary;
    var f1 := HandleResponse(c, if pool then f.(evaluated := false) else f, first, a1.elapsed, a1.code);
    if a1.Ok() then (Stored(first), f1)
    else if a1.code == 422 then (Discard, f1)
    else if !c.enabled then (TryAgain, f1)
    else
      var f2 := HandleResponse(c, f1, second, a2.elapsed, a2.code);
      (if a2.Ok() then Stored(second) else TryAgain, f2)
  }

  /** The steps of one call, with nothing in between. */
  function CallSteps(c: Settings, st: State, s: nat, now: nat, ts: string, a1: Answer, a2: Answer): State
    requires s < |st.slots| && st.slots[s].Held? && st.slots[s].payment.body != ""
  {
    var st1 := DoBegin(st, s, now, ts);
    var st2 := DoRespond(c, st1, s, a1);
    if st2.slots[s].Retrying? then DoRespond(c, st2, s, a2) else st2
  }

  lemma AttemptsAreTheirSteps(c: Settings, st: State, s: nat, now: nat, ts: string, a1: Answer, a2: Answer)
    requires s < |st.slots| && st.slots[s].Held? && st.slots[s].payment.body != ""
    ensures var x := st.slots[s];
            var r := ProcessPaymentResult(c.routing, st.routing, s == PoolSlot(st), a1, a2);
            var st1 := CallSteps(c, st, s, now, ts, a1, a2);
            && st1.slots == st.slots[s := Answered(x.payment, x.worker, r.0, now, ts, P.Stamped(x.payment.body, ts))]
            && st1.queues == st.queues && st1.buckets == st.buckets && st1.routing == r.1
            && st1.poolRunning == st.poolRunning
            && st1.history.discarded == st.history.discarded && st1.history.log == st.history.log
  {
    hide HandleResponse, P.Stamped;
  }

  /** A whole call is a run of the pipeline's steps: it ends with the routing, the queue and the buckets
      that the method `Process` below leaves, and an idle thread. */
  lemma CallIsItsSteps(c: Settings, st: State, s: nat, now: nat, ts: string, a1: Answer, a2: Answer)
    requires s < |st.slots| && st.slots[s].Held? && st.slots[s].payment.body != "" && st.slots[s].worker < |st.queues|
    requires |st.queues[st.slots[s].worker].slots| > 0 && Shaped(st.buckets) && InWindow(st.buckets, now)
    ensures var st1 := CallSteps(c, st, s, now, ts, a1, a2);
            && st1.slots[s].Answered? && st1.slots[s].at == now && st1.slots[s].worker == st.slots[s].worker
            && st1.queues == st.queues && st1.buckets == st.buckets
    ensures var x := st.slots[s];
            var r := ProcessPaymentResult(c.routing, st.routing, s == PoolSlot(st), a1, a2);
            var st2 := DoFinish(c, CallSteps(c, st, s, now, ts, a1, a2), s);
            && st2.routing == r.1 && st2.slots == st.slots[s := Idle]
            && st2.poolRunning == (if s == PoolSlot(st) then false else st.poolRunning)
            && st2.queues == (if r.0.TryAgain? then st.queues[x.worker := Put(st.queues[x.worker], x.payment)] else st.queues)
            && st2.buckets == (if r.0.Stored? then
                                 Store(st.buckets, c.routing.enabled,
                                       Entry(x.payment.id, r.0.processor, now, Amount(c, P.Stamped(x.payment.body, ts))))
                               else st.buckets)
            && st2.history.discarded == st.history.discarded + if r.0.Discard? then [x.payment.id] else []
  {
    hide ProcessPaymentResult, CallSteps, P.Stamped, Put, Store, Amount;
    AttemptsAreTheirSteps(c, st, s, now, ts, a1, a2);
  }

  /** A call drops its payment exactly when the first answer is a 422. */
  lemma CallDiscards(c: Config, f: Routing, pool: bool, a1: Answer, a2: Answer)
    ensures ProcessPaymentResult(c, f, pool, a1, a2).0.Discard? <==> a1.code == 422
  {
    hide HandleResponse;
  }

  /** A processor that answers 422 to the second request does not get the payment dropped: it is
      queued and sent again. */
  lemma Second422Retries(c: Config, f: Routing, pool: bool, t1: real, t2: real)
    requires c.enabled
    ensures ProcessPaymentResult(c, f, pool, Pipeline.Answer(true, 500, t1), Pipeline.Answer(true, 422, t2)).0 == TryAgain
  {
    hide HandleResponse;
  }

  /** What the failover sees of a call: the pool job's probe, and the answers to the requests sent. */
  function CallEvents(c: Config, f: Routing, pool: bool, a1: Answer, a2: Answer): seq<Event> {
    var first := if pool then f.secondary else f.primary;
    (if pool then [ProbeAnswered] else [])
    + [Event.Answer(first, a1.elapsed, a1.code)]
    + if a1.Ok() || a1.code == 422 || !c.enabled then []
      else [Event.Answer(if pool then f.primary else f.secondary, a2.elapsed, a2.code)]
  }

  /** A call leaves the routing that its events lead to. */
  lemma CallIsItsEvents(c: Config, es: seq<Event>, pool: bool, a1: Answer, a2: Answer)
    ensures var f := ReactAll(c, es);
            ProcessPaymentResult(c, f, pool, a1, a2).1 == ReactAll(c, es + CallEvents(c, f, pool, a1, a2))
  {
    hide HandleResponse, ReactAll;
    var f := ReactAll(c, es);
    var first, second := if pool then f.secondary else f.primary, if pool then f.primary else f.secondary;
    var e1, e2 := Event.Answer(first, a1.elapsed, a1.code), Event.Answer(second, a2.elapsed, a2.code);
    var es0 := if pool then es + [ProbeAnswered] else es;
    ReactLast(c, es, ProbeAnswered);
    ReactLast(c, es0, e1);
    ReactLast(c, es0 + [e1], e2);
    assert (if pool then es + ([ProbeAnswered] + [e1]) else es + ([] + [e1])) == es0 + [e1];
    assert (if pool then es + ([ProbeAnswered] + [e1] + [e2]) else es + ([] + [e1] + [e2])) == es0 + [e1] + [e2];
    assert es + CallEvents(c, f, pool, a1, a2)
        == if a1.Ok() || a1.code == 422 || !c.enabled then es0 + [e1] else es0 + [e1] + [e2];
  }

  /** A pool call that succeeds at once calls the secondary, records its time and evaluates: it leaves the
      primary that the evaluation picks. */
  lemma PoolCallEvaluates(c: Config, es: seq<Event>, a1: Answer, a2: Answer)
    requires c.enabled && a1.Ok()
    ensures var f := ReactAll(c, es);
            var r := ProcessPaymentResult(c, f, true, a1, a2);
            && r.0 == Stored(f.secondary) && TimeOf(r.1, f.secondary) == a1.elapsed
            && r.1.primary == Evaluated(c, if BothFailed(es) then Other(f.primary) else f.primary, r.1.defaultTime, r.1.fallbackTime)
  {
    hide HandleResponse, ReactAll, LastCode, Evaluated;
    var f, es0 := ReactAll(c, es), es + [ProbeAnswered];
    CallIsItsEvents(c, es, true, a1, a2);
    ReactLast(c, es, ProbeAnswered);
    assert es + CallEvents(c, f, true, a1, a2) == es0 + [Event.Answer(f.secondary, a1.elapsed, a1.code)];
    AfterAnswer(c, es0, f.secondary, a1.elapsed, a1.code);
    ProbeKeepsCodes(es);
  }

  lemma ProbeKeepsCodes(es: seq<Event>)
    ensures forall p :: LastCode(es + [ProbeAnswered], p) == LastCode(es, p)
  {
    assert (es + [ProbeAnswered])[..|es|] == es;
  }

  class PaymentService {
    const settings: Settings
    var queues: seq<WorkerQueue<Payment>>
    var processedDefault: array<Summary>
    var processedFallback: array<Summary>
    const processedStart: nat

    var primaryLabel: Processor
    var secondaryLabel: Processor
    var mainUrl: string
    var testUrl: string
    var defaultDown: bool
    var fallbackDown: bool
    var defaultTimeMs: real
    var fallbackTimeMs: real
    var fallbackEvaluated: bool
    var fallbackIsRunning: bool

    ghost predicate Valid()
      reads this, queues
    {
      && processedDefault.Length == WINDOW && processedFallback.Length == WINDOW && processedStart < TWO63
      && processedDefault != processedFallback
      && (forall i :: 0 <= i < |queues| ==> queues[i].Valid())
      && (forall i, j :: 0 <= i < j < |queues| ==> queues[i] != queues[j] && queues[i].queue != queues[j].queue)
    }

    function Routes(): Routing
      reads this
    {
      Routing(primaryLabel, secondaryLabel, mainUrl, testUrl, defaultDown, fallbackDown, defaultTimeMs, fallbackTimeMs,
              fallbackEvaluated)
    }

    function Books(): Buckets
      reads this, processedDefault, processedFallback
    {
      Buckets(processedStart, processedDefault[..], processedFallback[..])
    }

    constructor (settings: Settings, workers: nat, capacity: nat, now: nat)
      requires capacity > 0 && now < TWO63
      ensures Valid() && this.settings == settings && |queues| == workers && !fallbackIsRunning
      ensures Routes() == Start(settings.routing) && Books() == Open(now)
      ensures forall i :: 0 <= i < workers ==> queues[i].Now() == Empty(queues[i].queue[..]) && queues[i].queue.Length == capacity
      ensures fresh(processedDefault) && fresh(processedFallback)
    {
      this.settings := settings;
      processedStart := now;
      processedDefault := new Summary[WINDOW](_ => NOTHING);
      processedFallback := new Summary[WINDOW](_ => NOTHING);
      primaryLabel := Default;
      secondaryLabel := Fallback;
      mainUrl := settings.routing.defaultUrl;
      testUrl := settings.routing.fallbackUrl;
      defaultDown := false;
      fallbackDown := !settings.routing.enabled;
      defaultTimeMs := 0.0;
      fallbackTimeMs := 0.0;
      fallbackEvaluated := true;
      fallbackIsRunning := false;
      var made := PaymentService.MakeQueues(workers, capacity);
      queues := made;
    }

    static method MakeQueues(workers: nat, capacity: nat) returns (made: seq<WorkerQueue<Payment>>)
      requires capacity > 0
      ensures |made| == workers
      ensures forall k :: 0 <= k < workers ==>
                            made[k].Valid() && made[k].queue.Length == capacity && made[k].Now() == Empty(made[k].queue[..])
      ensures forall k :: 0 <= k < workers ==> fresh(made[k]) && fresh(made[k].queue)
      ensures forall j, k :: 0 <= j < k < workers ==> made[j] != made[k] && made[j].queue != made[k].queue
    {
      made := [];
      for i := 0 to workers
        invariant |made| == i
        invariant forall k :: 0 <= k < i ==>
                                made[k].Valid() && made[k].queue.Length == capacity && made[k].Now() == Empty(made[k].queue[..])
        invariant forall k :: 0 <= k < i ==> fresh(made[k]) && fresh(made[k].queue)
        invariant forall j, k :: 0 <= j < k < i ==> made[j] != made[k] && made[j].queue != made[k].queue
      {
        var q := new WorkerQueue<Payment>(capacity);
        made := made + [q];
      }
    }

    // ---- Failover ----

    method SwitchOver()
      modifies `primaryLabel, `secondaryLabel, `mainUrl, `testUrl
      ensures Routes() == TriggerSwitch(settings.routing, old(Routes()))
    {
      if !settings.routing.enabled {
        return;
      }
      mainUrl, testUrl := testUrl, mainUrl;
      primaryLabel, secondaryLabel := secondaryLabel, primaryLabel;
    }

    method RecordTime(processor: Processor, elapsed: real)
      modifies `defaultTimeMs, `fallbackTimeMs
      ensures Routes() == UpdateTime(old(Routes()), processor, elapsed)
    {
      if processor == Default {
        defaultTimeMs := elapsed;
      } else {
        fallbackTimeMs := elapsed;
      }
    }

    method Evaluate()
      modifies `primaryLabel, `secondaryLabel, `mainUrl, `testUrl, `fallbackEvaluated
      ensures Routes() == EvaluateSwitch(settings.routing, old(Routes()))
    {
      if !settings.routing.enabled || fallbackEvaluated {
        return;
      }
      fallbackEvaluated := true;
      var def, fb := defaultTimeMs, fallbackTimeMs;
      if def == 0.0 || fb == 0.0 {
        return;
      }
      var improvement := def / fb;
      var usingDefault := mainUrl == settings.routing.defaultUrl;
      if fb < def && improvement >= settings.routing.feeDifference {
        if usingDefault {
          SwitchOver();
        }
      } else if !usingDefault {
        SwitchOver();
      }
    }

    method React(processor: Processor, elapsed: real, code: int)
      modifies `primaryLabel, `secondaryLabel, `mainUrl, `testUrl, `fallbackEvaluated, `defaultDown, `fallbackDown,
               `defaultTimeMs, `fallbackTimeMs
      ensures Routes() == HandleResponse(settings.routing, old(Routes()), processor, elapsed, code)
    {
      hide TriggerSwitch, EvaluateSwitch;
      if !settings.routing.enabled {
        return;
      }
      var usingDefaultAsMain := primaryLabel == Default;
      var defaultCalled := processor == Default;
      if code == 500 {
        if defaultCalled { defaultDown := true; } else { fallbackDown := true; }
        if defaultDown && fallbackDown {
        } else if defaultDown && !fallbackDown && usingDefaultAsMain {
          SwitchOver();
        } else if !defaultDown && fallbackDown && !usingDefaultAsMain {
          SwitchOver();
        }
        return;
      }
      if defaultCalled && defaultDown {
        defaultDown := false;
        if fallbackDown {
          SwitchOver();
        }
      } else if !defaultCalled && fallbackDown {
        fallbackDown := false;
        if defaultDown {
          SwitchOver();
        }
      }
      RecordTime(processor, elapsed);
      Evaluate();
    }

    // ---- Storing and querying ----

    method StoreProcessed(id: nat, json: string, processor: Processor, timestamp: nat)
      requires Valid() && InWindow(Books(), timestamp)
      modifies processedDefault, processedFallback
      ensures Valid()
      ensures Books() == Store(old(Books()), settings.routing.enabled,
                               Entry(id, processor, timestamp, Amount(settings, json)))
    {
      var amount := 0.0;
      var pos := P.Find(P.AMOUNT_KEY, json, 0);
      if pos.Some? {
        var start := pos.value + 9;
        var end := P.FindDelimiter(json, start);
        if end.Some? {
          amount := settings.stod(json[start..end.value]);
        }
      }
      var i := timestamp - processedStart;
      if settings.routing.enabled && processor == Fallback {
        processedFallback[i] := Ledger.Bump(processedFallback[i], amount);
      } else {
        processedDefault[i] := Ledger.Bump(processedDefault[i], amount);
      }
    }

    /** The summing loop. With a log that the buckets refine it answers the range asked for exactly
        when `Ledger.QueryIsRangeTotal` says so. */
    method QueryRange(fromMs: nat, toMs: nat) returns (r: SummaryPair)
      requires Valid()
      ensures r == Query(Books(), fromMs, toMs)
    {
      r := SummaryPair(NOTHING, NOTHING);
      if toMs < fromMs {
        return;
      }
      var fromSec := Signed64(Wrap64(Wrap64(fromMs + 1000) / 1000 - processedStart));
      var toSec := Wrap64(toMs / 1000 - processedStart);
      if fromSec < 0 { fromSec := 0; }
      if toSec >= WINDOW { toSec := WINDOW - 1; }
      var index := fromSec;
      while index <= toSec
        invariant fromSec <= index && (fromSec <= toSec ==> index <= toSec + 1)
        invariant fromSec > toSec ==> index == fromSec
        invariant fromSec <= toSec ==> r == SummaryPair(Ledger.Sum(Books().defaults, fromSec, index), Ledger.Sum(Books().fallbacks, fromSec, index))
        invariant fromSec > toSec ==> r == SummaryPair(NOTHING, NOTHING)
      {
        r := SummaryPair(Plus(r.def, processedDefault[index]), Plus(r.fb, processedFallback[index]));
        index := index + 1;
      }
    }

    // ---- A call of process ----

    /** The two attempts. The answers and the clock are inputs; the second answer is looked at only
        when the second request is sent. */
    method ProcessPayment(json: string, pool: bool, ts: string, a1: Answer, a2: Answer)
      returns (result: Result, payload: string, sent: seq<Processor>)
      requires json != ""
      modifies `primaryLabel, `secondaryLabel, `mainUrl, `testUrl, `fallbackEvaluated, `defaultDown, `fallbackDown,
               `defaultTimeMs, `fallbackTimeMs
      ensures payload == P.Stamped(json, ts)
      ensures (result, Routes()) == ProcessPaymentResult(settings.routing, old(Routes()), pool, a1, a2)
      ensures 1 <= |sent| <= 2 && sent[0] == (if pool then old(secondaryLabel) else old(primaryLabel))
      ensures |sent| == 2 ==> settings.routing.enabled && sent[1] == if pool then old(primaryLabel) else old(secondaryLabel)
      ensures result.Stored? ==> result.processor == sent[|sent| - 1]
    {
      hide HandleResponse;
      payload := P.Stamped(json, ts);
      var first := if pool then secondaryLabel else primaryLabel;
      var second := if pool then primaryLabel else secondaryLabel;
      sent := [first];
      if pool {
        fallbackEvaluated := false;
      }
      React(first, a1.elapsed, a1.code);
      if a1.Ok() {
        return Stored(first), payload, sent;
      }
      if a1.code == 422 {
        return Discard, payload, sent;
      }
      if !settings.routing.enabled {
        return TryAgain, payload, sent;
      }
      sent := sent + [second];
      React(second, a2.elapsed, a2.code);
      if a2.Ok() {
        return Stored(second), payload, sent;
      }
      if a1.code == 422 {
        return Discard, payload, sent;
      }
      return TryAgain, payload, sent;
    }

    /** One payment: queue it again, drop it, or count it. */
    method Process(worker: nat, r: Payment, pool: bool, now: nat, ts: string, a1: Answer, a2: Answer)
      requires Valid() && worker < |queues| && r.body != "" && InWindow(Books(), now)
      modifies this, processedDefault, processedFallback, queues[worker], queues[worker].queue
      ensures queues == old(queues) && processedDefault == old(processedDefault) && processedFallback == old(processedFallback)
      ensures Valid()
      ensures var result := ProcessPaymentResult(settings.routing, old(Routes()), pool, a1, a2);
              && Routes() == result.1
              && queues[worker].Now() == (if result.0.TryAgain? then Put(old(queues[worker].Now()), r) else old(queues[worker].Now()))
              && Books() == (if result.0.Stored? then
                               Store(old(Books()), settings.routing.enabled,
                                     Entry(r.id, result.0.processor, now, Amount(settings, P.Stamped(r.body, ts))))
                             else old(Books()))
      ensures forall i :: 0 <= i < |queues| && i != worker ==> queues[i].Now() == old(queues[i].Now())
      ensures fallbackIsRunning == (if pool then false else old(fallbackIsRunning))
    {
      hide ProcessPaymentResult, Store, P.Stamped, Amount;
      var result, payload, _ := ProcessPayment(r.body, pool, ts, a1, a2);
      if result == TryAgain {
        queues[worker].Push(r);
      } else if result != Discard {
        StoreProcessed(r.id, payload, result.processor, now);
      }
      if pool {
        fallbackIsRunning := false;
      }
    }
  }
}
