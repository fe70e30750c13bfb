/**
 A worker's queue: a fixed ring of slots with two counters that only grow.
 Nothing stops the tail from lapping the head, so what a fetch returns is stated
 for every run, and the FIFO law for runs that do not overflow.
 */
module WorkerRing {
  import opened Bytes

  /** Enqueue number k lives in slot k % capacity until enqueue k + capacity overwrites it. */
  datatype Ring<T> = Ring(slots: seq<T>, head: nat, tail: nat)

  function Put<T>(r: Ring<T>, x: T): (r': Ring<T>)
    requires |r.slots| > 0
    ensures |r'.slots| == |r.slots|
  {
    r.(slots := r.slots[r.tail % |r.slots| := x], tail := r.tail + 1)
  }

  function Peek<T>(r: Ring<T>): T
    requires |r.slots| > 0
  {
    r.slots[r.head % |r.slots|]
  }

  function Drop<T>(r: Ring<T>): Ring<T> {
    r.(head := r.head + 1)
  }

  predicate IsEmpty<T>(r: Ring<T>) {
    r.head >= r.tail
  }

  // ---- What the slots hold ----

  /** `log` is everything enqueued so far; its last |slots| entries are in their slots. */
  ghost predicate Records<T>(r: Ring<T>, log: seq<T>) {
    && |r.slots| > 0 && |log| == r.tail
    && forall k :: 0 <= k < r.tail && r.tail - k <= |r.slots| ==> r.slots[k % |r.slots|] == log[k]
  }

  /** Quotient and remainder are unique. */
  lemma DivMod(x: nat, q: nat, m: nat, c: nat)
    requires x == c * q + m && m < c
    ensures x / c == q && x % c == m
  {
    var d := x / c - q;
    assert c * d == m - x % c by {
      assert x == c * (x / c) + x % c;
    }
    assert d == 0;
  }

  lemma ModDistinct(a: nat, b: nat, c: nat)
    requires 0 < c && a < b < a + c
    ensures a % c != b % c
  {
    var q, m := a / c, a % c;
    var e := m + (b - a);
    if e < c {
      DivMod(b, q, e, c);
    } else {
      DivMod(b, q + 1, e - c, c);
    }
  }

  lemma PutRecords<T>(r: Ring<T>, log: seq<T>, x: T)
    requires Records(r, log)
    ensures Records(Put(r, x), log + [x])
  {
    var c, r', log' := |r.slots|, Put(r, x), log + [x];
    forall k | 0 <= k < r'.tail && r'.tail - k <= c
      ensures r'.slots[k % c] == log'[k]
    {
      if k < r.tail {
        ModDistinct(k, r.tail, c);
        assert r.slots[k % c] == log[k];
      }
    }
  }

  /** The last enqueue that used the slot of enqueue `k`, when `t` payments have been enqueued. */
  function LastInSlot(k: nat, t: nat, c: nat): nat
    requires 0 < c && k < t
  {
    k + c * ((t - 1 - k) / c)
  }

  lemma LastInSlotMeans(k: nat, t: nat, c: nat)
    requires 0 < c && k < t
    ensures k <= LastInSlot(k, t, c) < t && t - LastInSlot(k, t, c) <= c
    ensures LastInSlot(k, t, c) % c == k % c
    ensures t - k <= c ==> LastInSlot(k, t, c) == k
  {
    var q := (t - 1 - k) / c;
    assert c * q <= t - 1 - k < c * q + c;
    if t - k <= c {
      assert q == 0;
    }
    ModShift(k, q, c);
  }

  lemma ModShift(k: nat, q: nat, c: nat)
    requires 0 < c
    ensures (k + c * q) % c == k % c
  {
    assert k + c * q == c * (k / c + q) + k % c;
    DivMod(k + c * q, k / c + q, k % c, c);
  }

  /** Overflow included: a fetch returns the last payment enqueued into the head's slot. */
  lemma FetchReturns<T>(r: Ring<T>, log: seq<T>)
    requires Records(r, log) && !IsEmpty(r)
    ensures LastInSlot(r.head, r.tail, |r.slots|) < |log|
    ensures Peek(r) == log[LastInSlot(r.head, r.tail, |r.slots|)]
  {
    LastInSlotMeans(r.head, r.tail, |r.slots|);
  }

  // ---- Without overflow ----

  ghost predicate Fits<T>(r: Ring<T>) {
    |r.slots| > 0 && r.head <= r.tail <= r.head + |r.slots|
  }

  /** The payments that are waiting, oldest first. */
  ghost function Pending<T>(r: Ring<T>): (s: seq<T>)
    requires Fits(r)
    ensures |s| == r.tail - r.head
  {
    seq(r.tail - r.head, i requires 0 <= i < r.tail - r.head => r.slots[(r.head + i) % |r.slots|])
  }

  lemma PutPending<T>(r: Ring<T>, x: T)
    requires Fits(r) && Fits(Put(r, x))
    ensures Pending(Put(r, x)) == Pending(r) + [x]
  {
    var c, n := |r.slots|, r.tail - r.head;
    forall i | 0 <= i < n
      ensures Pending(Put(r, x))[i] == Pending(r)[i]
    {
      var k := r.head + i;
      ModDistinct(k, r.tail, c);
      assert Put(r, x).slots[k % c] == r.slots[k % c];
    }
  }

  lemma DropPending<T>(r: Ring<T>)
    requires Fits(r) && !IsEmpty(r)
    ensures Fits(Drop(r)) && Pending(r) == [Peek(r)] + Pending(Drop(r))
  {
    forall i | 0 < i < r.tail - r.head
      ensures Pending(r)[i] == Pending(Drop(r))[i - 1]
    {
      assert r.head + i == Drop(r).head + (i - 1);
    }
  }

  // ---- Whole runs ----

  datatype Op<T> = Enqueue(x: T) | Fetch

  function Empty<T>(slots: seq<T>): Ring<T> {
    Ring(slots, 0, 0)
  }

  /** One call. A fetch from an empty queue returns nothing. */
  function Do<T>(r: Ring<T>, op: Op<T>): (Ring<T>, seq<T>)
    requires |r.slots| > 0
  {
    match op
    case Enqueue(x) => (Put(r, x), [])
    case Fetch => if IsEmpty(r) then (r, []) else (Drop(r), [Peek(r)])
  }

  function After<T>(slots: seq<T>, ops: seq<Op<T>>): (r: Ring<T>)
    requires |slots| > 0
    ensures |r.slots| == |slots|
  {
    if ops == [] then Empty(slots) else Do(After(slots, ops[..|ops| - 1]), ops[|ops| - 1]).0
  }

  /** Everything the fetches of a run returned. */
  function Fetched<T>(slots: seq<T>, ops: seq<Op<T>>): seq<T>
    requires |slots| > 0
  {
    if ops == [] then []
    else Fetched(slots, ops[..|ops| - 1]) + Do(After(slots, ops[..|ops| - 1]), ops[|ops| - 1]).1
  }

  /** Everything the run enqueued. */
  function Enqueued<T>(ops: seq<Op<T>>): seq<T> {
    if ops == [] then []
    else Enqueued(ops[..|ops| - 1]) + match ops[|ops| - 1] case Enqueue(x) => [x] case Fetch => []
  }

  lemma {:induction false} RunRecords<T>(slots: seq<T>, ops: seq<Op<T>>)
    requires |slots| > 0
    ensures Records(After(slots, ops), Enqueued(ops)) && After(slots, ops).head <= After(slots, ops).tail
  {
    if ops != [] {
      var before, op := ops[..|ops| - 1], ops[|ops| - 1];
      RunRecords(slots, before);
      if op.Enqueue? {
        PutRecords(After(slots, before), Enqueued(before), op.x);
      }
    }
  }

  /** In every run, the fetch with head = k and tail = t > k returns enqueue number
      k + C * ((t - 1 - k) / C). */
  lemma FetchInEveryRun<T>(slots: seq<T>, ops: seq<Op<T>>)
    requires |slots| > 0 && !IsEmpty(After(slots, ops))
    ensures var r := After(slots, ops);
            var n := LastInSlot(r.head, r.tail, |slots|);
            n < |Enqueued(ops)| && Do(r, Fetch).1 == [Enqueued(ops)[n]]
  {
    hide Records, After, Enqueued;
    RunRecords(slots, ops);
    FetchReturns(After(slots, ops), Enqueued(ops));
  }

  /** No prefix of the run overflows the ring. */
  ghost predicate NeverOverflows<T>(slots: seq<T>, ops: seq<Op<T>>)
    requires |slots| > 0
  {
    forall n :: 0 <= n <= |ops| ==> Fits(After(slots, ops[..n]))
  }

  /** While it does not overflow, the ring is an unbounded FIFO: what was fetched, followed by what
      is waiting, is what was enqueued. */
  lemma {:induction false} RefinesFifo<T>(slots: seq<T>, ops: seq<Op<T>>)
    requires |slots| > 0 && NeverOverflows(slots, ops)
    ensures Fits(After(slots, ops)) && Fetched(slots, ops) + Pending(After(slots, ops)) == Enqueued(ops)
  {
    hide Fits, Pending, Do;
    assert ops[..|ops|] == ops;
    if ops == [] {
      EmptyPending(slots);
    } else {
      var n := |ops| - 1;
      var before, op := ops[..n], ops[n];
      forall k | 0 <= k <= n
        ensures Fits(After(slots, before[..k]))
      {
        assert before[..k] == ops[..k];
      }
      RefinesFifo(slots, before);
      DoKeepsOrder(After(slots, before), op, Fetched(slots, before), Enqueued(before));
    }
  }

  lemma EmptyPending<T>(slots: seq<T>)
    requires |slots| > 0
    ensures Fits(Empty(slots)) && Pending(Empty(slots)) == []
  {
  }

  /** One call moves at most one payment, from the front of what is waiting to what was fetched. */
  lemma DoKeepsOrder<T>(r: Ring<T>, op: Op<T>, fetched: seq<T>, enqueued: seq<T>)
    requires Fits(r) && Fits(Do(r, op).0) && fetched + Pending(r) == enqueued
    ensures fetched + Do(r, op).1 + Pending(Do(r, op).0)
            == enqueued + match op case Enqueue(x) => [x] case Fetch => []
  {
    hide Pending;
    if op.Enqueue? {
      PutPending(r, op.x);
    } else if !IsEmpty(r) {
      DropPending(r);
    }
  }

  // ---- The queue itself ----

  class WorkerQueue<T(0)> {
    const queue: array<T>
    var head: nat
    var tail: nat

    predicate Valid()
      reads this
    {
      queue.Length > 0
    }

    /** The ring as a value. */
    function Now(): (r: Ring<T>)
      reads this, queue
      ensures |r.slots| == queue.Length
    {
      Ring(queue[..], head, tail)
    }

    constructor (capacity: nat)
      requires capacity > 0
      ensures Valid() && fresh(queue) && queue.Length == capacity && Now() == Empty(queue[..])
    {
      queue := new T[capacity];
      head := 0;
      tail := 0;
    }

    method Push(x: T)
      requires Valid()
      modifies this, queue
      ensures Valid() && Now() == Put(old(Now()), x)
    {
      var pos := tail;
      tail := tail + 1;
      queue[pos % queue.Length] := x;
    }

    method FetchNext(running: bool) returns (r: Option<T>)
      requires Valid()
      modifies this
      ensures Valid()
      ensures if running && !IsEmpty(old(Now())) then r == Some(Peek(old(Now()))) && Now() == Drop(old(Now()))
              else r == None && Now() == old(Now())
    {
      if !running || head >= tail {
        return None;
      }
      var idx := head;
      head := head + 1;
      r := Some(queue[idx % queue.Length]);
    }
  }
}
