/**
 The per-second summary buckets and the range query over them, proved to refine
 a plain log of the stored payments. Amounts are exact numbers.
 */
module Ledger {
  import opened Bytes
  import opened Failover

  const WINDOW := 3000

  datatype Summary = Summary(totalRequests: nat, totalAmount: real)

  datatype SummaryPair = SummaryPair(def: Summary, fb: Summary)

  const NOTHING := Summary(0, 0.0)

  function Plus(a: Summary, b: Summary): Summary {
    Summary(a.totalRequests + b.totalRequests, a.totalAmount + b.totalAmount)
  }

  function PlusPair(a: SummaryPair, b: SummaryPair): SummaryPair {
    SummaryPair(Plus(a.def, b.def), Plus(a.fb, b.fb))
  }

  /** `processed_start` and the two bucket vectors. */
  datatype Buckets = Buckets(start: nat, defaults: seq<Summary>, fallbacks: seq<Summary>)

  /** A stored payment. */
  datatype Entry = Entry(id: nat, processor: Processor, second: nat, amount: real)

  predicate Shaped(b: Buckets) {
    |b.defaults| == WINDOW && |b.fallbacks| == WINDOW && b.start < TWO63
  }

  predicate InWindow(b: Buckets, second: nat) {
    b.start <= second < b.start + WINDOW
  }

  function Open(start: nat): Buckets {
    Buckets(start, seq(WINDOW, _ => NOTHING), seq(WINDOW, _ => NOTHING))
  }

  function Bump(s: Summary, amount: real): Summary {
    Summary(s.totalRequests + 1, s.totalAmount + amount)
  }

  /** `store_processed`, once the amount is known. */
  function Store(b: Buckets, enabled: bool, e: Entry): (r: Buckets)
    requires Shaped(b) && InWindow(b, e.second)
    ensures Shaped(r) && r.start == b.start
  {
    var i := e.second - b.start;
    if enabled && e.processor.Fallback? then b.(fallbacks := b.fallbacks[i := Bump(b.fallbacks[i], e.amount)])
    else b.(defaults := b.defaults[i := Bump(b.defaults[i], e.amount)])
  }

  // ---- The log ----

  /** The entries of `p` from second `lo` up to but not including `hi`. */
  ghost function Total(log: seq<Entry>, p: Processor, lo: int, hi: int): Summary {
    if log == [] then NOTHING
    else
      var e := log[|log| - 1];
      var rest := Total(log[..|log| - 1], p, lo, hi);
      if e.processor == p && lo <= e.second < hi then Summary(rest.totalRequests + 1, rest.totalAmount + e.amount) else rest
  }

  lemma {:induction false} TotalSplits(log: seq<Entry>, p: Processor, lo: int, mid: int, hi: int)
    requires lo <= mid <= hi
    ensures Plus(Total(log, p, lo, mid), Total(log, p, mid, hi)) == Total(log, p, lo, hi)
  {
    if log != [] {
      TotalSplits(log[..|log| - 1], p, lo, mid, hi);
    }
  }

  lemma {:induction false} TotalEmptyRange(log: seq<Entry>, p: Processor, lo: int, hi: int)
    requires hi <= lo
    ensures Total(log, p, lo, hi) == NOTHING
  {
    if log != [] {
      TotalEmptyRange(log[..|log| - 1], p, lo, hi);
    }
  }

  // ---- Buckets refine the log ----

  function Side(b: Buckets, p: Processor): seq<Summary> {
    if p.Default? then b.defaults else b.fallbacks
  }

  /** Every bucket is the total of its second, and nothing was stored outside the window. */
  ghost predicate Refines(b: Buckets, log: seq<Entry>) {
    && Shaped(b)
    && (forall k :: 0 <= k < |log| ==> InWindow(b, log[k].second))
    && (forall i, p :: 0 <= i < WINDOW ==> Side(b, p)[i] == Total(log, p, b.start + i, b.start + i + 1))
  }

  lemma {:induction false} OpenRefines(start: nat)
    requires start < TWO63
    ensures Refines(Open(start), [])
  {
  }

  lemma StoreRefines(b: Buckets, log: seq<Entry>, enabled: bool, e: Entry)
    requires Refines(b, log) && InWindow(b, e.second) && (enabled || e.processor.Default?)
    ensures Refines(Store(b, enabled, e), log + [e])
  {
    var b', log' := Store(b, enabled, e), log + [e];
    assert log'[..|log|] == log;
    forall i, p | 0 <= i < WINDOW
      ensures Side(b', p)[i] == Total(log', p, b.start + i, b.start + i + 1)
    {
      assert Side(b, p)[i] == Total(log, p, b.start + i, b.start + i + 1);
    }
  }

  /** The sum of the buckets from `lo` up to but not including `hi`. */
  function Sum(s: seq<Summary>, lo: nat, hi: nat): Summary
    requires hi <= |s|
    decreases hi
  {
    if hi <= lo then NOTHING else Plus(Sum(s, lo, hi - 1), s[hi - 1])
  }

  lemma {:induction false} SumIsTotal(b: Buckets, log: seq<Entry>, p: Processor, lo: nat, hi: nat)
    requires Refines(b, log) && hi <= WINDOW
    ensures Sum(Side(b, p), lo, hi) == Total(log, p, b.start + lo, b.start + hi)
    decreases hi
  {
    hide Total;
    if hi <= lo {
      TotalEmptyRange(log, p, b.start + lo, b.start + hi);
    } else {
      SumIsTotal(b, log, p, lo, hi - 1);
      assert Side(b, p)[hi - 1] == Total(log, p, b.start + (hi - 1), b.start + (hi - 1) + 1);
      TotalSplits(log, p, b.start + lo, b.start + (hi - 1), b.start + hi);
    }
  }

  // ---- The query ----

  function Wrap64(x: int): nat {
    x % TWO64
  }

  /** A uint64 read as an int64. */
  function Signed64(x: nat): int {
    if x < TWO63 then x else x - TWO64
  }

  /** The first bucket: the difference is taken in uint64, read as int64 and clamped below. */
  function FirstBucket(start: nat, fromMs: nat): nat {
    var d := Signed64(Wrap64(Wrap64(fromMs + 1000) / 1000 - start));
    if d < 0 then 0 else d
  }

  /** The last bucket: the difference is taken in uint64 and clamped above. */
  function LastBucket(start: nat, toMs: nat): (r: nat)
    ensures r < WINDOW
  {
    var d := Wrap64(toMs / 1000 - start);
    if d >= WINDOW then WINDOW - 1 else d
  }

  function Query(b: Buckets, fromMs: nat, toMs: nat): SummaryPair
    requires Shaped(b)
  {
    if toMs < fromMs then SummaryPair(NOTHING, NOTHING)
    else
      var lo, hi := FirstBucket(b.start, fromMs), LastBucket(b.start, toMs) + 1;
      SummaryPair(Sum(b.defaults, lo, hi), Sum(b.fallbacks, lo, hi))
  }

  /** The entries of `p` whose second, in milliseconds, is after `fromMs` and not after `toMs`. */
  ghost function RangeTotal(log: seq<Entry>, p: Processor, fromMs: int, toMs: int): Summary {
    if log == [] then NOTHING
    else
      var e := log[|log| - 1];
      var rest := RangeTotal(log[..|log| - 1], p, fromMs, toMs);
      if e.processor == p && fromMs < 1000 * e.second <= toMs then Summary(rest.totalRequests + 1, rest.totalAmount + e.amount) else rest
  }

  ghost function RangeTotals(log: seq<Entry>, fromMs: int, toMs: int): SummaryPair {
    SummaryPair(RangeTotal(log, Default, fromMs, toMs), RangeTotal(log, Fallback, fromMs, toMs))
  }

  /** Millisecond and bucket ranges that pick the same seconds give the same total. */
  lemma {:induction false} RangeIsTotal(log: seq<Entry>, p: Processor, fromMs: int, toMs: int, lo: int, hi: int)
    requires forall k :: 0 <= k < |log| ==> (fromMs < 1000 * log[k].second <= toMs <==> lo <= log[k].second < hi)
    ensures RangeTotal(log, p, fromMs, toMs) == Total(log, p, lo, hi)
  {
    if log != [] {
      var rest := log[..|log| - 1];
      assert forall k :: 0 <= k < |rest| ==> rest[k] == log[k];
      RangeIsTotal(rest, p, fromMs, toMs, lo, hi);
      assert log[|log| - 1] == log[|rest|];
    }
  }

  /** A query is the total of the seconds its buckets cover. */
  lemma QueryIsTotal(b: Buckets, log: seq<Entry>, fromMs: nat, toMs: nat)
    requires Refines(b, log) && fromMs <= toMs
    ensures var lo, hi := b.start + FirstBucket(b.start, fromMs), b.start + LastBucket(b.start, toMs) + 1;
            Query(b, fromMs, toMs) == SummaryPair(Total(log, Default, lo, hi), Total(log, Fallback, lo, hi))
  {
    hide FirstBucket, LastBucket, Total, Sum;
    var lo, hi := FirstBucket(b.start, fromMs), LastBucket(b.start, toMs) + 1;
    SumIsTotal(b, log, Default, lo, hi);
    SumIsTotal(b, log, Fallback, lo, hi);
  }

  lemma BucketBounds(start: nat, fromMs: nat, toMs: nat)
    requires start < TWO63 && fromMs + 1000 < TWO64 && toMs < TWO64
    ensures FirstBucket(start, fromMs) == if fromMs / 1000 + 1 < start then 0 else fromMs / 1000 + 1 - start
    ensures LastBucket(start, toMs) ==
              if toMs / 1000 < start || toMs / 1000 - start >= WINDOW then WINDOW - 1 else toMs / 1000 - start
  {
    assert (fromMs + 1000) / 1000 == fromMs / 1000 + 1;
  }

  /** Seconds in the window are picked by the buckets exactly when the range picks them,
      as long as the range does not end before the start. */
  lemma BucketsPick(b: Buckets, fromMs: nat, toMs: nat, second: nat)
    requires b.start < TWO63 && fromMs + 1000 < TWO64 && toMs < TWO64
    requires InWindow(b, second) && toMs >= 1000 * b.start
    ensures fromMs < 1000 * second <= toMs <==>
            b.start + FirstBucket(b.start, fromMs) <= second < b.start + LastBucket(b.start, toMs) + 1
  {
    hide FirstBucket, LastBucket;
    BucketBounds(b.start, fromMs, toMs);
    assert 1000 * second <= toMs <==> second <= toMs / 1000;
    assert fromMs < 1000 * second <==> second >= fromMs / 1000 + 1;
  }

  lemma QueryAfterStart(b: Buckets, log: seq<Entry>, fromMs: nat, toMs: nat)
    requires Refines(b, log) && fromMs <= toMs && fromMs + 1000 < TWO64 && toMs < TWO64 && toMs >= 1000 * b.start
    ensures Query(b, fromMs, toMs) == RangeTotals(log, fromMs, toMs)
  {
    hide FirstBucket, LastBucket, Total, RangeTotal, Query;
    QueryIsTotal(b, log, fromMs, toMs);
    var lo, hi := b.start + FirstBucket(b.start, fromMs), b.start + LastBucket(b.start, toMs) + 1;
    forall k | 0 <= k < |log|
      ensures fromMs < 1000 * log[k].second <= toMs <==> lo <= log[k].second < hi
    {
      BucketsPick(b, fromMs, toMs, log[k].second);
    }
    RangeIsTotal(log, Default, fromMs, toMs, lo, hi);
    RangeIsTotal(log, Fallback, fromMs, toMs, lo, hi);
  }

  /** A range that ends before the service started reports every payment: the difference wraps
      around and is then clamped to the last bucket. */
  lemma QueryBeforeStart(b: Buckets, log: seq<Entry>, fromMs: nat, toMs: nat)
    requires Refines(b, log) && fromMs <= toMs < 1000 * b.start && fromMs + 1000 < TWO64 && toMs < TWO64
    ensures Query(b, fromMs, toMs) == RangeTotals(log, -1, 1000 * (b.start + WINDOW))
  {
    hide FirstBucket, LastBucket, Total, RangeTotal, Query;
    QueryIsTotal(b, log, fromMs, toMs);
    BucketBounds(b.start, fromMs, toMs);
    assert fromMs / 1000 + 1 <= b.start;
    RangeIsTotal(log, Default, -1, 1000 * (b.start + WINDOW), b.start, b.start + WINDOW);
    RangeIsTotal(log, Fallback, -1, 1000 * (b.start + WINDOW), b.start, b.start + WINDOW);
  }

  lemma {:induction false} EmptyRange(log: seq<Entry>, fromMs: int, toMs: int)
    requires forall k :: 0 <= k < |log| ==> !(fromMs < 1000 * log[k].second <= toMs)
    ensures RangeTotals(log, fromMs, toMs) == SummaryPair(NOTHING, NOTHING)
  {
    if log != [] {
      var rest := log[..|log| - 1];
      assert forall k :: 0 <= k < |rest| ==> rest[k] == log[k];
      EmptyRange(rest, fromMs, toMs);
      assert log[|log| - 1] == log[|rest|];
    }
  }

  /** The clock is so far from the end of uint64 that the window, in milliseconds, fits below it. */
  ghost predicate ClockFits(b: Buckets) {
    1000 * (b.start + WINDOW) <= TWO64 - 1000
  }

  /** A range that begins in the last second of uint64 milliseconds, which is where the last second
      before 1970 is parsed to, reports every payment: the first second wraps around to zero. */
  lemma QueryWraps(b: Buckets, log: seq<Entry>, fromMs: nat, toMs: nat)
    requires Refines(b, log) && ClockFits(b) && TWO64 <= fromMs + 1000 && fromMs <= toMs < TWO64
    ensures Query(b, fromMs, toMs) == RangeTotals(log, -1, 1000 * (b.start + WINDOW))
  {
    hide Total, RangeTotal, Query;
    QueryIsTotal(b, log, fromMs, toMs);
    assert Wrap64(fromMs + 1000) == fromMs + 1000 - TWO64;
    assert FirstBucket(b.start, fromMs) == 0;
    assert toMs / 1000 - b.start >= WINDOW;
    assert LastBucket(b.start, toMs) == WINDOW - 1;
    RangeIsTotal(log, Default, -1, 1000 * (b.start + WINDOW), b.start, b.start + WINDOW);
    RangeIsTotal(log, Fallback, -1, 1000 * (b.start + WINDOW), b.start, b.start + WINDOW);
  }

  /** A log that is not empty has a total over its window. */
  lemma WholeLogCounts(b: Buckets, log: seq<Entry>)
    requires Refines(b, log) && log != []
    ensures RangeTotals(log, -1, 1000 * (b.start + WINDOW)) != SummaryPair(NOTHING, NOTHING)
  {
    hide Total;
    assert InWindow(b, log[|log| - 1].second);
    var whole := RangeTotals(log, -1, 1000 * (b.start + WINDOW));
    assert whole.def.totalRequests > 0 || whole.fb.totalRequests > 0;
  }

  /** The query answers the range asked for, exactly when the range is empty by its bounds, or nothing
      was stored, or the range neither ends before the start nor begins in the last second of uint64. */
  lemma QueryIsRangeTotal(b: Buckets, log: seq<Entry>, fromMs: nat, toMs: nat)
    requires Refines(b, log) && ClockFits(b) && fromMs < TWO64 && toMs < TWO64
    ensures Query(b, fromMs, toMs) == RangeTotals(log, fromMs, toMs) <==>
              toMs < fromMs || log == [] || (toMs >= 1000 * b.start && fromMs + 1000 < TWO64)
  {
    hide Total, Query, RangeTotals;
    if toMs < fromMs {
      EmptyRange(log, fromMs, toMs);
      EmptyQuery(b, fromMs, toMs);
    } else if toMs >= 1000 * b.start && fromMs + 1000 < TWO64 {
      QueryAfterStart(b, log, fromMs, toMs);
    } else {
      if toMs < 1000 * b.start {
        QueryBeforeStart(b, log, fromMs, toMs);
      } else {
        QueryWraps(b, log, fromMs, toMs);
      }
      EmptyRange(log, fromMs, toMs);
      if log == [] {
        EmptyRange(log, -1, 1000 * (b.start + WINDOW));
      } else {
        WholeLogCounts(b, log);
      }
    }
  }

  lemma EmptyQuery(b: Buckets, fromMs: nat, toMs: nat)
    requires Shaped(b) && toMs < fromMs
    ensures Query(b, fromMs, toMs) == SummaryPair(NOTHING, NOTHING)
  {
  }

  /** The input that wraps: the last second before 1970, asked of a service that has stored anything. */
  lemma LastSecondBefore1970(b: Buckets, log: seq<Entry>)
    requires Refines(b, log) && ClockFits(b) && log != []
    ensures var fromMs, toMs := TWO64 - 1000, TWO64 - 1;
            && toMs >= 1000 * b.start
            && RangeTotals(log, fromMs, toMs) == SummaryPair(NOTHING, NOTHING)
            && Query(b, fromMs, toMs) == RangeTotals(log, -1, 1000 * (b.start + WINDOW)) != SummaryPair(NOTHING, NOTHING)
  {
    hide Query, RangeTotals;
    QueryWraps(b, log, TWO64 - 1000, TWO64 - 1);
    EmptyRange(log, TWO64 - 1000, TWO64 - 1);
    WholeLogCounts(b, log);
  }

  lemma {:induction false} RangesAdd(log: seq<Entry>, p: Processor, a: int, b: int, c: int)
    requires a <= b <= c
    ensures Plus(RangeTotal(log, p, a, b), RangeTotal(log, p, b, c)) == RangeTotal(log, p, a, c)
  {
    if log != [] {
      RangesAdd(log[..|log| - 1], p, a, b, c);
    }
  }

  lemma RangeTotalsAdd(log: seq<Entry>, a: int, b: int, c: int)
    requires a <= b <= c
    ensures PlusPair(RangeTotals(log, a, b), RangeTotals(log, b, c)) == RangeTotals(log, a, c)
  {
    hide RangeTotal;
    RangesAdd(log, Default, a, b, c);
    RangesAdd(log, Fallback, a, b, c);
  }

  /** Something added makes a difference. */
  lemma NothingElseAdds(x: SummaryPair, y: SummaryPair)
    requires y != SummaryPair(NOTHING, NOTHING)
    ensures PlusPair(x, y) != x && PlusPair(y, x) != x
  {
  }

  lemma QueriesOverlap(b: Buckets, log: seq<Entry>, first: nat, mid: nat, last: nat)
    requires Refines(b, log) && ClockFits(b) && first <= mid <= last < TWO64 && log != []
    requires mid < 1000 * b.start || TWO64 <= mid + 1000
    ensures PlusPair(Query(b, first, mid), Query(b, mid, last)) != Query(b, first, last)
  {
    hide Query, RangeTotals, Total;
    var whole := RangeTotals(log, -1, 1000 * (b.start + WINDOW));
    WholeLogCounts(b, log);
    RangeTotalsAdd(log, first, mid, last);
    if mid < 1000 * b.start {
      QueryBeforeStart(b, log, first, mid);
      EmptyRange(log, first, mid);
      NothingElseAdds(Query(b, mid, last), whole);
      if last < 1000 * b.start {
        QueryBeforeStart(b, log, mid, last);
        QueryBeforeStart(b, log, first, last);
      } else {
        QueryAfterStart(b, log, mid, last);
        QueryAfterStart(b, log, first, last);
      }
    } else {
      QueryWraps(b, log, mid, last);
      EmptyRange(log, mid, last);
      NothingElseAdds(Query(b, first, mid), whole);
      if TWO64 <= first + 1000 {
        QueryWraps(b, log, first, mid);
        QueryWraps(b, log, first, last);
      } else {
        QueryAfterStart(b, log, first, mid);
        QueryAfterStart(b, log, first, last);
      }
    }
  }

  /** Adjacent ranges add up, exactly when nothing was stored or the query is right where they meet. */
  lemma QueriesAdd(b: Buckets, log: seq<Entry>, first: nat, mid: nat, last: nat)
    requires Refines(b, log) && ClockFits(b) && first <= mid <= last < TWO64
    ensures PlusPair(Query(b, first, mid), Query(b, mid, last)) == Query(b, first, last)
            <==> log == [] || (1000 * b.start <= mid && mid + 1000 < TWO64)
  {
    hide Query, RangeTotals, PlusPair;
    RangeTotalsAdd(log, first, mid, last);
    if log == [] {
      QueryIsRangeTotal(b, log, first, mid);
      QueryIsRangeTotal(b, log, mid, last);
      QueryIsRangeTotal(b, log, first, last);
    } else if 1000 * b.start <= mid && mid + 1000 < TWO64 {
      QueryAfterStart(b, log, first, mid);
      QueryAfterStart(b, log, mid, last);
      QueryAfterStart(b, log, first, last);
    } else {
      QueriesOverlap(b, log, first, mid, last);
    }
  }
}
