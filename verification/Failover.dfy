/**
 The two-processor failover: which processor is primary, which are down, and how
 an answer or a timing comparison swaps them.
 */
module Failover {
  /** `ProcessorResult::Default` and `ProcessorResult::Fallback`. */
  datatype Processor = Default | Fallback

  datatype Config = Config(defaultUrl: string, fallbackUrl: string, feeDifference: real, enabled: bool)

  /** The labels, URLs, down flags, last timings and the once-per-probe evaluation flag. */
  datatype Routing = Routing(
    primary: Processor, secondary: Processor, mainUrl: string, testUrl: string,
    defaultDown: bool, fallbackDown: bool, defaultTime: real, fallbackTime: real, evaluated: bool)

  function Start(c: Config): Routing {
    Routing(Default, Fallback, c.defaultUrl, c.fallbackUrl, false, !c.enabled, 0.0, 0.0, true)
  }

  function Other(p: Processor): Processor {
    if p.Default? then Fallback else Default
  }

  function Url(c: Config, p: Processor): string {
    if p.Default? then c.defaultUrl else c.fallbackUrl
  }

  predicate IsDown(f: Routing, p: Processor) {
    if p.Default? then f.defaultDown else f.fallbackDown
  }

  function SetDown(f: Routing, p: Processor, down: bool): Routing {
    if p.Default? then f.(defaultDown := down) else f.(fallbackDown := down)
  }

  // ---- The operations ----

  function TriggerSwitch(c: Config, f: Routing): Routing {
    if !c.enabled then f
    else f.(mainUrl := f.testUrl, testUrl := f.mainUrl, primary := f.secondary, secondary := f.primary)
  }

  function UpdateTime(f: Routing, p: Processor, elapsed: real): Routing {
    if p.Default? then f.(defaultTime := elapsed) else f.(fallbackTime := elapsed)
  }

  /** The fallback is worth its fee. */
  predicate FallbackBetter(c: Config, f: Routing)
    requires f.fallbackTime != 0.0
  {
    f.fallbackTime < f.defaultTime && f.defaultTime / f.fallbackTime >= c.feeDifference
  }

  function EvaluateSwitch(c: Config, f: Routing): Routing {
    if !c.enabled || f.evaluated then f
    else
      var f1 := f.(evaluated := true);
      if f.defaultTime == 0.0 || f.fallbackTime == 0.0 then f1
      else if FallbackBetter(c, f) then
        if f.mainUrl == c.defaultUrl then TriggerSwitch(c, f1) else f1
      else if f.mainUrl != c.defaultUrl then TriggerSwitch(c, f1)
      else f1
  }

  function HandleResponse(c: Config, f: Routing, p: Processor, elapsed: real, code: int): Routing {
    if !c.enabled then f
    else if code == 500 then
      var f1 := SetDown(f, p, true);
      if f1.defaultDown && f1.fallbackDown then f1
      else if f1.defaultDown && f.primary.Default? then TriggerSwitch(c, f1)
      else if f1.fallbackDown && !f.primary.Default? then TriggerSwitch(c, f1)
      else f1
    else
      var f1 :=
        if IsDown(f, p) then
          var f2 := SetDown(f, p, false);
          if IsDown(f, Other(p)) then TriggerSwitch(c, f2) else f2
        else f;
      EvaluateSwitch(c, UpdateTime(f1, p, elapsed))
  }

  // ---- What every state keeps ----

  /** The labels are the two processors in some order, and each URL belongs to its label. */
  ghost predicate Aligned(c: Config, f: Routing) {
    && f.secondary == Other(f.primary)
    && f.mainUrl == Url(c, f.primary) && f.testUrl == Url(c, f.secondary)
    && (!c.enabled ==> f.primary.Default?)
  }

  datatype Event = Answer(p: Processor, elapsed: real, code: int) | ProbeAnswered

  /** A worker's answer, or the pool job clearing `fallback_evaluated`. */
  function React(c: Config, f: Routing, e: Event): Routing {
    match e
    case Answer(p, elapsed, code) => HandleResponse(c, f, p, elapsed, code)
    case ProbeAnswered => f.(evaluated := false)
  }

  function ReactAll(c: Config, es: seq<Event>): Routing {
    if es == [] then Start(c) else React(c, ReactAll(c, es[..|es| - 1]), es[|es| - 1])
  }

  lemma SwitchKeepsAligned(c: Config, f: Routing)
    requires Aligned(c, f)
    ensures Aligned(c, TriggerSwitch(c, f))
  {
  }

  lemma EvaluateKeepsAligned(c: Config, f: Routing)
    requires Aligned(c, f)
    ensures Aligned(c, EvaluateSwitch(c, f))
  {
    hide TriggerSwitch, FallbackBetter, Url;
    SwitchKeepsAligned(c, f.(evaluated := true));
  }

  lemma ReactKeepsAligned(c: Config, f: Routing, e: Event)
    requires Aligned(c, f)
    ensures Aligned(c, React(c, f, e))
  {
    hide TriggerSwitch, EvaluateSwitch, Url;
    if e.Answer? {
      var down, up := SetDown(f, e.p, true), SetDown(f, e.p, false);
      assert Aligned(c, down) && Aligned(c, up);
      SwitchKeepsAligned(c, down);
      SwitchKeepsAligned(c, up);
      assert forall g :: Aligned(c, g) ==> Aligned(c, UpdateTime(g, e.p, e.elapsed));
      EvaluateKeepsAligned(c, UpdateTime(f, e.p, e.elapsed));
      EvaluateKeepsAligned(c, UpdateTime(up, e.p, e.elapsed));
      EvaluateKeepsAligned(c, UpdateTime(TriggerSwitch(c, up), e.p, e.elapsed));
    }
  }

  /** The code of the last answer of `p`, if it has answered. */
  function LastCode(es: seq<Event>, p: Processor): int {
    if es == [] then 0
    else
      var e := es[|es| - 1];
      if e.Answer? && e.p == p then e.code else LastCode(es[..|es| - 1], p)
  }

  lemma HandleResponseMarks(c: Config, f: Routing, p: Processor, elapsed: real, code: int)
    requires c.enabled
    ensures var f' := HandleResponse(c, f, p, elapsed, code);
            (IsDown(f', p) <==> code == 500) && IsDown(f', Other(p)) == IsDown(f, Other(p))
  {
  }

  /** In every reachable state the labels and URLs are aligned, and a processor is marked down
      exactly when its last answer was a 500. */
  lemma {:induction false} EveryReachableState(c: Config, es: seq<Event>)
    ensures Aligned(c, ReactAll(c, es))
    ensures c.enabled ==> forall p :: IsDown(ReactAll(c, es), p) <==> LastCode(es, p) == 500
  {
    if es != [] {
      var before, e := es[..|es| - 1], es[|es| - 1];
      EveryReachableState(c, before);
      ReactKeepsAligned(c, ReactAll(c, before), e);
      if e.Answer? && c.enabled {
        HandleResponseMarks(c, ReactAll(c, before), e.p, e.elapsed, e.code);
        forall p
          ensures IsDown(ReactAll(c, es), p) <==> LastCode(es, p) == 500
        {
          assert p == e.p || p == Other(e.p);
        }
      }
    }
  }

  /** A 500 from a processor makes the other one primary, unless both are now down. */
  lemma FailureMovesPrimary(c: Config, f: Routing, p: Processor, elapsed: real)
    requires c.enabled && Aligned(c, f) && !IsDown(f, Other(p))
    ensures HandleResponse(c, f, p, elapsed, 500).primary == Other(p)
  {
  }

  // ---- What an answer changes ----

  function TimeOf(f: Routing, p: Processor): real {
    if p.Default? then f.defaultTime else f.fallbackTime
  }

  ghost predicate BothFailed(es: seq<Event>) {
    LastCode(es, Default) == 500 && LastCode(es, Fallback) == 500
  }

  lemma ReactLast(c: Config, es: seq<Event>, e: Event)
    ensures ReactAll(c, es + [e]) == React(c, ReactAll(c, es), e)
  {
    hide React;
    assert (es + [e])[..|es|] == es;
  }

  /** After any history, a 500 makes the other processor primary unless that one failed last too, and
      leaves the timings alone. */
  lemma AfterFailure(c: Config, es: seq<Event>, p: Processor, elapsed: real)
    requires c.enabled
    ensures var (f, f') := (ReactAll(c, es), ReactAll(c, es + [Answer(p, elapsed, 500)]));
            && f'.primary == (if LastCode(es, Other(p)) == 500 then f.primary else Other(p))
            && f'.evaluated == f.evaluated && f'.defaultTime == f.defaultTime && f'.fallbackTime == f.fallbackTime
  {
    hide ReactAll, LastCode;
    EveryReachableState(c, es);
    ReactLast(c, es, Answer(p, elapsed, 500));
  }

  /** After any history, any other answer records the time of its processor. Where no evaluation is due
      it moves the primary exactly when both processors had failed last; where one is due the
      evaluation sees the primary moved by that rule. */
  lemma AfterAnswer(c: Config, es: seq<Event>, p: Processor, elapsed: real, code: int)
    requires c.enabled && code != 500
    ensures var (f, f') := (ReactAll(c, es), ReactAll(c, es + [Answer(p, elapsed, code)]));
            && TimeOf(f', p) == elapsed && TimeOf(f', Other(p)) == TimeOf(f, Other(p)) && f'.evaluated
            && (f.evaluated ==> (f'.primary != f.primary <==> BothFailed(es)))
            && (!f.evaluated ==>
                  f'.primary == Evaluated(c, if BothFailed(es) then Other(f.primary) else f.primary, f'.defaultTime, f'.fallbackTime))
  {
    hide ReactAll, LastCode, FallbackBetter, WorthItsFee;
    EveryReachableState(c, es);
    ReactLast(c, es, Answer(p, elapsed, code));
    var f := ReactAll(c, es);
    assert BothFailed(es) <==> IsDown(f, p) && IsDown(f, Other(p));
    var timed := UpdateTime(TriggerSwitch(c, SetDown(f, p, false)), p, elapsed);
    if timed.fallbackTime != 0.0 {
      FeeInTimes(c, timed);
      FeeInTimes(c, UpdateTime(f, p, elapsed));
      FeeInTimes(c, UpdateTime(SetDown(f, p, false), p, elapsed));
    }
  }

  /** After both have failed, the first to answer again finds the labels swapped, so the primary is up
      exactly when the one that answers was not primary. */
  lemma PrimaryAfterRecovery(c: Config, es: seq<Event>, p: Processor, elapsed: real, code: int)
    requires c.enabled && code != 500 && BothFailed(es) && ReactAll(c, es).evaluated
    ensures var (f, f') := (ReactAll(c, es), ReactAll(c, es + [Answer(p, elapsed, code)]));
            f'.primary == Other(f.primary) && (!IsDown(f', f'.primary) <==> f.primary != p)
  {
    hide ReactAll, HandleResponse, LastCode, Aligned;
    AfterAnswer(c, es, p, elapsed, code);
    EveryReachableState(c, es + [Answer(p, elapsed, code)]);
    LastCodeAppend(es, p, elapsed, code);
  }

  lemma LastCodeAppend(es: seq<Event>, p: Processor, elapsed: real, code: int)
    ensures var es' := es + [Answer(p, elapsed, code)];
            LastCode(es', p) == code && LastCode(es', Other(p)) == LastCode(es, Other(p))
  {
    assert (es + [Answer(p, elapsed, code)])[..|es|] == es;
  }

  /** Default fails, Fallback fails and answers again: Default is made primary, which is down. */
  lemma RecoveryMisleads(c: Config)
    requires c.enabled
    ensures var f := ReactAll(c, [Answer(Default, 1.0, 500), Answer(Fallback, 1.0, 500), Answer(Fallback, 1.0, 200)]);
            f.primary == Default && IsDown(f, Default) && !IsDown(f, Fallback)
  {
    var e0, e1, e2 := Answer(Default, 1.0, 500), Answer(Fallback, 1.0, 500), Answer(Fallback, 1.0, 200);
    assert [e0] == [] + [e0] && [e0, e1] == [e0] + [e1] && [e0, e1, e2] == [e0, e1] + [e2];
    ReactLast(c, [], e0);
    ReactLast(c, [e0], e1);
    ReactLast(c, [e0, e1], e2);
    assert ReactAll(c, [e0, e1]) == Routing(Fallback, Default, c.fallbackUrl, c.defaultUrl, true, true, 0.0, 0.0, true);
  }

  // ---- What an evaluation decides ----

  /** The fallback is faster, by the factor of its fee: `fee * fallback <= default` for the timings
      that can occur. */
  predicate WorthItsFee(fee: real, defaultTime: real, fallbackTime: real) {
    && fallbackTime < defaultTime
    && (if fallbackTime > 0.0 then fee * fallbackTime <= defaultTime else defaultTime <= fee * fallbackTime)
  }

  lemma FeeInTimes(c: Config, f: Routing)
    requires f.fallbackTime != 0.0
    ensures FallbackBetter(c, f) <==> WorthItsFee(c.feeDifference, f.defaultTime, f.fallbackTime)
  {
    var ratio := f.defaultTime / f.fallbackTime;
    assert ratio * f.fallbackTime == f.defaultTime;
    if f.fallbackTime > 0.0 {
      ScaleUp(c.feeDifference, ratio, f.fallbackTime);
    } else {
      ScaleUp(c.feeDifference, ratio, -f.fallbackTime);
    }
  }

  lemma ScaleUp(x: real, y: real, k: real)
    requires k > 0.0
    ensures x <= y <==> x * k <= y * k
  {
    assert (y - x) * k == y * k - x * k;
  }

  /** The processor an evaluation should leave as primary. */
  function Best(c: Config, f: Routing): Processor {
    if WorthItsFee(c.feeDifference, f.defaultTime, f.fallbackTime) then Fallback else Default
  }

  /** The primary after an evaluation that finds `primary`: the better one if both timings are known
      and the URLs can be told apart. */
  function Evaluated(c: Config, primary: Processor, defaultTime: real, fallbackTime: real): Processor {
    if defaultTime == 0.0 || fallbackTime == 0.0 then primary
    else if c.defaultUrl != c.fallbackUrl then (if WorthItsFee(c.feeDifference, defaultTime, fallbackTime) then Fallback else Default)
    else if WorthItsFee(c.feeDifference, defaultTime, fallbackTime) then Other(primary)
    else primary
  }

  /** An evaluation with both timings known leaves the better processor primary, exactly when the
      two URLs differ or Default was primary: with one URL for both, the test at the heart of the
      evaluation always says that Default is in use. */
  lemma EvaluationPicksBest(c: Config, f: Routing)
    requires c.enabled && Aligned(c, f) && !f.evaluated && f.defaultTime != 0.0 && f.fallbackTime != 0.0
    ensures EvaluateSwitch(c, f).primary == Best(c, f) <==> c.defaultUrl != c.fallbackUrl || f.primary.Default?
  {
    hide FallbackBetter, WorthItsFee;
    FeeInTimes(c, f);
  }

  /** A history after which the evaluation picks the worse processor. */
  lemma OneUrlMisleads()
    ensures var c := Config("u", "u", 3.0, true);
            var f := ReactAll(c, [Answer(Fallback, 2.0, 200), Answer(Default, 1.0, 500), Answer(Default, 6.0, 200), ProbeAnswered]);
            && f == Routing(Fallback, Default, "u", "u", false, false, 6.0, 2.0, false)
            && Best(c, f) == Fallback && EvaluateSwitch(c, f).primary == Default
  {
    var c := Config("u", "u", 3.0, true);
    var e0, e1, e2 := Answer(Fallback, 2.0, 200), Answer(Default, 1.0, 500), Answer(Default, 6.0, 200);
    assert [e0][..0] == [] && [e0, e1][..1] == [e0] && [e0, e1, e2][..2] == [e0, e1];
    assert [e0, e1, e2, ProbeAnswered][..3] == [e0, e1, e2];
    assert ReactAll(c, [e0]) == Routing(Default, Fallback, "u", "u", false, false, 0.0, 2.0, true);
    assert ReactAll(c, [e0, e1]) == Routing(Fallback, Default, "u", "u", true, false, 0.0, 2.0, true);
    assert ReactAll(c, [e0, e1, e2]) == Routing(Fallback, Default, "u", "u", false, false, 6.0, 2.0, true);
  }
}
