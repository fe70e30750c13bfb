/**
 Feeding the events of a value to a start validator ends in a valid state
 exactly when the value satisfies the schema.
 */
module SchemaEquivalence {
  import opened Bytes
  import opened Json
  import opened Dom
  import opened Schema
  import opened SchemaValidator

  // ---- Sequences of events ----

  lemma {:induction false} FeedAllConcat(v: Validator, a: seq<Event>, b: seq<Event>)
    requires Sound(v)
    ensures FeedAll(v, a + b) == FeedAll(FeedAll(v, a), b)
    decreases |a|
  {
    hide Feed;
    if a == [] {
      assert a + b == b;
    } else {
      assert (a + b)[1..] == a[1..] + b;
      FeedAllConcat(Feed(v, a[0]), a[1..], b);
    }
  }

  lemma FeedAllOne(v: Validator, e: Event)
    requires Sound(v)
    ensures FeedAll(v, [e]) == Feed(v, e)
  {
    hide Feed;
    assert [e][1..] == [];
  }

  /** Once invalid, always invalid. */
  lemma {:induction false} FeedAllInvalid(v: Validator, ev: seq<Event>)
    requires Sound(v) && !v.valid
    ensures FeedAll(v, ev) == v
    decreases |ev|
  {
    if ev != [] {
      FeedAllInvalid(v, ev[1..]);
    }
  }

  // ---- Contexts that have been fed ----

  /** `subs'` are the parallel validators `subs` after the events `ev`. */
  ghost predicate SubsFed(subs: seq<Validator>, subs': seq<Validator>, ev: seq<Event>) {
    && |subs'| == |subs|
    && forall j :: 0 <= j < |subs| ==> Sound(subs[j]) && subs'[j] == FeedAll(subs[j], ev)
  }

  ghost predicate Fed(c: Context, c': Context, ev: seq<Event>) {
    c' == c.(subs := c'.subs) && SubsFed(c.subs, c'.subs, ev)
  }

  ghost predicate AllFed(stack: seq<Context>, stack': seq<Context>, ev: seq<Event>) {
    && |stack'| == |stack|
    && forall i :: 0 <= i < |stack| ==> Fed(stack[i], stack'[i], ev)
  }

  lemma SubsFedCompose(s0: seq<Validator>, s1: seq<Validator>, s2: seq<Validator>, a: seq<Event>, b: seq<Event>)
    requires SubsFed(s0, s1, a) && SubsFed(s1, s2, b)
    ensures SubsFed(s0, s2, a + b)
  {
    forall j | 0 <= j < |s0|
      ensures s2[j] == FeedAll(s0[j], a + b)
    {
      FeedAllConcat(s0[j], a, b);
    }
  }

  lemma AllFedCompose(s0: seq<Context>, s1: seq<Context>, s2: seq<Context>, a: seq<Event>, b: seq<Event>)
    requires AllFed(s0, s1, a) && AllFed(s1, s2, b)
    ensures AllFed(s0, s2, a + b)
  {
    hide SubsFed;
    forall i | 0 <= i < |s0|
      ensures Fed(s0[i], s2[i], a + b)
    {
      assert Fed(s0[i], s1[i], a) && Fed(s1[i], s2[i], b);
      SubsFedCompose(s0[i].subs, s1[i].subs, s2[i].subs, a, b);
    }
  }

  lemma {:induction false} FeedSubsFeeds(subs: seq<Validator>, e: Event, bound: Schema)
    requires forall j :: 0 <= j < |subs| ==> subs[j].root < bound && Sound(subs[j])
    ensures SubsFed(subs, FeedSubs(subs, e, bound), [e])
    decreases |subs|
  {
    hide Feed, FeedAll, Sound;
    if subs != [] {
      FeedSubsFeeds(subs[1..], e, bound);
      FeedAllOne(subs[0], e);
      var r, rest := FeedSubs(subs, e, bound), FeedSubs(subs[1..], e, bound);
      forall j | 0 <= j < |subs|
        ensures r[j] == FeedAll(subs[j], [e])
      {
        if j > 0 {
          assert r[j] == rest[j - 1] && subs[1..][j - 1] == subs[j];
        }
      }
    }
  }

  lemma {:induction false} FeedContextsFeeds(stack: seq<Context>, e: Event, root: Schema)
    requires forall i :: 0 <= i < |stack| ==> ContextSound(root, stack[i])
    ensures AllFed(stack, FeedContexts(stack, e, root), [e])
    decreases |stack|
  {
    hide SubsFed, ContextSound, FeedSubs;
    if stack != [] {
      FeedContextsFeeds(stack[1..], e, root);
      SubsBelow(root, stack[0]);
      FeedSubsFeeds(stack[0].subs, e, root);
      var r, rest := FeedContexts(stack, e, root), FeedContexts(stack[1..], e, root);
      forall i | 0 <= i < |stack|
        ensures Fed(stack[i], r[i], [e])
      {
        if i > 0 {
          assert r[i] == rest[i - 1] && stack[1..][i - 1] == stack[i];
        }
      }
    }
  }

  lemma ForwardFeeds(v: Validator, e: Event)
    requires Sound(v)
    ensures AllFed(v.stack, Forward(v, e).stack, [e])
  {
    FeedContextsFeeds(v.stack, e, v.root);
  }

  // ---- The parallel validators' verdict ----

  lemma {:induction false} CountZero(subs: seq<Validator>)
    ensures CountValid(subs) == 0 <==> forall i :: 0 <= i < |subs| ==> !subs[i].valid
  {
    if subs != [] {
      CountZero(subs[1..]);
      assert forall i :: 0 < i < |subs| ==> subs[i] == subs[1..][i - 1];
    }
  }

  ghost predicate OnlyValid(subs: seq<Validator>, i: int) {
    && 0 <= i < |subs| && subs[i].valid
    && forall j :: 0 <= j < |subs| && j != i ==> !subs[j].valid
  }

  lemma {:induction false} CountOne(subs: seq<Validator>)
    ensures CountValid(subs) == 1 <==> exists i :: OnlyValid(subs, i)
  {
    if subs != [] {
      var rest := subs[1..];
      assert forall i :: 0 < i < |subs| ==> subs[i] == rest[i - 1];
      if subs[0].valid {
        CountZero(rest);
        if CountValid(subs) == 1 {
          assert OnlyValid(subs, 0);
        }
      } else {
        CountOne(rest);
        if i :| OnlyValid(rest, i) {
          assert OnlyValid(subs, i + 1);
        }
        if i :| OnlyValid(subs, i) {
          assert forall j :: 0 <= j < |rest| ==> rest[j] == subs[j + 1];
          assert OnlyValid(rest, i - 1);
        }
      }
    }
  }

  /** Validators that decide validity against `ss`. */
  ghost predicate Decide(subs: seq<Validator>, ss: seq<Schema>, x: Value) {
    && |subs| == |ss|
    && forall j :: 0 <= j < |ss| ==> (subs[j].valid <==> IsValid(ss[j], x))
  }

  lemma OneOfAgrees(subs: seq<Validator>, ss: seq<Schema>, x: Value)
    requires Decide(subs, ss, x)
    ensures CountValid(subs) == 1 <==> SatisfiesOne(ss, x)
  {
    hide IsValid;
    CountOne(subs);
    if i :| OnlyValid(subs, i) {
      assert IsValid(ss[i], x);
    }
    if i :| 0 <= i < |ss| && IsValid(ss[i], x) && forall j :: 0 <= j < |ss| && j != i ==> !IsValid(ss[j], x) {
      assert OnlyValid(subs, i);
    }
  }

  lemma AnyAgrees(subs: seq<Validator>, ss: seq<Schema>, x: Value)
    requires Decide(subs, ss, x)
    ensures AnyValid(subs) <==> SatisfiesAny(ss, x)
    ensures AllValid(subs) <==> SatisfiesAll(ss, x)
  {
    hide IsValid;
    if i :| 0 <= i < |ss| && IsValid(ss[i], x) {
      assert subs[i].valid;
    }
  }

  lemma DecideSlice(subs: seq<Validator>, ss: seq<Schema>, x: Value, a: nat, b: nat)
    requires Decide(subs, ss, x) && a <= b <= |ss|
    ensures Decide(subs[a..b], ss[a..b], x)
  {
    hide IsValid;
    forall j | 0 <= j < b - a
      ensures subs[a..b][j].valid <==> IsValid(ss[a..b][j], x)
    {
      assert subs[a..b][j] == subs[a + j] && ss[a..b][j] == ss[a + j];
    }
  }

  lemma SubsAgreeMeans(s: Schema, subs: seq<Validator>, x: Value)
    requires Decide(subs, SubSchemas(s), x)
    ensures SubsAgree(s, subs) <==> Combined(s, x)
  {
    hide IsValid, CountValid, Decide, AnyValid, AllValid, SatisfiesAll, SatisfiesAny, SatisfiesOne;
    var a, b, c := |s.allOf|, |s.allOf| + |s.anyOf|, |s.allOf| + |s.anyOf| + |s.oneOf|;
    var ss := SubSchemas(s);
    DecideLength(subs, ss, x);
    DecideSlice(subs, ss, x, 0, a);
    DecideSlice(subs, ss, x, a, b);
    DecideSlice(subs, ss, x, b, c);
    DecideSlice(subs, ss, x, c, |ss|);
    assert ss[0..a] == s.allOf && ss[a..b] == s.anyOf && ss[b..c] == s.oneOf && ss[c..|ss|] == s.notOf;
    AnyAgrees(subs[0..a], s.allOf, x);
    AnyAgrees(subs[a..b], s.anyOf, x);
    OneOfAgrees(subs[b..c], s.oneOf, x);
    AnyAgrees(subs[c..|ss|], s.notOf, x);
    assert subs[0..a] == subs[..a] && subs[c..|ss|] == subs[c..];
  }

  lemma DecideLength(subs: seq<Validator>, ss: seq<Schema>, x: Value)
    requires Decide(subs, ss, x)
    ensures |subs| == |ss|
  {
  }

  // ---- Well-formed schemas below a well-formed schema ----

  lemma SubWellFormed(s: Schema, j: nat)
    requires WellFormed(s) && j < |SubSchemas(s)|
    ensures SubSchemas(s)[j] < s && WellFormed(SubSchemas(s)[j])
  {
    SubSchemaBelow(s, s, j);
    var sub := SubSchemas(s)[j];
    assert sub in s.allOf || sub in s.anyOf || sub in s.oneOf || sub in s.notOf;
  }

  lemma TypelessWellFormed()
    ensures WellFormed(TYPELESS)
  {
  }

  lemma ElementWellFormed(s: Schema, i: nat)
    requires WellFormed(s)
    ensures ElementSchema(s, i).Some? ==> WellFormed(ElementSchema(s, i).value)
  {
    TypelessWellFormed();
  }

  lemma MemberWellFormed(s: Schema, name: seq<Byte>)
    requires WellFormed(s)
    ensures MemberSchema(s, name).Some? ==> WellFormed(MemberSchema(s, name).value)
  {
    TypelessWellFormed();
    var i := FindProperty(s.properties, name);
    if i < |s.properties| {
      assert PropertyWellFormed(s.properties[i]);
    }
  }

  // ---- A value that is being read ----

  /** After the events `ev` of a value checked against `s`: every context outside it has been fed
      `ev`, and its own context's parallel validators have been fed `ev` from fresh. */
  ghost predicate Underway(outer: seq<Context>, s: Schema, stack: seq<Context>, ev: seq<Event>) {
    && |stack| == |outer| + 1
    && AllFed(outer, stack[..|outer|], ev)
    && stack[|outer|].schema == s
    && SubsFed(FreshSubs(SubSchemas(s)), stack[|outer|].subs, ev)
  }

  lemma UnderwayStep(outer: seq<Context>, s: Schema, stack: seq<Context>, stack': seq<Context>,
                     a: seq<Event>, b: seq<Event>)
    requires Underway(outer, s, stack, a) && AllFed(stack, stack', b)
    ensures Underway(outer, s, stack', a + b)
    ensures stack'[|outer|] == stack[|outer|].(subs := stack'[|outer|].subs)
  {
    hide SubsFed, SubSchemas, FreshSubs;
    var n := |outer|;
    assert Fed(stack[n], stack'[n], b);
    SubsFedCompose(FreshSubs(SubSchemas(s)), stack[n].subs, stack'[n].subs, a, b);
    forall i | 0 <= i < n
      ensures Fed(stack[..n][i], stack'[..n][i], b)
    {
      assert Fed(stack[i], stack'[i], b);
    }
    AllFedCompose(outer, stack[..n], stack'[..n], a, b);
  }

  /** Moving the array index of the open value changes nothing that matters to the others. */
  lemma UnderwayTop(outer: seq<Context>, s: Schema, stack: seq<Context>, top: Context, ev: seq<Event>)
    requires Underway(outer, s, stack, ev)
    requires top.schema == s && top.subs == stack[|outer|].subs
    ensures Underway(outer, s, stack[|outer| := top], ev)
  {
    hide SubsFed, Fed, SubSchemas, FreshSubs;
    assert stack[|outer| := top][..|outer|] == stack[..|outer|];
  }

  /** What the first event of a value leaves behind. */
  lemma OpenedUnderway(v: Validator, s: Schema, e: Event)
    requires Sound(v) && v.valid && NextSchema(v.stack, v.root) == Some(s)
    ensures Opened(v, e).valid <==> TypeAllowsEvent(s.types, e)
    ensures Opened(v, e).valid ==>
              && Underway(Bump(v.stack), s, Opened(v, e).stack, [e])
              && var top := Opened(v, e).stack[|v.stack|];
                 top == NewContext(s, e).(subs := top.subs)
  {
    hide SubsFed, TypeAllowsEvent, SubSchemas, FreshSubs, Sound, FeedContexts;
    if TypeAllowsEvent(s.types, e) {
      BeginSound(v, e);
      var v1 := Begin(v, e);
      ForwardFeeds(v1, e);
      var n := |v.stack|;
      assert |Bump(v.stack)| == n;
      assert Fed(v1.stack[n], Opened(v, e).stack[n], [e]);
      forall i | 0 <= i < n
        ensures Fed(Bump(v.stack)[i], Opened(v, e).stack[i], [e])
      {
        assert v1.stack[i] == Bump(v.stack)[i];
        assert Fed(v1.stack[i], Opened(v, e).stack[i], [e]);
      }
    }
  }

  /** The parallel validators for `s` decide validity of `x`. */
  ghost predicate SubsJudged(s: Schema, x: Value) {
    forall j :: 0 <= j < |SubSchemas(s)| ==>
                  (FeedAll(Fresh(SubSchemas(s)[j]), Accept(x)).valid <==> IsValid(SubSchemas(s)[j], x))
  }

  /** Closing a value: the parallel validators have the last word. */
  lemma EndVerdict(outer: seq<Context>, s: Schema, v: Validator, x: Value)
    requires Sound(v) && v.valid && Underway(outer, s, v.stack, Accept(x))
    requires SubsJudged(s, x)
    ensures End(v).valid <==> Combined(s, x)
    ensures End(v).valid ==> AllFed(outer, End(v).stack, Accept(x))
  {
    hide IsValid, SubsAgree, Combined, FeedAll, Accept, Fed;
    var subs := v.stack[|outer|].subs;
    var start := FreshSubs(SubSchemas(s));
    forall j | 0 <= j < |subs|
      ensures subs[j].valid <==> IsValid(SubSchemas(s)[j], x)
    {
      assert subs[j] == FeedAll(start[j], Accept(x)) && start[j] == Fresh(SubSchemas(s)[j]);
    }
    SubsAgreeMeans(s, subs, x);
  }

  // ---- The verdict on a whole value ----

  lemma FirstEvent(x: Value)
    ensures Accept(x) != []
    ensures forall t :: TypeAllowsEvent(t, Accept(x)[0]) <==> TypeAllows(t, x)
    ensures !Accept(x)[0].Key? && !Accept(x)[0].EndArray? && !Accept(x)[0].EndObject?
  {
  }

  /** A value where none is allowed. */
  lemma FeedForbidden(v: Validator, x: Value)
    requires Sound(v) && v.valid && NextSchema(v.stack, v.root).None?
    ensures !FeedAll(v, Accept(x)).valid
  {
    hide Accept, TypeAllowsEvent, TypeAllows;
    FirstEvent(x);
    var e := Accept(x)[0];
    assert !Opened(v, e).valid;
    FeedAllInvalid(Feed(v, e), Accept(x)[1..]);
  }

  /** What feeding a whole value does: the value is valid, and then the validator has only moved
      past it, or the validator has become invalid. */
  ghost predicate Judged(v: Validator, s: Schema, x: Value) {
    && Sound(v)
    && var r := FeedAll(v, Accept(x));
       if IsValid(s, x) then r.valid && AllFed(Bump(v.stack), r.stack, Accept(x)) else !r.valid
  }

  lemma FeedScalar(v: Validator, s: Schema, x: Value)
    requires Sound(v) && v.valid && NextSchema(v.stack, v.root) == Some(s)
    requires !x.ArrayValue? && !x.ObjectValue? && SubsJudged(s, x)
    ensures Judged(v, s, x)
  {
    hide SubsJudged, Underway, NextSchema, AllFed, Opened, End, Combined, TypeAllows, TypeAllowsEvent;
    var e := Accept(x)[0];
    assert Accept(x) == [e];
    FeedAllOne(v, e);
    FirstEvent(x);
    OpenedUnderway(v, s, e);
    if Opened(v, e).valid {
      EndVerdict(Bump(v.stack), s, Opened(v, e), x);
    }
  }

  /** The end of a container whose contents were valid. */
  lemma CloseVerdict(outer: seq<Context>, s: Schema, v: Validator, ev: seq<Event>, e: Event, x: Value)
    requires Sound(v) && v.valid && Underway(outer, s, v.stack, ev) && (e.EndObject? || e.EndArray?)
    requires Accept(x) == ev + [e] && SubsJudged(s, x)
    ensures var top := v.stack[|outer|];
            var ends := if e.EndObject? then ObjectEnds(top, e.members) else ArrayEnds(top, e.elements);
            && (Feed(v, e).valid <==> ends && Combined(s, x))
            && (Feed(v, e).valid ==> AllFed(outer, Feed(v, e).stack, Accept(x)))
  {
    hide IsValid, SubsJudged, AllFed, End, Combined, Accept, SubsFed, SubSchemas, FreshSubs, FeedContexts, HasRequired, AtMost;
    ForwardFeeds(v, e);
    var v1 := Forward(v, e);
    UnderwayStep(outer, s, v.stack, v1.stack, ev, [e]);
    EndVerdict(outer, s, v1, x);
  }

  /** Three feedings in a row, of which an invalid verdict survives the rest. */
  lemma FeedAllThree(v: Validator, e: Event, body: seq<Event>, last: Event)
    requires Sound(v)
    ensures var v1 := Feed(v, e);
            var v2 := FeedAll(v1, body);
            && FeedAll(v, [e] + body + [last]) == Feed(v2, last)
            && (!v1.valid ==> v2 == v1)
            && (!v2.valid ==> Feed(v2, last) == v2)
  {
    hide Feed;
    FeedAllConcat(v, [e] + body, [last]);
    FeedAllConcat(v, [e], body);
    FeedAllOne(v, e);
    var v1 := Feed(v, e);
    var v2 := FeedAll(v1, body);
    FeedAllOne(v2, last);
    if !v1.valid {
      FeedAllInvalid(v1, body);
    }
    if !v2.valid {
      FeedAllInvalid(v2, [last]);
    }
  }

  lemma {:induction false} FeedValue(v: Validator, s: Schema, x: Value)
    requires Sound(v) && v.valid && NextSchema(v.stack, v.root) == Some(s) && WellFormed(s)
    ensures Judged(v, s, x)
    decreases x, s, 1
  {
    hide *;
    SubVerdicts(s, x);
    match x
    case ArrayValue(es) => FeedArray(v, s, x);
    case ObjectValue(ms) => FeedObject(v, s, x);
    case _ => FeedScalar(v, s, x);
  }

  lemma {:induction false} SubVerdicts(s: Schema, x: Value)
    requires WellFormed(s)
    ensures SubsJudged(s, x)
    decreases x, s, 0
  {
    hide IsValid, Accept, SubSchemas, AllFed, WellFormed, FeedAll;
    forall j | 0 <= j < |SubSchemas(s)|
      ensures FeedAll(Fresh(SubSchemas(s)[j]), Accept(x)).valid <==> IsValid(SubSchemas(s)[j], x)
    {
      SubWellFormed(s, j);
      FeedValue(Fresh(SubSchemas(s)[j]), SubSchemas(s)[j], x);
    }
  }

  lemma {:induction false} FeedArray(v: Validator, s: Schema, x: Value)
    requires Sound(v) && v.valid && NextSchema(v.stack, v.root) == Some(s) && WellFormed(s)
    requires x.ArrayValue? && SubsJudged(s, x)
    ensures Judged(v, s, x)
    decreases x, s, 0
  {
    hide SubsJudged, Underway, NextSchema, AllFed, Opened, Closed, Combined, ElementsValid, WellFormed,
         Sound, FeedAll, AcceptElements, FreshSubs, SubSchemas;
    var es := x.elements;
    var first, body, last := StartArray, AcceptElements(es), EndArray(|es|);
    assert Accept(x) == [first] + body + [last];
    FeedAllThree(v, first, body, last);
    OpenedUnderway(v, s, first);
    var v1 := Feed(v, first);
    var v2 := FeedAll(v1, body);
    if v1.valid {
      var outer := Bump(v.stack);
      UnderwayLength(outer, s, v1.stack, [first]);
      FeedElements(outer, s, v1, [first], 0, es);
      if v2.valid {
        UnderwayLength(outer, s, v2.stack, [first] + body);
        CloseVerdict(outer, s, v2, [first] + body, last, x);
      }
    }
  }

  lemma UnderwayLength(outer: seq<Context>, s: Schema, stack: seq<Context>, ev: seq<Event>)
    requires Underway(outer, s, stack, ev)
    ensures |stack| == |outer| + 1 && stack[|outer|].schema == s
  {
  }

  /** The elements of an array, from element `k` on. */
  lemma {:induction false} FeedElements(outer: seq<Context>, s: Schema, v: Validator, ev: seq<Event>, k: nat, es: seq<Value>)
    requires Sound(v) && v.valid && Underway(outer, s, v.stack, ev) && WellFormed(s)
    requires v.stack[|outer|].inArray && v.stack[|outer|].index == k
    ensures var r := FeedAll(v, AcceptElements(es));
            if ElementsValid(s, k, es) then r.valid && Underway(outer, s, r.stack, ev + AcceptElements(es)) else !r.valid
    decreases es
  {
    hide IsValid, AllFed, Accept, SubsFed, SubSchemas, FreshSubs, WellFormed, ElementSchema;
    if es == [] {
      assert ev + [] == ev;
    } else {
      FeedElement(outer, s, v, ev, k, es);
      var v1 := FeedAll(v, Accept(es[0]));
      FeedAllConcat(v, Accept(es[0]), AcceptElements(es[1..]));
      ElementsValidSplit(s, k, es);
      if v1.valid {
        FeedElements(outer, s, v1, ev + Accept(es[0]), k + 1, es[1..]);
        assert ev + AcceptElements(es) == ev + Accept(es[0]) + AcceptElements(es[1..]);
      } else {
        FeedAllInvalid(v1, AcceptElements(es[1..]));
      }
    }
  }

  lemma TypelessValid(v: Value)
    ensures IsValid(TYPELESS, v)
  {
  }

  /** The schema that the streaming validator applies to a member decides its validity. */
  lemma MemberSchemaDecides(s: Schema, m: Member)
    requires WellFormed(s)
    ensures IsMemberValid(s, m) <==> MemberSchema(s, m.name).Some? && IsValid(MemberSchema(s, m.name).value, m.value)
  {
    hide IsValid, FindProperty;
    TypelessValid(m.value);
    var i := FindProperty(s.properties, m.name);
    if i < |s.properties| {
      assert forall r :: 0 <= r < |s.properties| && s.properties[r].name == m.name ==> r == i;
    }
  }

  lemma ElementShift(s: Schema, k: nat, es: seq<Value>, i: nat)
    requires 0 < i < |es|
    ensures ElementValid(s, k, es, i) <==> ElementValid(s, k + 1, es[1..], i - 1)
  {
    hide IsValid;
    assert k + i == k + 1 + (i - 1) && es[i] == es[1..][i - 1];
  }

  lemma ElementsValidSplit(s: Schema, k: nat, es: seq<Value>)
    requires es != []
    ensures ElementsValid(s, k, es) <==>
              && ElementSchema(s, k).Some? && IsValid(ElementSchema(s, k).value, es[0])
              && ElementsValid(s, k + 1, es[1..])
  {
    hide IsValid, ElementSchema, ElementValid;
    var rest, k1 := es[1..], k + 1;
    assert ElementValid(s, k, es, 0) <==> ElementSchema(s, k).Some? && IsValid(ElementSchema(s, k).value, es[0]) by {
      FirstElement(s, k, es);
    }
    if ElementsValid(s, k, es) {
      forall i | 0 <= i < |rest|
        ensures ElementValid(s, k1, rest, i)
      {
        assert ElementValid(s, k, es, i + 1);
        ElementShift(s, k, es, i + 1);
      }
    }
    if ElementValid(s, k, es, 0) && ElementsValid(s, k1, rest) {
      forall i | 0 <= i < |es|
        ensures ElementValid(s, k, es, i)
      {
        if i > 0 {
          assert ElementValid(s, k1, rest, i - 1);
          ElementShift(s, k, es, i);
        }
      }
    }
  }

  lemma FirstElement(s: Schema, k: nat, es: seq<Value>)
    requires es != []
    ensures ElementValid(s, k, es, 0) <==> ElementSchema(s, k).Some? && IsValid(ElementSchema(s, k).value, es[0])
  {
    hide IsValid;
    TypelessValid(es[0]);
  }

  lemma {:induction false} FeedElement(outer: seq<Context>, s: Schema, v: Validator, ev: seq<Event>, k: nat, es: seq<Value>)
    requires Sound(v) && v.valid && Underway(outer, s, v.stack, ev) && WellFormed(s)
    requires v.stack[|outer|].inArray && v.stack[|outer|].index == k && es != []
    ensures var r := FeedAll(v, Accept(es[0]));
            if ElementSchema(s, k).Some? && IsValid(ElementSchema(s, k).value, es[0])
            then r.valid && Underway(outer, s, r.stack, ev + Accept(es[0]))
                 && r.stack[|outer|].inArray && r.stack[|outer|].index == k + 1
            else !r.valid
    decreases es, 0
  {
    hide IsValid, AllFed, Accept, SubsFed, SubSchemas, FreshSubs, WellFormed, ElementSchema, Sound, FeedAll;
    ElementWellFormed(s, k);
    if ElementSchema(s, k).None? {
      FeedForbidden(v, es[0]);
    } else {
      FeedValue(v, ElementSchema(s, k).value, es[0]);
      var r := FeedAll(v, Accept(es[0]));
      if r.valid {
        var top := v.stack[|outer|].(index := k + 1);
        assert Bump(v.stack) == v.stack[|outer| := top];
        UnderwayTop(outer, s, v.stack, top, ev);
        UnderwayStep(outer, s, Bump(v.stack), r.stack, ev, Accept(es[0]));
      }
    }
  }

  // ---- Members ----

  /** The marks say which properties were among the members `ms`; none are kept where nothing is required. */
  ghost predicate Marks(s: Schema, seen: seq<bool>, ms: seq<Member>) {
    if HasRequired(s) then
      |seen| == |s.properties| && forall i :: 0 <= i < |seen| ==> (seen[i] <==> HasMember(ms, s.properties[i].name))
    else seen == []
  }

  lemma HasMemberAppend(ms: seq<Member>, m: Member, name: seq<Byte>)
    ensures HasMember(ms + [m], name) <==> HasMember(ms, name) || m.name == name
  {
    if i :| 0 <= i < |ms| && ms[i].name == name {
      assert (ms + [m])[i].name == name;
    }
    if m.name == name {
      assert (ms + [m])[|ms|].name == name;
    }
  }

  /** A key marks exactly the row of its name. */
  lemma MarksStep(s: Schema, seen: seq<bool>, ms: seq<Member>, m: Member)
    requires Marks(s, seen, ms) && WellFormed(s)
    ensures var p := FindProperty(s.properties, m.name);
            Marks(s, if p < |seen| then seen[p := true] else seen, ms + [m])
  {
    hide HasMember;
    var ps := s.properties;
    var p := FindProperty(ps, m.name);
    if HasRequired(s) {
      forall i | 0 <= i < |ps|
        ensures (ps[i].name == m.name <==> i == p) && (HasMember(ms + [m], ps[i].name) <==> HasMember(ms, ps[i].name) || i == p)
      {
        HasMemberAppend(ms, m, ps[i].name);
      }
    }
  }

  lemma {:induction false} FeedObject(v: Validator, s: Schema, x: Value)
    requires Sound(v) && v.valid && NextSchema(v.stack, v.root) == Some(s) && WellFormed(s)
    requires x.ObjectValue? && SubsJudged(s, x)
    ensures Judged(v, s, x)
    decreases x, s, 0
  {
    hide SubsJudged, Underway, NextSchema, AllFed, Opened, Closed, Combined, MembersValid, WellFormed,
         Sound, FeedAll, AcceptMembers, FreshSubs, SubSchemas, HasRequired, HasMember, Marks, RequiredPresent;
    var ms := x.members;
    var first, body, last := StartObject, AcceptMembers(ms), EndObject(|ms|);
    assert Accept(x) == [first] + body + [last];
    FeedAllThree(v, first, body, last);
    OpenedUnderway(v, s, first);
    var v1 := Feed(v, first);
    var v2 := FeedAll(v1, body);
    if v1.valid {
      var outer := Bump(v.stack);
      UnderwayLength(outer, s, v1.stack, [first]);
      NewMarks(s);
      FeedMembers(outer, s, v1, [first], [], ms);
      if v2.valid {
        UnderwayLength(outer, s, v2.stack, [first] + body);
        assert [] + ms == ms;
        MarksRequired(v2.stack[|outer|], ms);
        CloseVerdict(outer, s, v2, [first] + body, last, x);
      }
    }
  }

  lemma NewMarks(s: Schema)
    ensures Marks(s, NewContext(s, StartObject).seen, [])
  {
  }

  lemma MarksRequired(c: Context, ms: seq<Member>)
    requires Marks(c.schema, c.seen, ms)
    ensures ObjectEnds(c, |ms|) <==>
              && RequiredPresent(c.schema, ms)
              && c.schema.minProperties <= |ms| && AtMost(|ms|, c.schema.maxProperties)
  {
    hide HasMember;
  }

  /** The members of an object, after the members `done`. */
  lemma {:induction false} FeedMembers(outer: seq<Context>, s: Schema, v: Validator, ev: seq<Event>,
                                       done: seq<Member>, ms: seq<Member>)
    requires Sound(v) && v.valid && Underway(outer, s, v.stack, ev) && WellFormed(s)
    requires !v.stack[|outer|].inArray && Marks(s, v.stack[|outer|].seen, done)
    ensures var r := FeedAll(v, AcceptMembers(ms));
            if MembersValid(s, ms)
            then r.valid && Underway(outer, s, r.stack, ev + AcceptMembers(ms))
                 && Marks(s, r.stack[|outer|].seen, done + ms)
            else !r.valid
    decreases ms
  {
    hide IsMemberValid, AllFed, Accept, SubsFed, SubSchemas, FreshSubs, WellFormed, Marks, Sound, Feed;
    if ms == [] {
      assert ev + [] == ev && done + [] == done;
    } else {
      var head, rest := [Key(ms[0].name)] + Accept(ms[0].value), AcceptMembers(ms[1..]);
      assert AcceptMembers(ms) == head + rest;
      FeedMember(outer, s, v, ev, done, ms);
      var v1 := FeedAll(v, head);
      FeedAllConcat(v, head, rest);
      assert MembersValid(s, ms) <==> IsMemberValid(s, ms[0]) && MembersValid(s, ms[1..]) by {
        assert forall i :: 0 < i < |ms| ==> ms[i] == ms[1..][i - 1];
      }
      if v1.valid {
        FeedMembers(outer, s, v1, ev + head, done + [ms[0]], ms[1..]);
        assert ev + AcceptMembers(ms) == ev + head + rest && done + ms == done + [ms[0]] + ms[1..];
      } else {
        FeedAllInvalid(v1, rest);
      }
    }
  }

  /** The key of a member. */
  lemma FeedKey(outer: seq<Context>, s: Schema, v: Validator, ev: seq<Event>, done: seq<Member>, m: Member)
    requires Sound(v) && v.valid && Underway(outer, s, v.stack, ev) && WellFormed(s)
    requires !v.stack[|outer|].inArray && Marks(s, v.stack[|outer|].seen, done)
    ensures var r := Feed(v, Key(m.name));
            if MemberSchema(s, m.name).Some?
            then r.valid && Underway(outer, s, r.stack, ev + [Key(m.name)])
                 && !r.stack[|outer|].inArray && Marks(s, r.stack[|outer|].seen, done + [m])
                 && r.stack[|outer|].valueSchema == MemberSchema(s, m.name).value
            else !r.valid
  {
    hide AllFed, SubsFed, SubSchemas, FreshSubs, WellFormed, Marks, Sound, FeedContexts, MemberSchema;
    OnKeySound(v, m.name);
    if MemberSchema(s, m.name).Some? {
      var v1 := OnKey(v, m.name);
      MarksStep(s, v.stack[|outer|].seen, done, m);
      UnderwayTop(outer, s, v.stack, v1.stack[|outer|], ev);
      ForwardFeeds(v1, Key(m.name));
      UnderwayStep(outer, s, v1.stack, Forward(v1, Key(m.name)).stack, ev, [Key(m.name)]);
    }
  }

  lemma {:induction false} FeedMember(outer: seq<Context>, s: Schema, v: Validator, ev: seq<Event>,
                                      done: seq<Member>, ms: seq<Member>)
    requires Sound(v) && v.valid && Underway(outer, s, v.stack, ev) && WellFormed(s)
    requires !v.stack[|outer|].inArray && Marks(s, v.stack[|outer|].seen, done) && ms != []
    ensures var head := [Key(ms[0].name)] + Accept(ms[0].value);
            var r := FeedAll(v, head);
            if IsMemberValid(s, ms[0])
            then r.valid && Underway(outer, s, r.stack, ev + head)
                 && !r.stack[|outer|].inArray && Marks(s, r.stack[|outer|].seen, done + [ms[0]])
            else !r.valid
    decreases ms, 0
  {
    hide IsValid, AllFed, Accept, SubsFed, SubSchemas, FreshSubs, WellFormed, Marks, Sound, FeedAll, Feed, MemberSchema,
         IsMemberValid;
    var m := ms[0];
    MemberSchemaDecides(s, m);
    assert m.value < m;
    var key := Key(m.name);
    FeedKey(outer, s, v, ev, done, m);
    FeedAllConcat(v, [key], Accept(m.value));
    FeedAllOne(v, key);
    var v1 := Feed(v, key);
    if v1.valid {
      MemberWellFormed(s, m.name);
      FeedValue(v1, MemberSchema(s, m.name).value, m.value);
      var r := FeedAll(v1, Accept(m.value));
      if r.valid {
        UnderwayStep(outer, s, v1.stack, r.stack, ev + [key], Accept(m.value));
        assert ev + [key] + Accept(m.value) == ev + ([key] + Accept(m.value));
      }
    } else {
      FeedAllInvalid(v1, Accept(m.value));
    }
  }

  // ---- Main result ----

  /** Streaming validation decides validity: feeding the events of any value to a fresh validator
      ends with every context closed and a valid verdict exactly when the value satisfies the schema. */
  lemma StreamingDecidesValidity(s: Schema, x: Value)
    requires WellFormed(s)
    ensures FeedAll(Fresh(s), Accept(x)).valid <==> IsValid(s, x)
    ensures IsValid(s, x) ==> FeedAll(Fresh(s), Accept(x)) == Fresh(s)
  {
    hide IsValid, WellFormed, Accept;
    FeedValue(Fresh(s), s, x);
  }
}
