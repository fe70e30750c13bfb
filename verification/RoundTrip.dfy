/**
 A value survives `Accept`, `Writer`, `Reader` and the document's value stack
 unchanged.
 */
module RoundTrip {
  import opened Bytes
  import opened Json
  import opened Dom
  import opened NumberText
  import opened ValueText
  import opened ReadBack
  import D = Descent
  import E = ParserEquivalence
  import P = Pushdown
  import W = Writer

  // ---- The document rebuilds the value ----

  lemma {:induction false} HandleConcat(stack: seq<Value>, a: seq<Event>, b: seq<Event>)
    requires HandleAll(stack, a).Some?
    ensures HandleAll(stack, a + b) == HandleAll(HandleAll(stack, a).value, b)
    decreases |a|
  {
    hide Handle, CanHandle;
    if a == [] {
      assert a + b == b;
    } else {
      assert (a + b)[1..] == a[1..] + b;
      HandleConcat(Handle(stack, a[0]), a[1..], b);
    }
  }

  lemma HandleOne(stack: seq<Value>, e: Event)
    requires CanHandle(stack, e)
    ensures HandleAll(stack, [e]) == Some(Handle(stack, e))
  {
    hide Handle, CanHandle;
    assert [e][1..] == [];
  }

  lemma HandleNone(stack: seq<Value>)
    ensures RereadAll([]) == [] && HandleAll(stack, []) == Some(stack)
  {
  }

  /** A container's events, given the stack that its items leave. */
  lemma RebuildContainer(stack: seq<Value>, start: Event, items: seq<Event>, end: Event, entries: seq<Value>)
    requires start.StartArray? || start.StartObject?
    requires end.EndArray? || end.EndObject?
    requires HandleAll(Handle(stack, start), RereadAll(items)) == Some(Handle(stack, start) + entries)
    requires CanHandle(Handle(stack, start) + entries, end)
    ensures HandleAll(stack, RereadAll([start] + items + [end])) == Some(Handle(Handle(stack, start) + entries, end))
  {
    hide RereadAll, HandleAll, Handle;
    RereadConcat([start] + items, [end]);
    RereadConcat([start], items);
    RereadOne(start);
    RereadOne(end);
    assert [start] + RereadAll(items) + [end] == [start] + (RereadAll(items) + [end]);
    HandleOne(stack, start);
    HandleConcat(stack, [start], RereadAll(items) + [end]);
    HandleConcat(Handle(stack, start), RereadAll(items), [end]);
    HandleOne(Handle(stack, start) + entries, end);
  }

  lemma ArrayCloses(stack: seq<Value>, es: seq<Value>)
    ensures var s := Handle(stack, StartArray) + es;
            CanHandle(s, EndArray(|es|)) && Handle(s, EndArray(|es|)) == stack + [ArrayValue(es)]
  {
    var s := stack + [ArrayValue([])] + es;
    assert s[|stack| + 1..] == es && s[..|stack|] == stack;
  }

  lemma ObjectCloses(stack: seq<Value>, ms: seq<Member>)
    ensures var s := Handle(stack, StartObject) + Entries(ms);
            CanHandle(s, EndObject(|ms|)) && Handle(s, EndObject(|ms|)) == stack + [ObjectValue(ms)]
  {
    EntriesAreMembers(ms);
    HandleEnd(stack, Entries(ms), |ms|);
  }

  lemma HandleEnd(stack: seq<Value>, entries: seq<Value>, n: nat)
    requires |entries| == 2 * n && Named(entries)
    ensures var s := Handle(stack, StartObject) + entries;
            CanHandle(s, EndObject(n)) && Handle(s, EndObject(n)) == stack + [ObjectValue(Members(entries))]
  {
    hide Named, Members, ScalarValue;
    var s := stack + [ObjectValue([])] + entries;
    assert |s| - 2 * n == |stack| + 1;
    assert s[|s| - 2 * n..] == entries && s[..|stack|] == stack;
  }

  lemma {:induction false} Rebuild(c: Config, stack: seq<Value>, v: Value)
    requires IsStorable(c, v)
    ensures HandleAll(stack, RereadAll(Accept(v))) == Some(stack + [v])
    decreases v, 1
  {
    match v
    case ArrayValue(es) => RebuildArray(c, stack, es);
    case ObjectValue(ms) => RebuildObject(c, stack, ms);
    case _ =>
      hide RereadAll, HandleAll;
      RebuildScalar(c, v);
      RereadOne(ScalarEvent(v));
      HandleOne(stack, Reread(ScalarEvent(v)));
  }

  lemma {:induction false} RebuildArray(c: Config, stack: seq<Value>, es: seq<Value>)
    requires forall i :: 0 <= i < |es| ==> IsStorable(c, es[i])
    ensures HandleAll(stack, RereadAll(Accept(ArrayValue(es)))) == Some(stack + [ArrayValue(es)])
    decreases es, 1
  {
    hide RereadAll, HandleAll, IsStorable, AcceptElements, Handle;
    RebuildElements(c, Handle(stack, StartArray), es);
    ArrayCloses(stack, es);
    RebuildContainer(stack, StartArray, AcceptElements(es), EndArray(|es|), es);
  }

  lemma {:induction false} RebuildObject(c: Config, stack: seq<Value>, ms: seq<Member>)
    requires forall i :: 0 <= i < |ms| ==> IsStorable(c, ms[i].value)
    ensures HandleAll(stack, RereadAll(Accept(ObjectValue(ms)))) == Some(stack + [ObjectValue(ms)])
    decreases ms, 1
  {
    hide RereadAll, HandleAll, IsStorable, AcceptMembers, Handle, Entries, Named;
    RebuildMembers(c, Handle(stack, StartObject), ms);
    ObjectCloses(stack, ms);
    RebuildContainer(stack, StartObject, AcceptMembers(ms), EndObject(|ms|), Entries(ms));
  }

  lemma RebuildScalar(c: Config, v: Value)
    requires IsStorable(c, v) && !v.ArrayValue? && !v.ObjectValue?
    ensures var e := Reread(ScalarEvent(v));
            && InRange(e) && (e.Null? || e.Bool? || IsNumber(e) || e.String? || e.Key?)
            && ScalarValue(e) == v
  {
    if v.IntegerValue? {
      StoredReadBack(NumberOf(v.number));
      StoredReread(NumberOf(v.number));
    }
  }

  lemma {:induction false} RebuildElements(c: Config, stack: seq<Value>, es: seq<Value>)
    requires forall i :: 0 <= i < |es| ==> IsStorable(c, es[i])
    ensures HandleAll(stack, RereadAll(AcceptElements(es))) == Some(stack + es)
    decreases es, 0
  {
    hide Accept, IsStorable, RereadAll, HandleAll;
    if es == [] {
      HandleNone(stack);
      assert stack + es == stack;
    } else {
      Rebuild(c, stack, es[0]);
      RebuildElements(c, stack + [es[0]], es[1..]);
      RereadConcat(Accept(es[0]), AcceptElements(es[1..]));
      HandleConcat(stack, RereadAll(Accept(es[0])), RereadAll(AcceptElements(es[1..])));
      assert stack + [es[0]] + es[1..] == stack + es;
    }
  }

  /** The stack entries of a list of members. */
  function Entries(ms: seq<Member>): seq<Value> {
    if ms == [] then [] else [StringValue(ms[0].name), ms[0].value] + Entries(ms[1..])
  }

  lemma {:induction false} EntriesAreMembers(ms: seq<Member>)
    ensures var es := Entries(ms);
            |es| == 2 * |ms| && Named(es) && Members(es) == ms
  {
    if ms != [] {
      EntriesAreMembers(ms[1..]);
      var es := Entries(ms);
      assert es[2..] == Entries(ms[1..]);
      assert Named(es) by {
        forall i | 0 <= i < |es| && i % 2 == 0
          ensures es[i].StringValue?
        {
          if i >= 2 {
            assert es[i] == es[2..][i - 2];
          }
        }
      }
      assert [ms[0]] + ms[1..] == ms;
    }
  }

  lemma {:induction false} RebuildMembers(c: Config, stack: seq<Value>, ms: seq<Member>)
    requires forall i :: 0 <= i < |ms| ==> IsStorable(c, ms[i].value)
    ensures HandleAll(stack, RereadAll(AcceptMembers(ms))) == Some(stack + Entries(ms))
    decreases ms, 0
  {
    hide Accept, IsStorable, RereadAll, HandleAll, Handle, AcceptMembers, CanHandle;
    if ms == [] {
      NoMembers();
      HandleNone(stack);
      assert stack + [] == stack;
    } else {
      var m, rest := ms[0], AcceptMembers(ms[1..]);
      assert m.value < m;
      RebuildKey(stack, m.name);
      var s1 := stack + [StringValue(m.name)];
      Rebuild(c, s1, m.value);
      RebuildMembers(c, s1 + [m.value], ms[1..]);
      MemberEventsFirst(ms);
      HandleConcat(stack, [Key(m.name)], RereadAll(Accept(m.value)) + RereadAll(rest));
      HandleConcat(s1, RereadAll(Accept(m.value)), RereadAll(rest));
      assert s1 + [m.value] + Entries(ms[1..]) == stack + Entries(ms);
    }
  }

  lemma NoMembers()
    ensures AcceptMembers([]) == []
  {
  }

  lemma RebuildKey(stack: seq<Value>, name: seq<Byte>)
    ensures HandleAll(stack, [Key(name)]) == Some(stack + [StringValue(name)])
  {
    HandleOne(stack, Key(name));
  }

  lemma MemberEventsFirst(ms: seq<Member>)
    requires ms != []
    ensures RereadAll(AcceptMembers(ms))
            == [Key(ms[0].name)] + (RereadAll(Accept(ms[0].value)) + RereadAll(AcceptMembers(ms[1..])))
  {
    hide Accept, RereadAll;
    var m, rest := ms[0], AcceptMembers(ms[1..]);
    assert AcceptMembers(ms) == [Key(m.name)] + (Accept(m.value) + rest);
    RereadConcat([Key(m.name)], Accept(m.value) + rest);
    RereadConcat(Accept(m.value), rest);
    RereadOne(Key(m.name));
  }

  // ---- The round trip ----

  /** The main result: the writer accepts every value's events and completes one JSON text; both
      parsers read that text to its end, and the document's stack then holds exactly the value. */
  lemma DocumentRoundTrip(c: Config, v: Value)
    requires Accepting(c) && IsStorable(c, v)
    ensures W.WriteAll(W.EMPTY, Accept(v)) == Some(W.Output(Text(v), [], true))
    ensures c.src == Text(v) ==>
              var ev := RereadAll(Accept(v));
              && D.Parse(c) == Ok(|c.src|, ev)
              && P.IterativeParse(c) == Ok(|c.src|, ev)
              && P.Drive(c, P.START) == Ok(|c.src|, ev)
              && HandleAll([], ev) == Some([v])
  {
    hide D.Parse, Text, IsStorable, RereadAll, HandleAll, Accept, P.Run, P.Drive, P.IterativeParse;
    WriterPrints(W.EMPTY, v);
    assert [] + Text(v) == Text(v);
    if c.src == Text(v) {
      DescentReadsBack(c, v);
      Rebuild(c, [], v);
      assert [] + [v] == [v];
      E.ParsersAgree(c);
      E.StepwiseAgrees(c);
    }
  }

  lemma DescentReadsBack(c: Config, v: Value)
    requires Accepting(c) && IsStorable(c, v) && c.src == Text(v)
    ensures D.Parse(c) == Ok(|c.src|, RereadAll(Accept(v)))
  {
    hide D.ParseValue, Text, IsStorable, RereadAll, HandleAll, Accept;
    TextStarts(c, v);
    NotBlank(c.src, 0);
    assert c.src[0..|c.src|] == c.src;
    ValueReadBack(c, 0, [], v);
    assert [] + RereadAll(Accept(v)) == RereadAll(Accept(v));
    NotBlank(c.src, |c.src|);
  }

  // ---- The summary two instances exchange ----

  const DEFAULT: seq<Byte> := [0x64, 0x65, 0x66, 0x61, 0x75, 0x6C, 0x74]
  const FALLBACK: seq<Byte> := [0x66, 0x61, 0x6C, 0x6C, 0x62, 0x61, 0x63, 0x6B]
  const TOTAL_REQUESTS: seq<Byte> := [0x74, 0x6F, 0x74, 0x61, 0x6C, 0x52, 0x65, 0x71, 0x75, 0x65, 0x73, 0x74, 0x73]
  const TOTAL_AMOUNT: seq<Byte> := [0x74, 0x6F, 0x74, 0x61, 0x6C, 0x41, 0x6D, 0x6F, 0x75, 0x6E, 0x74]

  function TotalsValue(requests: nat, amount: seq<Byte>): Value
    requires IsUint64(requests)
  {
    ObjectValue([Member(TOTAL_REQUESTS, IntegerValue(OfUint64(requests))),
                 Member(TOTAL_AMOUNT, DoubleValue(amount))])
  }

  /** The document `payments_summary_handler` builds. */
  function SummaryValue(defRequests: nat, defAmount: seq<Byte>, fbRequests: nat, fbAmount: seq<Byte>): Value
    requires IsUint64(defRequests) && IsUint64(fbRequests)
  {
    ObjectValue([Member(DEFAULT, TotalsValue(defRequests, defAmount)),
                 Member(FALLBACK, TotalsValue(fbRequests, fbAmount))])
  }

  /** `d[which]["totalRequests"].GetUint64()`. */
  function RequestsOf(d: Value, which: seq<Byte>): Option<nat> {
    if !d.ObjectValue? then None
    else
      match Lookup(d.members, which)
      case Some(ObjectValue(ms)) =>
        (match Lookup(ms, TOTAL_REQUESTS)
         case Some(IntegerValue(x)) => if x.flags.isUint64 then Some(x.bits) else None
         case _ => None)
      case _ => None
  }

  /** A peer that parses the summary text reads exactly the request totals that were written. */
  lemma PeerReadsTotals(c: Config, defRequests: nat, defAmount: seq<Byte>, fbRequests: nat, fbAmount: seq<Byte>)
    requires Accepting(c) && IsUint64(defRequests) && IsUint64(fbRequests)
    requires IsDoubleLiteral(c, defAmount) && IsDoubleLiteral(c, fbAmount)
    requires var w := W.WriteAll(W.EMPTY, Accept(SummaryValue(defRequests, defAmount, fbRequests, fbAmount)));
             w.Some? ==> c.src == w.value.text
    ensures D.Parse(c).Ok? && HandleAll([], D.Parse(c).ev).Some?
    ensures var stack := HandleAll([], D.Parse(c).ev).value;
            && |stack| == 1
            && RequestsOf(stack[0], DEFAULT) == Some(defRequests)
            && RequestsOf(stack[0], FALLBACK) == Some(fbRequests)
  {
    hide D.Parse, HandleAll, RereadAll, Accept, W.WriteAll, Text, IsDoubleLiteral, P.IterativeParse, P.Drive;
    var d := SummaryValue(defRequests, defAmount, fbRequests, fbAmount);
    ConstructorsAgree(defRequests);
    ConstructorsAgree(fbRequests);
    assert IsStorable(c, TotalsValue(defRequests, defAmount));
    assert IsStorable(c, TotalsValue(fbRequests, fbAmount));
    DocumentRoundTrip(c, d);
    assert |DEFAULT| != |FALLBACK|;
    assert d.members[1..] == [Member(FALLBACK, TotalsValue(fbRequests, fbAmount))];
    assert Lookup(d.members, FALLBACK) == Some(TotalsValue(fbRequests, fbAmount));
  }
}
