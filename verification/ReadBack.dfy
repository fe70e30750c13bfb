/**
 The recursive-descent parser reads the text of a value and emits the events
 of `Accept`, up to the choice of integer event.
 */
module ReadBack {
  import opened Bytes
  import opened Json
  import opened Lexer
  import opened StringLiterals
  import opened Dom
  import opened NumberText
  import opened ValueText
  import D = Descent
  import W = Writer

  ghost predicate Accepting(c: Config) {
    forall ev :: c.handler(ev)
  }

  /** The event read where `e` was written: the integer type may differ. */
  function Reread(e: Event): Event {
    match e
    case Int(n) => if Fits(n) then ReadEvent(n) else e
    case Uint(n) => if Fits(n) then ReadEvent(n) else e
    case Int64(n) => if Fits(n) then ReadEvent(n) else e
    case Uint64(n) => if Fits(n) then ReadEvent(n) else e
    case _ => e
  }

  function RereadAll(ev: seq<Event>): seq<Event> {
    seq(|ev|, i requires 0 <= i < |ev| => Reread(ev[i]))
  }

  lemma RereadConcat(a: seq<Event>, b: seq<Event>)
    ensures RereadAll(a + b) == RereadAll(a) + RereadAll(b)
  {
  }

  /** A value's text begins with a byte that is neither a blank nor the end of a value. */
  lemma TextStarts(c: Config, v: Value)
    requires IsStorable(c, v)
    ensures Text(v) != [] && !IsBlank(Text(v)[0]) && !Ends(Text(v)[0])
  {
    match v
    case IntegerValue(x) =>
      var n := NumberOf(x);
      StoredText(n);
      DecimalValue(if n < 0 then -n else n);
    case DoubleValue(lit) =>
      hide ScanFraction;
      assert At(lit, 0) == lit[0];
    case _ =>
  }

  lemma NotBlank(s: seq<Byte>, pos: nat)
    requires !IsBlank(At(s, pos))
    ensures SkipBlanks(s, pos) == pos
  {
  }

  lemma LiteralReadBack(c: Config, pos: nat, ev: seq<Event>, literal: seq<Byte>, e: Event)
    requires Accepting(c) && Occurs(literal, c.src, pos)
    ensures ParseLiteral(c, pos, ev, literal, e) == Ok(pos + |literal|, ev + [e])
  {
    OccursAt(literal, c.src, pos);
  }

  lemma ScalarReadBack(c: Config, pos: nat, ev: seq<Event>, v: Value)
    requires Accepting(c) && IsStorable(c, v) && !v.ArrayValue? && !v.ObjectValue?
    requires Occurs(Text(v), c.src, pos) && Ends(At(c.src, pos + |Text(v)|))
    ensures ParseScalar(c, pos, ev) == Ok(pos + |Text(v)|, ev + [Reread(ScalarEvent(v))])
  {
    hide ScanNumber, ScanString, ParseLiteral, Escaped, IsDoubleLiteral;
    OccursAt(Text(v), c.src, pos);
    TextStarts(c, v);
    assert At(c.src, pos + 0) == Text(v)[0];
    match v
    case NullValue => LiteralReadBack(c, pos, ev, NULL, Null);
    case BoolValue(b) => LiteralReadBack(c, pos, ev, if b then TRUE else FALSE, Bool(b));
    case StringValue(s) => StringRoundTrip(c, pos, ev, s, false);
    case IntegerValue(x) =>
      IntegerReadBack(c, pos, NumberOf(x));
    case DoubleValue(lit) =>
      DoubleReadBack(c, pos, lit);
  }

  lemma IntegerReadBack(c: Config, pos: nat, n: int)
    requires Fits(n)
    ensures var t := W.ScalarText(IntegerEventOf(Stored(n)));
            && t == W.IntText(n) && t != [] && (t[0] == MINUS || IsDigit(t[0]))
            && Reread(IntegerEventOf(Stored(n))) == ReadEvent(n)
            && (Occurs(t, c.src, pos) && Ends(At(c.src, pos + |t|)) ==>
                  ScanNumber(c, pos) == Number(pos + |t|, ReadEvent(n)))
  {
    hide ScanNumber, W.Decimal, IntegerEvent, IntegerEventOf, Stored, Reread, W.ScalarText, ReadEvent;
    StoredText(n);
    StoredReread(n);
    DecimalValue(if n < 0 then -n else n);
    var t := W.IntText(n);
    IntTextOnItsOwn(c, n);
    if Occurs(t, c.src, pos) && Ends(At(c.src, pos + |t|)) {
      OccursAt(t, c.src, pos);
      NumberInContext(c, t, pos);
    }
  }

  lemma StoredReread(n: int)
    requires Fits(n)
    ensures Reread(IntegerEventOf(Stored(n))) == ReadEvent(n)
  {
    hide ReadEvent;
  }

  lemma DoubleReadBack(c: Config, pos: nat, lit: seq<Byte>)
    requires IsDoubleLiteral(c, lit)
    ensures lit != [] && (lit[0] == MINUS || IsDigit(lit[0]))
    ensures Occurs(lit, c.src, pos) && Ends(At(c.src, pos + |lit|)) ==>
              ScanNumber(c, pos) == Number(pos + |lit|, Double(lit))
  {
    hide ScanFraction;
    assert At(lit, 0) == lit[0];
    if Occurs(lit, c.src, pos) && Ends(At(c.src, pos + |lit|)) {
      OccursAt(lit, c.src, pos);
      NumberInContext(c, lit, pos);
    }
  }

  lemma {:induction false} ValueReadBack(c: Config, pos: nat, ev: seq<Event>, v: Value)
    requires Accepting(c) && IsStorable(c, v)
    requires Occurs(Text(v), c.src, pos) && Ends(At(c.src, pos + |Text(v)|))
    ensures D.ParseValue(c, pos, ev) == Ok(pos + |Text(v)|, ev + RereadAll(Accept(v)))
    decreases v, 2
  {
    hide ParseScalar, Occurs, D.ParseArray, D.ParseObject, RereadAll, Ends;
    OccursAt(Text(v), c.src, pos);
    TextStarts(c, v);
    assert At(c.src, pos + 0) == Text(v)[0];
    if v.ArrayValue? {
      ArrayReadBack(c, pos, ev, v);
    } else if v.ObjectValue? {
      ObjectReadBack(c, pos, ev, v);
    } else {
      ScalarReadBack(c, pos, ev, v);
      NotBracket(c, v);
      RereadOne(ScalarEvent(v));
    }
  }

  lemma RereadOne(e: Event)
    ensures RereadAll([e]) == [Reread(e)]
  {
  }

  lemma NotBracket(c: Config, v: Value)
    requires IsStorable(c, v) && !v.ArrayValue? && !v.ObjectValue?
    ensures Text(v) != [] && Text(v)[0] != LBRACE && Text(v)[0] != LBRACKET
  {
    hide ScanFraction;
    match v
    case IntegerValue(x) => IntegerReadBack(c, 0, NumberOf(x));
    case DoubleValue(lit) => DoubleReadBack(c, 0, lit);
    case _ =>
  }

  lemma {:induction false} ArrayReadBack(c: Config, pos: nat, ev: seq<Event>, v: Value)
    requires Accepting(c) && IsStorable(c, v) && v.ArrayValue?
    requires Occurs(Text(v), c.src, pos)
    ensures At(c.src, pos) == LBRACKET
    ensures D.ParseArray(c, pos, ev) == Ok(pos + |Text(v)|, ev + RereadAll(Accept(v)))
    decreases v, 1
  {
    hide D.ParseElements, Occurs, Text, SkipBlanks, RereadAll, FromElement;
    var es := v.elements;
    ArrayTextIs(es);
    var inside := if es == [] then [RBRACKET] else FromElement(es, 0);
    OccursSplit([LBRACKET], inside, c.src, pos);
    OccursAt([LBRACKET], c.src, pos);
    assert At(c.src, pos + 0) == LBRACKET;
    if es == [] {
      OccursAt([RBRACKET], c.src, pos + 1);
      assert At(c.src, pos + 1 + 0) == RBRACKET;
    } else {
      ElementStarts(c, es, 0, pos + 1);
      ElementsReadBack(c, pos + 1, ev + [StartArray], es, 0);
    }
    NotBlank(c.src, pos + 1);
    ContainerStep(ev, StartArray, AcceptElements(es), EndArray(|es|));
  }

  lemma ArrayTextIs(es: seq<Value>)
    ensures Text(ArrayValue(es)) == [LBRACKET] + if es == [] then [RBRACKET] else FromElement(es, 0)
  {
  }

  lemma ContainerStep(ev: seq<Event>, start: Event, items: seq<Event>, end: Event)
    requires start.StartArray? || start.StartObject?
    requires end.EndArray? || end.EndObject?
    ensures ev + [start] + RereadAll(items + [end]) == ev + RereadAll([start] + items + [end])
    ensures RereadAll([] + [end]) == [end]
  {
    assert [start] + items + [end] == [start] + (items + [end]);
    RereadConcat([start], items + [end]);
    RereadOne(start);
  }

  lemma LastElement(c: Config, pos: nat, ev: seq<Event>, n: nat)
    requires Accepting(c) && D.ParseValue(c, pos, ev).Ok?
    requires At(c.src, D.ParseValue(c, pos, ev).pos) == RBRACKET
    ensures var r := D.ParseValue(c, pos, ev);
            D.ParseElements(c, pos, ev, n) == Ok(r.pos + 1, r.ev + [EndArray(n + 1)])
  {
    hide D.ParseValue;
  }

  lemma NextElement(c: Config, pos: nat, ev: seq<Event>, n: nat)
    requires D.ParseValue(c, pos, ev).Ok?
    requires var p := D.ParseValue(c, pos, ev).pos;
             At(c.src, p) == COMMA && !IsBlank(At(c.src, p + 1)) && At(c.src, p + 1) != RBRACKET
    ensures var r := D.ParseValue(c, pos, ev);
            D.ParseElements(c, pos, ev, n) == D.ParseElements(c, r.pos + 1, r.ev, n + 1)
  {
    hide D.ParseValue;
    var p := D.ParseValue(c, pos, ev).pos;
    NotBlank(c.src, p);
    NotBlank(c.src, p + 1);
  }

  /** The text of the elements from the first byte of `es[0]` on, when `n` came before. */
  function FromElement(es: seq<Value>, n: nat): seq<Byte>
    requires es != []
  {
    Text(es[0]) + ElementsText(es[1..], n + 1) + [RBRACKET]
  }

  lemma FromElementSplit(es: seq<Value>, n: nat)
    requires es != []
    ensures FromElement(es, n) == Text(es[0]) + (if |es| == 1 then [RBRACKET] else [COMMA] + FromElement(es[1..], n + 1))
  {
    hide Text;
  }

  lemma {:induction false} ElementsReadBack(c: Config, pos: nat, ev: seq<Event>, es: seq<Value>, n: nat)
    requires Accepting(c) && es != [] && forall i :: 0 <= i < |es| ==> IsStorable(c, es[i])
    requires Occurs(FromElement(es, n), c.src, pos)
    ensures D.ParseElements(c, pos, ev, n)
            == Ok(pos + |FromElement(es, n)|, ev + RereadAll(AcceptElements(es) + [EndArray(n + |es|)]))
    decreases es, 0
  {
    hide D.ParseValue, D.ParseElements, Occurs, Text, Accept, IsStorable, RereadAll, FromElement, ElementsText;
    FromElementSplit(es, n);
    var first := Text(es[0]);
    var p := pos + |first|;
    var tail := if |es| == 1 then [RBRACKET] else [COMMA] + FromElement(es[1..], n + 1);
    OccursSplit(first, tail, c.src, pos);
    OccursAt(tail, c.src, p);
    assert At(c.src, p + 0) == tail[0];
    ValueReadBack(c, pos, ev, es[0]);
    if |es| == 1 {
      LastElement(c, pos, ev, n);
      ElementsEnd(ev, es[0], EndArray(n + 1));
    } else {
      var rest := es[1..];
      OccursSplit([COMMA], FromElement(rest, n + 1), c.src, p);
      ElementStarts(c, rest, n + 1, p + 1);
      NextElement(c, pos, ev, n);
      ElementsReadBack(c, p + 1, ev + RereadAll(Accept(es[0])), rest, n + 1);
      ElementsStep(ev, es[0], AcceptElements(rest), EndArray(n + |es|));
    }
  }

  lemma ElementStarts(c: Config, es: seq<Value>, n: nat, pos: nat)
    requires es != [] && IsStorable(c, es[0]) && Occurs(FromElement(es, n), c.src, pos)
    ensures !IsBlank(At(c.src, pos)) && !Ends(At(c.src, pos))
  {
    hide Text;
    TextStarts(c, es[0]);
    OccursAt(FromElement(es, n), c.src, pos);
    assert At(c.src, pos + 0) == Text(es[0])[0];
  }

  lemma ElementsEnd(ev: seq<Event>, v: Value, e: Event)
    requires e.EndArray? || e.EndObject?
    ensures ev + RereadAll(Accept(v)) + [e] == ev + RereadAll(Accept(v) + [] + [e])
  {
    RereadConcat(Accept(v), [e]);
    assert Accept(v) + [] + [e] == Accept(v) + [e];
    assert RereadAll([e]) == [e];
  }

  lemma ElementsStep(ev: seq<Event>, v: Value, rest: seq<Event>, e: Event)
    ensures ev + RereadAll(Accept(v)) + RereadAll(rest + [e]) == ev + RereadAll(Accept(v) + rest + [e])
  {
    assert Accept(v) + rest + [e] == Accept(v) + (rest + [e]);
    RereadConcat(Accept(v), rest + [e]);
  }

  lemma {:induction false} ObjectReadBack(c: Config, pos: nat, ev: seq<Event>, v: Value)
    requires Accepting(c) && IsStorable(c, v) && v.ObjectValue?
    requires Occurs(Text(v), c.src, pos)
    ensures At(c.src, pos) == LBRACE
    ensures D.ParseObject(c, pos, ev) == Ok(pos + |Text(v)|, ev + RereadAll(Accept(v)))
    decreases v, 1
  {
    hide D.ParseMembers, Occurs, Text, SkipBlanks, RereadAll, FromMember;
    var ms := v.members;
    ObjectTextIs(ms);
    var inside := if ms == [] then [RBRACE] else FromMember(ms, 0);
    OccursSplit([LBRACE], inside, c.src, pos);
    OccursAt([LBRACE], c.src, pos);
    assert At(c.src, pos + 0) == LBRACE;
    if ms == [] {
      OccursAt([RBRACE], c.src, pos + 1);
      assert At(c.src, pos + 1 + 0) == RBRACE;
    } else {
      MemberStarts(c, ms, 0, pos + 1);
      MembersReadBack(c, pos + 1, ev + [StartObject], ms, 0);
    }
    NotBlank(c.src, pos + 1);
    ContainerStep(ev, StartObject, AcceptMembers(ms), EndObject(|ms|));
  }

  lemma ObjectTextIs(ms: seq<Member>)
    ensures Text(ObjectValue(ms)) == [LBRACE] + if ms == [] then [RBRACE] else FromMember(ms, 0)
  {
  }

  function MemberText(m: Member): seq<Byte> {
    StringText(m.name) + [COLON] + Text(m.value)
  }

  function FromMember(ms: seq<Member>, n: nat): seq<Byte>
    requires ms != []
  {
    MemberText(ms[0]) + MembersText(ms[1..], n + 1) + [RBRACE]
  }

  lemma FromMemberSplit(ms: seq<Member>, n: nat)
    requires ms != []
    ensures FromMember(ms, n) == MemberText(ms[0]) + (if |ms| == 1 then [RBRACE] else [COMMA] + FromMember(ms[1..], n + 1))
  {
    hide Text, StringText;
  }

  function MemberEvents(m: Member): seq<Event> {
    [Key(m.name)] + Accept(m.value)
  }

  lemma MemberParses(c: Config, pos: nat, ev: seq<Event>)
    requires At(c.src, pos) == QUOTE && ParseString(c, pos, ev, true).Ok?
    requires var p := ParseString(c, pos, ev, true).pos; At(c.src, p) == COLON && !IsBlank(At(c.src, p + 1))
    ensures var r := ParseString(c, pos, ev, true);
            D.ParseMember(c, pos, ev) == D.ParseValue(c, r.pos + 1, r.ev)
  {
    hide D.ParseValue, ParseString;
    var p := ParseString(c, pos, ev, true).pos;
    NotBlank(c.src, p);
    NotBlank(c.src, p + 1);
  }

  /** Where the parts of a member stand. */
  lemma MemberParts(c: Config, pos: nat, m: Member)
    requires IsStorable(c, m.value) && Occurs(MemberText(m), c.src, pos)
    ensures var p := pos + |StringText(m.name)|;
            && Occurs(StringText(m.name), c.src, pos) && Occurs(Text(m.value), c.src, p + 1)
            && At(c.src, pos) == QUOTE && At(c.src, p) == COLON && !IsBlank(At(c.src, p + 1))
  {
    hide Occurs, Text, Escaped, IsStorable;
    var name, text := StringText(m.name), Text(m.value);
    assert MemberText(m) == name + ([COLON] + text);
    OccursSplit(name, [COLON] + text, c.src, pos);
    var p := pos + |name|;
    OccursSplit([COLON], text, c.src, p);
    OccursAt(name, c.src, pos);
    assert At(c.src, pos + 0) == QUOTE;
    OccursAt([COLON], c.src, p);
    assert At(c.src, p + 0) == COLON;
    TextStarts(c, m.value);
    OccursAt(text, c.src, p + 1);
    assert At(c.src, p + 1 + 0) == text[0];
  }

  lemma {:induction false} MemberReadBack(c: Config, pos: nat, ev: seq<Event>, m: Member)
    requires Accepting(c) && IsStorable(c, m.value)
    requires Occurs(MemberText(m), c.src, pos) && Ends(At(c.src, pos + |MemberText(m)|))
    ensures D.ParseMember(c, pos, ev) == Ok(pos + |MemberText(m)|, ev + RereadAll(MemberEvents(m)))
    decreases m, 3
  {
    hide D.ParseValue, D.ParseMember, ParseString, Occurs, Text, Accept, IsStorable, RereadAll, StringText;
    assert m.value < m;
    var p := pos + |StringText(m.name)|;
    MemberParts(c, pos, m);
    StringRoundTrip(c, pos, ev, m.name, true);
    MemberParses(c, pos, ev);
    ValueReadBack(c, p + 1, ev + [Key(m.name)], m.value);
    RereadConcat([Key(m.name)], Accept(m.value));
    RereadOne(Key(m.name));
    assert ev + [Key(m.name)] + RereadAll(Accept(m.value)) == ev + RereadAll(MemberEvents(m));
  }

  lemma LastMember(c: Config, pos: nat, ev: seq<Event>, n: nat)
    requires Accepting(c) && D.ParseMember(c, pos, ev).Ok?
    requires At(c.src, D.ParseMember(c, pos, ev).pos) == RBRACE
    ensures var r := D.ParseMember(c, pos, ev);
            D.ParseMembers(c, pos, ev, n) == Ok(r.pos + 1, r.ev + [EndObject(n + 1)])
  {
    hide D.ParseMember;
  }

  lemma NextMember(c: Config, pos: nat, ev: seq<Event>, n: nat)
    requires D.ParseMember(c, pos, ev).Ok?
    requires var p := D.ParseMember(c, pos, ev).pos;
             At(c.src, p) == COMMA && At(c.src, p + 1) == QUOTE
    ensures var r := D.ParseMember(c, pos, ev);
            D.ParseMembers(c, pos, ev, n) == D.ParseMembers(c, r.pos + 1, r.ev, n + 1)
  {
    hide D.ParseMember;
    var p := D.ParseMember(c, pos, ev).pos;
    NotBlank(c.src, p);
    NotBlank(c.src, p + 1);
  }

  lemma {:induction false} MembersReadBack(c: Config, pos: nat, ev: seq<Event>, ms: seq<Member>, n: nat)
    requires Accepting(c) && ms != [] && forall i :: 0 <= i < |ms| ==> IsStorable(c, ms[i].value)
    requires Occurs(FromMember(ms, n), c.src, pos)
    ensures D.ParseMembers(c, pos, ev, n)
            == Ok(pos + |FromMember(ms, n)|, ev + RereadAll(AcceptMembers(ms) + [EndObject(n + |ms|)]))
    decreases ms, 0
  {
    hide D.ParseMember, D.ParseMembers, Occurs, MemberText, MemberEvents, IsStorable, RereadAll, FromMember, MembersText;
    FromMemberSplit(ms, n);
    var first := MemberText(ms[0]);
    var p := pos + |first|;
    var tail := if |ms| == 1 then [RBRACE] else [COMMA] + FromMember(ms[1..], n + 1);
    OccursSplit(first, tail, c.src, pos);
    OccursAt(tail, c.src, p);
    assert At(c.src, p + 0) == tail[0];
    MemberReadBack(c, pos, ev, ms[0]);
    if |ms| == 1 {
      LastMember(c, pos, ev, n);
      MembersStep(ev, ms, EndObject(n + 1));
      assert AcceptMembers(ms[1..]) == [];
    } else {
      var rest := ms[1..];
      OccursSplit([COMMA], FromMember(rest, n + 1), c.src, p);
      MemberStarts(c, rest, n + 1, p + 1);
      NextMember(c, pos, ev, n);
      MembersReadBack(c, p + 1, ev + RereadAll(MemberEvents(ms[0])), rest, n + 1);
      MembersStep(ev, ms, EndObject(n + |ms|));
    }
  }

  lemma MemberStarts(c: Config, ms: seq<Member>, n: nat, pos: nat)
    requires ms != [] && Occurs(FromMember(ms, n), c.src, pos)
    ensures At(c.src, pos) == QUOTE
  {
    hide Text, Escaped;
    OccursAt(FromMember(ms, n), c.src, pos);
    assert At(c.src, pos + 0) == QUOTE;
  }

  lemma MembersStep(ev: seq<Event>, ms: seq<Member>, e: Event)
    requires ms != [] && e.EndObject?
    ensures ev + RereadAll(MemberEvents(ms[0])) + RereadAll(AcceptMembers(ms[1..]) + [e])
            == ev + RereadAll(AcceptMembers(ms) + [e])
    ensures RereadAll([] + [e]) == [e]
  {
    hide AcceptMembers, RereadAll, MemberEvents;
    var first, rest := MemberEvents(ms[0]), AcceptMembers(ms[1..]) + [e];
    FirstMember(ms, e);
    RereadConcat(first, rest);
    assert ev + (RereadAll(first) + RereadAll(rest)) == ev + RereadAll(first) + RereadAll(rest);
    assert [] + [e] == [e];
    RereadOne(e);
  }

  lemma FirstMember(ms: seq<Member>, e: Event)
    requires ms != []
    ensures AcceptMembers(ms) + [e] == MemberEvents(ms[0]) + (AcceptMembers(ms[1..]) + [e])
  {
    hide Accept;
  }
}
