/**
 `GenericValue` and `GenericDocument`: JSON values, the number flags of the
 four integer constructors, the events of `Accept` and the value stack that
 rebuilds a value from events.
 */
module Dom {
  import opened Bytes
  import opened Json

  // ---- Numbers ----

  const TWO31 := 0x8000_0000

  /** The integer types a number can be read as. */
  datatype Flags = Flags(isInt: bool, isUint: bool, isInt64: bool, isUint64: bool)

  /** A stored integer: the 64-bit pattern and the flags. */
  datatype Integer = Integer(bits: nat, flags: Flags)

  predicate IsInt32(n: int) { -TWO31 <= n < TWO31 }
  predicate IsUint32(n: int) { 0 <= n < TWO32 }
  predicate IsInt64(n: int) { -TWO63 <= n < TWO63 }
  predicate IsUint64(n: int) { 0 <= n < TWO64 }

  /** The two's complement pattern of a number. */
  function Pattern(n: int): nat
    requires -TWO64 <= n
  {
    if n >= 0 then n else n + TWO64
  }

  /** `GenericValue(int)`. */
  function OfInt(i: int): Integer
    requires IsInt32(i)
  {
    Integer(Pattern(i), if i >= 0 then Flags(true, true, true, true) else Flags(true, false, true, false))
  }

  /** `GenericValue(unsigned)`: `u & 0x80000000` tests bit 31. */
  function OfUint(u: int): Integer
    requires IsUint32(u)
  {
    Integer(u, Flags(u / TWO31 % 2 == 0, true, true, true))
  }

  /** `GenericValue(int64_t)`: the masks test the high 32 and the high 33 bits. */
  function OfInt64(i: int): Integer
    requires IsInt64(i)
  {
    Integer(Pattern(i),
            if i >= 0 then Flags(i / TWO31 == 0, i / TWO32 == 0, true, true)
            else Flags(i >= -TWO31, false, true, false))
  }

  /** `GenericValue(uint64_t)`. */
  function OfUint64(u: int): Integer
    requires IsUint64(u)
  {
    Integer(u, Flags(u / TWO31 == 0, u / TWO32 == 0, u / TWO63 == 0, true))
  }

  predicate Fits(n: int) {
    -TWO63 <= n < TWO64
  }

  /** The stored form of a number: what each constructor should give. */
  function Stored(n: int): Integer
    requires Fits(n)
  {
    Integer(Pattern(n), Flags(IsInt32(n), IsUint32(n), IsInt64(n), IsUint64(n)))
  }

  /** All four constructors store an equal number identically. */
  lemma ConstructorsAgree(n: int)
    requires Fits(n)
    ensures IsInt32(n) ==> OfInt(n) == Stored(n)
    ensures IsUint32(n) ==> OfUint(n) == Stored(n)
    ensures IsInt64(n) ==> OfInt64(n) == Stored(n)
    ensures IsUint64(n) ==> OfUint64(n) == Stored(n)
  {
  }

  // ---- Values ----

  /** A JSON value. A double is represented by the literal that is printed for it. */
  datatype Value =
    | NullValue
    | BoolValue(b: bool)
    | IntegerValue(number: Integer)
    | DoubleValue(literal: seq<Byte>)
    | StringValue(s: seq<Byte>)
    | ArrayValue(elements: seq<Value>)
    | ObjectValue(members: seq<Member>)

  datatype Member = Member(name: seq<Byte>, value: Value)

  // ---- Accept ----

  function Signed(bits: nat, modulus: nat): int {
    if bits < modulus / 2 then bits else bits - modulus
  }

  /** The event `Accept` emits for a stored integer: the union member its flags select. */
  function IntegerEventOf(x: Integer): Event {
    if x.flags.isInt then Int(Signed(x.bits % TWO32, TWO32))
    else if x.flags.isUint then Uint(x.bits % TWO32)
    else if x.flags.isInt64 then Int64(Signed(x.bits, TWO64))
    else Uint64(x.bits)
  }

  function ScalarEvent(v: Value): Event
    requires !v.ArrayValue? && !v.ObjectValue?
  {
    match v
    case NullValue => Null
    case BoolValue(b) => Bool(b)
    case IntegerValue(x) => IntegerEventOf(x)
    case DoubleValue(literal) => Double(literal)
    case StringValue(s) => String(s)
  }

  /** The events of `Accept`. */
  function Accept(v: Value): seq<Event>
    decreases v
  {
    match v
    case ArrayValue(es) => [StartArray] + AcceptElements(es) + [EndArray(|es|)]
    case ObjectValue(ms) => [StartObject] + AcceptMembers(ms) + [EndObject(|ms|)]
    case _ => [ScalarEvent(v)]
  }

  function AcceptElements(es: seq<Value>): seq<Event>
    decreases es
  {
    if es == [] then [] else Accept(es[0]) + AcceptElements(es[1..])
  }

  function AcceptMembers(ms: seq<Member>): seq<Event>
    decreases ms
  {
    if ms == [] then []
    else
      assert ms[0].value < ms[0];
      [Key(ms[0].name)] + Accept(ms[0].value) + AcceptMembers(ms[1..])
  }

  // ---- The document's value stack ----

  function ScalarValue(e: Event): Value
    requires InRange(e) && (e.Null? || e.Bool? || IsNumber(e) || e.String? || e.Key?)
  {
    match e
    case Null => NullValue
    case Bool(b) => BoolValue(b)
    case Int(i) => IntegerValue(OfInt(i))
    case Uint(u) => IntegerValue(OfUint(u))
    case Int64(i) => IntegerValue(OfInt64(i))
    case Uint64(u) => IntegerValue(OfUint64(u))
    case Double(literal) => DoubleValue(literal)
    case String(s) => StringValue(s)
    case Key(s) => StringValue(s)
  }

  predicate IsNumber(e: Event) {
    e.Int? || e.Uint? || e.Int64? || e.Uint64? || e.Double?
  }

  /** The argument of an integer event is of the event's type. */
  predicate InRange(e: Event) {
    match e
    case Int(i) => IsInt32(i)
    case Uint(u) => IsUint32(u)
    case Int64(i) => IsInt64(i)
    case Uint64(u) => IsUint64(u)
    case _ => true
  }

  /** `2n` stack entries read as `n` members. */
  function Members(entries: seq<Value>): seq<Member>
    requires |entries| % 2 == 0 && Named(entries)
    decreases |entries|
  {
    if entries == [] then []
    else
      assert Named(entries[2..]);
      [Member(entries[0].s, entries[1])] + Members(entries[2..])
  }

  /** Every other entry is a name. */
  predicate Named(entries: seq<Value>) {
    forall i :: 0 <= i < |entries| && i % 2 == 0 ==> entries[i].StringValue?
  }

  /** The stack holds what an event takes from it. */
  predicate CanHandle(stack: seq<Value>, e: Event) {
    match e
    case EndArray(n) => n < |stack|
    case EndObject(n) => 2 * n < |stack| && Named(stack[|stack| - 2 * n..])
    case _ => InRange(e)
  }

  /** The document's handlers: scalars are pushed; the end of a container replaces the entries
      pushed since its start, and the placeholder below them, by the container. */
  function Handle(stack: seq<Value>, e: Event): seq<Value>
    requires CanHandle(stack, e)
  {
    match e
    case StartArray => stack + [ArrayValue([])]
    case StartObject => stack + [ObjectValue([])]
    case EndArray(n) =>
      var k := |stack| - n;
      stack[..k - 1] + [ArrayValue(stack[k..])]
    case EndObject(n) =>
      var k := |stack| - 2 * n;
      stack[..k - 1] + [ObjectValue(Members(stack[k..]))]
    case _ => stack + [ScalarValue(e)]
  }

  /** The stack after a sequence of events. */
  function HandleAll(stack: seq<Value>, ev: seq<Event>): Option<seq<Value>>
    decreases |ev|
  {
    if ev == [] then Some(stack)
    else if CanHandle(stack, ev[0]) then HandleAll(Handle(stack, ev[0]), ev[1..])
    else None
  }

  /** `GenericDocument` as a handler. */
  class Document {
    var stack: seq<Value>

    constructor ()
      ensures stack == []
    {
      stack := [];
    }

    method Push(v: Value)
      modifies this
      ensures stack == old(stack) + [v]
    {
      stack := stack + [v];
    }

    method Pop(n: nat) returns (top: seq<Value>)
      requires n <= |stack|
      modifies this
      ensures stack + top == old(stack) && |top| == n
    {
      top := stack[|stack| - n..];
      stack := stack[..|stack| - n];
    }

    /** The handlers; the end of a container overwrites the placeholder left on top. */
    method OnEvent(e: Event)
      requires CanHandle(stack, e)
      modifies this
      ensures stack == Handle(old(stack), e)
    {
      match e
      case StartArray => Push(ArrayValue([]));
      case StartObject => Push(ObjectValue([]));
      case EndArray(n) =>
        var elements := Pop(n);
        stack := stack[|stack| - 1 := ArrayValue(elements)];
      case EndObject(n) =>
        var entries := Pop(2 * n);
        stack := stack[|stack| - 1 := ObjectValue(Members(entries))];
      case _ => Push(ScalarValue(e));
    }
  }

  /** The first member with a name: `FindMember` over the member array. */
  function Lookup(ms: seq<Member>, name: seq<Byte>): Option<Value> {
    if ms == [] then None
    else if ms[0].name == name then Some(ms[0].value)
    else Lookup(ms[1..], name)
  }
}
