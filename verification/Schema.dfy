/**
 JSON schemas over the keywords type, allOf, anyOf, oneOf, not, properties,
 required, additionalProperties (boolean), minProperties, maxProperties, items
 (list and tuple), additionalItems (boolean), minItems and maxItems, and what it
 means for a value to satisfy one.
 */
module Schema {
  import opened Bytes
  import opened Dom

  /** The type bits of a schema. */
  datatype Types = Types(isNull: bool, isBoolean: bool, isObject: bool, isArray: bool,
                         isString: bool, isNumber: bool, isInteger: bool)

  const ANY_TYPE := Types(true, true, true, true, true, true, true)

  /** A row of the property table, which holds each name of `properties` and `required` once. */
  datatype Property = Property(name: seq<Byte>, schema: Schema, required: bool)

  datatype Items =
    | AnyItems
    | ListItems(each: Schema)
    | TupleItems(first: seq<Schema>, additional: bool)

  datatype Schema = Schema(
    types: Types,
    allOf: seq<Schema>, anyOf: seq<Schema>, oneOf: seq<Schema>, notOf: seq<Schema>,
    properties: seq<Property>, additionalProperties: bool, minProperties: nat, maxProperties: Option<nat>,
    items: Items, minItems: nat, maxItems: Option<nat>)

  /** `typeless_`: the schema every value satisfies. */
  const TYPELESS := Schema(ANY_TYPE, [], [], [], [], [], true, 0, None, AnyItems, 0, None)

  /** The property table has no name twice, at any depth. */
  ghost predicate WellFormed(s: Schema)
    decreases s
  {
    && (forall i, j :: 0 <= i < j < |s.properties| ==> s.properties[i].name != s.properties[j].name)
    && (forall i :: 0 <= i < |s.properties| ==> PropertyWellFormed(s.properties[i]))
    && (forall i :: 0 <= i < |s.allOf| ==> WellFormed(s.allOf[i]))
    && (forall i :: 0 <= i < |s.anyOf| ==> WellFormed(s.anyOf[i]))
    && (forall i :: 0 <= i < |s.oneOf| ==> WellFormed(s.oneOf[i]))
    && (forall i :: 0 <= i < |s.notOf| ==> WellFormed(s.notOf[i]))
    && ItemsWellFormed(s.items)
  }

  ghost predicate PropertyWellFormed(p: Property)
    decreases p
  {
    WellFormed(p.schema)
  }

  ghost predicate ItemsWellFormed(items: Items)
    decreases items
  {
    match items
    case AnyItems => true
    case ListItems(each) => WellFormed(each)
    case TupleItems(first, _) => forall i :: 0 <= i < |first| ==> WellFormed(first[i])
  }

  function TypeAllows(t: Types, v: Value): bool {
    match v
    case NullValue => t.isNull
    case BoolValue(_) => t.isBoolean
    case IntegerValue(_) => t.isInteger || t.isNumber
    case DoubleValue(_) => t.isNumber
    case StringValue(_) => t.isString
    case ArrayValue(_) => t.isArray
    case ObjectValue(_) => t.isObject
  }

  ghost predicate HasMember(ms: seq<Member>, name: seq<Byte>) {
    exists i :: 0 <= i < |ms| && ms[i].name == name
  }

  /** Validity, by recursion over the value and the schema. */
  ghost predicate IsValid(s: Schema, v: Value)
    decreases v, s
  {
    && TypeAllows(s.types, v)
    && Combined(s, v)
    && match v
       case ArrayValue(es) =>
         && s.minItems <= |es| && (s.maxItems.Some? ==> |es| <= s.maxItems.value)
         && ElementsValid(s, 0, es)
       case ObjectValue(ms) =>
         && s.minProperties <= |ms| && (s.maxProperties.Some? ==> |ms| <= s.maxProperties.value)
         && RequiredPresent(s, ms) && MembersValid(s, ms)
       case _ => true
  }

  /** The four combining keywords. */
  ghost predicate Combined(s: Schema, v: Value)
    decreases v, s, 0
  {
    && SatisfiesAll(s.allOf, v)
    && (s.anyOf != [] ==> SatisfiesAny(s.anyOf, v))
    && (s.oneOf != [] ==> SatisfiesOne(s.oneOf, v))
    && !SatisfiesAny(s.notOf, v)
  }

  ghost predicate SatisfiesAll(ss: seq<Schema>, v: Value)
    decreases v, ss
  {
    forall i :: 0 <= i < |ss| ==> IsValid(ss[i], v)
  }

  ghost predicate SatisfiesAny(ss: seq<Schema>, v: Value)
    decreases v, ss
  {
    exists i :: 0 <= i < |ss| && IsValid(ss[i], v)
  }

  ghost predicate SatisfiesOne(ss: seq<Schema>, v: Value)
    decreases v, ss
  {
    exists i :: 0 <= i < |ss| && IsValid(ss[i], v) && forall j :: 0 <= j < |ss| && j != i ==> !IsValid(ss[j], v)
  }

  /** The elements of an array from position `k` on. */
  ghost predicate ElementsValid(s: Schema, k: nat, es: seq<Value>)
    decreases es, s, 1
  {
    forall i :: 0 <= i < |es| ==> ElementValid(s, k, es, i)
  }

  /** The element that stands at position `k + i` of the array. */
  ghost predicate ElementValid(s: Schema, k: nat, es: seq<Value>, i: nat)
    requires i < |es|
    decreases es, s, 0
  {
    match s.items
    case AnyItems => true
    case ListItems(each) => IsValid(each, es[i])
    case TupleItems(first, additional) => if k + i < |first| then IsValid(first[k + i], es[i]) else additional
  }

  ghost predicate MembersValid(s: Schema, ms: seq<Member>)
    decreases ms, s
  {
    forall i :: 0 <= i < |ms| ==> IsMemberValid(s, ms[i])
  }

  /** Every row of the member's name is satisfied, and without such a row it is an additional property. */
  ghost predicate IsMemberValid(s: Schema, m: Member)
    decreases m, s
  {
    && (forall r :: 0 <= r < |s.properties| && s.properties[r].name == m.name ==> IsValid(s.properties[r].schema, m.value))
    && ((exists r :: 0 <= r < |s.properties| && s.properties[r].name == m.name) || s.additionalProperties)
  }

  ghost predicate RequiredPresent(s: Schema, ms: seq<Member>) {
    forall i :: 0 <= i < |s.properties| && s.properties[i].required ==> HasMember(ms, s.properties[i].name)
  }
}
