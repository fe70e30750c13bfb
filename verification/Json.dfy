/**
 The vocabulary shared by the readers, the writer and the handlers: SAX events,
 parse errors and the outcome of parsing.
 */
module Json {
  import opened Bytes

  /** A handler call. A `Double` event carries the literal it was read from. */
  datatype Event =
    | Null
    | Bool(b: bool)
    | Int(i: int)
    | Uint(u: int)
    | Int64(i64: int)
    | Uint64(u64: int)
    | Double(literal: seq<Byte>)
    | String(s: seq<Byte>)
    | Key(key: seq<Byte>)
    | StartObject
    | EndObject(members: nat)
    | StartArray
    | EndArray(elements: nat)

  datatype ParseError =
    | DocumentEmpty
    | DocumentRootNotSingular
    | ValueInvalid
    | ObjectMissName
    | ObjectMissColon
    | ObjectMissCommaOrCurlyBracket
    | ArrayMissCommaOrSquareBracket
    | StringUnicodeEscapeInvalidHex
    | StringUnicodeSurrogateInvalid
    | StringEscapeInvalid
    | StringMissQuotationMark
    | StringInvalidEncoding
    | NumberTooBig
    | NumberMissFraction
    | NumberMissExponent
    | Termination

  /** A parse: the text, the trailing-comma flag, the handler (called with all events so far,
      the newest last; false stops the parse) and the test for a literal beyond the range of
      double. */
  datatype Config = Config(src: seq<Byte>, trailingCommas: bool,
                           handler: seq<Event> -> bool, overflows: seq<Byte> -> bool)

  /** Where a parse function left the stream, or the error it set, and the events emitted. */
  datatype Outcome =
    | Ok(pos: nat, ev: seq<Event>)
    | Fail(error: ParseError, offset: nat, ev: seq<Event>)

  /** Call the handler; go on at `next`, or stop with a termination error at `offset`. */
  function Emit(c: Config, ev: seq<Event>, e: Event, next: nat, offset: nat): Outcome {
    if c.handler(ev + [e]) then Ok(next, ev + [e]) else Fail(Termination, offset, ev + [e])
  }
}
