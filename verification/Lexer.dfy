/**
 The lexical level of the reader: whitespace, the three literals, strings and
 numbers. Both parsers share it.
 */
module Lexer {
  import opened Bytes
  import opened Json
  import Utf8

  // ---- Whitespace ----

  predicate IsBlank(b: Byte) {
    b == SPACE || b == LINEFEED || b == RETURN || b == TAB
  }

  function SkipBlanks(s: seq<Byte>, pos: nat): (end: nat)
    ensures pos <= end && !IsBlank(At(s, end))
    decreases |s| - pos
  {
    if IsBlank(At(s, pos)) then SkipBlanks(s, pos + 1) else pos
  }

  // ---- null, true, false ----

  const NULL: seq<Byte> := [0x6E, 0x75, 0x6C, 0x6C]
  const TRUE: seq<Byte> := [0x74, 0x72, 0x75, 0x65]
  const FALSE: seq<Byte> := [0x66, 0x61, 0x6C, 0x73, 0x65]

  /** The length of the longest prefix of `literal` found at `pos`: where `Consume` stops. */
  function Consumed(s: seq<Byte>, pos: nat, literal: seq<Byte>): (n: nat)
    ensures n <= |literal|
    ensures n == |literal| <==> forall i :: 0 <= i < |literal| ==> At(s, pos + i) == literal[i]
    decreases literal
  {
    if literal == [] || At(s, pos) != literal[0] then 0
    else 1 + Consumed(s, pos + 1, literal[1..])
  }

  function ParseLiteral(c: Config, pos: nat, ev: seq<Event>, literal: seq<Byte>, e: Event): Outcome {
    var n := Consumed(c.src, pos, literal);
    if n == |literal| then Emit(c, ev, e, pos + n, pos + n) else Fail(ValueInvalid, pos + n, ev)
  }

  // ---- Strings ----

  /** The `escape` table of `ParseStringToStream`; 0 where there is no such escape. */
  function Unescape(e: Byte): Byte {
    match e
    case 0x22 => 0x22
    case 0x2F => 0x2F
    case 0x5C => 0x5C
    case 0x62 => 0x08
    case 0x66 => 0x0C
    case 0x6E => 0x0A
    case 0x72 => 0x0D
    case 0x74 => 0x09
    case _ => 0
  }

  const LOWER_U: Byte := 0x75

  /** `ParseHex4`: four hexadecimal digits, most significant first. */
  function Hex4(s: seq<Byte>, pos: nat): (r: Option<nat>)
    ensures r.Some? ==> r.value < 0x10000
  {
    var h0, h1, h2, h3 := HexDigit(At(s, pos)), HexDigit(At(s, pos + 1)),
                          HexDigit(At(s, pos + 2)), HexDigit(At(s, pos + 3));
    if h0.None? || h1.None? || h2.None? || h3.None? then None
    else Some(((h0.value * 16 + h1.value) * 16 + h2.value) * 16 + h3.value)
  }

  datatype Scan = Scanned(next: nat, bytes: seq<Byte>) | Rejected(error: ParseError, offset: nat)

  /** The escape sequence at `pos`, which holds a backslash. */
  function ScanEscape(s: seq<Byte>, pos: nat): (r: Scan)
    ensures r.Scanned? ==> pos + 2 <= r.next
  {
    var e := At(s, pos + 1);
    if Unescape(e) != 0 then Scanned(pos + 2, [Unescape(e)])
    else if e != LOWER_U then Rejected(StringEscapeInvalid, pos)
    else
      match Hex4(s, pos + 2)
      case None => Rejected(StringUnicodeEscapeInvalidHex, pos)
      case Some(high) =>
        if high < 0xD800 || high > 0xDFFF then Scanned(pos + 6, Utf8.Encode(high))
        else if high > 0xDBFF || At(s, pos + 6) != BACKSLASH || At(s, pos + 7) != LOWER_U then
          Rejected(StringUnicodeSurrogateInvalid, pos)
        else
          match Hex4(s, pos + 8)
          case None => Rejected(StringUnicodeEscapeInvalidHex, pos)
          case Some(low) =>
            if low < 0xDC00 || low > 0xDFFF then Rejected(StringUnicodeSurrogateInvalid, pos)
            else Scanned(pos + 12, Utf8.Encode((high - 0xD800) * 0x400 + (low - 0xDC00) + 0x10000))
  }

  /** `ParseStringToStream` from `pos` on, with `acc` already written: UTF-8 to UTF-8, so bytes
      that are not escapes are copied one by one. */
  function ScanString(s: seq<Byte>, pos: nat, acc: seq<Byte>): (r: Scan)
    ensures r.Scanned? ==> pos < r.next <= |s|
    decreases |s| - pos
  {
    var b := At(s, pos);
    if b == BACKSLASH then
      match ScanEscape(s, pos)
      case Rejected(error, offset) => Rejected(error, offset)
      case Scanned(next, bytes) => ScanString(s, next, acc + bytes)
    else if b == QUOTE then Scanned(pos + 1, acc)
    else if b == NUL then Rejected(StringMissQuotationMark, pos)
    else if b < 0x20 then Rejected(StringInvalidEncoding, pos)
    else ScanString(s, pos + 1, acc + [b])
  }

  /** `ParseString` at `pos`, which holds the opening quote. */
  function ParseString(c: Config, pos: nat, ev: seq<Event>, isKey: bool): (r: Outcome)
    ensures r.Ok? ==> pos < r.pos <= |c.src|
    ensures ev <= r.ev
  {
    match ScanString(c.src, pos + 1, [])
    case Rejected(error, offset) => Fail(error, offset, ev)
    case Scanned(next, bytes) => Emit(c, ev, if isKey then Key(bytes) else String(bytes), next, next)
  }

  // ---- Numbers ----

  function SkipDigits(s: seq<Byte>, pos: nat): (end: nat)
    ensures pos <= end && !IsDigit(At(s, end))
    ensures forall i :: pos <= i < end ==> IsDigit(At(s, i))
    ensures pos < end ==> end <= |s|
    decreases |s| - pos
  {
    if IsDigit(At(s, pos)) then SkipDigits(s, pos + 1) else pos
  }

  function DigitValue(b: Byte): (v: nat)
    ensures v < 10
  {
    if IsDigit(b) then b - ZERO else 0
  }

  /** The number that the digits from `start` up to `end` denote. */
  function NatAt(s: seq<Byte>, start: nat, end: nat): nat
    requires start <= end
    decreases end
  {
    if start == end then 0 else NatAt(s, start, end - 1) * 10 + DigitValue(At(s, end - 1))
  }

  const MAX_INT32 := 0x7FFF_FFFF
  const MAX_UINT32 := 0xFFFF_FFFF
  const MAX_INT64 := 0x7FFF_FFFF_FFFF_FFFF
  const MAX_UINT64 := 0xFFFF_FFFF_FFFF_FFFF

  /** The event for an integer literal: the narrowest type that holds it, else None (Double). */
  function IntegerEvent(minus: bool, v: nat): Option<Event> {
    if minus then
      if v <= MAX_INT32 + 1 then Some(Int(-(v as int)))
      else if v <= MAX_INT64 + 1 then Some(Int64(-(v as int)))
      else None
    else
      if v <= MAX_UINT32 then Some(Uint(v))
      else if v <= MAX_UINT64 then Some(Uint64(v))
      else None
  }

  const MAX_EXACT := 0x1F_FFFF_FFFF_FFFF // 2^53 - 1

  /** How many fraction digits are folded into the significand (minus `expFrac`): all of them
      until it passes 2^53 - 1, then up to 17 significant digits. */
  function FoldedDigits(s: seq<Byte>, pos: nat, significand: nat, significandDigits: nat): nat
    decreases |s| - pos
  {
    if !IsDigit(At(s, pos)) then 0
    else if significand > MAX_EXACT then
      if significandDigits < 17 then 1 + FoldedDigits(s, pos + 1, significand, significandDigits + 1)
      else FoldedDigits(s, pos + 1, significand, significandDigits)
    else
      var significand' := significand * 10 + DigitValue(At(s, pos));
      1 + FoldedDigits(s, pos + 1, significand', if significand' != 0 then significandDigits + 1 else significandDigits)
  }

  predicate IsExponentMark(b: Byte) {
    b == 0x65 || b == 0x45
  }

  datatype Number = Number(next: nat, e: Event) | NotNumber(error: ParseError, offset: nat)

  /** `ParseNumber` at `pos` up to the handler call. */
  function ScanNumber(c: Config, pos: nat): (r: Number)
    ensures r.Number? ==> pos < r.next <= |c.src|
  {
    var s := c.src;
    var minus := At(s, pos) == MINUS;
    var intStart := if minus then pos + 1 else pos;
    if !IsDigit(At(s, intStart)) then NotNumber(ValueInvalid, intStart)
    else
      ScanFraction(c, pos, minus, intStart, if At(s, intStart) == ZERO then intStart + 1 else SkipDigits(s, intStart))
  }

  /** What follows the integer part. */
  function ScanFraction(c: Config, pos: nat, minus: bool, intStart: nat, intEnd: nat): (r: Number)
    requires pos <= intStart < intEnd <= |c.src|
    ensures r.Number? ==> pos < r.next <= |c.src|
  {
    var s := c.src;
    var v := NatAt(s, intStart, intEnd);
    var hasFraction := At(s, intEnd) == DOT;
    if hasFraction && !IsDigit(At(s, intEnd + 1)) then NotNumber(NumberMissFraction, intEnd + 1)
    else
      var fracEnd := if hasFraction then SkipDigits(s, intEnd + 1) else intEnd;
      if IsExponentMark(At(s, fracEnd)) then
        var folded := if hasFraction && IntegerEvent(minus, v).Some?
                      then FoldedDigits(s, intEnd + 1, v, intEnd - intStart - 1) else 0;
        ScanExponent(c, pos, fracEnd + 1, folded)
      else if hasFraction || IntegerEvent(minus, v).None? then DoubleLiteral(c, pos, fracEnd)
      else Number(intEnd, IntegerEvent(minus, v).value)
  }

  /** The exponent after the mark: a positive one is refused when it exceeds 308 + folded. */
  function ScanExponent(c: Config, pos: nat, signPos: nat, folded: nat): (r: Number)
    requires pos < signPos
    ensures r.Number? ==> pos < r.next <= |c.src|
  {
    var s := c.src;
    var expStart := if At(s, signPos) == PLUS || At(s, signPos) == MINUS then signPos + 1 else signPos;
    if !IsDigit(At(s, expStart)) then NotNumber(NumberMissExponent, expStart)
    else
      var expEnd := SkipDigits(s, expStart);
      if At(s, signPos) != MINUS && NatAt(s, expStart, expEnd) > 308 + folded then NotNumber(NumberTooBig, pos)
      else DoubleLiteral(c, pos, expEnd)
  }

  function DoubleLiteral(c: Config, pos: nat, end: nat): (r: Number)
    requires pos < end <= |c.src|
    ensures r.Number? ==> r.next == end
  {
    var literal := c.src[pos..end];
    if c.overflows(literal) then NotNumber(NumberTooBig, pos) else Number(end, Double(literal))
  }

  function ParseNumber(c: Config, pos: nat, ev: seq<Event>): (r: Outcome)
    ensures r.Ok? ==> pos < r.pos <= |c.src|
  {
    match ScanNumber(c, pos)
    case NotNumber(error, offset) => Fail(error, offset, ev)
    case Number(next, e) => Emit(c, ev, e, next, pos)
  }

  // ---- Values without structure ----

  /** `ParseValue` where the next byte opens neither an object nor an array. */
  function ParseScalar(c: Config, pos: nat, ev: seq<Event>): (r: Outcome)
    ensures r.Ok? ==> pos < r.pos <= |c.src|
    ensures ev <= r.ev
  {
    match At(c.src, pos)
    case 0x6E => ParseLiteral(c, pos, ev, NULL, Null)
    case 0x74 => ParseLiteral(c, pos, ev, TRUE, Bool(true))
    case 0x66 => ParseLiteral(c, pos, ev, FALSE, Bool(false))
    case 0x22 => ParseString(c, pos, ev, false)
    case _ => ParseNumber(c, pos, ev)
  }
}
