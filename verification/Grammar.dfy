/**
 JSON texts by the grammar of RFC 8259, as syntax trees: the bytes a tree stands for,
 the events it means, and which trees are well formed. Nothing here refers to a parser.
 */
module Grammar {
  import opened Bytes
  import opened Json
  import Utf8

  // ---- Section 2: white space ----

  predicate IsWs(b: Byte) {
    b == 0x20 || b == 0x09 || b == 0x0A || b == 0x0D
  }

  predicate AllWs(w: seq<Byte>) {
    forall i :: 0 <= i < |w| ==> IsWs(w[i])
  }

  // ---- Section 6: numbers ----

  predicate AllDigits(ds: seq<Byte>) {
    forall i :: 0 <= i < |ds| ==> 0x30 <= ds[i] <= 0x39
  }

  /** The number that decimal digits denote. */
  function DigitsValue(ds: seq<Byte>): nat
    requires AllDigits(ds)
  {
    if ds == [] then 0 else 10 * DigitsValue(ds[..|ds| - 1]) + (ds[|ds| - 1] - 0x30)
  }

  /** exp = e [ minus / plus ] 1*DIGIT */
  datatype Exponent = Exponent(mark: Byte, sign: seq<Byte>, digits: seq<Byte>)

  /** number = [ minus ] int [ frac ] [ exp ]; `frac` is without its point. */
  datatype Numeral = Numeral(minus: bool, int1: seq<Byte>, frac: Option<seq<Byte>>, exp: Option<Exponent>)

  predicate IsExponent(e: Exponent) {
    && (e.mark == 0x65 || e.mark == 0x45)
    && (e.sign == [] || e.sign == [0x2B] || e.sign == [0x2D])
    && e.digits != [] && AllDigits(e.digits)
  }

  predicate IsNumeral(n: Numeral) {
    && n.int1 != [] && AllDigits(n.int1) && (n.int1[0] == 0x30 ==> |n.int1| == 1)
    && (n.frac.Some? ==> n.frac.value != [] && AllDigits(n.frac.value))
    && (n.exp.Some? ==> IsExponent(n.exp.value))
  }

  function MinusText(minus: bool): seq<Byte> {
    if minus then [0x2D] else []
  }

  function FracText(frac: Option<seq<Byte>>): seq<Byte> {
    if frac.Some? then [0x2E] + frac.value else []
  }

  function ExpText(exp: Option<Exponent>): seq<Byte> {
    if exp.Some? then [exp.value.mark] + exp.value.sign + exp.value.digits else []
  }

  function NumeralText(n: Numeral): seq<Byte> {
    MinusText(n.minus) + n.int1 + FracText(n.frac) + ExpText(n.exp)
  }

  /** The event of an integer: the narrowest type of its sign that holds it, if there is one. */
  function IntegerOf(minus: bool, v: nat): Option<Event> {
    if minus then
      if v <= 0x8000_0000 then Some(Int(-(v as int))) else if v <= 0x8000_0000_0000_0000 then Some(Int64(-(v as int))) else None
    else
      if v < 0x1_0000_0000 then Some(Uint(v)) else if v < 0x1_0000_0000_0000_0000 then Some(Uint64(v)) else None
  }

  function NumeralEvent(n: Numeral): Event
    requires IsNumeral(n)
  {
    var e := IntegerOf(n.minus, DigitsValue(n.int1));
    if n.frac.None? && n.exp.None? && e.Some? then e.value else Double(NumeralText(n))
  }

  /** The integer part and `j` fraction digits, as one number. */
  function Scaled(int1: seq<Byte>, frac: seq<Byte>, j: nat): nat
    requires AllDigits(int1) && AllDigits(frac) && j <= |frac|
  {
    DigitsValue(int1 + frac[..j])
  }

  /** The digits in it, from the first that is not zero on, without the first integer digit. */
  function Significant(int1: seq<Byte>, frac: seq<Byte>, j: nat): int
    requires AllDigits(int1) && AllDigits(frac) && j <= |frac|
  {
    if j == 0 then |int1| - 1
    else Significant(int1, frac, j - 1) + if Scaled(int1, frac, j) != 0 then 1 else 0
  }

  /** The fraction digits from digit `j` on that are taken into the significand: each that finds it
      exact in a double, or less than 17 digits long. */
  function Folded(int1: seq<Byte>, frac: seq<Byte>, j: nat): nat
    requires AllDigits(int1) && AllDigits(frac) && j <= |frac|
    decreases |frac| - j
  {
    if j < |frac| && (Scaled(int1, frac, j) < 0x20_0000_0000_0000 || Significant(int1, frac, j) < 17)
    then 1 + Folded(int1, frac, j + 1) else 0
  }

  /** The largest positive exponent: 308, and one more for each fraction digit taken in. */
  function MaxExponent(n: Numeral): (r: nat)
    requires IsNumeral(n)
    ensures r >= 308
  {
    308 + if n.frac.Some? && IntegerOf(n.minus, DigitsValue(n.int1)).Some? then Folded(n.int1, n.frac.value, 0) else 0
  }

  /** The limits on doubles, which section 6 leaves open. */
  predicate IsRepresentable(n: Numeral, overflows: seq<Byte> -> bool)
    requires IsNumeral(n)
  {
    && (n.exp.Some? && n.exp.value.sign != [0x2D] ==> DigitsValue(n.exp.value.digits) <= MaxExponent(n))
    && (NumeralEvent(n).Double? ==> !overflows(NumeralText(n)))
  }

  // ---- Section 7: strings ----

  predicate IsHex(b: Byte) {
    0x30 <= b <= 0x39 || 0x41 <= b <= 0x46 || 0x61 <= b <= 0x66
  }

  predicate AreHex(h: seq<Byte>) {
    |h| == 4 && IsHex(h[0]) && IsHex(h[1]) && IsHex(h[2]) && IsHex(h[3])
  }

  function HexDigitValue(b: Byte): (r: nat)
    requires IsHex(b)
    ensures r < 16
  {
    if b <= 0x39 then b - 0x30 else if b <= 0x46 then b - 0x37 else b - 0x57
  }

  function HexValue(h: seq<Byte>): (r: nat)
    requires AreHex(h)
    ensures r < 0x10000
  {
    0x1000 * HexDigitValue(h[0]) + 0x100 * HexDigitValue(h[1]) + 0x10 * HexDigitValue(h[2]) + HexDigitValue(h[3])
  }

  /** The byte that a backslash and a letter stand for. */
  function ShortEscape(letter: Byte): Option<Byte> {
    match letter
    case 0x22 => Some(0x22)
    case 0x5C => Some(0x5C)
    case 0x2F => Some(0x2F)
    case 0x62 => Some(0x08)
    case 0x66 => Some(0x0C)
    case 0x6E => Some(0x0A)
    case 0x72 => Some(0x0D)
    case 0x74 => Some(0x09)
    case _ => None
  }

  /** One char: a byte as it is, a short escape, \uXXXX, or two of them for a surrogate pair. Bytes
      from 0x80 on are taken one by one, whether or not they are UTF-8. */
  datatype Char = Plain(b: Byte) | Short(letter: Byte) | Unicode(hex: seq<Byte>) | Surrogates(high: seq<Byte>, low: seq<Byte>)

  predicate IsChar(c: Char) {
    match c
    case Plain(b) => b >= 0x20 && b != 0x22 && b != 0x5C
    case Short(letter) => ShortEscape(letter).Some?
    case Unicode(h) => AreHex(h) && !(0xD800 <= HexValue(h) <= 0xDFFF)
    case Surrogates(high, low) =>
      AreHex(high) && AreHex(low) && 0xD800 <= HexValue(high) <= 0xDBFF && 0xDC00 <= HexValue(low) <= 0xDFFF
  }

  function CharText(c: Char): seq<Byte> {
    match c
    case Plain(b) => [b]
    case Short(letter) => [0x5C, letter]
    case Unicode(h) => [0x5C, 0x75] + h
    case Surrogates(high, low) => [0x5C, 0x75] + high + [0x5C, 0x75] + low
  }

  /** The bytes a char means, in UTF-8. */
  function CharMeaning(c: Char): seq<Byte>
    requires IsChar(c)
  {
    match c
    case Plain(b) => [b]
    case Short(letter) => [ShortEscape(letter).value]
    case Unicode(h) => Utf8.Encode(HexValue(h))
    case Surrogates(high, low) => Utf8.Encode(Paired(HexValue(high), HexValue(low)))
  }

  /** The code point of a surrogate pair: ten bits of each, above 0x10000. */
  function Paired(high: nat, low: nat): Utf8.Scalar
    requires 0xD800 <= high <= 0xDBFF && 0xDC00 <= low <= 0xDFFF
  {
    0x10000 + 0x400 * (high - 0xD800) + (low - 0xDC00)
  }

  predicate AreChars(cs: seq<Char>) {
    forall i :: 0 <= i < |cs| ==> IsChar(cs[i])
  }

  function CharsText(cs: seq<Char>): seq<Byte> {
    if cs == [] then [] else CharText(cs[0]) + CharsText(cs[1..])
  }

  function CharsMeaning(cs: seq<Char>): seq<Byte>
    requires AreChars(cs)
  {
    if cs == [] then [] else CharMeaning(cs[0]) + CharsMeaning(cs[1..])
  }

  function StringText(cs: seq<Char>): seq<Byte> {
    [0x22] + CharsText(cs) + [0x22]
  }

  // ---- Sections 3 to 5: values, objects, arrays ----

  /** A value. A container is opened with the white space behind its bracket, and may end in a comma
      where trailing commas are allowed, which section 5 does not. */
  datatype Node =
    | NullNode
    | TrueNode
    | FalseNode
    | NumberNode(n: Numeral)
    | StringNode(chars: seq<Char>)
    | ArrayNode(open1: seq<Byte>, items: seq<Item>, trailing: bool)
    | ObjectNode(open1: seq<Byte>, entries: seq<Entry>, trailing: bool)

  /** An element, the white space behind it, and behind the comma after it if there is one. */
  datatype Item = Item(value: Node, after: seq<Byte>, next: seq<Byte>)

  /** A member: its name, the white space around the colon, and the rest as for an element. */
  datatype Entry = Entry(name: seq<Char>, before: seq<Byte>, behind: seq<Byte>, value: Node, after: seq<Byte>, next: seq<Byte>)

  function NodeText(v: Node): seq<Byte>
    decreases v
  {
    match v
    case NullNode => [0x6E, 0x75, 0x6C, 0x6C]
    case TrueNode => [0x74, 0x72, 0x75, 0x65]
    case FalseNode => [0x66, 0x61, 0x6C, 0x73, 0x65]
    case NumberNode(n) => NumeralText(n)
    case StringNode(cs) => StringText(cs)
    case ArrayNode(open1, items, trailing) => [0x5B] + open1 + ItemsText(items, trailing)
    case ObjectNode(open1, entries, trailing) => [0x7B] + open1 + EntriesText(entries, trailing)
  }

  /** Elements with their commas, and the closing bracket. */
  function ItemsText(items: seq<Item>, trailing: bool): seq<Byte>
    decreases items
  {
    if items == [] then [0x5D]
    else
      var x := items[0];
      assert x.value < x;
      NodeText(x.value) + x.after + CommaText(x.next, |items| > 1 || trailing) + ItemsText(items[1..], trailing)
  }

  function CommaText(next: seq<Byte>, comma: bool): seq<Byte> {
    if comma then [0x2C] + next else []
  }

  /** Members with their commas, and the closing brace. */
  function EntriesText(entries: seq<Entry>, trailing: bool): seq<Byte>
    decreases entries
  {
    if entries == [] then [0x7D]
    else
      var x := entries[0];
      assert x.value < x;
      NameText(x) + NodeText(x.value) + x.after + CommaText(x.next, |entries| > 1 || trailing)
      + EntriesText(entries[1..], trailing)
  }

  /** name-separator included. */
  function NameText(x: Entry): seq<Byte> {
    StringText(x.name) + x.before + [0x3A] + x.behind
  }

  predicate IsNode(v: Node, trailingCommas: bool, overflows: seq<Byte> -> bool)
    decreases v
  {
    match v
    case NullNode => true
    case TrueNode => true
    case FalseNode => true
    case NumberNode(n) => IsNumeral(n) && IsRepresentable(n, overflows)
    case StringNode(cs) => AreChars(cs)
    case ArrayNode(open1, items, trailing) =>
      AllWs(open1) && AreItems(items, trailingCommas, overflows) && (trailing ==> trailingCommas && items != [])
    case ObjectNode(open1, entries, trailing) =>
      AllWs(open1) && AreEntries(entries, trailingCommas, overflows) && (trailing ==> trailingCommas && entries != [])
  }

  predicate AreItems(items: seq<Item>, trailingCommas: bool, overflows: seq<Byte> -> bool)
    decreases items
  {
    items == [] ||
    (&& AllWs(items[0].after) && AllWs(items[0].next)
     && (assert items[0].value < items[0]; IsNode(items[0].value, trailingCommas, overflows))
     && AreItems(items[1..], trailingCommas, overflows))
  }

  predicate AreEntries(entries: seq<Entry>, trailingCommas: bool, overflows: seq<Byte> -> bool)
    decreases entries
  {
    entries == [] ||
    (&& AreChars(entries[0].name) && AllWs(entries[0].before) && AllWs(entries[0].behind)
     && AllWs(entries[0].after) && AllWs(entries[0].next)
     && (assert entries[0].value < entries[0]; IsNode(entries[0].value, trailingCommas, overflows))
     && AreEntries(entries[1..], trailingCommas, overflows))
  }

  // ---- Meaning ----

  function NodeEvents(v: Node, trailingCommas: bool, overflows: seq<Byte> -> bool): seq<Event>
    requires IsNode(v, trailingCommas, overflows)
    decreases v
  {
    match v
    case NullNode => [Null]
    case TrueNode => [Bool(true)]
    case FalseNode => [Bool(false)]
    case NumberNode(n) => [NumeralEvent(n)]
    case StringNode(cs) => [String(CharsMeaning(cs))]
    case ArrayNode(_, items, _) => [StartArray] + ItemsEvents(items, trailingCommas, overflows) + [EndArray(|items|)]
    case ObjectNode(_, entries, _) => [StartObject] + EntriesEvents(entries, trailingCommas, overflows) + [EndObject(|entries|)]
  }

  function ItemsEvents(items: seq<Item>, trailingCommas: bool, overflows: seq<Byte> -> bool): seq<Event>
    requires AreItems(items, trailingCommas, overflows)
    decreases items
  {
    if items == [] then []
    else
      assert items[0].value < items[0];
      NodeEvents(items[0].value, trailingCommas, overflows) + ItemsEvents(items[1..], trailingCommas, overflows)
  }

  function EntriesEvents(entries: seq<Entry>, trailingCommas: bool, overflows: seq<Byte> -> bool): seq<Event>
    requires AreEntries(entries, trailingCommas, overflows)
    decreases entries
  {
    if entries == [] then []
    else
      assert entries[0].value < entries[0];
      [Key(CharsMeaning(entries[0].name))] + NodeEvents(entries[0].value, trailingCommas, overflows)
      + EntriesEvents(entries[1..], trailingCommas, overflows)
  }

  /** JSON-text = ws value ws */
  ghost predicate IsText(s: seq<Byte>, v: Node, ev: seq<Event>, trailingCommas: bool, overflows: seq<Byte> -> bool) {
    && IsNode(v, trailingCommas, overflows) && ev == NodeEvents(v, trailingCommas, overflows)
    && exists before, after :: AllWs(before) && AllWs(after) && s == before + NodeText(v) + after
  }

  /** The text `s` is JSON and means the events `ev`. */
  ghost predicate IsJson(s: seq<Byte>, ev: seq<Event>, trailingCommas: bool, overflows: seq<Byte> -> bool) {
    exists v :: IsText(s, v, ev, trailingCommas, overflows)
  }
}
