/**
 `Writer`: a state machine over nesting levels that turns events into compact
 JSON text.
 */
module Writer {
  import opened Bytes
  import opened Json
  import opened StringLiterals
  import L = Lexer
  import Utf8

  /** Decimal printing, as `i32toa` and its siblings do it. */
  function Decimal(n: nat): (t: seq<Byte>)
    ensures t != []
    decreases n
  {
    if n < 10 then [ZERO + n] else Decimal(n / 10) + [ZERO + n % 10]
  }

  function IntText(n: int): seq<Byte> {
    if n < 0 then [MINUS] + Decimal(-n) else Decimal(n)
  }

  /** An open container: whether it is an array, and how many values (names included) it has. */
  datatype Level = Level(inArray: bool, valueCount: nat)

  /** What the writer has put, its open containers (innermost last) and whether a root was begun. */
  datatype Output = Output(text: seq<Byte>, levels: seq<Level>, hasRoot: bool)

  const EMPTY := Output([], [], false)

  /** The assertions of the handlers: one root; a name at every even place of an object; the end
      of a container matches its start. */
  predicate CanWrite(w: Output, e: Event) {
    match e
    case EndObject(_) => w.levels != [] && !Top(w).inArray && Top(w).valueCount % 2 == 0
    case EndArray(_) => w.levels != [] && Top(w).inArray
    case _ =>
      if w.levels == [] then !w.hasRoot
      else !Top(w).inArray && Top(w).valueCount % 2 == 0 ==> e.String? || e.Key?
  }

  function Top(w: Output): Level
    requires w.levels != []
  {
    w.levels[|w.levels| - 1]
  }

  /** The separator before the next value. */
  function Separator(w: Output): seq<Byte> {
    if w.levels == [] || Top(w).valueCount == 0 then []
    else if Top(w).inArray || Top(w).valueCount % 2 == 0 then [COMMA]
    else [COLON]
  }

  /** `Prefix`: the separator, and one more value in the innermost container. */
  function Prefix(w: Output): Output {
    if w.levels == [] then w.(hasRoot := true)
    else
      var i := |w.levels| - 1;
      Output(w.text + Separator(w),
             w.levels[i := Level(w.levels[i].inArray, w.levels[i].valueCount + 1)], w.hasRoot)
  }

  function ScalarText(e: Event): seq<Byte> {
    match e
    case Null => L.NULL
    case Bool(b) => if b then L.TRUE else L.FALSE
    case Int(i) => IntText(i)
    case Uint(u) => IntText(u)
    case Int64(i) => IntText(i)
    case Uint64(u) => IntText(u)
    case Double(literal) => literal
    case String(s) => StringText(s)
    case Key(s) => StringText(s)
    case _ => []
  }

  function Put(w: Output, t: seq<Byte>): Output {
    w.(text := w.text + t)
  }

  /** The handlers, with a UTF-8 target. */
  function Write(w: Output, e: Event): Output
    requires CanWrite(w, e)
  {
    match e
    case StartObject => Put(Prefix(w), [LBRACE]).(levels := Prefix(w).levels + [Level(false, 0)])
    case StartArray => Put(Prefix(w), [LBRACKET]).(levels := Prefix(w).levels + [Level(true, 0)])
    case EndObject(_) => Put(w, [RBRACE]).(levels := w.levels[..|w.levels| - 1])
    case EndArray(_) => Put(w, [RBRACKET]).(levels := w.levels[..|w.levels| - 1])
    case _ => Put(Prefix(w), ScalarText(e))
  }

  function WriteAll(w: Output, ev: seq<Event>): Option<Output>
    decreases |ev|
  {
    if ev == [] then Some(w)
    else if CanWrite(w, ev[0]) then WriteAll(Write(w, ev[0]), ev[1..])
    else None
  }

  // ---- The writer as it runs ----

  class Writer {
    var text: seq<Byte>
    var levels: seq<Level>
    var hasRoot: bool

    constructor ()
      ensures Now() == EMPTY
    {
      text, levels, hasRoot := [], [], false;
    }

    function Now(): Output
      reads this
    {
      Output(text, levels, hasRoot)
    }

    method PutBytes(t: seq<Byte>)
      modifies this`text
      ensures text == old(text) + t
    {
      text := text + t;
    }

    method BeginValue()
      modifies this
      ensures Now() == Prefix(old(Now()))
    {
      if levels != [] {
        var i := |levels| - 1;
        var level := levels[i];
        if level.valueCount > 0 {
          if level.inArray {
            PutBytes([COMMA]);
          } else {
            PutBytes([if level.valueCount % 2 == 0 then COMMA else COLON]);
          }
        }
        levels := levels[i := level.(valueCount := level.valueCount + 1)];
      } else {
        hasRoot := true;
      }
    }

    /** `WriteString` with a UTF-8 target. */
    method WriteString(s: seq<Byte>)
      modifies this`text
      ensures text == old(text) + StringText(s)
      ensures |text| <= |old(text)| + 2 + 6 * |s|
    {
      EscapedFits(s);
      PutBytes([QUOTE]);
      var i := 0;
      while i < |s|
        invariant 0 <= i <= |s|
        invariant text + Escaped(s[i..]) == old(text) + [QUOTE] + Escaped(s)
      {
        assert s[i..][0] == s[i] && s[i..][1..] == s[i + 1..];
        assert text + (EscapeByte(s[i]) + Escaped(s[i + 1..])) == text + EscapeByte(s[i]) + Escaped(s[i + 1..]);
        PutBytes(EscapeByte(s[i]));
        i := i + 1;
      }
      assert s[i..] == [];
      assert text + [] == text;
      PutBytes([QUOTE]);
      assert old(text) + [QUOTE] + Escaped(s) + [QUOTE] == old(text) + StringText(s);
    }

    /** `WriteString` with an ASCII target: false, with part of the literal put, when `s` is not
        well-formed. */
    method WriteAsciiString(s: seq<Byte>) returns (ok: bool)
      modifies this`text
      ensures ok <==> Utf8.IsWellFormed(s)
      ensures ok ==> AsciiEscaped(s, 0).Some? && text == old(text) + ([QUOTE] + AsciiEscaped(s, 0).value + [QUOTE])
      ensures ok ==> |text| <= |old(text)| + 2 + 12 * |s|
    {
      hide AsciiEscaped, Utf8.IsWellFormed;
      assert s[0..] == s;
      AsciiAcceptsWellFormed(s, 0);
      PutBytes([QUOTE]);
      var inp := new InStream(s);
      while inp.pos < |s|
        invariant inp.src == s && fresh(inp) && inp.pos <= |s|
        invariant AsciiEscaped(s, 0).Some? <==> AsciiEscaped(s, inp.pos).Some?
        invariant AsciiEscaped(s, 0).Some? ==>
                    text + AsciiEscaped(s, inp.pos).value == old(text) + [QUOTE] + AsciiEscaped(s, 0).value
        decreases |s| - inp.pos
      {
        ghost var k, before := inp.pos, text;
        var piece := NextPiece(inp);
        if piece.None? {
          return false;
        }
        PutBytes(piece.value);
        if AsciiEscaped(s, k).Some? {
          assert before + (piece.value + AsciiEscaped(s, inp.pos).value) == text + AsciiEscaped(s, inp.pos).value;
        }
      }
      AsciiEscapedEnd(s);
      assert text + [] == text;
      PutBytes([QUOTE]);
      assert old(text) + [QUOTE] + AsciiEscaped(s, 0).value + [QUOTE]
             == old(text) + ([QUOTE] + AsciiEscaped(s, 0).value + [QUOTE]);
      return true;
    }

    /** One byte or one code point, escaped. */
    static method NextPiece(inp: InStream) returns (piece: Option<seq<Byte>>)
      requires inp.pos < |inp.src|
      modifies inp
      ensures old(inp.pos) < inp.pos
      ensures piece.None? ==> AsciiEscaped(inp.src, old(inp.pos)).None?
      ensures piece.Some? ==> inp.pos <= |inp.src| && AsciiEscaped(inp.src, old(inp.pos)) == Prepend(piece.value, AsciiEscaped(inp.src, inp.pos))
    {
      hide EscapeByte, UnicodeEscape, Utf8.DecodeAt, Utf8.Encode;
      ghost var k := inp.pos;
      if inp.Peek() < 0x80 {
        var b := inp.Take();
        return Some(EscapeByte(b));
      }
      var decoded, cp := Utf8.Decode(inp);
      if !decoded {
        return None;
      }
      Utf8.DecodeThenEncode(inp.src, k);
      piece := Some(UnicodeEscape(cp));
    }

    /** `Null`, `Bool`, the number handlers, `String` and `Key`. */
    method WriteScalar(e: Event)
      requires CanWrite(Now(), e)
      requires !e.StartObject? && !e.EndObject? && !e.StartArray? && !e.EndArray?
      modifies this
      ensures Now() == Write(old(Now()), e)
    {
      BeginValue();
      if e.String? {
        WriteString(e.s);
      } else if e.Key? {
        WriteString(e.key);
      } else {
        PutBytes(ScalarText(e));
      }
    }

    method StartObject()
      requires CanWrite(Now(), Json.StartObject)
      modifies this
      ensures Now() == Write(old(Now()), Json.StartObject)
    {
      BeginValue();
      levels := levels + [Level(false, 0)];
      PutBytes([LBRACE]);
    }

    method EndObject(memberCount: nat)
      requires CanWrite(Now(), Json.EndObject(memberCount))
      modifies this
      ensures Now() == Write(old(Now()), Json.EndObject(memberCount))
    {
      levels := levels[..|levels| - 1];
      PutBytes([RBRACE]);
    }

    method StartArray()
      requires CanWrite(Now(), Json.StartArray)
      modifies this
      ensures Now() == Write(old(Now()), Json.StartArray)
    {
      BeginValue();
      levels := levels + [Level(true, 0)];
      PutBytes([LBRACKET]);
    }

    method EndArray(elementCount: nat)
      requires CanWrite(Now(), Json.EndArray(elementCount))
      modifies this
      ensures Now() == Write(old(Now()), Json.EndArray(elementCount))
    {
      levels := levels[..|levels| - 1];
      PutBytes([RBRACKET]);
    }
  }

  lemma AsciiEscapedEnd(s: seq<Byte>)
    ensures AsciiEscaped(s, |s|) == Some([])
  {
  }
}
