/**
 Bytes, byte streams and the ASCII characters the JSON grammar names.

 A text is a sequence of bytes. The C++ code reads NUL-terminated buffers, so
 reading at or past the end of a text yields NUL.
 */
module Bytes {

  type Byte = b: int | 0 <= b < 256

  datatype Option<+T> = None | Some(value: T)

  const NUL: Byte := 0x00
  const TAB: Byte := 0x09
  const LINEFEED: Byte := 0x0A
  const RETURN: Byte := 0x0D
  const SPACE: Byte := 0x20
  const QUOTE: Byte := 0x22
  const HASH: Byte := 0x23
  const PERCENT: Byte := 0x25
  const PLUS: Byte := 0x2B
  const COMMA: Byte := 0x2C
  const MINUS: Byte := 0x2D
  const DOT: Byte := 0x2E
  const SLASH: Byte := 0x2F
  const ZERO: Byte := 0x30
  const NINE: Byte := 0x39
  const COLON: Byte := 0x3A
  const QUESTION: Byte := 0x3F
  const LBRACKET: Byte := 0x5B
  const BACKSLASH: Byte := 0x5C
  const RBRACKET: Byte := 0x5D
  const LBRACE: Byte := 0x7B
  const RBRACE: Byte := 0x7D
  const TILDE: Byte := 0x7E

  const TWO32 := 0x1_0000_0000
  const TWO63 := 0x8000_0000_0000_0000
  const TWO64 := 0x1_0000_0000_0000_0000

  /** The byte at `pos`; NUL at and after the end. */
  function At(s: seq<Byte>, pos: nat): Byte {
    if pos < |s| then s[pos] else NUL
  }

  predicate IsDigit(b: Byte) {
    ZERO <= b <= NINE
  }

  function HexDigit(b: Byte): (r: Option<nat>)
    ensures r.Some? ==> r.value < 16
  {
    if IsDigit(b) then Some(b - ZERO)
    else if 0x41 <= b <= 0x46 then Some(b - 0x41 + 10)
    else if 0x61 <= b <= 0x66 then Some(b - 0x61 + 10)
    else None
  }

  /** `part` occurs in `s` at `pos`. */
  ghost predicate Occurs(part: seq<Byte>, s: seq<Byte>, pos: nat) {
    pos + |part| <= |s| && s[pos..pos + |part|] == part
  }

  /** An input stream: a text and a cursor. */
  class InStream {
    const src: seq<Byte>
    var pos: nat

    constructor (src: seq<Byte>)
      ensures this.src == src && pos == 0
    {
      this.src := src;
      pos := 0;
    }

    function Peek(): Byte
      reads this
    {
      At(src, pos)
    }

    method Take() returns (b: Byte)
      modifies this
      ensures b == At(src, old(pos)) && pos == old(pos) + 1
    {
      b := At(src, pos);
      pos := pos + 1;
    }
  }

  /** An output stream: the bytes put so far. */
  class OutStream {
    var out: seq<Byte>

    constructor ()
      ensures out == []
    {
      out := [];
    }

    method Put(b: Byte)
      modifies this
      ensures out == old(out) + [b]
    {
      out := out + [b];
    }
  }
}
