/**
 String literals as `Writer::WriteString` puts them, for a UTF-8 and for an
 ASCII target, and the proof that the reader's `ParseString` undoes both.
 */
module StringLiterals {
  import opened Bytes
  import opened Json
  import opened Lexer
  import Utf8

  // ---- Writing ----

  function HexChar(v: nat): (b: Byte)
    requires v < 16
    ensures b < 0x80 && HexDigit(b) == Some(v)
  {
    if v < 10 then ZERO + v else 0x41 + (v - 10)
  }

  /** The `escape` table of the writer: the letter after the backslash, 0 for none. */
  function EscapeLetter(b: Byte): Byte {
    match b
    case 0x08 => 0x62
    case 0x09 => 0x74
    case 0x0A => 0x6E
    case 0x0C => 0x66
    case 0x0D => 0x72
    case 0x22 => QUOTE
    case 0x5C => BACKSLASH
    case _ => if b < 0x20 then LOWER_U else 0
  }

  function EscapeByte(b: Byte): (t: seq<Byte>)
    ensures 1 <= |t| <= 6
  {
    if EscapeLetter(b) == 0 then [b]
    else if EscapeLetter(b) == LOWER_U then [BACKSLASH, LOWER_U, ZERO, ZERO, HexChar(b / 16), HexChar(b % 16)]
    else [BACKSLASH, EscapeLetter(b)]
  }

  function Escaped(s: seq<Byte>): seq<Byte> {
    if s == [] then [] else EscapeByte(s[0]) + Escaped(s[1..])
  }

  /** The literal for `s` with a UTF-8 target: any bytes, well-formed or not. */
  function StringText(s: seq<Byte>): seq<Byte> {
    [QUOTE] + Escaped(s) + [QUOTE]
  }

  function Hex4Text(v: nat): (t: seq<Byte>)
    requires v < 0x10000
    ensures |t| == 4
  {
    var q1 := v / 16;
    var q2 := q1 / 16;
    var q3 := q2 / 16;
    [HexChar(q3), HexChar(q2 % 16), HexChar(q1 % 16), HexChar(v % 16)]
  }

  /** The `\u` escape of a code point: one, or a surrogate pair. */
  function UnicodeEscape(cp: Utf8.Scalar): (t: seq<Byte>)
    ensures 6 <= |t| <= 12
  {
    if cp < 0x10000 then [BACKSLASH, LOWER_U] + Hex4Text(cp)
    else
      var s := cp - 0x10000;
      [BACKSLASH, LOWER_U] + Hex4Text(s / 0x400 + 0xD800) + [BACKSLASH, LOWER_U] + Hex4Text(s % 0x400 + 0xDC00)
  }

  /** What is written for `s` from `pos` on with an ASCII target; None once decoding fails. */
  function AsciiEscaped(s: seq<Byte>, pos: nat): Option<seq<Byte>>
    decreases |s| - pos
  {
    if pos >= |s| then Some([])
    else if s[pos] < 0x80 then Prepend(EscapeByte(s[pos]), AsciiEscaped(s, pos + 1))
    else
      var d := Utf8.DecodeAt(s, pos);
      if !d.ok then None
      else
        Utf8.DecodeThenEncode(s, pos);
        Prepend(UnicodeEscape(d.cp), AsciiEscaped(s, pos + d.len))
  }

  function Prepend(head: seq<Byte>, tail: Option<seq<Byte>>): Option<seq<Byte>> {
    match tail
    case None => None
    case Some(t) => Some(head + t)
  }

  // ---- Reading back ----

  lemma OccursAt(part: seq<Byte>, s: seq<Byte>, pos: nat)
    requires Occurs(part, s, pos)
    ensures forall i :: 0 <= i < |part| ==> At(s, pos + i) == part[i]
    ensures part != [] ==> At(s, pos) == part[0]
  {
    forall i | 0 <= i < |part|
      ensures At(s, pos + i) == part[i]
    {
      assert s[pos..pos + |part|][i] == part[i];
    }
  }

  /** The byte at offset `i` of an occurrence. */
  lemma ByteAt(part: seq<Byte>, s: seq<Byte>, pos: nat, i: nat)
    requires Occurs(part, s, pos) && i < |part|
    ensures At(s, pos + i) == part[i]
  {
    assert s[pos..pos + |part|][i] == s[pos + i];
  }

  lemma OccursSplit(a: seq<Byte>, b: seq<Byte>, s: seq<Byte>, pos: nat)
    requires Occurs(a + b, s, pos)
    ensures Occurs(a, s, pos) && Occurs(b, s, pos + |a|)
  {
    assert s[pos..pos + |a|] == (a + b)[..|a|];
    assert s[pos + |a|..pos + |a| + |b|] == (a + b)[|a|..];
  }

  lemma EscapedHex(b: Byte)
    requires EscapeLetter(b) == LOWER_U
    ensures HexDigit(ZERO) == Some(0) && b < 0x20
  {
  }

  /** A control character written as `\u00XY`. */
  lemma ScanControl(src: seq<Byte>, pos: nat, b: Byte)
    requires EscapeLetter(b) == LOWER_U && Occurs(EscapeByte(b), src, pos)
    ensures ScanEscape(src, pos) == Scanned(pos + 6, [b])
  {
    hide HexDigit, HexChar, EscapeLetter;
    var t := EscapeByte(b);
    ByteAt(t, src, pos, 1);
    ByteAt(t, src, pos, 2);
    ByteAt(t, src, pos, 3);
    ByteAt(t, src, pos, 4);
    ByteAt(t, src, pos, 5);
    EscapedHex(b);
    assert Hex4(src, pos + 2) == Some(b);
    assert Utf8.Encode(b) == [b];
  }

  /** Any other character with an escape. */
  lemma ScanLetter(src: seq<Byte>, pos: nat, b: Byte)
    requires EscapeLetter(b) != 0 && EscapeLetter(b) != LOWER_U && Occurs(EscapeByte(b), src, pos)
    ensures ScanEscape(src, pos) == Scanned(pos + 2, [b])
  {
    hide HexDigit, HexChar, Hex4;
    ByteAt(EscapeByte(b), src, pos, 1);
  }

  /** The reader turns the escape of one byte back into that byte. */
  lemma ScanEscapedByte(src: seq<Byte>, pos: nat, b: Byte, acc: seq<Byte>)
    requires Occurs(EscapeByte(b), src, pos)
    ensures ScanString(src, pos, acc) == ScanString(src, pos + |EscapeByte(b)|, acc + [b])
  {
    hide ScanEscape, HexChar;
    ByteAt(EscapeByte(b), src, pos, 0);
    if EscapeLetter(b) == LOWER_U {
      ScanControl(src, pos, b);
    } else if EscapeLetter(b) != 0 {
      ScanLetter(src, pos, b);
    }
  }

  lemma ScanEnd(src: seq<Byte>, pos: nat, acc: seq<Byte>)
    requires Occurs([QUOTE], src, pos)
    ensures ScanString(src, pos, acc) == Scanned(pos + 1, acc)
  {
    ByteAt([QUOTE], src, pos, 0);
  }

  lemma {:induction false} ScanEscaped(src: seq<Byte>, pos: nat, s: seq<Byte>, acc: seq<Byte>)
    requires Occurs(Escaped(s) + [QUOTE], src, pos)
    ensures ScanString(src, pos, acc) == Scanned(pos + |Escaped(s)| + 1, acc + s)
    decreases |s|
  {
    hide ScanString, EscapeByte, Occurs;
    if s == [] {
      assert Escaped(s) + [QUOTE] == [QUOTE];
      ScanEnd(src, pos, acc);
      assert acc + s == acc;
    } else {
      var first, rest := EscapeByte(s[0]), Escaped(s[1..]);
      assert Escaped(s) + [QUOTE] == first + (rest + [QUOTE]);
      OccursSplit(first, rest + [QUOTE], src, pos);
      ScanEscapedByte(src, pos, s[0], acc);
      ScanEscaped(src, pos + |first|, s[1..], acc + [s[0]]);
      assert acc + [s[0]] + s[1..] == acc + s;
    }
  }

  /** Every byte string survives: parsing the literal written for it, anywhere in a text, gives
      it back and stops behind the closing quote. */
  lemma StringRoundTrip(c: Config, pos: nat, ev: seq<Event>, s: seq<Byte>, isKey: bool)
    requires Occurs(StringText(s), c.src, pos)
    ensures var end := pos + |StringText(s)|;
            ParseString(c, pos, ev, isKey) == Emit(c, ev, if isKey then Key(s) else String(s), end, end)
  {
    hide ScanString, Escaped;
    var text := StringText(s);
    assert text == [QUOTE] + (Escaped(s) + [QUOTE]);
    OccursSplit([QUOTE], Escaped(s) + [QUOTE], c.src, pos);
    ScanEscaped(c.src, pos + 1, s, []);
    assert [] + s == s;
  }

  /** The writer's reservation of 2 + 6n units is enough. */
  lemma {:induction false} EscapedFits(s: seq<Byte>)
    ensures |s| <= |Escaped(s)| <= 6 * |s|
  {
    if s != [] {
      EscapedFits(s[1..]);
    }
  }

  // ---- The ASCII target ----

  lemma Hex4RoundTrip(src: seq<Byte>, pos: nat, v: nat)
    requires v < 0x10000 && Occurs(Hex4Text(v), src, pos)
    ensures Hex4(src, pos) == Some(v)
  {
    hide HexChar, HexDigit;
    ByteAt(Hex4Text(v), src, pos, 0);
    ByteAt(Hex4Text(v), src, pos, 1);
    ByteAt(Hex4Text(v), src, pos, 2);
    ByteAt(Hex4Text(v), src, pos, 3);
  }

  lemma ScanSurrogatePair(src: seq<Byte>, pos: nat, cp: Utf8.Scalar)
    requires cp >= 0x10000 && Occurs(UnicodeEscape(cp), src, pos)
    ensures ScanEscape(src, pos) == Scanned(pos + 12, Utf8.Encode(cp))
  {
    hide Hex4, Hex4Text, Utf8.Encode, Occurs;
    var s := cp - 0x10000;
    var high, low := Hex4Text(s / 0x400 + 0xD800), Hex4Text(s % 0x400 + 0xDC00);
    var head := [BACKSLASH, LOWER_U];
    assert UnicodeEscape(cp) == head + (high + (head + low));
    OccursSplit(head, high + (head + low), src, pos);
    OccursSplit(high, head + low, src, pos + 2);
    OccursSplit(head, low, src, pos + 6);
    Hex4RoundTrip(src, pos + 2, s / 0x400 + 0xD800);
    Hex4RoundTrip(src, pos + 8, s % 0x400 + 0xDC00);
    ByteAt(head, src, pos, 1);
    ByteAt(head, src, pos + 6, 0);
    ByteAt(head, src, pos + 6, 1);
  }

  /** The reader turns a `\u` escape, or a surrogate pair, into the UTF-8 of the code point. */
  lemma ScanUnicodeEscape(src: seq<Byte>, pos: nat, cp: Utf8.Scalar, acc: seq<Byte>)
    requires Occurs(UnicodeEscape(cp), src, pos)
    ensures ScanString(src, pos, acc) == ScanString(src, pos + |UnicodeEscape(cp)|, acc + Utf8.Encode(cp))
  {
    hide Hex4, Hex4Text, Utf8.Encode;
    ByteAt(UnicodeEscape(cp), src, pos, 0);
    ByteAt(UnicodeEscape(cp), src, pos, 1);
    if cp < 0x10000 {
      OccursSplit([BACKSLASH, LOWER_U], Hex4Text(cp), src, pos);
      Hex4RoundTrip(src, pos + 2, cp);
    } else {
      ScanSurrogatePair(src, pos, cp);
    }
  }

  lemma {:induction false} ScanAsciiEscaped(src: seq<Byte>, pos: nat, s: seq<Byte>, k: nat, acc: seq<Byte>)
    requires k <= |s| && AsciiEscaped(s, k).Some?
    requires Occurs(AsciiEscaped(s, k).value + [QUOTE], src, pos)
    ensures ScanString(src, pos, acc) == Scanned(pos + |AsciiEscaped(s, k).value| + 1, acc + s[k..])
    decreases |s| - k
  {
    hide ScanString, EscapeByte, UnicodeEscape, Occurs, Utf8.DecodeAt, Utf8.Encode;
    var t := AsciiEscaped(s, k).value;
    if k == |s| {
      assert t + [QUOTE] == [QUOTE];
      ScanEnd(src, pos, acc);
      assert acc + s[k..] == acc;
    } else if s[k] < 0x80 {
      var first, rest := EscapeByte(s[k]), AsciiEscaped(s, k + 1).value;
      assert t + [QUOTE] == first + (rest + [QUOTE]);
      OccursSplit(first, rest + [QUOTE], src, pos);
      ScanEscapedByte(src, pos, s[k], acc);
      ScanAsciiEscaped(src, pos + |first|, s, k + 1, acc + [s[k]]);
      assert acc + [s[k]] + s[k + 1..] == acc + s[k..];
    } else {
      var d := Utf8.DecodeAt(s, k);
      Utf8.DecodeThenEncode(s, k);
      var first, rest := UnicodeEscape(d.cp), AsciiEscaped(s, k + d.len).value;
      assert t + [QUOTE] == first + (rest + [QUOTE]);
      OccursSplit(first, rest + [QUOTE], src, pos);
      ScanUnicodeEscape(src, pos, d.cp, acc);
      ScanAsciiEscaped(src, pos + |first|, s, k + d.len, acc + s[k..k + d.len]);
      assert acc + s[k..k + d.len] + s[k + d.len..] == acc + s[k..];
    }
  }

  predicate IsAscii(t: seq<Byte>) {
    forall i :: 0 <= i < |t| ==> t[i] < 0x80
  }

  lemma EscapesAreAscii(b: Byte, cp: Utf8.Scalar)
    ensures b < 0x80 ==> IsAscii(EscapeByte(b))
    ensures IsAscii(UnicodeEscape(cp))
  {
    hide HexChar;
  }

  /** The ASCII target accepts exactly the well-formed texts, writes ASCII only and needs no more
      than the 12 units a byte it reserves. */
  lemma {:induction false} AsciiAcceptsWellFormed(s: seq<Byte>, k: nat)
    requires k <= |s|
    ensures AsciiEscaped(s, k).Some? <==> Utf8.IsWellFormed(s[k..])
    ensures AsciiEscaped(s, k).Some? ==>
              var t := AsciiEscaped(s, k).value;
              IsAscii(t) && |t| <= 12 * (|s| - k)
    decreases |s| - k
  {
    hide EscapeByte, UnicodeEscape, Utf8.DecodeAt, Utf8.Encode, Utf8.IsWellFormed;
    if k == |s| {
      assert s[k..] == [];
      EmptyIsWellFormed();
    } else {
      DecodeSuffix(s, k);
      Utf8.WellFormedStep(s[k..]);
      var d := Utf8.DecodeAt(s, k);
      if s[k] < 0x80 {
        EscapesAreAscii(s[k], 0);
        assert s[k..][1..] == s[k + 1..];
        AsciiAcceptsWellFormed(s, k + 1);
      } else if d.ok {
        Utf8.DecodeThenEncode(s, k);
        EscapesAreAscii(0, d.cp);
        assert s[k..][d.len..] == s[k + d.len..];
        AsciiAcceptsWellFormed(s, k + d.len);
      }
    }
  }

  lemma EmptyIsWellFormed()
    ensures Utf8.IsWellFormed([])
  {
  }

  lemma DecodeSuffix(s: seq<Byte>, k: nat)
    requires k < |s|
    ensures Utf8.DecodeAt(s[k..], 0) == Utf8.DecodeAt(s, k)
    ensures s[k] < 0x80 ==> Utf8.DecodeAt(s, k) == Utf8.Decoded(true, s[k], 1)
  {
    assert forall i: nat :: At(s[k..], i) == At(s, k + i);
    assert At(s[k..], 0) == At(s, k);
  }

  /** With an ASCII target every well-formed text survives. */
  lemma AsciiRoundTrip(c: Config, pos: nat, ev: seq<Event>, s: seq<Byte>)
    requires Utf8.IsWellFormed(s)
    ensures AsciiEscaped(s, 0).Some?
    ensures var text := [QUOTE] + AsciiEscaped(s, 0).value + [QUOTE];
            && |text| <= 2 + 12 * |s|
            && (Occurs(text, c.src, pos) ==>
                  ParseString(c, pos, ev, false) == Emit(c, ev, String(s), pos + |text|, pos + |text|))
  {
    hide ScanString, AsciiEscaped, Utf8.IsWellFormed;
    assert s[0..] == s;
    AsciiAcceptsWellFormed(s, 0);
    var t := AsciiEscaped(s, 0).value;
    assert [QUOTE] + t + [QUOTE] == [QUOTE] + (t + [QUOTE]);
    if Occurs([QUOTE] + t + [QUOTE], c.src, pos) {
      OccursSplit([QUOTE], t + [QUOTE], c.src, pos);
      ScanAsciiEscaped(c.src, pos + 1, s, 0, []);
      assert [] + s == s;
    }
  }
}
