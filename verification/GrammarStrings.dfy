/**
 The reader's strings are the strings of the grammar: every string literal is
 scanned to its closing quote with the bytes it means, and nothing else is scanned.
 */
module GrammarStrings {
  import opened Bytes
  import opened Json
  import opened Lexer
  import Utf8
  import G = Grammar
  import L = StringLiterals

  // ---- Escapes ----

  lemma HexDigitsAgree(b: Byte)
    ensures HexDigit(b) == if G.IsHex(b) then Some(G.HexDigitValue(b)) else None
  {
  }

  /** The four bytes at `pos`. */
  function FourAt(s: seq<Byte>, pos: nat): seq<Byte> {
    [At(s, pos), At(s, pos + 1), At(s, pos + 2), At(s, pos + 3)]
  }

  lemma Hex4Agrees(s: seq<Byte>, pos: nat)
    ensures var h := FourAt(s, pos);
            Hex4(s, pos) == if G.AreHex(h) then Some(G.HexValue(h)) else None
  {
    hide HexDigit, G.IsHex, G.HexDigitValue;
    HexDigitsAgree(At(s, pos));
    HexDigitsAgree(At(s, pos + 1));
    HexDigitsAgree(At(s, pos + 2));
    HexDigitsAgree(At(s, pos + 3));
  }

  lemma Hex4Read(h: seq<Byte>, s: seq<Byte>, pos: nat)
    requires G.AreHex(h) && Occurs(h, s, pos)
    ensures Hex4(s, pos) == Some(G.HexValue(h))
  {
    hide Hex4, G.HexValue, G.IsHex;
    L.ByteAt(h, s, pos, 0);
    L.ByteAt(h, s, pos, 1);
    L.ByteAt(h, s, pos, 2);
    L.ByteAt(h, s, pos, 3);
    assert h == [h[0], h[1], h[2], h[3]];
    Hex4Agrees(s, pos);
  }

  lemma ShortEscapesAgree(letter: Byte)
    ensures Unescape(letter) == if G.ShortEscape(letter).Some? then G.ShortEscape(letter).value else 0
    ensures G.ShortEscape(letter).Some? ==> G.ShortEscape(letter).value != 0
  {
  }

  lemma UnicodeRead(h: seq<Byte>, s: seq<Byte>, pos: nat)
    requires G.IsChar(G.Unicode(h)) && Occurs(G.CharText(G.Unicode(h)), s, pos)
    ensures ScanEscape(s, pos) == Scanned(pos + 6, G.CharMeaning(G.Unicode(h)))
  {
    hide Hex4, G.HexValue, G.IsHex, Occurs, Utf8.Encode;
    L.OccursSplit([0x5C, 0x75], h, s, pos);
    L.ByteAt([0x5C, 0x75], s, pos, 1);
    Hex4Read(h, s, pos + 2);
  }

  lemma SurrogatesRead(high: seq<Byte>, low: seq<Byte>, s: seq<Byte>, pos: nat)
    requires G.IsChar(G.Surrogates(high, low)) && Occurs(G.CharText(G.Surrogates(high, low)), s, pos)
    ensures ScanEscape(s, pos) == Scanned(pos + 12, G.CharMeaning(G.Surrogates(high, low)))
  {
    hide Hex4, G.HexValue, G.IsHex, Occurs, Utf8.Encode;
    var u: seq<Byte> := [0x5C, 0x75];
    L.OccursSplit(u + high + u, low, s, pos);
    L.OccursSplit(u + high, u, s, pos);
    L.OccursSplit(u, high, s, pos);
    L.ByteAt(u, s, pos, 1);
    L.ByteAt(u, s, pos + 6, 0);
    L.ByteAt(u, s, pos + 6, 1);
    Hex4Read(high, s, pos + 2);
    Hex4Read(low, s, pos + 8);
  }

  /** One char of the grammar, read in place. */
  lemma CharRead(c: G.Char, s: seq<Byte>, pos: nat, acc: seq<Byte>)
    requires G.IsChar(c) && Occurs(G.CharText(c), s, pos)
    ensures ScanString(s, pos, acc) == ScanString(s, pos + |G.CharText(c)|, acc + G.CharMeaning(c))
  {
    hide ScanEscape, G.HexValue, G.IsHex, Occurs, Utf8.Encode;
    L.ByteAt(G.CharText(c), s, pos, 0);
    match c
    case Plain(b) =>
    case Short(letter) =>
      L.ByteAt(G.CharText(c), s, pos, 1);
      ShortRead(letter, s, pos);
    case Unicode(h) => UnicodeRead(h, s, pos);
    case Surrogates(high, low) => SurrogatesRead(high, low, s, pos);
  }

  lemma ShortRead(letter: Byte, s: seq<Byte>, pos: nat)
    requires G.IsChar(G.Short(letter)) && At(s, pos + 1) == letter
    ensures ScanEscape(s, pos) == Scanned(pos + 2, G.CharMeaning(G.Short(letter)))
  {
    hide Unescape, G.ShortEscape, Hex4;
    ShortEscapesAgree(letter);
  }

  lemma {:induction false} CharsRead(cs: seq<G.Char>, s: seq<Byte>, pos: nat, acc: seq<Byte>)
    requires G.AreChars(cs) && Occurs(G.CharsText(cs) + [0x22], s, pos)
    ensures ScanString(s, pos, acc) == Scanned(pos + |G.CharsText(cs)| + 1, acc + G.CharsMeaning(cs))
    decreases |cs|
  {
    hide ScanString, G.CharText, G.CharMeaning, G.IsChar, Occurs;
    if cs == [] {
      assert G.CharsText(cs) + [0x22] == [0x22] && acc + G.CharsMeaning(cs) == acc;
      L.ScanEnd(s, pos, acc);
    } else {
      var first, rest := G.CharText(cs[0]), G.CharsText(cs[1..]);
      assert G.CharsText(cs) + [0x22] == first + (rest + [0x22]);
      L.OccursSplit(first, rest + [0x22], s, pos);
      CharRead(cs[0], s, pos, acc);
      CharsRead(cs[1..], s, pos + |first|, acc + G.CharMeaning(cs[0]));
      assert acc + G.CharMeaning(cs[0]) + G.CharsMeaning(cs[1..]) == acc + G.CharsMeaning(cs);
    }
  }

  /** A string literal is read to its closing quote, as the bytes it means. */
  lemma StringRead(cs: seq<G.Char>, s: seq<Byte>, pos: nat)
    requires G.AreChars(cs) && Occurs(G.StringText(cs), s, pos)
    ensures ScanString(s, pos + 1, []) == Scanned(pos + |G.StringText(cs)|, G.CharsMeaning(cs))
  {
    hide ScanString, G.CharsText, G.CharsMeaning, G.AreChars, Occurs;
    assert G.StringText(cs) == [0x22] + (G.CharsText(cs) + [0x22]);
    L.OccursSplit([0x22], G.CharsText(cs) + [0x22], s, pos);
    CharsRead(cs, s, pos + 1, []);
    assert [] + G.CharsMeaning(cs) == G.CharsMeaning(cs);
  }

  // ---- What was read is a string ----

  lemma ScannedShort(s: seq<Byte>, pos: nat)
    requires At(s, pos) == BACKSLASH && Unescape(At(s, pos + 1)) != 0
    ensures var c := G.Short(At(s, pos + 1)); G.IsChar(c) && Occurs(G.CharText(c), s, pos)
  {
    ShortEscapesAgree(At(s, pos + 1));
    NotNul(s, pos + 1);
    assert s[pos..pos + 2] == [0x5C, s[pos + 1]];
  }

  lemma UnicodeOccurs(s: seq<Byte>, pos: nat)
    requires At(s, pos) == BACKSLASH && At(s, pos + 1) == LOWER_U && Hex4(s, pos + 2).Some?
    ensures var h := FourAt(s, pos + 2);
            G.AreHex(h) && Hex4(s, pos + 2).value == G.HexValue(h) && Occurs([0x5C, 0x75] + h, s, pos)
  {
    hide Hex4, G.HexValue;
    Hex4Agrees(s, pos + 2);
    HexInside(FourAt(s, pos + 2), s, pos + 2);
    assert s[pos..pos + 6] == [0x5C, 0x75] + FourAt(s, pos + 2);
  }

  lemma SurrogatesOccur(s: seq<Byte>, pos: nat, high: seq<Byte>, low: seq<Byte>)
    requires |high| == 4 && Occurs([0x5C, 0x75] + high, s, pos) && Occurs([0x5C, 0x75] + low, s, pos + 6)
    ensures Occurs(G.CharText(G.Surrogates(high, low)), s, pos)
  {
    var a, b := [0x5C, 0x75] + high, [0x5C, 0x75] + low;
    assert s[pos..pos + 6 + |b|] == s[pos..pos + 6] + s[pos + 6..pos + 6 + |b|];
    assert a + b == a + [0x5C, 0x75] + low;
  }

  /** A scanned escape is an escape of the grammar. */
  lemma ScannedEscape(s: seq<Byte>, pos: nat) returns (c: G.Char)
    requires At(s, pos) == BACKSLASH && ScanEscape(s, pos).Scanned?
    ensures G.IsChar(c) && Occurs(G.CharText(c), s, pos)
  {
    hide Hex4, Unescape, G.ShortEscape, G.HexValue, G.AreHex, Utf8.Encode, Occurs, FourAt;
    if Unescape(At(s, pos + 1)) != 0 {
      ScannedShort(s, pos);
      c := G.Short(At(s, pos + 1));
    } else {
      var high := FourAt(s, pos + 2);
      UnicodeOccurs(s, pos);
      if 0xD800 <= G.HexValue(high) <= 0xDFFF {
        var low := FourAt(s, pos + 8);
        UnicodeOccurs(s, pos + 6);
        FourBytes(s, pos + 2);
        SurrogatesOccur(s, pos, high, low);
        c := G.Surrogates(high, low);
      } else {
        c := G.Unicode(high);
      }
    }
  }

  lemma FourBytes(s: seq<Byte>, pos: nat)
    ensures |FourAt(s, pos)| == 4
  {
  }

  lemma NotNul(s: seq<Byte>, pos: nat)
    requires At(s, pos) != NUL
    ensures pos < |s|
  {
  }

  lemma HexInside(h: seq<Byte>, s: seq<Byte>, pos: nat)
    requires G.AreHex(h) && h == FourAt(s, pos)
    ensures pos + 4 <= |s|
  {
    assert G.IsHex(At(s, pos + 3));
  }

  lemma {:induction false} ScannedChars(s: seq<Byte>, pos: nat, acc: seq<Byte>) returns (cs: seq<G.Char>)
    requires ScanString(s, pos, acc).Scanned?
    ensures G.AreChars(cs) && Occurs(G.CharsText(cs) + [0x22], s, pos)
    ensures ScanString(s, pos, acc) == Scanned(pos + |G.CharsText(cs)| + 1, acc + G.CharsMeaning(cs))
    decreases |s| - pos
  {
    hide ScanEscape, G.CharText, G.CharMeaning, G.IsChar, Occurs;
    var b := At(s, pos);
    if b == QUOTE {
      cs := [];
      NotNul(s, pos);
      QuoteOccurs(s, pos);
      assert G.CharsText(cs) + [0x22] == [0x22] && acc + G.CharsMeaning(cs) == acc;
    } else {
      var first := G.Plain(b);
      if b == BACKSLASH {
        first := ScannedEscape(s, pos);
      } else {
        PlainScanned(s, pos);
      }
      CharRead(first, s, pos, acc);
      var end := pos + |G.CharText(first)|;
      CharAdvances(first);
      var rest := ScannedChars(s, end, acc + G.CharMeaning(first));
      cs := [first] + rest;
      Cons(first, rest, acc);
      CharsJoin(first, rest, s, pos);
    }
  }

  lemma CharAdvances(c: G.Char)
    ensures |G.CharText(c)| > 0
  {
  }

  lemma QuoteOccurs(s: seq<Byte>, pos: nat)
    requires pos < |s| && s[pos] == 0x22
    ensures Occurs([0x22], s, pos)
  {
  }

  lemma PlainScanned(s: seq<Byte>, pos: nat)
    requires var b := At(s, pos); b >= 0x20 && b != QUOTE && b != BACKSLASH
    ensures G.IsChar(G.Plain(At(s, pos))) && Occurs(G.CharText(G.Plain(At(s, pos))), s, pos)
  {
  }

  lemma Cons(first: G.Char, rest: seq<G.Char>, acc: seq<Byte>)
    requires G.IsChar(first) && G.AreChars(rest)
    ensures var cs := [first] + rest;
            && G.AreChars(cs) && G.CharsText(cs) == G.CharText(first) + G.CharsText(rest)
            && acc + G.CharsMeaning(cs) == acc + G.CharMeaning(first) + G.CharsMeaning(rest)
  {
    hide G.CharText, G.CharMeaning, G.IsChar;
    assert ([first] + rest)[1..] == rest;
  }

  lemma CharsJoin(first: G.Char, rest: seq<G.Char>, s: seq<Byte>, pos: nat)
    requires Occurs(G.CharText(first), s, pos) && Occurs(G.CharsText(rest) + [0x22], s, pos + |G.CharText(first)|)
    ensures Occurs(G.CharText(first) + G.CharsText(rest) + [0x22], s, pos)
  {
    hide G.CharText, G.CharsText;
    var a, b := G.CharText(first), G.CharsText(rest) + [0x22];
    assert s[pos..pos + |a| + |b|] == s[pos..pos + |a|] + s[pos + |a|..pos + |a| + |b|];
    assert a + b == a + G.CharsText(rest) + [0x22];
  }

  /** Whatever is read as a string is a string literal, read as the bytes it means. */
  lemma ScannedString(s: seq<Byte>, pos: nat) returns (cs: seq<G.Char>)
    requires At(s, pos) == QUOTE && ScanString(s, pos + 1, []).Scanned?
    ensures G.AreChars(cs) && Occurs(G.StringText(cs), s, pos)
    ensures ScanString(s, pos + 1, []) == Scanned(pos + |G.StringText(cs)|, G.CharsMeaning(cs))
  {
    hide ScanString, G.CharsText, G.CharsMeaning, G.AreChars;
    cs := ScannedChars(s, pos + 1, []);
    assert [] + G.CharsMeaning(cs) == G.CharsMeaning(cs);
    var tail := G.CharsText(cs) + [0x22];
    NotNul(s, pos);
    assert s[pos..pos + 1 + |tail|] == [s[pos]] + s[pos + 1..pos + 1 + |tail|];
    assert G.StringText(cs) == [0x22] + tail;
  }
}
