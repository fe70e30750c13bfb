/**
 What an error of the reader says: its code names what is wrong with the byte at its
 offset, or with the escape or the number that begins there.
 */
module ParseErrors {
  import opened Bytes
  import opened Json
  import opened Lexer
  import opened Descent
  import E = ParserEquivalence
  import G = Grammar
  import P = Pushdown
  import ReadBack
  import S = GrammarStrings

  /** The byte before `o`, past white space, ends a value. */
  predicate BehindValue(s: seq<Byte>, o: nat) {
    var b := E.ByteBefore(s, o);
    b == 0x22 || b == 0x5D || b == 0x7D || 0x30 <= b <= 0x39 || b == 0x65 || b == 0x6C
  }

  predicate NoDigitAt(s: seq<Byte>, o: nat) {
    !(0x30 <= At(s, o) <= 0x39)
  }

  /** A literal begins before `o` and breaks off there. */
  predicate BreaksOff(s: seq<Byte>, o: nat, literal: seq<Byte>) {
    exists n :: 0 < n < |literal| && n <= o && At(s, o) != literal[n] && forall i :: 0 <= i < n ==> At(s, o - n + i) == literal[i]
  }

  predicate EscapeAt(s: seq<Byte>, o: nat) {
    At(s, o) == 0x5C && At(s, o + 1) == 0x75
  }

  /** \u at `o` begins a surrogate. */
  predicate SurrogateAt(s: seq<Byte>, o: nat) {
    EscapeAt(s, o) && G.AreHex(S.FourAt(s, o + 2)) && 0xD800 <= G.HexValue(S.FourAt(s, o + 2)) <= 0xDFFF
  }

  /** \u at `o` begins a surrogate that a \u can follow. */
  predicate HighSurrogateAt(s: seq<Byte>, o: nat) {
    SurrogateAt(s, o) && G.HexValue(S.FourAt(s, o + 2)) <= 0xDBFF && EscapeAt(s, o + 6)
  }

  ghost predicate Explains(s: seq<Byte>, error: ParseError, o: nat) {
    match error
    case DocumentEmpty => At(s, o) == NUL && forall k :: 0 <= k < o ==> G.IsWs(At(s, k))
    case DocumentRootNotSingular => At(s, o) != NUL && BehindValue(s, o)
    case ObjectMissName => At(s, o) != 0x22 && (E.ByteBefore(s, o) == 0x7B || E.ByteBefore(s, o) == 0x2C)
    case ObjectMissColon => At(s, o) != 0x3A && E.ByteBefore(s, o) == 0x22
    case ObjectMissCommaOrCurlyBracket => At(s, o) != 0x2C && At(s, o) != 0x7D && BehindValue(s, o)
    case ArrayMissCommaOrSquareBracket => At(s, o) != 0x2C && At(s, o) != 0x5D && BehindValue(s, o)
    case StringMissQuotationMark => At(s, o) == NUL
    case StringInvalidEncoding => 0 < At(s, o) < 0x20
    case StringEscapeInvalid => At(s, o) == 0x5C && G.ShortEscape(At(s, o + 1)).None? && At(s, o + 1) != 0x75
    case StringUnicodeEscapeInvalidHex =>
      EscapeAt(s, o) && (!G.AreHex(S.FourAt(s, o + 2)) || (HighSurrogateAt(s, o) && !G.AreHex(S.FourAt(s, o + 8))))
    case StringUnicodeSurrogateInvalid =>
      && SurrogateAt(s, o)
      && (HighSurrogateAt(s, o) ==> G.AreHex(S.FourAt(s, o + 8)) && !(0xDC00 <= G.HexValue(S.FourAt(s, o + 8)) <= 0xDFFF))
    case NumberTooBig => At(s, o) == 0x2D || !NoDigitAt(s, o)
    case NumberMissFraction => o > 0 && At(s, o - 1) == 0x2E && NoDigitAt(s, o)
    case NumberMissExponent =>
      o > 0 && NoDigitAt(s, o) && var b := At(s, o - 1); b == 0x65 || b == 0x45 || b == 0x2B || b == 0x2D
    case ValueInvalid =>
      || BreaksOff(s, o, [0x6E, 0x75, 0x6C, 0x6C]) || BreaksOff(s, o, [0x74, 0x72, 0x75, 0x65])
      || BreaksOff(s, o, [0x66, 0x61, 0x6C, 0x73, 0x65]) || NoDigitAt(s, o)
    case Termination => false
  }

  ghost predicate Explained(s: seq<Byte>, r: Outcome) {
    r.Fail? ==> Explains(s, r.error, r.offset)
  }

  // ---- White space ----

  lemma BeforeBlanks(s: seq<Byte>, pos: nat)
    requires pos > 0 && !IsBlank(At(s, pos - 1))
    ensures E.ByteBefore(s, SkipBlanks(s, pos)) == At(s, pos - 1)
  {
    E.BlanksBefore(s, pos);
  }

  lemma BehindEnd(s: seq<Byte>, pos: nat)
    requires pos > 0 && E.EndsValue(At(s, pos - 1))
    ensures BehindValue(s, SkipBlanks(s, pos))
  {
    BeforeBlanks(s, pos);
  }

  lemma {:induction false} SkippedAreWs(s: seq<Byte>, pos: nat, k: nat)
    requires pos <= k < SkipBlanks(s, pos)
    ensures G.IsWs(At(s, k))
    decreases |s| - pos
  {
    if pos < k {
      SkippedAreWs(s, pos + 1, k);
    }
  }

  // ---- Scalars ----

  lemma EscapeExplained(s: seq<Byte>, pos: nat)
    requires At(s, pos) == BACKSLASH && ScanEscape(s, pos).Rejected?
    ensures Explains(s, ScanEscape(s, pos).error, ScanEscape(s, pos).offset)
  {
    hide Hex4, Unescape, G.ShortEscape, G.AreHex, G.HexValue, E.ByteBefore, S.FourAt, BreaksOff;
    S.ShortEscapesAgree(At(s, pos + 1));
    S.Hex4Agrees(s, pos + 2);
    S.Hex4Agrees(s, pos + 8);
  }

  lemma {:induction false} StringExplained(s: seq<Byte>, pos: nat, acc: seq<Byte>)
    ensures var r := ScanString(s, pos, acc); r.Rejected? ==> Explains(s, r.error, r.offset)
    decreases |s| - pos
  {
    hide ScanEscape, Explains;
    var b := At(s, pos);
    if b == BACKSLASH {
      var r := ScanEscape(s, pos);
      if r.Scanned? {
        StringExplained(s, r.next, acc + r.bytes);
      } else {
        EscapeExplained(s, pos);
      }
    } else if b == NUL || b < 0x20 {
      PlainExplained(s, pos);
    } else if b != QUOTE {
      StringExplained(s, pos + 1, acc + [b]);
    }
  }

  lemma PlainExplained(s: seq<Byte>, pos: nat)
    requires At(s, pos) < 0x20
    ensures Explains(s, if At(s, pos) == NUL then StringMissQuotationMark else StringInvalidEncoding, pos)
  {
  }

  lemma ExponentExplained(c: Config, pos: nat, markPos: nat, folded: nat)
    requires pos < markPos && IsExponentMark(At(c.src, markPos)) && (At(c.src, pos) == MINUS || IsDigit(At(c.src, pos)))
    ensures var r := ScanExponent(c, pos, markPos + 1, folded); r.NotNumber? ==> Explains(c.src, r.error, r.offset)
  {
    hide SkipDigits, NatAt, E.ByteBefore, BreaksOff;
  }

  lemma FractionExplained(c: Config, pos: nat, minus: bool, start: nat, end: nat)
    requires pos <= start < end <= |c.src| && (At(c.src, pos) == MINUS || IsDigit(At(c.src, pos)))
    ensures var r := ScanFraction(c, pos, minus, start, end); r.NotNumber? ==> Explains(c.src, r.error, r.offset)
  {
    hide SkipDigits, NatAt, FoldedDigits, IntegerEvent, E.ByteBefore, BreaksOff, ScanExponent, IsExponentMark;
    var s, v := c.src, NatAt(c.src, start, end);
    var fraction := At(s, end) == DOT;
    var fracEnd := if fraction then SkipDigits(s, end + 1) else end;
    if IsExponentMark(At(s, fracEnd)) {
      ExponentExplained(c, pos, fracEnd, if fraction && IntegerEvent(minus, v).Some?
                                         then FoldedDigits(s, end + 1, v, end - start - 1) else 0);
    }
  }

  lemma NumberExplained(c: Config, pos: nat)
    ensures var r := ScanNumber(c, pos); r.NotNumber? ==> Explains(c.src, r.error, r.offset)
  {
    hide SkipDigits, ScanFraction, E.ByteBefore, BreaksOff;
    var s := c.src;
    var minus := At(s, pos) == MINUS;
    var start := if minus then pos + 1 else pos;
    if IsDigit(At(s, start)) {
      FractionExplained(c, pos, minus, start, if At(s, start) == ZERO then start + 1 else SkipDigits(s, start));
    }
  }

  lemma {:induction false} ConsumedMatches(s: seq<Byte>, pos: nat, literal: seq<Byte>)
    ensures var n := Consumed(s, pos, literal);
            && (forall i :: 0 <= i < n ==> At(s, pos + i) == literal[i])
            && (n < |literal| ==> At(s, pos + n) != literal[n])
    decreases |literal|
  {
    if literal != [] && At(s, pos) == literal[0] {
      ConsumedMatches(s, pos + 1, literal[1..]);
      var n := Consumed(s, pos, literal);
      forall i | 0 <= i < n
        ensures At(s, pos + i) == literal[i]
      {
        if i > 0 {
          assert At(s, pos + 1 + (i - 1)) == literal[1..][i - 1];
        }
      }
    }
  }

  lemma LiteralExplained(c: Config, pos: nat, ev: seq<Event>, literal: seq<Byte>, e: Event)
    requires ReadBack.Accepting(c) && |literal| > 1 && At(c.src, pos) == literal[0]
    ensures var r := ParseLiteral(c, pos, ev, literal, e);
            r.Fail? ==> r.error == ValueInvalid && BreaksOff(c.src, r.offset, literal)
  {
    var s, n := c.src, Consumed(c.src, pos, literal);
    ConsumedMatches(s, pos, literal);
    if n < |literal| {
      var o := pos + n;
      assert n > 0 && forall i :: 0 <= i < n ==> At(s, o - n + i) == literal[i];
    }
  }

  lemma ScalarExplained(c: Config, pos: nat, ev: seq<Event>)
    requires ReadBack.Accepting(c)
    ensures Explained(c.src, ParseScalar(c, pos, ev))
  {
    hide ScanNumber, ScanString, ParseLiteral, BreaksOff, E.ByteBefore;
    NumberExplained(c, pos);
    StringExplained(c.src, pos + 1, []);
    match At(c.src, pos)
    case 0x6E => LiteralExplained(c, pos, ev, NULL, Null);
    case 0x74 => LiteralExplained(c, pos, ev, TRUE, Bool(true));
    case 0x66 => LiteralExplained(c, pos, ev, FALSE, Bool(false));
    case _ =>
  }

  lemma NameExplained(c: Config, pos: nat, ev: seq<Event>)
    requires ReadBack.Accepting(c)
    ensures Explained(c.src, ParseString(c, pos, ev, true))
    ensures var r := ParseString(c, pos, ev, true); r.Ok? ==> At(c.src, r.pos - 1) == QUOTE
  {
    hide ScanString, Explains;
    StringExplained(c.src, pos + 1, []);
    E.StringEnds(c.src, pos + 1, []);
  }

  // ---- Values ----

  lemma {:induction false} ValueExplained(c: Config, pos: nat, ev: seq<Event>)
    requires ReadBack.Accepting(c)
    ensures Explained(c.src, ParseValue(c, pos, ev))
    decreases |c.src| - pos, 2
  {
    hide ReadBack.Accepting, ParseScalar, ParseArray, ParseObject, Explains;
    if At(c.src, pos) == LBRACE {
      ObjectExplained(c, pos, ev);
    } else if At(c.src, pos) == LBRACKET {
      ArrayExplained(c, pos, ev);
    } else {
      ScalarExplained(c, pos, ev);
    }
  }

  lemma {:induction false} ArrayExplained(c: Config, pos: nat, ev: seq<Event>)
    requires ReadBack.Accepting(c) && At(c.src, pos) == LBRACKET
    ensures Explained(c.src, ParseArray(c, pos, ev))
    decreases |c.src| - pos, 1
  {
    hide ParseElements, SkipBlanks, Explains;
    ElementsExplained(c, SkipBlanks(c.src, pos + 1), ev + [StartArray], 0);
  }

  lemma {:induction false} ElementsExplained(c: Config, pos: nat, ev: seq<Event>, n: nat)
    requires ReadBack.Accepting(c)
    ensures Explained(c.src, ParseElements(c, pos, ev, n))
    decreases |c.src| - pos, 3
  {
    hide ParseValue, SkipBlanks, Explains, E.EndsValue;
    ValueExplained(c, pos, ev);
    var s, r := c.src, ParseValue(c, pos, ev);
    if r.Ok? {
      var p := SkipBlanks(s, r.pos);
      E.ValueEnds(c, pos, ev);
      BehindEnd(s, r.pos);
      if At(s, p) == COMMA {
        ElementsExplained(c, SkipBlanks(s, p + 1), r.ev, n + 1);
      } else if At(s, p) != RBRACKET {
        NoSeparatorExplained(s, p);
      }
    }
  }

  lemma NoSeparatorExplained(s: seq<Byte>, p: nat)
    requires BehindValue(s, p) && At(s, p) != COMMA
    ensures At(s, p) != RBRACKET ==> Explains(s, ArrayMissCommaOrSquareBracket, p)
    ensures At(s, p) != RBRACE ==> Explains(s, ObjectMissCommaOrCurlyBracket, p)
  {
  }

  lemma {:induction false} ObjectExplained(c: Config, pos: nat, ev: seq<Event>)
    requires ReadBack.Accepting(c) && At(c.src, pos) == LBRACE
    ensures Explained(c.src, ParseObject(c, pos, ev))
    decreases |c.src| - pos, 1
  {
    hide ParseMembers, SkipBlanks, Explains, E.ByteBefore;
    BeforeBlanks(c.src, pos + 1);
    MembersExplained(c, SkipBlanks(c.src, pos + 1), ev + [StartObject], 0);
  }

  lemma NoNameExplained(s: seq<Byte>, p: nat)
    requires At(s, p) != QUOTE && (E.ByteBefore(s, p) == LBRACE || E.ByteBefore(s, p) == COMMA)
    ensures Explains(s, ObjectMissName, p)
  {
  }

  lemma NoColonExplained(s: seq<Byte>, p: nat)
    requires At(s, p) != COLON && E.ByteBefore(s, p) == QUOTE
    ensures Explains(s, ObjectMissColon, p)
  {
  }

  lemma {:induction false} MemberExplained(c: Config, pos: nat, ev: seq<Event>)
    requires ReadBack.Accepting(c) && (E.ByteBefore(c.src, pos) == LBRACE || E.ByteBefore(c.src, pos) == COMMA)
    ensures Explained(c.src, ParseMember(c, pos, ev))
    decreases |c.src| - pos, 3
  {
    hide ReadBack.Accepting, ParseValue, ParseString, SkipBlanks, Explains, E.ByteBefore;
    var s := c.src;
    if At(s, pos) != QUOTE {
      NoNameExplained(s, pos);
    } else {
      NameExplained(c, pos, ev);
      var r := ParseString(c, pos, ev, true);
      if r.Ok? {
        BeforeBlanks(s, r.pos);
        var p := SkipBlanks(s, r.pos);
        if At(s, p) != COLON {
          NoColonExplained(s, p);
        } else {
          ValueExplained(c, SkipBlanks(s, p + 1), r.ev);
        }
      }
    }
  }

  lemma {:induction false} MembersExplained(c: Config, pos: nat, ev: seq<Event>, n: nat)
    requires ReadBack.Accepting(c) && (E.ByteBefore(c.src, pos) == LBRACE || E.ByteBefore(c.src, pos) == COMMA)
    ensures Explained(c.src, ParseMembers(c, pos, ev, n))
    decreases |c.src| - pos, 4
  {
    hide ParseMember, SkipBlanks, Explains, E.EndsValue, E.ByteBefore;
    MemberExplained(c, pos, ev);
    var s, r := c.src, ParseMember(c, pos, ev);
    if r.Ok? {
      var p := SkipBlanks(s, r.pos);
      E.MemberEnds(c, pos, ev);
      BehindEnd(s, r.pos);
      if At(s, p) == COMMA {
        BeforeBlanks(s, p + 1);
        MembersExplained(c, SkipBlanks(s, p + 1), r.ev, n + 1);
      } else if At(s, p) != RBRACE {
        NoSeparatorExplained(s, p);
      }
    }
  }

  // ---- Whole texts ----

  /** With a handler that accepts, every error of the descent parser explains itself. */
  lemma ParseExplained(c: Config)
    requires ReadBack.Accepting(c)
    ensures Explained(c.src, Parse(c))
  {
    hide ReadBack.Accepting, ParseValue, SkipBlanks, E.ByteBefore, BreaksOff;
    var s, p := c.src, SkipBlanks(c.src, 0);
    if At(s, p) == NUL {
      forall k | 0 <= k < p
        ensures G.IsWs(At(s, k))
      {
        SkippedAreWs(s, 0, k);
      }
    } else {
      ValueExplained(c, p, []);
      var r := ParseValue(c, p, []);
      if r.Ok? {
        E.ValueEnds(c, p, []);
        BehindEnd(s, r.pos);
      }
    }
  }

  /** So does every error of the automaton, but for a stray byte at the start. */
  lemma IterativeParseExplained(c: Config)
    requires ReadBack.Accepting(c)
    ensures Explained(c.src, P.IterativeParse(c)) <==> !E.IsStray(At(c.src, SkipBlanks(c.src, 0)))
  {
    hide ReadBack.Accepting, Parse, P.IterativeParse, SkipBlanks, E.ByteBefore, BreaksOff;
    ParseExplained(c);
    E.ParsersAgree(c);
  }
}
