/**
 What the reader makes of a value depends only on the value's own bytes: a text that
 is changed from some closing brace on, to a comma, still has the values before it.
 */
module ReaderLocality {
  import opened Bytes
  import opened Json
  import opened Lexer
  import opened Descent

  /** The texts agree up to `k`, where the one has a closing brace and the other a comma. */
  ghost predicate AgreeTo(s: seq<Byte>, t: seq<Byte>, k: nat) {
    k < |s| && k < |t| && s[k] == RBRACE && t[k] == COMMA && forall i :: 0 <= i < k ==> s[i] == t[i]
  }

  lemma {:induction false} BlanksAgree(s: seq<Byte>, t: seq<Byte>, k: nat, pos: nat)
    requires AgreeTo(s, t, k) && pos <= k
    ensures SkipBlanks(s, pos) <= k && SkipBlanks(t, pos) == SkipBlanks(s, pos)
    decreases k - pos
  {
    if pos < k && IsBlank(At(s, pos)) {
      BlanksAgree(s, t, k, pos + 1);
    }
  }

  lemma {:induction false} DigitsAgree(s: seq<Byte>, t: seq<Byte>, k: nat, pos: nat)
    requires AgreeTo(s, t, k) && pos <= k
    ensures SkipDigits(s, pos) <= k && SkipDigits(t, pos) == SkipDigits(s, pos)
    decreases k - pos
  {
    if pos < k && IsDigit(At(s, pos)) {
      DigitsAgree(s, t, k, pos + 1);
    }
  }

  lemma {:induction false} NatAgrees(s: seq<Byte>, t: seq<Byte>, k: nat, start: nat, end: nat)
    requires AgreeTo(s, t, k) && start <= end <= k
    ensures NatAt(t, start, end) == NatAt(s, start, end)
  {
    if start < end {
      NatAgrees(s, t, k, start, end - 1);
    }
  }

  lemma {:induction false} FoldedAgrees(s: seq<Byte>, t: seq<Byte>, k: nat, pos: nat, significand: nat, digits: nat)
    requires AgreeTo(s, t, k) && pos <= k
    ensures FoldedDigits(t, pos, significand, digits) == FoldedDigits(s, pos, significand, digits)
    decreases k - pos
  {
    if pos < k && IsDigit(At(s, pos)) {
      if significand > MAX_EXACT {
        FoldedAgrees(s, t, k, pos + 1, significand, if digits < 17 then digits + 1 else digits);
      } else {
        var n := significand * 10 + DigitValue(At(s, pos));
        FoldedAgrees(s, t, k, pos + 1, n, if n != 0 then digits + 1 else digits);
      }
    }
  }

  // ---- Scalars ----

  lemma EscapeAgrees(s: seq<Byte>, t: seq<Byte>, k: nat, pos: nat)
    requires AgreeTo(s, t, k) && ScanEscape(s, pos).Scanned? && ScanEscape(s, pos).next <= k
    ensures ScanEscape(t, pos) == ScanEscape(s, pos)
  {
    hide HexDigit, Unescape;
    var next := ScanEscape(s, pos).next;
    forall i | 0 <= i < next
      ensures At(t, i) == At(s, i)
    {
    }
    if pos + 6 <= next {
      assert Hex4(t, pos + 2) == Hex4(s, pos + 2);
    }
    if pos + 12 <= next {
      assert Hex4(t, pos + 8) == Hex4(s, pos + 8);
    }
  }

  lemma {:induction false} StringAgrees(s: seq<Byte>, t: seq<Byte>, k: nat, pos: nat, acc: seq<Byte>)
    requires AgreeTo(s, t, k) && ScanString(s, pos, acc).Scanned? && ScanString(s, pos, acc).next <= k
    ensures ScanString(t, pos, acc) == ScanString(s, pos, acc)
    decreases |s| - pos
  {
    hide ScanEscape;
    var b := At(s, pos);
    if b == BACKSLASH {
      var e := ScanEscape(s, pos);
      EscapeAgrees(s, t, k, pos);
      StringAgrees(s, t, k, e.next, acc + e.bytes);
    } else if b != QUOTE {
      StringAgrees(s, t, k, pos + 1, acc + [b]);
    }
  }

  lemma DoubleAgrees(c: Config, t: seq<Byte>, k: nat, pos: nat, end: nat)
    requires AgreeTo(c.src, t, k) && pos < end <= k
    ensures DoubleLiteral(c.(src := t), pos, end) == DoubleLiteral(c, pos, end)
  {
    assert t[pos..end] == c.src[pos..end];
  }

  lemma ExponentAgrees(c: Config, t: seq<Byte>, k: nat, pos: nat, signPos: nat, folded: nat)
    requires AgreeTo(c.src, t, k) && pos < signPos <= k
    requires ScanExponent(c, pos, signPos, folded).Number?
    ensures ScanExponent(c.(src := t), pos, signPos, folded) == ScanExponent(c, pos, signPos, folded)
  {
    hide SkipDigits, NatAt, DoubleLiteral;
    var s := c.src;
    assert signPos < k ==> At(t, signPos) == At(s, signPos);
    var start := if At(s, signPos) == PLUS || At(s, signPos) == MINUS then signPos + 1 else signPos;
    if start <= k && IsDigit(At(s, start)) {
      DigitsAgree(s, t, k, start);
      NatAgrees(s, t, k, start, SkipDigits(s, start));
      DoubleAgrees(c, t, k, pos, SkipDigits(s, start));
    }
  }

  lemma FractionAgrees(c: Config, t: seq<Byte>, k: nat, pos: nat, minus: bool, start: nat, end: nat)
    requires AgreeTo(c.src, t, k) && pos <= start < end <= k
    requires ScanFraction(c, pos, minus, start, end).Number?
    ensures ScanFraction(c.(src := t), pos, minus, start, end) == ScanFraction(c, pos, minus, start, end)
  {
    hide SkipDigits, NatAt, DoubleLiteral, ScanExponent, FoldedDigits, IntegerEvent;
    var s, v := c.src, NatAt(c.src, start, end);
    NatAgrees(s, t, k, start, end);
    var fracEnd := end;
    if At(s, end) == DOT {
      DigitsAgree(s, t, k, end + 1);
      FoldedAgrees(s, t, k, end + 1, v, end - start - 1);
      fracEnd := SkipDigits(s, end + 1);
    }
    if IsExponentMark(At(s, fracEnd)) {
      ExponentAgrees(c, t, k, pos, fracEnd + 1,
                     if At(s, end) == DOT && IntegerEvent(minus, v).Some? then FoldedDigits(s, end + 1, v, end - start - 1) else 0);
    } else {
      DoubleAgrees(c, t, k, pos, fracEnd);
    }
  }

  lemma NumberAgrees(c: Config, t: seq<Byte>, k: nat, pos: nat)
    requires AgreeTo(c.src, t, k) && pos < k && ScanNumber(c, pos).Number?
    ensures ScanNumber(c.(src := t), pos) == ScanNumber(c, pos)
  {
    hide SkipDigits, ScanFraction;
    var s := c.src;
    var minus := At(s, pos) == MINUS;
    var start := if minus then pos + 1 else pos;
    assert start < k;
    DigitsAgree(s, t, k, start);
    FractionAgrees(c, t, k, pos, minus, start, if At(s, start) == ZERO then start + 1 else SkipDigits(s, start));
  }

  lemma {:induction false} ConsumedAgrees(s: seq<Byte>, t: seq<Byte>, k: nat, pos: nat, literal: seq<Byte>)
    requires AgreeTo(s, t, k) && pos + |literal| <= k
    ensures Consumed(t, pos, literal) == Consumed(s, pos, literal)
    decreases literal
  {
    if literal != [] && At(s, pos) == literal[0] {
      ConsumedAgrees(s, t, k, pos + 1, literal[1..]);
    }
  }

  lemma LiteralAgrees(c: Config, t: seq<Byte>, k: nat, pos: nat, ev: seq<Event>, literal: seq<Byte>, e: Event)
    requires AgreeTo(c.src, t, k) && ParseLiteral(c, pos, ev, literal, e).Ok? && ParseLiteral(c, pos, ev, literal, e).pos <= k
    ensures ParseLiteral(c.(src := t), pos, ev, literal, e) == ParseLiteral(c, pos, ev, literal, e)
  {
    hide Consumed;
    ConsumedAgrees(c.src, t, k, pos, literal);
  }

  lemma StringValueAgrees(c: Config, t: seq<Byte>, k: nat, pos: nat, ev: seq<Event>, isKey: bool)
    requires AgreeTo(c.src, t, k) && ParseString(c, pos, ev, isKey).Ok? && ParseString(c, pos, ev, isKey).pos <= k
    ensures ParseString(c.(src := t), pos, ev, isKey) == ParseString(c, pos, ev, isKey)
  {
    hide ScanString, AgreeTo;
    StringAgrees(c.src, t, k, pos + 1, []);
  }

  lemma ScalarAgrees(c: Config, t: seq<Byte>, k: nat, pos: nat, ev: seq<Event>)
    requires AgreeTo(c.src, t, k) && ParseScalar(c, pos, ev).Ok? && ParseScalar(c, pos, ev).pos <= k
    ensures ParseScalar(c.(src := t), pos, ev) == ParseScalar(c, pos, ev)
  {
    hide ScanNumber, ParseLiteral, ParseString;
    assert At(t, pos) == At(c.src, pos);
    match At(c.src, pos)
    case 0x6E => LiteralAgrees(c, t, k, pos, ev, NULL, Null);
    case 0x74 => LiteralAgrees(c, t, k, pos, ev, TRUE, Bool(true));
    case 0x66 => LiteralAgrees(c, t, k, pos, ev, FALSE, Bool(false));
    case 0x22 => StringValueAgrees(c, t, k, pos, ev, false);
    case _ => NumberAgrees(c, t, k, pos);
  }

  // ---- Values ----

  /** The bytes that decide the next step are the same. */
  lemma SameByte(s: seq<Byte>, t: seq<Byte>, k: nat, pos: nat)
    requires AgreeTo(s, t, k) && pos < k
    ensures At(t, pos) == At(s, pos)
  {
  }

  lemma {:induction false} ValueAgrees(c: Config, t: seq<Byte>, k: nat, pos: nat, ev: seq<Event>)
    requires AgreeTo(c.src, t, k) && ParseValue(c, pos, ev).Ok? && ParseValue(c, pos, ev).pos <= k
    ensures ParseValue(c.(src := t), pos, ev) == ParseValue(c, pos, ev)
    decreases |c.src| - pos, 2
  {
    hide ParseScalar, ParseElements, ParseMembers, SkipBlanks, AgreeTo;
    SameByte(c.src, t, k, pos);
    if At(c.src, pos) == LBRACE {
      ObjectAgrees(c, t, k, pos, ev);
    } else if At(c.src, pos) == LBRACKET {
      ArrayAgrees(c, t, k, pos, ev);
    } else {
      ScalarAgrees(c, t, k, pos, ev);
    }
  }

  lemma {:induction false} ArrayAgrees(c: Config, t: seq<Byte>, k: nat, pos: nat, ev: seq<Event>)
    requires AgreeTo(c.src, t, k) && At(c.src, pos) == At(t, pos) == LBRACKET
    requires ParseArray(c, pos, ev).Ok? && ParseArray(c, pos, ev).pos <= k
    ensures ParseArray(c.(src := t), pos, ev) == ParseArray(c, pos, ev)
    decreases |c.src| - pos, 1
  {
    hide ParseElements, SkipBlanks, AgreeTo;
    BlanksAgree(c.src, t, k, pos + 1);
    var p := SkipBlanks(c.src, pos + 1);
    SameByte(c.src, t, k, p);
    if At(c.src, p) != RBRACKET {
      ElementsAgree(c, t, k, p, ev + [StartArray], 0);
    }
  }

  lemma {:induction false} ElementsAgree(c: Config, t: seq<Byte>, k: nat, pos: nat, ev: seq<Event>, n: nat)
    requires AgreeTo(c.src, t, k) && ParseElements(c, pos, ev, n).Ok? && ParseElements(c, pos, ev, n).pos <= k
    ensures ParseElements(c.(src := t), pos, ev, n) == ParseElements(c, pos, ev, n)
    decreases |c.src| - pos, 3
  {
    hide ParseValue, SkipBlanks, AgreeTo;
    var s, v := c.src, ParseValue(c, pos, ev);
    ValueAgrees(c, t, k, pos, ev);
    BlanksAgree(s, t, k, v.pos);
    var p := SkipBlanks(s, v.pos);
    SameByte(s, t, k, p);
    if At(s, p) == COMMA {
      BlanksAgree(s, t, k, p + 1);
      var q := SkipBlanks(s, p + 1);
      SameByte(s, t, k, q);
      if !(c.trailingCommas && At(s, q) == RBRACKET) {
        ElementsAgree(c, t, k, q, v.ev, n + 1);
      }
    }
  }

  lemma {:induction false} ObjectAgrees(c: Config, t: seq<Byte>, k: nat, pos: nat, ev: seq<Event>)
    requires AgreeTo(c.src, t, k) && At(c.src, pos) == At(t, pos) == LBRACE
    requires ParseObject(c, pos, ev).Ok? && ParseObject(c, pos, ev).pos <= k
    ensures ParseObject(c.(src := t), pos, ev) == ParseObject(c, pos, ev)
    decreases |c.src| - pos, 1
  {
    hide ParseMembers, SkipBlanks, AgreeTo;
    BlanksAgree(c.src, t, k, pos + 1);
    var p := SkipBlanks(c.src, pos + 1);
    SameByte(c.src, t, k, p);
    if At(c.src, p) != RBRACE {
      MembersAgree(c, t, k, p, ev + [StartObject], 0);
    }
  }

  lemma {:induction false} MemberAgrees(c: Config, t: seq<Byte>, k: nat, pos: nat, ev: seq<Event>)
    requires AgreeTo(c.src, t, k) && ParseMember(c, pos, ev).Ok? && ParseMember(c, pos, ev).pos <= k
    ensures ParseMember(c.(src := t), pos, ev) == ParseMember(c, pos, ev)
    decreases |c.src| - pos, 3
  {
    hide ParseValue, ParseString, SkipBlanks, AgreeTo;
    var s, name := c.src, ParseString(c, pos, ev, true);
    var p := SkipBlanks(s, name.pos);
    SameByte(s, t, k, pos);
    StringValueAgrees(c, t, k, pos, ev, true);
    BlanksAgree(s, t, k, name.pos);
    SameByte(s, t, k, p);
    BlanksAgree(s, t, k, p + 1);
    ValueAgrees(c, t, k, SkipBlanks(s, p + 1), name.ev);
  }

  lemma {:induction false} MembersAgree(c: Config, t: seq<Byte>, k: nat, pos: nat, ev: seq<Event>, n: nat)
    requires AgreeTo(c.src, t, k) && ParseMembers(c, pos, ev, n).Ok? && ParseMembers(c, pos, ev, n).pos <= k
    ensures ParseMembers(c.(src := t), pos, ev, n) == ParseMembers(c, pos, ev, n)
    decreases |c.src| - pos, 4
  {
    hide ParseMember, SkipBlanks, AgreeTo;
    var s, v := c.src, ParseMember(c, pos, ev);
    MemberAgrees(c, t, k, pos, ev);
    BlanksAgree(s, t, k, v.pos);
    var p := SkipBlanks(s, v.pos);
    SameByte(s, t, k, p);
    if At(s, p) == COMMA {
      BlanksAgree(s, t, k, p + 1);
      var q := SkipBlanks(s, p + 1);
      SameByte(s, t, k, q);
      if !(c.trailingCommas && At(s, q) == RBRACE) {
        MembersAgree(c, t, k, q, v.ev, n + 1);
      }
    }
  }
}
