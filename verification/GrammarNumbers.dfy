/**
 The reader's numbers are the numerals of the grammar: the scanner takes every
 representable numeral that nothing extends, and takes nothing else.
 */
module GrammarNumbers {
  import opened Bytes
  import opened Json
  import opened Lexer
  import G = Grammar
  import L = StringLiterals
  import V = ValueText

  // ---- Digits ----

  /** The bytes of `ds` stand at `pos`. */
  lemma DigitAt(ds: seq<Byte>, s: seq<Byte>, pos: nat, i: nat)
    requires Occurs(ds, s, pos) && i < |ds|
    ensures At(s, pos + i) == ds[i]
  {
    L.ByteAt(ds, s, pos, i);
  }

  lemma {:induction false} DigitsSkipped(ds: seq<Byte>, s: seq<Byte>, pos: nat)
    requires G.AllDigits(ds) && Occurs(ds, s, pos) && !IsDigit(At(s, pos + |ds|))
    ensures SkipDigits(s, pos) == pos + |ds|
    decreases |ds|
  {
    if ds != [] {
      DigitAt(ds, s, pos, 0);
      assert ds == [ds[0]] + ds[1..];
      L.OccursSplit([ds[0]], ds[1..], s, pos);
      DigitsSkipped(ds[1..], s, pos + 1);
    }
  }

  lemma {:induction false} DigitsRead(ds: seq<Byte>, s: seq<Byte>, pos: nat)
    requires G.AllDigits(ds) && Occurs(ds, s, pos)
    ensures NatAt(s, pos, pos + |ds|) == G.DigitsValue(ds)
    decreases |ds|
  {
    if ds != [] {
      var k := |ds| - 1;
      assert ds == ds[..k] + [ds[k]];
      L.OccursSplit(ds[..k], [ds[k]], s, pos);
      DigitsRead(ds[..k], s, pos);
      DigitAt(ds, s, pos, k);
    }
  }

  /** Conversely, what was skipped are digits. */
  lemma SkippedDigits(s: seq<Byte>, pos: nat, end: nat)
    requires pos <= end <= |s| && forall i :: pos <= i < end ==> IsDigit(At(s, i))
    ensures G.AllDigits(s[pos..end]) && Occurs(s[pos..end], s, pos) && NatAt(s, pos, end) == G.DigitsValue(s[pos..end])
  {
    forall i | 0 <= i < end - pos
      ensures 0x30 <= s[pos..end][i] <= 0x39
    {
      assert IsDigit(At(s, pos + i));
    }
    DigitsRead(s[pos..end], s, pos);
  }

  // ---- Folded digits ----

  lemma {:induction false} NothingFolds(s: seq<Byte>, pos: nat, significand: nat, digits: nat)
    requires significand > MAX_EXACT && digits >= 17
    ensures FoldedDigits(s, pos, significand, digits) == 0
    decreases |s| - pos
  {
    if IsDigit(At(s, pos)) {
      NothingFolds(s, pos + 1, significand, digits);
    }
  }

  lemma ScaledStep(int1: seq<Byte>, frac: seq<Byte>, j: nat)
    requires G.AllDigits(int1) && G.AllDigits(frac) && j < |frac|
    ensures G.Scaled(int1, frac, j + 1) == 10 * G.Scaled(int1, frac, j) + (frac[j] - 0x30)
  {
    var all := int1 + frac[..j + 1];
    assert all[..|all| - 1] == int1 + frac[..j];
  }

  lemma {:induction false} FoldedAgree(int1: seq<Byte>, frac: seq<Byte>, s: seq<Byte>, start: nat, j: nat,
                                       significand: nat, digits: nat)
    requires G.AllDigits(int1) && G.AllDigits(frac) && j <= |frac| && int1 != []
    requires Occurs(frac, s, start) && !IsDigit(At(s, start + |frac|))
    requires digits == G.Significant(int1, frac, j)
    requires if G.Scaled(int1, frac, j) <= MAX_EXACT then significand == G.Scaled(int1, frac, j) else significand > MAX_EXACT
    ensures FoldedDigits(s, start + j, significand, digits) == G.Folded(int1, frac, j)
    decreases |frac| - j
  {
    hide G.Scaled;
    if j < |frac| {
      var j1 := j + 1;
      DigitAt(frac, s, start, j);
      ScaledStep(int1, frac, j);
      if significand > MAX_EXACT && digits >= 17 {
        NothingFolds(s, start + j, significand, digits);
      } else {
        var next := if significand > MAX_EXACT then significand else significand * 10 + (frac[j] - 0x30);
        FoldedAgree(int1, frac, s, start, j1, next, G.Significant(int1, frac, j1));
      }
    }
  }

  // ---- Reading a numeral ----

  /** The byte behind a numeral does not continue it. */
  predicate EndsNumeral(b: Byte) {
    !IsDigit(b) && b != 0x2E && b != 0x65 && b != 0x45
  }

  lemma FoldedAll(int1: seq<Byte>, frac: seq<Byte>, s: seq<Byte>, start: nat)
    requires G.AllDigits(int1) && G.AllDigits(frac) && int1 != []
    requires Occurs(frac, s, start) && !IsDigit(At(s, start + |frac|))
    ensures FoldedDigits(s, start, G.DigitsValue(int1), |int1| - 1) == G.Folded(int1, frac, 0)
  {
    assert int1 + frac[..0] == int1;
    FoldedAgree(int1, frac, s, start, 0, G.DigitsValue(int1), |int1| - 1);
  }

  /** The parts of a numeral in the text. */
  lemma NumeralParts(n: G.Numeral, s: seq<Byte>, pos: nat)
    requires Occurs(G.NumeralText(n), s, pos)
    ensures var p1 := pos + |G.MinusText(n.minus)|;
            var p2 := p1 + |n.int1|;
            var p3 := p2 + |G.FracText(n.frac)|;
            && Occurs(G.MinusText(n.minus), s, pos) && Occurs(n.int1, s, p1) && Occurs(G.FracText(n.frac), s, p2)
            && Occurs(G.ExpText(n.exp), s, p3) && p3 + |G.ExpText(n.exp)| == pos + |G.NumeralText(n)|
  {
    hide G.MinusText, G.FracText, G.ExpText, Occurs;
    var a, b, c, d := G.MinusText(n.minus), n.int1, G.FracText(n.frac), G.ExpText(n.exp);
    L.OccursSplit(a + b + c, d, s, pos);
    L.OccursSplit(a + b, c, s, pos);
    L.OccursSplit(a, b, s, pos);
  }

  lemma ExponentRead(c: Config, pos: nat, signPos: nat, e: G.Exponent, folded: nat)
    requires G.IsExponent(e) && pos < signPos && Occurs(e.sign + e.digits, c.src, signPos)
    requires !IsDigit(At(c.src, signPos + |e.sign| + |e.digits|))
    requires e.sign != [0x2D] ==> G.DigitsValue(e.digits) <= 308 + folded
    ensures signPos + |e.sign| + |e.digits| <= |c.src|
    ensures ScanExponent(c, pos, signPos, folded) == DoubleLiteral(c, pos, signPos + |e.sign| + |e.digits|)
  {
    hide NatAt, SkipDigits, DoubleLiteral, G.DigitsValue;
    var s, start := c.src, signPos + |e.sign|;
    L.OccursSplit(e.sign, e.digits, s, signPos);
    DigitAt(e.digits, s, start, 0);
    if e.sign != [] {
      DigitAt(e.sign, s, signPos, 0);
    }
    DigitsSkipped(e.digits, s, start);
    DigitsRead(e.digits, s, start);
  }

  lemma SliceOccurs(text: seq<Byte>, s: seq<Byte>, pos: nat)
    requires Occurs(text, s, pos)
    ensures pos + |text| <= |s| && s[pos..pos + |text|] == text
  {
  }

  lemma IntegerEventsAgree(minus: bool, v: nat)
    ensures IntegerEvent(minus, v) == G.IntegerOf(minus, v)
    ensures G.IntegerOf(minus, v).Some? ==> !G.IntegerOf(minus, v).value.Double?
  {
  }

  /** The fraction of a numeral, or the lack of one. */
  lemma FractionPlaces(n: G.Numeral, s: seq<Byte>, end: nat)
    requires G.IsNumeral(n) && Occurs(G.FracText(n.frac), s, end) && Occurs(G.ExpText(n.exp), s, end + |G.FracText(n.frac)|)
    requires EndsNumeral(At(s, end + |G.FracText(n.frac)| + |G.ExpText(n.exp)|))
    ensures var fracEnd := end + |G.FracText(n.frac)|;
            && !IsDigit(At(s, end)) && (At(s, end) == DOT <==> n.frac.Some?)
            && (IsExponentMark(At(s, fracEnd)) <==> n.exp.Some?)
            && (n.frac.Some? ==>
                  && IsDigit(At(s, end + 1)) && SkipDigits(s, end + 1) == fracEnd
                  && FoldedDigits(s, end + 1, G.DigitsValue(n.int1), |n.int1| - 1) == G.Folded(n.int1, n.frac.value, 0))
  {
    hide SkipDigits, FoldedDigits, G.DigitsValue, G.Folded, G.ExpText, Occurs;
    MarkAt(n, s, end + |G.FracText(n.frac)|);
    if n.frac.Some? {
      var f := n.frac.value;
      L.OccursSplit([0x2E], f, s, end);
      DigitAt([0x2E], s, end, 0);
      DigitAt(f, s, end + 1, 0);
      DigitsSkipped(f, s, end + 1);
      FoldedAll(n.int1, f, s, end + 1);
    }
  }

  /** How the scanner goes on behind the integer part of a numeral. */
  lemma FractionScanned(c: Config, pos: nat, start: nat, end: nat, n: G.Numeral)
    requires G.IsNumeral(n) && pos <= start < end <= |c.src| && end == start + |n.int1|
    requires Occurs(n.int1, c.src, start) && Occurs(G.FracText(n.frac), c.src, end)
    requires Occurs(G.ExpText(n.exp), c.src, end + |G.FracText(n.frac)|)
    requires EndsNumeral(At(c.src, end + |G.FracText(n.frac)| + |G.ExpText(n.exp)|))
    ensures var fracEnd, e := end + |G.FracText(n.frac)|, G.IntegerOf(n.minus, G.DigitsValue(n.int1));
            && fracEnd <= |c.src|
            && ScanFraction(c, pos, n.minus, start, end)
               == if n.exp.Some? then ScanExponent(c, pos, fracEnd + 1, G.MaxExponent(n) - 308)
                  else if n.frac.Some? || e.None? then DoubleLiteral(c, pos, fracEnd)
                  else Number(end, e.value)
  {
    hide NatAt, SkipDigits, ScanExponent, DoubleLiteral, FoldedDigits, IntegerEvent, IsExponentMark, IsDigit, EndsNumeral, Occurs,
         G.DigitsValue, G.Folded, G.FracText, G.ExpText, G.IntegerOf, G.AllDigits, G.IsExponent;
    DigitsRead(n.int1, c.src, start);
    IntegerEventsAgree(n.minus, G.DigitsValue(n.int1));
    SliceOccurs(G.FracText(n.frac), c.src, end);
    FractionPlaces(n, c.src, end);
    PartsLeftOut(n);
  }

  /** What follows the integer part of a numeral. */
  lemma FractionRead(c: Config, pos: nat, start: nat, end: nat, n: G.Numeral)
    requires G.IsNumeral(n) && G.IsRepresentable(n, c.overflows) && pos <= start < end <= |c.src|
    requires start == pos + |G.MinusText(n.minus)| && end == start + |n.int1|
    requires Occurs(G.NumeralText(n), c.src, pos) && EndsNumeral(At(c.src, pos + |G.NumeralText(n)|))
    ensures ScanFraction(c, pos, n.minus, start, end) == Number(pos + |G.NumeralText(n)|, G.NumeralEvent(n))
  {
    hide ScanFraction, ScanExponent, IsDigit, EndsNumeral, Occurs, G.DigitsValue, G.MaxExponent,
         G.NumeralText, G.FracText, G.ExpText, G.IntegerOf, G.AllDigits, G.IsExponent;
    var s, text := c.src, G.NumeralText(n);
    NumeralParts(n, s, pos);
    SliceOccurs(text, s, pos);
    FractionScanned(c, pos, start, end, n);
    PartsLeftOut(n);
    if n.exp.Some? {
      var fracEnd := end + |G.FracText(n.frac)|;
      ExpPlaces(n, s, fracEnd);
      NoDigitBehind(s, pos + |text|);
      assert G.IsExponent(n.exp.value) && G.MaxExponent(n) >= 308;
      ExponentRead(c, pos, fracEnd + 1, n.exp.value, G.MaxExponent(n) - 308);
    }
  }

  lemma NoDigitBehind(s: seq<Byte>, pos: nat)
    requires EndsNumeral(At(s, pos))
    ensures !IsDigit(At(s, pos))
  {
  }

  lemma PartsLeftOut(n: G.Numeral)
    ensures n.exp.None? ==> G.ExpText(n.exp) == []
    ensures n.frac.None? ==> G.FracText(n.frac) == []
  {
  }

  /** The byte behind the digits of a numeral: the exponent's mark, or the byte that ends it. */
  lemma MarkAt(n: G.Numeral, s: seq<Byte>, fracEnd: nat)
    requires G.IsNumeral(n) && Occurs(G.ExpText(n.exp), s, fracEnd) && EndsNumeral(At(s, fracEnd + |G.ExpText(n.exp)|))
    ensures !IsDigit(At(s, fracEnd)) && At(s, fracEnd) != DOT
    ensures IsExponentMark(At(s, fracEnd)) <==> n.exp.Some?
  {
    if n.exp.Some? {
      DigitAt(G.ExpText(n.exp), s, fracEnd, 0);
    }
  }

  lemma ExpPlaces(n: G.Numeral, s: seq<Byte>, fracEnd: nat)
    requires n.exp.Some? && Occurs(G.ExpText(n.exp), s, fracEnd)
    ensures var e := n.exp.value;
            Occurs(e.sign + e.digits, s, fracEnd + 1) && |G.ExpText(n.exp)| == 1 + |e.sign| + |e.digits|
  {
    var e := n.exp.value;
    assert G.ExpText(n.exp) == [e.mark] + (e.sign + e.digits);
    L.OccursSplit([e.mark], e.sign + e.digits, s, fracEnd);
  }

  /** Every representable numeral that nothing extends is read to its end, as its event. */
  lemma NumeralRead(c: Config, pos: nat, n: G.Numeral)
    requires G.IsNumeral(n) && G.IsRepresentable(n, c.overflows)
    requires Occurs(G.NumeralText(n), c.src, pos) && EndsNumeral(At(c.src, pos + |G.NumeralText(n)|))
    ensures ScanNumber(c, pos) == Number(pos + |G.NumeralText(n)|, G.NumeralEvent(n))
  {
    hide SkipDigits, ScanFraction, G.IsRepresentable, G.NumeralText, G.NumeralEvent, Occurs;
    var s, start := c.src, pos + |G.MinusText(n.minus)|;
    var end := start + |n.int1|;
    NumeralParts(n, s, pos);
    SliceOccurs(n.int1, s, start);
    DigitAt(n.int1, s, start, 0);
    if n.minus {
      DigitAt([0x2D], s, pos, 0);
    }
    FractionPlaces(n, s, end);
    if n.int1[0] != 0x30 {
      DigitsSkipped(n.int1, s, start);
    }
    FractionRead(c, pos, start, end, n);
  }

  // ---- What was read is a numeral ----

  function SignAt(s: seq<Byte>, pos: nat): (sign: seq<Byte>)
    ensures sign == [] || sign == [0x2B] || sign == [0x2D]
  {
    if At(s, pos) == PLUS then [0x2B] else if At(s, pos) == MINUS then [0x2D] else []
  }

  lemma SignOccurs(s: seq<Byte>, pos: nat)
    requires pos <= |s|
    ensures Occurs(SignAt(s, pos), s, pos)
  {
  }

  /** A scanned exponent: where its digits are, and its value within the limit. */
  lemma ExponentScanned(c: Config, pos: nat, signPos: nat, folded: nat)
    requires pos < signPos && ScanExponent(c, pos, signPos, folded).Number?
    ensures var sign := SignAt(c.src, signPos);
            var start := signPos + |sign|;
            var end := SkipDigits(c.src, start);
            && start < end <= |c.src|
            && (sign != [0x2D] ==> NatAt(c.src, start, end) <= 308 + folded)
            && ScanExponent(c, pos, signPos, folded) == DoubleLiteral(c, pos, end)
  {
    hide NatAt, DoubleLiteral;
  }

  /** So it is an exponent of the grammar. */
  lemma ScannedExponent(c: Config, pos: nat, markPos: nat, folded: nat) returns (e: G.Exponent)
    requires pos < markPos && IsExponentMark(At(c.src, markPos)) && ScanExponent(c, pos, markPos + 1, folded).Number?
    ensures var end := markPos + |G.ExpText(Some(e))|;
            && G.IsExponent(e) && Occurs(G.ExpText(Some(e)), c.src, markPos)
            && (e.sign != [0x2D] ==> G.DigitsValue(e.digits) <= 308 + folded)
            && end <= |c.src| && ScanExponent(c, pos, markPos + 1, folded) == DoubleLiteral(c, pos, end)
  {
    hide SkipDigits, NatAt, DoubleLiteral, ScanExponent, SignAt, G.DigitsValue, G.AllDigits, G.ExpText, Occurs;
    var s, signPos := c.src, markPos + 1;
    ExponentScanned(c, pos, signPos, folded);
    var start := signPos + |SignAt(s, signPos)|;
    var end := SkipDigits(s, start);
    SkippedDigits(s, start, end);
    e := G.Exponent(At(s, markPos), SignAt(s, signPos), s[start..end]);
    SignOccurs(s, signPos);
    ExponentJoins(s, markPos, e);
  }

  lemma ExponentJoins(s: seq<Byte>, markPos: nat, e: G.Exponent)
    requires markPos < |s| && e.mark == s[markPos] && Occurs(e.sign, s, markPos + 1) && Occurs(e.digits, s, markPos + 1 + |e.sign|)
    ensures Occurs(G.ExpText(Some(e)), s, markPos) && |G.ExpText(Some(e))| == 1 + |e.sign| + |e.digits|
  {
    hide Occurs;
    ByteOccurs(s, markPos);
    OccursJoin([e.mark], e.sign, s, markPos);
    OccursJoin([e.mark] + e.sign, e.digits, s, markPos);
  }

  lemma ByteOccurs(s: seq<Byte>, pos: nat)
    requires pos < |s|
    ensures Occurs([s[pos]], s, pos)
  {
  }

  lemma NothingOccurs(s: seq<Byte>, pos: nat)
    requires pos <= |s|
    ensures Occurs([], s, pos)
  {
  }

  /** A scanned fraction. */
  lemma ScannedPoint(s: seq<Byte>, int1: seq<Byte>, end: nat) returns (frac: Option<seq<Byte>>)
    requires int1 != [] && G.AllDigits(int1) && end <= |s| && (At(s, end) == DOT ==> IsDigit(At(s, end + 1)))
    ensures var fracEnd := end + |G.FracText(frac)|;
            && Occurs(G.FracText(frac), s, end) && fracEnd <= |s|
            && (At(s, end) == DOT <==> frac.Some?)
            && (frac.Some? ==>
                  && frac.value != [] && G.AllDigits(frac.value) && SkipDigits(s, end + 1) == fracEnd
                  && FoldedDigits(s, end + 1, G.DigitsValue(int1), |int1| - 1) == G.Folded(int1, frac.value, 0))
  {
    hide SkipDigits, NatAt, FoldedDigits, G.DigitsValue, G.Folded, Occurs;
    frac := None;
    NothingOccurs(s, end);
    if At(s, end) == DOT {
      var fracEnd := SkipDigits(s, end + 1);
      frac := Some(s[end + 1..fracEnd]);
      SkippedDigits(s, end + 1, fracEnd);
      FoldedAll(int1, frac.value, s, end + 1);
      ByteOccurs(s, end);
      OccursJoin([0x2E], frac.value, s, end);
    }
  }

  /** A scanned number behind its integer part. */
  lemma ScannedFraction(c: Config, pos: nat, minus: bool, start: nat, end: nat) returns (n: G.Numeral)
    requires pos <= start < end <= |c.src| && ScanFraction(c, pos, minus, start, end).Number?
    requires start == pos + |G.MinusText(minus)| && Occurs(G.MinusText(minus), c.src, pos)
    requires (forall i :: start <= i < end ==> IsDigit(At(c.src, i))) && (At(c.src, start) == ZERO ==> end == start + 1)
    ensures var r := ScanFraction(c, pos, minus, start, end);
            && G.IsNumeral(n) && G.IsRepresentable(n, c.overflows)
            && Occurs(G.NumeralText(n), c.src, pos) && r == Number(pos + |G.NumeralText(n)|, G.NumeralEvent(n))
  {
    hide SkipDigits, NatAt, FoldedDigits, IntegerEvent, ScanExponent, IsExponentMark, IsDigit, Occurs,
         G.DigitsValue, G.Folded, G.IntegerOf, G.ExpText, G.FracText, G.MinusText, G.NumeralText, G.IsExponent, G.AllDigits;
    var s, int1 := c.src, c.src[start..end];
    SkippedDigits(s, start, end);
    IntegerEventsAgree(minus, NatAt(s, start, end));
    var frac := ScannedPoint(s, int1, end);
    var fracEnd, exp := end + |G.FracText(frac)|, None;
    PartsLeftOut(G.Numeral(minus, int1, frac, None));
    NothingOccurs(s, fracEnd);
    if IsExponentMark(At(s, fracEnd)) {
      var folded := if frac.Some? && G.IntegerOf(minus, G.DigitsValue(int1)).Some? then G.Folded(int1, frac.value, 0) else 0;
      var e := ScannedExponent(c, pos, fracEnd, folded);
      exp := Some(e);
    }
    n := G.Numeral(minus, int1, frac, exp);
    PartsJoin(n, s, pos);
    SliceOccurs(G.NumeralText(n), s, pos);
  }

  lemma PartsJoin(n: G.Numeral, s: seq<Byte>, pos: nat)
    requires var p1 := pos + |G.MinusText(n.minus)|;
             var p2 := p1 + |n.int1|;
             var p3 := p2 + |G.FracText(n.frac)|;
             && Occurs(G.MinusText(n.minus), s, pos) && Occurs(n.int1, s, p1) && Occurs(G.FracText(n.frac), s, p2)
             && Occurs(G.ExpText(n.exp), s, p3)
    ensures Occurs(G.NumeralText(n), s, pos)
    ensures |G.NumeralText(n)| == |G.MinusText(n.minus)| + |n.int1| + |G.FracText(n.frac)| + |G.ExpText(n.exp)|
  {
    hide G.MinusText, G.FracText, G.ExpText, Occurs;
    var a, b, c, d := G.MinusText(n.minus), n.int1, G.FracText(n.frac), G.ExpText(n.exp);
    OccursJoin(a, b, s, pos);
    OccursJoin(a + b, c, s, pos);
    OccursJoin(a + b + c, d, s, pos);
  }

  lemma OccursJoin(a: seq<Byte>, b: seq<Byte>, s: seq<Byte>, pos: nat)
    requires Occurs(a, s, pos) && Occurs(b, s, pos + |a|)
    ensures Occurs(a + b, s, pos)
  {
    assert s[pos..pos + |a| + |b|] == s[pos..pos + |a|] + s[pos + |a|..pos + |a| + |b|];
  }

  /** Whatever is read as a number is a representable numeral, read as its event. */
  lemma ScannedNumeral(c: Config, pos: nat) returns (n: G.Numeral)
    requires ScanNumber(c, pos).Number?
    ensures G.IsNumeral(n) && G.IsRepresentable(n, c.overflows) && Occurs(G.NumeralText(n), c.src, pos)
    ensures ScanNumber(c, pos) == Number(pos + |G.NumeralText(n)|, G.NumeralEvent(n))
  {
    hide SkipDigits, ScanFraction, G.IsRepresentable, G.NumeralText, G.NumeralEvent, G.IsNumeral;
    var s := c.src;
    var minus := At(s, pos) == MINUS;
    var start := if minus then pos + 1 else pos;
    assert Occurs(G.MinusText(minus), s, pos);
    n := ScannedFraction(c, pos, minus, start, if At(s, start) == ZERO then start + 1 else SkipDigits(s, start));
  }

  /** The literals that stand for doubles in a document are the numerals that mean a double. */
  lemma DoubleLiterals(c: Config, lit: seq<Byte>)
    ensures V.IsDoubleLiteral(c, lit) <==>
            exists n :: G.IsNumeral(n) && G.IsRepresentable(n, c.overflows) && G.NumeralText(n) == lit && G.NumeralEvent(n).Double?
  {
    hide ScanNumber, G.IsNumeral, G.IsRepresentable, G.NumeralText;
    var d := c.(src := lit);
    if V.IsDoubleLiteral(c, lit) {
      var n := ScannedNumeral(d, 0);
      SliceOccurs(G.NumeralText(n), lit, 0);
      assert lit[0..|lit|] == lit;
    }
    if n :| G.IsNumeral(n) && G.IsRepresentable(n, c.overflows) && G.NumeralText(n) == lit && G.NumeralEvent(n).Double? {
      assert lit[0..|lit|] == lit;
      NumeralRead(d, 0, n);
    }
  }
}
