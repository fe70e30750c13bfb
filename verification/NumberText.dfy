/**
 Number literals in context, and the text of an integer: what the writer prints
 is what the reader reads.
 */
module NumberText {
  import opened Bytes
  import opened Json
  import opened Lexer
  import opened Dom
  import W = Writer

  // ---- Literals in context ----

  /** What may follow a value in compact text. */
  predicate Ends(b: Byte) {
    b == NUL || b == COMMA || b == RBRACKET || b == RBRACE
  }

  /** `lit` stands in `s` at `pos` and something that ends a value follows. */
  ghost predicate Stands(lit: seq<Byte>, s: seq<Byte>, pos: nat) {
    && (forall i :: 0 <= i < |lit| ==> At(s, pos + i) == lit[i])
    && Ends(At(s, pos + |lit|))
  }

  lemma {:induction false} SkipDigitsShift(lit: seq<Byte>, s: seq<Byte>, pos: nat, i: nat)
    requires Stands(lit, s, pos) && i <= |lit|
    ensures SkipDigits(s, pos + i) == pos + SkipDigits(lit, i)
    ensures SkipDigits(lit, i) <= |lit|
    decreases |lit| - i
  {
    if i < |lit| {
      assert At(s, pos + i) == lit[i];
      if IsDigit(lit[i]) {
        SkipDigitsShift(lit, s, pos, i + 1);
      }
    }
  }

  lemma {:induction false} NatAtShift(lit: seq<Byte>, s: seq<Byte>, pos: nat, i: nat, j: nat)
    requires Stands(lit, s, pos) && i <= j <= |lit|
    ensures NatAt(s, pos + i, pos + j) == NatAt(lit, i, j)
    decreases j
  {
    if i < j {
      assert At(s, pos + (j - 1)) == lit[j - 1];
      NatAtShift(lit, s, pos, i, j - 1);
    }
  }

  lemma {:induction false} FoldedShift(lit: seq<Byte>, s: seq<Byte>, pos: nat, i: nat, significand: nat, digits: nat)
    requires Stands(lit, s, pos) && i <= |lit|
    ensures FoldedDigits(s, pos + i, significand, digits) == FoldedDigits(lit, i, significand, digits)
    decreases |lit| - i
  {
    if i < |lit| {
      assert At(s, pos + i) == lit[i];
      if IsDigit(lit[i]) {
        if significand > MAX_EXACT {
          FoldedShift(lit, s, pos, i + 1, significand, if digits < 17 then digits + 1 else digits);
        } else {
          var v := significand * 10 + DigitValue(lit[i]);
          FoldedShift(lit, s, pos, i + 1, v, if v != 0 then digits + 1 else digits);
        }
      }
    }
  }

  lemma AtShift(lit: seq<Byte>, s: seq<Byte>, pos: nat, i: nat)
    requires Stands(lit, s, pos) && i <= |lit|
    ensures i < |lit| ==> At(s, pos + i) == At(lit, i)
    ensures i == |lit| ==> Ends(At(s, pos + i)) && Ends(At(lit, i))
  {
  }

  /** A literal that is a number on its own is the same number in context. */
  lemma NumberInContext(c: Config, lit: seq<Byte>, pos: nat)
    requires Stands(lit, c.src, pos) && Occurs(lit, c.src, pos)
    requires ScanNumber(c.(src := lit), 0).Number? && ScanNumber(c.(src := lit), 0).next == |lit|
    ensures ScanNumber(c, pos) == Number(pos + |lit|, ScanNumber(c.(src := lit), 0).e)
  {
    hide SkipDigits, Stands, ScanFraction;
    var s := c.src;
    AtShift(lit, s, pos, 0);
    var start := if At(lit, 0) == MINUS then 1 else 0;
    AtShift(lit, s, pos, start);
    SkipDigitsShift(lit, s, pos, start);
    var intEnd := if At(lit, start) == ZERO then start + 1 else SkipDigits(lit, start);
    FractionInContext(c, lit, pos, At(lit, 0) == MINUS, start, intEnd);
  }

  lemma FractionInContext(c: Config, lit: seq<Byte>, pos: nat, minus: bool, start: nat, intEnd: nat)
    requires Stands(lit, c.src, pos) && Occurs(lit, c.src, pos) && start < intEnd <= |lit|
    requires var r := ScanFraction(c.(src := lit), 0, minus, start, intEnd); r.Number? && r.next == |lit|
    ensures ScanFraction(c, pos, minus, pos + start, pos + intEnd)
            == Number(pos + |lit|, ScanFraction(c.(src := lit), 0, minus, start, intEnd).e)
  {
    hide NatAt, SkipDigits, FoldedDigits, Stands, DoubleLiteral, ScanExponent, IntegerEvent;
    var s := c.src;
    NatAtShift(lit, s, pos, start, intEnd);
    AtShift(lit, s, pos, intEnd);
    var v := NatAt(lit, start, intEnd);
    var hasFraction := At(lit, intEnd) == DOT;
    if hasFraction {
      AtShift(lit, s, pos, intEnd + 1);
      SkipDigitsShift(lit, s, pos, intEnd + 1);
      FoldedShift(lit, s, pos, intEnd + 1, v, intEnd - start - 1);
    }
    var fracEnd := if hasFraction then SkipDigits(lit, intEnd + 1) else intEnd;
    AtShift(lit, s, pos, fracEnd);
    if IsExponentMark(At(lit, fracEnd)) {
      var folded := if hasFraction && IntegerEvent(minus, v).Some?
                    then FoldedDigits(lit, intEnd + 1, v, intEnd - start - 1) else 0;
      ExponentInContext(c, lit, pos, fracEnd + 1, folded);
    } else {
      DoubleInContext(c, lit, pos, fracEnd);
    }
  }

  lemma DoubleInContext(c: Config, lit: seq<Byte>, pos: nat, end: nat)
    requires Occurs(lit, c.src, pos) && 0 < end <= |lit|
    ensures end == |lit| && DoubleLiteral(c.(src := lit), 0, end).Number? ==>
              DoubleLiteral(c, pos, pos + end) == Number(pos + |lit|, DoubleLiteral(c.(src := lit), 0, end).e)
  {
    assert lit[0..|lit|] == lit;
  }

  lemma ExponentInContext(c: Config, lit: seq<Byte>, pos: nat, signPos: nat, folded: nat)
    requires Stands(lit, c.src, pos) && Occurs(lit, c.src, pos) && 0 < signPos <= |lit|
    requires var r := ScanExponent(c.(src := lit), 0, signPos, folded); r.Number? && r.next == |lit|
    ensures ScanExponent(c, pos, pos + signPos, folded)
            == Number(pos + |lit|, ScanExponent(c.(src := lit), 0, signPos, folded).e)
  {
    hide NatAt, SkipDigits, Stands, DoubleLiteral;
    var s := c.src;
    AtShift(lit, s, pos, signPos);
    var start := if At(lit, signPos) == PLUS || At(lit, signPos) == MINUS then signPos + 1 else signPos;
    AtShift(lit, s, pos, start);
    SkipDigitsShift(lit, s, pos, start);
    NatAtShift(lit, s, pos, start, SkipDigits(lit, start));
    DoubleInContext(c, lit, pos, SkipDigits(lit, start));
  }

  // ---- Integers ----

  lemma {:induction false} NatAtPrefix(a: seq<Byte>, b: seq<Byte>, j: nat)
    requires j <= |a|
    ensures NatAt(a + b, 0, j) == NatAt(a, 0, j)
  {
    if j > 0 {
      NatAtPrefix(a, b, j - 1);
    }
  }

  ghost predicate AllDigits(t: seq<Byte>) {
    forall i :: 0 <= i < |t| ==> IsDigit(t[i])
  }

  /** Decimal printing puts digits, no leading zero, and the number they denote is the number. */
  lemma {:induction false} DecimalValue(n: nat)
    ensures var t := W.Decimal(n);
            && AllDigits(t) && NatAt(t, 0, |t|) == n
            && (t[0] == ZERO <==> n == 0) && (n == 0 ==> |t| == 1)
    decreases n
  {
    if n >= 10 {
      DecimalValue(n / 10);
      var head, last := W.Decimal(n / 10), [ZERO + n % 10];
      assert W.Decimal(n) == head + last;
      NatAtPrefix(head, last, |head|);
    }
  }

  lemma {:induction false} SkipAllDigits(t: seq<Byte>, i: nat)
    requires AllDigits(t) && i <= |t|
    ensures SkipDigits(t, i) == |t|
    decreases |t| - i
  {
    if i < |t| {
      SkipAllDigits(t, i + 1);
    }
  }

  /** The event read back for an integer. */
  function ReadEvent(n: int): Event
    requires Fits(n)
  {
    IntegerEvent(n < 0, if n < 0 then -n else n).value
  }

  lemma IntTextOnItsOwn(c: Config, n: int)
    requires Fits(n)
    ensures ScanNumber(c.(src := W.IntText(n)), 0) == Number(|W.IntText(n)|, ReadEvent(n))
  {
    hide NatAt, SkipDigits, FoldedDigits, IntegerEvent, W.Decimal;
    var m := if n < 0 then -n else n;
    var digits, t := W.Decimal(m), W.IntText(n);
    var start := if n < 0 then 1 else 0;
    DecimalValue(m);
    SkipAllDigits(digits, 0);
    assert Stands(digits, t, start);
    SkipDigitsShift(digits, t, start, 0);
    NatAtShift(digits, t, start, 0, |digits|);
    assert At(t, start) == digits[0];
    FitsHasEvent(n);
    assert ScanNumber(c.(src := t), 0) == ScanFraction(c.(src := t), 0, n < 0, start, |t|);
  }

  lemma FitsHasEvent(n: int)
    requires Fits(n)
    ensures IntegerEvent(n < 0, if n < 0 then -n else n).Some?
  {
  }

  /** An integer is printed the same from whichever event `Accept` chose for it. */
  lemma StoredText(n: int)
    requires Fits(n)
    ensures W.ScalarText(IntegerEventOf(Stored(n))) == W.IntText(n)
  {
    hide W.IntText;
  }

  /** Reading an integer back and storing it gives the stored form it had. */
  lemma StoredReadBack(n: int)
    requires Fits(n)
    ensures InRange(ReadEvent(n)) && IsNumber(ReadEvent(n))
    ensures ScalarValue(ReadEvent(n)) == IntegerValue(Stored(n))
  {
    ConstructorsAgree(n);
  }
}
