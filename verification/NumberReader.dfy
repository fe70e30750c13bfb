/**
 `ParseNumber` as it runs: digits are accumulated in a 32-bit, then a 64-bit
 unsigned integer, with a test before each step that the next digit still fits.
 The accumulators are machine integers, so the proofs below include that no
 step overflows.
 */
module NumberReader {
  import opened Bytes
  import opened Json
  import opened Lexer

  newtype Uint32 = x: int | 0 <= x <= 0xFFFF_FFFF
  newtype Uint64 = x: int | 0 <= x <= 0xFFFF_FFFF_FFFF_FFFF

  // ---- Digits ----

  lemma {:induction false} NatAtGrows(s: seq<Byte>, start: nat, mid: nat, end: nat)
    requires start <= mid < end
    ensures NatAt(s, start, mid) * 10 + DigitValue(At(s, mid)) <= NatAt(s, start, end)
    decreases end
  {
    if mid + 1 < end {
      NatAtGrows(s, start, mid, end - 1);
    }
  }

  lemma {:induction false} SkipDigitsFrom(s: seq<Byte>, start: nat, mid: nat)
    requires start <= mid
    requires forall i :: start <= i < mid ==> IsDigit(At(s, i))
    ensures SkipDigits(s, start) == SkipDigits(s, mid)
    decreases mid - start
  {
    if start < mid {
      SkipDigitsFrom(s, start + 1, mid);
    }
  }

  /** The largest magnitude for each sign and width, and its tenth: where the tests begin. */
  function Max32(minus: bool): nat { if minus then 0x8000_0000 else 0xFFFF_FFFF }
  function Limit32(minus: bool): Uint32 { if minus then 214748364 else 429496729 }
  function Max64(minus: bool): nat { if minus then 0x8000_0000_0000_0000 else 0xFFFF_FFFF_FFFF_FFFF }
  function Limit64(minus: bool): Uint64 { if minus then 0x0CCC_CCCC_CCCC_CCCC else 0x1999_9999_9999_9999 }
  function LastDigit(minus: bool): Byte { if minus then 0x38 else 0x35 }

  /** The digits at `start` as far as they fit in 32 bits; `more` when one did not. */
  method ReadInt32(s: seq<Byte>, start: nat, minus: bool) returns (pos: nat, i: Uint32, more: bool)
    requires IsDigit(At(s, start)) && At(s, start) != ZERO
    ensures start < pos <= SkipDigits(s, start)
    ensures i as int == NatAt(s, start, pos) && 1 <= i
    ensures more <==> NatAt(s, start, SkipDigits(s, start)) > Max32(minus)
    ensures !more ==> pos == SkipDigits(s, start)
  {
    i := (At(s, start) - ZERO) as Uint32;
    pos := start + 1;
    while IsDigit(At(s, pos))
      invariant start < pos <= SkipDigits(s, start)
      invariant i as int == NatAt(s, start, pos) && 1 <= i && i as int <= Max32(minus)
      decreases SkipDigits(s, start) - pos
    {
      if i >= Limit32(minus) {
        if i != Limit32(minus) || At(s, pos) > LastDigit(minus) {
          NatAtGrows(s, start, pos, SkipDigits(s, start));
          more := true;
          return;
        }
      }
      i := i * 10 + (At(s, pos) - ZERO) as Uint32;
      pos := pos + 1;
    }
    more := false;
  }

  /** Going on in 64 bits where `ReadInt32` stopped. */
  method ReadInt64(s: seq<Byte>, start: nat, from: nat, i: Uint32, minus: bool)
    returns (pos: nat, i64: Uint64, more: bool)
    requires start < from <= SkipDigits(s, start) && i as int == NatAt(s, start, from) && 1 <= i
    ensures from <= pos <= SkipDigits(s, start)
    ensures i64 as int == NatAt(s, start, pos)
    ensures more <==> NatAt(s, start, SkipDigits(s, start)) > Max64(minus)
    ensures !more ==> pos == SkipDigits(s, start)
    ensures more ==> i64 >= Limit64(minus)
  {
    i64 := i as Uint64;
    pos := from;
    while IsDigit(At(s, pos))
      invariant from <= pos <= SkipDigits(s, start)
      invariant i64 as int == NatAt(s, start, pos) && i64 as int <= Max64(minus)
      decreases SkipDigits(s, start) - pos
    {
      if i64 >= Limit64(minus) {
        if i64 != Limit64(minus) || At(s, pos) > LastDigit(minus) {
          NatAtGrows(s, start, pos, SkipDigits(s, start));
          more := true;
          return;
        }
      }
      i64 := i64 * 10 + (At(s, pos) - ZERO) as Uint64;
      pos := pos + 1;
    }
    more := false;
  }

  /** An integer part that 64 bits did not hold has used up all significant digits. */
  lemma {:induction false} ManyDigits(s: seq<Byte>, start: nat, end: nat)
    requires start <= end && NatAt(s, start, end) >= 100_000_000_000_000_000
    ensures end - start >= 18
  {
    if end - start < 18 {
      assert Pow10(3) == 1_000;
      assert Pow10(5) == 100_000;
      assert Pow10(7) == 10_000_000;
      assert Pow10(9) == 1_000_000_000;
      assert Pow10(11) == 100_000_000_000;
      assert Pow10(13) == 10_000_000_000_000;
      assert Pow10(15) == 1_000_000_000_000_000;
      assert Pow10(17) == 100_000_000_000_000_000;
      NatAtBound(s, start, end, 17);
    }
  }

  function Pow10(n: nat): (p: nat)
    ensures p >= 1
  {
    if n == 0 then 1 else 10 * Pow10(n - 1)
  }

  lemma {:induction false} NatAtBound(s: seq<Byte>, start: nat, end: nat, n: nat)
    requires start <= end <= start + n
    ensures NatAt(s, start, end) < Pow10(n)
    decreases n
  {
    if start < end {
      NatAtBound(s, start, end - 1, n - 1);
    }
  }

  /** The fraction digits: how many are folded into the significand. */
  method ReadFraction(s: seq<Byte>, start: nat, isDouble: bool, significand: Uint64, digits: nat)
    returns (pos: nat, folded: nat)
    requires isDouble ==> digits >= 17
    ensures pos == SkipDigits(s, start)
    ensures folded == if isDouble then 0 else FoldedDigits(s, start, significand as int, digits)
  {
    pos, folded := start, 0;
    var i64, significandDigit := significand, digits;
    ghost var total := if isDouble then 0 else FoldedDigits(s, start, i64 as int, digits);
    if !isDouble {
      while IsDigit(At(s, pos)) && i64 as int <= MAX_EXACT
        invariant start <= pos && SkipDigits(s, pos) == SkipDigits(s, start)
        invariant folded + FoldedDigits(s, pos, i64 as int, significandDigit) == total
        decreases |s| - pos
      {
        i64 := i64 * 10 + (At(s, pos) - ZERO) as Uint64;
        if i64 != 0 {
          significandDigit := significandDigit + 1;
        }
        folded := folded + 1;
        pos := pos + 1;
      }
    }
    while IsDigit(At(s, pos))
      invariant start <= pos && SkipDigits(s, pos) == SkipDigits(s, start)
      invariant isDouble ==> folded == 0 && significandDigit >= 17
      invariant !isDouble && IsDigit(At(s, pos)) ==> i64 as int > MAX_EXACT
      invariant !isDouble ==> folded + FoldedDigits(s, pos, i64 as int, significandDigit) == total
      decreases |s| - pos
    {
      if significandDigit < 17 {
        folded := folded + 1;
        significandDigit := significandDigit + 1;
      }
      pos := pos + 1;
    }
  }

  // ---- Exponents ----

  const INT32_MIN := -0x8000_0000
  const INT32_MAX := 0x7FFF_FFFF

  /** The most fraction digits that may be folded before a positive, or a negative, exponent can leave
      the int range. */
  const SAFE_FOLDED := 214748055
  const SAFE_FOLDED_NEGATIVE := 2147483549

  /** The positive exponent's counter is given the value of the digits up to `p`. */
  ghost predicate Counts(s: seq<Byte>, start: nat, folded: nat, p: nat) {
    start < p <= SkipDigits(s, start) && (start + 1 < p ==> NatAt(s, start, p - 1) <= 308 + folded)
  }

  /** None of the values that the counter is given is outside the int range. */
  ghost predicate ExponentFits(s: seq<Byte>, start: nat, folded: nat) {
    forall p: nat :: Counts(s, start, folded, p) ==> NatAt(s, start, p) <= INT32_MAX
  }

  lemma {:induction false} NatAtIsMonotone(s: seq<Byte>, start: nat, p: nat, q: nat)
    requires start <= p <= q
    ensures NatAt(s, start, p) <= NatAt(s, start, q)
    decreases q
  {
    if p < q {
      NatAtIsMonotone(s, start, p, q - 1);
    }
  }

  /** The digits of a positive exponent; `tooBig` as soon as it exceeds 308 + folded. The ghost result
      is the largest value the counter was given. */
  method ReadPositiveExponent(s: seq<Byte>, start: nat, folded: nat) returns (pos: nat, exp: int, tooBig: bool, ghost peak: int)
    requires IsDigit(At(s, start))
    ensures tooBig <==> NatAt(s, start, SkipDigits(s, start)) > 308 + folded
    ensures !tooBig ==> pos == SkipDigits(s, start) && exp == NatAt(s, start, pos)
    ensures peak <= INT32_MAX <==> ExponentFits(s, start, folded)
    ensures exp <= peak
  {
    exp := At(s, start) - ZERO;
    pos := start + 1;
    peak := exp;
    while IsDigit(At(s, pos))
      invariant start < pos <= SkipDigits(s, start)
      invariant exp == peak == NatAt(s, start, pos) && exp <= 308 + folded + 9 && Counts(s, start, folded, pos)
      invariant start + 1 < pos ==> exp <= 308 + folded
      decreases SkipDigits(s, start) - pos
    {
      NatAtGrows(s, start, pos, SkipDigits(s, start));
      exp := exp * 10 + (At(s, pos) - ZERO);
      pos := pos + 1;
      peak := exp;
      if exp > 308 + folded {
        tooBig := true;
        PeakDecides(s, start, folded, pos);
        return;
      }
    }
    tooBig := false;
    PeakDecides(s, start, folded, pos);
  }

  /** The last value is the largest. */
  lemma PeakDecides(s: seq<Byte>, start: nat, folded: nat, last: nat)
    requires Counts(s, start, folded, last)
    requires last == SkipDigits(s, start) || (start + 1 < last && NatAt(s, start, last) > 308 + folded)
    ensures NatAt(s, start, last) <= INT32_MAX <==> ExponentFits(s, start, folded)
  {
    hide NatAt, SkipDigits;
    forall p: nat | Counts(s, start, folded, p)
      ensures NatAt(s, start, p) <= NatAt(s, start, last)
    {
      if p <= last {
        NatAtIsMonotone(s, start, p, last);
      } else {
        NatAtIsMonotone(s, start, last, p - 1);
      }
    }
  }

  function MaxNegativeExponent(folded: nat): int {
    if folded <= 2147483639 then (2147483639 - folded) / 10 else -((folded - 2147483639) / 10)
  }

  /** Where the negative exponent's counter stops growing: behind the first digit but one, or a later
      one, that takes it past the limit, or at the end. */
  function StopsGrowing(s: seq<Byte>, start: nat, pos: nat, max: int): (r: nat)
    requires start < pos
    ensures pos <= r
    decreases |s| - pos
  {
    if !IsDigit(At(s, pos)) then pos
    else if NatAt(s, start, pos + 1) > max then pos + 1
    else StopsGrowing(s, start, pos + 1, max)
  }

  function NegativeExponent(s: seq<Byte>, start: nat, folded: nat): nat {
    NatAt(s, start, StopsGrowing(s, start, start + 1, MaxNegativeExponent(folded)))
  }

  /** The digits of a negative exponent. */
  method ReadNegativeExponent(s: seq<Byte>, start: nat, folded: nat) returns (pos: nat, exp: int)
    requires IsDigit(At(s, start))
    ensures pos == SkipDigits(s, start)
    ensures exp == NegativeExponent(s, start, folded)
  {
    exp := At(s, start) - ZERO;
    pos := start + 1;
    var maxExp := MaxNegativeExponent(folded);
    ghost var stop := StopsGrowing(s, start, pos, maxExp);
    while IsDigit(At(s, pos))
      invariant start < pos <= SkipDigits(s, start)
      invariant if IsDigit(At(s, pos)) then exp == NatAt(s, start, pos) && StopsGrowing(s, start, pos, maxExp) == stop
                else exp == NatAt(s, start, stop)
      decreases SkipDigits(s, start) - pos
    {
      exp := exp * 10 + (At(s, pos) - ZERO);
      pos := pos + 1;
      if exp > maxExp {
        while IsDigit(At(s, pos))
          invariant start < pos <= SkipDigits(s, start)
          decreases SkipDigits(s, start) - pos
        {
          pos := pos + 1;
        }
      }
    }
  }

  /** The two digits "99" and the ten digits "2147483649". */
  const NINETY_NINE: seq<Byte> := [NINE, NINE]
  const PAST_INT32: seq<Byte> := [0x32, 0x31, 0x34, 0x37, 0x34, 0x38, 0x33, 0x36, 0x34, 0x39]

  lemma PastInt32(s: seq<Byte>, start: nat)
    requires |s| == start + 10 && s[start..] == PAST_INT32
    ensures SkipDigits(s, start) == start + 10
    ensures NatAt(s, start, start + 9) == 214748364 && NatAt(s, start, start + 10) == 2147483649
  {
    forall i | start <= i < start + 10
      ensures At(s, i) == PAST_INT32[i - start]
    {
      assert s[i] == s[start..][i - start];
    }
    SkipDigitsFrom(s, start, start + 10);
    assert NatAt(s, start, start + 1) == 2;
    assert NatAt(s, start, start + 2) == 21;
    assert NatAt(s, start, start + 3) == 214;
    assert NatAt(s, start, start + 4) == 2147;
    assert NatAt(s, start, start + 5) == 21474;
    assert NatAt(s, start, start + 6) == 214748;
    assert NatAt(s, start, start + 7) == 2147483;
    assert NatAt(s, start, start + 8) == 21474836;
  }

  lemma FitsWhenFewFolded(s: seq<Byte>, start: nat, folded: nat)
    requires folded <= SAFE_FOLDED
    ensures ExponentFits(s, start, folded)
  {
    forall p: nat | Counts(s, start, folded, p)
      ensures NatAt(s, start, p) <= INT32_MAX
    {
      assert start + 1 == p ==> NatAt(s, start, start) == 0;
    }
  }

  /** The positive exponents: with `folded` digits folded, the counter stays in the int range for
      every text exactly when `folded` is at most 214748055. */
  lemma ExponentStaysInRange(folded: nat)
    ensures (forall s: seq<Byte>, start: nat :: ExponentFits(s, start, folded)) <==> folded <= SAFE_FOLDED
  {
    if folded <= SAFE_FOLDED {
      forall s: seq<Byte>, start: nat
        ensures ExponentFits(s, start, folded)
      {
        FitsWhenFewFolded(s, start, folded);
      }
    } else {
      PastInt32(PAST_INT32, 0);
      assert Counts(PAST_INT32, 0, folded, 10);
      assert !ExponentFits(PAST_INT32, 0, folded);
    }
  }

  lemma {:induction false} FoldsAtMostAll(s: seq<Byte>, pos: nat, significand: nat, digits: nat)
    ensures FoldedDigits(s, pos, significand, digits) <= SkipDigits(s, pos) - pos
    decreases |s| - pos
  {
    if IsDigit(At(s, pos)) {
      if significand > MAX_EXACT {
        FoldsAtMostAll(s, pos + 1, significand, if digits < 17 then digits + 1 else digits);
      } else {
        var n := significand * 10 + DigitValue(At(s, pos));
        FoldsAtMostAll(s, pos + 1, n, if n != 0 then digits + 1 else digits);
      }
    }
  }

  /** On no literal with at most that many fraction digits does the counter leave the int range. */
  lemma ShortFractionFits(s: seq<Byte>, pos: nat, significand: nat, digits: nat, start: nat)
    requires SkipDigits(s, pos) - pos <= SAFE_FOLDED
    ensures ExponentFits(s, start, FoldedDigits(s, pos, significand, digits))
  {
    FoldsAtMostAll(s, pos, significand, digits);
    FitsWhenFewFolded(s, start, FoldedDigits(s, pos, significand, digits));
  }

  lemma {:induction false} ZerosFold(s: seq<Byte>, pos: nat, n: nat)
    requires forall i :: pos <= i < pos + n ==> At(s, i) == ZERO
    requires !IsDigit(At(s, pos + n))
    ensures FoldedDigits(s, pos, 0, 0) == n
    decreases n
  {
    if n > 0 {
      ZerosFold(s, pos + 1, n - 1);
    }
  }

  /** "0.", `n` zeros, "e2147483649". */
  function LongZero(n: nat): seq<Byte> {
    [ZERO, DOT] + seq(n, _ => ZERO) + [0x65] + PAST_INT32
  }

  /** The counter leaves the int range on this literal exactly when it has more than 214748055 zeros. */
  lemma LongFractionOverflows(n: nat)
    ensures var s := LongZero(n);
            && SkipDigits(s, 2) == n + 2 && IsExponentMark(At(s, n + 2)) && FoldedDigits(s, 2, 0, 0) == n
            && (ExponentFits(s, n + 3, n) <==> n <= SAFE_FOLDED)
  {
    var s := LongZero(n);
    SkipDigitsFrom(s, 2, n + 2);
    ZerosFold(s, 2, n);
    assert s[n + 3..] == PAST_INT32;
    PastInt32(s, n + 3);
    if n <= SAFE_FOLDED {
      FitsWhenFewFolded(s, n + 3, n);
    } else {
      assert Counts(s, n + 3, n, n + 13);
    }
  }

  lemma {:induction false} NegativeFits(s: seq<Byte>, start: nat, pos: nat, max: int)
    requires start < pos && 9 <= max && NatAt(s, start, pos) <= max
    ensures NatAt(s, start, StopsGrowing(s, start, pos, max)) <= max * 10 + 9
    decreases |s| - pos
  {
    if IsDigit(At(s, pos)) && NatAt(s, start, pos + 1) <= max {
      NegativeFits(s, start, pos + 1, max);
    }
  }

  /** The negative exponents: exponent plus fraction stays in the int range for every text exactly
      when at most 2147483549 digits are folded. */
  lemma NegativeExponentStaysInRange(folded: nat)
    ensures (forall s: seq<Byte>, start: nat :: NegativeExponent(s, start, folded) + folded <= -INT32_MIN)
            <==> folded <= SAFE_FOLDED_NEGATIVE
  {
    if folded <= SAFE_FOLDED_NEGATIVE {
      forall s: seq<Byte>, start: nat
        ensures NegativeExponent(s, start, folded) + folded <= -INT32_MIN
      {
        assert NatAt(s, start, start) == 0;
        NegativeFits(s, start, start + 1, MaxNegativeExponent(folded));
      }
    } else {
      assert NatAt(NINETY_NINE, 0, 1) == 9 && NatAt(NINETY_NINE, 0, 2) == 99;
      assert NegativeExponent(NINETY_NINE, 0, folded) == 99;
    }
  }

  // ---- The whole literal ----

  method ReadExponent(c: Config, pos: nat, signPos: nat, folded: nat) returns (r: Number)
    requires pos < signPos
    ensures r == ScanExponent(c, pos, signPos, folded)
  {
    var s := c.src;
    var negative := At(s, signPos) == MINUS;
    var start := if negative || At(s, signPos) == PLUS then signPos + 1 else signPos;
    if !IsDigit(At(s, start)) {
      return NotNumber(NumberMissExponent, start);
    }
    var end, exp;
    if negative {
      end, exp := ReadNegativeExponent(s, start, folded);
    } else {
      var tooBig;
      ghost var peak;
      end, exp, tooBig, peak := ReadPositiveExponent(s, start, folded);
      if tooBig {
        return NotNumber(NumberTooBig, pos);
      }
    }
    r := DoubleLiteral(c, pos, end);
  }

  /** The integer part: where it ends, its value if 64 bits hold it, the event it makes on its
      own, and how many significant digits it has used. */
  method ReadInteger(s: seq<Byte>, start: nat, minus: bool)
    returns (end: nat, isDouble: bool, i64: Uint64, e: Option<Event>, digits: nat)
    requires IsDigit(At(s, start))
    ensures end == if At(s, start) == ZERO then start + 1 else SkipDigits(s, start)
    ensures var v := NatAt(s, start, end);
            && e == IntegerEvent(minus, v)
            && isDouble == e.None?
            && (!isDouble ==> i64 as int == v && digits == end - start - 1)
            && (isDouble ==> digits >= 17)
  {
    if At(s, start) == ZERO {
      return start + 1, false, 0, Some(if minus then Int(0) else Uint(0)), 0;
    }
    var pos, i, more := ReadInt32(s, start, minus);
    if !more {
      return pos, false, i as Uint64, Some(if minus then Int(-(i as int)) else Uint(i as int)), pos - start - 1;
    }
    pos, i64, more := ReadInt64(s, start, pos, i, minus);
    digits := pos - start - 1;
    if !more {
      return pos, false, i64, Some(if minus then Int64(-(i64 as int)) else Uint64(i64 as int)), digits;
    }
    ManyDigits(s, start, pos);
    SkipDigitsFrom(s, start, pos);
    while IsDigit(At(s, pos))
      invariant start < pos && SkipDigits(s, pos) == SkipDigits(s, start)
      decreases |s| - pos
    {
      pos := pos + 1;
    }
    return pos, true, i64, None, digits;
  }

  /** `ParseNumber` up to the handler call. */
  method ReadNumber(c: Config, pos: nat) returns (r: Number)
    ensures r == ScanNumber(c, pos)
  {
    hide NatAt, SkipDigits, FoldedDigits, IntegerEvent, ScanExponent, DoubleLiteral;
    var s := c.src;
    var minus := At(s, pos) == MINUS;
    var start := if minus then pos + 1 else pos;
    if !IsDigit(At(s, start)) {
      return NotNumber(ValueInvalid, start);
    }
    var intEnd, isDouble, i64, e, digits := ReadInteger(s, start, minus);
    var end, folded := intEnd, 0;
    var hasFraction := At(s, intEnd) == DOT;
    if hasFraction {
      if !IsDigit(At(s, intEnd + 1)) {
        return NotNumber(NumberMissFraction, intEnd + 1);
      }
      end, folded := ReadFraction(s, intEnd + 1, isDouble, i64, digits);
    }
    if IsExponentMark(At(s, end)) {
      r := ReadExponent(c, pos, end + 1, folded);
    } else if hasFraction || isDouble {
      r := DoubleLiteral(c, pos, end);
    } else {
      r := Number(intEnd, e.value);
    }
  }

  /** The number of an integer event. */
  function NumberOf(e: Event): Option<int> {
    match e
    case Int(i) => Some(i)
    case Uint(u) => Some(u)
    case Int64(i) => Some(i)
    case Uint64(u) => Some(u)
    case _ => None
  }

  /** An integer literal of any length, signed or not: its event is the narrowest of its signedness
      that can hold it, with its exact value, and Double exactly when none can. */
  lemma IntegerLiteral(c: Config, pos: nat)
    requires var s := c.src;
             var start := if At(s, pos) == MINUS then pos + 1 else pos;
             IsDigit(At(s, start)) &&
             var end := if At(s, start) == ZERO then start + 1 else SkipDigits(s, start);
             At(s, end) != DOT && !IsExponentMark(At(s, end))
    ensures var s := c.src;
            var minus := At(s, pos) == MINUS;
            var start := if minus then pos + 1 else pos;
            var end := if At(s, start) == ZERO then start + 1 else SkipDigits(s, start);
            var v: int := NatAt(s, start, end);
            var n := if minus then -v else v;
            var fits := if minus then -0x8000_0000_0000_0000 <= n else n < 0x1_0000_0000_0000_0000;
            var r := ScanNumber(c, pos);
            if fits then
              && r.Number? && r.next == end && NumberOf(r.e) == Some(n)
              && (r.e.Uint? <==> !minus && n < 0x1_0000_0000) && (r.e.Uint64? <==> !minus && 0x1_0000_0000 <= n)
              && (r.e.Int? <==> minus && -0x8000_0000 <= n) && (r.e.Int64? <==> minus && n < -0x8000_0000)
            else r == if c.overflows(s[pos..end]) then NotNumber(NumberTooBig, pos) else Number(end, Double(s[pos..end]))
  {
    hide SkipDigits, NatAt;
  }
}
