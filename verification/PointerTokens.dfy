/**
 What the characters of a JSON Pointer stand for: the two substitutions of section 4
 of RFC 6901, and the percent-encoding of section 2.1 of RFC 3986.
 */
module PointerTokens {
  import opened Bytes
  import opened Pointer
  import G = Grammar
  import Utf8

  // ---- ~0 and ~1 ----

  /** Every "~" and `digit` of `t`, from the left, replaced by `b`. */
  function Replaced(t: Text, digit: Byte, b: Byte): Text {
    if t == [] then []
    else if |t| >= 2 && t[0] == 0x7E && t[1] == digit then [b] + Replaced(t[2..], digit, b)
    else [t[0]] + Replaced(t[1..], digit, b)
  }

  /** First "~1" by "/", then "~0" by "~". */
  function TokenValue(t: Text): Text {
    Replaced(Replaced(t, 0x31, 0x2F), 0x30, 0x7E)
  }

  /** Every "~" is followed by "0" or "1". */
  predicate WellEscaped(t: Text) {
    forall k :: 0 <= k < |t| && t[k] == 0x7E ==> k + 1 < |t| && (t[k + 1] == 0x30 || t[k + 1] == 0x31)
  }

  lemma ReplacedKeeps(b: Byte, t: Text, digit: Byte, r: Byte)
    requires b != 0x7E
    ensures Replaced([b] + t, digit, r) == [b] + Replaced(t, digit, r)
  {
    assert ([b] + t)[1..] == t;
  }

  lemma ReplacedPair(digit: Byte, t: Text, r: Byte)
    ensures Replaced([0x7E, digit] + t, digit, r) == [r] + Replaced(t, digit, r)
  {
    assert ([0x7E, digit] + t)[2..] == t;
  }

  lemma ReplacedOther(other: Byte, t: Text, digit: Byte, r: Byte)
    requires other != digit && other != 0x7E
    ensures Replaced([0x7E, other] + t, digit, r) == [0x7E, other] + Replaced(t, digit, r)
  {
    var all := [0x7E, other] + t;
    assert all[1..] == [other] + t;
    ReplacedKeeps(other, t, digit, r);
  }

  /** The two substitutions, one character at a time. */
  lemma TokenValueStep(t: Text)
    requires t != [] && WellEscaped(t)
    ensures t[0] != 0x7E ==> TokenValue(t) == [t[0]] + TokenValue(t[1..]) && WellEscaped(t[1..])
    ensures t[0] == 0x7E ==>
              && |t| >= 2 && WellEscaped(t[2..])
              && TokenValue(t) == [if t[1] == 0x30 then 0x7E else 0x2F] + TokenValue(t[2..])
  {
    hide Replaced;
    if t[0] != 0x7E {
      var rest := t[1..];
      assert t == [t[0]] + rest;
      assert forall k :: 0 <= k < |rest| ==> rest[k] == t[k + 1];
      ReplacedKeeps(t[0], rest, 0x31, 0x2F);
      ReplacedKeeps(t[0], Replaced(rest, 0x31, 0x2F), 0x30, 0x7E);
    } else {
      var rest := t[2..];
      assert t == [0x7E, t[1]] + rest;
      assert forall k :: 0 <= k < |rest| ==> rest[k] == t[k + 2];
      var once := Replaced(rest, 0x31, 0x2F);
      if t[1] == 0x31 {
        ReplacedPair(0x31, rest, 0x2F);
        ReplacedKeeps(0x2F, once, 0x30, 0x7E);
      } else {
        ReplacedOther(0x30, rest, 0x31, 0x2F);
        ReplacedPair(0x30, once, 0x7E);
      }
    }
  }

  lemma NotWellEscaped(t: Text)
    requires t != [] && !WellEscaped(t)
    ensures t[0] != 0x7E ==> !WellEscaped(t[1..])
    ensures t[0] == 0x7E && |t| >= 2 && (t[1] == 0x30 || t[1] == 0x31) ==> !WellEscaped(t[2..])
  {
    var k :| 0 <= k < |t| && t[k] == 0x7E && !(k + 1 < |t| && (t[k + 1] == 0x30 || t[k + 1] == 0x31));
    if t[0] != 0x7E {
      assert t[1..][k - 1] == 0x7E;
    } else if |t| >= 2 && (t[1] == 0x30 || t[1] == 0x31) {
      assert t[2..][k - 2] == 0x7E;
    }
  }

  /** A reference token, up to the next slash, is read as what the two substitutions make of it, and
      is refused exactly when a "~" stands before anything else. */
  lemma {:induction false} NameIsTokenValue(s: Text, i: nat, e: nat)
    requires i <= e <= |s| && (e < |s| ==> s[e] == 0x2F) && forall k :: i <= k < e ==> s[k] != 0x2F
    ensures if WellEscaped(s[i..e]) then Name(s, i, false) == Good(TokenValue(s[i..e]), e)
            else Name(s, i, false).Bad? && Name(s, i, false).code == InvalidEscape
    decreases e - i
  {
    hide TokenValue, WellEscaped;
    if i == e {
      EmptyToken(s, i);
    } else {
      var t := s[i..e];
      if WellEscaped(t) {
        TokenValueStep(t);
      } else {
        NotWellEscaped(t);
      }
      assert s[i + 1..e] == t[1..];
      if t[0] != 0x7E {
        NameIsTokenValue(s, i + 1, e);
      } else if |t| >= 2 && (t[1] == 0x30 || t[1] == 0x31) {
        assert s[i + 2..e] == t[2..] && s[i + 1] == t[1];
        NameIsTokenValue(s, i + 2, e);
      } else {
        TildeRefused(s, i, e);
      }
    }
  }

  lemma EmptyToken(s: Text, i: nat)
    requires i <= |s|
    ensures WellEscaped(s[i..i]) && TokenValue(s[i..i]) == []
  {
    assert s[i..i] == [];
  }

  lemma TildeRefused(s: Text, i: nat, e: nat)
    requires i < e <= |s| && s[i] == 0x7E && (e < |s| ==> s[e] == 0x2F)
    requires i + 1 < e ==> s[i + 1] != 0x30 && s[i + 1] != 0x31
    ensures !WellEscaped(s[i..e]) && Name(s, i, false) == Bad(InvalidEscape, i + 1)
  {
    assert s[i..e][0] == 0x7E;
    assert i + 1 < e ==> s[i..e][1] == s[i + 1];
  }

  // ---- Percent-encoding ----

  /** A "%" and two hexadecimal digits, the high one first, stand for a byte. */
  lemma TripletIs(s: Text, i: nat)
    ensures Triplet(s, i).Some? <==> i + 3 <= |s| && s[i] == 0x25 && G.IsHex(s[i + 1]) && G.IsHex(s[i + 2])
    ensures Triplet(s, i).Some? ==> Triplet(s, i).value == 16 * G.HexDigitValue(s[i + 1]) + G.HexDigitValue(s[i + 2])
  {
  }

  /** The digit of `n`, in upper case. */
  predicate IsUpperHex(b: Byte, n: nat) {
    G.IsHex(b) && G.HexDigitValue(b) == n && !(0x61 <= b <= 0x66)
  }

  lemma PercentEncodeIs(b: Byte)
    ensures var t := PercentEncode([b]);
            |t| == 3 && t[0] == 0x25 && IsUpperHex(t[1], b / 16) && IsUpperHex(t[2], b % 16)
  {
    assert [b][1..] == [];
  }

  /** What the URI fragment form prints for an ASCII character. */
  lemma FragmentOfAscii(b: Byte)
    requires b < 0x80
    ensures var c := b as char;
            FragmentName([b]) == Some(if c == '~' then [0x7E, 0x30]
                                      else if c == '/' then [0x7E, 0x31]
                                      else if 'a' <= c <= 'z' || 'A' <= c <= 'Z' || '0' <= c <= '9' || c == '-' || c == '.' || c == '_'
                                      then [b]
                                      else PercentEncode([b]))
  {
    hide PercentEncode;
    assert [b][1..] == [] && FragmentName([]) == Some([]);
    assert [b][..1] == [b];
    assert forall x: Text :: x + [] == x;
  }
}
