/**
 UTF-8 as `encodings.h` implements it: a lead-byte class table whose entries are
 bit masks, so that one AND tests a trailing byte against several classes.
 */
module Utf8 {
  import opened Bytes

  // ---- The standard (RFC 3629, sections 3 and 4) ----

  /** A Unicode scalar value: a code point that is not a surrogate. */
  type Scalar = c: int | 0 <= c < 0xD800 || 0xE000 <= c <= 0x10FFFF

  predicate IsTail(b: Byte) {
    0x80 <= b <= 0xBF
  }

  /** The UTF8-char production of section 4 of RFC 3629. */
  predicate IsUtf8Char(s: seq<Byte>) {
    match |s|
    case 1 => s[0] <= 0x7F
    case 2 => 0xC2 <= s[0] <= 0xDF && IsTail(s[1])
    case 3 =>
      && IsTail(s[2])
      && (|| (s[0] == 0xE0 && 0xA0 <= s[1] <= 0xBF)
          || (0xE1 <= s[0] <= 0xEC && IsTail(s[1]))
          || (s[0] == 0xED && 0x80 <= s[1] <= 0x9F)
          || (0xEE <= s[0] <= 0xEF && IsTail(s[1])))
    case 4 =>
      && IsTail(s[2]) && IsTail(s[3])
      && (|| (s[0] == 0xF0 && 0x90 <= s[1] <= 0xBF)
          || (0xF1 <= s[0] <= 0xF3 && IsTail(s[1]))
          || (s[0] == 0xF4 && 0x80 <= s[1] <= 0x8F))
    case _ => false
  }

  /** A text that splits into UTF8-char productions. */
  ghost predicate IsWellFormed(s: seq<Byte>) {
    s == [] || exists n :: 1 <= n <= |s| && IsUtf8Char(s[..n]) && IsWellFormed(s[n..])
  }

  // ---- Encode ----

  /** The low six bits and the bits above them: the `& 0x3F` and `>> 6` of the source. */
  function Low(x: nat): (r: nat)
    ensures r < 64
  {
    x % 64
  }

  function High(x: nat): (r: nat)
    ensures r * 64 + Low(x) == x
  {
    x / 64
  }

  /** `UTF8::Encode`. */
  function Encode(cp: Scalar): (s: seq<Byte>)
    ensures IsUtf8Char(s)
  {
    if cp <= 0x7F then [cp]
    else if cp <= 0x7FF then [0xC0 + High(cp), 0x80 + Low(cp)]
    else if cp <= 0xFFFF then [0xE0 + High(High(cp)), 0x80 + Low(High(cp)), 0x80 + Low(cp)]
    else [0xF0 + High(High(High(cp))), 0x80 + Low(High(High(cp))), 0x80 + Low(High(cp)), 0x80 + Low(cp)]
  }

  function EncodeAll(cps: seq<Scalar>): seq<Byte> {
    if cps == [] then [] else Encode(cps[0]) + EncodeAll(cps[1..])
  }

  // ---- Decode ----

  /** The lead-byte table; trailing bytes are the masks 0x10, 0x40 and 0x20. */
  function GetRange(c: Byte): bv8 {
    if c < 0x80 then 0
    else if c < 0x90 then 0x10
    else if c < 0xA0 then 0x40
    else if c < 0xC0 then 0x20
    else if c < 0xC2 then 8
    else if c < 0xE0 then 2
    else if c == 0xE0 then 10
    else if c < 0xED then 3
    else if c == 0xED then 4
    else if c < 0xF0 then 3
    else if c == 0xF0 then 11
    else if c < 0xF4 then 6
    else if c == 0xF4 then 5
    else 8
  }

  predicate InRange(c: Byte, mask: bv8) {
    GetRange(c) & mask != 0
  }

  /** The bits `(0xFF >> type) & c` that a lead byte contributes. */
  function LeadBits(range: bv8, c: Byte): nat {
    match range
    case 2 => Low(c)
    case 3 => c % 32
    case 4 => c % 16
    case 5 => c % 8
    case 6 => c % 4
    case _ => 0
  }

  /** How many bytes `Decode` takes after a lead byte of the given class. */
  function TailCount(range: bv8): nat {
    match range
    case 2 => 1
    case 3 => 2
    case 4 => 2
    case 10 => 2
    case 5 => 3
    case 6 => 3
    case 11 => 3
    case _ => 0
  }

  /** The mask the first trailing byte must meet. */
  function SecondMask(range: bv8): bv8 {
    match range
    case 4 => 0x50
    case 5 => 0x10
    case 10 => 0x20
    case 11 => 0x60
    case _ => 0x70
  }

  /** The outcome of taking one code point: the verdict, the code point and the bytes taken. */
  datatype Decoded = Decoded(ok: bool, cp: int, len: nat)

  /** What `UTF8::Decode` does at `pos`: every trailing byte is taken even after one has failed. */
  function DecodeAt(s: seq<Byte>, pos: nat): (d: Decoded)
    ensures 1 <= d.len <= 4
  {
    var c := At(s, pos);
    if c < 0x80 then Decoded(true, c, 1)
    else
      var r := GetRange(c);
      var t1, t2, t3 := At(s, pos + 1), At(s, pos + 2), At(s, pos + 3);
      var cp1 := LeadBits(r, c) * 64 + Low(t1);
      match TailCount(r)
      case 0 => Decoded(false, 0, 1)
      case 1 => Decoded(InRange(t1, SecondMask(r)), cp1, 2)
      case 2 => Decoded(InRange(t1, SecondMask(r)) && InRange(t2, 0x70), cp1 * 64 + Low(t2), 3)
      case _ => Decoded(InRange(t1, SecondMask(r)) && InRange(t2, 0x70) && InRange(t3, 0x70),
                        (cp1 * 64 + Low(t2)) * 64 + Low(t3), 4)
  }

  /** Repeated `Decode` until the text is used up, or None at the first failure. */
  function DecodeAll(s: seq<Byte>): Option<seq<nat>>
    decreases |s|
  {
    if s == [] then Some([])
    else
      var d := DecodeAt(s, 0);
      if !d.ok || d.len > |s| then None
      else
        match DecodeAll(s[d.len..])
        case None => None
        case Some(rest) => Some([d.cp] + rest)
  }

  // ---- What the masks mean ----

  lemma MaskMeaning(c: Byte)
    ensures InRange(c, 0x70) <==> IsTail(c)
    ensures InRange(c, 0x50) <==> 0x80 <= c <= 0x9F
    ensures InRange(c, 0x10) <==> 0x80 <= c <= 0x8F
    ensures InRange(c, 0x20) <==> 0xA0 <= c <= 0xBF
    ensures InRange(c, 0x60) <==> 0x90 <= c <= 0xBF
  {
    assert InRange(c, 0x70) == IsTail(c);
  }

  /** The table-driven decoder accepts exactly the UTF8-char production, and never one that
      runs past the end of the text. */
  lemma DecodeAcceptsUtf8Char(s: seq<Byte>, pos: nat)
    requires pos < |s|
    ensures var d := DecodeAt(s, pos);
            d.ok <==> pos + d.len <= |s| && IsUtf8Char(s[pos..pos + d.len])
  {
    MaskMeaning(At(s, pos + 1));
    MaskMeaning(At(s, pos + 2));
    MaskMeaning(At(s, pos + 3));
  }

  lemma JoinSplit(a: nat, b: nat)
    requires b < 64
    ensures Low(a * 64 + b) == b && High(a * 64 + b) == a
  {
  }

  lemma TailBits(t: Byte)
    requires IsTail(t)
    ensures Low(t) == t - 0x80
  {
  }

  lemma JoinTwo(s: seq<Byte>, pos: nat)
    requires pos + 2 <= |s| && IsUtf8Char(s[pos..pos + 2])
    ensures var d := DecodeAt(s, pos);
            0x80 <= d.cp <= 0x7FF && Encode(d.cp) == s[pos..pos + 2]
  {
    TailBits(s[pos + 1]);
    assert GetRange(s[pos]) == 2;
    assert LeadBits(2, s[pos]) == s[pos] - 0xC0;
    var a: int, b: int := s[pos] - 0xC0, s[pos + 1] - 0x80;
    JoinSplit(a, b);
    assert DecodeAt(s, pos).cp == a * 64 + b;
  }

  lemma LeadThree(b: Byte)
    requires 0xE0 <= b <= 0xEF
    ensures LeadBits(GetRange(b), b) == b - 0xE0 && TailCount(GetRange(b)) == 2
  {
  }

  lemma EncodeThree(a: nat, b: nat, c: nat)
    requires a < 16 && b < 64 && c < 64 && a * 64 + b >= 32 && !(864 <= a * 64 + b < 896)
    ensures var cp := (a * 64 + b) * 64 + c;
            && 0x800 <= cp <= 0xFFFF && !(0xD800 <= cp < 0xE000)
            && Encode(cp) == [0xE0 + a, 0x80 + b, 0x80 + c]
  {
    hide Low, High, IsUtf8Char;
    JoinSplit(a, b);
    JoinSplit(a * 64 + b, c);
  }

  lemma JoinThree(s: seq<Byte>, pos: nat)
    requires pos + 3 <= |s| && IsUtf8Char(s[pos..pos + 3])
    ensures var d := DecodeAt(s, pos);
            && 0x800 <= d.cp <= 0xFFFF && !(0xD800 <= d.cp < 0xE000)
            && Encode(d.cp) == s[pos..pos + 3]
  {
    hide Encode, GetRange, LeadBits, TailCount, SecondMask, InRange, Low;
    var a: int, b: int, c: int := s[pos] - 0xE0, s[pos + 1] - 0x80, s[pos + 2] - 0x80;
    TailBits(s[pos + 1]);
    TailBits(s[pos + 2]);
    LeadThree(s[pos]);
    EncodeThree(a, b, c);
    assert DecodeAt(s, pos).cp == (a * 64 + b) * 64 + c;
  }

  lemma LeadFour(b: Byte)
    requires 0xF0 <= b <= 0xF4
    ensures LeadBits(GetRange(b), b) == b - 0xF0 && TailCount(GetRange(b)) == 3
  {
  }

  lemma EncodeFour(a: nat, b: nat, c: nat, e: nat)
    requires a < 5 && b < 64 && c < 64 && e < 64 && 16 <= a * 64 + b < 272
    ensures var cp := ((a * 64 + b) * 64 + c) * 64 + e;
            0x10000 <= cp <= 0x10FFFF && Encode(cp) == [0xF0 + a, 0x80 + b, 0x80 + c, 0x80 + e]
  {
    hide Low, High, IsUtf8Char;
    JoinSplit(a, b);
    JoinSplit(a * 64 + b, c);
    JoinSplit((a * 64 + b) * 64 + c, e);
  }

  lemma JoinFour(s: seq<Byte>, pos: nat)
    requires pos + 4 <= |s| && IsUtf8Char(s[pos..pos + 4])
    ensures var d := DecodeAt(s, pos);
            0x10000 <= d.cp <= 0x10FFFF && Encode(d.cp) == s[pos..pos + 4]
  {
    hide Encode, GetRange, LeadBits, TailCount, SecondMask, InRange, Low;
    var a: int, b: int, c: int, e: int := s[pos] - 0xF0, s[pos + 1] - 0x80, s[pos + 2] - 0x80, s[pos + 3] - 0x80;
    TailBits(s[pos + 1]);
    TailBits(s[pos + 2]);
    TailBits(s[pos + 3]);
    LeadFour(s[pos]);
    EncodeFour(a, b, c, e);
    assert DecodeAt(s, pos).cp == ((a * 64 + b) * 64 + c) * 64 + e;
  }

  /** Decoding an accepted sequence gives a scalar value whose encoding is that sequence. */
  lemma DecodeThenEncode(s: seq<Byte>, pos: nat)
    requires pos < |s| && DecodeAt(s, pos).ok
    ensures var d := DecodeAt(s, pos);
            && pos + d.len <= |s|
            && (0 <= d.cp < 0xD800 || 0xE000 <= d.cp <= 0x10FFFF)
            && Encode(d.cp) == s[pos..pos + d.len]
  {
    DecodeAcceptsUtf8Char(s, pos);
    match DecodeAt(s, pos).len
    case 1 =>
    case 2 => JoinTwo(s, pos);
    case 3 => JoinThree(s, pos);
    case 4 => JoinFour(s, pos);
  }

  lemma DecodePrefix(c: seq<Byte>, s: seq<Byte>, pos: nat)
    requires IsUtf8Char(c) && Occurs(c, s, pos)
    ensures DecodeAt(s, pos).ok && DecodeAt(s, pos).len == |c|
  {
    assert forall i :: 0 <= i < |c| ==> At(s, pos + i) == c[i];
    MaskMeaning(At(s, pos + 1));
    MaskMeaning(At(s, pos + 2));
    MaskMeaning(At(s, pos + 3));
  }

  /** Encoding a scalar value and decoding it in any context gives it back. */
  lemma EncodeThenDecode(cp: Scalar, s: seq<Byte>, pos: nat)
    requires Occurs(Encode(cp), s, pos)
    ensures DecodeAt(s, pos) == Decoded(true, cp, |Encode(cp)|)
  {
    var e := Encode(cp);
    assert forall i :: 0 <= i < |e| ==> At(s, pos + i) == e[i];
    DecodePrefix(e, s, pos);
    if cp > 0x7F {
      LeadOfEncoding(cp);
      TailBits(e[1]);
      if |e| > 2 {
        TailBits(e[2]);
        if |e| > 3 {
          TailBits(e[3]);
        }
      }
    }
  }

  lemma LeadOfEncoding(cp: Scalar)
    requires cp > 0x7F
    ensures var e := Encode(cp);
            var lead := LeadBits(GetRange(e[0]), e[0]);
            match |e|
            case 2 => lead == High(cp)
            case 3 => lead == High(High(cp))
            case _ => lead == High(High(High(cp)))
  {
    var lead := Encode(cp)[0];
    if cp > 0xFFFF {
      LeadFour(lead);
    } else if cp > 0x7FF {
      LeadThree(lead);
    }
  }

  // ---- Which code point a sequence stands for ----

  function XBits(b: Byte, mark: int): int {
    b - mark
  }

  /** The table of section 3 of RFC 3629: the x bits of the bytes, most significant first. */
  function CodePoint(c: seq<Byte>): int
    requires IsUtf8Char(c)
  {
    match |c|
    case 1 => c[0]
    case 2 => XBits(c[0], 0xC0) * 0x40 + XBits(c[1], 0x80)
    case 3 => XBits(c[0], 0xE0) * 0x1000 + XBits(c[1], 0x80) * 0x40 + XBits(c[2], 0x80)
    case _ => XBits(c[0], 0xF0) * 0x4_0000 + XBits(c[1], 0x80) * 0x1000 + XBits(c[2], 0x80) * 0x40 + XBits(c[3], 0x80)
  }

  /** A scalar value is encoded as the sequence that the table gives it. */
  lemma EncodeFollowsTable(cp: Scalar)
    ensures CodePoint(Encode(cp)) == cp
  {
    hide IsUtf8Char;
    assert High(cp) * 64 + Low(cp) == cp;
    assert High(High(cp)) * 64 + Low(High(cp)) == High(cp);
    assert High(High(High(cp))) * 64 + Low(High(High(cp))) == High(High(cp));
  }

  /** An accepted sequence is decoded as the table says. */
  lemma DecodeFollowsTable(s: seq<Byte>, pos: nat)
    requires pos < |s| && DecodeAt(s, pos).ok
    ensures var d := DecodeAt(s, pos);
            pos + d.len <= |s| && IsUtf8Char(s[pos..pos + d.len]) && d.cp == CodePoint(s[pos..pos + d.len])
  {
    hide DecodeAt, CodePoint, Encode;
    DecodeThenEncode(s, pos);
    EncodeFollowsTable(DecodeAt(s, pos).cp);
  }

  /** Byte order: the first difference decides, and neither is a prefix of the other. */
  ghost predicate Precedes(a: seq<Byte>, b: seq<Byte>) {
    exists i :: 0 <= i < |a| && i < |b| && a[i] < b[i] && a[..i] == b[..i]
  }

  lemma DiffersAt(a: seq<Byte>, b: seq<Byte>, i: nat)
    requires i < |a| && i < |b| && a[i] < b[i] && forall k :: 0 <= k < i ==> a[k] == b[k]
    ensures Precedes(a, b)
  {
    assert a[..i] == b[..i];
  }

  /** Longer characters have greater first bytes and greater code points. */
  lemma TableKeepsOrder(a: seq<Byte>, b: seq<Byte>)
    requires IsUtf8Char(a) && IsUtf8Char(b) && CodePoint(a) < CodePoint(b)
    ensures |a| <= |b| && a[0] <= b[0] && Precedes(a, b)
  {
    hide Precedes;
    if a[0] != b[0] {
      DiffersAt(a, b, 0);
    } else if a[1] != b[1] {
      DiffersAt(a, b, 1);
    } else if a[2] != b[2] {
      DiffersAt(a, b, 2);
    } else {
      DiffersAt(a, b, 3);
    }
  }

  /** Section 1 of RFC 3629: the encodings sort as the scalar values do. */
  lemma EncodeKeepsOrder(x: Scalar, y: Scalar)
    requires x < y
    ensures Precedes(Encode(x), Encode(y))
  {
    hide Precedes, Encode, CodePoint;
    EncodeFollowsTable(x);
    EncodeFollowsTable(y);
    TableKeepsOrder(Encode(x), Encode(y));
  }

  // ---- Whole texts ----

  /** The central law: the decoded code points of an encoded sequence are that sequence. */
  lemma {:induction false} DecodeAllInvertsEncodeAll(cps: seq<Scalar>)
    ensures DecodeAll(EncodeAll(cps)) == Some(cps)
  {
    if cps != [] {
      var first, rest := Encode(cps[0]), EncodeAll(cps[1..]);
      var s := EncodeAll(cps);
      assert s == first + rest;
      EncodeThenDecode(cps[0], s, 0);
      assert s[|first|..] == rest;
      DecodeAllInvertsEncodeAll(cps[1..]);
      assert [cps[0]] + cps[1..] == cps;
    }
  }

  /** Only the length `Decode` takes can begin a split of `s` into characters. */
  lemma FirstCharLength(s: seq<Byte>, n: nat)
    requires 1 <= n <= |s| && IsUtf8Char(s[..n])
    ensures DecodeAt(s, 0).ok && DecodeAt(s, 0).len == n
  {
    assert s[0..n] == s[..n];
    DecodePrefix(s[..n], s, 0);
  }

  lemma WellFormedStep(s: seq<Byte>)
    requires s != []
    ensures var d := DecodeAt(s, 0);
            IsWellFormed(s) <==> d.ok && d.len <= |s| && IsWellFormed(s[d.len..])
  {
    var d := DecodeAt(s, 0);
    if IsWellFormed(s) {
      var n :| 1 <= n <= |s| && IsUtf8Char(s[..n]) && IsWellFormed(s[n..]);
      FirstCharLength(s, n);
    }
    if d.ok && d.len <= |s| && IsWellFormed(s[d.len..]) {
      DecodeAcceptsUtf8Char(s, 0);
      assert s[0..d.len] == s[..d.len];
    }
  }

  /** A text is accepted as a whole exactly when it is well-formed. */
  lemma {:induction false} DecodeAllAcceptsWellFormed(s: seq<Byte>)
    ensures DecodeAll(s).Some? <==> IsWellFormed(s)
    decreases |s|
  {
    if s != [] {
      WellFormedStep(s);
      var d := DecodeAt(s, 0);
      if d.ok && d.len <= |s| {
        DecodeAllAcceptsWellFormed(s[d.len..]);
      }
    }
  }

  ghost predicate AllScalars(cps: seq<int>) {
    forall i :: 0 <= i < |cps| ==> 0 <= cps[i] < 0xD800 || 0xE000 <= cps[i] <= 0x10FFFF
  }

  /** Re-encoding what was decoded from an accepted text gives the text. */
  lemma {:induction false} EncodeAllInvertsDecodeAll(s: seq<Byte>)
    requires DecodeAll(s).Some?
    ensures AllScalars(DecodeAll(s).value) && EncodeAll(DecodeAll(s).value) == s
    decreases |s|
  {
    if s != [] {
      var d := DecodeAt(s, 0);
      DecodeThenEncode(s, 0);
      EncodeAllInvertsDecodeAll(s[d.len..]);
      var rest := DecodeAll(s[d.len..]).value;
      assert DecodeAll(s).value[1..] == rest;
      assert s == s[0..d.len] + s[d.len..];
    }
  }

  // ---- The stream functions ----

  /** The bytes a stream yields when `n` of them are taken. */
  function Taken(s: seq<Byte>, pos: nat, n: nat): seq<Byte> {
    seq<Byte>(n, i requires 0 <= i < n => At(s, pos + i))
  }

  /** COPY followed by TRANS(mask) in `UTF8::Decode`. */
  method DecodeTrail(inp: InStream, cp: nat, mask: bv8) returns (ok: bool, cp': nat)
    modifies inp
    ensures inp.pos == old(inp.pos) + 1
    ensures var c := At(inp.src, old(inp.pos));
            cp' == cp * 64 + Low(c) && ok == InRange(c, mask)
  {
    var c := inp.Take();
    cp' := cp * 64 + Low(c);
    ok := InRange(c, mask);
  }

  method Decode(inp: InStream) returns (ok: bool, cp: nat)
    modifies inp
    ensures var d := DecodeAt(inp.src, old(inp.pos));
            ok == d.ok && cp == d.cp && inp.pos == old(inp.pos) + d.len
  {
    var c := inp.Take();
    if c < 0x80 {
      return true, c;
    }
    var range := GetRange(c);
    var n := TailCount(range);
    if n == 0 {
      return false, 0;
    }
    ok, cp := DecodeTrail(inp, LeadBits(range, c), SecondMask(range));
    if n >= 2 {
      var okTail;
      okTail, cp := DecodeTrail(inp, cp, 0x70);
      ok := ok && okTail;
    }
    if n >= 3 {
      var okTail;
      okTail, cp := DecodeTrail(inp, cp, 0x70);
      ok := ok && okTail;
    }
  }

  /** COPY followed by TRANS(mask) in `UTF8::Validate`. */
  method CopyTrail(inp: InStream, os: OutStream, mask: bv8) returns (ok: bool)
    modifies inp, os
    ensures inp.pos == old(inp.pos) + 1
    ensures os.out == old(os.out) + [At(inp.src, old(inp.pos))]
    ensures ok == InRange(At(inp.src, old(inp.pos)), mask)
  {
    var c := inp.Take();
    os.Put(c);
    ok := InRange(c, mask);
  }

  /** `UTF8::Validate`: the verdict and length of `Decode`, and a copy of exactly the bytes taken. */
  method Validate(inp: InStream, os: OutStream) returns (ok: bool)
    modifies inp, os
    ensures var d := DecodeAt(inp.src, old(inp.pos));
            && ok == d.ok
            && inp.pos == old(inp.pos) + d.len
            && os.out == old(os.out) + Taken(inp.src, old(inp.pos), d.len)
  {
    var c := inp.Take();
    os.Put(c);
    if c < 0x80 {
      return true;
    }
    var range := GetRange(c);
    var n := TailCount(range);
    if n == 0 {
      return false;
    }
    ok := CopyTrail(inp, os, SecondMask(range));
    if n >= 2 {
      var okTail := CopyTrail(inp, os, 0x70);
      ok := ok && okTail;
    }
    if n >= 3 {
      var okTail := CopyTrail(inp, os, 0x70);
      ok := ok && okTail;
    }
  }
}
