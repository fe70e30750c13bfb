/**
 JSON Pointer texts: what `GenericPointer::Parse` accepts, in string and URI
 fragment form, and what `Stringify` prints, with the round trips between them.
 */
module Pointer {
  import opened Bytes
  import Utf8

  type Text = seq<Byte>

  const ONE: Byte := 0x31

  datatype ErrorCode = TokenMustBeginWithSolidus | InvalidEscape | InvalidPercentEncoding | CharacterMustPercentEncode

  // ---- Characters ----

  /** Section 2.3 of RFC 3986: everything but the unreserved characters. */
  predicate NeedPercentEncode(c: Byte) {
    !(0x30 <= c <= 0x39 || 0x41 <= c <= 0x5A || 0x61 <= c <= 0x7A || c == MINUS || c == DOT || c == 0x5F || c == TILDE)
  }

  function HexDigitOf(n: nat): Byte
    requires n < 16
  {
    if n < 10 then 0x30 + n else 0x41 + (n - 10)
  }

  /** `PercentDecodeStream::Take`, where it succeeds. */
  function Triplet(s: Text, i: nat): Option<Byte> {
    if i + 3 <= |s| && s[i] == PERCENT && HexDigit(s[i + 1]).Some? && HexDigit(s[i + 2]).Some? then
      Some(HexDigit(s[i + 1]).value * 16 + HexDigit(s[i + 2]).value)
    else None
  }

  /** The bytes of the triplets that follow each other from `i`, at most `n`. */
  function Triplets(s: Text, i: nat, n: nat): (d: Text)
    ensures |d| <= n && i + 3 * |d| <= i + 3 * n && (d != [] ==> i + 3 * |d| <= |s|)
    decreases n
  {
    if n == 0 || Triplet(s, i).None? then [] else [Triplet(s, i).value] + Triplets(s, i + 3, n - 1)
  }

  /** A percent-encoded UTF-8 character at `i`. */
  function PercentChar(s: Text, i: nat): (r: Option<Text>)
    ensures r.Some? ==> 1 <= |r.value| <= 4 && i + 3 * |r.value| <= |s|
  {
    var d := Triplets(s, i, 4);
    var c := Utf8.DecodeAt(d, 0);
    if c.ok && c.len <= |d| then Some(d[..c.len]) else None
  }

  // ---- Parsing ----

  /** One character of a name: the bytes it stands for and where the next one starts. */
  datatype Piece = Good(bytes: Text, next: nat) | Bad(code: ErrorCode, offset: nat)

  /** The escapes `~0` and `~1`, after `c` has been read. */
  function Unescape(s: Text, i: nat, c: Byte): Piece {
    if c != TILDE then Good([c], i)
    else if i < |s| && s[i] == ZERO then Good([TILDE], i + 1)
    else if i < |s| && s[i] == ONE then Good([SLASH], i + 1)
    else Bad(InvalidEscape, i)
  }

  function Char(s: Text, i: nat, fragment: bool): (p: Piece)
    requires i < |s|
    ensures p.Good? ==> i < p.next <= |s| && 1 <= |p.bytes| <= p.next - i
  {
    if fragment && s[i] == PERCENT then
      match PercentChar(s, i)
      case None => Bad(InvalidPercentEncoding, i)
      case Some(bytes) =>
        if |bytes| == 1 then Unescape(s, i + 3, bytes[0]) else Good(bytes, i + 3 * |bytes|)
    else if fragment && NeedPercentEncode(s[i]) then Bad(CharacterMustPercentEncode, i)
    else Unescape(s, i + 1, s[i])
  }

  /** A name, up to the next solidus or the end. */
  function Name(s: Text, i: nat, fragment: bool): (p: Piece)
    requires i <= |s|
    ensures p.Good? ==> i <= p.next <= |s| && |p.bytes| <= p.next - i && (p.next < |s| ==> s[p.next] == SLASH)
    decreases |s| - i
  {
    if i == |s| || s[i] == SLASH then Good([], i)
    else
      match Char(s, i, fragment)
      case Bad(code, offset) => Bad(code, offset)
      case Good(bytes, next) =>
        match Name(s, next, fragment)
        case Bad(code, offset) => Bad(code, offset)
        case Good(more, end) => Good(bytes + more, end)
  }

  datatype Parsed = Names(names: seq<Text>) | Failed(code: ErrorCode, offset: nat)

  function Tokens(s: Text, i: nat, fragment: bool): Parsed
    requires i <= |s| && (i < |s| ==> s[i] == SLASH)
    decreases |s| - i
  {
    if i == |s| then Names([])
    else
      match Name(s, i + 1, fragment)
      case Bad(code, offset) => Failed(code, offset)
      case Good(name, next) =>
        match Tokens(s, next, fragment)
        case Failed(code, offset) => Failed(code, offset)
        case Names(rest) => Names([name] + rest)
  }

  /** A leading number sign selects the URI fragment form. */
  function Parse(s: Text): Parsed {
    var fragment := |s| > 0 && s[0] == HASH;
    var i := if fragment then 1 else 0;
    if i != |s| && s[i] != SLASH then Failed(TokenMustBeginWithSolidus, i) else Tokens(s, i, fragment)
  }

  // ---- Printing ----

  function EscapeByte(b: Byte): Text {
    if b == TILDE then [TILDE, ZERO] else if b == SLASH then [TILDE, ONE] else [b]
  }

  function EscapeName(name: Text): Text {
    if name == [] then [] else EscapeByte(name[0]) + EscapeName(name[1..])
  }

  /** Section 5 of RFC 6901. */
  function StringForm(names: seq<Text>): Text {
    if names == [] then [] else [SLASH] + EscapeName(names[0]) + StringForm(names[1..])
  }

  function PercentEncode(bytes: Text): (r: Text)
    ensures |r| == 3 * |bytes|
  {
    if bytes == [] then []
    else [PERCENT, HexDigitOf(bytes[0] / 16), HexDigitOf(bytes[0] % 16)] + PercentEncode(bytes[1..])
  }

  function FragmentName(name: Text): Option<Text>
    decreases |name|
  {
    if name == [] then Some([])
    else
      var b := name[0];
      if b == TILDE || b == SLASH || !NeedPercentEncode(b) then
        match FragmentName(name[1..])
        case None => None
        case Some(t) => Some(EscapeByte(b) + t)
      else
        var d := Utf8.DecodeAt(name, 0);
        if !d.ok || d.len > |name| then None
        else
          match FragmentName(name[d.len..])
          case None => None
          case Some(t) => Some(PercentEncode(name[..d.len]) + t)
  }

  function FragmentNames(names: seq<Text>): Option<Text> {
    if names == [] then Some([])
    else
      match FragmentName(names[0])
      case None => None
      case Some(t) =>
        match FragmentNames(names[1..])
        case None => None
        case Some(rest) => Some([SLASH] + t + rest)
  }

  /** Section 6 of RFC 6901, or nothing where a name is not UTF-8. */
  function FragmentForm(names: seq<Text>): Option<Text> {
    match FragmentNames(names)
    case None => None
    case Some(t) => Some([HASH] + t)
  }

  // ---- String round trip ----

  lemma NameStep(s: Text, i: nat, fragment: bool, bytes: Text, next: nat, more: Text, end: nat)
    requires i < |s| && s[i] != SLASH && Char(s, i, fragment) == Good(bytes, next) && next <= |s|
    requires Name(s, next, fragment) == Good(more, end)
    ensures Name(s, i, fragment) == Good(bytes + more, end)
  {
    hide Char;
  }

  lemma EscapedCharReadBack(pre: Text, b: Byte, post: Text)
    ensures Char(pre + EscapeByte(b) + post, |pre|, false) == Good([b], |pre| + |EscapeByte(b)|)
  {
    var s, e := pre + EscapeByte(b) + post, EscapeByte(b);
    assert s[|pre|] == e[0];
    assert |e| > 1 ==> s[|pre| + 1] == e[1];
  }

  /** Read back one more character in front of a name. */
  lemma EscapedStep(pre: Text, b: Byte, t: Text, more: Text, post: Text)
    requires var e := EscapeByte(b);
             Name((pre + e) + t + post, |pre + e|, false) == Good(more, |pre + e| + |t|)
    ensures Name(pre + (EscapeByte(b) + t) + post, |pre|, false) == Good([b] + more, |pre| + |EscapeByte(b) + t|)
  {
    hide Char, Name;
    var e := EscapeByte(b);
    var s := pre + (e + t) + post;
    assert s == (pre + e) + t + post && s == pre + e + (t + post);
    EscapedCharReadBack(pre, b, t + post);
    assert s[|pre|] == e[0];
    NameStep(s, |pre|, false, [b], |pre + e|, more, |pre + e| + |t|);
  }

  lemma EmptyName(pre: Text, post: Text, fragment: bool)
    requires post == [] || post[0] == SLASH
    ensures Name(pre + post, |pre|, fragment) == Good([], |pre|)
  {
  }

  /** An escaped name is read back, up to the solidus or the end after it. */
  lemma {:induction false} NameReadBack(pre: Text, name: Text, post: Text)
    requires post == [] || post[0] == SLASH
    ensures Name(pre + EscapeName(name) + post, |pre|, false) == Good(name, |pre| + |EscapeName(name)|)
    decreases |name|
  {
    hide Name, EscapeByte;
    if name == [] {
      assert pre + [] + post == pre + post;
      EmptyName(pre, post, false);
    } else {
      NameReadBack(pre + EscapeByte(name[0]), name[1..], post);
      EscapedStep(pre, name[0], EscapeName(name[1..]), name[1..], post);
      assert [name[0]] + name[1..] == name;
    }
  }

  lemma StringFormStarts(names: seq<Text>)
    ensures names != [] ==> StringForm(names) != [] && StringForm(names)[0] == SLASH
    ensures names == [] ==> StringForm(names) == []
  {
  }

  lemma {:induction false} TokensReadBack(pre: Text, names: seq<Text>)
    ensures var s := pre + StringForm(names);
            (|pre| < |s| ==> s[|pre|] == SLASH) && Tokens(s, |pre|, false) == Names(names)
    decreases |names|
  {
    hide Name, EscapeName;
    var s := pre + StringForm(names);
    StringFormStarts(names);
    if names != [] {
      var name, post := EscapeName(names[0]), StringForm(names[1..]);
      StringFormStarts(names[1..]);
      assert s == (pre + [SLASH]) + name + post;
      NameReadBack(pre + [SLASH], names[0], post);
      assert s == (pre + [SLASH] + name) + post;
      TokensReadBack(pre + [SLASH] + name, names[1..]);
    }
  }

  /** The string form of any names reads back as those names. */
  lemma StringRoundTrip(names: seq<Text>)
    ensures Parse(StringForm(names)) == Names(names)
  {
    hide Tokens, StringForm;
    StringFormStarts(names);
    TokensReadBack([], names);
    assert [] + StringForm(names) == StringForm(names);
  }

  // ---- Fragment round trip ----

  lemma HexInverse(n: nat)
    requires n < 16
    ensures HexDigit(HexDigitOf(n)) == Some(n)
  {
  }

  lemma TripletReadBack(pre: Text, b: Byte, post: Text)
    ensures Triplet(pre + [PERCENT, HexDigitOf(b / 16), HexDigitOf(b % 16)] + post, |pre|) == Some(b)
  {
    hide HexDigit, HexDigitOf;
    HexInverse(b / 16);
    HexInverse(b % 16);
    var s := pre + [PERCENT, HexDigitOf(b / 16), HexDigitOf(b % 16)] + post;
    assert s[|pre|] == PERCENT && s[|pre| + 1] == HexDigitOf(b / 16) && s[|pre| + 2] == HexDigitOf(b % 16);
  }

  lemma {:induction false} TripletsReadBack(pre: Text, bytes: Text, post: Text, n: nat)
    requires |bytes| <= n
    ensures var d := Triplets(pre + PercentEncode(bytes) + post, |pre|, n);
            |bytes| <= |d| && d[..|bytes|] == bytes
    decreases |bytes|
  {
    hide Triplet, HexDigitOf;
    if bytes != [] {
      var s := pre + PercentEncode(bytes) + post;
      var t := [PERCENT, HexDigitOf(bytes[0] / 16), HexDigitOf(bytes[0] % 16)];
      var rest := PercentEncode(bytes[1..]);
      assert s == pre + t + (rest + post);
      TripletReadBack(pre, bytes[0], rest + post);
      assert s == (pre + t) + rest + post;
      TripletsReadBack(pre + t, bytes[1..], post, n - 1);
      assert [bytes[0]] + bytes[1..] == bytes;
    }
  }

  lemma PercentCharReadBack(pre: Text, ch: Text, post: Text)
    requires Utf8.IsUtf8Char(ch) && |ch| <= 4
    ensures PercentChar(pre + PercentEncode(ch) + post, |pre|) == Some(ch)
  {
    hide Utf8.DecodeAt, Triplets, PercentEncode, Utf8.IsUtf8Char;
    TripletsReadBack(pre, ch, post, 4);
    var d := Triplets(pre + PercentEncode(ch) + post, |pre|, 4);
    assert d[0..0 + |ch|] == d[..|ch|];
    Utf8.DecodePrefix(ch, d, 0);
  }

  /** A percent-encoded character is read back as one piece. */
  lemma EncodedCharReadBack(pre: Text, ch: Text, post: Text)
    requires Utf8.IsUtf8Char(ch) && 1 <= |ch| <= 4 && (|ch| == 1 ==> ch[0] != TILDE)
    ensures Char(pre + PercentEncode(ch) + post, |pre|, true) == Good(ch, |pre| + 3 * |ch|)
  {
    hide PercentChar, Utf8.IsUtf8Char, PercentEncode;
    PercentCharReadBack(pre, ch, post);
    EncodeStarts(ch);
    var s := pre + PercentEncode(ch) + post;
    assert s[|pre|] == PERCENT && |pre| + 3 * |ch| <= |s|;
    assert |ch| == 1 ==> [ch[0]] == ch;
  }

  lemma PlainCharReadBack(pre: Text, b: Byte, post: Text)
    requires b == TILDE || b == SLASH || !NeedPercentEncode(b)
    ensures Char(pre + EscapeByte(b) + post, |pre|, true) == Good([b], |pre| + |EscapeByte(b)|)
  {
    var s, e := pre + EscapeByte(b) + post, EscapeByte(b);
    assert s[|pre|] == e[0];
    assert |e| > 1 ==> s[|pre| + 1] == e[1];
  }

  lemma FirstChar(name: Text)
    requires name != [] && Utf8.DecodeAt(name, 0).ok && Utf8.DecodeAt(name, 0).len <= |name|
    ensures Utf8.IsUtf8Char(name[..Utf8.DecodeAt(name, 0).len])
  {
    Utf8.DecodeAcceptsUtf8Char(name, 0);
    var n := Utf8.DecodeAt(name, 0).len;
    assert name[0..0 + n] == name[..n];
  }

  lemma PlainStep(pre: Text, b: Byte, t: Text, more: Text, post: Text)
    requires b == TILDE || b == SLASH || !NeedPercentEncode(b)
    requires var e := EscapeByte(b);
             Name((pre + e) + t + post, |pre + e|, true) == Good(more, |pre + e| + |t|)
    ensures Name(pre + (EscapeByte(b) + t) + post, |pre|, true) == Good([b] + more, |pre| + |EscapeByte(b) + t|)
  {
    hide Char, Name, NeedPercentEncode;
    var e := EscapeByte(b);
    var s := pre + (e + t) + post;
    assert s == (pre + e) + t + post && s == pre + e + (t + post);
    PlainCharReadBack(pre, b, t + post);
    assert s[|pre|] == e[0];
    NameStep(s, |pre|, true, [b], |pre + e|, more, |pre + e| + |t|);
  }

  lemma EncodedStep(pre: Text, ch: Text, t: Text, more: Text, post: Text)
    requires Utf8.IsUtf8Char(ch) && 1 <= |ch| <= 4 && (|ch| == 1 ==> ch[0] != TILDE)
    requires var e := PercentEncode(ch);
             Name((pre + e) + t + post, |pre + e|, true) == Good(more, |pre + e| + |t|)
    ensures Name(pre + (PercentEncode(ch) + t) + post, |pre|, true) == Good(ch + more, |pre| + |PercentEncode(ch) + t|)
  {
    hide Char, Name, PercentEncode, Utf8.IsUtf8Char;
    var e := PercentEncode(ch);
    var s := pre + (e + t) + post;
    assert s == (pre + e) + t + post && s == pre + e + (t + post);
    EncodedCharReadBack(pre, ch, t + post);
    EncodeStarts(ch);
    assert s[|pre|] == e[0];
    NameStep(s, |pre|, true, ch, |pre + e|, more, |pre + e| + |t|);
  }

  lemma {:induction false} FragmentNameReadBack(pre: Text, name: Text, post: Text)
    requires FragmentName(name).Some? && (post == [] || post[0] == SLASH)
    ensures var t := FragmentName(name).value;
            Name(pre + t + post, |pre|, true) == Good(name, |pre| + |t|)
    decreases |name|
  {
    hide Name, Utf8.DecodeAt, PercentEncode, NeedPercentEncode, Utf8.IsUtf8Char, EscapeByte;
    if name == [] {
      assert pre + [] + post == pre + post;
      EmptyName(pre, post, true);
    } else {
      var b := name[0];
      if b == TILDE || b == SLASH || !NeedPercentEncode(b) {
        FragmentNameReadBack(pre + EscapeByte(b), name[1..], post);
        PlainStep(pre, b, FragmentName(name[1..]).value, name[1..], post);
        assert [b] + name[1..] == name;
      } else {
        var n := Utf8.DecodeAt(name, 0).len;
        FirstChar(name);
        FragmentNameReadBack(pre + PercentEncode(name[..n]), name[n..], post);
        EncodedStep(pre, name[..n], FragmentName(name[n..]).value, name[n..], post);
        assert name[..n] + name[n..] == name;
      }
    }
  }

  lemma EncodeStarts(bytes: Text)
    requires bytes != []
    ensures PercentEncode(bytes)[0] == PERCENT
  {
  }

  lemma FragmentNamesStart(names: seq<Text>)
    requires FragmentNames(names).Some?
    ensures var t := FragmentNames(names).value;
            if names == [] then t == [] else t != [] && t[0] == SLASH
  {
  }

  lemma {:induction false} FragmentTokensReadBack(pre: Text, names: seq<Text>)
    requires FragmentNames(names).Some?
    ensures var s := pre + FragmentNames(names).value;
            (|pre| < |s| ==> s[|pre|] == SLASH) && Tokens(s, |pre|, true) == Names(names)
    decreases |names|
  {
    hide Name, FragmentName;
    var s := pre + FragmentNames(names).value;
    FragmentNamesStart(names);
    if names != [] {
      var name, post := FragmentName(names[0]).value, FragmentNames(names[1..]).value;
      FragmentNamesStart(names[1..]);
      assert s == (pre + [SLASH]) + name + post;
      FragmentNameReadBack(pre + [SLASH], names[0], post);
      FragmentTokensReadBack(pre + [SLASH] + name, names[1..]);
    }
  }

  /** The URI fragment form, where it can be printed, reads back as the same names. */
  lemma FragmentRoundTrip(names: seq<Text>)
    requires FragmentForm(names).Some?
    ensures Parse(FragmentForm(names).value) == Names(names)
  {
    hide Tokens, FragmentNames;
    FragmentNamesStart(names);
    FragmentTokensReadBack([HASH], names);
  }

  /** It can be printed exactly when every name is well-formed UTF-8. */
  lemma {:induction false} FragmentNamePrints(name: Text)
    ensures FragmentName(name).Some? <==> Utf8.IsWellFormed(name)
    decreases |name|
  {
    hide Utf8.DecodeAt, Utf8.IsUtf8Char;
    if name != [] {
      Utf8.WellFormedStep(name);
      var b := name[0];
      if b == TILDE || b == SLASH || !NeedPercentEncode(b) {
        AsciiChar(name);
        FragmentNamePrints(name[1..]);
      } else if Utf8.DecodeAt(name, 0).ok && Utf8.DecodeAt(name, 0).len <= |name| {
        FragmentNamePrints(name[Utf8.DecodeAt(name, 0).len..]);
      }
    }
  }

  lemma AsciiChar(name: Text)
    requires name != [] && name[0] < 0x80
    ensures Utf8.DecodeAt(name, 0).ok && Utf8.DecodeAt(name, 0).len == 1
  {
  }

  lemma {:induction false} FragmentPrints(names: seq<Text>)
    ensures FragmentForm(names).Some? <==> forall k :: 0 <= k < |names| ==> Utf8.IsWellFormed(names[k])
    decreases |names|
  {
    hide FragmentName, Utf8.IsWellFormed;
    if names != [] {
      FragmentNamePrints(names[0]);
      FragmentPrints(names[1..]);
      assert forall k :: 0 < k < |names| ==> names[k] == names[1..][k - 1];
    }
  }

  // ---- Counting ----

  function Solidi(s: Text, i: nat): nat
    requires i <= |s|
    decreases |s| - i
  {
    if i == |s| then 0 else (if s[i] == SLASH then 1 else 0) + Solidi(s, i + 1)
  }

  lemma {:induction false} NoSolidusBetween(s: Text, i: nat, j: nat)
    requires i <= j <= |s| && forall k :: i <= k < j ==> s[k] != SLASH
    ensures Solidi(s, i) == Solidi(s, j)
    decreases j - i
  {
    if i < j {
      NoSolidusBetween(s, i + 1, j);
    }
  }

  lemma {:induction false} TripletsHaveNoSolidus(s: Text, i: nat, n: nat, k: nat)
    requires i <= k < i + 3 * |Triplets(s, i, n)|
    ensures s[k] != SLASH
    decreases n
  {
    if k >= i + 3 {
      TripletsHaveNoSolidus(s, i + 3, n - 1, k);
    }
  }

  lemma CharHasNoSolidus(s: Text, i: nat, fragment: bool)
    requires i < |s| && s[i] != SLASH && Char(s, i, fragment).Good?
    ensures forall k :: i <= k < Char(s, i, fragment).next ==> s[k] != SLASH
  {
    hide Utf8.DecodeAt, Triplets;
    if fragment && s[i] == PERCENT {
      forall k | i <= k < i + 3 * |Triplets(s, i, 4)|
        ensures s[k] != SLASH
      {
        TripletsHaveNoSolidus(s, i, 4, k);
      }
    }
  }

  lemma {:induction false} NameHasNoSolidus(s: Text, i: nat, fragment: bool)
    requires i <= |s| && Name(s, i, fragment).Good?
    ensures Solidi(s, i) == Solidi(s, Name(s, i, fragment).next)
    decreases |s| - i
  {
    hide Char;
    if i < |s| && s[i] != SLASH {
      CharHasNoSolidus(s, i, fragment);
      var next := Char(s, i, fragment).next;
      NoSolidusBetween(s, i, next);
      NameHasNoSolidus(s, next, fragment);
    }
  }

  /** There are exactly as many tokens as solidi. */
  lemma {:induction false} TokensAreCounted(s: Text, i: nat, fragment: bool)
    requires i <= |s| && (i < |s| ==> s[i] == SLASH) && Tokens(s, i, fragment).Names?
    ensures |Tokens(s, i, fragment).names| == Solidi(s, i)
    decreases |s| - i
  {
    hide Name;
    if i < |s| {
      NameHasNoSolidus(s, i + 1, fragment);
      TokensAreCounted(s, Name(s, i + 1, fragment).next, fragment);
    }
  }

  // ---- Array indices ----

  /** The index of a name that is not one. */
  const INVALID_INDEX := TWO32 - 1

  predicate AllDigits(name: Text) {
    forall k :: 0 <= k < |name| ==> IsDigit(name[k])
  }

  /** Digits in 32-bit arithmetic, giving up when a step makes the number smaller. */
  function Accumulate(name: Text, k: nat, n: nat): (r: Option<nat>)
    requires k <= |name| && AllDigits(name) && n < TWO32
    ensures r.Some? ==> r.value < TWO32
    decreases |name| - k
  {
    if k == |name| then Some(n)
    else
      var m := (n * 10 + (name[k] - ZERO)) % TWO32;
      if m < n then None else Accumulate(name, k + 1, m)
  }

  predicate IsIndexText(name: Text) {
    name != [] && AllDigits(name) && (|name| > 1 ==> name[0] != ZERO)
  }

  function IndexOf(name: Text): (r: nat)
    ensures r < TWO32
  {
    if !IsIndexText(name) then INVALID_INDEX
    else match Accumulate(name, 0, 0)
      case None => INVALID_INDEX
      case Some(n) => n
  }

  /** The number that the first `j` digits denote. */
  function Number(name: Text, j: nat): nat
    requires j <= |name| && AllDigits(name)
  {
    if j == 0 then 0 else Number(name, j - 1) * 10 + (name[j - 1] - ZERO)
  }

  /** Taking in digit `j` makes the 32-bit number smaller. */
  predicate Drops(name: Text, j: nat)
    requires j < |name| && AllDigits(name)
  {
    Number(name, j + 1) % TWO32 < Number(name, j) % TWO32
  }

  predicate DropsFrom(name: Text, k: nat)
    requires AllDigits(name)
  {
    exists j :: k <= j < |name| && Drops(name, j)
  }

  lemma DigitWraps(n: nat, d: nat)
    ensures (n * 10 + d) % TWO32 == (n % TWO32 * 10 + d) % TWO32
  {
    var q, x := n / TWO32, n % TWO32 * 10 + d;
    assert n * 10 + d == 10 * q * TWO32 + x;
    assert (10 * q * TWO32 + x) % TWO32 == x % TWO32;
  }

  /** The loop gives up exactly when some digit makes the 32-bit number smaller, and otherwise ends
      with the number written, modulo 2^32. */
  lemma {:induction false} AccumulateWraps(name: Text, k: nat)
    requires k <= |name| && AllDigits(name)
    ensures Accumulate(name, k, Number(name, k) % TWO32)
            == if DropsFrom(name, k) then None else Some(Number(name, |name|) % TWO32)
    decreases |name| - k
  {
    if k < |name| {
      var k1 := k + 1;
      DigitWraps(Number(name, k), name[k] - ZERO);
      AccumulateWraps(name, k1);
      assert DropsFrom(name, k) <==> Drops(name, k) || DropsFrom(name, k1) by {
        if j :| k <= j < |name| && Drops(name, j) {
          assert j == k || k1 <= j;
        }
      }
    }
  }

  lemma {:induction false} NumberIsMonotone(name: Text, j: nat, k: nat)
    requires j <= k <= |name| && AllDigits(name)
    ensures Number(name, j) <= Number(name, k)
  {
    if j < k {
      NumberIsMonotone(name, j, k - 1);
    }
  }

  lemma SmallNeverDrops(name: Text, j: nat)
    requires j < |name| && AllDigits(name) && Number(name, |name|) < TWO32
    ensures !Drops(name, j)
  {
    NumberIsMonotone(name, j, j + 1);
    NumberIsMonotone(name, j + 1, |name|);
  }

  /** The index of an index text, whatever number is written. It is that number and marks an element
      exactly when the number is below 2^32 - 1, the value that stands for "not an index". */
  lemma IndexIsExact(name: Text)
    requires IsIndexText(name)
    ensures var n := Number(name, |name|);
            && IndexOf(name) == (if DropsFrom(name, 0) then INVALID_INDEX else n % TWO32)
            && (n < TWO32 ==> !DropsFrom(name, 0))
            && (IndexOf(name) == n <==> n < TWO32)
            && (IndexOf(name) == n && IndexOf(name) != INVALID_INDEX <==> n < INVALID_INDEX)
  {
    hide Accumulate, Drops;
    AccumulateWraps(name, 0);
    assert Number(name, 0) % TWO32 == 0;
    if Number(name, |name|) < TWO32 {
      forall j | 0 <= j < |name|
        ensures !Drops(name, j)
      {
        SmallNeverDrops(name, j);
      }
    }
  }

  /** The digits of 4294967295 fit in 32 bits and are taken for no index. */
  lemma LastIndexIsLost()
    ensures var name: Text := [0x34, 0x32, 0x39, 0x34, 0x39, 0x36, 0x37, 0x32, 0x39, 0x35];
            IsIndexText(name) && Number(name, 10) == 4294967295 && IndexOf(name) == INVALID_INDEX
  {
    var name: Text := [0x34, 0x32, 0x39, 0x34, 0x39, 0x36, 0x37, 0x32, 0x39, 0x35];
    assert Number(name, 3) == 429 by { assert Number(name, 1) == 4; }
    assert Number(name, 6) == 429496 by { assert Number(name, 4) == 4294; }
    assert Number(name, 8) == 42949672;
    IndexIsExact(name);
  }

  /** A number too large is not always noticed: 9999999999 passes for an index. */
  lemma OverflowMissed()
    ensures var name := seq<Byte>(10, _ => NINE);
            IsIndexText(name) && Number(name, 10) == 9999999999 && IndexOf(name) == 1410065407
  {
    var name := seq<Byte>(10, _ => NINE);
    assert Number(name, 3) == 999 by { assert Number(name, 1) == 9; }
    assert Number(name, 6) == 999999 by { assert Number(name, 4) == 9999; }
    assert Number(name, 9) == 999999999 by { assert Number(name, 7) == 9999999; }
    forall j | 0 <= j < 9
      ensures !Drops(name, j)
    {
      NumberIsMonotone(name, j, j + 1);
      NumberIsMonotone(name, j + 1, 9);
    }
    assert !Drops(name, 9);
    IndexIsExact(name);
  }
}
