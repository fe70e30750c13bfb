/**
 `GenericPointer::Parse` with its buffers: one name buffer of as many units as the
 source has, and one token for every solidus. Proved against `Pointer.Parse`.
 */
module PointerParser {
  import opened Bytes
  import opened Pointer
  import Utf8

  datatype Token = Token(start: nat, length: nat, index: nat)

  // ---- Characters ----

  /** The triplets that a percent-decoding stream would take. */
  method TakeTriplets(s: Text, i: nat) returns (d: Text)
    requires i < |s|
    ensures d == Triplets(s, i, 4)
  {
    hide Triplets, Triplet;
    d := [];
    var pos: nat, left: nat := i, 4;
    while left > 0
      invariant Triplets(s, i, 4) == d + Triplets(s, pos, left)
    {
      TripletsStep(s, pos, left, d);
      var b := Triplet(s, pos);
      if b.None? {
        return;
      }
      d := d + [b.value];
      pos, left := pos + 3, left - 1;
    }
    TripletsStep(s, pos, 0, d);
  }

  lemma TripletsStep(s: Text, pos: nat, left: nat, d: Text)
    ensures d + Triplets(s, pos, left) ==
            if left == 0 || Triplet(s, pos).None? then d
            else d + [Triplet(s, pos).value] + Triplets(s, pos + 3, left - 1)
  {
    hide Triplet;
    if left > 0 && Triplet(s, pos).Some? {
      Assoc(d, [Triplet(s, pos).value], Triplets(s, pos + 3, left - 1));
    }
  }

  /** Copy bytes into the name buffer. */
  method PutBytes(names: array<Byte>, pos: nat, bytes: Text)
    requires pos + |bytes| <= names.Length
    modifies names
    ensures names[..pos] == old(names[..pos]) && names[pos..pos + |bytes|] == bytes
  {
    var k := 0;
    while k < |bytes|
      invariant k <= |bytes| && names[..pos] == old(names[..pos]) && names[pos..pos + k] == bytes[..k]
    {
      names[pos + k] := bytes[k];
      k := k + 1;
    }
  }

  /** A percent-encoded character: the validator writes every byte it takes, even where it fails, and
      stays within the buffer. */
  method PercentPiece(s: Text, i: nat, names: array<Byte>, pos: nat) returns (len: Option<nat>)
    requires i < |s| && names.Length == |s| && pos + 2 <= i
    modifies names
    ensures names[..pos] == old(names[..pos])
    ensures match PercentChar(s, i)
            case None => len.None?
            case Some(bytes) => len == Some(|bytes|) && names[pos..pos + |bytes|] == bytes
  {
    hide Triplets, Utf8.DecodeAt;
    var d := TakeTriplets(s, i);
    var inp := new InStream(d);
    var os := new OutStream();
    var ok := Utf8.Validate(inp, os);
    ghost var c := Utf8.DecodeAt(d, 0);
    assert d == [] ==> c.len == 1 by { EmptyDecodes(); }
    PutBytes(names, pos, os.out);
    if !ok || inp.pos > |d| {
      return None;
    }
    assert os.out == d[..c.len];
    len := Some(|os.out|);
  }

  lemma EmptyDecodes()
    ensures Utf8.DecodeAt([], 0).len == 1
  {
  }

  /** One character of a name, written at `pos`. */
  method PieceAt(s: Text, i: nat, fragment: bool, names: array<Byte>, pos: nat) returns (p: Piece)
    requires i < |s| && names.Length == |s| && pos + (if fragment then 2 else 1) <= i
    modifies names
    ensures p == Char(s, i, fragment) && names[..pos] == old(names[..pos])
    ensures p.Good? ==> names[pos..pos + |p.bytes|] == p.bytes
  {
    hide PercentChar;
    var c, next := s[i], i + 1;
    if fragment {
      if c == PERCENT {
        var len := PercentPiece(s, i, names, pos);
        if len.None? {
          return Bad(InvalidPercentEncoding, i);
        }
        if len.value > 1 {
          return Good(names[pos..pos + len.value], i + 3 * len.value);
        }
        c, next := names[pos], i + 3;
        assert names[pos..pos + 1] == [c];
      } else if NeedPercentEncode(c) {
        return Bad(CharacterMustPercentEncode, i);
      }
    }
    if c == TILDE {
      if next < |s| && s[next] == ZERO {
        c := TILDE;
      } else if next < |s| && s[next] == ONE {
        c := SLASH;
      } else {
        return Bad(InvalidEscape, next);
      }
      next := next + 1;
    }
    PutBytes(names, pos, [c]);
    p := Good([c], next);
  }

  // ---- Names ----

  /** A name of which `bytes` have been read already. */
  function Continue(bytes: Text, p: Piece): Piece {
    match p
    case Bad(_, _) => p
    case Good(more, end) => Good(bytes + more, end)
  }

  lemma NameContinues(s: Text, i: nat, fragment: bool, bytes: Text)
    requires i < |s| && s[i] != SLASH
    ensures var c := Char(s, i, fragment);
            Continue(bytes, Name(s, i, fragment)) ==
            if c.Bad? then c else Continue(bytes + c.bytes, Name(s, c.next, fragment))
  {
    hide Char;
    var c := Char(s, i, fragment);
    if c.Good? && Name(s, c.next, fragment).Good? {
      var more := Name(s, c.next, fragment).bytes;
      assert bytes + (c.bytes + more) == bytes + c.bytes + more;
    }
  }

  /** A whole name and its terminator. */
  method NameAt(s: Text, start: nat, fragment: bool, names: array<Byte>, pos: nat) returns (p: Piece, isNumber: bool)
    requires start <= |s| && names.Length == |s| && pos + (if fragment then 2 else 1) <= start
    modifies names
    ensures p == Name(s, start, fragment) && names[..pos] == old(names[..pos])
    ensures p.Good? ==> pos + |p.bytes| < names.Length && names[pos..pos + |p.bytes|] == p.bytes && names[pos + |p.bytes|] == NUL
    ensures p.Good? ==> (isNumber <==> p.bytes != [] && AllDigits(p.bytes))
  {
    hide Char, Name, AllDigits, Continue;
    var i := start;
    ghost var bytes: Text := [];
    isNumber := true;
    var end := pos;
    NameEmpty(s, start, fragment);
    DigitsAppend([], []);
    while i < |s| && s[i] != SLASH
      invariant start <= i <= |s| && |bytes| <= i - start && end == pos + |bytes|
      invariant names[..pos] == old(names[..pos]) && names[pos..end] == bytes
      invariant Continue(bytes, Name(s, i, fragment)) == Name(s, start, fragment)
      invariant isNumber <==> AllDigits(bytes)
    {
      NameContinues(s, i, fragment, bytes);
      ghost var before := names[..end];
      var c := PieceAt(s, i, fragment, names, end);
      if c.Bad? {
        assert names[..pos] == names[..end][..pos];
        return c, false;
      }
      Appended(names[..end + |c.bytes|], before, pos, bytes, c.bytes);
      DigitsAppend(bytes, c.bytes);
      isNumber := isNumber && AllDigits(c.bytes);
      bytes := bytes + c.bytes;
      end := end + |c.bytes|;
      i := c.next;
    }
    NameEnds(s, i, fragment);
    names[end] := NUL;
    if end == pos {
      isNumber := false;
    }
    p := Good(names[pos..end], i);
  }

  lemma DigitsAppend(a: Text, b: Text)
    ensures AllDigits(a + b) <==> AllDigits(a) && AllDigits(b)
    ensures AllDigits([])
  {
    if AllDigits(a + b) {
      assert forall k :: 0 <= k < |a| ==> a[k] == (a + b)[k];
      assert forall k :: 0 <= k < |b| ==> b[k] == (a + b)[|a| + k];
    }
  }

  lemma NameEmpty(s: Text, i: nat, fragment: bool)
    requires i <= |s|
    ensures Continue([], Name(s, i, fragment)) == Name(s, i, fragment)
  {
    hide Name;
    var n := Name(s, i, fragment);
    if n.Good? {
      assert [] + n.bytes == n.bytes;
    }
  }

  lemma NameEnds(s: Text, i: nat, fragment: bool)
    requires i <= |s| && (i == |s| || s[i] == SLASH)
    ensures forall bytes :: Continue(bytes, Name(s, i, fragment)) == Good(bytes, i)
  {
    assert Name(s, i, fragment) == Good([], i);
    assert forall bytes: Text :: bytes + [] == bytes;
  }

  /** Bytes written behind others. */
  lemma Appended(now: Text, before: Text, pos: nat, bytes: Text, more: Text)
    requires pos <= |before| && before[pos..] == bytes && |now| == |before| + |more|
    requires now[..|before|] == before && now[|before|..] == more
    ensures now[..pos] == before[..pos] && now[pos..] == bytes + more
  {
    assert now == before + more;
  }

  // ---- Indices ----

  /** String to SizeType conversion, with the checks before it. */
  method ComputeIndex(name: Text, isNumber: bool) returns (index: nat)
    requires isNumber <==> name != [] && AllDigits(name)
    ensures index == IndexOf(name)
  {
    if !isNumber || (|name| > 1 && name[0] == ZERO) {
      return INVALID_INDEX;
    }
    var n, j := 0, 0;
    while j < |name|
      invariant j <= |name| && n < TWO32 && Accumulate(name, 0, 0) == Accumulate(name, j, n)
    {
      var m := (n * 10 + (name[j] - ZERO)) % TWO32;
      if m < n {
        return INVALID_INDEX;
      }
      n := m;
      j := j + 1;
    }
    index := n;
  }

  // ---- Tokens ----

  /** The token stands for `name`, NUL-terminated, in the part of the name buffer written so far. */
  ghost predicate TokenIs(written: Text, t: Token, name: Text) {
    && t.start + t.length < |written| && t.length == |name| && t.index == IndexOf(name)
    && written[t.start..t.start + t.length] == name && written[t.start + t.length] == NUL
  }

  ghost predicate TokensAre(written: Text, ts: seq<Token>, names: seq<Text>) {
    |ts| == |names| && forall k :: 0 <= k < |ts| ==> TokenIs(written, ts[k], names[k])
  }

  lemma SliceOfPrefix(s: Text, n: nat, lo: nat, hi: nat)
    requires lo <= hi < n <= |s|
    ensures s[lo..hi] == s[..n][lo..hi] && s[hi] == s[..n][hi]
  {
    var a, b := s[lo..hi], s[..n][lo..hi];
    forall k | 0 <= k < |a|
      ensures a[k] == b[k]
    {
      assert s[..n][lo + k] == s[lo + k];
    }
  }

  lemma TokensGrow(before: Text, now: Text, ts: seq<Token>, names: seq<Text>, t: Token, name: Text)
    requires TokensAre(before, ts, names) && |before| <= |now| && now[..|before|] == before && TokenIs(now, t, name)
    ensures TokensAre(now, ts + [t], names + [name])
  {
    hide IndexOf;
    forall k | 0 <= k < |ts|
      ensures TokenIs(now, ts[k], names[k])
    {
      assert TokenIs(before, ts[k], names[k]);
      var lo, hi := ts[k].start, ts[k].start + ts[k].length;
      SliceOfPrefix(now, |before|, lo, hi);
    }
  }

  /** The outcome when the tokens `done` have been read already. */
  function After(done: seq<Text>, r: Parsed): Parsed {
    match r
    case Failed(_, _) => r
    case Names(rest) => Names(done + rest)
  }

  lemma TokensContinue(s: Text, i: nat, fragment: bool, done: seq<Text>)
    requires i < |s| && s[i] == SLASH
    ensures var n := Name(s, i + 1, fragment);
            && After(done, Tokens(s, i, fragment)) ==
               (if n.Bad? then Failed(n.code, n.offset) else After(done + [n.bytes], Tokens(s, n.next, fragment)))
            && (n.Good? ==> Solidi(s, i) == 1 + Solidi(s, n.next))
  {
    hide Name;
    var n := Name(s, i + 1, fragment);
    if n.Good? {
      NameHasNoSolidus(s, i + 1, fragment);
      if Tokens(s, n.next, fragment).Names? {
        var rest := Tokens(s, n.next, fragment).names;
        assert done + ([n.bytes] + rest) == done + [n.bytes] + rest;
      }
    }
  }

  /** The loop over tokens: never more tokens than solidi, never past the name buffer. */
  method FillTokens(s: Text, start: nat, fragment: bool, names: array<Byte>, tokens: array<Token>) returns (r: Option<(ErrorCode, nat)>)
    requires start <= |s| && (start < |s| ==> s[start] == SLASH) && (fragment ==> start >= 1)
    requires names.Length == |s| && tokens.Length == Solidi(s, start)
    modifies names, tokens
    ensures match Tokens(s, start, fragment)
            case Failed(code, offset) => r == Some((code, offset))
            case Names(all) => r == None && TokensAre(names[..], tokens[..], all)
  {
    hide Tokens, Name, Solidi, TokensAre, After, TokenIs;
    var i: nat, pos: nat, t: nat := start, 0, 0;
    ghost var done: seq<Text> := [];
    LoopStarts(s, start, fragment);
    while i < |s|
      invariant i <= |s| && (i < |s| ==> s[i] == SLASH) && pos + (if fragment then 1 else 0) <= i
      invariant t <= tokens.Length && t + Solidi(s, i) == tokens.Length
      invariant TokensAre(names[..pos], tokens[..t], done)
      invariant After(done, Tokens(s, i, fragment)) == Tokens(s, start, fragment)
      decreases |s| - i
    {
      ghost var before := names[..pos];
      TokensContinue(s, i, fragment, done);
      var p, isNumber := NameAt(s, i + 1, fragment, names, pos);
      if p.Bad? {
        return Some((p.code, p.offset));
      }
      var index := ComputeIndex(p.bytes, isNumber);
      tokens[t] := Token(pos, |p.bytes|, index);
      ghost var now := names[..pos + |p.bytes| + 1];
      assert TokenIs(now, tokens[t], p.bytes) by { NewToken(now, tokens[t], p.bytes); }
      assert now[..pos] == before;
      TokensGrow(before, now, tokens[..t], done, tokens[t], p.bytes);
      assert tokens[..t + 1] == tokens[..t] + [tokens[t]];
      done := done + [p.bytes];
      pos := pos + |p.bytes| + 1;
      t := t + 1;
      i := p.next;
    }
    LoopEnds(s, fragment, done);
    assert tokens[..t] == tokens[..];
    WrittenGrows(names[..pos], names[..], tokens[..], done);
    r := None;
  }

  lemma NewToken(now: Text, t: Token, name: Text)
    requires t.start + t.length + 1 == |now| && t.length == |name| && t.index == IndexOf(name)
    requires now[t.start..t.start + t.length] == name && now[|now| - 1] == NUL
    ensures TokenIs(now, t, name)
  {
  }

  lemma LoopStarts(s: Text, start: nat, fragment: bool)
    requires start <= |s| && (start < |s| ==> s[start] == SLASH)
    ensures TokensAre([], [], []) && After([], Tokens(s, start, fragment)) == Tokens(s, start, fragment)
  {
    hide Tokens;
    var r := Tokens(s, start, fragment);
    if r.Names? {
      assert [] + r.names == r.names;
    }
  }

  lemma LoopEnds(s: Text, fragment: bool, done: seq<Text>)
    ensures After(done, Tokens(s, |s|, fragment)) == Names(done) && Solidi(s, |s|) == 0
  {
    assert done + [] == done;
  }

  lemma WrittenGrows(before: Text, now: Text, ts: seq<Token>, names: seq<Text>)
    requires TokensAre(before, ts, names) && |before| <= |now| && now[..|before|] == before
    ensures TokensAre(now, ts, names)
  {
    hide IndexOf;
    forall k | 0 <= k < |ts|
      ensures TokenIs(now, ts[k], names[k])
    {
      assert TokenIs(before, ts[k], names[k]);
      var lo, hi := ts[k].start, ts[k].start + ts[k].length;
      SliceOfPrefix(now, |before|, lo, hi);
    }
  }

  method CountSolidi(s: Text) returns (n: nat)
    ensures n == Solidi(s, 0)
  {
    n := 0;
    var i := 0;
    while i < |s|
      invariant i <= |s| && n + Solidi(s, i) == Solidi(s, 0)
    {
      if s[i] == SLASH {
        n := n + 1;
      }
      i := i + 1;
    }
  }

  class GenericPointer {
    var nameBuffer: array<Byte>
    var tokens: array<Token>
    var tokenCount: nat
    var parseError: Option<ErrorCode>
    var parseErrorOffset: nat

    /** The names, and their indices, or the error and where it is. The number of tokens is the number
        of solidi, and the name buffer has as many units as the source. */
    constructor Parse(s: Text)
      ensures match Pointer.Parse(s)
              case Failed(code, offset) => parseError == Some(code) && parseErrorOffset == offset && tokenCount == 0
              case Names(names) =>
                && parseError == None && tokenCount == |names| == Solidi(s, 0) == tokens.Length
                && nameBuffer.Length == |s| && TokensAre(nameBuffer[..], tokens[..], names)
    {
      var made, ts, r := ParseAll(s);
      nameBuffer := made;
      tokens := ts;
      tokenCount := if r.None? then ts.Length else 0;
      parseError := if r.None? then None else Some(r.value.0);
      parseErrorOffset := if r.None? then 0 else r.value.1;
    }
  }

  method ParseAll(s: Text) returns (names: array<Byte>, tokens: array<Token>, r: Option<(ErrorCode, nat)>)
    ensures names.Length == |s| && tokens.Length == Solidi(s, 0)
    ensures match Pointer.Parse(s)
            case Failed(code, offset) => r == Some((code, offset))
            case Names(all) => r == None && |all| == tokens.Length && TokensAre(names[..], tokens[..], all)
  {
    hide Tokens;
    var count := CountSolidi(s);
    names := new Byte[|s|](_ => NUL);
    tokens := new Token[count](_ => Token(0, 0, 0));
    var i, fragment := 0, false;
    if |s| > 0 && s[0] == HASH {
      fragment := true;
      i := 1;
    }
    if i != |s| && s[i] != SLASH {
      return names, tokens, Some((TokenMustBeginWithSolidus, i));
    }
    r := FillTokens(s, i, fragment, names, tokens);
  }

  /** `Stringify` without percent-encoding. */
  method Stringify(names: seq<Text>, os: OutStream)
    modifies os
    ensures os.out == old(os.out) + StringForm(names)
  {
    hide EscapeName, StringForm;
    var t := 0;
    assert names[0..] == names;
    while t < |names|
      invariant t <= |names| && os.out + StringForm(names[t..]) == old(os.out) + StringForm(names)
    {
      StringFormSplit(names, t, os.out);
      os.Put(SLASH);
      StringifyName(names[t], os);
      t := t + 1;
    }
    assert names[t..] == [];
    StringFormStarts([]);
    assert os.out + [] == os.out;
  }

  lemma StringFormSplit(names: seq<Text>, t: nat, before: Text)
    requires t < |names|
    ensures before + StringForm(names[t..]) == before + [SLASH] + EscapeName(names[t]) + StringForm(names[t + 1..])
  {
    hide EscapeName;
    assert names[t..][0] == names[t] && names[t..][1..] == names[t + 1..];
    Assoc(before, [SLASH] + EscapeName(names[t]), StringForm(names[t + 1..]));
    Assoc(before, [SLASH], EscapeName(names[t]));
  }

  lemma Assoc(a: Text, b: Text, c: Text)
    ensures a + (b + c) == a + b + c
  {
  }

  method StringifyName(name: Text, os: OutStream)
    modifies os
    ensures os.out == old(os.out) + EscapeName(name)
  {
    hide EscapeName;
    var j := 0;
    assert name[0..] == name;
    while j < |name|
      invariant j <= |name| && os.out + EscapeName(name[j..]) == old(os.out) + EscapeName(name)
    {
      EscapeNameSplit(name, j, os.out);
      StringifyByte(name[j], os);
      j := j + 1;
    }
    EscapeNameEnds(name, os.out);
  }

  method StringifyByte(c: Byte, os: OutStream)
    modifies os
    ensures os.out == old(os.out) + EscapeByte(c)
  {
    if c == TILDE {
      os.Put(TILDE);
      os.Put(ZERO);
    } else if c == SLASH {
      os.Put(TILDE);
      os.Put(ONE);
    } else {
      os.Put(c);
    }
  }

  lemma EscapeNameSplit(name: Text, j: nat, before: Text)
    requires j < |name|
    ensures before + EscapeName(name[j..]) == before + EscapeByte(name[j]) + EscapeName(name[j + 1..])
  {
    hide EscapeByte;
    assert name[j..][0] == name[j] && name[j..][1..] == name[j + 1..];
    Assoc(before, EscapeByte(name[j]), EscapeName(name[j + 1..]));
  }

  lemma EscapeNameEnds(name: Text, before: Text)
    ensures before + EscapeName(name[|name|..]) == before
  {
    assert name[|name|..] == [];
  }

  // ---- The URI fragment form ----

  /** More text behind `before`, unless there is none to print. */
  function Append(before: Text, more: Option<Text>): Option<Text> {
    match more
    case None => None
    case Some(m) => Some(before + m)
  }

  lemma AppendJoins(before: Text, x: Text, more: Option<Text>)
    ensures Append(before, Append(x, more)) == Append(before + x, more)
  {
    if more.Some? {
      Assoc(before, x, more.value);
    }
  }

  lemma NothingToAppend(before: Text)
    ensures Append(before, Some([])) == Some(before)
  {
    assert before + [] == before;
  }

  /** What the fragment form prints for the first character of a name, and how long it is; nothing
      where the name is not UTF-8. */
  function FragmentChar(name: Text): (r: Option<(Text, nat)>)
    requires name != []
    ensures r.Some? ==> 0 < r.value.1 <= |name|
  {
    var b := name[0];
    if b == TILDE || b == SLASH || !NeedPercentEncode(b) then Some((EscapeByte(b), 1))
    else
      var d := Utf8.DecodeAt(name, 0);
      if !d.ok || d.len > |name| then None else Some((PercentEncode(name[..d.len]), d.len))
  }

  lemma FragmentNameSplit(name: Text, j: nat, before: Text)
    requires j < |name|
    ensures var c := FragmentChar(name[j..]);
            Append(before, FragmentName(name[j..]))
            == if c.None? then None else Append(before + c.value.0, FragmentName(name[j + c.value.1..]))
  {
    hide FragmentName, FragmentChar, Append;
    var rest, c := name[j..], FragmentChar(name[j..]);
    FragmentNameUnfolds(rest);
    if c.Some? {
      assert rest[c.value.1..] == name[j + c.value.1..];
      AppendJoins(before, c.value.0, FragmentName(rest[c.value.1..]));
    } else {
      AppendNothing(before);
    }
  }

  lemma FragmentNameUnfolds(name: Text)
    requires name != []
    ensures var c := FragmentChar(name);
            FragmentName(name) == if c.None? then None else Append(c.value.0, FragmentName(name[c.value.1..]))
  {
    hide NeedPercentEncode, PercentEncode, EscapeByte;
  }

  lemma AppendNothing(before: Text)
    ensures Append(before, None) == None
  {
  }

  /** The bytes of one character, percent-encoded. */
  method PutPercent(bytes: Text, os: OutStream)
    modifies os
    ensures os.out == old(os.out) + PercentEncode(bytes)
  {
    hide HexDigitOf;
    var i := 0;
    assert bytes[0..] == bytes;
    while i < |bytes|
      invariant i <= |bytes| && os.out + PercentEncode(bytes[i..]) == old(os.out) + PercentEncode(bytes)
    {
      PercentEncodeSplit(bytes, i, os.out);
      os.Put(PERCENT);
      os.Put(HexDigitOf(bytes[i] / 16));
      os.Put(HexDigitOf(bytes[i] % 16));
      i := i + 1;
    }
    assert bytes[i..] == [];
  }

  lemma PercentEncodeSplit(bytes: Text, i: nat, before: Text)
    requires i < |bytes|
    ensures before + PercentEncode(bytes[i..])
            == before + [PERCENT] + [HexDigitOf(bytes[i] / 16)] + [HexDigitOf(bytes[i] % 16)] + PercentEncode(bytes[i + 1..])
  {
    hide HexDigitOf;
    assert bytes[i..][0] == bytes[i] && bytes[i..][1..] == bytes[i + 1..];
  }

  method StringifyFragmentChar(name: Text, j: nat, os: OutStream) returns (n: nat)
    requires j < |name|
    modifies os
    ensures var c := FragmentChar(name[j..]);
            if c.None? then n == 0 else n == c.value.1 && os.out == old(os.out) + c.value.0
  {
    hide PercentEncode, NeedPercentEncode, EscapeByte;
    var b := name[j];
    if b == TILDE || b == SLASH || !NeedPercentEncode(b) {
      StringifyByte(b, os);
      return 1;
    }
    var d := Utf8.DecodeAt(name[j..], 0);
    if !d.ok || d.len > |name| - j {
      return 0;
    }
    PutPercent(name[j..][..d.len], os);
    return d.len;
  }

  method StringifyFragmentName(name: Text, os: OutStream) returns (ok: bool)
    modifies os
    ensures Append(old(os.out), FragmentName(name)) == if ok then Some(os.out) else None
  {
    hide FragmentName, FragmentChar, Append;
    var j := 0;
    assert name[0..] == name;
    while j < |name|
      invariant j <= |name| && Append(os.out, FragmentName(name[j..])) == Append(old(os.out), FragmentName(name))
    {
      FragmentNameSplit(name, j, os.out);
      var n := StringifyFragmentChar(name, j, os);
      if n == 0 {
        return false;
      }
      j := j + n;
    }
    assert name[j..] == [];
    FragmentNameOfNothing();
    NothingToAppend(os.out);
    return true;
  }

  lemma FragmentNameOfNothing()
    ensures FragmentName([]) == Some([]) && FragmentNames([]) == Some([])
  {
  }

  lemma FragmentNamesSplit(names: seq<Text>, t: nat, before: Text)
    requires t < |names|
    ensures var name := Append(before + [SLASH], FragmentName(names[t]));
            Append(before, FragmentNames(names[t..]))
            == if name.None? then None else Append(name.value, FragmentNames(names[t + 1..]))
  {
    hide FragmentName;
    assert names[t..][0] == names[t] && names[t..][1..] == names[t + 1..];
    var name, rest := FragmentName(names[t]), FragmentNames(names[t + 1..]);
    if name.Some? && rest.Some? {
      Assoc(before, [SLASH] + name.value, rest.value);
      Assoc(before, [SLASH], name.value);
    }
  }

  /** `Stringify` into a URI fragment; it fails exactly where a name is not UTF-8. */
  method StringifyFragment(names: seq<Text>, os: OutStream) returns (ok: bool)
    modifies os
    ensures Append(old(os.out), FragmentForm(names)) == if ok then Some(os.out) else None
  {
    hide FragmentName, FragmentNames, Append;
    ghost var before := os.out;
    FragmentFormStarts(names, before);
    os.Put(HASH);
    var t := 0;
    assert names[0..] == names;
    while t < |names|
      invariant t <= |names| && Append(os.out, FragmentNames(names[t..])) == Append(before, FragmentForm(names))
    {
      FragmentNamesSplit(names, t, os.out);
      os.Put(SLASH);
      var good := StringifyFragmentName(names[t], os);
      if !good {
        return false;
      }
      t := t + 1;
    }
    assert names[t..] == [];
    FragmentNameOfNothing();
    NothingToAppend(os.out);
    return true;
  }

  lemma FragmentFormStarts(names: seq<Text>, before: Text)
    ensures Append(before, FragmentForm(names)) == Append(before + [HASH], FragmentNames(names))
  {
    hide FragmentNames;
    AppendJoins(before, [HASH], FragmentNames(names));
  }
}
