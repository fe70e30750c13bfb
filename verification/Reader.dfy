/**
 `GenericReader` as it runs: an object that advances a stream, calls the
 handler, keeps a stack of open containers and sets a parse error. Every method
 is proved against the parse functions of `Lexer`, `Descent` and `Pushdown`.
 */
module Reader {
  import opened Bytes
  import opened Json
  import L = Lexer
  import D = Descent
  import P = Pushdown
  import N = NumberReader
  import Utf8

  /** What is left of `ParseHex4` when `left` digits are to come. */
  ghost function HexRest(s: seq<Byte>, pos: nat, left: nat, codepoint: nat): Option<nat>
    decreases left
  {
    if left == 0 then Some(codepoint)
    else
      match HexDigit(At(s, pos))
      case None => None
      case Some(h) => HexRest(s, pos + 1, left - 1, codepoint * 16 + h)
  }

  lemma HexRestIsHex4(s: seq<Byte>, pos: nat)
    ensures HexRest(s, pos, 4, 0) == L.Hex4(s, pos)
  {
    var h0, h1, h2 := HexDigit(At(s, pos)), HexDigit(At(s, pos + 1)), HexDigit(At(s, pos + 2));
    if h0.Some? && h1.Some? {
      assert HexRest(s, pos, 4, 0) == HexRest(s, pos + 1, 3, h0.value)
                                   == HexRest(s, pos + 2, 2, h0.value * 16 + h1.value);
      if h2.Some? {
        assert HexRest(s, pos, 4, 0) == HexRest(s, pos + 3, 1, (h0.value * 16 + h1.value) * 16 + h2.value);
      }
    }
  }

  lemma ConsumedStep(s: seq<Byte>, pos: nat, literal: seq<Byte>, i: nat)
    requires i < |literal| && At(s, pos) == literal[i]
    ensures L.Consumed(s, pos, literal[i..]) == 1 + L.Consumed(s, pos + 1, literal[i + 1..])
  {
    assert literal[i..][1..] == literal[i + 1..];
  }

  lemma ConsumedEnds(s: seq<Byte>, pos: nat, literal: seq<Byte>)
    requires literal == [] || At(s, pos) != literal[0]
    ensures L.Consumed(s, pos, literal) == 0
  {
  }

  class Reader {
    const c: Config
    var pos: nat
    var ev: seq<Event>
    var error: Option<(ParseError, nat)>
    var stack: seq<P.Frame>
    var state: P.State

    constructor (c: Config)
      ensures this.c == c && pos == 0 && ev == [] && error == None && stack == [] && state == P.Start
    {
      this.c := c;
      pos, ev, error, stack, state := 0, [], None, [], P.Start;
    }

    /** The reader is as the outcome `r` says: behind the parsed text, or with its error set. */
    ghost predicate Left(r: Outcome)
      reads this
    {
      && ev == r.ev
      && match r
         case Ok(next, _) => error == None && pos == next
         case Fail(e, offset, _) => error == Some((e, offset))
    }

    function Peek(): Byte
      reads this
    {
      At(c.src, pos)
    }

    method Consume(b: Byte) returns (found: bool)
      modifies this`pos
      ensures found == (At(c.src, old(pos)) == b)
      ensures pos == if found then old(pos) + 1 else old(pos)
    {
      found := Peek() == b;
      if found {
        pos := pos + 1;
      }
    }

    method SkipWhitespace()
      modifies this`pos
      ensures pos == L.SkipBlanks(c.src, old(pos))
    {
      while L.IsBlank(Peek())
        invariant L.SkipBlanks(c.src, pos) == L.SkipBlanks(c.src, old(pos))
        decreases |c.src| - pos
      {
        pos := pos + 1;
      }
    }

    /** Call the handler, and stop the parse with an error at `offset` if it says so. */
    method Handle(e: Event, offset: nat) returns (cont: bool)
      requires error == None
      modifies this`ev, this`error
      ensures cont == c.handler(ev) && ev == old(ev) + [e]
      ensures error == if cont then None else Some((Termination, offset))
    {
      ev := ev + [e];
      cont := c.handler(ev);
      if !cont {
        error := Some((Termination, offset));
      }
    }

    // ---- Scalars ----

    method ParseLiteral(literal: seq<Byte>, e: Event)
      requires error == None
      modifies this`pos, this`ev, this`error
      ensures Left(L.ParseLiteral(c, old(pos), old(ev), literal, e))
    {
      hide L.Consumed;
      assert literal[0..] == literal;
      var i := 0;
      ghost var total := L.Consumed(c.src, pos, literal);
      while i < |literal| && Peek() == literal[i]
        invariant i <= |literal| && pos == old(pos) + i
        invariant total == i + L.Consumed(c.src, pos, literal[i..])
        invariant ev == old(ev) && error == None
      {
        ConsumedStep(c.src, pos, literal, i);
        pos := pos + 1;
        i := i + 1;
      }
      ConsumedEnds(c.src, pos, literal[i..]);
      if i == |literal| {
        var cont := Handle(e, pos);
      } else {
        error := Some((ValueInvalid, pos));
      }
    }

    /** `ParseHex4`: four digits, or an error at the offset of the escape. */
    method ParseHex4(escapeOffset: nat) returns (codepoint: nat)
      requires error == None
      modifies this`pos, this`error
      ensures match L.Hex4(c.src, old(pos))
              case Some(v) => error == None && codepoint == v && pos == old(pos) + 4
              case None => error == Some((StringUnicodeEscapeInvalidHex, escapeOffset))
    {
      HexRestIsHex4(c.src, pos);
      codepoint := 0;
      var i := 0;
      while i < 4
        invariant 0 <= i <= 4 && pos == old(pos) + i && error == None
        invariant HexRest(c.src, pos, 4 - i, codepoint) == L.Hex4(c.src, old(pos))
      {
        var h := HexDigit(Peek());
        if h.None? {
          error := Some((StringUnicodeEscapeInvalidHex, escapeOffset));
          return;
        }
        codepoint := codepoint * 16 + h.value;
        pos := pos + 1;
        i := i + 1;
      }
    }

    /** The escape at a backslash: the bytes it stands for, or an error. */
    method ParseEscape() returns (bytes: seq<Byte>)
      requires error == None && Peek() == BACKSLASH
      modifies this`pos, this`error
      ensures match L.ScanEscape(c.src, old(pos))
              case Scanned(next, s) => error == None && pos == next && bytes == s
              case Rejected(e, offset) => error == Some((e, offset))
    {
      hide Utf8.Encode, L.Hex4;
      bytes := [];
      var escapeOffset := pos;
      pos := pos + 1;
      var e := Peek();
      if L.Unescape(e) != 0 {
        pos := pos + 1;
        return [L.Unescape(e)];
      }
      if e != L.LOWER_U {
        error := Some((StringEscapeInvalid, escapeOffset));
        return;
      }
      pos := pos + 1;
      var codepoint := ParseHex4(escapeOffset);
      if error != None {
        return;
      }
      if 0xD800 <= codepoint <= 0xDFFF {
        if codepoint > 0xDBFF {
          error := Some((StringUnicodeSurrogateInvalid, escapeOffset));
          return;
        }
        var slash := Consume(BACKSLASH);
        var u := false;
        if slash {
          u := Consume(L.LOWER_U);
        }
        if !u {
          error := Some((StringUnicodeSurrogateInvalid, escapeOffset));
          return;
        }
        var low := ParseHex4(escapeOffset);
        if error != None {
          return;
        }
        if low < 0xDC00 || low > 0xDFFF {
          error := Some((StringUnicodeSurrogateInvalid, escapeOffset));
          return;
        }
        codepoint := (codepoint - 0xD800) * 0x400 + (low - 0xDC00) + 0x10000;
      }
      bytes := Utf8.Encode(codepoint);
    }

    /** `ParseStringToStream`. */
    method ParseStringToStream() returns (out: seq<Byte>)
      requires error == None
      modifies this`pos, this`error
      ensures match L.ScanString(c.src, old(pos), [])
              case Scanned(next, s) => error == None && pos == next && out == s
              case Rejected(e, offset) => error == Some((e, offset))
    {
      out := [];
      while true
        invariant error == None
        invariant L.ScanString(c.src, pos, out) == L.ScanString(c.src, old(pos), [])
        decreases |c.src| - pos
      {
        var b := Peek();
        if b == BACKSLASH {
          var bytes := ParseEscape();
          if error != None {
            return;
          }
          out := out + bytes;
        } else if b == QUOTE {
          pos := pos + 1;
          return;
        } else if b < 0x20 {
          error := Some((if b == NUL then StringMissQuotationMark else StringInvalidEncoding, pos));
          return;
        } else {
          out := out + [b];
          pos := pos + 1;
        }
      }
    }

    method ParseString(isKey: bool)
      requires error == None && Peek() == QUOTE
      modifies this`pos, this`ev, this`error
      ensures Left(L.ParseString(c, old(pos), old(ev), isKey))
    {
      pos := pos + 1;
      var out := ParseStringToStream();
      if error == None {
        var cont := Handle(if isKey then Key(out) else String(out), pos);
      }
    }

    method ParseNumber()
      requires error == None
      modifies this`pos, this`ev, this`error
      ensures Left(L.ParseNumber(c, old(pos), old(ev)))
    {
      var startOffset := pos;
      var r := N.ReadNumber(c, pos);
      match r
      case NotNumber(e, offset) =>
        error := Some((e, offset));
      case Number(next, e) =>
        pos := next;
        var cont := Handle(e, startOffset);
    }

    method ParseScalar()
      requires error == None
      modifies this`pos, this`ev, this`error
      ensures Left(L.ParseScalar(c, old(pos), old(ev)))
    {
      hide L.ParseLiteral, L.ParseString, L.ParseNumber;
      match Peek()
      case 0x6E => ParseLiteral(L.NULL, Null);
      case 0x74 => ParseLiteral(L.TRUE, Bool(true));
      case 0x66 => ParseLiteral(L.FALSE, Bool(false));
      case 0x22 => ParseString(false);
      case _ => ParseNumber();
    }

    // ---- Recursive descent ----

    method ParseValue()
      requires error == None
      modifies this`pos, this`ev, this`error
      ensures Left(D.ParseValue(c, old(pos), old(ev)))
      decreases |c.src| - pos, 2
    {
      hide D.ParseObject, D.ParseArray, L.ParseScalar;
      if Peek() == LBRACE {
        ParseObject();
      } else if Peek() == LBRACKET {
        ParseArray();
      } else {
        ParseScalar();
      }
    }

    method ParseArray()
      requires error == None && Peek() == LBRACKET
      modifies this`pos, this`ev, this`error
      ensures Left(D.ParseArray(c, old(pos), old(ev)))
      decreases |c.src| - pos, 1
    {
      hide D.ParseElements, L.SkipBlanks;
      pos := pos + 1;
      var cont := Handle(StartArray, pos);
      if !cont {
        return;
      }
      SkipWhitespace();
      var closed := Consume(RBRACKET);
      if closed {
        cont := Handle(EndArray(0), pos);
        return;
      }
      ParseElements();
    }

    /** The element loop of `ParseArray`. */
    method ParseElements()
      requires error == None
      modifies this`pos, this`ev, this`error
      ensures Left(D.ParseElements(c, old(pos), old(ev), 0))
      decreases |c.src| - pos, 3
    {
      hide D.ParseValue, L.SkipBlanks;
      ghost var goal := D.ParseElements(c, pos, ev, 0);
      var elementCount, cont := 0, true;
      while true
        invariant error == None && old(pos) <= pos && (pos == old(pos) || old(pos) < |c.src|)
        invariant goal == D.ParseElements(c, pos, ev, elementCount)
        decreases |c.src| - pos
      {
        ParseValue();
        if error != None {
          return;
        }
        elementCount := elementCount + 1;
        SkipWhitespace();
        var comma := Consume(COMMA);
        if comma {
          SkipWhitespace();
        } else {
          var closed := Consume(RBRACKET);
          if closed {
            cont := Handle(EndArray(elementCount), pos);
          } else {
            error := Some((ArrayMissCommaOrSquareBracket, pos));
          }
          return;
        }
        if c.trailingCommas && Peek() == RBRACKET {
          cont := Handle(EndArray(elementCount), pos);
          if cont {
            pos := pos + 1;
          }
          return;
        }
      }
    }

    method ParseObject()
      requires error == None && Peek() == LBRACE
      modifies this`pos, this`ev, this`error
      ensures Left(D.ParseObject(c, old(pos), old(ev)))
      decreases |c.src| - pos, 1
    {
      hide D.ParseMembers, L.SkipBlanks;
      pos := pos + 1;
      var cont := Handle(StartObject, pos);
      if !cont {
        return;
      }
      SkipWhitespace();
      var closed := Consume(RBRACE);
      if closed {
        cont := Handle(EndObject(0), pos);
        return;
      }
      ParseMembers();
    }

    /** The member loop of `ParseObject`. */
    method ParseMembers()
      requires error == None
      modifies this`pos, this`ev, this`error
      ensures Left(D.ParseMembers(c, old(pos), old(ev), 0))
      decreases |c.src| - pos, 4
    {
      hide D.ParseMember, L.SkipBlanks;
      ghost var goal := D.ParseMembers(c, pos, ev, 0);
      var memberCount, cont := 0, true;
      while true
        invariant error == None && old(pos) <= pos && (pos == old(pos) || old(pos) < |c.src|)
        invariant goal == D.ParseMembers(c, pos, ev, memberCount)
        decreases |c.src| - pos
      {
        ParseMember();
        if error != None {
          return;
        }
        SkipWhitespace();
        memberCount := memberCount + 1;
        if Peek() == COMMA {
          pos := pos + 1;
          SkipWhitespace();
        } else {
          if Peek() == RBRACE {
            pos := pos + 1;
            cont := Handle(EndObject(memberCount), pos);
          } else {
            error := Some((ObjectMissCommaOrCurlyBracket, pos));
          }
          return;
        }
        if c.trailingCommas && Peek() == RBRACE {
          cont := Handle(EndObject(memberCount), pos);
          if cont {
            pos := pos + 1;
          }
          return;
        }
      }
    }

    /** Name, colon and value: the first half of the member loop. */
    method ParseMember()
      requires error == None
      modifies this`pos, this`ev, this`error
      ensures Left(D.ParseMember(c, old(pos), old(ev)))
      decreases |c.src| - pos, 3
    {
      hide D.ParseValue, L.ParseString;
      if Peek() != QUOTE {
        error := Some((ObjectMissName, pos));
        return;
      }
      ParseString(true);
      if error != None {
        return;
      }
      SkipWhitespace();
      var colon := Consume(COLON);
      if !colon {
        error := Some((ObjectMissColon, pos));
        return;
      }
      SkipWhitespace();
      ParseValue();
    }

    /** `Parse` with default flags. */
    method Parse()
      requires pos == 0 && ev == [] && error == None
      modifies this`pos, this`ev, this`error
      ensures Left(D.Parse(c))
    {
      hide D.ParseValue;
      SkipWhitespace();
      if Peek() == NUL {
        error := Some((DocumentEmpty, pos));
        return;
      }
      ParseValue();
      if error != None {
        return;
      }
      SkipWhitespace();
      if Peek() != NUL {
        error := Some((DocumentRootNotSingular, pos));
      }
    }

    // ---- The pushdown automaton ----

    ghost function Machine(): P.Machine
      reads this
    {
      P.Machine(state, stack, pos, ev)
    }

    /** Call the handler at a bracket, which is taken only if the handler goes on. */
    method HandleBracket(e: Event) returns (cont: bool)
      requires error == None
      modifies this`pos, this`ev, this`error
      ensures cont == c.handler(ev) && ev == old(ev) + [e]
      ensures pos == if cont then old(pos) + 1 else old(pos)
      ensures error == if cont then None else Some((Termination, pos))
    {
      cont := Handle(e, pos);
      if cont {
        pos := pos + 1;
      }
    }

    /** `Transit`: the state reached, or the error state. */
    method Transit(dst: P.State) returns (d: P.State)
      requires error == None && P.Balanced(Machine())
      requires dst == P.Predict(state, P.Tokenize(Peek()))
      modifies this`pos, this`ev, this`error, this`stack
      ensures match old(P.Transit(c, Machine()))
              case Next(m) => error == None && d == m.state && stack == m.stack && pos == m.pos && ev == m.ev
              case Halt(e, offset, ev1) =>
                && d == P.Error && ev == ev1
                && if dst == P.Error then error == None && pos == offset && e == P.StateError(state)
                   else error == Some((e, offset))
    {
      hide L.ParseString, L.ParseScalar, P.Nested, P.Open, P.Close;
      match dst
      case Error =>
        d := dst;
      case ObjectInitial =>
        d := OpenContainer(dst, StartObject);
      case ArrayInitial =>
        d := OpenContainer(dst, StartArray);
      case MemberKey =>
        ParseString(true);
        d := if error == None then dst else P.Error;
      case KeyValueDelimiter =>
        pos := pos + 1;
        d := dst;
      case MemberValue =>
        ParseScalar();
        d := if error == None then dst else P.Error;
      case Element =>
        ParseScalar();
        d := if error == None then dst else P.Error;
      case MemberDelimiter =>
        pos := pos + 1;
        CountTop();
        d := dst;
      case ElementDelimiter =>
        pos := pos + 1;
        CountTop();
        d := dst;
      case ObjectFinish =>
        if !c.trailingCommas && state == P.MemberDelimiter {
          error := Some((ObjectMissName, pos));
          return P.Error;
        }
        var count := stack[|stack| - 1].count;
        d := CloseContainer(EndObject(if state == P.MemberValue then count + 1 else count));
      case ArrayFinish =>
        if !c.trailingCommas && state == P.ElementDelimiter {
          error := Some((ValueInvalid, pos));
          return P.Error;
        }
        var count := stack[|stack| - 1].count;
        d := CloseContainer(EndArray(if state == P.Element then count + 1 else count));
      case Value =>
        ParseScalar();
        d := if error == None then P.Finish else P.Error;
      case _ =>
        assert false;
    }

    method OpenContainer(dst: P.State, e: Event) returns (d: P.State)
      requires error == None
      modifies this`pos, this`ev, this`error, this`stack
      ensures match old(P.Open(c, Machine(), dst, e))
              case Next(m) => error == None && d == m.state && stack == m.stack && pos == m.pos && ev == m.ev
              case Halt(x, offset, ev1) => d == P.Error && ev == ev1 && error == Some((x, offset))
    {
      stack := stack + [P.Frame(P.BackFrom(state), 0)];
      var cont := HandleBracket(e);
      d := if cont then dst else P.Error;
    }

    method CloseContainer(e: Event) returns (d: P.State)
      requires error == None && stack != []
      modifies this`pos, this`ev, this`error, this`stack
      ensures match old(P.Close(c, Machine(), e))
              case Next(m) => error == None && d == m.state && stack == m.stack && pos == m.pos && ev == m.ev
              case Halt(x, offset, ev1) => d == P.Error && ev == ev1 && error == Some((x, offset))
    {
      var frame := Pop();
      var cont := HandleBracket(e);
      d := if cont then P.Resume(frame.back) else P.Error;
    }

    method CountTop()
      requires stack != []
      modifies this`stack
      ensures var i := |stack| - 1;
              stack == old(stack)[|old(stack)| - 1 := P.Frame(old(stack)[|old(stack)| - 1].back, old(stack)[|old(stack)| - 1].count + 1)]
    {
      var i := |stack| - 1;
      stack := stack[i := P.Frame(stack[i].back, stack[i].count + 1)];
    }

    method Pop() returns (frame: P.Frame)
      requires stack != []
      modifies this`stack
      ensures stack == old(stack)[..|old(stack)| - 1] && frame == old(stack)[|old(stack)| - 1]
    {
      var i := |stack| - 1;
      frame := stack[i];
      stack := stack[..i];
    }

    method HandleError(s: P.State)
      modifies this`error
      ensures error == if old(error) == None then Some((P.StateError(s), pos)) else old(error)
    {
      if error == None {
        error := Some((P.StateError(s), pos));
      }
    }

    /** `IterativeParse`. */
    method IterativeParse()
      requires pos == 0 && ev == [] && error == None && stack == [] && state == P.Start
      modifies this
      ensures Left(P.IterativeParse(c))
    {
      hide P.Transit, P.Predict, P.Tokenize;
      SkipWhitespace();
      while Peek() != NUL
        invariant error == None && P.Balanced(Machine())
        invariant P.Run(c, Machine()) == P.IterativeParse(c)
        decreases |c.src| - pos
      {
        P.TransitKeepsBalance(c, Machine());
        var n := P.Predict(state, P.Tokenize(Peek()));
        var d := Transit(n);
        if d == P.Error {
          HandleError(state);
          break;
        }
        state := d;
        SkipWhitespace();
      }
      if state != P.Finish {
        HandleError(state);
      }
    }

    /** `IterativeParseNext`: on an error `state` stays as it was. */
    method IterativeParseNext() returns (ok: bool)
      requires error == None && P.Balanced(Machine())
      modifies this
      ensures match old(P.ParseNext(c, Machine()))
              case Returned(m) => ok && error == None && Machine() == m
              case Completed(m) => ok && error == None && state == P.Finish && pos == m.pos && ev == m.ev
              case Stopped(e, offset, ev1) => !ok && error == Some((e, offset)) && ev == ev1
    {
      hide P.Transit, P.Predict, P.Tokenize, P.Nested, L.SkipBlanks;
      ghost var goal := P.ParseNext(c, Machine());
      while Peek() != NUL
        invariant error == None && P.Balanced(Machine())
        invariant goal == P.ParseNext(c, Machine())
        decreases |c.src| - pos
      {
        SkipWhitespace();
        P.TransitKeepsBalance(c, Machine());
        if P.Transit(c, Machine()).Next? {
          P.DelimiterPredicted(c, Machine());
        }
        var n := P.Predict(state, P.Tokenize(Peek()));
        var d := Transit(n);
        if d == P.Error {
          HandleError(state);
          return false;
        }
        state := d;
        if d == P.Finish {
          SkipWhitespace();
          if Peek() != NUL {
            HandleError(state);
            return false;
          }
          return true;
        }
        if !P.IsDelimiter(n) {
          return true;
        }
      }
      stack := [];
      if state != P.Finish {
        HandleError(state);
        return false;
      }
      return true;
    }
  }
}
