/**
 The pushdown automaton and the recursive-descent parser are the same parser:
 they emit the same events, accept the same texts and report the same errors.
 */
module ParserEquivalence {
  import opened Bytes
  import opened Json
  import opened Lexer
  import opened Descent
  import opened Pushdown

  /** The states in which the automaton expects a value. */
  predicate ExpectsValue(s: State) {
    s.Start? || s.ArrayInitial? || s.ElementDelimiter? || s.KeyValueDelimiter?
  }

  /** The state after that value. */
  function After(s: State): State
    requires ExpectsValue(s)
  {
    Resume(BackFrom(s))
  }

  /** A byte that can neither begin a value nor be skipped. */
  predicate IsStray(b: Byte) {
    b == RBRACKET || b == RBRACE || b == COMMA || b == COLON
  }

  /** The bytes at which the automaton does something other than parse a value. */
  predicate AtValue(c: Config, m: Machine) {
    var b := At(c.src, m.pos);
    && ExpectsValue(m.state)
    && (m.state.Start? ==> b != NUL && !IsStray(b))
    && (m.state.ArrayInitial? ==> b != RBRACKET)
    && (m.state.ElementDelimiter? && c.trailingCommas ==> b != RBRACKET)
  }

  /** The last byte before `pos` that is not blank. */
  function ByteBefore(s: seq<Byte>, pos: nat): Byte {
    if pos == 0 then NUL
    else if IsBlank(At(s, pos - 1)) then ByteBefore(s, pos - 1) else At(s, pos - 1)
  }

  lemma {:induction false} BlanksBefore(s: seq<Byte>, pos: nat)
    ensures ByteBefore(s, SkipBlanks(s, pos)) == ByteBefore(s, pos)
    decreases |s| - pos
  {
    if IsBlank(At(s, pos)) {
      BlanksBefore(s, pos + 1);
    }
  }

  /** The handler stopped the automaton at a bracket that the descent parser takes before it calls the
      handler: every bracket but one that closes a container behind a trailing comma. */
  predicate TakenFirst(s: seq<Byte>, automaton: Outcome) {
    && automaton.Fail? && automaton.error == Termination && automaton.ev != []
    && var e := automaton.ev[|automaton.ev| - 1];
       || e.StartObject? || e.StartArray?
       || ((e.EndObject? || e.EndArray?) && ByteBefore(s, automaton.offset) != COMMA)
  }

  /** The descent parser's outcome, from the automaton's: such a veto is reported one byte later. */
  function AsDescent(s: seq<Byte>, automaton: Outcome): Outcome {
    if TakenFirst(s, automaton) then automaton.(offset := automaton.offset + 1) else automaton
  }

  /** What a run becomes once the value (or the rest of the container) it is at has the descent
      outcome `r`: it fails alike, or goes on behind it in `state` with `stack`. */
  ghost predicate Follows(c: Config, m: Machine, r: Outcome, state: State, stack: seq<Frame>)
    requires Balanced(m)
  {
    if r.Fail? then r == AsDescent(c.src, Run(c, m))
    else
      var next := Machine(state, stack, SkipBlanks(c.src, r.pos), r.ev);
      Balanced(next) && Run(c, m) == Run(c, next)
  }

  // ---- Single steps of the automaton ----

  /** A run takes the step `Transit` makes, skips blanks and goes on. */
  lemma RunStep(c: Config, m: Machine)
    requires Balanced(m) && At(c.src, m.pos) != NUL
    ensures var t := Transit(c, m);
            && (t.Halt? ==> Run(c, m) == Fail(t.error, t.offset, t.ev))
            && (t.Next? ==> Balanced(t.m) && m.pos < t.m.pos && Run(c, m) == Run(c, Skipped(c, t.m)))
  {
    hide Transit;
    TransitKeepsBalance(c, m);
  }

  lemma OpenStep(c: Config, m: Machine, dst: State, e: Event)
    requires Balanced(m) && ExpectsValue(m.state)
    requires || (At(c.src, m.pos) == LBRACKET && dst.ArrayInitial? && e == StartArray)
             || (At(c.src, m.pos) == LBRACE && dst.ObjectInitial? && e == StartObject)
    ensures c.handler(m.ev + [e]) ==>
              var inner := Skipped(c, Machine(dst, m.stack + [Frame(BackFrom(m.state), 0)], m.pos + 1, m.ev + [e]));
              Balanced(inner) && Run(c, m) == Run(c, inner)
    ensures !c.handler(m.ev + [e]) ==> Run(c, m) == Fail(Termination, m.pos, m.ev + [e])
  {
    hide Transit, Run, Nested, SkipBlanks;
    TransitOpens(c, m, dst, e);
    RunStep(c, m);
  }

  lemma TransitOpens(c: Config, m: Machine, dst: State, e: Event)
    requires Balanced(m) && ExpectsValue(m.state)
    requires || (At(c.src, m.pos) == LBRACKET && dst.ArrayInitial? && e == StartArray)
             || (At(c.src, m.pos) == LBRACE && dst.ObjectInitial? && e == StartObject)
    ensures Transit(c, m) == Open(c, m, dst, e)
  {
    hide ParseScalar, ParseString, Nested;
  }

  /** The byte and state at which a container is closed with the event `e`. */
  predicate Closes(c: Config, m: Machine, e: Event)
    requires m.stack != []
  {
    var n := m.stack[|m.stack| - 1].count;
    match m.state
    case ArrayInitial => At(c.src, m.pos) == RBRACKET && e == EndArray(n)
    case Element => At(c.src, m.pos) == RBRACKET && e == EndArray(n + 1)
    case ElementDelimiter => At(c.src, m.pos) == RBRACKET && c.trailingCommas && e == EndArray(n)
    case ObjectInitial => At(c.src, m.pos) == RBRACE && e == EndObject(n)
    case MemberValue => At(c.src, m.pos) == RBRACE && e == EndObject(n + 1)
    case MemberDelimiter => At(c.src, m.pos) == RBRACE && c.trailingCommas && e == EndObject(n)
    case _ => false
  }

  lemma CloseStep(c: Config, m: Machine, e: Event)
    requires Balanced(m) && m.stack != [] && Closes(c, m, e)
    ensures var i := |m.stack| - 1;
            var offset := if ByteBefore(c.src, m.pos) == COMMA then m.pos else m.pos + 1;
            Follows(c, m, Emit(c, m.ev, e, m.pos + 1, offset), Resume(m.stack[i].back), m.stack[..i])
  {
    hide Transit, Run, Nested, SkipBlanks, ByteBefore;
    TransitCloses(c, m, e);
    RunStep(c, m);
  }

  lemma TransitCloses(c: Config, m: Machine, e: Event)
    requires Balanced(m) && m.stack != [] && Closes(c, m, e)
    ensures At(c.src, m.pos) != NUL && Transit(c, m) == Close(c, m, e)
  {
    hide ParseScalar, ParseString, Nested;
  }

  lemma CommaStep(c: Config, m: Machine, dst: State)
    requires Balanced(m) && At(c.src, m.pos) == COMMA
    requires (m.state.Element? && dst.ElementDelimiter?) || (m.state.MemberValue? && dst.MemberDelimiter?)
    ensures var m' := Skipped(c, Counted(m).(state := dst, pos := m.pos + 1));
            Balanced(m') && Run(c, m) == Run(c, m')
  {
    hide Transit, Run, Nested, SkipBlanks;
    TransitSeparates(c, m, dst);
    RunStep(c, m);
  }

  lemma TransitSeparates(c: Config, m: Machine, dst: State)
    requires Balanced(m) && At(c.src, m.pos) == COMMA
    requires (m.state.Element? && dst.ElementDelimiter?) || (m.state.MemberValue? && dst.MemberDelimiter?)
    ensures Transit(c, m) == Next(Counted(m).(state := dst, pos := m.pos + 1))
  {
    hide ParseScalar, ParseString, Nested;
  }

  /** A byte that neither separates nor closes after an element or a member. */
  lemma NoSeparator(c: Config, m: Machine)
    requires Balanced(m) && At(c.src, m.pos) != COMMA
    requires || (m.state.Element? && At(c.src, m.pos) != RBRACKET)
             || (m.state.MemberValue? && At(c.src, m.pos) != RBRACE)
    ensures Run(c, m) == AsDescent(c.src, Run(c, m)) == Fail(StateError(m.state), m.pos, m.ev)
  {
    hide ParseScalar, ParseString, Nested, SkipBlanks;
    if At(c.src, m.pos) != NUL {
      assert Transit(c, m) == Halt(StateError(m.state), m.pos, m.ev);
    }
  }

  // ---- The last byte of a value ----

  predicate EndsValue(b: Byte) {
    b == QUOTE || b == RBRACKET || b == RBRACE || IsDigit(b) || b == 0x65 || b == 0x6C
  }

  lemma {:induction false} StringEnds(s: seq<Byte>, pos: nat, acc: seq<Byte>)
    ensures var r := ScanString(s, pos, acc); r.Scanned? ==> At(s, r.next - 1) == QUOTE
    decreases |s| - pos
  {
    hide ScanEscape;
    var b := At(s, pos);
    if b == BACKSLASH {
      var r := ScanEscape(s, pos);
      if r.Scanned? {
        StringEnds(s, r.next, acc + r.bytes);
      }
    } else if b != QUOTE && b >= 0x20 {
      StringEnds(s, pos + 1, acc + [b]);
    }
  }

  lemma NumberEnds(c: Config, pos: nat)
    ensures var r := ScanNumber(c, pos); r.Number? ==> IsDigit(At(c.src, r.next - 1))
  {
    hide NatAt, FoldedDigits, IntegerEvent;
  }

  lemma ScalarEnds(c: Config, pos: nat, ev: seq<Event>)
    ensures var r := ParseScalar(c, pos, ev); r.Ok? ==> EndsValue(At(c.src, r.pos - 1))
  {
    hide ScanString, ScanNumber, Consumed;
    StringEnds(c.src, pos + 1, []);
    NumberEnds(c, pos);
    assert Consumed(c.src, pos, NULL) == 4 ==> At(c.src, pos + 3) == NULL[3];
    assert Consumed(c.src, pos, TRUE) == 4 ==> At(c.src, pos + 3) == TRUE[3];
    assert Consumed(c.src, pos, FALSE) == 5 ==> At(c.src, pos + 4) == FALSE[4];
  }

  lemma {:induction false} ElementsEnd(c: Config, pos: nat, ev: seq<Event>, n: nat)
    ensures var r := ParseElements(c, pos, ev, n); r.Ok? ==> At(c.src, r.pos - 1) == RBRACKET
    decreases |c.src| - pos
  {
    hide ParseValue, SkipBlanks;
    var r := ParseValue(c, pos, ev);
    if r.Ok? {
      var p := SkipBlanks(c.src, r.pos);
      if At(c.src, p) == COMMA {
        ElementsEnd(c, SkipBlanks(c.src, p + 1), r.ev, n + 1);
      }
    }
  }

  lemma {:induction false} MembersEnd(c: Config, pos: nat, ev: seq<Event>, n: nat)
    ensures var r := ParseMembers(c, pos, ev, n); r.Ok? ==> At(c.src, r.pos - 1) == RBRACE
    decreases |c.src| - pos
  {
    hide ParseMember, SkipBlanks;
    var r := ParseMember(c, pos, ev);
    if r.Ok? {
      var p := SkipBlanks(c.src, r.pos);
      if At(c.src, p) == COMMA {
        MembersEnd(c, SkipBlanks(c.src, p + 1), r.ev, n + 1);
      }
    }
  }

  lemma ValueEnds(c: Config, pos: nat, ev: seq<Event>)
    ensures var r := ParseValue(c, pos, ev); r.Ok? ==> EndsValue(At(c.src, r.pos - 1))
  {
    hide ParseScalar, ParseElements, ParseMembers, SkipBlanks;
    ScalarEnds(c, pos, ev);
    var p := SkipBlanks(c.src, pos + 1);
    ElementsEnd(c, p, ev + [StartArray], 0);
    MembersEnd(c, p, ev + [StartObject], 0);
  }

  lemma MemberEnds(c: Config, pos: nat, ev: seq<Event>)
    ensures var r := ParseMember(c, pos, ev); r.Ok? ==> EndsValue(At(c.src, r.pos - 1))
  {
    hide ParseString, ParseValue, SkipBlanks, EndsValue;
    if At(c.src, pos) == QUOTE {
      var r := ParseString(c, pos, ev, true);
      if r.Ok? {
        ValueEnds(c, SkipBlanks(c.src, SkipBlanks(c.src, r.pos) + 1), r.ev);
      }
    }
  }

  /** Behind the end of a value or an opening bracket, and blanks, there is no comma just before. */
  lemma NoCommaBefore(s: seq<Byte>, pos: nat)
    requires pos > 0 && (EndsValue(At(s, pos - 1)) || At(s, pos - 1) == LBRACE || At(s, pos - 1) == LBRACKET)
    ensures ByteBefore(s, SkipBlanks(s, pos)) != COMMA
  {
    BlanksBefore(s, pos);
  }

  lemma CloseBehindValue(c: Config, m: Machine, e: Event, end: nat)
    requires Balanced(m) && m.stack != [] && Closes(c, m, e) && m.pos == SkipBlanks(c.src, end)
    requires end > 0 && (EndsValue(At(c.src, end - 1)) || At(c.src, end - 1) == LBRACE || At(c.src, end - 1) == LBRACKET)
    ensures var i := |m.stack| - 1;
            Follows(c, m, Emit(c, m.ev, e, m.pos + 1, m.pos + 1), Resume(m.stack[i].back), m.stack[..i])
  {
    hide Follows, Balanced, Closes, SkipBlanks, EndsValue, ByteBefore;
    NoCommaBefore(c.src, end);
    CloseStep(c, m, e);
  }

  lemma CloseBehindComma(c: Config, m: Machine, e: Event, comma: nat)
    requires Balanced(m) && m.stack != [] && Closes(c, m, e) && m.pos == SkipBlanks(c.src, comma + 1)
    requires At(c.src, comma) == COMMA
    ensures var i := |m.stack| - 1;
            Follows(c, m, Emit(c, m.ev, e, m.pos + 1, m.pos), Resume(m.stack[i].back), m.stack[..i])
  {
    hide Follows, Balanced, Closes, SkipBlanks;
    BlanksBefore(c.src, comma + 1);
    CloseStep(c, m, e);
  }

  // ---- Values ----

  /** A handler that stops the parse at a scalar or a name stops both parsers at one place. */
  lemma ScalarNotTaken(c: Config, pos: nat, ev: seq<Event>)
    ensures ParseScalar(c, pos, ev).Fail? ==> !TakenFirst(c.src, ParseScalar(c, pos, ev))
    ensures ParseString(c, pos, ev, true).Fail? ==> !TakenFirst(c.src, ParseString(c, pos, ev, true))
  {
    hide ScanString, Consumed, ByteBefore, ParseNumber;
    StringErrors(c.src, pos + 1, []);
    NumberNotTaken(c, pos, ev);
  }

  lemma {:induction false} StringErrors(s: seq<Byte>, pos: nat, acc: seq<Byte>)
    ensures var r := ScanString(s, pos, acc); r.Rejected? ==> r.error != Termination
    decreases |s| - pos
  {
    hide Hex4, Unescape;
    var b := At(s, pos);
    if b == BACKSLASH {
      var r := ScanEscape(s, pos);
      if r.Scanned? {
        StringErrors(s, r.next, acc + r.bytes);
      }
    } else if b != QUOTE && b >= 0x20 {
      StringErrors(s, pos + 1, acc + [b]);
    }
  }

  lemma NumberNotTaken(c: Config, pos: nat, ev: seq<Event>)
    ensures ParseNumber(c, pos, ev).Fail? ==> !TakenFirst(c.src, ParseNumber(c, pos, ev))
  {
    hide SkipDigits, NatAt, FoldedDigits, ByteBefore;
  }

  /** A stray byte, or the end of the text, is no scalar. */
  lemma StrayIsNoScalar(c: Config, pos: nat, ev: seq<Event>)
    requires At(c.src, pos) == NUL || IsStray(At(c.src, pos))
    ensures ParseScalar(c, pos, ev) == Fail(ValueInvalid, pos, ev)
  {
  }

  lemma ScalarSimulation(c: Config, m: Machine)
    requires Balanced(m) && AtValue(c, m)
    requires At(c.src, m.pos) != LBRACE && At(c.src, m.pos) != LBRACKET
    ensures Follows(c, m, ParseScalar(c, m.pos, m.ev), After(m.state), m.stack)
  {
    hide ParseScalar, ParseString;
    var b := At(c.src, m.pos);
    if b == NUL || IsStray(b) {
      StrayIsNoScalar(c, m.pos, m.ev);
      assert Run(c, m) == Fail(ValueInvalid, m.pos, m.ev);
    } else {
      assert Transit(c, m) == Moved(m, After(m.state), ParseScalar(c, m.pos, m.ev));
      ScalarNotTaken(c, m.pos, m.ev);
      hide Transit, Run;
      RunStep(c, m);
    }
  }

  lemma {:induction false} ValueSimulation(c: Config, m: Machine)
    requires Balanced(m) && AtValue(c, m)
    ensures Follows(c, m, ParseValue(c, m.pos, m.ev), After(m.state), m.stack)
    decreases |c.src| - m.pos, 2
  {
    hide ParseScalar, ParseString, Run;
    if At(c.src, m.pos) == LBRACKET {
      ArraySimulation(c, m);
    } else if At(c.src, m.pos) == LBRACE {
      ObjectSimulation(c, m);
    } else {
      ScalarSimulation(c, m);
    }
  }

  lemma {:induction false} ArraySimulation(c: Config, m: Machine)
    requires Balanced(m) && AtValue(c, m) && At(c.src, m.pos) == LBRACKET
    ensures Follows(c, m, ParseArray(c, m.pos, m.ev), After(m.state), m.stack)
    decreases |c.src| - m.pos, 1
  {
    hide ParseElements, Run, Nested, SkipBlanks, Transit, ParseValue;
    OpenStep(c, m, ArrayInitial, StartArray);
    if c.handler(m.ev + [StartArray]) {
      var inner := Skipped(c, Machine(ArrayInitial, m.stack + [Frame(BackFrom(m.state), 0)], m.pos + 1, m.ev + [StartArray]));
      assert inner.stack[..|m.stack|] == m.stack;
      if At(c.src, inner.pos) == RBRACKET {
        CloseBehindValue(c, inner, EndArray(0), m.pos + 1);
      } else {
        ElementsSimulation(c, inner);
      }
    }
  }

  lemma {:induction false} ElementsSimulation(c: Config, m: Machine)
    requires Balanced(m) && AtValue(c, m) && (m.state.ArrayInitial? || m.state.ElementDelimiter?)
    ensures var i := |m.stack| - 1;
            Follows(c, m, ParseElements(c, m.pos, m.ev, m.stack[i].count),
                    Resume(m.stack[i].back), m.stack[..i])
    decreases |c.src| - m.pos, 3
  {
    hide ParseValue, Run, Nested, SkipBlanks, Transit, AsDescent, ByteBefore, EndsValue;
    ValueSimulation(c, m);
    var r := ParseValue(c, m.pos, m.ev);
    if r.Ok? {
      var m1 := Machine(Element, m.stack, SkipBlanks(c.src, r.pos), r.ev);
      var i := |m.stack| - 1;
      if At(c.src, m1.pos) == COMMA {
        CommaStep(c, m1, ElementDelimiter);
        var m2 := Skipped(c, Counted(m1).(state := ElementDelimiter, pos := m1.pos + 1));
        assert m2.stack[..i] == m.stack[..i];
        if c.trailingCommas && At(c.src, m2.pos) == RBRACKET {
          CloseBehindComma(c, m2, EndArray(m.stack[i].count + 1), m1.pos);
        } else {
          ElementsSimulation(c, m2);
        }
      } else if At(c.src, m1.pos) == RBRACKET {
        ValueEnds(c, m.pos, m.ev);
        CloseBehindValue(c, m1, EndArray(m.stack[i].count + 1), r.pos);
      } else {
        NoSeparator(c, m1);
      }
    }
  }

  lemma {:induction false} ObjectSimulation(c: Config, m: Machine)
    requires Balanced(m) && AtValue(c, m) && At(c.src, m.pos) == LBRACE
    ensures Follows(c, m, ParseObject(c, m.pos, m.ev), After(m.state), m.stack)
    decreases |c.src| - m.pos, 1
  {
    hide ParseMembers, Run, Nested, SkipBlanks, Transit, ParseMember;
    OpenStep(c, m, ObjectInitial, StartObject);
    if c.handler(m.ev + [StartObject]) {
      var inner := Skipped(c, Machine(ObjectInitial, m.stack + [Frame(BackFrom(m.state), 0)], m.pos + 1, m.ev + [StartObject]));
      assert inner.stack[..|m.stack|] == m.stack;
      if At(c.src, inner.pos) == RBRACE {
        CloseBehindValue(c, inner, EndObject(0), m.pos + 1);
      } else {
        MembersSimulation(c, inner);
      }
    }
  }

  /** The bytes at which the automaton does something other than parse a member. */
  predicate AtMember(c: Config, m: Machine) {
    var b := At(c.src, m.pos);
    && (m.state.ObjectInitial? || m.state.MemberDelimiter?)
    && (m.state.ObjectInitial? || c.trailingCommas ==> b != RBRACE)
  }

  lemma KeyStep(c: Config, m: Machine)
    requires Balanced(m) && AtMember(c, m)
    ensures if At(c.src, m.pos) == QUOTE
            then Follows(c, m, ParseString(c, m.pos, m.ev, true), MemberKey, m.stack)
            else Run(c, m) == Fail(ObjectMissName, m.pos, m.ev)
  {
    hide ParseScalar, ParseString;
    if At(c.src, m.pos) == QUOTE {
      assert Transit(c, m) == Moved(m, MemberKey, ParseString(c, m.pos, m.ev, true));
      ScalarNotTaken(c, m.pos, m.ev);
      hide Transit, Run;
      RunStep(c, m);
    }
  }

  lemma ColonStep(c: Config, m: Machine)
    requires Balanced(m) && m.state.MemberKey?
    ensures var next := Skipped(c, m.(state := KeyValueDelimiter, pos := m.pos + 1));
            if At(c.src, m.pos) == COLON then Balanced(next) && Run(c, m) == Run(c, next)
            else Run(c, m) == Fail(ObjectMissColon, m.pos, m.ev)
  {
    if At(c.src, m.pos) == COLON {
      assert Transit(c, m) == Next(m.(state := KeyValueDelimiter, pos := m.pos + 1));
      hide Transit, Run;
      RunStep(c, m);
    }
  }

  lemma {:induction false} MemberSimulation(c: Config, m: Machine)
    requires Balanced(m) && AtMember(c, m)
    ensures Follows(c, m, ParseMember(c, m.pos, m.ev), MemberValue, m.stack)
    decreases |c.src| - m.pos, 3
  {
    hide ParseValue, ParseString, Run, Nested, SkipBlanks;
    KeyStep(c, m);
    if At(c.src, m.pos) == QUOTE {
      var r := ParseString(c, m.pos, m.ev, true);
      if r.Ok? {
        var m1 := Machine(MemberKey, m.stack, SkipBlanks(c.src, r.pos), r.ev);
        ColonStep(c, m1);
        if At(c.src, m1.pos) == COLON {
          ValueSimulation(c, Skipped(c, m1.(state := KeyValueDelimiter, pos := m1.pos + 1)));
        }
      }
    }
  }

  lemma {:induction false} MembersSimulation(c: Config, m: Machine)
    requires Balanced(m) && AtMember(c, m)
    ensures var i := |m.stack| - 1;
            Follows(c, m, ParseMembers(c, m.pos, m.ev, m.stack[i].count),
                    Resume(m.stack[i].back), m.stack[..i])
    decreases |c.src| - m.pos, 4
  {
    hide ParseMember, Run, Nested, SkipBlanks, Transit, AsDescent, ByteBefore, EndsValue;
    MemberSimulation(c, m);
    var r := ParseMember(c, m.pos, m.ev);
    if r.Ok? {
      var m1 := Machine(MemberValue, m.stack, SkipBlanks(c.src, r.pos), r.ev);
      var i := |m.stack| - 1;
      if At(c.src, m1.pos) == COMMA {
        CommaStep(c, m1, MemberDelimiter);
        var m2 := Skipped(c, Counted(m1).(state := MemberDelimiter, pos := m1.pos + 1));
        assert m2.stack[..i] == m.stack[..i];
        if c.trailingCommas && At(c.src, m2.pos) == RBRACE {
          CloseBehindComma(c, m2, EndObject(m.stack[i].count + 1), m1.pos);
        } else {
          MembersSimulation(c, m2);
        }
      } else if At(c.src, m1.pos) == RBRACE {
        MemberEnds(c, m.pos, m.ev);
        CloseBehindValue(c, m1, EndObject(m.stack[i].count + 1), r.pos);
      } else {
        NoSeparator(c, m1);
      }
    }
  }

  /** The main result: on every text, with trailing commas on or off and for every handler, the
      outcome of the one parser gives the outcome of the other. They accept the same texts with the
      same events and name the same errors at the same places, with two differences: a text that
      begins with a stray byte is an invalid value or an empty document, and a veto at a bracket that
      the descent parser takes first is reported one byte apart. */
  lemma ParsersAgree(c: Config)
    ensures var b := At(c.src, SkipBlanks(c.src, 0));
            var (descent, automaton) := (Parse(c), IterativeParse(c));
            && descent.Ok? == automaton.Ok?
            && descent.ev == automaton.ev
            && (if IsStray(b) then
                  && descent == Fail(ValueInvalid, SkipBlanks(c.src, 0), [])
                  && automaton == Fail(DocumentEmpty, SkipBlanks(c.src, 0), [])
                else descent == AsDescent(c.src, automaton))
  {
    var m := Skipped(c, START);
    if IsStray(At(c.src, m.pos)) {
      StrayIsNoScalar(c, m.pos, []);
    } else if At(c.src, m.pos) != NUL {
      hide ParseScalar, ParseString;
      ValueSimulation(c, m);
    }
  }

  /** A handler that refuses the first bracket of "[]" stops the descent parser at 1 and the automaton
      at 0. */
  lemma VetoApart(c: Config)
    requires c.src == [LBRACKET, RBRACKET] && !c.handler([StartArray])
    ensures Parse(c) == Fail(Termination, 1, [StartArray]) && IterativeParse(c) == Fail(Termination, 0, [StartArray])
  {
    assert [] + [StartArray] == [StartArray];
    ParsersAgree(c);
  }

  // ---- One token at a time ----

  /** A step taken at the end of the text, behind blanks, fails as the end of the text does. */
  lemma StepAtEnd(c: Config, m: Machine)
    requires Balanced(m) && At(c.src, m.pos) == NUL && !m.state.Start?
    ensures Transit(c, m) == Halt(StateError(m.state), m.pos, m.ev)
  {
    StrayIsNoScalar(c, m.pos, m.ev);
  }

  lemma {:induction false} NextFollowsRun(c: Config, m: Machine)
    requires Balanced(m) && !m.state.Finish?
    requires m.state.Start? ==> At(c.src, m.pos) == NUL || At(c.src, SkipBlanks(c.src, m.pos)) != NUL
    ensures var r := ParseNext(c, m);
            && (r.Stopped? ==> Run(c, Skipped(c, m)) == Fail(r.error, r.offset, r.ev))
            && (r.Completed? ==> Run(c, Skipped(c, m)) == Ok(r.m.pos, r.m.ev))
            && (r.Returned? ==>
                  && !r.m.state.Start? && !r.m.state.Finish?
                  && Run(c, Skipped(c, m)) == Run(c, Skipped(c, r.m)))
    decreases |c.src| - m.pos
  {
    hide Transit, Nested;
    var m0 := Skipped(c, m);
    if At(c.src, m.pos) != NUL {
      TransitKeepsBalance(c, m0);
      if At(c.src, m0.pos) == NUL {
        StepAtEnd(c, m0);
      } else {
        RunStep(c, m0);
        if Transit(c, m0).Next? {
          var m1 := Transit(c, m0).m;
          NotStart(c, m0);
          if m1.state.Finish? {
            AfterFinish(c, Skipped(c, m1));
          } else if IsDelimiter(m1.state) {
            NextFollowsRun(c, m1);
          }
        }
      }
    }
  }

  lemma NotStart(c: Config, m: Machine)
    requires Balanced(m) && Transit(c, m).Next?
    ensures !Transit(c, m).m.state.Start?
  {
    hide ParseScalar, ParseString;
  }

  /** After the root value only the end of the text is accepted. */
  lemma AfterFinish(c: Config, m: Machine)
    requires Balanced(m) && m.state.Finish?
    ensures Run(c, m) == if At(c.src, m.pos) == NUL then Ok(m.pos, m.ev)
                         else Fail(DocumentRootNotSingular, m.pos, m.ev)
  {
    hide ParseScalar, ParseString;
  }

  lemma {:induction false} DriveFollowsRun(c: Config, m: Machine)
    requires Balanced(m) && !m.state.Finish?
    requires m.state.Start? ==> At(c.src, m.pos) == NUL || At(c.src, SkipBlanks(c.src, m.pos)) != NUL
    ensures Drive(c, m) == Run(c, Skipped(c, m))
    decreases |c.src| - m.pos
  {
    hide ParseNext, Run;
    NextFollowsRun(c, m);
    var r := ParseNext(c, m);
    if r.Returned? {
      DriveFollowsRun(c, r.m);
    }
  }

  /** Parsing token by token gives what parsing in one go gives. The one difference is the error
      for a text of nothing but blanks, which is then called an invalid value. */
  lemma StepwiseAgrees(c: Config)
    ensures var end := SkipBlanks(c.src, 0);
            if 0 < end && At(c.src, end) == NUL then
              && Drive(c, START) == Fail(ValueInvalid, end, [])
              && IterativeParse(c) == Fail(DocumentEmpty, end, [])
            else Drive(c, START) == IterativeParse(c)
  {
    var m0 := Skipped(c, START);
    if 0 < m0.pos && At(c.src, m0.pos) == NUL {
      StrayIsNoScalar(c, m0.pos, []);
    } else {
      hide ParseScalar, ParseString;
      DriveFollowsRun(c, START);
    }
  }
}
