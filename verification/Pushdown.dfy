/**
 The iterative parser of `reader.h`: a table-driven pushdown automaton
 (`Tokenize`, `Predict`, `Transit`) run by `IterativeParse`, or one token at a
 time by `IterativeParseNext`.
 */
module Pushdown {
  import opened Bytes
  import opened Json
  import opened Lexer

  datatype State =
    | Finish
    | Error
    | Start
    | ObjectInitial
    | MemberKey
    | MemberValue
    | ObjectFinish
    | ArrayInitial
    | Element
    | ArrayFinish
    | Value
    | ElementDelimiter
    | MemberDelimiter
    | KeyValueDelimiter

  datatype Token =
    | LeftBracket
    | RightBracket
    | LeftCurlyBracket
    | RightCurlyBracket
    | Comma
    | Colon
    | StringToken
    | FalseToken
    | TrueToken
    | NullToken
    | NumberToken

  function Tokenize(b: Byte): Token {
    match b
    case 0x22 => StringToken
    case 0x2C => Comma
    case 0x3A => Colon
    case 0x5B => LeftBracket
    case 0x5D => RightBracket
    case 0x66 => FalseToken
    case 0x6E => NullToken
    case 0x74 => TrueToken
    case 0x7B => LeftCurlyBracket
    case 0x7D => RightCurlyBracket
    case _ => NumberToken
  }

  /** The row of a state in which a value may begin: `scalar` is where a scalar leads. */
  function ValueRow(token: Token, scalar: State, rightBracket: State): State {
    match token
    case LeftBracket => ArrayInitial
    case RightBracket => rightBracket
    case LeftCurlyBracket => ObjectInitial
    case RightCurlyBracket => Error
    case Comma => Error
    case Colon => Error
    case _ => scalar
  }

  /** The table `G`: current state and lookahead token to destination state. */
  function Predict(state: State, token: Token): State {
    match state
    case Start => ValueRow(token, Value, Error)
    case ObjectInitial => MemberRow(token)
    case MemberKey => if token == Colon then KeyValueDelimiter else Error
    case MemberValue =>
      if token == RightCurlyBracket then ObjectFinish
      else if token == Comma then MemberDelimiter else Error
    case ArrayInitial => ValueRow(token, Element, ArrayFinish)
    case Element =>
      if token == RightBracket then ArrayFinish
      else if token == Comma then ElementDelimiter else Error
    case ElementDelimiter => ValueRow(token, Element, ArrayFinish)
    case MemberDelimiter => MemberRow(token)
    case KeyValueDelimiter => ValueRow(token, MemberValue, Error)
    case _ => Error
  }

  function MemberRow(token: Token): State {
    if token == RightCurlyBracket then ObjectFinish
    else if token == StringToken then MemberKey else Error
  }

  /** An open container: the state to return to, and the commas counted so far. */
  datatype Frame = Frame(back: State, count: nat)

  /** The automaton: its state, the open containers (innermost last), the stream position and
      the events emitted. */
  datatype Machine = Machine(state: State, stack: seq<Frame>, pos: nat, ev: seq<Event>)

  /** The outermost container returns to `Start`, the others to the middle of their parent. */
  ghost predicate Nested(stack: seq<Frame>) {
    forall i :: 0 <= i < |stack| ==>
                  if i == 0 then stack[i].back == Start
                  else stack[i].back == Element || stack[i].back == MemberValue
  }

  /** What every run keeps: it is outside any container exactly in `Start` and `Finish`. */
  ghost predicate Balanced(m: Machine) {
    && !m.state.Error? && !m.state.Value? && !m.state.ObjectFinish? && !m.state.ArrayFinish?
    && (m.stack == [] <==> m.state.Start? || m.state.Finish?)
    && Nested(m.stack)
  }

  datatype Step = Next(m: Machine) | Halt(error: ParseError, offset: nat, ev: seq<Event>)

  /** `HandleError`: the error for a token that the table refuses in a state. */
  function StateError(s: State): ParseError {
    match s
    case Start => DocumentEmpty
    case Finish => DocumentRootNotSingular
    case ObjectInitial => ObjectMissName
    case MemberDelimiter => ObjectMissName
    case MemberKey => ObjectMissColon
    case MemberValue => ObjectMissCommaOrCurlyBracket
    case KeyValueDelimiter => ValueInvalid
    case ArrayInitial => ValueInvalid
    case ElementDelimiter => ValueInvalid
    case _ => ArrayMissCommaOrSquareBracket
  }

  /** The state pushed when a container opens: where its end returns to. */
  function BackFrom(s: State): State {
    if s == ArrayInitial || s == ElementDelimiter then Element
    else if s == KeyValueDelimiter then MemberValue
    else s
  }

  function Resume(back: State): State {
    if back == Start then Finish else back
  }

  /** A sub-parse that moves to `dst`, or stops the run. */
  function Moved(m: Machine, dst: State, r: Outcome): Step {
    match r
    case Ok(pos, ev) => Next(Machine(dst, m.stack, pos, ev))
    case Fail(error, offset, ev) => Halt(error, offset, ev)
  }

  function Open(c: Config, m: Machine, dst: State, e: Event): Step {
    match Emit(c, m.ev, e, m.pos + 1, m.pos)
    case Fail(error, offset, ev) => Halt(error, offset, ev)
    case Ok(pos, ev) => Next(Machine(dst, m.stack + [Frame(BackFrom(m.state), 0)], pos, ev))
  }

  function Close(c: Config, m: Machine, e: Event): Step
    requires m.stack != []
  {
    var top := m.stack[|m.stack| - 1];
    match Emit(c, m.ev, e, m.pos + 1, m.pos)
    case Fail(error, offset, ev) => Halt(error, offset, ev)
    case Ok(pos, ev) => Next(Machine(Resume(top.back), m.stack[..|m.stack| - 1], pos, ev))
  }

  /** `Transit` from the state of `m` to the destination the table predicts. */
  function Transit(c: Config, m: Machine): (r: Step)
    requires Balanced(m)
  {
    var dst := Predict(m.state, Tokenize(At(c.src, m.pos)));
    match dst
    case Error => Halt(StateError(m.state), m.pos, m.ev)
    case ObjectInitial => Open(c, m, dst, StartObject)
    case ArrayInitial => Open(c, m, dst, StartArray)
    case MemberKey => Moved(m, dst, ParseString(c, m.pos, m.ev, true))
    case KeyValueDelimiter => Next(m.(state := dst, pos := m.pos + 1))
    case MemberValue => Moved(m, dst, ParseScalar(c, m.pos, m.ev))
    case Element => Moved(m, dst, ParseScalar(c, m.pos, m.ev))
    case MemberDelimiter => Next(Counted(m).(state := dst, pos := m.pos + 1))
    case ElementDelimiter => Next(Counted(m).(state := dst, pos := m.pos + 1))
    case ObjectFinish =>
      if !c.trailingCommas && m.state == MemberDelimiter then Halt(ObjectMissName, m.pos, m.ev)
      else
        var count := m.stack[|m.stack| - 1].count;
        Close(c, m, EndObject(if m.state == MemberValue then count + 1 else count))
    case ArrayFinish =>
      if !c.trailingCommas && m.state == ElementDelimiter then Halt(ValueInvalid, m.pos, m.ev)
      else
        var count := m.stack[|m.stack| - 1].count;
        Close(c, m, EndArray(if m.state == Element then count + 1 else count))
    case _ => Moved(m, Finish, ParseScalar(c, m.pos, m.ev))
  }

  /** One more comma in the innermost container. */
  function Counted(m: Machine): Machine
    requires m.stack != []
  {
    var i := |m.stack| - 1;
    m.(stack := m.stack[i := Frame(m.stack[i].back, m.stack[i].count + 1)])
  }

  lemma OpenKeepsBalance(c: Config, m: Machine, dst: State, e: Event)
    requires Balanced(m) && (dst.ObjectInitial? || dst.ArrayInitial?)
    requires BackFrom(m.state).Start? || BackFrom(m.state).Element? || BackFrom(m.state).MemberValue?
    requires m.stack == [] <==> m.state.Start?
    ensures Open(c, m, dst, e).Next? ==> Balanced(Open(c, m, dst, e).m)
  {
  }

  lemma CloseKeepsBalance(c: Config, m: Machine, e: Event)
    requires Balanced(m) && m.stack != []
    ensures Close(c, m, e).Next? ==> Balanced(Close(c, m, e).m)
  {
  }

  /** Every step keeps the run balanced and moves forward. */
  lemma TransitKeepsBalance(c: Config, m: Machine)
    requires Balanced(m)
    ensures var r := Transit(c, m);
            r.Next? ==> Balanced(r.m) && m.pos < r.m.pos <= |c.src| && m.ev <= r.m.ev
  {
    hide ParseScalar, ParseString;
    var dst := Predict(m.state, Tokenize(At(c.src, m.pos)));
    match dst
    case ObjectInitial => OpenKeepsBalance(c, m, dst, StartObject);
    case ArrayInitial => OpenKeepsBalance(c, m, dst, StartArray);
    case ObjectFinish =>
      var count := m.stack[|m.stack| - 1].count;
      CloseKeepsBalance(c, m, EndObject(if m.state == MemberValue then count + 1 else count));
    case ArrayFinish =>
      var count := m.stack[|m.stack| - 1].count;
      CloseKeepsBalance(c, m, EndArray(if m.state == Element then count + 1 else count));
    case _ =>
  }

  /** The loop of `IterativeParse` from a machine whose position is past the blanks. */
  function Run(c: Config, m: Machine): Outcome
    requires Balanced(m)
    decreases |c.src| - m.pos
  {
    if At(c.src, m.pos) == NUL then
      if m.state == Finish then Ok(m.pos, m.ev) else Fail(StateError(m.state), m.pos, m.ev)
    else
      TransitKeepsBalance(c, m);
      match Transit(c, m)
      case Halt(error, offset, ev) => Fail(error, offset, ev)
      case Next(m') => Run(c, Skipped(c, m'))
  }

  function Skipped(c: Config, m: Machine): Machine {
    m.(pos := SkipBlanks(c.src, m.pos))
  }

  const START := Machine(Start, [], 0, [])

  /** `IterativeParse`. */
  function IterativeParse(c: Config): Outcome {
    Run(c, Skipped(c, START))
  }

  // ---- One token at a time ----

  predicate IsDelimiter(s: State) {
    s.ElementDelimiter? || s.MemberDelimiter? || s.KeyValueDelimiter?
  }

  /** What a call of `IterativeParseNext` leaves: a parse to go on with, a complete one, or an
      error (and then `state_` stays as it was). */
  datatype NextResult =
    | Returned(m: Machine)
    | Completed(m: Machine)
    | Stopped(error: ParseError, offset: nat, ev: seq<Event>)

  /** `IterativeParseNext`: run until a token other than a delimiter has been handled. */
  function ParseNext(c: Config, m: Machine): (r: NextResult)
    requires Balanced(m)
    ensures r.Returned? ==> Balanced(r.m) && m.pos < r.m.pos <= |c.src|
    decreases |c.src| - m.pos
  {
    if At(c.src, m.pos) == NUL then
      if m.state.Finish? then Completed(m) else Stopped(StateError(m.state), m.pos, m.ev)
    else
      var m0 := Skipped(c, m);
      TransitKeepsBalance(c, m0);
      match Transit(c, m0)
      case Halt(error, offset, ev) => Stopped(error, offset, ev)
      case Next(m1) =>
        if m1.state.Finish? then
          var end := SkipBlanks(c.src, m1.pos);
          if At(c.src, end) != NUL then Stopped(StateError(Finish), end, m1.ev)
          else Completed(m1.(pos := end))
        else if IsDelimiter(m1.state) then ParseNext(c, m1)
        else Returned(m1)
  }

  /** Call `IterativeParseNext` until the parse is complete or fails. */
  function Drive(c: Config, m: Machine): Outcome
    requires Balanced(m)
    decreases |c.src| - m.pos
  {
    match ParseNext(c, m)
    case Stopped(error, offset, ev) => Fail(error, offset, ev)
    case Completed(m1) => Ok(m1.pos, m1.ev)
    case Returned(m1) => Drive(c, m1)
  }

  /** The state reached is a delimiter state exactly when the predicted one is. */
  lemma DelimiterPredicted(c: Config, m: Machine)
    requires Balanced(m) && Transit(c, m).Next?
    ensures IsDelimiter(Transit(c, m).m.state) <==> IsDelimiter(Predict(m.state, Tokenize(At(c.src, m.pos))))
  {
    hide ParseScalar, ParseString;
  }
}
