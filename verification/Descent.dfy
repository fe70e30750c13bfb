/**
 The recursive-descent parser of `reader.h`: `Parse`, `ParseValue`,
 `ParseObject` and `ParseArray`. The loops over members and elements are
 written as recursion over the rest of the container.
 */
module Descent {
  import opened Bytes
  import opened Json
  import opened Lexer

  function ParseValue(c: Config, pos: nat, ev: seq<Event>): (r: Outcome)
    ensures r.Ok? ==> pos < r.pos <= |c.src|
    ensures ev <= r.ev
    decreases |c.src| - pos, 2
  {
    if At(c.src, pos) == LBRACE then ParseObject(c, pos, ev)
    else if At(c.src, pos) == LBRACKET then ParseArray(c, pos, ev)
    else ParseScalar(c, pos, ev)
  }

  function ParseArray(c: Config, pos: nat, ev: seq<Event>): (r: Outcome)
    requires At(c.src, pos) == LBRACKET
    ensures r.Ok? ==> pos < r.pos <= |c.src|
    ensures ev <= r.ev
    decreases |c.src| - pos, 1
  {
    match Emit(c, ev, StartArray, pos + 1, pos + 1)
    case Fail(error, offset, ev1) => Fail(error, offset, ev1)
    case Ok(_, ev1) =>
      var p := SkipBlanks(c.src, pos + 1);
      if At(c.src, p) == RBRACKET then Emit(c, ev1, EndArray(0), p + 1, p + 1)
      else ParseElements(c, p, ev1, 0)
  }

  /** The elements from `pos` on, after `n` of them and a comma have been read. */
  function ParseElements(c: Config, pos: nat, ev: seq<Event>, n: nat): (r: Outcome)
    ensures r.Ok? ==> pos < r.pos <= |c.src|
    ensures ev <= r.ev
    decreases |c.src| - pos, 3
  {
    match ParseValue(c, pos, ev)
    case Fail(error, offset, ev1) => Fail(error, offset, ev1)
    case Ok(next, ev1) =>
      var p := SkipBlanks(c.src, next);
      if At(c.src, p) == COMMA then
        var q := SkipBlanks(c.src, p + 1);
        if c.trailingCommas && At(c.src, q) == RBRACKET then Emit(c, ev1, EndArray(n + 1), q + 1, q)
        else ParseElements(c, q, ev1, n + 1)
      else if At(c.src, p) == RBRACKET then Emit(c, ev1, EndArray(n + 1), p + 1, p + 1)
      else Fail(ArrayMissCommaOrSquareBracket, p, ev1)
  }

  function ParseObject(c: Config, pos: nat, ev: seq<Event>): (r: Outcome)
    requires At(c.src, pos) == LBRACE
    ensures r.Ok? ==> pos < r.pos <= |c.src|
    ensures ev <= r.ev
    decreases |c.src| - pos, 1
  {
    match Emit(c, ev, StartObject, pos + 1, pos + 1)
    case Fail(error, offset, ev1) => Fail(error, offset, ev1)
    case Ok(_, ev1) =>
      var p := SkipBlanks(c.src, pos + 1);
      if At(c.src, p) == RBRACE then Emit(c, ev1, EndObject(0), p + 1, p + 1)
      else ParseMembers(c, p, ev1, 0)
  }

  /** The members from `pos` on, after `n` of them and a comma have been read. */
  function ParseMembers(c: Config, pos: nat, ev: seq<Event>, n: nat): (r: Outcome)
    ensures r.Ok? ==> pos < r.pos <= |c.src|
    ensures ev <= r.ev
    decreases |c.src| - pos, 3
  {
    match ParseMember(c, pos, ev)
    case Fail(error, offset, ev1) => Fail(error, offset, ev1)
    case Ok(next, ev1) =>
      var p := SkipBlanks(c.src, next);
      if At(c.src, p) == COMMA then
        var q := SkipBlanks(c.src, p + 1);
        if c.trailingCommas && At(c.src, q) == RBRACE then Emit(c, ev1, EndObject(n + 1), q + 1, q)
        else ParseMembers(c, q, ev1, n + 1)
      else if At(c.src, p) == RBRACE then Emit(c, ev1, EndObject(n + 1), p + 1, p + 1)
      else Fail(ObjectMissCommaOrCurlyBracket, p, ev1)
  }

  /** One member: name, colon, value. */
  function ParseMember(c: Config, pos: nat, ev: seq<Event>): (r: Outcome)
    ensures r.Ok? ==> pos < r.pos <= |c.src|
    ensures ev <= r.ev
    decreases |c.src| - pos, 2
  {
    if At(c.src, pos) != QUOTE then Fail(ObjectMissName, pos, ev)
    else
      match ParseString(c, pos, ev, true)
      case Fail(error, offset, ev1) => Fail(error, offset, ev1)
      case Ok(next, ev1) =>
        var p := SkipBlanks(c.src, next);
        if At(c.src, p) != COLON then Fail(ObjectMissColon, p, ev1)
        else ParseValue(c, SkipBlanks(c.src, p + 1), ev1)
  }

  /** `Parse`: one value between blanks. */
  function Parse(c: Config): Outcome {
    var p := SkipBlanks(c.src, 0);
    if At(c.src, p) == NUL then Fail(DocumentEmpty, p, [])
    else
      match ParseValue(c, p, [])
      case Fail(error, offset, ev) => Fail(error, offset, ev)
      case Ok(next, ev) =>
        var q := SkipBlanks(c.src, next);
        if At(c.src, q) != NUL then Fail(DocumentRootNotSingular, q, ev) else Ok(q, ev)
  }
}
