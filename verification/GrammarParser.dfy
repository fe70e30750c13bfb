/**
 The parsers accept exactly the JSON texts of the grammar, with exactly the events
 that the grammar gives them.
 */
module GrammarParser {
  import opened Bytes
  import opened Json
  import opened Lexer
  import opened Descent
  import E = ParserEquivalence
  import G = Grammar
  import L = StringLiterals
  import N = GrammarNumbers
  import P = Pushdown
  import ReadBack
  import S = GrammarStrings

  // ---- White space ----

  lemma BlanksAreWs(b: Byte)
    ensures IsBlank(b) <==> G.IsWs(b)
  {
  }

  lemma {:induction false} WsSkipped(w: seq<Byte>, s: seq<Byte>, pos: nat)
    requires G.AllWs(w) && Occurs(w, s, pos) && !IsBlank(At(s, pos + |w|))
    ensures SkipBlanks(s, pos) == pos + |w|
    decreases |w|
  {
    if w != [] {
      L.ByteAt(w, s, pos, 0);
      BlanksAreWs(w[0]);
      assert w == [w[0]] + w[1..];
      L.OccursSplit([w[0]], w[1..], s, pos);
      WsSkipped(w[1..], s, pos + 1);
    }
  }

  /** The blanks at `pos`. */
  function Blanks(s: seq<Byte>, pos: nat): seq<Byte>
    requires pos <= |s|
  {
    if SkipBlanks(s, pos) <= |s| then s[pos..SkipBlanks(s, pos)] else []
  }

  lemma {:induction false} BlanksOccur(s: seq<Byte>, pos: nat)
    requires pos <= |s|
    ensures SkipBlanks(s, pos) == pos + |Blanks(s, pos)| <= |s|
    ensures G.AllWs(Blanks(s, pos)) && Occurs(Blanks(s, pos), s, pos)
    decreases |s| - pos
  {
    hide Occurs, G.IsWs;
    if IsBlank(At(s, pos)) {
      BlanksAreWs(s[pos]);
      BlanksOccur(s, pos + 1);
      assert Blanks(s, pos) == [s[pos]] + Blanks(s, pos + 1);
      N.ByteOccurs(s, pos);
      N.OccursJoin([s[pos]], Blanks(s, pos + 1), s, pos);
    } else {
      N.NothingOccurs(s, pos);
    }
  }

  // ---- First bytes ----

  /** A byte that begins a value, or a closing bracket or brace: never a blank. */
  predicate Begins(b: Byte) {
    !IsBlank(b) && b != COMMA && b != COLON && b != NUL
  }

  predicate BeginsValue(b: Byte) {
    Begins(b) && b != RBRACKET && b != RBRACE
  }

  lemma NumeralBegins(n: G.Numeral)
    requires G.IsNumeral(n)
    ensures var t := G.NumeralText(n);
            t != [] && (t[0] == 0x2D || 0x30 <= t[0] <= 0x39)
  {
    hide G.FracText, G.ExpText, G.IsExponent;
    var t := G.NumeralText(n);
    if !n.minus {
      assert t[0] == n.int1[0];
    }
  }

  lemma NodeBegins(v: G.Node, t: bool, o: seq<Byte> -> bool)
    requires G.IsNode(v, t, o)
    ensures G.NodeText(v) != [] && BeginsValue(G.NodeText(v)[0])
    ensures G.NodeText(v)[0] == LBRACKET <==> v.ArrayNode?
    ensures G.NodeText(v)[0] == LBRACE <==> v.ObjectNode?
  {
    hide G.NumeralText, G.IsNumeral, G.IsRepresentable, G.CharsText, G.ItemsText, G.EntriesText, G.AreItems, G.AreEntries;
    if v.NumberNode? {
      NumeralBegins(v.n);
    }
  }

  lemma ItemsBegin(items: seq<G.Item>, trailing: bool, t: bool, o: seq<Byte> -> bool)
    requires G.AreItems(items, t, o)
    ensures var x := G.ItemsText(items, trailing); x != [] && Begins(x[0]) && (x[0] == RBRACKET <==> items == [])
  {
    hide G.NodeText, G.IsNode, G.CommaText, G.AllWs;
    if items != [] {
      NodeBegins(items[0].value, t, o);
    }
  }

  lemma EntriesBegin(entries: seq<G.Entry>, trailing: bool)
    ensures var x := G.EntriesText(entries, trailing); x != [] && x[0] == if entries == [] then RBRACE else QUOTE
  {
    hide G.NodeText, G.CommaText, G.CharsText;
  }

  lemma BracesBegin()
    ensures Begins(RBRACE) && Begins(QUOTE)
  {
  }

  // ---- Scalars ----

  lemma LiteralRead(c: Config, pos: nat, ev: seq<Event>, literal: seq<Byte>, e: Event)
    requires ReadBack.Accepting(c) && Occurs(literal, c.src, pos)
    ensures ParseLiteral(c, pos, ev, literal, e) == Ok(pos + |literal|, ev + [e])
  {
    ReadBack.LiteralReadBack(c, pos, ev, literal, e);
  }

  lemma ScalarRead(c: Config, pos: nat, ev: seq<Event>, v: G.Node)
    requires ReadBack.Accepting(c) && G.IsNode(v, c.trailingCommas, c.overflows) && !v.ArrayNode? && !v.ObjectNode?
    requires Occurs(G.NodeText(v), c.src, pos)
    requires v.NumberNode? ==> N.EndsNumeral(At(c.src, pos + |G.NodeText(v)|))
    ensures ParseScalar(c, pos, ev) == Ok(pos + |G.NodeText(v)|, ev + G.NodeEvents(v, c.trailingCommas, c.overflows))
  {
    hide ScanNumber, ScanString, ParseLiteral, Occurs, N.EndsNumeral, G.NumeralText, G.NumeralEvent, G.IsNumeral,
         G.IsRepresentable, G.CharsText, G.CharsMeaning, G.AreChars;
    var text := G.NodeText(v);
    NodeBegins(v, c.trailingCommas, c.overflows);
    L.ByteAt(text, c.src, pos, 0);
    match v
    case NullNode => LiteralRead(c, pos, ev, text, Null);
    case TrueNode => LiteralRead(c, pos, ev, text, Bool(true));
    case FalseNode => LiteralRead(c, pos, ev, text, Bool(false));
    case NumberNode(n) =>
      NumeralBegins(n);
      N.NumeralRead(c, pos, n);
    case StringNode(cs) => S.StringRead(cs, c.src, pos);
    case _ =>
  }

  // ---- Values ----

  ghost predicate Reads(c: Config, pos: nat, ev: seq<Event>, v: G.Node)
    requires G.IsNode(v, c.trailingCommas, c.overflows)
  {
    ParseValue(c, pos, ev) == Ok(pos + |G.NodeText(v)|, ev + G.NodeEvents(v, c.trailingCommas, c.overflows))
  }

  /** Every value of the grammar is read to its end, as its events. */
  lemma {:induction false} ValueRead(c: Config, pos: nat, ev: seq<Event>, v: G.Node)
    requires ReadBack.Accepting(c) && G.IsNode(v, c.trailingCommas, c.overflows)
    requires Occurs(G.NodeText(v), c.src, pos)
    requires v.NumberNode? ==> N.EndsNumeral(At(c.src, pos + |G.NodeText(v)|))
    ensures Reads(c, pos, ev, v)
    decreases v
  {
    hide ParseScalar, ParseArray, ParseObject, G.NodeText, G.NodeEvents, G.IsNode, Occurs, N.EndsNumeral;
    NodeBegins(v, c.trailingCommas, c.overflows);
    L.ByteAt(G.NodeText(v), c.src, pos, 0);
    match v
    case ArrayNode(_, _, _) => ArrayRead(c, pos, ev, v);
    case ObjectNode(_, _, _) => ObjectRead(c, pos, ev, v);
    case _ => ScalarRead(c, pos, ev, v);
  }

  /** A bracket, white space, and what begins next. */
  lemma ContainerPlaces(s: seq<Byte>, pos: nat, bracket: Byte, ws: seq<Byte>, body: seq<Byte>)
    requires G.AllWs(ws) && body != [] && Begins(body[0]) && Occurs([bracket] + ws + body, s, pos)
    ensures var p := pos + 1 + |ws|;
            SkipBlanks(s, pos + 1) == p && Occurs(body, s, p) && At(s, p) == body[0]
  {
    hide SkipBlanks, Occurs, G.AllWs;
    L.OccursSplit([bracket] + ws, body, s, pos);
    L.OccursSplit([bracket], ws, s, pos);
    L.ByteAt(body, s, pos + 1 + |ws|, 0);
    WsSkipped(ws, s, pos + 1);
  }

  lemma {:induction false} ArrayRead(c: Config, pos: nat, ev: seq<Event>, v: G.Node)
    requires ReadBack.Accepting(c) && v.ArrayNode? && G.IsNode(v, c.trailingCommas, c.overflows)
    requires Occurs(G.NodeText(v), c.src, pos) && At(c.src, pos) == LBRACKET
    ensures ParseArray(c, pos, ev) == Ok(pos + |G.NodeText(v)|, ev + G.NodeEvents(v, c.trailingCommas, c.overflows))
    decreases v, 0
  {
    hide ParseElements, SkipBlanks, G.ItemsText, G.ItemsEvents, G.AreItems, G.AllWs, Occurs;
    var s, t, o := c.src, c.trailingCommas, c.overflows;
    var p := pos + 1 + |v.open1|;
    ItemsBegin(v.items, v.trailing, t, o);
    ContainerPlaces(s, pos, 0x5B, v.open1, G.ItemsText(v.items, v.trailing));
    if v.items == [] {
      NoItems(v.trailing, t, o);
      assert ev + [StartArray] + [EndArray(0)] == ev + ([StartArray] + [] + [EndArray(0)]);
    } else {
      ItemsRead(c, p, ev + [StartArray], v.items, v.trailing, 0);
      var inner := G.ItemsEvents(v.items, t, o);
      assert ev + [StartArray] + (inner + [EndArray(|v.items|)]) == ev + ([StartArray] + inner + [EndArray(|v.items|)]);
    }
  }

  lemma NoItems(trailing: bool, t: bool, o: seq<Byte> -> bool)
    ensures G.ItemsText([], trailing) == [0x5D] && G.AreItems([], t, o) && G.ItemsEvents([], t, o) == []
    ensures G.EntriesText([], trailing) == [0x7D] && G.AreEntries([], t, o) && G.EntriesEvents([], t, o) == []
  {
  }

  /** Where the parts of the first element are, and what the scanner sees between them. */
  lemma ItemPlaces(c: Config, pos: nat, items: seq<G.Item>, trailing: bool)
    requires items != [] && G.AreItems(items, c.trailingCommas, c.overflows) && Occurs(G.ItemsText(items, trailing), c.src, pos)
    ensures var x, s := items[0], c.src;
            var end := pos + |G.NodeText(x.value)|;
            var p := end + |x.after|;
            var comma := |items| > 1 || trailing;
            && Occurs(G.NodeText(x.value), s, pos) && N.EndsNumeral(At(s, end)) && SkipBlanks(s, end) == p
            && At(s, p) == (if comma then COMMA else RBRACKET)
            && (comma ==>
                  && SkipBlanks(s, p + 1) == p + 1 + |x.next|
                  && Occurs(G.ItemsText(items[1..], trailing), s, p + 1 + |x.next|)
                  && (At(s, p + 1 + |x.next|) == RBRACKET <==> |items| == 1)
                  && |G.ItemsText(items, trailing)| == p + 1 + |x.next| - pos + |G.ItemsText(items[1..], trailing)|)
            && (!comma ==> |G.ItemsText(items, trailing)| == p + 1 - pos)
  {
    hide G.NodeText, G.IsNode, SkipBlanks, Occurs, G.AllWs, N.EndsNumeral;
    var x, s := items[0], c.src;
    var rest := G.ItemsText(items[1..], trailing);
    ItemsBegin(items[1..], trailing, c.trailingCommas, c.overflows);
    BetweenPlaces(s, pos, G.NodeText(x.value), x.after, x.next, |items| > 1 || trailing, rest);
  }

  /** A value, white space, perhaps a comma and white space, and what begins next. */
  lemma BetweenPlaces(s: seq<Byte>, pos: nat, value: seq<Byte>, after: seq<Byte>, next: seq<Byte>, comma: bool, rest: seq<Byte>)
    requires G.AllWs(after) && G.AllWs(next) && Occurs(value + after + G.CommaText(next, comma) + rest, s, pos)
    requires rest != [] && Begins(rest[0]) && (!comma ==> rest[0] == RBRACKET || rest[0] == RBRACE)
    ensures var end := pos + |value|;
            var p := end + |after|;
            && Occurs(value, s, pos) && N.EndsNumeral(At(s, end)) && SkipBlanks(s, end) == p
            && At(s, p) == (if comma then COMMA else rest[0])
            && (comma ==>
                  && SkipBlanks(s, p + 1) == p + 1 + |next| && Occurs(rest, s, p + 1 + |next|) && At(s, p + 1 + |next|) == rest[0])
            && (!comma ==> Occurs(rest, s, p))
  {
    hide SkipBlanks, Occurs, G.AllWs;
    var end := pos + |value|;
    var p, sep := end + |after|, G.CommaText(next, comma);
    L.OccursSplit(value + after + sep, rest, s, pos);
    L.OccursSplit(value + after, sep, s, pos);
    L.OccursSplit(value, after, s, pos);
    L.ByteAt(rest, s, p + |sep|, 0);
    if comma {
      L.OccursSplit([0x2C], next, s, p);
      L.ByteAt([0x2C], s, p, 0);
      WsSkipped(next, s, p + 1);
    }
    WsSkipped(after, s, end);
    WsEndsNumeral(after, s, end);
  }

  lemma WsEndsNumeral(w: seq<Byte>, s: seq<Byte>, pos: nat)
    requires G.AllWs(w) && Occurs(w, s, pos) && N.EndsNumeral(At(s, pos + |w|))
    ensures N.EndsNumeral(At(s, pos))
  {
    if w != [] {
      L.ByteAt(w, s, pos, 0);
    }
  }

  /** One turn of the loop over elements. */
  lemma ElementsTurn(c: Config, pos: nat, ev: seq<Event>, n: nat, end: nat, ev1: seq<Event>, p: nat)
    requires ReadBack.Accepting(c) && ParseValue(c, pos, ev) == Ok(end, ev1) && SkipBlanks(c.src, end) == p
    ensures At(c.src, p) == COMMA ==>
              var q := SkipBlanks(c.src, p + 1);
              ParseElements(c, pos, ev, n) == if c.trailingCommas && At(c.src, q) == RBRACKET then Ok(q + 1, ev1 + [EndArray(n + 1)])
                                              else ParseElements(c, q, ev1, n + 1)
    ensures At(c.src, p) == RBRACKET ==> ParseElements(c, pos, ev, n) == Ok(p + 1, ev1 + [EndArray(n + 1)])
  {
    hide ParseValue, SkipBlanks;
  }

  lemma ItemsUnfold(items: seq<G.Item>, t: bool, o: seq<Byte> -> bool)
    requires items != [] && G.AreItems(items, t, o)
    ensures G.IsNode(items[0].value, t, o) && G.AreItems(items[1..], t, o) && items[0].value < items[0]
    ensures G.ItemsEvents(items, t, o) == G.NodeEvents(items[0].value, t, o) + G.ItemsEvents(items[1..], t, o)
    ensures |items| == 1 ==> items[1..] == []
  {
    hide G.IsNode, G.NodeEvents, G.AllWs;
  }

  lemma EventsJoin(ev: seq<Event>, first: seq<Event>, more: seq<Event>, end: Event)
    ensures ev + first + (more + [end]) == ev + (first + more + [end])
    ensures ev + first + [end] == ev + (first + [] + [end])
  {
  }

  /** Elements up to the closing bracket, after `n` of them. */
  lemma {:induction false} ItemsRead(c: Config, pos: nat, ev: seq<Event>, items: seq<G.Item>, trailing: bool, n: nat)
    requires ReadBack.Accepting(c) && items != [] && G.AreItems(items, c.trailingCommas, c.overflows)
    requires (trailing ==> c.trailingCommas) && Occurs(G.ItemsText(items, trailing), c.src, pos)
    ensures ParseElements(c, pos, ev, n)
            == Ok(pos + |G.ItemsText(items, trailing)|,
                  ev + (G.ItemsEvents(items, c.trailingCommas, c.overflows) + [EndArray(n + |items|)]))
    decreases items, 0
  {
    hide ReadBack.Accepting, ParseElements, ParseValue, SkipBlanks, G.NodeText, G.ItemsText, G.ItemsEvents, G.AreItems, G.IsNode,
         G.NodeEvents, Occurs, N.EndsNumeral;
    var t, o, x := c.trailingCommas, c.overflows, items[0];
    ItemPlaces(c, pos, items, trailing);
    ItemsUnfold(items, t, o);
    ValueRead(c, pos, ev, x.value);
    var first, more := G.NodeEvents(x.value, t, o), G.ItemsEvents(items[1..], t, o);
    var end := pos + |G.NodeText(x.value)|;
    var p := end + |x.after|;
    ElementsTurn(c, pos, ev, n, end, ev + first, p);
    NoItems(trailing, t, o);
    EventsJoin(ev, first, more, EndArray(n + |items|));
    if |items| > 1 {
      ItemsRead(c, p + 1 + |x.next|, ev + first, items[1..], trailing, n + 1);
    }
  }

  // ---- Objects ----

  lemma {:induction false} ObjectRead(c: Config, pos: nat, ev: seq<Event>, v: G.Node)
    requires ReadBack.Accepting(c) && v.ObjectNode? && G.IsNode(v, c.trailingCommas, c.overflows)
    requires Occurs(G.NodeText(v), c.src, pos) && At(c.src, pos) == LBRACE
    ensures ParseObject(c, pos, ev) == Ok(pos + |G.NodeText(v)|, ev + G.NodeEvents(v, c.trailingCommas, c.overflows))
    decreases v, 0
  {
    hide ParseMembers, SkipBlanks, G.EntriesText, G.EntriesEvents, G.AreEntries, G.AllWs, Occurs;
    var s, t, o := c.src, c.trailingCommas, c.overflows;
    var p := pos + 1 + |v.open1|;
    EntriesBegin(v.entries, v.trailing);
    ContainerPlaces(s, pos, 0x7B, v.open1, G.EntriesText(v.entries, v.trailing));
    if v.entries == [] {
      NoItems(v.trailing, t, o);
      assert ev + [StartObject] + [EndObject(0)] == ev + ([StartObject] + [] + [EndObject(0)]);
    } else {
      EntriesRead(c, p, ev + [StartObject], v.entries, v.trailing, 0);
      var inner := G.EntriesEvents(v.entries, t, o);
      assert ev + [StartObject] + (inner + [EndObject(|v.entries|)]) == ev + ([StartObject] + inner + [EndObject(|v.entries|)]);
    }
  }

  /** Where the parts of the first member are. */
  lemma EntryPlaces(c: Config, pos: nat, entries: seq<G.Entry>, trailing: bool)
    requires entries != [] && G.AreEntries(entries, c.trailingCommas, c.overflows)
    requires Occurs(G.EntriesText(entries, trailing), c.src, pos)
    ensures var x, s := entries[0], c.src;
            var start := pos + |G.NameText(x)|;
            var end := start + |G.NodeText(x.value)|;
            var p := end + |x.after|;
            var comma := |entries| > 1 || trailing;
            && Occurs(G.NameText(x), s, pos)
            && Occurs(G.NodeText(x.value), s, start) && N.EndsNumeral(At(s, end)) && SkipBlanks(s, end) == p
            && At(s, p) == (if comma then COMMA else RBRACE)
            && (comma ==>
                  && SkipBlanks(s, p + 1) == p + 1 + |x.next|
                  && Occurs(G.EntriesText(entries[1..], trailing), s, p + 1 + |x.next|)
                  && (At(s, p + 1 + |x.next|) == RBRACE <==> |entries| == 1)
                  && |G.EntriesText(entries, trailing)| == p + 1 + |x.next| - pos + |G.EntriesText(entries[1..], trailing)|)
            && (!comma ==> |G.EntriesText(entries, trailing)| == p + 1 - pos)
  {
    hide G.NodeText, G.IsNode, G.NameText, G.EntriesText, SkipBlanks, Occurs, G.AllWs, G.AreChars, N.EndsNumeral, G.EntriesEvents,
         EntryEvents, G.CommaText, G.AreEntries, Begins;
    var x, s := entries[0], c.src;
    var comma, rest := |entries| > 1 || trailing, G.EntriesText(entries[1..], trailing);
    var tail := G.NodeText(x.value) + x.after + G.CommaText(x.next, comma) + rest;
    EntriesTextUnfold(entries, trailing);
    L.OccursSplit(G.NameText(x), tail, s, pos);
    EntriesBegin(entries[1..], trailing);
    BracesBegin();
    EntriesUnfold(entries, c.trailingCommas, c.overflows);
    NoItems(trailing, c.trailingCommas, c.overflows);
    BetweenPlaces(s, pos + |G.NameText(x)|, G.NodeText(x.value), x.after, x.next, comma, rest);
  }

  lemma EntriesTextUnfold(entries: seq<G.Entry>, trailing: bool)
    requires entries != []
    ensures var x := entries[0];
            var sep, rest := G.CommaText(x.next, |entries| > 1 || trailing), G.EntriesText(entries[1..], trailing);
            && G.EntriesText(entries, trailing) == G.NameText(x) + (G.NodeText(x.value) + x.after + sep + rest)
            && |sep| == if |entries| > 1 || trailing then 1 + |x.next| else 0
  {
    hide G.NodeText, G.NameText;
    var x := entries[0];
    var a, b, d, e := G.NameText(x), G.NodeText(x.value), x.after, G.CommaText(x.next, |entries| > 1 || trailing);
    Join5(a, b, d, e, G.EntriesText(entries[1..], trailing));
  }

  lemma Join5(a: seq<Byte>, b: seq<Byte>, c: seq<Byte>, d: seq<Byte>, e: seq<Byte>)
    ensures a + b + c + d + e == a + (b + c + d + e)
  {
  }

  lemma NameBegins(cs: seq<G.Char>)
    ensures G.StringText(cs) != [] && G.StringText(cs)[0] == QUOTE
  {
    hide G.CharsText;
  }

  /** The name of a member, the colon and the white space around it. */
  lemma NamePlaces(c: Config, pos: nat, x: G.Entry)
    requires G.AreChars(x.name) && G.AllWs(x.before) && G.AllWs(x.behind) && Occurs(G.NameText(x), c.src, pos)
    requires !IsBlank(At(c.src, pos + |G.NameText(x)|))
    ensures var s := c.src;
            var end := pos + |G.StringText(x.name)|;
            var p := end + |x.before|;
            && Occurs(G.StringText(x.name), s, pos) && At(s, pos) == QUOTE
            && SkipBlanks(s, end) == p && At(s, p) == COLON && SkipBlanks(s, p + 1) == pos + |G.NameText(x)|
  {
    hide SkipBlanks, Occurs, G.AllWs, G.AreChars, G.StringText;
    var s, name := c.src, G.StringText(x.name);
    NameBegins(x.name);
    L.OccursSplit(name + x.before + [0x3A], x.behind, s, pos);
    L.OccursSplit(name + x.before, [0x3A], s, pos);
    L.OccursSplit(name, x.before, s, pos);
    L.ByteAt(name, s, pos, 0);
    var p := pos + |name| + |x.before|;
    L.ByteAt([0x3A], s, p, 0);
    WsSkipped(x.before, s, pos + |name|);
    WsSkipped(x.behind, s, p + 1);
  }

  lemma {:induction false} EntryRead(c: Config, pos: nat, ev: seq<Event>, x: G.Entry)
    requires ReadBack.Accepting(c) && G.AreChars(x.name) && G.AllWs(x.before) && G.AllWs(x.behind)
    requires G.IsNode(x.value, c.trailingCommas, c.overflows)
    requires Occurs(G.NameText(x), c.src, pos) && Occurs(G.NodeText(x.value), c.src, pos + |G.NameText(x)|)
    requires N.EndsNumeral(At(c.src, pos + |G.NameText(x)| + |G.NodeText(x.value)|))
    ensures ParseMember(c, pos, ev)
            == Ok(pos + |G.NameText(x)| + |G.NodeText(x.value)|, ev + EntryEvents(x, c.trailingCommas, c.overflows))
    decreases x
  {
    hide ParseValue, ScanString, SkipBlanks, G.NodeText, G.NameText, G.StringText, G.IsNode, G.NodeEvents, G.CharsMeaning, Occurs,
         N.EndsNumeral, G.AllWs, G.AreChars;
    var s, start := c.src, pos + |G.NameText(x)|;
    NodeBegins(x.value, c.trailingCommas, c.overflows);
    L.ByteAt(G.NodeText(x.value), s, start, 0);
    NamePlaces(c, pos, x);
    S.StringRead(x.name, s, pos);
    var key, events := Key(G.CharsMeaning(x.name)), G.NodeEvents(x.value, c.trailingCommas, c.overflows);
    ValueRead(c, start, ev + [key], x.value);
    assert ev + [key] + events == ev + ([key] + events);
  }

  /** One turn of the loop over members. */
  lemma MembersTurn(c: Config, pos: nat, ev: seq<Event>, n: nat, end: nat, ev1: seq<Event>, p: nat)
    requires ReadBack.Accepting(c) && ParseMember(c, pos, ev) == Ok(end, ev1) && SkipBlanks(c.src, end) == p
    ensures At(c.src, p) == COMMA ==>
              var q := SkipBlanks(c.src, p + 1);
              ParseMembers(c, pos, ev, n) == if c.trailingCommas && At(c.src, q) == RBRACE then Ok(q + 1, ev1 + [EndObject(n + 1)])
                                             else ParseMembers(c, q, ev1, n + 1)
    ensures At(c.src, p) == RBRACE ==> ParseMembers(c, pos, ev, n) == Ok(p + 1, ev1 + [EndObject(n + 1)])
  {
    hide ParseMember, SkipBlanks;
  }

  /** The events of a member. */
  function EntryEvents(x: G.Entry, t: bool, o: seq<Byte> -> bool): seq<Event>
    requires G.AreChars(x.name) && G.IsNode(x.value, t, o)
  {
    [Key(G.CharsMeaning(x.name))] + G.NodeEvents(x.value, t, o)
  }

  lemma EntriesUnfold(entries: seq<G.Entry>, t: bool, o: seq<Byte> -> bool)
    requires entries != [] && G.AreEntries(entries, t, o)
    ensures var x := entries[0];
            && G.AreChars(x.name) && G.AllWs(x.before) && G.AllWs(x.behind) && G.AllWs(x.after) && G.AllWs(x.next)
            && G.IsNode(x.value, t, o) && G.AreEntries(entries[1..], t, o)
            && G.EntriesEvents(entries, t, o) == EntryEvents(x, t, o) + G.EntriesEvents(entries[1..], t, o)
    ensures |entries| == 1 ==> entries[1..] == []
  {
    hide G.IsNode, G.NodeEvents, G.AllWs, G.AreChars;
  }

  /** Members up to the closing brace, after `n` of them. */
  lemma {:induction false} EntriesRead(c: Config, pos: nat, ev: seq<Event>, entries: seq<G.Entry>, trailing: bool, n: nat)
    requires ReadBack.Accepting(c) && entries != [] && G.AreEntries(entries, c.trailingCommas, c.overflows)
    requires (trailing ==> c.trailingCommas) && Occurs(G.EntriesText(entries, trailing), c.src, pos)
    ensures ParseMembers(c, pos, ev, n)
            == Ok(pos + |G.EntriesText(entries, trailing)|,
                  ev + (G.EntriesEvents(entries, c.trailingCommas, c.overflows) + [EndObject(n + |entries|)]))
    decreases entries, 0
  {
    hide ReadBack.Accepting, ParseMembers, ParseMember, SkipBlanks, G.NodeText, G.NameText, G.EntriesText, G.EntriesEvents,
         G.AreEntries, G.IsNode, G.AllWs, G.AreChars, EntryEvents, Occurs, N.EndsNumeral;
    var t, o, x := c.trailingCommas, c.overflows, entries[0];
    EntryPlaces(c, pos, entries, trailing);
    EntriesUnfold(entries, t, o);
    EntryRead(c, pos, ev, x);
    var first, more := EntryEvents(x, t, o), G.EntriesEvents(entries[1..], t, o);
    var end := pos + |G.NameText(x)| + |G.NodeText(x.value)|;
    var p := end + |x.after|;
    MembersTurn(c, pos, ev, n, end, ev + first, p);
    NoItems(trailing, t, o);
    EventsJoin(ev, first, more, EndObject(n + |entries|));
    if |entries| > 1 {
      EntriesRead(c, p + 1 + |x.next|, ev + first, entries[1..], trailing, n + 1);
    }
  }

  // ---- What was read is a value ----

  lemma {:induction false} ConsumedOccurs(s: seq<Byte>, pos: nat, literal: seq<Byte>)
    requires Consumed(s, pos, literal) == |literal| && pos <= |s| && forall i :: 0 <= i < |literal| ==> literal[i] != NUL
    ensures Occurs(literal, s, pos)
    decreases |literal|
  {
    if literal != [] {
      ConsumedOccurs(s, pos + 1, literal[1..]);
      N.ByteOccurs(s, pos);
      N.OccursJoin([literal[0]], literal[1..], s, pos);
      assert literal == [literal[0]] + literal[1..];
    }
  }

  lemma ScalarScanned(c: Config, pos: nat, ev: seq<Event>) returns (v: G.Node)
    requires ReadBack.Accepting(c) && ParseScalar(c, pos, ev).Ok?
    ensures G.IsNode(v, c.trailingCommas, c.overflows) && Occurs(G.NodeText(v), c.src, pos)
    ensures ParseScalar(c, pos, ev) == Ok(pos + |G.NodeText(v)|, ev + G.NodeEvents(v, c.trailingCommas, c.overflows))
  {
    hide ScanNumber, ScanString, Consumed, Occurs, G.NumeralText, G.NumeralEvent, G.IsNumeral, G.IsRepresentable,
         G.StringText, G.CharsMeaning, G.AreChars;
    var s := c.src;
    match At(s, pos)
    case 0x6E =>
      v := G.NullNode;
      ConsumedOccurs(s, pos, NULL);
    case 0x74 =>
      v := G.TrueNode;
      ConsumedOccurs(s, pos, TRUE);
    case 0x66 =>
      v := G.FalseNode;
      ConsumedOccurs(s, pos, FALSE);
    case 0x22 =>
      var cs := S.ScannedString(s, pos);
      v := G.StringNode(cs);
    case _ =>
      var n := N.ScannedNumeral(c, pos);
      v := G.NumberNode(n);
  }

  /** Whatever is read as a value is a value of the grammar, read as its events. */
  lemma {:induction false} ValueScanned(c: Config, pos: nat, ev: seq<Event>) returns (v: G.Node)
    requires ReadBack.Accepting(c) && ParseValue(c, pos, ev).Ok?
    ensures G.IsNode(v, c.trailingCommas, c.overflows) && Occurs(G.NodeText(v), c.src, pos) && Reads(c, pos, ev, v)
    decreases |c.src| - pos, 2
  {
    hide ParseScalar, ParseArray, ParseObject, G.NodeText, G.NodeEvents, G.IsNode, Occurs;
    if At(c.src, pos) == LBRACE {
      v := ObjectScanned(c, pos, ev);
      ObjectRead(c, pos, ev, v);
    } else if At(c.src, pos) == LBRACKET {
      v := ArrayScanned(c, pos, ev);
      ArrayRead(c, pos, ev, v);
    } else {
      v := ScalarScanned(c, pos, ev);
    }
  }

  lemma {:induction false} ArrayScanned(c: Config, pos: nat, ev: seq<Event>) returns (v: G.Node)
    requires ReadBack.Accepting(c) && At(c.src, pos) == LBRACKET && ParseArray(c, pos, ev).Ok?
    ensures v.ArrayNode? && G.IsNode(v, c.trailingCommas, c.overflows) && Occurs(G.NodeText(v), c.src, pos)
    decreases |c.src| - pos, 1
  {
    hide ParseElements, SkipBlanks, Blanks, G.ItemsText, G.AreItems, G.AllWs, Occurs;
    var s, ws := c.src, Blanks(c.src, pos + 1);
    BlanksOccur(s, pos + 1);
    N.ByteOccurs(s, pos);
    N.OccursJoin([0x5B], ws, s, pos);
    var p, items, trailing := pos + 1 + |ws|, [], false;
    NoItems(trailing, c.trailingCommas, c.overflows);
    if At(s, p) == RBRACKET {
      N.ByteOccurs(s, p);
    } else {
      items, trailing := ElementsScanned(c, p, ev + [StartArray], 0);
    }
    v := G.ArrayNode(ws, items, trailing);
    N.OccursJoin([0x5B] + ws, G.ItemsText(items, trailing), s, pos);
  }

  /** An element put before others. */
  lemma ItemsJoin(c: Config, pos: nat, x: G.Item, rest: seq<G.Item>, trailing: bool)
    requires var t, o := c.trailingCommas, c.overflows;
             G.IsNode(x.value, t, o) && G.AllWs(x.after) && G.AllWs(x.next) && G.AreItems(rest, t, o)
    requires var s, comma := c.src, rest != [] || trailing;
             var p := pos + |G.NodeText(x.value)| + |x.after|;
             && Occurs(G.NodeText(x.value), s, pos) && Occurs(x.after, s, pos + |G.NodeText(x.value)|)
             && Occurs(G.CommaText(x.next, comma), s, p) && Occurs(G.ItemsText(rest, trailing), s, p + |G.CommaText(x.next, comma)|)
    ensures G.AreItems([x] + rest, c.trailingCommas, c.overflows) && Occurs(G.ItemsText([x] + rest, trailing), c.src, pos)
  {
    hide Occurs, G.CommaText, G.NodeText, G.IsNode, G.AllWs;
    var s, a, b, d := c.src, G.NodeText(x.value), x.after, G.CommaText(x.next, rest != [] || trailing);
    assert ([x] + rest)[1..] == rest;
    N.OccursJoin(a, b, s, pos);
    N.OccursJoin(a + b, d, s, pos);
    N.OccursJoin(a + b + d, G.ItemsText(rest, trailing), s, pos);
  }

  lemma CommaOccurs(s: seq<Byte>, p: nat)
    requires p < |s| && s[p] == COMMA
    ensures var next := Blanks(s, p + 1);
            && G.AllWs(next) && SkipBlanks(s, p + 1) == p + 1 + |next| <= |s|
            && Occurs(G.CommaText(next, true), s, p) && |G.CommaText(next, true)| == 1 + |next|
  {
    hide Occurs, Blanks, SkipBlanks, G.AllWs;
    BlanksOccur(s, p + 1);
    N.ByteOccurs(s, p);
    N.OccursJoin([0x2C], Blanks(s, p + 1), s, p);
  }

  lemma NoComma(s: seq<Byte>, p: nat)
    requires p <= |s|
    ensures Occurs(G.CommaText([], false), s, p) && |G.CommaText([], false)| == 0 && G.AllWs([])
  {
  }

  lemma ByteInside(s: seq<Byte>, p: nat)
    requires At(s, p) != NUL
    ensures p < |s| && s[p] == At(s, p) && Occurs([s[p]], s, p)
  {
  }

  lemma {:induction false} ElementsScanned(c: Config, pos: nat, ev: seq<Event>, n: nat)
    returns (items: seq<G.Item>, trailing: bool)
    requires ReadBack.Accepting(c) && ParseElements(c, pos, ev, n).Ok?
    ensures items != [] && G.AreItems(items, c.trailingCommas, c.overflows) && (trailing ==> c.trailingCommas)
    ensures Occurs(G.ItemsText(items, trailing), c.src, pos)
    decreases |c.src| - pos, 3
  {
    hide ReadBack.Accepting, ParseValue, SkipBlanks, Blanks, G.ItemsText, G.AreItems, G.AllWs, G.NodeText, G.NodeEvents, G.IsNode,
         G.CommaText, Occurs;
    var s := c.src;
    var v := ValueScanned(c, pos, ev);
    var end := pos + |G.NodeText(v)|;
    BlanksOccur(s, end);
    var after := Blanks(s, end);
    var p := end + |after|;
    ByteInside(s, p);
    NoItems(true, c.trailingCommas, c.overflows);
    NoItems(false, c.trailingCommas, c.overflows);
    if At(s, p) == COMMA {
      CommaOccurs(s, p);
      var next := Blanks(s, p + 1);
      var q, rest := p + 1 + |next|, [];
      if c.trailingCommas && At(s, q) == RBRACKET {
        ByteInside(s, q);
        trailing := true;
      } else {
        rest, trailing := ElementsScanned(c, q, ev + G.NodeEvents(v, c.trailingCommas, c.overflows), n + 1);
      }
      ItemsJoin(c, pos, G.Item(v, after, next), rest, trailing);
      items := [G.Item(v, after, next)] + rest;
    } else {
      trailing := false;
      NoComma(s, p);
      ItemsJoin(c, pos, G.Item(v, after, []), [], trailing);
      items := [G.Item(v, after, [])] + [];
    }
  }

  lemma {:induction false} ObjectScanned(c: Config, pos: nat, ev: seq<Event>) returns (v: G.Node)
    requires ReadBack.Accepting(c) && At(c.src, pos) == LBRACE && ParseObject(c, pos, ev).Ok?
    ensures v.ObjectNode? && G.IsNode(v, c.trailingCommas, c.overflows) && Occurs(G.NodeText(v), c.src, pos)
    decreases |c.src| - pos, 1
  {
    hide ParseMembers, SkipBlanks, Blanks, G.EntriesText, G.AreEntries, G.AllWs, Occurs;
    var s, ws := c.src, Blanks(c.src, pos + 1);
    BlanksOccur(s, pos + 1);
    N.ByteOccurs(s, pos);
    N.OccursJoin([0x7B], ws, s, pos);
    var p, entries, trailing := pos + 1 + |ws|, [], false;
    NoItems(trailing, c.trailingCommas, c.overflows);
    if At(s, p) == RBRACE {
      N.ByteOccurs(s, p);
    } else {
      entries, trailing := MembersScanned(c, p, ev + [StartObject], 0);
    }
    v := G.ObjectNode(ws, entries, trailing);
    N.OccursJoin([0x7B] + ws, G.EntriesText(entries, trailing), s, pos);
  }

  /** A scanned member: its name and value, without what follows. */
  lemma {:induction false} MemberScanned(c: Config, pos: nat, ev: seq<Event>) returns (x: G.Entry)
    requires ReadBack.Accepting(c) && ParseMember(c, pos, ev).Ok?
    ensures G.AreChars(x.name) && G.AllWs(x.before) && G.AllWs(x.behind) && G.IsNode(x.value, c.trailingCommas, c.overflows)
    ensures Occurs(G.NameText(x), c.src, pos) && Occurs(G.NodeText(x.value), c.src, pos + |G.NameText(x)|)
    ensures ParseMember(c, pos, ev).pos == pos + |G.NameText(x)| + |G.NodeText(x.value)|
    decreases |c.src| - pos, 3
  {
    hide ReadBack.Accepting, ParseValue, ScanString, SkipBlanks, Blanks, G.NodeText, G.NodeEvents, G.IsNode, G.CharsMeaning,
         G.StringText, G.AllWs, G.AreChars, Occurs;
    var s := c.src;
    var name := S.ScannedString(s, pos);
    var end := pos + |G.StringText(name)|;
    BlanksOccur(s, end);
    var before := Blanks(s, end);
    var p := end + |before|;
    ByteInside(s, p);
    BlanksOccur(s, p + 1);
    var behind := Blanks(s, p + 1);
    var v := ValueScanned(c, p + 1 + |behind|, ParseString(c, pos, ev, true).ev);
    x := G.Entry(name, before, behind, v, [], []);
    N.OccursJoin(G.StringText(name), before, s, pos);
    N.OccursJoin(G.StringText(name) + before, [0x3A], s, pos);
    N.OccursJoin(G.StringText(name) + before + [0x3A], behind, s, pos);
  }

  /** A member put before others. */
  lemma EntriesJoin(c: Config, pos: nat, x: G.Entry, rest: seq<G.Entry>, trailing: bool)
    requires var t, o := c.trailingCommas, c.overflows;
             && G.AreChars(x.name) && G.AllWs(x.before) && G.AllWs(x.behind) && G.IsNode(x.value, t, o)
             && G.AllWs(x.after) && G.AllWs(x.next) && G.AreEntries(rest, t, o)
    requires var s, comma := c.src, rest != [] || trailing;
             var start := pos + |G.NameText(x)|;
             var p := start + |G.NodeText(x.value)| + |x.after|;
             && Occurs(G.NameText(x), s, pos)
             && Occurs(G.NodeText(x.value), s, start) && Occurs(x.after, s, start + |G.NodeText(x.value)|)
             && Occurs(G.CommaText(x.next, comma), s, p) && Occurs(G.EntriesText(rest, trailing), s, p + |G.CommaText(x.next, comma)|)
    ensures G.AreEntries([x] + rest, c.trailingCommas, c.overflows) && Occurs(G.EntriesText([x] + rest, trailing), c.src, pos)
  {
    hide Occurs, G.CommaText, G.NodeText, G.NameText, G.IsNode, G.AllWs, G.AreChars;
    var s, name, a, b, d := c.src, G.NameText(x), G.NodeText(x.value), x.after, G.CommaText(x.next, rest != [] || trailing);
    assert ([x] + rest)[1..] == rest;
    N.OccursJoin(name, a, s, pos);
    N.OccursJoin(name + a, b, s, pos);
    N.OccursJoin(name + a + b, d, s, pos);
    N.OccursJoin(name + a + b + d, G.EntriesText(rest, trailing), s, pos);
  }

  lemma {:induction false} MembersScanned(c: Config, pos: nat, ev: seq<Event>, n: nat)
    returns (entries: seq<G.Entry>, trailing: bool)
    requires ReadBack.Accepting(c) && ParseMembers(c, pos, ev, n).Ok?
    ensures entries != [] && G.AreEntries(entries, c.trailingCommas, c.overflows) && (trailing ==> c.trailingCommas)
    ensures Occurs(G.EntriesText(entries, trailing), c.src, pos)
    decreases |c.src| - pos, 4
  {
    hide ReadBack.Accepting, ParseMember, SkipBlanks, Blanks, G.EntriesText, G.AreEntries, G.AllWs, G.AreChars, G.NodeText, G.NameText,
         G.IsNode, G.CommaText, Occurs;
    var s, r := c.src, ParseMember(c, pos, ev);
    var m := MemberScanned(c, pos, ev);
    SameParts(m, Blanks(s, r.pos));
    BlanksOccur(s, r.pos);
    var x := m.(after := Blanks(s, r.pos));
    var p := r.pos + |x.after|;
    ByteInside(s, p);
    NoItems(true, c.trailingCommas, c.overflows);
    NoItems(false, c.trailingCommas, c.overflows);
    if At(s, p) == COMMA {
      CommaOccurs(s, p);
      x := x.(next := Blanks(s, p + 1));
      var q, rest := p + 1 + |x.next|, [];
      if c.trailingCommas && At(s, q) == RBRACE {
        ByteInside(s, q);
        trailing := true;
      } else {
        rest, trailing := MembersScanned(c, q, r.ev, n + 1);
      }
      EntriesJoin(c, pos, x, rest, trailing);
      entries := [x] + rest;
    } else {
      trailing := false;
      NoComma(s, p);
      x := x.(next := []);
      EntriesJoin(c, pos, x, [], trailing);
      entries := [x] + [];
    }
  }

  lemma SameParts(m: G.Entry, w: seq<Byte>)
    ensures forall next :: G.NameText(m.(after := w, next := next)) == G.NameText(m)
    ensures G.NameText(m.(after := w)) == G.NameText(m)
  {
  }

  // ---- Whole texts ----

  /** A text, up to the NUL that ends it. */
  lemma TextRead(c: Config, q: nat, v: G.Node, before: seq<Byte>, after: seq<Byte>)
    requires ReadBack.Accepting(c) && G.IsNode(v, c.trailingCommas, c.overflows) && G.AllWs(before) && G.AllWs(after)
    requires q <= |c.src| && At(c.src, q) == NUL && c.src[..q] == before + G.NodeText(v) + after
    ensures Parse(c) == Ok(q, G.NodeEvents(v, c.trailingCommas, c.overflows))
  {
    hide ReadBack.Accepting, ParseValue, SkipBlanks, G.NodeText, G.NodeEvents, G.IsNode, G.AllWs, Occurs;
    var s, text := c.src, G.NodeText(v);
    var p := |before|;
    var end := p + |text|;
    assert Occurs(before + text + after, s, 0) by { PrefixOccurs(s, q); }
    L.OccursSplit(before + text, after, s, 0);
    L.OccursSplit(before, text, s, 0);
    NodeBegins(v, c.trailingCommas, c.overflows);
    L.ByteAt(text, s, p, 0);
    WsSkipped(before, s, 0);
    WsSkipped(after, s, end);
    WsEndsNumeral(after, s, end);
    ValueRead(c, p, [], v);
    assert [] + G.NodeEvents(v, c.trailingCommas, c.overflows) == G.NodeEvents(v, c.trailingCommas, c.overflows);
  }

  lemma PrefixOccurs(s: seq<Byte>, q: nat)
    requires q <= |s|
    ensures Occurs(s[..q], s, 0)
  {
    assert s[0..q] == s[..q];
  }

  lemma TextScanned(c: Config) returns (v: G.Node, before: seq<Byte>, after: seq<Byte>)
    requires ReadBack.Accepting(c) && Parse(c).Ok?
    ensures var q := Parse(c).pos;
            && q <= |c.src| && At(c.src, q) == NUL
            && G.IsNode(v, c.trailingCommas, c.overflows) && G.AllWs(before) && G.AllWs(after)
            && c.src[..q] == before + G.NodeText(v) + after
  {
    hide ReadBack.Accepting, ParseValue, SkipBlanks, Blanks, G.NodeText, G.NodeEvents, G.IsNode, G.AllWs, Occurs;
    var s := c.src;
    BlanksOccur(s, 0);
    before := Blanks(s, 0);
    var p := |before|;
    v := ValueScanned(c, p, []);
    var end := p + |G.NodeText(v)|;
    N.SliceOccurs(G.NodeText(v), s, p);
    BlanksOccur(s, end);
    after := Blanks(s, end);
    N.OccursJoin(before, G.NodeText(v), s, 0);
    N.OccursJoin(before + G.NodeText(v), after, s, 0);
    N.SliceOccurs(before + G.NodeText(v) + after, s, 0);
    assert s[0..end + |after|] == s[..end + |after|];
  }

  /** The main result. For every text, with trailing commas on or off, and a handler that accepts: the
      descent parser succeeds at `q` with the events `ev` exactly when a NUL, or the end, is at `q` and
      what stands before it is JSON that means `ev`. */
  lemma ParseDecidesJson(c: Config, q: nat, ev: seq<Event>)
    requires ReadBack.Accepting(c)
    ensures Parse(c) == Ok(q, ev) <==>
            q <= |c.src| && At(c.src, q) == NUL && G.IsJson(c.src[..q], ev, c.trailingCommas, c.overflows)
  {
    hide ReadBack.Accepting, Parse, G.IsNode, G.NodeText, G.NodeEvents, G.AllWs;
    var t, o := c.trailingCommas, c.overflows;
    if q <= |c.src| && At(c.src, q) == NUL && G.IsJson(c.src[..q], ev, t, o) {
      var v :| G.IsText(c.src[..q], v, ev, t, o);
      var before, after :| G.AllWs(before) && G.AllWs(after) && c.src[..q] == before + G.NodeText(v) + after;
      TextRead(c, q, v, before, after);
    }
    if Parse(c) == Ok(q, ev) {
      var v, before, after := TextScanned(c);
      TextRead(c, q, v, before, after);
      assert G.IsText(c.src[..q], v, ev, t, o);
    }
  }

  /** So do the other two parsers. */
  lemma AllParsersDecideJson(c: Config, q: nat, ev: seq<Event>)
    requires ReadBack.Accepting(c)
    ensures var json := q <= |c.src| && At(c.src, q) == NUL && G.IsJson(c.src[..q], ev, c.trailingCommas, c.overflows);
            && (Parse(c) == Ok(q, ev) <==> json)
            && (P.IterativeParse(c) == Ok(q, ev) <==> json)
            && (P.Drive(c, P.START) == Ok(q, ev) <==> json)
  {
    hide ReadBack.Accepting, Parse, G.IsJson, P.IterativeParse, P.Drive;
    ParseDecidesJson(c, q, ev);
    E.ParsersAgree(c);
    E.StepwiseAgrees(c);
  }

  /** A text without NUL is accepted exactly when it is JSON, and then as what it means. */
  lemma JsonTexts(c: Config, ev: seq<Event>)
    requires ReadBack.Accepting(c) && forall i :: 0 <= i < |c.src| ==> c.src[i] != NUL
    ensures Parse(c).Ok? <==> exists ev1 :: G.IsJson(c.src, ev1, c.trailingCommas, c.overflows)
    ensures Parse(c) == Ok(|c.src|, ev) <==> G.IsJson(c.src, ev, c.trailingCommas, c.overflows)
  {
    hide ReadBack.Accepting, Parse, G.IsJson;
    assert c.src[..|c.src|] == c.src;
    ParseDecidesJson(c, |c.src|, ev);
    if Parse(c).Ok? {
      ParseDecidesJson(c, Parse(c).pos, Parse(c).ev);
    }
    if ev1 :| G.IsJson(c.src, ev1, c.trailingCommas, c.overflows) {
      ParseDecidesJson(c, |c.src|, ev1);
    }
  }
}
