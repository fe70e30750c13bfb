/**
 The compact text of a value, and the proof that the writer prints it.
 */
module ValueText {
  import opened Bytes
  import opened Json
  import opened Lexer
  import opened StringLiterals
  import opened Dom
  import W = Writer

  // ---- The text of a value ----

  function NumberOf(x: Integer): int {
    if x.flags.isUint64 then x.bits else Signed(x.bits, TWO64)
  }

  /** The literals that stand for doubles: numbers with a fraction or exponent, or too big for
      64 bits, and in the range of double. */
  predicate IsDoubleLiteral(c: Config, lit: seq<Byte>) {
    ScanNumber(c.(src := lit), 0) == Number(|lit|, Double(lit))
  }

  /** Values as the constructors build them: canonical integers and printable doubles. */
  predicate IsStorable(c: Config, v: Value)
    decreases v
  {
    match v
    case IntegerValue(x) => Fits(NumberOf(x)) && x == Stored(NumberOf(x))
    case DoubleValue(lit) => IsDoubleLiteral(c, lit)
    case ArrayValue(es) => forall i :: 0 <= i < |es| ==> IsStorable(c, es[i])
    case ObjectValue(ms) => forall i :: 0 <= i < |ms| ==> IsStorable(c, ms[i].value)
    case _ => true
  }

  function Text(v: Value): seq<Byte>
    decreases v
  {
    match v
    case ArrayValue(es) => [LBRACKET] + ElementsText(es, 0) + [RBRACKET]
    case ObjectValue(ms) => [LBRACE] + MembersText(ms, 0) + [RBRACE]
    case _ => W.ScalarText(ScalarEvent(v))
  }

  /** A comma, except before the first of a container. */
  function CommaAfter(n: nat): seq<Byte> {
    if n == 0 then [] else [COMMA]
  }

  /** The elements `es` when `n` have been printed before them. */
  function ElementsText(es: seq<Value>, n: nat): seq<Byte>
    decreases es
  {
    if es == [] then [] else CommaAfter(n) + Text(es[0]) + ElementsText(es[1..], n + 1)
  }

  function MembersText(ms: seq<Member>, n: nat): seq<Byte>
    decreases ms
  {
    if ms == [] then []
    else
      assert ms[0].value < ms[0];
      CommaAfter(n) + StringText(ms[0].name) + [COLON] + Text(ms[0].value) + MembersText(ms[1..], n + 1)
  }

  // ---- The writer prints the text ----

  lemma {:induction false} WriteConcat(w: W.Output, a: seq<Event>, b: seq<Event>)
    requires W.WriteAll(w, a).Some?
    ensures W.WriteAll(w, a + b) == W.WriteAll(W.WriteAll(w, a).value, b)
    decreases |a|
  {
    hide W.Write, W.CanWrite;
    if a == [] {
      assert a + b == b;
    } else {
      assert (a + b)[1..] == a[1..] + b;
      WriteConcat(W.Write(w, a[0]), a[1..], b);
    }
  }

  /** A value of any kind may be written next. */
  predicate WantsValue(w: W.Output) {
    if w.levels == [] then !w.hasRoot
    else W.Top(w).inArray || W.Top(w).valueCount % 2 == 1
  }

  /** Writing a value's events puts a separator and the value's text and counts one value. */
  lemma {:induction false} WriterPrints(w: W.Output, v: Value)
    requires WantsValue(w)
    ensures W.WriteAll(w, Accept(v)) == Some(W.Put(W.Prefix(w), Text(v)))
    decreases v
  {
    match v
    case ArrayValue(es) =>
      ArrayPrints(w, es);
    case ObjectValue(ms) =>
      ObjectPrints(w, ms);
    case _ =>
      assert Accept(v)[1..] == [];
  }

  /** A container's start, items and end, given what its items put. */
  lemma ContainerPrints(w: W.Output, isArray: bool, items: seq<Event>, n: nat, level: W.Level, body: seq<Byte>)
    requires WantsValue(w) && level.inArray == isArray && (!isArray ==> level.valueCount % 2 == 0)
    requires var w1 := W.Write(w, if isArray then StartArray else StartObject);
             W.WriteAll(w1, items) == Some(Counted(w1, level, body))
    ensures var start, end := if isArray then StartArray else StartObject, if isArray then EndArray(n) else EndObject(n);
            var open, close := if isArray then LBRACKET else LBRACE, if isArray then RBRACKET else RBRACE;
            W.WriteAll(w, [start] + items + [end]) == Some(W.Put(W.Prefix(w), [open] + body + [close]))
  {
    hide W.Prefix;
    var start, end := if isArray then StartArray else StartObject, if isArray then EndArray(n) else EndObject(n);
    var open, close := if isArray then LBRACKET else LBRACE, if isArray then RBRACKET else RBRACE;
    var w1 := W.Write(w, start);
    var w2 := Counted(w1, level, body);
    assert ([start] + items + [end])[1..] == items + [end];
    WriteConcat(w1, items, [end]);
    assert [end][1..] == [];
    assert W.CanWrite(w2, end);
    assert w2.levels[..|w2.levels| - 1] == W.Prefix(w).levels;
    assert W.Prefix(w).text + [open] + body + [close] == W.Prefix(w).text + ([open] + body + [close]);
  }

  lemma {:induction false} ArrayPrints(w: W.Output, es: seq<Value>)
    requires WantsValue(w)
    ensures W.WriteAll(w, Accept(ArrayValue(es))) == Some(W.Put(W.Prefix(w), Text(ArrayValue(es))))
    decreases es, 1
  {
    hide W.Prefix, AcceptElements, ElementsText, W.WriteAll;
    ElementsPrint(W.Write(w, StartArray), es);
    ContainerPrints(w, true, AcceptElements(es), |es|, W.Level(true, |es|), ElementsText(es, 0));
  }

  lemma PrefixInArray(w: W.Output)
    requires w.levels != [] && W.Top(w).inArray
    ensures var i, n := |w.levels| - 1, W.Top(w).valueCount;
            W.Prefix(w) == W.Output(w.text + CommaAfter(n), w.levels[i := W.Level(true, n + 1)], w.hasRoot)
  {
    assert w.text + [] == w.text;
  }

  /** The innermost level replaced, and text put. */
  function Counted(w: W.Output, level: W.Level, t: seq<Byte>): W.Output
    requires w.levels != []
  {
    W.Output(w.text + t, w.levels[|w.levels| - 1 := level], w.hasRoot)
  }

  lemma CountedTwice(w: W.Output, l1: W.Level, t1: seq<Byte>, l2: W.Level, t2: seq<Byte>)
    requires w.levels != []
    ensures Counted(Counted(w, l1, t1), l2, t2) == Counted(w, l2, t1 + t2)
    ensures W.Top(Counted(w, l1, t1)) == l1
  {
    assert w.text + t1 + t2 == w.text + (t1 + t2);
  }

  lemma NothingCounted(w: W.Output)
    requires w.levels != []
    ensures Counted(w, W.Top(w), []) == w
  {
    assert w.text + [] == w.text;
    assert w.levels[|w.levels| - 1 := W.Top(w)] == w.levels;
  }

  lemma {:induction false} ElementsPrint(w: W.Output, es: seq<Value>)
    requires w.levels != [] && W.Top(w).inArray
    ensures var n := W.Top(w).valueCount;
            W.WriteAll(w, AcceptElements(es)) == Some(Counted(w, W.Level(true, n + |es|), ElementsText(es, n)))
    decreases es, 0
  {
    hide W.Write, W.CanWrite, W.Prefix, Text, Accept;
    var n := W.Top(w).valueCount;
    if es == [] {
      NothingCounted(w);
    } else {
      WriterPrints(w, es[0]);
      PrefixInArray(w);
      var first := CommaAfter(n) + Text(es[0]);
      var w1 := Counted(w, W.Level(true, n + 1), first);
      assert w1.text == w.text + CommaAfter(n) + Text(es[0]);
      WriteConcat(w, Accept(es[0]), AcceptElements(es[1..]));
      CountedTwice(w, W.Level(true, n + 1), first, W.Level(true, n + |es|), ElementsText(es[1..], n + 1));
      ElementsPrint(w1, es[1..]);
    }
  }

  lemma {:induction false} ObjectPrints(w: W.Output, ms: seq<Member>)
    requires WantsValue(w)
    ensures W.WriteAll(w, Accept(ObjectValue(ms))) == Some(W.Put(W.Prefix(w), Text(ObjectValue(ms))))
    decreases ms, 1
  {
    hide W.Prefix, AcceptMembers, MembersText, W.WriteAll;
    MembersPrint(W.Write(w, StartObject), ms, 0);
    ContainerPrints(w, false, AcceptMembers(ms), |ms|, W.Level(false, 2 * |ms|), MembersText(ms, 0));
  }

  lemma KeyStep(w: W.Output, name: seq<Byte>, n: nat)
    requires w.levels != [] && W.Top(w) == W.Level(false, 2 * n)
    ensures W.CanWrite(w, Key(name))
    ensures W.Write(w, Key(name)) == Counted(w, W.Level(false, 2 * n + 1), CommaAfter(n) + StringText(name))
  {
    assert w.text + [] == w.text;
    assert w.text + CommaAfter(n) + StringText(name) == w.text + (CommaAfter(n) + StringText(name));
  }

  lemma PrefixAfterKey(w: W.Output, n: nat)
    requires w.levels != [] && W.Top(w) == W.Level(false, 2 * n + 1)
    ensures W.Prefix(w) == Counted(w, W.Level(false, 2 * n + 2), [COLON]) && WantsValue(w)
  {
  }

  /** A key and its value, given that the value is printed. */
  lemma MemberPrints(w: W.Output, m: Member, n: nat)
    requires w.levels != [] && W.Top(w) == W.Level(false, 2 * n)
    requires var w1 := Counted(w, W.Level(false, 2 * n + 1), CommaAfter(n) + StringText(m.name));
             W.WriteAll(w1, Accept(m.value)) == Some(W.Put(W.Prefix(w1), Text(m.value)))
    ensures W.WriteAll(w, [Key(m.name)] + Accept(m.value))
            == Some(Counted(w, W.Level(false, 2 * n + 2), CommaAfter(n) + StringText(m.name) + [COLON] + Text(m.value)))
  {
    hide W.Write, W.CanWrite, W.Prefix, Text, Accept, StringText;
    KeyStep(w, m.name, n);
    var first := CommaAfter(n) + StringText(m.name);
    var w1 := Counted(w, W.Level(false, 2 * n + 1), first);
    PrefixAfterKey(w1, n);
    CountedTwice(w, W.Level(false, 2 * n + 1), first, W.Level(false, 2 * n + 2), [COLON]);
    assert w.text + (first + [COLON]) + Text(m.value) == w.text + (first + [COLON] + Text(m.value));
    assert ([Key(m.name)] + Accept(m.value))[1..] == Accept(m.value);
  }

  lemma {:induction false} MembersPrint(w: W.Output, ms: seq<Member>, n: nat)
    requires w.levels != [] && W.Top(w) == W.Level(false, 2 * n)
    ensures W.WriteAll(w, AcceptMembers(ms)) == Some(Counted(w, W.Level(false, 2 * (n + |ms|)), MembersText(ms, n)))
    decreases ms, 0
  {
    hide W.WriteAll, W.Prefix, Text, Accept, StringText;
    if ms == [] {
      NothingWritten(w);
      NothingCounted(w);
    } else {
      var m := ms[0];
      assert m.value < m;
      var rest := AcceptMembers(ms[1..]);
      var first := CommaAfter(n) + StringText(m.name);
      var w1 := Counted(w, W.Level(false, 2 * n + 1), first);
      PrefixAfterKey(w1, n);
      WriterPrints(w1, m.value);
      MemberPrints(w, m, n);
      var second := first + [COLON] + Text(m.value);
      var w2 := Counted(w, W.Level(false, 2 * n + 2), second);
      WriteConcat(w, [Key(m.name)] + Accept(m.value), rest);
      MembersPrint(w2, ms[1..], n + 1);
      CountedTwice(w, W.Level(false, 2 * n + 2), second, W.Level(false, 2 * (n + |ms|)), MembersText(ms[1..], n + 1));
    }
  }

  lemma NothingWritten(w: W.Output)
    ensures W.WriteAll(w, []) == Some(w)
  {
  }
}
