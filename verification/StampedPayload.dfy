/**
 What a processor reads: the payload of an accepted body, seen by a JSON reader, is
 the body's object with one member more.
 */
module StampedPayload {
  import opened Bytes
  import opened Json
  import opened Lexer
  import opened Descent
  import opened Dom
  import opened ReaderLocality
  import E = ParserEquivalence
  import L = StringLiterals
  import P = Payload
  import ReadBack
  import RoundTrip

  // ---- Strings of bytes ----

  predicate IsBytes(s: string) {
    forall i :: 0 <= i < |s| ==> s[i] as int < 256
  }

  function BytesOf(s: string): (r: seq<Byte>)
    requires IsBytes(s)
    ensures |r| == |s| && forall i :: 0 <= i < |s| ==> r[i] == s[i] as int
  {
    seq(|s|, i requires 0 <= i < |s| => s[i] as int)
  }

  const REQUESTED_AT: seq<Byte> := [0x72, 0x65, 0x71, 0x75, 0x65, 0x73, 0x74, 0x65, 0x64, 0x41, 0x74]

  /** What replaces the closing brace. */
  function Stamp(ts: seq<Byte>): seq<Byte> {
    [COMMA] + L.StringText(REQUESTED_AT) + [COLON] + L.StringText(ts) + [RBRACE]
  }

  predicate IsPlain(s: seq<Byte>) {
    forall i :: 0 <= i < |s| ==> L.EscapeLetter(s[i]) == 0
  }

  lemma {:induction false} PlainStays(s: seq<Byte>)
    requires IsPlain(s)
    ensures L.Escaped(s) == s
  {
    if s != [] {
      PlainStays(s[1..]);
    }
  }

  lemma ClockIsPlain(ts: string)
    requires P.IsTimestamp(ts)
    ensures IsBytes(ts) && IsPlain(BytesOf(ts))
  {
  }

  lemma BytesOfConcat(a: string, b: string)
    requires IsBytes(a) && IsBytes(b)
    ensures IsBytes(a + b) && BytesOf(a + b) == BytesOf(a) + BytesOf(b)
  {
  }

  lemma StampText()
    ensures IsBytes(P.STAMP) && BytesOf(P.STAMP) == [COMMA] + ([QUOTE] + REQUESTED_AT + [QUOTE]) + [COLON] + [QUOTE]
    ensures IsBytes("\"}") && BytesOf("\"}") == [QUOTE] + [RBRACE]
  {
  }

  lemma StampOfPlain(ts: seq<Byte>)
    requires IsPlain(ts)
    ensures Stamp(ts) == [COMMA] + ([QUOTE] + REQUESTED_AT + [QUOTE]) + [COLON] + [QUOTE] + ts + ([QUOTE] + [RBRACE])
  {
    hide IsPlain, L.Escaped;
    assert IsPlain(REQUESTED_AT) by { RequestedAtIsPlain(); }
    PlainStays(REQUESTED_AT);
    PlainStays(ts);
  }

  lemma RequestedAtIsPlain()
    ensures IsPlain(REQUESTED_AT)
  {
  }

  lemma StampIsBytes(ts: string)
    requires P.IsTimestamp(ts)
    ensures IsBytes(ts) && IsBytes(P.STAMP + ts + "\"}") && BytesOf(P.STAMP + ts + "\"}") == Stamp(BytesOf(ts))
  {
    hide P.IsTimestamp, IsBytes, BytesOf, Stamp, IsPlain;
    ClockIsPlain(ts);
    StampText();
    BytesOfConcat(P.STAMP, ts);
    BytesOfConcat(P.STAMP + ts, "\"}");
    StampOfPlain(BytesOf(ts));
  }

  /** The payload's bytes: the body's, with the stamp for the closing brace. */
  lemma StampedBytes(body: string, ts: string)
    requires P.IsBody(body) && IsBytes(body) && P.IsTimestamp(ts)
    ensures IsBytes(ts) && IsBytes(P.Stamped(body, ts))
    ensures BytesOf(P.Stamped(body, ts)) == BytesOf(body)[..|body| - 1] + Stamp(BytesOf(ts))
  {
    hide Stamp, P.IsTimestamp;
    StampIsBytes(ts);
    var kept := body[..|body| - 1];
    assert P.Stamped(body, ts) == kept + (P.STAMP + ts + "\"}");
    BytesOfConcat(kept, P.STAMP + ts + "\"}");
    assert BytesOf(kept) == BytesOf(body)[..|body| - 1];
  }

  // ---- The added member ----

  lemma StampParses(c: Config, k: nat, ev: seq<Event>, n: nat, ts: seq<Byte>)
    requires ReadBack.Accepting(c) && k < |c.src| && c.src[k..] == Stamp(ts)
    ensures ParseMembers(c, k + 1, ev, n) == Ok(|c.src|, ev + [Key(REQUESTED_AT), String(ts), EndObject(n + 1)])
  {
    hide ParseString, ParseMember, SkipBlanks, L.StringText;
    StampMember(c, k, ev, ts);
    ReadBack.NotBlank(c.src, |c.src| - 1);
    assert c.src[|c.src| - 1] == c.src[k..][|c.src| - 1 - k];
    assert ev + [Key(REQUESTED_AT), String(ts)] + [EndObject(n + 1)] == ev + [Key(REQUESTED_AT), String(ts), EndObject(n + 1)];
  }

  lemma StampMember(c: Config, k: nat, ev: seq<Event>, ts: seq<Byte>)
    requires ReadBack.Accepting(c) && k < |c.src| && c.src[k..] == Stamp(ts)
    ensures ParseMember(c, k + 1, ev) == Ok(|c.src| - 1, ev + [Key(REQUESTED_AT), String(ts)])
  {
    hide ParseString, SkipBlanks, L.StringText, Occurs;
    var name, value := L.StringText(REQUESTED_AT), L.StringText(ts);
    var colon := k + 1 + |name|;
    StampPlaces(c.src, k, ts);
    L.StringRoundTrip(c, k + 1, ev, REQUESTED_AT, true);
    L.StringRoundTrip(c, colon + 1, ev + [Key(REQUESTED_AT)], ts, false);
    ReadBack.NotBlank(c.src, colon);
    ReadBack.NotBlank(c.src, colon + 1);
    assert ev + [Key(REQUESTED_AT)] + [String(ts)] == ev + [Key(REQUESTED_AT), String(ts)];
  }

  lemma TextStarts(s: seq<Byte>)
    ensures L.StringText(s) != [] && L.StringText(s)[0] == QUOTE
  {
    hide L.Escaped;
  }

  lemma SuffixOccurs(s: seq<Byte>, k: nat)
    requires k <= |s|
    ensures Occurs(s[k..], s, k)
  {
  }

  /** Where the parts of the stamp are. */
  lemma StampPlaces(s: seq<Byte>, k: nat, ts: seq<Byte>)
    requires k < |s| && s[k..] == Stamp(ts)
    ensures var colon := k + 1 + |L.StringText(REQUESTED_AT)|;
            && Occurs(L.StringText(REQUESTED_AT), s, k + 1) && Occurs(L.StringText(ts), s, colon + 1)
            && colon + 1 + |L.StringText(ts)| == |s| - 1
            && At(s, k + 1) == QUOTE && At(s, colon) == COLON && At(s, colon + 1) == QUOTE
  {
    hide L.StringText, Occurs;
    var name, value := L.StringText(REQUESTED_AT), L.StringText(ts);
    TextStarts(REQUESTED_AT);
    TextStarts(ts);
    SuffixOccurs(s, k);
    assert Stamp(ts) == [COMMA] + (name + ([COLON] + (value + [RBRACE])));
    L.OccursSplit([COMMA], name + ([COLON] + (value + [RBRACE])), s, k);
    L.OccursSplit(name, [COLON] + (value + [RBRACE]), s, k + 1);
    L.OccursSplit([COLON], value + [RBRACE], s, k + 1 + |name|);
    L.OccursSplit(value, [RBRACE], s, k + 2 + |name|);
    L.ByteAt(name, s, k + 1, 0);
    L.ByteAt([COLON], s, k + 1 + |name|, 0);
    L.ByteAt(value, s, k + 2 + |name|, 0);
  }

  // ---- The payload ----

  /** The payload's outcome, from that of the body: a member is added, unless the body has none or a
      `comma` ends them, and then there is no name at `k`. */
  ghost predicate AddsMember(before: Outcome, after: Outcome, k: nat, end: nat, ts: seq<Byte>, comma: bool) {
    && before.Ok? && before.ev != [] && before.ev[|before.ev| - 1].EndObject?
    && var i := |before.ev| - 1;
       var n := before.ev[i].members;
       after == if n > 0 && !comma then Ok(end, before.ev[..i] + [Key(REQUESTED_AT), String(ts), EndObject(n + 1)])
                else Fail(ObjectMissName, k, before.ev[..i])
  }

  lemma EndOfMembers(ev: seq<Event>, k: nat, end: nat, ts: seq<Byte>, n: nat)
    ensures n > 0 ==> AddsMember(Ok(k + 1, ev + [EndObject(n)]),
                                 Ok(end, ev + [Key(REQUESTED_AT), String(ts), EndObject(n + 1)]), k, end, ts, false)
    ensures AddsMember(Ok(k + 1, ev + [EndObject(n)]), Fail(ObjectMissName, k, ev), k, end, ts, true)
    ensures n == 0 ==> AddsMember(Ok(k + 1, ev + [EndObject(n)]), Fail(ObjectMissName, k, ev), k, end, ts, false)
  {
    assert (ev + [EndObject(n)])[..|ev|] == ev;
  }

  lemma CommaIsNoName(c: Config, pos: nat, ev: seq<Event>, n: nat)
    requires At(c.src, pos) == COMMA
    ensures ParseMembers(c, pos, ev, n) == Fail(ObjectMissName, pos, ev)
  {
  }

  /** The text and the payload, around the body's last byte. */
  ghost predicate IsStamped(c: Config, t: seq<Byte>, ts: seq<Byte>) {
    && ReadBack.Accepting(c) && c.src != [] && AgreeTo(c.src, t, |c.src| - 1) && t[|c.src| - 1..] == Stamp(ts)
  }

  lemma StampedPlaces(c: Config, t: seq<Byte>, ts: seq<Byte>)
    requires IsStamped(c, t, ts)
    ensures var k := |c.src| - 1;
            && AgreeTo(c.src, t, k) && At(c.src, k) == RBRACE && At(t, k) == COMMA
            && At(t, k + 1) == QUOTE && SkipBlanks(t, k + 1) == k + 1
  {
    hide Stamp;
    StampPlaces(t, |c.src| - 1, ts);
  }

  /** The last member, with nothing but the closing brace behind it. */
  lemma LastMemberStamped(c: Config, t: seq<Byte>, pos: nat, ev: seq<Event>, n: nat, ts: seq<Byte>)
    requires IsStamped(c, t, ts)
    requires ParseMember(c, pos, ev).Ok? && SkipBlanks(c.src, ParseMember(c, pos, ev).pos) == |c.src| - 1
    ensures var k := |c.src| - 1;
            && E.ByteBefore(c.src, k) != COMMA
            && AddsMember(ParseMembers(c, pos, ev, n), ParseMembers(c.(src := t), pos, ev, n), k, |t|, ts, false)
  {
    hide ParseMember, SkipBlanks, AgreeTo, Stamp, AddsMember, E.ByteBefore, E.EndsValue;
    var s, k, d, v := c.src, |c.src| - 1, c.(src := t), ParseMember(c, pos, ev);
    StampedPlaces(c, t, ts);
    MemberAgrees(c, t, k, pos, ev);
    BlanksAgree(s, t, k, v.pos);
    E.MemberEnds(c, pos, ev);
    E.NoCommaBefore(s, v.pos);
    StampParses(d, k, v.ev, n + 1, ts);
    EndOfMembers(v.ev, k, |t|, ts, n + 1);
    assert ParseMembers(c, pos, ev, n) == Ok(k + 1, v.ev + [EndObject(n + 1)]);
    assert ParseMembers(d, pos, ev, n) == ParseMembers(d, k + 1, v.ev, n + 1);
  }

  /** The last member, with a comma and the closing brace behind it. */
  lemma TrailingCommaStamped(c: Config, t: seq<Byte>, pos: nat, ev: seq<Event>, n: nat, p: nat, ts: seq<Byte>)
    requires IsStamped(c, t, ts) && c.trailingCommas
    requires ParseMember(c, pos, ev).Ok? && SkipBlanks(c.src, ParseMember(c, pos, ev).pos) == p
    requires At(c.src, p) == COMMA && p < |c.src| - 1 == SkipBlanks(c.src, p + 1)
    ensures var k := |c.src| - 1;
            && E.ByteBefore(c.src, k) == COMMA
            && AddsMember(ParseMembers(c, pos, ev, n), ParseMembers(c.(src := t), pos, ev, n), k, |t|, ts, true)
  {
    hide ParseMember, SkipBlanks, AgreeTo, Stamp, AddsMember, E.ByteBefore;
    var s, k, d, v := c.src, |c.src| - 1, c.(src := t), ParseMember(c, pos, ev);
    StampedPlaces(c, t, ts);
    MemberAgrees(c, t, k, pos, ev);
    BlanksAgree(s, t, k, v.pos);
    SameByte(s, t, k, p);
    BlanksAgree(s, t, k, p + 1);
    E.BlanksBefore(s, p + 1);
    CommaBefore(s, p);
    CommaIsNoName(d, k, v.ev, n + 1);
    EndOfMembers(v.ev, k, |t|, ts, n + 1);
    assert ParseMembers(c, pos, ev, n) == Ok(k + 1, v.ev + [EndObject(n + 1)]);
  }

  lemma {:induction false} MembersStamped(c: Config, t: seq<Byte>, pos: nat, ev: seq<Event>, n: nat, ts: seq<Byte>)
    requires IsStamped(c, t, ts)
    requires ParseMembers(c, pos, ev, n).Ok? && ParseMembers(c, pos, ev, n).pos == |c.src|
    ensures var k := |c.src| - 1;
            AddsMember(ParseMembers(c, pos, ev, n), ParseMembers(c.(src := t), pos, ev, n), k, |t|, ts,
                       E.ByteBefore(c.src, k) == COMMA)
    decreases |c.src| - pos
  {
    hide ParseMember, SkipBlanks, AgreeTo, IsStamped, AddsMember, E.ByteBefore;
    var s, k, v := c.src, |c.src| - 1, ParseMember(c, pos, ev);
    StampedPlaces(c, t, ts);
    var p := SkipBlanks(s, v.pos);
    if At(s, p) == COMMA {
      BlanksAgree(s, t, k, p + 1);
      var q := SkipBlanks(s, p + 1);
      if c.trailingCommas && At(s, q) == RBRACE {
        TrailingCommaStamped(c, t, pos, ev, n, p, ts);
      } else {
        BraceIsNoName(c, k, v.ev, n + 1);
        MembersStamped(c, t, q, v.ev, n + 1, ts);
        NextMemberAgrees(c, t, pos, ev, n, p);
      }
    } else {
      LastMemberStamped(c, t, pos, ev, n, ts);
    }
  }

  lemma NextMemberAgrees(c: Config, t: seq<Byte>, pos: nat, ev: seq<Event>, n: nat, p: nat)
    requires c.src != [] && AgreeTo(c.src, t, |c.src| - 1)
    requires ParseMember(c, pos, ev).Ok? && SkipBlanks(c.src, ParseMember(c, pos, ev).pos) == p
    requires At(c.src, p) == COMMA && p < SkipBlanks(c.src, p + 1) < |c.src| - 1
    requires !(c.trailingCommas && At(c.src, SkipBlanks(c.src, p + 1)) == RBRACE)
    ensures var v := ParseMember(c, pos, ev);
            ParseMembers(c.(src := t), pos, ev, n) == ParseMembers(c.(src := t), SkipBlanks(c.src, p + 1), v.ev, n + 1)
  {
    hide ParseMember, SkipBlanks, AgreeTo;
    var s, k, v := c.src, |c.src| - 1, ParseMember(c, pos, ev);
    MemberAgrees(c, t, k, pos, ev);
    BlanksAgree(s, t, k, v.pos);
    SameByte(s, t, k, p);
    BlanksAgree(s, t, k, p + 1);
    SameByte(s, t, k, SkipBlanks(s, p + 1));
  }

  lemma BraceIsNoName(c: Config, pos: nat, ev: seq<Event>, n: nat)
    requires At(c.src, pos) == RBRACE
    ensures ParseMembers(c, pos, ev, n).Fail?
  {
  }

  lemma CommaBefore(s: seq<Byte>, p: nat)
    requires At(s, p) == COMMA
    ensures E.ByteBefore(s, p + 1) == COMMA
  {
  }

  lemma ObjectStamped(c: Config, t: seq<Byte>, pos: nat, ts: seq<Byte>)
    requires IsStamped(c, t, ts) && At(c.src, pos) == At(t, pos) == LBRACE
    requires ParseObject(c, pos, []).Ok? && ParseObject(c, pos, []).pos == |c.src|
    ensures var k := |c.src| - 1;
            AddsMember(ParseObject(c, pos, []), ParseObject(c.(src := t), pos, []), k, |t|, ts,
                       E.ByteBefore(c.src, k) == COMMA)
  {
    hide ParseMembers, SkipBlanks, AgreeTo, AddsMember, E.ByteBefore, Stamp;
    var s, k, ev := c.src, |c.src| - 1, [] + [StartObject];
    StampedPlaces(c, t, ts);
    BlanksAgree(s, t, k, pos + 1);
    var p := SkipBlanks(s, pos + 1);
    if At(s, p) == RBRACE {
      E.NoCommaBefore(s, pos + 1);
      CommaIsNoName(c.(src := t), k, ev, 0);
      EndOfMembers(ev, k, |t|, ts, 0);
    } else {
      BraceIsNoName(c, k, ev, 0);
      SameByte(s, t, k, p);
      MembersStamped(c, t, p, ev, 0, ts);
    }
  }

  /** A text that begins with an object is that object, and blanks. */
  lemma ParseIsObject(c: Config)
    requires At(c.src, SkipBlanks(c.src, 0)) == LBRACE
    ensures var v := ParseObject(c, SkipBlanks(c.src, 0), []);
            && (v.Fail? ==> Parse(c) == v)
            && (v.Ok? ==> var q := SkipBlanks(c.src, v.pos);
                          Parse(c) == if At(c.src, q) != NUL then Fail(DocumentRootNotSingular, q, v.ev) else Ok(q, v.ev))
  {
    hide ParseObject, SkipBlanks;
  }

  lemma TextStamped(c: Config, t: seq<Byte>, ts: seq<Byte>)
    requires IsStamped(c, t, ts)
    requires At(c.src, SkipBlanks(c.src, 0)) == LBRACE && Parse(c).Ok? && Parse(c).pos == |c.src|
    ensures AddsMember(Parse(c), Parse(c.(src := t)), |c.src| - 1, |t|, ts, E.ByteBefore(c.src, |c.src| - 1) == COMMA)
  {
    hide Parse, ParseObject, SkipBlanks, E.ByteBefore, IsStamped, AgreeTo;
    var s, k := c.src, |c.src| - 1;
    StampedPlaces(c, t, ts);
    BlanksAgree(s, t, k, 0);
    var p := SkipBlanks(s, 0);
    SameByte(s, t, k, p);
    ParseIsObject(c);
    ParseIsObject(c.(src := t));
    var v := ParseObject(c, p, []);
    if v.pos <= k {
      BlanksAgree(s, t, k, v.pos);
    }
    ReadBack.NotBlank(s, |s|);
    ReadBack.NotBlank(t, |t|);
    ObjectStamped(c, t, p, ts);
  }

  /** The main result. Take any body that the reader accepts as an object ending with the body. The
      payload is then read to its end, as that object with one member more, exactly when the object
      has a member and no trailing comma; otherwise it is no JSON text, for want of a name where the
      comma was put. */
  lemma PayloadParses(c: Config, body: string, ts: string)
    requires ReadBack.Accepting(c) && P.IsBody(body) && IsBytes(body) && P.IsTimestamp(ts) && c.src == BytesOf(body)
    requires At(c.src, SkipBlanks(c.src, 0)) == LBRACE && Parse(c).Ok? && Parse(c).pos == |body|
    ensures IsBytes(ts) && IsBytes(P.Stamped(body, ts))
    ensures var d := c.(src := BytesOf(P.Stamped(body, ts)));
            AddsMember(Parse(c), Parse(d), |body| - 1, |d.src|, BytesOf(ts), E.ByteBefore(c.src, |body| - 1) == COMMA)
  {
    hide Parse, SkipBlanks, P.Stamped, E.ByteBefore, IsStamped, AddsMember, Stamp;
    StampedBytes(body, ts);
    var t := BytesOf(P.Stamped(body, ts));
    BodyIsStamped(c, t, BytesOf(ts));
    TextStamped(c, t, BytesOf(ts));
  }

  lemma BodyIsStamped(c: Config, t: seq<Byte>, ts: seq<Byte>)
    requires ReadBack.Accepting(c) && c.src != [] && c.src[|c.src| - 1] == RBRACE && t == c.src[..|c.src| - 1] + Stamp(ts)
    ensures IsStamped(c, t, ts)
  {
    hide L.StringText;
  }

  // ---- The document ----

  lemma {:induction false} MembersSnoc(entries: seq<Value>, name: seq<Byte>, v: Value)
    requires |entries| % 2 == 0 && Named(entries)
    ensures var more := entries + [StringValue(name), v];
            Named(more) && Members(more) == Members(entries) + [Member(name, v)]
    decreases |entries|
  {
    var more := entries + [StringValue(name), v];
    if entries != [] {
      MembersSnoc(entries[2..], name, v);
      assert more[2..] == entries[2..] + [StringValue(name), v];
    }
  }

  /** A stack that the end of an object turns into one object. */
  lemma ObjectStack(stack: seq<Value>, n: nat, ms: seq<Member>)
    requires CanHandle(stack, EndObject(n)) && Handle(stack, EndObject(n)) == [ObjectValue(ms)]
    ensures |stack| == 2 * n + 1 && Named(stack[1..]) && Members(stack[1..]) == ms && |ms| == n
  {
    var k := |stack| - 2 * n;
    assert |Handle(stack, EndObject(n))| == k;
    assert Handle(stack, EndObject(n))[0] == ObjectValue(Members(stack[k..]));
    MembersLength(stack[k..]);
  }

  /** The document of the events with the member added has the member added. */
  lemma DocumentGrows(ev: seq<Event>, n: nat, ms: seq<Member>, ts: seq<Byte>)
    requires HandleAll([], ev + [EndObject(n)]) == Some([ObjectValue(ms)])
    ensures |ms| == n
    ensures HandleAll([], ev + [Key(REQUESTED_AT), String(ts), EndObject(n + 1)])
            == Some([ObjectValue(ms + [Member(REQUESTED_AT, StringValue(ts))])])
  {
    hide HandleAll, CanHandle, Handle, Members;
    HandlesPrefix([], ev, [EndObject(n)]);
    RoundTrip.HandleConcat([], ev, [EndObject(n)]);
    var stack := HandleAll([], ev).value;
    HandlesOne(stack, EndObject(n));
    ObjectStack(stack, n, ms);
    RoundTrip.HandleConcat([], ev, [Key(REQUESTED_AT), String(ts), EndObject(n + 1)]);
    HandlesStamp(stack, ts);
    StampCloses(stack, n, ts);
  }

  lemma StampCloses(stack: seq<Value>, n: nat, ts: seq<Byte>)
    requires |stack| == 2 * n + 1 && Named(stack[1..])
    ensures var more := stack + [StringValue(REQUESTED_AT), StringValue(ts)];
            && CanHandle(more, EndObject(n + 1))
            && Handle(more, EndObject(n + 1)) == [ObjectValue(Members(stack[1..]) + [Member(REQUESTED_AT, StringValue(ts))])]
            && HandleAll(more, [EndObject(n + 1)]) == Some(Handle(more, EndObject(n + 1)))
  {
    hide Members;
    var more := stack + [StringValue(REQUESTED_AT), StringValue(ts)];
    MembersSnoc(stack[1..], REQUESTED_AT, StringValue(ts));
    assert more[1..] == stack[1..] + [StringValue(REQUESTED_AT), StringValue(ts)] && more[..0] == [];
    RoundTrip.HandleOne(more, EndObject(n + 1));
  }

  lemma {:induction false} HandlesPrefix(stack: seq<Value>, a: seq<Event>, b: seq<Event>)
    requires HandleAll(stack, a + b).Some?
    ensures HandleAll(stack, a).Some?
    decreases |a|
  {
    hide Handle, CanHandle;
    if a != [] {
      assert (a + b)[0] == a[0] && (a + b)[1..] == a[1..] + b;
      HandlesPrefix(Handle(stack, a[0]), a[1..], b);
    }
  }

  lemma HandlesOne(stack: seq<Value>, e: Event)
    requires HandleAll(stack, [e]).Some?
    ensures CanHandle(stack, e) && HandleAll(stack, [e]).value == Handle(stack, e)
  {
    hide Handle, CanHandle;
    assert [e][1..] == [];
  }

  lemma HandlesStamp(stack: seq<Value>, ts: seq<Byte>)
    ensures forall e ::
              HandleAll(stack, [Key(REQUESTED_AT), String(ts), e])
              == HandleAll(stack + [StringValue(REQUESTED_AT), StringValue(ts)], [e])
  {
    hide CanHandle, Handle, HandleAll;
    var key, value := Key(REQUESTED_AT), String(ts);
    var stack1 := stack + [StringValue(REQUESTED_AT)];
    HandlesStrings(stack, REQUESTED_AT);
    RoundTrip.HandleOne(stack, key);
    HandlesStrings(stack1, ts);
    RoundTrip.HandleOne(stack1, value);
    assert stack1 + [StringValue(ts)] == stack + [StringValue(REQUESTED_AT), StringValue(ts)];
    forall e
      ensures HandleAll(stack, [key, value, e]) == HandleAll(stack + [StringValue(REQUESTED_AT), StringValue(ts)], [e])
    {
      assert [key, value, e] == [key] + [value, e] && [value, e] == [value] + [e];
      RoundTrip.HandleConcat(stack, [key], [value, e]);
      RoundTrip.HandleConcat(stack1, [value], [e]);
    }
  }

  lemma HandlesStrings(stack: seq<Value>, s: seq<Byte>)
    ensures CanHandle(stack, Key(s)) && Handle(stack, Key(s)) == stack + [StringValue(s)]
    ensures CanHandle(stack, String(s)) && Handle(stack, String(s)) == stack + [StringValue(s)]
  {
  }

  /** So a document built from the body is built from the payload with `requestedAt` added at the end. */
  lemma PayloadAddsMember(c: Config, body: string, ts: string, ms: seq<Member>)
    requires ReadBack.Accepting(c) && P.IsBody(body) && IsBytes(body) && P.IsTimestamp(ts) && c.src == BytesOf(body)
    requires At(c.src, SkipBlanks(c.src, 0)) == LBRACE && Parse(c).Ok? && Parse(c).pos == |body|
    requires HandleAll([], Parse(c).ev) == Some([ObjectValue(ms)])
    ensures IsBytes(ts) && IsBytes(P.Stamped(body, ts))
    ensures var r := Parse(c.(src := BytesOf(P.Stamped(body, ts))));
            r.Ok? <==> ms != [] && E.ByteBefore(c.src, |body| - 1) != COMMA
    ensures var r := Parse(c.(src := BytesOf(P.Stamped(body, ts))));
            r.Ok? ==> HandleAll([], r.ev) == Some([ObjectValue(ms + [Member(REQUESTED_AT, StringValue(BytesOf(ts)))])])
  {
    hide Parse, HandleAll, SkipBlanks, E.ByteBefore, P.Stamped;
    PayloadParses(c, body, ts);
    var ev := Parse(c).ev;
    var i := |ev| - 1;
    assert ev == ev[..i] + [ev[i]];
    DocumentGrows(ev[..i], ev[i].members, ms, BytesOf(ts));
  }

  lemma {:induction false} MembersLength(entries: seq<Value>)
    requires |entries| % 2 == 0 && Named(entries)
    ensures 2 * |Members(entries)| == |entries|
    decreases |entries|
  {
    if entries != [] {
      MembersLength(entries[2..]);
    }
  }

  /** The empty object is accepted, and its payload is no JSON text. */
  lemma EmptyObjectBreaks(c: Config, ts: string)
    requires ReadBack.Accepting(c) && P.IsTimestamp(ts) && c.src == [LBRACE, RBRACE]
    ensures Parse(c).Ok? && IsBytes(P.Stamped("{}", ts))
    ensures Parse(c.(src := BytesOf(P.Stamped("{}", ts)))) == Fail(ObjectMissName, 1, [StartObject])
  {
    hide P.Stamped, Parse;
    ReadBack.NotBlank(c.src, 0);
    ReadBack.NotBlank(c.src, 1);
    ReadBack.NotBlank(c.src, 2);
    ParseIsObject(c);
    assert [] + [StartObject] + [EndObject(0)] == [StartObject, EndObject(0)];
    assert Parse(c) == Ok(2, [StartObject, EndObject(0)]);
    assert c.src == BytesOf("{}");
    PayloadParses(c, "{}", ts);
    assert [StartObject, EndObject(0)][..1] == [StartObject];
  }
}
