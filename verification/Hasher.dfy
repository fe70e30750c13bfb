/**
 The schema validator's value hasher: a stack of 64-bit FNV-1a hashes, one for
 every complete value, that does not depend on the order of object members.
 */
module Hasher {
  import opened Bytes
  import opened Json
  import opened Dom
  import opened Fnv

  const ZERO_HASH := Hash64(0)

  const NULL_TYPE := Hash64(0)
  const FALSE_TYPE := Hash64(1)
  const TRUE_TYPE := Hash64(2)
  const OBJECT_TYPE := Hash64(3)
  const ARRAY_TYPE := Hash64(4)
  const STRING_TYPE := Hash64(5)
  const NUMBER_TYPE := Hash64(6)

  /** How the machine treats doubles, each given by its bytes: the double of an integer, the double of
      a literal, whether a double is below zero, and its value with the fraction cut off. */
  datatype Machine = Machine(
    ofInteger: int -> seq<Byte>,
    ofLiteral: seq<Byte> -> seq<Byte>,
    isNegative: seq<Byte> -> bool,
    truncate: seq<Byte> -> int)

  function MixBytes(h: Hash64, data: seq<Byte>): Hash64 {
    if data == [] then h else Mix(MixBytes(h, data[..|data| - 1]), OfByte(data[|data| - 1]))
  }

  /** `WriteBuffer`. */
  function Digest(kind: Hash64, data: seq<Byte>): Hash64 {
    MixBytes(Mix(OFFSET, kind), data)
  }

  function LittleEndian(x: nat, n: nat): seq<Byte> {
    if n == 0 then [] else [x % 256] + LittleEndian(x / 256, n - 1)
  }

  /** The 64-bit pattern of a signed member of the union. */
  function SignedPattern(i: int): nat {
    i % TWO64
  }

  /** The pattern of an unsigned member, which is never negative. */
  function UnsignedPattern(u: int): nat {
    if u >= 0 then u else 0
  }

  /** The union's eight bytes, then the double's. */
  function NumberBytes(pattern: nat, double: seq<Byte>): seq<Byte> {
    LittleEndian(pattern, 8) + double
  }

  /** A double's union holds its integer part, signed if it is below zero. */
  function DoublePattern(m: Machine, double: seq<Byte>): nat {
    if m.isNegative(double) then SignedPattern(m.truncate(double)) else UnsignedPattern(m.truncate(double))
  }

  function StringHash(s: seq<Byte>): Hash64 {
    Digest(STRING_TYPE, s)
  }

  function NumberHash(m: Machine, pattern: nat, n: int): Hash64 {
    Digest(NUMBER_TYPE, NumberBytes(pattern, m.ofInteger(n)))
  }

  function MixAll(h: Hash64, hs: seq<Hash64>): Hash64 {
    if hs == [] then h else Mix(MixAll(h, hs[..|hs| - 1]), hs[|hs| - 1])
  }

  function XorAll(h: Hash64, hs: seq<Hash64>): Hash64 {
    if hs == [] then h else Xor(XorAll(h, hs[..|hs| - 1]), hs[|hs| - 1])
  }

  /** What a key and a value add to their object. */
  function Pair(key: Hash64, value: Hash64): Hash64 {
    Mix(Mix(ZERO_HASH, key), value)
  }

  /** The contributions of the key and value hashes that were popped. */
  function Pairs(kv: seq<Hash64>): (r: seq<Hash64>)
    requires |kv| % 2 == 0
    ensures |r| == |kv| / 2
  {
    if kv == [] then [] else [Pair(kv[0], kv[1])] + Pairs(kv[2..])
  }

  lemma {:induction false} PairAt(kv: seq<Hash64>, i: nat)
    requires |kv| % 2 == 0 && i < |kv| / 2
    ensures Pairs(kv)[i] == Pair(kv[2 * i], kv[2 * i + 1])
  {
    hide Pair;
    if i > 0 {
      PairAt(kv[2..], i - 1);
    }
  }

  // ---- Events ----

  predicate CanTake(stack: seq<Hash64>, e: Event) {
    match e
    case EndObject(n) => 2 * n <= |stack|
    case EndArray(n) => n <= |stack|
    case _ => true
  }

  function ScalarHash(m: Machine, e: Event): Hash64 {
    match e
    case Null => Digest(NULL_TYPE, [])
    case Bool(b) => Digest(if b then TRUE_TYPE else FALSE_TYPE, [])
    case Int(i) => NumberHash(m, SignedPattern(i), i)
    case Uint(u) => NumberHash(m, UnsignedPattern(u), u)
    case Int64(i) => NumberHash(m, SignedPattern(i), i)
    case Uint64(u) => NumberHash(m, UnsignedPattern(u), u)
    case Double(literal) => var d := m.ofLiteral(literal); Digest(NUMBER_TYPE, NumberBytes(DoublePattern(m, d), d))
    case String(s) => StringHash(s)
    case Key(s) => StringHash(s)
    case _ => ZERO_HASH
  }

  /** One event: a scalar or a key pushes its hash; the end of a container replaces its parts' hashes. */
  function Take(m: Machine, stack: seq<Hash64>, e: Event): seq<Hash64>
    requires CanTake(stack, e)
  {
    match e
    case StartObject => stack
    case StartArray => stack
    case EndObject(n) => CloseObject(stack, n)
    case EndArray(n) => CloseArray(stack, n)
    case _ => stack + [ScalarHash(m, e)]
  }

  /** The order of the members does not show in an exclusive or. */
  function CloseObject(stack: seq<Hash64>, n: nat): seq<Hash64>
    requires 2 * n <= |stack|
  {
    var k := |stack| - 2 * n;
    stack[..k] + [XorAll(Mix(ZERO_HASH, OBJECT_TYPE), Pairs(stack[k..]))]
  }

  /** The order of the elements does. */
  function CloseArray(stack: seq<Hash64>, n: nat): seq<Hash64>
    requires n <= |stack|
  {
    var k := |stack| - n;
    stack[..k] + [MixAll(Mix(ZERO_HASH, ARRAY_TYPE), stack[k..])]
  }

  function TakeAll(m: Machine, stack: seq<Hash64>, ev: seq<Event>): Option<seq<Hash64>>
    decreases |ev|
  {
    if ev == [] then Some(stack)
    else if !CanTake(stack, ev[0]) then None
    else TakeAll(m, Take(m, stack, ev[0]), ev[1..])
  }

  // ---- The hash of a value ----

  function ValueHash(m: Machine, v: Value): Hash64
    decreases v
  {
    match v
    case ArrayValue(es) => MixAll(Mix(ZERO_HASH, ARRAY_TYPE), ElementHashes(m, es))
    case ObjectValue(ms) => XorAll(Mix(ZERO_HASH, OBJECT_TYPE), MemberHashes(m, ms))
    case _ => ScalarHash(m, ScalarEvent(v))
  }

  function ElementHashes(m: Machine, es: seq<Value>): (r: seq<Hash64>)
    ensures |r| == |es|
    decreases es
  {
    if es == [] then [] else [ValueHash(m, es[0])] + ElementHashes(m, es[1..])
  }

  function MemberHashes(m: Machine, ms: seq<Member>): (r: seq<Hash64>)
    ensures |r| == |ms|
    decreases ms
  {
    if ms == [] then []
    else
      assert ms[0].value < ms[0];
      [Pair(StringHash(ms[0].name), ValueHash(m, ms[0].value))] + MemberHashes(m, ms[1..])
  }

  /** Key and value hashes in turn, as they lie on the stack. */
  function KeyValueHashes(m: Machine, ms: seq<Member>): (r: seq<Hash64>)
    ensures |r| == 2 * |ms|
  {
    if ms == [] then []
    else [StringHash(ms[0].name), ValueHash(m, ms[0].value)] + KeyValueHashes(m, ms[1..])
  }

  lemma {:induction false} PairsOfMembers(m: Machine, ms: seq<Member>)
    ensures Pairs(KeyValueHashes(m, ms)) == MemberHashes(m, ms)
  {
    hide Pair, ValueHash, StringHash;
    if ms != [] {
      PairsOfMembers(m, ms[1..]);
      assert KeyValueHashes(m, ms)[2..] == KeyValueHashes(m, ms[1..]);
    }
  }

  // ---- One hash for each complete value ----

  lemma {:induction false} TakeAllConcat(m: Machine, stack: seq<Hash64>, a: seq<Event>, b: seq<Event>)
    ensures TakeAll(m, stack, a + b) ==
            if TakeAll(m, stack, a).None? then None else TakeAll(m, TakeAll(m, stack, a).value, b)
    decreases |a|
  {
    hide Take;
    if a == [] {
      assert a + b == b;
    } else {
      assert (a + b)[1..] == a[1..] + b;
      if CanTake(stack, a[0]) {
        TakeAllConcat(m, Take(m, stack, a[0]), a[1..], b);
      }
    }
  }

  lemma TakeOne(m: Machine, stack: seq<Hash64>, e: Event)
    ensures TakeAll(m, stack, [e]) == if CanTake(stack, e) then Some(Take(m, stack, e)) else None
  {
    hide Take;
    assert [e][1..] == [];
  }

  /** Events between an opening event, which changes nothing, and the end of the container. */
  lemma ContainerTaken(m: Machine, stack: seq<Hash64>, first: Event, body: seq<Event>, last: Event, inner: seq<Hash64>)
    requires first.StartObject? || first.StartArray?
    requires TakeAll(m, stack, body) == Some(inner) && CanTake(inner, last)
    ensures TakeAll(m, stack, [first] + body + [last]) == Some(Take(m, inner, last))
  {
    hide Take, TakeAll, CanTake;
    TakeAllConcat(m, stack, [first] + body, [last]);
    TakeAllConcat(m, stack, [first], body);
    TakeStart(m, stack, first);
    TakeOne(m, inner, last);
  }

  lemma TakeStart(m: Machine, stack: seq<Hash64>, first: Event)
    requires first.StartObject? || first.StartArray?
    ensures TakeAll(m, stack, [first]) == Some(stack)
  {
    TakeOne(m, stack, first);
  }

  lemma ArrayCloses(stack: seq<Hash64>, hs: seq<Hash64>)
    ensures CloseArray(stack + hs, |hs|) == stack + [MixAll(Mix(ZERO_HASH, ARRAY_TYPE), hs)]
  {
    hide Mix, MixAll;
    var s := stack + hs;
    assert s[..|s| - |hs|] == stack && s[|s| - |hs|..] == hs;
  }

  lemma ObjectCloses(stack: seq<Hash64>, kv: seq<Hash64>, n: nat)
    requires |kv| == 2 * n
    ensures CloseObject(stack + kv, n) == stack + [XorAll(Mix(ZERO_HASH, OBJECT_TYPE), Pairs(kv))]
  {
    hide Mix, XorAll;
    var s := stack + kv;
    assert s[..|s| - |kv|] == stack && s[|s| - |kv|..] == kv;
  }

  /** The events of a value leave exactly one more hash on the stack, the value's. */
  lemma {:induction false} OneHashPerValue(m: Machine, stack: seq<Hash64>, v: Value)
    ensures TakeAll(m, stack, Accept(v)) == Some(stack + [ValueHash(m, v)])
    decreases v
  {
    hide ScalarHash, Mix, XorAll, MixAll, TakeAll, Pairs, AcceptElements, AcceptMembers, ElementHashes, MemberHashes, KeyValueHashes,
         CloseArray, CloseObject;
    match v
    case ArrayValue(es) =>
      ElementsTaken(m, stack, es);
      ArrayCloses(stack, ElementHashes(m, es));
      ContainerTaken(m, stack, StartArray, AcceptElements(es), EndArray(|es|), stack + ElementHashes(m, es));
    case ObjectValue(ms) =>
      MembersTaken(m, stack, ms);
      ObjectCloses(stack, KeyValueHashes(m, ms), |ms|);
      ContainerTaken(m, stack, StartObject, AcceptMembers(ms), EndObject(|ms|), stack + KeyValueHashes(m, ms));
      PairsOfMembers(m, ms);
    case _ => TakeOne(m, stack, ScalarEvent(v));
  }

  lemma {:induction false} ElementsTaken(m: Machine, stack: seq<Hash64>, es: seq<Value>)
    ensures TakeAll(m, stack, AcceptElements(es)) == Some(stack + ElementHashes(m, es))
    decreases es
  {
    hide ValueHash, Accept, Take, CanTake;
    if es == [] {
      assert stack + [] == stack;
    } else {
      var h := ValueHash(m, es[0]);
      OneHashPerValue(m, stack, es[0]);
      ElementsTaken(m, stack + [h], es[1..]);
      TakeAllConcat(m, stack, Accept(es[0]), AcceptElements(es[1..]));
      assert stack + [h] + ElementHashes(m, es[1..]) == stack + ElementHashes(m, es);
    }
  }

  lemma KeyTaken(m: Machine, stack: seq<Hash64>, name: seq<Byte>)
    ensures TakeAll(m, stack, [Key(name)]) == Some(stack + [StringHash(name)])
  {
    hide StringHash, TakeAll;
    TakeOne(m, stack, Key(name));
  }

  lemma {:induction false} MembersTaken(m: Machine, stack: seq<Hash64>, ms: seq<Member>)
    ensures TakeAll(m, stack, AcceptMembers(ms)) == Some(stack + KeyValueHashes(m, ms))
    decreases ms
  {
    hide ValueHash, Accept, StringHash, Take, CanTake;
    if ms == [] {
      assert stack + [] == stack;
    } else {
      assert ms[0].value < ms[0];
      var k, h, rest := StringHash(ms[0].name), ValueHash(m, ms[0].value), KeyValueHashes(m, ms[1..]);
      var key, body := [Key(ms[0].name)], Accept(ms[0].value);
      KeyTaken(m, stack, ms[0].name);
      OneHashPerValue(m, stack + [k], ms[0].value);
      MembersTaken(m, stack + [k] + [h], ms[1..]);
      TakeAllConcat(m, stack, key, body);
      TakeAllConcat(m, stack, key + body, AcceptMembers(ms[1..]));
      assert stack + [k] + [h] + rest == stack + ([k, h] + rest);
    }
  }

  // ---- Order does not matter ----

  ghost predicate IsPermutation(p: seq<nat>, n: nat) {
    && |p| == n && (forall i :: 0 <= i < n ==> p[i] < n)
    && (forall i, j :: 0 <= i < j < n ==> p[i] != p[j])
  }

  /** `w` is `v` with the members of its objects in another order, at any depth. */
  ghost predicate Reordered(v: Value, w: Value)
    decreases v
  {
    match v
    case ArrayValue(es) => w.ArrayValue? && ElementsReordered(es, w.elements)
    case ObjectValue(ms) =>
      w.ObjectValue? && |w.members| == |ms| && exists p :: IsPermutation(p, |ms|) && MembersReordered(ms, w.members, p)
    case _ => v == w
  }

  ghost predicate ElementsReordered(es: seq<Value>, fs: seq<Value>)
    decreases es
  {
    |fs| == |es| && forall i :: 0 <= i < |es| ==> Reordered(es[i], fs[i])
  }

  ghost predicate MembersReordered(ms: seq<Member>, ns: seq<Member>, p: seq<nat>)
    requires IsPermutation(p, |ms|) && |ns| == |ms|
    decreases ms
  {
    forall i :: 0 <= i < |ms| ==> ms[i].name == ns[p[i]].name && MemberReordered(ms[i], ns[p[i]])
  }

  ghost predicate MemberReordered(a: Member, b: Member)
    decreases a
  {
    Reordered(a.value, b.value)
  }

  /** A hash can be taken out of the middle. */
  lemma {:induction false} XorRemove(h: Hash64, hs: seq<Hash64>, k: nat)
    requires k < |hs|
    ensures XorAll(h, hs) == Xor(XorAll(h, hs[..k] + hs[k + 1..]), hs[k])
    decreases |hs|
  {
    hide Xor;
    var n := |hs| - 1;
    if k == n {
      assert hs[..k] + hs[k + 1..] == hs[..n];
    } else {
      XorRemove(h, hs[..n], k);
      var rest := hs[..k] + hs[k + 1..];
      assert rest[..n - 1] == hs[..n][..k] + hs[..n][k + 1..] && rest[n - 1] == hs[n] && hs[..n][k] == hs[k];
      XorSwap(XorAll(h, rest[..n - 1]), hs[k], hs[n]);
    }
  }

  /** The permutation of what is left when the last element and its image are taken out. */
  function Shrunk(p: seq<nat>): (r: seq<nat>)
    requires p != []
    ensures |r| == |p| - 1
  {
    var n := |p| - 1;
    var k := p[n];
    seq(n, i requires 0 <= i < n => if p[i] < k then p[i] else if p[i] > 0 then p[i] - 1 else 0)
  }

  lemma ShrunkPermutation(p: seq<nat>, n: nat)
    requires IsPermutation(p, n) && n > 0
    ensures IsPermutation(Shrunk(p), n - 1)
  {
  }

  lemma {:induction false} XorPermuted(h: Hash64, a: seq<Hash64>, b: seq<Hash64>, p: seq<nat>)
    requires IsPermutation(p, |a|) && |b| == |a| && forall i :: 0 <= i < |a| ==> b[p[i]] == a[i]
    ensures XorAll(h, a) == XorAll(h, b)
    decreases |a|
  {
    hide Xor;
    if a != [] {
      var n := |a| - 1;
      var k := p[n];
      var a', b', p' := a[..n], b[..k] + b[k + 1..], Shrunk(p);
      ShrunkPermutation(p, |a|);
      forall i | 0 <= i < n
        ensures b'[p'[i]] == a'[i]
      {
        assert p[i] != p[n];
        assert b'[p'[i]] == b[p[i]];
      }
      XorPermuted(h, a', b', p');
      XorRemove(h, b, k);
    }
  }

  lemma {:induction false} ElementHashAt(m: Machine, es: seq<Value>, i: nat)
    requires i < |es|
    ensures ElementHashes(m, es)[i] == ValueHash(m, es[i])
  {
    hide ValueHash;
    if i > 0 {
      ElementHashAt(m, es[1..], i - 1);
    }
  }

  lemma {:induction false} MemberHashAt(m: Machine, ms: seq<Member>, i: nat)
    requires i < |ms|
    ensures MemberHashes(m, ms)[i] == Pair(StringHash(ms[i].name), ValueHash(m, ms[i].value))
  {
    hide ValueHash, Pair, StringHash;
    if i > 0 {
      MemberHashAt(m, ms[1..], i - 1);
    }
  }

  /** Reordering object members at any depth leaves the hash as it is. */
  lemma {:induction false} OrderDoesNotMatter(m: Machine, v: Value, w: Value)
    requires Reordered(v, w)
    ensures ValueHash(m, v) == ValueHash(m, w)
    decreases v
  {
    hide ScalarHash, Mix, Pair, StringHash, XorAll, MixAll;
    match v
    case ArrayValue(es) =>
      var fs := w.elements;
      forall i | 0 <= i < |es|
        ensures ElementHashes(m, es)[i] == ElementHashes(m, fs)[i]
      {
        OrderDoesNotMatter(m, es[i], fs[i]);
        ElementHashAt(m, es, i);
        ElementHashAt(m, fs, i);
      }
      assert ElementHashes(m, es) == ElementHashes(m, fs);
    case ObjectValue(ms) =>
      var ns := w.members;
      var p :| IsPermutation(p, |ms|) && MembersReordered(ms, ns, p);
      forall i | 0 <= i < |ms|
        ensures MemberHashes(m, ns)[p[i]] == MemberHashes(m, ms)[i]
      {
        assert ms[i].value < ms[i] && MemberReordered(ms[i], ns[p[i]]);
        OrderDoesNotMatter(m, ms[i].value, ns[p[i]].value);
        MemberHashAt(m, ms, i);
        MemberHashAt(m, ns, p[i]);
      }
      XorPermuted(Mix(ZERO_HASH, OBJECT_TYPE), MemberHashes(m, ms), MemberHashes(m, ns), p);
    case _ =>
  }

  // ---- The carrier of a number does not matter ----

  predicate IsIntegerEvent(e: Event) {
    e.Int? || e.Uint? || e.Int64? || e.Uint64?
  }

  function NumberOf(e: Event): int
    requires IsIntegerEvent(e)
  {
    match e
    case Int(i) => i
    case Uint(u) => u
    case Int64(i) => i
    case Uint64(u) => u
  }

  /** The machine's double for `n` is `n` itself. */
  predicate IsExact(m: Machine, n: int) {
    m.truncate(m.ofInteger(n)) == n && (m.isNegative(m.ofInteger(n)) <==> n < 0)
  }

  /** An integer event and a literal with its number, which a double holds exactly. */
  predicate CarriesDouble(m: Machine, e: Event, f: Event) {
    && IsIntegerEvent(e) && InRange(e) && f.Double?
    && m.ofLiteral(f.literal) == m.ofInteger(NumberOf(e)) && IsExact(m, NumberOf(e))
  }

  /** The same event, or the same number in an event of another width or signedness, or as a double. */
  predicate Carries(m: Machine, e: Event, f: Event) {
    || e == f
    || (IsIntegerEvent(e) && IsIntegerEvent(f) && InRange(e) && InRange(f) && NumberOf(e) == NumberOf(f))
    || CarriesDouble(m, e, f) || CarriesDouble(m, f, e)
  }

  /** In range, the union holds the number modulo 2^64, whatever its signedness. */
  lemma IntegerHash(m: Machine, e: Event)
    requires IsIntegerEvent(e) && InRange(e)
    ensures ScalarHash(m, e) == NumberHash(m, NumberOf(e) % TWO64, NumberOf(e))
  {
    hide NumberHash;
    if NumberOf(e) >= 0 {
      assert NumberOf(e) % TWO64 == NumberOf(e);
    }
  }

  lemma DoubleHash(m: Machine, e: Event, f: Event)
    requires CarriesDouble(m, e, f)
    ensures ScalarHash(m, e) == ScalarHash(m, f)
  {
    hide Digest, NumberBytes;
    IntegerHash(m, e);
    if NumberOf(e) >= 0 {
      assert NumberOf(e) % TWO64 == NumberOf(e);
    }
  }

  lemma SameNumberSameHash(m: Machine, e: Event, f: Event)
    requires Carries(m, e, f)
    ensures ScalarHash(m, e) == ScalarHash(m, f)
  {
    hide NumberHash, ScalarHash, InRange, NumberOf, IsIntegerEvent, CarriesDouble;
    if CarriesDouble(m, e, f) {
      DoubleHash(m, e, f);
    } else if CarriesDouble(m, f, e) {
      DoubleHash(m, f, e);
    } else if e != f {
      IntegerHash(m, e);
      IntegerHash(m, f);
    }
  }

  /** Replacing numbers by others that carry the same ones leaves the stack as it is: 1 and 1.0 hash
      alike. */
  lemma {:induction false} CarrierDoesNotMatter(m: Machine, stack: seq<Hash64>, a: seq<Event>, b: seq<Event>)
    requires |a| == |b| && forall i :: 0 <= i < |a| ==> Carries(m, a[i], b[i])
    ensures TakeAll(m, stack, a) == TakeAll(m, stack, b)
    decreases |a|
  {
    hide ScalarHash, CloseObject, CloseArray, InRange, NumberOf, IsExact;
    if a != [] {
      SameNumberSameHash(m, a[0], b[0]);
      if CanTake(stack, a[0]) {
        CarrierDoesNotMatter(m, Take(m, stack, a[0]), a[1..], b[1..]);
      }
    }
  }

  lemma {:induction false} LittleEndianInjective(x: nat, y: nat, n: nat)
    requires x < Power256(n) && y < Power256(n) && LittleEndian(x, n) == LittleEndian(y, n)
    ensures x == y
    decreases n
  {
    if n > 0 {
      assert LittleEndian(x, n)[0] == LittleEndian(y, n)[0];
      LittleEndianRest(x, n);
      LittleEndianRest(y, n);
      LittleEndianInjective(x / 256, y / 256, n - 1);
    }
  }

  lemma LittleEndianRest(x: nat, n: nat)
    requires n > 0 && x < Power256(n)
    ensures LittleEndian(x, n)[1..] == LittleEndian(x / 256, n - 1) && x / 256 < Power256(n - 1)
  {
  }

  function Power256(n: nat): nat {
    if n == 0 then 1 else 256 * Power256(n - 1)
  }

  lemma {:induction false} LittleEndianLength(x: nat, n: nat)
    ensures |LittleEndian(x, n)| == n
  {
    if n > 0 {
      LittleEndianLength(x / 256, n - 1);
    }
  }

  lemma NumberBytesInjective(p: nat, d: seq<Byte>, q: nat, e: seq<Byte>)
    requires p < TWO64 && q < TWO64
    ensures NumberBytes(p, d) == NumberBytes(q, e) <==> p == q && d == e
  {
    hide LittleEndian;
    LittleEndianLength(p, 8);
    LittleEndianLength(q, 8);
    assert Power256(3) == 0x100_0000;
    assert Power256(6) == 0x1_0000_0000_0000;
    if NumberBytes(p, d) == NumberBytes(q, e) {
      assert NumberBytes(p, d)[..8] == LittleEndian(p, 8) && NumberBytes(p, d)[8..] == d;
      assert NumberBytes(q, e)[..8] == LittleEndian(q, 8) && NumberBytes(q, e)[8..] == e;
      LittleEndianInjective(p, q, 8);
    }
  }

  /** The conversion from a double to an integer is defined: the value is in the range of the type. */
  predicate CanTruncate(m: Machine, double: seq<Byte>) {
    if m.isNegative(double) then -TWO63 <= m.truncate(double) <= 0 else 0 <= m.truncate(double) < TWO64
  }

  /** An integer and a literal are hashed from the same bytes exactly when the literal's double is the
      integer's and no digit of the integer is lost in it. */
  lemma DoubleHashesAsInteger(m: Machine, e: Event, literal: seq<Byte>)
    requires IsIntegerEvent(e) && InRange(e) && CanTruncate(m, m.ofLiteral(literal))
    requires m.isNegative(m.ofInteger(NumberOf(e))) <==> NumberOf(e) < 0
    ensures var (n, d) := (NumberOf(e), m.ofLiteral(literal));
            NumberBytes(n % TWO64, m.ofInteger(n)) == NumberBytes(DoublePattern(m, d), d)
            <==> d == m.ofInteger(n) && m.truncate(d) == n
  {
    hide NumberBytes;
    var n, d := NumberOf(e), m.ofLiteral(literal);
    NumberBytesInjective(n % TWO64, m.ofInteger(n), DoublePattern(m, d), d);
    if n >= 0 {
      assert n % TWO64 == n;
    } else {
      assert n % TWO64 == n + TWO64;
    }
    if m.isNegative(d) && m.truncate(d) < 0 {
      assert m.truncate(d) % TWO64 == m.truncate(d) + TWO64;
    }
  }

  // ---- The hash depends on everything ----

  lemma {:induction false} MixBytesSplit(h: Hash64, a: seq<Byte>, b: seq<Byte>)
    ensures MixBytes(h, a + b) == MixBytes(MixBytes(h, a), b)
    decreases |b|
  {
    hide Mix, OfByte;
    if b == [] {
      assert a + b == a;
    } else {
      var k := |b| - 1;
      assert (a + b)[..|a + b| - 1] == a + b[..k];
      MixBytesSplit(h, a, b[..k]);
    }
  }

  lemma {:induction false} MixBytesInjective(g: Hash64, h: Hash64, data: seq<Byte>)
    ensures MixBytes(g, data) == MixBytes(h, data) <==> g == h
    decreases |data|
  {
    hide Mix, OfByte;
    if data != [] {
      var k := |data| - 1;
      MixBytesInjective(g, h, data[..k]);
      MixInjective(OfByte(data[k]), MixBytes(g, data[..k]), MixBytes(h, data[..k]));
    }
  }

  lemma MixByte(h: Hash64, x: Byte)
    ensures MixBytes(h, [x]) == Mix(h, OfByte(x))
  {
    assert [x][..0] == [];
  }

  /** One byte changed anywhere, or another kind, gives another hash. */
  lemma DigestDepends(kind: Hash64, kind1: Hash64, pre: seq<Byte>, x: Byte, y: Byte, post: seq<Byte>)
    ensures Digest(kind, pre + [x] + post) == Digest(kind, pre + [y] + post) <==> x == y
    ensures Digest(kind, pre) == Digest(kind1, pre) <==> kind == kind1
  {
    hide Mix, MixBytes;
    var h := Mix(OFFSET, kind);
    var g := MixBytes(h, pre);
    MixBytesSplit(h, pre + [x], post);
    MixBytesSplit(h, pre + [y], post);
    MixBytesSplit(h, pre, [x]);
    MixBytesSplit(h, pre, [y]);
    MixByte(g, x);
    MixByte(g, y);
    MixBytesInjective(MixBytes(g, [x]), MixBytes(g, [y]), post);
    MixInjective(g, OfByte(x), OfByte(y));
    MixInjective(OFFSET, kind, kind1);
    MixBytesInjective(h, Mix(OFFSET, kind1), pre);
  }

  lemma {:induction false} MixAllDepends(g: Hash64, h: Hash64, hs: seq<Hash64>)
    ensures MixAll(g, hs) == MixAll(h, hs) <==> g == h
    decreases |hs|
  {
    hide Mix;
    if hs != [] {
      var k := |hs| - 1;
      MixAllDepends(g, h, hs[..k]);
      MixInjective(hs[k], MixAll(g, hs[..k]), MixAll(h, hs[..k]));
    }
  }

  lemma {:induction false} MixAllAt(h: Hash64, hs: seq<Hash64>, i: nat, x: Hash64)
    requires i < |hs|
    ensures MixAll(h, hs[i := x]) == MixAll(h, hs) <==> x == hs[i]
    decreases |hs|
  {
    hide Mix;
    var k := |hs| - 1;
    if i == k {
      assert hs[i := x][..k] == hs[..k];
      MixInjective(MixAll(h, hs[..k]), x, hs[k]);
    } else {
      assert hs[i := x][..k] == hs[..k][i := x];
      MixAllAt(h, hs[..k], i, x);
      MixInjective(hs[k], MixAll(h, hs[..k][i := x]), MixAll(h, hs[..k]));
    }
  }

  lemma {:induction false} XorAllAt(h: Hash64, hs: seq<Hash64>, i: nat, x: Hash64)
    requires i < |hs|
    ensures XorAll(h, hs[i := x]) == XorAll(h, hs) <==> x == hs[i]
    decreases |hs|
  {
    hide Xor;
    var k := |hs| - 1;
    if i == k {
      assert hs[i := x][..k] == hs[..k];
      XorInjective(XorAll(h, hs[..k]), x, hs[k]);
    } else {
      assert hs[i := x][..k] == hs[..k][i := x];
      XorAllAt(h, hs[..k], i, x);
      XorInjective(hs[k], XorAll(h, hs[..k][i := x]), XorAll(h, hs[..k]));
    }
  }

  /** An array with one element replaced has the same hash exactly when the element has. */
  lemma ElementShows(m: Machine, es: seq<Value>, i: nat, v: Value)
    requires i < |es|
    ensures ValueHash(m, ArrayValue(es[i := v])) == ValueHash(m, ArrayValue(es)) <==> ValueHash(m, v) == ValueHash(m, es[i])
  {
    hide MixAll, ElementHashes, Mix;
    var a, b := ElementHashes(m, es), ElementHashes(m, es[i := v]);
    ElementHashAt(m, es, i);
    assert b == a[i := ValueHash(m, v)] by {
      forall j | 0 <= j < |es|
        ensures b[j] == a[i := ValueHash(m, v)][j]
      {
        ElementHashAt(m, es, j);
        ElementHashAt(m, es[i := v], j);
      }
    }
    MixAllAt(Mix(ZERO_HASH, ARRAY_TYPE), a, i, ValueHash(m, v));
  }

  /** An object with one member's value, or one member's name, replaced has the same hash exactly when
      the value, or the name, has. */
  lemma MemberShows(m: Machine, ms: seq<Member>, i: nat, v: Value, name: seq<Byte>)
    requires i < |ms|
    ensures ValueHash(m, ObjectValue(ms[i := ms[i].(value := v)])) == ValueHash(m, ObjectValue(ms))
            <==> ValueHash(m, v) == ValueHash(m, ms[i].value)
    ensures ValueHash(m, ObjectValue(ms[i := ms[i].(name := name)])) == ValueHash(m, ObjectValue(ms))
            <==> StringHash(name) == StringHash(ms[i].name)
  {
    hide XorAll, MemberHashes, Mix, StringHash, Pair;
    MemberReplaced(m, ms, i, ms[i].(value := v));
    MemberReplaced(m, ms, i, ms[i].(name := name));
    PairInjective(StringHash(ms[i].name), StringHash(name), ValueHash(m, ms[i].value), ValueHash(m, v));
  }

  lemma MemberReplaced(m: Machine, ms: seq<Member>, i: nat, x: Member)
    requires i < |ms|
    ensures ValueHash(m, ObjectValue(ms[i := x])) == ValueHash(m, ObjectValue(ms))
            <==> Pair(StringHash(x.name), ValueHash(m, x.value)) == Pair(StringHash(ms[i].name), ValueHash(m, ms[i].value))
  {
    hide XorAll, MemberHashes, Mix, StringHash, Pair;
    var a, b, h := MemberHashes(m, ms), MemberHashes(m, ms[i := x]), Pair(StringHash(x.name), ValueHash(m, x.value));
    MemberHashAt(m, ms, i);
    assert b == a[i := h] by {
      forall j | 0 <= j < |ms|
        ensures b[j] == a[i := h][j]
      {
        MemberHashAt(m, ms, j);
        MemberHashAt(m, ms[i := x], j);
      }
    }
    XorAllAt(Mix(ZERO_HASH, OBJECT_TYPE), a, i, h);
  }

  lemma PairInjective(k: Hash64, k1: Hash64, v: Hash64, v1: Hash64)
    ensures Pair(k, v1) == Pair(k, v) <==> v1 == v
    ensures Pair(k1, v) == Pair(k, v) <==> k1 == k
  {
    hide Mix;
    MixInjective(Mix(ZERO_HASH, k), v1, v);
    MixInjective(v, Mix(ZERO_HASH, k1), Mix(ZERO_HASH, k));
    MixInjective(ZERO_HASH, k1, k);
  }

  // ---- The hasher itself ----

  class Hasher {
    const machine: Machine
    var stack: seq<Hash64>

    constructor (machine: Machine)
      ensures this.machine == machine && stack == []
    {
      this.machine := machine;
      stack := [];
    }

    /** FNV-1a over a type tag and a buffer. */
    method WriteBuffer(kind: Hash64, data: seq<Byte>)
      modifies this
      ensures stack == old(stack) + [Digest(kind, data)]
    {
      hide Mix, OfByte;
      var h := Mix(OFFSET, kind);
      var i := 0;
      while i < |data|
        invariant i <= |data| && stack == old(stack) && h == MixBytes(Mix(OFFSET, kind), data[..i])
      {
        assert data[..i + 1][..i] == data[..i];
        h := Mix(h, OfByte(data[i]));
        i := i + 1;
      }
      assert data[..i] == data;
      stack := stack + [h];
    }

    method EndArray(n: nat)
      requires n <= |stack|
      modifies this
      ensures stack == CloseArray(old(stack), n)
    {
      hide Mix;
      var k := |stack| - n;
      var e := stack[k..];
      stack := stack[..k];
      var h := Mix(ZERO_HASH, ARRAY_TYPE);
      var i := 0;
      while i < n
        modifies {}
        invariant i <= n && h == MixAll(Mix(ZERO_HASH, ARRAY_TYPE), e[..i])
      {
        assert e[..i + 1][..i] == e[..i];
        h := Mix(h, e[i]);
        i := i + 1;
      }
      assert e[..i] == e;
      stack := stack + [h];
    }

    method EndObject(n: nat)
      requires 2 * n <= |stack|
      modifies this
      ensures stack == CloseObject(old(stack), n)
    {
      hide Mix, Xor, Pair, Pairs;
      var k := |stack| - 2 * n;
      var kv := stack[k..];
      stack := stack[..k];
      var h := Mix(ZERO_HASH, OBJECT_TYPE);
      ghost var all := Pairs(kv);
      var i := 0;
      while i < n
        modifies {}
        invariant i <= n && h == XorAll(Mix(ZERO_HASH, OBJECT_TYPE), all[..i])
      {
        PairAt(kv, i);
        assert all[..i + 1][..i] == all[..i];
        h := Xor(h, Pair(kv[2 * i], kv[2 * i + 1]));
        i := i + 1;
      }
      assert all[..i] == all;
      stack := stack + [h];
    }

    /** Every handler. */
    method Handle(e: Event)
      requires CanTake(stack, e)
      modifies this
      ensures stack == Take(machine, old(stack), e)
    {
      hide Digest, CloseArray, CloseObject, NumberBytes;
      match e {
        case Null => WriteBuffer(NULL_TYPE, []);
        case Bool(b) => WriteBuffer(if b then TRUE_TYPE else FALSE_TYPE, []);
        case Int(i) => WriteBuffer(NUMBER_TYPE, NumberBytes(SignedPattern(i), machine.ofInteger(i)));
        case Uint(u) => WriteBuffer(NUMBER_TYPE, NumberBytes(UnsignedPattern(u), machine.ofInteger(u)));
        case Int64(i) => WriteBuffer(NUMBER_TYPE, NumberBytes(SignedPattern(i), machine.ofInteger(i)));
        case Uint64(u) => WriteBuffer(NUMBER_TYPE, NumberBytes(UnsignedPattern(u), machine.ofInteger(u)));
        case Double(literal) =>
          var d := machine.ofLiteral(literal);
          WriteBuffer(NUMBER_TYPE, NumberBytes(DoublePattern(machine, d), d));
        case String(s) => WriteBuffer(STRING_TYPE, s);
        case Key(s) => WriteBuffer(STRING_TYPE, s);
        case StartObject =>
        case StartArray =>
        case EndObject(n) => EndObject(n);
        case EndArray(n) => EndArray(n);
      }
    }
  }
}
