/**
 Resolving a JSON Pointer in a document: `Get`, `Create` and `Set`. The document is
 a value; what the C++ code does through a reference into it is done here by
 rebuilding the path.
 */
module PointerResolve {
  import opened Bytes
  import opened Dom
  import MemberIndex
  import Pointer

  type Name = seq<Byte>

  const DASH: Name := [MINUS]

  /** The value a valid pointer refers to, if there is one. */
  function Get(root: Value, names: seq<Name>): Option<Value>
    decreases |names|
  {
    if names == [] then Some(root)
    else
      match root
      case ObjectValue(ms) =>
        var i := MemberIndex.Scan(ms, names[0]);
        if i == |ms| then None else Get(ms[i].value, names[1..])
      case ArrayValue(es) =>
        var i := Pointer.IndexOf(names[0]);
        if i == Pointer.INVALID_INDEX || i >= |es| then None else Get(es[i], names[1..])
      case _ => None
  }

  /** What a token makes of a value: an object for a name, an array for an index where the value is
      neither an array nor an object. */
  function Prepared(v: Value, name: Name): (r: Value)
    ensures r.ArrayValue? || r.ObjectValue?
  {
    if v.ArrayValue? && name == DASH then v
    else if Pointer.IndexOf(name) == Pointer.INVALID_INDEX then (if v.ObjectValue? then v else ObjectValue([]))
    else if v.ArrayValue? || v.ObjectValue? then v
    else ArrayValue([])
  }

  /** An array with null values appended until it has `n` elements. */
  function Padded(es: seq<Value>, n: nat): (r: seq<Value>)
    ensures |r| == if |es| < n then n else |es|
    ensures forall i :: 0 <= i < |r| ==> r[i] == if i < |es| then es[i] else NullValue
  {
    if |es| < n then es + seq(n - |es|, _ => NullValue) else es
  }

  /** The position of the token in an array, which '-' puts behind the last element. */
  function Slot(es: seq<Value>, name: Name): nat {
    if name == DASH then |es| else Pointer.IndexOf(name)
  }

  /** The document after `Create`, and after assigning `new1` to the created value if there is one,
      and whether everything existed. */
  function Update(root: Value, names: seq<Name>, new1: Option<Value>): (Value, bool)
    decreases |names|
  {
    if names == [] then (if new1.Some? then new1.value else root, true)
    else
      match Prepared(root, names[0])
      case ArrayValue(es) =>
        var k := Slot(es, names[0]);
        var all := Padded(es, k + 1);
        var (child, exists1) := Update(all[k], names[1..], new1);
        (ArrayValue(all[k := child]), exists1 && k < |es|)
      case ObjectValue(ms) =>
        var i := MemberIndex.Scan(ms, names[0]);
        var all := if i == |ms| then ms + [Member(names[0], NullValue)] else ms;
        var (child, exists1) := Update(all[i].value, names[1..], new1);
        (ObjectValue(all[i := all[i].(value := child)]), exists1 && i < |ms|)
      case _ => (root, false)
  }

  function Create(root: Value, names: seq<Name>): (Value, bool) {
    Update(root, names, None)
  }

  function Set(root: Value, names: seq<Name>, v: Value): Value {
    Update(root, names, Some(v)).0
  }

  // ---- Create and Get ----

  lemma PaddedEnough(es: seq<Value>, k: nat)
    requires k < |es|
    ensures Padded(es, k + 1) == es && es[k := es[k]] == es
  {
  }

  lemma DashIsNoIndex()
    ensures Pointer.IndexOf(DASH) == Pointer.INVALID_INDEX
  {
    assert !IsDigit(DASH[0]);
  }

  /** `Create` reports "already exists" exactly when `Get` resolved before, and then the document is
      unchanged, or changed only where the new value was assigned. */
  lemma {:induction false} CreateFindsExisting(root: Value, names: seq<Name>, new1: Option<Value>)
    ensures Update(root, names, new1).1 <==> Get(root, names).Some?
    ensures Get(root, names).Some? && new1.None? ==> Update(root, names, new1).0 == root
    decreases |names|
  {
    hide Pointer.IndexOf, Padded, MemberIndex.Scan;
    DashIsNoIndex();
    if names != [] {
      match Prepared(root, names[0])
      case ArrayValue(es) =>
        var k := Slot(es, names[0]);
        CreateFindsExisting(Padded(es, k + 1)[k], names[1..], new1);
        if k < |es| {
          PaddedEnough(es, k);
        }
      case ObjectValue(ms) =>
        var i := MemberIndex.Scan(ms, names[0]);
        if i < |ms| {
          CreateFindsExisting(ms[i].value, names[1..], new1);
          assert ms[i := ms[i].(value := ms[i].value)] == ms;
        }
    }
  }

  /** A '-' token meets an array on the way to the value. */
  predicate DashMeetsArray(root: Value, names: seq<Name>)
    decreases |names|
  {
    names != [] &&
    match Prepared(root, names[0])
    case ArrayValue(es) =>
      var k := Slot(es, names[0]);
      names[0] == DASH || DashMeetsArray(Padded(es, k + 1)[k], names[1..])
    case ObjectValue(ms) =>
      var i := MemberIndex.Scan(ms, names[0]);
      DashMeetsArray(if i == |ms| then NullValue else ms[i].value, names[1..])
    case _ => false
  }

  lemma FindAfterSet(ms: seq<Member>, name: Name, v: Value)
    ensures var i := MemberIndex.Scan(ms, name);
            var all := if i == |ms| then ms + [Member(name, NullValue)] else ms;
            var set1 := all[i := all[i].(value := v)];
            MemberIndex.Scan(set1, name) == i && i < |set1| && set1[i] == Member(name, v)
  {
    var i := MemberIndex.Scan(ms, name);
    var all := if i == |ms| then ms + [Member(name, NullValue)] else ms;
    var set1 := all[i := all[i].(value := v)];
    assert forall j :: 0 <= j < i ==> set1[j].name == ms[j].name;
    assert set1[i].name == name;
  }

  lemma GetInArray(root: Value, names: seq<Name>, child: Value)
    requires names != [] && Prepared(root, names[0]).ArrayValue?
    ensures var es := Prepared(root, names[0]).elements;
            var k := Slot(es, names[0]);
            Get(ArrayValue(Padded(es, k + 1)[k := child]), names) == if names[0] == DASH then None else Get(child, names[1..])
  {
    hide Pointer.IndexOf;
    DashIsNoIndex();
  }

  lemma GetInObject(ms: seq<Member>, names: seq<Name>, child: Value)
    requires names != []
    ensures var i := MemberIndex.Scan(ms, names[0]);
            var all := if i == |ms| then ms + [Member(names[0], NullValue)] else ms;
            Get(ObjectValue(all[i := all[i].(value := child)]), names) == Get(child, names[1..])
  {
    FindAfterSet(ms, names[0], child);
  }

  /** One step of `Set` and of the '-' test, into an array. */
  lemma StepIntoArray(root: Value, names: seq<Name>, v: Value)
    requires names != [] && Prepared(root, names[0]).ArrayValue?
    ensures var es := Prepared(root, names[0]).elements;
            var k := Slot(es, names[0]);
            var child := Padded(es, k + 1)[k];
            && Set(root, names, v) == ArrayValue(Padded(es, k + 1)[k := Set(child, names[1..], v)])
            && (DashMeetsArray(root, names) <==> names[0] == DASH || DashMeetsArray(child, names[1..]))
  {
    hide Prepared, MemberIndex.Scan, Slot;
  }

  lemma StepIntoObject(root: Value, names: seq<Name>, v: Value)
    requires names != [] && Prepared(root, names[0]).ObjectValue?
    ensures var ms := Prepared(root, names[0]).members;
            var i := MemberIndex.Scan(ms, names[0]);
            var all := if i == |ms| then ms + [Member(names[0], NullValue)] else ms;
            && Set(root, names, v) == ObjectValue(all[i := all[i].(value := Set(all[i].value, names[1..], v))])
            && (DashMeetsArray(root, names) <==> DashMeetsArray(all[i].value, names[1..]))
  {
    hide Prepared, MemberIndex.Scan, Slot;
  }

  /** After `Set`, `Get` with the same pointer returns the value that was set, exactly when no '-'
      token met an array; otherwise it returns nothing. */
  lemma {:induction false} GetAfterSet(root: Value, names: seq<Name>, v: Value)
    ensures Get(Set(root, names, v), names) == if DashMeetsArray(root, names) then None else Some(v)
    decreases |names|
  {
    hide Pointer.IndexOf, Get, Prepared, MemberIndex.Scan, Padded, Slot, Set, DashMeetsArray;
    if names == [] {
      GetHere(root, v);
    } else {
      match Prepared(root, names[0])
      case ArrayValue(es) =>
        var k := Slot(es, names[0]);
        var child := Padded(es, k + 1)[k];
        StepIntoArray(root, names, v);
        GetAfterSet(child, names[1..], v);
        GetInArray(root, names, Set(child, names[1..], v));
      case ObjectValue(ms) =>
        var i := MemberIndex.Scan(ms, names[0]);
        var child := if i == |ms| then NullValue else ms[i].value;
        StepIntoObject(root, names, v);
        GetAfterSet(child, names[1..], v);
        GetInObject(ms, names, Set(child, names[1..], v));
    }
  }

  lemma GetHere(root: Value, v: Value)
    ensures Get(Set(root, [], v), []) == Some(v) && !DashMeetsArray(root, [])
  {
  }

  /** After `Set`, `Create` finds the value and changes nothing. */
  lemma SetThenCreate(root: Value, names: seq<Name>, v: Value)
    requires !DashMeetsArray(root, names)
    ensures Create(Set(root, names, v), names) == (Set(root, names, v), true)
  {
    hide Update, Get;
    GetAfterSet(root, names, v);
    CreateFindsExisting(Set(root, names, v), names, None);
  }

  lemma DashDoesNotResolve()
    ensures var root := ArrayValue([]);
            Get(Set(root, [DASH], BoolValue(true)), [DASH]) == None
  {
    GetAfterSet(ArrayValue([]), [DASH], BoolValue(true));
  }

  // ---- Section 4 of RFC 6901 ----

  /** The token is the number `n` in decimal digits, without leading zeros. */
  predicate Writes(name: Name, n: nat) {
    Pointer.IsIndexText(name) && Pointer.Number(name, |name|) == n
  }

  /** `v` is the value that the reference tokens lead to: the member of the token's name, or the element
      whose index the token writes. */
  ghost predicate Refers(root: Value, names: seq<Name>, v: Value)
    decreases |names|
  {
    if names == [] then v == root
    else
      match root
      case ObjectValue(ms) =>
        exists i :: 0 <= i < |ms| && ms[i].name == names[0] && (forall j :: 0 <= j < i ==> ms[j].name != names[0])
                    && Refers(ms[i].value, names[1..], v)
      case ArrayValue(es) => exists n :: 0 <= n < |es| && Writes(names[0], n) && Refers(es[n], names[1..], v)
      case _ => false
  }

  /** No token writes a number from 2^32 - 1 on. */
  ghost predicate SmallIndices(names: seq<Name>) {
    forall i, n: nat :: 0 <= i < |names| && Writes(names[i], n) ==> n < 0xFFFF_FFFF
  }

  lemma IndexSelects(name: Name)
    requires forall n: nat :: Writes(name, n) ==> n < 0xFFFF_FFFF
    ensures forall n: nat :: Writes(name, n) <==> Pointer.IndexOf(name) == n && n != Pointer.INVALID_INDEX
  {
    hide Pointer.Accumulate, Pointer.Number, Pointer.DropsFrom;
    if Pointer.IsIndexText(name) {
      assert Writes(name, Pointer.Number(name, |name|));
      Pointer.IndexIsExact(name);
    }
  }

  /** `Get` finds exactly the value that the tokens lead to. */
  lemma {:induction false} GetFollowsTokens(root: Value, names: seq<Name>, v: Value)
    requires SmallIndices(names)
    ensures Get(root, names) == Some(v) <==> Refers(root, names, v)
    decreases |names|
  {
    hide Pointer.IndexOf, Writes;
    if names != [] {
      var rest := names[1..];
      assert forall i :: 0 <= i < |rest| ==> rest[i] == names[i + 1];
      IndexSelects(names[0]);
      match root
      case ObjectValue(ms) =>
        var i := MemberIndex.Scan(ms, names[0]);
        if i < |ms| {
          GetFollowsTokens(ms[i].value, rest, v);
        }
      case ArrayValue(es) =>
        var k := Pointer.IndexOf(names[0]);
        if k < |es| && k != Pointer.INVALID_INDEX {
          assert Writes(names[0], k);
          GetFollowsTokens(es[k], rest, v);
        }
      case _ =>
    }
  }

  /** A token beyond that can lead to an element it does not write: 9999999999 to element 1410065407. */
  lemma LargeIndexMisleads(es: seq<Value>)
    requires 1410065407 < |es| <= 9999999999
    ensures var name := seq<Byte>(10, _ => NINE);
            Get(ArrayValue(es), [name]) == Some(es[1410065407]) && forall v :: !Refers(ArrayValue(es), [name], v)
  {
    hide Pointer.IndexOf, Pointer.Number, Pointer.IsIndexText;
    var name := seq<Byte>(10, _ => NINE);
    Pointer.OverflowMissed();
    var names: seq<Name> := [name];
    assert names[1..] == [];
  }

  // ---- What a change leaves alone ----

  /** On the way to its value, the pointer `a` turns no container into another, and where `b` leaves it
      `b` goes to another place that is there already. */
  predicate Apart(root: Value, a: seq<Name>, b: seq<Name>)
    decreases |a|
  {
    && a != [] && b != [] && Prepared(root, a[0]) == root
    && match root
       case ObjectValue(ms) =>
         var i := MemberIndex.Scan(ms, a[0]);
         a[0] != b[0] || (i < |ms| && Apart(ms[i].value, a[1..], b[1..]))
       case ArrayValue(es) =>
         var k, j := Slot(es, a[0]), Pointer.IndexOf(b[0]);
         j == Pointer.INVALID_INDEX || (j < |es| && (j != k || Apart(es[k], a[1..], b[1..])))
       case _ => false
  }

  lemma OtherMember(ms: seq<Member>, name: Name, v: Value, other: Name)
    requires other != name
    ensures var i, j := MemberIndex.Scan(ms, name), MemberIndex.Scan(ms, other);
            var all := if i == |ms| then ms + [Member(name, NullValue)] else ms;
            var set1 := all[i := all[i].(value := v)];
            var k := MemberIndex.Scan(set1, other);
            if j == |ms| then k == |set1| else k == j && set1[k] == ms[j]
  {
    var i, j := MemberIndex.Scan(ms, name), MemberIndex.Scan(ms, other);
    var all := if i == |ms| then ms + [Member(name, NullValue)] else ms;
    var set1 := all[i := all[i].(value := v)];
    assert forall x :: 0 <= x < |set1| ==> set1[x].name == if x < |ms| then ms[x].name else name;
    var k := MemberIndex.Scan(set1, other);
    if j < |ms| {
      assert set1[j].name == other;
    }
  }

  /** `Set` leaves the value at such a pointer as it is. */
  lemma {:induction false} SetLeavesOthers(root: Value, a: seq<Name>, b: seq<Name>, v: Value)
    requires Apart(root, a, b)
    ensures Get(Set(root, a, v), b) == Get(root, b)
    decreases |a|
  {
    hide Pointer.IndexOf, Prepared, MemberIndex.Scan, Padded, Slot, Set;
    match root
    case ArrayValue(es) =>
      var k := Slot(es, a[0]);
      StepIntoArray(root, a, v);
      var j := Pointer.IndexOf(b[0]);
      if j != Pointer.INVALID_INDEX && j == k {
        PaddedEnough(es, k);
        SetLeavesOthers(es[k], a[1..], b[1..], v);
      }
    case ObjectValue(ms) =>
      var i := MemberIndex.Scan(ms, a[0]);
      StepIntoObject(root, a, v);
      if a[0] == b[0] {
        SetLeavesOthers(ms[i].value, a[1..], b[1..], v);
        FindAfterSet(ms, a[0], Set(ms[i].value, a[1..], v));
      } else {
        var child := if i == |ms| then NullValue else ms[i].value;
        OtherMember(ms, a[0], Set(child, a[1..], v), b[0]);
      }
  }

  /** A name in place of an index takes the elements away. */
  lemma SetCanReplace()
    ensures var root, zero, x := ArrayValue([NullValue]), [ZERO], [0x78];
            Get(root, [zero]) == Some(NullValue) && Get(Set(root, [x], NullValue), [zero]) == None
  {
    var root, zero, x := ArrayValue([NullValue]), [ZERO], [0x78];
    assert Pointer.IndexOf(zero) == 0 by {
      assert Pointer.Number(zero, 1) == 0;
      Pointer.IndexIsExact(zero);
    }
    assert !IsDigit(x[0]) && x[0] != zero[0];
    var names: seq<Name> := [x];
    assert names[1..] == [];
    assert Prepared(root, x) == ObjectValue([]);
    StepIntoObject(root, names, NullValue);
    var ms := Set(root, names, NullValue).members;
    assert ms == [Member(x, NullValue)];
    assert MemberIndex.Scan(ms, zero) == 1 by { assert ms[1..] == []; }
  }
}
