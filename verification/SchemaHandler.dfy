/**
 `GenericSchemaValidator` as the object it is: event handlers that update the
 context stack and the verdict in place. Each handler is proved to compute
 `SchemaValidator.Feed`, so a whole run decides validity.
 */
module SchemaHandler {
  import opened Bytes
  import opened Json
  import opened Dom
  import opened Schema
  import opened SchemaValidator
  import SchemaEquivalence

  /** `Schema::EndValue`: loops over the parallel validators' verdicts, each group in its own range. */
  method Agree(s: Schema, subs: seq<Validator>) returns (ok: bool)
    requires |subs| == |SubSchemas(s)|
    ensures ok == SubsAgree(s, subs)
  {
    var a, b, c := |s.allOf|, |s.allOf| + |s.anyOf|, |s.allOf| + |s.anyOf| + |s.oneOf|;
    for i := 0 to a
      invariant AllValid(subs[..i])
    {
      if !subs[i].valid {
        assert !subs[..a][i].valid;
        return false;
      }
    }
    if s.anyOf != [] {
      var found := FirstValid(subs, a, b);
      if !found {
        return false;
      }
    }
    if s.oneOf != [] {
      var one := ExactlyOne(subs, b, c);
      if !one {
        return false;
      }
    }
    var found := FirstValid(subs, c, |subs|);
    assert subs[c..|subs|] == subs[c..];
    return !found;
  }

  method ExactlyOne(subs: seq<Validator>, lo: nat, hi: nat) returns (one: bool)
    requires lo <= hi <= |subs|
    ensures one == (CountValid(subs[lo..hi]) == 1)
  {
    one := false;
    for i := lo to hi
      invariant CountValid(subs[lo..i]) == if one then 1 else 0
    {
      CountAppend(subs[lo..i], subs[i]);
      assert subs[lo..i + 1] == subs[lo..i] + [subs[i]];
      if subs[i].valid {
        if one {
          CountPrefix(subs[lo..hi], i + 1 - lo);
          assert subs[lo..hi][..i + 1 - lo] == subs[lo..i + 1];
          return false;
        }
        one := true;
      }
    }
  }

  method FirstValid(subs: seq<Validator>, lo: nat, hi: nat) returns (found: bool)
    requires lo <= hi <= |subs|
    ensures found == AnyValid(subs[lo..hi])
  {
    for i := lo to hi
      invariant forall j :: lo <= j < i ==> !subs[j].valid
    {
      if subs[i].valid {
        assert subs[lo..hi][i - lo].valid;
        return true;
      }
    }
    return false;
  }

  lemma {:induction false} CountAppend(subs: seq<Validator>, v: Validator)
    ensures CountValid(subs + [v]) == CountValid(subs) + if v.valid then 1 else 0
  {
    if subs == [] {
      assert subs + [v] == [v];
    } else {
      assert (subs + [v])[1..] == subs[1..] + [v];
      CountAppend(subs[1..], v);
    }
  }

  lemma {:induction false} CountPrefix(subs: seq<Validator>, n: nat)
    requires n <= |subs|
    ensures CountValid(subs[..n]) <= CountValid(subs)
  {
    if n > 0 {
      assert subs[..n][1..] == subs[1..][..n - 1];
      CountPrefix(subs[1..], n - 1);
    }
  }

  class GenericSchemaValidator {
    const root: Schema
    var stack: seq<Context>
    var valid: bool

    /** The state as a value. */
    function Now(): Validator
      reads this
    {
      Validator(root, stack, valid)
    }

    constructor (root: Schema)
      ensures this.root == root && Now() == Fresh(root)
    {
      this.root := root;
      stack := [];
      valid := true;
    }

    /** A parallel validator, kept in its context as a value between events. */
    constructor Resume(v: Validator)
      ensures root == v.root && Now() == v
    {
      root := v.root;
      stack := v.stack;
      valid := v.valid;
    }

    /** Every handler: what it does to the context stack, to the parallel validators and to the verdict. */
    method Handle(e: Event) returns (ok: bool)
      requires Sound(Now())
      modifies this
      ensures Now() == Feed(old(Now()), e) && ok == valid
      decreases root, 4
    {
      if !valid {
        return false;
      }
      match e {
        case StartObject => BeginValue(e); ok := valid;
        case StartArray => BeginValue(e); ok := valid;
        case Key(name) => ok := HandleKey(name);
        case EndObject(members) => ok := Close(e);
        case EndArray(elements) => ok := Close(e);
        case _ =>
          BeginValue(e);
          if valid {
            EndValue();
          }
          ok := valid;
      }
    }

    /** BeginValue, the schema's own handler and the parallel validators, for the first event of a value. */
    method BeginValue(e: Event)
      requires Sound(Now()) && valid
      modifies this
      ensures Now() == Opened(old(Now()), e)
      decreases root, 3
    {
      hide Sound, ElementSchema, TypeAllowsEvent, NewContext, FeedContexts;
      BeginSound(Now(), e);
      var s := root;
      if stack != [] {
        var i := |stack| - 1;
        if stack[i].inArray {
          var next := ElementSchema(stack[i].schema, stack[i].index);
          if next.None? {
            valid := false;
            return;
          }
          s := next.value;
        } else {
          s := stack[i].valueSchema;
        }
      }
      if !TypeAllowsEvent(s.types, e) {
        valid := false;
        return;
      }
      stack := Bump(stack) + [NewContext(s, e)];
      Parallel(e);
    }

    method HandleKey(name: seq<Byte>) returns (ok: bool)
      requires Sound(Now()) && valid
      modifies this
      ensures Now() == Feed(old(Now()), Key(name)) && ok == valid
      decreases root, 3
    {
      hide Sound, MemberSchema, FindProperty, FeedContexts;
      if stack == [] {
        valid := false;
        return false;
      }
      OnKeySound(Now(), name);
      var i := |stack| - 1;
      var top := stack[i];
      var next := MemberSchema(top.schema, name);
      if next.None? {
        valid := false;
        return false;
      }
      var p := FindProperty(top.schema.properties, name);
      var marked := if p < |top.seen| then top.seen[p := true] else top.seen;
      stack := stack[i := top.(valueSchema := next.value, seen := marked)];
      Parallel(Key(name));
      ok := valid;
    }

    method Close(e: Event) returns (ok: bool)
      requires Sound(Now()) && valid && (e.EndObject? || e.EndArray?)
      modifies this
      ensures Now() == Closed(old(Now()), e) && ok == valid
      decreases root, 3
    {
      hide Sound, ObjectEnds, ArrayEnds, FeedContexts, End;
      if stack == [] {
        valid := false;
        return false;
      }
      Parallel(e);
      var top := stack[|stack| - 1];
      if (if e.EndObject? then ObjectEnds(top, e.members) else ArrayEnds(top, e.elements)) {
        EndValue();
      } else {
        valid := false;
      }
      ok := valid;
    }

    /** Hand the event to the parallel validators of every context on the stack. */
    method Parallel(e: Event)
      requires Sound(Now())
      modifies this
      ensures Now() == Forward(old(Now()), e)
      decreases root, 2
    {
      stack := FeedStack(stack, e, root);
    }

    static method FeedStack(contexts: seq<Context>, e: Event, ghost root: Schema) returns (r: seq<Context>)
      requires forall i :: 0 <= i < |contexts| ==> ContextSound(root, contexts[i])
      ensures r == FeedContexts(contexts, e, root)
      decreases root, 1
    {
      hide Feed, ContextSound, FeedSubs, FeedContexts, Sound;
      r := [];
      ghost var all := FeedContexts(contexts, e, root);
      var i := 0;
      while i < |contexts|
        invariant i <= |contexts|
        invariant r == all[..i]
      {
        FeedContextsAt(contexts, e, root, i);
        var subs := FeedEach(contexts[i].subs, e, root);
        r := r + [contexts[i].(subs := subs)];
        i := i + 1;
      }
    }

    static method FeedEach(subs: seq<Validator>, e: Event, ghost bound: Schema) returns (r: seq<Validator>)
      requires forall j :: 0 <= j < |subs| ==> subs[j].root < bound && Sound(subs[j])
      ensures r == FeedSubs(subs, e, bound)
      decreases bound, 0
    {
      hide Feed, Sound;
      r := [];
      var j := 0;
      while j < |subs|
        invariant j <= |subs|
        invariant r == FeedSubs(subs, e, bound)[..j]
      {
        var sub := new GenericSchemaValidator.Resume(subs[j]);
        var _ := sub.Handle(e);
        FeedSubsAt(subs, e, bound, j);
        r := r + [sub.Now()];
        j := j + 1;
      }
    }

    method EndValue()
      requires Sound(Now()) && stack != []
      modifies this
      ensures Now() == End(old(Now()))
    {
      var i := |stack| - 1;
      assert ContextSound(root, stack[i]);
      var ok := Agree(stack[i].schema, stack[i].subs);
      if ok {
        stack := stack[..i];
      } else {
        valid := false;
      }
    }

    method HandleAll(ev: seq<Event>)
      requires Sound(Now())
      modifies this
      ensures Now() == FeedAll(old(Now()), ev)
    {
      hide Feed;
      var i := 0;
      while i < |ev|
        invariant i <= |ev| && Sound(Now())
        invariant FeedAll(old(Now()), ev) == FeedAll(Now(), ev[i..])
      {
        var _ := Handle(ev[i]);
        i := i + 1;
      }
    }
  }

  lemma {:induction false} FeedSubsAt(subs: seq<Validator>, e: Event, bound: Schema, j: nat)
    requires forall k :: 0 <= k < |subs| ==> subs[k].root < bound && Sound(subs[k])
    requires j < |subs|
    ensures FeedSubs(subs, e, bound)[j] == Feed(subs[j], e)
  {
    hide Feed, Sound;
    if j > 0 {
      FeedSubsAt(subs[1..], e, bound, j - 1);
    }
  }

  lemma {:induction false} FeedContextsAt(stack: seq<Context>, e: Event, root: Schema, i: nat)
    requires forall k :: 0 <= k < |stack| ==> ContextSound(root, stack[k])
    requires i < |stack|
    ensures forall k :: 0 <= k < |stack[i].subs| ==> stack[i].subs[k].root < root && Sound(stack[i].subs[k])
    ensures FeedContexts(stack, e, root)[i] == stack[i].(subs := FeedSubs(stack[i].subs, e, root))
  {
    hide FeedSubs, ContextSound, Sound;
    SubsBelow(root, stack[i]);
    if i > 0 {
      FeedContextsAt(stack[1..], e, root, i - 1);
    }
  }

  /** Validating a document: the verdict is that of the recursive definition. */
  method Validate(s: Schema, x: Value) returns (ok: bool)
    requires WellFormed(s)
    ensures ok <==> IsValid(s, x)
  {
    hide IsValid, WellFormed, FeedAll;
    var validator := new GenericSchemaValidator(s);
    validator.HandleAll(Accept(x));
    SchemaEquivalence.StreamingDecidesValidity(s, x);
    ok := validator.valid;
  }
}
