/**
 `GenericSchemaValidator`: a handler that checks the events of a value against
 a schema as they arrive. It keeps a stack of contexts, one for each value that
 is open, and every context feeds its own parallel validators for allOf, anyOf,
 oneOf and not.
 */
module SchemaValidator {
  import opened Bytes
  import opened Json
  import opened Schema

  // ---- The schema of a part ----

  /** `FindPropertyIndex`: the row of a name, or the number of rows. */
  function FindProperty(ps: seq<Property>, name: seq<Byte>): (i: nat)
    ensures i <= |ps|
    ensures i < |ps| ==> ps[i].name == name
    ensures forall j :: 0 <= j < i ==> ps[j].name != name
  {
    if ps == [] || ps[0].name == name then 0 else 1 + FindProperty(ps[1..], name)
  }

  /** The schema of the member `name`, or None where it is not allowed. */
  function MemberSchema(s: Schema, name: seq<Byte>): Option<Schema> {
    var i := FindProperty(s.properties, name);
    if i < |s.properties| then Some(s.properties[i].schema)
    else if s.additionalProperties then Some(TYPELESS)
    else None
  }

  /** The schema of element `i`, or None where it is not allowed. */
  function ElementSchema(s: Schema, i: nat): Option<Schema> {
    match s.items
    case AnyItems => Some(TYPELESS)
    case ListItems(each) => Some(each)
    case TupleItems(first, additional) =>
      if i < |first| then Some(first[i]) else if additional then Some(TYPELESS) else None
  }

  predicate AtMost(n: nat, max: Option<nat>) {
    max.None? || n <= max.value
  }

  /** A validator: its root schema, the open values (innermost last) and the verdict so far. */
  datatype Validator = Validator(root: Schema, stack: seq<Context>, valid: bool)

  /** An open value: the schema it is checked against, the schema the last key selected, the
      position in an array, the required properties seen and the parallel validators. */
  datatype Context = Context(schema: Schema, valueSchema: Schema, inArray: bool, index: nat,
                             seen: seq<bool>, subs: seq<Validator>)

  // ---- Schemas below a schema ----

  /** The schemas checked in parallel, in the order of their validators. */
  function SubSchemas(s: Schema): seq<Schema> {
    s.allOf + s.anyOf + s.oneOf + s.notOf
  }

  /** `s` can be met while checking against `root`. */
  ghost predicate Below(root: Schema, s: Schema) {
    s == root || s < root || s == TYPELESS
  }

  lemma SubSchemaBelow(root: Schema, s: Schema, j: nat)
    requires Below(root, s) && j < |SubSchemas(s)|
    ensures SubSchemas(s)[j] < root
  {
    var sub := SubSchemas(s)[j];
    assert sub in s.allOf || sub in s.anyOf || sub in s.oneOf || sub in s.notOf;
  }

  lemma ChildBelow(root: Schema, s: Schema, child: Schema)
    requires Below(root, s)
    requires (exists i: nat :: ElementSchema(s, i) == Some(child)) || (exists name :: MemberSchema(s, name) == Some(child))
    ensures Below(root, child)
  {
    if i: nat :| ElementSchema(s, i) == Some(child) {
      assert s.items < s;
      if s.items.TupleItems? && i < |s.items.first| {
        assert s.items.first[i] < s.items;
      }
    } else {
      var name :| MemberSchema(s, name) == Some(child);
      var i := FindProperty(s.properties, name);
      if i < |s.properties| {
        assert s.properties[i] < s;
      }
    }
  }

  /** What every validator keeps: its contexts are below its root, and a context's parallel
      validators are those of its schema. */
  ghost predicate Sound(v: Validator)
    decreases v
  {
    forall i :: 0 <= i < |v.stack| ==> ContextSound(v.root, v.stack[i])
  }

  ghost predicate ContextSound(root: Schema, c: Context)
    decreases c
  {
    && Below(root, c.schema) && Below(root, c.valueSchema)
    && |c.subs| == |SubSchemas(c.schema)|
    && (forall j :: 0 <= j < |c.subs| ==> c.subs[j].root == SubSchemas(c.schema)[j])
    && (forall j :: 0 <= j < |c.subs| ==> Sound(c.subs[j]))
  }

  // ---- Feeding ----

  function Fresh(s: Schema): Validator {
    Validator(s, [], true)
  }

  function FreshSubs(ss: seq<Schema>): (subs: seq<Validator>)
    ensures |subs| == |ss|
    ensures forall j :: 0 <= j < |ss| ==> subs[j] == Fresh(ss[j])
  {
    if ss == [] then [] else [Fresh(ss[0])] + FreshSubs(ss[1..])
  }

  function Invalid(v: Validator): Validator {
    v.(valid := false)
  }

  /** The schema the next value is checked against, or None where it is not allowed. */
  function NextSchema(stack: seq<Context>, root: Schema): Option<Schema> {
    if stack == [] then Some(root)
    else
      var top := stack[|stack| - 1];
      if top.inArray then ElementSchema(top.schema, top.index) else Some(top.valueSchema)
  }

  /** One more element in the innermost array. */
  function Bump(stack: seq<Context>): seq<Context> {
    if stack == [] || !stack[|stack| - 1].inArray then stack
    else
      var i := |stack| - 1;
      stack[i := stack[i].(index := stack[i].index + 1)]
  }

  predicate HasRequired(s: Schema) {
    exists i :: 0 <= i < |s.properties| && s.properties[i].required
  }

  predicate TypeAllowsEvent(t: Types, e: Event) {
    match e
    case Null => t.isNull
    case Bool(_) => t.isBoolean
    case Int(_) => t.isInteger || t.isNumber
    case Uint(_) => t.isInteger || t.isNumber
    case Int64(_) => t.isInteger || t.isNumber
    case Uint64(_) => t.isInteger || t.isNumber
    case Double(_) => t.isNumber
    case String(_) => t.isString
    case StartObject => t.isObject
    case StartArray => t.isArray
    case _ => false
  }

  /** The context for a value that begins with `e`: the schema's handler has created the
      parallel validators. */
  function NewContext(s: Schema, e: Event): Context {
    Context(s, TYPELESS, e.StartArray?, 0,
            if e.StartObject? && HasRequired(s) then seq(|s.properties|, _ => false) else [],
            FreshSubs(SubSchemas(s)))
  }

  /** BeginValue and the schema's handler for the first event of a value. */
  function Begin(v: Validator, e: Event): Validator {
    match NextSchema(v.stack, v.root)
    case None => Invalid(v)
    case Some(s) =>
      if !TypeAllowsEvent(s.types, e) then Invalid(v)
      else v.(stack := Bump(v.stack) + [NewContext(s, e)])
  }

  predicate AnyValid(subs: seq<Validator>) {
    exists i :: 0 <= i < |subs| && subs[i].valid
  }

  predicate AllValid(subs: seq<Validator>) {
    forall i :: 0 <= i < |subs| ==> subs[i].valid
  }

  /** How many validators are valid. */
  function CountValid(subs: seq<Validator>): nat {
    if subs == [] then 0 else (if subs[0].valid then 1 else 0) + CountValid(subs[1..])
  }

  /** `Schema::EndValue`: the verdict of the parallel validators. */
  predicate SubsAgree(s: Schema, subs: seq<Validator>)
    requires |subs| == |SubSchemas(s)|
  {
    var a, b, c := |s.allOf|, |s.allOf| + |s.anyOf|, |s.allOf| + |s.anyOf| + |s.oneOf|;
    && AllValid(subs[..a])
    && (s.anyOf != [] ==> AnyValid(subs[a..b]))
    && (s.oneOf != [] ==> CountValid(subs[b..c]) == 1)
    && !AnyValid(subs[c..])
  }

  /** EndValue: check the parallel validators and close the context. */
  function End(v: Validator): Validator
    requires Sound(v) && v.stack != []
  {
    var i := |v.stack| - 1;
    assert ContextSound(v.root, v.stack[i]);
    if SubsAgree(v.stack[i].schema, v.stack[i].subs) then v.(stack := v.stack[..i]) else Invalid(v)
  }

  /** `Schema::Key` in the innermost context. */
  function OnKey(v: Validator, name: seq<Byte>): Validator
    requires v.stack != []
  {
    var i := |v.stack| - 1;
    var top := v.stack[i];
    match MemberSchema(top.schema, name)
    case None => Invalid(v)
    case Some(s) =>
      var p := FindProperty(top.schema.properties, name);
      var marked := if p < |top.seen| then top.seen[p := true] else top.seen;
      v.(stack := v.stack[i := top.(valueSchema := s, seen := marked)])
  }

  /** `Schema::EndObject` in the innermost context. */
  predicate ObjectEnds(c: Context, members: nat) {
    && (HasRequired(c.schema) ==>
          forall i :: 0 <= i < |c.schema.properties| && c.schema.properties[i].required ==>
                        i < |c.seen| && c.seen[i])
    && c.schema.minProperties <= members && AtMost(members, c.schema.maxProperties)
  }

  predicate ArrayEnds(c: Context, elements: nat) {
    c.schema.minItems <= elements && AtMost(elements, c.schema.maxItems)
  }

  lemma NewContextSound(root: Schema, s: Schema, e: Event)
    requires Below(root, s)
    ensures ContextSound(root, NewContext(s, e))
  {
  }

  lemma BeginSound(v: Validator, e: Event)
    requires Sound(v)
    ensures Sound(Begin(v, e)) && Begin(v, e).root == v.root
  {
    hide NewContext, SubSchemas, ElementSchema, TypeAllowsEvent;
    if NextSchema(v.stack, v.root).Some? {
      var s := NextSchema(v.stack, v.root).value;
      if v.stack != [] {
        var top := v.stack[|v.stack| - 1];
        assert ContextSound(v.root, top);
        if top.inArray {
          ChildBelow(v.root, top.schema, s);
        }
      }
      NewContextSound(v.root, s, e);
      BumpSound(v);
    }
  }

  lemma BumpSound(v: Validator)
    requires Sound(v)
    ensures Sound(v.(stack := Bump(v.stack)))
  {
    hide SubSchemas;
    if v.stack != [] {
      var i := |v.stack| - 1;
      assert ContextSound(v.root, v.stack[i]);
      assert ContextSound(v.root, v.stack[i].(index := v.stack[i].index + 1));
    }
  }

  lemma OnKeySound(v: Validator, name: seq<Byte>)
    requires Sound(v) && v.stack != []
    ensures Sound(OnKey(v, name)) && OnKey(v, name).root == v.root && |OnKey(v, name).stack| == |v.stack|
  {
    hide SubSchemas;
    var top := v.stack[|v.stack| - 1];
    if MemberSchema(top.schema, name).Some? {
      ChildBelow(v.root, top.schema, MemberSchema(top.schema, name).value);
    }
  }

  /** Feed an event to parallel validators, whose roots are all smaller than `bound`. */
  function FeedSubs(subs: seq<Validator>, e: Event, ghost bound: Schema): (r: seq<Validator>)
    requires forall j :: 0 <= j < |subs| ==> subs[j].root < bound && Sound(subs[j])
    ensures |r| == |subs|
    ensures forall j :: 0 <= j < |subs| ==> r[j].root == subs[j].root && Sound(r[j])
    decreases bound, 0, |subs|
  {
    if subs == [] then [] else [Feed(subs[0], e)] + FeedSubs(subs[1..], e, bound)
  }

  /** Feed an event to the parallel validators of every open context. */
  function FeedContexts(stack: seq<Context>, e: Event, ghost root: Schema): (r: seq<Context>)
    requires forall i :: 0 <= i < |stack| ==> ContextSound(root, stack[i])
    ensures |r| == |stack|
    ensures forall i :: 0 <= i < |stack| ==> ContextSound(root, r[i]) && r[i] == stack[i].(subs := r[i].subs)
    decreases root, 1, |stack|
  {
    if stack == [] then []
    else
      var c := stack[0];
      SubsBelow(root, c);
      [c.(subs := FeedSubs(c.subs, e, root))] + FeedContexts(stack[1..], e, root)
  }

  lemma SubsBelow(root: Schema, c: Context)
    requires ContextSound(root, c)
    ensures forall j :: 0 <= j < |c.subs| ==> c.subs[j].root < root && Sound(c.subs[j])
  {
    hide SubSchemas;
    forall j | 0 <= j < |c.subs|
      ensures c.subs[j].root < root
    {
      SubSchemaBelow(root, c.schema, j);
    }
  }

  /** HANDLE_PARALLEL. */
  function Forward(v: Validator, e: Event): (r: Validator)
    requires Sound(v)
    ensures Sound(r) && r.root == v.root && |r.stack| == |v.stack| && r.valid == v.valid
    decreases v.root, 2
  {
    v.(stack := FeedContexts(v.stack, e, v.root))
  }

  /** One event. An invalid validator ignores it. */
  function Feed(v: Validator, e: Event): (r: Validator)
    requires Sound(v)
    ensures Sound(r) && r.root == v.root
    decreases v.root, 4
  {
    if !v.valid then v
    else
      match e
      case StartObject => Opened(v, e)
      case StartArray => Opened(v, e)
      case Key(name) =>
        if v.stack == [] then Invalid(v)
        else
          OnKeySound(v, name);
          var v1 := OnKey(v, name);
          if v1.valid then Forward(v1, e) else v1
      case EndObject(n) => Closed(v, e)
      case EndArray(n) => Closed(v, e)
      case _ =>
        var v1 := Opened(v, e);
        if v1.valid then End(v1) else v1
  }

  /** The first event of a value. */
  function Opened(v: Validator, e: Event): (r: Validator)
    requires Sound(v) && v.valid
    ensures Sound(r) && r.root == v.root
    ensures r.valid ==> r.stack != []
    decreases v.root, 3
  {
    BeginSound(v, e);
    var v1 := Begin(v, e);
    if v1.valid then Forward(v1, e) else v1
  }

  /** The end of a container. */
  function Closed(v: Validator, e: Event): (r: Validator)
    requires Sound(v) && v.valid && (e.EndObject? || e.EndArray?)
    ensures Sound(r) && r.root == v.root
    decreases v.root, 3
  {
    if v.stack == [] then Invalid(v)
    else
      var v1 := Forward(v, e);
      var top := v1.stack[|v1.stack| - 1];
      if (if e.EndObject? then ObjectEnds(top, e.members) else ArrayEnds(top, e.elements)) then End(v1)
      else Invalid(v1)
  }

  function FeedAll(v: Validator, ev: seq<Event>): (r: Validator)
    requires Sound(v)
    ensures Sound(r) && r.root == v.root
    decreases |ev|
  {
    if ev == [] then v else FeedAll(Feed(v, ev[0]), ev[1..])
  }
}
