/**
 Whole runs of a pool: its blocks stay valid and every added chunk is freed exactly
 once. Then shared ownership: allocator objects that are copied, moved, assigned and
 destroyed, with one reference count per pool.
 */
module PoolRuns {
  import opened Bytes
  import opened MemoryPool

  // ---- Accounting for chunks ----

  function Serials(cs: seq<Chunk>): (r: seq<nat>)
    ensures |r| == |cs| && forall i :: 0 <= i < |cs| ==> r[i] == cs[i].serial
  {
    seq(|cs|, i requires 0 <= i < |cs| => cs[i].serial)
  }

  /** The chunks that the pool added itself, newest first. */
  function AddedChunks(p: Pool): seq<Chunk>
    requires p.chunks != []
  {
    p.chunks[..|p.chunks| - 1]
  }

  ghost function UpTo(n: nat): multiset<nat> {
    if n == 0 then multiset{} else UpTo(n - 1) + multiset{n - 1}
  }

  /** Every chunk ever added is in the list or has been freed, once. */
  ghost predicate Accounted(p: Pool) {
    p.chunks != [] && multiset(Serials(AddedChunks(p))) + multiset(p.freed) == UpTo(p.added)
  }

  lemma AddChunkAccounted(p: Pool, addr: nat, capacity: nat)
    requires Accounted(p)
    ensures Accounted(AddChunk(p, addr, capacity))
  {
    var p1 := AddChunk(p, addr, capacity);
    assert Serials(AddedChunks(p1)) == [p.added] + Serials(AddedChunks(p));
  }

  lemma GrowAccounted(p: Pool, n: nat)
    requires Accounted(p)
    ensures Accounted(Grow(p, n))
  {
    assert Serials(AddedChunks(Grow(p, n))) == Serials(AddedChunks(p));
  }

  lemma MallocAccounted(p: Pool, size: nat, base: Option<nat>)
    requires Accounted(p)
    ensures Accounted(Malloc(p, size, base).0)
  {
    hide Accounted, Align;
    AccountedNonEmpty(p);
    var n := Align(size);
    GrowAccounted(p, n);
    if base.Some? {
      AddChunkAccounted(p, base.value, NewCapacity(p, n));
      GrowAccounted(AddChunk(p, base.value, NewCapacity(p, n)), n);
    }
  }

  lemma AccountedNonEmpty(p: Pool)
    requires Accounted(p)
    ensures p.chunks != []
  {
  }

  lemma ReallocAccounted(p: Pool, m: Memory, ptr: nat, originalSize: nat, newSize: nat, base: Option<nat>)
    requires Accounted(p)
    ensures Accounted(Realloc(p, m, ptr, originalSize, newSize, base).0)
  {
    hide Accounted, Align, Malloc, GrowsInPlace;
    AccountedNonEmpty(p);
    var original, n := Align(originalSize), Align(newSize);
    MallocAccounted(p, newSize, base);
    MallocAccounted(p, n, base);
    if original < n {
      GrowAccounted(p, n - original);
    }
  }

  /** `Clear` frees every added chunk that is left, each once, and leaves the first chunk empty. */
  lemma {:induction false} ClearFreesAll(p: Pool)
    requires Accounted(p)
    ensures var r := Clear(p);
            && r.chunks == [p.chunks[|p.chunks| - 1].(size := 0)]
            && r.added == p.added && r.chunkCapacity == p.chunkCapacity
            && multiset(r.freed) == UpTo(r.added) && Accounted(r)
    decreases |p.chunks|
  {
    if |p.chunks| == 1 {
      assert Serials(AddedChunks(p)) == [];
      assert Serials(AddedChunks(Clear(p))) == [];
    } else {
      var p1 := p.(chunks := p.chunks[1..], freed := p.freed + [p.chunks[0].serial]);
      assert Serials(AddedChunks(p)) == [p.chunks[0].serial] + Serials(AddedChunks(p1));
      ClearFreesAll(p1);
    }
  }

  lemma ClearValid(p: Pool, live: Blocks)
    requires Valid(p, live) && Accounted(p)
    ensures Valid(Clear(p), map[])
  {
    ClearFreesAll(p);
  }

  // ---- Runs of one pool ----

  datatype Op =
    | DoMalloc(size: nat, base: Option<nat>)
    | DoRealloc(ptr: nat, originalSize: nat, newSize: nat, base: Option<nat>)
    | DoClear

  datatype State = State(pool: Pool, memory: Memory, live: Blocks)

  /** The caller reallocates only blocks it was handed, and the base allocator keeps its promise. */
  ghost predicate CanDo(st: State, op: Op) {
    match op
    case DoMalloc(size, base) => base.Some? ==> IsFresh(st.pool, base.value, NewCapacity(st.pool, Align(size)))
    case DoRealloc(ptr, originalSize, newSize, base) =>
      && (ptr == 0 || (ptr in st.live && Align(originalSize) <= st.live[ptr]))
      && (base.Some? ==> IsFresh(st.pool, base.value, NewCapacity(st.pool, Align(newSize))))
    case DoClear => true
  }

  ghost function Do(st: State, op: Op): State
    requires st.pool.chunks != []
  {
    match op
    case DoMalloc(size, base) =>
      var (p, ptr) := Malloc(st.pool, size, base);
      State(p, st.memory, if ptr == 0 then st.live else st.live[ptr := Align(size)])
    case DoRealloc(ptr, originalSize, newSize, base) =>
      var (p, m, new1) := Realloc(st.pool, st.memory, ptr, originalSize, newSize, base);
      State(p, m, Reallocated(st.pool, st.live, ptr, originalSize, newSize, new1))
    case DoClear => State(Clear(st.pool), st.memory, map[])
  }

  ghost predicate Holds(st: State) {
    Valid(st.pool, st.live) && Accounted(st.pool)
  }

  lemma DoHolds(st: State, op: Op)
    requires Holds(st) && CanDo(st, op)
    ensures Holds(Do(st, op))
  {
    hide Valid, Accounted, Malloc, Realloc, Clear, IsFresh, Align, Reallocated;
    ValidChunks(st.pool, st.live);
    match op
    case DoMalloc(size, base) =>
      MallocValid(st.pool, st.live, size, base);
      MallocAccounted(st.pool, size, base);
    case DoRealloc(ptr, originalSize, newSize, base) =>
      ReallocValid(st.pool, st.memory, st.live, ptr, originalSize, newSize, base);
      ReallocAccounted(st.pool, st.memory, ptr, originalSize, newSize, base);
    case DoClear =>
      ClearValid(st.pool, st.live);
      ClearFreesAll(st.pool);
  }

  /** A pool with its first chunk, which may be a user buffer or have no capacity at all. */
  ghost predicate IsStart(st: State) {
    && |st.pool.chunks| == 1 && st.pool.added == 0 && st.pool.freed == [] && st.live == map[]
    && st.pool.chunks[0].addr > 0 && IsAligned(st.pool.chunks[0].addr) && st.pool.chunks[0].size == 0
  }

  ghost predicate IsRun(st: State, ops: seq<Op>)
    decreases |ops|
  {
    ops == [] || (CanDo(st, ops[0]) && st.pool.chunks != [] && IsRun(Do(st, ops[0]), ops[1..]))
  }

  ghost function After(st: State, ops: seq<Op>): State
    requires IsRun(st, ops)
    decreases |ops|
  {
    if ops == [] then st else After(Do(st, ops[0]), ops[1..])
  }

  /** Over any sequence of Malloc, Realloc and Clear the blocks handed out since the last Clear are
      aligned, inside their chunk and pairwise disjoint, and every added chunk is in the list or has
      been freed exactly once. */
  lemma {:induction false} EveryRun(st: State, ops: seq<Op>)
    requires Holds(st) && IsRun(st, ops)
    ensures Holds(After(st, ops))
    decreases |ops|
  {
    hide Holds, CanDo, Do;
    if ops != [] {
      DoHolds(st, ops[0]);
      EveryRun(Do(st, ops[0]), ops[1..]);
    }
  }

  lemma StartHolds(st: State)
    requires IsStart(st)
    ensures Holds(st)
  {
    assert Serials(AddedChunks(st.pool)) == [];
  }

  // ---- Shared ownership ----

  /** The shared data of a pool. `released` says that its last owner is gone. */
  datatype Shared = Shared(state: State, refcount: nat, released: bool)

  /** Allocator objects by name, each with the pool it shares or with none once moved from. */
  datatype World = World(pools: map<nat, Shared>, owners: map<nat, Option<nat>>)

  ghost function Holders(w: World, pid: nat): set<nat> {
    set h | h in w.owners && w.owners[h] == Some(pid)
  }

  predicate Owns(w: World, h: nat) {
    h in w.owners && w.owners[h].Some? && w.owners[h].value in w.pools && w.pools[w.owners[h].value].state.pool.chunks != []
  }

  /** What is true of a pool with `n` owners. */
  ghost predicate SharedCounted(s: Shared, n: nat) {
    && Holds(s.state)
    && (if s.released then n == 0 && multiset(s.state.pool.freed) == UpTo(s.state.pool.added)
        else s.refcount == n && n > 0)
  }

  /** A live pool has as many owners as it counts, at least one; a released pool has none, and all
      the chunks it added have been freed exactly once. In every pool the blocks are valid. */
  ghost predicate Counted(w: World) {
    && (forall h :: h in w.owners && w.owners[h].Some? ==> w.owners[h].value in w.pools)
    && (forall pid :: pid in w.pools ==> SharedCounted(w.pools[pid], |Holders(w, pid)|))
  }

  // ---- One owner more, one owner less ----

  function Retain(s: Shared): Shared {
    s.(refcount := s.refcount + 1)
  }

  /** The destructor's effect on the shared data. */
  ghost function Drop(s: Shared): Shared
    requires s.state.pool.chunks != []
  {
    if s.refcount > 1 then s.(refcount := s.refcount - 1)
    else s.(state := Do(s.state, DoClear), released := true)
  }

  lemma DropCounted(s: Shared, n: nat)
    requires SharedCounted(s, n) && n > 0
    ensures s.state.pool.chunks != [] && SharedCounted(Drop(s), n - 1)
  {
    hide Valid, Accounted, Clear;
    ValidChunks(s.state.pool, s.state.live);
    DoHolds(s.state, DoClear);
    ClearFreesAll(s.state.pool);
  }

  /** `h` owns nothing any more, and its pool has been told. */
  ghost function Release(w: World, h: nat): World
    requires Owns(w, h)
  {
    var pid := w.owners[h].value;
    World(w.pools[pid := Drop(w.pools[pid])], w.owners[h := None])
  }

  lemma OwnerCounts(w: World, h: nat)
    requires Counted(w) && h in w.owners && w.owners[h].Some?
    ensures Owns(w, h) && !w.pools[w.owners[h].value].released && h in Holders(w, w.owners[h].value)
    ensures |Holders(w, w.owners[h].value)| > 0
  {
    hide Valid, Accounted;
    var pid := w.owners[h].value;
    var s := w.pools[pid];
    assert SharedCounted(s, |Holders(w, pid)|);
    assert h in Holders(w, pid);
    ValidChunks(s.state.pool, s.state.live);
  }

  /** Changing one pool and one owner: the other pools keep their owners. */
  lemma PoolChanged(w: World, w1: World, pid: nat)
    requires Counted(w) && pid in w1.pools
    requires forall other :: other in w1.pools && other != pid ==>
                               other in w.pools && w1.pools[other] == w.pools[other] && Holders(w1, other) == Holders(w, other)
    requires forall h :: h in w1.owners && w1.owners[h].Some? ==> w1.owners[h].value in w1.pools
    requires SharedCounted(w1.pools[pid], |Holders(w1, pid)|)
    ensures Counted(w1)
  {
    hide SharedCounted, Holders;
  }

  lemma ReleaseCounted(w: World, h: nat)
    requires Counted(w) && Owns(w, h)
    ensures Counted(Release(w, h))
  {
    hide SharedCounted, Drop;
    var pid, w1 := w.owners[h].value, Release(w, h);
    OwnerCounts(w, h);
    DropCounted(w.pools[pid], |Holders(w, pid)|);
    assert Holders(w1, pid) == Holders(w, pid) - {h};
    forall other | other in w1.pools && other != pid
      ensures Holders(w1, other) == Holders(w, other)
    {
    }
    PoolChanged(w, w1, pid);
  }

  /** Bind an object that owns nothing to a live pool, counting it. */
  function Attach(w: World, h: nat, pid: nat): World
    requires pid in w.pools
  {
    World(w.pools[pid := Retain(w.pools[pid])], w.owners[h := Some(pid)])
  }

  lemma AttachCounted(w: World, h: nat, pid: nat)
    requires Counted(w) && (h in w.owners ==> w.owners[h].None?) && pid in w.pools && !w.pools[pid].released
    ensures Counted(Attach(w, h, pid))
  {
    hide Holds;
    var w1 := Attach(w, h, pid);
    assert SharedCounted(w.pools[pid], |Holders(w, pid)|);
    assert Holders(w1, pid) == Holders(w, pid) + {h} && h !in Holders(w, pid);
    forall other | other in w1.pools && other != pid
      ensures Holders(w1, other) == Holders(w, other)
    {
    }
    PoolChanged(w, w1, pid);
  }

  /** Moving an owner to another name, which must not own anything. */
  function Rename(w: World, h: nat, rhs: nat): World
    requires rhs in w.owners
  {
    w.(owners := w.owners[h := w.owners[rhs]][rhs := None])
  }

  lemma RenameCounted(w: World, h: nat, rhs: nat)
    requires Counted(w) && h != rhs && (h in w.owners ==> w.owners[h].None?) && Owns(w, rhs)
    ensures Counted(Rename(w, h, rhs))
  {
    hide SharedCounted;
    var w1, pid := Rename(w, h, rhs), w.owners[rhs].value;
    assert Holders(w1, pid) == Holders(w, pid) - {rhs} + {h} && rhs in Holders(w, pid) && h !in Holders(w, pid);
    forall other | other in w1.pools && other != pid
      ensures Holders(w1, other) == Holders(w, other)
    {
    }
    PoolChanged(w, w1, pid);
  }

  // ---- What allocator objects do ----

  datatype Act =
    | Create(h: nat, pid: nat, start: State)
    | CopyConstruct(h: nat, rhs: nat)
    | CopyAssign(h: nat, rhs: nat)
    | MoveConstruct(h: nat, rhs: nat)
    | MoveAssign(h: nat, rhs: nat)
    | Destroy(h: nat)
    | Use(h: nat, op: Op)

  /** An object that is assigned to or destroyed exists and has been moved from or owns a pool; copies
      and moves are from objects that own one. */
  ghost predicate CanAct(w: World, a: Act) {
    match a
    case Create(h, pid, start) => h !in w.owners && pid !in w.pools && IsStart(start)
    case CopyConstruct(h, rhs) => h !in w.owners && Owns(w, rhs)
    case CopyAssign(h, rhs) => Exists(w, h) && Owns(w, rhs)
    case MoveConstruct(h, rhs) => h !in w.owners && Owns(w, rhs)
    case MoveAssign(h, rhs) => Exists(w, h) && Owns(w, rhs)
    case Destroy(h) => Exists(w, h)
    case Use(h, op) => Owns(w, h) && CanDo(w.pools[w.owners[h].value].state, op)
  }

  ghost predicate Exists(w: World, h: nat) {
    h in w.owners && (w.owners[h].None? || Owns(w, h))
  }

  ghost function Destruct(w: World, h: nat): World
    requires Exists(w, h)
  {
    if w.owners[h].None? then w else Release(w, h)
  }

  /** Copy assignment counts the right-hand side before it releases the left. */
  ghost function AssignCopy(w: World, h: nat, rhs: nat): World
    requires Exists(w, h) && Owns(w, rhs)
  {
    var pid := w.owners[rhs].value;
    var w1 := w.(pools := w.pools[pid := Retain(w.pools[pid])]);
    var w2 := Destruct(w1, h);
    w2.(owners := w2.owners[h := Some(pid)])
  }

  ghost function AssignMove(w: World, h: nat, rhs: nat): World
    requires Exists(w, h) && Owns(w, rhs)
  {
    var w1 := Destruct(w, h);
    w1.(owners := w1.owners[h := w.owners[rhs]][rhs := None])
  }

  ghost function Forget(w: World, h: nat): World {
    w.(owners := map k | k in w.owners && k != h :: w.owners[k])
  }

  ghost function DoAct(w: World, a: Act): World
    requires CanAct(w, a)
  {
    match a
    case Create(h, pid, start) => World(w.pools[pid := Shared(start, 1, false)], w.owners[h := Some(pid)])
    case CopyConstruct(h, rhs) => Attach(w, h, w.owners[rhs].value)
    case CopyAssign(h, rhs) => AssignCopy(w, h, rhs)
    case MoveConstruct(h, rhs) => Rename(w, h, rhs)
    case MoveAssign(h, rhs) => AssignMove(w, h, rhs)
    case Destroy(h) => Forget(Destruct(w, h), h)
    case Use(h, op) => Apply(w, h, op)
  }

  /** An operation through any owner changes the pool for all of them. */
  ghost function Apply(w: World, h: nat, op: Op): World
    requires Owns(w, h)
  {
    var pid := w.owners[h].value;
    w.(pools := w.pools[pid := w.pools[pid].(state := Do(w.pools[pid].state, op))])
  }

  lemma DestructCounted(w: World, h: nat)
    requires Counted(w) && Exists(w, h)
    ensures Counted(Destruct(w, h)) && h in Destruct(w, h).owners && Destruct(w, h).owners[h].None?
  {
    hide Counted, Drop;
    if w.owners[h].Some? {
      ReleaseCounted(w, h);
    }
  }

  /** Copy assignment changes nothing when both objects share one pool (self-assignment included), and
      otherwise releases the left-hand side and then attaches it. */
  lemma AssignCopyMeans(w: World, h: nat, rhs: nat)
    requires Counted(w) && Exists(w, h) && Owns(w, rhs)
    ensures AssignCopy(w, h, rhs) == if w.owners[h] == w.owners[rhs] then w else Attach(Destruct(w, h), h, w.owners[rhs].value)
  {
    hide SharedCounted, Do, Holders;
    var pid, w1 := w.owners[rhs].value, AssignCopy(w, h, rhs);
    if w.owners[h] == w.owners[rhs] {
      CountPositive(w, rhs);
      assert w1.pools == w.pools && w1.owners == w.owners;
    } else {
      var w2 := Attach(Destruct(w, h), h, pid);
      assert w1.pools == w2.pools && w1.owners == w2.owners;
    }
  }

  lemma CountPositive(w: World, h: nat)
    requires Counted(w) && Owns(w, h)
    ensures w.pools[w.owners[h].value].refcount > 0
  {
    hide Holds;
    OwnerCounts(w, h);
    assert SharedCounted(w.pools[w.owners[h].value], |Holders(w, w.owners[h].value)|);
  }

  lemma AssignCopyCounted(w: World, h: nat, rhs: nat)
    requires Counted(w) && Exists(w, h) && Owns(w, rhs)
    ensures Counted(AssignCopy(w, h, rhs))
  {
    hide AssignCopy, SharedCounted, Holders, Drop;
    AssignCopyMeans(w, h, rhs);
    if w.owners[h] != w.owners[rhs] {
      OwnerCounts(w, rhs);
      DestructCounted(w, h);
      AttachCounted(Destruct(w, h), h, w.owners[rhs].value);
    }
  }

  /** Move assignment, self-assignment included: then the object has been moved from and its pool has
      lost that owner. */
  lemma AssignMoveCounted(w: World, h: nat, rhs: nat)
    requires Counted(w) && Exists(w, h) && Owns(w, rhs)
    ensures Counted(AssignMove(w, h, rhs))
  {
    hide Counted, Drop;
    DestructCounted(w, h);
    var w1 := Destruct(w, h);
    if h == rhs {
      assert w1.owners[h := w.owners[rhs]][rhs := None] == w1.owners;
    } else {
      assert w1.owners[rhs] == w.owners[rhs];
      OwnerCounts(w1, rhs);
      RenameCounted(w1, h, rhs);
      assert AssignMove(w, h, rhs) == Rename(w1, h, rhs);
    }
  }

  lemma ForgetCounted(w: World, h: nat)
    requires Counted(w) && h in w.owners && w.owners[h].None?
    ensures Counted(Forget(w, h))
  {
    hide SharedCounted;
    var w1 := Forget(w, h);
    forall pid | pid in w1.pools
      ensures SharedCounted(w1.pools[pid], |Holders(w1, pid)|)
    {
      assert Holders(w1, pid) == Holders(w, pid);
      assert SharedCounted(w.pools[pid], |Holders(w, pid)|);
    }
  }

  lemma CreateCounted(w: World, h: nat, pid: nat, start: State)
    requires Counted(w) && h !in w.owners && pid !in w.pools && IsStart(start)
    ensures Counted(World(w.pools[pid := Shared(start, 1, false)], w.owners[h := Some(pid)]))
  {
    hide Holds, IsStart;
    var w1 := World(w.pools[pid := Shared(start, 1, false)], w.owners[h := Some(pid)]);
    StartHolds(start);
    assert Holders(w1, pid) == {h};
    forall other | other in w1.pools && other != pid
      ensures Holders(w1, other) == Holders(w, other)
    {
    }
    PoolChanged(w, w1, pid);
  }

  lemma UseCounted(w: World, h: nat, op: Op)
    requires Counted(w) && Owns(w, h) && CanDo(w.pools[w.owners[h].value].state, op)
    ensures Counted(Apply(w, h, op))
  {
    hide Holds, CanDo, Do;
    var w1, pid := Apply(w, h, op), w.owners[h].value;
    OwnerCounts(w, h);
    assert SharedCounted(w.pools[pid], |Holders(w, pid)|);
    DoHolds(w.pools[pid].state, op);
    forall other | other in w1.pools
      ensures Holders(w1, other) == Holders(w, other)
    {
    }
    PoolChanged(w, w1, pid);
  }

  /** Every action keeps the counts: no owner ever refers to a released pool, and when the last owner
      goes, all added chunks have been freed, each exactly once. */
  lemma ActCounted(w: World, a: Act)
    requires Counted(w) && CanAct(w, a)
    ensures Counted(DoAct(w, a))
  {
    hide Counted, CanDo, Do, IsStart, AssignCopy, AssignMove, Drop;
    match a
    case Create(h, pid, start) => CreateCounted(w, h, pid, start);
    case CopyConstruct(h, rhs) =>
      OwnerCounts(w, rhs);
      AttachCounted(w, h, w.owners[rhs].value);
    case CopyAssign(h, rhs) => AssignCopyCounted(w, h, rhs);
    case MoveConstruct(h, rhs) => RenameCounted(w, h, rhs);
    case MoveAssign(h, rhs) => AssignMoveCounted(w, h, rhs);
    case Destroy(h) =>
      DestructCounted(w, h);
      ForgetCounted(Destruct(w, h), h);
    case Use(h, op) => UseCounted(w, h, op);
  }

  ghost predicate IsHistory(w: World, acts: seq<Act>)
    decreases |acts|
  {
    acts == [] || (CanAct(w, acts[0]) && IsHistory(DoAct(w, acts[0]), acts[1..]))
  }

  ghost function AfterActs(w: World, acts: seq<Act>): World
    requires IsHistory(w, acts)
    decreases |acts|
  {
    if acts == [] then w else AfterActs(DoAct(w, acts[0]), acts[1..])
  }

  /** Over every history that starts with no allocators. */
  lemma {:induction false} EveryHistory(w: World, acts: seq<Act>)
    requires Counted(w) && IsHistory(w, acts)
    ensures Counted(AfterActs(w, acts))
    decreases |acts|
  {
    hide Counted, CanAct, DoAct;
    if acts != [] {
      ActCounted(w, acts[0]);
      EveryHistory(DoAct(w, acts[0]), acts[1..]);
    }
  }

  lemma AllOwnersGone(acts: seq<Act>, pid: nat)
    requires IsHistory(World(map[], map[]), acts)
    ensures var w := AfterActs(World(map[], map[]), acts);
            pid in w.pools ==>
              && (Holders(w, pid) == {} <==> w.pools[pid].released)
              && (w.pools[pid].released ==> multiset(w.pools[pid].state.pool.freed) == UpTo(w.pools[pid].state.pool.added))
  {
    hide IsHistory, AfterActs, Holds;
    EveryHistory(World(map[], map[]), acts);
    var w := AfterActs(World(map[], map[]), acts);
    if pid in w.pools {
      assert SharedCounted(w.pools[pid], |Holders(w, pid)|);
    }
  }
}
