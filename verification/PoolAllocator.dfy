/**
 `MemoryPoolAllocator` as the object it is, sharing its data with its copies. Each
 method is proved against the functions of `MemoryPool` and `PoolRuns`.
 */
module PoolAllocator {
  import opened Bytes
  import opened MemoryPool

  /** The chunk list (newest first), the log of chunks handed back, and the reference count. */
  class SharedData {
    var chunks: seq<Chunk>
    var added: nat
    var freed: seq<nat>
    var refcount: nat

    constructor (first: Chunk)
      ensures chunks == [first] && added == 0 && freed == [] && refcount == 1
    {
      chunks := [first];
      added := 0;
      freed := [];
      refcount := 1;
    }
  }

  function TotalCapacity(cs: seq<Chunk>): nat {
    if cs == [] then 0 else cs[0].capacity + TotalCapacity(cs[1..])
  }

  function TotalSize(cs: seq<Chunk>): nat {
    if cs == [] then 0 else cs[0].size + TotalSize(cs[1..])
  }

  class MemoryPoolAllocator {
    var chunkCapacity: nat
    var shared: SharedData?

    ghost predicate Usable()
      reads this, shared
    {
      shared != null && shared.refcount > 0 && shared.chunks != []
    }

    function Now(): (p: Pool)
      requires shared != null
      reads this, shared
    {
      Pool(shared.chunks, chunkCapacity, shared.added, shared.freed)
    }

    /** With memory from the base allocator: the first chunk has no capacity. */
    constructor (chunkSize: nat, memory: nat)
      requires memory > 0 && IsAligned(memory)
      ensures Usable() && fresh(shared) && shared.refcount == 1
      ensures Now() == Pool([Chunk(0, memory + SHARED_DATA, 0, 0)], chunkSize, 0, [])
      ensures IsAligned(shared.chunks[0].addr)
    {
      chunkCapacity := chunkSize;
      shared := new SharedData(Chunk(0, memory + SHARED_DATA, 0, 0));
    }

    /** With a user buffer, whose start is moved up to the next multiple of eight. */
    constructor FromBuffer(buffer: nat, size: nat, chunkSize: nat)
      requires buffer > 0 && size >= (Align(buffer) - buffer) + SHARED_DATA + HEADER
      ensures Usable() && fresh(shared) && shared.refcount == 1 && |shared.chunks| == 1
      ensures shared.added == 0 && shared.freed == [] && chunkCapacity == chunkSize
      ensures IsAligned(shared.chunks[0].addr) && shared.chunks[0].size == 0
      ensures buffer + SHARED_DATA <= shared.chunks[0].addr && shared.chunks[0].End() == buffer + size
    {
      chunkCapacity := chunkSize;
      var abuf, room := buffer, size;
      if !IsAligned(buffer) {
        abuf := Align(buffer);
        room := size - (abuf - buffer);
      }
      shared := new SharedData(Chunk(0, abuf + SHARED_DATA, room - SHARED_DATA - HEADER, 0));
    }

    constructor Copy(rhs: MemoryPoolAllocator)
      requires rhs.Usable()
      modifies rhs.shared
      ensures shared == rhs.shared && chunkCapacity == rhs.chunkCapacity && Usable()
      ensures shared.refcount == old(rhs.shared.refcount) + 1
      ensures Now() == old(rhs.Now())
    {
      chunkCapacity := rhs.chunkCapacity;
      shared := rhs.shared;
      new;
      shared.refcount := shared.refcount + 1;
    }

    /** The destructor, leaving the object without a pool. */
    method Destruct()
      requires shared != null ==> Usable()
      modifies this, shared
      ensures shared == null && chunkCapacity == old(chunkCapacity)
      ensures old(shared) != null ==>
                var s := old(shared);
                if old(s.refcount) > 1 then s.refcount == old(s.refcount) - 1 && s.chunks == old(s.chunks) && s.freed == old(s.freed) && s.added == old(s.added)
                else Pool(s.chunks, chunkCapacity, s.added, s.freed) == MemoryPool.Clear(old(Now()))
    {
      if shared == null {
        return;
      }
      if shared.refcount > 1 {
        shared.refcount := shared.refcount - 1;
        shared := null;
        return;
      }
      Clear();
      shared := null;
    }

    /** Copy assignment: the right-hand side is counted before the left-hand side is released. */
    method AssignCopy(rhs: MemoryPoolAllocator)
      requires rhs.Usable() && (shared != null ==> Usable())
      modifies this, shared, rhs.shared
      ensures shared == old(rhs.shared) && chunkCapacity == old(rhs.chunkCapacity) && rhs.shared == old(rhs.shared)
      ensures Usable() && Now() == old(rhs.Now())
      ensures shared.refcount == old(rhs.shared.refcount) + if old(shared) == old(rhs.shared) then 0 else 1
    {
      var s, capacity := rhs.shared, rhs.chunkCapacity;
      s.refcount := s.refcount + 1;
      Destruct();
      chunkCapacity := capacity;
      shared := s;
    }

    /** Move assignment; an object moved to itself ends without a pool. */
    method AssignMove(rhs: MemoryPoolAllocator)
      requires rhs.Usable() && (shared != null ==> Usable())
      modifies this, rhs, shared
      ensures rhs.shared == null
      ensures this != rhs ==> shared == old(rhs.shared) && chunkCapacity == old(rhs.chunkCapacity)
      ensures this != rhs && old(shared) != old(rhs.shared) ==> Usable() && Now() == old(rhs.Now()) && shared.refcount == old(rhs.shared.refcount)
      ensures this != rhs && old(shared) == old(rhs.shared) && old(shared.refcount) > 1 ==>
                Usable() && Now() == old(rhs.Now()) && shared.refcount == old(rhs.shared.refcount) - 1
    {
      var s, capacity := rhs.shared, rhs.chunkCapacity;
      Destruct();
      chunkCapacity := capacity;
      shared := s;
      rhs.shared := null;
    }

    method Clear()
      requires Usable()
      modifies shared
      ensures Now() == MemoryPool.Clear(old(Now())) && Usable() && shared.refcount == old(shared.refcount)
    {
      while |shared.chunks| != 1
        invariant Usable() && shared.refcount == old(shared.refcount)
        invariant MemoryPool.Clear(Now()) == MemoryPool.Clear(old(Now()))
        decreases |shared.chunks|
      {
        var c := shared.chunks[0];
        shared.chunks := shared.chunks[1..];
        shared.freed := shared.freed + [c.serial];
      }
      shared.chunks := [shared.chunks[0].(size := 0)];
    }

    method Capacity() returns (capacity: nat)
      requires Usable()
      ensures capacity == TotalCapacity(shared.chunks)
    {
      capacity := 0;
      var i := 0;
      while i < |shared.chunks|
        invariant i <= |shared.chunks|
        invariant capacity + TotalCapacity(shared.chunks[i..]) == TotalCapacity(shared.chunks)
      {
        capacity := capacity + shared.chunks[i].capacity;
        i := i + 1;
      }
    }

    method Size() returns (size: nat)
      requires Usable()
      ensures size == TotalSize(shared.chunks)
    {
      size := 0;
      var i := 0;
      while i < |shared.chunks|
        invariant i <= |shared.chunks|
        invariant size + TotalSize(shared.chunks[i..]) == TotalSize(shared.chunks)
      {
        size := size + shared.chunks[i].size;
        i := i + 1;
      }
    }

    method Malloc(size: nat, base: Option<nat>) returns (buffer: nat)
      requires Usable()
      modifies shared
      ensures Usable() && shared.refcount == old(shared.refcount)
      ensures (Now(), buffer) == MemoryPool.Malloc(old(Now()), size, base)
    {
      hide Align;
      if size == 0 {
        return 0;
      }
      var n := Align(size);
      if shared.chunks[0].size + n > shared.chunks[0].capacity {
        if base.None? {
          return 0;
        }
        var capacity := if chunkCapacity > n then chunkCapacity else n;
        shared.chunks := [Chunk(shared.added, base.value, capacity, 0)] + shared.chunks;
        shared.added := shared.added + 1;
      }
      var head := shared.chunks[0];
      buffer := head.Buffer() + head.size;
      shared.chunks := shared.chunks[0 := head.(size := head.size + n)];
    }

    method Realloc(memory: Memory, ptr: nat, originalSize: nat, newSize: nat, base: Option<nat>)
      returns (memory': Memory, buffer: nat)
      requires Usable()
      modifies shared
      ensures Usable() && shared.refcount == old(shared.refcount)
      ensures (Now(), memory', buffer) == MemoryPool.Realloc(old(Now()), memory, ptr, originalSize, newSize, base)
    {
      hide Align, MemoryPool.Malloc;
      memory' := memory;
      if ptr == 0 {
        buffer := Malloc(newSize, base);
        return;
      }
      if newSize == 0 {
        return memory, 0;
      }
      var original, n := Align(originalSize), Align(newSize);
      if original >= n {
        return memory, ptr;
      }
      var head := shared.chunks[0];
      if ptr == head.Buffer() + head.size - original {
        var increment := n - original;
        if head.size + increment <= head.capacity {
          shared.chunks := shared.chunks[0 := head.(size := head.size + increment)];
          return memory, ptr;
        }
      }
      buffer := Malloc(n, base);
      if buffer == 0 {
        MallocNull(old(Now()), n, base);
      } else if original != 0 {
        memory' := MemoryPool.Copy(memory, buffer, ptr, original);
      }
    }
  }

  lemma MallocNull(p: Pool, size: nat, base: Option<nat>)
    requires p.chunks != [] && MemoryPool.Malloc(p, size, base).1 == 0
    ensures MemoryPool.Malloc(p, size, base).0 == p
  {
  }
}
