/**
 `MemoryPoolAllocator`: bump allocation over a list of chunks, in-place growth of
 the last block, and what holds of the blocks handed out since the last `Clear`.
 Addresses are numbers; 0 is the null pointer. The base allocator's answers are
 inputs: an address whose memory overlaps no chunk of the pool, or a failure.
 */
module MemoryPool {
  import opened Bytes

  const HEADER := 24
  const SHARED_DATA := 32

  predicate IsAligned(n: nat) {
    n % 8 == 0
  }

  lemma AlignedSum(a: nat, b: nat)
    requires IsAligned(a) && IsAligned(b)
    ensures IsAligned(a + b) && (b <= a ==> IsAligned(a - b))
  {
  }

  lemma HeaderAligned()
    ensures IsAligned(HEADER)
  {
  }

  /** RAPIDJSON_ALIGN: up to the next multiple of eight. */
  function Align(n: nat): (r: nat)
    ensures n <= r < n + 8 && IsAligned(r)
  {
    (n + 7) / 8 * 8
  }

  /** A chunk header. `serial` numbers the chunks in the order they were added. */
  datatype Chunk = Chunk(serial: nat, addr: nat, capacity: nat, size: nat) {
    /** Where the chunk's blocks start. */
    function Buffer(): nat { addr + HEADER }

    /** The end of the blocks handed out. */
    function Top(): nat { Buffer() + size }

    function End(): nat { Buffer() + capacity }
  }

  /** The chunks, newest first; the last one is the first chunk, which is never freed by `Clear`. */
  datatype Pool = Pool(chunks: seq<Chunk>, chunkCapacity: nat, added: nat, freed: seq<nat>)

  predicate Apart(a: nat, aEnd: nat, b: nat, bEnd: nat) {
    aEnd <= b || bEnd <= a
  }

  // ---- Operations ----

  /** What the base allocator promises for a new chunk. */
  predicate IsFresh(p: Pool, addr: nat, capacity: nat) {
    && addr > 0 && IsAligned(addr)
    && forall i :: 0 <= i < |p.chunks| ==> Apart(addr, addr + HEADER + capacity, p.chunks[i].addr, p.chunks[i].End())
  }

  function AddChunk(p: Pool, addr: nat, capacity: nat): Pool {
    p.(chunks := [Chunk(p.added, addr, capacity, 0)] + p.chunks, added := p.added + 1)
  }

  /** Move the head chunk's top up by `n`. */
  function Grow(p: Pool, n: nat): Pool
    requires p.chunks != []
  {
    p.(chunks := p.chunks[0 := p.chunks[0].(size := p.chunks[0].size + n)])
  }

  function NewCapacity(p: Pool, n: nat): nat {
    if p.chunkCapacity > n then p.chunkCapacity else n
  }

  predicate HasRoom(p: Pool, n: nat)
    requires p.chunks != []
  {
    p.chunks[0].size + n <= p.chunks[0].capacity
  }

  function Malloc(p: Pool, size: nat, base: Option<nat>): (Pool, nat)
    requires p.chunks != []
  {
    var n := Align(size);
    if size == 0 then (p, 0)
    else if HasRoom(p, n) then (Grow(p, n), p.chunks[0].Top())
    else if base.None? then (p, 0)
    else
      var p1 := AddChunk(p, base.value, NewCapacity(p, n));
      (Grow(p1, n), p1.chunks[0].Top())
  }

  /** Whether `Realloc` may grow the block where it is. */
  predicate GrowsInPlace(p: Pool, ptr: nat, original: nat, n: nat)
    requires p.chunks != []
  {
    ptr == p.chunks[0].Top() - original && original < n && HasRoom(p, n - original)
  }

  type Memory = nat -> Byte

  /** memcpy. */
  function Copy(m: Memory, dst: nat, src: nat, n: nat): Memory {
    (a: nat) => if dst <= a < dst + n then m(src + (a - dst)) else m(a)
  }

  function Realloc(p: Pool, m: Memory, ptr: nat, originalSize: nat, newSize: nat, base: Option<nat>): (Pool, Memory, nat)
    requires p.chunks != []
  {
    var original, n := Align(originalSize), Align(newSize);
    if ptr == 0 then
      var (p1, new1) := Malloc(p, newSize, base);
      (p1, m, new1)
    else if newSize == 0 then (p, m, 0)
    else if original >= n then (p, m, ptr)
    else if GrowsInPlace(p, ptr, original, n) then (Grow(p, n - original), m, ptr)
    else
      var (p1, new1) := Malloc(p, n, base);
      if new1 == 0 then (p, m, 0)
      else (p1, if original == 0 then m else Copy(m, new1, ptr, original), new1)
  }

  function Clear(p: Pool): (r: Pool)
    requires p.chunks != []
    ensures r.chunks != []
    decreases |p.chunks|
  {
    if |p.chunks| == 1 then p.(chunks := [p.chunks[0].(size := 0)])
    else Clear(p.(chunks := p.chunks[1..], freed := p.freed + [p.chunks[0].serial]))
  }

  // ---- What holds of the blocks ----

  /** The blocks handed out since the last `Clear`: address and reserved length. */
  type Blocks = map<nat, nat>

  ghost predicate InChunk(c: Chunk, ptr: nat, n: nat) {
    c.Buffer() <= ptr && ptr + n <= c.Top()
  }

  ghost predicate InSomeChunk(p: Pool, ptr: nat, n: nat) {
    exists i :: 0 <= i < |p.chunks| && InChunk(p.chunks[i], ptr, n)
  }

  ghost predicate ChunksValid(p: Pool) {
    && p.chunks != []
    && (forall i :: 0 <= i < |p.chunks| ==>
          && p.chunks[i].addr > 0 && IsAligned(p.chunks[i].addr)
          && IsAligned(p.chunks[i].size) && p.chunks[i].size <= p.chunks[i].capacity)
    && (forall i, j :: 0 <= i < j < |p.chunks| ==>
          Apart(p.chunks[i].addr, p.chunks[i].End(), p.chunks[j].addr, p.chunks[j].End()))
  }

  ghost predicate BlocksValid(p: Pool, live: Blocks) {
    && (forall b :: b in live ==> IsAligned(b) && IsAligned(live[b]) && live[b] > 0 && InSomeChunk(p, b, live[b]))
    && (forall a, b :: a in live && b in live && a != b ==> Apart(a, a + live[a], b, b + live[b]))
  }

  /** Blocks are aligned, inside a chunk and pairwise disjoint. */
  ghost predicate Valid(p: Pool, live: Blocks) {
    ChunksValid(p) && BlocksValid(p, live)
  }

  /** A block in any chunk lies apart from what is above the head's top. */
  lemma AboveTheTop(p: Pool, live: Blocks, b: nat, n: nat)
    requires Valid(p, live) && b in live && HasRoom(p, n)
    ensures Apart(b, b + live[b], p.chunks[0].Top(), p.chunks[0].Top() + n)
    ensures b != p.chunks[0].Top()
  {
    assert InSomeChunk(p, b, live[b]);
    var i :| 0 <= i < |p.chunks| && InChunk(p.chunks[i], b, live[b]);
    if i > 0 {
      assert Apart(p.chunks[0].addr, p.chunks[0].End(), p.chunks[i].addr, p.chunks[i].End());
    }
  }

  lemma GrowKeepsChunks(p: Pool, n: nat)
    requires ChunksValid(p) && HasRoom(p, n) && IsAligned(n)
    ensures ChunksValid(Grow(p, n))
    ensures forall b, k :: InSomeChunk(p, b, k) ==> InSomeChunk(Grow(p, n), b, k)
  {
    hide IsAligned;
    AlignedSum(p.chunks[0].size, n);
    forall b, k | InSomeChunk(p, b, k)
      ensures InSomeChunk(Grow(p, n), b, k)
    {
      var i :| 0 <= i < |p.chunks| && InChunk(p.chunks[i], b, k);
      assert InChunk(Grow(p, n).chunks[i], b, k);
    }
  }

  /** Adding or replacing a block that lies apart from the others. */
  lemma PutBlock(p: Pool, p1: Pool, live: Blocks, b: nat, n: nat)
    requires BlocksValid(p, live) && IsAligned(b) && IsAligned(n) && n > 0 && InSomeChunk(p1, b, n)
    requires forall a, k :: InSomeChunk(p, a, k) ==> InSomeChunk(p1, a, k)
    requires forall a :: a in live && a != b ==> Apart(a, a + live[a], b, b + n)
    ensures BlocksValid(p1, live[b := n])
  {
    hide IsAligned, InSomeChunk;
  }

  lemma AddChunkKeeps(p: Pool, live: Blocks, addr: nat, capacity: nat)
    requires Valid(p, live) && IsFresh(p, addr, capacity)
    ensures Valid(AddChunk(p, addr, capacity), live)
  {
    var p1 := AddChunk(p, addr, capacity);
    forall b | b in live
      ensures InSomeChunk(p1, b, live[b])
    {
      assert InSomeChunk(p, b, live[b]);
      var i :| 0 <= i < |p.chunks| && InChunk(p.chunks[i], b, live[b]);
      assert p1.chunks[i + 1] == p.chunks[i];
    }
    forall i, j | 0 <= i < j < |p1.chunks|
      ensures Apart(p1.chunks[i].addr, p1.chunks[i].End(), p1.chunks[j].addr, p1.chunks[j].End())
    {
      assert p1.chunks[j] == p.chunks[j - 1];
      if i > 0 {
        assert p1.chunks[i] == p.chunks[i - 1];
      }
    }
  }

  /** A block carved off the head chunk is new. */
  lemma CarveKeeps(p: Pool, live: Blocks, n: nat)
    requires Valid(p, live) && HasRoom(p, n) && IsAligned(n) && n > 0
    ensures var b := p.chunks[0].Top();
            b !in live && b > 0 && Valid(Grow(p, n), live[b := n])
  {
    hide HasRoom, IsAligned, BlocksValid;
    var top, p1 := p.chunks[0].Top(), Grow(p, n);
    GrowKeepsChunks(p, n);
    assert InChunk(p1.chunks[0], top, n);
    HeaderAligned();
    AlignedSum(p.chunks[0].addr, HEADER);
    AlignedSum(p.chunks[0].Buffer(), p.chunks[0].size);
    forall b | b in live
      ensures Apart(b, b + live[b], top, top + n) && b != top
    {
      AboveTheTop(p, live, b, n);
    }
    PutBlock(p, p1, live, top, n);
  }

  /** `Malloc` returns null, changing nothing, exactly for size zero or when the base allocator was
      needed and failed; otherwise a new aligned block inside its chunk, apart from all others. */
  lemma MallocValid(p: Pool, live: Blocks, size: nat, base: Option<nat>)
    requires Valid(p, live)
    requires base.Some? ==> IsFresh(p, base.value, NewCapacity(p, Align(size)))
    ensures var r := Malloc(p, size, base);
            && (r.1 == 0 <==> size == 0 || (p.chunks[0].size + Align(size) > p.chunks[0].capacity && base.None?))
            && (if r.1 == 0 then r.0 == p else r.1 !in live && Valid(r.0, live[r.1 := Align(size)]))
  {
    hide Valid, Align;
    if size != 0 {
      var n := Align(size);
      assert p.chunks != [] by { ValidChunks(p, live); }
      if HasRoom(p, n) {
        CarveKeeps(p, live, n);
      } else if base.Some? {
        AddChunkKeeps(p, live, base.value, NewCapacity(p, n));
        RoomInNewChunk(p, base.value, n);
        CarveKeeps(AddChunk(p, base.value, NewCapacity(p, n)), live, n);
      }
    }
  }

  /** Where the block comes from, in numbers, with `n` the size rounded up to a multiple of 8: from the
      head chunk exactly when `n` bytes are free there, and otherwise from a new chunk, at least as
      large as the pool's chunk capacity. */
  lemma MallocPlaces(p: Pool, live: Blocks, size: nat, n: nat, base: Option<nat>)
    requires Valid(p, live) && p.chunks != [] && size > 0 && n % 8 == 0 && size <= n < size + 8
    requires base.Some? ==> IsFresh(p, base.value, if n < p.chunkCapacity then p.chunkCapacity else n)
    ensures var r, head := Malloc(p, size, base), p.chunks[0];
            var fits := n <= head.capacity - head.size;
            && r.0.added == p.added + (if fits || base.None? then 0 else 1) && r.0.freed == p.freed
            && (fits ==> r.1 == head.Top() && r.0.chunks == [head.(size := head.size + n)] + p.chunks[1..])
            && (!fits && base.None? ==> r.1 == 0 && r.0.chunks == p.chunks)
            && (!fits && base.Some? ==>
                  && r.1 == base.value + HEADER
                  && r.0.chunks == [Chunk(p.added, base.value, if n < p.chunkCapacity then p.chunkCapacity else n, n)] + p.chunks)
            && (head.Buffer() <= r.1 < head.End() <==> fits)
  {
    hide BlocksValid;
    assert Align(size) == n;
    if n > p.chunks[0].capacity - p.chunks[0].size && base.Some? {
      assert Apart(base.value, base.value + HEADER + NewCapacity(p, n), p.chunks[0].addr, p.chunks[0].End());
    }
  }

  lemma ValidChunks(p: Pool, live: Blocks)
    requires Valid(p, live)
    ensures p.chunks != []
  {
  }

  lemma RoomInNewChunk(p: Pool, addr: nat, n: nat)
    ensures HasRoom(AddChunk(p, addr, NewCapacity(p, n)), n)
  {
  }

  // ---- Realloc ----

  /** The comparison that decides to grow in place cannot be fooled: for a block of the pool and a
      claimed length within it, it holds exactly when the block is the last of the head chunk and
      the claim is its whole length. */
  lemma LastBlockTest(p: Pool, live: Blocks, ptr: nat, original: nat)
    requires Valid(p, live) && ptr in live && original <= live[ptr]
    ensures ptr == p.chunks[0].Top() - original <==>
              InChunk(p.chunks[0], ptr, live[ptr]) && ptr + live[ptr] == p.chunks[0].Top() && original == live[ptr]
  {
    assert InSomeChunk(p, ptr, live[ptr]);
    var i :| 0 <= i < |p.chunks| && InChunk(p.chunks[i], ptr, live[ptr]);
    if i > 0 {
      assert Apart(p.chunks[0].addr, p.chunks[0].End(), p.chunks[i].addr, p.chunks[i].End());
    }
  }

  /** The blocks after a successful `Realloc`: the block has grown, or there is a new one beside it. */
  ghost function Reallocated(p: Pool, live: Blocks, ptr: nat, originalSize: nat, newSize: nat, result: nat): Blocks
    requires p.chunks != []
  {
    var original, n := Align(originalSize), Align(newSize);
    if result == 0 || (ptr != 0 && original >= n) then live
    else live[result := n]
  }

  /** The block stays where it is exactly when it already suffices or can grow in place. */
  lemma ReallocMoves(p: Pool, m: Memory, live: Blocks, ptr: nat, originalSize: nat, newSize: nat, base: Option<nat>)
    requires Valid(p, live) && ptr in live && Align(originalSize) <= live[ptr] && newSize != 0 && ptr != 0
    requires base.Some? ==> IsFresh(p, base.value, NewCapacity(p, Align(newSize)))
    ensures var r := Realloc(p, m, ptr, originalSize, newSize, base);
            var head, original, n := p.chunks[0], Align(originalSize), Align(newSize);
            r.2 == ptr <==> original >= n || (ptr + original == head.Top() && n - original <= head.capacity - head.size)
  {
    hide Valid, Align, IsFresh;
    AlignTwice(newSize);
    MallocValid(p, live, Align(newSize), base);
  }

  lemma AlignTwice(n: nat)
    ensures Align(Align(n)) == Align(n)
  {
  }

  lemma GrowInPlaceValid(p: Pool, live: Blocks, ptr: nat, original: nat, n: nat)
    requires Valid(p, live) && ptr in live && original <= live[ptr] && IsAligned(original) && IsAligned(n)
    requires GrowsInPlace(p, ptr, original, n)
    ensures Valid(Grow(p, n - original), live[ptr := n])
  {
    hide IsAligned, BlocksValid;
    LastBlockTest(p, live, ptr, original);
    var k := n - original;
    AlignedSum(n, original);
    GrowKeepsChunks(p, k);
    var p1 := Grow(p, k);
    assert InChunk(p1.chunks[0], ptr, n);
    BlocksApart(p, live, ptr, ptr);
    forall b | b in live && b != ptr
      ensures Apart(b, b + live[b], ptr, ptr + n)
    {
      AboveTheTop(p, live, b, k);
      BlocksApart(p, live, b, ptr);
    }
    PutBlock(p, p1, live, ptr, n);
  }

  lemma BlocksApart(p: Pool, live: Blocks, a: nat, b: nat)
    requires BlocksValid(p, live) && a in live && b in live
    ensures live[b] > 0 && IsAligned(b) && (a != b ==> Apart(a, a + live[a], b, b + live[b]))
  {
  }

  /** `Realloc` keeps the blocks valid and the contents: the result starts with the old bytes, and
      nothing outside it has changed. */
  lemma ReallocValid(p: Pool, m: Memory, live: Blocks, ptr: nat, originalSize: nat, newSize: nat, base: Option<nat>)
    requires Valid(p, live)
    requires ptr == 0 || (ptr in live && Align(originalSize) <= live[ptr])
    requires base.Some? ==> IsFresh(p, base.value, NewCapacity(p, Align(newSize)))
    ensures var r := Realloc(p, m, ptr, originalSize, newSize, base);
            Valid(r.0, Reallocated(p, live, ptr, originalSize, newSize, r.2))
  {
    hide Valid, Align, GrowsInPlace, IsFresh, Malloc;
    ValidChunks(p, live);
    var original, n := Align(originalSize), Align(newSize);
    AlignTwice(newSize);
    if ptr == 0 {
      MallocValid(p, live, newSize, base);
    } else if newSize != 0 && original < n {
      if GrowsInPlace(p, ptr, original, n) {
        GrowInPlaceValid(p, live, ptr, original, n);
      } else {
        MallocValid(p, live, n, base);
      }
    }
  }

  lemma ReallocKeepsContents(p: Pool, m: Memory, live: Blocks, ptr: nat, originalSize: nat, newSize: nat, base: Option<nat>)
    requires Valid(p, live) && ptr in live && ptr != 0 && Align(originalSize) <= live[ptr]
    requires base.Some? ==> IsFresh(p, base.value, NewCapacity(p, Align(newSize)))
    ensures var r := Realloc(p, m, ptr, originalSize, newSize, base);
            && (r.2 != 0 ==> forall a: nat :: ptr <= a < ptr + Align(originalSize) ==> r.1(r.2 + (a - ptr)) == m(a))
            && (forall b, a :: b in live && b <= a < b + live[b] ==> r.1(a) == m(a))
  {
    hide Align, IsAligned, GrowsInPlace, IsFresh, Malloc, ChunksValid, BlocksValid, Copy;
    ValidChunks(p, live);
    var original, n := Align(originalSize), Align(newSize);
    AlignTwice(newSize);
    var r := Realloc(p, m, ptr, originalSize, newSize, base);
    if newSize != 0 && original < n && !GrowsInPlace(p, ptr, original, n) {
      MallocValid(p, live, n, base);
      if r.2 != 0 {
        CopyMeans(m, r.2, ptr, original);
        var live1 := live[r.2 := n];
        forall b, a: nat | b in live && b <= a < b + live[b]
          ensures r.1(a) == m(a)
        {
          BlocksApart(r.0, live1, b, r.2);
        }
      }
    }
  }

  lemma CopyMeans(m: Memory, dst: nat, src: nat, n: nat)
    ensures forall a: nat :: src <= a < src + n ==> Copy(m, dst, src, n)(dst + (a - src)) == m(a)
    ensures forall a: nat :: !(dst <= a < dst + n) ==> Copy(m, dst, src, n)(a) == m(a)
  {
  }
}
