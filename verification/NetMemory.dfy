/** The memory pool and the buffers that live in it: core/net_mem.c, allocation and resizing. */
module NetMemory {
  import opened Common
  import opened ChunkView
  import opened BlockOwnership
  import opened NetBuffers

  /** Descriptors in a buffer from the pool: enough for a reassembled datagram of 8192 bytes, and three. */
  const MAX_CHUNK_COUNT := 9
  /** The size of those descriptors, with 32-bit addresses. */
  const HEADER_SIZE := 80

  /** The entries of the allocation table that are in use. */
  function InUse(table: seq<bool>): set<nat> {
    set i: nat | i < |table| && table[i]
  }

  lemma InUseUpdate(table: seq<bool>, i: nat, b: bool)
    requires i < |table|
    ensures InUse(table[i := b]) == if b then InUse(table) + {i} else InUse(table) - {i}
  {
  }

  lemma {:induction false} InUseSize(table: seq<bool>)
    ensures |InUse(table)| <= |table|
    ensures |InUse(table)| == |table| ==> forall i :: 0 <= i < |table| ==> table[i]
  {
    if table != [] {
      var rest := table[..|table| - 1];
      InUseSize(rest);
      assert InUse(table) == InUse(rest) + if table[|table| - 1] then {|rest|} else {};
    }
  }

  class NetMem {
    /** The blocks of the pool, one after the other, and behind them the memory of the user. */
    const memory: array<byte>
    const memPoolAllocTable: array<bool>
    var memPoolCurrentUsage: nat
    var memPoolMaxUsage: nat
    /** The buffers allocated and not yet freed. */
    ghost var live: set<NetBuffer>

    ghost function Allocated(): set<nat>
      reads memPoolAllocTable
    {
      InUse(memPoolAllocTable[..])
    }

    /** The usage counters tell the truth. */
    ghost predicate Counted()
      reads `memPoolCurrentUsage, `memPoolMaxUsage, memPoolAllocTable
    {
      && memPoolAllocTable.Length == BUFFER_COUNT && memory.Length >= BUFFER_COUNT * BUFFER_SIZE
      && memPoolCurrentUsage == |Allocated()|
      && memPoolCurrentUsage <= memPoolMaxUsage <= BUFFER_COUNT
    }

    /** Allocates the first free block. */
    method MemPoolAlloc(size: nat) returns (p: Option<nat>)
      requires Counted()
      modifies `memPoolCurrentUsage, `memPoolMaxUsage, memPoolAllocTable
      ensures Counted()
      ensures memPoolMaxUsage >= old(memPoolMaxUsage)
      ensures p.None? <==> size > BUFFER_SIZE || |old(Allocated())| == BUFFER_COUNT
      ensures p.None? ==> Allocated() == old(Allocated())
      ensures p.Some? ==>
        var i := p.value / BUFFER_SIZE;
        && i < BUFFER_COUNT && p.value == i * BUFFER_SIZE
        && i !in old(Allocated()) && Allocated() == old(Allocated()) + {i}
        && forall j: nat :: j < i ==> j in old(Allocated())
    {
      InUseSize(memPoolAllocTable[..]);
      if size <= BUFFER_SIZE {
        for i := 0 to BUFFER_COUNT
          invariant forall j: nat :: j < i ==> memPoolAllocTable[j]
          invariant unchanged(this) && unchanged(memPoolAllocTable)
        {
          if !memPoolAllocTable[i] {
            ghost var before := memPoolAllocTable[..];
            memPoolAllocTable[i] := true;
            assert memPoolAllocTable[..] == before[i := true];
            InUseUpdate(before, i, true);
            InUseSize(memPoolAllocTable[..]);
            memPoolCurrentUsage := memPoolCurrentUsage + 1;
            if memPoolCurrentUsage > memPoolMaxUsage {
              memPoolMaxUsage := memPoolCurrentUsage;
            }
            return Some(i * BUFFER_SIZE);
          }
        }
        InUseFull(memPoolAllocTable[..]);
      }
      return None;
    }

    /** Frees a block that was allocated. */
    method MemPoolFree(p: nat)
      requires Counted() && p % BUFFER_SIZE == 0 && p / BUFFER_SIZE in Allocated()
      modifies `memPoolCurrentUsage, memPoolAllocTable
      ensures Counted()
      ensures Allocated() == old(Allocated()) - {p / BUFFER_SIZE}
    {
      for i := 0 to BUFFER_COUNT
        invariant unchanged(this) && unchanged(memPoolAllocTable)
        invariant i <= p / BUFFER_SIZE
      {
        if i * BUFFER_SIZE == p {
          ghost var before := memPoolAllocTable[..];
          memPoolAllocTable[i] := false;
          assert memPoolAllocTable[..] == before[i := false];
          InUseUpdate(before, i, false);
          memPoolCurrentUsage := memPoolCurrentUsage - 1;
          return;
        }
      }
    }

    // -------------------------------------------------------------------------------------------
    // Resizing

    /** Adjusts the chunks there are: `i` of them are needed, and `rest` bytes find no room. */
    method FitChunks(buffer: NetBuffer, length: nat) returns (i: nat, rest: nat)
      requires Sound(buffer.chunks, memory.Length) && memory.Length >= BUFFER_COUNT * BUFFER_SIZE
      modifies buffer
      ensures Refitted(old(buffer.chunks), buffer.chunks, i)
      ensures Total(buffer.chunks, i) + rest == length
      ensures rest > 0 ==> i == |buffer.chunks| && Total(buffer.chunks, i) == Capacity(old(buffer.chunks))
      ensures rest == 0 ==> length <= Capacity(old(buffer.chunks)) && (i > 0 ==> buffer.chunks[i - 1].length > 0)
      ensures length == 0 ==> i == 0
    {
      hide Fitting, Sound, Capacity, Total, Refitted;
      ghost var c := buffer.chunks;
      i, rest := 0, length;
      var chunkCount := |buffer.chunks|;
      FitStart(c, length, memory.Length);
      while i < chunkCount && rest > 0
        invariant i <= |c| == |buffer.chunks| && HeldChunks(c) && Fitting(c, buffer.chunks, i, rest, length)
        invariant length == 0 ==> i == 0 && rest == 0
        decreases chunkCount - i
      {
        var chunk := buffer.chunks[i];
        var n: uint16 := if rest <= chunk.length then rest
                         else if chunk.size > 0 && i == chunkCount - 1 then Min(rest, chunk.size) else chunk.length;
        FitStep(c, buffer.chunks, i, n, rest, length);
        buffer.chunks := buffer.chunks[i := Chunk(chunk.address, n, chunk.size)];
        rest := rest - n;
        i := i + 1;
      }
      FitEnd(c, buffer.chunks, i, rest, length);
    }

    /** Frees the blocks of the chunks from `i` on and drops these chunks. */
    method ReleaseChunks(buffer: NetBuffer, i: nat)
      requires Counted() && Sound(buffer.chunks, memory.Length) && i <= |buffer.chunks|
      requires Owned(buffer.chunks) <= Allocated()
      modifies `memPoolCurrentUsage, memPoolAllocTable, buffer
      ensures Counted() && buffer.chunks == old(buffer.chunks[..i])
      ensures Allocated() == Remaining(old(buffer.chunks), i, |old(buffer.chunks)|, old(Allocated()))
    {
      hide Blocks, Owned, Sound, Block, Remaining, InUse, NetMem.Counted;
      var chunkCount := |buffer.chunks|;
      var k := i;
      ghost var c, before := buffer.chunks, Allocated();
      ReleaseStart(c, i, before);
      while k < chunkCount
        invariant i <= k <= |c| && buffer.chunks == c && Counted()
        invariant memPoolMaxUsage == old(memPoolMaxUsage)
        invariant Allocated() == Remaining(c, i, k, before)
      {
        ReleaseStep(c, i, k, memory.Length, before);
        if buffer.chunks[k].size > 0 {
          MemPoolFree(buffer.chunks[k].address);
        }
        k := k + 1;
      }
      buffer.chunks := buffer.chunks[..i];
    }

    /** Adds chunks for `length` more bytes, as long as there are descriptors and blocks. */
    method GrowChunks(buffer: NetBuffer, length: nat) returns (error: Error, ghost rest: nat)
      requires Counted() && Sound(buffer.chunks, memory.Length) && Owned(buffer.chunks) <= Allocated() && length > 0
      modifies `memPoolCurrentUsage, `memPoolMaxUsage, memPoolAllocTable, buffer
      ensures Counted()
      ensures Growing(old(buffer.chunks), buffer.chunks, old(Allocated()), Allocated(), memory.Length,
                      buffer.maxChunkCount, length, rest)
      ensures error == if rest == 0 then NoError
                       else if |buffer.chunks| >= buffer.maxChunkCount then OutOfResources else OutOfMemory
      ensures error == OutOfMemory ==> |Allocated()| == BUFFER_COUNT
    {
      hide Growing, Sound, InUse, NetMem.Counted, Owned;
      ghost var c, before := buffer.chunks, Allocated();
      var left: nat := length;
      GrowStart(c, before, memory.Length, buffer.maxChunkCount, length);
      while |buffer.chunks| < buffer.maxChunkCount && left > 0
        invariant Counted()
        invariant Growing(c, buffer.chunks, before, Allocated(), memory.Length, buffer.maxChunkCount, length, left)
        decreases left
      {
        ghost var held := Allocated();
        var address := MemPoolAlloc(BUFFER_SIZE);
        if address.None? {
          return OutOfMemory, left;
        }
        var n: uint16 := Min(left, BUFFER_SIZE);
        PoolHolds();
        GrowStep(c, buffer.chunks, before, held, memory.Length, buffer.maxChunkCount, length, left,
                 address.value / BUFFER_SIZE);
        buffer.chunks := buffer.chunks + [Chunk(address.value, n, BUFFER_SIZE)];
        left := left - n;
      }
      return if left > 0 then OutOfResources else NoError, left;
    }

    /** Sets the length of a buffer: exactly when its blocks, descriptors and the pool allow for it. */
    method Resize(buffer: NetBuffer, length: nat) returns (error: Error)
      requires Counted() && Sound(buffer.chunks, memory.Length) && Owned(buffer.chunks) <= Allocated()
      modifies `memPoolCurrentUsage, `memPoolMaxUsage, memPoolAllocTable, buffer
      ensures Counted()
      ensures Resized(memory[..], old(buffer.chunks), buffer.chunks, old(Allocated()), Allocated(),
                      buffer.maxChunkCount, length, error)
    {
      hide Resized, Sound, InUse, Owned, Refitted, Growing, Remaining, NetMem.Counted, Capacity, Total;
      ghost var c, a := buffer.chunks, Allocated();
      PoolHolds();
      PoolSize();
      var i, rest := FitChunks(buffer, length);
      ghost var fit := buffer.chunks;
      RefittedSound(c, fit, i, memory.Length);
      RefittedLength(c, fit, i);
      if rest == 0 {
        ReleaseChunks(buffer, i);
        ResizeShrunk(memory[..], c, fit, i, a, buffer.maxChunkCount, length);
        error := NoError;
      } else {
        ghost var left;
        error, left := GrowChunks(buffer, rest);
        PoolSize();
        ResizeGrown(memory[..], c, fit, buffer.chunks, a, Allocated(), buffer.maxChunkCount, length, rest, left, error);
      }
    }

    // -------------------------------------------------------------------------------------------
    // The buffers alive

    ghost predicate GoodBuffer(b: NetBuffer)
      reads b
    {
      && b.block.Some? && b.block.value < BUFFER_COUNT
      && Sound(b.chunks, memory.Length) && b.block.value !in Owned(b.chunks)
    }

    /** The blocks of a buffer: the one that holds its descriptors, and those of its chunks. */
    ghost function OwnedBy(b: NetBuffer): set<nat>
      reads b
    {
      (if b.block.Some? then {b.block.value} else {}) + Owned(b.chunks)
    }

    ghost function Owners(): map<NetBuffer, set<nat>>
      reads `live, live
    {
      map b | b in live :: OwnedBy(b)
    }

    /** The blocks in use are exactly those of the buffers alive, and none belongs to two. */
    ghost predicate Valid()
      reads this, memPoolAllocTable, live
    {
      && Counted()
      && (forall b :: b in live ==> GoodBuffer(b))
      && Partition(Owners(), Allocated())
    }

    constructor (userMemory: nat)
      ensures Valid() && live == {} && Allocated() == {}
      ensures fresh(memory) && fresh(memPoolAllocTable) && memory.Length == BUFFER_COUNT * BUFFER_SIZE + userMemory
    {
      memory := new byte[BUFFER_COUNT * BUFFER_SIZE + userMemory](_ => 0);
      memPoolAllocTable := new bool[BUFFER_COUNT](_ => false);
      memPoolCurrentUsage, memPoolMaxUsage := 0, 0;
      live := {};
      new;
      assert Allocated() == {};
    }

    /** Sets the length of a buffer. */
    method SetLength(buffer: NetBuffer, length: nat) returns (error: Error)
      requires Valid() && buffer in live
      modifies `memPoolCurrentUsage, `memPoolMaxUsage, memPoolAllocTable, buffer
      ensures Valid()
      ensures Resized(memory[..], old(buffer.chunks), buffer.chunks, old(Allocated()), Allocated(),
                      buffer.maxChunkCount, length, error)
    {
      hide Resized, Sound, InUse, Owned, NetMem.Counted, Partition;
      ghost var owners, a := Owners(), Allocated();
      OwnerInside(owners, a, buffer);
      ghost var c := buffer.chunks;
      error := Resize(buffer, length);
      ResizedOwnership(memory[..], c, buffer.chunks, a, Allocated(), buffer.maxChunkCount, length, error);
      assert Owners() == owners[buffer := OwnedBy(buffer)];
      OwnerReplaced(owners, a, buffer, buffer.block.value, Owned(c), Owned(buffer.chunks), Allocated());
    }

    /** Appends memory of the user, which changes nothing about the pool. */
    method AppendTo(buffer: NetBuffer, address: nat, length: nat) returns (error: Error)
      requires Valid() && buffer in live && address + length <= memory.Length
      modifies buffer
      ensures Valid() && OwnedBy(buffer) == old(OwnedBy(buffer))
      ensures Appended(old(buffer.chunks), buffer.chunks, buffer.maxChunkCount, address, length, error)
    {
      hide Sound, InUse, Owned, NetMem.Counted, Partition;
      ghost var owners, c := Owners(), buffer.chunks;
      error := Append(buffer, address, length);
      BorrowingOwnsNothing(c, buffer.chunks, memory.Length);
      assert Owners() == owners;
    }

    /** Appends a stretch of another buffer, which changes nothing about the pool either. */
    method ConcatTo(dest: NetBuffer, src: NetBuffer, srcOffset: nat, length: nat)
      returns (error: Error, ghost n: nat)
      requires Valid() && dest in live && dest != src && InMemory(memory[..], src.chunks)
      modifies dest
      ensures Valid() && OwnedBy(dest) == old(OwnedBy(dest))
      ensures Concatenated(memory[..], old(dest.chunks), dest.chunks, dest.maxChunkCount, Flat(memory[..], src.chunks),
                           srcOffset, length, n, error)
    {
      hide Sound, InUse, Owned, NetMem.Counted, Partition, Spelled, Piece, Total;
      ghost var owners, c := Owners(), dest.chunks;
      SoundInMemory(memory[..], dest.chunks);
      error, n := Concat(memory[..], dest, src, srcOffset, length);
      BorrowingOwnsNothing(c, dest.chunks, memory.Length);
      assert Owners() == owners;
    }

    /** Releases the blocks of a buffer that is not, or not yet, among those alive. */
    method Dispose(buffer: NetBuffer)
      requires Counted() && GoodBuffer(buffer) && OwnedBy(buffer) <= Allocated()
      modifies `memPoolCurrentUsage, `memPoolMaxUsage, memPoolAllocTable, buffer
      ensures Counted() && Allocated() == old(Allocated()) - old(OwnedBy(buffer))
    {
      hide Resized, Sound, InUse, NetMem.Counted;
      ghost var c, a := buffer.chunks, Allocated();
      var error := Resize(buffer, 0);
      ResizedOwnership(memory[..], c, buffer.chunks, a, Allocated(), buffer.maxChunkCount, 0, error);
      assert Allocated() == a - Owned(c);
      BlockAddress(buffer.block.value);
      MemPoolFree(buffer.block.value * BUFFER_SIZE);
    }

    /** Frees a buffer: its blocks, and no others, go back to the pool. */
    method Free(buffer: NetBuffer)
      requires Valid() && buffer in live
      modifies this, memPoolAllocTable, buffer
      ensures Valid() && live == old(live) - {buffer}
      ensures Allocated() == old(Allocated()) - old(OwnedBy(buffer))
    {
      hide Sound, InUse, NetMem.Counted, Partition;
      ghost var owners, a := Owners(), Allocated();
      OwnerInside(owners, a, buffer);
      Dispose(buffer);
      live := live - {buffer};
      assert Owners() == owners - {buffer};
      OwnerRemoved(owners, a, buffer);
    }

    /** Allocates a buffer of the given length. A failure leaves no block behind. */
    method Alloc(length: nat) returns (buffer: NetBuffer?)
      requires Valid()
      modifies this, memPoolAllocTable
      ensures Valid()
      ensures buffer != null <==> Allocatable(|old(Allocated())|, length)
      ensures buffer == null ==> live == old(live) && Allocated() == old(Allocated())
      ensures buffer != null ==>
        && fresh(buffer) && live == old(live) + {buffer}
        && Total(buffer.chunks, |buffer.chunks|) == length && buffer.maxChunkCount == MAX_CHUNK_COUNT
    {
      hide Sound, Owned, InUse, NetMem.Counted, Partition;
      ghost var owners, a := Owners(), Allocated();
      buffer := AllocUnlisted(length);
      if buffer != null {
        ghost var added: NetBuffer := buffer;
        live := live + {added};
        assert Owners() == owners[added := OwnedBy(added)];
        OwnerAdded(owners, a, added, OwnedBy(added));
      }
    }

    /** The allocation proper. */
    method AllocUnlisted(length: nat) returns (buffer: NetBuffer?)
      requires Counted()
      modifies `memPoolCurrentUsage, `memPoolMaxUsage, memPoolAllocTable
      ensures Counted()
      ensures buffer != null <==> Allocatable(|old(Allocated())|, length)
      ensures buffer == null ==> Allocated() == old(Allocated())
      ensures buffer != null ==>
        && fresh(buffer) && GoodBuffer(buffer)
        && OwnedBy(buffer) !! old(Allocated()) && Allocated() == old(Allocated()) + OwnedBy(buffer)
        && Total(buffer.chunks, |buffer.chunks|) == length && buffer.maxChunkCount == MAX_CHUNK_COUNT
    {
      hide Resized, Sound, Owned, Total, InUse, NetMem.Counted, Capacity, Room, Allocatable;
      ghost var a := Allocated();
      FullPool(|a|, length);
      var header := AllocHeader();
      if header == null {
        return null;
      }
      ghost var i, c := header.block.value, header.chunks;
      var error := Resize(header, length);
      ResizedOwnership(memory[..], c, header.chunks, a + {i}, Allocated(), MAX_CHUNK_COUNT, length, error);
      AllocOwnership(a, i, Owned(c), Owned(header.chunks), Allocated());
      AllocRoom(a, i, c, i * BUFFER_SIZE, length);
      if error != NoError {
        Dispose(header);
        return null;
      }
      return header;
    }

    /** A block for the descriptors, the rest of which is the first chunk. */
    method AllocHeader() returns (buffer: NetBuffer?)
      requires Counted()
      modifies `memPoolCurrentUsage, `memPoolMaxUsage, memPoolAllocTable
      ensures Counted() && |old(Allocated())| <= BUFFER_COUNT
      ensures buffer == null <==> |old(Allocated())| == BUFFER_COUNT
      ensures buffer == null ==> Allocated() == old(Allocated())
      ensures buffer != null ==>
        && fresh(buffer) && buffer.block.Some? && buffer.block.value < BUFFER_COUNT
        && buffer.maxChunkCount == MAX_CHUNK_COUNT
        && var i := buffer.block.value;
        && buffer.chunks == [Chunk(i * BUFFER_SIZE + HEADER_SIZE, BUFFER_SIZE - HEADER_SIZE, 0)]
        && Sound(buffer.chunks, memory.Length) && Owned(buffer.chunks) == {}
        && i !in old(Allocated()) && Allocated() == old(Allocated()) + {i}
    {
      hide Sound, Owned, InUse, NetMem.Counted;
      PoolSize();
      var p := MemPoolAlloc(BUFFER_SIZE);
      if p.None? {
        return null;
      }
      PoolHolds();
      FreshChunks(p.value, memory.Length);
      var first := Chunk(p.value + HEADER_SIZE, BUFFER_SIZE - HEADER_SIZE, 0);
      buffer := new NetBuffer(Some(p.value / BUFFER_SIZE), MAX_CHUNK_COUNT, [first]);
    }

    /** Once every buffer has been freed, the whole pool is free. */
    lemma NothingLeaks()
      requires Valid() && live == {}
      ensures memPoolCurrentUsage == 0 && forall i: nat :: i < BUFFER_COUNT ==> !memPoolAllocTable[i]
    {
      assert Allocated() == {};
      assert forall i: nat :: i < BUFFER_COUNT && memPoolAllocTable[i] ==> i in Allocated();
    }

    lemma PoolSize()
      requires Counted()
      ensures |Allocated()| <= BUFFER_COUNT
    {
    }

    lemma PoolHolds()
      requires Counted()
      ensures memory.Length >= BUFFER_COUNT * BUFFER_SIZE
    {
    }
  }

  /** The list `c` grown to `c'` by chunks with blocks of their own; `rest` of `length` bytes are still to come. */
  ghost predicate Growing(c: seq<Chunk>, c': seq<Chunk>, a: set<nat>, a': set<nat>, n: nat, max: nat, length: nat,
                          rest: nat) {
    && |c| <= |c'| && c'[..|c|] == c
    && Sound(c', n)
    && Owned(c) <= Owned(c') && a' == a + Owned(c') && (Owned(c') - Owned(c)) !! a
    && |a'| == |a| + (|c'| - |c|)
    && (|c'| > |c| ==> |c'| <= max && c'[|c'| - 1].length > 0)
    && Total(c', |c'|) + rest == Total(c, |c|) + length
    && (if rest > 0 then length == rest + BUFFER_SIZE * (|c'| - |c|) else length <= BUFFER_SIZE * (|c'| - |c|))
  }

  lemma GrowStart(c: seq<Chunk>, a: set<nat>, n: nat, max: nat, length: nat)
    requires Sound(c, n) && Owned(c) <= a && length > 0
    ensures Growing(c, c, a, a, n, max, length, length)
  {
    assert a + Owned(c) == a;
    assert Owned(c) - Owned(c) == {};
  }

  lemma GrowStep(c: seq<Chunk>, c': seq<Chunk>, a: set<nat>, a': set<nat>, n: nat, max: nat, length: nat, rest: nat,
                 i: nat)
    requires Growing(c, c', a, a', n, max, length, rest) && |c'| < max && rest > 0
    requires i < BUFFER_COUNT && i !in a' && n >= BUFFER_COUNT * BUFFER_SIZE
    ensures var k := Min(rest, BUFFER_SIZE);
      Growing(c, c' + [Chunk(i * BUFFER_SIZE, k, BUFFER_SIZE)], a, a' + {i}, n, max, length, rest - k)
  {
    hide Sound, Owned, Total;
    var k := Min(rest, BUFFER_SIZE);
    var chunk := Chunk(i * BUFFER_SIZE, k, BUFFER_SIZE);
    assert Block(chunk) == {i};
    assert SoundChunk(chunk, n);
    SoundSnoc(c', chunk, n);
    TotalSnoc(c', chunk);
    assert (c' + [chunk])[|c'|] == chunk;
    assert (c' + [chunk])[..|c|] == c'[..|c|];
  }

  /** How many chunks can still be added to `c` when the blocks `a` are allocated. */
  function Room(a: set<nat>, c: seq<Chunk>, max: nat): nat {
    Min(if |a| < BUFFER_COUNT then BUFFER_COUNT - |a| else 0, if |c| < max then max - |c| else 0)
  }

  /** With `used` blocks in use there is one left for the descriptors, which holds the first 1456 bytes, and there
      are enough others, eight of them at most, for the rest. */
  predicate Allocatable(used: nat, length: nat) {
    used < 32 && length <= 1456 + 1536 * Min(31 - used, 8)
  }

  /** A change of length: when it succeeds, what is kept, and which blocks change hands. */
  ghost predicate Resized(memory: seq<byte>, c: seq<Chunk>, c': seq<Chunk>, a: set<nat>, a': set<nat>, max: nat,
                          length: nat, error: Error)
    requires Sound(c, |memory|)
  {
    && Sound(c', |memory|) && InMemory(memory, c) && InMemory(memory, c')
    && (error == NoError <==> length <= Capacity(c) + BUFFER_SIZE * Room(a, c, max))
    && (error == NoError ==> Total(c', |c'|) == length)
    && (length == 0 ==> c' == [])
    && (error == NoError && length > 0 ==> c' != [] && c'[|c'| - 1].length > 0)
    && (error != NoError ==>
          && Total(c, |c|) <= Total(c', |c'|) < length
          && (if error == OutOfMemory then |a'| == BUFFER_COUNT else error == OutOfResources && |c'| >= max))
    && (var n := Min(Total(c', |c'|), Total(c, |c|)); Flat(memory, c')[..n] == Flat(memory, c)[..n])
    && a' == a - Owned(c) + Owned(c')
    && (Owned(c') - Owned(c)) !! a
  }

  lemma ResizedOwnership(memory: seq<byte>, c: seq<Chunk>, c': seq<Chunk>, a: set<nat>, a': set<nat>, max: nat,
                         length: nat, error: Error)
    requires Sound(c, |memory|) && Resized(memory, c, c', a, a', max, length, error)
    ensures Sound(c', |memory|)
    ensures a' == a - Owned(c) + Owned(c') && (Owned(c') - Owned(c)) !! a
    ensures error == NoError <==> length <= Capacity(c) + BUFFER_SIZE * Room(a, c, max)
    ensures error == NoError ==> Total(c', |c'|) == length
    ensures error == NoError && length > 0 ==> c' != [] && c'[|c'| - 1].length > 0
    ensures length == 0 ==> c' == [] && Owned(c') == {}
  {
  }

  lemma FullPool(used: nat, length: nat)
    ensures used == BUFFER_COUNT ==> !Allocatable(used, length)
  {
  }

  /** The room of a buffer with its first chunk only. */
  lemma AllocRoom(a: set<nat>, i: nat, c: seq<Chunk>, p: nat, length: nat)
    requires i !in a && |a| < BUFFER_COUNT && c == [Chunk(p + HEADER_SIZE, BUFFER_SIZE - HEADER_SIZE, 0)]
    ensures length <= Capacity(c) + BUFFER_SIZE * Room(a + {i}, c, MAX_CHUNK_COUNT) <==> Allocatable(|a|, length)
  {
  }

  /** A block and what is owned besides, taken from what was free. */
  lemma AllocOwnership(a: set<nat>, i: nat, s: set<nat>, s': set<nat>, a': set<nat>)
    requires i !in a && s == {} && a' == a + {i} - s + s' && (s' - s) !! (a + {i})
    ensures i !in s' && ({i} + s') !! a
    ensures a' == a + ({i} + s') && a' - ({i} + s') == a
  {
  }

  lemma FreshChunks(p: nat, n: nat)
    requires p + BUFFER_SIZE <= n
    ensures var c := [Chunk(p + HEADER_SIZE, BUFFER_SIZE - HEADER_SIZE, 0)]; Sound(c, n) && Owned(c) == {}
  {
    var c := [Chunk(p + HEADER_SIZE, BUFFER_SIZE - HEADER_SIZE, 0)];
    assert Blocks(c, 1) == Blocks(c, 0) + Block(c[0]);
  }

  lemma BlockAddress(i: nat)
    ensures i * BUFFER_SIZE % BUFFER_SIZE == 0 && i * BUFFER_SIZE / BUFFER_SIZE == i
  {
  }

  // ---------------------------------------------------------------------------------------------
  // Who owns what

  /** Everything in `a` belongs to exactly one owner. */
  ghost predicate Partition<T>(owned: map<T, set<nat>>, a: set<nat>) {
    && (forall x :: x in owned ==> owned[x] <= a)
    && (forall x, y :: x in owned && y in owned && x != y ==> owned[x] !! owned[y])
    && (forall i :: i in a ==> exists x :: x in owned && i in owned[x])
  }

  lemma OwnerInside<T>(owned: map<T, set<nat>>, a: set<nat>, x: T)
    requires Partition(owned, a) && x in owned
    ensures owned[x] <= a
  {
  }

  /** One owner exchanges some of its own for some that were free. */
  lemma OwnerReplaced<T>(owned: map<T, set<nat>>, a: set<nat>, x: T, i: nat, s: set<nat>, s': set<nat>, a': set<nat>)
    requires Partition(owned, a) && x in owned && owned[x] == {i} + s && i !in s
    requires (s' - s) !! a && a' == a - s + s'
    ensures i !in s'
    ensures Partition(owned[x := {i} + s'], a')
  {
    var owned' := owned[x := {i} + s'];
    forall k | k in a' ensures exists y :: y in owned' && k in owned'[y] {
      if k in {i} + s' {
        assert k in owned'[x];
      } else {
        var y :| y in owned && k in owned[y];
        assert y in owned' && k in owned'[y];
      }
    }
  }

  lemma OwnerAdded<T>(owned: map<T, set<nat>>, a: set<nat>, x: T, s: set<nat>)
    requires Partition(owned, a) && x !in owned && s !! a
    ensures Partition(owned[x := s], a + s)
  {
    var owned' := owned[x := s];
    forall k | k in a + s ensures exists y :: y in owned' && k in owned'[y] {
      if k in s {
        assert k in owned'[x];
      } else {
        var y :| y in owned && k in owned[y];
        assert y in owned' && k in owned'[y];
      }
    }
  }

  lemma OwnerRemoved<T>(owned: map<T, set<nat>>, a: set<nat>, x: T)
    requires Partition(owned, a) && x in owned
    ensures Partition(owned - {x}, a - owned[x])
  {
    var owned' := owned - {x};
    forall k | k in a - owned[x] ensures exists y :: y in owned' && k in owned'[y] {
      var y :| y in owned && k in owned[y];
      assert y in owned' && k in owned'[y];
    }
  }

  lemma ResizeShrunk(memory: seq<byte>, c: seq<Chunk>, fit: seq<Chunk>, i: nat, a: set<nat>, max: nat, length: nat)
    requires Sound(c, |memory|) && |memory| >= BUFFER_COUNT * BUFFER_SIZE && Owned(c) <= a
    requires Refitted(c, fit, i) && Total(fit, i) == length <= Capacity(c)
    requires (i > 0 ==> fit[i - 1].length > 0) && (length == 0 ==> i == 0)
    requires Sound(fit[..i], |memory|) && Sound(fit, |memory|)
    ensures Resized(memory, c, fit[..i], a, Remaining(fit, i, |fit|, a), max, length, NoError)
  {
    hide Sound, Refitted, Piece, Block, Blocks, Spelled, Capacity;
    RefittedSound(c, fit, i, |memory|);
    RefittedLength(c, fit, i);
    SoundInMemory(memory, c);
    SoundInMemory(memory, fit);
    SoundInMemory(memory, fit[..i]);
    RefittedFlat(memory, c, fit, i);
    SpelledSame(memory, memory, fit, fit[..i], i);
    assert Blocks(fit, i) == Blocks(c, i) by { RefittedBlocks(c, fit, i); }
    BlocksGrow(c, i, |c|);
  }

  lemma RefittedBlocks(c: seq<Chunk>, fit: seq<Chunk>, i: nat)
    requires Refitted(c, fit, i)
    ensures Blocks(fit, i) == Blocks(c, i)
  {
    BlocksSame(c, fit, i);
  }

  lemma ResizeGrown(memory: seq<byte>, c: seq<Chunk>, fit: seq<Chunk>, c': seq<Chunk>, a: set<nat>, a': set<nat>,
                    max: nat,
                    length: nat, rest: nat, left: nat, error: Error)
    requires Sound(c, |memory|) && |memory| >= BUFFER_COUNT * BUFFER_SIZE && Owned(c) <= a && |a'| <= BUFFER_COUNT
    requires Refitted(c, fit, |c|) && Total(fit, |c|) + rest == length && Total(fit, |c|) == Capacity(c) && rest > 0
    requires Sound(fit, |memory|) && Owned(fit) == Owned(c)
    requires Growing(fit, c', a, a', |memory|, max, rest, left)
    requires error == if left == 0 then NoError else if |c'| >= max then OutOfResources else OutOfMemory
    requires error == OutOfMemory ==> |a'| == BUFFER_COUNT
    ensures Resized(memory, c, c', a, a', max, length, error)
  {
    hide Sound, Refitted, Piece, Block, Owned, Total, Spelled, Capacity;
    SoundInMemory(memory, c);
    SoundInMemory(memory, fit);
    SoundInMemory(memory, c');
    RefittedLength(c, fit, |c|);
    CapacityHolds(c, |memory|);
    RefittedFlat(memory, c, fit, |c|);
    GrownFlat(memory, fit, c');
    assert Flat(memory, fit)[..Total(c, |c|)] == Flat(memory, c)[..Total(c, |c|)];
    assert Flat(memory, c')[..Total(fit, |fit|)][..Total(c, |c|)] == Flat(memory, c')[..Total(c, |c|)];
    assert a + Owned(c') == a - Owned(c) + Owned(c');
    GrownRoom(|fit|, |c'|, a, a', fit, max, rest, left);
  }

  lemma RefittedLength(c: seq<Chunk>, fit: seq<Chunk>, i: nat)
    requires Refitted(c, fit, i)
    ensures i <= |fit| == |c|
  {
  }

  lemma CapacityHolds(c: seq<Chunk>, n: nat)
    requires Sound(c, n)
    ensures HeldChunks(c) && Total(c, |c|) <= Capacity(c)
  {
  }

  /** The bytes still to come after as many chunks as could be added. */
  lemma GrownRoom(k: nat, k': nat, a: set<nat>, a': set<nat>, c: seq<Chunk>, max: nat, rest: nat, left: nat)
    requires |c| == k <= k' && rest > 0 && |a'| == |a| + (k' - k) <= BUFFER_COUNT && (k' > k ==> k' <= max)
    requires if left > 0 then rest == left + BUFFER_SIZE * (k' - k) else rest <= BUFFER_SIZE * (k' - k)
    requires left > 0 ==> k' >= max || |a'| == BUFFER_COUNT
    ensures left == 0 <==> rest <= BUFFER_SIZE * Room(a, c, max)
  {
    var r := Room(a, c, max);
    assert k' - k <= r;
    if left > 0 {
      assert r == k' - k;
    }
  }

  lemma TotalSnoc(c: seq<Chunk>, chunk: Chunk)
    ensures Total(c + [chunk], |c| + 1) == Total(c, |c|) + chunk.length
  {
    TotalSame(c, c + [chunk], |c|);
  }

  lemma InUseFull(table: seq<bool>)
    requires forall i :: 0 <= i < |table| ==> table[i]
    ensures |InUse(table)| == |table|
  {
    if table != [] {
      var rest := table[..|table| - 1];
      InUseFull(rest);
      assert InUse(table) == InUse(rest) + {|rest|};
    }
  }

  predicate HeldChunks(c: seq<Chunk>) {
    forall k :: 0 <= k < |c| && c[k].size > 0 ==> c[k].length <= c[k].size
  }

  /** The adjustment of the chunks `c` after `i` of them: `rest` bytes are still to be accounted for. */
  ghost predicate Fitting(c: seq<Chunk>, c': seq<Chunk>, i: nat, rest: nat, length: nat)
    requires HeldChunks(c)
  {
    && Refitted(c, c', i)
    && Total(c', i) + rest == length
    && (rest > 0 && i < |c| ==> c' == c)
    && (rest > 0 && i == |c| ==> Total(c', i) == Capacity(c))
    && (rest == 0 ==> length <= Capacity(c) && (i > 0 ==> c'[i - 1].length > 0))
  }

  lemma FitStart(c: seq<Chunk>, length: nat, n: nat)
    requires Sound(c, n)
    ensures HeldChunks(c) && Fitting(c, c, 0, length, length)
  {
  }

  lemma FitEnd(c: seq<Chunk>, c': seq<Chunk>, i: nat, rest: nat, length: nat)
    requires HeldChunks(c) && Fitting(c, c', i, rest, length) && (i == |c| || rest == 0)
    ensures Refitted(c, c', i) && Total(c', i) + rest == length
    ensures rest > 0 ==> i == |c'| && Total(c', i) == Capacity(c)
    ensures rest == 0 ==> length <= Capacity(c) && (i > 0 ==> c'[i - 1].length > 0)
  {
  }

  /** One more chunk adjusted. */
  lemma FitStep(c: seq<Chunk>, c': seq<Chunk>, i: nat, n: uint16, rest: nat, length: nat)
    requires HeldChunks(c) && Fitting(c, c', i, rest, length) && i < |c| == |c'| && rest > 0
    requires n == if rest <= c'[i].length then rest
                  else if c'[i].size > 0 && i == |c| - 1 then Min(rest, c'[i].size) else c'[i].length
    ensures n <= rest
    ensures Fitting(c, c'[i := Chunk(c'[i].address, n, c'[i].size)], i + 1, rest - n, length)
  {
    var c1 := c[i := Chunk(c[i].address, n, c[i].size)];
    TotalSame(c, c1, i);
    TotalGrows(c, i, |c| - 1);
    if i + 1 < |c| {
      TotalGrows(c, i + 1, |c| - 1);
    }
  }

  lemma {:induction false} TotalSame(c: seq<Chunk>, c': seq<Chunk>, k: nat)
    requires k <= |c| && k <= |c'| && forall i :: 0 <= i < k ==> c[i].length == c'[i].length
    ensures Total(c, k) == Total(c', k)
  {
    if k > 0 {
      TotalSame(c, c', k - 1);
    }
  }

  /** What remains of the blocks `a` when chunks `i` to `k` have given theirs back. */
  function Remaining(c: seq<Chunk>, i: nat, k: nat, a: set<nat>): set<nat>
    requires i <= k <= |c|
  {
    a - (Blocks(c, k) - Blocks(c, i))
  }

  lemma ReleaseStart(c: seq<Chunk>, i: nat, a: set<nat>)
    requires i <= |c|
    ensures Remaining(c, i, i, a) == a
  {
  }

  /** One more chunk released. */
  lemma ReleaseStep(c: seq<Chunk>, i: nat, k: nat, n: nat, a: set<nat>)
    requires i <= k < |c| && Sound(c, n) && Owned(c) <= a
    ensures if c[k].size > 0 then
        var b := c[k].address / BUFFER_SIZE;
        && c[k].address % BUFFER_SIZE == 0
        && b in Remaining(c, i, k, a)
        && Remaining(c, i, k, a) - {b} == Remaining(c, i, k + 1, a)
      else Remaining(c, i, k, a) == Remaining(c, i, k + 1, a)
  {
    BlocksGrow(c, i, k);
    BlocksGrow(c, k + 1, |c|);
  }

  /** Chunks that borrow memory, as appending and concatenating add them, change nothing about who owns what. */
  lemma {:induction false} BorrowingOwnsNothing(c: seq<Chunk>, c': seq<Chunk>, n: nat)
    requires Sound(c, n) && |c| <= |c'| && c'[..|c|] == c
    requires forall i :: |c| <= i < |c'| ==> c'[i].size == 0 && c'[i].address + c'[i].length <= n
    ensures Sound(c', n) && Owned(c') == Owned(c)
    decreases |c'|
  {
    hide Sound, Owned;
    if |c'| == |c| {
      assert c' == c;
    } else {
      var rest := c'[..|c'| - 1];
      assert rest[..|c|] == c;
      BorrowingOwnsNothing(c, rest, n);
      SoundSnoc(rest, c'[|c'| - 1], n);
      assert rest + [c'[|c'| - 1]] == c';
    }
  }
}
