/** Multi-part buffers: core/net_mem.c, the calls that move data. */
module NetBuffers {
  import opened Common
  import opened ChunkView

  class NetBuffer {
    /** The pool block that holds the descriptors, for a buffer that comes from the pool. */
    const block: Option<nat>
    const maxChunkCount: nat
    /** The descriptors in use. */
    var chunks: seq<Chunk>

    constructor (block: Option<nat>, maxChunkCount: nat, chunks: seq<Chunk>)
      ensures this.block == block && this.maxChunkCount == maxChunkCount && this.chunks == chunks
    {
      this.block, this.maxChunkCount, this.chunks := block, maxChunkCount, chunks;
    }

    method GetLength() returns (length: nat)
      ensures length == Total(chunks, |chunks|)
    {
      length := 0;
      for i := 0 to |chunks|
        invariant length == Total(chunks, i)
      {
        length := length + chunks[i].length;
      }
    }

    /** The address of a data segment, if one chunk holds all of it. */
    method At(ghost memory: seq<byte>, offset: nat, length: nat) returns (data: Option<nat>)
      requires InMemory(memory, chunks)
      ensures data.Some? ==>
        && offset + length <= |Flat(memory, chunks)|
        && data.value + length <= |memory|
        && memory[data.value..data.value + length] == Flat(memory, chunks)[offset..offset + length]
      ensures data.Some? <==> exists k :: 0 <= k < |chunks| && Holds(chunks, k, offset, length)
    {
      hide Piece;
      var rest: nat := offset;
      for i := 0 to |chunks|
        invariant Total(chunks, i) + rest == offset
      {
        ghost var start := Total(chunks, i);
        OneHolder(chunks, i, offset, length);
        if rest < chunks[i].length {
          if rest + length <= chunks[i].length {
            SegmentInPiece(memory, chunks, i, rest, length);
            assert Holds(chunks, i, offset, length);
            return Some(chunks[i].address + rest);
          }
          return None;
        }
        rest := rest - chunks[i].length;
      }
      NoHolder(chunks, offset, length);
      return None;
    }
  }

  /** Chunk `k` holds the byte at `offset` and the rest of the segment. */
  predicate Holds(chunks: seq<Chunk>, k: nat, offset: nat, length: nat)
    requires k < |chunks|
  {
    Total(chunks, k) <= offset < Total(chunks, k + 1) && offset + length <= Total(chunks, k + 1)
  }

  /** Once a chunk ends behind the offset, no other can hold it. */
  lemma OneHolder(chunks: seq<Chunk>, i: nat, offset: nat, length: nat)
    requires i < |chunks| && Total(chunks, i) <= offset
    ensures Total(chunks, i + 1) == Total(chunks, i) + chunks[i].length
    ensures offset < Total(chunks, i + 1) ==>
      forall k :: 0 <= k < |chunks| && Holds(chunks, k, offset, length) ==> k == i
  {
    if offset < Total(chunks, i + 1) {
      forall k | 0 <= k < |chunks| && Holds(chunks, k, offset, length) ensures k == i {
        if k < i {
          TotalGrows(chunks, k + 1, i);
        } else if k > i {
          TotalGrows(chunks, i + 1, k);
        }
      }
    }
  }

  lemma NoHolder(chunks: seq<Chunk>, offset: nat, length: nat)
    requires Total(chunks, |chunks|) <= offset
    ensures forall k :: 0 <= k < |chunks| ==> !Holds(chunks, k, offset, length)
  {
    forall k | 0 <= k < |chunks| ensures !Holds(chunks, k, offset, length) {
      TotalGrows(chunks, k + 1, |chunks|);
    }
  }

  lemma SegmentInPiece(memory: seq<byte>, chunks: seq<Chunk>, i: nat, rest: nat, length: nat)
    requires i < |chunks| && InMemory(memory, chunks) && rest + length <= chunks[i].length
    ensures var a, t := chunks[i].address + rest, Total(chunks, i) + rest;
      t + length <= |Flat(memory, chunks)| && memory[a..a + length] == Flat(memory, chunks)[t..t + length]
  {
    hide Spelled, Total, Flat;
    SpelledPiece(memory, chunks, i);
    var c, t := chunks[i], Total(chunks, i);
    SliceOfSlice(memory, c.address, c.address + c.length, rest, rest + length);
    SliceOfSlice(Flat(memory, chunks), t, t + c.length, rest, rest + length);
  }

  // ---------------------------------------------------------------------------------------------
  // Reading and writing

  /** One more chunk read. */
  lemma ReadStep(memory: seq<byte>, chunks: seq<Chunk>, i: nat, offset: nat, length: nat)
    requires i < |chunks| && InMemory(memory, chunks)
    requires |Clip(Spelled(memory, chunks, i), offset, length)| < length
    ensures Total(chunks, i + 1) == Total(chunks, i) + chunks[i].length
    ensures var done := Clip(Spelled(memory, chunks, i), offset, length);
      var r := Skip(Total(chunks, i), offset);
      Clip(Spelled(memory, chunks, i + 1), offset, length)
        == if r < chunks[i].length then
             var n := Min(length - |done|, chunks[i].length - r);
             done + memory[chunks[i].address + r..chunks[i].address + r + n]
           else done
  {
    hide Clip;
    var done := Clip(Spelled(memory, chunks, i), offset, length);
    var r, c := Skip(Total(chunks, i), offset), chunks[i];
    ClipMore(Spelled(memory, chunks, i), Piece(memory, c), offset, length);
    ClipOfPiece(memory, c, r, length - |done|);
    assert done + [] == done;
  }

  lemma ClipOfPiece(memory: seq<byte>, c: Chunk, r: nat, n: nat)
    requires c.address + c.length <= |memory|
    ensures Clip(Piece(memory, c), r, n) ==
      if r < c.length then memory[c.address + r..c.address + r + Min(n, c.length - r)] else []
  {
    if r < c.length {
      SliceOfSlice(memory, c.address, c.address + c.length, r, r + Min(n, c.length - r));
    }
  }

  lemma ReadDone(memory: seq<byte>, chunks: seq<Chunk>, i: nat, offset: nat, length: nat)
    requires i <= |chunks| && InMemory(memory, chunks)
    requires i == |chunks| || |Clip(Spelled(memory, chunks, i), offset, length)| == length
    ensures Clip(Flat(memory, chunks), offset, length) == Clip(Spelled(memory, chunks, i), offset, length)
  {
    SpelledPrefix(memory, chunks, i, |chunks|);
    if length > 0 && i < |chunks| {
      ClipDone(Spelled(memory, chunks, i), Flat(memory, chunks), offset, length);
    }
  }

  /** Copies bytes out of a buffer: as many of those wanted as there are. */
  method Read(dest: array<byte>, at: nat, memory: array<byte>, src: NetBuffer, srcOffset: nat, length: nat)
    returns (total: nat)
    requires dest != memory && at + length <= dest.Length && InMemory(memory[..], src.chunks)
    modifies dest
    ensures total == |Clip(Flat(memory[..], src.chunks), srcOffset, length)|
    ensures dest[..] == Overwritten(old(dest[..]), at, Clip(Flat(memory[..], src.chunks), srcOffset, length))
  {
    hide Clip, Spelled, Piece, Total, Reach, Skip, Overwritten;
    ghost var m, d, chunks := memory[..], dest[..], src.chunks;
    var i, offset := 0, srcOffset;
    total := 0;
    ReadStart(m, chunks, srcOffset, length);
    assert Overwritten(d, at, []) == d by { NothingRead(d, at); }
    while i < |src.chunks| && total < length
      invariant i <= |chunks| && offset == Skip(Total(chunks, i), srcOffset)
      invariant memory[..] == m
      invariant total == |Clip(Spelled(m, chunks, i), srcOffset, length)| <= length
      invariant dest[..] == Overwritten(d, at, Clip(Spelled(m, chunks, i), srcOffset, length))
    {
      var c := src.chunks[i];
      ReadStep(m, chunks, i, srcOffset, length);
      ReachStep(Total(chunks, i), c.length, srcOffset, length);
      if offset < c.length {
        var n := Min(length - total, c.length - offset);
        ReadChunk(dest, at, total, memory, c.address + offset, n, d, Clip(Spelled(m, chunks, i), srcOffset, length));
        total := total + n;
        offset := 0;
      } else {
        offset := offset - c.length;
      }
      i := i + 1;
    }
    ReadDone(m, chunks, i, srcOffset, length);
  }

  /** Copies `n` more bytes behind the `total` already read. */
  method ReadChunk(dest: array<byte>, at: nat, total: nat, memory: array<byte>, p: nat, n: nat,
                   ghost d: seq<byte>, ghost before: seq<byte>)
    requires dest != memory && |d| == dest.Length && at + total + n <= dest.Length && p + n <= memory.Length
    requires |before| == total && dest[..] == Overwritten(d, at, before)
    modifies dest
    ensures dest[..] == Overwritten(d, at, before + memory[p..p + n])
  {
    hide Overwritten;
    ghost var e := dest[..];
    Move(dest, at + total, memory, p, n);
    MovedIsOverwritten(e, at + total, memory[p..p + n]);
    OverwrittenTwice(d, at, before, memory[p..p + n]);
  }

  lemma ReadStart(memory: seq<byte>, chunks: seq<Chunk>, offset: nat, length: nat)
    requires InMemory(memory, chunks)
    ensures Clip(Spelled(memory, chunks, 0), offset, length) == []
    ensures Skip(Total(chunks, 0), offset) == offset
  {
  }

  lemma NothingRead(d: seq<byte>, at: nat)
    ensures Overwritten(d, at, []) == d
  {
  }

  lemma MovedIsOverwritten(s: seq<byte>, at: nat, d: seq<byte>)
    requires at + |d| <= |s|
    ensures s[..at] + d + s[at + |d|..] == Overwritten(s, at, d)
  {
  }

  /** Copies `n` bytes into chunk `k`, from its byte `r` on. */
  method WriteChunk(memory: array<byte>, chunks: seq<Chunk>, k: nat, r: nat, src: array<byte>, from: nat, n: nat)
    requires k < |chunks| && InMemory(memory[..], chunks) && Disjoint(chunks)
    requires r + n <= chunks[k].length && from + n <= src.Length
    modifies memory
    ensures memory[..] == Overwritten(old(memory[..]), chunks[k].address + r, old(src[from..from + n]))
    ensures InMemory(memory[..], chunks)
    ensures Total(chunks, k) + r + n <= Total(chunks, |chunks|)
    ensures Flat(memory[..], chunks)
      == Overwritten(Flat(old(memory[..]), chunks), Total(chunks, k) + r, old(src[from..from + n]))
    ensures SameOutside(old(memory[..]), memory[..], chunks)
  {
    hide Disjoint, SameOutside, Total, Spelled, Overwritten;
    ghost var m, data := memory[..], src[from..from + n];
    var p := chunks[k].address + r;
    Move(memory, p, src, from, n);
    MovedIsOverwritten(m, p, data);
    SpelledWritten(m, chunks, |chunks|, k, p, data);
    WriteStaysInside(m, chunks, k, p, data);
  }

  /** Copies bytes into a buffer: as many of those given as there is room for behind the offset. */
  method Write(memory: array<byte>, dest: NetBuffer, destOffset: nat, src: array<byte>, at: nat, length: nat)
    returns (total: nat)
    requires src != memory && at + length <= src.Length && InMemory(memory[..], dest.chunks) && Disjoint(dest.chunks)
    modifies memory
    ensures InMemory(memory[..], dest.chunks) && SameOutside(old(memory[..]), memory[..], dest.chunks)
    ensures total == |Clip(Flat(old(memory[..]), dest.chunks), destOffset, length)|
    ensures Flat(memory[..], dest.chunks) ==
      Overwritten(Flat(old(memory[..]), dest.chunks), destOffset, src[at..at + total])
  {
    hide Spelled, Piece, Disjoint, SameOutside, Overwritten, Reach, Skip, Total, Clip, InMemory;
    ghost var m, chunks := memory[..], dest.chunks;
    ghost var flat := Flat(m, chunks);
    var i, offset := 0, destOffset;
    total := 0;
    NothingWritten(m, chunks, destOffset);
    assert src[at..at] == [];
    while i < |dest.chunks| && total < length
      invariant i <= |chunks| && offset == Skip(Total(chunks, i), destOffset)
      invariant total == Reach(Total(chunks, i), destOffset, length)
      invariant memory.Length == |m| && InMemory(memory[..], chunks) && SameOutside(m, memory[..], chunks)
      invariant total == 0 || destOffset + total <= |flat|
      invariant Flat(memory[..], chunks) == Overwritten(flat, destOffset, src[at..at + total])
    {
      var c := dest.chunks[i];
      ghost var before := memory[..];
      TotalStep(chunks, i);
      ReachStep(Total(chunks, i), c.length, destOffset, length);
      if offset < c.length {
        var n := Min(length - total, c.length - offset);
        WriteChunk(memory, dest.chunks, i, offset, src, at + total, n);
        WriteMore(flat, destOffset, src[..], at, total, n);
        SameOutsideTwice(m, before, memory[..], chunks);
        total := total + n;
        offset := 0;
      } else {
        offset := offset - c.length;
      }
      i := i + 1;
    }
    ReachDone(chunks, i, destOffset, length);
  }

  lemma TotalStep(chunks: seq<Chunk>, i: nat)
    requires i < |chunks|
    ensures Total(chunks, i + 1) == Total(chunks, i) + chunks[i].length <= Total(chunks, |chunks|)
  {
    TotalGrows(chunks, i + 1, |chunks|);
  }

  lemma ReachDone(chunks: seq<Chunk>, i: nat, offset: nat, length: nat)
    requires i <= |chunks| && (i == |chunks| || Reach(Total(chunks, i), offset, length) == length)
    ensures Reach(Total(chunks, |chunks|), offset, length) == Reach(Total(chunks, i), offset, length)
  {
    TotalGrows(chunks, i, |chunks|);
  }

  lemma NothingWritten(memory: seq<byte>, chunks: seq<Chunk>, offset: nat)
    requires InMemory(memory, chunks)
    ensures Overwritten(Flat(memory, chunks), offset, []) == Flat(memory, chunks)
    ensures SameOutside(memory, memory, chunks)
    ensures Skip(Total(chunks, 0), offset) == offset
    ensures forall length: nat :: Reach(Total(chunks, 0), offset, length) == 0
  {
  }

  /** A write of `total` bytes of `src` from `at` on, carried on for `n` more. */
  lemma WriteMore(flat: seq<byte>, offset: nat, src: seq<byte>, at: nat, total: nat, n: nat)
    requires at + total + n <= |src| && offset + total + n <= |flat|
    ensures Overwritten(Overwritten(flat, offset, src[at..at + total]), offset + total, src[at + total..at + total + n])
      == Overwritten(flat, offset, src[at..at + (total + n)])
  {
    hide Overwritten;
    OverwrittenTwice(flat, offset, src[at..at + total], src[at + total..at + total + n]);
    assert src[at..at + total] + src[at + total..at + total + n] == src[at..at + (total + n)];
  }

  // ---------------------------------------------------------------------------------------------
  // Copying between buffers

  /** The chunk that holds the byte at an offset, and its place there. */
  method SeekChunk(buffer: NetBuffer, offset: nat) returns (i: nat, rest: nat)
    ensures i <= |buffer.chunks| && Total(buffer.chunks, i) + rest == offset
    ensures i < |buffer.chunks| ==> rest < buffer.chunks[i].length
    ensures i < |buffer.chunks| <==> offset < Total(buffer.chunks, |buffer.chunks|)
  {
    i, rest := 0, offset;
    while i < |buffer.chunks|
      invariant i <= |buffer.chunks| && Total(buffer.chunks, i) + rest == offset
    {
      TotalStep(buffer.chunks, i);
      if rest < buffer.chunks[i].length {
        return;
      }
      rest := rest - buffer.chunks[i].length;
      i := i + 1;
    }
  }

  /** A position in a list of chunks, `offset` bytes into all of it. */
  predicate AtByte(chunks: seq<Chunk>, i: nat, rest: nat, offset: nat) {
    && i <= |chunks|
    && Total(chunks, i) + rest == offset
    && (rest == 0 || (i < |chunks| && rest < chunks[i].length))
  }

  /** `n` bytes further on. */
  lemma AtByteStep(chunks: seq<Chunk>, i: nat, rest: nat, offset: nat, n: nat)
    requires AtByte(chunks, i, rest, offset) && i < |chunks| && rest + n <= chunks[i].length
    ensures if rest + n >= chunks[i].length then AtByte(chunks, i + 1, 0, offset + n)
            else AtByte(chunks, i, rest + n, offset + n)
    ensures offset + n <= Total(chunks, |chunks|)
  {
    TotalStep(chunks, i);
  }

  /** What has been copied so far, from one flat string to the other. */
  ghost predicate Copied(memory: seq<byte>, dest: seq<Chunk>, src: seq<Chunk>, d: seq<byte>, s: seq<byte>,
                         destOffset: nat, srcOffset: nat, done: nat) {
    && InMemory(memory, dest) && InMemory(memory, src)
    && destOffset + done <= |d| && srcOffset + done <= |s|
    && Flat(memory, src) == s
    && Flat(memory, dest) == Overwritten(d, destOffset, s[srcOffset..srcOffset + done])
  }

  /** Copies a stretch that lies in one chunk of each buffer. */
  method CopyChunk(memory: array<byte>, dest: NetBuffer, i: nat, p: nat, src: NetBuffer, j: nat, q: nat, n: nat,
                   ghost d: seq<byte>, ghost s: seq<byte>, ghost destOffset: nat, ghost srcOffset: nat, ghost done: nat)
    requires i < |dest.chunks| && p + n <= dest.chunks[i].length && Total(dest.chunks, i) + p == destOffset + done
    requires j < |src.chunks| && q + n <= src.chunks[j].length && Total(src.chunks, j) + q == srcOffset + done
    requires Disjoint(dest.chunks) && AllApart(dest.chunks, src.chunks)
    requires Copied(memory[..], dest.chunks, src.chunks, d, s, destOffset, srcOffset, done)
    modifies memory
    ensures Copied(memory[..], dest.chunks, src.chunks, d, s, destOffset, srcOffset, done + n)
    ensures SameOutside(old(memory[..]), memory[..], dest.chunks)
  {
    hide Overwritten, Spelled, Total, Piece, Disjoint, SameOutside, Flat;
    ghost var m := memory[..];
    SegmentInPiece(m, src.chunks, j, q, n);
    FlatElsewhereOf(m, dest.chunks, src.chunks, i, dest.chunks[i].address + p,
                    m[src.chunks[j].address + q..src.chunks[j].address + q + n]);
    WriteChunk(memory, dest.chunks, i, p, memory, src.chunks[j].address + q, n);
    WriteMore(d, destOffset, s, srcOffset, done, n);
  }

  lemma FlatElsewhereOf(memory: seq<byte>, dest: seq<Chunk>, others: seq<Chunk>, i: nat, at: nat, d: seq<byte>)
    requires i < |dest| && AllApart(dest, others) && InMemory(memory, others) && InMemory(memory, dest)
    requires dest[i].address <= at && at + |d| <= dest[i].address + dest[i].length
    ensures var m' := Overwritten(memory, at, d); InMemory(m', others) && Flat(m', others) == Flat(memory, others)
  {
    hide Overwritten, Spelled, Piece, Flat;
    FlatElsewhere(memory, others, dest[i], at, d);
  }

  /** Copies bytes from one buffer to another that shares no memory with it: as many of those wanted as
      there are and as fit. Empty chunks on either side are passed over. */
  method Copy(memory: array<byte>, dest: NetBuffer, destOffset: nat, src: NetBuffer, srcOffset: nat, length: nat)
    returns (error: Error)
    requires InMemory(memory[..], dest.chunks) && InMemory(memory[..], src.chunks)
    requires Disjoint(dest.chunks) && AllApart(dest.chunks, src.chunks)
    modifies memory
    ensures InMemory(memory[..], dest.chunks) && InMemory(memory[..], src.chunks)
    ensures SameOutside(old(memory[..]), memory[..], dest.chunks)
    ensures Flat(memory[..], src.chunks) == Flat(old(memory[..]), src.chunks)
    ensures var d, s := Flat(old(memory[..]), dest.chunks), Flat(old(memory[..]), src.chunks);
      if destOffset >= |d| || srcOffset >= |s| then error == InvalidParameter && Flat(memory[..], dest.chunks) == d
      else
        var n := Min(length, Min(|d| - destOffset, |s| - srcOffset));
        && error == (if n == length then NoError else Failure)
        && Flat(memory[..], dest.chunks) == Overwritten(d, destOffset, s[srcOffset..srcOffset + n])
  {
    hide Overwritten, Spelled, Piece, Disjoint, SameOutside, Total, AllApart;
    ghost var m := memory[..];
    ghost var d, s := Flat(m, dest.chunks), Flat(m, src.chunks);
    NothingWritten(m, dest.chunks, destOffset);
    var i: nat, p: nat := SeekChunk(dest, destOffset);
    if i >= |dest.chunks| {
      return InvalidParameter;
    }
    var j: nat, q: nat := SeekChunk(src, srcOffset);
    if j >= |src.chunks| {
      return InvalidParameter;
    }
    var left: nat := length;
    assert s[srcOffset..srcOffset + 0] == [];
    while left > 0 && i < |dest.chunks| && j < |src.chunks|
      invariant left <= length && memory.Length == |m|
      invariant AtByte(dest.chunks, i, p, destOffset + (length - left))
      invariant AtByte(src.chunks, j, q, srcOffset + (length - left))
      invariant Copied(memory[..], dest.chunks, src.chunks, d, s, destOffset, srcOffset, length - left)
      invariant SameOutside(m, memory[..], dest.chunks)
      decreases left + (|dest.chunks| - i) + (|src.chunks| - j)
    {
      var n := Min(left, dest.chunks[i].length - p);
      n := Min(n, src.chunks[j].length - q);
      ghost var before := memory[..];
      CopyChunk(memory, dest, i, p, src, j, q, n, d, s, destOffset, srcOffset, length - left);
      SameOutsideTwice(m, before, memory[..], dest.chunks);
      AtByteStep(dest.chunks, i, p, destOffset + (length - left), n);
      AtByteStep(src.chunks, j, q, srcOffset + (length - left), n);
      p, q, left := p + n, q + n, left - n;
      if p >= dest.chunks[i].length {
        p, i := 0, i + 1;
      }
      if q >= src.chunks[j].length {
        q, j := 0, j + 1;
      }
    }
    return if left > 0 then Failure else NoError;
  }

  // ---------------------------------------------------------------------------------------------
  // Adding chunks

  /** What has been added to a buffer's chunks, which borrow the memory of another. */
  ghost predicate Added(memory: seq<byte>, chunks: seq<Chunk>, chunks': seq<Chunk>, bytes: seq<byte>) {
    && |chunks| <= |chunks'| && chunks'[..|chunks|] == chunks
    && (forall i :: |chunks| <= i < |chunks'| ==> chunks'[i].size == 0)
    && InMemory(memory, chunks) && InMemory(memory, chunks')
    && Flat(memory, chunks') == Flat(memory, chunks) + bytes
  }

  lemma AddedMore(memory: seq<byte>, chunks: seq<Chunk>, chunks': seq<Chunk>, bytes: seq<byte>, c: Chunk)
    requires Added(memory, chunks, chunks', bytes) && c.size == 0 && c.address + c.length <= |memory|
    ensures Added(memory, chunks, chunks' + [c], bytes + Piece(memory, c))
  {
    hide Spelled, Piece, Flat;
    FlatSnoc(memory, chunks', c);
    ConcatAssoc(Flat(memory, chunks), bytes, Piece(memory, c));
    assert (chunks' + [c])[..|chunks|] == chunks'[..|chunks|];
  }

  lemma AddedNone(memory: seq<byte>, chunks: seq<Chunk>)
    requires InMemory(memory, chunks)
    ensures Added(memory, chunks, chunks, [])
  {
    assert Flat(memory, chunks) + [] == Flat(memory, chunks);
  }

  /** What becomes of `chunks` when the stretch of `s` that is `length` bytes long from `srcOffset` on is to be
      appended: it falls short only when `s` ends or no descriptor is left. */
  ghost predicate Concatenated(memory: seq<byte>, chunks: seq<Chunk>, chunks': seq<Chunk>, maxChunkCount: nat,
                               s: seq<byte>, srcOffset: nat, length: nat, n: nat, error: Error) {
    if srcOffset >= |s| then error == InvalidParameter && chunks' == chunks
    else
      && n <= Min(length, |s| - srcOffset)
      && Added(memory, chunks, chunks', s[srcOffset..srcOffset + n])
      && (n < Min(length, |s| - srcOffset) ==> |chunks'| >= maxChunkCount)
      && (|chunks'| > |chunks| ==> |chunks'| <= maxChunkCount)
      && error == if n == length then NoError else Failure
  }

  /** Each of the chunks `added` stands for part of the next of `src`, and all but the last for the rest of it. */
  ghost predicate Shares(src: seq<Chunk>, added: seq<Chunk>) {
    exists j: nat :: SharesFrom(src, j, added)
  }

  predicate SharesFrom(src: seq<Chunk>, j: nat, added: seq<Chunk>) {
    && j + |added| <= |src|
    && forall i :: 0 <= i < |added| ==>
         && src[j + i].address <= added[i].address && added[i].size == 0
         && (if i < |added| - 1 then End(added[i]) == End(src[j + i]) else End(added[i]) <= End(src[j + i]))
  }

  function End(c: Chunk): nat {
    c.address + c.length
  }

  /** The last of them, too, stands for the rest of its chunk. */
  predicate ToTheEnd(src: seq<Chunk>, j: nat, added: seq<Chunk>) {
    added != [] && j + |added| <= |src| ==> End(added[|added| - 1]) == End(src[j + |added| - 1])
  }

  lemma SharesNone(src: seq<Chunk>, j: nat)
    ensures j <= |src| ==> SharesFrom(src, j, [])
  {
  }

  lemma SharesMore(src: seq<Chunk>, j: nat, added: seq<Chunk>, c: Chunk)
    requires SharesFrom(src, j, added) && ToTheEnd(src, j, added) && j + |added| < |src|
    requires src[j + |added|].address <= c.address && End(c) <= End(src[j + |added|]) && c.size == 0
    ensures SharesFrom(src, j, added + [c])
    ensures End(c) == End(src[j + |added|]) ==> ToTheEnd(src, j, added + [c])
  {
  }

  /** What becomes of `chunks` when a chunk of the user is to be appended: its length is kept in 16 bits. */
  predicate Appended(chunks: seq<Chunk>, chunks': seq<Chunk>, maxChunkCount: nat, address: nat, length: nat,
                     error: Error) {
    if |chunks| >= maxChunkCount then error == Failure && chunks' == chunks
    else error == NoError && chunks' == chunks + [Chunk(address, length % 0x1_0000, 0)]
  }

  /** Adds chunks that stand for part of another buffer. What is added falls short of what was wanted only
      when the other buffer ends or no descriptors are left. */
  method Concat(ghost memory: seq<byte>, dest: NetBuffer, src: NetBuffer, srcOffset: nat, length: nat)
    returns (error: Error, ghost n: nat)
    requires dest != src && InMemory(memory, dest.chunks) && InMemory(memory, src.chunks)
    modifies dest
    ensures Concatenated(memory, old(dest.chunks), dest.chunks, dest.maxChunkCount, Flat(memory, src.chunks),
                         srcOffset, length, n, error)
    ensures old(dest.chunks) <= dest.chunks && Shares(src.chunks, dest.chunks[|old(dest.chunks)|..])
  {
    hide Spelled, Piece, Total, Added, InMemory, SharesFrom;
    ghost var s, chunks := Flat(memory, src.chunks), dest.chunks;
    n := 0;
    var j: nat, offset: nat := SeekChunk(src, srcOffset);
    ghost var j0 := j;
    assert chunks[|chunks|..] == [];
    SharesNone(src.chunks, 0);
    if j >= |src.chunks| {
      return InvalidParameter, 0;
    }
    var left: nat := length;
    AddedNone(memory, chunks);
    SharesNone(src.chunks, j);
    assert s[srcOffset..srcOffset + n] == [];
    while left > 0 && |dest.chunks| < dest.maxChunkCount && j < |src.chunks|
      invariant left + n == length && srcOffset + n <= |s| && src.chunks == old(src.chunks)
      invariant AtByte(src.chunks, j, offset, srcOffset + n) || left == 0
      invariant Added(memory, chunks, dest.chunks, s[srcOffset..srcOffset + n])
      invariant chunks <= dest.chunks && j == j0 + |dest.chunks| - |chunks|
      invariant SharesFrom(src.chunks, j0, dest.chunks[|chunks|..])
      invariant left > 0 ==> ToTheEnd(src.chunks, j0, dest.chunks[|chunks|..])
      invariant |dest.chunks| > |chunks| ==> |dest.chunks| <= dest.maxChunkCount
      decreases |src.chunks| - j
    {
      var c := src.chunks[j];
      var k := Min(left, c.length - offset);
      ConcatStep(memory, src.chunks, j, offset, srcOffset, n, k);
      AddedMore(memory, chunks, dest.chunks, s[srcOffset..srcOffset + n], Chunk(c.address + offset, k, 0));
      ghost var added := dest.chunks[|chunks|..];
      SharesMore(src.chunks, j0, added, Chunk(c.address + offset, k, 0));
      dest.chunks := dest.chunks + [Chunk(c.address + offset, k, 0)];
      assert dest.chunks[|chunks|..] == added + [Chunk(c.address + offset, k, 0)];
      left := left - k;
      n := n + k;
      offset := 0;
      j := j + 1;
    }
    return if left > 0 then Failure else NoError, n;
  }

  /** The next chunk's share of what is wanted. */
  lemma ConcatStep(memory: seq<byte>, chunks: seq<Chunk>, j: nat, rest: nat, offset: nat, n: nat, k: nat)
    requires j < |chunks| && InMemory(memory, chunks) && AtByte(chunks, j, rest, offset + n)
    requires rest + k <= chunks[j].length
    ensures var s := Flat(memory, chunks);
      && offset + n + k <= |s|
      && chunks[j].address + rest + k <= |memory|
      && s[offset..offset + n] + Piece(memory, Chunk(chunks[j].address + rest, k, 0)) == s[offset..offset + (n + k)]
      && (rest + k == chunks[j].length ==> AtByte(chunks, j + 1, 0, offset + (n + k)))
  {
    hide Spelled, Total, Flat;
    var s := Flat(memory, chunks);
    TotalStep(chunks, j);
    SegmentInPiece(memory, chunks, j, rest, k);
    assert s[offset..offset + n] + s[offset + n..offset + n + k] == s[offset..offset + (n + k)];
  }

  /** Adds a chunk that stands for memory of the user's. Its length is kept in 16 bits. */
  method Append(dest: NetBuffer, address: nat, length: nat) returns (error: Error)
    modifies dest
    ensures Appended(old(dest.chunks), dest.chunks, dest.maxChunkCount, address, length, error)
  {
    if |dest.chunks| >= dest.maxChunkCount {
      return Failure;
    }
    dest.chunks := dest.chunks + [Chunk(address, length % 0x1_0000, 0)];
    return NoError;
  }

  /** Appending adds the user's bytes exactly when their number fits 16 bits. */
  lemma AppendExactly(memory: seq<byte>, chunks: seq<Chunk>, address: nat, length: nat)
    requires InMemory(memory, chunks) && address + length <= |memory|
    ensures var chunks' := chunks + [Chunk(address, length % 0x1_0000, 0)];
      && InMemory(memory, chunks')
      && (Flat(memory, chunks') == Flat(memory, chunks) + memory[address..address + length] <==> length < 0x1_0000)
  {
    hide Spelled;
    FlatSnoc(memory, chunks, Chunk(address, length % 0x1_0000, 0));
    if length >= 0x1_0000 {
      assert |memory[address..address + length % 0x1_0000]| != |memory[address..address + length]|;
    }
  }

  /** Such a call: of 65536 bytes, none are added, although the call succeeds. */
  lemma AppendExample(memory: seq<byte>, chunks: seq<Chunk>, address: nat)
    requires InMemory(memory, chunks) && address + 0x1_0000 <= |memory|
    ensures var chunks' := chunks + [Chunk(address, 0x1_0000 % 0x1_0000, 0)];
      InMemory(memory, chunks') && Flat(memory, chunks') == Flat(memory, chunks)
  {
    hide Spelled;
    FlatSnoc(memory, chunks, Chunk(address, 0, 0));
    assert memory[address..address] == [] && Flat(memory, chunks) + [] == Flat(memory, chunks);
  }
}
