/** Which pool blocks the chunks of a buffer own, and what resizing makes of a list of chunks. */
module BlockOwnership {
  import opened Common
  import opened ChunkView

  const BUFFER_COUNT := 32
  const BUFFER_SIZE: uint16 := 1536

  /** The pool block that a chunk owns, if any. */
  function Block(c: Chunk): set<nat> {
    if c.size > 0 then {c.address / BUFFER_SIZE} else {}
  }

  /** The blocks that the first `k` chunks own. */
  function Blocks(chunks: seq<Chunk>, k: nat): set<nat>
    requires k <= |chunks|
  {
    if k == 0 then {} else Blocks(chunks, k - 1) + Block(chunks[k - 1])
  }

  function Owned(chunks: seq<Chunk>): set<nat> {
    Blocks(chunks, |chunks|)
  }

  /** A chunk lies in memory of `n` bytes; one that owns a block starts with it and stays inside. */
  predicate SoundChunk(c: Chunk, n: nat) {
    && c.address + c.length <= n
    && (c.size > 0 ==>
          && c.size == BUFFER_SIZE && c.length <= BUFFER_SIZE
          && c.address % BUFFER_SIZE == 0 && c.address / BUFFER_SIZE < BUFFER_COUNT)
  }

  /** All chunks are sound, and no block is owned twice. */
  predicate Sound(chunks: seq<Chunk>, n: nat) {
    forall k :: 0 <= k < |chunks| ==> SoundChunk(chunks[k], n) && Block(chunks[k]) !! Blocks(chunks, k)
  }

  /** Both lists own the same blocks. */
  lemma {:induction false} BlocksSame(c: seq<Chunk>, c': seq<Chunk>, k: nat)
    requires k <= |c| && k <= |c'|
    requires forall i :: 0 <= i < k ==> c[i].address == c'[i].address && c[i].size == c'[i].size
    ensures Blocks(c, k) == Blocks(c', k)
  {
    if k > 0 {
      BlocksSame(c, c', k - 1);
    }
  }

  lemma {:induction false} BlocksGrow(chunks: seq<Chunk>, j: nat, k: nat)
    requires j <= k <= |chunks|
    ensures Blocks(chunks, j) <= Blocks(chunks, k)
  {
    if j < k {
      BlocksGrow(chunks, j, k - 1);
    }
  }

  lemma {:induction false} BlocksInPool(chunks: seq<Chunk>, n: nat, k: nat)
    requires Sound(chunks, n) && k <= |chunks|
    ensures forall i :: i in Blocks(chunks, k) ==> i < BUFFER_COUNT
  {
    if k > 0 {
      BlocksInPool(chunks, n, k - 1);
    }
  }

  lemma SnocBlocks(chunks: seq<Chunk>, c: Chunk, k: nat)
    requires k <= |chunks|
    ensures Blocks(chunks + [c], k) == Blocks(chunks, k)
  {
    BlocksSame(chunks, chunks + [c], k);
  }

  lemma OwnedSnoc(chunks: seq<Chunk>, c: Chunk)
    ensures Owned(chunks + [c]) == Owned(chunks) + Block(c)
  {
    hide Block;
    SnocBlocks(chunks, c, |chunks|);
  }

  /** One more chunk. */
  lemma SoundSnoc(chunks: seq<Chunk>, c: Chunk, n: nat)
    requires Sound(chunks, n) && SoundChunk(c, n) && Block(c) !! Owned(chunks)
    ensures Sound(chunks + [c], n) && Owned(chunks + [c]) == Owned(chunks) + Block(c)
  {
    hide SoundChunk, Block, Blocks;
    var d := chunks + [c];
    forall k | 0 <= k < |d| ensures SoundChunk(d[k], n) && Block(d[k]) !! Blocks(d, k) {
      SnocBlocks(chunks, c, k);
      if k < |chunks| {
        assert d[k] == chunks[k];
      }
    }
    OwnedSnoc(chunks, c);
  }

  /** The same chunks with other lengths. */
  lemma SoundRefit(c: seq<Chunk>, c': seq<Chunk>, n: nat)
    requires Sound(c, n) && |c'| <= |c|
    requires forall i :: 0 <= i < |c'| ==>
      c'[i].address == c[i].address && c'[i].size == c[i].size && SoundChunk(c'[i], n)
    ensures Sound(c', n) && Owned(c') == Blocks(c, |c'|)
  {
    hide SoundChunk;
    forall k | 0 <= k <= |c'| ensures Blocks(c', k) == Blocks(c, k) {
      BlocksSame(c, c', k);
    }
  }

  lemma SoundInMemory(memory: seq<byte>, chunks: seq<Chunk>)
    requires Sound(chunks, |memory|)
    ensures InMemory(memory, chunks)
  {
  }

  // ---------------------------------------------------------------------------------------------
  // Resizing

  /** The bytes the chunks can hold when the last one fills its block. */
  function Capacity(chunks: seq<Chunk>): (n: nat)
    requires forall i :: 0 <= i < |chunks| && chunks[i].size > 0 ==> chunks[i].length <= chunks[i].size
  {
    if chunks == [] then 0
    else
      var c := chunks[|chunks| - 1];
      Total(chunks, |chunks| - 1) + if c.size > 0 then c.size else c.length
  }

  /** `c'` is `c` up to chunk `i`, of which the last before may have another length. */
  predicate Refitted(c: seq<Chunk>, c': seq<Chunk>, i: nat) {
    && i <= |c'| == |c|
    && (forall k :: 0 <= k < |c| ==> c'[k].address == c[k].address && c'[k].size == c[k].size)
    && (forall k :: 0 <= k < |c| && k != i - 1 ==> c'[k] == c[k])
    && (i > 0 ==>
          || c'[i - 1].length <= c[i - 1].length
          || (c[i - 1].size > 0 && i == |c| && c'[i - 1].length <= c[i - 1].size))
  }

  lemma RefittedSound(c: seq<Chunk>, c': seq<Chunk>, i: nat, n: nat)
    requires Refitted(c, c', i) && Sound(c, n)
    requires BUFFER_COUNT * BUFFER_SIZE <= n
    ensures Sound(c', n) && Owned(c') == Owned(c)
    ensures Sound(c'[..i], n) && Owned(c'[..i]) == Blocks(c, i)
  {
    hide SoundChunk, Blocks, Block, Owned;
    forall k | 0 <= k < |c| ensures SoundChunk(c'[k], n) {
      RefittedChunk(c[k], c'[k], n);
    }
    SoundRefit(c, c', n);
    SoundRefit(c, c'[..i], n);
    OwnedIsBlocks(c);
  }

  lemma OwnedIsBlocks(c: seq<Chunk>)
    ensures Owned(c) == Blocks(c, |c|)
  {
  }

  lemma RefittedChunk(c: Chunk, c': Chunk, n: nat)
    requires SoundChunk(c, n) && c'.address == c.address && c'.size == c.size
    requires c'.length <= c.length || (c.size > 0 && c'.length <= c.size)
    requires BUFFER_COUNT * BUFFER_SIZE <= n
    ensures SoundChunk(c', n)
  {
    if c.size > 0 {
      var q := c.address / BUFFER_SIZE;
      assert c.address == BUFFER_SIZE * q;
    }
  }

  /** What is left of the data: of two lengths, the common prefix. */
  lemma RefittedFlat(memory: seq<byte>, c: seq<Chunk>, c': seq<Chunk>, i: nat)
    requires Refitted(c, c', i) && InMemory(memory, c) && InMemory(memory, c')
    ensures Total(c', i) == if i == 0 then 0 else Total(c, i - 1) + c'[i - 1].length
    ensures var n := Min(Total(c', i), Total(c, |c|));
      Spelled(memory, c', i)[..n] == Flat(memory, c)[..n]
  {
    hide Piece;
    if i > 0 {
      SpelledSame(memory, memory, c, c', i - 1);
      SpelledLast(memory, c', i);
      PrefixOfPiece(memory, c[i - 1], c'[i - 1]);
      SpelledPrefix(memory, c, i, |c|);
      SpelledLast(memory, c, i);
      CommonPrefix(Spelled(memory, c, i - 1), Piece(memory, c[i - 1]), Piece(memory, c'[i - 1]), Flat(memory, c));
      if i < |c| {
        SpelledPrefix(memory, c, i, |c|);
      }
    }
  }

  lemma PrefixOfPiece(memory: seq<byte>, c: Chunk, c': Chunk)
    requires c.address == c'.address && c.address + c.length <= |memory| && c'.address + c'.length <= |memory|
    ensures var n := Min(c.length, c'.length); Piece(memory, c)[..n] == Piece(memory, c')[..n]
  {
    var n := Min(c.length, c'.length);
    SliceOfSlice(memory, c.address, c.address + c.length, 0, n);
    SliceOfSlice(memory, c.address, c.address + c'.length, 0, n);
    assert Piece(memory, c)[..n] == Piece(memory, c)[0..n] && Piece(memory, c')[..n] == Piece(memory, c')[0..n];
  }

  lemma CommonPrefix(s: seq<byte>, a: seq<byte>, b: seq<byte>, t: seq<byte>)
    requires |s| + |a| <= |t| && t[..|s| + |a|] == s + a
    requires a[..Min(|a|, |b|)] == b[..Min(|a|, |b|)]
    requires |b| > |a| ==> |t| == |s| + |a|
    ensures var n := Min(|s| + |b|, |t|); (s + b)[..n] == t[..n]
  {
    var n := Min(|s| + |b|, |t|);
    if |b| <= |a| {
      assert b == a[..|b|];
      assert t[..|s| + |a|][..n] == t[..n];
    } else {
      assert b[..|a|] == a;
      assert (s + b)[..n] == s + b[..|a|];
    }
  }

  /** More chunks behind the same ones. */
  lemma {:induction false} GrownFlat(memory: seq<byte>, c: seq<Chunk>, c': seq<Chunk>)
    requires |c| <= |c'| && c'[..|c|] == c && InMemory(memory, c) && InMemory(memory, c')
    ensures Total(c, |c|) <= Total(c', |c'|) && Flat(memory, c')[..Total(c, |c|)] == Flat(memory, c)
  {
    hide Piece;
    forall i | 0 <= i < |c| ensures c'[i] == c[i] {
      assert c'[..|c|][i] == c'[i];
    }
    SpelledSame(memory, memory, c, c', |c|);
    SpelledPrefix(memory, c', |c|, |c'|);
  }
}
