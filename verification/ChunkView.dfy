/** A multi-part buffer seen as the one byte string that its chunks spell. */
module ChunkView {
  import opened Common

  /** A stretch of memory; `size` is that of the pool block it owns, or 0 when it is borrowed. */
  datatype Chunk = Chunk(address: nat, length: uint16, size: uint16)

  predicate InMemory(memory: seq<byte>, chunks: seq<Chunk>) {
    forall i :: 0 <= i < |chunks| ==> chunks[i].address + chunks[i].length <= |memory|
  }

  function Piece(memory: seq<byte>, c: Chunk): (s: seq<byte>)
    requires c.address + c.length <= |memory|
    ensures |s| == c.length
  {
    memory[c.address..c.address + c.length]
  }

  /** The number of bytes in the first `k` chunks. */
  function Total(chunks: seq<Chunk>, k: nat): (n: nat)
    requires k <= |chunks|
  {
    if k == 0 then 0 else Total(chunks, k - 1) + chunks[k - 1].length
  }

  /** The bytes in the first `k` chunks. */
  function Spelled(memory: seq<byte>, chunks: seq<Chunk>, k: nat): (s: seq<byte>)
    requires k <= |chunks| && InMemory(memory, chunks)
    ensures |s| == Total(chunks, k)
  {
    if k == 0 then [] else Spelled(memory, chunks, k - 1) + Piece(memory, chunks[k - 1])
  }

  function Flat(memory: seq<byte>, chunks: seq<Chunk>): (s: seq<byte>)
    requires InMemory(memory, chunks)
    ensures |s| == Total(chunks, |chunks|)
  {
    Spelled(memory, chunks, |chunks|)
  }

  lemma {:induction false} TotalGrows(chunks: seq<Chunk>, j: nat, k: nat)
    requires j <= k <= |chunks|
    ensures Total(chunks, j) <= Total(chunks, k)
  {
    if j < k {
      TotalGrows(chunks, j, k - 1);
    }
  }

  /** The first chunks spell a prefix of the whole. */
  lemma {:induction false} SpelledPrefix(memory: seq<byte>, chunks: seq<Chunk>, j: nat, k: nat)
    requires j <= k <= |chunks| && InMemory(memory, chunks)
    ensures Total(chunks, j) <= Total(chunks, k)
    ensures Spelled(memory, chunks, k)[..Total(chunks, j)] == Spelled(memory, chunks, j)
  {
    if j < k {
      SpelledPrefix(memory, chunks, j, k - 1);
      var s, piece := Spelled(memory, chunks, k - 1), Piece(memory, chunks[k - 1]);
      assert (s + piece)[..Total(chunks, j)] == s[..Total(chunks, j)];
    }
  }

  /** Where chunk `k` stands in the whole. */
  lemma SpelledPiece(memory: seq<byte>, chunks: seq<Chunk>, k: nat)
    requires k < |chunks| && InMemory(memory, chunks)
    ensures Total(chunks, k) + chunks[k].length == Total(chunks, k + 1) <= Total(chunks, |chunks|)
    ensures Flat(memory, chunks)[Total(chunks, k)..Total(chunks, k + 1)] == Piece(memory, chunks[k])
  {
    hide Piece;
    SpelledPrefix(memory, chunks, k + 1, |chunks|);
    var s, t := Flat(memory, chunks), Total(chunks, k);
    var u := Total(chunks, k + 1);
    assert s[..u] == Spelled(memory, chunks, k) + Piece(memory, chunks[k]);
    assert s[..u][t..u] == Piece(memory, chunks[k]);
    SliceOfPrefix(s, u, t, u);
  }

  /** What the first chunks spell depends on those chunks, and on their memory, only. */
  lemma {:induction false} SpelledSame(m: seq<byte>, m': seq<byte>, c: seq<Chunk>, c': seq<Chunk>, k: nat)
    requires k <= |c| && k <= |c'| && InMemory(m, c) && InMemory(m', c')
    requires forall i :: 0 <= i < k ==> c[i].length == c'[i].length && Piece(m, c[i]) == Piece(m', c'[i])
    ensures Total(c, k) == Total(c', k) && Spelled(m, c, k) == Spelled(m', c', k)
  {
    hide Piece;
    if k > 0 {
      SpelledSame(m, m', c, c', k - 1);
    }
  }

  /** Adding chunks adds what they spell. */
  lemma FlatSnoc(memory: seq<byte>, chunks: seq<Chunk>, c: Chunk)
    requires InMemory(memory, chunks) && c.address + c.length <= |memory|
    ensures InMemory(memory, chunks + [c])
    ensures Flat(memory, chunks + [c]) == Flat(memory, chunks) + Piece(memory, c)
  {
    hide Piece;
    var d := chunks + [c];
    assert forall i :: 0 <= i < |chunks| ==> d[i] == chunks[i];
    SpelledSame(memory, memory, chunks, d, |chunks|);
  }

  // ---------------------------------------------------------------------------------------------
  // Reading

  /** How many of the `n` bytes wanted from `offset` on lie among the first `t`. */
  function Reach(t: nat, offset: nat, n: nat): (r: nat)
    ensures r <= n
  {
    if offset >= t then 0 else Min(n, t - offset)
  }

  /** How much further that is with `more` bytes, and where in them it goes on. */
  lemma ReachStep(t: nat, more: nat, offset: nat, n: nat)
    requires Reach(t, offset, n) < n
    ensures var r, k := Skip(t, offset), Reach(t, offset, n);
      if r < more then
        && Skip(t + more, offset) == 0
        && Reach(t + more, offset, n) == k + Min(n - k, more - r)
        && offset + k == t + r
      else
        && Skip(t + more, offset) == r - more
        && Reach(t + more, offset, n) == k
        && (more > 0 ==> k == 0)
  {
  }

  /** The bytes of `s` from `offset` on, at most `n` of them. */
  function Clip(s: seq<byte>, offset: nat, n: nat): (r: seq<byte>)
    ensures |r| == Reach(|s|, offset, n)
  {
    if offset >= |s| then [] else s[offset..offset + Min(n, |s| - offset)]
  }

  /** Where reading goes on in the piece `b` behind `s`. */
  function Skip(s: nat, offset: nat): nat {
    if offset > s then offset - s else 0
  }

  lemma ClipMore(s: seq<byte>, b: seq<byte>, offset: nat, n: nat)
    requires |Clip(s, offset, n)| < n
    ensures Clip(s + b, offset, n) == Clip(s, offset, n) + Clip(b, Skip(|s|, offset), n - |Clip(s, offset, n)|)
  {
    if offset >= |s| {
      ClipBehind(s, b, offset, n);
    } else {
      ClipAcross(s, b, offset, n);
    }
  }

  lemma ClipBehind(s: seq<byte>, b: seq<byte>, offset: nat, n: nat)
    requires offset >= |s|
    ensures Clip(s + b, offset, n) == [] + Clip(b, offset - |s|, n)
  {
  }

  lemma ClipAcross(s: seq<byte>, b: seq<byte>, offset: nat, n: nat)
    requires offset < |s| && |s| - offset < n
    ensures Clip(s, offset, n) == s[offset..]
    ensures Clip(s + b, offset, n) == s[offset..] + Clip(b, 0, n - (|s| - offset))
  {
    var k := Min(n - (|s| - offset), |b|);
    assert (s + b)[offset..|s| + k] == s[offset..] + b[..k];
  }

  /** Once everything wanted has been read, what follows does not matter. */
  lemma ClipDone(s: seq<byte>, t: seq<byte>, offset: nat, n: nat)
    requires |s| <= |t| && t[..|s|] == s && |Clip(s, offset, n)| == n > 0
    ensures Clip(t, offset, n) == Clip(s, offset, n)
  {
    SliceOfPrefix(t, |s|, offset, offset + n);
  }

  // ---------------------------------------------------------------------------------------------
  // Writing

  /** `s` with `d` written over it at `offset`; nothing to write leaves it alone. */
  function Overwritten(s: seq<byte>, offset: nat, d: seq<byte>): (r: seq<byte>)
    requires d == [] || offset + |d| <= |s|
    ensures |r| == |s|
  {
    if d == [] then s else s[..offset] + d + s[offset + |d|..]
  }

  lemma OverwrittenTwice(s: seq<byte>, offset: nat, d: seq<byte>, e: seq<byte>)
    requires offset + |d| + |e| <= |s|
    ensures Overwritten(Overwritten(s, offset, d), offset + |d|, e) == Overwritten(s, offset, d + e)
  {
    var r := Overwritten(s, offset, d);
    assert d + [] == d && [] + e == e;
    if d != [] && e != [] {
      assert r[..offset + |d|] == s[..offset] + d;
      assert r[offset + |d| + |e|..] == s[offset + |d| + |e|..];
    }
  }

  predicate Apart(c: Chunk, d: Chunk) {
    c.address + c.length <= d.address || d.address + d.length <= c.address
  }

  /** No two chunks share memory. */
  predicate Disjoint(chunks: seq<Chunk>) {
    forall i, j :: 0 <= i < j < |chunks| ==> Apart(chunks[i], chunks[j])
  }

  predicate AllApart(c: seq<Chunk>, d: seq<Chunk>) {
    forall i, j :: 0 <= i < |c| && 0 <= j < |d| ==> Apart(c[i], d[j])
  }

  /** Memory outside these chunks is unchanged. */
  predicate SameOutside(m: seq<byte>, m': seq<byte>, chunks: seq<Chunk>) {
    && |m'| == |m|
    && forall x :: 0 <= x < |m| && !Covered(chunks, x) ==> m'[x] == m[x]
  }

  predicate Covered(chunks: seq<Chunk>, x: nat) {
    exists i :: 0 <= i < |chunks| && chunks[i].address <= x < chunks[i].address + chunks[i].length
  }

  /** A piece of memory that a write misses. */
  lemma PieceMissed(memory: seq<byte>, c: Chunk, at: nat, d: seq<byte>)
    requires c.address + c.length <= |memory| && at + |d| <= |memory|
    requires at + |d| <= c.address || c.address + c.length <= at || c.length == 0
    ensures Piece(Overwritten(memory, at, d), c) == Piece(memory, c)
  {
  }

  lemma PieceHit(memory: seq<byte>, c: Chunk, at: nat, d: seq<byte>)
    requires c.address + c.length <= |memory| && c.address <= at && at + |d| <= c.address + c.length
    ensures Piece(Overwritten(memory, at, d), c) == Overwritten(Piece(memory, c), at - c.address, d)
  {
    var k := at - c.address;
    if d != [] {
      var m' := Overwritten(memory, at, d);
      assert m'[c.address..c.address + c.length] == memory[c.address..at] + d + memory[at + |d|..c.address + c.length];
      assert Piece(memory, c)[..k] == memory[c.address..at];
      assert Piece(memory, c)[k + |d|..] == memory[at + |d|..c.address + c.length];
    }
  }

  lemma OverwrittenLeft(s: seq<byte>, t: seq<byte>, offset: nat, d: seq<byte>)
    requires offset + |d| <= |s|
    ensures Overwritten(s, offset, d) + t == Overwritten(s + t, offset, d)
  {
    assert (s + t)[..offset] == s[..offset];
    assert (s + t)[offset + |d|..] == s[offset + |d|..] + t;
  }

  lemma OverwrittenRight(s: seq<byte>, t: seq<byte>, offset: nat, d: seq<byte>)
    requires offset + |d| <= |t|
    ensures s + Overwritten(t, offset, d) == Overwritten(s + t, |s| + offset, d)
  {
    assert (s + t)[..|s| + offset] == s + t[..offset];
    assert (s + t)[|s| + offset + |d|..] == t[offset + |d|..];
  }

  /** A write into one chunk is a write into the whole. */
  lemma {:induction false} SpelledWritten(memory: seq<byte>, chunks: seq<Chunk>, k: nat, j: nat, at: nat, d: seq<byte>)
    requires j < k <= |chunks| && InMemory(memory, chunks) && Disjoint(chunks)
    requires chunks[j].address <= at && at + |d| <= chunks[j].address + chunks[j].length
    ensures var m' := Overwritten(memory, at, d);
      var offset := Total(chunks, j) + at - chunks[j].address;
      && InMemory(m', chunks)
      && offset + |d| <= Total(chunks, j + 1) <= Total(chunks, k)
      && Spelled(m', chunks, k) == Overwritten(Spelled(memory, chunks, k), offset, d)
    decreases k
  {
    hide Overwritten, Piece, Disjoint, Spelled;
    var m' := Overwritten(memory, at, d);
    SpelledLast(memory, chunks, k);
    SpelledLast(m', chunks, k);
    if j == k - 1 {
      SpelledElsewhere(memory, chunks, j, j, at, d);
      PieceHit(memory, chunks[j], at, d);
      OverwrittenRight(Spelled(memory, chunks, j), Piece(memory, chunks[j]), at - chunks[j].address, d);
    } else {
      SpelledWritten(memory, chunks, k - 1, j, at, d);
      assert Apart(chunks[j], chunks[k - 1]) by { DisjointPair(chunks, j, k - 1); }
      PieceMissed(memory, chunks[k - 1], at, d);
      OverwrittenLeft(Spelled(memory, chunks, k - 1), Piece(memory, chunks[k - 1]),
                      Total(chunks, j) + at - chunks[j].address, d);
    }
  }

  lemma DisjointPair(chunks: seq<Chunk>, i: nat, j: nat)
    requires Disjoint(chunks) && i < j < |chunks|
    ensures Apart(chunks[i], chunks[j])
  {
  }

  lemma SpelledLast(memory: seq<byte>, chunks: seq<Chunk>, k: nat)
    requires 0 < k <= |chunks| && InMemory(memory, chunks)
    ensures Spelled(memory, chunks, k) == Spelled(memory, chunks, k - 1) + Piece(memory, chunks[k - 1])
    ensures Total(chunks, k) == Total(chunks, k - 1) + chunks[k - 1].length
  {
  }

  lemma SpelledElsewhere(memory: seq<byte>, chunks: seq<Chunk>, k: nat, j: nat, at: nat, d: seq<byte>)
    requires k <= j < |chunks| && InMemory(memory, chunks) && Disjoint(chunks)
    requires chunks[j].address <= at && at + |d| <= chunks[j].address + chunks[j].length
    ensures Spelled(Overwritten(memory, at, d), chunks, k) == Spelled(memory, chunks, k)
  {
    hide Overwritten, Piece;
    forall i | 0 <= i < k ensures Piece(Overwritten(memory, at, d), chunks[i]) == Piece(memory, chunks[i]) {
      assert Apart(chunks[i], chunks[j]);
      PieceMissed(memory, chunks[i], at, d);
    }
    SpelledSame(memory, Overwritten(memory, at, d), chunks, chunks, k);
  }

  /** A write into one chunk misses the chunks of another buffer. */
  lemma FlatElsewhere(memory: seq<byte>, others: seq<Chunk>, c: Chunk, at: nat, d: seq<byte>)
    requires InMemory(memory, others) && forall i :: 0 <= i < |others| ==> Apart(c, others[i])
    requires c.address <= at && at + |d| <= c.address + c.length <= |memory|
    ensures var m' := Overwritten(memory, at, d); InMemory(m', others) && Flat(m', others) == Flat(memory, others)
  {
    hide Overwritten, Piece;
    forall i | 0 <= i < |others| ensures Piece(Overwritten(memory, at, d), others[i]) == Piece(memory, others[i]) {
      PieceMissed(memory, others[i], at, d);
    }
    SpelledSame(memory, Overwritten(memory, at, d), others, others, |others|);
  }

  lemma WriteStaysInside(memory: seq<byte>, chunks: seq<Chunk>, j: nat, at: nat, d: seq<byte>)
    requires j < |chunks| && chunks[j].address <= at && at + |d| <= chunks[j].address + chunks[j].length <= |memory|
    ensures SameOutside(memory, Overwritten(memory, at, d), chunks)
  {
    var m' := Overwritten(memory, at, d);
    forall x | 0 <= x < |memory| && !Covered(chunks, x) ensures m'[x] == memory[x] {
      assert !(chunks[j].address <= x < chunks[j].address + chunks[j].length);
    }
  }

  lemma SameOutsideTwice(m: seq<byte>, m': seq<byte>, m'': seq<byte>, chunks: seq<Chunk>)
    requires SameOutside(m, m', chunks) && SameOutside(m', m'', chunks)
    ensures SameOutside(m, m'', chunks)
  {
  }
}
