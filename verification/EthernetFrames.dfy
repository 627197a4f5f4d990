/** Padding, sealing and checking Ethernet frames: core/ethernet_misc.c and the end of ethSendFrame. */
module EthernetFrames {
  import opened Common
  import opened Crc32
  import opened ChunkView
  import opened NetBuffers

  const HEADER_SIZE := 14
  const CRC_SIZE := 4
  const MIN_FRAME_SIZE := 64
  const PADDING_SIZE := 64

  // ---------------------------------------------------------------------------------------------
  // Calculating the CRC

  function StepMany(c: bv32, n: nat): bv32 {
    if n == 0 then c else Step(StepMany(c, n - 1))
  }

  lemma EightSteps(c: bv32)
    ensures StepMany(c, 8) == Steps(c)
  {
    hide Step;
    assert StepMany(c, 1) == Step(StepMany(c, 0));
    assert StepMany(c, 2) == Step(StepMany(c, 1));
    assert StepMany(c, 3) == Step(StepMany(c, 2));
    assert StepMany(c, 4) == Step(StepMany(c, 3));
    assert StepMany(c, 5) == Step(StepMany(c, 4));
    assert StepMany(c, 6) == Step(StepMany(c, 5));
    assert StepMany(c, 7) == Step(StepMany(c, 6));
    assert StepMany(c, 8) == Step(StepMany(c, 7));
  }

  /** One byte, bit by bit. */
  method UpdateBits(c: bv32, x: byte) returns (crc: bv32)
    ensures crc == Absorb(c, x)
  {
    hide Xor, Widened, Steps;
    crc := Xor(c, Widened(x));
    ghost var start := crc;
    for j := 0 to 8
      invariant crc == StepMany(start, j)
    {
      if crc & 1 == 1 {
        crc := (crc >> 1) ^ POLYNOMIAL;
      } else {
        crc := crc >> 1;
      }
    }
    EightSteps(start);
  }

  /** One byte, by table. */
  method UpdateTable(c: bv32, x: byte) returns (crc: bv32)
    ensures crc == Absorb(c, x)
  {
    hide Xor, Widened, Steps, Table;
    LookupIsAbsorb(c, x);
    crc := Xor(c >> 8, Table(Xor(c & 0xFF, Widened(x))));
  }

  lemma RegisterSnoc(c: bv32, b: seq<byte>, n: nat)
    requires n < |b|
    ensures Register(c, b[..n + 1]) == Absorb(Register(c, b[..n]), b[n])
    ensures Register(c, b[..0]) == c
  {
    hide Absorb;
    assert b[..n + 1][..n] == b[..n];
  }

  lemma RegisterEnds(c: bv32, b: seq<byte>)
    ensures Register(c, b[..0]) == c && b[..|b|] == b
  {
  }

  /** The CRC by whichever form is configured. */
  method EthCalcCrc(memory: array<byte>, data: nat, length: nat, fast: bool) returns (crc: bv32)
    requires data + length <= memory.Length
    ensures crc == Crc(memory[data..data + length])
  {
    hide Absorb, Register, Invert;
    ghost var b := memory[data..data + length];
    crc := PRESET;
    RegisterEnds(PRESET, b);
    for i := 0 to length
      invariant crc == Register(PRESET, b[..i])
    {
      RegisterSnoc(PRESET, b, i);
      if fast {
        crc := UpdateTable(crc, memory[data + i]);
      } else {
        crc := UpdateBits(crc, memory[data + i]);
      }
    }
    crc := Invert(crc);
  }

  /** Takes in `n` bytes of one chunk. */
  method UpdateChunk(memory: array<byte>, data: nat, length: nat, c: bv32, fast: bool) returns (crc: bv32)
    requires data + length <= memory.Length
    ensures crc == Register(c, memory[data..data + length])
  {
    hide Absorb, Register;
    ghost var b := memory[data..data + length];
    crc := c;
    RegisterEnds(c, b);
    var p: nat, n: nat := data, length;
    while n > 0
      invariant data <= p && p + n == data + length && crc == Register(c, b[..p - data])
    {
      RegisterSnoc(c, b, p - data);
      if fast {
        crc := UpdateTable(crc, memory[p]);
      } else {
        crc := UpdateBits(crc, memory[p]);
      }
      p := p + 1;
      n := n - 1;
    }
  }

  /** The CRC of a stretch of a multi-part buffer is that of its bytes, however they are cut. */
  method EthCalcCrcEx(memory: array<byte>, buffer: NetBuffer, offset: nat, length: nat, fast: bool) returns (crc: bv32)
    requires InMemory(memory[..], buffer.chunks)
    ensures crc == Crc(Clip(Flat(memory[..], buffer.chunks), offset, length))
  {
    hide Clip, Spelled, Piece, Total, Reach, Skip, Register, Invert;
    ghost var m, chunks := memory[..], buffer.chunks;
    var i, start, left := 0, offset, length;
    crc := PRESET;
    ReadStart(m, chunks, offset, length);
    RegisterEnds(PRESET, []);
    while i < |buffer.chunks| && left > 0
      invariant i <= |chunks| && start == Skip(Total(chunks, i), offset)
      invariant length - left == |Clip(Spelled(m, chunks, i), offset, length)| <= length
      invariant crc == Register(PRESET, Clip(Spelled(m, chunks, i), offset, length))
    {
      var c := buffer.chunks[i];
      ReadStep(m, chunks, i, offset, length);
      ReachStep(Total(chunks, i), c.length, offset, length);
      if start < c.length {
        var p := c.address + start;
        var n := Min(c.length - start, left);
        RegisterConcat(PRESET, Clip(Spelled(m, chunks, i), offset, length), m[p..p + n]);
        crc := UpdateChunk(memory, p, n, crc, fast);
        left := left - n;
        start := 0;
      } else {
        start := start - c.length;
      }
      i := i + 1;
    }
    ReadDone(m, chunks, i, offset, length);
    crc := Invert(crc);
  }

  // ---------------------------------------------------------------------------------------------
  // Frames

  function Zeros(n: nat): (s: seq<byte>)
    ensures |s| == n
  {
    seq(n, _ => 0)
  }

  lemma FewerZeros(k: nat, n: nat)
    requires n <= k
    ensures Zeros(k)[0..n] == Zeros(n)
  {
  }

  /** A frame brought to the minimum length. */
  function Padded(f: seq<byte>): (r: seq<byte>)
    ensures |r| >= MIN_FRAME_SIZE - CRC_SIZE
  {
    if |f| < MIN_FRAME_SIZE - CRC_SIZE then f + Zeros(MIN_FRAME_SIZE - CRC_SIZE - |f|) else f
  }

  /** A frame followed by its CRC, lowest byte first. */
  function Sealed(f: seq<byte>): (r: seq<byte>)
    ensures |r| == |f| + CRC_SIZE
  {
    f + WordBytes(Crc(f))
  }

  /** The verdict on a received frame, unless the hardware has checked it. */
  method EthCheckCrc(memory: array<byte>, frame: nat, length: nat, autoCrcVerif: bool, fast: bool)
    returns (error: Error)
    requires frame + length <= memory.Length
    ensures error == Verdict(memory[frame..frame + length], autoCrcVerif)
  {
    hide Crc;
    if length < HEADER_SIZE + CRC_SIZE {
      return InvalidLength;
    }
    if !autoCrcVerif {
      var crc := EthCalcCrc(memory, frame, length, fast);
      if crc != RESIDUE {
        return WrongChecksum;
      }
    }
    return NoError;
  }

  function Verdict(frame: seq<byte>, autoCrcVerif: bool): Error {
    if |frame| < HEADER_SIZE + CRC_SIZE then InvalidLength
    else if !autoCrcVerif && Crc(frame) != RESIDUE then WrongChecksum
    else NoError
  }

  /** A received frame is accepted exactly when its last four bytes are the CRC of those before them. */
  lemma AcceptedExactly(frame: seq<byte>)
    ensures |frame| < 18 ==> Verdict(frame, false) == Verdict(frame, true) == InvalidLength
    ensures |frame| >= 18 ==>
      && Verdict(frame, true) == NoError
      && var n := |frame| - 4;
      Verdict(frame, false) == if ReadWord(frame[n..]) == Crc(frame[..n]) then NoError else WrongChecksum
  {
    hide Crc, ReadWord;
    if |frame| >= 18 {
      var n := |frame| - 4;
      ResidueExactly(frame[..n], frame[n..]);
      assert frame[..n] + frame[n..] == frame;
    }
  }

  /** What a sender seals, a receiver accepts, and the frame is long enough. */
  lemma SealedAccepted(f: seq<byte>)
    requires |f| >= HEADER_SIZE
    ensures Verdict(Sealed(f), false) == NoError
    ensures Verdict(Sealed(Padded(f)), false) == NoError && |Sealed(Padded(f))| >= 64
  {
    hide Crc, ReadWord, WordBytes;
    ReadBack(Crc(f));
    ResidueExactly(f, WordBytes(Crc(f)));
    ReadBack(Crc(Padded(f)));
    ResidueExactly(Padded(f), WordBytes(Crc(Padded(f))));
  }

  /** A sealed frame of which any four neighbouring bytes are changed is not accepted. */
  lemma DamageDetected(f: seq<byte>, a: seq<byte>, b: seq<byte>, b': seq<byte>, c: seq<byte>)
    requires |f| >= HEADER_SIZE && Sealed(f) == a + b + c
    requires |b| == |b'| == 4 && b != b'
    ensures Verdict(a + b' + c, false) == WrongChecksum
  {
    hide Crc, ReadWord, WordBytes;
    SealedAccepted(f);
    BurstDetected(a, b, b', c);
  }

  // ---------------------------------------------------------------------------------------------
  // The end of sending a frame

  /** A chunk appended to a buffer, as its flat contents show it. */
  lemma AppendedFrame(memory: seq<byte>, chunks: seq<Chunk>, offset: nat, c: Chunk)
    requires InMemory(memory, chunks) && c.address + c.length <= |memory| && offset <= |Flat(memory, chunks)|
    ensures InMemory(memory, chunks + [c])
    ensures |Flat(memory, chunks + [c])| == |Flat(memory, chunks)| + c.length
    ensures Flat(memory, chunks + [c])[offset..] == Flat(memory, chunks)[offset..] + Piece(memory, c)
  {
    hide Spelled, Piece;
    FlatSnoc(memory, chunks, c);
  }

  /** Appends zeros to a frame that is too short. */
  method EthPadFrame(ghost memory: seq<byte>, buffer: NetBuffer, ghost offset: nat, length: nat, padding: nat)
    returns (error: Error, length': nat)
    requires InMemory(memory, buffer.chunks)
    requires padding + PADDING_SIZE <= |memory| && memory[padding..padding + PADDING_SIZE] == Zeros(PADDING_SIZE)
    requires offset + length == |Flat(memory, buffer.chunks)|
    modifies buffer
    ensures error == if length < 60 && |old(buffer.chunks)| >= buffer.maxChunkCount then Failure else NoError
    ensures InMemory(memory, buffer.chunks)
    ensures error == NoError ==>
      && |buffer.chunks| == |old(buffer.chunks)| + (if length < 60 then 1 else 0)
      && offset + length' == |Flat(memory, buffer.chunks)|
      && Flat(memory, buffer.chunks)[offset..] == Padded(Flat(memory, old(buffer.chunks))[offset..])
      && (buffer.chunks == old(buffer.chunks)
          || exists n: uint16 :: n <= PADDING_SIZE && buffer.chunks == old(buffer.chunks) + [Chunk(padding, n, 0)])
  {
    hide Spelled, Total;
    length' := length;
    if length < MIN_FRAME_SIZE - CRC_SIZE {
      var n: uint16 := MIN_FRAME_SIZE - CRC_SIZE - length;
      ghost var chunks := buffer.chunks;
      error := Append(buffer, padding, n);
      if error == NoError {
        AppendedFrame(memory, chunks, offset, Chunk(padding, n, 0));
        SliceOfSlice(memory, padding, padding + PADDING_SIZE, 0, n);
        FewerZeros(PADDING_SIZE, n);
        length' := length + n;
      }
    } else {
      error := NoError;
    }
  }

  /** How many descriptors the end of a frame takes: one for padding, of a frame shorter than 60 bytes, and one for
      the CRC, as far as the hardware does not do so. */
  function Descriptors(length: nat, autoPadding: bool, autoCrcCalc: bool): nat {
    (if !autoPadding && length < 60 then 1 else 0) + (if autoCrcCalc then 0 else 1)
  }

  function Free(maxChunkCount: nat, chunks: seq<Chunk>): nat {
    if |chunks| < maxChunkCount then maxChunkCount - |chunks| else 0
  }

  /** Pads a frame and appends its CRC, unless the hardware does so, just before it is handed over. */
  method FinishFrame(memory: array<byte>, buffer: NetBuffer, offset: nat, autoPadding: bool, autoCrcCalc: bool,
                     fast: bool, padding: nat, crcAt: nat) returns (error: Error, length: nat)
    requires InMemory(memory[..], buffer.chunks) && offset + HEADER_SIZE <= |Flat(memory[..], buffer.chunks)|
    requires padding + PADDING_SIZE <= memory.Length && memory[padding..padding + PADDING_SIZE] == Zeros(PADDING_SIZE)
    requires crcAt + CRC_SIZE <= memory.Length && (crcAt + CRC_SIZE <= padding || padding + PADDING_SIZE <= crcAt)
    requires forall i :: 0 <= i < |buffer.chunks| ==> Apart(Chunk(crcAt, CRC_SIZE, 0), buffer.chunks[i])
    modifies memory, buffer
    ensures error ==
      if Descriptors(|Flat(old(memory[..]), old(buffer.chunks))| - offset, autoPadding, autoCrcCalc)
           <= Free(buffer.maxChunkCount, old(buffer.chunks)) then NoError else Failure
    ensures memory[..crcAt] == old(memory[..crcAt]) && memory[crcAt + CRC_SIZE..] == old(memory[crcAt + CRC_SIZE..])
    ensures error == NoError ==>
      var f := Flat(old(memory[..]), old(buffer.chunks))[offset..];
      var f' := if autoPadding then f else Padded(f);
      && InMemory(memory[..], buffer.chunks)
      && offset + length == |Flat(memory[..], buffer.chunks)|
      && Flat(memory[..], buffer.chunks)[offset..] == if autoCrcCalc then f' else Sealed(f')
  {
    hide Spelled, Piece, Padded, Zeros, Sealed, Total;
    ghost var m := memory[..];
    length := buffer.GetLength();
    length := length - offset;
    error := NoError;
    if !autoPadding {
      error, length := EthPadFrame(m, buffer, offset, length, padding);
      if error != NoError {
        return;
      }
    }
    if !autoCrcCalc {
      error, length := AppendCrc(memory, buffer, offset, length, fast, crcAt);
    }
  }

  /** Appends the CRC of a frame to it. */
  method AppendCrc(memory: array<byte>, buffer: NetBuffer, offset: nat, length: nat, fast: bool, crcAt: nat)
    returns (error: Error, length': nat)
    requires InMemory(memory[..], buffer.chunks) && offset + length == |Flat(memory[..], buffer.chunks)|
    requires crcAt + CRC_SIZE <= memory.Length
    requires forall i :: 0 <= i < |buffer.chunks| ==> Apart(Chunk(crcAt, CRC_SIZE, 0), buffer.chunks[i])
    modifies memory, buffer
    ensures error == if |old(buffer.chunks)| >= buffer.maxChunkCount then Failure else NoError
    ensures memory[..crcAt] == old(memory[..crcAt]) && memory[crcAt + CRC_SIZE..] == old(memory[crcAt + CRC_SIZE..])
    ensures error == NoError ==>
      && InMemory(memory[..], buffer.chunks)
      && offset + length' == |Flat(memory[..], buffer.chunks)|
      && Flat(memory[..], buffer.chunks)[offset..] == Sealed(Flat(old(memory[..]), old(buffer.chunks))[offset..])
  {
    hide Spelled, Piece, Crc, Clip, WordBytes, Total;
    ghost var m, chunks := memory[..], buffer.chunks;
    var crc := EthCalcCrcEx(memory, buffer, offset, length, fast);
    ClipAll(Flat(m, chunks), offset, length);
    StoreWord(memory, crcAt, crc);
    FlatElsewhere(m, chunks, Chunk(crcAt, CRC_SIZE, 0), crcAt, WordBytes(crc));
    length' := length;
    error := Append(buffer, crcAt, CRC_SIZE);
    if error == NoError {
      AppendedFrame(memory[..], chunks, offset, Chunk(crcAt, CRC_SIZE, 0));
      StoredPiece(m, crcAt, WordBytes(crc));
      length' := length + CRC_SIZE;
    }
  }

  /** Stores a word in memory, lowest byte first. */
  method StoreWord(memory: array<byte>, at: nat, w: bv32)
    requires at + 4 <= memory.Length
    modifies memory
    ensures memory[..] == Overwritten(old(memory[..]), at, WordBytes(w))
  {
    hide Narrowed;
    ghost var m := memory[..];
    ghost var b := WordBytes(w);
    memory[at] := Narrowed(w & 0xFF);
    memory[at + 1] := Narrowed((w >> 8) & 0xFF);
    memory[at + 2] := Narrowed((w >> 16) & 0xFF);
    memory[at + 3] := Narrowed((w >> 24) & 0xFF);
    assert memory[..] == m[..at] + b + m[at + 4..];
  }

  lemma StoredPiece(memory: seq<byte>, at: nat, b: seq<byte>)
    requires |b| == CRC_SIZE && at + CRC_SIZE <= |memory|
    ensures Piece(Overwritten(memory, at, b), Chunk(at, CRC_SIZE, 0)) == b
  {
  }

  lemma ClipAll(s: seq<byte>, offset: nat, length: nat)
    requires offset + length == |s|
    ensures Clip(s, offset, length) == s[offset..]
  {
  }
}
