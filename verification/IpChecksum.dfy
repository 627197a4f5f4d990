/** The Internet checksum, four bytes at a time and over any chunks, on a little-endian host: core/ip.c. */
module IpChecksum {
  import opened Common
  import opened OnesComplement
  import opened ChunkView
  import opened NetBuffers
  import Arithmetic

  /** The checksum of `b` by its definition. */
  function Checksum(b: seq<byte>): uint16 {
    Complement(OnesSum(b))
  }

  /** The example of section 3 of RFC 1071: the words 0001 f203 f4f5 f6f7 add up to ddf2, so the bytes 22 0d make the
      message check out. */
  lemma ChecksumExample()
    ensures var b := [0x00, 0x01, 0xF2, 0x03, 0xF4, 0xF5, 0xF6, 0xF7];
      && WithWord(b + [0, 0], 8, Checksum(b)) == b + [0x22, 0x0D]
      && Checksum(b + [0x22, 0x0D]) == 0
  {
    var b := [0x00, 0x01, 0xF2, 0x03, 0xF4, 0xF5, 0xF6, 0xF7];
    assert b[2..] == [0xF2, 0x03, 0xF4, 0xF5, 0xF6, 0xF7] && b[2..][2..] == [0xF4, 0xF5, 0xF6, 0xF7];
    assert b[2..][2..][2..] == [0xF6, 0xF7] && b[2..][2..][2..][2..] == [];
    assert OnesSum(b[2..][2..]) == OnesAdd(0xF5F4, 0xF7F6) == 0xEDEB;
    assert OnesSum(b[2..]) == OnesAdd(0x03F2, 0xEDEB) == 0xF1DD;
    assert OnesSum(b) == OnesAdd(0x0100, 0xF1DD) == 0xF2DD;
    assert WithWord(b + [0, 0], 8, 0) == b + [0, 0];
    assert WithWord(b + [0, 0], 8, 0x0D22) == b + [0x22, 0x0D];
    SumWithZeros(b);
    ChecksumExactly(b + [0, 0], 8, 0x0D22);
  }

  /** A word of zero adds nothing. */
  lemma SumWithZeros(b: seq<byte>)
    requires |b| % 2 == 0
    ensures OnesSum(b + [0, 0]) == OnesSum(b)
  {
    hide OnesSum;
    WeightConcat(b, [0, 0], false);
    PairWeight(0);
    OnesSumWeight(b);
    SumOfWeight(OnesSum(b), b + [0, 0]);
  }

  // ---------------------------------------------------------------------------------------------
  // Running sums

  /** `sum` stands for the first `done` bytes of `b`, weighed as from an odd address or an even one. */
  predicate Summed(b: seq<byte>, odd: bool, done: nat, sum: nat)
    requires done <= |b|
  {
    Stands(sum, Weight(b[..done], odd))
  }

  lemma SummedStart(b: seq<byte>, odd: bool)
    ensures Summed(b, odd, 0, 0)
  {
    assert b[..0] == [];
  }

  /** One more byte. */
  lemma SummedByte(b: seq<byte>, odd: bool, done: nat, sum: nat)
    requires done < |b| && Summed(b, odd, done, sum)
    ensures var v: nat := b[done];
      Summed(b, odd, done + 1, sum + if (done % 2 == 0) == odd then v * 256 else v)
  {
    var v: nat := b[done];
    var w := if (done % 2 == 0) == odd then v * 256 else v;
    assert b[..done + 1] == b[..done] + [b[done]];
    WeightConcat(b[..done], [b[done]], odd);
    SingleWeight(b[done], if done % 2 == 0 then odd else !odd);
    assert Stands(w, w);
    StandsAdd(sum, Weight(b[..done], odd), w, w);
  }

  lemma SingleWeight(x: byte, odd: bool)
    ensures Weight([x], odd) == x * if odd then 256 else 1
  {
    assert [x][1..] == [];
  }

  /** One more word, at an even address. */
  lemma SummedWord(b: seq<byte>, odd: bool, done: nat, sum: nat)
    requires done + 2 <= |b| && Summed(b, odd, done, sum) && (done % 2 == 0) != odd
    ensures Summed(b, odd, done + 2, sum + Word(b[done], b[done + 1]))
  {
    hide Summed;
    SummedByte(b, odd, done, sum);
    SummedByte(b, odd, done + 1, sum + b[done]);
  }

  /** A 32-bit sum with the carry added back. */
  function AddCarry(sum: uint32, word: uint32): uint32 {
    var temp := (sum + word) % 0x1_0000_0000;
    if temp < sum then temp + 1 else temp
  }

  /** Two more words at once. */
  lemma SummedDouble(b: seq<byte>, odd: bool, done: nat, sum: uint32, word: uint32)
    requires done + 4 <= |b| && Summed(b, odd, done, sum) && (done % 2 == 0) != odd
    requires word == Word(b[done], b[done + 1]) + 0x1_0000 * Word(b[done + 2], b[done + 3])
    ensures Summed(b, odd, done + 4, AddCarry(sum, word))
  {
    hide Summed, Word, AddCarry;
    var w1, w2 := Word(b[done], b[done + 1]), Word(b[done + 2], b[done + 3]);
    SummedWord(b, odd, done, sum);
    SummedWord(b, odd, done + 2, sum + w1);
    CarryStands(sum, word, w1, w2);
    SummedOther(b, odd, done + 4, sum + w1 + w2, AddCarry(sum, word));
  }

  lemma SummedOther(b: seq<byte>, odd: bool, done: nat, sum: nat, sum': nat)
    requires done <= |b| && Summed(b, odd, done, sum) && Stands(sum', sum)
    ensures Summed(b, odd, done, sum')
  {
    hide Stands, Weight;
    StandsTrans(sum', sum, Weight(b[..done], odd));
  }

  lemma CarryStands(sum: uint32, word: uint32, w1: uint16, w2: uint16)
    requires word == w1 + 0x1_0000 * w2
    ensures Stands(AddCarry(sum, word), sum + w1 + w2)
  {
    var temp := (sum + word) % 0x1_0000_0000;
    var r := AddCarry(sum, word);
    assert sum + word < 0x1_0000_0000 ==> temp == sum + word;
    assert sum + word >= 0x1_0000_0000 ==> temp == sum + word - 0x1_0000_0000 < sum;
    if temp < sum {
      assert r - (sum + w1 + w2) == MODULUS * (w2 - 0x1_0001);
    } else {
      assert r - (sum + w1 + w2) == MODULUS * w2;
    }
  }

  lemma SummedFold(b: seq<byte>, odd: bool, done: nat, sum: nat)
    requires done <= |b| && Summed(b, odd, done, sum)
    ensures Summed(b, odd, done, sum % 0x1_0000 + sum / 0x1_0000)
  {
    hide Stands, Weight;
    StandsFold(sum);
    StandsTrans(sum % 0x1_0000 + sum / 0x1_0000, sum, Weight(b[..done], odd));
  }

  /** The sum of all the bytes, put right again when they started at an odd address. */
  lemma SummedAll(b: seq<byte>, odd: bool, sum: uint16)
    requires Summed(b, odd, |b|, sum)
    ensures (if odd then Swap(sum) else sum) == OnesSum(b)
  {
    hide Stands, Weight, Swap;
    assert b[..|b|] == b;
    if odd {
      StandsSwap(sum);
      StandsTimes256(sum, Weight(b, true));
      WeightTimes256(b, true);
      StandsTrans(Swap(sum), 256 * sum, 256 * Weight(b, true));
      StandsTrans(Swap(sum), 256 * Weight(b, true), Weight(b, false));
    }
    SumOfWeight(if odd then Swap(sum) else sum, b);
  }

  // ---------------------------------------------------------------------------------------------
  // The fast forms

  function Fold(x: uint32): (r: uint32)
    ensures r < 0x2_0000
    ensures x < 0x4_0000 ==> r <= 0x1_0002 && Fold2(r) <= 0xFFFF
    ensures x <= 0x1_FFFE ==> r <= 0xFFFF
  {
    x % 0x1_0000 + x / 0x1_0000
  }

  function Fold2(x: uint32): uint32 {
    x % 0x1_0000 + x / 0x1_0000
  }

  /** Where a sum over the bytes from `data` on has got to. */
  ghost predicate Running(memory: seq<byte>, data: nat, size: nat, p: nat, length: nat, sum: nat) {
    && data <= p && p + length == data + size <= |memory|
    && Summed(memory[data..data + size], data % 2 == 1, p - data, sum)
  }

  lemma RunningByte(memory: seq<byte>, data: nat, size: nat, p: nat, length: nat, sum: nat)
    requires Running(memory, data, size, p, length, sum) && length >= 1
    ensures var v: nat := memory[p];
      Running(memory, data, size, p + 1, length - 1, sum + if p % 2 == 0 then v else v * 256)
  {
    hide Summed;
    SummedByte(memory[data..data + size], data % 2 == 1, p - data, sum);
    assert (p - data) % 2 == 0 <==> p % 2 == data % 2;
  }

  lemma RunningWord(memory: seq<byte>, data: nat, size: nat, p: nat, length: nat, sum: nat)
    requires Running(memory, data, size, p, length, sum) && length >= 2 && p % 2 == 0
    ensures Running(memory, data, size, p + 2, length - 2, sum + Word(memory[p], memory[p + 1]))
  {
    hide Summed, Word;
    var b := memory[data..data + size];
    assert b[p - data] == memory[p] && b[p - data + 1] == memory[p + 1];
    Parity(data, p);
    SummedWord(b, data % 2 == 1, p - data, sum);
  }

  lemma Parity(data: nat, p: nat)
    requires data <= p && p % 2 == 0
    ensures ((p - data) % 2 == 0) != (data % 2 == 1)
  {
  }

  lemma RunningDouble(memory: seq<byte>, data: nat, size: nat, p: nat, length: nat, sum: uint32, word: uint32)
    requires Running(memory, data, size, p, length, sum) && length >= 4 && p % 2 == 0
    requires word == Word(memory[p], memory[p + 1]) + 0x1_0000 * Word(memory[p + 2], memory[p + 3])
    ensures Running(memory, data, size, p + 4, length - 4, AddCarry(sum, word))
  {
    hide Summed;
    SummedDouble(memory[data..data + size], data % 2 == 1, p - data, sum, word);
  }

  lemma RunningFold(memory: seq<byte>, data: nat, size: nat, p: nat, length: nat, sum: uint32)
    requires Running(memory, data, size, p, length, sum)
    ensures Running(memory, data, size, p, length, Fold(sum)) && Fold(sum) == Fold2(sum)
  {
    hide Summed;
    SummedFold(memory[data..data + size], data % 2 == 1, p - data, sum);
  }

  /** The leading byte, up to an even address. */
  method SumOdd(memory: array<byte>, data: nat, size: nat) returns (checksum: uint32, p: nat, length: nat)
    requires data + size <= memory.Length
    ensures Running(memory[..], data, size, p, length, checksum) && (length > 0 ==> p % 2 == 0)
    ensures checksum < 0x1_0000 && p + length <= memory.Length
  {
    hide Running;
    checksum, p, length := 0, data, size;
    RunningStart(memory[..], data, size);
    if p % 2 != 0 {
      if length >= 1 {
        RunningByte(memory[..], data, size, p, length, 0);
        var high: nat := memory[p];
        checksum := high * 256;
        p, length := p + 1, length - 1;
      }
    }
  }

  /** The leading byte and word, up to the next multiple of four. */
  method SumHead(memory: array<byte>, data: nat, size: nat) returns (checksum: uint32, p: nat, length: nat)
    requires data + size <= memory.Length
    ensures Running(memory[..], data, size, p, length, checksum) && (length > 0 ==> p % 2 == 0)
  {
    hide Running, Word;
    checksum, p, length := SumOdd(memory, data, size);
    if p / 2 % 2 != 0 {
      if length >= 2 {
        RunningWord(memory[..], data, size, p, length, checksum);
        checksum := checksum + Word(memory[p], memory[p + 1]);
        p, length := p + 2, length - 2;
      }
    }
  }

  lemma RunningStart(memory: seq<byte>, data: nat, size: nat)
    requires data + size <= |memory|
    ensures Running(memory, data, size, data, size, 0)
  {
    SummedStart(memory[data..data + size], data % 2 == 1);
  }

  lemma RunningBounds(memory: seq<byte>, data: nat, size: nat, p: nat, length: nat, sum: nat)
    requires Running(memory, data, size, p, length, sum)
    ensures p + length <= |memory|
  {
  }

  lemma RunningEnd(memory: seq<byte>, data: nat, size: nat, p: nat, sum: uint16)
    requires Running(memory, data, size, p, 0, sum)
    ensures (if data % 2 == 1 then Swap(sum) else sum) == OnesSum(memory[data..data + size])
  {
    hide Summed;
    SummedAll(memory[data..data + size], data % 2 == 1, sum);
  }

  /** The checksum of `size` bytes at the address `data`, whatever its alignment. */
  method IpCalcChecksum(memory: array<byte>, data: nat, size: nat) returns (r: uint16)
    requires data + size <= memory.Length
    ensures r == Checksum(memory[data..data + size])
  {
    hide Running, OnesSum, Swap, Word, Fold, Fold2, AddCarry;
    var checksum: uint32, p: nat, length: nat := SumHead(memory, data, size);
    RunningBounds(memory[..], data, size, p, length, checksum);
    while length >= 4
      invariant p + length <= memory.Length && (length > 0 ==> p % 2 == 0)
      invariant Running(memory[..], data, size, p, length, checksum)
    {
      var word: uint32 := Word(memory[p], memory[p + 1]) + 0x1_0000 * Word(memory[p + 2], memory[p + 3]);
      RunningDouble(memory[..], data, size, p, length, checksum, word);
      var temp: uint32 := (checksum + word) % 0x1_0000_0000;
      SumWithCarry(checksum, word, temp);
      if temp < checksum {
        checksum := temp + 1;
      } else {
        checksum := temp;
      }
      p, length := p + 4, length - 4;
    }
    RunningFold(memory[..], data, size, p, length, checksum);
    checksum := Fold(checksum);
    if length >= 2 {
      RunningWord(memory[..], data, size, p, length, checksum);
      checksum := checksum + Word(memory[p], memory[p + 1]);
      p, length := p + 2, length - 2;
    }
    if length >= 1 {
      RunningByte(memory[..], data, size, p, length, checksum);
      checksum := checksum + memory[p];
      p, length := p + 1, length - 1;
    }
    RunningFold(memory[..], data, size, p, length, checksum);
    checksum := Fold(checksum);
    RunningFold(memory[..], data, size, p, length, checksum);
    checksum := Fold2(checksum);
    RunningEnd(memory[..], data, size, p, checksum);
    if data % 2 != 0 {
      checksum := Swap(checksum);
    }
    return Complement(checksum);
  }

  lemma SumWithCarry(sum: uint32, word: uint32, temp: uint32)
    requires temp == (sum + word) % 0x1_0000_0000
    ensures AddCarry(sum, word) == if temp < sum then temp + 1 else temp
  {
  }

  // ---------------------------------------------------------------------------------------------
  // Chunks and pseudo headers

  /** The sum of two pieces, of which the first has an even or an odd number of bytes. */
  function Joined(checksum: uint16, odd: bool, sum: uint16): uint16 {
    if odd then Swap(FoldSum(Swap(checksum), sum)) else FoldSum(checksum, sum)
  }

  /** Two 16-bit sums folded once fit 16 bits. */
  function FoldSum(x: uint16, y: uint16): uint16 {
    (x + y) % 0x1_0000 + (x + y) / 0x1_0000
  }

  lemma FoldSumStands(x: uint16, y: uint16, n: nat, m: nat)
    requires Stands(x, n) && Stands(y, m)
    ensures Stands(FoldSum(x, y), n + m)
  {
    hide Stands;
    StandsAdd(x, n, y, m);
    StandsFold(x + y);
    StandsTrans(FoldSum(x, y), x + y, n + m);
  }

  lemma SwapStands(x: uint16, b: seq<byte>, odd: bool)
    requires Stands(x, Weight(b, odd))
    ensures Stands(Swap(x), Weight(b, !odd))
  {
    hide Stands, Swap, Weight;
    StandsSwap(x);
    StandsTimes256(x, Weight(b, odd));
    WeightTimes256(b, odd);
    StandsTrans(Swap(x), 256 * x, 256 * Weight(b, odd));
    StandsTrans(Swap(x), 256 * Weight(b, odd), Weight(b, !odd));
  }

  /** Joining the sums of two pieces gives the sum of both together. */
  lemma JoinedSum(b: seq<byte>, c: seq<byte>)
    ensures Joined(OnesSum(b), |b| % 2 == 1, OnesSum(c)) == OnesSum(b + c)
  {
    hide Stands, Swap, Weight, FoldSum, OnesSum;
    OnesSumWeight(b);
    OnesSumWeight(c);
    WeightConcat(b, c, false);
    if |b| % 2 == 1 {
      SwapStands(OnesSum(b), b, false);
      FoldSumStands(Swap(OnesSum(b)), OnesSum(c), Weight(b, true), Weight(c, false));
      WeightConcat(b, c, true);
      SwapStands(FoldSum(Swap(OnesSum(b)), OnesSum(c)), b + c, true);
    } else {
      FoldSumStands(OnesSum(b), OnesSum(c), Weight(b, false), Weight(c, false));
    }
    SumOfWeight(Joined(OnesSum(b), |b| % 2 == 1, OnesSum(c)), b + c);
  }

  /** The checksum of a stretch of a multi-part buffer is that of its bytes, however they are cut. */
  method IpCalcChecksumEx(memory: array<byte>, buffer: NetBuffer, offset: nat, length: nat) returns (r: uint16)
    requires InMemory(memory[..], buffer.chunks)
    ensures r == Checksum(Clip(Flat(memory[..], buffer.chunks), offset, length))
  {
    hide Clip, Spelled, Piece, Total, Reach, Skip, OnesSum, Swap;
    ghost var m, chunks := memory[..], buffer.chunks;
    var i, pos, start := 0, 0, offset;
    var checksum: uint16 := 0;
    ReadStart(m, chunks, offset, length);
    EmptySum();
    while i < |buffer.chunks| && pos < length
      invariant i <= |chunks| && start == Skip(Total(chunks, i), offset)
      invariant pos == |Clip(Spelled(m, chunks, i), offset, length)| <= length
      invariant checksum == OnesSum(Clip(Spelled(m, chunks, i), offset, length))
    {
      var c := buffer.chunks[i];
      ReadStep(m, chunks, i, offset, length);
      ReachStep(Total(chunks, i), c.length, offset, length);
      if start < c.length {
        var data := c.address + start;
        var n := Min(c.length - start, length - pos);
        JoinedSum(Clip(Spelled(m, chunks, i), offset, length), m[data..data + n]);
        if pos % 2 != 0 {
          checksum := Swap(checksum);
        }
        var sum := IpCalcChecksum(memory, data, n);
        checksum := FoldSum(checksum, Complement(sum));
        if pos % 2 != 0 {
          checksum := Swap(checksum);
        }
        pos := pos + n;
        start := 0;
      } else {
        start := start - c.length;
      }
      i := i + 1;
    }
    ReadDone(m, chunks, i, offset, length);
    return Complement(checksum);
  }

  lemma EmptySum()
    ensures OnesSum([]) == 0
  {
  }

  method IpCalcUpperLayerChecksum(memory: array<byte>, pseudoHeader: nat, pseudoHeaderLen: nat, data: nat, dataLen: nat)
    returns (r: uint16)
    requires pseudoHeader + pseudoHeaderLen <= memory.Length && data + dataLen <= memory.Length
    ensures r == UpperLayer(memory[pseudoHeader..pseudoHeader + pseudoHeaderLen], memory[data..data + dataLen])
  {
    hide OnesSum, FoldSum;
    var sum := IpCalcChecksum(memory, pseudoHeader, pseudoHeaderLen);
    var checksum := Complement(sum);
    sum := IpCalcChecksum(memory, data, dataLen);
    checksum := FoldSum(checksum, Complement(sum));
    return Complement(checksum);
  }

  method IpCalcUpperLayerChecksumEx(memory: array<byte>, pseudoHeader: nat, pseudoHeaderLen: nat, buffer: NetBuffer,
                                    offset: nat, length: nat) returns (r: uint16)
    requires pseudoHeader + pseudoHeaderLen <= memory.Length && InMemory(memory[..], buffer.chunks)
    ensures r == UpperLayer(memory[pseudoHeader..pseudoHeader + pseudoHeaderLen],
                            Clip(Flat(memory[..], buffer.chunks), offset, length))
  {
    hide OnesSum, FoldSum, Clip, Flat;
    var sum := IpCalcChecksum(memory, pseudoHeader, pseudoHeaderLen);
    var checksum := Complement(sum);
    sum := IpCalcChecksumEx(memory, buffer, offset, length);
    checksum := FoldSum(checksum, Complement(sum));
    return Complement(checksum);
  }

  /** What the upper-layer forms compute. */
  function UpperLayer(pseudoHeader: seq<byte>, data: seq<byte>): uint16 {
    Complement(FoldSum(OnesSum(pseudoHeader), OnesSum(data)))
  }

  /** That is the checksum of the pseudo header followed by the data exactly when the pseudo header has an
      even number of bytes, or the sum of the data reads the same both ways round. */
  lemma UpperLayerExactly(pseudoHeader: seq<byte>, data: seq<byte>)
    ensures UpperLayer(pseudoHeader, data) == Checksum(pseudoHeader + data)
      <==> |pseudoHeader| % 2 == 0 || Swap(OnesSum(data)) == OnesSum(data)
  {
    hide OnesSum, Swap, FoldSum;
    JoinedSum(pseudoHeader, data);
    if |pseudoHeader| % 2 == 1 {
      var x, y := OnesSum(pseudoHeader), OnesSum(data);
      SwapFold(x, y);
      if FoldSum(x, y) == FoldSum(x, Swap(y)) {
        SwapZero(y);
        FoldSumCancels(x, y, Swap(y));
      }
    }
  }

  /** Such a pseudo header and data: one byte each. */
  lemma UpperLayerExample()
    ensures UpperLayer([0], [1]) == 0xFFFE && Checksum([0] + [1]) == 0xFEFF
  {
    assert ([0] + [1])[2..] == [];
    assert OnesSum([0]) == 0 && OnesSum([1]) == 1;
    assert OnesSum([0] + [1]) == OnesAdd(256, 0) == 256;
  }

  lemma SwapFold(x: uint16, y: uint16)
    ensures Swap(FoldSum(Swap(x), y)) == FoldSum(x, Swap(y))
  {
    hide Stands, Swap, FoldSum, OnesAdd;
    FoldIsOnesAdd(Swap(x), y);
    FoldIsOnesAdd(x, Swap(y));
    SwapAdds(Swap(x), y);
    SwapTwice(x);
  }

  lemma FoldIsOnesAdd(x: uint16, y: uint16)
    ensures FoldSum(x, y) == OnesAdd(x, y)
  {
  }

  lemma SwapTwice(x: uint16)
    ensures Swap(Swap(x)) == x
  {
    var h, l := x / 256, x % 256;
    SwapParts(h, l);
    SwapParts(l, h);
  }

  lemma SwapParts(h: nat, l: nat)
    requires h < 256 && l < 256
    ensures h * 256 + l < 0x1_0000 && Swap(h * 256 + l) == l * 256 + h
  {
    Arithmetic.DivModUnique(h * 256 + l, 256, h, l);
  }

  lemma SwapZero(x: uint16)
    ensures Swap(x) == 0 <==> x == 0
  {
  }

  /** One's complement addition cancels, but for the two representations of zero. */
  lemma FoldSumCancels(x: uint16, y: uint16, z: uint16)
    requires FoldSum(x, y) == FoldSum(x, z) && (y == 0 <==> z == 0)
    ensures y == z
  {
    FoldIsOnesAdd(x, y);
    FoldIsOnesAdd(x, z);
  }

  /** A message whose field at an even place is filled with the checksum over it checks out, alone or
      behind a pseudo header. */
  lemma FilledChecksOut(pseudoHeader: seq<byte>, b: seq<byte>, k: nat)
    requires k + 2 <= |b| && k % 2 == 0 && |pseudoHeader| % 2 == 0
    ensures Checksum(WithWord(b, k, Checksum(WithWord(b, k, 0)))) == 0
    ensures UpperLayer(pseudoHeader, WithWord(b, k, UpperLayer(pseudoHeader, WithWord(b, k, 0)))) == 0
  {
    hide OnesSum, FoldSum;
    ChecksumExactly(b, k, Checksum(WithWord(b, k, 0)));
    var x := UpperLayer(pseudoHeader, WithWord(b, k, 0));
    UpperLayerExactly(pseudoHeader, WithWord(b, k, 0));
    UpperLayerExactly(pseudoHeader, WithWord(b, k, x));
    var p := pseudoHeader;
    assert p + WithWord(b, k, 0) == WithWord(p + b, |p| + k, 0);
    assert p + WithWord(b, k, x) == WithWord(p + b, |p| + k, x);
    ChecksumExactly(p + b, |p| + k, x);
  }
}
