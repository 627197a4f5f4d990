/** The value of a Block1 or Block2 option: section 2.2 of RFC 7959, in 32-bit arithmetic. */
module BlockOption {
  import opened Common
  import opened Arithmetic

  const BLOCK2: uint16 := 23
  const BLOCK1: uint16 := 27
  /** The reserved SZX. */
  const SZX_RESERVED := 7
  const WORD := 0x1_0000_0000

  /** 2 to the power of a SZX. */
  function Scale(szx: nat): (k: nat)
    requires szx < 8
    ensures k > 0
  {
    if szx == 0 then 1 else if szx == 1 then 2 else if szx == 2 then 4 else if szx == 3 then 8
    else if szx == 4 then 16 else if szx == 5 then 32 else if szx == 6 then 64 else 128
  }

  function BlockSize(szx: nat): (n: nat)
    requires szx < 8
    ensures 16 <= n <= 2048
  {
    16 * Scale(szx)
  }

  /** The block sizes that can be asked for. */
  predicate IsBlockSize(n: nat) {
    exists szx :: 0 <= szx <= 6 && n == BlockSize(szx)
  }

  function SzxOfSize(n: nat): (szx: nat)
    ensures szx <= 6 && BlockSize(szx) == if IsBlockSize(n) then n else 1024
  {
    if n == 16 then assert BlockSize(0) == n; 0
    else if n == 32 then assert BlockSize(1) == n; 1
    else if n == 64 then assert BlockSize(2) == n; 2
    else if n == 128 then assert BlockSize(3) == n; 3
    else if n == 256 then assert BlockSize(4) == n; 4
    else if n == 512 then assert BlockSize(5) == n; 5
    else assert BlockSize(6) == 1024; 6
  }

  function Szx(value: uint32): (s: nat)
    ensures s < 8
  {
    value % 8
  }

  function More(value: uint32): bool {
    value / 8 % 2 == 1
  }

  /** The position of a block, in bytes from the start of the body. */
  function BlockPos(value: uint32): uint32 {
    value / 16 * 16 * Scale(Szx(value)) % WORD
  }

  function SetNum(value: uint32, num: uint32): uint32 {
    value % 16 + num * 16 % WORD
  }

  function SetMore(value: uint32, m: bool): uint32 {
    value / 16 * 16 + (if m then 8 else 0) + value % 8
  }

  function SetSzx(value: uint32, szx: nat): uint32
    requires szx < 8
  {
    value / 8 * 8 + szx
  }

  /** The number of the block that starts at `pos`. */
  function BlockNum(pos: uint32, szx: nat): uint32
    requires szx < 8
  {
    pos / BlockSize(szx)
  }

  /** The three fields of section 2.2 of RFC 7959, for every value of theirs: three bits for the size, one for more
      blocks, and the number above them. */
  lemma BlockFormat(num: nat, m: bool, szx: nat)
    requires num < 0x1000_0000 && szx < 8
    ensures var v := num * 16 + (if m then 8 else 0) + szx;
      && Szx(v) == szx && More(v) == m
      && BlockPos(v) == num * [16, 32, 64, 128, 256, 512, 1024, 2048][szx] % 0x1_0000_0000
      && BlockSize(szx) == [16, 32, 64, 128, 256, 512, 1024, 2048][szx]
  {
    hide Scale;
    var low := (if m then 8 else 0) + szx;
    var v := num * 16 + low;
    DivModUnique(v, 16, num, low);
    DivModUnique(v, 8, num * 2 + (if m then 1 else 0), szx);
    DivModUnique(num * 2 + (if m then 1 else 0), 2, num, if m then 1 else 0);
    Scales();
    assert num * 16 * Scale(szx) == num * (16 * Scale(szx));
  }

  lemma Scales()
    ensures forall szx :: 0 <= szx < 8 ==> Scale(szx) == [1, 2, 4, 8, 16, 32, 64, 128][szx]
  {
  }

  /** The three fields written over any value say what was written. */
  lemma FieldsWritten(value: uint32, pos: uint32, m: bool, szx: nat)
    requires szx < 8 && pos % BlockSize(szx) == 0
    ensures var v := SetSzx(SetMore(SetNum(value, BlockNum(pos, szx)), m), szx);
      Szx(v) == szx && More(v) == m && BlockPos(v) == pos
  {
    hide BlockNum, SetNum, SetMore, SetSzx, Scale, BlockSize;
    var q := BlockNum(pos, szx);
    NumTimesSize(pos, szx);
    WrittenValue(value, q, m, szx);
    var v := SetSzx(SetMore(SetNum(value, q), m), szx);
    DivModUnique(v, 16, q, (if m then 8 else 0) + szx);
    DivModUnique(v, 8, q * 2 + (if m then 1 else 0), szx);
    DivModUnique(v / 8, 2, q, if m then 1 else 0);
  }

  lemma WrittenValue(value: uint32, num: uint32, m: bool, szx: nat)
    requires szx < 8 && num * 16 < WORD
    ensures SetSzx(SetMore(SetNum(value, num), m), szx) == num * 16 + (if m then 8 else 0) + szx
  {
    var v1 := SetNum(value, num);
    assert v1 / 16 == num;
    var v2 := SetMore(v1, m);
    assert v2 / 8 == num * 2 + (if m then 1 else 0);
  }

  lemma NumTimesSize(pos: uint32, szx: nat)
    requires szx < 8 && pos % BlockSize(szx) == 0
    ensures BlockNum(pos, szx) * 16 < WORD && BlockNum(pos, szx) * 16 * Scale(szx) == pos
  {
    if szx == 0 {
    } else if szx == 1 {
    } else if szx == 2 {
    } else if szx == 3 {
    } else if szx == 4 {
    } else if szx == 5 {
    } else if szx == 6 {
    } else {
    }
  }

  /** Number and size written over an acknowledged value give the position of the next block. */
  lemma NumSzxWritten(value: uint32, pos: uint32, szx: nat)
    requires szx < 8 && pos % BlockSize(szx) == 0
    ensures var v := SetSzx(SetNum(value, BlockNum(pos, szx)), szx);
      Szx(v) == szx && BlockPos(v) == pos
  {
    hide BlockNum, Scale, BlockSize;
    var q := BlockNum(pos, szx);
    NumTimesSize(pos, szx);
    var low := value % 16 / 8;
    var v1 := SetNum(value, q);
    DivModUnique(v1, 8, q * 2 + low, value % 16 % 8);
    var v := SetSzx(v1, szx);
    DivModUnique(v, 16, q, low * 8 + szx);
    DivModUnique(v, 8, q * 2 + low, szx);
  }

  /** A position that suits a block size suits every smaller one. */
  lemma {:induction false} AlignedForSmaller(pos: nat, szx: nat, szx': nat)
    requires szx' <= szx < 8 && pos % BlockSize(szx) == 0
    ensures pos % BlockSize(szx') == 0
    decreases szx
  {
    if szx' < szx {
      AlignedForHalf(pos, szx);
      AlignedForSmaller(pos, szx - 1, szx');
    }
  }

  lemma AlignedForHalf(pos: nat, szx: nat)
    requires 1 <= szx < 8 && pos % BlockSize(szx) == 0
    ensures pos % BlockSize(szx - 1) == 0
  {
    var d := BlockSize(szx - 1);
    assert BlockSize(szx) == d * 2;
    MultipleOf(pos, d * 2);
    assert pos == d * (2 * (pos / (d * 2)));
    MultipleMod(d, 2 * (pos / (d * 2)));
  }

  lemma NextAligned(pos: nat, szx: nat, szx': nat)
    requires szx' <= szx < 8 && pos % BlockSize(szx) == 0
    ensures (pos + BlockSize(szx)) % BlockSize(szx') == 0
  {
    hide BlockSize;
    var d := BlockSize(szx);
    MultipleOf(pos, d);
    assert pos + d == d * (pos / d + 1);
    MultipleMod(d, pos / d + 1);
    AlignedForSmaller(pos + d, szx, szx');
  }

  /** Cutting a multiple of a block size to 32 bits leaves a multiple of it. */
  lemma WordAligned(x: nat, szx: nat)
    requires szx < 8 && x % BlockSize(szx) == 0
    ensures x % WORD % BlockSize(szx) == 0
  {
    ModOfMod(x, BlockSize(szx), WORD / BlockSize(szx));
  }

  /** The position of a block suits its size. */
  lemma PosAligned(value: uint32)
    ensures BlockPos(value) % BlockSize(Szx(value)) == 0
  {
    hide Scale;
    var num, szx := value / 16, Szx(value);
    MultipleMod(BlockSize(szx), num);
    assert value / 16 * 16 * Scale(szx) == BlockSize(szx) * num;
    WordAligned(BlockSize(szx) * num, szx);
  }

  /** The same for a position that wraps 32 bits. */
  lemma NextAlignedWord(pos: uint32, szx: nat, szx': nat)
    requires szx' <= szx < 8 && pos % BlockSize(szx) == 0
    ensures (pos + BlockSize(szx)) % WORD % BlockSize(szx') == 0
  {
    hide BlockSize;
    NextAligned(pos, szx, szx');
    WordAligned(pos + BlockSize(szx), szx');
  }

  /** A size preference without a position asks for position 0. */
  lemma StartWritten(value: uint32, szx: nat)
    requires szx < 8
    ensures SetSzx(SetMore(SetNum(value, 0), false), szx) == szx && BlockPos(szx) == 0
  {
    hide Scale;
    WrittenValue(value, 0, false, szx);
    assert szx / 16 * 16 == 0;
  }
}
