/** The pseudo-random generator, which keeps the state of Trivium packed in 36 bytes: core/net_misc.c. */
module RandomGenerator {
  import opened Common
  import opened Trivium
  import Arithmetic

  const STATE_SIZE := 36
  const SEED_SIZE := 10
  const STATE_BITS := 288

  // ---------------------------------------------------------------------------------------------
  // Bits in bytes

  function Mask(k: nat): bv8
    requires k < 8
  {
    if k == 0 then 0x01 else if k == 1 then 0x02 else if k == 2 then 0x04 else if k == 3 then 0x08
    else if k == 4 then 0x10 else if k == 5 then 0x20 else if k == 6 then 0x40 else 0x80
  }

  /** Bit `k` of a byte, lowest first. */
  predicate BitOf(x: bv8, k: nat)
    requires k < 8
  {
    x & Mask(k) != 0
  }

  function WithBit(x: bv8, k: nat, v: bool): bv8
    requires k < 8
  {
    (x & !Mask(k)) | if v then Mask(k) else 0
  }

  lemma BitSet(x: bv8, k: nat, v: bool, j: nat)
    requires k < 8 && j < 8
    ensures BitOf(WithBit(x, k, v), j) == if j == k then v else BitOf(x, j)
  {
  }

  /** A byte shifted up, with the top bit of the byte below shifted in. */
  function Shifted(x: bv8, below: bv8): bv8 {
    (x << 1) | (below >> 7)
  }

  lemma BitShifted(x: bv8, below: bv8, k: nat)
    requires k < 8
    ensures BitOf(Shifted(x, below), k) == if k == 0 then BitOf(below, 7) else BitOf(x, k - 1)
  {
  }

  /** A byte shifted down by three, with the low bits of the byte above shifted in. */
  function ShiftedDown(x: bv8, above: bv8): bv8 {
    (above << 5) | (x >> 3)
  }

  lemma BitShiftedDown(x: bv8, above: bv8, k: nat)
    requires k < 8
    ensures BitOf(ShiftedDown(x, above), k) == if k < 5 then BitOf(x, k + 3) else BitOf(above, k - 5)
  {
  }

  /** Bit `n` of the state, counted from one. */
  predicate GetBit(s: seq<bv8>, n: nat)
    requires 1 <= n <= 8 * |s|
  {
    BitOf(s[(n - 1) / 8], (n - 1) % 8)
  }

  /** The three registers packed in the bytes. */
  function Unpacked(s: seq<bv8>): (r: Registers)
    requires |s| == STATE_SIZE
    ensures r.Valid()
  {
    hide BitOf;
    Registers(seq(93, i requires 0 <= i < 93 => GetBit(s, i + 1)),
              seq(84, i requires 0 <= i < 84 => GetBit(s, i + 94)),
              seq(111, i requires 0 <= i < 111 => GetBit(s, i + 178)))
  }

  /** `s'` is `s` with bit `n` set to `v`. */
  predicate BitChanged(s: seq<bv8>, s': seq<bv8>, n: nat, v: bool) {
    |s'| == |s| && forall m :: 1 <= m <= 8 * |s| ==> GetBit(s', m) == if m == n then v else GetBit(s, m)
  }

  method SetBit(s: array<bv8>, n: nat, v: bool)
    requires 1 <= n <= 8 * s.Length
    modifies s
    ensures BitChanged(old(s[..]), s[..], n, v)
  {
    hide BitOf, WithBit;
    ghost var t := s[..];
    var i, k := (n - 1) / 8, (n - 1) % 8;
    s[i] := WithBit(s[i], k, v);
    forall m | 1 <= m <= 8 * |t| ensures GetBit(s[..], m) == if m == n then v else GetBit(t, m) {
      BitSet(t[i], k, v, (m - 1) % 8);
      assert m == 8 * ((m - 1) / 8) + (m - 1) % 8 + 1;
    }
  }

  /** `s'` is `s` with every bit moved one place up; the first is left open. */
  predicate Rotated(s: seq<bv8>, s': seq<bv8>) {
    |s| == |s'| == STATE_SIZE && forall m :: 2 <= m <= STATE_BITS ==> GetBit(s', m) == GetBit(s, m - 1)
  }

  /** Moves every bit of the state one place up. */
  method RotateState(s: array<bv8>)
    requires s.Length == STATE_SIZE
    modifies s
    ensures Rotated(old(s[..]), s[..])
  {
    hide BitOf, Shifted;
    ghost var t := s[..];
    var i := 35;
    while i > 0
      invariant 0 <= i <= 35
      invariant forall k :: i < k < STATE_SIZE ==> s[k] == Shifted(t[k], t[k - 1])
      invariant forall k :: 0 <= k <= i ==> s[k] == t[k]
    {
      s[i] := Shifted(s[i], s[i - 1]);
      i := i - 1;
    }
    s[0] := Shifted(s[0], 0);
    forall m | 2 <= m <= STATE_BITS ensures GetBit(s[..], m) == GetBit(t, m - 1) {
      MovedBit(t, s[..], m);
    }
  }

  lemma MovedBit(t: seq<bv8>, s: seq<bv8>, m: nat)
    requires |s| == |t| == STATE_SIZE && 2 <= m <= STATE_BITS
    requires s[0] == Shifted(t[0], 0) && forall k :: 1 <= k < STATE_SIZE ==> s[k] == Shifted(t[k], t[k - 1])
    ensures GetBit(s, m) == GetBit(t, m - 1)
  {
    hide BitOf, Shifted;
    var i, k := (m - 1) / 8, (m - 1) % 8;
    BitShifted(t[i], if i == 0 then 0 else t[i - 1], k);
    if k == 0 {
      assert m - 2 == 8 * (i - 1) + 7;
      assert (m - 2) / 8 == i - 1 && (m - 2) % 8 == 7;
    } else {
      assert m - 2 == 8 * i + (k - 1);
      assert (m - 2) / 8 == i && (m - 2) % 8 == k - 1;
    }
  }

  /** One step: the key stream bit of the state, and the state that follows. */
  method GenerateRandBit(s: array<bv8>) returns (z: bool)
    requires s.Length == STATE_SIZE
    modifies s
    ensures z == KeyBit(Unpacked(old(s[..])))
    ensures Unpacked(s[..]) == Next(Unpacked(old(s[..])))
  {
    hide GetBit, Unpacked, Plus, BitChanged, Rotated, Next, KeyBit;
    ghost var t := s[..];
    NextFromTaps(t);
    var t1 := Plus(GetBit(s[..], 66), GetBit(s[..], 93));
    var t2 := Plus(GetBit(s[..], 162), GetBit(s[..], 177));
    var t3 := Plus(GetBit(s[..], 243), GetBit(s[..], 288));
    z := Plus(Plus(t1, t2), t3);
    t1 := Plus(t1, GetBit(s[..], 91) && GetBit(s[..], 92));
    t1 := Plus(t1, GetBit(s[..], 171));
    t2 := Plus(t2, GetBit(s[..], 175) && GetBit(s[..], 176));
    t2 := Plus(t2, GetBit(s[..], 264));
    t3 := Plus(t3, GetBit(s[..], 286) && GetBit(s[..], 287));
    t3 := Plus(t3, GetBit(s[..], 69));
    RotateState(s);
    ghost var s0 := s[..];
    SetBit(s, 1, t3);
    ghost var s1 := s[..];
    SetBit(s, 94, t1);
    ghost var s2 := s[..];
    SetBit(s, 178, t2);
    StepRefines(t, s0, s1, s2, s[..], t1, t2, t3);
  }

  /** Where the taps of the packed state lie in the registers. */
  lemma Taps(s: seq<bv8>)
    requires |s| == STATE_SIZE
    ensures var r := Unpacked(s);
      && GetBit(s, 66) == r.a[65] && GetBit(s, 69) == r.a[68] && GetBit(s, 91) == r.a[90]
      && GetBit(s, 92) == r.a[91] && GetBit(s, 93) == r.a[92]
      && GetBit(s, 162) == r.b[68] && GetBit(s, 171) == r.b[77] && GetBit(s, 175) == r.b[81]
      && GetBit(s, 176) == r.b[82] && GetBit(s, 177) == r.b[83]
      && GetBit(s, 243) == r.c[65] && GetBit(s, 264) == r.c[86] && GetBit(s, 286) == r.c[108]
      && GetBit(s, 287) == r.c[109] && GetBit(s, 288) == r.c[110]
  {
    hide GetBit;
  }

  /** The step of the registers by the taps of the packed state. */
  lemma NextFromTaps(s: seq<bv8>)
    requires |s| == STATE_SIZE
    ensures var r := Unpacked(s);
      var t1, t2 := Plus(GetBit(s, 66), GetBit(s, 93)), Plus(GetBit(s, 162), GetBit(s, 177));
      var t3 := Plus(GetBit(s, 243), GetBit(s, 288));
      && KeyBit(r) == Plus(Plus(t1, t2), t3)
      && Next(r) == Registers([Plus(Plus(t3, GetBit(s, 286) && GetBit(s, 287)), GetBit(s, 69))] + r.a[..92],
                              [Plus(Plus(t1, GetBit(s, 91) && GetBit(s, 92)), GetBit(s, 171))] + r.b[..83],
                              [Plus(Plus(t2, GetBit(s, 175) && GetBit(s, 176)), GetBit(s, 264))] + r.c[..110])
  {
    hide GetBit, Unpacked, Plus;
    Taps(s);
  }

  /** What the writes to the packed state mean for the registers. */
  lemma StepRefines(t: seq<bv8>, s0: seq<bv8>, s1: seq<bv8>, s2: seq<bv8>, s: seq<bv8>, t1: bool, t2: bool, t3: bool)
    requires Rotated(t, s0) && BitChanged(s0, s1, 1, t3) && BitChanged(s1, s2, 94, t1) && BitChanged(s2, s, 178, t2)
    ensures |s| == |t| == STATE_SIZE
    ensures var r, r' := Unpacked(t), Unpacked(s);
      r' == Registers([t3] + r.a[..92], [t1] + r.b[..83], [t2] + r.c[..110])
  {
    hide GetBit;
    var r, r' := Unpacked(t), Unpacked(s);
    forall m | 1 <= m <= STATE_BITS
      ensures GetBit(s, m) == if m == 178 then t2 else if m == 94 then t1 else if m == 1 then t3 else GetBit(t, m - 1)
    {
      assert GetBit(s2, m) == if m == 94 then t1 else GetBit(s1, m);
      assert GetBit(s1, m) == if m == 1 then t3 else GetBit(s0, m);
    }
    assert r'.a == [t3] + r.a[..92];
    assert r'.b == [t1] + r.b[..83];
    assert r'.c == [t2] + r.c[..110];
  }

  // ---------------------------------------------------------------------------------------------
  // The generator

  /** The bits of a string of bytes, lowest first. */
  function Bits(b: seq<bv8>): (z: seq<bool>)
    ensures |z| == 8 * |b|
  {
    seq(8 * |b|, i requires 0 <= i < 8 * |b| => GetBit(b, i + 1))
  }

  function BigEndian(n: uint16): (b: seq<bv8>)
    ensures |b| == 2
  {
    [(n / 256) as bv8, (n % 256) as bv8]
  }

  function PowerOfTwo(k: nat): (p: nat)
    ensures p >= 1
  {
    if k == 0 then 1 else 2 * PowerOfTwo(k - 1)
  }

  /** Bits read as a number, lowest first. */
  function Number(z: seq<bool>): (n: nat)
    ensures n < PowerOfTwo(|z|)
  {
    if z == [] then 0
    else Number(z[..|z| - 1]) + if z[|z| - 1] then PowerOfTwo(|z| - 1) else 0
  }

  /** The lowest bit of a byte comes first, and so does the lowest of a number; the counter goes into the vector high
      byte first. */
  lemma BitOrder()
    ensures forall i :: 0 <= i < 16 ==> Bits([0x01, 0x80])[i] == (i == 0 || i == 15)
    ensures Number([true, false, false]) == 1 && Number([false, false, true]) == 4
    ensures BigEndian(0x0102) == [1, 2]
  {
    var z := [false, false, true];
    assert z[..2] == [false, false] && z[..2][..1] == [false] && z[..2][..1][..0] == [];
    var y := [true, false, false];
    assert y[..2] == [true, false] && y[..2][..1] == [true] && y[..2][..1][..0] == [];
    assert PowerOfTwo(1) == 2 && PowerOfTwo(2) == 4;
  }

  const ROTATIONS := 4 * 288

  /** How many values a range holds, in 32 bits. */
  function RangeSize(min: uint32, max: uint32): uint32 {
    (max - min + 1) % 0x1_0000_0000
  }

  /** It is zero for the full range and for no other. */
  lemma RangeSizeExactly(min: uint32, max: uint32)
    requires max > min
    ensures RangeSize(min, max) == 0 <==> min == 0 && max == 0xFFFF_FFFF
    ensures RangeSize(min, max) != 0 ==> RangeSize(min, max) == max - min + 1
  {
  }

  class RandState {
    var counter: uint16
    const s: array<bv8>

    constructor ()
      ensures fresh(s) && s.Length == STATE_SIZE && counter == 0
    {
      counter := 0;
      s := new bv8[STATE_SIZE](_ => 0);
    }

    ghost function Value(): Registers
      requires s.Length == STATE_SIZE
      reads s
    {
      Unpacked(s[..])
    }

    /** Loads key and initialization vector, the latter from the interface identifier and the number of
        times this has been done, and rotates the state four full cycles. */
    method InitRand(seed: seq<bv8>, eui64: seq<bv8>)
      requires s.Length == STATE_SIZE && |seed| == SEED_SIZE && |eui64| == 8
      modifies this, s
      ensures counter == (old(counter) + 1) % 0x1_0000
      ensures Value() == After(Loaded(Bits(seed), Bits(eui64 + BigEndian(counter))), 4 * 288)
    {
      hide Unpacked, After, Loaded, KeyBit, Next, GetBit;
      counter := (counter + 1) % 0x1_0000;
      var iv := eui64 + BigEndian(counter);
      LoadState(seed, iv);
      ghost var r := Value();
      AfterNone(r);
      for i := 0 to ROTATIONS
        invariant Value() == After(r, i) && counter == (old(counter) + 1) % 0x1_0000
      {
        AfterOne(r, i);
        var z := GenerateRandBit(s);
      }
    }

    method LoadState(seed: seq<bv8>, iv: seq<bv8>)
      requires s.Length == STATE_SIZE && |seed| == SEED_SIZE && |iv| == SEED_SIZE
      modifies s
      ensures Value() == Loaded(Bits(seed), Bits(iv))
    {
      hide Unpacked, GetBit, BitChanged, ShiftedDown;
      for i := 0 to STATE_SIZE
        invariant forall k :: 0 <= k < i ==> s[k] == 0
      {
        s[i] := 0;
      }
      for i := 0 to SEED_SIZE
        invariant forall k :: 0 <= k < STATE_SIZE ==> s[k] == if k < i then seed[k] else 0
      {
        s[i] := seed[i];
      }
      for i := 0 to SEED_SIZE
        invariant forall k :: 0 <= k < STATE_SIZE ==>
          s[k] == if k < SEED_SIZE then seed[k] else if 12 <= k < 12 + i then iv[k - 12] else 0
      {
        s[12 + i] := iv[i];
      }
      ghost var t := s[..];
      for i := 11 to 22
        invariant forall k :: 0 <= k < 11 || i <= k < STATE_SIZE ==> s[k] == t[k]
        invariant forall k :: 11 <= k < i ==> s[k] == ShiftedDown(t[k], t[k + 1])
      {
        s[i] := ShiftedDown(s[i], s[i + 1]);
      }
      ghost var u := s[..];
      SetBit(s, 286, true);
      ghost var u1 := s[..];
      SetBit(s, 287, true);
      ghost var u2 := s[..];
      SetBit(s, 288, true);
      LoadRefines(seed, iv, t, u, u1, u2, s[..]);
    }

    /** A random 32-bit value: 32 bits of key stream, lowest first, plus the entropy gathered. */
    method GenerateRand(entropy: uint32) returns (r: uint32)
      requires s.Length == STATE_SIZE
      modifies s
      ensures Value() == After(old(Value()), 32)
      ensures r == (Number(Stream(old(Value()), 32)) + entropy) % 0x1_0000_0000
    {
      hide Unpacked, After, Stream, Number;
      var value := GenerateBits(32);
      return (value + entropy) % 0x1_0000_0000;
    }

    /** The next `n` bits of key stream as a number. */
    method GenerateBits(n: nat) returns (value: nat)
      requires s.Length == STATE_SIZE
      modifies s
      ensures Value() == After(old(Value()), n)
      ensures value == Number(Stream(old(Value()), n))
    {
      hide Unpacked, Next, KeyBit, After, Stream, Number;
      ghost var r := Value();
      value := 0;
      AfterNone(r);
      for i := 0 to n
        invariant Value() == After(r, i) && value == Number(Stream(r, i))
      {
        AfterOne(r, i);
        NumberOne(r, i);
        var z := GenerateRandBit(s);
        if z {
          value := value + PowerOfTwo(i);
        }
      }
    }

    /** A random value in a range, the bounds included; an empty range gives its lower bound, and the full
        range of 32 bits divides by zero. */
    method GenerateRandRange(entropy: uint32, min: uint32, max: uint32) returns (r: uint32)
      requires s.Length == STATE_SIZE && (max > min ==> RangeSize(min, max) != 0)
      modifies s
      ensures max > min ==> min <= r <= max && Value() == After(old(Value()), 32)
      ensures max > min ==>
        r == min + (Number(Stream(old(Value()), 32)) + entropy) % 0x1_0000_0000 % RangeSize(min, max)
      ensures max <= min ==> r == min && Value() == old(Value())
    {
      if max > min {
        var value := GenerateRand(entropy);
        return min + value % RangeSize(min, max);
      }
      return min;
    }

    /** Fills `length` bytes, eight bits of key stream each. */
    method GenerateRandData(entropy: uint32, data: array<bv8>, length: nat)
      requires s.Length == STATE_SIZE && data != s && length <= data.Length
      modifies s, data
      ensures Value() == After(old(Value()), 8 * length)
      ensures forall k :: 0 <= k < length ==>
        data[k] == ((Number(Stream(After(old(Value()), 8 * k), 8)) + entropy) % 256) as bv8
      ensures forall k :: length <= k < data.Length ==> data[k] == old(data[k])
    {
      hide Unpacked, After, Stream, Number;
      ghost var r := Value();
      AfterNone(r);
      for i := 0 to length
        invariant Value() == After(r, 8 * i)
        invariant forall k :: 0 <= k < i ==> data[k] == ((Number(Stream(After(r, 8 * k), 8)) + entropy) % 256) as bv8
        invariant forall k :: i <= k < data.Length ==> data[k] == old(data[k])
      {
        AfterSum(r, 8 * i, 8);
        var value := GenerateBits(8);
        data[i] := ((value + entropy) % 256) as bv8;
      }
    }
  }

  lemma AfterNone(r: Registers)
    requires r.Valid()
    ensures After(r, 0) == r && Number(Stream(r, 0)) == 0
  {
  }

  lemma AfterOne(r: Registers, i: nat)
    requires r.Valid()
    ensures After(r, i + 1) == Next(After(r, i))
  {
    hide Next;
  }

  lemma NumberOne(r: Registers, i: nat)
    requires r.Valid()
    ensures Number(Stream(r, i + 1)) == Number(Stream(r, i)) + if KeyBit(After(r, i)) then PowerOfTwo(i) else 0
  {
    hide KeyBit, After;
    assert Stream(r, i + 1)[..i] == Stream(r, i);
  }

  /** Key and vector as loaded byte by byte lie where the registers have them. */
  lemma LoadRefines(seed: seq<bv8>, iv: seq<bv8>, t: seq<bv8>, u: seq<bv8>, u1: seq<bv8>, u2: seq<bv8>, s: seq<bv8>)
    requires |seed| == |iv| == SEED_SIZE && |t| == |u| == STATE_SIZE
    requires forall k :: 0 <= k < STATE_SIZE ==>
      t[k] == if k < SEED_SIZE then seed[k] else if 12 <= k < 22 then iv[k - 12] else 0
    requires forall k :: 0 <= k < 11 || 22 <= k < STATE_SIZE ==> u[k] == t[k]
    requires forall k :: 11 <= k < 22 ==> u[k] == ShiftedDown(t[k], t[k + 1])
    requires BitChanged(u, u1, 286, true) && BitChanged(u1, u2, 287, true) && BitChanged(u2, s, 288, true)
    ensures |s| == STATE_SIZE && Unpacked(s) == Loaded(Bits(seed), Bits(iv))
  {
    hide GetBit;
    forall m | 1 <= m <= STATE_BITS ensures GetBit(s, m) == if m >= 286 then true else GetBit(u, m) {
      assert GetBit(s, m) == if m == 288 then true else GetBit(u2, m);
      assert GetBit(u2, m) == if m == 287 then true else GetBit(u1, m);
    }
    forall m | 1 <= m < 286
      ensures GetBit(u, m) == if m <= 80 then GetBit(seed, m) else if 94 <= m <= 173 then GetBit(iv, m - 93) else false
    {
      LoadedBit(seed, iv, t, u, m);
    }
    var r := Loaded(Bits(seed), Bits(iv));
    assert Unpacked(s).a == r.a;
    assert Unpacked(s).b == r.b;
    assert Unpacked(s).c == r.c;
  }

  lemma LoadedBit(seed: seq<bv8>, iv: seq<bv8>, t: seq<bv8>, u: seq<bv8>, m: nat)
    requires |seed| == |iv| == SEED_SIZE && |t| == |u| == STATE_SIZE && 1 <= m < 286
    requires forall k :: 0 <= k < STATE_SIZE ==>
      t[k] == if k < SEED_SIZE then seed[k] else if 12 <= k < 22 then iv[k - 12] else 0
    requires forall k :: 0 <= k < 11 || 22 <= k < STATE_SIZE ==> u[k] == t[k]
    requires forall k :: 11 <= k < 22 ==> u[k] == ShiftedDown(t[k], t[k + 1])
    ensures GetBit(u, m) == if m <= 80 then GetBit(seed, m) else if 94 <= m <= 173 then GetBit(iv, m - 93) else false
  {
    hide BitOf, ShiftedDown;
    var i, k := (m - 1) / 8, (m - 1) % 8;
    assert m - 1 == 8 * i + k;
    forall j | 0 <= j < 8 ensures !BitOf(0, j) {
      NoBit(j);
    }
    if 11 <= i < 22 {
      BitShiftedDown(t[i], t[i + 1], k);
      if 94 <= m <= 173 {
        if k < 5 {
          Arithmetic.DivModUnique(m - 94, 8, i - 12, k + 3);
        } else {
          Arithmetic.DivModUnique(m - 94, 8, i - 11, k - 5);
        }
      }
    }
  }

  lemma NoBit(k: nat)
    requires k < 8
    ensures !BitOf(0, k)
  {
  }
}
