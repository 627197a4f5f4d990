/** The 16-bit one's complement sum of RFC 1071, section 1, and its arithmetic. */
module OnesComplement {
  import opened Common

  const MODULUS := 0xFFFF

  /** Adding with end-around carry. */
  function OnesAdd(x: uint16, y: uint16): uint16 {
    if x + y >= 0x1_0000 then x + y - MODULUS else x + y
  }

  function Word(low: nat, high: nat): uint16
    requires low < 256 && high < 256
  {
    low + 256 * high
  }

  /** The sum of the 16-bit words of `b`, low byte first; a last odd byte counts as a low byte. */
  function OnesSum(b: seq<byte>): uint16 {
    if |b| == 0 then 0
    else if |b| == 1 then b[0]
    else OnesAdd(Word(b[0], b[1]), OnesSum(b[2..]))
  }

  /** The same with the high byte first, as on a host of the other byte order. */
  function OnesSumSwapped(b: seq<byte>): uint16 {
    if |b| == 0 then 0
    else if |b| == 1 then Word(0, b[0])
    else OnesAdd(Word(b[1], b[0]), OnesSumSwapped(b[2..]))
  }

  function Complement(x: uint16): uint16 {
    0xFFFF - x
  }

  function Swap(x: uint16): uint16 {
    x / 256 + x % 256 * 256
  }

  // ---------------------------------------------------------------------------------------------
  // Numbers modulo 65535, with zero told apart

  /** `x` stands for `n`: they differ by a multiple of 65535, and are zero together. */
  predicate Stands(x: nat, n: nat) {
    (x - n) % MODULUS == 0 && (x == 0 <==> n == 0)
  }

  lemma StandsTrans(x: nat, y: nat, z: nat)
    requires Stands(x, y) && Stands(y, z)
    ensures Stands(x, z)
  {
    assert x - z == (x - y) + (y - z);
  }

  lemma StandsSym(x: nat, y: nat)
    requires Stands(x, y)
    ensures Stands(y, x)
  {
  }

  lemma StandsAdd(x: nat, n: nat, y: nat, m: nat)
    requires Stands(x, n) && Stands(y, m)
    ensures Stands(x + y, n + m)
  {
    assert (x + y) - (n + m) == (x - n) + (y - m);
  }

  /** There is one 16-bit number for each. */
  lemma StandsUnique(x: uint16, y: uint16, n: nat)
    requires Stands(x, n) && Stands(y, n)
    ensures x == y
  {
    StandsSym(y, n);
    StandsTrans(x, n, y);
  }

  /** Folding a sum to its halves. */
  lemma StandsFold(x: nat)
    ensures Stands(x % 0x1_0000 + x / 0x1_0000, x)
  {
    assert x % 0x1_0000 + x / 0x1_0000 - x == -MODULUS * (x / 0x1_0000);
  }

  lemma StandsOnesAdd(x: uint16, y: uint16)
    ensures Stands(OnesAdd(x, y), x + y)
  {
  }

  lemma StandsSwap(x: uint16)
    ensures Stands(Swap(x), 256 * x)
  {
    assert Swap(x) - 256 * x == -MODULUS * (x / 256);
  }

  lemma StandsTimes256(x: nat, n: nat)
    requires Stands(x, n)
    ensures Stands(256 * x, 256 * n)
  {
    assert 256 * x - 256 * n == 256 * (x - n);
  }

  // ---------------------------------------------------------------------------------------------
  // Weighing the bytes

  /** The bytes weighed 1 and 256 in turn, starting with 256 when `odd`. */
  function Weight(b: seq<byte>, odd: bool): nat {
    if b == [] then 0 else b[0] * (if odd then 256 else 1) + Weight(b[1..], !odd)
  }

  lemma {:induction false} WeightConcat(b: seq<byte>, c: seq<byte>, odd: bool)
    ensures Weight(b + c, odd) == Weight(b, odd) + Weight(c, if |b| % 2 == 0 then odd else !odd)
  {
    if b == [] {
      assert b + c == c;
    } else {
      assert (b + c)[1..] == b[1..] + c;
      WeightConcat(b[1..], c, !odd);
    }
  }

  /** The two ways of weighing differ by a factor of 256. */
  lemma {:induction false} WeightTimes256(b: seq<byte>, odd: bool)
    ensures Stands(256 * Weight(b, odd), Weight(b, !odd))
  {
    if b != [] {
      WeightTimes256(b[1..], !odd);
      var v: nat := b[0];
      var w := v * if odd then 256 else 1;
      assert Stands(256 * w, v * if odd then 1 else 256) by {
        assert odd ==> 256 * w - v == MODULUS * v;
      }
      StandsAdd(256 * w, v * (if odd then 1 else 256), 256 * Weight(b[1..], !odd), Weight(b[1..], odd));
      assert 256 * Weight(b, odd) == 256 * w + 256 * Weight(b[1..], !odd);
    }
  }

  /** The sum of the words is the weight of the bytes. */
  lemma {:induction false} OnesSumWeight(b: seq<byte>)
    ensures Stands(OnesSum(b), Weight(b, false))
  {
    if |b| >= 2 {
      var word := Word(b[0], b[1]);
      OnesSumWeight(b[2..]);
      assert b[1..][1..] == b[2..];
      assert Weight(b, false) == word + Weight(b[2..], false);
      StandsOnesAdd(word, OnesSum(b[2..]));
      assert Stands(word, word);
      StandsAdd(word, word, OnesSum(b[2..]), Weight(b[2..], false));
      StandsTrans(OnesSum(b), word + OnesSum(b[2..]), Weight(b, false));
    } else if |b| == 1 {
      assert Weight(b[1..], true) == 0;
    }
  }

  /** Any 16-bit number that stands for the weight is the sum. */
  lemma SumOfWeight(x: uint16, b: seq<byte>)
    requires Stands(x, Weight(b, false))
    ensures x == OnesSum(b)
  {
    OnesSumWeight(b);
    StandsUnique(x, OnesSum(b), Weight(b, false));
  }

  /** The sum does not depend on the order of the bytes in a word, but for that order in the result:
      section 2 (B) of RFC 1071. */
  lemma {:induction false} ByteOrder(b: seq<byte>)
    ensures OnesSumSwapped(b) == Swap(OnesSum(b))
  {
    hide OnesAdd;
    if |b| >= 2 {
      var word := Word(b[0], b[1]);
      ByteOrder(b[2..]);
      SwapAdds(word, OnesSum(b[2..]));
      assert Swap(word) == Word(b[1], b[0]);
    }
  }

  lemma SwapAdds(x: uint16, y: uint16)
    ensures Swap(OnesAdd(x, y)) == OnesAdd(Swap(x), Swap(y))
  {
    hide Stands, Swap, OnesAdd;
    StandsSwap(x);
    StandsSwap(y);
    StandsSwap(OnesAdd(x, y));
    StandsOnesAdd(x, y);
    StandsTimes256(OnesAdd(x, y), x + y);
    StandsTrans(Swap(OnesAdd(x, y)), 256 * OnesAdd(x, y), 256 * (x + y));
    StandsAdd(Swap(x), 256 * x, Swap(y), 256 * y);
    StandsOnesAdd(Swap(x), Swap(y));
    StandsTrans(OnesAdd(Swap(x), Swap(y)), Swap(x) + Swap(y), 256 * x + 256 * y);
    StandsUnique(Swap(OnesAdd(x, y)), OnesAdd(Swap(x), Swap(y)), 256 * (x + y));
  }

  // ---------------------------------------------------------------------------------------------
  // Checksum fields

  /** `b` with the 16-bit word `x` stored at `k` in host order. */
  function WithWord(b: seq<byte>, k: nat, x: uint16): (r: seq<byte>)
    requires k + 2 <= |b|
    ensures |r| == |b|
  {
    b[..k] + [x % 256, x / 256] + b[k + 2..]
  }

  lemma WordWeight(b: seq<byte>, k: nat, x: uint16)
    requires k + 2 <= |b| && k % 2 == 0
    ensures Weight(WithWord(b, k, x), false) == Weight(WithWord(b, k, 0), false) + x
  {
    WeightConcat(b[..k] + [x % 256, x / 256], b[k + 2..], false);
    WeightConcat(b[..k] + [0, 0], b[k + 2..], false);
    WeightConcat(b[..k], [x % 256, x / 256], false);
    WeightConcat(b[..k], [0, 0], false);
    PairWeight(x);
    PairWeight(0);
    assert WithWord(b, k, 0) == b[..k] + [0, 0] + b[k + 2..];
  }

  lemma PairWeight(x: uint16)
    ensures Weight([x % 256, x / 256], false) == x
  {
    var b := [x % 256, x / 256];
    assert b[1..] == [x / 256] && b[1..][1..] == [];
    assert Weight(b[1..], true) == x / 256 * 256 + Weight([], false);
  }

  /** A message checks out exactly when its field holds the checksum of the message without it, or the
      other representation of zero when that checksum is zero. */
  lemma ChecksumExactly(b: seq<byte>, k: nat, x: uint16)
    requires k + 2 <= |b| && k % 2 == 0
    ensures var c := Complement(OnesSum(WithWord(b, k, 0)));
      Complement(OnesSum(WithWord(b, k, x))) == 0 <==> x == c || (c == 0 && x == 0xFFFF)
  {
    var zeroed := WithWord(b, k, 0);
    WordWeight(b, k, x);
    OnesSumWeight(zeroed);
    OnesSumWeight(WithWord(b, k, x));
    assert Stands(x, x);
    StandsAdd(OnesSum(zeroed), Weight(zeroed, false), x, x);
    FullSum(OnesSum(WithWord(b, k, x)), OnesSum(zeroed), x, Weight(zeroed, false) + x);
  }

  lemma FullSum(s: uint16, t: uint16, x: uint16, n: nat)
    requires Stands(s, n) && Stands(t + x, n)
    ensures s == 0xFFFF <==> x == 0xFFFF - t || (t == 0xFFFF && x == 0xFFFF)
  {
    StandsSym(t + x, n);
    StandsTrans(s, n, t + x);
  }
}
