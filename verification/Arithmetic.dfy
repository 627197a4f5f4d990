/** Division facts with a variable divisor, and bytes as bits. */
module Arithmetic {

  lemma MulGrows(d: nat, k: int)
    ensures k >= 1 ==> d * k >= d
    ensures k <= -1 ==> d * k <= 0 - d
  {
    if k >= 1 {
      assert d * k == d * (k - 1) + d;
      assert d * (k - 1) >= 0;
    } else if k <= -1 {
      assert d * k == -(d * (-k - 1)) - d;
      assert d * (-k - 1) >= 0;
    }
  }

  /** Quotient and remainder are unique. */
  lemma DivModUnique(x: int, d: nat, q: int, r: int)
    requires d > 0 && x == d * q + r && 0 <= r < d
    ensures x / d == q && x % d == r
  {
    var k := x / d - q;
    assert d * k == d * (x / d) - d * q;
    assert d * k == r - x % d;
    MulGrows(d, k);
  }

  lemma MultipleMod(d: nat, q: int)
    requires d > 0
    ensures d * q % d == 0
  {
    DivModUnique(d * q, d, q, 0);
  }

  lemma MultipleOf(x: int, d: nat)
    requires d > 0 && x % d == 0
    ensures x == d * (x / d)
  {
  }

  /** Taking away a multiple of a multiple keeps a multiple. */
  lemma ModOfMod(x: int, d: nat, m: nat)
    requires d > 0 && m > 0 && d * m > 0 && x % d == 0
    ensures x % (d * m) % d == 0
  {
    var q := x / (d * m);
    MultipleOf(x, d);
    assert x % (d * m) == x - d * m * q;
    assert d * m * q == d * (m * q);
    assert x % (d * m) == d * (x / d - m * q);
    MultipleMod(d, x / d - m * q);
  }

  // ---------------------------------------------------------------------------------------------
  // Bytes as bits

  function NumberOf(v: bv8): int {
    v as int
  }

  function BitsOf(x: int): bv8
    requires 0 <= x < 0x100
  {
    x as bv8
  }

  /** The bits reached by counting up to `x`. */
  function Counted(x: int): bv8
    requires 0 <= x < 0x100
  {
    if x == 0 then 0 else Counted(x - 1) + 1
  }

  lemma NumberOfNext(v: bv8)
    requires v != 0xFF
    ensures NumberOf(v + 1) == NumberOf(v) + 1
  {
  }

  lemma NumberRange(v: bv8)
    ensures NumberOf(0) == 0 && NumberOf(0xFF) == 0xFF && 0 <= NumberOf(v) < 0x100
  {
  }

  lemma {:induction false} CountedIs(x: int)
    requires 0 <= x < 0x100
    ensures NumberOf(Counted(x)) == x
  {
    hide NumberOf;
    NumberRange(Counted(x));
    if x > 0 {
      CountedIs(x - 1);
      assert Counted(x - 1) != 0xFF;
      NumberOfNext(Counted(x - 1));
    }
  }

  lemma BitsOfNumber(v: bv8)
    ensures 0 <= NumberOf(v) < 0x100 && BitsOf(NumberOf(v)) == v
  {
  }

  /** A byte survives the way into bits and back. */
  lemma NumberOfBits(x: int)
    requires 0 <= x < 0x100
    ensures NumberOf(BitsOf(x)) == x
  {
    hide NumberOf, BitsOf, Counted;
    CountedIs(x);
    BitsOfNumber(Counted(x));
  }
}
