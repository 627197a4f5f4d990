/** The stream cipher Trivium on its three shift registers: sections 2.1 and 2.2 of its specification. */
module Trivium {

  /** The internal state (s1, ..., s93), (s94, ..., s177), (s178, ..., s288). */
  datatype Registers = Registers(a: seq<bool>, b: seq<bool>, c: seq<bool>) {
    predicate Valid() {
      |a| == 93 && |b| == 84 && |c| == 111
    }
  }

  /** Addition modulo two. */
  function Plus(p: bool, q: bool): bool {
    p != q
  }

  function T1(r: Registers): bool
    requires r.Valid()
  {
    Plus(r.a[65], r.a[92])
  }

  function T2(r: Registers): bool
    requires r.Valid()
  {
    Plus(r.b[68], r.b[83])
  }

  function T3(r: Registers): bool
    requires r.Valid()
  {
    Plus(r.c[65], r.c[110])
  }

  /** The bit of key stream that the state yields. */
  function KeyBit(r: Registers): bool
    requires r.Valid()
  {
    Plus(Plus(T1(r), T2(r)), T3(r))
  }

  /** The state that follows. */
  function Next(r: Registers): (n: Registers)
    requires r.Valid()
    ensures n.Valid()
  {
    Registers([Plus(Plus(T3(r), r.c[108] && r.c[109]), r.a[68])] + r.a[..92],
              [Plus(Plus(T1(r), r.a[90] && r.a[91]), r.b[77])] + r.b[..83],
              [Plus(Plus(T2(r), r.b[81] && r.b[82]), r.c[86])] + r.c[..110])
  }

  /** The state after `n` steps. */
  function After(r: Registers, n: nat): (s: Registers)
    requires r.Valid()
    ensures s.Valid()
  {
    if n == 0 then r else Next(After(r, n - 1))
  }

  /** The first `n` bits of key stream. */
  function Stream(r: Registers, n: nat): (z: seq<bool>)
    requires r.Valid()
    ensures |z| == n
  {
    if n == 0 then [] else Stream(r, n - 1) + [KeyBit(After(r, n - 1))]
  }

  function Zeros(n: nat): (z: seq<bool>)
    ensures |z| == n && forall i :: 0 <= i < n ==> !z[i]
  {
    seq(n, _ => false)
  }

  /** Key and initialization vector in place. */
  function Loaded(key: seq<bool>, iv: seq<bool>): (r: Registers)
    requires |key| == 80 && |iv| == 80
    ensures r.Valid()
  {
    Registers(key + Zeros(13), iv + Zeros(4), Zeros(108) + [true, true, true])
  }

  // ---------------------------------------------------------------------------------------------
  // The recurrence

  /** The bits that go through the three registers, in order: the key, the vector and three ones first, counted from
      below zero, and from zero on what the recurrence of the cipher makes of those before. */
  function A(key: seq<bool>, iv: seq<bool>, i: int): bool
    requires |key| == |iv| == 80
    decreases i + 111
  {
    if i < 0 then i >= -80 && key[-1 - i]
    else
      Plus(Plus(Plus(C(key, iv, i - 66), C(key, iv, i - 111)), C(key, iv, i - 109) && C(key, iv, i - 110)),
           A(key, iv, i - 69))
  }

  function B(key: seq<bool>, iv: seq<bool>, i: int): bool
    requires |key| == |iv| == 80
    decreases i + 111
  {
    if i < 0 then i >= -80 && iv[-1 - i]
    else
      Plus(Plus(Plus(A(key, iv, i - 66), A(key, iv, i - 93)), A(key, iv, i - 91) && A(key, iv, i - 92)),
           B(key, iv, i - 78))
  }

  function C(key: seq<bool>, iv: seq<bool>, i: int): bool
    requires |key| == |iv| == 80
    decreases i + 111
  {
    if i < 0 then -111 <= i <= -109
    else
      Plus(Plus(Plus(B(key, iv, i - 69), B(key, iv, i - 84)), B(key, iv, i - 82) && B(key, iv, i - 83)),
           C(key, iv, i - 87))
  }

  /** The registers hold the latest bits of the three sequences, latest first. */
  predicate Holds(key: seq<bool>, iv: seq<bool>, r: Registers, n: nat)
    requires |key| == |iv| == 80
  {
    && r.Valid()
    && (forall k :: 0 <= k < 93 ==> r.a[k] == A(key, iv, n - 1 - k))
    && (forall k :: 0 <= k < 84 ==> r.b[k] == B(key, iv, n - 1 - k))
    && (forall k :: 0 <= k < 111 ==> r.c[k] == C(key, iv, n - 1 - k))
  }

  lemma HoldsNext(key: seq<bool>, iv: seq<bool>, r: Registers, n: nat)
    requires |key| == |iv| == 80 && Holds(key, iv, r, n)
    ensures Holds(key, iv, Next(r), n + 1)
  {
    var s := Next(r);
    forall k | 0 <= k < 93 ensures s.a[k] == A(key, iv, n - k) {
      if k > 0 {
        assert s.a[k] == r.a[k - 1];
      }
    }
    forall k | 0 <= k < 84 ensures s.b[k] == B(key, iv, n - k) {
      if k > 0 {
        assert s.b[k] == r.b[k - 1];
      }
    }
    forall k | 0 <= k < 111 ensures s.c[k] == C(key, iv, n - k) {
      if k > 0 {
        assert s.c[k] == r.c[k - 1];
      }
    }
  }

  lemma {:induction false} HoldsAfter(key: seq<bool>, iv: seq<bool>, n: nat)
    requires |key| == |iv| == 80
    ensures Holds(key, iv, After(Loaded(key, iv), n), n)
  {
    hide Next, Holds;
    if n == 0 {
      HoldsFirst(key, iv);
    } else {
      HoldsAfter(key, iv, n - 1);
      HoldsNext(key, iv, After(Loaded(key, iv), n - 1), n - 1);
    }
  }

  lemma HoldsFirst(key: seq<bool>, iv: seq<bool>)
    requires |key| == |iv| == 80
    ensures Holds(key, iv, Loaded(key, iv), 0)
  {
  }

  /** Every bit of key stream, however late, is the one that the recurrence yields for key and vector. */
  lemma StreamOfKey(key: seq<bool>, iv: seq<bool>, n: nat)
    requires |key| == |iv| == 80
    ensures KeyBit(After(Loaded(key, iv), n)) ==
      Plus(Plus(Plus(A(key, iv, n - 66), A(key, iv, n - 93)), Plus(B(key, iv, n - 69), B(key, iv, n - 84))),
           Plus(C(key, iv, n - 66), C(key, iv, n - 111)))
  {
    hide Next, A, B, C, Loaded, After;
    HoldsAfter(key, iv, n);
  }

  /** No two states have the same successor, so the state never loses what it was given. */
  lemma NextInjective(r: Registers, s: Registers)
    requires r.Valid() && s.Valid() && Next(r) == Next(s)
    ensures r == s
  {
    SamePrefix(r.a, s.a, Next(r).a, Next(s).a, 92);
    SamePrefix(r.b, s.b, Next(r).b, Next(s).b, 83);
    SamePrefix(r.c, s.c, Next(r).c, Next(s).c, 110);
    assert Next(r).a[0] == Next(s).a[0] && Next(r).b[0] == Next(s).b[0] && Next(r).c[0] == Next(s).c[0];
    assert r.c[110] == s.c[110];
    assert r.a[92] == s.a[92];
    assert r.b[83] == s.b[83];
  }

  lemma SamePrefix(x: seq<bool>, y: seq<bool>, x': seq<bool>, y': seq<bool>, n: nat)
    requires |x| == |y| == n + 1 && |x'| == |y'| == n + 1 && x'[1..] == x[..n] && y'[1..] == y[..n] && x' == y'
    ensures forall i :: 0 <= i < n ==> x[i] == y[i]
  {
    forall i | 0 <= i < n ensures x[i] == y[i] {
      assert x[i] == x[..n][i] && y[i] == y[..n][i];
    }
  }

  lemma {:induction false} AfterInjective(r: Registers, s: Registers, n: nat)
    requires r.Valid() && s.Valid() && After(r, n) == After(s, n)
    ensures r == s
  {
    hide Next;
    if n > 0 {
      NextInjective(After(r, n - 1), After(s, n - 1));
      AfterInjective(r, s, n - 1);
    }
  }

  /** Different keys and vectors lead to different states, however far the state is rotated. */
  lemma LoadedApart(key: seq<bool>, iv: seq<bool>, key': seq<bool>, iv': seq<bool>, n: nat)
    requires |key| == |iv| == |key'| == |iv'| == 80
    requires After(Loaded(key, iv), n) == After(Loaded(key', iv'), n)
    ensures key == key' && iv == iv'
  {
    hide After;
    AfterInjective(Loaded(key, iv), Loaded(key', iv'), n);
    assert key == (key + Zeros(13))[..80] && key' == (key' + Zeros(13))[..80];
    assert iv == (iv + Zeros(4))[..80] && iv' == (iv' + Zeros(4))[..80];
  }

  /** The steps after `n` steps. */
  lemma {:induction false} AfterSum(r: Registers, n: nat, k: nat)
    requires r.Valid()
    ensures After(After(r, n), k) == After(r, n + k)
  {
    hide Next;
    if k > 0 {
      AfterSum(r, n, k - 1);
    }
  }
}
