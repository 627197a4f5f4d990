/** The uint option format of section 3.2 of RFC 7252. */
module UintOption {
  import opened Common

  /** The integer in network byte order, in as few bytes as possible. */
  function EncodeUint(x: uint32): (s: seq<byte>) {
    if x == 0 then [] else EncodeUint(x / 256) + [x % 256]
  }

  /** Reading shifts the bytes in from the left and keeps 32 bits. */
  function DecodeUint(s: seq<byte>): (x: uint32) {
    if s == [] then 0 else (DecodeUint(s[..|s| - 1]) * 256 + s[|s| - 1]) % 0x1_0000_0000
  }

  /** Writing goes from the last byte to the first. */
  lemma EncodeUintStep(x: uint32, behind: seq<byte>)
    ensures x == 0 ==> EncodeUint(x) + behind == behind
    ensures x != 0 ==>
      && EncodeUint(x) + behind == EncodeUint(x / 256) + ([x % 256] + behind)
      && |EncodeUint(x)| == |EncodeUint(x / 256)| + 1
  {
    if x != 0 {
      ConcatAssoc(EncodeUint(x / 256), [x % 256], behind);
    }
  }

  /** The high byte comes first. */
  lemma UintExample()
    ensures EncodeUint(0x01_0203) == [1, 2, 3] && EncodeUint(0) == []
  {
    assert EncodeUint(1) == [] + [1];
    assert EncodeUint(0x0102) == EncodeUint(1) + [2];
    assert EncodeUint(0x01_0203) == EncodeUint(0x0102) + [3];
  }

  lemma DecodeUintNone(s: seq<byte>)
    ensures DecodeUint(s[..0]) == 0
  {
  }

  /** One more byte read by shifting 32 bits and adding. */
  lemma DecodeUintStep(s: seq<byte>, i: nat)
    requires i < |s|
    ensures DecodeUint(s[..i]) * 256 % 0x1_0000_0000 + s[i] == DecodeUint(s[..i + 1])
  {
    assert s[..i + 1][..i] == s[..i];
    var v, b: int := DecodeUint(s[..i]), s[i];
    assert v * 256 == 256 * (v % 0x100_0000) + 0x1_0000_0000 * (v / 0x100_0000);
    assert (v * 256 + b) % 0x1_0000_0000 == 256 * (v % 0x100_0000) + b;
  }

  /** Every 32-bit value survives the round trip. */
  lemma {:induction false} DecodeEncodeUint(x: uint32)
    ensures DecodeUint(EncodeUint(x)) == x
  {
    if x != 0 {
      var s := EncodeUint(x / 256);
      DecodeEncodeUint(x / 256);
      assert (s + [x % 256])[..|s|] == s;
    }
  }

  /** The bytes written never start with a zero and are the fewest that read back as the value. */
  lemma {:induction false} EncodeUintShortest(x: uint32, s: seq<byte>)
    requires |s| <= 4 && DecodeUint(s) == x
    ensures |EncodeUint(x)| <= |s|
    ensures EncodeUint(x) != [] ==> EncodeUint(x)[0] != 0
    decreases x, |s|
  {
    if x != 0 {
      var s' := s[..|s| - 1];
      NoOverflow(s');
      assert DecodeUint(s') == x / 256;
      EncodeUintShortest(x / 256, s');
    }
  }

  /** Three bytes or fewer leave room for one more. */
  lemma {:induction false} NoOverflow(s: seq<byte>)
    requires |s| <= 3
    ensures DecodeUint(s) <
      if |s| == 0 then 1 else if |s| == 1 then 0x100 else if |s| == 2 then 0x1_0000 else 0x100_0000
  {
    if s != [] {
      NoOverflow(s[..|s| - 1]);
    }
  }

  lemma EncodeUintSize(x: uint32)
    ensures |EncodeUint(x)| <= 4
    ensures x < 0x100_0000 ==> |EncodeUint(x)| <= 3
  {
    if x != 0 {
      assert EncodeUint(x) == EncodeUint(x / 256) + [x % 256];
      if x / 256 != 0 {
        assert EncodeUint(x / 256) == EncodeUint(x / 256 / 256) + [x / 256 % 256];
        if x / 256 / 256 != 0 {
          assert EncodeUint(x / 256 / 256) == EncodeUint(x / 256 / 256 / 256) + [x / 256 / 256 % 256];
          assert x / 256 / 256 / 256 < 256;
          assert EncodeUint(x / 256 / 256 / 256 / 256) == [];
        }
      }
    }
  }
}
