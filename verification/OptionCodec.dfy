/** The CoAP option format: section 3.1 of RFC 7252, as coap/coap_option.c reads and writes it. */
module OptionCodec {
  import opened Common

  const PAYLOAD_MARKER: byte := 0xFF
  const MINUS_8_BITS := 13
  const MINUS_16_BITS := 269
  /** Largest value an extended delta or length field can carry. */
  const MAX_FIELD := 65804

  /** What one encoded option says: where its value lies and how many bytes it takes. */
  datatype Parsed = Parsed(delta: uint16, number: uint16, length: nat, valueAt: nat, consumed: nat)

  /** Number of extension bytes announced by a nibble. */
  function ExtensionSize(nibble: nat): (n: nat)
    ensures n <= 2
  {
    if nibble == 14 then 2 else if nibble == 13 then 1 else 0
  }

  /** The value of a delta or length field: its nibble together with its extension bytes. */
  function FieldValue(nibble: nat, ext: seq<byte>): (x: nat)
    requires nibble < 15 && |ext| == ExtensionSize(nibble)
    ensures x <= MAX_FIELD
  {
    if nibble == 14 then ext[0] * 256 + ext[1] + MINUS_16_BITS
    else if nibble == 13 then ext[0] + MINUS_8_BITS
    else nibble
  }

  function Nibble(x: nat): (n: byte)
    ensures n < 15
  {
    if x >= MINUS_16_BITS then 14 else if x >= MINUS_8_BITS then 13 else x
  }

  function Extension(x: nat): (e: seq<byte>)
    ensures |e| == ExtensionSize(Nibble(x))
  {
    if x >= MINUS_16_BITS then [((x - MINUS_16_BITS) / 256) % 256, (x - MINUS_16_BITS) % 256]
    else if x >= MINUS_8_BITS then [x - MINUS_8_BITS]
    else []
  }

  /** The fields of an option header and the number of bytes they take. */
  datatype Fields = Fields(delta: nat, length: nat, size: nat)

  /** Reading the header at the front of `s`. */
  function DecodeHeader(s: seq<byte>): (r: Result<Fields>)
    ensures r.Ok? ==>
      1 <= r.value.size <= 5 && r.value.size <= |s| && r.value.length <= MAX_FIELD && r.value.delta <= MAX_FIELD
    ensures r.Err? ==> r.error != NoError
  {
    if |s| < 1 then Err(BufferUnderflow)
    else
      var d, l := ExtensionSize(s[0] / 16), ExtensionSize(s[0] % 16);
      if s[0] / 16 == 15 then Err(InvalidMessage)
      else if |s| < 1 + d then Err(BufferUnderflow)
      else if s[0] % 16 == 15 then Err(InvalidMessage)
      else if |s| < 1 + d + l then Err(BufferUnderflow)
      else Ok(Fields(FieldValue(s[0] / 16, s[1..1 + d]),
                     FieldValue(s[0] % 16, s[1 + d..1 + d + l]),
                     1 + d + l))
  }

  /** Reading the option at the front of `s`; `prev` is the number of the option before it. */
  function DecodeOption(s: seq<byte>, prev: uint16): (r: Result<Parsed>)
    ensures r.Ok? ==>
      && 1 <= r.value.valueAt <= r.value.consumed <= |s|
      && r.value.consumed == r.value.valueAt + r.value.length
      && r.value.length <= MAX_FIELD
      && r.value.number == (prev + r.value.delta) % 0x1_0000
    ensures r.Err? ==> r.error != NoError
  {
    match DecodeHeader(s)
    case Err(e) => Err(e)
    case Ok(Fields(delta, length, size)) =>
      if |s| < size + length then Err(BufferUnderflow)
      else Ok(Parsed(delta % 0x1_0000, (delta % 0x1_0000 + prev) % 0x1_0000, length, size, size + length))
  }

  /** The header that announces a delta and a length. */
  function Header(delta: nat, length: nat): (h: seq<byte>)
    ensures 1 <= |h| <= 5
    ensures |h| == 1 + |Extension(delta)| + |Extension(length)|
    ensures h[0] / 16 == Nibble(delta) && h[0] % 16 == Nibble(length)
    ensures h[0] != PAYLOAD_MARKER
  {
    [Nibble(delta) * 16 + Nibble(length)] + Extension(delta) + Extension(length)
  }

  /** The option `number` carrying `value`, written after an option numbered `prev`. */
  function EncodeOption(prev: uint16, number: uint16, value: seq<byte>): (s: seq<byte>)
    ensures 1 <= |s| - |value| <= 5
  {
    Header((number - prev) % 0x1_0000, |value|) + value
  }

  lemma EncodedParts(prev: uint16, number: uint16, value: seq<byte>)
    ensures EncodeOption(prev, number, value) == Header((number - prev) % 0x1_0000, |value|) + value
  {
  }

  lemma ValueFits(prev: uint16, number: uint16, value: seq<byte>)
    ensures |EncodeOption(prev, number, value)| >= |value|
  {
    hide Header;
  }

  lemma FieldRoundTrip(x: nat)
    requires x <= MAX_FIELD
    ensures FieldValue(Nibble(x), Extension(x)) == x
  {
  }

  /** A field has one encoding, so reading then writing reproduces the field. */
  lemma FieldUnique(nibble: nat, ext: seq<byte>)
    requires nibble < 15 && |ext| == ExtensionSize(nibble)
    ensures Nibble(FieldValue(nibble, ext)) == nibble
    ensures Extension(FieldValue(nibble, ext)) == ext
  {
  }

  /** The three forms of a field, with the numbers of section 3.1 of RFC 7252. */
  lemma FieldFormat(x: nat, nibble: nat, ext: seq<byte>)
    requires x <= 65804
    ensures Nibble(x) == nibble && Extension(x) == ext <==>
      || (x <= 12 && nibble == x && ext == [])
      || (13 <= x <= 268 && nibble == 13 && ext == [x - 13])
      || (269 <= x && nibble == 14 && |ext| == 2 && x == 269 + BigEndian(ext[0], ext[1]))
  {
  }

  function BigEndian(high: int, low: int): int {
    high * 256 + low
  }

  /** A Proxy-Uri of 300 bytes behind a Uri-Path: the delta is extended by one byte, the length by two. */
  lemma HeaderExample(value: seq<byte>)
    requires |value| == 300
    ensures EncodeOption(11, 35, value) == [0xDE, 11, 0, 31] + value
  {
  }

  lemma DecodeOfHeader(delta: nat, length: nat, rest: seq<byte>)
    requires delta <= MAX_FIELD && length <= MAX_FIELD
    ensures DecodeHeader(Header(delta, length) + rest) == Ok(Fields(delta, length, |Header(delta, length)|))
  {
    var h := Header(delta, length);
    var t := h + rest;
    var d := |Extension(delta)|;
    assert t[1..1 + d] == Extension(delta);
    assert t[1 + d..|h|] == Extension(length);
    FieldRoundTrip(delta);
    FieldRoundTrip(length);
  }

  lemma HeaderOfDecode(s: seq<byte>)
    requires DecodeHeader(s).Ok?
    ensures var f := DecodeHeader(s).value; Header(f.delta, f.length) == s[..f.size]
  {
    var d, l := ExtensionSize(s[0] / 16), ExtensionSize(s[0] % 16);
    FieldUnique(s[0] / 16, s[1..1 + d]);
    FieldUnique(s[0] % 16, s[1 + d..1 + d + l]);
    assert s[..1 + d + l] == [s[0]] + s[1..1 + d] + s[1 + d..1 + d + l];
  }

  /** Writing then reading gives back the option, whatever follows it. */
  lemma DecodeEncode(prev: uint16, number: uint16, value: seq<byte>, rest: seq<byte>)
    requires |value| <= MAX_FIELD
    ensures var s := EncodeOption(prev, number, value);
      && s[0] / 16 != 15 && s[0] % 16 != 15
      && DecodeOption(s + rest, prev)
           == Ok(Parsed((number - prev) % 0x1_0000, number, |value|, |s| - |value|, |s|))
      && (s + rest)[|s| - |value|..|s|] == value
  {
    var h := Header((number - prev) % 0x1_0000, |value|);
    DecodeOfHeader((number - prev) % 0x1_0000, |value|, value + rest);
    assert EncodeOption(prev, number, value) + rest == h + (value + rest);
  }

  lemma DeltaOfNumber(prev: uint16, delta: uint16)
    ensures ((delta + prev) % 0x1_0000 - prev) % 0x1_0000 == delta
  {
    assert (delta + prev) % 0x1_0000 == delta + prev || (delta + prev) % 0x1_0000 == delta + prev - 0x1_0000;
  }

  /** Writing back an option that was read reproduces its bytes exactly when its delta field fits 16 bits. */
  lemma EncodeDecode(s: seq<byte>, prev: uint16)
    requires DecodeOption(s, prev).Ok?
    ensures var o := DecodeOption(s, prev).value;
      (EncodeOption(prev, o.number, s[o.valueAt..o.consumed]) == s[..o.consumed])
      <==> DecodeHeader(s).value.delta < 0x1_0000
  {
    hide DecodeHeader, Header, Extension, Nibble;
    var f := DecodeHeader(s).value;
    var o := DecodeOption(s, prev).value;
    var value := s[o.valueAt..o.consumed];
    DeltaOfNumber(prev, o.delta);
    assert EncodeOption(prev, o.number, value) == Header(o.delta, |value|) + value;
    HeaderOfDecode(s);
    assert s[..o.consumed] == Header(f.delta, f.length) + value;
    if f.delta >= 0x1_0000 {
      HeadersDiffer(o.delta, f.delta, f.length, value);
    }
  }

  /** A delta of 65536 or more is announced by another nibble than its remainder. */
  lemma HeadersDiffer(delta: uint16, wide: nat, length: nat, value: seq<byte>)
    requires 0x1_0000 <= wide <= MAX_FIELD && delta == wide % 0x1_0000
    ensures Header(delta, length) + value != Header(wide, length) + value
  {
    hide Header, Extension;
    assert Nibble(delta) != Nibble(wide);
    assert (Header(delta, length) + value)[0] == Header(delta, length)[0];
    assert (Header(wide, length) + value)[0] == Header(wide, length)[0];
  }

  /** Reading looks no further than the bytes it consumes. */
  lemma DecodePrefix(s: seq<byte>, t: seq<byte>, prev: uint16)
    requires DecodeOption(s, prev).Ok?
    ensures DecodeOption(s[..DecodeOption(s, prev).value.consumed] + t, prev) == DecodeOption(s, prev)
  {
    hide DecodeHeader, Header, Extension, Nibble;
    var o := DecodeOption(s, prev).value;
    var f := DecodeHeader(s).value;
    HeaderOfDecode(s);
    DecodeOfHeader(f.delta, f.length, s[o.valueAt..o.consumed] + t);
    assert s[..o.consumed] + t == Header(f.delta, f.length) + (s[o.valueAt..o.consumed] + t);
  }

  // ---------------------------------------------------------------------------------------------
  // How the size of an option follows its delta

  /** A larger value never takes fewer extension bytes. */
  lemma ExtensionMonotone(x: nat, y: nat)
    requires x <= y
    ensures |Extension(x)| <= |Extension(y)|
  {
  }

  /** Two fields never take fewer bytes than their sum, by more than the one byte of a header. */
  lemma ExtensionSubadditive(x: nat, y: nat)
    ensures |Extension(x + y)| <= |Extension(x)| + |Extension(y)| + 1
  {
  }

  /** An option that was read takes at least the bytes of its delta, its length and its value. */
  lemma SizeOfOption(s: seq<byte>, prev: uint16)
    requires DecodeOption(s, prev).Ok?
    ensures var o := DecodeOption(s, prev).value;
      && o.valueAt >= 1 + |Extension(o.delta)| + |Extension(o.length)|
      && o.delta == (o.number - prev) % 0x1_0000
  {
    hide DecodeHeader, Extension;
    var f := DecodeHeader(s).value;
    var o := DecodeOption(s, prev).value;
    HeaderOfDecode(s);
    ExtensionMonotone(f.delta % 0x1_0000, f.delta);
    DeltaOfNumber(prev, o.delta);
  }
}
