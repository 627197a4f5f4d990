/** CoAP messages in their buffer, edited in place: coap/coap_option.c and coap/coap_message.c. */
module CoapMessages {
  import opened Common
  import opened OptionCodec
  import opened OptionList
  import opened OptionEditing
  import opened OptionMeaning
  import opened MessageView
  import opened UintOption

  // ---------------------------------------------------------------------------------------------
  // Options in a buffer

  /** Reads the extension bytes of a delta or length field. */
  method ReadField(buffer: array<byte>, q: nat, left: nat, nibble: byte) returns (r: Result<nat>)
    requires q + left <= buffer.Length && nibble < 16
    ensures nibble == 15 ==> r == Err(InvalidMessage)
    ensures nibble < 15 && left < ExtensionSize(nibble) ==> r == Err(BufferUnderflow)
    ensures nibble < 15 && left >= ExtensionSize(nibble) ==>
      r == Ok(FieldValue(nibble, buffer[q..q + ExtensionSize(nibble)]))
  {
    if nibble == 15 {
      return Err(InvalidMessage);
    } else if nibble == 14 {
      if left < 2 {
        return Err(BufferUnderflow);
      }
      return Ok(buffer[q] * 256 + buffer[q + 1] + MINUS_16_BITS);
    } else if nibble == 13 {
      if left < 1 {
        return Err(BufferUnderflow);
      }
      return Ok(buffer[q] + MINUS_8_BITS);
    } else {
      return Ok(nibble);
    }
  }

  /** Reads the header of the option at offset `p`, of which `length` bytes are available. */
  method ParseFields(buffer: array<byte>, p: nat, length: nat) returns (r: Result<Fields>)
    requires p + length <= buffer.Length
    ensures r == DecodeHeader(buffer[p..p + length])
  {
    hide FieldValue;
    if length < 1 {
      return Err(BufferUnderflow);
    }
    var deltaNibble, lengthNibble := buffer[p] / 16, buffer[p] % 16;
    var q, left := p + 1, length - 1;

    var delta := ReadField(buffer, q, left, deltaNibble);
    if delta.Err? {
      return Err(delta.error);
    }
    SliceOfSlice(buffer[..], p, p + length, 1, 1 + ExtensionSize(deltaNibble));
    q, left := q + ExtensionSize(deltaNibble), left - ExtensionSize(deltaNibble);

    var len := ReadField(buffer, q, left, lengthNibble);
    if len.Err? {
      return Err(len.error);
    }
    SliceOfSlice(buffer[..], p, p + length, q - p, q - p + ExtensionSize(lengthNibble));
    return Ok(Fields(delta.value, len.value, q - p + ExtensionSize(lengthNibble)));
  }

  /** Reads the option at offset `p`, of which `length` bytes are available. */
  method ParseOption(buffer: array<byte>, p: nat, length: nat, prev: uint16) returns (r: Result<Parsed>)
    requires p + length <= buffer.Length
    ensures r == DecodeOption(buffer[p..p + length], prev)
    ensures match r
      case Err(e) => ReadFirst(buffer[p..p + length], prev) == Err(e)
      case Ok(o) =>
        && 1 <= o.valueAt <= o.consumed <= length && o.consumed == o.valueAt + o.length
        && ReadFirst(buffer[p..p + length], prev)
             == Ok(First(Opt(o.number, buffer[p + o.valueAt..p + o.consumed]), o.consumed))
  {
    hide DecodeHeader;
    var fields := ParseFields(buffer, p, length);
    if fields.Err? {
      return Err(fields.error);
    }
    var Fields(delta, len, size) := fields.value;
    if length < size + len {
      return Err(BufferUnderflow);
    }
    SliceOfSlice(buffer[..], p, p + length, size, size + len);
    var delta16: uint16 := delta % 0x1_0000;
    return Ok(Parsed(delta16, (delta16 + prev) % 0x1_0000, len, size, size + len));
  }

  /** Writes the extension bytes of a delta or length field, unless `write` is false. */
  method WriteField(buffer: array<byte>, q: nat, write: bool, x: nat) returns (n: nat)
    requires write ==> q + |Extension(x)| <= buffer.Length
    modifies if write then {buffer} else {}
    ensures n == |Extension(x)|
    ensures write ==> buffer[..] == old(buffer[..q]) + Extension(x) + old(buffer[q + n..])
  {
    if x >= MINUS_16_BITS {
      if write {
        buffer[q] := ((x - MINUS_16_BITS) / 256) % 256;
        buffer[q + 1] := (x - MINUS_16_BITS) % 256;
      }
      n := 2;
    } else if x >= MINUS_8_BITS {
      if write {
        buffer[q] := x - MINUS_8_BITS;
      }
      n := 1;
    } else {
      n := 0;
    }
  }

  /** The four writes of a header, one after the other, leave the header in place. */
  lemma HeaderWrites(s: seq<byte>, s1: seq<byte>, s2: seq<byte>, s3: seq<byte>, s4: seq<byte>,
                     p: nat, a: byte, b: byte, d: seq<byte>, l: seq<byte>)
    requires p + 1 + |d| + |l| <= |s|
    requires s1 == s[p := a]
    requires s2 == s1[..p + 1] + d + s1[p + 1 + |d|..]
    requires s3 == s2[p := b]
    requires s4 == s3[..p + 1 + |d|] + l + s3[p + 1 + |d| + |l|..]
    ensures s4 == s[..p] + ([b] + d + l) + s[p + 1 + |d| + |l|..]
  {
    assert s2[p + 1 + |d| + |l|..] == s[p + 1 + |d| + |l|..];
    assert s3[..p + 1 + |d|] == s[..p] + [b] + d;
  }

  lemma HeaderParts(delta: nat, len: nat)
    ensures Header(delta, len) == [Nibble(delta) * 16 + Nibble(len)] + Extension(delta) + Extension(len)
  {
  }

  /** Sets the high half of a byte, the delta field of the header structure. */
  method WriteHighNibble(buffer: array<byte>, p: nat, high: nat) returns (ghost a: byte)
    requires p < buffer.Length && high < 16
    modifies buffer
    ensures a / 16 == high
    ensures buffer[..] == old(buffer[..])[p := a]
  {
    buffer[p] := high * 16 + buffer[p] % 16;
    a := buffer[p];
  }

  /** Sets the low half of a byte, the length field of the header structure. */
  method WriteLowNibble(buffer: array<byte>, p: nat, low: nat)
    requires p < buffer.Length && low < 16
    modifies buffer
    ensures buffer[..] == old(buffer[..])[p := old(buffer[..])[p] / 16 * 16 + low]
  {
    buffer[p] := buffer[p] / 16 * 16 + low;
  }

  /** Writes the header of an option at offset `p`, or only measures it when `write` is false. */
  method FormatHeader(buffer: array<byte>, p: nat, write: bool, delta: uint16, len: nat) returns (n: nat)
    requires write ==> p + |Header(delta, len)| <= buffer.Length
    modifies if write then {buffer} else {}
    ensures n == |Header(delta, len)|
    ensures write ==> buffer[..] == old(buffer[..p]) + Header(delta, len) + old(buffer[p + n..])
  {
    hide Extension, Nibble, Header;
    HeaderParts(delta, len);
    ghost var first := buffer[..];
    ghost var a: byte := 0;
    if write {
      a := WriteHighNibble(buffer, p, Nibble(delta));
    }
    ghost var second := buffer[..];
    var d := WriteField(buffer, p + 1, write, delta);
    ghost var third := buffer[..];
    if write {
      assert third[p] == second[p] == a;
      WriteLowNibble(buffer, p, Nibble(len));
    }
    ghost var fourth := buffer[..];
    var l := WriteField(buffer, p + 1 + d, write, len);
    n := 1 + d + l;
    if write {
      HeaderWrites(first, second, third, fourth, buffer[..], p, a, Nibble(delta) * 16 + Nibble(len),
                   Extension(delta), Extension(len));
    }
  }

  /** Writes an option at offset `p`, or only measures it when `write` is false. Its value is moved
      last, from where it lies; a value inside the buffer must lie beyond the new header. */
  method FormatOption(buffer: array<byte>, p: nat, write: bool, prev: uint16, number: uint16,
                      src: array<byte>, at: nat, len: nat) returns (n: nat)
    requires at + len <= src.Length
    requires write ==> p + |EncodeOption(prev, number, src[at..at + len])| <= buffer.Length
    requires write && src == buffer ==> p + |EncodeOption(prev, number, src[at..at + len])| - len <= at
    modifies if write then {buffer} else {}
    ensures n == |EncodeOption(prev, number, old(src[at..at + len]))|
    ensures write ==>
      buffer[..] == old(buffer[..p]) + EncodeOption(prev, number, old(src[at..at + len])) + old(buffer[p + n..])
  {
    hide Header, EncodeOption;
    EncodedParts(prev, number, src[at..at + len]);
    var delta: uint16 := (number - prev) % 0x1_0000;
    if write {
      n := WriteOption(buffer, p, delta, src, at, len);
    } else {
      n := FormatHeader(buffer, p, false, delta, len);
      n := n + len;
    }
  }

  /** Writes the header and then moves the value. */
  method WriteOption(buffer: array<byte>, p: nat, delta: uint16, src: array<byte>, at: nat, len: nat) returns (n: nat)
    requires at + len <= src.Length && p + |Header(delta, len)| + len <= buffer.Length
    requires src == buffer ==> p + |Header(delta, len)| <= at
    modifies buffer
    ensures n == |Header(delta, len)| + len
    ensures buffer[..] == old(buffer[..p]) + (Header(delta, len) + old(src[at..at + len])) + old(buffer[p + n..])
  {
    hide Header;
    ghost var value, first := src[at..at + len], buffer[..];
    n := FormatHeader(buffer, p, true, delta, len);
    if src == buffer {
      Beyond(first, p, Header(delta, len), at, len);
    }
    assert src[at..at + len] == value;
    MoveValue(buffer, p, n, src, at, len, first, Header(delta, len));
    n := n + len;
  }

  /** What lies beyond a header is still there once the header is written. */
  lemma Beyond(s: seq<byte>, p: nat, header: seq<byte>, at: nat, len: nat)
    requires p + |header| <= at && at + len <= |s|
    ensures (s[..p] + header + s[p + |header|..])[at..at + len] == s[at..at + len]
  {
  }

  /** Moves a value behind the header just written at `p`. */
  method MoveValue(buffer: array<byte>, p: nat, n: nat, src: array<byte>, at: nat, len: nat,
                   ghost first: seq<byte>, ghost header: seq<byte>)
    requires |first| == buffer.Length && at + len <= src.Length && p + n + len <= |first| && |header| == n
    requires buffer[..] == first[..p] + header + first[p + n..]
    modifies buffer
    ensures buffer[..] == first[..p] + (header + old(src[at..at + len])) + first[p + n + len..]
  {
    ghost var value := src[at..at + len];
    Move(buffer, p + n, src, at, len);
    ValueWrite(first, p, header, value);
  }

  /** A header written, then a value behind it. */
  lemma ValueWrite(s: seq<byte>, p: nat, header: seq<byte>, value: seq<byte>)
    requires p + |header| + |value| <= |s|
    ensures var s1 := s[..p] + header + s[p + |header|..];
      s1[..p + |header|] + value + s1[p + |header| + |value|..]
        == s[..p] + (header + value) + s[p + |header| + |value|..]
  {
  }

  /** Reads the options of an area of the buffer up to the payload marker or its end. */
  method ParseOptions(buffer: array<byte>, p0: nat, length: nat) returns (r: Result<nat>)
    requires p0 + length <= buffer.Length
    ensures match Tail(buffer[p0..p0 + length], 0)
      case Err(e) => r == Err(e)
      case Ok(tail) => r == Ok(length - tail)
  {
    hide DecodeOption, ReadFirst, DecodeOptions, Tail, AtEnd;
    var p: nat, left: nat, prev: uint16 := p0, length, 0;
    ghost var s, at := buffer[p0..p0 + length], 0;
    assert s[0..] == s;
    while left > 0
      invariant p == p0 + at && at + left == length
      invariant Tail(s[at..], prev) == Tail(s, 0)
    {
      AreaAt(buffer, p0, at, left, s);
      TailStep(s, at, prev);
      if buffer[p] == PAYLOAD_MARKER {
        return Ok(p - p0);
      }
      var o := ParseNext(buffer, p0, p, left, prev, s);
      if o.Err? {
        return Err(o.error);
      }
      p, left, prev := p + o.value.consumed, left - o.value.consumed, o.value.number;
      at := at + o.value.consumed;
    }
    TailStep(s, at, prev);
    assert AtEnd(s[at..]) by { NothingLeft(s); }
    return Ok(p - p0);
  }

  /** Whether an area has come to its end is seen from its next byte. */
  lemma AreaAt(buffer: array<byte>, p0: nat, at: nat, left: nat, s: seq<byte>)
    requires p0 + at + left <= buffer.Length && s == buffer[p0..p0 + at + left] && left > 0
    ensures AtEnd(s[at..]) <==> buffer[p0 + at] == PAYLOAD_MARKER
  {
    assert s[at..][0] == buffer[p0 + at];
  }

  lemma NothingLeft(s: seq<byte>)
    ensures AtEnd(s[|s|..])
  {
  }

  /** Reads the option at offset `at` of the area `s`, which starts at `p0`. */
  method ParseNext(buffer: array<byte>, p0: nat, p: nat, left: nat, prev: uint16, ghost s: seq<byte>)
    returns (r: Result<Parsed>)
    requires p0 <= p && p + left <= buffer.Length && s == buffer[p0..p + left]
    ensures match r
      case Err(e) => ReadFirst(s[p - p0..], prev) == Err(e)
      case Ok(o) =>
        && 1 <= o.consumed <= left
        && ReadFirst(s[p - p0..], prev).Ok?
        && ReadFirst(s[p - p0..], prev).value.opt.number == o.number
        && ReadFirst(s[p - p0..], prev).value.size == o.consumed
  {
    hide ReadFirst, DecodeOption;
    SuffixOfSlice(buffer[..], p0, p, p + left);
    r := ParseOption(buffer, p, left, prev);
  }

  /** What a search reports: where it stopped, the last option number before, and the size of the
      occurrence found. */
  datatype Place = Place(p: nat, prev: uint16, found: Option<nat>)

  /** Walks the options of an area of the buffer to the slot that an edit concerns. */
  method Search(buffer: array<byte>, p0: nat, length: nat, number: uint16, index: nat) returns (r: Result<Place>)
    requires p0 + length <= buffer.Length
    ensures match Locate(buffer[p0..p0 + length], 0, number, index)
      case Err(e) => r == Err(e)
      case Ok(slot) => r == Ok(Place(p0 + slot.at, slot.prev,
                                     if slot.found.Some? then Some(slot.found.value.size) else None))
  {
    hide DecodeOption, ReadFirst, Locate, Advance;
    var p: nat, left: nat, prev: uint16, count: nat := p0, length, 0, 0;
    ghost var s, passed := buffer[p0..p0 + length], [];
    assert s[0..] == s;
    AdvanceNone(Locate(s, 0, number, index));
    while left > 0
      invariant p0 <= p && p + left == p0 + length && count <= index
      invariant Locate(s, 0, number, index)
        == Advance(p - p0, passed, Locate(s[p - p0..], prev, number, index - count))
    {
      assert s[p - p0..][0] == buffer[p];
      LocateEnd(s, p - p0, passed, prev, number, index - count);
      if buffer[p] == PAYLOAD_MARKER {
        break;
      }
      var o := ParseNext(buffer, p0, p, left, prev, s);
      if o.Err? {
        return Err(o.error);
      }
      if o.value.number > number {
        break;
      }
      if o.value.number == number && count == index {
        return Ok(Place(p, prev, Some(o.value.consumed)));
      }
      LocateStep(s, p - p0, passed, prev, number, index - count);
      passed := passed + [ReadFirst(s[p - p0..], prev).value.opt];
      if o.value.number == number {
        count := count + 1;
      }
      prev := o.value.number;
      p, left := p + o.value.consumed, left - o.value.consumed;
    }
    LocateEnd(s, p - p0, passed, prev, number, index - count);
    return Ok(Place(p, prev, None));
  }

  /** Walks the options of an area of the buffer to the value of one of them. */
  method FindOption(buffer: array<byte>, p0: nat, length: nat, number: uint16, index: nat)
    returns (r: Result<(nat, nat)>)
    requires p0 + length <= buffer.Length
    ensures r == Shift(p0, Find(buffer[p0..p0 + length], 0, number, index))
  {
    hide DecodeOption, ReadFirst, Find, Shift;
    var p: nat, left: nat, prev: uint16, count: nat := p0, length, 0, 0;
    ghost var s := buffer[p0..p0 + length];
    assert s[0..] == s;
    while left > 0
      invariant p0 <= p && p + left == p0 + length && count <= index
      invariant Shift(p0, Find(s, 0, number, index))
        == Shift(p0 + (p - p0), Find(s[p - p0..], prev, number, index - count))
    {
      assert buffer[p..p + left] == s[p - p0..];
      FindStep(s, p0, p - p0, prev, number, index - count);
      assert s[p - p0..][0] == buffer[p];
      if buffer[p] == PAYLOAD_MARKER {
        break;
      }
      var o := ParseOption(buffer, p, left, prev);
      if o.Err? {
        return Err(o.error);
      }
      if o.value.number == number {
        if count == index {
          return Ok((p + o.value.valueAt, o.value.length));
        }
        count := count + 1;
      }
      prev := o.value.number;
      p, left := p + o.value.consumed, left - o.value.consumed;
    }
    FindStep(s, p0, p - p0, prev, number, index - count);
    assert AtEnd(s[p - p0..]);
    return Err(NotFound);
  }

  // ---------------------------------------------------------------------------------------------
  // Messages

  /** A message in memory: the buffer, and right behind it the length, whose low byte comes first. */
  class CoapMessage {
    const buffer: array<byte>
    var length: nat
    var pos: nat

    ghost predicate Valid()
      reads this
    {
      buffer.Length == MAX_MSG_SIZE && length <= MAX_MSG_SIZE
    }

    /** The message proper: the part of the buffer in use. */
    function Bytes(): (b: seq<byte>)
      requires Valid()
      reads this, buffer
      ensures |b| == length
    {
      buffer[..length]
    }

    constructor ()
      ensures Valid() && fresh(buffer) && length == 0 && pos == 0
    {
      buffer := new byte[MAX_MSG_SIZE](_ => 0);
      length := 0;
      pos := 0;
    }

    method ParseMessageHeader() returns (r: Result<nat>)
      requires Valid()
      ensures r == HeaderSize(Bytes())
    {
      if length < HEADER_SIZE {
        return Err(InvalidHeader);
      }
      if buffer[0] / 64 != 1 {
        return Err(InvalidVersion);
      }
      if buffer[0] % 16 > MAX_TOKEN_LEN {
        return Err(InvalidHeader);
      }
      if length < HEADER_SIZE + buffer[0] % 16 {
        return Err(InvalidHeader);
      }
      return Ok(HEADER_SIZE + buffer[0] % 16);
    }

    /** Re-encodes the option at `p`, of which `left` bytes remain, after a closer predecessor. */
    method FixFollower(p: nat, left: nat, prev: uint16, number: uint16)
      requires Valid() && p + left == length && !AtEnd(Bytes()[p..])
      requires ReadFirst(Bytes()[p..], prev).Ok?
      requires prev <= number <= ReadFirst(Bytes()[p..], prev).value.opt.number
      modifies `length, buffer
      ensures Valid()
      ensures Bytes() == old(Bytes()[..p]) + Renumber(old(Bytes()[p..]), prev, number)
    {
      hide DecodeOption, ReadFirst, EncodeOption, AtEnd, Renumber;
      ghost var t := Bytes()[p..];
      assert buffer[p..p + left] == t;
      var o := ParseOption(buffer, p, left, prev);
      FollowerShrinks(t, prev, number);
      var at := p + o.value.valueAt;
      SliceOfPrefix(buffer[..], length, at, at + o.value.length);
      ghost var e := EncodeOption(number, o.value.number, Bytes()[at..at + o.value.length]);
      ghost var opt := Opt(o.value.number, Bytes()[at..at + o.value.length]);
      RenumberParts(Bytes(), p, prev, number, opt, o.value.consumed, e);
      Reencode(p, o.value.consumed, left, number, o.value.number, at, o.value.length, e);
    }

    /** Writes the option `e` over the `n` bytes at `p`, its value taken from `at`, and closes the gap. */
    method Reencode(p: nat, n: nat, left: nat, prev: uint16, number: uint16, at: nat, len: nat, ghost e: seq<byte>)
      requires Valid() && p + left == length && n <= left && at + len == p + n && |e| <= n
      requires e == EncodeOption(prev, number, Bytes()[at..at + len])
      modifies `length, buffer
      ensures Valid()
      ensures Bytes() == old(Bytes()[..p]) + e + old(Bytes()[p + n..])
    {
      hide EncodeOption;
      ghost var b := Bytes();
      SliceOfPrefix(buffer[..], length, at, at + len);
      var m := FormatOption(buffer, p, false, prev, number, buffer, at, len);
      Overwrite(p, prev, number, at, len, e);
      ClosedGap(b, p, e, n);
      if m < n {
        Cut(p + m, n - m, left - n);
      }
    }

    /** Sets occurrence `index` of option `number` to the `len` bytes of `src` at `at`. */
    method SetOption(number: uint16, index: nat, src: array<byte>, at: nat, len: nat) returns (error: Error)
      requires Valid() && src != buffer && at + len <= src.Length
      modifies `length, buffer
      ensures Valid()
      ensures (error, Bytes()) == SetBytes(old(Bytes()), number, index, old(src[at..at + len]))
    {
      hide DecodeOption, ReadFirst, Locate, EncodeOption, SetBytes, Renumber;
      ghost var b, value := Bytes(), src[at..at + len];
      var header := ParseMessageHeader();
      if header.Err? {
        assert SetBytes(b, number, index, value) == (header.error, b) by { SetBytesFails(b, number, index, value); }
        return header.error;
      }
      ghost var h := header.value;
      assert buffer[h..h + (length - h)] == b[h..];
      var place := Search(buffer, header.value, length - header.value, number, index);
      if place.Err? {
        SetBytesFails(b, number, index, value);
        return place.error;
      }
      var p: nat, prev, left: nat := place.value.p, place.value.prev, length - place.value.p;
      ghost var slot := Locate(b[h..], 0, number, index).value;
      SetBytesAtSlot(b, h, slot, number, index, value);

      if place.value.found.Some? {
        var size := place.value.found.value;
        left := left - size;
        Cut(p, size, left);
      }
      ghost var cut := Bytes();
      assert place.value.found.None? ==> cut[..p] + cut[p..] == cut;
      var n := FormatOption(buffer, p, false, prev, number, src, at, len);
      if length + n > MAX_MSG_SIZE {
        return BufferOverflow;
      }
      if place.value.found.None? {
        LocateStops(b[h..], 0, number, index);
        SuffixOfSuffix(b, h, p);
      }
      InsertBefore(p, left, n, prev, number, src, at, len, place.value.found.None?);
      return NoError;
    }

    /** Writes an option of `n` bytes at `p`, before the last `left` bytes, and fixes the option behind it
        when it is new. */
    method InsertBefore(p: nat, left: nat, n: nat, prev: uint16, number: uint16,
                        src: array<byte>, at: nat, len: nat, isNew: bool)
      requires Valid() && p + left == length && src != buffer && at + len <= src.Length
      requires n == |EncodeOption(prev, number, src[at..at + len])| && length + n <= MAX_MSG_SIZE
      requires isNew && !AtEnd(Bytes()[p..]) ==>
        && ReadFirst(Bytes()[p..], prev).Ok?
        && prev <= number <= ReadFirst(Bytes()[p..], prev).value.opt.number
      modifies `length, buffer
      ensures Valid()
      ensures Bytes() == old(Bytes()[..p]) + EncodeOption(prev, number, old(src[at..at + len]))
                         + if isNew then Renumber(old(Bytes()[p..]), prev, number) else old(Bytes()[p..])
    {
      hide DecodeOption, ReadFirst, EncodeOption, Renumber;
      ghost var b, e := Bytes(), EncodeOption(prev, number, src[at..at + len]);
      Insert(p, left, n, prev, number, src, at, len);
      Inserted(b, p, e);
      if left > 0 && buffer[p + n] != PAYLOAD_MARKER && isNew {
        assert Bytes()[p + n..][0] == buffer[p + n];
        FixFollower(p + n, left, prev, number);
      } else if isNew {
        assert left > 0 ==> Bytes()[p + n..][0] == buffer[p + n];
        RenumberEnd(b[p..], prev, number);
      }
    }

    /** Deletes occurrence `index` of option `number`, if there is one. */
    method DeleteOption(number: uint16, index: nat) returns (error: Error)
      requires Valid()
      modifies `length, buffer
      ensures Valid()
      ensures (error, Bytes()) == DeleteBytes(old(Bytes()), number, index)
    {
      hide DecodeOption, ReadFirst, Locate, EncodeOption, DeleteBytes, Refit;
      ghost var b := Bytes();
      DeleteBytesFails(b, number, index);
      var header := ParseMessageHeader();
      if header.Err? {
        return header.error;
      }
      ghost var h := header.value;
      assert buffer[h..h + (length - h)] == b[h..];
      var place := Search(buffer, header.value, length - header.value, number, index);
      if place.Err? {
        return place.error;
      }
      ghost var slot := Locate(b[h..], 0, number, index).value;
      DeleteBytesAtSlot(b, h, slot, number, index);
      if place.value.found.None? {
        return NoError;
      }
      DeleteRoom(b, h, slot, number, index);
      var p, size := place.value.p, place.value.found.value;
      var left := length - p - size;
      Cut(p, size, left);
      CutParts(b, p, size);
      error := RefitTail(p, left, number, place.value.prev);
    }

    /** Rewrites the option at `p`, if there is one there, after a more distant predecessor. */
    method RefitTail(p: nat, left: nat, prev: uint16, prev': uint16) returns (error: Error)
      requires Valid() && p + left == length
      requires p + |Refit(Bytes()[p..], prev, prev')| <= MAX_MSG_SIZE
      modifies `length, buffer
      ensures Valid()
      ensures Bytes() == old(Bytes()[..p]) + Refit(old(Bytes()[p..]), prev, prev')
      ensures error == if AtEnd(old(Bytes()[p..])) || ReadFirst(old(Bytes()[p..]), prev).Ok? then NoError
                       else ReadFirst(old(Bytes()[p..]), prev).error
    {
      hide ReadFirst, Refit;
      assert left > 0 ==> Bytes()[p..][0] == buffer[p];
      if left > 0 && buffer[p] != PAYLOAD_MARKER {
        error := RefitFollower(p, left, prev, prev');
      } else {
        RefitEnd(Bytes()[p..], prev, prev');
        assert Bytes() == Bytes()[..p] + Bytes()[p..];
        error := NoError;
      }
    }

    /** Rewrites the option at `p`, of which `left` bytes remain, after a more distant predecessor. */
    method RefitFollower(p: nat, left: nat, prev: uint16, prev': uint16) returns (error: Error)
      requires Valid() && p + left == length && !AtEnd(Bytes()[p..])
      requires p + |Refit(Bytes()[p..], prev, prev')| <= MAX_MSG_SIZE
      modifies `length, buffer
      ensures Valid()
      ensures Bytes() == old(Bytes()[..p]) + Refit(old(Bytes()[p..]), prev, prev')
      ensures match ReadFirst(old(Bytes()[p..]), prev)
        case Err(e) => error == e
        case Ok(_) => error == NoError
    {
      hide DecodeOption, ReadFirst, EncodeOption, AtEnd, Refit, Min;
      ghost var b := Bytes();
      assert buffer[p..p + left] == b[p..];
      var o := ParseOption(buffer, p, left, prev);
      if o.Err? {
        RefitFails(b[p..], prev, prev');
        assert b == b[..p] + b[p..];
        return o.error;
      }
      var n, number, len := o.value.consumed, o.value.number, o.value.length;
      SliceOfPrefix(buffer[..], length, p + n - len, p + n);
      RefitWrites(b, p, prev, prev', n, number, len);
      GrowAndWrite(p, n, prev', number, len, EncodeOption(prev', number, b[p + n - len..p + n]));
      return NoError;
    }

    /** Writes the option `e` over the one of `n` bytes at `p`, whose value it keeps; the value and all
        that follows it first move up when the new header is longer. */
    method GrowAndWrite(p: nat, n: nat, prev: uint16, number: uint16, len: nat, ghost e: seq<byte>)
      requires Valid() && p + n <= length && len <= n
      requires e == EncodeOption(prev, number, Bytes()[p + n - len..p + n])
      requires p + |e| <= MAX_MSG_SIZE && length + |e| - n <= MAX_MSG_SIZE
      modifies `length, buffer
      ensures Valid()
      ensures Bytes() == old(Bytes()[..p]) + e + old(Bytes()[p + Min(n, |e|)..])
    {
      hide EncodeOption;
      ghost var b := Bytes();
      SliceOfPrefix(buffer[..], length, p + n - len, p + n);
      var m := FormatOption(buffer, p, false, prev, number, buffer, p + n - len, len);
      ValueFits(prev, number, b[p + n - len..p + n]);
      if m > n {
        GapAndWrite(p, n, prev, number, len, e);
      } else {
        Overwrite(p, prev, number, p + n - len, len, e);
      }
    }

    /** The same for an option `e` that takes more bytes. */
    method GapAndWrite(p: nat, n: nat, prev: uint16, number: uint16, len: nat, ghost e: seq<byte>)
      requires Valid() && p + n <= length && len <= n < |e|
      requires e == EncodeOption(prev, number, Bytes()[p + n - len..p + n])
      requires p + |e| <= MAX_MSG_SIZE && length + |e| - n <= MAX_MSG_SIZE
      modifies `length, buffer
      ensures Valid()
      ensures Bytes() == old(Bytes()[..p]) + e + old(Bytes()[p + n..])
    {
      hide EncodeOption;
      ghost var b := Bytes();
      SliceOfPrefix(buffer[..], length, p + n - len, p + n);
      var m := FormatOption(buffer, p, false, prev, number, buffer, p + n - len, len);
      ValueFits(prev, number, b[p + n - len..p + n]);
      ghost var gap := OpenGap(p + n - len, m - n);
      GapContents(b, p, n, len, gap, m);
      Overwrite(p, prev, number, p + m - len, len, e);
    }

    /** Moves everything from `from` on up by `k` bytes. */
    method OpenGap(from: nat, k: nat) returns (ghost gap: seq<byte>)
      requires Valid() && from <= length && length + k <= MAX_MSG_SIZE
      modifies `length, buffer
      ensures Valid() && length == old(length) + k && |gap| == k
      ensures Bytes() == old(Bytes()[..from]) + gap + old(Bytes()[from..])
    {
      ghost var all := buffer[..];
      Move(buffer, from + k, buffer, from, length - from);
      gap := buffer[from..from + k];
      assert all[..length][from..] == all[from..length];
      length := length + k;
    }

    /** Writes the option `e` at `p` over what is there, its value taken from `at`. */
    method Overwrite(p: nat, prev: uint16, number: uint16, at: nat, len: nat, ghost e: seq<byte>)
      requires Valid() && at + len <= length && p + |e| <= at + len
      requires e == EncodeOption(prev, number, Bytes()[at..at + len])
      modifies buffer
      ensures Bytes() == old(Bytes()[..p]) + e + old(Bytes()[p + |e|..])
    {
      hide EncodeOption;
      ghost var all := buffer[..];
      SliceOfPrefix(all, length, at, at + len);
      var m := FormatOption(buffer, p, true, prev, number, buffer, at, len);
      PrefixOfWrite(all, length, p, e);
    }

    /** The place and length of the value of an option. */
    method GetOption(number: uint16, index: nat) returns (r: Result<(nat, nat)>)
      requires Valid()
      ensures r == FindBytes(Bytes(), number, index)
    {
      hide Find;
      var header := ParseMessageHeader();
      if header.Err? {
        return Err(header.error);
      }
      assert buffer[header.value..header.value + (length - header.value)] == Bytes()[header.value..];
      r := FindOption(buffer, header.value, length - header.value, number, index);
    }

    /** The value of an option read as an integer in network byte order. */
    method GetUintOption(number: uint16, index: nat) returns (r: Result<uint32>)
      requires Valid()
      ensures match FindBytes(Bytes(), number, index)
        case Err(e) => r == Err(e)
        case Ok((at, len)) => r == Ok(DecodeUint(Bytes()[at..at + len]))
    {
      hide FindBytes, DecodeUint;
      var option := GetOption(number, index);
      if option.Err? {
        return Err(option.error);
      }
      var (at, len) := option.value;
      var value: uint32 := 0;
      ghost var s := Bytes()[at..at + len];
      DecodeUintNone(s);
      for i := 0 to len
        invariant value == DecodeUint(s[..i])
      {
        DecodeUintStep(s, i);
        assert s[i] == buffer[at + i];
        value := (value * 256) % 0x1_0000_0000;
        value := value + buffer[at + i];
      }
      assert s[..len] == s;
      return Ok(value);
    }

    /** Sets an option to an integer, written in as few bytes as possible. */
    method SetUintOption(number: uint16, index: nat, value: uint32) returns (error: Error)
      requires Valid()
      modifies `length, buffer
      ensures Valid()
      ensures (error, Bytes()) == SetBytes(old(Bytes()), number, index, EncodeUint(value))
    {
      hide SetBytes, EncodeUint;
      var bytes := new byte[4];
      var i, rest := 4, value;
      EncodeUintSize(value);
      assert EncodeUint(value) == EncodeUint(rest) + bytes[i..];
      while rest != 0
        invariant 0 <= i <= 4 && |EncodeUint(rest)| <= i
        invariant EncodeUint(value) == EncodeUint(rest) + bytes[i..]
        invariant unchanged(this) && unchanged(buffer)
        decreases rest
      {
        EncodeUintStep(rest, bytes[i..]);
        bytes[i - 1] := rest % 256;
        assert bytes[i - 1..] == [rest % 256] + bytes[i..];
        rest := rest / 256;
        i := i - 1;
      }
      EncodeUintStep(0, bytes[i..]);
      assert bytes[i..i + (4 - i)] == EncodeUint(value);
      error := SetOption(number, index, bytes, i, 4 - i);
    }

    /** The offset of the payload marker, or of the end when there is none. */
    method FindTail() returns (r: Result<nat>)
      requires Valid()
      ensures match Decode(Bytes())
        case Err(e) => r == Err(e)
        case Ok(v) => r == Ok(length - |v.tail|)
    {
      hide DecodeOptions;
      var header := ParseMessageHeader();
      if header.Err? {
        return Err(header.error);
      }
      assert buffer[header.value..header.value + (length - header.value)] == Bytes()[header.value..];
      r := ParseOptions(buffer, header.value, length - header.value);
      if r.Ok? {
        r := Ok(header.value + r.value);
      }
    }

    /** Whether the message can be read, and has no marker without a payload. */
    method Parse() returns (error: Error)
      requires Valid()
      ensures match Decode(Bytes())
        case Err(e) => error == e
        case Ok(v) => error == if |v.tail| == 1 then InvalidMessage else NoError
    {
      hide Decode;
      var tail := FindTail();
      if tail.Err? {
        return tail.error;
      }
      if length - tail.value == 1 {
        return InvalidMessage;
      }
      return NoError;
    }

    /** Stores a zero at offset `at`; behind the buffer that is the low byte of the length. */
    method StoreZero(at: nat)
      requires Valid() && at <= MAX_MSG_SIZE
      modifies `length, buffer
      ensures Valid()
      ensures at < MAX_MSG_SIZE ==> buffer[..] == old(buffer[..])[at := 0] && length == old(length)
      ensures at == MAX_MSG_SIZE ==> buffer[..] == old(buffer[..]) && length == old(length) - old(length) % 0x100
    {
      if at < MAX_MSG_SIZE {
        buffer[at] := 0;
      } else {
        length := length - length % 0x100;
      }
    }

    /** Copies `len` bytes behind `p`, stores a zero behind them, and adds to the length what it has grown by. */
    method AppendTerminated(p: nat, src: array<byte>, at: nat, len: nat, ghost head: seq<byte>)
      requires Valid() && src != buffer && at + len <= src.Length && p + len <= MAX_MSG_SIZE && length <= p
      requires head == buffer[..p]
      modifies `length, buffer
      ensures Valid() && Bytes() == Terminated(head + old(src[at..at + len]), old(length))
      ensures p + len < MAX_MSG_SIZE ==> length == p + len && buffer[length] == 0
    {
      ghost var full := head + src[at..at + len];
      var grown := p + len - length;
      Move(buffer, p, src, at, len);
      assert buffer[..p + len] == full;
      StoreZero(p + len);
      assert p + len < MAX_MSG_SIZE ==> buffer[..p + len] == full;
      length := length + grown;
      TerminatedPrefix(buffer[..], full, length);
    }

    /** Replaces the payload. */
    method SetPayload(src: array<byte>, at: nat, len: nat) returns (error: Error)
      requires Valid() && src != buffer && at + len <= src.Length
      modifies `length, buffer
      ensures Valid()
      ensures (error, Bytes()) == SetPayloadBytes(old(Bytes()), old(src[at..at + len]))
      ensures match Decode(old(Bytes()))
        case Err(_) => true
        case Ok(v) =>
          0 < len && |old(Bytes())| - |v.tail| + 1 + len < MAX_MSG_SIZE ==> length < MAX_MSG_SIZE && buffer[length] == 0
    {
      hide Decode, Terminated;
      ghost var b := Bytes();
      var tail := FindTail();
      if tail.Err? {
        return tail.error;
      }
      TailOfMessage(b);
      length := tail.value;
      assert Bytes() == b[..tail.value];
      if len > 0 {
        if length + len + 1 > MAX_MSG_SIZE {
          return BufferOverflow;
        }
        buffer[length] := PAYLOAD_MARKER;
        AppendTerminated(length + 1, src, at, len, b[..tail.value] + [PAYLOAD_MARKER]);
      }
      return NoError;
    }

    /** Appends to the payload. */
    method WritePayload(src: array<byte>, at: nat, len: nat) returns (error: Error)
      requires Valid() && src != buffer && at + len <= src.Length
      modifies `length, buffer
      ensures Valid()
      ensures (error, Bytes()) == WritePayloadBytes(old(Bytes()), old(src[at..at + len]))
      ensures match Decode(old(Bytes()))
        case Err(_) => true
        case Ok(v) =>
          0 < len && |old(Bytes())| + (if v.tail == [] then 1 else 0) + len < MAX_MSG_SIZE ==>
            length < MAX_MSG_SIZE && buffer[length] == 0
    {
      hide Decode, Terminated;
      ghost var b := Bytes();
      var tail := FindTail();
      if tail.Err? {
        return tail.error;
      }
      if len > 0 {
        if length - tail.value == 0 {
          if length + len + 1 > MAX_MSG_SIZE {
            return BufferOverflow;
          }
          buffer[length] := PAYLOAD_MARKER;
          length := length + 1;
        } else if length + len > MAX_MSG_SIZE {
          return BufferOverflow;
        }
        ghost var marked := b + if tail.value == |b| then [PAYLOAD_MARKER] else [];
        assert Bytes() == marked;
        AppendTerminated(length, src, at, len, marked);
      }
      return NoError;
    }

    /** Copies a datagram into the buffer, as far as there is room for it. */
    method Receive(datagram: seq<byte>)
      requires Valid()
      modifies this, buffer
      ensures Valid() && pos == 0 && Bytes() == Clipped(datagram)
    {
      var n := Min(|datagram|, MAX_MSG_SIZE);
      forall i | 0 <= i < n {
        buffer[i] := datagram[i];
      }
      length, pos := n, 0;
    }

    /** Stores a zero behind a message that has been received. */
    method Terminate()
      requires Valid()
      modifies `length, buffer
      ensures Valid() && Bytes() == Terminated(old(Bytes()), old(length))
      ensures old(length) < MAX_MSG_SIZE ==> length == old(length) && buffer[length] == 0
    {
      ghost var b := Bytes();
      StoreZero(length);
      assert |b| < MAX_MSG_SIZE ==> Bytes() == b;
      TerminatedPrefix(buffer[..], b, length);
    }

    /** The place and length of the payload. */
    method GetPayload() returns (r: Result<(nat, nat)>)
      requires Valid()
      ensures match Decode(Bytes())
        case Err(e) => r == Err(e)
        case Ok(v) =>
          && r.Ok? && r.value.0 + r.value.1 <= length
          && r.value.1 == |v.Payload()|
          && Bytes()[r.value.0..r.value.0 + r.value.1] == v.Payload()
    {
      hide Decode;
      var tail := FindTail();
      if tail.Err? {
        return Err(tail.error);
      }
      TailOfMessage(Bytes());
      if length - tail.value > 0 {
        return Ok((tail.value + 1, length - tail.value - 1));
      }
      return Ok((tail.value, 0));
    }

    /** Copies `n` bytes from position `pos` of the `len` bytes at `p`. */
    method CopyOut(dst: array<byte>, at: nat, p: nat, len: nat, n: nat)
      requires Valid() && dst != buffer && at + n <= dst.Length
      requires p + len <= length && pos + n <= len
      modifies dst
      ensures dst[..] == old(dst[..at]) + Bytes()[p..p + len][pos..pos + n] + old(dst[at + n..])
    {
      Move(dst, at, buffer, p + pos, n);
      SliceOfSlice(Bytes(), p, p + len, pos, pos + n);
      assert Bytes()[p + pos..p + pos + n] == buffer[p + pos..p + pos + n];
    }

    /** Copies the next bytes of the payload to `dst`, at most `size` of them, and moves on behind them. */
    method ReadPayload(dst: array<byte>, at: nat, size: nat) returns (error: Error, n: nat)
      requires Valid() && dst != buffer && at + size <= dst.Length
      modifies `pos, dst
      ensures error != NoError ==> pos == old(pos) && dst[..] == old(dst[..])
      ensures match Decode(Bytes())
        case Err(e) => error == e
        case Ok(v) =>
          if old(pos) < |v.Payload()| then
            && error == NoError && n == Min(|v.Payload()| - old(pos), size) && pos == old(pos) + n
            && dst[..] == old(dst[..at]) + v.Payload()[old(pos)..pos] + old(dst[at + n..])
          else error == EndOfStream
    {
      hide Decode, View.Payload;
      n := 0;
      var payload := GetPayload();
      if payload.Err? {
        return payload.error, 0;
      }
      var (p, len) := payload.value;
      ghost var b := Bytes();
      if pos < len {
        n := Min(len - pos, size);
        CopyOut(dst, at, p, len, n);
        pos := pos + n;
        assert Bytes() == b;
        return NoError, n;
      }
      return EndOfStream, 0;
    }

    /** Takes `size` bytes out at `p`; `left` bytes follow them. */
    method Cut(p: nat, size: nat, left: nat)
      requires Valid() && p + size + left == length
      modifies `length, buffer
      ensures Valid() && length == old(length) - size
      ensures Bytes() == old(Bytes()[..p]) + old(Bytes()[p + size..])
    {
      ghost var all := buffer[..];
      Move(buffer, p, buffer, p + size, left);
      length := length - size;
      assert all[p + size..p + size + left] == all[..p + size + left][p + size..];
    }

    /** Makes room at `p`, before the last `left` bytes, for an option of `n` bytes, and writes it there. */
    method Insert(p: nat, left: nat, n: nat, prev: uint16, number: uint16, src: array<byte>, at: nat, len: nat)
      requires Valid() && p + left == length && src != buffer && at + len <= src.Length
      requires n == |EncodeOption(prev, number, src[at..at + len])| && length + n <= MAX_MSG_SIZE
      modifies `length, buffer
      ensures Valid() && length == old(length) + n
      ensures Bytes() == old(Bytes()[..p]) + EncodeOption(prev, number, old(src[at..at + len])) + old(Bytes()[p..])
    {
      hide EncodeOption;
      ghost var all, e := buffer[..], EncodeOption(prev, number, src[at..at + len]);
      Move(buffer, p + n, buffer, p, left);
      ghost var moved := buffer[..];
      var m := FormatOption(buffer, p, true, prev, number, src, at, len);
      length := length + n;
      InsertWrites(all, moved, buffer[..], p, e, left);
    }
  }

  /** The beginning of the buffer that is the terminated message. */
  lemma TerminatedPrefix(all: seq<byte>, full: seq<byte>, n: nat)
    requires |full| <= MAX_MSG_SIZE == |all| && n <= |full| && all[..|full|] == full
    ensures forall length: nat ::
      length <= |full| && n == |full| - (if |full| < MAX_MSG_SIZE then 0 else length % 0x100) ==>
      all[..n] == Terminated(full, length)
  {
    assert all[..n] == full[..n];
    assert full[..|full|] == full;
  }

  /** Where things are once a gap has been opened in front of the value, of `len` bytes, of an option
      of `n` bytes that is to take `m` bytes. */
  lemma GapContents(b: seq<byte>, p: nat, n: nat, len: nat, gap: seq<byte>, m: nat)
    requires len <= n && p + n <= |b| && n + |gap| == m
    ensures var s := b[..p + n - len] + gap + b[p + n - len..];
      && s[..p] == b[..p]
      && s[p + m - len..p + m] == b[p + n - len..p + n]
      && s[p + m..] == b[p + n..]
  {
  }

  /** What an option shorter than the `n` bytes it replaces leaves behind. */
  lemma ClosedGap(b: seq<byte>, p: nat, e: seq<byte>, n: nat)
    requires |e| <= n && p + n <= |b|
    ensures var s := b[..p] + e + b[p + |e|..];
      && s[..p + |e|] == b[..p] + e
      && s[p + n..] == b[p + n..]
      && s == s[..p + |e|] + s[p + |e|..]
  {
  }

  /** A write within the first `n` bytes, seen from them. */
  lemma PrefixOfWrite(all: seq<byte>, n: nat, p: nat, e: seq<byte>)
    requires p + |e| <= n <= |all|
    ensures (all[..p] + e + all[p + |e|..])[..n] == all[..n][..p] + e + all[..n][p + |e|..]
  {
  }

  lemma Inserted(b: seq<byte>, p: nat, e: seq<byte>)
    requires p <= |b|
    ensures var s := b[..p] + e + b[p..]; s[..p + |e|] == b[..p] + e && s[p + |e|..] == b[p..]
  {
  }

  lemma CutParts(b: seq<byte>, p: nat, size: nat)
    requires p + size <= |b|
    ensures var s := b[..p] + b[p + size..]; s[..p] == b[..p] && s[p..] == b[p + size..]
  {
  }

  /** The follower at `p` rewritten over itself, in offsets of the whole message. */
  lemma RefitWrites(b: seq<byte>, p: nat, prev: uint16, prev': uint16, n: nat, number: uint16, len: nat)
    requires len <= n && p + n <= |b| && !AtEnd(b[p..])
    requires ReadFirst(b[p..], prev) == Ok(First(Opt(number, b[p + n - len..p + n]), n))
    ensures var e := EncodeOption(prev', number, b[p + n - len..p + n]);
      && |e| <= |Refit(b[p..], prev, prev')|
      && (|b| + |e| - n <= p + |Refit(b[p..], prev, prev')| || |e| <= n)
      && b[..p] + Refit(b[p..], prev, prev') == b[..p] + e + b[p + Min(n, |e|)..]
  {
    hide ReadFirst, AtEnd, EncodeOption;
    var e := EncodeOption(prev', number, b[p + n - len..p + n]);
    RefitParts(b[p..], prev, prev', n, number, b[p + n - len..p + n]);
    SuffixOfSuffix(b, p, p + Min(n, |e|));
  }

  lemma InsertWrites(all: seq<byte>, s1: seq<byte>, s2: seq<byte>, p: nat, e: seq<byte>, left: nat)
    requires p + left + |e| <= |all|
    requires s1 == all[..p + |e|] + all[p..p + left] + all[p + |e| + left..]
    requires s2 == s1[..p] + e + s1[p + |e|..]
    ensures s2[..p + left + |e|] == all[..p + left][..p] + e + all[..p + left][p..]
  {
  }
}
