/** The editing calls as the block-wise transfers use them: integer options, payloads and message IDs. */
module MessageUse {
  import opened Common
  import opened CoapMessages
  import opened OptionCodec
  import opened OptionList
  import opened OptionEditing
  import opened OptionMeaning
  import opened MessageView
  import opened UintOption
  import opened WellFormedness
  import opened BlockOption

  /** The first occurrence of an option as an integer. */
  function UintOf(b: seq<byte>, number: uint16): Option<uint32> {
    match FindBytes(b, number, 0)
    case Err(_) => None
    case Ok((at, len)) => Some(DecodeUint(b[at..at + len]))
  }

  function PayloadOf(b: seq<byte>): seq<byte> {
    match Decode(b)
    case Err(_) => []
    case Ok(v) => v.Payload()
  }

  function ValuesOf(b: seq<byte>, number: uint16): seq<seq<byte>> {
    match Decode(b)
    case Err(_) => []
    case Ok(v) => Values(v.options, number)
  }

  lemma UintOfValues(b: seq<byte>, number: uint16)
    requires Decode(b).Ok?
    ensures UintOf(b, number) == if ValuesOf(b, number) == [] then None else Some(DecodeUint(ValuesOf(b, number)[0]))
  {
    hide Decode, Values, FindBytes;
    FindRefinesView(b, number, 0);
  }

  /** A message of a header, one option and a tail. */
  function OneOption(header: seq<byte>, number: uint16, value: seq<byte>, tail: seq<byte>): seq<byte> {
    header + (EncodeAll(0, [Opt(number, value)]) + tail)
  }

  lemma OneOptionUse(header: seq<byte>, number: uint16, value: seq<byte>, tail: seq<byte>)
    requires HeaderSize(header) == Ok(|header|) && |value| <= MAX_FIELD && AtEnd(tail)
    ensures var b := OneOption(header, number, value, tail);
      && Decode(b) == Ok(View(header, [Opt(number, value)], tail)) && WellFormed(b)
      && forall n: uint16 :: UintOf(b, n) == if n == number then Some(DecodeUint(value)) else None
  {
    hide DecodeOptions, EncodeAll, WellFormedOptions, UintOf, AtEnd;
    var b := OneOption(header, number, value, tail);
    EncodeAllDecodes(0, [Opt(number, value)], tail);
    DecodeBehindHeader(header, |header|, EncodeAll(0, [Opt(number, value)]) + tail);
    assert header[..|header|] == header;
    assert b[..|header|] == header;
    forall n: uint16 ensures UintOf(b, n) == if n == number then Some(DecodeUint(value)) else None {
      UintOfValues(b, n);
      ValuesOfOne(Opt(number, value), n);
    }
  }

  /** A message of a header only. */
  lemma NoOptionUse(header: seq<byte>, number: uint16)
    requires HeaderSize(header) == Ok(|header|)
    ensures Decode(header) == Ok(View(header, [], [])) && UintOf(header, number) == None
  {
    hide UintOf;
    assert header[|header|..] == [] && header[..|header|] == header;
    UintOfValues(header, number);
  }

  /** An option found in the beginning of a message is found in the message. */
  lemma UintOfShorter(b: seq<byte>, n: nat, number: uint16)
    requires HeaderSize(b).Ok? && HeaderSize(b).value <= n <= |b|
    ensures UintOf(b[..n], number).Some? ==> UintOf(b, number) == UintOf(b[..n], number)
  {
    hide Find, HeaderSize, DecodeUint;
    var h := HeaderSize(b).value;
    CutHeader(b, h, n);
    if FindBytes(b[..n], number, 0).Ok? {
      FindShorter(b[..n][h..], b[n..], 0, number, 0);
      var (at, len) := FindBytes(b[..n], number, 0).value;
      SliceOfPrefix(b, n, at, at + len);
    }
  }

  /** A message of a header and a tail. */
  lemma NoOptionsUse(header: seq<byte>, tail: seq<byte>, number: uint16)
    requires HeaderSize(header) == Ok(|header|) && AtEnd(tail)
    ensures Decode(header + tail) == Ok(View(header, [], tail)) && UintOf(header + tail, number) == None
  {
    hide UintOf;
    DecodeBehindHeader(header, |header|, tail);
    assert header[..|header|] == header;
    UintOfValues(header + tail, number);
  }

  /** Both messages ask for the same thing: type, code, token and all options but Block1 and Block2. */
  ghost predicate SameRequest(b: seq<byte>, b': seq<byte>) {
    && Decode(b).Ok? && Decode(b').Ok?
    && var h, h' := Decode(b).value.header, Decode(b').value.header;
    && |h| == |h'| && |h| >= HEADER_SIZE
    && h[..2] == h'[..2] && h[HEADER_SIZE..] == h'[HEADER_SIZE..]
    && forall n: uint16 :: n != BLOCK1 && n != BLOCK2 ==> ValuesOf(b, n) == ValuesOf(b', n)
  }

  /** The same options behind a header of the same size. */
  ghost predicate SameOptions(b: seq<byte>, b': seq<byte>) {
    && Decode(b).Ok? && Decode(b').Ok?
    && Decode(b').value.options == Decode(b).value.options
    && |Decode(b').value.header| == |Decode(b).value.header|
  }

  lemma SameRequestTransitive(a: seq<byte>, b: seq<byte>, c: seq<byte>)
    requires SameRequest(a, b) && SameRequest(b, c)
    ensures SameRequest(a, c)
  {
    hide Decode;
  }

  lemma SameRequestReflexive(b: seq<byte>)
    requires WellFormed(b)
    ensures SameRequest(b, b)
  {
    hide Decode, WellFormed;
    WellFormedSorted(b);
    HeaderLength(b);
  }

  lemma HeaderLength(b: seq<byte>)
    requires Decode(b).Ok?
    ensures |Decode(b).value.header| >= HEADER_SIZE
  {
    hide DecodeOptions;
  }

  /** Setting an integer option of a well-formed message. */
  lemma SetUintUse(b: seq<byte>, number: uint16, x: uint32)
    requires WellFormed(b) && |b| <= MAX_MSG_SIZE && SetBytes(b, number, 0, EncodeUint(x)).0 == NoError
    ensures var b' := SetBytes(b, number, 0, EncodeUint(x)).1;
      && WellFormed(b') && |b'| <= MAX_MSG_SIZE
      && UintOf(b', number) == Some(x)
      && PayloadOf(b') == PayloadOf(b)
      && (|ValuesOf(b, number)| <= 1 ==> |ValuesOf(b', number)| == 1)
      && (forall n: uint16 :: n != number ==> ValuesOf(b', n) == ValuesOf(b, n) && UintOf(b', n) == UintOf(b, n))
      && (number == BLOCK1 || number == BLOCK2 ==> SameRequest(b, b'))
  {
    hide SetBytes, Decode, WellFormed, Values, SetList, UintOf;
    var b' := SetBytes(b, number, 0, EncodeUint(x)).1;
    WellFormedSorted(b);
    HeaderLength(b);
    SetKeepsWellFormed(b, number, 0, EncodeUint(x));
    SetRefinesView(b, number, 0, EncodeUint(x));
    var options := Decode(b).value.options;
    forall n: uint16 ensures n != number ==> ValuesOf(b', n) == ValuesOf(b, n) && UintOf(b', n) == UintOf(b, n) {
      SetMeaning(options, number, 0, EncodeUint(x), n);
      UintOfValues(b', n);
      UintOfValues(b, n);
    }
    SetMeaning(options, number, 0, EncodeUint(x), number);
    UintOfValues(b', number);
    DecodeEncodeUint(x);
  }

  /** Deleting the only occurrence of an option of a well-formed message. */
  lemma DeleteUse(b: seq<byte>, number: uint16)
    requires WellFormed(b) && |b| <= MAX_MSG_SIZE && |ValuesOf(b, number)| <= 1
    ensures var (error, b') := DeleteBytes(b, number, 0);
      && error == NoError
      && WellFormed(b') && |b'| <= MAX_MSG_SIZE
      && ValuesOf(b', number) == []
      && PayloadOf(b') == PayloadOf(b)
      && (forall n: uint16 :: n != number ==> UintOf(b', n) == UintOf(b, n))
      && (number == BLOCK1 || number == BLOCK2 ==> SameRequest(b, b'))
  {
    hide DeleteBytes, Decode, WellFormed, Values, DeleteList, UintOf;
    var b' := DeleteBytes(b, number, 0).1;
    WellFormedSorted(b);
    HeaderLength(b);
    DeleteRefinesView(b, number, 0);
    DeleteKeepsWellFormed(b, number, 0);
    var options := Decode(b).value.options;
    forall n: uint16 ensures n != number ==> ValuesOf(b', n) == ValuesOf(b, n) && UintOf(b', n) == UintOf(b, n) {
      DeleteMeaning(options, number, 0, n);
      UintOfValues(b', n);
      UintOfValues(b, n);
    }
    DeleteMeaning(options, number, 0, number);
  }

  /** Another payload behind a well-formed message. */
  lemma TailUse(b: seq<byte>, t: seq<byte>)
    requires WellFormed(b) && AtEnd(t)
    ensures Decode(b).Ok? && |Decode(b).value.tail| <= |b|
    ensures var b' := b[..|b| - |Decode(b).value.tail|] + t;
      && WellFormed(b') && SameRequest(b, b') && SameOptions(b, b')
      && PayloadOf(b') == (if t == [] then [] else t[1..])
      && (forall n: uint16 :: ValuesOf(b', n) == ValuesOf(b, n) && UintOf(b', n) == UintOf(b, n))
  {
    hide Decode, WellFormed, Values, UintOf;
    WellFormedSorted(b);
    HeaderLength(b);
    DecodeWithTail(b, t);
    WellFormedOtherTail(b, t);
    var b' := b[..|b| - |Decode(b).value.tail|] + t;
    forall n: uint16 ensures UintOf(b', n) == UintOf(b, n) {
      UintOfValues(b', n);
      UintOfValues(b, n);
    }
  }

  /** Writing payload data to a well-formed message when there is room for the zero behind it. */
  lemma WriteUse(b: seq<byte>, data: seq<byte>)
    requires WellFormed(b) && |b| <= MAX_MSG_SIZE && WritePayloadBytes(b, data).0 == NoError
    requires Decode(b).Ok? && WritesWhole(b, data)
    ensures var b' := WritePayloadBytes(b, data).1;
      && WellFormed(b') && |b'| <= MAX_MSG_SIZE && SameRequest(b, b') && SameOptions(b, b')
      && PayloadOf(b') == PayloadOf(b) + data
      && (forall n: uint16 :: ValuesOf(b', n) == ValuesOf(b, n) && UintOf(b', n) == UintOf(b, n))
  {
    hide Decode, WellFormed, ValuesOf, UintOf, SameRequest, PayloadOf, WritePayloadBytes, WritesWhole;
    WellFormedSorted(b);
    var t := WrittenTail(Decode(b).value.tail, data);
    WrittenBytes(b, data);
    TailUse(b, t);
    PayloadOfTail(b);
  }

  /** What follows the options once `data` has been added to the payload. */
  function WrittenTail(tail: seq<byte>, data: seq<byte>): seq<byte> {
    if data == [] then tail else if tail == [] then [PAYLOAD_MARKER] + data else tail + data
  }

  lemma WrittenBytes(b: seq<byte>, data: seq<byte>)
    requires Decode(b).Ok? && |b| <= MAX_MSG_SIZE && WritePayloadBytes(b, data).0 == NoError
    ensures var tail := Decode(b).value.tail;
      var t := WrittenTail(tail, data);
      var full := b[..|b| - |tail|] + t;
      && |tail| <= |b| && AtEnd(t) && |full| <= MAX_MSG_SIZE && |full| >= |data|
      && WritePayloadBytes(b, data).1 == (if data == [] then full else Terminated(full, |full| - |data|))
      && (WritesWhole(b, data) <==> data == [] || RoomForZero(|full|, |full| - |data|))
      && (if t == [] then [] else t[1..]) == (if tail == [] then [] else tail[1..]) + data
  {
    hide Decode, Terminated, RoomForZero;
    TailOfMessage(b);
    var tail := Decode(b).value.tail;
    if data == [] {
      assert tail != [] ==> tail[1..] + data == tail[1..];
    } else {
      ExtendedTail(b, tail, data, WrittenTail(tail, data));
    }
  }

  /** Writing when there is no such room: what is left of the message cannot be read, or is a well-formed
      beginning of it that has lost some of its payload, and some of its options only with all of it. */
  lemma CutUse(b: seq<byte>, data: seq<byte>)
    requires WellFormed(b) && |b| <= MAX_MSG_SIZE && WritePayloadBytes(b, data).0 == NoError
    requires Decode(b).Ok? && !WritesWhole(b, data)
    ensures var b' := WritePayloadBytes(b, data).1;
      && |b'| <= MAX_MSG_SIZE && |PayloadOf(b')| < |PayloadOf(b)| + |data|
      && (Decode(b').Ok? ==> WellFormed(b'))
      && forall n: uint16 :: Decode(b').Ok? ==>
           && |ValuesOf(b', n)| <= |ValuesOf(b, n)|
           && (UintOf(b', n) == UintOf(b, n) || (UintOf(b', n) == None && PayloadOf(b') == []))
  {
    hide Decode, WellFormed, ValuesOf, UintOf, SameRequest, PayloadOf, WritePayloadBytes, WritesWhole;
    WellFormedSorted(b);
    var t := WrittenTail(Decode(b).value.tail, data);
    WrittenBytes(b, data);
    TailUse(b, t);
    PayloadOfTail(b);
    var full := b[..|b| - |Decode(b).value.tail|] + t;
    WellFormedSorted(full);
    CutUses(full, |full| - |data|);
  }

  lemma CutUses(full: seq<byte>, length: nat)
    requires WellFormed(full) && Decode(full).Ok? && |full| <= MAX_MSG_SIZE && PayloadOf(full) != []
    requires length <= |full| && !RoomForZero(|full|, length)
    ensures var b' := Terminated(full, length);
      && |PayloadOf(b')| < |PayloadOf(full)|
      && (Decode(b').Ok? ==> WellFormed(b'))
      && forall n: uint16 :: Decode(b').Ok? ==>
           && |ValuesOf(b', n)| <= |ValuesOf(full, n)|
           && (UintOf(b', n) == UintOf(full, n) || (UintOf(b', n) == None && PayloadOf(b') == []))
  {
    hide Decode, WellFormed, Values, UintOf, HeaderSize;
    PayloadOfTail(full);
    HeaderShort(full);
    TerminatedView(full, length);
    var b' := Terminated(full, length);
    if Decode(b').Ok? {
      PayloadOfTail(b');
      CutMessage(full, |b'|);
      WellFormedCut(full, |b'|);
      forall n: uint16 ensures |ValuesOf(b', n)| <= |ValuesOf(full, n)|
        && (UintOf(b', n) == UintOf(full, n) || (UintOf(b', n) == None && PayloadOf(b') == []))
      {
        FewerValues(Decode(b').value.options, Decode(full).value.options, n);
        UintOfValues(b', n);
        UintOfValues(full, n);
      }
    }
  }

  lemma FewerValues(a: seq<Opt>, b: seq<Opt>, number: uint16)
    requires a <= b
    ensures Values(a, number) <= Values(b, number)
  {
    assert b == a + b[|a|..];
    ValuesOfConcat(a, b[|a|..], number);
  }

  lemma PayloadOfTail(b: seq<byte>)
    requires Decode(b).Ok?
    ensures PayloadOf(b) == if Decode(b).value.tail == [] then [] else Decode(b).value.tail[1..]
  {
    hide Decode;
  }

  /** Trimming the payload of a well-formed message. */
  lemma ClearUse(b: seq<byte>)
    requires WellFormed(b)
    ensures var (error, b') := SetPayloadBytes(b, []);
      && error == NoError
      && WellFormed(b') && |b'| <= |b| && SameRequest(b, b') && SameOptions(b, b')
      && PayloadOf(b') == []
      && (forall n: uint16 :: ValuesOf(b', n) == ValuesOf(b, n) && UintOf(b', n) == UintOf(b, n))
  {
    hide Decode, WellFormed, Values, UintOf;
    WellFormedSorted(b);
    TailOfMessage(b);
    TailUse(b, []);
    var start := |b| - |Decode(b).value.tail|;
    assert b[..start] + [] == b[..start];
  }

  /** A new message ID changes nothing but the message ID. */
  lemma MidUse(b: seq<byte>, b': seq<byte>)
    requires WellFormed(b) && |b'| == |b| && b'[..2] == b[..2] && b'[4..] == b[4..]
    ensures WellFormed(b') && SameRequest(b, b') && SameOptions(b, b') && PayloadOf(b') == PayloadOf(b)
    ensures forall n: uint16 :: ValuesOf(b', n) == ValuesOf(b, n) && UintOf(b', n) == UintOf(b, n)
  {
    hide DecodeOptions, WellFormedOptions, Values, UintOf;
    WellFormedSorted(b);
    var h := HeaderSize(b).value;
    assert b'[0] == b'[..2][0] && b[0] == b[..2][0];
    assert b'[h..] == b'[4..][h - 4..] && b[h..] == b[4..][h - 4..];
    assert b'[..h][..2] == b'[..2] && b'[..h][4..] == b'[4..][..h - 4];
    assert b[..h][..2] == b[..2] && b[..h][4..] == b[4..][..h - 4];
    forall n: uint16 ensures UintOf(b', n) == UintOf(b, n) {
      UintOfValues(b', n);
      UintOfValues(b, n);
    }
  }

  /** Setting an option of a well-formed message fails for want of room only. */
  lemma SetUintErrors(b: seq<byte>, number: uint16, x: uint32)
    requires WellFormed(b) && |b| <= MAX_MSG_SIZE
    ensures var error := SetBytes(b, number, 0, EncodeUint(x)).0; error == NoError || error == BufferOverflow
  {
    hide Decode, WellFormed, SetBytes, SetList;
    WellFormedSorted(b);
    SetRefinesView(b, number, 0, EncodeUint(x));
  }

  /** The first occurrence of an option, read as an integer. */
  method FirstUint(message: CoapMessage, number: uint16) returns (value: Option<uint32>)
    requires message.Valid()
    ensures value == UintOf(message.Bytes(), number)
  {
    hide FindBytes;
    var r := message.GetUintOption(number, 0);
    value := if r.Ok? then Some(r.value) else None;
  }
}
