/** What the bytes of a CoAP message say, and what each editing call makes of them: section 3 of RFC 7252. */
module MessageView {
  import opened Common
  import opened OptionCodec
  import opened OptionList
  import opened OptionEditing
  import opened OptionMeaning

  const MAX_MSG_SIZE := 1152
  const HEADER_SIZE := 4
  const MAX_TOKEN_LEN := 8

  /** The size of the fixed header and token. */
  function HeaderSize(b: seq<byte>): (r: Result<nat>)
    ensures r.Ok? ==> HEADER_SIZE <= r.value <= |b| && r.value <= HEADER_SIZE + MAX_TOKEN_LEN
    ensures r.Err? ==> r.error != NoError
  {
    if |b| < HEADER_SIZE then Err(InvalidHeader)
    else if b[0] / 64 != 1 then Err(InvalidVersion)
    else if b[0] % 16 > MAX_TOKEN_LEN then Err(InvalidHeader)
    else if |b| < HEADER_SIZE + b[0] % 16 then Err(InvalidHeader)
    else Ok(HEADER_SIZE + b[0] % 16)
  }

  /** A message as it is meant: header and token, options, and what follows them. */
  datatype View = View(header: seq<byte>, options: seq<Opt>, tail: seq<byte>) {
    /** The payload, without its marker. */
    function Payload(): seq<byte> {
      if tail == [] then [] else tail[1..]
    }
  }

  function Decode(b: seq<byte>): (r: Result<View>) {
    match HeaderSize(b)
    case Err(e) => Err(e)
    case Ok(h) =>
      match DecodeOptions(b[h..], 0)
      case Err(e) => Err(e)
      case Ok(d) => Ok(View(b[..h], d.options, d.tail))
  }

  // ---------------------------------------------------------------------------------------------
  // The editing calls on message bytes: the status code and the bytes they leave

  function SetBytes(b: seq<byte>, number: uint16, index: nat, value: seq<byte>): (Error, seq<byte>) {
    match HeaderSize(b)
    case Err(e) => (e, b)
    case Ok(h) =>
      match Locate(b[h..], 0, number, index)
      case Err(e) => (e, b)
      case Ok(slot) =>
        var removed := if slot.found.Some? then slot.found.value.size else 0;
        if |b| - removed + |EncodeOption(slot.prev, number, value)| > MAX_MSG_SIZE then
          (BufferOverflow, b[..h + slot.at] + b[h + slot.at + removed..])
        else
          (NoError, b[..h] + SetAt(b[h..], slot, number, value))
  }

  function DeleteBytes(b: seq<byte>, number: uint16, index: nat): (Error, seq<byte>) {
    match HeaderSize(b)
    case Err(e) => (e, b)
    case Ok(h) =>
      match Locate(b[h..], 0, number, index)
      case Err(e) => (e, b)
      case Ok(slot) =>
        if slot.found.None? then (NoError, b)
        else
          var rest := b[h + slot.at + slot.found.value.size..];
          var error := if AtEnd(rest) || ReadFirst(rest, number).Ok? then NoError else ReadFirst(rest, number).error;
          (error, b[..h] + DeleteAt(b[h..], slot, number))
  }

  lemma DeleteBytesFails(b: seq<byte>, number: uint16, index: nat)
    ensures HeaderSize(b).Err? ==> DeleteBytes(b, number, index) == (HeaderSize(b).error, b)
    ensures HeaderSize(b).Ok? && Locate(b[HeaderSize(b).value..], 0, number, index).Err? ==>
      DeleteBytes(b, number, index) == (Locate(b[HeaderSize(b).value..], 0, number, index).error, b)
  {
    hide Locate, DeleteAt;
  }

  /** The outcome of a delete once its slot is known, in offsets of the whole message. */
  lemma DeleteBytesAtSlot(b: seq<byte>, h: nat, slot: Slot, number: uint16, index: nat)
    requires HeaderSize(b) == Ok(h) && Locate(b[h..], 0, number, index) == Ok(slot)
    ensures slot.found.None? ==> DeleteBytes(b, number, index) == (NoError, b)
    ensures slot.found.Some? ==>
      var p, q := h + slot.at, h + slot.at + slot.found.value.size;
      && q <= |b|
      && DeleteBytes(b, number, index) ==
         (if AtEnd(b[q..]) || ReadFirst(b[q..], number).Ok? then NoError else ReadFirst(b[q..], number).error,
          b[..p] + Refit(b[q..], number, slot.prev))
  {
    hide ReadFirst, Refit, Locate;
    if slot.found.Some? {
      var q := h + slot.at + slot.found.value.size;
      assert b[h..][slot.at + slot.found.value.size..] == b[q..];
      assert b[..h] + b[h..][..slot.at] == b[..h + slot.at];
      assert b[..h] + (b[h..][..slot.at] + Refit(b[q..], number, slot.prev)) ==
        b[..h + slot.at] + Refit(b[q..], number, slot.prev);
    }
  }

  lemma SetBytesFails(b: seq<byte>, number: uint16, index: nat, value: seq<byte>)
    ensures HeaderSize(b).Err? ==> SetBytes(b, number, index, value) == (HeaderSize(b).error, b)
    ensures HeaderSize(b).Ok? && Locate(b[HeaderSize(b).value..], 0, number, index).Err? ==>
      SetBytes(b, number, index, value) == (Locate(b[HeaderSize(b).value..], 0, number, index).error, b)
  {
    hide EncodeOption, Locate, SetAt;
  }

  /** The outcome of a set once its slot is known, in offsets of the whole message. */
  lemma SetBytesAtSlot(b: seq<byte>, h: nat, slot: Slot, number: uint16, index: nat, value: seq<byte>)
    requires HeaderSize(b) == Ok(h) && Locate(b[h..], 0, number, index) == Ok(slot)
    ensures var p := h + slot.at;
      var size := if slot.found.Some? then slot.found.value.size else 0;
      var e := EncodeOption(slot.prev, number, value);
      && p + size <= |b|
      && SetBytes(b, number, index, value) ==
         if |b| - size + |e| > MAX_MSG_SIZE then (BufferOverflow, b[..p] + b[p + size..])
         else (NoError, b[..p] + e + if slot.found.Some? then b[p + size..] else Renumber(b[p..], slot.prev, number))
  {
    hide EncodeOption, Renumber, Locate;
    var p := h + slot.at;
    assert b[..h] + b[h..][..slot.at] == b[..p];
    assert b[h..][slot.at..] == b[p..];
    if slot.found.Some? {
      assert b[h..][slot.at + slot.found.value.size..] == b[p + slot.found.value.size..];
    }
    var e, rest := EncodeOption(slot.prev, number, value), RestAt(b[h..], slot, number);
    assert b[..h] + (b[h..][..slot.at] + e + rest) == b[..p] + e + rest;
  }

  /** Where the value of an option lies in a message. */
  function FindBytes(b: seq<byte>, number: uint16, index: nat): (r: Result<(nat, nat)>)
    ensures r.Ok? ==> r.value.0 + r.value.1 <= |b|
    ensures r.Err? ==> r.error != NoError
  {
    match HeaderSize(b)
    case Err(e) => Err(e)
    case Ok(h) => Shift(h, Find(b[h..], 0, number, index))
  }

  // ---------------------------------------------------------------------------------------------
  // The calls refine edits of the view

  /** Getting an option yields exactly the value held, and fails exactly when there is none. */
  lemma FindRefinesView(b: seq<byte>, number: uint16, index: nat)
    requires Decode(b).Ok?
    ensures var values := Values(Decode(b).value.options, number);
      var r := FindBytes(b, number, index);
      if index < |values| then r.Ok? && b[r.value.0..r.value.0 + r.value.1] == values[index]
      else r == Err(NotFound)
  {
    hide ReadFirst, DecodeOptions, Find, Values;
    var h := HeaderSize(b).value;
    FindMeaning(b[h..], 0, number, index);
    var r := Find(b[h..], 0, number, index);
    if r.Ok? {
      SliceOfSuffix(b, h, r.value.0, r.value.0 + r.value.1);
    }
  }

  /** What can be wrong with a message. */
  lemma DecodeMessageErrors(b: seq<byte>)
    ensures Decode(b).Err? ==> Decode(b).error != EndOfStream && Decode(b).error != NoError
  {
    hide DecodeOptions;
    if HeaderSize(b).Ok? {
      DecodeErrors(b[HeaderSize(b).value..], 0);
    }
  }

  /** Replacing what follows the header and token keeps them. */
  lemma DecodeBehindHeader(b: seq<byte>, h: nat, s: seq<byte>)
    requires HeaderSize(b) == Ok(h)
    ensures HeaderSize(b[..h] + s) == Ok(h)
    ensures (b[..h] + s)[h..] == s && (b[..h] + s)[..h] == b[..h]
  {
  }

  /** A successful set: the addressed occurrence holds the value, or a new one does, and the header, the
      token, every other option and the payload are as they were. It fails for want of room only. */
  lemma SetRefinesView(b: seq<byte>, number: uint16, index: nat, value: seq<byte>)
    requires Decode(b).Ok? && |b| <= MAX_MSG_SIZE
    ensures var v := Decode(b).value;
      var (error, b') := SetBytes(b, number, index, value);
      && (error == NoError || error == BufferOverflow)
      && (error == NoError ==>
            && |b'| <= MAX_MSG_SIZE
            && Decode(b') == Ok(v.(options := SetList(v.options, number, index, value))))
      && (error == BufferOverflow && !Present(v.options, number, index) ==> b' == b)
  {
    hide ReadFirst, EncodeOption, DecodeOptions, Locate, SetAt, Position, SetList, Spells, AtEnd;
    var h := HeaderSize(b).value;
    SplitAtSlot(b[h..], 0, number, index);
    var slot := Locate(b[h..], 0, number, index).value;
    var (error, b') := SetBytes(b, number, index, value);
    if error == NoError {
      SetRefines(b[h..], 0, number, index, value);
      DecodeBehindHeader(b, h, SetAt(b[h..], slot, number, value));
      SetSize(b[h..], 0, number, index, value);
    } else if slot.found.None? {
      assert b[..h + slot.at] + b[h + slot.at..] == b;
    }
  }

  /** The follower of a new option never grows, so the room reserved is enough. */
  lemma SetSize(s: seq<byte>, prev: uint16, number: uint16, index: nat, value: seq<byte>)
    requires prev <= number && Locate(s, prev, number, index).Ok?
    ensures var slot := Locate(s, prev, number, index).value;
      var removed := if slot.found.Some? then slot.found.value.size else 0;
      |SetAt(s, slot, number, value)| <= |s| - removed + |EncodeOption(slot.prev, number, value)|
  {
    hide ReadFirst, EncodeOption, Locate;
    LocateStops(s, prev, number, index);
    var slot := Locate(s, prev, number, index).value;
    if slot.found.None? && !AtEnd(s[slot.at..]) {
      FollowerShrinks(s[slot.at..], slot.prev, number);
    }
  }

  /** An option re-encoded after a closer predecessor takes no more bytes. */
  lemma FollowerShrinks(t: seq<byte>, prev: uint16, number: uint16)
    requires ReadFirst(t, prev).Ok? && prev <= number <= ReadFirst(t, prev).value.opt.number
    ensures var First(opt, n) := ReadFirst(t, prev).value;
      |EncodeOption(number, opt.number, opt.value)| <= n
  {
    hide DecodeOption, Extension;
    var o := DecodeOption(t, prev).value;
    SizeOfOption(t, prev);
    ExtensionMonotone(o.number - number, o.delta);
  }

  /** The option at `p` encoded after another predecessor, within the message. */
  lemma RenumberParts(b: seq<byte>, p: nat, prev: uint16, number: uint16, opt: Opt, n: nat, e: seq<byte>)
    requires p + n <= |b| && !AtEnd(b[p..]) && ReadFirst(b[p..], prev) == Ok(First(opt, n))
    requires e == EncodeOption(number, opt.number, opt.value)
    ensures b[..p] + Renumber(b[p..], prev, number) == b[..p] + e + b[p + n..]
  {
    hide ReadFirst, EncodeOption, AtEnd;
    SuffixOfSuffix(b, p, p + n);
    ConcatAssoc(b[..p], e, b[p + n..]);
  }

  /** A failed set leaves the message unchanged exactly when the occurrence it addresses is absent: a
      present one is taken out before the room for the new value is checked. */
  lemma SetFailureKeepsMessage(b: seq<byte>, number: uint16, index: nat, value: seq<byte>)
    requires Decode(b).Ok? && SetBytes(b, number, index, value).0 != NoError
    ensures SetBytes(b, number, index, value).1 == b <==> !Present(Decode(b).value.options, number, index)
  {
    hide ReadFirst, EncodeOption, DecodeOptions, Locate, SetAt, Position, Spells, AtEnd;
    var h := HeaderSize(b).value;
    SplitAtSlot(b[h..], 0, number, index);
    var slot := Locate(b[h..], 0, number, index).value;
    if slot.found.None? {
      assert b[..h + slot.at] + b[h + slot.at..] == b;
    } else {
      FoundSize(b[h..], 0, number, index);
      assert |SetBytes(b, number, index, value).1| < |b|;
    }
  }

  lemma FoundSize(s: seq<byte>, prev: uint16, number: uint16, index: nat)
    requires Locate(s, prev, number, index).Ok? && Locate(s, prev, number, index).value.found.Some?
    ensures Locate(s, prev, number, index).value.found.value.size >= 1
  {
    hide ReadFirst, Locate;
    LocateSpells(s, prev, number, index);
  }

  /** A failing set that does change the message: replacing an empty If-Match by a value too long. */
  lemma SetFailureExample(value: seq<byte>)
    requires |value| == MAX_MSG_SIZE
    ensures var b := [0x40, 0x01, 0x00, 0x00, 0x10];
      Decode(b).Ok? && SetBytes(b, 1, 0, value) == (BufferOverflow, b[..4])
  {
    var b: seq<byte> := [0x40, 0x01, 0x00, 0x00, 0x10];
    assert b[4..] == [0x10];
    assert DecodeHeader([0x10]) == Ok(Fields(1, 0, 1));
    assert ReadFirst([0x10], 0) == Ok(First(Opt(1, []), 1));
    assert Locate([0x10], 0, 1, 0) == Ok(Slot(0, [], 0, Some(First(Opt(1, []), 1))));
    assert DecodeOptions([0x10][1..], 1) == Ok(Decoded([], []));
    assert b[..4] + b[5..] == b[..4];
  }

  /** The option behind the occurrence being deleted takes no fewer bytes once it is gone. */
  ghost predicate FollowerKeepsSize(b: seq<byte>, number: uint16, index: nat)
    requires Decode(b).Ok?
  {
    var s := b[HeaderSize(b).value..];
    match Locate(s, 0, number, index)
    case Err(_) => true
    case Ok(slot) =>
      slot.found.Some? ==> KeepsSize(s[slot.at + slot.found.value.size..], number, slot.prev)
  }

  /** Deleting never fails on a message that can be read and never makes it longer. It takes out the
      addressed occurrence, if there is one, and nothing else, exactly when the option behind it does not
      come to need fewer bytes; only a number or a delta that wraps 16 bits makes it do so. */
  lemma DeleteRefinesView(b: seq<byte>, number: uint16, index: nat)
    requires Decode(b).Ok?
    ensures var v := Decode(b).value;
      var (error, b') := DeleteBytes(b, number, index);
      && error == NoError
      && |b'| <= |b|
      && (Decode(b') == Ok(v.(options := DeleteList(v.options, number, index)))
          <==> FollowerKeepsSize(b, number, index))
  {
    hide ReadFirst, EncodeOption, DecodeOptions, Locate, DeleteAt, Position, Present, KeepsSize, DeleteList, Spells,
         AtEnd,
         DeleteBytes;
    var h := HeaderSize(b).value;
    SplitAtSlot(b[h..], 0, number, index);
    DeleteRefines(b[h..], 0, number, index);
    var slot := Locate(b[h..], 0, number, index).value;
    DeleteBytesBehindHeader(b, h, slot, number, index);
    if slot.found.Some? {
      FollowerReadable(b[h..], 0, number, index);
      DecodeOptionsBehind(b, h, DeleteAt(b[h..], slot, number));
      DeleteSize(b[h..], 0, number, index);
    } else {
      DeleteAbsent(Decode(b).value.options, number, index);
    }
  }

  lemma DecodeOptionsBehind(b: seq<byte>, h: nat, s: seq<byte>)
    requires HeaderSize(b) == Ok(h)
    ensures Decode(b[..h] + s) == match DecodeOptions(s, 0)
                                  case Err(e) => Err(e)
                                  case Ok(d) => Ok(View(b[..h], d.options, d.tail))
  {
    hide DecodeOptions;
    DecodeBehindHeader(b, h, s);
  }

  lemma DeleteBytesBehindHeader(b: seq<byte>, h: nat, slot: Slot, number: uint16, index: nat)
    requires HeaderSize(b) == Ok(h) && Locate(b[h..], 0, number, index) == Ok(slot)
    ensures slot.found.None? ==> DeleteBytes(b, number, index) == (NoError, b)
    ensures slot.found.Some? ==>
      var rest := b[h..][slot.at + slot.found.value.size..];
      DeleteBytes(b, number, index) ==
        (if AtEnd(rest) || ReadFirst(rest, number).Ok? then NoError else ReadFirst(rest, number).error,
         b[..h] + DeleteAt(b[h..], slot, number))
  {
    hide ReadFirst, Locate, DeleteAt, AtEnd;
    if slot.found.Some? {
      SuffixOfSuffix(b, h, h + slot.at + slot.found.value.size);
    }
  }

  lemma FollowerReadable(s: seq<byte>, prev: uint16, number: uint16, index: nat)
    requires DecodeOptions(s, prev).Ok? && Locate(s, prev, number, index).Ok?
    requires Locate(s, prev, number, index).value.found.Some?
    ensures var slot := Locate(s, prev, number, index).value;
      var rest := s[slot.at + slot.found.value.size..];
      AtEnd(rest) || ReadFirst(rest, number).Ok?
  {
    hide ReadFirst, EncodeOption, Locate, Position;
    SplitAtSlot(s, prev, number, index);
    RestAfterSet(s, prev, number, index);
  }

  /** The bytes freed by an option always hold the growth of its follower. */
  lemma DeleteSize(s: seq<byte>, prev: uint16, number: uint16, index: nat)
    requires prev <= number && Locate(s, prev, number, index).Ok?
    requires Locate(s, prev, number, index).value.found.Some?
    ensures |DeleteAt(s, Locate(s, prev, number, index).value, number)| <= |s|
  {
    hide ReadFirst, EncodeOption, Locate;
    LocateStops(s, prev, number, index);
    LocateSpells(s, prev, number, index);
    var slot := Locate(s, prev, number, index).value;
    var rest := s[slot.at + slot.found.value.size..];
    if !AtEnd(rest) && ReadFirst(rest, number).Ok? {
      GrowthFits(s[slot.at..], slot.prev, rest);
    }
  }

  lemma RefitEnd(t: seq<byte>, prev: uint16, prev': uint16)
    requires AtEnd(t)
    ensures Refit(t, prev, prev') == t
  {
  }

  /** The option at the front of `s` and its follower `t`, rewritten without it, take no more than both. */
  lemma GrowthIsRoom(s: seq<byte>, prev: uint16, number: uint16, t: seq<byte>)
    requires ReadFirst(s, prev).Ok? && prev <= number == ReadFirst(s, prev).value.opt.number
    ensures |Refit(t, number, prev)| <= ReadFirst(s, prev).value.size + |t|
  {
    hide ReadFirst, EncodeOption;
    if !AtEnd(t) && ReadFirst(t, number).Ok? {
      GrowthFits(s, prev, t);
    }
  }

  /** The room freed by a deleted option holds its rewritten follower. */
  lemma DeleteRoom(b: seq<byte>, h: nat, slot: Slot, number: uint16, index: nat)
    requires HeaderSize(b) == Ok(h) && Locate(b[h..], 0, number, index) == Ok(slot) && slot.found.Some?
    ensures var p, q := h + slot.at, h + slot.at + slot.found.value.size;
      q <= |b| && p + |Refit(b[q..], number, slot.prev)| <= |b|
  {
    hide ReadFirst, EncodeOption, Refit, Locate;
    LocateStops(b[h..], 0, number, index);
    LocateSpells(b[h..], 0, number, index);
    GrowthIsRoom(b[h..][slot.at..], slot.prev, number, b[h + slot.at + slot.found.value.size..]);
  }

  lemma GrowthFits(s: seq<byte>, prev: uint16, t: seq<byte>)
    requires ReadFirst(s, prev).Ok? && prev <= ReadFirst(s, prev).value.opt.number
    requires ReadFirst(t, ReadFirst(s, prev).value.opt.number).Ok?
    ensures var First(opt, n) := ReadFirst(s, prev).value;
      var First(next, m) := ReadFirst(t, opt.number).value;
      |EncodeOption(prev, next.number, next.value)| <= n + m
  {
    hide DecodeOption, Extension;
    var o := DecodeOption(s, prev).value;
    var next := DecodeOption(t, o.number).value;
    SizeOfOption(s, prev);
    SizeOfOption(t, o.number);
    var delta := (next.number - prev) % 0x1_0000;
    assert delta <= o.delta + next.delta;
    ExtensionMonotone(delta, o.delta + next.delta);
    ExtensionSubadditive(o.delta, next.delta);
  }

  lemma DecodeOneOption(s: seq<byte>, prev: uint16)
    requires !AtEnd(s) && ReadFirst(s, prev).Ok? && ReadFirst(s, prev).value.size == |s|
    ensures DecodeOptions(s, prev) == Ok(Decoded([ReadFirst(s, prev).value.opt], []))
  {
    hide ReadFirst;
    assert s[|s|..] == [];
    var opt := ReadFirst(s, prev).value.opt;
    assert DecodeOptions([], opt.number) == Ok(Decoded([], []));
    assert [opt] + [] == [opt];
  }

  lemma DecodeTwoOptions(s: seq<byte>, prev: uint16)
    requires !AtEnd(s) && ReadFirst(s, prev).Ok?
    requires var First(opt, n) := ReadFirst(s, prev).value;
      DecodeOptions(s[n..], opt.number).Ok? && |DecodeOptions(s[n..], opt.number).value.options| == 1
    ensures var First(opt, n) := ReadFirst(s, prev).value;
      DecodeOptions(s, prev) == Ok(Decoded([opt, DecodeOptions(s[n..], opt.number).value.options[0]],
                                           DecodeOptions(s[n..], opt.number).value.tail))
  {
    hide ReadFirst;
    var First(opt, n) := ReadFirst(s, prev).value;
    var more := DecodeOptions(s[n..], opt.number).value.options;
    assert [opt] + more == [opt, more[0]];
  }

  lemma ExampleBefore(s: seq<byte>, t: seq<byte>)
    requires s == [0xA0, 0xE0, 0xFE, 0xF2] && t == [0xE0, 0xFE, 0xF2]
    ensures ReadFirst(s, 0) == Ok(First(Opt(10, []), 1)) && ReadFirst(t, 10) == Ok(First(Opt(9, []), 3))
    ensures DecodeOptions(s, 0) == Ok(Decoded([Opt(10, []), Opt(9, [])], []))
  {
    assert DecodeHeader(s) == Ok(Fields(10, 0, 1));
    assert t[1..3] == [0xFE, 0xF2];
    assert DecodeHeader(t) == Ok(Fields(65535, 0, 3));
    DecodeOneOption(t, 10);
    assert s[1..] == t;
    DecodeTwoOptions(s, 0);
  }

  lemma ExampleAfter(s: seq<byte>)
    requires s == [0x90, 0xFE, 0xF2]
    ensures DecodeOptions(s, 0) == Err(InvalidMessage)
  {
    assert DecodeHeader(s) == Ok(Fields(9, 0, 1));
    assert s[1..] == [0xFE, 0xF2];
    assert DecodeHeader([0xFE, 0xF2]) == Err(InvalidMessage);
  }

  /** Deleting option 10 from in front of an option whose number wraps to 9 leaves a message that can
      no longer be read. */
  lemma DeleteExample()
    ensures var b := [0x40, 0x01, 0x00, 0x00, 0xA0, 0xE0, 0xFE, 0xF2];
      var (error, b') := DeleteBytes(b, 10, 0);
      && Decode(b).Ok? && Decode(b).value.options == [Opt(10, []), Opt(9, [])]
      && error == NoError && Decode(b') == Err(InvalidMessage)
  {
    hide ReadFirst, DecodeOptions, Locate, DeleteAt;
    var b: seq<byte> := [0x40, 0x01, 0x00, 0x00, 0xA0, 0xE0, 0xFE, 0xF2];
    var s, t, s' := b[4..], b[5..], [0x90, 0xFE, 0xF2];
    ExampleBefore(s, t);
    ExampleAfter(s');
    var slot := Slot(0, [], 0, Some(First(Opt(10, []), 1)));
    ExampleSlot(s, t, slot);
    DecodeBehindHeader(b, 4, s');
  }

  lemma ExampleSlot(s: seq<byte>, t: seq<byte>, slot: Slot)
    requires s == [0xA0, 0xE0, 0xFE, 0xF2] && t == [0xE0, 0xFE, 0xF2]
    requires slot == Slot(0, [], 0, Some(First(Opt(10, []), 1)))
    ensures Locate(s, 0, 10, 0) == Ok(slot) && DeleteAt(s, slot, 10) == [0x90, 0xFE, 0xF2]
  {
    hide ReadFirst, EncodeOption;
    ExampleBefore(s, t);
    assert s[1..] == t && t[1..] == [0xFE, 0xF2];
    ExampleEncoding();
    assert DeleteAt(s, slot, 10) == s[..0] + ([0x90] + t[1..]);
  }

  lemma ExampleEncoding()
    ensures EncodeOption(0, 9, []) == [0x90]
  {
  }

  // ---------------------------------------------------------------------------------------------
  // Payload

  /** What is left of the message `b` once a zero has been stored behind it, at a time when its length was
      recorded as `length`. The record stands behind the buffer: when `b` fills the buffer the zero goes to the
      low byte of the record, to which the rest is then added. */
  function Terminated(b: seq<byte>, length: nat): (r: seq<byte>)
    requires length <= |b| <= MAX_MSG_SIZE
    ensures r == b <==> RoomForZero(|b|, length)
    ensures |r| <= |b| < |r| + 0x100
  {
    if |b| < MAX_MSG_SIZE then b else b[..MAX_MSG_SIZE - length % 0x100]
  }

  /** The zero behind a message of `total` bytes does no harm. */
  predicate RoomForZero(total: nat, length: nat) {
    total < MAX_MSG_SIZE || length % 0x100 == 0
  }

  function SetPayloadBytes(b: seq<byte>, payload: seq<byte>): (Error, seq<byte>) {
    match Decode(b)
    case Err(e) => (e, b)
    case Ok(v) =>
      var start := |b| - |v.tail|;
      if payload == [] then (NoError, b[..start])
      else if start + |payload| + 1 > MAX_MSG_SIZE then (BufferOverflow, b[..start])
      else (NoError, Terminated(b[..start] + [PAYLOAD_MARKER] + payload, start))
  }

  function WritePayloadBytes(b: seq<byte>, data: seq<byte>): (Error, seq<byte>) {
    match Decode(b)
    case Err(e) => (e, b)
    case Ok(v) =>
      var marker := if v.tail == [] then [PAYLOAD_MARKER] else [];
      if data == [] then (NoError, b)
      else if |b| + |marker| + |data| > MAX_MSG_SIZE then (BufferOverflow, b)
      else (NoError, Terminated(b + marker + data, |b| + |marker|))
  }

  lemma TailOfMessage(b: seq<byte>)
    requires Decode(b).Ok?
    ensures var v := Decode(b).value;
      && HeaderSize(b).Ok?
      && |v.tail| <= |b| - HeaderSize(b).value
      && AtEnd(v.tail)
      && b[|b| - |v.tail|..] == v.tail
      && b == b[..|b| - |v.tail|] + v.tail
  {
    hide DecodeOptions;
    var h := HeaderSize(b).value;
    TailIsSuffix(b[h..], 0);
    var tail := Decode(b).value.tail;
    assert b[h..][|b| - h - |tail|..] == b[|b| - |tail|..];
  }

  lemma DecodeWithTail(b: seq<byte>, t: seq<byte>)
    requires Decode(b).Ok? && AtEnd(t)
    ensures var v := Decode(b).value;
      |v.tail| <= |b| && Decode(b[..|b| - |v.tail|] + t) == Ok(v.(tail := t))
  {
    hide DecodeOptions;
    var h := HeaderSize(b).value;
    var v := Decode(b).value;
    var s := b[h..];
    ReplaceTail(s, 0, t);
    ReplaceFrom(b, h, |b| - |v.tail|, t);
    DecodeBehindHeader(b, h, s[..|s| - |v.tail|] + t);
  }

  /** A message cut short keeps its header, and as many of its options as come before the cut; if any of its
      payload is left, all of them. */
  lemma CutMessage(b: seq<byte>, n: nat)
    requires Decode(b).Ok? && |Decode(b).value.header| <= n <= |b|
    ensures HeaderSize(b[..n]) == HeaderSize(b)
    ensures Decode(b[..n]).Ok? ==>
      var c, v := Decode(b[..n]).value, Decode(b).value;
      && c.header == v.header && c.options <= v.options
      && (c.tail != [] ==> c.options == v.options && c.tail + b[n..] == v.tail)
  {
    hide DecodeOptions;
    var h := HeaderSize(b).value;
    CutHeader(b, h, n);
    if Decode(b[..n]).Ok? {
      ShorterArea(b[..n][h..], b[n..], 0);
    }
  }

  lemma CutHeader(b: seq<byte>, h: nat, n: nat)
    requires HeaderSize(b) == Ok(h) && h <= n <= |b|
    ensures HeaderSize(b[..n]) == Ok(h)
    ensures b[..n][..h] == b[..h] && b[..n][h..] + b[n..] == b[h..]
  {
  }

  /** A message that has been terminated reads as before exactly when there was room for the zero; else some
      of its payload is lost, or it cannot be read any more. */
  lemma TerminatedView(b: seq<byte>, length: nat)
    requires Decode(b).Ok? && |Decode(b).value.tail| >= 2 && length <= |b| <= MAX_MSG_SIZE
    ensures var b', v := Terminated(b, length), Decode(b).value;
      && HeaderSize(b') == HeaderSize(b)
      && (Decode(b') == Ok(v) <==> RoomForZero(|b|, length))
      && (!RoomForZero(|b|, length) && Decode(b').Ok? ==> |Decode(b').value.Payload()| < |v.Payload()|)
  {
    hide Decode;
    if !RoomForZero(|b|, length) {
      HeaderShort(b);
      CutMessage(b, MAX_MSG_SIZE - length % 0x100);
    }
  }

  lemma HeaderShort(b: seq<byte>)
    requires Decode(b).Ok?
    ensures HeaderSize(b).Ok? && |Decode(b).value.header| == HeaderSize(b).value <= HEADER_SIZE + MAX_TOKEN_LEN
  {
    hide DecodeOptions;
  }

  /** Setting the payload replaces it and keeps the header, the token and the options, exactly when there is
      room for the zero behind it; when there is no room for the payload itself the old one is gone
      nevertheless. */
  lemma SetPayloadRefinesView(b: seq<byte>, payload: seq<byte>)
    requires Decode(b).Ok? && |b| <= MAX_MSG_SIZE
    ensures var v := Decode(b).value;
      var start := |b| - |v.tail|;
      var (error, b') := SetPayloadBytes(b, payload);
      && |b'| <= MAX_MSG_SIZE && HeaderSize(b') == HeaderSize(b)
      && error == (if payload == [] || start + 1 + |payload| <= 1152 then NoError else BufferOverflow)
      && (error == BufferOverflow ==> Decode(b') == Ok(v.(tail := [])))
      && (error == NoError ==>
            (Decode(b') == Ok(v.(tail := if payload == [] then [] else [PAYLOAD_MARKER] + payload)) <==>
             payload == [] || RoomForZero(start + 1 + |payload|, start)))
  {
    hide Decode, Terminated, RoomForZero, HeaderSize, AtEnd;
    var v := Decode(b).value;
    TailOfMessage(b);
    HeaderShort(b);
    var start := |b| - |v.tail|;
    MarkedIsTail(payload);
    DecodeWithTail(b, []);
    DecodeWithTail(b, [PAYLOAD_MARKER] + payload);
    CutHeader(b, HeaderSize(b).value, start);
    assert b[..start] + [] == b[..start];
    var full := b[..start] + [PAYLOAD_MARKER] + payload;
    ConcatAssoc(b[..start], [PAYLOAD_MARKER], payload);
    if payload != [] && |full| <= MAX_MSG_SIZE {
      assert full[..start] == b[..start];
      TerminatedView(full, start);
      SameHeaderSize(b[..start], full, HeaderSize(b).value);
    }
  }

  lemma MarkedIsTail(payload: seq<byte>)
    ensures AtEnd([]) && AtEnd([PAYLOAD_MARKER] + payload)
  {
  }

  lemma SameHeaderSize(b: seq<byte>, b': seq<byte>, h: nat)
    requires HeaderSize(b) == Ok(h) && |b| <= |b'| && b'[..|b|] == b
    ensures HeaderSize(b') == Ok(h)
  {
    assert b'[0] == b'[..|b|][0];
  }

  /** A payload of 1147 bytes behind a header of four fills the buffer: setting it succeeds, and four bytes of
      it are lost. */
  lemma SetPayloadExample(payload: seq<byte>)
    requires |payload| == 1147
    ensures var b: seq<byte> := [0x40, 0x01, 0, 0];
      SetPayloadBytes(b, payload) == (NoError, b + [PAYLOAD_MARKER] + payload[..1143])
  {
    hide DecodeOptions;
    var b: seq<byte> := [0x40, 0x01, 0, 0];
    assert b[4..] == [] && b[..4] == b;
    assert DecodeOptions(b[4..], 0) == Ok(Decoded([], [])) by { NothingToDecode(); }
    assert (b + [PAYLOAD_MARKER] + payload)[..1148] == b + [PAYLOAD_MARKER] + payload[..1143];
  }

  lemma NothingToDecode()
    ensures DecodeOptions([], 0) == Ok(Decoded([], []))
  {
  }

  /** There is room for the zero behind the data that is going to be written to the message `b`. */
  predicate WritesWhole(b: seq<byte>, data: seq<byte>)
    requires Decode(b).Ok?
  {
    var length := |b| + if Decode(b).value.tail == [] then 1 else 0;
    data == [] || RoomForZero(length + |data|, length)
  }

  /** Writing payload data appends it, exactly when there is room for the zero behind it, and changes nothing
      when there is no room for the data itself. */
  lemma WritePayloadRefinesView(b: seq<byte>, data: seq<byte>)
    requires Decode(b).Ok? && |b| <= MAX_MSG_SIZE
    ensures var v := Decode(b).value;
      var (error, b') := WritePayloadBytes(b, data);
      && |b'| <= MAX_MSG_SIZE && HeaderSize(b') == HeaderSize(b)
      && error == (if data == [] || |b| + (if v.tail == [] then 1 else 0) + |data| <= 1152 then NoError
                   else BufferOverflow)
      && (error == BufferOverflow || data == [] ==> b' == b)
      && (error == NoError && data != [] ==>
            (Decode(b') == Ok(v.(tail := [PAYLOAD_MARKER] + (v.Payload() + data))) <==>
             WritesWhole(b, data)))
  {
    hide Decode, Terminated, RoomForZero, HeaderSize, View.Payload;
    HeaderShort(b);
    if data != [] && WritePayloadBytes(b, data).0 == NoError {
      var full := b + (if Decode(b).value.tail == [] then [PAYLOAD_MARKER] else []) + data;
      ExtendedMessage(b, data, full);
      TerminatedView(full, |full| - |data|);
    }
  }

  /** The message with data behind its payload, before it is terminated. */
  lemma ExtendedMessage(b: seq<byte>, data: seq<byte>, full: seq<byte>)
    requires Decode(b).Ok? && data != []
    requires full == b + (if Decode(b).value.tail == [] then [PAYLOAD_MARKER] else []) + data
    ensures var v := Decode(b).value;
      Decode(full) == Ok(v.(tail := [PAYLOAD_MARKER] + (v.Payload() + data)))
    ensures HeaderSize(full) == HeaderSize(b)
  {
    hide Decode, AtEnd, HeaderSize;
    var v := Decode(b).value;
    TailOfMessage(b);
    HeaderShort(b);
    var t := if v.tail == [] then [PAYLOAD_MARKER] + data else v.tail + data;
    ExtendedTail(b, v.tail, data, t);
    DecodeWithTail(b, t);
    assert full[..|b|] == b;
    SameHeaderSize(b, full, HeaderSize(b).value);
  }

  /** A tail extended, and the message with it. */
  lemma ExtendedTail(b: seq<byte>, tail: seq<byte>, data: seq<byte>, t: seq<byte>)
    requires |tail| <= |b| && b == b[..|b| - |tail|] + tail && AtEnd(tail) && data != []
    requires t == if tail == [] then [PAYLOAD_MARKER] + data else tail + data
    ensures AtEnd(t) && t != [] && t == [PAYLOAD_MARKER] + t[1..]
    ensures b[..|b| - |tail|] + t == b + (if tail == [] then [PAYLOAD_MARKER] else []) + data
    ensures t[1..] == (if tail == [] then [] else tail[1..]) + data
  {
    if tail == [] {
      assert t[1..] == data == [] + data;
    } else {
      ConcatAssoc(b[..|b| - |tail|], tail, data);
      assert b + [] == b;
      assert t[1..] == tail[1..] + data;
    }
  }

  // ---------------------------------------------------------------------------------------------
  // Reception

  /** A datagram that reads as a message without a marker in front of nothing. */
  predicate Readable(b: seq<byte>) {
    Decode(b).Ok? && |Decode(b).value.tail| != 1
  }

  lemma ReadableHeader(b: seq<byte>)
    requires Readable(b)
    ensures HeaderSize(b).Ok?
  {
    hide HeaderSize;
  }

  /** As much of a datagram as the receive buffer has room for. */
  function Clipped(datagram: seq<byte>): (b: seq<byte>)
    ensures |b| <= MAX_MSG_SIZE
  {
    datagram[..Min(|datagram|, MAX_MSG_SIZE)]
  }

  /** What the receive buffer holds of a datagram in the end: a message in it is terminated. */
  function Buffered(datagram: seq<byte>): (b: seq<byte>)
    ensures |b| <= MAX_MSG_SIZE
  {
    var b := Clipped(datagram);
    if Readable(b) then Terminated(b, |b|) else b
  }

  lemma BufferedMessage(datagram: seq<byte>)
    requires Readable(Clipped(datagram))
    ensures Buffered(datagram) == Terminated(Clipped(datagram), |Clipped(datagram)|)
  {
  }

  lemma BufferedHeader(datagram: seq<byte>)
    requires Readable(Clipped(datagram))
    ensures HeaderSize(Clipped(datagram)).Ok? && HeaderSize(Buffered(datagram)) == HeaderSize(Clipped(datagram))
  {
    hide Decode, HeaderSize;
    var b := Clipped(datagram);
    HeaderShort(b);
    if |b| == MAX_MSG_SIZE {
      CutHeader(b, HeaderSize(b).value, MAX_MSG_SIZE - MAX_MSG_SIZE % 0x100);
    }
  }

  /** A message is received whole exactly when it is shorter than the buffer; of any other the first 1024
      bytes are kept. */
  lemma BufferedExactly(datagram: seq<byte>)
    requires Readable(Clipped(datagram))
    ensures Buffered(datagram) == datagram <==> |datagram| < MAX_MSG_SIZE
    ensures |datagram| >= MAX_MSG_SIZE ==> Buffered(datagram) == datagram[..1024]
  {
    hide Readable;
    if |datagram| >= MAX_MSG_SIZE {
      SliceOfPrefix(datagram, MAX_MSG_SIZE, 0, 1024);
      assert Clipped(datagram)[0..1024] == Clipped(datagram)[..1024] && datagram[0..1024] == datagram[..1024];
    } else {
      assert datagram[..|datagram|] == datagram;
    }
  }
}
