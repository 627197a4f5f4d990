/** Messages in which no option number or delta wraps 16 bits. */
module WellFormedness {
  import opened Common
  import opened OptionCodec
  import opened OptionList
  import opened OptionEditing
  import opened OptionMeaning
  import opened MessageView

  /** The delta field of the first option leads to a number of 16 bits. */
  predicate Unwrapped(s: seq<byte>, prev: uint16) {
    DecodeHeader(s).Ok? && prev + DecodeHeader(s).value.delta < 0x1_0000
  }

  predicate WellFormedOptions(s: seq<byte>, prev: uint16)
    decreases |s|
  {
    AtEnd(s) ||
    (ReadFirst(s, prev).Ok? && Unwrapped(s, prev) &&
     var First(opt, n) := ReadFirst(s, prev).value;
     WellFormedOptions(s[n..], opt.number))
  }

  predicate WellFormed(b: seq<byte>) {
    HeaderSize(b).Ok? && WellFormedOptions(b[HeaderSize(b).value..], 0)
  }

  /** The bytes of a list of options. */
  function EncodeAll(prev: uint16, options: seq<Opt>): seq<byte>
    decreases |options|
  {
    if options == [] then []
    else EncodeOption(prev, options[0].number, options[0].value) + EncodeAll(options[0].number, options[1..])
  }

  /** An unwrapped first option is in its one encoding, and its number does not go back. */
  lemma UnwrappedIsCanonical(s: seq<byte>, prev: uint16)
    requires ReadFirst(s, prev).Ok? && Unwrapped(s, prev)
    ensures var First(opt, n) := ReadFirst(s, prev).value;
      opt.number >= prev && s[..n] == EncodeOption(prev, opt.number, opt.value)
  {
    hide DecodeHeader, EncodeOption;
    EncodeDecode(s, prev);
  }

  lemma EncodedIsUnwrapped(prev: uint16, opt: Opt, t: seq<byte>)
    requires prev <= opt.number && |opt.value| <= MAX_FIELD
    ensures Unwrapped(EncodeOption(prev, opt.number, opt.value) + t, prev)
  {
    hide DecodeHeader, Header;
    DecodeOfHeader(opt.number - prev, |opt.value|, opt.value + t);
    assert EncodeOption(prev, opt.number, opt.value) + t == Header(opt.number - prev, |opt.value|) + (opt.value + t);
  }

  lemma EncodedIsWellFormed(prev: uint16, opt: Opt, t: seq<byte>)
    requires prev <= opt.number && |opt.value| <= MAX_FIELD
    ensures WellFormedOptions(EncodeOption(prev, opt.number, opt.value) + t, prev) <==> WellFormedOptions(t, opt.number)
  {
    hide ReadFirst, EncodeOption, Unwrapped;
    var e := EncodeOption(prev, opt.number, opt.value);
    ReadFirstEncoded(prev, opt, t);
    EncodedIsUnwrapped(prev, opt, t);
    assert (e + t)[|e|..] == t;
  }

  /** Well-formed options are ascending. */
  lemma {:induction false} WellFormedAscends(s: seq<byte>, prev: uint16)
    requires WellFormedOptions(s, prev)
    ensures DecodeOptions(s, prev).Ok?
    ensures var options := DecodeOptions(s, prev).value.options;
      Sorted(options) && forall k :: 0 <= k < |options| ==> options[k].number >= prev
    decreases |s|
  {
    hide ReadFirst, EncodeOption, Unwrapped;
    if !AtEnd(s) {
      var First(opt, n) := ReadFirst(s, prev).value;
      WellFormedAscends(s[n..], opt.number);
      UnwrappedIsCanonical(s, prev);
      var options := DecodeOptions(s, prev).value.options;
      assert options[1..] == DecodeOptions(s[n..], opt.number).value.options;
      forall k | 1 <= k < |options| ensures options[k].number >= opt.number {
        assert options[k] == options[1..][k - 1];
      }
    }
  }

  /** Options that can be written one after the other: in ascending order from `prev`, none too long. */
  ghost predicate Encodable(prev: uint16, options: seq<Opt>)
    decreases |options|
  {
    options == [] ||
    (options[0].number >= prev && |options[0].value| <= MAX_FIELD && Encodable(options[0].number, options[1..]))
  }

  lemma WellFormedSorted(b: seq<byte>)
    requires WellFormed(b)
    ensures Decode(b).Ok? && Sorted(Decode(b).value.options)
  {
    hide WellFormedOptions, DecodeOptions;
    WellFormedAscends(b[HeaderSize(b).value..], 0);
  }

  /** Well-formed options are in ascending order, and their bytes are the encoding of their list. */
  lemma {:induction false} WellFormedMeaning(s: seq<byte>, prev: uint16)
    requires WellFormedOptions(s, prev)
    ensures DecodeOptions(s, prev).Ok?
    ensures var d := DecodeOptions(s, prev).value;
      s == EncodeAll(prev, d.options) + d.tail && AtEnd(d.tail) && Encodable(prev, d.options)
    decreases |s|
  {
    hide ReadFirst, EncodeOption, Unwrapped, AtEnd, DecodeOptions;
    WellFormedAscends(s, prev);
    var d := DecodeOptions(s, prev).value;
    if AtEnd(s) {
      EmptyWellFormed(s, prev);
      assert [] + s == s;
    } else {
      var First(opt, n) := ReadFirst(s, prev).value;
      WellFormedMeaning(s[n..], opt.number);
      UnwrappedIsCanonical(s, prev);
      DecodeUnfold(s, prev);
      ConcatAssoc(s[..n], EncodeAll(opt.number, d.options[1..]), d.tail);
      assert s == s[..n] + s[n..];
    }
  }

  /** Every ascending list of options is the reading of its encoding, and that encoding is well-formed. */
  lemma {:induction false} EncodeAllDecodes(prev: uint16, options: seq<Opt>, tail: seq<byte>)
    requires Encodable(prev, options) && AtEnd(tail)
    ensures WellFormedOptions(EncodeAll(prev, options) + tail, prev)
    ensures DecodeOptions(EncodeAll(prev, options) + tail, prev) == Ok(Decoded(options, tail))
    decreases |options|
  {
    hide ReadFirst, EncodeOption, WellFormedOptions, AtEnd;
    if options == [] {
      EmptyWellFormed(tail, prev);
      assert EncodeAll(prev, options) + tail == tail;
    } else {
      var e := EncodeOption(prev, options[0].number, options[0].value);
      var rest := EncodeAll(options[0].number, options[1..]) + tail;
      EncodeAllDecodes(options[0].number, options[1..], tail);
      EncodedIsWellFormed(prev, options[0], rest);
      DecodeOneThenRest(prev, options[0], rest);
      ConcatAssoc(e, EncodeAll(options[0].number, options[1..]), tail);
      assert [options[0]] + options[1..] == options;
    }
  }

  lemma EmptyWellFormed(tail: seq<byte>, prev: uint16)
    requires AtEnd(tail)
    ensures WellFormedOptions(tail, prev) && DecodeOptions(tail, prev) == Ok(Decoded([], tail))
  {
  }

  lemma DecodeOneThenRest(prev: uint16, opt: Opt, rest: seq<byte>)
    requires |opt.value| <= MAX_FIELD
    ensures DecodeOptions(EncodeOption(prev, opt.number, opt.value) + rest, prev) ==
      Prepend([opt], DecodeOptions(rest, opt.number))
  {
    hide ReadFirst, EncodeOption;
    var e := EncodeOption(prev, opt.number, opt.value);
    ReadFirstEncoded(prev, opt, rest);
    assert (e + rest)[|e|..] == rest;
  }

  // ---------------------------------------------------------------------------------------------
  // The edits keep messages well-formed

  lemma {:induction false} SplitWellFormed(s: seq<byte>, prev: uint16, options: seq<Opt>, last: uint16, t: seq<byte>,
                                           t': seq<byte>)
    requires Spells(s, prev, options, last) && WellFormedOptions(s + t, prev)
    ensures WellFormedOptions(t, last)
    ensures WellFormedOptions(t', last) ==> WellFormedOptions(s + t', prev)
    decreases options
  {
    hide ReadFirst, Unwrapped;
    if options == [] {
      assert s + t == t && s + t' == t';
    } else {
      var First(opt, n) := ReadFirst(s, prev).value;
      SameFirst(s, prev, t);
      SameFirst(s, prev, t');
      SplitWellFormed(s[n..], opt.number, options[1..], last, t, t');
    }
  }

  lemma SameFirst(s: seq<byte>, prev: uint16, t: seq<byte>)
    requires !AtEnd(s) && ReadFirst(s, prev).Ok?
    ensures !AtEnd(s + t) && ReadFirst(s + t, prev) == ReadFirst(s, prev)
    ensures Unwrapped(s + t, prev) <==> Unwrapped(s, prev)
    ensures var n := ReadFirst(s, prev).value.size; (s + t)[n..] == s[n..] + t
  {
    var n := ReadFirst(s, prev).value.size;
    SameHeader(s, prev, t);
    ReadFirstOnly(s, prev, s[n..] + t);
    assert s[..n] + (s[n..] + t) == s + t;
  }

  lemma SameHeader(s: seq<byte>, prev: uint16, t: seq<byte>)
    requires DecodeHeader(s).Ok?
    ensures DecodeHeader(s + t) == DecodeHeader(s)
  {
    hide DecodeHeader, Header;
    var f := DecodeHeader(s).value;
    HeaderOfDecode(s);
    DecodeOfHeader(f.delta, f.length, s[f.size..] + t);
    assert s + t == Header(f.delta, f.length) + (s[f.size..] + t);
  }

  /** A well-formed option area splits at the slot of an edit into two well-formed parts. */
  lemma WellFormedAtSlot(s: seq<byte>, number: uint16, index: nat, t': seq<byte>)
    requires WellFormedOptions(s, 0)
    ensures Locate(s, 0, number, index).Ok?
    ensures var slot := Locate(s, 0, number, index).value;
      && slot.prev <= number
      && WellFormedOptions(s[slot.at..], slot.prev)
      && (WellFormedOptions(t', slot.prev) ==> WellFormedOptions(s[..slot.at] + t', 0))
  {
    hide ReadFirst, Unwrapped, WellFormedOptions, DecodeOptions, Locate, Spells, Position, EncodeAll, Encodable;
    WellFormedMeaning(s, 0);
    SplitAtSlot(s, 0, number, index);
    LocateStops(s, 0, number, index);
    var slot := Locate(s, 0, number, index).value;
    var options := DecodeOptions(s, 0).value.options;
    assert s[..slot.at] + s[slot.at..] == s;
    SplitWellFormed(s[..slot.at], 0, options[..Position(options, number, index)], slot.prev, s[slot.at..], t');
  }

  /** What follows the slot stays well-formed under the new predecessor. */
  lemma RenumberKeepsWellFormed(t: seq<byte>, prev: uint16, prev': uint16)
    requires WellFormedOptions(t, prev)
    requires AtEnd(t) || prev' <= ReadFirst(t, prev).value.opt.number
    ensures WellFormedOptions(Renumber(t, prev, prev'), prev')
  {
    hide ReadFirst, EncodeOption, Unwrapped;
    if !AtEnd(t) {
      var First(opt, n) := ReadFirst(t, prev).value;
      EncodedIsWellFormed(prev', opt, t[n..]);
    }
  }

  lemma SetKeepsWellFormedOptions(s: seq<byte>, number: uint16, index: nat, value: seq<byte>)
    requires WellFormedOptions(s, 0) && |value| <= MAX_FIELD
    ensures Locate(s, 0, number, index).Ok?
    ensures WellFormedOptions(SetAt(s, Locate(s, 0, number, index).value, number, value), 0)
  {
    hide ReadFirst, EncodeOption, Unwrapped, Locate;
    WellFormedAtSlot(s, number, index, []);
    LocateStops(s, 0, number, index);
    LocateSpells(s, 0, number, index);
    var slot := Locate(s, 0, number, index).value;
    var rest := RestAt(s, slot, number);
    if slot.found.Some? {
      assert rest == s[slot.at..][slot.found.value.size..];
    } else {
      RenumberKeepsWellFormed(s[slot.at..], slot.prev, number);
    }
    EncodedIsWellFormed(slot.prev, Opt(number, value), rest);
    WellFormedAtSlot(s, number, index, EncodeOption(slot.prev, number, value) + rest);
    assert SetAt(s, slot, number, value) == s[..slot.at] + (EncodeOption(slot.prev, number, value) + rest);
  }

  /** On a well-formed message a follower never needs fewer bytes. */
  lemma FollowerFits(t: seq<byte>, prev: uint16, prev': uint16)
    requires WellFormedOptions(t, prev) && prev' <= prev
    ensures KeepsSize(t, prev, prev')
  {
    hide ReadFirst, DecodeHeader, Extension;
    if !AtEnd(t) {
      var First(opt, n) := ReadFirst(t, prev).value;
      UnwrappedIsCanonical(t, prev);
      ExtensionMonotone(opt.number - prev, opt.number - prev');
    }
  }

  lemma DeleteKeepsWellFormedOptions(s: seq<byte>, number: uint16, index: nat)
    requires WellFormedOptions(s, 0)
    ensures Locate(s, 0, number, index).Ok?
    ensures var slot := Locate(s, 0, number, index).value;
      slot.found.Some? ==>
        && KeepsSize(s[slot.at + slot.found.value.size..], number, slot.prev)
        && WellFormedOptions(DeleteAt(s, slot, number), 0)
  {
    hide ReadFirst, EncodeOption, Unwrapped, Locate, Renumber, Refit, KeepsSize;
    WellFormedAtSlot(s, number, index, []);
    LocateSpells(s, 0, number, index);
    var slot := Locate(s, 0, number, index).value;
    if slot.found.Some? {
      var t := s[slot.at + slot.found.value.size..];
      assert t == s[slot.at..][slot.found.value.size..];
      assert WellFormedOptions(t, number);
      FollowerFits(t, number, slot.prev);
      RefitIsRenumber(t, number, slot.prev);
      if !AtEnd(t) {
        UnwrappedIsCanonical(t, number);
      }
      RenumberKeepsWellFormed(t, number, slot.prev);
      WellFormedAtSlot(s, number, index, Renumber(t, number, slot.prev));
    }
  }

  lemma SuccessfulValueFits(b: seq<byte>, number: uint16, index: nat, value: seq<byte>)
    requires Decode(b).Ok? && SetBytes(b, number, index, value).0 == NoError
    ensures |value| < MAX_MSG_SIZE
  {
    hide EncodeOption, SetAt, Locate, DecodeOptions;
    var h := HeaderSize(b).value;
    SplitAtSlot(b[h..], 0, number, index);
    var slot := Locate(b[h..], 0, number, index).value;
    assert |EncodeOption(slot.prev, number, value)| > |value|;
  }

  /** What a field takes besides its nibble: section 3.1 of RFC 7252. */
  function FieldBytes(x: nat): nat {
    if x < 13 then 0 else if x < 269 then 1 else 2
  }

  /** The size of an option behind one numbered `prev`. */
  function OptionBytes(prev: nat, number: nat, length: nat): nat
    requires prev <= number
  {
    1 + FieldBytes(number - prev) + FieldBytes(length) + length
  }

  /** Setting an option of a well-formed message succeeds exactly when there is room for the option between its
      neighbours, once the occurrence that it replaces has been taken out. */
  lemma SetSucceedsExactly(b: seq<byte>, number: uint16, index: nat, value: seq<byte>)
    requires WellFormed(b)
    ensures Decode(b).Ok?
    ensures var options := Decode(b).value.options;
      var k := Position(options, number, index);
      var prev := if k == 0 then 0 else options[k - 1].number;
      && prev <= number
      && (SetBytes(b, number, index, value).0 == NoError <==>
            var removed := if Present(options, number, index) then OptionBytes(prev, number, |options[k].value|) else 0;
            |b| - removed + OptionBytes(prev, number, |value|) <= 1152)
  {
    hide ReadFirst, EncodeOption, SetAt, Locate, WellFormedOptions, DecodeOptions, Spells, Position;
    var s := b[HeaderSize(b).value..];
    WellFormedMeaning(s, 0);
    WellFormedAtSlot(s, number, index, []);
    SplitAtSlot(s, 0, number, index);
    LocateSpells(s, 0, number, index);
    var options := Decode(b).value.options;
    var k := Position(options, number, index);
    var slot := Locate(s, 0, number, index).value;
    LastSpelled(s[..slot.at], 0, options[..k], slot.prev);
    EncodedBytes(slot.prev, number, value);
    if slot.found.Some? {
      FoundBytes(s[slot.at..], slot.prev);
      DecodeUnfold(s[slot.at..], slot.prev);
    }
  }

  /** A message grows by no more than the option set. */
  lemma SetGrowth(b: seq<byte>, number: uint16, index: nat, value: seq<byte>)
    requires WellFormed(b)
    ensures Decode(b).Ok?
    ensures var options := Decode(b).value.options;
      var k := Position(options, number, index);
      var prev := if k == 0 then 0 else options[k - 1].number;
      prev <= number && |SetBytes(b, number, index, value).1| <= |b| + OptionBytes(prev, number, |value|)
  {
    hide ReadFirst, EncodeOption, SetAt, Locate, WellFormedOptions, DecodeOptions, Spells, Position, OptionBytes;
    var h := HeaderSize(b).value;
    var s := b[h..];
    WellFormedMeaning(s, 0);
    WellFormedAtSlot(s, number, index, []);
    SplitAtSlot(s, 0, number, index);
    LocateSpells(s, 0, number, index);
    SetSize(s, 0, number, index, value);
    var options := Decode(b).value.options;
    var k := Position(options, number, index);
    var slot := Locate(s, 0, number, index).value;
    LastSpelled(s[..slot.at], 0, options[..k], slot.prev);
    EncodedBytes(slot.prev, number, value);
  }

  lemma {:induction false} LastSpelled(s: seq<byte>, prev: uint16, options: seq<Opt>, last: uint16)
    requires Spells(s, prev, options, last)
    ensures last == if options == [] then prev else options[|options| - 1].number
    decreases |options|
  {
    hide ReadFirst;
    if options != [] {
      var f := ReadFirst(s, prev).value;
      LastSpelled(s[f.size..], f.opt.number, options[1..], last);
    }
  }

  lemma EncodedBytes(prev: uint16, number: uint16, value: seq<byte>)
    requires prev <= number
    ensures |EncodeOption(prev, number, value)| == OptionBytes(prev, number, |value|)
  {
    FieldFormat(number - prev, Nibble(number - prev), Extension(number - prev));
  }

  /** The size of a first option that does not wrap. */
  lemma FoundBytes(s: seq<byte>, prev: uint16)
    requires WellFormedOptions(s, prev) && !AtEnd(s)
    ensures ReadFirst(s, prev).Ok?
    ensures var First(opt, n) := ReadFirst(s, prev).value;
      prev <= opt.number && n == OptionBytes(prev, opt.number, |opt.value|)
  {
    hide ReadFirst, Unwrapped, EncodeOption;
    UnwrappedIsCanonical(s, prev);
    var First(opt, n) := ReadFirst(s, prev).value;
    EncodedBytes(prev, opt.number, opt.value);
  }

  /** A successful set keeps a message well-formed. */
  lemma SetKeepsWellFormed(b: seq<byte>, number: uint16, index: nat, value: seq<byte>)
    requires WellFormed(b) && SetBytes(b, number, index, value).0 == NoError && |b| <= MAX_MSG_SIZE
    ensures WellFormed(SetBytes(b, number, index, value).1)
  {
    hide ReadFirst, EncodeOption, SetAt, Locate, WellFormedOptions, DecodeOptions;
    var h := HeaderSize(b).value;
    WellFormedMeaning(b[h..], 0);
    SetRefinesView(b, number, index, value);
    SuccessfulValueFits(b, number, index, value);
    SetKeepsWellFormedOptions(b[h..], number, index, value);
    DecodeBehindHeader(b, h, SetAt(b[h..], Locate(b[h..], 0, number, index).value, number, value));
  }

  /** On a well-formed message a delete does what it is meant to and keeps it well-formed. */
  lemma DeleteKeepsWellFormed(b: seq<byte>, number: uint16, index: nat)
    requires WellFormed(b)
    ensures var b' := DeleteBytes(b, number, index).1;
      && WellFormed(b') && Decode(b).Ok?
      && Decode(b') == Ok(Decode(b).value.(options := DeleteList(Decode(b).value.options, number, index)))
  {
    hide ReadFirst, EncodeOption, DeleteAt, Locate, WellFormedOptions, DecodeOptions, KeepsSize;
    var h := HeaderSize(b).value;
    WellFormedMeaning(b[h..], 0);
    DeleteRefinesView(b, number, index);
    DeleteKeepsWellFormedOptions(b[h..], number, index);
    var slot := Locate(b[h..], 0, number, index).value;
    if slot.found.Some? {
      DecodeBehindHeader(b, h, DeleteAt(b[h..], slot, number));
    }
  }

  /** Another tail behind the same option bytes. */
  lemma {:induction false} WellFormedTail(s: seq<byte>, prev: uint16, t: seq<byte>)
    requires WellFormedOptions(s, prev) && AtEnd(t)
    ensures DecodeOptions(s, prev).Ok?
    ensures WellFormedOptions(s[..|s| - |DecodeOptions(s, prev).value.tail|] + t, prev)
    decreases |s|
  {
    hide ReadFirst, Unwrapped;
    WellFormedAscends(s, prev);
    var d := DecodeOptions(s, prev).value;
    if AtEnd(s) {
      assert s[..|s| - |d.tail|] + t == t;
    } else {
      var First(opt, n) := ReadFirst(s, prev).value;
      WellFormedTail(s[n..], opt.number, t);
      var rest := s[n..][..|s| - n - |d.tail|] + t;
      assert s[..|s| - |d.tail|] + t == s[..n] + rest;
      OtherRest(s, prev, rest);
    }
  }

  lemma OtherRest(s: seq<byte>, prev: uint16, rest: seq<byte>)
    requires !AtEnd(s) && ReadFirst(s, prev).Ok?
    ensures var First(opt, n) := ReadFirst(s, prev).value;
      var s' := s[..n] + rest;
      && !AtEnd(s') && ReadFirst(s', prev) == ReadFirst(s, prev) && s'[n..] == rest
      && (Unwrapped(s', prev) <==> Unwrapped(s, prev))
  {
    hide ReadFirst, Unwrapped;
    var n := ReadFirst(s, prev).value.size;
    ReadFirstOnly(s, prev, []);
    assert s[..n] + [] == s[..n];
    SameFirst(s[..n], prev, rest);
    SameFirst(s[..n], prev, s[n..]);
    assert s[..n] + s[n..] == s;
    assert s[..n][n..] + rest == rest;
  }

  lemma WellFormedOtherTail(b: seq<byte>, t: seq<byte>)
    requires WellFormed(b) && Decode(b).Ok? && AtEnd(t)
    ensures var v := Decode(b).value;
      |v.tail| <= |b| && WellFormed(b[..|b| - |v.tail|] + t)
  {
    hide DecodeOptions, WellFormedOptions;
    var h := HeaderSize(b).value;
    var v := Decode(b).value;
    var s := b[h..];
    WellFormedTail(s, 0, t);
    assert b[..|b| - |v.tail|] + t == b[..h] + (s[..|s| - |v.tail|] + t);
    DecodeBehindHeader(b, h, s[..|s| - |v.tail|] + t);
  }

  /** The beginning of a well-formed area is well-formed if it can be read. */
  lemma {:induction false} WellFormedShorter(s: seq<byte>, t: seq<byte>, prev: uint16)
    requires WellFormedOptions(s + t, prev) && DecodeOptions(s, prev).Ok?
    ensures WellFormedOptions(s, prev)
    decreases |s|
  {
    hide ReadFirst, Unwrapped;
    if !AtEnd(s) {
      DecodeUnfold(s, prev);
      SameFirst(s, prev, t);
      var First(opt, n) := ReadFirst(s, prev).value;
      WellFormedShorter(s[n..], t, opt.number);
    }
  }

  lemma WellFormedCut(b: seq<byte>, n: nat)
    requires WellFormed(b) && HeaderSize(b).value <= n <= |b| && Decode(b[..n]).Ok?
    ensures WellFormed(b[..n])
  {
    hide WellFormedOptions, DecodeOptions, HeaderSize;
    var h := HeaderSize(b).value;
    CutHeader(b, h, n);
    WellFormedShorter(b[..n][h..], b[n..], 0);
  }
}
