/** How much room a message takes and leaves, whatever integer one of its options holds. */
module MessageRoom {
  import opened Common
  import opened OptionCodec
  import opened OptionList
  import opened OptionEditing
  import opened OptionMeaning
  import opened MessageView
  import opened WellFormedness
  import opened UintOption
  import opened MessageUse

  /** The size of a message without its payload and the first option `number`. */
  function Bare(b: seq<byte>, number: uint16): nat {
    match Decode(b)
    case Err(_) => 0
    case Ok(v) => |v.header| + |EncodeAll(0, DeleteList(v.options, number, 0))|
  }

  /** A message whose options `number` are integers of 32 bits. */
  ghost predicate Lean(b: seq<byte>, number: uint16) {
    WellFormed(b) && forall i :: 0 <= i < |ValuesOf(b, number)| ==> |ValuesOf(b, number)[i]| <= 4
  }

  /** `b'` takes no more room than `b`. */
  ghost predicate KeepsBare(b: seq<byte>, b': seq<byte>, number: uint16) {
    Lean(b, number) ==> Lean(b', number) && Bare(b', number) == Bare(b, number)
  }

  /** The most that the message takes with any integer in the option. */
  function SizeOf(b: seq<byte>, number: uint16): nat {
    Bare(b, number) + 6 + match Decode(b) case Err(_) => 0 case Ok(v) => |v.tail|
  }

  /** An encoding is no longer behind a later option. */
  lemma EncodedLater(prev: uint16, later: uint16, options: seq<Opt>)
    requires prev <= later && (options != [] ==> later <= options[0].number)
    ensures |EncodeAll(later, options)| <= |EncodeAll(prev, options)|
  {
    hide EncodeOption;
    if options != [] {
      EncodedParts(prev, options[0].number, options[0].value);
      EncodedParts(later, options[0].number, options[0].value);
      HeaderShrinks(prev, later, options[0]);
    }
  }

  lemma HeaderShrinks(prev: uint16, later: uint16, o: Opt)
    requires prev <= later <= o.number
    ensures |EncodeOption(later, o.number, o.value)| <= |EncodeOption(prev, o.number, o.value)|
  {
    hide Extension, Nibble;
    ExtensionMonotone(o.number - later, o.number - prev);
  }

  /** An option with a small number and value adds 6 bytes at most to the encoding of a list. */
  lemma {:induction false} EncodedWithout(prev: uint16, options: seq<Opt>, k: nat)
    requires k < |options| && Sorted(options) && prev <= options[0].number
    requires options[k].number < 269 && |options[k].value| <= 4
    ensures |EncodeAll(prev, options)| <= |EncodeAll(prev, options[..k] + options[k + 1..])| + 6
    decreases k
  {
    hide EncodeOption;
    if k == 0 {
      assert options[..0] + options[1..] == options[1..];
      EncodedLater(prev, options[0].number, options[1..]);
      SmallOption(prev, options[0]);
    } else {
      var rest := options[..k] + options[k + 1..];
      assert rest[1..] == options[1..][..k - 1] + options[1..][k..];
      EncodedWithout(options[0].number, options[1..], k - 1);
    }
  }

  lemma SmallOption(prev: uint16, o: Opt)
    requires prev <= o.number < 269 && |o.value| <= 4
    ensures |EncodeOption(prev, o.number, o.value)| <= 6
  {
  }

  /** So a message takes 6 bytes more at most than without that option. */
  lemma LeanSize(b: seq<byte>, number: uint16)
    requires number < 269 && Lean(b, number)
    ensures Decode(b).Ok? && |b| - |Decode(b).value.tail| <= Bare(b, number) + 6
    ensures |b| <= SizeOf(b, number)
  {
    hide WellFormedOptions, DecodeOptions, EncodeAll, Values, Position;
    WellFormedSorted(b);
    WellFormedMeaning(b[HeaderSize(b).value..], 0);
    var options := Decode(b).value.options;
    PositionMeaning(options, number, 0);
    var k := Position(options, number, 0);
    if Present(options, number, 0) {
      ValuesAround(options, k, number);
      assert |Values(options[..k], number)| == 0;
      assert ValuesOf(b, number)[0] == options[k].value;
      EncodedWithout(0, options, k);
    }
  }

  lemma LeanOptions(b: seq<byte>, b': seq<byte>, number: uint16)
    requires Lean(b, number) && WellFormed(b') && SameOptions(b, b')
    ensures Lean(b', number) && Bare(b', number) == Bare(b, number)
  {
    hide Decode, WellFormed, Values, EncodeAll;
    assert ValuesOf(b', number) == ValuesOf(b, number);
  }

  lemma SameSize(b: seq<byte>, b': seq<byte>, number: uint16)
    requires WellFormed(b) && WellFormed(b') && SameOptions(b, b') && |b'| == |b|
    ensures SizeOf(b', number) == SizeOf(b, number)
  {
    hide DecodeOptions, WellFormedOptions, EncodeAll, DeleteList;
    WellFormedMeaning(b[HeaderSize(b).value..], 0);
    WellFormedMeaning(b'[HeaderSize(b').value..], 0);
  }

  /** Setting that option to an integer changes nothing but that option. */
  lemma LeanSet(b: seq<byte>, number: uint16, x: uint32)
    requires Lean(b, number) && |b| <= MAX_MSG_SIZE
    requires SetBytes(b, number, 0, EncodeUint(x)).0 == NoError
    ensures var b' := SetBytes(b, number, 0, EncodeUint(x)).1; Lean(b', number) && Bare(b', number) == Bare(b, number)
    ensures SizeOf(SetBytes(b, number, 0, EncodeUint(x)).1, number) == SizeOf(b, number)
  {
    hide Decode, WellFormed, SetBytes, SetList, DeleteList, Values, EncodeAll;
    WellFormedSorted(b);
    var b', value := SetBytes(b, number, 0, EncodeUint(x)).1, EncodeUint(x);
    SetUintUse(b, number, x);
    SetRefinesView(b, number, 0, value);
    EncodeUintSize(x);
    var options := Decode(b).value.options;
    SetMeaning(options, number, 0, value, number);
    DeleteAfterSet(options, number, value);
  }

  lemma DeleteAfterSet(options: seq<Opt>, number: uint16, value: seq<byte>)
    requires Sorted(options)
    ensures DeleteList(SetList(options, number, 0, value), number, 0) == DeleteList(options, number, 0)
  {
    hide Values, Position, Sorted;
    PositionMeaning(options, number, 0);
    if Present(options, number, 0) {
      var k := Position(options, number, 0);
      var options' := SetList(options, number, 0, value);
      EditsKeepOrder(options, number, 0, value);
      SetMeaning(options, number, 0, value, number);
      assert options'[..k] == options[..k] && options'[k + 1..] == options[k + 1..];
      PositionUnique(options', number, 0, k);
      PositionMeaning(options', number, 0);
    } else {
      DeleteUndoesSet(options, number, 0, value);
      DeleteAbsent(options, number, 0);
    }
  }

  /** An integer option always fits into a message with six bytes to spare. */
  lemma UintFits(b: seq<byte>, number: uint16, x: uint32)
    requires WellFormed(b) && |b| + 6 <= MAX_MSG_SIZE && number < 269
    ensures SetBytes(b, number, 0, EncodeUint(x)).0 == NoError && |SetBytes(b, number, 0, EncodeUint(x)).1| <= |b| + 6
  {
    hide SetBytes, WellFormed, Decode, Position, OptionBytes, EncodeUint;
    SetGrowth(b, number, 0, EncodeUint(x));
    SetSucceedsExactly(b, number, 0, EncodeUint(x));
    EncodeUintSize(x);
    var options := Decode(b).value.options;
    var k := Position(options, number, 0);
    SmallBytes(if k == 0 then 0 else options[k - 1].number, number, |EncodeUint(x)|);
  }

  lemma SmallBytes(prev: nat, number: nat, length: nat)
    requires prev <= number < 269 && length <= 4
    ensures OptionBytes(prev, number, length) <= 6
  {
  }
}
