/** Setting and deleting one option: what the byte edits do to the list of options. */
module OptionEditing {
  import opened Common
  import opened OptionCodec
  import opened OptionList

  // ---------------------------------------------------------------------------------------------
  // Edits of the option area

  /** What follows the option set at a slot; the follower of a new option is renumbered. */
  function RestAt(s: seq<byte>, slot: Slot, number: uint16): seq<byte>
    requires slot.at <= |s|
    requires slot.found.Some? ==> slot.at + slot.found.value.size <= |s|
  {
    match slot.found
    case Some(f) => s[slot.at + f.size..]
    case None => Renumber(s[slot.at..], slot.prev, number)
  }

  /** `s` with the located slot holding `value`. */
  function SetAt(s: seq<byte>, slot: Slot, number: uint16, value: seq<byte>): seq<byte>
    requires slot.at <= |s|
    requires slot.found.Some? ==> slot.at + slot.found.value.size <= |s|
  {
    s[..slot.at] + EncodeOption(slot.prev, number, value) + RestAt(s, slot, number)
  }

  /** The follower `t` of an option being deleted, rewritten over itself. It is given more room when it
      needs more; when it needs less, the bytes left over stay behind it. */
  function Refit(t: seq<byte>, prev: uint16, prev': uint16): seq<byte> {
    if AtEnd(t) then t
    else
      match ReadFirst(t, prev)
      case Err(_) => t
      case Ok(First(opt, n)) =>
        var e := EncodeOption(prev', opt.number, opt.value);
        e + t[Min(n, |e|)..]
  }

  lemma RefitParts(t: seq<byte>, prev: uint16, prev': uint16, n: nat, number: uint16, value: seq<byte>)
    requires !AtEnd(t) && ReadFirst(t, prev) == Ok(First(Opt(number, value), n))
    ensures var e := EncodeOption(prev', number, value);
      n <= |t| && Refit(t, prev, prev') == e + t[Min(n, |e|)..]
  {
    hide ReadFirst, AtEnd, EncodeOption;
  }

  lemma RefitFails(t: seq<byte>, prev: uint16, prev': uint16)
    requires ReadFirst(t, prev).Err?
    ensures Refit(t, prev, prev') == t
  {
    hide ReadFirst, AtEnd, EncodeOption;
  }

  /** The follower `t` takes no fewer bytes after `prev'` than after `prev`. */
  predicate KeepsSize(t: seq<byte>, prev: uint16, prev': uint16) {
    AtEnd(t) || ReadFirst(t, prev).Err? ||
    var First(opt, n) := ReadFirst(t, prev).value; |EncodeOption(prev', opt.number, opt.value)| >= n
  }

  /** `s` without the occurrence found at the slot. */
  function DeleteAt(s: seq<byte>, slot: Slot, number: uint16): seq<byte>
    requires slot.found.Some? && slot.at + slot.found.value.size <= |s|
  {
    s[..slot.at] + Refit(s[slot.at + slot.found.value.size..], number, slot.prev)
  }

  // ---------------------------------------------------------------------------------------------
  // Edits of the list of options

  /** The first place whose option is numbered above `number` or is its `index`-th occurrence. */
  function Position(options: seq<Opt>, number: uint16, index: nat): (k: nat)
    ensures k <= |options|
  {
    if options == [] || options[0].number > number then 0
    else if options[0].number == number then
      if index == 0 then 0 else 1 + Position(options[1..], number, index - 1)
    else 1 + Position(options[1..], number, index)
  }

  predicate Present(options: seq<Opt>, number: uint16, index: nat) {
    var k := Position(options, number, index);
    k < |options| && options[k].number == number
  }

  function SetList(options: seq<Opt>, number: uint16, index: nat, value: seq<byte>): seq<Opt> {
    var k := Position(options, number, index);
    options[..k] + [Opt(number, value)] + if Present(options, number, index) then options[k + 1..] else options[k..]
  }

  function DeleteList(options: seq<Opt>, number: uint16, index: nat): seq<Opt> {
    var k := Position(options, number, index);
    if Present(options, number, index) then options[..k] + options[k + 1..] else options
  }

  lemma DeleteAbsent(options: seq<Opt>, number: uint16, index: nat)
    requires !Present(options, number, index)
    ensures DeleteList(options, number, index) == options
  {
  }

  // ---------------------------------------------------------------------------------------------
  // The byte edits refine the list edits

  /** A search over bytes stops where the search over the list does. */
  lemma {:induction false} LocatePosition(s: seq<byte>, prev: uint16, number: uint16, index: nat)
    requires DecodeOptions(s, prev).Ok?
    ensures Locate(s, prev, number, index).Ok?
    ensures var options := DecodeOptions(s, prev).value.options;
      var slot := Locate(s, prev, number, index).value;
      && slot.passed == options[..Position(options, number, index)]
      && (slot.found.Some? <==> Present(options, number, index))
    decreases |s|
  {
    hide ReadFirst, AtEnd;
    if !AtEnd(s) {
      DecodeUnfold(s, prev);
      var First(opt, n) := ReadFirst(s, prev).value;
      var options := DecodeOptions(s, prev).value.options;
      if opt.number < number || (opt.number == number && index > 0) {
        var index' := if opt.number == number then index - 1 else index;
        LocatePosition(s[n..], opt.number, number, index');
        var k := Position(options[1..], number, index');
        assert [opt] + options[1..][..k] == options[..k + 1];
      }
    }
  }

  /** Everything before the slot decodes to the options passed, and everything from it to the others. */
  lemma SplitAtSlot(s: seq<byte>, prev: uint16, number: uint16, index: nat)
    requires DecodeOptions(s, prev).Ok?
    ensures Locate(s, prev, number, index).Ok?
    ensures var d := DecodeOptions(s, prev).value;
      var slot := Locate(s, prev, number, index).value;
      var k := Position(d.options, number, index);
      && Spells(s[..slot.at], prev, d.options[..k], slot.prev)
      && (slot.found.Some? <==> Present(d.options, number, index))
      && DecodeOptions(s[slot.at..], slot.prev) == Ok(Decoded(d.options[k..], d.tail))
  {
    hide ReadFirst, DecodeOptions, Locate, Spells, Position, Prepend;
    LocatePosition(s, prev, number, index);
    LocateSpells(s, prev, number, index);
    var slot := Locate(s, prev, number, index).value;
    DecodeSpliced(s[..slot.at], prev, slot.passed, slot.prev, s[slot.at..]);
    assert s[..slot.at] + s[slot.at..] == s;
    PrependSuffix(slot.passed, DecodeOptions(s[slot.at..], slot.prev), DecodeOptions(s, prev).value);
  }

  lemma DecodeFirst(s: seq<byte>, prev: uint16)
    requires DecodeOptions(s, prev).Ok? && DecodeOptions(s, prev).value.options != []
    ensures !AtEnd(s) && ReadFirst(s, prev).Ok?
    ensures var d := DecodeOptions(s, prev).value;
      var f := ReadFirst(s, prev).value;
      && d.options[0] == f.opt
      && DecodeOptions(s[f.size..], f.opt.number) == Ok(Decoded(d.options[1..], d.tail))
  {
    hide ReadFirst;
  }

  /** Setting an option on the bytes is setting it on the list: every other option, the follower whose
      delta is rewritten included, and all that follows the options are unchanged. */
  lemma SetRefines(s: seq<byte>, prev: uint16, number: uint16, index: nat, value: seq<byte>)
    requires DecodeOptions(s, prev).Ok? && |value| <= MAX_FIELD
    ensures Locate(s, prev, number, index).Ok?
    ensures var d := DecodeOptions(s, prev).value;
      DecodeOptions(SetAt(s, Locate(s, prev, number, index).value, number, value), prev)
        == Ok(Decoded(SetList(d.options, number, index, value), d.tail))
  {
    hide ReadFirst, EncodeOption, RestAt, Position;
    RestAfterSet(s, prev, number, index);
    var d := DecodeOptions(s, prev).value;
    var slot := Locate(s, prev, number, index).value;
    var k := Position(d.options, number, index);
    var after := if Present(d.options, number, index) then d.options[k + 1..] else d.options[k..];
    InsertEncoded(s[..slot.at], prev, d.options[..k], slot.prev, Opt(number, value), RestAt(s, slot, number), after,
                  d.tail);
  }

  /** An option written between options read before it and options that follow it. */
  lemma InsertEncoded(s: seq<byte>, prev: uint16, before: seq<Opt>, last: uint16, opt: Opt,
                      rest: seq<byte>, after: seq<Opt>, tail: seq<byte>)
    requires Spells(s, prev, before, last) && |opt.value| <= MAX_FIELD
    requires DecodeOptions(rest, opt.number) == Ok(Decoded(after, tail))
    ensures DecodeOptions(s + EncodeOption(last, opt.number, opt.value) + rest, prev)
         == Ok(Decoded(before + [opt] + after, tail))
  {
    hide ReadFirst, EncodeOption;
    var e := EncodeOption(last, opt.number, opt.value);
    ReadFirstEncoded(last, opt, rest);
    assert (e + rest)[|e|..] == rest;
    DecodeSpliced(s, prev, before, last, e + rest);
    assert s + e + rest == s + (e + rest);
    assert before + [opt] + after == before + ([opt] + after);
  }

  /** What follows the option just set still decodes to the options it decoded to. */
  lemma RestAfterSet(s: seq<byte>, prev: uint16, number: uint16, index: nat)
    requires DecodeOptions(s, prev).Ok?
    ensures Locate(s, prev, number, index).Ok?
    ensures var d := DecodeOptions(s, prev).value;
      var slot := Locate(s, prev, number, index).value;
      var k := Position(d.options, number, index);
      && Spells(s[..slot.at], prev, d.options[..k], slot.prev)
      && DecodeOptions(RestAt(s, slot, number), number)
           == Ok(Decoded(if Present(d.options, number, index) then d.options[k + 1..] else d.options[k..], d.tail))
  {
    hide ReadFirst, EncodeOption, DecodeOptions, Locate, Spells, Position, Renumber, AtEnd;
    SplitAtSlot(s, prev, number, index);
    LocateSpells(s, prev, number, index);
    var slot := Locate(s, prev, number, index).value;
    if slot.found.Some? {
      DecodeUnfold(s[slot.at..], slot.prev);
      SuffixOfSuffix(s, slot.at, slot.at + slot.found.value.size);
    } else {
      RenumberKeepsOptions(s[slot.at..], slot.prev, number);
    }
  }

  lemma RefitIsRenumber(t: seq<byte>, prev: uint16, prev': uint16)
    requires KeepsSize(t, prev, prev')
    ensures Refit(t, prev, prev') == Renumber(t, prev, prev')
  {
    hide ReadFirst, EncodeOption;
  }

  /** Deleting an option on the bytes is deleting it from the list exactly when the follower does not
      need fewer bytes than before. */
  lemma DeleteRefines(s: seq<byte>, prev: uint16, number: uint16, index: nat)
    requires DecodeOptions(s, prev).Ok? && prev <= number
    ensures Locate(s, prev, number, index).Ok?
    ensures var d := DecodeOptions(s, prev).value;
      var slot := Locate(s, prev, number, index).value;
      slot.found.Some? ==>
        (DecodeOptions(DeleteAt(s, slot, number), prev) == Ok(Decoded(DeleteList(d.options, number, index), d.tail))
         <==> KeepsSize(s[slot.at + slot.found.value.size..], number, slot.prev))
  {
    hide ReadFirst, EncodeOption, DecodeOptions, Locate, Spells, Renumber, Refit, KeepsSize, Position;
    RestAfterSet(s, prev, number, index);
    SplitAtSlot(s, prev, number, index);
    var d := DecodeOptions(s, prev).value;
    var slot := Locate(s, prev, number, index).value;
    var k := Position(d.options, number, index);
    if slot.found.Some? {
      var t := s[slot.at + slot.found.value.size..];
      var after := Decoded(d.options[k + 1..], d.tail);
      assert DecodeOptions(t, number) == Ok(after);
      DecodeSpliced(s[..slot.at], prev, d.options[..k], slot.prev, Refit(t, number, slot.prev));
      if KeepsSize(t, number, slot.prev) {
        RefitIsRenumber(t, number, slot.prev);
        RenumberKeepsOptions(t, number, slot.prev);
      } else {
        ShortRefit(t, number, slot.prev);
        if DecodeOptions(DeleteAt(s, slot, number), prev) == Ok(Decoded(DeleteList(d.options, number, index), d.tail)) {
          PrependInjective(d.options[..k], DecodeOptions(Refit(t, number, slot.prev), slot.prev), after);
        }
      }
    }
  }

  lemma PrependInjective(options: seq<Opt>, r: Result<Decoded>, d: Decoded)
    requires Prepend(options, r) == Ok(Decoded(options + d.options, d.tail))
    ensures r == Ok(d)
  {
    assert (options + r.value.options)[|options|..] == r.value.options;
    assert (options + d.options)[|options|..] == d.options;
  }

  /** Bytes left over behind a shortened follower always change what the message says. */
  lemma ShortRefit(t: seq<byte>, prev: uint16, prev': uint16)
    requires DecodeOptions(t, prev).Ok? && !KeepsSize(t, prev, prev')
    ensures DecodeOptions(Refit(t, prev, prev'), prev') != DecodeOptions(t, prev)
  {
    hide ReadFirst, EncodeOption;
    var First(opt, n) := ReadFirst(t, prev).value;
    var e := EncodeOption(prev', opt.number, opt.value);
    ReadFirstEncoded(prev', opt, t[|e|..]);
    assert (e + t[|e|..])[|e|..] == t[|e|..];
    var g := n - |e|;
    assert t[|e|..][g..] == t[n..];
    if DecodeOptions(Refit(t, prev, prev'), prev') == DecodeOptions(t, prev) {
      var rest := DecodeOptions(t[n..], opt.number).value;
      var left := DecodeOptions(t[|e|..], opt.number).value;
      assert ([opt] + left.options)[1..] == left.options && ([opt] + rest.options)[1..] == rest.options;
      SuffixDiffers(t[|e|..], opt.number, g);
    }
  }

  /** No option area says the same as a proper suffix of itself. */
  lemma {:induction false} SuffixDiffers(s: seq<byte>, prev: uint16, g: nat)
    requires 1 <= g <= |s| && DecodeOptions(s, prev).Ok?
    ensures DecodeOptions(s, prev) != DecodeOptions(s[g..], prev)
    decreases |s|
  {
    hide ReadFirst;
    if !AtEnd(s) && DecodeOptions(s, prev) == DecodeOptions(s[g..], prev) {
      var t := s[g..];
      var First(opt, n) := ReadFirst(s, prev).value;
      assert DecodeOptions(s, prev).value.options[0] == opt;
      DecodeFirst(t, prev);
      var m := ReadFirst(t, prev).value.size;
      SizesStayApart(s, prev, g);
      assert s[n..][g + m - n..] == t[m..];
      SuffixDiffers(s[n..], opt.number, g + m - n);
    }
  }

  /** An option and the same option `g` bytes further on never end at the same byte. */
  lemma SizesStayApart(s: seq<byte>, prev: uint16, g: nat)
    requires 1 <= g <= |s| && !AtEnd(s[g..])
    requires ReadFirst(s, prev).Ok? && ReadFirst(s[g..], prev).Ok?
    requires ReadFirst(s, prev).value.opt == ReadFirst(s[g..], prev).value.opt
    ensures ReadFirst(s, prev).value.size < g + ReadFirst(s[g..], prev).value.size
  {
    hide DecodeHeader;
    HeadersStayApart(s, g);
    DeltaOfNumber(prev, DecodeOption(s, prev).value.delta);
    DeltaOfNumber(prev, DecodeOption(s[g..], prev).value.delta);
  }

  /** Only a delta field beyond 16 bits is longer than another field for the same delta, and its
      extension bytes cannot start an option. */
  lemma HeadersStayApart(s: seq<byte>, g: nat)
    requires 1 <= g < |s| && DecodeHeader(s).Ok? && DecodeHeader(s[g..]).Ok?
    requires DecodeHeader(s).value.length == DecodeHeader(s[g..]).value.length
    requires DecodeHeader(s).value.delta % 0x1_0000 == DecodeHeader(s[g..]).value.delta % 0x1_0000
    ensures DecodeHeader(s).value.size < g + DecodeHeader(s[g..]).value.size
  {
    hide FieldValue;
    var t := s[g..];
    var d, l := ExtensionSize(s[0] / 16), ExtensionSize(s[0] % 16);
    var d', l' := ExtensionSize(t[0] / 16), ExtensionSize(t[0] % 16);
    FieldUnique(s[0] % 16, s[1 + d..1 + d + l]);
    FieldUnique(t[0] % 16, t[1 + d'..1 + d' + l']);
    FieldsStayApart(s[0] / 16, s[1..1 + d], t[0] / 16, t[1..1 + d'], g, t[0]);
  }

  lemma FieldsStayApart(nibble: nat, ext: seq<byte>, nibble': nat, ext': seq<byte>, g: nat, first: byte)
    requires nibble < 15 && |ext| == ExtensionSize(nibble)
    requires nibble' < 15 && |ext'| == ExtensionSize(nibble') && nibble' == first / 16
    requires FieldValue(nibble, ext) % 0x1_0000 == FieldValue(nibble', ext') % 0x1_0000
    requires 1 <= g && (g <= |ext| ==> first == ext[g - 1])
    ensures |ext| < g + |ext'|
  {
    hide FieldValue;
    FieldRange(nibble, ext);
    FieldRange(nibble', ext');
    if |ext| == 2 && |ext'| < 2 {
      WrappedField(ext[0], ext[1], FieldValue(nibble', ext'));
    }
  }

  /** How many bytes a field takes says in which range it lies. */
  lemma FieldRange(nibble: nat, ext: seq<byte>)
    requires nibble < 15 && |ext| == ExtensionSize(nibble)
    ensures var x := FieldValue(nibble, ext);
      && (|ext| == 0 ==> x <= 12)
      && (|ext| == 1 ==> 13 <= x <= 268)
      && (|ext| == 2 ==> var high: int := ext[0]; x == high * 256 + ext[1] + 269)
  {
  }

  lemma WrappedField(e0: byte, e1: byte, x: nat)
    requires (e0 * 256 + e1 + 269) % 0x1_0000 == x <= 268
    ensures e0 >= 254 && (x <= 12 ==> e1 / 16 == 15)
  {
  }
}
