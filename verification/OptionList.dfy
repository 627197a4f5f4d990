/** The option area of a message as a list of options, and the edits made to it byte by byte. */
module OptionList {
  import opened Common
  import opened OptionCodec

  datatype Opt = Opt(number: uint16, value: seq<byte>)

  /** An option read from the front of a byte string, with the number of bytes it takes. */
  datatype First = First(opt: Opt, size: nat)

  /** An option area read to its end: its options, and the payload marker and payload that follow. */
  datatype Decoded = Decoded(options: seq<Opt>, tail: seq<byte>)

  predicate AtEnd(s: seq<byte>) {
    s == [] || s[0] == PAYLOAD_MARKER
  }

  function ReadFirst(s: seq<byte>, prev: uint16): (r: Result<First>)
    ensures r.Ok? ==> 1 <= r.value.size <= |s| && |r.value.opt.value| <= MAX_FIELD
    ensures r.Ok? ==> |r.value.opt.value| < r.value.size
    ensures r.Err? ==> r.error != NoError
  {
    match DecodeOption(s, prev)
    case Err(e) => Err(e)
    case Ok(o) => Ok(First(Opt(o.number, s[o.valueAt..o.consumed]), o.consumed))
  }

  /** All the options of `s`; `prev` is the number of the option before it. */
  function DecodeOptions(s: seq<byte>, prev: uint16): (r: Result<Decoded>)
    ensures r.Ok? ==> AtEnd(r.value.tail) && |r.value.tail| <= |s|
  {
    hide ReadFirst;
    if AtEnd(s) then Ok(Decoded([], s))
    else
      match ReadFirst(s, prev)
      case Err(e) => Err(e)
      case Ok(First(opt, n)) => Prepend([opt], DecodeOptions(s[n..], opt.number))
  }

  function Prepend(options: seq<Opt>, r: Result<Decoded>): Result<Decoded> {
    match r
    case Err(e) => Err(e)
    case Ok(d) => Ok(Decoded(options + d.options, d.tail))
  }

  /** The first option of a readable area, and the others. */
  lemma DecodeUnfold(s: seq<byte>, prev: uint16)
    requires !AtEnd(s) && DecodeOptions(s, prev).Ok?
    ensures ReadFirst(s, prev).Ok?
    ensures var d := DecodeOptions(s, prev).value;
      var First(opt, n) := ReadFirst(s, prev).value;
      && d.options != [] && d.options[0] == opt
      && DecodeOptions(s[n..], opt.number) == Ok(Decoded(d.options[1..], d.tail))
  {
    hide ReadFirst;
  }

  /** Reading looks no further than the bytes it consumes. */
  lemma ReadFirstOnly(s: seq<byte>, prev: uint16, t: seq<byte>)
    requires ReadFirst(s, prev).Ok?
    ensures ReadFirst(s[..ReadFirst(s, prev).value.size] + t, prev) == ReadFirst(s, prev)
  {
    hide DecodeOption;
    var o := DecodeOption(s, prev).value;
    DecodePrefix(s, t, prev);
    assert (s[..o.consumed] + t)[o.valueAt..o.consumed] == s[o.valueAt..o.consumed];
  }

  lemma ReadFirstEncoded(prev: uint16, opt: Opt, t: seq<byte>)
    requires |opt.value| <= MAX_FIELD
    ensures var e := EncodeOption(prev, opt.number, opt.value);
      !AtEnd(e + t) && ReadFirst(e + t, prev) == Ok(First(opt, |e|))
  {
    hide DecodeOption, EncodeOption;
    DecodeEncode(prev, opt.number, opt.value, t);
  }

  // ---------------------------------------------------------------------------------------------
  // Locating a slot

  /** Where an edit takes place: the offset, the options passed, the number of the last of them, and
      the wanted occurrence when it starts there. */
  datatype Slot = Slot(at: nat, passed: seq<Opt>, prev: uint16, found: Option<First>)

  /** The first option numbered above `number`, or the `index`-th occurrence of `number`, or the end. */
  function Locate(s: seq<byte>, prev: uint16, number: uint16, index: nat): (r: Result<Slot>)
    ensures r.Ok? ==> r.value.at <= |s|
    ensures r.Ok? && r.value.found.Some? ==> r.value.at + r.value.found.value.size <= |s|
  {
    hide ReadFirst;
    if AtEnd(s) then Ok(Slot(0, [], prev, None))
    else
      match ReadFirst(s, prev)
      case Err(e) => Err(e)
      case Ok(First(opt, n)) =>
        if opt.number > number then Ok(Slot(0, [], prev, None))
        else if opt.number == number && index == 0 then Ok(Slot(0, [], prev, Some(First(opt, n))))
        else
          var r := Locate(s[n..], opt.number, number, if opt.number == number then index - 1 else index);
          Advance(n, [opt], r)
  }

  /** The outcome of a search that started `n` bytes and these options further on. */
  function Advance(n: nat, options: seq<Opt>, r: Result<Slot>): Result<Slot> {
    match r
    case Err(e) => Err(e)
    case Ok(t) => Ok(Slot(n + t.at, options + t.passed, t.prev, t.found))
  }

  lemma AdvanceNone(r: Result<Slot>)
    ensures Advance(0, [], r) == r
  {
    if r.Ok? {
      assert [] + r.value.passed == r.value.passed;
    }
  }

  lemma AdvanceTwice(n: nat, options: seq<Opt>, m: nat, more: seq<Opt>, r: Result<Slot>)
    ensures Advance(n, options, Advance(m, more, r)) == Advance(n + m, options + more, r)
  {
    if r.Ok? {
      assert options + (more + r.value.passed) == options + more + r.value.passed;
    }
  }

  /** One step of a search that has reached offset `at`. */
  lemma LocateStep(s: seq<byte>, at: nat, passed: seq<Opt>, prev: uint16, number: uint16, index: nat)
    requires at <= |s| && !AtEnd(s[at..]) && ReadFirst(s[at..], prev).Ok?
    requires var n := ReadFirst(s[at..], prev).value.opt.number; n < number || (n == number && index > 0)
    ensures var First(opt, n) := ReadFirst(s[at..], prev).value;
      Advance(at, passed, Locate(s[at..], prev, number, index)) ==
      Advance(at + n, passed + [opt],
              Locate(s[at + n..], opt.number, number, if opt.number == number then index - 1 else index))
  {
    hide ReadFirst;
    var First(opt, n) := ReadFirst(s[at..], prev).value;
    var index' := if opt.number == number then index - 1 else index;
    assert s[at..][n..] == s[at + n..];
    AdvanceTwice(at, passed, n, [opt], Locate(s[at + n..], opt.number, number, index'));
  }

  /** Where a search that has reached offset `at` ends. */
  lemma LocateEnd(s: seq<byte>, at: nat, passed: seq<Opt>, prev: uint16, number: uint16, index: nat)
    requires at <= |s|
    ensures AtEnd(s[at..]) ==>
      Advance(at, passed, Locate(s[at..], prev, number, index)) == Ok(Slot(at, passed, prev, None))
    ensures !AtEnd(s[at..]) ==>
      match ReadFirst(s[at..], prev)
      case Err(e) => Advance(at, passed, Locate(s[at..], prev, number, index)) == Err(e)
      case Ok(f) =>
        && (f.opt.number > number ==>
              Advance(at, passed, Locate(s[at..], prev, number, index)) == Ok(Slot(at, passed, prev, None)))
        && (f.opt.number == number && index == 0 ==>
              Advance(at, passed, Locate(s[at..], prev, number, index)) == Ok(Slot(at, passed, prev, Some(f))))
  {
    hide ReadFirst;
    assert passed + [] == passed;
  }

  /** The option area `t` once the option before it is numbered `prev'` instead of `prev`. */
  function Renumber(t: seq<byte>, prev: uint16, prev': uint16): seq<byte> {
    if AtEnd(t) then t
    else
      match ReadFirst(t, prev)
      case Err(_) => t
      case Ok(First(opt, n)) => EncodeOption(prev', opt.number, opt.value) + t[n..]
  }

  lemma RenumberEnd(t: seq<byte>, prev: uint16, prev': uint16)
    requires AtEnd(t)
    ensures Renumber(t, prev, prev') == t
  {
  }

  // ---------------------------------------------------------------------------------------------
  // Splicing

  /** The bytes passed over by a search decode to `options` and leave the number `last`. */
  ghost predicate Spells(s: seq<byte>, prev: uint16, options: seq<Opt>, last: uint16) {
    if options == [] then s == [] && last == prev
    else
      && !AtEnd(s)
      && ReadFirst(s, prev).Ok?
      && var f := ReadFirst(s, prev).value;
      && options[0] == f.opt
      && Spells(s[f.size..], f.opt.number, options[1..], last)
  }

  lemma {:induction false} DecodeSpliced(s: seq<byte>, prev: uint16, options: seq<Opt>, last: uint16, t: seq<byte>)
    requires Spells(s, prev, options, last)
    ensures DecodeOptions(s + t, prev) == Prepend(options, DecodeOptions(t, last))
    decreases options
  {
    hide ReadFirst;
    if options == [] {
      assert s + t == t;
      PrependNone(DecodeOptions(t, last));
    } else {
      var First(opt, n) := ReadFirst(s, prev).value;
      ReadFirstOnly(s, prev, s[n..] + t);
      assert s[..n] + (s[n..] + t) == s + t;
      assert (s + t)[n..] == s[n..] + t;
      DecodeSpliced(s[n..], opt.number, options[1..], last, t);
      PrependTwice(options, DecodeOptions(t, last));
    }
  }

  lemma PrependSuffix(options: seq<Opt>, r: Result<Decoded>, d: Decoded)
    requires Prepend(options, r) == Ok(d)
    ensures r == Ok(Decoded(d.options[|options|..], d.tail)) && options == d.options[..|options|]
  {
    assert (options + r.value.options)[|options|..] == r.value.options;
  }

  lemma PrependNone(r: Result<Decoded>)
    ensures Prepend([], r) == r
  {
    if r.Ok? {
      assert [] + r.value.options == r.value.options;
    }
  }

  lemma PrependTwice(options: seq<Opt>, r: Result<Decoded>)
    requires options != []
    ensures Prepend(options[..1], Prepend(options[1..], r)) == Prepend(options, r)
    ensures options[..1] == [options[0]]
  {
    if r.Ok? {
      assert options[..1] + (options[1..] + r.value.options) == options + r.value.options;
    }
  }

  /** What a search passes over, and what it stops at. */
  lemma {:induction false} LocateSpells(s: seq<byte>, prev: uint16, number: uint16, index: nat)
    requires Locate(s, prev, number, index).Ok?
    ensures var slot := Locate(s, prev, number, index).value;
      && Spells(s[..slot.at], prev, slot.passed, slot.prev)
      && (slot.found.Some? ==> ReadFirst(s[slot.at..], slot.prev) == Ok(slot.found.value) && !AtEnd(s[slot.at..]))
      && (slot.found.Some? ==> slot.found.value.opt.number == number)
    decreases |s|
  {
    hide ReadFirst;
    if !AtEnd(s) {
      var First(opt, n) := ReadFirst(s, prev).value;
      var index' := if opt.number == number then index - 1 else index;
      if opt.number > number || (opt.number == number && index == 0) {
        assert s[0..] == s;
      } else {
        LocateSpells(s[n..], opt.number, number, index');
        var slot := Locate(s, prev, number, index).value;
        ReadFirstOnly(s, prev, s[n..slot.at]);
        SlotSlices(s, n, slot.at);
        assert slot.passed[1..] == Locate(s[n..], opt.number, number, index').value.passed;
      }
    } else {
      assert s[0..] == s;
    }
  }

  lemma SlotSlices(s: seq<byte>, n: nat, at: nat)
    requires n <= at <= |s|
    ensures s[..n] + s[n..at] == s[..at] && s[..at][n..] == s[n..][..at - n] && s[n..][at - n..] == s[at..]
  {
  }

  /** A search that finds nothing stops at the end or before a readable option with a larger number. */
  lemma {:induction false} LocateStops(s: seq<byte>, prev: uint16, number: uint16, index: nat)
    requires Locate(s, prev, number, index).Ok?
    ensures var slot := Locate(s, prev, number, index).value;
      && (prev <= number ==> slot.prev <= number)
      && (slot.found.None? && !AtEnd(s[slot.at..]) ==>
            && ReadFirst(s[slot.at..], slot.prev).Ok?
            && ReadFirst(s[slot.at..], slot.prev).value.opt.number > number)
    decreases |s|
  {
    hide ReadFirst;
    if AtEnd(s) {
      assert s[0..] == s;
    } else {
      var First(opt, n) := ReadFirst(s, prev).value;
      var index' := if opt.number == number then index - 1 else index;
      if opt.number > number || (opt.number == number && index == 0) {
        assert s[0..] == s;
      } else {
        LocateStops(s[n..], opt.number, number, index');
        var slot := Locate(s, prev, number, index).value;
        assert s[n..][slot.at - n..] == s[slot.at..];
      }
    }
  }

  /** Renumbering keeps every option: the follower's number is unchanged although its delta is not. */
  lemma RenumberKeepsOptions(t: seq<byte>, prev: uint16, prev': uint16)
    requires DecodeOptions(t, prev).Ok?
    ensures DecodeOptions(Renumber(t, prev, prev'), prev') == DecodeOptions(t, prev)
  {
    hide ReadFirst, EncodeOption;
    if !AtEnd(t) {
      var First(opt, n) := ReadFirst(t, prev).value;
      var e := EncodeOption(prev', opt.number, opt.value);
      ReadFirstEncoded(prev', opt, t[n..]);
      assert (e + t[n..])[|e|..] == t[n..];
    }
  }

  // ---------------------------------------------------------------------------------------------
  // What follows the options

  /** The options end where the tail starts. */
  lemma {:induction false} TailIsSuffix(s: seq<byte>, prev: uint16)
    requires DecodeOptions(s, prev).Ok?
    ensures var tail := DecodeOptions(s, prev).value.tail; s[|s| - |tail|..] == tail
    decreases |s|
  {
    hide ReadFirst, AtEnd;
    var tail := DecodeOptions(s, prev).value.tail;
    if AtEnd(s) {
      assert tail == s && s[|s| - |tail|..] == s;
    } else {
      var First(opt, n) := ReadFirst(s, prev).value;
      var t := s[n..];
      TailIsSuffix(t, opt.number);
      assert tail == DecodeOptions(t, opt.number).value.tail;
      var k := |s| - |tail|;
      assert t[k - n..] == tail;
      SuffixOfSuffix(s, n, k);
    }
  }

  /** How many bytes follow the options. */
  function Tail(s: seq<byte>, prev: uint16): Result<nat> {
    match DecodeOptions(s, prev)
    case Err(e) => Err(e)
    case Ok(d) => Ok(|d.tail|)
  }

  /** One step of a walk that has reached offset `at`. */
  lemma TailStep(s: seq<byte>, at: nat, prev: uint16)
    requires at <= |s|
    ensures AtEnd(s[at..]) ==> Tail(s[at..], prev) == Ok(|s| - at)
    ensures !AtEnd(s[at..]) ==>
      match ReadFirst(s[at..], prev)
      case Err(e) => Tail(s[at..], prev) == Err(e)
      case Ok(f) => Tail(s[at..], prev) == Tail(s[at + f.size..], f.opt.number)
  {
    hide ReadFirst;
    if !AtEnd(s[at..]) && ReadFirst(s[at..], prev).Ok? {
      SuffixOfSuffix(s, at, at + ReadFirst(s[at..], prev).value.size);
    }
  }

  /** Another tail behind the same option bytes leaves the options as they are. */
  lemma {:induction false} ReplaceTail(s: seq<byte>, prev: uint16, t: seq<byte>)
    requires DecodeOptions(s, prev).Ok? && AtEnd(t)
    ensures var d := DecodeOptions(s, prev).value;
      DecodeOptions(s[..|s| - |d.tail|] + t, prev) == Ok(Decoded(d.options, t))
    decreases |s|
  {
    hide ReadFirst, AtEnd;
    var d := DecodeOptions(s, prev).value;
    if AtEnd(s) {
      assert s[..0] + t == t;
    } else {
      var First(opt, n) := ReadFirst(s, prev).value;
      ReplaceTail(s[n..], opt.number, t);
      var rest := s[n..][..|s| - n - |d.tail|] + t;
      ReplaceFrom(s, n, |s| - |d.tail|, t);
      DecodeBehindFirst(s, prev, rest);
    }
  }

  /** Another continuation behind the first option. */
  lemma DecodeBehindFirst(s: seq<byte>, prev: uint16, rest: seq<byte>)
    requires !AtEnd(s) && ReadFirst(s, prev).Ok?
    ensures var First(opt, n) := ReadFirst(s, prev).value;
      DecodeOptions(s[..n] + rest, prev) == Prepend([opt], DecodeOptions(rest, opt.number))
  {
    hide ReadFirst;
    var n := ReadFirst(s, prev).value.size;
    ReadFirstOnly(s, prev, rest);
    assert (s[..n] + rest)[n..] == rest;
  }

  /** The ways in which an option area can be unreadable. */
  lemma {:induction false} DecodeErrors(s: seq<byte>, prev: uint16)
    ensures DecodeOptions(s, prev).Err? ==>
      DecodeOptions(s, prev).error == BufferUnderflow || DecodeOptions(s, prev).error == InvalidMessage
    decreases |s|
  {
    hide ReadFirst;
    if !AtEnd(s) {
      ReadFirstErrors(s, prev);
      if ReadFirst(s, prev).Ok? {
        DecodeErrors(s[ReadFirst(s, prev).value.size..], ReadFirst(s, prev).value.opt.number);
      }
    }
  }

  lemma ReadFirstErrors(s: seq<byte>, prev: uint16)
    ensures ReadFirst(s, prev).Err? ==>
      ReadFirst(s, prev).error == BufferUnderflow || ReadFirst(s, prev).error == InvalidMessage
  {
  }

  /** Reading the beginning of an area finds the first of its options; when it comes as far as the payload it
      finds all of them. */
  lemma {:induction false} ShorterArea(s: seq<byte>, t: seq<byte>, prev: uint16)
    requires DecodeOptions(s, prev).Ok?
    ensures var c := DecodeOptions(s, prev).value;
      && (c.tail != [] ==> DecodeOptions(s + t, prev) == Ok(Decoded(c.options, c.tail + t)))
      && (DecodeOptions(s + t, prev).Ok? ==> c.options <= DecodeOptions(s + t, prev).value.options)
    decreases |s|
  {
    hide ReadFirst;
    if !AtEnd(s) {
      DecodeUnfold(s, prev);
      var First(opt, n) := ReadFirst(s, prev).value;
      ReadFirstOnly(s, prev, s[n..] + t);
      assert s[..n] + (s[n..] + t) == s + t;
      assert (s + t)[n..] == s[n..] + t;
      ShorterArea(s[n..], t, opt.number);
      if DecodeOptions(s + t, prev).Ok? {
        DecodeUnfold(s + t, prev);
        SameFirstOption(DecodeOptions(s, prev).value.options, DecodeOptions(s + t, prev).value.options);
      }
    }
  }

  lemma SameFirstOption(a: seq<Opt>, b: seq<Opt>)
    requires a != [] && b != [] && a[0] == b[0] && a[1..] <= b[1..]
    ensures a <= b
  {
    assert a == [a[0]] + a[1..] && b == [b[0]] + b[1..];
  }
}
