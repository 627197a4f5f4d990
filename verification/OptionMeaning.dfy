/** What set, delete and get mean for the values held under each option number. */
module OptionMeaning {
  import opened Common
  import opened OptionCodec
  import opened OptionList
  import opened OptionEditing

  /** Options stand in ascending order: no delta in the message wraps 16 bits. */
  ghost predicate Sorted(options: seq<Opt>) {
    forall i, j :: 0 <= i < j < |options| ==> options[i].number <= options[j].number
  }

  /** The values held under one option number, in order of occurrence. */
  function Values(options: seq<Opt>, number: uint16): seq<seq<byte>> {
    if options == [] then []
    else (if options[0].number == number then [options[0].value] else []) + Values(options[1..], number)
  }

  lemma {:induction false} NoValuesAbove(options: seq<Opt>, number: uint16)
    requires forall k :: 0 <= k < |options| ==> options[k].number > number
    ensures Values(options, number) == []
  {
    if options != [] {
      NoValuesAbove(options[1..], number);
    }
  }

  lemma {:induction false} ValuesOfConcat(a: seq<Opt>, b: seq<Opt>, number: uint16)
    ensures Values(a + b, number) == Values(a, number) + Values(b, number)
  {
    if a == [] {
      assert a + b == b;
    } else {
      assert (a + b)[1..] == a[1..] + b;
      ValuesOfConcat(a[1..], b, number);
    }
  }

  /** In a sorted list the place found for occurrence `index` is that occurrence, and otherwise it
      separates the options numbered up to `number` from those above. */
  lemma {:induction false} PositionMeaning(options: seq<Opt>, number: uint16, index: nat)
    requires Sorted(options)
    ensures Present(options, number, index) <==> index < |Values(options, number)|
    ensures var k := Position(options, number, index);
      && (Present(options, number, index) ==> |Values(options[..k], number)| == index)
      && (!Present(options, number, index) ==> Values(options[..k], number) == Values(options, number))
      && (forall i :: 0 <= i < k ==> options[i].number <= number)
      && (!Present(options, number, index) ==> forall i :: k <= i < |options| ==> options[i].number > number)
  {
    var k := Position(options, number, index);
    if options == [] || options[0].number > number {
      NoValuesAbove(options, number);
    } else if options[0].number == number && index == 0 {
    } else {
      PositionMeaning(options[1..], number, if options[0].number == number then index - 1 else index);
      assert options[..k][1..] == options[1..][..k - 1];
      forall i | 0 <= i < k ensures options[i].number <= number {
        assert i > 0 ==> options[i] == options[1..][i - 1];
      }
      if !Present(options, number, index) {
        forall i | k <= i < |options| ensures options[i].number > number {
          assert options[i] == options[1..][i - 1];
        }
      }
    }
  }

  /** The values of a list from which options `i` to `j` are taken and `mid` put in. */
  lemma ValuesOfSplice(options: seq<Opt>, i: nat, mid: seq<Opt>, j: nat, number: uint16)
    requires i <= j <= |options|
    ensures Values(options[..i] + mid + options[j..], number)
         == Values(options[..i], number) + Values(mid, number) + Values(options[j..], number)
  {
    ValuesOfConcat(options[..i] + mid, options[j..], number);
    ValuesOfConcat(options[..i], mid, number);
  }

  lemma ValuesOfOne(opt: Opt, number: uint16)
    ensures Values([opt], number) == if opt.number == number then [opt.value] else []
  {
    assert [opt][1..] == [];
  }

  /** The values of a list around its option `k`. */
  lemma ValuesAround(options: seq<Opt>, k: nat, number: uint16)
    requires k < |options|
    ensures Values(options, number) == Values(options[..k], number)
      + (if options[k].number == number then [options[k].value] else []) + Values(options[k + 1..], number)
  {
    hide Values;
    assert options == options[..k] + [options[k]] + options[k + 1..];
    ValuesOfSplice(options, k, [options[k]], k + 1, number);
    ValuesOfOne(options[k], number);
  }

  /** Setting occurrence `index` of a number replaces that value, or adds one at the end when there are
      fewer; it leaves the values of every other number alone. */
  lemma SetMeaning(options: seq<Opt>, number: uint16, index: nat, value: seq<byte>, n: uint16)
    requires Sorted(options)
    ensures Values(SetList(options, number, index, value), n) ==
      if n != number then Values(options, n)
      else if index < |Values(options, n)| then Values(options, n)[index := value]
      else Values(options, n) + [value]
  {
    hide Values, Position, Sorted;
    PositionMeaning(options, number, index);
    var k := Position(options, number, index);
    var opt := Opt(number, value);
    ValuesOfOne(opt, n);
    if Present(options, number, index) {
      ValuesAround(options, k, n);
      ValuesOfSplice(options, k, [opt], k + 1, n);
    } else {
      ValuesOfSplice(options, k, [opt], k, n);
      ValuesOfConcat(options[..k], options[k..], n);
      ValuesOfConcat(options[..k], options[k..], number);
      assert options == options[..k] + options[k..];
    }
  }

  /** Deleting occurrence `index` of a number takes out that value and no other. */
  lemma DeleteMeaning(options: seq<Opt>, number: uint16, index: nat, n: uint16)
    requires Sorted(options)
    ensures Values(DeleteList(options, number, index), n) ==
      if n == number && index < |Values(options, n)|
      then Values(options, n)[..index] + Values(options, n)[index + 1..]
      else Values(options, n)
  {
    hide Values, Position, Sorted;
    PositionMeaning(options, number, index);
    if Present(options, number, index) {
      var k := Position(options, number, index);
      ValuesAround(options, k, n);
      ValuesOfConcat(options[..k], options[k + 1..], n);
    }
  }

  /** Both edits keep the order. */
  lemma EditsKeepOrder(options: seq<Opt>, number: uint16, index: nat, value: seq<byte>)
    requires Sorted(options)
    ensures Sorted(SetList(options, number, index, value))
    ensures Sorted(DeleteList(options, number, index))
  {
    hide Values, Position;
    PositionMeaning(options, number, index);
  }

  /** Deleting the occurrence that a set has just added gives back the list as it was. */
  lemma DeleteUndoesSet(options: seq<Opt>, number: uint16, index: nat, value: seq<byte>)
    requires Sorted(options) && !Present(options, number, index)
    ensures DeleteList(SetList(options, number, index, value), number, |Values(options, number)|) == options
  {
    hide Values, Position, Sorted, Placed;
    var k, n := Position(options, number, index), |Values(options, number)|;
    var options' := SetList(options, number, index, value);
    EditsKeepOrder(options, number, index, value);
    SetIsPlaced(options, number, index, value);
    PositionUnique(options', number, n, k);
    assert options'[..k] == options[..k] && options'[k + 1..] == options[k..];
    assert options[..k] + options[k..] == options;
  }

  /** An occurrence just added has the place where it was put. */
  lemma SetIsPlaced(options: seq<Opt>, number: uint16, index: nat, value: seq<byte>)
    requires Sorted(options) && !Present(options, number, index)
    ensures var k := Position(options, number, index);
      var options' := SetList(options, number, index, value);
      k < |options'| && options'[k].number == number && Placed(options', number, |Values(options, number)|, k)
  {
    hide Values, Position, Sorted;
    PositionMeaning(options, number, index);
    SetMeaning(options, number, index, value, number);
    var k := Position(options, number, index);
    assert SetList(options, number, index, value)[..k] == options[..k];
  }

  /** Place `k` is that of occurrence `index`: it holds an option of that number which as many precede, or,
      when there are too few, separates the options numbered up to `number` from those above. */
  ghost predicate Placed(options: seq<Opt>, number: uint16, index: nat, k: nat)
    requires k <= |options|
  {
    if index < |Values(options, number)| then
      k < |options| && options[k].number == number && |Values(options[..k], number)| == index
    else
      && (forall i :: 0 <= i < k ==> options[i].number <= number)
      && (forall i :: k <= i < |options| ==> options[i].number > number)
  }

  /** Every occurrence, present or not, has exactly one place, which is the one found. */
  lemma PositionUnique(options: seq<Opt>, number: uint16, index: nat, k: nat)
    requires Sorted(options) && k <= |options|
    ensures Placed(options, number, index, k) <==> Position(options, number, index) == k
  {
    hide Values, Position, Sorted;
    PositionMeaning(options, number, index);
    var k' := Position(options, number, index);
    if !Present(options, number, index) {
      if k < k' {
        assert options[k].number <= number;
      } else if k' < k {
        assert options[k'].number > number;
      }
    } else if Placed(options, number, index, k) {
      ValuesAround(options, k, number);
      if k' < k {
        assert options[..k][..k'] == options[..k'];
        ValuesAround(options[..k], k', number);
      } else if k < k' {
        assert options[..k'][..k] == options[..k];
        ValuesAround(options[..k'], k, number);
      }
    }
  }

  // ---------------------------------------------------------------------------------------------
  // Reading one value

  /** Where the `index`-th occurrence of `number` holds its value, and how long the value is. */
  function Find(s: seq<byte>, prev: uint16, number: uint16, index: nat): (r: Result<(nat, nat)>)
    ensures r.Ok? ==> r.value.0 + r.value.1 <= |s|
    ensures r.Err? ==> r.error != NoError
  {
    hide ReadFirst;
    if AtEnd(s) then Err(NotFound)
    else
      match ReadFirst(s, prev)
      case Err(e) => Err(e)
      case Ok(First(opt, n)) =>
        if opt.number == number && index == 0 then Ok((n - |opt.value|, |opt.value|))
        else Shift(n, Find(s[n..], opt.number, number, if opt.number == number then index - 1 else index))
  }

  function Shift(n: nat, r: Result<(nat, nat)>): Result<(nat, nat)> {
    match r
    case Err(e) => Err(e)
    case Ok((at, len)) => Ok((n + at, len))
  }

  /** One step of a search for a value that has reached offset `at`. */
  lemma FindStep(s: seq<byte>, base: nat, at: nat, prev: uint16, number: uint16, index: nat)
    requires at <= |s|
    ensures AtEnd(s[at..]) ==> Shift(base + at, Find(s[at..], prev, number, index)) == Err(NotFound)
    ensures !AtEnd(s[at..]) ==>
      match ReadFirst(s[at..], prev)
      case Err(e) => Shift(base + at, Find(s[at..], prev, number, index)) == Err(e)
      case Ok(First(opt, n)) =>
        if opt.number == number && index == 0 then
          Shift(base + at, Find(s[at..], prev, number, index)) == Ok((base + at + n - |opt.value|, |opt.value|))
        else
          Shift(base + at, Find(s[at..], prev, number, index)) ==
          Shift(base + at + n, Find(s[at + n..], opt.number, number, if opt.number == number then index - 1 else index))
  {
    hide ReadFirst;
    if !AtEnd(s[at..]) && ReadFirst(s[at..], prev).Ok? {
      assert s[at..][ReadFirst(s[at..], prev).value.size..] == s[at + ReadFirst(s[at..], prev).value.size..];
    }
  }

  lemma ValueInPlace(s: seq<byte>, prev: uint16)
    requires ReadFirst(s, prev).Ok?
    ensures var First(opt, n) := ReadFirst(s, prev).value; s[n - |opt.value|..n] == opt.value
  {
    hide DecodeOption;
  }

  /** Getting an option yields exactly the value the list holds, and fails exactly when there is none. */
  lemma {:induction false} FindMeaning(s: seq<byte>, prev: uint16, number: uint16, index: nat)
    requires DecodeOptions(s, prev).Ok?
    ensures var values := Values(DecodeOptions(s, prev).value.options, number);
      var r := Find(s, prev, number, index);
      if index < |values| then r.Ok? && s[r.value.0..r.value.0 + r.value.1] == values[index]
      else r == Err(NotFound)
    decreases |s|
  {
    hide ReadFirst, AtEnd;
    if AtEnd(s) {
      assert DecodeOptions(s, prev).value.options == [];
    } else {
      DecodeUnfold(s, prev);
      var First(opt, n) := ReadFirst(s, prev).value;
      ValueInPlace(s, prev);
      if !(opt.number == number && index == 0) {
        var index' := if opt.number == number then index - 1 else index;
        FindMeaning(s[n..], opt.number, number, index');
        var r := Find(s[n..], opt.number, number, index');
        if r.Ok? {
          SliceOfSuffix(s, n, r.value.0, r.value.0 + r.value.1);
        }
      }
    }
  }

  /** A value found in the beginning of an area is found in the area. */
  lemma {:induction false} FindShorter(s: seq<byte>, t: seq<byte>, prev: uint16, number: uint16, index: nat)
    requires Find(s, prev, number, index).Ok?
    ensures Find(s + t, prev, number, index) == Find(s, prev, number, index)
    decreases |s|
  {
    hide ReadFirst;
    var First(opt, n) := ReadFirst(s, prev).value;
    ReadFirstOnly(s, prev, s[n..] + t);
    assert s[..n] + (s[n..] + t) == s + t;
    assert (s + t)[n..] == s[n..] + t;
    if !(opt.number == number && index == 0) {
      FindShorter(s[n..], t, opt.number, number, if opt.number == number then index - 1 else index);
    }
  }

  /** An area holds no more occurrences than bytes. */
  lemma {:induction false} FindBound(s: seq<byte>, prev: uint16, number: uint16, index: nat)
    requires Find(s, prev, number, index).Ok?
    ensures index < |s|
    decreases |s|
  {
    hide ReadFirst;
    var First(opt, n) := ReadFirst(s, prev).value;
    if !(opt.number == number && index == 0) {
      FindBound(s[n..], opt.number, number, if opt.number == number then index - 1 else index);
    }
  }
}
