/** Paths and queries as repeated options: sections 6.4 and 6.5 of RFC 7252, without percent-coding. */
module RepeatableOptions {
  import opened Common
  import opened OptionEditing
  import opened OptionMeaning
  import opened MessageView
  import opened WellFormedness
  import opened CoapMessages

  // ---------------------------------------------------------------------------------------------
  // Splitting

  /** The number of bytes in front of the first separator. */
  function Run(s: seq<byte>, sep: byte): (k: nat)
    ensures k <= |s|
    ensures sep !in s[..k]
    ensures k < |s| ==> s[k] == sep
  {
    if s == [] || s[0] == sep then 0 else 1 + Run(s[1..], sep)
  }

  /** The non-empty segments of `s` between separators. */
  function Segments(s: seq<byte>, sep: byte): seq<seq<byte>> {
    if s == [] then []
    else if s[0] == sep then Segments(s[1..], sep)
    else [s[..Run(s, sep)]] + Segments(s[Run(s, sep)..], sep)
  }

  lemma RunIs(s: seq<byte>, sep: byte, k: nat)
    requires k <= |s| && sep !in s[..k] && (k < |s| ==> s[k] == sep)
    ensures Run(s, sep) == k
  {
  }

  /** Setting occurrences `index`, `index + 1`, ... of an option to the given values, until one fails. */
  function SetAllBytes(b: seq<byte>, number: uint16, index: nat, values: seq<seq<byte>>): (Error, seq<byte>)
    decreases |values|
  {
    if values == [] then (NoError, b)
    else
      var (error, b') := SetBytes(b, number, index, values[0]);
      if error != NoError then (error, b') else SetAllBytes(b', number, index + 1, values[1..])
  }

  /** Stores the segments of a zero-terminated string as occurrences of an option. */
  method Split(message: CoapMessage, number: uint16, str: array<byte>, ghost n: nat, sep: byte) returns (error: Error)
    requires message.Valid() && str != message.buffer
    requires n < str.Length && str[n] == 0 && 0 !in str[..n]
    modifies message`length, message.buffer
    ensures message.Valid()
    ensures (error, message.Bytes()) ==
      SetAllBytes(old(message.Bytes()), number, 0, Segments(old(str[..n]), sep))
  {
    hide SetBytes, Segments;
    var i, j, index := 0, 0, 0;
    ghost var s := str[..n];
    ghost var target := SetAllBytes(message.Bytes(), number, 0, Segments(s, sep));
    assert s[0..] == s;
    while true
      invariant message.Valid() && unchanged(str)
      invariant 0 <= j <= i <= n && sep !in s[j..i]
      invariant target == SetAllBytes(message.Bytes(), number, index, Segments(s[j..], sep))
      decreases n - i
    {
      assert i < n ==> str[i] == s[i] && s[i] in s;
      if str[i] == sep || str[i] == 0 {
        SegmentsFrom(s, sep, j, i);
        ghost var rest := Segments(s[i..], sep);
        if i - j > 0 {
          SliceOfPrefix(str[..], n, j, i);
          assert j + (i - j) == i && str[..][..n] == s && str[..][j..i] == s[j..i];
          assert ([s[j..i]] + rest)[1..] == rest;
          error := message.SetOption(number, index, str, j, i - j);
          index := index + 1;
          if error != NoError {
            return;
          }
        } else {
          assert [] + rest == rest;
        }
        j := i + 1;
      }
      if str[i] == 0 {
        return NoError;
      }
      i := i + 1;
    }
  }

  /** The segments from `j` on, when the first separator or the end is at `i`. */
  lemma SegmentsFrom(s: seq<byte>, sep: byte, j: nat, i: nat)
    requires j <= i <= |s| && sep !in s[j..i] && (i < |s| ==> s[i] == sep)
    ensures Segments(s[j..], sep) == (if i > j then [s[j..i]] else []) + Segments(s[i..], sep)
    ensures i < |s| ==> Segments(s[i..], sep) == Segments(s[i + 1..], sep)
    ensures i == |s| ==> Segments(s[i..], sep) == []
  {
    if i > j {
      var t := s[j..];
      assert t[..i - j] == s[j..i] && t[i - j..] == s[i..];
      RunIs(t, sep, i - j);
      assert t[0] == s[j..i][0];
    } else {
      assert s[j..] == s[i..];
      assert [] + Segments(s[i..], sep) == Segments(s[i..], sep);
    }
    if i < |s| {
      assert s[i..][1..] == s[i + 1..];
    }
  }

  /** More than these values take as options. */
  function Cost(values: seq<seq<byte>>): nat {
    if values == [] then 0 else 5 + |values[0]| + Cost(values[1..])
  }

  /** All of them are set when there is room for them. */
  lemma {:induction false} SetAllFits(b: seq<byte>, number: uint16, index: nat, values: seq<seq<byte>>)
    requires WellFormed(b) && |b| + Cost(values) <= 1152
    ensures SetAllBytes(b, number, index, values).0 == NoError
    decreases |values|
  {
    hide SetBytes, WellFormed, Decode, Position;
    if values != [] {
      SetSucceedsExactly(b, number, index, values[0]);
      SetGrowth(b, number, index, values[0]);
      SetKeepsWellFormed(b, number, index, values[0]);
      SetAllFits(SetBytes(b, number, index, values[0]).1, number, index + 1, values[1..]);
    }
  }

  /** It fails for want of room only. */
  lemma {:induction false} SetAllErrors(b: seq<byte>, number: uint16, index: nat, values: seq<seq<byte>>)
    requires Decode(b).Ok? && |b| <= MAX_MSG_SIZE
    ensures var error := SetAllBytes(b, number, index, values).0; error == NoError || error == BufferOverflow
    decreases |values|
  {
    hide SetBytes, Decode, SetList;
    if values != [] {
      SetRefinesView(b, number, index, values[0]);
      var (error, b') := SetBytes(b, number, index, values[0]);
      if error == NoError {
        SetAllErrors(b', number, index + 1, values[1..]);
      }
    }
  }

  /** `values` written over `old` from `index` on. */
  function Overlay(held: seq<seq<byte>>, index: nat, values: seq<seq<byte>>): seq<seq<byte>>
    requires index <= |held|
  {
    held[..index] + values + if index + |values| <= |held| then held[index + |values|..] else []
  }

  /** Setting successive occurrences writes the values over those held, and touches nothing else. */
  lemma {:induction false} SetAllMeaning(b: seq<byte>, number: uint16, index: nat, values: seq<seq<byte>>)
    requires WellFormed(b) && |b| <= MAX_MSG_SIZE && Decode(b).Ok?
    requires index <= |Values(Decode(b).value.options, number)|
    requires SetAllBytes(b, number, index, values).0 == NoError
    ensures var b' := SetAllBytes(b, number, index, values).1;
      && WellFormed(b') && Decode(b').Ok?
      && Decode(b').value.header == Decode(b).value.header && Decode(b').value.tail == Decode(b).value.tail
      && Values(Decode(b').value.options, number) == Overlay(Values(Decode(b).value.options, number), index, values)
      && (forall n: uint16 :: n != number ==>
            Values(Decode(b').value.options, n) == Values(Decode(b).value.options, n))
    decreases |values|
  {
    hide SetBytes, Decode, WellFormed, Values, SetList;
    var v := Decode(b).value;
    if values != [] {
      var b1 := SetBytes(b, number, index, values[0]).1;
      SetKeepsWellFormed(b, number, index, values[0]);
      SetRefinesView(b, number, index, values[0]);
      WellFormedSorted(b);
      var options := SetList(v.options, number, index, values[0]);
      forall n: uint16 ensures n != number ==> Values(options, n) == Values(v.options, n) {
        SetMeaning(v.options, number, index, values[0], n);
      }
      SetMeaning(v.options, number, index, values[0], number);
      SetAllMeaning(b1, number, index + 1, values[1..]);
      OverlayStep(Values(v.options, number), index, values);
    } else {
      OverlayNone(Values(v.options, number), index);
    }
  }

  lemma OverlayNone(held: seq<seq<byte>>, index: nat)
    requires index <= |held|
    ensures Overlay(held, index, []) == held
  {
  }

  lemma OverlayStep(held: seq<seq<byte>>, index: nat, values: seq<seq<byte>>)
    requires index <= |held| && values != []
    ensures var held' := if index < |held| then held[index := values[0]] else held + [values[0]];
      Overlay(held', index + 1, values[1..]) == Overlay(held, index, values)
  {
  }

  // ---------------------------------------------------------------------------------------------
  // Joining

  const AMPERSAND: byte := 38

  /** The outcome of joining values in a buffer of `maxLen` bytes that already holds `acc`. */
  function JoinValues(values: seq<seq<byte>>, sep: byte, maxLen: nat, acc: seq<byte>): (r: (Error, seq<byte>))
    requires |acc| <= maxLen
    ensures |r.1| <= maxLen
    decreases |values|
  {
    if values == [] then (NoError, acc)
    else
      var a := if (sep != AMPERSAND || acc != []) && |acc| < maxLen then acc + [sep] else acc;
      if |a| + |values[0]| <= maxLen then JoinValues(values[1..], sep, maxLen, a + values[0])
      else (BufferOverflow, a)
  }

  /** One value joined, behind its separator if one is due and fits. */
  lemma JoinStep(values: seq<seq<byte>>, i: nat, sep: byte, maxLen: nat, acc: seq<byte>)
    requires |acc| <= maxLen && i <= |values|
    ensures i == |values| ==> JoinValues(values[i..], sep, maxLen, acc) == (NoError, acc)
    ensures i < |values| ==>
      var a := if (sep != AMPERSAND || acc != []) && |acc| < maxLen then acc + [sep] else acc;
      JoinValues(values[i..], sep, maxLen, acc) ==
        if |a| + |values[i]| <= maxLen then JoinValues(values[i + 1..], sep, maxLen, a + values[i])
        else (BufferOverflow, a)
  {
    if i < |values| {
      assert values[i..][0] == values[i] && values[i..][1..] == values[i + 1..];
    }
  }

  lemma FindBytesBound(b: seq<byte>, number: uint16, index: nat)
    requires FindBytes(b, number, index).Ok?
    ensures index < |b|
  {
    hide Find;
    FindBound(b[HeaderSize(b).value..], 0, number, index);
  }

  /** Appends a separator, when one is due and fits, and then the `n` bytes of the message at `at`. */
  method AppendSegment(message: CoapMessage, at: nat, n: nat, dst: array<byte>, i0: nat, maxLen: nat, sep: byte)
    returns (error: Error, i: nat)
    requires message.Valid() && dst != message.buffer && i0 <= maxLen < dst.Length && at + n <= message.length
    modifies dst
    ensures i <= maxLen
    ensures var acc, value := old(dst[..i0]), message.Bytes()[at..at + n];
      var a := if (sep != AMPERSAND || acc != []) && |acc| < maxLen then acc + [sep] else acc;
      if |a| + n <= maxLen then error == NoError && dst[..i] == a + value
      else error == BufferOverflow && dst[..i] == a
  {
    i := i0;
    if sep != AMPERSAND || i != 0 {
      if i < maxLen {
        dst[i] := sep;
        i := i + 1;
      }
    }
    if i + n <= maxLen {
      SliceOfPrefix(message.buffer[..], message.length, at, at + n);
      assert message.buffer[..][..message.length] == message.Bytes();
      Move(dst, i, message.buffer, at, n);
      i := i + n;
      error := NoError;
    } else {
      error := BufferOverflow;
    }
  }

  /** Joins all occurrences of an option, as far as they can be read, in a zero-terminated buffer. */
  method Join(message: CoapMessage, number: uint16, dst: array<byte>, maxLen: nat, sep: byte)
    returns (error: Error, i: nat)
    requires message.Valid() && dst != message.buffer && maxLen < dst.Length
    modifies dst
    ensures i <= maxLen && dst[i] == 0
    ensures Decode(message.Bytes()).Ok? ==>
      (error, dst[..i]) == JoinValues(Values(Decode(message.Bytes()).value.options, number), sep, maxLen, [])
  {
    hide Decode, Values, FindBytes, JoinValues;
    error, i := NoError, 0;
    var index := 0;
    ghost var b := message.Bytes();
    ghost var values := if Decode(b).Ok? then Values(Decode(b).value.options, number) else [];
    ghost var target := JoinValues(values, sep, maxLen, []);
    while error == NoError
      invariant i <= maxLen && index <= |b| && unchanged(message) && unchanged(message.buffer)
      invariant Decode(b).Ok? ==>
        && (error == NoError ==> index <= |values| && target == JoinValues(values[index..], sep, maxLen, dst[..i]))
        && (error == NotFound ==> target == (NoError, dst[..i]))
        && (error != NoError && error != NotFound ==> error == BufferOverflow && target == (error, dst[..i]))
      decreases if error == NoError then |b| - index else -1
    {
      var option := message.GetOption(number, index);
      if Decode(b).Ok? {
        FindRefinesView(b, number, index);
        JoinStep(values, index, sep, maxLen, dst[..i]);
      }
      if option.Err? {
        error := option.error;
      } else {
        FindBytesBound(b, number, index);
        index := index + 1;
        error, i := AppendSegment(message, option.value.0, option.value.1, dst, i, maxLen, sep);
      }
    }
    if error == NotFound {
      error := NoError;
    }
    dst[i] := 0;
  }

  /** Each value behind a separator. */
  function Separated(values: seq<seq<byte>>, sep: byte): seq<byte> {
    if values == [] then [] else [sep] + values[0] + Separated(values[1..], sep)
  }

  /** A path starts with its separator; a query has one only between its values, and none behind the empty
      values that it starts with. */
  function Joined(values: seq<seq<byte>>, sep: byte): seq<byte>
    decreases |values|
  {
    if sep != AMPERSAND then Separated(values, sep)
    else if values == [] then []
    else if values[0] == [] then Joined(values[1..], sep)
    else values[0] + Separated(values[1..], sep)
  }

  /** The values up to the last that is not empty. */
  function Trimmed(values: seq<seq<byte>>): seq<seq<byte>>
    decreases |values|
  {
    if values == [] then []
    else
      var rest := Trimmed(values[1..]);
      if rest == [] && values[0] == [] then [] else [values[0]] + rest
  }

  lemma {:induction false} TrimmedFull(values: seq<seq<byte>>)
    requires forall k :: 0 <= k < |values| ==> values[k] != []
    ensures Trimmed(values) == values
    decreases |values|
  {
    if values != [] {
      TrimmedFull(values[1..]);
    }
  }

  function Cut(s: seq<byte>, n: nat): seq<byte> {
    s[..Min(|s|, n)]
  }

  /** What becomes of the first value. */
  lemma SeparatedFirst(values: seq<seq<byte>>, sep: byte, acc: seq<byte>)
    requires values != []
    ensures acc + Separated(values, sep) == acc + [sep] + values[0] + Separated(values[1..], sep)
    ensures |Separated(Trimmed(values), sep)| ==
      if values[0] == [] && Trimmed(values[1..]) == [] then 0
      else 1 + |values[0]| + |Separated(Trimmed(values[1..]), sep)|
  {
    var rest := Trimmed(values[1..]);
    assert ([values[0]] + rest)[1..] == rest;
  }

  /** Values joined behind `acc`: there must be room for all up to the last that is not empty, and what
      separators do not fit behind that are left out. */
  lemma {:induction false} JoinBehind(values: seq<seq<byte>>, sep: byte, maxLen: nat, acc: seq<byte>)
    requires |acc| <= maxLen && (sep != AMPERSAND || acc != [])
    ensures var r := JoinValues(values, sep, maxLen, acc);
      && r.0 == (if |acc| + |Separated(Trimmed(values), sep)| <= maxLen then NoError else BufferOverflow)
      && r.1 <= acc + Separated(values, sep)
      && (r.0 == NoError ==> r.1 == Cut(acc + Separated(values, sep), maxLen))
    decreases |values|
  {
    hide Separated, Trimmed;
    if values == [] {
      NothingSeparated(sep);
      assert acc + [] == acc;
    } else {
      SeparatedFirst(values, sep, acc);
      var a := if |acc| < maxLen then acc + [sep] else acc;
      if |a| + |values[0]| <= maxLen {
        JoinBehind(values[1..], sep, maxLen, a + values[0]);
        NothingTrimmed(values[1..], sep);
        if |acc| == maxLen {
          assert a + values[0] == acc;
        }
      }
    }
  }

  lemma NothingSeparated(sep: byte)
    ensures Separated([], sep) == [] && Trimmed([]) == []
  {
  }

  lemma NothingTrimmed(values: seq<seq<byte>>, sep: byte)
    ensures |Separated(Trimmed(values), sep)| == 0 <==> Trimmed(values) == []
  {
  }

  /** Joining succeeds exactly when there is room for everything up to the last value that is not empty, and
      yields the joined string, less the separators at its end that do not fit. */
  lemma {:induction false} JoinMeaning(values: seq<seq<byte>>, sep: byte, maxLen: nat)
    ensures var r := JoinValues(values, sep, maxLen, []);
      && r.0 == (if |Joined(Trimmed(values), sep)| <= maxLen then NoError else BufferOverflow)
      && r.1 <= Joined(values, sep)
      && (r.0 == NoError ==> r.1 == Cut(Joined(values, sep), maxLen))
    decreases |values|
  {
    hide Separated;
    if sep != AMPERSAND {
      assert [] + Separated(values, sep) == Separated(values, sep);
      JoinBehind(values, sep, maxLen, []);
    } else if values != [] {
      assert [] + values[0] == values[0];
      var rest := Trimmed(values[1..]);
      assert ([values[0]] + rest)[1..] == rest;
      if values[0] == [] {
        JoinMeaning(values[1..], sep, maxLen);
      } else if |values[0]| <= maxLen {
        JoinBehind(values[1..], sep, maxLen, values[0]);
      }
    }
  }

  /** The path "/a/b" and the query "a&b". */
  lemma JoinExamples()
    ensures JoinValues([[97], [98]], 47, 10, []) == (NoError, [47, 97, 47, 98])
    ensures JoinValues([[97], [98]], 38, 10, []) == (NoError, [97, 38, 98])
  {
    var values: seq<seq<byte>>, rest: seq<seq<byte>>, acc: seq<byte> := [[97], [98]], [[98]], [];
    assert values[1..] == rest && rest[1..] == [];
    assert [47, 97] + [47] + [98] == [47, 97, 47, 98] && [97] + [38] + [98] == [97, 38, 98];
    assert JoinValues(rest, 47, 10, [47, 97]) == JoinValues([], 47, 10, [47, 97, 47, 98]);
    assert JoinValues(rest, 38, 10, [97]) == JoinValues([], 38, 10, [97, 38, 98]);
    assert acc + [47] + [97] == [47, 97] && acc + [97] == [97];
  }

  // ---------------------------------------------------------------------------------------------
  // Split and join undo each other

  ghost predicate SegmentsOnly(values: seq<seq<byte>>, sep: byte) {
    forall k :: 0 <= k < |values| ==> values[k] != [] && sep !in values[k]
  }

  lemma {:induction false} SegmentsAreSegments(s: seq<byte>, sep: byte)
    ensures SegmentsOnly(Segments(s, sep), sep)
    decreases |s|
  {
    if s != [] {
      if s[0] == sep {
        SegmentsAreSegments(s[1..], sep);
      } else {
        SegmentsAreSegments(s[Run(s, sep)..], sep);
      }
    }
  }

  lemma {:induction false} SegmentsOfSeparated(values: seq<seq<byte>>, sep: byte)
    requires SegmentsOnly(values, sep)
    ensures Segments(Separated(values, sep), sep) == values
    decreases |values|
  {
    if values != [] {
      var s := values[0] + Separated(values[1..], sep);
      assert Separated(values, sep)[1..] == s;
      SegmentsOfFirst(values, sep);
    }
  }

  lemma {:induction false} SegmentsOfFirst(values: seq<seq<byte>>, sep: byte)
    requires SegmentsOnly(values, sep) && values != []
    ensures Segments(values[0] + Separated(values[1..], sep), sep) == values
    decreases |values|, 0
  {
    var s := values[0] + Separated(values[1..], sep);
    var k := |values[0]|;
    assert s[..k] == values[0] && s[k..] == Separated(values[1..], sep);
    RunIs(s, sep, k);
    assert s[0] == values[0][0];
    SegmentsOfSeparated(values[1..], sep);
    assert [values[0]] + values[1..] == values;
  }

  /** A string made by joining segments splits into those segments. */
  lemma SegmentsOfJoined(values: seq<seq<byte>>, sep: byte)
    requires SegmentsOnly(values, sep)
    ensures Segments(Joined(values, sep), sep) == values
  {
    if sep == AMPERSAND && values != [] {
      SegmentsOfFirst(values, sep);
    } else {
      SegmentsOfSeparated(values, sep);
    }
  }

  /** A string stored as options and read back comes out normalised: its non-empty segments, each behind
      a separator, or only separated for a query; a string already in that form comes back unchanged. */
  lemma SplitThenJoin(b: seq<byte>, number: uint16, s: seq<byte>, sep: byte, maxLen: nat)
    requires WellFormed(b) && |b| <= MAX_MSG_SIZE && Decode(b).Ok?
    requires Values(Decode(b).value.options, number) == []
    requires SetAllBytes(b, number, 0, Segments(s, sep)).0 == NoError
    ensures var b' := SetAllBytes(b, number, 0, Segments(s, sep)).1;
      && Decode(b').Ok?
      && Values(Decode(b').value.options, number) == Segments(s, sep)
      && (maxLen >= |Joined(Segments(s, sep), sep)| ==>
            JoinValues(Values(Decode(b').value.options, number), sep, maxLen, []) ==
            (NoError, Joined(Segments(s, sep), sep)))
    ensures (exists values :: SegmentsOnly(values, sep) && s == Joined(values, sep)) ==>
      Joined(Segments(s, sep), sep) == s
  {
    hide SetAllBytes, Decode, WellFormed, Values;
    var segments := Segments(s, sep);
    SetAllMeaning(b, number, 0, segments);
    assert Overlay([], 0, segments) == segments;
    SegmentsAreSegments(s, sep);
    JoinMeaning(segments, sep, maxLen);
    TrimmedFull(segments);
    assert Joined(segments, sep)[..|Joined(segments, sep)|] == Joined(segments, sep);
    forall values | SegmentsOnly(values, sep) && s == Joined(values, sep) ensures segments == values {
      SegmentsOfJoined(values, sep);
    }
  }
}
