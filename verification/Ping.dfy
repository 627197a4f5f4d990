/** ICMP echo messages as ping sends and accepts them: core/ping.c. */
module Ping {
  import opened Common
  import opened OnesComplement
  import opened IpChecksum

  const HEADER_SIZE := 8
  const ECHO_REPLY: byte := 0
  const ECHO_REQUEST: byte := 8
  const TIME_EXCEEDED: byte := 11
  const ECHO_REQUEST_V6: byte := 128
  const ECHO_REPLY_V6: byte := 129
  const TIME_EXCEEDED_V6: byte := 3
  const MAX_DATA_SIZE := 32
  const PSEUDO_HEADER_SIZE := 40

  /** The payload counts its own bytes. */
  function Pattern(n: nat): (s: seq<byte>)
    ensures |s| == n
    ensures forall i :: 0 <= i < n ==> s[i] == i % 256
  {
    if n == 0 then [] else Pattern(n - 1) + [(n - 1) % 256]
  }

  /** What follows the checksum field: identifier, sequence number and payload. */
  function Body(id: uint16, number: uint16, n: nat): (s: seq<byte>)
    ensures |s| == 4 + n
  {
    [id / 256, id % 256, number / 256, number % 256] + Pattern(n)
  }

  /** An echo message whose checksum field is zero. */
  function Echo(kind: byte, id: uint16, number: uint16, n: nat): (s: seq<byte>)
    ensures |s| == HEADER_SIZE + n
  {
    [kind, 0, 0, 0] + Body(id, number, n)
  }

  /** The checksum of a message, behind its pseudo header when there is one. */
  function MessageChecksum(pseudo: Option<seq<byte>>, b: seq<byte>): uint16 {
    match pseudo
    case None => Checksum(b)
    case Some(p) => UpperLayer(p, b)
  }

  function Sealed(pseudo: Option<seq<byte>>, b: seq<byte>): (r: seq<byte>)
    requires |b| >= 4
    ensures |r| == |b|
  {
    WithWord(b, 2, MessageChecksum(pseudo, WithWord(b, 2, 0)))
  }

  class PingContext {
    const identifier: uint16
    const sequenceNumber: uint16
    const dataPayloadSize: nat
    /** Where the message to be sent lies. */
    const buffer: nat
    /** Where the IPv6 pseudo header lies, for a target that has one. */
    const pseudoHeader: Option<nat>

    constructor (identifier: uint16, sequenceNumber: uint16, size: nat, buffer: nat, pseudoHeader: Option<nat>)
      ensures this.identifier == identifier && this.sequenceNumber == sequenceNumber
      ensures dataPayloadSize == Min(size, 32)
      ensures this.buffer == buffer && this.pseudoHeader == pseudoHeader
    {
      this.identifier, this.sequenceNumber := identifier, sequenceNumber;
      dataPayloadSize := Min(size, MAX_DATA_SIZE);
      this.buffer, this.pseudoHeader := buffer, pseudoHeader;
    }

    function Length(): nat {
      HEADER_SIZE + dataPayloadSize
    }

    /** The pseudo header and the message do not overlap and lie in memory. */
    predicate Laid(n: nat, at: nat, length: nat) {
      && at + length <= n
      && (pseudoHeader.Some? ==>
            && pseudoHeader.value + PSEUDO_HEADER_SIZE <= n
            && (pseudoHeader.value + PSEUDO_HEADER_SIZE <= at || at + length <= pseudoHeader.value))
    }

    function Pseudo(memory: seq<byte>): (p: Option<seq<byte>>)
      requires pseudoHeader.Some? ==> pseudoHeader.value + PSEUDO_HEADER_SIZE <= |memory|
      ensures p.Some? ==> |p.value| == 40
    {
      match pseudoHeader
      case None => None
      case Some(at) => Some(memory[at..at + PSEUDO_HEADER_SIZE])
    }

    method CalcChecksum(memory: array<byte>, at: nat, length: nat) returns (r: uint16)
      requires Laid(memory.Length, at, length)
      ensures r == MessageChecksum(Pseudo(memory[..]), memory[at..at + length])
    {
      match pseudoHeader
      case None => r := IpCalcChecksum(memory, at, length);
      case Some(p) => r := IpCalcUpperLayerChecksum(memory, p, PSEUDO_HEADER_SIZE, at, length);
    }

    /** Formats the request and fills in its checksum. */
    method FormatRequest(memory: array<byte>)
      requires Laid(memory.Length, buffer, Length())
      modifies memory
      ensures memory[buffer..buffer + Length()] == Sealed(Pseudo(old(memory[..])),
        Echo(if pseudoHeader.Some? then 128 else 8, identifier, sequenceNumber, dataPayloadSize))
      ensures Elsewhere(old(memory[..]), memory[..])
    {
      hide Checksum, UpperLayer, Pattern, Pseudo, MessageChecksum;
      var kind := if pseudoHeader.Some? then ECHO_REQUEST_V6 else ECHO_REQUEST;
      WriteEcho(memory, kind);
      ghost var b := memory[buffer..buffer + Length()];
      assert WithWord(b, 2, 0) == b;
      var checksum := CalcChecksum(memory, buffer, Length());
      WriteChecksum(memory, checksum);
    }

    /** Nothing but the message has been written. */
    ghost predicate Elsewhere(m: seq<byte>, m': seq<byte>) {
      |m'| == |m| && forall x :: 0 <= x < |m| && !(buffer <= x < buffer + Length()) ==> m'[x] == m[x]
    }

    method WriteChecksum(memory: array<byte>, checksum: uint16)
      requires Laid(memory.Length, buffer, Length())
      modifies memory
      ensures Elsewhere(old(memory[..]), memory[..])
      ensures memory[buffer..buffer + Length()] == WithWord(old(memory[buffer..buffer + Length()]), 2, checksum)
    {
      memory[buffer + 2] := checksum % 256;
      memory[buffer + 3] := checksum / 256;
    }

    /** Writes the message with a checksum of zero. */
    method WriteEcho(memory: array<byte>, kind: byte)
      requires Laid(memory.Length, buffer, Length())
      modifies memory
      ensures memory[buffer..buffer + Length()] == Echo(kind, identifier, sequenceNumber, dataPayloadSize)
      ensures Pseudo(memory[..]) == Pseudo(old(memory[..]))
      ensures Elsewhere(old(memory[..]), memory[..])
    {
      hide Pattern;
      ghost var m := memory[..];
      WriteHeader(memory, buffer, kind, identifier, sequenceNumber);
      ghost var head := memory[buffer..buffer + HEADER_SIZE];
      WritePattern(memory, buffer + HEADER_SIZE, dataPayloadSize);
      assert memory[buffer..buffer + HEADER_SIZE] == head;
      assert memory[buffer..buffer + Length()] == head + memory[buffer + HEADER_SIZE..buffer + Length()];
      PseudoSame(m, memory[..]);
    }

    lemma PseudoSame(m: seq<byte>, m': seq<byte>)
      requires Laid(|m|, buffer, Length()) && Elsewhere(m, m')
      ensures Pseudo(m') == Pseudo(m)
    {
      if pseudoHeader.Some? {
        var at := pseudoHeader.value;
        var s, s' := m[at..at + PSEUDO_HEADER_SIZE], m'[at..at + PSEUDO_HEADER_SIZE];
        forall k | 0 <= k < |s| ensures s'[k] == s[k] {
          assert m'[at + k] == m[at + k];
        }
        assert s' == s;
      }
    }

    /** Decides whether a message is the reply that is waited for. */
    method CheckReply(memory: array<byte>, at: nat, length: nat) returns (error: Error)
      requires Laid(memory.Length, at, length)
      ensures error == NoError <==> Acceptable(Pseudo(memory[..]), memory[at..at + length])
      ensures error == NoError || error == InvalidMessage || error == TtlExceeded
      ensures error == TtlExceeded <==>
        length >= 4 && memory[at] == if pseudoHeader.Some? then 3 else 11
    {
      hide MessageChecksum, Pattern;
      ghost var b := memory[at..at + length];
      if length < 4 {
        return InvalidMessage;
      }
      assert b[0] == memory[at];
      if pseudoHeader.None? {
        if memory[at] != ECHO_REPLY {
          return if memory[at] == TIME_EXCEEDED then TtlExceeded else InvalidMessage;
        }
      } else {
        if memory[at] != ECHO_REPLY_V6 {
          return if memory[at] == TIME_EXCEEDED_V6 then TtlExceeded else InvalidMessage;
        }
      }
      var checksum := CalcChecksum(memory, at, length);
      if checksum != 0 {
        return InvalidMessage;
      }
      if length < HEADER_SIZE {
        return InvalidMessage;
      }
      ghost var body := Body(identifier, sequenceNumber, dataPayloadSize);
      assert forall k :: 0 <= k < length - 4 ==> b[4..][k] == memory[at + 4 + k];
      if memory[at + 4] != identifier / 256 || memory[at + 5] != identifier % 256 {
        assert b[4..][0] != body[0] || b[4..][1] != body[1];
        return InvalidMessage;
      }
      if memory[at + 6] != sequenceNumber / 256 || memory[at + 7] != sequenceNumber % 256 {
        assert b[4..][2] != body[2] || b[4..][3] != body[3];
        return InvalidMessage;
      }
      if length != Length() {
        return InvalidMessage;
      }
      for i := 0 to dataPayloadSize
        invariant forall k :: 0 <= k < i ==> memory[at + HEADER_SIZE + k] == k % 256
      {
        if memory[at + HEADER_SIZE + i] != i % 256 {
          assert b[4..][4 + i] != body[4 + i];
          return InvalidMessage;
        }
      }
      assert b[4..] == body;
      return NoError;
    }

    /** A reply to this request that checks out; its code does not matter. */
    predicate Acceptable(pseudo: Option<seq<byte>>, b: seq<byte>) {
      && |b| == Length()
      && b[0] == (if pseudoHeader.Some? then 129 else 0)
      && MessageChecksum(pseudo, b) == 0
      && b[4..] == Body(identifier, sequenceNumber, dataPayloadSize)
    }

    /** The reply that mirrors the request, with its own checksum, is accepted; with any other checksum,
        identifier or sequence number it is not. */
    lemma MirrorAccepted(pseudo: Option<seq<byte>>, id: uint16, number: uint16, x: uint16)
      requires pseudo.Some? <==> pseudoHeader.Some?
      requires pseudo.Some? ==> |pseudo.value| == PSEUDO_HEADER_SIZE
      ensures var kind := if pseudoHeader.Some? then ECHO_REPLY_V6 else ECHO_REPLY;
        var reply := Echo(kind, id, number, dataPayloadSize);
        && Acceptable(pseudo, Sealed(pseudo, Echo(kind, identifier, sequenceNumber, dataPayloadSize)))
        && (Acceptable(pseudo, WithWord(reply, 2, x)) ==>
              && id == identifier && number == sequenceNumber
              && (WithWord(reply, 2, x) == Sealed(pseudo, reply)
                  || (MessageChecksum(pseudo, reply) == 0 && x == 0xFFFF)))
    {
      hide Pattern, Checksum, UpperLayer;
      var kind := if pseudoHeader.Some? then ECHO_REPLY_V6 else ECHO_REPLY;
      var reply := Echo(kind, id, number, dataPayloadSize);
      SealedChecksOut(pseudo, Echo(kind, identifier, sequenceNumber, dataPayloadSize));
      EchoFields(kind, identifier, sequenceNumber, dataPayloadSize,
                 MessageChecksum(pseudo, Echo(kind, identifier, sequenceNumber, dataPayloadSize)));
      EchoFields(kind, id, number, dataPayloadSize, x);
      if Acceptable(pseudo, WithWord(reply, 2, x)) {
        BodyUnique(id, number, identifier, sequenceNumber, dataPayloadSize);
        OnlySealed(pseudo, reply, x);
      }
    }
  }

  /** Writes the header structure of an echo message. */
  method WriteHeader(memory: array<byte>, p: nat, kind: byte, id: uint16, number: uint16)
    requires p + HEADER_SIZE <= memory.Length
    modifies memory
    ensures memory[p..p + HEADER_SIZE] == [kind, 0, 0, 0] + [id / 256, id % 256, number / 256, number % 256]
    ensures forall x :: 0 <= x < memory.Length && !(p <= x < p + HEADER_SIZE) ==> memory[x] == old(memory[x])
  {
    memory[p] := kind;
    memory[p + 1] := 0;
    memory[p + 2] := 0;
    memory[p + 3] := 0;
    memory[p + 4] := id / 256;
    memory[p + 5] := id % 256;
    memory[p + 6] := number / 256;
    memory[p + 7] := number % 256;
  }

  /** Fills `n` bytes at `p` with the pattern. */
  method WritePattern(memory: array<byte>, p: nat, n: nat)
    requires p + n <= memory.Length
    modifies memory
    ensures memory[p..p + n] == Pattern(n)
    ensures forall x :: 0 <= x < memory.Length && !(p <= x < p + n) ==> memory[x] == old(memory[x])
  {
    for i := 0 to n
      invariant forall k :: 0 <= k < i ==> memory[p + k] == k % 256
      invariant forall x :: 0 <= x < memory.Length && !(p <= x < p + n) ==> memory[x] == old(memory[x])
    {
      memory[p + i] := i % 256;
    }
  }

  lemma EchoFields(kind: byte, id: uint16, number: uint16, n: nat, x: uint16)
    ensures var b := Echo(kind, id, number, n);
      && WithWord(b, 2, 0) == b
      && WithWord(b, 2, x)[0] == kind && WithWord(b, 2, x)[4..] == Body(id, number, n)
  {
    hide Pattern;
  }

  lemma BodyUnique(id: uint16, number: uint16, id': uint16, number': uint16, n: nat)
    requires Body(id, number, n) == Body(id', number', n)
    ensures id == id' && number == number'
  {
    hide Pattern;
    var b, b' := Body(id, number, n), Body(id', number', n);
    assert b[0] == b'[0] && b[1] == b'[1] && b[2] == b'[2] && b[3] == b'[3];
  }

  lemma SealedChecksOut(pseudo: Option<seq<byte>>, b: seq<byte>)
    requires |b| >= 4 && (pseudo.Some? ==> |pseudo.value| == PSEUDO_HEADER_SIZE)
    ensures MessageChecksum(pseudo, Sealed(pseudo, b)) == 0
  {
    hide Checksum, UpperLayer;
    FilledChecksOut(if pseudo.Some? then pseudo.value else [], b, 2);
  }

  /** Only the right checksum checks out, or the other zero for the right one zero. */
  lemma OnlySealed(pseudo: Option<seq<byte>>, b: seq<byte>, x: uint16)
    requires |b| >= 4 && WithWord(b, 2, 0) == b && (pseudo.Some? ==> |pseudo.value| == PSEUDO_HEADER_SIZE)
    requires MessageChecksum(pseudo, WithWord(b, 2, x)) == 0
    ensures x == MessageChecksum(pseudo, b) || (MessageChecksum(pseudo, b) == 0 && x == 0xFFFF)
  {
    hide OnesSum, UpperLayer;
    match pseudo
    case None => ChecksumExactly(b, 2, x);
    case Some(p) =>
      UpperLayerExactly(p, b);
      UpperLayerExactly(p, WithWord(b, 2, x));
      assert p + WithWord(b, 2, 0) == WithWord(p + b, |p| + 2, 0);
      assert p + WithWord(b, 2, x) == WithWord(p + b, |p| + 2, x);
      ChecksumExactly(p + b, |p| + 2, x);
  }
}
