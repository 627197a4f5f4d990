/** Block-wise transfer of bodies of any size: coap/coap_client_block.c. */
module BlockTransfer {
  import opened Common
  import opened MessageView
  import opened UintOption
  import opened WellFormedness
  import opened CoapMessages
  import opened BlockOption
  import opened MessageRoom
  import opened MessageUse
  import opened BlockUpload
  import opened BlockRoom
  import opened BlockDownload
  import opened BlockExchange

  const CODE_CLASS_SUCCESS := 2

  class CoapClientRequest {
    const message: CoapMessage
    const response: CoapMessage
    /** The other end, which may answer the requests sent so far in any way it likes. */
    const server: Server
    /** Every request sent, in order. */
    var log: seq<seq<byte>>
    /** Every payload write that succeeded, in order. */
    ghost var writes: seq<PayloadWrite>
    var mid: uint16
    var txBlockSzx: nat
    var rxBlockSzx: nat

    ghost predicate Valid()
      reads this, message, response
    {
      && message.Valid() && response.Valid()
      && message != response && message.buffer != response.buffer
      && txBlockSzx < 8 && rxBlockSzx < 8
    }

    /** A fresh confirmable GET request, whose message has a token and nothing else. */
    constructor (server: Server, token: seq<byte>, mid: uint16)
      requires |token| <= MAX_TOKEN_LEN
      ensures Valid() && fresh(message) && fresh(message.buffer) && fresh(response) && fresh(response.buffer)
      ensures log == [] && this.server == server
      ensures message.Bytes() == [0x40 + |token|, 0x01, 0x00, 0x00] + token
      ensures txBlockSzx == 6 && rxBlockSzx == SZX_RESERVED
    {
      message := new CoapMessage();
      response := new CoapMessage();
      this.server := server;
      this.log, this.writes := [], [];
      this.mid := mid;
      txBlockSzx := 6;
      rxBlockSzx := SZX_RESERVED;
      new;
      message.buffer[0] := 0x40 + |token|;
      message.buffer[1] := 0x01;
      message.buffer[2] := 0x00;
      message.buffer[3] := 0x00;
      forall i | 0 <= i < |token| {
        message.buffer[HEADER_SIZE + i] := token[i];
      }
      message.length := HEADER_SIZE + |token|;
    }

    /** Sets the preferred size of the blocks sent: any but the sizes of section 2.2 of RFC 7959 means the
        largest, 1024 bytes. */
    method SetTxBlockSize(blockSize: nat)
      requires Valid()
      modifies `txBlockSzx
      ensures Valid()
      ensures BlockSize(txBlockSzx) == if IsBlockSize(blockSize) then blockSize else 1024
    {
      txBlockSzx := SzxOfSize(blockSize);
    }

    method SetRxBlockSize(blockSize: nat)
      requires Valid()
      modifies `rxBlockSzx
      ensures Valid()
      ensures BlockSize(rxBlockSzx) == if IsBlockSize(blockSize) then blockSize else 1024
    {
      rxBlockSzx := SzxOfSize(blockSize);
    }

    /** One exchange: the request gets a new message ID and is sent, and its response is received; a datagram
        that cannot be read is discarded, and so no response. */
    method SendRequest() returns (error: Error)
      requires Valid() && message.length >= HEADER_SIZE
      modifies this`log, this`mid, message.buffer, response, response.buffer
      ensures Valid()
      ensures message.length == old(message.length)
      ensures message.Bytes()[..2] == old(message.Bytes()[..2]) && message.Bytes()[4..] == old(message.Bytes()[4..])
      ensures message.Bytes()[2..4] == [old(mid) / 256, old(mid) % 256] && mid == (old(mid) + 1) % 0x1_0000
      ensures log == old(log) + [message.Bytes()]
      ensures match server(log)
        case Failed => error == Timeout
        case Answered(bytes) =>
          if Readable(Clipped(bytes)) then error == NoError && response.pos == 0 && response.Bytes() == Buffered(bytes)
          else error == Timeout
      ensures error == if HeardTo(server, log, Reply(server, log)) then NoError else Timeout
      ensures error == NoError ==> response.Bytes() == Reply(server, log)
    {
      hide Decode, Buffered;
      message.buffer[2] := mid / 256;
      message.buffer[3] := mid % 256;
      mid := (mid + 1) % 0x1_0000;
      ghost var out := message.Bytes();
      log := log + [message.Bytes()];
      match server(log) {
        case Failed =>
          error := Timeout;
        case Answered(bytes) =>
          response.Receive(bytes);
          DecodeMessageErrors(response.Bytes());
          error := response.Parse();
          if error == NoError {
            response.Terminate();
            assert response.Bytes() == Buffered(bytes) by { BufferedMessage(bytes); }
          } else {
            error := Timeout;
          }
      }
      assert message.Bytes() == out;
    }

    /** The class of the response code. */
    method ResponseClass() returns (r: Result<nat>)
      requires Valid()
      ensures r == if response.length < HEADER_SIZE then Err(InvalidMessage) else Ok(response.Bytes()[1] / 32)
    {
      if response.length < HEADER_SIZE {
        return Err(InvalidMessage);
      }
      return Ok(response.buffer[1] / 32);
    }

    /** An exchange whose response must be one of success. */
    method SendAndCheck() returns (error: Error)
      requires Valid() && message.length >= HEADER_SIZE
      modifies this`log, this`mid, message.buffer, response, response.buffer
      ensures Valid()
      ensures message.length == old(message.length)
      ensures message.Bytes()[..2] == old(message.Bytes()[..2]) && message.Bytes()[4..] == old(message.Bytes()[4..])
      ensures log == old(log) + [message.Bytes()]
      ensures error == if Succeeded(server, log) then NoError else FailureOf(server, log)
      ensures error == NoError ==> response.pos == 0 && response.Bytes() == Reply(server, log)
    {
      hide Readable, Buffered, Clipped;
      error := SendRequest();
      if error != NoError {
        return;
      }
      ReplyHeader(server, log);
      var codeClass := ResponseClass();
      if codeClass.Err? {
        return InvalidMessage;
      }
      if codeClass.value != CODE_CLASS_SUCCESS {
        return InvalidStatus;
      }
    }

    /** The Block2 option of the next request: with the last block a preferred size is asked for, from the start of
        the response body. */
    ghost function Asks(b: seq<byte>, final: bool): Option<uint32>
      reads this
    {
      if final && rxBlockSzx < 7 then Some(rxBlockSzx) else UintOf(b, BLOCK2)
    }

    /** Describes the payload collected in the request message as the block at `blockPos`. */
    method PrepareBlock(blockPos: uint32, blockSzx: nat, final: bool) returns (error: Error)
      requires Valid() && WellFormed(message.Bytes()) && blockSzx < 8 && blockPos % BlockSize(blockSzx) == 0
      requires |ValuesOf(message.Bytes(), BLOCK1)| <= 1
      requires blockSzx == SzxOf(message.Bytes(), txBlockSzx)
      requires blockPos == 0 && final ==> UintOf(message.Bytes(), BLOCK1).None?
      modifies message, message.buffer
      ensures Valid()
      ensures error == NoError ==>
        var b := old(message.Bytes());
        && Prepared(b, message.Bytes(), blockPos, blockSzx, final, Asks(b, final), txBlockSzx)
        && (!final ==> KeepsBare(b, message.Bytes(), BLOCK1))
      ensures Lean(old(message.Bytes()), BLOCK1) && SizeOf(old(message.Bytes()), BLOCK1) + 12 <= MAX_MSG_SIZE ==>
        error == NoError && |message.Bytes()| <= SizeOf(old(message.Bytes()), BLOCK1) + 6
    {
      hide UintOf, PayloadOf, ValuesOf, WellFormed, SameRequest, BlockSize, SetBytes, BlockPos, BlockNum, SetNum,
           SetMore, SetSzx, Lean, Bare, Decode;
      ghost var b := message.Bytes();
      ghost var fits := Lean(b, BLOCK1) && SizeOf(b, BLOCK1) + 12 <= MAX_MSG_SIZE;
      if Lean(b, BLOCK1) {
        LeanSize(b, BLOCK1);
      }
      SameRequestReflexive(b);
      var value: uint32 := *;
      if blockPos > 0 || !final {
        FieldsWritten(value, blockPos, !final, blockSzx);
        value := SetNum(value, BlockNum(blockPos, blockSzx));
        value := SetMore(value, !final);
        value := SetSzx(value, blockSzx);
        error := message.SetUintOption(BLOCK1, 0, value);
        if fits {
          UintFits(b, BLOCK1, value);
        }
        if error != NoError {
          return;
        }
        SetUintUse(b, BLOCK1, value);
        if Lean(b, BLOCK1) {
          LeanSet(b, BLOCK1, value);
          LeanSize(message.Bytes(), BLOCK1);
        }
      }
      assert Prepared(b, message.Bytes(), blockPos, blockSzx, final, UintOf(b, BLOCK2), txBlockSzx);
      if final && rxBlockSzx < SZX_RESERVED {
        StartWritten(value, rxBlockSzx);
        value := SetNum(value, 0);
        value := SetMore(value, false);
        value := SetSzx(value, rxBlockSzx);
        ghost var p := message.Bytes();
        error := message.SetUintOption(BLOCK2, 0, value);
        if fits {
          UintFits(p, BLOCK2, value);
        }
        if error != NoError {
          return;
        }
        SetUintUse(p, BLOCK2, value);
        SameRequestTransitive(b, p, message.Bytes());
      }
      return NoError;
    }

    /** Checks the acknowledgment of the block just sent. */
    method CheckAcknowledgment(blockPos: uint32) returns (error: Error, value: uint32)
      requires Valid()
      ensures error == if AcknowledgesAt(response.Bytes(), blockPos) then NoError else AckFailure(response.Bytes())
      ensures error == NoError ==> UintOf(response.Bytes(), BLOCK1) == Some(value)
    {
      hide FindBytes, DecodeUint, BlockPos;
      value := 0;
      var ack := response.GetUintOption(BLOCK1, 0);
      if ack.Err? {
        return ack.error, value;
      }
      value := ack.value;
      if Szx(value) >= SZX_RESERVED {
        return Failure, value;
      }
      if BlockPos(value) != blockPos {
        return Failure, value;
      }
      return NoError, value;
    }

    /** Takes the acknowledgement of the block just sent, and moves on to the next position and size. */
    method Acknowledge(blockPos: uint32, blockSzx: nat) returns (error: Error)
      requires Valid() && WellFormed(message.Bytes()) && blockSzx < 8 && blockPos % BlockSize(blockSzx) == 0
      requires |ValuesOf(message.Bytes(), BLOCK1)| <= 1
      modifies message, message.buffer
      ensures Valid()
      ensures error == NoError ==>
        && WellFormed(message.Bytes()) && SameRequest(old(message.Bytes()), message.Bytes())
        && KeepsBare(old(message.Bytes()), message.Bytes(), BLOCK1)
        && |ValuesOf(message.Bytes(), BLOCK1)| == 1
        && UintOf(message.Bytes(), BLOCK1).Some?
        && UintOf(message.Bytes(), BLOCK2) == UintOf(old(message.Bytes()), BLOCK2)
        && AcknowledgesAt(response.Bytes(), blockPos)
        && SzxOf(message.Bytes(), txBlockSzx) == Min(blockSzx, Offered(response.Bytes()))
        && PosOf(message.Bytes()) == (blockPos + BlockSize(blockSzx)) % WORD
      ensures |old(message.Bytes())| + 6 <= MAX_MSG_SIZE ==>
        error == if AcknowledgesAt(response.Bytes(), blockPos) then NoError else AckFailure(response.Bytes())
    {
      hide UintOf, PayloadOf, ValuesOf, WellFormed, SameRequest, BlockSize, BlockPos, Lean, Bare, AckFailure, Szx;
      ghost var r := response.Bytes();
      var value;
      error, value := CheckAcknowledgment(blockPos);
      if error != NoError {
        return;
      }
      error := MoveOn(blockPos, blockSzx, value);
      assert response.Bytes() == r && Offered(r) == Szx(value);
    }

    /** Moves on to the next position, and to the size that the acknowledgment names if that is smaller. */
    method MoveOn(blockPos: uint32, blockSzx: nat, value0: uint32) returns (error: Error)
      requires Valid() && WellFormed(message.Bytes()) && blockSzx < 8 && blockPos % BlockSize(blockSzx) == 0
      requires |ValuesOf(message.Bytes(), BLOCK1)| <= 1
      modifies message, message.buffer
      ensures Valid()
      ensures error == NoError ==>
        && WellFormed(message.Bytes()) && SameRequest(old(message.Bytes()), message.Bytes())
        && KeepsBare(old(message.Bytes()), message.Bytes(), BLOCK1)
        && |ValuesOf(message.Bytes(), BLOCK1)| == 1
        && UintOf(message.Bytes(), BLOCK1).Some?
        && UintOf(message.Bytes(), BLOCK2) == UintOf(old(message.Bytes()), BLOCK2)
        && SzxOf(message.Bytes(), txBlockSzx) == Min(blockSzx, Szx(value0))
        && PosOf(message.Bytes()) == (blockPos + BlockSize(blockSzx)) % WORD
      ensures |old(message.Bytes())| + 6 <= MAX_MSG_SIZE ==> error == NoError
    {
      hide UintOf, PayloadOf, ValuesOf, WellFormed, SameRequest, BlockSize, SetBytes, BlockPos, BlockNum, SetNum,
           SetSzx, Lean, Bare;
      ghost var b := message.Bytes();
      var value := value0;
      var nextPos: uint32 := (blockPos + BlockSize(blockSzx)) % WORD;
      var nextSzx := if blockSzx > Szx(value) then Szx(value) else blockSzx;
      NextAlignedWord(blockPos, blockSzx, nextSzx);
      NumSzxWritten(value, nextPos, nextSzx);
      value := SetNum(value, BlockNum(nextPos, nextSzx));
      value := SetSzx(value, nextSzx);
      error := message.SetUintOption(BLOCK1, 0, value);
      if |b| + 6 <= MAX_MSG_SIZE {
        UintFits(b, BLOCK1, value);
      }
      if error == NoError {
        SetUintUse(b, BLOCK1, value);
        if Lean(b, BLOCK1) {
          LeanSet(b, BLOCK1, value);
        }
      }
    }

    /** Makes the request message ready for what follows the block just sent. */
    method FinishBlock(blockPos: uint32, blockSzx: nat, final: bool) returns (error: Error)
      requires Valid() && WellFormed(message.Bytes()) && blockSzx < 8 && blockPos % BlockSize(blockSzx) == 0
      requires |ValuesOf(message.Bytes(), BLOCK1)| <= 1
      modifies message, message.buffer
      ensures Valid()
      ensures error == NoError ==>
        && WellFormed(message.Bytes()) && SameRequest(old(message.Bytes()), message.Bytes())
        && PayloadOf(message.Bytes()) == []
        && UintOf(message.Bytes(), BLOCK2) == UintOf(old(message.Bytes()), BLOCK2)
        && (final ==> ValuesOf(message.Bytes(), BLOCK1) == [])
        && (!final ==>
              && KeepsBare(old(message.Bytes()), message.Bytes(), BLOCK1)
              && |ValuesOf(message.Bytes(), BLOCK1)| == 1
              && UintOf(message.Bytes(), BLOCK1).Some?
              && SzxOf(message.Bytes(), txBlockSzx) == Min(blockSzx, Offered(response.Bytes()))
              && PosOf(message.Bytes()) == (blockPos + BlockSize(blockSzx)) % WORD)
        && (blockPos > 0 || !final ==> AcknowledgesAt(response.Bytes(), blockPos))
      ensures |old(message.Bytes())| + 6 <= MAX_MSG_SIZE ==>
        error == if (blockPos > 0 || !final) && !AcknowledgesAt(response.Bytes(), blockPos)
                 then AckFailure(response.Bytes()) else NoError
    {
      hide UintOf, PayloadOf, ValuesOf, WellFormed, SameRequest, BlockSize, DeleteBytes, BlockPos, Lean, Bare,
           SameOptions;
      ghost var b := message.Bytes();
      SameRequestReflexive(b);
      if blockPos > 0 || !final {
        error := Acknowledge(blockPos, blockSzx);
        if error != NoError {
          return;
        }
      }
      ghost var acked := message.Bytes();
      var none := new byte[0];
      error := message.SetPayload(none, 0, 0);
      ClearUse(acked);
      if error != NoError {
        return;
      }
      ghost var cleared := message.Bytes();
      if Lean(acked, BLOCK1) {
        LeanOptions(acked, cleared, BLOCK1);
      }
      SameRequestTransitive(b, acked, cleared);
      if final {
        error := message.DeleteOption(BLOCK1, 0);
        DeleteUse(cleared, BLOCK1);
        SameRequestTransitive(b, cleared, message.Bytes());
      }
    }

    /** Makes the block ready, sends it and checks that the response is a success. */
    method Dispatch(blockPos: uint32, blockSzx: nat, final: bool) returns (error: Error)
      requires Valid() && WellFormed(message.Bytes()) && blockSzx < 8 && blockPos % BlockSize(blockSzx) == 0
      requires |ValuesOf(message.Bytes(), BLOCK1)| <= 1
      requires blockSzx == SzxOf(message.Bytes(), txBlockSzx)
      requires blockPos == 0 && final ==> UintOf(message.Bytes(), BLOCK1).None?
      modifies this`log, this`mid, message, message.buffer, response, response.buffer
      ensures Valid()
      ensures error == NoError ==>
        && log == old(log) + [message.Bytes()] && response.pos == 0
        && Succeeded(server, log) && response.Bytes() == Reply(server, log)
        && var b := old(message.Bytes());
        && Prepared(b, message.Bytes(), blockPos, blockSzx, final, Asks(b, final), txBlockSzx)
        && (!final ==> KeepsBare(b, message.Bytes(), BLOCK1))
      ensures Lean(old(message.Bytes()), BLOCK1) && SizeOf(old(message.Bytes()), BLOCK1) + 12 <= MAX_MSG_SIZE ==>
        && log == old(log) + [message.Bytes()]
        && |message.Bytes()| + 6 <= MAX_MSG_SIZE
        && error == if Succeeded(server, log) then NoError else FailureOf(server, log)
    {
      hide UintOf, PayloadOf, ValuesOf, WellFormed, SameRequest, BlockSize, BlockPos, Prepared, Bare, SameOptions,
           Succeeded, FailureOf, SizeOf;
      ghost var b := message.Bytes();
      error := PrepareBlock(blockPos, blockSzx, final);
      if error != NoError {
        return;
      }
      ghost var p := message.Bytes();
      PreparedAnyMid(b, p, blockPos, blockSzx, final, Asks(b, final), txBlockSzx);
      error := SendAndCheck();
      if Lean(p, BLOCK1) {
        MidUse(p, message.Bytes());
        LeanOptions(p, message.Bytes(), BLOCK1);
      }
    }

    /** Sends the block collected in the request message and makes the message ready for the next one. */
    method SendBlock(blockPos: uint32, blockSzx: nat, final: bool, ghost whole: bool,
                     ghost base: seq<byte>, ghost blocks: seq<seq<byte>>, ghost sent: seq<byte>) returns (error: Error)
      requires Valid() && Decode(message.Bytes()).Ok?
      requires Account(whole, base, message.Bytes(), blocks, sent, txBlockSzx) && |sent| < WORD
      requires blockPos == PosOf(message.Bytes()) && blockSzx == SzxOf(message.Bytes(), txBlockSzx)
      requires !final ==> |PayloadOf(message.Bytes())| == BlockSize(blockSzx)
      requires whole && final ==> KeepsLast(message.Bytes(), blocks, 0)
      modifies this`log, this`mid, message, message.buffer, response, response.buffer
      ensures Valid()
      ensures error == NoError ==>
        && |log| == |old(log)| + 1 && log[..|old(log)|] == old(log)
        && PayloadOf(message.Bytes()) == [] && response.pos == 0
        && Accepted(server, log) && response.Bytes() == Reply(server, log)
        && SzxOf(log[|old(log)|], txBlockSzx) == blockSzx
        && UintOf(message.Bytes(), BLOCK2) == Asks(old(message.Bytes()), final)
        && (!final ==>
              && SzxOf(message.Bytes(), txBlockSzx) == Min(blockSzx, Offered(Reply(server, log)))
              && Account(whole, base, message.Bytes(), blocks + [log[|old(log)|]], sent, txBlockSzx)
              && KeepsBare(old(message.Bytes()), message.Bytes(), BLOCK1))
        && (final ==>
              && (whole <==> Uploaded(base, blocks + [log[|old(log)|]], sent, txBlockSzx))
              && (whole ==> Uploading(base, message.Bytes(), [], [], txBlockSzx)))
      ensures Lean(old(message.Bytes()), BLOCK1) && SizeOf(old(message.Bytes()), BLOCK1) + 12 <= MAX_MSG_SIZE ==>
        && |log| == |old(log)| + 1 && log[..|old(log)|] == old(log)
        && error == if Accepted(server, log) then NoError else Rejection(server, log)
    {
      hide UintOf, PayloadOf, ValuesOf, WellFormed, SameRequest, BlockSize, Uploading, Uploaded, PosOf, SzxOf, Prepared,
           Account, KeepsLast, Lean, Bare, Decode, Succeeded, SizeOf, FailureOf, AcknowledgesAt, AckFailure, Offered,
           Reply;
      ghost var b := message.Bytes();
      AccountSteady(whole, base, b, blocks, sent, txBlockSzx);
      error := Dispatch(blockPos, blockSzx, final);
      if error != NoError {
        return;
      }
      ghost var out := message.Bytes();
      PreparedParts(b, out, blockPos, blockSzx, final, Asks(b, final), txBlockSzx);
      PreparedBlock(b, out, blockPos, blockSzx, final, Asks(b, final), txBlockSzx);
      error := FinishBlock(blockPos, blockSzx, final);
      if error == NoError {
        AccountSent(whole, base, b, blocks, sent, txBlockSzx, out, message.Bytes(), final, Asks(b, final));
      }
    }

    /** Position and size of the next block, and how much of it has been collected. */
    method NextBlock() returns (error: Error, blockPos: uint32, blockSzx: nat, payloadLen: nat)
      requires Valid()
      ensures blockPos == PosOf(message.Bytes()) && blockSzx == SzxOf(message.Bytes(), txBlockSzx)
      ensures error == NoError <==> Decode(message.Bytes()).Ok?
      ensures error == NoError ==> payloadLen == |PayloadOf(message.Bytes())|
    {
      hide UintOf, PayloadOf, FindBytes, Decode;
      blockPos, blockSzx, payloadLen := 0, txBlockSzx, 0;
      var block1 := FirstUint(message, BLOCK1);
      if block1.Some? {
        blockPos, blockSzx := BlockPos(block1.value), Szx(block1.value);
      }
      var payload := message.GetPayload();
      PayloadIs(message.Bytes());
      DecodeMessageErrors(message.Bytes());
      if payload.Err? {
        return payload.error, blockPos, blockSzx, 0;
      }
      return NoError, blockPos, blockSzx, payload.value.1;
    }

    /** Adds to the block being collected. The upload stays whole exactly when there is room for the zero
        behind the data. */
    method Collect(data: array<byte>, at: nat, n: nat, ghost whole: bool,
                   ghost base: seq<byte>, ghost blocks: seq<seq<byte>>, ghost sent: seq<byte>)
      returns (error: Error, ghost whole': bool)
      requires Valid() && at + n <= data.Length && data != message.buffer && 0 < n && Decode(message.Bytes()).Ok?
      requires Account(whole, base, message.Bytes(), blocks, sent, txBlockSzx)
      requires |PayloadOf(message.Bytes())| + n <= BlockSize(SzxOf(message.Bytes(), txBlockSzx))
      modifies this`writes, message, message.buffer
      ensures Valid()
      ensures whole' == (whole && WritesWhole(old(message.Bytes()), old(data[at..at + n])))
      ensures error == NoError ==>
        && writes == old(writes) + [PayloadWrite(old(message.Bytes()), old(data[at..at + n]))]
        && Account(whole', base, message.Bytes(), blocks, sent + old(data[at..at + n]), txBlockSzx)
        && (whole' ==>
              && PayloadOf(message.Bytes()) != []
              && UintOf(message.Bytes(), BLOCK2) == UintOf(old(message.Bytes()), BLOCK2)
              && SzxOf(message.Bytes(), txBlockSzx) == SzxOf(old(message.Bytes()), txBlockSzx)
              && KeepsBare(old(message.Bytes()), message.Bytes(), BLOCK1))
      ensures whole && Roomy(old(message.Bytes()), txBlockSzx) ==> whole' && error == NoError
    {
      hide UintOf, PayloadOf, WellFormed, SameRequest, BlockSize, Uploading, AskedPos, WritePayloadBytes, Spoiled,
           WritesWhole, Decode, Lean, Bare, SameOptions;
      ghost var b := message.Bytes();
      whole' := whole && WritesWhole(b, data[at..at + n]);
      if whole && Roomy(b, txBlockSzx) {
        UploadingSizes(base, b, blocks, sent, txBlockSzx);
        RoomyWrites(b, data[at..at + n], txBlockSzx, SzxOf(b, txBlockSzx));
      }
      error := message.WritePayload(data, at, n);
      if error == NoError {
        writes := writes + [PayloadWrite(b, data[at..at + n])];
        AccountWrite(whole, base, b, blocks, sent, data[at..at + n], txBlockSzx);
        if whole' {
          AfterWrite(base, b, blocks, sent, data[at..at + n], txBlockSzx);
          UploadingSizes(base, b, blocks, sent, txBlockSzx);
          WriteUse(b, data[at..at + n]);
          if Lean(b, BLOCK1) {
            LeanOptions(b, message.Bytes(), BLOCK1);
          }
        }
      }
    }

    /** One turn of the loop below: collects `n` bytes, or sends the block collected; the upload is `done` when
        that was the last. */
    method WriteSome(data: array<byte>, at: nat, length: nat, last: bool, ghost whole: bool,
                     ghost base: seq<byte>, ghost blocks: seq<seq<byte>>, ghost sent: seq<byte>)
      returns (error: Error, n: nat, done: bool, ghost whole': bool)
      requires Valid() && at + length <= data.Length && data != message.buffer && data != response.buffer
      requires Account(whole, base, message.Bytes(), blocks, sent, txBlockSzx)
      requires whole ==> KeepsLast(message.Bytes(), blocks, length)
      requires |sent| + length < WORD && (length > 0 || last)
      modifies this`log, this`mid, this`writes, message, message.buffer, response, response.buffer
      ensures Valid() && n <= length
      ensures whole && Roomy(old(message.Bytes()), txBlockSzx) ==> whole'
      ensures error == NoError ==>
        && |log| >= |old(log)| && log[..|old(log)|] == old(log)
        && |writes| >= |old(writes)| && writes[..|old(writes)|] == old(writes)
        && whole' == (whole && AllWhole(writes[|old(writes)|..]))
        && AllAccepted(server, log, |old(log)|)
        && (whole' ==>
              && UintOf(message.Bytes(), BLOCK2) == Asks(old(message.Bytes()), done)
              && var szx := SzxOf(old(message.Bytes()), txBlockSzx);
              && Negotiated(server, log, |old(log)|, szx, txBlockSzx)
              && (!done ==>
                    SzxOf(message.Bytes(), txBlockSzx) == Size(server, log, |old(log)|, |log|, szx, txBlockSzx)))
        && (!done ==>
              && Account(whole', base, message.Bytes(), blocks + log[|old(log)|..], sent + data[at..at + n], txBlockSzx)
              && (whole' ==> KeepsLast(message.Bytes(), blocks + log[|old(log)|..], length - n))
              && (whole' ==> KeepsBare(old(message.Bytes()), message.Bytes(), BLOCK1))
              && (n > 0 || |PayloadOf(message.Bytes())| < |PayloadOf(old(message.Bytes()))|))
        && (done ==>
              && length == 0 && n == 0 && last
              && (whole' <==> Uploaded(base, blocks + log[|old(log)|..], sent, txBlockSzx))
              && (whole' ==> Uploading(base, message.Bytes(), [], [], txBlockSzx))
              && response.pos == 0 && response.Bytes() == Reply(server, log) && |log| > |old(log)|)
      ensures error != NoError && whole && Spacious(old(message.Bytes()), txBlockSzx) ==>
        && |log| == |old(log)| + 1 && log[..|old(log)|] == old(log)
        && !Accepted(server, log) && error == Rejection(server, log)
    {
      hide UintOf, PayloadOf, ValuesOf, WellFormed, SameRequest, BlockSize, Uploading, Uploaded, AskedPos, Spoiled,
           WritesWhole, Lean, Bare, Decode, AllWhole, Accepted, AllAccepted, Negotiated, Size, SzxOf, Offered, Reply,
           SizeOf, Rejection, Account, Spacious, Roomy, KeepsBare;
      ghost var b, before, beforeWrite := message.Bytes(), |log|, |writes|;
      n, done, whole' := 0, false, whole;
      NothingSent(server, log, SzxOf(b, txBlockSzx), txBlockSzx);
      if whole {
        AccountReady(base, b, blocks, sent, txBlockSzx);
      }
      var blockPos, blockSzx, payloadLen;
      error, blockPos, blockSzx, payloadLen := NextBlock();
      if error != NoError {
        return;
      }
      AccountSteady(whole, base, b, blocks, sent, txBlockSzx);
      NoneWritten();
      if length > 0 && payloadLen < BlockSize(blockSzx) {
        n := Min(length, BlockSize(blockSzx) - payloadLen);
        error, whole' := Collect(data, at, n, whole, base, blocks, sent);
        if error == NoError {
          AllWholeStep([], writes[beforeWrite]);
          assert writes[beforeWrite..] == [] + [writes[beforeWrite]];
          assert blocks + log[before..] == blocks;
        }
      } else {
        done := length == 0 && last;
        error := SendBlock(blockPos, blockSzx, done, whole, base, blocks, sent);
        if error == NoError {
          OneAccepted(server, log);
          OneNegotiated(server, log, SzxOf(b, txBlockSzx), txBlockSzx);
          assert writes[beforeWrite..] == [];
          assert log[before..] == [log[before]] && sent + data[at..at + n] == sent;
        }
      }
    }

    /** What a call has done since the log was `first` and the writes `firstWrite` long, and the request message `b0`:
        an upload that was `whole0` then is `whole` now, or `done`, and `length` bytes are still to be written. */
    ghost predicate Written(whole: bool, done: bool, b0: seq<byte>, whole0: bool, base: seq<byte>,
                            blocks: seq<seq<byte>>, sent: seq<byte>, length: nat, first: nat, firstWrite: nat)
      requires txBlockSzx < 8
      reads this, message, message.buffer, response, response.buffer
      requires message.Valid() && response.Valid()
    {
      && first <= |log| && firstWrite <= |writes|
      && whole == (whole0 && AllWhole(writes[firstWrite..]))
      && AllAccepted(server, log, first)
      && (whole ==>
            && UintOf(message.Bytes(), BLOCK2) == Asks(b0, done)
            && var szx := SzxOf(b0, txBlockSzx);
            && Negotiated(server, log, first, szx, txBlockSzx)
            && (!done ==> SzxOf(message.Bytes(), txBlockSzx) == Size(server, log, first, |log|, szx, txBlockSzx)))
      && (!done ==>
            && Account(whole, base, message.Bytes(), blocks + log[first..], sent, txBlockSzx)
            && (whole ==> KeepsLast(message.Bytes(), blocks + log[first..], length))
            && (whole ==> KeepsBare(b0, message.Bytes(), BLOCK1)))
      && (done ==>
            && length == 0
            && (whole <==> Uploaded(base, blocks + log[first..], sent, txBlockSzx))
            && (whole ==> Uploading(base, message.Bytes(), [], [], txBlockSzx))
            && response.pos == 0 && response.Bytes() == Reply(server, log) && |log| > first)
    }

    lemma NothingWritten(whole: bool, base: seq<byte>, blocks: seq<seq<byte>>, sent: seq<byte>, length: nat)
      requires Valid() && Account(whole, base, message.Bytes(), blocks, sent, txBlockSzx)
      requires whole ==> KeepsLast(message.Bytes(), blocks, 0)
      ensures Written(whole, false, message.Bytes(), whole, base, blocks, sent, length, |log|, |writes|)
    {
      hide UintOf, PayloadOf, ValuesOf, WellFormed, SameRequest, BlockSize, Uploading, Uploaded, Spoiled, WritesWhole,
           Lean, Bare, Decode, AllWhole, Accepted, AllAccepted, Negotiated, Size, SzxOf, Reply;
      NothingSent(server, log, SzxOf(message.Bytes(), txBlockSzx), txBlockSzx);
      NoneWritten();
      assert blocks + log[|log|..] == blocks && writes[|writes|..] == [];
    }

    lemma WrittenParts(whole: bool, done: bool, b0: seq<byte>, whole0: bool, base: seq<byte>, blocks: seq<seq<byte>>,
                       sent: seq<byte>, length: nat, first: nat, firstWrite: nat)
      requires Valid() && Written(whole, done, b0, whole0, base, blocks, sent, length, first, firstWrite)
      ensures first <= |log| && firstWrite <= |writes| && AllAccepted(server, log, first)
      ensures whole == (whole0 && AllWhole(writes[firstWrite..]))
      ensures whole ==>
        && UintOf(message.Bytes(), BLOCK2) == Asks(b0, done)
        && Negotiated(server, log, first, SzxOf(b0, txBlockSzx), txBlockSzx)
        && (!done ==>
              SzxOf(message.Bytes(), txBlockSzx) == Size(server, log, first, |log|, SzxOf(b0, txBlockSzx), txBlockSzx))
      ensures !done ==>
        && Account(whole, base, message.Bytes(), blocks + log[first..], sent, txBlockSzx)
        && (whole ==> KeepsLast(message.Bytes(), blocks + log[first..], length))
        && (whole ==> KeepsBare(b0, message.Bytes(), BLOCK1))
      ensures done ==>
        && length == 0
        && (whole <==> Uploaded(base, blocks + log[first..], sent, txBlockSzx))
        && (whole ==> Uploading(base, message.Bytes(), [], [], txBlockSzx))
        && response.pos == 0 && response.Bytes() == Reply(server, log) && |log| > first
    {
      hide UintOf, PayloadOf, ValuesOf, WellFormed, SameRequest, BlockSize, Uploading, Uploaded, Spoiled, WritesWhole,
           Lean, Bare, Decode, AllWhole, Accepted, AllAccepted, Negotiated, Size, SzxOf, Reply;
    }

    /** One turn of the loop below, accounted for from the beginning of the call. */
    method WriteMore(data: array<byte>, at: nat, length: nat, last: bool, ghost whole1: bool, ghost b0: seq<byte>,
                     ghost whole0: bool, ghost base: seq<byte>, ghost blocks: seq<seq<byte>>, ghost sent: seq<byte>,
                     ghost first: nat, ghost firstWrite: nat)
      returns (error: Error, n: nat, done: bool, ghost whole: bool)
      requires Valid() && at + length <= data.Length && data != message.buffer && data != response.buffer
      requires Written(whole1, false, b0, whole0, base, blocks, sent, length, first, firstWrite)
      requires |sent| + length < WORD && (length > 0 || last)
      modifies this`log, this`mid, this`writes, message, message.buffer, response, response.buffer
      ensures Valid() && n <= length && (error == NoError && done ==> last)
      ensures whole1 && Roomy(b0, txBlockSzx) ==> whole
      ensures error == NoError ==>
        && |log| >= |old(log)| && log[..|old(log)|] == old(log)
        && |writes| >= |old(writes)| && writes[..|old(writes)|] == old(writes)
        && Written(whole, done, b0, whole0, base, blocks, sent + data[at..at + n], length - n, first, firstWrite)
        && (done || n > 0 || |PayloadOf(message.Bytes())| < |PayloadOf(old(message.Bytes()))|)
      ensures error != NoError && whole1 && Spacious(b0, txBlockSzx) ==>
        && |log| == |old(log)| + 1 && log[..|old(log)|] == old(log)
        && AllAccepted(server, old(log), first)
        && !Accepted(server, log) && error == Rejection(server, log)
    {
      hide UintOf, PayloadOf, ValuesOf, WellFormed, SameRequest, BlockSize, Uploading, Uploaded, Spoiled, WritesWhole,
           Lean, Bare, Decode, AllWhole, Accepted, AllAccepted, Negotiated, Size, SzxOf, Reply, Rejection;
      ghost var sentBlocks, earlier := blocks + log[first..], writes[firstWrite..];
      ghost var log1, beforeWrite, szx := log, |writes|, SzxOf(b0, txBlockSzx);
      error, n, done, whole := WriteSome(data, at, length, last, whole1, base, sentBlocks, sent);
      if error == NoError {
        AcceptedSince(server, log1, log, first);
        if whole {
          NegotiatedSince(server, log1, log, first, szx, txBlockSzx);
        }
        AllWholeConcat(earlier, writes[beforeWrite..]);
        assert earlier + writes[beforeWrite..] == writes[firstWrite..];
        assert sentBlocks + log[|log1|..] == blocks + log[first..];
        assert done ==> sent + data[at..at + n] == sent;
      }
    }

    /** Writes part of a body. Blocks are sent as they fill up; the last part also sends what is left.
        `base` is the request message as it was when the upload began, `blocks` are the requests sent for
        it so far, and `sent` is the data written to it so far, all of it as long as the upload is `whole`: a
        write that fills the buffer may lose data and succeed, which a request with room to spare rules out.
        The response to the last part can be read from its start unless the message still asks for another
        position, which a request that has been used for a download does when no size is preferred for the
        blocks received. */
    method WriteBody(data: array<byte>, at0: nat, length0: nat, last: bool, ghost whole0: bool,
                     ghost base: seq<byte>, ghost blocks: seq<seq<byte>>, ghost sent: seq<byte>)
      returns (error: Error, written: nat, ghost whole: bool)
      requires Valid() && at0 + length0 <= data.Length && data != message.buffer && data != response.buffer
      requires Account(whole0, base, message.Bytes(), blocks, sent, txBlockSzx)
      requires whole0 ==> KeepsLast(message.Bytes(), blocks, 0)
      requires |sent| + length0 < WORD
      modifies this`log, this`mid, this`writes, message, message.buffer, response, response.buffer
      ensures Valid()
      ensures whole0 && Roomy(old(message.Bytes()), txBlockSzx) ==> whole
      ensures error == NoError ==>
        && written == length0
        && |writes| >= |old(writes)| && writes[..|old(writes)|] == old(writes)
        && whole == (whole0 && AllWhole(writes[|old(writes)|..]))
        && |log| >= |old(log)| && log[..|old(log)|] == old(log)
        && AllAccepted(server, log, |old(log)|)
        && (whole ==>
              && UintOf(message.Bytes(), BLOCK2) == Asks(old(message.Bytes()), last)
              && var szx := SzxOf(old(message.Bytes()), txBlockSzx);
              && Negotiated(server, log, |old(log)|, szx, txBlockSzx)
              && (!last ==>
                    SzxOf(message.Bytes(), txBlockSzx) == Size(server, log, |old(log)|, |log|, szx, txBlockSzx)))
        && var sent' := sent + data[at0..at0 + length0];
        && (!last ==>
              && Account(whole, base, message.Bytes(), blocks + log[|old(log)|..], sent', txBlockSzx)
              && (whole ==> KeepsLast(message.Bytes(), blocks + log[|old(log)|..], 0))
              && (whole ==> KeepsBare(old(message.Bytes()), message.Bytes(), BLOCK1)))
        && (last ==>
              && (whole <==> Uploaded(base, blocks + log[|old(log)|..], sent', txBlockSzx))
              && (whole ==> Uploading(base, message.Bytes(), [], [], txBlockSzx))
              && response.pos == 0 && response.Bytes() == Reply(server, log) && |log| > |old(log)|
              && (whole && AskedPos(message.Bytes()) == 0 ==>
                    Downloading(message.Bytes(), [], response.Bytes(), 0, [])))
      ensures error != NoError && whole0 && Spacious(old(message.Bytes()), txBlockSzx) ==>
        && |log| > |old(log)| && log[..|old(log)|] == old(log)
        && AllAccepted(server, log[..|log| - 1], |old(log)|)
        && !Accepted(server, log) && error == Rejection(server, log)
    {
      hide UintOf, PayloadOf, ValuesOf, WellFormed, SameRequest, BlockSize, Uploading, Uploaded, Downloading, AskedPos,
           Spoiled, WritesWhole, Lean, Bare, Decode, AllWhole, Accepted, AllAccepted, Negotiated, Size, SzxOf, Reply,
           Rejection, CoapClientRequest.Written, Account, Roomy, Spacious, KeepsLast, KeepsBare, SizeOf,
           CoapClientRequest.Asks;
      error, written, whole := NoError, 0, whole0;
      var at: nat, length: nat, done := at0, length0, false;
      ghost var first, firstWrite, b0 := |log|, |writes|, message.Bytes();
      NothingWritten(whole, base, blocks, sent, length0);
      if Spacious(b0, txBlockSzx) {
        SpaciousIsRoomy(b0, txBlockSzx);
      }
      assert sent + data[at0..at] == sent;
      while !done && (length > 0 || last)
        invariant Valid() && unchanged(data) && error == NoError && (done ==> last)
        invariant at0 <= at && at + length == at0 + length0 && written == at - at0
        invariant firstWrite <= |writes| && writes[..firstWrite] == old(writes)
        invariant first <= |log| && log[..first] == old(log)
        invariant whole0 && Roomy(b0, txBlockSzx) ==> whole
        invariant Written(whole, done, b0, whole0, base, blocks, sent + data[at0..at], length, first, firstWrite)
        decreases !done, length, |PayloadOf(message.Bytes())|
      {
        ghost var sentData, log1 := sent + data[at0..at], log;
        var n;
        error, n, done, whole := WriteMore(data, at, length, last, whole, b0, whole0, base, blocks, sentData, first,
                                           firstWrite);
        if error != NoError {
          assert |log| == |log1| + 1 ==> log[..|log| - 1] == log[..|log1|];
          return;
        }
        StretchesJoin(data, at0, at, at + n);
        ConcatAssoc(sent, data[at0..at], data[at..at + n]);
        at, length, written := at + n, length - n, written + n;
      }
      WrittenParts(whole, done, b0, whole0, base, blocks, sent + data[at0..at], length, first, firstWrite);
      if done && whole && AskedPos(message.Bytes()) == 0 {
        ReadyToDownload(base, message.Bytes(), txBlockSzx);
        StartDownload(message.Bytes(), response.Bytes());
      }
    }

    /** Asks for the block behind the response that has been read to its end, or finds that it was the last. */
    method NextResponse() returns (error: Error)
      requires Valid() && WellFormed(message.Bytes())
      modifies this`log, this`mid, message, message.buffer, response, response.buffer
      ensures Valid() && |log| >= |old(log)| && log[..|old(log)|] == old(log)
      ensures error == EndOfStream <==> IsEnd(old(response.Bytes()), AskedPos(old(message.Bytes())))
      ensures !IsFullBlock(old(response.Bytes()), AskedPos(old(message.Bytes()))) || error == EndOfStream ==>
        && error != NoError
        && message.Bytes() == old(message.Bytes()) && response.Bytes() == old(response.Bytes())
        && response.pos == old(response.pos) && log == old(log)
      ensures IsFullBlock(old(response.Bytes()), AskedPos(old(message.Bytes()))) && HasRoom(old(message.Bytes())) ==>
        && log == old(log) + [message.Bytes()] && HasRoom(message.Bytes())
        && error == if Succeeded(server, log) then NoError else FailureOf(server, log)
      ensures error == NoError ==>
        && IsFullBlock(old(response.Bytes()), AskedPos(old(message.Bytes())))
        && WellFormed(message.Bytes()) && SameRequest(old(message.Bytes()), message.Bytes())
        && log == old(log) + [message.Bytes()] && response.pos == 0
        && Succeeded(server, log) && response.Bytes() == Reply(server, log)
        && AskedPos(message.Bytes()) == (AskedPos(old(message.Bytes())) + |PayloadOf(old(response.Bytes()))|) % WORD
        && AsksBehind(message.Bytes(), old(response.Bytes()), AskedPos(message.Bytes()),
                      AskedSzx(old(message.Bytes()), rxBlockSzx))
    {
      hide UintOf, PayloadOf, WellFormed, SameRequest, BlockSize, BlockPos, Succeeded, FailureOf, Reply, HasRoom;
      var blockPos, blockSzx, check, value := CheckResponse();
      if check != NoError {
        return check;
      }
      error := AskNext(blockPos, blockSzx, value);
    }

    /** Checks the block description of the response that has been read to its end. */
    method CheckResponse() returns (blockPos: uint32, blockSzx: nat, error: Error, value: uint32)
      requires Valid()
      ensures blockPos == AskedPos(message.Bytes()) && blockSzx == AskedSzx(message.Bytes(), rxBlockSzx) < 8
      ensures error == EndOfStream <==> IsEnd(response.Bytes(), blockPos)
      ensures error == NoError <==> IsFullBlock(response.Bytes(), blockPos)
      ensures error == NoError ==> UintOf(response.Bytes(), BLOCK2) == Some(value)
    {
      hide UintOf, PayloadOf, BlockSize, BlockPos, FindBytes;
      blockPos, blockSzx, value := 0, rxBlockSzx, 0;
      var asked := FirstUint(message, BLOCK2);
      if asked.Some? {
        blockPos, blockSzx := BlockPos(asked.value), Szx(asked.value);
      }
      var block2 := FirstUint(response, BLOCK2);
      if block2.None? {
        error := if blockPos == 0 then EndOfStream else Failure;
        return;
      }
      value := block2.value;
      if Szx(value) >= SZX_RESERVED || BlockPos(value) != blockPos {
        error := Failure;
        return;
      }
      if !More(value) {
        error := EndOfStream;
        return;
      }
      var payload := response.GetPayload();
      PayloadIs(response.Bytes());
      if payload.Err? {
        DecodeMessageErrors(response.Bytes());
        error := payload.error;
        return;
      }
      error := if payload.value.1 != BlockSize(Szx(value)) then Failure else NoError;
    }

    /** Asks for the block behind the one described by `value`. */
    method AskNext(blockPos: uint32, blockSzx0: nat, value0: uint32) returns (error: Error)
      requires Valid() && WellFormed(message.Bytes()) && blockSzx0 < 8
      requires UintOf(response.Bytes(), BLOCK2) == Some(value0) && BlockPos(value0) == blockPos
      modifies this`log, this`mid, message, message.buffer, response, response.buffer
      ensures Valid() && |log| >= |old(log)| && log[..|old(log)|] == old(log)
      ensures error != EndOfStream
      ensures error == NoError ==>
        && WellFormed(message.Bytes()) && SameRequest(old(message.Bytes()), message.Bytes())
        && log == old(log) + [message.Bytes()] && response.pos == 0
        && Succeeded(server, log) && response.Bytes() == Reply(server, log)
        && AskedPos(message.Bytes()) == (blockPos + BlockSize(Szx(value0))) % WORD
        && AsksBehind(message.Bytes(), old(response.Bytes()), AskedPos(message.Bytes()), blockSzx0)
      ensures HasRoom(old(message.Bytes())) ==>
        && log == old(log) + [message.Bytes()] && HasRoom(message.Bytes())
        && error == if Succeeded(server, log) then NoError else FailureOf(server, log)
    {
      hide UintOf, PayloadOf, ValuesOf, WellFormed, SameRequest, BlockSize, BlockPos, BlockNum, SetNum, SetMore,
           SetSzx, SetBytes, Lean, SizeOf, Succeeded, Reply, Decode;
      ghost var b := message.Bytes();
      var blockSzx := if blockSzx0 > Szx(value0) then Szx(value0) else blockSzx0;
      var nextPos: uint32 := (blockPos + BlockSize(Szx(value0))) % WORD;
      PosAligned(value0);
      NextAlignedWord(blockPos, Szx(value0), blockSzx);
      FieldsWritten(value0, nextPos, false, blockSzx);
      var value := SetNum(value0, BlockNum(nextPos, blockSzx));
      value := SetMore(value, false);
      value := SetSzx(value, blockSzx);
      error := message.SetUintOption(BLOCK2, 0, value);
      SetUintErrors(b, BLOCK2, value);
      if HasRoom(b) {
        LeanSize(b, BLOCK2);
        UintFits(b, BLOCK2, value);
        LeanSet(b, BLOCK2, value);
      }
      if error != NoError {
        return;
      }
      SetUintUse(b, BLOCK2, value);
      ghost var p := message.Bytes();
      WellFormedLength(p);
      error := SendAndCheck();
      MidUse(p, message.Bytes());
      if HasRoom(b) {
        LeanOptions(p, message.Bytes(), BLOCK2);
        SameSize(p, message.Bytes(), BLOCK2);
      }
      SameRequestTransitive(b, p, message.Bytes());
    }

    /** A caller that writes a body in parts of any size, however the data is cut up and whatever the server
        answers: the upload it makes is the whole body exactly when there was room for the zero behind the data
        of each write, which a request with room to spare makes sure of. */
    method UploadInParts(data: array<byte>, cuts: seq<nat>) returns (error: Error)
      requires Valid() && data != message.buffer && data != response.buffer && data.Length < WORD
      requires forall i :: 0 <= i < |cuts| ==> cuts[i] <= data.Length
      requires forall i, j :: 0 <= i < j < |cuts| ==> cuts[i] <= cuts[j]
      requires Uploading(message.Bytes(), message.Bytes(), [], [], txBlockSzx)
      modifies this`log, this`mid, this`writes, message, message.buffer, response, response.buffer
      ensures Valid()
      ensures error == NoError ==>
        && |log| >= |old(log)| && log[..|old(log)|] == old(log)
        && |writes| >= |old(writes)| && writes[..|old(writes)|] == old(writes)
        && response.pos == 0 && response.Bytes() == Reply(server, log)
        && |log| > |old(log)| && AllAccepted(server, log, |old(log)|)
        && var uploaded := Uploaded(old(message.Bytes()), log[|old(log)|..], data[..], txBlockSzx);
        && (uploaded <==> AllWhole(writes[|old(writes)|..]))
        && (Roomy(old(message.Bytes()), txBlockSzx) ==> uploaded)
        && (uploaded ==>
              && Negotiated(server, log, |old(log)|, txBlockSzx, txBlockSzx)
              && UintOf(message.Bytes(), BLOCK2) == Asks(old(message.Bytes()), true)
              && (AskedPos(message.Bytes()) == 0 ==> Downloading(message.Bytes(), [], response.Bytes(), 0, [])))
      ensures error != NoError && Spacious(old(message.Bytes()), txBlockSzx) ==>
        && |log| > |old(log)| && log[..|old(log)|] == old(log)
        && AllAccepted(server, log[..|log| - 1], |old(log)|)
        && !Accepted(server, log) && error == Rejection(server, log)
    {
      hide Uploading, Uploaded, Downloading, UintOf, PayloadOf, AskedPos, Spoiled, AllWhole, Lean, Bare, Accepted,
           AllAccepted, Negotiated, Size, SzxOf, Reply, Rejection;
      ghost var base, first, firstWrite := message.Bytes(), |log|, |writes|;
      var at: nat, written := 0, 0;
      ghost var whole := true;
      FreshSize(base, txBlockSzx);
      NothingSent(server, log, txBlockSzx, txBlockSzx);
      assert [] + log[first..] == [] && data[..0] == [] && writes[firstWrite..] == [];
      NoneWritten();
      for i := 0 to |cuts|
        invariant Valid() && at <= data.Length && unchanged(data)
        invariant forall j :: i <= j < |cuts| ==> at <= cuts[j]
        invariant |log| >= first && log[..first] == old(log)
        invariant firstWrite <= |writes| && writes[..firstWrite] == old(writes)
        invariant Roomy(base, txBlockSzx) ==> whole
        invariant Written(whole, false, base, true, base, [], data[..at], 0, first, firstWrite)
      {
        error, written, whole := WritePart(data, at, cuts[i] - at, false, whole, base, first, firstWrite);
        if error != NoError {
          return;
        }
        at := cuts[i];
      }
      error, written, whole := WritePart(data, at, data.Length - at, true, whole, base, first, firstWrite);
      if error == NoError {
        assert data[..data.Length] == data[..] && [] + log[first..] == log[first..];
      }
    }

    /** One of these parts, accounted for from the beginning. */
    method WritePart(data: array<byte>, at: nat, length: nat, last: bool, ghost whole1: bool, ghost base: seq<byte>,
                     ghost first: nat, ghost firstWrite: nat)
      returns (error: Error, written: nat, ghost whole: bool)
      requires Valid() && at + length <= data.Length < WORD && data != message.buffer && data != response.buffer
      requires Written(whole1, false, base, true, base, [], data[..at], 0, first, firstWrite)
      requires Roomy(base, txBlockSzx) ==> whole1
      modifies this`log, this`mid, this`writes, message, message.buffer, response, response.buffer
      ensures Valid()
      ensures Roomy(base, txBlockSzx) ==> whole
      ensures error == NoError ==>
        && |log| >= |old(log)| && log[..|old(log)|] == old(log)
        && |writes| >= |old(writes)| && writes[..|old(writes)|] == old(writes)
        && Written(whole, last, base, true, base, [], data[..at + length], 0, first, firstWrite)
        && (last && whole && AskedPos(message.Bytes()) == 0 ==>
              Downloading(message.Bytes(), [], response.Bytes(), 0, []))
      ensures error != NoError && Spacious(base, txBlockSzx) ==>
        && |log| > |old(log)| && log[..|old(log)|] == old(log)
        && AllAccepted(server, log[..|log| - 1], first)
        && !Accepted(server, log) && error == Rejection(server, log)
    {
      hide Uploading, Uploaded, Downloading, UintOf, PayloadOf, AskedPos, Spoiled, AllWhole, Lean, Bare, Accepted,
           AllAccepted, Negotiated, Size, SzxOf, Reply, Rejection;
      ghost var blocks, earlier := [] + log[first..], writes[firstWrite..];
      ghost var log1, beforeWrite, szx := log, |writes|, SzxOf(base, txBlockSzx);
      if Spacious(base, txBlockSzx) {
        SpaciousIsRoomy(base, txBlockSzx);
      }
      error, written, whole := WriteBody(data, at, length, last, whole1, base, blocks, data[..at]);
      if error == NoError {
        AcceptedSince(server, log1, log, first);
        if whole {
          NegotiatedSince(server, log1, log, first, szx, txBlockSzx);
        }
        AllWholeConcat(earlier, writes[beforeWrite..]);
        assert earlier + writes[beforeWrite..] == writes[firstWrite..];
        assert blocks + log[|log1|..] == [] + log[first..];
        assert data[..at] + data[at..at + length] == data[..at + length];
      } else if Spacious(base, txBlockSzx) {
        assert log[..|log| - 1][..|log1|] == log1;
        AcceptedSince(server, log1, log[..|log| - 1], first);
      }
    }

    /** Why a download does not go on: the last of the requests sent since the log was `first` long has not been
        answered with success, or the response being read is not what was asked for. */
    ghost predicate Broken(error: Error, first: nat)
      reads this, message, message.buffer, response, response.buffer
      requires message.Valid() && response.Valid()
    {
      || (|log| > first && !Succeeded(server, log) && error == FailureOf(server, log))
      || Stuck(message.Bytes(), response.Bytes(), response.pos)
    }

    /** The download since the log was `first` long and `before` responses had been read to their end: each request
        since asked for what comes next, `szx` being the block size in force then, and each response since is the
        successful reply to one of them. */
    ghost predicate InProgress(b: seq<byte>, r: seq<byte>, blocks: seq<seq<byte>>, before: nat, first: nat, szx: nat)
      reads this
    {
      && first <= |log| && before <= |blocks|
      && Asked(log[first..], before, blocks, szx)
      && InForce(log[first..], szx) == AskedSzx(b, rxBlockSzx)
      && Fetched(server, log, first, (blocks + [r])[before + 1..])
    }

    /** Moves on from a response that has been read to its end. */
    method NextBlockToRead(ghost blocks: seq<seq<byte>>, ghost delivered: seq<byte>, ghost before: nat,
                           ghost first: nat, ghost szx: nat)
      returns (error: Error, ghost blocks': seq<seq<byte>>)
      requires Valid() && first <= |log|
      requires Downloading(message.Bytes(), blocks, response.Bytes(), response.pos, delivered)
      requires response.pos == |PayloadOf(response.Bytes())| && Decode(response.Bytes()).Ok?
      requires InProgress(message.Bytes(), response.Bytes(), blocks, before, first, szx)
      modifies this`log, this`mid, message, message.buffer, response, response.buffer
      ensures Valid() && |log| >= |old(log)| && log[..|old(log)|] == old(log)
      ensures error == NoError || error == EndOfStream ==>
        && Downloading(message.Bytes(), blocks', response.Bytes(), response.pos, delivered)
        && |blocks'| >= |blocks| && blocks'[..|blocks|] == blocks
        && (blocks' + [response.Bytes()])[..|blocks| + 1] == blocks + [old(response.Bytes())]
        && InProgress(message.Bytes(), response.Bytes(), blocks', before, first, szx)
        && (HasRoom(old(message.Bytes())) ==> HasRoom(message.Bytes()))
      ensures error != NoError && error != EndOfStream && HasRoom(old(message.Bytes())) ==>
        Broken(error, |old(log)|)
      ensures error == EndOfStream ==> Downloaded(blocks', response.Bytes(), delivered)
      ensures error == NoError ==> response.pos == 0 && |PayloadOf(old(response.Bytes()))| > 0
      ensures error == EndOfStream ==> response.Bytes() == old(response.Bytes()) && response.pos == old(response.pos)
    {
      hide UintOf, PayloadOf, WellFormed, SameRequest, BlockSize, BlockPos, Downloading, Downloaded, Asked, IsEnd,
           IsFullBlock, AsksBehind, HasRoom, Succeeded, FailureOf, Fetched, InForce, Reply, Decode;
      ghost var b, r, requests, log0 := message.Bytes(), response.Bytes(), log[first..], log;
      ghost var read := (blocks + [r])[before + 1..];
      blocks' := blocks;
      DownloadState(b, blocks, r, response.pos, delivered);
      error := NextResponse();
      if error == EndOfStream {
        AfterEnd(b, blocks, r, response.pos, delivered);
      } else if error == NoError {
        FullBlockNotEmpty(r, AskedPos(b));
        AfterFullBlock(b, blocks, r, delivered, message.Bytes(), response.Bytes());
        DownloadState(message.Bytes(), blocks + [r], response.Bytes(), 0, delivered);
        AskedStep(requests, before, blocks, szx, message.Bytes(), r);
        AskedInForce(requests, message.Bytes(), r, AskedPos(message.Bytes()), InForce(requests, szx), szx, rxBlockSzx);
        assert log[first..] == requests + [message.Bytes()];
        FetchedStep(server, log0, first, read, message.Bytes());
        blocks' := blocks + [r];
        assert (blocks' + [response.Bytes()])[before + 1..] == read + [response.Bytes()];
      }
    }

    /** Copies what it can of the response being read. */
    method ReadSome(dst: array<byte>, at: nat, size: nat, ghost blocks: seq<seq<byte>>, ghost delivered: seq<byte>)
      returns (error: Error, n: nat)
      requires Valid() && 0 < size && at + size <= dst.Length && dst != message.buffer && dst != response.buffer
      requires Downloading(message.Bytes(), blocks, response.Bytes(), response.pos, delivered)
      modifies response`pos, dst
      ensures Valid()
      ensures error == NoError ==>
        && n == Min(size, |PayloadOf(response.Bytes())| - old(response.pos)) && 0 < n
        && response.pos == old(response.pos) + n && dst[..at] == old(dst[..at])
        && Downloading(message.Bytes(), blocks, response.Bytes(), response.pos, delivered + dst[at..at + n])
      ensures error != NoError ==> response.pos == old(response.pos) && dst[..] == old(dst[..])
      ensures old(response.pos) < |PayloadOf(response.Bytes())| ==> error == NoError
      ensures error == EndOfStream ==> response.pos == |PayloadOf(response.Bytes())| && Decode(response.Bytes()).Ok?
      ensures error != NoError && error != EndOfStream ==> Stuck(message.Bytes(), response.Bytes(), response.pos)
    {
      hide UintOf, PayloadOf, WellFormed, Downloading;
      ghost var r, pos := response.Bytes(), response.pos;
      PayloadIs(r);
      DecodeMessageErrors(r);
      DownloadState(message.Bytes(), blocks, r, pos, delivered);
      error, n := response.ReadPayload(dst, at, size);
      if error == NoError {
        assert dst[at..at + n] == PayloadOf(r)[pos..pos + n];
        AfterRead(message.Bytes(), blocks, r, pos, n, delivered);
      }
    }

    /** Copies some of the response being read, or moves on from it. */
    method ReadMore(dst: array<byte>, at: nat, size: nat, ghost blocks: seq<seq<byte>>, ghost delivered: seq<byte>,
                    ghost before: nat, ghost first: nat, ghost szx: nat)
      returns (error: Error, n: nat, ghost blocks': seq<seq<byte>>)
      requires Valid() && 0 < size && at + size <= dst.Length && dst != message.buffer && dst != response.buffer
      requires Downloading(message.Bytes(), blocks, response.Bytes(), response.pos, delivered)
      requires InProgress(message.Bytes(), response.Bytes(), blocks, before, first, szx)
      modifies this`log, this`mid, message, message.buffer, response, response.buffer, dst
      ensures Valid() && |log| >= |old(log)| && log[..|old(log)|] == old(log)
      ensures n <= size && dst[..at] == old(dst[..at])
      ensures error == NoError || error == EndOfStream ==>
        && Downloading(message.Bytes(), blocks', response.Bytes(), response.pos, delivered + dst[at..at + n])
        && |blocks'| >= |blocks| && blocks'[..|blocks|] == blocks
        && (blocks' + [response.Bytes()])[..|blocks| + 1] == blocks + [old(response.Bytes())]
        && InProgress(message.Bytes(), response.Bytes(), blocks', before, first, szx)
        && (HasRoom(old(message.Bytes())) ==> HasRoom(message.Bytes()))
      ensures error != NoError && error != EndOfStream && HasRoom(old(message.Bytes())) ==>
        Broken(error, |old(log)|)
      ensures error == EndOfStream ==> n == 0 && Downloaded(blocks', response.Bytes(), delivered)
      ensures error == NoError ==>
        n > 0 || Phase(response.Bytes(), response.pos) < Phase(old(response.Bytes()), old(response.pos))
      ensures old(response.pos) < |PayloadOf(old(response.Bytes()))| ==>
        && error == NoError && n == Min(size, |PayloadOf(response.Bytes())| - old(response.pos))
        && response.pos == old(response.pos) + n && blocks' == blocks && log == old(log)
        && message.Bytes() == old(message.Bytes()) && response.Bytes() == old(response.Bytes())
    {
      hide UintOf, PayloadOf, WellFormed, SameRequest, BlockSize, BlockPos, Downloading, Downloaded, Asked, IsEnd,
           IsFullBlock, AsksBehind, HasRoom, Succeeded, FailureOf, Stuck, Decode, Fetched, InForce;
      blocks' := blocks;
      assert (blocks + [response.Bytes()])[..|blocks| + 1] == blocks + [response.Bytes()];
      ghost var r := response.Bytes();
      error, n := ReadSome(dst, at, size, blocks, delivered);
      assert response.Bytes() == r;
      if error == EndOfStream {
        n := 0;
        assert delivered + dst[at..at + n] == delivered;
        error, blocks' := NextBlockToRead(blocks, delivered, before, first, szx);
      } else if error != NoError {
        n := 0;
      }
    }

    /** What a call has done since the log was `first` long, the request message `m0` and the response being read `r0`,
        and its status. */
    ghost predicate Reading(error: Error, m0: seq<byte>, r0: seq<byte>, blocks: seq<seq<byte>>,
                            blocks': seq<seq<byte>>, first: nat, delivered: seq<byte>)
      reads this, message, message.buffer, response, response.buffer
      requires message.Valid() && response.Valid()
    {
      && (error == NoError || error == EndOfStream ==>
            && Downloading(message.Bytes(), blocks', response.Bytes(), response.pos, delivered)
            && |blocks'| >= |blocks| && (blocks' + [response.Bytes()])[..|blocks| + 1] == blocks + [r0]
            && InProgress(message.Bytes(), response.Bytes(), blocks', |blocks|, first, AskedSzx(m0, rxBlockSzx))
            && (HasRoom(m0) ==> HasRoom(message.Bytes())))
      && (error == EndOfStream ==> Downloaded(blocks', response.Bytes(), delivered))
      && (error != NoError && error != EndOfStream && HasRoom(m0) ==> Broken(error, first))
    }

    lemma NothingReadYet(blocks: seq<seq<byte>>, delivered: seq<byte>)
      requires Valid() && Downloading(message.Bytes(), blocks, response.Bytes(), response.pos, delivered)
      ensures Reading(NoError, message.Bytes(), response.Bytes(), blocks, blocks, |log|, delivered)
    {
      hide Downloading, Downloaded, Asked, HasRoom, Fetched, AskedSzx, CoapClientRequest.Broken;
      var r, szx := response.Bytes(), AskedSzx(message.Bytes(), rxBlockSzx);
      NothingAsked(blocks, szx);
      NothingFetched(server, log);
      assert (blocks + [r])[..|blocks| + 1] == blocks + [r] && (blocks + [r])[|blocks| + 1..] == [];
      assert log[|log|..] == [];
      assert InForce([], szx) == szx;
    }

    lemma ReadingParts(error: Error, m0: seq<byte>, r0: seq<byte>, blocks: seq<seq<byte>>, blocks': seq<seq<byte>>,
                       first: nat, delivered: seq<byte>)
      requires Valid() && Reading(error, m0, r0, blocks, blocks', first, delivered)
      ensures error == NoError || error == EndOfStream ==>
        && Downloading(message.Bytes(), blocks', response.Bytes(), response.pos, delivered)
        && |blocks'| >= |blocks| && (blocks' + [response.Bytes()])[..|blocks| + 1] == blocks + [r0]
        && InProgress(message.Bytes(), response.Bytes(), blocks', |blocks|, first, AskedSzx(m0, rxBlockSzx))
        && (HasRoom(m0) ==> HasRoom(message.Bytes()))
      ensures error == EndOfStream ==> Downloaded(blocks', response.Bytes(), delivered)
      ensures error != NoError && error != EndOfStream && HasRoom(m0) ==> Broken(error, first)
    {
      hide Downloading, Downloaded, HasRoom, AskedSzx, CoapClientRequest.InProgress, CoapClientRequest.Broken;
    }

    /** One turn of the loop below, accounted for from the beginning of the call. */
    method ReadOn(dst: array<byte>, at: nat, size: nat, ghost m0: seq<byte>, ghost r0: seq<byte>,
                  ghost blocks: seq<seq<byte>>, ghost blocks1: seq<seq<byte>>, ghost first: nat,
                  ghost delivered: seq<byte>)
      returns (error: Error, n: nat, ghost blocks': seq<seq<byte>>)
      requires Valid() && 0 < size && at + size <= dst.Length && dst != message.buffer && dst != response.buffer
      requires first <= |log| && Reading(NoError, m0, r0, blocks, blocks1, first, delivered)
      modifies this`log, this`mid, message, message.buffer, response, response.buffer, dst
      ensures Valid() && |log| >= |old(log)| && log[..|old(log)|] == old(log)
      ensures n <= size && dst[..at] == old(dst[..at])
      ensures Reading(error, m0, r0, blocks, blocks', first, delivered + dst[at..at + n])
      ensures error == NoError ==>
        n > 0 || Phase(response.Bytes(), response.pos) < Phase(old(response.Bytes()), old(response.pos))
      ensures old(response.pos) < |PayloadOf(old(response.Bytes()))| ==>
        && error == NoError && n == Min(size, |PayloadOf(response.Bytes())| - old(response.pos))
        && response.pos == old(response.pos) + n && blocks' == blocks1 && log == old(log)
        && message.Bytes() == old(message.Bytes()) && response.Bytes() == old(response.Bytes())
    {
      hide UintOf, PayloadOf, WellFormed, BlockPos, Downloading, Downloaded, HasRoom, AskedSzx, Phase, Stuck, Succeeded,
           FailureOf, CoapClientRequest.InProgress;
      ghost var r1 := response.Bytes();
      error, n, blocks' := ReadMore(dst, at, size, blocks1, delivered, |blocks|, first, AskedSzx(m0, rxBlockSzx));
      if error == NoError || error == EndOfStream {
        SamePrefix(blocks' + [response.Bytes()], blocks1 + [r1], |blocks| + 1);
        assert error == EndOfStream ==> delivered + dst[at..at + n] == delivered;
      }
    }

    /** Reads the next part of a body, asking for further blocks as needed. `blocks` are the responses
        read to their end so far and `delivered` is what has been handed out so far. As long as the response
        being read has bytes left they are handed out, wherever it says that they belong. */
    method ReadBody(dst: array<byte>, at0: nat, size: nat, ghost blocks: seq<seq<byte>>, ghost delivered: seq<byte>)
      returns (error: Error, received: nat, ghost blocks': seq<seq<byte>>)
      requires Valid() && at0 + size <= dst.Length
      requires dst != message.buffer && dst != response.buffer
      requires Downloading(message.Bytes(), blocks, response.Bytes(), response.pos, delivered)
      modifies this`log, this`mid, message, message.buffer, response, response.buffer, dst
      ensures Valid() && received <= size && dst[..at0] == old(dst[..at0])
      ensures |log| >= |old(log)| && log[..|old(log)|] == old(log)
      ensures error == NoError ==> received > 0 || size == 0
      ensures error == NoError || error == EndOfStream ==>
        var delivered' := delivered + dst[at0..at0 + received];
        && Downloading(message.Bytes(), blocks', response.Bytes(), response.pos, delivered')
        && |blocks'| >= |blocks|
        && (blocks' + [response.Bytes()])[..|blocks| + 1] == blocks + [old(response.Bytes())]
        && InProgress(message.Bytes(), response.Bytes(), blocks', |blocks|, |old(log)|,
                      AskedSzx(old(message.Bytes()), rxBlockSzx))
        && (HasRoom(old(message.Bytes())) ==> HasRoom(message.Bytes()))
        && (error == EndOfStream || received < size ==> Downloaded(blocks', response.Bytes(), delivered'))
        && (error == EndOfStream ==> received == 0)
      ensures error != NoError && error != EndOfStream && HasRoom(old(message.Bytes())) ==>
        Broken(error, |old(log)|)
      ensures size <= |PayloadOf(old(response.Bytes()))| - old(response.pos) ==>
        && error == NoError && received == size && blocks' == blocks && log == old(log)
        && message.Bytes() == old(message.Bytes()) && response.Bytes() == old(response.Bytes())
        && response.pos == old(response.pos) + size
    {
      hide UintOf, PayloadOf, WellFormed, SameRequest, BlockSize, BlockPos, Downloading, Downloaded, HasRoom, AskedSzx,
           CoapClientRequest.Reading, CoapClientRequest.InProgress, CoapClientRequest.Broken;
      error, received, blocks' := NoError, 0, blocks;
      ghost var first := |log|;
      ghost var left := |PayloadOf(response.Bytes())| - response.pos;
      ghost var m, r, pos := message.Bytes(), response.Bytes(), response.pos;
      assert delivered + dst[at0..at0] == delivered;
      NothingReadYet(blocks, delivered);
      while received < size && error == NoError
        invariant Valid() && received <= size && first <= |log| && log[..first] == old(log)
        invariant dst[..at0] == old(dst[..at0])
        invariant Reading(error, m, r, blocks, blocks', first, delivered + dst[at0..at0 + received])
        invariant size <= left ==>
          && error == NoError && (received == 0 || received == size) && blocks' == blocks && log == old(log)
          && message.Bytes() == m && response.Bytes() == r && response.pos == pos + received
        decreases if error == NoError then 1 else 0, size - received, Phase(response.Bytes(), response.pos)
      {
        ghost var out := dst[at0..at0 + received];
        var n;
        error, n, blocks' :=
          ReadOn(dst, at0 + received, size - received, m, r, blocks, blocks', first, delivered + out);
        assert dst[at0..at0 + received] == out;
        StretchesJoin(dst, at0, at0 + received, at0 + received + n);
        ConcatAssoc(delivered, out, dst[at0 + received..at0 + received + n]);
        received := received + n;
      }
      ReadingParts(error, m, r, blocks, blocks', first, delivered + dst[at0..at0 + received]);
      if received > 0 && error == EndOfStream {
        error := NoError;
      }
    }

    /** A caller that reads a body in parts of any size, from a server that answers any requests with any parts
        of `body`, but truly: what has been delivered is the beginning of the body unless the response being read
        is misplaced, and at the end the body itself, exactly when nothing that matters has been cut off the last
        datagram. */
    method DownloadInParts(dst: array<byte>, cuts: seq<nat>, ghost body: seq<byte>)
      returns (error: Error, received: nat, ended: bool)
      requires Valid() && dst != message.buffer && dst != response.buffer
      requires forall i :: 0 <= i < |cuts| ==> cuts[i] <= dst.Length
      requires forall i, j :: 0 <= i < j < |cuts| ==> cuts[i] <= cuts[j]
      requires response.pos == 0 && Downloading(message.Bytes(), [], response.Bytes(), 0, [])
      requires Heard(server, response.Bytes()) && TruthfulServer(server, body) && |body| < WORD
      modifies this`log, this`mid, message, message.buffer, response, response.buffer, dst
      ensures Valid() && received <= dst.Length
      ensures |log| >= |old(log)| && log[..|old(log)|] == old(log)
      ensures error == NoError ==> AllSucceeded(server, log, |old(log)|)
      ensures error != NoError && HasRoom(old(message.Bytes())) ==>
        Broken(error, |old(log)|)
      ensures error == NoError && !ended ==>
        && received == (if cuts == [] then 0 else cuts[|cuts| - 1])
        && (response.pos == 0 || StartsAt(response.Bytes()) == AskedPos(message.Bytes()) ==>
              received <= |body| && dst[..received] == body[..received])
      ensures error == NoError && ended ==>
        && (exists requests: seq<seq<byte>> ::
              && HeardTo(server, requests, response.Bytes())
              && (dst[..received] == body <==> KeepsBlock(server(requests).response) || body == []))
        && (AllShort(server) ==> dst[..received] == body)
    {
      hide Downloading, Downloaded, UintOf, PayloadOf, AskedPos, StartsAt, Heard, TruthfulServer, HeardTo, HasRoom,
           Stuck, FailureOf, Reply, Asked;
      error, received, ended := NoError, 0, false;
      ghost var blocks: seq<seq<byte>> := [];
      assert dst[..0] == [] && [] + [response.Bytes()] == [response.Bytes()];
      for i := 0 to |cuts|
        invariant Valid() && received <= dst.Length && error == NoError && !ended
        invariant received == (if i == 0 then 0 else cuts[i - 1])
        invariant Downloading(message.Bytes(), blocks, response.Bytes(), response.pos, dst[..received])
        invariant AllHeard(server, blocks + [response.Bytes()])
        invariant |log| >= |old(log)| && log[..|old(log)|] == old(log) && AllSucceeded(server, log, |old(log)|)
        invariant HasRoom(old(message.Bytes())) ==> HasRoom(message.Bytes())
      {
        var n;
        ghost var delivered, read, log1 := dst[..received], blocks + [response.Bytes()], log;
        error, n, blocks := ReadBody(dst, received, cuts[i] - received, blocks, delivered);
        if error != NoError && error != EndOfStream {
          return;
        }
        SucceededSince(server, log1, log, |old(log)|, (blocks + [response.Bytes()])[|read|..]);
        FetchedHeard(server, log, |log1|, read, blocks + [response.Bytes()]);
        assert delivered + dst[received..received + n] == dst[..received + n];
        ended := error == EndOfStream || n < cuts[i] - received;
        error, received := NoError, received + n;
        if ended {
          WholeBody(server, blocks, response.Bytes(), dst[..received], body);
          return;
        }
      }
      if response.pos == 0 || StartsAt(response.Bytes()) == AskedPos(message.Bytes()) {
        HeardIsTruthful(server, blocks + [response.Bytes()], body);
        assert AllTruthful(blocks, body) && FromTruthful(response.Bytes(), body) by {
          LastTruthful(blocks, response.Bytes(), body);
        }
        DeliveredIsPrefix(message.Bytes(), blocks, response.Bytes(), response.pos, dst[..received], body);
      }
    }
  }

  /** Every datagram that the server answers with says truly which part of the body it carries. */
  ghost predicate TruthfulServer(server: Server, body: seq<byte>) {
    forall requests: seq<seq<byte>> :: server(requests).Answered? ==> Truthful(server(requests).response, body)
  }

  /** No datagram fills the receive buffer. */
  ghost predicate AllShort(server: Server) {
    forall requests: seq<seq<byte>> :: server(requests).Answered? ==> |server(requests).response| < MAX_MSG_SIZE
  }

  lemma HeardIsTruthful(server: Server, blocks: seq<seq<byte>>, body: seq<byte>)
    requires AllHeard(server, blocks) && TruthfulServer(server, body)
    ensures AllTruthful(blocks, body)
  {
    hide Truthful, Buffered, Readable;
    forall i | 0 <= i < |blocks| ensures FromTruthful(blocks[i], body) {
      assert Heard(server, blocks[i]);
      var requests: seq<seq<byte>> :| HeardTo(server, requests, blocks[i]);
      assert Carries(server(requests).response, blocks[i], body);
    }
  }

  lemma LastTruthful(blocks: seq<seq<byte>>, r: seq<byte>, body: seq<byte>)
    requires AllTruthful(blocks + [r], body)
    ensures AllTruthful(blocks, body) && FromTruthful(r, body)
  {
    hide FromTruthful;
    assert (blocks + [r])[|blocks|] == r;
    forall i | 0 <= i < |blocks| ensures FromTruthful(blocks[i], body) {
      assert (blocks + [r])[i] == blocks[i];
    }
  }

  /** A download that has come to its end. */
  lemma WholeBody(server: Server, blocks: seq<seq<byte>>, r: seq<byte>, delivered: seq<byte>,
                  body: seq<byte>)
    requires Downloaded(blocks, r, delivered) && AllHeard(server, blocks + [r])
    requires TruthfulServer(server, body) && |body| < WORD
    ensures exists requests: seq<seq<byte>> ::
      && HeardTo(server, requests, r)
      && (delivered == body <==> KeepsBlock(server(requests).response) || body == [])
    ensures AllShort(server) ==> delivered == body
  {
    hide Downloaded, Truthful, Buffered, Readable, KeepsBlock;
    HeardIsTruthful(server, blocks + [r], body);
    LastTruthful(blocks, r, body);
    assert Heard(server, (blocks + [r])[|blocks|]);
    var requests: seq<seq<byte>> :| HeardTo(server, requests, r);
    DownloadedIsBody(blocks, server(requests).response, delivered, body);
  }
}
