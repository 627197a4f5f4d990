/** The exchanges of a block-wise transfer: what the other end answers to the requests sent, and which answers
    carry the transfer on. Sections 2.3 to 2.5 of RFC 7959. */
module BlockExchange {
  import opened Common
  import opened OptionList
  import opened UintOption
  import opened WellFormedness
  import opened MessageView
  import opened BlockOption
  import opened MessageUse
  import opened BlockUpload

  /** What becomes of one exchange: a response, or none. */
  datatype Exchange = Answered(response: seq<byte>) | Failed

  /** The other end: any function from the requests sent so far to the answer to the last. */
  type Server = seq<seq<byte>> -> Exchange

  /** A response that the other end may give, as it is in the buffer. */
  ghost predicate Heard(server: Server, r: seq<byte>) {
    exists requests: seq<seq<byte>> :: HeardTo(server, requests, r)
  }

  predicate HeardTo(server: Server, requests: seq<seq<byte>>, r: seq<byte>) {
    match server(requests)
    case Failed => false
    case Answered(bytes) => Readable(Clipped(bytes)) && r == Buffered(bytes)
  }

  ghost predicate AllHeard(server: Server, blocks: seq<seq<byte>>) {
    forall i :: 0 <= i < |blocks| ==> Heard(server, blocks[i])
  }

  /** What the receive buffer holds of the answer to the last of the requests. */
  function Reply(server: Server, requests: seq<seq<byte>>): seq<byte> {
    match server(requests)
    case Failed => []
    case Answered(bytes) => Buffered(bytes)
  }

  /** The response code is one of success, 2.00 to 2.31. */
  predicate IsSuccess(r: seq<byte>) {
    |r| >= HEADER_SIZE && 64 <= r[1] < 96
  }

  /** The last of the requests has been answered with a readable response of success. */
  predicate Succeeded(server: Server, requests: seq<seq<byte>>) {
    HeardTo(server, requests, Reply(server, requests)) && IsSuccess(Reply(server, requests))
  }

  /** The status of an exchange that has not succeeded. */
  function FailureOf(server: Server, requests: seq<seq<byte>>): (e: Error)
    ensures e != NoError
  {
    if HeardTo(server, requests, Reply(server, requests)) then InvalidStatus else Timeout
  }

  lemma ReplyHeader(server: Server, requests: seq<seq<byte>>)
    requires HeardTo(server, requests, Reply(server, requests))
    ensures |Reply(server, requests)| >= HEADER_SIZE
  {
    hide Readable, Buffered, Clipped;
    match server(requests)
    case Failed =>
    case Answered(bytes) => BufferedHeader(bytes);
  }

  // ---------------------------------------------------------------------------------------------
  // Uploads

  /** The response acknowledges the block of the request, if that is one of several: it names its position and
      a size. */
  predicate Acknowledges(q: seq<byte>, r: seq<byte>) {
    UintOf(q, BLOCK1).Some? ==> AcknowledgesAt(r, BlockPos(UintOf(q, BLOCK1).value))
  }

  predicate AcknowledgesAt(r: seq<byte>, pos: uint32) {
    match UintOf(r, BLOCK1)
    case None => false
    case Some(w) => Szx(w) < 7 && BlockPos(w) == pos
  }

  /** The status of a response that does not. */
  function AckFailure(r: seq<byte>): (e: Error)
    ensures e != NoError
  {
    match FindBytes(r, BLOCK1, 0)
    case Err(e) => e
    case Ok(_) => Failure
  }

  predicate Accepted(server: Server, requests: seq<seq<byte>>) {
    && requests != [] && Succeeded(server, requests)
    && Acknowledges(requests[|requests| - 1], Reply(server, requests))
  }

  /** The status of an exchange that has not been accepted. */
  function Rejection(server: Server, requests: seq<seq<byte>>): (e: Error)
    ensures e != NoError
  {
    if !Succeeded(server, requests) then FailureOf(server, requests) else AckFailure(Reply(server, requests))
  }

  predicate AcceptedAt(server: Server, log: seq<seq<byte>>, k: nat)
    requires k < |log|
  {
    Accepted(server, log[..k + 1])
  }

  /** Every request from `first` on has been accepted. */
  ghost predicate AllAccepted(server: Server, log: seq<seq<byte>>, first: nat) {
    first <= |log| && forall k :: first <= k < |log| ==> AcceptedAt(server, log, k)
  }

  /** The block size that a response names. */
  function Offered(r: seq<byte>): (s: nat)
    ensures s < 8
  {
    match UintOf(r, BLOCK1)
    case None => 7
    case Some(w) => Szx(w)
  }

  /** The size of the block at `k`: `szx` for the first, and for every other that of the block before it or that of
      the response to it, whichever is smaller. */
  function Size(server: Server, log: seq<seq<byte>>, first: nat, k: nat, szx: nat, tx: nat): nat
    requires first <= k <= |log| && tx < 8
  {
    if k == first then szx else Min(SzxOf(log[k - 1], tx), Offered(Reply(server, log[..k])))
  }

  /** Every block from `first` on has the size that it should have. */
  ghost predicate Negotiated(server: Server, log: seq<seq<byte>>, first: nat, szx: nat, tx: nat)
    requires tx < 8
  {
    first <= |log| && forall k :: first <= k < |log| ==> SzxOf(log[k], tx) == Size(server, log, first, k, szx, tx)
  }

  /** The response 2.31 with the Block1 option 1:0/1/64, byte by byte, acknowledges the block at 0 and asks for blocks
      of 64 bytes. */
  lemma ContinueExample(mid: uint16)
    ensures var r := [0x60, 0x5F, mid / 256, mid % 256, 0xD1, 0x0E, 0x0A];
      IsSuccess(r) && AcknowledgesAt(r, 0) && Offered(r) == 2 && BlockSize(Offered(r)) == 64
  {
    hide UintOf, EncodeAll, BlockPos;
    var header: seq<byte> := [0x60, 0x5F, mid / 256, mid % 256];
    var r := OneOption(header, BLOCK1, [0x0A], []);
    ContinueBytes(header);
    OneOptionUse(header, BLOCK1, [0x0A], []);
    assert r == [0x60, 0x5F, mid / 256, mid % 256, 0xD1, 0x0E, 0x0A];
    BlockFormat(0, true, 2);
  }

  lemma ContinueBytes(header: seq<byte>)
    requires |header| == 4 && header[0] == 0x60
    ensures HeaderSize(header) == Ok(4) && AtEnd([])
    ensures EncodeAll(0, [Opt(BLOCK1, [0x0A])]) == [0xD1, 0x0E, 0x0A] && DecodeUint([0x0A]) == 0x0A
  {
    assert [0x0A][..0] == [];
    assert [Opt(BLOCK1, [0x0A])][1..] == [];
  }

  lemma NothingSent(server: Server, log: seq<seq<byte>>, szx: nat, tx: nat)
    requires tx < 8
    ensures AllAccepted(server, log, |log|) && Negotiated(server, log, |log|, szx, tx)
    ensures Size(server, log, |log|, |log|, szx, tx) == szx
  {
  }

  lemma OneAccepted(server: Server, log: seq<seq<byte>>)
    requires Accepted(server, log)
    ensures AllAccepted(server, log, |log| - 1)
  {
    hide Accepted;
    assert log[..|log| - 1 + 1] == log;
  }

  /** What has been accepted before and since. */
  lemma AcceptedSince(server: Server, log: seq<seq<byte>>, log': seq<seq<byte>>, first: nat)
    requires AllAccepted(server, log, first) && |log| <= |log'| && log'[..|log|] == log
    requires AllAccepted(server, log', |log|)
    ensures AllAccepted(server, log', first)
  {
    hide Accepted;
    forall k | first <= k < |log'| ensures AcceptedAt(server, log', k) {
      if k < |log| {
        assert AcceptedAt(server, log, k);
        assert log'[..k + 1] == log[..k + 1];
      }
    }
  }

  lemma NegotiatedSince(server: Server, log: seq<seq<byte>>, log': seq<seq<byte>>, first: nat, szx: nat, tx: nat)
    requires tx < 8 && |log| <= |log'| && log'[..|log|] == log
    requires Negotiated(server, log, first, szx, tx)
    requires Negotiated(server, log', |log|, Size(server, log, first, |log|, szx, tx), tx)
    ensures Negotiated(server, log', first, szx, tx)
    ensures Size(server, log', |log|, |log'|, Size(server, log, first, |log|, szx, tx), tx)
      == Size(server, log', first, |log'|, szx, tx)
  {
    hide SzxOf, Offered, Reply;
    var next := Size(server, log, first, |log|, szx, tx);
    forall k | first <= k <= |log'|
      ensures k <= |log| ==> Size(server, log', first, k, szx, tx) == Size(server, log, first, k, szx, tx)
      ensures k >= |log| ==> Size(server, log', first, k, szx, tx) == Size(server, log', |log|, k, next, tx)
    {
      if k <= |log| {
        assert log'[..k] == log[..k];
      }
    }
    forall k | first <= k < |log'| ensures SzxOf(log'[k], tx) == Size(server, log', first, k, szx, tx) {
      if k < |log| {
        assert SzxOf(log[k], tx) == Size(server, log, first, k, szx, tx);
      }
    }
  }

  lemma OneNegotiated(server: Server, log: seq<seq<byte>>, szx: nat, tx: nat)
    requires tx < 8 && log != [] && SzxOf(log[|log| - 1], tx) == szx
    ensures Negotiated(server, log, |log| - 1, szx, tx)
    ensures Size(server, log, |log| - 1, |log|, szx, tx) == Min(szx, Offered(Reply(server, log)))
  {
    hide SzxOf, Offered, Reply;
    assert log[..|log|] == log;
  }

  // ---------------------------------------------------------------------------------------------
  // Downloads

  predicate SucceededAt(server: Server, log: seq<seq<byte>>, k: nat)
    requires k < |log|
  {
    Succeeded(server, log[..k + 1])
  }

  function ReplyAt(server: Server, log: seq<seq<byte>>, k: nat): seq<byte>
    requires k < |log|
  {
    Reply(server, log[..k + 1])
  }

  /** The responses are those to the requests from `first` on, all of success. */
  ghost predicate Fetched(server: Server, log: seq<seq<byte>>, first: nat, responses: seq<seq<byte>>) {
    && first + |responses| == |log|
    && forall i :: 0 <= i < |responses| ==>
         responses[i] == ReplyAt(server, log, first + i) && SucceededAt(server, log, first + i)
  }

  /** Every request from `first` on has been answered with success. */
  ghost predicate AllSucceeded(server: Server, log: seq<seq<byte>>, first: nat) {
    first <= |log| && forall k :: first <= k < |log| ==> SucceededAt(server, log, k)
  }

  lemma SucceededSince(server: Server, log: seq<seq<byte>>, log': seq<seq<byte>>, first: nat, responses: seq<seq<byte>>)
    requires AllSucceeded(server, log, first) && |log| <= |log'| && log'[..|log|] == log
    requires Fetched(server, log', |log|, responses)
    ensures AllSucceeded(server, log', first)
  {
    hide Succeeded, Reply;
    forall k | first <= k < |log'| ensures SucceededAt(server, log', k) {
      if k < |log| {
        assert SucceededAt(server, log, k);
        assert log'[..k + 1] == log[..k + 1];
      } else {
        assert responses[k - |log|] == ReplyAt(server, log', |log| + (k - |log|));
      }
    }
  }

  lemma NothingFetched(server: Server, log: seq<seq<byte>>)
    ensures Fetched(server, log, |log|, [])
  {
  }

  /** What has been heard before and fetched since. */
  lemma FetchedHeard(server: Server, log: seq<seq<byte>>, first: nat, read: seq<seq<byte>>, read': seq<seq<byte>>)
    requires AllHeard(server, read) && |read| <= |read'| && read'[..|read|] == read
    requires Fetched(server, log, first, read'[|read|..])
    ensures AllHeard(server, read')
  {
    hide HeardTo, Reply;
    forall i | 0 <= i < |read'| ensures Heard(server, read'[i]) {
      if i < |read| {
        assert read'[i] == read[i];
      } else {
        var k := i - |read|;
        assert read'[|read|..][k] == ReplyAt(server, log, first + k) && SucceededAt(server, log, first + k);
        assert HeardTo(server, log[..first + k + 1], read'[i]);
      }
    }
  }

  lemma FetchedStep(server: Server, log: seq<seq<byte>>, first: nat, responses: seq<seq<byte>>, q: seq<byte>)
    requires Fetched(server, log, first, responses) && Succeeded(server, log + [q])
    ensures Fetched(server, log + [q], first, responses + [Reply(server, log + [q])])
  {
    hide Succeeded, Reply;
    var log', responses' := log + [q], responses + [Reply(server, log + [q])];
    forall i | 0 <= i < |responses'|
      ensures responses'[i] == ReplyAt(server, log', first + i) && SucceededAt(server, log', first + i)
    {
      if i < |responses| {
        assert responses[i] == ReplyAt(server, log, first + i) && SucceededAt(server, log, first + i);
        assert log'[..first + i + 1] == log[..first + i + 1];
      } else {
        assert log'[..first + i + 1] == log';
      }
    }
  }
}
