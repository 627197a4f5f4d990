/** What a block-wise download must look like on the wire: section 2.4 of RFC 7959. */
module BlockDownload {
  import opened Common
  import opened OptionCodec
  import opened OptionList
  import opened MessageView
  import opened WellFormedness
  import opened BlockOption
  import opened MessageUse
  import opened BlockUpload
  import opened UintOption

  /** A response that carries a full block starting at `pos` and announces more. */
  ghost predicate IsFullBlock(r: seq<byte>, pos: uint32) {
    match UintOf(r, BLOCK2)
    case None => false
    case Some(v) => Szx(v) < SZX_RESERVED && More(v) && BlockPos(v) == pos && |PayloadOf(r)| == BlockSize(Szx(v))
  }

  /** A response that ends the body; without a block option it is the whole of it. */
  ghost predicate IsEnd(r: seq<byte>, pos: uint32) {
    match UintOf(r, BLOCK2)
    case None => pos == 0
    case Some(v) => Szx(v) < SZX_RESERVED && !More(v) && BlockPos(v) == pos
  }

  /** The responses read to their end are full blocks without gap or overlap. */
  ghost predicate Consumed(blocks: seq<seq<byte>>) {
    forall i :: 0 <= i < |blocks| ==> IsFullBlock(blocks[i], |Body(blocks[..i])| % WORD)
  }

  /** A download under way: `blocks` have been read to their end, the request message `b` holds the
      position of the block being read, and the first `pos` bytes of the response `r` have been delivered. */
  ghost predicate Downloading(b: seq<byte>, blocks: seq<seq<byte>>, r: seq<byte>, pos: nat, delivered: seq<byte>) {
    && WellFormed(b) && |b| <= MAX_MSG_SIZE
    && Consumed(blocks)
    && AskedPos(b) == |Body(blocks)| % WORD
    && pos <= |PayloadOf(r)|
    && delivered == Body(blocks) + PayloadOf(r)[..pos]
  }

  /** A whole download: everything has been delivered, up to the end of a last block. */
  ghost predicate Downloaded(blocks: seq<seq<byte>>, r: seq<byte>, body: seq<byte>) {
    && Consumed(blocks)
    && IsEnd(r, |Body(blocks)| % WORD)
    && body == Body(blocks) + PayloadOf(r)
  }

  /** The block size that a request asks for, `rx` when it says nothing about it. */
  function AskedSzx(b: seq<byte>, rx: nat): nat {
    match UintOf(b, BLOCK2)
    case None => rx
    case Some(v) => Szx(v)
  }

  /** The size in force behind the requests, `szx` before any. */
  function InForce(requests: seq<seq<byte>>, szx: nat): nat {
    if requests == [] then szx else AskedSzx(requests[|requests| - 1], szx)
  }

  /** The request `q` asks for the block at `pos`, and for blocks of the size `szx` or that of `r`, whichever is
      smaller. */
  ghost predicate AsksBehind(q: seq<byte>, r: seq<byte>, pos: uint32, szx: nat) {
    match UintOf(q, BLOCK2)
    case None => false
    case Some(v) =>
      && !More(v) && BlockPos(v) == pos
      && UintOf(r, BLOCK2).Some? && Szx(v) == Min(szx, Szx(UintOf(r, BLOCK2).value))
  }

  /** The response has been read to its end, and is neither a last block nor a full one where it was asked for, or
      cannot be read. */
  ghost predicate Stuck(b: seq<byte>, r: seq<byte>, pos: nat) {
    && pos == |PayloadOf(r)|
    && (Decode(r).Ok? ==> !IsEnd(r, AskedPos(b)) && !IsFullBlock(r, AskedPos(b)))
  }

  /** Each request sent on the way asks for the block right behind those read. */
  ghost predicate Asked(requests: seq<seq<byte>>, before: nat, blocks: seq<seq<byte>>, szx: nat) {
    && |blocks| == before + |requests|
    && forall i :: 0 <= i < |requests| ==>
         AsksBehind(requests[i], blocks[before + i], |Body(blocks[..before + i + 1])| % WORD,
                    InForce(requests[..i], szx))
  }

  /** The response read to its end is the next full block, and the next response starts behind it. */
  lemma AfterFullBlock(b: seq<byte>, blocks: seq<seq<byte>>, r: seq<byte>, delivered: seq<byte>, b': seq<byte>,
                       r': seq<byte>)
    requires Downloading(b, blocks, r, |PayloadOf(r)|, delivered) && IsFullBlock(r, AskedPos(b))
    requires WellFormed(b') && |b'| <= MAX_MSG_SIZE
    requires AskedPos(b') == (AskedPos(b) + |PayloadOf(r)|) % WORD
    ensures Downloading(b', blocks + [r], r', 0, delivered)
  {
    hide UintOf, PayloadOf, WellFormed, IsFullBlock, AskedPos;
    BodyStep(blocks, r);
    var blocks' := blocks + [r];
    forall i | 0 <= i < |blocks'| ensures IsFullBlock(blocks'[i], |Body(blocks'[..i])| % WORD) {
      assert i < |blocks| ==> blocks'[i] == blocks[i] && blocks'[..i] == blocks[..i];
      assert i == |blocks| ==> blocks'[..i] == blocks;
    }
    assert PayloadOf(r)[..|PayloadOf(r)|] == PayloadOf(r);
    assert Body(blocks') + PayloadOf(r')[..0] == Body(blocks');
    ModAdd(|Body(blocks)|, |PayloadOf(r)|);
  }

  lemma ModAdd(x: nat, y: nat)
    ensures (x % WORD + y) % WORD == (x + y) % WORD
  {
  }

  lemma AskedStep(requests: seq<seq<byte>>, before: nat, blocks: seq<seq<byte>>, szx: nat, q: seq<byte>, r: seq<byte>)
    requires Asked(requests, before, blocks, szx)
    requires AsksBehind(q, r, |Body(blocks + [r])| % WORD, InForce(requests, szx))
    ensures Asked(requests + [q], before, blocks + [r], szx)
  {
    hide AsksBehind, Body, InForce;
    var requests', blocks' := requests + [q], blocks + [r];
    forall i | 0 <= i < |requests'|
      ensures AsksBehind(requests'[i], blocks'[before + i], |Body(blocks'[..before + i + 1])| % WORD,
                         InForce(requests'[..i], szx))
    {
      if i < |requests| {
        assert blocks'[..before + i + 1] == blocks[..before + i + 1];
        assert requests'[..i] == requests[..i];
        assert AsksBehind(requests[i], blocks[before + i], |Body(blocks[..before + i + 1])| % WORD,
                          InForce(requests[..i], szx));
      } else {
        assert blocks'[..before + i + 1] == blocks' && requests'[..i] == requests;
      }
    }
  }

  /** What remains to be done about the response: 0 while it has bytes left, 1 when it is empty, 2 when it
      has been read to its end. */
  function Phase(r: seq<byte>, pos: nat): (k: nat)
    ensures k <= 2
  {
    if pos < |PayloadOf(r)| then 0 else if |PayloadOf(r)| == 0 then 1 else 2
  }

  lemma FullBlockNotEmpty(r: seq<byte>, pos: uint32)
    requires IsFullBlock(r, pos)
    ensures |PayloadOf(r)| >= 16
  {
    hide UintOf, PayloadOf, BlockPos;
  }

  /** Some more bytes of the response delivered. */
  lemma AfterRead(b: seq<byte>, blocks: seq<seq<byte>>, r: seq<byte>, pos: nat, n: nat, delivered: seq<byte>)
    requires Downloading(b, blocks, r, pos, delivered) && pos + n <= |PayloadOf(r)|
    ensures Downloading(b, blocks, r, pos + n, delivered + PayloadOf(r)[pos..pos + n])
  {
    hide UintOf, PayloadOf, WellFormed, Consumed, AskedPos;
    var p := PayloadOf(r);
    assert p[..pos + n] == p[..pos] + p[pos..pos + n];
    assert Body(blocks) + p[..pos] + p[pos..pos + n] == Body(blocks) + p[..pos + n];
  }

  /** The size in force once `q` has asked for the next block. */
  lemma AskedInForce(requests: seq<seq<byte>>, q: seq<byte>, r: seq<byte>, pos: uint32, s: nat, szx: nat, rx: nat)
    requires AsksBehind(q, r, pos, s)
    ensures InForce(requests + [q], szx) == AskedSzx(q, rx)
  {
    hide UintOf, BlockPos;
  }

  lemma NothingAsked(blocks: seq<seq<byte>>, szx: nat)
    ensures Asked([], |blocks|, blocks, szx)
  {
  }

  lemma DownloadState(b: seq<byte>, blocks: seq<seq<byte>>, r: seq<byte>, pos: nat, delivered: seq<byte>)
    requires Downloading(b, blocks, r, pos, delivered)
    ensures WellFormed(b) && |b| <= MAX_MSG_SIZE && pos <= |PayloadOf(r)| && AskedPos(b) == |Body(blocks)| % WORD
  {
    hide UintOf, PayloadOf, WellFormed, Consumed, AskedPos;
  }

  lemma AfterEnd(b: seq<byte>, blocks: seq<seq<byte>>, r: seq<byte>, pos: nat, delivered: seq<byte>)
    requires Downloading(b, blocks, r, pos, delivered) && pos >= |PayloadOf(r)| && IsEnd(r, AskedPos(b))
    ensures Downloaded(blocks, r, delivered)
  {
    hide UintOf, PayloadOf, WellFormed, Consumed, AskedPos, IsEnd;
    assert PayloadOf(r)[..pos] == PayloadOf(r);
  }

  /** A new response can be read from its start when the request asks for position 0. */
  lemma StartDownload(b: seq<byte>, r: seq<byte>)
    requires WellFormed(b) && |b| <= MAX_MSG_SIZE && AskedPos(b) == 0
    ensures Downloading(b, [], r, 0, [])
  {
    hide UintOf, PayloadOf, WellFormed, AskedPos;
    assert [] + PayloadOf(r)[..0] == [];
  }

  // ---------------------------------------------------------------------------------------------
  // Misplaced blocks

  /** The position that a response gives for its payload: the start of the body without a block option. */
  function StartsAt(r: seq<byte>): uint32 {
    match UintOf(r, BLOCK2)
    case None => 0
    case Some(v) => BlockPos(v)
  }

  /** The bytes delivered are those of consecutive blocks, the one being read included. */
  ghost predicate Contiguous(blocks: seq<seq<byte>>, r: seq<byte>, pos: nat) {
    Consumed(blocks) && (pos > 0 ==> StartsAt(r) == |Body(blocks)| % WORD)
  }

  /** The number of a block is not looked at before its payload has been read: what has been delivered is
      without gap or overlap exactly when nothing of the response being read has been, or that response
      gives the position that the request asked for. */
  lemma ContiguousExactly(b: seq<byte>, blocks: seq<seq<byte>>, r: seq<byte>, pos: nat, delivered: seq<byte>)
    requires Downloading(b, blocks, r, pos, delivered)
    ensures Contiguous(blocks, r, pos) <==> pos == 0 || StartsAt(r) == AskedPos(b)
  {
    hide UintOf, PayloadOf, WellFormed, AskedPos, StartsAt;
  }

  /** Such a response: the first of a download gives position 16, and its byte is delivered as the first. */
  lemma MisplacedExample(x: byte)
    ensures var b, r := [0x40, 0x01, 0, 0], [0x40, 0x45, 0, 0, 0xD1, 0x0A, 0x10, 0xFF, x];
      && AskedPos(b) == 0 && StartsAt(r) == 16
      && Downloading(b, [], r, 1, [x]) && !Contiguous([], r, 1)
  {
    hide UintOf, EncodeAll, WellFormed, PayloadOf, BlockPos;
    var b: seq<byte>, header: seq<byte>, tail: seq<byte> := [0x40, 0x01, 0, 0], [0x40, 0x45, 0, 0], [0xFF, x];
    var r := OneOption(header, BLOCK2, [0x10], tail);
    MisplacedHeaders(b, header, tail);
    NoOptionUse(b, BLOCK2);
    OneOptionUse(header, BLOCK2, [0x10], tail);
    Block2Bytes();
    assert r == [0x40, 0x45, 0, 0, 0xD1, 0x0A, 0x10, 0xFF, x];
    PayloadOfTail(r);
    assert PayloadOf(r) == [x] && [] + PayloadOf(r)[..1] == [x];
    assert BlockPos(0x10) == 16 by { Position16(); }
  }

  lemma Position16()
    ensures BlockPos(0x10) == 16
  {
  }

  lemma MisplacedHeaders(b: seq<byte>, header: seq<byte>, tail: seq<byte>)
    requires b == [0x40, 0x01, 0, 0] && header == [0x40, 0x45, 0, 0] && |tail| == 2 && tail[0] == 0xFF
    ensures HeaderSize(b) == Ok(4) && HeaderSize(header) == Ok(4) && AtEnd(tail) && WellFormed(b)
  {
    assert b[4..] == [];
  }

  lemma Block2Bytes()
    ensures EncodeAll(0, [Opt(BLOCK2, [0x10])]) == [0xD1, 0x0A, 0x10] && DecodeUint([0x10]) == 0x10
  {
    assert [0x10][..0] == [];
  }

  // ---------------------------------------------------------------------------------------------
  // What a truthful server gets delivered

  /** The datagram says truly which part of `body` it carries, and whether that is the end of it. */
  ghost predicate Truthful(d: seq<byte>, body: seq<byte>) {
    var end := StartsAt(d) + |PayloadOf(d)|;
    && Decode(d).Ok?
    && end <= |body| && PayloadOf(d) == body[StartsAt(d)..end]
    && ((match UintOf(d, BLOCK2) case None => true case Some(v) => !More(v)) ==> end == |body|)
  }

  /** `r` is what the receive buffer holds of the truthful datagram `d`. */
  ghost predicate Carries(d: seq<byte>, r: seq<byte>, body: seq<byte>) {
    Truthful(d, body) && Readable(Clipped(d)) && r == Buffered(d)
  }

  ghost predicate FromTruthful(r: seq<byte>, body: seq<byte>) {
    exists d: seq<byte> :: Carries(d, r, body)
  }

  ghost predicate AllTruthful(blocks: seq<seq<byte>>, body: seq<byte>) {
    forall i :: 0 <= i < |blocks| ==> FromTruthful(blocks[i], body)
  }

  /** Neither the payload of the datagram nor its description of it has been cut off. */
  predicate KeepsBlock(d: seq<byte>) {
    PayloadOf(Buffered(d)) == PayloadOf(d) && UintOf(Buffered(d), BLOCK2) == UintOf(d, BLOCK2)
  }

  /** What the buffer holds of a message describes its payload as the message does if it describes it at all,
      or has any of it, which is its beginning; all of it only when the message is shorter than the buffer. */
  lemma BufferedBlock(d: seq<byte>)
    requires Decode(d).Ok? && Readable(Clipped(d))
    ensures var r := Buffered(d);
      && PayloadOf(r) <= PayloadOf(d)
      && (PayloadOf(r) != [] || UintOf(r, BLOCK2).Some? ==> UintOf(r, BLOCK2) == UintOf(d, BLOCK2))
      && (|d| < MAX_MSG_SIZE ==> KeepsBlock(d))
      && (KeepsBlock(d) ==> |d| < MAX_MSG_SIZE || PayloadOf(d) == [])
  {
    hide Decode, UintOf, HeaderSize, Buffered, Readable;
    BufferedExactly(d);
    if |d| >= MAX_MSG_SIZE {
      HeaderShort(d);
      CutBlock(d, 1024);
    }
  }

  lemma CutBlock(d: seq<byte>, n: nat)
    requires Decode(d).Ok? && |Decode(d).value.header| <= n < |d|
    ensures var r := d[..n];
      && PayloadOf(r) <= PayloadOf(d) && (PayloadOf(d) != [] ==> PayloadOf(r) != PayloadOf(d))
      && (PayloadOf(r) != [] || UintOf(r, BLOCK2).Some? ==> UintOf(r, BLOCK2) == UintOf(d, BLOCK2))
  {
    hide Decode, UintOf, HeaderSize;
    var r := d[..n];
    HeaderShort(d);
    CutMessage(d, n);
    UintOfShorter(d, n, BLOCK2);
    PayloadOfTail(d);
    if Decode(r).Ok? {
      PayloadOfTail(r);
      if Decode(r).value.tail != [] {
        UintOfValues(r, BLOCK2);
        UintOfValues(d, BLOCK2);
        assert Decode(d).value.tail[1..] == Decode(r).value.tail[1..] + d[n..];
      }
    } else {
      PayloadIs(r);
    }
  }

  /** Blocks read to their end are the beginning of the body, if they come from a truthful server. */
  lemma {:induction false} ConsumedIsPrefix(blocks: seq<seq<byte>>, body: seq<byte>)
    requires Consumed(blocks) && AllTruthful(blocks, body) && |body| < WORD
    ensures |Body(blocks)| <= |body| && Body(blocks) == body[..|Body(blocks)|]
    decreases |blocks|
  {
    hide UintOf, PayloadOf, IsFullBlock, FromTruthful;
    if blocks != [] {
      var n := |blocks| - 1;
      forall i | 0 <= i < n ensures IsFullBlock(blocks[..n][i], |Body(blocks[..n][..i])| % WORD) {
        assert blocks[..n][..i] == blocks[..i] && blocks[..n][i] == blocks[i];
      }
      ConsumedIsPrefix(blocks[..n], body);
      FullBlockStart(blocks[n], |Body(blocks[..n])|);
      TruthfulNext(blocks[n], Body(blocks[..n]), body);
    }
  }

  lemma FullBlockStart(r: seq<byte>, pos: uint32)
    requires IsFullBlock(r, pos)
    ensures StartsAt(r) == pos && PayloadOf(r) != []
  {
    hide UintOf, PayloadOf, BlockPos;
  }

  /** A block behind a beginning of the body makes it longer. */
  lemma TruthfulNext(r: seq<byte>, prefix: seq<byte>, body: seq<byte>)
    requires FromTruthful(r, body) && |prefix| <= |body| && prefix == body[..|prefix|]
    requires StartsAt(r) == |prefix| && PayloadOf(r) != []
    ensures |prefix + PayloadOf(r)| <= |body| && prefix + PayloadOf(r) == body[..|prefix + PayloadOf(r)|]
  {
    hide UintOf, PayloadOf, BlockPos, Buffered, Readable, KeepsBlock, Decode;
    var d: seq<byte> :| Carries(d, r, body);
    BufferedBlock(d);
    var end := |prefix| + |PayloadOf(r)|;
    assert body[..end] == body[..|prefix|] + body[|prefix|..end];
    assert PayloadOf(r) == PayloadOf(d)[..|PayloadOf(r)|] == body[|prefix|..end];
  }

  /** Whatever has been delivered from a truthful server is the beginning of the body, unless the response
      being read is misplaced. */
  lemma DeliveredIsPrefix(b: seq<byte>, blocks: seq<seq<byte>>, r: seq<byte>, pos: nat, delivered: seq<byte>,
                          body: seq<byte>)
    requires Downloading(b, blocks, r, pos, delivered) && (pos == 0 || StartsAt(r) == AskedPos(b))
    requires AllTruthful(blocks, body) && FromTruthful(r, body) && |body| < WORD
    ensures |delivered| <= |body| && delivered == body[..|delivered|]
  {
    hide UintOf, PayloadOf, WellFormed, Consumed, AskedPos, StartsAt, FromTruthful;
    ConsumedIsPrefix(blocks, body);
    if pos == 0 {
      assert Body(blocks) + PayloadOf(r)[..0] == Body(blocks);
    } else {
      TruthfulNext(r, Body(blocks), body);
      assert delivered == (Body(blocks) + PayloadOf(r))[..|Body(blocks)| + pos];
    }
  }

  /** A download from a truthful server that has come to its end has delivered the whole body exactly when
      nothing that matters has been cut off the last datagram `d`, as of one shorter than the buffer. */
  lemma DownloadedIsBody(blocks: seq<seq<byte>>, d: seq<byte>, delivered: seq<byte>, body: seq<byte>)
    requires Downloaded(blocks, Buffered(d), delivered) && Truthful(d, body) && Readable(Clipped(d))
    requires AllTruthful(blocks, body) && |body| < WORD
    ensures delivered == body <==> KeepsBlock(d) || body == []
    ensures |d| < MAX_MSG_SIZE ==> delivered == body
  {
    hide UintOf, PayloadOf, Consumed, BlockPos, Buffered, Readable, Decode;
    var r := Buffered(d);
    ConsumedIsPrefix(blocks, body);
    BufferedBlock(d);
    LastBlock(Body(blocks), PayloadOf(r), PayloadOf(d), body);
    if UintOf(r, BLOCK2).None? {
      assert Body(blocks) == [] && delivered == PayloadOf(r);
    }
  }

  /** A beginning of the body, the rest of it, and a beginning of the rest. */
  lemma LastBlock(prefix: seq<byte>, kept: seq<byte>, rest: seq<byte>, body: seq<byte>)
    requires |prefix| <= |body| && prefix == body[..|prefix|] && kept <= rest
    ensures |prefix| + |rest| == |body| && rest == body[|prefix|..] ==> (prefix + kept == body <==> kept == rest)
  {
    assert body == body[..|prefix|] + body[|prefix|..];
    if |prefix| + |rest| == |body| && |kept| == |rest| {
      assert kept == rest;
    }
  }

  /** A body of 1200 bytes in one datagram: the download ends after 1019 of them. */
  lemma CutDownloadExample(body: seq<byte>)
    requires |body| == 1200
    ensures var d := [0x60, 0x45, 0, 0] + ([PAYLOAD_MARKER] + body);
      && Truthful(d, body) && Readable(Clipped(d))
      && Downloaded([], Buffered(d), body[..1019])
  {
    hide UintOf, DecodeOptions, Buffered, Clipped, HeaderSize;
    var header: seq<byte>, tail := [0x60, 0x45, 0, 0], [PAYLOAD_MARKER] + body;
    var d := header + tail;
    ExampleHeader(header);
    ExampleParts(d, header, tail, body, 1152);
    ExampleParts(d, header, tail, body, 1024);
    ExampleParts(d, header, tail, body, 1205);
    assert d[..1205] == d && body[..1200] == body && body[0..1200] == body;
    assert Clipped(d) == d[..1152] by { ExampleClipped(d); }
    BufferedExactly(d);
    assert Body([]) + PayloadOf(d[..1024]) == body[..1019];
  }

  lemma ExampleHeader(header: seq<byte>)
    requires header == [0x60, 0x45, 0, 0]
    ensures HeaderSize(header) == Ok(4)
  {
  }

  lemma ExampleClipped(d: seq<byte>)
    requires |d| == 1205
    ensures Clipped(d) == d[..1152]
  {
  }

  lemma ExampleParts(d: seq<byte>, header: seq<byte>, tail: seq<byte>, body: seq<byte>, n: nat)
    requires |header| == 4 && HeaderSize(header) == Ok(4) && tail == [PAYLOAD_MARKER] + body && d == header + tail
    requires 5 < n <= |d|
    ensures Decode(d[..n]).Ok? && Decode(d[..n]).value.tail == [PAYLOAD_MARKER] + body[..n - 5]
    ensures PayloadOf(d[..n]) == body[..n - 5] && UintOf(d[..n], BLOCK2) == None
  {
    hide UintOf, Decode, HeaderSize;
    var t := [PAYLOAD_MARKER] + body[..n - 5];
    MarkedIsTail(body[..n - 5]);
    assert d[..n] == header + t;
    NoOptionsUse(header, t, BLOCK2);
    PayloadOfTail(d[..n]);
    assert t[1..] == body[..n - 5];
  }
}
