/** What a block-wise upload must look like on the wire: section 2.5 of RFC 7959. */
module BlockUpload {
  import opened Common
  import opened MessageView
  import opened WellFormedness
  import opened BlockOption
  import opened MessageUse

  /** The payloads of the requests sent, put together. */
  function Body(blocks: seq<seq<byte>>): seq<byte> {
    if blocks == [] then [] else Body(blocks[..|blocks| - 1]) + PayloadOf(blocks[|blocks| - 1])
  }

  /** A request that carries a full block, announces more, and is numbered by the bytes before it. */
  ghost predicate IsIntermediate(b: seq<byte>, before: nat) {
    match UintOf(b, BLOCK1)
    case None => false
    case Some(v) => More(v) && BlockPos(v) == before && |PayloadOf(b)| == BlockSize(Szx(v))
  }

  /** The last request: no more to come, numbered by the bytes before it, and empty only for an empty body.
      It needs no block option when it is the only one. */
  ghost predicate IsLast(b: seq<byte>, before: nat, tx: nat)
    requires tx < 8
  {
    && (PayloadOf(b) == [] ==> before == 0)
    && match UintOf(b, BLOCK1)
       case None => before == 0 && |PayloadOf(b)| <= BlockSize(tx)
       case Some(v) => !More(v) && BlockPos(v) == before && |PayloadOf(b)| <= BlockSize(Szx(v))
  }

  ghost predicate Intermediates(blocks: seq<seq<byte>>) {
    forall i :: 0 <= i < |blocks| ==> IsIntermediate(blocks[i], |Body(blocks[..i])|)
  }

  function SzxOf(b: seq<byte>, tx: nat): (s: nat)
    requires tx < 8
    ensures s < 8
  {
    match UintOf(b, BLOCK1)
    case None => tx
    case Some(v) => Szx(v)
  }

  /** Block sizes never grow. */
  ghost predicate Shrinking(blocks: seq<seq<byte>>, tx: nat)
    requires tx < 8
  {
    && (forall i :: 0 <= i < |blocks| ==> SzxOf(blocks[i], tx) <= tx)
    && (forall i, j :: 0 <= i < j < |blocks| ==> SzxOf(blocks[j], tx) <= SzxOf(blocks[i], tx))
  }

  ghost predicate AllSame(base: seq<byte>, blocks: seq<seq<byte>>) {
    forall i :: 0 <= i < |blocks| ==> SameRequest(base, blocks[i])
  }

  /** A whole upload of `body`. */
  ghost predicate Uploaded(base: seq<byte>, blocks: seq<seq<byte>>, body: seq<byte>, tx: nat)
    requires tx < 8
  {
    && blocks != []
    && var n := |blocks| - 1;
    && Body(blocks) == body
    && Intermediates(blocks[..n])
    && IsLast(blocks[n], |Body(blocks[..n])|, tx)
    && Shrinking(blocks, tx)
    && AllSame(base, blocks)
  }

  function PosOf(b: seq<byte>): uint32 {
    match UintOf(b, BLOCK1)
    case None => 0
    case Some(v) => BlockPos(v)
  }

  /** The position of the response body that a request message asks for. */
  function AskedPos(b: seq<byte>): uint32 {
    match UintOf(b, BLOCK2)
    case None => 0
    case Some(v) => BlockPos(v)
  }

  /** An upload under way: `blocks` have been sent, and the request message `b` holds the position and
      size of the next block and the bytes collected for it. */
  ghost predicate Uploading(base: seq<byte>, b: seq<byte>, blocks: seq<seq<byte>>, sent: seq<byte>, tx: nat)
    requires tx < 8
  {
    && WellFormed(b) && |b| <= MAX_MSG_SIZE && SameRequest(base, b)
    && |ValuesOf(b, BLOCK1)| <= 1
    && (blocks == [] <==> UintOf(b, BLOCK1).None?)
    && Intermediates(blocks) && Shrinking(blocks, tx) && AllSame(base, blocks)
    && PosOf(b) == |Body(blocks)| && PosOf(b) % BlockSize(SzxOf(b, tx)) == 0
    && SzxOf(b, tx) <= tx && (blocks != [] ==> SzxOf(b, tx) <= SzxOf(blocks[|blocks| - 1], tx))
    && |PayloadOf(b)| <= BlockSize(SzxOf(b, tx))
    && Body(blocks) + PayloadOf(b) == sent
  }

  /** No block has been sent without more data to follow it. */
  ghost predicate KeepsLast(b: seq<byte>, blocks: seq<seq<byte>>, length: nat) {
    blocks != [] && PayloadOf(b) == [] ==> length > 0
  }

  /** One more full block sent. */
  lemma AfterBlock(base: seq<byte>, b: seq<byte>, blocks: seq<seq<byte>>, sent: seq<byte>, tx: nat,
                   out: seq<byte>, b': seq<byte>)
    requires tx < 8 && Uploading(base, b, blocks, sent, tx)
    requires IsIntermediate(out, |Body(blocks)|) && SzxOf(out, tx) == SzxOf(b, tx)
    requires PayloadOf(out) == PayloadOf(b) && SameRequest(base, out)
    requires WellFormed(b') && |b'| <= MAX_MSG_SIZE && SameRequest(base, b') && |ValuesOf(b', BLOCK1)| <= 1
    requires UintOf(b', BLOCK1).Some? && PayloadOf(b') == []
    requires SzxOf(b', tx) <= SzxOf(b, tx) && PosOf(b') == PosOf(b) + BlockSize(SzxOf(b, tx))
    ensures Uploading(base, b', blocks + [out], sent, tx)
  {
    hide UintOf, PayloadOf, ValuesOf, WellFormed, BlockSize, SameRequest, BlockPos, IsIntermediate, SzxOf,
         Intermediates, Shrinking;
    BodyStep(blocks, out);
    IntermediatesStep(blocks, out);
    ShrinkingStep(blocks, out, tx);
    assert (blocks + [out])[|blocks|] == out;
    FullPayload(out, |Body(blocks)|, tx);
    NextAligned(PosOf(b), SzxOf(b, tx), SzxOf(b', tx));
    assert Body(blocks + [out]) + [] == Body(blocks + [out]);
  }

  lemma FullPayload(out: seq<byte>, before: nat, tx: nat)
    requires tx < 8 && IsIntermediate(out, before)
    ensures |PayloadOf(out)| == BlockSize(SzxOf(out, tx))
  {
    hide UintOf, PayloadOf, BlockSize;
  }

  lemma IntermediatesStep(blocks: seq<seq<byte>>, out: seq<byte>)
    requires Intermediates(blocks) && IsIntermediate(out, |Body(blocks)|)
    ensures Intermediates(blocks + [out])
  {
    hide IsIntermediate, Body;
    var blocks' := blocks + [out];
    forall i | 0 <= i < |blocks'| ensures IsIntermediate(blocks'[i], |Body(blocks'[..i])|) {
      assert i < |blocks| ==> blocks'[i] == blocks[i] && blocks'[..i] == blocks[..i];
      assert i == |blocks| ==> blocks'[..i] == blocks;
    }
  }

  lemma ShrinkingStep(blocks: seq<seq<byte>>, out: seq<byte>, tx: nat)
    requires tx < 8 && Shrinking(blocks, tx) && SzxOf(out, tx) <= tx
    requires blocks != [] ==> SzxOf(out, tx) <= SzxOf(blocks[|blocks| - 1], tx)
    ensures Shrinking(blocks + [out], tx)
  {
    hide UintOf, SzxOf;
  }

  /** The last block sent. */
  lemma AfterLast(base: seq<byte>, b: seq<byte>, blocks: seq<seq<byte>>, sent: seq<byte>, tx: nat, out: seq<byte>)
    requires tx < 8 && Uploading(base, b, blocks, sent, tx)
    requires IsLast(out, |Body(blocks)|, tx) && SzxOf(out, tx) == SzxOf(b, tx)
    requires PayloadOf(out) == PayloadOf(b) && SameRequest(base, out)
    ensures Uploaded(base, blocks + [out], sent, tx)
  {
    hide UintOf, PayloadOf, ValuesOf, WellFormed, BlockSize, SameRequest, BlockPos, Intermediates, IsLast;
    BodyStep(blocks, out);
    SzxBounded(blocks, SzxOf(b, tx), tx);
    assert (blocks + [out])[..|blocks|] == blocks;
  }

  lemma BodyStep(blocks: seq<seq<byte>>, out: seq<byte>)
    ensures Body(blocks + [out]) == Body(blocks) + PayloadOf(out)
  {
    assert (blocks + [out])[..|blocks|] == blocks;
  }

  lemma SzxBounded(blocks: seq<seq<byte>>, szx: nat, tx: nat)
    requires tx < 8 && Shrinking(blocks, tx)
    requires blocks != [] ==> szx <= SzxOf(blocks[|blocks| - 1], tx)
    ensures forall i :: 0 <= i < |blocks| ==> szx <= SzxOf(blocks[i], tx)
  {
    hide UintOf;
  }

  /** `p` is the request message `b` made ready to carry its payload as the block at `pos`, and to ask for the
      response body by the Block2 option `asked`. */
  ghost predicate Prepared(b: seq<byte>, p: seq<byte>, pos: uint32, szx: nat, final: bool, asked: Option<uint32>,
                           tx: nat)
    requires tx < 8
  {
    && WellFormed(p) && |p| <= MAX_MSG_SIZE && SameRequest(b, p)
    && |ValuesOf(p, BLOCK1)| <= 1 && PayloadOf(p) == PayloadOf(b) && SzxOf(p, tx) == szx
    && UintOf(p, BLOCK2) == asked
    && match UintOf(p, BLOCK1)
       case None => pos == 0 && final
       case Some(v) => (pos > 0 || !final) && More(v) == !final && BlockPos(v) == pos
  }

  /** What the preparation of a block leaves alone. */
  lemma PreparedParts(b: seq<byte>, p: seq<byte>, pos: uint32, szx: nat, final: bool, asked: Option<uint32>,
                           tx: nat)
    requires tx < 8 && Prepared(b, p, pos, szx, final, asked, tx)
    ensures WellFormed(p) && |p| <= MAX_MSG_SIZE && SameRequest(b, p) && |ValuesOf(p, BLOCK1)| <= 1
    ensures PayloadOf(p) == PayloadOf(b) && SzxOf(p, tx) == szx && UintOf(p, BLOCK2) == asked
  {
    hide UintOf, PayloadOf, ValuesOf, WellFormed, SameRequest;
  }

  /** What its block option says, if it has one. */
  lemma PreparedBlock(b: seq<byte>, p: seq<byte>, pos: uint32, szx: nat, final: bool, asked: Option<uint32>, tx: nat)
    requires tx < 8 && Prepared(b, p, pos, szx, final, asked, tx)
    ensures UintOf(p, BLOCK1).Some? <==> pos > 0 || !final
    ensures UintOf(p, BLOCK1).Some? ==> BlockPos(UintOf(p, BLOCK1).value) == pos
  {
    hide UintOf, PayloadOf, ValuesOf, WellFormed, SameRequest;
  }

  /** Each block carries 16 bytes or more, which bounds the number of requests by the size of the body. */
  lemma {:induction false} IntermediatesCount(blocks: seq<seq<byte>>)
    requires Intermediates(blocks)
    ensures |Body(blocks)| >= 16 * |blocks|
    decreases |blocks|
  {
    hide UintOf, PayloadOf;
    if blocks != [] {
      var n := |blocks| - 1;
      forall i | 0 <= i < n ensures IsIntermediate(blocks[..n][i], |Body(blocks[..n][..i])|) {
        assert blocks[..n][..i] == blocks[..i];
        assert IsIntermediate(blocks[i], |Body(blocks[..i])|);
      }
      IntermediatesCount(blocks[..n]);
      assert IsIntermediate(blocks[n], |Body(blocks[..n])|);
    }
  }

  /** A block that is ready is what the protocol wants next. */
  lemma PreparedIsNext(base: seq<byte>, b: seq<byte>, blocks: seq<seq<byte>>, sent: seq<byte>, tx: nat,
                       p: seq<byte>, final: bool, asked: Option<uint32>)
    requires tx < 8 && Uploading(base, b, blocks, sent, tx)
    requires Prepared(b, p, PosOf(b), SzxOf(b, tx), final, asked, tx)
    requires !final ==> |PayloadOf(b)| == BlockSize(SzxOf(b, tx))
    requires final ==> KeepsLast(b, blocks, 0)
    ensures SameRequest(base, p) && WellFormed(p) && |ValuesOf(p, BLOCK1)| <= 1
    ensures PayloadOf(p) == PayloadOf(b) && SzxOf(p, tx) == SzxOf(b, tx) && UintOf(p, BLOCK2) == asked
    ensures !final ==> IsIntermediate(p, |Body(blocks)|)
    ensures final ==> IsLast(p, |Body(blocks)|, tx)
  {
    hide UintOf, PayloadOf, ValuesOf, WellFormed, BlockSize, SameRequest, BlockPos, Intermediates, Shrinking;
    SameRequestTransitive(base, b, p);
  }

  /** What an upload under way says about its next block. */
  lemma ReadyForBlock(base: seq<byte>, b: seq<byte>, blocks: seq<seq<byte>>, sent: seq<byte>, tx: nat)
    requires tx < 8 && Uploading(base, b, blocks, sent, tx)
    ensures WellFormed(b) && |ValuesOf(b, BLOCK1)| <= 1 && PosOf(b) % BlockSize(SzxOf(b, tx)) == 0
    ensures PosOf(b) == 0 ==> UintOf(b, BLOCK1).None?
    ensures PosOf(b) + |PayloadOf(b)| == |sent|
  {
    hide UintOf, PayloadOf, ValuesOf, WellFormed, BlockSize, SameRequest, BlockPos, Intermediates, Shrinking;
    IntermediatesCount(blocks);
  }

  lemma WellFormedLength(b: seq<byte>)
    requires WellFormed(b)
    ensures |b| >= HEADER_SIZE
  {
    hide WellFormedOptions;
  }

  /** A block stays ready whatever its message ID. */
  lemma PreparedAnyMid(b: seq<byte>, p: seq<byte>, pos: uint32, szx: nat, final: bool, asked: Option<uint32>,
                           tx: nat)
    requires tx < 8 && Prepared(b, p, pos, szx, final, asked, tx)
    ensures |p| >= HEADER_SIZE
    ensures forall out: seq<byte> :: |out| == |p| && out[..2] == p[..2] && out[4..] == p[4..] ==>
      Prepared(b, out, pos, szx, final, asked, tx)
  {
    hide UintOf, PayloadOf, ValuesOf, WellFormed, SameRequest, BlockPos;
    WellFormedLength(p);
    forall out: seq<byte> | |out| == |p| && out[..2] == p[..2] && out[4..] == p[4..]
      ensures Prepared(b, out, pos, szx, final, asked, tx)
    {
      MidUse(p, out);
      SameRequestTransitive(b, p, out);
    }
  }

  /** A message without Block1 and payload is ready for a new upload. */
  lemma FreshUpload(base: seq<byte>, b: seq<byte>, tx: nat)
    requires tx < 8 && WellFormed(b) && |b| <= MAX_MSG_SIZE && SameRequest(base, b)
    requires ValuesOf(b, BLOCK1) == [] && PayloadOf(b) == []
    ensures Uploading(base, b, [], [], tx)
  {
    hide UintOf, PayloadOf, ValuesOf, WellFormed, SameRequest;
    WellFormedSorted(b);
    UintOfValues(b, BLOCK1);
    assert [] + PayloadOf(b) == [];
    assert 0 % BlockSize(tx) == 0;
  }

  lemma FreshSize(b: seq<byte>, tx: nat)
    requires tx < 8 && Uploading(b, b, [], [], tx)
    ensures SzxOf(b, tx) == tx
  {
    hide UintOf, PayloadOf, ValuesOf, WellFormed, SameRequest;
  }

  lemma UploadingSizes(base: seq<byte>, b: seq<byte>, blocks: seq<seq<byte>>, sent: seq<byte>, tx: nat)
    requires tx < 8 && Uploading(base, b, blocks, sent, tx)
    ensures |PayloadOf(b)| <= BlockSize(SzxOf(b, tx)) && WellFormed(b) && SzxOf(b, tx) <= tx
  {
    hide UintOf, PayloadOf, ValuesOf, WellFormed, SameRequest;
  }

  lemma PayloadIs(b: seq<byte>)
    ensures PayloadOf(b) == if Decode(b).Ok? then Decode(b).value.Payload() else []
  {
  }

  /** Data collected for the next block. */
  lemma AfterWrite(base: seq<byte>, b: seq<byte>, blocks: seq<seq<byte>>, sent: seq<byte>, data: seq<byte>, tx: nat)
    requires tx < 8 && Uploading(base, b, blocks, sent, tx)
    requires WritePayloadBytes(b, data).0 == NoError && Decode(b).Ok? && WritesWhole(b, data)
    requires data != [] && |PayloadOf(b)| + |data| <= BlockSize(SzxOf(b, tx))
    ensures var b' := WritePayloadBytes(b, data).1;
      && Uploading(base, b', blocks, sent + data, tx)
      && PayloadOf(b') != [] && UintOf(b', BLOCK2) == UintOf(b, BLOCK2) && SzxOf(b', tx) == SzxOf(b, tx)
  {
    hide UintOf, PayloadOf, ValuesOf, WellFormed, SameRequest, BlockSize, Intermediates, Shrinking, WritePayloadBytes,
         WritesWhole;
    WriteUse(b, data);
    var b' := WritePayloadBytes(b, data).1;
    SameRequestTransitive(base, b, b');
    assert Body(blocks) + (PayloadOf(b) + data) == Body(blocks) + PayloadOf(b) + data;
  }

  lemma ReadyToDownload(base: seq<byte>, b: seq<byte>, tx: nat)
    requires tx < 8 && Uploading(base, b, [], [], tx)
    ensures WellFormed(b) && |b| <= MAX_MSG_SIZE
  {
    hide UintOf, PayloadOf, ValuesOf, WellFormed, SameRequest, AskedPos;
  }
}
