/** What a full message buffer does to a block-wise upload, and how small a request must be for the buffer never
    to fill up: sections 2.2 and 2.5 of RFC 7959. */
module BlockRoom {
  import opened Common
  import opened OptionCodec
  import opened OptionList
  import opened OptionEditing
  import opened OptionMeaning
  import opened MessageView
  import opened WellFormedness
  import opened BlockOption
  import opened UintOption
  import opened MessageRoom
  import opened MessageUse
  import opened BlockUpload

  // ---------------------------------------------------------------------------------------------
  // Uploads that have lost data

  /** What holds of the request message however much of the data has been lost. */
  ghost predicate Steady(b: seq<byte>, blocks: seq<seq<byte>>, tx: nat)
    requires tx < 8
  {
    && WellFormed(b) && |ValuesOf(b, BLOCK1)| <= 1
    && (PosOf(b) == 0 ==> UintOf(b, BLOCK1).None?)
    && PosOf(b) <= |Body(blocks)| && PosOf(b) % BlockSize(SzxOf(b, tx)) == 0
    && |PayloadOf(b)| <= BlockSize(SzxOf(b, tx))
  }

  /** An upload some of whose data has been lost: there is less in the requests than has been written. */
  ghost predicate Spoiled(b: seq<byte>, blocks: seq<seq<byte>>, sent: seq<byte>, tx: nat)
    requires tx < 8
  {
    && |b| <= MAX_MSG_SIZE && |Body(blocks)| + |PayloadOf(b)| < |sent|
    && (Decode(b).Ok? ==> Steady(b, blocks, tx))
  }

  /** A payload write: the message before it, and the data. */
  datatype PayloadWrite = PayloadWrite(before: seq<byte>, data: seq<byte>)

  /** There was room for the zero behind the data of each write. */
  ghost predicate AllWhole(writes: seq<PayloadWrite>) {
    forall i :: 0 <= i < |writes| ==> IsWhole(writes[i])
  }

  predicate IsWhole(w: PayloadWrite) {
    Decode(w.before).Ok? && WritesWhole(w.before, w.data)
  }

  lemma NoneWritten()
    ensures AllWhole([])
  {
  }

  lemma AllWholeConcat(writes: seq<PayloadWrite>, more: seq<PayloadWrite>)
    ensures AllWhole(writes + more) <==> AllWhole(writes) && AllWhole(more)
  {
    hide IsWhole;
    if AllWhole(writes + more) {
      forall i | 0 <= i < |writes| ensures IsWhole(writes[i]) {
        assert (writes + more)[i] == writes[i];
      }
      forall i | 0 <= i < |more| ensures IsWhole(more[i]) {
        assert (writes + more)[|writes| + i] == more[i];
      }
    }
  }

  lemma AllWholeStep(writes: seq<PayloadWrite>, w: PayloadWrite)
    ensures AllWhole(writes + [w]) <==> AllWhole(writes) && IsWhole(w)
  {
    AllWholeConcat(writes, [w]);
    assert AllWhole([w]) <==> IsWhole([w][0]);
  }

  /** The upload is in order as long as it is whole. */
  ghost predicate Account(whole: bool, base: seq<byte>, b: seq<byte>, blocks: seq<seq<byte>>, sent: seq<byte>, tx: nat)
    requires tx < 8
  {
    if whole then Uploading(base, b, blocks, sent, tx) else Spoiled(b, blocks, sent, tx)
  }

  /** A spoiled upload is not in order, nor does it become so. */
  lemma SpoiledIsWrong(base: seq<byte>, b: seq<byte>, blocks: seq<seq<byte>>, sent: seq<byte>, tx: nat)
    requires tx < 8 && Spoiled(b, blocks, sent, tx)
    ensures !Uploading(base, b, blocks, sent, tx)
  {
    hide UintOf, PayloadOf, ValuesOf, WellFormed, BlockSize, SameRequest, BlockPos, Intermediates, Shrinking, Steady;
  }

  lemma AccountSteady(whole: bool, base: seq<byte>, b: seq<byte>, blocks: seq<seq<byte>>, sent: seq<byte>, tx: nat)
    requires tx < 8 && Account(whole, base, b, blocks, sent, tx) && Decode(b).Ok?
    ensures Steady(b, blocks, tx) && |b| <= MAX_MSG_SIZE
    ensures |Body(blocks)| + |PayloadOf(b)| <= |sent|
  {
    hide UintOf, PayloadOf, ValuesOf, WellFormed, BlockSize, SameRequest, BlockPos, Intermediates, Shrinking, Decode;
    if whole {
      ReadyForBlock(base, b, blocks, sent, tx);
      UploadingSizes(base, b, blocks, sent, tx);
    }
  }

  lemma UploadingDecodes(base: seq<byte>, b: seq<byte>, blocks: seq<seq<byte>>, sent: seq<byte>, tx: nat)
    requires tx < 8 && Uploading(base, b, blocks, sent, tx)
    ensures Decode(b).Ok?
  {
    hide UintOf, PayloadOf, ValuesOf, WellFormed, BlockSize, SameRequest, BlockPos, Intermediates, Shrinking, Decode;
    WellFormedSorted(b);
  }

  /** Data collected for the next block: the upload stays whole exactly when there is room for the zero behind
      the data. */
  lemma AccountWrite(whole: bool, base: seq<byte>, b: seq<byte>, blocks: seq<seq<byte>>, sent: seq<byte>,
                     data: seq<byte>, tx: nat)
    requires tx < 8 && Account(whole, base, b, blocks, sent, tx) && Decode(b).Ok?
    requires WritePayloadBytes(b, data).0 == NoError
    requires data != [] && |PayloadOf(b)| + |data| <= BlockSize(SzxOf(b, tx))
    ensures Account(whole && WritesWhole(b, data), base, WritePayloadBytes(b, data).1, blocks, sent + data, tx)
  {
    hide UintOf, PayloadOf, ValuesOf, WellFormed, BlockSize, SameRequest, BlockPos, Uploading, WritePayloadBytes,
         Decode,
         WritesWhole;
    AccountSteady(whole, base, b, blocks, sent, tx);
    var b' := WritePayloadBytes(b, data).1;
    if whole && WritesWhole(b, data) {
      AfterWrite(base, b, blocks, sent, data, tx);
    } else if WritesWhole(b, data) {
      WriteUse(b, data);
    } else {
      CutUse(b, data);
      SpoiledByWrite(b, b', blocks, data, tx);
    }
  }

  lemma SpoiledByWrite(b: seq<byte>, b': seq<byte>, blocks: seq<seq<byte>>, data: seq<byte>, tx: nat)
    requires tx < 8 && Steady(b, blocks, tx) && |PayloadOf(b)| + |data| <= BlockSize(SzxOf(b, tx))
    requires |PayloadOf(b')| < |PayloadOf(b)| + |data| && (Decode(b').Ok? ==> WellFormed(b'))
    requires Decode(b').Ok? ==>
      && |ValuesOf(b', BLOCK1)| <= |ValuesOf(b, BLOCK1)|
      && (UintOf(b', BLOCK1) == UintOf(b, BLOCK1) || (UintOf(b', BLOCK1) == None && PayloadOf(b') == []))
    ensures Decode(b').Ok? ==> Steady(b', blocks, tx)
  {
    hide UintOf, PayloadOf, ValuesOf, WellFormed, BlockPos, Decode, Scale, Body;
    assert 0 % BlockSize(tx) == 0;
  }

  /** One more block sent by a spoiled upload. */
  lemma SpoiledBlock(b: seq<byte>, blocks: seq<seq<byte>>, sent: seq<byte>, tx: nat, out: seq<byte>, b': seq<byte>)
    requires tx < 8 && Spoiled(b, blocks, sent, tx) && Decode(b).Ok? && |sent| < WORD
    requires |PayloadOf(b)| == BlockSize(SzxOf(b, tx)) && PayloadOf(out) == PayloadOf(b)
    requires WellFormed(b') && |b'| <= MAX_MSG_SIZE && |ValuesOf(b', BLOCK1)| <= 1
    requires UintOf(b', BLOCK1).Some? && PayloadOf(b') == [] && SzxOf(b', tx) <= SzxOf(b, tx)
    requires PosOf(b') == (PosOf(b) + BlockSize(SzxOf(b, tx))) % WORD
    ensures Spoiled(b', blocks + [out], sent, tx)
  {
    hide UintOf, PayloadOf, ValuesOf, WellFormed, BlockPos, Decode, BlockSize, SzxOf, PosOf;
    BodyStep(blocks, out);
    NextAligned(PosOf(b), SzxOf(b, tx), SzxOf(b', tx));
  }

  /** The last block sent by a spoiled upload. */
  lemma SpoiledLast(base: seq<byte>, b: seq<byte>, blocks: seq<seq<byte>>, sent: seq<byte>, tx: nat, out: seq<byte>)
    requires tx < 8 && Spoiled(b, blocks, sent, tx) && PayloadOf(out) == PayloadOf(b)
    ensures !Uploaded(base, blocks + [out], sent, tx)
  {
    hide UintOf, PayloadOf, Steady, Intermediates, Shrinking, AllSame, IsLast;
    BodyStep(blocks, out);
  }

  /** What an upload in order says about room. */
  lemma AccountReady(base: seq<byte>, b: seq<byte>, blocks: seq<seq<byte>>, sent: seq<byte>, tx: nat)
    requires tx < 8 && Account(true, base, b, blocks, sent, tx)
    ensures Decode(b).Ok? && |PayloadOf(b)| <= BlockSize(SzxOf(b, tx))
    ensures Spacious(b, tx) ==> Roomy(b, tx) && Lean(b, BLOCK1) && SizeOf(b, BLOCK1) + 12 <= MAX_MSG_SIZE
  {
    hide UintOf, PayloadOf, SzxOf, BlockSize, Uploading, Lean, SizeOf, Bare, Decode, Roomy;
    UploadingSizes(base, b, blocks, sent, tx);
    UploadingDecodes(base, b, blocks, sent, tx);
    if Spacious(b, tx) {
      SpaciousIsRoomy(b, tx);
      SpaciousSize(b, tx, SzxOf(b, tx));
    }
  }

  /** A block sent: the request message `b`, made ready as `out`, is `b'` once the block has been accepted. */
  lemma AccountSent(whole: bool, base: seq<byte>, b: seq<byte>, blocks: seq<seq<byte>>, sent: seq<byte>, tx: nat,
                    out: seq<byte>, b': seq<byte>, final: bool, asked: Option<uint32>)
    requires tx < 8 && Account(whole, base, b, blocks, sent, tx) && |sent| < WORD && Decode(b).Ok?
    requires !final ==> |PayloadOf(b)| == BlockSize(SzxOf(b, tx))
    requires whole && final ==> KeepsLast(b, blocks, 0)
    requires Prepared(b, out, PosOf(b), SzxOf(b, tx), final, asked, tx)
    requires WellFormed(b') && |b'| <= MAX_MSG_SIZE && SameRequest(out, b') && PayloadOf(b') == []
    requires final ==> ValuesOf(b', BLOCK1) == []
    requires !final ==>
      && |ValuesOf(b', BLOCK1)| == 1 && UintOf(b', BLOCK1).Some? && SzxOf(b', tx) <= SzxOf(b, tx)
      && PosOf(b') == (PosOf(b) + BlockSize(SzxOf(b, tx))) % WORD
    ensures !final ==> Account(whole, base, b', blocks + [out], sent, tx)
    ensures final ==>
      && (whole <==> Uploaded(base, blocks + [out], sent, tx))
      && (whole ==> Uploading(base, b', [], [], tx))
  {
    hide UintOf, PayloadOf, ValuesOf, WellFormed, SameRequest, BlockSize, Uploading, Uploaded, PosOf, SzxOf, Prepared,
         Spoiled, Decode;
    PreparedParts(b, out, PosOf(b), SzxOf(b, tx), final, asked, tx);
    if whole {
      ReadyForBlock(base, b, blocks, sent, tx);
      PreparedIsNext(base, b, blocks, sent, tx, out, final, asked);
      SameRequestTransitive(base, out, b');
      if final {
        AfterLast(base, b, blocks, sent, tx, out);
        FreshUpload(base, b', tx);
      } else {
        AfterBlock(base, b, blocks, sent, tx, out, b');
      }
    } else if final {
      SpoiledLast(base, b, blocks, sent, tx, out);
    } else {
      SpoiledBlock(b, blocks, sent, tx, out, b');
    }
  }

  // ---------------------------------------------------------------------------------------------
  // Requests with room to spare

  /** With the largest block and the largest Block1 option there are still bytes left behind the message. */
  ghost predicate Roomy(b: seq<byte>, tx: nat)
    requires tx < 8
  {
    Lean(b, BLOCK1) && Bare(b, BLOCK1) + 6 + 1 + BlockSize(tx) < MAX_MSG_SIZE
  }

  /** There is room for the largest Block1 and Block2 options besides, while either is being exchanged. */
  ghost predicate Spacious(b: seq<byte>, tx: nat)
    requires tx < 8
  {
    Lean(b, BLOCK1) && Bare(b, BLOCK1) + 18 + 1 + BlockSize(tx) <= MAX_MSG_SIZE
  }

  /** There is room for any Block2 option in the message. */
  ghost predicate HasRoom(b: seq<byte>) {
    Lean(b, BLOCK2) && SizeOf(b, BLOCK2) + 6 <= MAX_MSG_SIZE
  }

  lemma SpaciousIsRoomy(b: seq<byte>, tx: nat)
    requires tx < 8 && Spacious(b, tx)
    ensures Roomy(b, tx)
  {
    hide Lean, Bare;
  }

  lemma SpaciousSize(b: seq<byte>, tx: nat, szx: nat)
    requires tx < 8 && szx <= tx && Spacious(b, tx) && |PayloadOf(b)| <= BlockSize(szx)
    ensures SizeOf(b, BLOCK1) + 12 <= MAX_MSG_SIZE
  {
    hide WellFormed, Decode, Bare, ValuesOf;
    LeanSize(b, BLOCK1);
    PayloadOfTail(b);
    SmallerBlocks(szx, tx);
    TailOfMessage(b);
  }

  /** In such a message there is always room for a block and the zero behind it. */
  lemma RoomyWrites(b: seq<byte>, data: seq<byte>, tx: nat, szx: nat)
    requires tx < 8 && szx <= tx && Roomy(b, tx) && |PayloadOf(b)| + |data| <= BlockSize(szx)
    ensures Decode(b).Ok? && WritesWhole(b, data) && WritePayloadBytes(b, data).0 == NoError
  {
    hide WellFormed, Decode, Bare, ValuesOf, Terminated;
    LeanSize(b, BLOCK1);
    PayloadOfTail(b);
    SmallerBlocks(szx, tx);
    TailOfMessage(b);
  }

  lemma SmallerBlocks(szx: nat, tx: nat)
    requires szx <= tx < 8
    ensures BlockSize(szx) <= BlockSize(tx)
  {
  }

  // ---------------------------------------------------------------------------------------------
  // Requests without

  /** A request of 127 bytes, a path of 121 bytes behind an empty token, loses 128 bytes of its first block of
      1024: the write succeeds and fills the buffer. */
  lemma FullBufferExample(path: seq<byte>, data: seq<byte>)
    requires |path| == 121 && |data| == 1024
    ensures var b := OneOption([0x40, 0x03, 0, 0], 11, path, []);
      var (error, b') := WritePayloadBytes(b, data);
      && |b| == 127 && WellFormed(b) && Uploading(b, b, [], [], 6)
      && error == NoError && |b'| == 1024 && PayloadOf(b') == data[..896]
  {
    hide EncodeAll, WellFormedOptions, DecodeOptions, UintOf, Values;
    var header: seq<byte> := [0x40, 0x03, 0, 0];
    var b := OneOption(header, 11, path, []);
    OneOptionUse(header, 11, path, []);
    PathSize(path);
    ValuesOfOne(Opt(11, path), BLOCK1);
    SameRequestReflexive(b);
    FreshUpload(b, b, 6);
    FullBufferWrite(b, data);
  }

  lemma PathSize(path: seq<byte>)
    requires |path| == 121
    ensures |EncodeAll(0, [Opt(11, path)])| == 123
  {
    assert [Opt(11, path)][1..] == [];
  }

  /** The same for any request of that size. */
  lemma FullBufferWrite(b: seq<byte>, data: seq<byte>)
    requires Decode(b).Ok? && |b| == 127 && Decode(b).value.tail == [] && |data| == 1024
    ensures var (error, b') := WritePayloadBytes(b, data);
      error == NoError && |b'| == 1024 && PayloadOf(b') == data[..896] && !WritesWhole(b, data)
  {
    hide Decode;
    var full := b + [PAYLOAD_MARKER] + data;
    var b' := full[..1024];
    var t := [PAYLOAD_MARKER] + data[..896];
    TailOfMessage(b);
    MarkedIsTail(data[..896]);
    DecodeWithTail(b, t);
    assert b[..127] == b;
    assert b' == b + t;
    PayloadOfTail(b');
    assert t[1..] == data[..896];
  }
}
