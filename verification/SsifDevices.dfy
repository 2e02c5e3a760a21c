/**
 Two devices that answer SSIF reads: a conforming BMC, which ends a multi-part message with the
 end mark, and the repository's test device (BmcSmbusLibTest.c), which goes on numbering empty
 blocks until the number itself becomes the end mark.
 */
module SsifDevices {
  import opened Bytes
  import opened SsifProtocol

  function Min(a: int, b: int): int { if a < b then a else b }

  /** Where the k-th block of a multi-part message starts; the first block carries 30 bytes and
      every other one 31. */
  function Start(k: nat): nat
  {
    if k == 0 then 0 else 31 * k - 1
  }

  /** The longest message that 8-bit block numbers can number. */
  const MAX_MESSAGE := 30 + 31 * 255

  /** The conforming device. */
  function ConformingBlock(message: seq<byte>, k: nat): (r: BlockRead)
    requires message != [] && (|message| == 1 ==> message[0] != 0)
    ensures CoversHeader(k, r)
  {
    if |message| <= MAX_READ_SIZE then
      if k == 0 then Block(message) else ReadError(NotStarted)
    else if k == 0 then Block([0, 1] + message[..30])
    else if Start(k + 1) < |message| then Block([(k - 1) % 0x100] + message[Start(k)..Start(k + 1)])
    else if Start(k) < |message| then Block([END_BLOCK] + message[Start(k)..])
    else ReadError(NotStarted)
  }

  function ConformingStream(message: seq<byte>): (stream: Stream)
    requires message != [] && (|message| == 1 ==> message[0] != 0)
    ensures Sound(stream)
  {
    seq(MAX_BLOCKS, k requires 0 <= k => ConformingBlock(message, k))
  }

  /** What the test device remembers of the message being read (RxBuffer[..RxSize], RxOffset, RxBlock). */
  datatype Rx = Rx(message: seq<byte>, offset: nat, block: byte)

  function TestRead(rx: Rx, command: byte): (result: (Rx, BlockRead))
    requires rx.offset <= |rx.message|
    ensures result.0.offset <= |result.0.message| && result.0.message == rx.message
  {
    var n := |rx.message|;
    if n == 0 then (rx, ReadError(NotFound))
    else if command == CMD_READ then
      if rx.offset != 0 then (rx, ReadError(AlreadyStarted))
      else if n > MAX_READ_SIZE then (Rx(rx.message, 30, 0), Block([0, 1] + rx.message[..30]))
      else (rx.(offset := n), Block(rx.message))
    else if command == CMD_MULT_READ then
      if rx.offset == 0 then (rx, ReadError(NotStarted))
      else
        var size := Min(n - rx.offset, 31);
        (Rx(rx.message, rx.offset + size, (rx.block + 1) % 0x100),
         Block([rx.block] + rx.message[rx.offset..rx.offset + size]))
    else (rx, ReadError(InvalidParameter))
  }

  /** Which reads the test device refuses, and that those leave it alone: any while it has no
      message, a first read of a message that has been begun, a later one of one that has not, and
      commands other than 03h and 09h. */
  lemma TestReadRefusals(rx: Rx, command: byte)
    requires rx.offset <= |rx.message|
    ensures var (rx', r) := TestRead(rx, command);
      && (r == ReadError(NotFound) <==> rx.message == [])
      && (rx.message != [] ==>
            && (r == ReadError(AlreadyStarted) <==> command == 0x03 && rx.offset != 0)
            && (r == ReadError(NotStarted) <==> command == 0x09 && rx.offset == 0)
            && (r == ReadError(InvalidParameter) <==> command != 0x03 && command != 0x09))
      && (r.ReadError? ==> rx' == rx)
  {
  }

  function CommandOf(k: nat): byte {
    if k == 0 then CMD_READ else CMD_MULT_READ
  }

  /** The test device after k reads of one message. */
  function RxAfter(rx: Rx, k: nat): (rx': Rx)
    requires rx.offset <= |rx.message|
    ensures rx'.offset <= |rx'.message| && rx'.message == rx.message
  {
    if k == 0 then rx else TestRead(RxAfter(rx, k - 1), CommandOf(k - 1)).0
  }

  function TestBlock(rx: Rx, k: nat): BlockRead
    requires rx.offset <= |rx.message|
  {
    TestRead(RxAfter(rx, k), CommandOf(k)).1
  }

  /** A message to be read from its start, whose first byte tells it from a multi-part start. */
  ghost predicate Fresh(rx: Rx) {
    rx.offset == 0 && (|rx.message| == 1 ==> rx.message[0] != 0)
  }

  lemma NextNumber(k: nat)
    ensures (k % 0x100 + 1) % 0x100 == (k + 1) % 0x100
  {
  }

  lemma {:induction false} TestDeviceAfter(rx: Rx, k: nat)
    requires Fresh(rx) && |rx.message| > MAX_READ_SIZE && k > 0
    ensures RxAfter(rx, k) == Rx(rx.message, Min(Start(k), |rx.message|), (k - 1) % 0x100)
  {
    if k > 1 {
      TestDeviceAfter(rx, k - 1);
      NextNumber(k - 2);
    }
  }

  lemma {:induction false} TestDeviceAfterSingle(rx: Rx, k: nat)
    requires Fresh(rx) && 0 < |rx.message| <= MAX_READ_SIZE && k > 0
    ensures RxAfter(rx, k).offset == |rx.message|
    ensures k == 1 ==> RxAfter(rx, k).block == rx.block
  {
    if k > 1 { TestDeviceAfterSingle(rx, k - 1); }
  }

  lemma TestDeviceCoversHeader(rx: Rx, k: nat)
    requires Fresh(rx)
    ensures CoversHeader(k, TestBlock(rx, k))
  {
    if |rx.message| > MAX_READ_SIZE && k > 0 {
      TestDeviceAfter(rx, k);
    } else if |rx.message| > 0 && k > 0 {
      TestDeviceAfterSingle(rx, k);
    }
  }

  /** What has to come out of a read: the message, when the buffer can hold it. */
  function Expected(message: seq<byte>, size: nat): Outcome {
    if |message| <= size then Received(message) else Rejected(BufferTooSmall)
  }

  /** The k-th read returned a block numbered k - 1 that holds `piece`. */
  predicate Holds(k: nat, r: BlockRead, piece: seq<byte>) {
    r == Block([(k - 1) % 0x100] + piece)
  }

  lemma TakePiece(stream: Stream, k: nat, piece: seq<byte>, taken: seq<byte>, size: nat)
    requires Sound(stream)
    requires 0 < k < 0x100 && Holds(k, stream[k], piece)
    ensures Reassemble(stream, k, taken, size)
            == if |taken| + |piece| > size then Rejected(BufferTooSmall)
               else Reassemble(stream, k + 1, taken + piece, size)
  {
    assert stream[k].bytes[1..] == piece;
  }

  /** Up to the block that completes the message, the stream hands it out piece by piece. */
  ghost predicate HandsOut(stream: Stream, message: seq<byte>, last: nat) {
    && |message| > MAX_READ_SIZE && 0 < last < MAX_BLOCKS && Start(last) < |message| <= Start(last + 1)
    && Sound(stream)
    && stream[0] == Block([0, 1] + message[..30])
    && (forall i: nat :: 0 < i < last ==> Holds(i, stream[i], message[Start(i)..Start(i + 1)]))
  }

  lemma {:induction false} ReassembleHandedOut(stream: Stream, message: seq<byte>, last: nat, k: nat, size: nat)
    requires HandsOut(stream, message, last) && size < 0x100
    requires Start(last) <= size ==> Reassemble(stream, last, message[..Start(last)], size) == Expected(message, size)
    requires 0 < k <= last && Start(k) <= size
    ensures Reassemble(stream, k, message[..Start(k)], size) == Expected(message, size)
    decreases last - k
  {
    if k < last {
      var piece := message[Start(k)..Start(k + 1)];
      TakePiece(stream, k, piece, message[..Start(k)], size);
      if Start(k + 1) <= size {
        assert message[..Start(k)] + piece == message[..Start(k + 1)];
        ReassembleHandedOut(stream, message, last, k + 1, size);
      }
    }
  }

  lemma ReassembleFromStart(stream: Stream, message: seq<byte>, last: nat, size: nat)
    requires HandsOut(stream, message, last) && size < 0x100
    requires Start(last) <= size ==> Reassemble(stream, last, message[..Start(last)], size) == Expected(message, size)
    ensures Reassemble(stream, 0, [], size) == Expected(message, size)
  {
    assert stream[0].bytes[2..] == message[..30] && [] + message[..30] == message[..30];
    if 30 <= size { ReassembleHandedOut(stream, message, last, 1, size); }
  }

  /** Read round trip with a conforming BMC: every message that fits the buffer arrives as it was
      sent and a longer one is refused, unless it goes as one block that looks like the start of
      a multi-part message; that one never arrives. */
  lemma ConformingRoundTrip(message: seq<byte>, size: nat)
    requires 0 < |message| <= MAX_MESSAGE && (|message| == 1 ==> message[0] != 0)
    requires size < 0x100
    ensures var outcome := Reassemble(ConformingStream(message), 0, [], size);
      && (|message| > MAX_READ_SIZE || !StartsMultiPart(message) ==> outcome == Expected(message, size))
      && (|message| <= MAX_READ_SIZE && StartsMultiPart(message) ==> outcome.Rejected?)
    ensures |message| <= size ==>
      (Reassemble(ConformingStream(message), 0, [], size) == Received(message)
       <==> |message| > MAX_READ_SIZE || !StartsMultiPart(message))
  {
    if |message| > MAX_READ_SIZE {
      var last := |message| / 31;
      if Start(last) <= size { ConformingLastBlock(message, last, size); }
      ReassembleFromStart(ConformingStream(message), message, last, size);
    } else {
      assert [] + message == message;
      assert ConformingStream(message)[1] == ReadError(NotStarted);
    }
  }

  lemma ConformingLastBlock(message: seq<byte>, last: nat, size: nat)
    requires MAX_READ_SIZE < |message| <= MAX_MESSAGE
    requires 0 < last < 0x100 && Start(last) < |message| <= Start(last + 1) && Start(last) <= size
    ensures Reassemble(ConformingStream(message), last, message[..Start(last)], size) == Expected(message, size)
  {
    var rest := message[Start(last)..];
    assert ConformingStream(message)[last].bytes == [END_BLOCK] + rest;
    assert message[..Start(last)] + rest == message;
  }

  lemma {:induction false} EmptyBlocksEnd(stream: Stream, k: nat, taken: seq<byte>, size: nat)
    requires 0 < k <= 0x100 && |taken| <= size
    requires Sound(stream)
    requires forall i: nat :: k <= i <= 0x100 ==> Holds(i, stream[i], [])
    ensures Reassemble(stream, k, taken, size) == Received(taken)
    decreases 0x100 - k
  {
    assert Holds(k, stream[k], []) && taken + [] == taken;
    if k < 0x100 {
      TakePiece(stream, k, [], taken, size);
      EmptyBlocksEnd(stream, k + 1, taken, size);
    }
  }

  lemma TestDeviceBlock(rx: Rx, k: nat)
    requires Fresh(rx) && |rx.message| > MAX_READ_SIZE && k > 0
    ensures var n := |rx.message|; Holds(k, TestBlock(rx, k), rx.message[Min(Start(k), n)..Min(Start(k + 1), n)])
  {
    TestDeviceAfter(rx, k);
  }

  lemma TestDeviceFinalBlocks(rx: Rx, last: nat, k: nat)
    requires Fresh(rx) && |rx.message| > MAX_READ_SIZE
    requires 0 < last <= k && Start(last) < |rx.message| <= Start(last + 1)
    ensures Holds(k, TestBlock(rx, k), if k == last then rx.message[Start(last)..] else [])
  {
    var n := |rx.message|;
    TestDeviceBlock(rx, k);
    assert rx.message[Min(Start(k), n)..Min(Start(k + 1), n)] == if k == last then rx.message[Start(last)..] else [];
  }

  lemma TestDeviceNoPayload(rx: Rx, k: nat)
    requires Fresh(rx) && 0 < |rx.message| <= MAX_READ_SIZE && k > 0
    ensures NoPayload(TestBlock(rx, k))
  {
    TestDeviceAfterSingle(rx, k);
  }

  function TestStream(rx: Rx): (stream: Stream)
    requires rx.offset <= |rx.message|
    ensures forall k: nat :: k < MAX_BLOCKS ==> stream[k] == TestBlock(rx, k)
  {
    seq(MAX_BLOCKS, k requires 0 <= k => TestBlock(rx, k))
  }

  lemma TestStreamSound(rx: Rx)
    requires Fresh(rx)
    ensures Sound(TestStream(rx))
  {
    forall k: nat | k < MAX_BLOCKS ensures CoversHeader(k, TestStream(rx)[k]) { TestDeviceCoversHeader(rx, k); }
  }

  lemma TestDeviceTail(rx: Rx, last: nat, size: nat)
    requires Fresh(rx) && MAX_READ_SIZE < |rx.message| <= size < 0x100 && Sound(TestStream(rx))
    requires 0 < last < 0x100 && Start(last) < |rx.message| <= Start(last + 1)
    ensures Reassemble(TestStream(rx), last + 1, rx.message, size) == Received(rx.message)
  {
    var stream := TestStream(rx);
    forall k: nat | last < k < MAX_BLOCKS ensures Holds(k, stream[k], []) {
      TestDeviceFinalBlocks(rx, last, k);
    }
    EmptyBlocksEnd(stream, last + 1, rx.message, size);
  }

  lemma TestDeviceLastBlocks(rx: Rx, last: nat, size: nat)
    requires Fresh(rx) && MAX_READ_SIZE < |rx.message| <= MAX_MESSAGE && size < 0x100 && Sound(TestStream(rx))
    requires 0 < last < 0x100 && Start(last) < |rx.message| <= Start(last + 1) && Start(last) <= size
    ensures Reassemble(TestStream(rx), last, rx.message[..Start(last)], size) == Expected(rx.message, size)
  {
    var stream := TestStream(rx);
    var message := rx.message;
    var rest := message[Start(last)..];
    TestDeviceFinalBlocks(rx, last, last);
    assert message[..Start(last)] + rest == message;
    TakePiece(stream, last, rest, message[..Start(last)], size);
    if |message| <= size { TestDeviceTail(rx, last, size); }
  }

  /** The k-th block is numbered k - 1, empty once the message is handed out; so the number is the
      end mark only when counting through the empty blocks has reached it, at k = 256. */
  predicate CountsOn(rx: Rx, k: nat, r: BlockRead) {
    r.Block? && r.bytes != [] && r.bytes[0] == k - 1 && (k > |rx.message| / 31 ==> |r.bytes| == 1)
  }

  lemma TestDeviceMultiPart(rx: Rx, size: nat)
    requires Fresh(rx) && MAX_READ_SIZE < |rx.message| <= MAX_MESSAGE && size < 0x100 && Sound(TestStream(rx))
    ensures Reassemble(TestStream(rx), 0, [], size) == Expected(rx.message, size)
    ensures forall k: nat :: 0 < k < MAX_BLOCKS ==> CountsOn(rx, k, TestStream(rx)[k])
  {
    var stream := TestStream(rx);
    var last := |rx.message| / 31;
    forall k: nat | 0 < k < MAX_BLOCKS ensures CountsOn(rx, k, stream[k]) {
      TestDeviceBlock(rx, k);
      if k > last { TestDeviceFinalBlocks(rx, last, k); }
    }
    if Start(last) <= size { TestDeviceLastBlocks(rx, last, size); }
    forall k: nat | 0 < k < last ensures Holds(k, stream[k], rx.message[Start(k)..Start(k + 1)]) {
      TestDeviceBlock(rx, k);
    }
    ReassembleFromStart(stream, rx.message, last, size);
  }

  lemma TestDeviceSinglePart(rx: Rx, size: nat)
    requires Fresh(rx) && 0 < |rx.message| <= MAX_READ_SIZE && size < 0x100 && Sound(TestStream(rx))
    ensures StartsMultiPart(rx.message) ==> Reassemble(TestStream(rx), 0, [], size) != Received(rx.message)
    ensures !StartsMultiPart(rx.message) ==> Reassemble(TestStream(rx), 0, [], size) == Expected(rx.message, size)
  {
    var stream := TestStream(rx);
    assert stream[0] == Block(rx.message);
    if StartsMultiPart(rx.message) {
      var taken := rx.message[2..];
      assert [] + taken == taken;
      if |taken| <= size {
        forall k: nat | 0 < k < MAX_BLOCKS ensures NoPayload(stream[k]) { TestDeviceNoPayload(rx, k); }
        NothingMoreArrives(stream, 1, taken, size);
      }
    } else {
      assert [] + rx.message == rx.message;
    }
  }

  predicate NoPayload(r: BlockRead) {
    r.Block? && |r.bytes| == 1
  }

  lemma {:induction false} NothingMoreArrives(stream: Stream, k: nat, taken: seq<byte>, size: nat)
    requires 0 < k <= 0x100
    requires Sound(stream)
    requires forall i: nat :: k <= i <= 0x100 ==> NoPayload(stream[i])
    ensures var o := Reassemble(stream, k, taken, size); o.Received? ==> o.message == taken
    decreases 0x100 - k
  {
    assert NoPayload(stream[k]);
    assert stream[k].bytes[1..] == [] && taken + [] == taken;
    if k < 0x100 { NothingMoreArrives(stream, k + 1, taken, size); }
  }

  /** Read round trip with the test device, and exactly when it fails: a message that fits comes
      back intact unless it was sent as a single block that begins 00 01. */
  lemma TestDeviceRoundTrip(rx: Rx, size: nat)
    requires Fresh(rx) && 0 < |rx.message| <= size < 0x100 && Sound(TestStream(rx))
    ensures Reassemble(TestStream(rx), 0, [], size) == Received(rx.message)
            <==> |rx.message| > MAX_READ_SIZE || !StartsMultiPart(rx.message)
  {
    if |rx.message| > MAX_READ_SIZE { TestDeviceMultiPart(rx, size); } else { TestDeviceSinglePart(rx, size); }
  }

  /** A message that is lost: its first two bytes are taken for a multi-part header. */
  lemma TestDeviceLosesMultiPartStart(rx: Rx)
    requires rx.offset == 0 && rx.message == [0x00, 0x01, 0x07]
    ensures Sound(TestStream(rx))
    ensures Reassemble(TestStream(rx), 0, [], 0xFF) != Received(rx.message)
  {
    TestStreamSound(rx);
    TestDeviceRoundTrip(rx, 0xFF);
  }
}
