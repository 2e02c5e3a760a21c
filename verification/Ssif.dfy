/**
 The SSIF transport (Ssif.c) over an SMBus. Behind the bus sits either the repository's test
 device (BmcSmbusLibTest.c) or, when `wild`, an arbitrary device: one that may refuse any open or
 write, and that answers the reads with any stream of blocks.
 */
module Ssif {
  import opened Bytes
  import opened SsifProtocol
  import opened SsifDevices

  const TEST_BUFFER_SIZE := 1024

  function StatusAt(script: seq<EfiStatus>, n: nat): EfiStatus {
    if n < |script| then script[n] else Success
  }

  /** No device overruns the reader's buffer. */
  predicate Possible(r: BlockRead) {
    if r.Block? then |r.bytes| <= MAX_READ_BUFFER_SIZE else r.status != Success
  }

  /** The test device takes a first block only into an empty buffer, and any other only after one. */
  function TestWriteStatus(command: byte, txSize: nat): EfiStatus {
    var first := command == CMD_WRITE || command == CMD_MULT_WRITE_START;
    var later := command == CMD_MULT_WRITE_MIDDLE || command == CMD_MULT_WRITE_END;
    if first && txSize != 0 then AlreadyStarted
    else if later && txSize == 0 then NotStarted
    else if first || later then Success
    else InvalidParameter
  }

  /** A write (02h) or the start of one (06h) needs an empty buffer, a middle (07h) or end (08h) one
      that is not, and there is nothing else to write. */
  lemma TestWriteRules(command: byte, txSize: nat)
    ensures command in {0x02, 0x06} ==>
      TestWriteStatus(command, txSize) == if txSize == 0 then Success else AlreadyStarted
    ensures command in {0x07, 0x08} ==>
      TestWriteStatus(command, txSize) == if txSize == 0 then NotStarted else Success
    ensures command !in {0x02, 0x06, 0x07, 0x08} ==> TestWriteStatus(command, txSize) == InvalidParameter
  {
  }

  /** The read succeeded with the bytes of the block, or failed as the device says. */
  predicate Delivers(status: EfiStatus, buffer: seq<byte>, size: nat, r: BlockRead) {
    match r
    case ReadError(failure) => status == failure != Success
    case Block(bytes) => status == Success && size == |bytes| <= |buffer| && buffer[..size] == bytes
  }

  lemma SliceOfPrefix(s: seq<byte>, n: nat, a: nat, b: nat)
    requires a <= b <= n <= |s|
    ensures s[..n][a..b] == s[a..b]
  {
  }

  class Smbus {
    const wild: bool
    const wildReads: seq<BlockRead>
    const wildWrites: seq<EfiStatus>
    const wildOpens: seq<EfiStatus>

    // The test device.
    const rxBuffer: array<byte>
    const txBuffer: array<byte>
    var rxOffset: nat
    var rxSize: nat
    var rxBlock: byte
    var txSize: nat

    // What crossed the bus.
    var readCount: nat
    var writes: seq<Frame>
    var opens: nat
    var closes: nat

    /** The n-th answer of the arbitrary device. */
    function Scripted(n: nat): BlockRead {
      if n < |wildReads| then wildReads[n] else ReadError(Timeout)
    }

    function ScriptedStream(n: nat): (stream: Stream)
      ensures forall k: nat :: k < MAX_BLOCKS ==> stream[k] == Scripted(n + k)
    {
      var stream := seq(MAX_BLOCKS, k requires 0 <= k => Scripted(n + k));
      assert |stream| == MAX_BLOCKS;
      stream
    }

    ghost predicate Valid()
      reads this
    {
      && rxBuffer != txBuffer && rxBuffer.Length == txBuffer.Length == TEST_BUFFER_SIZE
      && rxOffset <= rxSize <= TEST_BUFFER_SIZE && txSize <= TEST_BUFFER_SIZE
      && forall k :: 0 <= k < |wildReads| ==> Possible(wildReads[k])
    }

    ghost function Incoming(): (rx: Rx)
      requires Valid()
      reads this, rxBuffer
      ensures rx.offset <= |rx.message|
    {
      Rx(rxBuffer[..rxSize], rxOffset, rxBlock)
    }

    /** The blocks this device would return to a reader that starts now. */
    ghost function Blocks(): Stream
      requires Valid()
      reads this, rxBuffer
    {
      var n := readCount;
      if wild then ScriptedStream(n) else TestStream(Incoming())
    }

    constructor (wild: bool, wildReads: seq<BlockRead>, wildWrites: seq<EfiStatus>, wildOpens: seq<EfiStatus>)
      requires forall k :: 0 <= k < |wildReads| ==> Possible(wildReads[k])
      ensures Valid() && fresh(rxBuffer) && fresh(txBuffer)
      ensures this.wild == wild && Incoming() == Rx([], 0, 0xFF) && txSize == 0 && opens == closes == 0
    {
      this.wild, this.wildReads, this.wildWrites, this.wildOpens := wild, wildReads, wildWrites, wildOpens;
      rxBuffer, txBuffer := new byte[TEST_BUFFER_SIZE](_ => 0), new byte[TEST_BUFFER_SIZE](_ => 0);
      rxOffset, rxSize, rxBlock, txSize := 0, 0, 0xFF, 0;
      readCount, writes, opens, closes := 0, [], 0, 0;
    }

    method SetRxBuffer(data: array<byte>, size: nat)
      requires Valid() && size <= data.Length && size <= TEST_BUFFER_SIZE && data != rxBuffer
      modifies this`rxSize, this`rxOffset, rxBuffer
      ensures Valid() && Incoming() == Rx(data[..size], 0, rxBlock)
    {
      forall i | 0 <= i < size { rxBuffer[i] := data[i]; }
      rxSize, rxOffset := size, 0;
    }

    method BmcSmbusOpen() returns (status: EfiStatus)
      modifies this`opens
      ensures opens == if status == Success then old(opens) + 1 else old(opens)
      ensures wild ==> status == StatusAt(wildOpens, old(opens))
      ensures !wild ==> status == Success
    {
      status := if wild then StatusAt(wildOpens, opens) else Success;
      if status == Success { opens := opens + 1; }
    }

    method BmcSmbusClose()
      modifies this`closes
      ensures closes == old(closes) + 1
    {
      closes := closes + 1;
    }

    method BmcSmbusBlockWrite(command: byte, block: seq<byte>) returns (status: EfiStatus)
      requires Valid()
      requires !wild && TestWriteStatus(command, txSize) == Success ==> txSize + |block| <= TEST_BUFFER_SIZE
      modifies this`txSize, this`writes, txBuffer
      ensures Valid() && writes == old(writes) + [Frame(command, block)]
      ensures wild ==> status == StatusAt(wildWrites, |old(writes)|) && txSize == old(txSize)
      ensures !wild ==> status == TestWriteStatus(command, old(txSize))
      ensures !wild && status == Success ==>
        txBuffer[..txSize] == old(txBuffer[..txSize]) + block[..Min(|block|, MAX_WRITE_SIZE)]
      ensures wild || status != Success ==> txSize == old(txSize) && txBuffer[..] == old(txBuffer[..])
    {
      var sent := |writes|;
      writes := writes + [Frame(command, block)];
      if wild { return StatusAt(wildWrites, sent); }
      var writeSize := if |block| < MAX_WRITE_SIZE then |block| else MAX_WRITE_SIZE;
      if command != CMD_WRITE && command != CMD_MULT_WRITE_START
         && command != CMD_MULT_WRITE_MIDDLE && command != CMD_MULT_WRITE_END {
        return InvalidParameter;
      }
      if (command == CMD_WRITE || command == CMD_MULT_WRITE_START) && txSize != 0 {
        return AlreadyStarted;
      }
      if (command == CMD_MULT_WRITE_MIDDLE || command == CMD_MULT_WRITE_END) && txSize == 0 {
        return NotStarted;
      }
      forall i | 0 <= i < writeSize { txBuffer[txSize + i] := block[i]; }
      txSize := txSize + writeSize;
      return Success;
    }

    /** The device is about to return the k-th block of the stream, and the rest after it. */
    ghost predicate At(stream: Stream, rx: Rx, k: nat)
      requires Valid() && rx.offset <= |rx.message|
      reads this, rxBuffer
    {
      if wild then readCount >= k && stream == ScriptedStream(readCount - k)
      else Incoming() == RxAfter(rx, k) && stream == TestStream(rx)
    }

    lemma StartsAtFirstBlock()
      requires Valid()
      ensures At(Blocks(), Incoming(), 0)
    {
    }

    /** The test device's answer to a first read, put in the reader's buffer. */
    method TestReadFirst(buffer: array<byte>) returns (status: EfiStatus, size: nat)
      requires Valid() && buffer.Length == MAX_READ_BUFFER_SIZE && buffer != rxBuffer && buffer != txBuffer
      requires rxSize > 0
      modifies this`rxOffset, this`rxBlock, buffer
      ensures Valid() && Incoming() == TestRead(old(Incoming()), CMD_READ).0
      ensures Delivers(status, buffer[..], size, TestRead(old(Incoming()), CMD_READ).1)
    {
      if rxOffset != 0 { return AlreadyStarted, buffer.Length; }
      if rxSize > MAX_READ_SIZE {
        buffer[0], buffer[1] := 0, 1;
        CopyMem(buffer, 2, rxBuffer, 0, MAX_READ_SIZE - 2);
        rxOffset, rxBlock, size := MAX_READ_SIZE - 2, 0, MAX_READ_SIZE;
      } else {
        CopyMem(buffer, 0, rxBuffer, 0, rxSize);
        rxOffset, size := rxSize, rxSize;
      }
      status := Success;
    }

    /** The test device's answer to a later read. */
    method TestReadNext(buffer: array<byte>) returns (status: EfiStatus, size: nat)
      requires Valid() && buffer.Length == MAX_READ_BUFFER_SIZE && buffer != rxBuffer && buffer != txBuffer
      requires rxSize > 0
      modifies this`rxOffset, this`rxBlock, buffer
      ensures Valid() && Incoming() == TestRead(old(Incoming()), CMD_MULT_READ).0
      ensures Delivers(status, buffer[..], size, TestRead(old(Incoming()), CMD_MULT_READ).1)
    {
      if rxOffset == 0 { return NotStarted, buffer.Length; }
      var readSize := if rxSize - rxOffset < MAX_READ_SIZE - 1 then rxSize - rxOffset else MAX_READ_SIZE - 1;
      ghost var piece := rxBuffer[..rxSize][rxOffset..rxOffset + readSize];
      SliceOfPrefix(rxBuffer[..], rxSize, rxOffset, rxOffset + readSize);
      buffer[0] := rxBlock;
      CopyMem(buffer, 1, rxBuffer, rxOffset, readSize);
      assert buffer[..1] == [rxBlock] && buffer[..1 + readSize] == [rxBlock] + piece;
      rxBlock, rxOffset, size := (rxBlock + 1) % 0x100, rxOffset + readSize, readSize + 1;
      status := Success;
    }

    method BmcSmbusBlockRead(command: byte, buffer: array<byte>) returns (status: EfiStatus, size: nat)
      requires Valid() && buffer.Length == MAX_READ_BUFFER_SIZE && buffer != rxBuffer && buffer != txBuffer
      modifies this`readCount, this`rxOffset, this`rxBlock, buffer
      ensures Valid() && readCount == old(readCount) + 1
      ensures Delivers(status, buffer[..], size,
        if wild then Scripted(old(readCount)) else TestRead(old(Incoming()), command).1)
      ensures !wild ==> Incoming() == TestRead(old(Incoming()), command).0
    {
      var asked := readCount;
      readCount := readCount + 1;
      if !wild {
        if rxSize == 0 { return NotFound, buffer.Length; }
        if command == CMD_READ {
          status, size := TestReadFirst(buffer);
        } else if command == CMD_MULT_READ {
          status, size := TestReadNext(buffer);
        } else {
          status, size := InvalidParameter, buffer.Length;
        }
        return;
      }
      assert Possible(Scripted(asked));
      match Scripted(asked) {
        case ReadError(failure) =>
          status, size := failure, buffer.Length;
        case Block(bytes) =>
          forall i | 0 <= i < |bytes| { buffer[i] := bytes[i]; }
          status, size := Success, |bytes|;
      }
    }
  }

  /** The k-th read of a message. */
  method ReadNext(bus: Smbus, command: byte, buffer: array<byte>, ghost stream: Stream, ghost rx: Rx, ghost k: nat)
    returns (status: EfiStatus, size: nat)
    requires bus.Valid() && buffer.Length == MAX_READ_BUFFER_SIZE && buffer != bus.rxBuffer && buffer != bus.txBuffer
    requires rx.offset <= |rx.message| && k < MAX_BLOCKS && bus.At(stream, rx, k) && command == CommandOf(k)
    modifies bus`readCount, bus`rxOffset, bus`rxBlock, buffer
    ensures bus.Valid() && bus.At(stream, rx, k + 1) && bus.readCount == old(bus.readCount) + 1
    ensures Delivers(status, buffer[..], size, stream[k])
  {
    status, size := bus.BmcSmbusBlockRead(command, buffer);
  }

  /** Write the i-th fragment. */
  method WriteNext(bus: Smbus, data: seq<byte>, command: byte, offset: nat, ghost i: nat, ghost before: seq<Frame>)
    returns (status: EfiStatus, writeSize: nat)
    requires bus.Valid() && offset == 32 * i < |data| < 0x100 && command == FrameCommand(|data|, i)
    requires !bus.wild && i > 0 ==> bus.txBuffer[..bus.txSize] == data[..offset]
    requires i <= FrameCount(|data|) && bus.writes == before + Fragments(data)[..i]
    modifies bus`txSize, bus`writes, bus.txBuffer
    ensures offset + writeSize <= |data|
    ensures bus.Valid() && i < FrameCount(|data|) && bus.writes == before + Fragments(data)[..i + 1]
    ensures offset + writeSize == |data| <==> i + 1 == FrameCount(|data|)
    ensures writeSize == if |data| - offset < MAX_WRITE_SIZE then |data| - offset else MAX_WRITE_SIZE
    ensures |bus.writes| == |old(bus.writes)| + 1
    ensures bus.wild ==> status == StatusAt(bus.wildWrites, |old(bus.writes)|)
    ensures !bus.wild ==> status == if i == 0 && old(bus.txSize) != 0 then AlreadyStarted else Success
    ensures !bus.wild && status == Success ==> bus.txBuffer[..bus.txSize] == data[..offset + writeSize]
  {
    writeSize := if |data| - offset < MAX_WRITE_SIZE then |data| - offset else MAX_WRITE_SIZE;
    var block := data[offset..offset + writeSize];
    assert block[..Min(|block|, MAX_WRITE_SIZE)] == block;
    NextWrite(before, data, i, block);
    status := bus.BmcSmbusBlockWrite(command, block);
  }

  lemma NextWrite(before: seq<Frame>, data: seq<byte>, i: nat, block: seq<byte>)
    requires 32 * i + |block| <= |data| && block == data[32 * i..32 * i + |block|]
    requires 32 * i < |data| && |block| == Min(|data| - 32 * i, MAX_WRITE_SIZE)
    ensures i < FrameCount(|data|) && (32 * i + |block| == |data| <==> i + 1 == FrameCount(|data|))
    ensures data[..32 * i] + block == data[..32 * i + |block|]
    ensures before + Fragments(data)[..i] + [Frame(FrameCommand(|data|, i), block)] == before + Fragments(data)[..i + 1]
  {
    NextFrame(data, i, |block|);
  }

  /** Of the writes since the `from`-th, all but the last were taken, and `status` is what came of
      the last. */
  ghost predicate StopsAtRefusal(bus: Smbus, from: nat, status: EfiStatus)
    reads bus
  {
    && from < |bus.writes| && status == StatusAt(bus.wildWrites, |bus.writes| - 1)
    && forall i :: from <= i < |bus.writes| - 1 ==> StatusAt(bus.wildWrites, i) == Success
  }

  /** The writing loop, between opening and closing the bus. */
  method WriteBlocks(bus: Smbus, data: seq<byte>) returns (status: EfiStatus)
    requires bus.Valid() && 0 < |data| < 0x100
    modifies bus`txSize, bus`writes, bus.txBuffer
    ensures bus.Valid()
    ensures status == Success ==> bus.writes == old(bus.writes) + Fragments(data)
    ensures old(bus.writes) <= bus.writes <= old(bus.writes) + Fragments(data)
    ensures bus.wild ==> StopsAtRefusal(bus, |old(bus.writes)|, status)
    ensures !bus.wild ==> status == if old(bus.txSize) == 0 then Success else AlreadyStarted
    ensures !bus.wild && status == Success ==> bus.txBuffer[..bus.txSize] == data
  {
    var command := if |data| > MAX_WRITE_SIZE then CMD_MULT_WRITE_START else CMD_WRITE;
    var offset := 0;
    var remaining := |data|;
    ghost var i := 0;
    assert bus.writes == bus.writes + Fragments(data)[..0];
    status := Success;
    while remaining > 0
      invariant bus.Valid() && 0 <= remaining == |data| - offset && status == Success
      invariant bus.wild && i > 0 ==> StopsAtRefusal(bus, |old(bus.writes)|, Success)
      invariant |bus.writes| == |old(bus.writes)| + i
      invariant if remaining > 0 then offset == 32 * i && command == FrameCommand(|data|, i)
                else i == FrameCount(|data|)
      invariant i <= FrameCount(|data|) && bus.writes == old(bus.writes) + Fragments(data)[..i]
      invariant remaining == 0 ==> bus.writes == old(bus.writes) + Fragments(data)
      invariant !bus.wild && i > 0 ==> bus.txBuffer[..bus.txSize] == data[..offset] && old(bus.txSize) == 0
      invariant i == 0 ==> bus.txSize == old(bus.txSize)
    {
      var writeSize;
      status, writeSize := WriteNext(bus, data, command, offset, i, old(bus.writes));
      SomeFrames(old(bus.writes), Fragments(data), i + 1);
      if 32 * (i + 1) < |data| { NextCommand(|data|, i); }
      i := i + 1;
      if status != Success { return; }
      offset := offset + writeSize;
      remaining := |data| - offset;
      if command == CMD_MULT_WRITE_START {
        command := CMD_MULT_WRITE_MIDDLE;
      }
      if command == CMD_MULT_WRITE_MIDDLE && remaining <= MAX_WRITE_SIZE {
        command := CMD_MULT_WRITE_END;
      }
    }
  }

  /** On every device: the blocks written are the fragments of the message, in order, up to the
      one that was refused. On a test device with an empty buffer: the buffer is the message. */
  method SendDataToBmcPort(bus: Smbus, data: seq<byte>) returns (status: EfiStatus)
    requires bus.Valid() && |data| < 0x100
    modifies bus, bus.txBuffer
    ensures bus.Valid()
    ensures data == [] ==> status == InvalidParameter && bus.writes == old(bus.writes)
    ensures 0 <= bus.closes - old(bus.closes) == bus.opens - old(bus.opens) <= 1
    ensures status == Success ==> bus.writes == old(bus.writes) + Fragments(data)
    ensures old(bus.writes) <= bus.writes <= old(bus.writes) + Fragments(data)
    ensures bus.wild && data != [] ==>
      if bus.opens == old(bus.opens) then status == StatusAt(bus.wildOpens, bus.opens) != Success
                                          && bus.writes == old(bus.writes)
      else StopsAtRefusal(bus, |old(bus.writes)|, status)
    ensures !bus.wild && data != [] ==> status == if old(bus.txSize) == 0 then Success else AlreadyStarted
    ensures !bus.wild && status == Success ==> bus.txBuffer[..bus.txSize] == data
  {
    if |data| == 0 { return InvalidParameter; }
    status := bus.BmcSmbusOpen();
    if status != Success { return; }
    status := WriteBlocks(bus, data);
    bus.BmcSmbusClose();
  }

  /** How the block in the buffer begins, and what is expected after it. */
  method ReadHeader(buffer: array<byte>, command: byte, expected: byte, ghost k: nat, ghost size: nat)
    returns (h: Header, nextCommand: byte, next: byte)
    requires size <= buffer.Length == MAX_READ_BUFFER_SIZE && CoversHeader(k, Block(buffer[..size]))
    requires command == CommandOf(k) && (k > 0 ==> expected == k - 1)
    ensures h == HeaderOf(k, buffer[..size])
    ensures h.Header? && !h.last ==> nextCommand == CommandOf(k + 1) && next == k
  {
    nextCommand, next := command, expected;
    if command == CMD_READ {
      if buffer[0] == 0 && buffer[1] == 1 {
        nextCommand, next := CMD_MULT_READ, 0;
        h := Header(false, 2);
      } else {
        h := Header(true, 0);
      }
    } else if buffer[0] == END_BLOCK {
      h := Header(true, 1);
    } else if buffer[0] != expected {
      h := OutOfOrder;
    } else {
      next := buffer[0] + 1;
      h := Header(false, 1);
    }
  }

  method AddPayload(data: array<byte>, dataSize: byte, offset: byte, buffer: array<byte>, headerSize: nat,
                    readSize: nat)
    returns (status: EfiStatus, nextOffset: byte)
    requires offset <= dataSize <= data.Length && headerSize <= readSize <= buffer.Length && data != buffer
    modifies data
    ensures forall i :: dataSize <= i < data.Length ==> data[i] == old(data[i])
    ensures nextOffset <= dataSize
    ensures if offset + readSize - headerSize > dataSize then status == BufferTooSmall
      else status == Success && data[..nextOffset] == old(data[..offset]) + buffer[..readSize][headerSize..]
  {
    var blockSize := readSize - headerSize;
    if offset as int + blockSize > dataSize as int { return BufferTooSmall, offset; }
    CopyMem(data, offset, buffer, headerSize, blockSize);
    assert buffer[headerSize..readSize] == buffer[..readSize][headerSize..];
    return Success, offset + blockSize;
  }

  predicate Marked(o: Outcome) { true }

  /** The outcome that was called for is what has been taken, or still what the blocks to come make
      of it. It is said of every marked outcome, so that the verifier looks at the blocks to come
      only where an outcome is marked. */
  ghost predicate OnTrack(outcome: Outcome, done: bool, stream: Stream, k: nat, taken: seq<byte>, size: nat)
    requires k < MAX_BLOCKS && Sound(stream)
  {
    forall o: Outcome {:trigger Marked(o)} ::
      Marked(o) && o == (if done then Received(taken) else Reassemble(stream, k, taken, size)) ==> outcome == o
  }

  lemma OnTrackMeans(outcome: Outcome, done: bool, stream: Stream, k: nat, taken: seq<byte>, size: nat)
    requires k < MAX_BLOCKS && Sound(stream)
    ensures OnTrack(outcome, done, stream, k, taken, size)
            <==> outcome == if done then Received(taken) else Reassemble(stream, k, taken, size)
  {
    assert Marked(if done then Received(taken) else Reassemble(stream, k, taken, size));
  }

  /** Read the k-th block and add what it carries to the data. */
  method TakeBlock(bus: Smbus, data: array<byte>, dataSize: byte, buffer: array<byte>, command: byte, expected: byte,
                   offset: byte, ghost stream: Stream, ghost rx: Rx, ghost k: nat, ghost outcome: Outcome)
    returns (status: EfiStatus, done: bool, nextOffset: byte, nextCommand: byte, next: byte)
    requires bus.Valid() && buffer.Length == MAX_READ_BUFFER_SIZE && buffer != bus.rxBuffer && buffer != bus.txBuffer
    requires offset <= dataSize <= data.Length && data != bus.rxBuffer && data != bus.txBuffer && data != buffer
    requires rx.offset <= |rx.message| && k < MAX_BLOCKS && Sound(stream) && bus.At(stream, rx, k)
    requires command == CommandOf(k) && (k > 0 ==> expected == k - 1)
    requires OnTrack(outcome, false, stream, k, data[..offset], dataSize)
    modifies bus`readCount, bus`rxOffset, bus`rxBlock, buffer, data
    ensures bus.Valid() && bus.At(stream, rx, k + 1) && bus.readCount == old(bus.readCount) + 1
    ensures forall i :: dataSize <= i < data.Length ==> data[i] == old(data[i])
    ensures nextOffset <= dataSize
    ensures status == Success && !done ==> k + 1 < MAX_BLOCKS && nextCommand == CommandOf(k + 1) && next == k
    ensures status != Success ==> outcome == Rejected(status)
    ensures status == Success ==>
      OnTrack(outcome, done, stream, if done then k else k + 1, data[..nextOffset], dataSize)
  {
    OnTrackMeans(outcome, false, stream, k, data[..offset], dataSize);
    var readSize, header;
    nextOffset := offset;
    nextCommand, next, done := command, expected, false;
    status, readSize := ReadNext(bus, command, buffer, stream, rx, k);
    if status != Success { return; }
    header, nextCommand, next := ReadHeader(buffer, command, expected, k, readSize);
    if header == OutOfOrder {
      status := DeviceError;
      return;
    }
    done := header.last;
    status, nextOffset := AddPayload(data, dataSize, offset, buffer, header.size, readSize);
  }

  /** The reading loop, between opening and closing the bus. */
  method ReadBlocks(bus: Smbus, data: array<byte>, dataSize: byte, buffer: array<byte>, ghost stream: Stream)
    returns (status: EfiStatus, newSize: byte)
    requires bus.Valid() && dataSize <= data.Length && data != bus.rxBuffer && data != bus.txBuffer
    requires stream == bus.Blocks() && Sound(stream)
    requires buffer.Length == MAX_READ_BUFFER_SIZE && buffer != bus.rxBuffer && buffer != bus.txBuffer && buffer != data
    modifies bus`readCount, bus`rxOffset, bus`rxBlock, data, buffer
    ensures bus.Valid() && bus.readCount <= old(bus.readCount) + MAX_BLOCKS
    ensures forall i :: dataSize <= i < data.Length ==> data[i] == old(data[i])
    ensures newSize <= dataSize && (status != Success ==> newSize == dataSize)
    ensures Reassemble(stream, 0, [], dataSize)
      == if status == Success then Received(data[..newSize]) else Rejected(status)
  {
    ghost var rx := bus.Incoming();
    bus.StartsAtFirstBlock();
    var offset: byte := 0;
    var done := false;
    var command := CMD_READ;
    var blockNumber: byte := 0;
    ghost var k: nat := 0;
    ghost var outcome := Reassemble(stream, 0, [], dataSize);
    newSize := dataSize;
    assert data[..0] == [];
    OnTrackMeans(outcome, false, stream, 0, data[..0], dataSize);
    while !done
      invariant bus.Valid() && k < MAX_BLOCKS && offset <= dataSize
      invariant !done ==> bus.At(stream, rx, k)
      invariant bus.readCount == old(bus.readCount) + k + (if done then 1 else 0)
      invariant !done ==> command == CommandOf(k) && (k > 0 ==> blockNumber == k - 1)
      invariant forall i :: dataSize <= i < data.Length ==> data[i] == old(data[i])
      invariant OnTrack(outcome, done, stream, k, data[..offset], dataSize)
      decreases if done then 0 else MAX_BLOCKS - k
    {
      status, done, offset, command, blockNumber :=
        TakeBlock(bus, data, dataSize, buffer, command, blockNumber, offset, stream, rx, k, outcome);
      if status != Success { return; }
      if !done { k := k + 1; }
    }
    OnTrackMeans(outcome, true, stream, k, data[..offset], dataSize);
    return Success, offset;
  }

  /** `stream` is what the device is going to answer.
      On every device whose blocks cover their headers: the outcome is the one the stream of
      blocks calls for, at most 257 blocks are read, nothing is written at or past the size given,
      the size changes only on success, and the bus is closed once for each successful open. */
  method ReceiveBmcDataFromPort(bus: Smbus, data: array<byte>, dataSize: byte, ghost stream: Stream)
    returns (status: EfiStatus, newSize: byte)
    requires bus.Valid() && dataSize <= data.Length && data != bus.rxBuffer && data != bus.txBuffer
    requires stream == bus.Blocks() && Sound(stream)
    modifies bus, data
    ensures bus.Valid() && bus.readCount <= old(bus.readCount) + MAX_BLOCKS
    ensures 0 <= bus.closes - old(bus.closes) == bus.opens - old(bus.opens) <= 1
    ensures forall i :: dataSize <= i < data.Length ==> data[i] == old(data[i])
    ensures newSize <= dataSize && (status != Success ==> newSize == dataSize)
    ensures bus.opens > old(bus.opens) ==>
      Reassemble(stream, 0, [], dataSize)
      == if status == Success then Received(data[..newSize]) else Rejected(status)
    ensures bus.opens == old(bus.opens) ==> status != Success && bus.readCount == old(bus.readCount) && bus.wild
  {
    newSize := dataSize;
    status := bus.BmcSmbusOpen();
    if status != Success { return; }
    var buffer := new byte[MAX_READ_BUFFER_SIZE];
    status, newSize := ReadBlocks(bus, data, dataSize, buffer, stream);
    bus.BmcSmbusClose();
  }

  /** Put a message into the test device and read it back: it arrives exactly unless it goes as a
      single block that begins 00 01. */
  method ReadFromTestDevice(bus: Smbus, message: array<byte>, size: nat, data: array<byte>, dataSize: byte)
    returns (status: EfiStatus, newSize: byte)
    requires bus.Valid() && !bus.wild && dataSize <= data.Length
    requires 0 < size <= message.Length && size <= dataSize && (size == 1 ==> message[0] != 0)
    requires message != bus.rxBuffer && data != bus.rxBuffer && data != bus.txBuffer && data != message
    modifies bus, bus.rxBuffer, data
    ensures bus.Valid() && newSize <= dataSize
    ensures status == Success && data[..newSize] == message[..size]
            <==> size > MAX_READ_SIZE || !StartsMultiPart(message[..size])
  {
    bus.SetRxBuffer(message, size);
    ghost var rx := bus.Incoming();
    ghost var sent := message[..size];
    assert bus.Blocks() == TestStream(rx) && rx.message == sent;
    TestStreamSound(rx);
    TestDeviceRoundTrip(rx, dataSize);
    status, newSize := ReceiveBmcDataFromPort(bus, data, dataSize, TestStream(rx));
    assert message[..size] == sent;
  }
}
