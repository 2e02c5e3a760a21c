/**
 The SSIF message format (section 12 of the IPMI v2.0 specification): how a message is cut into
 SMBus blocks for writing, and which streams of read blocks carry a message.
 */
module SsifProtocol {
  import opened Bytes

  const MAX_WRITE_SIZE := 32
  const MAX_READ_SIZE := 32
  const MAX_READ_BUFFER_SIZE := 64

  const CMD_WRITE: byte := 0x2
  const CMD_READ: byte := 0x3
  const CMD_MULT_WRITE_START: byte := 0x6
  const CMD_MULT_WRITE_MIDDLE: byte := 0x7
  const CMD_MULT_WRITE_END: byte := 0x8
  const CMD_MULT_READ: byte := 0x9

  const END_BLOCK: byte := 0xFF

  // ---- Writing ----

  datatype Frame = Frame(command: byte, bytes: seq<byte>)

  function FrameCount(n: nat): nat {
    (n + 31) / 32
  }

  function FrameCommand(n: nat, i: nat): byte {
    if n <= MAX_WRITE_SIZE then CMD_WRITE
    else if i == 0 then CMD_MULT_WRITE_START
    else if i + 1 < FrameCount(n) then CMD_MULT_WRITE_MIDDLE
    else CMD_MULT_WRITE_END
  }

  function FrameBytes(data: seq<byte>, i: nat): seq<byte>
    requires 32 * i <= |data|
  {
    if |data| - 32 * i < MAX_WRITE_SIZE then data[32 * i..] else data[32 * i..32 * i + 32]
  }

  function Fragments(data: seq<byte>): (frames: seq<Frame>)
    ensures |frames| == FrameCount(|data|)
  {
    seq(FrameCount(|data|), i requires 0 <= i < FrameCount(|data|) =>
      Frame(FrameCommand(|data|, i), FrameBytes(data, i)))
  }

  /** The bytes of the first i frames. */
  function Joined(frames: seq<Frame>, i: nat): seq<byte>
    requires i <= |frames|
  {
    if i == 0 then [] else Joined(frames, i - 1) + frames[i - 1].bytes
  }

  /** How much of n bytes i frames hold. */
  function Covered(n: nat, i: nat): (c: nat)
    ensures c <= n
  {
    if 32 * i <= n then 32 * i else n
  }

  lemma FrameHolds(data: seq<byte>, k: nat)
    requires k < FrameCount(|data|)
    ensures 32 * k < |data| && Covered(|data|, k) < Covered(|data|, k + 1)
    ensures Fragments(data)[k].bytes == data[Covered(|data|, k)..Covered(|data|, k + 1)]
  {
  }

  lemma {:induction false} PrefixJoined(data: seq<byte>, i: nat)
    requires i <= FrameCount(|data|)
    ensures Joined(Fragments(data), i) == data[..Covered(|data|, i)]
  {
    if i > 0 {
      PrefixJoined(data, i - 1);
      FrameHolds(data, i - 1);
      PrefixGrows(data, Covered(|data|, i - 1), Covered(|data|, i));
    }
  }

  lemma PrefixGrows(data: seq<byte>, a: nat, b: nat)
    requires a <= b <= |data|
    ensures data[..a] + data[a..b] == data[..b]
  {
  }

  lemma NextFrame(data: seq<byte>, i: nat, size: nat)
    requires 32 * i < |data| && size == if |data| - 32 * i < MAX_WRITE_SIZE then |data| - 32 * i else MAX_WRITE_SIZE
    ensures i < FrameCount(|data|) && (32 * i + size == |data| <==> i + 1 == FrameCount(|data|))
    ensures Fragments(data)[..i + 1]
            == Fragments(data)[..i] + [Frame(FrameCommand(|data|, i), data[32 * i..32 * i + size])]
  {
    assert data[32 * i..32 * i + size] == FrameBytes(data, i);
  }

  lemma SomeFrames(before: seq<Frame>, frames: seq<Frame>, i: nat)
    requires i <= |frames|
    ensures before <= before + frames[..i] <= before + frames
    ensures i == |frames| ==> before + frames[..i] == before + frames
  {
  }

  lemma NextCommand(n: nat, i: nat)
    requires 32 * (i + 1) < n
    ensures FrameCommand(n, i) == if i == 0 then CMD_MULT_WRITE_START else CMD_MULT_WRITE_MIDDLE
    ensures FrameCommand(n, i + 1) == if n - 32 * (i + 1) <= 32 then CMD_MULT_WRITE_END else CMD_MULT_WRITE_MIDDLE
  {
  }

  /** A message of n > 0 bytes becomes ceil(n / 32) blocks, full but for the last, that join to
      the message: a lone WRITE, or START, MIDDLE*, END. */
  lemma FragmentsCarryTheMessage(data: seq<byte>)
    requires data != []
    ensures var frames := Fragments(data);
      && Joined(frames, |frames|) == data
      && 32 * (|frames| - 1) < |data| <= 32 * |frames|
      && (forall i :: 0 <= i < |frames| - 1 ==> |frames[i].bytes| == 32)
      && 1 <= |frames[|frames| - 1].bytes| <= 32
      && (|frames| == 1 ==> frames[0].command == CMD_WRITE)
      && (|frames| > 1 ==> frames[0].command == CMD_MULT_WRITE_START)
      && (forall i :: 0 < i < |frames| - 1 ==> frames[i].command == CMD_MULT_WRITE_MIDDLE)
      && (|frames| > 1 ==> frames[|frames| - 1].command == CMD_MULT_WRITE_END)
  {
    FragmentSizes(data);
    FragmentCommands(data);
    PrefixJoined(data, FrameCount(|data|));
  }

  lemma FragmentSizes(data: seq<byte>)
    requires data != []
    ensures var frames := Fragments(data);
      && 32 * (|frames| - 1) < |data| <= 32 * |frames|
      && (forall i :: 0 <= i < |frames| - 1 ==> |frames[i].bytes| == 32)
      && 1 <= |frames[|frames| - 1].bytes| <= 32
  {
  }

  lemma FragmentCommands(data: seq<byte>)
    requires data != []
    ensures var frames := Fragments(data);
      && (|frames| == 1 ==> frames[0].command == CMD_WRITE)
      && (|frames| > 1 ==> frames[0].command == CMD_MULT_WRITE_START)
      && (forall i :: 0 < i < |frames| - 1 ==> frames[i].command == CMD_MULT_WRITE_MIDDLE)
      && (|frames| > 1 ==> frames[|frames| - 1].command == CMD_MULT_WRITE_END)
  {
  }

  // ---- Reading ----

  datatype BlockRead = ReadError(status: EfiStatus) | Block(bytes: seq<byte>)

  /** A reader asks for at most this many blocks. */
  const MAX_BLOCKS := 257

  /** The answers a device gives to the successive reads of one message. */
  type Stream = s: seq<BlockRead> | |s| == MAX_BLOCKS witness seq(MAX_BLOCKS, i => ReadError(NotFound))

  /** The contract of a block read: the size covers the block header (two bytes for a first block
      that can be taken for the start of a multi-part message) and is at most 64. */
  predicate CoversHeader(k: nat, r: BlockRead) {
    match r
    case ReadError(status) => status != Success
    case Block(bytes) => 1 <= |bytes| <= MAX_READ_BUFFER_SIZE && (k == 0 && |bytes| == 1 ==> bytes[0] != 0)
  }

  ghost predicate Sound(stream: Stream) {
    forall i: nat :: i < MAX_BLOCKS ==> CoversHeader(i, stream[i])
  }

  predicate StartsMultiPart(bytes: seq<byte>) {
    |bytes| >= 2 && bytes[0] == 0 && bytes[1] == 1
  }

  datatype Outcome = Received(message: seq<byte>) | Rejected(status: EfiStatus)

  datatype Header = Header(last: bool, size: nat) | OutOfOrder

  /** How the k-th block begins. After the first block, the k-th must be numbered k - 1, so a
      number can only rise until it is the end mark. */
  function HeaderOf(k: nat, bytes: seq<byte>): (h: Header)
    requires CoversHeader(k, Block(bytes))
    ensures h.Header? ==> h.size <= |bytes|
  {
    if k == 0 then
      if StartsMultiPart(bytes) then Header(false, 2) else Header(true, 0)
    else if bytes[0] == END_BLOCK then Header(true, 1)
    else if bytes[0] == k - 1 then Header(false, 1)
    else OutOfOrder
  }

  /** Take in the blocks from the k-th on, `taken` being what came before. */
  function Reassemble(stream: Stream, k: nat, taken: seq<byte>, size: nat): Outcome
    requires k < MAX_BLOCKS
    requires Sound(stream)
    decreases 256 - k
  {
    match stream[k]
    case ReadError(status) => Rejected(status)
    case Block(bytes) =>
      match HeaderOf(k, bytes)
      case OutOfOrder => Rejected(DeviceError)
      case Header(last, headerSize) =>
        if |taken| + |bytes| - headerSize > size then Rejected(BufferTooSmall)
        else if last then Received(taken + bytes[headerSize..])
        else Reassemble(stream, k + 1, taken + bytes[headerSize..], size)
  }

  // ---- Which streams carry which messages, said without reference to the algorithm ----

  function Payload(k: nat, r: BlockRead, single: bool): seq<byte>
    requires CoversHeader(k, r) && r.Block? && (k == 0 && !single ==> |r.bytes| >= 2)
  {
    if k > 0 then r.bytes[1..] else if single then r.bytes else r.bytes[2..]
  }

  function Payloads(stream: Stream, n: nat): seq<byte>
    requires 0 < n <= MAX_BLOCKS && Sound(stream)
    requires forall i :: 0 <= i < n ==> stream[i].Block?
    requires StartsMultiPart(stream[0].bytes)
  {
    (if n == 1 then [] else Payloads(stream, n - 1)) + Payload(n - 1, stream[n - 1], false)
  }

  function Number(k: nat, r: BlockRead): byte
    requires CoversHeader(k, r) && r.Block?
  {
    r.bytes[0]
  }

  /** The first n blocks of the stream are a start block, then blocks numbered 0, 1, 2, ... of
      which only the last bears the end mark, and together they hold the message. */
  ghost predicate CarriesParts(stream: Stream, n: nat, message: seq<byte>)
    requires Sound(stream)
  {
    && 2 <= n <= MAX_BLOCKS && (forall i :: 0 <= i < n ==> stream[i].Block?)
    && StartsMultiPart(stream[0].bytes)
    && (forall i :: 0 < i < n - 1 ==> Number(i, stream[i]) == i - 1 != END_BLOCK)
    && Number(n - 1, stream[n - 1]) == END_BLOCK
    && message == Payloads(stream, n)
  }

  ghost predicate Carries(stream: Stream, n: nat, message: seq<byte>)
    requires Sound(stream)
  {
    if n == 1 then stream[0] == Block(message) && !StartsMultiPart(message)
    else CarriesParts(stream, n, message)
  }

  /** The blocks before the k-th were in order and none was the end. */
  ghost predicate InOrder(stream: Stream, k: nat)
    requires Sound(stream)
  {
    && 1 <= k < MAX_BLOCKS && (forall i :: 0 <= i < k ==> stream[i].Block?)
    && StartsMultiPart(stream[0].bytes)
    && (forall i :: 0 < i < k ==> Number(i, stream[i]) == i - 1 != END_BLOCK)
  }

  ghost predicate Underway(stream: Stream, k: nat, taken: seq<byte>)
    requires Sound(stream)
  {
    InOrder(stream, k) && taken == Payloads(stream, k)
  }

  lemma NextBlockInOrder(stream: Stream, k: nat, taken: seq<byte>, i: nat, m: seq<byte>)
    requires Sound(stream)
    requires Underway(stream, k, taken) && CarriesParts(stream, i, m)
    ensures k < i && stream[k].Block?
    ensures Number(k, stream[k]) == if i == k + 1 then END_BLOCK else k - 1
  {
    var end := Number(i - 1, stream[i - 1]);
  }

  lemma NextBlockCarries(stream: Stream, k: nat, taken: seq<byte>, i: nat, m: seq<byte>)
    requires Sound(stream)
    requires Underway(stream, k, taken) && CarriesParts(stream, i, m)
    ensures k < i && stream[k].Block?
    ensures Number(k, stream[k]) == if i == k + 1 then END_BLOCK else k - 1
    ensures |m| >= |taken| + |Payload(k, stream[k], false)|
  {
    NextBlockInOrder(stream, k, taken, i, m);
    assert |Payloads(stream, k + 1)| == |taken| + |Payload(k, stream[k], false)|;
    PayloadsGrow(stream, k + 1, i);
  }

  lemma {:induction false} TakesWhatIsCarried(stream: Stream, k: nat, taken: seq<byte>, size: nat) returns (n: nat)
    requires Sound(stream)
    requires Underway(stream, k, taken) && |taken| <= size
    ensures match Reassemble(stream, k, taken, size)
            case Received(m) => k < n && CarriesParts(stream, n, m) && |m| <= size
            case Rejected(_) => forall m, i: nat | CarriesParts(stream, i, m) :: |m| > size
    decreases 256 - k
  {
    n := k + 1;
    if stream[k].Block? && (Number(k, stream[k]) == END_BLOCK || Number(k, stream[k]) == k - 1)
       && |taken| + |Payload(k, stream[k], false)| <= size {
      var payload := Payload(k, stream[k], false);
      assert Payloads(stream, k + 1) == taken + payload;
      if Number(k, stream[k]) == END_BLOCK {
        assert CarriesParts(stream, k + 1, taken + payload);
      } else {
        assert Underway(stream, k + 1, taken + payload);
        n := TakesWhatIsCarried(stream, k + 1, taken + payload, size);
      }
    } else {
      forall m, i: nat | CarriesParts(stream, i, m) ensures |m| > size {
        NextBlockCarries(stream, k, taken, i, m);
      }
    }
  }

  lemma {:induction false} PayloadsGrow(stream: Stream, k: nat, n: nat)
    requires 0 < k <= n <= MAX_BLOCKS && Sound(stream)
    requires forall i :: 0 <= i < n ==> stream[i].Block?
    requires StartsMultiPart(stream[0].bytes)
    ensures |Payloads(stream, k)| <= |Payloads(stream, n)|
    decreases n - k
  {
    if k < n { PayloadsGrow(stream, k, n - 1); }
  }

  lemma SameParts(stream: Stream, i: nat, m: seq<byte>, j: nat, m': seq<byte>)
    requires Sound(stream)
    requires CarriesParts(stream, i, m) && CarriesParts(stream, j, m')
    ensures i == j && m == m'
  {
    var end, end' := Number(i - 1, stream[i - 1]), Number(j - 1, stream[j - 1]);
  }

  /** For every device: a message is received exactly when the blocks read, at most 257 of them,
      carry it in order and it fits the buffer. */
  lemma ReceivedIffCarried(stream: Stream, size: nat, message: seq<byte>)
    requires Sound(stream)
    ensures Reassemble(stream, 0, [], size) == Received(message) <==>
            |message| <= size && exists n :: 0 < n <= MAX_BLOCKS && Carries(stream, n, message)
  {
    if stream[0].Block? {
      var bytes := stream[0].bytes;
      if !StartsMultiPart(bytes) {
        assert Reassemble(stream, 0, [], size) == Received(message) ==> Carries(stream, 1, message);
      } else {
        assert Payloads(stream, 1) == bytes[2..];
        forall n: nat | CarriesParts(stream, n, message) ensures |message| >= |bytes[2..]| {
          PayloadsGrow(stream, 1, n);
        }
        if |bytes[2..]| <= size {
          var n := TakesWhatIsCarried(stream, 1, bytes[2..], size);
          assert Reassemble(stream, 0, [], size) == Reassemble(stream, 1, bytes[2..], size);
          match Reassemble(stream, 1, bytes[2..], size)
          case Rejected(_) =>
          case Received(m) =>
            assert Carries(stream, n, m);
            forall i: nat | CarriesParts(stream, i, message) ensures m == message {
              SameParts(stream, n, m, i, message);
            }
        }
      }
    }
  }

  // ---- Why a read is rejected ----

  /** The n-th block ends the reading with this error: it could not be read, it is out of order, or
      it is in order and too long for what is left of the size. */
  ghost predicate StopsAt(stream: Stream, n: nat, size: nat, status: EfiStatus)
    requires Sound(stream)
  {
    && n < MAX_BLOCKS
    && (n > 0 ==> InOrder(stream, n) && |Payloads(stream, n)| <= size)
    && match stream[n]
       case ReadError(failure) => status == failure
       case Block(bytes) =>
         if n == 0 then
           status == BufferTooSmall && |bytes| > size + if StartsMultiPart(bytes) then 2 else 0
         else if bytes[0] != 0xFF && bytes[0] != n - 1 then status == DeviceError
         else status == BufferTooSmall && |Payloads(stream, n)| + |bytes| - 1 > size
  }

  lemma OneMoreInOrder(stream: Stream, k: nat)
    requires Sound(stream) && InOrder(stream, k) && stream[k].Block? && Number(k, stream[k]) == k - 1 != END_BLOCK
    ensures InOrder(stream, k + 1)
    ensures Payloads(stream, k + 1) == Payloads(stream, k) + Payload(k, stream[k], false)
  {
  }

  lemma {:induction false} RejectionFrom(stream: Stream, k: nat, taken: seq<byte>, size: nat, status: EfiStatus)
    returns (n: nat)
    requires Sound(stream) && Underway(stream, k, taken) && |taken| <= size
    requires Reassemble(stream, k, taken, size) == Rejected(status)
    ensures StopsAt(stream, n, size, status)
    decreases 256 - k
  {
    n := k;
    if stream[k].Block? && Number(k, stream[k]) == k - 1 != END_BLOCK
       && |taken| + |Payload(k, stream[k], false)| <= size {
      OneMoreInOrder(stream, k);
      n := RejectionFrom(stream, k + 1, Payloads(stream, k + 1), size, status);
    }
  }

  lemma {:induction false} ReassembleUnderway(stream: Stream, n: nat, size: nat)
    requires Sound(stream) && n > 0 && InOrder(stream, n) && |Payloads(stream, n)| <= size
    ensures Reassemble(stream, 0, [], size) == Reassemble(stream, n, Payloads(stream, n), size)
    decreases n
  {
    if n == 1 {
      assert [] + stream[0].bytes[2..] == stream[0].bytes[2..];
      assert Payloads(stream, 1) == stream[0].bytes[2..];
    } else {
      var k := n - 1;
      assert Number(k, stream[k]) == k - 1 != END_BLOCK;
      ReassembleUnderway(stream, k, size);
      assert Payloads(stream, n) == Payloads(stream, k) + Payload(k, stream[k], false);
    }
  }

  lemma RejectionStops(stream: Stream, size: nat, status: EfiStatus) returns (n: nat)
    requires Sound(stream) && Reassemble(stream, 0, [], size) == Rejected(status)
    ensures StopsAt(stream, n, size, status)
  {
    n := 0;
    if stream[0].Block? && StartsMultiPart(stream[0].bytes) && |stream[0].bytes| - 2 <= size {
      assert [] + stream[0].bytes[2..] == stream[0].bytes[2..] == Payloads(stream, 1);
      n := RejectionFrom(stream, 1, Payloads(stream, 1), size, status);
    }
  }

  lemma StopRejects(stream: Stream, n: nat, size: nat, status: EfiStatus)
    requires Sound(stream) && StopsAt(stream, n, size, status)
    ensures Reassemble(stream, 0, [], size) == Rejected(status)
  {
    if n > 0 { ReassembleUnderway(stream, n, size); }
  }

  /** For every device: which error a read ends with, if it ends with one. */
  lemma RejectedIffStopped(stream: Stream, size: nat, status: EfiStatus)
    requires Sound(stream)
    ensures Reassemble(stream, 0, [], size) == Rejected(status) <==> exists n :: StopsAt(stream, n, size, status)
  {
    if Reassemble(stream, 0, [], size) == Rejected(status) {
      var n := RejectionStops(stream, size, status);
    }
    forall n | StopsAt(stream, n, size, status) ensures Reassemble(stream, 0, [], size) == Rejected(status) {
      StopRejects(stream, n, size, status);
    }
  }
}
