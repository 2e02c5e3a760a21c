/**
 The generic IPMI layer (GenericIpmi.c): an instance whose one buffer, TempData, holds the
 command on its way out, the response on its way in, and for some callers the result as well.
 */
module GenericIpmi {
  import opened Bytes
  import opened MockIpmi
  import opened IpmiHealth

  class Instance {
    const tempData: array<byte>
    const maxRetries: byte           // PcdIpmiCommandMaxReties
    var device: Device               // what the transport library reaches
    var inbox: Reply                 // what came of the last exchange
    var bmcStatus: BmcStatus
    var softErrorCount: byte
    var errorStatus: seq<byte>

    ghost predicate Valid()
      reads this
    {
      tempData.Length == MAX_TEMP_DATA && maxRetries > 0 && ValidDevice(device) && |errorStatus| == 8
    }

    /** The health the instance tracks. */
    ghost function Tracked(): Health
      reads this
    {
      Health(bmcStatus, softErrorCount)
    }

    constructor (device: Device, maxRetries: byte)
      requires ValidDevice(device) && maxRetries > 0
      ensures Valid() && fresh(tempData) && this.device == device && Tracked() == Health(BmcNotReady, 0)
      ensures this.maxRetries == maxRetries
    {
      tempData := new byte[MAX_TEMP_DATA](_ => 0);
      this.device, this.maxRetries, inbox := device, maxRetries, SendFailed(NotReady);
      bmcStatus, softErrorCount, errorStatus := BmcNotReady, 0, [0, 0, 0, 0, 0, 0, 0, 0];
    }

    method UpdateErrorStatus(bmcError: byte)
      requires Valid()
      modifies this`bmcStatus, this`softErrorCount
      ensures Valid() && Tracked() == IpmiHealth.UpdateErrorStatus(old(Tracked()), bmcError)
    {
      var i := 0;
      while i < |COMPLETION_CODES|
        invariant i <= |COMPLETION_CODES| && bmcError !in COMPLETION_CODES[..i]
        invariant Tracked() == old(Tracked())
      {
        if bmcError == COMPLETION_CODES[i] {
          if bmcStatus != BmcUpdateInProgress {
            bmcStatus := BmcSoftFail;
          }
          softErrorCount := Increment(softErrorCount);
          break;
        }
        i := i + 1;
      }
    }

    // ---- The transport library, as this layer sees it ----

    method SendDataToBmcPort(data: seq<byte>) returns (status: EfiStatus)
      requires Valid() && Takes(device, data)
      modifies this`device, this`inbox
      ensures Valid() && (device, inbox) == Exchange(old(device), data)
      ensures status == if inbox.SendFailed? then inbox.status else Success
    {
      var (next, reply) := Exchange(device, data);
      device, inbox := next, reply;
      status := if inbox.SendFailed? then inbox.status else Success;
    }

    method ReceiveBmcDataFromPort(size: nat) returns (status: EfiStatus, newSize: nat)
      requires Valid() && size == MAX_TEMP_DATA - 1 && Possible(inbox) && !inbox.SendFailed?
      modifies tempData
      ensures match inbox
        case Message(bytes) => status == Success && newSize == |bytes| <= size && tempData[..newSize] == bytes
        case ReceiveFailed(failure) => status == failure != Success
    {
      match inbox {
        case ReceiveFailed(failure) => return failure, size;
        case Message(bytes) =>
          StoreMem(tempData, 0, bytes);
          assert tempData[..|bytes|] == bytes;
          return Success, |bytes|;
      }
    }

    // ---- Framing the response ----

    /** Move n - 1 bytes one place to the right, from the last to the first. */
    method ShiftRight(response: array<byte>, n: nat)
      requires 1 <= n <= response.Length
      modifies response
      ensures response[1..n] == old(response[..n - 1]) && response[0] == old(response[0])
      ensures forall i :: n <= i < response.Length ==> response[i] == old(response[i])
    {
      var index := 1;
      while index < n
        invariant 1 <= index <= n
        invariant forall i :: n - index < i < n ==> response[i] == old(response[i - 1])
        invariant forall i :: 0 <= i <= n - index ==> response[i] == old(response[i])
        invariant forall i :: n <= i < response.Length ==> response[i] == old(response[i])
      {
        response[n - index] := response[n - (index + 1)];
        index := index + 1;
      }
    }

    /** Copy the payload out of TempData and shift it to leave room for the completion code. In a
        buffer of its own that leaves TempData alone; in TempData itself the payload spreads over
        the byte that held the code. */
    method PlacePayload(response: array<byte>, dataSize: nat) returns (size: nat)
      requires Valid() && RESPONSE_HEADER_SIZE <= dataSize < MAX_TEMP_DATA
      requires response.Length >= dataSize - RESPONSE_HEADER_SIZE + 1
      modifies response
      ensures size == dataSize - RESPONSE_HEADER_SIZE + 1
      ensures response[1..size] == old(tempData[..dataSize])[3..]
      ensures tempData[2] == if response == tempData && dataSize >= 5 then old(tempData[4]) else old(tempData[2])
    {
      size := dataSize - RESPONSE_HEADER_SIZE;
      CopyMem(response, 0, tempData, RESPONSE_HEADER_SIZE, size);
      assert response[..size] == old(tempData[..dataSize])[3..];
      assert response == tempData && size >= 2 ==> tempData[1] == response[..size][1];
      size := size + 1;
      ShiftRight(response, size);
      assert response == tempData && size >= 3 ==> tempData[2] == response[1..size][1];
    }

    /** Copy the payload out of TempData and put the completion code before it. The caller's buffer
        may be TempData itself. */
    method FrameResponse(response: array<byte>, dataSize: nat) returns (size: nat)
      requires Valid() && RESPONSE_HEADER_SIZE <= dataSize < MAX_TEMP_DATA
      requires response.Length >= dataSize - RESPONSE_HEADER_SIZE + 1
      modifies response
      ensures size == dataSize - RESPONSE_HEADER_SIZE + 1
      ensures response[..size] == if response == tempData then FramedInPlace(old(tempData[..dataSize]))
                                  else Framed(old(tempData[..dataSize]))
    {
      ghost var message := tempData[..dataSize];
      assert Framed(message) == [message[2]] + message[3..];
      size := PlacePayload(response, dataSize);
      ghost var payload := response[1..size];
      response[0] := tempData[2];
      assert response[1..size] == payload;
      assert response[..size] == [response[0]] + response[1..size];
    }

    // ---- The command ----

    /** The caller's buffer has room for one byte more than it says, or for any response at all. */
    ghost predicate RoomFor(response: array?<byte>, size: Option<nat>) {
      response != null && size.Some? ==> response.Length > size.value || response.Length >= 252
    }

    /** Compose the command in TempData and hand it to the transport. */
    method SendRequest(r: Request) returns (status: EfiStatus)
      requires Valid() && ValidRequest(device, r)
      modifies this`device, this`inbox, tempData
      ensures Valid() && (device, inbox) == Exchange(old(device), Header(r.netFn, r.lun, r.command) + r.data)
      ensures status == if inbox.SendFailed? then inbox.status else Success
    {
      var message := Header(r.netFn, r.lun, r.command) + r.data;
      StoreMem(tempData, 0, message);
      assert tempData[..|message|] == message;
      status := SendDataToBmcPort(tempData[..|message|]);
    }

    /** What a decided pass leaves: of a success the response in TempData, and the rest to do. */
    ghost predicate Decided(result: Result, responseSize: Option<nat>, status: EfiStatus, dataSize: nat,
                            newSize: Option<nat>)
      requires Valid()
      reads this, tempData
    {
      && device == result.device && status == result.status && softErrorCount == result.health.softErrors
      && (status != Success ==> bmcStatus == result.health.status && newSize == result.size)
      && (status == Success ==> newSize == responseSize && RESPONSE_HEADER_SIZE <= dataSize < MAX_TEMP_DATA
                                && result.last == Message(tempData[..dataSize]))
    }

    /** Take the response in TempData apart, `tries` passes being left. */
    method JudgeResponse(r: Request, responseSize: Option<nat>, tries: nat, dataSize: nat)
      returns (status: EfiStatus, again: bool, newSize: Option<nat>)
      requires Valid() && tries > 0 && dataSize < MAX_TEMP_DATA && inbox == Message(tempData[..dataSize])
      modifies this`bmcStatus, this`softErrorCount
      ensures Valid() && again == TryAgain(inbox, r, responseSize, tries)
      ensures again ==> Tracked() == old(Tracked())
      ensures !again ==>
        Decided(Conclude(device, old(Tracked()), r, responseSize, inbox), responseSize, status, dataSize, newSize)
    {
      again, newSize, status := false, responseSize, Success;
      if dataSize < RESPONSE_HEADER_SIZE {
        status := DeviceError;
        return;
      }
      var completionCode := tempData[2];
      if completionCode != COMP_NORMAL && bmcStatus == BmcUpdateInProgress {
        UpdateErrorStatus(completionCode);
        status := Unsupported;
        return;
      } else if completionCode != COMP_NORMAL {
        UpdateErrorStatus(completionCode);
        status := if completionCode == COMP_INSUFFICIENT_PRIVILEGE then SecurityViolation else DeviceError;
        return;
      }
      if responseSize.Some? && dataSize - RESPONSE_HEADER_SIZE > responseSize.value {
        if tempData[0] / 4 != ResponseNetFn(r.netFn) || tempData[1] != r.command {
          if tries == 1 {
            status := DeviceError;
          } else {
            again := true;
          }
          return;
        }
        newSize := Some(dataSize - RESPONSE_HEADER_SIZE + 1);
        status := BufferTooSmall;
      }
    }

    /** One pass of the retry loop. A pass that does not ask for another has decided the command. */
    method Attempt(r: Request, responseSize: Option<nat>, tries: nat)
      returns (status: EfiStatus, again: bool, dataSize: nat, newSize: Option<nat>)
      requires Valid() && ValidRequest(device, r) && tries > 0
      modifies this`device, this`inbox, this`bmcStatus, this`softErrorCount, tempData
      ensures Valid()
      ensures again ==> tries > 1 && ValidRequest(device, r)
      ensures again ==> Command(old(device), old(Tracked()), r, responseSize, tries)
                        == Command(device, Tracked(), r, responseSize, tries - 1)
      ensures !again ==>
        Decided(Command(old(device), old(Tracked()), r, responseSize, tries), responseSize, status, dataSize, newSize)
    {
      again, dataSize, newSize := false, 0, responseSize;
      status := SendRequest(r);
      assert ValidRequest(device, r);
      if status != Success {
        bmcStatus, softErrorCount := BmcSoftFail, Increment(softErrorCount);
        return;
      }
      status, dataSize := ReceiveBmcDataFromPort(MAX_TEMP_DATA - 1);
      if status != Success {
        bmcStatus, softErrorCount := BmcSoftFail, Increment(softErrorCount);
        return;
      }
      status, again, newSize := JudgeResponse(r, responseSize, tries, dataSize);
    }

    /** The retry loop. */
    method RetryCommand(r: Request, responseSize: Option<nat>)
      returns (status: EfiStatus, dataSize: nat, newSize: Option<nat>)
      requires Valid() && ValidRequest(device, r)
      modifies this`device, this`inbox, this`bmcStatus, this`softErrorCount, tempData
      ensures Valid()
      ensures Decided(Command(old(device), old(Tracked()), r, responseSize, maxRetries), responseSize, status, dataSize,
                      newSize)
    {
      var retryCnt: nat := maxRetries;
      while true
        invariant Valid() && retryCnt > 0 && ValidRequest(device, r)
        invariant Command(old(device), old(Tracked()), r, responseSize, maxRetries)
                  == Command(device, Tracked(), r, responseSize, retryCnt)
        decreases retryCnt
      {
        var again;
        status, again, dataSize, newSize := Attempt(r, responseSize, retryCnt);
        if !again {
          return;
        }
        retryCnt := retryCnt - 1;
      }
    }

    function RequestFor(netFn: NetFn, lun: nat, command: byte, commandData: Option<seq<byte>>): Request {
      Request(netFn, lun, command, if commandData.Some? then commandData.value else [])
    }

    /** Device, health, status, size and response are those of the command. */
    ghost predicate Delivered(result: Result, status: EfiStatus, newSize: Option<nat>, response: array?<byte>)
      reads this, response
    {
      && device == result.device && Tracked() == result.health && status == result.status && newSize == result.size
      && (status == Success && response != null ==>
            && result.last.Message? && |result.last.bytes| >= RESPONSE_HEADER_SIZE
            && newSize.Some? && newSize.value <= response.Length
            && response[..newSize.value] == if response == tempData then FramedInPlace(result.last.bytes)
                                            else Framed(result.last.bytes))
    }

    /** Hand a successful command's response to the caller. */
    method Deliver(response: array?<byte>, responseSize: Option<nat>, dataSize: nat, ghost result: Result)
      returns (newSize: Option<nat>)
      requires Valid() && (response != null) == responseSize.Some? && RoomFor(response, responseSize)
      requires Decided(result, responseSize, Success, dataSize, responseSize)
      requires result.health.status == BmcOk && EndedWell(result, responseSize)
      modifies this`bmcStatus
      modifies if response == null then {} else {response}
      ensures Valid() && Delivered(result, Success, newSize, response)
    {
      newSize := responseSize;
      if response != null {
        var size := FrameResponse(response, dataSize);
        newSize := Some(size);
      }
      bmcStatus := BmcOk;
    }

    /** `responseSize` absent stands for a null pointer, like a null `response`. A null pointer where
        data was promised is refused, and so is one of the two response pointers without the other. */
    method IpmiSendCommandInternal(netFn: NetFn, lun: nat, command: byte, commandData: Option<seq<byte>>,
                                   commandDataSize: nat, response: array?<byte>, responseSize: Option<nat>)
      returns (status: EfiStatus, newSize: Option<nat>)
      requires Valid() && (commandData.Some? ==> |commandData.value| == commandDataSize)
      requires ValidRequest(device, RequestFor(netFn, lun, command, commandData))
      requires RoomFor(response, responseSize)
      modifies this`device, this`inbox, this`bmcStatus, this`softErrorCount, tempData
      modifies if response == null then {} else {response}
      ensures Valid()
      ensures (commandDataSize > 0 && commandData.None?) || (response == null) != responseSize.None? ==>
        status == InvalidParameter && device == old(device) && Tracked() == old(Tracked()) && newSize == responseSize
      ensures !((commandDataSize > 0 && commandData.None?) || (response == null) != responseSize.None?) ==>
        var request := RequestFor(netFn, lun, command, commandData);
        Delivered(Command(old(device), old(Tracked()), request, responseSize, maxRetries), status, newSize, response)
    {
      newSize := responseSize;
      if commandDataSize > 0 && commandData.None? { return InvalidParameter, newSize; }
      if (response != null) != responseSize.Some? { return InvalidParameter, newSize; }

      var dataSize;
      var r := RequestFor(netFn, lun, command, commandData);
      ghost var result := Command(device, Tracked(), r, responseSize, maxRetries);
      status, dataSize, newSize := RetryCommand(r, responseSize);
      if status != Success { return; }
      newSize := Deliver(response, responseSize, dataSize, result);
    }

    // ---- Status ----

    /** The BMC's address is fixed and left out. */
    method IpmiBmcStatus() returns (status: BmcStatus)
      requires Valid()
      modifies this`bmcStatus
      ensures Valid() && Tracked() == BmcStatusQuery(old(Tracked())) && status == bmcStatus
      ensures bmcStatus == if old(bmcStatus) == BmcSoftFail && softErrorCount >= 10 then BmcHardFail else old(bmcStatus)
    {
      if bmcStatus == BmcSoftFail && softErrorCount >= MAX_SOFT_COUNT {
        bmcStatus := BmcHardFail;
      }
      status := bmcStatus;
    }
  }
}
