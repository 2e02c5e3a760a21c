/** The SEL library (IpmiSelLib.c). */
module IpmiSelLib {
  import opened Bytes
  import opened MockSel
  import opened SelLog
  import opened MockIpmi
  import opened IpmiBaseLib

  const SYSTEM_RECORD: byte := 0x02
  const TIME_STAMP_RECORD_START: byte := 0xC0
  const TIME_STAMP_RECORD_END: byte := 0xDF
  const EVM_REVISION: byte := 0x04

  function IpmiCompCodeToEfiStatus(code: byte): (status: EfiStatus)
    ensures status == Success <==> code == COMP_NORMAL
    ensures status == OutOfResources <==> code == COMP_OUT_OF_SPACE
    ensures status == InvalidParameter <==> code in {0xC2, 0xCC, 0xCD}
    ensures status == NotFound <==> code in {0xC9, 0xCB}
    ensures status == Unsupported <==> code == 0xC1
    ensures status == BadBufferSize <==> code == 0xC7
    ensures status == Timeout <==> code == 0xC3
    ensures status == NotReady <==> code == 0xD2
    ensures status == SecurityViolation <==> code == 0xD4
    ensures status !in {BufferTooSmall, DeviceError, NotStarted, AlreadyStarted}
  {
    match code
    case 0x00 => Success
    case 0xC1 => Unsupported
    case 0xC2 => InvalidParameter
    case 0xCC => InvalidParameter
    case 0xCD => InvalidParameter
    case 0xC7 => BadBufferSize
    case 0xCB => NotFound
    case 0xC9 => NotFound
    case 0xC3 => Timeout
    case 0xC4 => OutOfResources
    case 0xD2 => NotReady
    case 0xD4 => SecurityViolation
    case _ => ProtocolError
  }

  // ---- The three layouts overlaid on a record ----

  datatype Event =
    | System(generatorId: uint16, revision: byte, sensorType: byte, sensorNumber: byte, eventDirType: byte,
             data: seq<byte>)
    | Oem(recordType: byte, manufacturerId: seq<byte>, data: seq<byte>)
    | OemNonTimestamped(recordType: byte, data: seq<byte>)

  predicate InOemRange(recordType: byte) {
    TIME_STAMP_RECORD_START <= recordType <= TIME_STAMP_RECORD_END
  }

  predicate ValidEvent(e: Event) {
    match e
    case System(_, _, _, _, _, data) => |data| == 3
    case Oem(t, id, data) => InOemRange(t) && |id| == 3 && |data| == 6
    case OemNonTimestamped(t, data) => NO_TIME_STAMP_RECORD_START <= t && |data| == 13
  }

  /** The data fields of an event, as the record holds them after its type or timestamp. */
  function Fields(e: Event): (fields: seq<byte>)
    requires ValidEvent(e)
    ensures |fields| == if e.OemNonTimestamped? then 13 else 9
  {
    match e
    case System(generator, revision, sensorType, number, dirType, data) =>
      Le16(generator) + [revision, sensorType, number, dirType] + data
    case Oem(_, id, data) => id + data
    case OemNonTimestamped(_, data) => data
  }

  function TypeOf(e: Event): byte {
    if e.System? then SYSTEM_RECORD else e.recordType
  }

  /** The record a caller submits: ID and timestamp are left to the BMC. */
  function RecordOf(e: Event): Record
    requires ValidEvent(e)
  {
    var start := Le16(0) + [TypeOf(e)];
    (if e.OemNonTimestamped? then start else start + Le32(0)) + Fields(e)
  }

  /** How a reader takes a record apart, going by its type. */
  function EventOf(r: Record): Option<Event> {
    if r[2] == SYSTEM_RECORD then Some(SystemOf(r[7..]))
    else if InOemRange(r[2]) then Some(Oem(r[2], r[7..10], r[10..]))
    else if NO_TIME_STAMP_RECORD_START <= r[2] then Some(OemNonTimestamped(r[2], r[3..]))
    else None
  }

  function SystemOf(fields: seq<byte>): Event
    requires |fields| == 9
  {
    System(FromLe16(fields[..2]), fields[2], fields[3], fields[4], fields[5], fields[6..])
  }

  lemma SystemRoundTrip(e: Event)
    requires ValidEvent(e) && e.System?
    ensures SystemOf(Fields(e)) == e
  {
    var fields := Fields(e);
    Le16RoundTrip(e.generatorId);
    assert fields[..2] == Le16(e.generatorId);
    assert fields[2..6] == [e.revision, e.sensorType, e.sensorNumber, e.eventDirType];
    assert forall i :: 2 <= i < 6 ==> fields[i] == fields[2..6][i - 2];
    assert fields[6..] == e.data;
  }

  lemma OemRoundTrip(e: Event)
    requires ValidEvent(e) && e.Oem?
    ensures Fields(e)[..3] == e.manufacturerId && Fields(e)[3..] == e.data
  {
  }

  lemma RecordFields(e: Event)
    requires ValidEvent(e)
    ensures RecordOf(e)[2] == TypeOf(e) && Tail(RecordOf(e)) == Fields(e)
  {
    var r := RecordOf(e);
    assert r[if e.OemNonTimestamped? then 3 else 7..] == Fields(e);
  }

  /** The layouts byte by byte (section 32 of the IPMI v2.0 specification): record ID and timestamp
      are zero, the type is byte 2, and the fields follow. */
  lemma RecordLayout(e: Event)
    requires ValidEvent(e)
    ensures var r := RecordOf(e);
      && r[0] == r[1] == 0
      && match e
         case System(generator, revision, sensorType, number, dirType, data) =>
           && r[2] == 0x02 && r[3] == r[4] == r[5] == r[6] == 0
           && r[7] == generator % 0x100 && r[8] == generator / 0x100 && r[9] == revision && r[10] == sensorType
           && r[11] == number && r[12] == dirType && r[13..] == data
         case Oem(t, id, data) =>
           r[2] == t && r[3] == r[4] == r[5] == r[6] == 0 && r[7..10] == id && r[10..] == data
         case OemNonTimestamped(t, data) => r[2] == t && r[3..] == data
  {
    var r, fields := RecordOf(e), Fields(e);
    if e.OemNonTimestamped? {
      assert r[3..] == fields;
    } else {
      assert forall i :: 0 <= i < 9 ==> r[7 + i] == fields[i];
      if e.System? {
        assert fields == Le16(e.generatorId) + [e.revision, e.sensorType, e.sensorNumber, e.eventDirType] + e.data;
        assert r[13..] == e.data;
      }
    }
  }

  /** Every field the caller set is in the content that the log keeps. */
  lemma ContentDeterminesEvent(e: Event, r: Record)
    requires ValidEvent(e) && Content(r) == Content(RecordOf(e))
    ensures EventOf(r) == Some(e)
  {
    RecordFields(e);
    SameContent(r, RecordOf(e));
    assert r[2] == TypeOf(e) && Tail(r) == Fields(e);
    match e {
      case System(_, _, _, _, _, _) => SystemRoundTrip(e);
      case Oem(_, _, _) =>
        OemRoundTrip(e);
        assert r[7..10] == r[7..][..3] && r[10..] == r[7..][3..];
      case OemNonTimestamped(_, _) =>
    }
  }

  /** SEL round trip: an event that was added comes back with the same type and data fields
      from any later read of its record ID before a clear. */
  lemma AddedEventIsRead(s: Sel, e: Event, ops: seq<Op>)
    requires ValidEvent(e) && |s.entries| < SEL_COUNT
    requires forall i :: 0 <= i < |ops| ==> KeepsEntries(ops[i])
    ensures var r := ReadBack(s, RecordOf(e), ops); r[0] == COMP_NORMAL && EventOf(r[3..]) == Some(e)
  {
    AddThenGet(s, RecordOf(e), ops);
    ContentDeterminesEvent(e, ReadBack(s, RecordOf(e), ops)[3..]);
  }

  // ---- The library ----

  datatype SelInfo = SelInfo(version: byte, numberOfEntries: uint16, freeSpace: uint16,
                             lastAdd: uint32, lastErase: uint32, operationSupported: byte)

  /** A response buffer: bytes the BMC did not send keep their initial value. */
  function Received(response: seq<byte>, initial: seq<byte>): (buffer: seq<byte>)
    requires |response| <= |initial|
    ensures |buffer| == |initial|
    ensures |response| == |initial| ==> buffer == response
  {
    response + initial[|response|..]
  }

  lemma InfoFields(s: Sel)
    requires |s.entries| <= SEL_COUNT
    ensures var info := GetInfo(s);
      && info[1] == 0x51 && FromLe32(info[6..10]) == FromLe32(info[10..14]) == 0
      && info[0] == COMP_NORMAL && FromLe16(info[2..4]) == |s.entries|
      && FromLe16(info[4..6]) == RECORD_SIZE * SEL_COUNT - RECORD_SIZE * |s.entries|
      && (info[14] == OVERFLOW_FLAG <==> |s.entries| == SEL_COUNT)
  {
    Le16RoundTrip(|s.entries|);
    Le16RoundTrip(RECORD_SIZE * SEL_COUNT - RECORD_SIZE * |s.entries|);
    assert GetInfo(s)[2..4] == Le16(|s.entries|);
    assert GetInfo(s)[4..6] == Le16(RECORD_SIZE * SEL_COUNT - RECORD_SIZE * |s.entries|);
    Le32RoundTrip(0);
    assert GetInfo(s)[6..10] == Le32(0) == GetInfo(s)[10..14];
  }

  /** The event was logged under the ID returned, or the log was full and is as it was. */
  ghost predicate Adds(before: Sel, after: Sel, status: EfiStatus, recordId: uint16, e: Event)
    requires ValidEvent(e) && |before.entries| <= SEL_COUNT
  {
    && after == AddEntry(before, RecordOf(e)).0
    && (if |before.entries| < SEL_COUNT then status == Success && recordId == |before.entries|
        else status == OutOfResources && after == before)
  }

  /** The status is the failure of the command, or what its completion code stands for; a code that
      was not sent reads as zero. */
  predicate StatusOf(status: EfiStatus, answer: Submitted) {
    match answer
    case Failed(failure) => status == failure
    case Answered(bytes) => status == IpmiCompCodeToEfiStatus(if bytes == [] then 0x00 else bytes[0])
  }

  /** The entry with this ID and the ID of its successor, if it is in the log. */
  ghost predicate Reads(log: Sel, recordId: uint16, status: EfiStatus, record: Record, nextRecordId: uint16) {
    if recordId >= |log.entries| then status == NotFound
    else
      && status == Success && record == log.entries[recordId]
      && nextRecordId == if recordId + 1 < |log.entries| then recordId + 1 else LAST_RECORD
  }

  lemma EntryResponse(log: Sel, recordId: uint16)
    requires |log.entries| <= SEL_COUNT
    ensures var r := GetEntry(log, GetRequest(recordId));
      var status := IpmiCompCodeToEfiStatus(r[0]);
      && Received(r, Zeros(19)) == r
      && Reads(log, recordId, status, r[3..], FromLe16(r[1..3]))
  {
    GetEntryReads(log, recordId);
  }

  // ---- Adding ----

  /** The request that adds this event. */
  function AddRequest(e: Event): Request
    requires ValidEvent(e)
  {
    Request(NETFN_STORAGE, 0, STORAGE_ADD_SEL_ENTRY, RecordOf(e))
  }

  // ---- Clearing ----

  function ClearRequest(erase: byte): Request {
    Request(NETFN_STORAGE, 0, STORAGE_CLEAR_SEL, [0, 0, 0x43, 0x4C, 0x52, erase])
  }

  /** One initialize-erase and n - 1 status queries. */
  function ClearRequests(n: nat): (requests: seq<Request>)
    ensures |requests| == n
  {
    seq(n, i => ClearRequest(if i == 0 then INITIALIZE_ERASE else GET_ERASE_STATUS))
  }

  /** The completion code of the i-th answer and whether it reports completion. A short answer
      leaves the response buffer's zeros, which read as normal and in progress. */
  function ClearAnswer(answers: seq<Submitted>, i: nat): Option<(byte, bool)> {
    if i < |answers| && answers[i].Answered? && |answers[i].bytes| <= 2 then
      var response := Received(answers[i].bytes, [0, 0]);
      Some((response[0], response[1] == ERASURE_COMPLETED))
    else None
  }

  /** The k-th answer, the first not to be normal and in progress, is normal and reports completion. */
  ghost predicate CompletesAt(answers: seq<Submitted>, k: nat) {
    && k > 0 && ClearAnswer(answers, k - 1) == Some((COMP_NORMAL, true))
    && forall i :: 0 <= i < k - 1 ==> ClearAnswer(answers, i) == Some((COMP_NORMAL, false))
  }

  /** A full response with a normal completion code. */
  predicate AddAccepted(answer: Submitted) {
    answer.Answered? && |answer.bytes| == 3 && answer.bytes[0] == COMP_NORMAL
  }

  class SelLib {
    const base: Base
    const softwareId: uint16        // IPMI_SOFTWARE_ID of the platform's headers
    const manufacturerId: seq<byte> // PcdIpmiSelOemManufacturerId

    ghost predicate Valid()
      reads this, base
    {
      base.Valid() && |manufacturerId| == 3
    }

    ghost predicate OnMock()
      reads this, base
    {
      base.bmc.Mocked?
    }

    ghost function Log(): Sel
      requires OnMock()
      reads this, base
    {
      base.bmc.state.sel
    }

    constructor (base: Base, softwareId: uint16, manufacturerId: seq<byte>)
      requires base.Valid() && |manufacturerId| == 3
      ensures Valid() && this.base == base && this.manufacturerId == manufacturerId && this.softwareId == softwareId
    {
      this.base, this.softwareId, this.manufacturerId := base, softwareId, manufacturerId;
    }

    method IpmiAddSelEntry(entry: Record) returns (status: EfiStatus, recordId: uint16)
      requires Valid()
      modifies base
      ensures Valid()
      ensures base.bmc.Mocked? == old(base.bmc.Mocked?)
      ensures OnMock() ==>
        Log() == AddEntry(old(Log()), entry).0 && base.bmc.state == old(base.bmc.state).(sel := Log())
      ensures OnMock() ==>
        if |old(Log()).entries| < SEL_COUNT then status == Success && recordId == |old(Log()).entries|
        else status == OutOfResources && Log() == old(Log())
      ensures base.sent == old(base.sent) + [Request(NETFN_STORAGE, 0, STORAGE_ADD_SEL_ENTRY, entry)]
      ensures old(base.bmc).Scripted? ==>
        var answers := old(base.bmc).answers;
        && (status == Success <==> answers != [] && AddAccepted(answers[0]))
        && (status == Success ==> recordId == FromLe16(answers[0].bytes[1..]))
        && (status != Success ==>
              match FirstAnswer(answers, 3)
              case Failed(failure) => status == failure
              case Answered(bytes) =>
                status == if bytes == [] || bytes[0] == 0x00 then ProtocolError
                          else IpmiCompCodeToEfiStatus(bytes[0]))
    {
      recordId := 0;
      assert entry[..RECORD_SIZE] == entry;
      var response;
      status, response := base.IpmiSubmitCommand(NETFN_STORAGE, STORAGE_ADD_SEL_ENTRY, entry, 3);
      if status != Success { return; }
      if |response| < 1 { return ProtocolError, recordId; }
      status := IpmiCompCodeToEfiStatus(response[0]);
      if status != Success { return; }
      if |response| < 3 { return ProtocolError, recordId; }
      recordId := FromLe16(response[1..]);
    }

    method SelAddSystemEntry(sensorType: byte, sensorNumber: byte, eventDirType: byte, data0: byte, data1: byte,
                             data2: byte)
      returns (status: EfiStatus, recordId: uint16)
      requires Valid()
      modifies base
      ensures Valid() && base.bmc.Mocked? == old(base.bmc.Mocked?)
      ensures base.sent == old(base.sent) + [AddRequest(
        System(softwareId, EVM_REVISION, sensorType, sensorNumber, eventDirType, [data0, data1, data2]))]
      ensures OnMock() ==> Adds(old(Log()), Log(), status, recordId,
        System(softwareId, EVM_REVISION, sensorType, sensorNumber, eventDirType, [data0, data1, data2]))
    {
      var fields := Le16(softwareId) + [EVM_REVISION, sensorType, sensorNumber, eventDirType] + [data0, data1, data2];
      var entry: Record := Le16(0) + [SYSTEM_RECORD] + Le32(0) + fields;
      status, recordId := IpmiAddSelEntry(entry);
    }

    method SelAddOemEntryEx(recordType: byte, manufacturer: Option<seq<byte>>, data: Option<seq<byte>>)
      returns (status: EfiStatus, recordId: uint16)
      requires Valid() && (manufacturer.Some? ==> |manufacturer.value| == 3) && (data.Some? ==> |data.value| == 6)
      modifies base
      ensures Valid() && base.bmc.Mocked? == old(base.bmc.Mocked?)
      ensures manufacturer.Some? && data.Some? && InOemRange(recordType) ==>
        base.sent == old(base.sent) + [AddRequest(Oem(recordType, manufacturer.value, data.value))]
      ensures manufacturer.None? || data.None? || !InOemRange(recordType) ==>
        status == InvalidParameter && base.sent == old(base.sent) && base.bmc == old(base.bmc)
      ensures manufacturer.Some? && data.Some? && InOemRange(recordType) && OnMock() ==>
        Adds(old(Log()), Log(), status, recordId, Oem(recordType, manufacturer.value, data.value))
    {
      recordId := 0;
      if data.None? || manufacturer.None? { return InvalidParameter, recordId; }
      if recordType < TIME_STAMP_RECORD_START || recordType > TIME_STAMP_RECORD_END {
        return InvalidParameter, recordId;
      }
      var entry: Record := Le16(0) + [recordType] + Le32(0) + (manufacturer.value + data.value);
      status, recordId := IpmiAddSelEntry(entry);
    }

    method SelAddOemEntry(recordType: byte, data: Option<seq<byte>>) returns (status: EfiStatus, recordId: uint16)
      requires Valid() && (data.Some? ==> |data.value| == 6)
      modifies base
      ensures Valid() && base.bmc.Mocked? == old(base.bmc.Mocked?)
      ensures data.Some? && InOemRange(recordType) ==>
        base.sent == old(base.sent) + [AddRequest(Oem(recordType, manufacturerId, data.value))]
      ensures data.None? || !InOemRange(recordType) ==>
        status == InvalidParameter && base.sent == old(base.sent) && base.bmc == old(base.bmc)
      ensures data.Some? && InOemRange(recordType) && OnMock() ==>
        Adds(old(Log()), Log(), status, recordId, Oem(recordType, manufacturerId, data.value))
    {
      status, recordId := SelAddOemEntryEx(recordType, Some(manufacturerId), data);
    }

    method SelAddOemEntryNoTimestamp(recordType: byte, data: seq<byte>) returns (status: EfiStatus, recordId: uint16)
      requires Valid() && |data| == 13
      modifies base
      ensures Valid() && base.bmc.Mocked? == old(base.bmc.Mocked?)
      ensures recordType >= NO_TIME_STAMP_RECORD_START ==>
        base.sent == old(base.sent) + [AddRequest(OemNonTimestamped(recordType, data))]
      ensures recordType < NO_TIME_STAMP_RECORD_START ==>
        status == InvalidParameter && base.sent == old(base.sent) && base.bmc == old(base.bmc)
      ensures recordType >= NO_TIME_STAMP_RECORD_START && OnMock() ==>
        Adds(old(Log()), Log(), status, recordId, OemNonTimestamped(recordType, data))
    {
      recordId := 0;
      if recordType < NO_TIME_STAMP_RECORD_START { return InvalidParameter, recordId; }
      var entry: Record := Le16(0) + [recordType] + data;
      status, recordId := IpmiAddSelEntry(entry);
    }

    method SelGetEntry(recordId: uint16) returns (status: EfiStatus, record: Record, nextRecordId: uint16)
      requires Valid()
      modifies base
      ensures Valid() && base.bmc.Mocked? == old(base.bmc.Mocked?)
      ensures base.sent == old(base.sent) + [Request(NETFN_STORAGE, 0, STORAGE_GET_SEL_ENTRY, GetRequest(recordId))]
      ensures old(base.bmc).Scripted? ==>
        var answer := FirstAnswer(old(base.bmc.answers), 19);
        && StatusOf(status, answer)
        && (status == Success && |answer.bytes| == 19 ==>
              record == answer.bytes[3..] && nextRecordId == answer.bytes[1] as int + 0x100 * (answer.bytes[2] as int))
      ensures OnMock() ==> base.bmc == old(base.bmc)
      ensures OnMock() ==> Reads(Log(), recordId, status, record, nextRecordId)
    {
      record, nextRecordId := Zeros(RECORD_SIZE), 0;
      var request := [0, 0] + [recordId % 0x100, recordId / 0x100 % 0x100] + [0, 0xFF];
      assert request == GetRequest(recordId);
      var response;
      status, response := base.IpmiSubmitCommand(NETFN_STORAGE, STORAGE_GET_SEL_ENTRY, request, 19);
      if status != Success { return; }
      if OnMock() { EntryResponse(Log(), recordId); }
      response := Received(response, Zeros(19));
      status := IpmiCompCodeToEfiStatus(response[0]);
      if status != Success { return; }
      record, nextRecordId := response[3..], FromLe16(response[1..3]);
    }

    method SelGetInfo() returns (status: EfiStatus, info: SelInfo)
      requires Valid()
      modifies base
      ensures Valid() && base.bmc.Mocked? == old(base.bmc.Mocked?)
      ensures base.sent == old(base.sent) + [Request(NETFN_STORAGE, 0, STORAGE_GET_SEL_INFO, [])]
      ensures old(base.bmc).Scripted? ==>
        var answer := FirstAnswer(old(base.bmc.answers), 15);
        && StatusOf(status, answer)
        && (status == Success && |answer.bytes| == 15 ==>
              info == SelInfo.SelInfo(answer.bytes[1], FromLe16(answer.bytes[2..4]), FromLe16(answer.bytes[4..6]),
                                      FromLe32(answer.bytes[6..10]), FromLe32(answer.bytes[10..14]), answer.bytes[14]))
      ensures OnMock() ==>
        && base.bmc == old(base.bmc) && status == Success
        && info.version == 0x51 && info.lastAdd == info.lastErase == 0
        && info.numberOfEntries == |Log().entries|
        && info.freeSpace + RECORD_SIZE * info.numberOfEntries == RECORD_SIZE * SEL_COUNT
        && (info.operationSupported == OVERFLOW_FLAG <==> |Log().entries| == SEL_COUNT)
    {
      info := SelInfo.SelInfo(0, 0, 0, 0, 0, 0);
      var response;
      status, response := base.IpmiSubmitCommand(NETFN_STORAGE, STORAGE_GET_SEL_INFO, [], 15);
      if status != Success { return; }
      if OnMock() { InfoFields(Log()); }
      response := Received(response, Zeros(15));
      status := IpmiCompCodeToEfiStatus(response[0]);
      if status != Success { return; }
      info := SelInfo.SelInfo(response[1], FromLe16(response[2..4]), FromLe16(response[4..6]),
                      FromLe32(response[6..10]), FromLe32(response[10..14]), response[14]);
    }

    method SelGetTime() returns (status: EfiStatus, time: uint32)
      requires Valid()
      modifies base
      ensures Valid() && base.bmc.Mocked? == old(base.bmc.Mocked?)
      ensures base.sent == old(base.sent) + [Request(NETFN_STORAGE, 0, STORAGE_GET_SEL_TIME, [])]
      ensures old(base.bmc).Scripted? ==>
        var answer := FirstAnswer(old(base.bmc.answers), 5);
        && StatusOf(status, answer)
        && (status == Success && |answer.bytes| == 5 ==> time == FromLe32(answer.bytes[1..]))
      ensures OnMock() ==> status == Success && time == Tick(old(Log()).time) && Log() == old(Log()).(time := time)
    {
      time := 0;
      var response;
      status, response := base.IpmiSubmitCommand(NETFN_STORAGE, STORAGE_GET_SEL_TIME, [], 5);
      if status != Success { return; }
      response := Received(response, Zeros(5));
      status := IpmiCompCodeToEfiStatus(response[0]);
      if status != Success { return; }
      time := FromLe32(response[1..]);
      if OnMock() {
        Le32RoundTrip(Log().time);
        assert response[1..] == Le32(Log().time);
      }
    }

    method SelSetTime(time: uint32) returns (status: EfiStatus)
      requires Valid()
      modifies base
      ensures Valid() && base.bmc.Mocked? == old(base.bmc.Mocked?)
      ensures base.sent == old(base.sent) + [Request(NETFN_STORAGE, 0, STORAGE_SET_SEL_TIME, Le32(time))]
      ensures old(base.bmc).Scripted? ==> StatusOf(status, FirstAnswer(old(base.bmc.answers), 1))
      ensures OnMock() ==> status == Success && Log() == old(Log()).(time := time)
    {
      Le32RoundTrip(time);
      assert Le32(time)[..4] == Le32(time);
      var response;
      status, response := base.IpmiSubmitCommand(NETFN_STORAGE, STORAGE_SET_SEL_TIME, Le32(time), 1);
      if status != Success { return; }
      response := Received(response, [0]);
      status := IpmiCompCodeToEfiStatus(response[0]);
    }

    method SubmitClear(erase: byte) returns (status: EfiStatus, completed: bool)
      requires Valid() && (erase == INITIALIZE_ERASE || erase == GET_ERASE_STATUS)
      modifies base
      ensures Valid() && base.bmc.Mocked? == old(base.bmc.Mocked?)
      ensures base.sent == old(base.sent) + [ClearRequest(erase)]
      ensures old(base.bmc).Scripted? ==> StatusOf(status, FirstAnswer(old(base.bmc.answers), 2))
      ensures old(base.bmc).Scripted? ==>
        && base.bmc.answers == Rest(old(base.bmc.answers), 1)
        && (old(base.bmc.answers) == [] ==> status != Success)
        && (status == Success ==> ClearAnswer(old(base.bmc.answers), 0) == Some((COMP_NORMAL, completed)))
        && (status != Success ==>
              ClearAnswer(old(base.bmc.answers), 0) !in {Some((COMP_NORMAL, false)), Some((COMP_NORMAL, true))})
      ensures OnMock() ==>
        status == Success && completed == (erase == GET_ERASE_STATUS) && Log() == old(Log()).(entries := [])
    {
      completed := false;
      var response;
      status, response := base.IpmiSubmitCommand(NETFN_STORAGE, STORAGE_CLEAR_SEL, [0, 0, 0x43, 0x4C, 0x52, erase], 2);
      if status != Success { return; }
      response := Received(response, [0, 0]);
      status := IpmiCompCodeToEfiStatus(response[0]);
      completed := response[1] == ERASURE_COMPLETED;
    }

    /** Against any BMC: one initialize-erase comes first and only status queries after it. With
        `awaitClear` the answers up to the last were normal and short of completion, and the last
        was not; success means that it was normal and reported completion. */
    method SelClear(awaitClear: bool) returns (status: EfiStatus)
      requires Valid()
      modifies base
      ensures Valid() && base.bmc.Mocked? == old(base.bmc.Mocked?)
      ensures |base.sent| > |old(base.sent)|
      ensures base.sent == old(base.sent) + ClearRequests(|base.sent| - |old(base.sent)|)
      ensures !awaitClear ==> |base.sent| == |old(base.sent)| + 1
      ensures old(base.bmc).Scripted? ==>
        var n := |base.sent| - |old(base.sent)|;
        && (forall i :: 0 <= i < n - 1 ==> ClearAnswer(old(base.bmc.answers), i) == Some((COMP_NORMAL, false)))
        && (status == Success <==> var last := ClearAnswer(old(base.bmc.answers), n - 1);
              last.Some? && last.value.0 == COMP_NORMAL && (awaitClear ==> last.value.1))
        && (awaitClear ==> ClearAnswer(old(base.bmc.answers), n - 1) != Some((COMP_NORMAL, false)))
        && StatusOf(status, FirstAnswer(Rest(old(base.bmc.answers), n - 1), 2))
      ensures OnMock() ==> status == Success && Log() == old(Log()).(entries := [])
      ensures OnMock() ==> |base.sent| == |old(base.sent)| + if awaitClear then 2 else 1
    {
      var erase := INITIALIZE_ERASE;
      ghost var n := 0;
      while true
        invariant Valid() && base.bmc.Mocked? == old(base.bmc.Mocked?)
        invariant base.sent == old(base.sent) + ClearRequests(n)
        invariant erase == if n == 0 then INITIALIZE_ERASE else GET_ERASE_STATUS
        invariant n > 0 ==> awaitClear
        invariant old(base.bmc).Scripted? ==> base.bmc.answers == Rest(old(base.bmc.answers), n)
        invariant old(base.bmc).Scripted? ==>
          forall i :: 0 <= i < n ==> ClearAnswer(old(base.bmc.answers), i) == Some((COMP_NORMAL, false))
        invariant old(base.bmc).Mocked? ==>
          n <= 1 && Log() == if n == 0 then old(Log()) else old(Log()).(entries := [])
        decreases if base.bmc.Scripted? then |base.bmc.answers| else 1 - n
      {
        var completed;
        status, completed := SubmitClear(erase);
        assert ClearRequests(n + 1) == ClearRequests(n) + [ClearRequest(erase)];
        n := n + 1;
        if status != Success { return; }
        if !awaitClear || completed { return; }
        erase := GET_ERASE_STATUS;
      }
    }

    /** When completion comes at the k-th reply, exactly k commands are sent and the clear succeeds;
        and it succeeds only then. */
    method ClearAndAwait() returns (status: EfiStatus)
      requires Valid() && base.bmc.Scripted?
      modifies base
      ensures Valid() && base.bmc.Scripted?
      ensures |base.sent| > |old(base.sent)|
      ensures forall k: nat :: CompletesAt(old(base.bmc.answers), k) ==>
        status == Success && base.sent == old(base.sent) + ClearRequests(k)
      ensures status == Success ==> CompletesAt(old(base.bmc.answers), |base.sent| - |old(base.sent)|)
    {
      status := SelClear(true);
    }
  }
}
