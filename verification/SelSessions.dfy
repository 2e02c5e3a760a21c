/** Sessions of a user of the SEL library on the mock: any calls, one after another. */
module SelSessions {
  import opened Bytes
  import opened MockSel
  import opened SelLog
  import opened IpmiSelLib

  datatype Call =
    | AddSystem(sensorType: byte, sensorNumber: byte, eventDirType: byte, data0: byte, data1: byte, data2: byte)
    | AddOem(recordType: byte, data: seq<byte>)
    | AddOemEx(recordType: byte, manufacturerId: seq<byte>, data: seq<byte>)
    | AddOemNoTimestamp(recordType: byte, data: seq<byte>)
    | ReadEntry(id: uint16)
    | ReadInfo
    | ReadClock
    | SetClock(time: uint32)
    | ClearLog(awaitClear: bool)

  predicate ValidCall(c: Call) {
    match c
    case AddOem(_, data) => |data| == 6
    case AddOemEx(_, id, data) => |id| == 3 && |data| == 6
    case AddOemNoTimestamp(_, data) => |data| == 13
    case _ => true
  }

  /** The event a call logs, if it is one that logs any. */
  function EventOfCall(c: Call, softwareId: uint16, platformId: seq<byte>): (e: Option<Event>)
    requires ValidCall(c) && |platformId| == 3
    ensures e.Some? ==> ValidEvent(e.value)
  {
    match c
    case AddSystem(sensorType, number, dirType, data0, data1, data2) =>
      Some(System(softwareId, EVM_REVISION, sensorType, number, dirType, [data0, data1, data2]))
    case AddOem(t, data) => if InOemRange(t) then Some(Oem(t, platformId, data)) else None
    case AddOemEx(t, id, data) => if InOemRange(t) then Some(Oem(t, id, data)) else None
    case AddOemNoTimestamp(t, data) =>
      if t >= NO_TIME_STAMP_RECORD_START then Some(OemNonTimestamped(t, data)) else None
    case _ => None
  }

  /** The message a call amounts to, as far as the log goes. */
  function OpOf(c: Call, softwareId: uint16, platformId: seq<byte>): Op
    requires ValidCall(c) && |platformId| == 3
  {
    match c
    case ReadEntry(id) => Get(id)
    case ReadInfo => Info
    case ReadClock => ReadTime
    case SetClock(time) => WriteTime(time)
    case ClearLog(_) => Erase(INITIALIZE_ERASE)
    case _ =>
      var e := EventOfCall(c, softwareId, platformId);
      if e.Some? then Add(RecordOf(e.value)) else Info
  }

  function OpsOf(calls: seq<Call>, softwareId: uint16, platformId: seq<byte>): (ops: seq<Op>)
    requires |platformId| == 3 && forall i :: 0 <= i < |calls| ==> ValidCall(calls[i])
    ensures |ops| == |calls|
  {
    seq(|calls|, i requires 0 <= i < |calls| => OpOf(calls[i], softwareId, platformId))
  }

  /** One call: what it does to the log, and for an event that is added its status and ID. */
  method Perform(lib: SelLib, c: Call) returns (status: EfiStatus, recordId: uint16)
    requires lib.Valid() && lib.OnMock() && ValidCall(c)
    modifies lib.base
    ensures lib.Valid() && lib.OnMock()
    ensures lib.Log() == Step(old(lib.Log()), OpOf(c, lib.softwareId, lib.manufacturerId))
    ensures var e := EventOfCall(c, lib.softwareId, lib.manufacturerId);
      e.Some? ==> Adds(old(lib.Log()), lib.Log(), status, recordId, e.value)
  {
    recordId := 0;
    match c {
      case AddSystem(sensorType, number, dirType, data0, data1, data2) =>
        status, recordId := lib.SelAddSystemEntry(sensorType, number, dirType, data0, data1, data2);
      case AddOem(t, data) =>
        status, recordId := lib.SelAddOemEntry(t, Some(data));
      case AddOemEx(t, id, data) =>
        status, recordId := lib.SelAddOemEntryEx(t, Some(id), Some(data));
      case AddOemNoTimestamp(t, data) =>
        status, recordId := lib.SelAddOemEntryNoTimestamp(t, data);
      case ReadEntry(id) =>
        var record, next;
        status, record, next := lib.SelGetEntry(id);
      case ReadInfo =>
        var info;
        status, info := lib.SelGetInfo();
      case ReadClock =>
        var time;
        status, time := lib.SelGetTime();
      case SetClock(time) =>
        status := lib.SelSetTime(time);
      case ClearLog(awaitClear) =>
        status := lib.SelClear(awaitClear);
    }
  }

  lemma AfterNext(s: Sel, ops: seq<Op>, i: nat)
    requires |s.entries| <= SEL_COUNT && i < |ops|
    ensures After(s, ops[..i + 1]) == Step(After(s, ops[..i]), ops[i])
  {
    assert ops[..i + 1][..i] == ops[..i];
  }

  method PerformAll(lib: SelLib, calls: seq<Call>)
    requires lib.Valid() && lib.OnMock() && forall i :: 0 <= i < |calls| ==> ValidCall(calls[i])
    modifies lib.base
    ensures lib.Valid() && lib.OnMock()
    ensures lib.Log() == After(old(lib.Log()), OpsOf(calls, lib.softwareId, lib.manufacturerId))
  {
    ghost var ops := OpsOf(calls, lib.softwareId, lib.manufacturerId);
    for i := 0 to |calls|
      invariant lib.Valid() && lib.OnMock() && lib.Log() == After(old(lib.Log()), ops[..i])
    {
      var _, _ := Perform(lib, calls[i]);
      AfterNext(old(lib.Log()), ops, i);
    }
    assert ops[..|calls|] == ops;
  }

  method AddEvent(lib: SelLib, c: Call) returns (status: EfiStatus, recordId: uint16)
    requires lib.Valid() && lib.OnMock() && ValidCall(c) && EventOfCall(c, lib.softwareId, lib.manufacturerId).Some?
    modifies lib.base
    ensures lib.Valid() && lib.OnMock()
    ensures Adds(old(lib.Log()), lib.Log(), status, recordId,
                 EventOfCall(c, lib.softwareId, lib.manufacturerId).value)
  {
    status, recordId := Perform(lib, c);
  }

  lemma OpsKeepEntries(calls: seq<Call>, softwareId: uint16, platformId: seq<byte>)
    requires |platformId| == 3 && forall i :: 0 <= i < |calls| ==> ValidCall(calls[i]) && !calls[i].ClearLog?
    ensures var ops := OpsOf(calls, softwareId, platformId); forall i :: 0 <= i < |ops| ==> KeepsEntries(ops[i])
  {
  }

  /** End to end on one library and one mock: an event that was added is read back by the ID that
      was returned, after any calls that do not clear the log. It decodes to the very event, under
      its own ID, with the time of its adding if its type bears one. A full log refuses it. */
  method AddThenRead(lib: SelLib, c: Call, calls: seq<Call>)
    returns (added: EfiStatus, status: EfiStatus, record: Record)
    requires lib.Valid() && lib.OnMock() && ValidCall(c) && EventOfCall(c, lib.softwareId, lib.manufacturerId).Some?
    requires forall i :: 0 <= i < |calls| ==> ValidCall(calls[i]) && !calls[i].ClearLog?
    modifies lib.base
    ensures lib.Valid() && lib.OnMock()
    ensures added == if |old(lib.Log()).entries| < SEL_COUNT then Success else OutOfResources
    ensures added == Success ==>
      && status == Success && RecordId(record) == |old(lib.Log()).entries|
      && EventOf(record) == EventOfCall(c, lib.softwareId, lib.manufacturerId)
      && (Timestamped(record) ==> TimeStamp(record) == Tick(old(lib.Log()).time))
  {
    ghost var s := lib.Log();
    ghost var e := EventOfCall(c, lib.softwareId, lib.manufacturerId).value;
    ghost var ops := OpsOf(calls, lib.softwareId, lib.manufacturerId);
    OpsKeepEntries(calls, lib.softwareId, lib.manufacturerId);
    var recordId;
    added, recordId := AddEvent(lib, c);
    PerformAll(lib, calls);
    var next;
    status, record, next := lib.SelGetEntry(recordId);
    if added == Success {
      AddedIsRead(s, e, ops, recordId, status, record, next);
    }
  }

  lemma AddedIsRead(s: Sel, e: Event, ops: seq<Op>, id: uint16, status: EfiStatus, record: Record, next: uint16)
    requires |s.entries| < SEL_COUNT && ValidEvent(e) && forall i :: 0 <= i < |ops| ==> KeepsEntries(ops[i])
    requires id == |s.entries| && Reads(After(AddEntry(s, RecordOf(e)).0, ops), id, status, record, next)
    ensures status == Success && RecordId(record) == id && EventOf(record) == Some(e)
    ensures Timestamped(record) ==> TimeStamp(record) == Tick(s.time)
  {
    AddedEventIsRead(s, e, ops);
    AddThenGet(s, RecordOf(e), ops);
    EntryReadBack(s, RecordOf(e), ops);
    SameType(record, RecordOf(e));
  }

  lemma SameType(r: Record, q: Record)
    requires Content(r) == Content(q)
    ensures Timestamped(r) == Timestamped(q)
  {
    SameContent(r, q);
  }

  /** What ReadBack finds in the response is the entry of the log. */
  lemma EntryReadBack(s: Sel, record: Record, ops: seq<Op>)
    requires |s.entries| < SEL_COUNT && forall i :: 0 <= i < |ops| ==> KeepsEntries(ops[i])
    ensures var after := After(AddEntry(s, record).0, ops);
      |s.entries| < |after.entries| && ReadBack(s, record, ops)[3..] == after.entries[|s.entries|]
  {
    var added := AddEntry(s, record).0;
    EntriesOnlyGrow(added, ops);
    Le16RoundTrip(|s.entries|);
    assert AddEntry(s, record).1[1..] == Le16(|s.entries|);
    GetEntryReads(After(added, ops), |s.entries|);
  }
}
