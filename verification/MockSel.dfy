/**
 The System Event Log of the mock BMC (MockSel.c): a table of 16-byte records, the number of the
 next one and a clock. Section 31 of the IPMI v2.0 specification defines the messages.
 */
module MockSel {
  import opened Bytes

  const SEL_COUNT := 100
  const RECORD_SIZE := 16
  const NO_TIME_STAMP_RECORD_START: byte := 0xE0
  const LAST_RECORD: uint16 := 0xFFFF

  const COMP_OUT_OF_SPACE: byte := 0xC4
  const COMP_NOT_PRESENT: byte := 0xCB
  const COMP_INVALID_DATA_FIELD: byte := 0xCC

  const INITIALIZE_ERASE: byte := 0xAA
  const GET_ERASE_STATUS: byte := 0x00
  const ERASURE_IN_PROGRESS: byte := 0
  const ERASURE_COMPLETED: byte := 1
  const OVERFLOW_FLAG: byte := 0x80

  /** Bytes 0-1 record ID, 2 record type, and for timestamped types 3-6 the timestamp. */
  type Record = r: seq<byte> | |r| == RECORD_SIZE witness seq(RECORD_SIZE, i => 0)

  function RecordId(r: Record): uint16 { FromLe16(r[..2]) }
  predicate Timestamped(r: Record) { r[2] < NO_TIME_STAMP_RECORD_START }
  function TimeStamp(r: Record): uint32 { FromLe32(r[3..7]) }

  /** The part of a record that is the caller's: its type and its data. */
  function Content(r: Record): seq<byte> {
    [r[2]] + Tail(r)
  }

  /** What follows the type and, if there is one, the timestamp. */
  function Tail(r: Record): seq<byte> {
    if Timestamped(r) then r[7..] else r[3..]
  }

  lemma SameContent(r: Record, q: Record)
    requires Content(r) == Content(q)
    ensures r[2] == q[2] && Tail(r) == Tail(q)
  {
    assert r[2] == Content(r)[0] && Tail(r) == Content(r)[1..];
    assert q[2] == Content(q)[0] && Tail(q) == Content(q)[1..];
  }

  datatype Sel = Sel(entries: seq<Record>, time: uint32)

  ghost predicate ValidSel(s: Sel) {
    |s.entries| <= SEL_COUNT && forall i :: 0 <= i < |s.entries| ==> RecordId(s.entries[i]) == i
  }

  function Tick(time: uint32): uint32 { (time + 1) % 0x1_0000_0000 }

  function Zeros(n: nat): (z: seq<byte>)
    ensures |z| == n
  {
    seq(n, i => 0)
  }

  // ---- What each message does to the log, and its response ----

  function Stored(r: Record, id: uint16, time: uint32): (e: Record)
    ensures RecordId(e) == id && Content(e) == Content(r)
    ensures Timestamped(e) == Timestamped(r) && (Timestamped(r) ==> TimeStamp(e) == time)
  {
    var e: Record := Le16(id) + [r[2]] + (if Timestamped(r) then Le32(time) + r[7..] else r[3..]);
    assert e[..2] == Le16(id);
    Le16RoundTrip(id);
    Le32RoundTrip(time);
    assert Timestamped(r) ==> e[3..7] == Le32(time) && e[7..] == r[7..];
    assert !Timestamped(r) ==> e[3..] == r[3..];
    e
  }

  /** The same record written part by part over the caller's. */
  lemma StoredInPlace(r: Record, id: uint16, time: uint32)
    ensures var withId: Record := Le16(id) + r[2..];
      && withId[2] == r[2]
      && (Timestamped(r) ==> withId[..3] + Le32(time) + withId[7..] == Stored(r, id, time))
      && (!Timestamped(r) ==> withId == Stored(r, id, time))
  {
  }

  function AddEntry(s: Sel, r: Record): (Sel, seq<byte>)
    requires |s.entries| <= SEL_COUNT
  {
    var id := |s.entries|;
    if id < SEL_COUNT then
      var time := if Timestamped(r) then Tick(s.time) else s.time;
      (Sel(s.entries + [Stored(r, id, time)], time), [COMP_NORMAL] + Le16(id))
    else (s, [COMP_OUT_OF_SPACE] + Le16(0))
  }

  function GetEntry(s: Sel, request: seq<byte>): (response: seq<byte>)
    requires |request| >= 6 && |s.entries| <= SEL_COUNT
    ensures |response| == 19
  {
    var id := FromLe16(request[2..4]);
    if request[0] != 0 || request[1] != 0 || request[4] != 0 || request[5] != 0xFF then
      [COMP_INVALID_DATA_FIELD] + Zeros(18)
    else if id >= |s.entries| then [COMP_NOT_PRESENT] + Zeros(18)
    else
      [COMP_NORMAL] + Le16(if id + 1 < |s.entries| then id + 1 else LAST_RECORD) + s.entries[id]
  }

  function GetInfo(s: Sel): (response: seq<byte>)
    requires |s.entries| <= SEL_COUNT
    ensures |response| == 15
  {
    [COMP_NORMAL, 0x51] + Le16(|s.entries|) + Le16(SEL_COUNT * RECORD_SIZE - RECORD_SIZE * |s.entries|)
    + Le32(0) + Le32(0) + [if |s.entries| >= SEL_COUNT then OVERFLOW_FLAG else 0]
  }

  function GetTime(s: Sel): (Sel, seq<byte>) {
    (s.(time := Tick(s.time)), [COMP_NORMAL] + Le32(Tick(s.time)))
  }

  function SetTime(s: Sel, time: uint32): (Sel, seq<byte>) {
    (s.(time := time), [COMP_NORMAL])
  }

  /** Asking for the erase status empties the log just as starting an erase does. */
  /** What each message does to the clock, apart from setting it: adding a timestamped record and
      looking at the clock advance it by one, modulo 2^32, and nothing else touches it. */
  lemma ClockSteps(s: Sel, r: Record, erase: byte)
    requires |s.entries| <= SEL_COUNT
    ensures var next := if s.time == 0xFFFF_FFFF then 0 else s.time + 1;
      && AddEntry(s, r).0.time == (if |s.entries| < SEL_COUNT && r[2] < 0xE0 then next else s.time)
      && GetTime(s).0.time == next && GetTime(s).0.entries == s.entries
      && Clear(s, erase).0.time == s.time
    ensures forall t: uint32 :: SetTime(s, t).0 == Sel(s.entries, t)
  {
  }

  /** The read request must have no reservation, offset 0 and ask for the whole record; anything
      else is an invalid field, whatever the log holds. */
  lemma ReadRequests(s: Sel, request: seq<byte>)
    requires |request| >= 6 && |s.entries| <= SEL_COUNT
    ensures GetEntry(s, request)[0] == 0xCC
            <==> !(request[0] == 0 && request[1] == 0 && request[4] == 0 && request[5] == 0xFF)
  {
  }

  /** The response to Get SEL Info, byte by byte (section 31.2 of the IPMI v2.0 specification). */
  lemma InfoBytes(s: Sel)
    requires |s.entries| <= SEL_COUNT
    ensures var r, n, free := GetInfo(s), |s.entries|, 1600 - 16 * |s.entries|;
      && r[0] == 0x00 && r[1] == 0x51
      && r[2] == n % 0x100 && r[3] == n / 0x100 && r[4] == free % 0x100 && r[5] == free / 0x100
      && (forall i :: 6 <= i < 14 ==> r[i] == 0) && r[14] == if n == 100 then 0x80 else 0
  {
  }

  function Clear(s: Sel, erase: byte): (Sel, seq<byte>) {
    (s.(entries := []), [COMP_NORMAL, if erase == INITIALIZE_ERASE then ERASURE_IN_PROGRESS else ERASURE_COMPLETED])
  }

  // ---- The store itself ----

  class Store {
    const mSel: array<Record>
    var mNextRecordId: uint16
    var mSelTime: uint32

    ghost predicate Valid()
      reads this, mSel
    {
      mSel.Length == SEL_COUNT && mNextRecordId <= SEL_COUNT && ValidSel(State())
    }

    ghost function State(): Sel
      requires mNextRecordId <= mSel.Length
      reads this, mSel
    {
      Sel(mSel[..mNextRecordId], mSelTime)
    }

    constructor ()
      ensures Valid() && fresh(mSel) && State() == Sel([], 0)
    {
      mSel := new Record[SEL_COUNT](_ => Zeros(RECORD_SIZE));
      mNextRecordId, mSelTime := 0, 0;
    }

    method MockIpmiSelGetInfo() returns (response: seq<byte>)
      requires Valid()
      ensures response == GetInfo(State())
    {
      var support := 0;
      if mNextRecordId >= SEL_COUNT { support := OVERFLOW_FLAG; }
      response := [COMP_NORMAL, 0x51] + Le16(mNextRecordId)
                  + Le16(mSel.Length * RECORD_SIZE - RECORD_SIZE * mNextRecordId) + Le32(0) + Le32(0) + [support];
    }

    method MockIpmiSelAddEntry(data: seq<byte>) returns (response: seq<byte>)
      requires Valid() && |data| >= RECORD_SIZE
      modifies this, mSel
      ensures Valid()
      ensures (State(), response) == AddEntry(old(State()), data[..RECORD_SIZE])
    {
      if mNextRecordId < SEL_COUNT {
        var record: Record := data[..RECORD_SIZE];
        mSel[mNextRecordId] := record;
        mSel[mNextRecordId] := Le16(mNextRecordId) + mSel[mNextRecordId][2..];
        response := Le16(mNextRecordId);
        if mSel[mNextRecordId][2] < NO_TIME_STAMP_RECORD_START {
          mSelTime := Tick(mSelTime);
          mSel[mNextRecordId] := mSel[mNextRecordId][..3] + Le32(mSelTime) + mSel[mNextRecordId][7..];
        }
        StoredInPlace(record, mNextRecordId, mSelTime);
        assert mSel[mNextRecordId] == Stored(record, mNextRecordId, mSelTime);
        mNextRecordId := mNextRecordId + 1;
        assert mSel[..mNextRecordId] == old(mSel[..mNextRecordId]) + [mSel[mNextRecordId - 1]];
        response := [COMP_NORMAL] + response;
      } else {
        response := [COMP_OUT_OF_SPACE] + Le16(0);
      }
    }

    method MockIpmiSelGetTime() returns (response: seq<byte>)
      requires Valid()
      modifies this`mSelTime
      ensures Valid() && (State(), response) == GetTime(old(State()))
    {
      mSelTime := Tick(mSelTime);
      response := [COMP_NORMAL] + Le32(mSelTime);
    }

    method MockIpmiSelSetTime(data: seq<byte>) returns (response: seq<byte>)
      requires Valid() && |data| >= 4
      modifies this`mSelTime
      ensures Valid() && (State(), response) == SetTime(old(State()), FromLe32(data[..4]))
    {
      mSelTime := FromLe32(data[..4]);
      response := [COMP_NORMAL];
    }

    method MockIpmiSelClear(data: seq<byte>) returns (response: seq<byte>)
      requires Valid() && |data| >= 6
      requires data[2..5] == [0x43, 0x4C, 0x52] && data[5] in {INITIALIZE_ERASE, GET_ERASE_STATUS}
      modifies this`mNextRecordId
      ensures Valid() && (State(), response) == Clear(old(State()), data[5])
    {
      mNextRecordId := 0;
      var progress := if data[5] == INITIALIZE_ERASE then ERASURE_IN_PROGRESS else ERASURE_COMPLETED;
      response := [COMP_NORMAL, progress];
    }

    method MockIpmiSelGetEntry(data: seq<byte>) returns (response: seq<byte>)
      requires Valid() && |data| >= 6
      ensures response == GetEntry(State(), data)
    {
      if data[0] != 0 || data[1] != 0 || data[4] != 0 || data[5] != 0xFF {
        return [COMP_INVALID_DATA_FIELD] + Zeros(18);
      }
      var recordId := FromLe16(data[2..4]);
      if recordId >= mNextRecordId {
        return [COMP_NOT_PRESENT] + Zeros(18);
      }
      var next := if recordId as int + 1 < mNextRecordId as int then recordId + 1 else LAST_RECORD;
      response := [COMP_NORMAL] + Le16(next) + mSel[recordId];
    }
  }
}
