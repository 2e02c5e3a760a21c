/** What holds of the mock SEL over every run of messages. */
module SelLog {
  import opened Bytes
  import opened MockSel

  datatype Op = Add(record: Record) | Get(id: uint16) | Info | ReadTime | WriteTime(time: uint32) | Erase(erase: byte)

  function Step(s: Sel, op: Op): Sel
    requires |s.entries| <= SEL_COUNT
  {
    match op
    case Add(record) => AddEntry(s, record).0
    case Get(_) => s
    case Info => s
    case ReadTime => GetTime(s).0
    case WriteTime(time) => SetTime(s, time).0
    case Erase(erase) => Clear(s, erase).0
  }

  /** The log after a run of messages. */
  function After(s: Sel, ops: seq<Op>): (s': Sel)
    requires |s.entries| <= SEL_COUNT
    ensures |s'.entries| <= SEL_COUNT
  {
    if ops == [] then s else Step(After(s, ops[..|ops| - 1]), ops[|ops| - 1])
  }

  // ---- The log is the plain sequence of what was added since the last clear ----

  /** Of a run from an empty log: what was added since the last clear, while there was room. */
  function Added(ops: seq<Op>): (log: seq<Record>)
    ensures |log| <= SEL_COUNT
  {
    if ops == [] then [] else
    var log := Added(ops[..|ops| - 1]);
    match ops[|ops| - 1]
    case Erase(_) => []
    case Add(record) => if |log| < SEL_COUNT then log + [record] else log
    case _ => log
  }

  /** The log holds the same content in the same order; entry i carries record ID i. */
  ghost predicate Refines(s: Sel, log: seq<Record>) {
    && |s.entries| == |log|
    && (forall i :: 0 <= i < |log| ==> RecordId(s.entries[i]) == i && Content(s.entries[i]) == Content(log[i]))
  }

  /** The store refines a plain sequence over every run. In particular nothing from before the
      last clear is left. */
  lemma {:induction false} StoreRefinesLog(ops: seq<Op>)
    ensures Refines(After(Sel([], 0), ops), Added(ops))
    ensures ValidSel(After(Sel([], 0), ops))
  {
    if ops != [] { StoreRefinesLog(ops[..|ops| - 1]); }
  }

  // ---- Reading ----

  /** The request of SelGetEntry: no reservation, the record ID, offset 0, the whole record. */
  function GetRequest(id: uint16): (request: seq<byte>)
    ensures |request| == 6
  {
    [0, 0] + Le16(id) + [0, 0xFF]
  }

  /** A read succeeds exactly for the IDs in the log, and returns that entry and its successor. */
  lemma GetEntryReads(s: Sel, id: uint16)
    requires |s.entries| <= SEL_COUNT
    ensures var r := GetEntry(s, GetRequest(id));
      && (r[0] == COMP_NORMAL <==> id < |s.entries|)
      && (r[0] != COMP_NORMAL ==> r[0] == COMP_NOT_PRESENT)
      && (id < |s.entries| ==> r[3..] == s.entries[id])
      && (id < |s.entries| ==> FromLe16(r[1..3]) == if id + 1 < |s.entries| then id + 1 else LAST_RECORD)
  {
    var next := if id as int + 1 < |s.entries| then id + 1 else LAST_RECORD;
    assert GetRequest(id)[2..4] == Le16(id);
    Le16RoundTrip(id);
    Le16RoundTrip(next);
    if id < |s.entries| {
      assert GetEntry(s, GetRequest(id))[1..3] == Le16(next);
    }
  }

  /** Follow the next-record links from `id` until the last record, as a reader of the log does. */
  function Walk(s: Sel, id: uint16): seq<Record>
    requires |s.entries| <= SEL_COUNT
    decreases |s.entries| - id
  {
    GetEntryReads(s, id);
    var r := GetEntry(s, GetRequest(id));
    if r[0] != COMP_NORMAL then []
    else
      var next := FromLe16(r[1..3]);
      [r[3..]] + (if next == LAST_RECORD then [] else Walk(s, next))
  }

  lemma {:induction false} WalkFrom(s: Sel, id: uint16)
    requires |s.entries| <= SEL_COUNT && id <= |s.entries|
    ensures Walk(s, id) == s.entries[id..]
    decreases |s.entries| - id
  {
    GetEntryReads(s, id);
    if id < |s.entries| {
      assert s.entries[id..] == [s.entries[id]] + s.entries[id + 1..];
      if id as int + 1 < |s.entries| { WalkFrom(s, id + 1); }
    }
  }

  /** In every reachable state, walking from record 0 visits each live record once, in order. */
  lemma WalkVisitsAll(ops: seq<Op>)
    ensures var s := After(Sel([], 0), ops); Walk(s, 0) == s.entries
  {
    StoreRefinesLog(ops);
    WalkFrom(After(Sel([], 0), ops), 0);
  }

  // ---- Later reads of a record ----

  predicate KeepsEntries(op: Op) { !op.Erase? }

  lemma {:induction false} EntriesOnlyGrow(s: Sel, ops: seq<Op>)
    requires |s.entries| <= SEL_COUNT
    requires forall i :: 0 <= i < |ops| ==> KeepsEntries(ops[i])
    ensures s.entries <= After(s, ops).entries
  {
    if ops != [] {
      assert KeepsEntries(ops[|ops| - 1]);
      EntriesOnlyGrow(s, ops[..|ops| - 1]);
    }
  }

  /** The response to reading a record back, after it was added and `ops` have happened. */
  function ReadBack(s: Sel, record: Record, ops: seq<Op>): (response: seq<byte>)
    requires |s.entries| < SEL_COUNT
    ensures |response| == 19
  {
    var (added, reply) := AddEntry(s, record);
    GetEntry(After(added, ops), GetRequest(FromLe16(reply[1..])))
  }

  /** A record that was added is what any later read of its ID returns, whatever happens in
      between short of a clear: only the ID and, for a timestamped type, the timestamp are new. */
  lemma AddThenGet(s: Sel, record: Record, ops: seq<Op>)
    requires |s.entries| < SEL_COUNT
    requires forall i :: 0 <= i < |ops| ==> KeepsEntries(ops[i])
    ensures AddEntry(s, record).1 == [COMP_NORMAL] + Le16(|s.entries|)
    ensures var r := ReadBack(s, record, ops);
      && r[0] == COMP_NORMAL
      && RecordId(r[3..]) == |s.entries| && Content(r[3..]) == Content(record)
      && (Timestamped(record) ==> TimeStamp(r[3..]) == Tick(s.time))
  {
    var id := |s.entries|;
    Le16RoundTrip(id);
    assert AddEntry(s, record).1[1..] == Le16(id);
    var s1 := AddEntry(s, record).0;
    EntriesOnlyGrow(s1, ops);
    GetEntryReads(After(s1, ops), id);
    assert After(s1, ops).entries[id] == s1.entries[id];
  }

  // ---- The clock ----

  /** Timestamps rise strictly along the log and none is ahead of the clock. */
  ghost predicate Ordered(s: Sel) {
    && (forall i :: 0 <= i < |s.entries| && Timestamped(s.entries[i]) ==> TimeStamp(s.entries[i]) <= s.time)
    && (forall i, j :: 0 <= i < j < |s.entries| && Timestamped(s.entries[i]) && Timestamped(s.entries[j]) ==>
          TimeStamp(s.entries[i]) < TimeStamp(s.entries[j]))
  }

  lemma StepKeepsOrder(s: Sel, op: Op)
    requires |s.entries| <= SEL_COUNT && Ordered(s) && !op.WriteTime? && s.time as int + 1 < 0x1_0000_0000
    ensures Ordered(Step(s, op)) && s.time <= Step(s, op).time <= s.time + 1
  {
    if op.Add? && |s.entries| < SEL_COUNT { AddKeepsOrder(s, op.record); }
  }

  lemma AddKeepsOrder(s: Sel, record: Record)
    requires |s.entries| < SEL_COUNT && Ordered(s) && s.time as int + 1 < 0x1_0000_0000
    ensures var s' := AddEntry(s, record).0; Ordered(s') && s.time <= s'.time <= s.time + 1
  {
    var n, s' := |s.entries|, AddEntry(s, record).0;
    var e := s'.entries[n];
    assert s'.entries == s.entries + [e] && (Timestamped(e) ==> TimeStamp(e) == s'.time > s.time);
    forall i | 0 <= i < |s'.entries| && Timestamped(s'.entries[i])
      ensures TimeStamp(s'.entries[i]) <= s'.time
    {
      if i < n { assert s'.entries[i] == s.entries[i]; }
    }
    forall i, j | 0 <= i < j < |s'.entries| && Timestamped(s'.entries[i]) && Timestamped(s'.entries[j])
      ensures TimeStamp(s'.entries[i]) < TimeStamp(s'.entries[j])
    {
      assert s'.entries[i] == s.entries[i];
    }
  }

  /** As long as nobody sets the clock and it does not wrap. */
  lemma {:induction false} TimestampsIncrease(s: Sel, ops: seq<Op>)
    requires |s.entries| <= SEL_COUNT && Ordered(s)
    requires forall i :: 0 <= i < |ops| ==> !ops[i].WriteTime?
    requires s.time + |ops| < 0x1_0000_0000
    ensures Ordered(After(s, ops)) && s.time <= After(s, ops).time <= s.time + |ops|
  {
    if ops != [] {
      TimestampsIncrease(s, ops[..|ops| - 1]);
      StepKeepsOrder(After(s, ops[..|ops| - 1]), ops[|ops| - 1]);
    }
  }

  // ---- Conservation ----

  /** In every reachable state the reported free space and the records add up to the capacity, the
      overflow flag tells exactly a full store, and a full store refuses to add and stays as it is. */
  lemma Conservation(ops: seq<Op>, record: Record)
    ensures var s := After(Sel([], 0), ops);
      var info := GetInfo(s);
      var n := FromLe16(info[2..4]);
      && info[0] == COMP_NORMAL
      && n == |Added(ops)|
      && FromLe16(info[4..6]) + RECORD_SIZE * n == RECORD_SIZE * SEL_COUNT
      && (info[14] == OVERFLOW_FLAG <==> n == SEL_COUNT)
      && (n == SEL_COUNT <==> AddEntry(s, record).1[0] == COMP_OUT_OF_SPACE)
      && (n == SEL_COUNT ==> AddEntry(s, record).0 == s)
  {
    StoreRefinesLog(ops);
    var s := After(Sel([], 0), ops);
    var n := |s.entries|;
    Le16RoundTrip(n);
    Le16RoundTrip(SEL_COUNT * RECORD_SIZE - RECORD_SIZE * n);
    assert GetInfo(s)[2..4] == Le16(n);
    assert GetInfo(s)[4..6] == Le16(SEL_COUNT * RECORD_SIZE - RECORD_SIZE * n);
  }
}
