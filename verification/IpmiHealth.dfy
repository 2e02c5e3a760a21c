/**
 One command of the generic IPMI layer as a function: what it leaves of the device, of the BMC
 health the driver tracks, and what it returns; and what holds of the health over whole runs.
 */
module IpmiHealth {
  import opened Bytes
  import opened MockIpmi

  const RESPONSE_HEADER_SIZE := 3
  const MAX_TEMP_DATA := 255
  const MAX_SOFT_COUNT := 10

  const COMP_INSUFFICIENT_PRIVILEGE: byte := 0xD4

  /** Node busy, timeout, out of space, out of range, response not provided, duplicate request,
      SDR repository or firmware in update mode, initialization in progress, insufficient
      privilege, unspecified. */
  const COMPLETION_CODES: seq<byte> := [0xC0, 0xC3, 0xC4, 0xC9, 0xCE, 0xCF, 0xD0, 0xD1, 0xD2, 0xD4, 0xFF]

  // ---- The device behind the transport ----

  datatype Reply = SendFailed(status: EfiStatus) | ReceiveFailed(status: EfiStatus) | Message(bytes: seq<byte>)

  /** The mock, or any BMC and transport at all, given by what comes of each exchange. */
  type Device = Peer<Reply>

  predicate Possible(r: Reply) {
    match r
    case SendFailed(status) => status != Success
    case ReceiveFailed(status) => status != Success
    case Message(bytes) => |bytes| < MAX_TEMP_DATA
  }

  ghost predicate ValidDevice(d: Device) {
    match d
    case Scripted(answers) => forall i :: 0 <= i < |answers| ==> Possible(answers[i])
    case Mocked(state) => ValidMock(state)
  }

  ghost predicate Takes(d: Device, message: seq<byte>) {
    d.Mocked? ==> MessageOk(message)
  }

  function Exchange(d: Device, message: seq<byte>): (result: (Device, Reply))
    requires ValidDevice(d) && Takes(d, message)
    ensures ValidDevice(result.0) && Possible(result.1)
    ensures d.Mocked? ==> result.0.Mocked?
  {
    match d
    case Scripted(answers) =>
      if answers == [] then (d, SendFailed(Timeout))
      else
        assert Possible(answers[0]);
        assert forall i :: 0 <= i < |answers[1..]| ==> answers[1..][i] == answers[i + 1];
        (Scripted(answers[1..]), answers[0])
    case Mocked(state) =>
      HandleKeepsValid(state, message[0] / 4, message[1], message[2..]);
      var (state', bytes) := Respond(state, message);
      (Mocked(state'), Message(bytes))
  }

  // ---- One command ----

  datatype BmcStatus = BmcOk | BmcSoftFail | BmcHardFail | BmcUpdateInProgress | BmcNotReady

  datatype Health = Health(status: BmcStatus, softErrors: byte)

  ghost predicate ValidRequest(d: Device, r: Request) {
    r.lun < 4 && |r.data| <= 253 && Takes(d, Header(r.netFn, r.lun, r.command) + r.data)
  }

  function Increment(count: byte): byte { (count + 1) % 0x100 }

  function UpdateErrorStatus(h: Health, code: byte): Health {
    if code in COMPLETION_CODES then
      Health(if h.status == BmcUpdateInProgress then BmcUpdateInProgress else BmcSoftFail, Increment(h.softErrors))
    else h
  }

  predicate AnswersTo(bytes: seq<byte>, r: Request)
    requires |bytes| >= RESPONSE_HEADER_SIZE
  {
    bytes[0] / 4 == ResponseNetFn(r.netFn) && bytes[1] == r.command
  }

  /** `last` is the reply that ended the command and `size` the new response size, if any. */
  datatype Result = Result(device: Device, health: Health, status: EfiStatus, last: Reply, size: Option<nat>)

  /** A response too long for the caller is checked against the request. A stale one is dropped
      and the command tried again, if tries are left. */
  predicate TryAgain(reply: Reply, r: Request, size: Option<nat>, retries: nat) {
    && reply.Message? && |reply.bytes| >= RESPONSE_HEADER_SIZE && reply.bytes[2] == COMP_NORMAL
    && size.Some? && |reply.bytes| - RESPONSE_HEADER_SIZE > size.value
    && !AnswersTo(reply.bytes, r) && retries > 1
  }

  /** The last reply is a complete message with a normal code, and it fits. */
  predicate EndedWell(result: Result, size: Option<nat>) {
    match result.last
    case Message(bytes) =>
      && |bytes| >= RESPONSE_HEADER_SIZE && bytes[2] == COMP_NORMAL
      && result.size == (if size.Some? then Some(|bytes| - RESPONSE_HEADER_SIZE + 1) else None)
      && (size.Some? ==> |bytes| - RESPONSE_HEADER_SIZE <= size.value)
    case _ => false
  }

  /** What a reply makes of a command that is not tried again. */
  function Conclude(d: Device, h: Health, r: Request, size: Option<nat>, reply: Reply): (result: Result)
    requires Possible(reply)
    ensures result.device == d && result.last == reply && result.size.Some? == size.Some?
    ensures result.status == Success ==> result.health == Health(BmcOk, h.softErrors) && EndedWell(result, size)
  {
    match reply
    case SendFailed(status) => Result(d, Health(BmcSoftFail, Increment(h.softErrors)), status, reply, size)
    case ReceiveFailed(status) => Result(d, Health(BmcSoftFail, Increment(h.softErrors)), status, reply, size)
    case Message(bytes) =>
      if |bytes| < RESPONSE_HEADER_SIZE then Result(d, h, DeviceError, reply, size)
      else if bytes[2] != COMP_NORMAL then
        Result(d, UpdateErrorStatus(h, bytes[2]),
               if h.status == BmcUpdateInProgress then Unsupported
               else if bytes[2] == COMP_INSUFFICIENT_PRIVILEGE then SecurityViolation
               else DeviceError, reply, size)
      else if size.Some? && |bytes| - RESPONSE_HEADER_SIZE > size.value then
        if AnswersTo(bytes, r) then Result(d, h, BufferTooSmall, reply, Some(|bytes| - RESPONSE_HEADER_SIZE + 1))
        else Result(d, h, DeviceError, reply, size)
      else
        Result(d, Health(BmcOk, h.softErrors), Success, reply,
               if size.Some? then Some(|bytes| - RESPONSE_HEADER_SIZE + 1) else None)
  }

  /** Send a command with `retries` tries; `size` is the caller's response size, if it wants one. */
  function Command(d: Device, h: Health, r: Request, size: Option<nat>, retries: nat): (result: Result)
    requires ValidDevice(d) && ValidRequest(d, r) && retries > 0
    ensures ValidDevice(result.device) && Possible(result.last)
    ensures result.status == Success ==> result.health.status == BmcOk && EndedWell(result, size)
    ensures d.Mocked? ==> result.device.Mocked?
    ensures result.size.Some? == size.Some?
    decreases retries
  {
    var (d', reply) := Exchange(d, Header(r.netFn, r.lun, r.command) + r.data);
    if TryAgain(reply, r, size, retries) then Command(d', h, r, size, retries - 1)
    else Conclude(d', h, r, size, reply)
  }

  /** The tries-th reply concludes the command and each before it calls for another try. */
  ghost predicate DecidedBy(replies: seq<Reply>, r: Request, size: Option<nat>, retries: nat, tries: nat) {
    && 0 < tries <= retries && tries <= |replies|
    && (forall i :: 0 <= i < tries - 1 ==> TryAgain(replies[i], r, size, retries - i))
    && !TryAgain(replies[tries - 1], r, size, retries - tries + 1)
  }

  /** Against any device a command comes to what its first conclusive reply makes of it. */
  lemma {:induction false} CommandDecided(replies: seq<Reply>, h: Health, r: Request, size: Option<nat>, retries: nat,
                                          tries: nat)
    requires ValidDevice(Scripted(replies)) && r.lun < 4 && |r.data| <= 253
    requires DecidedBy(replies, r, size, retries, tries)
    ensures ValidDevice(Scripted(replies[tries..])) && Possible(replies[tries - 1])
    ensures Command(Scripted(replies), h, r, size, retries)
            == Conclude(Scripted(replies[tries..]), h, r, size, replies[tries - 1])
    decreases tries
  {
    if tries > 1 {
      assert forall i :: 0 <= i < |replies[1..]| ==> replies[1..][i] == replies[i + 1];
      assert replies[1..][tries - 1..] == replies[tries..];
      CommandDecided(replies[1..], h, r, size, retries - 1, tries - 1);
    }
  }

  lemma ConcludeAnywhere(d: Device, d': Device, h: Health, r: Request, size: Option<nat>, reply: Reply)
    requires Possible(reply)
    ensures Conclude(d, h, r, size, reply) == Conclude(d', h, r, size, reply).(device := d)
  {
  }

  // ---- What a reply does, read off its bytes ----

  /** A response that is too long for the caller and answers something else is dropped, as long as
      tries are left: the command goes on with the next reply as if it had never come. */
  lemma StaleResponseRetried(stale: seq<byte>, rest: seq<Reply>, h: Health, r: Request, size: nat, retries: nat)
    requires ValidDevice(Scripted(rest)) && r.lun < 4 && |r.data| <= 253 && |stale| < MAX_TEMP_DATA
    requires |stale| > size + 3 && stale[2] == 0x00 && retries > 1
    requires stale[0] / 4 != ResponseNetFn(r.netFn) || stale[1] != r.command
    ensures ValidDevice(Scripted([Message(stale)] + rest))
    ensures Command(Scripted([Message(stale)] + rest), h, r, Some(size), retries)
            == Command(Scripted(rest), h, r, Some(size), retries - 1)
  {
    assert ([Message(stale)] + rest)[1..] == rest;
  }

  /** Every other reply ends the command, and it alone decides how. */
  lemma OtherReplyEnds(reply: Reply, rest: seq<Reply>, h: Health, r: Request, size: Option<nat>, retries: nat)
    requires ValidDevice(Scripted(rest)) && r.lun < 4 && |r.data| <= 253 && Possible(reply) && retries > 0
    requires reply.Message? && |reply.bytes| >= 3 && reply.bytes[2] == 0x00 && size.Some? && retries > 1 ==>
      || |reply.bytes| <= size.value + 3
      || (reply.bytes[0] / 4 == ResponseNetFn(r.netFn) && reply.bytes[1] == r.command)
    ensures ValidDevice(Scripted([reply] + rest))
    ensures var result := Command(Scripted([reply] + rest), h, r, size, retries);
      && result.device == Scripted(rest) && result.last == reply
      && (!reply.Message? ==>
            result.status == reply.status && result.health == Health(BmcSoftFail, (h.softErrors + 1) % 0x100)
            && result.size == size)
      && (reply.Message? ==> DecidedByBytes(reply.bytes, h, r, size, result))
  {
    assert ([reply] + rest)[1..] == rest;
  }

  /** What a message that ends a command makes of it. The codes are those the driver counts. */
  ghost predicate DecidedByBytes(bytes: seq<byte>, h: Health, r: Request, size: Option<nat>, result: Result) {
    if |bytes| < 3 then
      result.status == DeviceError && result.health == h && result.size == size
    else if bytes[2] != 0x00 then
      && result.status == (if h.status == BmcUpdateInProgress then Unsupported
                           else if bytes[2] == 0xD4 then SecurityViolation else DeviceError)
      && result.size == size
      && result.health == (if bytes[2] !in {0xC0, 0xC3, 0xC4, 0xC9, 0xCE, 0xCF, 0xD0, 0xD1, 0xD2, 0xD4, 0xFF} then h
                           else Health(if h.status == BmcUpdateInProgress then BmcUpdateInProgress else BmcSoftFail,
                                       (h.softErrors + 1) % 0x100))
    else if size.Some? && |bytes| > size.value + 3 then
      && result.health == h
      && (if bytes[0] / 4 == ResponseNetFn(r.netFn) && bytes[1] == r.command
          then result.status == BufferTooSmall && result.size == Some(|bytes| - 2)
          else result.status == DeviceError && result.size == size)
    else
      && result.status == Success && result.health == Health(BmcOk, h.softErrors)
      && result.size == (if size.Some? then Some(|bytes| - 2) else None)
  }

  // ---- The response handed to the caller ----

  /** The completion code and the payload, in a buffer of the caller's own. */
  function Framed(bytes: seq<byte>): (response: seq<byte>)
    requires |bytes| >= RESPONSE_HEADER_SIZE
    ensures |response| == |bytes| - RESPONSE_HEADER_SIZE + 1
  {
    bytes[2..]
  }

  /** The same written over the message itself: by the time the completion code is stored, two
      bytes of payload or more have overwritten it. */
  function FramedInPlace(bytes: seq<byte>): (response: seq<byte>)
    requires |bytes| >= RESPONSE_HEADER_SIZE
    ensures |response| == |bytes| - RESPONSE_HEADER_SIZE + 1
  {
    [if |bytes| >= 5 then bytes[4] else bytes[2]] + bytes[3..]
  }

  /** Exactly when framing in place yields the completion code; the payload it always does. */
  lemma InPlaceFraming(bytes: seq<byte>)
    requires |bytes| >= RESPONSE_HEADER_SIZE
    ensures FramedInPlace(bytes)[1..] == bytes[3..] == Framed(bytes)[1..]
    ensures FramedInPlace(bytes) == Framed(bytes) <==> |bytes| < 5 || bytes[4] == bytes[2]
  {
    assert Framed(bytes)[0] == bytes[2];
    assert |bytes| < 5 || bytes[4] == bytes[2] ==> FramedInPlace(bytes) == [bytes[2]] + bytes[3..];
  }

  /** A Get Self Test response whose code is normal and whose result is 55h 01h reads back as
      code 01h from the instance's own buffer. */
  lemma InPlaceLosesCompletionCode()
    ensures FramedInPlace([0x1C, 0x04, 0x00, 0x55, 0x01]) == [0x01, 0x55, 0x01]
    ensures Framed([0x1C, 0x04, 0x00, 0x55, 0x01]) == [0x00, 0x55, 0x01]
  {
  }

  // ---- The generic layer over the mock refines the direct path ----

  lemma MockReplies(m: Mock, netFn: NetFn, command: byte, data: seq<byte>)
    requires ValidMock(m) && Accepts(netFn, command, data) && |data| <= 253
    ensures ValidRequest(Mocked(m), Request(netFn, 0, command, data))
    ensures var direct := Handle(m, netFn, command, data);
      Exchange(Mocked(m), Header(netFn, 0, command) + data)
      == (Mocked(direct.0), Message(Header(ResponseNetFn(netFn), 0, command) + direct.1))
  {
    var message := Header(netFn, 0, command) + data;
    assert message[2..] == data && message[0] == 4 * netFn && message[1] == command;
  }

  /** For every state of the mock and every command on LUN 0, with any health, response size and
      number of tries: the BMC is left as the direct base library leaves it, and if the code is
      normal and the response fits, the caller gets the same bytes and size. */
  lemma GenericRefinesDirect(m: Mock, h: Health, netFn: NetFn, command: byte, data: seq<byte>, size: nat, retries: nat)
    requires ValidMock(m) && Accepts(netFn, command, data) && |data| <= 253 && retries > 0
    ensures ValidRequest(Mocked(m), Request(netFn, 0, command, data))
    ensures var direct := Handle(m, netFn, command, data);
      var generic := Command(Mocked(m), h, Request(netFn, 0, command, data), Some(size), retries);
      && generic.device == Mocked(direct.0)
      && (direct.1[0] == COMP_NORMAL && |direct.1| - 1 <= size ==>
            generic.status == Success && Framed(generic.last.bytes) == direct.1 && generic.size == Some(|direct.1|))
      && (direct.1[0] == COMP_NORMAL && |direct.1| - 1 > size ==>
            generic.status == BufferTooSmall && generic.size == Some(|direct.1|))
      && (direct.1[0] != COMP_NORMAL ==> generic.status != Success)
  {
    MockReplies(m, netFn, command, data);
    var direct := Handle(m, netFn, command, data);
    var bytes := Header(ResponseNetFn(netFn), 0, command) + direct.1;
    assert bytes[2..] == direct.1;
  }

  // ---- Health over whole runs ----

  /** A status query declares a failure hard once there were enough soft errors. */
  function BmcStatusQuery(h: Health): Health {
    if h.status == BmcSoftFail && h.softErrors >= MAX_SOFT_COUNT then h.(status := BmcHardFail) else h
  }

  datatype Op = Send(r: Request, size: Option<nat>) | Query

  /** The reply is a transport failure or carries one of the listed completion codes. */
  predicate IsSoftError(r: Reply) {
    match r
    case Message(bytes) => |bytes| >= RESPONSE_HEADER_SIZE && bytes[2] in COMPLETION_CODES
    case _ => true
  }

  ghost predicate ValidOp(d: Device, op: Op) {
    op.Send? ==> ValidRequest(d, op.r)
  }

  /** What a command leaves, told from the reply that ended it: the count, the BMC status, the
      return status and the response size. */
  ghost predicate Explained(h: Health, r: Request, size: Option<nat>, result: Result) {
    && result.health.softErrors == (if IsSoftError(result.last) then Increment(h.softErrors) else h.softErrors)
    && result.health.status == (if result.status == Success then BmcOk
                                else if !IsSoftError(result.last) then h.status
                                else if h.status == BmcUpdateInProgress && result.last.Message? then BmcUpdateInProgress
                                else BmcSoftFail)
    && match result.last
       case Message(bytes) =>
         && (|bytes| < RESPONSE_HEADER_SIZE ==> result.status == DeviceError)
         && (|bytes| >= RESPONSE_HEADER_SIZE && bytes[2] != COMP_NORMAL ==>
               result.status == if h.status == BmcUpdateInProgress then Unsupported
                                else if bytes[2] == COMP_INSUFFICIENT_PRIVILEGE then SecurityViolation
                                else DeviceError)
         && (result.status == BufferTooSmall ==>
               size.Some? && |bytes| >= RESPONSE_HEADER_SIZE && AnswersTo(bytes, r)
               && result.size == Some(|bytes| - 2) && result.size.value > size.value + 1)
       case _ => result.status == result.last.status
  }

  lemma {:induction false} CommandOutcome(d: Device, h: Health, r: Request, size: Option<nat>, retries: nat)
    requires ValidDevice(d) && ValidRequest(d, r) && retries > 0
    ensures Explained(h, r, size, Command(d, h, r, size, retries))
    decreases retries
  {
    var (d', reply) := Exchange(d, Header(r.netFn, r.lun, r.command) + r.data);
    if TryAgain(reply, r, size, retries) {
      CommandOutcome(d', h, r, size, retries - 1);
    } else {
      ConcludeOutcome(d', h, r, size, reply);
    }
  }

  lemma ConcludeOutcome(d: Device, h: Health, r: Request, size: Option<nat>, reply: Reply)
    requires Possible(reply)
    ensures Explained(h, r, size, Conclude(d, h, r, size, reply))
  {
  }

  /** The device and health after a run, and how many soft errors there were in it. */
  datatype Trace = Trace(device: Device, health: Health, errors: nat)

  function Do(t: Trace, op: Op, retries: nat): (t': Trace)
    requires ValidDevice(t.device) && ValidOp(t.device, op) && retries > 0
    ensures ValidDevice(t'.device)
  {
    match op
    case Query => t.(health := BmcStatusQuery(t.health))
    case Send(r, size) =>
      var result := Command(t.device, t.health, r, size, retries);
      Trace(result.device, result.health, t.errors + if IsSoftError(result.last) then 1 else 0)
  }

  /** The health at every point of a run, the first being where it starts. */
  ghost predicate IsRun(ts: seq<Trace>, ops: seq<Op>, retries: nat) {
    && |ts| == |ops| + 1 && retries > 0
    && forall i :: 0 <= i < |ops| ==>
         ValidDevice(ts[i].device) && ValidOp(ts[i].device, ops[i]) && ts[i + 1] == Do(ts[i], ops[i], retries)
  }

  lemma IncrementModulo(n: nat)
    ensures Increment(n % 0x100) == (n + 1) % 0x100
  {
  }

  lemma DoCountsSoftErrors(t: Trace, op: Op, retries: nat)
    requires ValidDevice(t.device) && ValidOp(t.device, op) && retries > 0
    requires t.health.softErrors == t.errors % 0x100
    ensures var t' := Do(t, op, retries);
      && t'.health.softErrors == t'.errors % 0x100
      && (op.Query? ==>
            && t'.errors == t.errors && t'.device == t.device
            && t'.health.status == if t.health.status == BmcSoftFail && t.errors % 0x100 >= 10
                                   then BmcHardFail else t.health.status)
  {
    if op.Send? {
      SendCounts(t, op.r, op.size, retries);
      IncrementModulo(t.errors);
    }
  }

  lemma SendCounts(t: Trace, r: Request, size: Option<nat>, retries: nat)
    requires ValidDevice(t.device) && ValidRequest(t.device, r) && retries > 0
    ensures var t' := Do(t, Send(r, size), retries);
      || (t'.errors == t.errors + 1 && t'.health.softErrors == Increment(t.health.softErrors))
      || (t'.errors == t.errors && t'.health.softErrors == t.health.softErrors)
  {
    CommandOutcome(t.device, t.health, r, size, retries);
  }

  /** Over every run of commands and status queries, against any device: the counter is the number
      of soft errors modulo 256. A query turns a soft failure into a hard one exactly if the count
      is ten or more, and leaves everything else as it was; so none reports a soft failure from the
      tenth soft error to the 255th. */
  lemma {:induction false} HealthOverRuns(ts: seq<Trace>, ops: seq<Op>, retries: nat, n: nat)
    requires IsRun(ts, ops, retries) && n <= |ops|
    requires ts[0].errors == 0 && ts[0].health.softErrors == 0
    ensures ts[n].health.softErrors == ts[n].errors % 0x100
    ensures n > 0 && ops[n - 1].Query? ==>
      && ts[n].errors == ts[n - 1].errors && ts[n].device == ts[n - 1].device
      && ts[n].health.status == if ts[n - 1].health.status == BmcSoftFail && ts[n - 1].errors % 0x100 >= 10
                                then BmcHardFail else ts[n - 1].health.status
    ensures n > 0 && ops[n - 1].Query? && MAX_SOFT_COUNT <= ts[n].errors < 0x100 ==> ts[n].health.status != BmcSoftFail
  {
    if n > 0 {
      HealthOverRuns(ts, ops, retries, n - 1);
      assert ts[(n - 1) + 1] == Do(ts[n - 1], ops[n - 1], retries);
      DoCountsSoftErrors(ts[n - 1], ops[n - 1], retries);
    }
  }
}
