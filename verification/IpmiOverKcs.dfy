/**
 A command of the generic layer carried by the KCS transport: GenericIpmi.c on top of KcsBmc.c,
 with a conforming BMC that acts within the timeout behind the ports.
 */
module IpmiOverKcs {
  import opened Bytes
  import opened MockIpmi
  import opened IpmiHealth
  import KcsProtocol
  import KcsBmc

  /** What the layer sees of a BMC's response: TempData takes 254 bytes of it. */
  function ReplyOf(response: KcsProtocol.Response): (r: Reply)
    ensures Possible(r)
  {
    if |response| < MAX_TEMP_DATA then Message(response) else ReceiveFailed(DeviceError)
  }

  /** The next n replies of a BMC that has served `from` requests. */
  function Replies(answers: nat -> KcsProtocol.Response, from: nat, n: nat): (d: Device)
    ensures ValidDevice(d) && d.Scripted?
  {
    var replies := seq(n, k requires 0 <= k => ReplyOf(answers(from + k)));
    assert forall i :: 0 <= i < |replies| ==> replies[i] == ReplyOf(answers(from + i));
    Scripted(replies)
  }

  lemma LaterReplies(answers: nat -> KcsProtocol.Response, from: nat, n: nat, k: nat)
    requires 0 < k <= n
    ensures |Replies(answers, from, n).answers| == n
    ensures Replies(answers, from, n).answers[k - 1] == ReplyOf(answers(from + k - 1))
    ensures Replies(answers, from, n).answers[k..] == Replies(answers, from + k, n - k).answers
  {
  }

  /** The requests and responses of k tries, all with the same message. */
  ghost function Tries(ports: KcsBmc.Ports, served: seq<KcsProtocol.Exchange>, message: seq<byte>, k: nat):
    (log: seq<KcsProtocol.Exchange>)
    ensures |log| == |served| + k
  {
    served + seq(k, i requires 0 <= i => KcsProtocol.Exchange(message, ports.answers(|served| + i)))
  }

  lemma OneMoreTry(ports: KcsBmc.Ports, served: seq<KcsProtocol.Exchange>, message: seq<byte>, k: nat)
    ensures Tries(ports, served, message, k + 1)
            == Tries(ports, served, message, k) + [KcsProtocol.Exchange(message, ports.answers(|served| + k))]
  {
  }

  function MessageOf(r: Request): (message: seq<byte>)
    requires r.lun < 4
    ensures |message| == 2 + |r.data|
  {
    Header(r.netFn, r.lun, r.command) + r.data
  }

  /** One message out and one response in, as the layer calls the transport. The BMC has served
      exactly this request and is at rest again. */
  method Converse(ports: KcsBmc.Ports, period: nat, tempData: array<byte>, message: seq<byte>) returns (reply: Reply)
    requires ports.Valid() && ports.Timely(period) && 0 < |message| < 0x100 && tempData.Length == MAX_TEMP_DATA
    modifies ports, tempData
    ensures ports.Valid() && KcsProtocol.AtRest(ports.bmc)
    ensures ports.bmc.core.served == Tries(ports, old(ports.Pending().served), message, 1)
    ensures reply == ReplyOf(ports.answers(|old(ports.Pending().served)|))
  {
    ghost var served := ports.Pending().served;
    var received := ports.ConverseOnce(period, message, tempData, MAX_TEMP_DATA - 1);
    assert ports.bmc.core.served == served + [KcsProtocol.Exchange(message, ports.answers(|served|))];
    reply := if received.Some? then Message(received.value) else ReceiveFailed(DeviceError);
  }

  /** The retry loop. */
  method Retry(ports: KcsBmc.Ports, period: nat, tempData: array<byte>, r: Request, size: Option<nat>, retries: nat,
               ghost n: nat)
    returns (last: Reply, ghost tries: nat)
    requires ports.Valid() && ports.Timely(period) && tempData.Length == MAX_TEMP_DATA
    requires r.lun < 4 && |r.data| <= 253 && 0 < retries <= n
    modifies ports, tempData
    ensures ports.Valid() && KcsProtocol.AtRest(ports.bmc)
    ensures DecidedBy(Replies(ports.answers, |old(ports.Pending().served)|, n).answers, r, size, retries, tries)
    ensures ports.bmc.core.served == Tries(ports, old(ports.Pending().served), MessageOf(r), tries)
    ensures last == ReplyOf(ports.answers(|old(ports.Pending().served)| + tries - 1))
  {
    ghost var served := ports.Pending().served;
    ghost var replies := Replies(ports.answers, |served|, n).answers;
    var left := retries;
    tries := 0;
    while true
      invariant ports.Valid() && 0 < left <= retries && tries == retries - left
      invariant ports.Pending().served == Tries(ports, served, MessageOf(r), tries)
      invariant forall i :: 0 <= i < tries ==> TryAgain(replies[i], r, size, retries - i)
      decreases left
    {
      OneMoreTry(ports, served, MessageOf(r), tries);
      OneMoreTry(ports, Tries(ports, served, MessageOf(r), tries), MessageOf(r), 0);
      last := Converse(ports, period, tempData, MessageOf(r));
      assert last == replies[tries];
      tries := tries + 1;
      if !TryAgain(last, r, size, left) { return; }
      left := left - 1;
    }
  }

  lemma CommandConcluded(answers: nat -> KcsProtocol.Response, from: nat, n: nat, h: Health, r: Request,
                         size: Option<nat>, retries: nat, tries: nat, last: Reply, result: Result)
    requires r.lun < 4 && |r.data| <= 253 && 0 < retries <= n
    requires DecidedBy(Replies(answers, from, n).answers, r, size, retries, tries)
    requires last == ReplyOf(answers(from + tries - 1)) && result == Conclude(Scripted([]), h, r, size, last)
    ensures tries <= n
    ensures Command(Replies(answers, from, n), h, r, size, retries)
            == Result(Replies(answers, from + tries, n - tries), result.health, result.status, last, result.size)
  {
    LaterReplies(answers, from, n, tries);
    CommandDecided(Replies(answers, from, n).answers, h, r, size, retries, tries);
    ConcludeAnywhere(Replies(answers, from + tries, n - tries), Scripted([]), h, r, size, last);
  }

  /** A command end to end, from whatever state the BMC was left in. The BMC gets the header and
      the data, once for each try, and is at rest afterwards; status, health and size are those
      that Command derives from the BMC's responses, n of them being enough. */
  method SendCommand(ports: KcsBmc.Ports, period: nat, tempData: array<byte>, h: Health, r: Request, size: Option<nat>,
                     retries: nat, ghost n: nat)
    returns (health: Health, status: EfiStatus, newSize: Option<nat>, last: Reply, ghost tries: nat)
    requires ports.Valid() && ports.Timely(period) && tempData.Length == MAX_TEMP_DATA
    requires r.lun < 4 && |r.data| <= 253 && 0 < retries <= n
    modifies ports, tempData
    ensures ports.Valid() && KcsProtocol.AtRest(ports.bmc) && 0 < tries <= retries
    ensures ports.bmc.core.served == Tries(ports, old(ports.Pending().served), MessageOf(r), tries)
    ensures last == ReplyOf(ports.answers(|old(ports.Pending().served)| + tries - 1))
    ensures Command(Replies(ports.answers, |old(ports.Pending().served)|, n), h, r, size, retries)
            == Result(Replies(ports.answers, |ports.bmc.core.served|, n - tries), health, status, last, newSize)
  {
    ghost var from := |ports.Pending().served|;
    last, tries := Retry(ports, period, tempData, r, size, retries, n);
    var result := Conclude(Scripted([]), h, r, size, last);
    CommandConcluded(ports.answers, from, n, h, r, size, retries, tries, last, result);
    return result.health, result.status, result.size, last, tries;
  }

  predicate Sendable(op: Op) {
    op.Send? ==> op.r.lun < 4 && |op.r.data| <= 253
  }

  /** Responses enough for m commands with `retries` tries each. */
  function Budget(retries: nat, m: nat): nat {
    if m == 0 then 0 else retries + Budget(retries, m - 1)
  }

  lemma RunMore(ts: seq<Trace>, ops: seq<Op>, i: nat, retries: nat)
    requires i < |ops| && IsRun(ts, ops[..i], retries)
    requires ValidDevice(ts[i].device) && ValidOp(ts[i].device, ops[i])
    ensures IsRun(ts + [Do(ts[i], ops[i], retries)], ops[..i + 1], retries)
  {
    var ts', ops' := ts + [Do(ts[i], ops[i], retries)], ops[..i + 1];
    forall j | 0 <= j < |ops'|
      ensures ValidDevice(ts'[j].device) && ValidOp(ts'[j].device, ops'[j])
      ensures ts'[j + 1] == Do(ts'[j], ops'[j], retries)
    {
      if j < i { assert ops'[j] == ops[..i][j] && ts'[j] == ts[j] && ts'[j + 1] == ts[j + 1]; }
    }
  }

  /** One command or status query. */
  method Perform(ports: KcsBmc.Ports, period: nat, tempData: array<byte>, h: Health, op: Op, retries: nat,
                 ghost t: Trace, ghost n: nat)
    returns (health: Health, ghost t': Trace, ghost n': nat)
    requires ports.Valid() && ports.Timely(period) && tempData.Length == MAX_TEMP_DATA
    requires Sendable(op) && 0 < retries <= n
    requires t.health == h && t.device == Replies(ports.answers, |ports.Pending().served|, n)
    modifies ports, tempData
    ensures ports.Valid() && n' >= n - retries && t' == Do(t, op, retries)
    ensures t'.health == health && t'.device == Replies(ports.answers, |ports.Pending().served|, n')
    ensures if op.Send? then KcsProtocol.AtRest(ports.bmc) else ports.bmc == old(ports.bmc)
  {
    t', n' := Do(t, op, retries), n;
    match op {
      case Query =>
        health := BmcStatusQuery(h);
      case Send(r, size) =>
        var status, newSize, reply;
        ghost var tries;
        health, status, newSize, reply, tries := SendCommand(ports, period, tempData, h, r, size, retries, n);
        n' := n - tries;
    }
  }

  /** A whole session over KCS, from a fresh instance: it is a run in the sense of HealthOverRuns,
      so the counter is the number of soft errors modulo 256; and once there was a command, the BMC
      is at rest after it. */
  method Session(ports: KcsBmc.Ports, period: nat, tempData: array<byte>, ops: seq<Op>, retries: nat)
    returns (health: Health, ghost ts: seq<Trace>)
    requires ports.Valid() && ports.Timely(period) && tempData.Length == MAX_TEMP_DATA && retries > 0
    requires forall i :: 0 <= i < |ops| ==> Sendable(ops[i])
    modifies ports, tempData
    ensures ports.Valid() && IsRun(ts, ops, retries)
    ensures ts[0] == Trace(Replies(ports.answers, |old(ports.Pending().served)|, Budget(retries, |ops|)),
                           Health(BmcNotReady, 0), 0)
    ensures ts[|ops|].health == health && health.softErrors == ts[|ops|].errors % 0x100
    ensures KcsProtocol.AtRest(ports.bmc) || forall i :: 0 <= i < |ops| ==> ops[i].Query?
  {
    health := Health(BmcNotReady, 0);
    ghost var n := Budget(retries, |ops|);
    ts := [Trace(Replies(ports.answers, |ports.Pending().served|, n), health, 0)];
    for i := 0 to |ops|
      invariant ports.Valid() && n >= Budget(retries, |ops| - i) && |ts| == i + 1
      invariant ts[0] == Trace(Replies(ports.answers, |old(ports.Pending().served)|, Budget(retries, |ops|)),
                               Health(BmcNotReady, 0), 0)
      invariant ts[i].health == health && ts[i].device == Replies(ports.answers, |ports.Pending().served|, n)
      invariant IsRun(ts, ops[..i], retries)
      invariant KcsProtocol.AtRest(ports.bmc) || forall j :: 0 <= j < i ==> ops[j].Query?
    {
      RunMore(ts, ops, i, retries);
      ghost var t;
      health, t, n := Perform(ports, period, tempData, health, ops[i], retries, ts[i], n);
      ts := ts + [t];
    }
    assert ops[..|ops|] == ops;
    HealthOverRuns(ts, ops, retries, |ops|);
  }
}
