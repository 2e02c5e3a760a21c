/**
 The boundary the upper libraries call: one command out, one response back. The BMC behind it is
 the mock, or any BMC at all, given by the answers it makes one after another.
 */
module IpmiBaseLib {
  import opened Bytes
  import opened MockIpmi

  datatype Submitted = Failed(status: EfiStatus) | Answered(bytes: seq<byte>)

  type Bmc = Peer<Submitted>

  ghost predicate ValidBmc(b: Bmc) {
    match b
    case Mocked(state) => ValidMock(state)
    case Scripted(answers) => forall i :: 0 <= i < |answers| && answers[i].Failed? ==> answers[i].status != Success
  }

  /** The command can be put to this BMC: the mock insists on well-formed requests and on room
      for its response. */
  ghost predicate Allowed(b: Bmc, r: Request, capacity: nat)
    requires ValidBmc(b)
  {
    b.Mocked? ==>
      && Accepts(r.netFn, r.command, r.data)
      && |Handle(b.state, r.netFn, r.command, r.data).1| <= capacity
  }

  function Submit(b: Bmc, r: Request, capacity: nat): (result: (Bmc, Submitted))
    requires ValidBmc(b) && Allowed(b, r, capacity)
    ensures ValidBmc(result.0)
    ensures result.1.Failed? ==> result.1.status != Success
    ensures result.1.Answered? ==> |result.1.bytes| <= capacity
    ensures b.Mocked? ==> result.0.Mocked? && result.1 == Answered(Handle(b.state, r.netFn, r.command, r.data).1)
  {
    match b
    case Mocked(state) =>
      HandleKeepsValid(state, r.netFn, r.command, r.data);
      var (state', bytes) := Handle(state, r.netFn, r.command, r.data);
      (Mocked(state'), Answered(bytes))
    case Scripted(answers) =>
      if answers == [] then (b, Failed(Timeout))
      else
        assert forall i :: 0 <= i < |answers[1..]| ==> answers[1..][i] == answers[i + 1];
        (Scripted(answers[1..]),
         if answers[0].Answered? && |answers[0].bytes| > capacity then Failed(BufferTooSmall) else answers[0])
  }

  /** The first answer of a BMC given by its answers, as the base library passes it on. */
  function FirstAnswer(answers: seq<Submitted>, capacity: nat): Submitted {
    if answers == [] then Failed(Timeout)
    else if answers[0].Answered? && |answers[0].bytes| > capacity then Failed(BufferTooSmall)
    else answers[0]
  }

  function Rest(answers: seq<Submitted>, n: nat): seq<Submitted> {
    if n < |answers| then answers[n..] else []
  }

  class Base {
    var bmc: Bmc
    var sent: seq<Request>

    ghost predicate Valid()
      reads this
    {
      ValidBmc(bmc)
    }

    constructor (bmc: Bmc)
      requires ValidBmc(bmc)
      ensures Valid() && this.bmc == bmc && sent == []
    {
      this.bmc, sent := bmc, [];
    }

    method IpmiSubmitCommand(netFn: NetFn, command: byte, data: seq<byte>, capacity: nat)
      returns (status: EfiStatus, response: seq<byte>)
      requires Valid() && Allowed(bmc, Request(netFn, 0, command, data), capacity)
      modifies this
      ensures Valid() && sent == old(sent) + [Request(netFn, 0, command, data)]
      ensures var (b, answer) := Submit(old(bmc), Request(netFn, 0, command, data), capacity);
        bmc == b && (if answer.Failed? then status == answer.status && response == []
                     else status == Success && response == answer.bytes)
    {
      var request := Request(netFn, 0, command, data);
      sent := sent + [request];
      var (next, answer) := Submit(bmc, request, capacity);
      bmc := next;
      match answer {
        case Failed(failure) => return failure, [];
        case Answered(bytes) => return Success, bytes;
      }
    }
  }
}
