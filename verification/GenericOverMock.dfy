/**
 The generic layer and the direct base library side by side: two copies of the mock BMC, one
 behind the transport of an Instance and one behind BaseLibMock, that are given the same commands.
 */
module GenericOverMock {
  import opened Bytes
  import opened MockIpmi
  import opened IpmiHealth
  import opened GenericIpmi

  /** Both mocks are in the same state. */
  ghost predicate InStep(instance: Instance, base: BaseLibMock)
    requires base.Valid()
    reads instance, base, base.bmc, base.bmc.sel, base.bmc.sel.mSel, base.bmc.wdt, base.bmc.chassis
  {
    instance.device == Mocked(base.bmc.State())
  }

  /** No buffer is shared between the two. */
  predicate Apart(instance: Instance, response: array<byte>, base: BaseLibMock) {
    && response != instance.tempData
    && instance.tempData != base.requestBuffer && instance.tempData != base.responseBuffer
    && response != base.requestBuffer && response != base.responseBuffer
  }

  /** The most a handler of the mock responds, completion code included. */
  const MAX_HANDLED := 19

  /** What the caller of the generic layer gets, given what the direct path hands out. */
  ghost predicate Matches(direct: seq<byte>, size: nat, status: EfiStatus, newSize: nat, response: seq<byte>)
    requires direct != []
  {
    if direct[0] != COMP_NORMAL then status != Success && newSize == size
    else if |direct| - 1 > size then status == BufferTooSmall && newSize == |direct|
    else status == Success && newSize == |direct| <= |response| && response[..newSize] == direct
  }

  /** The generic side alone, over a mock in state `m`. */
  method GenericSide(instance: Instance, netFn: NetFn, command: byte, data: seq<byte>, response: array<byte>, size: nat,
                     ghost m: Mock)
    returns (status: EfiStatus, newSize: nat)
    requires instance.Valid() && instance.device == Mocked(m) && response != instance.tempData
    requires Accepts(netFn, command, data) && |data| <= 253 && instance.RoomFor(response, Some(size))
    modifies instance`device, instance`inbox, instance`bmcStatus, instance`softErrorCount, instance.tempData, response
    ensures instance.Valid() && instance.device == Mocked(Handle(m, netFn, command, data).0)
    ensures Matches(Handle(m, netFn, command, data).1, size, status, newSize, response[..])
  {
    GenericRefinesDirect(m, instance.Tracked(), netFn, command, data, size, instance.maxRetries);
    var reported;
    status, reported := instance.IpmiSendCommandInternal(netFn, 0, command, Some(data), |data|, response, Some(size));
    newSize := reported.value;
  }

  /** One command on both: the mocks stay in step, and unless the layer refuses it for its code or
      its size, the caller is handed the same bytes and size on both sides. */
  method SideBySide(instance: Instance, base: BaseLibMock, netFn: NetFn, command: byte, data: seq<byte>,
                    response: array<byte>, size: nat)
    returns (status: EfiStatus, newSize: nat, direct: seq<byte>)
    requires instance.Valid() && base.Valid() && InStep(instance, base) && Apart(instance, response, base)
    requires Accepts(netFn, command, data) && |data| <= 253 && instance.RoomFor(response, Some(size))
    modifies instance`device, instance`inbox, instance`bmcStatus, instance`softErrorCount, instance.tempData, response
    modifies base.bmc, base.bmc.sel, base.bmc.sel.mSel, base.bmc.wdt, base.bmc.chassis
    modifies base.requestBuffer, base.responseBuffer
    ensures instance.Valid() && base.Valid() && InStep(instance, base)
    ensures direct != [] && Matches(direct, size, status, newSize, response[..])
  {
    status, newSize := GenericSide(instance, netFn, command, data, response, size, base.bmc.State());
    ghost var bytes := response[..];
    var directStatus;
    directStatus, direct := base.IpmiSubmitCommand(netFn, command, data, MAX_HANDLED);
    assert response[..] == bytes;
  }

  /** Over any commands the mocks stay in step. */
  method KeepInStep(instance: Instance, base: BaseLibMock, requests: seq<Request>, response: array<byte>, size: nat)
    requires instance.Valid() && base.Valid() && InStep(instance, base) && Apart(instance, response, base)
    requires instance.RoomFor(response, Some(size))
    requires forall i :: 0 <= i < |requests| ==> PutToBoth(requests[i])
    modifies instance`device, instance`inbox, instance`bmcStatus, instance`softErrorCount, instance.tempData, response
    modifies base.bmc, base.bmc.sel, base.bmc.sel.mSel, base.bmc.wdt, base.bmc.chassis
    modifies base.requestBuffer, base.responseBuffer
    ensures instance.Valid() && base.Valid() && InStep(instance, base)
  {
    for i := 0 to |requests|
      invariant instance.Valid() && base.Valid() && InStep(instance, base)
    {
      var r := requests[i];
      var _, _, _ := SideBySide(instance, base, r.netFn, r.command, r.data, response, size);
    }
  }

  predicate PutToBoth(r: Request) {
    r.lun == 0 && |r.data| <= 253 && Accepts(r.netFn, r.command, r.data)
  }
}
