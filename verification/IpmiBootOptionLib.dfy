/** The boot option library (IpmiBootOptionLib.c). */
module IpmiBootOptionLib {
  import opened Bytes
  import opened MockChassis
  import opened MockIpmi
  import opened IpmiBaseLib
  import opened BootOptions

  function GetRequest(selector: byte): Request {
    Request(NETFN_CHASSIS, 0, CHASSIS_GET_SYSTEM_BOOT_OPTIONS, [selector, 0, 0])
  }

  function SetRequest(data: seq<byte>): Request {
    Request(NETFN_CHASSIS, 0, CHASSIS_SET_SYSTEM_BOOT_OPTIONS, data)
  }

  /** A parameter is read if the code is normal and the response of full size. */
  function OptionStatus(answer: Submitted, size: nat): (status: EfiStatus) {
    match answer
    case Failed(failure) => failure
    case Answered(bytes) =>
      if bytes == [] then BadBufferSize
      else if bytes[0] != 0x00 then ProtocolError
      else if |bytes| < size then BadBufferSize
      else Success
  }

  /** What comes of reading the flags from a BMC given by its answers, first parameter 0 and then
      parameter 5; bit 7 of a response's third byte marks the parameter as invalid. */
  datatype FlagsRead = FlagsRead(status: EfiStatus, asked: seq<Request>, valid: bool, flags: BootFlags)

  function FlagsFrom(answers: seq<Submitted>): FlagsRead {
    var progress, flags := FirstAnswer(answers, 4), FirstAnswer(Rest(answers, 1), 8);
    if progress.Failed? || OptionStatus(progress, 4) != Success then
      FlagsRead(OptionStatus(progress, 4), [GetRequest(0)], false, NO_FLAGS)
    else if progress.bytes[2] < 0x80 && progress.bytes[3] % 2 == 1 then
      FlagsRead(NotReady, [GetRequest(0)], false, NO_FLAGS)
    else if flags.Failed? || OptionStatus(flags, 8) != Success then
      FlagsRead(OptionStatus(flags, 8), [GetRequest(0), GetRequest(5)], false, NO_FLAGS)
    else if flags.bytes[2] < 0x80 && flags.bytes[3] >= 0x80 then
      FlagsRead(Success, [GetRequest(0), GetRequest(5)], true, flags.bytes[3..8])
    else
      FlagsRead(Success, [GetRequest(0), GetRequest(5)], false, NO_FLAGS)
  }

  class BootOptionLib {
    const base: Base

    ghost predicate Valid()
      reads this, base
    {
      base.Valid()
    }

    ghost predicate OnMock()
      reads this, base
    {
      base.bmc.Mocked?
    }

    ghost function Options(): Chassis
      requires OnMock()
      reads this, base
    {
      base.bmc.state.chassis
    }

    /** Every command sent since `before` was a query. */
    ghost predicate OnlyQueries(before: seq<Request>)
      reads this, base
    {
      && before <= base.sent
      && forall i :: |before| <= i < |base.sent| ==> base.sent[i].command == CHASSIS_GET_SYSTEM_BOOT_OPTIONS
    }

    constructor (base: Base)
      requires base.Valid()
      ensures Valid() && this.base == base
    {
      this.base := base;
    }

    method IpmiGetBootOption(selector: byte, responseSize: nat) returns (status: EfiStatus, response: seq<byte>)
      requires Valid() && selector < 0x80 && responseSize >= 3
      requires OnMock() ==> |GetOption(Options(), selector)| == responseSize
      modifies base
      ensures Valid() && base.bmc.Mocked? == old(base.bmc.Mocked?)
      ensures base.sent == old(base.sent) + [GetRequest(selector)]
      ensures old(base.bmc).Scripted? ==>
        var answer := FirstAnswer(old(base.bmc.answers), responseSize);
        && base.bmc.answers == Rest(old(base.bmc.answers), 1) && status == OptionStatus(answer, responseSize)
        && (status == Success ==> response == answer.bytes)
      ensures status == Success ==> |response| == responseSize && response[0] == 0
      ensures OnMock() ==>
        && base.bmc == old(base.bmc) && response == GetOption(Options(), selector)
        && (status == Success <==> response[0] == 0)
    {
      status, response :=
        base.IpmiSubmitCommand(NETFN_CHASSIS, CHASSIS_GET_SYSTEM_BOOT_OPTIONS, [selector, 0, 0], responseSize);
      if status != Success { return; }
      if |response| < 1 { return BadBufferSize, response; }
      if response[0] != 0 { return ProtocolError, response; }
      if |response| < responseSize { return BadBufferSize, response; }
      return Success, response;
    }

    method IpmiCheckSetInProgress() returns (status: EfiStatus, setInProgress: bool)
      requires Valid()
      modifies base
      ensures Valid() && base.bmc.Mocked? == old(base.bmc.Mocked?) && OnlyQueries(old(base.sent))
      ensures base.sent == old(base.sent) + [GetRequest(0)]
      ensures old(base.bmc).Scripted? ==>
        var answer := FirstAnswer(old(base.bmc.answers), 4);
        && base.bmc.answers == Rest(old(base.bmc.answers), 1) && status == OptionStatus(answer, 4)
        && (status == Success ==> setInProgress == (answer.bytes[2] < 0x80 && answer.bytes[3] % 2 == 1))
      ensures OnMock() ==> status == Success && !setInProgress && base.bmc == old(base.bmc)
    {
      setInProgress := false;
      var response;
      status, response := IpmiGetBootOption(PARAMETER_SET_IN_PROGRESS, 4);
      if status != Success { return; }
      if response[2] / 0x80 != 0 {
        setInProgress := false;
      } else {
        setInProgress := response[3] % 2 == 1;
      }
    }

    method IpmiAcknowledgeBootOption()
      requires Valid()
      modifies base
      ensures Valid() && base.bmc.Mocked? == old(base.bmc.Mocked?)
      ensures OnMock() ==> base.bmc.state == old(base.bmc.state).(chassis := Options())
      ensures OnMock() ==> Options() == Acknowledged(old(Options()))
      ensures base.sent == old(base.sent) + [SetRequest([4, 1, 0])]
    {
      var request := [PARAMETER_BOOT_INFO_ACK, 1, 0];
      var _, _ := base.IpmiSubmitCommand(NETFN_CHASSIS, CHASSIS_SET_SYSTEM_BOOT_OPTIONS, request, 1);
    }

    method IpmiSetBootFlags(flags: BootFlags) returns (status: EfiStatus)
      requires Valid()
      modifies base
      ensures Valid() && base.bmc.Mocked? == old(base.bmc.Mocked?)
      ensures OnMock() ==> status == Success && base.bmc.state == old(base.bmc.state).(chassis := Options())
      ensures OnMock() ==> Options() == old(Options()).(flags := flags)
      ensures base.sent == old(base.sent) + [SetRequest([5] + flags)]
      ensures old(base.bmc).Scripted? ==>
        match FirstAnswer(old(base.bmc.answers), 1)
        case Failed(failure) => status == failure
        case Answered(bytes) => status == if bytes != [] && bytes[0] != 0x00 then ProtocolError else Success
    {
      var request := [PARAMETER_BOOT_FLAGS] + flags;
      assert request[1..6] == flags;
      var response;
      status, response := base.IpmiSubmitCommand(NETFN_CHASSIS, CHASSIS_SET_SYSTEM_BOOT_OPTIONS, request, 1);
      if status == Success && |response| >= 1 && response[0] != 0 {
        status := ProtocolError;
      }
    }

    method IpmiGetBootFlags() returns (status: EfiStatus, flags: BootFlags, valid: bool)
      requires Valid()
      modifies base
      ensures Valid() && base.bmc.Mocked? == old(base.bmc.Mocked?) && OnlyQueries(old(base.sent))
      ensures base.sent == old(base.sent) + [GetRequest(5)]
      ensures old(base.bmc).Scripted? ==>
        var answer := FirstAnswer(old(base.bmc.answers), 8);
        && status == OptionStatus(answer, 8)
        && valid == (status == Success && answer.bytes[2] < 0x80 && answer.bytes[3] >= 0x80)
        && flags == if valid then answer.bytes[3..8] else [0, 0, 0, 0, 0]
      ensures valid ==> status == Success && FlagsValid(flags)
      ensures OnMock() ==> base.bmc == old(base.bmc) && status == Success && valid == FlagsValid(Options().flags)
      ensures OnMock() && valid ==> flags == Options().flags
    {
      flags, valid := NO_FLAGS, false;
      var response;
      status, response := IpmiGetBootOption(PARAMETER_BOOT_FLAGS, 8);
      if status != Success { return; }
      if response[2] / 0x80 != 0 { return; }
      if response[3] / 0x80 == 0 { return; }
      flags, valid := response[3..8], true;
    }

    /** How both queries begin: no flags are read while a set is in progress. */
    method ReadFlags() returns (status: EfiStatus, flags: BootFlags, valid: bool)
      requires Valid()
      modifies base
      ensures Valid() && base.bmc.Mocked? == old(base.bmc.Mocked?) && OnlyQueries(old(base.sent))
      ensures old(base.bmc).Scripted? ==>
        var read := FlagsFrom(old(base.bmc.answers));
        && status == read.status && valid == read.valid && flags == read.flags
        && base.sent == old(base.sent) + read.asked
      ensures old(base.bmc).Mocked? ==> base.sent == old(base.sent) + [GetRequest(0), GetRequest(5)]
      ensures valid ==> status == Success && FlagsValid(flags)
      ensures OnMock() ==> base.bmc == old(base.bmc) && status == Success && valid == FlagsValid(Options().flags)
      ensures OnMock() && valid ==> flags == Options().flags
    {
      flags, valid := NO_FLAGS, false;
      var setInProgress;
      status, setInProgress := IpmiCheckSetInProgress();
      if status != Success { return; }
      if setInProgress { return NotReady, flags, valid; }
      ghost var sent := base.sent;
      status, flags, valid := IpmiGetBootFlags();
      assert old(base.sent) <= sent <= base.sent;
    }

    /** On any BMC: a failed call has changed nothing there. A successful one reports the device of
        valid flags, sets flags that are not persistent to zero and acknowledges. */
    method IpmiGetBootDevice() returns (status: EfiStatus, selector: nat)
      requires Valid()
      modifies base
      ensures Valid() && base.bmc.Mocked? == old(base.bmc.Mocked?)
      ensures status != Success ==> OnlyQueries(old(base.sent))
      ensures old(base.bmc).Scripted? ==>
        var read := FlagsFrom(old(base.bmc.answers));
        && status == read.status && selector == (if read.valid then Device(read.flags) else BOOT_NONE)
        && base.sent == old(base.sent) + read.asked
           + (if status != Success then []
              else if read.valid && !Persistent(read.flags)
              then [SetRequest([5, 0, 0, 0, 0, 0]), SetRequest([4, 1, 0])]
              else [SetRequest([4, 1, 0])])
      ensures OnMock() ==> status == Success && (Options(), selector) == BootDevice(old(Options()))
      ensures OnMock() ==> base.bmc.state == old(base.bmc.state).(chassis := Options())
    {
      selector := BOOT_NONE;
      var flags, valid;
      status, flags, valid := ReadFlags();
      if status != Success { return; }
      selector := ConsumeFlags(flags, valid);
    }

    /** Take the device from the flags, clear flags that are not persistent, and acknowledge. */
    method ConsumeFlags(flags: BootFlags, valid: bool) returns (selector: nat)
      requires Valid() && (OnMock() ==> valid == FlagsValid(Options().flags) && (valid ==> flags == Options().flags))
      modifies base
      ensures Valid() && base.bmc.Mocked? == old(base.bmc.Mocked?)
      ensures OnMock() ==> (Options(), selector) == BootDevice(old(Options()))
      ensures selector == if valid then Device(flags) else BOOT_NONE
      ensures base.sent == old(base.sent)
        + (if valid && !Persistent(flags) then [SetRequest([5, 0, 0, 0, 0, 0]), SetRequest([4, 1, 0])]
           else [SetRequest([4, 1, 0])])
      ensures OnMock() ==> base.bmc.state == old(base.bmc.state).(chassis := Options())
    {
      selector := BOOT_NONE;
      if valid {
        selector := Device(flags);
        if !Persistent(flags) {
          assert [5] + NO_FLAGS == [5, 0, 0, 0, 0, 0];
          var _ := IpmiSetBootFlags(NO_FLAGS);
        }
      }
      IpmiAcknowledgeBootOption();
    }

    method IpmiGetCmosClearOption() returns (status: EfiStatus, clearCmos: bool)
      requires Valid()
      modifies base
      ensures Valid() && base.bmc.Mocked? == old(base.bmc.Mocked?)
      ensures status != Success ==> !clearCmos && OnlyQueries(old(base.sent))
      ensures old(base.bmc).Scripted? ==>
        var read := FlagsFrom(old(base.bmc.answers));
        && status == read.status && clearCmos == (read.valid && CmosClear(read.flags))
        && base.sent == old(base.sent) + read.asked
           + if clearCmos then [SetRequest([5] + WithoutCmosClear(read.flags))] else []
      ensures OnMock() ==> status == Success && (Options(), clearCmos) == CmosClearOption(old(Options()))
      ensures OnMock() ==> base.bmc.state == old(base.bmc.state).(chassis := Options())
    {
      clearCmos := false;
      var flags, valid;
      status, flags, valid := ReadFlags();
      if status != Success { return; }
      if !valid { return; }
      clearCmos := CmosClear(flags);
      if CmosClear(flags) {
        var _ := IpmiSetBootFlags(WithoutCmosClear(flags));
      }
    }
  }

  /** Any calls on one library, one after another: on the mock they are answered, and leave the
      boot options, as BootOptions says. */
  method AskAll(lib: BootOptionLib, calls: seq<Call>) returns (answers: seq<Answer>)
    requires lib.Valid() && lib.OnMock()
    modifies lib.base
    ensures lib.Valid() && lib.OnMock()
    ensures answers == Answers(old(lib.Options()), calls) && lib.Options() == Final(old(lib.Options()), calls)
    ensures lib.base.bmc.state == old(lib.base.bmc.state).(chassis := lib.Options())
    decreases |calls|
  {
    if calls == [] { return []; }
    ghost var c := lib.Options();
    var answer, rest;
    answer := AskOne(lib, calls[0]);
    rest := AskAll(lib, calls[1..]);
    answers := [answer] + rest;
  }

  method AskOne(lib: BootOptionLib, call: Call) returns (answer: Answer)
    requires lib.Valid() && lib.OnMock()
    modifies lib.base
    ensures lib.Valid() && lib.OnMock()
    ensures (lib.Options(), answer) == Ask(old(lib.Options()), call)
    ensures lib.base.bmc.state == old(lib.base.bmc.state).(chassis := lib.Options())
  {
    match call {
      case AskDevice =>
        var status, selector := lib.IpmiGetBootDevice();
        answer := DeviceIs(selector);
      case AskCmos =>
        var status, clear := lib.IpmiGetCmosClearOption();
        answer := CmosIs(clear);
    }
  }

  /** The boot override end to end: whatever is asked of the library, and in whatever order, a
      valid override is returned by the first query for the device, by every other one too if it
      is persistent, and by no other if it is not. */
  method OverrideEndToEnd(lib: BootOptionLib, calls: seq<Call>) returns (answers: seq<Answer>)
    requires lib.Valid() && lib.OnMock() && FlagsValid(lib.Options().flags)
    modifies lib.base
    ensures lib.Valid() && lib.OnMock() && |answers| == |calls|
    ensures forall i :: 0 <= i < |calls| && calls[i].AskDevice? ==>
      answers[i] == DeviceIs(if !Persistent(old(lib.Options()).flags) && AskDevice in calls[..i] then BOOT_NONE
                             else Device(old(lib.Options()).flags))
    ensures lib.Options().acks
            == if AskDevice in calls then old(lib.Options()).acks & !HANDLED_BY_BIOS else old(lib.Options()).acks
  {
    ghost var c := lib.Options();
    answers := AskAll(lib, calls);
    OnlyBiosAcknowledged(c, calls);
    if Persistent(c.flags) { PersistentReturnedAlways(c, calls); } else { OverrideReturnedOnce(c, calls); }
  }
}
