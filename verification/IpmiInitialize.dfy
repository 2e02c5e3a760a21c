/** Bringing up communication with the BMC (IpmiInitialize.c), against any BMC. */
module IpmiInitialize {
  import opened Bytes
  import opened MockIpmi
  import opened IpmiHealth
  import opened GenericIpmi

  const NETFN_FIRMWARE: byte := 0x08
  const GET_BMC_EXECUTION_CONTEXT: byte := 0x23
  const FORCED_UPDATE_MODE: byte := 0x11

  const SELFTEST_NO_ERROR: byte := 0x55
  const SELFTEST_ERROR: byte := 0x57
  const SELFTEST_FATAL_HW_ERROR: byte := 0x58

  /** What section 20.4 of the IPMI v2.0 specification assigns to corruption: bits 0, 1 and 2. */
  const SPECIFIED_CORRUPT_BITS: byte := 0x07

  datatype ErrorCode = CommError | SdrEmpty | HardFail | SoftFail

  /** The two masks have a bit in common. */
  predicate Overlap(a: byte, b: byte) {
    exists k: nat | k < 8 :: Bit(a, k) && Bit(b, k)
  }

  /** 57h has the bits 0, 1, 2, 4 and 6. */
  lemma BitsOfError(mask: byte)
    ensures Overlap(0x57, mask) <==> Bit(mask, 0) || Bit(mask, 1) || Bit(mask, 2) || Bit(mask, 4) || Bit(mask, 6)
  {
    assert Bit(0x57, 0) && Bit(0x57, 1) && Bit(0x57, 2) && Bit(0x57, 4) && Bit(0x57, 6);
    assert !Bit(0x57, 3) && !Bit(0x57, 5) && !Bit(0x57, 7);
  }

  // ---- What a self-test result means ----

  predicate Recognized(result: byte) {
    result in {SELFTEST_NO_ERROR, SELFTEST_NOT_IMPLEMENTED, SELFTEST_ERROR, SELFTEST_FATAL_HW_ERROR}
  }

  /** The status for a result whose corruption bits are looked for in `detail`. They are meant to
      be looked for in the response's parameter; the code looks in the result itself. */
  function Judged(result: byte, detail: byte, corruptBits: byte): BmcStatus {
    if result == SELFTEST_NO_ERROR || result == SELFTEST_NOT_IMPLEMENTED then BmcOk
    else if result == SELFTEST_ERROR && !Overlap(detail, corruptBits) then BmcSoftFail
    else BmcHardFail
  }

  /** Exactly when the code's verdict is the intended one. */
  lemma JudgedAsIntended(result: byte, parameter: byte, corruptBits: byte)
    ensures Judged(result, result, corruptBits) == Judged(result, parameter, corruptBits)
            <==> result != SELFTEST_ERROR || Overlap(parameter, corruptBits) == Overlap(SELFTEST_ERROR, corruptBits)
  {
  }

  /** With the specified bits a reported error is always a hard failure, as intended exactly if
      the parameter tells of corruption. */
  lemma ErrorAlwaysHard(result: byte, parameter: byte)
    ensures Judged(SELFTEST_ERROR, SELFTEST_ERROR, SPECIFIED_CORRUPT_BITS) == BmcHardFail
    ensures Judged(result, result, SPECIFIED_CORRUPT_BITS) == Judged(result, parameter, SPECIFIED_CORRUPT_BITS)
            <==> result != SELFTEST_ERROR || Overlap(parameter, SPECIFIED_CORRUPT_BITS)
  {
    assert Bit(SPECIFIED_CORRUPT_BITS, 0);
    BitsOfError(SPECIFIED_CORRUPT_BITS);
  }

  // ---- The commands of an initialization and what they lead to ----

  type Temp = t: seq<byte> | |t| == MAX_TEMP_DATA witness seq(MAX_TEMP_DATA, i => 0)

  /** A command that was sent, what came of it, and the TempData it left. */
  datatype Step = Step(command: byte, reply: Result, temp: Temp)

  /** The response is in TempData, framed in place. */
  predicate Framing(s: Step) {
    && s.reply.size.Some?
    && (s.reply.status == Success ==>
          && s.reply.last.Message? && |s.reply.last.bytes| >= RESPONSE_HEADER_SIZE
          && s.reply.size.value == |s.reply.last.bytes| - 2 <= MAX_TEMP_DATA
          && s.temp[..s.reply.size.value] == FramedInPlace(s.reply.last.bytes))
  }

  lemma FramedByte(s: Step, k: nat)
    requires Framing(s) && s.reply.status == Success && k + 2 < |s.reply.last.bytes|
    ensures s.temp[k] == FramedInPlace(s.reply.last.bytes)[k]
  {
    assert s.temp[k] == s.temp[..s.reply.size.value][k];
  }

  /** The n-th command was this one, put to this device, its response to replace all of TempData. */
  ghost predicate Told(log: seq<Step>, n: nat, command: byte, d: Device, h: Health, retries: nat)
    requires ValidDevice(d) && retries > 0 && Accepts(NETFN_APP, command, [])
  {
    && n < |log| && log[n].command == command && Framing(log[n])
    && ComesTo(log[n].reply, d, h, NETFN_APP, command, MAX_TEMP_DATA, retries)
  }

  predicate Ready(s: Step) {
    s.command == APP_GET_DEVICE_ID && s.reply.status == Success && s.temp[3] / 0x80 == 0
  }

  predicate Forced(s: Step, contextOffset: nat)
    requires contextOffset < MAX_TEMP_DATA
  {
    && s.command == GET_BMC_EXECUTION_CONTEXT && s.reply.status == Success
    && s.temp[contextOffset] == FORCED_UPDATE_MODE
  }

  predicate Tested(s: Step) {
    s.command == APP_GET_SELFTEST_RESULTS && s.reply.status == Success && Recognized(s.temp[1])
  }

  /** The BMC status that the last command of an initialization decides. */
  function Outcome(last: Step, contextOffset: nat, corruptBits: byte): BmcStatus
    requires contextOffset < MAX_TEMP_DATA
  {
    if Tested(last) then Judged(last.temp[1], last.temp[1], corruptBits) else DeviceOutcome(last, contextOffset)
  }

  /** The same of a command of the Get Device ID dialogue. */
  function DeviceOutcome(last: Step, contextOffset: nat): BmcStatus
    requires contextOffset < MAX_TEMP_DATA
  {
    if Ready(last) then BmcOk
    else if Forced(last, contextOffset) then BmcUpdateInProgress
    else BmcHardFail
  }

  /** The error codes it decides. */
  function ErrorsOf(last: Step, corruptBits: byte, sdrEmptyBit: byte): seq<ErrorCode> {
    if last.command != APP_GET_SELFTEST_RESULTS then []
    else if !Tested(last) then [CommError]
    else SelfTestErrors(last.temp[1], last.temp[1], corruptBits, sdrEmptyBit)
  }

  function SelfTestErrors(result: byte, detail: byte, corruptBits: byte, sdrEmptyBit: byte): seq<ErrorCode> {
    var failure := if Judged(result, detail, corruptBits) == BmcSoftFail then SoftFail else HardFail;
    if Judged(result, detail, corruptBits) == BmcOk then []
    else if result == SELFTEST_ERROR && Overlap(detail, sdrEmptyBit) then [SdrEmpty, failure]
    else [failure]
  }

  /** At most two error codes, none for a healthy BMC, and otherwise the last of them fits the
      status; a hard failure without any is one of the Get Device ID loop. */
  lemma ErrorsFitStatus(last: Step, contextOffset: nat, corruptBits: byte, sdrEmptyBit: byte)
    requires contextOffset < MAX_TEMP_DATA
    ensures var errors := ErrorsOf(last, corruptBits, sdrEmptyBit);
      match Outcome(last, contextOffset, corruptBits)
      case BmcHardFail =>
        && (errors == [] || errors == [CommError] || errors == [HardFail] || errors == [SdrEmpty, HardFail])
        && (errors == [] <==> last.command != APP_GET_SELFTEST_RESULTS)
      case BmcSoftFail => errors == [SoftFail] || errors == [SdrEmpty, SoftFail]
      case BmcOk => errors == []
      case BmcUpdateInProgress => errors == []
      case BmcNotReady => false
  {
  }

  /** The same read off the bytes: Get Device ID is command 01h, Get Self Test Results 04h, Get BMC
      Execution Context 23h. */
  lemma OutcomeByBytes(last: Step, contextOffset: nat, corruptBits: byte, sdrEmptyBit: byte)
    requires contextOffset < MAX_TEMP_DATA
    ensures var status, errors := Outcome(last, contextOffset, corruptBits), ErrorsOf(last, corruptBits, sdrEmptyBit);
      // The device ID: bit 7 of the firmware revision says that the BMC is not ready.
      && (last.command == 0x01 ==>
            && errors == []
            && status == if last.reply.status == Success && last.temp[3] < 0x80 then BmcOk else BmcHardFail)
      // The execution context.
      && (last.command == 0x23 ==>
            && errors == []
            && status == if last.reply.status == Success && last.temp[contextOffset] == 0x11 then BmcUpdateInProgress
                         else BmcHardFail)
      // The self test.
      && (last.command == 0x04 && (last.reply.status != Success || last.temp[1] !in {0x55, 0x56, 0x57, 0x58}) ==>
            status == BmcHardFail && errors == [CommError])
      && (last.command == 0x04 && last.reply.status == Success && last.temp[1] in {0x55, 0x56} ==>
            status == BmcOk && errors == [])
      && (last.command == 0x04 && last.reply.status == Success && last.temp[1] == 0x58 ==>
            status == BmcHardFail && errors == [HardFail])
      && (last.command == 0x04 && last.reply.status == Success && last.temp[1] == 0x57 ==>
            var failure := if Bit(corruptBits, 0) || Bit(corruptBits, 1) || Bit(corruptBits, 2) || Bit(corruptBits, 4)
                              || Bit(corruptBits, 6) then HardFail else SoftFail;
            && status == (if failure == HardFail then BmcHardFail else BmcSoftFail)
            && errors == if Overlap(0x57, sdrEmptyBit) then [SdrEmpty, failure] else [failure])
  {
    BitsOfError(corruptBits);
  }

  /** What comes of a command without data. */
  ghost function ReplyTo(d: Device, h: Health, netFn: NetFn, command: byte, size: nat, retries: nat): (result: Result)
    requires ValidDevice(d) && retries > 0 && Accepts(netFn, command, [])
    ensures ValidDevice(result.device)
  {
    assert (Header(netFn, 0, command) + [])[2..] == [];
    Command(d, h, Request(netFn, 0, command, []), Some(size), retries)
  }

  /** `reply` is what comes of the command. It is said of every marked result, so that the verifier
      expands a command only where its result is marked. */
  ghost predicate ComesTo(reply: Result, d: Device, h: Health, netFn: NetFn, command: byte, size: nat, retries: nat)
    requires ValidDevice(d) && retries > 0 && Accepts(netFn, command, [])
  {
    forall r: Result {:trigger Marked(r)} ::
      Marked(r) && r == ReplyTo(d, h, netFn, command, size, retries) ==> reply == r
  }

  predicate Marked(r: Result) { true }

  lemma ComesToReply(reply: Result, d: Device, h: Health, netFn: NetFn, command: byte, size: nat, retries: nat)
    requires ValidDevice(d) && retries > 0 && Accepts(netFn, command, [])
    ensures ComesTo(reply, d, h, netFn, command, size, retries)
            <==> reply == ReplyTo(d, h, netFn, command, size, retries)
  {
    assert Marked(ReplyTo(d, h, netFn, command, size, retries));
  }

  /** What comes of one whose response is to replace all of TempData. */
  ghost function FirstReply(d: Device, h: Health, command: byte, retries: nat): (result: Result)
    requires ValidDevice(d) && retries > 0 && Accepts(NETFN_APP, command, [])
    ensures ValidDevice(result.device)
  {
    ReplyTo(d, h, NETFN_APP, command, MAX_TEMP_DATA, retries)
  }

  /** What comes of the self test when it is asked for after the device ID. */
  ghost function SelfTestReply(d: Device, h: Health, retries: nat): Result
    requires ValidDevice(d) && retries > 0
  {
    var id := FirstReply(d, h, APP_GET_DEVICE_ID, retries);
    FirstReply(id.device, Health(BmcOk, id.health.softErrors), APP_GET_SELFTEST_RESULTS, retries)
  }

  /** A BMC that says it is ready. */
  predicate SaysReady(r: Result) {
    r.status == Success && r.last.Message? && |r.last.bytes| >= 6 && r.last.bytes[5] / 0x80 == 0
  }

  /** A BMC that reports a recognized self-test result. */
  predicate SaysTested(r: Result) {
    r.status == Success && r.last.Message? && |r.last.bytes| >= 4 && Recognized(r.last.bytes[3])
  }

  class Initializer {
    const instance: Instance
    const readyDelay: byte         // PcdIpmiBmcReadyDelayTimer
    const timeoutSeconds: byte     // PcdBmcTimeoutSeconds
    const checkSelfTest: bool      // PcdIpmiCheckSelfTestResults
    const contextOffset: nat       // where the execution context response keeps the context
    const corruptBits: byte        // FRU, boot block or operational firmware corrupt
    const sdrEmptyBit: byte        // SDR repository empty
    var deviceCommands: nat        // Get Device ID and Get BMC Execution Context
    var selfTestCommands: nat
    var errors: seq<ErrorCode>
    var reported: seq<ErrorCode>
    ghost var log: seq<Step>       // every command sent

    ghost predicate Valid()
      reads instance
    {
      instance.Valid() && readyDelay > 0 && contextOffset < MAX_TEMP_DATA
    }

    constructor (instance: Instance, readyDelay: byte, timeoutSeconds: byte, checkSelfTest: bool,
                 contextOffset: nat, corruptBits: byte, sdrEmptyBit: byte)
      requires instance.Valid() && readyDelay > 0 && contextOffset < MAX_TEMP_DATA
      ensures Valid() && this.instance == instance && deviceCommands == selfTestCommands == 0
      ensures errors == reported == [] && log == []
      ensures this.readyDelay == readyDelay && this.checkSelfTest == checkSelfTest
      ensures this.contextOffset == contextOffset && this.corruptBits == corruptBits && this.sdrEmptyBit == sdrEmptyBit
    {
      this.instance, this.readyDelay, this.timeoutSeconds := instance, readyDelay, timeoutSeconds;
      this.checkSelfTest, this.contextOffset := checkSelfTest, contextOffset;
      this.corruptBits, this.sdrEmptyBit := corruptBits, sdrEmptyBit;
      deviceCommands, selfTestCommands, errors, reported, log := 0, 0, [], [], [];
    }

    /** `n` commands were sent since `before`; of the Get Device ID loop's none but the last got
        an answer that settles it. */
    ghost predicate Sent(before: seq<Step>, n: int)
      requires contextOffset < MAX_TEMP_DATA
      reads this`log
    {
      && before <= log && |log| == |before| + n
      && forall i :: |before| <= i < |log| - 1 ==> !Ready(log[i]) && !Forced(log[i], contextOffset)
    }

    /** Status, TempData and device are as this command left them. */
    ghost predicate Left(last: Step, status: EfiStatus)
      reads instance, instance.tempData
    {
      && status == last.reply.status && last.temp == instance.tempData[..] && Framing(last)
      && instance.device == last.reply.device && instance.softErrorCount == last.reply.health.softErrors
    }

    /** And it decides the BMC status. */
    ghost predicate DecidedBy(last: Step, status: EfiStatus)
      requires contextOffset < MAX_TEMP_DATA
      reads instance, instance.tempData
    {
      Left(last, status) && instance.bmcStatus == Outcome(last, contextOffset, corruptBits)
    }

    /** The same of a command of the Get Device ID dialogue. */
    ghost predicate DeviceDecidedBy(last: Step, status: EfiStatus)
      requires contextOffset < MAX_TEMP_DATA
      reads instance, instance.tempData
    {
      && Left(last, status) && last.command != APP_GET_SELFTEST_RESULTS
      && instance.bmcStatus == DeviceOutcome(last, contextOffset)
    }

    /** The last command was this one, and has just come back. */
    ghost predicate Just(command: byte, status: EfiStatus, size: nat)
      reads this`log, instance, instance.tempData
    {
      && log != []
      && var s := log[|log| - 1];
         && s.command == command && s.temp == instance.tempData[..] && Framing(s)
         && s.reply.status == status && s.reply.size == Some(size)
         && instance.device == s.reply.device && instance.Tracked() == s.reply.health
    }

    /** Send a command without data, the response to replace TempData. */
    method SendCommand(netFn: NetFn, command: byte, dataSize: nat) returns (status: EfiStatus, newSize: nat)
      requires Valid() && Accepts(netFn, command, [])
      modifies this`log
      modifies instance`device, instance`inbox, instance`bmcStatus, instance`softErrorCount, instance.tempData
      ensures Valid() && (status == Success ==> instance.bmcStatus == BmcOk)
      ensures old(log) < log && |log| == |old(log)| + 1 && Just(command, status, newSize)
      ensures ComesTo(log[|log| - 1].reply, old(instance.device), old(instance.Tracked()), netFn, command, dataSize,
                      instance.maxRetries)
    {
      assert (Header(netFn, 0, command) + [])[2..] == [];
      ghost var reply := ReplyTo(instance.device, instance.Tracked(), netFn, command, dataSize, instance.maxRetries);
      var size;
      status, size :=
        instance.IpmiSendCommandInternal(netFn, 0, command, None, 0, instance.tempData, Some(dataSize));
      newSize := size.value;
      log := log + [Step(command, reply, instance.tempData[..])];
    }

    /** Neither ready nor in update mode, as far as the last command tells. */
    ghost predicate Undecided()
      requires contextOffset < MAX_TEMP_DATA
      reads this`log
    {
      log != [] && !Ready(log[|log| - 1]) && !Forced(log[|log| - 1], contextOffset)
    }

    lemma SentMore(before: seq<Step>, asked: seq<Step>, n: nat, m: nat)
      requires contextOffset < MAX_TEMP_DATA && n > 0
      requires before <= asked && |asked| == |before| + n
      requires forall i :: |before| <= i < |asked| ==> !Ready(asked[i]) && !Forced(asked[i], contextOffset)
      requires Sent(asked, m)
      ensures Sent(before, n + m)
    {
      forall i | |before| <= i < |log| - 1 ensures !Ready(log[i]) && !Forced(log[i], contextOffset) {
        if i < |asked| { assert log[i] == asked[i]; }
      }
    }

    /** All commands from the n-th on ask for the device ID. */
    ghost predicate OnlyIds(n: nat)
      reads this`log
    {
      forall i :: n <= i < |log| ==> log[i].command == APP_GET_DEVICE_ID
    }

    /** None of the commands from the n-th on succeeded. */
    ghost predicate NoneSucceeded(n: nat)
      reads this`log
    {
      forall i :: n <= i < |log| ==> log[i].reply.status != Success
    }

    /** Ask for the device ID, n commands having been sent since `before` and none of them having
        settled it. */
    method AskDeviceId(dataSize: nat, ghost before: seq<Step>, ghost n: nat) returns (status: EfiStatus, newSize: nat)
      requires Valid() && Sent(before, n) && (n > 0 ==> Undecided()) && OnlyIds(|before|)
      modifies this`deviceCommands, this`log
      modifies instance`device, instance`inbox, instance`bmcStatus, instance`softErrorCount, instance.tempData
      ensures Valid() && Sent(before, n + 1) && deviceCommands == old(deviceCommands) + 1 && OnlyIds(|before|)
      ensures old(NoneSucceeded(|before|)) && status != Success ==> NoneSucceeded(|before|)
      ensures status != Success || instance.tempData[3] / 0x80 != 0 ==> Undecided()
      ensures old(log) < log && |log| == |old(log)| + 1 && Just(APP_GET_DEVICE_ID, status, newSize)
      ensures ComesTo(log[|log| - 1].reply, old(instance.device), old(instance.Tracked()), NETFN_APP,
                      APP_GET_DEVICE_ID, dataSize, instance.maxRetries)
    {
      deviceCommands := deviceCommands + 1;
      status, newSize := SendCommand(NETFN_APP, APP_GET_DEVICE_ID, dataSize);
    }

    /** The loop until the first answer. */
    method AwaitAnswer() returns (status: EfiStatus, dataSize: nat)
      requires Valid()
      modifies this`deviceCommands, this`log
      modifies instance`device, instance`inbox, instance`bmcStatus, instance`softErrorCount, instance.tempData
      ensures Valid() && old(deviceCommands) < deviceCommands <= old(deviceCommands) + readyDelay + 1
      ensures Sent(old(log), deviceCommands - old(deviceCommands)) && Just(APP_GET_DEVICE_ID, status, dataSize)
      ensures OnlyIds(|old(log)|)
      ensures forall i :: |old(log)| <= i < |log| - 1 ==> log[i].reply.status != Success
      ensures status != Success ==> deviceCommands == old(deviceCommands) + readyDelay + 1
      ensures Told(log, |old(log)|, APP_GET_DEVICE_ID, old(instance.device), old(instance.Tracked()),
                   instance.maxRetries)
    {
      var retries: nat := readyDelay;
      dataSize := MAX_TEMP_DATA;
      while true
        invariant Valid() && retries <= readyDelay
        invariant deviceCommands == old(deviceCommands) + (readyDelay - retries)
        invariant Sent(old(log), readyDelay - retries)
        invariant log != old(log) ==>
          && Undecided()
          && Told(log, |old(log)|, APP_GET_DEVICE_ID, old(instance.device), old(instance.Tracked()),
                  instance.maxRetries)
        invariant OnlyIds(|old(log)|) && NoneSucceeded(|old(log)|)
        invariant log == old(log) ==>
          instance.device == old(instance.device) && instance.Tracked() == old(instance.Tracked())
          && dataSize == MAX_TEMP_DATA
        decreases retries
      {
        status, dataSize := AskDeviceId(dataSize, old(log), readyDelay - retries);
        if status == Success || retries == 0 { return; }
        retries := retries - 1;
      }
    }

    /** Get Device ID until the first answer, the `answered`-th command; if that says that the BMC
        is not ready, the execution context once and then Get Device ID again. */
    ghost predicate Dialogue(before: nat, answered: nat)
      reads this`log
    {
      && before <= answered < |log|
      && (forall i :: before <= i < answered ==> log[i].reply.status != Success)
      && (forall i :: before <= i < |log| && i != answered + 1 ==> log[i].command == APP_GET_DEVICE_ID)
      && (answered + 1 < |log| <==> log[answered].reply.status == Success && !Ready(log[answered]))
      && (answered + 1 < |log| ==> log[answered + 1].command == GET_BMC_EXECUTION_CONTEXT)
    }

    lemma DialogueMore(before: nat, asked: seq<Step>)
      requires before < |asked| && asked <= log && |asked| < |log|
      requires forall i :: before <= i < |asked| ==> asked[i].command == APP_GET_DEVICE_ID
      requires forall i :: before <= i < |asked| - 1 ==> asked[i].reply.status != Success
      requires asked[|asked| - 1].reply.status == Success && !Ready(asked[|asked| - 1])
      requires log[|asked|].command == GET_BMC_EXECUTION_CONTEXT
      requires OnlyIds(|asked| + 1)
      ensures Dialogue(before, |asked| - 1)
    {
      assert forall i :: 0 <= i < |asked| ==> log[i] == asked[i];
    }

    /** The last command decides: the BMC is OK when it said it is ready, in update mode when it
        said so, and failed hard when neither was ever said. */
    method GetDeviceId() returns (status: EfiStatus, ghost answered: nat)
      requires Valid()
      modifies this`deviceCommands, this`log
      modifies instance`device, instance`inbox, instance`bmcStatus, instance`softErrorCount, instance.tempData
      ensures Valid() && old(deviceCommands) < deviceCommands <= old(deviceCommands) + 2 * readyDelay + 2
      ensures Sent(old(log), deviceCommands - old(deviceCommands))
      ensures Dialogue(|old(log)|, answered) && DeviceDecidedBy(log[|log| - 1], status)
      ensures instance.bmcStatus == BmcHardFail ==> deviceCommands > old(deviceCommands) + readyDelay
      ensures Told(log, |old(log)|, APP_GET_DEVICE_ID, old(instance.device), old(instance.Tracked()),
                   instance.maxRetries)
    {
      var dataSize;
      status, dataSize := AwaitAnswer();
      answered := |log| - 1;
      if status != Success {
        instance.bmcStatus := BmcHardFail;
        return;
      }
      if instance.tempData[3] / 0x80 == 0 {
        instance.bmcStatus := BmcOk;
        return Success, answered;
      }
      status := GoOn(dataSize, old(log));
    }

    /** The commands sent since `before` have brought a first answer, which says not ready. */
    ghost predicate Answered(before: seq<Step>)
      requires contextOffset < MAX_TEMP_DATA
      reads this`log
    {
      && before < log && log[|log| - 1].reply.status == Success && Undecided()
      && OnlyIds(|before|)
      && (forall i :: |before| <= i < |log| - 1 ==> log[i].reply.status != Success)
    }

    /** The rest of the dialogue then. */
    method GoOn(dataSize: nat, ghost before: seq<Step>) returns (status: EfiStatus)
      requires Valid() && Answered(before)
      modifies this`deviceCommands, this`log
      modifies instance`device, instance`inbox, instance`bmcStatus, instance`softErrorCount, instance.tempData
      ensures Valid() && old(deviceCommands) < deviceCommands <= old(deviceCommands) + readyDelay + 1
      ensures old(log) < log && Sent(before, |old(log)| - |before| + deviceCommands - old(deviceCommands))
      ensures Dialogue(|before|, |old(log)| - 1) && DeviceDecidedBy(log[|log| - 1], status)
      ensures instance.bmcStatus == BmcHardFail ==> deviceCommands == old(deviceCommands) + readyDelay + 1
    {
      status := AwaitReady(dataSize);
      SentMore(before, old(log), |old(log)| - |before|, |log| - |old(log)|);
      DialogueMore(|before|, old(log));
    }

    /** The BMC answers but is not ready: see whether an update keeps it, or else wait. */
    method AwaitReady(responseSize: nat) returns (status: EfiStatus)
      requires Valid()
      modifies this`deviceCommands, this`log
      modifies instance`device, instance`inbox, instance`bmcStatus, instance`softErrorCount, instance.tempData
      ensures Valid() && old(deviceCommands) < deviceCommands <= old(deviceCommands) + readyDelay + 1
      ensures Sent(old(log), deviceCommands - old(deviceCommands))
      ensures DeviceDecidedBy(log[|log| - 1], status) && log[|old(log)|].command == GET_BMC_EXECUTION_CONTEXT
      ensures OnlyIds(|old(log)| + 1)
      ensures instance.bmcStatus == BmcHardFail ==> deviceCommands == old(deviceCommands) + readyDelay + 1
      ensures ComesTo(log[|old(log)|].reply, old(instance.device), old(instance.Tracked()), NETFN_FIRMWARE,
                      GET_BMC_EXECUTION_CONTEXT, responseSize, instance.maxRetries)
    {
      var dataSize;
      deviceCommands := deviceCommands + 1;
      status, dataSize := SendCommand(NETFN_FIRMWARE, GET_BMC_EXECUTION_CONTEXT, responseSize);
      if status == Success && instance.tempData[contextOffset] == FORCED_UPDATE_MODE {
        instance.bmcStatus := BmcUpdateInProgress;
        return;
      }
      ghost var asked := log;
      status := PollReady(dataSize);
      SentMore(old(log), asked, 1, |log| - |asked|);
    }

    /** Ask until the BMC says it is ready. */
    method PollReady(responseSize: nat) returns (status: EfiStatus)
      requires Valid()
      modifies this`deviceCommands, this`log
      modifies instance`device, instance`inbox, instance`bmcStatus, instance`softErrorCount, instance.tempData
      ensures Valid() && old(deviceCommands) < deviceCommands <= old(deviceCommands) + readyDelay
      ensures Sent(old(log), deviceCommands - old(deviceCommands)) && DeviceDecidedBy(log[|log| - 1], status)
      ensures OnlyIds(|old(log)|)
      ensures instance.bmcStatus == BmcHardFail ==> deviceCommands == old(deviceCommands) + readyDelay
    {
      var dataSize := responseSize;
      var retries: nat := readyDelay;
      status := NotReady;
      while retries != 0
        invariant Valid() && retries <= readyDelay
        invariant deviceCommands == old(deviceCommands) + (readyDelay - retries)
        invariant Sent(old(log), readyDelay - retries)
        invariant retries < readyDelay ==> Undecided() && Just(APP_GET_DEVICE_ID, status, dataSize)
        invariant OnlyIds(|old(log)|)
      {
        retries := retries - 1;
        status, dataSize := AskDeviceId(dataSize, old(log), readyDelay - retries - 1);
        if status == Success && instance.tempData[3] / 0x80 == 0 {
          instance.bmcStatus := BmcOk;
          return Success;
        }
      }
      instance.bmcStatus := BmcHardFail;
    }

    /** One try if the delay is shorter than the BMC's own timeout, and else as many as for the ID. */
    function SelfTestTries(): nat {
      if readyDelay < timeoutSeconds then 1 else readyDelay
    }

    /** None of the commands from the n-th on brought a recognized self-test result. */
    ghost predicate Untested(n: nat)
      reads this`log
    {
      forall i :: n <= i < |log| ==> !Tested(log[i])
    }

    /** Ask for the self-test results. */
    method AskSelfTest(dataSize: nat, ghost from: nat) returns (status: EfiStatus, newSize: nat, recognized: bool)
      requires Valid() && Untested(from)
      modifies this`selfTestCommands, this`log
      modifies instance`device, instance`inbox, instance`bmcStatus, instance`softErrorCount, instance.tempData
      ensures Valid() && selfTestCommands == old(selfTestCommands) + 1
      ensures old(log) < log && |log| == |old(log)| + 1 && Just(APP_GET_SELFTEST_RESULTS, status, newSize)
      ensures recognized == Tested(log[|log| - 1]) && (!recognized ==> Untested(from))
      ensures forall i :: from <= i < |log| - 1 ==> !Tested(log[i])
      ensures ComesTo(log[|log| - 1].reply, old(instance.device), old(instance.Tracked()), NETFN_APP,
                      APP_GET_SELFTEST_RESULTS, dataSize, instance.maxRetries)
    {
      recognized := false;
      selfTestCommands := selfTestCommands + 1;
      status, newSize := SendCommand(NETFN_APP, APP_GET_SELFTEST_RESULTS, dataSize);
      if status == Success {
        var result := instance.tempData[1];
        if result == SELFTEST_NO_ERROR || result == SELFTEST_NOT_IMPLEMENTED
           || result == SELFTEST_ERROR || result == SELFTEST_FATAL_HW_ERROR {
          recognized := true;
        }
      }
    }

    /** The retry loop of the self test; tries are left exactly if a result was recognized. */
    method AwaitSelfTest() returns (status: EfiStatus, retries: nat, dataSize: nat)
      requires Valid()
      modifies this`selfTestCommands, this`log
      modifies instance`device, instance`inbox, instance`bmcStatus, instance`softErrorCount, instance.tempData
      ensures Valid() && old(selfTestCommands) < selfTestCommands <= old(selfTestCommands) + SelfTestTries()
      ensures old(log) < log && |log| == |old(log)| + selfTestCommands - old(selfTestCommands)
      ensures Just(APP_GET_SELFTEST_RESULTS, status, dataSize)
      ensures retries > 0 <==> Tested(log[|log| - 1])
      ensures retries == 0 ==> selfTestCommands == old(selfTestCommands) + SelfTestTries()
      ensures forall i :: |old(log)| <= i < |log| - 1 ==> !Tested(log[i])
      ensures Told(log, |old(log)|, APP_GET_SELFTEST_RESULTS, old(instance.device), old(instance.Tracked()),
                   instance.maxRetries)
    {
      retries := if readyDelay < timeoutSeconds then 1 else readyDelay;
      dataSize := MAX_TEMP_DATA;
      instance.tempData[1] := 0;
      while true
        invariant Valid() && 0 < retries <= SelfTestTries()
        invariant selfTestCommands == old(selfTestCommands) + (SelfTestTries() - retries)
        invariant old(log) <= log && |log| == |old(log)| + (SelfTestTries() - retries)
        invariant Untested(|old(log)|)
        invariant log == old(log) ==>
          instance.device == old(instance.device) && instance.Tracked() == old(instance.Tracked())
          && dataSize == MAX_TEMP_DATA
        invariant log != old(log) ==>
          Told(log, |old(log)|, APP_GET_SELFTEST_RESULTS, old(instance.device), old(instance.Tracked()),
               instance.maxRetries)
        decreases retries
      {
        var recognized;
        status, dataSize, recognized := AskSelfTest(dataSize, |old(log)|);
        if recognized { break; }
        retries := retries - 1;
        if retries == 0 { break; }
      }
    }

    /** Result and parameter are judged from the same byte of TempData, so the status is the one
        Judged gives with the result as its own detail. */
    method GetSelfTest() returns (status: EfiStatus)
      requires Valid() && errors == []
      modifies this`selfTestCommands, this`errors, this`log, instance, instance.tempData
      ensures Valid() && old(selfTestCommands) < selfTestCommands <= old(selfTestCommands) + SelfTestTries()
      ensures old(log) < log && |log| == |old(log)| + selfTestCommands - old(selfTestCommands)
      ensures !Tested(log[|log| - 1]) ==> selfTestCommands == old(selfTestCommands) + SelfTestTries()
      ensures forall i :: |old(log)| <= i < |log| - 1 ==> !Tested(log[i])
      ensures var last := log[|log| - 1];
        && last.command == APP_GET_SELFTEST_RESULTS && DecidedBy(last, status)
        && errors == ErrorsOf(last, corruptBits, sdrEmptyBit)
        && instance.errorStatus == if Tested(last) then StatusFrom(last, old(instance.errorStatus))
                                   else old(instance.errorStatus)
      ensures Told(log, |old(log)|, APP_GET_SELFTEST_RESULTS, old(instance.device), old(instance.Tracked()),
                   instance.maxRetries)
    {
      var retries, dataSize;
      status, retries, dataSize := AwaitSelfTest();
      if status != Success || retries == 0 {
        Report(CommError);
        instance.bmcStatus := BmcHardFail;
        return;
      }
      CopyErrorStatus(dataSize);
      JudgeSelfTest(instance.tempData[1], instance.tempData[1]);
      return Success;
    }

    /** Of the eight bytes of the error status, those that the response fills. */
    ghost function StatusFrom(last: Step, before: seq<byte>): (errorStatus: seq<byte>)
      requires |before| == 8 && last.reply.size.Some?
    {
      var n := if last.reply.size.value < 8 then last.reply.size.value else 8;
      last.temp[..n] + before[n..]
    }

    /** As much of the response as there is room for. */
    method CopyErrorStatus(dataSize: nat)
      requires Valid()
      modifies instance`errorStatus
      ensures Valid()
      ensures var n := if dataSize < 8 then dataSize else 8;
        instance.errorStatus == instance.tempData[..n] + old(instance.errorStatus)[n..]
    {
      var index := 0;
      while index < dataSize && index < 8
        invariant Valid() && index <= 8
        invariant instance.errorStatus == instance.tempData[..index] + old(instance.errorStatus)[index..]
        invariant index <= dataSize
      {
        instance.errorStatus := instance.errorStatus[index := instance.tempData[index]];
        index := index + 1;
      }
    }

    /** The switch over the result, with the byte that is searched for the error's details. */
    method JudgeSelfTest(result: byte, detail: byte)
      requires Valid() && errors == [] && Recognized(result)
      modifies this`errors, instance`bmcStatus
      ensures Valid() && instance.bmcStatus == Judged(result, detail, corruptBits)
      ensures errors == SelfTestErrors(result, detail, corruptBits, sdrEmptyBit)
    {
      if result == SELFTEST_NO_ERROR || result == SELFTEST_NOT_IMPLEMENTED {
        instance.bmcStatus := BmcOk;
      } else if result == SELFTEST_ERROR {
        if Overlap(detail, corruptBits) {
          instance.bmcStatus := BmcHardFail;
        } else {
          instance.bmcStatus := BmcSoftFail;
        }
        if Overlap(detail, sdrEmptyBit) {
          Report(SdrEmpty);
        }
      } else {
        // Results for device specific code never get past the retry loop.
        assert result == SELFTEST_FATAL_HW_ERROR;
        instance.bmcStatus := BmcHardFail;
      }
      if instance.bmcStatus == BmcHardFail {
        Report(HardFail);
      } else if instance.bmcStatus == BmcSoftFail {
        Report(SoftFail);
      }
    }

    method Report(code: ErrorCode)
      modifies this`errors
      ensures errors == if |old(errors)| < MAX_SOFT_COUNT then old(errors) + [code] else old(errors)
    {
      if |errors| < MAX_SOFT_COUNT { errors := errors + [code]; }
    }

    /** All that a check of the BMC promises, whatever the BMC: the number of commands is bounded
        and the last of them decides status and error codes. */
    ghost predicate Checked(before: seq<Step>, devices: nat, selfTests: nat, status: EfiStatus)
      requires Valid()
      reads this`log, this`deviceCommands, this`selfTestCommands, this`errors, instance, instance.tempData
    {
      && log != before && WithinBounds(before, devices, selfTests)
      && var last := log[|log| - 1];
         && Settled(last, status) && errors == ErrorsOf(last, corruptBits, sdrEmptyBit)
         && (last.command == APP_GET_SELFTEST_RESULTS <==> selfTestCommands > selfTests)
         && (last.command != APP_GET_SELFTEST_RESULTS && instance.bmcStatus == BmcHardFail ==>
               deviceCommands > devices + readyDelay)
         && (!Tested(last) && selfTestCommands > selfTests ==>
               selfTestCommands - selfTests == if readyDelay < timeoutSeconds then 1 else readyDelay as int)
    }

    /** What was asked and answered: first the device ID of device `d`; none of the device commands
        but the last settled anything, and none of the self-test commands but the last brought a
        result; and the self test is asked of a BMC that last said it is ready. */
    ghost predicate Answers(before: seq<Step>, devices: nat, selfTests: nat, d: Device, h: Health)
      requires instance.maxRetries > 0 && ValidDevice(d) && contextOffset < MAX_TEMP_DATA
      reads this`log, this`deviceCommands, this`selfTestCommands
    {
      && deviceCommands > devices && |log| == |before| + deviceCommands - devices + selfTestCommands - selfTests
      && selfTestCommands >= selfTests
      && var m := |before| + deviceCommands - devices;
         && Told(log, |before|, APP_GET_DEVICE_ID, d, h, instance.maxRetries)
         && (forall i :: |before| <= i < m - 1 ==> !Ready(log[i]) && !Forced(log[i], contextOffset))
         && (forall i :: m <= i < |log| - 1 ==> !Tested(log[i]))
         && (m < |log| ==>
               && Ready(log[m - 1]) && ValidDevice(log[m - 1].reply.device)
               && Told(log, m, APP_GET_SELFTEST_RESULTS, log[m - 1].reply.device,
                       Health(BmcOk, log[m - 1].reply.health.softErrors), instance.maxRetries))
    }

    /** Get Device ID, then the self test if it is wanted and the BMC is up. */
    method CheckBmc() returns (status: EfiStatus)
      requires Valid() && errors == []
      modifies this`deviceCommands, this`selfTestCommands, this`errors, this`log, instance, instance.tempData
      ensures Valid() && Checked(old(log), old(deviceCommands), old(selfTestCommands), status)
      ensures Answers(old(log), old(deviceCommands), old(selfTestCommands), old(instance.device),
                      old(instance.Tracked()))
    {
      ghost var answered;
      status, answered := GetDeviceId();
      if checkSelfTest && instance.bmcStatus != BmcUpdateInProgress && instance.bmcStatus != BmcHardFail {
        status := TestBmc(old(log), old(deviceCommands), old(instance.device), old(instance.Tracked()));
      }
    }

    /** The self test of a BMC that said it is ready. */
    method TestBmc(ghost before: seq<Step>, ghost devices: nat, ghost d: Device, ghost h: Health)
      returns (status: EfiStatus)
      requires Valid() && errors == [] && checkSelfTest && ValidDevice(d)
      requires Answers(before, devices, selfTestCommands, d, h) && WithinBounds(before, devices, selfTestCommands)
      requires Ready(log[|log| - 1]) && DeviceDecidedBy(log[|log| - 1], Success)
      modifies this`selfTestCommands, this`errors, this`log, instance, instance.tempData
      ensures Valid() && Checked(before, devices, old(selfTestCommands), status)
      ensures Answers(before, devices, old(selfTestCommands), d, h)
    {
      status := GetSelfTest();
      AnswersMore(before, devices, old(selfTestCommands), d, h, old(log));
    }

    /** The answers to the device commands are those that were given before the self test. */
    lemma AnswersMore(before: seq<Step>, devices: nat, selfTests: nat, d: Device, h: Health, asked: seq<Step>)
      requires instance.maxRetries > 0 && ValidDevice(d) && contextOffset < MAX_TEMP_DATA
      requires asked < log && |asked| == |before| + deviceCommands - devices > |before|
      requires |log| - |asked| == selfTestCommands - selfTests
      requires Told(asked, |before|, APP_GET_DEVICE_ID, d, h, instance.maxRetries)
      requires forall i :: |before| <= i < |asked| - 1 ==> !Ready(asked[i]) && !Forced(asked[i], contextOffset)
      requires forall i :: |asked| <= i < |log| - 1 ==> !Tested(log[i])
      requires Ready(asked[|asked| - 1]) && ValidDevice(asked[|asked| - 1].reply.device)
      requires Told(log, |asked|, APP_GET_SELFTEST_RESULTS, asked[|asked| - 1].reply.device,
                    Health(BmcOk, asked[|asked| - 1].reply.health.softErrors), instance.maxRetries)
      ensures Answers(before, devices, selfTests, d, h)
    {
      assert forall i :: 0 <= i < |asked| ==> log[i] == asked[i];
    }

    /** At most 2R + 2 device commands and R self-test commands, R being the ready-delay timer. */
    ghost predicate WithinBounds(before: seq<Step>, devices: nat, selfTests: nat)
      reads this`log, this`deviceCommands, this`selfTestCommands
    {
      && before <= log
      && |log| - |before| == deviceCommands - devices + selfTestCommands - selfTests
      && devices <= deviceCommands <= devices + 2 * readyDelay + 2
      && selfTests <= selfTestCommands <= selfTests + SelfTestTries() <= selfTests + readyDelay
    }

    /** The command decides, and nothing was left to ask after it. */
    ghost predicate Settled(last: Step, status: EfiStatus)
      requires contextOffset < MAX_TEMP_DATA
      reads instance, instance.tempData
    {
      && DecidedBy(last, status)
      && (if last.command == APP_GET_SELFTEST_RESULTS then checkSelfTest else !(checkSelfTest && Ready(last)))
    }

    /** This BMC answers the first command of each kind. */
    ghost predicate PromptBmc(d: Device, h: Health)
      requires ValidDevice(d) && instance.maxRetries > 0
    {
      && SaysReady(FirstReply(d, h, APP_GET_DEVICE_ID, instance.maxRetries))
      && (checkSelfTest ==> SaysTested(SelfTestReply(d, h, instance.maxRetries)))
    }

    /** The device ID was enough, or the self test was asked for once and its reply decided. */
    ghost predicate Reports(d: Device, h: Health, selfTests: nat)
      requires ValidDevice(d) && instance.maxRetries > 0
      reads this`selfTestCommands, this`errors, instance
    {
      if checkSelfTest then
        var reply := SelfTestReply(d, h, instance.maxRetries);
        && SaysTested(reply) && selfTestCommands == selfTests + 1 && instance.device == reply.device
        && var result := reply.last.bytes[3];
           && instance.bmcStatus == Judged(result, result, corruptBits)
           && errors == SelfTestErrors(result, result, corruptBits, sdrEmptyBit)
      else
        && selfTestCommands == selfTests && instance.bmcStatus == BmcOk && errors == []
        && instance.device == FirstReply(d, h, APP_GET_DEVICE_ID, instance.maxRetries).device
    }

    /** A BMC that says at once that it is ready is asked for the device ID once. */
    lemma ReadyAtOnce(before: seq<Step>, devices: nat, selfTests: nat, d: Device, h: Health)
      requires Valid() && ValidDevice(d) && Answers(before, devices, selfTests, d, h)
      requires SaysReady(FirstReply(d, h, APP_GET_DEVICE_ID, instance.maxRetries))
      ensures deviceCommands == devices + 1 && Ready(log[|before|])
      ensures log[|before|].reply == FirstReply(d, h, APP_GET_DEVICE_ID, instance.maxRetries)
    {
      ComesToReply(log[|before|].reply, d, h, NETFN_APP, APP_GET_DEVICE_ID, MAX_TEMP_DATA, instance.maxRetries);
      FramedByte(log[|before|], 3);
    }

    /** A BMC that reports a result at once is asked for it once. */
    lemma TestedAtOnce(before: seq<Step>, devices: nat, selfTests: nat, d: Device, h: Health)
      requires Valid() && ValidDevice(d) && Answers(before, devices, selfTests, d, h)
      requires deviceCommands == devices + 1 && selfTestCommands > selfTests
      requires log[|before|].reply == FirstReply(d, h, APP_GET_DEVICE_ID, instance.maxRetries)
      requires SaysTested(SelfTestReply(d, h, instance.maxRetries))
      ensures selfTestCommands == selfTests + 1 && Tested(log[|before| + 1])
      ensures var reply := SelfTestReply(d, h, instance.maxRetries);
        log[|before| + 1].reply == reply && log[|before| + 1].temp[1] == reply.last.bytes[3]
    {
      var id, test := log[|before|].reply, log[|before| + 1];
      ComesToReply(test.reply, id.device, Health(BmcOk, id.health.softErrors), NETFN_APP, APP_GET_SELFTEST_RESULTS,
                   MAX_TEMP_DATA, instance.maxRetries);
      FramedByte(test, 1);
    }

    /** A BMC that answers at once is sent one command of each kind, and its reply decides. */
    lemma PromptDecides(before: seq<Step>, devices: nat, selfTests: nat, d: Device, h: Health, status: EfiStatus)
      requires Valid() && ValidDevice(d) && Checked(before, devices, selfTests, status)
      requires Answers(before, devices, selfTests, d, h) && PromptBmc(d, h)
      ensures deviceCommands == devices + 1 && Reports(d, h, selfTests)
    {
      ReadyAtOnce(before, devices, selfTests, d, h);
      if checkSelfTest { TestedAtOnce(before, devices, selfTests, d, h); }
    }

    method ReportErrors()
      requires reported == []
      modifies this`reported
      ensures reported == errors
    {
      for index := 0 to |errors|
        invariant reported == errors[..index]
      {
        reported := reported + [errors[index]];
      }
      assert errors[..|errors|] == errors;
    }

    /** For every BMC and every setting, once platform initialization succeeds. */
    method IpmiInitializeBmc(platformStatus: EfiStatus) returns (status: EfiStatus)
      requires Valid() && reported == []
      modifies this, instance, instance.tempData
      ensures Valid()
      ensures platformStatus != Success ==>
        status == platformStatus && instance.Tracked() == old(instance.Tracked()) && log == old(log) && reported == []
        && deviceCommands == old(deviceCommands) && selfTestCommands == old(selfTestCommands)
      ensures platformStatus == Success ==>
        && Checked(old(log), old(deviceCommands), old(selfTestCommands), status) && reported == errors
        && Answers(old(log), old(deviceCommands), old(selfTestCommands), old(instance.device), old(instance.Tracked()))
    {
      errors := [];
      if platformStatus != Success { return platformStatus; }
      status := CheckBmc();
      ReportErrors();
    }
  }

  // ---- BMCs that answer at once ----

  /** Such a BMC is sent one command of each kind, and its reply decides. */
  method InitializePrompt(init: Initializer) returns (status: EfiStatus)
    requires init.Valid() && init.reported == [] && init.PromptBmc(init.instance.device, init.instance.Tracked())
    modifies init, init.instance, init.instance.tempData
    ensures init.Valid() && init.deviceCommands == old(init.deviceCommands) + 1 && init.reported == init.errors
    ensures init.Reports(old(init.instance.device), old(init.instance.Tracked()), old(init.selfTestCommands))
    ensures status == Success
  {
    status := init.IpmiInitializeBmc(Success);
    init.PromptDecides(old(init.log), old(init.deviceCommands), old(init.selfTestCommands), old(init.instance.device),
                       old(init.instance.Tracked()), status);
  }

  lemma MockAnswers(m: Mock, h: Health, retries: nat)
    requires ValidMock(m) && retries > 0
    ensures var id := FirstReply(Mocked(m), h, APP_GET_DEVICE_ID, retries); SaysReady(id) && id.device == Mocked(m)
    ensures var test := SelfTestReply(Mocked(m), h, retries);
      SaysTested(test) && test.device == Mocked(m) && test.last.bytes[3] == SELFTEST_NOT_IMPLEMENTED
  {
    GenericRefinesDirect(m, h, NETFN_APP, APP_GET_DEVICE_ID, [], MAX_TEMP_DATA, retries);
    var id := FirstReply(Mocked(m), h, APP_GET_DEVICE_ID, retries);
    assert Framed(id.last.bytes)[3] == DEVICE_ID_RESPONSE[3] == 0;
    var h' := Health(BmcOk, id.health.softErrors);
    GenericRefinesDirect(m, h', NETFN_APP, APP_GET_SELFTEST_RESULTS, [], MAX_TEMP_DATA, retries);
    var test := SelfTestReply(Mocked(m), h, retries);
    assert Framed(test.last.bytes)[1] == SELFTEST_NOT_IMPLEMENTED;
  }

  /** From every state of the mock: two commands at most, OK, nothing to report, and the mock as
      it was. */
  method InitializeOnMock(init: Initializer) returns (status: EfiStatus)
    requires init.Valid() && init.reported == [] && init.instance.device.Mocked?
    modifies init, init.instance, init.instance.tempData
    ensures init.Valid() && init.instance.device == old(init.instance.device)
    ensures init.instance.bmcStatus == BmcOk && init.reported == []
    ensures init.deviceCommands == old(init.deviceCommands) + 1
    ensures init.selfTestCommands == old(init.selfTestCommands) + if init.checkSelfTest then 1 else 0
  {
    MockAnswers(init.instance.device.state, init.instance.Tracked(), init.instance.maxRetries);
    status := InitializePrompt(init);
  }

  const DEVICE_READY: seq<byte> := [0x1C, 0x01, 0x00, 0x20, 0x01, 0x02]

  /** A response to Get Self Test Results. */
  function SelfTestResponse(result: byte, parameter: byte): seq<byte> {
    [0x1C, 0x04, 0x00, result, parameter]
  }

  /** Every BMC that is ready and reports a result that is known: 55h and 56h leave it OK with
      nothing to report, 58h is a hard failure, and 57h goes by the bits of 57h. */
  method InitializeTested(init: Initializer, result: byte, parameter: byte) returns (status: EfiStatus)
    requires init.Valid() && init.reported == [] && init.checkSelfTest && result in {0x55, 0x56, 0x57, 0x58}
    requires init.instance.device == Scripted([Message(DEVICE_READY), Message(SelfTestResponse(result, parameter))])
    modifies init, init.instance, init.instance.tempData
    ensures init.Valid() && status == Success
    ensures init.deviceCommands == old(init.deviceCommands) + 1
    ensures init.selfTestCommands == old(init.selfTestCommands) + 1
    ensures result in {0x55, 0x56} ==> init.instance.bmcStatus == BmcOk && init.reported == []
    ensures result == 0x58 ==> init.instance.bmcStatus == BmcHardFail && init.reported == [HardFail]
    ensures result == 0x57 ==>
      && init.instance.bmcStatus == (if Overlap(0x57, init.corruptBits) then BmcHardFail else BmcSoftFail)
      && init.reported != []
      && init.reported[|init.reported| - 1] == if init.instance.bmcStatus == BmcHardFail then HardFail else SoftFail
  {
    PromptReplies(init.instance.device, init.instance.Tracked(), result, parameter, init.instance.maxRetries);
    status := InitializePrompt(init);
  }

  /** A BMC that is ready and answers 57h with a parameter that tells of no corruption ends in a
      hard failure, though a soft one is meant: any such BMC, say one that cannot reach its SEL
      (parameter 80h). */
  method SelfTestErrorMisjudged(init: Initializer, parameter: byte) returns (status: EfiStatus)
    requires init.Valid() && init.reported == [] && init.checkSelfTest
    requires init.instance.device == Scripted([Message(DEVICE_READY), Message(SelfTestResponse(0x57, parameter))])
    requires init.corruptBits == SPECIFIED_CORRUPT_BITS && !Overlap(parameter, SPECIFIED_CORRUPT_BITS)
    modifies init, init.instance, init.instance.tempData
    ensures status == Success && init.instance.bmcStatus == BmcHardFail
    ensures init.reported != [] && init.reported[|init.reported| - 1] == HardFail
    ensures Judged(SELFTEST_ERROR, parameter, SPECIFIED_CORRUPT_BITS) == BmcSoftFail
  {
    ErrorAlwaysHard(SELFTEST_ERROR, parameter);
    status := InitializeTested(init, SELFTEST_ERROR, parameter);
  }

  lemma PromptReplies(d: Device, h: Health, result: byte, parameter: byte, retries: nat)
    requires d == Scripted([Message(DEVICE_READY), Message(SelfTestResponse(result, parameter))]) && retries > 0
    requires Recognized(result)
    ensures ValidDevice(d) && SaysReady(FirstReply(d, h, APP_GET_DEVICE_ID, retries))
    ensures var test := SelfTestReply(d, h, retries); SaysTested(test) && test.last.bytes[3] == result
  {
    assert d.answers[1..] == [Message(SelfTestResponse(result, parameter))];
    var id := FirstReply(d, h, APP_GET_DEVICE_ID, retries);
    assert id.device == Scripted([Message(SelfTestResponse(result, parameter))]);
  }

  lemma SpecifiedBits()
    ensures forall k: nat :: 3 <= k < 8 ==> !Bit(SPECIFIED_CORRUPT_BITS, k)
  {
    assert !Bit(0x07, 3) && !Bit(0x07, 4) && !Bit(0x07, 5) && !Bit(0x07, 6) && !Bit(0x07, 7);
  }

  /** There is such a BMC. */
  method MisjudgedBmc() returns (instance: Instance)
    ensures instance.Valid()
    ensures instance.device == Scripted([Message(DEVICE_READY), Message(SelfTestResponse(0x57, 0x80))])
    ensures !Overlap(0x80, SPECIFIED_CORRUPT_BITS)
  {
    instance := new Instance(Scripted([Message(DEVICE_READY), Message(SelfTestResponse(0x57, 0x80))]), 1);
    assert forall k: nat :: 3 <= k < 8 ==> !Bit(0x07, k) by { SpecifiedBits(); }
    assert !Bit(0x80, 0) && !Bit(0x80, 1) && !Bit(0x80, 2);
  }
}
