/**
 The mock BMC as a whole (MockIpmi.c): a table of handlers behind a one-slot request/response
 exchange, and the base library that talks to it directly (IpmiBaseLibMock.c).
 */
module MockIpmi {
  import opened Bytes
  import opened MockSel
  import opened MockChassis
  import opened MockWdt

  const NETFN_CHASSIS: byte := 0x00
  const NETFN_APP: byte := 0x06
  const NETFN_STORAGE: byte := 0x0A

  const APP_GET_DEVICE_ID: byte := 0x01
  const APP_GET_SELFTEST_RESULTS: byte := 0x04
  const APP_RESET_WATCHDOG_TIMER: byte := 0x22
  const APP_SET_WATCHDOG_TIMER: byte := 0x24
  const APP_GET_WATCHDOG_TIMER: byte := 0x25
  const STORAGE_GET_SEL_INFO: byte := 0x40
  const STORAGE_GET_SEL_ENTRY: byte := 0x43
  const STORAGE_ADD_SEL_ENTRY: byte := 0x44
  const STORAGE_CLEAR_SEL: byte := 0x47
  const STORAGE_GET_SEL_TIME: byte := 0x48
  const STORAGE_SET_SEL_TIME: byte := 0x49
  const CHASSIS_SET_SYSTEM_BOOT_OPTIONS: byte := 0x08
  const CHASSIS_GET_SYSTEM_BOOT_OPTIONS: byte := 0x09

  const COMP_INVALID_COMMAND: byte := 0xC1
  const SELFTEST_NOT_IMPLEMENTED: byte := 0x56

  const MAX_RESPONSE := 250
  const BASE_BUFFER_SIZE := 255

  datatype Handler =
    | DeviceId | SelfTest
    | SelInfo | SelAdd | SelGetTime | SelSetTime | SelClear | SelEntry
    | WatchdogGet | WatchdogSet | WatchdogReset
    | BootSet | BootGet

  const HANDLERS: seq<(byte, byte, Handler)> := [
    (NETFN_APP, APP_GET_DEVICE_ID, DeviceId),
    (NETFN_APP, APP_GET_SELFTEST_RESULTS, SelfTest),
    (NETFN_STORAGE, STORAGE_GET_SEL_INFO, SelInfo),
    (NETFN_STORAGE, STORAGE_ADD_SEL_ENTRY, SelAdd),
    (NETFN_STORAGE, STORAGE_GET_SEL_TIME, SelGetTime),
    (NETFN_STORAGE, STORAGE_SET_SEL_TIME, SelSetTime),
    (NETFN_STORAGE, STORAGE_CLEAR_SEL, SelClear),
    (NETFN_STORAGE, STORAGE_GET_SEL_ENTRY, SelEntry),
    (NETFN_APP, APP_GET_WATCHDOG_TIMER, WatchdogGet),
    (NETFN_APP, APP_SET_WATCHDOG_TIMER, WatchdogSet),
    (NETFN_APP, APP_RESET_WATCHDOG_TIMER, WatchdogReset),
    (NETFN_CHASSIS, CHASSIS_SET_SYSTEM_BOOT_OPTIONS, BootSet),
    (NETFN_CHASSIS, CHASSIS_GET_SYSTEM_BOOT_OPTIONS, BootGet)
  ]

  function Lookup(netFn: byte, command: byte): Option<Handler> {
    if netFn == NETFN_APP then
      if command == APP_GET_DEVICE_ID then Some(DeviceId)
      else if command == APP_GET_SELFTEST_RESULTS then Some(SelfTest)
      else if command == APP_GET_WATCHDOG_TIMER then Some(WatchdogGet)
      else if command == APP_SET_WATCHDOG_TIMER then Some(WatchdogSet)
      else if command == APP_RESET_WATCHDOG_TIMER then Some(WatchdogReset)
      else None
    else if netFn == NETFN_STORAGE then
      if command == STORAGE_GET_SEL_INFO then Some(SelInfo)
      else if command == STORAGE_ADD_SEL_ENTRY then Some(SelAdd)
      else if command == STORAGE_GET_SEL_TIME then Some(SelGetTime)
      else if command == STORAGE_SET_SEL_TIME then Some(SelSetTime)
      else if command == STORAGE_CLEAR_SEL then Some(SelClear)
      else if command == STORAGE_GET_SEL_ENTRY then Some(SelEntry)
      else None
    else if netFn == NETFN_CHASSIS then
      if command == CHASSIS_SET_SYSTEM_BOOT_OPTIONS then Some(BootSet)
      else if command == CHASSIS_GET_SYSTEM_BOOT_OPTIONS then Some(BootGet)
      else None
    else None
  }

  /** The state of the mock BMC. */
  datatype Mock = Mock(sel: Sel, wdt: Watchdog, chassis: Chassis)

  ghost predicate ValidMock(m: Mock) {
    ValidSel(m.sel) && ValidWatchdog(m.wdt)
  }

  /** What the handlers assert of a request's data. */
  predicate Accepts(netFn: byte, command: byte, data: seq<byte>) {
    match Lookup(netFn, command)
    case Some(SelAdd) => |data| >= RECORD_SIZE
    case Some(SelSetTime) => |data| >= 4
    case Some(SelClear) =>
      |data| >= 6 && data[2..5] == [0x43, 0x4C, 0x52] && (data[5] == INITIALIZE_ERASE || data[5] == GET_ERASE_STATUS)
    case Some(SelEntry) => |data| >= 6
    case Some(WatchdogSet) => |data| >= 6
    case Some(BootSet) => SetRequestOk(data)
    case Some(BootGet) => |data| >= 3 && data[1] == 0 && data[2] == 0
    case _ => true
  }

  const DEVICE_ID_RESPONSE: seq<byte> := [COMP_NORMAL, 0xAB, 0, 0, 0, 2, 0, 0x0B, 0x0A, 0x0D, 1, 0, 0, 0, 0, 0]

  /** The effect of a command and the response data, completion code first. */
  function Handle(m: Mock, netFn: byte, command: byte, data: seq<byte>): (result: (Mock, seq<byte>))
    requires ValidMock(m) && Accepts(netFn, command, data)
    ensures 1 <= |result.1| <= 19
  {
    match Lookup(netFn, command)
    case None => (m, [COMP_INVALID_COMMAND])
    case Some(DeviceId) => (m, DEVICE_ID_RESPONSE)
    case Some(SelfTest) => (m, [COMP_NORMAL, SELFTEST_NOT_IMPLEMENTED, 0])
    case Some(SelInfo) => (m, GetInfo(m.sel))
    case Some(SelAdd) => var (sel, response) := AddEntry(m.sel, data[..RECORD_SIZE]); (m.(sel := sel), response)
    case Some(SelGetTime) => var (sel, response) := GetTime(m.sel); (m.(sel := sel), response)
    case Some(SelSetTime) => var (sel, response) := SetTime(m.sel, FromLe32(data[..4])); (m.(sel := sel), response)
    case Some(SelClear) => var (sel, response) := Clear(m.sel, data[5]); (m.(sel := sel), response)
    case Some(SelEntry) => (m, GetEntry(m.sel, data))
    case Some(WatchdogGet) => (m.(wdt := Get(m.wdt)), EncodeWatchdog(Get(m.wdt)))
    case Some(WatchdogSet) => (m.(wdt := Set(m.wdt, DecodeSetting(data))), [COMP_NORMAL])
    case Some(WatchdogReset) => (m.(wdt := Reset(m.wdt)), [COMP_NORMAL])
    case Some(BootSet) => var (chassis, code) := SetOption(m.chassis, data); (m.(chassis := chassis), [code])
    case Some(BootGet) => (m, GetOption(m.chassis, data[0] % 0x80))
  }

  lemma HandleKeepsValid(m: Mock, netFn: byte, command: byte, data: seq<byte>)
    requires ValidMock(m) && Accepts(netFn, command, data)
    ensures ValidMock(Handle(m, netFn, command, data).0)
  {
  }

  /** The commands of the watchdog timer by number, and that every command the mock has no handler
      for is an invalid command and changes nothing. */
  lemma CommandsByNumber(m: Mock, netFn: byte, command: byte, data: seq<byte>)
    requires ValidMock(m) && Accepts(netFn, command, data)
    ensures netFn == 0x06 && command == 0x25 ==>
      Handle(m, netFn, command, data) == (m.(wdt := Get(m.wdt)), EncodeWatchdog(Get(m.wdt)))
    ensures netFn == 0x06 && command == 0x24 ==>
      |data| >= 6 && Handle(m, netFn, command, data) == (m.(wdt := Set(m.wdt, DecodeSetting(data))), [0x00])
    ensures netFn == 0x06 && command == 0x22 ==>
      Handle(m, netFn, command, data) == (m.(wdt := Reset(m.wdt)), [0x00])
    ensures !(netFn == 0x06 && command in {0x01, 0x04, 0x22, 0x24, 0x25})
            && !(netFn == 0x0A && command in {0x40, 0x43, 0x44, 0x47, 0x48, 0x49})
            && !(netFn == 0x00 && command in {0x08, 0x09}) ==>
      Handle(m, netFn, command, data) == (m, [0xC1])
  {
  }

  // ---- Messages: LUN and net function share the first byte ----

  type NetFn = n: int | 0 <= n < 0x40

  function Header(netFn: NetFn, lun: int, command: byte): (h: seq<byte>)
    requires 0 <= lun < 4
    ensures |h| == 2 && h[0] / 4 == netFn && h[0] % 4 == lun && h[1] == command
  {
    [4 * netFn + lun, command]
  }

  datatype Request = Request(netFn: NetFn, lun: nat, command: byte, data: seq<byte>)

  /** Who answers: the mock, or anybody at all, given by the answers made one after another. */
  datatype Peer<+A> = Scripted(answers: seq<A>) | Mocked(state: Mock)

  /** A response carries the net function with its lowest bit set. */
  function ResponseNetFn(netFn: NetFn): (n: NetFn)
    ensures n % 2 == 1 && n / 2 == netFn / 2
  {
    if netFn % 2 == 0 then netFn + 1 else netFn
  }

  ghost predicate MessageOk(message: seq<byte>) {
    && 2 <= |message| < 0x100 && message[0] % 4 == 0
    && Accepts(message[0] / 4, message[1], message[2..])
  }

  function Respond(m: Mock, message: seq<byte>): (result: (Mock, seq<byte>))
    requires ValidMock(m) && MessageOk(message)
    ensures 3 <= |result.1| <= 21
  {
    var (m', data) := Handle(m, message[0] / 4, message[1], message[2..]);
    (m', Header(ResponseNetFn(message[0] / 4), 0, message[1]) + data)
  }

  class MockBmc {
    const sel: Store
    const wdt: Timer
    const chassis: Options
    var mResponse: seq<byte>
    var mResponseValid: bool

    ghost predicate Valid()
      reads this, sel, sel.mSel, wdt, chassis
    {
      && sel.Valid() && wdt.Valid()
      && (mResponseValid ==> 3 <= |mResponse| <= MAX_RESPONSE)
    }

    ghost function State(): Mock
      requires Valid()
      reads this, sel, sel.mSel, wdt, chassis
      ensures ValidMock(State())
    {
      Mock(sel.State(), wdt.mWatchdog, chassis.State())
    }

    constructor ()
      ensures Valid() && State() == Mock(Sel([], 0), OFF, Chassis(NO_FLAGS, 0xFF)) && !mResponseValid
      ensures fresh(sel) && fresh(sel.mSel) && fresh(wdt) && fresh(chassis)
    {
      sel := new Store();
      wdt := new Timer();
      chassis := new Options();
      mResponse, mResponseValid := [], false;
    }

    method Dispatch(handler: Handler, netFn: byte, command: byte, data: seq<byte>) returns (response: seq<byte>)
      requires Valid() && Lookup(netFn, command) == Some(handler) && Accepts(netFn, command, data)
      modifies sel, sel.mSel, wdt, chassis
      ensures Valid() && (State(), response) == Handle(old(State()), netFn, command, data)
    {
      match handler {
        case DeviceId => response := DEVICE_ID_RESPONSE;
        case SelfTest => response := [COMP_NORMAL, SELFTEST_NOT_IMPLEMENTED, 0];
        case SelInfo => response := sel.MockIpmiSelGetInfo();
        case SelAdd => response := sel.MockIpmiSelAddEntry(data);
        case SelGetTime => response := sel.MockIpmiSelGetTime();
        case SelSetTime => response := sel.MockIpmiSelSetTime(data);
        case SelClear => response := sel.MockIpmiSelClear(data);
        case SelEntry => response := sel.MockIpmiSelGetEntry(data);
        case WatchdogGet =>
          var w := wdt.MockIpmiGetWatchdog();
          response := EncodeWatchdog(w);
        case WatchdogSet =>
          wdt.MockIpmiSetWatchdog(DecodeSetting(data));
          response := [COMP_NORMAL];
        case WatchdogReset =>
          wdt.MockIpmiResetWatchdog();
          response := [COMP_NORMAL];
        case BootSet => response := chassis.MockIpmiSetSystemBootOptions(data);
        case BootGet => response := chassis.MockIpmiGetSystemBootOptions(data);
      }
    }

    /** Process a request and keep the response in the slot. */
    method MockIpmiCommand(message: seq<byte>) returns (status: EfiStatus)
      requires Valid() && MessageOk(message)
      modifies this, sel, sel.mSel, wdt, chassis
      ensures Valid() && status == Success && mResponseValid
      ensures (State(), mResponse) == Respond(old(State()), message)
    {
      var netFn, command := message[0] / 4, message[1];
      var header := Header(ResponseNetFn(netFn), 0, command);
      var index := 0;
      while index < |HANDLERS|
        invariant 0 <= index <= |HANDLERS| == 13
        invariant forall j :: 0 <= j < index ==> !(HANDLERS[j].0 == netFn && HANDLERS[j].1 == command)
      {
        if HANDLERS[index].0 == netFn && HANDLERS[index].1 == command { break; }
        index := index + 1;
      }
      if index < |HANDLERS| {
        var response := Dispatch(HANDLERS[index].2, netFn, command, message[2..]);
        mResponse := header + response;
      } else {
        NotInTable(netFn, command);
        mResponse := header + [COMP_INVALID_COMMAND];
      }
      mResponseValid := true;
      return Success;
    }

    /** Hand out the prepared response and empty the slot. */
    method MockIpmiResponse(size: nat) returns (status: EfiStatus, response: seq<byte>)
      requires Valid() && mResponseValid && size > |mResponse|
      modifies this`mResponse, this`mResponseValid
      ensures Valid() && State() == old(State()) && !mResponseValid
      ensures status == Success && response == old(mResponse)
    {
      response := mResponse;
      mResponse, mResponseValid := [], false;
      return Success, response;
    }
  }

  lemma NotInTable(netFn: byte, command: byte)
    requires forall j :: 0 <= j < |HANDLERS| ==> !(HANDLERS[j].0 == netFn && HANDLERS[j].1 == command)
    ensures Lookup(netFn, command) == None
  {
    assert HANDLERS[0].2 == DeviceId && HANDLERS[1].2 == SelfTest && HANDLERS[2].2 == SelInfo;
    assert HANDLERS[3].2 == SelAdd && HANDLERS[4].2 == SelGetTime && HANDLERS[5].2 == SelSetTime;
    assert HANDLERS[6].2 == SelClear;
    assert HANDLERS[7].2 == SelEntry && HANDLERS[8].2 == WatchdogGet && HANDLERS[9].2 == WatchdogSet;
    assert HANDLERS[10].2 == WatchdogReset && HANDLERS[11].2 == BootSet && HANDLERS[12].2 == BootGet;
  }

  /** The base library over the mock: request and response pass through two zeroed buffers. */
  class BaseLibMock {
    const bmc: MockBmc
    const requestBuffer: array<byte>
    const responseBuffer: array<byte>

    ghost predicate Valid()
      reads this, bmc, bmc.sel, bmc.sel.mSel, bmc.wdt, bmc.chassis
    {
      && bmc.Valid() && requestBuffer != responseBuffer
      && requestBuffer.Length == responseBuffer.Length == BASE_BUFFER_SIZE
    }

    constructor (bmc: MockBmc)
      requires bmc.Valid()
      ensures Valid() && this.bmc == bmc && fresh(requestBuffer) && fresh(responseBuffer)
    {
      this.bmc := bmc;
      requestBuffer, responseBuffer := new byte[BASE_BUFFER_SIZE](_ => 0), new byte[BASE_BUFFER_SIZE](_ => 0);
    }

    /** Zero both buffers and compose the request. */
    method Compose(netFn: NetFn, command: byte, commandData: seq<byte>)
      requires requestBuffer.Length == responseBuffer.Length == BASE_BUFFER_SIZE && requestBuffer != responseBuffer
      requires |commandData| <= BASE_BUFFER_SIZE - 2
      modifies requestBuffer, responseBuffer
      ensures requestBuffer[..2 + |commandData|] == Header(netFn, 0, command) + commandData
    {
      ZeroMem(requestBuffer);
      ZeroMem(responseBuffer);
      StoreMem(requestBuffer, 0, Header(netFn, 0, command) + commandData);
      assert requestBuffer[..0] == [];
    }

    method IpmiSubmitCommand(netFn: NetFn, command: byte, commandData: seq<byte>, capacity: nat)
      returns (status: EfiStatus, response: seq<byte>)
      requires Valid() && |commandData| <= BASE_BUFFER_SIZE - 2 && Accepts(netFn, command, commandData)
      requires |Handle(bmc.State(), netFn, command, commandData).1| <= capacity
      modifies bmc, bmc.sel, bmc.sel.mSel, bmc.wdt, bmc.chassis, requestBuffer, responseBuffer
      ensures Valid() && !bmc.mResponseValid && status == Success
      ensures (bmc.State(), response) == Handle(old(bmc.State()), netFn, command, commandData)
    {
      Compose(netFn, command, commandData);
      var message := requestBuffer[..2 + |commandData|];
      assert message[2..] == commandData && message[0] == 4 * netFn && message[1] == command;
      status := bmc.MockIpmiCommand(message);
      if status != Success { return; }
      status, response := bmc.MockIpmiResponse(BASE_BUFFER_SIZE);
      if status != Success { return; }
      StoreMem(responseBuffer, 0, response);
      assert responseBuffer[..|response|] == response;
      response := responseBuffer[2..|response|];
    }
  }
}
