/**
 The boot options the mock BMC keeps (MockChassis.c): the five bytes of the boot flags
 parameter and the boot information acknowledge bits (section 28.12 of the IPMI v2.0
 specification).
 */
module MockChassis {
  import opened Bytes

  const PARAMETER_SET_IN_PROGRESS: byte := 0
  const PARAMETER_BOOT_INFO_ACK: byte := 4
  const PARAMETER_BOOT_FLAGS: byte := 5

  const COMP_PARAMETER_NOT_SUPPORTED: byte := 0x80

  type BootFlags = f: seq<byte> | |f| == 5 witness [0, 0, 0, 0, 0]

  const NO_FLAGS: BootFlags := [0, 0, 0, 0, 0]

  // Data1: bit 7 flags valid, bit 6 persistent. Data2: bit 7 clear CMOS, bits 5..2 device.
  predicate FlagsValid(f: BootFlags) { f[0] / 0x80 == 1 }
  predicate Persistent(f: BootFlags) { f[0] / 0x40 % 2 == 1 }
  predicate CmosClear(f: BootFlags) { f[1] / 0x80 == 1 }
  function Device(f: BootFlags): (d: nat) ensures d < 0x10 { f[1] % 0x40 / 4 }

  function WithoutCmosClear(f: BootFlags): (g: BootFlags)
    ensures !CmosClear(g) && Device(g) == Device(f)
    ensures FlagsValid(g) == FlagsValid(f) && Persistent(g) == Persistent(f)
    ensures !CmosClear(f) ==> g == f
    ensures g[0] == f[0] && g[2..] == f[2..] && g[1] == if f[1] >= 0x80 then f[1] - 0x80 else f[1]
  {
    if f[1] >= 0x80 then
      assert (f[1] - 0x80) % 0x40 == f[1] % 0x40;
      f[1 := f[1] - 0x80]
    else f
  }

  /** Where the flags are (section 28.12, parameter 5): bit 7 of the first byte says that they are
      valid and bit 6 that they persist; bit 7 of the second asks for the CMOS to be cleared, and
      its bits 5 to 2 are the device. */
  lemma FlagLayout(valid: nat, persistent: nat, low: nat, cmos: nat, lock: nat, device: nat, blank: nat,
                   tail: seq<byte>)
    requires valid < 2 && persistent < 2 && low < 0x40 && cmos < 2 && lock < 2 && device < 16 && blank < 4
    requires |tail| == 3
    ensures var f := [0x80 * valid + 0x40 * persistent + low, 0x80 * cmos + 0x40 * lock + 4 * device + blank] + tail;
      && (FlagsValid(f) <==> valid == 1) && (Persistent(f) <==> persistent == 1)
      && (CmosClear(f) <==> cmos == 1) && Device(f) == device
  {
    HighBits(valid, persistent, low);
    HighBits(cmos, lock, 4 * device + blank);
  }

  lemma HighBits(b7: nat, b6: nat, low: nat)
    requires b7 < 2 && b6 < 2 && low < 0x40
    ensures var b := 0x80 * b7 + 0x40 * b6 + low; b / 0x80 == b7 && b / 0x40 % 2 == b6 && b % 0x40 == low
  {
    var b := 0x80 * b7 + 0x40 * b6 + low;
    assert b / 0x40 == 2 * b7 + b6;
  }

  datatype Chassis = Chassis(flags: BootFlags, acks: bv8)

  function GetOption(c: Chassis, selector: byte): (response: seq<byte>)
    ensures |response| >= 3
  {
    if selector == PARAMETER_BOOT_FLAGS then [COMP_NORMAL, 0, selector] + c.flags
    else if selector == PARAMETER_SET_IN_PROGRESS then [COMP_NORMAL, 0, selector, 0]
    else [COMP_PARAMETER_NOT_SUPPORTED, 0, selector]
  }

  /** The first request byte selects the parameter (its bit 7 would mark it invalid, which the
      mock ignores); the parameter's data follows. */
  function SetOption(c: Chassis, request: seq<byte>): (Chassis, byte)
    requires SetRequestOk(request)
  {
    if request[0] % 0x80 == PARAMETER_BOOT_FLAGS then (c.(flags := request[1..6]), COMP_NORMAL)
    else if request[0] % 0x80 == PARAMETER_BOOT_INFO_ACK then
      var mask, value := request[1] as bv8, request[2] as bv8;
      (c.(acks := Written(c.acks, mask, value)), COMP_NORMAL)
    else (c, COMP_PARAMETER_NOT_SUPPORTED)
  }

  /** The bits under the mask replaced by those of the value. */
  function Written(bits: bv8, mask: bv8, value: bv8): bv8 {
    (bits & !mask) | (mask & value)
  }

  lemma WrittenBits(bits: bv8, mask: bv8, value: bv8)
    ensures Written(bits, mask, value) & mask == value & mask
    ensures Written(bits, mask, value) & !mask == bits & !mask
  {
  }

  /** The messages byte by byte: parameter 5 holds the flags, parameter 0 is never in progress, and
      no other parameter can be read; flags are replaced as a whole, of the acknowledge bits
      (parameter 4) those under the mask take the value and the others stay, and nothing else can
      be set. */
  lemma OptionMessages(c: Chassis, selector: byte, request: seq<byte>)
    requires SetRequestOk(request)
    ensures selector == 5 ==> GetOption(c, selector) == [0x00, 0, 5] + c.flags
    ensures selector == 0 ==> GetOption(c, selector) == [0x00, 0, 0, 0]
    ensures selector !in {0, 5} ==> GetOption(c, selector) == [0x80, 0, selector]
    ensures var parameter := request[0] % 0x80;
      var (c', code) := SetOption(c, request);
      && (parameter == 5 ==> c' == Chassis(request[1..6], c.acks) && code == 0x00)
      && (parameter == 4 ==>
            c' == Chassis(c.flags, Written(c.acks, request[1] as bv8, request[2] as bv8)) && code == 0x00)
      && (parameter !in {4, 5} ==> c' == c && code == 0x80)
  {
  }

  predicate SetRequestOk(request: seq<byte>) {
    && |request| >= 1
    && (request[0] % 0x80 == PARAMETER_BOOT_FLAGS ==> |request| >= 6)
    && (request[0] % 0x80 == PARAMETER_BOOT_INFO_ACK ==> |request| >= 3)
  }

  class Options {
    var mBootFlags: BootFlags
    var mBootOptionAcks: bv8

    ghost function State(): Chassis
      reads this
    {
      Chassis(mBootFlags, mBootOptionAcks)
    }

    constructor ()
      ensures State() == Chassis(NO_FLAGS, 0xFF)
    {
      mBootFlags, mBootOptionAcks := NO_FLAGS, 0xFF;
    }

    method MockIpmiGetSystemBootOptions(data: seq<byte>) returns (response: seq<byte>)
      requires |data| >= 3 && data[1] == 0 && data[2] == 0
      ensures response == GetOption(State(), data[0] % 0x80)
    {
      var selector := data[0] % 0x80;
      response := [COMP_NORMAL, 0, selector];
      if selector == PARAMETER_BOOT_FLAGS {
        response := response + mBootFlags;
      } else if selector == PARAMETER_SET_IN_PROGRESS {
        response := response + [0];
      } else {
        response := response[0 := COMP_PARAMETER_NOT_SUPPORTED];
      }
    }

    method MockIpmiSetSystemBootOptions(data: seq<byte>) returns (response: seq<byte>)
      requires SetRequestOk(data)
      modifies this
      ensures State() == SetOption(old(State()), data).0 && response == [SetOption(old(State()), data).1]
    {
      response := [COMP_NORMAL];
      if data[0] % 0x80 == PARAMETER_BOOT_FLAGS {
        mBootFlags := data[1..6];
      } else if data[0] % 0x80 == PARAMETER_BOOT_INFO_ACK {
        var mask, value := data[1] as bv8, data[2] as bv8;
        mBootOptionAcks := mBootOptionAcks & !mask;
        mBootOptionAcks := mBootOptionAcks | (mask & value);
      } else {
        response := [COMP_PARAMETER_NOT_SUPPORTED];
      }
    }
  }
}
