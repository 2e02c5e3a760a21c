/** What the two boot option queries report over any number of calls, given what each does once. */
module BootOptions {
  import opened Bytes
  import opened MockChassis

  const BOOT_NONE: nat := 0
  const HANDLED_BY_BIOS: bv8 := 0x01

  /** One call of IpmiGetBootDevice. */
  function BootDevice(c: Chassis): (Chassis, nat) {
    if !FlagsValid(c.flags) then (Acknowledged(c), BOOT_NONE)
    else if Persistent(c.flags) then (Acknowledged(c), Device(c.flags))
    else (Acknowledged(c.(flags := NO_FLAGS)), Device(c.flags))
  }

  function Acknowledged(c: Chassis): Chassis {
    c.(acks := c.acks & !HANDLED_BY_BIOS)
  }

  /** One call of IpmiGetCmosClearOption. */
  function CmosClearOption(c: Chassis): (Chassis, bool) {
    if FlagsValid(c.flags) && CmosClear(c.flags) then (c.(flags := WithoutCmosClear(c.flags)), true) else (c, false)
  }

  datatype Call = AskDevice | AskCmos
  datatype Answer = DeviceIs(device: nat) | CmosIs(clear: bool)

  function Ask(c: Chassis, call: Call): (Chassis, Answer) {
    match call
    case AskDevice => var (c', d) := BootDevice(c); (c', DeviceIs(d))
    case AskCmos => var (c', b) := CmosClearOption(c); (c', CmosIs(b))
  }

  function Answers(c: Chassis, calls: seq<Call>): (answers: seq<Answer>)
    ensures |answers| == |calls|
    ensures forall i :: 0 <= i < |calls| ==> answers[i].DeviceIs? == calls[i].AskDevice?
    decreases |calls|
  {
    if calls == [] then [] else
    var (c', answer) := Ask(c, calls[0]);
    [answer] + Answers(c', calls[1..])
  }

  function Final(c: Chassis, calls: seq<Call>): Chassis
    decreases |calls|
  {
    if calls == [] then c else Final(Ask(c, calls[0]).0, calls[1..])
  }

  lemma {:induction false} NoOverride(c: Chassis, calls: seq<Call>)
    requires !FlagsValid(c.flags)
    ensures forall i :: 0 <= i < |calls| ==>
      Answers(c, calls)[i] == if calls[i].AskDevice? then DeviceIs(BOOT_NONE) else CmosIs(false)
    decreases |calls|
  {
    if calls != [] { NoOverride(Ask(c, calls[0]).0, calls[1..]); }
  }

  lemma AnswersAt(c: Chassis, calls: seq<Call>, i: nat)
    requires i < |calls|
    ensures Answers(c, calls)[i]
            == if i == 0 then Ask(c, calls[0]).1 else Answers(Ask(c, calls[0]).0, calls[1..])[i - 1]
  {
  }

  /** A valid override that is not persistent is returned by the first query and by no other. */
  lemma OverrideReturnedOnce(c: Chassis, calls: seq<Call>)
    requires FlagsValid(c.flags) && !Persistent(c.flags)
    ensures forall i :: 0 <= i < |calls| && calls[i].AskDevice? ==>
      Answers(c, calls)[i] == DeviceIs(if AskDevice in calls[..i] then BOOT_NONE else Device(c.flags))
  {
    forall i | 0 <= i < |calls| && calls[i].AskDevice?
      ensures Answers(c, calls)[i] == DeviceIs(if AskDevice in calls[..i] then BOOT_NONE else Device(c.flags))
    {
      OverrideReturnedAt(c, calls, i);
    }
  }

  lemma {:induction false} OverrideReturnedAt(c: Chassis, calls: seq<Call>, i: nat)
    requires FlagsValid(c.flags) && !Persistent(c.flags)
    requires i < |calls| && calls[i].AskDevice?
    ensures Answers(c, calls)[i] == DeviceIs(if AskDevice in calls[..i] then BOOT_NONE else Device(c.flags))
    decreases i
  {
    AnswersAt(c, calls, i);
    OverrideStep(c, calls[0]);
    if i > 0 {
      var c', rest := Ask(c, calls[0]).0, calls[1..];
      assert calls[..i] == [calls[0]] + rest[..i - 1];
      if calls[0].AskDevice? { NoOverride(c', rest); } else { OverrideReturnedAt(c', rest, i - 1); }
    }
  }

  lemma OverrideStep(c: Chassis, call: Call)
    requires FlagsValid(c.flags) && !Persistent(c.flags)
    ensures call.AskDevice? ==> Ask(c, call).1 == DeviceIs(Device(c.flags))
    ensures var flags := Ask(c, call).0.flags;
      if call.AskDevice? then !FlagsValid(flags)
      else FlagsValid(flags) && !Persistent(flags) && Device(flags) == Device(c.flags)
  {
  }

  /** A persistent override is returned by every query; nothing but the CMOS request is taken out
      of its flags (PersistentFlagsKept). */
  lemma {:induction false} PersistentReturnedAlways(c: Chassis, calls: seq<Call>)
    requires FlagsValid(c.flags) && Persistent(c.flags)
    ensures forall i :: 0 <= i < |calls| && calls[i].AskDevice? ==> Answers(c, calls)[i] == DeviceIs(Device(c.flags))
    decreases |calls|
  {
    if calls != [] {
      PersistentReturnedAlways(Ask(c, calls[0]).0, calls[1..]);
    }
  }

  lemma {:induction false} PersistentFlagsKept(c: Chassis, calls: seq<Call>)
    requires FlagsValid(c.flags) && Persistent(c.flags)
    ensures Final(c, calls).flags == if AskCmos in calls then WithoutCmosClear(c.flags) else c.flags
    decreases |calls|
  {
    if calls != [] {
      var c', rest := Ask(c, calls[0]).0, calls[1..];
      PersistentStep(c, calls[0]);
      WithoutTwice(c.flags);
      PersistentFlagsKept(c', rest);
      assert Final(c, calls) == Final(c', rest);
      assert AskCmos in calls <==> calls[0] == AskCmos || AskCmos in rest;
    }
  }

  /** What the flags are after any calls: all zero once a valid override that is not persistent has
      been taken, without a reported CMOS request otherwise, and untouched if they are not valid. */
  lemma {:induction false} FlagsOverRuns(c: Chassis, calls: seq<Call>)
    ensures Final(c, calls).flags ==
      if !FlagsValid(c.flags) then c.flags
      else if !Persistent(c.flags) && AskDevice in calls then [0, 0, 0, 0, 0]
      else if AskCmos in calls then WithoutCmosClear(c.flags)
      else c.flags
    decreases |calls|
  {
    if calls != [] {
      var c', rest := Ask(c, calls[0]).0, calls[1..];
      FlagsStep(c, calls[0]);
      WithoutTwice(c.flags);
      FlagsOverRuns(c', rest);
      assert Final(c, calls) == Final(c', rest);
      assert AskCmos in calls <==> calls[0] == AskCmos || AskCmos in rest;
      assert AskDevice in calls <==> calls[0] == AskDevice || AskDevice in rest;
    }
  }

  lemma FlagsStep(c: Chassis, call: Call)
    ensures var flags := Ask(c, call).0.flags;
      && (!FlagsValid(c.flags) ==> flags == c.flags)
      && (FlagsValid(c.flags) && call.AskCmos? ==> flags == WithoutCmosClear(c.flags))
      && (FlagsValid(c.flags) && call.AskDevice? ==>
            flags == if Persistent(c.flags) then c.flags else [0, 0, 0, 0, 0])
    ensures !FlagsValid([0, 0, 0, 0, 0])
  {
  }

  lemma PersistentStep(c: Chassis, call: Call)
    requires FlagsValid(c.flags) && Persistent(c.flags)
    ensures var flags := Ask(c, call).0.flags;
      && FlagsValid(flags) && Persistent(flags)
      && flags == if call.AskCmos? then WithoutCmosClear(c.flags) else c.flags
  {
  }

  lemma WithoutTwice(f: BootFlags)
    ensures WithoutCmosClear(WithoutCmosClear(f)) == WithoutCmosClear(f)
  {
  }

  /** A query for the device clears the BIOS-handled acknowledge bit and no other; one for the
      CMOS request clears none. */
  lemma {:induction false} OnlyBiosAcknowledged(c: Chassis, calls: seq<Call>)
    ensures Final(c, calls).acks == if AskDevice in calls then c.acks & !HANDLED_BY_BIOS else c.acks
    decreases |calls|
  {
    if calls != [] {
      var c', rest := Ask(c, calls[0]).0, calls[1..];
      AcknowledgeStep(c, calls[0]);
      OnlyBiosAcknowledged(c', rest);
      AcknowledgeTwice(c.acks);
      assert Final(c, calls) == Final(c', rest);
      assert AskDevice in calls <==> calls[0] == AskDevice || AskDevice in rest;
    }
  }

  lemma AcknowledgeStep(c: Chassis, call: Call)
    ensures Ask(c, call).0.acks == if call.AskDevice? then c.acks & !HANDLED_BY_BIOS else c.acks
  {
  }

  lemma AcknowledgeTwice(b: bv8)
    ensures (b & !HANDLED_BY_BIOS) & !HANDLED_BY_BIOS == b & !HANDLED_BY_BIOS
  {
  }

  /** Asking for the CMOS request first never changes what the next query for the device returns. */
  lemma CmosQueryKeepsOverride(c: Chassis)
    ensures BootDevice(CmosClearOption(c).0).1 == BootDevice(c).1
    ensures FlagsValid(c.flags) && !Persistent(c.flags) ==> BootDevice(CmosClearOption(c).0).0 == BootDevice(c).0
  {
  }

  function Reports(answers: seq<Answer>): nat {
    if answers == [] then 0 else (if answers[0] == CmosIs(true) then 1 else 0) + Reports(answers[1..])
  }

  /** Whether somebody asks for the CMOS request before it is wiped with the flags. */
  predicate AskedInTime(calls: seq<Call>, persistent: bool) {
    calls != [] && (calls[0].AskCmos? || (persistent && AskedInTime(calls[1..], persistent)))
  }

  lemma {:induction false} NoRequestNoReport(c: Chassis, calls: seq<Call>)
    requires !FlagsValid(c.flags) || !CmosClear(c.flags)
    ensures Reports(Answers(c, calls)) == 0
    decreases |calls|
  {
    if calls != [] {
      var c' := Ask(c, calls[0]).0;
      assert !FlagsValid(c'.flags) || !CmosClear(c'.flags);
      NoRequestNoReport(c', calls[1..]);
      assert Answers(c, calls)[1..] == Answers(c', calls[1..]);
    }
  }

  /** A CMOS-clear request is reported at most once over any calls, and it is reported exactly
      when it is pending and asked for in time. */
  lemma {:induction false} CmosReportedOnce(c: Chassis, calls: seq<Call>)
    ensures Reports(Answers(c, calls)) ==
      if FlagsValid(c.flags) && CmosClear(c.flags) && AskedInTime(calls, Persistent(c.flags)) then 1 else 0
    decreases |calls|
  {
    if !FlagsValid(c.flags) || !CmosClear(c.flags) {
      NoRequestNoReport(c, calls);
    } else if calls != [] {
      var c' := Ask(c, calls[0]).0;
      ReportsStep(c, calls);
      if calls[0].AskCmos? || !Persistent(c.flags) {
        assert !FlagsValid(c'.flags) || !CmosClear(c'.flags);
        NoRequestNoReport(c', calls[1..]);
      } else {
        assert c'.flags == c.flags;
        CmosReportedOnce(c', calls[1..]);
      }
    }
  }

  lemma ReportsStep(c: Chassis, calls: seq<Call>)
    requires calls != []
    ensures var (c', answer) := Ask(c, calls[0]);
      Reports(Answers(c, calls)) == (if answer == CmosIs(true) then 1 else 0) + Reports(Answers(c', calls[1..]))
  {
    assert Answers(c, calls)[1..] == Answers(Ask(c, calls[0]).0, calls[1..]);
  }

  /** A pending request that is never reported: asking for the device first wipes it with the
      flags of an override that is not persistent. */
  lemma CmosRequestWiped()
    ensures var c := Chassis([0x80, 0x80, 0, 0, 0], 0);
      && FlagsValid(c.flags) && CmosClear(c.flags)
      && forall calls :: calls != [] && calls[0] == AskDevice ==> Reports(Answers(c, calls)) == 0
  {
    var c := Chassis([0x80, 0x80, 0, 0, 0], 0);
    forall calls: seq<Call> | calls != [] && calls[0] == AskDevice
      ensures Reports(Answers(c, calls)) == 0
    {
      CmosReportedOnce(c, calls);
    }
  }
}
