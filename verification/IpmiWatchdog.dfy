/** The watchdog library (IpmiWatchdogLib.c) and the DXE driver on top of it (WatchdogDxe.c). */
module IpmiWatchdog {
  import opened Bytes
  import opened MockWdt
  import opened WatchdogLifecycle
  import opened WatchdogFaults

  /** The command library's wrappers around the mock timer. */
  class Commands {
    const timer: Timer
    var faults: seq<Fault>

    ghost predicate Valid()
      reads this, timer
    {
      timer.Valid() && forall i :: 0 <= i < |faults| ==> Genuine(faults[i])
    }

    /** Nothing goes wrong from here on. */
    ghost predicate Reliable()
      reads this
    {
      faults == []
    }

    constructor (timer: Timer, faults: seq<Fault>)
      requires timer.Valid() && forall i :: 0 <= i < |faults| ==> Genuine(faults[i])
      ensures Valid() && this.timer == timer && this.faults == faults
    {
      this.timer, this.faults := timer, faults;
    }

    method NextFault() returns (fault: Fault)
      requires Valid()
      modifies this
      ensures Valid() && fault == FaultAt(old(faults), 0) && Genuine(fault) && faults == Later(old(faults))
    {
      fault := Fine;
      if faults != [] { fault, faults := faults[0], faults[1..]; }
    }

    method IpmiGetWatchdogTimer() returns (status: EfiStatus, code: byte, w: Watchdog)
      requires Valid()
      modifies this, timer
      ensures Valid() && faults == Later(old(faults))
      ensures Ends(FaultAt(old(faults), 0), status, code, old(timer.mWatchdog), timer.mWatchdog,
                   Get(old(timer.mWatchdog)))
      ensures match FaultAt(old(faults), 0)
        case Fine => w == timer.mWatchdog
        case NoResponse(_) => w == OFF
        case BadCode(_, junk) => w == junk
    {
      var fault := NextFault();
      match fault {
        case Fine =>
          w := timer.MockIpmiGetWatchdog();
          return Success, COMP_NORMAL, w;
        case NoResponse(failure) => return failure, COMP_NORMAL, OFF;
        case BadCode(bad, junk) => return Success, bad, junk;
      }
    }

    method IpmiSetWatchdogTimer(s: Setting) returns (status: EfiStatus, code: byte)
      requires Valid() && s.use < 8 && s.action < 8
      modifies this, timer
      ensures Valid() && faults == Later(old(faults))
      ensures Ends(FaultAt(old(faults), 0), status, code, old(timer.mWatchdog), timer.mWatchdog,
                   Set(old(timer.mWatchdog), s))
    {
      var fault := NextFault();
      match fault {
        case Fine =>
          timer.MockIpmiSetWatchdog(s);
          return Success, COMP_NORMAL;
        case NoResponse(failure) => return failure, COMP_NORMAL;
        case BadCode(bad, _) => return Success, bad;
      }
    }

    method IpmiResetWatchdogTimer() returns (status: EfiStatus, code: byte)
      requires Valid()
      modifies this, timer
      ensures Valid() && faults == Later(old(faults))
      ensures Ends(FaultAt(old(faults), 0), status, code, old(timer.mWatchdog), timer.mWatchdog,
                   Reset(old(timer.mWatchdog)))
    {
      var fault := NextFault();
      match fault {
        case Fine =>
          timer.MockIpmiResetWatchdog();
          return Success, COMP_NORMAL;
        case NoResponse(failure) => return failure, COMP_NORMAL;
        case BadCode(bad, _) => return Success, bad;
      }
    }
  }

  lemma LookingDoesNotMatter(w: Watchdog, s: Setting)
    ensures Set(Get(w), s) == Set(w, s)
  {
  }

  /** Success means that the timer was set up as asked and runs from its full count. */
  method IpmiEnableWatchdogTimer(c: Commands, use: byte, action: byte, clear: byte, seconds: uint16)
    returns (status: EfiStatus)
    requires c.Valid()
    modifies c, c.timer
    ensures c.Valid() && (old(c.Reliable()) ==> c.Reliable())
    ensures use == 0 || seconds == 0 ==> status == InvalidParameter && c.timer.mWatchdog == old(c.timer.mWatchdog)
    ensures status == Success ==>
      c.timer.mWatchdog.running && c.timer.mWatchdog.present == c.timer.mWatchdog.initial == (seconds * 10) % 0x1_0000
    ensures status == Success ==>
      c.timer.mWatchdog == Reset(Set(old(c.timer.mWatchdog), SettingFor(use, action, clear, seconds)))
    ensures var o := EnableUnder(old(c.timer.mWatchdog), use, action, clear, seconds, old(c.faults));
      c.timer.mWatchdog == o.w && (status == Success <==> o.ok) && c.faults == o.faults
    ensures old(c.Reliable()) ==>
      && c.timer.mWatchdog == Enable(old(c.timer.mWatchdog), use, action, clear, seconds)
      && (status == Success <==> use != 0 && seconds != 0)
  {
    if use == 0 || seconds == 0 { return InvalidParameter; }
    var setting := SettingFor(use, action, clear, seconds);
    var code, current;
    status, code, current := c.IpmiGetWatchdogTimer();
    if status != Success { return; }
    LookingDoesNotMatter(old(c.timer.mWatchdog), setting);
    status, code := c.IpmiSetWatchdogTimer(setting);
    if status != Success { return; }
    if code != COMP_NORMAL { return ProtocolError; }
    status, code := c.IpmiResetWatchdogTimer();
    if status != Success { return; }
    if code != COMP_NORMAL { return ProtocolError; }
  }

  /** Success can leave the timer running, exactly when the query failed with a bad completion
      code and what came with it reads as stopped: that code is not looked at. */
  method IpmiDisableWatchdogTimer(c: Commands, use: byte, clear: byte) returns (status: EfiStatus)
    requires c.Valid()
    modifies c, c.timer
    ensures c.Valid() && (old(c.Reliable()) ==> c.Reliable())
    ensures old(c.Reliable()) ==>
      && status == Success && !c.timer.mWatchdog.running
      && c.timer.mWatchdog == Disable(old(c.timer.mWatchdog), use, clear)
    ensures status == Success && c.timer.mWatchdog.running
            <==> Misleads(FaultAt(old(c.faults), 0)) && old(c.timer.mWatchdog.running)
    ensures Misleads(FaultAt(old(c.faults), 0)) ==> status == Success && c.timer.mWatchdog == old(c.timer.mWatchdog)
    ensures var o := DisableUnder(old(c.timer.mWatchdog), use, clear, old(c.faults));
      c.timer.mWatchdog == o.w && (status == Success <==> o.ok) && c.faults == o.faults
  {
    var code, current;
    status, code, current := c.IpmiGetWatchdogTimer();
    if status != Success { return; }
    if !current.running { return Success; }
    status, code := c.IpmiSetWatchdogTimer(SettingFor(use, 0, clear, 0));
    if status != Success { return; }
    if code != COMP_NORMAL { return ProtocolError; }
  }

  class WatchdogDxe {
    const commands: Commands
    var mWatchdogPolicy: Policy
    var mReadyToBootEvent: bool       // the callback is registered
    var mExitBootServicesEvent: bool

    ghost predicate Valid()
      reads this, commands, commands.timer
    {
      commands.Valid()
    }

    ghost function State(): Boot
      reads this, commands, commands.timer
    {
      Boot(commands.timer.mWatchdog, mReadyToBootEvent, mExitBootServicesEvent)
    }

    constructor (commands: Commands)
      requires commands.Valid()
      ensures Valid() && this.commands == commands && !mReadyToBootEvent && !mExitBootServicesEvent
    {
      this.commands := commands;
      mWatchdogPolicy := Policy(false, 0, 0, false, 0, 0);
      mReadyToBootEvent, mExitBootServicesEvent := false, false;
    }

    /** `policy` is what the policy service returns, or else its error; the two other statuses are
        what registering the callbacks comes to. */
    method IpmiWatchdogDxeEntryPoint(policy: Option<Policy>, policyError: EfiStatus, readyStatus: EfiStatus,
                                     exitStatus: EfiStatus)
      returns (status: EfiStatus)
      requires Valid() && !mReadyToBootEvent && !mExitBootServicesEvent && policyError != Success
      modifies this, commands, commands.timer
      ensures Valid() && (old(commands.Reliable()) ==> commands.Reliable())
      ensures policy.None? ==>
        status == policyError && State() == old(State()) && commands.faults == old(commands.faults)
      ensures policy.Some? ==>
        && mWatchdogPolicy == policy.value
        && Entered(State(), status, commands.faults)
           == EntryUnder(old(commands.timer.mWatchdog), policy.value, old(commands.faults), readyStatus, exitStatus)
      ensures status == Success ==> mReadyToBootEvent && mExitBootServicesEvent && policy == Some(mWatchdogPolicy)
      ensures policy.Some? && old(commands.Reliable()) && readyStatus == exitStatus == Success ==>
        status == Success && State() == Entry(old(commands.timer.mWatchdog), policy.value)
    {
      if policy.None? { return policyError; }
      mWatchdogPolicy := policy.value;
      status := EnterChecked(readyStatus, exitStatus);
    }

    /** What follows from the specification for success and for an entry without faults. */
    method EnterChecked(readyStatus: EfiStatus, exitStatus: EfiStatus) returns (status: EfiStatus)
      requires Valid() && !mReadyToBootEvent && !mExitBootServicesEvent
      modifies this`mReadyToBootEvent, this`mExitBootServicesEvent, commands, commands.timer
      ensures Valid()
      ensures Entered(State(), status, commands.faults)
              == EntryUnder(old(commands.timer.mWatchdog), mWatchdogPolicy, old(commands.faults), readyStatus,
                            exitStatus)
      ensures status == Success <==> mReadyToBootEvent && mExitBootServicesEvent
      ensures old(commands.Reliable()) && readyStatus == exitStatus == Success ==>
        status == Success && State() == Entry(old(commands.timer.mWatchdog), mWatchdogPolicy)
      ensures old(commands.Reliable()) ==> commands.Reliable()
    {
      ghost var w, faults := commands.timer.mWatchdog, commands.faults;
      status := Enter(readyStatus, exitStatus);
      EntryByFaults(w, mWatchdogPolicy, faults, readyStatus, exitStatus);
      if faults == [] { EntryUnderNone(w, mWatchdogPolicy, readyStatus, exitStatus); }
    }

    /** The rest of the entry point, with the policy at hand. */
    method Enter(readyStatus: EfiStatus, exitStatus: EfiStatus) returns (status: EfiStatus)
      requires Valid() && !mReadyToBootEvent && !mExitBootServicesEvent
      modifies this`mReadyToBootEvent, this`mExitBootServicesEvent, commands, commands.timer
      ensures Valid()
      ensures Entered(State(), status, commands.faults)
              == EntryUnder(old(commands.timer.mWatchdog), mWatchdogPolicy, old(commands.faults), readyStatus,
                            exitStatus)
    {
      var w;
      status, w := Query();
      if status != Success { return; }
      status := StartAndRegister(w.running, readyStatus, exitStatus);
    }

    method Query() returns (status: EfiStatus, w: Watchdog)
      requires Valid()
      modifies commands, commands.timer
      ensures Valid() && commands.faults == Later(old(commands.faults))
      ensures WatchdogFaults.Query(commands.timer.mWatchdog, status, w.running)
              == QueryUnder(old(commands.timer.mWatchdog), FaultAt(old(commands.faults), 0))
    {
      var code;
      status, code, w := commands.IpmiGetWatchdogTimer();
    }

    /** And after the first query. */
    method StartAndRegister(running: bool, readyStatus: EfiStatus, exitStatus: EfiStatus) returns (status: EfiStatus)
      requires Valid() && !mReadyToBootEvent && !mExitBootServicesEvent
      modifies this`mReadyToBootEvent, this`mExitBootServicesEvent, commands, commands.timer
      ensures Valid()
      ensures Entered(State(), status, commands.faults)
              == EntryWith(old(commands.timer.mWatchdog), running, mWatchdogPolicy, old(commands.faults), readyStatus,
                           exitStatus)
    {
      if mWatchdogPolicy.frb2Enabled && !running {
        var _ := IpmiEnableWatchdogTimer(commands, USE_BIOS_FRB2, mWatchdogPolicy.frb2Action, FLAG_BIOS_FRB2,
                                         mWatchdogPolicy.frb2Seconds);
      }
      status := Register(readyStatus, exitStatus);
    }

    /** Query the timer once more and register the callbacks. */
    method Register(readyStatus: EfiStatus, exitStatus: EfiStatus) returns (status: EfiStatus)
      requires Valid() && !mReadyToBootEvent && !mExitBootServicesEvent
      modifies this`mReadyToBootEvent, this`mExitBootServicesEvent, commands, commands.timer
      ensures Valid()
      ensures Entered(State(), status, commands.faults)
              == RegisterUnder(old(commands.timer.mWatchdog), old(commands.faults), readyStatus, exitStatus)
    {
      var code, w;
      status, code, w := commands.IpmiGetWatchdogTimer();
      if status != Success { return; }
      if code != COMP_NORMAL { return ProtocolError; }
      if readyStatus != Success { return readyStatus; }
      mReadyToBootEvent := true;
      if exitStatus != Success { return exitStatus; }
      mExitBootServicesEvent := true;
    }

    /** The callback closes when the timer was stopped or is believed stopped; believed wrongly
        exactly after a misleading query. */
    method DisableFrb2WatchdogTimer()
      requires Valid() && mReadyToBootEvent
      modifies this`mReadyToBootEvent, commands, commands.timer
      ensures Valid() && (old(commands.Reliable()) ==> commands.Reliable())
      ensures old(commands.Reliable()) ==> State() == React(old(State()), mWatchdogPolicy, ReadyToBoot)
      ensures !mReadyToBootEvent && commands.timer.mWatchdog.running
              <==> Misleads(FaultAt(old(commands.faults), 0)) && old(commands.timer.mWatchdog.running)
      ensures (State(), commands.faults)
              == ReactUnder(old(State()), mWatchdogPolicy, ReadyToBoot, old(commands.faults))
    {
      var status := IpmiDisableWatchdogTimer(commands, USE_BIOS_FRB2, FLAG_BIOS_FRB2);
      if status == Success { mReadyToBootEvent := false; }
    }

    method EnableOsWatchdogTimer()
      requires Valid() && mExitBootServicesEvent
      modifies this`mExitBootServicesEvent, commands, commands.timer
      ensures Valid() && !mExitBootServicesEvent && (old(commands.Reliable()) ==> commands.Reliable())
      ensures old(commands.Reliable()) ==> State() == React(old(State()), mWatchdogPolicy, ExitBootServices)
      ensures (State(), commands.faults)
              == ReactUnder(old(State()), mWatchdogPolicy, ExitBootServices, old(commands.faults))
    {
      if mWatchdogPolicy.osEnabled {
        var _ := IpmiEnableWatchdogTimer(commands, USE_OS_LOADER, mWatchdogPolicy.osAction, FLAG_OS_LOAD,
                                         mWatchdogPolicy.osSeconds);
      }
      mExitBootServicesEvent := false;
    }

    /** The boot's signals reach whichever callback is still registered. Whatever goes wrong short
        of a misleading query, once the ReadyToBoot callback is closed no timer runs but the OS
        loader's, as the policy asks for it. */
    method Boots(signals: seq<Signal>)
      requires Valid()
      modifies this, commands, commands.timer
      ensures Valid() && mWatchdogPolicy == old(mWatchdogPolicy)
      ensures (State(), commands.faults) == RunUnder(old(State()), mWatchdogPolicy, signals, old(commands.faults))
      ensures old(commands.Reliable()) ==> State() == Run(old(State()), mWatchdogPolicy, signals)
      ensures NeverMisled(old(commands.faults)) && Guarded(old(State()), mWatchdogPolicy) ==>
        Guarded(State(), mWatchdogPolicy)
    {
      ghost var start, faults := State(), commands.faults;
      for i := 0 to |signals|
        invariant Valid() && mWatchdogPolicy == old(mWatchdogPolicy)
        invariant RunUnder(State(), mWatchdogPolicy, signals[i..], commands.faults)
                  == RunUnder(start, mWatchdogPolicy, signals, faults)
      {
        if signals[i] == ReadyToBoot && mReadyToBootEvent { DisableFrb2WatchdogTimer(); }
        else if signals[i] == ExitBootServices && mExitBootServicesEvent { EnableOsWatchdogTimer(); }
        assert signals[i..][1..] == signals[i + 1..];
      }
      if faults == [] { RunUnderNone(start, mWatchdogPolicy, signals); }
      if NeverMisled(faults) && Guarded(start, mWatchdogPolicy) {
        NeverAnotherTimer(start, mWatchdogPolicy, signals, faults);
      }
    }
  }
}
