/** The life of the watchdog timer through a boot in which any command may go wrong. */
module WatchdogFaults {
  import opened Bytes
  import opened MockWdt
  import opened WatchdogLifecycle

  /** How one command can go wrong: no response, or a completion code other than normal and
      nothing to rely on in the rest of the response. */
  datatype Fault = Fine | NoResponse(status: EfiStatus) | BadCode(code: byte, junk: Watchdog)

  /** The n-th command from here on goes this way. */
  function FaultAt(faults: seq<Fault>, n: nat): Fault {
    if n < |faults| then faults[n] else Fine
  }

  function Later(faults: seq<Fault>): seq<Fault> {
    if faults == [] then [] else faults[1..]
  }

  /** The fault is one: a failure status, a code other than normal. */
  predicate Genuine(f: Fault) {
    match f
    case Fine => true
    case NoResponse(status) => status != Success
    case BadCode(code, _) => code != COMP_NORMAL
  }

  /** How a command ends that would take the timer from `before` to `done`. */
  predicate Ends(f: Fault, status: EfiStatus, code: byte, before: Watchdog, after: Watchdog, done: Watchdog) {
    match f
    case Fine => status == Success && code == COMP_NORMAL && after == done
    case NoResponse(failure) => status == failure != Success && after == before
    case BadCode(bad, _) => status == Success && code == bad != COMP_NORMAL && after == before
  }

  /** A failed query for the timer whose response happens to read as stopped. */
  predicate Misleads(f: Fault) {
    f.BadCode? && !f.junk.running
  }

  ghost predicate NeverMisled(faults: seq<Fault>) {
    forall i :: 0 <= i < |faults| ==> !Misleads(faults[i])
  }

  // ---- What faults make of the library's two routines ----

  /** The timer, whether the routine reports success, and the faults that are left. */
  datatype Outcome = Outcome(w: Watchdog, ok: bool, faults: seq<Fault>)

  function SetUnder(w: Watchdog, s: Setting, faults: seq<Fault>): Outcome {
    var fine := FaultAt(faults, 0).Fine?;
    Outcome(if fine then Set(w, s) else w, fine, Later(faults))
  }

  function ResetUnder(w: Watchdog, faults: seq<Fault>): Outcome {
    var fine := FaultAt(faults, 0).Fine?;
    Outcome(if fine then Reset(w) else w, fine, Later(faults))
  }

  /** The completion code of the query is not looked at, and neither is the setting it returns. */
  function EnableUnder(w: Watchdog, use: byte, action: byte, clear: byte, seconds: uint16, faults: seq<Fault>): Outcome
  {
    if use == 0 || seconds == 0 then Outcome(w, false, faults)
    else if FaultAt(faults, 0).NoResponse? then Outcome(w, false, Later(faults))
    else
      var queried := if FaultAt(faults, 0).Fine? then Get(w) else w;
      var o := SetUnder(queried, SettingFor(use, action, clear, seconds), Later(faults));
      if o.ok then ResetUnder(o.w, o.faults) else o
  }

  function DisableUnder(w: Watchdog, use: byte, clear: byte, faults: seq<Fault>): Outcome {
    match FaultAt(faults, 0)
    case NoResponse(_) => Outcome(w, false, Later(faults))
    case BadCode(_, junk) =>
      if junk.running then SetUnder(w, SettingFor(use, 0, clear, 0), Later(faults)) else Outcome(w, true, Later(faults))
    case Fine =>
      if Get(w).running then SetUnder(Get(w), SettingFor(use, 0, clear, 0), Later(faults))
      else Outcome(Get(w), true, Later(faults))
  }

  /** When they succeed, and what they leave, read off the faults: enabling needs an answer of any
      kind to the query and then two commands that go well; a timer that was set and not started is
      stopped. */
  lemma EnableByFaults(w: Watchdog, use: byte, action: byte, clear: byte, seconds: uint16, faults: seq<Fault>)
    requires 0 < use < 8 && seconds != 0
    ensures var o := EnableUnder(w, use, action, clear, seconds, faults);
      var count := seconds * 10 % 0x1_0000;
      && (o.ok <==> !FaultAt(faults, 0).NoResponse? && FaultAt(faults, 1).Fine? && FaultAt(faults, 2).Fine?)
      && (o.ok ==> o.w == Watchdog(use, true, action % 8, Cleared(w.expired, clear), count, count))
      && (!o.ok && !FaultAt(faults, 0).NoResponse? && FaultAt(faults, 1).Fine? ==>
            o.w == Watchdog(use, false, action % 8, Cleared(w.expired, clear), count, count))
      && (FaultAt(faults, 0).NoResponse? ==> o.w == w)
      && (!FaultAt(faults, 1).Fine? ==> o.w == w || o.w == Get(w))
  {
  }

  /** Disabling takes the timer for stopped if the query's response says so, whatever its code, and
      needs the second command to go well otherwise. */
  lemma DisableByFaults(w: Watchdog, use: byte, clear: byte, faults: seq<Fault>)
    requires use < 8
    ensures var o := DisableUnder(w, use, clear, faults);
      var f := FaultAt(faults, 0);
      var believedStopped := if f.BadCode? then !f.junk.running else !w.running;
      && (o.ok <==> !f.NoResponse? && (believedStopped || FaultAt(faults, 1).Fine?))
      && (o.ok && !believedStopped ==> o.w == Watchdog(use, false, 0, Cleared(w.expired, clear), 0, 0))
      && (!o.ok || believedStopped ==> o.w == w || (f.Fine? && o.w == Get(w)))
  {
  }

  // ---- The entry point ----

  datatype Entered = Entered(boot: Boot, status: EfiStatus, faults: seq<Fault>)

  /** `ready` and `exit` are what registering the two callbacks comes to. */
  function EntryUnder(w: Watchdog, p: Policy, faults: seq<Fault>, ready: EfiStatus, exit: EfiStatus): Entered {
    var q := QueryUnder(w, FaultAt(faults, 0));
    if q.status != Success then Entered(Boot(q.w, false, false), q.status, Later(faults))
    else EntryWith(q.w, q.running, p, Later(faults), ready, exit)
  }

  /** A query: the timer afterwards, its status, and whether a timer runs as far as the response tells. */
  datatype Query = Query(w: Watchdog, status: EfiStatus, running: bool)

  function QueryUnder(w: Watchdog, f: Fault): Query {
    match f
    case NoResponse(status) => Query(w, status, false)
    case BadCode(_, junk) => Query(w, Success, junk.running)
    case Fine => Query(Get(w), Success, Get(w).running)
  }

  /** From the first query on; `running` is what it said. */
  function EntryWith(w: Watchdog, running: bool, p: Policy, faults: seq<Fault>, ready: EfiStatus, exit: EfiStatus):
    Entered
  {
    var o := if p.frb2Enabled && !running
             then EnableUnder(w, USE_BIOS_FRB2, p.frb2Action, FLAG_BIOS_FRB2, p.frb2Seconds, faults)
             else Outcome(w, true, faults);
    RegisterUnder(o.w, o.faults, ready, exit)
  }

  /** The second query, and the callbacks if it goes well. */
  function RegisterUnder(w: Watchdog, faults: seq<Fault>, ready: EfiStatus, exit: EfiStatus): Entered {
    match FaultAt(faults, 0)
    case NoResponse(status) => Entered(Boot(w, false, false), status, Later(faults))
    case BadCode(_, _) => Entered(Boot(w, false, false), ProtocolError, Later(faults))
    case Fine =>
      Entered(Boot(Get(w), ready == Success, ready == exit == Success),
              if ready != Success then ready else exit, Later(faults))
  }

  /** Without faults it is the lifecycle's entry. */
  lemma EntryUnderNone(w: Watchdog, p: Policy, ready: EfiStatus, exit: EfiStatus)
    ensures EntryUnder(w, p, [], ready, exit).faults == []
    ensures ready == exit == Success ==> EntryUnder(w, p, [], ready, exit) == Entered(Entry(w, p), Success, [])
  {
  }

  /** What the second half of the entry point does to a timer: one that was stopped runs afterwards
      only as the policy's FRB2 timer, and one that was running keeps running as it was set if the
      query said so or FRB2 is not to be enabled. */
  lemma EntryWithTimer(w: Watchdog, running: bool, p: Policy, faults: seq<Fault>, ready: EfiStatus, exit: EfiStatus)
    ensures var after := EntryWith(w, running, p, faults, ready, exit).boot.w;
      && (!w.running && after.running ==> p.frb2Enabled && p.frb2Seconds != 0 && IsFrb2Timer(after, p))
      && (w.running && (running || !p.frb2Enabled || p.frb2Seconds == 0) ==> after.running && SameSetting(w, after))
  {
    if p.frb2Enabled && !running {
      EnableFrb2(w, p, faults);
      var o := EnableUnder(w, USE_BIOS_FRB2, p.frb2Action, FLAG_BIOS_FRB2, p.frb2Seconds, faults);
      RegisterLooks(o.w, o.faults, ready, exit);
    } else {
      RegisterLooks(w, faults, ready, exit);
    }
  }

  lemma RegisterLooks(w: Watchdog, faults: seq<Fault>, ready: EfiStatus, exit: EfiStatus)
    ensures var after := RegisterUnder(w, faults, ready, exit).boot.w;
      after.running == w.running && SameSetting(w, after)
  {
  }

  lemma EnableFrb2(w: Watchdog, p: Policy, faults: seq<Fault>)
    ensures var after := EnableUnder(w, USE_BIOS_FRB2, p.frb2Action, FLAG_BIOS_FRB2, p.frb2Seconds, faults).w;
      && (p.frb2Seconds == 0 ==> after == w)
      && (!w.running && after.running ==> p.frb2Seconds != 0 && IsFrb2Timer(after, p))
  {
  }

  predicate IsFrb2Timer(w: Watchdog, p: Policy) {
    w.use == 1 && w.action == p.frb2Action % 8 && w.initial == p.frb2Seconds * 10 % 0x1_0000
  }

  predicate SameSetting(w: Watchdog, w': Watchdog) {
    w'.use == w.use && w'.action == w.action && w'.initial == w.initial
  }

  lemma EntryWithStatus(w: Watchdog, running: bool, p: Policy, faults: seq<Fault>, ready: EfiStatus, exit: EfiStatus)
    requires forall i :: 0 <= i < |faults| ==> Genuine(faults[i])
    ensures var e := EntryWith(w, running, p, faults, ready, exit);
      e.status == Success <==> e.boot.readyToBoot && e.boot.exitBootServices
  {
    LaterGenuine(faults);
    LaterGenuine(Later(faults));
    LaterGenuine(Later(Later(faults)));
    assert Genuine(FaultAt(faults, 0)) && Genuine(FaultAt(Later(faults), 0));
    assert Genuine(FaultAt(Later(Later(faults)), 0)) && Genuine(FaultAt(Later(Later(Later(faults))), 0));
  }

  /** Whatever goes wrong: success means that both callbacks are registered; a timer that was
      stopped runs afterwards only as the policy's FRB2 timer; and one that was running keeps
      running as it was set, unless a misleading query has it set anew for FRB2. */
  lemma EntryByFaults(w: Watchdog, p: Policy, faults: seq<Fault>, ready: EfiStatus, exit: EfiStatus)
    requires forall i :: 0 <= i < |faults| ==> Genuine(faults[i])
    ensures var e := EntryUnder(w, p, faults, ready, exit);
      && (e.status == Success <==> e.boot.readyToBoot && e.boot.exitBootServices)
      && (!w.running && e.boot.w.running ==> p.frb2Enabled && p.frb2Seconds != 0 && IsFrb2Timer(e.boot.w, p))
      && (w.running && !(p.frb2Enabled && p.frb2Seconds != 0 && Misleads(FaultAt(faults, 0))) ==>
            e.boot.w.running && SameSetting(w, e.boot.w))
  {
    match FaultAt(faults, 0)
    case NoResponse(_) =>
      assert Genuine(faults[0]);
    case BadCode(_, junk) =>
      LaterGenuine(faults);
      EntryWithTimer(w, junk.running, p, Later(faults), ready, exit);
      EntryWithStatus(w, junk.running, p, Later(faults), ready, exit);
    case Fine =>
      LaterGenuine(faults);
      EntryWithTimer(Get(w), Get(w).running, p, Later(faults), ready, exit);
      EntryWithStatus(Get(w), Get(w).running, p, Later(faults), ready, exit);
  }

  /** And a stopped timer is started as the policy says, if the query says that it is stopped and
      the three commands of enabling it go well, whatever goes wrong after that. */
  lemma EntryStartsFrb2(w: Watchdog, p: Policy, faults: seq<Fault>, ready: EfiStatus, exit: EfiStatus)
    requires p.frb2Enabled && p.frb2Seconds != 0 && !w.running
    requires FaultAt(faults, 0).Fine? || Misleads(FaultAt(faults, 0))
    requires !FaultAt(Later(faults), 0).NoResponse?
    requires FaultAt(Later(faults), 1).Fine? && FaultAt(Later(faults), 2).Fine?
    ensures var after := EntryUnder(w, p, faults, ready, exit).boot.w; after.running && IsFrb2Timer(after, p)
  {
    EnableByFaults(w, USE_BIOS_FRB2, p.frb2Action, FLAG_BIOS_FRB2, p.frb2Seconds, Later(faults));
    var o := EnableUnder(w, USE_BIOS_FRB2, p.frb2Action, FLAG_BIOS_FRB2, p.frb2Seconds, Later(faults));
    RegisterLooks(o.w, o.faults, ready, exit);
  }

  lemma LaterGenuine(faults: seq<Fault>)
    requires forall i :: 0 <= i < |faults| ==> Genuine(faults[i])
    ensures forall i :: 0 <= i < |Later(faults)| ==> Genuine(Later(faults)[i])
  {
    if faults != [] {
      assert forall i :: 0 <= i < |faults[1..]| ==> faults[1..][i] == faults[i + 1];
    }
  }

  // ---- The boot ----

  function ReactUnder(b: Boot, p: Policy, s: Signal, faults: seq<Fault>): (Boot, seq<Fault>) {
    match s
    case ReadyToBoot =>
      if !b.readyToBoot then (b, faults)
      else
        var o := DisableUnder(b.w, USE_BIOS_FRB2, FLAG_BIOS_FRB2, faults);
        (b.(w := o.w, readyToBoot := !o.ok), o.faults)
    case ExitBootServices =>
      if !b.exitBootServices then (b, faults)
      else if !p.osEnabled then (b.(exitBootServices := false), faults)
      else
        var o := EnableUnder(b.w, USE_OS_LOADER, p.osAction, FLAG_OS_LOAD, p.osSeconds, faults);
        (b.(w := o.w, exitBootServices := false), o.faults)
  }

  function RunUnder(b: Boot, p: Policy, signals: seq<Signal>, faults: seq<Fault>): (Boot, seq<Fault>)
    decreases |signals|
  {
    if signals == [] then (b, faults)
    else var (b', faults') := ReactUnder(b, p, signals[0], faults); RunUnder(b', p, signals[1..], faults')
  }

  /** Without faults a run is that of the lifecycle. */
  lemma {:induction false} RunUnderNone(b: Boot, p: Policy, signals: seq<Signal>)
    ensures RunUnder(b, p, signals, []) == (Run(b, p, signals), [])
    decreases |signals|
  {
    if signals != [] {
      assert ReactUnder(b, p, signals[0], []) == (React(b, p, signals[0]), []);
      RunUnderNone(React(b, p, signals[0]), p, signals[1..]);
    }
  }

  /** Once the ReadyToBoot callback is closed, the only timer that runs is the one the policy asks
      for, started by ExitBootServices and untouched since. */
  predicate Guarded(b: Boot, p: Policy) {
    !b.readyToBoot && b.w.running ==> !b.exitBootServices && OsTimerWanted(p) && OsTimerAsConfigured(b.w, p)
  }

  lemma ReactKeepsGuarded(b: Boot, p: Policy, s: Signal, faults: seq<Fault>)
    requires Guarded(b, p) && NeverMisled(faults)
    ensures var (b', faults') := ReactUnder(b, p, s, faults); Guarded(b', p) && NeverMisled(faults')
  {
    LaterNeverMisled(faults);
    LaterNeverMisled(Later(faults));
    LaterNeverMisled(Later(Later(faults)));
  }

  lemma LaterNeverMisled(faults: seq<Fault>)
    requires NeverMisled(faults)
    ensures NeverMisled(Later(faults)) && !Misleads(FaultAt(faults, 0))
  {
    if faults != [] {
      assert forall i :: 0 <= i < |faults[1..]| ==> faults[1..][i] == faults[i + 1];
    }
  }

  /** Over any signals, whatever goes wrong short of a misleading query. */
  lemma {:induction false} NeverAnotherTimer(b: Boot, p: Policy, signals: seq<Signal>, faults: seq<Fault>)
    requires Guarded(b, p) && NeverMisled(faults)
    ensures Guarded(RunUnder(b, p, signals, faults).0, p)
    decreases |signals|
  {
    if signals != [] {
      ReactKeepsGuarded(b, p, signals[0], faults);
      var (b', faults') := ReactUnder(b, p, signals[0], faults);
      NeverAnotherTimer(b', p, signals[1..], faults');
    }
  }

  /** Of signals to callbacks that are closed nothing comes. */
  lemma {:induction false} ClosedUnder(b: Boot, p: Policy, signals: seq<Signal>, faults: seq<Fault>)
    requires !b.readyToBoot && (!b.exitBootServices || ExitBootServices !in signals)
    ensures RunUnder(b, p, signals, faults) == (b, faults)
    decreases |signals|
  {
    if signals != [] { ClosedUnder(b, p, signals[1..], faults); }
  }

  /** Over ReadyToBoot signals alone: as long as the callback is open the timer runs as it did,
      and when it closes the timer is stopped, unless the query that closed it misled; then it
      keeps running. */
  lemma {:induction false} ReadyToBootUnder(b: Boot, p: Policy, signals: seq<Signal>, faults: seq<Fault>)
    requires b.readyToBoot && b.w.running && ExitBootServices !in signals
    ensures var b' := RunUnder(b, p, signals, faults).0;
      && (b'.readyToBoot ==> b'.w.running)
      && (NeverMisled(faults) && !b'.readyToBoot ==> !b'.w.running)
      && (signals != [] && Misleads(FaultAt(faults, 0)) ==> !b'.readyToBoot && b'.w.running)
    decreases |signals|
  {
    if signals != [] {
      assert signals[0] == ReadyToBoot;
      var (b', faults') := ReactUnder(b, p, ReadyToBoot, faults);
      if NeverMisled(faults) { ReactKeepsGuarded(b, p, ReadyToBoot, faults); }
      if b'.readyToBoot {
        ReadyToBootUnder(b', p, signals[1..], faults');
      } else {
        ClosedUnder(b', p, signals[1..], faults');
      }
    }
  }

  /** The first reaction to break the guard, if any does, is one to a misleading query. */
  lemma GuardBrokenIffMisled(b: Boot, p: Policy, s: Signal, faults: seq<Fault>)
    requires Guarded(b, p)
    ensures !Guarded(ReactUnder(b, p, s, faults).0, p)
            <==> s == ReadyToBoot && b.readyToBoot && b.w.running && Misleads(FaultAt(faults, 0))
                 && !(!b.exitBootServices && OsTimerWanted(p) && OsTimerAsConfigured(b.w, p))
  {
  }
}
