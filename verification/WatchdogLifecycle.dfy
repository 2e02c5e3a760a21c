/** The life of the watchdog timer through a boot, when every command succeeds: the DXE entry
    point, then ReadyToBoot and ExitBootServices signals in any order and number. */
module WatchdogLifecycle {
  import opened Bytes
  import opened MockWdt

  datatype Policy = Policy(frb2Enabled: bool, frb2Action: byte, frb2Seconds: uint16,
                           osEnabled: bool, osAction: byte, osSeconds: uint16)

  /** Seconds to units of 100 ms in sixteen bits; three bits of use and action. */
  function SettingFor(use: byte, action: byte, clear: byte, seconds: uint16): (s: Setting)
    ensures s.use < 8 && s.action < 8
  {
    Setting(use % 8, action % 8, clear, (seconds * 10) % 0x1_0000)
  }

  function Enable(w: Watchdog, use: byte, action: byte, clear: byte, seconds: uint16): Watchdog {
    if use == 0 || seconds == 0 then w else Reset(Set(Get(w), SettingFor(use, action, clear, seconds)))
  }

  /** Whatever timer is running is stopped, whatever use it was started for. */
  function Disable(w: Watchdog, use: byte, clear: byte): Watchdog {
    if !Get(w).running then Get(w) else Set(Get(w), SettingFor(use, 0, clear, 0))
  }

  /** The timer and the two callbacks. */
  datatype Boot = Boot(w: Watchdog, readyToBoot: bool, exitBootServices: bool)

  function Entry(w: Watchdog, p: Policy): Boot {
    var w1 := Get(w);
    var w2 := if p.frb2Enabled && !w1.running
              then Enable(w1, USE_BIOS_FRB2, p.frb2Action, FLAG_BIOS_FRB2, p.frb2Seconds) else w1;
    Boot(Get(w2), true, true)
  }

  datatype Signal = ReadyToBoot | ExitBootServices

  function React(b: Boot, p: Policy, s: Signal): Boot {
    match s
    case ReadyToBoot =>
      if b.readyToBoot then b.(w := Disable(b.w, USE_BIOS_FRB2, FLAG_BIOS_FRB2), readyToBoot := false) else b
    case ExitBootServices =>
      if !b.exitBootServices then b
      else
        var w := if p.osEnabled then Enable(b.w, USE_OS_LOADER, p.osAction, FLAG_OS_LOAD, p.osSeconds) else b.w;
        b.(w := w, exitBootServices := false)
  }

  function Run(b: Boot, p: Policy, signals: seq<Signal>): Boot
    decreases |signals|
  {
    if signals == [] then b else Run(React(b, p, signals[0]), p, signals[1..])
  }

  // ---- The countdown ----

  datatype Command = GetTimer | SetTimer(s: Setting) | ResetTimer

  function Commanded(w: Watchdog, commands: seq<Command>): Watchdog
    decreases |commands|
  {
    if commands == [] then w else Commanded(Commanding(w, commands[0]), commands[1..])
  }

  function Commanding(w: Watchdog, c: Command): Watchdog {
    match c
    case GetTimer => Get(w)
    case SetTimer(s) => Set(w, s)
    case ResetTimer => Reset(w)
  }

  predicate FieldsFit(c: Command) { c.SetTimer? ==> c.s.use < 8 && c.s.action < 8 }

  /** In every state any commands can reach, the count left is at most the count set. */
  lemma {:induction false} CountdownBounded(w: Watchdog, commands: seq<Command>)
    requires ValidWatchdog(w) && forall i :: 0 <= i < |commands| ==> FieldsFit(commands[i])
    ensures ValidWatchdog(Commanded(w, commands))
    decreases |commands|
  {
    if commands != [] {
      assert FieldsFit(commands[0]);
      CountdownBounded(Commanding(w, commands[0]), commands[1..]);
    }
  }

  // ---- The boot ----

  /** What the entry point leaves, read off the policy: a stopped timer is started for FRB2 (use 1)
      exactly if the policy enables that with a non-zero time, as the policy says and with the FRB2
      expiration flag (bit 1) cleared; otherwise it stays stopped; and a running timer keeps its
      setting. In the end the timer has been looked at once more. */
  lemma EntryByPolicy(w: Watchdog, p: Policy)
    requires ValidWatchdog(w)
    ensures var b := Entry(w, p);
      && b.readyToBoot && b.exitBootServices
      && (w.running ==>
            && b.w.running && b.w.use == w.use && b.w.action == w.action && b.w.initial == w.initial
            && b.w.expired == w.expired && b.w.present == if w.present > 2 then w.present - 2 else 0)
      && (!w.running && p.frb2Enabled && p.frb2Seconds != 0 ==>
            && b.w.running && b.w.use == 1 && b.w.action == p.frb2Action % 8
            && b.w.initial == p.frb2Seconds * 10 % 0x1_0000 && b.w.expired == Cleared(w.expired, 0x02)
            && b.w.present == if b.w.initial > 0 then b.w.initial - 1 else 0)
      && (!w.running && !(p.frb2Enabled && p.frb2Seconds != 0) ==> b.w == w)
  {
  }

  /** What enabling and disabling set: the use, the action, the expiration flags cleared and the
      count, in units of 100 ms. */
  lemma SettingsByArguments(w: Watchdog, use: byte, action: byte, clear: byte, seconds: uint16)
    requires 0 < use < 8
    ensures seconds != 0 ==>
      var count := seconds * 10 % 0x1_0000;
      Enable(w, use, action, clear, seconds)
      == Watchdog(use, true, action % 8, Cleared(w.expired, clear), count, count)
    ensures seconds == 0 ==> Enable(w, use, action, clear, seconds) == w
    ensures w.running ==> Disable(w, use, clear) == Watchdog(use, false, 0, Cleared(w.expired, clear), 0, 0)
    ensures !w.running ==> Disable(w, use, clear) == w
  {
  }

  /** What the two signals do while their callbacks are registered: ReadyToBoot stops a running
      timer, for FRB2 (use 1, flag bit 1); ExitBootServices starts one for the OS loader (use 3,
      flag bit 3) if the policy wants it. */
  lemma ReactionsByPolicy(b: Boot, p: Policy)
    ensures b.readyToBoot ==>
      var stopped := if b.w.running then Watchdog(1, false, 0, Cleared(b.w.expired, 0x02), 0, 0) else b.w;
      React(b, p, ReadyToBoot) == b.(readyToBoot := false, w := stopped)
    ensures b.exitBootServices ==>
      var count := p.osSeconds * 10 % 0x1_0000;
      var started := if p.osEnabled && p.osSeconds != 0
                     then Watchdog(3, true, p.osAction % 8, Cleared(b.w.expired, 0x08), count, count) else b.w;
      React(b, p, ExitBootServices) == b.(exitBootServices := false, w := started)
    ensures !b.readyToBoot ==> React(b, p, ReadyToBoot) == b
    ensures !b.exitBootServices ==> React(b, p, ExitBootServices) == b
  {
  }

  lemma {:induction false} OnlyReadyToBoot(b: Boot, p: Policy, signals: seq<Signal>)
    requires !b.readyToBoot && ExitBootServices !in signals
    ensures Run(b, p, signals) == b
    decreases |signals|
  {
    if signals != [] {
      assert signals[0] == ReadyToBoot;
      OnlyReadyToBoot(React(b, p, signals[0]), p, signals[1..]);
    }
  }

  lemma {:induction false} AllClosed(b: Boot, p: Policy, signals: seq<Signal>)
    requires !b.readyToBoot && !b.exitBootServices
    ensures Run(b, p, signals) == b
    decreases |signals|
  {
    if signals != [] { AllClosed(React(b, p, signals[0]), p, signals[1..]); }
  }

  lemma {:induction false} RunJoin(b: Boot, p: Policy, s: seq<Signal>, t: seq<Signal>)
    ensures Run(b, p, s + t) == Run(Run(b, p, s), p, t)
    decreases |s|
  {
    if s == [] {
      assert s + t == t;
    } else {
      assert (s + t)[0] == s[0] && (s + t)[1..] == s[1..] + t;
      RunJoin(React(b, p, s[0]), p, s[1..], t);
    }
  }

  /** After entry and any positive number of ReadyToBoot signals no timer runs, the FRB2 timer
      included, and the callback is closed. */
  lemma NoTimerAfterReadyToBoot(w: Watchdog, p: Policy, signals: seq<Signal>)
    requires ValidWatchdog(w) && signals != [] && ExitBootServices !in signals
    ensures var b := Run(Entry(w, p), p, signals); !b.w.running && !b.readyToBoot && b.exitBootServices
  {
    assert signals[0] == ReadyToBoot;
    OnlyReadyToBoot(React(Entry(w, p), p, ReadyToBoot), p, signals[1..]);
  }

  /** Then ExitBootServices starts the OS loader's timer exactly when the policy enables it with a
      non-zero time, and no later signal stops it. */
  lemma OsTimerRunsAsConfigured(w: Watchdog, p: Policy, before: seq<Signal>, later: seq<Signal>)
    requires ValidWatchdog(w) && before != [] && ExitBootServices !in before
    ensures var b := Run(Entry(w, p), p, before + [ExitBootServices] + later);
      && (b.w.running <==> OsTimerWanted(p))
      && (b.w.running ==> OsTimerAsConfigured(b.w, p))
      && !b.readyToBoot && !b.exitBootServices
  {
    NoTimerAfterReadyToBoot(w, p, before);
    var b1 := Run(Entry(w, p), p, before);
    RunThroughExit(w, p, before, later);
    AllClosed(React(b1, p, ExitBootServices), p, later);
  }

  predicate OsTimerWanted(p: Policy) {
    p.osEnabled && p.osSeconds != 0
  }

  predicate OsTimerAsConfigured(w: Watchdog, p: Policy) {
    && w.use == USE_OS_LOADER && w.action == p.osAction % 8
    && w.present == w.initial == (p.osSeconds * 10) % 0x1_0000
  }

  lemma RunThroughExit(w: Watchdog, p: Policy, before: seq<Signal>, later: seq<Signal>)
    ensures Run(Entry(w, p), p, before + [ExitBootServices] + later)
            == Run(React(Run(Entry(w, p), p, before), p, ExitBootServices), p, later)
  {
    RunJoin(Entry(w, p), p, before, [ExitBootServices] + later);
    assert before + [ExitBootServices] + later == before + ([ExitBootServices] + later);
    assert ([ExitBootServices] + later)[1..] == later;
  }

  /** With only the ReadyToBoot callback open, whatever timer runs is stopped by the first
      ReadyToBoot and by nothing else. */
  lemma {:induction false} OnlyReadyToBootOpen(b: Boot, p: Policy, later: seq<Signal>)
    requires b.readyToBoot && !b.exitBootServices
    ensures var b' := Run(b, p, later);
      if ReadyToBoot in later then !b'.w.running else b' == b
    decreases |later|
  {
    if later != [] {
      var b' := React(b, p, later[0]);
      if later[0] == ReadyToBoot { AllClosed(b', p, later[1..]); } else { OnlyReadyToBootOpen(b', p, later[1..]); }
    }
  }

  /** Over every run that contains an ExitBootServices, the first of them standing between `before`
      and `later`: exactly when a timer runs at the end, and which. If the policy wants the OS
      timer it is there unless no ReadyToBoot came before and one came after; otherwise what the
      entry point left is running, unless any ReadyToBoot stopped it. */
  lemma OsTimerExactly(w: Watchdog, p: Policy, before: seq<Signal>, later: seq<Signal>)
    requires ValidWatchdog(w) && ExitBootServices !in before
    ensures var b := Run(Entry(w, p), p, before + [ExitBootServices] + later);
      && (OsTimerWanted(p) ==>
            (b.w.running <==> ReadyToBoot in before || ReadyToBoot !in later)
            && (b.w.running ==> OsTimerAsConfigured(b.w, p)))
      && (!OsTimerWanted(p) ==>
            (b.w.running <==> Entry(w, p).w.running && ReadyToBoot !in before && ReadyToBoot !in later)
            && (b.w.running ==> b.w == Entry(w, p).w))
  {
    if before != [] {
      assert before[0] == ReadyToBoot;
      OsTimerRunsAsConfigured(w, p, before, later);
    } else {
      RunThroughExit(w, p, before, later);
      OnlyReadyToBootOpen(React(Entry(w, p), p, ExitBootServices), p, later);
    }
  }

  /** A run that loses the OS timer its policy asks for. */
  lemma OsTimerStopped()
    ensures var p := Policy(false, 0, 0, true, 1, 60);
      && OsTimerWanted(p)
      && Run(Entry(OFF, p), p, [ExitBootServices]).w.running
      && !Run(Entry(OFF, p), p, [ExitBootServices, ReadyToBoot]).w.running
  {
    var p := Policy(false, 0, 0, true, 1, 60);
    OsTimerExactly(OFF, p, [], []);
    OsTimerExactly(OFF, p, [], [ReadyToBoot]);
    assert [] + [ExitBootServices] + [] == [ExitBootServices];
    assert [] + [ExitBootServices] + [ReadyToBoot] == [ExitBootServices, ReadyToBoot];
  }
}
