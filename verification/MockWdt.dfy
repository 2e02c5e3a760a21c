/**
 The watchdog timer of the mock BMC (MockWdt.c; section 27 of the IPMI v2.0 specification). Time
 passes only when the timer is looked at.
 */
module MockWdt {
  import opened Bytes

  const USE_BIOS_FRB2: nat := 1
  const USE_OS_LOADER: nat := 3
  const FLAG_BIOS_FRB2: byte := 0x02
  const FLAG_OS_LOAD: byte := 0x08

  /** Counts are in units of 100 ms. `use` and `action` are three-bit fields. */
  datatype Watchdog = Watchdog(use: nat, running: bool, action: nat, expired: byte, initial: uint16, present: uint16)

  const OFF := Watchdog(0, false, 0, 0, 0, 0)

  datatype Setting = Setting(use: nat, action: nat, clear: byte, initial: uint16)

  ghost predicate ValidWatchdog(w: Watchdog) {
    w.present <= w.initial && w.use < 8 && w.action < 8
  }

  function Get(w: Watchdog): Watchdog {
    if w.running && w.present > 0 then w.(present := w.present - 1) else w
  }

  function Set(w: Watchdog, s: Setting): Watchdog {
    Watchdog(s.use, false, s.action, Cleared(w.expired, s.clear), s.initial, s.initial)
  }

  function Reset(w: Watchdog): Watchdog {
    w.(running := true, present := w.initial)
  }

  // ---- Messages ----

  function EncodeWatchdog(w: Watchdog): (s: seq<byte>)
    requires ValidWatchdog(w)
    ensures |s| == 9 && s[0] == 0
  {
    [0, w.use + (if w.running then 0x40 else 0), w.action, 0, w.expired] + Le16(w.initial) + Le16(w.present)
  }

  function DecodeSetting(request: seq<byte>): (s: Setting)
    requires |request| >= 6
    ensures s.use < 8 && s.action < 8
  {
    Setting(request[0] % 8, request[1] % 8, request[3], FromLe16(request[4..6]))
  }

  /** What the three commands do to each field: looking at a running timer takes one count from
      it, a setting stops it, clears the expiration flags named and loads both counts, and a reset
      starts it from its initial count. */
  lemma TimerFields(w: Watchdog, s: Setting)
    ensures var g := Get(w);
      && g.running == w.running && g.use == w.use && g.action == w.action && g.expired == w.expired
      && g.initial == w.initial
      && (w.running && w.present > 0 ==> g.present == w.present - 1)
      && (!w.running || w.present == 0 ==> g.present == w.present)
    ensures var t := Set(w, s);
      && !t.running && t.use == s.use && t.action == s.action && t.initial == t.present == s.initial
      && t.expired == Cleared(w.expired, s.clear)
    ensures var r := Reset(w);
      && r.running && r.present == r.initial == w.initial && r.use == w.use && r.action == w.action
      && r.expired == w.expired
  {
  }

  /** The response to Get Watchdog Timer, byte by byte (section 27.7 of the IPMI v2.0
      specification): code, use and running bit, action, pre-timeout, expiration flags, and the two
      counts; all of the timer can be read off it. */
  lemma ResponseFields(w: Watchdog)
    requires ValidWatchdog(w)
    ensures var r := EncodeWatchdog(w);
      && r[0] == 0 && r[1] % 8 == w.use && (r[1] / 0x40 == 1 <==> w.running) && r[2] == w.action && r[3] == 0
      && r[4] == w.expired && r[5] == w.initial % 0x100 && r[6] == w.initial / 0x100
      && r[7] == w.present % 0x100 && r[8] == w.present / 0x100
  {
  }

  /** The request of Set Watchdog Timer (section 27.6). */
  lemma RequestFields(request: seq<byte>)
    requires |request| >= 6
    ensures var s := DecodeSetting(request);
      && s.use == request[0] % 8 && s.action == request[1] % 8 && s.clear == request[3]
      && s.initial == request[4] as int + 0x100 * (request[5] as int)
  {
  }

  class Timer {
    var mWatchdog: Watchdog

    ghost predicate Valid()
      reads this
    {
      ValidWatchdog(mWatchdog)
    }

    constructor ()
      ensures Valid() && mWatchdog == OFF
    {
      mWatchdog := OFF;
    }

    method MockIpmiGetWatchdog() returns (w: Watchdog)
      requires Valid()
      modifies this
      ensures Valid() && mWatchdog == w == Get(old(mWatchdog))
    {
      if mWatchdog.running && mWatchdog.present > 0 {
        mWatchdog := mWatchdog.(present := mWatchdog.present - 1);
      }
      w := mWatchdog;
    }

    method MockIpmiSetWatchdog(s: Setting)
      requires Valid() && s.use < 8 && s.action < 8
      modifies this
      ensures Valid() && mWatchdog == Set(old(mWatchdog), s)
    {
      mWatchdog := mWatchdog.(use := s.use, action := s.action, expired := Cleared(mWatchdog.expired, s.clear));
      mWatchdog := mWatchdog.(initial := s.initial, present := s.initial);
      mWatchdog := mWatchdog.(running := false);
    }

    method MockIpmiResetWatchdog()
      requires Valid()
      modifies this
      ensures Valid() && mWatchdog == Reset(old(mWatchdog))
    {
      mWatchdog := mWatchdog.(running := true);
      mWatchdog := mWatchdog.(present := mWatchdog.initial);
    }
  }
}
