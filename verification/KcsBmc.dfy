/**
 The host half of the KCS handshake (KcsBmc.c), running against a device behind two ports.

 The device is either a conforming BMC, free to make any moves between host accesses but never
 letting `latency` status reads pass without acting when it has something to do, or an arbitrary
 device whose every register read returns any byte. Both are driven by scripts, and every result
 below holds for all scripts.
 */
module KcsBmc {
  import opened Bytes
  import opened KcsProtocol

  const ABORT_RETRY_COUNT := 1

  /** The statuses of a recovery are read at the accesses 2, 4, 7, 8, 11 and 12. */
  function SpitefulByte(k: nat): byte {
    if k == 1 then 0xFF else if k == 7 || k == 8 then 0x41 else 0x01
  }

  class Ports {
    const conforming: bool
    const latency: nat
    const script: nat -> seq<Move>
    const extraBits: ExtraBits
    const answers: nat -> Response
    const wildByte: nat -> byte

    var bmc: Bmc
    var age: nat          // status reads since the BMC last had a change of debt
    var now: nat          // port accesses so far
    var statusReads: nat

    ghost predicate Valid()
      reads this
    {
      ValidBmc(bmc) && age < latency
    }

    constructor (conforming: bool, latency: nat, script: nat -> seq<Move>, extraBits: ExtraBits,
                 answers: nat -> Response, wildByte: nat -> byte, bmc: Bmc)
      requires latency > 0 && ValidBmc(bmc)
      ensures Valid() && this.bmc == bmc
      ensures this.conforming == conforming && this.latency == latency && this.answers == answers
    {
      this.conforming, this.latency := conforming, latency;
      this.script, this.extraBits, this.answers, this.wildByte := script, extraBits, answers, wildByte;
      this.bmc, age, now, statusReads := bmc, 0, 0, 0;
    }

    // ---- Port accesses ----

    method Elapse()
      requires Valid()
      modifies this
      ensures Valid() && statusReads == old(statusReads) && now == old(now) + 1
      ensures Reaches(old(bmc), bmc, answers)
      ensures age == if Owed(bmc) == Owed(old(bmc)) then old(age) else 0
    {
      PlayReaches(bmc, script(now), answers);
      var played := Play(bmc, script(now), answers);
      if Owed(played) != Owed(bmc) { age := 0; }
      bmc, now := played, now + 1;
    }

    method ReadStatus() returns (s: byte)
      requires Valid()
      modifies this
      ensures Valid() && statusReads == old(statusReads) + 1 && now == old(now) + 1
      ensures Reaches(old(bmc), bmc, answers)
      ensures Owed(bmc) == Owed(old(bmc)) != Nothing ==> age == old(age) + 1
      ensures if conforming then s != 0xFF && Shows(s, bmc) else s == wildByte(now)
    {
      var before := Owed(bmc);
      Elapse();
      ghost var played := bmc;
      if Owed(bmc) == before && before != Nothing {
        if age + 1 < latency {
          age := age + 1;
        } else {
          bmc, age := Settle(bmc, answers), 0;
          ReachesTransitive(old(bmc), played, bmc, answers);
        }
      }
      s := if conforming then StatusByte(bmc, extraBits(now, bmc)) else wildByte(now);
      statusReads := statusReads + 1;
    }

    method ReadData() returns (v: byte)
      requires Valid()
      modifies this
      ensures Valid() && statusReads == old(statusReads) && now == old(now) + 1
      ensures !old(bmc).ibf ==> !bmc.ibf && bmc.core == old(bmc).core
      ensures Owed(old(bmc)) == Nothing ==> bmc == old(bmc).(obf := false)
      ensures conforming && Owed(old(bmc)) == Nothing ==> v == old(bmc).dataOut
    {
      Elapse();
      v := if conforming then bmc.dataOut else wildByte(now);
      if Owed(bmc) == Nothing { age := 0; }
      bmc := bmc.(obf := false);
    }

    method Write(isCommand: bool, v: byte)
      requires Valid()
      modifies this
      ensures Valid() && statusReads == old(statusReads) && now == old(now) + 1
      ensures !old(bmc).ibf ==>
        OnlyEmitted(old(bmc).(ibf := true, isCommand := isCommand, dataIn := v), bmc)
    {
      Elapse();
      bmc, age := bmc.(ibf := true, isCommand := isCommand, dataIn := v), 0;
    }

    // ---- The polling loop ----

    /** What a wait for IBF to clear (or OBF to be set, for `output`) is after. */
    predicate Awaited(s: byte, output: bool) {
      s != 0xFF && (if output then Obf(s) else !Ibf(s))
    }

    /** Read the status until IBF is clear (or OBF is set, for `output`), giving up on an absent
        device or after `period` reads. */
    method Await(period: nat, output: bool) returns (ok: bool, s: byte)
      requires Valid()
      modifies this
      ensures Valid() && statusReads <= old(statusReads) + period + 1
      ensures Reaches(old(bmc), bmc, answers)
      ensures ok ==> Awaited(s, output)
      ensures if conforming then Shows(s, bmc) else s == wildByte(now)
      ensures now - old(now) == statusReads - old(statusReads) > 0
      ensures !conforming && period > 0 && Awaited(wildByte(old(now) + 1), output) ==> ok && now == old(now) + 1
      ensures conforming && latency <= period && (output ==> !old(bmc).ibf && (old(bmc).owes || old(bmc).obf)) ==>
        ok
    {
      var timeOut := 0;
      while true
        invariant Valid() && timeOut <= period && statusReads == old(statusReads) + timeOut && now == old(now) + timeOut
        invariant !conforming && timeOut > 0 ==> !Awaited(wildByte(old(now) + 1), output)
        invariant Reaches(old(bmc), bmc, answers)
        invariant conforming && latency <= period && (output ==> !old(bmc).ibf && (old(bmc).owes || old(bmc).obf)) ==>
          timeOut > 0 ==> age >= timeOut && Owed(bmc) == (if output then Output else Input)
        decreases period - timeOut
      {
        ghost var previous := bmc;
        s := ReadStatus();
        ReachesTransitive(old(bmc), previous, bmc, answers);
        if s == 0xFF || timeOut >= period {
          return false, s;
        }
        timeOut := timeOut + 1;
        if (if output then Obf(s) else !Ibf(s)) {
          return true, s;
        }
      }
    }

    // ---- Devices that are not BMCs ----

    /** From the n-th access on, IBF reads as clear. */
    ghost predicate ClearFrom(n: nat) {
      forall k: nat :: n <= k ==> !Ibf(wildByte(k))
    }

    /** From the n-th access on, IBF reads as set: an absent device, or one that is stuck. */
    ghost predicate SetFrom(n: nat) {
      forall k: nat :: n <= k ==> Ibf(wildByte(k))
    }

    /** Any device but one that keeps toggling IBF for ever. */
    ghost predicate SteadyFrom(n: nat) {
      conforming || ClearFrom(n) || SetFrom(n)
    }

    /** From the n-th access on, OBF reads as clear. */
    ghost predicate SilentFrom(n: nat) {
      forall k: nat :: n <= k ==> !Obf(wildByte(k))
    }

    // ---- Recovery and checking ----

    /** The dialogue once the byte in the input register, if there is one, has been accepted. */
    ghost function Pending(): Core
      reads this
    {
      if bmc.ibf then Next(bmc.core, bmc.isCommand, bmc.dataIn, answers) else bmc.core
    }

    /** A conforming BMC that acts within the host's timeout. */
    predicate Timely(period: nat) {
      conforming && latency <= period
    }

    /** Write a byte and poll until it has been accepted. */
    method WriteAndAwait(isCommand: bool, v: byte, period: nat) returns (ok: bool, s: byte)
      requires Valid()
      modifies this
      ensures Valid() && statusReads <= old(statusReads) + period + 1
      ensures ok && conforming ==> !bmc.ibf
      ensures !conforming && SetFrom(old(now) + 1) ==> !ok
      ensures now - old(now) > statusReads - old(statusReads) >= 0
      ensures !conforming && period > 0 && Awaited(wildByte(old(now) + 2), false) ==>
        ok && now == old(now) + 2 && s == wildByte(now)
      ensures Timely(period) && !old(bmc).ibf ==> ok
      ensures conforming && ok && !old(bmc).ibf ==>
        && !bmc.ibf && State(s) == StateCode(bmc.core.phase)
        && bmc.core == Next(old(bmc).core, isCommand, v, answers)
        && (if !Speaks(bmc.core.phase) then !bmc.owes else !old(bmc).obf && !old(bmc).owes ==> Offers(bmc))
    {
      Write(isCommand, v);
      ok, s := Await(period, false);
    }

    /** In an arbitrary device, the status reads that take the end of a recovery straight through. */
    ghost predicate DrainsAt(n: nat) {
      && !conforming
      && Awaited(wildByte(n + 1), true) && Awaited(wildByte(n + 4), false)
      && State(wildByte(n + 4)) == StateCode(Idle) && Awaited(wildByte(n + 5), true)
    }

    /** Fetch the error status and the closing byte; `again` if the BMC is not idle then. */
    method DrainError(period: nat) returns (ok: bool, again: bool)
      requires Valid()
      modifies this
      ensures Valid() && statusReads <= old(statusReads) + 3 * (period + 1)
      ensures now - old(now) >= statusReads - old(statusReads) && now >= old(now)
      ensures ok && conforming ==> !bmc.ibf
      ensures DrainsAt(old(now)) && period > 0 ==> ok && !again && now == old(now) + 6
      ensures !conforming && SilentFrom(old(now) + 1) ==> !ok
      ensures Timely(period) && old(!bmc.ibf && bmc.core.phase == ReportingError && Offers(bmc)) ==> ok
      ensures conforming && ok && old(!bmc.ibf && bmc.core.phase == ReportingError && Offers(bmc)) ==>
        !again && AtRest(bmc) && bmc.core.served == old(bmc.core.served)
    {
      again := false;
      var s;
      ok, s := Await(period, true);
      if !ok { return; }
      var _ := ReadData();
      ok, s := WriteAndAwait(false, READ, period);
      if !ok { return; }
      again := State(s) != StateCode(Idle);
      if !again {
        ok, s := Await(period, true);
        if !ok { return; }
        var _ := ReadData();
      }
    }

    /** The same for the beginning of a recovery. */
    ghost predicate AbortsAt(n: nat) {
      && !conforming
      && Awaited(wildByte(n + 2), false) && Awaited(wildByte(n + 5), false)
      && State(wildByte(n + 5)) == StateCode(Reading)
    }

    /** Write ABORT and the closing zero; `reading` if the BMC has an error status to fetch. */
    method AbortTransaction(period: nat) returns (ok: bool, reading: bool)
      requires Valid()
      modifies this
      ensures Valid() && statusReads <= old(statusReads) + 2 * (period + 1)
      ensures now - old(now) >= statusReads - old(statusReads) && now >= old(now)
      ensures ok && conforming ==> !bmc.ibf
      ensures AbortsAt(old(now)) && period > 0 ==> ok && reading && now == old(now) + 5
      ensures Timely(period) && !old(bmc).ibf ==> ok
      ensures conforming && ok && !old(bmc).ibf ==>
        && reading && !bmc.ibf && bmc.core.phase == ReportingError && Offers(bmc)
        && bmc.core.served == old(bmc.core.served)
    {
      var s;
      reading := false;
      ok, s := WriteAndAwait(true, ABORT, period);
      if !ok { return; }
      var _ := ReadData();
      ok, s := WriteAndAwait(false, 0x00, period);
      reading := State(s) == StateCode(Reading);
    }

    /** The status reads that take KcsErrorExit straight to success. */
    ghost predicate RecoversAt(n: nat) {
      !conforming && Awaited(wildByte(n + 1), false) && AbortsAt(n + 1) && DrainsAt(n + 6)
    }

    /** One attempt; `again` if the BMC answers and still does not get to idle. */
    method Recover(period: nat) returns (ok: bool, again: bool)
      requires Valid()
      modifies this
      ensures Valid() && statusReads <= old(statusReads) + 6 * (period + 1)
      ensures now - old(now) >= statusReads - old(statusReads) && now >= old(now)
      ensures !conforming && SetFrom(old(now) + 1) ==> !ok
      ensures !conforming && SilentFrom(old(now) + 1) ==> !ok || again
      ensures RecoversAt(old(now)) && period > 0 ==> ok && !again && now == old(now) + 12
      ensures conforming && ok ==> !again && AtRest(bmc) && bmc.core.served == old(Pending()).served
      ensures Timely(period) ==> ok
    {
      again := true;
      var s, reading;
      ok, s := Await(period, false);
      if !ok { return; }
      ok, reading := AbortTransaction(period);
      if !ok { return; }
      if reading {
        ok, again := DrainError(period);
      }
    }

    method KcsErrorExit(period: nat) returns (status: EfiStatus)
      requires Valid()
      modifies this
      ensures Valid()
      ensures status == Success || status == DeviceError
      ensures statusReads <= old(statusReads) + 6 * (period + 1)
      ensures now - old(now) >= statusReads - old(statusReads) && now >= old(now)
      ensures !conforming && SetFrom(old(now) + 1) ==> status == DeviceError
      ensures RecoversAt(old(now)) && period > 0 ==> status == Success && now == old(now) + 12
      ensures !conforming && SilentFrom(old(now) + 1) ==> status == DeviceError
      ensures conforming && status == Success ==> AtRest(bmc) && bmc.core.served == old(Pending()).served
      ensures Timely(period) ==> status == Success
    {
      var retryCount := 0;
      while retryCount < ABORT_RETRY_COUNT
        invariant Valid() && retryCount <= ABORT_RETRY_COUNT
        invariant retryCount == 0 ==> bmc == old(bmc) && statusReads == old(statusReads) && now == old(now)
        invariant statusReads <= old(statusReads) + 6 * (period + 1)
        invariant now - old(now) >= statusReads - old(statusReads) && now >= old(now)
        invariant Timely(period) || (RecoversAt(old(now)) && period > 0) ==> retryCount == 0
      {
        var ok, again := Recover(period);
        if !ok { return DeviceError; }
        if !again { return Success; }
        retryCount := retryCount + 1;
      }
      return DeviceError;
    }

    /** The BMC is collecting bytes, with both buffers empty and nothing due. */
    ghost predicate Collecting()
      reads this
    {
      StateCode(bmc.core.phase) == StateCode(Writing) && !bmc.ibf && !bmc.obf && !bmc.owes
    }

    /** A dialogue byte is on its way to a BMC that has nothing else to do. */
    ghost predicate InFlight()
      reads this
    {
      bmc.ibf && !bmc.obf && !bmc.owes
    }

    predicate Expects(expected: Phase, code: nat) {
      code == StateCode(expected) || (expected == Reading && code == StateCode(Idle))
    }

    method KcsCheckStatus(period: nat, expected: Phase) returns (status: EfiStatus, idle: bool)
      requires Valid()
      requires expected == Reading || expected == Writing
      modifies this
      ensures Valid()
      ensures status == Success || status == DeviceError
      ensures statusReads <= old(statusReads) + 7 * (period + 1)
      ensures now - old(now) >= statusReads - old(statusReads)
      // A device that stays busy, or offers nothing to read, is an error.
      ensures !conforming && SetFrom(old(now) + 1) ==> status == DeviceError
      ensures !conforming && expected == Reading && SilentFrom(old(now) + 1) ==> status == DeviceError
      // The host is sending.
      ensures expected == Writing && StateCode(old(Pending()).phase) == StateCode(Writing) ==>
        && (conforming && status == Success ==> Collecting() && bmc.core == old(Pending()))
        && (Timely(period) ==> status == Success)
      // The host is receiving, a byte being on its way to the BMC.
      ensures expected == Reading && old(InFlight()) && old(Pending()).phase == Reading ==>
        && (conforming && status == Success ==>
              && !idle && bmc.core == old(Pending()) && !bmc.ibf && !bmc.owes && bmc.obf
              && bmc.dataOut == bmc.core.reply[0])
        && (Timely(period) ==> status == Success)
      ensures expected == Reading && old(InFlight()) && old(Pending()).phase == Idle ==>
        && (conforming && status == Success ==> idle && AtRest(bmc) && bmc.core == old(Pending()))
        && (Timely(period) ==> status == Success)
      // It is receiving otherwise: success unless the BMC has nothing due and nothing to accept.
      ensures expected == Reading && !old(InFlight()) && Expects(Reading, StateCode(old(Pending()).phase)) ==>
        && (conforming && status == Success ==>
              && old(bmc.ibf || bmc.owes || bmc.obf)
              && idle == (old(Pending()).phase == Idle) && bmc.core == old(Pending()) && !bmc.ibf)
        && (Timely(period) && old(bmc.ibf || bmc.owes || bmc.obf) ==> status == Success)
        && (Timely(period) ==> idle == (old(Pending()).phase == Idle) && bmc.core == old(Pending()) && !bmc.ibf)
      // The BMC is in another state: the transaction is aborted, and success is reported all the same.
      ensures !Expects(expected, StateCode(old(Pending()).phase)) ==>
        && (conforming && status == Success ==> !idle && AtRest(bmc) && bmc.core.served == old(Pending()).served)
        && (Timely(period) ==> status == Success)
    {
      idle := false;
      var ok, s := Await(period, false);
      if !ok { return DeviceError, idle; }
      if expected == Writing {
        var _ := ReadData();
      }
      if State(s) != StateCode(expected) {
        if State(s) == StateCode(Idle) && expected == Reading {
          idle := true;
        } else {
          status := KcsErrorExit(period);
          return status, idle;
        }
      }
      if expected == Reading {
        ok, s := Await(period, true);
        if !ok { return DeviceError, idle; }
      }
      if expected == Writing || idle {
        var _ := ReadData();
      }
      return Success, idle;
    }

    /** A mismatch counts as success: about to write to an idle BMC, the host aborts what was no
        transaction, and goes on as if the BMC were ready for the byte. */
    method MismatchIsSuccess(period: nat) returns (status: EfiStatus)
      requires Valid() && Timely(period) && AtRest(bmc)
      modifies this
      ensures Valid() && status == Success && AtRest(bmc) && bmc.core.served == old(bmc.core.served)
    {
      var idle;
      status, idle := KcsCheckStatus(period, Writing);
    }

    // ---- Counting status reads ----

    /** The status reads of n status checks: 7 (period + 1) n. */
    ghost function Checks(period: nat, n: nat): nat {
      if n == 0 then 0 else Checks(period, n - 1) + 7 * (period + 1)
    }

    lemma {:induction false} ChecksAre(period: nat, n: nat)
      ensures Checks(period, n) == 7 * (period + 1) * n
    {
      if n > 0 { ChecksAre(period, n - 1); }
    }

    lemma {:induction false} ChecksGrow(period: nat, n: nat, m: nat)
      requires n <= m
      ensures Checks(period, n) <= Checks(period, m)
      decreases m
    {
      if n < m { ChecksGrow(period, n, m - 1); }
    }

    // ---- Sending ----

    /** `data` is in the BMC's hands but for its last byte, which sits in the input register. */
    ghost predicate LastByteWaiting(data: seq<byte>)
      requires |data| > 0
      reads this
    {
      && InFlight() && !bmc.isCommand && bmc.core.phase == WritingLast
      && bmc.core.request + [bmc.dataIn] == data
    }

    /** One pass of the wait before a write, `timeOut` passes having been made. */
    method PollFreeInput(period: nat, timeOut: nat) returns (status: EfiStatus, done: bool)
      requires Valid()
      modifies this
      ensures Valid()
      ensures status == Success || status == DeviceError
      ensures statusReads <= old(statusReads) + 1 + 6 * (period + 1)
      ensures now - old(now) >= statusReads - old(statusReads) && now > old(now)
      ensures status != Success ==> done
      ensures !conforming ==> (!done ==> Ibf(wildByte(old(now) + 1)))
      ensures !conforming && SetFrom(old(now) + 1) ==>
        if done then status == DeviceError else timeOut < period && statusReads == old(statusReads) + 1
      ensures !conforming && wildByte(old(now) + 1) == 0xFF && RecoversAt(old(now) + 1) && period > 0 ==>
        !done && now == old(now) + 13
      ensures conforming && !done ==> old(bmc.ibf) && (bmc.ibf ==> age > old(age))
      ensures conforming && status == Success ==>
        Pending().served == old(Pending()).served && (done ==> !bmc.ibf)
      ensures Timely(period) && (timeOut > 0 ==> old(bmc.ibf) && timeOut <= old(age)) ==>
        && status == Success && statusReads == old(statusReads) + 1 && Reaches(old(bmc), bmc, answers)
        && (if done then !bmc.ibf else bmc.ibf && timeOut + 1 <= age)
    {
      status := Success;
      var s := ReadStatus();
      if s == 0xFF || timeOut >= period {
        status := KcsErrorExit(period);
        if status != Success { return status, true; }
      }
      done := !Ibf(s);
    }

    /** The wait before a write starts. Each pass leaves less time for a conforming BMC to accept
        its input; for any other device `steadyFrom` bounds it. A device that reads as busy from
        now on is an error. */
    method AwaitFreeInput(period: nat, ghost steadyFrom: nat) returns (status: EfiStatus)
      requires Valid() && SteadyFrom(steadyFrom)
      modifies this
      ensures Valid()
      ensures status == Success || status == DeviceError
      ensures !conforming ==> statusReads <= old(statusReads) + Waiting(steadyFrom, old(now), period)
      ensures !conforming && SetFrom(old(now) + 1) ==> status == DeviceError
      ensures conforming && status == Success ==> !bmc.ibf && bmc.core.served == old(Pending()).served
      ensures Timely(period) ==>
        && status == Success && !bmc.ibf && bmc.core == old(Pending()) && statusReads <= old(statusReads) + period + 1
    {
      var timeOut := 0;
      var done := false;
      ghost var late := 0;   // passes since the device is steady
      status := Success;
      while !done
        invariant Valid() && (status == Success || status == DeviceError)
        invariant Timely(period) ==>
          && status == Success && Reaches(old(bmc), bmc, answers) && statusReads == old(statusReads) + timeOut
          && (done ==> !bmc.ibf) && (!done && timeOut > 0 ==> bmc.ibf && timeOut <= age)
          && timeOut <= period + (if done then 1 else 0)
        invariant conforming && status == Success ==>
          Pending().served == old(Pending()).served && (done ==> !bmc.ibf)
        invariant status != Success ==> done
        invariant now - old(now) >= statusReads - old(statusReads) && now >= old(now) && late <= timeOut
        invariant !conforming && !done ==> Late(late, steadyFrom, period, old(statusReads), old(now))
        invariant !conforming ==> statusReads <= old(statusReads) + Waiting(steadyFrom, old(now), period)
        invariant !conforming && done && SetFrom(old(now) + 1) ==> status == DeviceError
        decreases !done, if conforming then (if bmc.ibf then latency - age else 0) else Until(steadyFrom, now),
                  if timeOut <= period then period + 1 - timeOut else 0
      {
        ghost var previous := bmc;
        if !conforming && now >= steadyFrom { late := late + 1; }
        status, done := PollFreeInput(period, timeOut);
        if Timely(period) { ReachesTransitive(old(bmc), previous, bmc, answers); }
        timeOut := timeOut + 1;
      }
    }

    /** The status reads of that wait so far, `late` passes having been made since the device is
        steady: such a pass takes a single read unless it is the last. */
    ghost predicate Late(late: nat, steadyFrom: nat, period: nat, readsBefore: nat, start: nat)
      reads this
    {
      && late <= period && (now < steadyFrom ==> late == 0)
      && statusReads <= readsBefore + Until(steadyFrom, start) + 6 * (period + 1) + late
    }

    ghost function Until(steadyFrom: nat, n: nat): nat {
      if steadyFrom > n then steadyFrom - n else 0
    }

    /** The status reads of that wait. */
    ghost function Waiting(steadyFrom: nat, start: nat, period: nat): nat {
      Until(steadyFrom, start) + 13 * (period + 1)
    }

    /** A device that reads as absent when the host looks whether it may write, and then goes
        through every recovery as if all were well. */
    ghost predicate Spiteful() {
      !conforming && forall n: nat :: wildByte(n) == SpitefulByte(n % 13)
    }

    /** Without a bound on when IBF reads clear the wait need not end: for every n, this device
        keeps it going for n passes. */
    method KeepsWaiting(period: nat, n: nat) returns (done: bool)
      requires Valid() && Spiteful() && period > 0 && now % 13 == 0
      modifies this
      ensures Valid() && !done && now == old(now) + 13 * n
    {
      done := false;
      var timeOut := 0;
      while timeOut < n
        invariant Valid() && !done && timeOut <= n && now == old(now) + 13 * timeOut
      {
        SpitefulBytes(now);
        done := WaitOnce(period, timeOut);
        timeOut := timeOut + 1;
      }
    }

    method WaitOnce(period: nat, timeOut: nat) returns (done: bool)
      requires Valid() && wildByte(now + 1) == 0xFF && RecoversAt(now + 1) && period > 0
      modifies this
      ensures Valid() && !done && now == old(now) + 13
    {
      var status;
      status, done := PollFreeInput(period, timeOut);
    }

    lemma SpitefulAt(n: nat, k: nat)
      requires Spiteful() && n % 13 == 0 && k < 13
      ensures wildByte(n + k) == SpitefulByte(k)
    {
      assert (n + k) % 13 == k;
    }

    lemma SpitefulBytes(n: nat)
      requires Spiteful() && n % 13 == 0
      ensures wildByte(n + 1) == 0xFF && RecoversAt(n + 1)
    {
      SpitefulAt(n, 1);
      SpitefulAt(n, 2);
      SpitefulAt(n, 4);
      SpitefulAt(n, 7);
      SpitefulAt(n, 8);
      SpitefulAt(n, 11);
      SpitefulAt(n, 12);
      assert AbortsAt(n + 2) && DrainsAt(n + 7);
    }

    /** The request bytes up to `i` have been written; the last of them may still be waiting. */
    ghost predicate Sent(data: seq<byte>, i: nat, served: seq<Exchange>)
      requires i <= |data|
      reads this
    {
      && bmc.core.served == served
      && (if 0 < |data| == i then LastByteWaiting(data)
          else Pending() == Core(Writing, data[..i], [], served) && (Collecting() || (bmc.ibf && i > 0)))
    }

    /** Write the i-th byte, announcing the last one. */
    method SendByte(period: nat, data: seq<byte>, i: nat, ghost served: seq<Exchange>) returns (status: EfiStatus)
      requires Valid() && i < |data|
      requires conforming ==> Sent(data, i, served)
      modifies this
      ensures Valid() && (status == Success || status == DeviceError)
      ensures statusReads <= old(statusReads) + Checks(period, if i == |data| - 1 then 2 else 1)
      ensures conforming && status == Success ==> Sent(data, i + 1, served)
      ensures Timely(period) ==> status == Success
    {
      var idle;
      if i == |data| - 1 {
        status, idle := KcsCheckStatus(period, Writing);
        if status != Success { return; }
        Write(true, WRITE_END);
      }
      status, idle := KcsCheckStatus(period, Writing);
      if status != Success { return; }
      Write(false, data[i]);
      assert data[..i] + [data[i]] == data[..i + 1];
    }

    /** The status reads of sending n bytes. */
    ghost function Sending(steadyFrom: nat, start: nat, period: nat, n: nat): (most: nat)
      ensures most == Waiting(steadyFrom, start, period) + 7 * (period + 1) * (n + 2)
    {
      ChecksAre(period, n + 2);
      Waiting(steadyFrom, start, period) + Checks(period, n + 2)
    }

    method SendDataToBmc(period: nat, data: seq<byte>, ghost steadyFrom: nat) returns (status: EfiStatus)
      requires Valid() && |data| < 0x100 && SteadyFrom(steadyFrom)
      modifies this
      ensures Valid()
      ensures status == Success || status == DeviceError
      ensures !conforming ==> statusReads <= old(statusReads) + Sending(steadyFrom, old(now), period, |data|)
      ensures !conforming && SetFrom(old(now) + 1) ==> status == DeviceError
      ensures conforming && status == Success ==> Sent(data, |data|, old(Pending()).served)
      ensures Timely(period) ==> status == Success
    {
      ghost var served := Pending().served;
      status := AwaitFreeInput(period, steadyFrom);
      ghost var waited := statusReads;
      ChecksGrow(period, 0, |data| + 2);
      ChecksGrow(period, 1, |data| + 2);
      if status != Success { return; }

      Write(true, WRITE_START);
      var idle;
      status, idle := KcsCheckStatus(period, Writing);
      if status != Success { return; }

      var i := 0;
      while i < |data|
        invariant Valid() && i <= |data| && status == Success
        invariant conforming ==> Sent(data, i, served)
        invariant statusReads <= waited + Checks(period, if 0 < i == |data| then i + 2 else i + 1)
      {
        ChecksGrow(period, if i == |data| - 1 then i + 3 else i + 2, |data| + 2);
        status := SendByte(period, data, i, served);
        i := i + 1;
        if status != Success { return; }
      }
    }

    method SendDataToBmcPort(period: nat, data: seq<byte>, ghost steadyFrom: nat) returns (status: EfiStatus)
      requires Valid() && |data| < 0x100 && SteadyFrom(steadyFrom)
      modifies this
      ensures Valid()
      ensures status == Success || status == DeviceError
      ensures !conforming ==>
        statusReads <= old(statusReads) + Sending(steadyFrom, old(now), period, |data|) + 6 * (period + 1)
      ensures !conforming && SetFrom(old(now) + 1) ==> status == DeviceError
      ensures conforming && status == Success ==> Sent(data, |data|, old(Pending()).served)
      ensures Timely(period) ==> status == Success
    {
      for i := 0 to ABORT_RETRY_COUNT
        invariant Valid()
        invariant Timely(period) ==> i == 0
        invariant i == 0 ==> bmc == old(bmc)
        invariant i == 0 ==> statusReads == old(statusReads) && now == old(now)
        invariant !conforming ==>
          statusReads <= old(statusReads) + Sending(steadyFrom, old(now), period, |data|) + 6 * (period + 1)
      {
        status := SendDataToBmc(period, data, steadyFrom);
        if status != Success {
          status := KcsErrorExit(period);
          if status != Success { return; }
        } else {
          return;
        }
      }
      return DeviceError;
    }

    // ---- Receiving ----

    /** The BMC has been asked for the first byte of `reply`, or for its dummy byte at the end. */
    ghost predicate AskedFor(reply: seq<byte>, served: seq<Exchange>)
      reads this
    {
      && InFlight() && Pending().served == served
      && (if reply == [] then Pending().phase == Idle else Pending().phase == Reading && Pending().reply == reply)
    }

    /** The first byte of `reply` is in the output register. */
    ghost predicate Offered(reply: seq<byte>, served: seq<Exchange>)
      reads this
    {
      && !bmc.ibf && !bmc.owes && bmc.obf && bmc.core.phase == Reading && bmc.core.served == served
      && reply != [] && bmc.core.reply == reply && bmc.dataOut == reply[0]
    }

    /** Wait for a byte of the response, or for its end. */
    method AwaitByte(period: nat, ghost reply: seq<byte>, ghost served: seq<Exchange>)
      returns (status: EfiStatus, idle: bool)
      requires Valid()
      modifies this
      ensures Valid() && (status == Success || status == DeviceError)
      ensures statusReads <= old(statusReads) + 7 * (period + 1)
      ensures conforming && status == Success && old(AskedFor(reply, served)) ==>
        && idle == (reply == [])
        && if idle then AtRest(bmc) && bmc.core.served == served else Offered(reply, served)
      ensures Timely(period) && old(AskedFor(reply, served)) ==> status == Success
      ensures !conforming && (SetFrom(old(now) + 1) || SilentFrom(old(now) + 1)) ==> status == DeviceError
    {
      status, idle := KcsCheckStatus(period, Reading);
    }

    /** Fetch the byte that was offered and ask for the next. */
    method FetchByte(ghost reply: seq<byte>, ghost served: seq<Exchange>) returns (v: byte)
      requires Valid()
      modifies this
      ensures Valid() && statusReads == old(statusReads)
      ensures conforming && old(Offered(reply, served)) ==> v == reply[0] && AskedFor(reply[1..], served)
    {
      v := ReadData();
      Write(false, READ);
    }

    /** `count` bytes of the response are in the buffer and the next has been asked for. */
    ghost predicate Received(reply: seq<byte>, served: seq<Exchange>, data: array<byte>, count: nat)
      requires count <= data.Length
      reads this, data
    {
      count <= |reply| && data[..count] == reply[..count] && AskedFor(reply[count..], served)
    }

    /** One pass of the receiving loop. */
    method ReceiveByte(period: nat, data: array<byte>, dataSize: byte, count: byte, ghost reply: seq<byte>,
                       ghost served: seq<Exchange>)
      returns (status: EfiStatus, idle: bool)
      requires Valid() && count <= dataSize <= data.Length
      modifies this, data
      ensures Valid() && (status == Success || status == DeviceError)
      ensures statusReads <= old(statusReads) + 7 * (period + 1)
      ensures forall k :: 0 <= k < data.Length && (k != count || count >= dataSize || idle) ==> data[k] == old(data[k])
      ensures status == Success && !idle ==> count < dataSize
      ensures conforming && status == Success && old(Received(reply, served, data, count)) ==>
        && idle == (count == |reply|)
        && if idle then AtRest(bmc) && bmc.core.served == served else Received(reply, served, data, count + 1)
      ensures Timely(period) && old(Received(reply, served, data, count)) ==>
        && (status == Success <==> count == |reply| || count < dataSize)
        && (status != Success ==> bmc.core.served == served && !bmc.ibf)
      ensures !conforming && (SetFrom(old(now) + 1) || SilentFrom(old(now) + 1)) ==> status == DeviceError
    {
      ghost var rest := if count <= |reply| then reply[count..] else [];
      status, idle := AwaitByte(period, rest, served);
      if status != Success || idle { return; }
      if count >= dataSize { return DeviceError, false; }
      data[count] := FetchByte(rest, served);
      if rest != [] { assert rest[1..] == reply[count + 1..]; }
    }

    /** `Data[..]` beyond `dataSize` is never touched, and only success changes the size. */
    method ReceiveBmcData(period: nat, data: array<byte>, dataSize: byte) returns (status: EfiStatus, newSize: byte)
      requires Valid() && dataSize <= data.Length
      modifies this, data
      ensures Valid()
      ensures status == Success || status == DeviceError
      ensures status != Success ==> newSize == dataSize
      ensures newSize <= dataSize
      ensures forall k :: dataSize <= k < data.Length ==> data[k] == old(data[k])
      ensures statusReads <= old(statusReads) + Checks(period, dataSize + 1)
      ensures !conforming && (SetFrom(old(now) + 1) || SilentFrom(old(now) + 1)) ==> status == DeviceError
      ensures conforming && status == Success && old(InFlight()) && old(Pending()).phase == Reading ==>
        && data[..newSize] == old(Pending()).reply && AtRest(bmc) && bmc.core.served == old(Pending()).served
      ensures Timely(period) && old(InFlight()) && old(Pending()).phase == Reading ==>
        && bmc.core.served == old(Pending()).served && !bmc.ibf
        && (status == Success <==> |old(Pending()).reply| <= dataSize)
    {
      ghost var reply, served := Pending().reply, Pending().served;
      ghost var serving := conforming && InFlight() && Pending().phase == Reading;
      var count: byte := 0;
      newSize := dataSize;
      while true
        invariant Valid() && count <= dataSize && newSize == dataSize
        invariant forall k :: dataSize <= k < data.Length ==> data[k] == old(data[k])
        invariant statusReads <= old(statusReads) + Checks(period, count)
        invariant serving ==> Received(reply, served, data, count)
        invariant count == 0 ==> now == old(now)
        invariant !conforming && (SetFrom(old(now) + 1) || SilentFrom(old(now) + 1)) ==> count == 0
        decreases dataSize - count
      {
        ChecksGrow(period, count + 1, dataSize + 1);
        var idle;
        status, idle := ReceiveByte(period, data, dataSize, count, reply, served);
        if status != Success { return; }
        if idle {
          newSize := count;
          break;
        }
        count := count + 1;
      }
    }

    method ReceiveBmcDataFromPort(period: nat, data: array<byte>, dataSize: byte)
      returns (status: EfiStatus, newSize: byte)
      requires Valid() && dataSize <= data.Length
      modifies this, data
      ensures Valid()
      ensures status == Success || status == DeviceError
      ensures status != Success ==> newSize == dataSize
      ensures newSize <= dataSize
      ensures forall k :: dataSize <= k < data.Length ==> data[k] == old(data[k])
      ensures statusReads <= old(statusReads) + 7 * (period + 1) * (dataSize + 1) + 6 * (period + 1)
      ensures !conforming && (SetFrom(old(now) + 1) || SilentFrom(old(now) + 1)) ==> status == DeviceError
      ensures conforming && status == Success && old(InFlight()) && old(Pending()).phase == Reading ==>
        && data[..newSize] == old(Pending()).reply && AtRest(bmc) && bmc.core.served == old(Pending()).served
      ensures Timely(period) && old(InFlight()) && old(Pending()).phase == Reading ==>
        && bmc.core.served == old(Pending()).served && AtRest(bmc)
        && (status == Success <==> |old(Pending()).reply| <= dataSize)
    {
      ChecksAre(period, dataSize + 1);
      newSize := dataSize;
      for i := 0 to ABORT_RETRY_COUNT
        invariant Valid() && newSize == dataSize
        invariant i == 0 ==> bmc == old(bmc) && statusReads == old(statusReads) && now == old(now)
        invariant i > 0 ==> statusReads <= old(statusReads) + 7 * (period + 1) * (dataSize + 1) + 6 * (period + 1)
        invariant forall k :: dataSize <= k < data.Length ==> data[k] == old(data[k])
        invariant i > 0 && Timely(period) && old(InFlight()) && old(Pending()).phase == Reading ==>
          bmc.core.served == old(Pending()).served && AtRest(bmc) && |old(Pending()).reply| > dataSize
      {
        status, newSize := ReceiveBmcData(period, data, newSize);
        if status != Success {
          status := KcsErrorExit(period);
          if status != Success { return; }
          newSize := dataSize;
        } else {
          return;
        }
      }
      return DeviceError, newSize;
    }

    // ---- Whole conversations ----

    /** The k-th of a run of requests, with the response this BMC gives to it. */
    ghost function Expected(served: seq<Exchange>, requests: seq<seq<byte>>): (log: seq<Exchange>)
      ensures |log| == |served| + |requests|
    {
      served + seq(|requests|, k requires 0 <= k < |requests| => Exchange(requests[k], answers(|served| + k)))
    }

    /** One exchange, from whatever state the BMC was left in, and whether it is timely or not: a
        response that is received is the BMC's to this very request, which it has served. With a
        timely BMC every response is received that fits. */
    method ConverseOnce(period: nat, request: seq<byte>, data: array<byte>, dataSize: byte)
      returns (received: Option<seq<byte>>)
      requires Valid() && conforming && dataSize <= data.Length && 0 < |request| < 0x100
      modifies this, data
      ensures Valid()
      ensures var served := old(Pending()).served;
        var response := answers(|served|);
        && (received.Some? || Timely(period) ==>
              AtRest(bmc) && bmc.core.served == served + [Exchange(request, response)])
        && (received.Some? ==> received.value == response)
        && (Timely(period) ==> received.Some? == (|response| <= dataSize))
    {
      var status := SendDataToBmcPort(period, request, 0);
      if status != Success { return None; }
      var newSize;
      status, newSize := ReceiveBmcDataFromPort(period, data, dataSize);
      received := if status == Success then Some(data[..newSize]) else None;
    }

    lemma ExpectedNext(served: seq<Exchange>, requests: seq<seq<byte>>, n: nat)
      requires n < |requests|
      ensures Expected(served, requests[..n + 1])
              == Expected(served, requests[..n]) + [Exchange(requests[n], answers(|served| + n))]
    {
    }

    /** Any number of exchanges, from whatever state the BMC was left in. Each request reaches the
        BMC intact, each response that fits the buffer reaches the host intact, a response that
        does not fit is reported as an error, and the BMC is idle again after every exchange. */
    method Converse(period: nat, requests: seq<seq<byte>>, data: array<byte>, dataSize: byte)
      returns (received: seq<Option<seq<byte>>>)
      requires Valid() && Timely(period) && dataSize <= data.Length
      requires forall k :: 0 <= k < |requests| ==> 0 < |requests[k]| < 0x100
      modifies this, data
      ensures Valid() && |received| == |requests|
      ensures requests != [] ==> AtRest(bmc)
      ensures Pending().served == Expected(old(Pending()).served, requests)
      ensures forall k :: 0 <= k < |requests| ==>
        var response := answers(|old(Pending()).served| + k);
        received[k] == if |response| <= dataSize then Some(response) else None
    {
      ghost var served := Pending().served;
      received := [];
      while |received| < |requests|
        invariant Valid() && |received| <= |requests|
        invariant received != [] ==> AtRest(bmc)
        invariant Pending().served == Expected(served, requests[..|received|])
        invariant forall k :: 0 <= k < |received| ==>
          received[k] == if |answers(|served| + k)| <= dataSize then Some(answers(|served| + k)) else None
      {
        var n := |received|;
        var response := ConverseOnce(period, requests[n], data, dataSize);
        received := received + [response];
        ExpectedNext(served, requests, n);
      }
      assert requests[..|requests|] == requests;
    }
  }
}
