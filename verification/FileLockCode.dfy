/**
 core/file_lock.c as it is written, run by one process while all the others take any steps they like
 before each of its system calls, together with the time its polling loop spends asleep.
 */
module FileLockCode {
  import opened Basics
  import opened TimeSpecs
  import opened FileLock
  import opened Runs

  const SLEEP_INTERVAL_MS := 50
  const NANOS := 1_000_000   // in a millisecond

  lemma OneStep(s: State, st: Step)
    requires Inv(s) && Enabled(s, st)
    ensures Leads(s, Apply(s, st)) && Inv(Apply(s, st))
  {
    InvStep(s, st);
    LeadsHere(Next, Apply(s, st));
    LeadsBy(Next, s, st, Apply(s, st), Apply(s, st));
  }

  /** A step of the run that began at `since`. */
  lemma Continue(since: State, s: State, st: Step)
    requires Inv(s) && Enabled(s, st) && Leads(since, s)
    ensures Leads(since, Apply(s, st)) && Inv(Apply(s, st))
    ensures |Apply(s, st).procs| == |s.procs|
    ensures forall q :: 0 <= q < |s.procs| && q != st.p ==> Apply(s, st).procs[q] == s.procs[q]
    ensures st.act.Act? ==> Apply(s, st).procs[st.p].alive
  {
    OneStep(s, st);
    LeadsTwice(Next, since, s, Apply(s, st));
    assert ProcInv(s, s.procs[st.p]);
  }

  datatype Flock = Granted | WouldBlock | OtherError
  datatype Sleep = Slept | Interrupted(rem: Timespec) | SleepError

  /** The kernel together with everything the processes hold. `signals` bounds how many more signals will
      interrupt a sleep. The ghost fields count what the calls of this process have come to so far. */
  class Machine {
    var s: State
    var signals: nat
    ghost var unopened: nat   // failed attempts to open the lock file
    ghost var attempts: nat   // calls of flock(LOCK_EX)
    ghost var slept: int      // nanoseconds asleep
    ghost var cuts: nat       // sleeps a signal has interrupted
    ghost var refused: nat    // intervals nanosleep has refused as invalid
    ghost var errors: nat     // other failures of flock or nanosleep than these and EWOULDBLOCK

    constructor (n: nat, signals: nat)
      ensures Init(s) && Inv(s) && |s.procs| == n
    {
      s := State(None, 0, seq(n, _ => DEAD));
      this.signals := signals;
      unopened, attempts, slept, cuts, refused, errors := 0, 0, 0, 0, 0, 0;
    }

    ghost predicate Alive(p: nat, since: State)
      reads this
    {
      Inv(s) && p < |s.procs| && s.procs[p].alive && Leads(since, s)
    }

    method Others(p: nat, ghost since: State)
      requires Alive(p, since)
      modifies this`s
      ensures Alive(p, since) && s.procs[p] == old(s.procs[p])
    {
      var n: int := *;
      while n > 0
        invariant Alive(p, since) && s.procs[p] == old(s.procs[p])
      {
        var st: Step := *;
        if st.p != p && Enabled(s, st) {
          Continue(since, s, st);
          s := Apply(s, st);
        }
        n := n - 1;
      }
    }

    /** The others run, then process `p` takes the action it stands at, with this outcome if it can. */
    method Take(p: nat, want: bool, again: bool, ghost since: State) returns (ok: bool, ghost before: State)
      requires Alive(p, since) && !s.procs[p].pc.Idle?
      modifies this`s
      ensures Alive(p, since)
      ensures Inv(before) && p < |before.procs| && before.procs[p] == old(s.procs[p])
      ensures Enabled(before, Step(p, Act(ok, again))) && s == Apply(before, Step(p, Act(ok, again)))
      ensures ok == want || (want && old(s.procs[p]).pc.Try?)
    {
      Others(p, since);
      before := s;
      ok := want;
      if ok && s.procs[p].pc.Try? && !(s.procs[p].fd >= 0 && FlockGrants(s, s.procs[p].fd)) {
        ok := false;
      }
      var st := Step(p, Act(ok, again));
      Continue(since, s, st);
      s := Apply(s, st);
    }

    method Call(p: nat, call: Action, ghost since: State)
      requires Alive(p, since) && s.procs[p].pc.Idle? && (call.CallLock? || call.CallUnlock?)
      modifies this`s
      ensures Alive(p, since) && s.procs[p] == Apply(old(s), Step(p, call)).procs[p]
    {
      OneStep(s, Step(p, call));
      LeadsTwice(Next, since, s, Apply(s, Step(p, call)));
      s := Apply(s, Step(p, call));
    }

    /** open(path, O_RDWR | O_CREAT, 0600) */
    method OpenFile(p: nat, ghost since: State) returns (fd: int)
      requires Alive(p, since) && s.procs[p].pc.Open?
      modifies this`s, this`unopened
      ensures Alive(p, since)
      ensures unopened == old(unopened) + if fd < 0 then 1 else 0
      ensures s.procs[p].fd == fd && s.procs[p].pc == (if fd < 0 then Idle else Try)
      ensures s.procs[p].held == old(s.procs[p].held) && fd >= -1
    {
      var want: bool := *;
      var ok, before := Take(p, want, false, since);
      fd := if ok then s.nextFd - 1 else -1;
      unopened := unopened + if fd < 0 then 1 else 0;
    }

    /** flock(fd, LOCK_EX | LOCK_NB); with `poll`, the caller tries again when it would block. */
    method FlockEx(p: nat, poll: bool, ghost since: State) returns (r: Flock)
      requires Alive(p, since) && s.procs[p].pc.Try?
      modifies this`s, this`attempts, this`errors
      ensures Alive(p, since)
      ensures attempts == old(attempts) + 1 && errors == old(errors) + if r.OtherError? then 1 else 0
      ensures var me := old(s.procs[p]);
              s.procs[p] == me.(pc := match r case Granted => SetHeld
                                              case WouldBlock => if poll then Nap else GiveUp
                                              case OtherError => GiveUp)
    {
      var want, error: bool := *, *;
      var ok, before := Take(p, want, poll && !error, since);
      r := if ok then Granted else if error then OtherError else WouldBlock;
      attempts := attempts + 1;
      if r.OtherError? {
        errors := errors + 1;
      }
    }

    /** nanosleep(interval): sleeps it out, or is interrupted with the rest left in `rem`; an interval that
        is not valid is refused (EINVAL). */
    method Nanosleep(interval: Timespec) returns (r: Sleep)
      modifies this`signals, this`slept, this`cuts, this`refused, this`errors
      ensures !interval.Valid() ==> r.SleepError?
      ensures r.Interrupted? ==> signals < old(signals) && r.rem.Valid() && r.rem.Nanos() <= interval.Nanos()
      ensures signals <= old(signals)
      ensures slept == old(slept) + match r case Slept => interval.Nanos()
                                            case Interrupted(rem) => interval.Nanos() - rem.Nanos()
                                            case SleepError => 0
      ensures cuts == old(cuts) + if r.Interrupted? then 1 else 0
      ensures refused == old(refused) + if interval.Valid() then 0 else 1
      ensures errors == old(errors) + if interval.Valid() && r.SleepError? then 1 else 0
    {
      var error: bool := *;
      var interrupt: bool := *;
      var rem: Timespec := *;
      if !interval.Valid() {
        refused := refused + 1;
        return SleepError;
      }
      if error {
        errors := errors + 1;
        return SleepError;
      }
      if interrupt && signals > 0 {
        signals := signals - 1;
        if !(rem.Valid() && rem.Nanos() <= interval.Nanos()) {
          rem := interval;
        }
        slept := slept + interval.Nanos() - rem.Nanos();
        cuts := cuts + 1;
        return Interrupted(rem);
      }
      slept := slept + interval.Nanos();
      return Slept;
    }

    /** The polling loop goes back to flock, or gives up. */
    method AfterNap(p: nat, again: bool, ghost since: State)
      requires Alive(p, since) && s.procs[p].pc.Nap?
      modifies this`s
      ensures Alive(p, since) && s.procs[p] == old(s.procs[p]).(pc := if again then Try else GiveUp)
    {
      var _, _ := Take(p, again, false, since);
    }

    /** close(fd) after a failed attempt */
    method CloseAfterFailure(p: nat, ghost since: State)
      requires Alive(p, since) && s.procs[p].pc.GiveUp?
      modifies this`s
      ensures Alive(p, since) && s.procs[p].pc.Idle? && !s.procs[p].held && s.procs[p].fd == old(s.procs[p].fd)
    {
      var _, _ := Take(p, true, false, since);
    }

    method SetsHeld(p: nat, ghost since: State)
      requires Alive(p, since) && s.procs[p].pc.SetHeld?
      modifies this`s
      ensures Alive(p, since) && s.procs[p] == old(s.procs[p]).(held := true, pc := WritePid)
    {
      var _, _ := Take(p, true, false, since);
    }

    /** file_lock_write_pid, whose failure does not matter, and return */
    method WritesPid(p: nat, ghost since: State)
      requires Alive(p, since) && s.procs[p].pc.WritePid?
      modifies this`s
      ensures Alive(p, since) && s.procs[p] == old(s.procs[p]).(pc := Idle)
    {
      var want: bool := *;
      var _, _ := Take(p, want, false, since);
    }

    /** flock(fd, LOCK_UN) and close(fd); their failures are only logged */
    method Release(p: nat, ghost since: State)
      requires Alive(p, since) && s.procs[p].pc.Unflock?
      modifies this`s
      ensures Alive(p, since) && s.procs[p].pc.ClearHeld? && s.procs[p].fd == old(s.procs[p].fd)
    {
      var want: bool := *;
      var _, _ := Take(p, want, false, since);
      want := *;
      var _, _ := Take(p, want, false, since);
    }

    method ClearsHeld(p: nat, ghost since: State)
      requires Alive(p, since) && s.procs[p].pc.ClearHeld?
      modifies this`s
      ensures Alive(p, since) && s.procs[p] == old(s.procs[p]).(held := false, pc := Idle)
    {
      var _, _ := Take(p, true, false, since);
    }
  }

  /** What a polling file_lock_get has come to, T being its timeout, in terms of the calls made since
      `attempts0` ... `errors0` were counted: it gave up for lack of time, it got the lock, or a call failed. */
  predicate Polled(T: int, ret: int, attempts: int, slept: int, cut: bool, refused: int, failed: bool) {
    if T < 0 then
      attempts == 1 && slept == 0 && !cut && (refused == 1 <==> ret != 0 && !failed) && 0 <= refused <= 1
    else if T == 0 then
      attempts == 1 && slept == 0 && !cut && refused == 0
    else
      var most := T / 50 + 1;
      && refused == 0 && 1 <= attempts <= most
      // given up: every attempt was made, and the time is up
      && (ret != 0 && !failed ==> attempts == most && slept <= T * 1_000_000 && (!cut ==> slept == T * 1_000_000))
      // got it: a nap of the full interval lies before every attempt but the first
      && (ret == 0 ==> 0 <= slept <= (attempts - 1) * 50 * 1_000_000
                       && (!cut ==> slept == (attempts - 1) * 50 * 1_000_000))
      && (failed ==> ret != 0 && 0 <= slept <= T * 1_000_000)
  }

  /** A poll that does not get the lock although nothing else fails: whether it waited as its timeout says. */
  lemma RefusedIffNegative(T: int, ret: int, attempts: int, slept: int, cut: bool, refused: int)
    requires Polled(T, ret, attempts, slept, cut, refused, false) && ret != 0
    ensures refused > 0 <==> T < 0
    ensures refused > 0 ==> attempts == 1 && slept == 0
    ensures refused == 0 && !cut ==> attempts == T / 50 + 1 && slept == T * 1_000_000
  {
    assert T == 0 ==> T / 50 == 0;
  }

  lemma GotIt(T: int, n: nat, slept: int, cut: bool)
    requires T != 0 && n > 0 && (if T < 0 then n == 1 && !cut else SLEEP_INTERVAL_MS * (n - 1) <= T)
    requires 0 <= slept <= SLEEP_INTERVAL_MS * (n - 1) * NANOS && (!cut ==> slept == SLEEP_INTERVAL_MS * (n - 1) * NANOS)
    ensures Polled(T, 0, n, slept, cut, 0, false)
  {}

  lemma GaveUp(T: int, n: nat, slept: int, cut: bool)
    requires T > 0 && n > 0 && SLEEP_INTERVAL_MS * (n - 1) <= T < SLEEP_INTERVAL_MS * n
    requires slept <= T * NANOS && (!cut ==> slept == T * NANOS)
    ensures Polled(T, -1, n, slept, cut, 0, false)
  {}

  lemma Failed(T: int, n: nat, slept: int, cut: bool)
    requires T != 0 && n > 0 && (if T < 0 then n == 1 && !cut && slept == 0 else SLEEP_INTERVAL_MS * (n - 1) <= T)
    requires T > 0 ==> 0 <= slept <= T * NANOS
    ensures Polled(T, -1, n, slept, cut, 0, true)
  {}

  lemma Refused(T: int)
    requires T < 0
    ensures Polled(T, -1, 1, 0, false, 1, false)
  {}

  class Process {
    const m: Machine
    const p: nat
    var isHeld: bool
    var fd: int

    ghost function Me(): Proc
      requires p < |m.s.procs|
      reads m
    {
      m.s.procs[p]
    }

    /** Between two calls: the fields are those of the step system, and the lock file is open exactly
        while the lock is held. */
    ghost predicate Valid()
      reads this, m
    {
      && m.Alive(p, m.s) && Me().pc.Idle? && Me().held == isHeld && Me().fd == fd
      && Me().open == (if isHeld then {fd} else {})
      && (isHeld ==> m.s.owner == Some(fd))
    }

    /** Nobody else is between a granted flock and its release. */
    ghost predicate Alone()
      reads this, m
    {
      forall q :: 0 <= q < |m.s.procs| && q != p ==> !Owns(m.s.procs[q])
    }

    /** A process starts with `LOCKFILE_INIT`. */
    constructor (m: Machine, p: nat)
      requires Inv(m.s) && p < |m.s.procs| && !m.s.procs[p].alive
      modifies m
      ensures this.m == m && this.p == p
      ensures Valid() && !isHeld && Leads(old(m.s), m.s)
    {
      this.m, this.p := m, p;
      isHeld, fd := false, -1;
      new;
      OneStep(m.s, Step(p, Start));
      m.s := Apply(m.s, Step(p, Start));
      LeadsHere(Next, m.s);
    }

    /** Sleeps the interval out through any number of signals; `rest` is what is left in the variable. An
        invalid interval is refused at once. */
    method SleepOut(interval: Timespec) returns (ok: bool, rest: Timespec)
      modifies m`signals, m`slept, m`cuts, m`refused, m`errors
      ensures ok ==> interval.Valid() && m.slept == old(m.slept) + interval.Nanos() && m.errors == old(m.errors)
      ensures !ok ==> m.errors == old(m.errors) + if interval.Valid() then 1 else 0
      ensures interval.Valid() ==> rest.Valid() && rest.Nanos() <= interval.Nanos()
                                   && 0 <= m.slept - old(m.slept) <= interval.Nanos()
      ensures m.cuts >= old(m.cuts) && (m.cuts == old(m.cuts) ==> rest == interval)
      ensures if interval.Valid() then m.refused == old(m.refused)
              else m.refused == old(m.refused) + 1 && m.slept == old(m.slept) && m.cuts == old(m.cuts)
    {
      rest := interval;
      while true
        invariant interval.Valid() ==> rest.Valid() && rest.Nanos() <= interval.Nanos()
        invariant !interval.Valid() ==> rest == interval
        invariant m.slept == old(m.slept) + interval.Nanos() - rest.Nanos()
        invariant m.cuts >= old(m.cuts) && (m.cuts == old(m.cuts) ==> rest == interval)
        invariant !interval.Valid() ==> m.cuts == old(m.cuts)
        invariant m.refused == old(m.refused) && m.errors == old(m.errors)
        decreases m.signals
      {
        var r := m.Nanosleep(rest);
        match r {
          case Slept =>
            return true, rest;
          case Interrupted(rem) =>
            rest := rem;
          case SleepError =>
            return false, rest;
        }
      }
    }

    /** The nap between two attempts: the interval, or what is left of the timeout if that is less. */
    method Nap(remaining: int, interval: Timespec) returns (ok: bool, rest: Timespec)
      requires interval.Valid() && interval.Nanos() <= SLEEP_INTERVAL_MS * NANOS
      modifies m`signals, m`slept, m`cuts, m`refused, m`errors
      ensures remaining < 0 ==> !ok && m.refused == old(m.refused) + 1
                                && m.slept == old(m.slept) && m.cuts == old(m.cuts) && m.errors == old(m.errors)
      ensures remaining >= 0 ==>
                && m.refused == old(m.refused) && m.errors == old(m.errors) + (if ok then 0 else 1)
                && 0 <= m.slept - old(m.slept) <= SLEEP_INTERVAL_MS * NANOS && m.slept - old(m.slept) <= remaining * NANOS
                && rest.Valid() && rest.Nanos() <= SLEEP_INTERVAL_MS * NANOS
                && (ok && remaining < SLEEP_INTERVAL_MS ==> m.slept - old(m.slept) == remaining * NANOS)
                && (ok && remaining >= SLEEP_INTERVAL_MS ==> m.slept - old(m.slept) == interval.Nanos())
      ensures m.cuts >= old(m.cuts) && (m.cuts == old(m.cuts) && remaining >= SLEEP_INTERVAL_MS ==> rest == interval)
    {
      var length := interval;
      if remaining < SLEEP_INTERVAL_MS {
        length := MsecsToTimespec(remaining);
      }
      ok, rest := SleepOut(length);
    }

    /** 0 exactly when the flock was granted. With a timeout T > 0, giving up for lack of time takes T / 50 + 1
        calls of flock and T milliseconds asleep, or at most that if signals cut sleeps short: the code then
        goes on with the remainder as its interval. With T < 0 there is one attempt, and no waiting: the
        interval made of T is negative. */
    method FileLockGet(timeoutMsecs: int, ghost since: State) returns (ret: int)
      requires m.Alive(p, since) && Me().pc.Try?
      modifies m`s, m`signals, m`attempts, m`slept, m`cuts, m`refused, m`errors
      ensures m.Alive(p, since)
      ensures (ret == 0 || ret == -1) && Me() == old(Me()).(pc := if ret == 0 then SetHeld else GiveUp)
      ensures Polled(timeoutMsecs, ret, m.attempts - old(m.attempts), m.slept - old(m.slept), m.cuts != old(m.cuts),
                     m.refused - old(m.refused), m.errors != old(m.errors))
    {
      if timeoutMsecs == 0 {
        var r := m.FlockEx(p, false, since);
        return if r.Granted? then 0 else -1;
      }
      hide Polled, Inv, ProcInv, Leads, MsecsToTimespec, Timespec.Nanos, Timespec.Valid;
      var remaining := timeoutMsecs;
      var interval := MsecsToTimespec(SLEEP_INTERVAL_MS);
      ghost var n := 0;
      while true
        invariant m.Alive(p, since) && Me() == old(Me())
        invariant m.attempts == old(m.attempts) + n && m.errors == old(m.errors) && m.refused == old(m.refused)
        invariant remaining == timeoutMsecs - SLEEP_INTERVAL_MS * n
        invariant timeoutMsecs < 0 ==> n == 0
        invariant timeoutMsecs >= 0 ==> remaining >= 0 && m.slept - old(m.slept) <= timeoutMsecs * NANOS
        invariant interval.Valid() && interval.Nanos() <= SLEEP_INTERVAL_MS * NANOS
        invariant 0 <= m.slept - old(m.slept) <= SLEEP_INTERVAL_MS * n * NANOS
        invariant m.cuts >= old(m.cuts)
        invariant n == 0 ==> m.cuts == old(m.cuts)
        invariant m.cuts == old(m.cuts) ==> interval.Nanos() == SLEEP_INTERVAL_MS * NANOS
                                            && m.slept - old(m.slept) == SLEEP_INTERVAL_MS * n * NANOS
        decreases if remaining < 0 then 0 else remaining
      {
        var r := m.FlockEx(p, true, since);
        n := n + 1;
        if r.Granted? {
          GotIt(timeoutMsecs, n, m.slept - old(m.slept), m.cuts != old(m.cuts));
          return 0;
        }
        if r.OtherError? {
          Failed(timeoutMsecs, n, m.slept - old(m.slept), m.cuts != old(m.cuts));
          return -1;
        }
        var ok;
        ok, interval := Nap(remaining, interval);
        if !ok {
          m.AfterNap(p, false, since);
          if timeoutMsecs < 0 {
            Refused(timeoutMsecs);
          } else {
            Failed(timeoutMsecs, n, m.slept - old(m.slept), m.cuts != old(m.cuts));
          }
          return -1;
        }
        // a timeout below 0, for which the code would go on without end, does not get here
        assert timeoutMsecs >= 0;
        remaining := remaining - SLEEP_INTERVAL_MS;
        m.AfterNap(p, remaining >= 0, since);
        if remaining < 0 {
          GaveUp(timeoutMsecs, n, m.slept - old(m.slept), m.cuts != old(m.cuts));
          return -1;
        }
      }
    }

    /** Positive exactly when this process held the lock already; 0 when it now holds it, and then nobody
        else does; negative when it does not. It waits as file_lock_get does, unless opening the lock
        file has failed, which makes it negative at once. */
    method MosysLock(timeoutMsecs: int) returns (ret: int)
      requires Valid()
      modifies m, this
      ensures Valid() && Leads(old(m.s), m.s)
      ensures ret > 0 <==> old(isHeld)
      ensures isHeld <==> ret >= 0
      ensures isHeld ==> Alone()
      ensures m.unopened == old(m.unopened) + if ret < 0 && m.attempts == old(m.attempts) then 1 else 0
      ensures if m.attempts == old(m.attempts) then ret != 0 && m.slept == old(m.slept)
              else Polled(timeoutMsecs, ret, m.attempts - old(m.attempts), m.slept - old(m.slept), m.cuts != old(m.cuts),
                          m.refused - old(m.refused), m.errors != old(m.errors))
    {
      ghost var since := m.s;
      m.Call(p, CallLock, since);
      if isHeld {
        AloneIfOwner();
        LeadsHere(Next, m.s);
        return 1;
      }
      fd := m.OpenFile(p, since);
      if fd < 0 {
        Consistent();
        return -1;
      }
      var got := FileLockGet(timeoutMsecs, since);
      if got != 0 {
        isHeld := false;
        m.CloseAfterFailure(p, since);
        Consistent();
        return -1;
      }
      m.SetsHeld(p, since);
      isHeld := true;
      m.WritesPid(p, since);
      Consistent();
      AloneIfOwner();
      return 0;
    }

    /** 0 exactly when the lock was held; afterwards it is not, and the lock file is closed. */
    method MosysUnlock() returns (ret: int)
      requires Valid()
      modifies m, this
      ensures Valid() && Leads(old(m.s), m.s)
      ensures ret == (if old(isHeld) then 0 else -1)
      ensures !isHeld
    {
      ghost var since := m.s;
      m.Call(p, CallUnlock, since);
      if isHeld {
        m.Release(p, since);
        m.ClearsHeld(p, since);
        isHeld := false;
        Consistent();
        return 0;
      }
      Consistent();
      return -1;
    }

    lemma Consistent()
      requires Inv(m.s) && p < |m.s.procs| && Me().pc.Idle?
      ensures Leads(m.s, m.s)
      ensures Me().open == (if Me().held then {Me().fd} else {})
      ensures Me().held ==> m.s.owner == Some(Me().fd)
    {
      LeadsHere(Next, m.s);
      assert ProcInv(m.s, Me());
    }

    lemma AloneIfOwner()
      requires Inv(m.s) && p < |m.s.procs| && Owns(Me())
      ensures Alone()
    {
      forall q | 0 <= q < |m.s.procs| && q != p ensures !Owns(m.s.procs[q]) {
        if Owns(m.s.procs[q]) {
          OneOwner(m.s, p, q);
        }
      }
    }
  }
}
