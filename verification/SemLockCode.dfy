/**
 core/csem.c and core/ipc_lock.c as they are written, run by one process while all the others take
 any steps they like before each of its system calls. Every method follows the step system: where the
 C code branches on a returned value, the process stands at the action the step system names, so the
 properties of all runs are properties of the code.
 */
module SemLockCode {
  import opened Basics
  import opened TimeSpecs
  import opened SemLock
  import opened Runs
  import opened SemLockInvariant
  import opened SemLockSafety

  lemma OneStep(s: State, st: Step)
    requires Inv(s) && Enabled(s, st)
    ensures Leads(s, Apply(s, st)) && Inv(Apply(s, st))
  {
    InvStep(s, st);
    LeadsHere(Next, Apply(s, st));
    LeadsBy(Next, s, st, Apply(s, st), Apply(s, st));
  }

  /** No call gets stuck but the down of mosys_lock, and that one may give up. */
  lemma CanAct(s: State, p: nat)
    requires Inv(s) && p < |s.procs| && !s.procs[p].pc.Idle?
    ensures s.procs[p].pc.Down? ==> ActEnabled(s, s.procs[p], false)
    ensures !s.procs[p].pc.Down? ==> ActEnabled(s, s.procs[p], true)
  {
    assert PcInv(s, s.procs[p]) && LockInv(s, s.procs[p]);
  }

  lemma StaysAlive(s: State, p: nat, ok: bool, now: nat)
    requires Acts(s, p, ok, now)
    ensures var t := Apply(s, Step(p, Act(ok, now))); p < |t.procs| && t.procs[p].alive
  {
    var pc := s.procs[p].pc;
    if pc.Probe? || pc.ProbeSet? || pc.ProbeRead? || pc.ProbeEnd? {
      hide CreateAct, GetAct, LockAct;
    } else if pc.Create? || pc.Setval? || pc.Force? || pc.Destroy? {
      hide ProbeAct, GetAct, LockAct;
    } else {
      hide ProbeAct, CreateAct;
    }
  }

  /** Why a call of mosys_lock fails: a system call did; sem_otime stayed 0 for all the tries of csem_get; or the
      down was not granted, within this timeout if there is one. */
  datatype Failure = CallFailed | NotInitialised(tries: nat) | NotGranted(timeout: Option<Timespec>)

  /** The kernel together with everything the processes hold. `failures` records what has made calls of this
      process fail. */
  class Machine {
    var s: State
    ghost var failures: seq<Failure>

    constructor (platform: Platform, n: nat)
      requires Trusted(platform)
      ensures Init(s) && Inv(s) && s.platform == platform && |s.procs| == n && failures == []
    {
      failures := [];
      s := State(platform, map[], None, 0, seq(n, _ => DEAD));
      new;
      InvInit(s);
    }

    /** Process `p` is alive, and a run led here from state `since`. */
    ghost predicate Alive(p: nat, since: State)
      reads this
    {
      Inv(s) && p < |s.procs| && s.procs[p].alive && Leads(since, s)
    }

    /** The other processes run for a while; some may be born, some may die. */
    method Others(p: nat, ghost since: State)
      requires Alive(p, since)
      modifies this`s
      ensures Alive(p, since) && s.procs[p] == old(s.procs[p])
    {
      var n: int := *;
      while n > 0
        invariant Alive(p, since) && s.procs[p] == old(s.procs[p])
      {
        var st: Step := *;
        if st.p != p && Enabled(s, st) {
          OneStep(s, st);
          LeadsTwice(Next, since, s, Apply(s, st));
          OthersStay(s, st);
          s := Apply(s, st);
        }
        n := n - 1;
      }
    }

    /** The others run, then process `p` takes the action it stands at. */
    method Take(p: nat, ghost since: State) returns (ok: bool, ghost before: State, ghost now: nat)
      requires Alive(p, since) && !s.procs[p].pc.Idle?
      modifies this`s
      ensures Alive(p, since)
      ensures Inv(before) && p < |before.procs| && before.procs[p] == old(s.procs[p])
      ensures Enabled(before, Step(p, Act(ok, now))) && s == Apply(before, Step(p, Act(ok, now)))
    {
      Others(p, since);
      before := s;
      CanAct(s, p);
      ok := *;
      if !ActEnabled(s, s.procs[p], ok) {
        ok := !ok;
      }
      var t: int := *;
      if t <= 0 {
        t := 1;
      }
      now := t;
      var st := Step(p, Act(ok, t));
      OneStep(s, st);
      LeadsTwice(Next, since, s, Apply(s, st));
      StaysAlive(s, p, ok, t);
      s := Apply(s, st);
    }

    /** The code of `p` starts a method of the lock. */
    method Call(p: nat, call: Action, ghost since: State)
      requires Alive(p, since) && s.procs[p].pc.Idle? && (call.CallLock? || call.CallUnlock?)
      modifies this`s
      ensures Alive(p, since)
      ensures var me := old(s.procs[p]);
              s.procs[p] == if call.CallUnlock? then (if me.held then me.(held := false, pc := Up) else me)
                            else me.(pc := if me.sem.Some? then Check else if me.hack.None? then Probe else Create)
    {
      OneStep(s, Step(p, call));
      LeadsTwice(Next, since, s, Apply(s, Step(p, call)));
      s := Apply(s, Step(p, call));
    }

    /** semget(IPC_PRIVATE, 1, 0600) */
    method SemgetPrivate(p: nat, ghost since: State) returns (id: int)
      requires Alive(p, since) && s.procs[p].pc.Probe?
      modifies this`s, this`failures
      ensures Alive(p, since)
      ensures failures == old(failures) + (if id < 0 then [CallFailed] else [])
      ensures s.procs[p] == old(s.procs[p]).(pc := if id < 0 then Idle else ProbeSet(id))
    {
      var ok, before, _ := Take(p, since);
      id := if ok then s.nextId - 1 else -1;
      failures := failures + (if id < 0 then [CallFailed] else []);
    }

    /** semctl(id, 0, SETVAL, 1) in the probe */
    method SetvalProbe(p: nat, id: nat, ghost since: State) returns (r: int)
      requires Alive(p, since) && s.procs[p].pc == ProbeSet(id)
      modifies this`s, this`failures
      ensures Alive(p, since)
      ensures failures == old(failures) + (if r < 0 then [CallFailed] else [])
      ensures s.procs[p] == old(s.procs[p]).(pc := if r < 0 then ProbeEnd(id, None) else ProbeRead(id))
    {
      var ok, before, _ := Take(p, since);
      NoUndoProbe(before, p);
      r := if ok then 0 else -1;
      failures := failures + (if r < 0 then [CallFailed] else []);
    }

    /** csem_get_otime in the probe */
    method OtimeProbe(p: nat, id: nat, ghost since: State) returns (t: int)
      requires Alive(p, since) && s.procs[p].pc == ProbeRead(id)
      modifies this`s
      ensures Alive(p, since)
      ensures s.procs[p] == old(s.procs[p]).(pc := ProbeEnd(id, Some(t <= 0)))
    {
      var ok, before, _ := Take(p, since);
      t := if ok then s.sems[id].otime else -1;
    }

    /** semctl(id, 0, IPC_RMID); its result is not looked at */
    method RmidProbe(p: nat, id: nat, answer: Option<bool>, ghost since: State)
      requires Alive(p, since) && s.procs[p].pc == ProbeEnd(id, answer)
      modifies this`s
      ensures Alive(p, since)
      ensures var me := old(s.procs[p]);
              s.procs[p] == if answer.None? then me.(pc := Idle) else me.(hack := answer, pc := Create)
    {
      var _, _, _ := Take(p, since);
    }

    /** semget(key, 1, IPC_CREAT | IPC_EXCL | 0600); `exist` is errno == EEXIST */
    method SemgetCreate(p: nat, ghost since: State) returns (id: int, exist: bool)
      requires Alive(p, since) && s.procs[p].pc.Create?
      modifies this`s, this`failures
      ensures Alive(p, since)
      ensures failures == old(failures) + (if id < 0 && !exist then [CallFailed] else [])
      ensures s.procs[p] == old(s.procs[p]).(pc := if id >= 0 then Setval(id) else if exist then Get else Idle)
    {
      var ok, before, _ := Take(p, since);
      exist := ok && s.procs[p].pc.Get?;
      id := if ok && !exist then s.nextId - 1 else -1;
      failures := failures + (if id < 0 && !exist then [CallFailed] else []);
    }

    /** semctl(id, 0, SETVAL, val) in csem_create */
    method SetvalCreate(p: nat, id: nat, ghost since: State) returns (r: int)
      requires Alive(p, since) && s.procs[p].pc == Setval(id)
      modifies this`s, this`failures
      ensures Alive(p, since)
      ensures failures == old(failures) + (if r < 0 then [CallFailed] else [])
      ensures var me := old(s.procs[p]);
              s.procs[p] == if r < 0 then me.(pc := Destroy(id))
                            else if me.hack == Some(true) then me.(pc := Force(id))
                            else me.(sem := Some(id), pc := Check)
    {
      var ok, before, _ := Take(p, since);
      NoUndoCreate(before, p);
      r := if ok then 0 else -1;
      failures := failures + (if r < 0 then [CallFailed] else []);
    }

    /** csem_destroy after a failed SETVAL; its result is not looked at */
    method Rmid(p: nat, id: nat, ghost since: State)
      requires Alive(p, since) && s.procs[p].pc == Destroy(id)
      modifies this`s
      ensures Alive(p, since) && s.procs[p] == old(s.procs[p]).(pc := Idle)
    {
      var _, _, _ := Take(p, since);
    }

    /** csem_down in csem_create */
    method DownCreate(p: nat, id: nat, ghost since: State)
      requires Alive(p, since) && s.procs[p].pc == Force(id)
      modifies this`s
      ensures Alive(p, since) && s.procs[p] == old(s.procs[p]).(sem := Some(id), pc := Check)
    {
      var _, _, _ := Take(p, since);
    }

    /** semget(key, 1, 0600) */
    method Semget(p: nat, ghost since: State) returns (id: int)
      requires Alive(p, since) && s.procs[p].pc.Get?
      modifies this`s, this`failures
      ensures Alive(p, since)
      ensures failures == old(failures) + (if id < 0 then [CallFailed] else [])
      ensures s.procs[p] == old(s.procs[p]).(pc := if id < 0 then Idle else Wait(id, 0))
    {
      var ok, before, _ := Take(p, since);
      id := if ok && s.key.Some? then s.key.value else -1;
      failures := failures + (if id < 0 then [CallFailed] else []);
    }

    /** csem_get_otime in csem_get */
    method Otime(p: nat, id: nat, tries: nat, ghost since: State) returns (t: int)
      requires Alive(p, since) && s.procs[p].pc == Wait(id, tries) && s.procs[p].sem.None?
      modifies this`s, this`failures
      ensures Alive(p, since)
      ensures failures == old(failures) + (if t < 0 then [CallFailed] else if t == 0 && tries + 1 >= MAX_OTIME_LOOPS then [NotInitialised(tries + 1)] else [])
      ensures var me := old(s.procs[p]);
              s.procs[p] == if t < 0 then me.(pc := Idle)
                            else if t > 0 then me.(sem := Some(id), pc := Check)
                            else if tries + 1 < MAX_OTIME_LOOPS then me.(pc := Wait(id, tries + 1))
                            else me.(pc := Idle)
    {
      var ok, before, _ := Take(p, since);
      t := if ok && id in s.sems then s.sems[id].otime else -1;
      failures := failures + (if t < 0 then [CallFailed] else if t == 0 && tries + 1 >= MAX_OTIME_LOOPS then [NotInitialised(tries + 1)] else []);
    }

    /** semtimedop(id, {-1, SEM_UNDO}, timeout); no timeout means wait for ever */
    method DownTimeoutUndo(p: nat, timeout: Option<Timespec>, ghost since: State) returns (r: int)
      requires Alive(p, since) && s.procs[p].pc.Down?
      requires timeout.Some? ==> timeout.value.Valid()
      modifies this`s, this`failures
      ensures Alive(p, since)
      ensures failures == old(failures) + (if r < 0 then [NotGranted(timeout)] else [])
      ensures s.procs[p].pc == (if r < 0 then Idle else SetHeld) && s.procs[p].alive
      ensures s.procs[p].(pc := Down, undo := map[]) == old(s.procs[p]).(undo := map[])
    {
      var ok, before, _ := Take(p, since);
      r := if ok then 0 else -1;
      failures := failures + (if r < 0 then [NotGranted(timeout)] else []);
    }

    /** semop(id, {+1, SEM_UNDO}) */
    method UpUndo(p: nat, ghost since: State)
      requires Alive(p, since) && s.procs[p].pc.Up?
      modifies this`s
      ensures Alive(p, since) && s.procs[p].pc.UpDone?
      ensures s.procs[p].(pc := Up, undo := map[]) == old(s.procs[p]).(undo := map[])
    {
      var _, _, _ := Take(p, since);
    }

    // Local actions between two system calls.

    /** mosys_lock looks at is_held. */
    method ReadHeld(p: nat, ghost since: State)
      requires Alive(p, since) && s.procs[p].pc.Check?
      modifies this`s
      ensures Alive(p, since)
      ensures s.procs[p] == old(s.procs[p]).(pc := if old(s.procs[p].held) then Idle else Down)
    {
      var _, _, _ := Take(p, since);
    }

    /** mosys_lock sets is_held and returns. */
    method SetsHeld(p: nat, ghost since: State)
      requires Alive(p, since) && s.procs[p].pc.SetHeld?
      modifies this`s
      ensures Alive(p, since) && s.procs[p] == old(s.procs[p]).(held := true, pc := Idle)
    {
      var _, _, _ := Take(p, since);
    }

    /** mosys_unlock returns. */
    method Returns(p: nat, ghost since: State)
      requires Alive(p, since) && s.procs[p].pc.UpDone?
      modifies this`s
      ensures Alive(p, since) && s.procs[p] == old(s.procs[p]).(pc := Idle)
    {
      var _, _, _ := Take(p, since);
    }
  }

  lemma NoUndoProbe(s: State, p: nat)
    requires Inv(s) && p < |s.procs| && s.procs[p].pc.ProbeSet?
    ensures s.procs[p].undo - {s.procs[p].pc.id} == s.procs[p].undo
  {
    assert PcInv(s, s.procs[p]);
    NoUndo(s, s.procs[p].pc.id);
  }

  lemma NoUndoCreate(s: State, p: nat)
    requires Inv(s) && p < |s.procs| && s.procs[p].pc.Setval?
    ensures s.procs[p].undo - {s.procs[p].pc.id} == s.procs[p].undo
  {
    assert PcInv(s, s.procs[p]);
    NoUndo(s, s.procs[p].pc.id);
  }

  /** One process and its `struct ipc_lock`. */
  class Process {
    const m: Machine
    const p: nat
    var isHeld: bool
    var sem: int
    var needOtimeHack: int   // static in csem_create

    /** The process as the step system sees it. */
    ghost function Me(): Proc
      requires p < |m.s.procs|
      reads m
    {
      m.s.procs[p]
    }

    /** Between two calls: the fields are those of the step system. */
    ghost predicate Valid()
      reads this, m
    {
      && m.Alive(p, m.s) && Me().pc.Idle?
      && Me().held == isHeld
      && SemOk() && HackOk()
    }

    ghost predicate SemOk()
      requires p < |m.s.procs|
      reads this, m
    {
      if sem < 0 then Me().sem.None? else Me().sem == Some(sem)
    }

    ghost predicate HackOk()
      requires p < |m.s.procs|
      reads this, m
    {
      if needOtimeHack < 0 then Me().hack.None? else Me().hack == Some(needOtimeHack != 0)
    }

    /** Nobody else is between its down and its up. */
    ghost predicate Alone()
      reads this, m
    {
      forall q :: 0 <= q < |m.s.procs| && q != p ==> !Owns(m.s.procs[q])
    }

    /** A process starts with `SYSV_IPC_LOCK_INIT`. */
    constructor (m: Machine, p: nat)
      requires Inv(m.s) && p < |m.s.procs| && !m.s.procs[p].alive
      modifies m
      ensures this.m == m && this.p == p
      ensures Valid() && !isHeld && sem < 0 && Leads(old(m.s), m.s)
    {
      this.m, this.p := m, p;
      isHeld, sem, needOtimeHack := false, -1, -1;
      new;
      OneStep(m.s, Step(p, Start));
      m.s := Apply(m.s, Step(p, Start));
      LeadsHere(Next, m.s);
    }

    /** 1 if SETVAL sets sem_otime, 0 if not, negative on error. */
    method DoesSemctlSetOtime(ghost since: State) returns (ret: int)
      requires m.Alive(p, since) && Me().pc == Probe
      modifies m
      ensures m.Alive(p, since)
      ensures m.failures == old(m.failures) + if ret < 0 then [CallFailed] else []
      ensures Me() == if ret < 0 then old(Me()).(pc := Idle) else old(Me()).(pc := Create, hack := Some(ret == 0))
    {
      var id := m.SemgetPrivate(p, since);
      if id < 0 {
        return -1;
      }
      var set0 := m.SetvalProbe(p, id, since);
      if set0 < 0 {
        m.RmidProbe(p, id, None, since);
        return -1;
      }
      var otime := m.OtimeProbe(p, id, since);
      ret := if otime > 0 then 1 else 0;
      m.RmidProbe(p, id, Some(otime <= 0), since);
    }

    /** csem_create(key, 1). Either the identifier of a semaphore this call has created and initialised,
        or a failure; `exist` tells whether it failed because there was one already. */
    method CsemCreate(ghost since: State) returns (id: int, exist: bool)
      requires m.Alive(p, since) && HackOk() && Me().sem.None?
      requires Me().pc == if Me().hack.None? then Probe else Create
      modifies m, this`needOtimeHack
      ensures m.Alive(p, since) && HackOk()
      ensures m.failures == old(m.failures) + if id < 0 && !exist then [CallFailed] else []
      ensures Me().held == old(Me().held)
      ensures if id >= 0 then Me().pc == Check && Me().sem == Some(id)
              else Me().pc == (if exist then Get else Idle) && Me().sem.None?
    {
      hide Inv, Leads;
      if needOtimeHack < 0 {
        var ret := DoesSemctlSetOtime(since);
        if ret < 0 {
          return -1, false;
        }
        needOtimeHack := if ret == 0 then 1 else 0;
      }
      id, exist := m.SemgetCreate(p, since);
      if id < 0 {
        return -1, exist;
      }
      var r := m.SetvalCreate(p, id, since);
      if r < 0 {
        m.Rmid(p, id, since);
        return -1, false;
      }
      if needOtimeHack != 0 {
        m.DownCreate(p, id, since);
      }
    }

    /** csem_get(key): a semaphore whose sem_otime was seen non-zero, or -1. */
    method CsemGet(ghost since: State) returns (id: int)
      requires m.Alive(p, since) && Me().pc.Get? && Me().sem.None?
      modifies m
      ensures m.Alive(p, since) && Me().held == old(Me().held) && Me().hack == old(Me().hack)
      ensures id >= 0 || m.failures == old(m.failures) + [CallFailed] || m.failures == old(m.failures) + [NotInitialised(1000)]
      ensures id >= 0 ==> m.failures == old(m.failures)
      ensures if id >= 0 then Me().pc == Check && Me().sem == Some(id) else Me().pc.Idle? && Me().sem.None?
    {
      hide Inv, Leads;
      id := m.Semget(p, since);
      if id < 0 {
        return -1;
      }
      for i := 0 to MAX_OTIME_LOOPS
        invariant m.Alive(p, since) && id >= 0
        invariant m.failures == old(m.failures) + if i < MAX_OTIME_LOOPS then [] else [NotInitialised(1000)]
        invariant Me() == old(Me()).(pc := if i < MAX_OTIME_LOOPS then Wait(id, i) else Idle)
      {
        var otime := m.Otime(p, id, i, since);
        if otime < 0 {
          return -1;
        }
        if otime > 0 {
          return id;
        }
      }
      return -1;
    }

    /** csem_get_or_create(key, 1) */
    method CsemGetOrCreate(ghost since: State) returns (id: int)
      requires m.Alive(p, since) && HackOk() && Me().sem.None?
      requires Me().pc == if Me().hack.None? then Probe else Create
      modifies m, this`needOtimeHack
      ensures m.Alive(p, since) && HackOk() && Me().held == old(Me().held)
      ensures id >= 0 || m.failures == old(m.failures) + [CallFailed] || m.failures == old(m.failures) + [NotInitialised(1000)]
      ensures id >= 0 ==> m.failures == old(m.failures)
      ensures if id >= 0 then Me().pc == Check && Me().sem == Some(id) else Me().pc.Idle? && Me().sem.None?
    {
      var exist;
      id, exist := CsemCreate(since);
      if id >= 0 || !exist {
        return id;
      }
      id := CsemGet(since);
      if id < 0 {
        return -1;
      }
    }

    /** lock_init: the lock has a semaphore that is known to be initialised, or -1. */
    method LockInit(ghost since: State) returns (r: int)
      requires m.Alive(p, since) && SemOk() && HackOk() && Me().held == isHeld
      requires Me().pc == if sem >= 0 then Check else if Me().hack.None? then Probe else Create
      modifies m, this`needOtimeHack, this`sem
      ensures m.Alive(p, since) && SemOk() && HackOk() && Me().held == isHeld
      ensures r == 0 || r == -1
      ensures r == 0 || m.failures == old(m.failures) + [CallFailed] || m.failures == old(m.failures) + [NotInitialised(1000)]
      ensures r == 0 ==> m.failures == old(m.failures)
      ensures if r == 0 then Me().pc == Check else Me().pc == Idle && sem < 0 && !isHeld
    {
      if sem < 0 {
        var id := CsemGetOrCreate(since);
        if id < 0 {
          HeldNeedsSem();
          return -1;
        }
        sem := id;
      }
      return 0;
    }

    /** The last part of mosys_lock: down with a timeout, then remember that the lock is held. */
    method Acquire(timeoutMsecs: int, ghost since: State) returns (ret: int)
      requires m.Alive(p, since) && SemOk() && HackOk() && Me().pc == Down && !Me().held && !isHeld
      modifies m, this`isHeld
      ensures m.Alive(p, since) && SemOk() && HackOk() && Me().pc.Idle? && Me().held == isHeld
      ensures ret == 0 || ret == -1
      ensures ret >= 0 ==> m.failures == old(m.failures)
      ensures ret < 0 ==>
                exists t: Option<Timespec> ::
                  && m.failures == old(m.failures) + [NotGranted(t)]
                  && (t.None? <==> timeoutMsecs < 0)
                  && (t.Some? ==> t.value.Valid() && t.value.Nanos() == timeoutMsecs * 1_000_000)
      ensures isHeld <==> ret == 0
      ensures isHeld ==> Alone()
    {
      var timeout := if timeoutMsecs >= 0 then Some(MsecsToTimespec(timeoutMsecs)) else None;
      ret := m.DownTimeoutUndo(p, timeout, since);
      if ret < 0 {
        return -1;
      }
      m.SetsHeld(p, since);
      isHeld := true;
      AloneIfOwner();
      return 0;
    }

    /** Positive exactly when this process held the lock already; 0 when it now holds it, and then nobody
        else does; negative when it does not, and then exactly one thing has failed. */
    method MosysLock(timeoutMsecs: int) returns (ret: int)
      requires Valid()
      modifies m, this
      ensures Valid() && Leads(old(m.s), m.s)
      ensures ret > 0 <==> old(isHeld)
      ensures isHeld <==> ret >= 0
      ensures isHeld ==> Alone()
      ensures ret >= 0 ==> m.failures == old(m.failures)
      ensures ret < 0 ==>
                exists f: Failure ::
                  && m.failures == old(m.failures) + [f]
                  && (f.NotInitialised? ==> f.tries == 1000)
                  && (f.NotGranted? ==>
                        && (f.timeout.None? <==> timeoutMsecs < 0)
                        && (f.timeout.Some? ==> f.timeout.value.Valid() && f.timeout.value.Nanos() == timeoutMsecs * 1_000_000))
    {
      hide Inv, CanLead, Apply, Enabled, MsecsToTimespec;
      ghost var since := m.s;
      m.Call(p, CallLock, since);
      var r := LockInit(since);
      if r < 0 {
        LeadsHere(Next, m.s);
        return -1;
      }
      m.ReadHeld(p, since);
      if isHeld {
        AloneIfOwner();
        LeadsHere(Next, m.s);
        return 1;
      }
      ret := Acquire(timeoutMsecs, since);
      LeadsHere(Next, m.s);
    }

    /** 0 exactly when the lock was held; afterwards it is not. */
    method MosysUnlock() returns (ret: int)
      requires Valid()
      modifies m, this
      ensures Valid() && Leads(old(m.s), m.s)
      ensures ret == (if old(isHeld) then 0 else -1)
      ensures !isHeld
    {
      ghost var since := m.s;
      m.Call(p, CallUnlock, since);
      if isHeld {
        isHeld := false;
        m.UpUndo(p, since);
        m.Returns(p, since);
        LeadsHere(Next, m.s);
        return 0;
      }
      LeadsHere(Next, m.s);
      return -1;
    }

    lemma HeldNeedsSem()
      requires Inv(m.s) && p < |m.s.procs|
      requires Me().sem.None?
      ensures !Me().held
    {
      assert LockInv(m.s, Me());
    }

    lemma AloneIfOwner()
      requires Inv(m.s) && p < |m.s.procs| && Owns(Me())
      ensures Alone()
    {
      forall q | 0 <= q < |m.s.procs| && q != p ensures !Owns(m.s.procs[q]) {
        if Owns(m.s.procs[q]) {
          OneOwner(m.s, p, q);
        }
      }
    }
  }
}
