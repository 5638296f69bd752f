/** The invariant of the semaphore protocol, and that every step keeps it. */
module SemLockInvariant {
  import opened Basics
  import opened SemLock

  // ----- Invariant --------------------------------------------------------------------------

  /** The platforms on which the answer of the probe can be trusted. */
  predicate Trusted(pf: Platform) {
    !(pf.setvalSetsOtime && pf.statMayFail)
  }

  /** A process that has done its down and not yet its up. */
  predicate Owns(pr: Proc) {
    pr.held || pr.pc.SetHeld? || pr.pc.Up?
  }

  /** The semaphore a process is alone in working on. */
  function Busy(pc: Pc): Option<nat> {
    match pc
    case ProbeSet(id) => Some(id)
    case ProbeRead(id) => Some(id)
    case ProbeEnd(id, _) => Some(id)
    case Setval(id) => Some(id)
    case Force(id) => Some(id)
    case Destroy(id) => Some(id)
    case _ => None
  }

  /** The creator of the key's semaphore, before csem_create is through. */
  predicate Creating(pc: Pc) {
    pc.Setval? || pc.Force? || pc.Destroy?
  }

  predicate HasSem(pc: Pc) {
    pc.Check? || pc.Down? || pc.SetHeld? || pc.Up? || pc.UpDone?
  }

  predicate Initialised(s: State) {
    s.key.Some? && s.key.value in s.sems && s.sems[s.key.value].otime > 0
  }

  function SumUndo(procs: seq<Proc>, id: nat): int {
    if procs == [] then 0 else Undo(procs[0], id) + SumUndo(procs[1..], id)
  }

  ghost predicate LockInv(s: State, pr: Proc) {
    && (pr.sem.Some? ==> Initialised(s) && s.key == pr.sem)
    && pr.undo.Keys <= (if pr.sem.Some? then {pr.sem.value} else {})
    && (pr.sem.Some? ==> Undo(pr, pr.sem.value) == if Owns(pr) then 1 else 0)
    && (pr.held ==> pr.sem.Some? && (pr.pc.Idle? || pr.pc.Check?))
    && (HasSem(pr.pc) ==> pr.sem.Some?)
    && (!HasSem(pr.pc) && !pr.pc.Idle? ==> pr.sem.None?)
    && (!pr.alive ==> pr == DEAD)
  }

  ghost predicate PcInv(s: State, pr: Proc) {
    && (pr.hack.Some? ==> pr.hack.value != s.platform.setvalSetsOtime)
    && (Creating(pr.pc) ==> pr.hack.Some?)
    && match pr.pc
       case ProbeSet(id) => id in s.sems && s.key != Some(id) && s.sems[id] == Sem(0, 0)
       case ProbeRead(id) => id in s.sems && s.key != Some(id) && (s.sems[id].otime > 0 <==> s.platform.setvalSetsOtime)
       case ProbeEnd(id, a) => id < s.nextId && s.key != Some(id) && (a.Some? ==> a.value != s.platform.setvalSetsOtime)
       case Setval(id) => s.key == Some(id) && id in s.sems && s.sems[id] == Sem(0, 0)
       case Force(id) => s.key == Some(id) && id in s.sems && s.sems[id] == Sem(2, 0) && pr.hack == Some(true)
       case Destroy(id) => s.key == Some(id) && id in s.sems && s.sems[id].otime == 0
       case Wait(id, tries) => id < s.nextId && (id in s.sems ==> s.key == Some(id)) && tries < MAX_OTIME_LOOPS
       case Create => pr.hack.Some?
       case _ => true
  }

  ghost predicate KernelInv(s: State) {
    && (forall id :: id in s.sems ==> id < s.nextId)
    && (s.key.Some? ==> s.key.value in s.sems)
    && (Initialised(s) ==>
         var id := s.key.value;
         && s.sems[id].val >= 0
         && s.sems[id].val + SumUndo(s.procs, id) == 1)
  }

  ghost predicate Alone(s: State) {
    forall p, q :: 0 <= p < q < |s.procs| && Busy(s.procs[p].pc).Some? ==>
                     Busy(s.procs[p].pc) != Busy(s.procs[q].pc)
  }

  ghost predicate Inv(s: State) {
    && Trusted(s.platform)
    && KernelInv(s)
    && Alone(s)
    && (forall p :: 0 <= p < |s.procs| ==> PcInv(s, s.procs[p]))
    && (forall p :: 0 <= p < |s.procs| ==> LockInv(s, s.procs[p]))
  }

  // ----- Sums of adjustments ----------------------------------------------------------------

  lemma {:induction false} SumUpdate(procs: seq<Proc>, i: nat, pr: Proc, id: nat)
    requires i < |procs|
    ensures SumUndo(procs[i := pr], id) == SumUndo(procs, id) - Undo(procs[i], id) + Undo(pr, id)
  {
    if i == 0 {
      assert procs[i := pr][1..] == procs[1..];
    } else {
      assert procs[i := pr][1..] == procs[1..][i - 1 := pr];
      SumUpdate(procs[1..], i - 1, pr, id);
    }
  }

  lemma {:induction false} SumZero(procs: seq<Proc>, id: nat)
    requires forall p :: 0 <= p < |procs| ==> Undo(procs[p], id) == 0
    ensures SumUndo(procs, id) == 0
  {
    if procs != [] {
      SumZero(procs[1..], id);
    }
  }

  /** With no negative adjustment, any one of them, and any two, are bounded by the sum. */
  lemma {:induction false} SumBounds(procs: seq<Proc>, id: nat, p: nat, q: nat)
    requires p <= q < |procs|
    requires forall i :: 0 <= i < |procs| ==> Undo(procs[i], id) >= 0
    ensures Undo(procs[q], id) + (if p < q then Undo(procs[p], id) else 0) <= SumUndo(procs, id)
    ensures SumUndo(procs[1..], id) >= 0
  {
    if |procs| > 1 {
      var rest := procs[1..];
      if q == 0 {
        SumBounds(rest, id, 0, 0);
      } else {
        SumBounds(rest, id, if p == 0 then q - 1 else p - 1, q - 1);
      }
      assert SumUndo(rest, id) == Undo(rest[0], id) + SumUndo(rest[1..], id);
    }
  }

  /** Nobody holds an adjustment on a semaphore other than an initialised key's. */
  lemma NoUndo(s: State, id: nat)
    requires Inv(s) && (s.key != Some(id) || !Initialised(s))
    ensures forall p :: 0 <= p < |s.procs| ==> id !in s.procs[p].undo
    ensures ClearUndo(s.procs, id) == s.procs
    ensures SumUndo(s.procs, id) == 0
  {
    forall p | 0 <= p < |s.procs| ensures id !in s.procs[p].undo && ClearUndo(s.procs, id)[p] == s.procs[p] {
      assert LockInv(s, s.procs[p]);
      assert s.procs[p].undo - {id} == s.procs[p].undo;
    }
    SumZero(s.procs, id);
  }

  // ----- Every step keeps the invariant -------------------------------------------------------

  lemma InvLocal(s: State, p: nat, pr: Proc)
    requires Inv(s) && p < |s.procs|
    requires PcInv(s, pr) && LockInv(s, pr)
    requires pr.undo == s.procs[p].undo
    requires Busy(pr.pc).Some? ==> Busy(pr.pc) == Busy(s.procs[p].pc)
    ensures Inv(Put(s, p, pr))
  {
    var t := Put(s, p, pr);
    forall q | 0 <= q < |s.procs| ensures PcInv(t, t.procs[q]) && LockInv(t, t.procs[q]) {
      if q != p {
        assert PcInv(s, s.procs[q]) && LockInv(s, s.procs[q]);
      }
    }
    if s.key.Some? {
      SumUpdate(s.procs, p, pr, s.key.value);
    }
  }

  /** Only semaphore `b` may differ, and it is not resurrected. */
  ghost predicate SameBut(s: State, t: State, b: nat) {
    && t.platform == s.platform && t.nextId >= s.nextId && t.key == s.key
    && (forall id :: id != b ==> (id in t.sems <==> id in s.sems))
    && (forall id :: id != b && id in t.sems ==> id in s.sems && t.sems[id] == s.sems[id])
    && (b in t.sems ==> b < t.nextId && (b in s.sems || b >= s.nextId))
  }

  lemma FramePc(s: State, t: State, b: nat, pr: Proc)
    requires PcInv(s, pr) && SameBut(s, t, b)
    requires Busy(pr.pc) != Some(b)
    ensures PcInv(t, pr)
  {}

  /** A step of `p` on a semaphore `b` that is not the key's keeps the invariant. */
  lemma InvPrivate(s: State, t: State, p: nat, pr: Proc, b: nat)
    requires Inv(s) && p < |s.procs| && t.procs == s.procs[p := pr]
    requires SameBut(s, t, b) && s.key != Some(b)
    requires PcInv(t, pr) && LockInv(t, pr) && pr.undo == s.procs[p].undo
    requires Busy(s.procs[p].pc) == Some(b) || (Busy(s.procs[p].pc).None? && b >= s.nextId)
    requires Busy(pr.pc).Some? ==> Busy(pr.pc) == Some(b)
    ensures Inv(t)
  {
    forall q | 0 <= q < |s.procs| && q != p
      ensures Busy(s.procs[q].pc) != Some(b) && PcInv(t, s.procs[q]) && LockInv(t, s.procs[q])
    {
      assert PcInv(s, s.procs[q]) && LockInv(s, s.procs[q]);
      FramePc(s, t, b, s.procs[q]);
    }
    if s.key.Some? {
      SumUpdate(s.procs, p, pr, s.key.value);
    }
  }

  predicate Acts(s: State, p: nat, ok: bool, now: nat) {
    p < |s.procs| && s.procs[p].alive && now > 0 && ActEnabled(s, s.procs[p], ok)
  }

  lemma InvProbe(s: State, p: nat, ok: bool, now: nat)
    requires Inv(s) && Acts(s, p, ok, now) && s.procs[p].pc.Probe?
    ensures Inv(ProbeAct(s, p, ok, now))
  {
    var pr := s.procs[p];
    assert PcInv(s, pr) && LockInv(s, pr);
    var t := ProbeAct(s, p, ok, now);
    InvPrivate(s, t, p, t.procs[p], s.nextId);
  }

  lemma InvProbeSet(s: State, p: nat, ok: bool, now: nat)
    requires Inv(s) && Acts(s, p, ok, now) && s.procs[p].pc.ProbeSet?
    ensures Inv(ProbeAct(s, p, ok, now))
  {
    var pr := s.procs[p];
    assert PcInv(s, pr) && LockInv(s, pr);
    var t := ProbeAct(s, p, ok, now);
    NoUndo(s, pr.pc.id);
    assert pr.undo - {pr.pc.id} == pr.undo;
    InvPrivate(s, t, p, t.procs[p], pr.pc.id);
  }

  lemma InvProbeRead(s: State, p: nat, ok: bool, now: nat)
    requires Inv(s) && Acts(s, p, ok, now) && s.procs[p].pc.ProbeRead?
    ensures Inv(ProbeAct(s, p, ok, now))
  {
    var pr := s.procs[p];
    assert PcInv(s, pr) && LockInv(s, pr);
    var t := ProbeAct(s, p, ok, now);
    InvLocal(s, p, t.procs[p]);
  }

  lemma InvProbeEnd(s: State, p: nat, ok: bool, now: nat)
    requires Inv(s) && Acts(s, p, ok, now) && s.procs[p].pc.ProbeEnd?
    ensures Inv(ProbeAct(s, p, ok, now))
  {
    var pr := s.procs[p];
    assert PcInv(s, pr) && LockInv(s, pr);
    var t := ProbeAct(s, p, ok, now);
    EndOfProbe(s, p, ok, now);
    if ok {
      InvPrivate(s, t, p, t.procs[p], pr.pc.id);
    } else {
      InvLocal(s, p, t.procs[p]);
    }
  }

  lemma EndOfProbe(s: State, p: nat, ok: bool, now: nat)
    requires Acts(s, p, ok, now) && s.procs[p].pc.ProbeEnd? && PcInv(s, s.procs[p]) && LockInv(s, s.procs[p])
    ensures var t := ProbeAct(s, p, ok, now);
      && PcInv(t, t.procs[p]) && LockInv(t, t.procs[p])
      && Busy(t.procs[p].pc).None? && t.procs[p].undo == s.procs[p].undo
      && t.procs == s.procs[p := t.procs[p]] && SameBut(s, t, s.procs[p].pc.id)
      && (!ok ==> t == Put(s, p, t.procs[p]))
  {
    assert ProbeAct(s, p, ok, now).key == s.key;
  }

  /** Before the key is initialised no process has a semaphore in its lock, nor any adjustment. */
  lemma Uninitialised(s: State)
    requires Inv(s) && !Initialised(s)
    ensures forall q :: 0 <= q < |s.procs| ==>
                        s.procs[q].sem.None? && s.procs[q].undo == map[] && !HasSem(s.procs[q].pc)
  {
    forall q | 0 <= q < |s.procs|
      ensures s.procs[q].sem.None? && s.procs[q].undo == map[] && !HasSem(s.procs[q].pc)
    {
      assert LockInv(s, s.procs[q]);
    }
  }

  /** A step of the creator `p` on the key's semaphore `b`, up to and including its initialisation. */
  lemma InvCreator(s: State, t: State, p: nat, pr: Proc, b: nat)
    requires Inv(s) && p < |s.procs| && t.procs == s.procs[p := pr]
    requires SameBut(s, t, b) && s.key == Some(b) && !Initialised(s) && Busy(s.procs[p].pc) == Some(b)
    requires b in t.sems && (t.sems[b].otime > 0 ==> t.sems[b].val == 1)
    requires PcInv(t, pr) && LockInv(t, pr) && pr.undo == map[]
    requires Busy(pr.pc).Some? ==> Busy(pr.pc) == Some(b)
    ensures Inv(t)
  {
    Uninitialised(s);
    forall q | 0 <= q < |s.procs| && q != p
      ensures Busy(s.procs[q].pc) != Some(b) && PcInv(t, s.procs[q]) && LockInv(t, s.procs[q])
    {
      assert PcInv(s, s.procs[q]) && LockInv(s, s.procs[q]);
      FramePc(s, t, b, s.procs[q]);
    }
    SumZero(t.procs, b);
  }

  lemma InvSetval(s: State, p: nat, ok: bool, now: nat)
    requires Inv(s) && Acts(s, p, ok, now) && s.procs[p].pc.Setval?
    ensures Inv(CreateAct(s, p, ok, now))
  {
    var pr := s.procs[p];
    assert PcInv(s, pr) && LockInv(s, pr);
    var t := CreateAct(s, p, ok, now);
    var b := pr.pc.id;
    NoUndo(s, b);
    Uninitialised(s);
    if ok {
      assert pr.undo - {b} == map[];
      InvCreator(s, t, p, t.procs[p], b);
    } else {
      InvLocal(s, p, t.procs[p]);
    }
  }

  lemma InvForce(s: State, p: nat, ok: bool, now: nat)
    requires Inv(s) && Acts(s, p, ok, now) && s.procs[p].pc.Force?
    ensures Inv(CreateAct(s, p, ok, now))
  {
    var pr := s.procs[p];
    assert PcInv(s, pr) && LockInv(s, pr);
    var t := CreateAct(s, p, ok, now);
    Uninitialised(s);
    InvCreator(s, t, p, t.procs[p], pr.pc.id);
  }

  /** The key is bound or unbound while it is not initialised. */
  lemma InvBind(s: State, t: State, p: nat, pr: Proc, b: nat)
    requires Inv(s) && !Initialised(s) && p < |s.procs| && t.procs == s.procs[p := pr]
    requires t.platform == s.platform && s.nextId <= t.nextId
    requires || (s.key.None? && t.key == Some(b) && b == s.nextId < t.nextId && t.sems == s.sems[b := Sem(0, 0)]
                 && Busy(s.procs[p].pc).None?)
             || (s.key == Some(b) && t.key.None? && t.sems == s.sems - {b} && Busy(s.procs[p].pc) == Some(b))
    requires PcInv(t, pr) && LockInv(t, pr)
    requires Busy(pr.pc).Some? ==> t.key == Some(b) && Busy(pr.pc) == Some(b)
    ensures Inv(t)
  {
    Uninitialised(s);
    forall q | 0 <= q < |s.procs| && q != p
      ensures Busy(s.procs[q].pc) != Some(b) && PcInv(t, s.procs[q]) && LockInv(t, s.procs[q])
    {
      assert PcInv(s, s.procs[q]) && LockInv(s, s.procs[q]);
    }
  }

  lemma InvCreate(s: State, p: nat, ok: bool, now: nat)
    requires Inv(s) && Acts(s, p, ok, now) && s.procs[p].pc.Create?
    ensures Inv(CreateAct(s, p, ok, now))
  {
    var pr := s.procs[p];
    assert PcInv(s, pr) && LockInv(s, pr);
    var t := CreateAct(s, p, ok, now);
    if ok && s.key.None? {
      InvBind(s, t, p, t.procs[p], s.nextId);
    } else {
      InvLocal(s, p, t.procs[p]);
    }
  }

  lemma InvDestroy(s: State, p: nat, ok: bool, now: nat)
    requires Inv(s) && Acts(s, p, ok, now) && s.procs[p].pc.Destroy?
    ensures Inv(CreateAct(s, p, ok, now))
  {
    var pr := s.procs[p];
    assert PcInv(s, pr) && LockInv(s, pr);
    var t := CreateAct(s, p, ok, now);
    if ok {
      InvBind(s, t, p, t.procs[p], pr.pc.id);
    } else {
      InvLocal(s, p, t.procs[p]);
    }
  }

  lemma InvGet(s: State, p: nat, ok: bool, now: nat)
    requires Inv(s) && Acts(s, p, ok, now) && s.procs[p].pc.Get?
    ensures Inv(GetAct(s, p, ok))
  {
    var pr := s.procs[p];
    assert PcInv(s, pr) && LockInv(s, pr);
    var t := GetAct(s, p, ok);
    InvLocal(s, p, t.procs[p]);
  }

  lemma InvWait(s: State, p: nat, ok: bool, now: nat)
    requires Inv(s) && Acts(s, p, ok, now) && s.procs[p].pc.Wait?
    ensures Inv(GetAct(s, p, ok))
  {
    var pr := s.procs[p];
    assert PcInv(s, pr) && LockInv(s, pr);
    var t := GetAct(s, p, ok);
    InvLocal(s, p, t.procs[p]);
  }

  /** A down or an up on the initialised semaphore. */
  lemma InvSemop(s: State, p: nat, pr: Proc, delta: int, now: nat)
    requires Inv(s) && p < |s.procs| && now > 0 && Initialised(s) && pr.sem == s.key
    requires s.sems[s.key.value].val + delta >= 0
    requires pr.undo == s.procs[p].undo && Busy(s.procs[p].pc).None? && Busy(pr.pc).None?
    requires var t := Semop(s, p, pr, delta, now); PcInv(t, t.procs[p]) && LockInv(t, t.procs[p])
    ensures Inv(Semop(s, p, pr, delta, now))
  {
    var t := Semop(s, p, pr, delta, now);
    var b := s.key.value;
    forall q | 0 <= q < |s.procs| && q != p
      ensures PcInv(t, s.procs[q]) && LockInv(t, s.procs[q])
    {
      assert PcInv(s, s.procs[q]) && LockInv(s, s.procs[q]);
    }
    SumUpdate(s.procs, p, t.procs[p], b);
  }

  lemma InvDown(s: State, p: nat, ok: bool, now: nat)
    requires Inv(s) && Acts(s, p, ok, now) && s.procs[p].pc.Down?
    ensures Inv(LockAct(s, p, ok, now))
  {
    var pr := s.procs[p];
    assert PcInv(s, pr) && LockInv(s, pr);
    var t := LockAct(s, p, ok, now);
    if ok {
      InvSemop(s, p, pr.(pc := SetHeld), -1, now);
    } else {
      InvLocal(s, p, t.procs[p]);
    }
  }

  lemma InvUp(s: State, p: nat, ok: bool, now: nat)
    requires Inv(s) && Acts(s, p, ok, now) && s.procs[p].pc.Up?
    ensures Inv(LockAct(s, p, ok, now))
  {
    var pr := s.procs[p];
    assert PcInv(s, pr) && LockInv(s, pr);
    var t := LockAct(s, p, ok, now);
    InvSemop(s, p, pr.(pc := UpDone), 1, now);
  }

  lemma InvCheck(s: State, p: nat, ok: bool, now: nat)
    requires Inv(s) && Acts(s, p, ok, now) && s.procs[p].pc.Check?
    ensures Inv(LockAct(s, p, ok, now))
  {
    var pr := s.procs[p];
    assert PcInv(s, pr) && LockInv(s, pr);
    var t := LockAct(s, p, ok, now);
    InvLocal(s, p, t.procs[p]);
  }

  lemma InvSetHeld(s: State, p: nat, ok: bool, now: nat)
    requires Inv(s) && Acts(s, p, ok, now) && s.procs[p].pc.SetHeld?
    ensures Inv(LockAct(s, p, ok, now))
  {
    var pr := s.procs[p];
    assert PcInv(s, pr) && LockInv(s, pr);
    var t := LockAct(s, p, ok, now);
    InvLocal(s, p, t.procs[p]);
  }

  lemma InvUpDone(s: State, p: nat, ok: bool, now: nat)
    requires Inv(s) && Acts(s, p, ok, now) && s.procs[p].pc.UpDone?
    ensures Inv(LockAct(s, p, ok, now))
  {
    var pr := s.procs[p];
    assert PcInv(s, pr) && LockInv(s, pr);
    var t := LockAct(s, p, ok, now);
    InvLocal(s, p, t.procs[p]);
  }

  /** Death at any point: the adjustments go back, and the invariant holds without the process. */
  lemma InvCrash(s: State, p: nat)
    requires Inv(s) && Enabled(s, Step(p, Crash))
    ensures Inv(Apply(s, Step(p, Crash)))
  {
    var t := Apply(s, Step(p, Crash));
    CrashKernel(s, p);
    forall q | 0 <= q < |s.procs| && q != p ensures PcInv(t, s.procs[q]) && LockInv(t, s.procs[q]) {
      CrashOthers(s, p, q);
    }
    hide KernelInv, PcInv, LockInv, Apply;
    assert t.procs == s.procs[p := DEAD];
  }

  lemma CrashKernel(s: State, p: nat)
    requires Inv(s) && Enabled(s, Step(p, Crash))
    ensures var t := Apply(s, Step(p, Crash)); KernelInv(t) && PcInv(t, DEAD) && LockInv(t, DEAD)
  {
    var pr := s.procs[p];
    assert LockInv(s, pr);
    hide Inv;
    if s.key.Some? {
      SumUpdate(s.procs, p, DEAD, s.key.value);
    }
  }

  lemma CrashOthers(s: State, p: nat, q: nat)
    requires Inv(s) && Enabled(s, Step(p, Crash)) && q < |s.procs| && q != p
    ensures var t := Apply(s, Step(p, Crash)); PcInv(t, s.procs[q]) && LockInv(t, s.procs[q])
  {
    assert PcInv(s, s.procs[q]) && LockInv(s, s.procs[q]) && LockInv(s, s.procs[p]);
    if !Initialised(s) {
      Uninitialised(s);
    }
    hide Inv;
  }

  lemma InvCall(s: State, st: Step)
    requires Inv(s) && Enabled(s, st) && (st.act.Start? || st.act.CallLock? || st.act.CallUnlock?)
    ensures Inv(Apply(s, st))
  {
    assert PcInv(s, s.procs[st.p]) && LockInv(s, s.procs[st.p]);
    InvLocal(s, st.p, Apply(s, st).procs[st.p]);
  }

  /** Every step of every process, its death at any point included, keeps the invariant. */
  lemma InvStep(s: State, st: Step)
    requires Inv(s) && Enabled(s, st)
    ensures Inv(Apply(s, st))
  {
    hide Inv, ProbeAct, CreateAct, GetAct, LockAct;
    match st.act
    case Crash => InvCrash(s, st.p);
    case Act(ok, now) =>
      match s.procs[st.p].pc {
        case Idle =>
        case Probe => InvProbe(s, st.p, ok, now);
        case ProbeSet(_) => InvProbeSet(s, st.p, ok, now);
        case ProbeRead(_) => InvProbeRead(s, st.p, ok, now);
        case ProbeEnd(_, _) => InvProbeEnd(s, st.p, ok, now);
        case Create => InvCreate(s, st.p, ok, now);
        case Setval(_) => InvSetval(s, st.p, ok, now);
        case Force(_) => InvForce(s, st.p, ok, now);
        case Destroy(_) => InvDestroy(s, st.p, ok, now);
        case Get => InvGet(s, st.p, ok, now);
        case Wait(_, _) => InvWait(s, st.p, ok, now);
        case Check => InvCheck(s, st.p, ok, now);
        case Down => InvDown(s, st.p, ok, now);
        case SetHeld => InvSetHeld(s, st.p, ok, now);
        case Up => InvUp(s, st.p, ok, now);
        case UpDone => InvUpDone(s, st.p, ok, now);
      }
    case _ => InvCall(s, st);
  }

  /** A step of `p` touches no other process, and leaves an initialised key as it is. */
  ghost predicate Frame(s: State, t: State, p: nat) {
    && |t.procs| == |s.procs|
    && (forall q :: 0 <= q < |s.procs| && q != p ==> t.procs[q] == s.procs[q])
    && (Initialised(s) ==> Initialised(t) && t.key == s.key)
  }

  lemma ProbeFrame(s: State, p: nat, ok: bool, now: nat)
    requires Inv(s) && Acts(s, p, ok, now)
    requires var pc := s.procs[p].pc; pc.Probe? || pc.ProbeSet? || pc.ProbeRead? || pc.ProbeEnd?
    ensures Frame(s, ProbeAct(s, p, ok, now), p)
  {
    assert PcInv(s, s.procs[p]) && KernelInv(s);
    if s.procs[p].pc.ProbeSet? {
      NoUndo(s, s.procs[p].pc.id);
    }
    hide Inv;
  }

  lemma CreateFrame(s: State, p: nat, ok: bool, now: nat)
    requires Inv(s) && Acts(s, p, ok, now)
    requires var pc := s.procs[p].pc; pc.Create? || pc.Setval? || pc.Force? || pc.Destroy?
    ensures Frame(s, CreateAct(s, p, ok, now), p)
  {
    assert PcInv(s, s.procs[p]) && KernelInv(s);
    if s.procs[p].pc.Setval? {
      NoUndo(s, s.procs[p].pc.id);
    }
    hide Inv;
  }

  lemma LockFrame(s: State, p: nat, ok: bool, now: nat)
    requires Inv(s) && Acts(s, p, ok, now)
    requires var pc := s.procs[p].pc; pc.Check? || pc.Down? || pc.SetHeld? || pc.Up? || pc.UpDone?
    ensures Frame(s, LockAct(s, p, ok, now), p)
  {
    assert LockInv(s, s.procs[p]);
    hide Inv;
  }

  lemma StepFrame(s: State, st: Step)
    requires Inv(s) && Enabled(s, st)
    ensures Frame(s, Apply(s, st), st.p)
  {
    hide Inv, ProbeAct, CreateAct, LockAct, Initialised;
    match st.act
    case Act(ok, now) =>
      var pc := s.procs[st.p].pc;
      if pc.Probe? || pc.ProbeSet? || pc.ProbeRead? || pc.ProbeEnd? {
        ProbeFrame(s, st.p, ok, now);
      } else if pc.Create? || pc.Setval? || pc.Force? || pc.Destroy? {
        CreateFrame(s, st.p, ok, now);
      } else if !pc.Get? && !pc.Wait? {
        LockFrame(s, st.p, ok, now);
      } else {
        InitialisedByKey(s, Apply(s, st));
      }
    case Crash => CrashFrame(s, st.p);
    case _ => InitialisedByKey(s, Apply(s, st));
  }

  lemma InitialisedByKey(s: State, t: State)
    requires t.key == s.key && t.sems == s.sems
    ensures Initialised(t) == Initialised(s)
  {}

  lemma CrashFrame(s: State, p: nat)
    requires Enabled(s, Step(p, Crash))
    ensures Frame(s, Apply(s, Step(p, Crash)), p)
  {}

  lemma OthersStay(s: State, st: Step)
    requires Inv(s) && Enabled(s, st)
    ensures |Apply(s, st).procs| == |s.procs|
    ensures forall q :: 0 <= q < |s.procs| && q != st.p ==> Apply(s, st).procs[q] == s.procs[q]
  {
    hide Inv, Apply, Enabled;
    StepFrame(s, st);
  }

  lemma {:induction false} InvRun(states: seq<State>, steps: seq<Step>, i: nat)
    requires Run(states, steps) && i < |states| && Inv(states[0])
    ensures Inv(states[i])
  {
    if i > 0 {
      InvRun(states, steps, i - 1);
      InvStep(states[i - 1], steps[i - 1]);
    }
  }

  lemma InvInit(s: State)
    requires Init(s) && Trusted(s.platform)
    ensures Inv(s)
  {}
}
