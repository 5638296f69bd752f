/** What the death of a creator half way through csem_create leaves behind. */
module SemLockOrphan {
  import opened Basics
  import opened SemLock
  import opened Runs
  import opened SemLockInvariant
  import opened SemLockSafety
  import Probe = SemLockProbe

  // ----- A creator that dies half way ---------------------------------------------------------

  /** The key is bound to a semaphore nobody is left to initialise. */
  predicate Orphaned(s: State) {
    s.key.Some? && !Initialised(s) && forall p :: 0 <= p < |s.procs| ==> !Creating(s.procs[p].pc)
  }

  /** And that does happen, on every platform: the first process to call mosys_lock dies right after semget. */
  lemma DiesHalfWay(pf: Platform) returns (s: State, t: State)
    ensures Init(s) && s.platform == pf && Leads(s, t) && Orphaned(t)
  {
    s := State(pf, map[], None, 0, [DEAD]);
    var s1 := Probe.RunProbe(s, 0, true);
    var s2 := Probe.Did(s1, 0, true);   // semget(IPC_CREAT | IPC_EXCL)
    t := Apply(s2, Step(0, Crash));
    LeadsHere(Next, t);
    LeadsBy(Next, s2, Step(0, Crash), t, t);
    Probe.LeadsOn(s1, 0, true, t);
    LeadsTwice(Next, s, s1, t);
  }

  lemma OrphanStep(s: State, st: Step)
    requires Inv(s) && Orphaned(s) && Enabled(s, st)
    ensures Orphaned(Apply(s, st))
  {
    assert PcInv(s, s.procs[st.p]) && LockInv(s, s.procs[st.p]);
    Uninitialised(s);
    var pc := s.procs[st.p].pc;
    if pc.Probe? || pc.ProbeSet? || pc.ProbeRead? || pc.ProbeEnd? {
      hide Inv, CreateAct, GetAct, LockAct;
    } else if pc.Create? || pc.Setval? || pc.Force? || pc.Destroy? {
      hide Inv, ProbeAct, GetAct, LockAct;
    } else {
      hide Inv, ProbeAct, CreateAct;
    }
  }

  /** From then on the lock can never be had: nobody dares to use the semaphore, nobody removes it. */
  lemma {:induction false} OrphanForever(states: seq<State>, steps: seq<Step>, i: nat)
    requires Run(states, steps) && Inv(states[0]) && Orphaned(states[0]) && i < |states|
    ensures Orphaned(states[i]) && forall p :: 0 <= p < |states[i].procs| ==> !Owns(states[i].procs[p])
  {
    if i > 0 {
      OrphanForever(states, steps, i - 1);
      InvRun(states, steps, i - 1);
      OrphanStep(states[i - 1], steps[i - 1]);
    }
    InvRun(states, steps, i);
    NobodyOwns(states[i]);
  }

  lemma NobodyOwns(s: State)
    requires Inv(s) && !Initialised(s)
    ensures forall p :: 0 <= p < |s.procs| ==> !Owns(s.procs[p])
  {
    forall p | 0 <= p < |s.procs| ensures !Owns(s.procs[p]) {
      assert LockInv(s, s.procs[p]);
    }
  }

  /** A step that is not the death of a process. */
  ghost predicate Lives(s: State, st: Step, t: State) {
    Next(s, st, t) && !st.act.Crash?
  }

  /** The next action of `p` sets is_held: its call of mosys_lock returns 0. */
  predicate GetsIt(s: State, p: nat) {
    && Enabled(s, Step(p, Act(true, 1)))
    && !s.procs[p].held && Apply(s, Step(p, Act(true, 1))).procs[p].held
  }

  /** Some run from here, on which no process dies, ends with somebody being granted the lock. */
  ghost predicate CanBeHad(s: State) {
    exists t, p :: CanLead(Lives, s, t) && GetsIt(t, p)
  }

  lemma Prepend(s: State, st: Step)
    requires Enabled(s, st) && !st.act.Crash? && CanBeHad(Apply(s, st))
    ensures CanBeHad(s)
  {
    var t, p :| CanLead(Lives, Apply(s, st), t) && GetsIt(t, p);
    LeadsBy(Lives, s, st, Apply(s, st), t);
  }

  lemma RightNow(s: State, p: nat)
    requires GetsIt(s, p)
    ensures CanBeHad(s)
  {
    LeadsHere<State, Step>(Lives, s);
  }

  function Togo(pc: Pc): nat {
    match pc
    case Probe => 12 case ProbeSet(_) => 11 case ProbeRead(_) => 10 case ProbeEnd(_, _) => 9
    case Create => 8 case Setval(_) => 7 case Force(_) => 6 case Get => 5 case Wait(_, _) => 4
    case Check => 3 case Down => 2 case SetHeld => 1
    case _ => 0
  }

  ghost predicate OthersFree(s: State, p: nat) {
    forall q :: 0 <= q < |s.procs| && q != p ==> !Owns(s.procs[q])
  }

  /** Left alone, process `p` will get the lock. */
  ghost predicate OnItsWay(s: State, p: nat) {
    && Inv(s) && p < |s.procs| && s.procs[p].alive && !s.procs[p].held
    && Togo(s.procs[p].pc) > 0
    && OthersFree(s, p)
    && match s.procs[p].pc
       case ProbeEnd(_, a) => a.Some? && (s.key.None? || Initialised(s))
       case Setval(_) => true
       case Force(_) => true
       case Get => Initialised(s)
       case Wait(id, _) => Initialised(s) && s.key == Some(id)
       case _ => s.key.None? || Initialised(s)
  }

  ghost predicate Advances(s: State, p: nat)
    requires OnItsWay(s, p)
  {
    var st := Step(p, Act(true, 1));
    && Enabled(s, st)
    && var t := Apply(s, st);
       t.procs[p].held || (OnItsWay(t, p) && Togo(t.procs[p].pc) < Togo(s.procs[p].pc))
  }

  lemma Onward(s: State, p: nat)
    requires OnItsWay(s, p)
    ensures var st := Step(p, Act(true, 1));
            Enabled(s, st) ==> var t := Apply(s, st); Inv(t) && |t.procs| == |s.procs| && OthersFree(t, p)
  {
    var st := Step(p, Act(true, 1));
    hide Inv, Apply, Enabled;
    if Enabled(s, st) {
      InvStep(s, st);
      OthersStay(s, st);
    }
  }

  lemma OneMoreProbe(s: State, p: nat)
    requires OnItsWay(s, p) && Togo(s.procs[p].pc) > 8
    ensures Advances(s, p)
  {
    var pr := s.procs[p];
    assert PcInv(s, pr) && LockInv(s, pr);
    Onward(s, p);
    hide Inv, OthersFree, CreateAct, GetAct, LockAct;
  }

  lemma OneMoreCreate(s: State, p: nat)
    requires OnItsWay(s, p) && s.procs[p].pc.Create?
    ensures Advances(s, p)
  {
    var pr := s.procs[p];
    assert PcInv(s, pr) && LockInv(s, pr);
    Onward(s, p);
    hide Inv, OthersFree, ProbeAct, GetAct, LockAct;
  }

  lemma OneMoreInit(s: State, p: nat)
    requires OnItsWay(s, p) && (s.procs[p].pc.Setval? || s.procs[p].pc.Force?)
    ensures Advances(s, p)
  {
    var pr := s.procs[p];
    assert PcInv(s, pr) && LockInv(s, pr);
    Onward(s, p);
    hide Inv, OthersFree, ProbeAct, GetAct, LockAct;
  }

  lemma OneMoreGet(s: State, p: nat)
    requires OnItsWay(s, p) && (s.procs[p].pc.Get? || s.procs[p].pc.Wait?)
    ensures Advances(s, p)
  {
    Onward(s, p);
    hide Inv, OthersFree, ProbeAct, CreateAct, LockAct;
    if s.procs[p].pc.Wait? {
      assert Apply(s, Step(p, Act(true, 1))).procs[p].pc.Check?;
    } else {
      assert Apply(s, Step(p, Act(true, 1))).procs[p].pc == Wait(s.key.value, 0);
    }
  }

  lemma OneMoreLock(s: State, p: nat)
    requires OnItsWay(s, p) && Togo(s.procs[p].pc) <= 3
    ensures Advances(s, p)
  {
    var pr := s.procs[p];
    assert PcInv(s, pr) && LockInv(s, pr);
    if pr.pc.Down? {
      DownEnabledIff(s, p, 1);
    }
    Onward(s, p);
    hide Inv, OthersFree, ProbeAct, CreateAct, GetAct;
  }

  lemma {:induction false} Drive(s: State, p: nat)
    requires OnItsWay(s, p)
    ensures CanBeHad(s)
    decreases Togo(s.procs[p].pc)
  {
    if Togo(s.procs[p].pc) > 8 {
      OneMoreProbe(s, p);
    } else if s.procs[p].pc.Create? {
      OneMoreCreate(s, p);
    } else if Togo(s.procs[p].pc) > 5 {
      OneMoreInit(s, p);
    } else if Togo(s.procs[p].pc) > 3 {
      OneMoreGet(s, p);
    } else {
      OneMoreLock(s, p);
    }
    var st := Step(p, Act(true, 1));
    if Apply(s, st).procs[p].held {
      RightNow(s, p);
    } else {
      Drive(Apply(s, st), p);
      Prepend(s, st);
    }
  }

  // ----- The lock is usable if and only if it is not orphaned ---------------------------------

  /** Nobody owns the lock, and its semaphore is not half made. */
  ghost predicate Free(s: State) {
    Inv(s) && (s.key.None? || Initialised(s)) && forall q :: 0 <= q < |s.procs| ==> !Owns(s.procs[q])
  }

  lemma FreeIdle(s: State, p: nat)
    requires Free(s) && p < |s.procs| && s.procs[p].pc.Idle?
    ensures CanBeHad(s)
  {
    assert LockInv(s, s.procs[p]);
    if s.procs[p].alive {
      CallsLock(s, p);
    } else {
      var st := Step(p, Start);
      InvStep(s, st);
      CallsLock(Apply(s, st), p);
      Prepend(s, st);
    }
  }

  lemma CallsLock(s: State, p: nat)
    requires Free(s) && p < |s.procs| && s.procs[p].pc.Idle? && s.procs[p].alive
    ensures CanBeHad(s)
  {
    assert LockInv(s, s.procs[p]);
    var st := Step(p, CallLock);
    InvStep(s, st);
    OthersStay(s, st);
    Drive(Apply(s, st), p);
    Prepend(s, st);
  }

  /** Wherever a process stands, its call either goes on to the lock or is over with its next action. */
  lemma OnItsWayOrBack(s: State, p: nat)
    requires Free(s) && p < |s.procs| && !s.procs[p].pc.Idle?
    ensures OnItsWay(s, p) ||
            (Enabled(s, Step(p, Act(true, 1))) && var t := Apply(s, Step(p, Act(true, 1)));
             p < |t.procs| && t.procs[p].pc.Idle? && !t.procs[p].held && t.key == s.key
             && (s.key.Some? ==> s.key.value in t.sems && t.sems[s.key.value] == s.sems[s.key.value]))
  {
    assert PcInv(s, s.procs[p]) && LockInv(s, s.procs[p]);
  }

  lemma FreeStart(s: State, p: nat)
    requires Free(s) && p < |s.procs|
    ensures CanBeHad(s)
  {
    if s.procs[p].pc.Idle? {
      FreeIdle(s, p);
    } else {
      OnItsWayOrBack(s, p);
      if OnItsWay(s, p) {
        Drive(s, p);
      } else {
        var st := Step(p, Act(true, 1));
        InvStep(s, st);
        OthersStay(s, st);
        FreeIdle(Apply(s, st), p);
        Prepend(s, st);
      }
    }
  }

  /** Somebody can still be granted the lock, on a run without any death, from a reachable state, if and only
      if no creator died between semget and the call that sets sem_otime (or failed to remove what it could
      not set). */
  lemma UsableIffNotOrphaned(s: State)
    requires Inv(s) && |s.procs| > 0
    ensures CanBeHad(s) <==> !Orphaned(s)
  {
    if Orphaned(s) {
      if t, p :| CanLead(Lives, s, t) && GetsIt(t, p) {
        var states, steps :| IsRun(Lives, states, steps) && states[0] == s && states[|steps|] == t;
        assert IsRun(Next, states, steps);
        OrphanForever(states, steps, |steps|);
      }
    } else if p :| 0 <= p < |s.procs| && Creating(s.procs[p].pc) {
      CreatorCanFinish(s, p);
    } else if p :| 0 <= p < |s.procs| && Owns(s.procs[p]) {
      OwnerCanFinish(s, p);
    } else {
      FreeStart(s, 0);
    }
  }

  lemma CreatorCanFinish(s: State, p: nat)
    requires Inv(s) && p < |s.procs| && Creating(s.procs[p].pc)
    ensures CanBeHad(s)
  {
    assert PcInv(s, s.procs[p]) && LockInv(s, s.procs[p]);
    NobodyOwns(s);
    if s.procs[p].pc.Destroy? {
      var st := Step(p, Act(true, 1));
      InvStep(s, st);
      OthersStay(s, st);
      FreeIdle(Apply(s, st), p);
      Prepend(s, st);
    } else {
      Drive(s, p);
    }
  }

  /** An owner can give the lock back; then it can be had again. */
  lemma OwnerCanFinish(s: State, p: nat)
    requires Inv(s) && p < |s.procs| && Owns(s.procs[p])
    ensures CanBeHad(s)
    decreases if s.procs[p].pc.Check? then 2 else if s.procs[p].held then 1 else 0
  {
    assert PcInv(s, s.procs[p]) && LockInv(s, s.procs[p]);
    if s.procs[p].pc.SetHeld? {
      RightNow(s, p);
    } else {
      var st := Step(p, if s.procs[p].pc.Idle? then CallUnlock else Act(true, 1));
      InvStep(s, st);
      OthersStay(s, st);
      KeyIsStable(s, st);
      hide Inv, PcInv, ProbeAct, CreateAct, GetAct;
      if s.procs[p].pc.Up? {
        OthersDoNotOwn(s, p);
        FreeStart(Apply(s, st), p);
      } else {
        OwnerCanFinish(Apply(s, st), p);
      }
      Prepend(s, st);
    }
  }

  lemma OthersDoNotOwn(s: State, p: nat)
    requires Inv(s) && p < |s.procs| && Owns(s.procs[p])
    ensures forall q :: 0 <= q < |s.procs| && q != p ==> !Owns(s.procs[q])
  {
    forall q | 0 <= q < |s.procs| && q != p ensures !Owns(s.procs[q]) {
      if Owns(s.procs[q]) {
        OneOwner(s, p, q);
      }
    }
  }
}
