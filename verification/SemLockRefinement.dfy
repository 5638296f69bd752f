/** The semaphore backend refines the abstract mutex. */
module SemLockRefinement {
  import opened Basics
  import opened SemLock
  import opened SemLockInvariant
  import opened SemLockSafety
  import Mutex = AbstractMutex

  // ----- Refinement of the abstract mutex -----------------------------------------------------

  ghost function Owner(s: State): Option<nat> {
    if exists p: nat :: p < |s.procs| && Owns(s.procs[p])
    then var p: nat :| p < |s.procs| && Owns(s.procs[p]); Some(p)
    else None
  }

  ghost function Alpha(s: State): Mutex.State {
    Mutex.State(Owner(s),
                set p: nat | p < |s.procs| && s.procs[p].held,
                set p: nat | p < |s.procs| && (s.procs[p].pc.Up? || s.procs[p].pc.UpDone?))
  }

  /** What the caller of mosys_lock or mosys_unlock sees of a step: the value a call returns. */
  function LabelOf(s: State, st: Step): Mutex.Label
    requires Enabled(s, st)
  {
    var pr := s.procs[st.p];
    match st.act
    case Start => Mutex.Internal
    case Crash => Mutex.Dies(st.p)
    case CallLock => Mutex.Internal
    case CallUnlock => if pr.held then Mutex.UnlockBegins(st.p) else Mutex.UnlockReturns(st.p, -1)
    case Act(ok, now) => ActLabel(st.p, pr, Apply(s, st).procs[st.p])
  }

  function ActLabel(p: nat, pr: Proc, pr': Proc): Mutex.Label {
    if pr.pc.UpDone? then Mutex.UnlockReturns(p, 0)
    else if pr'.pc.Idle? then Mutex.LockReturns(p, if pr.pc.SetHeld? then 0 else if pr.pc.Check? then 1 else -1)
    else Mutex.Internal
  }

  lemma OwnerIs(s: State, p: nat)
    requires Inv(s) && p < |s.procs| && Owns(s.procs[p])
    ensures Owner(s) == Some(p)
  {
    var q := Owner(s).value;
    OneOwner(s, p, q);
  }

  /** A step of `p` that leaves the others alone changes the owner only through `p`. */
  lemma OwnerAfter(s: State, t: State, p: nat)
    requires Inv(s) && Inv(t) && |s.procs| == |t.procs| && p < |s.procs|
    requires forall q :: 0 <= q < |s.procs| && q != p ==> t.procs[q] == s.procs[q]
    ensures Owner(t) == if Owns(t.procs[p]) then Some(p) else if Owner(s) == Some(p) then None else Owner(s)
  {
    if Owns(t.procs[p]) {
      OwnerIs(t, p);
    } else if Owner(t).Some? {
      OwnerIs(s, Owner(t).value);
    } else if Owner(s).Some? && Owner(s) != Some(p) {
      OwnerIs(t, Owner(s).value);
    }
  }

  /** What an action does to its own process, as far as the abstract mutex can see. */
  predicate Effect(pr: Proc, pr': Proc, ok: bool) {
    && (pr.pc.Check? ==> (pr'.pc.Idle? <==> pr.held)) && (pr.pc.SetHeld? ==> pr'.pc.Idle?)
    && (pr.pc.Down? && ok ==> !pr'.pc.Idle?)
    && pr'.held == (pr.held || pr.pc.SetHeld?)
    && Owns(pr') == (if pr.pc.Down? then ok else Owns(pr) && !pr.pc.Up?)
    && ((pr'.pc.Up? || pr'.pc.UpDone?) <==> pr.pc.Up?)
  }

  lemma ActEffect(s: State, p: nat, ok: bool, now: nat)
    requires Acts(s, p, ok, now) && LockInv(s, s.procs[p]) && PcInv(s, s.procs[p])
    ensures Effect(s.procs[p], Apply(s, Step(p, Act(ok, now))).procs[p], ok)
  {
    var pc := s.procs[p].pc;
    if pc.Probe? || pc.ProbeSet? || pc.ProbeRead? || pc.ProbeEnd? {
      ProbeEffect(s, p, ok, now);
    } else if pc.Create? || pc.Setval? || pc.Force? || pc.Destroy? {
      CreateEffect(s, p, ok, now);
    } else if pc.Get? || pc.Wait? {
      GetEffect(s, p, ok, now);
    } else {
      LockEffect(s, p, ok, now);
    }
  }

  lemma ProbeEffect(s: State, p: nat, ok: bool, now: nat)
    requires Acts(s, p, ok, now) && LockInv(s, s.procs[p]) && PcInv(s, s.procs[p])
    requires var pc := s.procs[p].pc; pc.Probe? || pc.ProbeSet? || pc.ProbeRead? || pc.ProbeEnd?
    ensures Effect(s.procs[p], ProbeAct(s, p, ok, now).procs[p], ok)
  {}

  lemma CreateEffect(s: State, p: nat, ok: bool, now: nat)
    requires Acts(s, p, ok, now) && LockInv(s, s.procs[p]) && PcInv(s, s.procs[p])
    requires var pc := s.procs[p].pc; pc.Create? || pc.Setval? || pc.Force? || pc.Destroy?
    ensures Effect(s.procs[p], CreateAct(s, p, ok, now).procs[p], ok)
  {}

  lemma GetEffect(s: State, p: nat, ok: bool, now: nat)
    requires Acts(s, p, ok, now) && LockInv(s, s.procs[p]) && PcInv(s, s.procs[p])
    requires var pc := s.procs[p].pc; pc.Get? || pc.Wait?
    ensures Effect(s.procs[p], GetAct(s, p, ok).procs[p], ok)
  {}

  lemma LockEffect(s: State, p: nat, ok: bool, now: nat)
    requires Acts(s, p, ok, now) && LockInv(s, s.procs[p]) && PcInv(s, s.procs[p])
    requires var pc := s.procs[p].pc; pc.Check? || pc.Down? || pc.SetHeld? || pc.Up? || pc.UpDone?
    ensures Effect(s.procs[p], LockAct(s, p, ok, now).procs[p], ok)
  {}

  lemma RefinesAct(s: State, p: nat, ok: bool, now: nat)
    requires Inv(s) && Acts(s, p, ok, now)
    ensures var st := Step(p, Act(ok, now)); Mutex.Next(Alpha(s), LabelOf(s, st), Alpha(Apply(s, st)))
  {
    var st := Step(p, Act(ok, now));
    var t := Apply(s, st);
    assert LockInv(s, s.procs[p]) && PcInv(s, s.procs[p]);
    ActEffect(s, p, ok, now);
    OthersStay(s, st);
    RefinesSets(s, t, p);
    InAlpha(s, p);
    InAlpha(t, p);
    hide Inv, PcInv, Apply, Owner, Enabled, Mutex.Next, Effect, LockInv;
    InvStep(s, st);
    OwnerAfter(s, t, p);
    OwnerOwns(s, p);
    if s.procs[p].pc.Down? && ok {
      NobodyOwned(s, p, now);
    }
    AbstractAct(Alpha(s), Alpha(t), p, s.procs[p], t.procs[p], ok);
  }

  lemma NobodyOwned(s: State, p: nat, now: nat)
    requires Inv(s) && p < |s.procs| && s.procs[p].alive && s.procs[p].pc.Down? && now > 0
    requires Enabled(s, Step(p, Act(true, now)))
    ensures Owner(s).None?
  {
    DownEnabledIff(s, p, now);
  }

  lemma InAlpha(s: State, p: nat)
    requires p < |s.procs|
    ensures p in Alpha(s).held <==> s.procs[p].held
    ensures p in Alpha(s).releasing <==> s.procs[p].pc.Up? || s.procs[p].pc.UpDone?
    ensures Alpha(s).owner == Owner(s)
  {}

  /** The effect of an action on its process is a step of the abstract mutex. */
  lemma AbstractAct(a: Mutex.State, b: Mutex.State, p: nat, pr: Proc, pr': Proc, ok: bool)
    requires Effect(pr, pr', ok) && (pr.held ==> pr.pc.Idle? || pr.pc.Check?) && !pr.pc.Idle?
    requires (p in a.held <==> pr.held) && (p in a.releasing <==> pr.pc.Up? || pr.pc.UpDone?)
    requires b.held == if pr'.held then a.held + {p} else a.held - {p}
    requires b.releasing == if pr'.pc.Up? || pr'.pc.UpDone? then a.releasing + {p} else a.releasing - {p}
    requires (a.owner == Some(p)) == Owns(pr) && (pr.pc.Down? && ok ==> a.owner.None?)
    requires b.owner == if Owns(pr') then Some(p) else if a.owner == Some(p) then None else a.owner
    ensures Mutex.Next(a, ActLabel(p, pr, pr'), b)
  {}

  /** What birth, death and the start of a call do to the process. */
  predicate CallEffect(act: Action, pr: Proc, pr': Proc) {
    match act
    case Start => pr == DEAD && pr' == NEWBORN
    case Crash => pr' == DEAD
    case CallLock => pr.pc.Idle? && (pr'.pc.Probe? || pr'.pc.Create? || pr'.pc.Check?) && pr'.held == pr.held
    case CallUnlock => pr.pc.Idle? && pr' == if pr.held then pr.(held := false, pc := Up) else pr
    case Act(_, _) => false
  }

  function CallLabel(act: Action, p: nat, pr: Proc): Mutex.Label {
    match act
    case Crash => Mutex.Dies(p)
    case CallUnlock => if pr.held then Mutex.UnlockBegins(p) else Mutex.UnlockReturns(p, -1)
    case _ => Mutex.Internal
  }

  lemma CallHasEffect(s: State, st: Step)
    requires Enabled(s, st) && !st.act.Act? && LockInv(s, s.procs[st.p])
    ensures CallEffect(st.act, s.procs[st.p], Apply(s, st).procs[st.p])
    ensures LabelOf(s, st) == CallLabel(st.act, st.p, s.procs[st.p])
  {}

  /** And that is a step of the abstract mutex. */
  lemma AbstractCall(a: Mutex.State, b: Mutex.State, act: Action, p: nat, pr: Proc, pr': Proc)
    requires CallEffect(act, pr, pr')
    requires (p in a.held <==> pr.held) && (p in a.releasing <==> pr.pc.Up? || pr.pc.UpDone?)
    requires b.held == if pr'.held then a.held + {p} else a.held - {p}
    requires b.releasing == if pr'.pc.Up? || pr'.pc.UpDone? then a.releasing + {p} else a.releasing - {p}
    requires (a.owner == Some(p)) == Owns(pr)
    requires b.owner == if Owns(pr') then Some(p) else if a.owner == Some(p) then None else a.owner
    ensures Mutex.Next(a, CallLabel(act, p, pr), b)
  {}

  lemma RefinesCall(s: State, st: Step)
    requires Inv(s) && Enabled(s, st) && !st.act.Act?
    ensures Mutex.Next(Alpha(s), LabelOf(s, st), Alpha(Apply(s, st)))
  {
    var t, p := Apply(s, st), st.p;
    assert LockInv(s, s.procs[p]);
    CallHasEffect(s, st);
    OthersStay(s, st);
    RefinesSets(s, t, p);
    InAlpha(s, p);
    InAlpha(t, p);
    hide Inv, Apply, Owner, Enabled, Mutex.Next, CallEffect, CallLabel, LabelOf, LockInv;
    InvStep(s, st);
    OwnerAfter(s, t, p);
    assert (Owner(s) == Some(p)) == Owns(s.procs[p]) by {
      OwnerOwns(s, p);
    }
    AbstractCall(Alpha(s), Alpha(t), st.act, p, s.procs[p], t.procs[p]);
  }

  lemma OwnerOwns(s: State, p: nat)
    requires Inv(s) && p < |s.procs|
    ensures Owner(s) == Some(p) <==> Owns(s.procs[p])
  {
    if Owns(s.procs[p]) {
      OwnerIs(s, p);
    }
  }

  /** Every step is a step of the abstract mutex, with the return values the callers see. */
  lemma Refines(s: State, st: Step)
    requires Inv(s) && Enabled(s, st)
    ensures Mutex.Next(Alpha(s), LabelOf(s, st), Alpha(Apply(s, st)))
  {
    if st.act.Act? {
      RefinesAct(s, st.p, st.act.ok, st.act.now);
    } else {
      RefinesCall(s, st);
    }
  }

  function Labels(states: seq<State>, steps: seq<Step>): (r: seq<Mutex.Label>)
    requires |states| == |steps| + 1
    requires forall i :: 0 <= i < |steps| ==> Enabled(states[i], steps[i])
    ensures |r| == |steps|
  {
    seq(|steps|, i requires 0 <= i < |steps| => LabelOf(states[i], steps[i]))
  }

  ghost function Alphas(states: seq<State>): (r: seq<Mutex.State>)
    ensures |r| == |states|
  {
    seq(|states|, i requires 0 <= i < |states| => Alpha(states[i]))
  }

  /** Every run of the code is a run of the abstract mutex. */
  lemma RunRefines(states: seq<State>, steps: seq<Step>)
    requires RunFromInit(states, steps) && Trusted(states[0].platform)
    ensures Mutex.Run(Labels(states, steps), Alphas(states))
  {
    InvInit(states[0]);
    assert Alpha(states[0]) == Mutex.INITIAL;
    forall i | 0 <= i < |steps| ensures Mutex.Next(Alpha(states[i]), LabelOf(states[i], steps[i]), Alpha(states[i + 1])) {
      InvRun(states, steps, i);
      Refines(states[i], steps[i]);
    }
  }

  lemma RefinesSets(s: State, t: State, p: nat)
    requires |s.procs| == |t.procs| && p < |s.procs|
    requires forall q :: 0 <= q < |s.procs| && q != p ==> t.procs[q] == s.procs[q]
    ensures Alpha(t).held == if t.procs[p].held then Alpha(s).held + {p} else Alpha(s).held - {p}
    ensures Alpha(t).releasing ==
            if t.procs[p].pc.Up? || t.procs[p].pc.UpDone? then Alpha(s).releasing + {p} else Alpha(s).releasing - {p}
  {
    assert forall q :: q != p ==> (q in Alpha(t).held <==> q in Alpha(s).held);
    assert forall q :: q != p ==> (q in Alpha(t).releasing <==> q in Alpha(s).releasing);
  }
}
