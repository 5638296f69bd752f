/** The file lock backend refines the same abstract mutex as the semaphore backend. */
module FileLockRefinement {
  import opened Basics
  import opened FileLock
  import Mutex = AbstractMutex

  ghost function Owner(s: State): Option<nat> {
    if exists p: nat :: p < |s.procs| && Owns(s.procs[p])
    then var p: nat :| p < |s.procs| && Owns(s.procs[p]); Some(p)
    else None
  }

  predicate Releasing(pr: Proc) {
    pr.pc.Unflock? || pr.pc.Close? || pr.pc.ClearHeld?
  }

  ghost function Alpha(s: State): Mutex.State {
    Mutex.State(Owner(s),
                set p: nat | p < |s.procs| && s.procs[p].held && s.procs[p].pc.Idle?,
                set p: nat | p < |s.procs| && Releasing(s.procs[p]))
  }

  function LabelOf(s: State, st: Step): Mutex.Label
    requires Enabled(s, st)
  {
    Label(st.act, st.p, s.procs[st.p], Apply(s, st).procs[st.p])
  }

  /** What the caller of mosys_lock or mosys_unlock sees of a step: the value a call returns. */
  function Label(act: Action, p: nat, pr: Proc, pr': Proc): Mutex.Label {
    match act
    case Start => Mutex.Internal
    case Crash => Mutex.Dies(p)
    case CallLock => if pr.held then Mutex.LockReturns(p, 1) else Mutex.Internal
    case CallUnlock => if pr.held then Mutex.UnlockBegins(p) else Mutex.UnlockReturns(p, -1)
    case Act(ok, again) =>
      if pr.pc.ClearHeld? then Mutex.UnlockReturns(p, 0)
      else if pr'.pc.Idle? then Mutex.LockReturns(p, if pr.pc.WritePid? then 0 else -1)
      else Mutex.Internal
  }

  /** What a step does to its own process, as far as the abstract mutex can see. */
  predicate Effect(act: Action, pr: Proc, pr': Proc) {
    match act
    case Start => pr == DEAD && pr' == NEWBORN
    case Crash => pr' == DEAD
    case CallLock => pr.pc.Idle? && if pr.held then pr' == pr else pr'.pc.Open?
    case CallUnlock => pr.pc.Idle? && if pr.held then pr'.pc.Unflock? else pr' == pr
    case Act(_, _) =>
      match pr.pc
      case Idle => false
      case Open => pr'.pc.Try? || (pr'.pc.Idle? && !pr'.held)
      case Try => pr'.pc.SetHeld? || pr'.pc.Nap? || pr'.pc.GiveUp?
      case Nap => pr'.pc.Try? || pr'.pc.GiveUp?
      case SetHeld => pr'.pc.WritePid?
      case WritePid => pr'.pc.Idle? && pr'.held
      case Unflock => pr'.pc.Close?
      case Close(_) => pr'.pc.ClearHeld?
      case _ => pr'.pc.Idle? && !pr'.held
  }

  lemma StepHasEffect(s: State, st: Step)
    requires Enabled(s, st) && ProcInv(s, s.procs[st.p])
    ensures Effect(st.act, s.procs[st.p], Apply(s, st).procs[st.p])
  {}

  /** And that is a step of the abstract mutex. */
  lemma AbstractStep(a: Mutex.State, b: Mutex.State, act: Action, p: nat, pr: Proc, pr': Proc)
    requires Effect(act, pr, pr')
    requires (p in a.held <==> pr.held && pr.pc.Idle?) && (p in a.releasing <==> Releasing(pr))
    requires b.held == if pr'.held && pr'.pc.Idle? then a.held + {p} else a.held - {p}
    requires b.releasing == if Releasing(pr') then a.releasing + {p} else a.releasing - {p}
    requires (a.owner == Some(p)) == Owns(pr) && (pr.pc.Try? && Owns(pr') ==> a.owner.None?)
    requires b.owner == if Owns(pr') then Some(p) else if a.owner == Some(p) then None else a.owner
    ensures Mutex.Next(a, Label(act, p, pr, pr'), b)
  {}

  lemma OwnerIs(s: State, p: nat)
    requires Inv(s) && p < |s.procs| && Owns(s.procs[p])
    ensures Owner(s) == Some(p)
  {
    OneOwner(s, p, Owner(s).value);
  }

  lemma OwnerAfter(s: State, t: State, p: nat)
    requires Inv(s) && Inv(t) && p < |s.procs| && |t.procs| == |s.procs| && t.procs == s.procs[p := t.procs[p]]
    ensures Owner(t) == if Owns(t.procs[p]) then Some(p) else if Owner(s) == Some(p) then None else Owner(s)
  {
    if Owns(t.procs[p]) {
      OwnerIs(t, p);
    } else if Owner(t).Some? {
      OwnerIs(s, Owner(t).value);
    } else if Owner(s).Some? && Owner(s) != Some(p) {
      OwnerIs(t, Owner(s).value);
    }
  }

  lemma SetsAfter(s: State, t: State, p: nat)
    requires p < |s.procs| && |t.procs| == |s.procs| && t.procs == s.procs[p := t.procs[p]]
    ensures Alpha(t).held ==
            if t.procs[p].held && t.procs[p].pc.Idle? then Alpha(s).held + {p} else Alpha(s).held - {p}
    ensures Alpha(t).releasing ==
            if Releasing(t.procs[p]) then Alpha(s).releasing + {p} else Alpha(s).releasing - {p}
  {
    assert forall q :: q != p ==> (q in Alpha(t).held <==> q in Alpha(s).held);
    assert forall q :: q != p ==> (q in Alpha(t).releasing <==> q in Alpha(s).releasing);
  }

  /** flock grants only what nobody owns. */
  lemma GrantMeansFree(s: State, p: nat)
    requires Inv(s) && p < |s.procs| && s.procs[p].pc.Try? && FlockGrants(s, s.procs[p].fd)
    ensures Owner(s).None?
  {
    assert ProcInv(s, s.procs[p]);
  }

  lemma OwnerMoves(s: State, st: Step)
    requires Inv(s) && Enabled(s, st)
    ensures var t, p := Apply(s, st), st.p;
      Owner(t) == if Owns(t.procs[p]) then Some(p) else if Owner(s) == Some(p) then None else Owner(s)
  {
    StepShape(s, st);
    InvStep(s, st);
    OwnerAfter(s, Apply(s, st), st.p);
  }

  lemma Refines(s: State, st: Step)
    requires Inv(s) && Enabled(s, st)
    ensures Mutex.Next(Alpha(s), LabelOf(s, st), Alpha(Apply(s, st)))
  {
    var t, p := Apply(s, st), st.p;
    var pr := s.procs[p];
    assert ProcInv(s, pr);
    StepShape(s, st);
    StepHasEffect(s, st);
    SetsAfter(s, t, p);
    OwnerMoves(s, st);
    InAlpha(s, p);
    InAlpha(t, p);
    if pr.pc.Try? && Owns(t.procs[p]) {
      GrantMeansFree(s, p);
    }
    hide Owner, Inv, Apply, Enabled, Effect, Mutex.Next, Label, ProcInv;
    OwnerOwns(s, p);
    AbstractStep(Alpha(s), Alpha(t), st.act, p, pr, t.procs[p]);
  }

  lemma InAlpha(s: State, p: nat)
    requires p < |s.procs|
    ensures p in Alpha(s).held <==> s.procs[p].held && s.procs[p].pc.Idle?
    ensures p in Alpha(s).releasing <==> Releasing(s.procs[p])
    ensures Alpha(s).owner == Owner(s)
  {}

  lemma OwnerOwns(s: State, p: nat)
    requires Inv(s) && p < |s.procs|
    ensures Owner(s) == Some(p) <==> Owns(s.procs[p])
  {
    if Owns(s.procs[p]) {
      OwnerIs(s, p);
    }
  }

  function Labels(states: seq<State>, steps: seq<Step>): (r: seq<Mutex.Label>)
    requires |states| == |steps| + 1
    requires forall i :: 0 <= i < |steps| ==> Enabled(states[i], steps[i])
    ensures |r| == |steps|
  {
    seq(|steps|, i requires 0 <= i < |steps| => LabelOf(states[i], steps[i]))
  }

  ghost function Alphas(states: seq<State>): (r: seq<Mutex.State>)
    ensures |r| == |states|
  {
    seq(|states|, i requires 0 <= i < |states| => Alpha(states[i]))
  }

  lemma RunRefines(states: seq<State>, steps: seq<Step>)
    requires RunFromInit(states, steps)
    ensures Mutex.Run(Labels(states, steps), Alphas(states))
  {
    assert Alpha(states[0]) == Mutex.INITIAL;
    forall i | 0 <= i < |steps| ensures Mutex.Next(Alpha(states[i]), LabelOf(states[i], steps[i]), Alpha(states[i + 1])) {
      InvRun(states, steps, i);
      Refines(states[i], steps[i]);
    }
  }
}
