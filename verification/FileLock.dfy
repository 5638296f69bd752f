/**
 The file lock backend (core/file_lock.c) as an interleaved step system. The kernel knows which open
 file description owns the flock of the lock file; a description disappears, and its flock with it,
 when its descriptor is closed or its process dies.
 */
module FileLock {
  import opened Basics
  import opened Runs

  datatype Pc =
    | Idle
    // mosys_lock
    | Open | Try | Nap | GiveUp | SetHeld | WritePid
    // mosys_unlock
    | Unflock | Close(unlocked: bool) | ClearHeld

  /** A process: its `struct ipc_lock` (fd, held) and the lock file descriptors it has open. */
  datatype Proc = Proc(alive: bool, pc: Pc, fd: int, held: bool, open: set<nat>)

  const DEAD := Proc(false, Idle, -1, false, {})
  const NEWBORN := DEAD.(alive := true)

  datatype State = State(owner: Option<nat>, nextFd: nat, procs: seq<Proc>)

  datatype Action =
    | Start
    | Crash
    | CallLock
    | CallUnlock
    | Act(ok: bool, again: bool)   // `ok`: the system call succeeds; `again`: if not, the code tries again

  datatype Step = Step(p: nat, act: Action)

  predicate Init(s: State) {
    s.owner.None? && forall p :: 0 <= p < |s.procs| ==> s.procs[p] == DEAD
  }

  /** Closing descriptors releases the flock one of them may own. */
  function Closed(owner: Option<nat>, fds: set<nat>): Option<nat> {
    if owner.Some? && owner.value in fds then None else owner
  }

  predicate Enabled(s: State, st: Step) {
    && st.p < |s.procs|
    && var pr := s.procs[st.p];
       match st.act
       case Start => !pr.alive
       case Crash => pr.alive
       case CallLock => pr.alive && pr.pc.Idle?
       case CallUnlock => pr.alive && pr.pc.Idle?
       case Act(ok, _) => pr.alive && !pr.pc.Idle? && (ok && pr.pc.Try? ==> pr.fd >= 0 && FlockGrants(s, pr.fd))
  }

  /** flock(LOCK_EX | LOCK_NB) succeeds only if no other description owns the lock. */
  predicate FlockGrants(s: State, fd: nat) {
    s.owner.None? || s.owner == Some(fd)
  }

  function Put(s: State, p: nat, pr: Proc): State
    requires p < |s.procs|
  {
    s.(procs := s.procs[p := pr])
  }

  function Apply(s: State, st: Step): State
    requires Enabled(s, st)
  {
    var pr := s.procs[st.p];
    match st.act
    case Start => Put(s, st.p, NEWBORN)
    case Crash => Put(s.(owner := Closed(s.owner, pr.open)), st.p, DEAD)
    case CallLock => if pr.held then s else Put(s, st.p, pr.(pc := Open))
    case CallUnlock => if pr.held then Put(s, st.p, pr.(pc := Unflock)) else s
    case Act(ok, again) => ActResult(s, st.p, ok, again)
  }

  function ActResult(s: State, p: nat, ok: bool, again: bool): State
    requires Enabled(s, Step(p, Act(ok, again)))
  {
    var pr := s.procs[p];
    match pr.pc
    case Open =>
      if ok then Put(s.(nextFd := s.nextFd + 1), p, pr.(fd := s.nextFd, open := pr.open + {s.nextFd}, pc := Try))
      else Put(s, p, pr.(fd := -1, pc := Idle))
    case Try =>
      if ok then Put(s.(owner := Some(pr.fd)), p, pr.(pc := SetHeld))
      else Put(s, p, pr.(pc := if again then Nap else GiveUp))
    case Nap => Put(s, p, pr.(pc := if ok then Try else GiveUp))
    case GiveUp => CloseFd(s, p, pr.(held := false, pc := Idle))
    case SetHeld => Put(s, p, pr.(held := true, pc := WritePid))
    case WritePid => Put(s, p, pr.(pc := Idle))
    case Unflock =>
      if ok then Put(s.(owner := if pr.fd >= 0 then Closed(s.owner, {pr.fd}) else s.owner), p, pr.(pc := Close(true)))
      else Put(s, p, pr.(pc := Close(false)))
    case Close(_) => CloseFd(s, p, pr.(pc := ClearHeld))
    case ClearHeld => Put(s, p, pr.(held := false, pc := Idle))
  }

  function CloseFd(s: State, p: nat, pr: Proc): State
    requires p < |s.procs|
  {
    if pr.fd >= 0 then Put(s.(owner := Closed(s.owner, {pr.fd})), p, pr.(open := pr.open - {pr.fd})) else Put(s, p, pr)
  }

  // ----- Runs -------------------------------------------------------------------------------

  ghost predicate Next(s: State, st: Step, t: State) {
    Enabled(s, st) && t == Apply(s, st)
  }

  /** Any interleaving of the processes' steps. */
  ghost predicate Run(states: seq<State>, steps: seq<Step>) {
    IsRun(Next, states, steps)
  }

  ghost predicate RunFromInit(states: seq<State>, steps: seq<Step>) {
    Run(states, steps) && Init(states[0])
  }

  ghost predicate Leads(s: State, t: State) {
    CanLead(Next, s, t)
  }

  // ----- Invariant --------------------------------------------------------------------------

  /** is_held is set, or about to be, or still set. */
  predicate HeldAt(pc: Pc) {
    pc.WritePid? || pc.Unflock? || pc.Close? || pc.ClearHeld?
  }

  /** The process has its lock file open. */
  predicate HasOpen(pr: Proc) {
    if pr.pc.Idle? then pr.held else !pr.pc.Open? && !pr.pc.ClearHeld?
  }

  /** The process owns the flock. */
  predicate Owns(pr: Proc) {
    if pr.pc.Idle? then pr.held else pr.pc.SetHeld? || pr.pc.WritePid? || pr.pc.Unflock? || pr.pc == Close(false)
  }

  ghost predicate ProcInv(s: State, pr: Proc) {
    && (!pr.pc.Idle? ==> (pr.held <==> HeldAt(pr.pc)))
    && pr.open == (if HasOpen(pr) then {pr.fd} else {})
    && (HasOpen(pr) ==> 0 <= pr.fd < s.nextFd)
    && (HasOpen(pr) ==> (s.owner == Some(pr.fd) <==> Owns(pr)))
    && (!pr.alive ==> pr == DEAD)
  }

  ghost predicate Inv(s: State) {
    && (forall p :: 0 <= p < |s.procs| ==> ProcInv(s, s.procs[p]))
    && (forall p, q :: 0 <= p < q < |s.procs| ==> s.procs[p].open !! s.procs[q].open)
    && (s.owner.Some? ==> s.owner.value < s.nextFd)
    && (s.owner.Some? ==> exists p :: 0 <= p < |s.procs| && s.owner.value in s.procs[p].open)
  }

  lemma OthersKeep(s: State, p: nat, q: nat, t: State)
    requires p < |s.procs| && q < |s.procs| && p != q && ProcInv(s, s.procs[p]) && ProcInv(s, s.procs[q])
    requires s.procs[p].open !! s.procs[q].open
    requires t.nextFd >= s.nextFd
    requires t.owner == s.owner || (HasOpen(s.procs[p]) && s.owner == Some(s.procs[p].fd) && t.owner.None?)
             || (HasOpen(s.procs[p]) && s.owner.None? && t.owner == Some(s.procs[p].fd))
    ensures ProcInv(t, s.procs[q])
  {
    if HasOpen(s.procs[p]) && HasOpen(s.procs[q]) {
      assert s.procs[p].fd in s.procs[p].open;
    }
  }

  /** What one step can do: it changes its own process, and the owner of the flock between nobody and
      that process. */
  lemma StepShape(s: State, st: Step)
    requires Enabled(s, st) && ProcInv(s, s.procs[st.p])
    requires s.owner.Some? ==> s.owner.value < s.nextFd
    ensures var t, pr, pr' := Apply(s, st), s.procs[st.p], Apply(s, st).procs[st.p];
            && t.procs == s.procs[st.p := pr'] && s.nextFd <= t.nextFd
            && ProcInv(t, pr')
            && (t.owner == s.owner || (HasOpen(pr) && s.owner == Some(pr.fd) && t.owner.None?)
                || (HasOpen(pr) && s.owner.None? && t.owner == Some(pr.fd)))
            && (t.owner.Some? && (t.owner != s.owner || t.owner.value in pr.open) ==> t.owner.value in pr'.open)
            && (pr'.open <= pr.open || (pr'.open == {s.nextFd} && s.nextFd < t.nextFd))
  {
    var pr := s.procs[st.p];
    if st.act.Act? && (pr.pc.GiveUp? || pr.pc.Close?) {
      assert pr.open - {pr.fd} == {};
    }
  }

  lemma InvStep(s: State, st: Step)
    requires Inv(s) && Enabled(s, st)
    ensures Inv(Apply(s, st))
  {
    var p, t := st.p, Apply(s, st);
    StepShape(s, st);
    forall q | 0 <= q < |s.procs| && q != p
      ensures ProcInv(t, s.procs[q]) && t.procs[p].open !! s.procs[q].open
    {
      assert ProcInv(s, s.procs[q]);
      OthersKeep(s, p, q, t);
      assert s.procs[p].open !! s.procs[q].open;
    }
    if t.owner.Some? && t.owner == s.owner {
      var q :| 0 <= q < |s.procs| && s.owner.value in s.procs[q].open;
      assert t.owner.value in t.procs[q].open;
    } else if t.owner.Some? {
      assert t.owner.value in t.procs[p].open;
    }
  }

  lemma {:induction false} InvRun(states: seq<State>, steps: seq<Step>, i: nat)
    requires Run(states, steps) && i < |states| && Inv(states[0])
    ensures Inv(states[i])
  {
    if i > 0 {
      InvRun(states, steps, i - 1);
      InvStep(states[i - 1], steps[i - 1]);
    }
  }

  // ----- Safety of every run ------------------------------------------------------------------

  lemma OneOwner(s: State, p: nat, q: nat)
    requires Inv(s) && p < |s.procs| && q < |s.procs| && Owns(s.procs[p]) && Owns(s.procs[q])
    ensures p == q
  {
    assert ProcInv(s, s.procs[p]) && ProcInv(s, s.procs[q]);
  }

  /** In mosys_unlock, past a successful flock(LOCK_UN), with is_held still set. */
  predicate InWindow(pr: Proc) {
    pr.pc == Close(true) || pr.pc.ClearHeld?
  }

  /** Descriptors: a process has the lock file open while it holds the lock, and at no other time between
      calls; and is_held means that this descriptor owns the flock, exactly until LOCK_UN has succeeded
      (or, if LOCK_UN failed, until the descriptor is closed). */
  lemma HeldMeansOwned(states: seq<State>, steps: seq<Step>, i: nat, p: nat)
    requires RunFromInit(states, steps) && i < |states| && p < |states[i].procs|
    ensures var s, pr := states[i], states[i].procs[p];
            && (pr.pc.Idle? ==> pr.open == if pr.held then {pr.fd} else {})
            && (pr.held ==> (!InWindow(pr) <==> pr.fd in pr.open && s.owner == Some(pr.fd)))
            && (s.owner.Some? && s.owner.value in pr.open && pr.pc.Idle? ==> pr.held)
  {
    InvRun(states, steps, i);
    assert ProcInv(states[i], states[i].procs[p]);
  }

  /** Two processes can have is_held set together only while one of them is inside that window. */
  lemma MutualExclusion(states: seq<State>, steps: seq<Step>, i: nat, p: nat, q: nat)
    requires RunFromInit(states, steps) && i < |states|
    requires p < |states[i].procs| && q < |states[i].procs| && p != q
    requires states[i].procs[p].held && states[i].procs[q].held
    ensures InWindow(states[i].procs[p]) || InWindow(states[i].procs[q])
  {
    InvRun(states, steps, i);
    var s := states[i];
    assert ProcInv(s, s.procs[p]) && ProcInv(s, s.procs[q]);
    if Owns(s.procs[p]) && Owns(s.procs[q]) {
      OneOwner(s, p, q);
    }
  }

  /** The next action of process `p`, succeeding. */
  function Goes(s: State, p: nat): State
    requires Enabled(s, Step(p, Act(true, false)))
  {
    Apply(s, Step(p, Act(true, false)))
  }

  /** A process is born and takes the free lock, up to where is_held is set. */
  lemma Locks(s: State, p: nat) returns (t: State)
    requires p < |s.procs| && s.procs[p] == DEAD && s.owner.None?
    ensures Leads(s, t) && |t.procs| == |s.procs| && t.procs == s.procs[p := t.procs[p]]
    ensures t.procs[p] == Proc(true, WritePid, s.nextFd, true, {s.nextFd}) && t.owner == Some(s.nextFd)
  {
    var s1 := Apply(s, Step(p, Start));
    var s2 := Apply(s1, Step(p, CallLock));
    var s3 := Goes(s2, p);   // open
    var s4 := Goes(s3, p);   // flock(LOCK_EX | LOCK_NB)
    t := Goes(s4, p);        // is_held = 1
    LeadsHere(Next, t);
    LeadsBy(Next, s4, Step(p, Act(true, false)), Apply(s4, Step(p, Act(true, false))), t);
    LeadsBy(Next, s3, Step(p, Act(true, false)), Apply(s3, Step(p, Act(true, false))), t);
    LeadsBy(Next, s2, Step(p, Act(true, false)), Apply(s2, Step(p, Act(true, false))), t);
    LeadsBy(Next, s1, Step(p, CallLock), Apply(s1, Step(p, CallLock)), t);
    LeadsBy(Next, s, Step(p, Start), Apply(s, Step(p, Start)), t);
  }

  /** And that does happen: mosys_unlock releases the flock before it clears is_held. */
  lemma TwoHeld() returns (s: State, t: State)
    ensures Init(s) && Leads(s, t)
    ensures |t.procs| == 2 && t.procs[0].held && t.procs[1].held
  {
    s := State(None, 0, [DEAD, DEAD]);
    var s1 := Locks(s, 0);
    var s2 := Goes(s1, 0);   // mosys_lock returns
    var s3 := Apply(s2, Step(0, CallUnlock));
    var s4 := Goes(s3, 0);   // flock(LOCK_UN)
    t := Locks(s4, 1);
    LeadsBy(Next, s3, Step(0, Act(true, false)), Apply(s3, Step(0, Act(true, false))), t);
    LeadsBy(Next, s2, Step(0, CallUnlock), Apply(s2, Step(0, CallUnlock)), t);
    LeadsBy(Next, s1, Step(0, Act(true, false)), Apply(s1, Step(0, Act(true, false))), t);
    LeadsTwice(Next, s, s1, t);
  }

  /** The death of the owner frees the flock, and whoever tries next can have it. */
  lemma CrashRecovery(s: State, p: nat)
    requires Inv(s) && Enabled(s, Step(p, Crash)) && Owns(s.procs[p])
    ensures var t := Apply(s, Step(p, Crash));
            && t.owner.None?
            && forall q :: 0 <= q < |t.procs| && t.procs[q].pc.Try? ==>
                             Enabled(t, Step(q, Act(true, false))) && Owns(Apply(t, Step(q, Act(true, false))).procs[q])
  {
    assert ProcInv(s, s.procs[p]);
    assert s.procs[p].fd in s.procs[p].open;
    InvStep(s, Step(p, Crash));
    var t := Apply(s, Step(p, Crash));
    forall q | 0 <= q < |t.procs| && t.procs[q].pc.Try?
      ensures Enabled(t, Step(q, Act(true, false))) && Owns(Apply(t, Step(q, Act(true, false))).procs[q])
    {
      assert ProcInv(t, t.procs[q]);
    }
  }
}
