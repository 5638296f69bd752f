/**
 The cross-process lock over one System V semaphore (core/csem.c, core/ipc_lock.c) as an interleaved
 step system. Every process runs the code one system call at a time; a step is one such call, the
 local assignment between two calls, or the death of a process. The kernel keeps, for each semaphore,
 its value and sem_otime, and for each process the adjustments that SEM_UNDO has collected.
 */
module SemLock {
  import opened Basics
  import opened Runs

  // ----- State ------------------------------------------------------------------------------

  datatype Sem = Sem(val: int, otime: nat)

  /** Where a process stands. Each name is the next action of the code, the argument is `sem_id`. */
  datatype Pc =
    | Idle
    // does_semctl_set_otime
    | Probe | ProbeSet(id: nat) | ProbeRead(id: nat) | ProbeEnd(id: nat, answer: Option<bool>)
    // csem_create
    | Create | Setval(id: nat) | Force(id: nat) | Destroy(id: nat)
    // csem_get
    | Get | Wait(id: nat, tries: nat)
    // mosys_lock after lock_init
    | Check | Down | SetHeld
    // mosys_unlock
    | Up | UpDone

  /** A process: its `struct ipc_lock` (sem, held), its static `need_otime_hack` (hack) and the undo
      adjustments the kernel keeps for it. */
  datatype Proc = Proc(alive: bool, pc: Pc, sem: Option<nat>, held: bool, hack: Option<bool>, undo: map<nat, int>)

  const DEAD := Proc(false, Idle, None, false, None, map[])
  const NEWBORN := DEAD.(alive := true)

  /** `setvalSetsOtime`: whether semctl(SETVAL) sets sem_otime here.
      `statMayFail`: whether the probe's own IPC_STAT may fail. */
  datatype Platform = Platform(setvalSetsOtime: bool, statMayFail: bool)

  datatype State = State(
    platform: Platform,
    sems: map<nat, Sem>,
    key: Option<nat>,   // the semaphore bound to the lock's key
    nextId: nat,        // identifiers from here on have never been used
    procs: seq<Proc>)

  datatype Action =
    | Start
    | Crash
    | CallLock
    | CallUnlock
    | Act(ok: bool, now: nat)   // the action the process stands at; `ok` is false when the system call fails

  datatype Step = Step(p: nat, act: Action)

  const MAX_OTIME_LOOPS := 1000

  predicate Init(s: State) {
    && s.sems == map[] && s.key.None?
    && forall p :: 0 <= p < |s.procs| ==> s.procs[p] == DEAD
  }

  // ----- Kernel -----------------------------------------------------------------------------

  function Undo(pr: Proc, id: nat): int {
    if id in pr.undo then pr.undo[id] else 0
  }

  /** Process exit: every pending adjustment is added back. */
  function Exit(sems: map<nat, Sem>, pr: Proc): map<nat, Sem> {
    map id | id in sems :: sems[id].(val := sems[id].val + Undo(pr, id))
  }

  /** SETVAL clears the adjustments all processes hold for the semaphore. */
  function ClearUndo(procs: seq<Proc>, id: nat): (r: seq<Proc>)
    ensures |r| == |procs|
    ensures forall i :: 0 <= i < |procs| ==> r[i] == procs[i].(undo := procs[i].undo - {id})
  {
    seq(|procs|, i requires 0 <= i < |procs| => procs[i].(undo := procs[i].undo - {id}))
  }

  // ----- Steps ------------------------------------------------------------------------------

  predicate Enabled(s: State, st: Step) {
    && st.p < |s.procs|
    && var pr := s.procs[st.p];
       match st.act
       case Start => !pr.alive
       case Crash => pr.alive
       case CallLock => pr.alive && pr.pc.Idle?
       case CallUnlock => pr.alive && pr.pc.Idle?
       case Act(ok, now) => pr.alive && now > 0 && ActEnabled(s, pr, ok)
  }

  /** A system call can fail at any time; a down blocks while the value is 0. */
  predicate ActEnabled(s: State, pr: Proc, ok: bool) {
    match pr.pc
    case Idle => false
    case ProbeSet(id) => id in s.sems
    case ProbeRead(id) => id in s.sems && (ok || s.platform.statMayFail)
    case Setval(id) => id in s.sems
    case Force(id) => ok && id in s.sems && s.sems[id].val > 0
    case Down => ok ==> pr.sem.Some? && pr.sem.value in s.sems && s.sems[pr.sem.value].val > 0
    case Up => ok && pr.sem.Some? && pr.sem.value in s.sems
    case Check => ok
    case SetHeld => ok
    case UpDone => ok
    case _ => true
  }

  function Put(s: State, p: nat, pr: Proc): State
    requires p < |s.procs|
  {
    s.(procs := s.procs[p := pr])
  }

  function Apply(s: State, st: Step): State
    requires Enabled(s, st)
  {
    var pr := s.procs[st.p];
    match st.act
    case Start => Put(s, st.p, NEWBORN)
    case Crash => Put(s.(sems := Exit(s.sems, pr)), st.p, DEAD)
    case CallLock =>
      Put(s, st.p, pr.(pc := if pr.sem.Some? then Check else if pr.hack.None? then Probe else Create))
    case CallUnlock =>
      if pr.held then Put(s, st.p, pr.(held := false, pc := Up)) else s
    case Act(ok, now) =>
      if pr.pc.Probe? || pr.pc.ProbeSet? || pr.pc.ProbeRead? || pr.pc.ProbeEnd? then ProbeAct(s, st.p, ok, now)
      else if pr.pc.Create? || pr.pc.Setval? || pr.pc.Force? || pr.pc.Destroy? then CreateAct(s, st.p, ok, now)
      else if pr.pc.Get? || pr.pc.Wait? then GetAct(s, st.p, ok)
      else LockAct(s, st.p, ok, now)
  }

  /** does_semctl_set_otime, on a private semaphore. */
  function ProbeAct(s: State, p: nat, ok: bool, now: nat): State
    requires p < |s.procs| && ActEnabled(s, s.procs[p], ok)
    requires var pc := s.procs[p].pc; pc.Probe? || pc.ProbeSet? || pc.ProbeRead? || pc.ProbeEnd?
  {
    var pr := s.procs[p];
    match pr.pc
    case Probe =>
      if ok then Put(s.(sems := s.sems[s.nextId := Sem(0, 0)], nextId := s.nextId + 1), p, pr.(pc := ProbeSet(s.nextId)))
      else Put(s, p, pr.(pc := Idle))
    case ProbeSet(id) =>
      if ok then
        var sem := Sem(1, if s.platform.setvalSetsOtime then now else s.sems[id].otime);
        Put(s.(sems := s.sems[id := sem], procs := ClearUndo(s.procs, id)), p,
            pr.(undo := pr.undo - {id}, pc := ProbeRead(id)))
      else Put(s, p, pr.(pc := ProbeEnd(id, None)))
    case ProbeRead(id) =>
      // a failed read counts as "does not set sem_otime"
      var need := !(ok && s.sems[id].otime > 0);
      Put(s, p, pr.(pc := ProbeEnd(id, Some(need))))
    case ProbeEnd(id, answer) =>
      var s' := if ok then s.(sems := s.sems - {id}) else s;
      if answer.None? then Put(s', p, pr.(pc := Idle))
      else Put(s', p, pr.(hack := answer, pc := Create))
  }

  /** csem_create(key, 1). */
  function CreateAct(s: State, p: nat, ok: bool, now: nat): State
    requires p < |s.procs| && ActEnabled(s, s.procs[p], ok)
    requires var pc := s.procs[p].pc; pc.Create? || pc.Setval? || pc.Force? || pc.Destroy?
  {
    var pr := s.procs[p];
    match pr.pc
    case Create =>
      if !ok then Put(s, p, pr.(pc := Idle))
      else if s.key.Some? then Put(s, p, pr.(pc := Get))   // EEXIST
      else
        Put(s.(sems := s.sems[s.nextId := Sem(0, 0)], key := Some(s.nextId), nextId := s.nextId + 1), p,
            pr.(pc := Setval(s.nextId)))
    case Setval(id) =>
      if ok then
        var sem := Sem(if pr.hack == Some(true) then 2 else 1,
                       if s.platform.setvalSetsOtime then now else s.sems[id].otime);
        var pr' := pr.(undo := pr.undo - {id});
        Put(s.(sems := s.sems[id := sem], procs := ClearUndo(s.procs, id)), p,
            if pr.hack == Some(true) then pr'.(pc := Force(id)) else pr'.(sem := Some(id), pc := Check))
      else Put(s, p, pr.(pc := Destroy(id)))
    case Force(id) =>
      Put(s.(sems := s.sems[id := Sem(s.sems[id].val - 1, now)]), p, pr.(sem := Some(id), pc := Check))
    case Destroy(id) =>
      var s' := if ok then s.(sems := s.sems - {id}, key := if s.key == Some(id) then None else s.key) else s;
      Put(s', p, pr.(pc := Idle))
  }

  /** csem_get(key). */
  function GetAct(s: State, p: nat, ok: bool): State
    requires p < |s.procs| && ActEnabled(s, s.procs[p], ok)
    requires s.procs[p].pc.Get? || s.procs[p].pc.Wait?
  {
    var pr := s.procs[p];
    match pr.pc
    case Get =>
      if ok && s.key.Some? then Put(s, p, pr.(pc := Wait(s.key.value, 0))) else Put(s, p, pr.(pc := Idle))
    case Wait(id, tries) =>
      if !ok || id !in s.sems then Put(s, p, pr.(pc := Idle))
      else if s.sems[id].otime > 0 then Put(s, p, pr.(sem := Some(id), pc := Check))
      else if tries + 1 < MAX_OTIME_LOOPS then Put(s, p, pr.(pc := Wait(id, tries + 1)))
      else Put(s, p, pr.(pc := Idle))
  }

  /** The rest of mosys_lock, and mosys_unlock. */
  function LockAct(s: State, p: nat, ok: bool, now: nat): State
    requires p < |s.procs| && ActEnabled(s, s.procs[p], ok)
    requires var pc := s.procs[p].pc; pc.Check? || pc.Down? || pc.SetHeld? || pc.Up? || pc.UpDone?
  {
    var pr := s.procs[p];
    match pr.pc
    case Check => Put(s, p, pr.(pc := if pr.held then Idle else Down))
    case Down =>
      if ok then Semop(s, p, pr.(pc := SetHeld), -1, now) else Put(s, p, pr.(pc := Idle))
    case SetHeld => Put(s, p, pr.(held := true, pc := Idle))
    case Up => Semop(s, p, pr.(pc := UpDone), 1, now)
    case UpDone => Put(s, p, pr.(pc := Idle))
  }

  /** semop with SEM_UNDO: change the value, set sem_otime, record the opposite adjustment. */
  function Semop(s: State, p: nat, pr: Proc, delta: int, now: nat): State
    requires p < |s.procs| && pr.sem.Some? && pr.sem.value in s.sems
  {
    var id := pr.sem.value;
    Put(s.(sems := s.sems[id := Sem(s.sems[id].val + delta, now)]), p,
        pr.(undo := pr.undo[id := Undo(pr, id) - delta]))
  }

  // ----- Runs -------------------------------------------------------------------------------

  ghost predicate Next(s: State, st: Step, t: State) {
    Enabled(s, st) && t == Apply(s, st)
  }

  /** Any interleaving of the processes' steps. */
  ghost predicate Run(states: seq<State>, steps: seq<Step>) {
    IsRun(Next, states, steps)
  }

  ghost predicate RunFromInit(states: seq<State>, steps: seq<Step>) {
    Run(states, steps) && Init(states[0])
  }

  ghost predicate Leads(s: State, t: State) {
    CanLead(Next, s, t)
  }
}
