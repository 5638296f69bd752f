/** Why the answer of does_semctl_set_otime matters: exactly the platforms on which it can be trusted
    give mutual exclusion. */
module SemLockProbe {
  import opened Basics
  import opened SemLock
  import opened Runs
  import opened SemLockInvariant
  import opened SemLockSafety

  predicate Exclusive(s: State) {
    forall p, q :: 0 <= p < |s.procs| && 0 <= q < |s.procs| && s.procs[p].held && s.procs[q].held ==> p == q
  }

  ghost predicate Excludes(pf: Platform) {
    forall s, t :: Init(s) && s.platform == pf && Leads(s, t) ==> Exclusive(t)
  }

  /** Semaphore identifiers in use are old ones. */
  predicate Tidy(s: State) {
    && (forall id :: id in s.sems ==> id < s.nextId)
    && (forall p, id :: 0 <= p < |s.procs| && id in s.procs[p].undo ==> id < s.nextId)
  }

  function Did(s: State, p: nat, ok: bool): State
    requires Enabled(s, Step(p, Act(ok, 1)))
  {
    Apply(s, Step(p, Act(ok, 1)))
  }

  lemma LeadsOn(s: State, p: nat, ok: bool, t: State)
    requires Enabled(s, Step(p, Act(ok, 1))) && Leads(Did(s, p, ok), t)
    ensures Leads(s, t)
  {
    LeadsBy(Next, s, Step(p, Act(ok, 1)), Apply(s, Step(p, Act(ok, 1))), t);
  }

  /** `t` is `s` but for process `p`, the names used up and the value of the key's semaphore. */
  ghost predicate Only(s: State, p: nat, t: State, val: int) {
    && t.platform == s.platform && t.key == s.key && t.nextId >= s.nextId
    && s.key.Some? && s.key.value in s.sems
    && (t.sems == s.sems || t.sems == s.sems[s.key.value := Sem(val, 1)])
    && t.sems[s.key.value].val == val
    && |t.procs| == |s.procs| && p < |s.procs|
    && forall q :: 0 <= q < |s.procs| && q != p ==> t.procs[q] == s.procs[q]
  }

  predicate Open(s: State) {
    s.key.Some? && s.key.value in s.sems && s.sems[s.key.value].val > 0 && s.sems[s.key.value].otime > 0
  }

  /** A newborn process calls mosys_lock, and has made the semaphore for the probe. */
  lemma StartProbe(s: State, p: nat) returns (t: State)
    requires Tidy(s) && p < |s.procs| && s.procs[p] == DEAD
    ensures Leads(s, t)
    ensures t == s.(sems := s.sems[s.nextId := Sem(0, 0)], nextId := s.nextId + 1,
                    procs := s.procs[p := NEWBORN.(pc := ProbeSet(s.nextId))])
  {
    var s1 := Apply(s, Step(p, Start));
    var s2 := Apply(s1, Step(p, CallLock));
    t := Did(s2, p, true);   // semget(IPC_PRIVATE)
    LeadsHere(Next, t);
    LeadsOn(s2, p, true, t);
    LeadsBy(Next, s1, Step(p, CallLock), s2, t);
    LeadsBy(Next, s, Step(p, Start), s1, t);
  }

  /** SETVAL, IPC_STAT and IPC_RMID of the probe. */
  lemma EndProbe(s: State, p: nat, id: nat, ok: bool) returns (t: State)
    requires p < |s.procs| && s.procs[p] == NEWBORN.(pc := ProbeSet(id)) && id in s.sems && s.sems[id] == Sem(0, 0)
    requires (forall q :: 0 <= q < |s.procs| ==> id !in s.procs[q].undo) && (ok || s.platform.statMayFail)
    ensures Leads(s, t)
    ensures t == s.(sems := s.sems - {id},
                    procs := s.procs[p := NEWBORN.(pc := Create, hack := Some(!(ok && s.platform.setvalSetsOtime)))])
  {
    assert ClearUndo(s.procs, id) == s.procs by {
      forall q | 0 <= q < |s.procs| ensures s.procs[q].undo - {id} == s.procs[q].undo {}
    }
    var s1 := Did(s, p, true);   // SETVAL
    assert s1.sems - {id} == s.sems - {id};
    assert s1.procs == s.procs[p := NEWBORN.(pc := ProbeRead(id))];
    var s2 := Did(s1, p, ok);    // IPC_STAT
    t := Did(s2, p, true);       // IPC_RMID
    LeadsHere(Next, t);
    LeadsOn(s2, p, true, t);
    LeadsOn(s1, p, ok, t);
    LeadsOn(s, p, true, t);
  }

  /** A newborn process calls mosys_lock and runs the probe, up to csem_create's semget. */
  lemma RunProbe(s: State, p: nat, ok: bool) returns (t: State)
    requires Tidy(s) && p < |s.procs| && s.procs[p] == DEAD
    requires ok || s.platform.statMayFail
    ensures Leads(s, t)
    ensures |t.procs| == |s.procs| && t == s.(nextId := s.nextId + 1, procs := s.procs[p := t.procs[p]])
    ensures t.procs[p] == NEWBORN.(pc := Create, hack := Some(!(ok && s.platform.setvalSetsOtime)))
  {
    var u := StartProbe(s, p);
    t := EndProbe(u, p, s.nextId, ok);
    assert u.sems - {s.nextId} == s.sems;
    LeadsTwice(Next, s, u, t);
  }

  /** From there it finds the semaphore, as long as that is open. */
  lemma RunGet(s: State, p: nat) returns (t: State)
    requires Open(s) && p < |s.procs| && s.procs[p].hack.Some?
    requires s.procs[p] == NEWBORN.(pc := Create, hack := s.procs[p].hack)
    ensures Leads(s, t) && t == s.(procs := s.procs[p := s.procs[p].(pc := Check, sem := s.key)])
  {
    var s1 := Did(s, p, true);    // semget(IPC_EXCL): EEXIST
    var s2 := Did(s1, p, true);   // semget
    t := Did(s2, p, true);        // IPC_STAT
    LeadsHere(Next, t);
    LeadsOn(s2, p, true, t);
    LeadsOn(s1, p, true, t);
    LeadsOn(s, p, true, t);
  }

  /** And gets the lock. */
  lemma RunDown(s: State, p: nat) returns (t: State)
    requires Open(s) && p < |s.procs| && s.procs[p].hack.Some?
    requires s.procs[p] == NEWBORN.(pc := Check, hack := s.procs[p].hack, sem := s.key)
    ensures Leads(s, t) && Only(s, p, t, s.sems[s.key.value].val - 1) && t.procs[p].held
    ensures t.procs[p].undo.Keys == {s.key.value} && t.sems[s.key.value].otime > 0
  {
    var s1 := Did(s, p, true);    // is_held?
    var s2 := Did(s1, p, true);   // semtimedop
    t := Did(s2, p, true);        // is_held = 1
    LeadsHere(Next, t);
    LeadsOn(s2, p, true, t);
    LeadsOn(s1, p, true, t);
    LeadsOn(s, p, true, t);
  }

  lemma RunLock(s: State, p: nat) returns (t: State)
    requires Open(s) && p < |s.procs| && s.procs[p].hack.Some?
    requires s.procs[p] == NEWBORN.(pc := Create, hack := s.procs[p].hack)
    ensures Leads(s, t) && Only(s, p, t, s.sems[s.key.value].val - 1) && t.procs[p].held
    ensures t.procs[p].undo.Keys == {s.key.value} && t.sems[s.key.value].otime > 0
  {
    var u := RunGet(s, p);
    t := RunDown(u, p);
    LeadsTwice(Next, s, u, t);
  }

  lemma Enter(s: State, p: nat) returns (t: State)
    requires Tidy(s) && Open(s) && p < |s.procs| && s.procs[p] == DEAD
    ensures Leads(s, t) && Only(s, p, t, s.sems[s.key.value].val - 1) && t.procs[p].held
    ensures Tidy(t) && t.sems[s.key.value].otime > 0
  {
    var u := RunProbe(s, p, true);
    t := RunLock(u, p);
    LeadsTwice(Next, s, u, t);
  }

  /** A creator that believes it has to force sem_otime gets as far as SETVAL. */
  lemma RunCreate(s: State, p: nat) returns (t: State)
    requires Tidy(s) && s.key.None? && p < |s.procs| && s.platform.setvalSetsOtime
    requires s.procs[p] == NEWBORN.(pc := Create, hack := Some(true))
    ensures Leads(s, t) && t.key == Some(s.nextId) && t.sems == s.sems[s.nextId := Sem(2, 1)]
    ensures |t.procs| == |s.procs| && t.nextId == s.nextId + 1 && t.procs == s.procs[p := t.procs[p]] && t.procs[p].undo == map[]
  {
    var s1 := Did(s, p, true);    // semget(IPC_CREAT | IPC_EXCL)
    assert ClearUndo(s1.procs, s.nextId) == s1.procs by {
      forall q | 0 <= q < |s1.procs| ensures s1.procs[q].undo - {s.nextId} == s1.procs[q].undo {}
    }
    t := Did(s1, p, true);        // SETVAL
    assert t.procs == s.procs[p := t.procs[p]];
    LeadsHere(Next, t);
    LeadsOn(s1, p, true, t);
    LeadsOn(s, p, true, t);
  }

  /** The creator misreads the platform, sets the value to 2, and sem_otime lets everybody in before
      its extra down. */
  lemma Misread(pf: Platform) returns (s: State, t: State)
    requires !Trusted(pf)
    ensures Init(s) && s.platform == pf && Leads(s, t)
    ensures |t.procs| == 3 && t.procs[1].held && t.procs[2].held
  {
    s := State(pf, map[], None, 0, [DEAD, DEAD, DEAD]);
    var s1 := RunProbe(s, 0, false);
    var s2 := RunCreate(s1, 0);
    var s3 := Enter(s2, 1);
    t := Enter(s3, 2);
    LeadsTwice(Next, s2, s3, t);
    LeadsTwice(Next, s1, s2, t);
    LeadsTwice(Next, s, s1, t);
  }

  /** Mutual exclusion holds over all runs if and only if SETVAL does not set sem_otime on the platform,
      or the probe's IPC_STAT never fails. */
  lemma ExclusionIffTrusted(pf: Platform)
    ensures Excludes(pf) <==> Trusted(pf)
  {
    if Trusted(pf) {
      forall s, t | Init(s) && s.platform == pf && Leads(s, t) ensures Exclusive(t) {
        var states, steps :| IsRun(Next, states, steps) && states[0] == s && states[|steps|] == t;
        forall p, q | 0 <= p < |t.procs| && 0 <= q < |t.procs| && t.procs[p].held && t.procs[q].held ensures p == q {
          MutualExclusion(states, steps, |steps|, p, q);
        }
      }
    } else {
      var s, t := Misread(pf);
    }
  }
}
