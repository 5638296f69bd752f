/** Safety of every run: mutual exclusion, conservation of the token, safe initialisation. */
module SemLockSafety {
  import opened SemLock
  import opened SemLockInvariant

  // ----- Safety of every run ------------------------------------------------------------------

  /** Two processes never own the lock together. */
  lemma OneOwner(s: State, p: nat, q: nat)
    requires Inv(s) && p < |s.procs| && q < |s.procs|
    requires Owns(s.procs[p]) && Owns(s.procs[q])
    ensures p == q
  {
    assert LockInv(s, s.procs[p]) && LockInv(s, s.procs[q]);
    if p != q {
      UndoNonNegative(s);
      SumBounds(s.procs, s.key.value, if p < q then p else q, if p < q then q else p);
    }
  }

  lemma UndoNonNegative(s: State)
    requires Inv(s) && Initialised(s)
    ensures forall i :: 0 <= i < |s.procs| ==>
                        Undo(s.procs[i], s.key.value) == if Owns(s.procs[i]) then 1 else 0
  {
    forall i | 0 <= i < |s.procs|
      ensures Undo(s.procs[i], s.key.value) == if Owns(s.procs[i]) then 1 else 0
    {
      assert LockInv(s, s.procs[i]);
    }
  }

  /** At most one live process has is_held set, whatever interleaving led here. */
  lemma MutualExclusion(states: seq<State>, steps: seq<Step>, i: nat, p: nat, q: nat)
    requires RunFromInit(states, steps) && Trusted(states[0].platform) && i < |states|
    requires p < |states[i].procs| && q < |states[i].procs|
    requires states[i].procs[p].held && states[i].procs[q].held
    ensures p == q && states[i].procs[p].alive
  {
    InvInit(states[0]);
    InvRun(states, steps, i);
    OneOwner(states[i], p, q);
    assert LockInv(states[i], states[i].procs[p]);
  }

  /** Value plus adjustments is 1 in every state, also between the semop and the is_held update; and
      the value is 1 exactly when nobody owns the lock. */
  lemma TokenConservation(states: seq<State>, steps: seq<Step>, i: nat)
    requires RunFromInit(states, steps) && Trusted(states[0].platform) && i < |states|
    requires Initialised(states[i])
    ensures var s := states[i];
            var val := s.sems[s.key.value].val;
            && val + SumUndo(s.procs, s.key.value) == 1
            && (val == 0 || val == 1)
            && (val == 1 <==> forall p :: 0 <= p < |s.procs| ==> !Owns(s.procs[p]))
  {
    InvInit(states[0]);
    InvRun(states, steps, i);
    FreeIffNoOwner(states[i]);
  }

  lemma FreeIffNoOwner(s: State)
    requires Inv(s) && Initialised(s)
    ensures var val := s.sems[s.key.value].val;
            && 0 <= val <= 1
            && (val == 1 <==> forall p :: 0 <= p < |s.procs| ==> !Owns(s.procs[p]))
  {
    var id := s.key.value;
    UndoNonNegative(s);
    if p :| 0 <= p < |s.procs| && Owns(s.procs[p]) {
      SumBounds(s.procs, id, p, p);
    } else {
      SumZero(s.procs, id);
    }
  }

  /** A process waiting to go down gets through exactly when no live process has an adjustment pending. */
  lemma DownEnabledIff(s: State, p: nat, now: nat)
    requires Inv(s) && p < |s.procs| && s.procs[p].alive && s.procs[p].pc.Down? && now > 0
    ensures Enabled(s, Step(p, Act(true, now))) <==> forall q :: 0 <= q < |s.procs| ==> !Owns(s.procs[q])
  {
    assert LockInv(s, s.procs[p]);
    FreeIffNoOwner(s);
  }

  /** The death of the owner frees the lock at once; the death of anybody else changes nothing. */
  lemma CrashRecovery(states: seq<State>, steps: seq<Step>, i: nat)
    requires RunFromInit(states, steps) && Trusted(states[0].platform)
    requires i < |steps| && steps[i].act.Crash? && Initialised(states[i])
    ensures var s, t, p := states[i], states[i + 1], steps[i].p;
            && Initialised(t) && t.key == s.key
            && t.sems[t.key.value].val == if Owns(s.procs[p]) then 1 else s.sems[s.key.value].val
  {
    InvInit(states[0]);
    InvRun(states, steps, i);
    InvRun(states, steps, i + 1);
    var s := states[i];
    UndoNonNegative(s);
    if Owns(s.procs[steps[i].p]) {
      FreeIffNoOwner(s);
    }
  }

  // ----- Safe initialisation ------------------------------------------------------------------

  /** The creator's last call inside csem_create: the one that makes sem_otime non-zero. */
  predicate Completes(s: State, st: Step) {
    && Enabled(s, st) && st.act.Act? && st.act.ok
    && var pr := s.procs[st.p];
       if s.platform.setvalSetsOtime then pr.pc.Setval? else pr.pc.Force?
  }

  lemma FirstInitialised(s: State, st: Step)
    requires Inv(s) && Enabled(s, st) && !Initialised(s) && Initialised(Apply(s, st))
    ensures var t := Apply(s, st);
            && Completes(s, st) && t.key == s.key
            && t.sems[t.key.value].val == 1
            && SumUndo(t.procs, t.key.value) == 0
  {
    var t := Apply(s, st);
    CompletedBy(s, st);
    assert SumUndo(t.procs, t.key.value) == 1 - t.sems[t.key.value].val by {
      InvStep(s, st);
    }
  }

  lemma CompletedBy(s: State, st: Step)
    requires Inv(s) && Enabled(s, st) && !Initialised(s) && Initialised(Apply(s, st))
    ensures var t := Apply(s, st); Completes(s, st) && t.key == s.key && t.sems[t.key.value].val == 1
  {
    Uninitialised(s);
    assert PcInv(s, s.procs[st.p]) && LockInv(s, s.procs[st.p]);
  }

  /** Nobody touches the semaphore through the lock, by csem_get or otherwise, before its creator is
      through: if a process stands at a semop, there was an earlier step that completed the creation and
      left the requested value, 1; and up to that step no process was past lock_init. */
  lemma {:induction false} InitialisationSafety(states: seq<State>, steps: seq<Step>, i: nat, p: nat) returns (k: nat)
    requires RunFromInit(states, steps) && Trusted(states[0].platform) && i < |states|
    requires p < |states[i].procs| && HasSem(states[i].procs[p].pc)
    ensures k < i && Completes(states[k], steps[k])
    ensures var t := states[k + 1]; Initialised(t) && t.key == states[i].procs[p].sem && t.sems[t.key.value].val == 1
    ensures forall j, q :: 0 <= j <= k && 0 <= q < |states[j].procs| ==> !HasSem(states[j].procs[q].pc)
  {
    InvInit(states[0]);
    InvRun(states, steps, i);
    assert LockInv(states[i], states[i].procs[p]);
    k := FirstTime(states, steps, i);
  }

  lemma {:induction false} FirstTime(states: seq<State>, steps: seq<Step>, i: nat) returns (k: nat)
    requires Run(states, steps) && Inv(states[0]) && !Initialised(states[0]) && i < |states|
    requires Initialised(states[i])
    ensures k < i && Completes(states[k], steps[k])
    ensures var t := states[k + 1]; Initialised(t) && t.key == states[i].key && t.sems[t.key.value].val == 1
    ensures forall j, q :: 0 <= j <= k && 0 <= q < |states[j].procs| ==> !HasSem(states[j].procs[q].pc)
  {
    if Initialised(states[i - 1]) {
      k := FirstTime(states, steps, i - 1);
      assert states[i].key == states[i - 1].key by {
        InvRun(states, steps, i - 1);
        KeyIsStable(states[i - 1], steps[i - 1]);
      }
    } else {
      k := i - 1;
      assert Completes(states[k], steps[k]) && states[i].sems[states[i].key.value].val == 1 by {
        InvRun(states, steps, k);
        FirstInitialised(states[k], steps[k]);
      }
      forall j | 0 <= j <= k ensures forall q :: 0 <= q < |states[j].procs| ==> !HasSem(states[j].procs[q].pc) {
        NobodyInside(states, steps, j, k);
      }
    }
  }

  lemma NobodyInside(states: seq<State>, steps: seq<Step>, j: nat, k: nat)
    requires Run(states, steps) && Inv(states[0]) && j <= k < |states| && !Initialised(states[k])
    ensures forall q :: 0 <= q < |states[j].procs| ==> !HasSem(states[j].procs[q].pc)
  {
    if Initialised(states[j]) {
      StaysInitialised(states, steps, j, k);
    }
    InvRun(states, steps, j);
    Uninitialised(states[j]);
  }

  lemma KeyIsStable(s: State, st: Step)
    requires Inv(s) && Enabled(s, st) && Initialised(s)
    ensures Initialised(Apply(s, st)) && Apply(s, st).key == s.key
  {
    hide Inv, Apply, Enabled;
    StepFrame(s, st);
  }

  lemma {:induction false} StaysInitialised(states: seq<State>, steps: seq<Step>, j: nat, k: nat)
    requires Run(states, steps) && Inv(states[0]) && j <= k < |states| && Initialised(states[j])
    ensures Initialised(states[k])
    decreases k
  {
    if j < k {
      StaysInitialised(states, steps, j, k - 1);
      InvRun(states, steps, k - 1);
      KeyIsStable(states[k - 1], steps[k - 1]);
    }
  }
}
