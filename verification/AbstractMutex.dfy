/**
 The mutex that include/mosys/ipc_lock.h promises, without saying how it is kept: a token with at
 most one owner, and what every client may conclude from the values its calls return. Both lock
 backends are refinements of this machine.
 */
module AbstractMutex {
  import opened Basics
  import opened Runs

  /** `held`: clients between a lock call that returned 0 and their next unlock call.
      `releasing`: clients inside an unlock call that found the lock held. */
  datatype State = State(owner: Option<nat>, held: set<nat>, releasing: set<nat>)

  datatype Label =
    | Internal
    | LockReturns(p: nat, r: int)
    | UnlockBegins(p: nat)
    | UnlockReturns(p: nat, r: int)
    | Dies(p: nat)

  const INITIAL := State(None, {}, {})

  ghost predicate Next(s: State, l: Label, s': State) {
    match l
    case Internal =>
      && s'.held == s.held && s'.releasing == s.releasing
      && (|| s' == s
          || (s.owner.None? && s'.owner.Some?)
          || (s.owner.Some? && s'.owner.None? && s.owner.value !in s.held))
    case LockReturns(p, r) =>
      && p !in s.releasing
      && if r > 0 then s' == s && p in s.held
         else if r == 0 then p !in s.held && s.owner == Some(p) && s' == s.(held := s.held + {p})
         else s' == s && p !in s.held && s.owner != Some(p)
    case UnlockBegins(p) =>
      p in s.held && s' == s.(held := s.held - {p}, releasing := s.releasing + {p})
    case UnlockReturns(p, r) =>
      && p !in s.held
      && if r == 0 then p in s.releasing && s.owner != Some(p) && s' == s.(releasing := s.releasing - {p})
         else r == -1 && p !in s.releasing && s' == s
    case Dies(p) =>
      s' == State(if s.owner == Some(p) then None else s.owner, s.held - {p}, s.releasing - {p})
  }

  ghost predicate Safe(s: State) {
    && (forall p :: p in s.held ==> s.owner == Some(p))
    && s.held !! s.releasing
  }

  /** A run, given by the state after each of its labels. */
  ghost predicate Run(labels: seq<Label>, states: seq<State>) {
    IsRun(Next, states, labels) && states[0] == INITIAL
  }

  lemma {:induction false} RunIsSafe(labels: seq<Label>, states: seq<State>, i: nat)
    requires Run(labels, states) && i < |states|
    ensures Safe(states[i])
  {
    if i > 0 {
      RunIsSafe(labels, states, i - 1);
      assert Next(states[i - 1], labels[i - 1], states[i]);
    }
  }

  predicate Ends(l: Label, p: nat) {
    l == UnlockBegins(p) || l == Dies(p)
  }

  /** What the header promises of the return values: once a lock call has returned 0 to `p`, and until
      `p` unlocks or dies, no other client's lock call returns 0 or finds the lock already held. */
  lemma {:induction false} ExclusiveUntilUnlock(labels: seq<Label>, states: seq<State>, i: nat, j: nat, p: nat, q: nat, r: int)
    requires Run(labels, states) && i < j < |labels|
    requires labels[i] == LockReturns(p, 0)
    requires forall k :: i < k < j ==> !Ends(labels[k], p)
    requires labels[j] == LockReturns(q, r) && q != p
    ensures r < 0
  {
    HeldPersists(labels, states, i, j, p);
    RunIsSafe(labels, states, j);
    RunIsSafe(labels, states, j + 1);
    assert Next(states[j], labels[j], states[j + 1]);
  }

  lemma {:induction false} HeldPersists(labels: seq<Label>, states: seq<State>, i: nat, j: nat, p: nat)
    requires Run(labels, states) && i < j <= |labels|
    requires labels[i] == LockReturns(p, 0)
    requires forall k :: i < k < j ==> !Ends(labels[k], p)
    ensures p in states[j].held
  {
    assert Next(states[j - 1], labels[j - 1], states[j]);
    if j - 1 > i {
      HeldPersists(labels, states, i, j - 1, p);
    }
  }
}
