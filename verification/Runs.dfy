/** Runs of a step system, whatever its states and steps are. */
module Runs {

  /** The steps taken, and the state before the first and after each of them. */
  ghost predicate IsRun<S, A>(next: (S, A, S) -> bool, states: seq<S>, steps: seq<A>) {
    && |states| == |steps| + 1
    && forall i {:trigger steps[i]} :: 0 <= i < |steps| ==> next(states[i], steps[i], states[i + 1])
  }

  ghost predicate CanLead<S(!new), A(!new)>(next: (S, A, S) -> bool, s: S, t: S) {
    exists states, steps :: IsRun(next, states, steps) && states[0] == s && states[|steps|] == t
  }

  lemma LeadsHere<S(!new), A(!new)>(next: (S, A, S) -> bool, s: S)
    ensures CanLead(next, s, s)
  {
    var steps: seq<A> := [];
    assert IsRun(next, [s], steps) && [s][|steps|] == s;
  }

  lemma LeadsBy<S(!new), A(!new)>(next: (S, A, S) -> bool, s: S, a: A, s': S, t: S)
    requires next(s, a, s') && CanLead(next, s', t)
    ensures CanLead(next, s, t)
  {
    var states, steps :| IsRun(next, states, steps) && states[0] == s' && states[|steps|] == t;
    var states', steps' := [s] + states, [a] + steps;
    assert IsRun(next, states', steps') by {
      forall i | 0 <= i < |steps'| ensures next(states'[i], steps'[i], states'[i + 1]) {
        if i > 0 {
          assert steps'[i] == steps[i - 1] && states'[i] == states[i - 1];
        }
      }
    }
    assert states'[|steps'|] == t;
  }

  lemma LeadsTwice<S(!new), A(!new)>(next: (S, A, S) -> bool, s: S, t: S, u: S)
    requires CanLead(next, s, t) && CanLead(next, t, u)
    ensures CanLead(next, s, u)
  {
    var states, steps :| IsRun(next, states, steps) && states[0] == s && states[|steps|] == t;
    LeadsAlong(next, states, steps, 0, u);
  }

  lemma {:induction false} LeadsAlong<S(!new), A(!new)>(next: (S, A, S) -> bool, states: seq<S>, steps: seq<A>, i: nat, u: S)
    requires IsRun(next, states, steps) && i <= |steps| && CanLead(next, states[|steps|], u)
    ensures CanLead(next, states[i], u)
    decreases |steps| - i
  {
    if i < |steps| {
      LeadsAlong(next, states, steps, i + 1, u);
      LeadsBy(next, states[i], steps[i], states[i + 1], u);
    }
  }
}
