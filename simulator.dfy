/// Direct simulation of an NFA by sets of active states (src/simulator.c).
///
/// The active set is an array of state ids with a count, exactly as in the C
/// code; `AddStateToSet` appends a state and, recursively, its epsilon
/// successors, skipping any state already present. Each method is proved
/// against the set semantics of module NfaGraph.
module Simulator {
  import opened NfaGraph

  /** Capacity of the active-state arrays. */
  const MAX_STATES: nat := 1024

  /** Every epsilon successor of `x` occurs in `s`. */
  ghost predicate SuccsIn(g: seq<State>, x: nat, s: seq<nat>)
  {
    x < |g| ==>
      forall k :: 0 <= k < |g[x].transitions| && g[x].transitions[k].trigger == EPSILON
        ==> g[x].transitions[k].target in s
  }

  lemma SuccsInGrow(g: seq<State>, x: nat, a: seq<nat>, b: seq<nat>)
    requires SuccsIn(g, x, a) && a <= b
    ensures SuccsIn(g, x, b)
  {
    if x < |g| {
      forall k | 0 <= k < |g[x].transitions| && g[x].transitions[k].trigger == EPSILON
        ensures g[x].transitions[k].target in b
      {
        var t := g[x].transitions[k].target;
        var i :| 0 <= i < |a| && a[i] == t;
        assert b[i] == t;
      }
    }
  }

  /** Every entry of `cur` from index `count` on is reachable from `s` and has all its
      epsilon successors in `cur`. */
  ghost predicate AddedFrom(g: seq<State>, s: nat, count: nat, cur: seq<nat>)
  {
    forall i :: count <= i < |cur| ==> EpsReach(g, s, cur[i]) && SuccsIn(g, cur[i], cur)
  }

  /** What one call of `AddStateToSet` leaves behind, read as sets: when the set it
      started from was epsilon-closed, the result is that set plus the closure of `s`. */
  lemma AddedIsClosureUnion(g: seq<State>, before: seq<nat>, after: seq<nat>, s: nat)
    requires WellFormed(g) && Members(g, after) && before <= after
    requires s < |g| && s in after
    requires EpsClosed(g, SetOf(before))
    requires AddedFrom(g, s, |before|, after)
    ensures EpsClosed(g, SetOf(after))
    ensures SetOf(after) == SetOf(before) + Closure(g, {s})
  {
    var A := SetOf(after);
    forall x, k | x in A && x < |g| && 0 <= k < |g[x].transitions| && g[x].transitions[k].trigger == EPSILON
      ensures g[x].transitions[k].target in A
    {
      var i :| 0 <= i < |after| && after[i] == x;
      if i < |before| {
        assert x in SetOf(before);
        var t := g[x].transitions[k].target;
        assert t in SetOf(before);
        var j :| 0 <= j < |before| && before[j] == t;
        assert after[j] == t;
      }
    }
    assert {s} <= A;
    ClosedContainsClosure(g, A, {s});
    assert SetOf(before) <= A by {
      forall x | x in SetOf(before) ensures x in A {
        var j :| 0 <= j < |before| && before[j] == x;
        assert after[j] == x;
      }
    }
    forall x | x in A
      ensures x in SetOf(before) + Closure(g, {s})
    {
      var i :| 0 <= i < |after| && after[i] == x;
      if i < |before| {
        assert before[i] == x;
      } else {
        assert EpsReach(g, s, x);
        assert x in Range(|g|);
      }
    }
  }

  /** The state of the depth-first walk in `AddStateToSet` once `s` has been appended at
      index `count` of `cur` and its first `k` transitions have been followed: everything
      added since is reachable from `s`, every state added after `s` has all its epsilon
      successors present, and so have the epsilon transitions of `s` followed so far. */
  ghost predicate Walked(g: seq<State>, s: nat, count: nat, cur: seq<nat>, k: nat)
  {
    && s < |g| && k <= |g[s].transitions|
    && count < |cur| && cur[count] == s
    && (forall i :: count <= i < |cur| ==> EpsReach(g, s, cur[i]))
    && (forall i :: count < i < |cur| ==> SuccsIn(g, cur[i], cur))
    && forall j :: 0 <= j < k && g[s].transitions[j].trigger == EPSILON ==> g[s].transitions[j].target in cur
  }

  /** Following the epsilon transition number `k` of `s` to `t` keeps `Walked`. */
  lemma WalkedStep(g: seq<State>, s: nat, count: nat, before: seq<nat>, after: seq<nat>, k: nat, t: nat)
    requires Walked(g, s, count, before, k) && k < |g[s].transitions|
    requires g[s].transitions[k] == Transition(EPSILON, t)
    requires before <= after && t in after
    requires AddedFrom(g, t, |before|, after)
    ensures Walked(g, s, count, after, k + 1)
  {
    assert EpsEdge(g, s, t);
    forall i | count <= i < |after|
      ensures EpsReach(g, s, after[i])
    {
      if i >= |before| {
        ReachPrepend(g, s, t, after[i]);
      } else {
        assert after[i] == before[i];
      }
    }
    forall i | count < i < |after|
      ensures SuccsIn(g, after[i], after)
    {
      if i < |before| {
        assert after[i] == before[i];
        SuccsInGrow(g, after[i], before, after);
      }
    }
    forall j | 0 <= j <= k && g[s].transitions[j].trigger == EPSILON
      ensures g[s].transitions[j].target in after
    {
      if j < k {
        var x := g[s].transitions[j].target;
        var m :| 0 <= m < |before| && before[m] == x;
        assert after[m] == x;
      }
    }
  }

  /** Appending a new state `s` starts the walk from it. */
  lemma WalkedStart(g: seq<State>, prefix: seq<nat>, s: nat)
    requires Members(g, prefix) && s < |g| && s !in prefix
    ensures Members(g, prefix + [s])
    ensures Walked(g, s, |prefix|, prefix + [s], 0)
  {
    ReachRefl(g, s);
    assert (prefix + [s])[|prefix|] == s;
  }

  /** Passing over a transition of `s` that is not an epsilon keeps `Walked`. */
  lemma WalkedSkip(g: seq<State>, s: nat, count: nat, cur: seq<nat>, k: nat)
    requires Walked(g, s, count, cur, k) && k < |g[s].transitions|
    requires g[s].transitions[k].trigger != EPSILON
    ensures Walked(g, s, count, cur, k + 1)
  {
  }

  lemma WalkedDone(g: seq<State>, s: nat, count: nat, cur: seq<nat>)
    requires s < |g| && Walked(g, s, count, cur, |g[s].transitions|)
    ensures AddedFrom(g, s, count, cur)
  {
    assert SuccsIn(g, cur[count], cur);
  }

  /** Adds `state` and every state reachable from it through epsilon transitions to the
      first `count` entries of `stateSet`, never adding a state that is already there; returns
      the new count. `None` stands for a NULL state and changes nothing. */
  method AddStateToSet(g: seq<State>, state: Option<nat>, stateSet: array<nat>, count: nat) returns (newCount: nat)
    requires WellFormed(g) && |g| <= stateSet.Length
    requires state.Some? ==> state.value < |g|
    requires count <= stateSet.Length && Members(g, stateSet[..count])
    modifies stateSet
    ensures count <= newCount <= |g|
    ensures stateSet[..count] == old(stateSet[..count])
    ensures forall i :: newCount <= i < stateSet.Length ==> stateSet[i] == old(stateSet[i])
    ensures Members(g, stateSet[..newCount])
    ensures state.None? ==> newCount == count
    ensures state.Some? ==> state.value in stateSet[..newCount]
    ensures state.Some? ==> AddedFrom(g, state.value, count, stateSet[..newCount])
    ensures state.Some? && EpsClosed(g, SetOf(old(stateSet[..count]))) ==>
              && EpsClosed(g, SetOf(stateSet[..newCount]))
              && SetOf(stateSet[..newCount]) == SetOf(old(stateSet[..count])) + Closure(g, {state.value})
    decreases |g| - count, 1
  {
    MembersBound(g, stateSet[..count], None);
    if state.None? {
      return count;
    }
    var s := state.value;
    for i := 0 to count
      invariant forall j :: 0 <= j < i ==> stateSet[j] != s
    {
      if stateSet[i] == s {
        assert stateSet[..count][i] == s;
        if EpsClosed(g, SetOf(stateSet[..count])) {
          AddedIsClosureUnion(g, stateSet[..count], stateSet[..count], s);
        }
        return count;
      }
    }
    assert s !in stateSet[..count];
    MembersBound(g, stateSet[..count], Some(s));
    ghost var prefix := stateSet[..count];
    stateSet[count] := s;
    assert stateSet[..count + 1] == prefix + [s];
    WalkedStart(g, prefix, s);
    newCount := FollowEpsilons(g, s, stateSet, count);
    assert stateSet[..count + 1] == prefix + [s];
    assert stateSet[..count] == prefix;
    assert stateSet[..newCount][count] == s;
    WalkedDone(g, s, count, stateSet[..newCount]);
    if EpsClosed(g, SetOf(prefix)) {
      AddedIsClosureUnion(g, prefix, stateSet[..newCount], s);
    }
  }

  /** The second half of `AddStateToSet`, once `s` has been appended at index `count`: follows
      every epsilon transition of `s` in order, adding each target with its closure. */
  method FollowEpsilons(g: seq<State>, s: nat, stateSet: array<nat>, count: nat) returns (newCount: nat)
    requires WellFormed(g) && |g| <= stateSet.Length
    requires count < |g| && Members(g, stateSet[..count + 1])
    requires Walked(g, s, count, stateSet[..count + 1], 0)
    modifies stateSet
    ensures count < newCount <= |g|
    ensures stateSet[..count + 1] == old(stateSet[..count + 1])
    ensures forall i :: newCount <= i < stateSet.Length ==> stateSet[i] == old(stateSet[i])
    ensures Members(g, stateSet[..newCount])
    ensures Walked(g, s, count, stateSet[..newCount], |g[s].transitions|)
    decreases |g| - count, 0
  {
    newCount := count + 1;
    for k := 0 to |g[s].transitions|
      invariant count < newCount <= |g|
      invariant stateSet[..count + 1] == old(stateSet[..count + 1])
      invariant forall i :: newCount <= i < stateSet.Length ==> stateSet[i] == old(stateSet[i])
      invariant Members(g, stateSet[..newCount])
      invariant Walked(g, s, count, stateSet[..newCount], k)
    {
      var t := g[s].transitions[k];
      if t.trigger == EPSILON {
        ghost var before := stateSet[..newCount];
        var added := AddStateToSet(g, Some(t.target), stateSet, newCount);
        assert stateSet[..newCount] == before;
        assert before <= stateSet[..added];
        assert stateSet[..count + 1] == before[..count + 1];
        WalkedStep(g, s, count, before, stateSet[..added], k, t.target);
        newCount := added;
      } else {
        WalkedSkip(g, s, count, stateSet[..newCount], k);
      }
    }
  }

  /** The targets of the first `k` transitions of `s` whose trigger is `c`. */
  ghost function TargetsOn(g: seq<State>, s: nat, c: char, k: nat): set<nat>
    requires s < |g| && k <= |g[s].transitions|
  {
    set i | 0 <= i < k && g[s].transitions[i].trigger == c :: g[s].transitions[i].target
  }

  /** Looking at one more transition of `s` adds its target exactly when its trigger is `c`. */
  lemma TargetsOnNext(g: seq<State>, s: nat, c: char, k: nat)
    requires s < |g| && k < |g[s].transitions|
    ensures g[s].transitions[k].trigger == c ==>
              TargetsOn(g, s, c, k + 1) == TargetsOn(g, s, c, k) + {g[s].transitions[k].target}
    ensures g[s].transitions[k].trigger != c ==> TargetsOn(g, s, c, k + 1) == TargetsOn(g, s, c, k)
  {
    var tr := g[s].transitions;
    forall x | x in TargetsOn(g, s, c, k + 1)
      ensures x in TargetsOn(g, s, c, k) || (tr[k].trigger == c && x == tr[k].target)
    {
      var i :| 0 <= i < k + 1 && tr[i].trigger == c && tr[i].target == x;
      if i < k {
        assert x in TargetsOn(g, s, c, k);
      }
    }
    if tr[k].trigger == c {
      assert tr[k].target in TargetsOn(g, s, c, k + 1);
    }
  }

  lemma MoveExtend(g: seq<State>, current: seq<nat>, j: nat, c: char)
    requires j < |current| && current[j] < |g|
    ensures Move(g, SetOf(current[..j + 1]), c)
         == Move(g, SetOf(current[..j]), c) + TargetsOn(g, current[j], c, |g[current[j]].transitions|)
  {
    assert SetOf(current[..j + 1]) == SetOf(current[..j]) + {current[j]} by {
      assert current[..j + 1] == current[..j] + [current[j]];
    }
  }

  /** The inner loop of one simulation step: for every transition of `s` whose trigger is
      `c`, adds its target and the target's epsilon closure to the epsilon-closed set held in
      the first `count` entries of `next`. */
  method AddTargetsOn(g: seq<State>, s: nat, c: char, next: array<nat>, count: nat, ghost X: set<nat>)
    returns (newCount: nat)
    requires WellFormed(g) && s < |g| && |g| <= next.Length
    requires count <= next.Length && Members(g, next[..count])
    requires EpsClosed(g, SetOf(next[..count])) && SetOf(next[..count]) == Closure(g, X)
    modifies next
    ensures newCount <= |g| && Members(g, next[..newCount])
    ensures EpsClosed(g, SetOf(next[..newCount]))
    ensures SetOf(next[..newCount]) == Closure(g, X + TargetsOn(g, s, c, |g[s].transitions|))
  {
    newCount := count;
    MembersBound(g, next[..count], None);
    for k := 0 to |g[s].transitions|
      invariant newCount <= |g| && Members(g, next[..newCount])
      invariant EpsClosed(g, SetOf(next[..newCount]))
      invariant SetOf(next[..newCount]) == Closure(g, X + TargetsOn(g, s, c, k))
    {
      var t := g[s].transitions[k];
      ghost var before := X + TargetsOn(g, s, c, k);
      if t.trigger == c {
        newCount := AddStateToSet(g, Some(t.target), next, newCount);
        ClosureUnion(g, before, {t.target});
      }
      TargetsOnNext(g, s, c, k);
    }
  }

  /** For every state of `current` and every transition of it whose trigger is `c`, adds the
      target and its epsilon closure to `next`, which starts empty. The result, read as a
      set, is one step of the NFA from the states of `current`. */
  method MoveAndClose(g: seq<State>, current: seq<nat>, c: char, next: array<nat>) returns (nextCount: nat)
    requires WellFormed(g) && |g| <= next.Length
    requires forall i :: 0 <= i < |current| ==> current[i] < |g|
    modifies next
    ensures nextCount <= |g|
    ensures Members(g, next[..nextCount])
    ensures SetOf(next[..nextCount]) == Step(g, SetOf(current), c)
  {
    nextCount := 0;
    assert Move(g, SetOf(current[..0]), c) == {};
    assert Closure(g, {}) == {};
    for j := 0 to |current|
      invariant nextCount <= |g| && Members(g, next[..nextCount])
      invariant EpsClosed(g, SetOf(next[..nextCount]))
      invariant SetOf(next[..nextCount]) == Closure(g, Move(g, SetOf(current[..j]), c))
    {
      nextCount := AddTargetsOn(g, current[j], c, next, nextCount, Move(g, SetOf(current[..j]), c));
      MoveExtend(g, current, j, c);
    }
    assert current[..|current|] == current;
  }

  /** Runs the NFA whose start state is `nfa.start` over `str` and reports whether it ends in
      an accepting state. `str` is the text of a C string, so it holds no NUL. */
  method SimulateNfa(g: seq<State>, nfa: Fragment, str: seq<char>) returns (matched: bool)
    requires WellFormed(g) && nfa.start < |g| && |g| <= MAX_STATES
    requires EPSILON !in str
    ensures matched == NfaAccepts(g, nfa.start, str)
  {
    var currentStates := new nat[MAX_STATES];
    var nextStates := new nat[MAX_STATES];
    var currentCount := 0;
    var nextCount := 0;
    ghost var start := Closure(g, {nfa.start});

    currentCount := AddStateToSet(g, Some(nfa.start), currentStates, currentCount);
    assert SetOf(currentStates[..0]) == {};
    for i := 0 to |str|
      invariant currentCount <= |g| && Members(g, currentStates[..currentCount])
      invariant SetOf(currentStates[..currentCount]) == Run(g, start, str[..i])
    {
      var c := str[i];
      nextCount := MoveAndClose(g, currentStates[..currentCount], c, nextStates);
      ghost var next := nextStates[..nextCount];
      assert SetOf(next) == Step(g, Run(g, start, str[..i]), c);
      forall k | 0 <= k < nextCount {
        currentStates[k] := nextStates[k];
      }
      currentCount := nextCount;
      assert currentStates[..currentCount] == next;
      RunSnoc(g, start, str, i);
      if currentCount == 0 {
        assert SetOf(currentStates[..0]) == {};
        RunDead(g, start, str, i + 1);
        return false;
      }
    }
    assert str[..|str|] == str;
    for j := 0 to currentCount
      invariant forall m :: 0 <= m < j ==> !g[currentStates[m]].accepting
    {
      if g[currentStates[j]].accepting {
        assert currentStates[..currentCount][j] == currentStates[j];
        return true;
      }
    }
    assert forall s :: s in SetOf(currentStates[..currentCount]) ==> !g[s].accepting;
    return false;
  }
}
