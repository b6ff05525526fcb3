/// The NFA data model shared by the Thompson builder, the NFA simulator and
/// the subset construction.
///
/// States live in an arena addressed by their id: a `State` refers to its
/// successors by id, never by pointer, so the back edges of a star are plain
/// numbers. The meaning of an NFA is given here once, as sets of state ids:
/// the epsilon closure of a set, the one-character move, and the run of a
/// whole string. The simulator and the DFA builder are proved against these.
module NfaGraph {

  datatype Option<+T> = None | Some(value: T)

  /** Trigger of an epsilon transition (the C code uses the NUL character). */
  const EPSILON: char := '\0'

  /** Thompson's construction never gives a state more than two out-edges. */
  const MAX_TRANSITIONS: nat := 2

  /** A directed edge, taken on `trigger`, leading to the state whose id is `target`. */
  datatype Transition = Transition(trigger: char, target: nat)

  /** One NFA state: its id, its outgoing transitions in insertion order, and whether it accepts. */
  datatype State = State(id: int, transitions: seq<Transition>, accepting: bool)

  /** A start state and an end state, both by id: the `Nfa` record used for fragments and whole NFAs. */
  datatype Fragment = Fragment(start: nat, end: nat)

  /** The arena is consistent: every state sits at the index equal to its id, has at most
      two transitions, and every transition leads to a state of the arena. */
  ghost predicate WellFormed(g: seq<State>)
  {
    forall i :: 0 <= i < |g| ==>
      && g[i].id == i
      && |g[i].transitions| <= MAX_TRANSITIONS
      && forall k :: 0 <= k < |g[i].transitions| ==> g[i].transitions[k].target < |g|
  }

  // ---------------------------------------------------------------------------
  // Sets of state ids held in arrays: no duplicates, every id in the arena.
  // ---------------------------------------------------------------------------

  ghost predicate NoDups(s: seq<nat>)
  {
    forall i, j :: 0 <= i < j < |s| ==> s[i] != s[j]
  }

  ghost predicate Members(g: seq<State>, s: seq<nat>)
  {
    NoDups(s) && forall i :: 0 <= i < |s| ==> s[i] < |g|
  }

  ghost function SetOf(s: seq<nat>): set<nat>
  {
    set x | x in s
  }

  /** The ids of an arena of `n` states. */
  ghost function Range(n: nat): (r: set<nat>)
    ensures forall x :: x in r <==> 0 <= x < n
    ensures |r| == n
  {
    if n == 0 then {} else
      var r := Range(n - 1);
      assert n - 1 !in r;
      r + {n - 1}
  }

  lemma {:induction false} SubsetSize(A: set<nat>, B: set<nat>)
    requires A <= B
    ensures |A| <= |B|
    ensures A < B ==> |A| < |B|
    decreases |B|
  {
    if B != {} {
      var x :| x in B;
      SubsetSize(A - {x}, B - {x});
      if x in A {
        if A < B {
          assert A + (B - A) == B;
          var y :| y in B - A;
          assert y in (B - {x}) - (A - {x});
        }
      } else {
        assert A - {x} == A;
      }
    }
  }

  lemma {:induction false} DistinctSize(s: seq<nat>)
    requires NoDups(s)
    ensures |SetOf(s)| == |s|
  {
    if s != [] {
      var init := s[..|s| - 1];
      DistinctSize(init);
      assert SetOf(s) == SetOf(init) + {s[|s| - 1]};
      assert s[|s| - 1] !in SetOf(init);
    }
  }

  /** A duplicate-free list of arena ids has at most one entry per state, and strictly
      fewer when some state of the arena is missing from it. */
  lemma MembersBound(g: seq<State>, s: seq<nat>, missing: Option<nat>)
    requires Members(g, s)
    requires missing.Some? ==> missing.value < |g| && missing.value !in s
    ensures |s| <= |g|
    ensures missing.Some? ==> |s| < |g|
  {
    DistinctSize(s);
    assert SetOf(s) <= Range(|g|);
    if missing.Some? {
      assert missing.value in Range(|g|) - SetOf(s);
      assert SetOf(s) < Range(|g|);
    }
    SubsetSize(SetOf(s), Range(|g|));
  }

  // ---------------------------------------------------------------------------
  // Epsilon reachability and closure.
  // ---------------------------------------------------------------------------

  /** `s` has an epsilon transition to `t`. */
  ghost predicate EpsEdge(g: seq<State>, s: nat, t: nat)
  {
    s < |g| && exists k :: 0 <= k < |g[s].transitions| && g[s].transitions[k] == Transition(EPSILON, t)
  }

  /** `p` is a non-empty walk through the arena along epsilon transitions. */
  ghost predicate IsEpsPath(g: seq<State>, p: seq<nat>)
  {
    && |p| >= 1
    && (forall i :: 0 <= i < |p| ==> p[i] < |g|)
    && forall i :: 0 <= i < |p| - 1 ==> EpsEdge(g, p[i], p[i + 1])
  }

  /** `t` can be reached from `s` by zero or more epsilon transitions. */
  ghost predicate EpsReach(g: seq<State>, s: nat, t: nat)
  {
    exists p :: IsEpsPath(g, p) && p[0] == s && p[|p| - 1] == t
  }

  /** Every epsilon successor of a member of `S` is a member of `S`. */
  ghost predicate EpsClosed(g: seq<State>, S: set<nat>)
  {
    forall s, k :: s in S && s < |g| && 0 <= k < |g[s].transitions| && g[s].transitions[k].trigger == EPSILON
      ==> g[s].transitions[k].target in S
  }

  /** The epsilon closure of `X`: every state reachable from a member of `X` by epsilon transitions. */
  ghost function Closure(g: seq<State>, X: set<nat>): (r: set<nat>)
    ensures forall t :: t in r ==> t < |g|
  {
    set t | t in Range(|g|) && exists s :: s in X && EpsReach(g, s, t)
  }

  /** The states reached from `S` by exactly one transition whose trigger is `c`. */
  ghost function Move(g: seq<State>, S: set<nat>, c: char): set<nat>
  {
    set s, k | s in S && s < |g| && 0 <= k < |g[s].transitions| && g[s].transitions[k].trigger == c
      :: g[s].transitions[k].target
  }

  /** One input character: move on `c`, then close under epsilon transitions. */
  ghost function Step(g: seq<State>, S: set<nat>, c: char): set<nat>
  {
    Closure(g, Move(g, S, c))
  }

  /** The active set after reading all of `w`, starting from the active set `S`. */
  ghost function Run(g: seq<State>, S: set<nat>, w: seq<char>): set<nat>
    decreases |w|
  {
    if w == [] then S else Run(g, Step(g, S, w[0]), w[1..])
  }

  ghost predicate AnyAccepting(g: seq<State>, S: set<nat>)
  {
    exists s :: s in S && s < |g| && g[s].accepting
  }

  /** The language of the NFA whose start state is `start`: the final active set holds an
      accepting state. */
  ghost predicate NfaAccepts(g: seq<State>, start: nat, w: seq<char>)
  {
    AnyAccepting(g, Run(g, Closure(g, {start}), w))
  }

  // ---------------------------------------------------------------------------
  // Lemmas: the closure is the least epsilon-closed superset.
  // ---------------------------------------------------------------------------

  lemma ReachRefl(g: seq<State>, s: nat)
    requires s < |g|
    ensures EpsReach(g, s, s)
  {
    assert IsEpsPath(g, [s]);
  }

  lemma ReachPrepend(g: seq<State>, s: nat, t: nat, u: nat)
    requires EpsEdge(g, s, t) && EpsReach(g, t, u)
    ensures EpsReach(g, s, u)
  {
    var p :| IsEpsPath(g, p) && p[0] == t && p[|p| - 1] == u;
    var q := [s] + p;
    assert q[1..] == p;
    assert forall i :: 1 <= i < |q| - 1 ==> q[i] == p[i - 1] && q[i + 1] == p[i];
    assert IsEpsPath(g, q);
  }

  lemma ReachAppend(g: seq<State>, s: nat, t: nat, u: nat)
    requires EpsReach(g, s, t) && EpsEdge(g, t, u) && u < |g|
    ensures EpsReach(g, s, u)
  {
    var p :| IsEpsPath(g, p) && p[0] == s && p[|p| - 1] == t;
    var q := p + [u];
    assert forall i :: 0 <= i < |p| ==> q[i] == p[i];
    assert IsEpsPath(g, q);
  }

  /** Every state of the arena in `X` belongs to its closure. */
  lemma ClosureContains(g: seq<State>, X: set<nat>)
    ensures forall s :: s in X && s < |g| ==> s in Closure(g, X)
  {
    forall s | s in X && s < |g|
      ensures s in Closure(g, X)
    {
      ReachRefl(g, s);
    }
  }

  /** The closure of `X` holds the target of every epsilon transition out of a member of `X`. */
  lemma EdgeInClosure(g: seq<State>, X: set<nat>, s: nat, k: nat)
    requires s in X && s < |g| && k < |g[s].transitions|
    requires g[s].transitions[k].trigger == EPSILON && g[s].transitions[k].target < |g|
    ensures g[s].transitions[k].target in Closure(g, X)
  {
    var t := g[s].transitions[k].target;
    assert EpsEdge(g, s, t) by {
      assert g[s].transitions[k] == Transition(EPSILON, t);
    }
    ReachRefl(g, t);
    ReachPrepend(g, s, t, t);
    assert t in Range(|g|);
  }

  /** The closure is epsilon-closed. */
  lemma ClosureIsClosed(g: seq<State>, X: set<nat>)
    requires WellFormed(g)
    ensures EpsClosed(g, Closure(g, X))
  {
    var C := Closure(g, X);
    forall s, k | s in C && s < |g| && 0 <= k < |g[s].transitions| && g[s].transitions[k].trigger == EPSILON
      ensures g[s].transitions[k].target in C
    {
      var t := g[s].transitions[k].target;
      var x :| x in X && EpsReach(g, x, s);
      assert g[s].transitions[k] == Transition(EPSILON, t);
      ReachAppend(g, x, s, t);
    }
  }

  lemma {:induction false} ClosedPath(g: seq<State>, S: set<nat>, p: seq<nat>)
    requires EpsClosed(g, S) && IsEpsPath(g, p) && p[0] in S
    ensures p[|p| - 1] in S
    decreases |p|
  {
    if |p| > 1 {
      var k :| 0 <= k < |g[p[0]].transitions| && g[p[0]].transitions[k] == Transition(EPSILON, p[1]);
      assert p[1] in S;
      var q := p[1..];
      forall i | 0 <= i < |q| - 1
        ensures EpsEdge(g, q[i], q[i + 1])
      {
        assert q[i] == p[i + 1] && q[i + 1] == p[i + 2];
      }
      assert IsEpsPath(g, q);
      ClosedPath(g, S, q);
    }
  }

  /** An epsilon-closed set that includes `X` includes the whole closure of `X`. */
  lemma ClosedContainsClosure(g: seq<State>, S: set<nat>, X: set<nat>)
    requires EpsClosed(g, S) && X <= S
    ensures Closure(g, X) <= S
  {
    forall t | t in Closure(g, X)
      ensures t in S
    {
      var x :| x in X && EpsReach(g, x, t);
      var p :| IsEpsPath(g, p) && p[0] == x && p[|p| - 1] == t;
      ClosedPath(g, S, p);
    }
  }

  /** Closure distributes over union. */
  lemma ClosureUnion(g: seq<State>, A: set<nat>, B: set<nat>)
    ensures Closure(g, A + B) == Closure(g, A) + Closure(g, B)
  {
    forall t | t in Closure(g, A + B)
      ensures t in Closure(g, A) + Closure(g, B)
    {
      var x :| x in A + B && EpsReach(g, x, t);
      if x in A {
        assert t in Closure(g, A);
      } else {
        assert t in Closure(g, B);
      }
    }
  }

  /** Closing twice changes nothing. */
  lemma ClosureIdempotent(g: seq<State>, X: set<nat>)
    requires WellFormed(g)
    ensures Closure(g, Closure(g, X)) == Closure(g, X)
  {
    ClosureIsClosed(g, X);
    ClosedContainsClosure(g, Closure(g, X), Closure(g, X));
    ClosureContains(g, Closure(g, X));
  }

  // ---------------------------------------------------------------------------
  // Lemmas about runs.
  // ---------------------------------------------------------------------------

  /** Nothing is reached from the empty active set, whatever input remains. */
  lemma {:induction false} RunFromEmpty(g: seq<State>, w: seq<char>)
    ensures Run(g, {}, w) == {}
    decreases |w|
  {
    if w != [] {
      assert Move(g, {}, w[0]) == {};
      assert Closure(g, {}) == {};
      RunFromEmpty(g, w[1..]);
    }
  }

  /** Reading `u` and then `v` is reading `u + v`. */
  lemma {:induction false} RunAppend(g: seq<State>, S: set<nat>, u: seq<char>, v: seq<char>)
    ensures Run(g, S, u + v) == Run(g, Run(g, S, u), v)
    decreases |u|
  {
    if u != [] {
      assert (u + v)[0] == u[0];
      assert (u + v)[1..] == u[1..] + v;
      RunAppend(g, Step(g, S, u[0]), u[1..], v);
    } else {
      assert u + v == v;
    }
  }

  /** Reading one more character of `w` is one more `Step`. */
  lemma RunSnoc(g: seq<State>, S: set<nat>, w: seq<char>, i: nat)
    requires i < |w|
    ensures Run(g, S, w[..i + 1]) == Step(g, Run(g, S, w[..i]), w[i])
  {
    assert w[..i + 1] == w[..i] + [w[i]];
    RunAppend(g, S, w[..i], [w[i]]);
    assert Run(g, Run(g, S, w[..i]), [w[i]]) == Run(g, Step(g, Run(g, S, w[..i]), w[i]), []);
  }

  /** Once a prefix of `w` leaves no active state, the whole of `w` leaves none. */
  lemma RunDead(g: seq<State>, S: set<nat>, w: seq<char>, i: nat)
    requires i <= |w| && Run(g, S, w[..i]) == {}
    ensures Run(g, S, w) == {}
  {
    assert w == w[..i] + w[i..];
    RunAppend(g, S, w[..i], w[i..]);
    RunFromEmpty(g, w[i..]);
  }

  /** A run from an epsilon-closed set stays epsilon-closed. */
  lemma {:induction false} RunClosed(g: seq<State>, S: set<nat>, w: seq<char>)
    requires WellFormed(g) && EpsClosed(g, S)
    ensures EpsClosed(g, Run(g, S, w))
    decreases |w|
  {
    if w != [] {
      ClosureIsClosed(g, Move(g, S, w[0]));
      RunClosed(g, Step(g, S, w[0]), w[1..]);
    }
  }

  // ---------------------------------------------------------------------------
  // Monotonicity: adding states and appending transitions only grows what is reached.
  // ---------------------------------------------------------------------------

  /** `h` has every state of `g`, and the transitions of each of them in `g` are a prefix
      of its transitions in `h`. */
  ghost predicate Extends(g: seq<State>, h: seq<State>)
  {
    |g| <= |h| && forall s :: 0 <= s < |g| ==> g[s].transitions <= h[s].transitions
  }

  lemma ExtendsTrans(a: seq<State>, b: seq<State>, c: seq<State>)
    requires Extends(a, b) && Extends(b, c)
    ensures Extends(a, c)
  {
    forall s | 0 <= s < |a|
      ensures a[s].transitions <= c[s].transitions
    {
      assert a[s].transitions <= b[s].transitions <= c[s].transitions;
    }
  }

  lemma EdgeMono(g: seq<State>, h: seq<State>, s: nat, t: nat)
    requires Extends(g, h) && EpsEdge(g, s, t)
    ensures EpsEdge(h, s, t)
  {
    var k :| 0 <= k < |g[s].transitions| && g[s].transitions[k] == Transition(EPSILON, t);
    assert h[s].transitions[k] == g[s].transitions[k];
  }

  lemma ReachMono(g: seq<State>, h: seq<State>, s: nat, t: nat)
    requires Extends(g, h) && EpsReach(g, s, t)
    ensures EpsReach(h, s, t)
  {
    var p :| IsEpsPath(g, p) && p[0] == s && p[|p| - 1] == t;
    forall i | 0 <= i < |p| - 1
      ensures EpsEdge(h, p[i], p[i + 1])
    {
      EdgeMono(g, h, p[i], p[i + 1]);
    }
    assert IsEpsPath(h, p);
  }

  lemma ClosureMono(g: seq<State>, h: seq<State>, X: set<nat>, Y: set<nat>)
    requires Extends(g, h) && X <= Y
    ensures Closure(g, X) <= Closure(h, Y)
  {
    forall t | t in Closure(g, X)
      ensures t in Closure(h, Y)
    {
      var x :| x in X && EpsReach(g, x, t);
      ReachMono(g, h, x, t);
      assert t in Range(|h|);
    }
  }

  lemma MoveMono(g: seq<State>, h: seq<State>, S: set<nat>, T: set<nat>, c: char)
    requires Extends(g, h) && S <= T
    ensures Move(g, S, c) <= Move(h, T, c)
  {
    forall t | t in Move(g, S, c)
      ensures t in Move(h, T, c)
    {
      var s, k :| s in S && s < |g| && 0 <= k < |g[s].transitions|
                  && g[s].transitions[k].trigger == c && g[s].transitions[k].target == t;
      assert h[s].transitions[k] == g[s].transitions[k];
    }
  }

  /** Runs are monotone in the arena and in the starting set. */
  lemma {:induction false} RunMono(g: seq<State>, h: seq<State>, S: set<nat>, T: set<nat>, w: seq<char>)
    requires Extends(g, h) && S <= T
    ensures Run(g, S, w) <= Run(h, T, w)
    decreases |w|
  {
    if w != [] {
      MoveMono(g, h, S, T, w[0]);
      ClosureMono(g, h, Move(g, S, w[0]), Move(h, T, w[0]));
      RunMono(g, h, Step(g, S, w[0]), Step(h, T, w[0]), w[1..]);
    }
  }

  /** The empty string is accepted exactly when the start closure holds an accepting state. */
  lemma AcceptsEmpty(g: seq<State>, start: nat)
    ensures NfaAccepts(g, start, []) <==> AnyAccepting(g, Closure(g, {start}))
  {
  }
}
