/// Subset construction (src/dfa.c): the DFA whose states are the epsilon-closed
/// sets of NFA states reachable from the start closure, discovered through a
/// FIFO worklist, with a cap of 256 DFA states; and the table-driven simulation
/// of the result.
///
/// A `State*` of the NFA is modelled by the state's id, which is also its
/// index in the arena. A `DfaState*` is modelled by the DFA state's id, which
/// is its index in `all_states`; a NULL transition is `None`.
module Dfa {
  import opened NfaGraph
  import opened Simulator

  /** Cap on the number of DFA states. */
  const MAX_DFA_STATES: nat := 256

  /** Capacity of the NFA-state buffers; the closure sets fit when the NFA has at most this
      many states. */
  const MAX_NFA_STATES_PER_DFA_STATE: nat := 1024

  /** Entries of a DFA state's transition table, one per value of a `char`. */
  const TABLE_SIZE: nat := 256

  /** The transitions explored are those on printable ASCII, 32 up to but excluding 127. */
  const FIRST_PRINTABLE: nat := 32
  const PAST_PRINTABLE: nat := 127

  // ---------------------------------------------------------------------------
  // Ordering and comparing sets of NFA states.
  // ---------------------------------------------------------------------------

  /** `state_ptr_compare`: the difference of the two ids, so its sign orders the states. */
  function StatePtrCompare(a: nat, b: nat): (r: int)
    ensures r < 0 <==> a < b
    ensures r == 0 <==> a == b
    ensures r > 0 <==> a > b
  {
    a - b
  }

  ghost predicate Sorted(s: seq<nat>)
  {
    forall i, j :: 0 <= i < j < |s| ==> s[i] <= s[j]
  }

  ghost predicate StrictlySorted(s: seq<nat>)
  {
    forall i, j :: 0 <= i < j < |s| ==> s[i] < s[j]
  }

  /** Places `x` before the first entry that does not compare below it. */
  function InsertById(x: nat, s: seq<nat>): (r: seq<nat>)
    ensures |r| == |s| + 1
    ensures forall y :: y in r <==> y == x || y in s
  {
    if s == [] || StatePtrCompare(x, s[0]) <= 0 then
      [x] + s
    else
      assert s == [s[0]] + s[1..];
      [s[0]] + InsertById(x, s[1..])
  }

  /** The head of a sorted list is at most each of its entries, and below each entry of the
      tail when the list is strictly sorted. */
  lemma SortedHead(s: seq<nat>)
    requires s != [] && Sorted(s)
    ensures forall y :: y in s ==> s[0] <= y
    ensures StrictlySorted(s) ==> forall y :: y in s[1..] ==> s[0] < y
  {
    forall y | y in s[1..] && StrictlySorted(s)
      ensures s[0] < y
    {
      var i :| 0 <= i < |s[1..]| && s[1..][i] == y;
      assert s[i + 1] == y;
    }
  }

  /** A sorted list stays sorted with an entry in front that is at most each of its entries. */
  lemma SortedCons(a: nat, t: seq<nat>)
    requires Sorted(t) && forall y :: y in t ==> a <= y
    ensures Sorted([a] + t)
  {
    var r := [a] + t;
    forall i, j | 0 <= i < j < |r|
      ensures r[i] <= r[j]
    {
      assert r[j] == t[j - 1];
      if i > 0 {
        assert r[i] == t[i - 1];
      } else {
        assert t[j - 1] in t;
      }
    }
  }

  lemma StrictlySortedCons(a: nat, t: seq<nat>)
    requires StrictlySorted(t) && forall y :: y in t ==> a < y
    ensures StrictlySorted([a] + t)
  {
    var r := [a] + t;
    forall i, j | 0 <= i < j < |r|
      ensures r[i] < r[j]
    {
      assert r[j] == t[j - 1];
      if i > 0 {
        assert r[i] == t[i - 1];
      } else {
        assert t[j - 1] in t;
      }
    }
  }

  /** Inserting into a sorted list keeps it sorted, and strictly so when `x` is new. */
  lemma {:induction false} InsertSorted(x: nat, s: seq<nat>)
    requires Sorted(s)
    ensures Sorted(InsertById(x, s))
    ensures StrictlySorted(s) && x !in s ==> StrictlySorted(InsertById(x, s))
    decreases |s|
  {
    if s == [] {
      assert InsertById(x, s) == [x];
    } else {
      SortedHead(s);
      var t := s[1..];
      assert s == [s[0]] + t;
      assert Sorted(t);
      if x <= s[0] {
        assert InsertById(x, s) == [x] + s;
        SortedCons(x, s);
        if StrictlySorted(s) && x !in s {
          StrictlySortedCons(x, s);
        }
      } else {
        var rest := InsertById(x, t);
        assert InsertById(x, s) == [s[0]] + rest;
        InsertSorted(x, t);
        SortedCons(s[0], rest);
        if StrictlySorted(s) && x !in s {
          assert StrictlySorted(t);
          StrictlySortedCons(s[0], rest);
        }
      }
    }
  }

  /** The entries of `s` ordered by id: the result `qsort` with `state_ptr_compare` leaves. */
  function SortById(s: seq<nat>): (r: seq<nat>)
    ensures |r| == |s|
    ensures forall y :: y in r <==> y in s
  {
    if s == [] then [] else
      assert s == [s[0]] + s[1..];
      InsertById(s[0], SortById(s[1..]))
  }

  /** Sorting orders the entries by id, and strictly so when they are distinct. */
  lemma {:induction false} SortSorted(s: seq<nat>)
    ensures SetOf(SortById(s)) == SetOf(s)
    ensures Sorted(SortById(s))
    ensures NoDups(s) ==> StrictlySorted(SortById(s))
    decreases |s|
  {
    if s != [] {
      var t := s[1..];
      assert s == [s[0]] + t;
      SortSorted(t);
      InsertSorted(s[0], SortById(t));
      if NoDups(s) {
        assert NoDups(t);
        assert s[0] !in t;
      }
    }
  }

  /** Inserting adds exactly one occurrence of `x`. */
  lemma {:induction false} InsertPermutation(x: nat, s: seq<nat>)
    ensures multiset(InsertById(x, s)) == multiset(s) + multiset{x}
    decreases |s|
  {
    if s != [] && x > s[0] {
      assert s == [s[0]] + s[1..];
      InsertPermutation(x, s[1..]);
    }
  }

  /** Sorting is a permutation: every entry keeps its number of occurrences. */
  lemma {:induction false} SortPermutation(s: seq<nat>)
    ensures multiset(SortById(s)) == multiset(s)
    decreases |s|
  {
    if s != [] {
      assert s == [s[0]] + s[1..];
      SortPermutation(s[1..]);
      InsertPermutation(s[0], SortById(s[1..]));
    }
  }

  /** A strictly sorted sequence is determined by its set of entries. */
  lemma {:induction false} SortedUnique(a: seq<nat>, b: seq<nat>)
    requires StrictlySorted(a) && StrictlySorted(b) && SetOf(a) == SetOf(b)
    ensures a == b
    decreases |a|
  {
    DistinctSize(a);
    DistinctSize(b);
    if a != [] {
      assert a[0] in SetOf(b) && b[0] in SetOf(a);
      assert a[0] == b[0] by {
        var i :| 0 <= i < |b| && b[i] == a[0];
        var j :| 0 <= j < |a| && a[j] == b[0];
      }
      assert SetOf(a[1..]) == SetOf(a) - {a[0]} by {
        assert a == [a[0]] + a[1..];
      }
      assert SetOf(b[1..]) == SetOf(b) - {b[0]} by {
        assert b == [b[0]] + b[1..];
      }
      SortedUnique(a[1..], b[1..]);
      assert a == [a[0]] + a[1..] && b == [b[0]] + b[1..];
    }
  }

  /** Two sorted duplicate-free lists are equal entry by entry exactly when they hold the same
      states, so `are_sets_equal` on sorted sets decides equality of the sets. */
  lemma SortedEqualIffSameSet(a: seq<nat>, b: seq<nat>)
    requires StrictlySorted(a) && StrictlySorted(b)
    ensures a == b <==> SetOf(a) == SetOf(b)
  {
    if SetOf(a) == SetOf(b) {
      SortedUnique(a, b);
    }
  }

  /** Sorting a list of distinct states gives the one strictly sorted list of that set. */
  lemma SortCanonical(s: seq<nat>, t: seq<nat>)
    requires NoDups(s) && NoDups(t)
    ensures SortById(s) == SortById(t) <==> SetOf(s) == SetOf(t)
  {
    SortSorted(s);
    SortSorted(t);
    SortedEqualIffSameSet(SortById(s), SortById(t));
  }

  /** A strictly sorted list is already in the order sorting gives. */
  lemma SortedFixed(s: seq<nat>)
    requires StrictlySorted(s)
    ensures SortById(s) == s
  {
    SortSorted(s);
    SortedUnique(SortById(s), s);
  }

  /** `sort_nfa_state_set`: orders the first `count` entries of `stateSet` by id, in place. */
  method SortNfaStateSet(stateSet: array<nat>, count: nat)
    requires count <= stateSet.Length
    modifies stateSet
    ensures stateSet[..count] == SortById(old(stateSet[..count]))
    ensures forall i :: count <= i < stateSet.Length ==> stateSet[i] == old(stateSet[i])
  {
    var sorted := SortById(stateSet[..count]);
    for i := 0 to count
      invariant forall k :: 0 <= k < i ==> stateSet[k] == sorted[k]
      invariant forall k :: i <= k < stateSet.Length ==> stateSet[k] == old(stateSet[k])
    {
      stateSet[i] := sorted[i];
    }
  }

  /** `are_sets_equal`: the counts agree and the ids agree position by position. */
  method AreSetsEqual(set1: seq<nat>, set2: seq<nat>) returns (equal: bool)
    ensures equal <==> set1 == set2
  {
    if |set1| != |set2| {
      return false;
    }
    for i := 0 to |set1|
      invariant set1[..i] == set2[..i]
    {
      if set1[i] != set2[i] {
        return false;
      }
      assert set1[..i + 1] == set1[..i] + [set1[i]];
      assert set2[..i + 1] == set2[..i] + [set2[i]];
    }
    assert set1 == set1[..|set1|] && set2 == set2[..|set2|];
    return true;
  }

  // ---------------------------------------------------------------------------
  // The DFA and what a correct one looks like.
  // ---------------------------------------------------------------------------

  /** One DFA state: its id, whether it accepts, the NFA states it stands for (sorted by id),
      and its transition table indexed by character, `None` meaning the dead state. */
  datatype DfaState = DfaState(id: nat, accepting: bool, nfaStates: seq<nat>, transitions: seq<Option<nat>>)

  /** The whole DFA: its start state and every state, in creation order. */
  datatype Dfa = Dfa(start: nat, states: seq<DfaState>)

  /** The table of a new DFA state: every transition leads to the dead state. */
  const DEAD_TABLE: seq<Option<nat>> := seq(TABLE_SIZE, _ => None)

  /** The set of NFA states that DFA state `j` stands for. */
  ghost function NfaSet(states: seq<DfaState>, j: nat): set<nat>
    requires j < |states|
  {
    SetOf(states[j].nfaStates)
  }

  /** DFA state `j` sits at its id, has a full table of transitions to states of the DFA,
      holds a sorted list of distinct NFA states, and accepts exactly when one of them does. */
  ghost predicate StateOk(g: seq<State>, states: seq<DfaState>, j: nat)
    requires j < |states|
  {
    var d := states[j];
    && d.id == j
    && |d.transitions| == TABLE_SIZE
    && d.nfaStates != [] && StrictlySorted(d.nfaStates)
    && (forall i :: 0 <= i < |d.nfaStates| ==> d.nfaStates[i] < |g|)
    && d.accepting == AnyAccepting(g, SetOf(d.nfaStates))
    && forall c :: 0 <= c < TABLE_SIZE && d.transitions[c].Some? ==> d.transitions[c].value < |states|
  }

  /** Entry `c` of state `j` once every character below `upto` has been explored: on an
      explored printable character it leads to the state of the NFA's next active set, or is
      dead because that set is empty, or because the cap was reached and no state holds that
      set; every other entry is dead. */
  ghost predicate EntryOk(g: seq<State>, states: seq<DfaState>, j: nat, c: nat, upto: nat)
  {
    j < |states| && c < |states[j].transitions| &&
    var t := states[j].transitions[c];
    if FIRST_PRINTABLE <= c < PAST_PRINTABLE && c < upto then
      && (t.Some? ==> t.value < |states| && NfaSet(states, t.value) == Step(g, NfaSet(states, j), c as char))
      && (t.None? ==>
            || Step(g, NfaSet(states, j), c as char) == {}
            || (&& |states| >= MAX_DFA_STATES
                && forall i :: 0 <= i < |states| ==> NfaSet(states, i) != Step(g, NfaSet(states, j), c as char)))
    else
      t.None?
  }

  /** Every entry of state `j` is as `EntryOk` says for characters explored below `upto`. */
  ghost predicate Explored(g: seq<State>, states: seq<DfaState>, j: nat, upto: nat)
  {
    forall c :: 0 <= c < TABLE_SIZE ==> EntryOk(g, states, j, c, upto)
  }

  /** No two DFA states stand for the same set of NFA states. */
  ghost predicate Canonical(states: seq<DfaState>)
  {
    forall i, j :: 0 <= i < j < |states| ==> states[i].nfaStates != states[j].nfaStates
  }

  /** The worklist algorithm part way: the states before `cur` are fully explored, `cur` is
      explored below `upto`, and the later ones not at all. */
  ghost predicate Progress(g: seq<State>, states: seq<DfaState>, cur: nat, upto: nat)
  {
    && |states| <= MAX_DFA_STATES
    && (forall j :: 0 <= j < |states| ==> StateOk(g, states, j))
    && Canonical(states)
    && (forall j :: 0 <= j < |states| && j < cur ==> Explored(g, states, j, PAST_PRINTABLE))
    && (cur < |states| ==> Explored(g, states, cur, upto))
    && (forall j :: cur < j < |states| ==> Explored(g, states, j, FIRST_PRINTABLE))
  }

  /** The states after entry `c` of state `cur` is set to `t`. */
  function WithTransition(states: seq<DfaState>, cur: nat, c: nat, t: Option<nat>): (r: seq<DfaState>)
    requires cur < |states| && c < |states[cur].transitions|
    ensures |r| == |states|
  {
    states[cur := states[cur].(transitions := states[cur].transitions[c := t])]
  }

  /** An entry keeps its meaning while the states it may lead to keep their sets and the
      DFA does not shrink or pass the cap. */
  lemma ExploredKept(g: seq<State>, states: seq<DfaState>, r: seq<DfaState>, j: nat, upto: nat)
    requires j < |states| <= |r| <= MAX_DFA_STATES && StateOk(g, states, j) && Explored(g, states, j, upto)
    requires r[j] == states[j]
    requires forall i :: 0 <= i < |states| ==> r[i].nfaStates == states[i].nfaStates
    ensures Explored(g, r, j, upto)
  {
    assert NfaSet(r, j) == NfaSet(states, j);
    if |states| >= MAX_DFA_STATES {
      assert forall i :: 0 <= i < |r| ==> NfaSet(r, i) == NfaSet(states, i);
    }
    forall k | 0 <= k < TABLE_SIZE
      ensures EntryOk(g, r, j, k, upto)
    {
      assert EntryOk(g, states, j, k, upto);
    }
  }

  /** The other states keep their progress when the DFA grows or one entry of `cur` changes. */
  lemma OthersKept(g: seq<State>, states: seq<DfaState>, r: seq<DfaState>, cur: nat, upto: nat)
    requires cur < |states| <= |r| <= MAX_DFA_STATES && Progress(g, states, cur, upto)
    requires forall i :: 0 <= i < |states| ==> r[i].nfaStates == states[i].nfaStates
    requires forall i :: 0 <= i < |states| && i != cur ==> r[i] == states[i]
    ensures forall j :: 0 <= j < cur ==> Explored(g, r, j, PAST_PRINTABLE)
    ensures forall j :: cur < j < |states| ==> Explored(g, r, j, FIRST_PRINTABLE)
  {
    forall j | 0 <= j < cur
      ensures Explored(g, r, j, PAST_PRINTABLE)
    {
      ExploredKept(g, states, r, j, PAST_PRINTABLE);
    }
    forall j | cur < j < |states|
      ensures Explored(g, r, j, FIRST_PRINTABLE)
    {
      ExploredKept(g, states, r, j, FIRST_PRINTABLE);
    }
  }

  /** A character whose next active set is empty needs no entry: it is explored already. */
  lemma ExploreDead(g: seq<State>, states: seq<DfaState>, cur: nat, c: nat)
    requires cur < |states| && Progress(g, states, cur, c)
    requires FIRST_PRINTABLE <= c < PAST_PRINTABLE
    requires Step(g, NfaSet(states, cur), c as char) == {}
    ensures Progress(g, states, cur, c + 1)
  {
    var upto := c + 1;
    forall k | 0 <= k < TABLE_SIZE
      ensures EntryOk(g, states, cur, k, upto)
    {
      assert EntryOk(g, states, cur, k, c);
    }
  }

  /** Setting entry `c` of `cur` to the state of the next active set, or to dead when the cap
      was reached and no state holds that set, explores `c`. */
  lemma ExploreSet(g: seq<State>, states: seq<DfaState>, cur: nat, c: nat, t: Option<nat>)
    requires cur < |states| && Progress(g, states, cur, c) && |states[cur].transitions| == TABLE_SIZE
    requires FIRST_PRINTABLE <= c < PAST_PRINTABLE
    requires t.Some? ==> t.value < |states| && NfaSet(states, t.value) == Step(g, NfaSet(states, cur), c as char)
    requires t.None? ==> |states| >= MAX_DFA_STATES
    requires t.None? ==> forall i :: 0 <= i < |states| ==> NfaSet(states, i) != Step(g, NfaSet(states, cur), c as char)
    ensures Progress(g, WithTransition(states, cur, c, t), cur, c + 1)
  {
    var r := WithTransition(states, cur, c, t);
    assert forall j :: 0 <= j < |states| ==> r[j].nfaStates == states[j].nfaStates;
    forall j | 0 <= j < |r|
      ensures StateOk(g, r, j)
    {
      assert StateOk(g, states, j);
    }
    OthersKept(g, states, r, cur, c);
    assert forall i :: 0 <= i < |r| ==> NfaSet(r, i) == NfaSet(states, i);
    var upto := c + 1;
    forall k | 0 <= k < TABLE_SIZE
      ensures EntryOk(g, r, cur, k, upto)
    {
      assert EntryOk(g, states, cur, k, c);
    }
  }

  /** Appending a new, unexplored state with a set no other state has keeps the progress of
      the worklist. */
  lemma AppendState(g: seq<State>, states: seq<DfaState>, cur: nat, upto: nat, d: DfaState)
    requires cur < |states| && Progress(g, states, cur, upto) && |states| < MAX_DFA_STATES
    requires FreshState(g, states, d)
    ensures Progress(g, states + [d], cur, upto)
  {
    var r := states + [d];
    forall j | 0 <= j < |r|
      ensures StateOk(g, r, j)
    {
      if j < |states| {
        assert StateOk(g, states, j);
      }
    }
    OthersKept(g, states, r, cur, upto);
    ExploredKept(g, states, r, cur, upto);
    forall k | 0 <= k < TABLE_SIZE
      ensures EntryOk(g, r, |states|, k, FIRST_PRINTABLE)
    {
    }
  }

  /** Once every printable character of `cur` is explored, the worklist moves on. */
  lemma Advance(g: seq<State>, states: seq<DfaState>, cur: nat)
    requires Progress(g, states, cur, PAST_PRINTABLE)
    ensures Progress(g, states, cur + 1, FIRST_PRINTABLE)
  {
  }

  /** `d` may be appended to `states` by `create_dfa_state`: it takes the next id, has a dead
      table, holds a sorted list of distinct NFA states that no existing state holds, and
      accepts exactly when one of them does. */
  ghost predicate FreshState(g: seq<State>, states: seq<DfaState>, d: DfaState)
  {
    && d.id == |states| && |d.transitions| == TABLE_SIZE && (forall c :: 0 <= c < TABLE_SIZE ==> d.transitions[c].None?)
    && d.nfaStates != [] && StrictlySorted(d.nfaStates)
    && (forall i :: 0 <= i < |d.nfaStates| ==> d.nfaStates[i] < |g|)
    && d.accepting == AnyAccepting(g, SetOf(d.nfaStates))
    && forall i :: 0 <= i < |states| ==> states[i].nfaStates != d.nfaStates
  }

  /** The state `create_dfa_state` makes from the sorted copy of a list of distinct NFA
      states that no existing state holds is fresh, and sorting that copy again changes
      nothing. */
  lemma NewStateFresh(g: seq<State>, states: seq<DfaState>, unsorted: seq<nat>)
    requires unsorted != [] && Members(g, unsorted)
    requires forall i :: 0 <= i < |states| ==> states[i].nfaStates != SortById(unsorted)
    ensures var sorted := SortById(unsorted);
      && SortById(sorted) == sorted && SetOf(sorted) == SetOf(unsorted)
      && FreshState(g, states, DfaState(|states|, AnyAccepting(g, SetOf(sorted)), sorted, DEAD_TABLE))
  {
    var sorted := SortById(unsorted);
    SortSorted(unsorted);
    SortedFixed(sorted);
    assert forall i :: 0 <= i < |sorted| ==> sorted[i] in SetOf(unsorted);
  }

  /** A DFA holding only a fresh state is explored nowhere yet, which is how the worklist
      starts. */
  lemma FirstState(g: seq<State>, d: DfaState)
    requires FreshState(g, [], d)
    ensures Progress(g, [d], 0, FIRST_PRINTABLE)
  {
    assert StateOk(g, [d], 0);
    forall k | 0 <= k < TABLE_SIZE
      ensures EntryOk(g, [d], 0, k, FIRST_PRINTABLE)
    {
    }
  }

  /** `r` is `states`, possibly with one fresh state appended below the cap. */
  ghost predicate AppendedAtMostOne(g: seq<State>, states: seq<DfaState>, r: seq<DfaState>)
  {
    || r == states
    || (|states| < MAX_DFA_STATES && |r| == |states| + 1 && r[..|states|] == states && FreshState(g, states, r[|states|]))
  }

  /** The states of `prev` keep their NFA sets in `r`, which has no fewer states. */
  ghost predicate KeepsSets(prev: seq<DfaState>, r: seq<DfaState>)
  {
    |prev| <= |r| && forall j :: 0 <= j < |prev| ==> r[j].nfaStates == prev[j].nfaStates
  }

  lemma AppendedKeepsProgress(g: seq<State>, states: seq<DfaState>, r: seq<DfaState>, cur: nat, upto: nat)
    requires cur < |states| && Progress(g, states, cur, upto) && AppendedAtMostOne(g, states, r)
    ensures Progress(g, r, cur, upto) && KeepsSets(states, r)
  {
    if r != states {
      assert r == states + [r[|states|]];
      AppendState(g, states, cur, upto, r[|states|]);
    }
  }

  // ---------------------------------------------------------------------------
  // The builder: the statics `dfa_graph`, `worklist`, `worklist_head` and
  // `worklist_tail` of the C code.
  // ---------------------------------------------------------------------------

  class Builder {
    /** `dfa_graph->all_states[0 .. num_states)`. */
    var allStates: seq<DfaState>
    /** `worklist[0 .. worklist_tail)`, by DFA state id. */
    var worklist: seq<nat>
    var worklistHead: nat

    /** Every state is queued once, in creation order, and the head has not passed the tail. */
    ghost predicate Valid()
      reads this
    {
      && |worklist| == |allStates|
      && (forall k :: 0 <= k < |worklist| ==> worklist[k] == k)
      && worklistHead <= |worklist|
    }

    /** An empty DFA and an empty worklist. */
    constructor ()
      ensures Valid() && allStates == [] && worklist == [] && worklistHead == 0
    {
      allStates := [];
      worklist := [];
      worklistHead := 0;
    }

    /** `find_dfa_state_by_nfa_set`: sorts the first `count` entries of `stateSet` in place,
        then returns the first DFA state holding exactly that sorted list, or `None`. */
    method FindDfaStateByNfaSet(stateSet: array<nat>, count: nat) returns (found: Option<nat>)
      requires count <= stateSet.Length
      modifies stateSet
      ensures stateSet[..count] == SortById(old(stateSet[..count]))
      ensures forall i :: count <= i < stateSet.Length ==> stateSet[i] == old(stateSet[i])
      ensures found.Some? ==> found.value < |allStates| && allStates[found.value].nfaStates == stateSet[..count]
      ensures found.Some? ==> forall i :: 0 <= i < found.value ==> allStates[i].nfaStates != stateSet[..count]
      ensures found.None? ==> forall i :: 0 <= i < |allStates| ==> allStates[i].nfaStates != stateSet[..count]
    {
      SortNfaStateSet(stateSet, count);
      ghost var sorted := stateSet[..];
      for i := 0 to |allStates|
        invariant stateSet[..] == sorted
        invariant forall k :: 0 <= k < i ==> allStates[k].nfaStates != stateSet[..count]
      {
        var equal := AreSetsEqual(allStates[i].nfaStates, stateSet[..count]);
        if equal {
          return Some(i);
        }
      }
      return None;
    }

    /** `create_dfa_state`: at the cap, `None` and nothing changes; otherwise a new state
        numbered by the count, standing for the sorted copy of the list, accepting when one of
        its NFA states accepts, with every transition dead, appended to the DFA and queued. */
    method CreateDfaState(g: seq<State>, stateSet: array<nat>, count: nat) returns (created: Option<nat>)
      requires Valid() && count <= stateSet.Length
      requires forall i :: 0 <= i < count ==> stateSet[i] < |g|
      modifies this
      ensures Valid() && worklistHead == old(worklistHead)
      ensures |old(allStates)| >= MAX_DFA_STATES ==>
        created.None? && allStates == old(allStates) && worklist == old(worklist)
      ensures |old(allStates)| < MAX_DFA_STATES ==>
        && created == Some(|old(allStates)|)
        && allStates == old(allStates) + [DfaState(|old(allStates)|, AnyAccepting(g, SetOf(stateSet[..count])),
                                                   SortById(stateSet[..count]), DEAD_TABLE)]
        && worklist == old(worklist) + [|old(allStates)|]
    {
      if |allStates| >= MAX_DFA_STATES {
        return None;
      }
      var id := |allStates|;
      var nfaStates := SortById(stateSet[..count]);
      SortSorted(stateSet[..count]);
      assert forall i :: 0 <= i < count ==> nfaStates[i] in SetOf(stateSet[..count]);
      assert SetOf(nfaStates) == SetOf(stateSet[..count]);
      var accepting := HasAcceptingState(g, nfaStates);
      allStates := allStates + [DfaState(id, accepting, nfaStates, DEAD_TABLE)];
      worklist := worklist + [id];
      created := Some(id);
    }

    /** The lookup of `nfa_to_dfa`: sorts the list in place and returns the existing state for
        it, or else a new one; `None` only at the cap, for a set no existing state holds. */
    method FindOrCreate(g: seq<State>, nextSet: array<nat>, count: nat) returns (target: Option<nat>)
      requires Valid() && 0 < count <= nextSet.Length && Members(g, nextSet[..count])
      requires forall j :: 0 <= j < |allStates| ==> StateOk(g, allStates, j)
      modifies this, nextSet
      ensures Valid() && worklistHead == old(worklistHead)
      ensures AppendedAtMostOne(g, old(allStates), allStates)
      ensures target.Some? ==> target.value < |allStates| && NfaSet(allStates, target.value) == SetOf(old(nextSet[..count]))
      ensures target.None? ==> allStates == old(allStates) && |allStates| >= MAX_DFA_STATES
      ensures target.None? ==>
        forall j :: 0 <= j < |old(allStates)| ==> NfaSet(old(allStates), j) != SetOf(old(nextSet[..count]))
    {
      ghost var unsorted := nextSet[..count];
      target := FindDfaStateByNfaSet(nextSet, count);
      assert SetOf(nextSet[..count]) == SetOf(unsorted) by { SortSorted(unsorted); }
      if target.None? {
        forall j | 0 <= j < |allStates|
          ensures NfaSet(allStates, j) != SetOf(unsorted)
        {
          assert StateOk(g, allStates, j);
          SortSorted(unsorted);
          SortedEqualIffSameSet(allStates[j].nfaStates, SortById(unsorted));
        }
        NewStateFresh(g, allStates, unsorted);
        target := CreateDfaState(g, nextSet, count);
      }
    }

    /** One pass of the character loop of `nfa_to_dfa` for state `cur`: the next active set
        on `c`; nothing when it is empty; otherwise the existing state for it, or a new one,
        or dead at the cap, stored as the entry for `c`. */
    method ExploreChar(g: seq<State>, cur: nat, c: nat)
      requires Valid() && WellFormed(g) && |g| <= MAX_NFA_STATES_PER_DFA_STATE
      requires cur < |allStates| && FIRST_PRINTABLE <= c < PAST_PRINTABLE
      requires Progress(g, allStates, cur, c)
      modifies this
      ensures Valid() && worklistHead == old(worklistHead)
      ensures KeepsSets(old(allStates), allStates)
      ensures Progress(g, allStates, cur, c + 1)
    {
      var nextSet := new nat[MAX_NFA_STATES_PER_DFA_STATE];
      assert StateOk(g, allStates, cur);
      var nextCount := MoveAndClose(g, allStates[cur].nfaStates, c as char, nextSet);
      if nextCount == 0 {
        assert SetOf(nextSet[..0]) == {};
        ExploreDead(g, allStates, cur, c);
        return;
      }
      ghost var before := allStates;
      var target := FindOrCreate(g, nextSet, nextCount);
      AppendedKeepsProgress(g, before, allStates, cur, c);
      assert StateOk(g, allStates, cur);
      ExploreSet(g, allStates, cur, c, target);
      allStates := WithTransition(allStates, cur, c, target);
    }

    /** The character loop of `nfa_to_dfa` for state `cur`, over the printable characters. */
    method ExploreState(g: seq<State>, cur: nat)
      requires Valid() && WellFormed(g) && |g| <= MAX_NFA_STATES_PER_DFA_STATE
      requires cur < |allStates| && Progress(g, allStates, cur, FIRST_PRINTABLE)
      modifies this
      ensures Valid() && worklistHead == old(worklistHead)
      ensures KeepsSets(old(allStates), allStates)
      ensures Progress(g, allStates, cur + 1, FIRST_PRINTABLE)
    {
      for c := FIRST_PRINTABLE to PAST_PRINTABLE
        invariant Valid() && worklistHead == old(worklistHead)
        invariant KeepsSets(old(allStates), allStates) && cur < |allStates|
        invariant Progress(g, allStates, cur, c)
      {
        ExploreChar(g, cur, c);
      }
      Advance(g, allStates, cur);
    }

    /** The main loop of `nfa_to_dfa`: takes states off the worklist in order and explores
        each, until the worklist is empty. */
    method ProcessWorklist(g: seq<State>)
      requires Valid() && WellFormed(g) && |g| <= MAX_NFA_STATES_PER_DFA_STATE
      requires Progress(g, allStates, worklistHead, FIRST_PRINTABLE)
      modifies this
      ensures Valid() && worklistHead == |allStates|
      ensures KeepsSets(old(allStates), allStates)
      ensures Progress(g, allStates, |allStates|, FIRST_PRINTABLE)
    {
      while worklistHead < |worklist|
        invariant Valid() && KeepsSets(old(allStates), allStates)
        invariant Progress(g, allStates, worklistHead, FIRST_PRINTABLE)
        decreases MAX_DFA_STATES - worklistHead
      {
        var current := worklist[worklistHead];
        worklistHead := worklistHead + 1;
        ExploreState(g, current);
      }
    }
  }

  /** The loop of `create_dfa_state` that looks for an accepting NFA state, stopping at the
      first one. */
  method HasAcceptingState(g: seq<State>, nfaStates: seq<nat>) returns (accepting: bool)
    requires forall i :: 0 <= i < |nfaStates| ==> nfaStates[i] < |g|
    ensures accepting == AnyAccepting(g, SetOf(nfaStates))
  {
    accepting := false;
    for i := 0 to |nfaStates|
      invariant !accepting
      invariant forall k :: 0 <= k < i ==> !g[nfaStates[k]].accepting
    {
      if g[nfaStates[i]].accepting {
        accepting := true;
        assert nfaStates[i] in SetOf(nfaStates);
        break;
      }
    }
    if !accepting {
      forall x | x in SetOf(nfaStates) && x < |g|
        ensures !g[x].accepting
      {
        var k :| 0 <= k < |nfaStates| && nfaStates[k] == x;
      }
    }
  }

  // ---------------------------------------------------------------------------
  // nfa_to_dfa
  // ---------------------------------------------------------------------------

  /** The DFA is the complete result of the subset construction from `start`: its start
      state, state 0, stands for the epsilon closure of `start`; every state is consistent and
      has every printable character explored; and no two states stand for the same set. */
  ghost predicate Built(g: seq<State>, start: nat, d: Dfa)
  {
    && d.start == 0 && 0 < |d.states| <= MAX_DFA_STATES
    && (forall j :: 0 <= j < |d.states| ==> StateOk(g, d.states, j))
    && (forall j :: 0 <= j < |d.states| ==> Explored(g, d.states, j, PAST_PRINTABLE))
    && Canonical(d.states)
    && NfaSet(d.states, 0) == Closure(g, {start})
  }

  /** A worklist run to completion from the closure of `start` has built the DFA. */
  lemma Finished(g: seq<State>, states: seq<DfaState>, start: nat)
    requires 0 < |states| && Progress(g, states, |states|, FIRST_PRINTABLE)
    requires NfaSet(states, 0) == Closure(g, {start})
    ensures Built(g, start, Dfa(0, states))
  {
  }

  /** The first lines of `nfa_to_dfa`: the epsilon closure of the start state, collected into
      a fresh buffer. */
  method StartClosure(g: seq<State>, start: nat) returns (startSet: array<nat>, startCount: nat)
    requires WellFormed(g) && start < |g| && |g| <= MAX_NFA_STATES_PER_DFA_STATE
    ensures startCount <= startSet.Length && Members(g, startSet[..startCount])
    ensures SetOf(startSet[..startCount]) == Closure(g, {start}) && 0 < startCount
  {
    startSet := new nat[MAX_NFA_STATES_PER_DFA_STATE];
    assert SetOf(startSet[..0]) == {};
    startCount := AddStateToSet(g, Some(start), startSet, 0);
    ClosureContains(g, {start});
  }

  /** `nfa_to_dfa`: creates the state for the closure of the NFA's start, then takes states
      off the worklist in order and explores each printable character of each. */
  method NfaToDfa(g: seq<State>, nfa: Fragment) returns (dfa: Dfa)
    requires WellFormed(g) && nfa.start < |g| && |g| <= MAX_NFA_STATES_PER_DFA_STATE
    ensures Built(g, nfa.start, dfa)
  {
    var b := new Builder();
    var startSet, startCount := StartClosure(g, nfa.start);
    NewStateFresh(g, [], startSet[..startCount]);
    var start := b.CreateDfaState(g, startSet, startCount);
    FirstState(g, b.allStates[0]);
    assert b.allStates == [b.allStates[0]];
    b.ProcessWorklist(g);
    Finished(g, b.allStates, nfa.start);
    dfa := Dfa(start.value, b.allStates);
  }

  // ---------------------------------------------------------------------------
  // simulate_dfa, and what the built DFA accepts.
  // ---------------------------------------------------------------------------

  /** The start is a state of `d`, and every state has a full table whose entries lead to
      states of `d`. */
  ghost predicate DfaWellFormed(d: Dfa)
  {
    && d.start < |d.states|
    && (forall j :: 0 <= j < |d.states| ==> |d.states[j].transitions| == TABLE_SIZE)
    && (forall j, c :: 0 <= j < |d.states| && 0 <= c < TABLE_SIZE && d.states[j].transitions[c].Some?
          ==> d.states[j].transitions[c].value < |d.states|)
  }

  /** Every character is below 128, so `(int)c` indexes the table whatever the signedness of
      `char`. */
  ghost predicate SevenBit(w: seq<char>)
  {
    forall i :: 0 <= i < |w| ==> (w[i] as int) < 128
  }

  /** Every character is printable ASCII, the alphabet the construction explores. */
  ghost predicate Printable(w: seq<char>)
  {
    forall i :: 0 <= i < |w| ==> FIRST_PRINTABLE <= (w[i] as int) < PAST_PRINTABLE
  }

  /** The state reached by reading `w` from state `s` through the tables, or `None` once a
      dead entry is read. */
  ghost function DfaRun(d: Dfa, s: nat, w: seq<char>): (r: Option<nat>)
    requires DfaWellFormed(d) && s < |d.states| && SevenBit(w)
    ensures r.Some? ==> r.value < |d.states|
    decreases |w|
  {
    if w == [] then Some(s)
    else
      assert SevenBit(w[1..]) by { assert forall i :: 0 <= i < |w[1..]| ==> w[1..][i] == w[i + 1]; }
      match d.states[s].transitions[w[0] as int]
      case None => None
      case Some(t) => DfaRun(d, t, w[1..])
  }

  /** The language of the DFA: reading the word from the start ends in an accepting state. */
  ghost predicate DfaAccepts(d: Dfa, w: seq<char>)
    requires DfaWellFormed(d) && SevenBit(w)
  {
    var r := DfaRun(d, d.start, w);
    r.Some? && d.states[r.value].accepting
  }

  /** `simulate_dfa`: one table lookup per character, rejecting at the first dead entry, and
      otherwise the accepting flag of the state reached. */
  method SimulateDfa(dfa: Dfa, str: seq<char>) returns (matched: bool)
    requires DfaWellFormed(dfa) && SevenBit(str) && EPSILON !in str
    ensures matched == DfaAccepts(dfa, str)
  {
    var current: nat := dfa.start;
    for i := 0 to |str|
      invariant current < |dfa.states|
      invariant DfaRun(dfa, dfa.start, str) == DfaRun(dfa, current, str[i..])
    {
      assert str[i..][1..] == str[i + 1..];
      var next := dfa.states[current].transitions[str[i] as int];
      if next.None? {
        return false;
      }
      current := next.value;
    }
    assert str[|str|..] == [];
    matched := dfa.states[current].accepting;
  }

  /** Once a dead entry is read the word is rejected, whatever follows it. */
  lemma {:induction false} DfaRunDead(d: Dfa, s: nat, u: seq<char>, v: seq<char>)
    requires DfaWellFormed(d) && s < |d.states| && SevenBit(u + v)
    requires SevenBit(u) && DfaRun(d, s, u).None?
    ensures DfaRun(d, s, u + v).None?
    decreases |u|
  {
    assert u != [];
    assert (u + v)[0] == u[0] && (u + v)[1..] == u[1..] + v;
    var t := d.states[s].transitions[u[0] as int];
    if t.Some? {
      assert SevenBit(u[1..]) by { assert forall i :: 0 <= i < |u[1..]| ==> u[1..][i] == u[i + 1]; }
      assert SevenBit(u[1..] + v) by {
        assert forall i :: 0 <= i < |u[1..] + v| ==> (u[1..] + v)[i] == (u + v)[i + 1];
      }
      DfaRunDead(d, t.value, u[1..], v);
    }
  }

  /** A built DFA is well formed. */
  lemma BuiltWellFormed(g: seq<State>, start: nat, d: Dfa)
    requires Built(g, start, d)
    ensures DfaWellFormed(d)
  {
    forall j | 0 <= j < |d.states|
      ensures |d.states[j].transitions| == TABLE_SIZE
    {
      assert StateOk(g, d.states, j);
    }
    forall j, c | 0 <= j < |d.states| && 0 <= c < TABLE_SIZE && d.states[j].transitions[c].Some?
      ensures d.states[j].transitions[c].value < |d.states|
    {
      assert StateOk(g, d.states, j);
    }
  }

  /** Reading a word through a built DFA follows the NFA: the state reached stands for the
      NFA's active set after the word; and a dead entry on printable input means the NFA's
      active set is empty, unless the cap was reached. */
  lemma {:induction false} RunAgrees(g: seq<State>, start: nat, d: Dfa, s: nat, w: seq<char>)
    requires Built(g, start, d) && DfaWellFormed(d) && s < |d.states| && SevenBit(w)
    ensures DfaRun(d, s, w).Some? ==> NfaSet(d.states, DfaRun(d, s, w).value) == Run(g, NfaSet(d.states, s), w)
    ensures DfaRun(d, s, w).None? && Printable(w) && |d.states| < MAX_DFA_STATES ==>
      Run(g, NfaSet(d.states, s), w) == {}
    decreases |w|
  {
    if w != [] {
      var c := w[0] as int;
      var S := NfaSet(d.states, s);
      assert w[0] == c as char;
      assert SevenBit(w[1..]) by { assert forall i :: 0 <= i < |w[1..]| ==> w[1..][i] == w[i + 1]; }
      assert Explored(g, d.states, s, PAST_PRINTABLE);
      assert EntryOk(g, d.states, s, c, PAST_PRINTABLE);
      var t := d.states[s].transitions[c];
      if t.Some? {
        RunAgrees(g, start, d, t.value, w[1..]);
        if Printable(w) {
          assert Printable(w[1..]) by { assert forall i :: 0 <= i < |w[1..]| ==> w[1..][i] == w[i + 1]; }
        }
      } else if Printable(w) && |d.states| < MAX_DFA_STATES {
        assert FIRST_PRINTABLE <= c < PAST_PRINTABLE;
        RunFromEmpty(g, w[1..]);
      }
    }
  }

  /** The DFA accepts only words the NFA accepts, whatever the cap did. */
  lemma DfaSound(g: seq<State>, start: nat, d: Dfa, w: seq<char>)
    requires Built(g, start, d) && DfaWellFormed(d) && SevenBit(w)
    ensures DfaAccepts(d, w) ==> NfaAccepts(g, start, w)
  {
    RunAgrees(g, start, d, d.start, w);
    var r := DfaRun(d, d.start, w);
    if r.Some? {
      assert StateOk(g, d.states, r.value);
    }
  }

  /** Below the cap, the DFA accepts exactly the printable words the NFA accepts: the
      "equivalent DFA" of the construction. */
  lemma DfaEquivalent(g: seq<State>, start: nat, d: Dfa, w: seq<char>)
    requires Built(g, start, d) && DfaWellFormed(d) && SevenBit(w) && Printable(w)
    requires |d.states| < MAX_DFA_STATES
    ensures DfaAccepts(d, w) <==> NfaAccepts(g, start, w)
  {
    RunAgrees(g, start, d, d.start, w);
    var r := DfaRun(d, d.start, w);
    if r.Some? {
      assert StateOk(g, d.states, r.value);
    }
  }

  /** Below the cap, an entry of a built DFA is live exactly when the character is printable
      and the NFA's next active set is not empty. */
  lemma TransitionLive(g: seq<State>, start: nat, d: Dfa, j: nat, c: nat)
    requires Built(g, start, d) && DfaWellFormed(d) && j < |d.states| && c < TABLE_SIZE
    requires |d.states| < MAX_DFA_STATES
    ensures d.states[j].transitions[c].Some? <==>
      FIRST_PRINTABLE <= c < PAST_PRINTABLE && Step(g, NfaSet(d.states, j), c as char) != {}
  {
    assert Explored(g, d.states, j, PAST_PRINTABLE);
    assert EntryOk(g, d.states, j, c, PAST_PRINTABLE);
    var t := d.states[j].transitions[c];
    if t.Some? {
      assert StateOk(g, d.states, t.value);
      assert d.states[t.value].nfaStates[0] in NfaSet(d.states, t.value);
    }
  }

  /** Whatever the cap did, a printable entry of a built DFA is dead exactly when the NFA's
      next active set is empty, or when the cap was reached and no state holds that set: the
      lookup runs before the creation that the cap refuses. */
  lemma EntryDead(g: seq<State>, start: nat, d: Dfa, j: nat, c: nat)
    requires Built(g, start, d) && DfaWellFormed(d) && j < |d.states| && FIRST_PRINTABLE <= c < PAST_PRINTABLE
    ensures d.states[j].transitions[c].None? <==>
      || Step(g, NfaSet(d.states, j), c as char) == {}
      || (&& |d.states| >= MAX_DFA_STATES
          && forall i :: 0 <= i < |d.states| ==> NfaSet(d.states, i) != Step(g, NfaSet(d.states, j), c as char))
  {
    assert Explored(g, d.states, j, PAST_PRINTABLE);
    assert EntryOk(g, d.states, j, c, PAST_PRINTABLE);
    var t := d.states[j].transitions[c];
    if t.Some? {
      assert StateOk(g, d.states, t.value);
      assert d.states[t.value].nfaStates[0] in NfaSet(d.states, t.value);
    }
  }

  /** No two states of a built DFA stand for the same set of NFA states. */
  lemma DistinctSets(g: seq<State>, start: nat, d: Dfa, i: nat, j: nat)
    requires Built(g, start, d) && i < j < |d.states|
    ensures NfaSet(d.states, i) != NfaSet(d.states, j)
  {
    assert StateOk(g, d.states, i) && StateOk(g, d.states, j);
    SortedEqualIffSameSet(d.states[i].nfaStates, d.states[j].nfaStates);
  }
}
