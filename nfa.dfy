/// Thompson's construction (src/nfa.c): the fragment builders for a literal,
/// concatenation, union and Kleene star.
///
/// The C code allocates states on the heap and numbers them with a global
/// counter. Here the states live in the arena `Arena.states`, where a state's id
/// is its index, and the counter is the field `Arena.stateIdCounter`. Every
/// builder is a fixed, straight-line sequence of three primitive edits (create a
/// state, add a transition, clear an accepting flag); `Apply` gives the arena
/// after such a sequence, each builder method is proved to leave exactly that
/// arena, and the lemmas state what the result looks like and which strings the
/// new fragment reads.
module Nfa {
  import opened NfaGraph

  // ---------------------------------------------------------------------------
  // Primitive edits and the builders as sequences of them.
  // ---------------------------------------------------------------------------

  /** One primitive change to the arena: `create_state`, `add_transition`, or clearing
      `is_accepting`. */
  datatype Edit =
    | Fresh
    | Edge(from: nat, trigger: char, to: nat)
    | Unmark(state: nat)

  /** The arena after one edit. A fresh state takes the next id, has no transitions and does
      not accept; a transition is appended only while its source has fewer than two. The
      builders only name states of the arena; an edit naming any other id changes nothing. */
  ghost function ApplyEdit(g: seq<State>, e: Edit): (r: seq<State>)
    ensures |r| == if e.Fresh? then |g| + 1 else |g|
  {
    match e
    case Fresh => g + [State(|g|, [], false)]
    case Edge(from, trigger, to) =>
      if from < |g| && |g[from].transitions| < MAX_TRANSITIONS
      then g[from := g[from].(transitions := g[from].transitions + [Transition(trigger, to)])]
      else g
    case Unmark(s) =>
      if s < |g| then g[s := g[s].(accepting := false)] else g
  }

  /** The arena after the edits `es`, in order. */
  ghost function Apply(g: seq<State>, es: seq<Edit>): (r: seq<State>)
    ensures |g| <= |r|
    decreases |es|
  {
    if es == [] then g else Apply(ApplyEdit(g, es[0]), es[1..])
  }

  /** `create_nfa_for_char(c)` on an arena of `n` states. */
  ghost function CharEdits(n: nat, c: char): seq<Edit>
  {
    [Fresh, Fresh, Edge(n, c, n + 1)]
  }

  /** `create_nfa_for_concat(f1, f2)`. */
  ghost function ConcatEdits(f1: Fragment, f2: Fragment): seq<Edit>
  {
    [Edge(f1.end, EPSILON, f2.start), Unmark(f1.end)]
  }

  /** `create_nfa_for_union(f1, f2)` on an arena of `n` states: new start `n`, new end `n + 1`. */
  ghost function UnionEdits(n: nat, f1: Fragment, f2: Fragment): seq<Edit>
  {
    [Fresh, Fresh,
     Edge(n, EPSILON, f1.start), Edge(n, EPSILON, f2.start),
     Edge(f1.end, EPSILON, n + 1), Unmark(f1.end),
     Edge(f2.end, EPSILON, n + 1), Unmark(f2.end)]
  }

  /** `create_nfa_for_star(f)` on an arena of `n` states: new start `n`, new end `n + 1`. */
  ghost function StarEdits(n: nat, f: Fragment): seq<Edit>
  {
    [Fresh, Fresh,
     Edge(n, EPSILON, n + 1), Edge(n, EPSILON, f.start),
     Edge(f.end, EPSILON, n + 1), Edge(f.end, EPSILON, f.start),
     Unmark(f.end)]
  }

  ghost function CharGraph(g: seq<State>, c: char): seq<State>
  {
    Apply(g, CharEdits(|g|, c))
  }

  ghost function ConcatGraph(g: seq<State>, f1: Fragment, f2: Fragment): seq<State>
  {
    Apply(g, ConcatEdits(f1, f2))
  }

  ghost function UnionGraph(g: seq<State>, f1: Fragment, f2: Fragment): seq<State>
  {
    Apply(g, UnionEdits(|g|, f1, f2))
  }

  ghost function StarGraph(g: seq<State>, f: Fragment): seq<State>
  {
    Apply(g, StarEdits(|g|, f))
  }

  // ---------------------------------------------------------------------------
  // Properties of every sequence of edits.
  // ---------------------------------------------------------------------------

  /** `r` keeps every state of `g` with its transitions as a prefix of its new ones, and
      every state accepting in `r` is an old state that already accepted. */
  ghost predicate Grows(g: seq<State>, r: seq<State>)
  {
    && Extends(g, r)
    && (forall s :: 0 <= s < |g| ==> r[s].id == g[s].id)
    && (forall s :: 0 <= s < |r| && r[s].accepting ==> s < |g| && g[s].accepting)
  }

  /** Like `WellFormed`, with transitions allowed to lead to any id below `bound`. */
  ghost predicate WellFormedBelow(g: seq<State>, bound: nat)
  {
    forall i :: 0 <= i < |g| ==>
      && g[i].id == i
      && |g[i].transitions| <= MAX_TRANSITIONS
      && forall k :: 0 <= k < |g[i].transitions| ==> g[i].transitions[k].target < bound
  }

  /** The edit names state `s` as the source of a transition or as the state to unmark. */
  ghost predicate Touches(e: Edit, s: nat)
  {
    (e.Edge? && e.from == s) || e == Unmark(s)
  }

  lemma {:induction false} ApplyAppend(g: seq<State>, a: seq<Edit>, b: seq<Edit>)
    ensures Apply(g, a + b) == Apply(Apply(g, a), b)
    decreases |a|
  {
    if a == [] {
      assert a + b == b;
    } else {
      assert (a + b)[0] == a[0];
      assert (a + b)[1..] == a[1..] + b;
      ApplyAppend(ApplyEdit(g, a[0]), a[1..], b);
    }
  }

  /** Applying the edits from position `i` on is applying edit `i`, then the rest. */
  lemma ApplyStep(g: seq<State>, es: seq<Edit>, i: nat)
    requires i < |es|
    ensures Apply(g, es[i..]) == Apply(ApplyEdit(g, es[i]), es[i + 1..])
  {
    assert es[i..][0] == es[i];
    assert es[i..][1..] == es[i + 1..];
  }

  lemma GrowsTrans(a: seq<State>, b: seq<State>, c: seq<State>)
    requires Grows(a, b) && Grows(b, c)
    ensures Grows(a, c)
  {
    ExtendsTrans(a, b, c);
  }

  lemma EditGrows(g: seq<State>, e: Edit)
    ensures Grows(g, ApplyEdit(g, e))
  {
    var r := ApplyEdit(g, e);
    if e.Fresh? {
      assert forall s :: 0 <= s < |g| ==> r[s] == g[s];
    }
  }

  /** Edits only add states and append transitions, and never make a state accepting. */
  lemma {:induction false} ApplyGrows(g: seq<State>, es: seq<Edit>)
    ensures Grows(g, Apply(g, es))
    decreases |es|
  {
    if es == [] {
      assert Extends(g, g);
    } else {
      var h := ApplyEdit(g, es[0]);
      EditGrows(g, es[0]);
      ApplyGrows(h, es[1..]);
      GrowsTrans(g, h, Apply(h, es[1..]));
    }
  }

  /** A state that no edit touches keeps its transitions and its flag. */
  lemma {:induction false} ApplyUntouched(g: seq<State>, es: seq<Edit>, s: nat)
    requires s < |g|
    requires forall i :: 0 <= i < |es| ==> !Touches(es[i], s)
    ensures Apply(g, es)[s] == g[s]
    decreases |es|
  {
    ApplyGrows(g, es);
    if es != [] {
      var h := ApplyEdit(g, es[0]);
      assert !Touches(es[0], s);
      assert h[s] == g[s];
      assert forall i :: 0 <= i < |es[1..]| ==> es[1..][i] == es[i + 1];
      ApplyUntouched(h, es[1..], s);
    }
  }

  /** A state unmarked by one of the edits does not accept afterwards. */
  lemma ApplyClears(g: seq<State>, es: seq<Edit>, i: nat, s: nat)
    requires i < |es| && es[i] == Unmark(s) && s < |g|
    ensures s < |Apply(g, es)| && !Apply(g, es)[s].accepting
  {
    assert es == es[..i] + es[i..];
    ApplyAppend(g, es[..i], es[i..]);
    var before := Apply(g, es[..i]);
    ApplyGrows(g, es[..i]);
    ApplyStep(before, es, i);
    var after := ApplyEdit(before, Unmark(s));
    ApplyGrows(after, es[i + 1..]);
  }

  /** Edits whose transitions all lead below `bound` keep every state within the cap. */
  lemma {:induction false} ApplyWellFormed(g: seq<State>, es: seq<Edit>, bound: nat)
    requires WellFormedBelow(g, bound)
    requires forall i :: 0 <= i < |es| && es[i].Edge? ==> es[i].to < bound
    ensures WellFormedBelow(Apply(g, es), bound)
    decreases |es|
  {
    if es != [] {
      var h := ApplyEdit(g, es[0]);
      assert WellFormedBelow(h, bound);
      assert forall i :: 0 <= i < |es[1..]| ==> es[1..][i] == es[i + 1];
      ApplyWellFormed(h, es[1..], bound);
    }
  }

  /** One edit keeps the arena well formed when its transition leads to a state of it. */
  lemma EditWellFormed(g: seq<State>, e: Edit)
    requires WellFormed(g) && (e.Edge? ==> e.to < |g|)
    ensures WellFormed(ApplyEdit(g, e))
  {
  }

  // ---------------------------------------------------------------------------
  // Each builder, edit by edit.
  // ---------------------------------------------------------------------------

  lemma CharSteps(g: seq<State>, c: char)
    ensures CharGraph(g, c) == ApplyEdit(ApplyEdit(ApplyEdit(g, Fresh), Fresh), Edge(|g|, c, |g| + 1))
  {
    var es := CharEdits(|g|, c);
    var g1 := ApplyEdit(g, Fresh);
    var g2 := ApplyEdit(g1, Fresh);
    assert es[0..] == es && es[3..] == [];
    ApplyStep(g, es, 0);
    ApplyStep(g1, es, 1);
    ApplyStep(g2, es, 2);
  }

  lemma ConcatSteps(g: seq<State>, f1: Fragment, f2: Fragment)
    ensures ConcatGraph(g, f1, f2) == ApplyEdit(ApplyEdit(g, Edge(f1.end, EPSILON, f2.start)), Unmark(f1.end))
  {
    var es := ConcatEdits(f1, f2);
    var g1 := ApplyEdit(g, es[0]);
    assert es[0..] == es && es[2..] == [];
    ApplyStep(g, es, 0);
    ApplyStep(g1, es, 1);
  }

  lemma UnionSteps(g: seq<State>, f1: Fragment, f2: Fragment)
    ensures var n := |g|;
      UnionGraph(g, f1, f2)
      == ApplyEdit(ApplyEdit(ApplyEdit(ApplyEdit(ApplyEdit(ApplyEdit(ApplyEdit(ApplyEdit(g,
           Fresh), Fresh),
           Edge(n, EPSILON, f1.start)), Edge(n, EPSILON, f2.start)),
           Edge(f1.end, EPSILON, n + 1)), Unmark(f1.end)),
           Edge(f2.end, EPSILON, n + 1)), Unmark(f2.end))
  {
    var es := UnionEdits(|g|, f1, f2);
    var g1 := ApplyEdit(g, es[0]);
    var g2 := ApplyEdit(g1, es[1]);
    var g3 := ApplyEdit(g2, es[2]);
    var g4 := ApplyEdit(g3, es[3]);
    var g5 := ApplyEdit(g4, es[4]);
    var g6 := ApplyEdit(g5, es[5]);
    var g7 := ApplyEdit(g6, es[6]);
    assert es[0..] == es && es[8..] == [];
    ApplyStep(g, es, 0);
    ApplyStep(g1, es, 1);
    ApplyStep(g2, es, 2);
    ApplyStep(g3, es, 3);
    ApplyStep(g4, es, 4);
    ApplyStep(g5, es, 5);
    ApplyStep(g6, es, 6);
    ApplyStep(g7, es, 7);
  }

  lemma StarSteps(g: seq<State>, f: Fragment)
    ensures var n := |g|;
      StarGraph(g, f)
      == ApplyEdit(ApplyEdit(ApplyEdit(ApplyEdit(ApplyEdit(ApplyEdit(ApplyEdit(g,
           Fresh), Fresh),
           Edge(n, EPSILON, n + 1)), Edge(n, EPSILON, f.start)),
           Edge(f.end, EPSILON, n + 1)), Edge(f.end, EPSILON, f.start)),
           Unmark(f.end))
  {
    var es := StarEdits(|g|, f);
    var g1 := ApplyEdit(g, es[0]);
    var g2 := ApplyEdit(g1, es[1]);
    var g3 := ApplyEdit(g2, es[2]);
    var g4 := ApplyEdit(g3, es[3]);
    var g5 := ApplyEdit(g4, es[4]);
    var g6 := ApplyEdit(g5, es[5]);
    assert es[0..] == es && es[7..] == [];
    ApplyStep(g, es, 0);
    ApplyStep(g1, es, 1);
    ApplyStep(g2, es, 2);
    ApplyStep(g3, es, 3);
    ApplyStep(g4, es, 4);
    ApplyStep(g5, es, 5);
    ApplyStep(g6, es, 6);
  }

  // ---------------------------------------------------------------------------
  // Fragments, and the shape of each builder's result.
  // ---------------------------------------------------------------------------

  /** Both ends of `f` are states of `g`, and its end has no outgoing transition yet. */
  ghost predicate Open(g: seq<State>, f: Fragment)
  {
    f.start < |g| && f.end < |g| && g[f.end].transitions == []
  }

  /** A literal fragment is two new states joined by one transition on `c`; no old state
      changes and the new end is open. */
  lemma CharShape(g: seq<State>, c: char)
    ensures var r, n := CharGraph(g, c), |g|;
      && |r| == n + 2 && r[..n] == g
      && r[n] == State(n, [Transition(c, n + 1)], false)
      && r[n + 1] == State(n + 1, [], false)
      && Open(r, Fragment(n, n + 1))
  {
    CharSteps(g, c);
    assert ApplyEdit(ApplyEdit(g, Fresh), Fresh)[..|g|] == g;
  }

  /** Concatenation adds exactly one epsilon, from the open end of `f1` to the start of
      `f2`, clears the flag of that end and changes no other state; the result is open when
      `f2` was. */
  lemma ConcatShape(g: seq<State>, f1: Fragment, f2: Fragment)
    requires Open(g, f1)
    ensures var r := ConcatGraph(g, f1, f2);
      && |r| == |g|
      && (forall s :: 0 <= s < |g| && s != f1.end ==> r[s] == g[s])
      && r[f1.end] == State(g[f1.end].id, [Transition(EPSILON, f2.start)], false)
      && (Open(g, f2) && f2.end != f1.end ==> Open(r, Fragment(f1.start, f2.end)))
  {
    ConcatSteps(g, f1, f2);
  }

  /** Union adds a new start with epsilons to the two starts, in that order, and a new open
      end that both old ends, which stop accepting, now reach by one epsilon. */
  lemma UnionShape(g: seq<State>, f1: Fragment, f2: Fragment)
    requires Open(g, f1) && Open(g, f2) && f1.end != f2.end
    ensures var r, n := UnionGraph(g, f1, f2), |g|;
      && |r| == n + 2
      && (forall s :: 0 <= s < n && s != f1.end && s != f2.end ==> r[s] == g[s])
      && r[f1.end] == State(g[f1.end].id, [Transition(EPSILON, n + 1)], false)
      && r[f2.end] == State(g[f2.end].id, [Transition(EPSILON, n + 1)], false)
      && r[n] == State(n, [Transition(EPSILON, f1.start), Transition(EPSILON, f2.start)], false)
      && r[n + 1] == State(n + 1, [], false)
      && Open(r, Fragment(n, n + 1))
  {
    UnionSteps(g, f1, f2);
  }

  /** Star adds a new start with epsilons to the new end and to the old start, and gives the
      old end, which stops accepting, epsilons to the new end and back to the old start; no
      other state changes and the new end is open. */
  lemma StarShape(g: seq<State>, f: Fragment)
    requires Open(g, f)
    ensures var r, n := StarGraph(g, f), |g|;
      && |r| == n + 2
      && (forall s :: 0 <= s < n && s != f.end ==> r[s] == g[s])
      && r[f.end] == State(g[f.end].id, [Transition(EPSILON, n + 1), Transition(EPSILON, f.start)], false)
      && r[n] == State(n, [Transition(EPSILON, n + 1), Transition(EPSILON, f.start)], false)
      && r[n + 1] == State(n + 1, [], false)
      && Open(r, Fragment(n, n + 1))
  {
    StarSteps(g, f);
  }

  /** Whatever the fragments, no builder makes a state accepting: each keeps every old state
      and transition, and clears the accepting flag of the old end states. */
  lemma BuildersNeverAccept(g: seq<State>, f1: Fragment, f2: Fragment, c: char)
    requires f1.end < |g| && f2.end < |g|
    ensures Grows(g, CharGraph(g, c))
    ensures Grows(g, ConcatGraph(g, f1, f2)) && !ConcatGraph(g, f1, f2)[f1.end].accepting
    ensures Grows(g, UnionGraph(g, f1, f2))
    ensures !UnionGraph(g, f1, f2)[f1.end].accepting && !UnionGraph(g, f1, f2)[f2.end].accepting
    ensures Grows(g, StarGraph(g, f1)) && !StarGraph(g, f1)[f1.end].accepting
  {
    var n := |g|;
    ApplyGrows(g, CharEdits(n, c));
    ApplyGrows(g, ConcatEdits(f1, f2));
    ApplyClears(g, ConcatEdits(f1, f2), 1, f1.end);
    ApplyGrows(g, UnionEdits(n, f1, f2));
    ApplyClears(g, UnionEdits(n, f1, f2), 5, f1.end);
    ApplyClears(g, UnionEdits(n, f1, f2), 7, f2.end);
    ApplyGrows(g, StarEdits(n, f1));
    ApplyClears(g, StarEdits(n, f1), 6, f1.end);
  }

  /** Whatever the fragments, the only old states a builder changes are the end states it
      links from. */
  lemma BuildersTouchOnlyEnds(g: seq<State>, f1: Fragment, f2: Fragment, c: char, s: nat)
    requires s < |g|
    ensures CharGraph(g, c)[s] == g[s]
    ensures s != f1.end ==> ConcatGraph(g, f1, f2)[s] == g[s]
    ensures s != f1.end && s != f2.end ==> UnionGraph(g, f1, f2)[s] == g[s]
    ensures s != f1.end ==> StarGraph(g, f1)[s] == g[s]
  {
    var n := |g|;
    ApplyUntouched(g, CharEdits(n, c), s);
    if s != f1.end {
      ApplyUntouched(g, ConcatEdits(f1, f2), s);
      ApplyUntouched(g, StarEdits(n, f1), s);
      if s != f2.end {
        ApplyUntouched(g, UnionEdits(n, f1, f2), s);
      }
    }
  }

  lemma WellFormedWiden(g: seq<State>, bound: nat)
    requires WellFormed(g) && |g| <= bound
    ensures WellFormedBelow(g, bound)
  {
  }

  lemma WellFormedNarrow(g: seq<State>)
    requires WellFormedBelow(g, |g|)
    ensures WellFormed(g)
  {
  }

  /** Each builder keeps the arena well formed when the fragments it joins lie in it. */
  lemma CharWellFormed(g: seq<State>, c: char)
    requires WellFormed(g)
    ensures WellFormed(CharGraph(g, c))
  {
    CharSteps(g, c);
    WellFormedWiden(g, |g| + 2);
    ApplyWellFormed(g, CharEdits(|g|, c), |g| + 2);
    WellFormedNarrow(CharGraph(g, c));
  }

  lemma ConcatWellFormed(g: seq<State>, f1: Fragment, f2: Fragment)
    requires WellFormed(g) && f2.start < |g|
    ensures WellFormed(ConcatGraph(g, f1, f2))
  {
    ConcatSteps(g, f1, f2);
    WellFormedWiden(g, |g|);
    ApplyWellFormed(g, ConcatEdits(f1, f2), |g|);
    WellFormedNarrow(ConcatGraph(g, f1, f2));
  }

  lemma UnionWellFormed(g: seq<State>, f1: Fragment, f2: Fragment)
    requires WellFormed(g) && f1.start < |g| && f2.start < |g|
    ensures WellFormed(UnionGraph(g, f1, f2))
  {
    UnionSteps(g, f1, f2);
    WellFormedWiden(g, |g| + 2);
    ApplyWellFormed(g, UnionEdits(|g|, f1, f2), |g| + 2);
    WellFormedNarrow(UnionGraph(g, f1, f2));
  }

  lemma StarWellFormed(g: seq<State>, f: Fragment)
    requires WellFormed(g) && f.start < |g|
    ensures WellFormed(StarGraph(g, f))
  {
    StarSteps(g, f);
    WellFormedWiden(g, |g| + 2);
    ApplyWellFormed(g, StarEdits(|g|, f), |g| + 2);
    WellFormedNarrow(StarGraph(g, f));
  }
  // ---------------------------------------------------------------------------
  // What the built fragments read.
  // ---------------------------------------------------------------------------

  /** Reading `w` from the closure of the start of `f` can leave the NFA in the end of `f`.
      Nothing in the builders marks a state accepting, so a fragment's language is given by
      its end state. */
  ghost predicate Reads(g: seq<State>, f: Fragment, w: seq<char>)
  {
    f.end in Run(g, Closure(g, {f.start}), w)
  }

  /** The words of `ws` one after another. */
  ghost function Flatten(ws: seq<seq<char>>): seq<char>
  {
    if ws == [] then [] else ws[0] + Flatten(ws[1..])
  }

  /** A set that is epsilon-closed and holds `x` holds every run that starts from the
      closure of `x`, in any smaller arena. */
  lemma RunFromMember(g: seq<State>, h: seq<State>, U: set<nat>, x: nat, w: seq<char>)
    requires Extends(g, h) && EpsClosed(h, U) && x in U
    ensures Run(g, Closure(g, {x}), w) <= Run(h, U, w)
  {
    ClosedContainsClosure(h, U, {x});
    ClosureMono(g, h, {x}, {x});
    RunMono(g, h, Closure(g, {x}), U, w);
  }

  /** The literal fragment for `c` reads the one-character string `c`. */
  lemma CharReads(g: seq<State>, c: char)
    ensures Reads(CharGraph(g, c), Fragment(|g|, |g| + 1), [c])
  {
    var r, n := CharGraph(g, c), |g|;
    CharShape(g, c);
    ClosureContains(r, {n});
    assert r[n].transitions[0].trigger == c;
    assert n + 1 in Move(r, Closure(r, {n}), c);
    ClosureContains(r, Move(r, Closure(r, {n}), c));
  }

  /** If `f1` reads `u` and `f2` reads `v`, their concatenation reads `u + v`. */
  lemma ConcatReads(g: seq<State>, f1: Fragment, f2: Fragment, u: seq<char>, v: seq<char>)
    requires WellFormed(g) && Open(g, f1) && f2.start < |g| && f2.end < |g|
    requires Reads(g, f1, u) && Reads(g, f2, v)
    ensures Reads(ConcatGraph(g, f1, f2), Fragment(f1.start, f2.end), u + v)
  {
    var r := ConcatGraph(g, f1, f2);
    ConcatShape(g, f1, f2);
    ConcatWellFormed(g, f1, f2);
    ApplyGrows(g, ConcatEdits(f1, f2));
    var T := Closure(r, {f1.start});
    ClosureIsClosed(r, {f1.start});
    ClosureMono(g, r, {f1.start}, {f1.start});
    RunMono(g, r, Closure(g, {f1.start}), T, u);
    var U := Run(r, T, u);
    RunClosed(r, T, u);
    assert r[f1.end].transitions[0] == Transition(EPSILON, f2.start);
    RunFromMember(g, r, U, f2.start, v);
    RunAppend(r, T, u, v);
  }

  /** The start closure of a union holds both old starts. */
  lemma UnionStart(g: seq<State>, f1: Fragment, f2: Fragment)
    requires WellFormed(g) && Open(g, f1) && Open(g, f2) && f1.end != f2.end
    ensures var r := UnionGraph(g, f1, f2);
      EpsClosed(r, Closure(r, {|g|})) && f1.start in Closure(r, {|g|}) && f2.start in Closure(r, {|g|})
  {
    var r, n := UnionGraph(g, f1, f2), |g|;
    assert |r| == n + 2 && r[n] == State(n, [Transition(EPSILON, f1.start), Transition(EPSILON, f2.start)], false) by {
      UnionShape(g, f1, f2);
    }
    UnionWellFormed(g, f1, f2);
    ClosureIsClosed(r, {n});
    EdgeInClosure(r, {n}, n, 0);
    EdgeInClosure(r, {n}, n, 1);
  }

  /** The union of `f1` and `f2` reads whatever `f1` reads and whatever `f2` reads. */
  lemma UnionReads(g: seq<State>, f1: Fragment, f2: Fragment, w: seq<char>)
    requires WellFormed(g) && Open(g, f1) && Open(g, f2) && f1.end != f2.end
    requires Reads(g, f1, w) || Reads(g, f2, w)
    ensures Reads(UnionGraph(g, f1, f2), Fragment(|g|, |g| + 1), w)
  {
    var r, n := UnionGraph(g, f1, f2), |g|;
    if Reads(g, f1, w) {
      UnionReadsFrom(g, f1, f2, f1, w);
    } else {
      UnionReadsFrom(g, f1, f2, f2, w);
    }
  }

  lemma UnionReadsFrom(g: seq<State>, f1: Fragment, f2: Fragment, f: Fragment, w: seq<char>)
    requires WellFormed(g) && Open(g, f1) && Open(g, f2) && f1.end != f2.end
    requires (f == f1 || f == f2) && Reads(g, f, w)
    ensures Reads(UnionGraph(g, f1, f2), Fragment(|g|, |g| + 1), w)
  {
    var r, n := UnionGraph(g, f1, f2), |g|;
    assert |r| == n + 2 && r[f.end].transitions == [Transition(EPSILON, n + 1)] by {
      UnionShape(g, f1, f2);
    }
    var T := Closure(r, {n});
    UnionStart(g, f1, f2);
    assert WellFormed(r) by { UnionWellFormed(g, f1, f2); }
    assert Extends(g, r) by { ApplyGrows(g, UnionEdits(n, f1, f2)); }
    RunFromMember(g, r, T, f.start, w);
    var U := Run(r, T, w);
    assert f.end in U;
    RunClosed(r, T, w);
    assert r[f.end].transitions[0].target in U;
  }

  /** Invariant of reading through a star: from an epsilon-closed set holding the old start
      and the new end, any sequence of words each read by the body leads back to the new end. */
  lemma {:induction false} StarLoop(g: seq<State>, f: Fragment, U: set<nat>, ws: seq<seq<char>>)
    requires WellFormed(g) && Open(g, f)
    requires forall i :: 0 <= i < |ws| ==> Reads(g, f, ws[i])
    requires EpsClosed(StarGraph(g, f), U) && f.start in U && |g| + 1 in U
    ensures |g| + 1 in Run(StarGraph(g, f), U, Flatten(ws))
    decreases |ws|
  {
    if ws != [] {
      var r := StarGraph(g, f);
      StarShape(g, f);
      StarWellFormed(g, f);
      ApplyGrows(g, StarEdits(|g|, f));
      RunFromMember(g, r, U, f.start, ws[0]);
      var V := Run(r, U, ws[0]);
      RunClosed(r, U, ws[0]);
      assert r[f.end].transitions[0] == Transition(EPSILON, |g| + 1);
      assert r[f.end].transitions[1] == Transition(EPSILON, f.start);
      assert forall i :: 0 <= i < |ws[1..]| ==> ws[1..][i] == ws[i + 1];
      StarLoop(g, f, V, ws[1..]);
      RunAppend(r, U, ws[0], Flatten(ws[1..]));
    }
  }

  /** The star of `f` reads any concatenation of words that `f` reads, the empty
      concatenation included. */
  lemma StarReads(g: seq<State>, f: Fragment, ws: seq<seq<char>>)
    requires WellFormed(g) && Open(g, f)
    requires forall i :: 0 <= i < |ws| ==> Reads(g, f, ws[i])
    ensures Reads(StarGraph(g, f), Fragment(|g|, |g| + 1), Flatten(ws))
  {
    StarStart(g, f);
    StarLoop(g, f, Closure(StarGraph(g, f), {|g|}), ws);
  }

  /** The start closure of a star holds the old start and the new end. */
  lemma StarStart(g: seq<State>, f: Fragment)
    requires WellFormed(g) && Open(g, f)
    ensures var r := StarGraph(g, f);
      EpsClosed(r, Closure(r, {|g|})) && f.start in Closure(r, {|g|}) && |g| + 1 in Closure(r, {|g|})
  {
    var r, n := StarGraph(g, f), |g|;
    assert |r| == n + 2 && r[n] == State(n, [Transition(EPSILON, n + 1), Transition(EPSILON, f.start)], false) by {
      StarShape(g, f);
    }
    StarWellFormed(g, f);
    ClosureIsClosed(r, {n});
    EdgeInClosure(r, {n}, n, 0);
    EdgeInClosure(r, {n}, n, 1);
  }

  /** The states created so far, and the global counter that numbers them. */
  class Arena {
    var states: seq<State>
    var stateIdCounter: nat

    ghost predicate Valid()
      reads this
    {
      WellFormed(states) && stateIdCounter == |states|
    }

    /** No state has been created yet and the counter starts at 0. */
    constructor ()
      ensures Valid() && states == [] && stateIdCounter == 0
    {
      states := [];
      stateIdCounter := 0;
    }

    /** `create_state`: a fresh state numbered by the counter, which then moves on. */
    method CreateState() returns (s: nat)
      requires Valid()
      modifies this
      ensures Valid()
      ensures s == old(stateIdCounter) && stateIdCounter == old(stateIdCounter) + 1
      ensures states == ApplyEdit(old(states), Fresh)
    {
      EditWellFormed(states, Fresh);
      s := stateIdCounter;
      stateIdCounter := stateIdCounter + 1;
      states := states + [State(s, [], false)];
    }

    /** `add_transition`: appends the transition unless `from` already has two. */
    method AddTransition(from: nat, to: nat, trigger: char)
      requires Valid() && from < |states| && to < |states|
      modifies this
      ensures Valid() && stateIdCounter == old(stateIdCounter)
      ensures states == ApplyEdit(old(states), Edge(from, trigger, to))
    {
      EditWellFormed(states, Edge(from, trigger, to));
      var st := states[from];
      if |st.transitions| >= MAX_TRANSITIONS {
        return;
      }
      states := states[from := st.(transitions := st.transitions + [Transition(trigger, to)])];
    }

    /** Clears the accepting flag of state `s`. */
    method ClearAccepting(s: nat)
      requires Valid() && s < |states|
      modifies this
      ensures Valid() && stateIdCounter == old(stateIdCounter)
      ensures states == ApplyEdit(old(states), Unmark(s))
    {
      EditWellFormed(states, Unmark(s));
      states := states[s := states[s].(accepting := false)];
    }

    /** `create_nfa_for_char`: a two-state fragment joined by a transition on `c`. */
    method CreateNfaForChar(c: char) returns (nfa: Fragment)
      requires Valid()
      modifies this
      ensures Valid()
      ensures nfa == Fragment(|old(states)|, |old(states)| + 1)
      ensures states == CharGraph(old(states), c)
    {
      var start := CreateState();
      var end := CreateState();
      nfa := Fragment(start, end);
      AddTransition(nfa.start, nfa.end, c);
      CharSteps(old(states), c);
    }

    /** `create_nfa_for_concat`: links the end of `nfa1` to the start of `nfa2`. */
    method CreateNfaForConcat(nfa1: Fragment, nfa2: Fragment) returns (nfa: Fragment)
      requires Valid() && nfa1.end < |states| && nfa2.start < |states|
      modifies this
      ensures Valid() && stateIdCounter == old(stateIdCounter)
      ensures nfa == Fragment(nfa1.start, nfa2.end)
      ensures states == ConcatGraph(old(states), nfa1, nfa2)
    {
      AddTransition(nfa1.end, nfa2.start, EPSILON);
      ClearAccepting(nfa1.end);
      nfa := Fragment(nfa1.start, nfa2.end);
      ConcatSteps(old(states), nfa1, nfa2);
    }

    /** `create_nfa_for_union`: a new start branching to both fragments and a new end that
        both reach. */
    method CreateNfaForUnion(nfa1: Fragment, nfa2: Fragment) returns (nfa: Fragment)
      requires Valid() && nfa1.start < |states| && nfa1.end < |states|
      requires nfa2.start < |states| && nfa2.end < |states|
      modifies this
      ensures Valid()
      ensures nfa == Fragment(|old(states)|, |old(states)| + 1)
      ensures states == UnionGraph(old(states), nfa1, nfa2)
    {
      var start := CreateState();
      var end := CreateState();
      nfa := Fragment(start, end);
      AddTransition(nfa.start, nfa1.start, EPSILON);
      AddTransition(nfa.start, nfa2.start, EPSILON);
      AddTransition(nfa1.end, nfa.end, EPSILON);
      ClearAccepting(nfa1.end);
      AddTransition(nfa2.end, nfa.end, EPSILON);
      ClearAccepting(nfa2.end);
      UnionSteps(old(states), nfa1, nfa2);
    }

    /** `create_nfa_for_star`: zero or more passes through `nfa1`. */
    method CreateNfaForStar(nfa1: Fragment) returns (nfa: Fragment)
      requires Valid() && nfa1.start < |states| && nfa1.end < |states|
      modifies this
      ensures Valid()
      ensures nfa == Fragment(|old(states)|, |old(states)| + 1)
      ensures states == StarGraph(old(states), nfa1)
    {
      var start := CreateState();
      var end := CreateState();
      nfa := Fragment(start, end);
      AddTransition(nfa.start, nfa.end, EPSILON);
      AddTransition(nfa.start, nfa1.start, EPSILON);
      AddTransition(nfa1.end, nfa.end, EPSILON);
      AddTransition(nfa1.end, nfa1.start, EPSILON);
      ClearAccepting(nfa1.end);
      StarSteps(old(states), nfa1);
    }
  }
}
