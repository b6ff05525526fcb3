# A verified model of a small regular-expression engine

This project models the core of a C regular-expression compiler and matcher in Dafny. It
covers four stages.

- **Parsing** (`parser.dfy`, module `Parser`). `preprocess_regex` writes explicit `.`
  concatenation operators into a caller buffer. `regex_to_postfix` runs the shunting-yard
  conversion over an array-backed operator stack.
- **Thompson construction** (`nfa.dfy`, module `Nfa`). The class `Arena` holds the states and
  the global id counter. Its methods are `create_state`, the capped `add_transition` and the
  four fragment builders.
- **NFA simulation** (`simulator.dfy`, module `Simulator`). `add_state_to_set` computes the
  epsilon closure into an array. `simulate_nfa` steps the active set once per character.
- **Subset construction** (`dfa.dfy`, module `Dfa`). The class `Builder` holds the builder's
  globals: the states and the FIFO worklist. The module also has the sorted-set lookup,
  `create_dfa_state`, `nfa_to_dfa` and the table walk `simulate_dfa`.

The NFA states live in an arena `seq<State>` in which a state's id is its index. This holds
because the global counter numbers states in creation order. A transition is a pair of a
trigger and a target id, with the trigger `'\0'` meaning epsilon. `nfa_graph.dfy` (module
`NfaGraph`) holds these data types. It also holds the meaning the rest is proved against:
- epsilon reachability and the epsilon closure;
- the one-character move;
- the active set after a word (`Run`);
- acceptance (`NfaAccepts`).

Each imperative C function is a Dafny method with the same loops. Where the C code works on
a fixed buffer, so does the model:
- the output buffers of the parser and its operator stack;
- the state-set buffers of `simulate_nfa` and `nfa_to_dfa` (`start_set`, `next_set`);
- the `memcpy` between the active sets of `simulate_nfa`.

The other collections are sequences that the methods reassign:
- the NFA arena, `Arena.states`;
- the DFA's state list and worklist, `Builder.allStates` and `Builder.worklist`.

`qsort` in `sort_nfa_state_set`, and the copy-and-sort in `create_dfa_state`, become an
assignment of the sorted list `SortById`.

Each method is proved against a specification function:
- `preprocess_regex` against `Expanded`/`StopIndex`;
- `regex_to_postfix` against `Shunt`;
- the builders against edit lists applied to the arena;
- `simulate_nfa` against `Run`, through `NfaAccepts`;
- `simulate_dfa` against the table walk `DfaRun`;
- `nfa_to_dfa` against the predicate `Built`.

The lemmas then state what the program promises:
- the round trip of preprocessing;
- operand order and operator precedence in the postfix;
- the absence of parentheses in the postfix of balanced input;
- the languages read by the fragments;
- that `simulate_nfa` decides NFA acceptance;
- that a built DFA is canonical, sound, and equivalent to the NFA on printable input when the
  256-state cap was not reached.

## Model

| member | source | states |
|---|---|---|
| Parser.PrecedenceOrder | src/parser.c:7-14 | `*` binds tighter than `.`, which binds tighter than `\|`; `(`, `)` and operands have precedence 0 |
| Parser.StopIndex | src/parser.c:18-20 | the loop stops at the first position whose output so far has reached `bufferSize - 2` characters, or at the end |
| Parser.ExpandedLength | src/parser.c:23-41 | each input character adds one or two output characters |
| Parser.ExpandedPrefix | src/parser.c:23-41 | output written for a shorter prefix is kept as the loop goes on |
| Parser.ExpandAt | src/parser.c:23-41 | character `i` is copied in order, and a `.` follows it exactly when it is alphanumeric, `)` or `*` and the next one is alphanumeric or `(`; nothing follows the last character |
| Parser.Filter | src/parser.c:23-41 | the filtered sequence keeps only characters that pass the sieve |
| Parser.ExpandedRemoveDots | src/parser.c:23-41 | removing every `.` from the output gives the input prefix with its own `.` removed |
| Parser.ExpandRoundTrip | src/parser.c:18-43 | for a pattern without `.`, removing the inserted `.` gives back the pattern |
| Parser.ExpandExamples | include/parser.h:6 | `ab` becomes `a.b` and `(a\|b)c` becomes `(a\|b).c` |
| Parser.TerminatorFits | src/parser.c:20-43 | when the loop runs to the end, the terminator index is at most `bufferSize - 1` |
| Parser.RoomyCompletes | src/parser.c:20 | a buffer larger than twice the pattern never stops the loop early |
| Parser.CopyChar | src/parser.c:23-41 | one pass writes the character and its `.` at the index and changes nothing after them |
| Parser.PreprocessRegex | src/parser.c:16-44 | the buffer holds the expanded prefix up to the stop position, shorter than `bufferSize`, and is terminated only when the loop completed; nothing past it is written |
| Parser.PopWhile | src/parser.c:61-82 | a pop loop is never undefined and never grows the stack; from a sane state (output within `bufferSize - 1`, stack empty once `stack_top` is below -1) it stays sane |
| Parser.Token | src/parser.c:52-75 | one token keeps a sane state sane |
| Parser.ShuntPrefix | src/parser.c:51-76 | every prefix of the conversion keeps those bounds |
| Parser.ShuntStuck | src/parser.c:54-75 | once an emit has failed, or a push was undefined, the outcome no longer changes |
| Parser.ShuntStuckFinal | src/parser.c:54-82 | a failed or undefined prefix decides the whole conversion |
| Parser.PopWhileStack | src/parser.c:61-82 | a pop loop leaves a prefix of the stack whose top stops the loop, and everything it removed satisfied the loop condition |
| Parser.PopWhileOut | src/parser.c:61-82 | a pop loop writes the removed entries from the top down |
| Parser.PopMoves | src/parser.c:61-82 | the stack splits into what stays and what is popped, and the popped part is written top first |
| Parser.TokenOperator | src/parser.c:68-75 | an operator pops, top first, every entry of at least its precedence and stops below one of lower precedence (so `(` is a barrier), then is pushed; equal precedence is left-associative |
| Parser.TokenClose | src/parser.c:61-67 | `)` pops, top first, everything above the nearest `(` and discards that `(`; with no `(` it empties the stack and drives `stack_top` one further below -1 |
| Parser.ShuntDone | src/parser.c:79-85 | a completed conversion has emptied the stack and leaves room for the terminator |
| Parser.PopRoomy | src/parser.c:61-82 | a pop loop cannot fail while output and stack together leave room |
| Parser.ShuntPrefixRoomy | src/parser.c:51-76 | with a buffer longer than the infix, no token fails, and output plus stack hold at most one entry per token read |
| Parser.RoomyNeverFails | src/parser.c:46-86 | a buffer longer than the infix is never reported full |
| Parser.TokenOperands | src/parser.c:54-75 | a token adds its own operand to the output operands and leaves only operators on the stack |
| Parser.ShuntPrefixOperands | src/parser.c:51-76 | after each token, the output operands are the infix operands so far, in order |
| Parser.PostfixOperands | src/parser.c:46-86 | the operands of the postfix are those of the infix, in the same order |
| Parser.PopTracks | src/parser.c:61-82 | on balanced input a pop loop moves only parenthesis-free entries and keeps the stack's `(` count and the character bag |
| Parser.CloseTracks | src/parser.c:61-67 | on a balanced prefix, `)` finds its `(` on top once the operators above it are popped, and closes one group |
| Parser.OperatorTracks | src/parser.c:68-75 | an operator never pops `(` and is pushed |
| Parser.TokenTracks | src/parser.c:52-75 | each token of a balanced prefix keeps the output free of parentheses and the stack free of `)`, with one `(` per open group |
| Parser.ShuntPrefixTracks | src/parser.c:51-76 | the same after every prefix of a balanced regular expression |
| Parser.PostfixBalanced | src/parser.c:61-82 | for balanced input the postfix has no parenthesis and holds every other infix character exactly as often as the infix: each operator is emitted exactly once |
| Parser.ShuntPrefixStack | src/parser.c:58-75 | the stack never holds more entries than tokens read |
| Parser.ShuntDefined | src/parser.c:47-75 | a balanced regular expression of at most 1024 characters never pushes outside the operator stack |
| Parser.ShuntUnbalancedExamples | src/parser.c:61-82 | `a)` converts to `a` with `stack_top` left at -2; `(a` converts to `a(` |
| Parser.ShuntFullExample | src/parser.c:79-82 | `a.b` with a buffer of 3 fails in the final pop loop, when `.` is popped as the third emit |
| Parser.NotUndefined | src/parser.c:58-75 | a conversion that is defined as a whole is defined at every prefix |
| Parser.PopOperators | src/parser.c:61-82 | the array pop loop follows `PopWhile`, returning failure exactly when it does |
| Parser.ConvertToken | src/parser.c:52-75 | one pass of the token loop over the arrays follows `Token` |
| Parser.CloseGroup | src/parser.c:61-67 | the `)` branch over the arrays follows `Token` on `)`, failing exactly when it does |
| Parser.PushOperator | src/parser.c:68-75 | the operator branch over the arrays follows `Token`, failing exactly when it does |
| Parser.ConvertTokenAt | src/parser.c:51-76 | one pass of the loop advances the conversion by one token, failing exactly when the prefix fails |
| Parser.ConvertTokens | src/parser.c:51-76 | the token loop ends failed exactly when the conversion of the whole infix fails, and otherwise mirrors its configuration in the arrays |
| Parser.FinishPostfix | src/parser.c:79-85 | pops the rest and terminates the output, or fails, as `PopWhile` says |
| Parser.RegexToPostfix | src/parser.c:46-86 | returns 0 or -1; -1 exactly when the conversion fails; on 0 the postfix is the conversion's output, shorter than `bufferSize` and terminated; nothing from `bufferSize` on is written |
| NfaGraph.Range | src/nfa.c:6-16 | the ids the counter has handed out for `n` states are exactly 0 up to `n` |
| NfaGraph.MembersBound | src/simulator.c:30-38 | a duplicate-free list of states has at most one entry per state, and fewer when a state is missing |
| NfaGraph.Closure | src/simulator.c:38-45 | the closure holds only states of the arena |
| NfaGraph.ClosureContains | src/simulator.c:38 | every state of `X` is in its closure |
| NfaGraph.EdgeInClosure | src/simulator.c:41-45 | the closure holds the target of every epsilon transition out of a member |
| NfaGraph.ClosureIsClosed | src/simulator.c:41-45 | the closure is epsilon-closed |
| NfaGraph.ClosedContainsClosure | src/simulator.c:38-45 | the closure is the least epsilon-closed set containing `X` |
| NfaGraph.ClosureUnion | src/simulator.c:86-88 | the closure distributes over union |
| NfaGraph.ClosureIdempotent | src/simulator.c:38-45 | closing twice changes nothing |
| NfaGraph.RunFromEmpty | src/simulator.c:99-101 | nothing is reached from the empty active set |
| NfaGraph.RunAppend | src/simulator.c:72-102 | reading `u` then `v` is reading `u + v` |
| NfaGraph.RunSnoc | src/simulator.c:72-95 | one more character is one more step |
| NfaGraph.RunDead | src/simulator.c:99-101 | once a prefix leaves no active state, the whole word leaves none, so the early return is correct |
| NfaGraph.RunClosed | src/simulator.c:88 | every active set is epsilon-closed |
| NfaGraph.RunMono | src/nfa.c:41 | adding states and transitions only adds runs |
| NfaGraph.AcceptsEmpty | src/simulator.c:69-113 | the empty string is accepted exactly when the start closure holds an accepting state |
| Simulator.AddedIsClosureUnion | src/simulator.c:25-46 | after one call, the set is the old set plus the closure of the added state |
| Simulator.AddStateToSet | src/simulator.c:25-46 | `NULL` changes nothing; otherwise only appends, keeps the entries distinct and includes the state; on an epsilon-closed set it yields the old set plus the state's epsilon closure |
| Simulator.FollowEpsilons | src/simulator.c:41-45 | the epsilon loop visits every epsilon transition of the state and only appends |
| Simulator.AddTargetsOn | src/simulator.c:81-90 | the transitions of one state on `c` add the closure of their targets |
| Simulator.MoveAndClose | src/simulator.c:74-91 | the next set is exactly `Step` of the current set on `c`, without duplicates |
| Simulator.SimulateNfa | src/simulator.c:59-114 | returns true exactly when the NFA accepts the string |
| Nfa.ApplyEdit | src/nfa.c:12-22 | a fresh state adds exactly one state; other edits keep the count |
| Nfa.Apply | src/nfa.c:12-42 | edits never remove states |
| Nfa.ApplyGrows | src/nfa.c:12-42 | edits keep every state and append to its transitions, and never make a state accepting |
| Nfa.ApplyUntouched | src/nfa.c:30-42 | a state no edit names keeps its transitions and flag |
| Nfa.ApplyClears | src/nfa.c:68-136 | a state that is unmarked does not accept afterwards |
| Nfa.EditWellFormed | src/nfa.c:12-42 | each primitive keeps the arena consistent, with at most two transitions per state |
| Nfa.CharSteps | src/nfa.c:50-58 | the literal builder is two fresh states, then one transition |
| Nfa.ConcatSteps | src/nfa.c:68-72 | concatenation is one epsilon, then clearing the flag |
| Nfa.UnionSteps | src/nfa.c:92-107 | union is the eight primitive calls in source order |
| Nfa.StarSteps | src/nfa.c:120-136 | star is the seven primitive calls in source order |
| Nfa.CharShape | src/nfa.c:50-58 | two fresh distinct states; the start has exactly one transition, on `c`, to the end, which has none |
| Nfa.ConcatShape | src/nfa.c:68-77 | no state created; the end of `nfa1` gains exactly one epsilon to the start of `nfa2` and stops accepting |
| Nfa.UnionShape | src/nfa.c:92-107 | the new start has epsilons to both starts in order; each old end gains one epsilon to the new end and stops accepting |
| Nfa.StarShape | src/nfa.c:120-136 | the new start has epsilons to the new end then the old start; the old end has epsilons to the new end then back to the old start |
| Nfa.BuildersNeverAccept | src/nfa.c:18-136 | no builder makes a state accepting; each clears the ends it joins |
| Nfa.BuildersTouchOnlyEnds | src/nfa.c:68-136 | the only old states a builder changes are the end states it joins |
| Nfa.CharWellFormed | src/nfa.c:50-58 | the literal builder keeps the arena consistent |
| Nfa.ConcatWellFormed | src/nfa.c:68-82 | concatenation keeps the arena consistent |
| Nfa.UnionWellFormed | src/nfa.c:92-112 | union keeps the arena consistent |
| Nfa.StarWellFormed | src/nfa.c:120-140 | star keeps the arena consistent |
| Nfa.CharReads | src/nfa.c:50-58 | the literal fragment reads the one-character word |
| Nfa.ConcatReads | src/nfa.c:68-82 | concatenation reads `u + v` when the parts read `u` and `v` |
| Nfa.UnionReads | src/nfa.c:92-112 | union reads whatever either part reads |
| Nfa.StarReads | src/nfa.c:120-140 | star reads every concatenation of words the body reads, the empty one included |
| Nfa.Arena.constructor | src/nfa.c:6 | no states and the counter at 0 |
| Nfa.Arena.CreateState | src/nfa.c:12-22 | returns the old counter as the id, bumps the counter, and appends a state with no transitions that is not accepting |
| Nfa.Arena.AddTransition | src/nfa.c:30-42 | changes nothing on a state with two transitions, otherwise appends exactly one |
| Nfa.Arena.ClearAccepting | src/nfa.c:71 | clears one state's flag |
| Nfa.Arena.CreateNfaForChar | src/nfa.c:50-58 | the arena becomes `CharGraph` and the result is the two new states |
| Nfa.Arena.CreateNfaForConcat | src/nfa.c:68-82 | the arena becomes `ConcatGraph` and the result is (`nfa1.start`, `nfa2.end`) |
| Nfa.Arena.CreateNfaForUnion | src/nfa.c:92-112 | the arena becomes `UnionGraph` and the result is the two new states |
| Nfa.Arena.CreateNfaForStar | src/nfa.c:120-140 | the arena becomes `StarGraph` and the result is the two new states |
| Dfa.StatePtrCompare | src/dfa.c:36-40 | the sign of the result orders the two ids |
| Dfa.InsertById | src/dfa.c:47 | inserting adds the one entry |
| Dfa.InsertSorted | src/dfa.c:47 | insertion keeps the list sorted, strictly when the entry is new |
| Dfa.SortById | src/dfa.c:46-48 | sorting keeps length and entries |
| Dfa.SortSorted | src/dfa.c:46-48 | sorting orders by id, strictly for distinct entries |
| Dfa.SortPermutation | src/dfa.c:46-48 | sorting is a permutation |
| Dfa.SortedUnique | src/dfa.c:50-59 | a strictly sorted list is determined by its set |
| Dfa.SortedEqualIffSameSet | src/dfa.c:50-59 | sorted lists compare equal exactly when they hold the same set |
| Dfa.SortCanonical | src/dfa.c:64-77 | two duplicate-free lists sort to the same list exactly when they hold the same set |
| Dfa.SortedFixed | src/dfa.c:102 | sorting a sorted list changes nothing |
| Dfa.SortNfaStateSet | src/dfa.c:46-48 | sorts the first `count` entries in place and leaves the rest |
| Dfa.AreSetsEqual | src/dfa.c:53-59 | true exactly when the counts and the ids agree position by position |
| Dfa.ExploreDead | src/dfa.c:173-177 | an empty next set leaves the entry dead and counts as explored |
| Dfa.ExploreSet | src/dfa.c:179-189 | setting the entry to the state of the next set, or dead when the cap is reached and no state holds that set, explores it |
| Dfa.AppendState | src/dfa.c:113-114 | appending an unexplored state with a new set keeps the worklist invariant |
| Dfa.Advance | src/dfa.c:145-146 | a fully explored state lets the worklist move on |
| Dfa.NewStateFresh | src/dfa.c:94-110 | the sorted copy of a list the lookup missed makes a valid new state with a set no other state has |
| Dfa.FirstState | src/dfa.c:142 | the start state alone satisfies the worklist invariant |
| Dfa.AppendedKeepsProgress | src/dfa.c:181-186 | finding or creating the target keeps the invariant and every stored set |
| Dfa.Builder.constructor | src/dfa.c:129-134 | an empty DFA and an empty worklist |
| Dfa.Builder.FindDfaStateByNfaSet | src/dfa.c:64-77 | sorts the argument in place and returns the first state whose stored list equals it, or `None` when there is none |
| Dfa.Builder.CreateDfaState | src/dfa.c:82-117 | at 256 states returns `None` and changes nothing; otherwise appends a state with the next id, the sorted copy, an all-dead table and the accepting flag of its members, and queues it |
| Dfa.Builder.FindOrCreate | src/dfa.c:181-186 | the target stands for the argument's set; it is `None` only at the cap and only when no existing state holds that set (the lookup runs first), and then nothing changes; at most one fresh state is appended |
| Dfa.Builder.ExploreChar | src/dfa.c:153-189 | one character of the current state is explored |
| Dfa.Builder.ExploreState | src/dfa.c:150-190 | every printable character of the current state is explored |
| Dfa.Builder.ProcessWorklist | src/dfa.c:145-191 | the head reaches the end of the identity worklist and every state is explored |
| Dfa.HasAcceptingState | src/dfa.c:105-110 | true exactly when some member accepts |
| Dfa.StartClosure | src/dfa.c:138-140 | the start set is the closure of the NFA's start and is not empty |
| Dfa.NfaToDfa | src/dfa.c:122-195 | the result is `Built`: state 0 stands for the start closure, every state has the next id, its sorted set, its accepting flag and a table explored on printable characters, and no two states share a set |
| Dfa.DfaRun | src/dfa.c:200-210 | a table walk that does not die ends in a state of the DFA |
| Dfa.SimulateDfa | src/dfa.c:197-214 | returns true exactly when the table walk ends in an accepting state |
| Dfa.DfaRunDead | src/dfa.c:206-209 | once a dead entry is read, the word is rejected whatever follows |
| Dfa.BuiltWellFormed | src/dfa.c:95-189 | a built DFA has full tables that lead to its own states |
| Dfa.RunAgrees | src/dfa.c:150-189 | the state reached stands for the NFA's active set after the same word; below the cap, dying means the NFA's active set is empty |
| Dfa.DfaSound | src/dfa.c:197-214 | the DFA accepts only words the NFA accepts |
| Dfa.DfaEquivalent | include/dfa.h:44-49 | below the cap, the DFA accepts exactly the printable words the NFA accepts |
| Dfa.TransitionLive | src/dfa.c:150-189 | below the cap, an entry is live exactly when the character is printable and the NFA's next set is not empty |
| Dfa.EntryDead | src/dfa.c:150-189 | whatever the cap did, a printable entry is dead exactly when the next set is empty, or when the cap was reached and no state holds that set |
| Dfa.DistinctSets | src/dfa.c:179-186 | no two DFA states stand for the same set of NFA states |

## Left out

- `main.c` is not part of this model. It is argument handling and console output, and it never calls the builders or the simulators.
- `print_dfa` and the `fprintf`/`perror` diagnostics are output only. The model keeps only their effect on state, which is none.
- Memory management is not modelled, because the arena model does not need it. This covers `free_dfa`, the `free` calls in the builders, and the allocation-failure branches.
- `build_nfa_from_postfix` and `free_nfa` are declared but have no body in the source, so there is nothing to model. So no modelled code ever marks a state accepting; `NfaAccepts` is stated for any arena.
- Pointers become ids, and C `NULL` becomes `None`. A DFA state is referred to by its index in the state list, so aliasing between states is not modelled.
- `qsort` is modelled by its result: a sorted permutation (`SortById`, insertion by id). `SortNfaStateSet` assigns that result in place rather than performing qsort's swaps.
- `simulator.c` line 31 compares the loop index with the pointer `count` instead of `*count`. The model follows the evidently intended duplicate check, as in the correct copy at `src/dfa.c:21`.
- The copy of `add_state_to_set` in `src/dfa.c:19-31` is modelled once, by `Simulator.AddStateToSet`, which `Dfa.StartClosure` and `Dfa.Builder.ExploreChar` call.
- The closure arrays and the operator stack have no bounds checks in C. The 1024-entry buffers appear as the precondition that the NFA has at most 1024 states. Pushes past the operator stack, or while `stack_top` is below -1, are undefined in C. They appear as the outcome `Undefined` and as the precondition `!Shunt(...).Undefined?` of `RegexToPostfix`; `Parser.ShuntDefined` shows balanced input of at most 1024 characters meets it.
- Dfa.SimulateDfa: requires every character to be below 128, because `(int)c` is negative for larger bytes where `char` is signed.
- `isalnum` is modelled in the C locale only (ASCII letters and digits).
- Parser.PreprocessRegex: requires `bufferSize >= 1`. With a smaller size, the C function returns at once for a non-empty pattern. For the empty pattern it writes the terminator at index 0. Neither case is stated.
- Parser.RegexToPostfix: requires `bufferSize >= 1`, since the terminator must fit somewhere.
- Parser.PrecedenceOrder: holds by evaluation alone. It records the precedence table and adds no proof.
- Concrete conversions longer than a few tokens are not stated as examples. `Parser.TokenOperator` and `Parser.TokenClose` state the precedence and grouping behaviour for all inputs.
- Nfa.ConcatReads, Nfa.UnionReads, Nfa.StarReads: state that each fragment reads at least the words of its regular-expression operator. They do not state that it reads no others.
- Dfa.DfaEquivalent: exact only when the construction stayed below 256 states and the word is printable. Beyond the cap, `Dfa.DfaSound` states soundness and `Dfa.EntryDead` states which entries stay live.
- The builders' `ApplyEdit` is total. An edge from a state that does not exist would change nothing, whereas the C code would crash; every caller's precondition rules that case out.
