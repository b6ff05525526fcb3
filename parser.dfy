/// The two text passes in front of the automata (src/parser.c): `preprocess_regex`,
/// which writes the pattern with explicit `.` concatenation operators, and
/// `regex_to_postfix`, the shunting-yard conversion to postfix with an
/// array-backed operator stack.
///
/// Both write into a caller's buffer of `bufferSize` cells through a moving
/// index. Each method is proved against a specification function that
/// follows the same loop character by character: `Expanded` and `StopIndex`
/// for the first, `ShuntPrefix` and `Shunt` for the second.
module Parser {
  /** The terminator of a C string. */
  const NUL: char := '\0'

  /** Capacity of the operator stack of `regex_to_postfix`. */
  const OPERATOR_STACK_SIZE: nat := 1024

  /** `precedence`: union 1, concatenation 2, star 3, anything else 0. */
  function Precedence(op: char): nat
  {
    match op
    case '|' => 1
    case '.' => 2
    case '*' => 3
    case _ => 0
  }

  /** `isalnum` in the C locale: an ASCII letter or digit. */
  predicate IsAlnum(c: char)
  {
    'a' <= c <= 'z' || 'A' <= c <= 'Z' || '0' <= c <= '9'
  }

  /** Star binds tighter than concatenation, which binds tighter than union, and `(`
      binds least of all, so no operator pops past it. */
  lemma PrecedenceOrder(op: char)
    ensures Precedence('(') < Precedence('|') < Precedence('.') < Precedence('*')
    ensures IsAlnum(op) || op == '(' || op == ')' ==> Precedence(op) == 0
  {
  }

  // ---------------------------------------------------------------------------
  // preprocess_regex
  // ---------------------------------------------------------------------------

  /** A `.` goes between `current` and `next` when `current` ends an operand (a letter or
      digit, `)` or `*`) and `next` starts one (a letter or digit, or `(`). */
  predicate NeedsDot(current: char, next: char)
  {
    (IsAlnum(current) || current == ')' || current == '*') && (IsAlnum(next) || next == '(')
  }

  /** What the loop writes for position `i` of `w`: the character, then a `.` when one is
      needed before the next character. */
  ghost function Piece(w: seq<char>, i: nat): seq<char>
    requires i < |w|
  {
    if i + 1 < |w| && NeedsDot(w[i], w[i + 1]) then [w[i], '.'] else [w[i]]
  }

  /** What the loop has written once the first `i` characters are done. */
  ghost function Expanded(w: seq<char>, i: nat): seq<char>
    requires i <= |w|
    decreases i
  {
    if i == 0 then [] else Expanded(w, i - 1) + Piece(w, i - 1)
  }

  /** The whole pattern with its concatenations made explicit. */
  ghost function Expand(w: seq<char>): seq<char>
  {
    Expanded(w, |w|)
  }

  /** The position at or after `i` where the loop stops: the first position whose output
      would start at or past `size - 2`, or the end of `w`. */
  ghost function StopIndex(w: seq<char>, size: int, i: nat): (r: nat)
    requires i <= |w|
    ensures i <= r <= |w|
    ensures r < |w| ==> |Expanded(w, r)| >= size - 2
    ensures forall k :: i <= k < r ==> |Expanded(w, k)| < size - 2
    decreases |w| - i
  {
    if i == |w| || |Expanded(w, i)| >= size - 2 then i else StopIndex(w, size, i + 1)
  }

  /** Each character adds one or two characters of output. */
  lemma {:induction false} ExpandedLength(w: seq<char>, i: nat)
    requires i <= |w|
    ensures i <= |Expanded(w, i)| <= 2 * i
    decreases i
  {
    if i > 0 {
      ExpandedLength(w, i - 1);
    }
  }

  /** What has been written for a shorter prefix is kept when the loop goes on. */
  lemma {:induction false} ExpandedPrefix(w: seq<char>, i: nat, j: nat)
    requires i <= j <= |w|
    ensures Expanded(w, i) <= Expanded(w, j)
    decreases j - i
  {
    if i < j {
      ExpandedPrefix(w, i, j - 1);
    }
  }

  /** Character `w[i]` sits in the output at `|Expanded(w, i)|`, followed by a `.` exactly
      when `NeedsDot` holds of it and the next character, and by the next character
      otherwise; nothing follows the last character. */
  lemma ExpandAt(w: seq<char>, i: nat)
    requires i < |w|
    ensures var p := |Expanded(w, i)|;
      && p < |Expand(w)| && Expand(w)[p] == w[i]
      && (i + 1 < |w| && NeedsDot(w[i], w[i + 1]) ==> p + 1 < |Expand(w)| && Expand(w)[p + 1] == '.')
      && (i + 1 < |w| && !NeedsDot(w[i], w[i + 1]) ==> p + 1 < |Expand(w)| && Expand(w)[p + 1] == w[i + 1])
      && (i + 1 == |w| ==> p + 1 == |Expand(w)|)
  {
    ExpandedPrefix(w, i + 1, |w|);
    var p := |Expanded(w, i)|;
    assert Expanded(w, i + 1) == Expanded(w, i) + Piece(w, i);
    if i + 1 < |w| && !NeedsDot(w[i], w[i + 1]) {
      ExpandedPrefix(w, i + 2, |w|);
      assert Expanded(w, i + 2) == Expanded(w, i + 1) + Piece(w, i + 1);
    }
  }

  /** Which characters a `Filter` keeps. */
  datatype Sieve = NoDots | OperandsOnly | NoParens

  predicate Passes(f: Sieve, x: char)
  {
    match f
    case NoDots => x != '.'
    case OperandsOnly => IsAlnum(x)
    case NoParens => x != '(' && x != ')'
  }

  /** The characters of `w` that `f` keeps, in their order. */
  function Filter(f: Sieve, w: seq<char>): (r: seq<char>)
    ensures forall k :: 0 <= k < |r| ==> Passes(f, r[k])
  {
    if w == [] then []
    else if Passes(f, w[|w| - 1]) then Filter(f, w[..|w| - 1]) + [w[|w| - 1]]
    else Filter(f, w[..|w| - 1])
  }

  lemma {:induction false} FilterAppend(f: Sieve, u: seq<char>, v: seq<char>)
    ensures Filter(f, u + v) == Filter(f, u) + Filter(f, v)
    decreases |v|
  {
    if v != [] {
      var init := v[..|v| - 1];
      assert (u + v)[..|u + v| - 1] == u + init;
      assert (u + v)[|u + v| - 1] == v[|v| - 1];
      FilterAppend(f, u, init);
    } else {
      assert u + v == u;
    }
  }

  /** A sequence all of whose characters pass is its own filter. */
  lemma {:induction false} FilterKeepsAll(f: Sieve, w: seq<char>)
    requires forall k :: 0 <= k < |w| ==> Passes(f, w[k])
    ensures Filter(f, w) == w
    decreases |w|
  {
    if w != [] {
      assert w == w[..|w| - 1] + [w[|w| - 1]];
      FilterKeepsAll(f, w[..|w| - 1]);
    }
  }

  /** A sequence none of whose characters pass filters to nothing. */
  lemma {:induction false} FilterDropsAll(f: Sieve, w: seq<char>)
    requires forall k :: 0 <= k < |w| ==> !Passes(f, w[k])
    ensures Filter(f, w) == []
    decreases |w|
  {
    if w != [] {
      FilterDropsAll(f, w[..|w| - 1]);
    }
  }

  /** Only `.` characters are inserted: removing every `.` from the output leaves exactly the
      input with its own `.` characters removed. */
  lemma {:induction false} ExpandedRemoveDots(w: seq<char>, i: nat)
    requires i <= |w|
    ensures Filter(NoDots, Expanded(w, i)) == Filter(NoDots, w[..i])
    decreases i
  {
    if i > 0 {
      ExpandedRemoveDots(w, i - 1);
      FilterAppend(NoDots, Expanded(w, i - 1), Piece(w, i - 1));
      assert w[..i] == w[..i - 1] + [w[i - 1]];
      FilterAppend(NoDots, w[..i - 1], [w[i - 1]]);
      assert Filter(NoDots, [w[i - 1], '.']) == Filter(NoDots, [w[i - 1]]) by {
        assert [w[i - 1], '.'][..1] == [w[i - 1]];
      }
    }
  }

  /** For a pattern without `.` of its own, removing the inserted `.` characters gives the
      pattern back. */
  lemma ExpandRoundTrip(w: seq<char>)
    requires '.' !in w
    ensures Filter(NoDots, Expand(w)) == w
  {
    ExpandedRemoveDots(w, |w|);
    assert w[..|w|] == w;
    FilterKeepsAll(NoDots, w);
  }

  /** The examples of the header: `ab` becomes `a.b`, and `(a|b)c` becomes `(a|b).c`. */
  lemma ExpandExamples()
    ensures Expand("ab") == "a.b"
    ensures Expand("(a|b)c") == "(a|b).c"
  {
    var w := "(a|b)c";
    assert Expanded(w, 1) == "(";
    assert Expanded(w, 2) == "(a";
    assert Expanded(w, 3) == "(a|";
    assert Expanded(w, 4) == "(a|b";
    assert Expanded(w, 5) == "(a|b).";
    assert Expanded("ab", 1) == "a.";
  }

  /** When the loop runs to the end, the terminator lands inside the buffer. */
  lemma TerminatorFits(w: seq<char>, size: int)
    requires 1 <= size && StopIndex(w, size, 0) == |w|
    ensures |Expand(w)| <= size - 1
  {
    if w != [] {
      var i := |w| - 1;
      assert |Expanded(w, i)| < size - 2;
      assert Expanded(w, |w|) == Expanded(w, i) + Piece(w, i);
    }
  }

  /** A buffer of more than twice the pattern's length never makes the loop stop early. */
  lemma RoomyCompletes(w: seq<char>, size: int)
    requires 2 * |w| < size
    ensures StopIndex(w, size, 0) == |w|
  {
    var r := StopIndex(w, size, 0);
    if r < |w| {
      ExpandedLength(w, r);
    }
  }

  /** One pass of the loop of `preprocess_regex` once the room check has passed: copies
      `regex[i]` to position `j`, then a `.` when the next character needs one. */
  method CopyChar(regex: seq<char>, i: nat, outputBuffer: array<char>, j: nat) returns (next: nat)
    requires i < |regex| && NUL !in regex && j + 2 <= outputBuffer.Length
    modifies outputBuffer
    ensures next == j + |Piece(regex, i)|
    ensures outputBuffer[..next] == old(outputBuffer[..j]) + Piece(regex, i)
    ensures forall k :: next <= k < outputBuffer.Length ==> outputBuffer[k] == old(outputBuffer[k])
  {
    outputBuffer[j] := regex[i];
    next := j + 1;
    var current := regex[i];
    var following := if i + 1 < |regex| then regex[i + 1] else NUL;
    if following != NUL && NeedsDot(current, following) {
      outputBuffer[next] := '.';
      next := next + 1;
    }
  }

  /** `preprocess_regex`: copies the pattern into the buffer, adding a `.` wherever
      `NeedsDot` says, and terminates it. Before each character it stops, without writing
      the terminator, once the output has reached `bufferSize - 2` characters. */
  method PreprocessRegex(regex: seq<char>, outputBuffer: array<char>, bufferSize: int)
    requires NUL !in regex && 1 <= bufferSize <= outputBuffer.Length
    modifies outputBuffer
    ensures var n := StopIndex(regex, bufferSize, 0); var out := Expanded(regex, n);
      && |out| < bufferSize
      && outputBuffer[..|out|] == out
      && (n == |regex| ==> outputBuffer[|out|] == NUL)
      && (forall k :: |out| < k < outputBuffer.Length ==> outputBuffer[k] == old(outputBuffer[k]))
      && (n < |regex| ==> outputBuffer[|out|] == old(outputBuffer[|out|]))
  {
    var j := 0;
    var i := 0;
    while i < |regex|
      invariant i <= |regex| && j == |Expanded(regex, i)| && j < bufferSize
      invariant outputBuffer[..j] == Expanded(regex, i)
      invariant forall k :: j <= k < outputBuffer.Length ==> outputBuffer[k] == old(outputBuffer[k])
      invariant StopIndex(regex, bufferSize, 0) == StopIndex(regex, bufferSize, i)
    {
      if j >= bufferSize - 2 {
        return;
      }
      j := CopyChar(regex, i, outputBuffer, j);
      i := i + 1;
    }
    outputBuffer[j] := NUL;
  }

  // ---------------------------------------------------------------------------
  // regex_to_postfix
  // ---------------------------------------------------------------------------

  /** The state of the conversion: the postfix written so far, the operator stack from
      bottom to top, and how many times `)` has popped an empty stack, which leaves
      `stack_top` that far below -1. */
  datatype Config = Config(out: seq<char>, stack: seq<char>, below: nat)

  /** Where the conversion stands: running (or done) in a configuration; failed because an
      emit found the buffer full (the function returns -1); or undefined in C because a push
      went outside the operator stack. */
  datatype Outcome = Ok(c: Config) | Failed | Undefined

  /** The three pop loops: up to the nearest `(`, while the top binds at least as tightly as
      the incoming operator, and until the stack is empty. */
  datatype PopRule = ToParen | AtLeast(p: nat) | All

  predicate KeepPopping(rule: PopRule, top: char)
  {
    match rule
    case ToParen => top != '('
    case AtLeast(p) => Precedence(top) >= p
    case All => true
  }

  /** The configurations the conversion can be in: a stack is only driven below -1 once it
      is empty, and the postfix leaves room for the terminator. */
  ghost predicate Sane(c: Config, size: nat)
  {
    (c.below > 0 ==> c.stack == []) && |c.out| <= size - 1
  }

  /** Pops operators to the output while the rule says so, failing when the output already
      holds `size - 1` characters. */
  ghost function PopWhile(c: Config, size: nat, rule: PopRule): (r: Outcome)
    ensures r != Undefined
    ensures r.Ok? ==> |r.c.stack| <= |c.stack|
    ensures r.Ok? && Sane(c, size) ==> Sane(r.c, size)
    decreases |c.stack|
  {
    if c.stack != [] && KeepPopping(rule, c.stack[|c.stack| - 1]) then
      if |c.out| >= size - 1 then Failed
      else PopWhile(Config(c.out + [c.stack[|c.stack| - 1]], c.stack[..|c.stack| - 1], c.below), size, rule)
    else Ok(c)
  }

  /** `operator_stack[++stack_top] = x`: undefined once the stack has been driven below -1
      or is full. */
  ghost function Push(c: Config, x: char): Outcome
  {
    if c.below > 0 || |c.stack| >= OPERATOR_STACK_SIZE then Undefined
    else Ok(c.(stack := c.stack + [x]))
  }

  /** `stack_top--` after the loop of a `)`: pops the `(` on top, or goes further below -1
      when the stack is empty. */
  ghost function PopParen(c: Config): Config
  {
    if c.stack != [] then c.(stack := c.stack[..|c.stack| - 1]) else c.(below := c.below + 1)
  }

  /** One token of the infix: an operand goes to the output, `(` is pushed, `)` pops up to
      its `(` and discards it, and any other character pops what binds at least as tightly
      and is then pushed. */
  ghost function Token(c: Config, t: char, size: nat): (r: Outcome)
    ensures r.Ok? && Sane(c, size) ==> Sane(r.c, size)
  {
    if IsAlnum(t) then
      if |c.out| >= size - 1 then Failed else Ok(c.(out := c.out + [t]))
    else if t == '(' then
      Push(c, t)
    else if t == ')' then
      match PopWhile(c, size, ToParen)
      case Ok(c1) => Ok(PopParen(c1))
      case other => other
    else
      match PopWhile(c, size, AtLeast(Precedence(t)))
      case Ok(c1) => Push(c1, t)
      case other => other
  }

  /** The conversion after the first `i` tokens of `w`. */
  ghost function ShuntPrefix(w: seq<char>, size: nat, i: nat): (r: Outcome)
    requires i <= |w|
    ensures r.Ok? && 1 <= size ==> Sane(r.c, size)
    decreases i
  {
    if i == 0 then Ok(Config([], [], 0))
    else
      match ShuntPrefix(w, size, i - 1)
      case Ok(c) => Token(c, w[i - 1], size)
      case other => other
  }

  /** The whole conversion: every token, then the remaining operators popped to the output. */
  ghost function Shunt(w: seq<char>, size: nat): Outcome
  {
    match ShuntPrefix(w, size, |w|)
    case Ok(c) => PopWhile(c, size, All)
    case other => other
  }

  /** Once the conversion has failed or become undefined it stays so. */
  lemma {:induction false} ShuntStuck(w: seq<char>, size: nat, i: nat, j: nat)
    requires i <= j <= |w| && !ShuntPrefix(w, size, i).Ok?
    ensures ShuntPrefix(w, size, j) == ShuntPrefix(w, size, i)
    decreases j - i
  {
    if i < j {
      ShuntStuck(w, size, i, j - 1);
    }
  }

  /** A failed or undefined prefix decides the whole conversion. */
  lemma ShuntStuckFinal(w: seq<char>, size: nat, i: nat)
    requires i <= |w| && !ShuntPrefix(w, size, i).Ok?
    ensures Shunt(w, size) == ShuntPrefix(w, size, i)
  {
    ShuntStuck(w, size, i, |w|);
  }

  /** What a pop loop leaves on the stack: a prefix of it, whose top (if any) is an entry
      the rule keeps, every entry above which the rule pops; it never changes how far the
      stack is below -1. */
  lemma {:induction false} PopWhileStack(c: Config, size: nat, rule: PopRule)
    requires PopWhile(c, size, rule).Ok?
    ensures var d := PopWhile(c, size, rule).c;
      && d.below == c.below && |d.stack| <= |c.stack| && d.stack == c.stack[..|d.stack|]
      && (d.stack != [] ==> !KeepPopping(rule, d.stack[|d.stack| - 1]))
      && (forall k :: |d.stack| <= k < |c.stack| ==> KeepPopping(rule, c.stack[k]))
    decreases |c.stack|
  {
    if c.stack != [] && KeepPopping(rule, c.stack[|c.stack| - 1]) {
      var n := |c.stack| - 1;
      var c1 := Config(c.out + [c.stack[n]], c.stack[..n], c.below);
      PopWhileStack(c1, size, rule);
      var d := PopWhile(c1, size, rule).c;
      assert c1.stack[..|d.stack|] == c.stack[..|d.stack|];
      forall k | |d.stack| <= k < |c.stack|
        ensures KeepPopping(rule, c.stack[k])
      {
        if k < n {
          assert c.stack[k] == c1.stack[k];
        }
      }
    }
  }

  /** What a pop loop writes: the popped entries, from the top down. */
  lemma {:induction false} PopWhileOut(c: Config, size: nat, rule: PopRule)
    requires PopWhile(c, size, rule).Ok?
    ensures var d := PopWhile(c, size, rule).c;
      |d.stack| <= |c.stack| && d.out == c.out + Reversed(c.stack[|d.stack|..])
    decreases |c.stack|
  {
    if c.stack != [] && KeepPopping(rule, c.stack[|c.stack| - 1]) {
      var n := |c.stack| - 1;
      var top := c.stack[n];
      var c1 := Config(c.out + [top], c.stack[..n], c.below);
      var d := PopWhile(c1, size, rule).c;
      assert PopWhile(c, size, rule) == PopWhile(c1, size, rule);
      var popped := c1.stack[|d.stack|..];
      assert d.out == c.out + ([top] + Reversed(popped)) by {
        PopWhileOut(c1, size, rule);
      }
      assert Reversed(c.stack[|d.stack|..]) == [top] + Reversed(popped) by {
        assert c.stack[|d.stack|..] == popped + [top];
        assert (popped + [top])[..|popped|] == popped;
      }
    } else {
      assert c.stack[|c.stack|..] == [];
    }
  }

  /** `s` from its last entry to its first. */
  function Reversed(s: seq<char>): (r: seq<char>)
    ensures |r| == |s|
  {
    if s == [] then [] else [s[|s| - 1]] + Reversed(s[..|s| - 1])
  }

  /** The entries of `Reversed(s)` are those of `s`, last first. */
  lemma {:induction false} ReversedAt(s: seq<char>)
    ensures forall k :: 0 <= k < |s| ==> Reversed(s)[k] == s[|s| - 1 - k]
    decreases |s|
  {
    if s != [] {
      ReversedAt(s[..|s| - 1]);
    }
  }

  /** Reversing keeps every entry with its number of occurrences. */
  lemma {:induction false} ReversedBag(s: seq<char>)
    ensures multiset(Reversed(s)) == multiset(s)
    decreases |s|
  {
    if s != [] {
      ReversedBag(s[..|s| - 1]);
      assert s == s[..|s| - 1] + [s[|s| - 1]];
    }
  }

  /** A pop loop splits the stack into what stays and what it pops, and writes the popped
      entries from the top down. */
  lemma PopMoves(c: Config, size: nat, rule: PopRule)
    requires PopWhile(c, size, rule).Ok?
    ensures var d := PopWhile(c, size, rule).c; var popped := c.stack[|d.stack|..];
      && c.stack == d.stack + popped && d.out == c.out + Reversed(popped) && d.below == c.below
      && (forall k :: 0 <= k < |popped| ==> KeepPopping(rule, popped[k]))
      && (d.stack != [] ==> !KeepPopping(rule, d.stack[|d.stack| - 1]))
  {
    PopWhileStack(c, size, rule);
    PopWhileOut(c, size, rule);
    var d := PopWhile(c, size, rule).c;
    var popped := c.stack[|d.stack|..];
    assert c.stack == d.stack + popped;
    forall k | 0 <= k < |popped|
      ensures KeepPopping(rule, popped[k])
    {
      assert popped[k] == c.stack[|d.stack| + k];
    }
  }

  // ---------------------------------------------------------------------------
  // What the conversion does, token by token and as a whole.
  // ---------------------------------------------------------------------------

  /** An operator token pops to the output, top first, every stacked entry that binds at
      least as tightly and stops below the first that binds less tightly; it is then pushed.
      So equal precedence associates to the left, and `(`, which binds least, is a barrier. */
  lemma TokenOperator(c: Config, t: char, size: nat)
    requires !IsAlnum(t) && t != '(' && t != ')' && Token(c, t, size).Ok?
    ensures var d := Token(c, t, size).c; var m := |d.stack| - 1;
      && 0 <= m <= |c.stack| && d.stack == c.stack[..m] + [t] && d.below == 0
      && d.out == c.out + Reversed(c.stack[m..])
      && (forall k :: m <= k < |c.stack| ==> Precedence(c.stack[k]) >= Precedence(t))
      && (m > 0 ==> Precedence(c.stack[m - 1]) < Precedence(t))
  {
    var rule := AtLeast(Precedence(t));
    PopMoves(c, size, rule);
    var c1 := PopWhile(c, size, rule).c;
    assert c1.stack == c.stack[..|c1.stack|];
    var popped := c.stack[|c1.stack|..];
    forall k | |c1.stack| <= k < |c.stack|
      ensures Precedence(c.stack[k]) >= Precedence(t)
    {
      assert c.stack[k] == popped[k - |c1.stack|];
    }
  }

  /** A `)` pops to the output, top first, every entry above the nearest `(`, and discards
      that `(`; with no `(` on the stack it pops everything and drives the stack one further
      below -1. */
  lemma TokenClose(c: Config, size: nat)
    requires Token(c, ')', size).Ok?
    ensures var d := Token(c, ')', size).c; var m := |PopWhile(c, size, ToParen).c.stack|;
      && m <= |c.stack| && d.out == c.out + Reversed(c.stack[m..])
      && (forall k :: m <= k < |c.stack| ==> c.stack[k] != '(')
      && (m > 0 ==> c.stack[m - 1] == '(' && d.stack == c.stack[..m - 1] && d.below == c.below)
      && (m == 0 ==> d.stack == [] && d.below == c.below + 1)
  {
    var c1 := PopWhile(c, size, ToParen).c;
    assert Token(c, ')', size) == Ok(PopParen(c1));
    PopMoves(c, size, ToParen);
    PopParenSplit(c, c1);
  }

  /** The stack arithmetic behind `TokenClose`, apart from the pop loop itself. */
  lemma PopParenSplit(c: Config, c1: Config)
    requires |c1.stack| <= |c.stack|
    requires c.stack == c1.stack + c.stack[|c1.stack|..] && c1.below == c.below
    requires forall k :: 0 <= k < |c.stack[|c1.stack|..]| ==> KeepPopping(ToParen, c.stack[|c1.stack|..][k])
    requires c1.stack != [] ==> !KeepPopping(ToParen, c1.stack[|c1.stack| - 1])
    ensures var d, m := PopParen(c1), |c1.stack|;
      && (forall k :: m <= k < |c.stack| ==> c.stack[k] != '(')
      && (m > 0 ==> c.stack[m - 1] == '(' && d.stack == c.stack[..m - 1] && d.below == c.below)
      && (m == 0 ==> d.stack == [] && d.below == c.below + 1)
  {
    var m := |c1.stack|;
    var popped := c.stack[m..];
    forall k | m <= k < |c.stack|
      ensures c.stack[k] != '('
    {
      assert c.stack[k] == popped[k - m];
    }
    if m > 0 {
      assert c1.stack == c.stack[..m];
      assert c1.stack[..m - 1] == c.stack[..m - 1];
    }
  }


  /** A completed conversion has emptied the operator stack and left room for the
      terminator. */
  lemma ShuntDone(w: seq<char>, size: nat)
    requires 1 <= size && Shunt(w, size).Ok?
    ensures Shunt(w, size).c.stack == [] && |Shunt(w, size).c.out| <= size - 1
  {
    PopMoves(ShuntPrefix(w, size, |w|).c, size, All);
  }

  /** A pop loop cannot fail while the output and the stack together leave room. */
  lemma {:induction false} PopRoomy(c: Config, size: nat, rule: PopRule)
    requires |c.out| + |c.stack| <= size - 1
    ensures PopWhile(c, size, rule).Ok?
    decreases |c.stack|
  {
    if c.stack != [] && KeepPopping(rule, c.stack[|c.stack| - 1]) {
      PopRoomy(Config(c.out + [c.stack[|c.stack| - 1]], c.stack[..|c.stack| - 1], c.below), size, rule);
    }
  }

  /** Every token adds at most one entry to the output and the stack together, so after `i`
      tokens they hold at most `i`, and a buffer longer than the infix never fills. */
  lemma {:induction false} ShuntPrefixRoomy(w: seq<char>, size: nat, i: nat)
    requires i <= |w| && |w| < size
    ensures !ShuntPrefix(w, size, i).Failed?
    ensures ShuntPrefix(w, size, i).Ok? ==> |ShuntPrefix(w, size, i).c.out| + |ShuntPrefix(w, size, i).c.stack| <= i
    decreases i
  {
    if i > 0 {
      ShuntPrefixRoomy(w, size, i - 1);
      var prev := ShuntPrefix(w, size, i - 1);
      if prev.Ok? {
        var c, t := prev.c, w[i - 1];
        if !IsAlnum(t) && t != '(' {
          var rule := if t == ')' then ToParen else AtLeast(Precedence(t));
          PopRoomy(c, size, rule);
          PopMoves(c, size, rule);
        }
      }
    }
  }

  /** A buffer longer than the infix is never reported full. */
  lemma RoomyNeverFails(w: seq<char>, size: nat)
    requires |w| < size
    ensures !Shunt(w, size).Failed?
  {
    ShuntPrefixRoomy(w, size, |w|);
    var p := ShuntPrefix(w, size, |w|);
    if p.Ok? {
      PopRoomy(p.c, size, All);
    }
  }

  /** A pop loop over a stack of operators only adds operators to the output and leaves
      operators only on the stack. */
  lemma PopOperands(c: Config, size: nat, rule: PopRule)
    requires PopWhile(c, size, rule).Ok? && forall k :: 0 <= k < |c.stack| ==> !IsAlnum(c.stack[k])
    ensures var d := PopWhile(c, size, rule).c;
      && Filter(OperandsOnly, d.out) == Filter(OperandsOnly, c.out)
      && forall k :: 0 <= k < |d.stack| ==> !IsAlnum(d.stack[k])
  {
    PopMoves(c, size, rule);
    var d := PopWhile(c, size, rule).c;
    MovedOperators(c.out, d.stack, c.stack[|d.stack|..]);
  }

  /** Moving operators from a stack to the output, in any order, changes no operand. */
  lemma MovedOperators(out: seq<char>, kept: seq<char>, popped: seq<char>)
    requires forall k :: 0 <= k < |kept + popped| ==> !IsAlnum((kept + popped)[k])
    ensures Filter(OperandsOnly, out + Reversed(popped)) == Filter(OperandsOnly, out)
    ensures forall k :: 0 <= k < |kept| ==> !IsAlnum(kept[k])
  {
    assert forall k :: 0 <= k < |popped| ==> popped[k] == (kept + popped)[|kept| + k];
    assert forall k :: 0 <= k < |kept| ==> kept[k] == (kept + popped)[k];
    ReversedAt(popped);
    FilterDropsAll(OperandsOnly, Reversed(popped));
    FilterAppend(OperandsOnly, out, Reversed(popped));
  }


  /** Operands pass straight to the output and only operators are stacked, so the operands
      of the output after each token are those of the infix so far, in order. */
  lemma TokenOperands(c: Config, t: char, size: nat)
    requires Token(c, t, size).Ok? && forall k :: 0 <= k < |c.stack| ==> !IsAlnum(c.stack[k])
    ensures var d := Token(c, t, size).c;
      && Filter(OperandsOnly, d.out) == Filter(OperandsOnly, c.out) + Filter(OperandsOnly, [t])
      && forall k :: 0 <= k < |d.stack| ==> !IsAlnum(d.stack[k])
  {
    if IsAlnum(t) {
      FilterAppend(OperandsOnly, c.out, [t]);
    } else {
      assert Filter(OperandsOnly, [t]) == [] by {
        FilterDropsAll(OperandsOnly, [t]);
      }
      if t == ')' {
        PopOperands(c, size, ToParen);
      } else if t != '(' {
        PopOperands(c, size, AtLeast(Precedence(t)));
      }
    }
  }

  lemma {:induction false} ShuntPrefixOperands(w: seq<char>, size: nat, i: nat)
    requires i <= |w| && ShuntPrefix(w, size, i).Ok?
    ensures var c := ShuntPrefix(w, size, i).c;
      && Filter(OperandsOnly, c.out) == Filter(OperandsOnly, w[..i])
      && forall k :: 0 <= k < |c.stack| ==> !IsAlnum(c.stack[k])
    decreases i
  {
    if i > 0 {
      var prev := ShuntPrefix(w, size, i - 1);
      ShuntPrefixOperands(w, size, i - 1);
      TokenOperands(prev.c, w[i - 1], size);
      assert w[..i] == w[..i - 1] + [w[i - 1]];
      FilterAppend(OperandsOnly, w[..i - 1], [w[i - 1]]);
    } else {
      assert w[..0] == [];
    }
  }

  /** The operands of a completed postfix are those of the infix, in the same order. */
  lemma PostfixOperands(w: seq<char>, size: nat)
    requires Shunt(w, size).Ok?
    ensures Filter(OperandsOnly, Shunt(w, size).c.out) == Filter(OperandsOnly, w)
  {
    var c := ShuntPrefix(w, size, |w|).c;
    ShuntPrefixOperands(w, size, |w|);
    assert w[..|w|] == w;
    PopOperands(c, size, All);
  }

  /** The characters a regular expression is written in: operands, parentheses and the
      three operators. */
  predicate RegexChar(x: char)
  {
    IsAlnum(x) || x == '(' || x == ')' || x == '|' || x == '.' || x == '*'
  }

  /** How often `x` occurs in `s`. */
  function Count(s: seq<char>, x: char): nat
  {
    if s == [] then 0 else Count(s[..|s| - 1], x) + (if s[|s| - 1] == x then 1 else 0)
  }

  lemma {:induction false} CountAppend(u: seq<char>, v: seq<char>, x: char)
    ensures Count(u + v, x) == Count(u, x) + Count(v, x)
    decreases |v|
  {
    if v != [] {
      assert (u + v)[..|u + v| - 1] == u + v[..|v| - 1];
      CountAppend(u, v[..|v| - 1], x);
    } else {
      assert u + v == u;
    }
  }

  /** `x` occurs in `s` exactly when it is counted there. */
  lemma {:induction false} CountZero(s: seq<char>, x: char)
    ensures Count(s, x) == 0 <==> forall k :: 0 <= k < |s| ==> s[k] != x
    decreases |s|
  {
    if s != [] {
      CountZero(s[..|s| - 1], x);
      assert forall k :: 0 <= k < |s| - 1 ==> s[..|s| - 1][k] == s[k];
    }
  }

  /** How many groups are open after reading `s`. */
  function Depth(s: seq<char>): int
  {
    Count(s, '(') - Count(s, ')')
  }

  /** No prefix of `w` closes more groups than it opened, and `w` closes them all. */
  ghost predicate Balanced(w: seq<char>)
  {
    (forall i :: 0 <= i <= |w| ==> Depth(w[..i]) >= 0) && Depth(w) == 0
  }

  ghost predicate ParenFree(s: seq<char>)
  {
    forall k :: 0 <= k < |s| ==> s[k] != '(' && s[k] != ')'
  }

  /** Output and stack together hold the parenthesis-free characters of `consumed`. */
  ghost predicate Bag(c: Config, consumed: seq<char>)
  {
    multiset(c.out) + multiset(Filter(NoParens, c.stack)) == multiset(Filter(NoParens, consumed))
  }

  /** How the conversion of balanced input stands after reading `consumed`: the output has no
      parentheses, the stack holds one `(` per open group and no `)`, and output and stack
      together hold the parenthesis-free characters read. */
  ghost predicate Tracks(c: Config, consumed: seq<char>)
  {
    && c.below == 0 && ParenFree(c.out)
    && (forall k :: 0 <= k < |c.stack| ==> c.stack[k] != ')')
    && Count(c.stack, '(') == Depth(consumed)
    && Bag(c, consumed)
  }

  /** Moving parenthesis-free entries from the stack to the output keeps the bag. */
  lemma BagMoved(out: seq<char>, kept: seq<char>, popped: seq<char>, consumed: seq<char>)
    requires Bag(Config(out, kept + popped, 0), consumed) && ParenFree(popped)
    ensures Bag(Config(out + Reversed(popped), kept, 0), consumed)
  {
    FilterAppend(NoParens, kept, popped);
    FilterKeepsAll(NoParens, popped);
    ReversedBag(popped);
  }

  /** Moving parenthesis-free entries from the top of the stack to the output keeps `Tracks`. */
  lemma MovedTracks(out: seq<char>, kept: seq<char>, popped: seq<char>, consumed: seq<char>)
    requires Tracks(Config(out, kept + popped, 0), consumed) && ParenFree(popped)
    ensures Tracks(Config(out + Reversed(popped), kept, 0), consumed)
  {
    assert forall k :: 0 <= k < |kept| ==> kept[k] == (kept + popped)[k];
    assert Count(popped, '(') == 0 by {
      CountZero(popped, '(');
    }
    CountAppend(kept, popped, '(');
    BagMoved(out, kept, popped, consumed);
    assert ParenFree(out + Reversed(popped)) by {
      ReversedAt(popped);
    }
  }

  /** A pop loop that only pops parenthesis-free entries keeps `Tracks`. */
  lemma PopTracks(c: Config, size: nat, rule: PopRule, consumed: seq<char>)
    requires Tracks(c, consumed) && PopWhile(c, size, rule).Ok?
    requires rule == ToParen || (rule == All && Count(c.stack, '(') == 0) || (rule.AtLeast? && rule.p >= 1)
    ensures Tracks(PopWhile(c, size, rule).c, consumed)
  {
    PopMoves(c, size, rule);
    var d := PopWhile(c, size, rule).c;
    var popped := c.stack[|d.stack|..];
    assert ParenFree(popped) by {
      PoppedParenFree(c.stack, |d.stack|, rule);
    }
    assert c == Config(c.out, d.stack + popped, 0);
    MovedTracks(c.out, d.stack, popped, consumed);
    assert d == Config(c.out + Reversed(popped), d.stack, 0);
  }

  /** What the rules other than `All` pop from a stack without `)` holds no parenthesis, and
      neither does anything popped from a stack without `(`. */
  lemma PoppedParenFree(stack: seq<char>, m: nat, rule: PopRule)
    requires m <= |stack| && forall k :: m <= k < |stack| ==> KeepPopping(rule, stack[k])
    requires forall k :: 0 <= k < |stack| ==> stack[k] != ')'
    requires rule == ToParen || (rule == All && Count(stack, '(') == 0) || (rule.AtLeast? && rule.p >= 1)
    ensures ParenFree(stack[m..])
  {
    if rule == All {
      CountZero(stack, '(');
    }
    forall k | 0 <= k < |stack[m..]|
      ensures stack[m..][k] != '(' && stack[m..][k] != ')'
    {
      assert stack[m..][k] == stack[m + k];
      assert KeepPopping(rule, stack[m + k]);
    }
  }

  /** Reading a parenthesis-free character into the output or onto the stack keeps the bag,
      and so does reading `(` onto the stack. */
  lemma BagRead(out: seq<char>, stack: seq<char>, consumed: seq<char>, t: char)
    requires Bag(Config(out, stack, 0), consumed)
    ensures t != '(' && t != ')' ==> Bag(Config(out + [t], stack, 0), consumed + [t])
    ensures t != '(' && t != ')' ==> Bag(Config(out, stack + [t], 0), consumed + [t])
    ensures t == '(' ==> Bag(Config(out, stack + [t], 0), consumed + [t])
  {
    FilterAppend(NoParens, consumed, [t]);
    FilterAppend(NoParens, stack, [t]);
    if t == '(' || t == ')' {
      assert Filter(NoParens, [t]) == [];
    } else {
      assert Filter(NoParens, [t]) == [t];
    }
  }

  /** Discarding a `(` from the stack as `)` is read keeps the bag. */
  lemma BagClose(out: seq<char>, stack: seq<char>, consumed: seq<char>)
    requires Bag(Config(out, stack + ['('], 0), consumed)
    ensures Bag(Config(out, stack, 0), consumed + [')'])
  {
    FilterAppend(NoParens, consumed, [')']);
    FilterAppend(NoParens, stack, ['(']);
    assert Filter(NoParens, ['(']) == [];
    assert Filter(NoParens, [')']) == [];
  }

  /** An operand is written to the output. */
  lemma OperandTracks(c: Config, t: char, size: nat, consumed: seq<char>)
    requires Tracks(c, consumed) && IsAlnum(t) && Token(c, t, size).Ok?
    ensures Tracks(Token(c, t, size).c, consumed + [t])
  {
    var d := Token(c, t, size).c;
    assert d == Config(c.out + [t], c.stack, 0);
    assert Depth(consumed + [t]) == Depth(consumed) by {
      CountAppend(consumed, [t], '(');
      CountAppend(consumed, [t], ')');
    }
    assert ParenFree(d.out) by {
      assert forall k :: 0 <= k < |c.out| ==> d.out[k] == c.out[k];
    }
    BagRead(c.out, c.stack, consumed, t);
  }

  /** `(` is pushed and opens one more group. */
  lemma OpenTracks(c: Config, size: nat, consumed: seq<char>)
    requires Tracks(c, consumed) && Token(c, '(', size).Ok?
    ensures Tracks(Token(c, '(', size).c, consumed + ['('])
  {
    var d := Token(c, '(', size).c;
    assert d == Config(c.out, c.stack + ['('], 0);
    assert Depth(consumed + ['(']) == Depth(consumed) + 1 by {
      CountAppend(consumed, ['('], '(');
      CountAppend(consumed, ['('], ')');
    }
    assert Count(d.stack, '(') == Count(c.stack, '(') + 1 by {
      CountAppend(c.stack, ['('], '(');
    }
    assert forall k :: 0 <= k < |c.stack| ==> d.stack[k] == c.stack[k];
    BagRead(c.out, c.stack, consumed, '(');
  }

  /** `)` of a balanced prefix finds its `(` on top of the stack once the loop has popped the
      operators above it, and closes one group. */
  lemma CloseTracks(c: Config, size: nat, consumed: seq<char>)
    requires Tracks(c, consumed) && Depth(consumed + [')']) >= 0 && Token(c, ')', size).Ok?
    ensures Tracks(Token(c, ')', size).c, consumed + [')'])
  {
    PopTracks(c, size, ToParen, consumed);
    var c1 := PopWhile(c, size, ToParen).c;
    assert c1.stack != [] ==> c1.stack[|c1.stack| - 1] == '(' by {
      PopMoves(c, size, ToParen);
    }
    CountAppend(consumed, [')'], '(');
    CountAppend(consumed, [')'], ')');
    assert c1.stack != [];
    var n := |c1.stack| - 1;
    ParenPopped(c1, consumed);
  }

  /** Discarding the `(` on top of a tracked stack closes one group. */
  lemma ParenPopped(c1: Config, consumed: seq<char>)
    requires Tracks(c1, consumed) && c1.stack != [] && c1.stack[|c1.stack| - 1] == '('
    ensures Tracks(PopParen(c1), consumed + [')'])
  {
    var n := |c1.stack| - 1;
    assert c1.stack == c1.stack[..n] + ['('];
    assert forall k :: 0 <= k < n ==> c1.stack[..n][k] == c1.stack[k];
    CountAppend(c1.stack[..n], ['('], '(');
    CountAppend(consumed, [')'], '(');
    CountAppend(consumed, [')'], ')');
    BagClose(c1.out, c1.stack[..n], consumed);
  }

  /** An operator pops what binds at least as tightly, which is never `(`, and is pushed. */
  lemma OperatorTracks(c: Config, t: char, size: nat, consumed: seq<char>)
    requires Tracks(c, consumed) && (t == '|' || t == '.' || t == '*') && Token(c, t, size).Ok?
    ensures Tracks(Token(c, t, size).c, consumed + [t])
  {
    PopTracks(c, size, AtLeast(Precedence(t)), consumed);
    var c1 := PopWhile(c, size, AtLeast(Precedence(t))).c;
    assert Token(c, t, size) == Push(c1, t);
    Pushed(c1, t, consumed);
  }

  /** Pushing an operator reads it into the stack. */
  lemma Pushed(c1: Config, t: char, consumed: seq<char>)
    requires Tracks(c1, consumed) && (t == '|' || t == '.' || t == '*') && Push(c1, t).Ok?
    ensures Tracks(Push(c1, t).c, consumed + [t])
  {
    var d := Push(c1, t).c;
    assert d == Config(c1.out, c1.stack + [t], 0);
    assert Depth(consumed + [t]) == Depth(consumed) by {
      CountAppend(consumed, [t], '(');
      CountAppend(consumed, [t], ')');
    }
    assert Count(d.stack, '(') == Count(c1.stack, '(') by {
      CountAppend(c1.stack, [t], '(');
    }
    assert forall k :: 0 <= k < |c1.stack| ==> d.stack[k] == c1.stack[k];
    BagRead(c1.out, c1.stack, consumed, t);
  }

  lemma TokenTracks(c: Config, t: char, size: nat, consumed: seq<char>)
    requires Tracks(c, consumed) && RegexChar(t) && Depth(consumed + [t]) >= 0 && Token(c, t, size).Ok?
    ensures Tracks(Token(c, t, size).c, consumed + [t])
  {
    if IsAlnum(t) {
      OperandTracks(c, t, size, consumed);
    } else if t == '(' {
      OpenTracks(c, size, consumed);
    } else if t == ')' {
      CloseTracks(c, size, consumed);
    } else {
      OperatorTracks(c, t, size, consumed);
    }
  }

  lemma {:induction false} ShuntPrefixTracks(w: seq<char>, size: nat, i: nat)
    requires i <= |w| && (forall k :: 0 <= k < |w| ==> RegexChar(w[k])) && Balanced(w)
    requires ShuntPrefix(w, size, i).Ok?
    ensures Tracks(ShuntPrefix(w, size, i).c, w[..i])
    decreases i
  {
    if i > 0 {
      ShuntPrefixTracks(w, size, i - 1);
      assert w[..i] == w[..i - 1] + [w[i - 1]];
      TokenTracks(ShuntPrefix(w, size, i - 1).c, w[i - 1], size, w[..i - 1]);
    } else {
      assert w[..0] == [];
    }
  }

  /** For a balanced regular expression the postfix has no parentheses and holds exactly the
      other characters of the infix, each as often. */
  lemma PostfixBalanced(w: seq<char>, size: nat)
    requires (forall k :: 0 <= k < |w| ==> RegexChar(w[k])) && Balanced(w)
    requires Shunt(w, size).Ok?
    ensures ParenFree(Shunt(w, size).c.out)
    ensures multiset(Shunt(w, size).c.out) == multiset(Filter(NoParens, w))
  {
    var c := ShuntPrefix(w, size, |w|).c;
    ShuntPrefixTracks(w, size, |w|);
    assert w[..|w|] == w;
    PopTracks(c, size, All, w);
    PopMoves(c, size, All);
    assert Filter(NoParens, []) == [];
  }

  /** The stack never holds more entries than tokens read. */
  lemma {:induction false} ShuntPrefixStack(w: seq<char>, size: nat, i: nat)
    requires i <= |w| && ShuntPrefix(w, size, i).Ok?
    ensures |ShuntPrefix(w, size, i).c.stack| <= i
    decreases i
  {
    if i > 0 {
      ShuntPrefixStack(w, size, i - 1);
    }
  }

  /** A balanced regular expression of at most `OPERATOR_STACK_SIZE` characters never pushes
      outside the operator stack, so it meets the precondition of `RegexToPostfix`. */
  lemma {:induction false} BalancedDefined(w: seq<char>, size: nat, i: nat)
    requires i <= |w| <= OPERATOR_STACK_SIZE
    requires (forall k :: 0 <= k < |w| ==> RegexChar(w[k])) && Balanced(w)
    ensures !ShuntPrefix(w, size, i).Undefined?
    decreases i
  {
    if i > 0 {
      BalancedDefined(w, size, i - 1);
      var prev := ShuntPrefix(w, size, i - 1);
      if prev.Ok? {
        ShuntPrefixTracks(w, size, i - 1);
        ShuntPrefixStack(w, size, i - 1);
        var t := w[i - 1];
        if !IsAlnum(t) && t != '(' && t != ')' && PopWhile(prev.c, size, AtLeast(Precedence(t))).Ok? {
          PopMoves(prev.c, size, AtLeast(Precedence(t)));
        }
      }
    }
  }

  lemma ShuntDefined(w: seq<char>, size: nat)
    requires |w| <= OPERATOR_STACK_SIZE
    requires (forall k :: 0 <= k < |w| ==> RegexChar(w[k])) && Balanced(w)
    ensures !Shunt(w, size).Undefined?
  {
    BalancedDefined(w, size, |w|);
  }

  /** Worked conversions of unbalanced input: an unmatched `)` is dropped and leaves the
      stack below -1; an unmatched `(` reaches the output. */
  lemma ShuntUnbalancedExamples()
    ensures Shunt("a)", 10) == Ok(Config("a", [], 1))
    ensures Shunt("(a", 10) == Ok(Config("a(", [], 0))
  {
    assert ShuntPrefix("a)", 10, 1) == Ok(Config("a", "", 0));
    assert ShuntPrefix("a)", 10, 2) == Ok(Config("a", "", 1));
    assert ShuntPrefix("(a", 10, 1) == Ok(Config("", "(", 0));
    assert ShuntPrefix("(a", 10, 2) == Ok(Config("a", "(", 0));
  }

  /** Worked conversion: with a buffer of 3, `a` and `b` are emitted and `.` is pushed; the
      final pop of `.` finds two characters written and fails. */
  lemma ShuntFullExample()
    ensures Shunt("a.b", 3) == Failed
  {
    var w := "a.b";
    assert ShuntPrefix(w, 3, 1) == Ok(Config("a", "", 0));
    assert ShuntPrefix(w, 3, 2) == Ok(Config("a", ".", 0));
    assert ShuntPrefix(w, 3, 3) == Ok(Config("ab", ".", 0));
  }

  /** A conversion that is not undefined as a whole is not undefined after any prefix. */
  lemma NotUndefined(w: seq<char>, size: nat, i: nat)
    requires i <= |w| && !Shunt(w, size).Undefined?
    ensures !ShuntPrefix(w, size, i).Undefined?
  {
    if ShuntPrefix(w, size, i).Undefined? {
      ShuntStuckFinal(w, size, i);
    }
  }

  /** The arrays of `regex_to_postfix` hold configuration `c`: `postfix[0 .. postfix_idx)`
      is the output, `operator_stack[0 .. stack_top]` the stack, and `stack_top` is as far
      below -1 as `)` has driven it. */
  ghost predicate Mirrors(c: Config, operatorStack: array<char>, stackTop: int, postfix: array<char>, postfixIdx: int)
    reads operatorStack, postfix
  {
    && postfixIdx == |c.out| && |c.out| <= postfix.Length && postfix[..postfixIdx] == c.out
    && |c.stack| <= operatorStack.Length && operatorStack[..|c.stack|] == c.stack
    && stackTop == |c.stack| - 1 - c.below
    && (c.below > 0 ==> c.stack == [])
  }

  /** The pop loops of `regex_to_postfix`: while the stack is not empty and the rule says so,
      moves the top operator to the output, returning -1 when the output is full. */
  method PopOperators(rule: PopRule, operatorStack: array<char>, stackTop: int, postfix: array<char>,
                      postfixIdx: int, bufferSize: nat, ghost c: Config)
    returns (top: int, idx: int, failed: bool)
    requires operatorStack != postfix && bufferSize <= postfix.Length
    requires Mirrors(c, operatorStack, stackTop, postfix, postfixIdx) && Sane(c, bufferSize)
    modifies postfix
    ensures failed <==> PopWhile(c, bufferSize, rule).Failed?
    ensures !failed ==> Mirrors(PopWhile(c, bufferSize, rule).c, operatorStack, top, postfix, idx)
    ensures forall k :: bufferSize <= k < postfix.Length ==> postfix[k] == old(postfix[k])
  {
    top, idx := stackTop, postfixIdx;
    ghost var cur := c;
    while top > -1 && KeepPopping(rule, operatorStack[top])
      invariant Mirrors(cur, operatorStack, top, postfix, idx) && Sane(cur, bufferSize)
      invariant PopWhile(c, bufferSize, rule) == PopWhile(cur, bufferSize, rule)
      invariant forall k :: bufferSize <= k < postfix.Length ==> postfix[k] == old(postfix[k])
      decreases top
    {
      if idx >= bufferSize - 1 {
        return top, idx, true;
      }
      var n := |cur.stack| - 1;
      assert operatorStack[top] == cur.stack[n];
      postfix[idx] := operatorStack[top];
      idx := idx + 1;
      top := top - 1;
      cur := Config(cur.out + [cur.stack[n]], cur.stack[..n], cur.below);
      assert operatorStack[..|cur.stack|] == cur.stack;
    }
    failed := false;
  }

  /** The branch of `regex_to_postfix` for `)`: pops up to the nearest `(`, then moves
      `stack_top` down past it. */
  method CloseGroup(operatorStack: array<char>, stackTop: int, postfix: array<char>,
                    postfixIdx: int, bufferSize: nat, ghost c: Config)
    returns (top: int, idx: int, failed: bool)
    requires operatorStack != postfix && bufferSize <= postfix.Length
    requires Mirrors(c, operatorStack, stackTop, postfix, postfixIdx) && Sane(c, bufferSize)
    modifies postfix
    ensures failed <==> Token(c, ')', bufferSize).Failed?
    ensures !failed ==> Mirrors(Token(c, ')', bufferSize).c, operatorStack, top, postfix, idx)
    ensures forall k :: bufferSize <= k < postfix.Length ==> postfix[k] == old(postfix[k])
  {
    top, idx, failed := PopOperators(ToParen, operatorStack, stackTop, postfix, postfixIdx, bufferSize, c);
    if !failed {
      ghost var c1 := PopWhile(c, bufferSize, ToParen).c;
      top := top - 1;
      assert operatorStack[..|PopParen(c1).stack|] == PopParen(c1).stack;
    }
  }

  /** The branch of `regex_to_postfix` for an operator: pops what binds at least as tightly,
      then pushes `token`. */
  method PushOperator(token: char, operatorStack: array<char>, stackTop: int, postfix: array<char>,
                      postfixIdx: int, bufferSize: nat, ghost c: Config)
    returns (top: int, idx: int, failed: bool)
    requires !IsAlnum(token) && token != '(' && token != ')'
    requires operatorStack != postfix && bufferSize <= postfix.Length
    requires operatorStack.Length == OPERATOR_STACK_SIZE
    requires Mirrors(c, operatorStack, stackTop, postfix, postfixIdx) && Sane(c, bufferSize)
    requires !Token(c, token, bufferSize).Undefined?
    modifies postfix, operatorStack
    ensures failed <==> Token(c, token, bufferSize).Failed?
    ensures !failed ==> Mirrors(Token(c, token, bufferSize).c, operatorStack, top, postfix, idx)
    ensures forall k :: bufferSize <= k < postfix.Length ==> postfix[k] == old(postfix[k])
  {
    var rule := AtLeast(Precedence(token));
    top, idx, failed := PopOperators(rule, operatorStack, stackTop, postfix, postfixIdx, bufferSize, c);
    if !failed {
      ghost var c1 := PopWhile(c, bufferSize, rule).c;
      assert Token(c, token, bufferSize) == Push(c1, token);
      top := top + 1;
      operatorStack[top] := token;
      assert operatorStack[..|c1.stack| + 1] == c1.stack + [token];
    }
  }

  /** One pass of the loop of `regex_to_postfix`, for `token`. */
  method ConvertToken(token: char, operatorStack: array<char>, stackTop: int, postfix: array<char>,
                      postfixIdx: int, bufferSize: nat, ghost c: Config)
    returns (top: int, idx: int, failed: bool)
    requires operatorStack != postfix && bufferSize <= postfix.Length
    requires operatorStack.Length == OPERATOR_STACK_SIZE
    requires Mirrors(c, operatorStack, stackTop, postfix, postfixIdx) && Sane(c, bufferSize)
    requires !Token(c, token, bufferSize).Undefined?
    modifies postfix, operatorStack
    ensures failed <==> Token(c, token, bufferSize).Failed?
    ensures !failed ==> Mirrors(Token(c, token, bufferSize).c, operatorStack, top, postfix, idx)
    ensures forall k :: bufferSize <= k < postfix.Length ==> postfix[k] == old(postfix[k])
  {
    top, idx, failed := stackTop, postfixIdx, false;
    if IsAlnum(token) {
      if idx >= bufferSize - 1 {
        return top, idx, true;
      }
      postfix[idx] := token;
      idx := idx + 1;
      assert postfix[..idx] == c.out + [token];
    } else if token == '(' {
      top := top + 1;
      operatorStack[top] := token;
      assert operatorStack[..|c.stack| + 1] == c.stack + [token];
    } else if token == ')' {
      top, idx, failed := CloseGroup(operatorStack, top, postfix, idx, bufferSize, c);
    } else {
      top, idx, failed := PushOperator(token, operatorStack, top, postfix, idx, bufferSize, c);
    }
  }

  /** The end of `regex_to_postfix`: pops every remaining operator and terminates the
      output. */
  method FinishPostfix(operatorStack: array<char>, stackTop: int, postfix: array<char>,
                       postfixIdx: int, bufferSize: nat, ghost c: Config)
    returns (result: int)
    requires operatorStack != postfix && 1 <= bufferSize <= postfix.Length
    requires Mirrors(c, operatorStack, stackTop, postfix, postfixIdx) && Sane(c, bufferSize)
    modifies postfix
    ensures result == 0 || result == -1
    ensures result == -1 <==> PopWhile(c, bufferSize, All).Failed?
    ensures result == 0 ==> var out := PopWhile(c, bufferSize, All).c.out;
      |out| < bufferSize && postfix[..|out|] == out && postfix[|out|] == NUL
    ensures forall k :: bufferSize <= k < postfix.Length ==> postfix[k] == old(postfix[k])
  {
    var top, idx, failed := PopOperators(All, operatorStack, stackTop, postfix, postfixIdx, bufferSize, c);
    if failed {
      return -1;
    }
    ghost var d := PopWhile(c, bufferSize, All).c;
    postfix[idx] := NUL;
    assert postfix[..idx] == d.out;
    return 0;
  }

  /** Pass `i` of the loop of `regex_to_postfix`, carrying the conversion after `i` tokens to
      the conversion after `i + 1`. */
  method ConvertTokenAt(infix: seq<char>, i: nat, operatorStack: array<char>, stackTop: int, postfix: array<char>,
                        postfixIdx: int, bufferSize: nat, ghost c: Config)
    returns (top: int, idx: int, failed: bool, ghost d: Config)
    requires i < |infix| && ShuntPrefix(infix, bufferSize, i) == Ok(c)
    requires operatorStack != postfix && 1 <= bufferSize <= postfix.Length
    requires operatorStack.Length == OPERATOR_STACK_SIZE
    requires Mirrors(c, operatorStack, stackTop, postfix, postfixIdx) && Sane(c, bufferSize)
    requires !Shunt(infix, bufferSize).Undefined?
    modifies postfix, operatorStack
    ensures failed <==> ShuntPrefix(infix, bufferSize, i + 1).Failed?
    ensures !failed ==> ShuntPrefix(infix, bufferSize, i + 1) == Ok(d) && Sane(d, bufferSize)
    ensures !failed ==> Mirrors(d, operatorStack, top, postfix, idx)
    ensures forall k :: bufferSize <= k < postfix.Length ==> postfix[k] == old(postfix[k])
  {
    assert ShuntPrefix(infix, bufferSize, i + 1) == Token(c, infix[i], bufferSize);
    NotUndefined(infix, bufferSize, i + 1);
    top, idx, failed := ConvertToken(infix[i], operatorStack, stackTop, postfix, postfixIdx, bufferSize, c);
    d := if failed then c else Token(c, infix[i], bufferSize).c;
  }

  /** The loop of `regex_to_postfix` over the tokens of `infix`, stopping with `failed` at the
      first emit that finds the output full. */
  method ConvertTokens(infix: seq<char>, operatorStack: array<char>, postfix: array<char>, bufferSize: nat)
    returns (stackTop: int, postfixIdx: int, failed: bool, ghost c: Config)
    requires operatorStack != postfix && 1 <= bufferSize <= postfix.Length
    requires operatorStack.Length == OPERATOR_STACK_SIZE
    requires !Shunt(infix, bufferSize).Undefined?
    modifies postfix, operatorStack
    ensures failed <==> ShuntPrefix(infix, bufferSize, |infix|).Failed?
    ensures !failed ==> ShuntPrefix(infix, bufferSize, |infix|) == Ok(c) && Sane(c, bufferSize)
    ensures !failed ==> Mirrors(c, operatorStack, stackTop, postfix, postfixIdx)
    ensures forall k :: bufferSize <= k < postfix.Length ==> postfix[k] == old(postfix[k])
  {
    stackTop, postfixIdx, failed := -1, 0, false;
    c := Config([], [], 0);
    for i := 0 to |infix|
      invariant !failed && ShuntPrefix(infix, bufferSize, i) == Ok(c) && Sane(c, bufferSize)
      invariant Mirrors(c, operatorStack, stackTop, postfix, postfixIdx)
      invariant forall k :: bufferSize <= k < postfix.Length ==> postfix[k] == old(postfix[k])
    {
      stackTop, postfixIdx, failed, c := ConvertTokenAt(infix, i, operatorStack, stackTop, postfix, postfixIdx, bufferSize, c);
      if failed {
        ShuntStuck(infix, bufferSize, i + 1, |infix|);
        return;
      }
    }
  }

  /** `regex_to_postfix`: the shunting-yard conversion of `infix` into `postfix`, returning
      0 with the terminated postfix, or -1 as soon as an emit finds `bufferSize - 1`
      characters written. Pushes outside the operator stack are undefined in C, so the
      caller must pass an infix for which none happens before the result is decided. */
  method RegexToPostfix(infix: seq<char>, postfix: array<char>, bufferSize: nat) returns (result: int)
    requires NUL !in infix && 1 <= bufferSize <= postfix.Length
    requires !Shunt(infix, bufferSize).Undefined?
    modifies postfix
    ensures result == 0 || result == -1
    ensures result == -1 <==> Shunt(infix, bufferSize).Failed?
    ensures result == 0 ==> Shunt(infix, bufferSize).Ok?
    ensures result == 0 ==> var out := Shunt(infix, bufferSize).c.out;
      |out| < bufferSize && postfix[..|out|] == out && postfix[|out|] == NUL
    ensures forall k :: bufferSize <= k < postfix.Length ==> postfix[k] == old(postfix[k])
  {
    var operatorStack := new char[OPERATOR_STACK_SIZE];
    var stackTop, postfixIdx, failed, c := ConvertTokens(infix, operatorStack, postfix, bufferSize);
    if failed {
      return -1;
    }
    result := FinishPostfix(operatorStack, stackTop, postfix, postfixIdx, bufferSize, c);
  }
}
