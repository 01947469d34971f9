/** The boolean query compiler and evaluator: pkg/searcher/boolean_query.go.
  *
  * Tokens are integers: -1 AND, -2 "(", -3 ")", -4 OR, -5 NOT, anything else a term.
  */
module BooleanQuery {
  import opened Collections

  const AND := -1
  const OPEN := -2
  const CLOSE := -3
  const OR := -4
  const NOT := -5

  function Precedence(token: int): int {
    if token == AND then 2 else if token == OR then 1 else if token == NOT then 3 else 0
  }

  predicate IsOperator(token: int) {
    token == AND || token == OR || token == NOT
  }

  predicate IsTerm(token: int) {
    !IsOperator(token) && token != OPEN && token != CLOSE
  }

  // ---- the language: OR binds weakest, then AND, then NOT

  datatype OrE = OrOne(a: AndE) | OrMore(a: AndE, rest: OrE)
  datatype AndE = AndOne(n: NotE) | AndMore(n: NotE, more: AndE)
  datatype NotE = Word(t: int) | Neg(n: NotE) | Paren(o: OrE)

  ghost predicate GoodOr(o: OrE) {
    match o case OrOne(a) => GoodAnd(a) case OrMore(a, rest) => GoodAnd(a) && GoodOr(rest)
  }

  ghost predicate GoodAnd(a: AndE) {
    match a case AndOne(n) => GoodNot(n) case AndMore(n, more) => GoodNot(n) && GoodAnd(more)
  }

  ghost predicate GoodNot(n: NotE) {
    match n case Word(t) => IsTerm(t) case Neg(m) => GoodNot(m) case Paren(o) => GoodOr(o)
  }

  ghost function InfixOr(o: OrE): seq<int> {
    match o case OrOne(a) => InfixAnd(a) case OrMore(a, rest) => InfixAnd(a) + [OR] + InfixOr(rest)
  }

  ghost function InfixAnd(a: AndE): seq<int> {
    match a case AndOne(n) => InfixNot(n) case AndMore(n, more) => InfixNot(n) + [AND] + InfixAnd(more)
  }

  ghost function InfixNot(n: NotE): seq<int> {
    match n case Word(t) => [t] case Neg(m) => [NOT] + InfixNot(m) case Paren(o) => [OPEN] + InfixOr(o) + [CLOSE]
  }

  /** The boolean meaning of an expression, given which terms hold. */
  ghost predicate MeansOr(o: OrE, env: int -> bool) {
    match o case OrOne(a) => MeansAnd(a, env) case OrMore(a, rest) => MeansAnd(a, env) || MeansOr(rest, env)
  }

  ghost predicate MeansAnd(a: AndE, env: int -> bool) {
    match a case AndOne(n) => MeansNot(n, env) case AndMore(n, more) => MeansNot(n, env) && MeansAnd(more, env)
  }

  ghost predicate MeansNot(n: NotE, env: int -> bool) {
    match n case Word(t) => env(t) case Neg(m) => !MeansNot(m, env) case Paren(o) => MeansOr(o, env)
  }

  // ---- shuntingYardRPN, lines 43-101

  datatype State = Crash | State(output: seq<int>, stack: seq<int>)

  /** Pop until the bracket that is closed, which is dropped; crashes if there is none. */
  ghost function PopToOpen(s: State): State
    decreases if s.Crash? then 0 else |s.stack|
  {
    if s.Crash? || s.stack == [] then Crash else
      var n := |s.stack| - 1;
      if s.stack[n] == OPEN then State(s.output, s.stack[..n])
      else PopToOpen(State(s.output + [s.stack[n]], s.stack[..n]))
  }

  /** Pop every operator on top that binds more tightly than the token. */
  ghost function PopTighter(s: State, token: int): State
    decreases if s.Crash? then 0 else |s.stack|
  {
    if s.Crash? || s.stack == [] then s else
      var n := |s.stack| - 1;
      if Precedence(token) < Precedence(s.stack[n]) then PopTighter(State(s.output + [s.stack[n]], s.stack[..n]), token) else s
  }

  ghost function Step(s: State, token: int): State {
    if s.Crash? then Crash
    else if token == OPEN then State(s.output, s.stack + [OPEN])
    else if token == CLOSE then PopToOpen(s)
    else if IsOperator(token) then
      var p := PopTighter(s, token);
      if p.Crash? then Crash else State(p.output, p.stack + [token])
    else State(s.output + [token], s.stack)
  }

  ghost function Run(s: State, tokens: seq<int>): State
    decreases |tokens|
  {
    if tokens == [] then s else Run(Step(s, tokens[0]), tokens[1..])
  }

  ghost function Reverse(s: seq<int>): (r: seq<int>)
    ensures |r| == |s|
  {
    if s == [] then [] else [s[|s| - 1]] + Reverse(s[..|s| - 1])
  }

  /** The compiler as a function: run over the tokens, then unwind the stack. */
  ghost function Compile(tokens: seq<int>): State {
    var s := Run(State([], []), tokens);
    if s.Crash? then Crash else State(s.output + Reverse(s.stack), [])
  }

  lemma {:induction false} RunAppend(s: State, a: seq<int>, b: seq<int>)
    ensures Run(s, a + b) == Run(Run(s, a), b)
    decreases |a|
  {
    if a == [] {
      assert a + b == b;
    } else {
      assert (a + b)[0] == a[0] && (a + b)[1..] == a[1..] + b;
      RunAppend(Step(s, a[0]), a[1..], b);
    }
  }

  lemma RunOne(s: State, token: int)
    ensures Run(s, [token]) == Step(s, token)
  {
    assert Run(Step(s, token), [token][1..]) == Step(s, token);
  }

  lemma {:induction false} CrashStays(tokens: seq<int>)
    ensures Run(Crash, tokens) == Crash
  {
    if tokens != [] {
      CrashStays(tokens[1..]);
    }
  }

  /** shuntingYardRPN, lines 43-101. Popping the empty stack panics, which is Crash here. */
  method ShuntingYardRPN(tokens: seq<int>) returns (result: State)
    ensures result == Compile(tokens)
  {
    var output: seq<int>, stack: seq<int> := [], [];
    ghost var start := State([], []);
    for i := 0 to |tokens|
      invariant Run(State(output, stack), tokens[i..]) == Run(start, tokens)
    {
      var token := tokens[i];
      assert tokens[i..][0] == token && tokens[i..][1..] == tokens[i + 1..];
      if token == OPEN {
        stack := stack + [OPEN];
      } else if token == CLOSE {
        var popped := PopUntilOpen(output, stack);
        if popped.Crash? {
          CrashStays(tokens[i + 1..]);
          return Crash;
        }
        output, stack := popped.output, popped.stack;
      } else if IsOperator(token) {
        output, stack := PopWhileTighter(output, stack, token);
        stack := stack + [token];
      } else {
        output := output + [token];
      }
    }
    ghost var all := output + Reverse(stack);
    while |stack| != 0
      invariant output + Reverse(stack) == all
      decreases |stack|
    {
      var n := |stack| - 1;
      var token := stack[n];
      assert output + Reverse(stack) == (output + [token]) + Reverse(stack[..n]);
      stack := stack[..n];
      output := output + [token];
    }
    return State(output, []);
  }

  /** The loop for a closing bracket, lines 58-69. */
  method PopUntilOpen(output0: seq<int>, stack0: seq<int>) returns (result: State)
    ensures result == PopToOpen(State(output0, stack0))
  {
    var output, stack := output0, stack0;
    if |stack| == 0 {
      return Crash;
    }
    var n := |stack| - 1;
    var operator := stack[n];
    stack := stack[..n];
    while operator != OPEN
      invariant PopToOpen(State(output, stack + [operator])) == PopToOpen(State(output0, stack0))
      decreases |stack|
    {
      assert (stack + [operator])[..|stack|] == stack;
      output := output + [operator];
      if |stack| == 0 {
        return Crash;
      }
      n := |stack| - 1;
      operator := stack[n];
      stack := stack[..n];
      assert stack + [operator] == (stack + [operator])[..n + 1];
    }
    assert (stack + [operator])[..|stack|] == stack;
    return State(output, stack);
  }

  /** The loop for an operator, lines 71-85. */
  method PopWhileTighter(output0: seq<int>, stack0: seq<int>, token: int) returns (output: seq<int>, stack: seq<int>)
    ensures State(output, stack) == PopTighter(State(output0, stack0), token)
  {
    output, stack := output0, stack0;
    if |stack| != 0 {
      var n := |stack| - 1;
      var operator := stack[n];
      while |stack| != 0 && Precedence(token) < Precedence(operator)
        invariant |stack| != 0 ==> operator == stack[|stack| - 1]
        invariant PopTighter(State(output, stack), token) == PopTighter(State(output0, stack0), token)
        decreases |stack|
      {
        output := output + [operator];
        n := |stack| - 1;
        stack := stack[..n];
        if |stack| != 0 {
          n := |stack| - 1;
          operator := stack[n];
        }
      }
    }
  }

  // ---- when compiling crashes

  ghost function Count(tokens: seq<int>, token: int): nat {
    if tokens == [] then 0 else Count(tokens[..|tokens| - 1], token) + (if tokens[|tokens| - 1] == token then 1 else 0)
  }

  lemma {:induction false} CountAppend(a: seq<int>, b: seq<int>, token: int)
    ensures Count(a + b, token) == Count(a, token) + Count(b, token)
    decreases |b|
  {
    if b == [] {
      assert a + b == a;
    } else {
      var n := |b| - 1;
      assert (a + b)[..|a + b| - 1] == a + b[..n];
      CountAppend(a, b[..n], token);
    }
  }

  lemma {:induction false} PopToOpenCount(s: State)
    requires s.State?
    ensures PopToOpen(s).Crash? <==> Count(s.stack, OPEN) == 0
    ensures PopToOpen(s).State? ==> Count(PopToOpen(s).stack, OPEN) == Count(s.stack, OPEN) - 1
    decreases |s.stack|
  {
    if s.stack != [] {
      var n := |s.stack| - 1;
      if s.stack[n] != OPEN {
        PopToOpenCount(State(s.output + [s.stack[n]], s.stack[..n]));
      }
    }
  }

  lemma {:induction false} PopTighterCount(s: State, token: int)
    requires s.State? && IsOperator(token)
    ensures PopTighter(s, token).State? && Count(PopTighter(s, token).stack, OPEN) == Count(s.stack, OPEN)
    decreases |s.stack|
  {
    if s.stack != [] {
      var n := |s.stack| - 1;
      if Precedence(token) < Precedence(s.stack[n]) {
        PopTighterCount(State(s.output + [s.stack[n]], s.stack[..n]), token);
      }
    }
  }

  lemma StepCount(s: State, token: int)
    requires s.State?
    ensures Step(s, token).Crash? <==> token == CLOSE && Count(s.stack, OPEN) == 0
    ensures var change := if token == OPEN then 1 else if token == CLOSE then -1 else 0;
      Step(s, token).State? ==> Count(Step(s, token).stack, OPEN) == Count(s.stack, OPEN) + change
  {
    PopToOpenCount(s);
    if token == OPEN {
      CountAppend(s.stack, [OPEN], OPEN);
      assert Count([OPEN], OPEN) == Count([], OPEN) + 1 by { assert [OPEN][..0] == []; }
    } else if IsOperator(token) {
      PopTighterCount(s, token);
      CountAppend(PopTighter(s, token).stack, [token], OPEN);
      assert Count([token], OPEN) == Count([], OPEN) by { assert [token][..0] == []; }
    }
  }

  /** No prefix closes more brackets than it opens. */
  ghost predicate NeverOverClosed(tokens: seq<int>, open: nat) {
    forall k :: 0 <= k <= |tokens| ==> Count(tokens[..k], CLOSE) <= open + Count(tokens[..k], OPEN)
  }

  lemma {:induction false} RunCrashes(s: State, tokens: seq<int>)
    requires s.State?
    ensures Run(s, tokens).State? <==> NeverOverClosed(tokens, Count(s.stack, OPEN))
    decreases |tokens|
  {
    var open := Count(s.stack, OPEN);
    if tokens == [] {
      assert tokens[..0] == [];
    } else {
      var token, rest := tokens[0], tokens[1..];
      StepCount(s, token);
      forall k | 1 <= k <= |tokens|
        ensures Count(tokens[..k], OPEN) == Count(rest[..k - 1], OPEN) + (if token == OPEN then 1 else 0)
        ensures Count(tokens[..k], CLOSE) == Count(rest[..k - 1], CLOSE) + (if token == CLOSE then 1 else 0)
      {
        assert tokens[..k] == [token] + rest[..k - 1];
        CountAppend([token], rest[..k - 1], OPEN);
        CountAppend([token], rest[..k - 1], CLOSE);
        assert [token][..0] == [];
      }
      if Step(s, token).Crash? {
        CrashStays(rest);
        assert Count(tokens[..1], CLOSE) > open + Count(tokens[..1], OPEN) by { assert rest[..0] == []; }
      } else {
        var open' := Count(Step(s, token).stack, OPEN);
        RunCrashes(Step(s, token), rest);
        if NeverOverClosed(rest, open') {
          forall k | 0 <= k <= |tokens| ensures Count(tokens[..k], CLOSE) <= open + Count(tokens[..k], OPEN) {
            if k == 0 { assert tokens[..0] == []; } else { assert Count(rest[..k - 1], CLOSE) <= open' + Count(rest[..k - 1], OPEN); }
          }
        }
        if NeverOverClosed(tokens, open) {
          forall k | 0 <= k <= |rest| ensures Count(rest[..k], CLOSE) <= open' + Count(rest[..k], OPEN) {
            assert Count(tokens[..k + 1], CLOSE) <= open + Count(tokens[..k + 1], OPEN);
          }
        }
      }
    }
  }

  /** The compiler pops an empty stack exactly when some prefix closes a bracket it never opened. */
  lemma CompileCrashes(tokens: seq<int>)
    ensures Compile(tokens) != Crash <==> NeverOverClosed(tokens, 0)
  {
    RunCrashes(State([], []), tokens);
  }

  // ---- what compiling yields on expressions

  ghost function RpnOr(o: OrE): seq<int> {
    match o case OrOne(a) => RpnAnd(a) case OrMore(a, rest) => RpnAnd(a) + RpnOr(rest) + [OR]
  }

  ghost function RpnAnd(a: AndE): seq<int> {
    match a case AndOne(n) => RpnNot(n) case AndMore(n, more) => RpnNot(n) + RpnAnd(more) + [AND]
  }

  ghost function RpnNot(n: NotE): seq<int> {
    match n case Word(t) => [t] case Neg(m) => RpnNot(m) + [NOT] case Paren(o) => RpnOr(o)
  }

  /** The operators that an expression leaves on the stack, and what it has output by then. */
  ghost function LeftOr(o: OrE): seq<int> {
    match o case OrOne(a) => LeftAnd(a) case OrMore(_, rest) => [OR] + LeftOr(rest)
  }

  ghost function LeftAnd(a: AndE): seq<int> {
    match a case AndOne(n) => LeftNot(n) case AndMore(_, more) => [AND] + LeftAnd(more)
  }

  ghost function LeftNot(n: NotE): seq<int> {
    match n case Word(_) => [] case Neg(m) => [NOT] + LeftNot(m) case Paren(_) => []
  }

  ghost function OutOr(o: OrE): seq<int> {
    match o case OrOne(a) => OutAnd(a) case OrMore(a, rest) => RpnAnd(a) + OutOr(rest)
  }

  ghost function OutAnd(a: AndE): seq<int> {
    match a case AndOne(n) => OutNot(n) case AndMore(n, more) => RpnNot(n) + OutAnd(more)
  }

  ghost function OutNot(n: NotE): seq<int> {
    match n case Word(t) => [t] case Neg(m) => OutNot(m) case Paren(o) => RpnOr(o)
  }

  lemma {:induction false} ReverseAppend(a: seq<int>, b: seq<int>)
    ensures Reverse(a + b) == Reverse(b) + Reverse(a)
    decreases |b|
  {
    if b == [] {
      assert a + b == a;
    } else {
      var n := |b| - 1;
      assert (a + b)[..|a + b| - 1] == a + b[..n];
      ReverseAppend(a, b[..n]);
    }
  }

  lemma ReverseCons(x: int, s: seq<int>)
    ensures Reverse([x] + s) == Reverse(s) + [x]
  {
    ReverseAppend([x], s);
    assert [x][..0] == [];
    assert Reverse([x]) == [x];
  }

  lemma {:induction false} NotLeaves(n: NotE)
    ensures OutNot(n) + Reverse(LeftNot(n)) == RpnNot(n)
    ensures forall i :: 0 <= i < |LeftNot(n)| ==> LeftNot(n)[i] == NOT
  {
    match n
    case Word(t) =>
    case Neg(m) =>
      NotLeaves(m);
      ReverseCons(NOT, LeftNot(m));
      assert OutNot(m) + (Reverse(LeftNot(m)) + [NOT]) == OutNot(m) + Reverse(LeftNot(m)) + [NOT];
    case Paren(o) =>
  }

  lemma {:induction false} AndLeaves(a: AndE)
    ensures OutAnd(a) + Reverse(LeftAnd(a)) == RpnAnd(a)
    ensures forall i :: 0 <= i < |LeftAnd(a)| ==> LeftAnd(a)[i] == NOT || LeftAnd(a)[i] == AND
  {
    match a
    case AndOne(n) => NotLeaves(n);
    case AndMore(n, more) =>
      AndLeaves(more);
      ReverseCons(AND, LeftAnd(more));
      assert RpnNot(n) + OutAnd(more) + (Reverse(LeftAnd(more)) + [AND]) == RpnNot(n) + (OutAnd(more) + Reverse(LeftAnd(more))) + [AND];
  }

  lemma {:induction false} OrLeaves(o: OrE)
    ensures OutOr(o) + Reverse(LeftOr(o)) == RpnOr(o)
    ensures forall i :: 0 <= i < |LeftOr(o)| ==> IsOperator(LeftOr(o)[i])
  {
    match o
    case OrOne(a) => AndLeaves(a);
    case OrMore(a, rest) =>
      OrLeaves(rest);
      ReverseCons(OR, LeftOr(rest));
      assert RpnAnd(a) + OutOr(rest) + (Reverse(LeftOr(rest)) + [OR]) == RpnAnd(a) + (OutOr(rest) + Reverse(LeftOr(rest))) + [OR];
  }

  /** What lies on the stack below does not bind more tightly than the token. */
  ghost predicate Rests(stack: seq<int>, token: int) {
    stack == [] || Precedence(token) >= Precedence(stack[|stack| - 1])
  }

  lemma {:induction false} PopsTighter(out: seq<int>, stk: seq<int>, left: seq<int>, token: int)
    requires Rests(stk, token) && forall i :: 0 <= i < |left| ==> Precedence(token) < Precedence(left[i])
    ensures PopTighter(State(out, stk + left), token) == State(out + Reverse(left), stk)
    decreases |left|
  {
    if left == [] {
      assert stk + left == stk && out + Reverse(left) == out;
    } else {
      var n := |left| - 1;
      assert (stk + left)[..|stk + left| - 1] == stk + left[..n];
      PopsTighter(out + [left[n]], stk, left[..n], token);
      assert out + [left[n]] + Reverse(left[..n]) == out + Reverse(left);
    }
  }

  lemma {:induction false} PopsToOpen(out: seq<int>, stk: seq<int>, left: seq<int>)
    requires forall i :: 0 <= i < |left| ==> left[i] != OPEN
    ensures PopToOpen(State(out, stk + [OPEN] + left)) == State(out + Reverse(left), stk)
    decreases |left|
  {
    if left == [] {
      assert (stk + [OPEN] + left)[..|stk|] == stk && out + Reverse(left) == out;
    } else {
      var n := |left| - 1;
      assert (stk + [OPEN] + left)[..|stk + [OPEN] + left| - 1] == stk + [OPEN] + left[..n];
      PopsToOpen(out + [left[n]], stk, left[..n]);
      assert out + [left[n]] + Reverse(left[..n]) == out + Reverse(left);
    }
  }

  lemma {:induction false} StepsOperator(out: seq<int>, stk: seq<int>, left: seq<int>, token: int)
    requires IsOperator(token) && Rests(stk, token) && forall i :: 0 <= i < |left| ==> Precedence(token) < Precedence(left[i])
    ensures Step(State(out, stk + left), token) == State(out + Reverse(left), stk + [token])
  {
    PopsTighter(out, stk, left, token);
  }

  lemma StepsNot(out: seq<int>, stk: seq<int>)
    ensures Step(State(out, stk), NOT) == State(out, stk + [NOT])
  {}

  lemma {:induction false} StepsClose(out: seq<int>, stk: seq<int>, left: seq<int>)
    requires forall i :: 0 <= i < |left| ==> left[i] != OPEN
    ensures Step(State(out, stk + [OPEN] + left), CLOSE) == State(out + Reverse(left), stk)
  {
    PopsToOpen(out, stk, left);
  }

  lemma RunStepRun(s: State, a: seq<int>, token: int, b: seq<int>, mid: State, next: State)
    requires Run(s, a) == mid && Step(mid, token) == next
    ensures Run(s, a + [token] + b) == Run(next, b)
  {
    hide Step;
    RunAppend(s, a + [token], b);
    RunAppend(s, a, [token]);
    RunOne(mid, token);
  }

  lemma {:induction false} RunsNot(n: NotE, out: seq<int>, stk: seq<int>)
    requires GoodNot(n)
    ensures Run(State(out, stk), InfixNot(n)) == State(out + OutNot(n), stk + LeftNot(n))
    decreases n
  {
    hide Run, Step, Reverse, Rests, RpnOr, OutOr, LeftOr, InfixOr;
    match n
    case Word(t) =>
      RunOne(State(out, stk), t);
      StepsWord(out, stk, t);
      assert stk + [] == stk;
    case Neg(m) =>
      StepsNot(out, stk);
      RunNothing(State(out, stk));
      RunStepRun(State(out, stk), [], NOT, InfixNot(m), State(out, stk), State(out, stk + [NOT]));
      assert [] + [NOT] + InfixNot(m) == [NOT] + InfixNot(m);
      RunsNot(m, out, stk + [NOT]);
      assert stk + [NOT] + LeftNot(m) == stk + LeftNot(n);
    case Paren(o) =>
      var entered, closed := State(out, stk + [OPEN]), State(out + OutOr(o), stk + [OPEN] + LeftOr(o));
      StepsOpen(out, stk);
      RunNothing(State(out, stk));
      RunStepRun(State(out, stk), [], OPEN, InfixOr(o), State(out, stk), entered);
      assert [] + [OPEN] + InfixOr(o) == [OPEN] + InfixOr(o);
      OpenRests(stk);
      RunsOr(o, out, stk + [OPEN]);
      OrLeaves(o);
      StepsClose(out + OutOr(o), stk, LeftOr(o));
      assert out + OutOr(o) + Reverse(LeftOr(o)) == out + RpnOr(o);
      assert stk + [] == stk;
      RunStepRun(State(out, stk), [OPEN] + InfixOr(o), CLOSE, [], closed, State(out + RpnOr(o), stk));
      RunNothing(State(out + RpnOr(o), stk));
      assert [OPEN] + InfixOr(o) + [CLOSE] + [] == InfixNot(n);
  }

  lemma StepsWord(out: seq<int>, stk: seq<int>, t: int)
    requires IsTerm(t)
    ensures Step(State(out, stk), t) == State(out + [t], stk)
  {}

  lemma StepsOpen(out: seq<int>, stk: seq<int>)
    ensures Step(State(out, stk), OPEN) == State(out, stk + [OPEN])
  {}

  lemma OpenRests(stk: seq<int>)
    ensures Rests(stk + [OPEN], OR)
  {}

  lemma RunNothing(s: State)
    ensures Run(s, []) == s
  {}

  lemma {:induction false} RunsAnd(a: AndE, out: seq<int>, stk: seq<int>)
    requires GoodAnd(a) && Rests(stk, AND)
    ensures Run(State(out, stk), InfixAnd(a)) == State(out + OutAnd(a), stk + LeftAnd(a))
    decreases a
  {
    hide Run, Step, Reverse, RpnNot, OutNot, LeftNot, InfixNot;
    match a
    case AndOne(n) => RunsNot(n, out, stk);
    case AndMore(n, more) =>
      RunsNot(n, out, stk);
      NotLeaves(n);
      StepsOperator(out + OutNot(n), stk, LeftNot(n), AND);
      assert out + OutNot(n) + Reverse(LeftNot(n)) == out + RpnNot(n);
      RunStepRun(State(out, stk), InfixNot(n), AND, InfixAnd(more),
                 State(out + OutNot(n), stk + LeftNot(n)), State(out + RpnNot(n), stk + [AND]));
      RunsAnd(more, out + RpnNot(n), stk + [AND]);
      assert out + RpnNot(n) + OutAnd(more) == out + OutAnd(a);
      assert stk + [AND] + LeftAnd(more) == stk + LeftAnd(a);
  }

  lemma {:induction false} RunsOr(o: OrE, out: seq<int>, stk: seq<int>)
    requires GoodOr(o) && Rests(stk, OR)
    ensures Run(State(out, stk), InfixOr(o)) == State(out + OutOr(o), stk + LeftOr(o))
    decreases o
  {
    hide Run, Step, Reverse, RpnAnd, OutAnd, LeftAnd, InfixAnd;
    match o
    case OrOne(a) => RunsAnd(a, out, stk);
    case OrMore(a, rest) =>
      RunsAnd(a, out, stk);
      AndLeaves(a);
      StepsOperator(out + OutAnd(a), stk, LeftAnd(a), OR);
      assert out + OutAnd(a) + Reverse(LeftAnd(a)) == out + RpnAnd(a);
      RunStepRun(State(out, stk), InfixAnd(a), OR, InfixOr(rest),
                 State(out + OutAnd(a), stk + LeftAnd(a)), State(out + RpnAnd(a), stk + [OR]));
      RunsOr(rest, out + RpnAnd(a), stk + [OR]);
      assert out + RpnAnd(a) + OutOr(rest) == out + OutOr(o);
      assert stk + [OR] + LeftOr(rest) == stk + LeftOr(o);
  }

  /** Every expression compiles, to its postfix form; equal operators group to the right. */
  lemma CompilesToRpn(o: OrE)
    requires GoodOr(o)
    ensures Compile(InfixOr(o)) == State(RpnOr(o), [])
  {
    RunsOr(o, [], []);
    OrLeaves(o);
    assert [] + OutOr(o) == OutOr(o) && [] + LeftOr(o) == LeftOr(o);
  }

  // ---- the postfix form keeps the meaning

  /** A boolean stack machine for postfix token lists. */
  ghost function Evaluate(rpn: seq<int>, env: int -> bool, s: seq<bool>): Outcome<seq<bool>>
    decreases |rpn|
  {
    if rpn == [] then Returned(s) else
      var token, n := rpn[0], |s|;
      if token == NOT then (if n < 1 then Panicked else Evaluate(rpn[1..], env, s[..n - 1] + [!s[n - 1]]))
      else if token == AND then (if n < 2 then Panicked else Evaluate(rpn[1..], env, s[..n - 2] + [s[n - 2] && s[n - 1]]))
      else if token == OR then (if n < 2 then Panicked else Evaluate(rpn[1..], env, s[..n - 2] + [s[n - 2] || s[n - 1]]))
      else Evaluate(rpn[1..], env, s + [env(token)])
  }

  lemma {:induction false} EvaluateAppend(a: seq<int>, b: seq<int>, env: int -> bool, s: seq<bool>, mid: seq<bool>)
    requires Evaluate(a, env, s) == Returned(mid)
    ensures Evaluate(a + b, env, s) == Evaluate(b, env, mid)
    decreases |a|
  {
    if a == [] {
      assert a + b == b;
    } else {
      var token, n := a[0], |s|;
      assert (a + b)[0] == token && (a + b)[1..] == a[1..] + b;
      var s' := if token == NOT then s[..n - 1] + [!s[n - 1]] else if token == AND then s[..n - 2] + [s[n - 2] && s[n - 1]]
      else if token == OR then s[..n - 2] + [s[n - 2] || s[n - 1]] else s + [env(token)];
      EvaluateAppend(a[1..], b, env, s', mid);
    }
  }

  lemma EvaluateOne(token: int, env: int -> bool, s: seq<bool>)
    requires !IsOperator(token) || |s| >= (if token == NOT then 1 else 2)
    ensures token == NOT ==> Evaluate([token], env, s) == Returned(s[..|s| - 1] + [!s[|s| - 1]])
    ensures token == AND ==> Evaluate([token], env, s) == Returned(s[..|s| - 2] + [s[|s| - 2] && s[|s| - 1]])
    ensures token == OR ==> Evaluate([token], env, s) == Returned(s[..|s| - 2] + [s[|s| - 2] || s[|s| - 1]])
    ensures !IsOperator(token) ==> Evaluate([token], env, s) == Returned(s + [env(token)])
  {
    assert [token][1..] == [];
  }

  lemma {:induction false} NotEvaluates(n: NotE, env: int -> bool, s: seq<bool>)
    requires GoodNot(n)
    ensures Evaluate(RpnNot(n), env, s) == Returned(s + [MeansNot(n, env)])
    decreases n
  {
    match n
    case Word(t) => EvaluateOne(t, env, s);
    case Neg(m) =>
      NotEvaluates(m, env, s);
      EvaluateAppend(RpnNot(m), [NOT], env, s, s + [MeansNot(m, env)]);
      EvaluateOne(NOT, env, s + [MeansNot(m, env)]);
      assert (s + [MeansNot(m, env)])[..|s|] == s;
    case Paren(o) => OrEvaluates(o, env, s);
  }

  lemma {:induction false} AndEvaluates(a: AndE, env: int -> bool, s: seq<bool>)
    requires GoodAnd(a)
    ensures Evaluate(RpnAnd(a), env, s) == Returned(s + [MeansAnd(a, env)])
    decreases a
  {
    match a
    case AndOne(n) => NotEvaluates(n, env, s);
    case AndMore(n, more) =>
      var s1 := s + [MeansNot(n, env)];
      var s2 := s1 + [MeansAnd(more, env)];
      NotEvaluates(n, env, s);
      EvaluateAppend(RpnNot(n), RpnAnd(more), env, s, s1);
      AndEvaluates(more, env, s1);
      EvaluateAppend(RpnNot(n) + RpnAnd(more), [AND], env, s, s2);
      EvaluateOne(AND, env, s2);
      assert s2[..|s|] == s;
  }

  lemma {:induction false} OrEvaluates(o: OrE, env: int -> bool, s: seq<bool>)
    requires GoodOr(o)
    ensures Evaluate(RpnOr(o), env, s) == Returned(s + [MeansOr(o, env)])
    decreases o
  {
    match o
    case OrOne(a) => AndEvaluates(a, env, s);
    case OrMore(a, rest) =>
      var s1 := s + [MeansAnd(a, env)];
      var s2 := s1 + [MeansOr(rest, env)];
      AndEvaluates(a, env, s);
      EvaluateAppend(RpnAnd(a), RpnOr(rest), env, s, s1);
      OrEvaluates(rest, env, s1);
      EvaluateAppend(RpnAnd(a) + RpnOr(rest), [OR], env, s, s2);
      EvaluateOne(OR, env, s2);
      assert s2[..|s|] == s;
  }

  /** Compiling preserves meaning: for every expression, the output run on a stack machine leaves
    * exactly the expression's truth value. */
  lemma CompilingPreservesMeaning(o: OrE, env: int -> bool)
    requires GoodOr(o)
    ensures Compile(InfixOr(o)).State? && Evaluate(Compile(InfixOr(o)).output, env, []) == Returned([MeansOr(o, env)])
  {
    CompilesToRpn(o);
    OrEvaluates(o, env, []);
    assert [] + [MeansOr(o, env)] == [MeansOr(o, env)];
  }
}
