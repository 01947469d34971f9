/** Evaluation of compiled queries over posting lists: pkg/searcher/boolean_query.go, lines 5-41 and 103-167. */
module QueryEvaluation {
  import opened BooleanQuery
  import opened Collections
  import opened Sorting

  class Deque {
    var items: seq<int>

    constructor (items: seq<int>)
      ensures this.items == items
    {
      this.items := items;
    }

    function GetSize(): nat
      reads this
    {
      |items|
    }

    method PopFront() returns (item: int, valid: bool)
      modifies this
      ensures valid <==> old(items) != []
      ensures if valid then old(items) == [item] + items else item == 0 && items == []
    {
      if |items| == 0 {
        return 0, false;
      }
      item, valid := items[0], true;
      items := items[1..];
    }
  }

  // ---- PostingListIntersection2, lines 150-167

  /** The merge of two lists on the elements they share, pairing equal elements one to one. */
  ghost function Intersect(a: seq<int>, b: seq<int>): seq<int>
    decreases |a| + |b|
  {
    if a == [] || b == [] then []
    else if a[0] < b[0] then Intersect(a[1..], b)
    else if b[0] < a[0] then Intersect(a, b[1..])
    else [a[0]] + Intersect(a[1..], b[1..])
  }

  method PostingListIntersection2(a: seq<int>, b: seq<int>) returns (result: seq<int>)
    ensures result == Intersect(a, b)
    ensures Sorted(a) && Sorted(b) ==> Sorted(result) && multiset(result) == multiset(a) * multiset(b)
  {
    var idx1, idx2 := 0, 0;
    result := [];
    while idx1 < |a| && idx2 < |b|
      invariant idx1 <= |a| && idx2 <= |b|
      invariant result + Intersect(a[idx1..], b[idx2..]) == Intersect(a, b)
      decreases |a| + |b| - idx1 - idx2
    {
      assert a[idx1..][1..] == a[idx1 + 1..] && b[idx2..][1..] == b[idx2 + 1..];
      if a[idx1] < b[idx2] {
        idx1 := idx1 + 1;
      } else if b[idx2] < a[idx1] {
        idx2 := idx2 + 1;
      } else {
        assert result + ([a[idx1]] + Intersect(a[idx1 + 1..], b[idx2 + 1..])) == result + [a[idx1]] + Intersect(a[idx1 + 1..], b[idx2 + 1..]);
        result := result + [a[idx1]];
        idx1 := idx1 + 1;
        idx2 := idx2 + 1;
      }
    }
    if Sorted(a) && Sorted(b) {
      IntersectIsMeet(a, b);
    }
  }

  lemma HeadAndTail(s: seq<int>)
    requires s != []
    ensures multiset(s) == multiset{s[0]} + multiset(s[1..])
  {
    assert s == [s[0]] + s[1..];
  }

  lemma HeadIsLeast(s: seq<int>, x: int)
    requires s != [] && Sorted(s) && x < s[0]
    ensures multiset(s)[x] == 0
  {
    forall i | 0 <= i < |s| ensures s[i] != x {
      assert s[0] <= s[i];
    }
    assert x !in s;
  }

  lemma MeetDrops(x: int, a: multiset<int>, b: multiset<int>)
    requires b[x] == 0
    ensures (multiset{x} + a) * b == a * b && b * (multiset{x} + a) == b * a
  {}

  lemma MeetKeeps(x: int, a: multiset<int>, b: multiset<int>)
    ensures (multiset{x} + a) * (multiset{x} + b) == multiset{x} + a * b
  {}

  lemma SortedTail(s: seq<int>)
    requires s != [] && Sorted(s)
    ensures Sorted(s[1..]) && forall x :: x in s[1..] ==> s[0] <= x
  {}

  /** On sorted lists each element survives as often as it occurs in both. */
  lemma {:induction false} IntersectIsMeet(a: seq<int>, b: seq<int>)
    requires Sorted(a) && Sorted(b)
    ensures Sorted(Intersect(a, b)) && multiset(Intersect(a, b)) == multiset(a) * multiset(b)
    ensures forall x :: x in Intersect(a, b) ==> x in a && x in b
    decreases |a| + |b|
  {
    hide Sorted;
    if a == [] || b == [] {
      assert multiset(a) * multiset(b) == multiset{};
      assert Sorted([]) by { SortedShort([]); }
    } else {
      HeadAndTail(a);
      HeadAndTail(b);
      SortedTail(a);
      SortedTail(b);
      if a[0] < b[0] {
        IntersectIsMeet(a[1..], b);
        HeadIsLeast(b, a[0]);
        MeetDrops(a[0], multiset(a[1..]), multiset(b));
      } else if b[0] < a[0] {
        IntersectIsMeet(a, b[1..]);
        HeadIsLeast(a, b[0]);
        MeetDrops(b[0], multiset(b[1..]), multiset(a));
      } else {
        IntersectIsMeet(a[1..], b[1..]);
        MeetKeeps(a[0], multiset(a[1..]), multiset(b[1..]));
        SortedCons(a[0], Intersect(a[1..], b[1..]));
      }
    }
  }

  lemma SortedShort(s: seq<int>)
    requires |s| <= 1
    ensures Sorted(s)
  {}

  lemma SortedCons(x: int, s: seq<int>)
    requires Sorted(s) && forall y :: y in s ==> x <= y
    ensures Sorted([x] + s)
  {
    var r := [x] + s;
    forall i, j | 0 <= i < j < |r| ensures r[i] <= r[j] {
      assert r[j] == s[j - 1] && s[j - 1] in s;
      if i > 0 { assert r[i] == s[i - 1]; }
    }
  }

  // ---- processQuery, lines 103-148

  type Index = map<int, seq<int>>

  /** GetPostingList: the empty list for an unknown term. */
  function Postings(index: Index, term: int): seq<int> {
    if term in index then index[term] else []
  }

  /** The evaluator as a function: AND is carried out, OR and NOT leave the stack as it is. */
  ghost function Process(rpn: seq<int>, index: Index, s: seq<seq<int>>): Outcome<seq<seq<int>>>
    decreases |rpn|
  {
    if rpn == [] then Returned(s) else
      var token, n := rpn[0], |s|;
      if token == AND then (if n < 2 then Panicked else Process(rpn[1..], index, s[..n - 2] + [Intersect(s[n - 2], s[n - 1])]))
      else if token == OR || token == NOT then Process(rpn[1..], index, s)
      else Process(rpn[1..], index, s + [Postings(index, token)])
  }

  /** The answer, or the panic of a pop from the empty stack. */
  datatype Reply = Panics | Documents(list: seq<int>)

  ghost function ReplyOf(o: Outcome<seq<seq<int>>>): Reply {
    match o
    case Panicked => Panics
    case Returned(s) => if s == [] then Panics else Documents(s[|s| - 1])
  }

  method ProcessQuery(rpnDeque: Deque, index: Index) returns (reply: Reply)
    modifies rpnDeque
    ensures reply == ReplyOf(old(Process(rpnDeque.items, index, [])))
    ensures reply.Documents? ==> rpnDeque.items == []
  {
    var postingListStack: seq<seq<int>> := [];
    while rpnDeque.GetSize() != 0
      invariant Process(rpnDeque.items, index, postingListStack) == old(Process(rpnDeque.items, index, []))
      decreases |rpnDeque.items|
    {
      ghost var before := rpnDeque.items;
      var token, valid := rpnDeque.PopFront();
      assert before[0] == token && before[1..] == rpnDeque.items;
      ghost var n, s := |postingListStack|, postingListStack;
      if !IsOperator(token) {
        var postingList := Postings(index, token);
        postingListStack := postingListStack + [postingList];
      } else if token == AND {
        if |postingListStack| < 2 {
          return Panics;
        }
        var right := postingListStack[|postingListStack| - 1];
        postingListStack := postingListStack[..|postingListStack| - 1];
        var left := postingListStack[|postingListStack| - 1];
        postingListStack := postingListStack[..|postingListStack| - 1];
        var postingListIntersection := PostingListIntersection2(left, right);
        assert postingListStack == s[..n - 2] && left == s[n - 2] && right == s[n - 1];
        postingListStack := postingListStack + [postingListIntersection];
      }
    }
    if |postingListStack| == 0 {
      return Panics;
    }
    return Documents(postingListStack[|postingListStack| - 1]);
  }

  // ---- AND-only queries

  ghost predicate AndOnlyOr(o: OrE) {
    match o case OrOne(a) => AndOnlyAnd(a) case OrMore(_, _) => false
  }

  ghost predicate AndOnlyAnd(a: AndE) {
    match a case AndOne(n) => AndOnlyNot(n) case AndMore(n, more) => AndOnlyNot(n) && AndOnlyAnd(more)
  }

  ghost predicate AndOnlyNot(n: NotE) {
    match n case Word(t) => IsTerm(t) case Neg(_) => false case Paren(o) => AndOnlyOr(o)
  }

  /** The terms of a query, from left to right. */
  ghost function TermsOr(o: OrE): (r: seq<int>)
    ensures r != []
  {
    match o case OrOne(a) => TermsAnd(a) case OrMore(a, rest) => TermsAnd(a) + TermsOr(rest)
  }

  ghost function TermsAnd(a: AndE): (r: seq<int>)
    ensures r != []
  {
    match a case AndOne(n) => TermsNot(n) case AndMore(n, more) => TermsNot(n) + TermsAnd(more)
  }

  ghost function TermsNot(n: NotE): (r: seq<int>)
    ensures r != []
  {
    match n case Word(t) => [t] case Neg(m) => TermsNot(m) case Paren(o) => TermsOr(o)
  }

  /** A list in which each document occurs as often as in the term's list where it is rarest. */
  ghost predicate IsMeet(r: seq<int>, index: Index, terms: seq<int>) {
    && Sorted(r)
    && (forall d, t :: t in terms ==> multiset(r)[d] <= multiset(Postings(index, t))[d])
    && (forall d :: exists t :: t in terms && multiset(r)[d] == multiset(Postings(index, t))[d])
  }

  lemma MeetOfTwo(a: seq<int>, b: seq<int>, index: Index, s: seq<int>, t: seq<int>)
    requires IsMeet(a, index, s) && IsMeet(b, index, t)
    ensures IsMeet(Intersect(a, b), index, s + t)
  {
    hide Intersect, Sorted, Postings;
    IntersectIsMeet(a, b);
    var r := Intersect(a, b);
    forall d ensures exists x :: x in s + t && multiset(r)[d] == multiset(Postings(index, x))[d] {
      var x :| x in s && multiset(a)[d] == multiset(Postings(index, x))[d];
      var y :| y in t && multiset(b)[d] == multiset(Postings(index, y))[d];
      assert x in s + t && y in s + t;
      assert multiset(r)[d] == if multiset(a)[d] <= multiset(b)[d] then multiset(a)[d] else multiset(b)[d];
    }
    forall d, x | x in s + t ensures multiset(r)[d] <= multiset(Postings(index, x))[d] {
      assert multiset(r)[d] <= multiset(a)[d] && multiset(r)[d] <= multiset(b)[d];
    }
  }

  ghost predicate SortedIndex(index: Index) {
    forall t :: t in index ==> Sorted(index[t])
  }

  lemma {:induction false} ProcessAppend(a: seq<int>, b: seq<int>, index: Index, s: seq<seq<int>>, mid: seq<seq<int>>)
    requires Process(a, index, s) == Returned(mid)
    ensures Process(a + b, index, s) == Process(b, index, mid)
    decreases |a|
  {
    if a == [] {
      assert a + b == b;
    } else {
      var token, n := a[0], |s|;
      assert (a + b)[0] == token && (a + b)[1..] == a[1..] + b;
      var s' := if token == AND then s[..n - 2] + [Intersect(s[n - 2], s[n - 1])]
      else if token == OR || token == NOT then s else s + [Postings(index, token)];
      ProcessAppend(a[1..], b, index, s', mid);
    }
  }

  lemma ProcessAnd(index: Index, s: seq<seq<int>>, a: seq<int>, b: seq<int>)
    ensures Process([AND], index, s + [a] + [b]) == Returned(s + [Intersect(a, b)])
  {
    var st := s + [a] + [b];
    assert [AND][1..] == [] && st[..|st| - 2] == s;
  }

  lemma {:induction false} NotProcesses(n: NotE, index: Index, s: seq<seq<int>>) returns (r: seq<int>)
    requires AndOnlyNot(n) && SortedIndex(index)
    ensures Process(RpnNot(n), index, s) == Returned(s + [r]) && IsMeet(r, index, TermsNot(n))
    decreases n
  {
    match n
    case Word(t) =>
      r := Postings(index, t);
      assert [t][1..] == [];
    case Paren(o) =>
      r := OrProcesses(o, index, s);
  }

  lemma {:induction false} AndProcesses(a: AndE, index: Index, s: seq<seq<int>>) returns (r: seq<int>)
    requires AndOnlyAnd(a) && SortedIndex(index)
    ensures Process(RpnAnd(a), index, s) == Returned(s + [r]) && IsMeet(r, index, TermsAnd(a))
    decreases a
  {
    hide IsMeet, Process, SortedIndex;
    match a
    case AndOne(n) =>
      r := NotProcesses(n, index, s);
    case AndMore(n, more) =>
      var left := NotProcesses(n, index, s);
      var right := AndProcesses(more, index, s + [left]);
      ProcessAppend(RpnNot(n), RpnAnd(more), index, s, s + [left]);
      ProcessAppend(RpnNot(n) + RpnAnd(more), [AND], index, s, s + [left] + [right]);
      ProcessAnd(index, s, left, right);
      MeetOfTwo(left, right, index, TermsNot(n), TermsAnd(more));
      r := Intersect(left, right);
  }

  lemma {:induction false} OrProcesses(o: OrE, index: Index, s: seq<seq<int>>) returns (r: seq<int>)
    requires AndOnlyOr(o) && SortedIndex(index)
    ensures Process(RpnOr(o), index, s) == Returned(s + [r]) && IsMeet(r, index, TermsOr(o))
    decreases o
  {
    match o
    case OrOne(a) =>
      r := AndProcesses(a, index, s);
  }

  lemma {:induction false} AndOnlyIsGood(o: OrE)
    requires AndOnlyOr(o)
    ensures GoodOr(o)
    decreases o
  {
    match o case OrOne(a) => AndOnlyIsGoodAnd(a);
  }

  lemma {:induction false} AndOnlyIsGoodAnd(a: AndE)
    requires AndOnlyAnd(a)
    ensures GoodAnd(a)
    decreases a
  {
    match a
    case AndOne(n) => AndOnlyIsGoodNot(n);
    case AndMore(n, more) =>
      AndOnlyIsGoodNot(n);
      AndOnlyIsGoodAnd(more);
  }

  lemma {:induction false} AndOnlyIsGoodNot(n: NotE)
    requires AndOnlyNot(n)
    ensures GoodNot(n)
    decreases n
  {
    match n
    case Word(t) =>
    case Paren(o) => AndOnlyIsGood(o);
  }

  /** Compile, then process: for every AND-only query, however bracketed, the one list left on the
    * stack holds each document with its least multiplicity over all the query's terms. */
  lemma AndQueriesAreMeets(o: OrE, index: Index) returns (r: seq<int>)
    requires AndOnlyOr(o) && SortedIndex(index)
    ensures Compile(InfixOr(o)).State? && Process(Compile(InfixOr(o)).output, index, []) == Returned([r])
    ensures IsMeet(r, index, TermsOr(o))
  {
    AndOnlyIsGood(o);
    CompilesToRpn(o);
    r := OrProcesses(o, index, []);
    assert [] + [r] == [r];
  }

  ghost function EitherOf(a: int, b: int): OrE {
    OrMore(AndOne(Word(a)), OrOne(AndOne(Word(b))))
  }

  lemma EitherFacts(a: int, b: int, env: int -> bool)
    requires IsTerm(a) && IsTerm(b)
    ensures GoodOr(EitherOf(a, b)) && RpnOr(EitherOf(a, b)) == [a, b, OR]
    ensures MeansOr(EitherOf(a, b), env) <==> env(a) || env(b)
  {
    hide GoodOr, RpnOr, MeansOr;
    var rest := OrOne(AndOne(Word(b)));
    WordFacts(a, env);
    WordFacts(b, env);
    EitherUnfolds(AndOne(Word(a)), rest, env);
  }

  lemma WordFacts(t: int, env: int -> bool)
    requires IsTerm(t)
    ensures var a := AndOne(Word(t)); GoodAnd(a) && RpnAnd(a) == [t] && (MeansAnd(a, env) <==> env(t))
    ensures var o := OrOne(AndOne(Word(t))); GoodOr(o) && RpnOr(o) == [t] && (MeansOr(o, env) <==> env(t))
  {
    assert MeansNot(Word(t), env) == env(t);
    assert MeansAnd(AndOne(Word(t)), env) == MeansNot(Word(t), env);
  }

  lemma EitherUnfolds(a: AndE, rest: OrE, env: int -> bool)
    ensures var o := OrMore(a, rest);
      && (GoodOr(o) <==> GoodAnd(a) && GoodOr(rest)) && RpnOr(o) == RpnAnd(a) + RpnOr(rest) + [OR]
      && (MeansOr(o, env) <==> MeansAnd(a, env) || MeansOr(rest, env))
  {}

  /** OR is not carried out: "a OR b" is answered with b's list, which is the union exactly when every
    * document of a is one of b. */
  lemma OrIsIgnored(a: int, b: int, index: Index)
    requires IsTerm(a) && IsTerm(b)
    ensures Compile(InfixOr(EitherOf(a, b))).State?
    ensures Process(Compile(InfixOr(EitherOf(a, b))).output, index, []) == Returned([Postings(index, a), Postings(index, b)])
    ensures (forall d :: d in Postings(index, b) <==> MeansOr(EitherOf(a, b), t => d in Postings(index, t)))
      <==> (forall d :: d in Postings(index, a) ==> d in Postings(index, b))
  {
    EitherFacts(a, b, t => false);
    CompilesToRpn(EitherOf(a, b));
    var A, B := Postings(index, a), Postings(index, b);
    assert [a, b, OR][1..] == [b, OR] && [b, OR][1..] == [OR] && [OR][1..] == [];
    assert [] + [A] == [A] && [A] + [B] == [A, B];
    assert Process([OR], index, [A, B]) == Process([], index, [A, B]) == Returned([A, B]);
    assert Process([b, OR], index, [A]) == Process([OR], index, [A] + [B]);
    assert Process([a, b, OR], index, []) == Process([b, OR], index, [] + [A]);
    forall d ensures MeansOr(EitherOf(a, b), t => d in Postings(index, t)) <==> d in Postings(index, a) || d in Postings(index, b) {
      EitherFacts(a, b, t => d in Postings(index, t));
    }
  }

  // ---- every query of the grammar

  /** AND on the last two lists. */
  ghost function Meet2(z: seq<seq<int>>): (r: seq<seq<int>>)
    requires |z| >= 2
    ensures |r| == |z| - 1
  {
    z[..|z| - 2] + [Intersect(z[|z| - 2], z[|z| - 1])]
  }

  /** The lists that an expression leaves on the stack: OR leaves those of both sides, NOT those of its
    * operand, and AND joins the two topmost, whichever side they come from. */
  ghost function PushOr(o: OrE, index: Index): (r: seq<seq<int>>)
    ensures r != []
  {
    match o case OrOne(a) => PushAnd(a, index) case OrMore(a, rest) => PushAnd(a, index) + PushOr(rest, index)
  }

  ghost function PushAnd(a: AndE, index: Index): (r: seq<seq<int>>)
    ensures r != []
  {
    match a case AndOne(n) => PushNot(n, index) case AndMore(n, more) => Meet2(PushNot(n, index) + PushAnd(more, index))
  }

  ghost function PushNot(n: NotE, index: Index): (r: seq<seq<int>>)
    ensures r != []
  {
    match n case Word(t) => [Postings(index, t)] case Neg(m) => PushNot(m, index) case Paren(o) => PushOr(o, index)
  }

  lemma ProcessMeet(index: Index, s: seq<seq<int>>, z: seq<seq<int>>)
    requires |z| >= 2
    ensures Process([AND], index, s + z) == Returned(s + Meet2(z))
  {
    var st := s + z;
    assert [AND][1..] == [] && st[..|st| - 2] == s + z[..|z| - 2];
    assert s + z[..|z| - 2] + [Intersect(z[|z| - 2], z[|z| - 1])] == s + Meet2(z);
  }

  lemma {:induction false} NotPushes(n: NotE, index: Index, s: seq<seq<int>>)
    requires GoodNot(n)
    ensures Process(RpnNot(n), index, s) == Returned(s + PushNot(n, index))
    decreases n
  {
    match n
    case Word(t) => assert [t][1..] == [];
    case Neg(m) =>
      NotPushes(m, index, s);
      ProcessAppend(RpnNot(m), [NOT], index, s, s + PushNot(m, index));
      assert [NOT][1..] == [];
    case Paren(o) => OrPushes(o, index, s);
  }

  lemma {:induction false} AndPushes(a: AndE, index: Index, s: seq<seq<int>>)
    requires GoodAnd(a)
    ensures Process(RpnAnd(a), index, s) == Returned(s + PushAnd(a, index))
    decreases a
  {
    hide Process, Meet2;
    match a
    case AndOne(n) => NotPushes(n, index, s);
    case AndMore(n, more) =>
      var x, y := PushNot(n, index), PushAnd(more, index);
      NotPushes(n, index, s);
      AndPushes(more, index, s + x);
      ProcessAppend(RpnNot(n), RpnAnd(more), index, s, s + x);
      assert s + x + y == s + (x + y);
      ProcessAppend(RpnNot(n) + RpnAnd(more), [AND], index, s, s + (x + y));
      ProcessMeet(index, s, x + y);
  }

  lemma {:induction false} OrPushes(o: OrE, index: Index, s: seq<seq<int>>)
    requires GoodOr(o)
    ensures Process(RpnOr(o), index, s) == Returned(s + PushOr(o, index))
    decreases o
  {
    match o
    case OrOne(a) => AndPushes(a, index, s);
    case OrMore(a, rest) =>
      var x, y := PushAnd(a, index), PushOr(rest, index);
      AndPushes(a, index, s);
      OrPushes(rest, index, s + x);
      ProcessAppend(RpnAnd(a), RpnOr(rest), index, s, s + x);
      ProcessAppend(RpnAnd(a) + RpnOr(rest), [OR], index, s, s + x + y);
      assert [OR][1..] == [] && s + x + y == s + (x + y);
  }

  /** The terms whose lists are met in each list that an expression leaves. */
  ghost function KeepOr(o: OrE): (r: seq<seq<int>>)
    ensures r != []
  {
    match o case OrOne(a) => KeepAnd(a) case OrMore(a, rest) => KeepAnd(a) + KeepOr(rest)
  }

  ghost function KeepAnd(a: AndE): (r: seq<seq<int>>)
    ensures r != []
  {
    match a
    case AndOne(n) => KeepNot(n)
    case AndMore(n, more) =>
      var z := KeepNot(n) + KeepAnd(more);
      z[..|z| - 2] + [z[|z| - 2] + z[|z| - 1]]
  }

  ghost function KeepNot(n: NotE): (r: seq<seq<int>>)
    ensures r != []
  {
    match n case Word(t) => [[t]] case Neg(m) => KeepNot(m) case Paren(o) => KeepOr(o)
  }

  ghost predicate AllMeets(lists: seq<seq<int>>, index: Index, terms: seq<seq<int>>) {
    |lists| == |terms| && forall i :: 0 <= i < |lists| ==> terms[i] != [] && IsMeet(lists[i], index, terms[i])
  }

  lemma MeetsAppend(a: seq<seq<int>>, b: seq<seq<int>>, index: Index, s: seq<seq<int>>, t: seq<seq<int>>)
    requires AllMeets(a, index, s) && AllMeets(b, index, t)
    ensures AllMeets(a + b, index, s + t)
  {
    hide IsMeet;
  }

  lemma MeetsJoin(z: seq<seq<int>>, index: Index, terms: seq<seq<int>>)
    requires AllMeets(z, index, terms) && |z| >= 2
    ensures AllMeets(Meet2(z), index, terms[..|z| - 2] + [terms[|z| - 2] + terms[|z| - 1]])
  {
    hide IsMeet;
    var n := |z|;
    MeetOfTwo(z[n - 2], z[n - 1], index, terms[n - 2], terms[n - 1]);
  }

  lemma {:induction false} OrMeets(o: OrE, index: Index)
    requires SortedIndex(index)
    ensures AllMeets(PushOr(o, index), index, KeepOr(o))
    decreases o
  {
    match o
    case OrOne(a) => AndMeets(a, index);
    case OrMore(a, rest) =>
      AndMeets(a, index);
      OrMeets(rest, index);
      MeetsAppend(PushAnd(a, index), PushOr(rest, index), index, KeepAnd(a), KeepOr(rest));
  }

  lemma {:induction false} AndMeets(a: AndE, index: Index)
    requires SortedIndex(index)
    ensures AllMeets(PushAnd(a, index), index, KeepAnd(a))
    decreases a
  {
    hide AllMeets;
    match a
    case AndOne(n) => NotMeets(n, index);
    case AndMore(n, more) =>
      NotMeets(n, index);
      AndMeets(more, index);
      MeetsAppend(PushNot(n, index), PushAnd(more, index), index, KeepNot(n), KeepAnd(more));
      SameCount(PushNot(n, index) + PushAnd(more, index), index, KeepNot(n) + KeepAnd(more));
      MeetsJoin(PushNot(n, index) + PushAnd(more, index), index, KeepNot(n) + KeepAnd(more));
  }

  lemma SameCount(lists: seq<seq<int>>, index: Index, terms: seq<seq<int>>)
    requires AllMeets(lists, index, terms)
    ensures |lists| == |terms|
  {}

  lemma {:induction false} NotMeets(n: NotE, index: Index)
    requires SortedIndex(index)
    ensures AllMeets(PushNot(n, index), index, KeepNot(n))
    decreases n
  {
    match n
    case Word(t) => assert IsMeet(Postings(index, t), index, [t]) by { OwnMeet(t, index); }
    case Neg(m) => NotMeets(m, index);
    case Paren(o) => OrMeets(o, index);
  }

  lemma OwnMeet(t: int, index: Index)
    requires SortedIndex(index)
    ensures IsMeet(Postings(index, t), index, [t])
  {
    assert t in [t];
  }

  /** The terms that the answer to a query depends on. */
  ghost function KeptTerms(o: OrE): seq<int> {
    KeepOr(o)[|KeepOr(o)| - 1]
  }

  /** Every query of the grammar is answered without a panic, with the meet of the lists of its kept
    * terms: the other terms, and every OR and NOT, have no say. */
  lemma GrammarQueriesAnswer(o: OrE, index: Index) returns (r: seq<int>)
    requires GoodOr(o) && SortedIndex(index)
    ensures Compile(InfixOr(o)).State? && ReplyOf(Process(Compile(InfixOr(o)).output, index, [])) == Documents(r)
    ensures IsMeet(r, index, KeptTerms(o)) && KeptTerms(o) != []
    ensures forall d :: d in r <==> forall t :: t in KeptTerms(o) ==> t in index && d in index[t]
  {
    hide Process, PushOr, KeepOr, IsMeet, SortedIndex, RpnOr, InfixOr, Compile;
    CompilesToRpn(o);
    OrPushes(o, index, []);
    OrMeets(o, index);
    var z := PushOr(o, index);
    assert [] + z == z;
    r := z[|z| - 1];
    MeetMembers(r, index, KeptTerms(o));
  }

  lemma MeetMembers(r: seq<int>, index: Index, terms: seq<int>)
    requires IsMeet(r, index, terms)
    ensures forall d :: d in r <==> forall t :: t in terms ==> t in index && d in index[t]
  {
    hide Sorted;
    forall d ensures d in r <==> forall t :: t in terms ==> t in index && d in index[t] {
      assert d in r <==> multiset(r)[d] > 0;
      if d in r {
        forall t | t in terms ensures t in index && d in index[t] {
          assert multiset(r)[d] <= multiset(Postings(index, t))[d];
          assert d in Postings(index, t) by { assert d in multiset(Postings(index, t)); }
        }
      } else {
        var t :| t in terms && multiset(r)[d] == multiset(Postings(index, t))[d];
        assert d !in Postings(index, t) by { assert d !in multiset(Postings(index, t)); }
      }
    }
  }

  // ---- when the answer is right

  /** d is a right answer to the query. */
  ghost predicate Wanted(o: OrE, index: Index, d: int) {
    MeansOr(o, t => d in Postings(index, t))
  }

  ghost predicate AllTrue(env: int -> bool, terms: seq<int>) {
    forall t :: t in terms ==> env(t)
  }

  /** Document d contains all the terms. */
  ghost predicate HasAll(d: int, index: Index, terms: seq<int>) {
    forall t :: t in terms ==> t in index && d in index[t]
  }

  ghost predicate Answers(o: OrE, index: Index) {
    Compile(InfixOr(o)).State? &&
    var reply := ReplyOf(Process(Compile(InfixOr(o)).output, index, []));
    reply.Documents? && forall d :: d in reply.list <==> Wanted(o, index, d)
  }

  /** An OR of AND-only parts. */
  ghost predicate AndOnlyParts(o: OrE) {
    match o case OrOne(a) => AndOnlyAnd(a) case OrMore(a, rest) => AndOnlyAnd(a) && AndOnlyParts(rest)
  }

  lemma {:induction false} AndOnlyKeeps(a: AndE, env: int -> bool)
    requires AndOnlyAnd(a)
    ensures KeepAnd(a) == [TermsAnd(a)] && (MeansAnd(a, env) <==> AllTrue(env, TermsAnd(a)))
    decreases a
  {
    match a
    case AndOne(n) => AndOnlyKeepsNot(n, env);
    case AndMore(n, more) =>
      AndOnlyKeepsNot(n, env);
      AndOnlyKeeps(more, env);
      assert KeepNot(n) + KeepAnd(more) == [TermsNot(n), TermsAnd(more)];
      assert forall t :: t in TermsNot(n) + TermsAnd(more) <==> t in TermsNot(n) || t in TermsAnd(more);
  }

  lemma {:induction false} AndOnlyKeepsNot(n: NotE, env: int -> bool)
    requires AndOnlyNot(n)
    ensures KeepNot(n) == [TermsNot(n)] && (MeansNot(n, env) <==> AllTrue(env, TermsNot(n)))
    decreases n
  {
    match n
    case Word(t) =>
    case Paren(o) => match o { case OrOne(a) => AndOnlyKeeps(a, env); }
  }

  lemma {:induction false} PartsMean(o: OrE, env: int -> bool)
    requires AndOnlyParts(o)
    ensures GoodOr(o)
    ensures MeansOr(o, env) <==> exists i :: 0 <= i < |KeepOr(o)| && AllTrue(env, KeepOr(o)[i])
    decreases o
  {
    hide AllTrue;
    match o
    case OrOne(a) =>
      AndOnlyKeeps(a, env);
      AndOnlyIsGoodAnd(a);
      assert KeepOr(o)[0] == TermsAnd(a);
    case OrMore(a, rest) =>
      AndOnlyKeeps(a, env);
      AndOnlyIsGoodAnd(a);
      PartsMean(rest, env);
      SomeOf(env, TermsAnd(a), KeepOr(rest));
      assert KeepOr(o) == [TermsAnd(a)] + KeepOr(rest);
  }

  lemma SomeOf(env: int -> bool, first: seq<int>, rest: seq<seq<int>>)
    ensures var all := [first] + rest;
      (exists i :: 0 <= i < |all| && AllTrue(env, all[i]))
      <==> AllTrue(env, first) || exists i :: 0 <= i < |rest| && AllTrue(env, rest[i])
  {
    hide AllTrue;
    var all := [first] + rest;
    assert all[0] == first && forall i :: 0 <= i < |rest| ==> all[i + 1] == rest[i];
    if i :| 0 <= i < |all| && AllTrue(env, all[i]) {
      assert i > 0 ==> AllTrue(env, rest[i - 1]);
    }
    if i :| 0 <= i < |rest| && AllTrue(env, rest[i]) {
      assert AllTrue(env, all[i + 1]);
    }
  }

  /** An OR of AND-only parts is answered with its last part alone; that is right exactly when every
    * document with all the terms of some part has all the terms of the last one. */
  lemma OrOfAndsIsRight(o: OrE, index: Index)
    requires AndOnlyParts(o) && SortedIndex(index)
    ensures Answers(o, index) <==>
      forall i, d {:trigger HasAll(d, index, KeepOr(o)[i])} :: 0 <= i < |KeepOr(o)| && HasAll(d, index, KeepOr(o)[i]) ==> HasAll(d, index, KeptTerms(o))
  {
    hide Wanted, HasAll, KeepOr, Compile, Process, MeansOr, InfixOr, IsMeet, SortedIndex;
    PartsMean(o, t => false);
    var r := GrammarQueriesAnswer(o, index);
    forall d ensures Wanted(o, index, d) <==> exists i :: 0 <= i < |KeepOr(o)| && HasAll(d, index, KeepOr(o)[i]) {
      WantedMeans(o, index, d);
    }
    forall d ensures d in r <==> HasAll(d, index, KeptTerms(o)) {
      HasAllMeans(d, index, KeptTerms(o));
    }
    LastPart(o);
  }

  lemma LastPart(o: OrE)
    ensures KeptTerms(o) == KeepOr(o)[|KeepOr(o)| - 1]
  {}

  lemma HasAllMeans(d: int, index: Index, terms: seq<int>)
    ensures HasAll(d, index, terms) <==> forall t :: t in terms ==> t in index && d in index[t]
  {}

  /** A document is wanted exactly if it has all terms of some part. */
  lemma WantedMeans(o: OrE, index: Index, d: int)
    requires AndOnlyParts(o)
    ensures Wanted(o, index, d) <==> exists i :: 0 <= i < |KeepOr(o)| && HasAll(d, index, KeepOr(o)[i])
  {
    hide KeepOr, MeansOr, AndOnlyParts;
    var env := t => d in Postings(index, t);
    PartsMean(o, env);
    forall i | 0 <= i < |KeepOr(o)| ensures AllTrue(env, KeepOr(o)[i]) <==> HasAll(d, index, KeepOr(o)[i]) {}
  }

  /** NOT of an AND-only expression is answered with that expression's documents: wrong on every
    * document there is. */
  lemma NotIsWrong(n: NotE, index: Index) returns (r: seq<int>)
    requires AndOnlyNot(n) && SortedIndex(index)
    ensures var o := OrOne(AndOne(Neg(n)));
      && GoodOr(o) && Compile(InfixOr(o)).State?
      && ReplyOf(Process(Compile(InfixOr(o)).output, index, [])) == Documents(r)
      && forall d :: d in r <==> !Wanted(o, index, d)
  {
    var o := OrOne(AndOne(Neg(n)));
    AndOnlyIsGoodNot(n);
    assert GoodNot(Neg(n)) && GoodAnd(AndOne(Neg(n)));
    r := GrammarQueriesAnswer(o, index);
    AndOnlyKeepsNot(n, t => false);
    assert KeepNot(Neg(n)) == [TermsNot(n)] && KeepAnd(AndOne(Neg(n))) == [TermsNot(n)];
    assert KeepOr(o) == [TermsNot(n)];
    forall d ensures d in r <==> !Wanted(o, index, d) {
      var env := t => d in Postings(index, t);
      AndOnlyKeepsNot(n, env);
      assert MeansOr(o, env) == MeansAnd(AndOne(Neg(n)), env) == MeansNot(Neg(n), env) == !MeansNot(n, env);
    }
  }

  /** AND takes the two topmost lists, whichever side they come from: "c AND (a OR b)" is answered with
    * the meet of a and b, and c has no say. */
  lemma AndOverOr(c: int, a: int, b: int)
    requires IsTerm(a) && IsTerm(b) && IsTerm(c)
    ensures var o := OrOne(AndMore(Word(c), AndOne(Paren(EitherOf(a, b))))); GoodOr(o) && KeptTerms(o) == [a, b]
  {
    EitherFacts(a, b, t => false);
    assert KeepNot(Word(a)) == [[a]] && KeepNot(Word(b)) == [[b]] && KeepNot(Word(c)) == [[c]];
    assert KeepAnd(AndOne(Word(a))) == [[a]] && KeepAnd(AndOne(Word(b))) == [[b]];
    assert KeepOr(OrOne(AndOne(Word(b)))) == [[b]];
    assert KeepOr(EitherOf(a, b)) == [[a]] + [[b]] == [[a], [b]];
    var more := AndOne(Paren(EitherOf(a, b)));
    assert KeepNot(Paren(EitherOf(a, b))) == [[a], [b]];
    assert KeepAnd(more) == [[a], [b]];
    var all := AndMore(Word(c), more);
    assert KeepNot(Word(c)) + KeepAnd(more) == [[c], [a], [b]];
    assert KeepAnd(all) == [[c]] + [[a] + [b]];
    assert GoodNot(Paren(EitherOf(a, b))) && GoodAnd(more) && GoodAnd(all);
    assert KeepOr(OrOne(all)) == KeepAnd(all);
  }

  /** Short queries in the program's own numbers, where a term is any number but -1 to -5: "a AND b",
    * "a OR b", "NOT a" and "(a)", and what they are answered with. */
  lemma LiteralQueries(a: int, b: int, index: Index)
    requires (a < -5 || a > -1) && (b < -5 || b > -1) && SortedIndex(index)
    ensures Compile([a, -1, b]) == State([a, b, -1], []) && Compile([a, -4, b]) == State([a, b, -4], [])
    ensures Compile([-5, a]) == State([a, -5], []) && Compile([-2, a, -3]) == State([a], [])
    ensures var reply := ReplyOf(Process([a, b, -1], index, []));
      reply.Documents? && forall d :: d in reply.list <==> a in index && b in index && d in index[a] && d in index[b]
    ensures ReplyOf(Process([a, b, -4], index, [])) == Documents(if b in index then index[b] else [])
    ensures ReplyOf(Process([a, -5], index, [])) == Documents(if a in index then index[a] else [])
  {
    hide Process, Compile, ReplyOf, SortedIndex;
    EitherCompiles(a, b);
    BothCompile(a, b);
    OtherCompiles(a);
    LiteralAnd(a, b, index);
    LiteralOthers(a, b, index);
  }

  lemma TwoWords(a: int, b: int, index: Index)
    requires IsTerm(a) && IsTerm(b)
    ensures Process([a] + [b], index, []) == Returned([Postings(index, a), Postings(index, b)])
  {
    hide Process, Postings;
    ProcessWord(a, index, []);
    ProcessWord(b, index, [Postings(index, a)]);
    assert [] + [Postings(index, a)] == [Postings(index, a)];
    assert [Postings(index, a)] + [Postings(index, b)] == [Postings(index, a), Postings(index, b)];
    ProcessAppend([a], [b], index, [], [Postings(index, a)]);
  }

  lemma LiteralAnd(a: int, b: int, index: Index)
    requires IsTerm(a) && IsTerm(b) && SortedIndex(index)
    ensures var reply := ReplyOf(Process([a, b, -1], index, []));
      reply.Documents? && forall d :: d in reply.list <==> a in index && b in index && d in index[a] && d in index[b]
  {
    hide Process, Intersect;
    var A, B := Postings(index, a), Postings(index, b);
    TwoWords(a, b, index);
    ProcessAppend([a] + [b], [-1], index, [], [A, B]);
    assert [a] + [b] + [-1] == [a, b, -1];
    ProcessAnd(index, [], A, B);
    assert [] + [A] + [B] == [A, B];
    IntersectIsMeet(A, B);
    InBoth(A, B, Intersect(A, B));
  }

  lemma InBoth(a: seq<int>, b: seq<int>, r: seq<int>)
    requires multiset(r) == multiset(a) * multiset(b)
    ensures forall d :: d in r <==> d in a && d in b
  {
    forall d ensures d in r <==> d in a && d in b {
      assert d in r <==> d in multiset(r);
      assert d in a && d in b <==> d in multiset(a) && d in multiset(b);
    }
  }

  lemma LiteralOthers(a: int, b: int, index: Index)
    requires IsTerm(a) && IsTerm(b)
    ensures ReplyOf(Process([a, b, -4], index, [])) == Documents(if b in index then index[b] else [])
    ensures ReplyOf(Process([a, -5], index, [])) == Documents(if a in index then index[a] else [])
  {
    hide Process;
    var A, B := Postings(index, a), Postings(index, b);
    TwoWords(a, b, index);
    ProcessAppend([a] + [b], [-4], index, [], [A, B]);
    ProcessIdle(-4, index, [A, B]);
    assert [a] + [b] + [-4] == [a, b, -4];
    ProcessWord(a, index, []);
    assert [] + [A] == [A];
    ProcessAppend([a], [-5], index, [], [A]);
    ProcessIdle(-5, index, [A]);
    assert [a] + [-5] == [a, -5];
  }

  lemma ProcessWord(t: int, index: Index, s: seq<seq<int>>)
    requires IsTerm(t)
    ensures Process([t], index, s) == Returned(s + [Postings(index, t)])
  {
    assert [t][1..] == [];
  }

  lemma ProcessIdle(token: int, index: Index, s: seq<seq<int>>)
    requires token == OR || token == NOT
    ensures Process([token], index, s) == Returned(s)
  {
    assert [token][1..] == [];
  }

  lemma EitherCompiles(a: int, b: int)
    requires IsTerm(a) && IsTerm(b)
    ensures Compile([a, -4, b]) == State([a, b, -4], [])
  {
    EitherFacts(a, b, t => false);
    var o := EitherOf(a, b);
    CompilesToRpn(o);
    assert InfixAnd(AndOne(Word(a))) == InfixNot(Word(a)) == [a] && InfixAnd(AndOne(Word(b))) == InfixNot(Word(b)) == [b];
    assert InfixOr(OrOne(AndOne(Word(b)))) == [b];
    assert InfixOr(o) == [a] + [OR] + [b] == [a, -4, b];
  }

  lemma BothCompile(a: int, b: int)
    requires IsTerm(a) && IsTerm(b)
    ensures Compile([a, -1, b]) == State([a, b, -1], [])
  {
    var both := AndMore(Word(a), AndOne(Word(b)));
    assert GoodNot(Word(a)) && GoodAnd(AndOne(Word(b))) && GoodAnd(both);
    CompilesToRpn(OrOne(both));
    assert RpnNot(Word(a)) == [a] && RpnAnd(AndOne(Word(b))) == RpnNot(Word(b)) == [b];
    assert RpnAnd(both) == [a] + [b] + [AND] == [a, b, -1];
    assert InfixNot(Word(a)) == [a] && InfixAnd(AndOne(Word(b))) == InfixNot(Word(b)) == [b];
    assert InfixAnd(both) == [a] + [AND] + [b] == [a, -1, b];
  }

  lemma OtherCompiles(a: int)
    requires IsTerm(a)
    ensures Compile([-5, a]) == State([a, -5], []) && Compile([-2, a, -3]) == State([a], [])
  {
    var no, bare := Neg(Word(a)), OrOne(AndOne(Word(a)));
    WordFacts(a, t => false);
    assert GoodNot(no) && GoodAnd(AndOne(no)) && GoodNot(Paren(bare)) && GoodAnd(AndOne(Paren(bare)));
    CompilesToRpn(OrOne(AndOne(no)));
    CompilesToRpn(OrOne(AndOne(Paren(bare))));
    assert RpnNot(no) == RpnNot(Word(a)) + [NOT] == [a, -5] && RpnAnd(AndOne(no)) == [a, -5];
    assert RpnNot(Paren(bare)) == [a] && RpnAnd(AndOne(Paren(bare))) == [a];
    assert InfixNot(Word(a)) == [a] && InfixAnd(AndOne(Word(a))) == [a] && InfixOr(bare) == [a];
    assert InfixNot(no) == [NOT] + [a] == [-5, a] && InfixAnd(AndOne(no)) == [-5, a];
    assert InfixNot(Paren(bare)) == [OPEN] + [a] + [CLOSE] == [-2, a, -3] && InfixAnd(AndOne(Paren(bare))) == [-2, a, -3];
  }

  /** A whole query: compiled and processed as the searcher does. Every query of the grammar gets an
    * answer; for an AND-only one it is right. */
  method AnswerQuery(tokens: seq<int>, index: Index, ghost o: OrE) returns (reply: Reply)
    requires GoodOr(o) && tokens == InfixOr(o) && SortedIndex(index)
    ensures reply.Documents? && IsMeet(reply.list, index, KeptTerms(o))
    ensures forall d :: d in reply.list <==> forall t :: t in KeptTerms(o) ==> t in index && d in index[t]
    ensures AndOnlyOr(o) ==> IsMeet(reply.list, index, TermsOr(o)) && forall d :: d in reply.list <==> Wanted(o, index, d)
  {
    ghost var r := GrammarQueriesAnswer(o, index);
    var rpn := ShuntingYardRPN(tokens);
    var rpnDeque := new Deque(rpn.output);
    reply := ProcessQuery(rpnDeque, index);
    if AndOnlyOr(o) { AndOnlyAnswer(o, index, r); }
  }

  lemma AndOnlyAnswer(o: OrE, index: Index, r: seq<int>)
    requires AndOnlyOr(o) && IsMeet(r, index, KeptTerms(o))
    ensures KeptTerms(o) == TermsOr(o) && forall d :: d in r <==> Wanted(o, index, d)
  {
    match o
    case OrOne(a) =>
      AndOnlyKeeps(a, t => false);
      MeetMembers(r, index, TermsOr(o));
      forall d ensures d in r <==> Wanted(o, index, d) {
        AndOnlyKeeps(a, t => d in Postings(index, t));
      }
  }
}
