/** The n-gram count tables and the back-off estimate: pkg/searcher/ngram_lm.go, lines 112-342 and 372-384.
  *
  * An n-gram is a sequence of n word identifiers. The four counting functions of the source differ
  * only in n, and in that the first also adds to TotalWordFreq.
  */
module Ngrams {
  import opened Collections

  type Table = map<seq<int>, nat>

  ghost function Repeat(x: int, n: nat): (r: seq<int>)
    ensures |r| == n && forall i :: 0 <= i < n ==> r[i] == x
  {
    seq(n, i => x)
  }

  /** A document between n start tokens and one end token. */
  ghost function Padded(doc: seq<int>, n: nat, start: int, end: int): (r: seq<int>)
    ensures |r| == n + |doc| + 1
  {
    Repeat(start, n) + doc + [end]
  }

  lemma PaddedAt(doc: seq<int>, n: nat, start: int, end: int, i: nat)
    requires i < n + |doc| + 1
    ensures Padded(doc, n, start, end)[i] == if i < n then start else if i < n + |doc| then doc[i - n] else end
  {}

  /** How many of the first k windows of p equal the n-gram g. */
  ghost function Occurrences(p: seq<int>, g: seq<int>, k: nat): nat
    requires k == 0 || k - 1 + |g| <= |p|
  {
    if k == 0 then 0 else Occurrences(p, g, k - 1) + (if p[k - 1..k - 1 + |g|] == g then 1 else 0)
  }

  /** Occurrences of g in the corpus, each document padded for n = |g|. */
  ghost function Count(data: seq<seq<int>>, g: seq<int>, start: int, end: int): nat {
    if data == [] then 0 else
      var last := |data| - 1;
      Count(data[..last], g, start, end) + Occurrences(Padded(data[last], |g|, start, end), g, |data[last]| + 2)
  }

  ghost predicate WindowAt(p: seq<int>, g: seq<int>, i: int) {
    0 <= i && i + |g| <= |p| && p[i..i + |g|] == g
  }

  /** Occurrences counts the places at which a window equals g. */
  lemma {:induction false} OccurrencesAreWindows(p: seq<int>, g: seq<int>, k: nat)
    requires k == 0 || k - 1 + |g| <= |p|
    ensures Occurrences(p, g, k) == |set i | 0 <= i < k && WindowAt(p, g, i)|
  {
    var places := set i | 0 <= i < k && WindowAt(p, g, i);
    if k == 0 {
      assert places == {};
    } else {
      OccurrencesAreWindows(p, g, k - 1);
      var before := set i | 0 <= i < k - 1 && WindowAt(p, g, i);
      assert WindowAt(p, g, k - 1) <==> p[k - 1..k - 1 + |g|] == g;
      OneMorePlace(before, places, p, g, k);
    }
  }

  lemma OneMorePlace(before: set<int>, places: set<int>, p: seq<int>, g: seq<int>, k: nat)
    requires k >= 1 && places == (set i | 0 <= i < k && WindowAt(p, g, i)) && before == set i | 0 <= i < k - 1 && WindowAt(p, g, i)
    ensures |places| == |before| + if WindowAt(p, g, k - 1) then 1 else 0
  {
    hide WindowAt;
    assert places == if WindowAt(p, g, k - 1) then before + {k - 1} else before;
  }

  /** Count adds up the documents, and in each it counts all places of the padded document. */
  lemma CountByDocument(data: seq<seq<int>>, doc: seq<int>, g: seq<int>, start: int, end: int)
    ensures Count(data + [doc], g, start, end)
      == Count(data, g, start, end) + |set i | 0 <= i < |doc| + 2 && WindowAt(Padded(doc, |g|, start, end), g, i)|
  {
    hide WindowAt, Padded;
    assert (data + [doc])[..|data|] == data;
    OccurrencesAreWindows(Padded(doc, |g|, start, end), g, |doc| + 2);
  }

  /** The number of windows, the same for every n. */
  ghost function Windows(data: seq<seq<int>>): nat {
    if data == [] then 0 else Windows(data[..|data| - 1]) + |data[|data| - 1]| + 2
  }

  ghost function Lookup(m: Table, g: seq<int>): nat {
    if g in m then m[g] else 0
  }

  /** The sum of a table's counts. */
  ghost function Total(m: Table): nat {
    if m == map[] then 0 else
      var g :| g in m;
      Total(m - {g}) + m[g]
  }

  lemma {:induction false} TotalAny(m: Table, g: seq<int>)
    requires g in m
    ensures Total(m) == Total(m - {g}) + m[g]
  {
    var k :| k in m && Total(m) == Total(m - {k}) + m[k];
    if k != g {
      TotalAny(m - {k}, g);
      TotalAny(m - {g}, k);
      assert m - {k} - {g} == m - {g} - {k};
    }
  }

  lemma TotalUpdate(m: Table, g: seq<int>, v: nat)
    ensures Total(m[g := v]) == Total(m) - Lookup(m, g) + v
  {
    TotalAny(m[g := v], g);
    assert m[g := v] - {g} == m - {g};
    if g in m {
      TotalAny(m, g);
    } else {
      assert m - {g} == m;
    }
  }

  // ---- marginalisation over the first token

  /** Windows whose first token lies in V and whose rest is g. */
  ghost function OccurrencesAfter(p: seq<int>, V: set<int>, g: seq<int>, k: nat): nat
    requires k == 0 || k + |g| <= |p|
  {
    if k == 0 then 0 else OccurrencesAfter(p, V, g, k - 1) + (if p[k - 1] in V && p[k..k + |g|] == g then 1 else 0)
  }

  /** The counts of all (n+1)-grams that extend g by a first token from V. */
  ghost function SumOverFirst(V: set<int>, data: seq<seq<int>>, g: seq<int>, start: int, end: int): nat {
    if V == {} then 0 else
      var x := Any(V);
      SumOverFirst(V - {x}, data, g, start, end) + Count(data, [x] + g, start, end)
  }

  ghost function CountAfter(V: set<int>, data: seq<seq<int>>, g: seq<int>, start: int, end: int): nat {
    if data == [] then 0 else
      var last := |data| - 1;
      CountAfter(V, data[..last], g, start, end)
      + OccurrencesAfter(Padded(data[last], |g| + 1, start, end), V, g, |data[last]| + 2)
  }

  lemma {:induction false} OneMoreFirst(p: seq<int>, V: set<int>, x: int, g: seq<int>, k: nat)
    requires x in V && (k == 0 || k + |g| <= |p|)
    ensures OccurrencesAfter(p, V, g, k) == OccurrencesAfter(p, V - {x}, g, k) + Occurrences(p, [x] + g, k)
  {
    if k != 0 {
      OneMoreFirst(p, V, x, g, k - 1);
      var window := p[k - 1..k - 1 + |[x] + g|];
      assert window == [p[k - 1]] + p[k..k + |g|];
      assert window == [x] + g <==> p[k - 1] == x && p[k..k + |g|] == g by {
        if window == [x] + g { assert window[0] == x && window[1..] == g; }
      }
    }
  }

  lemma {:induction false} OneMoreFirstInAll(V: set<int>, x: int, data: seq<seq<int>>, g: seq<int>, start: int,
                                             end: int)
    requires x in V
    ensures CountAfter(V, data, g, start, end) == CountAfter(V - {x}, data, g, start, end) + Count(data, [x] + g, start, end)
  {
    if data != [] {
      var last := |data| - 1;
      OneMoreFirstInAll(V, x, data[..last], g, start, end);
      OneMoreFirst(Padded(data[last], |g| + 1, start, end), V, x, g, |data[last]| + 2);
    }
  }

  lemma {:induction false} SumIsCountAfter(V: set<int>, data: seq<seq<int>>, g: seq<int>, start: int, end: int)
    ensures SumOverFirst(V, data, g, start, end) == CountAfter(V, data, g, start, end)
  {
    if V == {} {
      NothingAfter(data, g, start, end);
    } else {
      var x := Any(V);
      SumIsCountAfter(V - {x}, data, g, start, end);
      OneMoreFirstInAll(V, x, data, g, start, end);
    }
  }

  lemma {:induction false} NothingAfterWindow(p: seq<int>, g: seq<int>, k: nat)
    requires k == 0 || k + |g| <= |p|
    ensures OccurrencesAfter(p, {}, g, k) == 0
  {
    if k != 0 { NothingAfterWindow(p, g, k - 1); }
  }

  lemma {:induction false} NothingAfter(data: seq<seq<int>>, g: seq<int>, start: int, end: int)
    ensures CountAfter({}, data, g, start, end) == 0
  {
    if data != [] {
      var last := |data| - 1;
      NothingAfter(data[..last], g, start, end);
      NothingAfterWindow(Padded(data[last], |g| + 1, start, end), g, |data[last]| + 2);
    }
  }

  lemma PaddedShift(doc: seq<int>, n: nat, start: int, end: int)
    ensures Padded(doc, n + 1, start, end) == [start] + Padded(doc, n, start, end)
  {
    assert Repeat(start, n + 1) == [start] + Repeat(start, n);
  }

  lemma SliceOfTail(q: seq<int>, k: nat, n: nat)
    requires 1 <= k && k + n <= |q|
    ensures q[1..][k - 1..k - 1 + n] == q[k..k + n]
  {
    var a, b := q[1..][k - 1..k - 1 + n], q[k..k + n];
    forall j | 0 <= j < n ensures a[j] == b[j] {
      assert q[1..][k - 1 + j] == q[k + j];
    }
  }

  lemma {:induction false} AnyFirst(q: seq<int>, p: seq<int>, V: set<int>, g: seq<int>, k: nat)
    requires |q| == |p| + 1 && q[1..] == p && (k == 0 || k - 1 + |g| <= |p|)
    requires forall i :: 0 <= i < k ==> q[i] in V
    ensures OccurrencesAfter(q, V, g, k) == Occurrences(p, g, k)
  {
    hide Occurrences, OccurrencesAfter;
    if k == 0 {
      CountedNone(q, p, V, g);
    } else {
      AnyFirst(q, p, V, g, k - 1);
      SliceOfTail(q, k, |g|);
      AfterNext(q, V, g, k - 1);
      NextWindow(p, g, k - 1);
    }
  }

  lemma CountedNone(q: seq<int>, p: seq<int>, V: set<int>, g: seq<int>)
    ensures OccurrencesAfter(q, V, g, 0) == 0 == Occurrences(p, g, 0)
  {}

  lemma AfterNext(q: seq<int>, V: set<int>, g: seq<int>, k: nat)
    requires k + 1 + |g| <= |q|
    ensures OccurrencesAfter(q, V, g, k + 1)
      == OccurrencesAfter(q, V, g, k) + (if q[k] in V && q[k + 1..k + 1 + |g|] == g then 1 else 0)
  {}

  /** Every token that starts a window: words of the corpus and the start token. */
  ghost predicate CoversTokens(V: set<int>, data: seq<seq<int>>, start: int) {
    start in V && forall d, i :: 0 <= d < |data| && 0 <= i < |data[d]| ==> data[d][i] in V
  }

  lemma {:induction false} CountAfterAll(V: set<int>, data: seq<seq<int>>, g: seq<int>, start: int, end: int)
    requires CoversTokens(V, data, start) && |g| >= 1
    ensures CountAfter(V, data, g, start, end) == Count(data, g, start, end)
  {
    if data != [] {
      var last := |data| - 1;
      CountAfterAll(V, data[..last], g, start, end);
      var p := Padded(data[last], |g|, start, end);
      PaddedShift(data[last], |g|, start, end);
      forall i | 0 <= i < |data[last]| + 2 ensures ([start] + p)[i] in V {
        if i > |g| {
          assert ([start] + p)[i] == data[last][i - 1 - |g|];
        }
      }
      AnyFirst([start] + p, p, V, g, |data[last]| + 2);
    }
  }

  /** Marginalisation: summed over the first token, the counts of the (n+1)-grams ending in g give the
    * count of g, although the two tables pad documents differently. */
  lemma Marginalisation(V: set<int>, data: seq<seq<int>>, g: seq<int>, start: int, end: int)
    requires CoversTokens(V, data, start) && |g| >= 1
    ensures SumOverFirst(V, data, g, start, end) == Count(data, g, start, end)
  {
    SumIsCountAfter(V, data, g, start, end);
    CountAfterAll(V, data, g, start, end);
  }

  // ---- summing over the next word

  /** Windows of p that equal g and are followed by a token from V. */
  ghost function OccurrencesBefore(p: seq<int>, g: seq<int>, V: set<int>, k: nat): nat
    requires k == 0 || k + |g| <= |p|
  {
    if k == 0 then 0 else OccurrencesBefore(p, g, V, k - 1) + (if p[k - 1..k - 1 + |g|] == g && p[k - 1 + |g|] in V then 1 else 0)
  }

  /** The counts of all (n+1)-grams that extend g by a next word from V. */
  ghost function SumOverNext(V: set<int>, data: seq<seq<int>>, g: seq<int>, start: int, end: int): nat {
    if V == {} then 0 else
      var x := Any(V);
      SumOverNext(V - {x}, data, g, start, end) + Count(data, g + [x], start, end)
  }

  ghost function CountBefore(V: set<int>, data: seq<seq<int>>, g: seq<int>, start: int, end: int): nat {
    if data == [] then 0 else
      var last := |data| - 1;
      CountBefore(V, data[..last], g, start, end)
      + OccurrencesBefore(Padded(data[last], |g| + 1, start, end), g, V, |data[last]| + 2)
  }

  lemma WindowSplits(p: seq<int>, g: seq<int>, x: int, i: nat)
    requires i + |g| + 1 <= |p|
    ensures p[i..i + |g + [x]|] == g + [x] <==> p[i..i + |g|] == g && p[i + |g|] == x
  {
    var window := p[i..i + |g + [x]|];
    assert window[..|g|] == p[i..i + |g|] && window[|g|] == p[i + |g|];
    assert window == window[..|g|] + [window[|g|]];
    assert (g + [x])[..|g|] == g && (g + [x])[|g|] == x;
  }

  lemma {:induction false} OneMoreNext(p: seq<int>, V: set<int>, x: int, g: seq<int>, k: nat)
    requires x in V && (k == 0 || k + |g| <= |p|)
    ensures OccurrencesBefore(p, g, V, k) == OccurrencesBefore(p, g, V - {x}, k) + Occurrences(p, g + [x], k)
  {
    hide OccurrencesBefore, Occurrences;
    if k == 0 {
      BeforeNone(p, V, x, g);
    } else {
      OneMoreNext(p, V, x, g, k - 1);
      WindowSplits(p, g, x, k - 1);
      BeforeNext(p, V, g, k - 1);
      BeforeNext(p, V - {x}, g, k - 1);
      NextWindow(p, g + [x], k - 1);
    }
  }

  lemma BeforeNone(p: seq<int>, V: set<int>, x: int, g: seq<int>)
    ensures OccurrencesBefore(p, g, V, 0) == OccurrencesBefore(p, g, V - {x}, 0) == Occurrences(p, g + [x], 0) == 0
  {}

  lemma BeforeNext(p: seq<int>, V: set<int>, g: seq<int>, k: nat)
    requires k + 1 + |g| <= |p|
    ensures OccurrencesBefore(p, g, V, k + 1)
      == OccurrencesBefore(p, g, V, k) + (if p[k..k + |g|] == g && p[k + |g|] in V then 1 else 0)
  {}

  lemma {:induction false} OneMoreNextInAll(V: set<int>, x: int, data: seq<seq<int>>, g: seq<int>, start: int, end: int)
    requires x in V
    ensures CountBefore(V, data, g, start, end) == CountBefore(V - {x}, data, g, start, end) + Count(data, g + [x], start, end)
  {
    hide Padded, Occurrences, OccurrencesBefore;
    if data != [] {
      var last := |data| - 1;
      OneMoreNextInAll(V, x, data[..last], g, start, end);
      OneMoreNext(Padded(data[last], |g| + 1, start, end), V, x, g, |data[last]| + 2);
    }
  }

  lemma {:induction false} NothingBeforeWindow(p: seq<int>, g: seq<int>, k: nat)
    requires k == 0 || k + |g| <= |p|
    ensures OccurrencesBefore(p, g, {}, k) == 0
  {
    if k != 0 { NothingBeforeWindow(p, g, k - 1); }
  }

  lemma {:induction false} SumIsCountBefore(V: set<int>, data: seq<seq<int>>, g: seq<int>, start: int, end: int)
    ensures SumOverNext(V, data, g, start, end) == CountBefore(V, data, g, start, end)
    decreases V, data
  {
    if V != {} {
      var x := Any(V);
      SumIsCountBefore(V - {x}, data, g, start, end);
      OneMoreNextInAll(V, x, data, g, start, end);
    } else if data != [] {
      var last := |data| - 1;
      SumIsCountBefore({}, data[..last], g, start, end);
      NothingBeforeWindow(Padded(data[last], |g| + 1, start, end), g, |data[last]| + 2);
    }
  }

  lemma {:induction false} AnyNext(p: seq<int>, g: seq<int>, V: set<int>, k: nat)
    requires k == 0 || k + |g| <= |p|
    requires forall i :: |g| <= i < k + |g| ==> p[i] in V
    ensures OccurrencesBefore(p, g, V, k) == Occurrences(p, g, k)
  {
    if k != 0 { AnyNext(p, g, V, k - 1); }
  }

  /** One token more in front: its window, and all windows of before. */
  lemma {:induction false} OneMoreInFront(x: int, p: seq<int>, g: seq<int>, k: nat)
    requires k + |g| <= |p| + 1
    ensures Occurrences([x] + p, g, k + 1) == (if ([x] + p)[..|g|] == g then 1 else 0) + (if k == 0 then 0 else Occurrences(p, g, k))
  {
    var q := [x] + p;
    assert q[0..|g|] == q[..|g|];
    if k == 0 {
      assert Occurrences(q, g, 1) == Occurrences(q, g, 0) + (if q[0..0 + |g|] == g then 1 else 0);
    } else {
      OneMoreInFront(x, p, g, k - 1);
      assert q[k..k + |g|] == p[k - 1..k - 1 + |g|];
    }
  }

  /** How many of the padded documents end in g. */
  ghost function Endings(data: seq<seq<int>>, g: seq<int>, start: int, end: int): nat {
    if data == [] then 0 else
      var last := |data| - 1;
      Endings(data[..last], g, start, end) + (if Padded(data[last], |g|, start, end)[|data[last]| + 1..] == g then 1 else 0)
  }

  /** Every token that can follow: words of the corpus and the two padding tokens. */
  ghost predicate CoversNext(V: set<int>, data: seq<seq<int>>, start: int, end: int) {
    CoversTokens(V, data, start) && end in V
  }

  lemma NextInPadding(V: set<int>, p: seq<int>, g: seq<int>, start: int, d: nat)
    requires |p| == |g| + d + 1 && ([start] + p)[..|g|] == Repeat(start, |g|)
    requires forall i :: |g| <= i < |p| + 1 ==> ([start] + p)[i] in V
    ensures OccurrencesBefore([start] + p, g, V, d + 2) + (if p[d + 1..] == g then 1 else 0)
      == Occurrences(p, g, d + 2) + (if g == Repeat(start, |g|) then 1 else 0)
  {
    hide Repeat, OccurrencesBefore;
    AnyNext([start] + p, g, V, d + 2);
    OneMoreInFront(start, p, g, d + 1);
    assert p[d + 1..d + 1 + |g|] == p[d + 1..];
  }

  lemma PaddedFront(doc: seq<int>, n: nat, start: int, end: int)
    ensures ([start] + Padded(doc, n, start, end))[..n] == Repeat(start, n)
  {
    PaddedShift(doc, n, start, end);
    var q := Padded(doc, n + 1, start, end);
    forall i | 0 <= i < n ensures q[..n][i] == start {
      PaddedAt(doc, n + 1, start, end, i);
    }
  }

  lemma NextInDocument(V: set<int>, doc: seq<int>, g: seq<int>, start: int, end: int)
    requires start in V && end in V && |g| >= 1 && forall i :: 0 <= i < |doc| ==> doc[i] in V
    ensures var p := Padded(doc, |g|, start, end);
      OccurrencesBefore(Padded(doc, |g| + 1, start, end), g, V, |doc| + 2) + (if p[|doc| + 1..] == g then 1 else 0)
      == Occurrences(p, g, |doc| + 2) + (if g == Repeat(start, |g|) then 1 else 0)
  {
    hide Occurrences, OccurrencesBefore, Padded;
    var p := Padded(doc, |g|, start, end);
    PaddedShift(doc, |g|, start, end);
    forall i | |g| <= i < |p| + 1 ensures ([start] + p)[i] in V {
      PaddedAt(doc, |g| + 1, start, end, i);
    }
    PaddedFront(doc, |g|, start, end);
    NextInPadding(V, p, g, start, |doc|);
  }

  lemma {:induction false} NextInAll(V: set<int>, data: seq<seq<int>>, g: seq<int>, start: int, end: int)
    requires CoversNext(V, data, start, end) && |g| >= 1
    ensures CountBefore(V, data, g, start, end) + Endings(data, g, start, end)
      == Count(data, g, start, end) + (if g == Repeat(start, |g|) then |data| else 0)
  {
    hide Occurrences, OccurrencesBefore, Padded, Repeat;
    if data != [] {
      var last := |data| - 1;
      NextInAll(V, data[..last], g, start, end);
      NextInDocument(V, data[last], g, start, end);
    }
  }

  /** Summed over the next word, the (n+1)-grams that begin with g are as many as g itself, less the
    * documents that end in g. Start tokens alone count once more in each document, whose padding is one
    * token longer for the longer n-grams. */
  lemma NextWordsAddUp(V: set<int>, data: seq<seq<int>>, g: seq<int>, start: int, end: int)
    requires CoversNext(V, data, start, end) && |g| >= 1
    ensures SumOverNext(V, data, g, start, end) + Endings(data, g, start, end)
      == Count(data, g, start, end) + (if g == Repeat(start, |g|) then |data| else 0)
  {
    SumIsCountBefore(V, data, g, start, end);
    NextInAll(V, data, g, start, end);
  }

  // ---- an n-gram is no more frequent than its history

  lemma {:induction false} DroppedLast(p: seq<int>, x: int, g: seq<int>, w: int, k: nat)
    requires k >= 1 && k - 1 + |g| <= |p|
    requires ([x] + p)[..|g| + 1] != g + [w]
    ensures Occurrences([x] + p, g + [w], k) <= Occurrences(p, g, k - 1)
  {
    if k == 1 {
      assert Occurrences([x] + p, g + [w], 0) == 0;
      assert ([x] + p)[0..|g + [w]|] == ([x] + p)[..|g| + 1];
    } else {
      DroppedLast(p, x, g, w, k - 1);
      var window, earlier := ([x] + p)[k - 1..k - 1 + |g + [w]|], p[k - 2..k - 2 + |g|];
      assert forall j :: 0 <= j < |g| ==> earlier[j] == window[j];
      assert window == g + [w] ==> forall j :: 0 <= j < |g| ==> earlier[j] == (g + [w])[j] == g[j];
    }
  }

  lemma OccurrencesGrow(p: seq<int>, g: seq<int>, k: nat)
    requires k >= 1 && k - 1 + |g| <= |p|
    ensures Occurrences(p, g, k - 1) <= Occurrences(p, g, k)
  {}

  lemma {:induction false} HistoryInDocument(doc: seq<int>, g: seq<int>, w: int, start: int, end: int)
    requires |g| >= 1
    ensures Occurrences(Padded(doc, |g| + 1, start, end), g + [w], |doc| + 2) <= Occurrences(Padded(doc, |g|, start, end), g, |doc| + 2)
  {
    hide Occurrences, Padded, Repeat;
    PaddedShift(doc, |g|, start, end);
    if g + [w] == [start] + g {
      FirstElsewhere(doc, start, g, start, end);
    } else {
      HistoryElsewhere(doc, g, w, start, end);
    }
  }

  lemma {:induction false} HistoryElsewhere(doc: seq<int>, g: seq<int>, w: int, start: int, end: int)
    requires |g| >= 1 && g + [w] != [start] + g
    ensures Occurrences([start] + Padded(doc, |g|, start, end), g + [w], |doc| + 2) <= Occurrences(Padded(doc, |g|, start, end), g, |doc| + 2)
  {
    hide Occurrences, Padded, Repeat;
    var p := Padded(doc, |g|, start, end);
    PaddedStart(doc, g, w, start, end);
    DroppedLast(p, start, g, w, |doc| + 2);
    OccurrencesGrow(p, g, |doc| + 2);
  }

  /** The first window holds start tokens only. */
  lemma PaddedStart(doc: seq<int>, g: seq<int>, w: int, start: int, end: int)
    requires |g| >= 1 && g + [w] != [start] + g
    ensures ([start] + Padded(doc, |g|, start, end))[..|g| + 1] != g + [w]
  {
    var q, h := [start] + Padded(doc, |g|, start, end), g + [w];
    if q[..|g| + 1] == h {
      forall i | 0 <= i <= |g| ensures h[i] == start {
        assert q[..|g| + 1][i] == q[i] == start;
      }
      forall i | 0 <= i <= |g| ensures h[i] == ([start] + g)[i] {
        if i > 0 { assert h[i - 1] == g[i - 1]; }
      }
    }
  }

  lemma {:induction false} HistoryIsAsFrequent(data: seq<seq<int>>, g: seq<int>, w: int, start: int, end: int)
    requires |g| >= 1
    ensures Count(data, g + [w], start, end) <= Count(data, g, start, end)
  {
    if data != [] {
      var last := |data| - 1;
      HistoryIsAsFrequent(data[..last], g, w, start, end);
      HistoryInDocument(data[last], g, w, start, end);
    }
  }

  lemma {:induction false} OccurrencesAtMost(p: seq<int>, g: seq<int>, k: nat)
    requires k == 0 || k - 1 + |g| <= |p|
    ensures Occurrences(p, g, k) <= k
  {
    if k != 0 { OccurrencesAtMost(p, g, k - 1); }
  }

  lemma {:induction false} CountAtMostWindows(data: seq<seq<int>>, g: seq<int>, start: int, end: int)
    requires |g| >= 1
    ensures Count(data, g, start, end) <= Windows(data)
  {
    if data != [] {
      var last := |data| - 1;
      CountAtMostWindows(data[..last], g, start, end);
      OccurrencesAtMost(Padded(data[last], |g|, start, end), g, |data[last]| + 2);
    }
  }

  // ---- the tables as built

  /** m is the table of n-gram counts of the corpus. */
  ghost predicate IsTable(m: Table, n: nat, data: seq<seq<int>>, start: int, end: int) {
    && (forall g :: g in m ==> |g| == n && m[g] > 0)
    && (forall g :: |g| == n ==> Lookup(m, g) == Count(data, g, start, end))
    && Total(m) == Windows(data)
  }

  /** The table after all of data and the first k windows of p. */
  ghost predicate Counting(m: Table, n: nat, data: seq<seq<int>>, p: seq<int>, k: nat, start: int, end: int)
    requires n >= 1 && (k == 0 || k - 1 + n <= |p|)
  {
    && (forall g :: g in m ==> |g| == n && m[g] > 0)
    && (forall g :: |g| == n ==> Lookup(m, g) == Count(data, g, start, end) + Occurrences(p, g, k))
    && Total(m) == Windows(data) + k
  }

  lemma {:induction false} CountWindow(m: Table, n: nat, data: seq<seq<int>>, p: seq<int>, k: nat, start: int, end: int)
    requires n >= 1 && k + n <= |p| && Counting(m, n, data, p, k, start, end)
    ensures Counting(m[p[k..k + n] := Lookup(m, p[k..k + n]) + 1], n, data, p, k + 1, start, end)
  {
    hide Count, Total, Occurrences;
    var window := p[k..k + n];
    var m' := m[window := Lookup(m, window) + 1];
    TotalUpdate(m, window, Lookup(m, window) + 1);
    forall g: seq<int> | |g| == n ensures Lookup(m', g) == Count(data, g, start, end) + Occurrences(p, g, k + 1) {
      NextWindow(p, g, k);
      assert Lookup(m', g) == Lookup(m, g) + (if g == window then 1 else 0);
    }
  }

  lemma NextWindow(p: seq<int>, g: seq<int>, k: nat)
    requires k + |g| <= |p|
    ensures Occurrences(p, g, k + 1) == Occurrences(p, g, k) + (if p[k..k + |g|] == g then 1 else 0)
  {}

  lemma {:induction false} CountingDone(m: Table, n: nat, data: seq<seq<int>>, doc: seq<int>, start: int, end: int)
    requires n >= 1 && Counting(m, n, data, Padded(doc, n, start, end), |doc| + 2, start, end)
    ensures IsTable(m, n, data + [doc], start, end)
  {
    var all := data + [doc];
    assert all[..|all| - 1] == data;
    forall g: seq<int> | |g| == n ensures Lookup(m, g) == Count(all, g, start, end) {
    }
  }

  lemma CountingStarts(m: Table, n: nat, data: seq<seq<int>>, p: seq<int>, start: int, end: int)
    requires n >= 1 && IsTable(m, n, data, start, end)
    ensures Counting(m, n, data, p, 0, start, end)
  {}

  datatype Probability = Panic | Estimate(p: real)

  class NGramLanguageModel {
    const startTokenID: int
    const endTokenID: int
    var UniGramCount: Table
    var BiGramCount: Table
    var TriGramCount: Table
    var QuadGramCount: Table
    var TotalWordFreq: nat

    constructor (startTokenID: int, endTokenID: int)
      ensures TotalWordFreq == 0 && this.startTokenID == startTokenID && this.endTokenID == endTokenID
    {
      this.startTokenID, this.endTokenID := startTokenID, endTokenID;
      UniGramCount, BiGramCount, TriGramCount, QuadGramCount, TotalWordFreq := map[], map[], map[], map[], 0;
    }

    method AddStartEndToken(doc: seq<int>, n: nat) returns (padded: seq<int>)
      ensures padded == Padded(doc, n, startTokenID, endTokenID)
    {
      var startToken: seq<int> := [];
      for i := 0 to n
        invariant startToken == Repeat(startTokenID, i)
      {
        startToken := startToken + [startTokenID];
      }
      padded := startToken + doc;
      padded := padded + [endTokenID];
    }

    /** The counting loop shared by countUnigram to countQuadgram; `windows` is what countUnigram adds
      * to TotalWordFreq. */
    method CountGrams(data: seq<seq<int>>, n: nat) returns (nGrams: Table, windows: nat)
      requires n >= 1
      ensures IsTable(nGrams, n, data, startTokenID, endTokenID) && windows == Windows(data)
    {
      hide IsTable, Counting, Padded, Count, Occurrences, Total, Lookup;
      nGrams, windows := map[], 0;
      EmptyTable(n, startTokenID, endTokenID);
      for d := 0 to |data|
        invariant IsTable(nGrams, n, data[..d], startTokenID, endTokenID) && windows == Windows(data[..d])
      {
        var doc := AddStartEndToken(data[d], n);
        CountingStarts(nGrams, n, data[..d], doc, startTokenID, endTokenID);
        var m := |doc| - n + 1;
        for i := 0 to m
          invariant Counting(nGrams, n, data[..d], doc, i, startTokenID, endTokenID) && windows == Windows(data[..d]) + i
        {
          var nGram := doc[i..i + n];
          CountWindow(nGrams, n, data[..d], doc, i, startTokenID, endTokenID);
          LookupIs(nGrams, nGram);
          if nGram !in nGrams {
            nGrams := nGrams[nGram := 1];
          } else {
            nGrams := nGrams[nGram := nGrams[nGram] + 1];
          }
          windows := windows + 1;
        }
        CountingDone(nGrams, n, data[..d], data[d], startTokenID, endTokenID);
        assert data[..d + 1] == data[..d] + [data[d]] && data[..d + 1][..d] == data[..d];
      }
      assert data[..|data|] == data;
    }

    static lemma EmptyTable(n: nat, start: int, end: int)
      ensures IsTable(map[], n, [], start, end)
    {}

    static lemma LookupIs(m: Table, g: seq<int>)
      ensures Lookup(m, g) == if g in m then m[g] else 0
    {}

    /** All four tables hold the counts of one corpus, whose windows TotalWordFreq counts, and those of
      * earlier runs besides. */
    ghost predicate Fitted(data: seq<seq<int>>)
      reads this
    {
      && IsTable(UniGramCount, 1, data, startTokenID, endTokenID)
      && IsTable(BiGramCount, 2, data, startTokenID, endTokenID)
      && IsTable(TriGramCount, 3, data, startTokenID, endTokenID)
      && IsTable(QuadGramCount, 4, data, startTokenID, endTokenID)
      && TotalWordFreq >= Windows(data)
    }

    /** MakeCountMatrix: the four counters, whose fields are disjoint, one after the other. Each run makes
      * new tables, but TotalWordFreq is added to and never reset. */
    method MakeCountMatrix(data: seq<seq<int>>)
      modifies this
      ensures TotalWordFreq == old(TotalWordFreq) + Windows(data) && Fitted(data)
    {
      hide IsTable, Windows;
      var windows;
      UniGramCount, windows := CountGrams(data, 1);
      TotalWordFreq := TotalWordFreq + windows;
      BiGramCount, windows := CountGrams(data, 2);
      TriGramCount, windows := CountGrams(data, 3);
      QuadGramCount, windows := CountGrams(data, 4);
    }

    /** The four tables by n. */
    function TableFor(n: nat): Table
      requires 1 <= n <= 4
      reads this
    {
      if n == 1 then UniGramCount else if n == 2 then BiGramCount else if n == 3 then TriGramCount else QuadGramCount
    }

    /** estimateProbability, lines 213-298: a frequency relative to the history, 0 for an unseen one. */
    method EstimateProbability(nextWord: int, previousNGram: seq<int>, n: nat) returns (probability: real)
      requires 2 <= n <= 4 ==> |previousNGram| >= n - 1
      requires n == 1 ==> TotalWordFreq > 0
      requires forall g :: g in UniGramCount || g in BiGramCount || g in TriGramCount ==>
        (g in UniGramCount ==> UniGramCount[g] > 0) && (g in BiGramCount ==> BiGramCount[g] > 0) && (g in TriGramCount ==> TriGramCount[g] > 0)
      ensures probability == Relative(nextWord, previousNGram, n)
      ensures 1 <= n <= 4 ==> forall data :: Fitted(data) && data != [] ==>
        IsShare(data, nextWord, previousNGram[..n - 1], 1.0, probability)
    {
      forall data | 1 <= n <= 4 && Fitted(data) && data != []
        ensures IsShare(data, nextWord, previousNGram[..n - 1], 1.0, Relative(nextWord, previousNGram, n))
      {
        RelativeIsShare(data, nextWord, previousNGram, n);
      }
      if n == 1 {
        var ngramCount := if [nextWord] in UniGramCount then UniGramCount[[nextWord]] else 0;
        return ngramCount as real / TotalWordFreq as real;
      } else if 2 <= n <= 4 {
        var prevNGram := previousNGram[..n - 1];
        var histories, grams := TableFor(n - 1), TableFor(n);
        if prevNGram !in histories {
          return 0.0;
        }
        var denominator := histories[prevNGram];
        var nGram := prevNGram + [nextWord];
        var numerator := if nGram in grams then grams[nGram] else 0;
        return numerator as real / denominator as real;
      }
      return 0.0;
    }

    /** The frequency of the word after a history of n - 1 words. */
    ghost function Relative(nextWord: int, previous: seq<int>, n: nat): real
      requires 2 <= n <= 4 ==> |previous| >= n - 1
      reads this
    {
      if n == 1 then (if TotalWordFreq == 0 then 0.0 else Lookup(UniGramCount, [nextWord]) as real / TotalWordFreq as real)
      else if 2 <= n <= 4 then
        var history := Lookup(TableFor(n - 1), previous[..n - 1]);
        if history == 0 then 0.0 else Lookup(TableFor(n), previous[..n - 1] + [nextWord]) as real / history as real
      else 0.0
    }

    /** p is `weight` times the share that the n-grams with nextWord have in those of the history, or in all
      * words counted. */
    ghost predicate IsShare(data: seq<seq<int>>, nextWord: int, history: seq<int>, weight: real, p: real)
      reads this
    {
      var together := Count(data, history + [nextWord], startTokenID, endTokenID);
      var alone := if history == [] then TotalWordFreq else Count(data, history, startTokenID, endTokenID);
      if alone == 0 then p == 0.0 else p * alone as real == weight * together as real
    }

    static lemma Fraction(a: nat, b: nat)
      requires b > 0
      ensures a as real / b as real * b as real == a as real
    {}

    lemma RelativeIsShare(data: seq<seq<int>>, nextWord: int, previous: seq<int>, n: nat)
      requires Fitted(data) && data != [] && 1 <= n <= 4 && |previous| >= n - 1
      ensures IsShare(data, nextWord, previous[..n - 1], 1.0, Relative(nextWord, previous, n))
    {
      hide IsTable, Count;
      assert TotalWordFreq > 0 by { assert Windows(data) > 0; }
      var h := previous[..n - 1];
      TableCounts(data, h + [nextWord]);
      if n == 1 {
        assert h == [] && h + [nextWord] == [nextWord];
        Fraction(Lookup(UniGramCount, [nextWord]), TotalWordFreq);
      } else {
        TableCounts(data, h);
        var history := Lookup(TableFor(n - 1), h);
        if history > 0 { Fraction(Lookup(TableFor(n), h + [nextWord]), history); }
      }
    }

    /** stupidBackoff, lines 323-342, for a history of n - 1 words: the history is shortened from the
      * left until the estimate is positive. After a zero estimate for the word alone the source slices
      * an empty history, which panics. */
    method StupidBackoff(nextWord: int, previous: seq<int>, n0: nat,
                         ghost data: seq<seq<int>>) returns (result: Probability)
      requires Fitted(data) && TotalWordFreq > 0 && 1 <= n0 <= 4 && |previous| == n0 - 1
      ensures result == BackedOff(nextWord, previous, n0, 1.0)
      ensures data != [] ==> (result == Panic <==> Count(data, [nextWord], startTokenID, endTokenID) == 0)
      ensures data != [] && result != Panic ==> exists j: nat ::
        && j < n0 && BacksOffTo(data, nextWord, previous, j)
        && IsShare(data, nextWord, previous[j..], if j == 0 then 1.0 else if j == 1 then 0.4 else if j == 2 then 0.16 else 0.064, result.p)
    {
      hide IsTable, BackedOff, Relative, Count, IsShare, BacksOffTo;
      PositiveCounts(data);
      if data != [] { BackoffInCounts(data, nextWord, previous, n0); }
      var lambda, prevNgrams, n := 1.0, previous, n0;
      while n > 0
        invariant 1 <= n <= n0 && |prevNgrams| == n - 1
        invariant BackedOff(nextWord, prevNgrams, n, lambda) == BackedOff(nextWord, previous, n0, 1.0)
        decreases n
      {
        var estimate := EstimateProbability(nextWord, prevNgrams, n);
        var newProb := lambda * estimate;
        BackStep(nextWord, prevNgrams, n, lambda);
        if newProb != 0.0 {
          return Estimate(newProb);
        }
        if |prevNgrams| == 1 {
          assert prevNgrams[1..] == [];
          prevNgrams := [];
        } else if |prevNgrams| == 0 {
          return Panic;
        } else {
          prevNgrams := prevNgrams[1..];
        }
        lambda := lambda * 0.4;
        n := n - 1;
      }
    }

    lemma BackStep(nextWord: int, previous: seq<int>, n: nat, lambda: real)
      requires 1 <= n <= 4 && |previous| == n - 1
      ensures var p := lambda * Relative(nextWord, previous, n);
        BackedOff(nextWord, previous, n, lambda) == if p != 0.0 then Estimate(p)
        else if n == 1 then Panic
        else BackedOff(nextWord, previous[1..], n - 1, lambda * 0.4)
    {}

    /** The loop of stupidBackoff as a function. */
    ghost function BackedOff(nextWord: int, previous: seq<int>, n: nat, lambda: real): Probability
      requires 1 <= n <= 4 && |previous| == n - 1
      reads this
      decreases n
    {
      var p := lambda * Relative(nextWord, previous, n);
      if p != 0.0 then Estimate(p)
      else if n == 1 then Panic
      else BackedOff(nextWord, previous[1..], n - 1, lambda * 0.4)
    }

    lemma PositiveCounts(data: seq<seq<int>>)
      requires Fitted(data)
      ensures forall g :: g in UniGramCount || g in BiGramCount || g in TriGramCount ==>
        (g in UniGramCount ==> UniGramCount[g] > 0) && (g in BiGramCount ==> BiGramCount[g] > 0) && (g in TriGramCount ==> TriGramCount[g] > 0)
    {}

    lemma TableCounts(data: seq<seq<int>>, g: seq<int>)
      requires Fitted(data) && 1 <= |g| <= 4
      ensures Lookup(TableFor(|g|), g) == Count(data, g, startTokenID, endTokenID)
    {}

    lemma FractionBounds(a: nat, b: nat)
      requires b > 0 && a <= b
      ensures 0.0 <= a as real / b as real <= 1.0
      ensures a as real / b as real == 0.0 <==> a == 0
    {}

    /** Every estimate is a probability, at each order and despite the different padding. */
    lemma EstimatesAreProbabilities(data: seq<seq<int>>, nextWord: int, previous: seq<int>, n: nat)
      requires Fitted(data) && data != []
      requires 2 <= n <= 4 ==> |previous| >= n - 1
      ensures TotalWordFreq > 0 && 0.0 <= Relative(nextWord, previous, n) <= 1.0
      ensures n == 1 ==> (Relative(nextWord, previous, n) == 0.0 <==> Count(data, [nextWord], startTokenID, endTokenID) == 0)
      ensures 2 <= n <= 4 ==>
        (Relative(nextWord, previous, n) == 0.0 <==> Count(data, previous[..n - 1] + [nextWord], startTokenID, endTokenID) == 0)
    {
      hide IsTable, Count;
      assert TotalWordFreq > 0 by { assert Windows(data) > 0; }
      if n == 1 {
        TableCounts(data, [nextWord]);
        CountAtMostWindows(data, [nextWord], startTokenID, endTokenID);
        FractionBounds(Lookup(UniGramCount, [nextWord]), TotalWordFreq);
      } else if 2 <= n <= 4 {
        var h := previous[..n - 1];
        TableCounts(data, h);
        TableCounts(data, h + [nextWord]);
        HistoryIsAsFrequent(data, h, nextWord, startTokenID, endTokenID);
        if Lookup(TableFor(n - 1), h) > 0 {
          FractionBounds(Lookup(TableFor(n), h + [nextWord]), Lookup(TableFor(n - 1), h));
        }
      }
    }

    /** The sum of the unigram estimates over the words of a table. */
    ghost function EstimateSum(m: Table): real
      requires forall g :: g in m ==> |g| == 1
      reads this
    {
      if m == map[] then 0.0 else
        var g :| g in m;
        EstimateSum(m - {g}) + Relative(g[0], [], 1)
    }

    lemma {:induction false} EstimateSumIs(m: Table)
      requires TotalWordFreq > 0 && forall g :: g in m ==> |g| == 1 && g in UniGramCount && m[g] == UniGramCount[g]
      ensures EstimateSum(m) == Total(m) as real / TotalWordFreq as real
    {
      if m != map[] {
        var g :| g in m && EstimateSum(m) == EstimateSum(m - {g}) + Relative(g[0], [], 1);
        TotalAny(m, g);
        EstimateSumIs(m - {g});
        assert g == [g[0]] && Lookup(UniGramCount, g) == m[g];
        assert Relative(g[0], [], 1) == m[g] as real / TotalWordFreq as real;
        SplitFraction(Total(m - {g}), m[g], TotalWordFreq);
      }
    }

    static lemma SplitFraction(a: nat, b: nat, c: nat)
      requires c > 0
      ensures (a + b) as real / c as real == a as real / c as real + b as real / c as real
    {}

    static lemma FractionIsOne(a: nat, c: nat)
      requires c > 0
      ensures a as real / c as real == 1.0 <==> a == c
    {
      var q := a as real / c as real;
      assert q * c as real == a as real;
    }

    /** The unigram estimates add up to one exactly when TotalWordFreq counts the windows of this corpus
      * alone, that is, after the first run of MakeCountMatrix. */
    lemma UnigramsAddUp(data: seq<seq<int>>)
      requires Fitted(data) && data != []
      ensures (forall g :: g in UniGramCount ==> |g| == 1)
      ensures EstimateSum(UniGramCount) == 1.0 <==> TotalWordFreq == Windows(data)
    {
      hide Relative, Count, Lookup;
      assert Windows(data) > 0;
      EstimateSumIs(UniGramCount);
      FractionIsOne(Total(UniGramCount), TotalWordFreq);
    }

    /** The sum of the estimates of the words of V after a history. */
    ghost function EstimatesOver(V: set<int>, history: seq<int>): real
      reads this
    {
      if V == {} then 0.0 else
        var x := Any(V);
        EstimatesOver(V - {x}, history) + Relative(x, history, |history| + 1)
    }

    lemma {:induction false} EstimatesOverIs(V: set<int>, data: seq<seq<int>>, history: seq<int>)
      requires Fitted(data) && data != [] && 1 <= |history| <= 3 && Count(data, history, startTokenID, endTokenID) > 0
      ensures EstimatesOver(V, history) * Count(data, history, startTokenID, endTokenID) as real
        == SumOverNext(V, data, history, startTokenID, endTokenID) as real
    {
      hide Fitted, Count, Relative;
      if V != {} {
        var x := Any(V);
        EstimatesOverIs(V - {x}, data, history);
        RelativeIsShare(data, x, history, |history| + 1);
        assert history[..|history|] == history;
        var c := Count(data, history, startTokenID, endTokenID) as real;
        var before, r := EstimatesOver(V - {x}, history), Relative(x, history, |history| + 1);
        assert (before + r) * c == before * c + r * c;
      }
    }

    /** After a history that occurs, the estimates of all next words add up to one, but for two effects of
      * the padding: each document that ends in the history takes its share away, and if the history is
      * start tokens alone, each document adds one. */
    lemma EstimatesAddUp(V: set<int>, data: seq<seq<int>>, history: seq<int>)
      requires Fitted(data) && data != [] && 1 <= |history| <= 3 && Count(data, history, startTokenID, endTokenID) > 0
      requires CoversNext(V, data, startTokenID, endTokenID)
      ensures var starts := if history == Repeat(startTokenID, |history|) then |data| else 0;
        var ends := Endings(data, history, startTokenID, endTokenID);
        var c := Count(data, history, startTokenID, endTokenID);
        && EstimatesOver(V, history) * c as real == (c + starts - ends) as real
        && (EstimatesOver(V, history) == 1.0 <==> starts == ends)
    {
      hide *;
      EstimatesOverIs(V, data, history);
      NextWordsAddUp(V, data, history, startTokenID, endTokenID);
      OneShare(EstimatesOver(V, history), Count(data, history, startTokenID, endTokenID),
               SumOverNext(V, data, history, startTokenID, endTokenID));
    }

    static lemma OneShare(x: real, c: nat, total: nat)
      requires c > 0 && x * c as real == total as real
      ensures x == 1.0 <==> c == total
    {
      assert x * c as real / c as real == x;
      FractionIsOne(total, c);
    }

    ghost function Power(x: real, j: nat): real {
      if j == 0 then 1.0 else x * Power(x, j - 1)
    }

    /** j words of the history have to go before the word is found after the rest. */
    ghost predicate BacksOffTo(data: seq<seq<int>>, nextWord: int, previous: seq<int>, j: nat)
      requires j <= |previous|
    {
      && Count(data, previous[j..] + [nextWord], startTokenID, endTokenID) > 0
      && forall i :: 0 <= i < j ==> Count(data, previous[i..] + [nextWord], startTokenID, endTokenID) == 0
    }

    lemma ScaleBounds(lambda: real, r: real)
      requires 0.0 < lambda && 0.0 <= r <= 1.0
      ensures 0.0 <= lambda * r <= lambda && (lambda * r == 0.0 <==> r == 0.0)
    {
      assert lambda * r <= lambda * 1.0;
    }

    /** An estimate after j steps back from weight lambda. */
    ghost function Discounted(lambda: real, j: nat, r: real): real {
      lambda * Power(0.4, j) * r
    }

    lemma Discount(lambda: real, j: nat, r: real)
      ensures Discounted(lambda, 0, r) == lambda * r
      ensures Discounted(lambda * 0.4, j, r) == Discounted(lambda, j + 1, r)
    {
      assert lambda * 0.4 * Power(0.4, j) == lambda * (0.4 * Power(0.4, j));
    }

    /** The relative frequency after a full history is zero exactly when the whole n-gram is unseen. */
    lemma SeenOrNot(data: seq<seq<int>>, nextWord: int, previous: seq<int>, n: nat)
      requires Fitted(data) && data != [] && 1 <= n <= 4 && |previous| == n - 1
      ensures 0.0 <= Relative(nextWord, previous, n) <= 1.0
      ensures Relative(nextWord, previous, n) == 0.0 <==> Count(data, previous + [nextWord], startTokenID, endTokenID) == 0
    {
      hide IsTable, Count, Relative;
      EstimatesAreProbabilities(data, nextWord, previous, n);
      assert previous[..n - 1] == previous;
      if n == 1 { assert previous + [nextWord] == [nextWord]; }
    }

    /** A word that has been seen after the whole history is answered at once. */
    lemma BackStepSeen(data: seq<seq<int>>, nextWord: int, previous: seq<int>, n: nat, lambda: real)
      requires Fitted(data) && data != [] && 1 <= n <= 4 && |previous| == n - 1 && 0.0 < lambda
      ensures var answer := BackedOff(nextWord, previous, n, lambda);
        if Count(data, previous + [nextWord], startTokenID, endTokenID) > 0 then
          answer == Estimate(Discounted(lambda, 0, Relative(nextWord, previous, n))) && 0.0 < answer.p <= lambda
        else if n == 1 then answer == Panic
        else answer == BackedOff(nextWord, previous[1..], n - 1, lambda * 0.4)
    {
      hide IsTable, Relative, Count, BackedOff, Discounted;
      BackStep(nextWord, previous, n, lambda);
      SeenOrNot(data, nextWord, previous, n);
      ScaleBounds(lambda, Relative(nextWord, previous, n));
      Discount(lambda, 0, Relative(nextWord, previous, n));
    }

    /** For a word that occurs, the answer is 0.4^j times the relative frequency at the longest context
      * that it has been seen in, j being the number of words dropped; it lies in (0, 1]. */
    lemma {:induction false} BackoffMeaning(data: seq<seq<int>>, nextWord: int, previous: seq<int>, n: nat,
                                            lambda: real) returns (j: nat)
      requires Fitted(data) && data != [] && 1 <= n <= 4 && |previous| == n - 1 && 0.0 < lambda
      requires Count(data, [nextWord], startTokenID, endTokenID) > 0
      ensures j < n && BacksOffTo(data, nextWord, previous, j)
      ensures BackedOff(nextWord, previous, n, lambda) == Estimate(Discounted(lambda, j, Relative(nextWord, previous[j..], n - j)))
      ensures 0.0 < BackedOff(nextWord, previous, n, lambda).p <= lambda
      decreases n
    {
      hide IsTable, Relative, Count, BackedOff, Discounted, BacksOffTo;
      BackStepSeen(data, nextWord, previous, n, lambda);
      if n == 1 { assert previous + [nextWord] == [nextWord]; }
      if Count(data, previous + [nextWord], startTokenID, endTokenID) > 0 {
        j := 0;
        FoundAtOnce(data, nextWord, previous);
      } else {
        var i := BackoffMeaning(data, nextWord, previous[1..], n - 1, lambda * 0.4);
        j := i + 1;
        FoundLater(data, nextWord, previous, i);
        Discount(lambda, i, Relative(nextWord, previous[j..], n - j));
      }
    }

    static lemma Scaled(r: real, a: real, b: real, weight: real)
      requires r * a == 1.0 * b
      ensures weight * r * a == weight * b
    {
      assert weight * r * a == weight * (r * a);
    }

    lemma Powers()
      ensures Power(0.4, 0) == 1.0 && Power(0.4, 1) == 0.4 && Power(0.4, 2) == 0.16 && Power(0.4, 3) == 0.064
    {
      assert Power(0.4, 1) == 0.4 * Power(0.4, 0);
      assert Power(0.4, 2) == 0.4 * Power(0.4, 1);
      assert Power(0.4, 3) == 0.4 * Power(0.4, 2);
    }

    /** The same in counts, for weight 1: a panic for a word that never occurs, else the share of the word
      * after the longest context seen with it, times 0.4 for each word dropped. */
    lemma BackoffInCounts(data: seq<seq<int>>, nextWord: int, previous: seq<int>, n: nat)
      requires Fitted(data) && data != [] && 1 <= n <= 4 && |previous| == n - 1
      ensures var answer := BackedOff(nextWord, previous, n, 1.0);
        if Count(data, [nextWord], startTokenID, endTokenID) == 0 then answer == Panic
        else answer.Estimate? && exists j: nat ::
          && j < n && BacksOffTo(data, nextWord, previous, j)
          && IsShare(data, nextWord, previous[j..], if j == 0 then 1.0 else if j == 1 then 0.4 else if j == 2 then 0.16 else 0.064, answer.p)
    {
      hide IsTable, Relative, Count, BackedOff, BacksOffTo;
      BackoffPanics(data, nextWord, previous, n, 1.0);
      if Count(data, [nextWord], startTokenID, endTokenID) > 0 {
        var j := BackoffMeaning(data, nextWord, previous, n, 1.0);
        var history := previous[j..];
        RelativeIsShare(data, nextWord, history, n - j);
        assert history[..n - j - 1] == history;
        Powers();
        var alone := if history == [] then TotalWordFreq else Count(data, history, startTokenID, endTokenID);
        var together := Count(data, history + [nextWord], startTokenID, endTokenID);
        if alone > 0 {
          Scaled(Relative(nextWord, history, n - j), alone as real, together as real, Power(0.4, j));
        }
      }
    }

    lemma FoundAtOnce(data: seq<seq<int>>, nextWord: int, previous: seq<int>)
      requires Count(data, previous + [nextWord], startTokenID, endTokenID) > 0
      ensures BacksOffTo(data, nextWord, previous, 0) && previous[0..] == previous
    {
      hide Count;
      assert previous[0..] == previous;
    }

    lemma FoundLater(data: seq<seq<int>>, nextWord: int, previous: seq<int>, i: nat)
      requires previous != [] && i <= |previous| - 1 && BacksOffTo(data, nextWord, previous[1..], i)
      requires Count(data, previous + [nextWord], startTokenID, endTokenID) == 0
      ensures BacksOffTo(data, nextWord, previous, i + 1) && previous[1..][i..] == previous[i + 1..]
    {
      hide Count;
      var shorter := previous[1..];
      assert shorter[i..] == previous[i + 1..] && previous[0..] == previous;
      forall k | 0 <= k < i + 1 ensures Count(data, previous[k..] + [nextWord], startTokenID, endTokenID) == 0 {
        if k > 0 { assert shorter[k - 1..] == previous[k..]; }
      }
    }

    /** The source panics exactly when the word never occurs in the corpus. */
    lemma {:induction false} BackoffPanics(data: seq<seq<int>>, nextWord: int, previous: seq<int>, n: nat, lambda: real)
      requires Fitted(data) && data != [] && 1 <= n <= 4 && |previous| == n - 1 && 0.0 < lambda
      ensures BackedOff(nextWord, previous, n, lambda) == Panic <==> Count(data, [nextWord], startTokenID, endTokenID) == 0
      decreases n
    {
      hide IsTable, Relative, Count, BackedOff;
      if Count(data, [nextWord], startTokenID, endTokenID) > 0 {
        var j := BackoffMeaning(data, nextWord, previous, n, lambda);
      } else {
        BackStepSeen(data, nextWord, previous, n, lambda);
        LongerIsRarer(data, previous, [nextWord], startTokenID, endTokenID);
        if n > 1 {
          BackoffPanics(data, nextWord, previous[1..], n - 1, lambda * 0.4);
        }
      }
    }
  }

  lemma {:induction false} DroppedFirstInAll(data: seq<seq<int>>, x: int, g: seq<int>, start: int, end: int)
    requires |g| >= 1
    ensures Count(data, [x] + g, start, end) <= Count(data, g, start, end)
  {
    if data != [] {
      var last := |data| - 1;
      DroppedFirstInAll(data[..last], x, g, start, end);
      PaddedShift(data[last], |g|, start, end);
      FirstElsewhere(data[last], x, g, start, end);
    }
  }

  lemma {:induction false} LaterWindows(q: seq<int>, p: seq<int>, x: int, g: seq<int>, k: nat)
    requires |q| == |p| + 1 && q[1..] == p && (k == 0 || k - 1 + |g| <= |p|)
    ensures Occurrences(q, [x] + g, k) <= Occurrences(p, g, k)
  {
    if k != 0 {
      LaterWindows(q, p, x, g, k - 1);
      var window, later := q[k - 1..k - 1 + |[x] + g|], p[k - 1..k - 1 + |g|];
      forall j | 0 <= j < |g| ensures later[j] == window[j + 1] {
        assert q[1..][k - 1 + j] == q[k + j];
      }
      assert window == [x] + g ==> forall j :: 0 <= j < |g| ==> later[j] == ([x] + g)[j + 1] == g[j];
    }
  }

  lemma {:induction false} FirstElsewhere(doc: seq<int>, x: int, g: seq<int>, start: int, end: int)
    requires |g| >= 1
    ensures Occurrences([start] + Padded(doc, |g|, start, end), [x] + g, |doc| + 2) <= Occurrences(Padded(doc, |g|, start, end), g, |doc| + 2)
  {
    hide Occurrences, Padded, Repeat;
    var p := Padded(doc, |g|, start, end);
    assert ([start] + p)[1..] == p;
    LaterWindows([start] + p, p, x, g, |doc| + 2);
  }

  /** A longer history never makes the word more frequent. */
  lemma {:induction false} LongerIsRarer(data: seq<seq<int>>, history: seq<int>, g: seq<int>, start: int, end: int)
    requires |g| >= 1
    ensures Count(data, history + g, start, end) <= Count(data, g, start, end)
    decreases |history|
  {
    if history == [] {
      assert history + g == g;
    } else {
      LongerIsRarer(data, history[1..], g, start, end);
      DroppedFirstInAll(data, history[0], history[1..] + g, start, end);
      assert [history[0]] + (history[1..] + g) == history + g;
    }
  }

  // ---- a word that was never seen

  lemma {:induction false} AbsentNever(p: seq<int>, x: int, k: nat)
    requires x !in p && k <= |p|
    ensures Occurrences(p, [x], k) == 0
  {
    if k != 0 {
      AbsentNever(p, x, k - 1);
      assert p[k - 1..k - 1 + 1][0] == p[k - 1];
    }
  }

  lemma ThreeIsUnseen()
    ensures Count([[1, 2]], [3], 8, 9) == 0 && Windows([[1, 2]]) == 4
  {
    hide Occurrences;
    var data := [[1, 2]];
    assert data[..0] == [];
    assert Count(data, [3], 8, 9) == Count([], [3], 8, 9) + Occurrences(Padded([1, 2], 1, 8, 9), [3], 4);
    AbsentNever(Padded([1, 2], 1, 8, 9), 3, 4);
    assert Windows(data) == Windows([]) + 4;
  }

  /** A model of the one document "1 2" is asked for word 3 after two start tokens and word 1. */
  method UnseenWordPanics() returns (result: Probability)
    ensures result == Panic
  {
    hide IsTable, Count, Windows, NGramLanguageModel.BackedOff, NGramLanguageModel.Fitted;
    var model := new NGramLanguageModel(8, 9);
    var data := [[1, 2]];
    model.MakeCountMatrix(data);
    ThreeIsUnseen();
    result := model.StupidBackoff(3, [8, 8, 1], 4, data);
    model.BackoffPanics(data, 3, [8, 8, 1], 4, 1.0);
  }
}
