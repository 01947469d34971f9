/** The order of a binary heap, as the ranks of its nodes: shared by both queues of pkg/datastructure. */
module HeapOrders {

  ghost predicate Ordered(s: seq<real>) {
    forall i {:trigger s[i]} :: 1 <= i < |s| ==> s[(i - 1) / 2] <= s[i]
  }

  /** Ordered but for node `at`, whose parent may be larger; its children still exceed that parent. */
  ghost predicate OrderedBelow(s: seq<real>, at: nat) {
    && (forall i {:trigger s[i]} :: 1 <= i < |s| && i != at ==> s[(i - 1) / 2] <= s[i])
    && (forall i {:trigger s[i]} :: 1 <= i < |s| && (i - 1) / 2 == at && 1 <= at < |s| ==> s[(at - 1) / 2] <= s[i])
  }

  /** Ordered but for node `at`, whose children may be smaller; they still exceed its parent. */
  ghost predicate OrderedAbove(s: seq<real>, at: nat) {
    && (forall i {:trigger s[i]} :: 1 <= i < |s| && (i - 1) / 2 != at ==> s[(i - 1) / 2] <= s[i])
    && (forall i {:trigger s[i]} :: 1 <= i < |s| && (i - 1) / 2 == at && 1 <= at < |s| ==> s[(at - 1) / 2] <= s[i])
  }

  lemma {:induction false} MinAtRoot(s: seq<real>, i: nat)
    requires Ordered(s) && i < |s|
    ensures s[0] <= s[i]
    decreases i
  {
    if i > 0 {
      MinAtRoot(s, (i - 1) / 2);
      assert s[(i - 1) / 2] <= s[i];
    }
  }

  function Swap<T>(s: seq<T>, i: nat, j: nat): (r: seq<T>)
    requires i < |s| && j < |s|
    ensures |r| == |s| && r[i] == s[j] && r[j] == s[i] && forall k :: 0 <= k < |s| && k != i && k != j ==> r[k] == s[k]
  {
    s[i := s[j]][j := s[i]]
  }

  lemma SwapMultiset<T>(s: seq<T>, i: nat, j: nat)
    requires i < |s| && j < |s|
    ensures multiset(Swap(s, i, j)) == multiset(s)
  {}

  lemma SiftUpStep(s: seq<real>, at: nat)
    requires 0 < at < |s| && OrderedBelow(s, at) && s[(at - 1) / 2] > s[at]
    ensures OrderedBelow(Swap(s, (at - 1) / 2, at), (at - 1) / 2)
  {
    var parent := (at - 1) / 2;
    var r := Swap(s, parent, at);
    forall i {:trigger r[i]} | 1 <= i < |r| && i != parent ensures r[(i - 1) / 2] <= r[i] {
      assert s[i] == s[i] && s[(i - 1) / 2] == s[(i - 1) / 2];
    }
    forall i {:trigger r[i]} | 1 <= i < |r| && (i - 1) / 2 == parent && 1 <= parent ensures r[(parent - 1) / 2] <= r[i] {
      assert s[(parent - 1) / 2] <= s[parent];
      assert i != at ==> s[parent] <= s[i];
    }
  }

  lemma SiftDownStep(s: seq<real>, at: nat, child: nat)
    requires at < child < |s| && (child - 1) / 2 == at && OrderedAbove(s, at) && s[child] <= s[at]
    requires forall i {:trigger s[i]} :: 1 <= i < |s| && (i - 1) / 2 == at ==> s[child] <= s[i]
    ensures OrderedAbove(Swap(s, child, at), child)
  {
    var r := Swap(s, child, at);
    forall i {:trigger r[i]} | 1 <= i < |r| && (i - 1) / 2 != child ensures r[(i - 1) / 2] <= r[i] {
      if i == at {
        assert s[(at - 1) / 2] <= s[child];
      } else {
        assert s[i] == s[i];
      }
    }
    forall i {:trigger r[i]} | 1 <= i < |r| && (i - 1) / 2 == child ensures r[(child - 1) / 2] <= r[i] {
      assert s[child] <= s[i];
    }
  }

  lemma AppendBelow(s: seq<real>, key: real)
    requires Ordered(s)
    ensures OrderedBelow(s + [key], |s|)
  {
    var r := s + [key];
    forall i {:trigger r[i]} | 1 <= i < |r| && i != |s| ensures r[(i - 1) / 2] <= r[i] {
      assert s[i] == r[i] && s[(i - 1) / 2] == r[(i - 1) / 2];
    }
  }

  lemma UpDone(s: seq<real>, at: nat)
    requires at < |s| && OrderedBelow(s, at) && (at == 0 || s[(at - 1) / 2] <= s[at])
    ensures Ordered(s)
  {}

  lemma DownDone(s: seq<real>, at: nat)
    requires OrderedAbove(s, at)
    requires forall i {:trigger s[i]} :: 1 <= i < |s| && (i - 1) / 2 == at ==> s[at] <= s[i]
    ensures Ordered(s)
  {}

  lemma TakeRootMultiset<T>(before: seq<T>, after: seq<T>)
    requires before != [] && after == before[0 := before[|before| - 1]][..|before| - 1]
    ensures multiset(before) == multiset(after) + multiset{before[0]}
  {
    var n := |before| - 1;
    if n > 0 {
      assert before == [before[0]] + before[1..n] + [before[n]];
      assert after == [before[n]] + before[1..n];
    } else {
      assert before == [before[0]];
    }
  }

  /** The root is least in the whole heap, and taking it leaves a heap to be repaired at the top. */
  lemma {:induction false} TakeRoot(before: seq<real>, after: seq<real>)
    requires before != [] && Ordered(before)
    requires after == before[0 := before[|before| - 1]][..|before| - 1]
    ensures OrderedAbove(after, 0)
    ensures forall i :: 0 <= i < |after| ==> before[0] <= after[i]
  {
    forall i {:trigger after[i]} | 1 <= i < |after| && (i - 1) / 2 != 0 ensures after[(i - 1) / 2] <= after[i] {
      assert before[(i - 1) / 2] <= before[i];
    }
    forall i | 0 <= i < |after| ensures before[0] <= after[i] {
      MinAtRoot(before, if i == 0 then |before| - 1 else i);
    }
  }
}
