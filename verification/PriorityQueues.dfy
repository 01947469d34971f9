/** The priority queue of the k-way merge: minPriorityQueue of pkg/datastructure/priority_queue.go,
  * lines 25-45 and 83-118, driven by Init, Push and Pop of container/heap.
  */
module PriorityQueues {
  import opened Collections
  import opened HeapOrders

  class PriorityQueueNode<T> {
    const rank: real
    const item: T
    var index: int

    constructor (rank: real, item: T)
      ensures this.rank == rank && this.item == item
    {
      this.rank, this.item, index := rank, item, 0;
    }
  }

  ghost function NodeRanks<T>(nodes: seq<PriorityQueueNode<T>>): (ranks: seq<real>)
    ensures |ranks| == |nodes| && forall i {:trigger ranks[i]} :: 0 <= i < |nodes| ==> ranks[i] == nodes[i].rank
  {
    seq(|nodes|, i requires 0 <= i < |nodes| => nodes[i].rank)
  }

  lemma NodeRanksSwap<T>(nodes: seq<PriorityQueueNode<T>>, i: nat, j: nat)
    requires i < |nodes| && j < |nodes|
    ensures NodeRanks(Swap(nodes, i, j)) == Swap(NodeRanks(nodes), i, j)
  {}

  /** Every node knows its place. */
  ghost predicate Indexed<T>(nodes: seq<PriorityQueueNode<T>>)
    reads nodes
  {
    forall i {:trigger nodes[i]} :: 0 <= i < |nodes| ==> nodes[i].index == i
  }

  lemma NoDupSwap<T>(nodes: seq<PriorityQueueNode<T>>, i: nat, j: nat)
    requires i < |nodes| && j < |nodes| && NoDup(nodes)
    ensures NoDup(Swap(nodes, i, j))
  {}

  class MinPriorityQueue<T> {
    var nodes: seq<PriorityQueueNode<T>>

    ghost predicate Valid()
      reads this, nodes
    {
      NoDup(nodes) && Indexed(nodes) && Ordered(NodeRanks(nodes))
    }

    constructor ()
      ensures Valid() && nodes == []
    {
      nodes := [];
    }

    function Len(): nat
      reads this
    {
      |nodes|
    }

    function Less(i: nat, j: nat): bool
      requires i < |nodes| && j < |nodes|
      reads this
    {
      nodes[i].rank < nodes[j].rank
    }

    /** Swap, lines 98-102. */
    method SwapNodes(i: nat, j: nat)
      requires i < |nodes| && j < |nodes| && NoDup(nodes) && Indexed(nodes)
      modifies this, nodes[i], nodes[j]
      ensures nodes == Swap(old(nodes), i, j) && NoDup(nodes) && Indexed(nodes)
      ensures multiset(nodes) == multiset(old(nodes)) && NodeRanks(nodes) == Swap(NodeRanks(old(nodes)), i, j)
    {
      hide NodeRanks;
      NoDupSwap(nodes, i, j);
      SwapMultiset(nodes, i, j);
      NodeRanksSwap(nodes, i, j);
      nodes := Swap(nodes, i, j);
      nodes[i].index := i;
      nodes[j].index := j;
    }

    /** heap.Push with up: the new node climbs while it ranks below its parent. */
    method Push(no: PriorityQueueNode<T>)
      requires Valid() && no !in nodes
      modifies this, nodes, no
      ensures Valid() && multiset(nodes) == multiset(old(nodes)) + multiset{no}
    {
      hide Ordered, OrderedBelow, Swap, NodeRanks, NoDup;
      AppendBelow(NodeRanks(nodes), no.rank);
      AppendNode(nodes, no);
      no.index := |nodes|;
      nodes := nodes + [no];
      ghost var all := multiset(nodes);
      var j := |nodes| - 1;
      while j > 0 && Less(j, (j - 1) / 2)
        invariant 0 <= j < |nodes| && NoDup(nodes) && Indexed(nodes)
        invariant OrderedBelow(NodeRanks(nodes), j) && multiset(nodes) == all
        invariant forall k :: 0 <= k < |nodes| ==> nodes[k] in old(nodes) || nodes[k] == no
        decreases j
      {
        SiftUpStep(NodeRanks(nodes), j);
        ghost var before := nodes;
        SwapNodes((j - 1) / 2, j);
        SameMembers(before, nodes);
        j := (j - 1) / 2;
      }
      UpDone(NodeRanks(nodes), j);
    }

    /** The smaller child of i among the first n nodes. */
    method SmallerChild(i: nat, n: nat) returns (j: nat)
      requires 2 * i + 1 < n <= |nodes|
      ensures i < j < n && (j - 1) / 2 == i
      ensures forall k :: i < k < n && (k - 1) / 2 == i ==> nodes[j].rank <= nodes[k].rank
    {
      j := 2 * i + 1;
      if j + 1 < n && Less(j + 1, j) {
        j := j + 1;
      }
    }

    /** down(h, 0, n) of container/heap: a node sinks while a child ranks below it. */
    method Down(n: nat)
      requires n < |nodes| && NoDup(nodes) && Indexed(nodes) && OrderedAbove(NodeRanks(nodes[..n]), 0)
      modifies this, nodes
      ensures |nodes| == |old(nodes)| && NoDup(nodes) && Indexed(nodes) && Ordered(NodeRanks(nodes[..n]))
      ensures nodes[n..] == old(nodes)[n..] && multiset(nodes) == multiset(old(nodes))
    {
      hide Ordered, OrderedAbove, Swap, NodeRanks, NoDup;
      ghost var all := nodes;
      var i := 0;
      while 2 * i + 1 < n
        invariant 0 <= i && |nodes| == |all| && nodes[n..] == all[n..] && NoDup(nodes) && Indexed(nodes)
        invariant OrderedAbove(NodeRanks(nodes[..n]), i) && multiset(nodes) == multiset(all)
        invariant forall k :: 0 <= k < |nodes| ==> nodes[k] in all
        decreases n - i
      {
        var j := SmallerChild(i, n);
        if !Less(j, i) {
          break;
        }
        SiftDownStep(NodeRanks(nodes[..n]), i, j);
        PrefixSwap(nodes, n, j, i);
        ghost var before := nodes;
        SwapNodes(i, j);
        SwapSymmetric(before, i, j);
        SameMembers(before, nodes);
        i := j;
      }
      DownDone(NodeRanks(nodes[..n]), i);
    }

    /** heap.Pop: the root goes to the end, the node in its place sinks, and the end is cut off. */
    method Pop() returns (no: PriorityQueueNode<T>)
      requires Valid() && nodes != []
      modifies this, nodes
      ensures Valid() && multiset(old(nodes)) == multiset(nodes) + multiset{no} && no !in nodes
      ensures no.index == -1 && forall k :: 0 <= k < |old(nodes)| ==> no.rank <= old(nodes)[k].rank
    {
      hide Ordered, OrderedAbove, Swap, NodeRanks, NoDup;
      var n := |nodes| - 1;
      ghost var all := nodes;
      RootIsLeast(nodes);
      TakeRootNodes(nodes);
      SwapNodes(0, n);
      SameMembers(all, nodes);
      EndOfSwap(all);
      Down(n);
      no := nodes[n];
      assert nodes[n..][0] == no;
      CutLast(nodes);
      no.index := -1;
      nodes := nodes[..n];
    }
  }

  lemma EndOfSwap<T>(nodes: seq<PriorityQueueNode<T>>)
    requires nodes != []
    ensures Swap(nodes, 0, |nodes| - 1)[|nodes| - 1..] == [nodes[0]]
  {}

  lemma RootIsLeast<T>(nodes: seq<PriorityQueueNode<T>>)
    requires nodes != [] && Ordered(NodeRanks(nodes))
    ensures forall k :: 0 <= k < |nodes| ==> nodes[0].rank <= nodes[k].rank
  {
    forall k | 0 <= k < |nodes| ensures nodes[0].rank <= nodes[k].rank {
      MinAtRoot(NodeRanks(nodes), k);
    }
  }

  lemma TakeRootNodes<T>(nodes: seq<PriorityQueueNode<T>>)
    requires nodes != [] && Ordered(NodeRanks(nodes))
    ensures OrderedAbove(NodeRanks(Swap(nodes, 0, |nodes| - 1)[..|nodes| - 1]), 0)
  {
    hide Ordered, OrderedAbove;
    TakeRoot(NodeRanks(nodes), NodeRanks(Swap(nodes, 0, |nodes| - 1)[..|nodes| - 1]));
  }

  lemma PrefixSwap<T>(nodes: seq<PriorityQueueNode<T>>, n: nat, i: nat, j: nat)
    requires i < n <= |nodes| && j < n
    ensures NodeRanks(Swap(nodes, i, j)[..n]) == Swap(NodeRanks(nodes[..n]), i, j)
  {}

  lemma SwapSymmetric<T>(nodes: seq<PriorityQueueNode<T>>, i: nat, j: nat)
    requires i < |nodes| && j < |nodes|
    ensures Swap(nodes, i, j) == Swap(nodes, j, i)
  {}

  lemma CutLast<T>(nodes: seq<PriorityQueueNode<T>>)
    requires nodes != [] && NoDup(nodes)
    ensures var n := |nodes| - 1;
      NoDup(nodes[..n]) && nodes[n] !in nodes[..n] && multiset(nodes) == multiset(nodes[..n]) + multiset{nodes[n]}
  {
    assert nodes == nodes[..|nodes| - 1] + [nodes[|nodes| - 1]];
  }

  lemma SameMembers<T>(s: seq<PriorityQueueNode<T>>, t: seq<PriorityQueueNode<T>>)
    requires multiset(s) == multiset(t)
    ensures forall n :: n in s <==> n in t
  {
    forall n ensures n in s <==> n in t {
      assert n in multiset(s) <==> n in multiset(t);
    }
  }

  lemma AppendNode<T>(nodes: seq<PriorityQueueNode<T>>, no: PriorityQueueNode<T>)
    requires NoDup(nodes) && no !in nodes
    ensures NoDup(nodes + [no]) && NodeRanks(nodes + [no]) == NodeRanks(nodes) + [no.rank]
  {}
}
