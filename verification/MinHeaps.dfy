/** The binary heap of the nearest-neighbour search: pkg/datastructure/pq_rtree.go. */
module MinHeaps {
  import opened Collections
  import opened HeapOrders

  datatype QueueNode<T> = QueueNode(Rank: real, Item: T, IsObjectBoundingRectangle: bool)

  ghost function Ranks<T>(heap: seq<QueueNode<T>>): (ranks: seq<real>)
    ensures |ranks| == |heap| && forall i {:trigger ranks[i]} :: 0 <= i < |heap| ==> ranks[i] == heap[i].Rank
  {
    seq(|heap|, i requires 0 <= i < |heap| => heap[i].Rank)
  }

  lemma RanksSwap<T>(heap: seq<QueueNode<T>>, i: nat, j: nat)
    requires i < |heap| && j < |heap|
    ensures Ranks(Swap(heap, i, j)) == Swap(Ranks(heap), i, j)
  {}

  lemma TakeRootOf<T>(before: seq<QueueNode<T>>, after: seq<QueueNode<T>>)
    requires before != [] && Ordered(Ranks(before))
    requires after == before[0 := before[|before| - 1]][..|before| - 1]
    ensures OrderedAbove(Ranks(after), 0)
    ensures forall x :: x in multiset(after) ==> before[0].Rank <= x.Rank
  {
    hide Ordered, OrderedAbove;
    TakeRoot(Ranks(before), Ranks(after));
    forall x | x in multiset(after) ensures before[0].Rank <= x.Rank {
      var i :| 0 <= i < |after| && after[i] == x;
      assert Ranks(before)[0] <= Ranks(after)[i];
    }
  }

  class MinHeap<T> {
    var heap: seq<QueueNode<T>>

    ghost predicate Valid()
      reads this
    {
      Ordered(Ranks(heap))
    }

    constructor ()
      ensures Valid() && heap == []
    {
      heap := [];
    }

    function Size(): nat
      reads this
    {
      |heap|
    }

    /** GetMin, lines 78-83; None stands for the source's zero value and false. */
    method GetMin() returns (min: Option<QueueNode<T>>)
      requires Valid()
      ensures min == None <==> heap == []
      ensures min.Some? ==> min.value in heap && forall i :: 0 <= i < |heap| ==> min.value.Rank <= heap[i].Rank
    {
      if Size() == 0 {
        return None;
      }
      forall i | 0 <= i < |heap| ensures heap[0].Rank <= heap[i].Rank {
        MinAtRoot(Ranks(heap), i);
      }
      return Some(heap[0]);
    }

    /** Insert, lines 86-95. */
    method Insert(key: QueueNode<T>)
      requires Valid()
      modifies this
      ensures Valid() && multiset(heap) == old(multiset(heap)) + multiset{key}
    {
      hide Ordered, OrderedBelow, Swap, Ranks;
      AppendBelow(Ranks(heap), key.Rank);
      assert Ranks(heap + [key]) == Ranks(heap) + [key.Rank];
      heap := heap + [key];
      ghost var all := multiset(heap);
      var index := |heap| - 1;
      var parent := if index == 0 then 0 else (index - 1) / 2;
      while index != 0 && heap[parent].Rank > heap[index].Rank
        invariant 0 <= index < |heap| && parent == if index == 0 then 0 else (index - 1) / 2
        invariant OrderedBelow(Ranks(heap), index) && multiset(heap) == all
        decreases index
      {
        SiftUpStep(Ranks(heap), index);
        RanksSwap(heap, parent, index);
        SwapMultiset(heap, parent, index);
        heap := Swap(heap, parent, index);
        index := parent;
        parent := if index == 0 then 0 else (index - 1) / 2;
      }
      UpDone(Ranks(heap), index);
    }

    /** The child that the sift-down moves to, `index` itself when both children are larger. */
    method SmallestOf(index: nat) returns (smallest: nat)
      requires index < |heap|
      ensures smallest < |heap| && (smallest == index || (smallest > index && (smallest - 1) / 2 == index))
      ensures heap[smallest].Rank <= heap[index].Rank
      ensures forall i {:trigger heap[i]} :: 1 <= i < |heap| && (i - 1) / 2 == index ==> heap[smallest].Rank <= heap[i].Rank
    {
      smallest := index;
      var left, right := index * 2 + 1, index * 2 + 2;
      if left < |heap| && heap[left].Rank <= heap[smallest].Rank {
        smallest := left;
      }
      if right < |heap| && heap[right].Rank <= heap[smallest].Rank {
        smallest := right;
      }
    }

    /** ExtractMin, lines 98-125; its sift-down also moves past equal ranks. */
    method ExtractMin() returns (min: Option<QueueNode<T>>)
      requires Valid()
      modifies this
      ensures Valid() && (min == None <==> old(heap) == [])
      ensures min == None ==> heap == []
      ensures min.Some? ==> multiset(old(heap)) == multiset(heap) + multiset{min.value}
      ensures min.Some? ==> forall x :: x in multiset(heap) ==> min.value.Rank <= x.Rank
    {
      hide Ordered, OrderedAbove, Swap, Ranks;
      if Size() == 0 {
        return None;
      }
      var root := heap[0];
      ghost var before := heap;
      heap := heap[0 := heap[|heap| - 1]];
      heap := heap[..|heap| - 1];
      TakeRootMultiset(before, heap);
      TakeRootOf(before, heap);
      ghost var rest := multiset(heap);
      var index: nat := 0;
      while index < |heap|
        invariant OrderedAbove(Ranks(heap), index) && multiset(heap) == rest
        decreases |heap| - index
      {
        var smallest := SmallestOf(index);
        if smallest == index {
          break;
        }
        SiftDownStep(Ranks(heap), index, smallest);
        RanksSwap(heap, smallest, index);
        SwapMultiset(heap, smallest, index);
        heap := Swap(heap, smallest, index);
        index := smallest;
      }
      DownDone(Ranks(heap), index);
      min := Some(root);
    }
  }
}
