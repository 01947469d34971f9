/** The k-way merge of inverted indexes: pkg/index/heap_merge.go, lines 38-98. */
module HeapMerges {
  import opened Collections
  import opened Compress
  import opened InvertedIndices
  import opened PriorityQueues

  /** A term with its posting list. */
  datatype Entry = Entry(term: int, list: seq<Int64>)

  type Stream = seq<Entry>

  datatype HeapMergeItem = HeapMergeItem(arrIndex: nat, insideIndex: nat, termSize: nat, TermID: int, Postings: seq<Int64>)

  ghost function Listed(terms: seq<int>, contents: map<int, seq<Int64>>): (s: Stream)
    requires forall k :: 0 <= k < |terms| ==> terms[k] in contents
    ensures |s| == |terms| && forall k :: 0 <= k < |s| ==> s[k] == Entry(terms[k], contents[terms[k]])
  {
    seq(|terms|, k requires 0 <= k < |terms| => Entry(terms[k], contents[terms[k]]))
  }

  /** What an index holds, in the order in which it is iterated. */
  ghost function StreamOf(index: InvertedIndex): (s: Stream)
    requires index.Valid()
    reads index
  {
    TermsHaveLists(index);
    Listed(index.terms, index.Contents)
  }

  ghost function StreamsOf(indexes: seq<InvertedIndex>): (streams: seq<Stream>)
    requires forall i :: 0 <= i < |indexes| ==> indexes[i].Valid()
    reads indexes
    ensures |streams| == |indexes| && forall i :: 0 <= i < |indexes| ==> streams[i] == StreamOf(indexes[i])
  {
    if indexes == [] then [] else
      var last := indexes[|indexes| - 1];
      StreamsOf(indexes[..|indexes| - 1]) + [StreamOf(last)]
  }

  lemma TermsHaveLists(index: InvertedIndex)
    requires index.Valid()
    ensures forall k :: 0 <= k < |index.terms| ==> index.terms[k] in index.Contents
  {
    forall k | 0 <= k < |index.terms| ensures index.terms[k] in index.Contents {
      assert index.terms[k] in (set t | t in index.terms);
    }
  }

  ghost predicate Increasing(s: Stream) {
    forall j, k :: 0 <= j < k < |s| ==> s[j].term < s[k].term
  }

  /** The indexes as they are when a merge starts: distinct, unread, terms increasing. */
  ghost predicate Mergeable(indexes: seq<InvertedIndex>)
    reads indexes
  {
    && (forall i, j :: 0 <= i < j < |indexes| ==> indexes[i] != indexes[j])
    && (forall i :: 0 <= i < |indexes| ==> indexes[i].Valid() && indexes[i].currTermPosition == 0 && Increasing(StreamOf(indexes[i])))
  }

  /** The state of a merge: the streams, and how many entries of each have been handed out. */
  ghost predicate Within(streams: seq<Stream>, taken: seq<nat>) {
    && |taken| == |streams| && forall i {:trigger taken[i]} :: 0 <= i < |streams| ==> taken[i] <= |streams[i]|
  }

  ghost predicate Waits(streams: seq<Stream>, taken: seq<nat>, i: nat)
    requires Within(streams, taken)
  {
    i < |streams| && taken[i] < |streams[i]|
  }

  /** The queue item for the next entry of stream i. */
  ghost function NextItem(streams: seq<Stream>, taken: seq<nat>, i: nat): HeapMergeItem
    requires Within(streams, taken) && Waits(streams, taken, i)
  {
    var e := streams[i][taken[i]];
    HeapMergeItem(i, taken[i], |streams[i]|, e.term, e.list)
  }

  /** Nothing that still waits comes before the term. */
  ghost predicate AllLater(streams: seq<Stream>, taken: seq<nat>, term: int)
    requires Within(streams, taken)
  {
    forall i {:trigger Waits(streams, taken, i)} :: 0 <= i < |streams| && Waits(streams, taken, i) ==> term <= streams[i][taken[i]].term
  }

  type Node = PriorityQueueNode<HeapMergeItem>

  /** A node of the queue stands for the next entry of its stream. */
  ghost predicate Stands(streams: seq<Stream>, taken: seq<nat>, n: Node)
    requires Within(streams, taken)
  {
    Waits(streams, taken, n.item.arrIndex) && n.item == NextItem(streams, taken, n.item.arrIndex) && n.rank == n.item.TermID as real
  }

  ghost function Below(n: nat): (ids: set<nat>)
    ensures forall k: nat :: k in ids <==> k < n
  {
    if n == 0 then {} else Below(n - 1) + {n - 1}
  }

  /** The queue holds one node for every stream in ids that is not exhausted, and no other node. */
  ghost predicate Queued(streams: seq<Stream>, taken: seq<nat>, nodes: seq<Node>, ids: set<nat>)
    requires Within(streams, taken)
  {
    && (forall n :: n in nodes ==> n.item.arrIndex in ids && Stands(streams, taken, n))
    && (forall m, n :: m in nodes && n in nodes && m != n ==> m.item.arrIndex != n.item.arrIndex)
    && (forall i {:trigger Waits(streams, taken, i)} :: i in ids && Waits(streams, taken, i) ==> HasNode(nodes, i))
  }

  ghost predicate HasNode(nodes: seq<Node>, i: nat) {
    exists n :: n in nodes && n.item.arrIndex == i
  }

  /** A node for stream i enters a queue that has none for it. */
  lemma QueuedPush(streams: seq<Stream>, taken: seq<nat>, nodes: seq<Node>, more: seq<Node>, no: Node, ids: set<nat>)
    requires Within(streams, taken) && Queued(streams, taken, nodes, ids) && no.item.arrIndex !in ids
    requires Stands(streams, taken, no) && multiset(more) == multiset(nodes) + multiset{no}
    ensures Queued(streams, taken, more, ids + {no.item.arrIndex})
  {
    hide Stands, Waits, Within;
    PushedMembers(nodes, more, no);
    forall k | k in ids + {no.item.arrIndex} && Waits(streams, taken, k) ensures HasNode(more, k) {
      if k != no.item.arrIndex { assert HasNode(nodes, k); }
    }
  }

  lemma PushedMembers(nodes: seq<Node>, more: seq<Node>, no: Node)
    requires multiset(more) == multiset(nodes) + multiset{no}
    ensures forall n :: n in more <==> n in nodes || n == no
  {
    forall n ensures n in more <==> n in nodes || n == no {
      assert n in more <==> n in multiset(more);
    }
  }

  /** A stream that is exhausted needs no node. */
  lemma QueuedSkip(streams: seq<Stream>, taken: seq<nat>, nodes: seq<Node>, ids: set<nat>, i: nat)
    requires Within(streams, taken) && Queued(streams, taken, nodes, ids) && !Waits(streams, taken, i)
    ensures Queued(streams, taken, nodes, ids + {i})
  {}

  /** The node of stream i leaves the queue, and the stream advances. */
  lemma QueuedPop(streams: seq<Stream>, taken: seq<nat>, nodes: seq<Node>, less: seq<Node>, no: Node, ids: set<nat>)
    requires Within(streams, taken) && Queued(streams, taken, nodes, ids)
    requires multiset(nodes) == multiset(less) + multiset{no} && no !in less
    ensures Waits(streams, taken, no.item.arrIndex) && no.item == NextItem(streams, taken, no.item.arrIndex)
    ensures var i := no.item.arrIndex;
      && Within(streams, taken[i := taken[i] + 1]) && Queued(streams, taken[i := taken[i] + 1], less, ids - {i})
  {
    PushedMembers(less, nodes, no);
    assert Stands(streams, taken, no);
    var i := no.item.arrIndex;
    var taken' := taken[i := taken[i] + 1];
    forall n | n in less ensures n.item.arrIndex in ids - {i} && Stands(streams, taken', n) {
      assert Stands(streams, taken, n);
    }
    forall k | k in ids - {i} && Waits(streams, taken', k) ensures HasNode(less, k) {
      assert Waits(streams, taken, k);
      var n :| n in nodes && n.item.arrIndex == k;
      assert n in less;
    }
  }

  /** The node of least rank stands for the least of all entries that wait. */
  lemma LeastWaits(streams: seq<Stream>, taken: seq<nat>, nodes: seq<Node>, no: Node)
    requires Within(streams, taken) && Queued(streams, taken, nodes, Below(|streams|)) && no in nodes
    requires forall j :: 0 <= j < |nodes| ==> no.rank <= nodes[j].rank
    ensures AllLater(streams, taken, no.item.TermID)
  {
    hide Below;
    forall k {:trigger Waits(streams, taken, k)} | 0 <= k < |streams| && Waits(streams, taken, k)
      ensures no.item.TermID <= streams[k][taken[k]].term {
      assert HasNode(nodes, k);
      var n :| n in nodes && n.item.arrIndex == k;
      assert Stands(streams, taken, n) && Stands(streams, taken, no);
    }
  }

  ghost predicate SameIndex(index: InvertedIndex, s: Stream)
    reads index
  {
    index.Valid() && StreamOf(index) == s
  }

  /** Index i is read up to and including the entry that waits in the queue. */
  ghost predicate Read(index: InvertedIndex, s: Stream, taken: nat)
    reads index
  {
    SameIndex(index, s) && index.currTermPosition == if taken < |s| then taken + 1 else |s|
  }

  /** The entries handed out, as pairs of a stream and a position in it. */
  ghost predicate Traced(streams: seq<Stream>, taken: seq<nat>, trace: seq<(nat, nat)>)
    requires Within(streams, taken)
  {
    && (forall k :: 0 <= k < |trace| ==> trace[k].0 < |streams| && trace[k].1 < taken[trace[k].0])
    && (forall i, j :: 0 <= i < |streams| && 0 <= j < taken[i] ==> (i, j) in trace)
    && (forall j, k :: 0 <= j < k < |trace| ==> trace[j] != trace[k])
  }

  /** No term handed out exceeds a later one, or one that still waits. */
  ghost predicate InOrder(streams: seq<Stream>, taken: seq<nat>, trace: seq<(nat, nat)>)
    requires Within(streams, taken) && Traced(streams, taken, trace)
  {
    && (forall j, k :: 0 <= j < k < |trace| ==> TermAt(streams, trace[j]) <= TermAt(streams, trace[k]))
    && (forall k, i :: 0 <= k < |trace| && 0 <= i < |streams| && Waits(streams, taken, i) ==> TermAt(streams, trace[k]) <= streams[i][taken[i]].term)
  }

  lemma TraceGrows(streams: seq<Stream>, taken: seq<nat>, trace: seq<(nat, nat)>, i: nat)
    requires Within(streams, taken) && Traced(streams, taken, trace) && Waits(streams, taken, i)
    ensures var taken' := taken[i := taken[i] + 1];
      Within(streams, taken') && Traced(streams, taken', trace + [(i, taken[i])])
  {
    var taken', trace' := taken[i := taken[i] + 1], trace + [(i, taken[i])];
    forall k, j | 0 <= k < |streams| && 0 <= j < taken'[k] ensures (k, j) in trace' {
      if (k, j) == (i, taken[i]) {
        assert trace'[|trace|] == (k, j);
      } else {
        assert (k, j) in trace;
      }
    }
  }

  lemma StaysInOrder(streams: seq<Stream>, taken: seq<nat>, trace: seq<(nat, nat)>, i: nat)
    requires Within(streams, taken) && Traced(streams, taken, trace) && InOrder(streams, taken, trace) && Waits(streams, taken, i)
    requires Increasing(streams[i])
    requires AllLater(streams, taken, streams[i][taken[i]].term)
    ensures var taken' := taken[i := taken[i] + 1];
      && Within(streams, taken') && Traced(streams, taken', trace + [(i, taken[i])])
      && InOrder(streams, taken', trace + [(i, taken[i])])
  {
    TraceGrows(streams, taken, trace, i);
    hide Traced, Increasing;
    var taken', trace' := taken[i := taken[i] + 1], trace + [(i, taken[i])];
    TraceWithin(streams, taken', trace');
    TraceWithin(streams, taken, trace);
    var now := streams[i][taken[i]].term;
    forall j, k | 0 <= j < k < |trace'| ensures TermAt(streams, trace'[j]) <= TermAt(streams, trace'[k]) {
      if k == |trace| { assert trace'[k] == (i, taken[i]) && trace'[j] == trace[j]; }
    }
    forall k, j | 0 <= k < |trace'| && 0 <= j < |streams| && Waits(streams, taken', j)
      ensures TermAt(streams, trace'[k]) <= streams[j][taken'[j]].term {
      assert Waits(streams, taken, j);
      IncreasingAt(streams[i], taken[i]);
    }
  }

  lemma TraceWithin(streams: seq<Stream>, taken: seq<nat>, trace: seq<(nat, nat)>)
    requires Within(streams, taken) && Traced(streams, taken, trace)
    ensures forall k :: 0 <= k < |trace| ==> trace[k].0 < |streams| && trace[k].1 < |streams[trace[k].0]|
  {}

  lemma IncreasingAt(s: Stream, j: nat)
    requires Increasing(s) && j < |s|
    ensures j + 1 < |s| ==> s[j].term < s[j + 1].term
  {}

  ghost function TermAt(streams: seq<Stream>, at: (nat, nat)): int
    requires at.0 < |streams| && at.1 < |streams[at.0]|
  {
    streams[at.0][at.1].term
  }

  /** One step of index's iterator, which is at entry k. */
  method Pull(index: InvertedIndex, ghost s: Stream, ghost k: nat) returns (item: Option<IndexItem>)
    requires SameIndex(index, s) && index.currTermPosition == k <= |s|
    modifies index`currTermPosition
    ensures SameIndex(index, s)
    ensures k < |s| ==> item == Some(IndexItem(s[k].term, |s|, s[k].list)) && index.currTermPosition == k + 1
    ensures k == |s| ==> item == None && index.currTermPosition == k
  {
    item := index.Next();
  }

  class MergeKArrayIterator {
    const indexes: seq<InvertedIndex>
    const pq: MinPriorityQueue<HeapMergeItem>
    ghost const streams: seq<Stream>
    ghost var taken: seq<nat>
    ghost var trace: seq<(nat, nat)>

    ghost predicate Valid()
      reads this, pq, pq.nodes, indexes
    {
      && Within(streams, taken) && |indexes| == |streams| && pq.Valid()
      && (forall i :: 0 <= i < |streams| ==> Increasing(streams[i]))
      && (forall i, j :: 0 <= i < j < |indexes| ==> indexes[i] != indexes[j])
      && (forall i {:trigger indexes[i]} :: 0 <= i < |indexes| ==> Read(indexes[i], streams[i], taken[i]))
      && Queued(streams, taken, pq.nodes, Below(|streams|))
      && Traced(streams, taken, trace) && InOrder(streams, taken, trace)
    }

    /** NewMergeKArrayIterator, lines 29-35, with the empty queue of line 40. */
    constructor (indexes: seq<InvertedIndex>)
      requires Mergeable(indexes)
      ensures fresh(pq) && pq.Valid() && pq.nodes == [] && this.indexes == indexes && trace == []
      ensures streams == StreamsOf(indexes) && taken == seq(|indexes|, _ => 0)
    {
      hide InvertedIndex.Valid, Increasing, StreamOf, StreamsOf, MinPriorityQueue.Valid;
      this.indexes := indexes;
      pq := new MinPriorityQueue<HeapMergeItem>();
      streams := StreamsOf(indexes);
      taken := seq(|indexes|, _ => 0);
      trace := [];
    }

    lemma ReadyToStart()
      requires Mergeable(indexes) && streams == StreamsOf(indexes) && taken == seq(|indexes|, _ => 0)
      requires pq.Valid() && pq.nodes == [] && trace == []
      ensures Starting(0)
    {
      hide Increasing, StreamOf, StreamsOf, Stands, Waits;
      forall i {:trigger indexes[i]} | 0 <= i < |indexes| ensures SameIndex(indexes[i], streams[i]) && indexes[i].currTermPosition == 0 {
        assert streams[i] == StreamOf(indexes[i]);
      }
    }

    /** What holds while the first entries enter the queue: i indexes have been read once. */
    ghost predicate Starting(i: nat)
      reads this, pq, pq.nodes, indexes
    {
      && Within(streams, taken) && |indexes| == |streams| && pq.Valid() && i <= |indexes| && trace == []
      && (forall k {:trigger taken[k]} :: 0 <= k < |taken| ==> taken[k] == 0)
      && (forall k :: 0 <= k < |streams| ==> Increasing(streams[k]))
      && (forall j, k :: 0 <= j < k < |indexes| ==> indexes[j] != indexes[k])
      && (forall k {:trigger indexes[k]} :: 0 <= k < i ==> Read(indexes[k], streams[k], 0))
      && (forall k {:trigger indexes[k]} :: i <= k < |indexes| ==> SameIndex(indexes[k], streams[k]) && indexes[k].currTermPosition == 0)
      && Queued(streams, taken, pq.nodes, Below(i))
    }

    /** Lines 43-64: the first entry of every index enters the queue. */
    method Start()
      requires Starting(0) && pq.nodes == []
      modifies pq, indexes`currTermPosition
      ensures Valid() && fresh(pq.nodes)
      ensures taken == old(taken) && trace == old(trace)
    {
      hide Starting, Valid;
      for i := 0 to |indexes|
        invariant Starting(i) && fresh(pq.nodes)
      {
        StartOne(i);
      }
      StartedIsValid();
    }

    lemma StartedIsValid()
      requires Starting(|indexes|)
      ensures Valid()
    {
      hide Queued, Increasing, SameIndex;
    }

    method StartOne(i: nat)
      requires Starting(i) && i < |indexes|
      modifies pq, pq.nodes, {indexes[i]}`currTermPosition
      ensures Starting(i + 1) && forall k :: 0 <= k < |pq.nodes| ==> pq.nodes[k] in old(pq.nodes) || fresh(pq.nodes[k])
    {
      hide Queued, Increasing, SameIndex;
      var item := Pull(indexes[i], streams[i], 0);
      if item.Some? {
        var it := item.value;
        var node := new PriorityQueueNode(it.termID as real, HeapMergeItem(i, 0, it.termSize, it.termID, it.postingList));
        assert Stands(streams, taken, node);
        pq.Push(node);
        PushedMembers(old(pq.nodes), pq.nodes, node);
        QueuedPush(streams, taken, old(pq.nodes), pq.nodes, node, Below(i));
      } else {
        QueuedSkip(streams, taken, pq.nodes, Below(i), i);
      }
      assert Below(i) + {i} == Below(i + 1);
    }

    /** One turn of the loop of lines 66-96: the least waiting entry is handed out, and the next one of
      * its index takes its place. */
    method Next() returns (output: Option<Entry>, ghost i: nat)
      requires Valid()
      modifies this`taken, this`trace, pq, pq.nodes, indexes`currTermPosition
      ensures Valid() && forall k :: 0 <= k < |pq.nodes| ==> pq.nodes[k] in old(pq.nodes) || fresh(pq.nodes[k])
      ensures output == None ==> taken == old(taken) && trace == old(trace) && forall k :: 0 <= k < |streams| ==> !Waits(streams, taken, k)
      ensures output.Some? ==> Waits(streams, old(taken), i) && output.value == streams[i][old(taken)[i]]
      ensures output.Some? ==> taken == old(taken)[i := old(taken)[i] + 1] && trace == old(trace) + [(i, old(taken)[i])]
      ensures output.Some? ==> AllLater(streams, old(taken), output.value.term)
    {
      hide Queued, Increasing, SameIndex, Traced, InOrder, Below;
      if pq.Len() == 0 {
        NothingWaits(streams, taken, pq.nodes);
        return None, 0;
      }
      var it := TakeLeast();
      i := it.arrIndex;
      output := Some(Entry(it.TermID, it.Postings));
      Refill(it);
    }

    /** Lines 67-74: the queue gives up the node of the least waiting entry, which counts as handed out. */
    method TakeLeast() returns (it: HeapMergeItem)
      requires Valid() && pq.nodes != []
      modifies this`taken, this`trace, pq, pq.nodes
      ensures Waits(streams, old(taken), it.arrIndex) && it == NextItem(streams, old(taken), it.arrIndex)
      ensures taken == old(taken)[it.arrIndex := old(taken)[it.arrIndex] + 1] && trace == old(trace) + [(it.arrIndex, old(taken)[it.arrIndex])]
      ensures AllLater(streams, old(taken), it.TermID)
      ensures Within(streams, taken) && Traced(streams, taken, trace) && InOrder(streams, taken, trace)
      ensures pq.Valid() && Queued(streams, taken, pq.nodes, Below(|streams|) - {it.arrIndex})
      ensures forall k :: 0 <= k < |pq.nodes| ==> pq.nodes[k] in old(pq.nodes)
    {
      hide Queued, Increasing, SameIndex, Traced, InOrder, Below;
      var curr := pq.Pop();
      it := curr.item;
      ghost var i := it.arrIndex;
      PushedMembers(pq.nodes, old(pq.nodes), curr);
      QueuedPop(streams, taken, old(pq.nodes), pq.nodes, curr, Below(|streams|));
      LeastWaits(streams, taken, old(pq.nodes), curr);
      TraceGrows(streams, taken, trace, i);
      StaysInOrder(streams, taken, trace, i);
      trace := trace + [(i, taken[i])];
      taken := taken[i := taken[i] + 1];
    }

    /** Lines 80-95: the entry after the one that was handed out. */
    method Refill(it: HeapMergeItem)
      requires pq.Valid() && |indexes| == |streams| && it.arrIndex < |indexes| && Within(streams, taken)
      requires SameIndex(indexes[it.arrIndex], streams[it.arrIndex]) && taken[it.arrIndex] == indexes[it.arrIndex].currTermPosition
      requires it.insideIndex + 1 == taken[it.arrIndex] && it.termSize == |streams[it.arrIndex]|
      requires Queued(streams, taken, pq.nodes, Below(|streams|) - {it.arrIndex})
      modifies pq, pq.nodes, {indexes[it.arrIndex]}`currTermPosition
      ensures pq.Valid() && Read(indexes[it.arrIndex], streams[it.arrIndex], taken[it.arrIndex])
      ensures Queued(streams, taken, pq.nodes, Below(|streams|))
      ensures forall k :: 0 <= k < |pq.nodes| ==> pq.nodes[k] in old(pq.nodes) || fresh(pq.nodes[k])
    {
      hide Queued, SameIndex;
      var i := it.arrIndex;
      if it.insideIndex + 1 < it.termSize {
        var item := Pull(indexes[i], streams[i], it.insideIndex + 1);
        var next := item.value;
        var node := new PriorityQueueNode(next.termID as real,
          HeapMergeItem(i, it.insideIndex + 1, next.termSize, next.termID, next.postingList));
        pq.Push(node);
        PushedMembers(old(pq.nodes), pq.nodes, node);
        QueuedPush(streams, taken, old(pq.nodes), pq.nodes, node, Below(|streams|) - {i});
      } else {
        QueuedSkip(streams, taken, pq.nodes, Below(|streams|) - {i}, i);
      }
      assert Below(|streams|) - {i} + {i} == Below(|streams|);
    }
  }

  lemma NothingWaits(streams: seq<Stream>, taken: seq<nat>, nodes: seq<Node>)
    requires Within(streams, taken) && Queued(streams, taken, nodes, Below(|streams|)) && nodes == []
    ensures forall k :: 0 <= k < |streams| ==> !Waits(streams, taken, k)
  {
    forall k | 0 <= k < |streams| ensures !Waits(streams, taken, k) {
      assert k in Below(|streams|);
      assert !HasNode(nodes, k);
    }
  }
}
