/** Merging batch indexes into one: Merge and MergeFieldLengths of pkg/index/indexer.go, lines 620-668. */
module IndexMerges {
  import opened Sorting
  import opened Collections
  import opened Compress
  import opened InvertedIndices
  import opened HeapMerges

  // ---- what a merge has to produce

  /** The postings that the first n entries of a stream list under t. */
  ghost function From(s: Stream, n: nat, t: int): multiset<int>
    requires n <= |s|
  {
    if n == 0 then multiset{} else From(s, n - 1, t) + (if s[n - 1].term == t then multiset(s[n - 1].list) else multiset{})
  }

  /** The postings that the entries handed out so far list under t. */
  ghost function Gathered(streams: seq<Stream>, taken: seq<nat>, t: int): multiset<int>
    requires Within(streams, taken)
  {
    if streams == [] then multiset{} else
      var n := |streams| - 1;
      WithinPrefix(streams, taken);
      Gathered(streams[..n], taken[..n], t) + From(streams[n], taken[n], t)
  }

  lemma WithinPrefix(streams: seq<Stream>, taken: seq<nat>)
    requires Within(streams, taken) && streams != []
    ensures Within(streams[..|streams| - 1], taken[..|streams| - 1]) && taken[|streams| - 1] <= |streams[|streams| - 1]|
  {
    var n := |streams| - 1;
    assert taken[n] <= |streams[n]|;
    forall i | 0 <= i < n ensures taken[..n][i] <= |streams[..n][i]| {
      assert taken[i] <= |streams[i]|;
    }
  }

  ghost predicate Occurs(streams: seq<Stream>, taken: seq<nat>, t: int)
    requires Within(streams, taken)
  {
    exists i, j {:trigger streams[i][j]} :: 0 <= i < |streams| && 0 <= j < taken[i] && streams[i][j].term == t
  }

  ghost predicate NoneWaits(streams: seq<Stream>, taken: seq<nat>)
    requires Within(streams, taken)
  {
    forall k :: 0 <= k < |streams| ==> !Waits(streams, taken, k)
  }

  ghost function Full(streams: seq<Stream>): (taken: seq<nat>)
    ensures Within(streams, taken) && forall i :: 0 <= i < |streams| ==> taken[i] == |streams[i]|
  {
    seq(|streams|, i requires 0 <= i < |streams| => |streams[i]|)
  }

  /** Every distinct term once, in increasing order, with the sorted union of its lists. */
  ghost predicate IsMerge(terms: seq<int>, contents: map<int, seq<Int64>>, streams: seq<Stream>) {
    && (forall j, k :: 0 <= j < k < |terms| ==> terms[j] < terms[k])
    && (forall t :: t in terms <==> Occurs(streams, Full(streams), t))
    && (forall t :: t in contents <==> t in terms)
    && (forall t :: t in contents ==> Sorted(contents[t]) && multiset(contents[t]) == Gathered(streams, Full(streams), t))
  }

  lemma FromStep(s: Stream, n: nat, t: int)
    requires n < |s|
    ensures From(s, n + 1, t) == From(s, n, t) + (if s[n].term == t then multiset(s[n].list) else multiset{})
  {}

  lemma GatheredLast(streams: seq<Stream>, taken: seq<nat>, t: int)
    requires Within(streams, taken) && streams != []
    ensures var n := |streams| - 1;
      && Within(streams[..n], taken[..n]) && taken[n] <= |streams[n]|
      && Gathered(streams, taken, t) == Gathered(streams[..n], taken[..n], t) + From(streams[n], taken[n], t)
  {
    hide From;
    WithinPrefix(streams, taken);
  }

  lemma {:induction false} GatheredStep(streams: seq<Stream>, taken: seq<nat>, i: nat, t: int)
    requires Within(streams, taken) && Waits(streams, taken, i)
    ensures var e := streams[i][taken[i]]; var taken' := taken[i := taken[i] + 1];
      && Within(streams, taken')
      && Gathered(streams, taken', t) == Gathered(streams, taken, t) + (if e.term == t then multiset(e.list) else multiset{})
  {
    hide From, Gathered;
    var n := |streams| - 1;
    var taken' := taken[i := taken[i] + 1];
    GatheredLast(streams, taken, t);
    GatheredLast(streams, taken', t);
    if i == n {
      assert taken'[..n] == taken[..n];
      FromStep(streams[n], taken[n], t);
    } else {
      assert taken'[..n] == taken[..n][i := taken[i] + 1];
      assert taken'[n] == taken[n];
      GatheredStep(streams[..n], taken[..n], i, t);
    }
  }

  lemma {:induction false} FromAbsent(s: Stream, n: nat, t: int)
    requires n <= |s| && forall j :: 0 <= j < n ==> s[j].term != t
    ensures From(s, n, t) == multiset{}
  {
    if n > 0 { FromAbsent(s, n - 1, t); }
  }

  lemma {:induction false} GatheredAbsent(streams: seq<Stream>, taken: seq<nat>, t: int)
    requires Within(streams, taken) && !Occurs(streams, taken, t)
    ensures Gathered(streams, taken, t) == multiset{}
  {
    if streams != [] {
      var n := |streams| - 1;
      WithinPrefix(streams, taken);
      forall i, j | 0 <= i < n && 0 <= j < taken[..n][i] ensures streams[..n][i][j].term != t {
        assert streams[i][j].term != t;
      }
      GatheredAbsent(streams[..n], taken[..n], t);
      FromAbsent(streams[n], taken[n], t);
    }
  }

  lemma OccursStep(streams: seq<Stream>, taken: seq<nat>, i: nat, t: int)
    requires Within(streams, taken) && Waits(streams, taken, i)
    ensures Within(streams, taken[i := taken[i] + 1])
    ensures Occurs(streams, taken[i := taken[i] + 1], t) <==> Occurs(streams, taken, t) || streams[i][taken[i]].term == t
  {
    var taken' := taken[i := taken[i] + 1];
    if Occurs(streams, taken, t) {
      var k, j :| 0 <= k < |streams| && 0 <= j < taken[k] && streams[k][j].term == t;
      assert 0 <= j < taken'[k];
    }
    if streams[i][taken[i]].term == t {
      assert taken[i] < taken'[i];
    }
  }

  // ---- the loop of Merge

  /** What is merged when term lastTerm is being collected in lastPosting; -1 before the first term. */
  ghost predicate MergedUpTo(terms: seq<int>, contents: map<int, seq<Int64>>, streams: seq<Stream>, taken: seq<nat>,
                             lastTerm: int, lastPosting: seq<Int64>)
    requires Within(streams, taken)
  {
    && (forall j, k :: 0 <= j < k < |terms| ==> terms[j] < terms[k])
    && (forall t :: t in contents <==> t in terms)
    && (forall t :: t in contents ==> t < lastTerm && Sorted(contents[t]) && multiset(contents[t]) == Gathered(streams, taken, t))
    && (forall t :: Occurs(streams, taken, t) <==> t in contents || (t == lastTerm && lastTerm != -1))
    && (if lastTerm == -1 then terms == [] else multiset(lastPosting) == Gathered(streams, taken, lastTerm))
  }

  lemma LaterStep(streams: seq<Stream>, taken: seq<nat>, i: nat)
    requires Within(streams, taken) && Waits(streams, taken, i) && Increasing(streams[i])
    requires AllLater(streams, taken, streams[i][taken[i]].term)
    ensures Within(streams, taken[i := taken[i] + 1]) && AllLater(streams, taken[i := taken[i] + 1], streams[i][taken[i]].term)
  {
    var taken' := taken[i := taken[i] + 1];
    forall k {:trigger Waits(streams, taken', k)} | 0 <= k < |streams| && Waits(streams, taken', k)
      ensures streams[i][taken[i]].term <= streams[k][taken'[k]].term {
      assert Waits(streams, taken, k);
    }
  }

  lemma MergeSameTerm(terms: seq<int>, contents: map<int, seq<Int64>>, streams: seq<Stream>, taken: seq<nat>,
                      lastTerm: int, lastPosting: seq<Int64>, i: nat)
    requires Within(streams, taken) && Waits(streams, taken, i) && MergedUpTo(terms, contents, streams, taken, lastTerm, lastPosting)
    requires lastTerm != -1 && streams[i][taken[i]].term == lastTerm
    ensures Within(streams, taken[i := taken[i] + 1])
    ensures MergedUpTo(terms, contents, streams, taken[i := taken[i] + 1], lastTerm, lastPosting + streams[i][taken[i]].list)
  {
    hide Gathered, Occurs;
    var taken' := taken[i := taken[i] + 1];
    GatheredStep(streams, taken, i, lastTerm);
    forall t | t in contents ensures multiset(contents[t]) == Gathered(streams, taken', t) {
      GatheredStep(streams, taken, i, t);
    }
    forall t ensures Occurs(streams, taken', t) <==> t in contents || t == lastTerm {
      OccursStep(streams, taken, i, t);
    }
  }

  /** What is merged when no term is being collected. */
  ghost predicate Flushed(terms: seq<int>, contents: map<int, seq<Int64>>, streams: seq<Stream>, taken: seq<nat>,
                          lastTerm: int)
    requires Within(streams, taken)
  {
    && (forall j, k :: 0 <= j < k < |terms| ==> terms[j] < terms[k])
    && (forall t :: t in contents <==> t in terms)
    && (forall t :: t in contents ==> t <= lastTerm && Sorted(contents[t]) && multiset(contents[t]) == Gathered(streams, taken, t))
    && (forall t :: Occurs(streams, taken, t) <==> t in contents)
  }

  lemma FlushLast(terms: seq<int>, contents: map<int, seq<Int64>>, streams: seq<Stream>, taken: seq<nat>,
                  lastTerm: int, lastPosting: seq<Int64>, sorted: seq<Int64>)
    requires Within(streams, taken) && MergedUpTo(terms, contents, streams, taken, lastTerm, lastPosting) && lastTerm != -1
    requires Sorted(sorted) && multiset(sorted) == multiset(lastPosting)
    ensures Flushed(terms + [lastTerm], contents[lastTerm := sorted], streams, taken, lastTerm) && lastTerm !in terms
  {
    hide Gathered, Occurs, Sorted;
    assert multiset(sorted) == Gathered(streams, taken, lastTerm);
    forall j | 0 <= j < |terms| ensures terms[j] < lastTerm {
      assert terms[j] in terms;
    }
  }

  lemma MergeNewTerm(terms: seq<int>, contents: map<int, seq<Int64>>, streams: seq<Stream>, taken: seq<nat>,
                     lastTerm: int, i: nat)
    requires Within(streams, taken) && Waits(streams, taken, i) && Flushed(terms, contents, streams, taken, lastTerm)
    requires streams[i][taken[i]].term > lastTerm >= -1
    ensures Within(streams, taken[i := taken[i] + 1])
    ensures MergedUpTo(terms, contents, streams, taken[i := taken[i] + 1], streams[i][taken[i]].term, streams[i][taken[i]].list)
  {
    hide Gathered, Occurs, Sorted;
    var taken', e := taken[i := taken[i] + 1], streams[i][taken[i]];
    GatheredStep(streams, taken, i, e.term);
    assert e.term !in contents;
    GatheredAbsent(streams, taken, e.term);
    assert Gathered(streams, taken', e.term) == multiset(e.list);
    forall t | t in contents ensures multiset(contents[t]) == Gathered(streams, taken', t) {
      GatheredStep(streams, taken, i, t);
    }
    forall t ensures Occurs(streams, taken', t) <==> t in contents || t == e.term {
      OccursStep(streams, taken, i, t);
    }
  }

  lemma MergeEnds(terms: seq<int>, contents: map<int, seq<Int64>>, streams: seq<Stream>, taken: seq<nat>, lastTerm: int)
    requires Within(streams, taken) && Flushed(terms, contents, streams, taken, lastTerm)
    requires NoneWaits(streams, taken)
    ensures taken == Full(streams) && IsMerge(terms, contents, streams)
  {
    hide Gathered, Occurs, Sorted;
    forall k | 0 <= k < |streams| ensures taken[k] == |streams[k]| {
      assert !Waits(streams, taken, k);
    }
    assert taken == Full(streams);
  }

  lemma NothingYet(streams: seq<Stream>, taken: seq<nat>)
    requires |taken| == |streams| && forall k :: 0 <= k < |taken| ==> taken[k] == 0
    requires forall i, j :: 0 <= i < |streams| && 0 <= j < |streams[i]| ==> streams[i][j].term >= 0
    ensures Within(streams, taken) && MergedUpTo([], map[], streams, taken, -1, []) && AllLater(streams, taken, -1)
  {}

  // ---- Merge itself

  lemma LeastIsNext(streams: seq<Stream>, taken: seq<nat>, i: nat, lastTerm: int)
    requires Within(streams, taken) && Waits(streams, taken, i) && AllLater(streams, taken, lastTerm)
    ensures lastTerm <= streams[i][taken[i]].term
  {}

  lemma TermsAreNonNegative(indices: seq<InvertedIndex>)
    requires Mergeable(indices)
    requires forall i, j :: 0 <= i < |indices| && 0 <= j < |indices[i].terms| ==> indices[i].terms[j] >= 0
    ensures NonNegative(StreamsOf(indices))
  {}

  /** How many entries are left to hand out. */
  ghost function Left(streams: seq<Stream>, taken: seq<nat>): nat
    requires Within(streams, taken)
  {
    if streams == [] then 0 else
      var n := |streams| - 1;
      WithinPrefix(streams, taken);
      Left(streams[..n], taken[..n]) + (|streams[n]| - taken[n])
  }

  lemma {:induction false} LeftStep(streams: seq<Stream>, taken: seq<nat>, i: nat)
    requires Within(streams, taken) && Waits(streams, taken, i)
    ensures Within(streams, taken[i := taken[i] + 1]) && Left(streams, taken[i := taken[i] + 1]) < Left(streams, taken)
  {
    var n := |streams| - 1;
    var taken' := taken[i := taken[i] + 1];
    WithinPrefix(streams, taken);
    WithinPrefix(streams, taken');
    if i == n {
      assert taken'[..n] == taken[..n];
    } else {
      assert taken'[..n] == taken[..n][i := taken[i] + 1];
      LeftStep(streams[..n], taken[..n], i);
    }
  }

  /** Lines 648-649 and 661-662: the collected list goes into the merged index. */
  method Flush(mergedIndex: InvertedIndex, lastTerm: int, lastPosting: seq<Int64>, ghost streams: seq<Stream>,
               ghost taken: seq<nat>)
    requires mergedIndex.Valid() && Within(streams, taken) && lastTerm != -1
    requires MergedUpTo(mergedIndex.terms, mergedIndex.Contents, streams, taken, lastTerm, lastPosting)
    modifies mergedIndex
    ensures mergedIndex.Valid() && Flushed(mergedIndex.terms, mergedIndex.Contents, streams, taken, lastTerm)
    ensures old(mergedIndex.Tiled()) ==> mergedIndex.Tiled()
    ensures mergedIndex.lenFieldInDoc == old(mergedIndex.lenFieldInDoc)
  {
    hide Gathered, Occurs, Sorted, MergedUpTo, Flushed, Within;
    var sorted := SortInts(lastPosting);
    SameElements(sorted, lastPosting);
    FlushLast(mergedIndex.terms, mergedIndex.Contents, streams, taken, lastTerm, lastPosting, sorted);
    mergedIndex.AppendPostingList(lastTerm, sorted);
  }

  /** The state of Merge between two entries. */
  ghost predicate Merging(mergedIndex: InvertedIndex, streams: seq<Stream>, taken: seq<nat>, lastTerm: int,
                          lastPosting: seq<Int64>)
    reads mergedIndex
  {
    && mergedIndex.Valid() && lastTerm >= -1 && Within(streams, taken) && AllLater(streams, taken, lastTerm)
    && MergedUpTo(mergedIndex.terms, mergedIndex.Contents, streams, taken, lastTerm, lastPosting)
  }

  /** The body of the loop, lines 643-657. */
  method Absorb(mergedIndex: InvertedIndex, lastTerm: int, lastPosting: seq<Int64>, e: Entry,
                ghost streams: seq<Stream>, ghost taken: seq<nat>, ghost i: nat)
    returns (newTerm: int, newPosting: seq<Int64>)
    requires Merging(mergedIndex, streams, taken, lastTerm, lastPosting)
    requires Waits(streams, taken, i) && Increasing(streams[i]) && e == streams[i][taken[i]] && AllLater(streams, taken, e.term)
    requires e.term >= 0
    modifies mergedIndex
    ensures Merging(mergedIndex, streams, taken[i := taken[i] + 1], newTerm, newPosting)
    ensures old(mergedIndex.Tiled()) ==> mergedIndex.Tiled()
    ensures mergedIndex.lenFieldInDoc == old(mergedIndex.lenFieldInDoc)
  {
    hide Gathered, Occurs, Sorted, MergedUpTo, Flushed, Increasing;
    LeastIsNext(streams, taken, i, lastTerm);
    LaterStep(streams, taken, i);
    if e.term != lastTerm {
      if lastTerm != -1 {
        Flush(mergedIndex, lastTerm, lastPosting, streams, taken);
      } else {
        NothingToFlush(mergedIndex.terms, mergedIndex.Contents, streams, taken, lastPosting);
      }
      MergeNewTerm(mergedIndex.terms, mergedIndex.Contents, streams, taken, lastTerm, i);
      newTerm, newPosting := e.term, e.list;
    } else {
      MergeSameTerm(mergedIndex.terms, mergedIndex.Contents, streams, taken, lastTerm, lastPosting, i);
      newTerm, newPosting := lastTerm, lastPosting + e.list;
    }
  }

  lemma NothingToFlush(terms: seq<int>, contents: map<int, seq<Int64>>, streams: seq<Stream>, taken: seq<nat>,
                       lastPosting: seq<Int64>)
    requires Within(streams, taken) && MergedUpTo(terms, contents, streams, taken, -1, lastPosting)
    ensures Flushed(terms, contents, streams, taken, -1)
  {}

  lemma StartsMerging(it: MergeKArrayIterator, mergedIndex: InvertedIndex)
    requires it.Starting(0) && mergedIndex.Valid() && mergedIndex.terms == []
    requires NonNegative(it.streams)
    ensures Within(it.streams, it.taken) && Merging(mergedIndex, it.streams, it.taken, -1, [])
  {
    hide Queued;
    assert mergedIndex.Contents == map[];
    forall k | 0 <= k < |it.taken| ensures it.taken[k] == 0 {}
    NothingYet(it.streams, it.taken);
  }

  lemma IteratorFacts(it: MergeKArrayIterator)
    requires it.Valid()
    ensures Within(it.streams, it.taken) && forall i :: 0 <= i < |it.streams| ==> Increasing(it.streams[i])
    ensures Traced(it.streams, it.taken, it.trace) && InOrder(it.streams, it.taken, it.trace)
    ensures |it.indexes| == |it.streams| && forall i {:trigger it.indexes[i]} :: 0 <= i < |it.indexes| ==> SameIndex(it.indexes[i], it.streams[i])
  {}

  /** One turn of the loop: the iterator yields an entry, and the body absorbs it. */
  method MergeStep(it: MergeKArrayIterator, mergedIndex: InvertedIndex, lastTerm: int, lastPosting: seq<Int64>)
    returns (more: bool, newTerm: int, newPosting: seq<Int64>)
    requires it.Valid() && mergedIndex !in it.indexes && Merging(mergedIndex, it.streams, it.taken, lastTerm, lastPosting)
    requires NonNegative(it.streams)
    modifies it, it.pq, it.pq.nodes, it.indexes`currTermPosition, mergedIndex
    ensures it.Valid() && forall k :: 0 <= k < |it.pq.nodes| ==> it.pq.nodes[k] in old(it.pq.nodes) || fresh(it.pq.nodes[k])
    ensures Within(it.streams, it.taken) && Merging(mergedIndex, it.streams, it.taken, newTerm, newPosting)
    ensures if more then Left(it.streams, it.taken) < old(Left(it.streams, it.taken)) else it.taken == old(it.taken)
    ensures !more ==> NoneWaits(it.streams, it.taken)
    ensures old(mergedIndex.Tiled()) ==> mergedIndex.Tiled()
    ensures mergedIndex.lenFieldInDoc == old(mergedIndex.lenFieldInDoc)
  {
    hide Gathered, Occurs, Sorted, MergedUpTo, Flushed, AllLater, Queued, Traced, InOrder, SameIndex, Increasing, InvertedIndex.Tiled;
    IteratorFacts(it);
    ghost var taken := it.taken;
    ghost var i;
    var output;
    output, i := it.Next();
    if output.None? {
      return false, lastTerm, lastPosting;
    }
    LeftStep(it.streams, taken, i);
    newTerm, newPosting := Absorb(mergedIndex, lastTerm, lastPosting, output.value, it.streams, taken, i);
    more := true;
  }

  ghost predicate NonNegative(streams: seq<Stream>) {
    forall i, j :: 0 <= i < |streams| && 0 <= j < |streams[i]| ==> streams[i][j].term >= 0
  }

  /** Merge, lines 635-668. Beside the merged index, the entries as they were handed out by the queue. */
  method Merge(indices: seq<InvertedIndex>, mergedIndex: InvertedIndex)
    returns (ghost streams: seq<Stream>, ghost trace: seq<(nat, nat)>)
    requires Mergeable(indices) && mergedIndex !in indices
    requires forall i, j :: 0 <= i < |indices| && 0 <= j < |indices[i].terms| ==> indices[i].terms[j] >= 0
    requires mergedIndex.Valid() && mergedIndex.terms == []
    modifies mergedIndex, indices`currTermPosition
    ensures streams == old(StreamsOf(indices))
    ensures mergedIndex.Valid() && IsMerge(mergedIndex.terms, mergedIndex.Contents, streams)
    ensures old(mergedIndex.Tiled()) ==> mergedIndex.Tiled()
    ensures mergedIndex.lenFieldInDoc == old(mergedIndex.lenFieldInDoc)
    ensures |streams| == |indices| && forall i {:trigger indices[i]} :: 0 <= i < |indices| ==> SameIndex(indices[i], streams[i])
    ensures Traced(streams, Full(streams), trace) && InOrder(streams, Full(streams), trace)
  {
    hide Gathered, Occurs, Sorted, MergedUpTo, Flushed, AllLater, Queued, Traced, InOrder, SameIndex, Increasing, Waits,
      MergeKArrayIterator.Valid, MergeKArrayIterator.Starting, InvertedIndex.Valid, InvertedIndex.Tiled, Mergeable,
      StreamsOf, Left, NonNegative, Merging, IsMerge, NoneWaits;
    var it := new MergeKArrayIterator(indices);
    streams := it.streams;
    it.ReadyToStart();
    TermsAreNonNegative(indices);
    var lastTerm, lastPosting: seq<Int64> := -1, [];
    StartsMerging(it, mergedIndex);
    it.Start();
    var more := true;
    while more
      invariant fresh(it) && fresh(it.pq) && fresh(it.pq.nodes) && it.indexes == indices && it.streams == streams && it.Valid()
      invariant Within(streams, it.taken) && Merging(mergedIndex, streams, it.taken, lastTerm, lastPosting)
      invariant mergedIndex.lenFieldInDoc == old(mergedIndex.lenFieldInDoc)
      invariant old(mergedIndex.Tiled()) ==> mergedIndex.Tiled()
      invariant !more ==> NoneWaits(streams, it.taken)
      decreases Left(streams, it.taken), more
    {
      more, lastTerm, lastPosting := MergeStep(it, mergedIndex, lastTerm, lastPosting);
    }
    IteratorFacts(it);
    trace := it.trace;
    Finish(mergedIndex, lastTerm, lastPosting, streams, it.taken);
  }

  /** Lines 660-666: the last collected list. */
  method Finish(mergedIndex: InvertedIndex, lastTerm: int, lastPosting: seq<Int64>, ghost streams: seq<Stream>,
                ghost taken: seq<nat>)
    requires Within(streams, taken) && Merging(mergedIndex, streams, taken, lastTerm, lastPosting)
    requires NoneWaits(streams, taken)
    modifies mergedIndex
    ensures mergedIndex.Valid() && taken == Full(streams) && IsMerge(mergedIndex.terms, mergedIndex.Contents, streams)
    ensures old(mergedIndex.Tiled()) ==> mergedIndex.Tiled()
    ensures mergedIndex.lenFieldInDoc == old(mergedIndex.lenFieldInDoc)
  {
    hide Gathered, Occurs, Sorted, MergedUpTo, Flushed, IsMerge;
    if lastTerm != -1 {
      Flush(mergedIndex, lastTerm, lastPosting, streams, taken);
    } else {
      NothingToFlush(mergedIndex.terms, mergedIndex.Contents, streams, taken, lastPosting);
    }
    MergeEnds(mergedIndex.terms, mergedIndex.Contents, streams, taken, lastTerm);
  }

  // ---- MergeFieldLengths

  ghost function LensOf(indices: seq<InvertedIndex>): (lens: seq<map<int, int>>)
    reads indices
    ensures |lens| == |indices| && forall i :: 0 <= i < |indices| ==> lens[i] == indices[i].lenFieldInDoc
  {
    if indices == [] then [] else LensOf(indices[..|indices| - 1]) + [indices[|indices| - 1].lenFieldInDoc]
  }

  ghost function LengthIn(lens: map<int, int>, d: int): int {
    if d in lens then lens[d] else 0
  }

  ghost function TotalLength(lens: seq<map<int, int>>, d: int): int {
    if lens == [] then 0 else TotalLength(lens[..|lens| - 1], d) + LengthIn(lens[|lens| - 1], d)
  }

  ghost predicate Measured(lens: seq<map<int, int>>, d: int) {
    exists i :: 0 <= i < |lens| && d in lens[i]
  }

  /** The inner loop of MergeFieldLengths, lines 623-629, in any order of the keys. */
  method AddLengths(lens: map<int, int>, lenDF0: map<int, int>) returns (lenDF: map<int, int>)
    ensures forall d :: d in lenDF <==> d in lenDF0 || d in lens
    ensures forall d :: LengthIn(lenDF, d) == LengthIn(lenDF0, d) + LengthIn(lens, d)
  {
    lenDF := lenDF0;
    var todo := lens.Keys;
    while todo != {}
      invariant todo <= lens.Keys
      invariant forall d :: d in lenDF <==> d in lenDF0 || (d in lens && d !in todo)
      invariant forall d :: LengthIn(lenDF, d) == LengthIn(lenDF0, d) + (if d in todo then 0 else LengthIn(lens, d))
      decreases |todo|
    {
      var docID := AnyOf(todo);
      assert docID in lens.Keys;
      lenDF := lenDF[docID := if docID in lenDF then lenDF[docID] + lens[docID] else lens[docID]];
      todo := todo - {docID};
    }
  }

  /** MergeFieldLengths, lines 620-632: field lengths are added up per document. */
  method MergeFieldLengths(indices: seq<InvertedIndex>) returns (lenDF: map<int, int>)
    ensures forall d :: d in lenDF <==> Measured(LensOf(indices), d)
    ensures forall d :: LengthIn(lenDF, d) == TotalLength(LensOf(indices), d)
  {
    lenDF := map[];
    for k := 0 to |indices|
      invariant forall d :: d in lenDF <==> Measured(LensOf(indices[..k]), d)
      invariant forall d :: LengthIn(lenDF, d) == TotalLength(LensOf(indices[..k]), d)
    {
      lenDF := AddLengths(indices[k].lenFieldInDoc, lenDF);
      OneMoreIndex(indices, k);
    }
    assert indices[..|indices|] == indices;
  }

  lemma OneMoreIndex(indices: seq<InvertedIndex>, k: nat)
    requires k < |indices|
    ensures forall d :: TotalLength(LensOf(indices[..k + 1]), d) == TotalLength(LensOf(indices[..k]), d) + LengthIn(indices[k].lenFieldInDoc, d)
    ensures forall d :: Measured(LensOf(indices[..k + 1]), d) <==> Measured(LensOf(indices[..k]), d) || d in indices[k].lenFieldInDoc
  {
    assert indices[..k + 1][..k] == indices[..k];
    var lens, more := LensOf(indices[..k]), LensOf(indices[..k + 1]);
    assert more == lens + [indices[k].lenFieldInDoc];
    assert more[..k] == lens;
    forall d ensures Measured(more, d) <==> Measured(lens, d) || d in indices[k].lenFieldInDoc {
      if Measured(lens, d) {
        var i :| 0 <= i < |lens| && d in lens[i];
        assert d in more[i];
      }
      if d in indices[k].lenFieldInDoc { assert d in more[k]; }
    }
  }
}
