/** The index of a field, end to end: documents in batches are inverted, written, merged and measured;
  * pkg/index/indexer.go, lines 620-818 with the merging part of SpimiBatchIndex (lines 500-573).
  */
module FieldIndexes {
  import opened Sorting
  import opened Collections
  import opened Compress
  import opened InvertedIndices
  import opened HeapMerges
  import opened IndexMerges
  import opened IDMaps
  import opened TokenStreams
  import opened Indexers

  ghost function AllNodes(batches: seq<seq<OSMNode>>): seq<OSMNode> {
    if batches == [] then [] else AllNodes(batches[..|batches| - 1]) + batches[|batches| - 1]
  }

  // ---- from batches to the merged index

  lemma {:induction false} PostingsConcat(a: seq<Pair>, b: seq<Pair>, t: int)
    ensures Postings(a + b, t) == Postings(a, t) + Postings(b, t)
  {
    if b == [] {
      assert a + b == a;
    } else {
      PostingsConcat(a, b[..|b| - 1], t);
      assert (a + b)[..|a + b| - 1] == a + b[..|b| - 1];
    }
  }

  lemma {:induction false} FromUpTo(s: Stream, n: nat, t: int)
    requires n <= |s| && Increasing(s)
    ensures (exists k :: 0 <= k < n && s[k].term == t) || From(s, n, t) == multiset{}
    ensures forall k :: 0 <= k < n && s[k].term == t ==> From(s, n, t) == multiset(s[k].list)
  {
    if n > 0 {
      FromUpTo(s, n - 1, t);
      assert s[n - 1].term == t ==> forall k :: 0 <= k < n - 1 ==> s[k].term != t;
    }
  }

  lemma FromListed(terms: seq<int>, contents: map<int, seq<Int64>>, t: int)
    requires Ascending(terms) && (forall k :: 0 <= k < |terms| ==> terms[k] in contents) && (t in contents ==> t in terms)
    ensures Increasing(Listed(terms, contents)) && From(Listed(terms, contents), |terms|, t) == Posts(contents, t)
  {
    hide From;
    var s := Listed(terms, contents);
    FromUpTo(s, |s|, t);
    if t in terms {
      var k :| 0 <= k < |terms| && terms[k] == t;
      assert s[k].term == t;
    }
  }

  lemma FromIsPosts(index: InvertedIndex, t: int)
    requires index.Valid() && Ascending(index.terms)
    ensures Increasing(StreamOf(index)) && From(StreamOf(index), |index.terms|, t) == Posts(index.Contents, t)
  {
    hide Ascending, From, Posts, Increasing;
    TermsHaveLists(index);
    assert t in index.Contents.Keys <==> t in (set x | x in index.terms);
    FromListed(index.terms, index.Contents, t);
  }

  ghost predicate AllKnown(tokenize: Tokenizer, batches: seq<seq<OSMNode>>, field: string, ids: map<string, int>) {
    forall i :: 0 <= i < |batches| ==> Known(tokenize, batches[i], field, ids)
  }

  lemma {:induction false} AllNodesKnown(tokenize: Tokenizer, batches: seq<seq<OSMNode>>, field: string,
                                         ids: map<string, int>)
    requires AllKnown(tokenize, batches, field, ids)
    ensures Known(tokenize, AllNodes(batches), field, ids)
  {
    if batches != [] {
      AllNodesKnown(tokenize, batches[..|batches| - 1], field, ids);
      PairsConcat(tokenize, AllNodes(batches[..|batches| - 1]), batches[|batches| - 1], field, ids);
    }
  }

  /** Merging the batches gives the postings of all documents together. */
  lemma {:induction false} GatheredIsAll(streams: seq<Stream>, tokenize: Tokenizer, batches: seq<seq<OSMNode>>,
                                         field: string,
                                         ids: map<string, int>, t: int)
    requires |streams| == |batches| && AllKnown(tokenize, batches, field, ids)
    requires forall i :: 0 <= i < |streams| ==> From(streams[i], |streams[i]|, t) == multiset(Postings(PairsOf(tokenize, batches[i], field, ids), t))
    ensures Known(tokenize, AllNodes(batches), field, ids)
    ensures Gathered(streams, Full(streams), t) == multiset(Postings(PairsOf(tokenize, AllNodes(batches), field, ids), t))
  {
    hide Known, Postings, PairsOf, From;
    AllNodesKnown(tokenize, batches, field, ids);
    if streams == [] {
      NoPairs(tokenize, field, ids, t);
    } else {
      var n := |streams| - 1;
      assert Full(streams)[..n] == Full(streams[..n]);
      AllNodesKnown(tokenize, batches[..n], field, ids);
      GatheredIsAll(streams[..n], tokenize, batches[..n], field, ids, t);
      PairsConcat(tokenize, AllNodes(batches[..n]), batches[n], field, ids);
      PostingsConcat(PairsOf(tokenize, AllNodes(batches[..n]), field, ids), PairsOf(tokenize, batches[n], field, ids), t);
    }
  }

  lemma NoPairs(tokenize: Tokenizer, field: string, ids: map<string, int>, t: int)
    ensures Known(tokenize, [], field, ids) && Postings(PairsOf(tokenize, [], field, ids), t) == []
  {}

  /** The batch indexes as SpimiInvert leaves them. */
  ghost predicate Inverted(indices: seq<InvertedIndex>, tokenize: Tokenizer, batches: seq<seq<OSMNode>>,
                           field: string, ids: map<string, int>)
    reads indices
  {
    && |indices| == |batches|
    && (forall i, j :: 0 <= i < j < |indices| ==> indices[i] != indices[j])
    && (forall i :: 0 <= i < |indices| ==> forall k :: 0 <= k < |indices[i].terms| ==> indices[i].terms[k] >= 0)
    && AllKnown(tokenize, batches, field, ids)
    && (forall i :: 0 <= i < |indices| ==> Holds(indices[i], PairsOf(tokenize, batches[i], field, ids), Lengths(tokenize, batches[i], field)))
  }

  lemma NoBatches(tokenize: Tokenizer, field: string, ids: map<string, int>)
    ensures Inverted([], tokenize, [], field, ids)
  {}

  lemma {:induction false} OneMoreBatch(indices: seq<InvertedIndex>, index: InvertedIndex, tokenize: Tokenizer,
                     batches: seq<seq<OSMNode>>, b: nat, field: string,
                     ids: map<string, int>, more: map<string, int>)
    requires b < |batches| && Inverted(indices, tokenize, batches[..b], field, ids) && Grows(ids, more) && index !in indices
    requires Known(tokenize, batches[b], field, more) && (forall k :: 0 <= k < |index.terms| ==> index.terms[k] >= 0)
    requires Holds(index, PairsOf(tokenize, batches[b], field, more), Lengths(tokenize, batches[b], field))
    ensures Inverted(indices + [index], tokenize, batches[..b + 1], field, more)
  {
    hide Holds, Known, Grows, PairsOf;
    var all := batches[..b + 1];
    forall i | 0 <= i < b ensures Known(tokenize, all[i], field, more) && PairsOf(tokenize, all[i], field, more) == PairsOf(tokenize, all[i], field, ids) {
      assert batches[..b][i] == all[i];
      PairsStay(tokenize, all[i], field, ids, more);
    }
    forall i | 0 <= i < b + 1 ensures Known(tokenize, all[i], field, more) {}
    forall i | 0 <= i < b + 1
      ensures Holds((indices + [index])[i], PairsOf(tokenize, all[i], field, more), Lengths(tokenize, all[i], field)) {
      if i < b { assert batches[..b][i] == all[i]; }
    }
  }

  /** One batch after the other; in between the dictionary may grow. */
  method InvertAll(termIDMap: IDMap, tokenize: Tokenizer, batches: seq<seq<OSMNode>>,
                   field: string) returns (indices: seq<InvertedIndex>)
    requires termIDMap.Valid()
    modifies termIDMap
    ensures termIDMap.Valid() && Grows(old(termIDMap.StrToID), termIDMap.StrToID)
    ensures fresh(indices) && Inverted(indices, tokenize, batches, field, termIDMap.StrToID)
  {
    hide IDMap.Valid, Holds, Known, Grows, Inverted, InvertedIndex.Tiled;
    indices := [];
    NoBatches(tokenize, field, termIDMap.StrToID);
    NoWords(termIDMap.StrToID, 0);
    for b := 0 to |batches|
      invariant termIDMap.Valid() && Grows(old(termIDMap.StrToID), termIDMap.StrToID)
      invariant fresh(indices) && Inverted(indices, tokenize, batches[..b], field, termIDMap.StrToID)
    {
      ghost var ids := termIDMap.StrToID;
      var index := SpimiInvert(termIDMap, tokenize, batches[b], field);
      GrowsOn(old(termIDMap.StrToID), ids, termIDMap.StrToID);
      OneMoreBatch(indices, index, tokenize, batches, b, field, ids, termIDMap.StrToID);
      indices := indices + [index];
    }
    assert batches[..|batches|] == batches;
  }

  lemma InvertedMergeable(indices: seq<InvertedIndex>, tokenize: Tokenizer, batches: seq<seq<OSMNode>>, field: string,
                          ids: map<string, int>)
    requires Inverted(indices, tokenize, batches, field, ids)
    ensures Mergeable(indices)
  {
    hide Known, PairsOf, Postings, Lengths, Posts, StreamOf, Ascending, Increasing;
    forall i | 0 <= i < |indices| ensures indices[i].Valid() && indices[i].currTermPosition == 0 && Increasing(StreamOf(indices[i])) {
      assert Holds(indices[i], PairsOf(tokenize, batches[i], field, ids), Lengths(tokenize, batches[i], field));
      FromIsPosts(indices[i], 0);
    }
  }

  lemma StreamPosts(indices: seq<InvertedIndex>, tokenize: Tokenizer, batches: seq<seq<OSMNode>>, field: string,
                    ids: map<string, int>, i: nat, t: int)
    requires Inverted(indices, tokenize, batches, field, ids) && i < |indices| && indices[i].Valid()
    ensures var s := StreamOf(indices[i]);
      && From(s, |s|, t) == multiset(Postings(PairsOf(tokenize, batches[i], field, ids), t))
      && forall k :: 0 <= k < |s| && s[k].term == t ==> From(s, |s|, t) != multiset{}
  {
    hide Known, PairsOf, Postings, Lengths, Ascending, From, Increasing;
    assert Holds(indices[i], PairsOf(tokenize, batches[i], field, ids), Lengths(tokenize, batches[i], field));
    FromIsPosts(indices[i], t);
    TermsHaveLists(indices[i]);
    forall k | 0 <= k < |indices[i].terms| && indices[i].terms[k] == t ensures Posts(indices[i].Contents, t) != multiset{} {
      assert indices[i].Contents[t][0] in multiset(indices[i].Contents[t]);
    }
  }

  lemma {:induction false} GatheredIncludes(streams: seq<Stream>, i: nat, t: int)
    requires i < |streams|
    ensures From(streams[i], |streams[i]|, t) <= Gathered(streams, Full(streams), t)
  {
    hide From;
    var n := |streams| - 1;
    assert Full(streams)[..n] == Full(streams[..n]);
    if i < n { GatheredIncludes(streams[..n], i, t); }
  }

  /** The index holds exactly the postings of the documents, each list sorted, none empty. */
  ghost predicate Indexes(index: InvertedIndex, tokenize: Tokenizer, docs: seq<OSMNode>, field: string,
                          ids: map<string, int>)
    reads index
  {
    && Known(tokenize, docs, field, ids) && index.Valid() && Ascending(index.terms)
    && (forall t :: t in index.Contents ==> Sorted(index.Contents[t]) && index.Contents[t] != [])
    && (forall t :: Posts(index.Contents, t) == multiset(Postings(PairsOf(tokenize, docs, field, ids), t)))
  }

  ghost predicate StreamsPost(streams: seq<Stream>, tokenize: Tokenizer, batches: seq<seq<OSMNode>>, field: string,
                              ids: map<string, int>) {
    && |streams| == |batches| && AllKnown(tokenize, batches, field, ids)
    && (forall i, t :: 0 <= i < |streams| ==> From(streams[i], |streams[i]|, t) == multiset(Postings(PairsOf(tokenize, batches[i], field, ids), t)))
    && (forall i, k :: 0 <= i < |streams| && 0 <= k < |streams[i]| ==> From(streams[i], |streams[i]|, streams[i][k].term) != multiset{})
  }

  lemma {:induction false} InvertedStreams(indices: seq<InvertedIndex>, tokenize: Tokenizer, batches: seq<seq<OSMNode>>, field: string,
                        ids: map<string, int>)
    requires Inverted(indices, tokenize, batches, field, ids) && Mergeable(indices)
    ensures StreamsPost(StreamsOf(indices), tokenize, batches, field, ids)
  {
    hide Known, PairsOf, Postings, Holds, From, StreamOf, Increasing;
    var streams := StreamsOf(indices);
    forall i, t | 0 <= i < |streams|
      ensures From(streams[i], |streams[i]|, t) == multiset(Postings(PairsOf(tokenize, batches[i], field, ids), t)) {
      StreamPosts(indices, tokenize, batches, field, ids, i, t);
    }
    forall i, k | 0 <= i < |streams| && 0 <= k < |streams[i]| ensures From(streams[i], |streams[i]|, streams[i][k].term) != multiset{} {
      StreamPosts(indices, tokenize, batches, field, ids, i, streams[i][k].term);
    }
  }

  lemma MergeIndexes(index: InvertedIndex, streams: seq<Stream>, tokenize: Tokenizer, batches: seq<seq<OSMNode>>,
                     field: string, ids: map<string, int>)
    requires index.Valid() && IsMerge(index.terms, index.Contents, streams) && StreamsPost(streams, tokenize, batches, field, ids)
    ensures Indexes(index, tokenize, AllNodes(batches), field, ids)
  {
    hide Known, PairsOf, Postings, From, Gathered, Sorted, InvertedIndex.Valid;
    AllNodesKnown(tokenize, batches, field, ids);
    forall t ensures Posts(index.Contents, t) == multiset(Postings(PairsOf(tokenize, AllNodes(batches), field, ids), t)) {
      GatheredIsAll(streams, tokenize, batches, field, ids, t);
      if t !in index.Contents { GatheredAbsent(streams, Full(streams), t); }
    }
    forall t | t in index.Contents ensures index.Contents[t] != [] {
      assert Occurs(streams, Full(streams), t);
      var i, j :| 0 <= i < |streams| && 0 <= j < Full(streams)[i] && streams[i][j].term == t;
      GatheredIncludes(streams, i, t);
      assert multiset(index.Contents[t]) != multiset{};
    }
  }

  ghost function BatchLengths(tokenize: Tokenizer, batches: seq<seq<OSMNode>>,
                              field: string): (lens: seq<map<int, int>>)
    ensures |lens| == |batches|
  {
    if batches == [] then [] else BatchLengths(tokenize, batches[..|batches| - 1], field) + [Lengths(tokenize, batches[|batches| - 1], field)]
  }

  /** The merging of one field in SpimiBatchIndex: the posting lists and then the field lengths. */
  method MergeInto(indices: seq<InvertedIndex>, mergedIndex: InvertedIndex) returns (ghost streams: seq<Stream>)
    requires Mergeable(indices) && mergedIndex !in indices
    requires forall i, j :: 0 <= i < |indices| && 0 <= j < |indices[i].terms| ==> indices[i].terms[j] >= 0
    requires mergedIndex.Valid() && mergedIndex.terms == []
    modifies mergedIndex, indices`currTermPosition
    ensures streams == old(StreamsOf(indices))
    ensures mergedIndex.Valid() && IsMerge(mergedIndex.terms, mergedIndex.Contents, streams)
    ensures old(mergedIndex.Tiled()) ==> mergedIndex.Tiled()
    ensures forall d :: d in mergedIndex.lenFieldInDoc <==> Measured(old(LensOf(indices)), d)
    ensures forall d :: LengthIn(mergedIndex.lenFieldInDoc, d) == TotalLength(old(LensOf(indices)), d)
  {
    hide Mergeable, IsMerge, InvertedIndex.Valid, InvertedIndex.Tiled, StreamsOf, Measured, TotalLength, LengthIn, Traced, InOrder, SameIndex;
    ghost var trace;
    streams, trace := Merge(indices, mergedIndex);
    SameLens(indices);
    var lenDF := MergeFieldLengths(indices);
    mergedIndex.SetLenFieldInDoc(lenDF);
  }

  twostate lemma SameLens(indices: seq<InvertedIndex>)
    requires forall i {:trigger indices[i]} :: 0 <= i < |indices| ==> indices[i].lenFieldInDoc == old(indices[i].lenFieldInDoc)
    ensures LensOf(indices) == old(LensOf(indices))
  {}

  /** The batch indexes merged into a new one. */
  method MergeBatches(indices: seq<InvertedIndex>, ghost tokenize: Tokenizer, ghost batches: seq<seq<OSMNode>>,
                      ghost field: string, ghost ids: map<string, int>) returns (mergedIndex: InvertedIndex)
    requires Inverted(indices, tokenize, batches, field, ids)
    modifies indices`currTermPosition
    ensures fresh(mergedIndex) && Indexes(mergedIndex, tokenize, AllNodes(batches), field, ids) && mergedIndex.Tiled()
    ensures forall d :: d in mergedIndex.lenFieldInDoc <==> Measured(BatchLengths(tokenize, batches, field), d)
    ensures forall d :: LengthIn(mergedIndex.lenFieldInDoc, d) == TotalLength(BatchLengths(tokenize, batches, field), d)
  {
    hide Inverted, Mergeable, StreamsPost, IsMerge, InvertedIndex.Valid, InvertedIndex.Tiled, StreamsOf, Indexes, Measured,
      TotalLength, LengthIn;
    InvertedMergeable(indices, tokenize, batches, field, ids);
    InvertedStreams(indices, tokenize, batches, field, ids);
    InvertedLengths(indices, tokenize, batches, field, ids);
    var file: seq<Byte> := *;
    mergedIndex := new InvertedIndex(file);
    ghost var streams := MergeInto(indices, mergedIndex);
    MergeIndexes(mergedIndex, streams, tokenize, batches, field, ids);
  }

  // ---- the batch indexes closed and read back

  lemma HoldsAgain(idx: InvertedIndex, reader: InvertedIndex, pairs: seq<Pair>, lens: map<int, int>)
    requires Holds(idx, pairs, lens) && reader.Valid() && reader.Meta() == idx.Meta() && reader.Contents == idx.Contents
    requires reader.currTermPosition == 0
    ensures Holds(reader, pairs, lens)
  {}

  /** What one index needs of the batch that it was made from. */
  ghost predicate BatchOk(index: InvertedIndex, tokenize: Tokenizer, batch: seq<OSMNode>, field: string, ids: map<string, int>)
    reads index
  {
    && Known(tokenize, batch, field, ids) && (forall k :: 0 <= k < |index.terms| ==> index.terms[k] >= 0)
    && Holds(index, PairsOf(tokenize, batch, field, ids), Lengths(tokenize, batch, field))
  }

  lemma InvertedAt(indices: seq<InvertedIndex>, tokenize: Tokenizer, batches: seq<seq<OSMNode>>, field: string,
                   ids: map<string, int>, i: nat)
    requires Inverted(indices, tokenize, batches, field, ids) && i < |indices|
    ensures |indices| == |batches| && BatchOk(indices[i], tokenize, batches[i], field, ids) && indices[i].Valid()
    ensures forall j :: 0 <= j < |indices| && j != i ==> indices[j] != indices[i]
  {
    hide Known, PairsOf, Lengths;
    assert Holds(indices[i], PairsOf(tokenize, batches[i], field, ids), Lengths(tokenize, batches[i], field));
  }

  /** One batch index written out and opened again, as SpimiBatchIndex opens them for the merge. */
  method ReopenBatch(index: InvertedIndex, average: seq<Byte>, ghost tokenize: Tokenizer, ghost batch: seq<OSMNode>,
                     ghost field: string, ghost ids: map<string, int>) returns (reader: InvertedIndex)
    requires index.Valid() && BatchOk(index, tokenize, batch, field, ids) && MetadataFits(index.Meta()) && |average| == 8
    modifies index`averageFieldLength
    ensures fresh(reader) && reader.Valid() && BatchOk(reader, tokenize, batch, field, ids)
  {
    hide Known, PairsOf, Lengths, InvertedIndex.Valid, MetadataFits, Posts, Ascending;
    reader := Reopen(index, average);
    HoldsAgain(index, reader, PairsOf(tokenize, batch, field, ids), Lengths(tokenize, batch, field));
  }

  /** The merge of a field from the files: every batch index goes through its serialised metadata, and
    * the merged index still holds exactly the postings of all documents. */
  method MergeReopened(indices: seq<InvertedIndex>, averages: seq<seq<Byte>>, ghost tokenize: Tokenizer,
                       ghost batches: seq<seq<OSMNode>>, ghost field: string, ghost ids: map<string, int>)
    returns (mergedIndex: InvertedIndex)
    requires Inverted(indices, tokenize, batches, field, ids)
    requires |averages| == |indices| && forall i :: 0 <= i < |averages| ==> |averages[i]| == 8
    requires forall i :: 0 <= i < |indices| ==> MetadataFits(indices[i].Meta())
    modifies indices`averageFieldLength
    ensures Indexes(mergedIndex, tokenize, AllNodes(batches), field, ids) && mergedIndex.Tiled()
    ensures forall d :: LengthIn(mergedIndex.lenFieldInDoc, d) == TotalLength(BatchLengths(tokenize, batches, field), d)
  {
    hide Known, Holds, Inverted, MetadataFits, Indexes, Measured, TotalLength, LengthIn, InvertedIndex.Valid, InvertedIndex.Tiled,
      BatchOk, Grows;
    var readers := [];
    NoBatches(tokenize, field, ids);
    forall i | 0 <= i < |indices|
      ensures |indices| == |batches| && BatchOk(indices[i], tokenize, batches[i], field, ids) && indices[i].Valid()
      ensures forall j :: 0 <= j < |indices| && j != i ==> indices[j] != indices[i]
    {
      InvertedAt(indices, tokenize, batches, field, ids, i);
    }
    SameNumber(indices, tokenize, batches, field, ids);
    for b := 0 to |indices|
      invariant fresh(readers) && Inverted(readers, tokenize, batches[..b], field, ids)
      invariant forall i :: b <= i < |indices| ==>
        BatchOk(indices[i], tokenize, batches[i], field, ids) && indices[i].Valid() && MetadataFits(indices[i].Meta())
    {
      var reader := ReopenBatch(indices[b], averages[b], tokenize, batches[b], field, ids);
      OneMoreReader(readers, reader, tokenize, batches, b, field, ids);
      readers := readers + [reader];
    }
    assert batches[..|batches|] == batches;
    mergedIndex := MergeBatches(readers, tokenize, batches, field, ids);
  }

  lemma SameNumber(indices: seq<InvertedIndex>, tokenize: Tokenizer, batches: seq<seq<OSMNode>>, field: string,
                   ids: map<string, int>)
    requires Inverted(indices, tokenize, batches, field, ids)
    ensures |indices| == |batches|
  {}

  lemma OneMoreReader(readers: seq<InvertedIndex>, reader: InvertedIndex, tokenize: Tokenizer, batches: seq<seq<OSMNode>>,
                      b: nat, field: string, ids: map<string, int>)
    requires b < |batches| && Inverted(readers, tokenize, batches[..b], field, ids) && reader !in readers
    requires BatchOk(reader, tokenize, batches[b], field, ids)
    ensures Inverted(readers + [reader], tokenize, batches[..b + 1], field, ids)
  {
    hide Inverted, Known, Holds, PairsOf;
    assert Grows(ids, ids);
    OneMoreBatch(readers, reader, tokenize, batches, b, field, ids, ids);
  }

  lemma {:induction false} InvertedLengths(indices: seq<InvertedIndex>, tokenize: Tokenizer, batches: seq<seq<OSMNode>>, field: string,
                        ids: map<string, int>)
    requires Inverted(indices, tokenize, batches, field, ids)
    ensures LensOf(indices) == BatchLengths(tokenize, batches, field)
    ensures forall i, j :: 0 <= i < |indices| && 0 <= j < |indices[i].terms| ==> indices[i].terms[j] >= 0
  {
    hide Known, PairsOf, Postings, Lengths, Ascending, Posts;
    forall i | 0 <= i < |indices| ensures indices[i].lenFieldInDoc == BatchLengths(tokenize, batches, field)[i] {
      assert Holds(indices[i], PairsOf(tokenize, batches[i], field, ids), Lengths(tokenize, batches[i], field));
      BatchLengthsAt(tokenize, batches, field, i);
    }
  }

  lemma {:induction false} BatchLengthsAt(tokenize: Tokenizer, batches: seq<seq<OSMNode>>, field: string, i: nat)
    requires i < |batches|
    ensures BatchLengths(tokenize, batches, field)[i] == Lengths(tokenize, batches[i], field)
  {
    if i < |batches| - 1 { BatchLengthsAt(tokenize, batches[..|batches| - 1], field, i); }
  }
}
