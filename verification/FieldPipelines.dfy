/** From a run of the batch workers to the index of a field: pkg/index/indexer.go, lines 113-360 and 500-573. */
module FieldPipelines {
  import opened Collections
  import opened Compress
  import opened InvertedIndices
  import opened IndexMerges
  import opened IDMaps
  import opened TokenStreams
  import opened Indexers
  import opened FieldIndexes
  import opened FieldCounts
  import Batch = BatchProtocol

  ghost predicate Small(docs: seq<Batch.Doc>) {
    forall k :: 0 <= k < |docs| ==> docs[k].ID < 0x8000_0000_0000_0000
  }

  /** The node that a worker makes of an accepted object: its texts under the number it was given. */
  ghost function NodeOf(doc: Batch.Doc, objects: int -> OSMNode): (node: OSMNode)
    requires doc.ID < 0x8000_0000_0000_0000
    ensures node.ID == doc.ID
  {
    objects(doc.source).(ID := doc.ID)
  }

  ghost function NodesOf(docs: seq<Batch.Doc>, objects: int -> OSMNode): (nodes: seq<OSMNode>)
    requires Small(docs)
    ensures |nodes| == |docs| && forall k :: 0 <= k < |docs| ==> nodes[k] == NodeOf(docs[k], objects)
  {
    seq(|docs|, k requires 0 <= k < |docs| => NodeOf(docs[k], objects))
  }

  ghost predicate SmallBatches(batches: seq<Batch.Batch>) {
    forall b :: 0 <= b < |batches| ==> Small(batches[b].docs)
  }

  /** The documents of field f, index by index, as nodes. */
  ghost function FieldBatches(batches: seq<Batch.Batch>, f: Batch.Field, objects: int -> OSMNode): seq<seq<OSMNode>>
    requires SmallBatches(batches)
  {
    if batches == [] then [] else
      var last := batches[|batches| - 1];
      FieldBatches(batches[..|batches| - 1], f, objects) + (if last.field == f then [NodesOf(last.docs, objects)] else [])
  }

  lemma AllNodesSnoc(batches: seq<seq<OSMNode>>, batch: seq<OSMNode>)
    ensures AllNodes(batches + [batch]) == AllNodes(batches) + batch
  {
    assert (batches + [batch])[..|batches|] == batches;
  }

  lemma {:induction false} BatchesAreFlat(batches: seq<Batch.Batch>, f: Batch.Field, objects: int -> OSMNode)
    requires SmallBatches(batches)
    ensures Small(Batch.Flat(batches, f))
    ensures AllNodes(FieldBatches(batches, f, objects)) == NodesOf(Batch.Flat(batches, f), objects)
  {
    if batches != [] {
      var n := |batches| - 1;
      var last := batches[n];
      BatchesAreFlat(batches[..n], f, objects);
      var before := FieldBatches(batches[..n], f, objects);
      if last.field == f {
        AllNodesSnoc(before, NodesOf(last.docs, objects));
      } else {
        assert before + [] == before && Batch.Flat(batches[..n], f) + [] == Batch.Flat(batches[..n], f);
      }
    }
  }

  lemma {:induction false} InFlat(batches: seq<Batch.Batch>, b: nat, k: nat)
    requires b < |batches| && k < |batches[b].docs|
    ensures batches[b].docs[k] in Batch.Flat(batches, batches[b].field)
  {
    if b < |batches| - 1 { InFlat(batches[..|batches| - 1], b, k); }
  }

  /** In a run without error that accepts fewer than 2^63 objects, every number fits into an int. */
  lemma RunIsSmall(states: seq<Batch.State>, steps: seq<Batch.Step>)
    requires Batch.IsRun(states, steps) && Batch.Complete(states[|steps|])
    requires states[|steps|].nodeIDX <= 0x8000_0000_0000_0000
    ensures SmallBatches(states[|steps|].intermediateIndices)
  {
    hide Batch.Enabled, Batch.Apply, Batch.Initial, Batch.Complete, Batch.Flat;
    var s := states[|steps|];
    var batches := s.intermediateIndices;
    Batch.CompleteRun(states, steps);
    Batch.NumbersAreExact(states, steps, |steps|);
    forall b, k | 0 <= b < |batches| && 0 <= k < |batches[b].docs| ensures batches[b].docs[k].ID < 0x8000_0000_0000_0000 {
      InFlat(batches, b, k);
      assert batches[b].docs[k] in multiset(Batch.Flat(batches, batches[b].field));
      assert batches[b].docs[k] in s.osmData;
    }
  }

  /** A run without error that accepts no more objects than there are numbers for. */
  ghost predicate Done(states: seq<Batch.State>, steps: seq<Batch.Step>) {
    Batch.IsRun(states, steps) && Batch.Complete(states[|steps|]) && states[|steps|].nodeIDX <= 0x8000_0000_0000_0000
  }

  /** What the run has handed to the indexes of field f, index by index. */
  ghost function GivenTo(states: seq<Batch.State>, steps: seq<Batch.Step>, f: Batch.Field, objects: int -> OSMNode): seq<seq<OSMNode>>
    requires Done(states, steps)
  {
    RunIsSmall(states, steps);
    FieldBatches(states[|steps|].intermediateIndices, f, objects)
  }

  /** In a run without error, the nodes that the merge of a field is given have distinct numbers. */
  lemma RunNodesAreDistinct(states: seq<Batch.State>, steps: seq<Batch.Step>, f: Batch.Field, objects: int -> OSMNode)
    requires Done(states, steps)
    ensures DistinctDocs(AllNodes(GivenTo(states, steps, f, objects)))
  {
    hide Batch.Enabled, Batch.Apply, Batch.Initial, Batch.Complete, Batch.Flat, FieldBatches, AllNodes;
    RunIsSmall(states, steps);
    var batches := states[|steps|].intermediateIndices;
    BatchesAreFlat(batches, f, objects);
    var nodes := AllNodes(FieldBatches(batches, f, objects));
    forall i, j | 0 <= i < j < |nodes| ensures nodes[i].ID != nodes[j].ID {
      Batch.FieldDocsAreDistinct(states, steps, f, i, j);
    }
  }

  lemma AcceptedIsGiven(states: seq<Batch.State>, steps: seq<Batch.Step>, f: Batch.Field, objects: int -> OSMNode, x: Batch.Doc)
    returns (k: nat)
    requires Done(states, steps) && x in states[|steps|].osmData
    ensures var nodes := AllNodes(GivenTo(states, steps, f, objects));
      x.ID < 0x8000_0000_0000_0000 && k < |nodes| && nodes[k] == NodeOf(x, objects)
  {
    hide Batch.Enabled, Batch.Apply, Batch.Initial, Batch.Complete, Batch.Flat, FieldBatches, AllNodes;
    RunIsSmall(states, steps);
    var batches := states[|steps|].intermediateIndices;
    BatchesAreFlat(batches, f, objects);
    Batch.CompleteRun(states, steps);
    var flat := Batch.Flat(batches, f);
    assert x in multiset(states[|steps|].osmData);
    assert x in multiset(flat);
    k :| 0 <= k < |flat| && flat[k] == x;
  }

  /** End to end: whatever the schedule of the workers, in a run without error the merged index of a
    * field lists each accepted document under each word as often as the word occurs in that document's
    * field, and its recorded length is its number of words. The batch indexes are those that SpimiInvert
    * leaves, each written out and opened again for the merge. */
  method IndexRun(termIDMap: IDMap, tokenize: Tokenizer, indices: seq<InvertedIndex>, averages: seq<seq<Byte>>, f: Batch.Field,
                  ghost states: seq<Batch.State>, ghost steps: seq<Batch.Step>, ghost objects: int -> OSMNode)
    returns (mergedIndex: InvertedIndex)
    requires termIDMap.Valid() && Done(states, steps)
    requires Inverted(indices, tokenize, GivenTo(states, steps, f, objects), Batch.Text(f), termIDMap.StrToID)
    requires |averages| == |indices| && forall i :: 0 <= i < |averages| ==> |averages[i]| == 8
    requires forall i :: 0 <= i < |indices| ==> MetadataFits(indices[i].Meta())
    modifies indices`averageFieldLength
    ensures forall x: Batch.Doc, w: string :: x in states[|steps|].osmData && x.ID < 0x8000_0000_0000_0000 ==>
      Listings(mergedIndex, termIDMap, w, x.ID) ==
      if f == Batch.Name then (if objects(x.source).Name == "" then 0 else multiset(tokenize(objects(x.source).Name))[w])
      else if objects(x.source).Address == "" then 0 else multiset(tokenize(objects(x.source).Address))[w]
    ensures forall x: Batch.Doc :: x in states[|steps|].osmData && x.ID < 0x8000_0000_0000_0000 ==>
      LengthIn(mergedIndex.lenFieldInDoc, x.ID) ==
      if f == Batch.Name then (if objects(x.source).Name == "" then 0 else |tokenize(objects(x.source).Name)|)
      else if objects(x.source).Address == "" then 0 else |tokenize(objects(x.source).Address)|
  {
    hide IDMap.Valid, Indexes, Inverted, Measured, TotalLength, LengthIn, Batch.Enabled, Batch.Apply, Batch.Initial, Batch.Complete,
      GivenTo, AllNodes, Listings, Words, InvertedIndex.Tiled, MetadataFits;
    ghost var batches := GivenTo(states, steps, f, objects);
    mergedIndex := MergeReopened(indices, averages, tokenize, batches, Batch.Text(f), termIDMap.StrToID);
    RunNodesAreDistinct(states, steps, f, objects);
    forall x: Batch.Doc, w: string | x in states[|steps|].osmData && x.ID < 0x8000_0000_0000_0000
      ensures Listings(mergedIndex, termIDMap, w, x.ID) == multiset(Words(tokenize, NodeOf(x, objects), Batch.Text(f)))[w]
    {
      var k := AcceptedIsGiven(states, steps, f, objects, x);
      ListedAsCounted(mergedIndex, tokenize, AllNodes(batches), Batch.Text(f), termIDMap, w, k);
    }
    forall x: Batch.Doc | x in states[|steps|].osmData && x.ID < 0x8000_0000_0000_0000
      ensures LengthIn(mergedIndex.lenFieldInDoc, x.ID) == |Words(tokenize, NodeOf(x, objects), Batch.Text(f))|
    {
      var k := AcceptedIsGiven(states, steps, f, objects, x);
      LengthIsTotal(mergedIndex, tokenize, batches, Batch.Text(f), termIDMap.StrToID, x.ID);
      LengthOfOne(tokenize, AllNodes(batches), Batch.Text(f), k);
    }
    forall x: Batch.Doc | x.ID < 0x8000_0000_0000_0000 { WordsOfObject(tokenize, x, f, objects); }
  }

  /** A node made of an object has the object's words. */
  lemma WordsOfObject(tokenize: Tokenizer, x: Batch.Doc, f: Batch.Field, objects: int -> OSMNode)
    requires x.ID < 0x8000_0000_0000_0000
    ensures Words(tokenize, NodeOf(x, objects), Batch.Text(f)) ==
      if f == Batch.Name then (if objects(x.source).Name == "" then [] else tokenize(objects(x.source).Name))
      else if objects(x.source).Address == "" then [] else tokenize(objects(x.source).Address)
  {
    FieldWords(tokenize, NodeOf(x, objects), Batch.Text(f));
  }

  /** How often document d stands in the posting list of word w. */
  ghost function Listings(index: InvertedIndex, termIDMap: IDMap, w: string, d: Int64): nat
    reads index, termIDMap
  {
    if w in termIDMap.StrToID then Posts(index.Contents, termIDMap.StrToID[w])[d] else 0
  }

  lemma ListedAsCounted(index: InvertedIndex, tokenize: Tokenizer, docs: seq<OSMNode>, field: string, termIDMap: IDMap,
                        w: string, k: nat)
    requires termIDMap.Valid() && Indexes(index, tokenize, docs, field, termIDMap.StrToID) && DistinctDocs(docs) && k < |docs|
    ensures Listings(index, termIDMap, w, docs[k].ID) == multiset(Words(tokenize, docs[k], field))[w]
  {
    hide Indexes, IDMap.Valid, DistinctDocs, Words, Posts;
    MultiplicityIsCount(index, tokenize, docs, field, termIDMap, w, docs[k].ID);
    CountOfOne(tokenize, docs, field, w, k);
  }

  lemma {:induction false} LengthOfOthers(tokenize: Tokenizer, docs: seq<OSMNode>, field: string, d: Int64)
    requires forall k :: 0 <= k < |docs| ==> docs[k].ID != d
    ensures FieldLength(tokenize, docs, field, d) == 0
  {
    if docs != [] { LengthOfOthers(tokenize, docs[..|docs| - 1], field, d); }
  }

  lemma {:induction false} LengthOfOne(tokenize: Tokenizer, docs: seq<OSMNode>, field: string, k: nat)
    requires DistinctDocs(docs) && k < |docs|
    ensures FieldLength(tokenize, docs, field, docs[k].ID) == |Words(tokenize, docs[k], field)|
  {
    var n := |docs| - 1;
    if k == n {
      LengthOfOthers(tokenize, docs[..n], field, docs[n].ID);
    } else {
      LengthOfOne(tokenize, docs[..n], field, k);
    }
  }
}
