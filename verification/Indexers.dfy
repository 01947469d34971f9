/** Single-pass in-memory inversion: SpimiInvert of pkg/index/indexer.go, lines 670-768. */
module Indexers {
  import opened Sorting
  import opened Collections
  import opened Compress
  import opened InvertedIndices
  import opened IDMaps
  import opened TokenStreams

  /** The documents that a token stream lists for term t, in the order of the stream. */
  ghost function Postings(pairs: seq<Pair>, t: int): seq<Int64> {
    if pairs == [] then [] else
      var last := pairs[|pairs| - 1];
      Postings(pairs[..|pairs| - 1], t) + (if last.0 == t then [last.1] else [])
  }

  lemma {:induction false} PostingsCount(pairs: seq<Pair>, t: int, d: Int64)
    ensures multiset(Postings(pairs, t))[d] == multiset(pairs)[(t, d)]
  {
    if pairs != [] {
      var n := |pairs| - 1;
      PostingsCount(pairs[..n], t, d);
      assert pairs == pairs[..n] + [pairs[n]];
      assert multiset(pairs)[(t, d)] == multiset(pairs[..n])[(t, d)] + if pairs[n] == (t, d) then 1 else 0;
      assert Postings(pairs, t) == Postings(pairs[..n], t) + if pairs[n].0 == t then [pairs[n].1] else [];
    }
  }

  ghost predicate IsInverse(termToPosting: map<int, seq<Int64>>, pairs: seq<Pair>) {
    forall t :: if t in termToPosting then termToPosting[t] == Postings(pairs, t) != [] else Postings(pairs, t) == []
  }

  /** The loop over the token stream, lines 681-735, for a stream that stays below the flush limit. */
  method Invert(tokenStreams: seq<Pair>) returns (termToPosting: map<int, seq<Int64>>)
    ensures IsInverse(termToPosting, tokenStreams)
  {
    termToPosting := map[];
    for k := 0 to |tokenStreams|
      invariant IsInverse(termToPosting, tokenStreams[..k])
    {
      var termID, nodeID := tokenStreams[k].0, tokenStreams[k].1;
      var postingList := if termID in termToPosting then termToPosting[termID] else [];
      postingList := postingList + [nodeID];
      assert tokenStreams[..k + 1][..k] == tokenStreams[..k];
      termToPosting := termToPosting[termID := postingList];
    }
    assert tokenStreams[..|tokenStreams|] == tokenStreams;
  }

  ghost predicate Ascending(terms: seq<int>) {
    forall j, k :: 0 <= j < k < |terms| ==> terms[j] < terms[k]
  }

  /** The keys of a map, sorted, lines 737-741. */
  method SortedKeys(keys: set<int>) returns (terms: seq<int>)
    ensures Ascending(terms) && forall t :: t in terms <==> t in keys
  {
    terms := [];
    var todo := keys;
    while todo != {}
      invariant todo <= keys && forall t :: t in terms <==> t in keys && t !in todo
      invariant NoDup(terms)
      decreases |todo|
    {
      var termID := AnyOf(todo);
      assert termID in keys;
      terms := terms + [termID];
      todo := todo - {termID};
    }
    var unsorted := terms;
    terms := SortInts(unsorted);
    SortedDistinct(unsorted, terms);
  }

  lemma SortedDistinct(unsorted: seq<int>, terms: seq<int>)
    requires multiset(unsorted) == multiset(terms) && Sorted(terms)
    requires NoDup(unsorted)
    ensures Ascending(terms) && forall t :: t in terms <==> t in unsorted
  {
    forall t ensures t in terms <==> t in unsorted {
      assert t in multiset(terms) <==> t in multiset(unsorted);
    }
    forall j, k | 0 <= j < k < |terms| ensures terms[j] < terms[k] {
      if terms[j] == terms[k] {
        assert terms == terms[..j] + [terms[j]] + terms[j + 1..k] + [terms[k]] + terms[k + 1..];
        assert multiset(terms)[terms[j]] >= 2;
        NoDupIsMultisetSet(unsorted);
      }
    }
  }

  /** The postings an index lists under a term. */
  ghost function Posts(contents: map<int, seq<Int64>>, t: int): multiset<int> {
    if t in contents then multiset(contents[t]) else multiset{}
  }

  /** What SpimiInvert writes for a token stream. */
  ghost predicate Holds(index: InvertedIndex, pairs: seq<Pair>, lens: map<int, int>)
    reads index
  {
    && index.Valid() && Ascending(index.terms) && index.currTermPosition == 0 && index.lenFieldInDoc == lens
    && (forall t :: t in index.Contents ==> index.Contents[t] != [])
    && (forall t :: Posts(index.Contents, t) == multiset(Postings(pairs, t)))
  }

  /** The end of SpimiInvert, lines 748-763: a new index, each list sorted, in the order of the terms.
    * What an earlier run left in the file stays there. */
  method WriteIndex(terms: seq<int>, termToPosting: map<int, seq<Int64>>,
                    lenDF: map<int, int>) returns (index: InvertedIndex)
    requires Ascending(terms) && forall t :: t in terms <==> t in termToPosting
    ensures fresh(index) && index.Valid() && index.Tiled() && index.terms == terms
    ensures index.currTermPosition == 0 && index.lenFieldInDoc == lenDF
    ensures forall t :: t in index.Contents <==> t in termToPosting
    ensures forall t :: t in index.Contents ==> Sorted(index.Contents[t]) && multiset(index.Contents[t]) == multiset(termToPosting[t])
  {
    hide InvertedIndex.Valid, InvertedIndex.Tiled, Sorted;
    var file: seq<Byte> := *;
    index := new InvertedIndex(file);
    index.SetLenFieldInDoc(lenDF);
    for k := 0 to |terms|
      invariant fresh(index) && index.Valid() && index.Tiled() && index.terms == terms[..k]
      invariant index.currTermPosition == 0 && index.lenFieldInDoc == lenDF
      invariant forall t :: t in index.Contents <==> t in terms[..k]
      invariant forall t :: t in index.Contents ==> t in termToPosting
      invariant forall t :: t in index.Contents ==> Sorted(index.Contents[t]) && multiset(index.Contents[t]) == multiset(termToPosting[t])
    {
      assert terms[k] in terms;
      var sorted := SortInts(termToPosting[terms[k]]);
      SameElements(sorted, termToPosting[terms[k]]);
      assert terms[k] !in terms[..k];
      index.AppendPostingList(terms[k], sorted);
      assert terms[..k + 1] == terms[..k] + [terms[k]];
    }
    assert terms[..|terms|] == terms;
  }

  /** SpimiInvert, lines 672-768, without its mid-stream flush. */
  method SpimiInvert(termIDMap: IDMap, tokenize: Tokenizer, nodes: seq<OSMNode>,
                     field: string) returns (index: InvertedIndex)
    requires termIDMap.Valid()
    modifies termIDMap
    ensures termIDMap.Valid() && Grows(old(termIDMap.StrToID), termIDMap.StrToID)
    ensures Known(tokenize, nodes, field, termIDMap.StrToID)
    ensures fresh(index) && index.Tiled() && forall k :: 0 <= k < |index.terms| ==> index.terms[k] >= 0
    ensures Holds(index, PairsOf(tokenize, nodes, field, termIDMap.StrToID), Lengths(tokenize, nodes, field))
  {
    hide IDMap.Valid, InvertedIndex.Valid, InvertedIndex.Tiled, Known, Grows, Sorted, IsInverse, PairsOf, Posts;
    var tokenStreams, lenDF := SpimiParseOSMNodes(termIDMap, tokenize, nodes, field);
    var termToPosting := Invert(tokenStreams);
    var terms := SortedKeys(termToPosting.Keys);
    TermsNonNegative(termIDMap, tokenize, nodes, field, terms, termToPosting);
    index := WriteIndex(terms, termToPosting, lenDF);
    InverseHeld(index.Contents, termToPosting, tokenStreams);
  }

  lemma InverseHeld(contents: map<int, seq<Int64>>, termToPosting: map<int, seq<Int64>>, pairs: seq<Pair>)
    requires IsInverse(termToPosting, pairs)
    requires forall t :: t in contents <==> t in termToPosting
    requires forall t :: t in contents ==> multiset(contents[t]) == multiset(termToPosting[t])
    ensures forall t :: Posts(contents, t) == multiset(Postings(pairs, t))
    ensures forall t :: t in contents ==> contents[t] != []
  {
    forall t | t in contents ensures contents[t] != [] {
      assert |multiset(contents[t])| == |multiset(termToPosting[t])|;
    }
  }

  lemma {:induction false} PostedTerm(tokenize: Tokenizer, nodes: seq<OSMNode>, field: string, ids: map<string, int>,
                                      t: int)
    requires Known(tokenize, nodes, field, ids) && Postings(PairsOf(tokenize, nodes, field, ids), t) != []
    ensures exists s :: s in ids && ids[s] == t
  {
    var pairs := PairsOf(tokenize, nodes, field, ids);
    var d := Postings(pairs, t)[0];
    PostingsCount(pairs, t, d);
    assert d in multiset(Postings(pairs, t));
    assert (t, d) in pairs;
    PairTerm(tokenize, nodes, field, ids, t, d);
  }

  lemma {:induction false} PairTerm(tokenize: Tokenizer, nodes: seq<OSMNode>, field: string, ids: map<string, int>,
                                    t: int, d: Int64)
    requires Known(tokenize, nodes, field, ids) && (t, d) in PairsOf(tokenize, nodes, field, ids)
    ensures exists s :: s in ids && ids[s] == t
  {
    var last := nodes[|nodes| - 1];
    if (t, d) in PairsOf(tokenize, nodes[..|nodes| - 1], field, ids) {
      PairTerm(tokenize, nodes[..|nodes| - 1], field, ids, t, d);
    } else {
      var words := Words(tokenize, last, field);
      var k :| 0 <= k < |words| && PairsOfWords(words, last.ID, ids)[k] == (t, d);
      assert words[k] in ids;
    }
  }

  lemma TermsNonNegative(termIDMap: IDMap, tokenize: Tokenizer, nodes: seq<OSMNode>, field: string, terms: seq<int>,
                         termToPosting: map<int, seq<Int64>>)
    requires termIDMap.Valid() && Known(tokenize, nodes, field, termIDMap.StrToID)
    requires IsInverse(termToPosting, PairsOf(tokenize, nodes, field, termIDMap.StrToID))
    requires forall t :: t in terms ==> t in termToPosting
    ensures forall k :: 0 <= k < |terms| ==> terms[k] >= 0
  {
    forall k | 0 <= k < |terms| ensures terms[k] >= 0 {
      PostedTerm(tokenize, nodes, field, termIDMap.StrToID, terms[k]);
    }
  }
}
