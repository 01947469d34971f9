/** What the merged index of a field means: posting multiplicities are word counts, whatever the batches;
  * pkg/index/indexer.go, lines 620-818, and pkg/util.go, lines 30-42.
  */
module FieldCounts {
  import opened Sorting
  import opened Collections
  import opened Compress
  import opened InvertedIndices
  import opened IndexMerges
  import opened IDMaps
  import opened TokenStreams
  import opened Indexers
  import opened FieldIndexes

  ghost predicate OneToOne(ids: map<string, int>) {
    forall a, b :: a in ids && b in ids && ids[a] == ids[b] ==> a == b
  }

  /** How often word w occurs in the field of the documents numbered d. */
  ghost function WordCount(tokenize: Tokenizer, docs: seq<OSMNode>, field: string, w: string, d: Int64): nat {
    if docs == [] then 0 else
      var last := docs[|docs| - 1];
      WordCount(tokenize, docs[..|docs| - 1], field, w, d) + (if last.ID == d then multiset(Words(tokenize, last, field))[w] else 0)
  }

  ghost predicate DistinctDocs(docs: seq<OSMNode>) {
    forall i, j :: 0 <= i < j < |docs| ==> docs[i].ID != docs[j].ID
  }

  // ---- multiplicity is count

  lemma {:induction false} CountInWords(words: seq<string>, d0: Int64, ids: map<string, int>, w: string, d: Int64)
    requires KnownWords(words, ids) && OneToOne(ids) && w in ids
    ensures multiset(PairsOfWords(words, d0, ids))[(ids[w], d)] == if d == d0 then multiset(words)[w] else 0
  {
    if words != [] {
      var n := |words| - 1;
      CountInWords(words[..n], d0, ids, w, d);
      assert words == words[..n] + [words[n]];
      assert PairsOfWords(words, d0, ids) == PairsOfWords(words[..n], d0, ids) + [(ids[words[n]], d0)];
    }
  }

  lemma {:induction false} CountInPairs(tokenize: Tokenizer, docs: seq<OSMNode>, field: string, ids: map<string, int>,
                                        w: string, d: Int64)
    requires Known(tokenize, docs, field, ids) && OneToOne(ids) && w in ids
    ensures multiset(PairsOf(tokenize, docs, field, ids))[(ids[w], d)] == WordCount(tokenize, docs, field, w, d)
  {
    hide Words, OneToOne, PairsOfWords;
    if docs != [] {
      var last := docs[|docs| - 1];
      CountInPairs(tokenize, docs[..|docs| - 1], field, ids, w, d);
      CountInWords(Words(tokenize, last, field), last.ID, ids, w, d);
    }
  }

  lemma {:induction false} UnknownWord(tokenize: Tokenizer, docs: seq<OSMNode>, field: string, ids: map<string, int>,
                                       w: string, d: Int64)
    requires Known(tokenize, docs, field, ids) && w !in ids
    ensures WordCount(tokenize, docs, field, w, d) == 0
  {
    if docs != [] {
      var last := docs[|docs| - 1];
      UnknownWord(tokenize, docs[..|docs| - 1], field, ids, w, d);
      assert KnownWords(Words(tokenize, last, field), ids);
      assert w !in Words(tokenize, last, field);
    }
  }

  /** The multiplicity of document d in the posting list of word w is the number of times w occurs in
    * the field of d. The right-hand side does not mention the batches. */
  lemma MultiplicityIsCount(index: InvertedIndex, tokenize: Tokenizer, docs: seq<OSMNode>, field: string,
                            termIDMap: IDMap, w: string, d: Int64)
    requires termIDMap.Valid() && Indexes(index, tokenize, docs, field, termIDMap.StrToID)
    ensures (if w in termIDMap.StrToID then Posts(index.Contents, termIDMap.StrToID[w])[d] else 0) == WordCount(tokenize, docs, field, w, d)
  {
    hide Known, PairsOf, Postings, Posts;
    var ids := termIDMap.StrToID;
    if w in ids {
      var t := ids[w];
      assert Posts(index.Contents, t) == multiset(Postings(PairsOf(tokenize, docs, field, ids), t));
      PostingsCount(PairsOf(tokenize, docs, field, ids), t, d);
      CountInPairs(tokenize, docs, field, ids, w, d);
    } else {
      UnknownWord(tokenize, docs, field, ids, w, d);
    }
  }

  lemma {:induction false} CountOfOthers(tokenize: Tokenizer, docs: seq<OSMNode>, field: string, w: string, d: Int64)
    requires forall k :: 0 <= k < |docs| ==> docs[k].ID != d
    ensures WordCount(tokenize, docs, field, w, d) == 0
  {
    if docs != [] { CountOfOthers(tokenize, docs[..|docs| - 1], field, w, d); }
  }

  /** With distinct document numbers, the count is the count in that one document. */
  lemma {:induction false} CountOfOne(tokenize: Tokenizer, docs: seq<OSMNode>, field: string, w: string, k: nat)
    requires DistinctDocs(docs) && k < |docs|
    ensures WordCount(tokenize, docs, field, w, docs[k].ID) == multiset(Words(tokenize, docs[k], field))[w]
  {
    var n := |docs| - 1;
    if k == n {
      CountOfOthers(tokenize, docs[..n], field, w, docs[n].ID);
    } else {
      CountOfOne(tokenize, docs[..n], field, w, k);
    }
  }

  // ---- field lengths

  /** The number of pairs of document d in a token stream. */
  ghost function TokensOf(pairs: seq<Pair>, d: Int64): nat {
    if pairs == [] then 0 else TokensOf(pairs[..|pairs| - 1], d) + (if pairs[|pairs| - 1].1 == d then 1 else 0)
  }

  /** The occurrences of document d in the lists of the given terms. */
  ghost function OverTerms(contents: map<int, seq<Int64>>, terms: seq<int>, d: Int64): nat {
    if terms == [] then 0 else OverTerms(contents, terms[..|terms| - 1], d) + Posts(contents, terms[|terms| - 1])[d]
  }

  ghost function PairsUnder(pairs: seq<Pair>, terms: seq<int>, d: Int64): nat {
    if terms == [] then 0 else PairsUnder(pairs, terms[..|terms| - 1], d) + multiset(pairs)[(terms[|terms| - 1], d)]
  }

  lemma {:induction false} OverTermsIsPairs(contents: map<int, seq<Int64>>, pairs: seq<Pair>, terms: seq<int>, d: Int64)
    requires forall t :: Posts(contents, t) == multiset(Postings(pairs, t))
    ensures OverTerms(contents, terms, d) == PairsUnder(pairs, terms, d)
  {
    hide Posts, Postings;
    if terms != [] {
      var n := |terms| - 1;
      OverTermsIsPairs(contents, pairs, terms[..n], d);
      PostingsCount(pairs, terms[n], d);
    }
  }

  lemma {:induction false} OneMorePair(pairs: seq<Pair>, p: Pair, terms: seq<int>, d: Int64)
    requires Ascending(terms)
    ensures PairsUnder(pairs + [p], terms, d) == PairsUnder(pairs, terms, d) + (if p.1 == d && p.0 in terms then 1 else 0)
  {
    if terms != [] {
      var n := |terms| - 1;
      OneMorePair(pairs, p, terms[..n], d);
      assert terms == terms[..n] + [terms[n]];
      assert p.0 == terms[n] ==> p.0 !in terms[..n];
      assert multiset(pairs + [p]) == multiset(pairs) + multiset{p};
    }
  }

  lemma {:induction false} NoPairUnder(terms: seq<int>, d: Int64)
    ensures PairsUnder([], terms, d) == 0
  {
    if terms != [] { NoPairUnder(terms[..|terms| - 1], d); }
  }

  lemma {:induction false} PairsUnderAll(pairs: seq<Pair>, terms: seq<int>, d: Int64)
    requires Ascending(terms) && forall k :: 0 <= k < |pairs| ==> pairs[k].0 in terms
    ensures PairsUnder(pairs, terms, d) == TokensOf(pairs, d)
  {
    if pairs == [] {
      NoPairUnder(terms, d);
    } else {
      var n := |pairs| - 1;
      PairsUnderAll(pairs[..n], terms, d);
      assert pairs == pairs[..n] + [pairs[n]];
      OneMorePair(pairs[..n], pairs[n], terms, d);
    }
  }

  lemma {:induction false} TokensConcat(a: seq<Pair>, b: seq<Pair>, d: Int64)
    ensures TokensOf(a + b, d) == TokensOf(a, d) + TokensOf(b, d)
  {
    if b == [] {
      assert a + b == a;
    } else {
      TokensConcat(a, b[..|b| - 1], d);
      assert (a + b)[..|a + b| - 1] == a + b[..|b| - 1];
    }
  }

  lemma {:induction false} TokensOfWords(words: seq<string>, d0: Int64, ids: map<string, int>, d: Int64)
    requires KnownWords(words, ids)
    ensures TokensOf(PairsOfWords(words, d0, ids), d) == if d == d0 then |words| else 0
  {
    if words != [] {
      var n := |words| - 1;
      TokensOfWords(words[..n], d0, ids, d);
      assert PairsOfWords(words, d0, ids)[..n] == PairsOfWords(words[..n], d0, ids);
    }
  }

  /** The number of words in the field of the documents numbered d. */
  ghost function FieldLength(tokenize: Tokenizer, docs: seq<OSMNode>, field: string, d: Int64): nat {
    if docs == [] then 0 else
      var last := docs[|docs| - 1];
      FieldLength(tokenize, docs[..|docs| - 1], field, d) + (if last.ID == d then |Words(tokenize, last, field)| else 0)
  }

  lemma {:induction false} TokensOfDocs(tokenize: Tokenizer, docs: seq<OSMNode>, field: string, ids: map<string, int>,
                                        d: Int64)
    requires Known(tokenize, docs, field, ids)
    ensures TokensOf(PairsOf(tokenize, docs, field, ids), d) == FieldLength(tokenize, docs, field, d)
  {
    hide Words, PairsOfWords;
    if docs != [] {
      var last := docs[|docs| - 1];
      TokensOfDocs(tokenize, docs[..|docs| - 1], field, ids, d);
      TokensConcat(PairsOf(tokenize, docs[..|docs| - 1], field, ids), PairsOfWords(Words(tokenize, last, field), last.ID, ids), d);
      TokensOfWords(Words(tokenize, last, field), last.ID, ids, d);
    }
  }

  lemma {:induction false} PairsAreListed(index: InvertedIndex, pairs: seq<Pair>)
    requires index.Valid() && forall t :: Posts(index.Contents, t) == multiset(Postings(pairs, t))
    ensures forall k :: 0 <= k < |pairs| ==> pairs[k].0 in index.terms
  {
    hide Postings;
    forall k | 0 <= k < |pairs| ensures pairs[k].0 in index.terms {
      var t, d := pairs[k].0, pairs[k].1;
      PostingsCount(pairs, t, d);
      assert pairs[k] in multiset(pairs);
      assert d in Posts(index.Contents, t);
      assert t in index.Contents.Keys;
      assert t in (set x | x in index.terms);
    }
  }

  /** The occurrences of d over all posting lists add up to the number of words in its field. */
  lemma PostingsAddUp(index: InvertedIndex, tokenize: Tokenizer, docs: seq<OSMNode>, field: string,
                      ids: map<string, int>, d: Int64)
    requires Indexes(index, tokenize, docs, field, ids)
    ensures OverTerms(index.Contents, index.terms, d) == FieldLength(tokenize, docs, field, d)
  {
    hide Known, PairsOf, Postings, Posts, InvertedIndex.Valid;
    var pairs := PairsOf(tokenize, docs, field, ids);
    OverTermsIsPairs(index.Contents, pairs, index.terms, d);
    PairsAreListed(index, pairs);
    PairsUnderAll(pairs, index.terms, d);
    TokensOfDocs(tokenize, docs, field, ids, d);
  }

  // ---- the recorded field lengths agree, when document numbers are distinct

  lemma {:induction false} LengthsOfOthers(tokenize: Tokenizer, docs: seq<OSMNode>, field: string, d: Int64)
    requires forall k :: 0 <= k < |docs| ==> docs[k].ID != d
    ensures d !in Lengths(tokenize, docs, field) && FieldLength(tokenize, docs, field, d) == 0
  {
    if docs != [] { LengthsOfOthers(tokenize, docs[..|docs| - 1], field, d); }
  }

  lemma {:induction false} LengthsOfBatch(tokenize: Tokenizer, docs: seq<OSMNode>, field: string, d: Int64)
    requires DistinctDocs(docs)
    ensures LengthIn(Lengths(tokenize, docs, field), d) == FieldLength(tokenize, docs, field, d)
  {
    if docs != [] {
      var n := |docs| - 1;
      LengthsOfBatch(tokenize, docs[..n], field, d);
      if docs[n].ID == d { LengthsOfOthers(tokenize, docs[..n], field, d); }
    }
  }

  lemma {:induction false} FieldLengthConcat(tokenize: Tokenizer, a: seq<OSMNode>, b: seq<OSMNode>, field: string,
                                             d: Int64)
    ensures FieldLength(tokenize, a + b, field, d) == FieldLength(tokenize, a, field, d) + FieldLength(tokenize, b, field, d)
  {
    if b == [] {
      assert a + b == a;
    } else {
      FieldLengthConcat(tokenize, a, b[..|b| - 1], field, d);
      assert (a + b)[..|a + b| - 1] == a + b[..|b| - 1];
    }
  }

  lemma {:induction false} LengthsOfBatches(tokenize: Tokenizer, batches: seq<seq<OSMNode>>, field: string, d: Int64)
    requires DistinctDocs(AllNodes(batches))
    ensures TotalLength(BatchLengths(tokenize, batches, field), d) == FieldLength(tokenize, AllNodes(batches), field, d)
  {
    hide Lengths, LengthIn;
    if batches != [] {
      var n := |batches| - 1;
      var before := AllNodes(batches[..n]);
      assert AllNodes(batches) == before + batches[n];
      assert DistinctDocs(before) by {
        forall i, j | 0 <= i < j < |before| ensures before[i].ID != before[j].ID {
          assert AllNodes(batches)[i] == before[i] && AllNodes(batches)[j] == before[j];
        }
      }
      assert DistinctDocs(batches[n]) by {
        forall i, j | 0 <= i < j < |batches[n]| ensures batches[n][i].ID != batches[n][j].ID {
          assert AllNodes(batches)[|before| + i] == batches[n][i] && AllNodes(batches)[|before| + j] == batches[n][j];
        }
      }
      LengthsOfBatches(tokenize, batches[..n], field, d);
      LengthsOfBatch(tokenize, batches[n], field, d);
      FieldLengthConcat(tokenize, before, batches[n], field, d);
      assert BatchLengths(tokenize, batches, field)[..n] == BatchLengths(tokenize, batches[..n], field);
    }
  }

  /** For an index made by IndexField from documents with distinct numbers: the recorded length of d is
    * the total of its occurrences over all posting lists, and is the number of words in its field. */
  lemma {:induction false} LengthIsTotal(index: InvertedIndex, tokenize: Tokenizer, batches: seq<seq<OSMNode>>, field: string,
                      ids: map<string, int>, d: Int64)
    requires Indexes(index, tokenize, AllNodes(batches), field, ids) && DistinctDocs(AllNodes(batches))
    requires LengthIn(index.lenFieldInDoc, d) == TotalLength(BatchLengths(tokenize, batches, field), d)
    ensures LengthIn(index.lenFieldInDoc, d) == OverTerms(index.Contents, index.terms, d) == FieldLength(tokenize, AllNodes(batches), field, d)
  {
    PostingsAddUp(index, tokenize, AllNodes(batches), field, ids, d);
    LengthsOfBatches(tokenize, batches, field, d);
  }

  // ---- a field as a whole

  /** The words of the documents stand in the index as often as in their own texts. */
  ghost predicate CountsTexts(index: InvertedIndex, tokenize: Tokenizer, docs: seq<OSMNode>, field: string, ids: map<string, int>)
    reads index
  {
    forall k, w :: 0 <= k < |docs| ==>
      (if w in ids && ids[w] in index.Contents then multiset(index.Contents[ids[w]])[docs[k].ID] else 0) ==
      if field == "name" && docs[k].Name != "" then multiset(tokenize(docs[k].Name))[w]
      else if field == "address" && docs[k].Address != "" then multiset(tokenize(docs[k].Address))[w] else 0
  }

  lemma IndexCountsTexts(index: InvertedIndex, tokenize: Tokenizer, docs: seq<OSMNode>, field: string, termIDMap: IDMap)
    requires termIDMap.Valid() && Indexes(index, tokenize, docs, field, termIDMap.StrToID) && DistinctDocs(docs)
    ensures CountsTexts(index, tokenize, docs, field, termIDMap.StrToID)
  {
    hide Indexes, IDMap.Valid, DistinctDocs, WordCount, Words;
    forall k, w | 0 <= k < |docs|
      ensures (if w in termIDMap.StrToID then Posts(index.Contents, termIDMap.StrToID[w])[docs[k].ID] else 0)
              == multiset(Words(tokenize, docs[k], field))[w]
    {
      MultiplicityIsCount(index, tokenize, docs, field, termIDMap, w, docs[k].ID);
      CountOfOne(tokenize, docs, field, w, k);
    }
    forall k | 0 <= k < |docs| { FieldWords(tokenize, docs[k], field); }
  }

  /** A field of all documents is indexed in batches, and the batches are merged. With distinct document
    * numbers, each document stands under each word as often as the word occurs in its text. */
  method IndexField(termIDMap: IDMap, tokenize: Tokenizer, batches: seq<seq<OSMNode>>,
                    field: string) returns (mergedIndex: InvertedIndex)
    requires termIDMap.Valid()
    modifies termIDMap
    ensures termIDMap.Valid() && Grows(old(termIDMap.StrToID), termIDMap.StrToID)
    ensures Indexes(mergedIndex, tokenize, AllNodes(batches), field, termIDMap.StrToID) && mergedIndex.Tiled()
    ensures DistinctDocs(AllNodes(batches)) ==>
      CountsTexts(mergedIndex, tokenize, AllNodes(batches), field, termIDMap.StrToID)
    ensures forall d :: d in mergedIndex.lenFieldInDoc <==> Measured(BatchLengths(tokenize, batches, field), d)
    ensures forall d :: LengthIn(mergedIndex.lenFieldInDoc, d) == TotalLength(BatchLengths(tokenize, batches, field), d)
  {
    hide IDMap.Valid, Grows, Inverted, InvertedIndex.Tiled, Indexes, Measured, TotalLength, LengthIn, CountsTexts, DistinctDocs;
    var indices := InvertAll(termIDMap, tokenize, batches, field);
    mergedIndex := MergeBatches(indices, tokenize, batches, field, termIDMap.StrToID);
    if DistinctDocs(AllNodes(batches)) {
      IndexCountsTexts(mergedIndex, tokenize, AllNodes(batches), field, termIDMap);
    }
  }

  // ---- looking a word up

  lemma IndexesStays(index: InvertedIndex, tokenize: Tokenizer, docs: seq<OSMNode>, field: string,
                     ids: map<string, int>, more: map<string, int>)
    requires Indexes(index, tokenize, docs, field, ids) && Grows(ids, more)
    ensures Indexes(index, tokenize, docs, field, more)
  {
    PairsStay(tokenize, docs, field, ids, more);
  }

  /** What a search does with each query word, pkg/searcher/searcher.go, lines 142 and 160: the list it
    * gets is sorted and holds every document as often as the word occurs in it, also for a new word. */
  method LookUp(index: InvertedIndex, termIDMap: IDMap, word: string, ghost tokenize: Tokenizer,
                ghost docs: seq<OSMNode>, ghost field: string)
    returns (list: seq<Int64>)
    requires termIDMap.Valid() && Indexes(index, tokenize, docs, field, termIDMap.StrToID)
    modifies termIDMap
    ensures termIDMap.Valid() && Indexes(index, tokenize, docs, field, termIDMap.StrToID)
    ensures Sorted(list) && forall d: Int64 :: multiset(list)[d] == WordCount(tokenize, docs, field, word, d)
    ensures forall d: Int64 :: (forall k :: 0 <= k < |docs| ==> docs[k].ID != d) ==> d !in list
    ensures DistinctDocs(docs) && field == "name" ==> forall k :: 0 <= k < |docs| ==>
      multiset(list)[docs[k].ID] == if docs[k].Name == "" then 0 else multiset(tokenize(docs[k].Name))[word]
    ensures DistinctDocs(docs) && field == "address" ==> forall k :: 0 <= k < |docs| ==>
      multiset(list)[docs[k].ID] == if docs[k].Address == "" then 0 else multiset(tokenize(docs[k].Address))[word]
  {
    hide Known, PairsOf, Postings, WordCount, DistinctDocs, Words;
    ghost var ids := termIDMap.StrToID;
    var termID := termIDMap.GetID(word);
    AddsOne(ids, termIDMap.StrToID, word);
    IndexesStays(index, tokenize, docs, field, ids, termIDMap.StrToID);
    var answer := index.GetPostingList(termID);
    list := answer.value;
    forall d: Int64 ensures multiset(list)[d] == WordCount(tokenize, docs, field, word, d) {
      MultiplicityIsCount(index, tokenize, docs, field, termIDMap, word, d);
    }
    forall d: Int64 | forall k :: 0 <= k < |docs| ==> docs[k].ID != d ensures d !in list {
      CountOfOthers(tokenize, docs, field, word, d);
      assert multiset(list)[d] == 0;
    }
    if DistinctDocs(docs) {
      forall k | 0 <= k < |docs| ensures multiset(list)[docs[k].ID] == multiset(Words(tokenize, docs[k], field))[word] {
        CountOfOne(tokenize, docs, field, word, k);
      }
      forall k | 0 <= k < |docs| { FieldWords(tokenize, docs[k], field); }
    }
  }
}
