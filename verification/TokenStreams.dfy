/** Token streams: SpimiParseOSMNode and SpimiParseOSMNodes of pkg/index/indexer.go, lines 770-818.
  *
  * The tokenizer is any function from a text to a list of words. Between two of its own lookups a
  * worker may find that other workers have added words to the shared dictionary.
  */
module TokenStreams {
  import opened Compress
  import opened IDMaps

  datatype OSMNode = OSMNode(ID: Int64, Name: string, Address: string)

  type Tokenizer = string -> seq<string>

  /** The text of a field. */
  function Soup(node: OSMNode, field: string): string {
    if field == "name" then node.Name else if field == "address" then node.Address else ""
  }

  function Words(tokenize: Tokenizer, node: OSMNode, field: string): seq<string> {
    if Soup(node, field) == "" then [] else tokenize(Soup(node, field))
  }

  /** The two fields read the two texts; an empty text has no words, and no other field has any. */
  lemma FieldWords(tokenize: Tokenizer, node: OSMNode, field: string)
    ensures Words(tokenize, node, "name") == if node.Name == "" then [] else tokenize(node.Name)
    ensures Words(tokenize, node, "address") == if node.Address == "" then [] else tokenize(node.Address)
    ensures field != "name" && field != "address" ==> Words(tokenize, node, field) == []
  {}

  type Pair = (int, Int64)

  // ---- token streams

  ghost predicate KnownWords(words: seq<string>, ids: map<string, int>) {
    forall k :: 0 <= k < |words| ==> words[k] in ids
  }

  ghost function PairsOfWords(words: seq<string>, d: Int64, ids: map<string, int>): (pairs: seq<Pair>)
    requires KnownWords(words, ids)
    ensures |pairs| == |words| && forall k :: 0 <= k < |words| ==> pairs[k] == (ids[words[k]], d)
  {
    seq(|words|, k requires 0 <= k < |words| => (ids[words[k]], d))
  }

  ghost predicate Known(tokenize: Tokenizer, nodes: seq<OSMNode>, field: string, ids: map<string, int>) {
    forall n :: 0 <= n < |nodes| ==> KnownWords(Words(tokenize, nodes[n], field), ids)
  }

  /** The token stream of a list of documents, under given word identifiers. */
  ghost function PairsOf(tokenize: Tokenizer, nodes: seq<OSMNode>, field: string, ids: map<string, int>): seq<Pair>
    requires Known(tokenize, nodes, field, ids)
  {
    if nodes == [] then [] else
      var last := nodes[|nodes| - 1];
      PairsOf(tokenize, nodes[..|nodes| - 1], field, ids) + PairsOfWords(Words(tokenize, last, field), last.ID, ids)
  }

  /** The dictionary only grows. */
  ghost predicate Grows(ids: map<string, int>, more: map<string, int>) {
    forall s :: s in ids ==> s in more && more[s] == ids[s]
  }

  lemma {:induction false} PairsStay(tokenize: Tokenizer, nodes: seq<OSMNode>, field: string, ids: map<string, int>,
                                     more: map<string, int>)
    requires Known(tokenize, nodes, field, ids) && Grows(ids, more)
    ensures Known(tokenize, nodes, field, more) && PairsOf(tokenize, nodes, field, more) == PairsOf(tokenize, nodes, field, ids)
  {
    forall n | 0 <= n < |nodes| ensures KnownWords(Words(tokenize, nodes[n], field), more) {
      assert KnownWords(Words(tokenize, nodes[n], field), ids);
    }
    if nodes != [] {
      var last := nodes[|nodes| - 1];
      PairsStay(tokenize, nodes[..|nodes| - 1], field, ids, more);
      assert PairsOfWords(Words(tokenize, last, field), last.ID, more) == PairsOfWords(Words(tokenize, last, field), last.ID, ids);
    }
  }

  lemma {:induction false} PairsConcat(tokenize: Tokenizer, a: seq<OSMNode>, b: seq<OSMNode>, field: string,
                                       ids: map<string, int>)
    requires Known(tokenize, a, field, ids) && Known(tokenize, b, field, ids)
    ensures Known(tokenize, a + b, field, ids)
    ensures PairsOf(tokenize, a + b, field, ids) == PairsOf(tokenize, a, field, ids) + PairsOf(tokenize, b, field, ids)
  {
    hide Words, KnownWords, PairsOfWords, PairsOf, Known;
    if b == [] {
      assert a + b == a;
      NoPairsOf(tokenize, field, ids);
    } else {
      var n := |b| - 1;
      assert b == b[..n] + [b[n]] && a + b == (a + b[..n]) + [b[n]];
      PairsSnoc(tokenize, b[..n], b[n], field, ids);
      PairsConcat(tokenize, a, b[..n], field, ids);
      PairsSnoc(tokenize, a + b[..n], b[n], field, ids);
    }
  }

  lemma NoPairsOf(tokenize: Tokenizer, field: string, ids: map<string, int>)
    ensures Known(tokenize, [], field, ids) && PairsOf(tokenize, [], field, ids) == []
  {}

  lemma PairsSnoc(tokenize: Tokenizer, a: seq<OSMNode>, x: OSMNode, field: string, ids: map<string, int>)
    ensures Known(tokenize, a + [x], field, ids) <==> Known(tokenize, a, field, ids) && KnownWords(Words(tokenize, x, field), ids)
    ensures Known(tokenize, a + [x], field, ids) ==>
      PairsOf(tokenize, a + [x], field, ids) == PairsOf(tokenize, a, field, ids) + PairsOfWords(Words(tokenize, x, field), x.ID, ids)
  {
    hide Words, KnownWords, PairsOfWords;
    assert (a + [x])[..|a|] == a && (a + [x])[|a|] == x;
    assert forall n :: 0 <= n < |a| ==> (a + [x])[n] == a[n];
  }

  lemma GrowsOn(a: map<string, int>, b: map<string, int>, c: map<string, int>)
    requires Grows(a, b) && Grows(b, c)
    ensures Grows(a, c)
  {}

  lemma OneMoreWord(words: seq<string>, k: nat, ids: map<string, int>, more: map<string, int>, d: Int64)
    requires k < |words| && KnownWords(words[..k], ids) && Grows(ids, more) && words[k] in more
    ensures KnownWords(words[..k + 1], more)
    ensures PairsOfWords(words[..k + 1], d, more) == PairsOfWords(words[..k], d, ids) + [(more[words[k]], d)]
  {
    assert words[..k + 1] == words[..k] + [words[k]];
  }

  /** What other workers may do to the dictionary while this one does not hold the lock. */
  method OtherWorkers(termIDMap: IDMap)
    requires termIDMap.Valid()
    modifies termIDMap
    ensures termIDMap.Valid() && Grows(old(termIDMap.StrToID), termIDMap.StrToID)
  {
    var words: seq<string> := *;
    for k := 0 to |words|
      invariant termIDMap.Valid() && Grows(old(termIDMap.StrToID), termIDMap.StrToID)
    {
      var id := termIDMap.GetID(words[k]);
    }
  }

  lemma NoWords(ids: map<string, int>, d: Int64)
    ensures Grows(ids, ids) && KnownWords([], ids) && PairsOfWords([], d, ids) == []
  {}

  lemma AddsOne(ids: map<string, int>, more: map<string, int>, word: string)
    requires more == if word in ids then ids else ids[word := |ids|]
    ensures Grows(ids, more)
  {}

  /** SpimiParseOSMNode, lines 771-802. lenDF is set, not added to. */
  method SpimiParseOSMNode(termIDMap: IDMap, tokenize: Tokenizer, node: OSMNode, lenDF: map<int, int>, field: string)
    returns (termDocPairs: seq<Pair>, newLenDF: map<int, int>)
    requires termIDMap.Valid()
    modifies termIDMap
    ensures termIDMap.Valid() && Grows(old(termIDMap.StrToID), termIDMap.StrToID)
    ensures KnownWords(Words(tokenize, node, field), termIDMap.StrToID)
    ensures termDocPairs == PairsOfWords(Words(tokenize, node, field), node.ID, termIDMap.StrToID)
    ensures field == "name" && node.Name != "" ==>
      |termDocPairs| == |tokenize(node.Name)| &&
      forall k :: 0 <= k < |termDocPairs| ==> termDocPairs[k] == (termIDMap.StrToID[tokenize(node.Name)[k]], node.ID)
    ensures field == "address" && node.Address != "" ==>
      |termDocPairs| == |tokenize(node.Address)| &&
      forall k :: 0 <= k < |termDocPairs| ==> termDocPairs[k] == (termIDMap.StrToID[tokenize(node.Address)[k]], node.ID)
    ensures newLenDF == if Soup(node, field) == "" then lenDF else lenDF[node.ID := |Words(tokenize, node, field)|]
  {
    hide IDMap.Valid, KnownWords, PairsOfWords, Grows;
    termDocPairs := [];
    var soup := Soup(node, field);
    NoWords(termIDMap.StrToID, node.ID);
    if soup == "" {
      return [], lenDF;
    }
    var words := tokenize(soup);
    newLenDF := lenDF[node.ID := |words|];
    for k := 0 to |words|
      invariant termIDMap.Valid() && Grows(old(termIDMap.StrToID), termIDMap.StrToID)
      invariant KnownWords(words[..k], termIDMap.StrToID)
      invariant termDocPairs == PairsOfWords(words[..k], node.ID, termIDMap.StrToID)
    {
      ghost var ids := termIDMap.StrToID;
      OtherWorkers(termIDMap);
      ghost var between := termIDMap.StrToID;
      var termID := termIDMap.GetID(words[k]);
      AddsOne(between, termIDMap.StrToID, words[k]);
      GrowsOn(ids, between, termIDMap.StrToID);
      GrowsOn(old(termIDMap.StrToID), ids, termIDMap.StrToID);
      OneMoreWord(words, k, ids, termIDMap.StrToID, node.ID);
      termDocPairs := termDocPairs + [(termID, node.ID)];
    }
    assert words[..|words|] == words;
  }

  /** The field lengths of a list of documents; a document with an empty field has none. */
  ghost function Lengths(tokenize: Tokenizer, nodes: seq<OSMNode>, field: string): map<int, int> {
    if nodes == [] then map[] else
      var last := nodes[|nodes| - 1];
      var m := Lengths(tokenize, nodes[..|nodes| - 1], field);
      if Soup(last, field) == "" then m else m[last.ID := |Words(tokenize, last, field)|]
  }

  /** SpimiParseOSMNodes, lines 805-818. */
  method SpimiParseOSMNodes(termIDMap: IDMap, tokenize: Tokenizer, nodes: seq<OSMNode>, field: string)
    returns (termDocPairs: seq<Pair>, lenDF: map<int, int>)
    requires termIDMap.Valid()
    modifies termIDMap
    ensures termIDMap.Valid() && Grows(old(termIDMap.StrToID), termIDMap.StrToID)
    ensures Known(tokenize, nodes, field, termIDMap.StrToID)
    ensures termDocPairs == PairsOf(tokenize, nodes, field, termIDMap.StrToID)
    ensures lenDF == Lengths(tokenize, nodes, field)
  {
    hide Words, PairsOfWords, KnownWords, IDMap.Valid;
    termDocPairs, lenDF := [], map[];
    for n := 0 to |nodes|
      invariant termIDMap.Valid() && Grows(old(termIDMap.StrToID), termIDMap.StrToID)
      invariant Known(tokenize, nodes[..n], field, termIDMap.StrToID)
      invariant termDocPairs == PairsOf(tokenize, nodes[..n], field, termIDMap.StrToID)
      invariant lenDF == Lengths(tokenize, nodes[..n], field)
    {
      ghost var ids := termIDMap.StrToID;
      var pairs;
      pairs, lenDF := SpimiParseOSMNode(termIDMap, tokenize, nodes[n], lenDF, field);
      PairsStay(tokenize, nodes[..n], field, ids, termIDMap.StrToID);
      assert nodes[..n + 1][..n] == nodes[..n];
      termDocPairs := termDocPairs + pairs;
    }
    assert nodes[..|nodes|] == nodes;
  }
}
