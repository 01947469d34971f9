# Verification of the osm-search engine

This Dafny 4.11 project models four parts of the search engine and proves what they promise.

1. **The R-tree** (`Boxes`, `Split`, `Rtrees`, `RtreeSearch`, `RtreeDelete`, `RtreeRuns`,
   `NearestNeighbours`, with `HeapOrders` and `MinHeaps`). Nodes are heap objects with parent pointers, as in the
   source. Insertion with splits that climb to the root, deletion with condensing and re-insertion, window
   search and best-first nearest-neighbour search are methods over that structure. They are proved against the
   flat collection of the objects that hang below the root, over single calls and over whole runs.
2. **The indexing pipeline** (`Compress`, `VbCodes`, `RunLengths`, `InvertedIndices`, `PriorityQueues`, `HeapMerges`, `Sorting`,
   `IndexMerges`, `IDMaps`, `TokenStreams`, `Indexers`, `FieldIndexes`, `FieldCounts`, `BatchProtocol`, `FieldPipelines`).
   Documents are tokenised, inverted in batches, written as variable-byte codes, merged by a heap and looked up again. The
   end result is that a posting list counts word occurrences, whatever the batches were. `BatchProtocol` is the concurrent
   side: a state machine over the critical sections of the batch workers. `FieldPipelines` joins the two: every complete run
   of the workers ends in an index that counts the words of every accepted document.
3. **The boolean query compiler and evaluator** (`BooleanQuery`, `QueryEvaluation`).
4. **The n-gram tables and the back-off estimate** (`Ngrams`).

`Collections` holds the small types and facts that several modules share.

`dafny verify dfyconfig.toml` checks the project. Loops and objects of the source are methods and classes here;
each is tied to a specification function or to its old state, and the theorems are lemmas about those.

## Hypotheses, and where the code is narrower than its intent

- **Real arithmetic.** Coordinates, areas and distances are `real`; rounding, infinities and NaN are not
  modelled. `MAX_FLOAT64` is the source's start value in `ChooseSubtree`. Where the source divides by a
  width of zero and gets NaN, which no comparison accepts, the axis is skipped.
- **Dimensions.** Every inserted box has exactly `Dimensions` edges, each with `lo <= hi` (`Fits`); it may be a point.
  `NewRtree(2, 25, 50)` in `pkg/geofence/geofence.go:39` gives two-dimensional boxes to a tree of 50 dimensions and lies
  outside of this.
- **Splits.** `splitNode` drops an entry that ties in enlargement, area and count (the branches at
  `pkg/datastructure/rtree.go:324-336` assign it to nobody, although the comment there says it goes to either), and
  `linearPickSeeds` can return one entry twice. The model follows the code. `Split.Partitioning` is the condition for a good
  split: the seeds differ, and no round of the distribution meets a complete tie, which `Split.TieIsComplete` spells
  out. `Split.SplitPartitions` proves it exact, `Split.SeedsCoincide` and `Split.CongruentSeedsDiffer` say when the seeds
  differ, `Split.CompleteTieLosesEntry` is an input where an entry is lost, and `RtreeRuns.TiedTree` is a tree that it has been
  lost from. `pickNext` reads stored bounds that nothing refreshes during a split, so its choice hardly depends on the groups
  (`Split.StaleBoundsPick`).
- **The history of a tree.** The ghost field `Splits` records each call of `splitNode` with everything it reads; the ghost flag
  `Clean` holds exactly while all of them were partitions. `Rtree.InsertLeaf` says which splits an insertion makes, in terms of
  the state before it (`Grafts`, `Climbs`): none if the leaf node has room, else one at each full node on the way up, over
  the entries and boxes given there. A clean tree holds what was put in; once a split was no partition, only the absence
  of crashes and the acyclic shape are guaranteed.
- **Deletion.** An entry is found by its identifier, but only below boxes that overlap the given one (`Sought`); its own box need
  not. `Delete` needs a level tree (`Skew == 0`), `2 <= m` and `2m <= M + 1` (`Balanced`), and two children under an
  internal root (`Rooted`). Internal nodes carry identifier 0 themselves: deleting 0 in a tree of more than one level always
  finds something. It takes out a single entry exactly if the search gets down to a leaf node (`Descends`); otherwise a whole
  subtree goes while `Size` drops by one, which `RtreeRuns.ZeroDropsSubtree` is a run of, and always happens when no entry has
  that identifier (`NowhereToDescend`). The root-shortening step does
  not test for a leaf root: a leaf root that is left with one entry is replaced by that entry. The contract says exactly
  when this happens, and `RtreeRuns.LeafRootGoes` is such a run. Levels queued for re-insertion go stale if the tree grows
  meanwhile: a subtree that was queued before and goes back into a level tree leaves it with leaf nodes at different depths
  exactly if the tree has grown (`InsertLevel`). `Skew` records up to where the depth may then differ.
- **Distances.** Nearest-neighbour search is proved for any distance function, up to the slack of its bounds on the tree and
  query at hand (`BoundsHold`): how much `minDist` of a node can exceed the distance to an object below it. Some slack
  always exists (`SomeSlack`). It is zero for squared planar distance with objects inside of their boxes
  (`PlanarBoundsHold`). It need not be zero for the haversine distance that the source uses, for which the clamped point of a
  box is not always the nearest: from (60, 0) to the box with latitudes 50 to 85 and longitudes 90 to 91, the clamped
  point (60, 90) is about 41.4 degrees away and (80, 90), inside of the box, about 31.5.
- `NearestNeighboursPQ` with `k = 0` still reports one object, and `NearestNeighboursRadiusFilterOSM` ignores an offset
  at or past the end of the list (`PageIsWanted` says when the page is the wanted one, `PastTheEnd` is a list where it is not).
- OR and NOT are compiled but not carried out by `processQuery`, and AND takes whatever two lists are topmost: "c AND (a OR b)"
  is answered with the documents of both a and b, whether or not they contain c (`AndOverOr`). No query of the grammar
  panics; each is answered with the meet of the lists of its kept terms (`GrammarQueriesAnswer`). An OR of AND-only parts is
  answered rightly exactly when the last part covers the others (`OrOfAndsIsRight`), NOT of an AND-only expression is
  answered wrongly for every document (`NotIsWrong`). Every popped empty stack is a panic in the source, and `Crash` or
  `Panics` here.
- `stupidBackoff` panics, rather than returning 0, exactly when the word never occurs in the corpus (`UnseenWordPanics`).
  `TotalWordFreq` is never reset. Every estimate still lies in [0,1] after a second run of `MakeCountMatrix`, but the unigram
  estimates add up to one only if there was no earlier run over a non-empty corpus (`UnigramsAddUp`). After a history of start
  tokens alone, the estimates of all next words add up to more than one, since longer n-grams are padded with one token more
  (`EstimatesAddUp`). An empty corpus, where the
  unigram estimate divides zero by zero, is excluded.
- `EncodePostingsList2` keeps of a negative value its lowest seven bits only; `RunLengthEncoding` panics on an empty list.
- Metadata keeps 32 bits of each number. `MergeReopened` is the merge from the files, where every batch index has gone
  through its serialised metadata, and needs their numbers to be 32-bit ones, as `IndexRun` does, which rests on it. They are
  if the file is shorter than 2^32 bytes and terms, document numbers and lengths are below 2^32 (`SmallIndexFits`).
  `IndexField` hands the batch indexes over directly.

## Model

| member | source | states |
|---|---|---|
| Boxes.BoundingBox | pkg/datastructure/rtree.go:29-47 | two boxes are joined edge by edge over the first box's dimension |
| Boxes.JoinIsLeast | pkg/datastructure/rtree.go:29-47 | the join contains both boxes and lies within every box that contains both |
| Boxes.CheckOverlap | pkg/datastructure/rtree.go:59-86 | the answer is strict overlap in every dimension of the first box |
| Boxes.OverlapGrows | pkg/datastructure/rtree.go:59-86 | a box that overlaps an inner box overlaps every box around it, so pruning by an ancestor's box is safe |
| Boxes.OverlapIsSharedPoint | pkg/datastructure/rtree.go:59-86 | boxes with an extent on every axis overlap exactly when some point lies strictly inside of both |
| Boxes.AreaOfUnit | pkg/datastructure/rtree.go:50-57 | a box all of whose sides are 1, or without axes, has area 1 |
| Boxes.AreaCut | pkg/datastructure/rtree.go:50-57 | cut in two at a point of any axis, a box of any dimension has the area of its parts |
| Boxes.AreaOfRectangle | pkg/datastructure/rtree.go:50-57 | on two axes the area is length times width |
| Boxes.AreaGrows | pkg/datastructure/rtree.go:50-57 | no proper box has a negative area, or a larger one than a box around it |
| Split.CongruentSeedsDiffer | pkg/datastructure/rtree.go:405-457 | for congruent boxes the two seeds differ exactly when two boxes differ in position or all are points |
| Split.SeparationMeaning | pkg/datastructure/rtree.go:416-444 | separation times width is the gap between the box that starts last and the one that ends first, and width runs from the first start to the last end |
| Split.SeedsAreExtremes | pkg/datastructure/rtree.go:405-457 | the seeds are the first box that starts last and the first that ends first on the first axis of greatest separation, or the first two boxes if no axis has a width |
| Split.SeedsCoincide | pkg/datastructure/rtree.go:405-457 | for any boxes one entry is both seeds exactly when, on the first axis of greatest separation, its interval lies within every other and every earlier one starts lower and ends higher |
| Split.StartsAsLow | pkg/datastructure/rtree.go:416-438 | the second of two segments lies within the first, but the seeds differ, since both start at the same place |
| Split.ApartSeedsDiffer | pkg/datastructure/rtree.go:405-457 | two entries that lie apart on some axis are enough for the seeds to differ |
| Split.DistributeConserves | pkg/datastructure/rtree.go:286-340 | no round of the distribution loses or repeats an entry except those in the lost list |
| Split.PickedLeansMost | pkg/datastructure/rtree.go:345-379 | the entry picked is the first for which the enlargements of the two stored bounds differ most |
| Split.StaleBoundsPick | pkg/datastructure/rtree.go:360-376 | those bounds are stale: the entry that made the node overflow is picked first if it lies outside of the old bound, and else the entries come in order |
| Split.AssignMeaning | pkg/datastructure/rtree.go:307-337 | a group that needs all the rest gets the entry; else the group that is first in enlargement, then area, then count; exchanging the groups exchanges the choice |
| Split.TieIsComplete | pkg/datastructure/rtree.go:293-338 | an entry goes to neither group exactly when neither needs all the rest, the counts are equal, and the areas before and after are |
| Split.LosesAtTies | pkg/datastructure/rtree.go:286-340 | the distribution loses an entry exactly when some round meets such a tie |
| Split.SplitPartitions | pkg/datastructure/rtree.go:265-343 | a split partitions the node's entries exactly when the seeds differ and no round meets a complete tie |
| Split.SplitFills | pkg/datastructure/rtree.go:265-343 | such a split of at least 2m entries leaves m or more in each group and fewer than all in either |
| Split.CompleteTieLosesEntry | pkg/datastructure/rtree.go:302-336 | three segments whose seeds differ and whose third is given to neither group, whatever the entries are |
| Rtrees.RtreeNode.ComputeBB | pkg/datastructure/rtree.go:128-137 | the result is the join of the children's bounds |
| Rtrees.Rtree.constructor | pkg/datastructure/rtree.go:152-166 | a new tree is valid, empty, clean and level |
| Rtrees.EnlargementMeaning | pkg/datastructure/rtree.go:474-483 | the enlargement is what the join has more in area: never negative, and 0 for a bound inside |
| Rtrees.Rtree.ChooseSubtree | pkg/datastructure/rtree.go:474-491 | the child grows least; of those that tie an earlier one is larger, and a later one would be no smaller after growing than it is before |
| Rtrees.Rtree.ChooseLeaf | pkg/datastructure/rtree.go:471-497 | the leaf node reached lies at the end of a way down through such children |
| Rtrees.Rtree.LinearPickSeeds | pkg/datastructure/rtree.go:405-457 | the two seeds are those of the search by normalised separation over all axes |
| Rtrees.Rtree.PickNext | pkg/datastructure/rtree.go:345-379 | the entry picked is the first of strongest preference |
| Rtrees.Rtree.AssignGroup | pkg/datastructure/rtree.go:293-338 | the comparison chain of one round: need, enlargement, area, count, and nothing for a full tie |
| Rtrees.Rtree.SplitNode | pkg/datastructure/rtree.go:265-343 | the two nodes hold the groups of the split function on the entries and boxes at hand; parent pointers, levels and bounds survive, and the tree stays clean exactly when the seeds differ and no round ties |
| Rtrees.Rtree.AdjustTree | pkg/datastructure/rtree.go:207-263 | bounds become exact again up to the root, no stored entry changes, and a full parent is split, over the entries and boxes told from the state before, exactly as long as the split below it was a partition |
| Rtrees.Rtree.GrowTaller | pkg/datastructure/rtree.go:186-204 | a split root gets a new root with two children, one level higher |
| Rtrees.Rtree.InsertLeaf | pkg/datastructure/rtree.go:168-205 | the leaf node is the one that least enlargement leads to; the splits are those told from the state before, none if the leaf node has room; the tree stays clean exactly when they are partitions, and then exactly one entry more hangs below the root, with parent pointers, levels, child counts, exact bounds, height and size kept |
| Rtrees.Rtree.ContentsAreAccounted | pkg/datastructure/rtree.go:108-118 | in a clean tree every entry ever put in and not taken out can be reached from the root |
| RtreeRuns.InsertAll | pkg/datastructure/rtree.go:1025-1027 | a sequence of insertions leaves a clean tree exactly when every split on the way is a partition, none being made while all fits into one node; a clean tree holds the multiset of what was inserted |
| RtreeRuns.Build | pkg/datastructure/rtree.go:152-205 | a tree made from nothing by insertions is fit for search and deletion exactly when each of its splits is a partition |
| RtreeRuns.LeafLevel | pkg/datastructure/rtree.go:168-263 | all leaf nodes of a level tree are Height - 1 steps below the root |
| RtreeRuns.HeightAtLeastLogarithmic | pkg/datastructure/rtree.go:168-343 | a level tree of height H holds at most M^H entries |
| RtreeRuns.HeightAtMostLogarithmic | pkg/datastructure/rtree.go:168-343 | a level tree of height H >= 2 holds at least 2 m^(H-1) entries if 2m <= M + 1 and an internal root has two children |
| RtreeRuns.TiedTree | pkg/datastructure/rtree.go:152-205 | a tree made of those three segments is not clean, although it counts three insertions |
| RtreeRuns.Step | pkg/datastructure/rtree.go:168-205 | if its splits were partitions, one insertion or deletion changes the stored objects as in a flat collection and leaves a usable tree, after a deletion if the tree did not grow on the way and was no leaf node of two entries |
| RtreeRuns.UntouchedStays | pkg/datastructure/rtree.go:740-778 | through any run of such steps an object is there as often as it was at the start and has been inserted, if no removal names its identifier |
| RtreeRuns.RemovalTakesTheOne | pkg/datastructure/rtree.go:740-778 | a removal takes the one object with its identifier, if that overlaps the given box |
| RtreeRuns.ZeroDropsSubtree | pkg/datastructure/rtree.go:740-778 | deleting 0 from a tree of two levels over four objects numbered from 1 leaves Size at three and at most two objects |
| RtreeRuns.LeafRootGoes | pkg/datastructure/rtree.go:771-775 | a tree of two entries, one of which is deleted, has a bare entry as its root |
| RtreeSearch.UnderContained | pkg/datastructure/rtree.go:128-137 | a node's box lies within the box of every ancestor |
| RtreeSearch.UnderOneChild | pkg/datastructure/rtree.go:108-118 | the subtrees of different children are disjoint |
| RtreeSearch.SearchNode | pkg/datastructure/rtree.go:505-531 | the entries below the node that overlap the query are appended, each once |
| RtreeSearch.Search | pkg/datastructure/rtree.go:499-503 | the result lists exactly the entries below the root whose boxes overlap the query, none twice |
| RtreeDelete.FindLeaf | pkg/datastructure/rtree.go:859-885 | for an identifier other than 0, a node is found exactly if some entry carries it below boxes all of which overlap the given one, and then the leaf node that is first on such a way; for 0 the node is a leaf node exactly if the search descends to one; nothing is found only if no entry with the identifier overlaps the given box, and for 0 only in a leaf node |
| RtreeDelete.NowhereToDescend | pkg/datastructure/rtree.go:859-885 | in a tree where no entry has identifier 0, the search for it never descends to a leaf node |
| RtreeDelete.InsertLevel | pkg/datastructure/rtree.go:897-926 | an orphaned subtree is put back with all its entries below the node of the recorded level that least enlargement leads to, with the splits told from the state before; if these are partitions, a level tree is left with leaf nodes at different depths exactly if it had grown since the level was recorded |
| RtreeDelete.ChooseLevel | pkg/datastructure/rtree.go:928-956 | the node reached lies at the recorded level, at the end of a way of least enlargement |
| RtreeDelete.CondenseTree | pkg/datastructure/rtree.go:780-857 | dissolving underfull nodes and re-inserting their children loses and repeats no entry; the splits are those of the re-insertions, each told from the tree that it found while all before were partitions, and there are none unless a node is dissolved |
| RtreeDelete.Shorten | pkg/datastructure/rtree.go:771-775 | a root with one child gives way to it, and the same entries hang below the root |
| RtreeDelete.RemoveRecord | pkg/datastructure/rtree.go:750-758 | the first child with the identifier leaves the tree with all below it, and nothing else does |
| RtreeDelete.Delete | pkg/datastructure/rtree.go:740-778 | for an identifier other than 0, something is deleted exactly if an entry carries it below overlapping boxes, and it is in the first leaf node on such a way; one child with the identifier leaves with all below it: a single entry for every identifier but 0, and for 0 exactly if the search descends to a leaf node; the tree is clean exactly when each split of the re-insertions, traced one by one, is a partition, level if the root is not a new one, and usable unless its root was a leaf with two entries |
| NearestNeighbours.PlanarIsClampNearest | pkg/datastructure/rtree.go:543-568 | squared planar distance is least at the clamped point of every box |
| NearestNeighbours.PlanarBoundsHold | pkg/datastructure/rtree.go:543-568 | for it the bounds of a tree whose objects lie in their boxes hold without slack |
| NearestNeighbours.SomeSlack | pkg/datastructure/rtree.go:543-568 | for every distance, tree and query there is a slack with which the bounds hold |
| NearestNeighbours.NestedMinDist | pkg/datastructure/rtree.go:543-568 | if the clamped point of the outer box is nearest in it, the distance to it is at most that to an inner box |
| NearestNeighbours.BoxBound | pkg/datastructure/rtree.go:543-568 | if in each node's box the clamped point is nearest up to slack, the bounds hold with that slack |
| NearestNeighbours.IncrementalNearestNeighbor | pkg/datastructure/rtree.go:685-723 | objects are reported nearest first up to the slack of the bounds, each at most once, none that is nearer by more is left out, all of them unless the callback stops; the loop terminates |
| NearestNeighbours.NearestNeighboursPQ | pkg/datastructure/rtree.go:635-649 | the min(k, Size) nearest objects in order, up to the slack, and one for k = 0 |
| NearestNeighbours.ImprovedNearestNeighbor | pkg/datastructure/rtree.go:725-738 | a nearest object up to the slack, or the zero object when there is none |
| NearestNeighbours.NearestNeighboursRadiusFilterOSM | pkg/datastructure/rtree.go:656-682 | the page at the offset, or the first page for an offset past the end, of a list of the objects that are within the radius and carry the feature, nearest first up to the slack; none that is within the radius less the slack is missing |
| NearestNeighbours.MatchesComplete | pkg/datastructure/rtree.go:656-672 | stopping at the first object outside the radius misses no match within the radius less the slack |
| NearestNeighbours.PageMeaning | pkg/datastructure/rtree.go:673-681 | the slices give the page at the offset, and the first page for an offset at or past the end |
| NearestNeighbours.PageIsWanted | pkg/datastructure/rtree.go:673-681 | that is the page asked for exactly when the offset is inside of the list, or the page is empty anyway |
| NearestNeighbours.PastTheEnd | pkg/datastructure/rtree.go:673-681 | offset 3 into a list of three gives its first two elements, where nothing is left |
| HeapOrders.MinAtRoot | pkg/datastructure/pq_rtree.go:78-83 | the root of an ordered heap ranks lowest |
| HeapOrders.SiftUpStep | pkg/datastructure/pq_rtree.go:40-46 | swapping with a larger parent moves the only violation up |
| MinHeaps.MinHeap.Insert | pkg/datastructure/pq_rtree.go:86-95 | heap order is kept and exactly the key is added |
| MinHeaps.MinHeap.GetMin | pkg/datastructure/pq_rtree.go:78-83 | an element of least rank, none for an empty heap |
| MinHeaps.MinHeap.ExtractMin | pkg/datastructure/pq_rtree.go:98-125 | a least element leaves, everything else stays, heap order is kept |
| Compress.EncodeUVarint | pkg/compress/compress.go:28-43 | the ten shifts write unsigned LEB128 |
| Compress.LebAtMostTenBytes | pkg/compress/compress.go:26-43 | a 64-bit value takes one to ten bytes |
| Compress.LebDigits | pkg/compress/compress.go:28-43 | the k-th byte is the k-th digit in base 128, lowest first, with the high bit set on all but the last |
| Compress.ReadUndoesWrite | pkg/compress/compress.go:28-48 | reading a written value gives it back with its length, whatever follows |
| Compress.WriteUndoesRead | pkg/compress/compress.go:28-48 | what is read is written as the same bytes exactly when its last byte is no padding zero |
| Compress.EncodePostingsList | pkg/compress/compress.go:118-125 | the list is the concatenation of its values' codes, negative values as unsigned ones |
| Compress.DecodePostingsList | pkg/compress/compress.go:104-133 | values are read until the buffer ends, also within a value; an overflow panics |
| Compress.DecodeUndoesEncode | pkg/compress/compress.go:118-133 | decoding undoes encoding for every list of 64-bit values |
| VbCodes.VbEncodeNum | pkg/compress/compress.go:74-87 | base-128 digits, most significant first, the stop bit on the last |
| VbCodes.DigitsAre | pkg/compress/compress.go:74-87 | the bytes are the digits in base 128, highest first |
| VbCodes.DecodePostingsList2 | pkg/compress/compress.go:89-149 | digits are gathered with 64-bit wrap-around until a stop bit |
| VbCodes.EncodePostingsList2 | pkg/compress/compress.go:135-142 | the list is the concatenation of its values' second codes |
| VbCodes.VbDecodeUndoesEncode | pkg/compress/compress.go:74-149 | the second code is undone exactly when no value is negative |
| VbCodes.EncodingsHaveEqualLength | pkg/compress/compress.go:74-142 | both codes take the same number of bytes for values that are not negative |
| RunLengths.RunLengthEncoding | pkg/compress/compress.go:50-73 | the runs expand to the list, counts are positive, neighbours differ; the empty list panics |
| InvertedIndices.InvertedIndex.AppendPostingList | pkg/index/inverted_index.go:195-212 | the list is stored under the term, every other list stays readable, extents go on tiling the file |
| InvertedIndices.InvertedIndex.GetPostingList | pkg/index/inverted_index.go:178-193 | the list last appended for the term, the empty list for an unknown term |
| InvertedIndices.InvertedIndex.Next | pkg/index/inverted_index.go:249-275 | the iterator yields the terms in the order of appending, each with its list |
| InvertedIndices.ExtentsAreDisjoint | pkg/index/inverted_index.go:195-212 | the extents of different terms do not overlap |
| InvertedIndices.ExtentsCover | pkg/index/inverted_index.go:195-212 | every byte of the appended region lies in some term's extent |
| InvertedIndices.InvertedIndex.SerializeMetadata | pkg/index/inverted_index.go:293-359 | for every iteration order the layout fills the computed buffer exactly |
| InvertedIndices.LayoutAt | pkg/index/inverted_index.go:301-359 | where each number stands: three counts, the terms, each term with length, count and start, each document with its length, four bytes each, lowest first, and the average at the end |
| InvertedIndices.InvertedIndex.DeserializeMetadata | pkg/index/inverted_index.go:362-414 | the fields become what the buffer holds; it panics exactly when the buffer is too short |
| InvertedIndices.MetadataRoundTrip | pkg/index/inverted_index.go:301-414 | reading undoes writing, for every iteration order, exactly when all numbers are 32-bit ones |
| InvertedIndices.SmallIndexFits | pkg/index/inverted_index.go:195-359 | they are when the file is shorter than 2^32 bytes and terms, document numbers and lengths are 32-bit numbers |
| InvertedIndices.Reopen | pkg/index/inverted_index.go:70-176 | an index that is written out and read again answers every lookup as before |
| PriorityQueues.MinPriorityQueue.SwapNodes | pkg/datastructure/priority_queue.go:98-102 | two nodes change places and every node still knows its index |
| PriorityQueues.MinPriorityQueue.Push | pkg/datastructure/priority_queue.go:104-109 | heap order and index fields are kept, exactly the node is added |
| PriorityQueues.MinPriorityQueue.Pop | pkg/datastructure/priority_queue.go:111-118 | a node of least rank leaves with index -1, heap order and index fields are kept |
| HeapMerges.MergeKArrayIterator.Start | pkg/index/heap_merge.go:43-64 | the first entry of every index enters the queue |
| HeapMerges.MergeKArrayIterator.Next | pkg/index/heap_merge.go:66-96 | the entry handed out is a least one of all that wait, and its index's next entry takes its place; at the end nothing waits |
| HeapMerges.StaysInOrder | pkg/index/heap_merge.go:38-98 | terms are handed out in non-decreasing order, no pair of index and position twice |
| IndexMerges.GatheredStep | pkg/index/heap_merge.go:67-78 | one entry handed out adds its list to its own term and to no other |
| IndexMerges.Merge | pkg/index/indexer.go:635-668 | each distinct term once, in increasing order, with the sorted multiset union of its lists; every pair of index and term is handed out exactly once, in order |
| IndexMerges.MergeFieldLengths | pkg/index/indexer.go:620-632 | a document's length is the sum over the indexes that know it |
| IDMaps.IDMap.GetID | pkg/util.go:30-42 | a known word keeps its identifier, a new one gets the next; the two maps stay inverse and without gaps |
| IDMaps.IDMap.GetStr | pkg/util.go:44-49 | the word of an identifier, the empty string when it was never given out |
| IDMaps.IDMap.GetSortedTerms | pkg/util.go:51-58 | every word exactly once, in lexicographic order |
| IDMaps.AtMostMeaning | pkg/util.go:51-58 | a word comes first exactly if it is a prefix of the other, or has the smaller character where they first differ |
| TokenStreams.FieldWords | pkg/index/indexer.go:775-790 | the field "name" reads the name and "address" the address; an empty text or another field has no words |
| TokenStreams.SpimiParseOSMNode | pkg/index/indexer.go:771-802 | one pair for each word of the name or the address, in order, and the field length, while other workers add words |
| TokenStreams.SpimiParseOSMNodes | pkg/index/indexer.go:805-818 | the token stream and field lengths of the batch in the final dictionary |
| Indexers.SpimiInvert | pkg/index/indexer.go:672-768 | a fresh index with increasing terms whose lists are the stream's postings |
| Indexers.PostingsCount | pkg/index/indexer.go:681-701 | a document is in a term's list as often as the pair is in the stream |
| FieldIndexes.InvertAll | pkg/index/indexer.go:672-768 | the indexes of all batches, valid together although the dictionary grew |
| FieldIndexes.GatheredIsAll | pkg/index/indexer.go:635-668 | merging batch indexes gives the postings of all documents together |
| FieldIndexes.MergeReopened | pkg/index/indexer.go:506-526 | so it does when every batch index is written out and opened again for the merge |
| FieldCounts.MultiplicityIsCount | pkg/index/indexer.go:620-802 | the multiplicity of a document in a word's list is the number of times the word occurs in its field, whatever the batches |
| FieldCounts.CountOfOne | pkg/index/indexer.go:771-802 | with distinct numbers this is the count in that one document |
| FieldCounts.IndexField | pkg/index/indexer.go:502-533 | the merged index holds exactly the postings of all documents, sorted, and summed field lengths; with distinct numbers, each document stands under each word as often as the word occurs in its name, or its address |
| FieldCounts.PostingsAddUp | pkg/index/indexer.go:620-802 | a document's occurrences over all lists add up to the number of words in its field |
| FieldCounts.LengthIsTotal | pkg/index/indexer.go:620-632 | the merged field length of a document equals its occurrences over all posting lists |
| FieldCounts.LookUp | pkg/searcher/searcher.go:142-160 | a looked-up word's list is sorted and holds each document as often as the word occurs in its name, or its address, and no other number, also for a word never indexed |
| BatchProtocol.NamesDiffer | pkg/index/indexer.go:744 | index names of different blocks differ, also across fields |
| BatchProtocol.ContainsField | pkg/index/indexer.go:509-546 | the substring test picks exactly the indexes of its field |
| BatchProtocol.StepKeeps | pkg/index/indexer.go:113-360 | every step of every worker keeps numbering, names, pending and listed documents in balance |
| BatchProtocol.BatchesAreFull | pkg/index/indexer.go:163-256 | a worker inverts 100000 documents at a time, and fewer only when it has no object left |
| BatchProtocol.NumbersAreExact | pkg/index/indexer.go:163-190 | at every unlocked state the numbers are 0 to nodeIDX - 1 and each object stands at its own number |
| BatchProtocol.IndexNamesAreDistinct | pkg/index/indexer.go:743-757 | at every unlocked state no two intermediate indexes have the same name |
| BatchProtocol.CompleteRun | pkg/index/indexer.go:192-256 | in a run without error every accepted document is in allSearchNodes once and in the indexes of either field once, and every name given out is listed |
| BatchProtocol.EachObjectOnce | pkg/index/indexer.go:163-256 | in such a run each object given to a worker has been skipped or accepted by one step, in order, and osmData holds the accepted ones, numbered in the order of acceptance |
| BatchProtocol.FieldDocsAreDistinct | pkg/index/indexer.go:507-524 | the documents given to the merge of a field then have distinct numbers |
| FieldPipelines.RunNodesAreDistinct | pkg/index/indexer.go:507-524 | in a run without error that accepts at most 2^63 objects, the nodes made of them are the distinct documents that the word counts ask for |
| FieldPipelines.IndexRun | pkg/index/indexer.go:502-533 | after such a run, in any schedule, the index merged from the reopened batch indexes lists each accepted object's number under each word as often as the word occurs in that object's name, or its address, and its length is the number of words there |
| BooleanQuery.ShuntingYardRPN | pkg/searcher/boolean_query.go:43-101 | the two stacks end as the compiler function says, or the pop from the empty stack panics |
| BooleanQuery.CompileCrashes | pkg/searcher/boolean_query.go:58-69 | compiling panics exactly when some prefix closes a bracket it never opened |
| BooleanQuery.CompilesToRpn | pkg/searcher/boolean_query.go:43-101 | every expression of the grammar compiles to its postfix form, equal operators grouped to the right |
| BooleanQuery.CompilingPreservesMeaning | pkg/searcher/boolean_query.go:43-101 | the output, run on a stack machine, leaves exactly the expression's truth value |
| QueryEvaluation.PostingListIntersection2 | pkg/searcher/boolean_query.go:150-167 | sorted lists give a sorted list with the multiset intersection |
| QueryEvaluation.IntersectIsMeet | pkg/searcher/boolean_query.go:150-167 | each element survives as often as it occurs in both lists |
| QueryEvaluation.ProcessQuery | pkg/searcher/boolean_query.go:104-148 | the answer is the top of the stack that the evaluator function leaves, a panic when it is stuck or empty |
| QueryEvaluation.AndQueriesAreMeets | pkg/searcher/boolean_query.go:43-167 | compiled and processed, an AND-only query leaves each document with its least multiplicity over all terms |
| QueryEvaluation.GrammarQueriesAnswer | pkg/searcher/boolean_query.go:104-148 | no query of the grammar panics: its answer is the meet of the lists of its kept terms, which depend on the query alone |
| QueryEvaluation.OrOfAndsIsRight | pkg/searcher/boolean_query.go:135-137 | an OR of AND-only parts is answered rightly exactly when every document with all terms of some part has all terms of the last |
| QueryEvaluation.NotIsWrong | pkg/searcher/boolean_query.go:138-141 | NOT of an AND-only expression is answered with exactly the documents that it should exclude |
| QueryEvaluation.AndOverOr | pkg/searcher/boolean_query.go:123-137 | the kept terms of "c AND (a OR b)" are a and b |
| QueryEvaluation.OrIsIgnored | pkg/searcher/boolean_query.go:135-141 | "a OR b" leaves both lists and answers with b's, which is the union exactly when a's documents are among b's |
| QueryEvaluation.AnswerQuery | pkg/searcher/boolean_query.go:43-167 | for the token list of any grammar query the whole chain returns the meet over the kept terms and never panics; for AND-only queries that is the right answer |
| QueryEvaluation.LiteralQueries | pkg/searcher/boolean_query.go:43-148 | "a AND b", "a OR b", "NOT a" and "(a)" in the program's own token numbers, what they compile to and what they are answered with |
| Ngrams.NGramLanguageModel.AddStartEndToken | pkg/searcher/ngram_lm.go:373-384 | n start tokens, the document, one end token |
| Ngrams.NGramLanguageModel.CountGrams | pkg/searcher/ngram_lm.go:112-210 | the table holds exactly the n-gram counts of the padded corpus, and their total is the number of windows, the same for every n |
| Ngrams.NGramLanguageModel.MakeCountMatrix | pkg/searcher/ngram_lm.go:345-370 | after any run the four tables count this corpus; the number of windows is added to TotalWordFreq |
| Ngrams.Marginalisation | pkg/searcher/ngram_lm.go:112-210 | (n+1)-gram counts summed over the first token give the n-gram count, despite the different padding |
| Ngrams.HistoryIsAsFrequent | pkg/searcher/ngram_lm.go:213-298 | an n-gram is no more frequent than its history |
| Ngrams.CountByDocument | pkg/searcher/ngram_lm.go:112-210 | a count adds up, over the documents, the places at which the padded document shows the n-gram |
| Ngrams.NextWordsAddUp | pkg/searcher/ngram_lm.go:112-210 | summed over the next word, the (n+1)-grams that begin with a history are as many as the history, less the documents that end in it, and one more for each document if it is start tokens alone |
| Ngrams.NGramLanguageModel.EstimateProbability | pkg/searcher/ngram_lm.go:213-298 | times the count of the history, the estimate is the count of the whole n-gram; it is 0 for an unseen history |
| Ngrams.NGramLanguageModel.EstimatesAreProbabilities | pkg/searcher/ngram_lm.go:213-298 | after any run over a non-empty corpus every estimate lies in [0,1] and is 0 exactly for an unseen n-gram |
| Ngrams.NGramLanguageModel.UnigramsAddUp | pkg/searcher/ngram_lm.go:112-137 | the unigram estimates add up to one exactly when TotalWordFreq counts the windows of this corpus alone |
| Ngrams.NGramLanguageModel.EstimatesAddUp | pkg/searcher/ngram_lm.go:213-298 | after a history that occurs, the estimates of all next words times its count are what NextWordsAddUp says, and add up to one exactly when its two corrections cancel |
| Ngrams.NGramLanguageModel.StupidBackoff | pkg/searcher/ngram_lm.go:323-342 | a panic for a word that never occurs; else the share of the word in the counts after the longest context seen with it, times 1, 0.4, 0.16 or 0.064 by the words dropped |
| Ngrams.NGramLanguageModel.BackoffMeaning | pkg/searcher/ngram_lm.go:323-342 | for a word that occurs: 0.4^j times the estimate at the longest context seen with it, within (0,1] |
| Ngrams.NGramLanguageModel.BackoffPanics | pkg/searcher/ngram_lm.go:323-342 | the panic happens exactly when the word never occurs in the corpus |
| Ngrams.UnseenWordPanics | pkg/searcher/ngram_lm.go:323-342 | a four-gram model of one document that is asked for a word it has never seen panics |
| Ngrams.LongerIsRarer | pkg/searcher/ngram_lm.go:323-342 | a longer history never makes the word more frequent |

## Left out

- Rtrees.Rtree.InsertLeaf: contents, exact bounds, child counts and uniqueness hold while every split was a partition; after a split that was not, only the shape that keeps the methods from crashing is promised, and the later splits of the same insertion are recorded but not told in advance.
- RtreeDelete.Delete: needs a clean and level tree; the splits of its re-insertions are a trace, each told from the tree it found, not all from the state before the call.
- RtreeRuns.Step: after a removal during which the tree grew, the tree is not promised to be usable; `InsertLevel` shows that it may not be level.
- NearestNeighbours.IncrementalNearestNeighbor: how large the slack of the haversine distance is on a given tree is left open; the callback is a function of the objects reported so far.
- RtreeSearch.Search: returns references to the nodes where the source returns copies.
- Indexers.SpimiInvert: streams below maxDynamicPostingListSize only; the flush in mid-stream iterates positions instead of terms (pkg/index/indexer.go:726) and writes other lists than it should.
- TokenStreams.SpimiParseOSMNode: docWordCount, which only feeds an average, is not kept; cancellation of the context is left out.
- FieldCounts.IndexField: one field at a time; what the other workers do shows in the dictionary only.
- InvertedIndices.InvertedIndex.SerializeMetadata: the running average field length is a given eight-byte payload.
- BatchProtocol.StepKeeps: which objects are accepted is left open, so duplicate detection promises nothing; a SpimiInvert call takes one block, as without a mid-stream flush.
- QueryEvaluation.ProcessQuery: posting lists come from a map; errors of the index file are left out.
- Compress.DecodePostingsList: encoding/binary is not part of this repository; its reader is modelled from its documentation and section 7.6 of the DWARF Debugging Information Format, Version 4.
- `isBBSame` and `maxDist` of the R-tree, and the maximum priority queue, which nothing uses.
- File, bbolt, gob, msgpack and OSM PBF input and output; HTTP, logging, configuration and dependency injection.
- The tokenizer, the finite-state transducers, the automata and the s2 projection: libraries; the tokenizer is any function from a text to words.
- BM25 and TF-IDF scores, edit probabilities, haversine formulas and circle intersection: floating-point formulas.
- Point in polygon (`windingNumber`), whose on-segment test is a bounding-box test.
- The word threshold of `PreProcessData`, which counts twice.
- Geofence states, the key-value node format and the worker pools.
