/** Runs of insertions and deletions, and what the invariant says about the tree as a whole:
  * pkg/datastructure/rtree.go, lines 152-343, 740-778 and 1021-1027; pkg/datastructure/rtree_test.go, lines 14-61. */
module RtreeRuns {
  import opened Boxes
  import opened Collections
  import opened Split
  import opened Rtrees
  import opened RtreeSearch
  import opened RtreeDelete

  // ---- runs of insertions

  /** The insertion loop of Deserialize: every list of boxed objects, inserted in order. The tree stays
    * clean exactly when every split on the way is a partition, and then it holds all the objects; as
    * long as all entries fit into one node, nothing is split. */
  method InsertAll(rt: Rtree, items: seq<OSMObject>)
    requires rt.Valid() && forall i :: 0 <= i < |items| ==> Fits(items[i].Bound, rt.Dimensions)
    modifies rt, rt.Nodes
    ensures rt.Valid() && rt.Skew == old(rt.Skew) && old(rt.Splits) <= rt.Splits && fresh(rt.Nodes - old(rt.Nodes))
    ensures rt.Clean <==> old(rt.Clean) && AllPartition(rt.Splits[|old(rt.Splits)|..])
    ensures rt.Clean ==> rt.Contents() == old(rt.Contents()) + multiset(items)
    ensures rt.Size == old(rt.Size) + |items| && rt.Size - |Data(rt.Nodes)| == old(rt.Size - |Data(rt.Nodes)|)
    ensures old(rt.Clean) && |old(Data(rt.Nodes))| + |items| <= rt.MaxChildItems ==> rt.Splits == old(rt.Splits) && rt.Root == old(rt.Root)
    ensures old(Rooted(rt)) ==> Rooted(rt)
  {
    hide Shaped, Tidy, ObjectsOf, Data, Proper, Reaches, Grafts, Logged, AllPartition, Rtree.Linked, Rtree.Contents, Sound, AllTidy;
    rt.OkFacts();
    for i := 0 to |items|
      invariant rt.Valid() && rt.Skew == old(rt.Skew) && old(rt.Splits) <= rt.Splits && (rt.Clean ==> old(rt.Clean))
      invariant fresh(rt.Nodes - old(rt.Nodes))
      invariant rt.Clean ==> rt.Contents() == old(rt.Contents()) + multiset(items[..i])
      invariant rt.Size == old(rt.Size) + i && rt.Size - |Data(rt.Nodes)| == old(rt.Size - |Data(rt.Nodes)|)
      invariant old(rt.Clean) && |old(Data(rt.Nodes))| + i <= rt.MaxChildItems ==> rt.Splits == old(rt.Splits) && rt.Root == old(rt.Root) && rt.Clean
      invariant old(Rooted(rt)) ==> Rooted(rt)
    {
      assert items[i].(Bound := items[i].Bound) == items[i];
      assert items[..i + 1] == items[..i] + [items[i]];
      InsertOne(rt, items[i]);
    }
    assert items[..|items|] == items;
    rt.OkFacts();
    Rtree.MoreSplits(old(rt.Splits), rt.Splits);
  }

  /** One round. */
  method InsertOne(rt: Rtree, item: OSMObject)
    requires rt.Valid() && Fits(item.Bound, rt.Dimensions)
    modifies rt, rt.Nodes
    ensures rt.Valid() && rt.Skew == old(rt.Skew) && old(rt.Splits) <= rt.Splits && (rt.Clean ==> old(rt.Clean))
    ensures fresh(rt.Nodes - old(rt.Nodes))
    ensures rt.Clean ==> rt.Contents() == old(rt.Contents()) + multiset{item}
    ensures rt.Size == old(rt.Size) + 1 && rt.Size - |Data(rt.Nodes)| == old(rt.Size - |Data(rt.Nodes)|)
    ensures old(rt.Clean) && old(|Data(rt.Nodes)|) < rt.MaxChildItems ==> rt.Splits == old(rt.Splits) && rt.Root == old(rt.Root) && rt.Clean
    ensures old(Rooted(rt)) ==> Rooted(rt)
  {
    hide Shaped, Tidy, ObjectsOf, Data, Proper, Reaches, Grafts, Logged, Rtree.Linked, Rtree.Contents, Sound, AllTidy, Partitions;
    assert item.(Bound := item.Bound) == item;
    ghost var entry, target := rt.InsertLeaf(item.Bound, item, false);
  }

  lemma LeafIsLow(rt: Rtree, leaf: RtreeNode)
    requires Sane(rt) && leaf in rt.Nodes && leaf.IsLeaf
    ensures leaf.h == 1
  {
    At(rt, leaf);
  }

  /** A tree made by insertions alone is fit for use exactly when each of its splits is a partition. */
  method Build(minChildItems: int, maxChildItems: int, dimensions: nat, items: seq<OSMObject>) returns (rt: Rtree)
    requires maxChildItems >= 2 && forall i :: 0 <= i < |items| ==> Fits(items[i].Bound, dimensions)
    ensures fresh(rt) && fresh(rt.Nodes) && rt.Valid() && rt.Skew == 0 && Rooted(rt) && rt.Size == |items|
    ensures rt.MinChildItems == minChildItems && rt.MaxChildItems == maxChildItems && rt.Dimensions == dimensions
    ensures Sane(rt) <==> AllPartition(rt.Splits)
    ensures Sane(rt) ==> rt.Contents() == multiset(items) && |rt.Linked()| == |items|
    ensures |items| <= maxChildItems ==> rt.Splits == [] && Sane(rt) && rt.Root.IsLeaf
  {
    hide Shaped, Tidy, ObjectsOf, Data, Proper, Reaches, Logged, Rtree.Linked, Rtree.Contents, Partitions, Sound, AllTidy;
    rt := new Rtree(minChildItems, maxChildItems, dimensions);
    RootIsLeaf(rt);
    label Made:
    ghost var root := rt.Root;
    InsertAll(rt, items);
    assert rt.Splits[0..] == rt.Splits;
    if rt.Clean { rt.ContentsAreAccounted(); }
  }

  lemma RootIsLeaf(rt: Rtree)
    requires rt.Valid()
    ensures rt.Root.IsLeaf ==> Rooted(rt)
  {
    assert Shaped(rt.Root, rt.Nodes, rt.Root, rt.Skew, rt.Dimensions, null);
  }

  // ---- uniform depth

  /** All leaf nodes of a level tree lie at level Height, the root being at level 1. */
  lemma {:induction false} LeafLevel(rt: Rtree, n: RtreeNode)
    requires Sane(rt) && rt.Skew == 0 && n in rt.Nodes
    ensures StepsToRoot(rt, n) == rt.Height - n.h
    ensures n.IsLeaf ==> StepsToRoot(rt, n) + 1 == rt.Height
    decreases rt.Root.h - n.h
  {
    At(rt, n);
    if n != rt.Root {
      At(rt, n.Parent);
      LeafLevel(rt, n.Parent);
    }
  }

  // ---- how many entries a tree of a given height holds

  ghost function Pow(b: nat, e: nat): nat {
    if e == 0 then 1 else b * Pow(b, e - 1)
  }

  /** The nodes whose parents are in P. */
  ghost function ChildrenOf(rt: Rtree, P: set<RtreeNode>): set<RtreeNode>
    reads rt, rt.Nodes
  {
    set c | c in rt.Nodes && c != rt.Root && c.Parent in P
  }

  lemma OneMoreParent(rt: Rtree, P: set<RtreeNode>, p: RtreeNode)
    requires Sane(rt) && p in P && P <= rt.Nodes
    ensures |ChildrenOf(rt, P)| == |ChildrenOf(rt, P - {p})| + |p.Items|
  {
    var kids := set x | x in p.Items;
    At(rt, p);
    SetOfNoDup(p.Items);
    forall c | c in kids ensures c in rt.Nodes && c != rt.Root && c.Parent == p {
      At(rt, c);
    }
    forall c | c in rt.Nodes && c != rt.Root && c.Parent == p ensures c in kids {
      At(rt, c);
    }
    assert ChildrenOf(rt, P) == ChildrenOf(rt, P - {p}) + kids;
    assert ChildrenOf(rt, P - {p}) !! kids;
  }

  /** Fan-out bounds carry over to sets of nodes. */
  lemma {:induction false} CountChildren(rt: Rtree, P: set<RtreeNode>, low: nat)
    requires Sane(rt) && P <= rt.Nodes && forall p :: p in P ==> low <= |p.Items| <= rt.MaxChildItems
    ensures low * |P| <= |ChildrenOf(rt, P)| <= rt.MaxChildItems * |P|
  {
    if P == {} {
      assert ChildrenOf(rt, P) == {};
    } else {
      var p :| p in P;
      OneMoreParent(rt, P, p);
      CountChildren(rt, P - {p}, low);
      assert |P| == |P - {p}| + 1;
      assert low * |P| == low * |P - {p}| + low;
      assert rt.MaxChildItems * |P| == rt.MaxChildItems * |P - {p}| + rt.MaxChildItems;
    }
  }

  ghost function LevelSet(rt: Rtree, k: nat): set<RtreeNode>
    reads rt
  {
    set n | n in rt.Nodes && n.h == k
  }

  lemma LevelBelow(rt: Rtree, k: nat)
    requires Sane(rt) && rt.Skew == 0 && k < rt.Root.h
    ensures LevelSet(rt, k) == ChildrenOf(rt, LevelSet(rt, k + 1))
  {
    forall n | n in rt.Nodes ensures n in LevelSet(rt, k) <==> n in ChildrenOf(rt, LevelSet(rt, k + 1)) {
      At(rt, n);
    }
  }

  lemma TopLevel(rt: Rtree)
    requires Sane(rt) && rt.Skew == 0
    ensures LevelSet(rt, rt.Root.h) == {rt.Root}
  {
    At(rt, rt.Root);
    forall n | n in rt.Nodes && n.h == rt.Root.h ensures n == rt.Root {
      At(rt, n);
      if n != rt.Root { At(rt, n.Parent); }
    }
  }

  lemma {:induction false} LevelAtMost(rt: Rtree, k: nat)
    requires Sane(rt) && rt.Skew == 0 && k <= rt.Root.h
    ensures |LevelSet(rt, k)| <= Pow(rt.MaxChildItems, rt.Root.h - k)
    decreases rt.Root.h - k
  {
    if k == rt.Root.h {
      TopLevel(rt);
    } else {
      LevelAtMost(rt, k + 1);
      LevelBelow(rt, k);
      var P := LevelSet(rt, k + 1);
      forall p | p in P ensures 0 <= |p.Items| <= rt.MaxChildItems { At(rt, p); }
      CountChildren(rt, P, 0);
      assert rt.MaxChildItems * |P| <= rt.MaxChildItems * Pow(rt.MaxChildItems, rt.Root.h - k - 1);
    }
  }

  /** Groups of m children fit twice into an overfull node, so every node but the root has m of them. */
  ghost predicate Halvable(rt: Rtree) {
    0 <= rt.MinChildItems && 2 * rt.MinChildItems <= rt.MaxChildItems + 1
  }

  lemma FanOut(rt: Rtree, p: RtreeNode)
    requires Sane(rt) && Halvable(rt) && Rooted(rt) && p in rt.Nodes && rt.Root.h >= 2 && p.h >= 1
    ensures (if p.h == rt.Root.h then 2 else rt.MinChildItems) <= |p.Items| <= rt.MaxChildItems
  {
    At(rt, p);
    if p != rt.Root { At(rt, p.Parent); }
  }

  lemma Scale(m: nat, x: nat, y: nat)
    requires x >= 2 * y
    ensures m * x >= 2 * (m * y)
  {
    assert m * x >= m * (2 * y);
  }

  lemma {:induction false} LevelAtLeast(rt: Rtree, k: nat)
    requires Sane(rt) && rt.Skew == 0 && Halvable(rt) && Rooted(rt) && k < rt.Root.h && rt.Root.h >= 2
    ensures |LevelSet(rt, k)| >= 2 * Pow(rt.MinChildItems, rt.Root.h - 1 - k)
    decreases rt.Root.h - k
  {
    hide Sane, Rooted, ChildrenOf;
    LevelBelow(rt, k);
    var P := LevelSet(rt, k + 1);
    var low := if k == rt.Root.h - 1 then 2 else rt.MinChildItems;
    forall p | p in P ensures low <= |p.Items| <= rt.MaxChildItems { FanOut(rt, p); }
    CountChildren(rt, P, low);
    if k == rt.Root.h - 1 {
      TopLevel(rt);
    } else {
      LevelAtLeast(rt, k + 1);
      Scale(rt.MinChildItems, |P|, Pow(rt.MinChildItems, rt.Root.h - 2 - k));
    }
  }

  /** A level tree of height H holds at most M^H entries, whatever m is. */
  lemma HeightAtLeastLogarithmic(rt: Rtree)
    requires Sane(rt) && rt.Skew == 0
    ensures |rt.Linked()| <= Pow(rt.MaxChildItems, rt.Height)
  {
    rt.ContentsAreAccounted();
    assert Data(rt.Nodes) == LevelSet(rt, 0);
    LevelAtMost(rt, 0);
  }

  /** A level tree of height H >= 2 holds at least 2 m^(H-1) entries, provided that m children fit twice
    * into an overfull node and an internal root has two. */
  lemma HeightAtMostLogarithmic(rt: Rtree)
    requires Sane(rt) && rt.Skew == 0 && Halvable(rt) && Rooted(rt)
    ensures rt.Height >= 2 ==> |rt.Linked()| >= 2 * Pow(rt.MinChildItems, rt.Height - 1)
  {
    rt.ContentsAreAccounted();
    assert Data(rt.Nodes) == LevelSet(rt, 0);
    if rt.Height >= 2 {
      LevelAtLeast(rt, 0);
    }
  }

  // ---- mixed runs

  datatype Op = Insert(o: OSMObject) | Remove(leaf: OSMObject)

  ghost predicate OpFits(op: Op, d: nat) {
    match op
    case Insert(o) => Fits(o.Bound, d)
    case Remove(leaf) => leaf.ID != 0 && |leaf.Bound.Edges| >= d
  }

  /** What an operation does to a flat collection of objects. A removal takes one object with the
    * identifier; it may take none only if none of them overlaps the given box. */
  ghost predicate FlatStep(op: Op, a: multiset<OSMObject>, b: multiset<OSMObject>) {
    match op
    case Insert(o) => b == a + multiset{o}
    case Remove(leaf) =>
      || (exists y :: y in a && y.ID == leaf.ID && a == b + multiset{y})
      || (b == a && forall y :: y in a && y.ID == leaf.ID ==> !Overlaps(y.Bound, leaf.Bound))
  }

  /** A tree that every operation can work on. */
  ghost predicate Usable(rt: Rtree)
    reads rt, rt.Nodes
  {
    Sane(rt) && rt.Skew == 0 && Balanced(rt) && Rooted(rt)
  }

  lemma {:induction false} ObjectIn(S: set<RtreeNode>, y: OSMObject) returns (n: RtreeNode)
    requires y in ObjectsOf(S)
    ensures n in S && n.Leaf == y
  {
    var k :| k in S && ObjectsOf(S) == ObjectsOf(S - {k}) + multiset{k.Leaf};
    if k.Leaf == y {
      n := k;
    } else {
      n := ObjectIn(S - {k}, y);
    }
  }

  /** One operation on a usable tree. If the history stays free of bad splits, the stored objects change
    * as in a flat collection. `top` is the root before a removal shortens the tree: the tree stays usable
    * unless a removal has put a new root on it while orphans went back, or has shrunk a leaf root to one
    * entry. */
  method Step(rt: Rtree, op: Op) returns (ghost top: RtreeNode)
    requires Usable(rt) && OpFits(op, rt.Dimensions)
    modifies rt, rt.Nodes
    ensures old(rt.Splits) <= rt.Splits
    ensures AllPartition(rt.Splits[|old(rt.Splits)|..]) ==> FlatStep(op, old(rt.Contents()), rt.Contents())
    ensures AllPartition(rt.Splits[|old(rt.Splits)|..]) && op.Insert? ==> Usable(rt)
    ensures AllPartition(rt.Splits[|old(rt.Splits)|..]) && op.Remove? && top.h == old(rt.Height) ==>
      old(rt.Root.IsLeaf && |rt.Root.Items| == 2) || Usable(rt)
    ensures op.Remove? ==> top.h >= old(rt.Height) && (top == old(rt.Root) || rt.Splits != old(rt.Splits))
  {
    hide Shaped, Tidy, ObjectsOf, Data, Proper, Reaches, Grafts, Logged, Rtree.Linked, Sound, AllTidy, Partitions, Overlaps,
      Traced, Descends;
    rt.ContentsAreAccounted();
    top := rt.Root;
    match op {
      case Insert(o) =>
        assert o.(Bound := o.Bound) == o;
        ghost var entry, target := rt.InsertLeaf(o.Bound, o, false);
      case Remove(leaf) =>
        ghost var before, stored := rt.Contents(), rt.Linked();
        var deleted;
        ghost var x, gone, trace;
        deleted, x, gone, top, trace := Delete(rt, leaf);
        if deleted {
          if AllPartition(rt.Splits[|old(rt.Splits)|..]) {
            assert before == rt.Contents() + multiset{x.Leaf};
            assert x.Leaf in before && x.Leaf.ID == leaf.ID;
          }
        } else {
          top := rt.Root;
          assert rt.Contents() == before;
          forall y | y in before && y.ID == leaf.ID ensures !Overlaps(y.Bound, leaf.Bound) {
            var d := ObjectIn(stored, y);
            EntryBound(rt, d);
          }
        }
    }
  }

  lemma EntryBound(rt: Rtree, d: RtreeNode)
    requires Sane(rt) && d in rt.Linked()
    ensures d in rt.Nodes && d.h == 0 && d.Bound == d.Leaf.Bound
  {
    At(rt, d);
  }

  /** The flat collection through a run of operations. */
  ghost predicate FlatRun(ops: seq<Op>, trace: seq<multiset<OSMObject>>) {
    |trace| == |ops| + 1 && forall i :: 0 <= i < |ops| ==> FlatStep(ops[i], trace[i], trace[i + 1])
  }

  ghost function Inserted(ops: seq<Op>, y: OSMObject): nat {
    if ops == [] then 0 else
      Inserted(ops[..|ops| - 1], y) + if ops[|ops| - 1] == Insert(y) then 1 else 0
  }

  /** Removals touch no object of another identifier: whatever the others are, y is there as often as it
    * was at the start and has been inserted since. */
  lemma {:induction false} UntouchedStays(ops: seq<Op>, trace: seq<multiset<OSMObject>>, y: OSMObject)
    requires FlatRun(ops, trace) && forall i :: 0 <= i < |ops| && ops[i].Remove? ==> ops[i].leaf.ID != y.ID
    ensures trace[|ops|][y] == trace[0][y] + Inserted(ops, y)
  {
    if ops != [] {
      var n := |ops| - 1;
      var init := ops[..n];
      assert FlatRun(init, trace[..|ops|]) by {
        forall i | 0 <= i < n ensures FlatStep(init[i], trace[..|ops|][i], trace[..|ops|][i + 1]) {
          assert FlatStep(ops[i], trace[i], trace[i + 1]);
        }
      }
      UntouchedStays(init, trace[..|ops|], y);
      assert FlatStep(ops[n], trace[n], trace[n + 1]);
      assert ops[n].Insert? || trace[n + 1][y] == trace[n][y];
    }
  }

  /** A removal takes the one object with its identifier, if that overlaps the given box. */
  lemma RemovalTakesTheOne(leaf: OSMObject, a: multiset<OSMObject>, b: multiset<OSMObject>, y: OSMObject)
    requires FlatStep(Remove(leaf), a, b)
    requires y in a && y.ID == leaf.ID && Overlaps(y.Bound, leaf.Bound) && forall z :: z in a && z.ID == leaf.ID ==> z == y
    ensures b == a - multiset{y}
  {
    hide Overlaps;
    var z :| z in a && z.ID == leaf.ID && a == b + multiset{z};
    assert z == y;
  }

  // ---- a removal that breaks the tree

  const FIRST_OBJECT := OSMObject(1, 0.0, 0.0, map[], Segment(0.0, 1.0))
  const SECOND_OBJECT := OSMObject(2, 0.0, 0.0, map[], Segment(2.0, 3.0))

  /** A tree of two segments, one of which is deleted: the root is then a bare entry. */
  method LeafRootGoes() returns (rt: Rtree)
    ensures rt.Clean && rt.Root.h == 0 && rt.Contents() == multiset{SECOND_OBJECT}
  {
    hide Shaped, Tidy, ObjectsOf, Data, Proper, Reaches, Logged, Rtree.Linked, Partitions, Sound, AllTidy, Overlaps, Traced, Descends;
    var items := [FIRST_OBJECT, SECOND_OBJECT];
    SegmentsFit();
    rt := Build(2, 4, 1, items);
    TwoEntries(rt);
    assert multiset(items) == multiset{FIRST_OBJECT, SECOND_OBJECT};
    var deleted;
    ghost var x, gone, top, trace;
    deleted, x, gone, top, trace := Delete(rt, FIRST_OBJECT);
    if !deleted {
      StillThere(rt);
    }
    assert rt.Splits == [];
    OnlyFirst(rt.Contents(), x.Leaf);
  }

  lemma SegmentsFit()
    ensures Fits(FIRST_OBJECT.Bound, 1) && Fits(SECOND_OBJECT.Bound, 1)
  {}

  lemma TwoEntries(rt: Rtree)
    requires Sane(rt) && rt.Root.IsLeaf && |rt.Linked()| == 2
    ensures |rt.Root.Items| == 2
  {
    LeafIsLow(rt, rt.Root);
    rt.LeafHolds(rt.Root);
    rt.ContentsAreAccounted();
  }

  lemma StillThere(rt: Rtree)
    requires Sane(rt) && rt.Contents() == multiset{FIRST_OBJECT, SECOND_OBJECT}
    ensures exists d :: d in rt.Linked() && d.Leaf.ID == 1 && Overlaps(d.Bound, FIRST_OBJECT.Bound)
  {
    var d := ObjectIn(rt.Linked(), FIRST_OBJECT);
    EntryBound(rt, d);
  }

  lemma OnlyFirst(b: multiset<OSMObject>, y: OSMObject)
    requires multiset{FIRST_OBJECT, SECOND_OBJECT} == b + multiset{y} && y.ID == 1
    ensures b == multiset{SECOND_OBJECT}
  {
    assert y in multiset{FIRST_OBJECT, SECOND_OBJECT};
    assert y == FIRST_OBJECT;
  }

  // ---- small trees, step by step

  lemma OnlyLeaf(rt: Rtree, leaf: RtreeNode)
    requires Sane(rt) && rt.Root.IsLeaf && leaf in rt.Nodes && leaf.IsLeaf
    ensures leaf == rt.Root && leaf.h == 1
  {
    At(rt, leaf);
    At(rt, rt.Root);
    if leaf != rt.Root { At(rt, leaf.Parent); }
  }

  /** An insertion into a leaf root that has room. */
  method FillRoot(rt: Rtree, o: OSMObject) returns (ghost e: RtreeNode)
    requires Sane(rt) && rt.Root.IsLeaf && |rt.Root.Items| < rt.MaxChildItems && Fits(o.Bound, rt.Dimensions)
    modifies rt, rt.Nodes
    ensures fresh(e) && fresh(rt.Nodes - old(rt.Nodes)) && old(rt.Nodes) <= rt.Nodes
    ensures Sane(rt) && rt.Splits == old(rt.Splits) && rt.Root == old(rt.Root) && rt.Skew == old(rt.Skew)
    ensures e.Leaf == o && rt.Root.Items == old(rt.Root.Items) + [e]
    ensures rt.Size == old(rt.Size) + 1 && rt.Linked() == old(rt.Linked()) + {e} && |rt.Linked()| == |old(rt.Linked())| + 1
    ensures rt.Contents() == old(rt.Contents()) + multiset{o}
  {
    hide Shaped, Tidy, ObjectsOf, Data, Proper, Reaches, Grafts, Logged, Rtree.Linked, Rtree.Contents, Sound, AllTidy, Partitions;
    assert o.(Bound := o.Bound) == o;
    forall leaf | leaf in rt.Nodes && leaf.IsLeaf ensures leaf == rt.Root {
      OnlyLeaf(rt, leaf);
    }
    LinkedInside(rt);
    ghost var target;
    e, target := rt.InsertLeaf(o.Bound, o, false);
  }

  /** Insertions that all fit into a leaf root. */
  method FillAll(rt: Rtree, items: seq<OSMObject>) returns (ghost entries: seq<RtreeNode>)
    requires Sane(rt) && rt.Root.IsLeaf && |rt.Root.Items| + |items| <= rt.MaxChildItems
    requires forall i :: 0 <= i < |items| ==> Fits(items[i].Bound, rt.Dimensions)
    modifies rt, rt.Nodes
    ensures fresh(rt.Nodes - old(rt.Nodes)) && |entries| == |items| && forall i :: 0 <= i < |items| ==> entries[i].Leaf == items[i]
    ensures Sane(rt) && rt.Root == old(rt.Root) && rt.Skew == old(rt.Skew) && rt.Root.Items == old(rt.Root.Items) + entries
    ensures rt.Size == old(rt.Size) + |items| && |rt.Linked()| == |old(rt.Linked())| + |items|
    ensures forall d :: d in rt.Linked() ==> d in old(rt.Linked()) || d in entries
  {
    hide Shaped, Tidy, Proper, Reaches, Rtree.Linked, Rtree.Contents, Sound, AllTidy, Logged;
    entries := [];
    for i := 0 to |items|
      invariant fresh(rt.Nodes - old(rt.Nodes)) && |entries| == i && forall j :: 0 <= j < i ==> entries[j].Leaf == items[j]
      invariant Sane(rt) && rt.Root == old(rt.Root) && rt.Skew == old(rt.Skew) && rt.Root.Items == old(rt.Root.Items) + entries
      invariant rt.Size == old(rt.Size) + i && |rt.Linked()| == |old(rt.Linked())| + i
      invariant forall d :: d in rt.Linked() ==> d in old(rt.Linked()) || d in entries
    {
      ghost var e := FillRoot(rt, items[i]);
      entries := entries + [e];
    }
  }

  lemma LinkedInside(rt: Rtree)
    ensures rt.Linked() <= rt.Nodes
  {}

  /** An insertion into a full leaf root: one split, over all the entries and the new one. */
  method OverflowRoot(rt: Rtree, o: OSMObject) returns (ghost e: RtreeNode, ghost r: SplitRecord)
    requires Sane(rt) && rt.Root.IsLeaf && |rt.Root.Items| == rt.MaxChildItems && Fits(o.Bound, rt.Dimensions)
    modifies rt, rt.Nodes
    ensures fresh(e) && e.Leaf == o && (rt.Dimensions == 1 ==> IsOf(r, old(rt.Root.Items) + [e], rt.MinChildItems))
    ensures rt.Valid() && rt.Skew == old(rt.Skew) && rt.Size == old(rt.Size) + 1 && (rt.Clean <==> Partitions(r))
    ensures fresh(rt.Nodes - old(rt.Nodes))
    ensures rt.Clean ==> rt.Linked() == old(rt.Linked()) + {e} && |rt.Linked()| == |old(rt.Linked())| + 1
    ensures rt.Clean ==> rt.Contents() == old(rt.Contents()) + multiset{o}
    ensures rt.Clean ==> rt.Root.h == 2 && |rt.Root.Items| >= 2
  {
    hide Shaped, Tidy, ObjectsOf, Data, Proper, Reaches, Logged, Rtree.Linked, Rtree.Contents, Sound, AllTidy, Partitions, HalfBoxes,
      Overflow, Snapshot;
    assert o.(Bound := o.Bound) == o;
    forall leaf | leaf in rt.Nodes && leaf.IsLeaf ensures leaf == rt.Root && leaf.h == 1 {
      OnlyLeaf(rt, leaf);
    }
    ghost var v, root, count := Snapshot(rt.Nodes), rt.Root, |Data(rt.Nodes)|;
    RootEntries(rt);
    LinkedInside(rt);
    ghost var target;
    e, target := rt.InsertLeaf(o.Bound, o, false);
    r := rt.Splits[|old(rt.Splits)|];
    OverflowBoxes(v, root, e, o.Bound, rt.Bounds());
    if rt.Clean { HigherNow(rt, count + 1); }
  }

  /** The entries of a leaf root, as the split will see them. */
  lemma RootEntries(rt: Rtree)
    requires Sane(rt) && rt.Root.IsLeaf
    ensures var v := Snapshot(rt.Nodes);
      && rt.Root in v && v[rt.Root].items == rt.Root.Items && NoDup(rt.Root.Items) && |rt.Root.Items| == |Data(rt.Nodes)|
      && |v[rt.Root].bound.Edges| == v[rt.Root].bound.Dim <= rt.Dimensions
      && (forall c :: c in rt.Root.Items ==> c in rt.Nodes && c in v && v[c].bound == c.Leaf.Bound)
  {
    hide JoinItems, Proper, Logged;
    OnlyLeaf(rt, rt.Root);
    At(rt, rt.Root);
    rt.LeafHolds(rt.Root);
    forall c | c in rt.Root.Items ensures c in rt.Nodes && c.Bound == c.Leaf.Bound {
      At(rt, c);
    }
  }

  lemma OverflowBoxes(v: map<RtreeNode, NodeView>, p: RtreeNode, e: RtreeNode, b: Box, k: Limits)
    requires p in v && NoDup(v[p].items) && e !in v[p].items && e.Leaf.Bound == b
    requires forall c :: c in v[p].items ==> c in v && v[c].bound == c.Leaf.Bound
    ensures var r := Overflow(v, p, null, ZeroBox, e, b, k);
      && r.items == v[p].items + [e] && NoDup(r.items) && r.setting.d == k.d && r.setting.m == k.m
      && r.setting.bound1 == v[p].bound && r.setting.bound2 == ZeroBox
      && forall i :: 0 <= i < |r.items| ==> r.items[i] in r.setting.box && r.setting.box[r.items[i]] == r.items[i].Leaf.Bound
  {
    NoDupConcat(v[p].items, [e]);
  }

  lemma HigherNow(rt: Rtree, count: nat)
    requires Sane(rt) && |Data(rt.Nodes)| == count > rt.MaxChildItems
    ensures rt.Root.h >= 2
  {
    At(rt, rt.Root);
    if rt.Root.h == 1 { rt.LeafHolds(rt.Root); }
  }

  function SegmentObject(id: int, lo: real, hi: real): OSMObject {
    OSMObject(id, 0.0, 0.0, map[], Segment(lo, hi))
  }

  // ---- an insertion that loses an entry

  /** Three segments go into a tree with two children a node. The third ties with both others, and the
    * tree is not clean any more. */
  method TiedTree() returns (rt: Rtree)
    ensures rt.Valid() && !Sane(rt) && rt.Size == 3
  {
    hide Shaped, Tidy, ObjectsOf, Data, Reaches, Logged, Rtree.Linked, Rtree.Contents, Sound, AllTidy, Partitions, IsOf;
    rt := new Rtree(1, 2, 1);
    EmptyRoot(rt);
    ghost var entries := FillAll(rt, [SegmentObject(1, 0.0, 1.0), SegmentObject(2, 10.0, 11.0)]);
    assert rt.Root.Items == entries;
    ghost var e, r := OverflowRoot(rt, SegmentObject(3, 5.0, 6.0));
    TiedIsBad(r, entries + [e]);
  }

  lemma EmptyRoot(rt: Rtree)
    requires Sane(rt) && rt.Root.IsLeaf && Data(rt.Nodes) == {}
    ensures rt.Root.Items == [] && rt.Linked() == {}
  {
    RootEntries(rt);
    rt.ContentsAreAccounted();
  }

  /** The record is of entries with these objects, on a tree of one dimension. */
  ghost predicate IsOf(r: SplitRecord, entries: seq<RtreeNode>, m: int) {
    && r.items == entries && NoDup(entries) && |entries| >= 2 && r.setting.d == 1 && r.setting.m == m
    && |r.setting.bound1.Edges| == r.setting.bound1.Dim <= 1 && r.setting.bound2 == ZeroBox
    && forall i :: 0 <= i < |entries| ==> entries[i] in r.setting.box && r.setting.box[entries[i]] == entries[i].Leaf.Bound
  }

  lemma IsOnSegments(r: SplitRecord, entries: seq<RtreeNode>, m: int, segments: seq<(real, real)>)
    requires IsOf(r, entries, m) && |entries| == |segments|
    requires forall i :: 0 <= i < |entries| ==>
      segments[i].0 <= segments[i].1 && entries[i].Leaf.Bound == Segment(segments[i].0, segments[i].1)
    ensures OnSegments(r.items, r.setting, segments)
  {}

  lemma TiedIsBad(r: SplitRecord, entries: seq<RtreeNode>)
    requires IsOf(r, entries, 1) && |entries| == 3
    requires entries[0].Leaf == SegmentObject(1, 0.0, 1.0) && entries[1].Leaf == SegmentObject(2, 10.0, 11.0) && entries[2].Leaf == SegmentObject(3, 5.0, 6.0)
    ensures !Partitions(r)
  {
    hide OnSegments, Partitioning;
    IsOnSegments(r, entries, 1, TIED_SEGMENTS);
    CompleteTieLosesEntry(r.items, r.setting);
  }

  lemma PairedIsGood(r: SplitRecord, entries: seq<RtreeNode>)
    requires IsOf(r, entries, 2) && |entries| == 4
    requires entries[0].Leaf == SegmentObject(1, 0.0, 1.0) && entries[1].Leaf == SegmentObject(2, 2.0, 3.0)
    requires entries[2].Leaf == SegmentObject(3, 10.0, 11.0) && entries[3].Leaf == SegmentObject(4, 12.0, 13.0)
    ensures Partitions(r)
  {
    hide OnSegments, Partitioning;
    IsOnSegments(r, entries, 2, PAIRED_SEGMENTS);
    PairsPartition(r.items, r.setting);
    SegmentsDistinct(r.items, r.setting, PAIRED_SEGMENTS);
  }

  // ---- a removal of identifier 0

  /** A tree of one node with the first three of four segments. */
  method ThreeOfFour() returns (rt: Rtree, ghost entries: seq<RtreeNode>)
    ensures fresh(rt) && fresh(rt.Nodes) && Sane(rt) && rt.Skew == 0 && rt.Root.IsLeaf && rt.Root.Items == entries
    ensures rt.MinChildItems == 2 && rt.MaxChildItems == 3 && rt.Dimensions == 1 && rt.Size == 3 && |rt.Linked()| == |entries| == 3
    ensures entries[0].Leaf == SegmentObject(1, 0.0, 1.0) && entries[1].Leaf == SegmentObject(2, 2.0, 3.0) && entries[2].Leaf == SegmentObject(3, 10.0, 11.0)
    ensures forall d :: d in rt.Linked() ==> d in entries
  {
    hide Shaped, Tidy, ObjectsOf, Data, Reaches, Logged, Rtree.Linked, Rtree.Contents, Sound, AllTidy, Partitions;
    rt := new Rtree(2, 3, 1);
    EmptyRoot(rt);
    entries := FillAll(rt, [SegmentObject(1, 0.0, 1.0), SegmentObject(2, 2.0, 3.0), SegmentObject(3, 10.0, 11.0)]);
    assert rt.Root.Items == entries;
  }

  /** A tree of two levels over four segments, numbered from 1. */
  method PairedTree() returns (rt: Rtree)
    ensures fresh(rt) && fresh(rt.Nodes) && Usable(rt) && rt.Root.h == 2 && rt.Size == 4 && rt.MinChildItems == 2 && rt.Dimensions == 1
    ensures |rt.Linked()| == 4 && forall d :: d in rt.Linked() ==> 1 <= d.Leaf.ID <= 4
  {
    hide Shaped, Tidy, ObjectsOf, Data, Reaches, Logged, Rtree.Linked, Rtree.Contents, Sound, AllTidy, Partitions, IsOf;
    ghost var entries;
    rt, entries := ThreeOfFour();
    ghost var e, r := OverflowRoot(rt, SegmentObject(4, 12.0, 13.0));
    PairedIsGood(r, entries + [e]);
    assert rt.Linked() <= (set d | d in entries + [e]);
    NumberedFromOne(rt.Linked(), entries + [e]);
  }

  lemma NumberedFromOne(S: set<RtreeNode>, entries: seq<RtreeNode>)
    requires (forall d :: d in S ==> d in entries) && forall i :: 0 <= i < |entries| ==> 1 <= entries[i].Leaf.ID <= 4
    ensures forall d :: d in S ==> 1 <= d.Leaf.ID <= 4
  {
    forall d | d in S ensures 1 <= d.Leaf.ID <= 4 {
      var i :| 0 <= i < |entries| && entries[i] == d;
    }
  }

  lemma {:induction false} AsManyObjects(S: set<RtreeNode>)
    ensures |ObjectsOf(S)| == |S|
  {
    if S != {} {
      var n :| n in S && ObjectsOf(S) == ObjectsOf(S - {n}) + multiset{n.Leaf};
      AsManyObjects(S - {n});
    }
  }

  /** In a tree of two levels whose nodes have two children or more, a node below the root holds two. */
  lemma TwoBelow(rt: Rtree, x: RtreeNode)
    requires Usable(rt) && rt.Root.h == 2 && x in rt.Nodes && x != rt.Root && x.h >= 1
    ensures x.Parent == rt.Root && |Data(SubtreeOf(x, rt.Nodes))| >= 2
  {
    hide JoinItems, Proper, Logged;
    At(rt, x);
    At(rt, x.Parent);
    if x.Parent != rt.Root { At(rt, x.Parent.Parent); }
    SetOfNoDup(x.Items);
    var kids := set c | c in x.Items;
    forall c | c in kids ensures c in Data(SubtreeOf(x, rt.Nodes)) {
      At(rt, c);
      assert Under(x, x, rt.Nodes);
    }
    Fewer(kids, Data(SubtreeOf(x, rt.Nodes)));
  }

  lemma Fewer(a: set<RtreeNode>, b: set<RtreeNode>)
    requires a <= b
    ensures |a| <= |b|
  {
    assert |b| == |a| + |b - a| by { assert b == a + (b - a); }
  }

  /** No entry of that tree has identifier 0, but deleting it takes out a leaf node with two entries or
    * more, and Size drops by one. */
  method ZeroDropsSubtree() returns (rt: Rtree)
    ensures rt.Clean && rt.Size == 3 && |rt.Contents()| <= 2
  {
    hide Shaped, Tidy, ObjectsOf, Data, Reaches, Logged, Rtree.Linked, Sound, AllTidy, Partitions, Overlaps, Traced, Descends,
      SubtreeOf, Balanced;
    rt := PairedTree();
    AsManyObjects(rt.Linked());
    var leaf := SegmentObject(0, 0.0, 1.0);
    rt.OkFacts();
    NowhereToDescend(rt, rt.Root, leaf.Bound);
    forall x | x in rt.Nodes && x != rt.Root && x.h >= 1 ensures x.Parent == rt.Root && |Data(SubtreeOf(x, rt.Nodes))| >= 2 {
      TwoBelow(rt, x);
    }
    var deleted;
    ghost var x, gone, top, trace;
    deleted, x, gone, top, trace := Delete(rt, leaf);
    AsManyObjects(Data(gone));
  }
}
