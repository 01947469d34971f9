/** Deletion with re-insertion of orphans: pkg/datastructure/rtree.go, lines 740-956. */
module RtreeDelete {
  import opened Boxes
  import opened Collections
  import opened Split
  import opened Rtrees
  import opened RtreeSearch

  /** Group sizes for which underfull nodes can be dissolved: at least two children, at most half. */
  ghost predicate Balanced(rt: Rtree) {
    2 <= rt.MinChildItems && 2 * rt.MinChildItems <= rt.MaxChildItems + 1
  }

  /** An internal root has at least two children. */
  ghost predicate Rooted(rt: Rtree)
    reads rt, rt.Root
  {
    rt.Root.h >= 2 ==> |rt.Root.Items| >= 2
  }

  // ---- FindLeaf, lines 859-885

  /** d is a stored entry below node that carries the identifier. */
  ghost predicate Carries(rt: Rtree, d: RtreeNode, node: RtreeNode, leaf: OSMObject)
    reads rt, rt.Nodes
  {
    d in rt.Nodes && d.h == 0 && Under(d, node, rt.Nodes) && d.Leaf.ID == leaf.ID
  }

  lemma MissedChild(rt: Rtree, c: RtreeNode, leaf: OSMObject)
    requires Sane(rt) && c in rt.Nodes && c != rt.Root && !Overlaps(c.Bound, leaf.Bound)
    ensures NoneCarries(rt, c, leaf)
  {
    MissPrunes(rt, c, leaf.Bound);
    assert FoundAll(rt, [], c, leaf.Bound);
    forall d | d in rt.Nodes && Carries(rt, d, c, leaf) ensures !Overlaps(d.Bound, leaf.Bound) {
      assert !Hit(rt, d, c, leaf.Bound);
    }
  }

  /** Child i is the first whose box overlaps q. */
  ghost predicate FirstOver(items: seq<RtreeNode>, i: nat, q: Box)
    reads items`Bound
  {
    i < |items| && Overlaps(items[i].Bound, q) && forall j :: 0 <= j < i ==> !Overlaps(items[j].Bound, q)
  }

  /** The search for identifier 0 in box q, started at node, ends in a leaf node. Internal nodes stop it,
    * since their children carry identifier 0: above level 2 it looks at the first overlapping child only,
    * and at level 2 at all that overlap, for an entry of that identifier. */
  ghost predicate Descends(node: RtreeNode, q: Box, S: set<RtreeNode>)
    reads S
    decreases node.h
  {
    && node in S && (forall c :: c in node.Items ==> c in S && c.h < node.h)
    && if node.h <= 1 then exists c :: c in node.Items && c.Leaf.ID == 0
       else if node.h == 2 then exists c :: c in node.Items && c.h < node.h && Overlaps(c.Bound, q) && Descends(c, q, S)
       else exists i :: 0 <= i < |node.Items| && FirstOver(node.Items, i, q) && node.Items[i].h < node.h && Descends(node.Items[i], q, S)
  }

  /** x is a, or it and every node between it and a have boxes that overlap q. */
  ghost predicate Along(x: RtreeNode, a: RtreeNode, q: Box, S: set<RtreeNode>)
    reads S
    decreases a.h - x.h
  {
    x in S && (x == a || (Overlaps(x.Bound, q) && x.h < a.h && x.Parent != null && x.h < x.Parent.h && Along(x.Parent, a, q, S)))
  }

  /** d is an entry of the identifier, and only boxes that overlap the given one lie between it and node. */
  ghost predicate Reached(rt: Rtree, d: RtreeNode, node: RtreeNode, leaf: OSMObject)
    reads rt, rt.Nodes
  {
    d in rt.Nodes && d.h == 0 && d.Leaf.ID == leaf.ID && d.Parent != null && Along(d.Parent, node, leaf.Bound, rt.Nodes)
  }

  ghost predicate Sought(rt: Rtree, node: RtreeNode, leaf: OSMObject)
    reads rt, rt.Nodes
  {
    exists d :: d in rt.Nodes && Reached(rt, d, node, leaf)
  }

  /** The way from node down to found, on which no earlier overlapping child leads to an entry. */
  ghost predicate Earliest(rt: Rtree, node: RtreeNode, found: RtreeNode, leaf: OSMObject)
    reads rt, rt.Nodes
    decreases node.h
  {
    found == node || (node in rt.Nodes && (forall c :: c in node.Items ==> c in rt.Nodes) &&
      exists i :: 0 <= i < |node.Items| && node.Items[i].h < node.h && Overlaps(node.Items[i].Bound, leaf.Bound)
        && NoneSought(rt, node.Items[..i], leaf) && Earliest(rt, node.Items[i], found, leaf))
  }

  ghost predicate NoneSought(rt: Rtree, items: seq<RtreeNode>, leaf: OSMObject)
    reads rt, rt.Nodes, items
  {
    forall c :: c in items ==> !Overlaps(c.Bound, leaf.Bound) || !Sought(rt, c, leaf)
  }

  lemma {:induction false} AlongUp(rt: Rtree, x: RtreeNode, c: RtreeNode, node: RtreeNode, q: Box)
    requires Sane(rt) && node in rt.Nodes && c in node.Items && Overlaps(c.Bound, q) && Along(x, c, q, rt.Nodes)
    ensures Along(x, node, q, rt.Nodes)
    decreases c.h - x.h
  {
    hide Overlaps;
    At(rt, node);
    At(rt, c);
    if x != c { AlongUp(rt, x.Parent, c, node, q); }
  }

  lemma {:induction false} AlongDown(rt: Rtree, x: RtreeNode, node: RtreeNode, q: Box) returns (c: RtreeNode)
    requires Sane(rt) && node in rt.Nodes && x != node && Along(x, node, q, rt.Nodes)
    ensures c in node.Items && c in rt.Nodes && Overlaps(c.Bound, q) && Along(x, c, q, rt.Nodes)
    decreases node.h - x.h
  {
    hide Overlaps;
    At(rt, x);
    At(rt, node);
    if x.Parent == node {
      c := x;
    } else {
      c := AlongDown(rt, x.Parent, node, q);
      At(rt, c);
      At(rt, x.Parent);
    }
  }

  lemma SoughtInLeaf(rt: Rtree, node: RtreeNode, leaf: OSMObject)
    requires Sane(rt) && rt.Skew == 0 && node in rt.Nodes && node.h == 1
    ensures Sought(rt, node, leaf) <==> exists c :: c in node.Items && c.Leaf.ID == leaf.ID
  {
    hide Overlaps;
    At(rt, node);
    forall c | c in node.Items && c.Leaf.ID == leaf.ID ensures Reached(rt, c, node, leaf) {
      At(rt, c);
    }
    forall d | d in rt.Nodes && Reached(rt, d, node, leaf) ensures d in node.Items {
      At(rt, d);
      At(rt, d.Parent);
    }
  }

  lemma SoughtVia(rt: Rtree, node: RtreeNode, c: RtreeNode, leaf: OSMObject)
    requires Sane(rt) && node in rt.Nodes && c in node.Items && Overlaps(c.Bound, leaf.Bound) && Sought(rt, c, leaf)
    ensures Sought(rt, node, leaf)
  {
    hide Overlaps, Along;
    var d :| d in rt.Nodes && Reached(rt, d, c, leaf);
    AlongUp(rt, d.Parent, c, node, leaf.Bound);
    assert Reached(rt, d, node, leaf);
  }

  lemma SoughtBelow(rt: Rtree, node: RtreeNode, leaf: OSMObject) returns (c: RtreeNode)
    requires Sane(rt) && rt.Skew == 0 && node in rt.Nodes && node.h >= 2 && Sought(rt, node, leaf)
    ensures c in node.Items && Overlaps(c.Bound, leaf.Bound) && Sought(rt, c, leaf)
  {
    hide Overlaps, Along;
    var d :| d in rt.Nodes && Reached(rt, d, node, leaf);
    At(rt, d);
    NodeFacts(rt, node);
    c := AlongDown(rt, d.Parent, node, leaf.Bound);
    assert Reached(rt, d, c, leaf);
  }

  lemma SoughtNowhere(rt: Rtree, node: RtreeNode, leaf: OSMObject)
    requires Sane(rt) && rt.Skew == 0 && node in rt.Nodes && node.h >= 2 && NoneSought(rt, node.Items, leaf)
    ensures !Sought(rt, node, leaf)
  {
    hide Overlaps, Sought, Sane;
    if Sought(rt, node, leaf) {
      var c := SoughtBelow(rt, node, leaf);
    }
  }

  /** None of the first i children leads the search for 0 anywhere. */
  ghost predicate PassedBy(rt: Rtree, node: RtreeNode, i: nat, q: Box)
    requires i <= |node.Items|
    reads rt, rt.Nodes, node, node.Items
  {
    forall j :: 0 <= j < i ==> !Overlaps(node.Items[j].Bound, q) || (node.h == 2 && !Descends(node.Items[j], q, rt.Nodes))
  }

  ghost predicate NoneCarries(rt: Rtree, node: RtreeNode, leaf: OSMObject)
    reads rt, rt.Nodes
  {
    forall d :: d in rt.Nodes && Carries(rt, d, node, leaf) ==> !Overlaps(d.Bound, leaf.Bound)
  }

  /** What is known once the first i children have been passed over. */
  ghost predicate Passed(rt: Rtree, node: RtreeNode, i: nat, leaf: OSMObject)
    requires i <= |node.Items|
    reads rt, rt.Nodes, node, node.Items
  {
    && (leaf.ID == 0 ==> PassedBy(rt, node, i, leaf.Bound))
    && (leaf.ID != 0 ==> NoneSought(rt, node.Items[..i], leaf))
    && forall j :: 0 <= j < i ==> NoneCarries(rt, node.Items[j], leaf)
  }

  lemma PassNone(rt: Rtree, node: RtreeNode, leaf: OSMObject)
    ensures Passed(rt, node, 0, leaf)
  {}

  lemma PassNext(rt: Rtree, node: RtreeNode, i: nat, leaf: OSMObject)
    requires Sane(rt) && node in rt.Nodes && i < |node.Items| && Passed(rt, node, i, leaf)
    requires Overlaps(node.Items[i].Bound, leaf.Bound) ==> NoneCarries(rt, node.Items[i], leaf)
    requires Overlaps(node.Items[i].Bound, leaf.Bound) ==>
      if leaf.ID == 0 then node.h == 2 && !Descends(node.Items[i], leaf.Bound, rt.Nodes) else !Sought(rt, node.Items[i], leaf)
    ensures Passed(rt, node, i + 1, leaf)
  {
    hide Overlaps, Sought, Descends, Sane, NoneCarries;
    var item := node.Items[i];
    assert node.Items[..i + 1] == node.Items[..i] + [item];
    if !Overlaps(item.Bound, leaf.Bound) {
      ChildFacts(rt, node, item);
      MissedChild(rt, item, leaf);
    }
  }

  lemma PassFound(rt: Rtree, node: RtreeNode, i: nat, leaf: OSMObject, found: RtreeNode)
    requires Sane(rt) && rt.Skew == 0 && node in rt.Nodes && node.h >= 2 && i < |node.Items| && Passed(rt, node, i, leaf)
    requires Overlaps(node.Items[i].Bound, leaf.Bound) && 1 <= found.h <= node.Items[i].h
    requires if leaf.ID == 0 then Descends(node.Items[i], leaf.Bound, rt.Nodes) <==> found.h == 1
             else Sought(rt, node.Items[i], leaf) && Earliest(rt, node.Items[i], found, leaf)
    ensures if leaf.ID == 0 then Descends(node, leaf.Bound, rt.Nodes) <==> found.h == 1
            else Sought(rt, node, leaf) && Earliest(rt, node, found, leaf)
  {
    hide Overlaps, Sought, Descends, Sane, NoneCarries;
    NodeFacts(rt, node);
    assert node.Items[i] in node.Items;
    if leaf.ID == 0 {
      DescendsVia(rt, node, i, leaf.Bound);
    } else {
      SoughtVia(rt, node, node.Items[i], leaf);
    }
  }

  lemma PassedAll(rt: Rtree, node: RtreeNode, leaf: OSMObject)
    requires Sane(rt) && rt.Skew == 0 && node in rt.Nodes && node.h >= 2 && Passed(rt, node, |node.Items|, leaf)
    ensures leaf.ID == 0 ==> !Descends(node, leaf.Bound, rt.Nodes)
    ensures leaf.ID != 0 ==> !Sought(rt, node, leaf)
    ensures NoneCarries(rt, node, leaf) && ((exists c :: c in node.Items && c.Leaf.ID == leaf.ID) <==> leaf.ID == 0)
  {
    hide Overlaps, Sought, Descends, Sane, Carries;
    NodeFacts(rt, node);
    FirstChild(rt, node);
    assert node.Items[..|node.Items|] == node.Items && node.Items[0] in node.Items;
    if leaf.ID == 0 { DescendsNowhere(rt, node, leaf.Bound); } else { SoughtNowhere(rt, node, leaf); }
    forall c | c in node.Items ensures c.Leaf.ID == 0 { NodeFacts(rt, c); }
    forall d | d in rt.Nodes && Carries(rt, d, node, leaf) ensures !Overlaps(d.Bound, leaf.Bound) {
      var j := CarriedBelow(rt, d, node, leaf);
      assert NoneCarries(rt, node.Items[j], leaf);
    }
  }

  lemma InLeafNode(rt: Rtree, node: RtreeNode, leaf: OSMObject)
    requires Sane(rt) && rt.Skew == 0 && node in rt.Nodes && node.h == 1
    ensures var here := exists c :: c in node.Items && c.Leaf.ID == leaf.ID;
      && (leaf.ID == 0 ==> (Descends(node, leaf.Bound, rt.Nodes) <==> here))
      && (Sought(rt, node, leaf) <==> here) && (!here ==> NoneCarries(rt, node, leaf))
  {
    hide Overlaps, Sought, Descends, Sane, Carries;
    DescendsInLeaf(rt, node, leaf.Bound);
    SoughtInLeaf(rt, node, leaf);
    forall d | d in rt.Nodes && Carries(rt, d, node, leaf) ensures d in node.Items && d.Leaf.ID == leaf.ID {
      var j := CarriedBelow(rt, d, node, leaf);
      CarriedIs(rt, d, node.Items[j], leaf);
    }
  }

  lemma CarriedIs(rt: Rtree, d: RtreeNode, node: RtreeNode, leaf: OSMObject)
    requires Carries(rt, d, node, leaf)
    ensures d.Leaf.ID == leaf.ID
  {}

  /** Whether a child carries the identifier: lines 879-883. */
  method HasRecord(node: RtreeNode, id: int) returns (has: bool)
    ensures has <==> exists c :: c in node.Items && c.Leaf.ID == id
  {
    for i := 0 to |node.Items|
      invariant forall j :: 0 <= j < i ==> node.Items[j].Leaf.ID != id
    {
      if node.Items[i].Leaf.ID == id {
        assert node.Items[i] in node.Items;
        return true;
      }
    }
    return false;
  }

  /** FindLeaf: for an identifier other than 0, the leaf node with an entry of it that is reached first
    * through overlapping boxes, if there is one; none that overlaps the given box is missed. Nodes carry
    * identifier 0 themselves: looking for 0 always finds something in a tree of more than one level, a
    * leaf node exactly if the search descends to one. */
  method FindLeaf(rt: Rtree, leaf: OSMObject, node: RtreeNode, level: int) returns (found: RtreeNode?, leafLevel: int)
    requires Sane(rt) && rt.Skew == 0 && node in rt.Nodes && node.h >= 1
    requires |leaf.Bound.Edges| >= rt.Dimensions
    ensures found != null ==> found in rt.Nodes && 1 <= found.h <= node.h && leafLevel == level + node.h - found.h
    ensures found != null ==> exists item :: item in found.Items && item.Leaf.ID == leaf.ID
    ensures leaf.ID != 0 && found != null ==> found.IsLeaf && found.h == 1
    ensures leaf.ID != 0 ==> (found != null <==> Sought(rt, node, leaf))
    ensures leaf.ID != 0 && found != null ==> Earliest(rt, node, found, leaf)
    ensures leaf.ID == 0 && node.h >= 2 ==> found != null
    ensures leaf.ID == 0 ==> (Descends(node, leaf.Bound, rt.Nodes) <==> found != null && found.h == 1)
    ensures found == null ==> NoneCarries(rt, node, leaf)
    decreases node.h
  {
    hide Tidy, Overlaps, Proper, Sane, Shaped, Descends, Sought, Earliest, Passed, NoneCarries;
    NodeFacts(rt, node);
    if node.IsLeaf {
      InLeafNode(rt, node, leaf);
    } else {
      PassNone(rt, node, leaf);
      for i := 0 to |node.Items|
        invariant Passed(rt, node, i, leaf)
      {
        var item := node.Items[i];
        ChildFacts(rt, node, item);
        NodeFacts(rt, item);
        var overlap := CheckOverlap(item.Bound, leaf.Bound);
        if overlap {
          var foundNode, foundLevel := FindLeaf(rt, leaf, item, level + 1);
          if foundNode != null {
            PassFound(rt, node, i, leaf, foundNode);
            return foundNode, foundLevel;
          }
        }
        PassNext(rt, node, i, leaf);
      }
      PassedAll(rt, node, leaf);
    }
    var has := HasRecord(node, leaf.ID);
    if has {
      EarliestHere(rt, node, leaf);
      return node, level;
    }
    found, leafLevel := null, 0;
  }

  lemma EarliestHere(rt: Rtree, node: RtreeNode, leaf: OSMObject)
    ensures Earliest(rt, node, node, leaf)
  {}

  lemma DescendsInLeaf(rt: Rtree, node: RtreeNode, q: Box)
    requires Sane(rt) && rt.Skew == 0 && node in rt.Nodes && node.h >= 1
    ensures node.h == 1 ==> (Descends(node, q, rt.Nodes) <==> exists c :: c in node.Items && c.Leaf.ID == 0)
  {
    NodeFacts(rt, node);
  }

  lemma DescendsVia(rt: Rtree, node: RtreeNode, i: nat, q: Box)
    requires Sane(rt) && rt.Skew == 0 && node in rt.Nodes && node.h >= 2 && i < |node.Items|
    requires PassedBy(rt, node, i, q) && Overlaps(node.Items[i].Bound, q)
    ensures node.h == 2 && Descends(node.Items[i], q, rt.Nodes) ==> Descends(node, q, rt.Nodes)
    ensures node.h >= 3 ==> (Descends(node.Items[i], q, rt.Nodes) <==> Descends(node, q, rt.Nodes))
  {
    hide Overlaps, Sane;
    NodeFacts(rt, node);
    assert node.Items[i] in node.Items;
    assert node.h >= 3 ==> FirstOver(node.Items, i, q);
    forall j | 0 <= j < |node.Items| && FirstOver(node.Items, j, q) && node.h >= 3 ensures j == i {}
  }

  lemma DescendsNowhere(rt: Rtree, node: RtreeNode, q: Box)
    requires Sane(rt) && rt.Skew == 0 && node in rt.Nodes && node.h >= 2 && PassedBy(rt, node, |node.Items|, q)
    ensures !Descends(node, q, rt.Nodes)
  {
    hide Overlaps, Sane;
    NodeFacts(rt, node);
    if node.h == 2 {
      forall c | c in node.Items ensures !Overlaps(c.Bound, q) || !Descends(c, q, rt.Nodes) {
        var j :| 0 <= j < |node.Items| && node.Items[j] == c;
      }
    }
  }

  /** Where no entry carries identifier 0, the search for it never ends in a leaf node. */
  lemma {:induction false} NowhereToDescend(rt: Rtree, node: RtreeNode, q: Box)
    requires Sane(rt) && rt.Skew == 0 && node in rt.Nodes && node.h >= 1
    requires forall d :: d in rt.Linked() ==> d.Leaf.ID != 0
    ensures !Descends(node, q, rt.Nodes)
    decreases node.h
  {
    hide Overlaps, Reaches, Logged, Shaped, Tidy;
    rt.ContentsAreAccounted();
    NodeFacts(rt, node);
    forall c | c in node.Items ensures (node.h == 1 ==> c.Leaf.ID != 0) && (node.h >= 2 ==> !Descends(c, q, rt.Nodes)) {
      if node.h >= 2 {
        NowhereToDescend(rt, c, q);
      } else {
        assert c in Data(rt.Nodes);
      }
    }
  }

  lemma FirstChild(rt: Rtree, n: RtreeNode)
    requires Sane(rt) && rt.Skew == 0 && n in rt.Nodes && n.h >= 2
    ensures |n.Items| > 0 && n.Items[0] in rt.Nodes && n.Items[0].Leaf.ID == 0
  {
    At(rt, n);
    assert n.Items[0] in n.Items;
    At(rt, n.Items[0]);
  }

  lemma NodeFacts(rt: Rtree, n: RtreeNode)
    requires Sane(rt) && rt.Skew == 0 && n in rt.Nodes
    ensures n.IsLeaf <==> n.h == 1
    ensures n.h >= 1 ==> n.Leaf.ID == 0
    ensures forall c :: c in n.Items ==> c in rt.Nodes && c.h + 1 == n.h
  {
    At(rt, n);
  }

  lemma CarriedBelow(rt: Rtree, d: RtreeNode, node: RtreeNode, leaf: OSMObject) returns (j: nat)
    requires Sane(rt) && rt.Skew == 0 && node in rt.Nodes && node.h >= 1 && Carries(rt, d, node, leaf)
    ensures j < |node.Items| && node.Items[j] in rt.Nodes && Carries(rt, d, node.Items[j], leaf)
    ensures node.h == 1 ==> node.Items[j] == d
  {
    var c := UnderChild(rt, d, node);
    j :| 0 <= j < |node.Items| && node.Items[j] == c;
    NodeFacts(rt, node);
    assert c != d ==> d.h < c.h;
  }

  // ---- subtrees cut loose

  /** The nodes at or below a. */
  ghost function SubtreeOf(a: RtreeNode, S: set<RtreeNode>): set<RtreeNode>
    reads S
  {
    set d | d in S && Under(d, a, S)
  }

  /** A well-formed tree of its own with root c, and itself a well-filled node. */
  ghost predicate Whole(S: set<RtreeNode>, c: RtreeNode, d: nat, m: int, M: int)
    reads S
  {
    && Sound(S, c, 0, d, null) && AllTidy(S, c, 0, d, m, M, null, null, null)
    && Fits(c.Bound, d) && (c.h >= 1 ==> c.Items != [] && m <= |c.Items|)
  }

  /** The state while deletion climbs: only x may have a stale bound and too few children. */
  ghost predicate Mostly(rt: Rtree, x: RtreeNode?)
    reads rt, rt.Nodes
  {
    rt.Ok(x, null, x) && rt.Clean && rt.Skew == 0 && Balanced(rt)
  }

  lemma MostlyAt(rt: Rtree, n: RtreeNode, x: RtreeNode?)
    requires Mostly(rt, x) && n in rt.Nodes
    ensures Shaped(n, rt.Nodes, rt.Root, 0, rt.Dimensions, null)
    ensures Tidy(n, rt.Root, rt.MinChildItems, rt.MaxChildItems, x, null, x)
  {
    assert Tidy(n, rt.Root, rt.MinChildItems, rt.MaxChildItems, x, null, x);
  }

  lemma UnderLevel(d: RtreeNode, a: RtreeNode, S: set<RtreeNode>)
    requires Under(d, a, S)
    ensures d in S && d.h <= a.h && (d != a ==> d.h < a.h && d.Parent != null && d.Parent in S && Under(d.Parent, a, S))
  {}

  /** The subtree of a child of x is a well-formed tree of its own. */
  lemma SubtreeWhole(rt: Rtree, c: RtreeNode, x: RtreeNode)
    requires Mostly(rt, x) && x in rt.Nodes && c in x.Items
    ensures c in SubtreeOf(c, rt.Nodes)
    ensures Whole(SubtreeOf(c, rt.Nodes), c, rt.Dimensions, rt.MinChildItems, rt.MaxChildItems)
  {
    hide Proper, JoinItems, NoDup;
    var S, m, M := SubtreeOf(c, rt.Nodes), rt.MinChildItems, rt.MaxChildItems;
    MostlyAt(rt, x, x);
    MostlyAt(rt, c, x);
    assert Under(c, c, rt.Nodes);
    forall n | n in S ensures Shaped(n, S, c, 0, rt.Dimensions, null) && Tidy(n, c, m, M, null, null, null) {
      MostlyAt(rt, n, x);
      UnderLevel(n, c, rt.Nodes);
      forall y | y in n.Items ensures y in S && y != c {
        MostlyAt(rt, y, x);
      }
    }
  }

  lemma {:induction false} SubtreesApart(rt: Rtree, d: RtreeNode, c1: RtreeNode, c2: RtreeNode, x: RtreeNode)
    requires Mostly(rt, x) && x in rt.Nodes && c1 in x.Items && c2 in x.Items
    requires Under(d, c1, rt.Nodes) && Under(d, c2, rt.Nodes)
    ensures c1 == c2
    decreases x.h - d.h
  {
    hide Proper, JoinItems, NoDup;
    MostlyAt(rt, x, x);
    MostlyAt(rt, d, x);
    if d != c1 && d != c2 {
      UnderLevel(d, c1, rt.Nodes);
      SubtreesApart(rt, d.Parent, c1, c2, x);
    }
  }

  lemma {:induction false} BelowSomeChild(rt: Rtree, d: RtreeNode, x: RtreeNode) returns (c: RtreeNode)
    requires Mostly(rt, x) && x in rt.Nodes && Under(d, x, rt.Nodes) && d != x
    ensures c in x.Items && Under(d, c, rt.Nodes)
    decreases x.h - d.h
  {
    hide Proper, JoinItems, NoDup;
    MostlyAt(rt, d, x);
    MostlyAt(rt, x, x);
    UnderLevel(d, x, rt.Nodes);
    assert x.h <= rt.Root.h;
    if d.Parent == x {
      c := d;
      assert Under(d, d, rt.Nodes);
    } else {
      c := BelowSomeChild(rt, d.Parent, x);
      MostlyAt(rt, c, x);
      UnderLevel(d.Parent, c, rt.Nodes);
    }
  }

  lemma {:induction false} UnderVia(rt: Rtree, d: RtreeNode, c: RtreeNode, x: RtreeNode)
    requires Mostly(rt, x) && x in rt.Nodes && c in x.Items && Under(d, c, rt.Nodes)
    ensures Under(d, x, rt.Nodes) && d != x
    decreases c.h - d.h
  {
    hide Proper, JoinItems, NoDup;
    MostlyAt(rt, x, x);
    MostlyAt(rt, c, x);
    UnderLevel(d, c, rt.Nodes);
    if d == c {
      assert Under(x, x, rt.Nodes);
    } else {
      MostlyAt(rt, d, x);
      UnderVia(rt, d.Parent, c, x);
    }
  }

  // ---- orphans

  /** Subtrees waiting to be put back: their tops in order, the nodes of each, and all of them. */
  datatype Limbo = Limbo(tops: seq<RtreeNode>, sub: map<RtreeNode, set<RtreeNode>>, all: set<RtreeNode>)

  ghost predicate TopOk(w: Limbo, c: RtreeNode, d: nat, m: int, M: int)
    reads w.all
  {
    c in w.sub && c in w.sub[c] && w.sub[c] <= w.all && Whole(w.sub[c], c, d, m, M)
  }

  ghost predicate Apart(w: Limbo, c1: RtreeNode, c2: RtreeNode) {
    c1 in w.sub && c2 in w.sub && w.sub[c1] !! w.sub[c2]
  }

  ghost predicate LimboOk(w: Limbo, d: nat, m: int, M: int)
    reads w.all
  {
    && NoDup(w.tops)
    && (forall c {:trigger TopOk(w, c, d, m, M)} :: c in w.tops ==> TopOk(w, c, d, m, M))
    && (forall c1, c2 {:trigger Apart(w, c1, c2)} :: c1 in w.tops && c2 in w.tops && c1 != c2 ==> Apart(w, c1, c2))
    && (forall x {:trigger InLimbo(w, x)} :: x in w.all ==> InLimbo(w, x))
  }

  ghost predicate InLimbo(w: Limbo, x: RtreeNode) {
    exists c :: c in w.tops && c in w.sub && x in w.sub[c]
  }

  /** The children of x as orphans. */
  ghost function OrphansOf(x: RtreeNode, S: set<RtreeNode>): Limbo
    reads x, S
  {
    Limbo(x.Items, map c | c in x.Items :: SubtreeOf(c, S), SubtreeOf(x, S) - {x})
  }

  lemma OrphansOk(rt: Rtree, x: RtreeNode)
    requires Mostly(rt, x) && x in rt.Nodes
    ensures LimboOk(OrphansOf(x, rt.Nodes), rt.Dimensions, rt.MinChildItems, rt.MaxChildItems)
    ensures OrphansOf(x, rt.Nodes).all <= rt.Nodes
  {
    hide Proper, JoinItems, Whole, Tidy, Shaped, Mostly;
    var w := OrphansOf(x, rt.Nodes);
    assert NoDup(x.Items) by { MostlyAt(rt, x, x); ItemsDistinct(x, rt.Root, rt.MinChildItems, rt.MaxChildItems); }
    forall c | c in w.tops ensures TopOk(w, c, rt.Dimensions, rt.MinChildItems, rt.MaxChildItems) {
      SubtreeWhole(rt, c, x);
      forall y | y in w.sub[c] ensures y in w.all {
        UnderVia(rt, y, c, x);
      }
    }
    forall c1, c2 | c1 in w.tops && c2 in w.tops && c1 != c2 ensures Apart(w, c1, c2) {
      forall y | y in w.sub[c1] && y in w.sub[c2] ensures false {
        SubtreesApart(rt, y, c1, c2, x);
      }
    }
    forall y | y in w.all ensures InLimbo(w, y) {
      var c := BelowSomeChild(rt, y, x);
      UnderLevel(y, c, rt.Nodes);
      assert y in w.sub[c];
    }
  }

  lemma ItemsDistinct(x: RtreeNode, R: RtreeNode, m: int, M: int)
    requires Tidy(x, R, m, M, x, null, x)
    ensures NoDup(x.Items)
  {}

  /** Two disjoint collections of orphans, one after the other. */
  ghost function LimboPlus(a: Limbo, b: Limbo): Limbo {
    Limbo(a.tops + b.tops, a.sub + b.sub, a.all + b.all)
  }

  lemma LimboPlusTop(a: Limbo, b: Limbo, c: RtreeNode, d: nat, m: int, M: int)
    requires LimboOk(a, d, m, M) && LimboOk(b, d, m, M) && a.all !! b.all
    requires forall x :: x in b.sub ==> x in b.tops
    requires c in a.tops || c in b.tops
    ensures TopOk(LimboPlus(a, b), c, d, m, M)
    ensures c in a.tops ==> c !in b.tops && c in a.sub && LimboPlus(a, b).sub[c] == a.sub[c] <= a.all
    ensures c in b.tops ==> c in b.sub && LimboPlus(a, b).sub[c] == b.sub[c] <= b.all
  {
    hide Whole;
    if c in b.tops { assert TopOk(b, c, d, m, M); }
    if c in a.tops { assert TopOk(a, c, d, m, M); }
  }

  lemma LimboPlusOk(a: Limbo, b: Limbo, d: nat, m: int, M: int)
    requires LimboOk(a, d, m, M) && LimboOk(b, d, m, M) && a.all !! b.all
    requires forall c :: c in b.sub ==> c in b.tops
    ensures LimboOk(LimboPlus(a, b), d, m, M)
  {
    hide Whole;
    var w := LimboPlus(a, b);
    forall c | c in w.tops ensures TopOk(w, c, d, m, M) && (c in a.tops ==> c !in b.tops) {
      LimboPlusTop(a, b, c, d, m, M);
    }
    forall c1, c2 | c1 in w.tops && c2 in w.tops && c1 != c2 ensures Apart(w, c1, c2) {
      LimboPlusTop(a, b, c1, d, m, M);
      LimboPlusTop(a, b, c2, d, m, M);
      if c1 in a.tops && c2 in a.tops {
        assert Apart(a, c1, c2);
      } else if c1 !in a.tops && c2 !in a.tops {
        assert Apart(b, c1, c2);
      }
    }
    NoDupConcat(a.tops, b.tops);
    forall x | x in w.all ensures InLimbo(w, x) {
      if x in a.all {
        assert InLimbo(a, x);
        var c :| c in a.tops && c in a.sub && x in a.sub[c];
        LimboPlusTop(a, b, c, d, m, M);
      } else {
        assert InLimbo(b, x);
        var c :| c in b.tops && c in b.sub && x in b.sub[c];
        LimboPlusTop(a, b, c, d, m, M);
      }
    }
  }

  /** What is left once the first orphan is taken out. */
  ghost function LimboTail(w: Limbo): Limbo
    requires w.tops != [] && w.tops[0] in w.sub
  {
    Limbo(w.tops[1..], w.sub, w.all - w.sub[w.tops[0]])
  }

  lemma LimboRest(w: Limbo, d: nat, m: int, M: int)
    requires LimboOk(w, d, m, M) && w.tops != []
    ensures TopOk(w, w.tops[0], d, m, M) && LimboOk(LimboTail(w), d, m, M)
  {
    hide Whole;
    var c0 := w.tops[0];
    assert TopOk(w, c0, d, m, M);
    var rest := LimboTail(w);
    assert w.tops == [c0] + rest.tops;
    forall c | c in rest.tops ensures c in w.tops && c != c0 {
      var i :| 0 <= i < |rest.tops| && rest.tops[i] == c;
      assert w.tops[i + 1] == c;
    }
    forall c | c in rest.tops ensures TopOk(rest, c, d, m, M) {
      assert TopOk(w, c, d, m, M) && Apart(w, c0, c);
    }
    forall c1, c2 | c1 in rest.tops && c2 in rest.tops && c1 != c2 ensures Apart(rest, c1, c2) {
      assert Apart(w, c1, c2);
    }
    forall x | x in rest.all ensures InLimbo(rest, x) {
      assert InLimbo(w, x);
      var c :| c in w.tops && c in w.sub && x in w.sub[c];
      assert c in rest.tops;
    }
  }

  // ---- taking an entry out of its parent

  /** Overwrite entry i with the last one and shorten, as lines 753-754 and 843-844 do. */
  function SwapRemove<T>(s: seq<T>, i: nat): seq<T>
    requires i < |s|
  {
    s[i := s[|s| - 1]][..|s| - 1]
  }

  lemma SwapRemoveMembers<T>(s: seq<T>, i: nat)
    requires i < |s| && NoDup(s)
    ensures NoDup(SwapRemove(s, i))
    ensures forall x :: x in SwapRemove(s, i) ==> x in s && x != s[i]
    ensures forall x :: x in s && x != s[i] ==> x in SwapRemove(s, i)
  {
    var r, last := SwapRemove(s, i), |s| - 1;
    forall x | x in s && x != s[i] ensures x in r {
      var k :| 0 <= k < |s| && s[k] == x;
      assert r[if k == last then i else k] == x;
    }
    forall x | x in r ensures x in s && x != s[i] {
      var k :| 0 <= k < |r| && r[k] == x;
      assert x == s[if k == i then last else k];
    }
  }

  /** What DropEntry changes: p loses child n, and n's subtree leaves the tree. */
  twostate predicate DroppedIn(S: set<RtreeNode>, Gone: set<RtreeNode>, p: RtreeNode, n: RtreeNode)
    reads S, p
  {
    && p in S && n in S && p != n && p !in Gone && n in Gone
    && (forall x :: x in S ==> x.Bound == old(x.Bound) && x.Parent == old(x.Parent))
    && (forall x :: x in S && x != p ==> x.Items == old(x.Items))
    && NoDup(p.Items)
    && (forall c :: c in p.Items ==> c in old(p.Items) && c != n)
    && (forall c :: c in old(p.Items) && c != n ==> c in p.Items)
    && n.Parent == p && n in old(p.Items)
  }

  twostate lemma DroppedShaped(new x: RtreeNode, S: set<RtreeNode>, new Gone: set<RtreeNode>, new R: RtreeNode,
                               new d: nat, new p: RtreeNode, new n: RtreeNode)
    requires old(allocated(x)) && old(allocated(Gone)) && old(allocated(R)) && old(allocated(p)) && old(allocated(n))
    requires DroppedIn(S, Gone, p, n) && x in S && x !in Gone
    requires old(Shaped(x, S, R, 0, d, null))
    requires x == p ==> p.Items != [] || (p == R && p.h == 1)
    requires forall c :: c in old(x.Items) && c in Gone ==> c == n && x == p
    requires x != R ==> x.Parent !in Gone
    ensures Shaped(x, S - Gone, R, 0, d, null)
  {
    hide NoDup, Proper;
    assert x != p ==> x.Items == old(x.Items);
    forall c | c in x.Items ensures c in old(x.Items) && c !in Gone {
    }
  }

  twostate lemma DroppedTidy(new x: RtreeNode, S: set<RtreeNode>, new Gone: set<RtreeNode>, new R: RtreeNode,
                             new d: nat, new m: int, new M: int, new p: RtreeNode, new n: RtreeNode)
    requires old(allocated(x)) && old(allocated(Gone)) && old(allocated(R)) && old(allocated(p)) && old(allocated(n))
    requires DroppedIn(S, Gone, p, n) && x in S && x !in Gone
    requires old(Shaped(x, S, R, 0, d, null)) && old(Tidy(x, R, m, M, n, null, n))
    ensures Tidy(x, R, m, M, p, null, p)
  {
    hide JoinItems, NoDup;
    if x != p {
      assert JoinItems(x.Items) == old(JoinItems(x.Items));
    }
  }

  /** A node outside the subtree of n has no child inside it but n, and no parent inside it. */
  lemma OutsideSubtree(rt: Rtree, n: RtreeNode, x: RtreeNode)
    requires Mostly(rt, n) && n in rt.Nodes && n != rt.Root && x in rt.Nodes && x !in SubtreeOf(n, rt.Nodes)
    ensures forall c :: c in x.Items && c in SubtreeOf(n, rt.Nodes) ==> c == n && x == n.Parent
    ensures x != rt.Root ==> x.Parent !in SubtreeOf(n, rt.Nodes)
  {
    hide JoinItems, NoDup, Proper;
    MostlyAt(rt, x, n);
    MostlyAt(rt, n, n);
    forall c | c in x.Items && c in SubtreeOf(n, rt.Nodes) ensures c == n && x == n.Parent {
      UnderLevel(c, n, rt.Nodes);
    }
    assert x != rt.Root && x.Parent in SubtreeOf(n, rt.Nodes) ==> Under(x, n, rt.Nodes);
  }

  lemma DropFacts(rt: Rtree, p: RtreeNode, idx: nat)
    requires p in rt.Nodes && idx < |p.Items| && Mostly(rt, p.Items[idx])
    ensures var n := p.Items[idx];
      && n in rt.Nodes && n != rt.Root && n.Parent == p && n in SubtreeOf(n, rt.Nodes) && p !in SubtreeOf(n, rt.Nodes) && NoDup(p.Items)
      && rt.Root !in SubtreeOf(n, rt.Nodes)
  {
    var n := p.Items[idx];
    assert n in p.Items;
    MostlyAt(rt, p, n);
    MostlyAt(rt, n, n);
    MostlyAt(rt, rt.Root, n);
    assert Under(n, n, rt.Nodes);
    if p in SubtreeOf(n, rt.Nodes) { UnderLevel(p, n, rt.Nodes); }
    if rt.Root in SubtreeOf(n, rt.Nodes) { UnderLevel(rt.Root, n, rt.Nodes); }
  }

  /** Entry idx of p leaves p, and its subtree leaves the tree. */
  method DropEntry(rt: Rtree, p: RtreeNode, idx: nat) returns (ghost gone: set<RtreeNode>)
    requires p in rt.Nodes && idx < |p.Items| && Mostly(rt, p.Items[idx])
    requires |p.Items| >= 2 || (p == rt.Root && p.h == 1)
    modifies rt`Nodes, p`Items
    ensures gone == old(SubtreeOf(p.Items[idx], rt.Nodes)) && rt.Nodes == old(rt.Nodes) - gone
    ensures p in rt.Nodes && Mostly(rt, p) && |p.Items| == |old(p.Items)| - 1
  {
    hide Shaped, Tidy, JoinItems, NoDup, Proper, Under, SubtreeOf;
    DropFacts(rt, p, idx);
    ghost var n, S := p.Items[idx], rt.Nodes;
    gone := SubtreeOf(n, S);
    forall x | x in S && x !in gone
      ensures (forall c :: c in x.Items && c in gone ==> c == n && x == p) && (x != rt.Root ==> x.Parent !in gone)
    {
      OutsideSubtree(rt, n, x);
    }
    SwapRemoveMembers(p.Items, idx);
    p.Items := SwapRemove(p.Items, idx);
    rt.Nodes := rt.Nodes - gone;
    DroppedAll(rt, S, gone, p, n);
  }

  twostate lemma DroppedAll(new rt: Rtree, S: set<RtreeNode>, new gone: set<RtreeNode>, new p: RtreeNode,
                            new n: RtreeNode)
    requires old(allocated(rt)) && old(allocated(gone)) && old(allocated(p)) && old(allocated(n))
    requires S == old(rt.Nodes) && old(Mostly(rt, n)) && DroppedIn(S, gone, p, n)
    requires rt.Nodes == S - gone && rt.Root == old(rt.Root) && rt.Root !in gone && rt.Skew == old(rt.Skew)
    requires rt.Clean == old(rt.Clean) && rt.Splits == old(rt.Splits)
    requires p.Items != [] || (p == rt.Root && p.h == 1)
    requires forall x :: x in S && x !in gone ==> forall c :: c in old(x.Items) && c in gone ==> c == n && x == p
    requires forall x :: x in S && x !in gone && x != rt.Root ==> x.Parent !in gone
    ensures Mostly(rt, p)
  {
    hide Shaped, Tidy, JoinItems, NoDup, Proper;
    forall x | x in rt.Nodes ensures Shaped(x, rt.Nodes, rt.Root, 0, rt.Dimensions, null) {
      assert old(Shaped(x, S, rt.Root, 0, rt.Dimensions, null));
      DroppedShaped(x, S, gone, rt.Root, rt.Dimensions, p, n);
    }
    forall x | x in rt.Nodes ensures Tidy(x, rt.Root, rt.MinChildItems, rt.MaxChildItems, p, null, p) {
      assert old(Tidy(x, rt.Root, rt.MinChildItems, rt.MaxChildItems, n, null, n));
      DroppedTidy(x, S, gone, rt.Root, rt.Dimensions, rt.MinChildItems, rt.MaxChildItems, p, n);
    }
  }

  // ---- bounds on the way up

  lemma SizedOk(rt: Rtree, n: RtreeNode)
    requires Mostly(rt, n) && n in rt.Nodes
    requires |n.Items| <= rt.MaxChildItems && (n == rt.Root || rt.MinChildItems <= |n.Items|)
    ensures rt.Ok(n, null, null)
    ensures n == rt.Root && n.Items == [] ==> rt.Ok(null, null, null)
  {
    hide Shaped, JoinItems, NoDup, Proper;
    forall x | x in rt.Nodes ensures Tidy(x, rt.Root, rt.MinChildItems, rt.MaxChildItems, n, null, null) {
      assert Tidy(x, rt.Root, rt.MinChildItems, rt.MaxChildItems, n, null, n);
    }
    if n == rt.Root && n.Items == [] {
      forall x | x in rt.Nodes ensures Tidy(x, rt.Root, rt.MinChildItems, rt.MaxChildItems, null, null, null) {
        assert Tidy(x, rt.Root, rt.MinChildItems, rt.MaxChildItems, n, null, n);
      }
    }
    forall x | x in rt.Nodes ensures Shaped(x, rt.Nodes, rt.Root, rt.Skew, rt.Dimensions, null) {}
  }

  lemma Loosen(rt: Rtree, open: RtreeNode?, x: RtreeNode)
    requires rt.Ok(open, null, null) && rt.Clean && rt.Skew == 0 && Balanced(rt) && (open == null || open == x)
    ensures Mostly(rt, x)
  {
    hide Shaped, JoinItems, NoDup, Proper;
    forall n | n in rt.Nodes ensures Tidy(n, rt.Root, rt.MinChildItems, rt.MaxChildItems, x, null, x) {
      assert Tidy(n, rt.Root, rt.MinChildItems, rt.MaxChildItems, open, null, null);
    }
    forall n | n in rt.Nodes ensures Shaped(n, rt.Nodes, rt.Root, rt.Skew, rt.Dimensions, null) {}
  }

  /** Step CT4: a node that keeps enough children gets its exact bound. */
  method TightenEntry(rt: Rtree, n: RtreeNode)
    requires Mostly(rt, n) && n in rt.Nodes && n != rt.Root
    requires rt.MinChildItems <= |n.Items| <= rt.MaxChildItems
    modifies n`Bound
    ensures n.Parent != null && n.Parent in rt.Nodes && Mostly(rt, n.Parent)
  {
    hide Shaped, Tidy, JoinItems, NoDup, Proper;
    SizedOk(rt, n);
    rt.Parentage(n, null);
    var bb := n.ComputeBB(rt.Dimensions);
    n.Bound := bb;
    rt.RefreshedSound(rt.Nodes, rt.Root, rt.Skew, rt.Dimensions, null, n);
    rt.RefreshedAllTidy(rt.Nodes, rt.Root, rt.Skew, rt.Dimensions, rt.MinChildItems, rt.MaxChildItems, n, n.Parent, null);
    Loosen(rt, n.Parent, n.Parent);
  }

  // ---- insertLevel and chooseLevel, lines 893-956

  method ChooseLevel(rt: Rtree, node: RtreeNode, bound: Box, desiredLevel: int, level: int) returns (chosen: RtreeNode)
    requires rt.Ok(null, null, null) && node in rt.Nodes && Fits(bound, rt.Dimensions)
    requires level <= desiredLevel <= rt.Root.h && node.h == rt.Root.h - level + 1
    requires rt.Skew <= rt.Root.h - desiredLevel + 1
    ensures chosen in rt.Nodes && chosen.h == rt.Root.h - desiredLevel + 1 && LeadsTo(node, chosen, bound, rt.Nodes)
    decreases desiredLevel - level
  {
    hide Shaped, Tidy, Proper, Join, LeastEnlarged;
    if desiredLevel == level {
      return node;
    }
    LevelFacts(rt, node);
    rt.ItemsFit(node, null);
    var idx := rt.ChooseSubtree(node.Items, bound);
    assert node.Items[idx] in node.Items;
    chosen := ChooseLevel(rt, node.Items[idx], bound, desiredLevel, level + 1);
  }

  lemma LevelFacts(rt: Rtree, node: RtreeNode)
    requires Sound(rt.Nodes, rt.Root, rt.Skew, rt.Dimensions, null) && node in rt.Nodes && node.h >= 2
    ensures node.Items != [] && forall c :: c in node.Items ==> c in rt.Nodes && (node.h > rt.Skew ==> c.h + 1 == node.h)
  {
    assert Shaped(node, rt.Nodes, rt.Root, rt.Skew, rt.Dimensions, null);
  }

  lemma SkewUp(S: set<RtreeNode>, R: RtreeNode, skew: nat, more: nat, d: nat, m: int, M: int)
    requires Sound(S, R, skew, d, null) && skew <= more
    ensures Sound(S, R, more, d, null)
    ensures AllTidy(S, R, skew, d, m, M, null, null, null) ==> AllTidy(S, R, more, d, m, M, null, null, null)
  {
    hide Proper, JoinItems, NoDup;
    forall n | n in S ensures Shaped(n, S, R, more, d, null) {
      assert Shaped(n, S, R, skew, d, null);
    }
    if AllTidy(S, R, skew, d, m, M, null, null, null) {
      forall n | n in S ensures Tidy(n, R, m, M, null, null, null) {
        assert Tidy(n, R, m, M, null, null, null);
      }
      forall n | n in S ensures Shaped(n, S, R, more, d, null) {}
    }
  }

  /** The history has only grown since it was `splits`, and the root `root` is gone only if it was split. */
  ghost predicate Logs(rt: Rtree, root: RtreeNode, splits: seq<SplitRecord>)
    reads rt
  {
    splits <= rt.Splits && (rt.Root == root || rt.Splits != splits)
  }

  /** Every node but the root is one level below its parent, and so is `node` but for a gap. */
  ghost predicate OneGap(rt: Rtree, node: RtreeNode)
    reads rt, rt.Nodes
  {
    && node in rt.Nodes && node != rt.Root && node.h >= 1 && node.Parent != null && node.h + 1 < node.Parent.h
    && forall x :: x in rt.Nodes && x != rt.Root && x != node ==> x.Parent != null && x.h + 1 == x.Parent.h
  }

  /** Down from s to a leaf node, without passing the gap. */
  lemma {:induction false} LeafBelow(rt: Rtree, s: RtreeNode, node: RtreeNode) returns (z: RtreeNode)
    requires Sane(rt) && OneGap(rt, node) && s in rt.Nodes && 1 <= s.h < node.Parent.h
    ensures z in rt.Nodes && z.IsLeaf && StepsToRoot(rt, z) == StepsToRoot(rt, s) + s.h - 1
    decreases s.h
  {
    hide JoinItems, NoDup, Proper, Logged;
    At(rt, s);
    if s.h == 1 {
      z := s;
    } else {
      At(rt, rt.Root);
      var c := s.Items[0];
      assert c in s.Items;
      At(rt, c);
      z := LeafBelow(rt, c, node);
    }
  }

  lemma GapIsUneven(rt: Rtree, node: RtreeNode)
    requires Sane(rt) && OneGap(rt, node) && |node.Parent.Items| >= 2
    ensures Uneven(rt)
  {
    hide JoinItems, Proper, Logged;
    var p := node.Parent;
    At(rt, node);
    At(rt, p);
    var s := if p.Items[0] == node then p.Items[1] else p.Items[0];
    assert s in p.Items && s != node;
    At(rt, s);
    var y := LeafBelow(rt, node, node);
    var z := LeafBelow(rt, s, node);
  }

  lemma {:induction false} LevelDepth(rt: Rtree, n: RtreeNode)
    requires Sane(rt) && rt.Skew == 0 && n in rt.Nodes
    ensures StepsToRoot(rt, n) == rt.Root.h - n.h
    decreases rt.Root.h - n.h
  {
    At(rt, n);
    if n != rt.Root {
      At(rt, n.Parent);
      LevelDepth(rt, n.Parent);
    }
  }

  lemma LevelIsEven(rt: Rtree)
    requires Sane(rt) && rt.Skew == 0
    ensures !Uneven(rt)
  {
    forall n | n in rt.Nodes && n.IsLeaf ensures StepsToRoot(rt, n) == rt.Root.h - 1 {
      At(rt, n);
      LevelDepth(rt, n);
    }
  }

  /** Every node of S but the root R is one level below its parent. */
  ghost predicate Levelled(S: set<RtreeNode>, R: RtreeNode)
    reads S
  {
    forall x :: x in S && x != R ==> x.Parent != null && x.Parent in S && x.h + 1 == x.Parent.h && x.h < R.h
  }

  lemma LevelNodes(S: set<RtreeNode>, R: RtreeNode, d: nat, m: int, M: int)
    requires Sound(S, R, 0, d, null) && AllTidy(S, R, 0, d, m, M, null, null, null)
    ensures Levelled(S, R)
  {
    forall x | x in S && x != R ensures x.Parent != null && x.Parent in S && x.h + 1 == x.Parent.h && x.h < R.h {
      assert Shaped(x, S, R, 0, d, null);
      assert Shaped(x.Parent, S, R, 0, d, null);
    }
  }

  /** The subtree that comes too high makes the one gap of a tree that was level. */
  twostate lemma GapHere(rt: Rtree, new node: RtreeNode, new target: RtreeNode, new sub: set<RtreeNode>)
    requires old(allocated(node)) && old(allocated(target)) && old(allocated(sub))
    requires Sane(rt) && Balanced(rt) && rt.Skew == target.h && node.h >= 1 && node.h + 1 < target.h
    requires target in old(rt.Nodes) && target.h <= old(rt.Root).h <= rt.Root.h && node in sub && sub !! old(rt.Nodes)
    requires old(Levelled(rt.Nodes, rt.Root)) && old(Levelled(sub, node))
    requires old(rt.Nodes) + sub <= rt.Nodes && forall x :: x in rt.Nodes - old(rt.Nodes) - sub ==> x.h >= target.h
    requires node.Parent != null && node.Parent.h == target.h
    requires forall x :: x in old(rt.Nodes) + sub && x != node && x.h < target.h ==>
      x.Parent == old(x.Parent) || (x.Parent != null && old(x.Parent) != null && x.Parent.h == old(x.Parent).h)
    ensures OneGap(rt, node)
  {
    hide JoinItems, NoDup, Proper, Logged, Tidy;
    forall x | x in rt.Nodes && x != rt.Root && x != node ensures x.Parent != null && x.h + 1 == x.Parent.h {
      At(rt, x);
    }
    assert node != rt.Root;
  }

  /** insertLevel: the subtree goes below a node of the recorded level. If the tree has grown since the
    * level was recorded, that node is too high and the tree stops being level. */
  method InsertLevel(rt: Rtree, node: RtreeNode, level: int, ghost sub: set<RtreeNode>, ghost H0: int)
    returns (ghost levelNode: RtreeNode)
    requires rt.Valid() && Balanced(rt) && Whole(sub, node, rt.Dimensions, rt.MinChildItems, rt.MaxChildItems) && sub !! rt.Nodes
    requires node.h >= 1 && node.h == H0 - level && level >= 1 && H0 <= rt.Root.h && rt.Skew <= rt.Root.h - level + 1
    modifies rt, rt.Nodes, sub
    ensures rt.Valid() && rt.Size == old(rt.Size) && Logs(rt, old(rt.Root), old(rt.Splits))
    ensures levelNode in old(rt.Nodes) && levelNode.h == old(rt.Root.h) - level + 1
    ensures old(LeadsTo(rt.Root, levelNode, node.Bound, rt.Nodes))
    ensures old(rt.Clean) ==>
      Grafts(old(Snapshot(rt.Nodes)), old(rt.Root), rt.Bounds(), rt.Splits[|old(rt.Splits)|..], levelNode, node, old(node.Bound))
    ensures rt.Root.h >= old(rt.Root.h) && rt.Height - rt.Root.h == old(rt.Height - rt.Root.h)
    ensures rt.Skew <= rt.Root.h - level + 1 && (old(rt.Root.h) == H0 ==> rt.Skew == old(rt.Skew))
    ensures rt.Clean && old(rt.Skew) == 0 ==> (Uneven(rt) <==> old(rt.Root.h) > H0)
    ensures fresh(rt.Nodes - old(rt.Nodes) - sub) && Data(rt.Nodes) == old(Data(rt.Nodes)) + Data(sub)
    ensures |rt.Root.Items| >= 2 || |rt.Root.Items| >= old(|rt.Root.Items|)
  {
    hide Shaped, Tidy, Proper, JoinItems, NoDup, Logged, Grafts, AllPartition, OneGap, Uneven, Levelled, LeadsTo;
    ghost var before := rt.Clean && rt.Skew == 0;
    rt.OkFacts();
    if before {
      LevelNodes(rt.Nodes, rt.Root, rt.Dimensions, rt.MinChildItems, rt.MaxChildItems);
      LevelNodes(sub, node, rt.Dimensions, rt.MinChildItems, rt.MaxChildItems);
    }
    var chosen := ChooseLevel(rt, rt.Root, node.Bound, level, 1);
    levelNode := chosen;
    LevelFacts(rt, chosen);
    if node.h + 1 != levelNode.h {
      SkewUp(rt.Nodes, rt.Root, rt.Skew, levelNode.h, rt.Dimensions, rt.MinChildItems, rt.MaxChildItems);
      rt.Skew := levelNode.h;
    }
    SkewUp(sub, node, 0, rt.Skew, rt.Dimensions, rt.MinChildItems, rt.MaxChildItems);
    rt.Graft(chosen, node, sub);
    rt.OkFacts();
    Rtree.MoreSplits(old(rt.Splits), rt.Splits);
    if before && rt.Clean {
      if old(rt.Root.h) > H0 {
        GapHere(rt, node, chosen, sub);
        if node.Parent != rt.Root { FullParent(rt, node); }
        GapIsUneven(rt, node);
      } else {
        LevelIsEven(rt);
      }
    }
  }

  lemma FullParent(rt: Rtree, x: RtreeNode)
    requires Sane(rt) && Balanced(rt) && x in rt.Nodes && x != rt.Root && x.h >= 1
    ensures x.Parent != null && (x.Parent != rt.Root ==> |x.Parent.Items| >= 2)
  {
    At(rt, x);
    At(rt, x.Parent);
  }

  // ---- step CT6: re-insertion

  /** The bound of an orphan is recomputed, to the value that it has already. */
  method RefreshOrphan(c: RtreeNode, ghost S: set<RtreeNode>, ghost d: nat, ghost m: int, ghost M: int)
    requires Whole(S, c, d, m, M) && c.h >= 1
    modifies c`Bound
    ensures c.Bound == old(c.Bound) && Whole(S, c, d, m, M)
  {
    hide Shaped, Tidy, Proper, JoinItems, NoDup;
    OrphanFacts(S, c, d, m, M);
    var bb := c.ComputeBB(d);
    c.Bound := bb;
    SameWhole(S, c, d, m, M);
  }

  lemma OrphanFacts(S: set<RtreeNode>, c: RtreeNode, d: nat, m: int, M: int)
    requires Whole(S, c, d, m, M)
    ensures c in S && (c.h >= 1 ==> c.Items != [] && c.Bound == JoinItems(c.Items))
    ensures forall x :: x in c.Items ==> Fits(x.Bound, d)
    ensures c.h == 0 ==> S == {c} && c.Bound == c.Leaf.Bound
  {
    assert Shaped(c, S, c, 0, d, null) && Tidy(c, c, m, M, null, null, null);
    forall x | x in c.Items ensures Fits(x.Bound, d) {
      assert Shaped(x, S, c, 0, d, null);
    }
    if c.h == 0 {
      forall x | x in S ensures x == c {
        assert Shaped(x, S, c, 0, d, null);
        assert x != c ==> x.Parent != null && Shaped(x.Parent, S, c, 0, d, null);
      }
    }
  }

  twostate lemma SameWhole(S: set<RtreeNode>, new c: RtreeNode, new d: nat, new m: int, new M: int)
    requires old(allocated(c))
    requires old(Whole(S, c, d, m, M))
    requires forall x: RtreeNode :: old(allocated(x)) ==> x.Items == old(x.Items) && x.Parent == old(x.Parent) && x.Bound == old(x.Bound)
    ensures Whole(S, c, d, m, M)
  {
    hide Proper, NoDup;
    forall n | n in S ensures Shaped(n, S, c, 0, d, null) {
      assert old(Shaped(n, S, c, 0, d, null));
    }
    forall n | n in S ensures Tidy(n, c, m, M, null, null, null) {
      assert old(Tidy(n, c, m, M, null, null, null));
      assert JoinItems(n.Items) == old(JoinItems(n.Items));
    }
  }

  /** Everything stored, in the tree or in limbo. */
  ghost function Stored(rt: Rtree, w: Limbo): multiset<OSMObject>
    reads rt
  {
    ObjectsOf(Data(rt.Nodes)) + ObjectsOf(Data(w.all))
  }

  /** What re-insertion needs of the tree and the orphans. H0 is the height when levels were recorded. */
  ghost predicate Mending(rt: Rtree, w: Limbo, H0: int)
    reads rt, rt.Nodes, w.all
  {
    && rt.Valid() && Balanced(rt) && H0 <= rt.Root.h && (rt.Root.h == H0 ==> rt.Skew == 0)
    && LimboOk(w, rt.Dimensions, rt.MinChildItems, rt.MaxChildItems) && w.all !! rt.Nodes
  }

  // ---- the splits of the re-insertions

  /** One re-insertion: the tree before it, the node that took `node` with its bound, the splits it made. */
  datatype Regraft = Regraft(view: map<RtreeNode, NodeView>, root: RtreeNode, target: RtreeNode, node: RtreeNode,
                             bound: Box, splits: seq<SplitRecord>)

  ghost predicate Told(g: Regraft, k: Limits) {
    Grafts(g.view, g.root, k, g.splits, g.target, g.node, g.bound)
  }

  ghost function SplitsIn(trace: seq<Regraft>): seq<SplitRecord> {
    if trace == [] then [] else SplitsIn(trace[..|trace| - 1]) + trace[|trace| - 1].splits
  }

  /** Each re-insertion made the splits that were due in the tree it found, as long as all splits before
    * it were partitions. */
  ghost predicate Truthful(before: seq<SplitRecord>, trace: seq<Regraft>, k: Limits) {
    trace == [] || (
      var n := |trace| - 1;
      Truthful(before, trace[..n], k) && (AllPartition(before + SplitsIn(trace[..n])) ==> Told(trace[n], k)))
  }

  /** The history has grown by the splits of the re-insertions. */
  ghost predicate Traced(before: seq<SplitRecord>, after: seq<SplitRecord>, trace: seq<Regraft>, k: Limits) {
    after == before + SplitsIn(trace) && Truthful(before, trace, k)
  }

  lemma TracedNone(before: seq<SplitRecord>, k: Limits)
    ensures Traced(before, before, [], k)
  {}

  lemma TracedSame(before: seq<SplitRecord>, after: seq<SplitRecord>, k: Limits)
    requires Traced(before, after, [], k)
    ensures before == after
  {}

  lemma TracedNext(before: seq<SplitRecord>, after: seq<SplitRecord>, trace: seq<Regraft>, g: Regraft, k: Limits)
    requires Traced(before, after, trace, k) && (AllPartition(after) ==> Told(g, k))
    ensures Traced(before, after + g.splits, trace + [g], k)
  {
    hide AllPartition, Told;
    assert (trace + [g])[..|trace|] == trace;
    assert before + SplitsIn(trace) + g.splits == before + (SplitsIn(trace) + g.splits);
  }

  lemma TracedLast(before: seq<SplitRecord>, after: seq<SplitRecord>, trace: seq<Regraft>, k: Limits)
    returns (almost: seq<SplitRecord>)
    requires Traced(before, after, trace, k) && trace != []
    ensures var n := |trace| - 1;
      && Traced(before, almost, trace[..n], k) && after == almost + trace[n].splits
      && (AllPartition(almost) ==> Told(trace[n], k))
  {
    hide AllPartition, Told;
    var n := |trace| - 1;
    almost := before + SplitsIn(trace[..n]);
    assert before + (SplitsIn(trace[..n]) + trace[n].splits) == almost + trace[n].splits;
  }

  lemma {:induction false} TracedMore(before: seq<SplitRecord>, between: seq<SplitRecord>, after: seq<SplitRecord>,
                                      first: seq<Regraft>, second: seq<Regraft>, k: Limits)
    requires Traced(before, between, first, k) && Traced(between, after, second, k)
    ensures Traced(before, after, first + second, k)
    decreases |second|
  {
    hide *;
    if second == [] {
      TracedSame(between, after, k);
      assert first + second == first;
    } else {
      var n := |second| - 1;
      var almost := TracedLast(between, after, second, k);
      TracedMore(before, between, almost, first, second[..n], k);
      TracedNext(before, almost, first + second[..n], second[n], k);
      assert first + second == first + second[..n] + [second[n]];
    }
  }

  /** An entry of a dissolved node goes back: a stored object at leaf level, a subtree at its level. */
  method ReinsertEntry(rt: Rtree, c: RtreeNode, level: int, isLeaf: bool, ghost w: Limbo, ghost H0: int)
    returns (ghost g: Regraft)
    requires Mending(rt, w, H0) && w.tops != [] && c == w.tops[0] && c in w.sub
    requires if isLeaf then c.h == 0 else c.h >= 1 && c.h == H0 - level && level >= 1
    requires rt.Skew <= rt.Root.h - level + 1
    modifies rt, rt.Nodes, w.sub[c]
    ensures Mending(rt, LimboTail(w), H0) && Stored(rt, LimboTail(w)) == old(Stored(rt, w))
    ensures rt.Size == old(rt.Size) && Logs(rt, old(rt.Root), old(rt.Splits))
    ensures rt.Splits == old(rt.Splits) + g.splits && (old(rt.Clean) ==> Told(g, rt.Bounds()))
    ensures g.view == old(Snapshot(rt.Nodes)) && g.root == old(rt.Root) && g.target in old(rt.Nodes)
    ensures g.node.Leaf == c.Leaf && g.bound == old(c.Bound) && (!isLeaf ==> g.node == c)
    ensures rt.Root.h >= old(rt.Root.h) && rt.Height - rt.Root.h == old(rt.Height - rt.Root.h)
    ensures rt.Skew <= rt.Root.h - level + 1
    ensures fresh(rt.Nodes - old(rt.Nodes) - w.sub[c])
    ensures |rt.Root.Items| >= 2 || |rt.Root.Items| >= old(|rt.Root.Items|)
  {
    hide Shaped, Tidy, Proper, JoinItems, NoDup, Whole, TopOk, Apart, InLimbo, ObjectsOf, Logged, Grafts, AllPartition, Reaches;
    LimboRest(w, rt.Dimensions, rt.MinChildItems, rt.MaxChildItems);
    ghost var sub := w.sub[c];
    ghost var view, root, bound, splits := Snapshot(rt.Nodes), rt.Root, c.Bound, rt.Splits;
    TopFacts(w, c, rt.Dimensions, rt.MinChildItems, rt.MaxChildItems);
    if isLeaf {
      LeafStored(rt, w, c);
      ghost var entry, leafNode := rt.InsertLeaf(c.Bound, c.Leaf, true);
      g := Regraft(view, root, leafNode, entry, bound, rt.Splits[|splits|..]);
    } else {
      SubtreeStored(rt, w, c);
      RefreshOrphan(c, sub, rt.Dimensions, rt.MinChildItems, rt.MaxChildItems);
      ghost var before := Data(rt.Nodes);
      ghost var levelNode := InsertLevel(rt, c, level, sub, H0);
      g := Regraft(view, root, levelNode, c, bound, rt.Splits[|splits|..]);
      ObjectsOfUnion(before, Data(sub));
    }
  }

  lemma TopFacts(w: Limbo, c: RtreeNode, d: nat, m: int, M: int)
    requires TopOk(w, c, d, m, M)
    ensures c in w.sub && c in w.sub[c] && w.sub[c] <= w.all && Whole(w.sub[c], c, d, m, M) && Fits(c.Bound, d)
    ensures c.h == 0 ==> w.sub[c] == {c} && c.Bound == c.Leaf.Bound
  {
    OrphanFacts(w.sub[c], c, d, m, M);
  }

  lemma SubtreeStored(rt: Rtree, w: Limbo, c: RtreeNode)
    requires w.tops != [] && c == w.tops[0] && c in w.sub && w.sub[c] <= w.all && w.all !! rt.Nodes
    ensures ObjectsOf(Data(w.all)) == ObjectsOf(Data(LimboTail(w).all)) + ObjectsOf(Data(w.sub[c]))
    ensures Data(w.sub[c]) !! Data(rt.Nodes)
  {
    ObjectsOfUnion(Data(LimboTail(w).all), Data(w.sub[c]));
    assert Data(w.all) == Data(LimboTail(w).all) + Data(w.sub[c]);
  }

  lemma LeafStored(rt: Rtree, w: Limbo, c: RtreeNode)
    requires w.tops != [] && c == w.tops[0] && c in w.sub && w.sub[c] <= w.all && w.all !! rt.Nodes
    requires w.sub[c] == {c} && c.h == 0
    ensures ObjectsOf(Data(w.all)) == ObjectsOf(Data(LimboTail(w).all)) + multiset{c.Leaf}
  {
    SubtreeStored(rt, w, c);
    assert Data({c}) == {c};
    Rtree.ObjectsOfOne(c);
  }

  datatype NodeWithLevel = NodeWithLevel(node: RtreeNode, level: int)

  /** The children of the dissolved nodes from position k on, in order. */
  ghost function TopsFrom(q: seq<NodeWithLevel>, k: nat): seq<RtreeNode>
    reads set x | x in q :: x.node
    decreases |q| - k
  {
    if k >= |q| then [] else q[k].node.Items + TopsFrom(q, k + 1)
  }

  /** A dissolved node lies outside the tree and the orphans, and its level was recorded at height H0. */
  ghost predicate Dissolved(rt: Rtree, w: Limbo, x: NodeWithLevel, H0: int)
    reads rt, x.node
  {
    && x.node !in rt.Nodes && x.node !in w.all
    && (x.node.IsLeaf <==> x.node.h == 1) && x.node.h == H0 - x.level + 1 && x.level >= 2 && x.node.h >= 1
    && forall c :: c in x.node.Items ==> c.h + 1 == x.node.h
  }

  ghost predicate QueueOk(rt: Rtree, w: Limbo, q: seq<NodeWithLevel>, H0: int)
    reads rt, set x | x in q :: x.node
  {
    && (forall i {:trigger q[i]} :: 0 <= i < |q| ==> Dissolved(rt, w, q[i], H0))
    && (forall i, j :: 0 <= i < j < |q| ==> q[i].level > q[j].level)
    && (forall i, j :: 0 <= i < j < |q| ==> q[i].node != q[j].node)
  }

  /** One dissolved node: its children go back one by one. */
  method ReinsertNode(rt: Rtree, x: NodeWithLevel, ghost w0: Limbo, ghost later: seq<RtreeNode>,
                      ghost H0: int) returns (ghost w: Limbo, ghost trace: seq<Regraft>)
    requires Mending(rt, w0, H0) && Dissolved(rt, w0, x, H0) && w0.tops == x.node.Items + later
    requires rt.Skew <= rt.Root.h - x.level + 1
    modifies rt, rt.Nodes, w0.all, x.node
    ensures Mending(rt, w, H0) && Stored(rt, w) == old(Stored(rt, w0)) && w.tops == later && w.all <= w0.all
    ensures rt.Size == old(rt.Size) && Logs(rt, old(rt.Root), old(rt.Splits))
    ensures Traced(old(rt.Splits), rt.Splits, trace, rt.Bounds()) && |trace| == |x.node.Items|
    ensures rt.Root.h >= old(rt.Root.h) && rt.Height - rt.Root.h == old(rt.Height - rt.Root.h)
    ensures rt.Skew <= rt.Root.h - x.level + 1
    ensures fresh(rt.Nodes - old(rt.Nodes) - w0.all) && x.node.Items == old(x.node.Items)
    ensures |rt.Root.Items| >= 2 || |rt.Root.Items| >= old(|rt.Root.Items|)
  {
    hide Mending, Proper, JoinItems, NoDup, TopOk, LimboOk, Stored, Traced, Told, AllPartition;
    w, trace := w0, [];
    TracedNone(rt.Splits, rt.Bounds());
    var node := x.node;
    if |node.Items| > 0 {
      DissolvedFit(rt, x, w0, later, H0);
      var bb := node.ComputeBB(rt.Dimensions);
      MendingFrame(rt, w0, H0, node);
      node.Bound := bb;
      assert Mending(rt, w0, H0);
    }
    ghost var items := node.Items;
    for i := 0 to |node.Items|
      invariant node.Items == items && node !in rt.Nodes && node !in w0.all
      invariant Mending(rt, w, H0) && Stored(rt, w) == old(Stored(rt, w0)) && w.tops == items[i..] + later && w.all <= w0.all
      invariant rt.Size == old(rt.Size) && Logs(rt, old(rt.Root), old(rt.Splits))
      invariant Traced(old(rt.Splits), rt.Splits, trace, rt.Bounds()) && |trace| == i
      invariant rt.Root.h >= old(rt.Root.h) && rt.Height - rt.Root.h == old(rt.Height - rt.Root.h)
      invariant rt.Skew <= rt.Root.h - x.level + 1
      invariant fresh(rt.Nodes - old(rt.Nodes) - w0.all)
      invariant |rt.Root.Items| >= 2 || |rt.Root.Items| >= old(|rt.Root.Items|)
    {
      var entry := node.Items[i];
      assert entry in node.Items && w.tops[0] == entry;
      HeadOk(rt, w, H0);
      ghost var splits := rt.Splits;
      MendingLog(rt, w, H0);
      ghost var g := ReinsertEntry(rt, entry, x.level, node.IsLeaf, w, H0);
      TracedNext(old(rt.Splits), splits, trace, g, rt.Bounds());
      trace := trace + [g];
      assert w.tops[1..] == items[i + 1..] + later;
      w := LimboTail(w);
    }
    assert items[|items|..] + later == later;
  }

  lemma MendingLog(rt: Rtree, w: Limbo, H0: int)
    requires Mending(rt, w, H0)
    ensures rt.Clean <==> AllPartition(rt.Splits)
  {}

  lemma HeadOk(rt: Rtree, w: Limbo, H0: int)
    requires Mending(rt, w, H0) && w.tops != []
    ensures w.tops[0] in w.sub && w.sub[w.tops[0]] <= w.all && w.all !! rt.Nodes
  {
    assert TopOk(w, w.tops[0], rt.Dimensions, rt.MinChildItems, rt.MaxChildItems);
  }

  lemma MendingFrame(rt: Rtree, w: Limbo, H0: int, node: RtreeNode)
    requires Mending(rt, w, H0) && node !in rt.Nodes && node !in w.all
    ensures Mending(rt, w, H0)
  {}

  lemma DissolvedFit(rt: Rtree, x: NodeWithLevel, w: Limbo, later: seq<RtreeNode>, H0: int)
    requires Mending(rt, w, H0) && Dissolved(rt, w, x, H0) && w.tops == x.node.Items + later
    ensures forall c :: c in x.node.Items ==> Fits(c.Bound, rt.Dimensions)
  {
    forall c | c in x.node.Items ensures Fits(c.Bound, rt.Dimensions) {
      assert c in w.tops;
      assert TopOk(w, c, rt.Dimensions, rt.MinChildItems, rt.MaxChildItems);
    }
  }

  /** The queue keeps its shape while other dissolved nodes are worked off. */
  twostate lemma QueueFrame(rt: Rtree, new w0: Limbo, new w: Limbo, new q: seq<NodeWithLevel>, new H0: int)
    requires old(allocated(w0)) && old(allocated(q))
    requires old(QueueOk(rt, w0, q, H0)) && w.all <= w0.all
    requires forall i :: 0 <= i < |q| ==> q[i].node.Items == old(q[i].node.Items)
    requires forall i :: 0 <= i < |q| ==> q[i].node !in rt.Nodes
    ensures QueueOk(rt, w, q, H0)
    ensures forall j: nat :: TopsFrom(q, j) == old(TopsFrom(q, j))
  {
    forall i {:trigger q[i]} | 0 <= i < |q| ensures Dissolved(rt, w, q[i], H0) {
      assert old(Dissolved(rt, w0, q[i], H0));
    }
    forall j: nat ensures TopsFrom(q, j) == old(TopsFrom(q, j)) {
      SameTops(q, j);
    }
  }

  twostate lemma {:induction false} SameTops(q: seq<NodeWithLevel>, new j: nat)
    requires forall i :: 0 <= i < |q| ==> q[i].node.Items == old(q[i].node.Items)
    ensures TopsFrom(q, j) == old(TopsFrom(q, j))
    decreases |q| - j
  {
    if j < |q| {
      SameTops(q, j + 1);
    }
  }

  /** The loop over the queue, lines 798-817. */
  method ReinsertAll(rt: Rtree, q: seq<NodeWithLevel>, ghost w0: Limbo, ghost H0: int) returns (ghost trace: seq<Regraft>)
    requires Mending(rt, w0, H0) && QueueOk(rt, w0, q, H0) && w0.tops == TopsFrom(q, 0) && rt.Root.h == H0
    modifies rt, rt.Nodes, w0.all, set x | x in q :: x.node
    ensures rt.Valid() && rt.Accounted() == old(Stored(rt, w0)) && (rt.Root.h == H0 ==> rt.Skew == 0)
    ensures rt.Size == old(rt.Size) && Logs(rt, old(rt.Root), old(rt.Splits))
    ensures Traced(old(rt.Splits), rt.Splits, trace, rt.Bounds()) && |trace| == |w0.tops|
    ensures rt.Root.h >= old(rt.Root.h) && rt.Height - rt.Root.h == old(rt.Height - rt.Root.h)
    ensures fresh(rt.Nodes - old(rt.Nodes) - w0.all)
    ensures |rt.Root.Items| >= 2 || |rt.Root.Items| >= old(|rt.Root.Items|)
    ensures q == [] ==> rt.Root == old(rt.Root) && rt.Root.Items == old(rt.Root.Items) && rt.Splits == old(rt.Splits)
  {
    hide Mending, LimboOk, ObjectsOf, QueueOk, Traced, Logged, Shaped, Tidy, Sound, AllTidy, Stored, Dissolved;
    ghost var w := w0;
    trace := [];
    TracedNone(rt.Splits, rt.Bounds());
    if |q| > 0 { QueueAt(rt, w, q, 0, H0); MendingLevel(rt, w, H0); }
    for i := 0 to |q|
      invariant Mending(rt, w, H0) && Stored(rt, w) == old(Stored(rt, w0)) && w.tops == TopsFrom(q, i) && w.all <= w0.all
      invariant QueueOk(rt, w, q, H0)
      invariant i < |q| ==> rt.Skew <= rt.Root.h - q[i].level + 1
      invariant rt.Size == old(rt.Size) && Logs(rt, old(rt.Root), old(rt.Splits))
      invariant Traced(old(rt.Splits), rt.Splits, trace, rt.Bounds()) && |trace| + |w.tops| == |w0.tops|
      invariant rt.Root.h >= old(rt.Root.h) && rt.Height - rt.Root.h == old(rt.Height - rt.Root.h)
      invariant fresh(rt.Nodes - old(rt.Nodes) - w0.all)
      invariant |rt.Root.Items| >= 2 || |rt.Root.Items| >= old(|rt.Root.Items|)
      invariant q == [] ==> rt.Root == old(rt.Root) && rt.Root.Items == old(rt.Root.Items) && rt.Splits == old(rt.Splits)
    {
      label Before:
      ghost var wi := w;
      QueueAt(rt, w, q, i, H0);
      QueueOutside(rt, w, q, H0);
      ghost var splits, more := rt.Splits, [];
      w, more := ReinsertNode(rt, q[i], w, TopsFrom(q, i + 1), H0);
      TracedMore(old(rt.Splits), splits, rt.Splits, trace, more, rt.Bounds());
      trace := trace + more;
      QueueFrame@Before(rt, wi, w, q, H0);
    }
    EmptyLimbo(rt, w, H0);
  }

  lemma MendingLevel(rt: Rtree, w: Limbo, H0: int)
    requires Mending(rt, w, H0) && rt.Root.h == H0
    ensures rt.Skew == 0
  {}

  lemma QueueAt(rt: Rtree, w: Limbo, q: seq<NodeWithLevel>, i: nat, H0: int)
    requires QueueOk(rt, w, q, H0) && i < |q|
    ensures Dissolved(rt, w, q[i], H0) && TopsFrom(q, i) == q[i].node.Items + TopsFrom(q, i + 1)
    ensures i + 1 < |q| ==> q[i + 1].level < q[i].level
  {}

  lemma QueueOutside(rt: Rtree, w: Limbo, q: seq<NodeWithLevel>, H0: int)
    requires QueueOk(rt, w, q, H0)
    ensures forall k :: 0 <= k < |q| ==> q[k].node !in rt.Nodes && q[k].node !in w.all
    ensures forall j, k :: 0 <= j < k < |q| ==> q[j].node != q[k].node
  {
    forall k | 0 <= k < |q| ensures q[k].node !in rt.Nodes && q[k].node !in w.all {
      assert Dissolved(rt, w, q[k], H0);
    }
  }

  lemma EmptyLimbo(rt: Rtree, w: Limbo, H0: int)
    requires Mending(rt, w, H0) && w.tops == []
    ensures Stored(rt, w) == rt.Accounted() && rt.Valid() && (rt.Root.h == H0 ==> rt.Skew == 0)
  {
    assert forall x :: x in w.all ==> InLimbo(w, x);
    assert w.all == {} && Data(w.all) == {};
  }

  // ---- condenseTree, lines 780-857

  lemma {:induction false} TopsAppend(q: seq<NodeWithLevel>, x: NodeWithLevel, k: nat)
    requires k <= |q|
    ensures TopsFrom(q + [x], k) == TopsFrom(q, k) + x.node.Items
    decreases |q| - k
  {
    if k < |q| {
      TopsAppend(q, x, k + 1);
      assert (q + [x])[k] == q[k];
      assert q[k].node.Items + (TopsFrom(q, k + 1) + x.node.Items) == q[k].node.Items + TopsFrom(q, k + 1) + x.node.Items;
    } else {
      assert TopsFrom(q + [x], k + 1) == [];
    }
  }

  /** Everything condenseTree relies on at node n. */
  ghost predicate Condensing(rt: Rtree, n: RtreeNode, q: seq<NodeWithLevel>, nLevel: int, w: Limbo)
    reads rt, rt.Nodes, w.all, set x | x in q :: x.node
  {
    && Mostly(rt, n) && n in rt.Nodes && n.h >= 1 && |n.Items| <= rt.MaxChildItems
    && (n.Items != [] || (n == rt.Root && n.h == 1))
    && rt.Height == rt.Root.h && nLevel == rt.Root.h - n.h + 1
    && (rt.Root.h >= 2 ==> rt.Root.Items != [] && (n != rt.Root ==> |rt.Root.Items| >= 2))
    && LimboOk(w, rt.Dimensions, rt.MinChildItems, rt.MaxChildItems) && w.all !! rt.Nodes
    && QueueOk(rt, w, q, rt.Root.h) && w.tops == TopsFrom(q, 0)
    && (forall i :: 0 <= i < |q| ==> q[i].level > nLevel)
  }

  /** The position of n among the entries of p. */
  method IndexOf(p: RtreeNode, n: RtreeNode) returns (enIDx: int)
    requires n in p.Items
    ensures 0 <= enIDx < |p.Items| && p.Items[enIDx] == n
  {
    enIDx := -1;
    for i := 0 to |p.Items|
      invariant -1 <= enIDx < i && (enIDx >= 0 ==> p.Items[enIDx] == n)
      invariant n in p.Items[..i] ==> enIDx >= 0
    {
      if p.Items[i] == n {
        enIDx := i;
      }
    }
    assert p.Items[..|p.Items|] == p.Items;
  }

  lemma ClimbFacts(rt: Rtree, n: RtreeNode)
    requires Mostly(rt, n) && n in rt.Nodes && n != rt.Root && n.h >= 1 && (rt.Root.h >= 2 ==> |rt.Root.Items| >= 2)
    ensures var p := n.Parent;
      && p != null && p in rt.Nodes && n in p.Items && p.h == n.h + 1 && p.h <= rt.Root.h && p != n
      && 2 <= |p.Items| <= rt.MaxChildItems && (p != rt.Root ==> rt.MinChildItems <= |p.Items|)
    ensures forall c :: c in n.Items ==> c.h + 1 == n.h
    ensures n.IsLeaf <==> n.h == 1
  {
    hide JoinItems, NoDup, Proper;
    MostlyAt(rt, n, n);
    MostlyAt(rt, n.Parent, n);
  }

  /** CT3: an underfull node leaves the tree and joins the queue; its children become orphans. */
  lemma Dissolve(rt: Rtree, n: RtreeNode, q: seq<NodeWithLevel>, nLevel: int, w: Limbo)
    requires Condensing(rt, n, q, nLevel, w) && n != rt.Root
    ensures var w' := LimboPlus(w, OrphansOf(n, rt.Nodes)); var gone := SubtreeOf(n, rt.Nodes);
      && LimboOk(w', rt.Dimensions, rt.MinChildItems, rt.MaxChildItems) && w'.all !! rt.Nodes - gone
      && w'.tops == TopsFrom(q + [NodeWithLevel(n, nLevel)], 0) && gone <= rt.Nodes && w'.all == w.all + (gone - {n})
      && n in gone && n.Parent !in w'.all
  {
    hide Proper, JoinItems, NoDup, Tidy, Shaped;
    ClimbFacts(rt, n);
    if n.Parent in SubtreeOf(n, rt.Nodes) { UnderLevel(n.Parent, n, rt.Nodes); }
    OrphansOk(rt, n);
    LimboPlusOk(w, OrphansOf(n, rt.Nodes), rt.Dimensions, rt.MinChildItems, rt.MaxChildItems);
    TopsAppend(q, NodeWithLevel(n, nLevel), 0);
    assert Under(n, n, rt.Nodes);
  }

  lemma DissolvedData(S: set<RtreeNode>, L: set<RtreeNode>, n: RtreeNode, gone: set<RtreeNode>)
    requires n.h >= 1 && n in gone && gone <= S && L !! S
    ensures Data(S) == Data(S - gone) + Data(gone - {n}) && Data(S - gone) !! Data(gone - {n})
    ensures Data(L + (gone - {n})) == Data(L) + Data(gone - {n}) && Data(L) !! Data(gone - {n})
  {}

  lemma DissolvedStored(rt: Rtree, w: Limbo, n: RtreeNode, gone: set<RtreeNode>)
    requires n.h >= 1 && n in gone && gone <= rt.Nodes && w.all !! rt.Nodes
    ensures ObjectsOf(Data(rt.Nodes)) + ObjectsOf(Data(w.all)) == ObjectsOf(Data(rt.Nodes - gone)) + ObjectsOf(Data(w.all + (gone - {n})))
  {
    hide ObjectsOf, Data;
    DissolvedData(rt.Nodes, w.all, n, gone);
    ObjectsOfUnion(Data(rt.Nodes - gone), Data(gone - {n}));
    ObjectsOfUnion(Data(w.all), Data(gone - {n}));
  }

  lemma RootTidy(rt: Rtree, n: RtreeNode)
    requires Mostly(rt, n) && n in rt.Nodes
    ensures n.h <= rt.Root.h && (n.h == rt.Root.h <==> n == rt.Root)
  {
    MostlyAt(rt, n, n);
    if n != rt.Root { MostlyAt(rt, n.Parent, n); }
  }

  /** The bottom of the recursion: the root gets its bound and every orphan goes back. */
  method FinishAtRoot(rt: Rtree, q: seq<NodeWithLevel>, ghost w: Limbo) returns (ghost trace: seq<Regraft>)
    requires Condensing(rt, rt.Root, q, 1, w)
    modifies rt, rt.Nodes, w.all, set x | x in q :: x.node
    ensures rt.Valid() && rt.Accounted() == old(Stored(rt, w)) && rt.Height == rt.Root.h >= old(rt.Root.h)
    ensures rt.Root.h == old(rt.Root.h) ==> rt.Skew == 0
    ensures rt.Size == old(rt.Size) && fresh(rt.Nodes - old(rt.Nodes) - w.all) && Logs(rt, old(rt.Root), old(rt.Splits))
    ensures Traced(old(rt.Splits), rt.Splits, trace, rt.Bounds()) && |trace| == |w.tops|
    ensures rt.Root.h >= 2 && old(rt.Root.h) >= 2 ==> rt.Root.Items != []
    ensures q == [] ==> rt.Root == old(rt.Root) && rt.Root.Items == old(rt.Root.Items) && rt.Splits == old(rt.Splits)
  {
    hide Shaped, Tidy, JoinItems, NoDup, Proper, TopOk, Apart, InLimbo, ObjectsOf, Dissolved, Traced;
    SizedOk(rt, rt.Root);
    QueueOutside(rt, w, q, rt.Root.h);
    label Before:
    if |rt.Root.Items| != 0 {
      rt.RefreshRoot(null);
    }
    QueueFrame@Before(rt, w, w, q, rt.Root.h);
    assert Mending(rt, w, rt.Root.h);
    trace := ReinsertAll(rt, q, w, rt.Root.h);
  }

  twostate lemma DroppedQueue(rt: Rtree, new n: RtreeNode, new q: seq<NodeWithLevel>, new nLevel: int, new w: Limbo,
                              new gone: set<RtreeNode>)
    requires old(allocated(n)) && old(allocated(q)) && old(allocated(w)) && old(allocated(gone))
    requires old(Condensing(rt, n, q, nLevel, w)) && n != old(rt.Root) && rt.Root == old(rt.Root) && n in gone
    requires rt.Nodes == old(rt.Nodes) - gone && gone <= old(rt.Nodes)
    requires n.Items == old(n.Items) && forall i :: 0 <= i < |q| ==> q[i].node.Items == old(q[i].node.Items)
    requires forall c :: c in n.Items ==> c.h + 1 == n.h
    requires n.IsLeaf <==> n.h == 1
    requires n.h < rt.Root.h
    ensures var w' := Limbo(w.tops + n.Items, w.sub, w.all + (gone - {n}));
      QueueOk(rt, w', q + [NodeWithLevel(n, nLevel)], rt.Root.h)
  {
    var w' := Limbo(w.tops + n.Items, w.sub, w.all + (gone - {n}));
    var q' := q + [NodeWithLevel(n, nLevel)];
    forall i {:trigger q'[i]} | 0 <= i < |q'| ensures Dissolved(rt, w', q'[i], rt.Root.h) {
      if i < |q| {
        assert old(Dissolved(rt, w, q[i], rt.Root.h));
      }
    }
    forall i, j | 0 <= i < j < |q'| ensures q'[i].level > q'[j].level && q'[i].node != q'[j].node {
      assert old(Dissolved(rt, w, q[i], rt.Root.h));
    }
  }

  /** QueueOk looks only at which nodes are in limbo. */
  lemma QueueSameLimbo(rt: Rtree, w: Limbo, w': Limbo, q: seq<NodeWithLevel>, H0: int)
    requires QueueOk(rt, w, q, H0) && w.all == w'.all
    ensures QueueOk(rt, w', q, H0)
  {
    forall i {:trigger q[i]} | 0 <= i < |q| ensures Dissolved(rt, w', q[i], H0) {
      assert Dissolved(rt, w, q[i], H0);
    }
  }

  lemma CondensingFacts(rt: Rtree, n: RtreeNode, q: seq<NodeWithLevel>, nLevel: int, w: Limbo)
    requires Condensing(rt, n, q, nLevel, w)
    ensures QueueOk(rt, w, q, rt.Root.h)
    ensures forall k :: 0 <= k < |q| ==> q[k].node !in rt.Nodes && q[k].node !in w.all
  {
    QueueOutside(rt, w, q, rt.Root.h);
  }

  /** CT3 as code: n joins the queue and leaves its parent p. */
  method DissolveNode(rt: Rtree, n: RtreeNode, p: RtreeNode, enIDx: nat, q: seq<NodeWithLevel>, nLevel: int,
                      ghost w: Limbo)
    returns (q': seq<NodeWithLevel>, ghost w': Limbo)
    requires Condensing(rt, n, q, nLevel, w) && n != rt.Root && p == n.Parent && p in rt.Nodes && p.h == n.h + 1
    requires enIDx < |p.Items| && p.Items[enIDx] == n && 2 <= |p.Items| <= rt.MaxChildItems
    modifies rt`Nodes, p`Items
    ensures Condensing(rt, p, q', nLevel - 1, w') && q' == q + [NodeWithLevel(n, nLevel)]
    ensures Stored(rt, w') == old(Stored(rt, w)) && rt.Nodes <= old(rt.Nodes) && w'.all <= w.all + old(rt.Nodes)
    ensures n in old(rt.Nodes)
  {
    hide Shaped, Tidy, JoinItems, NoDup, Proper, LimboOk, ObjectsOf, Dissolved, Mostly, QueueOk, SubtreeOf, Under, Data;
    ClimbFacts(rt, n);
    CondensingFacts(rt, n, q, nLevel, w);
    Dissolve(rt, n, q, nLevel, w);
    label Before:
    w' := LimboPlus(w, OrphansOf(n, rt.Nodes));
    q' := q + [NodeWithLevel(n, nLevel)];
    DissolvedStored(rt, w, n, SubtreeOf(n, rt.Nodes));
    ghost var gone := DropEntry(rt, p, enIDx);
    DroppedQueue@Before(rt, n, q, nLevel, w, gone);
    QueueSameLimbo(rt, Limbo(w.tops + n.Items, w.sub, w.all + (gone - {n})), w', q', rt.Root.h);
    forall j: nat ensures TopsFrom(q', j) == old@Before(TopsFrom(q', j)) {
      SameTops@Before(q', j);
    }
  }

  /** CT4 as code: n keeps its place, with an exact bound. */
  method KeepNode(rt: Rtree, n: RtreeNode, q: seq<NodeWithLevel>, nLevel: int, ghost w: Limbo)
    requires Condensing(rt, n, q, nLevel, w) && n != rt.Root && |n.Items| >= rt.MinChildItems
    requires n.Parent != null && n.Parent.h == n.h + 1 && 2 <= |n.Parent.Items| <= rt.MaxChildItems
    modifies n`Bound
    ensures n.Parent != null && Condensing(rt, n.Parent, q, nLevel - 1, w) && Stored(rt, w) == old(Stored(rt, w))
  {
    hide Shaped, Tidy, JoinItems, NoDup, Proper, LimboOk, ObjectsOf, Dissolved, Mostly, QueueOk;
    CondensingFacts(rt, n, q, nLevel, w);
    label Before:
    TightenEntry(rt, n);
    QueueFrame@Before(rt, w, w, q, rt.Root.h);
  }

  /** condenseTree: underfull nodes are dissolved on the way up, and their children put back at the
    * end. Nothing stored is lost or repeated; the tree stays level unless it grew meanwhile. */
  method CondenseTree(rt: Rtree, n: RtreeNode, q: seq<NodeWithLevel>, nLevel: int, ghost w: Limbo)
    returns (ghost trace: seq<Regraft>)
    requires Condensing(rt, n, q, nLevel, w)
    modifies rt, rt.Nodes, w.all, set x | x in q :: x.node
    ensures rt.Valid() && rt.Accounted() == old(Stored(rt, w)) && rt.Height == rt.Root.h >= old(rt.Root.h)
    ensures rt.Root.h == old(rt.Root.h) ==> rt.Skew == 0
    ensures rt.Size == old(rt.Size) && fresh(rt.Nodes - old(rt.Nodes) - w.all) && Logs(rt, old(rt.Root), old(rt.Splits))
    ensures Traced(old(rt.Splits), rt.Splits, trace, rt.Bounds())
    ensures rt.Root.h >= 2 && old(rt.Root.h) >= 2 ==> rt.Root.Items != []
    ensures q == [] && n == old(rt.Root) ==> rt.Root == n && rt.Root.Items == old(rt.Root.Items)
    ensures q == [] && (n == old(rt.Root) || old(|n.Items|) >= rt.MinChildItems) ==>
      rt.Root == old(rt.Root) && rt.Splits == old(rt.Splits) && |trace| == |w.tops|
    decreases rt.Root.h - n.h
  {
    hide Shaped, Tidy, JoinItems, NoDup, Proper, LimboOk, ObjectsOf, Dissolved, Mostly, TopsFrom, QueueOk, Traced;
    RootTidy(rt, n);
    if n == rt.Root {
      trace := FinishAtRoot(rt, q, w);
      return;
    }
    ClimbFacts(rt, n);
    var p := n.Parent;
    var enIDx := IndexOf(p, n);
    if |n.Items| < rt.MinChildItems {
      var q';
      ghost var w';
      q', w' := DissolveNode(rt, n, p, enIDx, q, nLevel, w);
      trace := CondenseTree(rt, p, q', nLevel - 1, w');
    } else {
      KeepNode(rt, n, q, nLevel, w);
      trace := CondenseTree(rt, p, q, nLevel - 1, w);
    }
  }

  // ---- Delete, lines 740-778

  const NO_LIMBO := Limbo([], map[], {})

  /** Step D2: the first child of l with the identifier goes, with everything below it. */
  method RemoveRecord(rt: Rtree, l: RtreeNode, leaf: OSMObject) returns (ghost x: RtreeNode, ghost gone: set<RtreeNode>)
    requires Sane(rt) && rt.Skew == 0 && Balanced(rt) && Rooted(rt) && l in rt.Nodes && l.h >= 1
    requires exists item :: item in l.Items && item.Leaf.ID == leaf.ID
    modifies rt`Nodes, l`Items
    ensures x in old(rt.Nodes) && x.h + 1 == l.h && old(FirstWith(l.Items, x, leaf.ID)) && x.Parent == l && x != old(rt.Root)
    ensures gone == old(SubtreeOf(x, rt.Nodes)) && gone <= old(rt.Nodes) && rt.Nodes == old(rt.Nodes) - gone
    ensures old(rt.Accounted()) == rt.Accounted() + ObjectsOf(Data(gone))
    ensures x.h == 0 ==> gone == {x} && ObjectsOf(Data(gone)) == multiset{x.Leaf}
    ensures Condensing(rt, l, [], rt.Root.h - l.h + 1, NO_LIMBO)
    ensures |l.Items| == old(|l.Items|) - 1
  {
    hide Shaped, Tidy, JoinItems, NoDup, Proper, ObjectsOf, Mostly, Overlaps, Under, Sane, Data, SubtreeOf;
    var i := 0;
    while i < |l.Items| && l.Items[i].Leaf.ID != leaf.ID
      invariant 0 <= i <= |l.Items|
      invariant forall j :: 0 <= j < i ==> l.Items[j].Leaf.ID != leaf.ID
    {
      i := i + 1;
    }
    assert i < |l.Items| by {
      var item :| item in l.Items && item.Leaf.ID == leaf.ID;
      var j :| 0 <= j < |l.Items| && l.Items[j] == item;
    }
    x := l.Items[i];
    RecordFacts(rt, l, x);
    if x.h == 0 { EntrySubtree(rt, x); }
    ghost var S := rt.Nodes;
    gone := DropEntry(rt, l, i);
    SubtreeGone(S, gone);
    NothingWaits(rt, l);
  }

  /** x is the first of the items whose identifier is id. */
  ghost predicate FirstWith(items: seq<RtreeNode>, x: RtreeNode, id: int) {
    exists i :: 0 <= i < |items| && items[i] == x && x.Leaf.ID == id && forall j :: 0 <= j < i ==> items[j].Leaf.ID != id
  }

  lemma RecordFacts(rt: Rtree, l: RtreeNode, x: RtreeNode)
    requires Sane(rt) && rt.Skew == 0 && Balanced(rt) && Rooted(rt) && l in rt.Nodes && x in l.Items
    ensures x in rt.Nodes && x.h + 1 == l.h && x.Parent == l && x != rt.Root && Mostly(rt, x) && SubtreeOf(x, rt.Nodes) <= rt.Nodes
    ensures |l.Items| >= 2 || (l == rt.Root && l.h == 1)
    ensures |l.Items| <= rt.MaxChildItems && rt.Height == rt.Root.h && l.h <= rt.Root.h && (l.h == rt.Root.h <==> l == rt.Root)
  {
    hide JoinItems, NoDup, Proper;
    At(rt, l);
    At(rt, x);
    Loosen(rt, null, x);
    if l != rt.Root { At(rt, l.Parent); }
  }

  lemma EntrySubtree(rt: Rtree, x: RtreeNode)
    requires x in rt.Nodes && x.h == 0
    ensures SubtreeOf(x, rt.Nodes) == {x} && ObjectsOf(Data({x})) == multiset{x.Leaf}
  {
    assert Under(x, x, rt.Nodes);
    assert Data({x}) == {x};
    Rtree.ObjectsOfOne(x);
  }

  lemma SubtreeGone(S: set<RtreeNode>, gone: set<RtreeNode>)
    requires gone <= S
    ensures ObjectsOf(Data(S)) == ObjectsOf(Data(S - gone)) + ObjectsOf(Data(gone))
  {
    ObjectsOfUnion(Data(S - gone), Data(gone));
    assert Data(S) == Data(S - gone) + Data(gone);
  }

  lemma NothingWaits(rt: Rtree, l: RtreeNode)
    requires Mostly(rt, l) && l in rt.Nodes && l.h >= 1 && |l.Items| <= rt.MaxChildItems
    requires l.Items != [] || (l == rt.Root && l.h == 1)
    requires rt.Height == rt.Root.h && (rt.Root.h >= 2 ==> rt.Root.Items != [] && (l != rt.Root ==> |rt.Root.Items| >= 2))
    ensures Condensing(rt, l, [], rt.Root.h - l.h + 1, NO_LIMBO)
  {}

  twostate predicate ShortenedIn(S: set<RtreeNode>, R: RtreeNode, c: RtreeNode)
    reads S
  {
    && R in S && c in S && R != c && R.Items == [c]
    && (forall x :: x in S ==> x.Items == old(x.Items) && x.Bound == old(x.Bound))
    && (forall x :: x in S && x != c ==> x.Parent == old(x.Parent))
  }

  twostate lemma ShortenedNode(new x: RtreeNode, S: set<RtreeNode>, new R: RtreeNode, new c: RtreeNode, new skew: nat,
                               new d: nat, new m: int, new M: int)
    requires old(allocated(x)) && old(allocated(R)) && old(allocated(c))
    requires ShortenedIn(S, R, c) && x in S && x != R && x.h <= c.h
    requires old(Shaped(x, S, R, skew, d, null)) && old(Tidy(x, R, m, M, null, null, null))
    requires x != c ==> old(x.Parent) != R
    requires x.h >= 1 && x.Items == [] ==> false
    ensures Shaped(x, S - {R}, c, skew, d, null) && Tidy(x, c, m, M, null, null, null)
  {
    hide NoDup, Proper;
    assert JoinItems(x.Items) == old(JoinItems(x.Items));
    var was := old(c.Parent);
    forall y | y in x.Items ensures y != c {
      assert y == c ==> was == x;
    }
  }

  lemma OnlyChild(rt: Rtree, x: RtreeNode)
    requires Sane(rt) && |rt.Root.Items| == 1 && x in rt.Nodes && x != rt.Root
    ensures x.h <= rt.Root.Items[0].h && (x != rt.Root.Items[0] ==> x.Parent != rt.Root)
    ensures rt.Root.Items[0] in rt.Nodes && rt.Root.Items[0] != rt.Root
    ensures x.h >= 1 ==> x.Items != []
    ensures rt.Root.Items[0].h == 0 ==> x == rt.Root.Items[0]
  {
    var c := rt.Root.Items[0];
    At(rt, rt.Root);
    At(rt, x);
    ReachesRoot(rt, x);
    var y := UnderChild(rt, x, rt.Root);
    assert y == c;
    UnderLevel(x, c, rt.Nodes);
  }

  /** Step D4: a root with a single child gives way to it. */
  method Shorten(rt: Rtree)
    requires rt.Valid() && |rt.Root.Items| == 1
    modifies rt`Root, rt`Height, rt`Nodes, rt.Kids(rt.Root)`Parent
    ensures rt.Root == old(rt.Root.Items[0]) && rt.Height == old(rt.Height) - 1 && rt.Nodes == old(rt.Nodes) - {old(rt.Root)}
    ensures rt.Clean && rt.Root.h >= 1 ==> rt.Valid()
    ensures rt.Clean && old(rt.Skew == 0) ==> rt.Root.h == old(rt.Root.h) - 1
    ensures rt.Clean && old(rt.Root.h) >= 2 ==> rt.Root.h >= 1
    ensures rt.Clean && Balanced(rt) ==> Rooted(rt)
    ensures rt.Clean ==> rt.Linked() == old(rt.Linked())
  {
    hide Shaped, Tidy, JoinItems, NoDup, Proper, ObjectsOf, Logged, Reaches, Rtree.Linked;
    ghost var S, R := rt.Nodes, rt.Root;
    var c := rt.Root.Items[0];
    if rt.Clean {
      ShortenFacts(rt);
      forall x | x in S && x != R ensures x.h <= c.h && (x != c ==> x.Parent != R) && (x.h >= 1 ==> x.Items != []) && (c.h == 0 ==> x == c) {
        OnlyChild(rt, x);
      }
      rt.ContentsAreAccounted();
    }
    rt.Root := c;
    rt.Root.Parent := null;
    rt.Height := rt.Height - 1;
    rt.Nodes := rt.Nodes - {R};
    if rt.Clean {
      ShortenedAll(rt, S, R, c);
      assert Data(S) == Data(rt.Nodes);
      if c.h == 0 { LastEntry(rt); } else { rt.ContentsAreAccounted(); }
    }
  }

  /** All that is left is one entry. */
  lemma LastEntry(rt: Rtree)
    requires rt.Root in rt.Nodes && rt.Root.h == 0 && forall x :: x in rt.Nodes ==> x == rt.Root
    ensures rt.Linked() == Data(rt.Nodes)
  {
    assert Reaches(rt.Root, rt.Root, rt.Nodes);
  }

  lemma ShortenFacts(rt: Rtree)
    requires Sane(rt) && |rt.Root.Items| == 1
    ensures var c := rt.Root.Items[0];
      && c in rt.Nodes && c != rt.Root && c.h < rt.Root.h && (rt.Skew == 0 ==> c.h + 1 == rt.Root.h) && (rt.Root.h >= 2 ==> c.h >= 1)
      && (Balanced(rt) && c.h >= 1 ==> |c.Items| >= 2)
  {
    var c := rt.Root.Items[0];
    assert c in rt.Root.Items;
    At(rt, rt.Root);
    At(rt, c);
  }

  twostate lemma ShortenedAll(new rt: Rtree, S: set<RtreeNode>, new R: RtreeNode, new c: RtreeNode)
    requires old(allocated(rt)) && old(allocated(R)) && old(allocated(c))
    requires old(rt.Valid()) && old(rt.Clean) && S == old(rt.Nodes) && R == old(rt.Root) && ShortenedIn(S, R, c)
    requires rt.Nodes == S - {R} && rt.Root == c && rt.Clean && rt.Skew == old(rt.Skew) && rt.Splits == old(rt.Splits)
    requires forall x :: x in S && x != R ==> x.h <= c.h && (x != c ==> old(x.Parent) != R) && (x.h >= 1 ==> x.Items != [])
    ensures rt.Root.h >= 1 ==> rt.Ok(null, null, null)
  {
    hide Shaped, Tidy, JoinItems, NoDup, Proper, ShortenedIn;
    forall x | x in rt.Nodes ensures Shaped(x, rt.Nodes, rt.Root, rt.Skew, rt.Dimensions, null)
                                     && Tidy(x, rt.Root, rt.MinChildItems, rt.MaxChildItems, null, null, null) {
      assert old(Tidy(x, R, rt.MinChildItems, rt.MaxChildItems, null, null, null));
      ShortenedNode(x, S, R, c, rt.Skew, rt.Dimensions, rt.MinChildItems, rt.MaxChildItems);
    }
    assert c in rt.Nodes by { ShortenedMember(S, R, c); }
  }

  twostate lemma ShortenedMember(S: set<RtreeNode>, new R: RtreeNode, new c: RtreeNode)
    requires old(allocated(R)) && old(allocated(c))
    requires ShortenedIn(S, R, c)
    ensures c in S && c != R
  {}

  /** Delete takes out one child of a node with the identifier and all below it, across condensing and
    * all re-insertions. For every identifier but 0 that is one entry. `top` is the root just before the
    * root is shortened: the tree stays level unless re-insertion put a new root on it, and nothing is
    * split unless a node is dissolved. A leaf root left with one entry is replaced by that entry, and
    * the tree is then no longer usable; in every other case it is. */
  method Delete(rt: Rtree, leaf: OSMObject)
    returns (deleted: bool, ghost x: RtreeNode?, ghost gone: set<RtreeNode>, ghost top: RtreeNode,
             ghost trace: seq<Regraft>)
    requires Sane(rt) && rt.Skew == 0 && Balanced(rt) && Rooted(rt) && |leaf.Bound.Edges| >= rt.Dimensions
    modifies rt, rt.Nodes
    ensures !deleted ==> Sane(rt) && rt.Nodes == old(rt.Nodes) && rt.Size == old(rt.Size) && rt.Splits == old(rt.Splits)
    ensures !deleted ==> rt.Linked() == old(rt.Linked()) && rt.Skew == 0 && Rooted(rt) && rt.Root == old(rt.Root)
    ensures !deleted ==> forall d :: d in rt.Linked() && d.Leaf.ID == leaf.ID ==> !Overlaps(d.Bound, leaf.Bound)
    ensures leaf.ID != 0 ==> (deleted <==> old(Sought(rt, rt.Root, leaf)))
    ensures leaf.ID == 0 ==> (deleted <==> old(rt.Root.h >= 2 || exists c :: c in rt.Root.Items && c.Leaf.ID == 0))
    ensures deleted ==> x != null && x in old(rt.Nodes) && x != old(rt.Root) && rt.Size == old(rt.Size) - 1
    ensures deleted ==> old(x.Parent) != null && old(x.Parent) in old(rt.Nodes) && old(FirstWith(x.Parent.Items, x, leaf.ID))
    ensures deleted && leaf.ID != 0 ==> old(Earliest(rt, rt.Root, x.Parent, leaf))
    ensures deleted ==> gone == old(SubtreeOf(x, rt.Nodes)) && (leaf.ID != 0 ==> x.h == 0) && (x.h == 0 ==> gone == {x})
    ensures deleted && leaf.ID == 0 ==> (x.h == 0 <==> old(Descends(rt.Root, leaf.Bound, rt.Nodes)))
    ensures deleted ==> Traced(old(rt.Splits), rt.Splits, trace, rt.Bounds())
    ensures deleted ==> old(rt.Splits) <= rt.Splits && (rt.Clean <==> AllPartition(rt.Splits[|old(rt.Splits)|..]))
    ensures deleted && rt.Clean ==> old(rt.Contents()) == rt.Contents() + ObjectsOf(Data(gone))
    ensures deleted && rt.Clean && x.h == 0 ==> old(rt.Contents()) == rt.Contents() + multiset{x.Leaf}
    ensures deleted && (old(rt.Root.IsLeaf || x.Parent == rt.Root) || old(|x.Parent.Items|) > rt.MinChildItems) ==>
      top == old(rt.Root) && rt.Splits == old(rt.Splits) && trace == []
    ensures deleted ==> top.h >= old(rt.Height) && (top == old(rt.Root) || rt.Splits != old(rt.Splits))
    ensures deleted && rt.Clean && top.h == old(rt.Height) ==> rt.Skew == 0
    ensures deleted ==> if |top.Items| == 1 then rt.Root == top.Items[0] && rt.Height == top.h - 1
                        else rt.Root == top && rt.Height == top.h
    ensures deleted && rt.Clean ==> (rt.Root.h >= 1 <==> !old(rt.Root.IsLeaf && |rt.Root.Items| == 2))
    ensures deleted && rt.Clean && rt.Root.h >= 1 ==> rt.Valid() && Rooted(rt)
  {
    hide Shaped, Tidy, JoinItems, NoDup, Proper, ObjectsOf, Overlaps, Under, Condensing, Data, SubtreeOf, Logged, FirstWith, Reaches, AllPartition, Rtree.Linked, Traced, Descends,
      Sought, Earliest;
    NodeFacts(rt, rt.Root);
    RootZero(rt, leaf);
    x, gone, top, trace := null, {}, rt.Root, [];
    rt.ContentsAreAccounted();
    rt.OkFacts();
    var l, leafLevel := FindLeaf(rt, leaf, rt.Root, 1);
    if l == null {
      AllUnderRoot(rt, leaf);
      return false, null, {}, top, [];
    }
    LeafRoot(rt, l);
    label Found:
    x, gone := RemoveRecord(rt, l, leaf);
    ghost var w := NO_LIMBO;
    trace := CondenseTree(rt, l, [], leafLevel, w);
    NoLimboStored(rt);
    rt.OkFacts();
    Rtree.MoreSplits(old(rt.Splits), rt.Splits);
    top := rt.Root;
    rt.KidsInside(top);
    SettleRoot(rt);
    deleted := true;
  }

  /** In a leaf root the search for 0 ends exactly if an entry carries it. */
  lemma RootZero(rt: Rtree, leaf: OSMObject)
    requires Sane(rt) && rt.Skew == 0
    ensures rt.Root.h == 1 && leaf.ID == 0 ==>
      (Descends(rt.Root, leaf.Bound, rt.Nodes) <==> exists c :: c in rt.Root.Items && c.Leaf.ID == 0)
  {
    if rt.Root.h == 1 { DescendsInLeaf(rt, rt.Root, leaf.Bound); }
  }

  /** The end of Delete: the count, and step D4. */
  method SettleRoot(rt: Rtree)
    requires rt.Valid() && rt.Height == rt.Root.h
    modifies rt`Size, rt`Root, rt`Height, rt`Nodes, rt.Kids(rt.Root)`Parent
    ensures rt.Size == old(rt.Size) - 1
    ensures old(rt.Root).Items == old(rt.Root.Items)
    ensures if old(|rt.Root.Items|) == 1 then rt.Root == old(rt.Root.Items[0]) && rt.Height == old(rt.Root.h) - 1
            else rt.Root == old(rt.Root) && rt.Height == old(rt.Root.h)
    ensures rt.Clean ==> rt.Contents() == old(rt.Accounted())
    ensures rt.Clean ==> (rt.Root.h >= 1 <==> old(rt.Root.h) >= 2 || old(|rt.Root.Items|) != 1)
    ensures rt.Clean && rt.Root.h >= 1 ==> rt.Valid()
    ensures rt.Clean && Balanced(rt) && (old(rt.Root.h) >= 2 ==> old(rt.Root.Items) != []) ==> Rooted(rt)
  {
    hide Shaped, Tidy, JoinItems, NoDup, Proper, ObjectsOf, Logged, Reaches, Rtree.Linked;
    if rt.Clean { rt.ContentsAreAccounted(); }
    rt.Size := rt.Size - 1;
    if |rt.Root.Items| == 1 {
      rt.KidsInside(rt.Root);
      LowerChild(rt, rt.Root.Items[0]);
      Shorten(rt);
    }
  }

  lemma LowerChild(rt: Rtree, c: RtreeNode)
    requires rt.Valid() && c in rt.Root.Items
    ensures c.h < rt.Root.h && c != rt.Root
  {
    assert Shaped(rt.Root, rt.Nodes, rt.Root, rt.Skew, rt.Dimensions, null);
  }

  lemma AllUnderRoot(rt: Rtree, leaf: OSMObject)
    requires Sane(rt)
    ensures forall d :: d in Data(rt.Nodes) && d.Leaf.ID == leaf.ID ==> d in rt.Nodes && Carries(rt, d, rt.Root, leaf)
  {
    hide Shaped, Tidy;
    forall d | d in Data(rt.Nodes) && d.Leaf.ID == leaf.ID ensures d in rt.Nodes && Carries(rt, d, rt.Root, leaf) {
      ReachesRoot(rt, d);
    }
  }

  lemma LeafRoot(rt: Rtree, l: RtreeNode)
    requires Sane(rt) && l in rt.Nodes && l.h >= 1
    ensures rt.Root.h == l.h <==> l == rt.Root
    ensures rt.Root.h == 1 ==> l == rt.Root
    ensures rt.Root.IsLeaf <==> rt.Root.h == 1
  {
    At(rt, l);
    At(rt, rt.Root);
    if l != rt.Root { At(rt, l.Parent); }
  }

  lemma NoLimboStored(rt: Rtree)
    ensures ObjectsOf(Data(NO_LIMBO.all)) == multiset{}
  {
    assert Data({}) == {};
  }
}
