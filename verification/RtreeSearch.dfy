/** Window search over the R-tree: pkg/datastructure/rtree.go, lines 499-531, and the facts about
  * ancestors that it and the nearest-neighbour search rest on. */
module RtreeSearch {
  import opened Boxes
  import opened Collections
  import opened Split
  import opened Rtrees

  /** a is d or an ancestor of d. */
  ghost predicate Under(d: RtreeNode, a: RtreeNode, S: set<RtreeNode>)
    reads S
    decreases a.h - d.h
  {
    d in S && (d == a || (d.h < a.h && d.Parent != null && d.h < d.Parent.h && Under(d.Parent, a, S)))
  }

  /** A valid tree that only clean splits have shaped. */
  ghost predicate Sane(rt: Rtree)
    reads rt, rt.Nodes
  {
    rt.Valid() && rt.Clean
  }

  /** The node-local invariant at n, unpacked. */
  lemma At(rt: Rtree, n: RtreeNode)
    requires Sane(rt) && n in rt.Nodes
    ensures Shaped(n, rt.Nodes, rt.Root, rt.Skew, rt.Dimensions, null)
    ensures Tidy(n, rt.Root, rt.MinChildItems, rt.MaxChildItems, null, null, null)
  {
    assert Tidy(n, rt.Root, rt.MinChildItems, rt.MaxChildItems, null, null, null);
  }

  lemma {:induction false} ReachesRoot(rt: Rtree, n: RtreeNode)
    requires Sane(rt) && n in rt.Nodes
    ensures Under(n, rt.Root, rt.Nodes)
    decreases rt.Root.h - n.h
  {
    At(rt, n);
    if n != rt.Root {
      At(rt, n.Parent);
      ReachesRoot(rt, n.Parent);
    }
  }

  /** Steps from n up to the root. */
  ghost function StepsToRoot(rt: Rtree, n: RtreeNode): nat
    requires Sane(rt) && n in rt.Nodes
    reads rt, rt.Nodes
    decreases rt.Root.h - n.h
  {
    At(rt, n);
    if n == rt.Root then 0 else (At(rt, n.Parent); 1 + StepsToRoot(rt, n.Parent))
  }

  /** Two leaf nodes lie at different depths. */
  ghost predicate Uneven(rt: Rtree)
    requires Sane(rt)
    reads rt, rt.Nodes
  {
    exists y, z :: y in rt.Nodes && z in rt.Nodes && y.IsLeaf && z.IsLeaf && StepsToRoot(rt, y) != StepsToRoot(rt, z)
  }

  lemma ChildContained(rt: Rtree, n: RtreeNode)
    requires Sane(rt) && n in rt.Nodes && n != rt.Root
    ensures n.Parent != null && n.Parent in rt.Nodes && n in n.Parent.Items && n.h < n.Parent.h
    ensures Fits(n.Bound, rt.Dimensions) && Fits(n.Parent.Bound, rt.Dimensions)
    ensures Contains(n.Parent.Bound, n.Bound)
  {
    hide Contains, Proper;
    At(rt, n);
    At(rt, n.Parent);
    var items := n.Parent.Items;
    forall c | c in items ensures Fits(c.Bound, rt.Dimensions) {
      At(rt, c);
    }
    JoinItemsIsLeast(items, rt.Dimensions, n.Bound);
  }

  /** A node's box lies within the box of every ancestor. */
  lemma {:induction false} UnderContained(rt: Rtree, d: RtreeNode, a: RtreeNode)
    requires Sane(rt) && a in rt.Nodes && Under(d, a, rt.Nodes) && (d != a || Fits(d.Bound, rt.Dimensions))
    ensures Contains(a.Bound, d.Bound)
    decreases a.h - d.h
  {
    hide Contains, Proper;
    if d == a {
      ContainsSelf(d.Bound, rt.Dimensions);
    } else {
      At(rt, d);
      At(rt, a);
      assert a.h <= rt.Root.h;
      ChildContained(rt, d);
      UnderContained(rt, d.Parent, a);
      ContainsTransitive(a.Bound, d.Parent.Bound, d.Bound);
    }
  }

  /** The child of a that lies on the way up from d. */
  lemma {:induction false} UnderChild(rt: Rtree, d: RtreeNode, a: RtreeNode) returns (c: RtreeNode)
    requires Sane(rt) && a in rt.Nodes && Under(d, a, rt.Nodes) && d != a
    ensures c in a.Items && c in rt.Nodes && Under(d, c, rt.Nodes)
    decreases a.h - d.h
  {
    At(rt, d);
    At(rt, a);
    if d.Parent == a {
      c := d;
    } else {
      c := UnderChild(rt, d.Parent, a);
      At(rt, d.Parent);
    }
  }

  lemma {:induction false} UnderTransitive(rt: Rtree, d: RtreeNode, c: RtreeNode, a: RtreeNode)
    requires Sane(rt) && a in rt.Nodes && c in a.Items && Under(d, c, rt.Nodes)
    ensures Under(d, a, rt.Nodes)
    decreases c.h - d.h
  {
    At(rt, a);
    At(rt, c);
    if d != c {
      At(rt, d);
      UnderTransitive(rt, d.Parent, c, a);
    }
  }

  /** No node lies below two children of the same parent. */
  lemma {:induction false} UnderOneChild(rt: Rtree, d: RtreeNode, c1: RtreeNode, c2: RtreeNode, a: RtreeNode)
    requires Sane(rt) && a in rt.Nodes && c1 in a.Items && c2 in a.Items
    requires Under(d, c1, rt.Nodes) && Under(d, c2, rt.Nodes)
    ensures c1 == c2
    decreases a.h - d.h
  {
    At(rt, a);
    At(rt, d);
    if d != c1 && d != c2 {
      UnderOneChild(rt, d.Parent, c1, c2, a);
    }
  }

  // ---- search

  /** d is a stored entry below node that overlaps the query. */
  ghost predicate Hit(rt: Rtree, d: RtreeNode, node: RtreeNode, q: Box)
    reads rt, rt.Nodes
  {
    d in rt.Nodes && d.h == 0 && Under(d, node, rt.Nodes) && Overlaps(d.Bound, q)
  }

  /** found lists exactly the hits below the first k children of node, each once. */
  ghost predicate FoundBelow(rt: Rtree, found: seq<RtreeNode>, node: RtreeNode, k: nat, q: Box)
    requires k <= |node.Items|
    reads rt, rt.Nodes, node
  {
    && NoDup(found)
    && (forall d :: d in found ==> d in rt.Nodes && exists j :: 0 <= j < k && Hit(rt, d, node.Items[j], q))
    && (forall d, j :: d in rt.Nodes && 0 <= j < k && Hit(rt, d, node.Items[j], q) ==> d in found)
  }

  ghost predicate FoundAll(rt: Rtree, found: seq<RtreeNode>, node: RtreeNode, q: Box)
    reads rt, rt.Nodes
  {
    && NoDup(found)
    && (forall d :: d in found ==> Hit(rt, d, node, q))
    && (forall d :: d in rt.Nodes && Hit(rt, d, node, q) ==> d in found)
  }

  lemma FoundNext(rt: Rtree, found: seq<RtreeNode>, sub: seq<RtreeNode>, node: RtreeNode, k: nat, q: Box)
    requires Sane(rt) && node in rt.Nodes && k < |node.Items|
    requires FoundBelow(rt, found, node, k, q) && FoundAll(rt, sub, node.Items[k], q)
    ensures FoundBelow(rt, found + sub, node, k + 1, q)
  {
    hide Hit, Under, Overlaps;
    At(rt, node);
    forall d | d in found && d in sub ensures false {
      var j :| 0 <= j < k && Hit(rt, d, node.Items[j], q);
      assert Hit(rt, d, node.Items[k], q);
      HitUnder(rt, d, node.Items[j], q);
      HitUnder(rt, d, node.Items[k], q);
      assert node.Items[j] in node.Items && node.Items[k] in node.Items;
      UnderOneChild(rt, d, node.Items[j], node.Items[k], node);
    }
    forall d | d in found + sub ensures d in rt.Nodes && exists j :: 0 <= j < k + 1 && Hit(rt, d, node.Items[j], q) {
      if d in found {
        var j :| 0 <= j < k && Hit(rt, d, node.Items[j], q);
        assert 0 <= j < k + 1 && Hit(rt, d, node.Items[j], q);
      } else {
        assert Hit(rt, d, node.Items[k], q);
        HitUnder(rt, d, node.Items[k], q);
      }
    }
    forall d, j | d in rt.Nodes && 0 <= j < k + 1 && Hit(rt, d, node.Items[j], q) ensures d in found + sub {
      if j == k { assert d in sub; }
    }
    NoDupConcat(found, sub);
  }

  lemma HitUnder(rt: Rtree, d: RtreeNode, node: RtreeNode, q: Box)
    requires Hit(rt, d, node, q)
    ensures d in rt.Nodes && Under(d, node, rt.Nodes)
  {}

  /** A child that misses the query hides no hit. */
  lemma MissPrunes(rt: Rtree, c: RtreeNode, q: Box)
    requires Sane(rt) && c in rt.Nodes && c != rt.Root && !Overlaps(c.Bound, q)
    ensures FoundAll(rt, [], c, q)
  {
    hide Overlaps, Contains, Proper;
    At(rt, c);
    forall d | d in rt.Nodes ensures !Hit(rt, d, c, q) {
      if Hit(rt, d, c, q) {
        UnderContained(rt, d, c);
        OverlapGrows(c.Bound, d.Bound, q);
      }
    }
  }

  /** In a leaf node the entry is its own and only candidate. */
  lemma EntryFound(rt: Rtree, c: RtreeNode, q: Box)
    requires Sane(rt) && c in rt.Nodes && c.h == 0 && Overlaps(c.Bound, q)
    ensures FoundAll(rt, [c], c, q)
  {}

  lemma FoundWhole(rt: Rtree, found: seq<RtreeNode>, node: RtreeNode, q: Box)
    requires Sane(rt) && node in rt.Nodes && node.h >= 1 && FoundBelow(rt, found, node, |node.Items|, q)
    ensures FoundAll(rt, found, node, q)
  {
    hide Overlaps, Shaped, Tidy;
    forall d | d in found ensures Hit(rt, d, node, q) {
      var j :| 0 <= j < |node.Items| && Hit(rt, d, node.Items[j], q);
      UnderTransitive(rt, d, node.Items[j], node);
    }
    forall d | d in rt.Nodes && Hit(rt, d, node, q) ensures d in found {
      var c := UnderChild(rt, d, node);
      var j :| 0 <= j < |node.Items| && node.Items[j] == c;
      assert Hit(rt, d, node.Items[j], q);
    }
  }

  /** search, lines 505-531: results gains exactly the hits below node. */
  method SearchNode(rt: Rtree, node: RtreeNode, bound: Box, results0: seq<RtreeNode>) returns (results: seq<RtreeNode>)
    requires Sane(rt) && node in rt.Nodes && node.h >= 1 && |bound.Edges| >= rt.Dimensions
    ensures |results| >= |results0| && results[..|results0|] == results0
    ensures FoundAll(rt, results[|results0|..], node, bound)
    decreases node.h
  {
    hide Shaped, Tidy, Overlaps, Under, FoundBelow, FoundAll, Proper, Hit;
    results := results0;
    ghost var found := [];
    FoundNone(rt, node, bound);
    for i := 0 to |node.Items|
      invariant results == results0 + found
      invariant FoundBelow(rt, found, node, i, bound)
    {
      var e := node.Items[i];
      ChildFacts(rt, node, e);
      var overlap := CheckOverlap(e.Bound, bound);
      ghost var sub := [];
      if !overlap {
        MissPrunes(rt, e, bound);
      } else if !node.IsLeaf {
        var more := SearchNode(rt, e, bound, results);
        sub := more[|results|..];
        results := more;
      } else {
        EntryFound(rt, e, bound);
        sub := [e];
        results := results + [e];
      }
      FoundNext(rt, found, sub, node, i, bound);
      found := found + sub;
    }
    FoundWhole(rt, found, node, bound);
  }

  lemma FoundNone(rt: Rtree, node: RtreeNode, q: Box)
    ensures FoundBelow(rt, [], node, 0, q)
  {}

  lemma ChildFacts(rt: Rtree, node: RtreeNode, e: RtreeNode)
    requires Sane(rt) && node in rt.Nodes && e in node.Items
    ensures e in rt.Nodes && e != rt.Root && e.h < node.h && Fits(e.Bound, rt.Dimensions)
    ensures node.IsLeaf ==> e.h == 0
    ensures !node.IsLeaf ==> e.h >= 1
  {
    At(rt, node);
    At(rt, e);
  }

  /** Search, lines 499-503: exactly the entries in the tree whose boxes overlap the query, each once. */
  method Search(rt: Rtree, bound: Box) returns (results: seq<RtreeNode>)
    requires Sane(rt) && |bound.Edges| >= rt.Dimensions
    ensures NoDup(results)
    ensures forall d :: d in results <==> d in rt.Linked() && Overlaps(d.Bound, bound)
  {
    hide Shaped, Tidy, Overlaps, Proper, Reaches, Logged, Rtree.Linked;
    rt.ContentsAreAccounted();
    results := SearchNode(rt, rt.Root, bound, []);
    forall d | d in Data(rt.Nodes) ensures Under(d, rt.Root, rt.Nodes) {
      ReachesRoot(rt, d);
    }
  }
}
