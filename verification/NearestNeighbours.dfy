/** Incremental nearest-neighbour search: pkg/datastructure/rtree.go, lines 533-723.
  *
  * The distance is a parameter. What the results rest on is BoundsHold: on this tree and for this
  * query, minDist of a node exceeds no distance to an object below by more than `slack`; the order of
  * the results is then right up to `slack`. A distance for which the point that minDist picks is
  * nearest in its box meets it with no slack, squared planar distance for one; haversine distance
  * need not.
  */
module NearestNeighbours {
  import opened Boxes
  import opened Collections
  import opened Split
  import opened Rtrees
  import opened RtreeSearch
  import opened MinHeaps

  datatype Point = Point(Lat: real, Lon: real)

  type Distance = (Point, Point) -> real

  function ClampTo(x: real, e: Edge): real {
    if x < e.lo then e.lo else if x > e.hi then e.hi else x
  }

  /** The point of the box that minDist measures to, lines 543-568. */
  function Clamp(p: Point, r: Box): Point
    requires |r.Edges| >= 2
  {
    Point(ClampTo(p.Lat, r.Edges[0]), ClampTo(p.Lon, r.Edges[1]))
  }

  function MinDist(dist: Distance, p: Point, r: Box): real
    requires |r.Edges| >= 2
  {
    dist(p, Clamp(p, r))
  }

  ghost predicate Inside(q: Point, r: Box) {
    |r.Edges| >= 2 && r.Edges[0].lo <= q.Lat <= r.Edges[0].hi && r.Edges[1].lo <= q.Lon <= r.Edges[1].hi
  }

  /** In this box, no point is nearer to p than the clamped one by more than slack. */
  ghost predicate ClampNearest(dist: Distance, p: Point, r: Box, slack: real) {
    |r.Edges| >= 2 ==> forall q :: Inside(q, r) ==> MinDist(dist, p, r) <= dist(p, q) + slack
  }

  function PlanarSquared(p: Point, q: Point): real {
    (p.Lat - q.Lat) * (p.Lat - q.Lat) + (p.Lon - q.Lon) * (p.Lon - q.Lon)
  }

  lemma SquareGrows(a: real, b: real)
    requires (0.0 <= a <= b) || (b <= a <= 0.0)
    ensures 0.0 <= a * a <= b * b
  {
    if 0.0 <= a {
      assert a * a <= a * b <= b * b;
    } else {
      assert a * a <= a * b;
      assert a * b <= b * b;
    }
  }

  lemma PlanarIsClampNearest(p: Point, r: Box)
    ensures ClampNearest(PlanarSquared, p, r, 0.0)
    ensures forall q :: PlanarSquared(p, q) >= 0.0
  {
    forall q: Point ensures PlanarSquared(p, q) >= 0.0 {
      SquareGrows(0.0, p.Lat - q.Lat);
      SquareGrows(0.0, p.Lon - q.Lon);
    }
    forall q: Point | Inside(q, r) ensures PlanarSquared(p, Clamp(p, r)) <= PlanarSquared(p, q) {
      var c := Clamp(p, r);
      SquareGrows(p.Lat - c.Lat, p.Lat - q.Lat);
      SquareGrows(p.Lon - c.Lon, p.Lon - q.Lon);
    }
  }

  /** minDist of an outer box exceeds minDist of a box inside it by no more than slack. */
  lemma NestedMinDist(dist: Distance, p: Point, slack: real, outer: Box, inner: Box, d: nat)
    requires ClampNearest(dist, p, outer, slack) && d >= 2 && Fits(outer, d) && Fits(inner, d) && Contains(outer, inner)
    ensures MinDist(dist, p, outer) <= MinDist(dist, p, inner) + slack
  {
    var c := Clamp(p, inner);
    assert inner.Edges[0].lo <= inner.Edges[0].hi && inner.Edges[1].lo <= inner.Edges[1].hi;
    assert outer.Edges[0].lo <= inner.Edges[0].lo && outer.Edges[1].lo <= inner.Edges[1].lo;
    assert Inside(c, outer);
  }

  // ---- the queue

  /** What the source queues: a subtree, or a stored object reached through its entry. */
  datatype BoundedItem = SubTree(node: RtreeNode) | Stored(node: RtreeNode)

  type Entry = QueueNode<BoundedItem>

  ghost function DistanceOf(dist: Distance, p: Point, d: RtreeNode): real {
    dist(p, Point(d.Leaf.Lat, d.Leaf.Lon))
  }

  /** Each box but the root's is a lower bound, up to slack, for the objects below it. */
  ghost predicate BoundsHold(rt: Rtree, dist: Distance, p: Point, slack: real)
    reads rt, rt.Nodes
  {
    && rt.Dimensions >= 2 && slack >= 0.0
    && (forall d :: d in Data(rt.Nodes) ==> 0.0 <= DistanceOf(dist, p, d) + slack)
    && forall n, d :: n in rt.Nodes && n != rt.Root && d in Data(rt.Nodes) && Under(d, n, rt.Nodes) && |n.Bound.Edges| >= 2 ==>
         MinDist(dist, p, n.Bound) <= DistanceOf(dist, p, d) + slack
  }

  /** Every stored object lies in its own box, and boxes have the two axes that minDist reads. */
  ghost predicate Located(rt: Rtree)
    reads rt, rt.Nodes
  {
    rt.Dimensions >= 2 && forall d :: d in Data(rt.Nodes) ==> Inside(Point(d.Leaf.Lat, d.Leaf.Lon), d.Bound)
  }

  /** An entry's rank is a lower bound, up to slack, for every object it stands for, exact once refined. */
  ghost predicate RankOk(rt: Rtree, dist: Distance, p: Point, slack: real, e: Entry)
    reads rt, rt.Nodes
  {
    && (forall d :: d in rt.Nodes && d.h == 0 && Under(d, e.Item.node, rt.Nodes) ==> e.Rank <= DistanceOf(dist, p, d) + slack)
    && (e.Item.Stored? && !e.IsObjectBoundingRectangle ==> e.Rank == DistanceOf(dist, p, e.Item.node))
  }

  ghost predicate InQueue(Q: set<Entry>, n: RtreeNode) {
    exists e :: e in Q && e.Item.node == n
  }

  /** The queue is the frontier between the nodes done with and the rest: exactly the nodes whose
    * parent is done and that are not done themselves, each once. */
  ghost predicate Frontier(rt: Rtree, Q: set<Entry>, Done: set<RtreeNode>)
    reads rt, rt.Nodes
  {
    && Done <= rt.Nodes
    && (forall e :: e in Q ==> e.Item.node in rt.Nodes && e.Item.node !in Done && (e.Item.Stored? <==> e.Item.node.h == 0))
    && (forall e, f :: e in Q && f in Q && e.Item.node == f.Item.node ==> e == f)
    && (forall e :: e in Q ==> e.Item.node == rt.Root || e.Item.node.Parent in Done)
    && (forall n :: n in Done ==> n == rt.Root || n.Parent in Done)
    && (forall n :: n in rt.Nodes && (n == rt.Root || n.Parent in Done) && n !in Done ==> InQueue(Q, n))
  }

  ghost predicate Ranked(rt: Rtree, dist: Distance, p: Point, slack: real, Q: set<Entry>)
    reads rt, rt.Nodes
  {
    slack >= 0.0 && forall e {:trigger RankOk(rt, dist, p, slack, e)} :: e in Q ==> RankOk(rt, dist, p, slack, e)
  }

  /** Whatever is not done waits below some queued entry. */
  lemma {:induction false} Waiting(rt: Rtree, Q: set<Entry>, Done: set<RtreeNode>, n: RtreeNode) returns (e: Entry)
    requires Sane(rt) && Frontier(rt, Q, Done) && n in rt.Nodes && n !in Done
    ensures e in Q && Under(n, e.Item.node, rt.Nodes)
    decreases rt.Root.h - n.h
  {
    At(rt, n);
    if n == rt.Root || n.Parent in Done {
      assert InQueue(Q, n);
      e :| e in Q && e.Item.node == n;
    } else {
      At(rt, n.Parent);
      e := Waiting(rt, Q, Done, n.Parent);
      At(rt, e.Item.node);
    }
  }

  /** What is enough for the bounds to hold: objects lie in their boxes, and in the box of each node the
    * clamped point is nearest to the query up to slack. */
  lemma BoxBound(rt: Rtree, dist: Distance, p: Point, slack: real)
    requires Sane(rt) && Located(rt) && slack >= 0.0
    requires forall d :: d in Data(rt.Nodes) ==> 0.0 <= DistanceOf(dist, p, d) + slack
    requires forall n :: n in rt.Nodes && n != rt.Root ==> ClampNearest(dist, p, n.Bound, slack)
    ensures BoundsHold(rt, dist, p, slack)
  {
    hide Proper, MinDist, Under;
    forall n, d | n in rt.Nodes && n != rt.Root && d in Data(rt.Nodes) && Under(d, n, rt.Nodes) && |n.Bound.Edges| >= 2
      ensures MinDist(dist, p, n.Bound) <= DistanceOf(dist, p, d) + slack
    {
      At(rt, n);
      At(rt, d);
      UnderContained(rt, d, n);
      var q := Point(d.Leaf.Lat, d.Leaf.Lon);
      assert Inside(q, d.Bound) && d.Bound.Edges[0].lo >= n.Bound.Edges[0].lo && d.Bound.Edges[1].lo >= n.Bound.Edges[1].lo;
      assert Inside(q, n.Bound);
    }
  }

  lemma {:induction false} LargeEnough(values: set<real>) returns (k: real)
    ensures k >= 0.0 && forall x :: x in values ==> x <= k
  {
    if values == {} {
      k := 0.0;
    } else {
      var x := Any(values);
      var rest := LargeEnough(values - {x});
      k := if x <= rest then rest else x;
      forall y | y in values ensures y <= k {
        assert y == x || y in values - {x};
      }
    }
  }

  /** Any distance meets the hypothesis with some slack, so what the searches promise is never void. */
  lemma SomeSlack(rt: Rtree, dist: Distance, p: Point) returns (slack: real)
    requires rt.Dimensions >= 2
    ensures BoundsHold(rt, dist, p, slack)
  {
    hide MinDist, Under;
    var short := set d | d in rt.Nodes :: 0.0 - DistanceOf(dist, p, d);
    var long := set n, d | n in rt.Nodes && d in rt.Nodes && |n.Bound.Edges| >= 2 :: MinDist(dist, p, n.Bound) - DistanceOf(dist, p, d);
    slack := LargeEnough(short + long);
    forall d | d in Data(rt.Nodes) ensures 0.0 <= DistanceOf(dist, p, d) + slack {
      assert 0.0 - DistanceOf(dist, p, d) in short + long;
    }
    forall n, d | n in rt.Nodes && n != rt.Root && d in Data(rt.Nodes) && Under(d, n, rt.Nodes) && |n.Bound.Edges| >= 2
      ensures MinDist(dist, p, n.Bound) <= DistanceOf(dist, p, d) + slack
    {
      assert MinDist(dist, p, n.Bound) - DistanceOf(dist, p, d) in long;
    }
  }

  /** Planar distance meets the hypothesis for every query, with no slack. */
  lemma PlanarBoundsHold(rt: Rtree, p: Point)
    requires Sane(rt) && Located(rt)
    ensures BoundsHold(rt, PlanarSquared, p, 0.0)
  {
    PlanarIsClampNearest(p, ZeroBox);
    forall n | n in rt.Nodes && n != rt.Root ensures ClampNearest(PlanarSquared, p, n.Bound, 0.0) {
      PlanarIsClampNearest(p, n.Bound);
    }
    BoxBound(rt, PlanarSquared, p, 0.0);
  }

  // ---- expanding a node

  ghost predicate Sync(pq: MinHeap<BoundedItem>, Q: set<Entry>)
    reads pq
  {
    pq.Valid() && multiset(pq.heap) == multiset(Q)
  }

  ghost function EntryFor(dist: Distance, p: Point, node: RtreeNode, item: RtreeNode): Entry
    requires |item.Bound.Edges| >= 2
    reads item
  {
    if node.IsLeaf then QueueNode(MinDist(dist, p, item.Bound), Stored(item), true)
    else QueueNode(MinDist(dist, p, item.Bound), SubTree(item), false)
  }

  /** Q' is Q and one new entry for each of the items. */
  ghost predicate Pushed(dist: Distance, p: Point, node: RtreeNode, items: seq<RtreeNode>, Q: set<Entry>,
                         Q': set<Entry>)
    reads items
  {
    && Q <= Q'
    && (forall c :: c in items ==> |c.Bound.Edges| >= 2 && EntryFor(dist, p, node, c) in Q')
    && (forall e :: e in Q' && e !in Q ==> e.Item.node in items)
    && (forall e :: e in Q' && e !in Q && |e.Item.node.Bound.Edges| >= 2 ==> e == EntryFor(dist, p, node, e.Item.node))
  }

  lemma PushedNext(dist: Distance, p: Point, node: RtreeNode, items: seq<RtreeNode>, c: RtreeNode, Q: set<Entry>,
                   Q': set<Entry>)
    requires Pushed(dist, p, node, items, Q, Q') && |c.Bound.Edges| >= 2 && c !in items
    requires forall e :: e in Q ==> e.Item.node != c
    ensures EntryFor(dist, p, node, c) !in Q'
    ensures Pushed(dist, p, node, items + [c], Q, Q' + {EntryFor(dist, p, node, c)})
  {
    hide MinDist;
    assert EntryFor(dist, p, node, c).Item.node == c;
  }

  /** The two loops of lines 709-720: every child of node joins the queue. */
  method PushChildren(rt: Rtree, pq: MinHeap<BoundedItem>, node: RtreeNode, p: Point, dist: Distance,
                      ghost Q: set<Entry>)
    returns (ghost Q': set<Entry>)
    requires Sane(rt) && rt.Dimensions >= 2 && node in rt.Nodes && node.h >= 1 && Sync(pq, Q)
    requires forall e :: e in Q ==> e.Item.node !in node.Items
    modifies pq
    ensures Sync(pq, Q') && Pushed(dist, p, node, node.Items, Q, Q')
  {
    hide Shaped, Tidy, MinHeap.Valid, Under, Clamp, MinDist, Pushed, EntryFor, Proper;
    Q' := Q;
    assert Pushed(dist, p, node, [], Q, Q') by { PushedNone(dist, p, node, Q); }
    for i := 0 to |node.Items|
      invariant Sync(pq, Q') && Pushed(dist, p, node, node.Items[..i], Q, Q')
    {
      var item := node.Items[i];
      ChildFacts(rt, node, item);
      NotEarlier(rt, node, i);
      PushedNext(dist, p, node, node.Items[..i], item, Q, Q');
      var key;
      if node.IsLeaf {
        LeafBound(rt, item);
        key := QueueNode(MinDist(dist, p, item.Leaf.Bound), Stored(item), true);
      } else {
        key := QueueNode(MinDist(dist, p, item.Bound), SubTree(item), false);
      }
      assert key == EntryFor(dist, p, node, item) by { EntryIs(dist, p, node, item); }
      pq.Insert(key);
      Q' := Q' + {key};
      assert node.Items[..i + 1] == node.Items[..i] + [item];
    }
    assert node.Items[..|node.Items|] == node.Items;
  }

  lemma PushedNone(dist: Distance, p: Point, node: RtreeNode, Q: set<Entry>)
    ensures Pushed(dist, p, node, [], Q, Q)
  {}

  lemma EntryIs(dist: Distance, p: Point, node: RtreeNode, item: RtreeNode)
    requires |item.Bound.Edges| >= 2 && (node.IsLeaf ==> item.Bound == item.Leaf.Bound)
    ensures EntryFor(dist, p, node, item) ==
      if node.IsLeaf then QueueNode(MinDist(dist, p, item.Leaf.Bound), Stored(item), true)
      else QueueNode(MinDist(dist, p, item.Bound), SubTree(item), false)
  {}

  lemma NotEarlier(rt: Rtree, node: RtreeNode, i: nat)
    requires Sane(rt) && node in rt.Nodes && i < |node.Items|
    ensures node.Items[i] !in node.Items[..i]
  {
    At(rt, node);
  }

  lemma LeafBound(rt: Rtree, d: RtreeNode)
    requires Sane(rt) && d in rt.Nodes && d.h == 0
    ensures d.Bound == d.Leaf.Bound
  {
    At(rt, d);
  }

  lemma SetTake<T>(Q: set<T>, m: multiset<T>, e: T)
    requires multiset(Q) == m + multiset{e}
    ensures e in Q && m == multiset(Q - {e})
  {
    assert e in multiset(Q);
    forall x ensures m[x] == multiset(Q - {e})[x] {
      assert multiset(Q)[x] == m[x] + multiset{e}[x];
    }
  }

  lemma ChildrenUnqueued(rt: Rtree, Q: set<Entry>, Done: set<RtreeNode>, element: Entry)
    requires Sane(rt) && Frontier(rt, Q, Done) && element in Q
    ensures forall e :: e in Q ==> e.Item.node !in element.Item.node.Items
  {
    At(rt, element.Item.node);
    forall e | e in Q ensures e.Item.node !in element.Item.node.Items {
      At(rt, e.Item.node);
    }
  }

  /** Replacing a subtree by its children keeps the frontier. */
  lemma Expanded(rt: Rtree, dist: Distance, p: Point, Q: set<Entry>, Q': set<Entry>, Done: set<RtreeNode>,
                 element: Entry)
    requires Sane(rt) && Frontier(rt, Q, Done) && element in Q && element.Item.SubTree?
    requires Pushed(dist, p, element.Item.node, element.Item.node.Items, Q - {element}, Q')
    ensures Frontier(rt, Q', Done + {element.Item.node})
  {
    hide MinDist;
    var node := element.Item.node;
    At(rt, node);
    forall e | e in Q' ensures e.Item.node in rt.Nodes && e.Item.node !in Done + {node} && (e.Item.Stored? <==> e.Item.node.h == 0)
                               && (e.Item.node == rt.Root || e.Item.node.Parent in Done + {node}) {
      if e !in Q {
        ChildFacts(rt, node, e.Item.node);
        At(rt, e.Item.node);
        assert e == EntryFor(dist, p, node, e.Item.node) by { assert |e.Item.node.Bound.Edges| >= 2; }
      }
    }
    forall e, f | e in Q' && f in Q' && e.Item.node == f.Item.node ensures e == f {
      ChildrenUnqueued(rt, Q, Done, element);
    }
    forall n | n in rt.Nodes && (n == rt.Root || n.Parent in Done + {node}) && n !in Done + {node} ensures InQueue(Q', n) {
      At(rt, n);
      if n != rt.Root && n.Parent == node {
        assert EntryFor(dist, p, node, n) in Q' && EntryFor(dist, p, node, n).Item.node == n;
      } else {
        assert InQueue(Q, n);
        var e :| e in Q && e.Item.node == n;
        assert e in Q' && e.Item.node == n;
      }
    }
  }

  lemma ExpandedRanked(rt: Rtree, dist: Distance, p: Point, slack: real, Q: set<Entry>, Q': set<Entry>, element: Entry)
    requires Sane(rt) && BoundsHold(rt, dist, p, slack) && Ranked(rt, dist, p, slack, Q)
    requires element.Item.node in rt.Nodes && element.Item.SubTree?
    requires Pushed(dist, p, element.Item.node, element.Item.node.Items, Q - {element}, Q')
    ensures Ranked(rt, dist, p, slack, Q')
  {
    hide MinDist, Under;
    var node := element.Item.node;
    forall e | e in Q' ensures RankOk(rt, dist, p, slack, e) {
      if e in Q {
        assert RankOk(rt, dist, p, slack, e);
      } else {
        var c := e.Item.node;
        ChildFacts(rt, node, c);
        assert e == EntryFor(dist, p, node, c);
        forall d | d in rt.Nodes && d.h == 0 && Under(d, c, rt.Nodes) ensures e.Rank <= DistanceOf(dist, p, d) + slack {
          assert d in Data(rt.Nodes);
        }
      }
    }
  }

  /** Replacing an object's box rank by its exact distance keeps the frontier. */
  lemma Refined(rt: Rtree, dist: Distance, p: Point, slack: real, Q: set<Entry>, Done: set<RtreeNode>, element: Entry, exact: Entry)
    requires Sane(rt) && Frontier(rt, Q, Done) && Ranked(rt, dist, p, slack, Q) && element in Q && element.Item.Stored?
    requires exact == QueueNode(DistanceOf(dist, p, element.Item.node), element.Item, false)
    ensures Frontier(rt, Q - {element} + {exact}, Done) && Ranked(rt, dist, p, slack, Q - {element} + {exact})
  {
    var Q' := Q - {element} + {exact};
    var node := element.Item.node;
    forall n | n in rt.Nodes && (n == rt.Root || n.Parent in Done) && n !in Done ensures InQueue(Q', n) {
      assert InQueue(Q, n);
      var e :| e in Q && e.Item.node == n;
      assert (if e == element then exact else e) in Q';
    }
    forall e | e in Q' ensures RankOk(rt, dist, p, slack, e) {
      if e != exact {
        assert RankOk(rt, dist, p, slack, e);
      }
    }
  }

  /** Reporting an object removes it from the frontier for good. */
  lemma Reported(rt: Rtree, dist: Distance, p: Point, slack: real, Q: set<Entry>, Done: set<RtreeNode>, element: Entry)
    requires Sane(rt) && Frontier(rt, Q, Done) && Ranked(rt, dist, p, slack, Q) && element in Q && element.Item.Stored?
    ensures Frontier(rt, Q - {element}, Done + {element.Item.node}) && Ranked(rt, dist, p, slack, Q - {element})
  {
    var node := element.Item.node;
    At(rt, node);
    forall n | n in rt.Nodes && (n == rt.Root || n.Parent in Done + {node}) && n !in Done + {node} ensures InQueue(Q - {element}, n) {
      At(rt, n);
      assert InQueue(Q, n);
      var e :| e in Q && e.Item.node == n;
      assert e in Q - {element};
    }
  }

  /** A queue that starts with the whole tree. */
  lemma Started(rt: Rtree, dist: Distance, p: Point, slack: real, e: Entry)
    requires Sane(rt) && BoundsHold(rt, dist, p, slack) && e == QueueNode(0.0, SubTree(rt.Root), false)
    ensures Frontier(rt, {e}, {}) && Ranked(rt, dist, p, slack, {e})
  {
    At(rt, rt.Root);
    forall n | n in rt.Nodes && n == rt.Root ensures InQueue({e}, n) {
      assert e in {e} && e.Item.node == n;
    }
  }

  // ---- the results

  /** out lists stored entries without repetition, nearest first, and nearer than any it leaves out. */
  ghost predicate NearestFirst(rt: Rtree, dist: Distance, p: Point, slack: real, out: seq<RtreeNode>)
    reads rt, rt.Nodes
  {
    && NoDup(out)
    && (forall d :: d in out ==> d in Data(rt.Nodes))
    && (forall i, j :: 0 <= i < j < |out| ==> DistanceOf(dist, p, out[i]) <= DistanceOf(dist, p, out[j]) + slack)
    && (forall i, d :: 0 <= i < |out| && d in Data(rt.Nodes) && d !in out ==> DistanceOf(dist, p, out[i]) <= DistanceOf(dist, p, d) + slack)
  }

  /** The entry at the head of the queue is a nearest of those not yet reported. */
  lemma HeadIsNearest(rt: Rtree, dist: Distance, p: Point, slack: real, Q: set<Entry>, Done: set<RtreeNode>, element: Entry,
                      d: RtreeNode)
    requires Sane(rt) && Frontier(rt, Q, Done) && Ranked(rt, dist, p, slack, Q) && element in Q && element.Item.Stored?
    requires forall e :: e in Q && e != element ==> element.Rank <= e.Rank
    requires element.IsObjectBoundingRectangle ==>
      forall e :: e in Q && e != element ==> DistanceOf(dist, p, element.Item.node) <= e.Rank
    requires d in Data(rt.Nodes) && d !in Done
    ensures DistanceOf(dist, p, element.Item.node) <= DistanceOf(dist, p, d) + slack
  {
    var e := Waiting(rt, Q, Done, d);
    assert RankOk(rt, dist, p, slack, e) && RankOk(rt, dist, p, slack, element);
    if e == element {
      assert d == element.Item.node;
    }
  }

  lemma ReportNext(rt: Rtree, dist: Distance, p: Point, slack: real, Q: set<Entry>, Done: set<RtreeNode>, element: Entry,
                   out: seq<RtreeNode>)
    requires Sane(rt) && Frontier(rt, Q, Done) && Ranked(rt, dist, p, slack, Q) && element in Q && element.Item.Stored?
    requires forall e :: e in Q && e != element ==> element.Rank <= e.Rank
    requires element.IsObjectBoundingRectangle ==>
      forall e :: e in Q && e != element ==> DistanceOf(dist, p, element.Item.node) <= e.Rank
    requires NearestFirst(rt, dist, p, slack, out) && forall d :: d in Data(rt.Nodes) ==> (d in out <==> d in Done)
    ensures NearestFirst(rt, dist, p, slack, out + [element.Item.node])
    ensures forall d :: d in Data(rt.Nodes) ==> (d in out + [element.Item.node] <==> d in Done + {element.Item.node})
  {
    var x := element.Item.node;
    var next := out + [x];
    assert x in Data(rt.Nodes) && x !in out;
    hide Under, Ranked;
    NoDupConcat(out, [x]);
    forall i, d | 0 <= i < |next| && d in Data(rt.Nodes) && d !in next ensures DistanceOf(dist, p, next[i]) <= DistanceOf(dist, p, d) + slack {
      if i == |out| {
        HeadIsNearest(rt, dist, p, slack, Q, Done, element, d);
      }
    }
  }

  ghost function ObjectsIn(out: seq<RtreeNode>): (r: seq<OSMObject>)
    ensures |r| == |out| && forall i :: 0 <= i < |r| ==> r[i] == out[i].Leaf
  {
    seq(|out|, i requires 0 <= i < |out| => out[i].Leaf)
  }

  /** Objects already refined are out of reach of later expansions, so refinement terminates. */
  ghost predicate SharpOk(rt: Rtree, Q: set<Entry>, Done: set<RtreeNode>, Sharp: set<RtreeNode>)
    reads rt, rt.Nodes
  {
    && Sharp <= rt.Nodes
    && (forall n :: n in Sharp ==> n.Parent in Done)
    && (forall e :: e in Q && e.IsObjectBoundingRectangle ==> e.Item.node !in Sharp)
  }

  lemma SharpExpanded(rt: Rtree, dist: Distance, p: Point, Q: set<Entry>, Q': set<Entry>, Done: set<RtreeNode>,
                      Sharp: set<RtreeNode>, element: Entry)
    requires Sane(rt) && Frontier(rt, Q, Done) && SharpOk(rt, Q, Done, Sharp) && element in Q && element.Item.SubTree?
    requires Pushed(dist, p, element.Item.node, element.Item.node.Items, Q - {element}, Q')
    ensures SharpOk(rt, Q', Done + {element.Item.node}, Sharp)
  {
    hide MinDist;
    forall e | e in Q' && e.IsObjectBoundingRectangle ensures e.Item.node !in Sharp {
      if e !in Q {
        At(rt, element.Item.node);
        At(rt, e.Item.node);
      }
    }
  }

  lemma SharpRefined(rt: Rtree, Q: set<Entry>, Done: set<RtreeNode>, Sharp: set<RtreeNode>, element: Entry,
                     exact: Entry)
    requires Sane(rt) && Frontier(rt, Q, Done) && SharpOk(rt, Q, Done, Sharp) && element in Q && element.Item.Stored?
    requires element.IsObjectBoundingRectangle && !exact.IsObjectBoundingRectangle && exact.Item == element.Item
    ensures element.Item.node !in Sharp
    ensures SharpOk(rt, Q - {element} + {exact}, Done, Sharp + {element.Item.node})
  {
    At(rt, element.Item.node);
  }

  /** Everything the loop keeps. */
  ghost predicate Going(rt: Rtree, dist: Distance, p: Point, slack: real, Q: set<Entry>, Done: set<RtreeNode>,
                        Sharp: set<RtreeNode>, out: seq<RtreeNode>)
    reads rt, rt.Nodes
  {
    && Frontier(rt, Q, Done) && Ranked(rt, dist, p, slack, Q) && SharpOk(rt, Q, Done, Sharp)
    && NearestFirst(rt, dist, p, slack, out)
    && (forall d :: d in Data(rt.Nodes) ==> (d in out <==> d in Done))
  }

  lemma GoingStart(rt: Rtree, dist: Distance, p: Point, slack: real, e: Entry)
    requires Sane(rt) && BoundsHold(rt, dist, p, slack) && e == QueueNode(0.0, SubTree(rt.Root), false)
    ensures Going(rt, dist, p, slack, {e}, {}, {}, [])
  {
    Started(rt, dist, p, slack, e);
  }

  lemma GoingExpand(rt: Rtree, dist: Distance, p: Point, slack: real, Q: set<Entry>, Q': set<Entry>, Done: set<RtreeNode>,
                    Sharp: set<RtreeNode>,
                    out: seq<RtreeNode>, element: Entry)
    requires Sane(rt) && BoundsHold(rt, dist, p, slack) && Going(rt, dist, p, slack, Q, Done, Sharp, out)
    requires element in Q && element.Item.SubTree?
    requires Pushed(dist, p, element.Item.node, element.Item.node.Items, Q - {element}, Q')
    ensures Going(rt, dist, p, slack, Q', Done + {element.Item.node}, Sharp, out)
    ensures element.Item.node in rt.Nodes && element.Item.node !in Done
  {
    Expanded(rt, dist, p, Q, Q', Done, element);
    ExpandedRanked(rt, dist, p, slack, Q, Q', element);
    SharpExpanded(rt, dist, p, Q, Q', Done, Sharp, element);
    hide Under, MinDist, BoundsHold, Pushed, SharpOk, Ranked, Sane, NearestFirst;
  }

  lemma GoingRefine(rt: Rtree, dist: Distance, p: Point, slack: real, Q: set<Entry>, Done: set<RtreeNode>, Sharp: set<RtreeNode>,
                    out: seq<RtreeNode>, element: Entry, exact: Entry)
    requires Sane(rt) && Going(rt, dist, p, slack, Q, Done, Sharp, out)
    requires element in Q && element.Item.Stored? && element.IsObjectBoundingRectangle
    requires exact == QueueNode(DistanceOf(dist, p, element.Item.node), element.Item, false)
    ensures Going(rt, dist, p, slack, Q - {element} + {exact}, Done, Sharp + {element.Item.node}, out)
    ensures element.Item.node in rt.Nodes && element.Item.node !in Sharp && exact !in Q - {element}
  {
    Refined(rt, dist, p, slack, Q, Done, element, exact);
    SharpRefined(rt, Q, Done, Sharp, element, exact);
  }

  lemma GoingReport(rt: Rtree, dist: Distance, p: Point, slack: real, Q: set<Entry>, Done: set<RtreeNode>, Sharp: set<RtreeNode>,
                    out: seq<RtreeNode>, element: Entry)
    requires Sane(rt) && Going(rt, dist, p, slack, Q, Done, Sharp, out) && element in Q && element.Item.Stored?
    requires forall e :: e in Q - {element} ==> element.Rank <= e.Rank
    requires element.IsObjectBoundingRectangle ==>
      forall e :: e in Q - {element} ==> DistanceOf(dist, p, element.Item.node) <= e.Rank
    ensures Going(rt, dist, p, slack, Q - {element}, Done + {element.Item.node}, Sharp, out + [element.Item.node])
    ensures element.Item.node in rt.Nodes && element.Item.node !in Done
  {
    hide Under;
    ReportNext(rt, dist, p, slack, Q, Done, element, out);
    Reported(rt, dist, p, slack, Q, Done, element);
  }

  lemma GoingEnd(rt: Rtree, dist: Distance, p: Point, slack: real, Done: set<RtreeNode>, Sharp: set<RtreeNode>, out: seq<RtreeNode>)
    requires Sane(rt) && Going(rt, dist, p, slack, {}, Done, Sharp, out)
    ensures forall d :: d in Data(rt.Nodes) ==> d in out
  {
    forall d | d in Data(rt.Nodes) ensures d in Done {
      if d !in Done {
        var e := Waiting(rt, {}, Done, d);
      }
    }
  }

  lemma QueueFacts(rt: Rtree, dist: Distance, p: Point, slack: real, Q: set<Entry>, Done: set<RtreeNode>, Sharp: set<RtreeNode>,
                   out: seq<RtreeNode>, element: Entry)
    requires Sane(rt) && Going(rt, dist, p, slack, Q, Done, Sharp, out) && element in Q
    ensures element.Item.node in rt.Nodes
    ensures element.Item.SubTree? ==> element.Item.node.h >= 1
    ensures forall e :: e in Q - {element} ==> e.Item.node !in element.Item.node.Items
  {
    hide Under;
    At(rt, element.Item.node);
    ChildrenUnqueued(rt, Q, Done, element);
  }

  lemma GoingGives(rt: Rtree, dist: Distance, p: Point, slack: real, Q: set<Entry>, Done: set<RtreeNode>, Sharp: set<RtreeNode>,
                   out: seq<RtreeNode>)
    requires Going(rt, dist, p, slack, Q, Done, Sharp, out)
    ensures NearestFirst(rt, dist, p, slack, out)
  {}

  lemma TwoAxes(rt: Rtree, dist: Distance, p: Point, slack: real)
    requires BoundsHold(rt, dist, p, slack)
    ensures rt.Dimensions >= 2 && slack >= 0.0
  {}

  /** The branch of the loop for a subtree: its children take its place. */
  method Expand(rt: Rtree, pq: MinHeap<BoundedItem>, element: Entry, p: Point, dist: Distance, ghost slack: real, ghost Q: set<Entry>,
                ghost Done: set<RtreeNode>, ghost Sharp: set<RtreeNode>, ghost out: seq<RtreeNode>) returns (ghost Q': set<Entry>)
    requires Sane(rt) && BoundsHold(rt, dist, p, slack) && Going(rt, dist, p, slack, Q, Done, Sharp, out)
    requires element in Q && element.Item.SubTree? && Sync(pq, Q - {element})
    modifies pq
    ensures Sync(pq, Q') && Going(rt, dist, p, slack, Q', Done + {element.Item.node}, Sharp, out)
    ensures element.Item.node in rt.Nodes && element.Item.node !in Done
  {
    hide Sane, BoundsHold, Going, Pushed, MinHeap.Valid;
    QueueFacts(rt, dist, p, slack, Q, Done, Sharp, out, element);
    TwoAxes(rt, dist, p, slack);
    Q' := PushChildren(rt, pq, element.Item.node, p, dist, Q - {element});
    GoingExpand(rt, dist, p, slack, Q, Q', Done, Sharp, out, element);
  }

  /** The branch for an object: refined if something queued may be nearer, reported otherwise. */
  method Settle(rt: Rtree, pq: MinHeap<BoundedItem>, element: Entry, p: Point, dist: Distance, ghost slack: real, ghost Q: set<Entry>,
                ghost Done: set<RtreeNode>, ghost Sharp: set<RtreeNode>, ghost out: seq<RtreeNode>)
    returns (report: bool, ghost Q': set<Entry>)
    requires Sane(rt) && Going(rt, dist, p, slack, Q, Done, Sharp, out)
    requires element in Q && element.Item.Stored? && Sync(pq, Q - {element})
    requires forall e :: e in Q - {element} ==> element.Rank <= e.Rank
    modifies pq
    ensures Sync(pq, Q') && element.Item.node in rt.Nodes
    ensures report ==> Going(rt, dist, p, slack, Q', Done + {element.Item.node}, Sharp, out + [element.Item.node])
    ensures !report ==> Going(rt, dist, p, slack, Q', Done, Sharp + {element.Item.node}, out)
    ensures report ==> element.Item.node !in Done
    ensures !report ==> element.Item.node !in Sharp
  {
    hide Sane, Going, MinHeap.Valid;
    QueueFacts(rt, dist, p, slack, Q, Done, Sharp, out, element);
    var qObjectDist := dist(p, Point(element.Item.node.Leaf.Lat, element.Item.node.Leaf.Lon));
    var first := pq.GetMin();
    if element.IsObjectBoundingRectangle && first.Some? && qObjectDist > first.value.Rank {
      var exact := QueueNode(qObjectDist, element.Item, false);
      GoingRefine(rt, dist, p, slack, Q, Done, Sharp, out, element, exact);
      pq.Insert(exact);
      Q' := Q - {element} + {exact};
      report := false;
    } else {
      SmallestLeft(pq, Q - {element}, first, element, qObjectDist);
      GoingReport(rt, dist, p, slack, Q, Done, Sharp, out, element);
      Q' := Q - {element};
      report := true;
    }
  }

  /** One turn of the search: the head of the queue is expanded, refined or found to be the next entry. */
  method Turn(rt: Rtree, pq: MinHeap<BoundedItem>, p: Point, dist: Distance, ghost slack: real, ghost Q: set<Entry>,
              ghost Done: set<RtreeNode>, ghost Sharp: set<RtreeNode>, ghost out: seq<RtreeNode>)
    returns (found: Option<RtreeNode>, ghost Q': set<Entry>, ghost Done': set<RtreeNode>, ghost Sharp': set<RtreeNode>)
    requires Sane(rt) && BoundsHold(rt, dist, p, slack) && Sync(pq, Q) && Going(rt, dist, p, slack, Q, Done, Sharp, out) && pq.heap != []
    modifies pq
    ensures Sync(pq, Q') && Going(rt, dist, p, slack, Q', Done', Sharp', if found.Some? then out + [found.value] else out)
    ensures found.Some? ==> found.value in rt.Nodes
    ensures (Done' == Done && rt.Nodes - Sharp' < rt.Nodes - Sharp) || rt.Nodes - Done' < rt.Nodes - Done
  {
    hide Sane, BoundsHold, Going, MinHeap.Valid;
    var top := pq.ExtractMin();
    var element := top.value;
    ghost var n := element.Item.node;
    SetTake(Q, multiset(pq.heap), element);
    assert forall e :: e in Q - {element} ==> e in multiset(pq.heap);
    Done', Sharp', found := Done, Sharp, None;
    if element.Item.Stored? {
      var report;
      report, Q' := Settle(rt, pq, element, p, dist, slack, Q, Done, Sharp, out);
      if report {
        Done', found := Done + {n}, Some(element.Item.node);
        OneLess(rt.Nodes, Done, n);
      } else {
        Sharp' := Sharp + {n};
        OneLess(rt.Nodes, Sharp, n);
      }
    } else {
      Q' := Expand(rt, pq, element, p, dist, slack, Q, Done, Sharp, out);
      Done' := Done + {n};
      OneLess(rt.Nodes, Done, n);
    }
  }

  lemma OneLess(all: set<RtreeNode>, some: set<RtreeNode>, n: RtreeNode)
    requires n in all && n !in some
    ensures all - (some + {n}) < all - some
  {
    assert n in all - some;
  }

  lemma ReportGrows(out: seq<RtreeNode>, n: RtreeNode, reported: seq<OSMObject>, callback: seq<OSMObject> -> bool)
    requires reported == ObjectsIn(out) && forall k :: 1 <= k <= |reported| ==> callback(reported[..k])
    ensures reported + [n.Leaf] == ObjectsIn(out + [n])
    ensures forall k :: 1 <= k < |reported| + 1 ==> callback((reported + [n.Leaf])[..k])
  {
    assert forall k :: 1 <= k < |reported| + 1 ==> (reported + [n.Leaf])[..k] == reported[..k];
  }

  /** incrementalNearestNeighbor, lines 685-723. The callback is any function of the objects reported
    * so far; it ends the search by returning false. */
  method IncrementalNearestNeighbor(rt: Rtree, p: Point, dist: Distance, ghost slack: real, callback: seq<OSMObject> -> bool)
    returns (reported: seq<OSMObject>, ghost out: seq<RtreeNode>)
    requires Sane(rt) && BoundsHold(rt, dist, p, slack)
    ensures NearestFirst(rt, dist, p, slack, out) && reported == ObjectsIn(out)
    ensures (forall d :: d in Data(rt.Nodes) ==> d in out) || (reported != [] && !callback(reported))
    ensures forall k :: 1 <= k < |reported| ==> callback(reported[..k])
  {
    hide Sane, BoundsHold, Going, NearestFirst, MinHeap.Valid, ObjectsIn;
    reported, out := [], [];
    var pq := new MinHeap<BoundedItem>();
    var start := QueueNode(0.0, SubTree(rt.Root), false);
    pq.Insert(start);
    ghost var Q, Done, Sharp: set<RtreeNode> := {start}, {}, {};
    GoingStart(rt, dist, p, slack, start);
    while pq.Size() > 0
      invariant Sync(pq, Q) && Going(rt, dist, p, slack, Q, Done, Sharp, out)
      invariant reported == ObjectsIn(out)
      invariant forall k :: 1 <= k <= |reported| ==> callback(reported[..k])
      decreases rt.Nodes - Done, rt.Nodes - Sharp
    {
      var found: Option<RtreeNode>;
      ghost var Q', Done', Sharp';
      found, Q', Done', Sharp' := Turn(rt, pq, p, dist, slack, Q, Done, Sharp, out);
      Q, Done, Sharp := Q', Done', Sharp';
      if found.Some? {
        ReportGrows(out, found.value, reported, callback);
        out := out + [found.value];
        reported := reported + [found.value.Leaf];
        if !callback(reported) {
          GoingGives(rt, dist, p, slack, Q, Done, Sharp, out);
          return;
        }
        assert reported[..|reported|] == reported;
      }
    }
    EmptyQueue(pq, Q);
    GoingEnd(rt, dist, p, slack, Done, Sharp, out);
    GoingGives(rt, dist, p, slack, Q, Done, Sharp, out);
  }

  lemma EmptyQueue(pq: MinHeap<BoundedItem>, Q: set<Entry>)
    requires multiset(pq.heap) == multiset(Q) && pq.heap == []
    ensures Q == {}
  {
    assert forall e :: e in Q ==> e in multiset(Q);
  }

  lemma SmallestLeft(pq: MinHeap<BoundedItem>, rest: set<Entry>, first: Option<Entry>, element: Entry,
                     qObjectDist: real)
    requires multiset(pq.heap) == multiset(rest)
    requires first == None <==> pq.heap == []
    requires first.Some? ==> forall i :: 0 <= i < |pq.heap| ==> first.value.Rank <= pq.heap[i].Rank
    requires element.IsObjectBoundingRectangle ==> first == None || qObjectDist <= first.value.Rank
    ensures element.IsObjectBoundingRectangle ==> forall e :: e in rest ==> qObjectDist <= e.Rank
  {
    forall e | e in rest && element.IsObjectBoundingRectangle ensures qObjectDist <= e.Rank {
      assert e in multiset(rest);
      assert e in pq.heap;
    }
  }

  // ---- the three searches built on it

  lemma {:induction false} NoDupCardinality<T>(s: seq<T>, all: set<T>)
    requires NoDup(s) && forall x :: x in s ==> x in all
    ensures |s| <= |all|
    ensures (forall x :: x in all ==> x in s) ==> |s| == |all|
  {
    if s == [] {
      if x :| x in all {
        assert x !in s;
      }
    } else {
      var n := |s| - 1;
      var init := s[..n];
      assert s == init + [s[n]];
      assert s[n] in s;
      forall x | x in init ensures x in all - {s[n]} {
        assert x in s;
      }
      NoDupCardinality(init, all - {s[n]});
      if forall x :: x in all ==> x in s {
        forall x | x in all - {s[n]} ensures x in init {
          assert x in s;
        }
      }
    }
  }

  /** NearestNeighboursPQ, lines 635-649: the k nearest objects, nearest first. Asked for none, it
    * still reports one. */
  method NearestNeighboursPQ(rt: Rtree, k: nat, p: Point, dist: Distance, ghost slack: real)
    returns (nearestLists: seq<OSMObject>, ghost out: seq<RtreeNode>)
    requires Sane(rt) && BoundsHold(rt, dist, p, slack) && rt.Size == |Data(rt.Nodes)|
    ensures NearestFirst(rt, dist, p, slack, out) && nearestLists == ObjectsIn(out)
    ensures var wanted := if k == 0 then 1 else k; |nearestLists| == if rt.Size < wanted then rt.Size else wanted
  {
    hide Sane, BoundsHold;
    var size := rt.Size;
    var callback := (found: seq<OSMObject>) => if size > k then |found| < k else |found| < size;
    nearestLists, out := IncrementalNearestNeighbor(rt, p, dist, slack, callback);
    NoDupCardinality(out, Data(rt.Nodes));
    if |nearestLists| > 1 {
      assert callback(nearestLists[..|nearestLists| - 1]);
    }
  }

  ghost predicate Nearest(rt: Rtree, dist: Distance, p: Point, slack: real, x: RtreeNode)
    reads rt
  {
    forall d :: d in Data(rt.Nodes) ==> DistanceOf(dist, p, x) <= DistanceOf(dist, p, d) + slack
  }

  /** ImprovedNearestNeighbor, lines 725-738. */
  method ImprovedNearestNeighbor(rt: Rtree, p: Point, dist: Distance, ghost slack: real) returns (nearest: OSMObject)
    requires Sane(rt) && BoundsHold(rt, dist, p, slack)
    ensures Data(rt.Nodes) == {} ==> nearest == NO_OBJECT
    ensures Data(rt.Nodes) != {} ==> exists x :: x in Data(rt.Nodes) && nearest == x.Leaf && Nearest(rt, dist, p, slack, x)
  {
    hide Sane, BoundsHold, NearestFirst, Nearest;
    var reported;
    ghost var out;
    var callback := (found: seq<OSMObject>) => false;
    reported, out := IncrementalNearestNeighbor(rt, p, dist, slack, callback);
    if |reported| > 1 { WasAsked(callback, reported, 1); }
    nearest := if reported == [] then NO_OBJECT else reported[|reported| - 1];
    assert |reported| <= 1;
    if out == [] {
      assert Data(rt.Nodes) == {};
    } else {
      TwoAxes(rt, dist, p, slack);
      FirstIsNearest(rt, dist, p, slack, out);
    }
  }

  lemma WasAsked(callback: seq<OSMObject> -> bool, reported: seq<OSMObject>, k: nat)
    requires 1 <= k < |reported| && forall j :: 1 <= j < |reported| ==> callback(reported[..j])
    ensures callback(reported[..k])
  {}

  lemma FirstIsNearest(rt: Rtree, dist: Distance, p: Point, slack: real, out: seq<RtreeNode>)
    requires NearestFirst(rt, dist, p, slack, out) && slack >= 0.0 && out != []
    ensures out[0] in Data(rt.Nodes) && Nearest(rt, dist, p, slack, out[0])
  {
    assert out[0] in out;
  }

  const SKIP_OSM_FEATURE := -9999

  ghost predicate InRange(dist: Distance, p: Point, o: OSMObject, maxRadius: real, osmFeature: int) {
    dist(p, Point(o.Lat, o.Lon)) <= maxRadius && (osmFeature == SKIP_OSM_FEATURE || osmFeature in o.Tag)
  }

  /** matches lists entries within the radius that carry the feature, nearest first up to slack, and
    * misses none that is within the radius less the slack. */
  ghost predicate AllMatches(rt: Rtree, dist: Distance, p: Point, slack: real, maxRadius: real, osmFeature: int,
                             matches: seq<RtreeNode>)
    reads rt
  {
    && NoDup(matches)
    && (forall d :: d in matches ==>
          && d in Data(rt.Nodes) && dist(p, Point(d.Leaf.Lat, d.Leaf.Lon)) <= maxRadius
          && (osmFeature == -9999 || osmFeature in d.Leaf.Tag))
    && (forall d :: d in Data(rt.Nodes) && dist(p, Point(d.Leaf.Lat, d.Leaf.Lon)) + slack <= maxRadius ==>
          osmFeature == -9999 || osmFeature in d.Leaf.Tag ==>
          d in matches)
    && (forall i, j :: 0 <= i < j < |matches| ==> DistanceOf(dist, p, matches[i]) <= DistanceOf(dist, p, matches[j]) + slack)
  }

  /** The entries of out that pass the filter, in order. */
  ghost function Matching(dist: Distance, p: Point, maxRadius: real, osmFeature: int,
                          out: seq<RtreeNode>): (r: seq<RtreeNode>)
    ensures forall d :: d in r ==> d in out && InRange(dist, p, d.Leaf, maxRadius, osmFeature)
    ensures forall d :: d in out && InRange(dist, p, d.Leaf, maxRadius, osmFeature) ==> d in r
  {
    if out == [] then [] else
      var last := |out| - 1;
      Matching(dist, p, maxRadius, osmFeature, out[..last])
      + (if InRange(dist, p, out[last].Leaf, maxRadius, osmFeature) then [out[last]] else [])
  }

  lemma {:induction false} MatchingKeepsOrder(dist: Distance, p: Point, slack: real, maxRadius: real, osmFeature: int,
                                              out: seq<RtreeNode>)
    requires NoDup(out)
    requires forall i, j :: 0 <= i < j < |out| ==> DistanceOf(dist, p, out[i]) <= DistanceOf(dist, p, out[j]) + slack
    ensures var r := Matching(dist, p, maxRadius, osmFeature, out);
      NoDup(r) && forall i, j :: 0 <= i < j < |r| ==> DistanceOf(dist, p, r[i]) <= DistanceOf(dist, p, r[j]) + slack
  {
    if out != [] {
      var last := |out| - 1;
      var r0 := Matching(dist, p, maxRadius, osmFeature, out[..last]);
      MatchingKeepsOrder(dist, p, slack, maxRadius, osmFeature, out[..last]);
      forall d | d in r0 ensures d != out[last] && DistanceOf(dist, p, d) <= DistanceOf(dist, p, out[last]) + slack {
        var i :| 0 <= i < last && out[..last][i] == d;
        assert out[i] == d;
      }
      NoDupConcat(r0, if InRange(dist, p, out[last].Leaf, maxRadius, osmFeature) then [out[last]] else []);
    }
  }

  /** page is what lies at positions offset to offset + k of the list, as far as the list goes. */
  ghost predicate IsPage<T>(page: seq<T>, list: seq<T>, k: nat, offset: nat) {
    && |page| == (if offset >= |list| then 0 else if offset + k <= |list| then k else |list| - offset)
    && forall i :: 0 <= i < |page| ==> page[i] == list[offset + i]
  }

  /** The slices that end NearestNeighboursRadiusFilterOSM, lines 673-681. */
  function Page<T>(list: seq<T>, k: nat, offset: nat): seq<T> {
    var rest := if |list| > offset then list[offset..] else list;
    if |rest| > k then rest[..k] else rest
  }

  /** The page asked for comes back if the offset is inside of the list, and the first page otherwise. */
  lemma PageMeaning<T>(list: seq<T>, k: nat, offset: nat)
    ensures IsPage(Page(list, k, offset), list, k, if offset < |list| then offset else 0)
  {}

  /** Paging is right exactly when the offset is inside the list, or the page is empty anyway. */
  lemma PageIsWanted<T>(list: seq<T>, k: nat, offset: nat)
    ensures IsPage(Page(list, k, offset), list, k, offset) <==> offset < |list| || list == [] || k == 0
  {
    PageMeaning(list, k, offset);
  }

  /** Past the end of the list the first page comes back. */
  lemma PastTheEnd()
    ensures Page([1, 2, 3], 2, 3) == [1, 2] && IsPage([], [1, 2, 3], 2, 3)
  {
    assert [1, 2, 3][..2] == [1, 2];
  }

  /** The callback's filter: the reported objects that match, in order. */
  method FilterReported(reported: seq<OSMObject>, p: Point, dist: Distance, maxRadius: real, osmFeature: int,
                        ghost out: seq<RtreeNode>)
    returns (nearestLists: seq<OSMObject>)
    requires reported == ObjectsIn(out)
    ensures nearestLists == ObjectsIn(Matching(dist, p, maxRadius, osmFeature, out))
  {
    nearestLists := [];
    for i := 0 to |reported|
      invariant nearestLists == ObjectsIn(Matching(dist, p, maxRadius, osmFeature, out[..i]))
    {
      assert out[..i + 1][..i] == out[..i];
      var n := reported[i];
      var d := dist(p, Point(n.Lat, n.Lon));
      if osmFeature != SKIP_OSM_FEATURE && osmFeature in n.Tag && d <= maxRadius {
        nearestLists := nearestLists + [n];
      } else if osmFeature == SKIP_OSM_FEATURE && d <= maxRadius {
        nearestLists := nearestLists + [n];
      }
    }
    assert out[..|out|] == out;
  }

  /** A search that reported everything, or stopped at an entry outside the radius, missed no match. */
  lemma {:induction false} MatchesComplete(rt: Rtree, dist: Distance, p: Point, slack: real, maxRadius: real, osmFeature: int,
                                           out: seq<RtreeNode>)
    requires NearestFirst(rt, dist, p, slack, out) && slack >= 0.0
    requires (forall d :: d in Data(rt.Nodes) ==> d in out) || (out != [] && DistanceOf(dist, p, out[|out| - 1]) > maxRadius)
    ensures AllMatches(rt, dist, p, slack, maxRadius, osmFeature, Matching(dist, p, maxRadius, osmFeature, out))
  {
    hide Matching, Data;
    MatchingKeepsOrder(dist, p, slack, maxRadius, osmFeature, out);
    forall d | d in Data(rt.Nodes) && InRange(dist, p, d.Leaf, maxRadius - slack, osmFeature) ensures d in out {
      assert d !in out ==> DistanceOf(dist, p, out[|out| - 1]) <= DistanceOf(dist, p, d) + slack;
    }
  }

  /** NearestNeighboursRadiusFilterOSM, lines 656-682: a page of all matches, although the search
    * stops at the first object outside the radius. */
  method NearestNeighboursRadiusFilterOSM(rt: Rtree, k: nat, offset: nat, p: Point, dist: Distance, maxRadius: real,
                                          osmFeature: int, ghost slack: real)
    returns (nearestLists: seq<OSMObject>)
    requires Sane(rt) && BoundsHold(rt, dist, p, slack)
    ensures exists matches ::
      && AllMatches(rt, dist, p, slack, maxRadius, osmFeature, matches)
      && IsPage(nearestLists, ObjectsIn(matches), k, if offset < |matches| then offset else 0)
  {
    hide Sane, BoundsHold, Matching, NearestFirst, AllMatches, InRange;
    var callback := (found: seq<OSMObject>) =>
      found == [] || dist(p, Point(found[|found| - 1].Lat, found[|found| - 1].Lon)) <= maxRadius;
    var reported;
    ghost var out;
    reported, out := IncrementalNearestNeighbor(rt, p, dist, slack, callback);
    TwoAxes(rt, dist, p, slack);
    ghost var matches := Matching(dist, p, maxRadius, osmFeature, out);
    nearestLists := FilterReported(reported, p, dist, maxRadius, osmFeature, out);
    MatchesComplete(rt, dist, p, slack, maxRadius, osmFeature, out);
    PageMeaning(ObjectsIn(matches), k, offset);
    if |nearestLists| > offset {
      nearestLists := nearestLists[offset..];
    }
    if |nearestLists| > k {
      nearestLists := nearestLists[..k];
    }
  }
}
