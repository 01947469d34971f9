/** The R-tree: pkg/datastructure/rtree.go.
  *
  * Nodes live on the heap with parent pointers. The invariant is flat: it speaks of each node of the
  * ghost set Nodes, its children and its parent, never of paths, so an update is checked at the few
  * nodes it touches.
  */
module Rtrees {
  import opened Boxes
  import opened Collections
  import opened Split

  datatype OSMObject = OSMObject(ID: int, Lat: real, Lon: real, Tag: map<int, int>, Bound: Box)

  /** The zero value that the source leaves in the Leaf field of leaf nodes and internal nodes. */
  const NO_OBJECT := OSMObject(0, 0.0, 0.0, map[], ZeroBox)

  /** A stored entry, a leaf node or an internal node. Fields that the source sets once are const. */
  class RtreeNode {
    var Items: seq<RtreeNode>
    var Parent: RtreeNode?
    var Bound: Box
    const IsLeaf: bool
    const Leaf: OSMObject
    /** Levels above the entries: 0 for an entry, 1 for a leaf node. */
    ghost const h: nat

    constructor (isLeaf: bool, leaf: OSMObject, bound: Box, parent: RtreeNode?, items: seq<RtreeNode>, ghost level: nat)
      ensures IsLeaf == isLeaf && Leaf == leaf && Bound == bound && Parent == parent && Items == items && h == level
    {
      IsLeaf, Leaf, Bound, Parent, Items, h := isLeaf, leaf, bound, parent, items, level;
    }

    /** The join of the children's bounds. */
    method ComputeBB(ghost d: nat) returns (bb: Box)
      requires Items != [] && forall c :: c in Items ==> Fits(c.Bound, d)
      ensures bb == JoinItems(Items) && Fits(bb, d)
    {
      hide Proper, Join, JoinItems;
      JoinItemsFits(Items, d);
      JoinItemsOne(Items);
      if |Items| == 1 {
        return Items[0].Bound;
      }
      JoinItemsNext(Items, 1, d);
      bb := BoundingBox(Items[0].Bound, Items[1].Bound);
      for i := 2 to |Items|
        invariant bb == JoinItems(Items[..i])
      {
        JoinItemsNext(Items, i, d);
        bb := BoundingBox(bb, Items[i].Bound);
      }
      assert Items[..|Items|] == Items;
    }
  }

  ghost function JoinItems(items: seq<RtreeNode>): Box
    reads items`Bound
  {
    if items == [] then ZeroBox else
      var last := |items| - 1;
      if last == 0 then items[0].Bound else
        var j := JoinItems(items[..last]);
        if |j.Edges| == j.Dim <= |items[last].Bound.Edges| then Join(j, items[last].Bound) else ZeroBox
  }

  lemma JoinItemsOne(items: seq<RtreeNode>)
    requires items != []
    ensures JoinItems(items[..1]) == items[0].Bound && (|items| == 1 ==> items[..1] == items)
  {}

  lemma JoinItemsNext(items: seq<RtreeNode>, i: nat, d: nat)
    requires 1 <= i < |items| && forall c :: c in items ==> Fits(c.Bound, d)
    ensures var j := JoinItems(items[..i]);
      && Fits(j, d) && Fits(items[i].Bound, d) && JoinItems(items[..i + 1]) == Join(j, items[i].Bound)
  {
    hide Proper, Join;
    JoinItemsFits(items[..i], d);
    assert items[..i + 1][..i] == items[..i];
    assert Fits(items[i].Bound, d);
  }

  lemma {:induction false} JoinItemsFits(items: seq<RtreeNode>, d: nat)
    requires items != [] && forall c :: c in items ==> Fits(c.Bound, d)
    ensures Fits(JoinItems(items), d)
  {
    if |items| > 1 {
      JoinItemsFits(items[..|items| - 1], d);
    }
  }

  /** JoinItems is the least box around the children: it contains each of them, and every box that
    * does contains it. */
  lemma {:induction false} JoinItemsIsLeast(items: seq<RtreeNode>, d: nat, upper: Box)
    requires items != [] && (forall c :: c in items ==> Fits(c.Bound, d)) && Fits(upper, d)
    ensures Fits(JoinItems(items), d)
    ensures forall c :: c in items ==> Contains(JoinItems(items), c.Bound)
    ensures Contains(upper, JoinItems(items)) <==> forall c :: c in items ==> Contains(upper, c.Bound)
  {
    hide Contains;
    var last := |items| - 1;
    JoinItemsFits(items, d);
    if last == 0 {
      assert Contains(items[0].Bound, items[0].Bound) by { ContainsSelf(items[0].Bound, d); }
    } else {
      var init := items[..last];
      assert items == init + [items[last]];
      JoinItemsIsLeast(init, d, upper);
      JoinIsLeast(JoinItems(init), items[last].Bound, upper, d);
      forall c | c in items ensures Contains(JoinItems(items), c.Bound) {
        if c in init {
          ContainsTransitive(JoinItems(items), JoinItems(init), c.Bound);
        }
      }
    }
  }

  lemma ContainsSelf(b: Box, d: nat)
    requires Fits(b, d)
    ensures Contains(b, b)
  {}

  /** ComputeBB over a group equals the fold that Split reasons about. */
  lemma {:induction false} JoinItemsIsJoinOver(items: seq<RtreeNode>, box: map<RtreeNode, Box>, d: nat)
    requires items != [] && Boxed(items, box, d) && forall c :: c in items ==> c.Bound == box[c]
    ensures JoinItems(items) == JoinOver(items, box, d)
  {
    if |items| > 1 {
      JoinItemsIsJoinOver(items[..|items| - 1], box, d);
    }
  }

  // ---- the invariant

  /** What holds at every node whatever the splits did. Levels fall from parent to child, by exactly
    * one above level `skew`; `loose` is the second half of a split that has no parent yet. */
  ghost predicate Shaped(n: RtreeNode, S: set<RtreeNode>, R: RtreeNode, skew: nat, d: nat, loose: RtreeNode?)
    reads n
  {
    && (n.IsLeaf <==> n.h == 1)
    && (n.h == 0 ==> n.Items == [] && n.Bound == n.Leaf.Bound)
    && (n.h >= 1 ==> n.Leaf == NO_OBJECT)
    && (n.h >= 1 && n.Items == [] ==> n == R && n.h == 1)
    && |n.Bound.Edges| == n.Bound.Dim <= d
    && (n != R && n != loose ==> Fits(n.Bound, d))
    && (n != R && n != loose ==> n.Parent != null && n.Parent in S && n.h < n.Parent.h
                                 && (n.Parent.h > skew ==> n.h + 1 == n.Parent.h))
    && n.h <= R.h
    && (forall c :: c in n.Items ==> c in S && c != R && c != loose)
    && (forall c :: c in n.Items ==> c.h < n.h && (n.h > skew ==> c.h + 1 == n.h) && (n.h >= 2 ==> c.h >= 1))
  }

  ghost predicate Sound(S: set<RtreeNode>, R: RtreeNode, skew: nat, d: nat, loose: RtreeNode?)
    reads S
  {
    && R in S && (loose != null ==> loose in S && loose != R && loose.h >= 1)
    && forall n {:trigger Shaped(n, S, R, skew, d, loose)} :: n in S ==> Shaped(n, S, R, skew, d, loose)
  }

  /** The nodes that owe m children: all but the entries and the root, but the root too while it is
    * half of a split. */
  ghost predicate Bounded(n: RtreeNode, R: RtreeNode, loose: RtreeNode?) {
    n.h >= 1 && (n != R || (loose != null && loose.h == R.h))
  }

  /** What clean splits keep besides: parent and child agree, no child is listed twice, nodes are
    * neither over- nor underfull, and every bound is the exact join of the children's bounds. Node
    * `open` may have a stale bound, node `over` the wrong number of children. */
  ghost predicate Tidy(n: RtreeNode, R: RtreeNode, m: int, M: int, open: RtreeNode?, loose: RtreeNode?,
                       over: RtreeNode?)
    reads n, n.Items, if n != R && n != loose && n.Parent != null then {n.Parent} else {}
  {
    && NoDup(n.Items)
    && (forall c :: c in n.Items ==> c.Parent == n)
    && (n != R && n != loose ==> n.Parent != null && n in n.Parent.Items)
    && (n != over ==> |n.Items| <= M && (2 * m <= M + 1 && Bounded(n, R, loose) ==> m <= |n.Items|))
    && (n != open && n != loose && n.Items != [] ==> n.Bound == JoinItems(n.Items))
  }

  ghost predicate AllTidy(S: set<RtreeNode>, R: RtreeNode, skew: nat, d: nat, m: int, M: int,
                          open: RtreeNode?, loose: RtreeNode?, over: RtreeNode?)
    requires Sound(S, R, skew, d, loose)
    reads S
  {
    forall n {:trigger Tidy(n, R, m, M, open, loose, over)} :: n in S ==>
      Shaped(n, S, R, skew, d, loose) && Tidy(n, R, m, M, open, loose, over)
  }

  lemma {:induction false} SetOfNoDup(s: seq<RtreeNode>)
    requires NoDup(s)
    ensures |set x | x in s| == |s|
  {
    if s != [] {
      var n := |s| - 1;
      SetOfNoDup(s[..n]);
      var front := set x | x in s[..n];
      assert s[n] !in front;
      assert (set x | x in s) == front + {s[n]};
    }
  }

  ghost function Data(S: set<RtreeNode>): (entries: set<RtreeNode>)
    ensures entries <= S
  {
    set n | n in S && n.h == 0
  }

  /** The objects of a set of entries, with multiplicity. */
  ghost function ObjectsOf(S: set<RtreeNode>): multiset<OSMObject> {
    if S == {} then multiset{} else
      var n :| n in S;
      ObjectsOf(S - {n}) + multiset{n.Leaf}
  }

  lemma {:induction false} ObjectsOfAny(S: set<RtreeNode>, n: RtreeNode)
    requires n in S
    ensures ObjectsOf(S) == ObjectsOf(S - {n}) + multiset{n.Leaf}
  {
    var k :| k in S && ObjectsOf(S) == ObjectsOf(S - {k}) + multiset{k.Leaf};
    if k != n {
      ObjectsOfAny(S - {k}, n);
      ObjectsOfAny(S - {n}, k);
      assert S - {k} - {n} == S - {n} - {k};
    }
  }

  lemma {:induction false} ObjectsOfUnion(A: set<RtreeNode>, B: set<RtreeNode>)
    requires A !! B
    ensures ObjectsOf(A + B) == ObjectsOf(A) + ObjectsOf(B)
  {
    if B == {} {
      assert A + B == A;
    } else {
      var n :| n in B;
      assert A + B - {n} == A + (B - {n});
      ObjectsOfUnion(A, B - {n});
      ObjectsOfAny(A + B, n);
      ObjectsOfAny(B, n);
      hide ObjectsOf;
    }
  }

  /** d is n or lies below n along the Items lists. */
  ghost predicate Reaches(n: RtreeNode, d: RtreeNode, S: set<RtreeNode>)
    reads S
    decreases n.h
  {
    n in S && (d == n || exists c :: c in n.Items && c.h < n.h && Reaches(c, d, S))
  }

  lemma {:induction false} ReachesChild(a: RtreeNode, p: RtreeNode, c: RtreeNode, S: set<RtreeNode>)
    requires Reaches(a, p, S) && p in S && c in S && c in p.Items && c.h < p.h
    ensures Reaches(a, c, S)
    decreases a.h
  {
    if a == p {
      assert Reaches(c, c, S);
    } else {
      var k :| k in a.Items && k.h < a.h && Reaches(k, p, S);
      ReachesChild(k, p, c, S);
    }
  }

  /** In a tidy tree every node hangs below the root. */
  lemma {:induction false} AllReached(n: RtreeNode, S: set<RtreeNode>, R: RtreeNode, skew: nat, d: nat, m: int, M: int,
                                      open: RtreeNode?, over: RtreeNode?)
    requires Sound(S, R, skew, d, null) && AllTidy(S, R, skew, d, m, M, open, null, over) && n in S
    ensures Reaches(R, n, S)
    decreases R.h - n.h
  {
    hide Proper, JoinItems, NoDup;
    assert Tidy(n, R, m, M, open, null, over);
    if n != R {
      assert Tidy(n.Parent, R, m, M, open, null, over);
      AllReached(n.Parent, S, R, skew, d, m, M, open, over);
      ReachesChild(R, n.Parent, n, S);
    }
  }

  // ---- the history of splits

  /** A call of splitNode: the node, its entries, and everything else the call reads. */
  datatype SplitRecord = SplitRecord(node: RtreeNode, items: seq<RtreeNode>, setting: Setting<RtreeNode>)

  ghost predicate Recorded(r: SplitRecord) {
    && |r.items| >= 2 && Boxed(r.items, r.setting.box, r.setting.d)
    && |r.setting.bound1.Edges| == r.setting.bound1.Dim <= r.setting.d
    && |r.setting.bound2.Edges| == r.setting.bound2.Dim <= r.setting.d
  }

  /** The call deals every entry to one group: its seeds differ and no entry meets a complete tie. */
  ghost predicate Partitions(r: SplitRecord) {
    Recorded(r) && Partitioning(r.items, r.setting)
  }

  ghost predicate AllPartition(splits: seq<SplitRecord>) {
    forall i :: 0 <= i < |splits| ==> Partitions(splits[i])
  }

  /** The tree's constants. */
  datatype Limits = Limits(m: int, M: int, d: nat)

  /** A call on an overfull node of the tree with these constants. */
  ghost predicate Genuine(r: SplitRecord, k: Limits) {
    Recorded(r) && |r.items| > k.M && r.setting.m == k.m && r.setting.d == k.d && r.setting.bound2 == ZeroBox
  }

  ghost predicate AllGenuine(splits: seq<SplitRecord>, k: Limits) {
    forall i :: 0 <= i < |splits| ==> Genuine(splits[i], k)
  }

  /** The history of a tree: calls on overfull nodes, and `clean` while all of them were partitions. */
  ghost predicate Logged(splits: seq<SplitRecord>, clean: bool, k: Limits) {
    AllGenuine(splits, k) && (clean <==> AllPartition(splits))
  }

  lemma OneMoreSplit(splits: seq<SplitRecord>, r: SplitRecord, k: Limits)
    ensures AllPartition(splits + [r]) <==> AllPartition(splits) && Partitions(r)
    ensures AllGenuine(splits + [r], k) <==> AllGenuine(splits, k) && Genuine(r, k)
  {
    hide Partitions, Genuine;
    assert (splits + [r])[|splits|] == r;
    forall i | 0 <= i < |splits| ensures (splits + [r])[i] == splits[i] {}
  }

  /** The bounds of the two groups that the call makes. */
  ghost function HalfBoxes(r: SplitRecord): (Box, Box) {
    if Partitions(r) then
      var groups := SplitOf(r.items, r.setting);
      HalvesFit(r);
      (JoinOver(groups.one, r.setting.box, r.setting.d), JoinOver(groups.two, r.setting.box, r.setting.d))
    else (ZeroBox, ZeroBox)
  }

  lemma HalvesFit(r: SplitRecord)
    requires Recorded(r)
    ensures var groups := SplitOf(r.items, r.setting);
      && groups.one != [] && groups.two != []
      && Boxed(groups.one, r.setting.box, r.setting.d) && Boxed(groups.two, r.setting.box, r.setting.d)
  {
    hide SplitOf, Proper;
    SplitMembers(r.items, r.setting);
  }

  /** What the nodes held at some moment. */
  datatype NodeView = NodeView(items: seq<RtreeNode>, bound: Box, parent: RtreeNode?)

  ghost function Snapshot(S: set<RtreeNode>): map<RtreeNode, NodeView>
    reads S
  {
    map n | n in S :: NodeView(n.Items, n.Bound, n.Parent)
  }

  /** The split of p after `last`, bounded by `two`, has joined the entries that p had in view v, of
    * which n is now bounded by `one`. */
  ghost function Overflow(v: map<RtreeNode, NodeView>, p: RtreeNode, n: RtreeNode?, one: Box, last: RtreeNode, two: Box,
                          k: Limits): SplitRecord
    requires p in v
  {
    var items := v[p].items + [last];
    var box := map c | c in items :: if c == last then two else if c == n then one else if c in v then v[c].bound else ZeroBox;
    SplitRecord(p, items, Setting(box, k.d, k.m, v[p].bound, ZeroBox))
  }

  /** Node n has been split into halves bounded by `one` and `two`. The splits that follow on the way
    * up: the parent is split exactly when it was full, and so on. Once a split is no partition,
    * nothing is said of the later ones. */
  ghost predicate Climbs(v: map<RtreeNode, NodeView>, R: RtreeNode, k: Limits, splits: seq<SplitRecord>,
                         n: RtreeNode, one: Box, two: Box)
  {
    if n == R then splits == [] else
      n in v && v[n].parent != null && v[n].parent in v && (
        var p := v[n].parent;
        if |v[p].items| < k.M then splits == [] else
          splits != [] && splits[0].items != []
          && splits[0] == Overflow(v, p, n, one, splits[0].items[|splits[0].items| - 1], two, k)
          && (Partitions(splits[0]) ==>
                Climbs(v, R, k, splits[1..], p, HalfBoxes(splits[0]).0, HalfBoxes(splits[0]).1)))
  }

  /** The splits of an insertion of c, bounded by b, into target: none exactly when target has room. */
  ghost predicate Grafts(v: map<RtreeNode, NodeView>, R: RtreeNode, k: Limits, splits: seq<SplitRecord>,
                         target: RtreeNode, c: RtreeNode, b: Box)
  {
    target in v &&
    if |v[target].items| < k.M then splits == [] else
      splits != [] && splits[0] == Overflow(v, target, null, ZeroBox, c, b, k)
      && (Partitions(splits[0]) ==>
            Climbs(v, R, k, splits[1..], target, HalfBoxes(splits[0]).0, HalfBoxes(splits[0]).1))
  }

  /** The views agree on everything that Climbs looks at from height h up. */
  ghost predicate Agree(v0: map<RtreeNode, NodeView>, v1: map<RtreeNode, NodeView>, R: RtreeNode, h: nat) {
    && (forall n :: n in v0 && n.h >= h && n != R ==>
          n in v1 && v1[n].parent == v0[n].parent && v0[n].parent != null && v0[n].parent in v0 && n.h < v0[n].parent.h)
    && (forall p :: p in v0 && p.h > h ==> p in v1 && v1[p].items == v0[p].items && v1[p].bound == v0[p].bound)
    && (forall p, c :: p in v0 && p.h > h && c in v0[p].items ==> c in v0 && c in v1 && v1[c].bound == v0[c].bound)
  }

  lemma AgreeBelow(v0: map<RtreeNode, NodeView>, v1: map<RtreeNode, NodeView>, R: RtreeNode, h: nat, p: RtreeNode)
    requires Agree(v0, v1, R, h) && p in v0 && p.h > h
    ensures p in v1 && v1[p].items == v0[p].items && v1[p].bound == v0[p].bound
    ensures forall c :: c in v0[p].items ==> c in v0 && c in v1 && v1[c].bound == v0[c].bound
  {}

  lemma OverflowAgrees(v0: map<RtreeNode, NodeView>, v1: map<RtreeNode, NodeView>, R: RtreeNode, h: nat, k: Limits,
                       p: RtreeNode, n: RtreeNode?, one: Box, last: RtreeNode, two: Box)
    requires Agree(v0, v1, R, h) && p in v0 && p in v1 && p.h > h
    ensures Overflow(v0, p, n, one, last, two, k) == Overflow(v1, p, n, one, last, two, k)
  {
    hide Agree;
    AgreeBelow(v0, v1, R, h, p);
    assert Overflow(v0, p, n, one, last, two, k).setting.box == Overflow(v1, p, n, one, last, two, k).setting.box;
  }

  lemma AgreeAt(v0: map<RtreeNode, NodeView>, v1: map<RtreeNode, NodeView>, R: RtreeNode, h: nat, n: RtreeNode)
    requires Agree(v0, v1, R, h) && n in v0 && n.h >= h && n != R
    ensures n in v1 && v1[n].parent == v0[n].parent && v0[n].parent != null
    ensures var p := v0[n].parent; p in v0 && p in v1 && p.h > h && v1[p].items == v0[p].items
  {}

  lemma {:induction false} ClimbsAgree(v0: map<RtreeNode, NodeView>, v1: map<RtreeNode, NodeView>, R: RtreeNode, h: nat,
                                       k: Limits, splits: seq<SplitRecord>, n: RtreeNode, one: Box, two: Box)
    requires Agree(v0, v1, R, h) && n in v0 && n.h >= h && Climbs(v1, R, k, splits, n, one, two)
    ensures Climbs(v0, R, k, splits, n, one, two)
    decreases |splits|
  {
    hide Partitions, HalfBoxes, Overflow, Agree;
    if n != R {
      AgreeAt(v0, v1, R, h, n);
      var p := v0[n].parent;
      if |v0[p].items| >= k.M {
        var r := splits[0];
        OverflowAgrees(v0, v1, R, h, k, p, n, one, r.items[|r.items| - 1], two);
        if Partitions(r) {
          ClimbsAgree(v0, v1, R, h, k, splits[1..], p, HalfBoxes(r).0, HalfBoxes(r).1);
        }
      }
    }
  }

  /** The largest float64. */
  const MAX_FLOAT64: real := 179769313486231570814527423731704356798070567525844996598917476803157260780028538760589558632766878171540458953514382464234321326889464182768467546703537516986049910576551282076245490090389328944075868508455133942304583236903222948165808559332123348274797826204144723168738177180919299881250404026184124858368.0

  ghost function Enlargement(b: Box, bound: Box): real {
    if |b.Edges| == b.Dim <= |bound.Edges| then Area(Join(b, bound)) - Area(b) else 0.0
  }

  /** A box grows by as much as its join with the bound has more area: never less than 0, and 0 if the
    * bound lies within. */
  lemma EnlargementMeaning(b: Box, bound: Box, d: nat)
    requires Fits(b, d) && Fits(bound, d)
    ensures Area(Join(b, bound)) == Area(b) + Enlargement(b, bound) && Enlargement(b, bound) >= 0.0
    ensures Contains(b, bound) ==> Enlargement(b, bound) == 0.0
  {
    JoinIsLeast(b, bound, b, d);
    AreaGrows(Join(b, bound), b, d);
    if Contains(b, bound) {
      assert Contains(b, b);
      AreaGrows(b, Join(b, bound), d);
    }
  }

  ghost function AreaOf(b: Box): real {
    if |b.Edges| == b.Dim then Area(b) else 0.0
  }

  /** Of the entries at i and k, which would grow by x and y, the source prefers that at i: it grows less, or
    * as much and is either the smaller one and later, or earlier and no larger than the other would become. */
  ghost predicate Preferred(items: seq<RtreeNode>, i: nat, k: nat, bound: Box)
    requires i < |items| && k < |items|
    reads items`Bound
  {
    var x, y := Enlargement(items[i].Bound, bound), Enlargement(items[k].Bound, bound);
    x < y || (x == y &&
      if k < i then AreaOf(items[i].Bound) < AreaOf(items[k].Bound) else AreaOf(items[i].Bound) <= AreaOf(items[k].Bound) + y)
  }

  /** The entry at i is preferred to every other that would grow by less than the largest float64. */
  ghost predicate LeastEnlarged(items: seq<RtreeNode>, i: nat, bound: Box)
    reads items`Bound
  {
    i < |items| && forall k :: 0 <= k < |items| && Enlargement(items[k].Bound, bound) < MAX_FLOAT64 ==>
      k == i || Preferred(items, i, k, bound)
  }

  /** What the scan for that entry has found among the first n: the entry at i, which grows by `least`. */
  ghost predicate Scanned(items: seq<RtreeNode>, i: nat, n: nat, bound: Box, least: real)
    requires i < |items| && n <= |items|
    reads items`Bound
  {
    if least < MAX_FLOAT64 then
      && i < n && least == Enlargement(items[i].Bound, bound)
      && forall k :: 0 <= k < n && k != i ==> Preferred(items, i, k, bound)
    else forall k :: 0 <= k < n ==> Enlargement(items[k].Bound, bound) >= MAX_FLOAT64
  }

  lemma ScanNext(items: seq<RtreeNode>, i: nat, n: nat, bound: Box, least: real, d: nat)
    requires i < |items| && n < |items| && Scanned(items, i, n, bound, least) && least <= MAX_FLOAT64
    requires Fits(bound, d) && Fits(items[n].Bound, d)
    ensures var x, y := AreaOf(items[i].Bound), Enlargement(items[n].Bound, bound);
      if y < least || (y == least && AreaOf(items[n].Bound) + y < x) then Scanned(items, n, n + 1, bound, y)
      else Scanned(items, i, n + 1, bound, least)
  {
    EnlargementMeaning(items[n].Bound, bound, d);
    var y := Enlargement(items[n].Bound, bound);
    if y < least || (y == least && AreaOf(items[n].Bound) + y < AreaOf(items[i].Bound)) {
      if y < MAX_FLOAT64 {
        forall k | 0 <= k < n ensures Preferred(items, n, k, bound) {
          if least < MAX_FLOAT64 && k != i { assert Preferred(items, i, k, bound); }
        }
      }
    }
  }

  lemma ScanStarts(items: seq<RtreeNode>, bound: Box)
    requires items != []
    ensures Scanned(items, 0, 0, bound, MAX_FLOAT64)
  {}

  lemma ScanEnds(items: seq<RtreeNode>, i: nat, bound: Box, least: real)
    requires i < |items| && Scanned(items, i, |items|, bound, least)
    ensures LeastEnlarged(items, i, bound)
  {}

  /** Descending into the preferred entry leads from node to n. */
  ghost predicate LeadsTo(node: RtreeNode, n: RtreeNode, bound: Box, S: set<RtreeNode>)
    reads S
    decreases node.h
  {
    n == node || (node in S && (forall c :: c in node.Items ==> c in S) &&
      exists i {:trigger node.Items[i]} :: 0 <= i < |node.Items| && LeastEnlarged(node.Items, i, bound)
        && node.Items[i].h < node.h && LeadsTo(node.Items[i], n, bound, S))
  }

  class Rtree {
    var Root: RtreeNode
    var Size: int
    const MinChildItems: int
    const MaxChildItems: int
    const Dimensions: nat
    var Height: int

    /** The nodes of the tree, entries included. */
    ghost var Nodes: set<RtreeNode>
    /** Every call of splitNode so far. */
    ghost var Splits: seq<SplitRecord>
    /** All of them dealt every entry to one group. */
    ghost var Clean: bool
    /** Levels above this one are uniform; 0 when all leaf nodes are at the same depth. */
    ghost var Skew: nat

    ghost predicate Ok(open: RtreeNode?, loose: RtreeNode?, over: RtreeNode?)
      reads this, Nodes
    {
      && Sound(Nodes, Root, Skew, Dimensions, loose)
      && Root.h >= 1 && MaxChildItems >= 2 && Logged(Splits, Clean, Bounds())
      && (Clean ==> AllTidy(Nodes, Root, Skew, Dimensions, MinChildItems, MaxChildItems, open, loose, over))
    }

    ghost predicate Valid()
      reads this, Nodes
    {
      Ok(null, null, null) && (Skew == 0 ==> Height == Root.h)
    }

    /** The entries that hang below the root. */
    ghost function Linked(): set<RtreeNode>
      reads `Root, `Nodes, Nodes
    {
      set d | d in Nodes && d.h == 0 && Reaches(Root, d, Nodes)
    }

    /** The objects that the tree holds. */
    ghost function Contents(): multiset<OSMObject>
      reads `Root, `Nodes, Nodes
    {
      ObjectsOf(Linked())
    }

    /** The objects of all entries that were ever put in, linked or not. */
    ghost function Accounted(): multiset<OSMObject>
      reads `Nodes
    {
      ObjectsOf(Data(Nodes))
    }

    /** In a clean tree nothing has come off. */
    lemma ContentsAreAccounted()
      requires Ok(null, null, null) && Clean
      ensures Contents() == Accounted() && Linked() == Data(Nodes)
    {
      hide Shaped, Tidy, ObjectsOf, Reaches;
      forall d | d in Data(Nodes) ensures Reaches(Root, d, Nodes) {
        AllReached(d, Nodes, Root, Skew, Dimensions, MinChildItems, MaxChildItems, null, null);
      }
      assert Linked() == Data(Nodes);
    }

    ghost function Bounds(): Limits {
      Limits(MinChildItems, MaxChildItems, Dimensions)
    }


    constructor (minChildItems: int, maxChildItems: int, dimensions: nat)
      requires maxChildItems >= 2
      ensures Valid() && fresh(Nodes) && Clean && Splits == [] && Skew == 0 && Contents() == multiset{} && Data(Nodes) == {}
      ensures Size == 0 && Height == 1 && Root.IsLeaf
      ensures MinChildItems == minChildItems && MaxChildItems == maxChildItems && Dimensions == dimensions
    {
      var root := new RtreeNode(true, NO_OBJECT, ZeroBox, null, [], 1);
      Root, Size, Height := root, 0, 1;
      MinChildItems, MaxChildItems, Dimensions := minChildItems, maxChildItems, dimensions;
      Nodes, Splits, Clean, Skew := {root}, [], true, 0;
      new;
      assert Data(Nodes) == {};
      assert Shaped(root, Nodes, Root, Skew, Dimensions, null);
      assert Tidy(root, Root, MinChildItems, MaxChildItems, null, null, null);
      FirstState();
      ContentsAreAccounted();
    }

    lemma FirstState()
      requires Nodes == {Root} && Root.h == 1 && MaxChildItems >= 2 && Clean && Splits == [] && Height == 1
      requires Shaped(Root, Nodes, Root, Skew, Dimensions, null)
      requires Tidy(Root, Root, MinChildItems, MaxChildItems, null, null, null)
      ensures Valid()
    {
      hide Shaped, Tidy;
    }

    /** The index that chooseLeaf and chooseLevel descend into: least enlargement, the first such
      * unless a later one ties and would be smaller after enlargement. */
    method ChooseSubtree(items: seq<RtreeNode>, bound: Box) returns (idx: nat)
      requires items != [] && Fits(bound, Dimensions) && forall c :: c in items ==> Fits(c.Bound, Dimensions)
      ensures idx < |items| && LeastEnlarged(items, idx, bound)
    {
      hide Area, Join, Scanned, LeastEnlarged;
      var minAreaEnlargement := MAX_FLOAT64;
      idx := 0;
      ScanStarts(items, bound);
      for i := 0 to |items|
        invariant idx < |items| && minAreaEnlargement <= MAX_FLOAT64
        invariant Scanned(items, idx, i, bound, minAreaEnlargement)
      {
        EnlargementMeaning(items[i].Bound, bound, Dimensions);
        ScanNext(items, idx, i, bound, minAreaEnlargement, Dimensions);
        var bb := BoundingBox(items[i].Bound, bound);
        var enlarged := ComputeArea(bb);
        var own := ComputeArea(items[i].Bound);
        var current := ComputeArea(items[idx].Bound);
        var enlargement := enlarged - own;
        if enlargement < minAreaEnlargement || (enlargement == minAreaEnlargement && enlarged < current) {
          minAreaEnlargement := enlargement;
          idx := i;
        }
      }
      ScanEnds(items, idx, bound, minAreaEnlargement);
    }

    /** The inner loop of linearPickSeeds. The source starts from infinities, which every edge beats. */
    method AxisExtremes(items: seq<RtreeNode>, axis: nat, ghost boxes: seq<Box>)
      returns (highestLowSideIdx: nat, lowestHighSideIdx: nat, lWidth: real, widthAlongDimension: real)
      requires axis < Dimensions && items != [] && |items| == |boxes| && AllFit(boxes, Dimensions)
      requires forall i :: 0 <= i < |items| ==> items[i].Bound == boxes[i]
      ensures highestLowSideIdx == FirstMax(Lows(boxes, Dimensions, axis), |boxes|)
      ensures lowestHighSideIdx == FirstMin(Highs(boxes, Dimensions, axis), |boxes|)
      ensures lWidth == Lows(boxes, Dimensions, axis)[highestLowSideIdx] - Highs(boxes, Dimensions, axis)[lowestHighSideIdx]
      ensures widthAlongDimension == Width(boxes, Dimensions, axis)
    {
      ghost var lows, highs := Lows(boxes, Dimensions, axis), Highs(boxes, Dimensions, axis);
      hide Lows, Highs, Proper;
      highestLowSideIdx, lowestHighSideIdx := 0, 0;
      ghost var lowestIdx, highestIdx := 0, 0;
      var highestLowSide, lowestHighSide := items[0].Bound.Edges[axis].lo, items[0].Bound.Edges[axis].hi;
      var highestHighSide, lowestLowSide := lowestHighSide, highestLowSide;
      for i := 1 to |items|
        invariant highestLowSideIdx == FirstMax(lows, i) && highestLowSide == lows[highestLowSideIdx]
        invariant lowestHighSideIdx == FirstMin(highs, i) && lowestHighSide == highs[lowestHighSideIdx]
        invariant lowestIdx == FirstMin(lows, i) && lowestLowSide == lows[lowestIdx]
        invariant highestIdx == FirstMax(highs, i) && highestHighSide == highs[highestIdx]
      {
        var lowSideEdge, highSideEdge := items[i].Bound.Edges[axis].lo, items[i].Bound.Edges[axis].hi;
        assert lowSideEdge == lows[i] && highSideEdge == highs[i];
        if lowSideEdge > highestLowSide {
          highestLowSide, highestLowSideIdx := lowSideEdge, i;
        }
        if lowSideEdge < lowestLowSide {
          lowestLowSide, lowestIdx := lowSideEdge, i;
        }
        if highSideEdge < lowestHighSide {
          lowestHighSide, lowestHighSideIdx := highSideEdge, i;
        }
        if highSideEdge > highestHighSide {
          highestHighSide, highestIdx := highSideEdge, i;
        }
      }
      lWidth := highestLowSide - lowestHighSide;
      widthAlongDimension := highestHighSide - lowestLowSide;
    }

    /** One axis of linearPickSeeds. */
    method SeedsOnAxis(items: seq<RtreeNode>, axis: nat, best: Seeds, ghost boxes: seq<Box>) returns (s: Seeds)
      requires axis < Dimensions && items != [] && |items| == |boxes| && AllFit(boxes, Dimensions)
      requires forall i :: 0 <= i < |items| ==> items[i].Bound == boxes[i]
      ensures s == SeedAxis(boxes, Dimensions, axis, best)
    {
      var one, two, lWidth, widthAlongDimension := AxisExtremes(items, axis, boxes);
      hide FirstMax, FirstMin, Width, AllFit, Lows, Highs;
      s := best;
      if widthAlongDimension != 0.0 {
        var separation := lWidth / widthAlongDimension;
        if !best.found || separation > best.separation {
          s := Seeds(true, separation, one, two);
        }
      }
    }

    method LinearPickSeeds(l: RtreeNode, ghost boxes: seq<Box>) returns (entryOne: RtreeNode, entryTwo: RtreeNode)
      requires |l.Items| >= 2 && |boxes| == |l.Items| && AllFit(boxes, Dimensions)
      requires forall i :: 0 <= i < |boxes| ==> l.Items[i].Bound == boxes[i]
      ensures var s := SeedSearch(boxes, Dimensions, Dimensions); entryOne == l.Items[s.one] && entryTwo == l.Items[s.two]
    {
      hide SeedAxis, AllFit;
      var s := Seeds(false, 0.0, 0, 1);
      for axis := 0 to Dimensions
        invariant s == SeedSearch(boxes, Dimensions, axis)
      {
        s := SeedsOnAxis(l.Items, axis, s, boxes);
      }
      entryOne, entryTwo := l.Items[s.one], l.Items[s.two];
    }

    method PickNext(groupOne: RtreeNode, groupTwo: RtreeNode, remaining: seq<RtreeNode>, ghost g: Groups<RtreeNode>,
                    ghost c: Setting<RtreeNode>) returns (chosen: nat)
      requires remaining != [] && Ready(g, remaining, c)
      requires groupOne.Bound == c.bound1 && groupTwo.Bound == c.bound2
      requires forall x :: x in remaining ==> x.Bound == c.box[x]
      ensures chosen == Split.PickNext(g, remaining, c)
    {
      hide Area, Join, FirstMax, Preferences, Preference, Abs, Boxed;
      ghost var v := Preferences(remaining, c.box, c.d, c.bound1, c.bound2);
      chosen := 0;
      var maxDiff := 0.0;
      for i := 0 to |remaining|
        invariant i > 0 ==> chosen == FirstMax(v, i) && maxDiff == v[chosen]
      {
        FirstMaxStep(v, i);
        assert remaining[i] in remaining;
        BoxOfRemaining(g, remaining, c, i);
        PreferenceIs(remaining[i].Bound, c.bound1, c.bound2);
        var d1 := EnlargementBy(groupOne.Bound, remaining[i].Bound);
        var d2 := EnlargementBy(groupTwo.Bound, remaining[i].Bound);
        var d := Abs(d1 - d2);
        if i == 0 || d > maxDiff {
          chosen, maxDiff := i, d;
        }
      }
    }

    static lemma BoxOfRemaining(g: Groups<RtreeNode>, remaining: seq<RtreeNode>, c: Setting<RtreeNode>, i: nat)
      requires Ready(g, remaining, c) && i < |remaining|
      ensures remaining[i] in c.box && c.d <= |c.box[remaining[i]].Edges|
    {}

    method EnlargementBy(groupBB: Box, e: Box) returns (d: real)
      requires |groupBB.Edges| == groupBB.Dim <= |e.Edges|
      ensures d == Area(Join(groupBB, e)) - Area(groupBB)
    {
      var enlarged := BoundingBox(groupBB, e);
      var a := ComputeArea(enlarged);
      var b := ComputeArea(groupBB);
      d := a - b;
    }

    ghost predicate Matches(c: Setting<RtreeNode>)
      reads c.box.Keys`Bound
    {
      c.d == Dimensions && c.m == MinChildItems && forall x :: x in c.box ==> x.Bound == c.box[x]
    }

    /** The comparisons of one round: which group, if any, the entry goes to. */
    method AssignGroup(n1: nat, n2: nat, left: nat, groupOneBB: Box, groupTwoBB: Box, e: Box) returns (choice: Choice)
      requires Fits(groupOneBB, Dimensions) && Fits(groupTwoBB, Dimensions) && Fits(e, Dimensions)
      ensures choice == Assign(n1, n2, left, MinChildItems, groupOneBB, groupTwoBB, e, Dimensions)
    {
      hide Area, Join;
      var bbGroupOne := BoundingBox(groupOneBB, e);
      var bbGroupTwo := BoundingBox(groupTwoBB, e);
      var areaOne := ComputeArea(bbGroupOne);
      var areaTwo := ComputeArea(bbGroupTwo);
      var oldOne := ComputeArea(groupOneBB);
      var oldTwo := ComputeArea(groupTwoBB);
      var enlargementOne, enlargementTwo := areaOne - oldOne, areaTwo - oldTwo;
      if n1 + left <= MinChildItems {
        choice := GroupOne;
      } else if n2 + left <= MinChildItems {
        choice := GroupTwo;
      } else if enlargementOne < enlargementTwo
          || (enlargementOne == enlargementTwo && areaOne < areaTwo)
          || (enlargementOne == enlargementTwo && areaOne == areaTwo && n1 < n2) {
        choice := GroupOne;
      } else if enlargementOne > enlargementTwo
          || (enlargementOne == enlargementTwo && areaOne > areaTwo)
          || (enlargementOne == enlargementTwo && areaOne == areaTwo && n1 > n2) {
        choice := GroupTwo;
      } else {
        choice := Nowhere;
      }
    }

    method GroupBB(group: RtreeNode, ghost c: Setting<RtreeNode>) returns (bb: Box)
      requires group.Items != [] && Boxed(group.Items, c.box, c.d) && Matches(c)
      ensures bb == JoinOver(group.Items, c.box, c.d)
    {
      JoinItemsIsJoinOver(group.Items, c.box, c.d);
      bb := group.ComputeBB(Dimensions);
    }

    method ChooseGroup(groupOne: RtreeNode, groupTwo: RtreeNode, remaining: seq<RtreeNode>,
                       ghost g: Groups<RtreeNode>, ghost c: Setting<RtreeNode>) returns (i: nat, choice: Choice)
      requires remaining != [] && g.one == groupOne.Items && g.two == groupTwo.Items && Ready(g, remaining, c) && Matches(c)
      requires groupOne.Bound == c.bound1 && groupTwo.Bound == c.bound2
      ensures i < |remaining| && i == Split.PickNext(g, remaining, c) && choice == ChoiceFor(g, remaining, c)
    {
      i := PickNext(groupOne, groupTwo, remaining, g, c);
      hide Split.PickNext, JoinOver, Assign, Proper;
      assert remaining[i] in remaining;
      var groupOneBB := GroupBB(groupOne, c);
      var groupTwoBB := GroupBB(groupTwo, c);
      choice := AssignGroup(|groupOne.Items|, |groupTwo.Items|, |remaining|, groupOneBB, groupTwoBB, remaining[i].Bound);
    }

    /** One round of the loop of SplitNode. */
    method PlaceNext(groupOne: RtreeNode, groupTwo: RtreeNode, remaining: seq<RtreeNode>,
                     ghost g: Groups<RtreeNode>, ghost c: Setting<RtreeNode>)
      returns (i: nat, rest: seq<RtreeNode>, ghost next: Groups<RtreeNode>)
      requires remaining != [] && g.one == groupOne.Items && g.two == groupTwo.Items && Ready(g, remaining, c) && Matches(c)
      requires groupOne.Bound == c.bound1 && groupTwo.Bound == c.bound2 && groupOne != groupTwo
      modifies groupOne`Items, groupTwo`Items, remaining`Parent
      ensures i < |remaining| && rest == remaining[..i] + remaining[i + 1..]
      ensures exists choice :: next == Place(g, remaining[i], choice)
      ensures groupOne.Items == next.one && groupTwo.Items == next.two
      ensures next.one != g.one ==> remaining[i].Parent == groupOne
      ensures next.two != g.two ==> remaining[i].Parent == groupTwo
      ensures next.one == g.one && next.two == g.two ==> remaining[i].Parent == old(remaining[i].Parent)
      ensures forall x :: x in remaining && x != remaining[i] ==> x.Parent == old(x.Parent)
      ensures Ready(next, rest, c) && Distribute(next, rest, c) == Distribute(g, remaining, c)
    {
      ghost var k, choice0 := Split.PickNext(g, remaining, c), ChoiceFor(g, remaining, c);
      ReadyAfter(g, remaining, c, k, choice0);
      assert Distribute(g, remaining, c) == Distribute(Place(g, remaining[k], choice0), remaining[..k] + remaining[k + 1..], c);
      hide Split.PickNext, ChoiceFor, Ready, Distribute;
      var choice;
      i, choice := ChooseGroup(groupOne, groupTwo, remaining, g, c);
      match choice {
        case GroupOne =>
          groupOne.Items := groupOne.Items + [remaining[i]];
          remaining[i].Parent := groupOne;
        case GroupTwo =>
          groupTwo.Items := groupTwo.Items + [remaining[i]];
          remaining[i].Parent := groupTwo;
        case Nowhere =>
      }
      rest := remaining[..i] + remaining[i + 1..];
      next := Place(g, remaining[i], choice);
    }

    /** What a split of l reads: its children's boxes, and the stored bounds of the two groups. */
    ghost function SettingOf(l: RtreeNode): Setting<RtreeNode>
      reads l, l.Items
    {
      Setting(map c | c in l.Items :: c.Bound, Dimensions, MinChildItems, l.Bound, ZeroBox)
    }

    ghost predicate Splittable(l: RtreeNode)
      reads l, l.Items
    {
      && |l.Items| >= 2 && l !in l.Items && |l.Bound.Edges| == l.Bound.Dim <= Dimensions
      && forall c :: c in l.Items ==> Fits(c.Bound, Dimensions)
    }

    /** The entries apart from the two seeds. */
    method RemainingOf(items: seq<RtreeNode>, first: RtreeNode, second: RtreeNode) returns (remaining: seq<RtreeNode>)
      ensures remaining == Others(items, first, second)
    {
      remaining := [];
      for i := 0 to |items|
        invariant remaining == Others(items[..i], first, second)
      {
        assert items[..i + 1][..i] == items[..i];
        if items[i] != first && items[i] != second {
          remaining := remaining + [items[i]];
        }
      }
      assert items[..|items|] == items;
    }

    method PickSeedsAndRest(l: RtreeNode, ghost c: Setting<RtreeNode>)
      returns (first: RtreeNode, second: RtreeNode, remaining: seq<RtreeNode>)
      requires Splittable(l) && c == SettingOf(l)
      ensures Boxed(l.Items, c.box, c.d)
      ensures |c.bound1.Edges| == c.bound1.Dim <= c.d && |c.bound2.Edges| == c.bound2.Dim <= c.d && |l.Items| >= 2 && l !in l.Items
      ensures (first, second) == SeedsOf(l.Items, c)
      ensures remaining == Others(l.Items, first, second) && first in l.Items && second in l.Items
      ensures Ready(Groups([first], [second], []), remaining, c)
      ensures Distribute(Groups([first], [second], []), remaining, c) == SplitOf(l.Items, c)
    {
      ghost var boxes := BoxesOf(l.Items, c.box);
      assert forall i :: 0 <= i < |boxes| ==> l.Items[i] in l.Items;
      hide SeedSearch, Proper, Distribute;
      first, second := LinearPickSeeds(l, boxes);
      remaining := RemainingOf(l.Items, first, second);
      SplitReady(l.Items, c);
    }

    /** While entries of `items` are handed out: those in a group name it as parent, and none is in
      * two places. Void when the seeds coincide or `items` repeats an entry. */
    ghost predicate Handing(items: seq<RtreeNode>, g: Groups<RtreeNode>, remaining: seq<RtreeNode>,
                            groupOne: RtreeNode, groupTwo: RtreeNode, tidy: bool)
      reads g.one`Parent, g.two`Parent
    {
      tidy ==> (
        && NoDup(items)
        && multiset(items) == multiset(g.one) + multiset(g.two) + multiset(g.lost) + multiset(remaining)
        && (forall x :: x in g.one ==> x.Parent == groupOne)
        && (forall x :: x in g.two ==> x.Parent == groupTwo))
    }

    ghost predicate Scattering(g: Groups<RtreeNode>, remaining: seq<RtreeNode>, groupOne: RtreeNode,
                               groupTwo: RtreeNode, c: Setting<RtreeNode>)
      reads groupOne, groupTwo, c.box.Keys`Bound
    {
      && groupOne != groupTwo && g.one == groupOne.Items && g.two == groupTwo.Items
      && Ready(g, remaining, c) && Matches(c)
      && groupOne.Bound == c.bound1 && groupTwo.Bound == c.bound2
    }

    method ScatterRound(groupOne: RtreeNode, groupTwo: RtreeNode, remaining: seq<RtreeNode>,
                        ghost items: seq<RtreeNode>,
                        ghost g: Groups<RtreeNode>, ghost c: Setting<RtreeNode>, ghost tidy: bool,
                        ghost kids: set<RtreeNode>)
      returns (rest: seq<RtreeNode>, ghost next: Groups<RtreeNode>)
      requires remaining != [] && Scattering(g, remaining, groupOne, groupTwo, c)
      requires Handing(items, g, remaining, groupOne, groupTwo, tidy)
      requires forall x :: x in remaining ==> x in kids
      modifies groupOne`Items, groupTwo`Items, kids`Parent
      ensures |rest| < |remaining| && forall x :: x in rest ==> x in remaining
      ensures Scattering(next, rest, groupOne, groupTwo, c)
      ensures Handing(items, next, rest, groupOne, groupTwo, tidy)
      ensures Distribute(next, rest, c) == Distribute(g, remaining, c)
      ensures forall x :: x in kids ==> x.Parent == old(x.Parent) || x.Parent == groupOne || x.Parent == groupTwo
    {
      hide Distribute, Boxed, Place, NoDup;
      var i;
      i, rest, next := PlaceNext(groupOne, groupTwo, remaining, g, c);
      RemoveAtMembers(remaining, i);
      ScatterStep(items, g, remaining, i, next, rest, tidy);
      assert forall x :: x in g.one && x != remaining[i] ==> x.Parent == old(x.Parent);
      assert forall x :: x in g.two && x != remaining[i] ==> x.Parent == old(x.Parent);
    }

    /** The loop of SplitNode. The seeds have their parents already. */
    method Scatter(groupOne: RtreeNode, groupTwo: RtreeNode, remaining0: seq<RtreeNode>, ghost items: seq<RtreeNode>,
                   ghost g0: Groups<RtreeNode>, ghost c: Setting<RtreeNode>, ghost tidy: bool,
                   ghost kids: set<RtreeNode>)
      returns (ghost final: Groups<RtreeNode>)
      requires Scattering(g0, remaining0, groupOne, groupTwo, c)
      requires Handing(items, g0, remaining0, groupOne, groupTwo, tidy)
      requires forall x :: x in remaining0 ==> x in kids
      modifies groupOne`Items, groupTwo`Items, kids`Parent
      ensures final == Distribute(g0, remaining0, c)
      ensures groupOne.Items == final.one && groupTwo.Items == final.two
      ensures forall x :: x in kids ==> x.Parent == old(x.Parent) || x.Parent == groupOne || x.Parent == groupTwo
      ensures Handing(items, final, [], groupOne, groupTwo, tidy)
    {
      ghost var g := g0;
      var remaining := remaining0;
      hide Distribute, Boxed, Handing;
      while |remaining| > 0
        invariant Scattering(g, remaining, groupOne, groupTwo, c)
        invariant Handing(items, g, remaining, groupOne, groupTwo, tidy)
        invariant Distribute(g, remaining, c) == Distribute(g0, remaining0, c)
        invariant forall x :: x in remaining ==> x in kids
        invariant forall x :: x in kids ==> x.Parent == old(x.Parent) || x.Parent == groupOne || x.Parent == groupTwo
        decreases |remaining|
      {
        remaining, g := ScatterRound(groupOne, groupTwo, remaining, items, g, c, tidy, kids);
      }
      final := g;
      assert Distribute(g, remaining, c) == g by { DistributeEnd(g, remaining, c); }
    }

    lemma DistributeEnd(g: Groups<RtreeNode>, remaining: seq<RtreeNode>, c: Setting<RtreeNode>)
      requires Ready(g, remaining, c) && remaining == []
      ensures Distribute(g, remaining, c) == g
    {}

    lemma ScatterStep(items: seq<RtreeNode>, g: Groups<RtreeNode>, remaining: seq<RtreeNode>, i: nat,
                      next: Groups<RtreeNode>, rest: seq<RtreeNode>, tidy: bool)
      requires i < |remaining| && rest == remaining[..i] + remaining[i + 1..]
      requires exists choice :: next == Place(g, remaining[i], choice)
      requires tidy ==> NoDup(items)
      requires tidy ==> multiset(items) == multiset(g.one) + multiset(g.two) + multiset(g.lost) + multiset(remaining)
      ensures tidy ==> remaining[i] !in g.one && remaining[i] !in g.two
      ensures tidy ==> multiset(items) == multiset(next.one) + multiset(next.two) + multiset(next.lost) + multiset(rest)
      ensures forall x :: x in next.one ==> x in g.one || (next.one != g.one && x == remaining[i])
      ensures forall x :: x in next.two ==> x in g.two || (next.two != g.two && x == remaining[i])
    {
      var choice :| next == Place(g, remaining[i], choice);
      RemoveAtMultiset(remaining, i);
      if tidy {
        PlaceConserves(g, remaining[i], choice);
        NoDupIsMultisetSet(items);
        assert multiset(items)[remaining[i]] <= 1;
        assert remaining[i] in multiset(remaining);
      }
    }

    ghost function Kids(n: RtreeNode): (kids: set<RtreeNode>)
      reads n
      ensures forall x :: x in n.Items ==> x in kids
      ensures forall x :: x in kids ==> x in n.Items
    {
      set x | x in n.Items
    }

    lemma SettingMatches(l: RtreeNode, c: Setting<RtreeNode>)
      requires c == SettingOf(l)
      ensures Matches(c)
    {}

    /** The two groups of one seed each. */
    method StartGroups(l: RtreeNode, first: RtreeNode, second: RtreeNode, ghost remaining: seq<RtreeNode>,
                       ghost c: Setting<RtreeNode>, ghost tidy: bool)
      returns (groupOne: RtreeNode, groupTwo: RtreeNode)
      requires Splittable(l) && c == SettingOf(l) && first in l.Items && second in l.Items
      requires remaining == Others(l.Items, first, second) && Ready(Groups([first], [second], []), remaining, c)
      requires tidy <==> NoDup(l.Items) && first != second
      modifies l`Items, first`Parent, second`Parent
      ensures groupOne == l && fresh(groupTwo) && groupTwo.h == l.h && groupTwo.IsLeaf == l.IsLeaf
      ensures groupTwo.Parent == l.Parent == old(l.Parent) && groupTwo.Bound == ZeroBox && groupTwo.Leaf == NO_OBJECT
      ensures first.Parent == groupOne || first.Parent == groupTwo
      ensures second.Parent == groupTwo
      ensures Scattering(Groups([first], [second], []), remaining, groupOne, groupTwo, c)
      ensures Handing(old(l.Items), Groups([first], [second], []), remaining, groupOne, groupTwo, tidy)
    {
      hide NoDup, Others, Distribute, Boxed, Proper, Matches;
      if tidy { SeedsAndOthers(l.Items, first, second); }
      assert Matches(c) by { SettingMatches(l, c); }
      groupOne := l;
      groupTwo := new RtreeNode(l.IsLeaf, NO_OBJECT, ZeroBox, l.Parent, [second], l.h);
      groupOne.Items := [first];
      first.Parent := groupOne;
      second.Parent := groupTwo;
    }

    /** The body of splitNode: l keeps group one, a new node gets group two. */
    method DivideItems(l: RtreeNode)
    returns (groupOne: RtreeNode, groupTwo: RtreeNode, ghost final: Groups<RtreeNode>, ghost tidy: bool)
      requires Splittable(l)
      modifies l`Items, Kids(l)`Parent
      ensures groupOne == l && fresh(groupTwo) && groupTwo.h == l.h && groupTwo.IsLeaf == l.IsLeaf
      ensures groupTwo.Parent == l.Parent == old(l.Parent) && groupTwo.Bound == ZeroBox && groupTwo.Leaf == NO_OBJECT
      ensures groupOne.Items == final.one && groupTwo.Items == final.two
      ensures Divided(old(l.Items), old(SettingOf(l)), final, tidy)
      ensures forall x :: x in old(Kids(l)) ==> x.Parent == old(x.Parent) || x.Parent == groupOne || x.Parent == groupTwo
      ensures Handing(old(l.Items), final, [], groupOne, groupTwo, tidy)
    {
      hide SplitOf, SeedsOf, Distribute, NoDup, Boxed, Matches, Handing, Ready, Scattering, Splittable, Others, Kids, SettingOf;
      ghost var items, c, kids := l.Items, SettingOf(l), Kids(l);
      var first, second, remaining := PickSeedsAndRest(l, c);
      tidy := NoDup(items) && first != second;
      groupOne, groupTwo := StartGroups(l, first, second, remaining, c, tidy);
      final := Scatter(groupOne, groupTwo, remaining, items, Groups([first], [second], []), c, tidy, kids);
    }

    /** The groups are those of SplitOf; `tidy` says that the entries and the two seeds were distinct. */
    static ghost predicate Divided(items: seq<RtreeNode>, c: Setting<RtreeNode>, final: Groups<RtreeNode>, tidy: bool) {
      && |items| >= 2 && Boxed(items, c.box, c.d)
      && |c.bound1.Edges| == c.bound1.Dim <= c.d && |c.bound2.Edges| == c.bound2.Dim <= c.d
      && final == SplitOf(items, c)
      && (tidy <==> NoDup(items) && SeedsOf(items, c).0 != SeedsOf(items, c).1)
    }

    /** What DivideItems changes among the nodes of S. */
    twostate predicate DividedIn(S: set<RtreeNode>, l: RtreeNode, new two: RtreeNode, items: seq<RtreeNode>,
                                 final: Groups<RtreeNode>)
      requires l in S
      reads S, two
    {
      && l.Items == final.one && two.Items == final.two && two !in S
      && two.h == l.h && two.IsLeaf == l.IsLeaf && two.Bound == ZeroBox && two.Leaf == NO_OBJECT && two.Parent == l.Parent
      && (forall n :: n in S ==> n.Bound == old(n.Bound))
      && (forall n :: n in S && n != l ==> n.Items == old(n.Items))
      && (forall n :: n in S && n !in items ==> n.Parent == old(n.Parent))
      && (forall n :: n in S && n in items ==> n.Parent == old(n.Parent) || n.Parent == l || n.Parent == two)
      && final.one != [] && final.two != []
      && (forall c :: c in final.one ==> c in items)
      && (forall c :: c in final.two ==> c in items)
    }

    twostate lemma DividedShaped(new n: RtreeNode, S: set<RtreeNode>, new R: RtreeNode, new skew: nat, new d: nat,
                                 new l: RtreeNode, new two: RtreeNode,
                                 new items: seq<RtreeNode>, new final: Groups<RtreeNode>)
      requires old(allocated(n)) && old(allocated(R)) && old(allocated(l)) && old(allocated(items)) && old(allocated(final))
      requires l in S && n in S && items == old(l.Items) && DividedIn(S, l, two, items, final)
      requires old(Shaped(n, S, R, skew, d, null)) && old(Shaped(l, S, R, skew, d, null))
      ensures Shaped(n, S + {two}, R, skew, d, two)
    {
      assert final.one[0] in items;
    }

    twostate lemma TwoShaped(S: set<RtreeNode>, new R: RtreeNode, new skew: nat, new d: nat, new l: RtreeNode,
                             new two: RtreeNode,
                             new items: seq<RtreeNode>, new final: Groups<RtreeNode>)
      requires old(allocated(R)) && old(allocated(l)) && old(allocated(items)) && old(allocated(final))
      requires l in S && items == old(l.Items) && DividedIn(S, l, two, items, final)
      requires old(Shaped(l, S, R, skew, d, null)) && R in S
      ensures Shaped(two, S + {two}, R, skew, d, two)
    {
      assert final.one[0] in items;
    }

    twostate lemma DividedTidy(new n: RtreeNode, S: set<RtreeNode>, new R: RtreeNode, new skew: nat, new d: nat,
                               new m: int, new M: int, new l: RtreeNode,
                               new two: RtreeNode, new items: seq<RtreeNode>, new final: Groups<RtreeNode>)
      requires old(allocated(n)) && old(allocated(R)) && old(allocated(l)) && old(allocated(items)) && old(allocated(final))
      requires l in S && n in S && R in S && items == old(l.Items) && DividedIn(S, l, two, items, final)
      requires old(Shaped(n, S, R, skew, d, null)) && old(Shaped(l, S, R, skew, d, null))
      requires old(Tidy(n, R, m, M, l, null, l)) && old(Tidy(l, R, m, M, l, null, l))
      requires l != R ==> l.h < R.h
      requires Handing(items, final, [], l, two, true) && final.lost == []
      requires |final.one| <= M && (2 * m <= M + 1 ==> m <= |final.one|)
      ensures Tidy(n, R, m, M, l, two, null)
    {
      hide JoinItems;
      assert forall c :: c in items ==> c in final.one || c in final.two by { HandedOut(items, final); }
      if n == l {
        NoDupHanded(items, final);
      } else {
        assert forall c :: c in n.Items ==> c !in items;
        if n !in items && n != R {
          assert n.Parent != l;
        }
        assert !Bounded(R, R, two) || l == R by {
          if l != R { assert l.h < R.h; }
        }
      }
    }

    twostate lemma TwoTidy(S: set<RtreeNode>, new R: RtreeNode, new m: int, new M: int, new l: RtreeNode,
                           new two: RtreeNode, new items: seq<RtreeNode>, new final: Groups<RtreeNode>)
      requires old(allocated(R)) && old(allocated(l)) && old(allocated(items)) && old(allocated(final))
      requires l in S && R in S && items == old(l.Items) && DividedIn(S, l, two, items, final)
      requires Handing(items, final, [], l, two, true)
      requires |final.two| <= M && (2 * m <= M + 1 ==> m <= |final.two|)
      ensures Tidy(two, R, m, M, l, two, null)
    {
      NoDupHanded(items, final);
    }

    static lemma HandedOut(items: seq<RtreeNode>, final: Groups<RtreeNode>)
      requires final.lost == [] && multiset(items) == multiset(final.one) + multiset(final.two) + multiset(final.lost) + multiset([])
      ensures forall c :: c in items ==> c in final.one || c in final.two
    {
      forall c | c in items ensures c in final.one || c in final.two {
        assert c in multiset(items);
      }
    }

    static lemma NoDupHanded(items: seq<RtreeNode>, final: Groups<RtreeNode>)
      requires NoDup(items) && multiset(items) == multiset(final.one) + multiset(final.two) + multiset(final.lost) + multiset([])
      ensures NoDup(final.one) && NoDup(final.two)
    {
      NoDupIsMultisetSet(items);
      NoDupIsMultisetSet(final.one);
      NoDupIsMultisetSet(final.two);
      hide NoDup;
      forall x ensures multiset(final.one)[x] <= 1 && multiset(final.two)[x] <= 1 {
        assert multiset(items)[x] <= 1;
      }
    }

    /** splitNode, lines 265-343: the groups are those of SplitOf, and the tree stays tidy exactly when
      * the split is a partition. */
    method SplitNode(l: RtreeNode) returns (groupOne: RtreeNode, groupTwo: RtreeNode)
      requires Ok(l, null, l) && l in Nodes
      requires |l.Items| > MaxChildItems && (Clean ==> |l.Items| == MaxChildItems + 1)
      modifies this`Nodes, this`Clean, this`Splits, l`Items, Kids(l)`Parent
      ensures groupOne == l && fresh(groupTwo) && groupTwo.h == l.h && Nodes == old(Nodes) + {groupTwo}
      ensures groupOne.Items != [] && groupTwo.Items != []
      ensures Ok(groupOne, groupTwo, null)
      ensures Splits == old(Splits) + [old(SplitRecord(l, l.Items, SettingOf(l)))]
      ensures Splat(Splits[|old(Splits)|], groupOne, groupTwo)
      ensures forall x :: x in old(Nodes) ==>
        x.Parent == old(x.Parent) || (x in old(l.Items) && (x.Parent == groupOne || x.Parent == groupTwo))
      ensures Clean <==> old(Clean) && Partitions(Splits[|old(Splits)|])
      ensures Clean ==> HalfBoxes(Splits[|old(Splits)|]) == (JoinItems(groupOne.Items), JoinItems(groupTwo.Items))
      ensures old(NoDup(l.Items)) && old(Clean) ==>
        (Clean <==> multiset(groupOne.Items) + multiset(groupTwo.Items) == multiset(old(l.Items)))
    {
      hide Tidy, JoinItems, SplitOf, SeedsOf, Distribute, NoDup, Proper, Handing, DividedIn, Partitioning, AllPartition, AllGenuine, SettingOf, HalfBoxes;
      ghost var items, c, S := l.Items, SettingOf(l), Nodes;
      ghost var record := SplitRecord(l, items, c);
      assert Shaped(l, Nodes, Root, Skew, Dimensions, null);
      SplittableHere(l);
      if Clean { FullTidy(l); }
      SettingBoxes(l);
      ghost var final, tidy;
      groupOne, groupTwo, final, tidy := DivideItems(l);
      Nodes := Nodes + {groupTwo};
      Splits := Splits + [record];
      Clean := Clean && Partitions(record);
      OneMoreSplit(old(Splits), record, Bounds());
      SplitOfMembers(items, c, final, tidy);
      assert DividedIn(S, l, groupTwo, items, final) by { DividedInHere(S, l, groupTwo, items, final); }
      DividedSound(S, Root, Skew, Dimensions, l, groupTwo, items, final);
      if Clean {
        DividedAllTidy(S, Root, Skew, Dimensions, MinChildItems, MaxChildItems, l, groupTwo, items, final);
        HalvesJoined(record, l, groupTwo);
      }
    }

    /** The two nodes hold the groups of the recorded split. */
    static ghost predicate Splat(r: SplitRecord, groupOne: RtreeNode, groupTwo: RtreeNode)
      reads groupOne, groupTwo
    {
      && Recorded(r)
      && groupOne.Items == SplitOf(r.items, r.setting).one && groupTwo.Items == SplitOf(r.items, r.setting).two
    }

    /** SplitNode, and what it leaves alone: an entry that changes its parent was one of l. */
    method SplitFull(l: RtreeNode) returns (groupOne: RtreeNode, groupTwo: RtreeNode)
      requires Ok(l, null, l) && l in Nodes
      requires |l.Items| > MaxChildItems && (Clean ==> |l.Items| == MaxChildItems + 1)
      modifies this`Nodes, this`Clean, this`Splits, l`Items, Nodes`Parent
      ensures groupOne == l && fresh(groupTwo) && groupTwo.h == l.h && Nodes == old(Nodes) + {groupTwo}
      ensures groupOne.Items != [] && groupTwo.Items != [] && Ok(groupOne, groupTwo, null)
      ensures Splits == old(Splits) + [old(SplitRecord(l, l.Items, SettingOf(l)))]
      ensures Clean <==> old(Clean) && Partitions(Splits[|old(Splits)|])
      ensures Clean ==> HalfBoxes(Splits[|old(Splits)|]) == (JoinItems(groupOne.Items), JoinItems(groupTwo.Items))
      ensures forall x :: x in old(Nodes) ==>
        x.Parent == old(x.Parent) || (x in old(l.Items) && (x.Parent == groupOne || x.Parent == groupTwo))
      ensures forall x :: x in old(Nodes) && x.h >= l.h ==> x.Parent == old(x.Parent)
      ensures l.h > Skew ==> forall x :: x in old(Nodes) && x.h + 1 < l.h ==> x.Parent == old(x.Parent)
    {
      hide Shaped, Tidy, JoinItems, NoDup, Proper, Logged, Splat, SettingOf, HalfBoxes, Partitions;
      KidsInside(l);
      KidsLower(l, null);
      KidsNext(l);
      groupOne, groupTwo := SplitNode(l);
    }

    lemma KidsNext(n: RtreeNode)
      requires Sound(Nodes, Root, Skew, Dimensions, null) && n in Nodes
      ensures n.h > Skew ==> forall c :: c in n.Items ==> c.h + 1 == n.h
    {
      assert Shaped(n, Nodes, Root, Skew, Dimensions, null);
    }

    /** The exact bounds of two nodes that hold a partitioning split's groups. */
    static lemma HalvesJoined(r: SplitRecord, one: RtreeNode, two: RtreeNode)
      requires Splat(r, one, two) && Partitions(r) && forall c :: c in r.items ==> c.Bound == r.setting.box[c]
      ensures HalfBoxes(r) == (JoinItems(one.Items), JoinItems(two.Items))
    {
      hide SplitOf, Partitioning, Proper, JoinItems, JoinOver;
      HalvesFit(r);
      SplitMembers(r.items, r.setting);
      JoinItemsIsJoinOver(one.Items, r.setting.box, r.setting.d);
      JoinItemsIsJoinOver(two.Items, r.setting.box, r.setting.d);
    }

    lemma SettingBoxes(l: RtreeNode)
      ensures forall c :: c in l.Items ==> c in SettingOf(l).box && SettingOf(l).box[c] == c.Bound
      ensures SettingOf(l).d == Dimensions && SettingOf(l).m == MinChildItems && SettingOf(l).bound2 == ZeroBox
    {}

    lemma FullTidy(l: RtreeNode)
      requires Ok(l, null, l) && Clean && l in Nodes
      ensures NoDup(l.Items)
    {
      assert Tidy(l, Root, MinChildItems, MaxChildItems, l, null, l);
    }

    twostate lemma DividedSound(S: set<RtreeNode>, new R: RtreeNode, new skew: nat, new d: nat, new l: RtreeNode,
                                new two: RtreeNode,
                                new items: seq<RtreeNode>, new final: Groups<RtreeNode>)
      requires old(allocated(R)) && old(allocated(l)) && old(allocated(items)) && old(allocated(final))
      requires l in S && items == old(l.Items) && DividedIn(S, l, two, items, final)
      requires old(Sound(S, R, skew, d, null))
      ensures Sound(S + {two}, R, skew, d, two)
    {
      hide DividedIn;
      assert old(Shaped(l, S, R, skew, d, null));
      TwoShaped(S, R, skew, d, l, two, items, final);
      forall n | n in S ensures Shaped(n, S + {two}, R, skew, d, two) {
        assert old(Shaped(n, S, R, skew, d, null));
        DividedShaped(n, S, R, skew, d, l, two, items, final);
      }
      assert two !in S && two.h == l.h && l.h >= 1 by { assert DividedIn(S, l, two, items, final); DividedLevel(S, R, skew, d, l, two, items, final); }
    }

    twostate lemma DividedLevel(S: set<RtreeNode>, new R: RtreeNode, new skew: nat, new d: nat, new l: RtreeNode,
                                new two: RtreeNode,
                                new items: seq<RtreeNode>, new final: Groups<RtreeNode>)
      requires old(allocated(R)) && old(allocated(l)) && old(allocated(items)) && old(allocated(final))
      requires l in S && items == old(l.Items) && DividedIn(S, l, two, items, final)
      requires old(Shaped(l, S, R, skew, d, null))
      ensures two !in S && two.h == l.h && l.h >= 1
    {
      assert final.one[0] in items;
    }

    twostate lemma DividedAllTidy(S: set<RtreeNode>, new R: RtreeNode, new skew: nat, new d: nat, new m: int,
                                  new M: int, new l: RtreeNode, new two: RtreeNode,
                                  new items: seq<RtreeNode>, new final: Groups<RtreeNode>)
      requires old(allocated(R)) && old(allocated(l)) && old(allocated(items)) && old(allocated(final))
      requires l in S && items == old(l.Items) && DividedIn(S, l, two, items, final)
      requires old(Sound(S, R, skew, d, null)) && old(AllTidy(S, R, skew, d, m, M, l, null, l))
      requires Sound(S + {two}, R, skew, d, two)
      requires Handing(items, final, [], l, two, true) && final.lost == []
      requires |final.one| <= M && |final.two| <= M && (2 * m <= M + 1 ==> m <= |final.one| && m <= |final.two|)
      ensures AllTidy(S + {two}, R, skew, d, m, M, l, two, null)
    {
      hide DividedIn, Handing;
      assert old(Tidy(l, R, m, M, l, null, l));
      TwoTidy(S, R, m, M, l, two, items, final);
      forall n | n in S ensures Tidy(n, R, m, M, l, two, null) {
        assert old(Tidy(n, R, m, M, l, null, l));
        if l != R { assert old(Shaped(l.Parent, S, R, skew, d, null)); }
        DividedTidy(n, S, R, skew, d, m, M, l, two, items, final);
      }
      forall n | n in S + {two} ensures Shaped(n, S + {two}, R, skew, d, two) {}
    }

    lemma SplittableHere(l: RtreeNode)
      requires Ok(l, null, l) && l in Nodes && |l.Items| > MaxChildItems
      ensures Splittable(l)
    {
      assert Shaped(l, Nodes, Root, Skew, Dimensions, null);
      forall c | c in l.Items ensures c != l && Fits(c.Bound, Dimensions) {
        assert Shaped(c, Nodes, Root, Skew, Dimensions, null);
      }
    }

    twostate lemma DividedInHere(S: set<RtreeNode>, new l: RtreeNode, new two: RtreeNode, new items: seq<RtreeNode>,
                                 new final: Groups<RtreeNode>)
      requires old(allocated(l)) && old(allocated(items)) && old(allocated(final))
      requires l in S && two !in S && items == old(l.Items) && l !in items
      requires l.Items == final.one && two.Items == final.two
      requires two.h == l.h && two.IsLeaf == l.IsLeaf && two.Bound == ZeroBox && two.Leaf == NO_OBJECT && two.Parent == l.Parent
      requires forall n :: n in S ==> n.Bound == old(n.Bound)
      requires forall n :: n in S && n != l ==> n.Items == old(n.Items)
      requires forall n :: n in S && n !in items ==> n.Parent == old(n.Parent)
      requires forall x :: x in old(Kids(l)) ==> x.Parent == old(x.Parent) || x.Parent == l || x.Parent == two
      requires final.one != [] && final.two != []
      requires forall c :: c in final.one ==> c in items
      requires forall c :: c in final.two ==> c in items
      ensures DividedIn(S, l, two, items, final)
    {}

    /** What the pure results about SplitOf say of the groups at hand. */
    static lemma SplitOfMembers(items: seq<RtreeNode>, c: Setting<RtreeNode>, final: Groups<RtreeNode>, tidy: bool)
      requires Divided(items, c, final, tidy)
      ensures final.one != [] && final.two != []
      ensures forall x :: x in final.one ==> x in items
      ensures forall x :: x in final.two ==> x in items
      ensures NoDup(items) ==> (Partitioning(items, c) <==> multiset(final.one) + multiset(final.two) == multiset(items))
      ensures NoDup(items) && Partitioning(items, c) ==>
        tidy && final.lost == [] && |final.one| < |items| && |final.two| < |items|
      ensures NoDup(items) && Partitioning(items, c) && |items| >= 2 * c.m ==> |final.one| >= c.m && |final.two| >= c.m
    {
      hide SplitOf, SeedsOf, Proper, NoDup, NoTie, Others;
      SplitMembers(items, c);
      if NoDup(items) {
        SplitPartitions(items, c);
        if Partitioning(items, c) { SplitFills(items, c); }
      }
    }

    // ---- adjustTree, lines 207-263

    /** The loop of adjustTree that looks for n among its parent's entries, the first one if absent. */
    method EntryOf(p: RtreeNode, n: RtreeNode) returns (en: RtreeNode)
      requires p.Items != []
      ensures en in p.Items && (n in p.Items ==> en == n)
    {
      en := p.Items[0];
      for i := 0 to |p.Items|
        invariant en in p.Items
        invariant n in p.Items[..i] ==> en == n
      {
        if p.Items[i] == n {
          en := n;
        }
      }
      assert p.Items[..|p.Items|] == p.Items;
    }

    /** The bound of n, and through the entry loop of the source the bound that its parent sees. */
    method RefreshBound(n: RtreeNode, ghost nn: RtreeNode?) returns (p: RtreeNode)
      requires Ok(n, nn, null) && n in Nodes && n != Root && n != nn && n.Items != []
      requires nn != null ==> nn.h == n.h
      modifies Nodes`Bound
      ensures p == n.Parent && p in Nodes && p != nn && n.h < p.h <= Root.h && p.Items != []
      ensures p.h > Skew ==> n.h + 1 == p.h
      ensures nn != null ==> nn.Bound == old(nn.Bound)
      ensures Clean ==> n.Bound == old(JoinItems(n.Items)) && forall x :: x in Nodes && x != n ==> x.Bound == old(x.Bound)
      ensures Ok(p, nn, null)
    {
      hide Shaped, Tidy, JoinItems, NoDup, Proper, Logged;
      Parentage(n, nn);
      p := n.Parent;
      var en := EntryOf(p, n);
      var bb := n.ComputeBB(Dimensions);
      EntryLevel(en, p, nn);
      if Clean { TidyAttached(n, nn); }
      en.Bound := bb;
      RefreshedSound(Nodes, Root, Skew, Dimensions, nn, en);
      if Clean {
        RefreshedAllTidy(Nodes, Root, Skew, Dimensions, MinChildItems, MaxChildItems, n, p, nn);
      }
    }

    lemma Parentage(n: RtreeNode, nn: RtreeNode?)
      requires Sound(Nodes, Root, Skew, Dimensions, nn) && n in Nodes && n != Root && n != nn && n.Items != []
      requires nn != null ==> nn.h == n.h
      ensures var p := n.Parent;
        && p != null && p in Nodes && p != nn && n.h < p.h <= Root.h && p.Items != []
        && (p.h > Skew ==> n.h + 1 == p.h) && n.h >= 1
        && n !in n.Items && forall c :: c in n.Items ==> Fits(c.Bound, Dimensions)
    {
      ItemsFit(n, nn);
      assert Shaped(n, Nodes, Root, Skew, Dimensions, nn);
      assert Shaped(n.Parent, Nodes, Root, Skew, Dimensions, nn);
    }

    lemma EntryLevel(en: RtreeNode, p: RtreeNode, nn: RtreeNode?)
      requires Sound(Nodes, Root, Skew, Dimensions, nn) && p in Nodes && en in p.Items && p.h >= 2
      ensures en in Nodes && en.h >= 1 && en != Root && en != nn
    {
      assert Shaped(p, Nodes, Root, Skew, Dimensions, nn);
    }

    lemma TidyAttached(n: RtreeNode, nn: RtreeNode?)
      requires Ok(n, nn, null) && Clean && n in Nodes && n != Root && n != nn
      ensures n.Parent != null && n in n.Parent.Items
    {
      assert Tidy(n, Root, MinChildItems, MaxChildItems, n, nn, null);
    }

    twostate lemma RefreshedSound(S: set<RtreeNode>, new R: RtreeNode, new skew: nat, new d: nat, new nn: RtreeNode?,
                                  new en: RtreeNode)
      requires old(allocated(R)) && old(allocated(nn)) && old(allocated(en))
      requires old(Sound(S, R, skew, d, nn)) && en in S && en.h >= 1 && Fits(en.Bound, d)
      requires forall x :: x in S ==> x.Items == old(x.Items) && x.Parent == old(x.Parent) && (x != en ==> x.Bound == old(x.Bound))
      ensures Sound(S, R, skew, d, nn)
    {
      forall x | x in S ensures Shaped(x, S, R, skew, d, nn) {
        assert old(Shaped(x, S, R, skew, d, nn));
      }
    }

    twostate lemma RefreshedAllTidy(S: set<RtreeNode>, new R: RtreeNode, new skew: nat, new d: nat, new m: int,
                                    new M: int, new n: RtreeNode, new p: RtreeNode, new nn: RtreeNode?)
      requires old(allocated(R)) && old(allocated(n)) && old(allocated(p)) && old(allocated(nn))
      requires old(Sound(S, R, skew, d, nn)) && old(AllTidy(S, R, skew, d, m, M, n, nn, null)) && Sound(S, R, skew, d, nn)
      requires forall y: RtreeNode :: old(allocated(y)) ==> y.Items == old(y.Items) && y.Parent == old(y.Parent)
      requires forall y: RtreeNode :: old(allocated(y)) && y != n ==> y.Bound == old(y.Bound)
      requires n.Bound == old(JoinItems(n.Items)) && n.Parent == p && n !in n.Items
      ensures AllTidy(S, R, skew, d, m, M, p, nn, null)
    {
      forall x | x in S ensures Shaped(x, S, R, skew, d, nn) && Tidy(x, R, m, M, p, nn, null) {
        assert old(Tidy(x, R, m, M, n, nn, null));
        RefreshedTidy(x, n, p, R, m, M, nn);
      }
    }

    twostate lemma RefreshedTidy(x: RtreeNode, new n: RtreeNode, new p: RtreeNode, new R: RtreeNode, new m: int,
                                 new M: int, new nn: RtreeNode?)
      requires old(allocated(n)) && old(allocated(p)) && old(allocated(R)) && old(allocated(nn))
      requires old(Tidy(x, R, m, M, n, nn, null))
      requires forall y: RtreeNode :: old(allocated(y)) ==> y.Items == old(y.Items) && y.Parent == old(y.Parent)
      requires forall y: RtreeNode :: old(allocated(y)) && y != n ==> y.Bound == old(y.Bound)
      requires n.Bound == old(JoinItems(n.Items)) && n.Parent == p && n !in n.Items
      ensures Tidy(x, R, m, M, p, nn, null)
    {
      if x == n {
        assert JoinItems(n.Items) == old(JoinItems(n.Items));
      } else if x != p {
        assert n !in x.Items;
        assert JoinItems(x.Items) == old(JoinItems(x.Items));
      }
    }

    lemma ItemsFit(n: RtreeNode, nn: RtreeNode?)
      requires Sound(Nodes, Root, Skew, Dimensions, nn) && n in Nodes
      ensures n !in n.Items && forall c :: c in n.Items ==> Fits(c.Bound, Dimensions)
    {
      assert Shaped(n, Nodes, Root, Skew, Dimensions, nn);
      forall c | c in n.Items ensures Fits(c.Bound, Dimensions) {
        assert Shaped(c, Nodes, Root, Skew, Dimensions, nn);
      }
    }

    /** Step AT4 of adjustTree: the second half of a split becomes a child of p. */
    method AttachPartner(p: RtreeNode, nn: RtreeNode)
      requires Ok(p, nn, null) && p in Nodes && p != nn && p.h > nn.h && nn.Items != []
      requires p.h > Skew ==> nn.h + 1 == p.h
      modifies nn`Bound, nn`Parent, p`Items
      ensures p.Items == old(p.Items) + [nn] && (Clean ==> |p.Items| <= MaxChildItems + 1)
      ensures nn.Bound == old(JoinItems(nn.Items)) && nn.Parent == p
      ensures Ok(p, null, p) && (|p.Items| <= MaxChildItems ==> Ok(p, null, null))
    {
      hide Shaped, Tidy, JoinItems, NoDup, Proper, Logged;
      ItemsFit(nn, nn);
      PartnerNotChild(nn);
      if Clean { PartnerFilled(p, nn); }
      var bb := nn.ComputeBB(Dimensions);
      nn.Bound := bb;
      nn.Parent := p;
      p.Items := p.Items + [nn];
      AttachedSound(Nodes, Root, Skew, Dimensions, p, nn);
      if Clean {
        AttachedAllTidy(Nodes, Root, Skew, Dimensions, MinChildItems, MaxChildItems, p, nn);
      }
    }

    lemma PartnerFilled(p: RtreeNode?, nn: RtreeNode)
      requires Ok(p, nn, null) && Clean
      ensures 2 * MinChildItems <= MaxChildItems + 1 ==> MinChildItems <= |nn.Items|
    {
      assert Tidy(nn, Root, MinChildItems, MaxChildItems, p, nn, null);
    }

    lemma PartnerNotChild(nn: RtreeNode)
      requires Sound(Nodes, Root, Skew, Dimensions, nn)
      ensures forall x :: x in Nodes ==> nn !in x.Items
    {
      forall x | x in Nodes ensures nn !in x.Items {
        assert Shaped(x, Nodes, Root, Skew, Dimensions, nn);
      }
    }

    twostate predicate AttachedIn(S: set<RtreeNode>, p: RtreeNode, nn: RtreeNode)
      reads S, p, nn
    {
      && p in S && nn in S && p != nn && p.h > nn.h >= 1 && nn.Items != []
      && nn.Parent == p && p.Items == old(p.Items) + [nn]
      && (forall x :: x in S && x != nn ==> x.Parent == old(x.Parent) && x.Bound == old(x.Bound))
      && (forall x :: x in S && x != p ==> x.Items == old(x.Items))
      && (forall x :: x in S ==> nn !in old(x.Items))
    }

    twostate lemma AttachedSound(S: set<RtreeNode>, new R: RtreeNode, new skew: nat, new d: nat, new p: RtreeNode,
                                 new nn: RtreeNode)
      requires old(allocated(R)) && old(allocated(p)) && old(allocated(nn))
      requires old(Sound(S, R, skew, d, nn)) && AttachedIn(S, p, nn) && Fits(nn.Bound, d)
      requires p.h > skew ==> nn.h + 1 == p.h
      ensures Sound(S, R, skew, d, null)
    {
      forall x | x in S ensures Shaped(x, S, R, skew, d, null) {
        assert old(Shaped(x, S, R, skew, d, nn));
      }
    }

    twostate lemma AttachedTidy(new x: RtreeNode, S: set<RtreeNode>, new R: RtreeNode, new skew: nat, new d: nat,
                                new m: int, new M: int, new p: RtreeNode, new nn: RtreeNode)
      requires old(allocated(x)) && old(allocated(R)) && old(allocated(p)) && old(allocated(nn))
      requires x in S && AttachedIn(S, p, nn) && nn.Bound == old(JoinItems(nn.Items)) && nn !in nn.Items
      requires old(Shaped(x, S, R, skew, d, nn)) && old(Tidy(x, R, m, M, p, nn, null))
      requires 2 * m <= M + 1 ==> m <= |nn.Items|
      ensures Tidy(x, R, m, M, p, null, p)
      ensures x == p ==> |x.Items| <= M + 1 && (2 * m <= M + 1 && Bounded(x, R, null) ==> m <= |x.Items|)
      ensures x != p || |x.Items| <= M ==> Tidy(x, R, m, M, p, null, null)
    {
      hide JoinItems;
      if x != p {
        assert nn !in x.Items;
        assert JoinItems(x.Items) == old(JoinItems(x.Items));
      }
    }

    twostate lemma AttachedAllTidy(S: set<RtreeNode>, new R: RtreeNode, new skew: nat, new d: nat, new m: int,
                                   new M: int, new p: RtreeNode, new nn: RtreeNode)
      requires old(allocated(R)) && old(allocated(p)) && old(allocated(nn))
      requires old(Sound(S, R, skew, d, nn)) && old(AllTidy(S, R, skew, d, m, M, p, nn, null)) && Sound(S, R, skew, d, null)
      requires AttachedIn(S, p, nn) && nn.Bound == old(JoinItems(nn.Items)) && nn !in nn.Items
      requires 2 * m <= M + 1 ==> m <= |nn.Items|
      ensures |p.Items| <= M + 1
      ensures AllTidy(S, R, skew, d, m, M, p, null, p)
      ensures |p.Items| <= M ==> AllTidy(S, R, skew, d, m, M, p, null, null)
    {
      hide AttachedIn;
      assert p in S by { assert AttachedIn(S, p, nn); AttachedMember(S, p, nn); }
      assert old(Tidy(p, R, m, M, p, nn, null));
      AttachedTidy(p, S, R, skew, d, m, M, p, nn);
      forall x | x in S ensures Shaped(x, S, R, skew, d, null) && Tidy(x, R, m, M, p, null, p)
                                && (|p.Items| <= M ==> Tidy(x, R, m, M, p, null, null)) {
        assert old(Tidy(x, R, m, M, p, nn, null));
        AttachedTidy(x, S, R, skew, d, m, M, p, nn);
      }
    }

    twostate lemma AttachedMember(S: set<RtreeNode>, new p: RtreeNode, new nn: RtreeNode)
      requires old(allocated(p)) && old(allocated(nn))
      requires AttachedIn(S, p, nn)
      ensures p in S
    {}

    /** Case AT2 of adjustTree. */
    method RefreshRoot(ghost nn: RtreeNode?)
      requires Ok(Root, nn, null) && Root.Items != []
      modifies Root`Bound
      ensures Ok(null, nn, null) && Fits(Root.Bound, Dimensions)
    {
      hide Shaped, Tidy, JoinItems, NoDup, Proper, Logged;
      ItemsFit(Root, nn);
      var bb := Root.ComputeBB(Dimensions);
      RootLevel(nn);
      Root.Bound := bb;
      RefreshedSound(Nodes, Root, Skew, Dimensions, nn, Root);
      if Clean {
        RefreshedRootTidy(Nodes, Root, Skew, Dimensions, MinChildItems, MaxChildItems, nn);
      }
    }

    lemma RootLevel(nn: RtreeNode?)
      requires Sound(Nodes, Root, Skew, Dimensions, nn)
      ensures forall x :: x in Nodes ==> Root !in x.Items
    {
      forall x | x in Nodes ensures Root !in x.Items {
        assert Shaped(x, Nodes, Root, Skew, Dimensions, nn);
      }
    }

    twostate lemma RefreshedRootTidy(S: set<RtreeNode>, new R: RtreeNode, new skew: nat, new d: nat, new m: int,
                                     new M: int, new nn: RtreeNode?)
      requires old(allocated(R)) && old(allocated(nn))
      requires old(Sound(S, R, skew, d, nn)) && old(AllTidy(S, R, skew, d, m, M, R, nn, null)) && Sound(S, R, skew, d, nn)
      requires forall y: RtreeNode :: old(allocated(y)) ==> y.Items == old(y.Items) && y.Parent == old(y.Parent)
      requires forall y: RtreeNode :: old(allocated(y)) && y != R ==> y.Bound == old(y.Bound)
      requires R.Bound == old(JoinItems(R.Items)) && forall x :: x in S ==> R !in x.Items
      ensures AllTidy(S, R, skew, d, m, M, null, nn, null)
    {
      hide JoinItems;
      forall x | x in S ensures Shaped(x, S, R, skew, d, nn) && Tidy(x, R, m, M, null, nn, null) {
        assert old(Tidy(x, R, m, M, R, nn, null));
        assert JoinItems(x.Items) == old(JoinItems(x.Items));
      }
    }

    lemma RootHeight(n: RtreeNode, nn: RtreeNode?)
      requires Sound(Nodes, Root, Skew, Dimensions, nn) && n in Nodes
      ensures n.h <= Root.h
    {
      assert Shaped(n, Nodes, Root, Skew, Dimensions, nn);
    }

    lemma KidsInside(n: RtreeNode)
      requires Sound(Nodes, Root, Skew, Dimensions, null) && n in Nodes
      ensures Kids(n) <= Nodes
    {
      assert Shaped(n, Nodes, Root, Skew, Dimensions, null);
    }

    /** The parent of l sees l's exact bound, and takes ll as a child. */
    method JoinParent(l: RtreeNode, ll: RtreeNode?) returns (n: RtreeNode)
      requires Ok(l, ll, null) && l in Nodes && l != Root && l.Items != [] && l != ll
      requires ll != null ==> ll.Items != [] && ll.h == l.h
      modifies Nodes
      ensures n == old(l.Parent) && n in Nodes && n.Items != [] && n != l && n != ll && l.h < n.h <= Root.h
      ensures n.Items == old(n.Items) + if ll == null then [] else [ll]
      ensures ll == null || |n.Items| <= MaxChildItems ==> Ok(n, null, null)
      ensures ll != null ==> Ok(n, null, n) && (Clean ==> |n.Items| <= MaxChildItems + 1)
      ensures forall x :: x in Nodes && x != n ==> x.Items == old(x.Items)
      ensures forall x :: x in Nodes && x != ll ==> x.Parent == old(x.Parent)
      ensures Clean ==> forall x :: x in Nodes && x != l && x != ll ==> x.Bound == old(x.Bound)
      ensures Clean && ll != null ==> Laid(old(Snapshot(Nodes)), Root, n.h, l, ll)
      ensures Clean && ll != null ==>
        SplitRecord(n, n.Items, SettingOf(n))
        == Overflow(old(Snapshot(Nodes)), n, l, old(JoinItems(l.Items)), ll, old(JoinItems(ll.Items)), Bounds())
    {
      hide Shaped, Tidy, JoinItems, NoDup, Proper, Logged, Laid, Overflow, SettingOf;
      ghost var v := Snapshot(Nodes);
      if Clean { LaidOut(l, ll); }
      if ll != null { KidsLower(ll, ll); }
      n := RefreshBound(l, ll);
      if ll != null {
        assert Clean ==> JoinItems(ll.Items) == old(JoinItems(ll.Items));
        AttachPartner(n, ll);
        if Clean { OverflowHere(v, n, l, l.Bound, ll); }
      }
    }

    /** One round of adjustTree, from l up to its parent: the parent takes ll as a child, and is split
      * if it was full. */
    method LiftSplit(l: RtreeNode, ll: RtreeNode?) returns (n: RtreeNode, nn: RtreeNode?)
      requires Ok(l, ll, null) && l in Nodes && l != Root && l.Items != [] && l != ll
      requires ll != null ==> ll.Items != [] && ll.h == l.h
      modifies this`Nodes, this`Clean, this`Splits, Nodes
      ensures old(Nodes) <= Nodes && fresh(Nodes - old(Nodes)) && Data(Nodes) == old(Data(Nodes))
      ensures n == old(l.Parent) && n in old(Nodes) && Ok(n, nn, null) && n.Items != [] && n != nn && l.h < n.h <= Root.h
      ensures nn != null ==> nn.Items != [] && nn.h == n.h
      ensures n != Root || nn == null ==> |Root.Items| >= old(|Root.Items|)
      ensures nn == null <==> ll == null || |old(n.Items)| < MaxChildItems
      ensures ll == null ==> forall x :: x in old(Nodes) ==> x.Items == old(x.Items)
      ensures Skew <= l.h ==> forall x :: x in old(Nodes) && x.h < l.h ==> x.Parent == old(x.Parent)
      ensures forall x :: x in Nodes - old(Nodes) ==> x.h >= l.h
      ensures if nn == null then Splits == old(Splits) else old(Splits) <= Splits && |Splits| == |old(Splits)| + 1
      ensures nn != null && old(Clean) ==>
        var v, r := old(Snapshot(Nodes)), Splits[|old(Splits)|];
        && r == Overflow(v, n, l, old(JoinItems(l.Items)), ll, old(JoinItems(ll.Items)), Bounds())
        && Agree(v, Snapshot(Nodes), Root, n.h)
        && (Clean <==> Partitions(r)) && (Clean ==> HalfBoxes(r) == (JoinItems(n.Items), JoinItems(nn.Items)))
    {
      hide Shaped, Tidy, JoinItems, NoDup, Proper, Logged, Splat, Partitions, Agree, Laid, Overflow, SettingOf;
      ghost var v := Snapshot(Nodes);
      n := JoinParent(l, ll);
      nn := null;
      if ll != null {
        if |n.Items| > MaxChildItems {
          n, nn := SplitFull(n);
          if old(Clean) { LaidAgrees(v, Nodes, Root, n.h, l, ll); }
        }
      }
    }

    lemma KidsLower(n: RtreeNode, nn: RtreeNode?)
      requires Sound(Nodes, Root, Skew, Dimensions, nn) && n in Nodes
      ensures forall c :: c in Kids(n) ==> c.h < n.h
      ensures forall c :: c in n.Items ==> c.h < n.h
    {
      assert Shaped(n, Nodes, Root, Skew, Dimensions, nn);
    }

    /** The nodes from height h up are laid out as a tree from which l and ll hang lower down. */
    static ghost predicate Laid(v: map<RtreeNode, NodeView>, R: RtreeNode, h: nat, l: RtreeNode?, ll: RtreeNode?) {
      && (forall x :: x in v && x.h >= h && x != R ==> v[x].parent != null && v[x].parent in v && x.h < v[x].parent.h)
      && (forall p, c :: p in v && p.h > h && c in v[p].items ==> c in v && c != l && c != ll)
    }

    lemma LaidOut(l: RtreeNode, ll: RtreeNode?)
      requires Ok(l, ll, null) && Clean && l in Nodes && l != Root && l != ll && (ll != null ==> ll.h == l.h)
      ensures l.Parent != null && Laid(Snapshot(Nodes), Root, l.Parent.h, l, ll) && forall c :: c in l.Parent.Items ==> c in Nodes && c != ll
    {
      hide JoinItems, NoDup, Proper;
      assert Tidy(l, Root, MinChildItems, MaxChildItems, l, ll, null);
      assert Tidy(l.Parent, Root, MinChildItems, MaxChildItems, l, ll, null);
      forall x | x in Nodes && x.h >= l.Parent.h && x != Root ensures x.Parent != null && x.Parent in Nodes && x.h < x.Parent.h {
        assert Tidy(x, Root, MinChildItems, MaxChildItems, l, ll, null);
      }
      forall p, c | p in Nodes && p.h > l.Parent.h && c in p.Items ensures c in Nodes && c != l && c != ll {
        assert Tidy(p, Root, MinChildItems, MaxChildItems, l, ll, null);
      }
    }

    static lemma LaidAgrees(v: map<RtreeNode, NodeView>, S: set<RtreeNode>, R: RtreeNode, h: nat, l: RtreeNode?, ll: RtreeNode?)
      requires Laid(v, R, h, l, ll) && (l != null ==> l.h < h) && (ll != null ==> ll.h < h) && v.Keys <= S
      requires forall x :: x in v && x.h > h ==> x.Items == v[x].items
      requires forall x :: x in v && x.h >= h ==> x.Parent == v[x].parent
      requires forall x :: x in v && x != l && x != ll ==> x.Bound == v[x].bound
      ensures Agree(v, Snapshot(S), R, h)
    {
      var v1 := Snapshot(S);
      forall p | p in v && p.h > h ensures p in v1 && v1[p].items == v[p].items && v1[p].bound == v[p].bound {}
      forall p, c | p in v && p.h > h && c in v[p].items ensures c in v && c in v1 && v1[c].bound == v[c].bound {}
    }

    /** The split that is due at n, once ll has joined its entries. */
    lemma OverflowHere(v: map<RtreeNode, NodeView>, n: RtreeNode, l: RtreeNode?, one: Box, ll: RtreeNode)
      requires n in v && n.Items == v[n].items + [ll] && n.Bound == v[n].bound && l != ll && (l != null ==> l.Bound == one)
      requires forall c :: c in v[n].items ==> c in v && (c != l && c != ll ==> c.Bound == v[c].bound)
      ensures SplitRecord(n, n.Items, SettingOf(n)) == Overflow(v, n, l, one, ll, ll.Bound, Bounds())
    {
      assert SettingOf(n).box == Overflow(v, n, l, one, ll, ll.Bound, Bounds()).setting.box;
    }

    /** adjustTree: bounds and splits are carried from l up to the root. A second result means that
      * the root itself was split. */
    method AdjustTree(l: RtreeNode, ll: RtreeNode?) returns (p: RtreeNode, pp: RtreeNode?)
      requires Ok(l, ll, null) && l in Nodes && l.Items != [] && l != ll
      requires ll != null ==> ll.Items != [] && ll.h == l.h
      requires l.h <= Root.h
      modifies this`Nodes, this`Clean, this`Splits, Nodes
      ensures p == Root && old(Nodes) <= Nodes && fresh(Nodes - old(Nodes)) && Data(Nodes) == old(Data(Nodes))
      ensures Ok(null, pp, null) && Fits(Root.Bound, Dimensions) && Root.Items != []
      ensures pp != null ==> pp != p && pp.Items != [] && pp.h == Root.h
      ensures l == Root ==> pp == ll
      ensures pp == null ==> |Root.Items| >= old(|Root.Items|)
      ensures old(Splits) <= Splits && (ll == null ==> Splits == old(Splits) && pp == null)
      ensures ll == null ==> forall x :: x in old(Nodes) ==> x.Items == old(x.Items)
      ensures Skew <= l.h ==> forall x :: x in old(Nodes) && x.h < l.h ==> x.Parent == old(x.Parent)
      ensures forall x :: x in Nodes - old(Nodes) ==> x.h >= l.h
      ensures old(Clean) && ll != null ==>
        Climbs(old(Snapshot(Nodes)), Root, Bounds(), Splits[|old(Splits)|..], l, old(JoinItems(l.Items)), old(JoinItems(ll.Items)))
      decreases Root.h - l.h
    {
      hide Shaped, Tidy, JoinItems, NoDup, Proper, Logged, Overflow, Agree, HalfBoxes, Partitions;
      if l == Root {
        RefreshRoot(ll);
        return l, ll;
      }
      ghost var v, h := Snapshot(Nodes), |Splits|;
      var n, nn := LiftSplit(l, ll);
      ghost var v1, tall := Snapshot(Nodes), Clean;
      p, pp := AdjustTree(n, nn);
      if old(Clean) && ll != null {
        ClimbOn(v, v1, l, old(JoinItems(l.Items)), ll, old(JoinItems(ll.Items)), n, nn != null, Splits[h..]);
      }
    }

    /** The splits from n up, after the one of n if there is one, are the splits from its child l up. */
    lemma ClimbOn(v: map<RtreeNode, NodeView>, v1: map<RtreeNode, NodeView>, l: RtreeNode, one: Box, ll: RtreeNode, two: Box,
                  n: RtreeNode, full: bool, splits: seq<SplitRecord>)
      requires l != Root && l in v && n in v && v[l].parent == n && (full <==> |v[n].items| >= MaxChildItems)
      requires !full ==> splits == []
      requires full ==> splits != [] && splits[0] == Overflow(v, n, l, one, ll, two, Bounds()) && Agree(v, v1, Root, n.h)
      requires full && Partitions(splits[0]) ==>
        Climbs(v1, Root, Bounds(), splits[1..], n, HalfBoxes(splits[0]).0, HalfBoxes(splits[0]).1)
      ensures Climbs(v, Root, Bounds(), splits, l, one, two)
    {
      hide Agree, HalfBoxes, Partitions;
      if full && Partitions(splits[0]) {
        ClimbsAgree(v, v1, Root, n.h, Bounds(), splits[1..], n, HalfBoxes(splits[0]).0, HalfBoxes(splits[0]).1);
      }
    }

    // ---- a new root, and the shared tail of InsertLeaf and insertLevel

    /** A new node takes both halves of the root as its children. */
    method LinkRoot(p: RtreeNode, pp: RtreeNode) returns (root: RtreeNode)
      requires Ok(null, pp, null) && p == Root && Fits(p.Bound, Dimensions) && p.Items != []
      requires pp != p && pp.Items != [] && pp.h == p.h
      modifies p`Parent, pp`Parent, pp`Bound
      ensures fresh(root) && root.h == p.h + 1 && root.Items == [p, pp] && GrownIn(Nodes, p, pp, root, Dimensions)
      ensures pp.Bound == JoinItems(pp.Items)
    {
      hide Shaped, Tidy, JoinItems, NoDup, Proper, Logged;
      ItemsFit(pp, pp);
      PartnerNotChild(pp);
      RootLevel(pp);
      var bb := pp.ComputeBB(Dimensions);
      pp.Bound := bb;
      root := new RtreeNode(false, NO_OBJECT, ZeroBox, null, [p, pp], p.h + 1);
      p.Parent := root;
      pp.Parent := root;
      bb := root.ComputeBB(Dimensions);
      root.Bound := bb;
    }

    /** The root was split into p and pp: a new root takes both. */
    method GrowTaller(p: RtreeNode, pp: RtreeNode)
      requires Ok(null, pp, null) && p == Root && Fits(p.Bound, Dimensions) && p.Items != []
      requires pp != p && pp.Items != [] && pp.h == p.h
      modifies this`Root, this`Nodes, this`Height, p`Parent, pp`Parent, pp`Bound
      ensures Ok(null, null, null) && Root.h == p.h + 1 && Height == old(Height) + 1 && |Root.Items| == 2 && fresh(Root)
      ensures Nodes == old(Nodes) + {Root}
      ensures old(Nodes) <= Nodes && fresh(Nodes - old(Nodes)) && Data(Nodes) == old(Data(Nodes))
    {
      hide Shaped, Tidy, JoinItems, NoDup, Proper, Logged, GrownIn;
      ghost var S := Nodes;
      var root := LinkRoot(p, pp);
      Root := root;
      Nodes := Nodes + {root};
      Height := Height + 1;
      GrownSound(S, Skew, Dimensions, p, pp, root);
      if Clean {
        GrownAllTidy(S, Skew, Dimensions, MinChildItems, MaxChildItems, p, pp, root);
      }
    }

    twostate predicate GrownIn(S: set<RtreeNode>, p: RtreeNode, pp: RtreeNode, new root: RtreeNode, d: nat)
      reads S, p, pp, root
    {
      && p in S && pp in S && p != pp && root !in S && p.h == pp.h >= 1 && root.h == p.h + 1 && !root.IsLeaf && root.Leaf == NO_OBJECT
      && root.Items == [p, pp] && p.Parent == root && pp.Parent == root
      && Fits(root.Bound, d) && root.Bound == JoinItems(root.Items)
      && Fits(p.Bound, d) && Fits(pp.Bound, d) && p.Items != []
      && (forall x :: x in S ==> x.Items == old(x.Items))
      && (forall x :: x in S && x != pp ==> x.Bound == old(x.Bound))
      && (forall x :: x in S && x != p && x != pp ==> x.Parent == old(x.Parent))
      && (forall x :: x in S ==> p !in x.Items && pp !in x.Items)
    }

    twostate lemma GrownSound(S: set<RtreeNode>, new skew: nat, new d: nat, new p: RtreeNode, new pp: RtreeNode,
                              new root: RtreeNode)
      requires old(allocated(p)) && old(allocated(pp))
      requires old(Sound(S, p, skew, d, pp)) && GrownIn(S, p, pp, root, d)
      ensures Sound(S + {root}, root, skew, d, null)
    {
      forall x | x in S + {root} ensures Shaped(x, S + {root}, root, skew, d, null) {
        if x != root {
          assert old(Shaped(x, S, p, skew, d, pp));
          assert x.h <= p.h;
        }
      }
    }

    twostate lemma GrownTidy(new x: RtreeNode, S: set<RtreeNode>, new skew: nat, new d: nat, new m: int, new M: int,
                             new p: RtreeNode, new pp: RtreeNode, new root: RtreeNode)
      requires old(allocated(x)) && old(allocated(p)) && old(allocated(pp))
      requires x in S && GrownIn(S, p, pp, root, d) && old(Shaped(x, S, p, skew, d, pp)) && old(Tidy(x, p, m, M, null, pp, null))
      requires pp.Bound == JoinItems(pp.Items)
      ensures Tidy(x, root, m, M, null, null, null)
    {
      hide JoinItems;
      assert forall c :: c in x.Items ==> c != p && c != pp;
      if x != pp {
        assert JoinItems(x.Items) == old(JoinItems(x.Items));
      }
    }

    twostate lemma GrownAllTidy(S: set<RtreeNode>, new skew: nat, new d: nat, new m: int, new M: int,
                                new p: RtreeNode, new pp: RtreeNode, new root: RtreeNode)
      requires old(allocated(p)) && old(allocated(pp))
      requires old(Sound(S, p, skew, d, pp)) && old(AllTidy(S, p, skew, d, m, M, null, pp, null)) && GrownIn(S, p, pp, root, d)
      requires pp.Bound == JoinItems(pp.Items)
      requires Sound(S + {root}, root, skew, d, null) && M >= 2
      ensures AllTidy(S + {root}, root, skew, d, m, M, null, null, null)
    {
      hide JoinItems;
      forall x | x in S + {root} ensures Shaped(x, S + {root}, root, skew, d, null) && Tidy(x, root, m, M, null, null, null) {
        if x != root {
          assert old(Tidy(x, p, m, M, null, pp, null));
          GrownTidy(x, S, skew, d, m, M, p, pp, root);
        }
      }
    }

    /** A subtree of its own, with root c, fit to become a child of p. */
    ghost predicate Graftable(Sub: set<RtreeNode>, c: RtreeNode, p: RtreeNode)
      reads this, Sub
    {
      && Sub !! Nodes && Sound(Sub, c, Skew, Dimensions, null) && Fits(c.Bound, Dimensions)
      && c.h < p.h && (p.h >= 2 ==> c.h >= 1) && (p.h > Skew ==> c.h + 1 == p.h) && (c.h >= 1 ==> c.Items != [])
      && (Clean ==> AllTidy(Sub, c, Skew, Dimensions, MinChildItems, MaxChildItems, null, null, null)
                    && (2 * MinChildItems <= MaxChildItems + 1 && c.h >= 1 ==> MinChildItems <= |c.Items|))
    }

    method AppendChild(p: RtreeNode, c: RtreeNode, ghost Sub: set<RtreeNode>)
      requires Ok(null, null, null) && p in Nodes && p.h >= 1 && Graftable(Sub, c, p)
      modifies this`Nodes, p`Items, c`Parent
      ensures Nodes == old(Nodes) + Sub && p.Items == old(p.Items) + [c] && c.Parent == p
      ensures Ok(p, null, p) && (|p.Items| <= MaxChildItems ==> Ok(p, null, null))
      ensures Clean ==> |p.Items| <= MaxChildItems + 1
    {
      hide Shaped, Tidy, JoinItems, NoDup, Proper, Logged;
      ghost var S := Nodes;
      ForeignChild(Sub, c);
      GraftRoots(p);
      p.Items := p.Items + [c];
      c.Parent := p;
      Nodes := Nodes + Sub;
      GraftedSound(S, Sub, Root, Skew, Dimensions, p, c);
      if Clean {
        GraftedAllTidy(S, Sub, Root, Skew, Dimensions, MinChildItems, MaxChildItems, p, c);
      }
    }

    lemma ForeignChild(Sub: set<RtreeNode>, c: RtreeNode)
      requires Sound(Nodes, Root, Skew, Dimensions, null) && Sound(Sub, c, Skew, Dimensions, null) && Sub !! Nodes
      ensures forall x :: x in Nodes ==> c !in x.Items
      ensures forall x :: x in Sub ==> c !in x.Items
    {
      forall x | x in Nodes ensures c !in x.Items {
        assert Shaped(x, Nodes, Root, Skew, Dimensions, null);
      }
      forall x | x in Sub ensures c !in x.Items {
        assert Shaped(x, Sub, c, Skew, Dimensions, null);
      }
    }

    lemma GraftRoots(p: RtreeNode)
      requires Sound(Nodes, Root, Skew, Dimensions, null) && p in Nodes
      ensures p.h <= Root.h
    {
      assert Shaped(p, Nodes, Root, Skew, Dimensions, null);
    }

    /** What AppendChild changes. */
    twostate predicate GraftedIn(S: set<RtreeNode>, Sub: set<RtreeNode>, p: RtreeNode, c: RtreeNode)
      reads S, Sub, p, c
    {
      && p in S && c in Sub && S !! Sub && c.h < p.h && (p.h >= 2 ==> c.h >= 1) && (c.h >= 1 ==> c.Items != [])
      && p.Items == old(p.Items) + [c] && c.Parent == p
      && (forall x :: x in S ==> x.Bound == old(x.Bound) && x.Parent == old(x.Parent) && (x != p ==> x.Items == old(x.Items)))
      && (forall x :: x in Sub ==> x.Bound == old(x.Bound) && x.Items == old(x.Items) && (x != c ==> x.Parent == old(x.Parent)))
      && (forall x :: x in S ==> c !in old(x.Items))
      && (forall x :: x in Sub ==> c !in x.Items)
    }

    twostate lemma GraftedSound(S: set<RtreeNode>, new Sub: set<RtreeNode>, new R: RtreeNode, new skew: nat,
                                new d: nat, new p: RtreeNode, new c: RtreeNode)
      requires old(allocated(Sub)) && old(allocated(R)) && old(allocated(p)) && old(allocated(c))
      requires old(Sound(S, R, skew, d, null)) && old(Sound(Sub, c, skew, d, null)) && GraftedIn(S, Sub, p, c)
      requires Fits(c.Bound, d) && (p.h > skew ==> c.h + 1 == p.h) && p.h <= R.h
      ensures Sound(S + Sub, R, skew, d, null)
    {
      forall x | x in S + Sub ensures Shaped(x, S + Sub, R, skew, d, null) {
        if x in S {
          assert old(Shaped(x, S, R, skew, d, null));
        } else {
          assert old(Shaped(x, Sub, c, skew, d, null));
        }
      }
    }

    twostate lemma GraftedTidy(new x: RtreeNode, S: set<RtreeNode>, new Sub: set<RtreeNode>, new R: RtreeNode,
                               new skew: nat, new d: nat,
                               new m: int, new M: int, new p: RtreeNode, new c: RtreeNode)
      requires old(allocated(x)) && old(allocated(Sub)) && old(allocated(R)) && old(allocated(p)) && old(allocated(c))
      requires GraftedIn(S, Sub, p, c) && R in S && p.h <= R.h
      requires x in S ==> old(Shaped(x, S, R, skew, d, null)) && old(Tidy(x, R, m, M, null, null, null))
      requires x in Sub ==> old(Shaped(x, Sub, c, skew, d, null)) && old(Tidy(x, c, m, M, null, null, null))
      requires x in S || x in Sub
      requires 2 * m <= M + 1 && c.h >= 1 ==> m <= |c.Items|
      ensures Tidy(x, R, m, M, p, null, p)
      ensures x == p ==> |x.Items| <= M + 1 && (2 * m <= M + 1 && Bounded(x, R, null) ==> m <= |x.Items|)
      ensures x != p || |x.Items| <= M ==> Tidy(x, R, m, M, p, null, null)
    {
      hide JoinItems;
      if x != p {
        assert JoinItems(x.Items) == old(JoinItems(x.Items));
      }
    }

    twostate lemma GraftedAllTidy(S: set<RtreeNode>, new Sub: set<RtreeNode>, new R: RtreeNode, new skew: nat,
                                  new d: nat,
                                  new m: int, new M: int, new p: RtreeNode, new c: RtreeNode)
      requires old(allocated(Sub)) && old(allocated(R)) && old(allocated(p)) && old(allocated(c))
      requires old(Sound(S, R, skew, d, null)) && old(Sound(Sub, c, skew, d, null)) && GraftedIn(S, Sub, p, c)
      requires old(AllTidy(S, R, skew, d, m, M, null, null, null)) && old(AllTidy(Sub, c, skew, d, m, M, null, null, null))
      requires Sound(S + Sub, R, skew, d, null) && p.h <= R.h
      requires 2 * m <= M + 1 && c.h >= 1 ==> m <= |c.Items|
      ensures |p.Items| <= M + 1
      ensures AllTidy(S + Sub, R, skew, d, m, M, p, null, p)
      ensures |p.Items| <= M ==> AllTidy(S + Sub, R, skew, d, m, M, p, null, null)
    {
      hide GraftedIn;
      assert p in S && p !in Sub by { GraftMember(S, Sub, p, c); }
      assert old(Tidy(p, R, m, M, null, null, null));
      GraftedTidy(p, S, Sub, R, skew, d, m, M, p, c);
      forall x | x in S + Sub ensures Shaped(x, S + Sub, R, skew, d, null) && Tidy(x, R, m, M, p, null, p)
                                      && (|p.Items| <= M ==> Tidy(x, R, m, M, p, null, null)) {
        assert x in S ==> old(Tidy(x, R, m, M, null, null, null));
        assert x in Sub ==> old(Tidy(x, c, m, M, null, null, null));
        GraftedTidy(x, S, Sub, R, skew, d, m, M, p, c);
      }
    }

    twostate lemma GraftMember(S: set<RtreeNode>, new Sub: set<RtreeNode>, new p: RtreeNode, new c: RtreeNode)
      requires old(allocated(Sub)) && old(allocated(p)) && old(allocated(c))
      requires GraftedIn(S, Sub, p, c)
      ensures p in S && p !in Sub
    {}

    /** After a change below, bounds and splits move up; a split root gets a new one above it. */
    method Propagate(l: RtreeNode, ll: RtreeNode?)
      requires Ok(l, ll, null) && l in Nodes && l.Items != [] && l != ll && l.h <= Root.h
      requires ll != null ==> ll.Items != [] && ll.h == l.h
      modifies this, Nodes
      ensures Ok(null, null, null) && Size == old(Size) && Skew == old(Skew)
      ensures old(Nodes) <= Nodes && fresh(Nodes - old(Nodes)) && Data(Nodes) == old(Data(Nodes))
      ensures Height - old(Height) == Root.h - old(Root.h) && Root.h >= old(Root.h)
      ensures |Root.Items| >= if Root == old(Root) then old(|Root.Items|) else 2
      ensures l == old(Root) && ll != null ==> Root != old(Root)
      ensures old(Splits) <= Splits && (ll == null ==> Splits == old(Splits) && Root == old(Root))
      ensures ll == null ==> forall x :: x in old(Nodes) ==> x.Items == old(x.Items)
      ensures Skew <= l.h ==> forall x :: x in old(Nodes) && x.h < l.h ==> x.Parent == old(x.Parent)
      ensures forall x :: x in Nodes - old(Nodes) ==> x.h >= l.h
      ensures Root == old(Root) || (fresh(Root) && Root.h == old(Root.h) + 1)
      ensures old(Clean) && ll != null ==> Climbs(old(Snapshot(Nodes)), old(Root), Bounds(), Splits[|old(Splits)|..], l,
                                                  old(JoinItems(l.Items)), old(JoinItems(ll.Items)))
    {
      hide Shaped, Tidy, JoinItems, NoDup, Proper, Logged, Climbs;
      var p, pp := AdjustTree(l, ll);
      if pp != null {
        GrowTaller(p, pp);
      }
    }

    /** The common tail of InsertLeaf and insertLevel: append, split if overfull, adjust, and grow the
      * tree taller if the root was split. The splits are those that Grafts tells from the state before. */
    method Graft(target: RtreeNode, c: RtreeNode, ghost Sub: set<RtreeNode>)
      requires Ok(null, null, null) && target in Nodes && target.h >= 1 && Graftable(Sub, c, target)
      modifies this, Nodes, Sub
      ensures Ok(null, null, null) && Size == old(Size) && Skew == old(Skew)
      ensures old(Nodes) + Sub <= Nodes && fresh(Nodes - old(Nodes) - Sub) && Data(Nodes) == old(Data(Nodes)) + Data(Sub)
      ensures Height - old(Height) == Root.h - old(Root.h) && Root.h >= old(Root.h)
      ensures |Root.Items| >= if Root == old(Root) then old(|Root.Items|) else 2
      ensures Root == old(Root) || (fresh(Root) && Root.h == old(Root.h) + 1)
      ensures old(Splits) <= Splits && (Root != old(Root) ==> Splits != old(Splits))
      ensures if old(|target.Items|) < MaxChildItems then Splits == old(Splits) && target.Items == old(target.Items) + [c]
              else target == old(Root) ==> Root != old(Root)
      ensures old(|target.Items|) < MaxChildItems ==> forall x :: x in old(Nodes) && x != target ==> x.Items == old(x.Items)
      ensures forall x :: x in Nodes - old(Nodes) - Sub ==> x.h >= target.h
      ensures old(Clean) && Skew <= target.h ==> c.Parent != null && c.Parent.h == target.h
      ensures old(Clean) && Skew <= target.h ==> forall x :: x in old(Nodes) + Sub && x != c && x.h < target.h ==>
        x.Parent == old(x.Parent) || (x.Parent != null && old(x.Parent) != null && x.Parent.h == old(x.Parent).h)
      ensures old(Clean) ==>
        Grafts(old(Snapshot(Nodes)), old(Root), Bounds(), Splits[|old(Splits)|..], target, c, old(c.Bound))
    {
      hide Shaped, Tidy, JoinItems, NoDup, Proper, Logged, Climbs, Agree, Overflow, HalfBoxes, Partitions;
      ghost var v, v1, h := Snapshot(Nodes), Snapshot(Nodes), |Splits|;
      var l, ll := AppendAndSplit(target, c, Sub);
      v1 := Snapshot(Nodes);
      Propagate(l, ll);
      if old(Clean) && ll != null && Partitions(Splits[h]) {
        ClimbsAgree(v, v1, old(Root), target.h, Bounds(), Splits[h + 1..], target, HalfBoxes(Splits[h]).0, HalfBoxes(Splits[h]).1);
      }
    }

    method AppendAndSplit(target: RtreeNode, c: RtreeNode, ghost Sub: set<RtreeNode>) returns (l: RtreeNode, ll: RtreeNode?)
      requires Ok(null, null, null) && target in Nodes && target.h >= 1 && Graftable(Sub, c, target)
      modifies this`Nodes, this`Clean, this`Splits, Nodes, Sub
      ensures l == target && l in Nodes && Ok(l, ll, null) && l.Items != [] && l != ll && l.h <= Root.h
      ensures ll != null ==> ll.Items != [] && ll.h == l.h
      ensures old(Nodes) + Sub <= Nodes && fresh(Nodes - old(Nodes) - Sub) && Data(Nodes) == old(Data(Nodes)) + Data(Sub)
      ensures l != Root || ll == null ==> |Root.Items| >= old(|Root.Items|)
      ensures ll == null <==> old(|target.Items|) < MaxChildItems
      ensures ll == null ==> target.Items == old(target.Items) + [c]
      ensures ll == null ==> forall x :: x in old(Nodes) && x != target ==> x.Items == old(x.Items)
      ensures forall x :: x in Nodes - old(Nodes) - Sub ==> x.h >= target.h
      ensures c.Parent == l || (ll != null && c.Parent == ll)
      ensures old(Clean) ==> forall x :: x in old(Nodes) + Sub && x != c ==>
        x.Parent == old(x.Parent) || (old(x.Parent) == target && ll != null && (x.Parent == l || x.Parent == ll))
      ensures if ll == null then Splits == old(Splits) else old(Splits) <= Splits && |Splits| == |old(Splits)| + 1
      ensures ll != null && old(Clean) ==>
        && Splits[|old(Splits)|] == Overflow(old(Snapshot(Nodes)), l, null, ZeroBox, c, old(c.Bound), Bounds())
        && Agree(old(Snapshot(Nodes)), Snapshot(Nodes), Root, l.h)
        && (Clean <==> Partitions(Splits[|old(Splits)|]))
        && (Clean ==> HalfBoxes(Splits[|old(Splits)|]) == (JoinItems(l.Items), JoinItems(ll.Items)))
    {
      hide Shaped, Tidy, JoinItems, NoDup, Proper, Logged, Climbs, Agree, Overflow, HalfBoxes, Partitions, Laid, SettingOf, Splat;
      ghost var v := Snapshot(Nodes);
      TakeIn(target, c, Sub);
      l, ll := target, null;
      if |target.Items| > MaxChildItems {
        l, ll := SplitFull(target);
        if old(Clean) { LaidAgrees(v, Nodes, Root, target.h, null, null); }
      }
    }

    /** The child is appended; if the node is over-full now, its split is the one told from the state before. */
    method TakeIn(p: RtreeNode, c: RtreeNode, ghost Sub: set<RtreeNode>)
      requires Ok(null, null, null) && p in Nodes && p.h >= 1 && Graftable(Sub, c, p)
      modifies this`Nodes, p`Items, c`Parent
      ensures Nodes == old(Nodes) + Sub && p.Items == old(p.Items) + [c] && c.Parent == p
      ensures Data(Nodes) == old(Data(Nodes)) + Data(Sub) && c !in old(Nodes) && c.h < p.h <= Root.h
      ensures Ok(p, null, p) && (|p.Items| <= MaxChildItems ==> Ok(p, null, null))
      ensures Clean ==> |p.Items| <= MaxChildItems + 1 && forall k :: k in old(p.Items) ==> k in old(Nodes) && old(k.Parent) == p
      ensures Clean ==> Laid(old(Snapshot(Nodes)), Root, p.h, null, null)
      ensures Clean ==>
        SplitRecord(p, p.Items, SettingOf(p)) == Overflow(old(Snapshot(Nodes)), p, null, ZeroBox, c, old(c.Bound), Bounds())
    {
      hide Shaped, Tidy, JoinItems, NoDup, Proper, Logged, Overflow, Laid, SettingOf;
      ghost var v := Snapshot(Nodes);
      GraftRoots(p);
      if Clean { LaidAbove(p); }
      AppendChild(p, c, Sub);
      if Clean { OverflowHere(v, p, null, ZeroBox, c); }
    }

    lemma LaidAbove(n: RtreeNode)
      requires Ok(null, null, null) && Clean && n in Nodes
      ensures Laid(Snapshot(Nodes), Root, n.h, null, null) && forall c :: c in n.Items ==> c in Nodes && c.Parent == n
    {
      hide JoinItems, NoDup, Proper;
      assert Tidy(n, Root, MinChildItems, MaxChildItems, null, null, null);
      forall x | x in Nodes && x.h >= n.h && x != Root ensures x.Parent != null && x.Parent in Nodes && x.h < x.Parent.h {
        assert Tidy(x, Root, MinChildItems, MaxChildItems, null, null, null);
      }
      forall p, c | p in Nodes && p.h > n.h && c in p.Items ensures c in Nodes {
        assert Tidy(p, Root, MinChildItems, MaxChildItems, null, null, null);
      }
    }

    // ---- chooseLeaf and InsertLeaf, lines 168-205 and 471-497

    /** chooseLeaf: down by least enlargement to a leaf node. */
    method ChooseLeaf(node: RtreeNode, bound: Box) returns (leaf: RtreeNode)
      requires Ok(null, null, null) && node in Nodes && node.h >= 1 && Fits(bound, Dimensions)
      ensures leaf in Nodes && leaf.IsLeaf && leaf.h == 1 && LeadsTo(node, leaf, bound, Nodes)
      decreases node.h
    {
      hide Tidy, Proper, Join, LeastEnlarged;
      assert Shaped(node, Nodes, Root, Skew, Dimensions, null);
      if node.IsLeaf {
        return node;
      }
      ItemsFit(node, null);
      var idx := ChooseSubtree(node.Items, bound);
      assert node.Items[idx] in node.Items;
      leaf := ChooseLeaf(node.Items[idx], bound);
    }

    /** A leaf node's entries are among those of the tree; a leaf root holds them all. */
    lemma LeafHolds(leaf: RtreeNode)
      requires Ok(null, null, null) && Clean && leaf in Nodes && leaf.h == 1
      ensures |leaf.Items| <= |Data(Nodes)|
      ensures leaf == Root ==> |leaf.Items| == |Data(Nodes)|
    {
      hide JoinItems, Proper, Logged;
      var kids := Kids(leaf);
      assert Tidy(leaf, Root, MinChildItems, MaxChildItems, null, null, null);
      SetOfNoDup(leaf.Items);
      assert Data(Nodes) == kids + (Data(Nodes) - kids);
      if leaf == Root {
        forall n | n in Nodes ensures n.h <= 1 {
          RootHeight(n, null);
        }
        forall x | x in Data(Nodes) ensures x in kids {
          assert Tidy(x, Root, MinChildItems, MaxChildItems, null, null, null);
          assert Shaped(x.Parent, Nodes, Root, Skew, Dimensions, null);
        }
        assert kids == Data(Nodes);
      }
    }

    /** InsertLeaf: the object hangs below the root as one more entry, unless a split on the way was no
      * partition. Which splits are due is told from the state before; a leaf node with room needs none. */
    method InsertLeaf(bound: Box, leaf0: OSMObject, reinsert: bool) returns (ghost entry: RtreeNode, ghost target: RtreeNode)
      requires Valid() && Fits(bound, Dimensions)
      modifies this, Nodes
      ensures Valid() && Skew == old(Skew)
      ensures target in old(Nodes) && target.IsLeaf && old(Splits) <= Splits
      ensures old(LeadsTo(Root, target, bound, Nodes))
      ensures old(|target.Items|) < MaxChildItems || (old(Clean) && |old(Data(Nodes))| < MaxChildItems) ==> Splits == old(Splits)
      ensures old(|target.Items|) < MaxChildItems ==> target.Items == old(target.Items) + [entry]
      ensures old(|target.Items|) < MaxChildItems ==> forall x :: x in old(Nodes) && x != target ==> x.Items == old(x.Items)
      ensures old(Clean) ==>
        Grafts(old(Snapshot(Nodes)), old(Root), Bounds(), Splits[|old(Splits)|..], target, entry, bound)
      ensures Clean <==> old(Clean) && AllPartition(Splits[|old(Splits)|..])
      ensures Clean ==> Contents() == old(Contents()) + multiset{leaf0.(Bound := bound)}
      ensures Clean ==> Linked() == old(Linked()) + {entry}
      ensures Accounted() == old(Accounted()) + multiset{leaf0.(Bound := bound)}
      ensures old(Nodes) <= Nodes && fresh(Nodes - old(Nodes))
      ensures fresh(entry) && entry.Leaf == leaf0.(Bound := bound) && Data(Nodes) == old(Data(Nodes)) + {entry}
      ensures Size == old(Size) + (if reinsert then 0 else 1)
      ensures !reinsert ==> Size - |Data(Nodes)| == old(Size - |Data(Nodes)|)
      ensures Height - old(Height) == Root.h - old(Root.h) && Root.h >= old(Root.h)
      ensures |Root.Items| >= if Root == old(Root) then old(|Root.Items|) else 2
      ensures Root == old(Root) || (fresh(Root) && Root.h == old(Root.h) + 1 && Splits != old(Splits))
    {
      hide Shaped, Tidy, JoinItems, NoDup, Proper, ObjectsOf, Grafts, AllPartition, AllGenuine, Contents, Linked, Data, Snapshot, LeadsTo,
        Sound, Graftable, AllTidy;
      var leaf := leaf0.(Bound := bound);
      var newLeaf := new RtreeNode(false, leaf, bound, null, [], 0);
      entry := newLeaf;
      OkFacts();
      if Clean { ContentsAreAccounted(); }
      var leafNode := ChooseLeaf(Root, bound);
      target := leafNode;
      if Clean { LeafHolds(leafNode); }
      CountEntry(reinsert);
      assert Graftable({newLeaf}, newLeaf, leafNode) by { EntryGraftable(newLeaf, leafNode); }
      ghost var before := Data(Nodes);
      Graft(leafNode, newLeaf, {newLeaf});
      OneMoreEntry(before, newLeaf);
      OkFacts();
      MoreSplits(old(Splits), Splits);
      if Clean { ContentsAreAccounted(); }
    }

    /** Size counts entries that come in from outside. */
    method CountEntry(reinsert: bool)
      requires Ok(null, null, null)
      modifies this`Size
      ensures Ok(null, null, null) && Size == old(Size) + (if reinsert then 0 else 1)
    {
      hide Shaped, Tidy, Logged;
      if !reinsert {
        Size := Size + 1;
      }
    }

    lemma OkFacts()
      requires Ok(null, null, null)
      ensures Root in Nodes && Root.h >= 1 && MaxChildItems >= 2 && (Clean <==> AllPartition(Splits))
    {}

    static lemma OneMoreEntry(before: set<RtreeNode>, e: RtreeNode)
      requires e !in before && e.h == 0
      ensures Data({e}) == {e} && |before + {e}| == |before| + 1
      ensures ObjectsOf(before + {e}) == ObjectsOf(before) + multiset{e.Leaf}
    {
      ObjectsOfAny(before + {e}, e);
      assert before + {e} - {e} == before;
    }

    static lemma MoreSplits(before: seq<SplitRecord>, after: seq<SplitRecord>)
      requires before <= after
      ensures AllPartition(after) <==> AllPartition(before) && AllPartition(after[|before|..])
    {
      hide Partitions;
      var new_ := after[|before|..];
      forall i | 0 <= i < |after| ensures after[i] == if i < |before| then before[i] else new_[i - |before|] {}
    }

    static lemma ObjectsOfOne(n: RtreeNode)
      ensures ObjectsOf({n}) == multiset{n.Leaf}
    {
      ObjectsOfAny({n}, n);
      assert {n} - {n} == {};
    }

    lemma EntryGraftable(n: RtreeNode, p: RtreeNode)
      requires n !in Nodes && n.h == 0 && n.Items == [] && !n.IsLeaf && n.Bound == n.Leaf.Bound && Fits(n.Bound, Dimensions) && p.h == 1
      requires MaxChildItems >= 2
      ensures Graftable({n}, n, p)
    {
      assert Shaped(n, {n}, n, Skew, Dimensions, null);
      assert Tidy(n, n, MinChildItems, MaxChildItems, null, null, null);
    }
  }
}
