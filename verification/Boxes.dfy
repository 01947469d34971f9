/** Axis-parallel boxes of an R-tree: pkg/datastructure/rtree.go, lines 12-97. */
module Boxes {

  datatype Edge = Edge(lo: real, hi: real)

  /** One low/high pair per axis. The zero value of the source is ZeroBox. */
  datatype Box = Box(Dim: nat, Edges: seq<Edge>)

  const ZeroBox := Box(0, [])

  ghost predicate Proper(b: Box) {
    forall axis :: 0 <= axis < |b.Edges| ==> b.Edges[axis].lo <= b.Edges[axis].hi
  }

  /** A proper box of dimension d. */
  ghost predicate Fits(b: Box, d: nat) {
    b.Dim == d == |b.Edges| && Proper(b)
  }

  ghost predicate Contains(outer: Box, inner: Box) {
    && |outer.Edges| == outer.Dim == |inner.Edges| == inner.Dim
    && forall axis :: 0 <= axis < outer.Dim ==>
         outer.Edges[axis].lo <= inner.Edges[axis].lo && inner.Edges[axis].hi <= outer.Edges[axis].hi
  }

  /** The open interiors meet: the strict test of the source, so boxes that only touch do not overlap. */
  ghost predicate Overlaps(b: Box, bb: Box) {
    && |b.Edges| == b.Dim <= |bb.Edges|
    && forall axis :: 0 <= axis < b.Dim ==>
         b.Edges[axis].lo < bb.Edges[axis].hi && bb.Edges[axis].lo < b.Edges[axis].hi
  }

  function MinReal(x: real, y: real): real { if x <= y then x else y }

  function MaxReal(x: real, y: real): real { if x >= y then x else y }

  /** The smallest box around b and bb, on the axes of b. */
  ghost function Join(b: Box, bb: Box): (r: Box)
    requires |b.Edges| == b.Dim <= |bb.Edges|
    ensures r.Dim == b.Dim == |r.Edges|
    ensures forall axis {:trigger r.Edges[axis]} :: 0 <= axis < b.Dim ==>
      && r.Edges[axis].lo == MinReal(b.Edges[axis].lo, bb.Edges[axis].lo)
      && r.Edges[axis].hi == MaxReal(b.Edges[axis].hi, bb.Edges[axis].hi)
  {
    Box(b.Dim, seq(b.Dim, axis requires 0 <= axis < b.Dim =>
      Edge(MinReal(b.Edges[axis].lo, bb.Edges[axis].lo), MaxReal(b.Edges[axis].hi, bb.Edges[axis].hi))))
  }

  ghost function AreaUpTo(b: Box, axes: nat): real
    requires axes <= |b.Edges|
  {
    if axes == 0 then 1.0 else AreaUpTo(b, axes - 1) * (b.Edges[axes - 1].hi - b.Edges[axes - 1].lo)
  }

  ghost function Area(b: Box): real
    requires |b.Edges| == b.Dim
  {
    AreaUpTo(b, b.Dim)
  }

  method BoundingBox(b: Box, bb: Box) returns (newBound: Box)
    requires |b.Edges| == b.Dim <= |bb.Edges|
    ensures newBound == Join(b, bb)
  {
    var edges: seq<Edge> := [];
    for axis := 0 to b.Dim
      invariant |edges| == axis
      invariant edges == Join(b, bb).Edges[..axis]
    {
      var lo := if b.Edges[axis].lo <= bb.Edges[axis].lo then b.Edges[axis].lo else bb.Edges[axis].lo;
      var hi := if b.Edges[axis].hi >= bb.Edges[axis].hi then b.Edges[axis].hi else bb.Edges[axis].hi;
      edges := edges + [Edge(lo, hi)];
    }
    newBound := Box(b.Dim, edges);
  }

  method ComputeArea(b: Box) returns (area: real)
    requires |b.Edges| == b.Dim
    ensures area == Area(b)
  {
    area := 1.0;
    for axis := 0 to b.Dim
      invariant area == AreaUpTo(b, axis)
    {
      area := area * (b.Edges[axis].hi - b.Edges[axis].lo);
    }
  }

  method CheckOverlap(b: Box, bb: Box) returns (overlap: bool)
    requires |b.Edges| == b.Dim <= |bb.Edges|
    ensures overlap <==> Overlaps(b, bb)
  {
    for axis := 0 to b.Dim
      invariant forall a :: 0 <= a < axis ==> b.Edges[a].lo < bb.Edges[a].hi && bb.Edges[a].lo < b.Edges[a].hi
    {
      if !(b.Edges[axis].lo < bb.Edges[axis].hi) || !(bb.Edges[axis].lo < b.Edges[axis].hi) {
        return false;
      }
    }
    return true;
  }

  /** Join is the least upper bound of its arguments in the containment order. */
  lemma JoinIsLeast(b: Box, bb: Box, upper: Box, d: nat)
    requires Fits(b, d) && Fits(bb, d) && Fits(upper, d)
    ensures Fits(Join(b, bb), d)
    ensures Contains(Join(b, bb), b) && Contains(Join(b, bb), bb)
    ensures Contains(upper, Join(b, bb)) <==> Contains(upper, b) && Contains(upper, bb)
  {
    var j := Join(b, bb);
    if Contains(upper, j) {
      forall axis | 0 <= axis < d
        ensures upper.Edges[axis].lo <= b.Edges[axis].lo && upper.Edges[axis].lo <= bb.Edges[axis].lo
        ensures b.Edges[axis].hi <= upper.Edges[axis].hi && bb.Edges[axis].hi <= upper.Edges[axis].hi
      {
        assert upper.Edges[axis].lo <= j.Edges[axis].lo && j.Edges[axis].hi <= upper.Edges[axis].hi;
      }
    }
  }

  /** A box that a query does not overlap contains none that it does: what makes pruning safe. */
  lemma OverlapGrows(outer: Box, inner: Box, q: Box)
    requires Contains(outer, inner) && Overlaps(inner, q)
    ensures Overlaps(outer, q)
  {
    forall axis | 0 <= axis < outer.Dim
      ensures outer.Edges[axis].lo < q.Edges[axis].hi && q.Edges[axis].lo < outer.Edges[axis].hi
    {
      assert inner.Edges[axis].lo < q.Edges[axis].hi && q.Edges[axis].lo < inner.Edges[axis].hi;
    }
  }

  lemma ContainsTransitive(a: Box, b: Box, c: Box)
    requires Contains(a, b) && Contains(b, c)
    ensures Contains(a, c)
  {
    forall axis | 0 <= axis < a.Dim
      ensures a.Edges[axis].lo <= c.Edges[axis].lo && c.Edges[axis].hi <= a.Edges[axis].hi
    {
      assert b.Edges[axis].lo <= c.Edges[axis].lo;
    }
  }

  // ---- what an area is

  /** b with another edge on one axis. */
  ghost function WithEdge(b: Box, axis: nat, e: Edge): Box
    requires axis < |b.Edges|
  {
    b.(Edges := b.Edges[axis := e])
  }

  lemma {:induction false} AreaElsewhere(b: Box, axis: nat, e: Edge, axes: nat)
    requires axes <= axis < |b.Edges|
    ensures AreaUpTo(WithEdge(b, axis, e), axes) == AreaUpTo(b, axes)
  {
    if axes != 0 { AreaElsewhere(b, axis, e, axes - 1); }
  }

  lemma Distributes(p: real, x: real, y: real)
    ensures p * (x + y) == p * x + p * y
    ensures (x + y) * p == x * p + y * p
  {}

  lemma {:induction false} AreaCutUpTo(b: Box, axis: nat, at: real, axes: nat)
    requires axis < axes <= |b.Edges|
    ensures var e := b.Edges[axis];
      AreaUpTo(b, axes) == AreaUpTo(WithEdge(b, axis, Edge(e.lo, at)), axes) + AreaUpTo(WithEdge(b, axis, Edge(at, e.hi)), axes)
  {
    var e := b.Edges[axis];
    var low, high := WithEdge(b, axis, Edge(e.lo, at)), WithEdge(b, axis, Edge(at, e.hi));
    if axes == axis + 1 {
      AreaElsewhere(b, axis, Edge(e.lo, at), axis);
      AreaElsewhere(b, axis, Edge(at, e.hi), axis);
      Distributes(AreaUpTo(b, axis), at - e.lo, e.hi - at);
    } else {
      AreaCutUpTo(b, axis, at, axes - 1);
      var side := b.Edges[axes - 1].hi - b.Edges[axes - 1].lo;
      Distributes(side, AreaUpTo(low, axes - 1), AreaUpTo(high, axes - 1));
    }
  }

  /** Cut in two at a point of one axis, a box has the area of its parts. */
  lemma AreaCut(b: Box, axis: nat, at: real)
    requires axis < b.Dim == |b.Edges|
    ensures var e := b.Edges[axis];
      Area(b) == Area(WithEdge(b, axis, Edge(e.lo, at))) + Area(WithEdge(b, axis, Edge(at, e.hi)))
  {
    AreaCutUpTo(b, axis, at, b.Dim);
  }

  /** A box all of whose sides are 1 has area 1; so has the box without axes. */
  lemma {:induction false} AreaOfUnit(b: Box, axes: nat)
    requires axes <= |b.Edges| && forall axis :: 0 <= axis < axes ==> b.Edges[axis].hi - b.Edges[axis].lo == 1.0
    ensures AreaUpTo(b, axes) == 1.0
    ensures axes == b.Dim == |b.Edges| ==> Area(b) == 1.0
  {
    if axes != 0 { AreaOfUnit(b, axes - 1); }
  }

  /** On two axes the area is length times width. */
  lemma AreaOfRectangle(b: Box)
    requires b.Dim == 2 == |b.Edges|
    ensures Area(b) == (b.Edges[0].hi - b.Edges[0].lo) * (b.Edges[1].hi - b.Edges[1].lo)
  {
    var side := b.Edges[0].hi - b.Edges[0].lo;
    assert AreaUpTo(b, 1) == AreaUpTo(b, 0) * side == side;
  }

  lemma Products(p: real, q: real, x: real, y: real)
    requires 0.0 <= p <= q && 0.0 <= x <= y
    ensures 0.0 <= p * x <= q * y
  {
    assert 0.0 <= p * x <= p * y <= q * y;
  }

  lemma {:induction false} AreaGrowsUpTo(outer: Box, inner: Box, d: nat, axes: nat)
    requires Fits(outer, d) && Fits(inner, d) && Contains(outer, inner) && axes <= d
    ensures 0.0 <= AreaUpTo(inner, axes) <= AreaUpTo(outer, axes)
  {
    if axes != 0 {
      var k := axes - 1;
      AreaGrowsUpTo(outer, inner, d, k);
      assert outer.Edges[k].lo <= inner.Edges[k].lo <= inner.Edges[k].hi <= outer.Edges[k].hi;
      Products(AreaUpTo(inner, k), AreaUpTo(outer, k), inner.Edges[k].hi - inner.Edges[k].lo, outer.Edges[k].hi - outer.Edges[k].lo);
    }
  }

  /** A containing box has no smaller area, so no enlargement is negative. */
  lemma AreaGrows(outer: Box, inner: Box, d: nat)
    requires Fits(outer, d) && Fits(inner, d) && Contains(outer, inner)
    ensures 0.0 <= Area(inner) <= Area(outer)
  {
    AreaGrowsUpTo(outer, inner, d, d);
  }

  // ---- what overlap is

  /** A point lies strictly inside of a box. */
  ghost predicate Inside(point: seq<real>, b: Box) {
    |point| == |b.Edges| && forall axis :: 0 <= axis < |point| ==> b.Edges[axis].lo < point[axis] < b.Edges[axis].hi
  }

  /** Boxes with an extent on every axis overlap exactly when some point lies strictly inside of both. */
  lemma OverlapIsSharedPoint(b: Box, bb: Box, d: nat)
    requires Fits(b, d) && Fits(bb, d)
    requires forall axis :: 0 <= axis < d ==> b.Edges[axis].lo < b.Edges[axis].hi && bb.Edges[axis].lo < bb.Edges[axis].hi
    ensures Overlaps(b, bb) <==> exists point :: Inside(point, b) && Inside(point, bb)
  {
    if Overlaps(b, bb) {
      var point := seq(d, axis requires 0 <= axis < d =>
        (MaxReal(b.Edges[axis].lo, bb.Edges[axis].lo) + MinReal(b.Edges[axis].hi, bb.Edges[axis].hi)) / 2.0);
      assert Inside(point, b) && Inside(point, bb);
    }
    if point :| Inside(point, b) && Inside(point, bb) {
      forall axis | 0 <= axis < d ensures b.Edges[axis].lo < bb.Edges[axis].hi && bb.Edges[axis].lo < b.Edges[axis].hi {
        assert b.Edges[axis].lo < point[axis] < b.Edges[axis].hi && bb.Edges[axis].lo < point[axis] < bb.Edges[axis].hi;
      }
    }
  }
}
