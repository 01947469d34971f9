/** The value-level core of node splitting: pkg/datastructure/rtree.go, lines 265-457.
  *
  * Entries are opaque identities of type T; `box` gives the box of each. The heap code in module
  * Rtrees refines Distribute and SeedIndices, so what a split does to a node's entries is proved
  * here, without a heap.
  */
module Split {
  import opened Boxes
  import opened Collections

  ghost predicate Boxed<T>(items: seq<T>, box: map<T, Box>, d: nat) {
    forall x :: x in items ==> x in box && Fits(box[x], d)
  }

  /** The join of the boxes of items, folded in order as ComputeBB does. */
  ghost function JoinOver<T>(items: seq<T>, box: map<T, Box>, d: nat): (r: Box)
    requires items != [] && Boxed(items, box, d)
    ensures Fits(r, d)
  {
    var last := |items| - 1;
    if last == 0 then box[items[0]] else Join(JoinOver(items[..last], box, d), box[items[last]])
  }

  lemma RemoveAtMultiset<T>(s: seq<T>, i: nat)
    requires i < |s|
    ensures multiset(s) == multiset(s[..i] + s[i+1..]) + multiset{s[i]}
  {
    assert s == s[..i] + ([s[i]] + s[i+1..]);
  }

  lemma RemoveAtMembers<T>(s: seq<T>, i: nat)
    requires i < |s|
    ensures forall x :: x in s[..i] + s[i+1..] ==> x in s
    ensures NoDup(s) ==> NoDup(s[..i] + s[i+1..]) && forall x :: x in s[..i] + s[i+1..] <==> x in s && x != s[i]
  {
    var r := s[..i] + s[i+1..];
    forall x | x in r ensures x in s {
      var k :| 0 <= k < |r| && r[k] == x;
      assert x == s[if k < i then k else k + 1];
    }
    if NoDup(s) {
      forall x | x in s && x != s[i] ensures x in r {
        var k :| 0 <= k < |s| && s[k] == x;
        assert x == r[if k < i then k else k - 1];
      }
    }
  }

  // ---- seeds: linearPickSeeds, lines 405-457

  /** The first index below n with the largest value. */
  ghost function FirstMax(v: seq<real>, n: nat): (r: nat)
    requires 0 < n <= |v|
    ensures r < n
  {
    if n == 1 then 0 else
      var r := FirstMax(v, n - 1);
      if v[n - 1] > v[r] then n - 1 else r
  }

  lemma FirstMaxStep(v: seq<real>, i: nat)
    requires i < |v|
    ensures FirstMax(v, i + 1) == if i == 0 || v[i] > v[FirstMax(v, i)] then i else FirstMax(v, i)
  {}

  ghost function FirstMin(v: seq<real>, n: nat): (r: nat)
    requires 0 < n <= |v|
    ensures r < n
  {
    if n == 1 then 0 else
      var r := FirstMin(v, n - 1);
      if v[n - 1] < v[r] then n - 1 else r
  }

  lemma {:induction false} FirstMaxIs(v: seq<real>, n: nat)
    requires 0 < n <= |v|
    ensures forall k :: 0 <= k < n ==> v[k] <= v[FirstMax(v, n)]
    ensures forall k :: 0 <= k < FirstMax(v, n) ==> v[k] < v[FirstMax(v, n)]
  {
    if n > 1 {
      FirstMaxIs(v, n - 1);
    }
  }

  lemma {:induction false} FirstMinIs(v: seq<real>, n: nat)
    requires 0 < n <= |v|
    ensures forall k :: 0 <= k < n ==> v[FirstMin(v, n)] <= v[k]
    ensures forall k :: 0 <= k < FirstMin(v, n) ==> v[FirstMin(v, n)] < v[k]
  {
    if n > 1 {
      FirstMinIs(v, n - 1);
    }
  }

  ghost predicate AllFit(boxes: seq<Box>, d: nat) {
    forall i {:trigger boxes[i]} :: 0 <= i < |boxes| ==> Fits(boxes[i], d)
  }

  ghost function Lows(boxes: seq<Box>, d: nat, axis: nat): (v: seq<real>)
    requires AllFit(boxes, d) && axis < d
    ensures |v| == |boxes| && forall i :: 0 <= i < |v| ==> v[i] == boxes[i].Edges[axis].lo
  {
    seq(|boxes|, i requires 0 <= i < |boxes| => boxes[i].Edges[axis].lo)
  }

  ghost function Highs(boxes: seq<Box>, d: nat, axis: nat): (v: seq<real>)
    requires AllFit(boxes, d) && axis < d
    ensures |v| == |boxes| && forall i :: 0 <= i < |v| ==> v[i] == boxes[i].Edges[axis].hi
  {
    seq(|boxes|, i requires 0 <= i < |boxes| => boxes[i].Edges[axis].hi)
  }

  /** The outcome of the seed search over the axes looked at so far; `found` is false while the
    * greatest separation is still the source's minus infinity. */
  datatype Seeds = Seeds(found: bool, separation: real, one: nat, two: nat)

  ghost function Width(boxes: seq<Box>, d: nat, axis: nat): real
    requires boxes != [] && AllFit(boxes, d) && axis < d
  {
    var lows, highs := Lows(boxes, d, axis), Highs(boxes, d, axis);
    highs[FirstMax(highs, |highs|)] - lows[FirstMin(lows, |lows|)]
  }

  /** One axis: the entry with the highest low side, the one with the lowest high side, and their
    * normalised separation. A set of zero width divides zero by zero in the source; the NaN loses
    * the comparison, so the axis is passed over. */
  ghost function SeedAxis(boxes: seq<Box>, d: nat, axis: nat, best: Seeds): Seeds
    requires boxes != [] && AllFit(boxes, d) && axis < d
  {
    var lows, highs := Lows(boxes, d, axis), Highs(boxes, d, axis);
    var highLow, lowHigh := FirstMax(lows, |lows|), FirstMin(highs, |highs|);
    var width := Width(boxes, d, axis);
    if width == 0.0 then best else
      var separation := (lows[highLow] - highs[lowHigh]) / width;
      if !best.found || separation > best.separation then Seeds(true, separation, highLow, lowHigh) else best
  }

  /** The search over the first k axes: the pair with the greatest normalised separation, the first
    * two entries when no axis has any width. */
  ghost function SeedSearch(boxes: seq<Box>, d: nat, k: nat): (s: Seeds)
    requires |boxes| >= 2 && AllFit(boxes, d) && k <= d
    ensures s.one < |boxes| && s.two < |boxes|
  {
    if k == 0 then Seeds(false, 0.0, 0, 1) else SeedAxis(boxes, d, k - 1, SeedSearch(boxes, d, k - 1))
  }

  ghost predicate Congruent(boxes: seq<Box>, d: nat, w: seq<real>)
    requires AllFit(boxes, d) && |w| == d
  {
    forall i, axis {:trigger boxes[i].Edges[axis]} :: 0 <= i < |boxes| && 0 <= axis < d ==>
      boxes[i].Edges[axis].hi == boxes[i].Edges[axis].lo + w[axis]
  }

  /** Two boxes sit at different places along the axis. */
  ghost predicate Spread(boxes: seq<Box>, d: nat, axis: nat)
    requires AllFit(boxes, d) && axis < d
  {
    exists i, j :: 0 <= i < |boxes| && 0 <= j < |boxes| && boxes[i].Edges[axis].lo < boxes[j].Edges[axis].lo
  }

  lemma RatioBounds(gap: real, w: real)
    requires gap >= 0.0 && w >= 0.0 && gap + w > 0.0
    ensures gap > 0.0 ==> (gap - w) / (gap + w) > -1.0
    ensures gap == 0.0 ==> (gap - w) / (gap + w) == -1.0
  {
    var q := (gap - w) / (gap + w);
    assert q * (gap + w) == gap - w;
    assert (q + 1.0) * (gap + w) == 2.0 * gap;
  }

  /** The extremes of congruent boxes along one axis, in terms of the gap between the outermost two. */
  lemma CongruentExtremes(boxes: seq<Box>, d: nat, w: seq<real>, axis: nat) returns (gap: real)
    requires |boxes| >= 2 && AllFit(boxes, d) && axis < d == |w| && Congruent(boxes, d, w)
    ensures gap >= 0.0 && w[axis] >= 0.0 && (Spread(boxes, d, axis) <==> gap > 0.0)
    ensures Width(boxes, d, axis) == gap + w[axis]
    ensures var lows, highs := Lows(boxes, d, axis), Highs(boxes, d, axis);
      && lows[FirstMax(lows, |lows|)] - highs[FirstMin(highs, |highs|)] == gap - w[axis]
      && (gap > 0.0 ==> FirstMax(lows, |lows|) != FirstMin(highs, |highs|))
      && (gap == 0.0 ==> FirstMax(lows, |lows|) == FirstMin(highs, |highs|) == 0)
  {
    var lows, highs := Lows(boxes, d, axis), Highs(boxes, d, axis);
    forall i {:trigger highs[i]} | 0 <= i < |boxes| ensures highs[i] == lows[i] + w[axis] {
      assert boxes[i].Edges[axis].hi == boxes[i].Edges[axis].lo + w[axis];
    }
    assert boxes[0].Edges[axis].lo <= boxes[0].Edges[axis].hi;
    FirstMaxIs(lows, |lows|);
    FirstMinIs(lows, |lows|);
    FirstMaxIs(highs, |highs|);
    FirstMinIs(highs, |highs|);
    var lowest, highest := FirstMin(lows, |lows|), FirstMax(lows, |lows|);
    gap := lows[highest] - lows[lowest];
    assert highs[FirstMin(highs, |highs|)] == lows[lowest] + w[axis];
    assert highs[FirstMax(highs, |highs|)] == lows[highest] + w[axis];
    if gap > 0.0 {
      assert boxes[lowest].Edges[axis].lo < boxes[highest].Edges[axis].lo;
      assert lows[FirstMin(highs, |highs|)] == lows[lowest];
    } else {
      assert lows[0] == lows[highest] && highs[0] == highs[FirstMin(highs, |highs|)];
    }
  }

  /** What the search has found while it looks at congruent boxes. */
  ghost predicate Apart(s: Seeds) { s.found && s.separation > -1.0 && s.one != s.two }

  lemma CongruentAxis(boxes: seq<Box>, d: nat, w: seq<real>, axis: nat, best: Seeds)
    requires |boxes| >= 2 && AllFit(boxes, d) && axis < d == |w| && Congruent(boxes, d, w)
    requires Apart(best) || best == Seeds(false, 0.0, 0, 1) || best == Seeds(true, -1.0, 0, 0)
    ensures var s := SeedAxis(boxes, d, axis, best);
      if Spread(boxes, d, axis) || Apart(best) then Apart(s)
      else s == if w[axis] == 0.0 then best else Seeds(true, -1.0, 0, 0)
  {
    var gap := CongruentExtremes(boxes, d, w, axis);
    hide Width, FirstMax, FirstMin, Congruent, Spread;
    if gap + w[axis] > 0.0 {
      RatioBounds(gap, w[axis]);
    }
  }

  lemma {:induction false} CongruentSearch(boxes: seq<Box>, d: nat, w: seq<real>, k: nat)
    requires |boxes| >= 2 && AllFit(boxes, d) && k <= d == |w| && Congruent(boxes, d, w)
    ensures var s := SeedSearch(boxes, d, k);
      if exists axis :: 0 <= axis < k && Spread(boxes, d, axis) then Apart(s)
      else if forall axis :: 0 <= axis < k ==> w[axis] == 0.0 then s == Seeds(false, 0.0, 0, 1)
      else s == Seeds(true, -1.0, 0, 0)
  {
    hide SeedAxis, Congruent, Spread;
    if k != 0 {
      CongruentSearch(boxes, d, w, k - 1);
      CongruentAxis(boxes, d, w, k - 1, SeedSearch(boxes, d, k - 1));
    }
  }

  /** For congruent boxes the two seeds are different entries exactly when some two boxes differ in
    * position, or all are points. Hence a node of identical boxes with an extent splits badly. */
  lemma CongruentSeedsDiffer(boxes: seq<Box>, d: nat, w: seq<real>)
    requires |boxes| >= 2 && AllFit(boxes, d) && d == |w| && Congruent(boxes, d, w)
    ensures var s := SeedSearch(boxes, d, d);
      s.one != s.two <==> (exists axis :: 0 <= axis < d && Spread(boxes, d, axis))
                          || (forall axis :: 0 <= axis < d ==> w[axis] == 0.0)
  {
    CongruentSearch(boxes, d, w, d);
  }

  /** The interval of box i on the axis lies within that of box j. */
  ghost predicate Within(boxes: seq<Box>, d: nat, axis: nat, i: nat, j: nat)
    requires AllFit(boxes, d) && axis < d && i < |boxes| && j < |boxes|
  {
    && boxes[j].Edges[axis].lo <= boxes[i].Edges[axis].lo
    && boxes[i].Edges[axis].hi <= boxes[j].Edges[axis].hi
  }

  /** The normalised separation of an axis. */
  ghost function Separation(boxes: seq<Box>, d: nat, axis: nat): real
    requires boxes != [] && AllFit(boxes, d) && axis < d && Width(boxes, d, axis) != 0.0
  {
    var lows, highs := Lows(boxes, d, axis), Highs(boxes, d, axis);
    (lows[FirstMax(lows, |lows|)] - highs[FirstMin(highs, |highs|)]) / Width(boxes, d, axis)
  }

  /** The first of the k axes with the greatest separation, among those on which the boxes have a width. */
  ghost predicate FirstBest(boxes: seq<Box>, d: nat, axis: nat, k: nat)
    requires boxes != [] && AllFit(boxes, d) && k <= d
  {
    && axis < k && Width(boxes, d, axis) != 0.0
    && forall other :: 0 <= other < k && Width(boxes, d, other) != 0.0 ==>
         if other < axis then Separation(boxes, d, other) < Separation(boxes, d, axis)
         else Separation(boxes, d, other) <= Separation(boxes, d, axis)
  }

  /** s is what the axis offers. */
  ghost predicate Offers(boxes: seq<Box>, d: nat, axis: nat, s: Seeds)
    requires boxes != [] && AllFit(boxes, d) && axis < d
  {
    && Width(boxes, d, axis) != 0.0 && s.found && s.separation == Separation(boxes, d, axis)
    && s.one == FirstMax(Lows(boxes, d, axis), |boxes|) && s.two == FirstMin(Highs(boxes, d, axis), |boxes|)
  }

  lemma AxisTaken(boxes: seq<Box>, d: nat, axis: nat, best: Seeds)
    requires boxes != [] && AllFit(boxes, d) && axis < d
    ensures var s := SeedAxis(boxes, d, axis, best);
      if Width(boxes, d, axis) == 0.0 || (best.found && Separation(boxes, d, axis) <= best.separation) then s == best
      else s.found && s.separation == Separation(boxes, d, axis)
           && s.one == FirstMax(Lows(boxes, d, axis), |boxes|) && s.two == FirstMin(Highs(boxes, d, axis), |boxes|)
  {
    hide Width, FirstMax, FirstMin;
  }

  lemma {:induction false} WinningAxis(boxes: seq<Box>, d: nat, k: nat) returns (axis: nat)
    requires |boxes| >= 2 && AllFit(boxes, d) && k <= d
    ensures var s := SeedSearch(boxes, d, k);
      if s.found then FirstBest(boxes, d, axis, k) && Offers(boxes, d, axis, s)
      else s.one == 0 && s.two == 1 && forall other :: 0 <= other < k ==> Width(boxes, d, other) == 0.0
  {
    hide Width, FirstMax, FirstMin, Lows, Highs, SeedAxis, Separation;
    axis := 0;
    if k > 0 {
      axis := WinningAxis(boxes, d, k - 1);
      AxisTaken(boxes, d, k - 1, SeedSearch(boxes, d, k - 1));
      var before := SeedSearch(boxes, d, k - 1);
      if Width(boxes, d, k - 1) != 0.0 && (!before.found || Separation(boxes, d, k - 1) > before.separation) {
        axis := k - 1;
      }
    }
  }

  /** Width and separation of an axis, from the boxes that start and end outermost on it. */
  lemma SeparationMeaning(boxes: seq<Box>, d: nat, axis: nat, i: nat, j: nat, p: nat, q: nat)
    requires AllFit(boxes, d) && axis < d && i < |boxes| && j < |boxes| && p < |boxes| && q < |boxes|
    requires forall k {:trigger boxes[k].Edges[axis]} :: 0 <= k < |boxes| ==>
      && boxes[q].Edges[axis].lo <= boxes[k].Edges[axis].lo <= boxes[i].Edges[axis].lo
      && boxes[j].Edges[axis].hi <= boxes[k].Edges[axis].hi <= boxes[p].Edges[axis].hi
    ensures var width := boxes[p].Edges[axis].hi - boxes[q].Edges[axis].lo;
      && Width(boxes, d, axis) == width
      && (width != 0.0 ==> Separation(boxes, d, axis) * width == boxes[i].Edges[axis].lo - boxes[j].Edges[axis].hi)
  {
    hide FirstMax, FirstMin, Fits;
    var lows, highs := Lows(boxes, d, axis), Highs(boxes, d, axis);
    ExtremeValues(lows, i, q);
    ExtremeValues(highs, p, j);
  }

  lemma ExtremeValues(v: seq<real>, most: nat, least: nat)
    requires most < |v| && least < |v| && forall k :: 0 <= k < |v| ==> v[least] <= v[k] <= v[most]
    ensures v[FirstMax(v, |v|)] == v[most] && v[FirstMin(v, |v|)] == v[least]
  {
    FirstMaxIs(v, |v|);
    FirstMinIs(v, |v|);
  }

  /** The seeds: on the first axis of greatest separation, the first box that starts highest and the first
    * that ends lowest; the first two boxes if no axis has a width. */
  lemma SeedsAreExtremes(boxes: seq<Box>, d: nat) returns (axis: nat)
    requires |boxes| >= 2 && AllFit(boxes, d)
    ensures var s := SeedSearch(boxes, d, d);
      if s.found then
        && FirstBest(boxes, d, axis, d)
        && (forall k {:trigger boxes[k].Edges[axis]} :: 0 <= k < |boxes| ==>
              && boxes[k].Edges[axis].lo <= boxes[s.one].Edges[axis].lo && boxes[s.two].Edges[axis].hi <= boxes[k].Edges[axis].hi
              && (k < s.one ==> boxes[k].Edges[axis].lo < boxes[s.one].Edges[axis].lo)
              && (k < s.two ==> boxes[s.two].Edges[axis].hi < boxes[k].Edges[axis].hi))
      else s.one == 0 && s.two == 1 && forall other :: 0 <= other < d ==> Width(boxes, d, other) == 0.0
  {
    hide SeedSearch, Separation, Width;
    axis := WinningAxis(boxes, d, d);
    if SeedSearch(boxes, d, d).found {
      FirstMaxIs(Lows(boxes, d, axis), |boxes|);
      FirstMinIs(Highs(boxes, d, axis), |boxes|);
    }
  }

  lemma OneFirstBest(boxes: seq<Box>, d: nat, a: nat, b: nat)
    requires boxes != [] && AllFit(boxes, d) && FirstBest(boxes, d, a, d) && FirstBest(boxes, d, b, d)
    ensures a == b
  {
    hide Separation, Width;
  }

  /** On the axis, the interval of box i lies within every other, and every earlier one starts lower and
    * ends higher. */
  ghost predicate Innermost(boxes: seq<Box>, d: nat, axis: nat, i: nat)
    requires AllFit(boxes, d) && axis < d && i < |boxes|
  {
    && (forall j :: 0 <= j < |boxes| ==> Within(boxes, d, axis, i, j))
    && forall j {:trigger boxes[j].Edges[axis]} :: 0 <= j < i ==>
         boxes[j].Edges[axis].lo < boxes[i].Edges[axis].lo && boxes[i].Edges[axis].hi < boxes[j].Edges[axis].hi
  }

  lemma {:induction false} InnermostIsExtreme(boxes: seq<Box>, d: nat, axis: nat, i: nat)
    requires boxes != [] && AllFit(boxes, d) && axis < d && i < |boxes| && Innermost(boxes, d, axis, i)
    ensures FirstMax(Lows(boxes, d, axis), |boxes|) == i == FirstMin(Highs(boxes, d, axis), |boxes|)
  {
    var lows, highs := Lows(boxes, d, axis), Highs(boxes, d, axis);
    FirstMaxIs(lows, |lows|);
    FirstMinIs(highs, |highs|);
    var k, l := FirstMax(lows, |lows|), FirstMin(highs, |highs|);
    assert Within(boxes, d, axis, i, k) && Within(boxes, d, axis, i, l);
    hide FirstMax, FirstMin, Lows, Highs;
    assert boxes[k].Edges[axis].lo == lows[k] && boxes[l].Edges[axis].hi == highs[l];
    assert boxes[i].Edges[axis].lo == lows[i] && boxes[i].Edges[axis].hi == highs[i];
  }

  lemma {:induction false} ExtremeIsInnermost(boxes: seq<Box>, d: nat, axis: nat, i: nat)
    requires boxes != [] && AllFit(boxes, d) && axis < d && i < |boxes|
    requires FirstMax(Lows(boxes, d, axis), |boxes|) == i == FirstMin(Highs(boxes, d, axis), |boxes|)
    ensures Innermost(boxes, d, axis, i)
  {
    var lows, highs := Lows(boxes, d, axis), Highs(boxes, d, axis);
    FirstMaxIs(lows, |lows|);
    FirstMinIs(highs, |highs|);
    hide FirstMax, FirstMin, Lows, Highs;
    assert forall j :: 0 <= j < |boxes| ==> lows[j] <= lows[i] && highs[i] <= highs[j];
    assert forall j :: 0 <= j < i ==> lows[j] < lows[i] && highs[i] < highs[j];
    assert forall j {:trigger boxes[j]} :: 0 <= j < |boxes| ==> boxes[j].Edges[axis].lo == lows[j] && boxes[j].Edges[axis].hi == highs[j];
  }

  /** For any boxes: one entry is both seeds exactly when, on the first axis of greatest separation, the
    * interval of some entry lies within every other and every earlier one starts lower and ends higher. */
  lemma SeedsCoincide(boxes: seq<Box>, d: nat)
    requires |boxes| >= 2 && AllFit(boxes, d)
    ensures var s := SeedSearch(boxes, d, d);
      s.one == s.two <==>
        exists axis, i :: 0 <= axis < d && 0 <= i < |boxes| && FirstBest(boxes, d, axis, d) && Innermost(boxes, d, axis, i)
  {
    hide SeedSearch, FirstMax, FirstMin, Innermost, Separation, Width;
    var s := SeedSearch(boxes, d, d);
    var won := WinningAxis(boxes, d, d);
    if s.one == s.two {
      ExtremeIsInnermost(boxes, d, won, s.one);
    }
    forall axis, i | 0 <= axis < d && 0 <= i < |boxes| && FirstBest(boxes, d, axis, d) && Innermost(boxes, d, axis, i)
      ensures s.one == s.two
    {
      InnermostIsExtreme(boxes, d, axis, i);
      if s.found {
        OneFirstBest(boxes, d, axis, won);
      }
    }
  }

  /** Lying within every other box is not enough: [0,1] lies within [0,2], but the earlier one starts as
    * low and is the other seed. */
  lemma StartsAsLow()
    ensures var boxes := [Segment(0.0, 2.0), Segment(0.0, 1.0)];
      AllFit(boxes, 1) && Within(boxes, 1, 0, 1, 0) && SeedSearch(boxes, 1, 1) == Seeds(true, -0.5, 0, 1)
  {
    var boxes := [Segment(0.0, 2.0), Segment(0.0, 1.0)];
    var lows, highs := Lows(boxes, 1, 0), Highs(boxes, 1, 0);
    assert FirstMax(lows, 1) == 0 && FirstMax(lows, 2) == 0 && FirstMin(highs, 1) == 0 && FirstMin(highs, 2) == 1;
    assert FirstMin(lows, 1) == 0 && FirstMin(lows, 2) == 0 && FirstMax(highs, 1) == 0 && FirstMax(highs, 2) == 0;
    assert Width(boxes, 1, 0) == 2.0;
    assert SeedSearch(boxes, 1, 0) == Seeds(false, 0.0, 0, 1);
    assert SeedSearch(boxes, 1, 1) == SeedAxis(boxes, 1, 0, Seeds(false, 0.0, 0, 1));
  }

  lemma QuotientSign(x: real, w: real)
    requires w > 0.0
    ensures x / w > 0.0 <==> x > 0.0
  {
    var q := x / w;
    assert q * w == x;
  }

  /** Two entries that lie apart on some axis are enough for different seeds. */
  lemma ApartSeedsDiffer(boxes: seq<Box>, d: nat, axis: nat, i: nat, j: nat)
    requires |boxes| >= 2 && AllFit(boxes, d) && axis < d && i < |boxes| && j < |boxes|
    requires boxes[i].Edges[axis].hi < boxes[j].Edges[axis].lo
    ensures var s := SeedSearch(boxes, d, d); s.found && s.separation > 0.0 && s.one != s.two
  {
    var s := SeedSearch(boxes, d, d);
    AxisSpan(boxes, d, axis);
    assert Lows(boxes, d, axis)[j] > Highs(boxes, d, axis)[i];
    var won := WinningAxis(boxes, d, d);
    if s.found {
      AxisSpan(boxes, d, won);
      assert Separation(boxes, d, axis) <= s.separation;
    }
  }

  /** The width of an axis is never negative, and the separation has the sign of the gap. */
  lemma AxisSpan(boxes: seq<Box>, d: nat, axis: nat)
    requires boxes != [] && AllFit(boxes, d) && axis < d
    ensures var lows, highs := Lows(boxes, d, axis), Highs(boxes, d, axis);
      var gap := lows[FirstMax(lows, |lows|)] - highs[FirstMin(highs, |highs|)];
      && Width(boxes, d, axis) >= 0.0 && (gap > 0.0 ==> Width(boxes, d, axis) > 0.0)
      && (Width(boxes, d, axis) != 0.0 ==> (Separation(boxes, d, axis) > 0.0 <==> gap > 0.0))
      && (FirstMax(lows, |lows|) == FirstMin(highs, |highs|) ==> gap <= 0.0)
      && forall i, j :: 0 <= i < |boxes| && 0 <= j < |boxes| ==> lows[j] - highs[i] <= gap
  {
    var lows, highs := Lows(boxes, d, axis), Highs(boxes, d, axis);
    FirstMaxIs(lows, |lows|);
    FirstMinIs(highs, |highs|);
    FirstMaxIs(highs, |highs|);
    FirstMinIs(lows, |lows|);
    forall i | 0 <= i < |boxes| ensures lows[i] <= highs[i] {
      assert Fits(boxes[i], d);
    }
    hide FirstMax, FirstMin, Lows, Highs, AllFit;
    var width := Width(boxes, d, axis);
    if width > 0.0 {
      QuotientSign(lows[FirstMax(lows, |lows|)] - highs[FirstMin(highs, |highs|)], width);
    }
  }

  // ---- distribution: the loop of splitNode, lines 297-340, and pickNext, lines 345-379

  function Abs(x: real): real { if x < 0.0 then -x else x }

  /** How much more the entry would enlarge one stored bound than the other. */
  ghost function Preference(e: Box, bound1: Box, bound2: Box): real
    requires |bound1.Edges| == bound1.Dim <= |e.Edges| && |bound2.Edges| == bound2.Dim <= |e.Edges|
  {
    Abs((Area(Join(bound1, e)) - Area(bound1)) - (Area(Join(bound2, e)) - Area(bound2)))
  }

  ghost function Preferences<T>(remaining: seq<T>, box: map<T, Box>, d: nat, bound1: Box, bound2: Box): (v: seq<real>)
    requires Boxed(remaining, box, d)
    requires |bound1.Edges| == bound1.Dim <= d && |bound2.Edges| == bound2.Dim <= d
    ensures |v| == |remaining|
    ensures forall i :: 0 <= i < |v| ==> v[i] == Preference(box[remaining[i]], bound1, bound2)
  {
    seq(|remaining|, i requires 0 <= i < |remaining| => Preference(box[remaining[i]], bound1, bound2))
  }

  lemma PreferenceIs(e: Box, bound1: Box, bound2: Box)
    requires |bound1.Edges| == bound1.Dim <= |e.Edges| && |bound2.Edges| == bound2.Dim <= |e.Edges|
    ensures Preference(e, bound1, bound2) == Abs((Area(Join(bound1, e)) - Area(bound1)) - (Area(Join(bound2, e)) - Area(bound2)))
  {}

  datatype Choice = GroupOne | GroupTwo | Nowhere

  /** Where an entry goes: to a group that needs all the rest to reach m, else by enlargement, area
    * and count. The source has no branch for a tie in all three. */
  ghost function Assign(n1: nat, n2: nat, left: nat, m: int, bb1: Box, bb2: Box, e: Box, d: nat): Choice
    requires Fits(bb1, d) && Fits(bb2, d) && Fits(e, d)
  {
    var area1, area2 := Area(Join(bb1, e)), Area(Join(bb2, e));
    var enlargement1, enlargement2 := area1 - Area(bb1), area2 - Area(bb2);
    if n1 + left <= m then GroupOne
    else if n2 + left <= m then GroupTwo
    else if enlargement1 != enlargement2 then (if enlargement1 < enlargement2 then GroupOne else GroupTwo)
    else if area1 != area2 then (if area1 < area2 then GroupOne else GroupTwo)
    else if n1 != n2 then (if n1 < n2 then GroupOne else GroupTwo)
    else Nowhere
  }

  /** How much more e would enlarge the first box than the second. */
  ghost function Lean(e: Box, bb1: Box, bb2: Box): real
    requires |bb1.Edges| == bb1.Dim <= |e.Edges| && |bb2.Edges| == bb2.Dim <= |e.Edges|
  {
    (Area(Join(bb1, e)) - Area(bb1)) - (Area(Join(bb2, e)) - Area(bb2))
  }

  /** Where neither group needs all the rest, the entry goes to the group that comes first in the order of
    * enlargement, then area, then count, and nowhere exactly if they are level in all three. */
  lemma AssignMeaning(n1: nat, n2: nat, left: nat, m: int, bb1: Box, bb2: Box, e: Box, d: nat)
    requires Fits(bb1, d) && Fits(bb2, d) && Fits(e, d)
    ensures var choice := Assign(n1, n2, left, m, bb1, bb2, e, d);
      && (n1 + left <= m ==> choice == GroupOne)
      && (n1 + left > m && n2 + left <= m ==> choice == GroupTwo)
      && (n1 + left > m && n2 + left > m ==>
            var lean, larger := Lean(e, bb1, bb2), Area(Join(bb1, e)) - Area(Join(bb2, e));
            && (choice == GroupOne <==> lean < 0.0 || (lean == 0.0 && (larger < 0.0 || (larger == 0.0 && n1 < n2))))
            && (choice == Assign(n2, n1, left, m, bb2, bb1, e, d) <==> choice == Nowhere)
            && (choice == GroupTwo <==> Assign(n2, n1, left, m, bb2, bb1, e, d) == GroupOne))
  {
    hide Area, Join;
  }

  datatype Groups<T> = Groups(one: seq<T>, two: seq<T>, lost: seq<T>)

  ghost function Place<T>(g: Groups<T>, e: T, c: Choice): Groups<T> {
    match c
    case GroupOne => g.(one := g.one + [e])
    case GroupTwo => g.(two := g.two + [e])
    case Nowhere => g.(lost := g.lost + [e])
  }

  /** Everything the loop reads but never changes; bound1 and bound2 are the groups' stored Bound
    * fields, which pickNext reads and nothing refreshes. */
  datatype Setting<T> = Setting(box: map<T, Box>, d: nat, m: int, bound1: Box, bound2: Box)

  ghost predicate Ready<T>(g: Groups<T>, remaining: seq<T>, c: Setting<T>) {
    && g.one != [] && g.two != []
    && Boxed(g.one, c.box, c.d) && Boxed(g.two, c.box, c.d) && Boxed(remaining, c.box, c.d)
    && |c.bound1.Edges| == c.bound1.Dim <= c.d && |c.bound2.Edges| == c.bound2.Dim <= c.d
  }

  /** pickNext: the entry with the strongest preference, the first such. */
  ghost function PickNext<T>(g: Groups<T>, remaining: seq<T>, c: Setting<T>): (i: nat)
    requires Ready(g, remaining, c) && remaining != []
    ensures i < |remaining|
  {
    FirstMax(Preferences(remaining, c.box, c.d, c.bound1, c.bound2), |remaining|)
  }

  /** The entry picked next is the first whose enlargements of the two stored bounds differ most. */
  lemma PickedLeansMost<T>(g: Groups<T>, remaining: seq<T>, c: Setting<T>)
    requires Ready(g, remaining, c) && remaining != []
    ensures var i := PickNext(g, remaining, c); var most := Lean(c.box[remaining[i]], c.bound1, c.bound2);
      forall k {:trigger remaining[k]} :: 0 <= k < |remaining| ==>
        var lean := Lean(c.box[remaining[k]], c.bound1, c.bound2);
        && (-most <= lean <= most || most <= lean <= -most)
        && (k < i ==> -most < lean < most || most < lean < -most)
  {
    var v := Preferences(remaining, c.box, c.d, c.bound1, c.bound2);
    var i := PickNext(g, remaining, c);
    FirstMaxIs(v, |v|);
    hide FirstMax, Area, Join;
    forall k | 0 <= k < |remaining|
      ensures v[k] <= v[i] && (k < i ==> v[k] < v[i])
      ensures v[k] == Abs(Lean(c.box[remaining[k]], c.bound1, c.bound2))
    {
      PreferenceIs(c.box[remaining[k]], c.bound1, c.bound2);
    }
  }

  /** The bounds that are read are stale: that of the first group is the one before the split, and the
    * second group has none yet. So the entry that made the node overflow is picked first if it lies
    * outside of the old bound, and the entries come in their order otherwise. */
  lemma StaleBoundsPick<T>(g: Groups<T>, remaining: seq<T>, c: Setting<T>, n: nat)
    requires Ready(g, remaining, c) && n < |remaining| && Fits(c.bound1, c.d) && c.bound2 == ZeroBox
    requires forall k :: 0 <= k < |remaining| && k != n ==> Contains(c.bound1, c.box[remaining[k]])
    ensures PickNext(g, remaining, c) == if Area(Join(c.bound1, c.box[remaining[n]])) > Area(c.bound1) then n else 0
  {
    hide FirstMax, Area, Join;
    PickedLeansMost(g, remaining, c);
    forall k | 0 <= k < |remaining|
      ensures Lean(c.box[remaining[k]], c.bound1, c.bound2) >= 0.0
      ensures Lean(c.box[remaining[k]], c.bound1, c.bound2) == Area(Join(c.bound1, c.box[remaining[k]])) - Area(c.bound1)
      ensures k != n ==> Lean(c.box[remaining[k]], c.bound1, c.bound2) == 0.0
    {
      assert Fits(c.box[remaining[k]], c.d);
      LeanFromNothing(c.box[remaining[k]], c.bound1, c.d);
    }
    var i := PickNext(g, remaining, c);
    assert remaining[i] in remaining && remaining[n] in remaining && remaining[0] in remaining;
    assert Lean(c.box[remaining[i]], c.bound1, c.bound2) >= 0.0;
    assert Lean(c.box[remaining[0]], c.bound1, c.bound2) >= 0.0;
  }

  lemma LeanFromNothing(e: Box, bound: Box, d: nat)
    requires Fits(e, d) && Fits(bound, d)
    ensures Lean(e, bound, ZeroBox) == Area(Join(bound, e)) - Area(bound) >= 0.0
    ensures Contains(bound, e) ==> Lean(e, bound, ZeroBox) == 0.0
  {
    assert Join(ZeroBox, e).Dim == 0;
    JoinIsLeast(bound, e, bound, d);
    AreaGrows(Join(bound, e), bound, d);
    if Contains(bound, e) {
      assert Contains(bound, bound);
      AreaGrows(bound, Join(bound, e), d);
    }
  }

  ghost function ChoiceFor<T>(g: Groups<T>, remaining: seq<T>, c: Setting<T>): Choice
    requires Ready(g, remaining, c) && remaining != []
  {
    Assign(|g.one|, |g.two|, |remaining|, c.m, JoinOver(g.one, c.box, c.d), JoinOver(g.two, c.box, c.d),
           c.box[remaining[PickNext(g, remaining, c)]], c.d)
  }

  lemma ReadyAfter<T>(g: Groups<T>, remaining: seq<T>, c: Setting<T>, i: nat, choice: Choice)
    requires Ready(g, remaining, c) && i < |remaining|
    ensures Ready(Place(g, remaining[i], choice), remaining[..i] + remaining[i + 1..], c)
  {
    RemoveAtMembers(remaining, i);
  }

  /** The whole loop of splitNode. */
  ghost function Distribute<T>(g: Groups<T>, remaining: seq<T>, c: Setting<T>): Groups<T>
    requires Ready(g, remaining, c)
    decreases |remaining|
  {
    if remaining == [] then g else
      var i := PickNext(g, remaining, c);
      ReadyAfter(g, remaining, c, i, ChoiceFor(g, remaining, c));
      Distribute(Place(g, remaining[i], ChoiceFor(g, remaining, c)), remaining[..i] + remaining[i + 1..], c)
  }

  lemma PlaceConserves<T>(g: Groups<T>, e: T, choice: Choice)
    ensures var next := Place(g, e, choice);
      && g.one <= next.one && g.two <= next.two && g.lost <= next.lost
      && multiset(next.one) + multiset(next.two) + multiset(next.lost)
         == multiset(g.one) + multiset(g.two) + multiset(g.lost) + multiset{e}
  {}

  /** No entry is invented or repeated: each ends in group one, in group two, or is lost. */
  lemma {:induction false} DistributeConserves<T>(g: Groups<T>, remaining: seq<T>, c: Setting<T>)
    requires Ready(g, remaining, c)
    ensures var r := Distribute(g, remaining, c);
      && multiset(r.one) + multiset(r.two) + multiset(r.lost)
         == multiset(g.one) + multiset(g.two) + multiset(g.lost) + multiset(remaining)
      && g.one <= r.one && g.two <= r.two && g.lost <= r.lost
    decreases |remaining|
  {
    hide PickNext, ChoiceFor, Boxed, Place;
    if remaining != [] {
      var i, choice := PickNext(g, remaining, c), ChoiceFor(g, remaining, c);
      var next, rest := Place(g, remaining[i], choice), remaining[..i] + remaining[i + 1..];
      ReadyAfter(g, remaining, c, i, choice);
      RemoveAtMultiset(remaining, i);
      PlaceConserves(g, remaining[i], choice);
      DistributeConserves(next, rest, c);
    }
  }

  /** No entry left to place meets a complete tie, in this round or in a later one. */
  ghost predicate NoTie<T>(g: Groups<T>, remaining: seq<T>, c: Setting<T>)
    requires Ready(g, remaining, c)
    decreases |remaining|
  {
    remaining == [] || (
      var i, choice := PickNext(g, remaining, c), ChoiceFor(g, remaining, c);
      ReadyAfter(g, remaining, c, i, choice);
      choice != Nowhere && NoTie(Place(g, remaining[i], choice), remaining[..i] + remaining[i + 1..], c))
  }

  /** The complete tie: neither group needs all the rest, and enlargement, area and count are equal. */
  lemma TieIsComplete<T>(g: Groups<T>, remaining: seq<T>, c: Setting<T>)
    requires Ready(g, remaining, c) && remaining != []
    ensures var bb1, bb2 := JoinOver(g.one, c.box, c.d), JoinOver(g.two, c.box, c.d);
      var e := c.box[remaining[PickNext(g, remaining, c)]];
      ChoiceFor(g, remaining, c) == Nowhere <==>
        && |g.one| == |g.two| && |g.one| + |remaining| > c.m
        && Area(Join(bb1, e)) == Area(Join(bb2, e)) && Area(bb1) == Area(bb2)
  {
    hide Area, Join, JoinOver, PickNext;
  }

  /** Entries are lost exactly when some round meets a complete tie. */
  lemma {:induction false} LosesAtTies<T>(g: Groups<T>, remaining: seq<T>, c: Setting<T>)
    requires Ready(g, remaining, c)
    ensures Distribute(g, remaining, c).lost == g.lost <==> NoTie(g, remaining, c)
    decreases |remaining|
  {
    hide PickNext, ChoiceFor, Boxed;
    if remaining != [] {
      var i, choice := PickNext(g, remaining, c), ChoiceFor(g, remaining, c);
      var next, rest := Place(g, remaining[i], choice), remaining[..i] + remaining[i + 1..];
      ReadyAfter(g, remaining, c, i, choice);
      LosesAtTies(next, rest, c);
      DistributeConserves(next, rest, c);
    }
  }

  /** Without a complete tie, and with 2m entries to share, both groups reach m. */
  lemma {:induction false} DistributeFills<T>(g: Groups<T>, remaining: seq<T>, c: Setting<T>)
    requires Ready(g, remaining, c) && NoTie(g, remaining, c)
    requires |g.one| + |g.two| + |remaining| >= 2 * c.m
    requires |g.one| + |remaining| >= c.m && |g.two| + |remaining| >= c.m
    ensures var r := Distribute(g, remaining, c); |r.one| >= c.m && |r.two| >= c.m
    decreases |remaining|
  {
    hide PickNext, JoinOver, Area, Boxed;
    if remaining != [] {
      var i, choice := PickNext(g, remaining, c), ChoiceFor(g, remaining, c);
      ReadyAfter(g, remaining, c, i, choice);
      DistributeFills(Place(g, remaining[i], choice), remaining[..i] + remaining[i + 1..], c);
    }
  }

  // ---- the split as a whole

  /** The entries other than the two seeds, in order. */
  ghost function Others<T>(items: seq<T>, a: T, b: T): (r: seq<T>)
    ensures forall x :: x in r ==> x in items && x != a && x != b
    ensures forall x :: x in items && x != a && x != b ==> x in r
  {
    if items == [] then [] else
      var last := |items| - 1;
      Others(items[..last], a, b) + (if items[last] != a && items[last] != b then [items[last]] else [])
  }

  ghost function BoxesOf<T>(items: seq<T>, box: map<T, Box>): (r: seq<Box>)
    requires forall x :: x in items ==> x in box
    ensures |r| == |items| && forall i :: 0 <= i < |r| ==> r[i] == box[items[i]]
  {
    seq(|items|, i requires 0 <= i < |items| => box[items[i]])
  }

  ghost function SeedsOf<T>(items: seq<T>, c: Setting<T>): (T, T)
    requires |items| >= 2 && Boxed(items, c.box, c.d)
  {
    var s := SeedSearch(BoxesOf(items, c.box), c.d, c.d);
    (items[s.one], items[s.two])
  }

  /** The groups that splitNode makes of a node's entries. */
  ghost function SplitOf<T>(items: seq<T>, c: Setting<T>): Groups<T>
    requires |items| >= 2 && Boxed(items, c.box, c.d)
    requires |c.bound1.Edges| == c.bound1.Dim <= c.d && |c.bound2.Edges| == c.bound2.Dim <= c.d
  {
    var (a, b) := SeedsOf(items, c);
    Distribute(Groups([a], [b], []), Others(items, a, b), c)
  }

  lemma {:induction false} OthersMultiset<T>(items: seq<T>, a: T, b: T)
    ensures forall x :: multiset(Others(items, a, b))[x] == if x == a || x == b then 0 else multiset(items)[x]
  {
    if items != [] {
      var last := |items| - 1;
      OthersMultiset(items[..last], a, b);
      assert items == items[..last] + [items[last]];
    }
  }

  /** The counting behind SplitPartitions. */
  lemma CountPartition<T>(items: seq<T>, a: T, b: T, rest: multiset<T>, r: Groups<T>)
    requires a in items && b in items && forall x :: multiset(items)[x] <= 1
    requires forall x :: rest[x] == if x == a || x == b then 0 else multiset(items)[x]
    requires multiset(r.one) + multiset(r.two) + multiset(r.lost) == multiset{a} + multiset{b} + rest
    requires a in r.one && b in r.two
    ensures a != b && r.lost == [] <==> multiset(r.one) + multiset(r.two) == multiset(items)
    ensures a != b ==> multiset(r.one) + multiset(r.two) + multiset(r.lost) == multiset(items)
  {
    assert a in multiset(items) && b in multiset(items);
    assert a in multiset(r.one) && b in multiset(r.two);
    if a == b {
      assert (multiset(r.one) + multiset(r.two))[a] >= 2;
    } else {
      assert multiset{a} + multiset{b} + rest == multiset(items);
      if r.lost != [] {
        assert r.lost[0] in multiset(r.lost);
        assert (multiset(r.one) + multiset(r.two))[r.lost[0]] < multiset(items)[r.lost[0]];
      }
    }
  }

  lemma SeedsAndRest<T>(all: multiset<T>, a: T, b: T, rest: multiset<T>)
    requires a in all && b in all && a != b && forall x :: all[x] <= 1
    requires forall x :: rest[x] == if x == a || x == b then 0 else all[x]
    ensures all == multiset{a} + multiset{b} + rest
  {}

  lemma SeedsAndOthers<T>(items: seq<T>, a: T, b: T)
    requires NoDup(items) && a in items && b in items && a != b
    ensures multiset(items) == multiset{a} + multiset{b} + multiset(Others(items, a, b))
  {
    NoDupIsMultisetSet(items);
    OthersMultiset(items, a, b);
    SeedsAndRest(multiset(items), a, b, multiset(Others(items, a, b)));
  }

  /** The two seeds are different entries, and no other entry meets a complete tie. */
  ghost predicate Partitioning<T>(items: seq<T>, c: Setting<T>)
    requires |items| >= 2 && Boxed(items, c.box, c.d)
    requires |c.bound1.Edges| == c.bound1.Dim <= c.d && |c.bound2.Edges| == c.bound2.Dim <= c.d
  {
    var (a, b) := SeedsOf(items, c);
    a != b && NoTie(Groups([a], [b], []), Others(items, a, b), c)
  }

  /** The split partitions the node's entries exactly when the seeds differ and no entry meets a
    * complete tie; with different seeds, what is missing is what met a tie. */
  lemma {:induction false} SplitPartitions<T>(items: seq<T>, c: Setting<T>)
    requires |items| >= 2 && Boxed(items, c.box, c.d) && NoDup(items)
    requires |c.bound1.Edges| == c.bound1.Dim <= c.d && |c.bound2.Edges| == c.bound2.Dim <= c.d
    ensures var (a, b) := SeedsOf(items, c); var r := SplitOf(items, c);
      && (Partitioning(items, c) <==> multiset(r.one) + multiset(r.two) == multiset(items))
      && (a != b ==> multiset(r.one) + multiset(r.two) + multiset(r.lost) == multiset(items))
      && (Partitioning(items, c) ==> r.lost == [])
      && r.one != [] && r.two != []
  {
    hide Distribute, SeedSearch, Boxed, NoTie;
    var (a, b) := SeedsOf(items, c);
    var r := SplitOf(items, c);
    var rest := Others(items, a, b);
    assert Ready(Groups([a], [b], []), rest, c) by { SplitReady(items, c); }
    DistributeConserves(Groups([a], [b], []), rest, c);
    LosesAtTies(Groups([a], [b], []), rest, c);
    NoDupIsMultisetSet(items);
    OthersMultiset(items, a, b);
    CountPartition(items, a, b, multiset(rest), r);
  }

  /** The groups are drawn from the node's entries, and neither is empty. */
  lemma SplitMembers<T>(items: seq<T>, c: Setting<T>)
    requires |items| >= 2 && Boxed(items, c.box, c.d)
    requires |c.bound1.Edges| == c.bound1.Dim <= c.d && |c.bound2.Edges| == c.bound2.Dim <= c.d
    ensures var r := SplitOf(items, c);
      && r.one != [] && r.two != [] && (forall x :: x in r.one ==> x in items) && (forall x :: x in r.two ==> x in items)
  {
    hide Distribute, SeedSearch, Boxed;
    var (a, b) := SeedsOf(items, c);
    var rest, r := Others(items, a, b), SplitOf(items, c);
    assert Ready(Groups([a], [b], []), rest, c) by { SplitReady(items, c); }
    DistributeConserves(Groups([a], [b], []), rest, c);
    assert r.one[0] == a && r.two[0] == b;
    DrawnFrom(items, a, b, rest, r);
  }

  lemma DrawnFrom<T>(items: seq<T>, a: T, b: T, rest: seq<T>, r: Groups<T>)
    requires a in items && b in items && forall x :: x in rest ==> x in items
    requires multiset(r.one) + multiset(r.two) + multiset(r.lost) == multiset([a]) + multiset([b]) + multiset([]) + multiset(rest)
    ensures forall x :: x in r.one ==> x in items
    ensures forall x :: x in r.two ==> x in items
  {
    forall x ensures x in r.one || x in r.two ==> x in items {
      if x in r.one || x in r.two {
        assert x in multiset(r.one) + multiset(r.two) + multiset(r.lost);
        assert x in multiset([a]) + multiset([b]) + multiset(rest);
      }
    }
  }

  lemma SplitReady<T>(items: seq<T>, c: Setting<T>)
    requires |items| >= 2 && Boxed(items, c.box, c.d)
    requires |c.bound1.Edges| == c.bound1.Dim <= c.d && |c.bound2.Edges| == c.bound2.Dim <= c.d
    ensures var (a, b) := SeedsOf(items, c); Ready(Groups([a], [b], []), Others(items, a, b), c)
  {}

  /** A partitioning split leaves both groups smaller, and with at least 2m entries m or more in each. */
  lemma {:induction false} SplitFills<T>(items: seq<T>, c: Setting<T>)
    requires |items| >= 2 && Boxed(items, c.box, c.d) && NoDup(items)
    requires |c.bound1.Edges| == c.bound1.Dim <= c.d && |c.bound2.Edges| == c.bound2.Dim <= c.d
    requires Partitioning(items, c)
    ensures var r := SplitOf(items, c);
      && |r.one| + |r.two| == |items| && |r.one| < |items| && |r.two| < |items|
      && (|items| >= 2 * c.m ==> |r.one| >= c.m && |r.two| >= c.m)
  {
    hide Distribute, SeedSearch, Boxed, NoTie;
    var (a, b) := SeedsOf(items, c);
    var r := SplitOf(items, c);
    var rest := Others(items, a, b);
    SplitPartitions(items, c);
    assert |multiset(r.one) + multiset(r.two)| == |multiset(items)|;
    assert Ready(Groups([a], [b], []), rest, c) by { SplitReady(items, c); }
    DistributeConserves(Groups([a], [b], []), rest, c);
    assert |multiset(r.one) + multiset(r.two) + multiset(r.lost)| == 2 + |rest|;
    if |items| >= 2 * c.m {
      DistributeFills(Groups([a], [b], []), rest, c);
    }
  }

  // ---- a split that loses an entry, and one that does not

  function Segment(lo: real, hi: real): Box { Box(1, [Edge(lo, hi)]) }

  lemma SegmentArea(lo: real, hi: real)
    ensures Area(Segment(lo, hi)) == hi - lo
  {
    assert AreaUpTo(Segment(lo, hi), 1) == AreaUpTo(Segment(lo, hi), 0) * (hi - lo);
  }

  /** The entries' boxes are these segments, whatever the node's stored bound. */
  ghost predicate OnSegments<T>(items: seq<T>, c: Setting<T>, segments: seq<(real, real)>) {
    && NoDup(items) && |items| == |segments| >= 2 && c.d == 1
    && |c.bound1.Edges| == c.bound1.Dim <= 1 && |c.bound2.Edges| == c.bound2.Dim <= 1
    && forall i :: 0 <= i < |items| ==>
         items[i] in c.box && segments[i].0 <= segments[i].1 && c.box[items[i]] == Segment(segments[i].0, segments[i].1)
  }

  lemma SegmentsBoxed<T>(items: seq<T>, c: Setting<T>, segments: seq<(real, real)>)
    requires OnSegments(items, c, segments)
    ensures Boxed(items, c.box, c.d)
    ensures BoxesOf(items, c.box) == seq(|segments|, i requires 0 <= i < |segments| => Segment(segments[i].0, segments[i].1))
  {}

  /** A node of capacity two with a third entry half-way between the other two. */
  const TIED_SEGMENTS := [(0.0, 1.0), (10.0, 11.0), (5.0, 6.0)]

  lemma TiedSeeds<T>(items: seq<T>, c: Setting<T>)
    requires OnSegments(items, c, TIED_SEGMENTS)
    ensures Boxed(items, c.box, c.d) && SeedsOf(items, c) == (items[1], items[0])
  {
    SegmentsBoxed(items, c, TIED_SEGMENTS);
    var boxes := BoxesOf(items, c.box);
    var lows, highs := Lows(boxes, 1, 0), Highs(boxes, 1, 0);
    assert FirstMax(lows, 1) == 0 && FirstMax(lows, 2) == 1 && FirstMax(lows, 3) == 1;
    assert FirstMin(highs, 1) == 0 && FirstMin(highs, 2) == 0 && FirstMin(highs, 3) == 0;
    assert FirstMin(lows, 1) == 0 && FirstMin(lows, 2) == 0 && FirstMin(lows, 3) == 0;
    assert FirstMax(highs, 1) == 0 && FirstMax(highs, 2) == 1 && FirstMax(highs, 3) == 1;
    assert Width(boxes, 1, 0) == 11.0;
    assert SeedSearch(boxes, 1, 0) == Seeds(false, 0.0, 0, 1);
    assert SeedSearch(boxes, 1, 1) == SeedAxis(boxes, 1, 0, Seeds(false, 0.0, 0, 1));
  }

  lemma OthersOfThree<T>(items: seq<T>)
    requires |items| == 3 && NoDup(items)
    ensures Others(items, items[1], items[0]) == [items[2]]
  {
    OthersStep([], items[0], items[1], items[0]);
    OthersStep([items[0]], items[1], items[1], items[0]);
    OthersStep([items[0], items[1]], items[2], items[1], items[0]);
    assert items == [items[0], items[1]] + [items[2]];
  }

  lemma OthersStep<T>(s: seq<T>, x: T, a: T, b: T)
    ensures Others(s + [x], a, b) == Others(s, a, b) + if x != a && x != b then [x] else []
  {
    assert (s + [x])[..|s|] == s;
  }

  /** The seeds differ, and yet the split is no partition: the middle entry is equally near both
    * groups in every respect, and goes to neither. */
  lemma {:induction false} CompleteTieLosesEntry<T>(items: seq<T>, c: Setting<T>)
    requires OnSegments(items, c, TIED_SEGMENTS) && c.m == 1
    ensures Boxed(items, c.box, c.d) && SplitOf(items, c) == Groups([items[1]], [items[0]], [items[2]])
    ensures !Partitioning(items, c)
  {
    hide ChoiceFor, SeedsOf, Boxed, NoTie;
    TiedSeeds(items, c);
    OthersOfThree(items);
    var g, rest := Groups([items[1]], [items[0]], []), [items[2]];
    SplitReady(items, c);
    assert PickNext(g, rest, c) == 0;
    TiedChoice(items, g, c);
    assert rest[..0] + rest[1..] == [];
    LosesAtTies(g, rest, c);
  }

  lemma TiedChoice<T>(items: seq<T>, g: Groups<T>, c: Setting<T>)
    requires OnSegments(items, c, TIED_SEGMENTS) && c.m == 1 && g == Groups([items[1]], [items[0]], [])
    requires Ready(g, [items[2]], c) && PickNext(g, [items[2]], c) == 0
    ensures ChoiceFor(g, [items[2]], c) == Nowhere
  {
    hide Area;
    var bb1, bb2, e := c.box[items[1]], c.box[items[0]], c.box[items[2]];
    assert Join(bb1, e) == Segment(5.0, 11.0) && Join(bb2, e) == Segment(0.0, 6.0);
    SegmentArea(5.0, 11.0);
    SegmentArea(0.0, 6.0);
    SegmentArea(10.0, 11.0);
    SegmentArea(0.0, 1.0);
  }

  /** Two near pairs far apart, in a node of capacity three. */
  const PAIRED_SEGMENTS := [(0.0, 1.0), (2.0, 3.0), (10.0, 11.0), (12.0, 13.0)]

  lemma PairedSeeds<T>(items: seq<T>, c: Setting<T>)
    requires OnSegments(items, c, PAIRED_SEGMENTS)
    ensures Boxed(items, c.box, c.d) && SeedsOf(items, c) == (items[3], items[0])
  {
    SegmentsBoxed(items, c, PAIRED_SEGMENTS);
    var boxes := BoxesOf(items, c.box);
    var lows, highs := Lows(boxes, 1, 0), Highs(boxes, 1, 0);
    assert FirstMax(lows, 1) == 0 && FirstMax(lows, 2) == 1 && FirstMax(lows, 3) == 2 && FirstMax(lows, 4) == 3;
    assert FirstMin(highs, 1) == 0 && FirstMin(highs, 2) == 0 && FirstMin(highs, 3) == 0 && FirstMin(highs, 4) == 0;
    assert FirstMin(lows, 1) == 0 && FirstMin(lows, 2) == 0 && FirstMin(lows, 3) == 0 && FirstMin(lows, 4) == 0;
    assert FirstMax(highs, 1) == 0 && FirstMax(highs, 2) == 1 && FirstMax(highs, 3) == 2 && FirstMax(highs, 4) == 3;
    assert Width(boxes, 1, 0) == 13.0;
    assert SeedSearch(boxes, 1, 0) == Seeds(false, 0.0, 0, 1);
    assert SeedSearch(boxes, 1, 1) == SeedAxis(boxes, 1, 0, Seeds(false, 0.0, 0, 1));
  }

  lemma OthersOfFour<T>(items: seq<T>)
    requires |items| == 4 && NoDup(items)
    ensures Others(items, items[3], items[0]) == [items[1], items[2]]
  {
    OthersStep([], items[0], items[3], items[0]);
    OthersStep([items[0]], items[1], items[3], items[0]);
    OthersStep([items[0], items[1]], items[2], items[3], items[0]);
    OthersStep([items[0], items[1], items[2]], items[3], items[3], items[0]);
    assert [items[0]] + [items[1]] == [items[0], items[1]] && [items[0], items[1]] + [items[2]] == [items[0], items[1], items[2]];
    assert items == [items[0], items[1], items[2]] + [items[3]];
    assert [items[1]] + [items[2]] == [items[1], items[2]];
  }

  /** The pairs stay together, whichever entry is placed first: the split is a partition. */
  lemma PairsPartition<T>(items: seq<T>, c: Setting<T>)
    requires OnSegments(items, c, PAIRED_SEGMENTS) && c.m == 2
    ensures Boxed(items, c.box, c.d) && Partitioning(items, c)
  {
    hide ChoiceFor, SeedsOf, Boxed, PickNext, OnSegments;
    PairedSeeds(items, c);
    SegmentsDistinct(items, c, PAIRED_SEGMENTS);
    OthersOfFour(items);
    var g, remaining := Groups([items[3]], [items[0]], []), [items[1], items[2]];
    SplitReady(items, c);
    var i, choice := PickNext(g, remaining, c), ChoiceFor(g, remaining, c);
    PairedChoice(items, g, c);
    var next, rest := Place(g, remaining[i], choice), remaining[..i] + remaining[i + 1..];
    ReadyAfter(g, remaining, c, i, choice);
    assert |rest| == 1;
    LastPlaced(next, rest, c);
  }

  lemma SegmentsDistinct<T>(items: seq<T>, c: Setting<T>, segments: seq<(real, real)>)
    requires OnSegments(items, c, segments)
    ensures NoDup(items) && |items| == |segments| >= 2
    ensures |c.bound1.Edges| == c.bound1.Dim <= c.d && |c.bound2.Edges| == c.bound2.Dim <= c.d
  {}

  /** A single entry that is left goes to one of two groups of different size. */
  lemma LastPlaced<T>(g: Groups<T>, rest: seq<T>, c: Setting<T>)
    requires Ready(g, rest, c) && |rest| == 1 && |g.one| != |g.two|
    ensures NoTie(g, rest, c)
  {
    hide Area, Join, JoinOver, PickNext, Preferences;
    TieIsComplete(g, rest, c);
    var i := PickNext(g, rest, c);
    assert i == 0 && rest[..0] + rest[1..] == [];
  }

  lemma PairedChoice<T>(items: seq<T>, g: Groups<T>, c: Setting<T>)
    requires OnSegments(items, c, PAIRED_SEGMENTS) && g == Groups([items[3]], [items[0]], [])
    requires Ready(g, [items[1], items[2]], c)
    ensures ChoiceFor(g, [items[1], items[2]], c) != Nowhere
  {
    hide Area, PickNext;
    var remaining := [items[1], items[2]];
    TieIsComplete(g, remaining, c);
    var e := c.box[remaining[PickNext(g, remaining, c)]];
    var bb1, bb2 := c.box[items[3]], c.box[items[0]];
    assert e == Segment(2.0, 3.0) || e == Segment(10.0, 11.0);
    assert e == Segment(2.0, 3.0) ==> Join(bb1, e) == Segment(2.0, 13.0) && Join(bb2, e) == Segment(0.0, 3.0);
    assert e == Segment(10.0, 11.0) ==> Join(bb1, e) == Segment(10.0, 13.0) && Join(bb2, e) == Segment(0.0, 11.0);
    SegmentArea(2.0, 13.0);
    SegmentArea(0.0, 3.0);
    SegmentArea(10.0, 13.0);
    SegmentArea(0.0, 11.0);
  }
}
