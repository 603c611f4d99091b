/** Ordering the four corners of a detected quadrilateral as top-left,
    top-right, bottom-right, bottom-left, by the extremes of x + y and x - y. */
module Quad {
  import opened Geometry

  datatype Option<T> = None | Some(value: T)

  function MinOf(s: seq<real>): (m: real)
    requires |s| > 0
    ensures m in s && forall i :: 0 <= i < |s| ==> m <= s[i]
  {
    if |s| == 1 then s[0]
    else
      var m := MinOf(s[..|s| - 1]);
      assert forall i :: 0 <= i < |s| - 1 ==> s[..|s| - 1][i] == s[i];
      if s[|s| - 1] < m then s[|s| - 1] else m
  }

  function MaxOf(s: seq<real>): (m: real)
    requires |s| > 0
    ensures m in s && forall i :: 0 <= i < |s| ==> s[i] <= m
  {
    if |s| == 1 then s[0]
    else
      var m := MaxOf(s[..|s| - 1]);
      assert forall i :: 0 <= i < |s| - 1 ==> s[..|s| - 1][i] == s[i];
      if s[|s| - 1] > m then s[|s| - 1] else m
  }

  /** Position of the first occurrence of `v` in `s`, or -1 when there is none. */
  function IndexOf(s: seq<real>, v: real): (i: int)
    ensures -1 <= i < |s|
    ensures i >= 0 ==> s[i] == v && forall j :: 0 <= j < i ==> s[j] != v
    ensures i == -1 ==> v !in s
  {
    if |s| == 0 then -1
    else if s[0] == v then 0
    else
      var j := IndexOf(s[1..], v);
      if j == -1 then -1 else j + 1
  }

  /** The entry at position i, or nothing outside the list (an undefined result). */
  function At(points: seq<Point>, i: int): Option<Point>
  {
    if 0 <= i < |points| then Some(points[i]) else None
  }

  function Sums(points: seq<Point>): (s: seq<real>)
    ensures |s| == |points| && forall i :: 0 <= i < |points| ==> s[i] == points[i].x + points[i].y
  {
    seq(|points|, i requires 0 <= i < |points| => points[i].x + points[i].y)
  }

  function Diffs(points: seq<Point>): (s: seq<real>)
    ensures |s| == |points| && forall i :: 0 <= i < |points| ==> s[i] == points[i].x - points[i].y
  {
    seq(|points|, i requires 0 <= i < |points| => points[i].x - points[i].y)
  }

  /** i is the first position where `s` takes its least value. */
  predicate FirstMin(s: seq<real>, i: int)
  {
    0 <= i < |s| && (forall j :: 0 <= j < |s| ==> s[i] <= s[j]) && (forall j :: 0 <= j < i ==> s[j] > s[i])
  }

  /** i is the first position where `s` takes its greatest value. */
  predicate FirstMax(s: seq<real>, i: int)
  {
    0 <= i < |s| && (forall j :: 0 <= j < |s| ==> s[j] <= s[i]) && (forall j :: 0 <= j < i ==> s[j] < s[i])
  }

  /** The corners in the order top-left, top-right, bottom-right, bottom-left.
      For an empty list the extremes are infinite, no position holds them, and
      each corner is undefined. */
  function OrderQuad(points: seq<Point>): (quad: seq<Option<Point>>)
    ensures |quad| == 4
    ensures |points| == 0 ==> quad == [None, None, None, None]
  {
    if |points| == 0 then [None, None, None, None]
    else
      var sum, diff := Sums(points), Diffs(points);
      var tl := At(points, IndexOf(sum, MinOf(sum)));
      var br := At(points, IndexOf(sum, MaxOf(sum)));
      var tr := At(points, IndexOf(diff, MaxOf(diff)));
      var bl := At(points, IndexOf(diff, MinOf(diff)));
      [tl, tr, br, bl]
  }

  /** The first position of the least value. */
  lemma FirstOfMin(s: seq<real>)
    requires |s| > 0
    ensures FirstMin(s, IndexOf(s, MinOf(s)))
  {
  }

  /** The first position of the greatest value. */
  lemma FirstOfMax(s: seq<real>)
    requires |s| > 0
    ensures FirstMax(s, IndexOf(s, MaxOf(s)))
  {
  }

  /** Every corner is an input point: the top-left one is the first with the
      least x + y, the top-right the first with the greatest x - y, the
      bottom-right the first with the greatest x + y, the bottom-left the
      first with the least x - y. */
  lemma OrderQuadCorners(points: seq<Point>)
    requires |points| > 0
    ensures var quad := OrderQuad(points);
      (forall k :: 0 <= k < 4 ==> quad[k].Some? && quad[k].value in points) &&
      (exists i :: FirstMin(Sums(points), i) && quad[0] == Some(points[i])) &&
      (exists i :: FirstMax(Diffs(points), i) && quad[1] == Some(points[i])) &&
      (exists i :: FirstMax(Sums(points), i) && quad[2] == Some(points[i])) &&
      (exists i :: FirstMin(Diffs(points), i) && quad[3] == Some(points[i]))
  {
    var sum, diff := Sums(points), Diffs(points);
    var quad := OrderQuad(points);
    var tl, tr := IndexOf(sum, MinOf(sum)), IndexOf(diff, MaxOf(diff));
    var br, bl := IndexOf(sum, MaxOf(sum)), IndexOf(diff, MinOf(diff));
    FirstOfMin(sum);
    FirstOfMax(sum);
    FirstOfMin(diff);
    FirstOfMax(diff);
    assert quad == [Some(points[tl]), Some(points[tr]), Some(points[br]), Some(points[bl])];
    assert FirstMin(sum, tl) && FirstMax(diff, tr) && FirstMax(sum, br) && FirstMin(diff, bl);
  }

  /** A list holding four given points once each holds exactly those. */
  lemma FourMembers(points: seq<Point>, a: Point, b: Point, c: Point, d: Point)
    requires multiset(points) == multiset{a, b, c, d}
    ensures |points| == 4 && a in points && b in points && c in points && d in points
    ensures forall i :: 0 <= i < |points| ==> points[i] == a || points[i] == b || points[i] == c || points[i] == d
  {
    assert |multiset(points)| == 4;
    assert forall i :: 0 <= i < |points| ==> points[i] in multiset(points);
    assert a in multiset(points) && b in multiset(points) && c in multiset(points) && d in multiset(points);
  }

  /** `p` is a corner of the axis-aligned square with top-left (l, t) and side s. */
  predicate IsCorner(p: Point, l: real, t: real, s: real)
  {
    p == Point(l, t) || p == Point(l + s, t) || p == Point(l + s, t + s) || p == Point(l, t + s)
  }

  /** Every entry of `points` is a corner of the square. */
  predicate OnlyCorners(points: seq<Point>, l: real, t: real, s: real)
  {
    forall i :: 0 <= i < |points| ==> IsCorner(points[i], l, t, s)
  }

  lemma TopLeftPicked(points: seq<Point>, l: real, t: real, s: real)
    requires s > 0.0 && OnlyCorners(points, l, t, s) && Point(l, t) in points
    ensures At(points, IndexOf(Sums(points), MinOf(Sums(points)))) == Some(Point(l, t))
  {
    var i0 :| 0 <= i0 < |points| && points[i0] == Point(l, t);
    var sum := Sums(points);
    FirstOfMin(sum);
    var a := IndexOf(sum, MinOf(sum));
    assert sum[a] <= sum[i0];
    assert IsCorner(points[a], l, t, s);
  }

  lemma TopRightPicked(points: seq<Point>, l: real, t: real, s: real)
    requires s > 0.0 && OnlyCorners(points, l, t, s) && Point(l + s, t) in points
    ensures At(points, IndexOf(Diffs(points), MaxOf(Diffs(points)))) == Some(Point(l + s, t))
  {
    var i0 :| 0 <= i0 < |points| && points[i0] == Point(l + s, t);
    var diff := Diffs(points);
    FirstOfMax(diff);
    var a := IndexOf(diff, MaxOf(diff));
    assert diff[i0] <= diff[a];
    assert IsCorner(points[a], l, t, s);
  }

  lemma BottomRightPicked(points: seq<Point>, l: real, t: real, s: real)
    requires s > 0.0 && OnlyCorners(points, l, t, s) && Point(l + s, t + s) in points
    ensures At(points, IndexOf(Sums(points), MaxOf(Sums(points)))) == Some(Point(l + s, t + s))
  {
    var i0 :| 0 <= i0 < |points| && points[i0] == Point(l + s, t + s);
    var sum := Sums(points);
    FirstOfMax(sum);
    var a := IndexOf(sum, MaxOf(sum));
    assert sum[i0] <= sum[a];
    assert IsCorner(points[a], l, t, s);
  }

  lemma BottomLeftPicked(points: seq<Point>, l: real, t: real, s: real)
    requires s > 0.0 && OnlyCorners(points, l, t, s) && Point(l, t + s) in points
    ensures At(points, IndexOf(Diffs(points), MinOf(Diffs(points)))) == Some(Point(l, t + s))
  {
    var i0 :| 0 <= i0 < |points| && points[i0] == Point(l, t + s);
    var diff := Diffs(points);
    FirstOfMin(diff);
    var a := IndexOf(diff, MinOf(diff));
    assert diff[a] <= diff[i0];
    assert IsCorner(points[a], l, t, s);
  }

  /** An axis-aligned square with top-left corner (l, t) and side s > 0, its
      corners listed in any order, gives them back as TL, TR, BR, BL. */
  lemma SquareInAnyOrder(points: seq<Point>, l: real, t: real, s: real)
    requires s > 0.0
    requires multiset(points) == multiset{Point(l, t), Point(l + s, t), Point(l + s, t + s), Point(l, t + s)}
    ensures OrderQuad(points) ==
      [Some(Point(l, t)), Some(Point(l + s, t)), Some(Point(l + s, t + s)), Some(Point(l, t + s))]
  {
    FourMembers(points, Point(l, t), Point(l + s, t), Point(l + s, t + s), Point(l, t + s));
    assert OnlyCorners(points, l, t, s);
    TopLeftPicked(points, l, t, s);
    TopRightPicked(points, l, t, s);
    BottomRightPicked(points, l, t, s);
    BottomLeftPicked(points, l, t, s);
  }
}
