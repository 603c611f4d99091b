/** Area of a polygon given by its vertex list, by the shoelace formula. */
module Polygon {
  import opened Geometry

  /** Cross product of two position vectors. */
  function Cross(a: Point, b: Point): real
  {
    a.x * b.y - a.y * b.x
  }

  function Abs(r: real): (a: real)
    ensures a >= 0.0 && (a == r || a == -r)
  {
    if r < 0.0 then -r else r
  }

  /** Term i of the loop: vertex i against the next vertex, wrapping to vertex 0. */
  function Term(q: seq<Point>, i: nat): real
    requires i < |q|
  {
    Cross(q[i], q[(i + 1) % |q|])
  }

  /** Sum of the first n terms, as the loop accumulates them. */
  function Partial(q: seq<Point>, n: nat): real
    requires n <= |q|
  {
    if n == 0 then 0.0 else Partial(q, n - 1) + Term(q, n - 1)
  }

  /** Sum of the cross products along the open chain q[0], q[1], ..., q[|q| - 1]. */
  function Chain(q: seq<Point>): real
  {
    if |q| <= 1 then 0.0 else Chain(q[..|q| - 1]) + Cross(q[|q| - 2], q[|q| - 1])
  }

  /** Twice the signed area: the chain closed by its last edge back to the first vertex. */
  function Shoelace(q: seq<Point>): real
  {
    if |q| == 0 then 0.0 else Chain(q) + Cross(q[|q| - 1], q[0])
  }

  /** The polygon's area. */
  function Area(q: seq<Point>): (a: real)
    ensures a >= 0.0
  {
    Abs(Shoelace(q)) / 2.0
  }

  /** The shoelace loop: the cross products of consecutive vertices, the last
      against the first, summed; the area is half the absolute value. */
  method PolygonArea(q: seq<Point>) returns (area: real)
    ensures area == Area(q)
  {
    area := 0.0;
    for i := 0 to |q|
      invariant area == Partial(q, i)
    {
      var p1 := q[i];
      var p2 := q[(i + 1) % |q|];
      area := area + (p1.x * p2.y - p1.y * p2.x);
    }
    LoopIsShoelace(q);
    area := Abs(area) / 2.0;
  }

  /** Before the last vertex the loop walks the open chain. */
  lemma {:induction false} PartialIsChain(q: seq<Point>, n: nat)
    requires n < |q|
    ensures Partial(q, n) == Chain(q[..n + 1])
    decreases n
  {
    if n > 0 {
      PartialIsChain(q, n - 1);
      var c := q[..n + 1];
      assert c[..n] == q[..n];
      assert c[n - 1] == q[n - 1] && c[n] == q[n];
      assert Chain(c) == Chain(q[..n]) + Cross(q[n - 1], q[n]);
      ModBelow(n, |q|);
      assert Term(q, n - 1) == Cross(q[n - 1], q[n]);
    }
  }

  lemma ModBelow(n: int, m: int)
    requires 0 <= n < m
    ensures n % m == n
  {
  }

  /** The loop computes the shoelace sum. */
  lemma LoopIsShoelace(q: seq<Point>)
    ensures Partial(q, |q|) == Shoelace(q)
  {
    if |q| > 0 {
      var n := |q| - 1;
      PartialIsChain(q, n);
      assert q[..n + 1] == q;
      assert (n + 1) % |q| == 0;
    }
  }

  /** The chain split at its first vertex. */
  lemma {:induction false} ChainFront(a: Point, r: seq<Point>)
    requires |r| > 0
    ensures Chain([a] + r) == Cross(a, r[0]) + Chain(r)
    decreases |r|
  {
    if |r| > 1 {
      var n := |r|;
      ChainFront(a, r[..n - 1]);
      assert ([a] + r)[..n] == [a] + r[..n - 1];
    }
  }

  /** The chain appended one vertex at its end. */
  lemma ChainBack(r: seq<Point>, b: Point)
    requires |r| > 0
    ensures Chain(r + [b]) == Chain(r) + Cross(r[|r| - 1], b)
  {
    assert (r + [b])[..|r|] == r;
  }

  /** Moving the first vertex to the end leaves the shoelace sum unchanged. */
  lemma ShoelaceRotate(q: seq<Point>)
    requires |q| > 0
    ensures Shoelace(q[1..] + [q[0]]) == Shoelace(q)
  {
    if |q| > 1 {
      var r := q[1..];
      assert q == [q[0]] + r;
      ChainFront(q[0], r);
      ChainBack(r, q[0]);
    } else {
      assert q[1..] + [q[0]] == q;
    }
  }

  /** The area does not depend on which vertex the list starts from. */
  lemma {:induction false} AreaRotate(q: seq<Point>, k: nat)
    requires k <= |q|
    ensures Area(q[k..] + q[..k]) == Area(q)
    decreases k
  {
    if k > 0 {
      AreaRotate(q, k - 1);
      var prev := q[k - 1..] + q[..k - 1];
      ShoelaceRotate(prev);
      assert prev[0] == q[k - 1] && prev[1..] == q[k..] + q[..k - 1];
      assert q[..k] == q[..k - 1] + [q[k - 1]];
      assert prev[1..] + [prev[0]] == q[k..] + q[..k];
    } else {
      assert q[0..] + q[..0] == q;
    }
  }

  function Reverse(q: seq<Point>): (r: seq<Point>)
    ensures |r| == |q| && forall i :: 0 <= i < |q| ==> r[i] == q[|q| - 1 - i]
  {
    if |q| == 0 then [] else [q[|q| - 1]] + Reverse(q[..|q| - 1])
  }

  lemma CrossAnti(a: Point, b: Point)
    ensures Cross(a, b) == -Cross(b, a)
  {
  }

  /** Reversing the chain negates its cross products. */
  lemma {:induction false} ChainReverse(q: seq<Point>)
    ensures Chain(Reverse(q)) == -Chain(q)
    decreases |q|
  {
    if |q| > 1 {
      var n := |q|;
      var front := q[..n - 1];
      ChainReverse(front);
      assert Reverse(q) == [q[n - 1]] + Reverse(front);
      ChainFront(q[n - 1], Reverse(front));
      assert Reverse(front)[0] == q[n - 2];
      CrossAnti(q[n - 1], q[n - 2]);
    }
  }

  /** Listing the vertices in the opposite direction leaves the area unchanged. */
  lemma AreaReverse(q: seq<Point>)
    ensures Area(Reverse(q)) == Area(q)
  {
    if |q| > 0 {
      ChainReverse(q);
      var r := Reverse(q);
      assert Shoelace(r) == -Shoelace(q) by {
        assert r[|r| - 1] == q[0] && r[0] == q[|q| - 1];
        CrossAnti(q[0], q[|q| - 1]);
      }
    }
  }

  /** No vertices, no area. */
  lemma AreaEmpty()
    ensures Area([]) == 0.0
  {
  }

  /** The shoelace sum of a quadrilateral: its four edges. */
  lemma ShoelaceFour(a: Point, b: Point, c: Point, d: Point)
    ensures Shoelace([a, b, c, d]) == Cross(a, b) + Cross(b, c) + Cross(c, d) + Cross(d, a)
  {
    var q := [a, b, c, d];
    assert q[..3] == [a, b, c];
    assert q[..3][..2] == [a, b];
    assert q[..3][..2][..1] == [a];
    assert Chain([a, b]) == Cross(a, b);
    assert Chain([a, b, c]) == Cross(a, b) + Cross(b, c);
    assert Chain(q) == Cross(a, b) + Cross(b, c) + Cross(c, d);
  }

  /** The unit square has area 1. */
  lemma AreaUnitSquare(a: Point, b: Point, c: Point, d: Point)
    requires a == Point(0.0, 0.0) && b == Point(1.0, 0.0) && c == Point(1.0, 1.0) && d == Point(0.0, 1.0)
    ensures Area([a, b, c, d]) == 1.0
  {
    ShoelaceFour(a, b, c, d);
  }
}
