/** Raster geometry of the labeller: pixel i of an image `w` pixels wide sits at
    column i % w and row i / w; two pixels touch when one is directly below or
    directly right of the other (4-connectivity), and two foreground pixels are
    connected when a chain of touching foreground pixels joins them. */
module Grid {
  import opened Pixels

  /** `q` is the pixel directly below `p`, or directly right of `p` in the
      same row (a pixel in column 0 has no left neighbour). */
  predicate Adjacent(w: nat, p: int, q: int)
  {
    w > 0 && 0 <= p && (q == p + w || (q == p + 1 && q % w != 0))
  }

  /** `p` and `q` touch, in either direction. */
  predicate Neighbours(w: nat, p: int, q: int)
  {
    Adjacent(w, p, q) || Adjacent(w, q, p)
  }

  /** Pixel `i` is a foreground pixel of the mask. */
  predicate Fg(binary: seq<Byte>, i: int)
  {
    0 <= i < |binary| && binary[i] != 0
  }

  /** A non-empty chain of foreground pixels, each touching the next. */
  ghost predicate IsPath(binary: seq<Byte>, w: nat, path: seq<int>)
  {
    |path| > 0 &&
    (forall k :: 0 <= k < |path| ==> Fg(binary, path[k])) &&
    (forall k :: 0 <= k < |path| - 1 ==> Neighbours(w, path[k], path[k + 1]))
  }

  /** Some chain of touching foreground pixels leads from `p` to `q`. */
  ghost predicate Connected(binary: seq<Byte>, w: nat, p: int, q: int)
  {
    exists path :: IsPath(binary, w, path) && path[0] == p && path[|path| - 1] == q
  }

  /** The pixel at column x of row y of an image w pixels wide. */
  lemma RowCol(w: nat, y: nat, x: nat)
    requires x < w
    ensures (y * w + x) % w == x && (y * w + x) / w == y
  {
    var n := y * w + x;
    var q, r := n / w, n % w;
    assert (y - q) * w == r - x;
    if y > q {
      MulAtLeast(y - q, w);
    } else if y < q {
      MulAtLeast(q - y, w);
    }
  }

  lemma MulAtLeast(k: int, w: nat)
    requires k >= 1
    ensures k * w >= w
  {
    assert k * w == (k - 1) * w + w;
    assert (k - 1) * w >= 0;
  }

  /** Every row y of an image of h rows lies inside it. */
  lemma RowInImage(w: nat, h: nat, y: nat)
    requires y < h
    ensures y * w + w <= w * h
  {
    assert y * w + w == (y + 1) * w;
    assert (y + 1) * w <= h * w;
  }

  /** Touching means: same column and the next row, or same row and the next column. */
  lemma AdjacentMeansTouching(w: nat, p: nat, q: nat)
    requires w > 0
    ensures Adjacent(w, p, q) <==>
      (q % w == p % w && q / w == p / w + 1) || (q / w == p / w && q % w == p % w + 1)
  {
    var y, x := p / w, p % w;
    assert p == y * w + x;
    RowCol(w, y + 1, x);
    assert p + w == (y + 1) * w + x;
    if x + 1 < w {
      RowCol(w, y, x + 1);
    } else {
      RowCol(w, y + 1, 0);
      assert p + 1 == (y + 1) * w + 0;
    }
    var qy, qx := q / w, q % w;
    assert q == qy * w + qx;
    if qx == x && qy == y + 1 {
      assert q == p + w;
    }
    if qy == y && qx == x + 1 {
      assert q == p + 1;
    }
  }

  /** Every foreground pixel is connected to itself. */
  lemma ConnectedRefl(binary: seq<Byte>, w: nat, p: int)
    requires Fg(binary, p)
    ensures Connected(binary, w, p, p)
  {
    assert IsPath(binary, w, [p]);
  }

  /** Two touching foreground pixels are connected. */
  lemma ConnectedStep(binary: seq<Byte>, w: nat, p: int, q: int)
    requires Fg(binary, p) && Fg(binary, q) && Neighbours(w, p, q)
    ensures Connected(binary, w, p, q)
  {
    assert IsPath(binary, w, [p, q]);
  }

  /** Connectivity does not depend on the direction of the chain. */
  lemma ConnectedSym(binary: seq<Byte>, w: nat, p: int, q: int)
    requires Connected(binary, w, p, q)
    ensures Connected(binary, w, q, p)
  {
    var path :| IsPath(binary, w, path) && path[0] == p && path[|path| - 1] == q;
    var n := |path|;
    var back := seq(n, k requires 0 <= k < n => path[n - 1 - k]);
    forall k | 0 <= k < n - 1 ensures Neighbours(w, back[k], back[k + 1]) {
      assert back[k] == path[n - 1 - k] && back[k + 1] == path[n - 2 - k];
    }
    assert IsPath(binary, w, back);
  }

  /** Two chains meeting at a pixel join into one. */
  lemma ConnectedTrans(binary: seq<Byte>, w: nat, p: int, q: int, r: int)
    requires Connected(binary, w, p, q) && Connected(binary, w, q, r)
    ensures Connected(binary, w, p, r)
  {
    var a :| IsPath(binary, w, a) && a[0] == p && a[|a| - 1] == q;
    var b :| IsPath(binary, w, b) && b[0] == q && b[|b| - 1] == r;
    var path := a + b[1..];
    assert forall k :: 0 <= k < |path| ==> path[k] == (if k < |a| then a[k] else b[k - |a| + 1]);
    assert forall k :: 0 <= k < |path| - 1 ==> Neighbours(w, path[k], path[k + 1]) by {
      forall k | 0 <= k < |path| - 1 ensures Neighbours(w, path[k], path[k + 1]) {
        if k == |a| - 1 {
          assert path[k] == b[0] && path[k + 1] == b[1];
        }
      }
    }
    assert IsPath(binary, w, path);
  }
}
