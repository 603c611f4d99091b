/** Connected-component labelling of a binary mask (4-connectivity): a raster
    pass hands out provisional labels from 2 upward and records, in a union-find
    forest, which labels meet; a resolution pass replaces every label by its
    root and gathers one statistics record per root. */
module Labeling {
  import opened Pixels
  import opened Grid
  import opened UnionFind
  import opened ComponentStats

  /** Label of the pixel above the next pixel |P|, or 0 in the first row. */
  function North(P: seq<int>, w: nat): (n: int)
    requires w > 0
    ensures |P| < w ==> n == 0
    ensures |P| >= w ==> n == P[|P| - w]
  {
    if |P| >= w then P[|P| - w] else 0
  }

  /** Label of the pixel left of the next pixel |P|, or 0 in the first column. */
  function West(P: seq<int>, w: nat): (l: int)
    requires w > 0
    ensures |P| % w == 0 ==> l == 0
    ensures |P| % w != 0 ==> l == P[|P| - 1]
  {
    if |P| % w != 0 then P[|P| - 1] else 0
  }

  /** Provisional labels `P` of the first |P| pixels: 0 exactly on background,
      a table label from 2 upward elsewhere, and no label has a root below 2. */
  ghost predicate LabelsInRange(binary: seq<Byte>, P: seq<int>, R: seq<int>)
  {
    |P| <= |binary| && |R| >= 2 &&
    (forall l :: 2 <= l < |R| ==> 2 <= R[l] < |R|) &&
    (forall i :: 0 <= i < |P| ==> (P[i] == 0 <==> binary[i] == 0)) &&
    (forall i :: 0 <= i < |P| && binary[i] != 0 ==> 2 <= P[i] < |R|)
  }

  /** Touching foreground pixels already labelled have labels of one root. */
  ghost predicate AdjacentAgree(binary: seq<Byte>, w: nat, P: seq<int>, R: seq<int>)
    requires LabelsInRange(binary, P, R)
  {
    forall p, q :: 0 <= p < |P| && 0 <= q < |P| && binary[p] != 0 && binary[q] != 0 && Adjacent(w, p, q) ==>
      R[P[p]] == R[P[q]]
  }

  /** Labelled foreground pixels whose labels share a root are connected. */
  ghost predicate RootsConnect(binary: seq<Byte>, w: nat, P: seq<int>, R: seq<int>)
    requires LabelsInRange(binary, P, R)
  {
    forall p, q :: 0 <= p < |P| && 0 <= q < |P| && binary[p] != 0 && binary[q] != 0 && R[P[p]] == R[P[q]] ==>
      Connected(binary, w, p, q)
  }

  /** The invariant of the raster pass after |P| pixels, with forest roots `R`. */
  ghost predicate Provisional(binary: seq<Byte>, w: nat, P: seq<int>, R: seq<int>)
  {
    LabelsInRange(binary, P, R) && AdjacentAgree(binary, w, P, R) && RootsConnect(binary, w, P, R)
  }

  /** The pixels North and West read, when present, touch the next pixel. */
  lemma NeighboursRead(w: nat, P: seq<int>)
    requires w > 0
    ensures |P| >= w ==> Adjacent(w, |P| - w, |P|)
    ensures |P| % w != 0 ==> Adjacent(w, |P| - 1, |P|)
  {
  }

  /** The only labelled pixels touching the next pixel are those above and to the left. */
  lemma EarlierNeighbour(w: nat, P: seq<int>, p: int)
    requires 0 <= p < |P| && Adjacent(w, p, |P|)
    ensures (|P| >= w && p == |P| - w) || (|P| % w != 0 && p == |P| - 1)
  {
  }

  /** A background pixel gets label 0 and changes nothing else. */
  lemma StepBackground(binary: seq<Byte>, w: nat, P: seq<int>, R: seq<int>)
    requires Provisional(binary, w, P, R) && |P| < |binary| && binary[|P|] == 0
    ensures Provisional(binary, w, P + [0], R)
  {
    var P' := P + [0];
    assert forall i :: 0 <= i < |P| ==> P'[i] == P[i];
    assert LabelsInRange(binary, P', R);
  }

  /** A foreground pixel with no labelled foreground pixel above or to the left
      opens a fresh label, a new singleton set of the forest. */
  lemma StepFresh(binary: seq<Byte>, w: nat, P: seq<int>, R: seq<int>)
    requires w > 0 && Provisional(binary, w, P, R) && |P| < |binary| && binary[|P|] != 0
    requires North(P, w) == 0 && West(P, w) == 0
    ensures Provisional(binary, w, P + [|R|], R + [|R|])
  {
    var idx := |P|;
    var P', R' := P + [|R|], R + [|R|];
    assert forall i :: 0 <= i < |P| ==> P'[i] == P[i];
    assert forall l :: 0 <= l < |R| ==> R'[l] == R[l];
    assert LabelsInRange(binary, P', R');
    forall p, q | 0 <= p < |P'| && 0 <= q < |P'| && binary[p] != 0 && binary[q] != 0 && Adjacent(w, p, q)
      ensures R'[P'[p]] == R'[P'[q]]
    {
      if q == idx {
        EarlierNeighbour(w, P, p);
      }
    }
    forall p, q | 0 <= p < |P'| && 0 <= q < |P'| && binary[p] != 0 && binary[q] != 0 && R'[P'[p]] == R'[P'[q]]
      ensures Connected(binary, w, p, q)
    {
      if p == idx && q == idx {
        ConnectedRefl(binary, w, idx);
      }
    }
  }

  /** A foreground pixel whose labelled neighbours above and to the left carry
      the one label `l` takes that label. */
  lemma StepCopy(binary: seq<Byte>, w: nat, P: seq<int>, R: seq<int>, l: int)
    requires w > 0 && Provisional(binary, w, P, R) && |P| < |binary| && binary[|P|] != 0
    requires l != 0 && (North(P, w) == 0 || North(P, w) == l) && (West(P, w) == 0 || West(P, w) == l)
    requires North(P, w) == l || West(P, w) == l
    ensures Provisional(binary, w, P + [l], R)
  {
    var idx := |P|;
    var src := if North(P, w) == l then idx - w else idx - 1;
    CopyAgrees(binary, w, P, R, l);
    CopyConnects(binary, w, P, R, l, src);
  }

  /** The agreement half of StepCopy: the labelled neighbours of the new pixel
      carry its label. */
  lemma CopyAgrees(binary: seq<Byte>, w: nat, P: seq<int>, R: seq<int>, l: int)
    requires w > 0 && Provisional(binary, w, P, R) && |P| < |binary| && binary[|P|] != 0
    requires l != 0 && (North(P, w) == 0 || North(P, w) == l) && (West(P, w) == 0 || West(P, w) == l)
    requires North(P, w) == l || West(P, w) == l
    ensures LabelsInRange(binary, P + [l], R) && AdjacentAgree(binary, w, P + [l], R)
  {
    var idx := |P|;
    var P' := P + [l];
    assert forall i :: 0 <= i < |P| ==> P'[i] == P[i];
    assert LabelsInRange(binary, P', R);
    forall p, q | 0 <= p < |P'| && 0 <= q < |P'| && binary[p] != 0 && binary[q] != 0 && Adjacent(w, p, q)
      ensures R[P'[p]] == R[P'[q]]
    {
      if q == idx {
        EarlierNeighbour(w, P, p);
      }
    }
  }

  /** The connectivity half of StepCopy: the new pixel touches `src`, which
      carries its label. */
  lemma CopyConnects(binary: seq<Byte>, w: nat, P: seq<int>, R: seq<int>, l: int, src: int)
    requires Provisional(binary, w, P, R) && |P| < |binary| && binary[|P|] != 0
    requires 0 <= src < |P| && P[src] == l && binary[src] != 0 && Neighbours(w, src, |P|)
    ensures LabelsInRange(binary, P + [l], R) && RootsConnect(binary, w, P + [l], R)
  {
    var idx := |P|;
    var P' := P + [l];
    assert forall i :: 0 <= i < |P| ==> P'[i] == P[i];
    assert LabelsInRange(binary, P', R);
    ConnectedStep(binary, w, src, idx);
    ConnectedSym(binary, w, src, idx);
    forall p, q | 0 <= p < |P'| && 0 <= q < |P'| && binary[p] != 0 && binary[q] != 0 && R[P'[p]] == R[P'[q]]
      ensures Connected(binary, w, p, q)
    {
      if p == idx && q == idx {
        ConnectedRefl(binary, w, idx);
      } else if p == idx {
        ConnectedTrans(binary, w, idx, src, q);
      } else if q == idx {
        ConnectedTrans(binary, w, p, src, idx);
      }
    }
  }

  /** Roots after linking the root of label `b` under the root of label `a`. */
  ghost predicate Merged(R: seq<int>, R': seq<int>, a: int, b: int)
    requires 0 <= a < |R| && 0 <= b < |R|
  {
    |R'| == |R| && forall i :: 0 <= i < |R| ==> R'[i] == if R[i] == R[b] then R[a] else R[i]
  }

  /** After a merge, labelled pixels of one root were of one root before, or of
      the two merged roots. */
  lemma MergeConnects(binary: seq<Byte>, w: nat, P: seq<int>, R: seq<int>, R': seq<int>, a: int, b: int)
    requires Provisional(binary, w, P, R)
    requires 0 <= a < |P| && 0 <= b < |P| && binary[a] != 0 && binary[b] != 0 && Merged(R, R', P[a], P[b])
    requires Connected(binary, w, a, b)
    ensures RootsConnect(binary, w, P, R')
  {
    forall p, q | 0 <= p < |P| && 0 <= q < |P| && binary[p] != 0 && binary[q] != 0 && R'[P[p]] == R'[P[q]]
      ensures Connected(binary, w, p, q)
    {
      var rp, rq := R[P[p]], R[P[q]];
      if rp != rq {
        if rp == R[P[b]] {
          assert rq == R[P[a]];
          ConnectedSym(binary, w, a, b);
          ConnectedTrans(binary, w, p, b, a);
          ConnectedTrans(binary, w, p, a, q);
        } else {
          assert rp == R[P[a]] && rq == R[P[b]];
          ConnectedTrans(binary, w, p, a, b);
          ConnectedTrans(binary, w, p, b, q);
        }
      }
    }
  }

  /** A foreground pixel whose neighbours above and to the left are both
      labelled foreground takes the label from above; the two sets are then
      joined, the root of the left label linked under the root of the upper one. */
  lemma StepMerge(binary: seq<Byte>, w: nat, P: seq<int>, R: seq<int>, R': seq<int>)
    requires w > 0 && Provisional(binary, w, P, R) && |P| < |binary| && binary[|P|] != 0
    requires North(P, w) != 0 && West(P, w) != 0
    requires Merged(R, R', P[|P| - w], P[|P| - 1])
    ensures Provisional(binary, w, P + [North(P, w)], R')
  {
    var idx := |P|;
    var a, b := idx - w, idx - 1;
    var l := P[a];
    var P' := P + [l];
    assert forall i :: 0 <= i < |P| ==> P'[i] == P[i];
    assert R'[l] == R[l];
    assert LabelsInRange(binary, P', R');
    forall p, q | 0 <= p < |P'| && 0 <= q < |P'| && binary[p] != 0 && binary[q] != 0 && Adjacent(w, p, q)
      ensures R'[P'[p]] == R'[P'[q]]
    {
      if q == idx {
        EarlierNeighbour(w, P, p);
      } else {
        assert R[P[p]] == R[P[q]];
      }
    }
    ConnectedStep(binary, w, a, idx);
    ConnectedStep(binary, w, idx, b);
    ConnectedTrans(binary, w, a, idx, b);
    MergeConnects(binary, w, P, R, R', a, b);
    forall p, q | 0 <= p < |P'| && 0 <= q < |P'| && binary[p] != 0 && binary[q] != 0 && R'[P'[p]] == R'[P'[q]]
      ensures Connected(binary, w, p, q)
    {
      if p == idx || q == idx {
        ConnectedSym(binary, w, a, idx);
        if p != idx {
          assert R'[P[p]] == R'[l];
          ConnectedTrans(binary, w, p, a, idx);
        } else if q != idx {
          assert R'[P[q]] == R'[l];
          ConnectedSym(binary, w, q, a);
          ConnectedTrans(binary, w, idx, a, q);
        } else {
          ConnectedRefl(binary, w, idx);
        }
      } else {
        assert P'[p] == P[p] && P'[q] == P[q];
      }
    }
  }

  /** The raster pass: pixels in row-major order, each labelled by LabelPixel. */
  method RasterPass(binary: seq<Byte>, width: nat, height: nat, labels: array<int>, f: Forest)
    requires |binary| == width * height && labels.Length == |binary|
    requires f.Valid() && f.root == [0, 1]
    modifies labels, f
    ensures f.Valid() && Provisional(binary, width, labels[..], f.root)
  {
    var nextLabel := 1;
    assert Provisional(binary, width, labels[..0], f.root);
    for y := 0 to height
      invariant f.Valid() && nextLabel == |f.parent| - 1
      invariant y * width <= |binary|
      invariant Provisional(binary, width, labels[..y * width], f.root)
    {
      RowInImage(width, height, y);
      nextLabel := RasterRow(binary, width, labels, f, y, nextLabel);
      assert y * width + width == (y + 1) * width;
    }
    assert labels[..] == labels[..height * width];
  }

  /** Row y of the raster pass, left to right. */
  method RasterRow(binary: seq<Byte>, width: nat, labels: array<int>, f: Forest, y: nat, nextLabel: int)
    returns (next: int)
    requires labels.Length == |binary| && y * width + width <= |binary|
    requires f.Valid() && nextLabel == |f.parent| - 1
    requires Provisional(binary, width, labels[..y * width], f.root)
    modifies labels, f
    ensures f.Valid() && next == |f.parent| - 1
    ensures Provisional(binary, width, labels[..y * width + width], f.root)
  {
    var row := y * width;
    next := nextLabel;
    for x := 0 to width
      invariant f.Valid() && next == |f.parent| - 1
      invariant Provisional(binary, width, labels[..row + x], f.root)
    {
      RowCol(width, y, x);
      if y > 0 { MulAtLeast(y, width); }
      next := RasterPixel(binary, width, labels, f, row + x, y > 0, x > 0, next);
    }
  }

  /** One iteration of the raster pass at pixel idx: read the labels above
      and to the left, label the pixel, store the label. */
  method RasterPixel(binary: seq<Byte>, width: nat, labels: array<int>, f: Forest, idx: nat,
                     hasNorth: bool, hasWest: bool, nextLabel: int) returns (next: int)
    requires width > 0 && labels.Length == |binary| && idx < |binary|
    requires hasNorth == (idx >= width) && hasWest == (idx % width != 0)
    requires f.Valid() && nextLabel == |f.parent| - 1
    requires Provisional(binary, width, labels[..idx], f.root)
    modifies labels, f
    ensures f.Valid() && next == |f.parent| - 1
    ensures Provisional(binary, width, labels[..idx + 1], f.root)
  {
    ghost var P, R := labels[..idx], f.root;
    var n := if hasNorth then labels[idx - width] else 0;
    var w := if hasWest then labels[idx - 1] else 0;
    assert n == North(P, width) && w == West(P, width);
    var v;
    v, next := LabelPixel(binary, width, P, f, idx, n, w, nextLabel);
    labels[idx] := v;
    assert labels[..idx + 1] == P + [v];
    PixelRuleKeeps(binary, width, P, R, f.root, v);
  }

  /** The labelling rule for the next pixel |P|, with labels `P` so far, forest
      roots `R` before and `R'` after, and `v` the label it gets. Background
      gets 0. A foreground pixel with no labelled neighbour above or to the left
      opens the next label; with one such label it copies it; with two it takes
      the upper one and, when they differ, joins the two sets. */
  ghost predicate PixelRule(binary: seq<Byte>, w: nat, P: seq<int>, R: seq<int>, R': seq<int>, v: int)
    requires w > 0 && LabelsInRange(binary, P, R) && |P| < |binary|
  {
    var n, west := North(P, w), West(P, w);
    if binary[|P|] == 0 then v == 0 && R' == R
    else if n == 0 && west == 0 then v == |R| && R' == R + [|R|]
    else if west == 0 then v == n && R' == R
    else if n == 0 then v == west && R' == R
    else v == n && if n == west then R' == R else Merged(R, R', n, west)
  }

  /** The labelling rule keeps the invariant of the raster pass. */
  lemma PixelRuleKeeps(binary: seq<Byte>, w: nat, P: seq<int>, R: seq<int>, R': seq<int>, v: int)
    requires w > 0 && Provisional(binary, w, P, R) && |P| < |binary|
    requires PixelRule(binary, w, P, R, R', v)
    ensures Provisional(binary, w, P + [v], R')
  {
    var n, west := North(P, w), West(P, w);
    if binary[|P|] == 0 {
      StepBackground(binary, w, P, R);
    } else if n == 0 && west == 0 {
      StepFresh(binary, w, P, R);
    } else if west == 0 || n == 0 || n == west {
      StepCopy(binary, w, P, R, v);
    } else {
      StepMerge(binary, w, P, R, R');
    }
  }

  /** One pixel of the raster pass, by the labelling rule: `P` holds the
      labels so far, `n` and `w` the labels above and to the left (0 when absent). */
  method LabelPixel(binary: seq<Byte>, width: nat, ghost P: seq<int>, f: Forest, idx: nat,
                    n: int, w: int, nextLabel: int) returns (v: int, next: int)
    requires width > 0 && idx == |P| && idx < |binary|
    requires n == North(P, width) && w == West(P, width)
    requires f.Valid() && nextLabel == |f.parent| - 1
    requires LabelsInRange(binary, P, f.root)
    modifies f
    ensures f.Valid() && next == |f.parent| - 1
    ensures PixelRule(binary, width, P, old(f.root), f.root, v)
  {
    next := nextLabel;
    if binary[idx] == 0 {
      return 0, next;
    }
    if n == 0 && w == 0 {
      next := next + 1;
      f.MakeSet(next);
      v := next;
    } else if n != 0 && w == 0 {
      v := n;
    } else if n == 0 && w != 0 {
      v := w;
    } else {
      v := n;
      if n != w {
        f.Unite(n, w);
      }
    }
  }

  /** Every provisional label replaced by the root of its set; background stays 0. */
  function Resolved(P: seq<int>, R: seq<int>): (F: seq<int>)
    requires forall i :: 0 <= i < |P| && P[i] != 0 ==> 0 <= P[i] < |R|
    ensures |F| == |P|
  {
    seq(|P|, i requires 0 <= i < |P| => if P[i] == 0 then 0 else R[P[i]])
  }

  /** Pixel i of the resolved labels: background stays 0, any other label
      becomes the root of its set. */
  lemma ResolvedAt(P: seq<int>, R: seq<int>, i: int)
    requires forall i :: 0 <= i < |P| && P[i] != 0 ==> 0 <= P[i] < |R|
    requires 0 <= i < |P|
    ensures P[i] == 0 ==> Resolved(P, R)[i] == 0
    ensures P[i] != 0 ==> Resolved(P, R)[i] == R[P[i]]
  {
  }

  /** The resolution pass: every label is replaced by its root, which then
      takes the pixel into its record; records are listed in the order their
      roots were first met. */
  method ResolvePass(labels: array<int>, f: Forest, width: nat) returns (components: seq<Component>)
    requires f.Valid() && (labels.Length == 0 || width > 0)
    requires forall i :: 0 <= i < labels.Length ==>
      labels[i] == 0 || (0 < labels[i] < |f.parent| && f.root[labels[i]] != 0)
    modifies labels, f
    ensures f.Valid() && f.root == old(f.root)
    ensures labels[..] == Resolved(old(labels[..]), old(f.root))
    ensures components == Components(labels[..], width)
  {
    var compMap := ResolveLabels(labels, f, width);
    var order := compMap.order;
    components := seq(|order|, k requires 0 <= k < |order| => compMap.comps[order[k]]);
  }

  /** The loop of the resolution pass, pixel by pixel, with the map of records
      it builds. */
  method ResolveLabels(labels: array<int>, f: Forest, width: nat) returns (compMap: Tally)
    requires f.Valid() && (labels.Length == 0 || width > 0)
    requires forall i :: 0 <= i < labels.Length ==>
      labels[i] == 0 || (0 < labels[i] < |f.parent| && f.root[labels[i]] != 0)
    modifies labels, f
    ensures f.Valid() && f.root == old(f.root)
    ensures labels[..] == Resolved(old(labels[..]), old(f.root))
    ensures compMap == TallyOf(labels[..], width)
  {
    ghost var P, R := labels[..], f.root;
    ghost var F := Resolved(P, R);
    compMap := Tally(map[], []);
    for i := 0 to labels.Length
      invariant f.Valid() && f.root == R && |f.parent| == |R|
      invariant forall j :: 0 <= j < i ==> labels[j] == F[j]
      invariant forall j :: i <= j < labels.Length ==> labels[j] == P[j]
      invariant compMap == TallyOf(F[..i], width)
    {
      compMap := ResolvePixel(labels, f, width, i, compMap, F);
    }
    assert labels[..] == F && F[..labels.Length] == F;
  }

  /** One pixel of the resolution pass: a labelled pixel takes the root of
      its label and is added to that root's record. */
  method ResolvePixel(labels: array<int>, f: Forest, width: nat, i: nat, compMap: Tally, ghost F: seq<int>)
    returns (t: Tally)
    requires f.Valid() && i < labels.Length && width > 0 && |F| == labels.Length
    requires labels[i] == 0 || (0 < labels[i] < |f.parent| && f.root[labels[i]] != 0)
    requires F[i] == if labels[i] == 0 then 0 else f.root[labels[i]]
    requires compMap == TallyOf(F[..i], width)
    modifies labels, f
    ensures f.Valid() && f.root == old(f.root) && |f.parent| == old(|f.parent|)
    ensures labels[..] == old(labels[..])[i := F[i]]
    ensures t == TallyOf(F[..i + 1], width)
  {
    TallyOfTake(F, width, i);
    t := compMap;
    var l := labels[i];
    if l == 0 {
      return;
    }
    var root := f.Find(l);
    labels[i] := root;
    t := AddPixelToRecord(t, root, i % width, i / width);
  }

  /** The body of the resolution pass for one pixel (x, y) with root `root`:
      fetch its record, or create and insert an empty one at (x, y); then count
      the pixel, widen the box to hold it and add it to the coordinate sums. */
  method AddPixelToRecord(compMap: Tally, root: int, x: int, y: int) returns (t: Tally)
    ensures t == Visit(compMap, root, x, y)
  {
    var c;
    t := compMap;
    if root in t.comps {
      c := t.comps[root];
    } else {
      c := Component(root, 0, x, y, x, y, 0, 0);
      t := Tally(t.comps[root := c], t.order + [root]);
    }
    c := c.(area := c.area + 1);
    if x < c.minx { c := c.(minx := x); }
    if y < c.miny { c := c.(miny := y); }
    if x > c.maxx { c := c.(maxx := x); }
    if y > c.maxy { c := c.(maxy := y); }
    c := c.(sumx := c.sumx + x, sumy := c.sumy + y);
    t := t.(comps := t.comps[root := c]);
  }

  /** Final labels that agree on touching foreground pixels agree along every chain. */
  lemma {:induction false} PathKeepsLabel(binary: seq<Byte>, w: nat, F: seq<int>, path: seq<int>)
    requires |F| == |binary| && IsPath(binary, w, path)
    requires forall p, q :: 0 <= p < |F| && 0 <= q < |F| && binary[p] != 0 && binary[q] != 0 && Neighbours(w, p, q) ==>
      F[p] == F[q]
    ensures F[path[0]] == F[path[|path| - 1]]
    decreases |path|
  {
    var n := |path|;
    if n > 1 {
      var front := path[..n - 1];
      assert IsPath(binary, w, front);
      PathKeepsLabel(binary, w, F, front);
      assert Fg(binary, path[n - 2]) && Fg(binary, path[n - 1]) && Neighbours(w, path[n - 2], path[n - 1]);
    }
  }

  /** What the raster pass guarantees, read off the resolved labels: 0 exactly
      on background, a label from 2 upward elsewhere, one label on touching
      foreground pixels, and one label exactly on each connected set. */
  lemma FinalLabels(binary: seq<Byte>, w: nat, P: seq<int>, R: seq<int>)
    requires Provisional(binary, w, P, R) && |P| == |binary|
    ensures forall i :: 0 <= i < |P| && P[i] != 0 ==> 0 <= P[i] < |R|
    ensures var F := Resolved(P, R);
      (forall i :: 0 <= i < |F| ==> (F[i] == 0 <==> binary[i] == 0)) &&
      (forall i :: 0 <= i < |F| && binary[i] != 0 ==> F[i] >= 2) &&
      (forall p, q :: 0 <= p < |F| && 0 <= q < |F| && binary[p] != 0 && binary[q] != 0 && Neighbours(w, p, q) ==>
         F[p] == F[q]) &&
      (forall p, q :: 0 <= p < |F| && 0 <= q < |F| && binary[p] != 0 && binary[q] != 0 ==>
         (F[p] == F[q] <==> Connected(binary, w, p, q)))
  {
    var F := Resolved(P, R);
    assert forall i :: 0 <= i < |F| && binary[i] != 0 ==> F[i] == R[P[i]] >= 2;
    forall p, q | 0 <= p < |F| && 0 <= q < |F| && binary[p] != 0 && binary[q] != 0 && Neighbours(w, p, q)
      ensures F[p] == F[q]
    {
      if !Adjacent(w, p, q) {
        assert Adjacent(w, q, p);
      }
    }
    forall p, q | 0 <= p < |F| && 0 <= q < |F| && binary[p] != 0 && binary[q] != 0 && Connected(binary, w, p, q)
      ensures F[p] == F[q]
    {
      var path :| IsPath(binary, w, path) && path[0] == p && path[|path| - 1] == q;
      PathKeepsLabel(binary, w, F, path);
    }
  }

  /** The labeller: a binary mask of `height` rows of `width` pixels in, a label
      per pixel and one record per connected foreground set out. */
  method Ccl(binary: seq<Byte>, width: nat, height: nat) returns (labels: seq<int>, components: seq<Component>)
    requires |binary| == width * height
    ensures |labels| == |binary| && (|labels| == 0 || width > 0)
    ensures forall i :: 0 <= i < |labels| ==> (labels[i] == 0 <==> binary[i] == 0)
    ensures forall i :: 0 <= i < |labels| && binary[i] != 0 ==> labels[i] >= 2
    ensures forall p, q :: 0 <= p < |labels| && 0 <= q < |labels| && binary[p] != 0 && binary[q] != 0 && Neighbours(width, p, q) ==>
      labels[p] == labels[q]
    ensures forall p, q :: 0 <= p < |labels| && 0 <= q < |labels| && binary[p] != 0 && binary[q] != 0 ==>
      (labels[p] == labels[q] <==> Connected(binary, width, p, q))
    ensures components == Components(labels, width)
  {
    var buf := new int[width * height];
    var f := new Forest();
    RasterPass(binary, width, height, buf, f);
    ghost var P, R := buf[..], f.root;
    FinalLabels(binary, width, P, R);
    components := ResolvePass(buf, f, width);
    labels := buf[..];
  }
}
