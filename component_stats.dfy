/** The statistics of the labeller's resolution pass, as a specification over
    the final label map: for every label, in order of its first pixel, one
    component record with the pixel count, bounding box and coordinate sums. */
module ComponentStats {
  import opened Pixels

  /** One connected component, as the labeller publishes it. */
  datatype Component = Component(id: int, area: nat, minx: int, miny: int, maxx: int, maxy: int, sumx: int, sumy: int)

  /** The running map from label to component, and the order in which its keys
      were inserted. */
  datatype Tally = Tally(comps: map<int, Component>, order: seq<int>)

  /** A new record for label `id`, first seen at (x, y), before its pixel is added. */
  function Start(id: int, x: int, y: int): Component
  {
    Component(id, 0, x, y, x, y, 0, 0)
  }

  /** Add pixel (x, y) to a record: one more pixel, the box widened to hold it,
      the coordinates added to the sums. */
  function AddPixel(c: Component, x: int, y: int): Component
  {
    c.(area := c.area + 1,
       minx := if x < c.minx then x else c.minx,
       miny := if y < c.miny then y else c.miny,
       maxx := if x > c.maxx then x else c.maxx,
       maxy := if y > c.maxy then y else c.maxy,
       sumx := c.sumx + x, sumy := c.sumy + y)
  }

  predicate NoDuplicates(s: seq<int>)
  {
    forall a, b :: 0 <= a < b < |s| ==> s[a] != s[b]
  }

  /** One foreground pixel (x, y) with label `l` added to the tally: the record
      of `l`, created here if this is its first pixel, takes the pixel. */
  function Visit(t: Tally, l: int, x: int, y: int): Tally
  {
    var c := if l in t.comps then t.comps[l] else Start(l, x, y);
    Tally(t.comps[l := AddPixel(c, x, y)], if l in t.comps then t.order else t.order + [l])
  }

  /** A visit gives label l a record holding one more pixel, the pixel inside
      its box, and leaves every other record alone; a new label is listed last. */
  lemma VisitRecord(t: Tally, l: int, x: int, y: int)
    ensures var r := Visit(t, l, x, y);
      r.comps.Keys == t.comps.Keys + {l} &&
      (forall k :: k in t.comps && k != l ==> r.comps[k] == t.comps[k]) &&
      r.comps[l].id == (if l in t.comps then t.comps[l].id else l) &&
      r.comps[l].area == (if l in t.comps then t.comps[l].area else 0) + 1 &&
      r.comps[l].minx <= x <= r.comps[l].maxx && r.comps[l].miny <= y <= r.comps[l].maxy &&
      r.order == if l in t.comps then t.order else t.order + [l]
  {
  }

  /** The resolution pass over a final label map of a raster `w` pixels wide:
      background (0) is skipped, every other pixel i = (i % w, i / w) is added
      to its label's record, created on its first pixel. */
  function TallyOf(labels: seq<int>, w: nat): (t: Tally)
    requires |labels| == 0 || w > 0
    ensures forall k :: k in t.order <==> k in t.comps
    ensures forall k :: k in t.comps <==> k != 0 && k in labels
    ensures NoDuplicates(t.order)
  {
    if |labels| == 0 then Tally(map[], [])
    else
      var prev := TallyOf(labels[..|labels| - 1], w);
      var i := |labels| - 1;
      var l := labels[i];
      if l == 0 then prev else Visit(prev, l, i % w, i / w)
  }

  /** One more pixel of the raster extends the tally by one visit. */
  lemma TallyOfTake(labels: seq<int>, w: nat, i: nat)
    requires w > 0 && i < |labels|
    ensures TallyOf(labels[..i + 1], w) ==
      if labels[i] == 0 then TallyOf(labels[..i], w) else Visit(TallyOf(labels[..i], w), labels[i], i % w, i / w)
  {
    assert labels[..i + 1][..i] == labels[..i];
  }

  /** The published list: the records in insertion order. */
  function Components(labels: seq<int>, w: nat): (cs: seq<Component>)
    requires |labels| == 0 || w > 0
  {
    var t := TallyOf(labels, w);
    Records(t.comps, t.order)
  }

  /** The records named by `order`, in that order. */
  function Records(comps: map<int, Component>, order: seq<int>): (cs: seq<Component>)
    requires forall i :: 0 <= i < |order| ==> order[i] in comps
    ensures |cs| == |order| && forall k :: 0 <= k < |order| ==> cs[k] == comps[order[k]]
  {
    seq(|order|, k requires 0 <= k < |order| => comps[order[k]])
  }

  /** Sum of the x coordinates of the pixels labelled `id`. */
  function SumX(labels: seq<int>, w: nat, id: int): int
    requires |labels| == 0 || w > 0
  {
    if |labels| == 0 then 0
    else SumX(labels[..|labels| - 1], w, id) + (if labels[|labels| - 1] == id then (|labels| - 1) % w else 0)
  }

  /** Sum of the y coordinates of the pixels labelled `id`. */
  function SumY(labels: seq<int>, w: nat, id: int): int
    requires |labels| == 0 || w > 0
  {
    if |labels| == 0 then 0
    else SumY(labels[..|labels| - 1], w, id) + (if labels[|labels| - 1] == id then (|labels| - 1) / w else 0)
  }

  /** Number of foreground (non-zero) entries. */
  function Foreground(labels: seq<int>): nat
  {
    if |labels| == 0 then 0
    else Foreground(labels[..|labels| - 1]) + (if labels[|labels| - 1] != 0 then 1 else 0)
  }

  /** Index of the first pixel carrying label `k`. */
  function FirstIndex(labels: seq<int>, k: int): (i: nat)
    requires k in labels
    ensures i < |labels| && labels[i] == k && k !in labels[..i]
  {
    if labels[0] == k then 0
    else
      assert k in labels[1..];
      var j := FirstIndex(labels[1..], k);
      assert labels[..j + 1] == [labels[0]] + labels[1..][..j];
      j + 1
  }

  /** `c` describes exactly the pixels labelled c.id: their number, a bounding
      box holding each of them and touched by one on every side, and the sums
      of their coordinates. */
  ghost predicate Describes(labels: seq<int>, w: nat, c: Component)
    requires w > 0
  {
    c.area == Count(labels, c.id) && c.area > 0 &&
    Bounded(labels, w, c) && Touched(labels, w, c) &&
    c.sumx == SumX(labels, w, c.id) && c.sumy == SumY(labels, w, c.id)
  }

  /** The box of `c` holds every pixel labelled c.id. */
  ghost predicate Bounded(labels: seq<int>, w: nat, c: Component)
    requires w > 0
  {
    c.minx <= c.maxx && c.miny <= c.maxy &&
    forall i :: 0 <= i < |labels| && labels[i] == c.id ==>
      c.minx <= i % w <= c.maxx && c.miny <= i / w <= c.maxy
  }

  /** Each side of the box of `c` is touched by a pixel labelled c.id. */
  ghost predicate Touched(labels: seq<int>, w: nat, c: Component)
    requires w > 0
  {
    (exists i :: 0 <= i < |labels| && labels[i] == c.id && i % w == c.minx) &&
    (exists i :: 0 <= i < |labels| && labels[i] == c.id && i % w == c.maxx) &&
    (exists i :: 0 <= i < |labels| && labels[i] == c.id && i / w == c.miny) &&
    (exists i :: 0 <= i < |labels| && labels[i] == c.id && i / w == c.maxy)
  }

  lemma {:induction false} CountAbsent(s: seq<int>, v: int)
    requires v !in s
    ensures Count(s, v) == 0
    decreases |s|
  {
    if s != [] { CountAbsent(s[..|s| - 1], v); }
  }

  lemma {:induction false} SumsAbsent(labels: seq<int>, w: nat, v: int)
    requires w > 0 && v !in labels
    ensures SumX(labels, w, v) == 0 && SumY(labels, w, v) == 0
    decreases |labels|
  {
    if labels != [] { SumsAbsent(labels[..|labels| - 1], w, v); }
  }

  /** Every record of the tally describes its label's pixels exactly. */
  lemma {:induction false} TallyDescribes(labels: seq<int>, w: nat, k: int)
    requires w > 0 && k in TallyOf(labels, w).comps
    ensures TallyOf(labels, w).comps[k].id == k
    ensures Describes(labels, w, TallyOf(labels, w).comps[k])
    decreases |labels|
  {
    var n := |labels| - 1;
    var p := labels[..n];
    var l := labels[n];
    var x, y := n % w, n / w;
    var prev := TallyOf(p, w);
    var c := TallyOf(labels, w).comps[k];
    assert forall i :: 0 <= i < n ==> labels[i] == p[i];
    if k in prev.comps {
      TallyDescribes(p, w, k);
      var c0 := prev.comps[k];
      if k == l {
        assert c == AddPixel(c0, x, y);
        DescribesExtend(labels, w, c0, c);
      } else {
        assert c == c0;
        DescribesKeep(labels, w, c);
      }
    } else {
      assert k == l && k !in p;
      CountAbsent(p, k);
      SumsAbsent(p, w, k);
      assert c == AddPixel(Start(k, x, y), x, y);
      assert forall i :: 0 <= i < |labels| && labels[i] == k ==> i == n;
      assert labels[n] == k && n % w == c.minx && n / w == c.miny;
    }
  }

  /** Step of TallyDescribes: the last pixel belongs to the record. */
  lemma DescribesExtend(labels: seq<int>, w: nat, c0: Component, c: Component)
    requires w > 0 && |labels| > 0
    requires Describes(labels[..|labels| - 1], w, c0)
    requires labels[|labels| - 1] == c0.id
    requires c == AddPixel(c0, (|labels| - 1) % w, (|labels| - 1) / w)
    ensures Describes(labels, w, c)
  {
    BoundedExtend(labels, w, c0, c);
    TouchedExtend(labels, w, c0, c);
  }

  lemma BoundedExtend(labels: seq<int>, w: nat, c0: Component, c: Component)
    requires w > 0 && |labels| > 0
    requires Bounded(labels[..|labels| - 1], w, c0)
    requires c == AddPixel(c0, (|labels| - 1) % w, (|labels| - 1) / w)
    ensures Bounded(labels, w, c)
  {
    var n := |labels| - 1;
    assert forall i :: 0 <= i < n ==> labels[i] == labels[..n][i];
  }

  lemma TouchedExtend(labels: seq<int>, w: nat, c0: Component, c: Component)
    requires w > 0 && |labels| > 0
    requires Touched(labels[..|labels| - 1], w, c0)
    requires labels[|labels| - 1] == c0.id
    requires c == AddPixel(c0, (|labels| - 1) % w, (|labels| - 1) / w)
    ensures Touched(labels, w, c)
  {
    var n := |labels| - 1;
    var p := labels[..n];
    var x, y := n % w, n / w;
    var i1 :| 0 <= i1 < |p| && p[i1] == c0.id && i1 % w == c0.minx;
    var i2 :| 0 <= i2 < |p| && p[i2] == c0.id && i2 % w == c0.maxx;
    var i3 :| 0 <= i3 < |p| && p[i3] == c0.id && i3 / w == c0.miny;
    var i4 :| 0 <= i4 < |p| && p[i4] == c0.id && i4 / w == c0.maxy;
    assert labels[i1] == c.id && labels[i2] == c.id && labels[i3] == c.id && labels[i4] == c.id;
    var j1 := if x < c0.minx then n else i1;
    var j2 := if x > c0.maxx then n else i2;
    var j3 := if y < c0.miny then n else i3;
    var j4 := if y > c0.maxy then n else i4;
    assert labels[j1] == c.id && j1 % w == c.minx;
    assert labels[j2] == c.id && j2 % w == c.maxx;
    assert labels[j3] == c.id && j3 / w == c.miny;
    assert labels[j4] == c.id && j4 / w == c.maxy;
  }

  /** Step of TallyDescribes: a pixel of another label leaves the record valid. */
  lemma DescribesKeep(labels: seq<int>, w: nat, c: Component)
    requires w > 0 && |labels| > 0
    requires Describes(labels[..|labels| - 1], w, c)
    requires labels[|labels| - 1] != c.id
    ensures Describes(labels, w, c)
  {
    BoundedKeep(labels, w, c);
    TouchedKeep(labels, w, c);
  }

  lemma BoundedKeep(labels: seq<int>, w: nat, c: Component)
    requires w > 0 && |labels| > 0
    requires Bounded(labels[..|labels| - 1], w, c)
    requires labels[|labels| - 1] != c.id
    ensures Bounded(labels, w, c)
  {
    var n := |labels| - 1;
    assert forall i :: 0 <= i < n ==> labels[i] == labels[..n][i];
  }

  lemma TouchedKeep(labels: seq<int>, w: nat, c: Component)
    requires w > 0 && |labels| > 0
    requires Touched(labels[..|labels| - 1], w, c)
    ensures Touched(labels, w, c)
  {
    var p := labels[..|labels| - 1];
    var i1 :| 0 <= i1 < |p| && p[i1] == c.id && i1 % w == c.minx;
    var i2 :| 0 <= i2 < |p| && p[i2] == c.id && i2 % w == c.maxx;
    var i3 :| 0 <= i3 < |p| && p[i3] == c.id && i3 / w == c.miny;
    var i4 :| 0 <= i4 < |p| && p[i4] == c.id && i4 / w == c.maxy;
    assert labels[i1] == c.id && labels[i2] == c.id && labels[i3] == c.id && labels[i4] == c.id;
  }

  /** Sum of the areas of the records named by `order`. */
  function TotalArea(comps: map<int, Component>, order: seq<int>): nat
    requires forall i :: 0 <= i < |order| ==> order[i] in comps
  {
    if |order| == 0 then 0
    else TotalArea(comps, order[..|order| - 1]) + comps[order[|order| - 1]].area
  }

  /** Sum of the areas of a component list. */
  function AreaSum(cs: seq<Component>): nat
  {
    if |cs| == 0 then 0 else AreaSum(cs[..|cs| - 1]) + cs[|cs| - 1].area
  }

  lemma {:induction false} TotalAreaFrame(comps: map<int, Component>, comps': map<int, Component>, order: seq<int>)
    requires forall i :: 0 <= i < |order| ==> order[i] in comps && order[i] in comps' && comps[order[i]].area == comps'[order[i]].area
    ensures TotalArea(comps, order) == TotalArea(comps', order)
    decreases |order|
  {
    if |order| > 0 { TotalAreaFrame(comps, comps', order[..|order| - 1]); }
  }

  /** One more pixel in the record of a key listed once adds one to the total. */
  lemma {:induction false} TotalAreaBump(comps: map<int, Component>, order: seq<int>, l: int, c: Component)
    requires forall i :: 0 <= i < |order| ==> order[i] in comps
    requires NoDuplicates(order) && l in order && c.area == comps[l].area + 1
    ensures TotalArea(comps[l := c], order) == TotalArea(comps, order) + 1
    decreases |order|
  {
    var n := |order| - 1;
    var front := order[..n];
    if order[n] == l {
      assert l !in front;
      TotalAreaFrame(comps, comps[l := c], front);
    } else {
      assert l in front;
      TotalAreaBump(comps, front, l, c);
    }
  }

  /** A new key listed last contributes its record's area. */
  lemma TotalAreaAppend(comps: map<int, Component>, order: seq<int>, l: int, c: Component)
    requires forall i :: 0 <= i < |order| ==> order[i] in comps
    requires l !in order
    ensures TotalArea(comps[l := c], order + [l]) == TotalArea(comps, order) + c.area
  {
    assert (order + [l])[..|order|] == order;
    TotalAreaFrame(comps, comps[l := c], order);
  }

  /** Step of TallyAreaTotal: one foreground pixel adds one to the total area. */
  lemma TallyAreaStep(prev: Tally, l: int, x: int, y: int)
    requires forall k :: k in prev.order <==> k in prev.comps
    requires forall i :: 0 <= i < |prev.order| ==> prev.order[i] in prev.comps
    requires NoDuplicates(prev.order)
    ensures var t := Visit(prev, l, x, y);
      (forall i :: 0 <= i < |t.order| ==> t.order[i] in t.comps) &&
      TotalArea(t.comps, t.order) == TotalArea(prev.comps, prev.order) + 1
  {
    var t := Visit(prev, l, x, y);
    if l in prev.comps {
      TotalAreaBump(prev.comps, prev.order, l, t.comps[l]);
    } else {
      TotalAreaAppend(prev.comps, prev.order, l, t.comps[l]);
    }
  }

  /** The areas of all records add up to the number of foreground pixels. */
  lemma {:induction false} TallyAreaTotal(labels: seq<int>, w: nat)
    requires |labels| == 0 || w > 0
    ensures TotalArea(TallyOf(labels, w).comps, TallyOf(labels, w).order) == Foreground(labels)
    decreases |labels|
  {
    if |labels| > 0 {
      var n := |labels| - 1;
      var p := labels[..n];
      var l := labels[n];
      TallyAreaTotal(p, w);
      if l != 0 {
        TallyAreaStep(TallyOf(p, w), l, n % w, n / w);
      }
    }
  }

  /** The published list carries the areas of the records in insertion order. */
  lemma {:induction false} AreaSumOfRecords(comps: map<int, Component>, order: seq<int>)
    requires forall i :: 0 <= i < |order| ==> order[i] in comps
    ensures AreaSum(Records(comps, order)) == TotalArea(comps, order)
    decreases |order|
  {
    if |order| > 0 {
      var n := |order| - 1;
      var cs := Records(comps, order);
      var front := order[..n];
      AreaSumOfRecords(comps, front);
      assert cs[..n] == Records(comps, front);
    }
  }

  /** The first pixel of a label is the unique one with no earlier pixel of that label. */
  lemma FirstIndexUnique(labels: seq<int>, k: int, i: int)
    requires 0 <= i < |labels| && labels[i] == k && k !in labels[..i]
    ensures FirstIndex(labels, k) == i
  {
  }

  /** Extending the labels keeps the first pixel of every label already present. */
  lemma FirstIndexOfPrefix(labels: seq<int>, k: int)
    requires |labels| > 0 && k in labels[..|labels| - 1]
    ensures FirstIndex(labels, k) == FirstIndex(labels[..|labels| - 1], k)
  {
    var p := labels[..|labels| - 1];
    var j := FirstIndex(p, k);
    assert labels[..j] == p[..j];
    FirstIndexUnique(labels, k, j);
  }

  /** Every key of `order` occurs in `labels`, and each occurs first before the next one does. */
  predicate OrderedByFirst(labels: seq<int>, order: seq<int>)
  {
    (forall a :: 0 <= a < |order| ==> order[a] in labels) &&
    (forall a, b :: 0 <= a < b < |order| ==> FirstIndex(labels, order[a]) < FirstIndex(labels, order[b]))
  }

  /** A further pixel leaves the first pixels of the listed labels where they were. */
  lemma OrderedByFirstKeep(labels: seq<int>, order: seq<int>)
    requires |labels| > 0 && OrderedByFirst(labels[..|labels| - 1], order)
    ensures OrderedByFirst(labels, order)
  {
    var p := labels[..|labels| - 1];
    forall a | 0 <= a < |order| ensures order[a] in labels && FirstIndex(labels, order[a]) == FirstIndex(p, order[a]) {
      FirstIndexOfPrefix(labels, order[a]);
    }
  }

  /** A label first seen at the last pixel goes to the end of the order. */
  lemma OrderedByFirstAppend(labels: seq<int>, order: seq<int>)
    requires |labels| > 0 && OrderedByFirst(labels[..|labels| - 1], order)
    requires labels[|labels| - 1] !in labels[..|labels| - 1]
    ensures OrderedByFirst(labels, order + [labels[|labels| - 1]])
  {
    var n := |labels| - 1;
    OrderedByFirstKeep(labels, order);
    FirstIndexUnique(labels, labels[n], n);
    var order' := order + [labels[n]];
    forall a, b | 0 <= a < b < |order'| ensures FirstIndex(labels, order'[a]) < FirstIndex(labels, order'[b]) {
      if b == |order| {
        assert order'[a] == order[a];
      }
    }
  }

  /** The records are listed in the order of their labels' first pixels in raster order. */
  lemma {:induction false} TallyFirstSeen(labels: seq<int>, w: nat)
    requires |labels| == 0 || w > 0
    ensures OrderedByFirst(labels, TallyOf(labels, w).order)
    decreases |labels|
  {
    if |labels| > 0 {
      var n := |labels| - 1;
      var p := labels[..n];
      var l := labels[n];
      var prev := TallyOf(p, w);
      TallyFirstSeen(p, w);
      if l != 0 && l !in prev.comps {
        assert TallyOf(labels, w).order == prev.order + [l];
        OrderedByFirstAppend(labels, prev.order);
      } else {
        assert TallyOf(labels, w).order == prev.order;
        OrderedByFirstKeep(labels, prev.order);
      }
    }
  }

  /** Each published record names a foreground label and describes exactly its pixels. */
  lemma ComponentsDescribe(labels: seq<int>, w: nat)
    requires w > 0
    ensures var cs := Components(labels, w);
      forall k :: 0 <= k < |cs| ==> cs[k].id != 0 && cs[k].id in labels && Describes(labels, w, cs[k])
  {
    var t := TallyOf(labels, w);
    var cs := Components(labels, w);
    forall k | 0 <= k < |cs|
      ensures cs[k].id != 0 && cs[k].id in labels && Describes(labels, w, cs[k])
    {
      TallyDescribes(labels, w, t.order[k]);
    }
  }

  /** The records are listed by first pixel in raster order, so no id is listed twice. */
  lemma ComponentsOrdered(labels: seq<int>, w: nat)
    requires w > 0
    ensures var cs := Components(labels, w);
      (forall k :: 0 <= k < |cs| ==> cs[k].id in labels) &&
      (forall a, b :: 0 <= a < b < |cs| ==> FirstIndex(labels, cs[a].id) < FirstIndex(labels, cs[b].id)) &&
      (forall a, b :: 0 <= a < b < |cs| ==> cs[a].id != cs[b].id)
  {
    var t := TallyOf(labels, w);
    var cs := Components(labels, w);
    forall k | 0 <= k < |cs| ensures cs[k].id == t.order[k] {
      TallyDescribes(labels, w, t.order[k]);
    }
    TallyFirstSeen(labels, w);
  }

  /** Every foreground label has a record. */
  lemma ComponentsCover(labels: seq<int>, w: nat, l: int)
    requires w > 0 && l != 0 && l in labels
    ensures exists k :: 0 <= k < |Components(labels, w)| && Components(labels, w)[k].id == l
  {
    var t := TallyOf(labels, w);
    var k :| 0 <= k < |t.order| && t.order[k] == l;
    TallyDescribes(labels, w, l);
    assert Components(labels, w)[k].id == l;
  }

  /** The areas of the published records add up to the number of foreground pixels. */
  lemma ComponentsArea(labels: seq<int>, w: nat)
    requires w > 0
    ensures AreaSum(Components(labels, w)) == Foreground(labels)
  {
    var t := TallyOf(labels, w);
    TallyAreaTotal(labels, w);
    AreaSumOfRecords(t.comps, t.order);
  }
}
