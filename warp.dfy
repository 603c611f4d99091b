/** The nearest-neighbour sampling loop of the perspective warp: every pixel of
    a dstW x dstH RGBA image takes the colour of the source pixel its projection
    rounds to, fully opaque, or opaque white when that lands outside the source. */
module Warp {
  import opened Pixels
  import opened Grid

  /** Byte offset of pixel (x, y) in an RGBA buffer `w` pixels wide. */
  function Offset(w: nat, x: nat, y: nat): nat
  {
    (y * w + x) * 4
  }

  /** (xi, yi) names a pixel of a w x h image. */
  predicate InSource(xi: int, yi: int, w: nat, h: nat)
  {
    0 <= xi < w && 0 <= yi < h
  }

  /** The four bytes of a source pixel lie inside the source buffer. */
  lemma SourceFits(w: nat, h: nat, x: nat, y: nat)
    requires x < w && y < h
    ensures Offset(w, x, y) + 4 <= w * h * 4
  {
    RowInImage(w, h, y);
  }

  /** Channel c (red, green, blue, alpha) of a destination pixel whose projection
      rounds to source pixel (xi, yi): alpha is opaque; red, green and blue are
      the source pixel's inside the source and white outside it. */
  function Channel(src: seq<Byte>, srcW: nat, srcH: nat, xi: int, yi: int, c: nat): (v: Byte)
    requires |src| == srcW * srcH * 4 && c < 4
    ensures c == 3 || !InSource(xi, yi, srcW, srcH) ==> v == 255
    ensures c < 3 && InSource(xi, yi, srcW, srcH) ==>
      Offset(srcW, xi, yi) + c < |src| && v == src[Offset(srcW, xi, yi) + c]
  {
    if c == 3 then 255
    else if InSource(xi, yi, srcW, srcH) then
      SourceFits(srcW, srcH, xi, yi);
      src[Offset(srcW, xi, yi) + c]
    else 255
  }

  /** The four bytes at offset o of `dst` are the colour of a destination pixel
      whose projection rounds to source pixel (xi, yi): opaque, with the source
      pixel's red, green and blue inside the source and white outside it. */
  predicate PixelSampled(dst: seq<Byte>, o: nat, src: seq<Byte>, srcW: nat, srcH: nat, xi: int, yi: int)
    requires |src| == srcW * srcH * 4
  {
    o + 4 <= |dst| && dst[o + 3] == 255 &&
    if InSource(xi, yi, srcW, srcH) then
      SourceFits(srcW, srcH, xi, yi);
      var si := Offset(srcW, xi, yi);
      dst[o] == src[si] && dst[o + 1] == src[si + 1] && dst[o + 2] == src[si + 2]
    else
      dst[o] == 255 && dst[o + 1] == 255 && dst[o + 2] == 255
  }

  /** Write counts of a buffer of `len` bytes whose first `n` bytes were
      each written once and whose other bytes were not written yet. */
  ghost function WrittenPrefix(n: nat, len: nat): seq<nat>
  {
    seq(len, i => if i < n then 1 else 0)
  }

  /** The write counts after one more write to byte i. */
  ghost function Bump(writes: seq<nat>, i: nat): (r: seq<nat>)
    requires i < |writes|
    ensures |r| == |writes|
    ensures forall k :: 0 <= k < |r| ==> r[k] == if k == i then writes[k] + 1 else writes[k]
  {
    writes[i := writes[i] + 1]
  }

  /** Writing the next pixel's four bytes once each extends the written prefix by four. */
  lemma PrefixFour(n: nat, len: nat)
    requires n + 4 <= len
    ensures Bump(Bump(Bump(Bump(WrittenPrefix(n, len), n), n + 1), n + 2), n + 3) == WrittenPrefix(n + 4, len)
  {
  }

  /** Byte i of the destination buffer, as the sampling rule defines it. */
  ghost function Target(src: seq<Byte>, srcW: nat, srcH: nat, dstW: nat,
                        sample: (nat, nat) -> (int, int), i: nat): Byte
    requires |src| == srcW * srcH * 4 && dstW > 0
  {
    var j := i / 4;
    Channel(src, srcW, srcH, sample(j % dstW, j / dstW).0, sample(j % dstW, j / dstW).1, i % 4)
  }

  /** Byte c of destination pixel (x, y) is channel c of its sample. */
  lemma TargetAt(src: seq<Byte>, srcW: nat, srcH: nat, dstW: nat,
                 sample: (nat, nat) -> (int, int), x: nat, y: nat, c: nat)
    requires |src| == srcW * srcH * 4 && x < dstW && c < 4
    ensures Target(src, srcW, srcH, dstW, sample, Offset(dstW, x, y) + c) ==
      Channel(src, srcW, srcH, sample(x, y).0, sample(x, y).1, c)
  {
    var j := y * dstW + x;
    assert (j * 4 + c) / 4 == j && (j * 4 + c) % 4 == c;
    RowCol(dstW, y, x);
  }

  /** Destination pixel (x, y) of a dstW x dstH image takes the colour the
      sampling rule gives for `sample(x, y)`, the source pixel its projection
      rounds to. */
  method WarpSampling(src: seq<Byte>, srcW: nat, srcH: nat, dstW: nat, dstH: nat,
                      sample: (nat, nat) -> (int, int))
    returns (dst: seq<Byte>, ghost writes: seq<nat>)
    requires |src| == srcW * srcH * 4
    ensures |dst| == dstW * dstH * 4
    ensures writes == WrittenPrefix(|dst|, |dst|)
    ensures forall y: nat, x: nat :: y < dstH && x < dstW ==>
      PixelSampled(dst, Offset(dstW, x, y), src, srcW, srcH, sample(x, y).0, sample(x, y).1)
  {
    var d := new Byte[dstW * dstH * 4];
    writes := WrittenPrefix(0, d.Length);
    for y := 0 to dstH
      invariant y * dstW <= dstW * dstH
      invariant forall i :: 0 <= i < 4 * (y * dstW) ==> d[i] == Target(src, srcW, srcH, dstW, sample, i)
      invariant writes == WrittenPrefix(4 * (y * dstW), d.Length)
    {
      RowInImage(dstW, dstH, y);
      writes := WarpRow(d, src, srcW, srcH, dstW, dstH, sample, y, writes);
      assert y * dstW + dstW == (y + 1) * dstW;
    }
    assert 4 * (dstH * dstW) == d.Length;
    dst := d[..];
    BufferMeans(dst, src, srcW, srcH, dstW, dstH, sample);
  }

  /** A buffer holding the target bytes gives every pixel its sampled colour. */
  lemma BufferMeans(dst: seq<Byte>, src: seq<Byte>, srcW: nat, srcH: nat, dstW: nat, dstH: nat,
                    sample: (nat, nat) -> (int, int))
    requires |src| == srcW * srcH * 4 && |dst| == dstW * dstH * 4
    requires dstW > 0 ==> forall i :: 0 <= i < |dst| ==> dst[i] == Target(src, srcW, srcH, dstW, sample, i)
    ensures forall y: nat, x: nat :: y < dstH && x < dstW ==>
      PixelSampled(dst, Offset(dstW, x, y), src, srcW, srcH, sample(x, y).0, sample(x, y).1)
  {
    forall y: nat, x: nat | y < dstH && x < dstW
      ensures PixelSampled(dst, Offset(dstW, x, y), src, srcW, srcH, sample(x, y).0, sample(x, y).1)
    {
      RowInImage(dstW, dstH, y);
      var o := Offset(dstW, x, y);
      assert o + 4 <= |dst|;
      TargetAt(src, srcW, srcH, dstW, sample, x, y, 0);
      TargetAt(src, srcW, srcH, dstW, sample, x, y, 1);
      TargetAt(src, srcW, srcH, dstW, sample, x, y, 2);
      TargetAt(src, srcW, srcH, dstW, sample, x, y, 3);
      assert dst[o] == Target(src, srcW, srcH, dstW, sample, o);
      assert dst[o + 1] == Target(src, srcW, srcH, dstW, sample, o + 1);
      assert dst[o + 2] == Target(src, srcW, srcH, dstW, sample, o + 2);
      assert dst[o + 3] == Target(src, srcW, srcH, dstW, sample, o + 3);
    }
  }

  /** Row y of the destination, left to right. */
  method WarpRow(d: array<Byte>, src: seq<Byte>, srcW: nat, srcH: nat, dstW: nat, dstH: nat,
                 sample: (nat, nat) -> (int, int), y: nat, ghost writes: seq<nat>)
    returns (ghost writes': seq<nat>)
    requires |src| == srcW * srcH * 4 && d.Length == dstW * dstH * 4
    requires y * dstW + dstW <= dstW * dstH
    requires forall i :: 0 <= i < 4 * (y * dstW) ==> d[i] == Target(src, srcW, srcH, dstW, sample, i)
    requires writes == WrittenPrefix(4 * (y * dstW), d.Length)
    modifies d
    ensures forall i :: 0 <= i < 4 * (y * dstW + dstW) ==> d[i] == Target(src, srcW, srcH, dstW, sample, i)
    ensures writes' == WrittenPrefix(4 * (y * dstW + dstW), d.Length)
  {
    writes' := writes;
    for x := 0 to dstW
      invariant forall i :: 0 <= i < 4 * (y * dstW + x) ==> d[i] == Target(src, srcW, srcH, dstW, sample, i)
      invariant writes' == WrittenPrefix(4 * (y * dstW + x), d.Length)
    {
      writes' := SamplePixel(d, src, srcW, srcH, dstW, dstH, sample, x, y, writes');
    }
  }

  /** One pixel of the loop: the four bytes of destination pixel (x, y). */
  method SamplePixel(d: array<Byte>, src: seq<Byte>, srcW: nat, srcH: nat, dstW: nat, dstH: nat,
                     sample: (nat, nat) -> (int, int), x: nat, y: nat, ghost writes: seq<nat>)
    returns (ghost writes': seq<nat>)
    requires |src| == srcW * srcH * 4 && d.Length == dstW * dstH * 4
    requires x < dstW && y * dstW + dstW <= dstW * dstH
    requires writes == WrittenPrefix(Offset(dstW, x, y), d.Length)
    modifies d
    ensures forall i :: 0 <= i < d.Length ==>
      d[i] == if Offset(dstW, x, y) <= i < Offset(dstW, x, y) + 4
              then Target(src, srcW, srcH, dstW, sample, i) else old(d[i])
    ensures writes' == WrittenPrefix(Offset(dstW, x, y) + 4, d.Length)
  {
    var xi, yi := sample(x, y).0, sample(x, y).1;
    var di := (y * dstW + x) * 4;
    writes' := writes;
    if xi >= 0 && yi >= 0 && xi < srcW && yi < srcH {
      SourceFits(srcW, srcH, xi, yi);
      var si := (yi * srcW + xi) * 4;
      d[di] := src[si];
      writes' := Bump(writes', di);
      d[di + 1] := src[si + 1];
      writes' := Bump(writes', di + 1);
      d[di + 2] := src[si + 2];
      writes' := Bump(writes', di + 2);
      d[di + 3] := 255;
      writes' := Bump(writes', di + 3);
    } else {
      d[di] := 255;
      writes' := Bump(writes', di);
      d[di + 1] := 255;
      writes' := Bump(writes', di + 1);
      d[di + 2] := 255;
      writes' := Bump(writes', di + 2);
      d[di + 3] := 255;
      writes' := Bump(writes', di + 3);
    }
    PrefixFour(di, d.Length);
    TargetAt(src, srcW, srcH, dstW, sample, x, y, 0);
    TargetAt(src, srcW, srcH, dstW, sample, x, y, 1);
    TargetAt(src, srcW, srcH, dstW, sample, x, y, 2);
    TargetAt(src, srcW, srcH, dstW, sample, x, y, 3);
  }

  /** Warping an image onto a canvas of its own size with the identity
      projection copies it and makes every pixel opaque. */
  lemma IdentityWarp(dst: seq<Byte>, src: seq<Byte>, w: nat, h: nat, sample: (nat, nat) -> (int, int))
    requires |src| == w * h * 4 && |dst| == w * h * 4
    requires forall x: nat, y: nat :: sample(x, y) == (x, y)
    requires forall y: nat, x: nat :: y < h && x < w ==>
      PixelSampled(dst, Offset(w, x, y), src, w, h, sample(x, y).0, sample(x, y).1)
    ensures forall i :: 0 <= i < |dst| ==> dst[i] == if i % 4 == 3 then 255 else src[i]
  {
    forall i | 0 <= i < |dst|
      ensures dst[i] == if i % 4 == 3 then 255 else src[i]
    {
      var x, y := ByteOfPixel(w, h, i);
      assert sample(x, y) == (x, y);
      assert PixelSampled(dst, Offset(w, x, y), src, w, h, x, y);
    }
  }

  /** Byte i of a w x h RGBA buffer is channel i % 4 of some pixel (x, y). */
  lemma ByteOfPixel(w: nat, h: nat, i: nat) returns (x: nat, y: nat)
    requires i < w * h * 4
    ensures x < w && y < h && i == Offset(w, x, y) + i % 4
  {
    var j := i / 4;
    assert i == 4 * j + i % 4;
    assert j < w * h;
    y, x := j / w, j % w;
    assert j == y * w + x;
    assert y * w <= j;
    MulMonotone(h, y, w);
  }

  lemma MulMonotone(a: int, b: int, w: nat)
    ensures a <= b ==> a * w <= b * w
  {
    if a <= b {
      assert b * w - a * w == (b - a) * w;
    }
  }
}
