/** Grayscale conversion: an RGBA buffer becomes one intensity byte per pixel. */
module Grayscale {
  import opened Pixels

  /** Intensity of one pixel: the weighted sum 0.299 R + 0.587 G + 0.114 B,
      truncated toward zero (the source uses `| 0`), computed exactly. */
  function Luma(r: Byte, g: Byte, b: Byte): (v: Byte)
    ensures 1000 * v <= 299 * r + 587 * g + 114 * b < 1000 * (v + 1)
  {
    (299 * r + 587 * g + 114 * b) / 1000
  }

  /** The gray image of an RGBA buffer: entry j is the luma of pixel j, read
      from bytes 4j, 4j+1 and 4j+2; a trailing partial pixel yields nothing. */
  function GrayImage(data: seq<Byte>): (g: seq<Byte>)
  {
    seq(|data| / 4, j requires 0 <= j < |data| / 4 => Luma(data[4 * j], data[4 * j + 1], data[4 * j + 2]))
  }

  /** The conversion loop: the source index moves by four, the output index
      `j` by one; a write past the end of the output is dropped, as on a typed array. */
  method ToGray(data: seq<Byte>) returns (g: seq<Byte>)
    ensures |g| == |data| / 4
    ensures forall j :: 0 <= j < |g| ==> g[j] == Luma(data[4 * j], data[4 * j + 1], data[4 * j + 2])
    ensures g == GrayImage(data)
  {
    var len := |data| / 4;
    var buf := new Byte[len];
    var i, j := 0, 0;
    while i < |data|
      invariant i == 4 * j && j <= len + 1
      invariant j <= len ==> i <= |data| + 3 && (j < len ==> i < |data|)
      invariant forall k :: 0 <= k < j && k < len ==> buf[k] == Luma(data[4 * k], data[4 * k + 1], data[4 * k + 2])
      invariant len < j ==> i >= |data|
    {
      if j < len {
        buf[j] := Luma(data[i], data[i + 1], data[i + 2]);
      }
      i, j := i + 4, j + 1;
    }
    g := buf[..];
  }

  /** Entry j of the gray image depends only on bytes 4j .. 4j+2 of the input:
      the alpha byte and every other pixel are ignored. */
  lemma GrayIsLocal(d1: seq<Byte>, d2: seq<Byte>, j: int)
    requires |d1| / 4 == |d2| / 4 && 0 <= j < |d1| / 4
    requires d1[4 * j] == d2[4 * j] && d1[4 * j + 1] == d2[4 * j + 1] && d1[4 * j + 2] == d2[4 * j + 2]
    ensures |GrayImage(d1)| == |GrayImage(d2)| && GrayImage(d1)[j] == GrayImage(d2)[j]
  {
  }

  /** A pixel that is already gray (R = G = B) keeps its value: the weights sum to one. */
  lemma LumaOfGray(v: Byte)
    ensures Luma(v, v, v) == v
  {
    assert 299 * v + 587 * v + 114 * v == 1000 * v;
  }

  /** The intensity never exceeds the brightest channel, nor falls below the darkest one
      by more than the truncation. */
  lemma LumaWithinChannels(r: Byte, g: Byte, b: Byte)
    ensures Luma(r, g, b) <= Max3(r, g, b)
    ensures Min3(r, g, b) - 1 <= Luma(r, g, b)
  {
    var s := 299 * r + 587 * g + 114 * b;
    assert s <= 1000 * Max3(r, g, b);
    assert 1000 * Min3(r, g, b) <= s;
    DivBounds(s, Min3(r, g, b), Max3(r, g, b));
  }

  function Max3(a: int, b: int, c: int): int { if a >= b && a >= c then a else if b >= c then b else c }
  function Min3(a: int, b: int, c: int): int { if a <= b && a <= c then a else if b <= c then b else c }

  lemma DivBounds(s: int, lo: int, hi: int)
    requires 1000 * lo <= s <= 1000 * hi
    ensures lo <= s / 1000 <= hi
  {
  }
}
