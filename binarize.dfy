/** Binarization: intensities become a 0/1 foreground mask, with a polarity flag. */
module Binarize {
  import opened Pixels

  /** The mask value of one intensity. With `invert` (dark ink on light paper)
      a pixel is foreground when it is at most the threshold; otherwise when it
      is above it. */
  function Classify(v: Byte, th: int, invert: bool): (m: Byte)
    ensures m == 0 || m == 1
    ensures m == 1 <==> (if invert then v <= th else v > th)
  {
    if invert then (if v <= th then 1 else 0) else (if v > th then 1 else 0)
  }

  /** The mask of a whole gray buffer, pixel by pixel. */
  function Mask(gray: seq<Byte>, th: int, invert: bool): seq<Byte>
  {
    seq(|gray|, i requires 0 <= i < |gray| => Classify(gray[i], th, invert))
  }

  /** The two loops of the source, one per polarity, filling a fresh buffer. */
  method Binarize(gray: seq<Byte>, th: int, invert: bool := true) returns (out: seq<Byte>)
    ensures |out| == |gray|
    ensures forall i :: 0 <= i < |out| ==> out[i] == 0 || out[i] == 1
    ensures forall i :: 0 <= i < |out| ==> (out[i] == 1 <==> if invert then gray[i] <= th else gray[i] > th)
    ensures out == Mask(gray, th, invert)
  {
    var buf := new Byte[|gray|];
    if invert {
      for i := 0 to |gray|
        invariant forall k :: 0 <= k < i ==> buf[k] == Classify(gray[k], th, true)
      {
        buf[i] := if gray[i] <= th then 1 else 0;
      }
    } else {
      for i := 0 to |gray|
        invariant forall k :: 0 <= k < i ==> buf[k] == Classify(gray[k], th, false)
      {
        buf[i] := if gray[i] > th then 1 else 0;
      }
    }
    out := buf[..];
  }

  /** The two polarities are exact complements of each other. */
  lemma PolaritiesComplement(gray: seq<Byte>, th: int)
    ensures |Mask(gray, th, true)| == |Mask(gray, th, false)| == |gray|
    ensures forall i :: 0 <= i < |gray| ==> Mask(gray, th, true)[i] + Mask(gray, th, false)[i] == 1
  {
  }

  /** Raising the threshold can only add foreground pixels under the inverted
      polarity, and only remove them under the direct one. */
  lemma MaskMonotone(gray: seq<Byte>, th1: int, th2: int)
    requires th1 <= th2
    ensures forall i :: 0 <= i < |gray| ==> Mask(gray, th1, true)[i] <= Mask(gray, th2, true)[i]
    ensures forall i :: 0 <= i < |gray| ==> Mask(gray, th2, false)[i] <= Mask(gray, th1, false)[i]
  {
  }
}
