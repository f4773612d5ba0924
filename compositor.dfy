/**
 * The placement part of `convertForDisplay`: an already-sized image is drawn
 * centred onto a fresh 128×64 canvas whose pixels start out zero; drawing
 * outside the canvas is silently dropped, as `image.RGBA.Set` does.
 */
module Compositor {
  import opened Common
  import Packer

  const CanvasWidth: nat := 128
  const CanvasHeight: nat := 64
  /** The size `resize.Resize` produces for process icons. */
  const IconSize: nat := 60

  /** Go's integer `/` for a positive divisor: it truncates toward zero. */
  function GoDiv(a: int, b: int): (q: int)
    requires b > 0
    ensures a >= 0 ==> q >= 0 && q * b <= a < q * b + b
    ensures a < 0 ==> q <= 0 && q * b - b < a <= q * b
  {
    if a >= 0 then a / b else -((-a) / b)
  }

  /** The centring offset along one axis: `(canvas - size) / 2` in Go. */
  function Offset(canvas: nat, size: nat): int
  {
    GoDiv(canvas - size, 2)
  }

  /** A 60×60 icon lands at (34, 2). */
  lemma IconOffset()
    ensures Offset(CanvasWidth, IconSize) == 34
    ensures Offset(CanvasHeight, IconSize) == 2
  {
  }

  /**
   * An image wider than the canvas gets a negative offset rounded toward
   * zero: width 131 gives -1 where floor division would give -2.
   */
  lemma WideOffset()
    ensures Offset(CanvasWidth, 131) == -1
    ensures (CanvasWidth - 131) / 2 == -2
  {
  }

  predicate InCanvas(cy: int, cx: int)
  {
    0 <= cy < CanvasHeight && 0 <= cx < CanvasWidth
  }

  /** What canvas point (cx, cy) holds once `src` has been drawn centred on a `blank` canvas. */
  function Placed<T>(src: array2<T>, blank: T, cy: int, cx: int): T
    reads src
  {
    var y := cy - Offset(CanvasHeight, src.Length0);
    var x := cx - Offset(CanvasWidth, src.Length1);
    if 0 <= y < src.Length0 && 0 <= x < src.Length1 then src[y, x] else blank
  }

  /**
   * The copy loop of `convertForDisplay`: every source pixel (x, y) is set at
   * (startX + x, startY + y) when that point is on the canvas.
   */
  method Place<T>(src: array2<T>, blank: T) returns (canvas: array2<T>)
    ensures fresh(canvas)
    ensures canvas.Length0 == CanvasHeight && canvas.Length1 == CanvasWidth
    ensures forall cy, cx :: InCanvas(cy, cx) ==> canvas[cy, cx] == Placed(src, blank, cy, cx)
    ensures forall y, x ::
              0 <= y < src.Length0 && 0 <= x < src.Length1 &&
              InCanvas(Offset(CanvasHeight, src.Length0) + y, Offset(CanvasWidth, src.Length1) + x)
              ==> canvas[Offset(CanvasHeight, src.Length0) + y, Offset(CanvasWidth, src.Length1) + x] == src[y, x]
  {
    canvas := new T[CanvasHeight, CanvasWidth]((_, _) => blank);
    var startX := Offset(CanvasWidth, src.Length1);
    var startY := Offset(CanvasHeight, src.Length0);
    var y := 0;
    while y < src.Length0
      invariant 0 <= y <= src.Length0
      invariant forall cy, cx :: InCanvas(cy, cx) ==>
                  canvas[cy, cx] == if 0 <= cy - startY < y && 0 <= cx - startX < src.Length1
                                    then src[cy - startY, cx - startX] else blank
    {
      var x := 0;
      while x < src.Length1
        invariant 0 <= x <= src.Length1
        invariant forall cy, cx :: InCanvas(cy, cx) ==>
                    canvas[cy, cx] == if (0 <= cy - startY < y && 0 <= cx - startX < src.Length1)
                                         || (cy - startY == y && 0 <= cx - startX < x)
                                      then src[cy - startY, cx - startX] else blank
      {
        if InCanvas(startY + y, startX + x) {
          canvas[startY + y, startX + x] := src[y, x];
        }
        x := x + 1;
      }
      y := y + 1;
    }
  }

  /**
   * `convertForDisplay(img, false, false)`, the path static image files take:
   * no resize and no dithering, so the gray image is placed on a black canvas
   * and packed. The result is always 1024 bytes, and bit k of it is white
   * exactly when canvas pixel k (row-major) is.
   */
  method ConvertForDisplay(src: array2<Gray>) returns (out: seq<byte>)
    ensures |out| == CanvasWidth * CanvasHeight / 8
    ensures forall cy, cx :: InCanvas(cy, cx) ==>
              (Packer.BitSet(out[(cy * CanvasWidth + cx) / 8], (cy * CanvasWidth + cx) % 8)
               <==> Packer.White(Placed(src, 0, cy, cx)))
  {
    var canvas := Place(src, 0);
    out := Packer.Encode1Bit(canvas);
    forall cy, cx | InCanvas(cy, cx)
      ensures (cy * CanvasWidth + cx) / 8 < |out|
      ensures Packer.BitSet(out[(cy * CanvasWidth + cx) / 8], (cy * CanvasWidth + cx) % 8)
              <==> Packer.White(Placed(src, 0, cy, cx))
    {
      Packer.PixelBit(canvas, cy, cx);
    }
  }
}
