/**
 * The 1-bit packer (`encode1Bit`): a gray image scanned row by row becomes a
 * byte stream holding one bit per pixel, most significant bit first, with
 * bytes running on across row boundaries and a final partial byte padded
 * with clear bits.
 */
module Packer {
  import opened Common

  /** A pixel is white, and its bit set, when its gray value is above 127. */
  predicate White(g: Gray) { g > 127 }

  /** The bit of pixel `j` (0..7) inside its byte: bit 7 - j. */
  function Mask(j: nat): byte
    requires j < 8
  {
    1 << (7 - j)
  }

  predicate BitSet(b: byte, j: nat)
    requires j < 8
  {
    b & Mask(j) != 0
  }

  /** The byte for up to eight consecutive pixels, first pixel in the top bit. */
  function PackByte(px: seq<Gray>): byte
    requires |px| <= 8
  {
    if px == [] then 0
    else PackByte(px[..|px| - 1]) | (if White(Last(px)) then Mask(|px| - 1) else 0)
  }

  /** The specification of the packed stream: one byte per eight pixels. */
  function Pack(px: seq<Gray>): seq<byte>
    decreases |px|
  {
    if px == [] then []
    else if |px| <= 8 then [PackByte(px)]
    else [PackByte(px[..8])] + Pack(px[8..])
  }

  /** Reads back the first `n` pixel bits of a packed stream. */
  function Unpack(bytes: seq<byte>, n: nat): (bits: seq<bool>)
    requires n <= 8 * |bytes|
    ensures |bits| == n
  {
    seq(n, k requires 0 <= k < n => BitSet(bytes[k / 8], k % 8))
  }

  lemma MaskDistinct(i: nat, j: nat)
    requires i < 8 && j < 8
    ensures (Mask(i) & Mask(j) != 0) <==> i == j
  {
  }

  /** Bit j of a packed byte is set exactly for a white pixel j; bits past the pixels are clear. */
  lemma {:induction false} PackByteBits(px: seq<Gray>, j: nat)
    requires |px| <= 8 && j < 8
    ensures BitSet(PackByte(px), j) <==> j < |px| && White(px[j])
  {
    if px != [] {
      var n := |px| - 1;
      PackByteBits(px[..n], j);
      MaskDistinct(n, j);
      var m: byte := if White(px[n]) then Mask(n) else 0;
      assert (PackByte(px) & Mask(j)) == (PackByte(px[..n]) & Mask(j)) | (m & Mask(j));
    }
  }

  /** `encode1Bit` emits ceil(pixels / 8) bytes, and none for an empty image. */
  lemma {:induction false} PackLength(px: seq<Gray>)
    ensures |Pack(px)| == (|px| + 7) / 8
    decreases |px|
  {
    if |px| > 8 {
      PackLength(px[8..]);
    }
  }

  /** Pixel k sits in bit 7 - k mod 8 of byte k / 8; the padding bits are clear. */
  lemma {:induction false} PackBits(px: seq<Gray>, k: nat)
    requires k < 8 * |Pack(px)|
    ensures BitSet(Pack(px)[k / 8], k % 8) <==> k < |px| && White(px[k])
    decreases |px|
  {
    if |px| <= 8 {
      PackByteBits(px, k);
    } else if k < 8 {
      PackByteBits(px[..8], k);
    } else {
      PackBits(px[8..], k - 8);
      assert (k - 8) / 8 == k / 8 - 1 && (k - 8) % 8 == k % 8;
    }
  }

  /** Packing then unpacking reproduces the black/white pattern exactly. */
  lemma PackRoundTrip(px: seq<Gray>)
    ensures |px| <= 8 * |Pack(px)|
    ensures Unpack(Pack(px), |px|) == seq(|px|, k requires 0 <= k < |px| => White(px[k]))
  {
    PackLength(px);
    forall k | 0 <= k < |px|
      ensures Unpack(Pack(px), |px|)[k] == White(px[k])
    {
      PackBits(px, k);
    }
  }

  /** Packing proceeds eight pixels at a time, so a whole-byte prefix packs on its own. */
  lemma {:induction false} PackAppend(done: seq<Gray>, chunk: seq<Gray>)
    requires |done| % 8 == 0 && 0 < |chunk| <= 8
    ensures Pack(done + chunk) == Pack(done) + [PackByte(chunk)]
    decreases |done|
  {
    if done == [] {
      assert done + chunk == chunk;
    } else {
      PackAppend(done[8..], chunk);
      var all := done + chunk;
      assert all[..8] == done[..8];
      assert all[8..] == done[8..] + chunk;
      assert Pack(all) == [PackByte(done[..8])] + Pack(done[8..] + chunk);
      if |done| == 8 {
        assert done[..8] == done;
      }
      assert Pack(done) == [PackByte(done[..8])] + Pack(done[8..]);
    }
  }

  /**
   * One pixel of the scan: `currentByte |= 1 << bitPosition` for a white pixel
   * turns the accumulator for `pending` into the one for `pending + [c]`.
   */
  lemma AccumulateStep(before: byte, bitPosition: bv8, white: bool, after: byte)
    requires bitPosition <= 7
    requires after == if white then before | (1 << bitPosition) else before
    ensures after == before | (if white then Mask(7 - bitPosition as int) else 0)
  {
    if white {
      MaskShift(bitPosition);
    } else {
      assert before | 0 == before;
    }
  }

  /** Appending a pixel ors its mask into the byte when it is white. */
  lemma PackByteSnoc(pending: seq<Gray>, c: Gray)
    requires |pending| < 8
    ensures PackByte(pending + [c]) == PackByte(pending) | (if White(c) then Mask(|pending|) else 0)
  {
    assert (pending + [c])[..|pending|] == pending;
  }

  /** The cursor's shift `1 << bitPosition` is the mask of pixel 7 - bitPosition. */
  lemma MaskShift(bitPosition: bv8)
    requires bitPosition <= 7
    ensures Mask(7 - bitPosition as int) == 1 << bitPosition
  {
    if bitPosition == 0 {} else if bitPosition == 1 {} else if bitPosition == 2 {} else if bitPosition == 3 {}
    else if bitPosition == 4 {} else if bitPosition == 5 {} else if bitPosition == 6 {} else {}
  }

  /** Row `y` of an image stored as `img[y, x]`. */
  function Row(img: array2<Gray>, y: nat): (r: seq<Gray>)
    requires y < img.Length0
    reads img
    ensures |r| == img.Length1
    ensures forall x :: 0 <= x < img.Length1 ==> r[x] == img[y, x]
  {
    seq(img.Length1, x requires 0 <= x < img.Length1 reads img => img[y, x])
  }

  /** The first `n` rows of the image in row-major order. */
  function Rows(img: array2<Gray>, n: nat): seq<Gray>
    requires n <= img.Length0
    reads img
  {
    if n == 0 then [] else Rows(img, n - 1) + Row(img, n - 1)
  }

  /** All pixels of the image in the order `encode1Bit` visits them. */
  function Pixels(img: array2<Gray>): seq<Gray>
    reads img
  {
    Rows(img, img.Length0)
  }

  lemma {:induction false} RowsAt(img: array2<Gray>, n: nat, y: nat, x: nat)
    requires n <= img.Length0 && y < n && x < img.Length1
    ensures |Rows(img, n)| == n * img.Length1
    ensures y * img.Length1 + x < n * img.Length1
    ensures Rows(img, n)[y * img.Length1 + x] == img[y, x]
  {
    var w := img.Length1;
    RowsLength(img, n - 1);
    assert n * w == (n - 1) * w + w;
    if y < n - 1 {
      RowsAt(img, n - 1, y, x);
    } else {
      assert y * w + x == (n - 1) * w + x;
    }
  }

  lemma {:induction false} RowsLength(img: array2<Gray>, n: nat)
    requires n <= img.Length0
    ensures |Rows(img, n)| == n * img.Length1
  {
    if n > 0 {
      RowsLength(img, n - 1);
      assert n * img.Length1 == (n - 1) * img.Length1 + img.Length1;
    }
  }

  /** Bookkeeping for one step of the scan: pixel (x, y) joins the pending pixels. */
  lemma ScanStep(img: array2<Gray>, y: nat, x: nat, packed: seq<Gray>, pending: seq<Gray>)
    requires y < img.Length0 && x < img.Length1
    requires packed + pending == Rows(img, y) + Row(img, y)[..x]
    ensures packed + pending + [img[y, x]] == Rows(img, y) + Row(img, y)[..x + 1]
  {
    assert Row(img, y)[..x + 1] == Row(img, y)[..x] + [img[y, x]];
    assert packed + (pending + [img[y, x]]) == (packed + pending) + [img[y, x]];
    assert (Rows(img, y) + Row(img, y)[..x]) + [img[y, x]] == Rows(img, y) + (Row(img, y)[..x] + [img[y, x]]);
  }

  /** Finishing row `y` finishes the first y + 1 rows. */
  lemma RowDone(img: array2<Gray>, y: nat)
    requires y < img.Length0
    ensures Rows(img, y) + Row(img, y)[..img.Length1] == Rows(img, y + 1)
  {
    assert Row(img, y)[..img.Length1] == Row(img, y);
  }

  /** A W×H image packs into ceil(W*H/8) bytes. */
  lemma PackedLength(img: array2<Gray>)
    ensures |Pack(Pixels(img))| == (img.Length0 * img.Length1 + 7) / 8
  {
    RowsLength(img, img.Length0);
    PackLength(Pixels(img));
  }

  /**
   * The packed image has ceil(W*H/8) bytes, and pixel (x, y) is bit
   * 7 - k mod 8 of byte k / 8 with k = y*W + x, set exactly when it is white.
   */
  lemma PixelBit(img: array2<Gray>, y: nat, x: nat)
    requires y < img.Length0 && x < img.Length1
    ensures |Pack(Pixels(img))| == (img.Length0 * img.Length1 + 7) / 8
    ensures (y * img.Length1 + x) / 8 < |Pack(Pixels(img))|
    ensures BitSet(Pack(Pixels(img))[(y * img.Length1 + x) / 8], (y * img.Length1 + x) % 8)
            <==> White(img[y, x])
  {
    var k := y * img.Length1 + x;
    RowsAt(img, img.Length0, y, x);
    PackedLength(img);
    PackBits(Pixels(img), k);
  }

  /**
   * The scan state of `encode1Bit`: `packed` are the pixels already written
   * out as whole bytes, `pending` those held in `currentByte`, and the cursor
   * `bitPosition` points at the bit the next pixel goes to.
   */
  ghost predicate Accumulated(out: seq<byte>, currentByte: byte, bitPosition: bv8, packed: seq<Gray>, pending: seq<Gray>)
  {
    && |packed| % 8 == 0 && |pending| < 8
    && out == Pack(packed)
    && currentByte == PackByte(pending)
    && bitPosition <= 7 && |pending| == 7 - bitPosition as int
  }

  /**
   * The body of the inner loop for one pixel: set the cursor's bit for a
   * white pixel, then either emit the byte and restart at the top bit or
   * move the cursor down one bit.
   */
  method PushPixel(out: seq<byte>, currentByte: byte, bitPosition: bv8, ghost packed: seq<Gray>, ghost pending: seq<Gray>, c: Gray)
    returns (out': seq<byte>, currentByte': byte, bitPosition': bv8, ghost packed': seq<Gray>, ghost pending': seq<Gray>)
    requires Accumulated(out, currentByte, bitPosition, packed, pending)
    ensures Accumulated(out', currentByte', bitPosition', packed', pending')
    ensures packed' + pending' == packed + pending + [c]
  {
    out', currentByte', bitPosition' := out, currentByte, bitPosition;
    if c > 127 {
      currentByte' := currentByte' | (1 << bitPosition');
    }
    AccumulateStep(currentByte, bitPosition, c > 127, currentByte');
    PackByteSnoc(pending, c);
    if bitPosition' == 0 {
      out' := out' + [currentByte'];
      PackAppend(packed, pending + [c]);
      packed', pending' := packed + (pending + [c]), [];
      currentByte' := 0;
      bitPosition' := 7;
    } else {
      packed', pending' := packed, pending + [c];
      bitPosition' := bitPosition' - 1;
    }
  }

  /**
   * `encode1Bit`: the nested scan with a bit cursor starting at 7, an
   * accumulator byte emitted when the cursor passes bit 0, and a final flush
   * of a partial byte.
   */
  method Encode1Bit(img: array2<Gray>) returns (out: seq<byte>)
    ensures out == Pack(Pixels(img))
    ensures |out| == (img.Length0 * img.Length1 + 7) / 8
  {
    out := [];
    var currentByte: byte := 0;
    var bitPosition: bv8 := 7;
    ghost var packed: seq<Gray> := [];
    ghost var pending: seq<Gray> := [];
    var y := 0;
    while y < img.Length0
      invariant 0 <= y <= img.Length0
      invariant packed + pending == Rows(img, y)
      invariant Accumulated(out, currentByte, bitPosition, packed, pending)
    {
      var x := 0;
      while x < img.Length1
        invariant 0 <= x <= img.Length1
        invariant packed + pending == Rows(img, y) + Row(img, y)[..x]
        invariant Accumulated(out, currentByte, bitPosition, packed, pending)
      {
        ScanStep(img, y, x, packed, pending);
        out, currentByte, bitPosition, packed, pending := PushPixel(out, currentByte, bitPosition, packed, pending, img[y, x]);
        x := x + 1;
      }
      RowDone(img, y);
      y := y + 1;
    }
    if bitPosition != 7 {
      PackAppend(packed, pending);
      out := out + [currentByte];
    } else {
      assert packed + pending == packed;
    }
    PackedLength(img);
  }
}
