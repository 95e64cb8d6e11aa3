/** The byte-level fast path of `Rotate180` and the method that chooses
    between the two paths.

    When the view starts on a byte boundary and its width is a whole number
    of bytes, every bit of a visible byte is a pixel, so turning the image
    by 180 degrees is: swap row y with row h-1-y, reverse the byte order of
    each row, and reverse the bits of each byte. */
module RotateFast {
  import opened Bits
  import opened Arith
  import opened BinImg
  import opened Rotate

  /** The view starts on a byte boundary and is a whole number of bytes wide
      (`Min.X & 7 == 0 && w & 7 == 0`; Go's `& 7` on an int is the Euclidean
      remainder). */
  predicate Aligned(b: Binary)
  {
    b.rect.min.x % 8 == 0 && b.rect.Dx() % 8 == 0
  }

  /** Row dy, byte column c of the buffer, for a positive stride. */
  lemma RowIndex(i: int, dy: int, s: int)
    requires s > 0 && dy * s <= i < dy * s + s
    ensures i / s == dy && i % s == i - dy * s
  {
    DivModOf(dy, i - dy * s, s);
  }

  /** The byte the fast path leaves at index i: a visible byte of row dy,
      column c becomes the bit reversal of byte rb-1-c of row h-1-dy; every
      other byte is kept. */
  function FastByte(b: Binary, i: int): bv8
    requires Valid(b) && 0 <= i < |b.pix|
  {
    var s, h, rb := b.stride, b.rect.Dy(), RowBytes(b.rect.Dx());
    if s > 0 && i / s < h && i % s < rb then
      MulMonotone(0, h - 1 - i / s, s);
      MulMonotone(h - 1 - i / s, h - 1, s);
      Reverse8(b.pix[(h - 1 - i / s) * s + (rb - 1 - i % s)])
    else b.pix[i]
  }

  /** The whole buffer as the fast path leaves it. */
  function FastRotation(b: Binary): (r: Binary)
    requires Valid(b)
    ensures r.rect == b.rect && r.stride == b.stride && |r.pix| == |b.pix|
    ensures forall i :: 0 <= i < |b.pix| ==> r.pix[i] == FastByte(b, i)
  {
    b.(pix := seq(|b.pix|, i requires 0 <= i < |b.pix| => FastByte(b, i)))
  }

  /** FastByte at row dy, column c, with both indices in the buffer. */
  lemma FastByteAt(b: Binary, dy: int, c: int)
    requires Valid(b) && 0 <= dy < b.rect.Dy() && 0 <= c < RowBytes(b.rect.Dx())
    ensures b.stride > 0
    ensures 0 <= dy * b.stride + c < |b.pix|
    ensures 0 <= (b.rect.Dy() - 1 - dy) * b.stride + (RowBytes(b.rect.Dx()) - 1 - c) < |b.pix|
    ensures FastByte(b, dy * b.stride + c)
         == Reverse8(b.pix[(b.rect.Dy() - 1 - dy) * b.stride + (RowBytes(b.rect.Dx()) - 1 - c)])
  {
    var s, h := b.stride, b.rect.Dy();
    MulMonotone(0, dy, s);
    MulMonotone(dy, h - 1, s);
    MulMonotone(0, h - 1 - dy, s);
    MulMonotone(h - 1 - dy, h - 1, s);
    RowIndex(dy * s + c, dy, s);
  }

  /** The mirror of pixel (min.x + 8c + k, min.y + dy) of an aligned view
      is bit 7 - k of byte (h-1-dy, rb-1-c). */
  lemma AlignedMirror(b: Binary, dy: int, c: int, k: int)
    requires Valid(b) && Aligned(b)
    requires 0 <= dy < b.rect.Dy() && 0 <= c < RowBytes(b.rect.Dx()) && 0 <= k < 8
    ensures var x, y := b.rect.min.x + 8 * c + k, b.rect.min.y + dy;
      && b.rect.Contains(x, y)
      && b.rect.Contains(MirrorX(b, x), MirrorY(b, y))
      && PixOffset(b, MirrorX(b, x), MirrorY(b, y))
         == (b.rect.Dy() - 1 - dy) * b.stride + (RowBytes(b.rect.Dx()) - 1 - c)
      && MirrorX(b, x) % 8 == 7 - k
  {
    var rb, minX := RowBytes(b.rect.Dx()), b.rect.min.x;
    assert b.rect.Dx() == 8 * rb;
    var x, y := minX + 8 * c + k, b.rect.min.y + dy;
    var x', y' := MirrorX(b, x), MirrorY(b, y);
    assert x' == minX + 8 * (rb - 1 - c) + (7 - k);
    ByteColumn(minX, rb - 1 - c, 7 - k);
    assert y' - b.rect.min.y == b.rect.Dy() - 1 - dy;
  }

  /** A pixel bit of an aligned view: bit k of byte i = (dy, c) holds pixel
      (min.x + 8c + k, min.y + dy), and FastByte there holds its mirror. */
  lemma FastPixelBit(b: Binary, i: int, k: int)
    requires Valid(b) && Aligned(b) && 0 <= i < |b.pix| && 0 <= k < 8
    requires PixelAt(b, i, k).Some?
    ensures var p := PixelAt(b, i, k).value;
      && b.rect.Contains(p.x, p.y)
      && b.rect.Contains(MirrorX(b, p.x), MirrorY(b, p.y))
      && BitOf(FastByte(b, i), k) == Bit(b, MirrorX(b, p.x), MirrorY(b, p.y))
  {
    AlignedPixelAt(b, i, k);
    hide PixelAt, MirrorX, MirrorY, PixOffset;
    var dy, c := i / b.stride, i % b.stride;
    AlignedMirror(b, dy, c, k);
    FastByteAt(b, dy, c);
  }

  /** The pixel bit k of byte i of an aligned view names: row i / stride,
      column 8 (i % stride) + k of the view. */
  lemma AlignedPixelAt(b: Binary, i: int, k: int)
    requires Valid(b) && Aligned(b) && 0 <= i < |b.pix| && 0 <= k < 8
    requires PixelAt(b, i, k).Some?
    ensures b.stride > 0 && i / b.stride < b.rect.Dy() && i % b.stride < RowBytes(b.rect.Dx())
    ensures i == (i / b.stride) * b.stride + i % b.stride
    ensures PixelAt(b, i, k).value
         == Point(b.rect.min.x + 8 * (i % b.stride) + k, b.rect.min.y + i / b.stride)
  {
    assert (k - b.rect.min.x) % 8 == k;
    assert b.rect.Dx() == 8 * RowBytes(b.rect.Dx());
  }

  /** In an aligned view every bit of a visible byte is a pixel bit. */
  lemma VisibleBytesHoldPixels(b: Binary, i: int, k: int)
    requires Valid(b) && Aligned(b) && 0 <= i && 0 <= k < 8
    ensures b.stride > 0 && i / b.stride < b.rect.Dy() && i % b.stride < RowBytes(b.rect.Dx())
            ==> PixelAt(b, i, k).Some?
  {
    if b.stride > 0 && i / b.stride < b.rect.Dy() && i % b.stride < RowBytes(b.rect.Dx()) {
      assert (k - b.rect.min.x) % 8 == k;
      assert b.rect.Dx() == 8 * RowBytes(b.rect.Dx());
    }
  }

  /** So a bit with no pixel lies in a byte the fast path keeps. */
  lemma FastKeepsNonPixelBit(b: Binary, i: int, k: int)
    requires Valid(b) && Aligned(b) && 0 <= i < |b.pix| && 0 <= k < 8
    requires PixelAt(b, i, k).None?
    ensures FastByte(b, i) == b.pix[i]
  {
    VisibleBytesHoldPixels(b, i, k);
  }

  /** Bit k of FastByte(b, i) is the rotated bit: the mirrored pixel for a
      pixel bit, the old bit otherwise. */
  lemma FastBitIsRotated(b: Binary, i: int, k: int)
    requires Valid(b) && Aligned(b) && 0 <= i < |b.pix| && 0 <= k < 8
    ensures PixelAt(b, i, k).Some? ==>
              var p := PixelAt(b, i, k).value;
              && b.rect.Contains(p.x, p.y)
              && b.rect.Contains(MirrorX(b, p.x), MirrorY(b, p.y))
              && BitOf(FastByte(b, i), k) == Bit(b, MirrorX(b, p.x), MirrorY(b, p.y))
    ensures PixelAt(b, i, k).None? ==> BitOf(FastByte(b, i), k) == BitOf(b.pix[i], k)
  {
    if PixelAt(b, i, k).Some? {
      FastPixelBit(b, i, k);
    } else {
      FastKeepsNonPixelBit(b, i, k);
    }
  }

  /** The fast path computes the 180-degree rotation of an aligned view. */
  lemma FastRotationIsRotated180(b: Binary)
    requires Valid(b) && Aligned(b)
    ensures FastRotation(b) == Rotated180(b)
  {
    var f := FastRotation(b);
    forall x, y | b.rect.Contains(x, y)
      ensures Bit(f, x, y) == Bit(b, MirrorX(b, x), MirrorY(b, y))
    {
      PixelAtOfPixel(b, x, y);
      FastBitIsRotated(b, PixOffset(b, x, y), x % 8);
      assert PixOffset(f, x, y) == PixOffset(b, x, y);
    }
    forall i, k | 0 <= i < |b.pix| && 0 <= k < 8 && PixelAt(b, i, k).None?
      ensures BitOf(f.pix[i], k) == BitOf(b.pix[i], k)
    {
      FastBitIsRotated(b, i, k);
    }
    assert IsRotationOf(b, f);
    RotationUnique(b, f);
  }

  // ---------------------------------------------------------------------
  // The loops of the fast path, on the buffer.

  /** Row i / stride is one of the first y rows or the last y rows. */
  predicate RowDoneFast(b: Binary, i: int, y: int)
  {
    b.stride > 0 && (i / b.stride < y || b.rect.Dy() - 1 - y < i / b.stride)
  }

  /** The buffer holds the fast path's bytes in the first y and the last y
      rows and the original bytes elsewhere. */
  ghost predicate RowsProgress(b: Binary, pix: seq<bv8>, y: int)
    requires Valid(b) && |pix| == |b.pix|
  {
    forall i :: 0 <= i < |pix| ==> pix[i] == (if RowDoneFast(b, i, y) then FastByte(b, i) else b.pix[i])
  }

  /** Where the row-pair pass stands after j steps of its inner loop. */
  predicate PairStepDone(b: Binary, y: int, j: int, i: int)
  {
    var s, rb := b.stride, RowBytes(b.rect.Dx());
    || RowDoneFast(b, i, y)
    || y * s <= i < y * s + j
    || (b.rect.Dy() - 1 - y) * s + rb - j <= i < (b.rect.Dy() - 1 - y) * s + rb
  }

  /** The row-pair pass after j steps: the fast path's bytes where
      PairStepDone holds, the original bytes elsewhere. */
  ghost predicate PairProgress(b: Binary, pix: seq<bv8>, y: int, j: int)
    requires Valid(b) && |pix| == |b.pix|
  {
    forall i :: 0 <= i < |pix| ==> pix[i] == (if PairStepDone(b, y, j, i) then FastByte(b, i) else b.pix[i])
  }

  /** The two bytes one inner step swaps lie in the buffer, in order, and
      neither has been written yet. */
  lemma PairStepFresh(b: Binary, y: int, j: int)
    requires Valid(b) && b.rect.Dx() > 0 && 0 <= y < b.rect.Dy() / 2
    requires 0 <= j < RowBytes(b.rect.Dx())
    ensures var s, h, rb := b.stride, b.rect.Dy(), RowBytes(b.rect.Dx());
      var i1, i2 := y * s + j, (h - 1 - y) * s + (rb - 1 - j);
      && 0 <= i1 < |b.pix| && 0 <= i2 < |b.pix| && i1 < i2
      && !PairStepDone(b, y, j, i1) && !PairStepDone(b, y, j, i2)
      && FastByte(b, i1) == Reverse8(b.pix[i2])
      && FastByte(b, i2) == Reverse8(b.pix[i1])
  {
    var s, h, rb := b.stride, b.rect.Dy(), RowBytes(b.rect.Dx());
    var i1, i2 := y * s + j, (h - 1 - y) * s + (rb - 1 - j);
    FastByteAt(b, y, j);
    FastByteAt(b, h - 1 - y, rb - 1 - j);
    hide FastByte;
    RowIndex(i1, y, s);
    RowIndex(i2, h - 1 - y, s);
    MulMonotone(y + 1, h - 1 - y, s);
  }

  /** The two bytes one inner step swaps: byte j of row y and byte rb-1-j of
      row h-1-y, both still original, and what the fast path puts there. */
  lemma PairStepBytes(b: Binary, pix: seq<bv8>, y: int, j: int)
    requires Valid(b) && b.rect.Dx() > 0 && 0 <= y < b.rect.Dy() / 2
    requires 0 <= j < RowBytes(b.rect.Dx()) && |pix| == |b.pix|
    requires PairProgress(b, pix, y, j)
    ensures var s, h, rb := b.stride, b.rect.Dy(), RowBytes(b.rect.Dx());
      var i1, i2 := y * s + j, (h - 1 - y) * s + (rb - 1 - j);
      && 0 <= i1 < |pix| && 0 <= i2 < |pix| && i1 < i2
      && pix[i1] == b.pix[i1] && pix[i2] == b.pix[i2]
      && FastByte(b, i1) == Reverse8(b.pix[i2])
      && FastByte(b, i2) == Reverse8(b.pix[i1])
  {
    hide FastByte, PairStepDone, RowBytes;
    PairStepFresh(b, y, j);
  }

  /** One inner step of the row-pair pass: writing both bytes advances the
      pass by one column. */
  lemma PairStep(b: Binary, pix: seq<bv8>, y: int, j: int, i1: int, i2: int)
    requires Valid(b) && b.rect.Dx() > 0 && 0 <= y < b.rect.Dy() / 2
    requires 0 <= j < RowBytes(b.rect.Dx()) && |pix| == |b.pix|
    requires i1 == y * b.stride + j
    requires i2 == (b.rect.Dy() - 1 - y) * b.stride + (RowBytes(b.rect.Dx()) - 1 - j)
    requires PairProgress(b, pix, y, j)
    ensures 0 <= i1 < |pix| && 0 <= i2 < |pix|
    ensures PairProgress(b, pix[i1 := Reverse8(pix[i2])][i2 := Reverse8(pix[i1])], y, j + 1)
  {
    PairStepBytes(b, pix, y, j);
    var out := pix[i1 := Reverse8(pix[i2])][i2 := Reverse8(pix[i1])];
    hide FastByte, RowDoneFast;
    forall i | 0 <= i < |out|
      ensures out[i] == (if PairStepDone(b, y, j + 1, i) then FastByte(b, i) else b.pix[i])
    {
      if i != i1 && i != i2 {
        assert PairStepDone(b, y, j + 1, i) == PairStepDone(b, y, j, i);
      }
    }
  }

  /** After the inner loop, the pass has finished row pair y. */
  lemma PairPassDone(b: Binary, y: int, i: int)
    requires Valid(b) && b.rect.Dx() > 0 && 0 <= y < b.rect.Dy() / 2 && 0 <= i < |b.pix|
    ensures PairStepDone(b, y, RowBytes(b.rect.Dx()), i) == RowDoneFast(b, i, y + 1)
         || FastByte(b, i) == b.pix[i]
  {
    var s, h, rb := b.stride, b.rect.Dy(), RowBytes(b.rect.Dx());
    assert s > 0;
    var dy := i / s;
    assert i == dy * s + i % s;
    if dy == y || dy == h - 1 - y {
      if i % s < rb {
        assert dy * s <= i < dy * s + rb;
      }
    } else {
      if y * s <= i < y * s + rb {
        RowIndex(i, y, s);
      }
      if (h - 1 - y) * s <= i < (h - 1 - y) * s + rb {
        RowIndex(i, h - 1 - y, s);
      }
    }
  }

  /** One pass of the fast path's outer loop: row y becomes the reversed
      row h-1-y and the other way round, byte order and bit order. */
  method SwapRowsFast(b: Binary, pix: seq<bv8>, y: int) returns (out: seq<bv8>)
    requires Valid(b) && b.rect.Dx() > 0 && 0 <= y < b.rect.Dy() / 2 && |pix| == |b.pix|
    requires RowsProgress(b, pix, y)
    ensures |out| == |b.pix|
    ensures RowsProgress(b, out, y + 1)
  {
    var s, h, rb := b.stride, b.rect.Dy(), RowBytes(b.rect.Dx());
    var off1 := y * s;
    var off2 := (h - 1 - y) * s;
    out := pix;
    assert PairProgress(b, out, y, 0);
    var j := 0;
    while j < rb
      invariant 0 <= j <= rb && |out| == |b.pix|
      invariant PairProgress(b, out, y, j)
    {
      var i1, i2 := off1 + j, off2 + (rb - 1 - j);
      PairStep(b, out, y, j, i1, i2);
      out := out[i1 := Reverse8(out[i2])][i2 := Reverse8(out[i1])];
      j := j + 1;
    }
    forall i | 0 <= i < |out|
      ensures out[i] == (if RowDoneFast(b, i, y + 1) then FastByte(b, i) else b.pix[i])
    {
      PairPassDone(b, y, i);
    }
  }

  /** Where the middle-row pass stands after j steps. */
  predicate MiddleStepDone(b: Binary, j: int, i: int)
  {
    var s, rb := b.stride, RowBytes(b.rect.Dx());
    var off := (b.rect.Dy() / 2) * s;
    || RowDoneFast(b, i, b.rect.Dy() / 2)
    || off <= i < off + j
    || off + rb - j <= i < off + rb
  }

  /** The middle pass after j steps. */
  ghost predicate MiddleProgress(b: Binary, pix: seq<bv8>, j: int)
    requires Valid(b) && |pix| == |b.pix|
  {
    forall i :: 0 <= i < |pix| ==> pix[i] == (if MiddleStepDone(b, j, i) then FastByte(b, i) else b.pix[i])
  }

  /** The two bytes one step of the middle pass swaps lie in the middle
      row, in order, and neither has been written yet. */
  lemma MiddleStepFresh(b: Binary, j: int)
    requires Valid(b) && b.rect.Dx() > 0 && b.rect.Dy() % 2 == 1
    requires 0 <= j < RowBytes(b.rect.Dx()) / 2
    ensures var s, h, rb := b.stride, b.rect.Dy(), RowBytes(b.rect.Dx());
      var i1, i2 := (h / 2) * s + j, (h / 2) * s + (rb - 1 - j);
      && 0 <= i1 < |b.pix| && 0 <= i2 < |b.pix| && i1 < i2
      && !MiddleStepDone(b, j, i1) && !MiddleStepDone(b, j, i2)
      && FastByte(b, i1) == Reverse8(b.pix[i2])
      && FastByte(b, i2) == Reverse8(b.pix[i1])
  {
    var s, h, rb := b.stride, b.rect.Dy(), RowBytes(b.rect.Dx());
    var i1, i2 := (h / 2) * s + j, (h / 2) * s + (rb - 1 - j);
    FastByteAt(b, h / 2, j);
    FastByteAt(b, h / 2, rb - 1 - j);
    hide FastByte;
    RowIndex(i1, h / 2, s);
    RowIndex(i2, h / 2, s);
  }

  /** The two bytes one step of the middle pass swaps: byte j and byte
      rb-1-j of the middle row, both still original. */
  lemma MiddleStepBytes(b: Binary, pix: seq<bv8>, j: int)
    requires Valid(b) && b.rect.Dx() > 0 && b.rect.Dy() % 2 == 1
    requires 0 <= j < RowBytes(b.rect.Dx()) / 2 && |pix| == |b.pix|
    requires MiddleProgress(b, pix, j)
    ensures var s, h, rb := b.stride, b.rect.Dy(), RowBytes(b.rect.Dx());
      var i1, i2 := (h / 2) * s + j, (h / 2) * s + (rb - 1 - j);
      && 0 <= i1 < |pix| && 0 <= i2 < |pix| && i1 < i2
      && pix[i1] == b.pix[i1] && pix[i2] == b.pix[i2]
      && FastByte(b, i1) == Reverse8(b.pix[i2])
      && FastByte(b, i2) == Reverse8(b.pix[i1])
  {
    hide FastByte, MiddleStepDone, RowBytes;
    MiddleStepFresh(b, j);
  }

  /** One step of the middle pass: writing both bytes advances it by one. */
  lemma MiddleStep(b: Binary, pix: seq<bv8>, j: int, i1: int, i2: int)
    requires Valid(b) && b.rect.Dx() > 0 && b.rect.Dy() % 2 == 1
    requires 0 <= j < RowBytes(b.rect.Dx()) / 2 && |pix| == |b.pix|
    requires i1 == (b.rect.Dy() / 2) * b.stride + j
    requires i2 == (b.rect.Dy() / 2) * b.stride + (RowBytes(b.rect.Dx()) - 1 - j)
    requires MiddleProgress(b, pix, j)
    ensures 0 <= i1 < |pix| && 0 <= i2 < |pix|
    ensures MiddleProgress(b, pix[i1 := Reverse8(pix[i2])][i2 := Reverse8(pix[i1])], j + 1)
  {
    MiddleStepBytes(b, pix, j);
    var out := pix[i1 := Reverse8(pix[i2])][i2 := Reverse8(pix[i1])];
    hide FastByte, RowDoneFast;
    forall i | 0 <= i < |out|
      ensures out[i] == (if MiddleStepDone(b, j + 1, i) then FastByte(b, i) else b.pix[i])
    {
      if i != i1 && i != i2 {
        assert MiddleStepDone(b, j + 1, i) == MiddleStepDone(b, j, i);
      }
    }
  }

  /** The middle byte of an odd-length middle row is its own partner. */
  lemma MiddleCentreByte(b: Binary, pix: seq<bv8>)
    requires Valid(b) && b.rect.Dx() > 0 && b.rect.Dy() % 2 == 1
    requires RowBytes(b.rect.Dx()) % 2 == 1 && |pix| == |b.pix|
    requires MiddleProgress(b, pix, RowBytes(b.rect.Dx()) / 2)
    ensures var i := (b.rect.Dy() / 2) * b.stride + RowBytes(b.rect.Dx()) / 2;
      && 0 <= i < |pix| && pix[i] == b.pix[i]
      && FastByte(b, i) == Reverse8(b.pix[i])
  {
    var s, h, rb := b.stride, b.rect.Dy(), RowBytes(b.rect.Dx());
    var i := (h / 2) * s + rb / 2;
    FastByteAt(b, h / 2, rb / 2);
    RowIndex(i, h / 2, s);
    assert !MiddleStepDone(b, rb / 2, i);
  }

  /** After the middle pass every byte holds the fast path's value. */
  lemma MiddlePassDone(b: Binary, i: int)
    requires Valid(b) && b.rect.Dx() > 0 && b.rect.Dy() % 2 == 1 && 0 <= i < |b.pix|
    ensures MiddleStepDone(b, RowBytes(b.rect.Dx()) / 2, i)
         || (RowBytes(b.rect.Dx()) % 2 == 1 && i == (b.rect.Dy() / 2) * b.stride + RowBytes(b.rect.Dx()) / 2)
         || FastByte(b, i) == b.pix[i]
  {
    var s, h, rb := b.stride, b.rect.Dy(), RowBytes(b.rect.Dx());
    if s > 0 {
      var dy := i / s;
      assert i == dy * s + i % s;
    }
  }

  /** Before the first pass no row is done and the buffer is the original. */
  lemma RowsStart(b: Binary)
    requires Valid(b)
    ensures RowsProgress(b, b.pix, 0)
  {
  }

  /** All rows done (an even height after its row pairs): the fast path's
      bytes everywhere. */
  lemma EvenRowsDone(b: Binary, pix: seq<bv8>)
    requires Valid(b) && b.rect.Dy() % 2 == 0 && |pix| == |b.pix|
    requires RowsProgress(b, pix, b.rect.Dy() / 2)
    ensures forall i :: 0 <= i < |pix| ==> pix[i] == FastByte(b, i)
  {
  }

  /** The loop over the first half of the middle row: byte j and byte
      rb-1-j swap places, each bit-reversed. */
  method ReverseMiddlePairs(b: Binary, pix: seq<bv8>) returns (out: seq<bv8>)
    requires Valid(b) && b.rect.Dx() > 0 && b.rect.Dy() % 2 == 1 && |pix| == |b.pix|
    requires RowsProgress(b, pix, b.rect.Dy() / 2)
    ensures |out| == |b.pix|
    ensures MiddleProgress(b, out, RowBytes(b.rect.Dx()) / 2)
  {
    var s, h, rb := b.stride, b.rect.Dy(), RowBytes(b.rect.Dx());
    var off := (h / 2) * s;
    out := pix;
    assert MiddleProgress(b, out, 0);
    var j := 0;
    while j < rb / 2
      invariant 0 <= j <= rb / 2 && |out| == |b.pix|
      invariant MiddleProgress(b, out, j)
    {
      var i1, i2 := off + j, off + (rb - 1 - j);
      MiddleStep(b, out, j, i1, i2);
      out := out[i1 := Reverse8(out[i2])][i2 := Reverse8(out[i1])];
      j := j + 1;
    }
  }

  /** The middle row of an odd height, reversed within itself. */
  method ReverseMiddleFast(b: Binary, pix: seq<bv8>) returns (out: seq<bv8>)
    requires Valid(b) && b.rect.Dx() > 0 && b.rect.Dy() % 2 == 1 && |pix| == |b.pix|
    requires RowsProgress(b, pix, b.rect.Dy() / 2)
    ensures |out| == |b.pix|
    ensures forall i :: 0 <= i < |out| ==> out[i] == FastByte(b, i)
  {
    var s, h, rb := b.stride, b.rect.Dy(), RowBytes(b.rect.Dx());
    var off := (h / 2) * s;
    out := ReverseMiddlePairs(b, pix);
    var mid := rb / 2;
    if rb % 2 == 1 {
      MiddleCentreByte(b, out);
      out := out[off + mid := Reverse8(out[off + mid])];
    }
    forall i | 0 <= i < |out|
      ensures out[i] == FastByte(b, i)
    {
      MiddlePassDone(b, i);
    }
  }

  /** The fast path of `Rotate180` for an aligned, non-empty-width view. */
  method Rotate180Fast(b: Binary) returns (r: Binary)
    requires Valid(b) && Aligned(b) && b.rect.Dx() > 0
    ensures r == Rotated180(b)
  {
    hide FastByte, RowDoneFast, RowsProgress, Rotated180;
    var h := b.rect.Dy();
    var pix := b.pix;
    RowsStart(b);
    var y := 0;
    while y < h / 2
      invariant 0 <= y <= h / 2 && |pix| == |b.pix|
      invariant RowsProgress(b, pix, y)
    {
      pix := SwapRowsFast(b, pix, y);
      y := y + 1;
    }
    if h % 2 == 1 {
      pix := ReverseMiddleFast(b, pix);
    } else {
      EvenRowsDone(b, pix);
    }
    r := b.(pix := pix);
    FastComplete(b, pix);
  }

  /** A buffer holding the fast path's byte everywhere is the rotation. */
  lemma FastComplete(b: Binary, pix: seq<bv8>)
    requires Valid(b) && Aligned(b) && |pix| == |b.pix|
    requires forall i :: 0 <= i < |pix| ==> pix[i] == FastByte(b, i)
    ensures b.(pix := pix) == Rotated180(b)
  {
    hide FastByte, Rotated180;
    assert b.(pix := pix) == FastRotation(b);
    FastRotationIsRotated180(b);
  }

  /** `Rotate180`: nothing to do for an image of at most one pixel or an
      empty width; the fast path for aligned views, the general path
      otherwise. Every branch yields the 180-degree rotation. */
  method Rotate180(b: Binary) returns (r: Binary)
    requires Valid(b)
    ensures r == Rotated180(b)
    ensures b.rect.Dx() <= 1 && b.rect.Dy() <= 1 ==> r == b
  {
    var w, h := b.rect.Dx(), b.rect.Dy();
    if w <= 1 && h <= 1 {
      RotationOfTrivialImage(b);
      return b;
    }
    var rowBytes := RowBytes(w);
    if rowBytes <= 0 {
      RotationOfTrivialImage(b);
      return b;
    }
    if b.rect.min.x % 8 != 0 || w % 8 != 0 {
      r := Rotate180General(b);
    } else {
      r := Rotate180Fast(b);
    }
  }
}
