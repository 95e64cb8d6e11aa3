/** `Rotate180` of bin-img/img.go: the visible rectangle turned by 180
    degrees in place, by a bit-by-bit general path and by a byte-level fast
    path for byte-aligned views. Both are proved to produce `Rotated180`. */
module Rotate {
  import opened Bits
  import opened Arith
  import opened Results
  import opened BinImg

  function MirrorX(b: Binary, x: int): int
  {
    b.rect.min.x + b.rect.max.x - 1 - x
  }

  function MirrorY(b: Binary, y: int): int
  {
    b.rect.min.y + b.rect.max.y - 1 - y
  }

  /** Bit k of byte i after the rotation: a pixel bit takes the state of
      the mirrored pixel, any other bit keeps its value. */
  predicate RotatedBit(b: Binary, i: int, k: int)
    requires Valid(b) && 0 <= i < |b.pix| && 0 <= k < 8
  {
    match PixelAt(b, i, k)
    case Some(p) =>
      PixelAtIsPixel(b, i, k);
      Bit(b, MirrorX(b, p.x), MirrorY(b, p.y))
    case None => BitOf(b.pix[i], k)
  }

  /** The 180-degree rotation of the visible rectangle: pixel (x, y) takes
      the old state of (min.x + max.x - 1 - x, min.y + max.y - 1 - y); no
      bit outside the visible pixels changes. */
  function Rotated180(b: Binary): (r: Binary)
    requires Valid(b)
    ensures Valid(r) && r.rect == b.rect && r.stride == b.stride && |r.pix| == |b.pix|
    ensures forall x, y :: b.rect.Contains(x, y) ==>
              Bit(r, x, y) == Bit(b, MirrorX(b, x), MirrorY(b, y))
    ensures forall i, k :: 0 <= i < |b.pix| && 0 <= k < 8 && PixelAt(b, i, k).None? ==>
              BitOf(r.pix[i], k) == BitOf(b.pix[i], k)
  {
    var pix := RotatedPix(b);
    RotatedPixels(b, pix);
    b.(pix := pix)
  }

  /** The buffer whose every bit is the rotated bit. */
  function RotatedPix(b: Binary): (pix: seq<bv8>)
    requires Valid(b)
    ensures |pix| == |b.pix|
    ensures forall i, k :: 0 <= i < |b.pix| && 0 <= k < 8 ==> BitOf(pix[i], k) == RotatedBit(b, i, k)
  {
    seq(|b.pix|, i requires 0 <= i < |b.pix| => ByteFromBits(k => 0 <= k < 8 && RotatedBit(b, i, k)))
  }

  /** A buffer of rotated bits shows each pixel's mirror. */
  lemma RotatedPixels(b: Binary, pix: seq<bv8>)
    requires Valid(b) && |pix| == |b.pix|
    requires forall i, k :: 0 <= i < |b.pix| && 0 <= k < 8 ==> BitOf(pix[i], k) == RotatedBit(b, i, k)
    ensures forall x, y :: b.rect.Contains(x, y) ==>
              Bit(b.(pix := pix), x, y) == Bit(b, MirrorX(b, x), MirrorY(b, y))
  {
    var r := b.(pix := pix);
    forall x, y | b.rect.Contains(x, y)
      ensures Bit(r, x, y) == Bit(b, MirrorX(b, x), MirrorY(b, y))
    {
      PixelAtOfPixel(b, x, y);
      assert PixOffset(r, x, y) == PixOffset(b, x, y);
    }
  }

  /** Bits that hold no visible pixel are the same in b and c. */
  ghost predicate SameNonPixelBits(b: Binary, c: Binary)
    requires |c.pix| == |b.pix|
  {
    forall i, k :: 0 <= i < |b.pix| && 0 <= k < 8 && PixelAt(b, i, k).None? ==>
      BitOf(c.pix[i], k) == BitOf(b.pix[i], k)
  }

  /** Reading a pixel bit through the buffer of any image with b's
      geometry gives that image's pixel. */
  lemma BitOfPixelAt(b: Binary, c: Binary, i: int, k: int)
    requires Valid(b) && c.rect == b.rect && c.stride == b.stride && |c.pix| == |b.pix|
    requires PixelAt(b, i, k).Some?
    ensures var p := PixelAt(b, i, k).value;
      && 0 <= i < |b.pix| && 0 <= k < 8 && b.rect.Contains(p.x, p.y)
      && Bit(c, p.x, p.y) == BitOf(c.pix[i], k)
  {
    PixelAtIsPixel(b, i, k);
    var p := PixelAt(b, i, k).value;
    assert PixOffset(c, p.x, p.y) == PixOffset(b, p.x, p.y);
  }

  /** r has b's geometry, b's pixels mirrored, and b's other bits. */
  ghost predicate IsRotationOf(b: Binary, r: Binary)
    requires Valid(b)
  {
    && r.rect == b.rect && r.stride == b.stride && |r.pix| == |b.pix|
    && (forall x, y {:trigger Bit(r, x, y)} :: b.rect.Contains(x, y) ==>
          Bit(r, x, y) == Bit(b, MirrorX(b, x), MirrorY(b, y)))
    && SameNonPixelBits(b, r)
  }

  lemma RotationsAgreeOnBit(b: Binary, r: Binary, s: Binary, i: int, k: int)
    requires Valid(b) && IsRotationOf(b, r) && IsRotationOf(b, s)
    requires 0 <= i < |b.pix| && 0 <= k < 8
    ensures BitOf(r.pix[i], k) == BitOf(s.pix[i], k)
  {
    if PixelAt(b, i, k).Some? {
      var p := PixelAt(b, i, k).value;
      BitOfPixelAt(b, r, i, k);
      BitOfPixelAt(b, s, i, k);
      assert Bit(r, p.x, p.y) == Bit(s, p.x, p.y);
    }
  }

  lemma RotationsAgreeOnByte(b: Binary, r: Binary, s: Binary, i: int)
    requires Valid(b) && IsRotationOf(b, r) && IsRotationOf(b, s)
    requires 0 <= i < |b.pix|
    ensures r.pix[i] == s.pix[i]
  {
    forall k | 0 <= k < 8
      ensures BitOf(r.pix[i], k) == BitOf(s.pix[i], k)
    {
      RotationsAgreeOnBit(b, r, s, i, k);
    }
    BitsDetermineByte(r.pix[i], s.pix[i]);
  }

  /** Rotated180 is the only image with b's geometry whose pixels are b's
      mirrored and whose other bits are b's. */
  lemma RotationUnique(b: Binary, r: Binary)
    requires Valid(b) && IsRotationOf(b, r)
    ensures r == Rotated180(b)
  {
    var s := Rotated180(b);
    assert IsRotationOf(b, s);
    forall i | 0 <= i < |b.pix|
      ensures r.pix[i] == s.pix[i]
    {
      RotationsAgreeOnByte(b, r, s, i);
    }
    assert r.pix == s.pix;
  }

  /** PixelAt depends only on the geometry. */
  lemma PixelAtSameGeometry(b: Binary, c: Binary, i: int, k: int)
    requires c.rect == b.rect && c.stride == b.stride
    ensures PixelAt(c, i, k) == PixelAt(b, i, k)
  {
  }

  /** b is in turn the rotation of its rotation. */
  lemma RotationSymmetric(b: Binary, r: Binary)
    requires Valid(b) && IsRotationOf(b, r)
    ensures Valid(r) && IsRotationOf(r, b)
  {
    forall x, y | r.rect.Contains(x, y)
      ensures Bit(b, x, y) == Bit(r, MirrorX(r, x), MirrorY(r, y))
    {
      var x', y' := MirrorX(b, x), MirrorY(b, y);
      assert b.rect.Contains(x', y');
      assert MirrorX(b, x') == x && MirrorY(b, y') == y;
    }
    forall i, k | 0 <= i < |r.pix| && 0 <= k < 8 && PixelAt(r, i, k).None?
      ensures BitOf(b.pix[i], k) == BitOf(r.pix[i], k)
    {
      PixelAtSameGeometry(b, r, i, k);
    }
  }

  /** Rotating twice gives back the image, bit for bit, padding included. */
  lemma Rotate180Involution(b: Binary)
    requires Valid(b)
    ensures Rotated180(Rotated180(b)) == b
  {
    var r := Rotated180(b);
    assert IsRotationOf(b, r);
    RotationSymmetric(b, r);
    RotationUnique(r, b);
  }

  /** An image with no pixel to move (empty, or at most one pixel) is its own
      rotation. */
  lemma RotationOfTrivialImage(b: Binary)
    requires Valid(b)
    requires b.rect.Dx() == 0 || b.rect.Dy() == 0 || (b.rect.Dx() <= 1 && b.rect.Dy() <= 1)
    ensures Rotated180(b) == b
  {
    assert IsRotationOf(b, b);
    RotationUnique(b, b);
  }

  // ---------------------------------------------------------------------
  // General path: swap mirrored pixels one bit at a time.

  /** r is c with the states of visible pixels (x1, y1) and (x2, y2)
      exchanged, every other pixel and every non-pixel bit unchanged. */
  ghost predicate Swapped(c: Binary, r: Binary, x1: int, y1: int, x2: int, y2: int)
    requires Valid(c) && c.rect.Contains(x1, y1) && c.rect.Contains(x2, y2)
  {
    && Valid(r) && r.rect == c.rect && r.stride == c.stride && |r.pix| == |c.pix|
    && Bit(r, x1, y1) == Bit(c, x2, y2) && Bit(r, x2, y2) == Bit(c, x1, y1)
    && (forall x, y {:trigger Bit(r, x, y)} :: c.rect.Contains(x, y) && (x != x1 || y != y1) && (x != x2 || y != y2) ==>
          Bit(r, x, y) == Bit(c, x, y))
    && (forall i, k :: 0 <= i < |c.pix| && 0 <= k < 8 && PixelAt(c, i, k).None? ==>
          BitOf(r.pix[i], k) == BitOf(c.pix[i], k))
  }

  /** Exchange the states of two visible pixels (two `bit` reads, two
      `setBit` writes). */
  method SwapPixels(c: Binary, x1: int, y1: int, x2: int, y2: int) returns (r: Binary)
    requires Valid(c) && c.rect.Contains(x1, y1) && c.rect.Contains(x2, y2)
    ensures Valid(r) && r.rect == c.rect && r.stride == c.stride && |r.pix| == |c.pix|
    ensures Swapped(c, r, x1, y1, x2, y2)
  {
    var b1 := Bit(c, x1, y1);
    var b2 := Bit(c, x2, y2);
    var m := SetBit(c, x1, y1, b2);
    PixelAtOfPixel(c, x1, y1);
    PixelAtOfPixel(c, x2, y2);
    r := SetBit(m, x2, y2, b1);
  }

  /** The pixel has been mirrored once row pairs above `y` (and their
      partners below) are done. */
  predicate RowPairDone(b: Binary, py: int, y: int)
  {
    py - b.rect.min.y < y || py - b.rect.min.y > b.rect.Dy() - 1 - y
  }

  /** Pixels of done rows hold their mirrored state, the rest the original. */
  ghost predicate RowsSwapped(b: Binary, c: Binary, y: int)
    requires Valid(b) && Valid(c) && c.rect == b.rect && c.stride == b.stride && |c.pix| == |b.pix|
  {
    forall px, py {:trigger Bit(c, px, py)} :: b.rect.Contains(px, py) ==>
      Bit(c, px, py) == (if RowPairDone(b, py, y) then Bit(b, MirrorX(b, px), MirrorY(b, py)) else Bit(b, px, py))
  }

  /** The pixel is done while rows y and h-1-y are being swapped and the
      first x columns of row y (last x of row h-1-y) have been exchanged. */
  predicate ColumnDone(b: Binary, px: int, py: int, y: int, x: int)
  {
    || RowPairDone(b, py, y)
    || (py == b.rect.min.y + y && px - b.rect.min.x < x)
    || (py == b.rect.max.y - 1 - y && px - b.rect.min.x > b.rect.Dx() - 1 - x)
  }

  ghost predicate ColumnsSwapped(b: Binary, c: Binary, y: int, x: int)
    requires Valid(b) && Valid(c) && c.rect == b.rect && c.stride == b.stride && |c.pix| == |b.pix|
  {
    forall px, py {:trigger Bit(c, px, py)} :: b.rect.Contains(px, py) ==>
      Bit(c, px, py) == (if ColumnDone(b, px, py, y, x) then Bit(b, MirrorX(b, px), MirrorY(b, py)) else Bit(b, px, py))
  }

  /** One step of the inner loop keeps ColumnsSwapped, seen at one pixel. */
  lemma ColumnStepAt(b: Binary, c: Binary, r: Binary, y: int, x: int, px: int, py: int)
    requires Valid(b) && Valid(c) && c.rect == b.rect && c.stride == b.stride && |c.pix| == |b.pix|
    requires 0 <= y < b.rect.Dy() / 2 && 0 <= x < b.rect.Dx()
    requires ColumnsSwapped(b, c, y, x)
    requires Swapped(c, r, b.rect.min.x + x, b.rect.min.y + y,
                     b.rect.min.x + (b.rect.Dx() - 1 - x), b.rect.min.y + (b.rect.Dy() - 1 - y))
    requires b.rect.Contains(px, py)
    ensures Bit(r, px, py) == (if ColumnDone(b, px, py, y, x + 1) then Bit(b, MirrorX(b, px), MirrorY(b, py)) else Bit(b, px, py))
  {
    hide Bit, PixOffset, PixelAt;
    var x1, y1 := b.rect.min.x + x, b.rect.min.y + y;
    var x2, y2 := b.rect.min.x + (b.rect.Dx() - 1 - x), b.rect.min.y + (b.rect.Dy() - 1 - y);
    assert MirrorX(b, x1) == x2 && MirrorY(b, y1) == y2;
    assert MirrorX(b, x2) == x1 && MirrorY(b, y2) == y1;
    if px == x1 && py == y1 {
      assert b.rect.Contains(x2, y2);
      assert Bit(c, x2, y2) == Bit(b, x2, y2);
    } else if px == x2 && py == y2 {
      assert b.rect.Contains(x1, y1);
      assert Bit(c, x1, y1) == Bit(b, x1, y1);
    } else {
      assert ColumnDone(b, px, py, y, x + 1) == ColumnDone(b, px, py, y, x);
      assert Bit(c, px, py) == (if ColumnDone(b, px, py, y, x) then Bit(b, MirrorX(b, px), MirrorY(b, py)) else Bit(b, px, py));
    }
  }

  /** The inner-loop step of the general path: exchange pixel x of row y
      with its mirror in row h-1-y. */
  lemma ColumnStep(b: Binary, c: Binary, r: Binary, y: int, x: int)
    requires Valid(b) && Valid(c) && c.rect == b.rect && c.stride == b.stride && |c.pix| == |b.pix|
    requires 0 <= y < b.rect.Dy() / 2 && 0 <= x < b.rect.Dx()
    requires ColumnsSwapped(b, c, y, x) && SameNonPixelBits(b, c)
    requires Swapped(c, r, b.rect.min.x + x, b.rect.min.y + y,
                     b.rect.min.x + (b.rect.Dx() - 1 - x), b.rect.min.y + (b.rect.Dy() - 1 - y))
    ensures Valid(r) && r.rect == b.rect && r.stride == b.stride && |r.pix| == |b.pix|
    ensures ColumnsSwapped(b, r, y, x + 1) && SameNonPixelBits(b, r)
  {
    forall px, py | b.rect.Contains(px, py)
      ensures Bit(r, px, py) == (if ColumnDone(b, px, py, y, x + 1) then Bit(b, MirrorX(b, px), MirrorY(b, py)) else Bit(b, px, py))
    {
      ColumnStepAt(b, c, r, y, x, px, py);
    }
    forall i, k | 0 <= i < |b.pix| && 0 <= k < 8 && PixelAt(b, i, k).None?
      ensures BitOf(r.pix[i], k) == BitOf(b.pix[i], k)
    {
      PixelAtSameGeometry(b, c, i, k);
    }
  }

  /** One pass of the outer loop of the general path: exchange row y with
      row h-1-y, each pixel with its mirror. */
  method SwapRowPair(b: Binary, c: Binary, y: int) returns (r: Binary)
    requires Valid(b) && Valid(c) && c.rect == b.rect && c.stride == b.stride && |c.pix| == |b.pix|
    requires 0 <= y < b.rect.Dy() / 2
    requires RowsSwapped(b, c, y) && SameNonPixelBits(b, c)
    ensures Valid(r) && r.rect == b.rect && r.stride == b.stride && |r.pix| == |b.pix|
    ensures RowsSwapped(b, r, y + 1) && SameNonPixelBits(b, r)
  {
    // The step lemmas carry the pixel reasoning; the loop needs none of it.
    hide Bit, PixOffset, PixelAt;
    var w := b.rect.Dx();
    r := c;
    RowsToColumns(b, c, y);
    var x := 0;
    while x < w
      invariant 0 <= x <= w
      invariant Valid(r) && r.rect == b.rect && r.stride == b.stride && |r.pix| == |b.pix|
      invariant ColumnsSwapped(b, r, y, x) && SameNonPixelBits(b, r)
    {
      var next := SwapPixels(r, b.rect.min.x + x, b.rect.min.y + y,
                             b.rect.min.x + (b.rect.Dx() - 1 - x), b.rect.min.y + (b.rect.Dy() - 1 - y));
      ColumnStep(b, r, next, y, x);
      r := next;
      x := x + 1;
    }
    ColumnsToRows(b, r, y);
  }

  lemma RowsToColumns(b: Binary, c: Binary, y: int)
    requires Valid(b) && Valid(c) && c.rect == b.rect && c.stride == b.stride && |c.pix| == |b.pix|
    requires 0 <= y < b.rect.Dy() / 2
    requires RowsSwapped(b, c, y)
    ensures ColumnsSwapped(b, c, y, 0)
  {
    forall px, py | b.rect.Contains(px, py)
      ensures ColumnDone(b, px, py, y, 0) == RowPairDone(b, py, y)
    {
    }
  }

  lemma ColumnsToRows(b: Binary, c: Binary, y: int)
    requires Valid(b) && Valid(c) && c.rect == b.rect && c.stride == b.stride && |c.pix| == |b.pix|
    requires 0 <= y < b.rect.Dy() / 2
    requires ColumnsSwapped(b, c, y, b.rect.Dx())
    ensures RowsSwapped(b, c, y + 1)
  {
    forall px, py | b.rect.Contains(px, py)
      ensures ColumnDone(b, px, py, y, b.rect.Dx()) == RowPairDone(b, py, y + 1)
    {
    }
  }

  /** The middle row of an odd-height rectangle has its first x columns
      exchanged with its last x. */
  ghost predicate MiddleSwapped(b: Binary, c: Binary, x: int)
    requires Valid(b) && Valid(c) && c.rect == b.rect && c.stride == b.stride && |c.pix| == |b.pix|
  {
    forall px, py {:trigger Bit(c, px, py)} :: b.rect.Contains(px, py) ==>
      Bit(c, px, py) == (if RowPairDone(b, py, b.rect.Dy() / 2) || px - b.rect.min.x < x || px - b.rect.min.x > b.rect.Dx() - 1 - x
                         then Bit(b, MirrorX(b, px), MirrorY(b, py)) else Bit(b, px, py))
  }

  /** One step of the middle-row loop keeps MiddleSwapped, seen at one
      pixel. */
  lemma MiddleStepAt(b: Binary, c: Binary, r: Binary, x: int, px: int, py: int)
    requires Valid(b) && Valid(c) && c.rect == b.rect && c.stride == b.stride && |c.pix| == |b.pix|
    requires b.rect.Dy() % 2 == 1 && 0 <= x < b.rect.Dx() / 2
    requires MiddleSwapped(b, c, x)
    requires Swapped(c, r, b.rect.min.x + x, b.rect.min.y + b.rect.Dy() / 2,
                     b.rect.min.x + (b.rect.Dx() - 1 - x), b.rect.min.y + b.rect.Dy() / 2)
    requires b.rect.Contains(px, py)
    ensures Bit(r, px, py) == (if RowPairDone(b, py, b.rect.Dy() / 2) || px - b.rect.min.x < x + 1 || px - b.rect.min.x > b.rect.Dx() - 1 - (x + 1)
                               then Bit(b, MirrorX(b, px), MirrorY(b, py)) else Bit(b, px, py))
  {
    hide Bit, PixOffset, PixelAt;
    var y := b.rect.min.y + b.rect.Dy() / 2;
    var x1, x2 := b.rect.min.x + x, b.rect.min.x + (b.rect.Dx() - 1 - x);
    assert MirrorX(b, x1) == x2 && MirrorX(b, x2) == x1 && MirrorY(b, y) == y;
    if px == x1 && py == y {
      assert Bit(c, x2, y) == Bit(b, x2, y);
    } else if px == x2 && py == y {
      assert Bit(c, x1, y) == Bit(b, x1, y);
    } else {
      assert Bit(c, px, py) == (if RowPairDone(b, py, b.rect.Dy() / 2) || px - b.rect.min.x < x || px - b.rect.min.x > b.rect.Dx() - 1 - x
                                then Bit(b, MirrorX(b, px), MirrorY(b, py)) else Bit(b, px, py));
    }
  }

  lemma MiddleStep(b: Binary, c: Binary, r: Binary, x: int)
    requires Valid(b) && Valid(c) && c.rect == b.rect && c.stride == b.stride && |c.pix| == |b.pix|
    requires b.rect.Dy() % 2 == 1 && 0 <= x < b.rect.Dx() / 2
    requires MiddleSwapped(b, c, x) && SameNonPixelBits(b, c)
    requires Swapped(c, r, b.rect.min.x + x, b.rect.min.y + b.rect.Dy() / 2,
                     b.rect.min.x + (b.rect.Dx() - 1 - x), b.rect.min.y + b.rect.Dy() / 2)
    ensures Valid(r) && r.rect == b.rect && r.stride == b.stride && |r.pix| == |b.pix|
    ensures MiddleSwapped(b, r, x + 1) && SameNonPixelBits(b, r)
  {
    forall px, py | b.rect.Contains(px, py)
      ensures Bit(r, px, py) == (if RowPairDone(b, py, b.rect.Dy() / 2) || px - b.rect.min.x < x + 1 || px - b.rect.min.x > b.rect.Dx() - 1 - (x + 1)
                                 then Bit(b, MirrorX(b, px), MirrorY(b, py)) else Bit(b, px, py))
    {
      MiddleStepAt(b, c, r, x, px, py);
    }
    forall i, k | 0 <= i < |b.pix| && 0 <= k < 8 && PixelAt(b, i, k).None?
      ensures BitOf(r.pix[i], k) == BitOf(b.pix[i], k)
    {
      PixelAtSameGeometry(b, c, i, k);
    }
  }

  lemma RowsToMiddle(b: Binary, c: Binary)
    requires Valid(b) && Valid(c) && c.rect == b.rect && c.stride == b.stride && |c.pix| == |b.pix|
    requires RowsSwapped(b, c, b.rect.Dy() / 2)
    ensures MiddleSwapped(b, c, 0)
  {
  }

  /** Once half the middle row is exchanged, every pixel is mirrored: the
      pixels left over are their own mirrors. */
  lemma MiddleDone(b: Binary, c: Binary)
    requires Valid(b) && Valid(c) && c.rect == b.rect && c.stride == b.stride && |c.pix| == |b.pix|
    requires b.rect.Dy() % 2 == 1
    requires MiddleSwapped(b, c, b.rect.Dx() / 2)
    ensures forall px, py :: b.rect.Contains(px, py) ==> Bit(c, px, py) == Bit(b, MirrorX(b, px), MirrorY(b, py))
  {
    forall px, py | b.rect.Contains(px, py)
      ensures Bit(c, px, py) == Bit(b, MirrorX(b, px), MirrorY(b, py))
    {
      if !RowPairDone(b, py, b.rect.Dy() / 2) && b.rect.Dx() / 2 <= px - b.rect.min.x <= b.rect.Dx() - 1 - b.rect.Dx() / 2 {
        assert MirrorX(b, px) == px && MirrorY(b, py) == py;
      }
    }
  }

  /** The tail of the general path for odd heights: mirror the middle row
      within itself. */
  method SwapMiddleRow(b: Binary, c: Binary) returns (r: Binary)
    requires Valid(b) && Valid(c) && c.rect == b.rect && c.stride == b.stride && |c.pix| == |b.pix|
    requires b.rect.Dy() % 2 == 1
    requires RowsSwapped(b, c, b.rect.Dy() / 2) && SameNonPixelBits(b, c)
    ensures Valid(r) && r.rect == b.rect && r.stride == b.stride && |r.pix| == |b.pix|
    ensures SameNonPixelBits(b, r)
    ensures forall px, py :: b.rect.Contains(px, py) ==> Bit(r, px, py) == Bit(b, MirrorX(b, px), MirrorY(b, py))
  {
    hide Bit, PixOffset, PixelAt;
    var w := b.rect.Dx();
    r := c;
    RowsToMiddle(b, c);
    var x := 0;
    while x < w / 2
      invariant 0 <= x <= w / 2
      invariant Valid(r) && r.rect == b.rect && r.stride == b.stride && |r.pix| == |b.pix|
      invariant MiddleSwapped(b, r, x) && SameNonPixelBits(b, r)
    {
      var next := SwapPixels(r, b.rect.min.x + x, b.rect.min.y + b.rect.Dy() / 2,
                             b.rect.min.x + (w - 1 - x), b.rect.min.y + b.rect.Dy() / 2);
      MiddleStep(b, r, next, x);
      r := next;
      x := x + 1;
    }
    MiddleDone(b, r);
  }

  /** The general path of `Rotate180`, correct for any view. */
  method Rotate180General(b: Binary) returns (r: Binary)
    requires Valid(b)
    ensures r == Rotated180(b)
  {
    var h := b.rect.Dy();
    r := b;
    var y := 0;
    while y < h / 2
      invariant 0 <= y <= h / 2
      invariant Valid(r) && r.rect == b.rect && r.stride == b.stride && |r.pix| == |b.pix|
      invariant RowsSwapped(b, r, y) && SameNonPixelBits(b, r)
    {
      r := SwapRowPair(b, r, y);
      y := y + 1;
    }
    if h % 2 == 1 {
      r := SwapMiddleRow(b, r);
    }
    assert IsRotationOf(b, r);
    RotationUnique(b, r);
  }
}
