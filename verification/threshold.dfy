/** Thresholding an RGBA pixel source into a `Binary` (the two
    `FromGrayThreshold`s of bin-img/img.go). */
module Threshold {
  import opened Bits
  import opened Arith
  import opened Results
  import opened BinImg

  type Uint8 = t: int | 0 <= t < 256

  /** An `image.Image` reduced to what the thresholding reads: its bounds and
      the 16-bit RGBA of each point. */
  datatype PixelSource = PixelSource(bounds: Rectangle, at: (int, int) -> RGBA)

  /** The 8-bit luma `((299*r + 587*g + 114*b) / 1000) >> 8`. It is at most
      255, so the `uint8(...)` conversion of the source never truncates. */
  function Luma8(c: RGBA): (y: int)
    ensures 0 <= y <= 255
  {
    Luma16(c) / 256
  }

  /** The black/white decision: a transparent pixel is off; otherwise the
      pixel is on when its 8-bit luma is at least the threshold. */
  predicate ThresholdOn(c: RGBA, t: Uint8)
  {
    c.a != 0 && Luma8(c) >= t
  }

  /** The `Set`/`BinaryModel` decision is the threshold decision at 128. */
  lemma BinaryModelIsThreshold128(c: RGBA)
    ensures BinaryModel(c) == Gray(255) <==> ThresholdOn(c, 128)
  {
  }

  /** Bit k of byte i after thresholding: the decision for the pixel the bit
      holds; bits that hold no pixel are cleared. */
  predicate ThresholdBit(b: Binary, src: (int, int) -> RGBA, t: Uint8, i: int, k: int)
  {
    match PixelAt(b, i, k)
    case Some(p) => ThresholdOn(src(p.x, p.y), t)
    case None => false
  }

  /** The same bit while the row holding it is being filled, after the
      pixels left of column `x` have been decided. */
  predicate PartialBit(b: Binary, src: (int, int) -> RGBA, t: Uint8, i: int, k: int, x: int)
  {
    match PixelAt(b, i, k)
    case Some(p) => p.x < x && ThresholdOn(src(p.x, p.y), t)
    case None => false
  }

  /** The image the receiver form of FromGrayThreshold produces from b: the
      first `Dy * stride` bytes (every visible row in full) are rewritten,
      the rest of the buffer is kept. */
  function Thresholded(b: Binary, src: (int, int) -> RGBA, t: Uint8): (r: Binary)
    requires Valid(b) && b.rect.Dy() * b.stride <= |b.pix|
    ensures Valid(r) && r.rect == b.rect && r.stride == b.stride && |r.pix| == |b.pix|
    ensures forall x, y :: b.rect.Contains(x, y) ==> (Bit(r, x, y) <==> ThresholdOn(src(x, y), t))
    ensures forall i, k :: 0 <= i < b.rect.Dy() * b.stride && 0 <= k < 8 && PixelAt(b, i, k).None? ==>
              !BitOf(r.pix[i], k)
    ensures forall i :: b.rect.Dy() * b.stride <= i < |b.pix| ==> r.pix[i] == b.pix[i]
    ensures forall i, k :: 0 <= i < b.rect.Dy() * b.stride && 0 <= k < 8 ==>
              BitOf(r.pix[i], k) == ThresholdBit(b, src, t, i, k)
  {
    var n := b.rect.Dy() * b.stride;
    var r := b.(pix := seq(|b.pix|, i requires 0 <= i < |b.pix| =>
                           if i < n then ByteFromBits(k => ThresholdBit(b, src, t, i, k)) else b.pix[i]));
    ThresholdedPixels(b, src, t, r);
    r
  }

  lemma ThresholdedPixels(b: Binary, src: (int, int) -> RGBA, t: Uint8, r: Binary)
    requires Valid(b) && b.rect.Dy() * b.stride <= |b.pix|
    requires r.rect == b.rect && r.stride == b.stride && |r.pix| == |b.pix|
    requires forall i :: 0 <= i < b.rect.Dy() * b.stride ==>
               r.pix[i] == ByteFromBits(k => ThresholdBit(b, src, t, i, k))
    ensures forall x, y :: b.rect.Contains(x, y) ==> (Bit(r, x, y) <==> ThresholdOn(src(x, y), t))
  {
    forall x, y | b.rect.Contains(x, y)
      ensures Bit(r, x, y) <==> ThresholdOn(src(x, y), t)
    {
      var dy := y - b.rect.min.y;
      var c := (x - b.rect.min.x) / 8;
      RowMajorBound(dy, c, b.stride, b.rect.Dy());
      PixelAtOfPixel(b, x, y);
      var i := PixOffset(b, x, y);
      assert ThresholdBit(b, src, t, i, x % 8) == ThresholdOn(src(x, y), t);
    }
  }

  /** Every bit the PixelAt map gives to row dy belongs to a pixel of row dy. */
  lemma PixelOfRow(b: Binary, dy: int, c: int, k: int)
    requires Valid(b) && 0 <= dy && 0 <= c < b.stride && PixelAt(b, dy * b.stride + c, k).Some?
    ensures PixelAt(b, dy * b.stride + c, k).value.y == b.rect.min.y + dy
    ensures PixelAt(b, dy * b.stride + c, k).value.x >= b.rect.min.x
  {
    DivModOf(dy, c, b.stride);
    PixelAtIsPixel(b, dy * b.stride + c, k);
  }

  /** One row of the receiver form of FromGrayThreshold: zero the row's
      `stride` bytes, then set the bit of every visible pixel of row y whose
      source colour passes the threshold. Bytes of other rows are kept. */
  method ThresholdRow(b: Binary, src: (int, int) -> RGBA, t: Uint8, pix: seq<bv8>, y: int)
    returns (out: seq<bv8>)
    requires Valid(b) && b.rect.Dy() * b.stride <= |b.pix| == |pix|
    requires b.rect.min.y <= y < b.rect.max.y
    ensures |out| == |pix|
    ensures var off := (y - b.rect.min.y) * b.stride;
      && 0 <= off && off + b.stride <= |pix|
      && (forall i :: 0 <= i < |pix| && !(off <= i < off + b.stride) ==> out[i] == pix[i])
      && (forall i, k :: off <= i < off + b.stride && 0 <= k < 8 ==>
            BitOf(out[i], k) == ThresholdBit(b, src, t, i, k))
  {
    var minX := b.rect.min.x;
    var dy := y - b.rect.min.y;
    var off := dy * b.stride;
    MulMonotone(dy + 1, b.rect.Dy(), b.stride);
    MulMonotone(0, dy, b.stride);
    assert (dy + 1) * b.stride == off + b.stride;
    // zero the row first
    out := pix[..off] + seq(b.stride, _ => 0) + pix[off + b.stride..];
    forall i, k | off <= i < off + b.stride && 0 <= k < 8
      ensures BitOf(out[i], k) == PartialBit(b, src, t, i, k, minX)
    {
      if PixelAt(b, i, k).Some? {
        PixelOfRow(b, dy, i - off, k);
      }
    }
    var x := minX;
    while x < b.rect.max.x
      invariant minX <= x <= b.rect.max.x
      invariant |out| == |pix|
      invariant forall i :: 0 <= i < |pix| && !(off <= i < off + b.stride) ==> out[i] == pix[i]
      invariant forall i, k :: off <= i < off + b.stride && 0 <= k < 8 ==>
                  BitOf(out[i], k) == PartialBit(b, src, t, i, k, x)
    {
      var col := src(x, y);
      var on := if col.a == 0 then false else Luma8(col) >= t;
      var c := (x - minX) / 8;
      PixelAtOfPixel(b, x, y);
      var before := out;
      if on {
        out := out[off + c := WithBit(out[off + c], x % 8, true)];
      }
      PartialBitStep(b, src, t, before, out, dy, x, y);
      x := x + 1;
    }
    forall i, k | off <= i < off + b.stride && 0 <= k < 8
      ensures BitOf(out[i], k) == ThresholdBit(b, src, t, i, k)
    {
      if PixelAt(b, i, k).Some? {
        PixelAtIsPixel(b, i, k);
      }
    }
  }

  /** Deciding pixel (x, y) extends the decided part of its row by one. */
  lemma PartialBitStep(b: Binary, src: (int, int) -> RGBA, t: Uint8, before: seq<bv8>, after: seq<bv8>,
                       dy: int, x: int, y: int)
    requires Valid(b) && b.rect.Contains(x, y) && dy == y - b.rect.min.y
    requires 0 <= dy * b.stride && dy * b.stride + b.stride <= |b.pix|
    requires |before| == |after| == |b.pix|
    requires forall i, k :: dy * b.stride <= i < dy * b.stride + b.stride && 0 <= k < 8 ==>
               BitOf(before[i], k) == PartialBit(b, src, t, i, k, x)
    requires var at := PixOffset(b, x, y);
      && BitOf(after[at], x % 8) == ThresholdOn(src(x, y), t)
      && (forall i, k :: 0 <= i < |b.pix| && 0 <= k < 8 && (i != at || k != x % 8) ==>
            BitOf(after[i], k) == BitOf(before[i], k))
    ensures forall i, k :: dy * b.stride <= i < dy * b.stride + b.stride && 0 <= k < 8 ==>
              BitOf(after[i], k) == PartialBit(b, src, t, i, k, x + 1)
  {
    var off := dy * b.stride;
    PixelAtOfPixel(b, x, y);
    forall i, k | off <= i < off + b.stride && 0 <= k < 8
      ensures BitOf(after[i], k) == PartialBit(b, src, t, i, k, x + 1)
    {
      if PixelAt(b, i, k).Some? {
        PixelOfRow(b, dy, i - off, k);
        PixelAtIsPixel(b, i, k);
      }
    }
  }

  /** The receiver form `(*Binary).FromGrayThreshold`: every visible row is
      rebuilt in turn by ThresholdRow. */
  method ThresholdInto(b: Binary, src: (int, int) -> RGBA, t: Uint8) returns (r: Binary)
    requires Valid(b) && b.rect.Dy() * b.stride <= |b.pix|
    ensures r == Thresholded(b, src, t)
  {
    var spec := Thresholded(b, src, t);
    var minY := b.rect.min.y;
    var pix := b.pix;
    var y := minY;
    while y < b.rect.max.y
      invariant minY <= y <= b.rect.max.y
      invariant |pix| == |b.pix|
      invariant forall i :: 0 <= i < |pix| ==>
                  pix[i] == (if i < (y - minY) * b.stride then spec.pix[i] else b.pix[i])
    {
      var before := pix;
      pix := ThresholdRow(b, src, t, pix, y);
      RowDone(b, src, t, spec, before, pix, y - minY);
      y := y + 1;
    }
    assert pix == spec.pix;
    r := b.(pix := pix);
  }

  /** After row dy is rebuilt, the rows above it and row dy agree with the
      specification and the rows below it are still the input's. */
  lemma RowDone(b: Binary, src: (int, int) -> RGBA, t: Uint8, spec: Binary, before: seq<bv8>, after: seq<bv8>, dy: int)
    requires Valid(b) && b.rect.Dy() * b.stride <= |b.pix| && |spec.pix| == |b.pix|
    requires forall i, k :: 0 <= i < b.rect.Dy() * b.stride && 0 <= k < 8 ==>
               BitOf(spec.pix[i], k) == ThresholdBit(b, src, t, i, k)
    requires 0 <= dy < b.rect.Dy() && 0 <= dy * b.stride && dy * b.stride + b.stride <= |b.pix|
    requires |before| == |after| == |b.pix|
    requires forall i :: 0 <= i < |before| ==>
               before[i] == (if i < dy * b.stride then spec.pix[i] else b.pix[i])
    requires forall i :: 0 <= i < |before| && !(dy * b.stride <= i < dy * b.stride + b.stride) ==>
               after[i] == before[i]
    requires forall i, k :: dy * b.stride <= i < dy * b.stride + b.stride && 0 <= k < 8 ==>
               BitOf(after[i], k) == ThresholdBit(b, src, t, i, k)
    ensures forall i :: 0 <= i < |after| ==>
              after[i] == (if i < (dy + 1) * b.stride then spec.pix[i] else b.pix[i])
  {
    MulMonotone(dy + 1, b.rect.Dy(), b.stride);
    MulMonotone(0, dy, b.stride);
    assert (dy + 1) * b.stride == dy * b.stride + b.stride;
    forall i | dy * b.stride <= i < dy * b.stride + b.stride
      ensures after[i] == spec.pix[i]
    {
      forall k | 0 <= k < 8
        ensures BitOf(after[i], k) == BitOf(spec.pix[i], k)
      {
      }
      BitsDetermineByte(after[i], spec.pix[i]);
    }
  }

  /** The package-level `FromGrayThreshold`: a fresh image the size of the
      source's bounds, thresholded. It fails exactly as NewBinary does. */
  function FromGrayThreshold(src: PixelSource, t: Uint8): (r: Result<Binary>)
    ensures r.Err? <==> NewBinary(src.bounds.Dx(), src.bounds.Dy()).Err?
    ensures r.Err? ==> r.error == NewBinary(src.bounds.Dx(), src.bounds.Dy()).error
    ensures r.Ok? ==>
              && Valid(r.value)
              && r.value.rect == Rectangle(Point(0, 0), Point(src.bounds.Dx(), src.bounds.Dy()))
              && r.value.stride * 8 == src.bounds.Dx()
              && |r.value.pix| == r.value.stride * src.bounds.Dy()
              && forall x, y :: r.value.rect.Contains(x, y) ==>
                   (Bit(r.value, x, y) <==> ThresholdOn(src.at(x, y), t))
  {
    match NewBinary(src.bounds.Dx(), src.bounds.Dy())
    case Err(e) => Err(e)
    case Ok(b) => Ok(Thresholded(b, src.at, t))
  }
}
