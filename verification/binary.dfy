/** The 1-bit packed image `Binary` of bin-img/img.go.

    Pixels are packed eight to a byte, most significant bit first, rows
    `stride` bytes apart. Pixel (x, y) of the visible rectangle lives in byte
    `(y - min.y) * stride + (x - min.x) / 8` under the mask `0x80 >> (x & 7)`.
    A set bit means "on" (white), a clear bit "off" (black).
 */
module BinImg {
  import opened Bits
  import opened Arith
  import opened Results

  datatype Point = Point(x: int, y: int)

  /** Go's `image.Rectangle`: `min` inclusive, `max` exclusive. */
  datatype Rectangle = Rectangle(min: Point, max: Point) {
    function Dx(): int { max.x - min.x }
    function Dy(): int { max.y - min.y }

    /** `image.Pt(x, y).In(r)`. */
    predicate Contains(x: int, y: int) {
      min.x <= x < max.x && min.y <= y < max.y
    }
  }

  datatype Binary = Binary(pix: seq<bv8>, stride: int, rect: Rectangle)

  /** A 16-bit colour channel, as returned by Go's `color.Color.RGBA()`. */
  type Channel = c: int | 0 <= c <= 0xFFFF

  datatype RGBA = RGBA(r: Channel, g: Channel, b: Channel, a: Channel)

  /** `color.Gray`: an 8-bit grey level. */
  datatype Gray = Gray(y: int)

  /** Bytes needed for a row of w pixels, `(w + 7) >> 3`. */
  function RowBytes(w: int): int
  {
    (w + 7) / 8
  }

  /** The shape every `Binary` the package builds has: a non-negative stride
      and rectangle, and a buffer long enough that every visible pixel is
      addressable (the Go code would otherwise panic on a slice index). */
  predicate Valid(b: Binary)
  {
    && b.stride >= 0
    && b.rect.Dx() >= 0
    && b.rect.Dy() >= 0
    && (b.rect.Dx() > 0 && b.rect.Dy() > 0 ==>
          && RowBytes(b.rect.Dx()) <= b.stride
          && (b.rect.Dy() - 1) * b.stride + RowBytes(b.rect.Dx()) <= |b.pix|)
  }

  /** `pixOffset`: the byte holding visible pixel (x, y). */
  function PixOffset(b: Binary, x: int, y: int): (i: int)
    requires Valid(b) && b.rect.Contains(x, y)
    ensures 0 <= i < |b.pix|
  {
    var dy := y - b.rect.min.y;
    MulMonotone(0, dy, b.stride);
    MulMonotone(dy, b.rect.Dy() - 1, b.stride);
    dy * b.stride + (x - b.rect.min.x) / 8
  }

  /** `bit`: the state of visible pixel (x, y). */
  predicate Bit(b: Binary, x: int, y: int)
    requires Valid(b) && b.rect.Contains(x, y)
  {
    BitOf(b.pix[PixOffset(b, x, y)], x % 8)
  }

  /** The inverse of the addressing: the visible pixel whose state is bit k
      of byte i, if any. Bytes past the last row, bytes of a row beyond the
      visible width and padding bits have no pixel. */
  function PixelAt(b: Binary, i: int, k: int): Option<Point>
  {
    if b.stride <= 0 || i < 0 || k < 0 || k >= 8 then None
    else
      var dy := i / b.stride;
      var x := b.rect.min.x + 8 * (i % b.stride) + (k - b.rect.min.x) % 8;
      if dy < b.rect.Dy() && x < b.rect.max.x then Some(Point(x, b.rect.min.y + dy)) else None
  }

  /** Every visible pixel is found again from its byte and bit. */
  lemma PixelAtOfPixel(b: Binary, x: int, y: int)
    requires Valid(b) && b.rect.Contains(x, y)
    ensures PixelAt(b, PixOffset(b, x, y), x % 8) == Some(Point(x, y))
  {
    var dy := y - b.rect.min.y;
    var dx := x - b.rect.min.x;
    var c := dx / 8;
    assert c < RowBytes(b.rect.Dx()) <= b.stride;
    DivModOf(dy, c, b.stride);
    assert dx == 8 * c + dx % 8;
    assert (x % 8 - b.rect.min.x) % 8 == dx % 8;
  }

  /** A bit that PixelAt assigns to a pixel is that pixel's bit. */
  lemma PixelAtIsPixel(b: Binary, i: int, k: int)
    requires Valid(b) && PixelAt(b, i, k).Some?
    ensures var p := PixelAt(b, i, k).value;
      && b.rect.Contains(p.x, p.y)
      && PixOffset(b, p.x, p.y) == i
      && p.x % 8 == k
  {
    var s := b.stride;
    var dy := i / s;
    var c := i % s;
    var r := (k - b.rect.min.x) % 8;
    var p := PixelAt(b, i, k).value;
    assert p.x - b.rect.min.x == 8 * c + r;
    assert (p.x - b.rect.min.x) / 8 == c;
    assert i == dy * s + c;
  }

  /** Distinct visible pixels occupy distinct bits. */
  lemma PixelBitsDistinct(b: Binary, x1: int, y1: int, x2: int, y2: int)
    requires Valid(b) && b.rect.Contains(x1, y1) && b.rect.Contains(x2, y2)
    requires PixOffset(b, x1, y1) == PixOffset(b, x2, y2) && x1 % 8 == x2 % 8
    ensures x1 == x2 && y1 == y2
  {
    PixelAtOfPixel(b, x1, y1);
    PixelAtOfPixel(b, x2, y2);
  }

  /** `setBit`: turn visible pixel (x, y) on or off. Only that one bit of the
      buffer changes. */
  function SetBit(b: Binary, x: int, y: int, on: bool): (r: Binary)
    requires Valid(b) && b.rect.Contains(x, y)
    ensures r.stride == b.stride && r.rect == b.rect && |r.pix| == |b.pix|
    ensures Valid(r)
    ensures Bit(r, x, y) == on
    ensures forall x', y' :: b.rect.Contains(x', y') && (x' != x || y' != y) ==>
              Bit(r, x', y') == Bit(b, x', y')
    ensures forall i, k :: 0 <= i < |b.pix| && 0 <= k < 8 && (i != PixOffset(b, x, y) || k != x % 8) ==>
              BitOf(r.pix[i], k) == BitOf(b.pix[i], k)
  {
    var i := PixOffset(b, x, y);
    var r := b.(pix := b.pix[i := WithBit(b.pix[i], x % 8, on)]);
    SetBitKeepsOtherPixels(b, r, x, y);
    r
  }

  lemma SetBitKeepsOtherPixels(b: Binary, r: Binary, x: int, y: int)
    requires Valid(b) && b.rect.Contains(x, y)
    requires r.stride == b.stride && r.rect == b.rect && |r.pix| == |b.pix|
    requires forall i, k :: 0 <= i < |b.pix| && 0 <= k < 8 && (i != PixOffset(b, x, y) || k != x % 8) ==>
               BitOf(r.pix[i], k) == BitOf(b.pix[i], k)
    ensures forall x', y' :: b.rect.Contains(x', y') && (x' != x || y' != y) ==>
              Bit(r, x', y') == Bit(b, x', y')
  {
    forall x', y' | b.rect.Contains(x', y') && (x' != x || y' != y)
      ensures Bit(r, x', y') == Bit(b, x', y')
    {
      if PixOffset(b, x', y') == PixOffset(b, x, y) && x' % 8 == x % 8 {
        PixelBitsDistinct(b, x', y', x, y);
      }
    }
  }

  /** `SetOn`. */
  function SetOn(b: Binary, x: int, y: int): (r: Binary)
    requires Valid(b) && b.rect.Contains(x, y)
    ensures Valid(r) && r.rect == b.rect && Bit(r, x, y)
    ensures forall x', y' :: b.rect.Contains(x', y') && (x' != x || y' != y) ==>
              Bit(r, x', y') == Bit(b, x', y')
  {
    SetBit(b, x, y, true)
  }

  /** `SetOff`. */
  function SetOff(b: Binary, x: int, y: int): (r: Binary)
    requires Valid(b) && b.rect.Contains(x, y)
    ensures Valid(r) && r.rect == b.rect && !Bit(r, x, y)
    ensures forall x', y' :: b.rect.Contains(x', y') && (x' != x || y' != y) ==>
              Bit(r, x', y') == Bit(b, x', y')
  {
    SetBit(b, x, y, false)
  }

  /** `NewBinary`: a w x h image, all pixels off. Width must be a positive
      multiple of 8 and height positive. */
  function NewBinary(w: int, h: int): (r: Result<Binary>)
    ensures (w <= 0 || h <= 0) ==> r == Err(InvalidDimensions)
    ensures w > 0 && h > 0 && w % 8 != 0 ==> r == Err(WidthNotMultipleOf8)
    ensures r.Ok? <==> w > 0 && h > 0 && w % 8 == 0
    ensures r.Ok? ==>
              && Valid(r.value)
              && r.value.stride == w / 8
              && |r.value.pix| == (w / 8) * h
              && r.value.rect == Rectangle(Point(0, 0), Point(w, h))
    ensures r.Ok? ==> forall x, y :: r.value.rect.Contains(x, y) ==> !Bit(r.value, x, y)
  {
    if w <= 0 || h <= 0 then Err(InvalidDimensions)
    else if w % 8 != 0 then Err(WidthNotMultipleOf8)
    else
      var stride := w / 8;
      MulMonotone(h - 1, h, stride);
      assert (h - 1) * stride + stride == h * stride;
      Ok(Binary(seq(stride * h, _ => 0), stride, Rectangle(Point(0, 0), Point(w, h))))
  }

  /** `At`: the image.Image view. Points outside the rectangle read as black. */
  function At(b: Binary, x: int, y: int): (g: Gray)
    requires Valid(b)
    ensures g == Gray(0) || g == Gray(255)
    ensures !b.rect.Contains(x, y) ==> g == Gray(0)
    ensures b.rect.Contains(x, y) ==> (g == Gray(255) <==> Bit(b, x, y))
  {
    if !b.rect.Contains(x, y) then Gray(0)
    else if Bit(b, x, y) then Gray(255)
    else Gray(0)
  }

  /** `IsWhite`: no bounds check in the source, so (x, y) must be visible. */
  predicate IsWhite(b: Binary, x: int, y: int)
    requires Valid(b) && b.rect.Contains(x, y)
  {
    Bit(b, x, y)
  }

  /** `IsBlack`: the complement of IsWhite, read through the image.Image view. */
  predicate IsBlack(b: Binary, x: int, y: int)
    requires Valid(b) && b.rect.Contains(x, y)
    ensures IsBlack(b, x, y) <==> !IsWhite(b, x, y)
    ensures IsBlack(b, x, y) <==> At(b, x, y) == Gray(0)
  {
    !BitOf(b.pix[PixOffset(b, x, y)], x % 8)
  }

  /** `299*r + 587*g + 114*b` computed on uint32 channels; it never exceeds
      1000 * 0xFFFF, so the Go expression does not wrap. */
  function LumaSum(c: RGBA): (s: int)
    ensures 0 <= s <= 1000 * 0xFFFF < 0x1_0000_0000
  {
    299 * c.r + 587 * c.g + 114 * c.b
  }

  /** The 16-bit luma `(299*r + 587*g + 114*b) / 1000`. */
  function Luma16(c: RGBA): (y: int)
    ensures 0 <= y <= 0xFFFF
  {
    LumaSum(c) / 1000
  }

  /** `BinaryModel`: a colour becomes white when it is not transparent and
      its 16-bit luma reaches mid-grey 0x8000, and black otherwise. */
  function BinaryModel(c: RGBA): (g: Gray)
    ensures g == Gray(0) || g == Gray(255)
    ensures g == Gray(255) <==> c.a != 0 && Luma16(c) >= 0x8000
  {
    if c.a == 0 then Gray(0)
    else if Luma16(c) >= 0x8000 then Gray(255)
    else Gray(0)
  }

  /** `Set` (draw.Image): a no-op outside the rectangle; inside, the pixel
      takes the BinaryModel decision and no other pixel changes. */
  function Set(b: Binary, x: int, y: int, c: RGBA): (r: Binary)
    requires Valid(b)
    ensures !b.rect.Contains(x, y) ==> r == b
    ensures Valid(r) && r.rect == b.rect && r.stride == b.stride && |r.pix| == |b.pix|
    ensures b.rect.Contains(x, y) ==> (Bit(r, x, y) <==> c.a != 0 && Luma16(c) >= 0x8000)
    ensures forall x', y' :: b.rect.Contains(x', y') && (x' != x || y' != y) ==>
              Bit(r, x', y') == Bit(b, x', y')
  {
    if !b.rect.Contains(x, y) then b
    else SetBit(b, x, y, BinaryModel(c).y >= 128)
  }

  /** `Fill`: every byte of the buffer becomes 0xFF (on) or 0x00 (off). */
  function Fill(b: Binary, on: bool): (r: Binary)
    requires Valid(b)
    ensures Valid(r) && r.rect == b.rect && r.stride == b.stride && |r.pix| == |b.pix|
    ensures forall i :: 0 <= i < |r.pix| ==> r.pix[i] == (if on then 0xFF else 0x00)
    ensures forall x, y :: b.rect.Contains(x, y) ==> Bit(r, x, y) == on
  {
    var fill: bv8 := if on then 0xFF else 0x00;
    b.(pix := seq(|b.pix|, _ => fill))
  }
}
