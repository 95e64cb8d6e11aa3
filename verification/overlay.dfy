/** `OverlayBinary` of tspl.go: write a `Binary` image into the payload of
    an encoded `BITMAP` body at a pixel offset, bit by bit, without decoding
    the body. */
module Overlay {
  import opened Bits
  import opened Arith
  import opened Results
  import opened BinImg
  import opened Tspl
  import opened HeaderFrame

  /** Where an overlay of w x h pixels lands: the payload starts at
      headerEnd, rows are rowBytes apart, pixel (0, 0) goes to (xOff, yOff). */
  datatype Patch = Patch(headerEnd: int, rowBytes: int, xOff: int, yOff: int, w: int, h: int)

  /** What the copy loop needs: the overlay lies inside the rows' bits and
      inside the buffer of length len. */
  predicate Fits(p: Patch, len: int)
  {
    && p.headerEnd >= 0 && p.rowBytes > 0
    && p.xOff >= 0 && p.yOff >= 0 && p.w > 0 && p.h > 0
    && p.xOff + p.w <= 8 * p.rowBytes
    && p.headerEnd + (p.yOff + p.h) * p.rowBytes <= len
  }

  /** `headerEnd + y*rowBytes + x/8`: the byte holding pixel (x, y). */
  function ByteIndex(headerEnd: int, rowBytes: int, x: int, y: int): int
  {
    headerEnd + y * rowBytes + x / 8
  }

  /** `setBitmapBit`: bit `7 - x % 8` of byte ByteIndex is cleared when bit
      is 0 and set otherwise; nothing else changes. */
  function SetBitmapBit(body: seq<bv8>, headerEnd: int, rowBytes: int, x: int, y: int, bit: bv8): (r: seq<bv8>)
    requires x >= 0 && 0 <= ByteIndex(headerEnd, rowBytes, x, y) < |body|
    ensures |r| == |body|
    ensures forall j :: 0 <= j < |body| && j != ByteIndex(headerEnd, rowBytes, x, y) ==> r[j] == body[j]
    ensures var i := ByteIndex(headerEnd, rowBytes, x, y);
      && BitOf(r[i], x % 8) == (bit != 0)
      && forall k :: 0 <= k < 8 && k != x % 8 ==> BitOf(r[i], k) == BitOf(body[i], k)
  {
    var i := ByteIndex(headerEnd, rowBytes, x, y);
    var mask := LsbMask(x);
    var b := if bit == 0 then body[i] & !mask else body[i] | mask;
    assert b == WithBit(body[i], x % 8, bit != 0);
    body[i := b]
  }

  /** The inverse of the placement: the overlay pixel (ox, oy) whose state
      bit k of byte i receives, if any. */
  function Target(p: Patch, i: int, k: int): (t: Option<(int, int)>)
    ensures t.Some? ==> 0 <= t.value.0 < p.w && 0 <= t.value.1 < p.h
  {
    if p.rowBytes <= 0 || i < p.headerEnd || k < 0 || k >= 8 then None
    else
      var j := i - p.headerEnd;
      var ox := 8 * (j % p.rowBytes) + k - p.xOff;
      var oy := j / p.rowBytes - p.yOff;
      if 0 <= ox < p.w && 0 <= oy < p.h then Some((ox, oy)) else None
  }

  /** Every overlay pixel lands on a bit of the buffer, and Target finds it
      again there. */
  lemma TargetOfPixel(p: Patch, len: int, ox: int, oy: int)
    requires Fits(p, len) && 0 <= ox < p.w && 0 <= oy < p.h
    ensures var i := ByteIndex(p.headerEnd, p.rowBytes, ox + p.xOff, oy + p.yOff);
      && 0 <= i < len
      && Target(p, i, (ox + p.xOff) % 8) == Some((ox, oy))
  {
    var x, y := ox + p.xOff, oy + p.yOff;
    var c := x / 8;
    assert x == 8 * c + x % 8;
    RowMajorBound(y, c, p.rowBytes, p.yOff + p.h);
    DivModOf(y, c, p.rowBytes);
  }

  /** A bit Target assigns to an overlay pixel is where that pixel lands. */
  lemma PixelOfTarget(p: Patch, i: int, k: int)
    requires Target(p, i, k).Some?
    ensures var (ox, oy) := Target(p, i, k).value;
      && i == ByteIndex(p.headerEnd, p.rowBytes, ox + p.xOff, oy + p.yOff)
      && k == (ox + p.xOff) % 8
  {
    var j := i - p.headerEnd;
    var c := j % p.rowBytes;
    var (ox, oy) := Target(p, i, k).value;
    ByteColumn(0, c, k);
    assert ox + p.xOff == 8 * c + k;
    assert j == (j / p.rowBytes) * p.rowBytes + c;
  }

  /** The state overlay pixel (ox, oy) carries: `IsWhite` at its position
      in the overlay's own rectangle. */
  predicate OverlayBit(ov: Binary, ox: int, oy: int)
    requires Valid(ov) && 0 <= ox < ov.rect.Dx() && 0 <= oy < ov.rect.Dy()
  {
    IsWhite(ov, ov.rect.min.x + ox, ov.rect.min.y + oy)
  }

  predicate Sized(ov: Binary, p: Patch)
  {
    Valid(ov) && p.w == ov.rect.Dx() && p.h == ov.rect.Dy()
  }

  /** Bit k of byte i after the overlay: the overlay pixel it receives, or
      the base's bit (v is the base byte). */
  predicate PatchedBit(v: bv8, ov: Binary, p: Patch, i: int, k: int)
    requires Sized(ov, p)
  {
    0 <= k < 8 &&
    match Target(p, i, k)
    case Some((ox, oy)) => OverlayBit(ov, ox, oy)
    case None => BitOf(v, k)
  }

  /** The buffer after the overlay: every bit that receives an overlay
      pixel holds that pixel's state, every other bit is the base's. */
  function Patched(base: seq<bv8>, ov: Binary, p: Patch): (r: seq<bv8>)
    requires Sized(ov, p)
    ensures |r| == |base|
    ensures forall i, k :: 0 <= i < |base| && 0 <= k < 8 ==> BitOf(r[i], k) == PatchedBit(base[i], ov, p, i, k)
  {
    seq(|base|, i requires 0 <= i < |base| => ByteFromBits(k => PatchedBit(base[i], ov, p, i, k)))
  }

  /** The loop's progress: pixels before (x, y) in row-major order are
      written, the rest of the buffer is still the base. */
  predicate Written(ov: Binary, p: Patch, ox: int, oy: int, x: int, y: int)
  {
    oy < y || (oy == y && ox < x)
  }

  predicate PartialBit(v: bv8, ov: Binary, p: Patch, i: int, k: int, x: int, y: int)
    requires Sized(ov, p)
  {
    0 <= k < 8 &&
    match Target(p, i, k)
    case Some((ox, oy)) => if Written(ov, p, ox, oy, x, y) then OverlayBit(ov, ox, oy) else BitOf(v, k)
    case None => BitOf(v, k)
  }

  predicate Progress(base: seq<bv8>, res: seq<bv8>, ov: Binary, p: Patch, x: int, y: int)
    requires Sized(ov, p) && |res| == |base|
  {
    forall i, k :: 0 <= i < |base| && 0 <= k < 8 ==> BitOf(res[i], k) == PartialBit(base[i], ov, p, i, k, x, y)
  }

  /** Before the loop nothing is written. */
  lemma Start(base: seq<bv8>, ov: Binary, p: Patch)
    requires Sized(ov, p)
    ensures Progress(base, base, ov, p, 0, 0)
  {
  }

  /** Writing pixel (x, y) with setBitmapBit extends the progress by one. */
  lemma StepAt(base: seq<bv8>, before: seq<bv8>, after: seq<bv8>, ov: Binary, p: Patch, x: int, y: int, i: int, k: int)
    requires Sized(ov, p) && Fits(p, |base|) && 0 <= x < p.w && 0 <= y < p.h
    requires |before| == |after| == |base| && 0 <= i < |base| && 0 <= k < 8
    requires BitOf(before[i], k) == PartialBit(base[i], ov, p, i, k, x, y)
    requires var at := ByteIndex(p.headerEnd, p.rowBytes, x + p.xOff, y + p.yOff);
      BitOf(after[i], k) == if i == at && k == (x + p.xOff) % 8 then OverlayBit(ov, x, y) else BitOf(before[i], k)
    ensures BitOf(after[i], k) == PartialBit(base[i], ov, p, i, k, x + 1, y)
  {
    var at := ByteIndex(p.headerEnd, p.rowBytes, x + p.xOff, y + p.yOff);
    TargetOfPixel(p, |base|, x, y);
    if Target(p, i, k).Some? {
      PixelOfTarget(p, i, k);
    }
  }

  lemma Step(base: seq<bv8>, before: seq<bv8>, after: seq<bv8>, ov: Binary, p: Patch, x: int, y: int)
    requires Sized(ov, p) && Fits(p, |base|) && 0 <= x < p.w && 0 <= y < p.h
    requires |before| == |after| == |base|
    requires Progress(base, before, ov, p, x, y)
    requires var at := ByteIndex(p.headerEnd, p.rowBytes, x + p.xOff, y + p.yOff);
      && 0 <= at < |base|
      && (forall j :: 0 <= j < |base| && j != at ==> after[j] == before[j])
      && BitOf(after[at], (x + p.xOff) % 8) == OverlayBit(ov, x, y)
      && (forall k :: 0 <= k < 8 && k != (x + p.xOff) % 8 ==> BitOf(after[at], k) == BitOf(before[at], k))
    ensures Progress(base, after, ov, p, x + 1, y)
  {
    forall i, k | 0 <= i < |base| && 0 <= k < 8
      ensures BitOf(after[i], k) == PartialBit(base[i], ov, p, i, k, x + 1, y)
    {
      StepAt(base, before, after, ov, p, x, y, i, k);
    }
  }

  /** A finished row is the start of the next one. */
  lemma RowEnd(base: seq<bv8>, res: seq<bv8>, ov: Binary, p: Patch, y: int)
    requires Sized(ov, p) && |res| == |base|
    requires Progress(base, res, ov, p, p.w, y)
    ensures Progress(base, res, ov, p, 0, y + 1)
  {
    forall i, k | 0 <= i < |base| && 0 <= k < 8
      ensures BitOf(res[i], k) == PartialBit(base[i], ov, p, i, k, 0, y + 1)
    {
      assert PartialBit(base[i], ov, p, i, k, p.w, y) == PartialBit(base[i], ov, p, i, k, 0, y + 1);
    }
  }

  /** All rows written: the buffer is Patched. */
  lemma AllWritten(base: seq<bv8>, res: seq<bv8>, ov: Binary, p: Patch)
    requires Sized(ov, p) && |res| == |base|
    requires Progress(base, res, ov, p, 0, p.h)
    ensures res == Patched(base, ov, p)
  {
    var want := Patched(base, ov, p);
    forall i | 0 <= i < |base|
      ensures res[i] == want[i]
    {
      forall k | 0 <= k < 8
        ensures BitOf(res[i], k) == BitOf(want[i], k)
      {
        assert PartialBit(base[i], ov, p, i, k, 0, p.h) == PatchedBit(base[i], ov, p, i, k);
      }
      BitsDetermineByte(res[i], want[i]);
    }
  }

  /** The copy loop of OverlayBinary: for every overlay row and column, the
      pixel's state goes to its bit through setBitmapBit. */
  method CopyOverlay(base: seq<bv8>, ov: Binary, p: Patch) returns (res: seq<bv8>)
    requires Sized(ov, p) && Fits(p, |base|)
    ensures res == Patched(base, ov, p)
  {
    hide Bit, PixOffset, IsWhite, PartialBit, Target, ByteIndex;
    Start(base, ov, p);
    res := base;
    var y := 0;
    while y < p.h
      invariant 0 <= y <= p.h
      invariant |res| == |base|
      invariant Progress(base, res, ov, p, 0, y)
    {
      var x := 0;
      while x < p.w
        invariant 0 <= x <= p.w
        invariant |res| == |base|
        invariant Progress(base, res, ov, p, x, y)
      {
        var bit: bv8 := if IsWhite(ov, x + ov.rect.min.x, y + ov.rect.min.y) then 1 else 0;
        TargetOfPixel(p, |base|, x, y);
        var next := SetBitmapBit(res, p.headerEnd, p.rowBytes, x + p.xOff, y + p.yOff, bit);
        assert (bit != 0) == OverlayBit(ov, x, y);
        Step(base, res, next, ov, p, x, y);
        res := next;
        x := x + 1;
      }
      RowEnd(base, res, ov, p, y);
      y := y + 1;
    }
    AllWritten(base, res, ov, p);
  }

  // ---------------------------------------------------------------------
  // OverlayBinary.

  /** A header the copy can trust: the payload starts inside the buffer and
      a row's bits hold the whole width. Every parsed header is one. */
  predicate Describes(hd: BitmapHeader)
  {
    hd.headerEnd >= 0 && hd.width <= 8 * hd.rowBytes
  }

  /** The header supplied by the caller, or else the one parsed from base. */
  function BaseHeader(header: Option<BitmapHeader>, base: seq<bv8>): (r: Result<BitmapHeader>)
    ensures header.Some? ==> r == Ok(header.value)
    ensures header.None? ==> r == ParseBitmapHeader(base)
    ensures header.None? && r.Ok? ==> Describes(r.value)
  {
    if header.Some? then Ok(header.value) else ParseBitmapHeader(base)
  }

  function PatchOf(hd: BitmapHeader, ov: Binary, xOff: int, yOff: int): (p: Patch)
    ensures Sized(ov, p) <==> Valid(ov)
  {
    Patch(hd.headerEnd, hd.rowBytes, xOff, yOff, ov.rect.Dx(), ov.rect.Dy())
  }

  /** The checks OverlayBinary makes once it has a header, in its order. */
  function CheckPatch(hd: BitmapHeader, len: int, ov: Binary, xOff: int, yOff: int): (r: Option<Error>)
  {
    if hd.headerEnd + hd.rowBytes * hd.height > len then Some(BaseTooShort)
    else if ov.rect.Dx() <= 0 || ov.rect.Dy() <= 0 then Some(InvalidOverlaySize)
    else if xOff + ov.rect.Dx() > hd.width || yOff + ov.rect.Dy() > hd.height then Some(OverlayOutOfBounds)
    else None
  }

  /** A header that passed the checks places the overlay inside the buffer. */
  lemma CheckedFits(hd: BitmapHeader, len: int, ov: Binary, xOff: int, yOff: int)
    requires Describes(hd) && xOff >= 0 && yOff >= 0
    requires CheckPatch(hd, len, ov, xOff, yOff).None?
    ensures Fits(PatchOf(hd, ov, xOff, yOff), len)
  {
    var rb := hd.rowBytes;
    assert 8 * rb >= 1;
    MulMonotone(yOff + ov.rect.Dy(), hd.height, rb);
  }

  /** `OverlayBinary`: the "overlay is nil", negative offset, "base is
      empty", header parse, "base body too short", "invalid overlay size"
      and "overlay out of bounds" errors in that order; otherwise a copy of
      base in which each bit that receives an overlay pixel holds that
      pixel's state and every other byte and bit is the base's. */
  function OverlayBinary(header: Option<BitmapHeader>, base: seq<bv8>, overlay: Option<Binary>, xOff: int, yOff: int): (r: Result<seq<bv8>>)
    requires overlay.Some? ==> Valid(overlay.value)
    requires header.Some? ==> Describes(header.value)
    ensures overlay.None? ==> r == Err(NilOverlay)
    ensures overlay.Some? && (xOff < 0 || yOff < 0) ==> r == Err(NegativeOffset)
    ensures overlay.Some? && xOff >= 0 && yOff >= 0 && |base| == 0 ==> r == Err(EmptyBase)
    ensures overlay.Some? && xOff >= 0 && yOff >= 0 && |base| > 0 && BaseHeader(header, base).Err? ==>
      r == Err(BaseHeader(header, base).error)
    ensures overlay.Some? && xOff >= 0 && yOff >= 0 && |base| > 0 && BaseHeader(header, base).Ok? ==>
      var e := CheckPatch(BaseHeader(header, base).value, |base|, overlay.value, xOff, yOff);
      e.Some? ==> r == Err(e.value)
    ensures r.Ok? <==>
      && overlay.Some? && xOff >= 0 && yOff >= 0 && |base| > 0 && BaseHeader(header, base).Ok?
      && CheckPatch(BaseHeader(header, base).value, |base|, overlay.value, xOff, yOff).None?
    ensures r.Ok? ==>
      var p := PatchOf(BaseHeader(header, base).value, overlay.value, xOff, yOff);
      && Fits(p, |base|)
      && |r.value| == |base|
      && forall i, k :: 0 <= i < |base| && 0 <= k < 8 ==>
           BitOf(r.value[i], k) == PatchedBit(base[i], overlay.value, p, i, k)
  {
    if overlay.None? then Err(NilOverlay)
    else if xOff < 0 || yOff < 0 then Err(NegativeOffset)
    else if |base| == 0 then Err(EmptyBase)
    else
      match BaseHeader(header, base)
      case Err(e) => Err(e)
      case Ok(hd) =>
        var ov := overlay.value;
        match CheckPatch(hd, |base|, ov, xOff, yOff)
        case Some(e) => Err(e)
        case None =>
          CheckedFits(hd, |base|, ov, xOff, yOff);
          Ok(Patched(base, ov, PatchOf(hd, ov, xOff, yOff)))
  }

  /** `OverlayBinaryAtTopLeft`: the overlay at offset (0, 0). It fails as
      `OverlayBinary` does, except that no offset can be negative; on
      success the payload's pixel (x, y) is the overlay's pixel (x, y) and
      every bit the overlay does not cover is the base's. */
  function OverlayBinaryAtTopLeft(header: Option<BitmapHeader>, base: seq<bv8>, overlay: Option<Binary>): (r: Result<seq<bv8>>)
    requires overlay.Some? ==> Valid(overlay.value)
    requires header.Some? ==> Describes(header.value)
    ensures overlay.None? ==> r == Err(NilOverlay)
    ensures r != Err(NegativeOffset)
    ensures overlay.Some? && |base| == 0 ==> r == Err(EmptyBase)
    ensures overlay.Some? && |base| > 0 && BaseHeader(header, base).Err? ==>
      r == Err(BaseHeader(header, base).error)
    ensures overlay.Some? && |base| > 0 && BaseHeader(header, base).Ok? ==>
      var e := CheckPatch(BaseHeader(header, base).value, |base|, overlay.value, 0, 0);
      e.Some? ==> r == Err(e.value)
    ensures r.Ok? <==>
      && overlay.Some? && |base| > 0 && BaseHeader(header, base).Ok?
      && CheckPatch(BaseHeader(header, base).value, |base|, overlay.value, 0, 0).None?
    ensures r.Ok? ==>
      var hd, ov := BaseHeader(header, base).value, overlay.value;
      && |r.value| == |base|
      && (forall x, y :: 0 <= x < ov.rect.Dx() && 0 <= y < ov.rect.Dy() ==>
            (PixelIn(r.value, hd.headerEnd, hd.rowBytes, x, y) <==> OverlayBit(ov, x, y)))
      && (forall i, k :: 0 <= i < |base| && 0 <= k < 8 && Target(PatchOf(hd, ov, 0, 0), i, k).None? ==>
            BitOf(r.value[i], k) == BitOf(base[i], k))
  {
    var r := OverlayBinary(header, base, overlay, 0, 0);
    if r.Ok? then
      OverlayPixels(header, base, overlay.value, 0, 0, r.value);
      r
    else r
  }

  /** On success every overlay pixel can be read back at its offset
      position, and every byte outside the overlay's bits is the base's. */
  lemma OverlayPixels(header: Option<BitmapHeader>, base: seq<bv8>, ov: Binary, xOff: int, yOff: int, res: seq<bv8>)
    requires Valid(ov) && (header.Some? ==> Describes(header.value))
    requires OverlayBinary(header, base, Some(ov), xOff, yOff) == Ok(res)
    ensures var hd := BaseHeader(header, base).value;
      && (forall ox, oy :: 0 <= ox < ov.rect.Dx() && 0 <= oy < ov.rect.Dy() ==>
           (PixelIn(res, hd.headerEnd, hd.rowBytes, ox + xOff, oy + yOff) <==> OverlayBit(ov, ox, oy)))
      && (forall i, k :: 0 <= i < |base| && 0 <= k < 8 && Target(PatchOf(hd, ov, xOff, yOff), i, k).None? ==>
           BitOf(res[i], k) == BitOf(base[i], k))
  {
    var hd := BaseHeader(header, base).value;
    var p := PatchOf(hd, ov, xOff, yOff);
    forall ox, oy | 0 <= ox < ov.rect.Dx() && 0 <= oy < ov.rect.Dy()
      ensures PixelIn(res, hd.headerEnd, hd.rowBytes, ox + xOff, oy + yOff) <==> OverlayBit(ov, ox, oy)
    {
      TargetOfPixel(p, |base|, ox, oy);
    }
  }

  // ---------------------------------------------------------------------
  // Decoding an overlaid body.

  /** The bit holding payload pixel (x, y) receives the overlay pixel at
      (x - xOff, y - yOff) when that is inside the overlay, and none
      otherwise. */
  lemma PixelTarget(p: Patch, x: int, y: int)
    requires p.rowBytes > 0 && 0 <= x < 8 * p.rowBytes && y >= 0
    ensures p.headerEnd <= ByteIndex(p.headerEnd, p.rowBytes, x, y)
    ensures Target(p, ByteIndex(p.headerEnd, p.rowBytes, x, y), x % 8) ==
      if 0 <= x - p.xOff < p.w && 0 <= y - p.yOff < p.h then Some((x - p.xOff, y - p.yOff)) else None
  {
    var c := x / 8;
    assert x == 8 * c + x % 8;
    DivModOf(y, c, p.rowBytes);
  }

  /** Bytes before the payload or past its last row receive nothing. */
  lemma OutsidePayload(p: Patch, height: int, i: int, k: int)
    requires p.rowBytes > 0 && p.yOff + p.h <= height
    requires i < p.headerEnd || i >= p.headerEnd + p.rowBytes * height
    ensures Target(p, i, k).None?
  {
    if i >= p.headerEnd {
      var j := i - p.headerEnd;
      if j / p.rowBytes < height {
        assert j == (j / p.rowBytes) * p.rowBytes + j % p.rowBytes;
        MulMonotone(j / p.rowBytes + 1, height, p.rowBytes);
      }
    }
  }

  /** A byte none of whose bits receives an overlay pixel is the base's. */
  lemma UntouchedByte(base: seq<bv8>, res: seq<bv8>, ov: Binary, p: Patch, i: int)
    requires Sized(ov, p) && |res| == |base| && 0 <= i < |base|
    requires forall k :: 0 <= k < 8 ==> BitOf(res[i], k) == PatchedBit(base[i], ov, p, i, k)
    requires forall k :: 0 <= k < 8 ==> Target(p, i, k).None?
    ensures res[i] == base[i]
  {
    BitsDetermineByte(res[i], base[i]);
  }

  /** Payload pixel (x, y) of the overlaid buffer: the overlay's pixel
      inside the overlay's rectangle, the base's pixel elsewhere. */
  lemma PatchedPixel(base: seq<bv8>, res: seq<bv8>, ov: Binary, p: Patch, x: int, y: int)
    requires Sized(ov, p) && Fits(p, |base|) && |res| == |base|
    requires forall i, k :: 0 <= i < |base| && 0 <= k < 8 ==> BitOf(res[i], k) == PatchedBit(base[i], ov, p, i, k)
    requires 0 <= x < 8 * p.rowBytes && y >= 0
    ensures 0 <= x - p.xOff < p.w && 0 <= y - p.yOff < p.h ==>
      (PixelIn(res, p.headerEnd, p.rowBytes, x, y) <==> OverlayBit(ov, x - p.xOff, y - p.yOff))
    ensures !(0 <= x - p.xOff < p.w && 0 <= y - p.yOff < p.h) ==>
      (PixelIn(res, p.headerEnd, p.rowBytes, x, y) <==> PixelIn(base, p.headerEnd, p.rowBytes, x, y))
  {
    PixelTarget(p, x, y);
    if 0 <= x - p.xOff < p.w && 0 <= y - p.yOff < p.h {
      TargetOfPixel(p, |base|, x - p.xOff, y - p.yOff);
    }
  }

  /** Overlaying then decoding: the header and tail are the base's, the
      image has the base's size, the overlay shows at its offset and every
      other pixel is the base's. */
  lemma OverlayThenDecode(base: seq<bv8>, ov: Binary, xOff: int, yOff: int, res: seq<bv8>)
    requires Valid(ov) && OverlayBinary(None, base, Some(ov), xOff, yOff) == Ok(res)
    ensures Bytes2Image(base).Ok? && Bytes2Image(res).Ok?
    ensures var before, after := Bytes2Image(base).value, Bytes2Image(res).value;
      && after.header == before.header
      && after.tail == before.tail
      && after.bitmap.rect == before.bitmap.rect
      && after.bitmap.rect.Contains(xOff, yOff)
      && after.bitmap.rect.Contains(xOff + ov.rect.Dx() - 1, yOff + ov.rect.Dy() - 1)
      && (forall ox, oy :: 0 <= ox < ov.rect.Dx() && 0 <= oy < ov.rect.Dy() ==>
            (Bit(after.bitmap, ox + xOff, oy + yOff) <==> OverlayBit(ov, ox, oy)))
      && (forall x, y ::
            (after.bitmap.rect.Contains(x, y) && !(xOff <= x < xOff + ov.rect.Dx() && yOff <= y < yOff + ov.rect.Dy())) ==>
            (Bit(after.bitmap, x, y) <==> Bit(before.bitmap, x, y)))
  {
    OverlayOk(base, ov, xOff, yOff, res);
    var hd := ParseBitmapHeader(base).value;
    hide OverlayBinary;
    DecodeOverlaid(base, ov, hd, xOff, yOff, res);
  }

  /** A successful OverlayBinary without a header: the checks passed and
      the result is Patched. */
  lemma OverlayOk(base: seq<bv8>, ov: Binary, xOff: int, yOff: int, res: seq<bv8>)
    requires Valid(ov) && OverlayBinary(None, base, Some(ov), xOff, yOff) == Ok(res)
    ensures ParseBitmapHeader(base).Ok? && xOff >= 0 && yOff >= 0
    ensures CheckPatch(ParseBitmapHeader(base).value, |base|, ov, xOff, yOff).None?
    ensures res == Patched(base, ov, PatchOf(ParseBitmapHeader(base).value, ov, xOff, yOff))
  {
  }

  lemma DecodeOverlaid(base: seq<bv8>, ov: Binary, hd: BitmapHeader, xOff: int, yOff: int, res: seq<bv8>)
    requires Valid(ov) && ParseBitmapHeader(base) == Ok(hd) && xOff >= 0 && yOff >= 0
    requires CheckPatch(hd, |base|, ov, xOff, yOff).None?
    requires res == Patched(base, ov, PatchOf(hd, ov, xOff, yOff))
    ensures Bytes2Image(base).Ok? && Bytes2Image(res).Ok?
    ensures var before, after := Bytes2Image(base).value, Bytes2Image(res).value;
      && after.header == before.header
      && after.tail == before.tail
      && after.bitmap.rect == before.bitmap.rect
      && after.bitmap.rect.Contains(xOff, yOff)
      && after.bitmap.rect.Contains(xOff + ov.rect.Dx() - 1, yOff + ov.rect.Dy() - 1)
      && (forall ox, oy :: 0 <= ox < ov.rect.Dx() && 0 <= oy < ov.rect.Dy() ==>
            (Bit(after.bitmap, ox + xOff, oy + yOff) <==> OverlayBit(ov, ox, oy)))
      && (forall x, y ::
            (after.bitmap.rect.Contains(x, y) && !(xOff <= x < xOff + ov.rect.Dx() && yOff <= y < yOff + ov.rect.Dy())) ==>
            (Bit(after.bitmap, x, y) <==> Bit(before.bitmap, x, y)))
  {
    hide Bytes2Image, ParseBitmapHeader, Target, PatchedBit, PixelIn, Bit, Patched, IsWhite;
    OverlayKeepsFrame(base, ov, hd, xOff, yOff, res);
    MulEight(hd.rowBytes);
    var before, after := Bytes2Image(base).value, Bytes2Image(res).value;
    CheckedFits(hd, |base|, ov, xOff, yOff);
    DecodedPatched(base, res, ov, hd.headerEnd, hd.rowBytes, xOff, yOff, before.bitmap, after.bitmap, hd.height);
  }

  /** What decoding the overlaid buffer needs: it parses to the base's
      header, and its header text and the bytes past the payload are the
      base's. */
  lemma OverlayKeepsFrame(base: seq<bv8>, ov: Binary, hd: BitmapHeader, xOff: int, yOff: int, res: seq<bv8>)
    requires Valid(ov) && ParseBitmapHeader(base) == Ok(hd) && xOff >= 0 && yOff >= 0
    requires CheckPatch(hd, |base|, ov, xOff, yOff).None?
    requires res == Patched(base, ov, PatchOf(hd, ov, xOff, yOff))
    ensures ParseBitmapHeader(res) == ParseBitmapHeader(base)
    ensures hd.width == 8 * hd.rowBytes && hd.width > 0 && hd.height > 0
    ensures xOff + ov.rect.Dx() <= hd.width && yOff + ov.rect.Dy() <= hd.height
    ensures hd.headerEnd <= hd.headerEnd + hd.rowBytes * hd.height <= |base|
    ensures res[..hd.headerEnd] == base[..hd.headerEnd]
    ensures PayloadEnd(hd, |base|) == hd.headerEnd + hd.rowBytes * hd.height
    ensures res[PayloadEnd(hd, |base|)..] == base[PayloadEnd(hd, |base|)..]
  {
    var p := PatchOf(hd, ov, xOff, yOff);
    var he, end := hd.headerEnd, hd.headerEnd + hd.rowBytes * hd.height;
    hide ParseBitmapHeader, Target, PatchedBit, PixelIn, Bit, Patched, IsWhite, CheckPatch;
    CheckedSizes(hd, |base|, ov, xOff, yOff);
    SameOutside(base, res, ov, p, hd.height);
    ParseReadsHeaderOnly(base, res);
    SameSlices(base, res, he, end);
  }

  /** The numbers a header that passed the checks guarantees. */
  lemma CheckedSizes(hd: BitmapHeader, len: int, ov: Binary, xOff: int, yOff: int)
    requires hd.width == 8 * hd.rowBytes && hd.headerEnd >= 0 && xOff >= 0 && yOff >= 0
    requires CheckPatch(hd, len, ov, xOff, yOff).None?
    ensures hd.width > 0 && hd.height > 0 && hd.rowBytes > 0
    ensures xOff + ov.rect.Dx() <= hd.width && yOff + ov.rect.Dy() <= hd.height
    ensures hd.headerEnd <= hd.headerEnd + hd.rowBytes * hd.height <= len
  {
    MulMonotone(0, hd.height, hd.rowBytes);
  }

  /** Bytes outside the payload rows are the base's. */
  lemma SameOutside(base: seq<bv8>, res: seq<bv8>, ov: Binary, p: Patch, height: int)
    requires Sized(ov, p) && |res| == |base| && p.rowBytes > 0 && p.yOff + p.h <= height
    requires forall i, k :: 0 <= i < |base| && 0 <= k < 8 ==> BitOf(res[i], k) == PatchedBit(base[i], ov, p, i, k)
    ensures forall i :: 0 <= i < |base| && (i < p.headerEnd || i >= p.headerEnd + p.rowBytes * height) ==> res[i] == base[i]
  {
    hide PatchedBit, OverlayBit;
    forall i | 0 <= i < |base| && (i < p.headerEnd || i >= p.headerEnd + p.rowBytes * height)
      ensures res[i] == base[i]
    {
      forall k | 0 <= k < 8
        ensures Target(p, i, k).None?
      {
        OutsidePayload(p, height, i, k);
      }
      UntouchedByte(base, res, ov, p, i);
    }
  }

  lemma SameSlices(base: seq<bv8>, res: seq<bv8>, a: int, b: int)
    requires |res| == |base| && 0 <= a <= b <= |base|
    requires forall i :: 0 <= i < |base| && (i < a || i >= b) ==> res[i] == base[i]
    ensures res[..a] == base[..a] && res[b..] == base[b..]
  {
  }

  /** The pixel-level half of OverlayThenDecode, for any two images that
      read their pixels from the base and the overlaid buffer. */
  lemma DecodedPatched(base: seq<bv8>, res: seq<bv8>, ov: Binary, headerEnd: int, rowBytes: int, xOff: int, yOff: int,
                       before: Binary, after: Binary, height: int)
    requires var p := Patch(headerEnd, rowBytes, xOff, yOff, ov.rect.Dx(), ov.rect.Dy());
      && Sized(ov, p) && Fits(p, |base|) && |res| == |base|
      && forall i, k :: 0 <= i < |base| && 0 <= k < 8 ==> BitOf(res[i], k) == PatchedBit(base[i], ov, p, i, k)
    requires yOff + ov.rect.Dy() <= height
    requires Valid(before) && Valid(after)
    requires after.rect == before.rect == Rectangle(Point(0, 0), Point(8 * rowBytes, height))
    requires forall x, y :: after.rect.Contains(x, y) ==> (Bit(after, x, y) <==> PixelIn(res, headerEnd, rowBytes, x, y))
    requires forall x, y :: before.rect.Contains(x, y) ==> (Bit(before, x, y) <==> PixelIn(base, headerEnd, rowBytes, x, y))
    ensures forall ox, oy :: 0 <= ox < ov.rect.Dx() && 0 <= oy < ov.rect.Dy() ==>
      after.rect.Contains(ox + xOff, oy + yOff) && (Bit(after, ox + xOff, oy + yOff) <==> OverlayBit(ov, ox, oy))
    ensures forall x, y ::
      (after.rect.Contains(x, y) && !(xOff <= x < xOff + ov.rect.Dx() && yOff <= y < yOff + ov.rect.Dy())) ==>
      (Bit(after, x, y) <==> Bit(before, x, y))
  {
    var p := Patch(headerEnd, rowBytes, xOff, yOff, ov.rect.Dx(), ov.rect.Dy());
    hide Target, PatchedBit, PixelIn, Bit, IsWhite, OverlayBit;
    forall ox, oy | 0 <= ox < p.w && 0 <= oy < p.h
      ensures after.rect.Contains(ox + xOff, oy + yOff)
      ensures Bit(after, ox + xOff, oy + yOff) <==> OverlayBit(ov, ox, oy)
    {
      PatchedPixel(base, res, ov, p, ox + xOff, oy + yOff);
    }
    forall x, y | after.rect.Contains(x, y) && !(xOff <= x < xOff + p.w && yOff <= y < yOff + p.h)
      ensures Bit(after, x, y) <==> Bit(before, x, y)
    {
      PatchedPixel(base, res, ov, p, x, y);
    }
  }
}
