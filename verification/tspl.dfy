/** The TSPL printer codec of tspl.go: the `BITMAP` command text and its
    packed payload, its parser and decoder, and the full print job.

    A payload row is `rowBytes = (width + 7) / 8` bytes; pixel (x, y) is bit
    `7 - x % 8` (counting from the least significant end) of byte
    `y * rowBytes + x / 8`, set for a white pixel. In the MSB-first numbering
    of the Bits module that is bit `x % 8`. */
module Tspl {
  import opened Bits
  import opened Arith
  import opened Results
  import opened BinImg
  import opened Threshold
  import opened Fmt

  datatype Options = Options(peel: bool)

  /** The argument of `Image2Bytes`: a `*Binary` is encoded as it is, any
      other image is thresholded first. */
  datatype ImageInput = BinaryImage(b: Binary) | OtherImage(src: PixelSource)

  datatype BitmapHeader = BitmapHeader(rowBytes: int, width: int, height: int, headerEnd: int)

  /** A decoded `BITMAP` command: its header text, the image, and the bytes
      after the payload. */
  datatype Image = Image(header: seq<bv8>, bitmap: Binary, tail: seq<bv8>)

  /** The threshold `Image2Bytes` uses for images that are not `*Binary`. */
  const EncodeThreshold: Uint8 := 151

  predicate HasPrefix(s: seq<bv8>, p: seq<bv8>)
  {
    |p| <= |s| && s[..|p|] == p
  }

  function Min(a: int, b: int): int
  {
    if a <= b then a else b
  }

  // ---------------------------------------------------------------------
  // Header and Encode.

  /** `cmp.Or(dpm, 8)`: a zero dots-per-millimetre means 8. */
  function EffectiveDpm(dpm: int): int
  {
    if dpm == 0 then 8 else dpm
  }

  /** The fixed setup commands, ending with the peel setting. */
  function SetupText(peel: bool): seq<bv8>
  {
    Ascii("SET CUTTER OFF\r\n") + Ascii("SET PARTICAL_CUTTER OFF\r\n")
    + (if peel then Ascii("SET PEEL ON\r\n") else Ascii("SET PEEL OFF\r\n"))
  }

  /** `Header`: printer setup, label size and clear-buffer commands. The
      peel flag selects `SET PEEL ON` or `SET PEEL OFF`; the two `SIZE`
      numbers are `sizeText(w, d)` and `sizeText(h, d)` where d is dpm, or 8
      when dpm is 0. `sizeText` stands for Go's `%.1f` rendering of the
      float quotient. */
  function Header(w: int, h: int, dpm: int, opt: Options, sizeText: (int, int) -> seq<bv8>): (r: seq<bv8>)
    ensures HasPrefix(r, SetupText(opt.peel))
    ensures var d := if dpm == 0 then 8 else dpm;
      var s, fw := |SetupText(opt.peel)| + 5, sizeText(w, d);
      && s + |fw| <= |r|
      && r[s - 5..s] == Ascii("SIZE ")
      && r[s..s + |fw|] == fw
    ensures var d := if dpm == 0 then 8 else dpm;
      var fh, tail := sizeText(h, d), Ascii(" mm\r\nCLS\r\n");
      && |fh| + |tail| <= |r|
      && r[|r| - |tail| - |fh|..|r| - |tail|] == fh
      && r[|r| - |tail|..] == tail
    ensures var d := if dpm == 0 then 8 else dpm;
      var s, fw, fh := |SetupText(opt.peel)| + 5, sizeText(w, d), sizeText(h, d);
      && |r| == s + |fw| + 5 + |fh| + 10
      && r[s + |fw|..s + |fw| + 5] == Ascii(" mm, ")
  {
    var d := EffectiveDpm(dpm);
    var setup, fw, fh := SetupText(opt.peel), sizeText(w, d), sizeText(h, d);
    HeaderParts(setup, fw, fh);
    setup + Ascii("SIZE ") + fw + Ascii(" mm, ") + fh + Ascii(" mm\r\nCLS\r\n")
  }

  /** Where each part of the header text lies. */
  lemma HeaderParts(setup: seq<bv8>, fw: seq<bv8>, fh: seq<bv8>)
    ensures var r := setup + Ascii("SIZE ") + fw + Ascii(" mm, ") + fh + Ascii(" mm\r\nCLS\r\n");
      var s := |setup| + 5;
      && |r| == s + |fw| + 5 + |fh| + 10
      && r[..|setup|] == setup
      && r[s - 5..s] == Ascii("SIZE ")
      && r[s..s + |fw|] == fw
      && r[s + |fw|..s + |fw| + 5] == Ascii(" mm, ")
      && r[|r| - 10 - |fh|..|r| - 10] == fh
      && r[|r| - 10..] == Ascii(" mm\r\nCLS\r\n")
  {
    var size, mm, tail := Ascii("SIZE "), Ascii(" mm, "), Ascii(" mm\r\nCLS\r\n");
    assert |size| == 5 && |mm| == 5 && |tail| == 10;
    hide Ascii;
    var r := setup + size + fw + mm + fh + tail;
    assert r[..|setup|] == setup;
    assert r[|setup|..|setup| + 5] == size;
    assert r[|setup| + 5..|setup| + 5 + |fw|] == fw;
    assert r[|setup| + 5 + |fw|..|setup| + 10 + |fw|] == mm;
    assert r[|r| - 10 - |fh|..|r| - 10] == fh;
    assert r[|r| - 10..] == tail;
  }

  const PrintCommand: seq<bv8> := Ascii("PRINT 1,1\r\n")

  /** `Encode`: header, then the `BITMAP` command, then `PRINT 1,1`. */
  function Encode(w: int, h: int, dpm: int, img: ImageInput, opt: Options, sizeText: (int, int) -> seq<bv8>)
    : (r: Result<seq<bv8>>)
    requires img.BinaryImage? ==> Valid(img.b) && img.b.rect.min == Point(0, 0)
    ensures r.Err? <==> Image2Bytes(img).Err?
    ensures r.Err? ==> r.error == Image2Bytes(img).error
    ensures r.Ok? ==>
      var header := Header(w, h, dpm, opt, sizeText);
      var bitmap := Image2Bytes(img).value.1;
      && |r.value| == |header| + |bitmap| + |PrintCommand|
      && r.value[..|header|] == header
      && r.value[|header|..|header| + |bitmap|] == bitmap
      && r.value[|header| + |bitmap|..] == PrintCommand
  {
    match Image2Bytes(img)
    case Err(e) => Err(e)
    case Ok((_, bitmap)) =>
      var header := Header(w, h, dpm, opt, sizeText);
      ThreeParts(header, bitmap, PrintCommand);
      Ok(header + bitmap + PrintCommand)
  }

  // ---------------------------------------------------------------------
  // Image2Bytes.

  const BitmapWord: seq<bv8> := Ascii("BITMAP")

  /** `fmt.Sprintf("%d,", n)` for each n in turn. */
  function Fields(ns: seq<nat>): (r: seq<bv8>)
    ensures |r| >= |ns|
  {
    if ns == [] then [] else Decimal(ns[0]) + [Comma] + Fields(ns[1..])
  }

  /** `fmt.Sprintf("BITMAP 0,0,%d,%d,1,", rowBytes, height)`. */
  function BitmapLine(rowBytes: nat, height: nat): (r: seq<bv8>)
    ensures HasPrefix(r, BitmapWord)
    ensures |r| >= 7 + 5
  {
    var r := Ascii("BITMAP ") + Fields([0, 0, rowBytes, height, 1]);
    assert r[..6] == BitmapWord;
    r
  }

  /** The payload byte of row y, column c: bit k is the pixel 8c + k, white
      and inside the width. */
  function PayloadByte(b: Binary, y: int, c: int): (v: bv8)
    requires Valid(b) && b.rect.min == Point(0, 0) && 0 <= y < b.rect.Dy() && c >= 0
    ensures forall k :: 0 <= k < 8 ==> BitOf(v, k) == (8 * c + k < b.rect.Dx() && IsWhite(b, 8 * c + k, y))
  {
    ByteFromBits(k => 0 <= k < 8 && 8 * c + k < b.rect.Dx() && IsWhite(b, 8 * c + k, y))
  }

  /** Payload index j: byte j % rb of row j / rb. */
  function PayloadAt(b: Binary, j: int): bv8
    requires Valid(b) && b.rect.min == Point(0, 0) && b.rect.Dx() > 0
    requires 0 <= j < b.rect.Dy() * RowBytes(b.rect.Dx())
  {
    var rb := RowBytes(b.rect.Dx());
    RowOfIndex(j, rb, b.rect.Dy());
    PayloadByte(b, j / rb, j % rb)
  }

  /** The `rowBytes * height` payload bytes, row after row. */
  function Payload(b: Binary): (p: seq<bv8>)
    requires Valid(b) && b.rect.min == Point(0, 0)
    ensures |p| == b.rect.Dy() * RowBytes(b.rect.Dx())
  {
    if b.rect.Dx() == 0 then []
    else
      var n := b.rect.Dy() * RowBytes(b.rect.Dx());
      seq(n, j requires 0 <= j < n => PayloadAt(b, j))
  }

  lemma PayloadIndex(b: Binary, y: int, c: int)
    requires Valid(b) && b.rect.min == Point(0, 0)
    requires 0 <= y < b.rect.Dy() && 0 <= c < RowBytes(b.rect.Dx())
    ensures var rb := RowBytes(b.rect.Dx());
      0 <= y * rb + c < |Payload(b)| && Payload(b)[y * rb + c] == PayloadByte(b, y, c)
  {
    hide PayloadByte, IsWhite, Bit, PixOffset;
    var rb := RowBytes(b.rect.Dx());
    var j := y * rb + c;
    RowMajorBound(y, c, rb, b.rect.Dy());
    DivModOf(y, c, rb);
    assert b.rect.Dx() > 0;
    assert Payload(b)[j] == PayloadAt(b, j);
  }

  /** Pixel (x, y) as a bitmap stores it: bit x % 8 of byte
      `headerEnd + y * rowBytes + x / 8`, read as clear when that byte is
      missing. */
  predicate PixelIn(bm: seq<bv8>, headerEnd: int, rowBytes: int, x: int, y: int)
  {
    var i := headerEnd + y * rowBytes + x / 8;
    x >= 0 && 0 <= i < |bm| && BitOf(bm[i], x % 8)
  }

  /** Image2Bytes for a `*Binary`: the `BITMAP` text, then the payload in
      which pixel (x, y) is set exactly when it is inside the width and white;
      the bits past the width in a row's last byte are clear. */
  function BitmapBytes(b: Binary): (r: (int, seq<bv8>))
    requires Valid(b) && b.rect.min == Point(0, 0)
    ensures var rb, h := RowBytes(b.rect.Dx()), b.rect.Dy();
      && r.0 == |BitmapLine(rb, h)|
      && |r.1| == r.0 + h * rb
      && r.1[..r.0] == BitmapLine(rb, h)
      && (forall x, y :: 0 <= x < 8 * rb && 0 <= y < h ==>
            (PixelIn(r.1, r.0, rb, x, y) <==> x < b.rect.Dx() && IsWhite(b, x, y)))
  {
    var rb, h := RowBytes(b.rect.Dx()), b.rect.Dy();
    var line := BitmapLine(rb, h);
    var bytes := line + Payload(b);
    assert bytes[..|line|] == line;
    forall x, y | 0 <= x < 8 * rb && 0 <= y < h
      ensures PixelIn(bytes, |line|, rb, x, y) <==> x < b.rect.Dx() && IsWhite(b, x, y)
    {
      PayloadPixel(b, line, x, y);
    }
    (|line|, bytes)
  }

  /** Pixel (x, y) of a payload placed after any header text. */
  lemma PayloadPixel(b: Binary, line: seq<bv8>, x: int, y: int)
    requires Valid(b) && b.rect.min == Point(0, 0)
    requires 0 <= x < 8 * RowBytes(b.rect.Dx()) && 0 <= y < b.rect.Dy()
    ensures PixelIn(line + Payload(b), |line|, RowBytes(b.rect.Dx()), x, y)
        <==> x < b.rect.Dx() && IsWhite(b, x, y)
  {
    hide IsWhite, Bit, PixOffset;
    var rb, c, k := RowBytes(b.rect.Dx()), x / 8, x % 8;
    PayloadIndex(b, y, c);
    var bytes := line + Payload(b);
    var i := |line| + y * rb + c;
    assert bytes[i] == PayloadByte(b, y, c);
    assert 8 * c + k == x;
  }

  /** `Image2Bytes`: a `*Binary` is encoded directly; any other image is
      first thresholded at 151, and a thresholding error is returned. The
      result pair is (headerSize, bitmap). */
  function Image2Bytes(img: ImageInput): (r: Result<(int, seq<bv8>)>)
    requires img.BinaryImage? ==> Valid(img.b) && img.b.rect.min == Point(0, 0)
    ensures img.BinaryImage? ==> r.Ok? && r.value == BitmapBytes(img.b)
    ensures img.OtherImage? ==>
      var t := FromGrayThreshold(img.src, EncodeThreshold);
      && (r.Err? <==> t.Err?)
      && (r.Err? ==> r.error == t.error)
      && (r.Ok? ==> t.value.rect.min == Point(0, 0) && r.value == BitmapBytes(t.value))
  {
    match img
    case BinaryImage(b) => Ok(BitmapBytes(b))
    case OtherImage(src) =>
      match FromGrayThreshold(src, EncodeThreshold)
      case Err(e) => Err(e)
      case Ok(b) => Ok(BitmapBytes(b))
  }

  /** For an image that is not a `*Binary`, the payload bit of pixel (x, y)
      is set exactly when the source pixel reaches the threshold 151. */
  lemma Image2BytesThresholds(src: PixelSource, x: int, y: int)
    requires Image2Bytes(OtherImage(src)).Ok?
    requires 0 <= x < src.bounds.Dx() && 0 <= y < src.bounds.Dy()
    ensures var (hs, bm) := Image2Bytes(OtherImage(src)).value;
      PixelIn(bm, hs, RowBytes(src.bounds.Dx()), x, y) <==> ThresholdOn(src.at(x, y), EncodeThreshold)
  {
    var b := FromGrayThreshold(src, EncodeThreshold).value;
    hide Image2Bytes, FromGrayThreshold, BitmapBytes, PixelIn, Bit, Thresholded, NewBinary;
    assert Image2Bytes(OtherImage(src)).value == BitmapBytes(b);
    assert b.rect.Contains(x, y);
    assert IsWhite(b, x, y) <==> ThresholdOn(src.at(x, y), EncodeThreshold);
  }

  // ---------------------------------------------------------------------
  // ParseBitmapHeader.

  /** The number of commas in s. */
  function CommaCount(s: seq<bv8>): (n: nat)
    ensures n <= |s|
  {
    if s == [] then 0 else CommaCount(s[..|s| - 1]) + (if s[|s| - 1] == Comma then 1 else 0)
  }

  lemma {:induction false} CommaCountMonotone(s: seq<bv8>, i: int, j: int)
    requires 0 <= i <= j <= |s|
    ensures CommaCount(s[..i]) <= CommaCount(s[..j])
    decreases j - i
  {
    if i < j {
      CommaCountMonotone(s, i, j - 1);
      assert s[..j][..j - 1] == s[..j - 1];
    }
  }

  /** The `range body` loop that stops at the fifth comma: its index, found
      from index i with `count` commas before i. */
  function FifthCommaFrom(body: seq<bv8>, i: int, count: int): (r: Option<int>)
    requires 0 <= i <= |body| && count == CommaCount(body[..i]) && count < 5
    ensures r.Some? ==> i <= r.value < |body| && body[r.value] == Comma && CommaCount(body[..r.value]) == 4
    ensures r.Some? <==> CommaCount(body) >= 5
    decreases |body| - i
  {
    if i == |body| then
      assert body[..i] == body;
      None
    else
      assert body[..i + 1][..i] == body[..i];
      if body[i] == Comma then
        if count + 1 == 5 then
          CommaCountMonotone(body, i + 1, |body|);
          assert body[..|body|] == body;
          Some(i)
        else FifthCommaFrom(body, i + 1, count + 1)
      else FifthCommaFrom(body, i + 1, count)
  }

  function FifthComma(body: seq<bv8>): (r: Option<int>)
    ensures r.Some? ==> 0 <= r.value < |body| && body[r.value] == Comma && CommaCount(body[..r.value]) == 4
    ensures r.Some? <==> CommaCount(body) >= 5
  {
    assert body[..0] == [];
    FifthCommaFrom(body, 0, 0)
  }

  /** `n` fields of the form `%d,` from index i: the values and the index
      past the last comma. */
  function ScanFields(s: seq<bv8>, i: int, n: nat): (r: Option<(seq<int>, int)>)
    requires 0 <= i <= |s|
    ensures r.Some? ==> |r.value.0| == n && i <= r.value.1 <= |s|
    decreases n
  {
    if n == 0 then Some(([], i))
    else
      match ScanIntComma(s, i)
      case None => None
      case Some((v, j)) =>
        match ScanFields(s, j, n - 1)
        case None => None
        case Some((vs, e)) => Some(([v] + vs, e))
  }

  /** `fmt.Sscanf(body, "BITMAP %d,%d,%d,%d,%d,", ...)`: the five values, or
      None when the text does not match. The space in the format needs at
      least one blank in the input after the word; the blanks that follow it
      are skipped with the ones `%d` skips. */
  function ScanBitmap(body: seq<bv8>): (r: Option<seq<int>>)
    ensures r.Some? ==> HasPrefix(body, BitmapWord) && |r.value| == 5
    ensures r.Some? ==> |body| > 6 && body[6] == Blank
  {
    if !HasPrefix(body, BitmapWord) || |body| <= 6 || body[6] != Blank then None
    else
      match ScanFields(body, SkipBlanks(body, 6), 5)
      case None => None
      case Some((vs, _)) => Some(vs)
  }

  /** `ParseBitmapHeader`: the "not a BITMAP line" error without the
      prefix, the "invalid BITMAP format" error with fewer than five commas,
      a scan error when the five numbers do not read; otherwise the row
      bytes and height read, the width `8 * rowBytes`, and the header ending
      just past the fifth comma. */
  function ParseBitmapHeader(body: seq<bv8>): (r: Result<BitmapHeader>)
    ensures !HasPrefix(body, BitmapWord) ==> r == Err(NotABitmapLine)
    ensures HasPrefix(body, BitmapWord) && CommaCount(body) < 5 ==> r == Err(InvalidBitmapFormat)
    ensures HasPrefix(body, BitmapWord) && CommaCount(body) >= 5 && ScanBitmap(body).None? ==> r == Err(ScanMismatch)
    ensures r.Ok? <==> HasPrefix(body, BitmapWord) && CommaCount(body) >= 5 && ScanBitmap(body).Some?
    ensures r.Ok? ==>
      var vs, hd := ScanBitmap(body).value, r.value;
      && hd.rowBytes == vs[2]
      && hd.height == vs[3]
      && hd.width == 8 * vs[2] == 8 * hd.rowBytes
      && 1 <= hd.headerEnd <= |body|
      && body[hd.headerEnd - 1] == Comma
      && CommaCount(body[..hd.headerEnd - 1]) == 4
  {
    if !HasPrefix(body, BitmapWord) then Err(NotABitmapLine)
    else
      var comma := FifthComma(body);
      if comma.None? then Err(InvalidBitmapFormat)
      else
        var scanned := ScanBitmap(body);
        if scanned.None? then Err(ScanMismatch)
        else
          var vs := scanned.value;
          Ok(BitmapHeader(vs[2], vs[2] * 8, vs[3], comma.value + 1))
  }

  /** `BITMAP` directly followed by the fields, with no blank between,
      does not match the format's space: the parse fails with a scan error
      although the fields supply the five commas. */
  lemma WordNeedsBlank(ns: seq<nat>)
    requires |ns| >= 5
    ensures ParseBitmapHeader(BitmapWord + Fields(ns)) == Err(ScanMismatch)
  {
    hide ParseBitmapHeader, ScanBitmap, CommaCount, Fields, Decimal, FifthComma, FifthCommaFrom, Ascii, HasPrefix;
    UnspacedBody(ns, BitmapWord + Fields(ns));
  }

  /** The word and the fields: the prefix, five commas, a digit at index 6. */
  lemma UnspacedBody(ns: seq<nat>, body: seq<bv8>)
    requires |ns| >= 5 && body == BitmapWord + Fields(ns)
    ensures HasPrefix(body, BitmapWord) && CommaCount(body) >= 5
    ensures ScanBitmap(body).None?
  {
    FieldsCons(ns);
    assert body[6] == Decimal(ns[0])[0];
    assert body[..6] == BitmapWord;
    FieldsCommas(ns);
    forall q | 0 <= q < |BitmapWord|
      ensures BitmapWord[q] != Comma
    {
    }
    NoCommas(BitmapWord);
    CommaCountAppend(BitmapWord, Fields(ns));
  }

  /** One `%d,` field, then the remaining n - 1. */
  lemma ScanFieldsCons(s: seq<bv8>, i: int, n: nat, v: int, j: int, vs: seq<int>, e: int)
    requires 0 <= i <= |s| && n > 0
    requires ScanIntComma(s, i) == Some((v, j))
    requires ScanFields(s, j, n - 1) == Some((vs, e))
    ensures ScanFields(s, i, n) == Some(([v] + vs, e))
  {
  }

  /** A text found at i splits where its parts split. */
  lemma SliceSplit(s: seq<bv8>, i: int, f: seq<bv8>, a: int)
    requires 0 <= i && i + |f| <= |s| && 0 <= a <= |f|
    requires s[i..i + |f|] == f
    ensures s[i..i + a] == f[..a] && s[i + a..i + |f|] == f[a..]
  {
  }

  lemma FieldsCons(ns: seq<nat>)
    requires ns != []
    ensures Fields(ns) == Decimal(ns[0]) + [Comma] + Fields(ns[1..])
  {
  }

  /** Where the text at i is `Fields(ns)`, the first field's text is at i
      and the remaining fields' text follows it. */
  lemma FieldsAt(s: seq<bv8>, i: int, ns: seq<nat>)
    requires ns != [] && 0 <= i && i + |Fields(ns)| <= |s|
    requires s[i..i + |Fields(ns)|] == Fields(ns)
    ensures var d, more := Decimal(ns[0]), Fields(ns[1..]);
      && |Fields(ns)| == |d| + 1 + |more|
      && s[i..i + |d| + 1] == d + [Comma]
      && s[i + |d| + 1..i + |d| + 1 + |more|] == more
  {
    hide Fields, Decimal;
    var d, more, f := Decimal(ns[0]), Fields(ns[1..]), Fields(ns);
    FieldsCons(ns);
    ConcatParts(d + [Comma], more);
    SliceSplit(s, i, f, |d| + 1);
  }

  lemma ThreeParts(a: seq<bv8>, b: seq<bv8>, c: seq<bv8>)
    ensures var r := a + b + c;
      && |r| == |a| + |b| + |c| && r[..|a|] == a
      && r[|a|..|a| + |b|] == b && r[|a| + |b|..] == c
  {
  }

  lemma ConcatParts(a: seq<bv8>, b: seq<bv8>)
    ensures |a + b| == |a| + |b| && (a + b)[..|a|] == a && (a + b)[|a|..] == b
  {
  }

  /** Scanning n `%d,` fields where the text at i is what `Fields` writes
      reads the n numbers back and stops just past the last comma. */
  lemma {:induction false} ScanFieldsAt(s: seq<bv8>, i: int, ns: seq<nat>)
    requires 0 <= i && i + |Fields(ns)| <= |s|
    requires s[i..i + |Fields(ns)|] == Fields(ns)
    ensures ScanFields(s, i, |ns|) == Some((ns, i + |Fields(ns)|))
    decreases |ns|
  {
    hide Fields, Decimal, ScanFields, ScanIntComma;
    if ns == [] {
      ScanNoFields(s, i);
    } else {
      FieldsAt(s, i, ns);
      ScanFieldsAt(s, i + |Decimal(ns[0])| + 1, ns[1..]);
      ScanFirstField(s, i, ns);
    }
  }

  /** The inductive step: the first field, then the others already read. */
  lemma ScanFirstField(s: seq<bv8>, i: int, ns: seq<nat>)
    requires ns != [] && 0 <= i && i + |Fields(ns)| <= |s|
    requires s[i..i + |Fields(ns)|] == Fields(ns)
    requires var j := i + |Decimal(ns[0])| + 1;
      && j + |Fields(ns[1..])| == i + |Fields(ns)|
      && ScanFields(s, j, |ns| - 1) == Some((ns[1..], j + |Fields(ns[1..])|))
    ensures ScanFields(s, i, |ns|) == Some((ns, i + |Fields(ns)|))
  {
    hide Fields, Decimal, ScanFields, ScanIntComma;
    FieldsAt(s, i, ns);
    var j := i + |Decimal(ns[0])| + 1;
    ScanIntCommaAt(s, i, ns[0]);
    ScanFieldsCons(s, i, |ns|, ns[0], j, ns[1..], j + |Fields(ns[1..])|);
    assert [ns[0] as int] + ns[1..] == ns;
  }

  lemma ScanNoFields(s: seq<bv8>, i: int)
    requires 0 <= i <= |s|
    ensures Fields([]) == [] && ScanFields(s, i, 0) == Some(([], i))
  {
  }

  lemma {:induction false} CommaCountAppend(a: seq<bv8>, b: seq<bv8>)
    ensures CommaCount(a + b) == CommaCount(a) + CommaCount(b)
    decreases |b|
  {
    if b == [] {
      assert a + b == a;
    } else {
      CommaCountAppend(a, b[..|b| - 1]);
      assert (a + b)[..|a + b| - 1] == a + b[..|b| - 1];
    }
  }

  /** Text without a comma counts none. */
  lemma {:induction false} NoCommas(s: seq<bv8>)
    requires forall i :: 0 <= i < |s| ==> s[i] != Comma
    ensures CommaCount(s) == 0
    decreases |s|
  {
    if s != [] {
      NoCommas(s[..|s| - 1]);
    }
  }

  /** `Fields(ns)` holds one comma per field and ends with one. */
  lemma {:induction false} FieldsCommas(ns: seq<nat>)
    ensures CommaCount(Fields(ns)) == |ns|
    ensures ns != [] ==> Fields(ns)[|Fields(ns)| - 1] == Comma
    decreases |ns|
  {
    if ns == [] {
      assert Fields(ns) == [];
    } else {
      var d, more := Decimal(ns[0]), Fields(ns[1..]);
      FieldsCons(ns);
      FieldsCommas(ns[1..]);
      NoCommas(d);
      CommaCountAppend(d, [Comma]);
      CommaCountAppend(d + [Comma], more);
      assert CommaCount([Comma]) == 1;
    }
  }

  /** Only one index can have four commas before it and a comma at it. */
  lemma FifthCommaUnique(body: seq<bv8>, a: int, b: int)
    requires 0 <= a < |body| && body[a] == Comma && CommaCount(body[..a]) == 4
    requires 0 <= b < |body| && body[b] == Comma && CommaCount(body[..b]) == 4
    ensures a == b
  {
    if a < b {
      assert body[..a + 1][..a] == body[..a];
      CommaCountMonotone(body, a + 1, b);
    } else if b < a {
      assert body[..b + 1][..b] == body[..b];
      CommaCountMonotone(body, b + 1, a);
    }
  }

  /** The five numbers `BitmapLine` writes. */
  function BitmapFields(rowBytes: nat, height: nat): seq<nat>
  {
    [0, 0, rowBytes, height, 1]
  }

  /** The shape of the header text: `BITMAP `, then five fields; exactly
      five commas, the last one closing the text. */
  lemma BitmapLineShape(rowBytes: nat, height: nat)
    ensures var line, ns := BitmapLine(rowBytes, height), BitmapFields(rowBytes, height);
      && line == Ascii("BITMAP ") + Fields(ns)
      && line[6] == Blank && line[7] == 0x30
      && CommaCount(line) == 5
      && line[|line| - 1] == Comma
      && CommaCount(line[..|line| - 1]) == 4
  {
    var line, ns, pre := BitmapLine(rowBytes, height), BitmapFields(rowBytes, height), Ascii("BITMAP ");
    assert line == pre + Fields(ns);
    FieldsCons(ns);
    assert Decimal(0) == [0x30];
    FieldsCommas(ns);
    NoCommas(pre);
    CommaCountAppend(pre, Fields(ns));
    assert line[..|line|] == line;
  }

  /** The fifth comma of a body starting with the header text closes it. */
  lemma FifthCommaOfLine(rowBytes: nat, height: nat, rest: seq<bv8>)
    ensures var line := BitmapLine(rowBytes, height);
      && CommaCount(line + rest) >= 5
      && FifthComma(line + rest) == Some(|line| - 1)
  {
    var line := BitmapLine(rowBytes, height);
    var body := line + rest;
    BitmapLineShape(rowBytes, height);
    hide BitmapLine, FifthComma;
    CommaCountAppend(line, rest);
    assert body[..|line| - 1] == line[..|line| - 1];
    FifthCommaUnique(body, FifthComma(body).value, |line| - 1);
  }

  /** `Sscanf` reads the five numbers back from a body starting with the
      header text. */
  lemma ScanBitmapOfLine(rowBytes: nat, height: nat, rest: seq<bv8>)
    ensures ScanBitmap(BitmapLine(rowBytes, height) + rest) == Some(BitmapFields(rowBytes, height))
  {
    var line, ns := BitmapLine(rowBytes, height), BitmapFields(rowBytes, height);
    var body := line + rest;
    BitmapLineShape(rowBytes, height);
    hide BitmapLine, Fields;
    assert body[..6] == line[..6] == BitmapWord;
    assert body[6] == Blank && body[7] == 0x30;
    assert SkipBlanks(body, 6) == 7;
    assert body[7..7 + |Fields(ns)|] == Fields(ns);
    ScanFieldsAt(body, 7, ns);
  }

  /** The header text Image2Bytes writes parses back: the row bytes and
      height written, width `8 * rowBytes`, and the header ending where the
      text ends, whatever follows it. */
  lemma ParseBitmapLine(rowBytes: nat, height: nat, rest: seq<bv8>)
    ensures ParseBitmapHeader(BitmapLine(rowBytes, height) + rest)
         == Ok(BitmapHeader(rowBytes, 8 * rowBytes, height, |BitmapLine(rowBytes, height)|))
  {
    var line := BitmapLine(rowBytes, height);
    FifthCommaOfLine(rowBytes, height, rest);
    ScanBitmapOfLine(rowBytes, height, rest);
    hide BitmapLine, FifthComma, ScanBitmap, CommaCount;
    assert (line + rest)[..6] == line[..6];
  }

  // ---------------------------------------------------------------------
  // Bytes2Image.

  /** The image buffer Bytes2Image fills: byte j of the payload, or 0 (the
      fresh image's value) when the body ends before it. Every bit of every
      row byte is written, because the width is `8 * rowBytes`. */
  function DecodedPix(body: seq<bv8>, headerEnd: int, n: int): (pix: seq<bv8>)
    requires headerEnd >= 0 && n >= 0
    ensures |pix| == n
    ensures forall j :: 0 <= j < n ==> pix[j] == if headerEnd + j < |body| then body[headerEnd + j] else 0
  {
    seq(n, j requires 0 <= j < n => if headerEnd + j < |body| then body[headerEnd + j] else 0)
  }

  /** The decoded image: `rowBytes * 8` by `height`, stride `rowBytes`. */
  function DecodedBinary(body: seq<bv8>, hd: BitmapHeader): (b: Binary)
    requires hd.rowBytes > 0 && hd.height > 0 && hd.headerEnd >= 0
    ensures Valid(b) && b.rect == Rectangle(Point(0, 0), Point(8 * hd.rowBytes, hd.height))
    ensures b.stride == hd.rowBytes
    ensures forall x, y :: b.rect.Contains(x, y) ==>
              (Bit(b, x, y) <==> PixelIn(body, hd.headerEnd, hd.rowBytes, x, y))
  {
    var rb, h := hd.rowBytes, hd.height;
    MulMonotone(h - 1, h, rb);
    var b := Binary(DecodedPix(body, hd.headerEnd, h * rb), rb, Rectangle(Point(0, 0), Point(8 * rb, h)));
    forall x, y | b.rect.Contains(x, y)
      ensures Bit(b, x, y) <==> PixelIn(body, hd.headerEnd, rb, x, y)
    {
      DecodedPixel(body, hd, b, x, y);
    }
    b
  }

  lemma DecodedPixel(body: seq<bv8>, hd: BitmapHeader, b: Binary, x: int, y: int)
    requires hd.rowBytes > 0 && hd.height > 0 && hd.headerEnd >= 0
    requires b == Binary(DecodedPix(body, hd.headerEnd, hd.height * hd.rowBytes), hd.rowBytes,
                         Rectangle(Point(0, 0), Point(8 * hd.rowBytes, hd.height)))
    requires Valid(b) && b.rect.Contains(x, y)
    ensures Bit(b, x, y) <==> PixelIn(body, hd.headerEnd, hd.rowBytes, x, y)
  {
    var rb := hd.rowBytes;
    var j := y * rb + x / 8;
    assert PixOffset(b, x, y) == j;
    RowMajorBound(y, x / 8, rb, hd.height);
    hide DecodedPix;
    assert b.pix[j] == if hd.headerEnd + j < |body| then body[hd.headerEnd + j] else 0;
    assert !BitOf(0, x % 8);
  }

  /** Where the payload of a parsed header ends in a body of length len:
      `rowBytes * height` bytes after the header, or the end of the body. */
  function PayloadEnd(hd: BitmapHeader, len: int): (e: int)
    requires 0 <= hd.headerEnd <= len && hd.rowBytes >= 0 && hd.height >= 0
    ensures hd.headerEnd <= e <= len
    ensures e == len || e == hd.headerEnd + hd.rowBytes * hd.height
  {
    MulMonotone(0, hd.rowBytes, hd.height);
    Min(hd.headerEnd + hd.rowBytes * hd.height, len)
  }

  /** `Bytes2Image`, with the tail as the bytes after the payload: the
      parse error when the header does not parse; the size error when the
      width or height read is not positive; otherwise the header text, the
      image whose pixel (x, y) is payload bit (x, y) (clear where the body
      ends early), and the bytes after the payload. */
  function Bytes2Image(body: seq<bv8>): (r: Result<Image>)
    ensures ParseBitmapHeader(body).Err? ==> r == Err(ParseBitmapHeader(body).error)
    ensures ParseBitmapHeader(body).Ok? ==>
      var hd := ParseBitmapHeader(body).value;
      && (hd.width <= 0 || hd.height <= 0 ==> r == Err(InvalidImageSize))
      && (r.Ok? <==> hd.width > 0 && hd.height > 0)
    ensures r.Ok? ==>
      var hd, img := ParseBitmapHeader(body).value, r.value;
      && img.header == body[..hd.headerEnd]
      && Valid(img.bitmap)
      && img.bitmap.rect == Rectangle(Point(0, 0), Point(hd.width, hd.height))
      && (forall x, y :: img.bitmap.rect.Contains(x, y) ==>
            (Bit(img.bitmap, x, y) <==> PixelIn(body, hd.headerEnd, hd.rowBytes, x, y)))
      && img.tail == body[PayloadEnd(hd, |body|)..]
  {
    hide ParseBitmapHeader, NewBinary, DecodedBinary, PixelIn, Bit, Valid;
    match ParseBitmapHeader(body)
    case Err(e) => Err(e)
    case Ok(hd) =>
      if hd.width <= 0 || hd.height <= 0 then Err(InvalidImageSize)
      else
        MulEight(hd.rowBytes);
        match NewBinary(hd.width, hd.height)
        case Err(e) => Err(e)
        case Ok(_) =>
          var img := DecodedBinary(body, hd);
          Ok(Image(body[..hd.headerEnd], img, body[PayloadEnd(hd, |body|)..]))
  }

  /** The bytes Image2Bytes writes decode back to the image: the header text
      and the given tail are split off, the width is rounded up to whole
      bytes, every pixel reads as written and the padding pixels are off. */
  lemma Image2BytesRoundTrip(b: Binary, tail: seq<bv8>)
    requires Valid(b) && b.rect.min == Point(0, 0) && b.rect.Dx() > 0 && b.rect.Dy() > 0
    ensures var (hs, bm) := BitmapBytes(b);
      var rb, r := RowBytes(b.rect.Dx()), Bytes2Image(bm + tail);
      && r.Ok?
      && r.value.header == BitmapLine(rb, b.rect.Dy())
      && r.value.tail == tail
      && r.value.bitmap.rect == Rectangle(Point(0, 0), Point(8 * rb, b.rect.Dy()))
      && (forall x, y :: b.rect.Contains(x, y) ==> (Bit(r.value.bitmap, x, y) <==> IsWhite(b, x, y)))
      && (forall x, y :: b.rect.max.x <= x < 8 * rb && 0 <= y < b.rect.Dy() ==> !Bit(r.value.bitmap, x, y))
  {
    hide Bytes2Image, ParseBitmapHeader, BitmapBytes, BitmapLine, PixelIn, DecodedBinary, Bit, IsWhite, Payload;
    var (hs, bm) := BitmapBytes(b);
    var rb, h := RowBytes(b.rect.Dx()), b.rect.Dy();
    BitmapBytesParse(b, tail);
    DecodeWithTail(bm, tail, hs, rb, h);
  }

  /** A parsed body of header and payload followed by a tail decodes with
      that tail, and its pixels are the payload's. */
  lemma DecodeWithTail(bm: seq<bv8>, tail: seq<bv8>, hs: int, rb: int, h: int)
    requires rb > 0 && h > 0 && 0 <= hs && |bm| == hs + h * rb
    requires ParseBitmapHeader(bm + tail) == Ok(BitmapHeader(rb, 8 * rb, h, hs))
    ensures Bytes2Image(bm + tail).Ok?
    ensures var r := Bytes2Image(bm + tail).value;
      && r.header == bm[..hs]
      && r.tail == tail
      && r.bitmap.rect == Rectangle(Point(0, 0), Point(8 * rb, h))
      && forall x, y :: 0 <= x < 8 * rb && 0 <= y < h ==> (Bit(r.bitmap, x, y) <==> PixelIn(bm, hs, rb, x, y))
  {
    hide Bytes2Image, ParseBitmapHeader, PixelIn, DecodedBinary, Bit;
    var body := bm + tail;
    var r := Bytes2Image(body);
    MulMonotone(0, rb, h);
    assert rb * h == h * rb;
    assert body[..hs] == bm[..hs];
    assert body[hs + rb * h..] == tail;
    forall x, y | 0 <= x < 8 * rb && 0 <= y < h
      ensures PixelIn(body, hs, rb, x, y) <==> PixelIn(bm, hs, rb, x, y)
    {
      PixelInPrefix(bm, tail, hs, rb, h, x, y);
    }
    assert r.value.bitmap.rect.Contains(0, 0);
  }

  /** The header of the bytes Image2Bytes writes parses back, whatever
      follows them. */
  lemma BitmapBytesParse(b: Binary, tail: seq<bv8>)
    requires Valid(b) && b.rect.min == Point(0, 0)
    ensures var (hs, bm) := BitmapBytes(b);
      var rb := RowBytes(b.rect.Dx());
      ParseBitmapHeader(bm + tail) == Ok(BitmapHeader(rb, 8 * rb, b.rect.Dy(), hs))
  {
    hide Bytes2Image, ParseBitmapHeader, BitmapBytes, BitmapLine, PixelIn, DecodedBinary, Bit, IsWhite, Payload;
    var (hs, bm) := BitmapBytes(b);
    var rb, h := RowBytes(b.rect.Dx()), b.rect.Dy();
    var line := BitmapLine(rb, h);
    assert bm == line + bm[hs..];
    assert bm + tail == line + (bm[hs..] + tail);
    ParseBitmapLine(rb, h, bm[hs..] + tail);
  }

  /** A payload pixel reads the same whatever follows the payload. */
  lemma PixelInPrefix(bm: seq<bv8>, tail: seq<bv8>, hs: int, rb: int, h: int, x: int, y: int)
    requires 0 <= hs && hs + h * rb <= |bm| && 0 <= x < 8 * rb && 0 <= y < h
    ensures PixelIn(bm + tail, hs, rb, x, y) <==> PixelIn(bm, hs, rb, x, y)
  {
    RowMajorBound(y, x / 8, rb, h);
  }

  /** The whole print job is not a `BITMAP` body: it starts with the setup
      commands, so decoding it fails with "not a BITMAP line". */
  lemma EncodeIsNotABitmapBody(w: int, h: int, dpm: int, img: ImageInput, opt: Options,
                               sizeText: (int, int) -> seq<bv8>)
    requires img.BinaryImage? ==> Valid(img.b) && img.b.rect.min == Point(0, 0)
    requires Encode(w, h, dpm, img, opt, sizeText).Ok?
    ensures Bytes2Image(Encode(w, h, dpm, img, opt, sizeText).value) == Err(NotABitmapLine)
  {
    SetupStartsWithS(opt.peel);
    hide Bytes2Image, ParseBitmapHeader, Encode, Header, Image2Bytes, BitmapBytes, SetupText;
    var r := Encode(w, h, dpm, img, opt, sizeText).value;
    var header := Header(w, h, dpm, opt, sizeText);
    assert r[0] == header[..|header|][0] == SetupText(opt.peel)[0];
    assert !HasPrefix(r, BitmapWord);
  }

  lemma SetupStartsWithS(peel: bool)
    ensures |SetupText(peel)| > 0 && SetupText(peel)[0] == 0x53 && BitmapWord[0] == 0x42
  {
    assert "SET CUTTER OFF\r\n"[0] == 'S';
    assert "BITMAP"[0] == 'B';
  }

  /** Past the label header, a print job of a `*Binary` decodes back to the
      image, with `PRINT 1,1` as the tail. */
  lemma EncodeRoundTrip(w: int, h: int, dpm: int, b: Binary, opt: Options, sizeText: (int, int) -> seq<bv8>)
    requires Valid(b) && b.rect.min == Point(0, 0) && b.rect.Dx() > 0 && b.rect.Dy() > 0
    ensures var job := Encode(w, h, dpm, BinaryImage(b), opt, sizeText);
      var header := Header(w, h, dpm, opt, sizeText);
      && job.Ok?
      && |header| <= |job.value|
      && var r := Bytes2Image(job.value[|header|..]);
      && r.Ok?
      && r.value.tail == PrintCommand
      && r.value.bitmap.rect == Rectangle(Point(0, 0), Point(8 * RowBytes(b.rect.Dx()), b.rect.Dy()))
      && forall x, y :: b.rect.Contains(x, y) ==> (Bit(r.value.bitmap, x, y) <==> IsWhite(b, x, y))
  {
    hide Bytes2Image, ParseBitmapHeader, BitmapBytes, BitmapLine, PixelIn, DecodedBinary, Bit, IsWhite, Payload,
      Encode, Header, Image2Bytes;
    var job := Encode(w, h, dpm, BinaryImage(b), opt, sizeText).value;
    var header := Header(w, h, dpm, opt, sizeText);
    var bm := BitmapBytes(b).1;
    assert job[|header|..] == bm + PrintCommand;
    Image2BytesRoundTrip(b, PrintCommand);
  }

  // ---------------------------------------------------------------------
  // Bytes2Image as written.

  /** `bodyEnd` after the decoding loop: the last payload index read that
      lies inside the body, or headerEnd when none does (n > 0 indices). */
  function LastRead(headerEnd: int, n: int, len: int): int
  {
    if headerEnd < len then Min(headerEnd + n, len) - 1 else headerEnd
  }

  /** The part of LastRead reached after the first v payload indices. */
  function ReadSoFar(headerEnd: int, v: int, len: int): int
  {
    if headerEnd < len && v > 0 then Min(headerEnd + v, len) - 1 else headerEnd
  }

  /** The decoding loop's bookkeeping of `bodyEnd`: every pixel visits its
      byte, bytes past the body are skipped, and the last byte visited is
      kept. */
  method BodyEnd(headerEnd: int, rowBytes: int, height: int, len: int) returns (bodyEnd: int)
    requires 0 <= headerEnd <= len && rowBytes > 0 && height > 0
    ensures bodyEnd == LastRead(headerEnd, rowBytes * height, len)
  {
    var width := rowBytes * 8;
    bodyEnd := headerEnd;
    var y := 0;
    while y < height
      invariant 0 <= y <= height
      invariant bodyEnd == ReadSoFar(headerEnd, y * rowBytes, len)
    {
      var x := 0;
      MulMonotone(0, y, rowBytes);
      while x < width
        invariant 0 <= x <= width
        invariant bodyEnd == ReadSoFar(headerEnd, y * rowBytes + (x + 7) / 8, len)
      {
        var byteIndex := headerEnd + y * rowBytes + x / 8;
        if byteIndex >= len {
          x := x + 1;
          continue;
        }
        bodyEnd := byteIndex;
        x := x + 1;
      }
      assert (y + 1) * rowBytes == y * rowBytes + rowBytes;
      y := y + 1;
    }
    assert height * rowBytes == rowBytes * height;
    MulAtLeast(height, rowBytes);
  }

  /** `Bytes2Image` as the source writes it: the tail is `body[bodyEnd+1:]`,
      which is out of range when the body ends right after the header, so
      that case panics instead of returning an empty tail. */
  function Bytes2ImageAsWritten(body: seq<bv8>): (r: Result<Image>)
    ensures r == Err(SliceOutOfRange) <==>
              Bytes2Image(body).Ok? && ParseBitmapHeader(body).value.headerEnd == |body|
    ensures r != Err(SliceOutOfRange) ==> r == Bytes2Image(body)
  {
    hide Bytes2Image, ParseBitmapHeader, DecodedBinary;
    match Bytes2Image(body)
    case Err(e) => Err(e)
    case Ok(img) =>
      var hd := ParseBitmapHeader(body).value;
      LastReadEnd(body);
      var last := LastRead(hd.headerEnd, hd.rowBytes * hd.height, |body|);
      if last + 1 > |body| then Err(SliceOutOfRange)
      else Ok(img.(tail := body[last + 1..]))
  }

  /** Where the source's tail slice starts: past the body when the body
      ends at the header, at the end of the payload otherwise. */
  lemma LastReadEnd(body: seq<bv8>)
    requires Bytes2Image(body).Ok?
    ensures var hd := ParseBitmapHeader(body).value;
      var last := LastRead(hd.headerEnd, hd.rowBytes * hd.height, |body|);
      && 0 <= last + 1
      && (last + 1 > |body| <==> hd.headerEnd == |body|)
      && (last + 1 <= |body| ==> last + 1 == PayloadEnd(hd, |body|))
  {
    var hd := ParseBitmapHeader(body).value;
    hide Bytes2Image, ParseBitmapHeader, DecodedBinary;
    MulAtLeast(hd.height, hd.rowBytes);
  }

  /** A body holding only the header text: the source panics on the tail
      slice, where an empty tail is meant. */
  lemma HeaderOnlyBody(rowBytes: nat, height: nat)
    requires rowBytes > 0 && height > 0
    ensures Bytes2ImageAsWritten(BitmapLine(rowBytes, height)) == Err(SliceOutOfRange)
    ensures Bytes2Image(BitmapLine(rowBytes, height)).Ok?
    ensures Bytes2Image(BitmapLine(rowBytes, height)).value.tail == []
  {
    var line := BitmapLine(rowBytes, height);
    assert line + [] == line;
    ParseBitmapLine(rowBytes, height, []);
  }
}
