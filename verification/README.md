# TSPL bitmap codec and 1-bit image, in Dafny

A model of the two pieces at the heart of the `tspl` Go package:

- **`bin-img`**: the packed 1-bit image `Binary`. Pixels sit eight to a byte, most significant bit first, and rows are `Stride` bytes apart. The model covers:
  - allocation, pixel addressing, and get/set;
  - the `image.Image` view (`At`, `Set`, `BinaryModel`);
  - `Fill`;
  - thresholding of an RGBA source (both `FromGrayThreshold`s);
  - the in-place 180-degree rotation, with its bit-by-bit general path and its byte-reversing fast path.
- **The TSPL codec** (`tspl.go`):
  - the label header;
  - `Encode` and `Image2Bytes`, which write the `BITMAP 0,0,rowBytes,height,1,` text followed by the packed payload;
  - `ParseBitmapHeader`;
  - `Bytes2Image`, which decodes a body back into header text, image and trailing bytes;
  - `OverlayBinary`, which patches an image into the payload of an encoded body at any bit offset without decoding it.

Every operation is a pure function or a method over immutable values. Loops are methods that are proved equal to a functional reference definition:

| Loop method | Reference definition |
|---|---|
| `Threshold.ThresholdInto` | `Threshold.Thresholded` |
| `Rotate.Rotate180General` and `RotateFast.Rotate180Fast` | `Rotate.Rotated180` |
| `Overlay.CopyOverlay` | `Overlay.Patched` |

Errors are values of `Results.Error`, one constructor per error the Go code returns.

Modules, in dependency order:

| Module | Contents |
|---|---|
| `Bits` | Bit numbering, masks, `Reverse8` |
| `Arith` | Division and row-major facts |
| `Results` | Option, result and the error kinds |
| `BinImg` | The `Binary` datatype and its pixel operations |
| `Threshold` | Thresholding |
| `Rotate` | The reference rotation and the general path |
| `RotateFast` | The fast path and the dispatching `Rotate180` |
| `Fmt` | `%d` rendering and scanning |
| `Tspl` | Header, encode, parse and decode |
| `HeaderFrame` | The parser reads only the header |
| `Overlay` | `OverlayBinary` |

The properties proved are:

- **Round trips:**
  - the bytes `Image2Bytes` writes decode back to the image, whatever follows them;
  - a print job decodes back past its label header;
  - `%d` output scans back to the number written.
- **Uniqueness and involution of the rotation:** rotating twice gives the image back, bit for bit.
- **Equality of every loop to its reference.**
- **Frame properties:**
  - setting a pixel changes one bit;
  - overlaying changes only the overlay's bits;
  - the parser reads nothing past the header.
- **Decoding an overlaid body:** it shows the overlay at its offset and the base everywhere else.

## Model

| member | source | states |
|---|---|---|
| Bits.MaskIsShift | bin-img/img.go:112-116 | The mask numbering used throughout, `Mask(k)`, is Go's `0x80 >> k` for each k in 0..7. |
| Bits.LsbMask | tspl.go:203-206 | The codec's mask `1 << (7 - x % 8)` selects the same bit as the image's `0x80 >> (x & 7)`. The image and the payload therefore number pixels within a byte alike. |
| Bits.WithBit | bin-img/img.go:118-126 | `v \| mask` or `v &^ mask` gives the targeted bit the requested state and leaves the other seven bits as they were. |
| Bits.Reverse8 | bin-img/img.go:236-248 | `bits.Reverse8` moves bit 7-k of the argument to bit k of the result. |
| Bits.Reverse8Involution | bin-img/img.go:259-264 | Reversing a byte's bits twice gives the byte back. This is why the middle byte of an odd-width middle row must be reversed exactly once. |
| Bits.BitsDetermineByte | bin-img/img.go:10-11 | Two bytes with the same eight bits are the same byte. The pixel-level statements therefore fix whole buffers. |
| BinImg.NewBinary | bin-img/img.go:21-35 | Fails for a non-positive width or height first, then for a width that is not a multiple of 8. It succeeds exactly when neither holds, with stride w/8, a buffer of (w/8)*h bytes, rectangle (0,0)-(w,h) and every pixel off. |
| BinImg.PixOffset | bin-img/img.go:108-110 | The byte holding any visible pixel of a well-formed image lies inside the buffer. |
| BinImg.PixelAtOfPixel | bin-img/img.go:108-116 | The byte `pixOffset` selects, together with bit `x & 7`, names the pixel again. `PixelAt` inverts the addressing. |
| BinImg.PixelBitsDistinct | bin-img/img.go:108-116 | Two visible pixels that share a byte and a bit position are the same pixel. |
| BinImg.SetBit | bin-img/img.go:118-126 | `setBit` gives the pixel the requested state. Every other visible pixel, and every other bit of the buffer, is unchanged. |
| BinImg.SetOn | bin-img/img.go:128 | The pixel is on afterwards and no other visible pixel changes. |
| BinImg.SetOff | bin-img/img.go:129 | The pixel is off afterwards and no other visible pixel changes. |
| BinImg.At | bin-img/img.go:59-68 | A point outside the rectangle reads black. Inside, `At` reads `Gray{255}` exactly when the pixel's bit is set, and `Gray{0}` otherwise. |
| BinImg.IsBlack | bin-img/img.go:70-76 | `IsBlack` is the negation of `IsWhite`. It agrees with `At` reading black. |
| BinImg.LumaSum | bin-img/img.go:48-50 | `299*r + 587*g + 114*b` on 16-bit channels stays below 2^32, so the uint32 arithmetic of the source never wraps. |
| BinImg.BinaryModel | bin-img/img.go:40-55 | A colour converts to white exactly when it is not fully transparent and its 16-bit luma reaches 0x8000. Every other colour converts to black. |
| BinImg.Set | bin-img/img.go:78-86 | Outside the rectangle `Set` changes nothing. Inside, the pixel turns on exactly when the colour is not fully transparent and its luma reaches 0x8000, as `BinaryModel` decides, and no other pixel changes. |
| BinImg.Fill | bin-img/img.go:131-140 | Every byte of the buffer becomes 0xFF or 0x00, so every visible pixel takes the requested state. |
| Threshold.Luma8 | bin-img/img.go:167-168 | The 8-bit luma is at most 255, so the `uint8` conversion never truncates. |
| Threshold.BinaryModelIsThreshold128 | bin-img/img.go:42-55 | `BinaryModel` followed by `Set`'s `>= 128` test makes the same decision as thresholding at 128. |
| Threshold.Thresholded | bin-img/img.go:151-178 | Reference result of thresholding in place: a pixel is on exactly when its source colour passes the threshold. The bits of the visible rows that hold no pixel are cleared, and the bytes past the last row are kept. |
| Threshold.ThresholdRow | bin-img/img.go:155-176 | One outer iteration rewrites exactly the `stride` bytes of row y. Each of their bits becomes the threshold decision of its pixel, or clear for a padding bit. Every other byte is kept. |
| Threshold.ThresholdInto | bin-img/img.go:153-178 | The row-by-row loop produces exactly the `Thresholded` image. |
| Threshold.FromGrayThreshold | bin-img/img.go:142-149 | Fails exactly when `NewBinary` fails for the source's size, with the same error. On success the image is `Dx x Dy` at (0,0), and pixel (x,y) is on exactly when the source's colour at (x,y) passes the threshold. |
| Rotate.Rotated180 | bin-img/img.go:186-193 | Reference rotation: the same geometry, each visible pixel takes the state of its mirror `(minX+maxX-1-x, minY+maxY-1-y)`, and every bit outside the visible pixels is unchanged. |
| Rotate.RotationUnique | bin-img/img.go:186-193 | Any image with that geometry, the mirrored pixels and the untouched non-pixel bits equals `Rotated180`. |
| Rotate.Rotate180Involution | bin-img/img.go:186-193 | Rotating twice gives back the original buffer, bit for bit, padding included. |
| Rotate.RotationOfTrivialImage | bin-img/img.go:194-203 | An image of at most one pixel, or of zero width or height, is its own rotation. The early returns are therefore correct. |
| Rotate.SwapPixels | bin-img/img.go:216-219 | Two reads and two `setBit`s exchange the two pixels' states. Every other pixel and every non-pixel bit is unchanged. |
| Rotate.SwapRowPair | bin-img/img.go:210-221 | One outer iteration of the general path completes row y and its partner row h-1-y. The finished rows grow by one pair and no non-pixel bit changes. |
| Rotate.SwapMiddleRow | bin-img/img.go:222-232 | For an odd height, mirroring the middle row within itself completes the rotation of every pixel. |
| Rotate.Rotate180General | bin-img/img.go:207-234 | The bit-by-bit path yields `Rotated180` for any view, aligned or not. |
| RotateFast.FastRotationIsRotated180 | bin-img/img.go:236-266 | For a byte-aligned view, putting the bit-reversed byte rb-1-c of row h-1-y at row y, column c yields exactly `Rotated180`. |
| RotateFast.SwapRowsFast | bin-img/img.go:238-250 | One outer iteration of the fast path puts the reversed partner bytes into rows y and h-1-y and leaves every other byte alone. |
| RotateFast.ReverseMiddleFast | bin-img/img.go:252-266 | The middle-row pass, including the lone middle byte of an odd byte count, puts the fast-path byte everywhere. |
| RotateFast.Rotate180Fast | bin-img/img.go:236-266 | The fast path yields `Rotated180` for an aligned view of positive width. |
| RotateFast.Rotate180 | bin-img/img.go:193-267 | Every branch of `Rotate180` (the early returns, the general path and the fast path) yields `Rotated180`. A view of at most one pixel is left unchanged. |
| Fmt.Decimal | tspl.go:68 | `%d` of a non-negative number is a non-empty run of digits without a leading zero, except for 0 itself. |
| Fmt.DecimalValue | tspl.go:68 | The digits `%d` writes denote the number written. |
| Fmt.ScanIntCommaAt | tspl.go:119-120 | Scanning `%d,` over a number's decimal text followed by a comma reads the number back and stops just past the comma, whatever surrounds it. |
| Tspl.Header | tspl.go:27-36 | The header is exactly: the three setup commands (`SET PEEL ON` or `OFF` as the option says), `SIZE `, the width number, ` mm, `, the height number, then ` mm` and `CLS`. The two numbers are rendered with a dots-per-mm of 8 when dpm is 0, and the total length is the sum of the parts. |
| Tspl.Encode | tspl.go:38-51 | Fails exactly when `Image2Bytes` fails, with its error. Otherwise the job is the header, then the bitmap bytes, then `PRINT 1,1`. |
| Tspl.BitmapLine | tspl.go:68 | The `BITMAP` command text starts with `BITMAP`. |
| Tspl.BitmapLineShape | tspl.go:68 | The command text is `BITMAP ` followed by five `%d,` fields. It holds exactly five commas, and the last one ends it. |
| Tspl.BitmapBytes | tspl.go:64-85 | The bitmap is the command text followed by rowBytes*height payload bytes. Payload pixel (x,y) is set exactly when x is inside the width and the image's pixel is white, so the padding bits are clear. |
| Tspl.Image2Bytes | tspl.go:53-86 | A `*Binary` is encoded as it is. Any other image is first thresholded at 151, and that step's error is passed on. |
| Tspl.Image2BytesThresholds | tspl.go:57-59 | For an image that is not a `*Binary`, a payload bit is set exactly when the source colour passes threshold 151. |
| Tspl.FifthComma | tspl.go:102-112 | The comma-counting loop finds a comma exactly when the body holds at least five commas. The comma found has exactly four before it. |
| Tspl.ParseBitmapHeader | tspl.go:98-132 | Reports "not a BITMAP line" without the prefix, then "invalid format" with fewer than five commas, then a scan error. The scan error also covers `BITMAP` not followed by a blank, as the format's space requires. On success the row bytes and height are the scanned values and the width is 8*rowBytes. The header ends just past the fifth comma. |
| Tspl.ParseBitmapLine | tspl.go:98-132 | The command text `Image2Bytes` writes parses back, whatever follows it, to the row bytes, the height, a width of 8*rowBytes, and a header end at the end of the text. |
| Tspl.Bytes2Image | tspl.go:214-252 | Passes on the parse error, then fails on a non-positive width or height. Otherwise the result holds the header text and an image of 8*rowBytes by height whose pixels are the payload's bits. Bytes missing from a short body read as off. The tail is what follows the payload (corrected version; see Findings). |
| Tspl.Image2BytesRoundTrip | tspl.go:214-252 | The bytes `Image2Bytes` writes, followed by any tail, decode to the command text, the same tail, and every pixel as written. The padding columns up to a whole byte read as off. |
| Tspl.EncodeRoundTrip | tspl.go:38-51 | Past the label header, a print job of a `*Binary` decodes back to the image, with `PRINT 1,1` as the tail. |
| Tspl.EncodeIsNotABitmapBody | tspl.go:38-51 | A whole print job does not decode: it starts with `SET`, so the result is "not a BITMAP line". |
| Tspl.BodyEnd | tspl.go:230-245 | The decoding loop's `bodyEnd` ends as the last payload index inside the body, or as headerEnd when there is none. |
| Tspl.Bytes2ImageAsWritten | tspl.go:247-251 | As written, the tail slice `body[bodyEnd+1:]` is out of range exactly when the body ends at the header. In every other case it agrees with `Bytes2Image`. |
| Tspl.LastReadEnd | tspl.go:230-250 | `bodyEnd + 1` lies past the body exactly when the body ends at the header. Otherwise it is the end of the payload. |
| Tspl.HeaderOnlyBody | tspl.go:250 | A body of only the command text makes the source's tail slice go out of range, where the intended tail is empty. |
| Tspl.WordNeedsBlank | tspl.go:117-121 | `BITMAP` followed directly by five or more `%d,` fields, with no blank between, fails with the scan error. The format's space needs at least one blank, even though the comma count passes. |
| HeaderFrame.ScanBitmapEnd | tspl.go:117-120 | The `Sscanf` scan of `BITMAP %d,%d,%d,%d,%d,` stops just past the body's fifth comma. |
| HeaderFrame.ScanFieldsFrame | tspl.go:119-120 | The scan reads nothing beyond the index where it stops. |
| HeaderFrame.ParseReadsHeaderOnly | tspl.go:98-132 | Two bodies that agree up to the parsed header's end parse to the same header, whatever follows. |
| Overlay.SetBitmapBit | tspl.go:203-212 | Pixel x's bit of byte `headerEnd + y*rowBytes + x/8` becomes 1 exactly when `bit` is non-zero. The other seven bits and every other byte are unchanged. |
| Overlay.TargetOfPixel | tspl.go:182-193 | Each overlay pixel (ox,oy) lands inside the checked buffer, at pixel (ox+xOff, oy+yOff) of the payload, and no other overlay pixel lands on that bit. |
| Overlay.PixelOfTarget | tspl.go:182-193 | A bit that receives an overlay pixel is that pixel's landing place. |
| Overlay.CopyOverlay | tspl.go:177-193 | The nested copy loop of `setBitmapBit` calls produces exactly the patched buffer. |
| Overlay.BaseHeader | tspl.go:150-156 | The caller's header is used when given. Otherwise the parsed one is used, and a parsed header always describes its payload. |
| Overlay.CheckedFits | tspl.go:160-175 | A header that passed the length, size and bounds checks places every overlay bit inside the buffer and inside a row. |
| Overlay.OverlayBinary | tspl.go:139-196 | Reports its errors (nil overlay, negative offset, empty base, header error, then the size and bounds checks) in the source's order, and succeeds exactly when none applies. On success the result has the base's length. Each bit that receives an overlay pixel holds that pixel's `IsWhite` state, and every other bit is the base's. |
| Overlay.OverlayBinaryAtTopLeft | tspl.go:198-201 | Fails exactly as `OverlayBinary` at offset (0,0) does: nil overlay, empty base, header error, then the size and bounds checks. It never reports a negative offset. On success the result has the base's length, payload pixel (x,y) is the overlay's pixel (x,y) over the whole overlay, and every bit the overlay does not cover is the base's. |
| Overlay.OverlayPixels | tspl.go:177-193 | After a successful overlay each overlay pixel reads back at its offset position, and every bit outside the overlay is the base's. |
| Overlay.OverlayThenDecode | tspl.go:134-196 | Decoding an overlaid body gives the base's header, tail and size. The overlay shows at its offset and every other pixel is the base's. Overlay pixels overwrite base pixels, both on and off. |

## Left out

- Tspl.Header: Go's `%.1f` rendering of `float64(w)/float64(dpm)` is not modelled. The two `SIZE` numbers come from a caller-supplied function `sizeText(value, dpm)`.
- Tspl.ParseBitmapHeader: `fmt.Sscanf` is modelled for what it reads in this format:
  - one or more spaces (0x20) for the space after `BITMAP`, which is required;
  - spaces (0x20) before a number;
  - an optional `+` or `-`;
  - one or more decimal digits;
  - a literal comma.
- Tspl.ParseBitmapHeader (continued): other white space (tab, carriage return, newline) and Go's integer-overflow error are not modelled.
- Go's `int` is 64 bits wide. All arithmetic here is unbounded, so the overflow of `rowBytes*height`, offsets and positions for huge values is not modelled.
- Tspl.Image2Bytes: for a `*Binary` the model requires the view to start at (0,0). The source reads `IsWhite(x, y)` for x and y from 0, so on any other view it reads pixels outside the rectangle, or panics.
- Overlay.OverlayBinary: a caller-supplied header must satisfy `Describes`, meaning a non-negative header end and a width of at most 8*rowBytes. With any other header the source writes into the next row or panics on a negative index. Every parsed header satisfies it.
- BinImg.IsBlack: `IsWhite`, `IsBlack` and `bit` require a visible pixel, because the source does not check bounds and reads another pixel's bit or panics.
- BinImg.SetBit: `setBit`, `SetOn` and `SetOff` require a visible pixel for the same reason. Outside the rectangle the source writes another pixel's bit or panics. Every caller in the source stays inside: `Set` checks bounds, and `Bytes2Image` and `Rotate180` loop inside the rectangle.
- BinImg.SetOn: requires a visible pixel (see `BinImg.SetBit`).
- BinImg.SetOff: requires a visible pixel (see `BinImg.SetBit`).
- Threshold.ThresholdInto: requires the visible rows to lie inside the buffer (`Dy*stride <= len(Pix)`); otherwise the source's row slice panics.
- In-place mutation (`Rotate180`, `Fill`, `Set`, `FromGrayThreshold` on a receiver, the payload patch) is modelled as returning a new value. Aliasing between a `SubImage` view and its parent is therefore not modelled.
- Not modelled, because they are plumbing or floating point:
  - `SubImage`;
  - `Bounds`, `ColorModel`, `Opaque`;
  - `ToPaletted`, `BytesPerPixel`, `MemoryUsage`;
  - `DefaultDriver`, `DefaultOptions`, `Options`' JSON tags.
- The `image.Image` argument is reduced to its bounds and a function from points to 16-bit RGBA (`Threshold.PixelSource`). Image decoding and colour models other than RGBA are not modelled.
- Encoding and then decoding a whole print job does not round-trip, because the job starts with the `SET` commands. The code is followed here: `Tspl.EncodeIsNotABitmapBody` states the failure, and `Tspl.EncodeRoundTrip` states the round trip past the label header.

## Findings

| source | as written | input that shows it | evidently intended | confidence | as-written member | corrected member |
|---|---|---|---|---|---|---|
| tspl.go:230-250 | `bodyEnd` starts at `headerEnd`, and the tail is `body[bodyEnd+1:]`. When no payload byte lies inside the body, the slice starts one past the end and panics. | the body `BITMAP 0,0,1,1,1,` (the command text and nothing after it) | a decoded image with every pixel off and an empty tail, like any other truncated payload | not executed | Tspl.Bytes2ImageAsWritten | Tspl.Bytes2Image |

`Tspl.HeaderOnlyBody` proves, for every positive row-byte count and height, that the as-written decoder reaches the out-of-range slice on the bare command text. `Tspl.Bytes2Image` returns the empty tail there. It is the decoder the rest of the model uses.
