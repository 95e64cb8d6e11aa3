/** Optional values, results and the distinct error kinds of the image and
    printer-command code. */
module Results {

  datatype Option<T> = None | Some(value: T)

  /** One constructor per error the source returns (or, for
      `SliceOutOfRange`, per runtime panic it can reach). */
  datatype Error =
    | InvalidDimensions      // NewBinary: w <= 0 or h <= 0
    | WidthNotMultipleOf8    // NewBinary: w % 8 != 0
    | NotABitmapLine         // ParseBitmapHeader: no "BITMAP" prefix
    | InvalidBitmapFormat    // ParseBitmapHeader: fewer than five commas
    | ScanMismatch           // ParseBitmapHeader: the five integers do not scan
    | InvalidImageSize       // Bytes2Image: width or height <= 0
    | NilOverlay             // OverlayBinary: overlay is nil
    | NegativeOffset         // OverlayBinary: xOff < 0 or yOff < 0
    | EmptyBase              // OverlayBinary: len(base) == 0
    | BaseTooShort           // OverlayBinary: payload does not fit in base
    | InvalidOverlaySize     // OverlayBinary: overlay width or height <= 0
    | OverlayOutOfBounds     // OverlayBinary: overlay does not fit in base
    | SliceOutOfRange        // runtime panic of a slice expression

  datatype Result<T> = Ok(value: T) | Err(error: Error)
}
