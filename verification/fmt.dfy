/** The little text handling the printer codec needs: ASCII bytes, the
    decimal `%d` rendering of a non-negative int, and a scanner for the
    `%d` fields and literal characters of `fmt.Sscanf`.

    The `%d` scanner accepts what `Sscanf`'s `%d` accepts for the inputs that
    matter here: blanks (0x20) before a number, an optional `+` or `-`, then
    one or more decimal digits. A space in a format, which needs at least
    one blank in the input, is matched by the caller. */
module Fmt {
  import opened Results

  /** A string's characters as bytes (every string used here is ASCII). */
  function Ascii(s: string): (r: seq<bv8>)
    ensures |r| == |s|
    ensures forall i :: 0 <= i < |s| && s[i] as int < 256 ==> r[i] as int == s[i] as int
  {
    seq(|s|, i requires 0 <= i < |s| => Latin1(s[i]))
  }

  /** The low byte of a character's code. */
  function Latin1(c: char): (b: bv8)
    ensures c as int < 256 ==> b as int == c as int
  {
    (c as int % 256) as bv8
  }

  const Comma: bv8 := 0x2C
  const Blank: bv8 := 0x20
  const Plus: bv8 := 0x2B
  const Minus: bv8 := 0x2D

  predicate IsDigit(c: bv8)
  {
    0x30 <= c <= 0x39
  }

  predicate AllDigits(s: seq<bv8>)
  {
    forall i :: 0 <= i < |s| ==> IsDigit(s[i])
  }

  /** The byte for decimal digit d. */
  function Digit(d: int): (c: bv8)
    requires 0 <= d < 10
    ensures IsDigit(c) && DigitValue(c) == d
  {
    (0x30 + d) as bv8
  }

  function DigitValue(c: bv8): int
    requires IsDigit(c)
  {
    (c - 0x30) as int
  }

  /** The number a run of decimal digits denotes, most significant first. */
  function DigitsValue(s: seq<bv8>): (v: int)
    requires AllDigits(s)
    ensures v >= 0
  {
    if s == [] then 0 else DigitsValue(s[..|s| - 1]) * 10 + DigitValue(s[|s| - 1])
  }

  /** `%d` of a non-negative int: its decimal digits, with no leading zero
      unless the number is 0. */
  function Decimal(n: nat): (r: seq<bv8>)
    ensures |r| >= 1 && AllDigits(r)
    ensures r[0] != 0x30 || n == 0
    decreases n
  {
    if n < 10 then [Digit(n)] else Decimal(n / 10) + [Digit(n % 10)]
  }

  /** The digits `%d` writes denote the number written. */
  lemma {:induction false} DecimalValue(n: nat)
    ensures DigitsValue(Decimal(n)) == n
    decreases n
  {
    if n >= 10 {
      DecimalValue(n / 10);
      var d := Decimal(n);
      assert d[..|d| - 1] == Decimal(n / 10);
    }
  }

  // ---------------------------------------------------------------------
  // Scanning.

  /** The first index at or after i that is not a blank. */
  function SkipBlanks(s: seq<bv8>, i: int): (j: int)
    requires 0 <= i <= |s|
    ensures i <= j <= |s|
    ensures forall k :: i <= k < j ==> s[k] == Blank
    ensures j < |s| ==> s[j] != Blank
    decreases |s| - i
  {
    if i < |s| && s[i] == Blank then SkipBlanks(s, i + 1) else i
  }

  /** The end of the run of digits that starts at i. */
  function DigitRunEnd(s: seq<bv8>, i: int): (j: int)
    requires 0 <= i <= |s|
    ensures i <= j <= |s|
    ensures AllDigits(s[i..j])
    ensures j < |s| ==> !IsDigit(s[j])
    decreases |s| - i
  {
    if i < |s| && IsDigit(s[i]) then
      var j := DigitRunEnd(s, i + 1);
      assert s[i..j] == [s[i]] + s[i + 1..j];
      j
    else i
  }

  /** `%d` at index i: blanks, an optional sign, at least one digit. The
      value read and the index just past the digits. */
  function ScanInt(s: seq<bv8>, i: int): (r: Option<(int, int)>)
    requires 0 <= i <= |s|
    ensures r.Some? ==> i < r.value.1 <= |s|
    ensures r.Some? ==> IsDigit(s[r.value.1 - 1])
  {
    var j := SkipBlanks(s, i);
    var neg := j < |s| && s[j] == Minus;
    var k := if j < |s| && (s[j] == Minus || s[j] == Plus) then j + 1 else j;
    var e := DigitRunEnd(s, k);
    if e == k then None
    else
      var v := DigitsValue(s[k..e]);
      Some((if neg then -v else v, e))
  }

  /** `%d,`: a number followed by a literal comma; the index past the comma. */
  function ScanIntComma(s: seq<bv8>, i: int): (r: Option<(int, int)>)
    requires 0 <= i <= |s|
    ensures r.Some? ==> i < r.value.1 <= |s| && s[r.value.1 - 1] == Comma
  {
    match ScanInt(s, i)
    case None => None
    case Some((v, e)) =>
      if e < |s| && s[e] == Comma then Some((v, e + 1)) else None
  }

  /** `%d` at a run of digits reads the run's value. */
  lemma ScanIntOfDigits(s: seq<bv8>, i: int, e: int)
    requires 0 <= i < e < |s|
    requires AllDigits(s[i..e]) && !IsDigit(s[e])
    ensures ScanInt(s, i) == Some((DigitsValue(s[i..e]), e))
  {
    assert IsDigit(s[i..e][0]);
    assert SkipBlanks(s, i) == i;
    forall k | i <= k < e
      ensures IsDigit(s[k])
    {
      assert s[k] == s[i..e][k - i];
    }
    DigitRunFrom(s, i, e);
  }

  /** Scanning `%d,` where the text at i is `Decimal(n) + ","` reads n back
      and stops just past the comma, whatever comes before or after. */
  lemma ScanIntCommaAt(s: seq<bv8>, i: int, n: nat)
    requires 0 <= i && i + |Decimal(n)| + 1 <= |s|
    requires s[i..i + |Decimal(n)| + 1] == Decimal(n) + [Comma]
    ensures ScanIntComma(s, i) == Some((n, i + |Decimal(n)| + 1))
  {
    var d := Decimal(n);
    DecimalValue(n);
    DigitsThenComma(s, i, d);
    hide Decimal, ScanInt, DigitsValue, SkipBlanks, DigitRunEnd;
    ScanIntOfDigits(s, i, i + |d|);
  }

  /** Text d followed by a comma at i: the slice is d, the next byte the
      comma. */
  lemma DigitsThenComma(s: seq<bv8>, i: int, d: seq<bv8>)
    requires 0 <= i && i + |d| + 1 <= |s| && s[i..i + |d| + 1] == d + [Comma]
    ensures s[i..i + |d|] == d && s[i + |d|] == Comma
  {
    assert s[i..i + |d|] == s[i..i + |d| + 1][..|d|];
    assert s[i + |d|] == s[i..i + |d| + 1][|d|];
  }

  /** A run of digits ending before a non-digit: DigitRunEnd finds its end. */
  lemma {:induction false} DigitRunFrom(s: seq<bv8>, i: int, e: int)
    requires 0 <= i <= e < |s|
    requires forall k :: i <= k < e ==> IsDigit(s[k])
    requires !IsDigit(s[e])
    ensures DigitRunEnd(s, i) == e
    decreases e - i
  {
    if i < e {
      DigitRunFrom(s, i + 1, e);
    }
  }
}
