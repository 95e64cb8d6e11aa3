/** `ParseBitmapHeader` reads nothing past the header it finds: the scan of
    `BITMAP %d,%d,%d,%d,%d,` ends exactly at the fifth comma, so two bodies
    that share the header text parse alike whatever follows. */
module HeaderFrame {
  import opened Fmt
  import opened Tspl

  /** s and t hold the same first m bytes. */
  predicate Agree(s: seq<bv8>, t: seq<bv8>, m: int)
  {
    0 <= m <= |s| && m <= |t| && forall k :: 0 <= k < m ==> s[k] == t[k]
  }

  lemma {:induction false} SkipBlanksFrame(s: seq<bv8>, t: seq<bv8>, i: int, m: int)
    requires Agree(s, t, m) && 0 <= i <= |s| && i <= |t| && SkipBlanks(s, i) < m
    ensures SkipBlanks(t, i) == SkipBlanks(s, i)
    decreases |s| - i
  {
    if s[i] == Blank {
      SkipBlanksFrame(s, t, i + 1, m);
    }
  }

  lemma {:induction false} DigitRunFrame(s: seq<bv8>, t: seq<bv8>, i: int, m: int)
    requires Agree(s, t, m) && 0 <= i <= |s| && i <= |t| && DigitRunEnd(s, i) < m
    ensures DigitRunEnd(t, i) == DigitRunEnd(s, i)
    decreases |s| - i
  {
    if IsDigit(s[i]) {
      DigitRunFrame(s, t, i + 1, m);
    }
  }

  /** `%d` reads the same number from t as from s when they agree up to
      and including the byte that ends the digits. */
  lemma ScanIntFrame(s: seq<bv8>, t: seq<bv8>, i: int, m: int)
    requires Agree(s, t, m) && 0 <= i <= |s| && i <= |t|
    requires ScanInt(s, i).Some? && ScanInt(s, i).value.1 < m
    ensures ScanInt(t, i) == ScanInt(s, i)
  {
    hide SkipBlanks, DigitRunEnd, DigitsValue;
    var j := SkipBlanks(s, i);
    var k := if j < |s| && (s[j] == Minus || s[j] == Plus) then j + 1 else j;
    var e := DigitRunEnd(s, k);
    SkipBlanksFrame(s, t, i, m);
    DigitRunFrame(s, t, k, m);
    assert s[k..e] == t[k..e];
  }

  lemma ScanIntCommaFrame(s: seq<bv8>, t: seq<bv8>, i: int, m: int)
    requires Agree(s, t, m) && 0 <= i <= |s| && i <= |t|
    requires ScanIntComma(s, i).Some? && ScanIntComma(s, i).value.1 <= m
    ensures ScanIntComma(t, i) == ScanIntComma(s, i)
  {
    ScanIntFrame(s, t, i, m);
  }

  /** n fields scan alike from s and t when they agree up to the index the
      scan of s stops at. */
  lemma {:induction false} ScanFieldsFrame(s: seq<bv8>, t: seq<bv8>, i: int, n: nat, m: int)
    requires Agree(s, t, m) && 0 <= i <= |s| && i <= |t|
    requires ScanFields(s, i, n).Some? && ScanFields(s, i, n).value.1 <= m
    ensures ScanFields(t, i, n) == ScanFields(s, i, n)
    decreases n
  {
    hide ScanInt, ScanIntComma, SkipBlanks, DigitRunEnd;
    if n > 0 {
      var j := ScanIntComma(s, i).value.1;
      ScanIntCommaFrame(s, t, i, m);
      ScanFieldsFrame(s, t, j, n - 1, m);
    }
  }

  /** `%d` consumes no comma. */
  lemma ScanIntNoComma(s: seq<bv8>, i: int)
    requires 0 <= i <= |s| && ScanInt(s, i).Some?
    ensures CommaCount(s[i..ScanInt(s, i).value.1]) == 0
  {
    var j := SkipBlanks(s, i);
    var k := if j < |s| && (s[j] == Minus || s[j] == Plus) then j + 1 else j;
    var e := DigitRunEnd(s, k);
    var run := s[i..e];
    forall q | 0 <= q < |run|
      ensures run[q] != Comma
    {
      if i + q >= k {
        assert run[q] == s[k..e][i + q - k];
      }
    }
    NoCommas(run);
  }

  /** `%d,` consumes exactly one comma, its last byte. */
  lemma ScanIntCommaCount(s: seq<bv8>, i: int)
    requires 0 <= i <= |s| && ScanIntComma(s, i).Some?
    ensures CommaCount(s[i..ScanIntComma(s, i).value.1]) == 1
  {
    var e := ScanInt(s, i).value.1;
    ScanIntNoComma(s, i);
    assert s[i..e + 1] == s[i..e] + [Comma];
    CommaCountAppend(s[i..e], [Comma]);
    assert CommaCount([Comma]) == 1;
  }

  /** n fields consume n commas and end with one. */
  lemma {:induction false} ScanFieldsCount(s: seq<bv8>, i: int, n: nat)
    requires 0 <= i <= |s| && ScanFields(s, i, n).Some?
    ensures var e := ScanFields(s, i, n).value.1;
      && CommaCount(s[i..e]) == n
      && (n > 0 ==> i < e && s[e - 1] == Comma)
    decreases n
  {
    hide ScanInt, ScanIntComma, SkipBlanks, DigitRunEnd, CommaCount;
    var e := ScanFields(s, i, n).value.1;
    if n == 0 {
      assert s[i..e] == [];
      CommaCountEmpty();
    } else {
      var j := ScanIntComma(s, i).value.1;
      ScanIntCommaCount(s, i);
      ScanFieldsCount(s, j, n - 1);
      assert s[i..e] == s[i..j] + s[j..e];
      CommaCountAppend(s[i..j], s[j..e]);
    }
  }

  lemma CommaCountEmpty()
    ensures CommaCount([]) == 0
  {
  }

  lemma OneComma()
    ensures CommaCount([Comma]) == 1
  {
    assert [Comma][..0] == [];
  }

  /** The `BITMAP` scan stops just past the fifth comma of the body. */
  lemma ScanBitmapEnd(s: seq<bv8>, k: int, e: int)
    requires HasPrefix(s, BitmapWord) && k == SkipBlanks(s, 6)
    requires ScanFields(s, k, 5).Some? && e == ScanFields(s, k, 5).value.1
    ensures 7 <= e <= |s| && s[e - 1] == Comma && CommaCount(s[..e - 1]) == 4
  {
    hide ScanFields, ScanIntComma, ScanInt, CommaCount, Ascii, SkipBlanks;
    ScanFieldsCount(s, k, 5);
    WordAndBlanks(s);
    CountSplit(s, k, e);
    DropLastComma(s, e);
  }

  /** The word `BITMAP` and the blanks after it hold no comma. */
  lemma WordAndBlanks(s: seq<bv8>)
    requires HasPrefix(s, BitmapWord)
    ensures CommaCount(s[..SkipBlanks(s, 6)]) == 0
  {
    var k := SkipBlanks(s, 6);
    forall q | 0 <= q < k
      ensures s[..k][q] != Comma
    {
      if q < 6 {
        assert s[q] == BitmapWord[q];
      }
    }
    NoCommas(s[..k]);
  }

  lemma CountSplit(s: seq<bv8>, k: int, e: int)
    requires 0 <= k <= e <= |s|
    ensures CommaCount(s[..e]) == CommaCount(s[..k]) + CommaCount(s[k..e])
  {
    assert s[..e] == s[..k] + s[k..e];
    CommaCountAppend(s[..k], s[k..e]);
  }

  lemma DropLastComma(s: seq<bv8>, e: int)
    requires 0 < e <= |s| && s[e - 1] == Comma
    ensures CommaCount(s[..e - 1]) == CommaCount(s[..e]) - 1
  {
    assert s[..e][..e - 1] == s[..e - 1];
  }

  /** A body that agrees with a parsed body on its header parses to the
      same header, whatever follows the header. */
  lemma ParseReadsHeaderOnly(s: seq<bv8>, t: seq<bv8>)
    requires ParseBitmapHeader(s).Ok?
    requires Agree(s, t, ParseBitmapHeader(s).value.headerEnd)
    ensures ParseBitmapHeader(t) == ParseBitmapHeader(s)
  {
    hide ParseBitmapHeader, ScanFields, ScanIntComma, ScanInt, SkipBlanks, CommaCount, FifthComma, FifthCommaFrom;
    var hd := ParseBitmapHeader(s).value;
    var he := hd.headerEnd;
    var k := SkipBlanks(s, 6);
    var e := ScanFields(s, k, 5).value.1;
    ScanBitmapEnd(s, k, e);
    FifthCommaUnique(s, e - 1, he - 1);
    assert t[..6] == s[..6];
    SkipBlanksFrame(s, t, 6, he);
    ScanFieldsFrame(s, t, k, 5, he);
    assert ScanBitmap(t) == ScanBitmap(s);
    assert t[..he - 1] == s[..he - 1];
    assert t[..he] == t[..he - 1] + [Comma];
    CommaCountAppend(t[..he - 1], [Comma]);
    OneComma();
    CommaCountMonotone(t, he, |t|);
    assert t[..|t|] == t;
    var u := ParseBitmapHeader(t).value;
    FifthCommaUnique(t, u.headerEnd - 1, he - 1);
  }
}
