/**
  `formatSize`, defined identically in index.mjs and scripts/scraperProcess.js:
  a byte count below 1024 prints as the integer followed by " B"; a larger one
  is divided by 1024^k for the largest k with 1024^k <= size, printed with two
  decimals (`toFixed(2)`, ties rounded up) and the unit `["B","KB","MB","GB","TB"][k]`.
  The unit index is computed on integers here, not with `Math.log`.
 */
module SizeFormat {

  function Pow(b: nat, k: nat): (r: nat)
    ensures b >= 1 ==> r >= 1
  {
    if k == 0 then 1 else b * Pow(b, k - 1)
  }

  /** floor(log_1024(size)) for size >= 1, and 0 below 1024. */
  function UnitIndex(size: nat): nat
  {
    if size < 1024 then 0 else 1 + UnitIndex(size / 1024)
  }

  const Units: seq<string> := ["B", "KB", "MB", "GB", "TB"]

  /** `sizes[k]`; past the table JavaScript interpolates `undefined`. */
  function UnitName(k: nat): string
  {
    if k < |Units| then Units[k] else "undefined"
  }

  /** `size / 1024^k` in hundredths, rounded to nearest with ties up. */
  function Hundredths(size: nat, k: nat): nat
  {
    (200 * size + Pow(1024, k)) / (2 * Pow(1024, k))
  }

  function Digit(d: nat): char
    requires d < 10
  {
    "0123456789"[d]
  }

  function DigitValue(c: char): nat
  {
    if '0' <= c <= '9' then (c as int - '0' as int) else 0
  }

  predicate IsDigits(s: string)
  {
    forall i :: 0 <= i < |s| ==> '0' <= s[i] <= '9'
  }

  /** The decimal text of a non-negative integer, as `${n}` prints it. */
  function NatToString(n: nat): string
  {
    if n < 10 then [Digit(n)] else NatToString(n / 10) + [Digit(n % 10)]
  }

  /** The value of a string of decimal digits. */
  function ParseNat(s: string): nat
  {
    if s == [] then 0 else ParseNat(s[..|s| - 1]) * 10 + DigitValue(s[|s| - 1])
  }

  /** `(h / 100).toFixed(2)` for a value given in hundredths. */
  function Fixed2(h: nat): string
  {
    NatToString(h / 100) + "." + [Digit(h / 10 % 10), Digit(h % 10)]
  }

  function ParseFixed2(s: string): nat
    requires |s| >= 3
  {
    ParseNat(s[..|s| - 3]) * 100 + DigitValue(s[|s| - 2]) * 10 + DigitValue(s[|s| - 1])
  }

  function FormatSize(size: nat): string
  {
    if size < 1024 then NatToString(size) + " B"
    else
      var k := UnitIndex(size);
      Fixed2(Hundredths(size, k)) + " " + UnitName(k)
  }

  // ---------------------------------------------------------------------

  lemma {:induction false} NatToStringDigits(n: nat)
    ensures |NatToString(n)| >= 1 && IsDigits(NatToString(n))
    ensures NatToString(n)[0] == '0' <==> n == 0
  {
    if n >= 10 {
      NatToStringDigits(n / 10);
    }
  }

  /** Reading the text back gives the number. */
  lemma {:induction false} NatToStringRoundTrip(n: nat)
    ensures ParseNat(NatToString(n)) == n
  {
    var s := NatToString(n);
    if n < 10 {
      assert s[..|s| - 1] == [];
    } else {
      assert s[..|s| - 1] == NatToString(n / 10);
      NatToStringRoundTrip(n / 10);
    }
  }

  lemma DigitValueOfDigit(d: nat)
    requires d < 10
    ensures '0' <= Digit(d) <= '9' && DigitValue(Digit(d)) == d
  {
  }

  lemma SplitHundredths(h: nat)
    ensures (h / 100) * 100 + (h / 10 % 10) * 10 + h % 10 == h
  {
    var r := h % 100;
    assert h == (h / 100) * 100 + r;
    assert h / 10 == (h / 100) * 10 + r / 10;
    assert h / 10 % 10 == r / 10;
    assert h % 10 == r % 10;
  }

  /** Two decimals exactly, and reading them back gives the hundredths. */
  lemma Fixed2RoundTrip(h: nat)
    ensures var s := Fixed2(h);
      |s| >= 4 && s[|s| - 3] == '.' && '0' <= s[|s| - 2] <= '9' && '0' <= s[|s| - 1] <= '9'
      && ParseFixed2(s) == h
  {
    var a := NatToString(h / 100);
    var s := Fixed2(h);
    assert s == a + ['.', Digit(h / 10 % 10), Digit(h % 10)];
    NatToStringDigits(h / 100);
    assert s[..|s| - 3] == a;
    NatToStringRoundTrip(h / 100);
    DigitValueOfDigit(h / 10 % 10);
    DigitValueOfDigit(h % 10);
    SplitHundredths(h);
  }

  /** The unit index is the largest k with 1024^k <= size. */
  lemma {:induction false} UnitIndexBounds(size: nat)
    requires size >= 1
    ensures Pow(1024, UnitIndex(size)) <= size < Pow(1024, UnitIndex(size) + 1)
  {
    if size >= 1024 {
      var k := UnitIndex(size / 1024);
      UnitIndexBounds(size / 1024);
      assert Pow(1024, k + 1) == 1024 * Pow(1024, k);
      assert Pow(1024, k + 2) == 1024 * Pow(1024, k + 1);
    }
  }

  lemma {:induction false} PowMonotone(j: nat, k: nat)
    requires j <= k
    ensures Pow(1024, j) <= Pow(1024, k)
    decreases k
  {
    if j < k {
      PowMonotone(j, k - 1);
    }
  }

  /** Only one k brackets a size between consecutive powers of 1024. */
  lemma UnitIndexUnique(size: nat, k: nat)
    requires Pow(1024, k) <= size < Pow(1024, k + 1)
    ensures k == UnitIndex(size)
  {
    var u := UnitIndex(size);
    UnitIndexBounds(size);
    if k < u {
      PowMonotone(k + 1, u);
    } else if u < k {
      PowMonotone(u + 1, k);
    }
  }

  lemma DivBounds(a: nat, b: nat)
    requires b > 0
    ensures b * (a / b) <= a < b * (a / b) + b
  {
  }

  lemma MulMonotone(c: nat, x: nat, y: nat)
    requires x <= y
    ensures c * x <= c * y
  {
  }

  /** The rounded scaled value lies in 1.00 .. 1024.00 and is within half a
      hundredth of size / 1024^k. */
  lemma HundredthsRange(size: nat, k: nat)
    requires Pow(1024, k) <= size < Pow(1024, k + 1)
    ensures var P := Pow(1024, k); var h := Hundredths(size, k);
      100 <= h <= 102400 && 200 * size - P < 2 * P * h <= 200 * size + P
  {
    var P := Pow(1024, k);
    var h := Hundredths(size, k);
    var a := 200 * size + P;
    assert Pow(1024, k + 1) == 1024 * P;
    DivBounds(a, 2 * P);
    assert 2 * P * h <= a < 2 * P * h + 2 * P;
    assert 201 * P <= a < 204801 * P;
    if h < 100 {
      MulMonotone(2 * P, h, 99);
      assert false;
    }
    if h > 102400 {
      MulMonotone(2 * P, 102401, h);
      assert false;
    }
  }

  /** Below 1024 the text is the plain integer and " B", with no decimals. */
  lemma FormatSizeSmall(size: nat)
    requires size < 1024
    ensures var s := FormatSize(size);
      |s| >= 3 && s[|s| - 2..] == " B" && IsDigits(s[..|s| - 2]) && ParseNat(s[..|s| - 2]) == size
      && '.' !in s
  {
    var s := FormatSize(size);
    NatToStringDigits(size);
    NatToStringRoundTrip(size);
    assert s[..|s| - 2] == NatToString(size);
    assert forall i :: 0 <= i < |s| - 2 ==> s[i] != '.';
  }

  /** From 1024 up the text is two decimals of size / 1024^k, then the unit. */
  lemma FormatSizeLarge(size: nat)
    requires size >= 1024
    ensures var k := UnitIndex(size); var h := Hundredths(size, k);
      1 <= k && Pow(1024, k) <= size < Pow(1024, k + 1) && 100 <= h <= 102400
      && FormatSize(size) == Fixed2(h) + " " + UnitName(k)
      && ParseFixed2(Fixed2(h)) == h
      && (k < 5 ==> UnitName(k) == ["B", "KB", "MB", "GB", "TB"][k])
  {
    var k := UnitIndex(size);
    UnitIndexBounds(size);
    HundredthsRange(size, k);
    Fixed2RoundTrip(Hundredths(size, k));
  }

  lemma FormatSizeSmallExamples()
    ensures FormatSize(0) == "0 B"
    ensures FormatSize(1023) == "1023 B"
  {
    assert Digit(0) == '0' && Digit(1) == '1' && Digit(2) == '2' && Digit(3) == '3';
    assert NatToString(0) == ['0'];
    assert NatToString(1) == ['1'];
    assert NatToString(10) == ['1', '0'];
    assert NatToString(102) == ['1', '0', '2'];
    assert NatToString(1023) == ['1', '0', '2', '3'];
  }

  lemma FormatSizeKilobytesExample()
    ensures FormatSize(1536) == "1.50 KB"
  {
    assert UnitIndex(1536) == 1 by { assert UnitIndex(1) == 0; }
    assert Hundredths(1536, 1) == 150;
    assert Digit(0) == '0' && Digit(1) == '1' && Digit(5) == '5';
    assert NatToString(1) == ['1'];
    assert Fixed2(150) == ['1', '.', '5', '0'];
    assert UnitName(1) == "KB";
  }

  lemma FormatSizeGigabytesExample()
    ensures FormatSize(1073741824) == "1.00 GB"
  {
    assert UnitIndex(1073741824) == 3 by {
      assert UnitIndex(1048576) == 2 by { assert UnitIndex(1024) == 1; }
    }
    assert Pow(1024, 3) == 1073741824;
    assert Hundredths(1073741824, 3) == 100;
    assert Digit(0) == '0' && Digit(1) == '1';
    assert NatToString(1) == ['1'];
    assert Fixed2(100) == ['1', '.', '0', '0'];
    assert UnitName(3) == "GB";
  }

  /** Rounding can print the upper bound: 1048575 bytes is "1024.00 KB". */
  lemma FormatSizeRoundsUp()
    ensures FormatSize(1048575) == "1024.00 KB"
  {
    assert UnitIndex(1048575) == 1 by { assert UnitIndex(1023) == 0; }
    assert Hundredths(1048575, 1) == 102400;
    assert Digit(0) == '0' && Digit(1) == '1' && Digit(2) == '2' && Digit(4) == '4';
    assert NatToString(1) == ['1'];
    assert NatToString(10) == ['1', '0'];
    assert NatToString(102) == ['1', '0', '2'];
    assert NatToString(1024) == ['1', '0', '2', '4'];
    assert Fixed2(102400) == ['1', '0', '2', '4', '.', '0', '0'];
    assert UnitName(1) == "KB";
  }
}
