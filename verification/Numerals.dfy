/** Numbers in decimal, as Go's formatting writes them. */
module Numerals {
  import opened Common

  function Digit(d: nat): char
    requires d < 10
  {
    ('0' as int + d) as char
  }

  /** The last `width` decimal digits of n, with leading zeros: "%020d" for width 20. */
  function Padded(n: nat, width: nat): (s: string)
    ensures |s| == width
  {
    if width == 0 then "" else Padded(n / 10, width - 1) + [Digit(n % 10)]
  }

  function Pow10(w: nat): nat { if w == 0 then 1 else 10 * Pow10(w - 1) }

  lemma {:induction false} PaddedInjective(m: nat, n: nat, w: nat)
    requires m < Pow10(w) && n < Pow10(w) && Padded(m, w) == Padded(n, w)
    ensures m == n
  {
    if w > 0 {
      var a, b := Padded(m / 10, w - 1), Padded(n / 10, w - 1);
      assert (a + [Digit(m % 10)])[..w - 1] == a && (b + [Digit(n % 10)])[..w - 1] == b;
      assert (a + [Digit(m % 10)])[w - 1] == Digit(m % 10) && (b + [Digit(n % 10)])[w - 1] == Digit(n % 10);
      PaddedInjective(m / 10, n / 10, w - 1);
    }
  }

  /** Padded decimals sort like the numbers. */
  lemma {:induction false} PaddedSorts(m: nat, n: nat, w: nat)
    requires m < n < Pow10(w)
    ensures LexLess(Padded(m, w), Padded(n, w))
  {
    var a, b := Padded(m / 10, w - 1), Padded(n / 10, w - 1);
    var x, y := [Digit(m % 10)], [Digit(n % 10)];
    if m / 10 < n / 10 {
      PaddedSorts(m / 10, n / 10, w - 1);
      LexTrichotomy(a, b);
      LexFirstPartDecides(a, b, x, y);
    } else {
      LexCommonPrefix(a, x, y);
    }
  }

  lemma Uint64FitsTwentyDigits()
    ensures UINT64_LIMIT < Pow10(20)
  {
    assert Pow10(5) == 100000;
    assert Pow10(10) == 10000000000;
    assert Pow10(15) == 1000000000000000;
    assert Pow10(20) == 100000000000000000000;
  }

  /** strconv.FormatUint(n, 10). */
  function Decimal(n: nat): (s: string)
    ensures |s| > 0
  {
    if n < 10 then [Digit(n)] else Decimal(n / 10) + [Digit(n % 10)]
  }

  lemma {:induction false} DecimalInjective(m: nat, n: nat)
    requires Decimal(m) == Decimal(n)
    ensures m == n
  {
    var a, b := Decimal(m), Decimal(n);
    assert a[|a| - 1] == Digit(m % 10) && b[|b| - 1] == Digit(n % 10);
    if m >= 10 && n >= 10 {
      assert a[..|a| - 1] == Decimal(m / 10) && b[..|b| - 1] == Decimal(n / 10);
      DecimalInjective(m / 10, n / 10);
    }
  }
}
