/** Fixed-point numbers scaled by 10^6, in 128-bit words that saturate. */
module Fixed {
  import opened Bits
  import opened Wrappers

  const I128_MAX: int := 0x7fff_ffff_ffff_ffff_ffff_ffff_ffff_ffff
  const I128_MIN: int := -0x8000_0000_0000_0000_0000_0000_0000_0000

  type Fixed6 = x: int | -0x8000_0000_0000_0000_0000_0000_0000_0000 <= x <= 0x7fff_ffff_ffff_ffff_ffff_ffff_ffff_ffff

  const SCALE: int := 1_000_000
  const ONE: Fixed6 := 1_000_000

  /** The nearest representable number. */
  function Saturate(x: int): (r: Fixed6)
    ensures I128_MIN <= x <= I128_MAX ==> r == x
    ensures x >= 0 ==> 0 <= r <= x
  {
    if x < I128_MIN then I128_MIN else if x > I128_MAX then I128_MAX else x
  }

  /** Division towards zero. */
  function TruncDiv(a: int, b: int): int
    requires b != 0
  {
    if a >= 0 then a / b else -((-a) / b)
  }

  lemma {:induction false} TruncDivFits(a: Fixed6, b: int)
    requires b > 0
    ensures I128_MIN <= TruncDiv(a, b) <= I128_MAX
  {
    if a >= 0 {
      DivShrinks(a, b);
    } else {
      var n: int := a;
      DivShrinks(-n, b);
    }
  }

  lemma {:induction false} DivShrinks(a: nat, b: nat)
    requires b > 0
    ensures 0 <= a / b <= a
    ensures b * (a / b) <= a
  {
    assert a == b * (a / b) + a % b;
    MulAtLeast(b, a / b);
  }

  /** `x * numerator / denominator`, the product saturating; anything over zero is
      zero.  A quotient that does not fit is `QuotientOverflows`. */
  function MulDiv(x: Fixed6, numerator: Fixed6, denominator: Fixed6): Fixed6 {
    if denominator == 0 then 0 else Saturate(TruncDiv(Saturate(x * numerator), denominator))
  }

  predicate QuotientOverflows(x: Fixed6, numerator: Fixed6, denominator: Fixed6) {
    denominator == -1 && x * numerator <= I128_MIN
  }

  /** One quotient only does not fit: the least word over minus one. */
  lemma {:induction false} OverflowsExactly(x: Fixed6, numerator: Fixed6, denominator: Fixed6)
    requires denominator != 0
    ensures QuotientOverflows(x, numerator, denominator) <==>
            !(I128_MIN <= TruncDiv(Saturate(x * numerator), denominator) <= I128_MAX)
  {
    var product := Saturate(x * numerator);
    if denominator > 0 {
      TruncDivFits(product, denominator);
    } else {
      NegativeDivisor(product, denominator);
    }
  }

  lemma {:induction false} NegativeDivisor(a: Fixed6, b: int)
    requires b < 0
    ensures I128_MIN <= TruncDiv(a, b) <= I128_MAX + 1
    ensures TruncDiv(a, b) == I128_MAX + 1 <==> b == -1 && a == I128_MIN
  {
    var n: int := if a >= 0 then a as int else -(a as int);
    DivByNegative(n, -b);
    QuotientBelow(n, -b);
  }

  lemma {:induction false} DivByNegative(n: nat, d: int)
    requires d > 0
    ensures n / (-d) == -(n / d)
  {
    var q, r := -(n / (-d)), n % (-d);
    assert n == (-d) * (n / (-d)) + r;
    assert (-d) * (-q) == d * q;
    MulAtLeast(d, q);
    QuotientIs(n, d, q, r);
  }

  lemma {:induction false} QuotientBelow(n: nat, d: int)
    requires d > 0
    ensures 0 <= n / d <= n && (d == 1 ==> n / d == n) && (d > 1 ==> 2 * (n / d) <= n)
  {
    DivShrinks(n, d);
    if d > 1 {
      HalfAtMost(n, d, n / d);
    }
  }

  lemma {:induction false} HalfAtMost(n: nat, d: int, q: int)
    requires d >= 2 && q >= 0 && d * q <= n
    ensures 2 * q <= n
  {
    MulMono(q, 2, d);
  }

  function Times(x: Fixed6, other: Fixed6): Fixed6 {
    TruncDivFits(Saturate(x * other), SCALE);
    TruncDiv(Saturate(x * other), SCALE)
  }

  function Add(x: Fixed6, y: Fixed6): Fixed6 {
    Saturate(x + y)
  }

  function Sub(x: Fixed6, y: Fixed6): Fixed6 {
    Saturate(x - y)
  }

  // ------------------------------------------------------- rounding, and bounds

  /** A product never rounds up, and loses less than one unit. */
  lemma {:induction false} TimesRoundsDown(x: Fixed6, y: Fixed6)
    requires 0 <= x && 0 <= y && x * y <= I128_MAX
    ensures 0 <= Times(x, y)
    ensures SCALE * Times(x, y) <= x * y < SCALE * Times(x, y) + SCALE
  {
    MulNonNegative(x, y);
  }

  /** A sum or difference is exact where it fits, and the nearest word where not. */
  lemma {:induction false} AddNearest(x: Fixed6, y: Fixed6)
    ensures Add(x, y) == if x + y > I128_MAX then I128_MAX else if x + y < I128_MIN then I128_MIN else x + y
    ensures Sub(x, y) == if x - y > I128_MAX then I128_MAX else if x - y < I128_MIN then I128_MIN else x - y
  {
  }

  /** Signs pass through a product, and so rounding is always towards zero. */
  lemma {:induction false} TimesSigned(x: Fixed6, y: Fixed6, minus: Fixed6)
    requires minus as int == -(x as int) && -I128_MAX <= x * y <= I128_MAX
    ensures Times(minus, y) as int == -(Times(x, y) as int) && Times(y, x) == Times(x, y)
  {
    assert minus * y == -(x * y);
    assert y * x == x * y;
  }

  /** A product that does not fit is rescaled from the nearest word. */
  lemma {:induction false} TimesSaturates(x: Fixed6, y: Fixed6)
    ensures x * y > I128_MAX ==> Times(x, y) == I128_MAX / SCALE
    ensures x * y < I128_MIN ==> Times(x, y) == -((I128_MAX + 1) / SCALE)
  {
  }

  /** And through a quotient; of zero there is none but zero. */
  lemma {:induction false} MulDivSigned(x: Fixed6, y: Fixed6, z: Fixed6, minus: Fixed6)
    requires minus as int == -(x as int) && -I128_MAX <= x * y <= I128_MAX
    ensures MulDiv(minus, y, z) as int == -(MulDiv(x, y, z) as int) && MulDiv(x, y, 0) == 0
  {
    assert minus * y == -(x * y);
    if z != 0 {
      SignedQuotient(x * y, z);
    }
  }

  lemma {:induction false} SignedQuotient(a: int, z: int)
    requires z != 0 && -I128_MAX <= a <= I128_MAX
    ensures TruncDiv(-a, z) == -TruncDiv(a, z) && -I128_MAX <= TruncDiv(a, z) <= I128_MAX
  {
    var n: int := if a >= 0 then a else -a;
    var d: int := if z >= 0 then z else -z;
    DivShrinks(n, d);
    if z < 0 {
      DivByNegative(n, d);
    }
  }

  lemma {:induction false} MulNonNegative(x: int, y: int)
    requires x >= 0 && y >= 0
    ensures x * y >= 0
  {
  }

  lemma {:induction false} MulMono(x: int, a: int, b: int)
    requires x >= 0 && a <= b
    ensures x * a <= x * b
  {
  }

  lemma {:induction false} ShareNonNegative(x: Fixed6, total: Fixed6)
    requires 0 <= x && 0 <= total
    ensures 0 <= MulDiv(x, ONE, total)
  {
    if total > 0 {
      DivShrinks(Saturate(x * ONE), total);
    }
  }

  /** A share never rounds up, even when the scaled part saturates. */
  lemma {:induction false} ShareRoundsDown(x: Fixed6, total: Fixed6)
    requires 0 <= x <= total
    ensures 0 <= MulDiv(x, ONE, total)
    ensures total * MulDiv(x, ONE, total) <= x * ONE
  {
    if total > 0 {
      var product := Saturate(x * ONE);
      TruncDivFits(product, total);
      DivShrinks(product, total);
    }
  }

  // --------------------------------------------------------------------- decay

  /** `n` halvings, each towards zero. */
  function Halved(x: nat, n: nat): (r: nat)
    ensures r <= x
    decreases n
  {
    if n == 0 then x else Halved(x / 2, n - 1)
  }

  lemma {:induction false} HalvedMore(x: nat, n: nat)
    ensures Halved(x, n + 1) == Halved(x, n) / 2
    decreases n
  {
    if n > 0 {
      HalvedMore(x / 2, n - 1);
    }
  }

  /** What `numerator / denominator` half-lives leave of `x`: whole halvings,
      then a straight line towards the next. */
  function Decay(x: nat, numerator: nat, denominator: nat): (r: nat)
    ensures r <= x
  {
    if denominator == 0 || x == 0 then x
    else
      var whole, remainder := numerator / denominator, numerator % denominator;
      if whole >= 127 then 0
      else
        var value := Halved(x, whole);
        LinePasses(value, remainder, denominator);
        if remainder == 0 then value else value - (value * remainder) / (denominator * 2)
  }

  /** Within one half-life the line stays between the value and its half. */
  lemma {:induction false} LinePasses(value: nat, remainder: nat, denominator: nat)
    requires remainder < denominator
    ensures 0 <= (value * remainder) / (denominator * 2) <= value - value / 2
    ensures (value * remainder) / (denominator * 2) <= value
  {
    var d := denominator * 2;
    MulNonNegative(value, remainder);
    MulMono(value, 2 * remainder, d);
    assert value * (2 * remainder) == 2 * (value * remainder);
    assert value * d == d * value;
    DivAtMost(value * remainder, d, value - value / 2);
  }

  /** `2 a <= d v` bounds `a / d` by half of `v`, rounded up. */
  lemma {:induction false} DivAtMost(a: nat, d: nat, h: nat)
    requires d > 0 && a <= d * h
    ensures 0 <= a / d <= h
  {
    DivShrinks(a, d);
    QuotientAtMost(d, a / d, h);
  }

  lemma {:induction false} QuotientAtMost(d: nat, x: int, h: int)
    requires d > 0 && d * x <= d * h
    ensures x <= h
  {
    assert d * (h - x) == d * h - d * x;
    MulAtLeast(d, h - x);
  }

  /** Age never adds weight. */
  lemma {:induction false} OlderIsLess(x: nat, n: nat, d: nat)
    ensures Decay(x, n + 1, d) <= Decay(x, n, d)
  {
    if d > 0 && x > 0 {
      DecayStep(x, n, d, n / d, n % d);
    }
  }

  lemma {:induction false} DecayStep(x: nat, n: nat, d: nat, w: nat, r: nat)
    requires d > 0 && x > 0 && w == n / d && r == n % d
    ensures Decay(x, n + 1, d) <= Decay(x, n, d)
  {
    NextQuotient(n, d);
    if w < 127 {
      LinePasses(Halved(x, w), r, d);
      if r + 1 < d {
        LineFalls(Halved(x, w), r, d);
      } else {
        HalvedMore(x, w);
      }
    }
  }

  lemma {:induction false} LineFalls(value: nat, r: nat, d: nat)
    requires r + 1 < d
    ensures (value * r) / (d * 2) <= (value * (r + 1)) / (d * 2)
  {
    MulMono(value, r, r + 1);
    MulNonNegative(value, r);
    DivShrinks(value * r, d * 2);
    var a, b := value * r, value * (r + 1);
    assert b == (d * 2) * (b / (d * 2)) + b % (d * 2);
    var x, y := a / (d * 2), b / (d * 2);
    assert (d * 2) * x <= a <= b < (d * 2) * y + d * 2;
    assert (d * 2) * (y - x) == (d * 2) * y - (d * 2) * x;
    MulAtLeast(d * 2, y - x);
  }

  /** Halvings towards zero, on either side of it. */
  function HalvedSigned(x: int, n: nat): int {
    if x >= 0 then Halved(x, n) as int else -(Halved(-x, n) as int)
  }

  function DecaySigned(x: int, numerator: nat, denominator: nat): (r: int)
    ensures x >= 0 ==> 0 <= r <= x
    ensures x < 0 ==> x <= r <= 0
  {
    if x >= 0 then Decay(x, numerator, denominator) as int else -(Decay(-x, numerator, denominator) as int)
  }

  /** The product on the way fits a word. */
  predicate DecayFits(x: Fixed6, numerator: nat, denominator: nat) {
    || denominator == 0
    || numerator / denominator >= 127
    || I128_MIN <= HalvedSigned(x, numerator / denominator) * (numerator % denominator) <= I128_MAX
  }

  /** As it does for anything below 2^63. */
  lemma {:induction false} SmallDecays(x: Fixed6, numerator: U64, denominator: U64)
    requires -0x8000_0000_0000_0000 < x < 0x8000_0000_0000_0000
    ensures DecayFits(x, numerator, denominator)
  {
    if denominator > 0 && numerator / denominator < 127 {
      var magnitude: int := if x >= 0 then x else -x;
      var h: int, r: int := Halved(magnitude, numerator / denominator), numerator % denominator;
      ProductFits(h, r);
      assert (-h) * r == -(h * r);
    }
  }

  /** Nothing when a product overflows. */
  method HalveFractional(x: Fixed6, numerator: U64, denominator: U64) returns (r: Option<Fixed6>)
    ensures r.Some? <==> DecayFits(x, numerator, denominator)
    ensures r.Some? ==> r.value == DecaySigned(x, numerator, denominator)
  {
    if denominator == 0 || x == 0 {
      return Some(x);
    }
    var whole := numerator / denominator;
    var value := x;
    var times := if whole < 127 then whole else 127;
    for i := 0 to times
      invariant value == HalvedSigned(x, i)
    {
      HalvedMore(if x >= 0 then x as int else -(x as int), i);
      value := TruncDiv(value, 2);
    }
    if whole >= 127 {
      return Some(0);
    }
    var remainder := numerator % denominator;
    if remainder == 0 {
      return Some(value);
    }
    var frac: Fixed6, den: Fixed6 := remainder, denominator;
    if !(I128_MIN <= value * frac <= I128_MAX) {
      return None;
    }
    var product: Fixed6, width: Fixed6 := value * frac, den * 2;
    LineEitherSide(x, numerator, denominator, whole, remainder, value);
    r := Some(value - TruncDiv(product, width));
  }

  /** The line towards the next halving, on either side of zero. */
  lemma {:induction false} LineEitherSide(
      x: Fixed6, numerator: nat, denominator: nat, whole: nat, remainder: nat, value: int)
    requires denominator > 0 && x != 0 && whole == numerator / denominator < 127 && value == HalvedSigned(x, whole)
    requires 0 < remainder == numerator % denominator
    ensures DecaySigned(x, numerator, denominator) == value - TruncDiv(value * remainder, denominator * 2)
    ensures I128_MIN <= TruncDiv(value * remainder, denominator * 2) <= I128_MAX
  {
    var magnitude: int := if x >= 0 then x as int else -(x as int);
    var v: int := Halved(magnitude, whole);
    LinePasses(v, remainder, denominator);
    MulNonNegative(v, remainder);
    assert (-v) * remainder == -(v * remainder);
  }

  lemma {:induction false} ProductFits(x: nat, y: nat)
    requires x < 0x8000_0000_0000_0000 && y < 0x1_0000_0000_0000_0000
    ensures 0 <= x * y <= I128_MAX
  {
    MulMono(x, y, 0x1_0000_0000_0000_0000);
    MulNonNegative(x, y);
  }
}
