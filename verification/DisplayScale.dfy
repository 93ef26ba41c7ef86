/**
  Exact display scales (runtime/stasis_display_scale.h): the three preparation scales are kept as
  fractions reduced by a gcd loop, so that comparing numerators and denominators compares values,
  and extents are rounded up in integer arithmetic. The rules are stated over real numbers.
*/
module DisplayScale {
  import opened CInts
  import opened Division

  const RASTER_SCALE_MAX := 8
  const EXTENT_MAX := 65536

  // What an int64_t can hold.
  predicate Fits64(n: int) { -0x8000_0000_0000_0000 <= n < 0x8000_0000_0000_0000 }

  datatype Scale = Scale(numerator: int, denominator: int)

  // ---------- Lowest terms ----------

  ghost predicate Divides(d: nat, n: nat) { exists k: nat :: n == d * k }

  ghost predicate Coprime(a: nat, b: nat) {
    forall d: nat | Divides(d, a) && Divides(d, b) :: d == 1
  }

  ghost predicate LowestTerms(s: Scale) {
    s.numerator > 0 && s.denominator > 0 && Coprime(s.numerator, s.denominator)
  }

  lemma DividesSum(d: nat, a: nat, b: nat)
    requires Divides(d, b)
    ensures Divides(d, a) <==> Divides(d, a + b)
  {
    var j: nat :| b == d * j;
    if Divides(d, a) {
      var i: nat :| a == d * i;
      assert a + b == d * (i + j);
    }
    if Divides(d, a + b) {
      var k: nat :| a + b == d * k;
      assert a == d * (k - j);
      if k < j { assert d * (j - k) == d * j - d * k; }
      if k >= j { assert Divides(d, a); } else { assert a == 0 == d * 0; }
    }
  }

  lemma DividesRemainder(d: nat, a: nat, b: nat)
    requires b > 0 && Divides(d, b)
    ensures Divides(d, a) <==> Divides(d, a % b)
  {
    var j: nat :| b == d * j;
    var whole := b * (a / b);
    assert whole == d * (j * (a / b)) by { Associate(d, j, a / b); }
    assert a == a % b + whole;
    DividesSum(d, a % b, whole);
  }

  ghost predicate GreatestDivisor(g: nat, a: nat, b: nat) {
    forall d: nat :: Divides(d, g) <==> Divides(d, a) && Divides(d, b)
  }

  lemma GcdStep(g: nat, a: nat, b: nat)
    requires b > 0 && GreatestDivisor(g, b, a % b)
    ensures GreatestDivisor(g, a, b)
  {
    forall d: nat ensures Divides(d, g) <==> Divides(d, a) && Divides(d, b) {
      if Divides(d, b) { DividesRemainder(d, a, b); }
    }
  }

  lemma GcdBase(a: nat)
    ensures GreatestDivisor(a, a, 0)
  {
    forall d: nat ensures Divides(d, 0) { assert 0 == d * 0; }
  }

  function Gcd(a: nat, b: nat): nat
    decreases b
  {
    if b == 0 then a else Gcd(b, a % b)
  }

  lemma {:induction false} GcdIsGreatest(a: nat, b: nat)
    ensures GreatestDivisor(Gcd(a, b), a, b)
    decreases b
  {
    if b == 0 {
      GcdBase(a);
    } else {
      GcdIsGreatest(b, a % b);
      GcdStep(Gcd(a, b), a, b);
    }
  }

  /** stasis_display_gcd_i64. */
  method GcdLoop(left: nat, right: nat) returns (g: nat)
    ensures g == Gcd(left, right) && GreatestDivisor(g, left, right)
  {
    GcdIsGreatest(left, right);
    var a, b := left, right;
    while b != 0
      invariant Gcd(a, b) == Gcd(left, right)
      decreases b
    {
      a, b := b, a % b;
    }
    g := a;
  }

  // Dividing both by the gcd leaves a fraction in lowest terms.
  lemma Reduce(a: nat, b: nat, g: nat, p: nat, q: nat)
    requires b > 0 && GreatestDivisor(g, a, b) && g > 0 && a == g * p && b == g * q
    ensures Coprime(p, q)
  {
    forall d: nat | Divides(d, p) && Divides(d, q) ensures d == 1 {
      var i: nat :| p == d * i;
      var j: nat :| q == d * j;
      assert a == (g * d) * i by { Associate(g, d, i); }
      assert b == (g * d) * j by { Associate(g, d, j); }
      assert Divides(g * d, a) && Divides(g * d, b);
      assert Divides(g * d, g);
      var k: nat :| g == (g * d) * k;
      OnlyOne(g, d, k);
    }
  }

  lemma Associate(a: nat, b: nat, c: nat)
    ensures a * (b * c) == (a * b) * c
  {}

  lemma OnlyOne(g: nat, d: nat, k: nat)
    requires g > 0 && g == (g * d) * k
    ensures d == 1
  {
    assert g == g * (d * k) by { Associate(g, d, k); }
    assert d * k == 1 by {
      assert d * k >= 2 ==> g * (d * k) >= g * 2;
      assert d * k == 0 ==> g * (d * k) == 0;
    }
    assert d >= 2 && k >= 1 ==> d * k >= 2;
  }

  /** A value has one fraction in lowest terms. */
  lemma {:induction false} LowestTermsIsUnique(p: nat, q: nat, r: nat, s: nat)
    requires Coprime(p, q) && Coprime(r, s) && p * s == r * q
    requires p + q > 0 && r + s > 0
    ensures p == r && q == s
    decreases p + q
  {
    if p == 0 {
      ZeroCoprime(q);
      assert r * q == 0;
      assert r == 0;
      ZeroCoprime(s);
    } else if q == 0 {
      ZeroCoprime(p);
      CoprimeSwap(p, q);
      assert p * s == 0;
      assert s == 0;
      CoprimeSwap(r, s);
      ZeroCoprime(r);
    } else if p >= q {
      Proportional(p, q, r, s);
      CoprimeSubtract(p, q);
      CoprimeSubtract(r, s);
      LowestTermsIsUnique(p - q, q, r - s, s);
    } else {
      Proportional(q, p, s, r);
      CoprimeSwap(p, q);
      CoprimeSwap(r, s);
      CoprimeSubtract(q, p);
      CoprimeSubtract(s, r);
      CoprimeSwap(q - p, p);
      CoprimeSwap(s - r, r);
      LowestTermsIsUnique(p, q - p, r, s - r);
    }
  }

  lemma ZeroCoprime(q: nat)
    ensures Coprime(0, q) ==> q == 1
  {
    assert 0 == q * 0 && q == q * 1;
    assert Divides(q, 0) && Divides(q, q);
  }

  lemma CoprimeSwap(a: nat, b: nat)
    ensures Coprime(a, b) <==> Coprime(b, a)
  {}

  lemma CoprimeSubtract(a: nat, b: nat)
    requires a >= b && Coprime(a, b)
    ensures Coprime(a - b, b)
  {
    forall d: nat | Divides(d, a - b) && Divides(d, b) ensures d == 1 {
      DividesSum(d, a - b, b);
    }
  }

  lemma Proportional(p: nat, q: nat, r: nat, s: nat)
    requires p >= q > 0 && p * s == r * q
    ensures r >= s && (p - q) * s == (r - s) * q
  {
    Distribute(p, q, s);
    Distribute(r, s, q);
    Grows(p - q, s);
    assert (r - s) * q >= 0;
    NotNegative(r - s, q);
  }

  lemma Distribute(a: int, b: int, c: int)
    ensures (a - b) * c == a * c - b * c
  {}

  lemma Grows(a: nat, b: nat)
    ensures a * b >= 0
    ensures a > 0 ==> a * b >= b
  {}

  lemma NotNegative(a: int, b: nat)
    requires b > 0 && a * b >= 0
    ensures a >= 0
  {}

  // ---------- Values ----------

  function Ratio(n: int, d: int): real
    requires d > 0
  {
    n as real / d as real
  }

  function Value(s: Scale): real
    requires s.denominator > 0
  {
    Ratio(s.numerator, s.denominator)
  }

  function Min(a: real, b: real): real { if b < a then b else a }
  function Max(a: real, b: real): real { if b > a then b else a }

  lemma CompareRatios(a: int, b: int, c: int, d: int)
    requires b > 0 && d > 0
    ensures Ratio(a, b) < Ratio(c, d) <==> a * d < c * b
    ensures Ratio(a, b) == Ratio(c, d) <==> a * d == c * b
  {
    var x, y := Ratio(a, b), Ratio(c, d);
    var rb, rd := b as real, d as real;
    assert x * rb == a as real && y * rd == c as real;
    assert (a * d) as real == (x * rb) * rd;
    assert (c * b) as real == (y * rd) * rb;
    OrderScales(x, y, rb, rd);
  }

  lemma OrderScales(x: real, y: real, b: real, d: real)
    requires b > 0.0 && d > 0.0
    ensures x < y <==> (x * b) * d < (y * d) * b
    ensures x == y <==> (x * b) * d == (y * d) * b
  {
    var f := b * d;
    assert f > 0.0 && (x * b) * d == x * f && (y * d) * b == y * f;
    assert x < y ==> (y - x) * f > 0.0;
    assert x > y ==> (x - y) * f > 0.0;
  }

  /** stasis_display_preparation_scale_changed tells two scales apart exactly when their values differ. */
  predicate Changed(previous: Scale, next: Scale) {
    previous.numerator != next.numerator || previous.denominator != next.denominator
  }

  lemma ChangedIffValueDiffers(previous: Scale, next: Scale)
    requires LowestTerms(previous) && LowestTerms(next)
    ensures Changed(previous, next) <==> Value(previous) != Value(next)
  {
    hide Coprime;
    CompareRatios(previous.numerator, previous.denominator, next.numerator, next.denominator);
    if Value(previous) == Value(next) {
      LowestTermsIsUnique(previous.numerator, previous.denominator, next.numerator, next.denominator);
    }
  }

  // The same value in lowest terms.
  method Reduced(numerator: nat, denominator: nat) returns (s: Scale)
    requires numerator > 0 && denominator > 0
    ensures LowestTerms(s) && Value(s) == Ratio(numerator, denominator)
    ensures s.numerator <= numerator && s.denominator <= denominator
  {
    hide Coprime, GreatestDivisor;
    var divisor := GcdLoop(numerator, denominator);
    GcdParts(numerator, denominator, divisor);
    s := Scale(numerator / divisor, denominator / divisor);
    CompareRatios(s.numerator, s.denominator, numerator, denominator);
  }

  lemma GcdParts(a: nat, b: nat, g: nat)
    requires a > 0 && b > 0 && GreatestDivisor(g, a, b)
    ensures g > 0 && 0 < a / g <= a && 0 < b / g <= b
    ensures Coprime(a / g, b / g) && (a / g) * b == a * (b / g)
  {
    assert g == g * 1;
    assert Divides(g, g);
    var p: nat :| a == g * p;
    var q: nat :| b == g * q;
    ExactQuotient(g, p);
    ExactQuotient(g, q);
    Reduce(a, b, g, p, q);
    Associate(p, g, q);
  }

  lemma ExactQuotient(g: nat, p: nat)
    requires g * p > 0
    ensures g > 0 && g * p / g == p && 0 < p <= g * p && g * p == p * g
  {
    assert g != 0 && p != 0;
    Grows(g, p);
    Quotient(g * p, g, p, 0);
  }

  // ---------- The three scales ----------

  predicate Usable(logicalW: int, logicalH: int, targetW: int, targetH: int) {
    logicalW > 0 && logicalH > 0 && targetW > 0 && targetH > 0
  }

  // The smaller axis ratio, kept between 1 and 8.
  function BackingValue(logicalW: int, logicalH: int, drawableW: int, drawableH: int): real {
    if !Usable(logicalW, logicalH, drawableW, drawableH) then 1.0
    else Min(Max(Min(Ratio(drawableW, logicalW), Ratio(drawableH, logicalH)), 1.0), 8.0)
  }

  // The larger axis ratio, at least `least`.
  function CoveringValue(logicalW: int, logicalH: int, viewportW: int, viewportH: int, least: real): real {
    if !Usable(logicalW, logicalH, viewportW, viewportH) then least
    else Max(Max(Ratio(viewportW, logicalW), Ratio(viewportH, logicalH)), least)
  }

  lemma CompareToWhole(n: int, d: int, k: int)
    requires d > 0
    ensures Ratio(n, d) < k as real <==> n < k * d
    ensures Ratio(k * d, d) == k as real
  {
    CompareRatios(n, d, k, 1);
    CompareRatios(k * d, d, k, 1);
    assert Ratio(k, 1) == k as real;
  }

  lemma WholeIsLowest(k: nat)
    requires k > 0
    ensures LowestTerms(Scale(k, 1)) && Value(Scale(k, 1)) == k as real
  {
    forall d: nat | Divides(d, 1) ensures d == 1 {
      var j: nat :| 1 == d * j;
      OnlyOne(1, d, j);
    }
  }

  lemma ProductBound(a: nat, b: nat, m: nat, n: nat)
    requires a <= m && b <= n
    ensures 0 <= a * b <= m * n
  {
    assert m * n - a * b == m * (n - b) + (m - a) * b;
    Grows(m, n - b);
    Grows(m - a, b);
    Grows(a, b);
  }

  // The cross products of four C ints fit in 64 bits.
  lemma CrossFits(a: Int32, b: Int32)
    ensures a > 0 && b > 0 ==> Fits64(a as int * b)
  {
    if a > 0 && b > 0 { ProductBound(a, b, 0x7fff_ffff, 0x7fff_ffff); }
  }

  /** stasis_display_preparation_scale. */
  method PreparationScale(logicalW: Int32, logicalH: Int32, drawableW: Int32, drawableH: Int32) returns (s: Scale)
    ensures LowestTerms(s) && Value(s) == BackingValue(logicalW, logicalH, drawableW, drawableH)
    ensures s.numerator <= 8 * 0x8000_0000 && s.denominator <= 0x8000_0000
  {
    hide LowestTerms, Ratio;
    if logicalW <= 0 || logicalH <= 0 || drawableW <= 0 || drawableH <= 0 {
      WholeIsLowest(1);
      return Scale(1, 1);
    }
    CompareRatios(drawableH, logicalH, drawableW, logicalW);
    var numerator, denominator: int := drawableW, logicalW;
    CrossFits(drawableH, logicalW);
    CrossFits(drawableW, logicalH);
    assert Fits64(drawableH as int * logicalW) && Fits64(drawableW as int * logicalH);
    if drawableH as int * logicalW < drawableW as int * logicalH {
      numerator, denominator := drawableH, logicalH;
    }
    CompareToWhole(numerator, denominator, 1);
    if numerator < denominator { numerator := denominator; }
    CompareToWhole(numerator, denominator, 8);
    var maximum := denominator * RASTER_SCALE_MAX;
    assert Fits64(maximum);
    CompareRatios(maximum, denominator, numerator, denominator);
    if numerator > maximum { numerator := maximum; }
    s := Reduced(numerator, denominator);
  }

  // The choice the sprite and text scales share: the larger axis, unless it is below a whole number.
  method CoveringScale(logicalW: Int32, logicalH: Int32, viewportW: Int32, viewportH: Int32, least: nat)
    returns (s: Scale)
    requires 1 <= least <= 2
    ensures LowestTerms(s) && Value(s) == CoveringValue(logicalW, logicalH, viewportW, viewportH, least as real)
    ensures s.numerator <= 0x8000_0000 && s.denominator <= 0x8000_0000
  {
    hide LowestTerms, Ratio;
    WholeIsLowest(least);
    if logicalW <= 0 || logicalH <= 0 || viewportW <= 0 || viewportH <= 0 { return Scale(least, 1); }
    CompareRatios(viewportW, logicalW, viewportH, logicalH);
    var numerator, denominator: int := viewportW, logicalW;
    CrossFits(viewportH, logicalW);
    CrossFits(viewportW, logicalH);
    assert Fits64(viewportH as int * logicalW) && Fits64(viewportW as int * logicalH);
    if viewportH as int * logicalW > viewportW as int * logicalH {
      numerator, denominator := viewportH, logicalH;
    }
    CompareToWhole(numerator, denominator, least);
    if numerator < least * denominator {
      numerator, denominator := least, 1;
      assert Ratio(numerator, denominator) == Value(Scale(least, 1));
    }
    s := Reduced(numerator, denominator);
  }

  /** stasis_display_sprite_preparation_scale. */
  method SpriteScale(logicalW: Int32, logicalH: Int32, viewportW: Int32, viewportH: Int32) returns (s: Scale)
    ensures LowestTerms(s) && Value(s) == CoveringValue(logicalW, logicalH, viewportW, viewportH, 1.0)
  {
    s := CoveringScale(logicalW, logicalH, viewportW, viewportH, 1);
  }

  /** stasis_display_text_preparation_scale. */
  method TextScale(logicalW: Int32, logicalH: Int32, viewportW: Int32, viewportH: Int32) returns (s: Scale)
    ensures LowestTerms(s) && Value(s) == CoveringValue(logicalW, logicalH, viewportW, viewportH, 2.0)
    ensures s.numerator <= 0x8000_0000 && s.denominator <= 0x8000_0000
  {
    s := CoveringScale(logicalW, logicalH, viewportW, viewportH, 2);
  }

  // ---------- Extents ----------

  function Ceiling(x: real): int { -((-x).Floor) }

  function Capped(x: real): int { if Ceiling(x) > 65536 then 65536 else Ceiling(x) }

  lemma RoundUp(e: nat, s: Scale)
    requires s.numerator > 0 && s.denominator > 0
    ensures (e * s.numerator + s.denominator - 1) / s.denominator == Ceiling(e as real * Value(s))
  {
    var n, d := e * s.numerator, s.denominator;
    var c := (n + d - 1) / d;
    assert n + d - 1 == c * d + (n + d - 1) % d;
    assert c * d >= n && (c - 1) * d < n;
    CompareRatios(n, d, c, 1);
    CompareRatios(c - 1, 1, n, d);
    var x := Ratio(n, d);
    assert e as real * Value(s) == x;
    assert (c - 1) as real < x <= c as real;
  }

  /** stasis_display_scaled_extent_for_backing: the exact ceiling, capped. */
  method BackingExtent(extent: Int32, logicalW: Int32, logicalH: Int32, drawableW: Int32, drawableH: Int32)
    returns (scaled: int)
    ensures extent <= 0 ==> scaled == 0
    ensures extent > 0 ==> scaled == Capped(extent as real * BackingValue(logicalW, logicalH, drawableW, drawableH))
  {
    hide Ratio, BackingValue;
    if extent <= 0 { return 0; }
    AtLeastOne(extent, logicalW, logicalH, drawableW, drawableH);
    if extent >= EXTENT_MAX { return EXTENT_MAX; }
    var s := PreparationScale(logicalW, logicalH, drawableW, drawableH);
    scaled := ScaledExtent(extent, s);
  }

  method ScaledExtent(extent: int, s: Scale) returns (scaled: int)
    requires 0 < extent < EXTENT_MAX && LowestTerms(s) && s.numerator <= 8 * 0x8000_0000 && s.denominator <= 0x8000_0000
    ensures scaled == Capped(extent as real * Value(s))
  {
    hide Coprime;
    RoundUp(extent, s);
    assert Fits64(extent * s.numerator + s.denominator - 1) by {
      ProductBound(extent, s.numerator, EXTENT_MAX, 8 * 0x8000_0000);
    }
    var up := (extent * s.numerator + s.denominator - 1) / s.denominator;
    scaled := if up > EXTENT_MAX then EXTENT_MAX else up;
  }

  lemma AtLeastOne(extent: int, logicalW: int, logicalH: int, drawableW: int, drawableH: int)
    requires extent >= 0
    ensures BackingValue(logicalW, logicalH, drawableW, drawableH) >= 1.0
    ensures extent >= EXTENT_MAX ==>
              Capped(extent as real * BackingValue(logicalW, logicalH, drawableW, drawableH)) == EXTENT_MAX
  {
    CappedAtLeast(extent, BackingValue(logicalW, logicalH, drawableW, drawableH));
  }

  lemma NonNegative(a: real, b: real)
    requires a >= 0.0 && b >= 0.0
    ensures a * b >= 0.0
  {}

  lemma CappedAtLeast(extent: nat, value: real)
    requires value >= 1.0
    ensures extent >= EXTENT_MAX ==> Capped(extent as real * value) == EXTENT_MAX
  {
    var e := extent as real;
    assert e * value == e + e * (value - 1.0);
    NonNegative(e, value - 1.0);
  }

  /** stasis_display_font_scaled_extent_for_backing. */
  method FontExtent(extent: Int32, logicalW: Int32, logicalH: Int32, drawableW: Int32, drawableH: Int32)
    returns (scaled: int)
    ensures extent <= 0 ==> scaled == 0
    ensures extent > 0 ==>
              scaled == Capped(extent as real * CoveringValue(logicalW, logicalH, drawableW, drawableH, 2.0))
  {
    hide Ratio, CoveringValue;
    if extent <= 0 { return 0; }
    AtLeastTwo(logicalW, logicalH, drawableW, drawableH);
    CappedAtLeast(extent, CoveringValue(logicalW, logicalH, drawableW, drawableH, 2.0));
    if extent >= EXTENT_MAX { return EXTENT_MAX; }
    var s := TextScale(logicalW, logicalH, drawableW, drawableH);
    scaled := ScaledExtent(extent, s);
  }

  lemma AtLeastTwo(logicalW: int, logicalH: int, drawableW: int, drawableH: int)
    ensures CoveringValue(logicalW, logicalH, drawableW, drawableH, 2.0) >= 2.0
  {}
}
