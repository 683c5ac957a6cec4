/**
 * Java's `BigDecimal` as an unscaled integer and a scale: the value of
 * `Decimal(u, s)` is u * 10^-s. Only the operations the RMC sentence uses are
 * modelled, each with the scale rule Java documents for it.
 */
module Decimals {

  datatype Decimal = Decimal(unscaled: int, scale: int)

  function Pow10(n: nat): (r: nat)
    ensures r >= 1
  {
    if n == 0 then 1 else 10 * Pow10(n - 1)
  }

  /** Integer division rounding toward zero (Java's `/` and `RoundingMode.DOWN`). */
  function TruncDiv(a: int, b: nat): int
    requires b > 0
  {
    if a >= 0 then a / b else -((-a) / b)
  }

  /** The remainder that goes with `TruncDiv`: it takes the sign of `a`. */
  function TruncRem(a: int, b: nat): int
    requires b > 0
  {
    a - b * TruncDiv(a, b)
  }

  /** `movePointLeft(n)`: value times 10^-n, scale max(scale + n, 0). */
  function MovePointLeft(d: Decimal, n: nat): Decimal
  {
    if d.scale + n >= 0 then Decimal(d.unscaled, d.scale + n)
    else Decimal(d.unscaled * Pow10(-(d.scale + n)), 0)
  }

  /** `movePointRight(n)`: value times 10^n, scale max(scale - n, 0). */
  function MovePointRight(d: Decimal, n: nat): Decimal
  {
    if d.scale - n >= 0 then Decimal(d.unscaled, d.scale - n)
    else Decimal(d.unscaled * Pow10(n - d.scale), 0)
  }

  /** `setScale(newScale, RoundingMode.DOWN)`: digits beyond `newScale` are cut off toward zero. */
  function SetScaleDown(d: Decimal, newScale: int): Decimal
  {
    if newScale >= d.scale then Decimal(d.unscaled * Pow10(newScale - d.scale), newScale)
    else Decimal(TruncDiv(d.unscaled, Pow10(d.scale - newScale)), newScale)
  }

  /** `remainder(BigDecimal.ONE)`: the fractional part, signed like `d`, at the scale of `d`. */
  function RemainderOfOne(d: Decimal): Decimal
  {
    if d.scale >= 0 then Decimal(TruncRem(d.unscaled, Pow10(d.scale)), d.scale)
    else Decimal(0, d.scale)
  }

  /** `add`: exact, at the larger of the two scales. */
  function Add(a: Decimal, b: Decimal): Decimal
  {
    var s := if a.scale >= b.scale then a.scale else b.scale;
    Decimal(a.unscaled * Pow10(s - a.scale) + b.unscaled * Pow10(s - b.scale), s)
  }

  /** `multiply`: exact, at the sum of the two scales. */
  function Multiply(a: Decimal, b: Decimal): Decimal
  {
    Decimal(a.unscaled * b.unscaled, a.scale + b.scale)
  }

  /** `negate`. */
  function Negate(d: Decimal): Decimal
  {
    Decimal(-d.unscaled, d.scale)
  }

  /** `compareTo(BigDecimal.ZERO) < 0`. */
  predicate IsNegative(d: Decimal)
  {
    d.unscaled < 0
  }

  /** The number a decimal denotes. */
  ghost function Value(d: Decimal): real
  {
    if d.scale >= 0 then d.unscaled as real / Pow10(d.scale) as real
    else (d.unscaled * Pow10(-d.scale)) as real
  }

  /** Truncation of a real toward zero. */
  ghost function TruncReal(r: real): int
  {
    if r >= 0.0 then r.Floor else -((-r).Floor)
  }

  /** `v` cut off toward zero after `s` fractional digits. */
  ghost function TruncToScale(v: real, s: nat): real
  {
    TruncReal(v * Pow10(s) as real) as real / Pow10(s) as real
  }

  lemma {:induction false} Pow10Add(a: nat, b: nat)
    ensures Pow10(a + b) == Pow10(a) * Pow10(b)
  {
    if a > 0 {
      Pow10Add(a - 1, b);
      assert Pow10(a + b) == 10 * Pow10(a - 1 + b);
    }
  }

  // ---------------------------------------------------------------------------
  // Real arithmetic over plain values. The powers of ten are passed in as
  // naturals: each lemma below is used with Pow10 terms, but proved without
  // them, which keeps the nonlinear reasoning small.
  // ---------------------------------------------------------------------------

  lemma {:induction false} CastProduct(a: int, b: int)
    ensures (a * b) as real == a as real * b as real
  {
  }

  lemma {:induction false} DivByProduct(x: real, a: real, b: real)
    requires a > 0.0 && b > 0.0
    ensures x / (a * b) == (x / a) / b
  {
  }

  lemma {:induction false} MulThenDiv(x: real, a: real)
    requires a > 0.0
    ensures (x * a) / a == x
  {
  }

  lemma {:induction false} DivThenMul(x: real, a: real)
    requires a > 0.0
    ensures (x / a) * a == x
  {
  }

  lemma {:induction false} DivSum(x: real, y: real, c: real)
    requires c > 0.0
    ensures (x + y) / c == x / c + y / c
  {
  }

  lemma {:induction false} DivDifference(x: real, y: real, c: real)
    requires c > 0.0
    ensures (x - y) / c == x / c - y / c
  {
  }

  lemma {:induction false} CancelFactor(x: real, a: real, b: real)
    requires a > 0.0
    ensures (x / a) * (b * a) == x * b
  {
    DivThenMul(x, a);
  }

  lemma {:induction false} CancelDivisor(x: real, a: real, b: real)
    requires a > 0.0 && b > 0.0
    ensures (x / (a * b)) * b == x / a
  {
    DivByProduct(x, a, b);
    DivThenMul(x / a, b);
  }

  lemma {:induction false} DivProducts(x: real, y: real, a: real, b: real)
    requires a > 0.0 && b > 0.0
    ensures (x * y) / (a * b) == (x / a) * (y / b)
  {
    DivThenMul(x, a);
    DivThenMul(y, b);
    assert (x / a) * (y / b) * (a * b) == x * y;
  }

  /** Dividing by a product divides by each factor in turn. */
  lemma {:induction false} QuotientByProduct(x: real, a: nat, b: nat, c: nat)
    requires a > 0 && b > 0 && c == a * b
    ensures x / c as real == (x / a as real) / b as real
  {
    CastProduct(a, b);
    DivByProduct(x, a as real, b as real);
  }

  /** Multiplying back by one factor of the divisor leaves the quotient by the other. */
  lemma {:induction false} QuotientUnshift(x: real, a: nat, b: nat, c: nat)
    requires a > 0 && b > 0 && c == a * b
    ensures x / a as real == (x / c as real) * b as real
  {
    CastProduct(a, b);
    CancelDivisor(x, a as real, b as real);
  }

  lemma {:induction false} QuotientScaleUp(u: int, a: nat, b: nat, c: nat)
    requires a > 0 && c == b * a
    ensures (u as real / a as real) * c as real == (u * b) as real
  {
    CastProduct(b, a);
    CastProduct(u, b);
    CancelFactor(u as real, a as real, b as real);
  }

  /** A common factor of numerator and divisor cancels. */
  lemma {:induction false} QuotientPad(u: int, a: nat, b: nat, c: nat)
    requires a > 0 && b > 0 && c == a * b
    ensures (u * a) as real / c as real == u as real / b as real
  {
    CastProduct(u, a);
    CastProduct(a, b);
    DivByProduct(u as real * a as real, a as real, b as real);
    MulThenDiv(u as real, a as real);
  }

  lemma {:induction false} QuotientOfProducts(x: int, y: int, a: nat, b: nat, c: nat)
    requires a > 0 && b > 0 && c == a * b
    ensures (x * y) as real / c as real == (x as real / a as real) * (y as real / b as real)
  {
    CastProduct(x, y);
    CastProduct(a, b);
    DivProducts(x as real, y as real, a as real, b as real);
  }

  // ---------------------------------------------------------------------------
  // Truncation
  // ---------------------------------------------------------------------------

  lemma {:induction false} QuotientBounds(a: real, b: real, q: real, r: real)
    requires b > 0.0 && a == q * b + r && 0.0 <= r < b
    ensures q <= a / b < q + 1.0
  {
    DivSum(q * b, r, b);
    MulThenDiv(q, b);
    ProperFraction(r, b);
  }

  lemma {:induction false} ProperFraction(r: real, b: real)
    requires b > 0.0 && 0.0 <= r < b
    ensures 0.0 <= r / b < 1.0
  {
    DivThenMul(r, b);
    ScaleBelow(r / b, 1.0, b);
  }

  lemma {:induction false} ScaleBelow(x: real, y: real, b: real)
    requires b > 0.0 && x * b < y * b
    ensures x < y
  {
  }

  /** The floor of an exact quotient of naturals is their integer quotient. */
  lemma {:induction false} FloorOfQuotient(a: nat, b: nat)
    requires b > 0
    ensures a as real / b as real >= 0.0 && (a as real / b as real).Floor == a / b
  {
    var q, r := a / b, a % b;
    assert a == q * b + r;
    CastProduct(q, b);
    QuotientBounds(a as real, b as real, q as real, r as real);
  }

  /** Rounding an exact quotient toward zero is integer division toward zero. */
  lemma {:induction false} TruncOfQuotient(a: int, b: nat)
    requires b > 0
    ensures TruncReal(a as real / b as real) == TruncDiv(a, b)
  {
    if a >= 0 {
      FloorOfQuotient(a, b);
    } else {
      FloorOfQuotient(-a, b);
      DivDifference(0.0, a as real, b as real);
      assert -(a as real / b as real) == (-a) as real / b as real;
    }
  }

  /** Truncating a whole number gives it back. */
  lemma {:induction false} TruncWhole(i: int)
    ensures TruncReal(i as real) == i
  {
    if i < 0 {
      assert -(i as real) == (-i) as real;
    }
  }

  /** The remainder toward zero, as a fraction of the divisor, is the quotient less its truncation. */
  lemma {:induction false} RemainderQuotient(u: int, p: nat)
    requires p > 0
    ensures TruncRem(u, p) as real / p as real == u as real / p as real - TruncReal(u as real / p as real) as real
  {
    TruncOfQuotient(u, p);
    var q := TruncDiv(u, p);
    CastProduct(p, q);
    DivDifference(u as real, p as real * q as real, p as real);
    MulThenDiv(q as real, p as real);
    assert (p as real * q as real) / p as real == q as real;
  }

  // Congruence steps stated on their own: inside a larger goal the solver does not find them reliably.

  lemma {:induction false} TruncOfEqual(a: real, b: real)
    requires a == b
    ensures TruncReal(a) == TruncReal(b)
  {
  }

  lemma {:induction false} QuotientOfEqual(a: int, b: int, p: real)
    requires a == b && p > 0.0
    ensures a as real / p == b as real / p
  {
  }

  lemma {:induction false} TruncToScaleOf(v: real, s: nat, w: real)
    requires v * Pow10(s) as real == w
    ensures TruncToScale(v, s) == TruncReal(w) as real / Pow10(s) as real
  {
    TruncOfEqual(v * Pow10(s) as real, w);
    QuotientOfEqual(TruncReal(v * Pow10(s) as real), TruncReal(w), Pow10(s) as real);
  }

  // ---------------------------------------------------------------------------
  // Powers of ten in quotients
  // ---------------------------------------------------------------------------

  lemma {:induction false} ValueOfScaled(d: Decimal)
    requires d.scale >= 0
    ensures Value(d) == d.unscaled as real / Pow10(d.scale) as real
  {
  }

  // The same quotient identities with powers of ten.

  lemma {:induction false} ShiftQuotient(u: int, s: nat, n: nat)
    ensures u as real / Pow10(s + n) as real == (u as real / Pow10(s) as real) / Pow10(n) as real
  {
    Pow10Add(s, n);
    QuotientByProduct(u as real, Pow10(s), Pow10(n), Pow10(s + n));
  }

  lemma {:induction false} UnshiftQuotient(u: int, k: nat, n: nat)
    ensures u as real / Pow10(k) as real == (u as real / Pow10(k + n) as real) * Pow10(n) as real
  {
    Pow10Add(k, n);
    QuotientUnshift(u as real, Pow10(k), Pow10(n), Pow10(k + n));
  }

  lemma {:induction false} ScaleUpQuotient(u: int, s: nat, k: nat)
    ensures (u as real / Pow10(s) as real) * Pow10(k + s) as real == (u * Pow10(k)) as real
  {
    Pow10Add(k, s);
    QuotientScaleUp(u, Pow10(s), Pow10(k), Pow10(k + s));
  }

  /** Padding the unscaled value with `k` zeros and raising the scale by `k` keeps the value. */
  lemma {:induction false} PadValue(u: int, k: nat, s: nat)
    ensures (u * Pow10(k)) as real / Pow10(k + s) as real == u as real / Pow10(s) as real
  {
    Pow10Add(k, s);
    QuotientPad(u, Pow10(k), Pow10(s), Pow10(k + s));
  }

  lemma {:induction false} ProductQuotient(x: int, y: int, a: nat, b: nat)
    ensures (x * y) as real / Pow10(a + b) as real == (x as real / Pow10(a) as real) * (y as real / Pow10(b) as real)
  {
    Pow10Add(a, b);
    QuotientOfProducts(x, y, Pow10(a), Pow10(b), Pow10(a + b));
  }

  // ---------------------------------------------------------------------------
  // What each operation does to the value
  // ---------------------------------------------------------------------------

  lemma {:induction false} MovePointLeftValue(d: Decimal, n: nat)
    requires d.scale >= 0
    ensures MovePointLeft(d, n).scale == d.scale + n
    ensures Value(MovePointLeft(d, n)) == Value(d) / Pow10(n) as real
  {
    ValueOfScaled(d);
    ValueOfScaled(MovePointLeft(d, n));
    ShiftQuotient(d.unscaled, d.scale, n);
  }

  lemma {:induction false} MovePointRightValue(d: Decimal, n: nat)
    requires d.scale >= 0
    ensures MovePointRight(d, n).scale == if d.scale >= n then d.scale - n else 0
    ensures Value(MovePointRight(d, n)) == Value(d) * Pow10(n) as real
  {
    if d.scale >= n {
      MovePointRightWithinScale(d, n);
    } else {
      MovePointRightBeyondScale(d, n);
    }
  }

  lemma {:induction false} MovePointRightWithinScale(d: Decimal, n: nat)
    requires d.scale >= n
    ensures Value(MovePointRight(d, n)) == Value(d) * Pow10(n) as real
  {
    ValueOfScaled(d);
    ValueOfScaled(MovePointRight(d, n));
    WithinScalePlain(d.unscaled, d.scale, n);
  }

  lemma {:induction false} WithinScalePlain(u: int, s: nat, n: nat)
    requires n <= s
    ensures u as real / Pow10(s - n) as real == (u as real / Pow10(s) as real) * Pow10(n) as real
  {
    UnshiftQuotient(u, s - n, n);
    assert s - n + n == s;
  }

  lemma {:induction false} MovePointRightBeyondScale(d: Decimal, n: nat)
    requires 0 <= d.scale < n
    ensures Value(MovePointRight(d, n)) == Value(d) * Pow10(n) as real
  {
    BeyondScaleValues(d, n);
    BeyondScaleStep(Value(MovePointRight(d, n)), Value(d), d.unscaled, d.scale, n);
  }

  lemma {:induction false} BeyondScaleValues(d: Decimal, n: nat)
    requires 0 <= d.scale < n
    ensures Value(MovePointRight(d, n)) == (d.unscaled * Pow10(n - d.scale)) as real
    ensures Value(d) == d.unscaled as real / Pow10(d.scale) as real
  {
    assert Pow10(0) == 1;
  }

  lemma {:induction false} BeyondScaleStep(moved: real, v: real, u: int, s: nat, n: nat)
    requires s < n
    requires moved == (u * Pow10(n - s)) as real && v == u as real / Pow10(s) as real
    ensures moved == v * Pow10(n) as real
  {
    ScaleUpQuotient(u, s, n - s);
    assert n - s + s == n;
  }

  lemma {:induction false} SetScaleDownValue(d: Decimal, newScale: nat)
    requires d.scale >= 0
    ensures SetScaleDown(d, newScale).scale == newScale
    ensures Value(SetScaleDown(d, newScale)) == TruncToScale(Value(d), newScale)
  {
    if newScale >= d.scale {
      SetScaleDownPads(d, newScale);
    } else {
      SetScaleDownCuts(d, newScale);
    }
  }

  lemma {:induction false} SetScaleDownPads(d: Decimal, newScale: nat)
    requires 0 <= d.scale <= newScale
    ensures Value(SetScaleDown(d, newScale)) == TruncToScale(Value(d), newScale)
  {
    ValueOfScaled(d);
    ValueOfScaled(SetScaleDown(d, newScale));
    PadsPlain(d.unscaled, d.scale, newScale - d.scale);
  }

  lemma {:induction false} PadsPlain(u: int, s: nat, k: nat)
    ensures TruncToScale(u as real / Pow10(s) as real, k + s) == (u * Pow10(k)) as real / Pow10(k + s) as real
  {
    assert (u as real / Pow10(s) as real) * Pow10(k + s) as real == (u * Pow10(k)) as real by {
      ScaleUpQuotient(u, s, k);
    }
    TruncToScaleOf(u as real / Pow10(s) as real, k + s, (u * Pow10(k)) as real);
    TruncWhole(u * Pow10(k));
    QuotientOfEqual(TruncReal((u * Pow10(k)) as real), u * Pow10(k), Pow10(k + s) as real);
  }

  lemma {:induction false} SetScaleDownCuts(d: Decimal, newScale: nat)
    requires 0 <= newScale < d.scale
    ensures Value(SetScaleDown(d, newScale)) == TruncToScale(Value(d), newScale)
  {
    ValueOfScaled(d);
    ValueOfScaled(SetScaleDown(d, newScale));
    CutsPlain(d.unscaled, d.scale - newScale, newScale);
  }

  lemma {:induction false} CutsPlain(u: int, k: nat, s: nat)
    ensures TruncToScale(u as real / Pow10(k + s) as real, s) == TruncDiv(u, Pow10(k)) as real / Pow10(s) as real
  {
    assert (u as real / Pow10(k + s) as real) * Pow10(s) as real == u as real / Pow10(k) as real by {
      UnshiftQuotient(u, k, s);
    }
    TruncToScaleOf(u as real / Pow10(k + s) as real, s, u as real / Pow10(k) as real);
    assert TruncReal(u as real / Pow10(k) as real) == TruncDiv(u, Pow10(k)) by {
      TruncOfQuotient(u, Pow10(k));
    }
    QuotientOfEqual(TruncReal(u as real / Pow10(k) as real), TruncDiv(u, Pow10(k)), Pow10(s) as real);
  }

  lemma {:induction false} RemainderOfOneValue(d: Decimal)
    requires d.scale >= 0
    ensures RemainderOfOne(d).scale == d.scale
    ensures Value(RemainderOfOne(d)) == Value(d) - TruncReal(Value(d)) as real
  {
    ValueOfScaled(d);
    ValueOfScaled(RemainderOfOne(d));
    RemainderQuotient(d.unscaled, Pow10(d.scale));
  }

  lemma {:induction false} AddValue(a: Decimal, b: Decimal)
    requires a.scale >= 0 && b.scale >= 0
    ensures Add(a, b).scale == if a.scale >= b.scale then a.scale else b.scale
    ensures Value(Add(a, b)) == Value(a) + Value(b)
  {
    var s := if a.scale >= b.scale then a.scale else b.scale;
    assert s - a.scale + a.scale == s && s - b.scale + b.scale == s;
    PadValue(a.unscaled, s - a.scale, a.scale);
    PadValue(b.unscaled, s - b.scale, b.scale);
    DivSum((a.unscaled * Pow10(s - a.scale)) as real, (b.unscaled * Pow10(s - b.scale)) as real, Pow10(s) as real);
  }

  lemma {:induction false} MultiplyValue(a: Decimal, b: Decimal)
    requires a.scale >= 0 && b.scale >= 0
    ensures Multiply(a, b).scale == a.scale + b.scale
    ensures Value(Multiply(a, b)) == Value(a) * Value(b)
  {
    ValueOfScaled(a);
    ValueOfScaled(b);
    ValueOfScaled(Multiply(a, b));
    ProductQuotient(a.unscaled, b.unscaled, a.scale, b.scale);
  }

  lemma {:induction false} NegateValue(d: Decimal)
    ensures Value(Negate(d)) == -Value(d)
    ensures IsNegative(Negate(d)) <==> d.unscaled > 0
  {
    if d.scale >= 0 {
      DivDifference(0.0, d.unscaled as real, Pow10(d.scale) as real);
    } else {
      assert (-d.unscaled) * Pow10(-d.scale) == -(d.unscaled * Pow10(-d.scale));
    }
  }

  /** `compareTo(ZERO) < 0` asks exactly whether the value is below zero, at any scale. */
  lemma {:induction false} IsNegativeValue(d: Decimal)
    ensures IsNegative(d) <==> Value(d) < 0.0
  {
  }
}
