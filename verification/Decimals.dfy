/** Fixed-point decimals: a 64-bit coefficient and a scale, checked against exact rational arithmetic. */
module Decimals {
  import opened Arith
  import opened Results

  const MIN_COEFFICIENT := -0x8000_0000_0000_0000
  const MAX_COEFFICIENT := 0x7fff_ffff_ffff_ffff
  const MAX_SHIFT := 18             // the largest power of ten that a 64-bit multiplier reaches
  const EXTRA_PRECISION := 6
  const SCALES := 256

  predicate Fits(v: int) { MIN_COEFFICIENT <= v <= MAX_COEFFICIENT }

  type coefficient = v: int | Fits(v)
  type scale = s: nat | s < SCALES

  datatype Decimal = Decimal(c: coefficient, s: scale)

  function Pow10(n: nat): (r: nat)
    ensures r > 0
  {
    if n == 0 then 1 else 10 * Pow10(n - 1)
  }

  /** Division that drops the fraction, as the machine divides. */
  function TruncDiv(a: int, b: int): (q: int)
    requires b != 0
  {
    if (a >= 0) == (b > 0) then Abs(a) / Abs(b) else -(Abs(a) / Abs(b))
  }

  function Abs(a: int): (r: nat) { if a < 0 then -a else a }

  /** The quotient is a bound exactly: `v * b` stays within `a` when `v` stays within `a / b`. */
  lemma DivIsBound(v: nat, a: nat, b: nat)
    requires b > 0
    ensures v <= a / b <==> v * b <= a
  {
    QuotientBounds(a, b);
    if v < a / b {
      MulGap(v, a / b, b);
    } else if a / b < v {
      MulGap(a / b, v, b);
    }
  }

  lemma {:induction false} Pow10Grows(a: nat, b: nat)
    requires a <= b
    ensures Pow10(a) <= Pow10(b)
    decreases b
  {
    if a < b { Pow10Grows(a, b - 1); }
  }

  lemma {:induction false} Pow10Adds(a: nat, b: nat)
    ensures Pow10(a + b) == Pow10(a) * Pow10(b)
  {
    if a > 0 { Pow10Adds(a - 1, b); }
  }

  lemma Pow10Limits()
    ensures Pow10(6) == 1_000_000
    ensures Pow10(MAX_SHIFT) == 1_000_000_000_000_000_000
    ensures Pow10(MAX_SHIFT + 1) > -MIN_COEFFICIENT
  {
    assert Pow10(3) == 1000;
    Pow10Adds(3, 3);
    Pow10Adds(6, 6);
    Pow10Adds(12, 6);
  }

  // ---------- scaling ----------

  /** What scaling up delivers: the exact product, unless it or the power of ten leaves 64 bits. */
  function Scaled(v: int, diff: nat): (r: Option<int>) {
    if diff <= MAX_SHIFT && Fits(v * Pow10(diff)) then Some(v * Pow10(diff)) else None
  }

  method ScaleUp(v: coefficient, diff: nat) returns (r: Option<int>)
    requires diff < SCALES
    ensures r == Scaled(v, diff)
  {
    if diff == 0 { return Some(v); }
    Pow10Limits();
    var multiplier := 1;
    var i := 0;
    while i < diff
      invariant 0 <= i <= diff && i <= MAX_SHIFT && multiplier == Pow10(i)
    {
      if multiplier > MAX_COEFFICIENT / 10 {
        if i < MAX_SHIFT { Pow10Grows(i + 1, MAX_SHIFT); }
        return None;
      }
      if i == MAX_SHIFT { assert false; }
      multiplier := multiplier * 10;
      i := i + 1;
    }
    if v > 0 && v > MAX_COEFFICIENT / multiplier {
      ProductOverflows(v, multiplier);
      return None;
    }
    if v < 0 && v < TruncDiv(MIN_COEFFICIENT, multiplier) {
      ProductOverflows(v, multiplier);
      return None;
    }
    ProductFits(v, multiplier);
    r := Some(v * multiplier);
  }

  lemma ProductOverflows(v: coefficient, m: nat)
    requires m > 0
    requires (v > 0 && v > MAX_COEFFICIENT / m) || (v < 0 && v < TruncDiv(MIN_COEFFICIENT, m))
    ensures !Fits(v * m)
  {
    if v > 0 {
      DivIsBound(v, MAX_COEFFICIENT, m);
    } else {
      DivIsBound(Abs(v), -MIN_COEFFICIENT, m);
    }
  }

  lemma ProductFits(v: coefficient, m: nat)
    requires m > 0 && (v > 0 ==> v <= MAX_COEFFICIENT / m) && (v < 0 ==> v >= TruncDiv(MIN_COEFFICIENT, m))
    ensures Fits(v * m)
  {
    if v > 0 {
      DivIsBound(v, MAX_COEFFICIENT, m);
    } else if v < 0 {
      DivIsBound(Abs(v), -MIN_COEFFICIENT, m);
    }
  }

  /** A product with a power of ten beyond the limit fits only when it is zero. */
  lemma BigShift(v: int, diff: nat)
    requires diff > MAX_SHIFT && v != 0
    ensures !Fits(v * Pow10(diff)) && (v > 0 ==> v * Pow10(diff) > MAX_COEFFICIENT)
    ensures v < 0 ==> v * Pow10(diff) < MIN_COEFFICIENT
  {
    Pow10Limits();
    Pow10Grows(MAX_SHIFT + 1, diff);
    SignKept(v, Pow10(diff));
  }

  // ---------- exact values ----------

  function Max(a: nat, b: nat): (m: nat) { if a < b then b else a }

  /** The numerator of `d` over ten to the power `t`. */
  function AtScale(d: Decimal, t: nat): (n: int)
    requires d.s <= t
  {
    d.c * Pow10(t - d.s)
  }

  /** Equality and order of the exact rationals, by cross-multiplication. */
  predicate SameValue(a: Decimal, b: Decimal) { a.c * Pow10(b.s) == b.c * Pow10(a.s) }

  predicate LessValue(a: Decimal, b: Decimal) { a.c * Pow10(b.s) < b.c * Pow10(a.s) }

  lemma CrossIsCommonScale(a: Decimal, b: Decimal)
    ensures var t := Max(a.s, b.s);
            (SameValue(a, b) <==> AtScale(a, t) == AtScale(b, t))
            && (LessValue(a, b) <==> AtScale(a, t) < AtScale(b, t))
  {
    var t := Max(a.s, b.s);
    var low := if a.s < b.s then a.s else b.s;
    Pow10Adds(low, t - low);
    var p, q := Pow10(low), Pow10(t - low);
    if a.s < b.s {
      Cancel(a.c, b.c, p, q);
    } else {
      Cancel(b.c, a.c, p, q);
    }
  }

  lemma Cancel(x: int, y: int, p: nat, q: nat)
    requires p > 0 && q > 0
    ensures x * (p * q) == y * p <==> x * q == y
    ensures x * (p * q) < y * p <==> x * q < y
    ensures y * p < x * (p * q) <==> y < x * q
  {
    var z := x * q;
    assert x * (p * q) == z * p;
    Scale(z, y, p);
    Scale(y, z, p);
  }

  lemma Scale(x: int, y: int, p: nat)
    requires p > 0
    ensures x * p < y * p <==> x < y
  {
    SignKept(y - x, p);
    assert (y - x) * p == y * p - x * p;
  }

  // ---------- comparisons ----------

  predicate Equals(a: Decimal, b: Decimal) {
    var t := Max(a.s, b.s);
    var x, y := Scaled(a.c, t - a.s), Scaled(b.c, t - b.s);
    x.Some? && y.Some? && x.value == y.value
  }

  predicate Less(a: Decimal, b: Decimal) {
    var t := Max(a.s, b.s);
    var x, y := Scaled(a.c, t - a.s), Scaled(b.c, t - b.s);
    if x.None? then a.c < 0
    else if y.None? then b.c > 0
    else x.value < y.value
  }

  /** Scaling fails for a zero coefficient although its value is representable at every scale. */
  predicate ZeroFarBelow(a: Decimal, b: Decimal) { a.c == 0 && b.s > a.s + MAX_SHIFT }

  lemma ScaledExact(d: Decimal, t: nat)
    requires d.s <= t
    ensures var x := Scaled(d.c, t - d.s);
            if x.Some? then x.value == AtScale(d, t)
            else (d.c > 0 ==> AtScale(d, t) > MAX_COEFFICIENT) && (d.c < 0 ==> AtScale(d, t) < MIN_COEFFICIENT)
                 && (d.c == 0 ==> t > d.s + MAX_SHIFT && AtScale(d, t) == 0)
  {
    if t - d.s > MAX_SHIFT {
      if d.c != 0 { BigShift(d.c, t - d.s); }
    } else {
      SignKept(d.c, Pow10(t - d.s));
    }
  }

  lemma SignKept(v: int, p: nat)
    requires p > 0
    ensures (v > 0 ==> v * p >= p) && (v < 0 ==> v * p + p <= 0) && (v == 0 ==> v * p == 0)
  {
    if v > 0 {
      MulGap(0, v, p);
    } else if v < 0 {
      MulGap(0, -v, p);
      assert v * p == -(-v * p);
    }
  }

  /** Equality is the rationals' equality except between two zeros whose scales differ by more than 18. */
  lemma EqualsExact(a: Decimal, b: Decimal)
    ensures Equals(a, b) == SameValue(a, b) <==> !(ZeroFarBelow(a, b) && b.c == 0) && !(ZeroFarBelow(b, a) && a.c == 0)
  {
    hide Scaled, AtScale, SameValue;
    var t := Max(a.s, b.s);
    CrossIsCommonScale(a, b);
    ScaledExact(a, t);
    ScaledExact(b, t);
    ScaledWhen(a, t);
    ScaledWhen(b, t);
    Unscaled(a);
    Unscaled(b);
  }

  lemma Unscaled(d: Decimal)
    ensures Scaled(d.c, 0) == Some(d.c) && AtScale(d, d.s) == d.c
  {
  }

  /** The order is the rationals' order except for a zero far below a positive or above a negative number. */
  lemma LessExact(a: Decimal, b: Decimal)
    ensures Less(a, b) == LessValue(a, b) <==> !(ZeroFarBelow(a, b) && b.c > 0) && !(ZeroFarBelow(b, a) && a.c < 0)
  {
    hide Scaled, AtScale, LessValue;
    var t := Max(a.s, b.s);
    CrossIsCommonScale(a, b);
    ScaledExact(a, t);
    ScaledExact(b, t);
    ScaledWhen(a, t);
    ScaledWhen(b, t);
    Unscaled(a);
    Unscaled(b);
  }

  /** Zero at scale 0 is not found equal to zero at scale 19, nor below one unit at scale 19. */
  lemma FarZerosMiscompared()
    ensures SameValue(Decimal(0, 0), Decimal(0, 19)) && !Equals(Decimal(0, 0), Decimal(0, 19))
    ensures LessValue(Decimal(0, 0), Decimal(1, 19)) && !Less(Decimal(0, 0), Decimal(1, 19))
  {
    EqualsExact(Decimal(0, 0), Decimal(0, 19));
    LessExact(Decimal(0, 0), Decimal(1, 19));
  }

  // ---------- arithmetic ----------

  function Add(a: Decimal, b: Decimal): (r: Option<Decimal>) {
    var t := Max(a.s, b.s);
    var x, y := Scaled(a.c, t - a.s), Scaled(b.c, t - b.s);
    if x.None? || y.None? then None
    else if (y.value > 0 && x.value > MAX_COEFFICIENT - y.value) || (y.value < 0 && x.value < MIN_COEFFICIENT - y.value)
    then None
    else Some(Decimal(x.value + y.value, t))
  }

  function Sub(a: Decimal, b: Decimal): (r: Option<Decimal>) {
    var t := Max(a.s, b.s);
    var x, y := Scaled(a.c, t - a.s), Scaled(b.c, t - b.s);
    if x.None? || y.None? then None
    else if (y.value < 0 && x.value > MAX_COEFFICIENT + y.value) || (y.value > 0 && x.value < MIN_COEFFICIENT + y.value)
    then None
    else Some(Decimal(x.value - y.value, t))
  }

  /** Both operands can be written at the larger scale. */
  ghost predicate CommonScaleFits(a: Decimal, b: Decimal) {
    var t := Max(a.s, b.s);
    Fits(AtScale(a, t)) && Fits(AtScale(b, t)) && !ZeroFarBelow(a, b) && !ZeroFarBelow(b, a)
  }

  /** A sum or difference is the exact one, and is refused exactly when an operand or the result overflows. */
  lemma AddSubExact(a: Decimal, b: Decimal)
    ensures var t := Max(a.s, b.s);
            var sum, difference := AtScale(a, t) + AtScale(b, t), AtScale(a, t) - AtScale(b, t);
            && Add(a, b) == (if CommonScaleFits(a, b) && Fits(sum) then Some(Decimal(sum, t)) else None)
            && Sub(a, b) == (if CommonScaleFits(a, b) && Fits(difference) then Some(Decimal(difference, t)) else None)
  {
    hide Scaled, AtScale;
    var t := Max(a.s, b.s);
    ScaledExact(a, t);
    ScaledExact(b, t);
    ScaledWhen(a, t);
    ScaledWhen(b, t);
    Unscaled(a);
    Unscaled(b);
  }

  lemma ScaledWhen(d: Decimal, t: nat)
    requires d.s <= t
    ensures Scaled(d.c, t - d.s).Some? <==> Fits(AtScale(d, t)) && t - d.s <= MAX_SHIFT
  {
  }

  function Mul(a: Decimal, b: Decimal): (r: Option<Decimal>) {
    if a.c > 0 && b.c > 0 && a.c > TruncDiv(MAX_COEFFICIENT, b.c) then None
    else if a.c > 0 && b.c < 0 && b.c < TruncDiv(MIN_COEFFICIENT, a.c) then None
    else if a.c < 0 && b.c > 0 && a.c < TruncDiv(MIN_COEFFICIENT, b.c) then None
    else if a.c < 0 && b.c < 0 && a.c < TruncDiv(MAX_COEFFICIENT, b.c) then None
    else
      MulFits(a.c, b.c);
      Some(Decimal(a.c * b.c, (a.s + b.s) % SCALES))
  }

  lemma MulFits(x: int, y: int)
    ensures Fits(x * y) <==>
            !(x > 0 && y > 0 && x > TruncDiv(MAX_COEFFICIENT, y))
            && !(x > 0 && y < 0 && y < TruncDiv(MIN_COEFFICIENT, x))
            && !(x < 0 && y > 0 && x < TruncDiv(MIN_COEFFICIENT, y))
            && !(x < 0 && y < 0 && x < TruncDiv(MAX_COEFFICIENT, y))
  {
    hide TruncDiv, Fits;
    if x > 0 && y > 0 {
      MulFitsUp(x, y);
    } else if x > 0 && y < 0 {
      MulFitsAcross(x, y);
    } else if x < 0 && y > 0 {
      MulFitsAcross(y, x);
      assert x * y == y * x;
    } else if x < 0 && y < 0 {
      MulFitsDown(x, y);
    } else {
      ZeroFits(x, y);
    }
  }

  lemma ZeroFits(x: int, y: int)
    requires x == 0 || y == 0
    ensures Fits(x * y)
  {
  }

  lemma MulFitsUp(x: int, y: int)
    requires x > 0 && y > 0
    ensures Fits(x * y) <==> x <= TruncDiv(MAX_COEFFICIENT, y)
  {
    DivIsBound(x, MAX_COEFFICIENT, y);
    SignKept(x, y);
  }

  lemma MulFitsAcross(x: int, y: int)
    requires x > 0 > y
    ensures Fits(x * y) <==> y >= TruncDiv(MIN_COEFFICIENT, x)
  {
    DivIsBound(-y, -MIN_COEFFICIENT, x);
    SignKept(y, x);
    assert x * y == -(-y * x);
  }

  lemma MulFitsDown(x: int, y: int)
    requires x < 0 && y < 0
    ensures Fits(x * y) <==> x >= TruncDiv(MAX_COEFFICIENT, y)
  {
    DivIsBound(-x, MAX_COEFFICIENT, -y);
    SignKept(-x, -y);
    assert x * y == -x * -y;
  }

  /**
   * A product is refused exactly when its coefficient overflows. Otherwise it is the exact product if and
   * only if the scales add up within a byte or the product is zero.
   */
  lemma MulExact(a: Decimal, b: Decimal)
    ensures Mul(a, b).Some? <==> Fits(a.c * b.c)
    ensures Mul(a, b).Some? ==>
            var r := Mul(a, b).value;
            r.c * Pow10(a.s + b.s) == a.c * b.c * Pow10(r.s) <==> a.s + b.s < SCALES || a.c * b.c == 0
  {
    MulFits(a.c, b.c);
    var v, n := a.c * b.c, a.s + b.s;
    if Mul(a, b).Some? && n >= SCALES {
      assert n % SCALES == n - SCALES;
      Pow10Adds(n - SCALES, SCALES);
      ScaleDiffers(v, Pow10(n - SCALES), Pow10(SCALES));
    }
  }

  lemma OnlyZero(w: int, q: nat)
    requires q > 1
    ensures w * q == w <==> w == 0
  {
    SignKept(w, q - 1);
    assert w * q == w * (q - 1) + w;
  }

  lemma ScaleDiffers(v: int, p: nat, q: nat)
    requires p > 0 && q == Pow10(SCALES)
    ensures v * (p * q) == v * p <==> v == 0
  {
    Pow10Grows(1, SCALES);
    assert q >= 10;
    var w := v * p;
    assert v * (p * q) == w * q;
    SignKept(v, p);
    OnlyZero(w, q);
  }

  function Div(a: Decimal, b: Decimal): (r: Option<Decimal>) {
    if b.c == 0 then None
    else
      var x := Scaled(a.c, EXTRA_PRECISION);
      if x.None? then None
      else
        QuotientFits(a.c, b.c);
        Some(Decimal(TruncDiv(x.value, b.c), (a.s + EXTRA_PRECISION + SCALES - b.s) % SCALES))
  }

  /** The dividend is a multiple of a million, so it is never the one that overflows. */
  lemma QuotientFits(a: coefficient, b: coefficient)
    requires b != 0 && Scaled(a, EXTRA_PRECISION).Some?
    ensures Fits(TruncDiv(a * Pow10(EXTRA_PRECISION), b))
  {
    Pow10Limits();
    QuotientInRange(a * 1_000_000, b);
  }

  lemma QuotientInRange(n: int, d: int)
    requires d != 0 && Fits(n) && n != MIN_COEFFICIENT
    ensures Fits(TruncDiv(n, d))
  {
    QuotientSmaller(Abs(n), Abs(d));
  }

  lemma QuotientSmaller(n: nat, d: nat)
    requires d > 0
    ensures n / d <= n
  {
    QuotientBounds(n, d);
    var q := n / d;
    if q > 0 && d > 1 {
      MulGap(0, d - 1, q);
      assert q * d == (d - 1) * q + q;
    }
  }

  /**
   * A quotient is refused exactly for a zero divisor or a dividend that cannot take six more digits.
   * Otherwise it differs from the exact quotient by less than one unit in its last place, toward zero.
   */
  lemma DivTruncates(a: Decimal, b: Decimal)
    ensures Div(a, b).Some? <==> b.c != 0 && Fits(a.c * 1_000_000)
    ensures Div(a, b).Some? && 0 <= a.s + EXTRA_PRECISION - b.s < SCALES ==>
            var r := Div(a, b).value;
            r.s == a.s + EXTRA_PRECISION - b.s
            && Abs(a.c * 1_000_000 - r.c * b.c) < Abs(b.c) && Abs(r.c * b.c) <= Abs(a.c * 1_000_000)
  {
    Pow10Limits();
    if Div(a, b).Some? {
      TruncRemainder(a.c * 1_000_000, b.c);
    }
  }

  lemma TruncRemainder(n: int, d: int)
    requires d != 0
    ensures Abs(n - TruncDiv(n, d) * d) < Abs(d) && Abs(TruncDiv(n, d) * d) <= Abs(n)
  {
    hide TruncDiv;
    var m: int := Abs(n) / Abs(d) * Abs(d);
    MultipleBelow(Abs(n), Abs(d), m);
    TruncTimes(n, d, m);
    CloseBelow(n, m, Abs(d), TruncDiv(n, d) * d);
  }

  lemma CloseBelow(n: int, m: int, d: int, p: int)
    requires 0 <= m <= Abs(n) < m + d && p == if n >= 0 then m else -m
    ensures Abs(n - p) < d && Abs(p) <= Abs(n)
  {
  }

  lemma MultipleBelow(a: nat, b: nat, m: int)
    requires b > 0 && m == a / b * b
    ensures 0 <= m <= a < m + b
  {
    QuotientBounds(a, b);
  }

  lemma TruncTimes(n: int, d: int, m: int)
    requires d != 0 && m == Abs(n) / Abs(d) * Abs(d)
    ensures TruncDiv(n, d) * d == if n >= 0 then m else -m
  {
    TruncProduct(Abs(n) / Abs(d), d);
  }

  lemma TruncProduct(q: int, d: int)
    ensures q * d == if d > 0 then q * Abs(d) else -(q * Abs(d))
    ensures -q * d == if d > 0 then -(q * Abs(d)) else q * Abs(d)
  {
  }
}
