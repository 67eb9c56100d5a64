/** `double` arithmetic: IEEE 754 binary64, rounding to nearest with ties to even.
    Only non-negative values of the normal range occur in the program, so a double is a real
    number here, and an operation is the exact one followed by `Round`. */
module Doubles {
  import opened Words

  // ----- rounding -----

  /** The nearest integer, the even one of two. */
  function NearestEven(x: real): (n: int)
    ensures -0.5 <= n as real - x <= 0.5
  {
    var below := x.Floor;
    var rest := x - below as real;
    if rest < 0.5 || (rest == 0.5 && below % 2 == 0) then below else below + 1
  }

  /** Ties go to the even neighbour. */
  lemma TiesToEven(k: int)
    ensures NearestEven(k as real + 0.5) == if k % 2 == 0 then k else k + 1
  {
  }

  /** How far x is from having a 53-bit integer part. */
  function Distance(x: real): nat
    requires x >= 0.0
  {
    if x == 0.0 then 0
    else if x < 4503599627370496.0 then (4503599627370496.0 / x).Floor
    else if x < 9007199254740992.0 then 0
    else (x / 4503599627370496.0).Floor
  }

  lemma DistanceUp(x: real)
    requires 0.0 < x < 4503599627370496.0
    ensures Distance(2.0 * x) < Distance(x)
  {
    var q := 4503599627370496.0 / x;
    assert 4503599627370496.0 / (2.0 * x) == q / 2.0;
  }

  lemma DistanceDown(x: real)
    requires x >= 9007199254740992.0
    ensures Distance(x / 2.0) < Distance(x)
  {
  }

  /** The double nearest to x: 53 significant bits, ties to even. */
  function Round(x: real): (r: real)
    requires x >= 0.0
    ensures r >= 0.0
    decreases Distance(x)
  {
    if x == 0.0 then 0.0
    else if x < 4503599627370496.0 then
      DistanceUp(x);
      Round(2.0 * x) / 2.0
    else if x < 9007199254740992.0 then NearestEven(x) as real
    else
      DistanceDown(x);
      2.0 * Round(x / 2.0)
  }

  lemma RoundSmall(x: real)
    requires 0.0 < x < 4503599627370496.0
    ensures Distance(2.0 * x) < Distance(x) && Round(x) == Round(2.0 * x) / 2.0
  {
    hide Distance;
    DistanceUp(x);
  }

  lemma RoundMiddle(x: real)
    requires x == 0.0 || 4503599627370496.0 <= x < 9007199254740992.0
    ensures Round(x) == if x == 0.0 then 0.0 else NearestEven(x) as real
  {
  }

  lemma RoundLarge(x: real)
    requires x >= 9007199254740992.0
    ensures Distance(x / 2.0) < Distance(x) && Round(x) == 2.0 * Round(x / 2.0)
  {
    hide Distance;
    DistanceDown(x);
  }

  lemma NearestBetween(x: real, k: int)
    ensures k as real <= x ==> k <= NearestEven(x)
    ensures x <= k as real ==> NearestEven(x) <= k
  {
  }

  /** Rounding is off by at most one part in 2^53. */
  lemma {:induction false} RoundNear(x: real)
    requires x >= 0.0
    ensures -x <= 9007199254740992.0 * (Round(x) - x) <= x
    decreases Distance(x)
  {
    hide Round, Distance, NearestEven;
    if 0.0 < x < 4503599627370496.0 {
      RoundSmall(x);
      RoundNear(2.0 * x);
    } else if x >= 9007199254740992.0 {
      RoundLarge(x);
      RoundNear(x / 2.0);
    } else {
      RoundMiddle(x);
    }
  }

  /** Rounding does not carry below a whole number of at most 2^53 ... */
  lemma {:induction false} RoundAtLeast(x: real, k: nat)
    requires k as real <= x && k <= 0x20_0000_0000_0000
    ensures Round(x) >= k as real
    decreases Distance(x)
  {
    hide Round, Distance, NearestEven;
    if 0.0 < x < 4503599627370496.0 {
      RoundSmall(x);
      RoundAtLeast(2.0 * x, 2 * k);
    } else if x >= 9007199254740992.0 {
      RoundLarge(x);
      RoundAtLeast(x / 2.0, 0x10_0000_0000_0000);
    } else {
      RoundMiddle(x);
      NearestBetween(x, k);
    }
  }

  /** ... nor above one. */
  lemma {:induction false} RoundAtMost(x: real, k: nat)
    requires 0.0 <= x <= k as real && k <= 0x20_0000_0000_0000
    ensures Round(x) <= k as real
    decreases Distance(x)
  {
    hide Round, Distance, NearestEven;
    if 0.0 < x < 4503599627370496.0 {
      RoundSmall(x);
      RoundAtMost(2.0 * x, if k <= 0x10_0000_0000_0000 then 2 * k else 0x20_0000_0000_0000);
    } else if x >= 9007199254740992.0 {
      RoundLarge(x);
      RoundAtMost(x / 2.0, 0x10_0000_0000_0000);
    } else {
      RoundMiddle(x);
      NearestBetween(x, k);
    }
  }

  /** Whole numbers up to 2^53 are doubles. */
  lemma RoundWhole(k: nat)
    requires k <= 0x20_0000_0000_0000
    ensures Round(k as real) == k as real
  {
    RoundAtLeast(k as real, k);
    RoundAtMost(k as real, k);
  }

  /** x is a double. */
  predicate IsDouble(x: real) {
    x >= 0.0 && Round(x) == x
  }

  /** Rounding commutes with doubling. */
  lemma RoundDoubles(x: real)
    requires x >= 0.0
    ensures Round(2.0 * x) == 2.0 * Round(x)
  {
    hide Round, Distance;
    if x == 0.0 {
      RoundMiddle(0.0);
    } else if x < 4503599627370496.0 {
      RoundSmall(x);
    } else {
      RoundLarge(2.0 * x);
    }
  }

  /** What has been rounded is a double. */
  lemma {:induction false} RoundedIsDouble(x: real)
    requires x >= 0.0
    ensures IsDouble(Round(x))
    decreases Distance(x)
  {
    hide Round, Distance, NearestEven;
    if 0.0 < x < 4503599627370496.0 {
      RoundSmall(x);
      RoundedIsDouble(2.0 * x);
      RoundDoubles(Round(x));
    } else if x >= 9007199254740992.0 {
      RoundLarge(x);
      RoundedIsDouble(x / 2.0);
      RoundDoubles(Round(x / 2.0));
    } else if x == 0.0 {
      RoundMiddle(0.0);
    } else {
      RoundMiddle(x);
      NearestBetween(x, 4503599627370496);
      NearestBetween(x, 9007199254740992);
      RoundWhole(NearestEven(x));
    }
  }

  // ----- relative error -----

  /** 2^53 + n and 2^53 - n. */
  function Above(n: int): real {
    9007199254740992.0 + n as real
  }

  function Below(n: int): real {
    9007199254740992.0 - n as real
  }

  /** r <= x f / 2^53 and r >= x f / 2^53. */
  predicate Under(r: real, f: real, x: real) {
    9007199254740992.0 * r <= f * x
  }

  predicate Over(r: real, f: real, x: real) {
    9007199254740992.0 * r >= f * x
  }

  /** r is x up to n parts in 2^53. */
  predicate Within(r: real, x: real, n: int) {
    Over(r, Below(n), x) && Under(r, Above(n), x)
  }

  // products of reals, one step at a time

  lemma RealAtMost(p: real, x: real, y: real)
    requires p >= 0.0 && x <= y
    ensures p * x <= p * y
  {
  }

  lemma Widen(x: real, f: real, g: real)
    requires x >= 0.0 && f <= g
    ensures f * x <= g * x
  {
  }

  lemma RealCommutes(x: real, y: real)
    ensures x * y == y * x
  {
  }

  lemma RealAssociates(x: real, y: real, z: real)
    ensures x * (y * z) == (x * y) * z
  {
  }

  lemma RealRegroup(f: real, x: real, g: real, y: real)
    ensures (f * x) * (g * y) == (f * g) * (x * y)
  {
  }

  lemma PositiveProduct(x: real, y: real)
    requires x > 0.0 && y > 0.0
    ensures x * y > 0.0
  {
  }

  lemma CancelReal(c: real, x: real, y: real)
    requires c > 0.0 && c * x <= c * y
    ensures x <= y
  {
    if x > y {
      PositiveProduct(c, x - y);
    }
  }

  lemma BoundsMultiply(a: real, b: real, c: real, d: real)
    requires 0.0 <= a <= b && 0.0 <= c <= d
    ensures a * c <= b * d
  {
    RealAtMost(a, c, d);
    Widen(d, a, b);
  }

  lemma SumsMultiply(v: real, w: real)
    ensures (9007199254740992.0 + v) * (9007199254740992.0 + w)
         == 9007199254740992.0 * (9007199254740992.0 + v + w) + v * w
    ensures (9007199254740992.0 - v) * (9007199254740992.0 - w)
         == 9007199254740992.0 * (9007199254740992.0 - v - w) + v * w
    ensures (9007199254740992.0 + v) * (9007199254740992.0 - w)
         == 9007199254740992.0 * (9007199254740992.0 + v - w) - v * w
    ensures (9007199254740992.0 - v) * (9007199254740992.0 + w)
         == 9007199254740992.0 * (9007199254740992.0 - v + w) - v * w
  {
  }

  lemma SmallProduct(v: real, w: real)
    requires 0.0 <= v <= 200.0 && 0.0 <= w <= 200.0
    ensures 0.0 <= v * w <= 40000.0
  {
    BoundsMultiply(v, 200.0, w, 200.0);
    BoundsMultiply(0.0, v, 0.0, w);
  }

  /** Errors of two factors add up, with one to spare. */
  lemma FactorsMultiply(m: nat, n: nat)
    requires m <= 64 && n <= 64
    ensures Over(Above(m + n + 1), Above(m), Above(n))
    ensures Under(Below(m + n + 1), Below(m), Below(n))
    ensures Under(Above(m), Above(m + n + 1), Below(n))
    ensures Over(Below(m), Below(m + n + 1), Above(n))
  {
    var v, w, t := m as real, n as real, (m + n + 1) as real;
    SmallProduct(v, w);
    SmallProduct(t, w);
    SumsMultiply(v, w);
    SumsMultiply(t, w);
    assert t == v + w + 1.0;
  }

  lemma FactorRange(n: nat)
    requires n <= 200
    ensures 4503599627370496.0 <= Below(n) <= 9007199254740992.0 <= Above(n) <= 18014398509481984.0
  {
  }

  lemma WithinPositive(r: real, x: real, n: nat)
    requires Within(r, x, n) && n <= 200 && x >= 0.0
    ensures x <= 2.0 * r
  {
    hide Above, Below;
    FactorRange(n);
    Widen(x, 4503599627370496.0, Below(n));
  }

  /** Bounds with factors f and g, taken after each other, give the bound h with f g <= 2^53 h. */
  lemma UpThrough(s: real, f: real, r: real, g: real, x: real, h: real)
    requires x >= 0.0 && f >= 0.0
    requires Under(s, f, r) && Under(r, g, x) && Over(h, f, g)
    ensures Under(s, h, x)
  {
    RealAtMost(f, 9007199254740992.0 * r, g * x);
    RealAssociates(f, g, x);
    Widen(x, f * g, 9007199254740992.0 * h);
    LiteralThrough(f, r);
    LiteralAssociates(h, x);
  }

  lemma DownThrough(s: real, f: real, r: real, g: real, x: real, h: real)
    requires x >= 0.0 && f >= 0.0
    requires Over(s, f, r) && Over(r, g, x) && Under(h, f, g)
    ensures Over(s, h, x)
  {
    RealAtMost(f, g * x, 9007199254740992.0 * r);
    RealAssociates(f, g, x);
    Widen(x, 9007199254740992.0 * h, f * g);
    LiteralThrough(f, r);
    LiteralAssociates(h, x);
  }

  lemma LiteralThrough(f: real, r: real)
    ensures f * (9007199254740992.0 * r) == 9007199254740992.0 * (f * r)
  {
  }

  lemma LiteralAssociates(h: real, x: real)
    ensures (9007199254740992.0 * h) * x == 9007199254740992.0 * (h * x)
  {
  }

  /** Errors add up along a chain of approximations, with one to spare. */
  lemma WithinThrough(s: real, r: real, m: nat, x: real, n: nat)
    requires x >= 0.0 && m <= 64 && n <= 64
    requires Within(s, r, m) && Within(r, x, n)
    ensures Within(s, x, m + n + 1)
  {
    hide Above, Below, Under, Over;
    FactorRange(m);
    FactorsMultiply(m, n);
    UpThrough(s, Above(m), r, Above(n), x, Above(m + n + 1));
    DownThrough(s, Below(m), r, Below(n), x, Below(m + n + 1));
  }

  lemma WithinRound(r: real, x: real, n: nat)
    requires r >= 0.0 && x >= 0.0 && n <= 64 && Within(r, x, n)
    ensures Within(Round(r), x, n + 2)
  {
    RoundNear(r);
    WithinThrough(Round(r), r, 1, x, n);
  }

  lemma WithinProduct(a: real, x: real, m: nat, b: real, y: real, n: nat, p: real, z: real)
    requires x >= 0.0 && y >= 0.0 && m <= 64 && n <= 64 && p == a * b && z == x * y
    requires Within(a, x, m) && Within(b, y, n)
    ensures Within(p, z, m + n + 1)
  {
    hide Within;
    WithinPositive(a, x, m);
    WithinPositive(b, y, n);
    BoundsMultiply(0.0, x, 0.0, y);
    var middle := x * b;
    RealCommutes(y, x);
    RealCommutes(b, x);
    ScaledWithin(a, x, m, b, p, middle);
    ScaledWithin(b, y, n, x, middle, z);
    WithinThrough(p, middle, m, z, n);
  }

  /** An approximation times a common factor. */
  lemma ScaledWithin(a: real, x: real, m: int, b: real, p: real, z: real)
    requires b >= 0.0 && Within(a, x, m) && p == a * b && z == x * b
    ensures Within(p, z, m)
  {
    hide Above, Below;
    Widen(b, Below(m) * x, 9007199254740992.0 * a);
    Widen(b, 9007199254740992.0 * a, Above(m) * x);
    RealAssociates(Below(m), x, b);
    RealAssociates(Above(m), x, b);
    LiteralAssociates(a, b);
  }

  lemma WithinTurned(b: real, y: real, n: nat)
    requires y >= 0.0 && n <= 64 && Within(b, y, n)
    ensures Within(y, b, n + 1)
  {
    hide Below, Above, Under, Over;
    FactorRange(n);
    FactorRange(n + 1);
    FactorsMultiply(0, n);
    NoError();
    TurnUp(b, y, Below(n), Above(n + 1));
    TurnDown(b, y, Above(n), Below(n + 1));
  }

  lemma NoError()
    ensures Above(0) == 9007199254740992.0 && Below(0) == 9007199254740992.0
  {
  }

  lemma TurnUp(b: real, y: real, f: real, g: real)
    requires y >= 0.0 && g >= 0.0 && Over(b, f, y) && Under(9007199254740992.0, g, f)
    ensures Under(y, g, b)
  {
    RealAtMost(g, f * y, 9007199254740992.0 * b);
    RealAssociates(g, f, y);
    Widen(y, 9007199254740992.0 * 9007199254740992.0, g * f);
    LiteralThrough(g, b);
  }

  lemma TurnDown(b: real, y: real, f: real, g: real)
    requires y >= 0.0 && g >= 0.0 && Under(b, f, y) && Over(9007199254740992.0, g, f)
    ensures Over(y, g, b)
  {
    RealAtMost(g, 9007199254740992.0 * b, f * y);
    RealAssociates(g, f, y);
    Widen(y, g * f, 9007199254740992.0 * 9007199254740992.0);
    LiteralThrough(g, b);
  }

  lemma QuotientTimes(x: real, b: real)
    requires b > 0.0
    ensures (x / b) * b == x
  {
  }

  lemma ProductIsQuotient(a: real, c: real, b: real)
    requires b > 0.0 && c * b == 1.0
    ensures a * c == a / b
  {
    QuotientTimes(a, b);
    RealAssociates(a, c, b);
    EqualProducts(b, a * c, a / b);
  }

  lemma EqualProducts(b: real, x: real, y: real)
    requires b > 0.0 && x * b == y * b
    ensures x == y
  {
    RealCommutes(x, b);
    RealCommutes(y, b);
    CancelReal(b, x, y);
    CancelReal(b, y, x);
  }

  lemma Inverse(b: real) returns (c: real)
    requires b > 0.0
    ensures c > 0.0 && c * b == 1.0
  {
    c := 1.0 / b;
    QuotientTimes(1.0, b);
  }

  /** Within(a / b, x / b). */
  lemma WithinShare(a: real, x: real, m: nat, b: real)
    requires b > 0.0 && Within(a, x, m)
    ensures Within(a / b, x / b, m)
  {
    hide Within;
    var c := Inverse(b);
    ProductIsQuotient(a, c, b);
    ProductIsQuotient(x, c, b);
    ScaledWithin(a, x, m, c, a / b, x / b);
  }

  /** Within(x / b, x / y). */
  lemma WithinDivisor(x: real, b: real, y: real, n: nat)
    requires x >= 0.0 && y > 0.0 && b > 0.0 && n <= 60 && Within(b, y, n)
    ensures Within(x / b, x / y, n + 1)
  {
    hide Within;
    var q := x / y;
    var c := Inverse(b);
    QuotientTimes(x, y);
    QuotientSign(x, y);
    WithinTurned(b, y, n);
    ProductIsQuotient(x, c, b);
    var r := x / b;
    assert r == (q * y) * c;
    RescaledWithin(y, b, n + 1, q, c, r);
  }

  lemma RescaledWithin(y: real, b: real, n: nat, q: real, c: real, r: real)
    requires Within(y, b, n) && q >= 0.0 && c >= 0.0 && c * b == 1.0 && r == (q * y) * c
    ensures Within(r, q, n)
  {
    hide Within;
    var yq, bq := y * q, b * q;
    ScaledWithin(y, b, n, q, yq, bq);
    assert r == yq * c by {
      RealCommutes(y, q);
    }
    assert q == bq * c by {
      RealRegroup(b, q, c, 1.0);
      RealCommutes(b, c);
    }
    ScaledWithin(yq, bq, n, c, r, q);
  }

  lemma QuotientSign(x: real, y: real)
    requires x >= 0.0 && y > 0.0
    ensures x / y >= 0.0
  {
  }

  lemma WithinQuotient(a: real, x: real, m: nat, b: real, y: real, n: nat)
    requires x >= 0.0 && y > 0.0 && b > 0.0 && m <= 60 && n <= 60
    requires Within(a, x, m) && Within(b, y, n)
    ensures Within(a / b, x / y, m + n + 2)
  {
    hide Within;
    WithinShare(a, x, m, b);
    WithinDivisor(x, b, y, n);
    WithinThrough(a / b, x / b, m, x / y, n + 1);
  }

  // ----- whole numbers from doubles -----

  /** q is a / b, rounded down, up to one part in 2^49. */
  predicate NearQuotient(q: int, a: int, b: int) {
    562949953421312 * (q * b) <= 562949953421313 * a && 562949953421311 * a < 562949953421312 * ((q + 1) * b)
  }

  lemma {:induction false} RealOfProduct(a: nat, b: int)
    ensures (a * b) as real == (a as real) * (b as real)
  {
    if a > 0 {
      RealOfProduct(a - 1, b);
      SuccessorTimes(a - 1, b);
      var x, y := (a - 1) as real, b as real;
      assert (x + 1.0) * y == x * y + y;
    }
  }

  lemma ScaleBoth(c: real, u: real, d: real, v: real, y: real, uy: real, vy: real)
    requires y >= 0.0 && c * u <= d * v && uy == u * y && vy == v * y
    ensures c * uy <= d * vy
  {
    Widen(y, c * u, d * v);
    RealAssociates(c, u, y);
    RealAssociates(d, v, y);
  }

  lemma ScaleBothStrictly(c: real, u: real, d: real, v: real, y: real, uy: real, vy: real)
    requires y > 0.0 && c * u < d * v && uy == u * y && vy == v * y
    ensures c * uy < d * vy
  {
    PositiveProduct(d * v - c * u, y);
    RealAssociates(c, u, y);
    RealAssociates(d, v, y);
  }

  /** A number between wholes, as an approximation of a / b. */
  lemma BetweenNear(p: real, q: int, a: nat, b: nat)
    requires b > 0 && Within(p, a as real / b as real, 16) && q as real <= p
    ensures 562949953421312 * (q * b) <= 562949953421313 * a
  {
    var x: real, y: real, low: real := a as real / b as real, b as real, q as real;
    var t := q * b;
    QuotientTimes(a as real, y);
    RealOfProduct(b, q);
    MulCommutes(q, b);
    RealCommutes(low, y);
    ScaleBoth(562949953421312.0, low, 562949953421313.0, x, y, t as real, a as real);
  }

  lemma BelowNear(p: real, q: int, a: nat, b: nat)
    requires b > 0 && Within(p, a as real / b as real, 16) && p < q as real
    ensures 562949953421311 * a < 562949953421312 * (q * b)
  {
    var x: real, y: real, high: real := a as real / b as real, b as real, q as real;
    var t := q * b;
    QuotientTimes(a as real, y);
    RealOfProduct(b, q);
    MulCommutes(q, b);
    RealCommutes(high, y);
    ScaleBothStrictly(562949953421311.0, x, 562949953421312.0, high, y, a as real, t as real);
  }

  lemma WithinMore(r: real, x: real, m: nat, n: nat)
    requires x >= 0.0 && m <= n && Within(r, x, m)
    ensures Within(r, x, n)
  {
    Widen(x, Above(m), Above(n));
    Widen(x, Below(n), Below(m));
  }

  lemma QuotientOfProduct(a: real, b: real, c: real, ac: real)
    requires b > 0.0 && ac == a * c
    ensures (a / b) * c == ac / b
  {
    var q, p := a / b, ac / b;
    var qc := q * c;
    QuotientTimes(a, b);
    QuotientTimes(ac, b);
    RealRegroup(q, c, b, 1.0);
    EqualProducts(b, qc, p);
  }

  /** The integer part of a double that approximates a / b. */
  lemma FloorNear(p: real, a: nat, b: nat)
    requires b > 0 && Within(p, a as real / b as real, 16)
    ensures NearQuotient(p.Floor, a, b)
  {
    BetweenNear(p, p.Floor, a, b);
    BelowNear(p, p.Floor + 1, a, b);
  }

  // ----- operations and conversions -----

  /** The product of two doubles. */
  function Product(a: real, b: real): (p: real)
    requires a >= 0.0 && b >= 0.0
    ensures p >= 0.0
  {
    BoundsMultiply(0.0, a, 0.0, b);
    Round(a * b)
  }

  /** Their quotient. */
  function Quotient(a: real, b: real): (q: real)
    requires a >= 0.0 && b > 0.0
    ensures q >= 0.0
  {
    QuotientSign(a, b);
    Round(a / b)
  }

  lemma ProductRounds(a: real, b: real, p: real)
    requires a >= 0.0 && b >= 0.0 && p == a * b
    ensures Product(a, b) == Round(p)
  {
    hide Round;
  }

  lemma ProductAtLeastOne(a: real, b: real)
    requires a >= 1.0 && b >= 1.0
    ensures Product(a, b) >= 1.0
  {
    hide Round, Product;
    var p := a * b;
    ProductRounds(a, b, p);
    BoundsMultiply(1.0, a, 1.0, b);
    RoundAtLeast(p, 1);
  }

  /** Conversions, products and quotients are doubles. */
  lemma OperationsRound(x: nat, a: real, b: real)
    requires a >= 0.0 && b > 0.0
    ensures IsDouble(DoubleOf(x)) && IsDouble(Product(a, b)) && IsDouble(Quotient(a, b))
  {
    hide Round, IsDouble;
    RoundedIsDouble(x as real);
    var p := a * b;
    BoundsMultiply(0.0, a, 0.0, b);
    RoundedIsDouble(p);
    QuotientSign(a, b);
    RoundedIsDouble(a / b);
  }

  /** A whole double times at least one half is at least half of it, rounded down. */
  lemma ProductAtLeastHalf(k: nat, f: real)
    requires k <= 0x20_0000_0000_0000 && f >= 0.5
    ensures Product(k as real, f) >= (k / 2) as real
  {
    hide Round, Product;
    var x := k as real;
    var p := x * f;
    ProductRounds(x, f, p);
    RealAtMost(x, 0.5, f);
    BoundsMultiply(0.0, x, 0.0, f);
    RoundAtLeast(p, k / 2);
  }

  lemma ProductNear(a: real, x: real, m: nat, b: real, y: real, n: nat, z: real)
    requires a >= 0.0 && b >= 0.0 && x >= 0.0 && y >= 0.0 && m + n <= 60 && z == x * y
    requires Within(a, x, m) && Within(b, y, n)
    ensures Within(Product(a, b), z, m + n + 3)
  {
    hide Within, Round, Product;
    BoundsMultiply(0.0, a, 0.0, b);
    BoundsMultiply(0.0, x, 0.0, y);
    var p := a * b;
    ProductRounds(a, b, p);
    WithinProduct(a, x, m, b, y, n, p, z);
    WithinRound(p, z, m + n + 1);
  }

  lemma QuotientNear(a: real, x: real, m: nat, b: real, y: real, n: nat)
    requires a >= 0.0 && b > 0.0 && x >= 0.0 && y > 0.0 && m + n <= 60
    requires Within(a, x, m) && Within(b, y, n)
    ensures Within(Quotient(a, b), x / y, m + n + 4)
  {
    hide Within, Round;
    QuotientSign(a, b);
    QuotientSign(x, y);
    WithinQuotient(a, x, m, b, y, n);
    WithinRound(a / b, x / y, m + n + 2);
  }

  /** `static_cast<double>` of a word. */
  function DoubleOf(x: nat): (d: real)
    ensures d >= 0.0
  {
    Round(x as real)
  }

  lemma DoubleOfNear(x: nat)
    ensures Within(DoubleOf(x), x as real, 1)
    ensures x >= 1 ==> DoubleOf(x) >= 1.0
    ensures x <= 0x20_0000_0000_0000 ==> DoubleOf(x) == x as real
  {
    hide Round;
    RoundNear(x as real);
    if x >= 1 {
      RoundAtLeast(x as real, 1);
    }
    if x <= 0x20_0000_0000_0000 {
      RoundWhole(x);
    }
  }

  /** Past 2^53 only every second word is a double: the odd ones go to a neighbour divisible by four. */
  lemma OddWordsRound()
    ensures DoubleOf(0x20_0000_0000_0001) == 9007199254740992.0
    ensures DoubleOf(0x20_0000_0000_0003) == 9007199254740996.0
  {
    hide Round, NearestEven;
    TiesToEven(4503599627370496);
    TiesToEven(4503599627370497);
    RoundLarge(9007199254740993.0);
    RoundLarge(9007199254740995.0);
    RoundMiddle(4503599627370496.5);
    RoundMiddle(4503599627370497.5);
  }

  /** What the platform makes of a value that no word can hold; the language leaves it undefined,
      and nothing is known of it here. */
  const OutOfRange: real -> u64

  /** The integer part of the double fits in 64 bits. */
  predicate InWord(x: real) {
    x < 18446744073709551616.0
  }

  /** `static_cast<uint64_t>` of a double. */
  function CastToU64(x: real): u64
    requires x >= 0.0
  {
    if InWord(x) then x.Floor else OutOfRange(x)
  }

  // ----- rounding at a known exponent -----

  /** For 2^52 <= 2^k x < 2^53 rounding is to the nearest multiple of 2^-k. */
  lemma {:induction false} RoundAt(x: real, k: nat, y: real)
    requires 4503599627370496.0 <= y < 9007199254740992.0 && x >= 0.0 && y == x * (Pow(2, k) as real)
    ensures Round(x) * (Pow(2, k) as real) == NearestEven(y) as real
    decreases k
  {
    hide Round, NearestEven;
    if k == 0 {
      RoundMiddle(x);
    } else {
      var p: real, twice: real, r: real := Pow(2, k - 1) as real, 2.0 * x, Round(2.0 * x);
      assert Pow(2, k) as real == 2.0 * p;
      PowPositive(2, k - 1);
      TimesTwo(x, p);
      if x == 0.0 {
        assert false;
      }
      HalfTooSmall(x, p, y);
      RoundAt(twice, k - 1, y);
      RoundSmall(x);
      TimesTwo(r / 2.0, p);
    }
  }

  /** And for 2^52 <= x / 2^k < 2^53 to the nearest multiple of 2^k. */
  lemma {:induction false} RoundAtLarge(x: real, k: nat, y: real)
    requires 4503599627370496.0 <= y < 9007199254740992.0 && x >= 0.0 && x == y * (Pow(2, k) as real)
    ensures Round(x) == (NearestEven(y) as real) * (Pow(2, k) as real)
    decreases k
  {
    hide Round, NearestEven;
    if k == 0 {
      RoundMiddle(x);
    } else {
      var p: real, half: real, n: real := Pow(2, k - 1) as real, x / 2.0, NearestEven(y) as real;
      assert Pow(2, k) as real == 2.0 * p;
      PowPositive(2, k - 1);
      TimesTwo(y, p);
      RealAssociates(2.0, y, p);
      RoundAtLarge(half, k - 1, y);
      DoubleTooLarge(x, p, y);
      RoundLarge(x);
      TimesTwo(n, p);
      RealAssociates(2.0, n, p);
    }
  }

  lemma DoubleTooLarge(x: real, p: real, y: real)
    requires p >= 1.0 && y >= 4503599627370496.0 && x == y * (2.0 * p)
    ensures x >= 9007199254740992.0
  {
    TimesTwo(y, p);
    RealAtMost(2.0 * y, 1.0, p);
  }

  lemma TimesTwo(x: real, p: real)
    ensures x * (2.0 * p) == (2.0 * x) * p
  {
  }

  lemma HalfTooSmall(x: real, p: real, y: real)
    requires x > 0.0 && p >= 1.0 && y == (2.0 * x) * p && y < 9007199254740992.0
    ensures x < 4503599627370496.0
  {
    RealAtMost(2.0 * x, 1.0, p);
  }
}
