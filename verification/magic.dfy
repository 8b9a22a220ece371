/** The arithmetic behind signed division by a constant through a
    "magic" multiplier (Hacker's Delight, chapter 10, signed case): for a
    divisor 2 <= d < 2^31, a shift p >= 32 and m with m*d = 2^p + e, where
    e = d - 2^p mod d and 2^p > nc*e, the high part of m*n shifted by p - 32
    is the quotient of n by d, rounded down for n >= 0 and one less than
    the truncated quotient for n < 0. */
module Magic {
  import opened Int32

  /** Hacker's Delight `nc`: the largest n < 2^31 with n mod d = d - 1. */
  function Nc(d: int): int
    requires 1 <= d
  {
    Half - Half % d - 1
  }

  /** What 2^p lacks of the next multiple of d (d itself when 2^p is one). */
  function Excess(d: int, p: nat): int
    requires 1 <= d
  {
    d - Pow2(p) % d
  }

  /** The relation `chooseMultiplier` establishes between divisor,
      multiplier and shift. */
  ghost predicate IsMagic(d: int, m: int, p: nat)
  {
    && 2 <= d < Half && 32 <= p
    && m * d == Pow2(p) + Excess(d, p)
    && Pow2(p) > Nc(d) * Excess(d, p)
  }

  lemma NcFacts(d: int)
    requires 2 <= d < Half
    ensures (Nc(d) + 1) % d == 0
    ensures d - 1 <= Nc(d) < Half
    ensures Nc(d) + 1 + Half % d == Half
  {
    var k := Half / d;
    DivMod(Half, d);
    assert Nc(d) + 1 == d * k;
    if k <= 0 {
      MulNonPos(d, k);
    }
    MulAtLeast(k, d);
    ModOfMultiple(d, k);
  }

  lemma ExcessFacts(d: int, p: nat)
    requires 2 <= d
    ensures 1 <= Excess(d, p) <= d
    ensures (Pow2(p) + Excess(d, p)) % d == 0
  {
    var P := Pow2(p);
    DivMod(P, d);
    assert P + Excess(d, p) == d * (P / d + 1);
    ModOfMultiple(d, P / d + 1);
  }

  lemma DivMod(x: int, b: int)
    requires b > 0
    ensures x == b * (x / b) + x % b && 0 <= x % b < b
  {
  }

  lemma MulAtLeast(k: int, b: int)
    requires k >= 1 && b >= 0
    ensures k * b >= b
  {
    assert k * b - b == (k - 1) * b;
  }

  lemma MulNonPos(b: int, k: int)
    requires b >= 0 && k <= 0
    ensures b * k <= 0
  {
    assert b * k == -(b * -k);
  }

  /** Floor division recognised from its bounds. */
  lemma DivByBounds(x: int, b: int, q: int)
    requires b > 0 && q * b <= x < q * b + b
    ensures x / b == q
  {
    var q' := x / b;
    DivMod(x, b);
    assert (q' - q) * b == x - x % b - q * b;
    if q' > q {
      MulAtLeast(q' - q, b);
    } else if q' < q {
      MulAtLeast(q - q', b);
    }
  }

  lemma ModOfMultiple(d: int, k: int)
    requires d > 0
    ensures (d * k) % d == 0 && (d * k) / d == k
  {
    DivByBounds(d * k, d, k);
    DivMod(d * k, d);
  }

  /** Cancelling a positive factor from bounds. */
  lemma Unscale(d: int, x: int, t: int, b: int)
    requires d > 0 && d * x == t && 0 <= t < d * b
    ensures 0 <= x < b
  {
  }

  /** The identity both cases rest on: with n = q*d + r, d*(m*n - q*2^p) is
      2^p*r + e*n. */
  lemma Residue(d: int, m: int, pp: int, e: int, n: int, q: int, r: int)
    requires m * d == pp + e && n == q * d + r
    ensures d * (m * n - q * pp) == pp * r + e * n
  {
    calc {
      d * (m * n - q * pp);
      (m * d) * n - d * q * pp;
      (pp + e) * n - d * q * pp;
      pp * n + e * n - d * q * pp;
      pp * (q * d + r) + e * n - d * q * pp;
      pp * r + e * n;
    }
  }

  lemma MulLe(c: int, a: int, b: int)
    requires a <= b && c >= 0
    ensures c * a <= c * b
  {
    assert c * b - c * a == c * (b - a);
  }

  lemma MulRotate(a: int, b: int, c: int)
    ensures (a * b) * c == a * (c * b)
  {
  }

  /** The residue of k*d + j for 0 <= j < d is j. */
  lemma ModAfterMultiple(d: int, k: int, j: int)
    requires 0 <= j < d
    ensures (d * k + j) % d == j && (d * k + j) / d == k
  {
    DivByBounds(d * k + j, d, k);
    DivMod(d * k + j, d);
  }

  /** A multiple of d strictly between -d and d is 0. */
  lemma SmallMultiple(d: int, j: int)
    requires d > 0 && -d < d * j < d
    ensures j == 0
  {
    if j >= 1 {
      MulAtLeast(j, d);
    } else if j <= -1 {
      MulAtLeast(-j, d);
    }
  }

  /** The facts about nc, e and 2^p the two cases use, with the powers
      abstracted away. */
  predicate Slack(d: int, pp: int, e: int, nc: int, rem: int)
  {
    && 2 <= d && 1 <= e <= d && d <= pp
    && e * nc < pp
    && d - 1 <= nc && (nc + 1) % d == 0
    && 0 <= rem < d && nc + 1 + rem == Half
  }

  lemma SlackOf(d: int, m: int, p: nat)
    requires IsMagic(d, m, p)
    ensures Slack(d, Pow2(p), Excess(d, p), Nc(d), Half % d)
  {
    NcFacts(d);
    ExcessFacts(d, p);
    Pow2Monotone(32, p);
    Pow2Constants();
  }

  /** For 0 <= n < 2^31: e*n < 2^p*(d - n mod d). */
  lemma NonNegSlack(d: int, pp: int, e: int, nc: int, rem: int, n: int)
    requires Slack(d, pp, e, nc, rem) && 0 <= n < Half
    ensures e * n < pp * (d - n % d)
  {
    DivMod(n, d);
    if n <= nc {
      SlackLow(d, pp, e, nc, rem, n, n % d);
    } else {
      SlackHigh(d, pp, e, nc, rem, n);
    }
  }

  /** Up to nc, e*n stays below 2^p, hence below 2^p times any positive
      factor. */
  lemma SlackLow(d: int, pp: int, e: int, nc: int, rem: int, n: int, r: int)
    requires Slack(d, pp, e, nc, rem) && 0 <= n <= nc && 0 <= r < d
    ensures e * n < pp * (d - r)
  {
    MulLe(e, n, nc);
    MulAtLeast(d - r, pp);
    assert pp <= (d - r) * pp;
  }

  /** Past nc, n is the multiple nc + 1 of d plus some j < rem, so the
      slack of one more multiple of 2^p covers e*(1 + j). */
  lemma SlackHigh(d: int, pp: int, e: int, nc: int, rem: int, n: int)
    requires Slack(d, pp, e, nc, rem) && nc < n < Half
    ensures e * n < pp * (d - n % d)
  {
    var j := n - (nc + 1);
    var k := (nc + 1) / d;
    DivMod(nc + 1, d);
    assert nc + 1 == d * k;
    ModAfterMultiple(d, k, j);
    assert n % d == j && j < rem && 1 + j <= nc;
    Distribute(e, nc, 1 + j);
    MulLe(e, 1 + j, nc);
    MulAtLeast(d - j - 1, pp);
    Distribute(pp, 1, d - j - 1);
  }

  lemma Distribute(c: int, a: int, b: int)
    ensures c * (a + b) == c * a + c * b
  {
  }

  /** When 2^31 mod d = d - 1, e*2^31 <= 2^p: 2^p + 2^(p-31) is a multiple
      of d, as is 2^p + e, so e is 2^(p-31) or d <= 2^(p-31). */
  lemma HalfCase(d: int, p: nat)
    requires 2 <= d < Half && 32 <= p && Half % d == d - 1
    ensures Excess(d, p) * Half <= Pow2(p)
  {
    var P := Pow2(p);
    HalfPow(p);
    HalfPlusOne(d);
    ExcessMultiple(d, p);
    HalfCaseArith(d, P, Pow2(p - 31), Excess(d, p), Half / d, P / d + 1);
  }

  lemma HalfPow(p: nat)
    requires 32 <= p
    ensures Pow2(p) == Half * Pow2(p - 31) && Pow2(p - 31) >= 2
  {
    Pow2Add(31, p - 31);
    Pow2Constants();
    Pow2Monotone(1, p - 31);
  }

  lemma HalfPlusOne(d: int)
    requires 2 <= d < Half && Half % d == d - 1
    ensures Half + 1 == d * (Half / d + 1)
  {
    DivMod(Half, d);
    assert d * (Half / d + 1) == d * (Half / d) + d;
  }

  lemma ExcessMultiple(d: int, p: nat)
    requires 2 <= d
    ensures Pow2(p) + Excess(d, p) == d * (Pow2(p) / d + 1) && 1 <= Excess(d, p) <= d
  {
    var P := Pow2(p);
    ExcessFacts(d, p);
    DivMod(P, d);
    assert d * (P / d + 1) == d * (P / d) + d;
  }

  lemma HalfCaseArith(d: int, P: int, t: int, e: int, k: int, u: int)
    requires 2 <= d && P == Half * t && 2 <= t
    requires Half + 1 == d * (k + 1) && P + e == d * u && 1 <= e <= d
    ensures e * Half <= P
  {
    SumMultiple(d, k, t, P);
    if t < d {
      SameResidue(d, P, e, t, u, t * (k + 1));
    }
    MulLe(Half, e, t);
  }

  lemma SumMultiple(d: int, k: int, t: int, P: int)
    requires Half + 1 == d * (k + 1) && P == Half * t
    ensures P + t == d * (t * (k + 1))
  {
    assert P + t == (Half + 1) * t;
    MulRotate(d, k + 1, t);
  }

  /** Two numbers in [1, d] that differ by a multiple of d are equal. */
  lemma SameResidue(d: int, P: int, e: int, t: int, u: int, v: int)
    requires P + e == d * u && P + t == d * v && 1 <= e <= d && 1 <= t < d
    ensures e == t
  {
    assert e - t == d * (u - v);
    SmallMultiple(d, u - v);
  }

  /** For -2^31 <= n < 0, with a = -n: e*a <= 2^p*(d - a mod d). The
      case a = 2^31 with 2^31 mod d = d - 1 needs `HalfCase`. */
  lemma NegSlack(d: int, pp: int, e: int, nc: int, rem: int, a: int)
    requires Slack(d, pp, e, nc, rem) && 1 <= a <= Half
    requires rem == d - 1 ==> e * Half <= pp
    ensures e * a <= pp * (d - a % d)
  {
    DivMod(a, d);
    DivMod(nc + 1, d);
    if a <= nc + 1 {
      NegSlackLow(d, pp, e, nc, rem, a);
    } else {
      var j := a - (nc + 1);
      ModAfterMultiple(d, (nc + 1) / d, j);
      NegSlackHigh(d, pp, e, nc, rem, a, j);
    }
  }

  lemma NegSlackLow(d: int, pp: int, e: int, nc: int, rem: int, a: int)
    requires Slack(d, pp, e, nc, rem) && 1 <= a <= nc + 1
    ensures e * a <= pp * (d - a % d)
  {
    DivMod(a, d);
    if a % d <= d - 2 {
      NegSlackMid(d, pp, e, nc, a, a % d);
    } else {
      DivMod(nc + 1, d);
      ModAfterMultiple(d, (nc + 1) / d, 0);
      NegSlackTop(d, pp, e, nc, a);
    }
  }

  lemma NegSlackMid(d: int, pp: int, e: int, nc: int, a: int, r: int)
    requires 1 <= e <= d <= pp && e * nc < pp && 1 <= a <= nc + 1 && 0 <= r <= d - 2
    ensures e * a <= pp * (d - r)
  {
    MulLe(e, a, nc + 1);
    MulAtLeast(d - r - 1, pp);
    assert pp * (d - r) == pp + (d - r - 1) * pp;
  }

  lemma NegSlackTop(d: int, pp: int, e: int, nc: int, a: int)
    requires 1 <= d && 1 <= e && e * nc < pp && 1 <= a <= nc && a % d == d - 1
    ensures e * a <= pp * (d - a % d)
  {
    MulLe(e, a, nc);
  }

  lemma NegSlackHigh(d: int, pp: int, e: int, nc: int, rem: int, a: int, j: int)
    requires Slack(d, pp, e, nc, rem) && nc + 1 < a <= Half
    requires rem == d - 1 ==> e * Half <= pp
    requires j == a - (nc + 1) && a % d == j
    ensures e * a <= pp * (d - a % d)
  {
    if j <= d - 2 {
      assert e * a == e * nc + e * (1 + j);
      MulLe(e, 1 + j, nc);
      MulAtLeast(d - j - 1, pp);
      assert pp * (d - j) == pp + (d - j - 1) * pp;
    } else {
      assert a == Half;
      assert pp * (d - j) == pp;
    }
  }

  /** Cancelling a positive factor from bounds, strict below. */
  lemma UnscalePos(d: int, x: int, t: int, b: int)
    requires d > 0 && d * x == t && 0 < t <= d * b
    ensures 0 < x <= b
  {
    if x <= 0 {
      MulNonPos(d, x);
    }
    if x > b {
      MulLe(d, b + 1, x);
    }
  }

  /** For 0 <= n < 2^31: floor(m*n / 2^p) = floor(n / d). */
  lemma MagicNonNeg(d: int, m: int, p: nat, n: int)
    requires IsMagic(d, m, p) && 0 <= n < Half
    ensures (m * n) / Pow2(p) == n / d
  {
    SlackOf(d, m, p);
    NonNegCore(d, m, Pow2(p), Excess(d, p), Nc(d), Half % d, n);
  }

  lemma NonNegCore(d: int, m: int, pp: int, e: int, nc: int, rem: int, n: int)
    requires Slack(d, pp, e, nc, rem) && m * d == pp + e && 0 <= n < Half
    ensures (m * n) / pp == n / d
  {
    var q, r := n / d, n % d;
    DivMod(n, d);
    NonNegSlack(d, pp, e, nc, rem, n);
    Residue(d, m, pp, e, n, q, r);
    NonNegBounds(d, pp, e, n, r, m * n - q * pp);
    DivByBounds(m * n, pp, q);
  }

  lemma NonNegBounds(d: int, pp: int, e: int, n: int, r: int, x: int)
    requires d > 0 && pp > 0 && e >= 0 && n >= 0 && 0 <= r < d
    requires d * x == pp * r + e * n && e * n < pp * (d - r)
    ensures 0 <= x < pp
  {
    var t := pp * r + e * n;
    assert pp * (d - r) == d * pp - pp * r;
    MulLe(pp, 0, r);
    MulLe(e, 0, n);
    Unscale(d, x, t, pp);
  }

  /** For -2^31 <= n < 0: floor(m*n / 2^p) + 1 is n / d rounded toward zero. */
  lemma MagicNeg(d: int, m: int, p: nat, n: int)
    requires IsMagic(d, m, p) && -Half <= n < 0
    ensures (m * n) / Pow2(p) + 1 == TDiv(n, d)
  {
    SlackOf(d, m, p);
    if Half % d == d - 1 {
      HalfCase(d, p);
    }
    NegCore(d, m, Pow2(p), Excess(d, p), Nc(d), Half % d, n);
    TDivNeg(n, d);
  }

  /** Truncating division of a negative by a positive number. */
  lemma TDivNeg(n: int, d: int)
    requires n < 0 < d
    ensures TDiv(n, d) == -((-n) / d)
  {
  }

  lemma NegCore(d: int, m: int, pp: int, e: int, nc: int, rem: int, n: int)
    requires Slack(d, pp, e, nc, rem) && m * d == pp + e && -Half <= n < 0
    requires rem == d - 1 ==> e * Half <= pp
    ensures (m * n) / pp == -((-n) / d) - 1
  {
    var a := -n;
    var q, r := a / d, a % d;
    DivMod(a, d);
    NegSlack(d, pp, e, nc, rem, a);
    Residue(d, m, pp, e, a, q, r);
    NegBounds(d, pp, e, a, r, m * a - q * pp);
    NegFinish(m, a, pp, q);
  }

  lemma NegFinish(m: int, a: int, pp: int, q: int)
    requires pp > 0 && 0 < m * a - q * pp <= pp
    ensures (m * -a) / pp == -q - 1
  {
    assert m * -a == -(m * a);
    assert (-q - 1) * pp == -(q * pp) - pp;
    DivByBounds(m * -a, pp, -q - 1);
  }

  lemma NegBounds(d: int, pp: int, e: int, a: int, r: int, x: int)
    requires d > 0 && pp > 0 && e >= 1 && a >= 1 && 0 <= r < d
    requires d * x == pp * r + e * a && e * a <= pp * (d - r)
    ensures 0 < x <= pp
  {
    var t := pp * r + e * a;
    assert pp * (d - r) == d * pp - pp * r;
    MulLe(pp, 0, r);
    MulAtLeast(a, e);
    UnscalePos(d, x, t, pp);
  }

  /** Nested floor division: (x / a) / b = x / (a * b) for positive a, b. */
  lemma DivDiv(x: int, a: int, b: int)
    requires a > 0 && b > 0
    ensures (x / a) / b == x / (a * b)
  {
    var q1 := x / a;
    var q2 := q1 / b;
    DivMod(x, a);
    DivMod(q1, b);
    assert x == a * (b * q2 + q1 % b) + x % a;
    assert a * (b * q2 + q1 % b) == (a * b) * q2 + a * (q1 % b);
    MulLe(a, q1 % b, b - 1);
    assert a * (b - 1) == a * b - a;
    DivByBounds(x, a * b, q2);
  }

  /** The multiplier fits in 32 unsigned bits: at p = 32 because d >= 2,
      beyond because the previous shift failed the test. */
  lemma MultiplierBound(d: int, m: int, p: nat)
    requires IsMagic(d, m, p)
    requires p > 32 ==> Pow2(p - 1) <= Nc(d) * Excess(d, p - 1)
    ensures 0 < m < Modulus
  {
    var P, e := Pow2(p), Excess(d, p);
    ExcessFacts(d, p);
    NcFacts(d);
    Pow2Constants();
    if p == 32 {
      MulAtLeast(d, Modulus);
      assert P + e < Modulus * d;
    } else {
      ExcessFacts(d, p - 1);
      MulLe(Nc(d), Excess(d, p - 1), d);
      MulLe(d, Nc(d), Half - 1);
      assert P == 2 * Pow2(p - 1);
      assert P + e < Modulus * d;
    }
    assert m * d < Modulus * d;
    if m >= Modulus {
      MulLe(d, Modulus, m);
    }
    if m <= 0 {
      MulNonPos(d, m);
    }
  }

  /** The search stops by 2^62: nc < 2^31 and e <= d < 2^31. */
  lemma SearchStops(d: int)
    requires 2 <= d < Half
    ensures Pow2(62) > Nc(d) * Excess(d, 62)
  {
    NcFacts(d);
    ExcessFacts(d, 62);
    Pow2Add(31, 31);
    Pow2Constants();
    MulLe(Nc(d), Excess(d, 62), Half);
    MulLe(Half, Nc(d), Half);
  }

  /** Adding 2^l - 1 to a negative dividend before the arithmetic shift
      makes floor division round toward zero. */
  lemma RoundTowardZero(n: int, dd: int)
    requires dd >= 1
    ensures (n + (if n < 0 then dd - 1 else 0)) / dd == TDiv(n, dd)
  {
    if n < 0 {
      var a := -n;
      var q, r := a / dd, a % dd;
      DivMod(a, dd);
      assert n + dd - 1 == -q * dd + (dd - 1 - r);
      DivByBounds(n + dd - 1, dd, -q);
      TDivNeg(n, dd);
    }
  }
}
