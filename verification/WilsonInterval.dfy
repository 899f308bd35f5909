/** The Wilson score interval in exact arithmetic, and when two rates are called distinguishable. */
module WilsonInterval {
  import opened Rounding
  import opened Wrappers

  const LOW_SAMPLE := 10
  const Z := 1.96

  // ----- the formula

  function Sq(x: real): real {
    Times(x, x)
  }

  /** What stands under the square root. */
  function Radicand(p: real, n: real, z: real): real
    requires n > 0.0
  {
    SquarePositive(n);
    p * (1.0 - p) / n + Sq(z) / (4.0 * Sq(n))
  }

  /** `root` is the value of `math.sqrt`. */
  predicate IsRoot(root: real, p: real, n: real, z: real)
    requires n > 0.0
  {
    root >= 0.0 && Sq(root) == Radicand(p, n, z)
  }

  function Denominator(n: real, z: real): (d: real)
    requires n > 0.0
    ensures d >= 1.0
  {
    assert Sq(z) / n >= 0.0;
    1.0 + Sq(z) / n
  }

  function Centre(p: real, n: real, z: real): real
    requires n > 0.0
  {
    (p + Sq(z) / (2.0 * n)) / Denominator(n, z)
  }

  function Margin(n: real, z: real, root: real): real
    requires n > 0.0
  {
    z * root / Denominator(n, z)
  }

  function Low(p: real, n: real, z: real, root: real): real
    requires n > 0.0
  {
    Centre(p, n, z) - Margin(n, z, root)
  }

  function High(p: real, n: real, z: real, root: real): real
    requires n > 0.0
  {
    Centre(p, n, z) + Margin(n, z, root)
  }

  /** The score condition: the true rate `x` is not rejected by the observed rate `p`. */
  predicate Plausible(p: real, n: real, z: real, x: real) {
    n * Sq(p - x) <= Sq(z) * (x * (1.0 - x))
  }

  // ----- signs and squares

  lemma SquarePositive(x: real)
    requires x != 0.0
    ensures Sq(x) > 0.0
  {
    if x > 0.0 {
      Positive(x, x);
    } else {
      Positive(-x, -x);
      assert Times(-x, -x) == Times(x, x);
    }
  }

  lemma SquareNonNegative(x: real)
    ensures Sq(x) >= 0.0
  {
  }

  lemma Positive(a: real, b: real)
    requires a > 0.0 && b > 0.0
    ensures a * b > 0.0 && Times(a, b) > 0.0
  {
  }

  lemma NonNegative(a: real, b: real)
    requires a >= 0.0 && b >= 0.0
    ensures a * b >= 0.0
  {
  }

  lemma SquareOfProduct(a: real, b: real)
    ensures Sq(a * b) == Sq(a) * Sq(b)
  {
    assert (a * b) * (a * b) == a * (b * (a * b));
    assert b * (a * b) == a * (b * b);
    assert a * (a * (b * b)) == (a * a) * (b * b);
  }

  lemma SquareWithin(t: real, m: real)
    requires m >= 0.0
    ensures Sq(t) <= Sq(m) <==> -m <= t <= m
  {
    assert Sq(m) - Sq(t) == (m - t) * (m + t);
    if -m <= t <= m {
      NonNegative(m - t, m + t);
    } else if t > m {
      Positive(t - m, m + t);
    } else {
      Positive(m - t, -m - t);
    }
  }

  // ----- the quadratic behind it; q is the square of z

  function Spread(p: real, n: real, q: real): real {
    q * (n * (p * (1.0 - p)) + q / 4.0)
  }

  lemma Expand(p: real, n: real, q: real, x: real, a: real, b: real, f: real)
    requires a == n + q && b == n * p + q / 2.0 && f == n * Sq(p - x) - q * (x * (1.0 - x))
    ensures f == a * Sq(x) - 2.0 * (b * x) + n * Sq(p)
  {
    assert Sq(p - x) == Sq(p) - 2.0 * (p * x) + Sq(x);
    assert n * Sq(p - x) == n * Sq(p) - 2.0 * (n * (p * x)) + n * Sq(x);
    assert q * (x * (1.0 - x)) == q * x - q * Sq(x);
    assert b * x == n * (p * x) + q * x / 2.0;
  }

  lemma CompleteSquare(a: real, b: real, r: real, x: real, f: real)
    requires f == a * Sq(x) - 2.0 * (b * x) + r
    ensures a * f == Sq(a * x - b) - (Sq(b) - a * r)
  {
    assert Sq(a * x - b) == Sq(a * x) - 2.0 * ((a * x) * b) + Sq(b);
    SquareOfProduct(a, x);
    assert a * (a * Sq(x)) == Sq(a) * Sq(x);
    assert a * (b * x) == (a * x) * b;
    assert a * f == a * (a * Sq(x)) - 2.0 * (a * (b * x)) + a * r;
  }

  lemma Discriminant(p: real, n: real, q: real, a: real, b: real, r: real)
    requires a == n + q && b == n * p + q / 2.0 && r == n * Sq(p)
    ensures Sq(b) - a * r == Spread(p, n, q)
  {
    var u := n * p;
    assert Sq(b) == Sq(u) + u * q + Sq(q) / 4.0;
    SquareOfProduct(n, p);
    assert n * r == Sq(n) * Sq(p);
    assert a * r == n * r + q * r;
    assert n * (p * (1.0 - p)) == u - r;
    assert q * (u - r + q / 4.0) == u * q - q * r + Sq(q) / 4.0;
  }

  lemma ScoreAsSquares(p: real, n: real, q: real, x: real, a: real, b: real, f: real)
    requires a == n + q && b == n * p + q / 2.0 && f == n * Sq(p - x) - q * (x * (1.0 - x))
    ensures a * f == Sq(a * x - b) - Spread(p, n, q)
  {
    Expand(p, n, q, x, a, b, f);
    CompleteSquare(a, b, n * Sq(p), x, f);
    Discriminant(p, n, q, a, b, n * Sq(p));
  }

  lemma CancelDenominator(n: real, q: real, y: real)
    requires n > 0.0 && 1.0 + q / n > 0.0
    ensures (n + q) * (y / (1.0 + q / n)) == n * y
  {
    var d := 1.0 + q / n;
    assert n * (q / n) == q;
    assert n * d == n + q;
    assert d * (y / d) == y;
    assert (n * d) * (y / d) == n * (d * (y / d));
  }

  lemma ScaledCentre(p: real, n: real, z: real)
    requires n > 0.0
    ensures (n + Sq(z)) * Centre(p, n, z) == n * p + Sq(z) / 2.0
  {
    var h := Sq(z) / (2.0 * n);
    CancelDenominator(n, Sq(z), p + h);
    assert h * (2.0 * n) == Sq(z);
    assert n * (p + h) == n * p + n * h;
  }

  lemma ScaledMargin(p: real, n: real, z: real, root: real) returns (w: real)
    requires n > 0.0 && z >= 0.0 && IsRoot(root, p, n, z)
    ensures w >= 0.0 && (n + Sq(z)) * Margin(n, z, root) == w
    ensures Sq(w) == Spread(p, n, Sq(z))
  {
    w := n * (z * root);
    NonNegative(z, root);
    NonNegative(n, z * root);
    CancelDenominator(n, Sq(z), z * root);
    SquareOfProduct(n, z * root);
    SquareOfProduct(z, root);
    SquarePositive(n);
    ScaledRadicand(p * (1.0 - p), n, Sq(z));
    Swap(Sq(n), Sq(z), Sq(root), n * (p * (1.0 - p)) + Sq(z) / 4.0);
  }

  lemma Swap(a: real, b: real, c: real, d: real)
    requires a * c == d
    ensures a * (b * c) == b * d
  {
    assert a * (b * c) == b * (a * c);
  }

  lemma ScaledRadicand(v: real, n: real, q: real)
    requires n > 0.0 && Sq(n) > 0.0
    ensures Sq(n) * (v / n + q / (4.0 * Sq(n))) == n * v + q / 4.0
  {
    Cancel(Sq(n), q);
    assert n * (v / n) == v;
    assert Sq(n) * (v / n) == n * (n * (v / n));
  }

  lemma Cancel(k: real, q: real)
    requires k > 0.0
    ensures k * (q / (4.0 * k)) == q / 4.0
  {
    var s := 4.0 * k;
    assert (q / s) * s == q;
  }

  lemma SignOfProduct(a: real, f: real)
    requires a > 0.0
    ensures a * f <= 0.0 <==> f <= 0.0
  {
    if f > 0.0 {
      assert a * f > 0.0;
    } else {
      assert a * (-f) >= 0.0;
    }
  }

  /** The unclamped interval is exactly the set of plausible true rates. */
  lemma IntervalIsPlausibleSet(p: real, n: real, z: real, root: real, x: real)
    requires n > 0.0 && z >= 0.0 && IsRoot(root, p, n, z)
    ensures Low(p, n, z, root) <= x <= High(p, n, z, root) <==> Plausible(p, n, z, x)
  {
    ScaledCentre(p, n, z);
    var w := ScaledMargin(p, n, z, root);
    SquareNonNegative(z);
    IntervalFromSquares(p, n, Sq(z), x, Centre(p, n, z), Margin(n, z, root), w);
  }

  /** The same with the scaled centre and margin as plain numbers. */
  lemma IntervalFromSquares(p: real, n: real, q: real, x: real, c: real, m: real, w: real)
    requires n > 0.0 && q >= 0.0 && w >= 0.0
    requires (n + q) * c == n * p + q / 2.0 && (n + q) * m == w
    requires Sq(w) == Spread(p, n, q)
    ensures c - m <= x <= c + m <==> n * Sq(p - x) <= q * (x * (1.0 - x))
  {
    var f := n * Sq(p - x) - q * (x * (1.0 - x));
    ScoreAsSquares(p, n, q, x, n + q, n * p + q / 2.0, f);
    FromSquares(n + q, n * p + q / 2.0, f, x, c, m, w);
  }

  lemma FromSquares(a: real, b: real, f: real, x: real, c: real, m: real, w: real)
    requires a > 0.0 && w >= 0.0 && a * c == b && a * m == w
    requires a * f == Sq(a * x - b) - Sq(w)
    ensures c - m <= x <= c + m <==> f <= 0.0
  {
    assert a * (x - c) == a * x - b;
    SignOfProduct(a, f);
    SquareWithin(a * x - b, w);
    Scaled(a, x - c, m);
  }

  lemma Scaled(a: real, t: real, m: real)
    requires a > 0.0
    ensures -(a * m) <= a * t <= a * m <==> -m <= t <= m
  {
    SignOfProduct(a, t - m);
    SignOfProduct(a, -m - t);
    assert a * (t - m) == a * t - a * m;
    assert a * (-m - t) == -(a * m) - a * t;
  }

  /** The interval contains the observed rate and lies within [0, 1]: the clamps change nothing. */
  lemma ClampsDoNothing(p: real, n: real, z: real, root: real)
    requires n > 0.0 && z >= 0.0 && 0.0 <= p <= 1.0 && IsRoot(root, p, n, z)
    ensures 0.0 <= Low(p, n, z, root) <= p <= High(p, n, z, root) <= 1.0
  {
    var low, high := Low(p, n, z, root), High(p, n, z, root);
    NonNegative(p, 1.0 - p);
    SquareNonNegative(z);
    NonNegative(Sq(z), p * (1.0 - p));
    assert Sq(p - p) == 0.0;
    IntervalIsPlausibleSet(p, n, z, root, p);
    IntervalIsPlausibleSet(p, n, z, root, low);
    IntervalIsPlausibleSet(p, n, z, root, high);
    OutsideIsImplausible(p, n, z, low);
    OutsideIsImplausible(p, n, z, high);
  }

  lemma OutsideIsImplausible(p: real, n: real, z: real, x: real)
    requires n > 0.0 && 0.0 <= p <= 1.0
    ensures Plausible(p, n, z, x) ==> 0.0 <= x <= 1.0
  {
    if x < 0.0 || x > 1.0 {
      SquarePositive(p - x);
      Positive(n, Sq(p - x));
      SquareNonNegative(z);
      var y := x * (1.0 - x);
      assert y <= 0.0 by {
        if x < 0.0 {
          Positive(-x, 1.0 - x);
        } else {
          Positive(x, x - 1.0);
        }
      }
      NonNegative(Sq(z), -y);
    }
  }

  /** Both bounds grow with the observed rate. */
  lemma BoundsGrow(p: real, r: real, n: real, z: real, rootP: real, rootR: real)
    requires n > 0.0 && z >= 0.0 && 0.0 <= p <= r <= 1.0
    requires IsRoot(rootP, p, n, z) && IsRoot(rootR, r, n, z)
    ensures Low(p, n, z, rootP) <= Low(r, n, z, rootR)
    ensures High(p, n, z, rootP) <= High(r, n, z, rootR)
  {
    ClampsDoNothing(p, n, z, rootP);
    ClampsDoNothing(r, n, z, rootR);
    var low, high := Low(r, n, z, rootR), High(p, n, z, rootP);
    if low < Low(p, n, z, rootP) {
      IntervalIsPlausibleSet(r, n, z, rootR, low);
      CloserIsPlausible(p, r, n, z, low);
      IntervalIsPlausibleSet(p, n, z, rootP, low);
    }
    if high > High(r, n, z, rootR) {
      IntervalIsPlausibleSet(p, n, z, rootP, high);
      CloserIsPlausible(r, p, n, z, high);
      IntervalIsPlausibleSet(r, n, z, rootR, high);
    }
  }

  lemma CloserIsPlausible(p: real, r: real, n: real, z: real, x: real)
    requires n > 0.0 && Plausible(r, n, z, x)
    requires x <= p <= r || r <= p <= x
    ensures Plausible(p, n, z, x)
  {
    SquareFarther(p - x, r - x);
    NonNegative(n, Sq(r - x) - Sq(p - x));
  }

  lemma SquareFarther(u: real, v: real)
    requires 0.0 <= u <= v || v <= u <= 0.0
    ensures Sq(u) <= Sq(v)
  {
    assert Sq(v) - Sq(u) == (v - u) * (v + u);
    if 0.0 <= u <= v {
      NonNegative(v - u, v + u);
    } else {
      NonNegative(u - v, -u - v);
    }
  }

  // ----- rate and distinguishable

  datatype RateStat = RateStat(
    successes: int, n: int, value: Option<real>, low: Option<real>, high: Option<real>, lowSample: bool)

  datatype ValueError = ValueError

  function ClampLow(x: real): real {
    if x < 0.0 then 0.0 else x
  }

  function ClampHigh(x: real): real {
    if x > 1.0 then 1.0 else x
  }

  function Proportion(successes: int, n: int): real
    requires n != 0
  {
    successes as real / n as real
  }

  /** `root` is consulted only when there is a sample. */
  function Interval(successes: int, n: int, z: real, root: real): Result<Option<(real, real)>, ValueError> {
    if n <= 0 then Ok(None)
    else if !(0 <= successes <= n) then Err(ValueError)
    else
      var p := Proportion(successes, n);
      Ok(Some((ClampLow(Low(p, n as real, z, root)), ClampHigh(High(p, n as real, z, root)))))
  }

  function Rate(successes: int, n: int, root: real): Result<RateStat, ValueError> {
    match Interval(successes, n, Z, root)
    case Err(e) => Err(e)
    case Ok(None) =>
      Ok(RateStat(successes, n, if n != 0 then Some(Round(Proportion(successes, n), 10000)) else None, None, None,
        n < LOW_SAMPLE))
    case Ok(Some(i)) =>
      Ok(RateStat(successes, n, Some(Round(Proportion(successes, n), 10000)),
                  Some(Round(i.0, 10000)), Some(Round(i.1, 10000)), n < LOW_SAMPLE))
  }

  /** A value takes a non-zero sample, an interval a positive one, and fewer than thirty are a low sample. */
  lemma ReportedIff(successes: int, n: int, root: real)
    ensures
      var r := Rate(successes, n, root);
      && (r.Err? <==> n > 0 && !(0 <= successes <= n))
      && (r.Ok? ==> (r.value.value.Some? <==> n != 0))
      && (r.Ok? ==> (r.value.low.Some? <==> n > 0) && (r.value.high.Some? <==> n > 0))
      && (r.Ok? ==> (r.value.lowSample <==> n < LOW_SAMPLE))
  {
  }

  predicate Distinguishable(a: RateStat, b: RateStat) {
    && !a.lowSample && !b.lowSample
    && a.low.Some? && a.high.Some? && b.low.Some? && b.high.Some?
    && (a.low.value > b.high.value || b.low.value > a.high.value)
  }

  predicate Admits(stat: RateStat, x: real) {
    stat.low.Some? && stat.high.Some? && stat.low.value <= x <= stat.high.value
  }

  /** Two rates are told apart iff neither sample is low and their intervals have no value in common. */
  lemma DistinguishableIff(a: RateStat, b: RateStat)
    requires a.low.Some? && a.high.Some? && b.low.Some? && b.high.Some?
    requires a.low.value <= a.high.value && b.low.value <= b.high.value
    ensures Distinguishable(a, b)
       <==> !a.lowSample && !b.lowSample && forall x :: !(Admits(a, x) && Admits(b, x))
  {
    var x := if a.low.value >= b.low.value then a.low.value else b.low.value;
    assert Admits(a, x) && Admits(b, x) <==> !(a.low.value > b.high.value || b.low.value > a.high.value);
  }

  /** A statistic as `rate` computes it, with the square root it used. */
  ghost predicate IsRate(stat: RateStat, root: real) {
    && Rate(stat.successes, stat.n, root) == Ok(stat)
    && (stat.n > 0 ==> IsRoot(root, Proportion(stat.successes, stat.n), stat.n as real, Z))
  }

  lemma ProportionInUnit(successes: int, n: int)
    requires n > 0 && 0 <= successes <= n
    ensures 0.0 <= Proportion(successes, n) <= 1.0
  {
    var s, m := successes as real, n as real;
    var p := s / m;
    assert p * m == s;
    assert p < 0.0 ==> p * m < 0.0;
    assert p > 1.0 ==> (p - 1.0) * m > 0.0;
  }

  /** The reported, rounded numbers still enclose the rounded rate. */
  lemma ReportedInterval(stat: RateStat, root: real)
    requires IsRate(stat, root) && stat.low.Some?
    ensures stat.n > 0 && 0 <= stat.successes <= stat.n && stat.high.Some? && stat.value.Some?
    ensures var p := Proportion(stat.successes, stat.n);
            && stat.low.value == Round(Low(p, stat.n as real, Z, root), 10000)
            && stat.high.value == Round(High(p, stat.n as real, Z, root), 10000)
            && Low(p, stat.n as real, Z, root) <= p <= High(p, stat.n as real, Z, root)
    ensures stat.low.value <= stat.value.value <= stat.high.value
  {
    var p := Proportion(stat.successes, stat.n);
    ProportionInUnit(stat.successes, stat.n);
    ClampsDoNothing(p, stat.n as real, Z, root);
    RoundMonotone(Low(p, stat.n as real, Z, root), p, 10000);
    RoundMonotone(p, High(p, stat.n as real, Z, root), 10000);
  }

  /** `distinguishable` is symmetric and never holds of a group and itself. */
  lemma DistinguishableIsSymmetricIrreflexive(a: RateStat, b: RateStat, root: real)
    requires IsRate(a, root)
    ensures Distinguishable(a, b) <==> Distinguishable(b, a)
    ensures !Distinguishable(a, a)
  {
    if a.low.Some? {
      ReportedInterval(a, root);
    }
  }

  /** It always agrees with the order of the observed rates, reported or exact. */
  lemma DistinguishableAgreesWithRates(a: RateStat, b: RateStat, rootA: real, rootB: real)
    requires IsRate(a, rootA) && IsRate(b, rootB) && Distinguishable(a, b)
    ensures a.n > 0 && b.n > 0 && a.value.Some? && b.value.Some?
    ensures a.low.value > b.high.value <==> Proportion(a.successes, a.n) > Proportion(b.successes, b.n)
    ensures a.low.value > b.high.value <==> a.value.value > b.value.value
    ensures b.low.value > a.high.value <==> Proportion(b.successes, b.n) > Proportion(a.successes, a.n)
  {
    ReportedInterval(a, rootA);
    ReportedInterval(b, rootB);
    if a.low.value > b.high.value {
      ApartMeansOrdered(a, b, rootA, rootB);
    } else {
      ApartMeansOrdered(b, a, rootB, rootA);
    }
  }

  lemma ApartMeansOrdered(a: RateStat, b: RateStat, rootA: real, rootB: real)
    requires IsRate(a, rootA) && IsRate(b, rootB) && a.low.Some? && b.low.Some? && b.high.Some?
    requires a.low.value > b.high.value
    ensures a.n > 0 && b.n > 0 && a.value.Some? && b.value.Some?
    ensures Proportion(a.successes, a.n) > Proportion(b.successes, b.n)
    ensures a.value.value > b.value.value
  {
    ReportedInterval(a, rootA);
    ReportedInterval(b, rootB);
    var p, r := Proportion(a.successes, a.n), Proportion(b.successes, b.n);
    var low, high := Low(p, a.n as real, Z, rootA), High(r, b.n as real, Z, rootB);
    if low <= high {
      RoundMonotone(low, high, 10000);
    }
  }

  /** More successes out of the same sample move both bounds up. */
  lemma MoreSuccessesRaiseBounds(few: int, many: int, n: int, z: real, rootFew: real, rootMany: real)
    requires n > 0 && 0 <= few <= many <= n && z >= 0.0
    requires IsRoot(rootFew, Proportion(few, n), n as real, z) && IsRoot(rootMany, Proportion(many, n), n as real, z)
    ensures Interval(few, n, z, rootFew).Ok? && Interval(few, n, z, rootFew).value.Some?
    ensures Interval(many, n, z, rootMany).Ok? && Interval(many, n, z, rootMany).value.Some?
    ensures Interval(few, n, z, rootFew).value.value.0 <= Interval(many, n, z, rootMany).value.value.0
    ensures Interval(few, n, z, rootFew).value.value.1 <= Interval(many, n, z, rootMany).value.value.1
  {
    ProportionInUnit(few, n);
    ProportionInUnit(many, n);
    OverMonotone(few as real, many as real, n as real);
    BoundsGrow(Proportion(few, n), Proportion(many, n), n as real, z, rootFew, rootMany);
  }
}
