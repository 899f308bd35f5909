/** Python's `round(x, digits)` in exact arithmetic: to the nearest, ties to even. */
module Rounding {

  function Nearest(x: real): int {
    var below := x.Floor;
    var rest := x - below as real;
    if rest < 0.5 || (rest == 0.5 && below % 2 == 0) then below else below + 1
  }

  function Times(x: real, y: real): real {
    x * y
  }

  function Over(x: real, y: real): real
    requires y != 0.0
  {
    x / y
  }

  function Round(x: real, scale: int): real
    requires scale > 0
  {
    Over(Nearest(Times(x, scale as real)) as real, scale as real)
  }

  function Distance(x: real, y: real): real {
    if x <= y then y - x else x - y
  }

  /** No whole number is nearer, and half way between two it is the even one. */
  lemma NearestIsNearest(x: real, k: int)
    ensures Distance(x, Nearest(x) as real) <= Distance(x, k as real)
    ensures Distance(x, Nearest(x) as real) == Distance(x, k as real) ==> k == Nearest(x) || Nearest(x) % 2 == 0
    ensures Distance(x, Nearest(x) as real) <= 0.5
  {
    assert k <= x.Floor || k >= x.Floor + 1;
  }

  lemma NearestMonotone(x: real, y: real)
    requires x <= y
    ensures Nearest(x) <= Nearest(y)
  {
  }

  lemma TimesMonotone(x: real, y: real, s: real)
    requires x <= y && s > 0.0
    ensures Times(x, s) <= Times(y, s)
  {
    assert (y - x) * s >= 0.0;
  }

  lemma OverMonotone(x: real, y: real, s: real)
    requires x <= y && s > 0.0
    ensures Over(x, s) <= Over(y, s)
  {
    assert (y - x) / s >= 0.0;
    assert (y - x) / s == y / s - x / s;
  }

  /** Rounding keeps order. */
  lemma RoundMonotone(x: real, y: real, scale: int)
    requires x <= y && scale > 0
    ensures Round(x, scale) <= Round(y, scale)
  {
    var s := scale as real;
    TimesMonotone(x, y, s);
    NearestMonotone(Times(x, s), Times(y, s));
    OverMonotone(Nearest(Times(x, s)) as real, Nearest(Times(y, s)) as real, s);
  }

  /** A number with so many digits is its own rounding. */
  lemma RoundExact(x: real, k: int, scale: int)
    requires scale > 0 && x * scale as real == k as real
    ensures Round(x, scale) == x
  {
    assert Times(x, scale as real) == k as real;
    assert Nearest(k as real) == k;
    assert Over(k as real, scale as real) * scale as real == k as real;
  }

  lemma ScaledDistance(x: real, y: real, s: real)
    requires s > 0.0
    ensures Times(Distance(x, Over(y, s)), s) == Distance(Times(x, s), y)
  {
    var q := Over(y, s);
    assert q * s == y;
    assert x <= q ==> (q - x) * s >= 0.0;
    assert x > q ==> (x - q) * s > 0.0;
    assert (q - x) * s == y - Times(x, s);
  }

  lemma Unscaled(x: real, y: real, s: real)
    requires s > 0.0 && Times(x, s) <= Times(y, s)
    ensures x <= y
  {
    assert x > y ==> (x - y) * s > 0.0;
  }

  /** No other number with so many digits is nearer, so the rounding is off by half a unit at most. */
  lemma RoundIsNearest(x: real, scale: int, k: int)
    requires scale > 0
    ensures Distance(x, Round(x, scale)) <= Distance(x, Over(k as real, scale as real))
    ensures Times(Distance(x, Round(x, scale)), scale as real) <= 0.5
  {
    var s := scale as real;
    var n := Nearest(Times(x, s));
    NearestIsNearest(Times(x, s), k);
    ScaledDistance(x, n as real, s);
    ScaledDistance(x, k as real, s);
    Unscaled(Distance(x, Round(x, scale)), Distance(x, Over(k as real, s)), s);
  }

  lemma RoundZero(scale: int)
    requires scale > 0
    ensures Round(0.0, scale) == 0.0
  {
    assert Times(0.0, scale as real) == 0.0;
    assert Nearest(0.0) == 0;
  }
}
