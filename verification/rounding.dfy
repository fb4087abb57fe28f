/** Python's `round(x, d)` on exact rationals: the nearest multiple of 10^-d,
    ties going to the even multiple. */
module Rounding {
  import opened Basics

  function Dist(m: int, y: real): real {
    if m as real >= y then m as real - y else y - m as real
  }

  /** Rounds to the nearest integer; a tie goes to the even neighbour. */
  function RoundHalfEven(y: real): (r: int)
    ensures Dist(r, y) <= 0.5
    ensures Dist(r, y) == 0.5 ==> r % 2 == 0
    ensures r == y.Floor || r == y.Floor + 1
  {
    var f := y.Floor;
    var frac := y - f as real;
    if frac < 0.5 then f
    else if frac > 0.5 then f + 1
    else if f % 2 == 0 then f
    else f + 1
  }

  /** No integer is nearer to `y` than the rounded value. */
  lemma RoundHalfEvenIsNearest(y: real, m: int)
    ensures Dist(RoundHalfEven(y), y) <= Dist(m, y)
  {
    var f := y.Floor;
    var r := RoundHalfEven(y);
    if m <= f {
      assert Dist(m, y) == y - m as real;
    } else {
      assert Dist(m, y) == m as real - y;
    }
  }

  lemma DivideBoth(a: real, b: real, p: real)
    requires a <= b && p > 0.0
    ensures a / p <= b / p
  {
    assert b / p - a / p == (b - a) / p;
  }

  /** `r` has at most `d` decimals: it is a whole multiple of 10^-d. */
  predicate IsMultipleOfUnit(r: real, d: nat) {
    (r * (Pow10(d) as real)).Floor as real == r * (Pow10(d) as real)
  }

  lemma WholeIsMultiple(r: real, d: nat, q: int)
    requires r * (Pow10(d) as real) == q as real
    ensures IsMultipleOfUnit(r, d)
  {
    assert (q as real).Floor == q;
  }

  /** `r` is within half a unit of the `d`-th decimal of `x`. */
  predicate WithinHalfUnit(r: real, x: real, d: nat) {
    -0.5 / (Pow10(d) as real) <= r - x <= 0.5 / (Pow10(d) as real)
  }

  /** `round(x, d)`: a value with at most `d` decimals within half a unit of `x`. */
  function RoundTo(x: real, d: nat): (r: real)
    ensures IsMultipleOfUnit(r, d)
    ensures WithinHalfUnit(r, x, d)
  {
    var p := Pow10(d) as real;
    var q := RoundHalfEven(x * p);
    assert q as real / p * p == q as real;
    assert -0.5 <= q as real - x * p <= 0.5;
    assert q as real / p - x == (q as real - x * p) / p;
    DivideBoth(-0.5, q as real - x * p, p);
    DivideBoth(q as real - x * p, 0.5, p);
    var r := q as real / p;
    assert r * p == q as real;
    WholeIsMultiple(r, d, q);
    assert -0.5 / p <= r - x;
    assert r - x <= 0.5 / p;
    r
  }

  /** Rounding a value that already has at most `d` decimals leaves it unchanged. */
  lemma RoundToKeepsMultiple(x: real, d: nat)
    requires IsMultipleOfUnit(x, d)
    ensures RoundTo(x, d) == x
  {
    var p := Pow10(d) as real;
    var q := (x * p).Floor;
    assert x * p == q as real;
    assert RoundHalfEven(x * p) == q;
    assert q as real / p == x;
  }
}
