/** Decimal rounding as the ledger uses it: `+(x).toFixed(d)` turns a number into the
    nearest number with `d` decimals, halves going away from zero. The model works on the
    exact value `x`; binary floating-point representation is not modelled. */
module Rounding {

  /** `a` has no fractional part. */
  predicate Whole(a: real)
  {
    a.Floor as real == a
  }

  /** `r` is a whole number of units `1 / scale`: with `scale == 10^d`, it has at most
      `d` decimals. */
  predicate OnGrid(r: real, scale: real)
  {
    Whole(r * scale)
  }

  /** The integer nearest to `a`, halves away from zero: the digits toFixed keeps, counted
      in units of the last kept decimal. RoundHalfAwayUnique shows the bounds fix it. */
  function RoundHalfAway(a: real): (n: int)
    ensures -0.5 <= n as real - a <= 0.5
    ensures a >= 0.0 ==> n as real - a > -0.5
    ensures a <= 0.0 ==> n as real - a < 0.5
    ensures Whole(a) ==> n as real == a
  {
    NegatedWhole(a);
    if a >= 0.0 then HalfUp(a) else -HalfUp(-a)
  }

  /** Rounding of a non-negative `b`, halves up. */
  function HalfUp(b: real): (n: int)
    requires b >= 0.0
    ensures -0.5 < n as real - b <= 0.5
    ensures Whole(b) ==> n as real == b
  {
    HalfUpWhole(b);
    (b + 0.5).Floor
  }

  lemma HalfUpWhole(b: real)
    ensures Whole(b) ==> (b + 0.5).Floor as real == b
  {
    if Whole(b) {
      var k := b.Floor;
      var n := (b + 0.5).Floor;
      assert n as real <= b + 0.5 < n as real + 1.0;
      assert n <= k && k <= n;
    }
  }

  lemma NegatedWhole(a: real)
    ensures Whole(a) ==> Whole(-a)
  {
    if Whole(a) {
      var k := a.Floor;
      assert -a == (-k) as real;
      assert ((-k) as real).Floor == -k;
    }
  }

  /** Only one integer meets RoundHalfAway's bounds. */
  lemma RoundHalfAwayUnique(a: real, m: int)
    requires -0.5 <= m as real - a <= 0.5
    requires a >= 0.0 ==> m as real - a > -0.5
    requires a <= 0.0 ==> m as real - a < 0.5
    ensures m == RoundHalfAway(a)
  {
    var n := RoundHalfAway(a);
    assert -1.0 < m as real - n as real < 1.0;
  }

  /** `r` is what toFixed makes of `x` at `scale == 10^d`: a number with at most `d`
      decimals, within half a unit of the last decimal from `x`, a tie going to the side
      away from 0. RoundToUnique shows only one `r` qualifies. */
  predicate RoundsTo(x: real, scale: real, r: real)
  {
    OnGrid(r, scale) &&
    -0.5 <= (r - x) * scale <= 0.5 &&
    (x >= 0.0 ==> (r - x) * scale > -0.5) &&
    (x <= 0.0 ==> (r - x) * scale < 0.5)
  }

  /** `x` rounded to the nearest multiple of `1 / scale`, halves away from zero. */
  function RoundTo(x: real, scale: real): (r: real)
    requires scale >= 1.0
    ensures RoundsTo(x, scale, r)
    ensures OnGrid(x, scale) ==> r == x
    ensures x == 0.0 ==> r == 0.0
    ensures r > 0.0 ==> x > 0.0
    ensures r < 0.0 ==> x < 0.0
  {
    var n := RoundHalfAway(x * scale);
    var q := n as real / scale;
    Units(x, scale, n, q);
    q
  }

  /** RoundTo's clauses for `q`, the rounded `x * scale` in units of `1 / scale`. */
  lemma Units(x: real, scale: real, n: int, q: real)
    requires scale >= 1.0 && n == RoundHalfAway(x * scale) && q == n as real / scale
    ensures RoundsTo(x, scale, q)
    ensures OnGrid(x, scale) ==> q == x
    ensures x == 0.0 ==> q == 0.0
    ensures q > 0.0 ==> x > 0.0
    ensures q < 0.0 ==> x < 0.0
  {
    Scaled(x, scale, n, q);
    SignScale(x, scale);
    SignScale(q, scale);
  }

  /** The arithmetic of `q == n / scale` against `x`. */
  lemma Scaled(x: real, scale: real, n: int, q: real)
    requires scale >= 1.0 && q == n as real / scale
    ensures OnGrid(q, scale)
    ensures (q - x) * scale == n as real - x * scale
    ensures n as real == x * scale ==> q == x
  {
    assert q * scale == n as real;
    assert (n as real).Floor == n;
    assert (q - x) * scale == q * scale - x * scale;
  }

  /** Multiplying by a scale of at least 1 keeps the sign. */
  lemma SignScale(x: real, scale: real)
    requires scale >= 1.0
    ensures x > 0.0 <==> x * scale > 0.0
    ensures x < 0.0 <==> x * scale < 0.0
  {
    if x > 0.0 {
      assert x * scale >= x * 1.0;
    } else if x < 0.0 {
      assert x * scale <= x * 1.0;
    }
  }

  /** Any multiple of `1 / scale` within RoundTo's bounds is RoundTo's result. */
  lemma RoundToUnique(x: real, scale: real, r: real)
    requires scale >= 1.0
    requires RoundsTo(x, scale, r)
    ensures r == RoundTo(x, scale)
  {
    var m := (r * scale).Floor;
    assert r == m as real / scale;
    Scaled(x, scale, m, r);
    RoundHalfAwayUnique(x * scale, m);
  }

  /** `+(x).toFixed(4)`: the rounding applied to every share and to a percent edit. */
  function Round4(x: real): (r: real)
    ensures OnGrid(r, 10000.0)
    ensures -0.00005 <= r - x <= 0.00005
    ensures x >= 0.0 ==> r - x > -0.00005
    ensures x <= 0.0 ==> r - x < 0.00005
    ensures OnGrid(x, 10000.0) ==> r == x
    ensures RoundsTo(x, 10000.0, r)
  {
    RoundTo(x, 10000.0)
  }

  /** `(x).toFixed(2)` read as a number: the rounding of a displayed variance. */
  function Round2(x: real): (r: real)
    ensures OnGrid(r, 100.0)
    ensures -0.005 <= r - x <= 0.005
    ensures x >= 0.0 ==> r - x > -0.005
    ensures x <= 0.0 ==> r - x < 0.005
    ensures OnGrid(x, 100.0) ==> r == x
  {
    RoundTo(x, 100.0)
  }

  /** A value that already has at most four decimals survives Round4 unchanged. */
  lemma Round4Exact(x: real, k: int)
    requires x == k as real / 10000.0
    ensures Round4(x) == x
  {
    assert x * 10000.0 == k as real;
    assert (k as real).Floor == k;
  }

  /** Same for two decimals and Round2. */
  lemma Round2Exact(x: real, k: int)
    requires x == k as real / 100.0
    ensures Round2(x) == x
  {
    assert x * 100.0 == k as real;
    assert (k as real).Floor == k;
  }
}
