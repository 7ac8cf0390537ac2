/** `variance(value, original)` of src/utils/treeUtils.ts: the change of a value against
    its original, in percent, as the table displays it. */
module Percentages {
  import opened Rounding

  /** The text variance returns: the literal "0%" for a zero original, otherwise a number
      with two decimals followed by "%". */
  datatype VarianceText = ZeroPercent | Percent(p: real)

  /** The exact percentage change: raising `original` by that many percent gives
      `value`. */
  function Change(value: real, original: real): (r: real)
    requires original != 0.0
    ensures original * (1.0 + r / 100.0) == value
  {
    (value - original) / original * 100.0
  }

  function Variance(value: real, original: real): (r: VarianceText)
    ensures r.ZeroPercent? <==> original == 0.0
    ensures r.Percent? ==> OnGrid(r.p, 100.0)
    ensures r.Percent? ==> -0.005 <= r.p - Change(value, original) <= 0.005
    ensures r.Percent? && Change(value, original) >= 0.0 ==> r.p - Change(value, original) > -0.005
    ensures r.Percent? && Change(value, original) <= 0.0 ==> r.p - Change(value, original) < 0.005
  {
    if original == 0.0 then ZeroPercent else Percent(Round2(Change(value, original)))
  }

  /** A displayed increase means the value moved away from the original in its direction
      (up for a positive original, down for a negative one); an unchanged value shows
      0.00. */
  lemma VarianceSign(value: real, original: real)
    requires original != 0.0
    ensures Variance(value, original).p > 0.0 ==>
              (original > 0.0 && value > original) || (original < 0.0 && value < original)
    ensures Variance(value, original).p < 0.0 ==>
              (original > 0.0 && value < original) || (original < 0.0 && value > original)
    ensures value == original ==> Variance(value, original).p == 0.0
  {
    var x := Change(value, original);
    assert Variance(value, original).p == RoundTo(x, 100.0);
    if x > 0.0 {
      assert (value - original) / original > 0.0;
      Quotient(value - original, original);
    }
    if x < 0.0 {
      assert (value - original) / original < 0.0;
      Quotient(value - original, original);
    }
  }

  /** A node still at its (non-zero) original value shows 0.00%. */
  lemma UnchangedShowsZero(x: real)
    requires x != 0.0
    ensures Variance(x, x) == Percent(0.0)
  {
    assert Change(x, x) == 0.0;
  }

  lemma Quotient(a: real, b: real)
    requires b != 0.0
    ensures a / b > 0.0 ==> (a > 0.0 && b > 0.0) || (a < 0.0 && b < 0.0)
    ensures a / b < 0.0 ==> (a > 0.0 && b < 0.0) || (a < 0.0 && b > 0.0)
  {
    assert a == a / b * b;
  }

  /** An increase too small for two decimals is displayed as 0.00: a value above its
      original does not always show a positive variance. */
  lemma TinyIncreaseShowsZero()
    ensures 300.00001 > 300.0 && Variance(300.00001, 300.0) == Percent(0.0)
  {
    var x := Change(300.00001, 300.0);
    assert 0.0 < x < 0.001;
    assert (x * 100.0 + 0.5).Floor == 0;
  }

  /** Tables edited from 300 to 330 show 10.00%. */
  lemma TenPercent()
    ensures Variance(330.0, 300.0) == Percent(10.0)
  {
    assert Change(330.0, 300.0) == 10.0;
    Round2Exact(10.0, 1000);
  }
}
