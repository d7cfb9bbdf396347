/** The required-income conversion of the calculator: a monthly loan payment
    becomes the net monthly income that keeps it within the debt ratio, then
    the annual net, gross monthly and gross annual incomes. */
module IncomeRequirements {

  /** The four parallel lists returned by the conversion, keyed as in the
      source: "monthly_net", "annual_net", "monthly_gross", "annual_gross". */
  datatype IncomeTable = IncomeTable(
    monthlyNet: seq<real>,
    annualNet: seq<real>,
    monthlyGross: seq<real>,
    annualGross: seq<real>)

  /** One entry per payment in each list. The net monthly income is the one
      of which the payment is exactly the debt-ratio share; the gross monthly
      income is the one whose net-to-gross share is that net income; the
      annual figures are twelve monthly ones. */
  function CalculateIncomeRequirements(payments: seq<real>, debtRatio: real, netToGrossRatio: real)
    : (t: IncomeTable)
    requires debtRatio > 0.0 && netToGrossRatio > 0.0
    ensures |t.monthlyNet| == |payments| && |t.annualNet| == |payments|
    ensures |t.monthlyGross| == |payments| && |t.annualGross| == |payments|
    ensures forall i :: 0 <= i < |payments| ==> t.monthlyNet[i] * debtRatio == payments[i]
    ensures forall i :: 0 <= i < |payments| ==> t.annualNet[i] == 12.0 * t.monthlyNet[i]
    ensures forall i :: 0 <= i < |payments| ==> t.monthlyGross[i] * netToGrossRatio == t.monthlyNet[i]
    ensures forall i :: 0 <= i < |payments| ==> t.annualGross[i] == 12.0 * t.monthlyGross[i]
  {
    var monthlyNet := seq(|payments|, i requires 0 <= i < |payments| => payments[i] / debtRatio);
    var annualNet := seq(|monthlyNet|, i requires 0 <= i < |monthlyNet| => monthlyNet[i] * 12.0);
    var monthlyGross := seq(|monthlyNet|, i requires 0 <= i < |monthlyNet| => monthlyNet[i] / netToGrossRatio);
    var annualGross := seq(|monthlyGross|, i requires 0 <= i < |monthlyGross| => monthlyGross[i] * 12.0);
    IncomeTable(monthlyNet, annualNet, monthlyGross, annualGross)
  }

  /** The gross annual income carries twelve payments once both ratios are
      applied: annual_gross * debt_ratio * net_to_gross == 12 * payment. */
  lemma AnnualGrossCarriesTwelvePayments(payments: seq<real>, debtRatio: real,
                                         netToGrossRatio: real, i: nat)
    requires debtRatio > 0.0 && netToGrossRatio > 0.0 && i < |payments|
    ensures CalculateIncomeRequirements(payments, debtRatio, netToGrossRatio).annualGross[i]
            * debtRatio * netToGrossRatio == 12.0 * payments[i]
  {
    var t := CalculateIncomeRequirements(payments, debtRatio, netToGrossRatio);
    var g := t.monthlyGross[i];
    assert g * netToGrossRatio == t.monthlyNet[i];
    assert t.monthlyNet[i] * debtRatio == payments[i];
    calc {
      t.annualGross[i] * debtRatio * netToGrossRatio;
      12.0 * (g * netToGrossRatio) * debtRatio;
      12.0 * (t.monthlyNet[i] * debtRatio);
      12.0 * payments[i];
    }
  }

  /** Within the ranges the sidebar allows (debt ratio in [0.1, 0.5],
      net-to-gross ratio in [0.5, 1.0]) and for a non-negative payment, the
      net monthly income is between 2 and 10 payments and the gross monthly
      income between 1 and 2 net monthly incomes. */
  lemma IncomeWithinSliderBounds(payments: seq<real>, debtRatio: real,
                                 netToGrossRatio: real, i: nat)
    requires 0.1 <= debtRatio <= 0.5 && 0.5 <= netToGrossRatio <= 1.0
    requires i < |payments| && payments[i] >= 0.0
    ensures var t := CalculateIncomeRequirements(payments, debtRatio, netToGrossRatio);
            2.0 * payments[i] <= t.monthlyNet[i] <= 10.0 * payments[i] &&
            t.monthlyNet[i] <= t.monthlyGross[i] <= 2.0 * t.monthlyNet[i]
  {
    var t := CalculateIncomeRequirements(payments, debtRatio, netToGrossRatio);
    var n, g, p := t.monthlyNet[i], t.monthlyGross[i], payments[i];
    assert n * debtRatio == p;
    assert g * netToGrossRatio == n;
    RatioBounds(n, debtRatio, p, 0.1, 0.5);
    RatioBounds(g, netToGrossRatio, n, 0.5, 1.0);
  }

  /** A larger payment needs at least as large an income in every list. */
  lemma IncomeMonotone(payments: seq<real>, debtRatio: real, netToGrossRatio: real, i: nat, j: nat)
    requires debtRatio > 0.0 && netToGrossRatio > 0.0
    requires i < |payments| && j < |payments| && payments[i] <= payments[j]
    ensures var t := CalculateIncomeRequirements(payments, debtRatio, netToGrossRatio);
            t.monthlyNet[i] <= t.monthlyNet[j] && t.annualNet[i] <= t.annualNet[j] &&
            t.monthlyGross[i] <= t.monthlyGross[j] && t.annualGross[i] <= t.annualGross[j]
  {
    var t := CalculateIncomeRequirements(payments, debtRatio, netToGrossRatio);
    ScaledOrder(t.monthlyNet[i], t.monthlyNet[j], debtRatio);
    ScaledOrder(t.monthlyGross[i], t.monthlyGross[j], netToGrossRatio);
  }

  /** x * r == p with lo <= r <= hi and p >= 0 gives p / hi <= x <= p / lo,
      stated without division. */
  lemma RatioBounds(x: real, r: real, p: real, lo: real, hi: real)
    requires 0.0 < lo <= r <= hi && x * r == p && p >= 0.0
    ensures x * hi >= p && x * lo <= p
  {
    assert x >= 0.0;
  }

  lemma ScaledOrder(x: real, y: real, r: real)
    requires r > 0.0 && x * r <= y * r
    ensures x <= y
  {
  }
}
