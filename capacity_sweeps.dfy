/** The two sweeps over loan amounts: the borrowing-capacity curve (the
    payment on each amount of the range once the down payment is deducted)
    and the rate-sensitivity curve (for each rate of a range, the mean
    payment over the same amounts). */
module CapacitySweeps {
  import opened Annuity

  /** The i-th amount of the range 150 000, 160 000, ..., 500 000. */
  function LoanAmount(i: int): real
  {
    150000.0 + 10000.0 * (i as real)
  }

  /** The loan amounts of both sweeps: from 150 000 in steps of 10 000 while
      below 500 001, which is 36 amounts ending at 500 000. */
  function LoanAmounts(): (amounts: seq<real>)
    ensures |amounts| == 36
    ensures amounts[0] == 150000.0
    ensures forall i :: 0 <= i < |amounts| - 1 ==> amounts[i + 1] == amounts[i] + 10000.0
    ensures amounts[|amounts| - 1] < 500001.0 <= amounts[|amounts| - 1] + 10000.0
  {
    seq(36, i => LoanAmount(i))
  }

  // ---------------------------------------------------------------------
  // Borrowing capacity

  /** The payment plotted for one amount of the range: nothing when the down
      payment covers the amount, the annuity payment on the rest otherwise. */
  function CapacityPayment(amount: real, downPayment: real, rate: real, months: nat): real
    requires rate > 0.0 && months >= 1
  {
    if amount - downPayment <= 0.0 then 0.0
    else AnnuityPayment(amount - downPayment, rate, months)
  }

  /** A capacity payment is never negative and it is zero exactly when the
      down payment covers the amount. */
  lemma CapacityPaymentSign(amount: real, downPayment: real, rate: real, months: nat)
    requires rate > 0.0 && months >= 1
    ensures CapacityPayment(amount, downPayment, rate, months) >= 0.0
    ensures CapacityPayment(amount, downPayment, rate, months) == 0.0 <==> amount <= downPayment
  {
    if amount - downPayment > 0.0 {
      PositiveProduct(amount - downPayment, rate);
    }
  }

  /** A larger amount has a capacity payment at least as large. */
  lemma CapacityPaymentMonotone(a: real, b: real, downPayment: real, rate: real, months: nat)
    requires rate > 0.0 && months >= 1 && a <= b
    ensures CapacityPayment(a, downPayment, rate, months) <= CapacityPayment(b, downPayment, rate, months)
  {
    CapacityPaymentSign(b, downPayment, rate, months);
    if a - downPayment > 0.0 && a < b {
      PaymentMonotone(a - downPayment, b - downPayment, rate, months);
    }
  }

  /** The capacity sweep, as the source writes it: a loop over the amounts
      that deducts the down payment and appends one payment per amount. It
      yields one payment per amount, each the capacity payment of its amount:
      never negative, zero exactly for the amounts the down payment covers,
      and rising with the amount. */
  method BorrowingCapacityPayments(annualRatePercent: real, years: nat, downPayment: real)
    returns (payments: seq<real>)
    requires annualRatePercent > 0.0 && years >= 1
    ensures |payments| == |LoanAmounts()|
    ensures forall i :: 0 <= i < |payments| ==>
              payments[i] == CapacityPayment(LoanAmounts()[i], downPayment,
                                             MonthlyRate(annualRatePercent), Months(years))
    ensures forall i :: 0 <= i < |payments| ==>
              payments[i] >= 0.0 && (payments[i] == 0.0 <==> LoanAmounts()[i] <= downPayment)
    ensures forall i, j :: 0 <= i < j < |payments| ==> payments[i] <= payments[j]
  {
    var amounts := LoanAmounts();
    var months := Months(years);
    var monthlyRate := MonthlyRate(annualRatePercent);
    payments := [];
    for i := 0 to |amounts|
      invariant |payments| == i
      invariant forall k :: 0 <= k < i ==>
                  payments[k] == CapacityPayment(amounts[k], downPayment, monthlyRate, months)
    {
      var loan := amounts[i] - downPayment;
      if loan <= 0.0 {
        payments := payments + [0.0];
      } else {
        var payment := AnnuityPayment(loan, monthlyRate, months);
        payments := payments + [payment];
      }
    }
    forall i | 0 <= i < |payments|
      ensures payments[i] >= 0.0 && (payments[i] == 0.0 <==> amounts[i] <= downPayment)
    {
      CapacityPaymentSign(amounts[i], downPayment, monthlyRate, months);
    }
    forall i, j | 0 <= i < j < |payments|
      ensures payments[i] <= payments[j]
    {
      AmountsIncrease(i, j);
      CapacityPaymentMonotone(amounts[i], amounts[j], downPayment, monthlyRate, months);
    }
  }

  /** Later amounts of the range are larger. */
  lemma AmountsIncrease(i: int, j: int)
    requires 0 <= i < j < 36
    ensures LoanAmounts()[i] < LoanAmounts()[j]
  {
    assert LoanAmounts()[j] - LoanAmounts()[i] == 10000.0 * ((j - i) as real);
  }

  // ---------------------------------------------------------------------
  // Rate sensitivity

  /** The rates of the sensitivity curve, in percent: from 2.0 in steps of
      0.5 while below 5.1, which is 2.0, 2.5, ..., 5.0. */
  function SensitivityRates(): (rates: seq<real>)
    ensures |rates| == 7
    ensures rates[0] == 2.0
    ensures forall k :: 0 <= k < |rates| - 1 ==> rates[k + 1] == rates[k] + 0.5
    ensures rates[|rates| - 1] < 5.1 <= rates[|rates| - 1] + 0.5
    ensures forall k :: 0 <= k < |rates| ==> rates[k] > 0.0
  {
    seq(7, k => 2.0 + 0.5 * (k as real))
  }

  /** The payments on every amount of the range at one rate. */
  function RangePayments(annualRatePercent: real, years: nat): seq<real>
    requires annualRatePercent > 0.0 && years >= 1
  {
    seq(36, i requires 0 <= i < 36 =>
          AnnuityPayment(LoanAmounts()[i], MonthlyRate(annualRatePercent), Months(years)))
  }

  /** The sum of a sequence of amounts. */
  function Sum(xs: seq<real>): real
  {
    if xs == [] then 0.0 else Sum(xs[..|xs| - 1]) + xs[|xs| - 1]
  }

  /** The mean of a non-empty sequence, as `np.mean` computes it. */
  function Mean(xs: seq<real>): real
    requires xs != []
  {
    Sum(xs) / (|xs| as real)
  }

  /** The sensitivity curve: one mean payment per rate of the range. */
  function SensitivityMeans(years: nat): (means: seq<real>)
    requires years >= 1
    ensures |means| == |SensitivityRates()|
  {
    seq(7, k requires 0 <= k < 7 => Mean(RangePayments(SensitivityRates()[k], years)))
  }

  /** Scaling every element scales the sum. */
  lemma {:induction false} SumScaled(xs: seq<real>, ys: seq<real>, c: real)
    requires |xs| == |ys|
    requires forall i :: 0 <= i < |xs| ==> ys[i] == xs[i] * c
    ensures Sum(ys) == Sum(xs) * c
  {
    if xs != [] {
      SumScaled(xs[..|xs| - 1], ys[..|ys| - 1], c);
    }
  }

  /** The first n amounts of the range add up to 150 000 n + 5 000 n (n - 1);
      `r` is n as a real. */
  lemma {:induction false} SumOfAmounts(n: nat, r: real)
    requires n <= 36 && r == n as real
    ensures Sum(LoanAmounts()[..n]) == 150000.0 * r + 5000.0 * r * (r - 1.0)
  {
    if n > 0 {
      assert LoanAmounts()[..n][..n - 1] == LoanAmounts()[..n - 1];
      SumOfAmounts(n - 1, r - 1.0);
      assert LoanAmounts()[n - 1] == 150000.0 + 10000.0 * (r - 1.0);
    }
  }

  /** Each payment of the range is its amount times the payment on a loan
      of one. */
  lemma RangePaymentsScale(annualRatePercent: real, years: nat)
    requires annualRatePercent > 0.0 && years >= 1
    ensures forall i :: 0 <= i < 36 ==>
              RangePayments(annualRatePercent, years)[i]
              == LoanAmounts()[i] * AnnuityPayment(1.0, MonthlyRate(annualRatePercent), Months(years))
  {
    forall i | 0 <= i < 36
      ensures RangePayments(annualRatePercent, years)[i]
              == LoanAmounts()[i] * AnnuityPayment(1.0, MonthlyRate(annualRatePercent), Months(years))
    {
      PaymentIsLoanTimesFactor(LoanAmounts()[i], MonthlyRate(annualRatePercent), Months(years));
    }
  }

  /** The 36 amounts of the range add up to 36 times 325 000. */
  lemma SumOfRange()
    ensures Sum(LoanAmounts()) == 11700000.0
  {
    SumOfAmounts(36, 36.0);
    assert LoanAmounts()[..36] == LoanAmounts();
  }

  /** Because the payment is linear in the loan, the mean payment over the
      range is the payment on the mean amount, 325 000. */
  lemma MeanPaymentIsPaymentOnMeanAmount(annualRatePercent: real, years: nat)
    requires annualRatePercent > 0.0 && years >= 1
    ensures Mean(RangePayments(annualRatePercent, years))
         == AnnuityPayment(325000.0, MonthlyRate(annualRatePercent), Months(years))
  {
    var f := AnnuityPayment(1.0, MonthlyRate(annualRatePercent), Months(years));
    RangePaymentsScale(annualRatePercent, years);
    SumScaled(LoanAmounts(), RangePayments(annualRatePercent, years), f);
    SumOfRange();
    PaymentIsLoanTimesFactor(325000.0, MonthlyRate(annualRatePercent), Months(years));
    MeanOfScaledRange(Sum(RangePayments(annualRatePercent, years)), f);
  }

  lemma MeanOfScaledRange(total: real, f: real)
    requires total == 11700000.0 * f
    ensures total / 36.0 == 325000.0 * f
  {
  }

  /** Each point of the sensitivity curve is the payment on 325 000 at that
      point's rate. */
  lemma SensitivityMeansArePaymentsOnMeanAmount(years: nat)
    requires years >= 1
    ensures forall k :: 0 <= k < |SensitivityMeans(years)| ==>
              SensitivityMeans(years)[k]
              == AnnuityPayment(325000.0, MonthlyRate(SensitivityRates()[k]), Months(years))
  {
    forall k | 0 <= k < 7
      ensures SensitivityMeans(years)[k]
              == AnnuityPayment(325000.0, MonthlyRate(SensitivityRates()[k]), Months(years))
    {
      MeanPaymentIsPaymentOnMeanAmount(SensitivityRates()[k], years);
    }
  }
}
