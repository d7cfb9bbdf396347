/** The "maximum property value" page: from a target monthly payment, a
    term, an annual rate and a down payment, the largest loan the payment
    can carry, then the property value whose price plus notary fees that
    loan and the down payment cover. */
module MaxPropertyValue {
  import opened Annuity
  import opened Property
  import opened LoanReport

  /** This page's notary-fee table, in percent of the property value:
      2.0 for a new property, 7.5 for an old one. It is a different table
      from the report's defaults (`LoanReport.DefaultNotaryRate`). */
  function ValuationNotaryRate(kind: PropertyType): (ratePercent: real)
    ensures ratePercent == 2.0 <==> kind == Neuf
    ensures ratePercent == 7.5 <==> kind == Ancien
  {
    match kind
    case Neuf => 2.0
    case Ancien => 7.5
  }

  /** The loan a monthly payment repays over `months` months at the monthly
      rate `rate`: the present value `payment * ((1+r)^n - 1) / (r (1+r)^n)`
      when r > 0, and `payment * months` otherwise. */
  function LoanFromPayment(payment: real, rate: real, months: nat): (loan: real)
    ensures rate <= 0.0 ==> loan == payment * (months as real)
  {
    if rate > 0.0 then
      var q := Pow(1.0 + rate, months);
      PowAtLeastOne(1.0 + rate, months);
      payment * (q - 1.0) / (rate * q)
    else
      payment * (months as real)
  }

  /** The results shown by the page. */
  datatype Valuation = Valuation(
    notaryRate: real,
    loanAmount: real,
    propertyValue: real,
    notaryFees: real,
    projectCost: real)

  /** The closed-form solver. The property value is the one whose price and
      notary fees are exactly covered by the loan and the down payment, so the
      project costs the loan plus the down payment; every amount is positive. */
  function MaximumPropertyValue(monthlyPayment: real, years: nat, annualRatePercent: real,
                                downPayment: real, kind: PropertyType): (v: Valuation)
    requires monthlyPayment >= 1.0 && years >= 1
    requires annualRatePercent >= 0.0 && downPayment >= 0.0
    ensures v.notaryRate == ValuationNotaryRate(kind)
    ensures v.loanAmount == LoanFromPayment(monthlyPayment, MonthlyRate(annualRatePercent), Months(years))
    ensures v.propertyValue * (1.0 + v.notaryRate / 100.0) == v.loanAmount + downPayment
    ensures v.notaryFees == v.propertyValue * v.notaryRate / 100.0
    ensures v.projectCost == v.propertyValue + v.notaryFees
    ensures v.projectCost == v.loanAmount + downPayment
    ensures v.loanAmount > 0.0 && v.propertyValue > 0.0
    ensures v.notaryFees > 0.0 && v.projectCost > 0.0
    ensures v.notaryFees < v.propertyValue && v.propertyValue < v.projectCost
  {
    var notaryRate := ValuationNotaryRate(kind);
    var loan := LoanFromPayment(monthlyPayment, MonthlyRate(annualRatePercent), Months(years));
    LoanFromPaymentPositive(monthlyPayment, MonthlyRate(annualRatePercent), Months(years));
    var value := (loan + downPayment) / (1.0 + notaryRate / 100.0);
    var fees := value * notaryRate / 100.0;
    ValueCoversCost(loan + downPayment, notaryRate, value);
    Valuation(notaryRate, loan, value, fees, value + fees)
  }

  /** The round trip through the loan report: entering the maximum property
      value for a target payment into the report, with the same rate, term,
      down payment and notary rate, finances exactly the same loan, notary
      fees and project cost, and the report's bank payment is the target
      payment. */
  lemma ValuationRoundTripsThroughReport(monthlyPayment: real, years: nat,
                                         annualRatePercent: real, downPayment: real,
                                         kind: PropertyType, debtRatio: real,
                                         netToGrossRatio: real, choice: InsuranceChoice,
                                         insuranceRate: real, insuranceAmount: real)
    requires monthlyPayment >= 1.0 && years >= 1
    requires annualRatePercent > 0.0 && downPayment >= 0.0
    requires debtRatio > 0.0 && netToGrossRatio > 0.0
    ensures var v := MaximumPropertyValue(monthlyPayment, years, annualRatePercent, downPayment, kind);
            var r := GenerateLoanReport(v.propertyValue, annualRatePercent, years, downPayment,
                                        debtRatio, netToGrossRatio, v.notaryRate, choice,
                                        insuranceRate, insuranceAmount);
            && r.Financed?
            && r.notaryFees == v.notaryFees
            && r.projectCost == v.projectCost
            && r.loanAmount == v.loanAmount
            && r.bankPayment == monthlyPayment
  {
    var v := MaximumPropertyValue(monthlyPayment, years, annualRatePercent, downPayment, kind);
    var r := GenerateLoanReport(v.propertyValue, annualRatePercent, years, downPayment,
                                debtRatio, netToGrossRatio, v.notaryRate, choice,
                                insuranceRate, insuranceAmount);
    SameFees(r.notaryFees, v.notaryFees, v.propertyValue * v.notaryRate);
    assert r.loanAmount == v.loanAmount;
    assert v.propertyValue + v.propertyValue * v.notaryRate / 100.0 > downPayment;
    PaymentOfLoanFromPayment(monthlyPayment, MonthlyRate(annualRatePercent), Months(years));
  }

  lemma SameFees(a: real, b: real, x: real)
    requires a * 100.0 == x && b == x / 100.0
    ensures a == b
  {
  }

  /** v == c / (1 + t/100) with c > 0 and 0 < t < 100: v (1 + t/100) == c,
      v + v t/100 == c, and 0 < v t/100 < v < c. */
  lemma ValueCoversCost(cost: real, notaryRate: real, value: real)
    requires cost > 0.0 && 0.0 < notaryRate < 100.0
    requires value == cost / (1.0 + notaryRate / 100.0)
    ensures value * (1.0 + notaryRate / 100.0) == cost
    ensures value + value * notaryRate / 100.0 == cost
    ensures 0.0 < value * notaryRate / 100.0 < value < cost
  {
    var d := 1.0 + notaryRate / 100.0;
    assert value * d == cost;
    assert value > 0.0;
    assert value * d == value + value * notaryRate / 100.0;
  }

  // ---------------------------------------------------------------------
  // The inverse annuity

  /** With r > 0 the loan is `payment * g / q`, g the geometric sum and
      q = (1+r)^n: the two forms of the present value agree. */
  lemma LoanFromPaymentEquation(payment: real, rate: real, months: nat)
    requires rate > 0.0
    ensures LoanFromPayment(payment, rate, months) * (rate * Pow(1.0 + rate, months))
         == payment * (Pow(1.0 + rate, months) - 1.0)
  {
    var q := Pow(1.0 + rate, months);
    PowAtLeastOne(1.0 + rate, months);
    DivideThenMultiply(payment * (q - 1.0), rate * q);
  }

  /** A payment of at least 1 over at least one month at a non-negative rate
      carries a positive loan. */
  lemma LoanFromPaymentPositive(payment: real, rate: real, months: nat)
    requires payment > 0.0 && months >= 1 && rate >= 0.0
    ensures LoanFromPayment(payment, rate, months) > 0.0
  {
    if rate > 0.0 {
      var q := Pow(1.0 + rate, months);
      PowAboveOne(rate, months);
      LoanFromPaymentEquation(payment, rate, months);
      PositiveQuotient(LoanFromPayment(payment, rate, months), rate * q, payment * (q - 1.0));
    }
  }

  /** Round trip one way: the loan computed from a target payment, fed back
      into the forward annuity formula with the same rate and term, gives
      the target payment back exactly. */
  lemma {:induction false} PaymentOfLoanFromPayment(payment: real, rate: real, months: nat)
    requires rate > 0.0 && months >= 1
    ensures AnnuityPayment(LoanFromPayment(payment, rate, months), rate, months) == payment
  {
    var q := Pow(1.0 + rate, months);
    var loan := LoanFromPayment(payment, rate, months);
    PowAboveOne(rate, months);
    LoanFromPaymentEquation(payment, rate, months);
    PaymentUnique(AnnuityPayment(loan, rate, months), payment, loan, rate, q);
  }

  /** Round trip the other way: the loan whose annuity payment is p is
      recovered from p. */
  lemma {:induction false} LoanFromPaymentOfLoan(loan: real, rate: real, months: nat)
    requires rate > 0.0 && months >= 1
    ensures LoanFromPayment(AnnuityPayment(loan, rate, months), rate, months) == loan
  {
    var q := Pow(1.0 + rate, months);
    var p := AnnuityPayment(loan, rate, months);
    PowAboveOne(rate, months);
    LoanFromPaymentEquation(p, rate, months);
    LoanUnique(LoanFromPayment(p, rate, months), p, loan, rate, q);
  }

  /** The loan grows linearly with the target payment. */
  lemma LoanFromPaymentLinear(a: real, b: real, c: real, rate: real, months: nat)
    ensures LoanFromPayment(a + b, rate, months)
         == LoanFromPayment(a, rate, months) + LoanFromPayment(b, rate, months)
    ensures LoanFromPayment(c * a, rate, months) == c * LoanFromPayment(a, rate, months)
  {
    if rate > 0.0 {
      DiscountedLinear(a, b, c, rate, months);
    } else {
      Distributes(a, b, c, months as real);
    }
  }

  lemma DiscountedLinear(a: real, b: real, c: real, rate: real, months: nat)
    requires rate > 0.0
    ensures LoanFromPayment(a + b, rate, months)
         == LoanFromPayment(a, rate, months) + LoanFromPayment(b, rate, months)
    ensures LoanFromPayment(c * a, rate, months) == c * LoanFromPayment(a, rate, months)
  {
    var q := Pow(1.0 + rate, months);
    PowAtLeastOne(1.0 + rate, months);
    LoanFromPaymentEquation(a + b, rate, months);
    LoanFromPaymentEquation(a, rate, months);
    LoanFromPaymentEquation(b, rate, months);
    LoanFromPaymentEquation(c * a, rate, months);
    QuotientsLinear(LoanFromPayment(a + b, rate, months), LoanFromPayment(a, rate, months),
                   LoanFromPayment(b, rate, months), LoanFromPayment(c * a, rate, months),
                   a, b, c, rate * q, q - 1.0);
  }

  /** A larger target payment carries a strictly larger loan. */
  lemma LoanFromPaymentIncreasing(a: real, b: real, rate: real, months: nat)
    requires a < b && months >= 1 && rate >= 0.0
    ensures LoanFromPayment(a, rate, months) < LoanFromPayment(b, rate, months)
  {
    LoanFromPaymentLinear(a, b - a, 1.0, rate, months);
    LoanFromPaymentPositive(b - a, rate, months);
    assert a + (b - a) == b;
  }

  /** Discounting: the loan never exceeds the sum of the payments, and
      equals it exactly when the rate is zero. */
  lemma LoanBelowPaymentsTotal(payment: real, rate: real, months: nat)
    requires payment > 0.0 && months >= 1 && rate >= 0.0
    ensures LoanFromPayment(payment, rate, months) <= payment * (months as real)
    ensures LoanFromPayment(payment, rate, months) == payment * (months as real) <==> rate == 0.0
  {
    if rate > 0.0 {
      DiscountedBelowTotal(payment, rate, months, months as real);
    }
  }

  /** With a positive rate the loan is strictly below the payments' total
      `payment * n`, `n` being `months` as a real. */
  lemma DiscountedBelowTotal(payment: real, rate: real, months: nat, n: real)
    requires payment > 0.0 && months >= 1 && rate > 0.0 && n == months as real
    ensures LoanFromPayment(payment, rate, months) < payment * n
  {
    var x := 1.0 + rate;
    var q := Pow(x, months);
    PowAboveOne(rate, months);
    GeometricSumIdentity(x, months);
    SumBelowTermTimesPower(x, months, n);
    LoanFromPaymentEquation(payment, rate, months);
    LoanBelowPayments(LoanFromPayment(payment, rate, months), payment, rate, q,
                     GeometricSum(x, months), n);
  }

  // ---------------------------------------------------------------------
  // Algebra over plain reals

  lemma PositiveQuotient(loan: real, d: real, n: real)
    requires d > 0.0 && n > 0.0 && loan * d == n
    ensures loan > 0.0
  {
  }

  /** If L (r q) == P (q - 1) and p (q - 1) == L r q with q > 1, then p == P. */
  lemma PaymentUnique(p: real, payment: real, loan: real, rate: real, q: real)
    requires rate > 0.0 && q > 1.0
    requires loan * (rate * q) == payment * (q - 1.0)
    requires p * (q - 1.0) == loan * rate * q
    ensures p == payment
  {
    assert (p - payment) * (q - 1.0) == 0.0;
    ZeroFactor(p - payment, q - 1.0);
  }

  /** If l (r q) == p (q - 1) and p (q - 1) == L r q with r q > 0, then l == L. */
  lemma LoanUnique(l: real, p: real, loan: real, rate: real, q: real)
    requires rate > 0.0 && q > 1.0
    requires l * (rate * q) == p * (q - 1.0)
    requires p * (q - 1.0) == loan * rate * q
    ensures l == loan
  {
    assert (l - loan) * (rate * q) == 0.0;
    ZeroFactor(l - loan, rate * q);
  }

  /** Quotients by the same non-zero d are additive and homogeneous in
      their numerators. */
  lemma QuotientsLinear(lab: real, la: real, lb: real, lca: real,
                       a: real, b: real, c: real, d: real, e: real)
    requires d != 0.0
    requires lab * d == (a + b) * e && la * d == a * e && lb * d == b * e
    requires lca * d == (c * a) * e
    ensures lab == la + lb && lca == c * la
  {
    assert (lab - la - lb) * d == 0.0;
    ZeroFactor(lab - la - lb, d);
    assert (lca - c * la) * d == 0.0;
    ZeroFactor(lca - c * la, d);
  }

  /** From l (r q) == p (q - 1), q - 1 == r g and g < n q: l < p n. */
  lemma LoanBelowPayments(l: real, p: real, rate: real, q: real, g: real, n: real)
    requires p > 0.0 && rate > 0.0 && q > 1.0 && n > 0.0
    requires l * (rate * q) == p * (q - 1.0) && q - 1.0 == rate * g && g < n * q
    ensures l < p * n
  {
    assert (l * q - p * g) * rate == 0.0;
    ZeroFactor(l * q - p * g, rate);
    assert l * q == p * g;
    BelowScaled(p * g, p, g, n * q);
    assert (p * n - l) * q > 0.0;
    PositiveFactor(p * n - l, q);
  }
}
