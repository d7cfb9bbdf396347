/** The detailed loan report of the calculator's first tab: notary fees,
    project cost and the amount to borrow, then (when there is something to
    borrow) the bank payment, the borrower insurance, totals over the term
    and the incomes the monthly payment requires. */
module LoanReport {
  import opened Annuity
  import opened Property
  import IncomeRequirements

  /** The sidebar's default notary-fee rate, in percent: 7 for an old
      property and 1 otherwise. The user may override it with the slider.
      This table is distinct from the valuation page's
      (`MaxPropertyValue.ValuationNotaryRate`). */
  function DefaultNotaryRate(kind: PropertyType): (ratePercent: real)
    ensures ratePercent == 7.0 <==> kind == Ancien
    ensures ratePercent == 1.0 <==> kind != Ancien
  {
    if kind == Ancien then 7.0 else 1.0
  }

  /** The borrower-insurance options: "Aucune", "Taux (%)" and
      "Montant fixe (€)". */
  datatype InsuranceChoice = NoInsurance | InsuranceRate | InsuranceAmount

  /** The monthly insurance premium: an annual percentage of the loan spread
      over twelve months, a fixed monthly amount, or nothing. */
  function InsurancePerMonth(choice: InsuranceChoice, loanAmount: real,
                             insuranceRate: real, insuranceAmount: real): (insurance: real)
    ensures choice == InsuranceRate ==> insurance * 1200.0 == loanAmount * insuranceRate
    ensures choice == InsuranceAmount ==> insurance == insuranceAmount
    ensures choice == NoInsurance ==> insurance == 0.0
  {
    match choice
    case InsuranceRate => loanAmount * insuranceRate / 100.0 / 12.0
    case InsuranceAmount => insuranceAmount
    case NoInsurance => 0.0
  }

  /** What the report shows. When the down payment covers the project the
      report stops after the first three amounts. */
  datatype Report =
    | NoLoanRequired(notaryFees: real, projectCost: real, loanAmount: real)
    | Financed(
        notaryFees: real,
        projectCost: real,
        loanAmount: real,
        months: nat,
        bankPayment: real,
        insurance: real,
        monthlyPayment: real,
        totalPaid: real,
        totalInterest: real,
        requiredMonthlyNet: real,
        requiredAnnualNet: real,
        requiredMonthlyGross: real,
        requiredAnnualGross: real)

  /** The report's arithmetic. The amount to borrow is what the down payment
      leaves of the property value plus notary fees; nothing is borrowed
      exactly when the down payment covers that cost. A financed loan's bank
      payment is the annuity payment, which exceeds the first month's
      interest; the total paid is the monthly payment, insurance included,
      over every month, and the total interest is the bank payments over
      every month less the loan, so the total paid splits into the loan, the
      interest (which excludes insurance and is positive) and the insurance;
      the required net income carries the monthly payment at the debt ratio, and the two
      ways of computing the gross annual income agree. */
  function GenerateLoanReport(propertyValue: real, annualRatePercent: real, years: nat,
                              downPayment: real, debtRatio: real, netToGrossRatio: real,
                              notaryFeeRate: real, choice: InsuranceChoice,
                              insuranceRate: real, insuranceAmount: real): (r: Report)
    requires annualRatePercent > 0.0 && years >= 1
    requires debtRatio > 0.0 && netToGrossRatio > 0.0
    ensures r.notaryFees * 100.0 == propertyValue * notaryFeeRate
    ensures r.loanAmount + downPayment == r.projectCost
    ensures r.projectCost == propertyValue + r.notaryFees
    ensures r.NoLoanRequired? <==> propertyValue + propertyValue * notaryFeeRate / 100.0 <= downPayment
    ensures r.Financed? ==>
      && r.loanAmount > 0.0
      && r.months == Months(years)
      && r.bankPayment == AnnuityPayment(r.loanAmount, MonthlyRate(annualRatePercent), r.months)
      && r.bankPayment > r.loanAmount * MonthlyRate(annualRatePercent)
      && r.insurance == InsurancePerMonth(choice, r.loanAmount, insuranceRate, insuranceAmount)
      && r.monthlyPayment == r.bankPayment + r.insurance
      && r.totalPaid == r.monthlyPayment * (r.months as real)
      && r.totalInterest == r.bankPayment * (r.months as real) - r.loanAmount
      && r.totalPaid == r.loanAmount + r.totalInterest + r.insurance * (r.months as real)
      && r.totalInterest > 0.0
      && r.requiredMonthlyNet * debtRatio == r.monthlyPayment
      && r.requiredAnnualNet == 12.0 * r.requiredMonthlyNet
      && r.requiredMonthlyGross * netToGrossRatio == r.requiredMonthlyNet
      && r.requiredAnnualGross * netToGrossRatio == r.requiredAnnualNet
      && r.requiredAnnualGross == 12.0 * r.requiredMonthlyGross
  {
    var notaryFees := propertyValue * notaryFeeRate / 100.0;
    var projectCost := propertyValue + notaryFees;
    var loanAmount := projectCost - downPayment;
    if loanAmount <= 0.0 then
      NoLoanRequired(notaryFees, projectCost, loanAmount)
    else
      var months := Months(years);
      var monthlyRate := MonthlyRate(annualRatePercent);
      var bank := AnnuityPayment(loanAmount, monthlyRate, months);
      var insurance := InsurancePerMonth(choice, loanAmount, insuranceRate, insuranceAmount);
      var monthlyPayment := bank + insurance;
      var totalPaid := monthlyPayment * (months as real);
      var totalInterest := bank * (months as real) - loanAmount;
      PaymentCoversPrincipal(loanAmount, monthlyRate, months);
      var monthlyNet := monthlyPayment / debtRatio;
      var annualNet := monthlyNet * 12.0;
      var monthlyGross := monthlyNet / netToGrossRatio;
      var annualGross := annualNet / netToGrossRatio;
      Financed(notaryFees, projectCost, loanAmount, months, bank, insurance, monthlyPayment,
               totalPaid, totalInterest, monthlyNet, annualNet, monthlyGross, annualGross)
  }

  /** The report's four required incomes are the calculator's income
      conversion applied to the report's monthly payment. */
  lemma ReportIncomesMatchConversion(propertyValue: real, annualRatePercent: real, years: nat,
                                     downPayment: real, debtRatio: real, netToGrossRatio: real,
                                     notaryFeeRate: real, choice: InsuranceChoice,
                                     insuranceRate: real, insuranceAmount: real)
    requires annualRatePercent > 0.0 && years >= 1
    requires debtRatio > 0.0 && netToGrossRatio > 0.0
    ensures var r := GenerateLoanReport(propertyValue, annualRatePercent, years, downPayment,
                                        debtRatio, netToGrossRatio, notaryFeeRate, choice,
                                        insuranceRate, insuranceAmount);
            r.Financed? ==>
              var t := IncomeRequirements.CalculateIncomeRequirements([r.monthlyPayment], debtRatio,
                                                                      netToGrossRatio);
              t.monthlyNet == [r.requiredMonthlyNet] && t.annualNet == [r.requiredAnnualNet] &&
              t.monthlyGross == [r.requiredMonthlyGross] && t.annualGross == [r.requiredAnnualGross]
  {
    var r := GenerateLoanReport(propertyValue, annualRatePercent, years, downPayment,
                                debtRatio, netToGrossRatio, notaryFeeRate, choice,
                                insuranceRate, insuranceAmount);
    if r.Financed? {
      var t := IncomeRequirements.CalculateIncomeRequirements([r.monthlyPayment], debtRatio,
                                                              netToGrossRatio);
      UniqueQuotient(t.monthlyNet[0], r.requiredMonthlyNet, debtRatio);
      UniqueQuotient(t.monthlyGross[0], r.requiredMonthlyGross, netToGrossRatio);
    }
  }

  lemma UniqueQuotient(x: real, y: real, d: real)
    requires d > 0.0 && x * d == y * d
    ensures x == y
  {
  }
}
