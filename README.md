# Mortgage calculator: the financial engine

A Dafny model of the arithmetic at the heart of a Streamlit mortgage
calculator ("Capacité d'emprunt") and of its "maximum property value" page.
The model covers:

- the annuity payment of a fixed-rate loan;
- the borrowing-capacity curve;
- the conversion of a monthly payment into the net and gross incomes it
  requires;
- the loan report (notary fees, project cost, amount to borrow, insurance,
  totals);
- the month-by-month amortization schedule;
- the prepayment simulation (extra capital from a chosen month, capped at
  the balance, cut off after twice the term);
- the rate-sensitivity curve;
- the inverse computation on the second page: from a target monthly payment
  to the largest loan, then to the property value that loan and the down
  payment can buy.

All arithmetic is exact (`real`). `(1 + r)^n` is a recursive `Pow` over whole
numbers of months.

Modules, one per file:

| module | what it holds |
|---|---|
| `Annuity` (annuity.dfy) | monthly rate, number of months, `Pow`, the annuity payment and its algebra (linearity, monotonicity, total paid exceeds the loan) |
| `Property` (property.dfy) | the two property kinds, "Neuf" and "Ancien" |
| `IncomeRequirements` (income_requirements.dfy) | the four income lists derived from a list of payments |
| `LoanReport` (loan_report.dfy) | the sidebar's default notary rate, the insurance premium and the loan report |
| `Amortization` (amortization.dfy) | the schedule generator as a loop, the specification it meets, and the exact-amortization theorem |
| `Prepayment` (prepayment.dfy) | the prepayment simulator as a loop, the specification it meets, termination and repayment |
| `CapacitySweeps` (capacity_sweeps.dfy) | the borrowing-capacity loop and the sensitivity curve |
| `MaxPropertyValue` (max_property_value.dfy) | the valuation page: its notary table, the inverse annuity and the property value |

The two loops of the source become methods:
`Amortization.AmortizationLoop` and `Prepayment.PrepaymentLoop`, each
called by the method that first computes the bank payment. Each loop is
proved to build exactly the rows of a recursive specification function
(`ScheduleFrom`, `PrepaymentFrom`). The properties of those rows are then
proved about the function:

- every row follows from the balance the previous row left;
- the balance is positive until the last row;
- the schedule of an annuity loan runs exactly the term, its balance falls strictly every month and ends at zero;
- the prepayment simulation never overpays, ends once nothing is owed,
  and repays the loan within the term.

## Model

| member | source | states |
|---|---|---|
| Annuity.MonthlyRate | Capacite_Emprunt.py:31 | the monthly rate is the annual percentage over 1200, positive exactly when the annual rate is |
| Annuity.Months | Capacite_Emprunt.py:30 | the term in months is exactly `years` whole years of 12 months (divisible by 12, quotient `years`), so at least 12 for a term of at least a year |
| Annuity.AnnuityPayment | Capacite_Emprunt.py:39-40 | the payment p solves the annuity equation p((1+r)^n - 1) = L r (1+r)^n, exceeds the first month's interest for a positive loan, and has the sign of the loan |
| Annuity.PowAboveOne | Capacite_Emprunt.py:140 | (1+r)^n > 1 for r > 0 and n >= 1, so the formula's denominator is positive |
| Annuity.GeometricSumIdentity | Capacite_Emprunt.py:140 | x^n - 1 = (x - 1)(1 + x + ... + x^(n-1)), the identity the balance and payment proofs rest on |
| Annuity.PaymentIsLoanTimesFactor | Capacite_Emprunt.py:140 | the payment is the loan times the payment on a loan of one |
| Annuity.PaymentLinear | Capacite_Emprunt.py:140 | the payment of a sum of loans is the sum of the payments, and scaling the loan scales the payment |
| Annuity.PaymentMonotone | Capacite_Emprunt.py:39-40 | a larger loan has a strictly larger payment |
| Annuity.PaymentCoversPrincipal | Capacite_Emprunt.py:93-94 | paying the annuity over the whole term pays strictly more than the loan, so the total interest is positive |
| IncomeRequirements.CalculateIncomeRequirements | Capacite_Emprunt.py:52-63 | four lists as long as the payments: monthly net times the debt ratio is the payment, annual net is 12 monthly net, monthly gross times the net/gross ratio is monthly net, annual gross is 12 monthly gross |
| IncomeRequirements.AnnualGrossCarriesTwelvePayments | Capacite_Emprunt.py:52-56 | annual gross income times both ratios is twelve payments |
| IncomeRequirements.IncomeWithinSliderBounds | Capacite_Emprunt.py:53-56 | within the sliders' ratio ranges (lines 272-273) the required monthly net income lies between 2 and 10 times the payment, and the monthly gross between the net and twice the net |
| IncomeRequirements.IncomeMonotone | Capacite_Emprunt.py:53-56 | a larger payment requires larger incomes in all four lists |
| LoanReport.DefaultNotaryRate | Capacite_Emprunt.py:260 | the default notary rate is 7 exactly for an old property and 1 exactly otherwise |
| LoanReport.InsurancePerMonth | Capacite_Emprunt.py:83-88 | a rate-based premium is the loan times the annual rate over 1200, a fixed one is the amount entered, and no insurance is zero |
| LoanReport.GenerateLoanReport | Capacite_Emprunt.py:70-99 | fees are value times rate over 100; cost is value plus fees; loan plus down payment is the cost; no loan exactly when the down payment covers the cost; otherwise it states the bank payment, the insurance, the total paid as the monthly payment over every month, the total interest as the bank payments over every month less the loan, hence the total paid split into loan, interest and insurance, positive interest, and the four incomes |
| LoanReport.ReportIncomesMatchConversion | Capacite_Emprunt.py:96-99 | the report's four incomes are the income conversion of lines 52-63 applied to the report's monthly payment |
| MaxPropertyValue.ValuationNotaryRate | pages/valeur_bien_maximal.py:40-41 | this page's notary rate is 2.0 exactly for "Neuf" and 7.5 exactly for "Ancien" |
| MaxPropertyValue.LoanFromPayment | pages/valeur_bien_maximal.py:44-47 | with a zero rate, the loan is the payment times the number of months |
| MaxPropertyValue.LoanFromPaymentEquation | pages/valeur_bien_maximal.py:44-45 | with a positive rate, the loan l solves l r (1+r)^n = p((1+r)^n - 1) |
| MaxPropertyValue.MaximumPropertyValue | pages/valeur_bien_maximal.py:40-50 | value times (1 + rate/100) is the loan plus the down payment; fees are value times rate over 100; cost is value plus fees and equals loan plus down payment; loan, value, fees and cost are positive, with fees < value < cost |
| MaxPropertyValue.LoanFromPaymentPositive | pages/valeur_bien_maximal.py:44-47 | a positive payment over at least one month gives a positive loan, for any rate >= 0 |
| MaxPropertyValue.PaymentOfLoanFromPayment | pages/valeur_bien_maximal.py:44-45 | round trip: the annuity payment of the loan computed from a payment is that payment |
| MaxPropertyValue.LoanFromPaymentOfLoan | pages/valeur_bien_maximal.py:44-45 | round trip the other way: the loan computed from a loan's annuity payment is that loan |
| MaxPropertyValue.LoanFromPaymentLinear | pages/valeur_bien_maximal.py:44-47 | the loan is additive and homogeneous in the target payment, for every rate |
| MaxPropertyValue.LoanFromPaymentIncreasing | pages/valeur_bien_maximal.py:44-47 | a larger target payment gives a strictly larger loan |
| MaxPropertyValue.LoanBelowPaymentsTotal | pages/valeur_bien_maximal.py:44-47 | the loan is at most the payments' total over the term, with equality exactly when the rate is zero |
| MaxPropertyValue.ValuationRoundTripsThroughReport | pages/valeur_bien_maximal.py:43-50 | entering the maximum property value into the loan report (lines 70-81 of Capacite_Emprunt.py) at the page's notary rate finances the same loan, fees and cost, at a bank payment equal to the target payment |
| CapacitySweeps.LoanAmounts | Capacite_Emprunt.py:29 | the range has 36 amounts, from 150 000 in steps of 10 000, the last one below 500 001 |
| CapacitySweeps.CapacityPaymentSign | Capacite_Emprunt.py:35-41 | a capacity payment is never negative, and it is zero exactly when the down payment covers the amount |
| CapacitySweeps.CapacityPaymentMonotone | Capacite_Emprunt.py:35-41 | the capacity payment does not decrease as the amount grows |
| CapacitySweeps.BorrowingCapacityPayments | Capacite_Emprunt.py:28-41 | one payment per amount; each is the annuity payment on the amount less the down payment, or 0 when that is not positive; zero exactly for covered amounts; non-decreasing along the range |
| CapacitySweeps.SensitivityRates | Capacite_Emprunt.py:497 | seven positive rates, from 2.0 in steps of 0.5, the last one below 5.1 |
| CapacitySweeps.SensitivityMeans | Capacite_Emprunt.py:497-509 | one mean payment per rate of the range |
| CapacitySweeps.MeanPaymentIsPaymentOnMeanAmount | Capacite_Emprunt.py:499-509 | the mean payment over the 36 amounts is the payment on their mean amount, 325 000 |
| CapacitySweeps.SensitivityMeansArePaymentsOnMeanAmount | Capacite_Emprunt.py:497-509 | each point of the sensitivity curve is the payment on 325 000 at that point's rate |
| Amortization.ClampAtZero | Capacite_Emprunt.py:153 | the shown balance is `max(balance, 0)`: the balance when it is non-negative, 0 when it is negative |
| Amortization.GenerateAmortizationSchedule | Capacite_Emprunt.py:137-157 | the generator returns exactly `AmortizationSchedule` |
| Amortization.AmortizationLoop | Capacite_Emprunt.py:141-156 | the loop returns exactly the rows of `ScheduleFrom` from month 1 |
| Amortization.AmortizationMonth | Capacite_Emprunt.py:144-154 | one month's row is the first row of the rest of the schedule, which goes on from the balance it leaves or ends when that balance is not positive |
| Amortization.ScheduleFromIsSchedule | Capacite_Emprunt.py:143-156 | the rows satisfy `IsScheduleFrom`: 1 to `months` rows, consecutive months, interest on the previous balance, capital plus interest is the bank payment, shown payment is bank payment plus insurance, shown balance clamped at zero, positive balance before the last row |
| Amortization.AmortizationScheduleIsSchedule | Capacite_Emprunt.py:137-157 | the generator's rows for a loan are a schedule from month 1 in that sense |
| Amortization.SchedulePaymentSplits | Capacite_Emprunt.py:145-149 | in every row capital plus interest is the bank payment, and the shown payment is bank payment plus insurance |
| Amortization.BalanceAfterStep | Capacite_Emprunt.py:144-146 | one month of the loop takes the closed-form balance after k payments to the one after k + 1 |
| Amortization.AnnuityBalanceBounds | Capacite_Emprunt.py:140-146 | under the annuity payment the closed-form balance starts at the loan, stays positive while payments remain, and is zero after the last one |
| Amortization.ExactScheduleFrom | Capacite_Emprunt.py:143-156 | from the balance after k payments the loop makes `months - k` rows, and each leaves the closed-form balance |
| Amortization.ExactCapitalFrom | Capacite_Emprunt.py:145-150 | the capital repaid from the balance after k payments adds up to that balance |
| Amortization.AmortizesExactly | Capacite_Emprunt.py:140-156 | for a positive loan the schedule has exactly `years * 12` rows, positive balances before the last and zero after it, and the capital column adds up to the loan |
| Amortization.BalanceDecreasing | Capacite_Emprunt.py:144-146 | when the payment exceeds the first month's interest, the balance after each month is strictly below the one before and never above the loan |
| Amortization.ScheduleBalanceDecreases | Capacite_Emprunt.py:143-156 | for a positive loan each row's remaining balance is strictly below the previous row's (the first below the loan), and the last is zero |
| Amortization.ScheduleInterestTotal | Capacite_Emprunt.py:144-151 | the interest column adds up to the bank payments over the term less the loan |
| Amortization.ScheduleTotals | Capacite_Emprunt.py:137-157 | for a positive loan: the full term, every row showing bank payment plus insurance, capital adding up to the loan, interest to the bank payments less the loan |
| Amortization.ScheduleMatchesReport | Capacite_Emprunt.py:78-94 | the schedule of a financed report's loan and insurance has the report's months, shows the report's monthly payment in every row, and its columns add up to the loan and the report's total interest |
| Prepayment.CappedCapital | Capacite_Emprunt.py:172-173 | the capital repaid never exceeds the balance or what the payment leaves, and is one of the two |
| Prepayment.PrepaymentMonth | Capacite_Emprunt.py:168-177 | one month's row, with interest, capped capital and total payment including any extra, is the first row of the rest of the simulation, which goes on from the balance it leaves |
| Prepayment.SimulatePrepayment | Capacite_Emprunt.py:160-189 | the simulator returns exactly `PrepaymentSchedule` |
| Prepayment.PrepaymentLoop | Capacite_Emprunt.py:164-188 | the loop returns exactly the rows of `PrepaymentFrom` from month 1 |
| Prepayment.PrepaymentFromIsPrepayment | Capacite_Emprunt.py:166-188 | the rows satisfy `IsPrepaymentFrom`: empty exactly when nothing is owed; at most up to month `2 * months`; extra added both to capital before the cap and to the shown payment; capital capped at the balance; balance never negative; positive before the last row; the last row clears the balance or is month `2 * months` |
| Prepayment.PrepaymentScheduleIsPrepayment | Capacite_Emprunt.py:160-189 | the simulation of a loan is a prepayment schedule from month 1 in that sense |
| Prepayment.CappedMonthIsLast | Capacite_Emprunt.py:167-174 | once the cap fires in a month, that month repays exactly the balance, leaves zero and is the last row |
| Prepayment.NoExtraFromMonth | Capacite_Emprunt.py:168-177 | without an extra payment, starting from the annuity balance after k months, the simulation makes the same rows as the schedule generator |
| Prepayment.PrepaymentWithoutExtraIsSchedule | Capacite_Emprunt.py:160-189 | without an extra payment the simulation of a positive loan is its amortization schedule |
| Prepayment.WithinTermFrom | Capacite_Emprunt.py:166-188 | from a balance no larger than the annuity balance, with a non-negative extra, the simulation ends by the end of the term |
| Prepayment.CapitalTelescopes | Capacite_Emprunt.py:172-174 | the capital column adds up to the starting balance less the balance the last row leaves |
| Prepayment.PrepaymentWithinTerm | Capacite_Emprunt.py:166-188 | with a non-negative extra (the widget's minimum, line 477) the simulation of a positive loan has 1 to `years * 12` rows, no more than the amortization schedule |
| Prepayment.PrepaymentRepaysLoan | Capacite_Emprunt.py:167-174 | with a non-negative extra the last row clears the balance and the capital column adds up to the loan |

## Left out

- Streamlit widgets, page layout, messages, charts (matplotlib, plotly, `st.bar_chart`), the PDF report, the CSV export and pandas table styling are not modelled. They only render or store results. The widgets' bounds become preconditions instead: rate > 0, at least one year, positive ratios, payment >= 1, down payment >= 0, extra payment >= 0.
- Floating point is not modelled. The arithmetic is exact `real`, so "the balance is exactly zero after the last month" holds for the model. With IEEE doubles only the last row's remaining balance can differ from zero. The generator's `for` loop (Capacite_Emprunt.py:143) never runs past the term, and the balance before its last month is close to one payment, far from zero. So a positive loan's schedule still has exactly `years * 12` rows. The prepayment `while` loop (line 167) is different: a tiny positive balance left by rounding can make it run one month more than the model does.
- The `{:.2f}` display rounding is not modelled.
- The annuity formula in Capacite_Emprunt.py divides by zero at a zero rate. The rate slider (line 253) starts at 0.5, so a positive rate is a precondition there. Only the valuation page has a zero-rate branch, and `LoanFromPayment` models it.
- The sidebar lets the user override the default notary rate (lines 263-269). The report therefore takes the notary rate as an input, and `DefaultNotaryRate` models only the default of line 260.
- The income chart's payment list (lines 385-389) is the list `CapacitySweeps.RangePayments` computes, without the down payment. Its income conversion is `CalculateIncomeRequirements`. The chart itself is not modelled.
- CapacitySweeps.SensitivityMeans: its contract states only the number of means. What each mean is comes in `SensitivityMeansArePaymentsOnMeanAmount`. That the curve rises with the rate is not proved; the source does not claim it.
- Prepayment.PrepaymentWithinTerm and Prepayment.PrepaymentRepaysLoan: these require a non-negative extra payment, the widget's minimum. For a negative extra the simulation is still bounded by `2 * months` rows (`IsPrepaymentFrom`), but it may stop there with a balance left.
- Amortization.AmortizesExactly and the lemmas built on it assume a positive loan. The amortization tab calls the generator (line 460) with the loan recomputed at line 318. That loan is positive: `st.stop()` at lines 288-290 halts the page unless the property value exceeds the down payment, and the notary slider's minimum of 0.5 (line 265) keeps the fees positive. The loan report (lines 66-130) does not call the generator. `ScheduleFromIsSchedule` describes the generator's rows for any loan.
