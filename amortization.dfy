/** The amortization schedule: one row per month carrying the bank payment,
    its split into capital and interest, the insurance and the remaining
    balance, until the term ends or the balance reaches zero. */
module Amortization {
  import opened Annuity
  import opened LoanReport

  /** One row of a schedule, as the table's columns: "Mois", "Mensualité",
      "Capital", "Intérêt", "Assurance", "Solde restant". */
  datatype Row = Row(
    month: nat,
    payment: real,
    capital: real,
    interest: real,
    insurance: real,
    remaining: real)

  /** `max(balance, 0)`. */
  function ClampAtZero(x: real): (r: real)
    ensures r >= 0.0 && r >= x
    ensures x >= 0.0 ==> r == x
    ensures x < 0.0 ==> r == 0.0
  {
    if x > 0.0 then x else 0.0
  }

  /** The month's interest on a balance at the monthly rate. */
  function InterestOn(balance: real, rate: real): real
  {
    balance * rate
  }

  /** The balance a row starts from: the loan for the first row, the
      previous row's remaining balance afterwards. */
  function BalanceBefore(rows: seq<Row>, loan: real, i: nat): real
    requires i < |rows|
  {
    if i == 0 then loan else rows[i - 1].remaining
  }

  // ---------------------------------------------------------------------
  // The specification: what a schedule is

  /** A row computed from the balance `before` it starts from: interest at
      the monthly rate on that balance, the rest of the bank payment is
      capital, and the balance left is shown clamped at zero. */
  ghost predicate FollowsSchedule(row: Row, month: nat, before: real,
                                  payment: real, rate: real, insurance: real)
  {
    && row.month == month
    && row.interest == InterestOn(before, rate)
    && row.capital + row.interest == payment
    && row.payment == payment + insurance
    && row.insurance == insurance
    && row.remaining == ClampAtZero(before - row.capital)
  }

  /** `rows` is a schedule of the loan `loan` starting at month `first` and
      ending at month `months` at the latest: consecutive months, every row
      follows from the balance the previous one left, every row but the last
      leaves a positive balance, and the last one either clears the balance
      or is the last month of the term. */
  ghost predicate IsScheduleFrom(rows: seq<Row>, loan: real, payment: real, rate: real,
                                 insurance: real, first: nat, months: nat)
  {
    && 1 <= |rows| <= months - first + 1
    && FollowsSchedule(rows[0], first, loan, payment, rate, insurance)
    && (forall i {:trigger BalanceBefore(rows, loan, i)} :: 0 < i < |rows| ==>
          FollowsSchedule(rows[i], first + i, BalanceBefore(rows, loan, i), payment, rate, insurance))
    && (forall i :: 0 <= i < |rows| - 1 ==> rows[i].remaining > 0.0)
    && (rows[|rows| - 1].remaining == 0.0 || rows[|rows| - 1].month == months)
  }

  /** The schedule as the loop builds it, from month `month` on with running
      balance `balance`. */
  function ScheduleFrom(balance: real, payment: real, rate: real, insurance: real,
                        month: nat, months: nat): seq<Row>
    decreases months + 1 - month
  {
    if month > months then []
    else
      var interest := InterestOn(balance, rate);
      var capital := payment - interest;
      var next := balance - capital;
      var row := Row(month, payment + insurance, capital, interest, insurance, ClampAtZero(next));
      if next <= 0.0 then [row]
      else [row] + ScheduleFrom(next, payment, rate, insurance, month + 1, months)
  }

  /** The whole schedule of a loan: the annuity payment at the monthly rate
      over `years * 12` months, starting from the loan amount at month 1. */
  function AmortizationSchedule(loan: real, annualRatePercent: real, years: nat,
                                monthlyInsurance: real): seq<Row>
    requires annualRatePercent > 0.0 && years >= 1
  {
    var rate := MonthlyRate(annualRatePercent);
    var months := Months(years);
    ScheduleFrom(loan, AnnuityPayment(loan, rate, months), rate, monthlyInsurance, 1, months)
  }

  /** The loop's schedule is a schedule in the sense of `IsScheduleFrom`:
      between 1 and `months - month + 1` rows, numbered consecutively, each
      with capital + interest == payment, interest on the balance before it,
      a non-negative remaining balance, stopping at the first non-positive
      balance or at the end of the term. */
  lemma {:induction false} ScheduleFromIsSchedule(balance: real, payment: real, rate: real,
                                                  insurance: real, month: nat, months: nat)
    requires 1 <= month <= months
    ensures IsScheduleFrom(ScheduleFrom(balance, payment, rate, insurance, month, months),
                           balance, payment, rate, insurance, month, months)
    decreases months - month
  {
    var rows := ScheduleFrom(balance, payment, rate, insurance, month, months);
    var next := balance - (payment - balance * rate);
    if next > 0.0 && month < months {
      var rest := ScheduleFrom(next, payment, rate, insurance, month + 1, months);
      ScheduleFromIsSchedule(next, payment, rate, insurance, month + 1, months);
      PrependRow(rows[0], rest, balance, payment, rate, insurance, month, months);
    }
  }

  /** A row that follows from `balance` and leaves a positive balance, put in
      front of a schedule of that balance from the next month, is a schedule
      from its own month. */
  lemma PrependRow(row: Row, rest: seq<Row>, balance: real, payment: real, rate: real,
                   insurance: real, month: nat, months: nat)
    requires FollowsSchedule(row, month, balance, payment, rate, insurance)
    requires row.remaining > 0.0
    requires IsScheduleFrom(rest, row.remaining, payment, rate, insurance, month + 1, months)
    ensures IsScheduleFrom([row] + rest, balance, payment, rate, insurance, month, months)
  {
    var rows := [row] + rest;
    assert rows[0] == row;
    forall i | 0 < i < |rows|
      ensures FollowsSchedule(rows[i], month + i, BalanceBefore(rows, balance, i),
                              payment, rate, insurance)
    {
      PrependedRow(row, rest, balance, payment, rate, insurance, month, months, i);
    }
    assert forall i :: 0 <= i < |rows| - 1 ==> rows[i].remaining > 0.0 by {
      forall i | 0 < i < |rows| - 1
        ensures rows[i].remaining > 0.0
      {
        assert rows[i] == rest[i - 1];
      }
    }
    assert rows[|rows| - 1] == rest[|rest| - 1];
  }

  /** Behind the first row, row i of the longer schedule is row i - 1 of the
      shorter one and follows from the same balance. */
  lemma PrependedRow(row: Row, rest: seq<Row>, balance: real, payment: real, rate: real,
                     insurance: real, month: nat, months: nat, i: nat)
    requires IsScheduleFrom(rest, row.remaining, payment, rate, insurance, month + 1, months)
    requires 0 < i <= |rest|
    ensures FollowsSchedule(([row] + rest)[i], month + i, BalanceBefore([row] + rest, balance, i),
                            payment, rate, insurance)
  {
    var rows := [row] + rest;
    assert rows[i] == rest[i - 1];
    assert BalanceBefore(rows, balance, i) == BalanceBefore(rest, row.remaining, i - 1);
    if i > 1 {
      assert FollowsSchedule(rest[i - 1], month + 1 + (i - 1), BalanceBefore(rest, row.remaining, i - 1),
                             payment, rate, insurance);
    }
  }

  /** The generator, as the source writes it: the annuity payment of the
      loan over `years * 12` months, then the loop of `AmortizationLoop`. It
      builds exactly `AmortizationSchedule`. */
  method GenerateAmortizationSchedule(loan: real, annualRatePercent: real, years: nat,
                                      monthlyInsurance: real) returns (schedule: seq<Row>)
    requires annualRatePercent > 0.0 && years >= 1
    ensures schedule == AmortizationSchedule(loan, annualRatePercent, years, monthlyInsurance)
  {
    var months := Months(years);
    var monthlyRate := MonthlyRate(annualRatePercent);
    var paymentBank := AnnuityPayment(loan, monthlyRate, months);
    schedule := AmortizationLoop(loan, paymentBank, monthlyRate, monthlyInsurance, months);
  }

  /** The generator's loop over the months of the term: it carries the
      running balance, appends one row per month and stops early once the
      balance is no longer positive. It builds exactly the rows of
      `ScheduleFrom` from month 1. */
  method AmortizationLoop(loan: real, paymentBank: real, monthlyRate: real,
                          monthlyInsurance: real, months: nat) returns (schedule: seq<Row>)
    ensures schedule == ScheduleFrom(loan, paymentBank, monthlyRate, monthlyInsurance, 1, months)
  {
    var balance := loan;
    schedule := [];
    for m := 1 to months + 1
      invariant schedule + ScheduleFrom(balance, paymentBank, monthlyRate, monthlyInsurance, m, months)
             == ScheduleFrom(loan, paymentBank, monthlyRate, monthlyInsurance, 1, months)
    {
      ghost var done := schedule;
      var row, next := AmortizationMonth(balance, paymentBank, monthlyRate, monthlyInsurance,
                                         m, months);
      schedule := schedule + [row];
      AppendRow(done, row, ScheduleFrom(balance, paymentBank, monthlyRate, monthlyInsurance, m, months),
                if next <= 0.0 then []
                else ScheduleFrom(next, paymentBank, monthlyRate, monthlyInsurance, m + 1, months));
      balance := next;
      if balance <= 0.0 {
        break;
      }
    }
  }

  /** One month of the generator from a balance, within the term: the
      month's interest and the capital the bank payment leaves after it make
      the first row of the rest of the schedule, and the balance left is
      where the schedule goes on from (or it ends, if nothing is owed). */
  method AmortizationMonth(balance: real, paymentBank: real, monthlyRate: real,
                           monthlyInsurance: real, m: nat, months: nat)
    returns (row: Row, next: real)
    requires m <= months
    ensures [row] + (if next <= 0.0 then []
                     else ScheduleFrom(next, paymentBank, monthlyRate, monthlyInsurance, m + 1, months))
         == ScheduleFrom(balance, paymentBank, monthlyRate, monthlyInsurance, m, months)
  {
    var interest := balance * monthlyRate;
    var principal := paymentBank - interest;
    next := balance - principal;
    row := Row(m, paymentBank + monthlyInsurance, principal, interest, monthlyInsurance,
               ClampAtZero(next));
  }

  /** One month of the schedule within the term: the first row and the rest
      of the schedule from the balance it leaves (nothing once that balance
      is no longer positive). */
  lemma ScheduleFromStep(balance: real, payment: real, rate: real, insurance: real,
                         month: nat, months: nat)
    requires month <= months
    ensures var interest := InterestOn(balance, rate);
            var next := balance - (payment - interest);
            ScheduleFrom(balance, payment, rate, insurance, month, months)
            == [Row(month, payment + insurance, payment - interest, interest, insurance,
                    ClampAtZero(next))]
               + (if next <= 0.0 then []
                  else ScheduleFrom(next, payment, rate, insurance, month + 1, months))
  {
  }

  /** Moving a row from the front of what is left to the end of what is
      done keeps the whole. */
  lemma AppendRow(done: seq<Row>, row: Row, rest: seq<Row>, tail: seq<Row>)
    requires rest == [row] + tail
    ensures (done + [row]) + tail == done + rest
  {
  }

  /** The generator's rows form a schedule in the sense of `IsScheduleFrom`
      from month 1. */
  lemma AmortizationScheduleIsSchedule(loan: real, annualRatePercent: real, years: nat,
                                       monthlyInsurance: real)
    requires annualRatePercent > 0.0 && years >= 1
    ensures IsScheduleFrom(AmortizationSchedule(loan, annualRatePercent, years, monthlyInsurance),
                           loan, AnnuityPayment(loan, MonthlyRate(annualRatePercent), Months(years)),
                           MonthlyRate(annualRatePercent), monthlyInsurance, 1, Months(years))
  {
    ScheduleFromIsSchedule(loan, AnnuityPayment(loan, MonthlyRate(annualRatePercent), Months(years)),
                           MonthlyRate(annualRatePercent), monthlyInsurance, 1, Months(years));
  }

  // ---------------------------------------------------------------------
  // Exact amortization

  /** The balance owed after `k` monthly payments of `payment`, in closed
      form: the loan grown by k months of interest, less each payment grown
      by the interest since it was made, L * q^k - P * (1 + q + ... + q^(k-1))
      with q = 1 + r. */
  function BalanceAfter(loan: real, payment: real, rate: real, k: nat): real
  {
    loan * Pow(1.0 + rate, k) - payment * GeometricSum(1.0 + rate, k)
  }

  /** One month of the loop, for any payment: charge the month's interest on
      the balance and subtract the payment; the closed form follows it. */
  lemma BalanceAfterStep(loan: real, payment: real, rate: real, k: nat)
    ensures BalanceAfter(loan, payment, rate, k)
              - (payment - InterestOn(BalanceAfter(loan, payment, rate, k), rate))
         == BalanceAfter(loan, payment, rate, k + 1)
  {
    GeometricSumIdentity(1.0 + rate, k);
    ClosedFormStep(loan, payment, rate, Pow(1.0 + rate, k), GeometricSum(1.0 + rate, k),
                 Pow(1.0 + rate, k + 1), GeometricSum(1.0 + rate, k + 1));
  }

  /** A payment that solves the annuity equation p (q^n - 1) == L r q^n,
      as `AnnuityPayment` does. */
  ghost predicate SolvesAnnuity(payment: real, loan: real, rate: real, months: nat)
  {
    payment * (Pow(1.0 + rate, months) - 1.0) == loan * rate * Pow(1.0 + rate, months)
  }

  /** Under the annuity payment of a positive rate the balance starts at the
      loan, stays positive while payments remain and is zero after the last
      one. */
  lemma AnnuityBalanceBounds(loan: real, payment: real, rate: real, months: nat, k: nat)
    requires rate > 0.0 && months >= 1 && k <= months
    requires SolvesAnnuity(payment, loan, rate, months)
    ensures k == 0 ==> BalanceAfter(loan, payment, rate, k) == loan
    ensures k == months ==> BalanceAfter(loan, payment, rate, k) == 0.0
    ensures loan > 0.0 && k < months ==> BalanceAfter(loan, payment, rate, k) > 0.0
  {
    if k == months {
      AnnuityBalancePaidOff(loan, payment, rate, months);
    } else if loan > 0.0 {
      AnnuityBalanceOutstanding(loan, payment, rate, months, k);
    }
  }

  /** After the last annuity payment nothing is owed. */
  lemma {:induction false} AnnuityBalancePaidOff(loan: real, payment: real, rate: real, months: nat)
    requires rate > 0.0 && SolvesAnnuity(payment, loan, rate, months)
    ensures BalanceAfter(loan, payment, rate, months) == 0.0
  {
    GeometricSumIdentity(1.0 + rate, months);
    ZeroBalanceFromAnnuityEquation(BalanceAfter(loan, payment, rate, months), payment, loan, rate,
                    Pow(1.0 + rate, months), GeometricSum(1.0 + rate, months));
  }

  /** Before the last annuity payment a positive loan is not yet repaid: the
      balance after the last payment is zero and, a month earlier, the
      balance grown by a month's interest had to cover a positive payment. */
  lemma {:induction false} AnnuityBalanceOutstanding(loan: real, payment: real, rate: real,
                                                     months: nat, k: nat)
    requires rate > 0.0 && loan > 0.0 && k < months
    requires SolvesAnnuity(payment, loan, rate, months)
    ensures BalanceAfter(loan, payment, rate, k) > 0.0
    decreases months - k
  {
    AnnuityPaymentPositive(loan, payment, rate, months);
    BalanceAfterStep(loan, payment, rate, k);
    if k + 1 == months {
      AnnuityBalancePaidOff(loan, payment, rate, months);
    } else {
      AnnuityBalanceOutstanding(loan, payment, rate, months, k + 1);
    }
    PositiveBeforeNonNegative(BalanceAfter(loan, payment, rate, k), BalanceAfter(loan, payment, rate, k + 1),
                     payment, rate);
  }

  /** The annuity payment of a positive loan at a positive rate is positive. */
  lemma AnnuityPaymentPositive(loan: real, payment: real, rate: real, months: nat)
    requires rate > 0.0 && loan > 0.0 && months >= 1
    requires SolvesAnnuity(payment, loan, rate, months)
    ensures payment > 0.0
  {
    PowAboveOne(rate, months);
    PositiveSolution(payment, loan * rate, Pow(1.0 + rate, months));
  }

  /** From month k + 1 on, starting from the closed-form balance after k
      payments, the loop runs to the end of the term: `months - k` rows, and
      the balance after each is the closed form. */
  lemma {:induction false} ExactScheduleFrom(loan: real, payment: real, rate: real,
                                             insurance: real, months: nat, k: nat)
    requires rate > 0.0 && months >= 1 && loan > 0.0 && k < months
    requires SolvesAnnuity(payment, loan, rate, months)
    ensures var rows := ScheduleFrom(BalanceAfter(loan, payment, rate, k), payment, rate, insurance,
                                     k + 1, months);
            && |rows| == months - k
            && (forall j :: 0 <= j < |rows| ==>
                  rows[j].remaining == BalanceAfter(loan, payment, rate, k + 1 + j))
    decreases months - k
  {
    var rows := ScheduleFrom(BalanceAfter(loan, payment, rate, k), payment, rate, insurance,
                             k + 1, months);
    ExactFirstRow(loan, payment, rate, insurance, months, k);
    if k + 1 < months {
      var rest := ScheduleFrom(BalanceAfter(loan, payment, rate, k + 1), payment, rate, insurance,
                               k + 2, months);
      ExactScheduleFrom(loan, payment, rate, insurance, months, k + 1);
      forall j | 1 <= j < |rows|
        ensures rows[j].remaining == BalanceAfter(loan, payment, rate, k + 1 + j)
      {
        assert rows[j] == rest[j - 1];
      }
    }
  }

  /** The capital repaid from month k + 1 to the end of the term adds up to
      the closed-form balance after k payments. */
  lemma {:induction false} ExactCapitalFrom(loan: real, payment: real, rate: real,
                                            insurance: real, months: nat, k: nat)
    requires rate > 0.0 && months >= 1 && loan > 0.0 && k < months
    requires SolvesAnnuity(payment, loan, rate, months)
    ensures SumCapital(ScheduleFrom(BalanceAfter(loan, payment, rate, k), payment, rate, insurance,
                                    k + 1, months))
         == BalanceAfter(loan, payment, rate, k)
    decreases months - k
  {
    var rows := ScheduleFrom(BalanceAfter(loan, payment, rate, k), payment, rate, insurance,
                             k + 1, months);
    ExactFirstRow(loan, payment, rate, insurance, months, k);
    assert SumCapital(rows) == rows[0].capital + SumCapital(rows[1..]);
    if k + 1 < months {
      ExactCapitalFrom(loan, payment, rate, insurance, months, k + 1);
    } else {
      AnnuityBalanceBounds(loan, payment, rate, months, k + 1);
    }
  }

  /** The first row from the closed-form balance after k payments repays the
      difference to the closed form after k + 1, and the rest of the run
      starts from there (or is empty after the last month). */
  lemma ExactFirstRow(loan: real, payment: real, rate: real, insurance: real, months: nat, k: nat)
    requires rate > 0.0 && months >= 1 && loan > 0.0 && k < months
    requires SolvesAnnuity(payment, loan, rate, months)
    ensures var rows := ScheduleFrom(BalanceAfter(loan, payment, rate, k), payment, rate, insurance,
                                     k + 1, months);
            && rows != []
            && rows[0].remaining == BalanceAfter(loan, payment, rate, k + 1)
            && rows[0].capital
               == BalanceAfter(loan, payment, rate, k) - BalanceAfter(loan, payment, rate, k + 1)
            && rows[1..] == (if k + 1 == months then []
                             else ScheduleFrom(BalanceAfter(loan, payment, rate, k + 1), payment,
                                               rate, insurance, k + 2, months))
  {
    BalanceAfterStep(loan, payment, rate, k);
    AnnuityBalanceBounds(loan, payment, rate, months, k);
    AnnuityBalanceBounds(loan, payment, rate, months, k + 1);
  }

  /** Capital repaid over a run of rows. */
  function SumCapital(rows: seq<Row>): real
  {
    if rows == [] then 0.0 else rows[0].capital + SumCapital(rows[1..])
  }

  /** Interest paid over a run of rows. */
  function SumInterest(rows: seq<Row>): real
  {
    if rows == [] then 0.0 else rows[0].interest + SumInterest(rows[1..])
  }

  /** Every row of a schedule shows the same monthly payment, bank payment
      plus insurance, and splits the same bank payment into capital and
      interest. */
  lemma SchedulePaymentSplits(rows: seq<Row>, loan: real, payment: real, rate: real,
                              insurance: real, first: nat, months: nat)
    requires IsScheduleFrom(rows, loan, payment, rate, insurance, first, months)
    ensures forall i :: 0 <= i < |rows| ==> rows[i].capital + rows[i].interest == payment
    ensures forall i :: 0 <= i < |rows| ==> rows[i].payment == payment + insurance
  {
    forall i | 0 < i < |rows|
      ensures rows[i].capital + rows[i].interest == payment
      ensures rows[i].payment == payment + insurance
    {
      assert FollowsSchedule(rows[i], first + i, BalanceBefore(rows, loan, i), payment, rate, insurance);
    }
  }

  /** When every row splits the same payment, the interest column adds up to
      the payments made less the capital column; `n` is the number of rows
      as a real. */
  lemma {:induction false} InterestIsPaymentsLessCapital(rows: seq<Row>, payment: real, n: real)
    requires n == |rows| as real
    requires forall i :: 0 <= i < |rows| ==> rows[i].capital + rows[i].interest == payment
    ensures SumInterest(rows) == payment * n - SumCapital(rows)
  {
    if rows != [] {
      assert forall i :: 0 <= i < |rows[1..]| ==> rows[1..][i] == rows[i + 1];
      InterestIsPaymentsLessCapital(rows[1..], payment, n - 1.0);
      assert payment * n == payment * (n - 1.0) + payment;
    }
  }

  /** With a positive loan and rate the schedule runs the whole term, every
      balance before the last is positive and the last is zero; the capital
      column adds up to the loan. */
  lemma AmortizesExactly(loan: real, annualRatePercent: real, years: nat, monthlyInsurance: real)
    requires annualRatePercent > 0.0 && years >= 1 && loan > 0.0
    ensures var rows := AmortizationSchedule(loan, annualRatePercent, years, monthlyInsurance);
            && |rows| == Months(years)
            && (forall j :: 0 <= j < |rows| - 1 ==> rows[j].remaining > 0.0)
            && rows[|rows| - 1].remaining == 0.0
            && SumCapital(rows) == loan
  {
    var rate := MonthlyRate(annualRatePercent);
    var months := Months(years);
    var p := AnnuityPayment(loan, rate, months);
    var rows := AmortizationSchedule(loan, annualRatePercent, years, monthlyInsurance);
    assert BalanceAfter(loan, p, rate, 0) == loan;
    ExactScheduleFrom(loan, p, rate, monthlyInsurance, months, 0);
    ExactCapitalFrom(loan, p, rate, monthlyInsurance, months, 0);
    forall j | 0 <= j < |rows|
      ensures j < |rows| - 1 ==> rows[j].remaining > 0.0
      ensures j == |rows| - 1 ==> rows[j].remaining == 0.0
    {
      AnnuityBalanceBounds(loan, p, rate, months, j + 1);
    }
  }

  /** A payment larger than the first month's interest makes the balance
      fall every month: each month's interest is at most the first one's,
      since the balance never rises above the loan. */
  lemma {:induction false} BalanceDecreasing(loan: real, payment: real, rate: real, k: nat)
    requires rate >= 0.0 && payment > InterestOn(loan, rate)
    ensures BalanceAfter(loan, payment, rate, k + 1) < BalanceAfter(loan, payment, rate, k) <= loan
  {
    if k == 0 {
      assert BalanceAfter(loan, payment, rate, 0) == loan;
    } else {
      BalanceDecreasing(loan, payment, rate, k - 1);
    }
    BalanceAfterStep(loan, payment, rate, k);
    InterestOrder(BalanceAfter(loan, payment, rate, k), loan, rate);
  }

  /** The schedule of a positive loan repays capital every month: the
      balance left after each row is strictly below the one before it,
      starting below the loan and ending at zero after the last month. */
  lemma ScheduleBalanceDecreases(loan: real, annualRatePercent: real, years: nat,
                                 monthlyInsurance: real)
    requires annualRatePercent > 0.0 && years >= 1 && loan > 0.0
    ensures var rows := AmortizationSchedule(loan, annualRatePercent, years, monthlyInsurance);
            && rows != []
            && rows[0].remaining < loan
            && (forall j :: 0 < j < |rows| ==> rows[j].remaining < rows[j - 1].remaining)
            && rows[|rows| - 1].remaining == 0.0
  {
    var rate := MonthlyRate(annualRatePercent);
    var months := Months(years);
    var p := AnnuityPayment(loan, rate, months);
    var rows := AmortizationSchedule(loan, annualRatePercent, years, monthlyInsurance);
    assert BalanceAfter(loan, p, rate, 0) == loan;
    ExactScheduleFrom(loan, p, rate, monthlyInsurance, months, 0);
    AnnuityBalanceBounds(loan, p, rate, months, months);
    forall j | 0 <= j < |rows|
      ensures rows[j].remaining < BalanceAfter(loan, p, rate, j)
    {
      BalanceDecreasing(loan, p, rate, j);
    }
  }

  /** The interest column of the schedule adds up to the bank payments over
      the whole term less the loan, the total interest the loan report
      announces. */
  lemma ScheduleInterestTotal(loan: real, annualRatePercent: real, years: nat,
                              monthlyInsurance: real)
    requires annualRatePercent > 0.0 && years >= 1 && loan > 0.0
    ensures SumInterest(AmortizationSchedule(loan, annualRatePercent, years, monthlyInsurance))
         == AnnuityPayment(loan, MonthlyRate(annualRatePercent), Months(years)) * (Months(years) as real)
            - loan
  {
    var rate := MonthlyRate(annualRatePercent);
    var months := Months(years);
    var p := AnnuityPayment(loan, rate, months);
    var rows := AmortizationSchedule(loan, annualRatePercent, years, monthlyInsurance);
    AmortizesExactly(loan, annualRatePercent, years, monthlyInsurance);
    ScheduleFromIsSchedule(loan, p, rate, monthlyInsurance, 1, months);
    SchedulePaymentSplits(rows, loan, p, rate, monthlyInsurance, 1, months);
    InterestIsPaymentsLessCapital(rows, p, months as real);
  }

  /** The schedule of a positive loan, read as the report reads a loan: it
      runs the whole term, every row shows the bank payment plus insurance,
      the capital column adds up to the loan and the interest column to the
      bank payments over the term less the loan. */
  lemma ScheduleTotals(loan: real, annualRatePercent: real, years: nat, monthlyInsurance: real)
    requires annualRatePercent > 0.0 && years >= 1 && loan > 0.0
    ensures var rows := AmortizationSchedule(loan, annualRatePercent, years, monthlyInsurance);
            var payment := AnnuityPayment(loan, MonthlyRate(annualRatePercent), Months(years));
            && |rows| == Months(years)
            && (forall i :: 0 <= i < |rows| ==> rows[i].payment == payment + monthlyInsurance)
            && SumCapital(rows) == loan
            && SumInterest(rows) == payment * (Months(years) as real) - loan
  {
    var rate := MonthlyRate(annualRatePercent);
    var payment := AnnuityPayment(loan, rate, Months(years));
    var rows := AmortizationSchedule(loan, annualRatePercent, years, monthlyInsurance);
    AmortizesExactly(loan, annualRatePercent, years, monthlyInsurance);
    ScheduleInterestTotal(loan, annualRatePercent, years, monthlyInsurance);
    ScheduleFromIsSchedule(loan, payment, rate, monthlyInsurance, 1, Months(years));
    SchedulePaymentSplits(rows, loan, payment, rate, monthlyInsurance, 1, Months(years));
  }

  /** The schedule drawn from a financed report's loan amount and insurance
      agrees with the report: it has the report's number of months, every row
      shows the report's monthly payment, the capital column adds up to the
      loan and the interest column to the report's total interest. */
  lemma ScheduleMatchesReport(propertyValue: real, annualRatePercent: real, years: nat,
                              downPayment: real, debtRatio: real, netToGrossRatio: real,
                              notaryFeeRate: real, choice: InsuranceChoice,
                              insuranceRate: real, insuranceAmount: real)
    requires annualRatePercent > 0.0 && years >= 1
    requires debtRatio > 0.0 && netToGrossRatio > 0.0
    ensures var r := GenerateLoanReport(propertyValue, annualRatePercent, years, downPayment,
                                        debtRatio, netToGrossRatio, notaryFeeRate, choice,
                                        insuranceRate, insuranceAmount);
            r.Financed? ==>
              var rows := AmortizationSchedule(r.loanAmount, annualRatePercent, years, r.insurance);
              && |rows| == r.months
              && (forall i :: 0 <= i < |rows| ==> rows[i].payment == r.monthlyPayment)
              && SumCapital(rows) == r.loanAmount
              && SumInterest(rows) == r.totalInterest
  {
    var r := GenerateLoanReport(propertyValue, annualRatePercent, years, downPayment,
                                debtRatio, netToGrossRatio, notaryFeeRate, choice,
                                insuranceRate, insuranceAmount);
    if r.Financed? {
      ScheduleTotals(r.loanAmount, annualRatePercent, years, r.insurance);
    }
  }

  // ---------------------------------------------------------------------
  // Algebra over plain reals

  /** Interest grows with the balance at a non-negative rate. */
  lemma InterestOrder(a: real, b: real, rate: real)
    requires a <= b && rate >= 0.0
    ensures InterestOn(a, rate) <= InterestOn(b, rate)
  {
    assert (b - a) * rate >= 0.0;
  }

  /** After all n payments: from b == L qn - p g, qn - 1 == r g and
      p (qn - 1) == L r qn with r > 0, the balance b is zero. */
  lemma ZeroBalanceFromAnnuityEquation(b: real, p: real, loan: real, r: real, qn: real, g: real)
    requires r > 0.0 && b == loan * qn - p * g
    requires qn - 1.0 == (1.0 + r - 1.0) * g
    requires p * (qn - 1.0) == loan * r * qn
    ensures b == 0.0
  {
    assert r * b == r * (loan * qn) - (p * (r * g));
    ZeroFactor(b, r);
  }

  /** If a balance b, grown by its interest at a positive rate and less a
      positive payment, leaves a non-negative balance, then b was positive. */
  lemma PositiveBeforeNonNegative(b: real, b1: real, p: real, r: real)
    requires r > 0.0 && p > 0.0 && b1 >= 0.0
    requires b - (p - InterestOn(b, r)) == b1
    ensures b > 0.0
  {
    assert b * (1.0 + r) == b1 + p;
  }

  lemma PositiveSolution(p: real, a: real, q: real)
    requires a > 0.0 && q > 1.0 && p * (q - 1.0) == a * q
    ensures p > 0.0
  {
    PositiveProduct(a, q);
  }

  /** One step of the closed form: from qk1 == (1 + r) qk, g1 == g + qk and
      qk - 1 == r g, the balance L qk - p g less the payment net of its
      interest is L qk1 - p g1. */
  lemma ClosedFormStep(loan: real, p: real, r: real, qk: real, g: real, qk1: real, g1: real)
    requires qk1 == (1.0 + r) * qk && g1 == g + qk
    requires qk - 1.0 == (1.0 + r - 1.0) * g
    ensures (loan * qk - p * g) - (p - InterestOn(loan * qk - p * g, r)) == loan * qk1 - p * g1
  {
    assert (1.0 + r) * (p * g) + p == p * (g + qk);
  }
}
