/** The prepayment simulation: the same annuity, with an extra payment added
    to the capital from a chosen month on, the capital of a month capped at
    the balance still owed, and the simulation cut off after twice the term. */
module Prepayment {
  import opened Annuity
  import opened Amortization

  /** The extra payment made in `month`: the chosen amount from `startMonth`
      on, nothing before. */
  function ExtraFor(month: nat, extraPayment: real, startMonth: int): real
  {
    if month >= startMonth then extraPayment else 0.0
  }

  /** The capital repaid in a month: what the payment leaves after interest,
      but never more than the balance still owed. */
  function CappedCapital(owed: real, balance: real): (capital: real)
    ensures capital <= balance && capital <= owed
    ensures capital == owed || capital == balance
  {
    if owed > balance then balance else owed
  }

  // ---------------------------------------------------------------------
  // The specification: what a prepayment schedule is

  /** A row computed from the balance `before` it starts from. */
  ghost predicate FollowsPrepayment(row: Row, month: nat, before: real, payment: real, rate: real,
                                    insurance: real, extraPayment: real, startMonth: int)
  {
    && row.month == month
    && row.interest == InterestOn(before, rate)
    && row.capital
       == CappedCapital(payment - row.interest + ExtraFor(month, extraPayment, startMonth), before)
    && row.payment == payment + insurance + ExtraFor(month, extraPayment, startMonth)
    && row.insurance == insurance
    && row.remaining == before - row.capital
    && row.remaining >= 0.0
  }

  /** `rows` is a prepayment schedule of `loan` from month `first`: empty
      exactly when nothing is owed, at most up to month `2 * months`, every
      row follows from the balance the previous one left (never overpaying
      it), every row but the last leaves a positive balance, and the last
      one clears the balance or is month `2 * months`. */
  ghost predicate IsPrepaymentFrom(rows: seq<Row>, loan: real, payment: real, rate: real,
                                   insurance: real, extraPayment: real, startMonth: int,
                                   first: nat, months: nat)
  {
    && (rows == [] <==> loan <= 0.0)
    && |rows| <= 2 * months - first + 1
    && (rows != [] ==>
          FollowsPrepayment(rows[0], first, loan, payment, rate, insurance, extraPayment, startMonth))
    && (forall i {:trigger BalanceBefore(rows, loan, i)} :: 0 < i < |rows| ==>
          FollowsPrepayment(rows[i], first + i, BalanceBefore(rows, loan, i),
                            payment, rate, insurance, extraPayment, startMonth))
    && (forall i :: 0 <= i < |rows| - 1 ==> rows[i].remaining > 0.0)
    && (rows != [] ==>
          rows[|rows| - 1].remaining == 0.0 || rows[|rows| - 1].month == 2 * months)
  }

  /** The simulation as the loop runs it, from month `month` on with running
      balance `balance`. */
  function PrepaymentFrom(balance: real, payment: real, rate: real, insurance: real,
                          extraPayment: real, startMonth: int, month: nat, months: nat): seq<Row>
    decreases 2 * months - month
  {
    if balance <= 0.0 then []
    else
      var interest := InterestOn(balance, rate);
      var capital := CappedCapital(payment - interest + ExtraFor(month, extraPayment, startMonth), balance);
      var next := balance - capital;
      var row := Row(month, payment + insurance + ExtraFor(month, extraPayment, startMonth),
                     capital, interest, insurance, ClampAtZero(next));
      if month + 1 > 2 * months then [row]
      else [row] + PrepaymentFrom(next, payment, rate, insurance, extraPayment, startMonth,
                                  month + 1, months)
  }

  /** The whole simulation of a loan: the annuity payment of the loan over
      `years * 12` months, the extra payment from `startMonth` on. */
  function PrepaymentSchedule(loan: real, annualRatePercent: real, years: nat, extraPayment: real,
                              startMonth: int, monthlyInsurance: real): seq<Row>
    requires annualRatePercent > 0.0 && years >= 1
  {
    var rate := MonthlyRate(annualRatePercent);
    var months := Months(years);
    PrepaymentFrom(loan, AnnuityPayment(loan, rate, months), rate, monthlyInsurance,
                   extraPayment, startMonth, 1, months)
  }

  /** The simulation's rows form a prepayment schedule in the sense of
      `IsPrepaymentFrom`. */
  lemma {:induction false} PrepaymentFromIsPrepayment(balance: real, payment: real, rate: real,
                                                      insurance: real, extraPayment: real,
                                                      startMonth: int, month: nat, months: nat)
    requires 1 <= month <= 2 * months
    ensures IsPrepaymentFrom(PrepaymentFrom(balance, payment, rate, insurance, extraPayment,
                                            startMonth, month, months),
                             balance, payment, rate, insurance, extraPayment, startMonth, month, months)
    decreases 2 * months - month
  {
    var rows := PrepaymentFrom(balance, payment, rate, insurance, extraPayment, startMonth, month, months);
    if balance > 0.0 && month + 1 <= 2 * months {
      var next := rows[0].remaining;
      var rest := PrepaymentFrom(next, payment, rate, insurance, extraPayment, startMonth,
                                 month + 1, months);
      assert rows == [rows[0]] + rest;
      PrepaymentFromIsPrepayment(next, payment, rate, insurance, extraPayment, startMonth,
                                 month + 1, months);
      PrependPrepaymentRow(rows[0], rest, balance, payment, rate, insurance, extraPayment,
                           startMonth, month, months);
    }
  }

  /** A row that follows from a positive `balance`, put in front of a
      prepayment schedule of the balance it leaves from the next month, is a
      prepayment schedule from its own month. */
  lemma PrependPrepaymentRow(row: Row, rest: seq<Row>, balance: real, payment: real, rate: real,
                             insurance: real, extraPayment: real, startMonth: int,
                             month: nat, months: nat)
    requires balance > 0.0 && month + 1 <= 2 * months
    requires FollowsPrepayment(row, month, balance, payment, rate, insurance, extraPayment, startMonth)
    requires IsPrepaymentFrom(rest, row.remaining, payment, rate, insurance, extraPayment,
                              startMonth, month + 1, months)
    ensures IsPrepaymentFrom([row] + rest, balance, payment, rate, insurance, extraPayment,
                             startMonth, month, months)
  {
    var rows := [row] + rest;
    assert rows[0] == row;
    forall i | 0 < i < |rows|
      ensures FollowsPrepayment(rows[i], month + i, BalanceBefore(rows, balance, i),
                                payment, rate, insurance, extraPayment, startMonth)
    {
      PrependedPrepaymentRow(row, rest, balance, payment, rate, insurance, extraPayment,
                             startMonth, month, months, i);
    }
    assert forall i :: 0 <= i < |rows| - 1 ==> rows[i].remaining > 0.0 by {
      forall i | 0 < i < |rows| - 1
        ensures rows[i].remaining > 0.0
      {
        assert rows[i] == rest[i - 1];
      }
    }
    if rest != [] {
      assert rows[|rows| - 1] == rest[|rest| - 1];
    }
  }

  /** Behind the first row, row i of the longer schedule is row i - 1 of the
      shorter one and follows from the same balance. */
  lemma PrependedPrepaymentRow(row: Row, rest: seq<Row>, balance: real, payment: real, rate: real,
                               insurance: real, extraPayment: real, startMonth: int,
                               month: nat, months: nat, i: nat)
    requires IsPrepaymentFrom(rest, row.remaining, payment, rate, insurance, extraPayment,
                              startMonth, month + 1, months)
    requires 0 < i <= |rest|
    ensures FollowsPrepayment(([row] + rest)[i], month + i, BalanceBefore([row] + rest, balance, i),
                              payment, rate, insurance, extraPayment, startMonth)
  {
    var rows := [row] + rest;
    assert rows[i] == rest[i - 1];
    assert BalanceBefore(rows, balance, i) == BalanceBefore(rest, row.remaining, i - 1);
    if i > 1 {
      assert FollowsPrepayment(rest[i - 1], month + 1 + (i - 1), BalanceBefore(rest, row.remaining, i - 1),
                               payment, rate, insurance, extraPayment, startMonth);
    }
  }

  /** One month of the simulation from a positive balance: the month's
      interest, the capital repaid (the payment net of interest plus any
      extra payment, capped at the balance) and the total paid that month
      make the first row of the rest of the simulation, and the balance it
      leaves is where the simulation goes on from in the next month. */
  method PrepaymentMonth(balance: real, paymentBank: real, monthlyRate: real,
                         monthlyInsurance: real, extraPayment: real, startMonth: int,
                         m: nat, months: nat)
    returns (row: Row, next: real)
    requires balance > 0.0
    ensures [row] + (if m + 1 > 2 * months then []
                     else PrepaymentFrom(next, paymentBank, monthlyRate, monthlyInsurance,
                                         extraPayment, startMonth, m + 1, months))
         == PrepaymentFrom(balance, paymentBank, monthlyRate, monthlyInsurance,
                           extraPayment, startMonth, m, months)
  {
    var interest := balance * monthlyRate;
    var principal := paymentBank - interest;
    if m >= startMonth {
      principal := principal + extraPayment;
    }
    if principal > balance {
      principal := balance;
    }
    var totalPayment := paymentBank + monthlyInsurance;
    if m >= startMonth {
      totalPayment := totalPayment + extraPayment;
    }
    next := balance - principal;
    row := Row(m, totalPayment, principal, interest, monthlyInsurance, ClampAtZero(next));
    PrepaymentFromStep(balance, paymentBank, monthlyRate, monthlyInsurance, extraPayment,
                       startMonth, m, months);
  }

  /** The simulation, as the source writes it: the annuity payment of the
      loan over `years * 12` months, then the loop of `PrepaymentLoop`. It
      builds exactly `PrepaymentSchedule`. */
  method SimulatePrepayment(loan: real, annualRatePercent: real, years: nat, extraPayment: real,
                            startMonth: int, monthlyInsurance: real) returns (schedule: seq<Row>)
    requires annualRatePercent > 0.0 && years >= 1
    ensures schedule
         == PrepaymentSchedule(loan, annualRatePercent, years, extraPayment, startMonth, monthlyInsurance)
  {
    var months := Months(years);
    var monthlyRate := MonthlyRate(annualRatePercent);
    var paymentBank := AnnuityPayment(loan, monthlyRate, months);
    schedule := PrepaymentLoop(loan, paymentBank, monthlyRate, monthlyInsurance, extraPayment,
                               startMonth, months);
  }

  /** The simulation's loop: it runs while a balance is owed and stops after
      month `2 * months`, appending one row per month. It builds exactly the
      rows of `PrepaymentFrom` from month 1. */
  method PrepaymentLoop(loan: real, paymentBank: real, monthlyRate: real, monthlyInsurance: real,
                        extraPayment: real, startMonth: int, months: nat)
    returns (schedule: seq<Row>)
    requires months >= 1
    ensures schedule == PrepaymentFrom(loan, paymentBank, monthlyRate, monthlyInsurance,
                                       extraPayment, startMonth, 1, months)
  {
    var balance := loan;
    schedule := [];
    var m: nat := 1;
    while balance > 0.0
      invariant 1 <= m <= 2 * months
      invariant schedule + PrepaymentFrom(balance, paymentBank, monthlyRate, monthlyInsurance,
                                          extraPayment, startMonth, m, months)
             == PrepaymentFrom(loan, paymentBank, monthlyRate, monthlyInsurance,
                               extraPayment, startMonth, 1, months)
      decreases 2 * months - m
    {
      ghost var done := schedule;
      var row, next := PrepaymentMonth(balance, paymentBank, monthlyRate, monthlyInsurance,
                                       extraPayment, startMonth, m, months);
      schedule := schedule + [row];
      AppendRow(done, row, PrepaymentFrom(balance, paymentBank, monthlyRate, monthlyInsurance,
                                          extraPayment, startMonth, m, months),
                if m + 1 > 2 * months then []
                else PrepaymentFrom(next, paymentBank, monthlyRate, monthlyInsurance,
                                    extraPayment, startMonth, m + 1, months));
      balance := next;
      m := m + 1;
      if m > months * 2 {
        break;
      }
    }
  }

  /** One month of the simulation from a positive balance: the first row and
      the rest of the run from the balance it leaves (nothing after month
      `2 * months`). */
  lemma PrepaymentFromStep(balance: real, payment: real, rate: real, insurance: real,
                           extraPayment: real, startMonth: int, month: nat, months: nat)
    requires balance > 0.0
    ensures var extra := ExtraFor(month, extraPayment, startMonth);
            var interest := InterestOn(balance, rate);
            var capital := CappedCapital(payment - interest + extra, balance);
            var rows := PrepaymentFrom(balance, payment, rate, insurance, extraPayment, startMonth,
                                       month, months);
            rows == [Row(month, payment + insurance + extra, capital, interest, insurance,
                         ClampAtZero(balance - capital))]
                    + (if month + 1 > 2 * months then []
                       else PrepaymentFrom(balance - capital, payment, rate, insurance,
                                           extraPayment, startMonth, month + 1, months))
  {
  }

  // ---------------------------------------------------------------------
  // Properties of the simulation

  /** The simulation of a loan is a prepayment schedule from month 1: the
      cap keeps every balance non-negative, the loop stops once nothing is
      owed and never runs past month `2 * years * 12`. */
  lemma PrepaymentScheduleIsPrepayment(loan: real, annualRatePercent: real, years: nat,
                                       extraPayment: real, startMonth: int, monthlyInsurance: real)
    requires annualRatePercent > 0.0 && years >= 1
    ensures IsPrepaymentFrom(PrepaymentSchedule(loan, annualRatePercent, years, extraPayment,
                                                startMonth, monthlyInsurance),
                             loan, AnnuityPayment(loan, MonthlyRate(annualRatePercent), Months(years)),
                             MonthlyRate(annualRatePercent), monthlyInsurance, extraPayment,
                             startMonth, 1, Months(years))
  {
    PrepaymentFromIsPrepayment(loan, AnnuityPayment(loan, MonthlyRate(annualRatePercent), Months(years)),
                               MonthlyRate(annualRatePercent), monthlyInsurance, extraPayment,
                               startMonth, 1, Months(years));
  }

  /** Once the cap fires in a month (the payment net of interest plus the
      extra exceeds the balance), that month repays exactly the balance, leaves
      nothing owed and is the last row. */
  lemma CappedMonthIsLast(rows: seq<Row>, loan: real, payment: real, rate: real, insurance: real,
                          extraPayment: real, startMonth: int, first: nat, months: nat, i: nat)
    requires IsPrepaymentFrom(rows, loan, payment, rate, insurance, extraPayment, startMonth,
                              first, months)
    requires i < |rows|
    requires payment - rows[i].interest + ExtraFor(first + i, extraPayment, startMonth)
             > BalanceBefore(rows, loan, i)
    ensures rows[i].capital == BalanceBefore(rows, loan, i)
    ensures rows[i].remaining == 0.0
    ensures i == |rows| - 1
  {
    assert FollowsPrepayment(rows[i], first + i, BalanceBefore(rows, loan, i),
                             payment, rate, insurance, extraPayment, startMonth);
  }

  /** Without an extra payment, starting from the annuity balance after k
      months, the simulation makes the same rows as the amortization
      schedule: the cap never fires because the annuity never overpays. */
  lemma {:induction false} NoExtraFromMonth(loan: real, payment: real, rate: real, insurance: real,
                                            startMonth: int, months: nat, k: nat)
    requires rate > 0.0 && months >= 1 && loan > 0.0 && k < months
    requires SolvesAnnuity(payment, loan, rate, months)
    ensures PrepaymentFrom(BalanceAfter(loan, payment, rate, k), payment, rate, insurance,
                           0.0, startMonth, k + 1, months)
         == ScheduleFrom(BalanceAfter(loan, payment, rate, k), payment, rate, insurance, k + 1, months)
    decreases months - k
  {
    var b := BalanceAfter(loan, payment, rate, k);
    var next := BalanceAfter(loan, payment, rate, k + 1);
    assert && b > 0.0 && next >= 0.0 && next == b - (payment - InterestOn(b, rate))
           && (k + 1 < months ==> next > 0.0) && (k + 1 == months ==> next == 0.0) by {
      AnnuityBalanceBounds(loan, payment, rate, months, k);
      AnnuityBalanceBounds(loan, payment, rate, months, k + 1);
      BalanceAfterStep(loan, payment, rate, k);
    }
    if k + 1 < months {
      NoExtraFromMonth(loan, payment, rate, insurance, startMonth, months, k + 1);
    }
    NoExtraStep(b, next, payment, rate, insurance, startMonth, k + 1, months);
  }

  /** One month without an extra payment, from a positive balance that the
      annuity payment does not overpay: both loops make the same row, so if
      they agree from the balance it leaves on, they agree from this month. */
  lemma NoExtraStep(b: real, next: real, payment: real, rate: real, insurance: real,
                    startMonth: int, month: nat, months: nat)
    requires b > 0.0 && next >= 0.0 && next == b - (payment - InterestOn(b, rate))
    requires 1 <= month <= months
    requires next > 0.0 ==>
               PrepaymentFrom(next, payment, rate, insurance, 0.0, startMonth, month + 1, months)
               == ScheduleFrom(next, payment, rate, insurance, month + 1, months)
    ensures PrepaymentFrom(b, payment, rate, insurance, 0.0, startMonth, month, months)
         == ScheduleFrom(b, payment, rate, insurance, month, months)
  {
    var interest := InterestOn(b, rate);
    var extra := ExtraFor(month, 0.0, startMonth);
    assert extra == 0.0;
    assert CappedCapital(payment - interest + extra, b) == payment - interest;
    PrepaymentFromStep(b, payment, rate, insurance, 0.0, startMonth, month, months);
    ScheduleFromStep(b, payment, rate, insurance, month, months);
    if next <= 0.0 {
      assert PrepaymentFrom(next, payment, rate, insurance, 0.0, startMonth, month + 1, months) == [];
    }
  }

  /** Without an extra payment the simulation is the amortization schedule. */
  lemma PrepaymentWithoutExtraIsSchedule(loan: real, annualRatePercent: real, years: nat,
                                         startMonth: int, monthlyInsurance: real)
    requires annualRatePercent > 0.0 && years >= 1 && loan > 0.0
    ensures PrepaymentSchedule(loan, annualRatePercent, years, 0.0, startMonth, monthlyInsurance)
         == AmortizationSchedule(loan, annualRatePercent, years, monthlyInsurance)
  {
    var rate := MonthlyRate(annualRatePercent);
    var p := AnnuityPayment(loan, rate, Months(years));
    assert BalanceAfter(loan, p, rate, 0) == loan;
    NoExtraFromMonth(loan, p, rate, monthlyInsurance, startMonth, Months(years), 0);
  }

  /** One month from a balance no larger than the annuity balance, with a
      non-negative extra and no cap, leaves a balance no larger than the
      annuity balance a month later. */
  lemma SmallerBalanceSmallerNext(b: real, bk: real, p: real, r: real, e: real)
    requires b <= bk && r >= 0.0 && e >= 0.0
    ensures b - (p - InterestOn(b, r) + e) <= bk - (p - InterestOn(bk, r))
  {
    assert b * r <= bk * r;
  }

  /** From a balance no larger than the annuity balance after k months, with
      a non-negative extra payment, the simulation ends by month `months`. */
  lemma {:induction false} WithinTermFrom(loan: real, payment: real, rate: real, insurance: real,
                                          extraPayment: real, startMonth: int, months: nat,
                                          k: nat, balance: real)
    requires rate > 0.0 && months >= 1 && k < months && extraPayment >= 0.0
    requires SolvesAnnuity(payment, loan, rate, months)
    requires balance <= BalanceAfter(loan, payment, rate, k)
    ensures |PrepaymentFrom(balance, payment, rate, insurance, extraPayment, startMonth,
                            k + 1, months)| <= months - k
    decreases months - k
  {
    if balance > 0.0 {
      var e := ExtraFor(k + 1, extraPayment, startMonth);
      var owed := payment - InterestOn(balance, rate) + e;
      var next := balance - CappedCapital(owed, balance);
      if owed <= balance {
        SmallerBalanceSmallerNext(balance, BalanceAfter(loan, payment, rate, k), payment, rate, e);
        BalanceAfterStep(loan, payment, rate, k);
        assert next <= BalanceAfter(loan, payment, rate, k + 1);
        if k + 1 < months {
          WithinTermFrom(loan, payment, rate, insurance, extraPayment, startMonth, months,
                         k + 1, next);
        } else {
          AnnuityBalanceBounds(loan, payment, rate, months, k + 1);
        }
      }
      assert next <= 0.0 ==> PrepaymentFrom(next, payment, rate, insurance, extraPayment,
                                            startMonth, k + 2, months) == [];
    }
  }

  /** The capital column of a simulation adds up to the balance it started
      from less the balance its last row leaves. */
  lemma {:induction false} CapitalTelescopes(balance: real, payment: real, rate: real,
                                             insurance: real, extraPayment: real,
                                             startMonth: int, month: nat, months: nat)
    ensures var rows := PrepaymentFrom(balance, payment, rate, insurance, extraPayment,
                                       startMonth, month, months);
            rows != [] ==> SumCapital(rows) == balance - rows[|rows| - 1].remaining
    decreases 2 * months - month
  {
    var rows := PrepaymentFrom(balance, payment, rate, insurance, extraPayment, startMonth,
                               month, months);
    if rows != [] && |rows| > 1 {
      var next := rows[0].remaining;
      var rest := PrepaymentFrom(next, payment, rate, insurance, extraPayment, startMonth,
                                 month + 1, months);
      assert rows[1..] == rest;
      CapitalTelescopes(next, payment, rate, insurance, extraPayment, startMonth,
                        month + 1, months);
    }
  }

  /** With a positive loan and a non-negative extra payment the simulation
      never runs past the loan's term, so it is no longer than the
      amortization schedule. */
  lemma PrepaymentWithinTerm(loan: real, annualRatePercent: real, years: nat,
                             extraPayment: real, startMonth: int, monthlyInsurance: real)
    requires annualRatePercent > 0.0 && years >= 1 && loan > 0.0 && extraPayment >= 0.0
    ensures var rows := PrepaymentSchedule(loan, annualRatePercent, years, extraPayment,
                                           startMonth, monthlyInsurance);
            && 1 <= |rows| <= Months(years)
            && |rows| <= |AmortizationSchedule(loan, annualRatePercent, years, monthlyInsurance)|
  {
    var rate := MonthlyRate(annualRatePercent);
    var p := AnnuityPayment(loan, rate, Months(years));
    assert BalanceAfter(loan, p, rate, 0) == loan;
    WithinTermFrom(loan, p, rate, monthlyInsurance, extraPayment, startMonth, Months(years), 0, loan);
    AmortizesExactly(loan, annualRatePercent, years, monthlyInsurance);
  }

  /** With a positive loan and a non-negative extra payment the last row of
      the simulation clears the balance and its capital column adds up to the
      loan. */
  lemma PrepaymentRepaysLoan(loan: real, annualRatePercent: real, years: nat,
                             extraPayment: real, startMonth: int, monthlyInsurance: real)
    requires annualRatePercent > 0.0 && years >= 1 && loan > 0.0 && extraPayment >= 0.0
    ensures var rows := PrepaymentSchedule(loan, annualRatePercent, years, extraPayment,
                                           startMonth, monthlyInsurance);
            && rows != []
            && rows[|rows| - 1].remaining == 0.0
            && SumCapital(rows) == loan
  {
    var rate := MonthlyRate(annualRatePercent);
    var months := Months(years);
    var p := AnnuityPayment(loan, rate, months);
    var rows := PrepaymentSchedule(loan, annualRatePercent, years, extraPayment, startMonth,
                                   monthlyInsurance);
    PrepaymentWithinTerm(loan, annualRatePercent, years, extraPayment, startMonth, monthlyInsurance);
    PrepaymentFromIsPrepayment(loan, p, rate, monthlyInsurance, extraPayment, startMonth, 1, months);
    var last := |rows| - 1;
    if last > 0 {
      assert FollowsPrepayment(rows[last], 1 + last, BalanceBefore(rows, loan, last),
                               p, rate, monthlyInsurance, extraPayment, startMonth);
    }
    CapitalTelescopes(loan, p, rate, monthlyInsurance, extraPayment, startMonth, 1, months);
  }
}
