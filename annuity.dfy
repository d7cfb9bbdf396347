/** Annuity arithmetic shared by the whole calculator: the monthly rate, the
    number of months, exact integer powers and the fixed monthly payment of an
    amortising loan, `L * r * (1+r)^n / ((1+r)^n - 1)`.

    The arithmetic is exact (`real`). Proofs about it are split in two: small
    lemmas over plain reals (the algebra) and lemmas that instantiate them
    with the calculator's functions. */
module Annuity {

  /** x^n by repeated multiplication: every exponent in the calculator is a
      whole number of months. */
  function Pow(x: real, n: nat): real
  {
    if n == 0 then 1.0 else x * Pow(x, n - 1)
  }

  /** 1 + x + x^2 + ... + x^(n-1). */
  function GeometricSum(x: real, n: nat): real
  {
    if n == 0 then 0.0 else GeometricSum(x, n - 1) + Pow(x, n - 1)
  }

  /** The monthly rate of an annual percentage: `interest_rate / 100 / 12`. */
  function MonthlyRate(annualRatePercent: real): (rate: real)
    ensures rate > 0.0 <==> annualRatePercent > 0.0
    ensures rate == 0.0 <==> annualRatePercent == 0.0
    ensures rate * 1200.0 == annualRatePercent
  {
    annualRatePercent / 100.0 / 12.0
  }

  /** The number of monthly instalments of a loan of `years` years: the
      term is a whole number of years of twelve months each. */
  function Months(years: nat): (months: nat)
    ensures months % 12 == 0 && months / 12 == years
    ensures years >= 1 ==> months >= 12
  {
    years * 12
  }

  /** The fixed bank payment of the annuity formula, written as the source
      writes it: `loan * (r * (1+r)^n) / ((1+r)^n - 1)`. With q = (1+r)^n,
      the payment p solves the annuity equation p * (q - 1) == loan * r * q;
      it exceeds the first month's interest `loan * r`, which is what makes
      the balance fall, and it has the sign of the loan. */
  function AnnuityPayment(loan: real, rate: real, months: nat): (payment: real)
    requires rate > 0.0 && months >= 1
    ensures payment * (Pow(1.0 + rate, months) - 1.0) == loan * rate * Pow(1.0 + rate, months)
    ensures loan > 0.0 ==> payment > loan * rate
    ensures loan == 0.0 ==> payment == 0.0
    ensures loan < 0.0 ==> payment < 0.0
  {
    var q := Pow(1.0 + rate, months);
    PowAboveOne(rate, months);
    var p := loan * (rate * q) / (q - 1.0);
    DivideThenMultiply(loan * (rate * q), q - 1.0);
    AboveFactor(loan * rate, q, p);
    p
  }

  // ---------------------------------------------------------------------
  // Powers and the geometric sum

  lemma {:induction false} PowAtLeastOne(x: real, n: nat)
    requires x >= 1.0
    ensures Pow(x, n) >= 1.0
  {
    if n > 0 {
      PowAtLeastOne(x, n - 1);
      MultiplyAtLeastOne(x, Pow(x, n - 1));
    }
  }

  /** For a base above one, powers grow strictly with the exponent. */
  lemma {:induction false} PowStrictlyIncreasing(x: real, j: nat, k: nat)
    requires x > 1.0 && j < k
    ensures Pow(x, j) < Pow(x, k)
  {
    PowAtLeastOne(x, k - 1);
    MultiplyAboveOne(x, Pow(x, k - 1));
    if j < k - 1 {
      PowStrictlyIncreasing(x, j, k - 1);
    }
  }

  /** The factor (1+r)^n of a positive rate over at least one month exceeds one,
      so the denominator of the annuity formula is positive. */
  lemma PowAboveOne(rate: real, months: nat)
    requires rate > 0.0 && months >= 1
    ensures Pow(1.0 + rate, months) > 1.0
  {
    PowStrictlyIncreasing(1.0 + rate, 0, months);
  }

  /** The telescoping identity x^n - 1 == (x - 1)(1 + x + ... + x^(n-1)). */
  lemma {:induction false} GeometricSumIdentity(x: real, n: nat)
    ensures Pow(x, n) - 1.0 == (x - 1.0) * GeometricSum(x, n)
  {
    if n > 0 {
      GeometricSumIdentity(x, n - 1);
      GeometricStep(x, GeometricSum(x, n - 1), Pow(x, n - 1));
    }
  }

  /** Each of the `months` terms of the geometric sum is at most
      x^(months-1); `n` is `months` as a real. */
  lemma {:induction false} GeometricSumBound(x: real, months: nat, n: real)
    requires x >= 1.0 && months >= 1 && n == months as real
    ensures GeometricSum(x, months) <= n * Pow(x, months - 1)
  {
    if months > 1 {
      GeometricSumBound(x, months - 1, n - 1.0);
      PowAtLeastOne(x, months - 2);
      MultiplyAtLeastOne(x, Pow(x, months - 2));
      SumBoundStep(GeometricSum(x, months - 1), Pow(x, months - 2), Pow(x, months - 1), n);
    }
  }

  /** For a base above one, 1 + x + ... + x^(n-1) < n * x^n. */
  lemma SumBelowTermTimesPower(x: real, months: nat, n: real)
    requires x > 1.0 && months >= 1 && n == months as real
    ensures GeometricSum(x, months) < n * Pow(x, months)
  {
    GeometricSumBound(x, months, n);
    PowStrictlyIncreasing(x, months - 1, months);
    BelowScaled(GeometricSum(x, months), n, Pow(x, months - 1), Pow(x, months));
  }

  // ---------------------------------------------------------------------
  // Properties of the payment

  /** The payment is linear in the loan amount: it is the loan times the
      payment on a loan of one. */
  lemma PaymentIsLoanTimesFactor(loan: real, rate: real, months: nat)
    requires rate > 0.0 && months >= 1
    ensures AnnuityPayment(loan, rate, months) == loan * AnnuityPayment(1.0, rate, months)
  {
    var q := Pow(1.0 + rate, months);
    PowAboveOne(rate, months);
    ScaleSolution(AnnuityPayment(loan, rate, months), AnnuityPayment(1.0, rate, months),
                  loan, rate * q, q - 1.0);
  }

  /** The payment of a sum of loans is the sum of their payments, and scaling
      the loan scales the payment. */
  lemma PaymentLinear(a: real, b: real, c: real, rate: real, months: nat)
    requires rate > 0.0 && months >= 1
    ensures AnnuityPayment(a + b, rate, months)
         == AnnuityPayment(a, rate, months) + AnnuityPayment(b, rate, months)
    ensures AnnuityPayment(c * a, rate, months) == c * AnnuityPayment(a, rate, months)
  {
    var f := AnnuityPayment(1.0, rate, months);
    PaymentIsLoanTimesFactor(a + b, rate, months);
    PaymentIsLoanTimesFactor(a, rate, months);
    PaymentIsLoanTimesFactor(b, rate, months);
    PaymentIsLoanTimesFactor(c * a, rate, months);
    Distributes(a, b, c, f);
  }

  /** A larger loan has a larger payment. */
  lemma PaymentMonotone(a: real, b: real, rate: real, months: nat)
    requires rate > 0.0 && months >= 1 && a < b
    ensures AnnuityPayment(a, rate, months) < AnnuityPayment(b, rate, months)
  {
    PaymentLinear(a, b - a, 1.0, rate, months);
    assert a + (b - a) == b;
    assert AnnuityPayment(b - a, rate, months) > 0.0;
  }

  /** Paying the annuity over the whole term pays back strictly more than the
      principal: the total `payment * months` covers the loan with interest. */
  lemma PaymentCoversPrincipal(loan: real, rate: real, months: nat)
    requires rate > 0.0 && months >= 1 && loan > 0.0
    ensures AnnuityPayment(loan, rate, months) * (months as real) > loan
  {
    var x := 1.0 + rate;
    GeometricSumIdentity(x, months);
    SumBelowTermTimesPower(x, months, months as real);
    PowAboveOne(rate, months);
    PaymentsExceedLoan(AnnuityPayment(loan, rate, months), loan, rate,
                   Pow(x, months), GeometricSum(x, months), months as real);
  }

  // ---------------------------------------------------------------------
  // Algebra over plain reals

  lemma PositiveProduct(x: real, y: real)
    requires x > 0.0 && y > 0.0
    ensures x * y > 0.0
  {
  }

  lemma DivideThenMultiply(a: real, d: real)
    requires d != 0.0
    ensures a / d * d == a
  {
  }

  lemma MultiplyAtLeastOne(x: real, p: real)
    requires x >= 1.0 && p >= 1.0
    ensures x * p >= p
  {
    assert x * p - p == (x - 1.0) * p;
  }

  lemma MultiplyAboveOne(x: real, p: real)
    requires x > 1.0 && p >= 1.0
    ensures x * p > p
  {
    assert x * p - p == (x - 1.0) * p;
  }

  lemma GeometricStep(x: real, a: real, p: real)
    requires p - 1.0 == (x - 1.0) * a
    ensures x * p - 1.0 == (x - 1.0) * (a + p)
  {
  }

  lemma SumBoundStep(g: real, lo: real, hi: real, n: real)
    requires n >= 2.0 && lo <= hi && g <= (n - 1.0) * lo
    ensures g + hi <= n * hi
  {
    assert (n - 1.0) * lo <= (n - 1.0) * hi;
  }

  lemma BelowScaled(g: real, k: real, lower: real, upper: real)
    requires k > 0.0 && g <= k * lower && lower < upper
    ensures g < k * upper
  {
    assert k * upper - k * lower == k * (upper - lower);
  }

  /** If p * (q - 1) == a * q with q > 1 then p has the sign of a and, for
      positive a, exceeds a. */
  lemma AboveFactor(a: real, q: real, p: real)
    requires q > 1.0 && p * (q - 1.0) == a * q
    ensures a > 0.0 ==> p > a
    ensures a == 0.0 ==> p == 0.0
    ensures a < 0.0 ==> p < 0.0
  {
    if a > 0.0 {
      assert p * (q - 1.0) > 0.0;
      assert p > 0.0;
      assert (p - a) * q == p;
      PositiveFactor(p - a, q);
    } else if a < 0.0 {
      assert p * (q - 1.0) < 0.0;
    } else {
      ZeroFactor(p, q - 1.0);
    }
  }

  lemma ZeroFactor(p: real, d: real)
    requires d != 0.0 && p * d == 0.0
    ensures p == 0.0
  {
  }

  lemma PositiveFactor(a: real, q: real)
    requires q > 0.0 && a * q > 0.0
    ensures a > 0.0
  {
  }

  lemma ScaleSolution(p: real, f: real, loan: real, a: real, d: real)
    requires d != 0.0
    requires p * d == loan * a && f * d == 1.0 * a
    ensures p == loan * f
  {
    assert (p - loan * f) * d == 0.0;
  }

  lemma Distributes(a: real, b: real, c: real, f: real)
    ensures (a + b) * f == a * f + b * f
    ensures (c * a) * f == c * (a * f)
  {
  }

  /** From p (q - 1) == L r q, q - 1 == r g, g < n q and positive L, r, q,
      n it follows that p n > L. */
  lemma PaymentsExceedLoan(p: real, loan: real, rate: real, q: real, g: real, n: real)
    requires loan > 0.0 && rate > 0.0 && q > 1.0 && n > 0.0
    requires p * (q - 1.0) == loan * rate * q && q - 1.0 == rate * g && g < n * q
    ensures p * n > loan
  {
    assert (p * g - loan * q) * rate == 0.0;
    assert p * g == loan * q;
    assert g > 0.0;
    assert p > 0.0;
    BelowScaled(p * g, p, g, n * q);
    assert loan * q < (p * n) * q;
    assert (p * n - loan) * q > 0.0;
  }
}
