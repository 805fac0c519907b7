/**
 * The fixed-installment (French / annuity) amortization arithmetic shared by
 * both copies of `calcular_amortizacao`: the loan parameters, the monthly rate,
 * the fixed installment and the month-by-month running balance.
 *
 * Money and rates are exact `real`s, so the relations the program only meets
 * up to floating-point rounding are equalities here.
 */
module Annuity {

  /** The six scalar arguments of `calcular_amortizacao`. */
  datatype Loan = Loan(
    houseValue: real,         // valor_casa
    downPayment: real,        // entrada
    annualRatePercent: real,  // taxa_juros_anual, in percent
    years: int,               // prazo_anos
    monthlyInsurance: real,   // seguro_mensal
    upfrontFee: real          // comissao_inicial
  )
  {
    /** valor_financiado: the amount borrowed. */
    function Financed(): real { houseValue - downPayment }

    /** meses: the term in months. */
    function Months(): int { years * 12 }

    /** taxa_mensal: the annual percentage turned into a monthly fraction. */
    function MonthlyRate(): (r: real)
      ensures 1200.0 * r == annualRatePercent
      ensures (r > 0.0) == (annualRatePercent > 0.0)
      ensures (r == 0.0) == (annualRatePercent == 0.0)
    {
      (annualRatePercent / 100.0) / 12.0
    }
  }

  /** x to the n-th power, the program's `x ** n` for a whole exponent. */
  function Pow(x: real, n: nat): real
  {
    if n == 0 then 1.0 else x * Pow(x, n - 1)
  }

  lemma {:induction false} PowAtLeastOne(x: real, n: nat)
    requires x >= 1.0
    ensures Pow(x, n) >= 1.0
  {
    if n > 0 {
      PowAtLeastOne(x, n - 1);
      var p := Pow(x, n - 1);
      assert x * p - 1.0 == (x - 1.0) * p + (p - 1.0);
    }
  }

  /** The growth factor of a positive rate over at least one month exceeds one,
      so in exact arithmetic the annuity formula never divides by zero. */
  lemma PowAboveOne(x: real, n: nat)
    requires x > 1.0 && n >= 1
    ensures Pow(x, n) > 1.0
  {
    PowAtLeastOne(x, n - 1);
    var p := Pow(x, n - 1);
    assert x * p - 1.0 == (x - 1.0) * p + (p - 1.0);
    assert (x - 1.0) * p > 0.0;
  }

  /**
   * prestacao_base: the fixed monthly installment. With a positive monthly
   * rate it is the annuity payment `F * (r * x) / (x - 1)` with
   * `x = (1 + r)^months`; otherwise it is the straight-line share `F / months`.
   * The contract states the equation each branch solves.
   */
  function Installment(financed: real, rate: real, months: nat): (p: real)
    requires months >= 1
    ensures rate > 0.0 ==> Pow(1.0 + rate, months) - 1.0 > 0.0
    ensures rate > 0.0 ==>
      p * (Pow(1.0 + rate, months) - 1.0) == financed * rate * Pow(1.0 + rate, months)
    ensures rate <= 0.0 ==> p * (months as real) == financed
    ensures financed == 0.0 ==> p == 0.0
  {
    if rate > 0.0 then
      var x := Pow(1.0 + rate, months);
      PowAboveOne(1.0 + rate, months);
      QuotientStep(financed, rate, x);
      financed * (rate * x) / (x - 1.0)
    else
      DivisionStep(financed, months as real);
      financed / (months as real)
  }

  /**
   * The running balance `saldo` after k months: each month the interest is
   * `saldo * rate`, the principal is `installment - interest`, and the
   * principal is taken off the balance.
   */
  function Balance(financed: real, rate: real, installment: real, k: nat): real
  {
    if k == 0 then financed
    else
      var b := Balance(financed, rate, installment, k - 1);
      b - (installment - b * rate)
  }

  /** juros_mes of month k + 1. */
  function Interest(financed: real, rate: real, installment: real, k: nat): real
  {
    Balance(financed, rate, installment, k) * rate
  }

  /** capital_mes of month k + 1. */
  function Principal(financed: real, rate: real, installment: real, k: nat): real
  {
    installment - Interest(financed, rate, installment, k)
  }

  /** The installment the program computes for a loan. */
  function Payment(loan: Loan): real
    requires loan.years >= 1
  {
    Installment(loan.Financed(), loan.MonthlyRate(), loan.Months())
  }

  /** The program's running balance for a loan after k months. */
  function BalanceAfter(loan: Loan, k: nat): real
    requires loan.years >= 1
  {
    Balance(loan.Financed(), loan.MonthlyRate(), Payment(loan), k)
  }

  /** 1 + x + ... + x^(k-1), accumulated as the balance recurrence does. */
  function GeomSum(x: real, k: nat): real
  {
    if k == 0 then 0.0 else x * GeomSum(x, k - 1) + 1.0
  }

  lemma {:induction false} GeomSumTimesRate(rate: real, k: nat)
    ensures rate * GeomSum(1.0 + rate, k) == Pow(1.0 + rate, k) - 1.0
  {
    if k > 0 {
      GeomSumTimesRate(rate, k - 1);
      GeomSumStep(rate, k);
    }
  }

  /** Closed form of the running balance: the loan grown by compound interest,
      less the installments paid, each grown from the month it was paid. */
  lemma {:induction false} BalanceClosedForm(financed: real, rate: real, installment: real, k: nat)
    ensures Balance(financed, rate, installment, k)
         == financed * Pow(1.0 + rate, k) - installment * GeomSum(1.0 + rate, k)
  {
    if k > 0 {
      BalanceClosedForm(financed, rate, installment, k - 1);
      ClosedFormStep(financed, rate, installment, k);
    }
  }

  /** Without interest the balance falls by one installment each month. */
  lemma {:induction false} ZeroRateBalance(financed: real, installment: real, k: nat)
    ensures Balance(financed, 0.0, installment, k) == financed - (k as real) * installment
  {
    if k > 0 {
      ZeroRateBalance(financed, installment, k - 1);
    }
  }

  /**
   * With a non-negative rate, the installment repays the loan exactly: the
   * balance after the last month is zero, in both branches of the formula.
   */
  lemma InstallmentPaysOff(financed: real, rate: real, months: nat)
    requires months >= 1 && rate >= 0.0
    ensures Balance(financed, rate, Installment(financed, rate, months), months) == 0.0
  {
    var p := Installment(financed, rate, months);
    if rate == 0.0 {
      ZeroRateBalance(financed, p, months);
      StraightLineStep(financed, p, months as real);
    } else {
      AnnuityPaysOff(financed, rate, months, p);
    }
  }

  /** Any payment that solves the annuity equation repays the loan exactly. */
  lemma AnnuityPaysOff(financed: real, rate: real, months: nat, p: real)
    requires rate > 0.0
    requires p * (Pow(1.0 + rate, months) - 1.0) == financed * rate * Pow(1.0 + rate, months)
    ensures Balance(financed, rate, p, months) == 0.0
  {
    BalanceTimesRate(financed, rate, p, months);
    ZeroProductStep(rate, Balance(financed, rate, p, months));
  }

  /** The closed form multiplied through by the rate, with the geometric sum
      eliminated. */
  lemma BalanceTimesRate(financed: real, rate: real, installment: real, k: nat)
    ensures rate * Balance(financed, rate, installment, k)
         == financed * rate * Pow(1.0 + rate, k) - installment * (Pow(1.0 + rate, k) - 1.0)
  {
    BalanceClosedForm(financed, rate, installment, k);
    GeomSumTimesRate(rate, k);
    TimesRateStep(financed, rate, installment, Pow(1.0 + rate, k), GeomSum(1.0 + rate, k),
                  Balance(financed, rate, installment, k));
  }

  /** The principal share grows with the compound factor: month k + 1 repays
      (1 + rate)^k times what the first month repays. */
  lemma {:induction false} PrincipalClosedForm(financed: real, rate: real, installment: real, k: nat)
    ensures Principal(financed, rate, installment, k)
         == Pow(1.0 + rate, k) * (installment - financed * rate)
  {
    if k > 0 {
      PrincipalClosedForm(financed, rate, installment, k - 1);
      PrincipalStep(financed, rate, installment, k);
    }
  }

  /** For a positive loan and a non-negative rate the first month already
      repays some principal: the installment exceeds the first interest. */
  lemma FirstPrincipalPositive(financed: real, rate: real, months: nat)
    requires months >= 1 && rate >= 0.0 && financed > 0.0
    ensures Installment(financed, rate, months) - financed * rate > 0.0
  {
    var p := Installment(financed, rate, months);
    if rate > 0.0 {
      var x := Pow(1.0 + rate, months);
      var d := p - financed * rate;
      assert d * (x - 1.0) == financed * rate by {
        calc {
          d * (x - 1.0);
          p * (x - 1.0) - financed * rate * (x - 1.0);
          financed * rate * x - financed * rate * (x - 1.0);
          financed * rate;
        }
      }
      assert financed * rate > 0.0;
    } else {
      assert p * (months as real) == financed;
    }
  }

  /**
   * For a non-negative loan and rate the running balance never rises, and for
   * a positive loan it falls strictly every month.
   */
  lemma BalanceDecreasing(financed: real, rate: real, months: nat, k: nat)
    requires months >= 1 && rate >= 0.0 && financed >= 0.0
    ensures var p := Installment(financed, rate, months);
      Balance(financed, rate, p, k + 1) <= Balance(financed, rate, p, k) &&
      (financed > 0.0 ==> Balance(financed, rate, p, k + 1) < Balance(financed, rate, p, k))
  {
    var p := Installment(financed, rate, months);
    assert Balance(financed, rate, p, k + 1)
        == Balance(financed, rate, p, k) - Principal(financed, rate, p, k);
    PrincipalClosedForm(financed, rate, p, k);
    PowAtLeastOne(1.0 + rate, k);
    var x := Pow(1.0 + rate, k);
    if financed > 0.0 {
      FirstPrincipalPositive(financed, rate, months);
      assert x * (p - financed * rate) > 0.0;
    } else {
      assert p == 0.0;
    }
  }

  lemma {:induction false} BalanceMonotone(financed: real, rate: real, months: nat, k: nat, j: nat)
    requires months >= 1 && rate >= 0.0 && financed >= 0.0 && k <= j
    ensures var p := Installment(financed, rate, months);
      Balance(financed, rate, p, j) <= Balance(financed, rate, p, k)
  {
    if k < j {
      BalanceMonotone(financed, rate, months, k, j - 1);
      BalanceDecreasing(financed, rate, months, j - 1);
    }
  }

  /** With a non-negative loan and rate the running balance stays non-negative
      through the whole term, so the program's clamp at zero never fires in
      exact arithmetic. */
  lemma BalanceNonNegative(financed: real, rate: real, months: nat, k: nat)
    requires months >= 1 && rate >= 0.0 && financed >= 0.0 && k <= months
    ensures Balance(financed, rate, Installment(financed, rate, months), k) >= 0.0
  {
    BalanceMonotone(financed, rate, months, k, months);
    InstallmentPaysOff(financed, rate, months);
  }

  /** Nothing financed: the installment is zero and so is every balance. */
  lemma {:induction false} ZeroLoanBalance(rate: real, months: nat, k: nat)
    requires months >= 1
    ensures Installment(0.0, rate, months) == 0.0
    ensures Balance(0.0, rate, Installment(0.0, rate, months), k) == 0.0
  {
    if k > 0 {
      ZeroLoanBalance(rate, months, k - 1);
    }
  }

  /** 120000 financed at 0% over 10 years is repaid at exactly 1000 a month. */
  lemma InterestFreeExample(loan: Loan)
    requires loan.Financed() == 120000.0 && loan.annualRatePercent == 0.0 && loan.years == 10
    ensures Payment(loan) == 1000.0
  {
    assert Payment(loan) * 120.0 == 120000.0;
  }

  // Ring identities used by the proofs above, stated over plain variables so
  // that the solver does not see the recursive definitions while doing algebra.

  lemma QuotientStep(financed: real, rate: real, x: real)
    requires x - 1.0 > 0.0
    ensures (financed * (rate * x) / (x - 1.0)) * (x - 1.0) == financed * rate * x
    ensures financed == 0.0 ==> financed * (rate * x) / (x - 1.0) == 0.0
  {
    DivisionStep(financed * (rate * x), x - 1.0);
  }

  lemma DivisionStep(a: real, d: real)
    requires d > 0.0
    ensures (a / d) * d == a
    ensures a == 0.0 ==> a / d == 0.0
  {
  }

  lemma GeomSumStep(rate: real, k: nat)
    requires k > 0
    requires rate * GeomSum(1.0 + rate, k - 1) == Pow(1.0 + rate, k - 1) - 1.0
    ensures rate * GeomSum(1.0 + rate, k) == Pow(1.0 + rate, k) - 1.0
  {
  }

  lemma ClosedFormStep(financed: real, rate: real, installment: real, k: nat)
    requires k > 0
    requires Balance(financed, rate, installment, k - 1)
          == financed * Pow(1.0 + rate, k - 1) - installment * GeomSum(1.0 + rate, k - 1)
    ensures Balance(financed, rate, installment, k)
         == financed * Pow(1.0 + rate, k) - installment * GeomSum(1.0 + rate, k)
  {
  }

  lemma PrincipalStep(financed: real, rate: real, installment: real, k: nat)
    requires k > 0
    requires Principal(financed, rate, installment, k - 1)
          == Pow(1.0 + rate, k - 1) * (installment - financed * rate)
    ensures Principal(financed, rate, installment, k)
         == Pow(1.0 + rate, k) * (installment - financed * rate)
  {
  }

  lemma StraightLineStep(financed: real, installment: real, n: real)
    requires installment * n == financed
    ensures financed - n * installment == 0.0
  {
  }

  lemma TimesRateStep(financed: real, rate: real, installment: real, x: real, g: real, b: real)
    requires b == financed * x - installment * g
    requires rate * g == x - 1.0
    ensures rate * b == financed * rate * x - installment * (x - 1.0)
  {
  }

  lemma CountStep(n: real, p: real)
    ensures p * n + p == p * (n + 1.0)
  {
  }

  lemma CostStep(p: real, insurance: real, months: real, fee: real, paid: real)
    requires paid == p * months
    ensures (p + insurance) * months + fee == paid + insurance * months + fee
  {
  }

  lemma ZeroProductStep(rate: real, b: real)
    requires rate > 0.0 && rate * b == 0.0
    ensures b == 0.0
  {
  }
}
