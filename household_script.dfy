/**
 * The engine of HouseHoldScript.py: `calcular_amortizacao`, which builds the
 * monthly entries in a loop while accumulating the interest and principal
 * totals, and then computes the total cost from the constant installment.
 * The printed summary is returned here as out-parameters instead.
 */
module HouseHoldScript {
  import opened Annuity

  /** One entry of the returned list; the keys mês, juros, capital, prestacao
      and saldo. The balance is reported unclamped. */
  datatype Entry = Entry(
    month: int,
    interest: real,
    principal: real,
    installment: real,
    balance: real
  )

  /** Sum of the juros of the entries. */
  function TotalInterest(entries: seq<Entry>): real
  {
    if entries == [] then 0.0
    else TotalInterest(entries[..|entries| - 1]) + entries[|entries| - 1].interest
  }

  /** Sum of the capital of the entries. */
  function TotalPrincipal(entries: seq<Entry>): real
  {
    if entries == [] then 0.0
    else TotalPrincipal(entries[..|entries| - 1]) + entries[|entries| - 1].principal
  }

  /** Entry `month` as the loop body builds it from the running balance left
      by the previous months. */
  function EntryAt(loan: Loan, month: nat): Entry
    requires loan.years >= 1 && month >= 1
  {
    var before := BalanceAfter(loan, month - 1);
    var interest := before * loan.MonthlyRate();
    var principal := Payment(loan) - interest;
    Entry(month, interest, principal, Payment(loan), before - principal)
  }

  /** The entries of months 1..k, in the order the loop appends them. */
  function EntriesUpTo(loan: Loan, k: nat): (s: seq<Entry>)
    requires loan.years >= 1
    ensures |s| == k
  {
    if k == 0 then [] else EntriesUpTo(loan, k - 1) + [EntryAt(loan, k)]
  }

  /** All entries: months 1..meses. */
  function Entries(loan: Loan): seq<Entry>
    requires loan.years >= 1
  {
    EntriesUpTo(loan, loan.Months())
  }

  /** `custo_total`: installment plus insurance for every month, plus the
      upfront fee. */
  function TotalCost(loan: Loan): real
    requires loan.years >= 1
  {
    (Payment(loan) + loan.monthlyInsurance) * (loan.Months() as real) + loan.upfrontFee
  }

  /**
   * `calcular_amortizacao`: the entries of every month, the installment, the
   * accumulated interest and principal totals, equal to the sums over the
   * returned entries, and the total cost.
   */
  method Amortize(loan: Loan)
    returns (entries: seq<Entry>, installment: real, interestTotal: real,
             principalTotal: real, totalCost: real)
    requires loan.years >= 1
    ensures entries == Entries(loan) && installment == Payment(loan)
    ensures interestTotal == TotalInterest(entries)
    ensures principalTotal == TotalPrincipal(entries)
    ensures totalCost == TotalCost(loan)
  {
    var financed := loan.Financed();
    var months: nat := loan.Months();
    var rate := loan.MonthlyRate();
    entries := [];
    interestTotal := 0.0;
    principalTotal := 0.0;
    installment := Installment(financed, rate, months);
    assert installment == Payment(loan);
    var balance := financed;
    for month := 1 to months + 1
      invariant balance == BalanceAfter(loan, month - 1)
      invariant entries == EntriesUpTo(loan, month - 1)
      invariant interestTotal == TotalInterest(entries)
      invariant principalTotal == TotalPrincipal(entries)
    {
      EntryAtFromBalance(loan, month, balance);
      var interest := balance * rate;
      var principal := installment - interest;
      balance := balance - principal;
      var entry := Entry(month, interest, principal, installment, balance);
      assert (entries + [entry])[..|entries|] == entries;
      assert TotalInterest(entries + [entry]) == TotalInterest(entries) + interest;
      assert TotalPrincipal(entries + [entry]) == TotalPrincipal(entries) + principal;
      entries := entries + [entry];
      interestTotal := interestTotal + interest;
      principalTotal := principalTotal + principal;
    }
    totalCost := (installment + loan.monthlyInsurance) * (loan.Months() as real) + loan.upfrontFee;
    CostFromInstallment(loan, installment);
  }

  /** `custo_total` computed from the loop's installment is `TotalCost`. */
  lemma CostFromInstallment(loan: Loan, installment: real)
    requires loan.years >= 1 && installment == Payment(loan)
    ensures (installment + loan.monthlyInsurance) * (loan.Months() as real) + loan.upfrontFee
         == TotalCost(loan)
  {
  }

  /** The loop body's step: from the running balance before month k, the
      entry of month k and the running balance after it. */
  lemma EntryAtFromBalance(loan: Loan, k: nat, before: real)
    requires loan.years >= 1 && k >= 1 && before == BalanceAfter(loan, k - 1)
    ensures var interest := before * loan.MonthlyRate();
      var principal := Payment(loan) - interest;
      BalanceAfter(loan, k) == before - principal &&
      EntryAt(loan, k) == Entry(k, interest, principal, Payment(loan), before - principal)
  {
  }

  /** Entry i of the first k months is the entry of month i + 1. */
  lemma {:induction false} EntriesUpToAt(loan: Loan, k: nat)
    requires loan.years >= 1
    ensures forall i | 0 <= i < k :: EntriesUpTo(loan, k)[i] == EntryAt(loan, i + 1)
  {
    if k > 0 {
      EntriesUpToAt(loan, k - 1);
    }
  }

  /**
   * The shape of the entries: meses of them, numbered 1..meses, each with the
   * same installment split exactly into interest and principal, and each
   * reporting the running balance after its month.
   */
  lemma EntriesShape(loan: Loan)
    requires loan.years >= 1
    ensures var s := Entries(loan);
      |s| == loan.Months() &&
      (forall i | 0 <= i < |s| :: s[i].month == i + 1) &&
      (forall i | 0 <= i < |s| ::
         s[i].installment == Payment(loan) && s[i].interest + s[i].principal == Payment(loan)) &&
      (forall i | 0 <= i < |s| :: s[i].balance == BalanceAfter(loan, i + 1))
  {
    var s := Entries(loan);
    EntriesUpToAt(loan, loan.Months());
    forall i | 0 <= i < |s| ensures s[i].balance == BalanceAfter(loan, i + 1) {
      EntryAtFromBalance(loan, i + 1, BalanceAfter(loan, i));
    }
  }

  /** After k months the running balance is the financed amount less the
      principal of the entries of those k months. */
  lemma {:induction false} EntriesPrincipalSoFar(loan: Loan, k: nat)
    requires loan.years >= 1
    ensures TotalPrincipal(EntriesUpTo(loan, k)) == loan.Financed() - BalanceAfter(loan, k)
  {
    if k > 0 {
      EntriesPrincipalSoFar(loan, k - 1);
      var prefix := EntriesUpTo(loan, k - 1);
      var entry := EntryAt(loan, k);
      assert (prefix + [entry])[..k - 1] == prefix;
      assert TotalPrincipal(prefix + [entry]) == TotalPrincipal(prefix) + entry.principal;
      EntryAtFromBalance(loan, k, BalanceAfter(loan, k - 1));
    }
  }

  /** Every entry's saldo is the financed amount less the principal of the
      entries up to and including it. */
  lemma EntriesBalance(loan: Loan)
    requires loan.years >= 1
    ensures var s := Entries(loan);
      forall i | 0 <= i < |s| :: s[i].balance == loan.Financed() - TotalPrincipal(s[..i + 1])
  {
    var s := Entries(loan);
    EntriesShape(loan);
    forall i | 0 <= i < |s| ensures s[i].balance == loan.Financed() - TotalPrincipal(s[..i + 1]) {
      EntriesPrefix(loan, loan.Months(), i + 1);
      EntriesPrincipalSoFar(loan, i + 1);
    }
  }

  /** The first j entries of the first k months are the first j months'. */
  lemma {:induction false} EntriesPrefix(loan: Loan, k: nat, j: nat)
    requires loan.years >= 1 && j <= k
    ensures EntriesUpTo(loan, k)[..j] == EntriesUpTo(loan, j)
  {
    if j < k {
      EntriesPrefix(loan, k - 1, j);
      assert EntriesUpTo(loan, k)[..k - 1] == EntriesUpTo(loan, k - 1);
    }
  }

  /** When every entry splits the same installment p, interest and principal
      together add up to p once per entry. */
  lemma {:induction false} SplitTotals(entries: seq<Entry>, p: real)
    requires forall i | 0 <= i < |entries| :: entries[i].interest + entries[i].principal == p
    ensures TotalInterest(entries) + TotalPrincipal(entries) == p * (|entries| as real)
  {
    if entries != [] {
      var prefix := entries[..|entries| - 1];
      SplitTotals(prefix, p);
      CountStep(|prefix| as real, p);
    }
  }

  /** The entries' interest and principal add up to the installment once per
      month. */
  lemma EntriesSplit(loan: Loan)
    requires loan.years >= 1
    ensures var s := Entries(loan);
      TotalInterest(s) + TotalPrincipal(s) == Payment(loan) * (loan.Months() as real)
  {
    var s := Entries(loan);
    var p := Payment(loan);
    assert forall i | 0 <= i < |s| :: s[i].interest + s[i].principal == p by {
      EntriesUpToAt(loan, loan.Months());
    }
    SplitTotals(s, p);
  }

  /** The total cost computed from the constant installment equals the
      accumulated interest and principal plus the insurance over every month
      and the fee. */
  lemma EntriesCost(loan: Loan)
    requires loan.years >= 1
    ensures var s := Entries(loan);
      TotalCost(loan)
        == TotalInterest(s) + TotalPrincipal(s)
           + loan.monthlyInsurance * (loan.Months() as real) + loan.upfrontFee
  {
    var s := Entries(loan);
    EntriesSplit(loan);
    TotalCostSplit(loan, TotalInterest(s) + TotalPrincipal(s));
  }

  /** Whatever adds up to the installments of the term, the total cost is that
      amount plus the insurance over every month and the fee. */
  lemma TotalCostSplit(loan: Loan, paid: real)
    requires loan.years >= 1 && paid == Payment(loan) * (loan.Months() as real)
    ensures TotalCost(loan) == paid + loan.monthlyInsurance * (loan.Months() as real) + loan.upfrontFee
  {
    CostStep(Payment(loan), loan.monthlyInsurance, loan.Months() as real, loan.upfrontFee, paid);
  }

  /** With a non-negative rate the accumulated principal repays exactly the
      financed amount and the interest is the rest of the installments. */
  lemma EntriesRepay(loan: Loan)
    requires loan.years >= 1 && loan.annualRatePercent >= 0.0
    ensures var s := Entries(loan);
      TotalPrincipal(s) == loan.Financed() &&
      TotalInterest(s) == Payment(loan) * (loan.Months() as real) - loan.Financed()
  {
    EntriesSplit(loan);
    InstallmentPaysOff(loan.Financed(), loan.MonthlyRate(), loan.Months());
    EntriesPrincipalSoFar(loan, loan.Months());
  }

  /** With a non-negative rate the last entry's saldo is exactly zero, and for
      a non-negative loan no saldo is negative and none rises. */
  lemma EntriesPayOff(loan: Loan)
    requires loan.years >= 1 && loan.annualRatePercent >= 0.0
    ensures var s := Entries(loan);
      s[|s| - 1].balance == 0.0 &&
      (loan.Financed() >= 0.0 ==>
        (forall i | 0 <= i < |s| :: s[i].balance >= 0.0) &&
        (forall i, j | 0 <= i <= j < |s| :: s[j].balance <= s[i].balance))
  {
    var s := Entries(loan);
    var months: nat := loan.Months();
    var financed, rate := loan.Financed(), loan.MonthlyRate();
    EntriesShape(loan);
    InstallmentPaysOff(financed, rate, months);
    if financed >= 0.0 {
      forall i | 0 <= i < |s| ensures s[i].balance >= 0.0 {
        BalanceNonNegative(financed, rate, months, i + 1);
      }
      forall i, j | 0 <= i <= j < |s| ensures s[j].balance <= s[i].balance {
        BalanceMonotone(financed, rate, months, i + 1, j + 1);
      }
    }
  }

  /** With a zero rate the installment is the straight-line share of the
      loan and no entry pays interest. */
  lemma EntriesZeroRate(loan: Loan)
    requires loan.years >= 1 && loan.annualRatePercent == 0.0
    ensures Payment(loan) * (loan.Months() as real) == loan.Financed()
    ensures var s := Entries(loan);
      forall i | 0 <= i < |s| :: s[i].interest == 0.0 && s[i].principal == Payment(loan)
  {
    var s := Entries(loan);
    EntriesUpToAt(loan, loan.Months());
    forall i | 0 <= i < |s| ensures s[i].interest == 0.0 && s[i].principal == Payment(loan) {
      assert s[i].interest == BalanceAfter(loan, i) * 0.0;
    }
  }
}
