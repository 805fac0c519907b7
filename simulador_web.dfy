/**
 * The engine of simulador_web.py: `calcular_amortizacao`, which builds the
 * monthly schedule in a loop, and the figures the page derives from the
 * schedule once it is built: total interest, total principal, total paid and
 * the per-year rollup. The rendering of those figures is not modelled.
 */
module SimuladorWeb {
  import opened Annuity

  /** One schedule row; the columns Mês, Ano, Prestação, Juros, Capital and
      Saldo Devedor. */
  datatype Row = Row(
    month: int,
    year: int,
    installment: real,
    interest: real,
    principal: real,
    balance: real
  )

  /** The Ano column: months 1..12 are year 1, 13..24 year 2, and so on. */
  function YearOf(month: int): int
  {
    (month - 1) / 12 + 1
  }

  /** `df["Juros (€)"].sum()` */
  function TotalInterest(rows: seq<Row>): real
  {
    if rows == [] then 0.0 else TotalInterest(rows[..|rows| - 1]) + rows[|rows| - 1].interest
  }

  /** `df["Capital (€)"].sum()` */
  function TotalPrincipal(rows: seq<Row>): real
  {
    if rows == [] then 0.0 else TotalPrincipal(rows[..|rows| - 1]) + rows[|rows| - 1].principal
  }

  /** Row `month` of the schedule as the loop body builds it from the running
      balance left by the previous months. */
  function RowAt(loan: Loan, month: nat): Row
    requires loan.years >= 1 && month >= 1
  {
    var before := BalanceAfter(loan, month - 1);
    var interest := before * loan.MonthlyRate();
    var principal := Payment(loan) - interest;
    var after := before - principal;
    Row(month, YearOf(month), Payment(loan), interest, principal, if after > 0.0 then after else 0.0)
  }

  /** The rows of months 1..k, in the order the loop appends them. */
  function ScheduleUpTo(loan: Loan, k: nat): (s: seq<Row>)
    requires loan.years >= 1
    ensures |s| == k
  {
    if k == 0 then [] else ScheduleUpTo(loan, k - 1) + [RowAt(loan, k)]
  }

  /** The whole schedule: rows for months 1..meses. */
  function Schedule(loan: Loan): seq<Row>
    requires loan.years >= 1
  {
    ScheduleUpTo(loan, loan.Months())
  }

  /** Row i of the first k months is the row of month i + 1. */
  lemma {:induction false} ScheduleUpToAt(loan: Loan, k: nat)
    requires loan.years >= 1
    ensures forall i | 0 <= i < k :: ScheduleUpTo(loan, k)[i] == RowAt(loan, i + 1)
  {
    if k > 0 {
      ScheduleUpToAt(loan, k - 1);
    }
  }

  /**
   * `calcular_amortizacao`: one row per month 1..meses, each splitting the
   * fixed installment into the interest on the running balance and the
   * principal, and reporting the running balance clamped at zero. What the
   * schedule satisfies is proved about `Schedule` below.
   */
  method Amortize(loan: Loan) returns (rows: seq<Row>, installment: real)
    requires loan.years >= 1
    ensures installment == Payment(loan)
    ensures rows == Schedule(loan)
  {
    var financed := loan.Financed();
    var months: nat := loan.Months();
    var rate := loan.MonthlyRate();
    installment := Installment(financed, rate, months);
    assert installment == Payment(loan);
    rows := [];
    var balance := financed;
    for month := 1 to months + 1
      invariant balance == BalanceAfter(loan, month - 1)
      invariant rows == ScheduleUpTo(loan, month - 1)
    {
      RowAtFromBalance(loan, month, balance);
      var interest := balance * rate;
      var principal := installment - interest;
      balance := balance - principal;
      rows := rows + [Row(month, YearOf(month), installment, interest, principal,
                          if balance > 0.0 then balance else 0.0)];
    }
  }

  /** The loop body's step: from the running balance before month k, the row
      of month k and the running balance after it. */
  lemma RowAtFromBalance(loan: Loan, k: nat, before: real)
    requires loan.years >= 1 && k >= 1 && before == BalanceAfter(loan, k - 1)
    ensures var interest := before * loan.MonthlyRate();
      var principal := Payment(loan) - interest;
      var after := before - principal;
      BalanceAfter(loan, k) == after &&
      RowAt(loan, k) == Row(k, YearOf(k), Payment(loan), interest, principal,
                            if after > 0.0 then after else 0.0)
  {
  }

  /** The row of month k takes its principal off the running balance. */
  lemma RowAtStep(loan: Loan, k: nat)
    requires loan.years >= 1 && k >= 1
    ensures BalanceAfter(loan, k) == BalanceAfter(loan, k - 1) - RowAt(loan, k).principal
  {
  }

  /** Every row's reported balance is the running balance after that month,
      clamped at zero. */
  lemma RowBalance(loan: Loan, month: nat)
    requires loan.years >= 1 && month >= 1
    ensures RowAt(loan, month).balance
         == (if BalanceAfter(loan, month) > 0.0 then BalanceAfter(loan, month) else 0.0)
    ensures RowAt(loan, month).balance >= 0.0
  {
    RowAtFromBalance(loan, month, BalanceAfter(loan, month - 1));
  }

  /**
   * The shape of the schedule: meses rows numbered 1..meses, the year derived
   * from the month, within 1..prazo_anos and never decreasing, the same
   * installment in every row, split exactly into interest and principal.
   */
  lemma ScheduleShape(loan: Loan)
    requires loan.years >= 1
    ensures var s := Schedule(loan);
      |s| == loan.Months() &&
      (forall i | 0 <= i < |s| :: s[i].month == i + 1 && s[i].year == YearOf(s[i].month)) &&
      (forall i | 0 <= i < |s| :: 1 <= s[i].year <= loan.years) &&
      (forall i, j | 0 <= i <= j < |s| :: s[i].year <= s[j].year) &&
      (forall i | 0 <= i < |s| ::
         s[i].installment == Payment(loan) && s[i].interest + s[i].principal == Payment(loan)) &&
      (forall i | 0 <= i < |s| :: s[i].balance >= 0.0)
  {
    var s := Schedule(loan);
    ScheduleUpToAt(loan, loan.Months());
    forall i, j | 0 <= i <= j < |s| ensures s[i].year <= s[j].year {
      YearOfMonotone(i + 1, j + 1);
    }
    forall i | 0 <= i < |s| ensures 1 <= s[i].year <= loan.years {
      YearOfBounds(i + 1, loan.years);
    }
  }

  /** After k months the running balance is the financed amount less the
      principal of the rows of those k months. */
  lemma {:induction false} SchedulePrincipalSoFar(loan: Loan, k: nat)
    requires loan.years >= 1
    ensures TotalPrincipal(ScheduleUpTo(loan, k)) == loan.Financed() - BalanceAfter(loan, k)
  {
    if k > 0 {
      SchedulePrincipalSoFar(loan, k - 1);
      var prefix := ScheduleUpTo(loan, k - 1);
      var row := RowAt(loan, k);
      assert (prefix + [row])[..k - 1] == prefix;
      assert TotalPrincipal(prefix + [row]) == TotalPrincipal(prefix) + row.principal;
      RowAtStep(loan, k);
    }
  }

  /** With a zero rate every row pays no interest and the same straight-line
      share of the loan. */
  lemma ScheduleZeroRate(loan: Loan)
    requires loan.years >= 1 && loan.annualRatePercent == 0.0
    ensures var s := Schedule(loan);
      forall i | 0 <= i < |s| ::
        s[i].interest == 0.0 && s[i].principal * (loan.Months() as real) == loan.Financed()
  {
    var s := Schedule(loan);
    ScheduleUpToAt(loan, loan.Months());
    forall i | 0 <= i < |s|
      ensures s[i].interest == 0.0 && s[i].principal * (loan.Months() as real) == loan.Financed()
    {
      assert s[i].interest == BalanceAfter(loan, i) * 0.0;
    }
  }

  /** With a non-negative rate the principal column of the schedule adds up
      to exactly the financed amount. */
  lemma SchedulePaysOff(loan: Loan)
    requires loan.years >= 1 && loan.annualRatePercent >= 0.0
    ensures TotalPrincipal(Schedule(loan)) == loan.Financed()
  {
    InstallmentPaysOff(loan.Financed(), loan.MonthlyRate(), loan.Months());
    SchedulePrincipalSoFar(loan, loan.Months());
  }

  /**
   * With a non-negative rate and a non-negative financed amount the reported
   * balance is the unclamped running balance, never rises and ends at zero.
   */
  lemma ScheduleBalances(loan: Loan)
    requires loan.years >= 1 && loan.annualRatePercent >= 0.0 && loan.Financed() >= 0.0
    ensures var s := Schedule(loan);
      (forall i | 0 <= i < |s| :: s[i].balance == BalanceAfter(loan, i + 1)) &&
      (forall i, j | 0 <= i <= j < |s| :: s[j].balance <= s[i].balance) &&
      s[|s| - 1].balance == 0.0
  {
    var s := Schedule(loan);
    var months: nat := loan.Months();
    var financed, rate := loan.Financed(), loan.MonthlyRate();
    InstallmentPaysOff(financed, rate, months);
    ScheduleUpToAt(loan, months);
    forall i | 0 <= i < |s| ensures s[i].balance == BalanceAfter(loan, i + 1) {
      RowBalance(loan, i + 1);
      BalanceNonNegative(financed, rate, months, i + 1);
    }
    forall i, j | 0 <= i <= j < |s| ensures s[j].balance <= s[i].balance {
      BalanceMonotone(financed, rate, months, i + 1, j + 1);
    }
  }

  /** Nothing financed: the schedule still has meses rows, all of them zero. */
  lemma ScheduleZeroLoan(loan: Loan)
    requires loan.years >= 1 && loan.Financed() == 0.0
    ensures Payment(loan) == 0.0
    ensures var s := Schedule(loan);
      |s| == loan.Months() &&
      forall i | 0 <= i < |s| ::
        s[i].installment == 0.0 && s[i].interest == 0.0 && s[i].principal == 0.0 && s[i].balance == 0.0
  {
    var s := Schedule(loan);
    ScheduleUpToAt(loan, loan.Months());
    forall i | 0 <= i < |s|
      ensures s[i].installment == 0.0 && s[i].interest == 0.0 && s[i].principal == 0.0 && s[i].balance == 0.0
    {
      ZeroLoanBalance(loan.MonthlyRate(), loan.Months(), i);
      ZeroLoanBalance(loan.MonthlyRate(), loan.Months(), i + 1);
      RowBalance(loan, i + 1);
    }
  }

  /** `total_pago`: principal and interest of the schedule, the insurance of
      every month of the term and the upfront fee. */
  function TotalPaid(rows: seq<Row>, loan: Loan): real
  {
    TotalPrincipal(rows) + TotalInterest(rows)
      + loan.monthlyInsurance * (loan.years as real) * 12.0 + loan.upfrontFee
  }

  /** When every row splits the same installment p, interest and principal
      together add up to p once per row. */
  lemma {:induction false} SplitTotals(rows: seq<Row>, p: real)
    requires forall i | 0 <= i < |rows| :: rows[i].interest + rows[i].principal == p
    ensures TotalInterest(rows) + TotalPrincipal(rows) == p * (|rows| as real)
  {
    if rows != [] {
      var prefix := rows[..|rows| - 1];
      SplitTotals(prefix, p);
      CountStep(|prefix| as real, p);
    }
  }

  /** The schedule's interest and principal add up to the installment once
      per month. */
  lemma ScheduleSplit(loan: Loan)
    requires loan.years >= 1
    ensures var s := Schedule(loan);
      TotalInterest(s) + TotalPrincipal(s) == Payment(loan) * (loan.Months() as real)
  {
    var s := Schedule(loan);
    var p := Payment(loan);
    assert forall i | 0 <= i < |s| :: s[i].interest + s[i].principal == p by {
      ScheduleUpToAt(loan, loan.Months());
    }
    SplitTotals(s, p);
  }

  /** The insurance term of the total paid is the monthly insurance over
      every month of the term. */
  lemma TotalPaidSplit(rows: seq<Row>, loan: Loan)
    ensures TotalPaid(rows, loan)
         == TotalInterest(rows) + TotalPrincipal(rows)
            + loan.monthlyInsurance * (loan.Months() as real) + loan.upfrontFee
  {
    InsuranceStep(loan.monthlyInsurance, loan.years);
  }

  /** The schedule's total paid is the installment plus insurance over every
      month, plus the fee; for a non-negative rate its interest is what the
      installments pay beyond the financed amount. */
  lemma ScheduleTotals(loan: Loan)
    requires loan.years >= 1
    ensures var s := Schedule(loan);
      TotalPaid(s, loan)
        == (Payment(loan) + loan.monthlyInsurance) * (loan.Months() as real) + loan.upfrontFee &&
      (loan.annualRatePercent >= 0.0 ==>
        TotalInterest(s) == Payment(loan) * (loan.Months() as real) - loan.Financed())
  {
    var s := Schedule(loan);
    ScheduleSplit(loan);
    TotalPaidSplit(s, loan);
    CostStep(Payment(loan), loan.monthlyInsurance, loan.Months() as real, loan.upfrontFee,
             TotalInterest(s) + TotalPrincipal(s));
    if loan.annualRatePercent >= 0.0 {
      SchedulePaysOff(loan);
    }
  }

  /** Sums of the Juros and Capital columns over the rows of one year. */
  datatype YearSums = YearSums(year: int, interest: real, principal: real)

  /** One row of `resumo_anual`: the columns Ano, Juros, Capital and Total. */
  datatype YearTotal = YearTotal(year: int, interest: real, principal: real, total: real)

  /** Adds one row to the groups built so far: into the last group when it is
      of the row's year, otherwise as a new group. */
  function AddToGroups(groups: seq<YearSums>, row: Row): seq<YearSums>
  {
    if groups != [] && groups[|groups| - 1].year == row.year then
      var last := groups[|groups| - 1];
      groups[..|groups| - 1]
        + [YearSums(last.year, last.interest + row.interest, last.principal + row.principal)]
    else
      groups + [YearSums(row.year, row.interest, row.principal)]
  }

  /** `df.groupby("Ano")[["Juros (€)", "Capital (€)"]].sum()`, for rows whose
      years never decrease, as a fold over the rows in order. */
  function GroupByYear(rows: seq<Row>): seq<YearSums>
  {
    if rows == [] then [] else AddToGroups(GroupByYear(rows[..|rows| - 1]), rows[|rows| - 1])
  }

  /** The Total column: interest plus principal of each year. */
  function WithTotals(groups: seq<YearSums>): (t: seq<YearTotal>)
    ensures |t| == |groups|
  {
    if groups == [] then []
    else
      var g := groups[|groups| - 1];
      WithTotals(groups[..|groups| - 1]) + [YearTotal(g.year, g.interest, g.principal, g.interest + g.principal)]
  }

  /** `resumo_anual` */
  function AnnualSummary(rows: seq<Row>): seq<YearTotal>
  {
    WithTotals(GroupByYear(rows))
  }

  /** The years of the rows never decrease. */
  predicate YearsNonDecreasing(rows: seq<Row>)
  {
    forall i, j | 0 <= i <= j < |rows| :: rows[i].year <= rows[j].year
  }

  /** Interest of the rows of year y. */
  function YearInterest(rows: seq<Row>, y: int): real
  {
    if rows == [] then 0.0
    else YearInterest(rows[..|rows| - 1], y) + (if rows[|rows| - 1].year == y then rows[|rows| - 1].interest else 0.0)
  }

  /** Principal of the rows of year y. */
  function YearPrincipal(rows: seq<Row>, y: int): real
  {
    if rows == [] then 0.0
    else YearPrincipal(rows[..|rows| - 1], y) + (if rows[|rows| - 1].year == y then rows[|rows| - 1].principal else 0.0)
  }

  /** The years occurring in the rows. */
  function RowYears(rows: seq<Row>): set<int>
  {
    if rows == [] then {} else RowYears(rows[..|rows| - 1]) + {rows[|rows| - 1].year}
  }

  /** The years of the groups. */
  function GroupYears(groups: seq<YearSums>): set<int>
  {
    if groups == [] then {} else GroupYears(groups[..|groups| - 1]) + {groups[|groups| - 1].year}
  }

  /** Interest of all groups. */
  function GroupsInterest(groups: seq<YearSums>): real
  {
    if groups == [] then 0.0 else GroupsInterest(groups[..|groups| - 1]) + groups[|groups| - 1].interest
  }

  /** Principal of all groups. */
  function GroupsPrincipal(groups: seq<YearSums>): real
  {
    if groups == [] then 0.0 else GroupsPrincipal(groups[..|groups| - 1]) + groups[|groups| - 1].principal
  }

  /** Total column of the whole annual summary. */
  function SumOfTotals(summary: seq<YearTotal>): real
  {
    if summary == [] then 0.0 else SumOfTotals(summary[..|summary| - 1]) + summary[|summary| - 1].total
  }

  /**
   * What the group-by means, for rows whose years never decrease: one group
   * per year occurring in the rows, in strictly increasing year order, each
   * holding the interest and principal of exactly the rows of its year.
   */
  lemma {:induction false} GroupByYearMeaning(rows: seq<Row>)
    requires YearsNonDecreasing(rows)
    ensures var g := GroupByYear(rows);
      GroupYears(g) == RowYears(rows) &&
      StrictlyIncreasing(g) &&
      (forall k | 0 <= k < |g| ::
         g[k].interest == YearInterest(rows, g[k].year) &&
         g[k].principal == YearPrincipal(rows, g[k].year))
  {
    if rows != [] {
      var prefix, row := rows[..|rows| - 1], rows[|rows| - 1];
      assert rows == prefix + [row];
      assert YearsNonDecreasing(prefix) by {
        forall i, j | 0 <= i <= j < |prefix| ensures prefix[i].year <= prefix[j].year {
          assert prefix[i] == rows[i] && prefix[j] == rows[j];
        }
      }
      GroupByYearMeaning(prefix);
      var h := GroupByYear(prefix);
      if prefix != [] {
        GroupsEndWithLastYear(prefix);
        assert prefix[|prefix| - 1] == rows[|rows| - 2];
      }
      AddToGroupsOrder(h, row);
      AddToGroupsMeaning(h, prefix, row);
    }
  }

  /** Groups in strictly increasing year order. */
  predicate StrictlyIncreasing(groups: seq<YearSums>)
  {
    forall k, l | 0 <= k < l < |groups| :: groups[k].year < groups[l].year
  }

  /** A row of a year no earlier than the last group's keeps the groups in
      strictly increasing order, adds its year and becomes the last. */
  lemma AddToGroupsOrder(groups: seq<YearSums>, row: Row)
    requires StrictlyIncreasing(groups)
    requires groups != [] ==> groups[|groups| - 1].year <= row.year
    ensures var g := AddToGroups(groups, row);
      StrictlyIncreasing(g) && GroupYears(g) == GroupYears(groups) + {row.year} &&
      g != [] && g[|g| - 1].year == row.year
  {
    var g := AddToGroups(groups, row);
    if groups != [] && groups[|groups| - 1].year == row.year {
      var n := |groups| - 1;
      assert g[..n] == groups[..n];
      assert groups[..n] + [groups[n]] == groups;
    } else {
      assert g[..|groups|] == groups;
    }
  }

  /** Adding the next row keeps every group equal to the sums of the rows of
      its year. */
  lemma AddToGroupsMeaning(groups: seq<YearSums>, rows: seq<Row>, row: Row)
    requires StrictlyIncreasing(groups) && GroupYears(groups) == RowYears(rows)
    requires groups != [] ==> groups[|groups| - 1].year <= row.year
    requires forall k | 0 <= k < |groups| ::
      groups[k].interest == YearInterest(rows, groups[k].year) &&
      groups[k].principal == YearPrincipal(rows, groups[k].year)
    ensures var g := AddToGroups(groups, row);
      forall k | 0 <= k < |g| ::
        g[k].interest == YearInterest(rows + [row], g[k].year) &&
        g[k].principal == YearPrincipal(rows + [row], g[k].year)
  {
    var all := rows + [row];
    assert all[..|all| - 1] == rows;
    if !(groups != [] && groups[|groups| - 1].year == row.year) {
      forall k | 0 <= k < |groups| ensures groups[k].year < row.year {
        if k < |groups| - 1 {
          assert groups[k].year < groups[|groups| - 1].year;
        }
      }
      GroupYearsBelow(groups, row.year);
      YearAbsent(rows, row.year);
    } else {
      forall k | 0 <= k < |groups| - 1 ensures groups[k].year != row.year {
        assert groups[k].year < groups[|groups| - 1].year;
      }
    }
  }

  /** The last group is the year of the last row. */
  lemma GroupsEndWithLastYear(rows: seq<Row>)
    requires rows != []
    ensures var g := GroupByYear(rows);
      g != [] && g[|g| - 1].year == rows[|rows| - 1].year
  {
  }

  /** A year above every group's year is not among the groups' years. */
  lemma {:induction false} GroupYearsBelow(groups: seq<YearSums>, y: int)
    requires forall k | 0 <= k < |groups| :: groups[k].year < y
    ensures y !in GroupYears(groups)
  {
    if groups != [] {
      GroupYearsBelow(groups[..|groups| - 1], y);
    }
  }

  /** A year that occurs in no row sums to zero. */
  lemma {:induction false} YearAbsent(rows: seq<Row>, y: int)
    requires y !in RowYears(rows)
    ensures YearInterest(rows, y) == 0.0 && YearPrincipal(rows, y) == 0.0
  {
    if rows != [] {
      YearAbsent(rows[..|rows| - 1], y);
    }
  }

  /** The Total column of the annual summary is each year's interest plus
      principal, year by year. */
  lemma {:induction false} WithTotalsAt(groups: seq<YearSums>)
    ensures var t := WithTotals(groups);
      forall k | 0 <= k < |t| ::
        t[k] == YearTotal(groups[k].year, groups[k].interest, groups[k].principal,
                          groups[k].interest + groups[k].principal)
  {
    if groups != [] {
      WithTotalsAt(groups[..|groups| - 1]);
    }
  }

  /** Adding a row to the groups adds its interest and principal to the sums
      over all groups. */
  lemma AddToGroupsSums(groups: seq<YearSums>, row: Row)
    ensures GroupsInterest(AddToGroups(groups, row)) == GroupsInterest(groups) + row.interest
    ensures GroupsPrincipal(AddToGroups(groups, row)) == GroupsPrincipal(groups) + row.principal
  {
    var g := AddToGroups(groups, row);
    if groups != [] && groups[|groups| - 1].year == row.year {
      assert g[..|g| - 1] == groups[..|groups| - 1];
    } else {
      assert g[..|g| - 1] == groups;
    }
  }

  /** Grouping loses and adds nothing: the groups hold all the interest and
      all the principal of the rows. */
  lemma {:induction false} GroupByYearSums(rows: seq<Row>)
    ensures GroupsInterest(GroupByYear(rows)) == TotalInterest(rows)
    ensures GroupsPrincipal(GroupByYear(rows)) == TotalPrincipal(rows)
  {
    if rows != [] {
      GroupByYearSums(rows[..|rows| - 1]);
      AddToGroupsSums(GroupByYear(rows[..|rows| - 1]), rows[|rows| - 1]);
    }
  }

  /** The Total column adds up to the interest and principal of all groups. */
  lemma {:induction false} WithTotalsSum(groups: seq<YearSums>)
    ensures SumOfTotals(WithTotals(groups)) == GroupsInterest(groups) + GroupsPrincipal(groups)
  {
    if groups != [] {
      var prefix := groups[..|groups| - 1];
      WithTotalsSum(prefix);
      var t := WithTotals(groups);
      assert t[..|t| - 1] == WithTotals(prefix);
    }
  }

  /** The annual summary's totals add up to the schedule's interest plus
      principal. */
  lemma AnnualSummaryTotals(rows: seq<Row>)
    ensures SumOfTotals(AnnualSummary(rows)) == TotalInterest(rows) + TotalPrincipal(rows)
  {
    GroupByYearSums(rows);
    WithTotalsSum(GroupByYear(rows));
  }

  /** Rows whose Ano is derived from their position as month number. */
  predicate YearsByMonth(rows: seq<Row>)
  {
    forall i | 0 <= i < |rows| :: rows[i].year == YearOf(i + 1)
  }

  /** The first m months fall into the years 1..YearOf(m), one group each,
      in order. */
  lemma {:induction false} GroupsByMonth(rows: seq<Row>)
    requires YearsByMonth(rows)
    ensures var g := GroupByYear(rows);
      |g| == (if rows == [] then 0 else YearOf(|rows|)) &&
      forall k | 0 <= k < |g| :: g[k].year == k + 1
  {
    if rows != [] {
      var m := |rows|;
      var prefix, row := rows[..m - 1], rows[m - 1];
      assert YearsByMonth(prefix) by {
        forall i | 0 <= i < |prefix| ensures prefix[i].year == YearOf(i + 1) {
          assert prefix[i] == rows[i];
        }
      }
      GroupsByMonth(prefix);
      var h := GroupByYear(prefix);
      var g := AddToGroups(h, row);
      assert row.year == YearOf(m);
      if m == 1 {
        YearOfFirst();
      } else {
        YearStep(m);
        if h[|h| - 1].year == row.year {
          assert g[..|h| - 1] == h[..|h| - 1];
        } else {
          assert g[..|h|] == h;
        }
      }
    }
  }

  lemma YearOfFirst()
    ensures YearOf(1) == 1
  {
  }

  /** From one month to the next the year stays or advances by one. */
  lemma YearStep(m: int)
    requires m >= 2
    ensures YearOf(m) == YearOf(m - 1) || YearOf(m) == YearOf(m - 1) + 1
  {
  }

  /** The last month of the term is in the last year. */
  lemma YearOfLast(years: int)
    requires years >= 1
    ensures YearOf(years * 12) == years
  {
  }

  /**
   * The annual summary of a schedule has one row per year of the term, years
   * 1..prazo_anos in order, each with the interest and principal of that
   * year's months and their sum as its total.
   */
  lemma ScheduleAnnualSummary(loan: Loan)
    requires loan.years >= 1
    ensures var s := Schedule(loan);
      var a := AnnualSummary(s);
      |a| == loan.years &&
      forall k | 0 <= k < |a| ::
        a[k].year == k + 1 &&
        a[k].interest == YearInterest(s, k + 1) &&
        a[k].principal == YearPrincipal(s, k + 1) &&
        a[k].total == a[k].interest + a[k].principal
  {
    var s := Schedule(loan);
    ScheduleShape(loan);
    assert YearsByMonth(s);
    GroupsByMonth(s);
    YearOfLast(loan.years);
    GroupByYearMeaning(s);
    WithTotalsAt(GroupByYear(s));
  }

  lemma InsuranceStep(insurance: real, years: int)
    ensures insurance * (years as real) * 12.0 == insurance * ((years * 12) as real)
  {
  }

  lemma YearOfMonotone(m1: int, m2: int)
    requires 1 <= m1 <= m2
    ensures YearOf(m1) <= YearOf(m2)
  {
  }

  lemma YearOfBounds(month: int, years: int)
    requires 1 <= month <= years * 12
    ensures 1 <= YearOf(month) <= years
  {
  }
}
