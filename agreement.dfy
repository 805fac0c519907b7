/**
 * The two copies of `calcular_amortizacao` compute the same schedule: the web
 * page's rows and the script's entries carry the same month, installment,
 * interest and principal, the page's balance is the script's clamped at
 * zero, and the page's total paid is the script's total cost.
 */
module Agreement {
  import opened Annuity
  import SimuladorWeb
  import HouseHoldScript

  /** A web row and a script entry describe the same month. */
  predicate SameMonth(row: SimuladorWeb.Row, entry: HouseHoldScript.Entry)
  {
    row.month == entry.month && row.installment == entry.installment &&
    row.interest == entry.interest && row.principal == entry.principal &&
    row.balance == (if entry.balance > 0.0 then entry.balance else 0.0)
  }

  /** Month by month the two copies agree. */
  lemma RowMatchesEntry(loan: Loan, month: nat)
    requires loan.years >= 1 && month >= 1
    ensures SameMonth(SimuladorWeb.RowAt(loan, month), HouseHoldScript.EntryAt(loan, month))
  {
  }

  /** The whole schedules agree, row for entry. */
  lemma SchedulesAgree(loan: Loan)
    requires loan.years >= 1
    ensures var rows, entries := SimuladorWeb.Schedule(loan), HouseHoldScript.Entries(loan);
      |rows| == |entries| &&
      forall i | 0 <= i < |rows| :: SameMonth(rows[i], entries[i])
  {
    var rows, entries := SimuladorWeb.Schedule(loan), HouseHoldScript.Entries(loan);
    SimuladorWeb.ScheduleUpToAt(loan, loan.Months());
    HouseHoldScript.EntriesUpToAt(loan, loan.Months());
    forall i | 0 <= i < |rows| ensures SameMonth(rows[i], entries[i]) {
      RowMatchesEntry(loan, i + 1);
    }
  }

  /** `total_pago` on the page equals `custo_total` in the script. */
  lemma TotalsAgree(loan: Loan)
    requires loan.years >= 1
    ensures SimuladorWeb.TotalPaid(SimuladorWeb.Schedule(loan), loan) == HouseHoldScript.TotalCost(loan)
  {
    SimuladorWeb.ScheduleTotals(loan);
  }
}
