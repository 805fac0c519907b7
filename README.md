# HouseHold-Loan amortization engine in Dafny

HouseHold-Loan is a house-loan simulator. Both of its programs contain a copy of `calcular_amortizacao`:

- `simulador_web.py` is a Streamlit page.
- `HouseHoldScript.py` is a console script.

Given the house value, the down payment, the annual rate in percent, the term in years, the monthly insurance and the upfront fee, `calcular_amortizacao` computes:

- the financed amount;
- the term in months;
- the monthly rate;
- the fixed installment, from the annuity formula when the monthly rate is positive and the straight-line share otherwise.

It then walks the months, splitting the installment into interest on the running balance and principal, and records one row per month. On top of the schedule:

- The web page computes total interest, total principal and the total paid, and it groups the rows by year.
- The script accumulates the interest and principal totals inside the loop and computes the total cost from the constant installment.

The project has four modules:

- `annuity.dfy` (`Annuity`): the loan parameters, the installment, the month-by-month balance recurrence and its closed forms. It proves the payoff and monotonicity results that both programs rely on.
- `simulador_web.dfy` (`SimuladorWeb`): the web page's `calcular_amortizacao` as a method with a loop, tied to the reference `Schedule`. It also holds the totals, the year rollup and the lemmas about them.
- `household_script.dfy` (`HouseHoldScript`): the script's `calcular_amortizacao` as a method whose loop keeps the accumulators equal to the sums over the entries built so far. It also holds the lemmas about the entries and the total cost.
- `agreement.dfy` (`Agreement`): the two copies compute the same schedule and the same total.

Money and rates are exact `real`s. The relations the programs meet only up to floating-point rounding are therefore proved as equalities. One consequence is that the positive-rate schedule ends with a balance of exactly zero.

## Model

| member | source | states |
|---|---|---|
| Annuity.Loan.Financed | simulador_web.py:7 | `valor_financiado`: the house value less the down payment |
| Annuity.Loan.Months | simulador_web.py:8 | `meses`: the term in years times 12 |
| Annuity.Pow | simulador_web.py:15 | `x ** n` for a whole exponent, by repeated multiplication; `PowAboveOne` bounds it |
| Annuity.Payment | simulador_web.py:14-17 | `prestacao_base` for a loan: `Installment` of its financed amount, monthly rate and months; what it solves is stated by `Installment` |
| Annuity.Balance | simulador_web.py:19-22 | the running `saldo` after k months of `saldo -= prestacao - saldo * taxa`; its meaning is given by `BalanceClosedForm` and `InstallmentPaysOff` |
| Annuity.Interest | simulador_web.py:20 | `juros_mes`: the running balance times the monthly rate |
| Annuity.Principal | simulador_web.py:21 | `capital_mes`: the installment less that month's interest; `PrincipalClosedForm` gives its growth |
| SimuladorWeb.YearOf | simulador_web.py:25 | the Ano column `(mes - 1) // 12 + 1`; `ScheduleShape` bounds it to 1..prazo_anos and shows it never decreases |
| SimuladorWeb.RowAt | simulador_web.py:20-30 | the row the loop appends for month `mes`, from the running balance of the previous months, with the balance clamped at zero |
| SimuladorWeb.Schedule | simulador_web.py:19-30 | the rows of months 1..meses in order; `Amortize` returns it and `ScheduleShape` describes it |
| SimuladorWeb.TotalInterest | simulador_web.py:49 | `juros_total`, the sum of the Juros column |
| SimuladorWeb.TotalPrincipal | simulador_web.py:50 | `capital_total`, the sum of the Capital column |
| SimuladorWeb.TotalPaid | simulador_web.py:51 | `total_pago`: principal plus interest plus `seguro_mensal * prazo_anos * 12` plus `comissao_inicial`; `ScheduleTotals` gives its closed form |
| SimuladorWeb.GroupByYear | simulador_web.py:64 | the group-by on Ano as a fold over the rows in order; `GroupByYearMeaning` states what it holds |
| SimuladorWeb.WithTotals | simulador_web.py:65 | adds the Total column, one annual row per group; `WithTotalsAt` states each row |
| SimuladorWeb.AnnualSummary | simulador_web.py:64-65 | `resumo_anual`: the grouped sums with their Total column; `ScheduleAnnualSummary` describes it for a schedule |
| HouseHoldScript.EntryAt | HouseHoldScript.py:20-30 | the entry the loop appends for month `mes`, from the running balance of the previous months, with the balance unclamped |
| HouseHoldScript.Entries | HouseHoldScript.py:19-30 | the entries of months 1..meses in order; `Amortize` returns it and `EntriesShape` describes it |
| HouseHoldScript.TotalInterest | HouseHoldScript.py:32 | the sum of the juros of the entries, which the loop accumulates in `juros_total` |
| HouseHoldScript.TotalPrincipal | HouseHoldScript.py:33 | the sum of the capital of the entries, which the loop accumulates in `capital_total` |
| HouseHoldScript.TotalCost | HouseHoldScript.py:35 | `custo_total`: installment plus insurance, times meses, plus the fee; `EntriesCost` relates it to the accumulated totals |
| Annuity.Loan.MonthlyRate | simulador_web.py:9 | the monthly rate is the annual percentage divided by 1200; it is positive or zero exactly when the annual rate is |
| Annuity.PowAboveOne | simulador_web.py:15 | for a positive rate and at least one month, `(1 + r)^meses` exceeds 1, so the annuity formula's divisor is strictly positive |
| Annuity.Installment | simulador_web.py:14-17 | for a positive rate, `p * ((1+r)^n - 1) == F * r * (1+r)^n` with a positive divisor; otherwise `p * n == F`; nothing financed gives a zero installment |
| Annuity.BalanceClosedForm | simulador_web.py:19-22 | after k months the running balance is `F (1+r)^k - p (1 + (1+r) + … + (1+r)^(k-1))` |
| Annuity.ZeroRateBalance | simulador_web.py:20-22 | with a zero rate the balance after k months is `F - k p` |
| Annuity.InstallmentPaysOff | simulador_web.py:14-22 | with a non-negative rate the computed installment leaves a balance of exactly zero after the last month, in both formula branches |
| Annuity.AnnuityPaysOff | simulador_web.py:15 | any payment solving the annuity equation repays the loan exactly |
| Annuity.PrincipalClosedForm | simulador_web.py:20-21 | the principal of month k+1 is `(1+r)^k` times the first month's principal |
| Annuity.FirstPrincipalPositive | simulador_web.py:14-21 | for a positive loan and a non-negative rate the installment exceeds the first month's interest |
| Annuity.BalanceDecreasing | simulador_web.py:20-22 | for a non-negative loan and rate the balance never rises, and it falls strictly every month when the loan is positive |
| Annuity.BalanceMonotone | simulador_web.py:20-22 | for a non-negative loan and rate the balance after j months is at most the balance after k months, for k <= j |
| Annuity.BalanceNonNegative | simulador_web.py:20-22 | for a non-negative loan and rate the running balance is non-negative throughout the term |
| Annuity.ZeroLoanBalance | simulador_web.py:7-22 | nothing financed gives a zero installment and a zero balance every month |
| Annuity.InterestFreeExample | simulador_web.py:17 | 120000 financed at 0% over 10 years gives an installment of exactly 1000 |
| SimuladorWeb.ScheduleUpToAt | simulador_web.py:19-30 | row i of the first k months is the row of month i+1 |
| SimuladorWeb.Amortize | simulador_web.py:6-32 | the loop returns the installment and exactly the reference schedule: one row per month, built from the running balance |
| SimuladorWeb.RowBalance | simulador_web.py:29 | a row's reported balance is the running balance clamped at zero, so it is never negative |
| SimuladorWeb.ScheduleShape | simulador_web.py:8-30 | the schedule has `prazo_anos * 12` rows; their months run 1..meses; each year is `(mes-1)//12+1`, lies in 1..prazo_anos and never decreases; every row has the same installment, split exactly into interest and principal; every balance is non-negative |
| SimuladorWeb.SchedulePrincipalSoFar | simulador_web.py:12-22 | after k months the running balance is the financed amount less the principal of those k rows |
| SimuladorWeb.ScheduleZeroRate | simulador_web.py:17-21 | with a zero annual rate every row pays no interest, and its principal times meses is the financed amount |
| SimuladorWeb.SchedulePaysOff | simulador_web.py:14-30 | with a non-negative rate the principal column adds up to the financed amount |
| SimuladorWeb.ScheduleBalances | simulador_web.py:19-30 | with a non-negative rate and loan the reported balance is the unclamped one, never rises, and the last row reports 0 |
| SimuladorWeb.ScheduleZeroLoan | simulador_web.py:7-30 | nothing financed still gives meses rows, each with zero installment, interest, principal and balance |
| SimuladorWeb.SplitTotals | simulador_web.py:49-50 | when every row splits the same installment p, the interest and principal totals together make p once per row |
| SimuladorWeb.ScheduleSplit | simulador_web.py:49-50 | `juros_total + capital_total` is the installment times meses |
| SimuladorWeb.ScheduleTotals | simulador_web.py:49-51 | `total_pago` is `(prestacao + seguro) * meses + comissao`; with a non-negative rate `juros_total` is `prestacao * meses - financiado` |
| SimuladorWeb.GroupByYearMeaning | simulador_web.py:64 | for rows with non-decreasing years, the groups are exactly the rows' years, in strictly increasing order, each holding the interest and principal of just the rows of its year |
| SimuladorWeb.AddToGroupsOrder | simulador_web.py:64 | adding a row no earlier than the last group keeps the groups strictly ordered and adds the row's year |
| SimuladorWeb.AddToGroupsMeaning | simulador_web.py:64 | adding a row keeps every group equal to the sums over the rows of its year |
| SimuladorWeb.GroupByYearSums | simulador_web.py:64 | the groups together hold all the interest and all the principal of the rows |
| SimuladorWeb.WithTotalsAt | simulador_web.py:65 | each annual row's Total is its interest plus its principal, with year, interest and principal taken from its group |
| SimuladorWeb.WithTotalsSum | simulador_web.py:65 | the Total column adds up to the groups' interest plus principal |
| SimuladorWeb.AnnualSummaryTotals | simulador_web.py:64-65 | the annual Totals add up to `juros_total + capital_total` |
| SimuladorWeb.GroupsByMonth | simulador_web.py:64 | rows numbered by month fall into the years 1..YearOf(last month), one group each, in order |
| SimuladorWeb.ScheduleAnnualSummary | simulador_web.py:64-65 | a schedule's annual summary has one row for each year 1..prazo_anos, holding that year's interest, principal and their sum |
| HouseHoldScript.Amortize | HouseHoldScript.py:3-35 | the loop returns exactly the reference entries and the installment; its accumulators `juros_total`/`capital_total` equal the sums over the returned entries; `custo_total` is the installment plus insurance times meses, plus the fee |
| HouseHoldScript.EntriesUpToAt | HouseHoldScript.py:19-30 | entry i of the first k months is the entry of month i+1 |
| HouseHoldScript.EntriesShape | HouseHoldScript.py:19-30 | the list has `prazo_anos * 12` entries with months 1..meses; every entry carries the installment, split exactly into interest and principal; every saldo is the running balance after that month |
| HouseHoldScript.EntriesPrincipalSoFar | HouseHoldScript.py:17-22 | after k months `saldo` is the financed amount less the capital of the first k entries |
| HouseHoldScript.EntriesBalance | HouseHoldScript.py:17-29 | every entry's saldo is the financed amount less the capital of the entries up to and including it |
| HouseHoldScript.EntriesPrefix | HouseHoldScript.py:19-30 | the first j entries of the first k months are the entries of the first j months |
| HouseHoldScript.SplitTotals | HouseHoldScript.py:32-33 | when every entry splits the same installment p, the accumulated totals together make p once per entry |
| HouseHoldScript.EntriesSplit | HouseHoldScript.py:19-33 | `juros_total + capital_total` is the installment times meses |
| HouseHoldScript.EntriesCost | HouseHoldScript.py:32-35 | `custo_total` equals `juros_total + capital_total + seguro * meses + comissao` |
| HouseHoldScript.EntriesRepay | HouseHoldScript.py:12-33 | with a non-negative rate `capital_total` is the financed amount and `juros_total` is `prestacao * meses - financiado` |
| HouseHoldScript.EntriesPayOff | HouseHoldScript.py:17-29 | with a non-negative rate the last entry's saldo is exactly zero; for a non-negative loan no saldo is negative and none rises |
| HouseHoldScript.EntriesZeroRate | HouseHoldScript.py:14-21 | with a zero rate the installment times meses is the financed amount, every entry's interest is 0 and its capital is the installment |
| Agreement.RowMatchesEntry | HouseHoldScript.py:19-30 | the web row and the script entry of the same month agree on month, installment, interest and principal; the web balance is the script's clamped at zero |
| Agreement.SchedulesAgree | simulador_web.py:19-30 | the web schedule and the script's entries have the same length and agree row for entry |
| Agreement.TotalsAgree | simulador_web.py:51 | the web page's `total_pago` equals the script's `custo_total` |

## Left out

- The Streamlit page, the sliders and inputs, the charts, the Excel export, the console `input()` parsing, and the printed summary. The script's totals, which it prints, are returned as out-parameters of `HouseHoldScript.Amortize`.
- Floating-point arithmetic and the `:,.2f` formatting. Money and rates are exact reals, so the floating-point drift of the final balance, which the web page hides with its clamp, does not arise.
  - One floating-point error path is not modelled. A positive monthly rate below about 1.1e-16 makes `1 + taxa_mensal` round to 1.0, so the annuity divisor is 0.0 and the source raises ZeroDivisionError. In the reals the divisor is positive for every positive rate (`PowAboveOne`).
- A term of zero years or less is excluded by `requires loan.years >= 1`. The page's slider only offers 5 to 40 years.
  - With zero years the source divides by zero in both branches: `financed / meses` divides by 0, and the annuity divisor `(1 + taxa_mensal) ** 0 - 1` is 0.
  - A negative term does not fail in the source. `range(1, meses + 1)` is empty, so the schedule is empty, but an installment is still computed.
- `seguro_mensal` and `comissao_inicial` are passed to `calcular_amortizacao` but do not affect the schedule. They enter only the totals, `TotalPaid` and `TotalCost`.
- `SimuladorWeb.GroupByYear`: the pandas group-by is modelled as a fold that adds a row to the last group when the years match and otherwise opens a new group. This equals grouping by sorted year only when the years never decrease. `GroupByYearMeaning` assumes that, and `ScheduleShape` proves it for every schedule. On unsorted rows the fold would give more groups than pandas does.
- The button handler's own sequencing is not modelled as a method; its computations (`TotalInterest`, `TotalPrincipal`, `TotalPaid`, `AnnualSummary`) are functions over the schedule.
- A financed amount of zero: the code produces `meses` rows of zeros (`ScheduleZeroLoan`), not an empty schedule. The model follows the code.
- A negative rate takes the straight-line branch, as the code's `taxa_mensal > 0` test does. The payoff and monotonicity lemmas assume a non-negative rate, and the non-negativity lemmas assume a non-negative financed amount. The source does not check its inputs.
- No effective-rate (TAEG) computation exists in these two files, so none is modelled.
