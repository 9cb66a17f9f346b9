# Split spending: share calculator and settlement engine

This is a Dafny model of the computational core of the `SplitManagement` service in
`YoutapApiProxy/Services/SplitService.cs`. It covers three parts:

- **The share calculator** (`CalculateParticipantShares`). It turns a total, a split strategy
  (`Equal`, `Percentage`, `FixedAmount`, `ByShares`) and a list of participants into one share
  record per participant. It is pure, so it is modelled as functions with lemmas
  (`share_calculator.dfy`).
- **The settlement engine** (the body of `SettlementService.CalculateSettlementsAsync`). It has
  three steps:
  - It aggregates every split of a trip into a signed per-member balance: the payer is
    credited with the split amount and every participant is debited with their share
    (`balances.dfy`, methods with loops).
  - It partitions the members into creditors and debtors, both sorted by balance
    (`ranking.dfy`, functions, as LINQ computes them).
  - It runs the greedy nested loop. Each debtor pays the creditors in order
    `min(remaining debt, remaining credit)` and emits a pending settlement each time
    (`matching.dfy`, methods with loops that update the credit map, the remaining debt and the
    settlement list).
- **Settlement completion** (`MarkSettlementCompletedAsync`). An unknown identifier is a
  "Settlement not found" error. Otherwise the settlement becomes `Completed` with
  `SettledAt = now`, whatever its status was before. This is a method of a class that holds the
  settlements table (`settlement_service.dfy`).

Modelling choices:

- Money (C# `decimal`) is `real`.
- Share units (C# `int?`) are `Int32`. Their `Sum` is checked against 32-bit overflow, as .NET
  does it.
- A database `Guid` and a `DateTime` are numbers supplied from outside:
  - the k-th settlement of a calculation gets the identifier `firstId + k`;
  - every settlement of one calculation gets the same time `now`.
- The C# `Dictionary<string, decimal>` of balances is a `map` plus the sequence of its keys in
  insertion order. That is the order in which a dictionary that is only ever added to
  enumerates its entries.
- `OrderBy` and `OrderByDescending` are a stable insertion sort.

The main results:

- The equal and by-shares strategies always reconcile: the shares add up to the total and the
  percentages to 100.
- The percentage and fixed-amount strategies reconcile exactly when the caller's inputs do, and
  nothing checks that.
- The ledger holds every member's net balance, and the balances add up to
  Σ(amount − Σ shares).
- Creditors are exactly the members with a positive balance, non-increasing. Debtors are exactly
  those with a negative balance, non-decreasing.
- Every settlement is positive, pending, and goes from a debtor to a creditor. There is at most
  one settlement per pair, and there are no more settlements than members in the ledger.
- No debtor pays more than they owe and no creditor receives more than they are owed.
- When the credit covers the debt, every debt is cleared, and symmetrically for credits. So when
  every split reconciles, every member ends up even.

## Model

| member | source | states |
|---|---|---|
| ShareCalculator.TotalShares | YoutapApiProxy/Services/SplitService.cs:138 | `Sum(p => p.Shares ?? 0)` over `int`: the unit total when every partial sum stays in the 32-bit range, and an overflow exactly when some prefix sum leaves it |
| ShareCalculator.Select | YoutapApiProxy/Services/SplitService.cs:108-114 | the LINQ `Select`: one record per participant, in input order, each the strategy's formula applied to that participant |
| ShareCalculator.EqualSplit | YoutapApiProxy/Services/SplitService.cs:106-114 | a division-by-zero error exactly when there are no participants; otherwise one unpaid record per participant with its id and name copied |
| ShareCalculator.PercentageSplit | YoutapApiProxy/Services/SplitService.cs:117-124 | never fails; one unpaid record per participant with its id and name copied |
| ShareCalculator.FixedAmountSplit | YoutapApiProxy/Services/SplitService.cs:127-134 | a division-by-zero error exactly when there is a participant and the total is 0; otherwise records copying the members |
| ShareCalculator.BySharesSplit | YoutapApiProxy/Services/SplitService.cs:137-145 | overflow exactly when a prefix of the unit sum leaves the `int` range; division by zero exactly when there is a participant, no overflow and a zero unit total; otherwise records copying the members |
| ShareCalculator.CalculateParticipantShares | YoutapApiProxy/Services/SplitService.cs:100-150 | the request's strategy selects the calculation; a successful result copies the members in order |
| ShareCalculator.NewSplit | YoutapApiProxy/Services/SplitService.cs:36-48 | a split is created exactly when the share calculation succeeds, and a calculation error is passed on; the split carries the request's transaction, trip, strategy, currency, payer and total, and the calculated shares as its participants |
| ShareCalculator.AmountIsPercentOfTotal | YoutapApiProxy/Services/SplitService.cs:122-144 | under the percentage, fixed-amount and by-shares formulas a participant's share amount is their share percentage of the total |
| ShareCalculator.PercentOfWhole | YoutapApiProxy/Services/SplitService.cs:113-144 | a participant whose part lies between 0 and the whole (its percentage, its amount up to the total, its units up to the unit total) gets a share percentage between 0 and 100 |
| ShareCalculator.EqualSplitEntries | YoutapApiProxy/Services/SplitService.cs:107-113 | for N > 0 participants every share is Total/N and every percentage 100/N |
| ShareCalculator.EqualSplitReconciles | YoutapApiProxy/Services/SplitService.cs:106-114 | for N > 0 the shares add up to the total and the percentages to 100 |
| ShareCalculator.PercentageSplitEntries | YoutapApiProxy/Services/SplitService.cs:122-123 | each share is Total × pct / 100 and keeps pct as its percentage, a missing pct counting as 0 |
| ShareCalculator.PercentageSplitScales | YoutapApiProxy/Services/SplitService.cs:117-124 | the percentages add up to the supplied ones and the shares to Total × Σpct / 100; for a non-zero total the shares reconcile exactly when Σpct = 100 |
| ShareCalculator.FixedAmountSplitEntries | YoutapApiProxy/Services/SplitService.cs:132-133 | for a non-zero total each share is the supplied amount (missing = 0) and its percentage amount / Total × 100 |
| ShareCalculator.FixedAmountSplitScales | YoutapApiProxy/Services/SplitService.cs:127-134 | the shares add up to the supplied amounts, and the percentages add up to 100 exactly when the shares add up to the total |
| ShareCalculator.BySharesSplitSelects | YoutapApiProxy/Services/SplitService.cs:138-145 | a successful split of a non-empty list has a non-zero unit total and applies the by-shares formula with it |
| ShareCalculator.BySharesSplitEntries | YoutapApiProxy/Services/SplitService.cs:143-144 | each share is Total × units / totalShares and each percentage units / totalShares × 100 |
| ShareCalculator.BySharesSplitReconciles | YoutapApiProxy/Services/SplitService.cs:137-145 | with a non-zero unit total the shares add up to the total and the percentages to 100 |
| ShareCalculator.NewSplitReconciles | YoutapApiProxy/Services/SplitService.cs:40-48 | a split created with the equal or by-shares strategy for at least one participant owes back exactly its amount |
| Balances.Enrol | YoutapApiProxy/Services/SplitService.cs:209-210 | adding a key keeps the key list duplicate-free and adds exactly that key |
| Balances.Post | YoutapApiProxy/Services/SplitService.cs:209-211 | `ContainsKey`/`+=`: the key list and map still describe one dictionary, the key is enrolled, only the key's balance moves and by `delta`, and the total moves by `delta` |
| Balances.PostSplit | YoutapApiProxy/Services/SplitService.cs:208-219 | one split credits its payer with the amount and debits each participant with their share, enrolling members in first-seen order; the total moves by amount − Σ shares |
| Balances.AggregateBalances | YoutapApiProxy/Services/SplitService.cs:204-220 | every member's balance is their net balance over all splits; the keys are the members in first-seen order; the balances add up to Σ(amount − Σ shares) |
| Balances.RosterMembers | YoutapApiProxy/Services/SplitService.cs:204-220 | the ledger lists every member once, and exactly the members who pay for or take part in a split |
| Balances.NetBalanceUninvolved | YoutapApiProxy/Services/SplitService.cs:206-219 | a member who neither pays nor takes part has balance 0 |
| Balances.ReconciledSplitsNetToZero | YoutapApiProxy/Services/SplitService.cs:204-220 | when every split's shares add up to its amount, the balances add up to 0 |
| Ranking.Filter | YoutapApiProxy/Services/SplitService.cs:224-225 | `Where`: keeps exactly the members with a positive (negative) balance, without duplicates when the ledger has none |
| Ranking.Sort | YoutapApiProxy/Services/SplitService.cs:224-225 | `OrderBy`: the result is a permutation of the input |
| Ranking.SortSpec | YoutapApiProxy/Services/SplitService.cs:224-225 | the sorted list is ordered by balance, keeps the total, and stays duplicate-free |
| Ranking.Creditors | YoutapApiProxy/Services/SplitService.cs:224 | the creditors are exactly the members with balance > 0, each once, in non-increasing balance order |
| Ranking.Debtors | YoutapApiProxy/Services/SplitService.cs:225 | the debtors are exactly the members with balance < 0, each once, in non-decreasing balance order |
| Ranking.PartitionSum | YoutapApiProxy/Services/SplitService.cs:224-225 | members with balance 0 fall in neither list, so the two lists' balances add up to the ledger total |
| Ranking.PartitionLength | YoutapApiProxy/Services/SplitService.cs:224-225 | no member is both creditor and debtor: the two lists together are no longer than the ledger |
| Matching.SkipStep | YoutapApiProxy/Services/SplitService.cs:233 | skipping a creditor once the debt is paid or its credit is gone keeps the inner loop's invariant |
| Matching.EmitStep | YoutapApiProxy/Services/SplitService.cs:235-250 | paying `min(remaining debt, credit)` keeps debt and credit non-negative, keeps money conserved, and drains the creditor or pays the debt off |
| Matching.VisitCreditor | YoutapApiProxy/Services/SplitService.cs:233-250 | one creditor of the inner loop: unchanged state when skipped; otherwise a pending settlement of `min(remaining debt, credit)` with the next identifier, the credit and debt both reduced by it |
| Matching.PayCreditors | YoutapApiProxy/Services/SplitService.cs:229-251 | one debtor: positive pending settlements to distinct creditors with consecutive ids, paying debt − remaining debt; remaining debt and credits never negative; each credit reduced by what it received; debt left only if every creditor is drained |
| Matching.ServeDebtor | YoutapApiProxy/Services/SplitService.cs:227-251 | the debtor's settlements are appended after the earlier ones, all from that debtor, and the outer loop's invariant is kept |
| Matching.MatchDebts | YoutapApiProxy/Services/SplitService.cs:227-252 | settlements only from debtors to creditors, at most one per pair, no more than the debtors and creditors together; nobody pays or receives more than their balance; all debts cleared when the credit covers them, all credits when the debt covers them |
| Matching.DebtsCleared | YoutapApiProxy/Services/SplitService.cs:227-252 | if total credit ≥ total debt, every debtor has paid exactly their debt |
| Matching.CreditsCleared | YoutapApiProxy/Services/SplitService.cs:227-252 | if total debt ≥ total credit, every creditor has received exactly their credit |
| SettlementService.ForTrip | YoutapApiProxy/Services/SplitService.cs:200 | `Where(s => s.TripId == tripId)`: keeps exactly the splits of the trip, each as many times as it is stored, and drops every other split |
| SettlementService.ReconciledTripNetsToZero | YoutapApiProxy/Services/SplitService.cs:198-220 | when every stored split reconciles, the trip's balances add up to 0 |
| SettlementService.Sides | YoutapApiProxy/Services/SplitService.cs:224-225 | a member is a debtor exactly when their net balance is negative, and a creditor exactly when it is positive |
| SettlementService.FlowsBySide | YoutapApiProxy/Services/SplitService.cs:227-252 | members with balance ≥ 0 pay nothing, members with balance ≤ 0 receive nothing, and nobody pays or receives more than their balance |
| SettlementService.ClearingBySide | YoutapApiProxy/Services/SplitService.cs:227-252 | the clearing guarantees restated for every member of the trip |
| SettlementService.PlanSettlements | YoutapApiProxy/Services/SplitService.cs:198-252 | the trip's settlements: consecutive ids, the trip id, currency "USD", pending, created at `now`, positive; from a member who owes to a member who is owed, at most one per pair and no more than there are members; never more than a balance; every member settled when the balances cancel out |
| SettlementService.SettlesClears | YoutapApiProxy/Services/SplitService.cs:227-252 | when the balances cancel out, every member receives minus pays exactly their balance |
| SettlementService.Complete | YoutapApiProxy/Services/SplitService.cs:267-268 | the result is `Completed` with `SettledAt = now`, and every other field is as before |
| SettlementService.CompleteIgnoresStatus | YoutapApiProxy/Services/SplitService.cs:263-268 | the prior status and settlement time make no difference to completion |
| SettlementService.CompleteTwice | YoutapApiProxy/Services/SplitService.cs:267-268 | completing twice is completing once, at the later time |
| SettlementService.TableIds | YoutapApiProxy/Services/SplitService.cs:255 | settlements with consecutive identifiers fill exactly those keys of the table, each with its own record |
| SettlementService.SettlementStore.CalculateSettlements | YoutapApiProxy/Services/SplitService.cs:195-259 | the trip's settlements get fresh identifiers and are added to the table, existing rows unchanged |
| SettlementService.SettlementStore.MarkSettlementCompleted | YoutapApiProxy/Services/SplitService.cs:261-272 | an unknown id gives "Settlement not found" and changes nothing; otherwise that row is completed at `now`, whatever its status, and no other row changes |

## Left out

- Trip validation over HTTP, tag lookup and creation, the repositories, and `SaveChangesAsync`
  are I/O and are not modelled. The stored splits are a parameter, and the settlements table is
  a map in a class.
- Entity Framework's `Include` of participants is not modelled: a split value always carries
  its participants.
- Identifiers and clocks are parameters:
  - `Guid.NewGuid()` becomes `nextId`, counting up;
  - `DateTime.UtcNow` is one `now` per call, whereas the source reads the clock once per
    settlement.
- Numbers are exact rationals. C# `decimal` rounds at 28 significant digits (so
  `100m / 3 * 3 != 100m`), and the database stores amounts at scale 2. Neither rounding is
  modelled, and neither is `decimal` overflow.
- Member names on settlements are left empty, because the source never sets them.
- The currency is the fixed string "USD", as in the source.
- `MatchDebts`: bounds the number of settlements by the number of debtors plus creditors;
  the tighter bound of one fewer is not stated.
- `Ranking.Sort`: the order among members with equal balances is stable but not stated.
- Enumeration values outside the declared members of `SplitType` and `SettlementStatus` are not
  modelled. The source's `switch` would then leave the participant list empty.
- The response mappers `MapToSplitResponse` and `MapToSettlementResponse` are field copies and
  are not modelled.
- The remaining operations are outside this model: `GetSplitByIdAsync`, `GetSplitsByTripIdAsync`,
  `UpdateSplitAsync`, `DeleteSplitAsync`, `MarkParticipantPaidAsync` and
  `GetTripSettlementsAsync`.

Where the specification of this service and its code differ, the model follows the code:

- The code does no rounding and assigns no residual to a participant.
- The code has no tolerance: it compares balances with 0 exactly.
- The code does not validate that percentages or fixed amounts reconcile.
- The code does not reject an empty participant list. `Equal` fails with a division by zero;
  the other strategies return no shares.
- The code does not break ties by member id.
- The code does not refuse to complete a settlement that is not pending.
