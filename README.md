# money-dispatcher: the debt-netting engine

This project models the debt-netting engine of `MoneyServiceImpl` in
money-dispatcher, a service that records who owes whom. The engine works
on `BalanceRelationship` edges: "payer owes receiver value". When one user
pays another, `addMoney` makes the amount non-negative by swapping the two
sides when it is negative. `updateBalance` then rewrites the edges in three
stages:

1. `reduceDebt` settles directly between payer and payee.
2. Whatever is left is rerouted through the payer's creditors. Creditors the
   payee also owes come first, and `reduceDebt(payee, creditor, …)` settles
   with them. The other creditors follow, and `transferDebt` moves the
   payer's debt to them onto the payee. Each group is taken in ascending
   order of amount.
3. Whatever is still left becomes a new edge: the payee now owes the payer.

`getBalance` lists a user's edges with signs.

Modules:

- `Graph` (graph.dfy) holds the edge store: the sequence of relationships
  the repository persists. Each edge has an identity. A user's `toPay` and
  `toReturn` lists are views of this store. The module also defines the
  store's invariants and the per-user totals and net balance.
- `Creditors` (creditors.dfy) holds the stable `sortedBy { it.value }` and
  the `groupBy` split into shared and unshared creditors.
- `Settlement` (settlement.dfy) is the specification. It gives `reduceDebt`,
  `transferDebt` and `updateBalance` as functions from the old store to the
  new store plus the amount still to be settled, and proves the properties
  of each branch.
- `Ledger` (ledger.dfy) holds the sign normalisation of `addMoney` and the
  `getBalance` list.
- `Service` (service.dfy) is the class `MoneyService`. Its methods change
  the store step by step, as the Kotlin code does: in-place amount updates,
  deletions, new edges, and the two `forEach` loops with their early
  returns. Each method is proved to give exactly the store the `Settlement`
  functions specify.
- `Scenarios` (scenarios.dfy) holds concrete runs: a new debt, partial
  and full repayment, overpayment and rerouting, plus runs that show what
  the engine does not keep.

What the engine keeps and what it does not:

- Every payment keeps amounts positive and relationship identities
  distinct (`Settlement.UpdateBalanceKeepsConsistent`, `MoneyService.Valid`).
- One payment from a minimal store (positive amounts, no self debt, at most
  one edge per ordered pair, nobody owing both ways) keeps amounts
  positive, no self debt and one edge per pair
  (`Settlement.UpdateBalanceKeepsWellFormed`). It does not keep the
  one-direction rule: `transferDebt` never checks whether the creditor
  already owes the new debtor (`Scenarios.TransferMakesMutualDebt`). A
  second payment can then leave two edges for the same pair
  (`Scenarios.MutualDebtThenDuplicatePair`).
- Net balances move by exactly the amount paid, on the payer and the payee
  only, when the two share no creditor (`Settlement.UpdateBalanceMovesNet`).
  In the shared-creditor branch (line 53) the payee's debt to a creditor
  shrinks while the payer's own debt to that creditor stays the same:
  `Scenarios.SharedCreditorLosesBalance` shows a payment of 3 that leaves
  the payer's balance unchanged and cuts what the creditor is owed by 3.
- The code does not reject self-payment, so `from != to` is a
  precondition here.

## Model

| member | source | states |
|---|---|---|
| Ledger.Normalize | src/main/kotlin/pl/org/pablo/slack/money/money/MoneyServiceImpl.kt:26-30 | the amount handed on is never negative; a negative amount swaps payer and payee and is negated; a non-negative payment is left as it is |
| Ledger.NormalizeIdempotent | src/main/kotlin/pl/org/pablo/slack/money/money/MoneyServiceImpl.kt:26-30 | normalising a normalised payment changes nothing |
| Ledger.NormalizeReverse | src/main/kotlin/pl/org/pablo/slack/money/money/MoneyServiceImpl.kt:26-30 | paying -v from a to b is the same event as paying v from b to a |
| Service.MoneyService.AddMoney | src/main/kotlin/pl/org/pablo/slack/money/money/MoneyServiceImpl.kt:22-34 | the store afterwards is what updateBalance makes of the normalised payment, and the store invariant holds |
| Graph.Find | src/main/kotlin/pl/org/pablo/slack/money/money/MoneyServiceImpl.kt:82 | the search finds an edge of the exact (debtor, creditor) pair, and finds nothing exactly when no such edge is stored |
| Graph.FindIsFirst | src/main/kotlin/pl/org/pablo/slack/money/money/MoneyServiceImpl.kt:98 | `find` returns the first matching edge: no earlier edge has the pair |
| Graph.FirstTo | src/main/kotlin/pl/org/pablo/slack/money/money/MoneyServiceImpl.kt:82 | `toPay.find { it.receiver.id == to.id }` returns a listed edge whose creditor is the one sought, and nothing exactly when no listed edge has that creditor |
| Graph.FirstFrom | src/main/kotlin/pl/org/pablo/slack/money/money/MoneyServiceImpl.kt:98 | `toReturn.find { it.payer.id == to.id }` returns a listed edge whose debtor is the one sought, and nothing exactly when no listed edge has that debtor |
| Graph.FindInToPay | src/main/kotlin/pl/org/pablo/slack/money/money/MoneyServiceImpl.kt:82 | searching the payer's toPay list for the creditor finds the same edge as the search over the store, and nothing when that finds nothing |
| Graph.FindInToReturn | src/main/kotlin/pl/org/pablo/slack/money/money/MoneyServiceImpl.kt:98 | searching the payer's toReturn list for the other side as debtor finds the same edge as the search over the store for the reverse pair |
| Graph.ToPayExact | src/main/kotlin/pl/org/pablo/slack/money/money/MoneyServiceImpl.kt:49 | a user's toPay list holds exactly the stored edges whose debtor is that user, each as many times as it is stored |
| Graph.ToReturnExact | src/main/kotlin/pl/org/pablo/slack/money/money/MoneyServiceImpl.kt:98 | a user's toReturn list holds exactly the stored edges whose creditor is that user |
| Settlement.ReduceDebt | src/main/kotlin/pl/org/pablo/slack/money/money/MoneyServiceImpl.kt:80-108 | for a non-negative payment, the returned remainder is at least 0 and, on positive amounts, at most the payment |
| Settlement.ReduceDebtShrinks | src/main/kotlin/pl/org/pablo/slack/money/money/MoneyServiceImpl.kt:84-88 | when from owes to more than v, that edge drops by exactly v, the result is 0, and every other edge stays as it was |
| Settlement.ReduceDebtPaysOff | src/main/kotlin/pl/org/pablo/slack/money/money/MoneyServiceImpl.kt:89-94 | when from owes to at most v, that edge leaves the store and both users' lists, the result is v minus its amount, and with one edge per pair no debt of from to to is left |
| Settlement.ReduceDebtGrows | src/main/kotlin/pl/org/pablo/slack/money/money/MoneyServiceImpl.kt:98-103 | when from owes to nothing but to owes from, that debt grows by v, the result is 0, and every other edge stays as it was |
| Settlement.ReduceDebtUnrelated | src/main/kotlin/pl/org/pablo/slack/money/money/MoneyServiceImpl.kt:106-107 | with no edge either way, the store is unchanged and all of v comes back |
| Settlement.ReduceDebtFootprint | src/main/kotlin/pl/org/pablo/slack/money/money/MoneyServiceImpl.kt:80-108 | reduceDebt creates no pair and no identity; it keeps identities distinct |
| Settlement.ReduceDebtMovesNet | src/main/kotlin/pl/org/pablo/slack/money/money/MoneyServiceImpl.kt:80-108 | the absorbed part of v raises from's net balance and lowers to's by exactly that amount; everybody else's balance is unchanged |
| Settlement.ReduceDebtKeepsConsistent | src/main/kotlin/pl/org/pablo/slack/money/money/MoneyServiceImpl.kt:80-108 | for a non-negative payment, amounts stay positive and identities distinct: no zero edge is left behind |
| Settlement.ReduceDebtKeepsWellFormed | src/main/kotlin/pl/org/pablo/slack/money/money/MoneyServiceImpl.kt:80-108 | a store with one edge per pair and no self debt keeps both properties |
| Settlement.ReduceDebtClears | src/main/kotlin/pl/org/pablo/slack/money/money/MoneyServiceImpl.kt:89-94 | in a minimal store, a payment that is not used up leaves no edge between the two either way |
| Settlement.ReduceDebtKeepsLive | src/main/kotlin/pl/org/pablo/slack/money/money/MoneyServiceImpl.kt:80-108 | edges whose debtor is not the paying side keep their identity and their two participants |
| Service.MoneyService.ReduceDebt | src/main/kotlin/pl/org/pablo/slack/money/money/MoneyServiceImpl.kt:80-108 | the in-place update gives exactly the store and remainder of Settlement.ReduceDebt and keeps the invariant |
| Settlement.TransferDebt | src/main/kotlin/pl/org/pablo/slack/money/money/MoneyServiceImpl.kt:117-133 | the remainder returned is max(0, r - old.value), with old read at its current amount |
| Settlement.TransferDebtMoves | src/main/kotlin/pl/org/pablo/slack/money/money/MoneyServiceImpl.kt:118-131 | the newest edge is a fresh debt of the new debtor to old's creditor for the moved part (old.value if r >= old.value, else r); old is deleted in the first case and shrunk by r in the second |
| Settlement.TransferDebtKeepsOthers | src/main/kotlin/pl/org/pablo/slack/money/money/MoneyServiceImpl.kt:117-133 | every other relationship survives unchanged |
| Settlement.TransferDebtKeepsCreditorTotal | src/main/kotlin/pl/org/pablo/slack/money/money/MoneyServiceImpl.kt:117-133 | the total owed to old's creditor does not change |
| Settlement.TransferDebtMovesNet | src/main/kotlin/pl/org/pablo/slack/money/money/MoneyServiceImpl.kt:117-133 | the moved amount comes off the new debtor's net balance and onto the old debtor's; nobody else's balance changes |
| Settlement.TransferDebtKeepsConsistent | src/main/kotlin/pl/org/pablo/slack/money/money/MoneyServiceImpl.kt:117-133 | for a positive remainder, amounts stay positive and identities distinct |
| Settlement.TransferDebtFootprint | src/main/kotlin/pl/org/pablo/slack/money/money/MoneyServiceImpl.kt:117-133 | only old's identity may disappear, and the only pair that may be added is (new debtor, old's creditor) |
| Settlement.TransferDebtKeepsLive | src/main/kotlin/pl/org/pablo/slack/money/money/MoneyServiceImpl.kt:117-133 | relationships still waiting in the list stay stored under their identities |
| Settlement.TransferDebtKeepsWellFormed | src/main/kotlin/pl/org/pablo/slack/money/money/MoneyServiceImpl.kt:117-133 | a transfer to a creditor that the new debtor is not and does not owe yet keeps amounts positive, no self debt and one edge per pair |
| Service.MoneyService.TransferDebt | src/main/kotlin/pl/org/pablo/slack/money/money/MoneyServiceImpl.kt:117-133 | the in-place update gives exactly the store and remainder of Settlement.TransferDebt and keeps the invariant |
| Creditors.SortedByValue | src/main/kotlin/pl/org/pablo/slack/money/money/MoneyServiceImpl.kt:50 | the sorted debts are ascending by amount and are a permutation of the input |
| Creditors.SortedByValueIsStable | src/main/kotlin/pl/org/pablo/slack/money/money/MoneyServiceImpl.kt:50 | debts of equal amount keep their input order |
| Creditors.SelectAscending | src/main/kotlin/pl/org/pablo/slack/money/money/MoneyServiceImpl.kt:51 | each group of an ascending list is ascending |
| Creditors.SelectSplits | src/main/kotlin/pl/org/pablo/slack/money/money/MoneyServiceImpl.kt:51 | the shared and the unshared group together are the whole list |
| Creditors.Groups | src/main/kotlin/pl/org/pablo/slack/money/money/MoneyServiceImpl.kt:50-51 | both groups are ascending; together they are a permutation of from's toPay; the first holds exactly the debts to creditors that to also owes, the second the others |
| Service.MoneyService.SettleSharedCreditors | src/main/kotlin/pl/org/pablo/slack/money/money/MoneyServiceImpl.kt:52-57 | the loop gives the store and remainder of the shared stage, stopping at the first remainder of 0 |
| Service.MoneyService.TransferDebts | src/main/kotlin/pl/org/pablo/slack/money/money/MoneyServiceImpl.kt:58-63 | the loop gives the store and remainder of the transfer stage, stopping at the first remainder of 0 |
| Settlement.SharedStageKeepsOthers | src/main/kotlin/pl/org/pablo/slack/money/money/MoneyServiceImpl.kt:52-58 | the unshared debts of from are all still stored when the shared stage ends |
| Settlement.Residual | src/main/kotlin/pl/org/pablo/slack/money/money/MoneyServiceImpl.kt:67-70 | the store keeps every edge and gains, last, a fresh debt of to to from for the remainder |
| Settlement.ResidualIndexed | src/main/kotlin/pl/org/pablo/slack/money/money/MoneyServiceImpl.kt:67-69 | the residual edge is appended to from's toReturn and to to's toPay; from's toPay and to's toReturn are unchanged |
| Service.MoneyService.UpdateBalance | src/main/kotlin/pl/org/pablo/slack/money/money/MoneyServiceImpl.kt:43-71 | direct settlement, the shared then the unshared stage with early returns, and the residual give exactly Settlement.UpdateBalance, and the invariant holds |
| Settlement.UpdateBalanceKeepsConsistent | src/main/kotlin/pl/org/pablo/slack/money/money/MoneyServiceImpl.kt:43-71 | every non-negative payment keeps amounts positive and identities distinct |
| Settlement.UpdateBalanceKeepsWellFormed | src/main/kotlin/pl/org/pablo/slack/money/money/MoneyServiceImpl.kt:43-71 | from a minimal store, one non-negative payment leaves amounts positive, nobody owing themselves and at most one edge per ordered pair |
| Settlement.ZeroPaymentIsNoOp | src/main/kotlin/pl/org/pablo/slack/money/money/MoneyServiceImpl.kt:44-46 | a payment of 0 leaves the store exactly as it was |
| Settlement.UpdateBalanceMovesNet | src/main/kotlin/pl/org/pablo/slack/money/money/MoneyServiceImpl.kt:43-71 | when payer and payee share no creditor, a payment of v raises the payer's net balance by v, lowers the payee's by v, and leaves everybody else's unchanged |
| Settlement.ResidualOnly | src/main/kotlin/pl/org/pablo/slack/money/money/MoneyServiceImpl.kt:44-70 | with no edge between the two and no debts of the payer, a non-zero payment becomes one new debt of payee to payer for the full amount |
| Settlement.PaymentThenRefund | src/main/kotlin/pl/org/pablo/slack/money/money/MoneyServiceImpl.kt:43-108 | when the two have no edge either way and the payer owes nobody, the payment becomes a new debt of the payee, and the same payment back pays it off: the store is restored exactly |
| Settlement.RefundAfterShrink | src/main/kotlin/pl/org/pablo/slack/money/money/MoneyServiceImpl.kt:80-88 | in a minimal store where a owes b more than v, paying v shrinks that edge by v in place, and b paying v back grows it to the old amount: the store is restored exactly |
| Settlement.RefundAfterGrow | src/main/kotlin/pl/org/pablo/slack/money/money/MoneyServiceImpl.kt:97-103 | in a minimal store where b owes a, a paying v grows that edge by v, and b paying v back shrinks it to the old amount: the store is restored exactly |
| Ledger.Credits | src/main/kotlin/pl/org/pablo/slack/money/money/MoneyServiceImpl.kt:141 | one entry per toReturn edge, named by its payer, carrying +value |
| Ledger.Debits | src/main/kotlin/pl/org/pablo/slack/money/money/MoneyServiceImpl.kt:141 | one entry per toPay edge, named by its receiver, carrying -value |
| Ledger.Balances | src/main/kotlin/pl/org/pablo/slack/money/money/MoneyServiceImpl.kt:140-141 | the list has |toReturn| + |toPay| entries: first +value by payer for each toReturn edge, then -value by receiver for each toPay edge |
| Ledger.BalancesSumToNet | src/main/kotlin/pl/org/pablo/slack/money/money/MoneyServiceImpl.kt:140-141 | the entries add up to the user's net balance: what others owe minus what the user owes |
| Ledger.BalancesSigns | src/main/kotlin/pl/org/pablo/slack/money/money/MoneyServiceImpl.kt:140-141 | with positive amounts, exactly the toReturn entries are positive |
| Service.MoneyService.GetBalance | src/main/kotlin/pl/org/pablo/slack/money/money/MoneyServiceImpl.kt:18-19 | returns the balance list of the user, whose sum is the user's net balance |
| Service.MoneyService.constructor | src/main/kotlin/pl/org/pablo/slack/money/money/MoneyServiceImpl.kt:13-16 | a service starts over the repository's relationships, which must have positive amounts and distinct identities, and keeps them as they are |
| Scenarios.NewDebt | src/main/kotlin/pl/org/pablo/slack/money/money/MoneyServiceImpl.kt:67-70 | with no prior edges, A paying B 10 creates the single edge "B owes A 10" |
| Scenarios.NewDebtCreditorBalance | src/main/kotlin/pl/org/pablo/slack/money/money/MoneyServiceImpl.kt:140-141 | after that payment, A's balance list is [(B, +10)] |
| Scenarios.NewDebtDebtorBalance | src/main/kotlin/pl/org/pablo/slack/money/money/MoneyServiceImpl.kt:140-141 | after that payment, B's balance list is [(A, -10)] |
| Scenarios.PartialRepayment | src/main/kotlin/pl/org/pablo/slack/money/money/MoneyServiceImpl.kt:84-88 | A owes B 15 and pays 10: the edge becomes 5 |
| Scenarios.FullRepayment | src/main/kotlin/pl/org/pablo/slack/money/money/MoneyServiceImpl.kt:89-94 | A owes B 10 and pays 10: the store is empty |
| Scenarios.Overpayment | src/main/kotlin/pl/org/pablo/slack/money/money/MoneyServiceImpl.kt:44-70 | A owes B 10 and pays 15: the direction flips to "B owes A 5" |
| Scenarios.Rerouting | src/main/kotlin/pl/org/pablo/slack/money/money/MoneyServiceImpl.kt:58-70 | A owes C 8 and pays B 20: B now owes C 8 and owes A 12, and A's debt is gone |
| Scenarios.SharedCreditorLosesBalance | src/main/kotlin/pl/org/pablo/slack/money/money/MoneyServiceImpl.kt:52-53 | A and B each owe C 5 and A pays B 3: B's debt drops to 2, A's net balance does not move, and C is owed 3 less |
| Scenarios.TransferMakesMutualDebt | src/main/kotlin/pl/org/pablo/slack/money/money/MoneyServiceImpl.kt:117-120 | from a minimal store, a transfer leaves B owing C while C owes B |
| Scenarios.MutualDebtThenDuplicatePair | src/main/kotlin/pl/org/pablo/slack/money/money/MoneyServiceImpl.kt:89-94 | after that run, C paying B 10 pays off C's debt and leaves B owing C on two edges, 5 and 6: one edge per pair is lost |
| Scenarios.SharedRefundDiffers | src/main/kotlin/pl/org/pablo/slack/money/money/MoneyServiceImpl.kt:52-53 | A and B owe C 8 and 3; A pays B 5, B pays A 5 back, and the store ends with A owing B 3 instead of B owing C 3 |
| Scenarios.ReroutingRefund | src/main/kotlin/pl/org/pablo/slack/money/money/MoneyServiceImpl.kt:58-70 | after the rerouting run, B paying A 20 back leaves A owing C 8 again, on a relationship with a new identity |

## Left out

- Persistence: the repository calls `save`, `delete` and `saveAll`, and the
  `@Transactional` atomicity, are not modelled. Each one is an update of
  the edge store, and every method runs to completion.
- The `PayRelationship` audit record (lines 31-32) is write-only and never
  read by the engine.
- `UserService.getOrCreate` and the user repository are not part of this
  model. Users are plain ids, and the in-memory `toPay`/`toReturn` lists are
  views of the persisted store, in store order. The code's `transferDebt`
  does not add the new edge to the in-memory lists. No later step of the
  same `updateBalance` call reads those lists, so the persisted store
  captures the behaviour.
- Kotlin's 32-bit `Int` wrap-around (negating `Int.MIN_VALUE` at line 30,
  `+=` at line 100) is not modelled. Amounts are unbounded integers.
- Concurrency between requests is not modelled.
- Self-payment: the code does not reject it, so `from != to` is a
  precondition of `updateBalance` and `addMoney`.
- Settlement.UpdateBalanceMovesNet: conservation of net balances is proved
  only when payer and payee share no creditor. The shared-creditor branch
  does not keep balances (`Scenarios.SharedCreditorLosesBalance`).
- Settlement.UpdateBalanceKeepsWellFormed: one edge per pair is proved for
  one payment from a minimal store only. The code keeps neither the
  one-direction rule (`Scenarios.TransferMakesMutualDebt`) nor, from the
  store that leaves, one edge per pair
  (`Scenarios.MutualDebtThenDuplicatePair`).
- Settlement.PaymentThenRefund: a payment followed by the same payment back
  is proved to restore the store exactly on three paths only: a new debt of
  the payee (`Settlement.PaymentThenRefund`), a shrunk debt of the payer
  (`Settlement.RefundAfterShrink`) and a grown debt of the payee
  (`Settlement.RefundAfterGrow`). Nothing is proved in general for a
  payment that pays off a debt or reroutes. After the rerouting run the
  refund gives back the payer's debt to the creditor on a relationship
  with a new identity (`Scenarios.ReroutingRefund`). After a
  shared-creditor settlement the refund leaves a different graph
  (`Scenarios.SharedRefundDiffers`).
