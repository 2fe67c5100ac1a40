# Spensense-AI ledger core in Dafny

Spensense-AI is a personal-finance tracker. Transactions (income or expense,
an amount, a currency, an optional category, bucket and note, and a date)
are stored in a table. Over that table the backend computes:

- totals, breakdowns by bucket and category, and monthly and daily series;
- over-budget alerts per category for a month;
- a savings plan for a goal;
- an automatic bucket for expenses (`necessary`, `controllable`,
  `unnecessary`), from the category or from keywords in the note.

A CSV import turns validated rows into transactions. The frontend turns
free-form category text into a key.

This project models that core over an in-memory ledger, a `seq<Tx>`, and
proves properties of the model:

- **Amounts** are integer cents.
- **Dates** are `Date(year, month, day)` with Gregorian month lengths and
  Python's year range 1..9999.
- **Grouped SQL queries** are functions from the ledger to a list of groups:
  filter, group by key, sum, sort by sum descending, cut to the `LIMIT`.

Modules, one per core file plus shared pieces:

| module | models |
|---|---|
| `Ledger` | the transaction row, the date window and type filters, GROUP BY, ORDER BY SUM DESC, LIMIT, and the per-period income/expense sums |
| `Summary` | `backend/app/crud/analytics/summary.py` |
| `Daily` | `backend/app/crud/analytics/daily.py` |
| `GoalPlanner` | `backend/app/crud/goal_planner.py` |
| `Alerts` | `backend/app/crud/alerts.py` |
| `BucketClassifier` | `backend/app/services/bucket_classifier.py` |
| `CsvImport` | the post-validation part of `backend/app/services/csv_import.py` |
| `Transactions` | `backend/app/crud/transactions.py`, as a `Store` class |
| `Normalize` | `frontend/src/lib/normalize.ts` |
| `Dates` | calendar dates and month keys |
| `Decimals` | rounding half to even to the cent, and the ceiling of a quotient |
| `Grouping` | sequences: take, map, reverse, distinct, sums, sort descending |
| `Text` | ASCII `strip`, `trim`, `lower`, `upper` and slicing |
| `Wrappers` | `Option` and `Result` |

The parts of the source that loop and append, and the transaction store, are
methods with loops and invariants:

- the loops of `get_monthly`, `get_recent_monthly_net`, `get_daily_series` and
  `get_over_budget_alerts`;
- the reject and row loops of the CSV import;
- the store.

Each of these methods is proved against a specification function. The
properties the source promises are proved about that function as lemmas.

## Model

| member | source | states |
|---|---|---|
| `Summary.GetTotals` | backend/app/crud/analytics/summary.py:17-35 | income and expense are the conditional sums over the transactions in the window, and `net = income - expense` exactly |
| `Summary.TotalsNonNegative` | backend/app/crud/analytics/summary.py:17-25 | for a ledger with positive amounts, neither total is negative |
| `Summary.TotalsAppend` | backend/app/crud/analytics/summary.py:27-30 | one more transaction changes a total by its amount when its date is inside the inclusive window, and not at all otherwise |
| `Summary.TotalsByType` | backend/app/crud/analytics/summary.py:17-25 | income is the sum of the amounts of the income rows in the window, and expense that of the expense rows |
| `Summary.BetweenValid` | backend/app/crud/analytics/summary.py:27-30 | every row of the window is a row of the ledger, so the window of a valid ledger is valid |
| `Summary.GetByBucket` | backend/app/crud/analytics/summary.py:38-57 | one row per bucket of the window's expenses, NULL bucket included; the keys are distinct; the expenses are non-increasing; each row's expense is its bucket's sum; the rows add up to `GetTotals(...).expense` |
| `Summary.GetByCategory` | backend/app/crud/analytics/summary.py:60-84 | `min(topN, number of categories)` rows with distinct keys and non-increasing expenses; each row is a category of the window's expenses with their sum; a category left out spent no more than any category shown |
| `Summary.MonthlyQueryFacts` | backend/app/crud/analytics/summary.py:93-111 | the month query is at most `months` rows in strictly decreasing month order, each with its month's income and expense; a month it drops is older than every month it keeps |
| `Summary.MonthlySeriesFacts` | backend/app/crud/analytics/summary.py:87-122 | `get_monthly` gives at most `months` rows, strictly ascending by month, only months with transactions in the window, each with its sums and `net = income - expense`; every month with transactions that is left out is older than every month returned |
| `Summary.NewestMonths` | backend/app/crud/analytics/summary.py:103-105 | month groups sorted newest first and cut after `n` are strictly decreasing, and the cut drops only older months |
| `Summary.ReversedRows` | backend/app/crud/analytics/summary.py:116-122 | converting and reversing the query rows keeps each month's sums and adds `net` |
| `Summary.ReversedOrder` | backend/app/crud/analytics/summary.py:122 | reversing the newest-first rows gives strictly ascending months; a month left out stays older than all |
| `Summary.GetMonthly` | backend/app/crud/analytics/summary.py:87-122 | the method, which loops and then reverses, returns exactly `MonthlySeries` |
| `Summary.MonthRows` | backend/app/crud/analytics/summary.py:116-120 | the loop gives one row per query row, in order, each `ToMonthRow` of it |
| `Daily.DailyOrder` | backend/app/crud/analytics/daily.py:28-29 | the days of the series strictly increase |
| `Daily.DailyPoints` | backend/app/crud/analytics/daily.py:14-27 | each point's day lies in `[from, to]` and is the day of some transaction there, so no empty day is synthesised; its income and expense are the sums over that day's transactions, with `net = income - expense` |
| `Daily.DailyComplete` | backend/app/crud/analytics/daily.py:26-28 | every transaction in the window has a point for its day, and there are as many points as distinct days |
| `Daily.DailyNetMatchesTotals` | backend/app/crud/analytics/daily.py:12-46 | the nets of all points add up to `GetTotals` net over the same inclusive window |
| `Daily.GetDailySeries` | backend/app/crud/analytics/daily.py:12-46 | the method returns exactly `DailySeries` |
| `Daily.DayPoints` | backend/app/crud/analytics/daily.py:34-45 | the loop gives one point per query row, in order |
| `Ledger.BetweenMembers` | backend/app/crud/analytics/summary.py:27-30 | the window keeps exactly the rows dated inside it, an absent bound being unbounded |
| `Ledger.OfTypeMembers` | backend/app/crud/analytics/summary.py:46 | the type filter keeps exactly the rows of that type |
| `Ledger.GroupByRows` | backend/app/crud/analytics/summary.py:41-47 | GROUP BY gives one row for each key that occurs, with distinct keys and the sum over exactly that key's rows |
| `Ledger.GroupByPartition` | backend/app/crud/analytics/summary.py:41-47 | the group sums add up to the sum over all rows |
| `Ledger.RankedGroupsFacts` | backend/app/crud/analytics/summary.py:47-48 | in any order, the GROUP BY rows have one row per key that occurs, distinct keys, each the sum of its key's rows, and sums adding up to the sum over all rows |
| `Ledger.TopGroupsFacts` | backend/app/crud/analytics/summary.py:73-75 | with `LIMIT n`: at most `n` groups, ranked, each with its key's sum |
| `Ledger.TopGroupsLeftOut` | backend/app/crud/analytics/summary.py:73-75 | a key that occurs but is cut by the limit sums to no more than any group kept |
| `Ledger.OfTypeSum` | backend/app/crud/analytics/summary.py:19-22 | the conditional sum of income (or expense) over all rows is the plain sum over the rows of that type |
| `Ledger.SortedPeriodsFacts` | backend/app/crud/analytics/daily.py:14-28 | in any order, the period rows have distinct keys, each carries the income and expense of its key's rows, every row's key has one, and the nets add up to total income minus total expense |
| `GoalPlanner.MonthStart` | backend/app/crud/goal_planner.py:13-14 | the first day of `d`'s month: valid, day 1, same month, no later than any date of that month |
| `GoalPlanner.AddMonths` | backend/app/crud/goal_planner.py:17-20 | day 1 of a valid month whose month index is `d`'s plus `months`; none exactly when that month leaves years 1..9999 |
| `GoalPlanner.MonthsBetweenInclusive` | backend/app/crud/goal_planner.py:23-25 | the difference of the month indices plus one |
| `GoalPlanner.MonthsBetweenAddMonths` | backend/app/crud/goal_planner.py:17-25 | counting from `s`'s month to `add_months(s, k)` gives `k + 1` |
| `GoalPlanner.MonthsBetweenPositive` | backend/app/crud/goal_planner.py:109-112 | from a month to one not before it the count is at least 1, and it is 1 exactly for the same month |
| `GoalPlanner.GetRecentMonthlyNet` | backend/app/crud/goal_planner.py:28-72 | the method returns the monthly series without date bounds: at most `months` rows, strictly ascending, each net `income - expense` and each month one with transactions; months left out are older than all returned |
| `GoalPlanner.UnboundedBetween` | backend/app/crud/goal_planner.py:32-57 | without date bounds the query sees every row |
| `GoalPlanner.WithBucketsMembers` | backend/app/crud/goal_planner.py:91 | `bucket IN (...)` keeps exactly the rows whose bucket is listed; a NULL bucket is in no list |
| `GoalPlanner.TopSpendCategories` | backend/app/crud/goal_planner.py:75-98 | exactly `min(topN, number of categories)` rows, one per category of the window's expenses in the listed buckets; non-increasing, distinct, each with its category's sum; a category left out spent no more than any shown |
| `GoalPlanner.CutRowsFacts` | backend/app/crud/goal_planner.py:88-91 | every row counted for the cut targets is an expense of the ledger, dated in the window, with a listed bucket |
| `GoalPlanner.AverageNet` | backend/app/crud/goal_planner.py:116-121 | zero without history; otherwise within half a cent of the mean net, and even on a tie; with `Decimals.RoundHalfEvenUnique` this fixes it as the mean rounded half to even |
| `GoalPlanner.Projection` | backend/app/crud/goal_planner.py:130-134 | with no positive average, both fields are none; otherwise `projected_months` is the least `k` with `avg * k >= target` (at least 1 for a positive target), and the month is `k - 1` months on from the start; it fails exactly when that month leaves years 1..9999 |
| `GoalPlanner.CutWindowIsMonth` | backend/app/crud/goal_planner.py:138-141 | the cut window, from the first of the month to the day before the next month's first, is `Alerts.MonthBounds(today)` |
| `GoalPlanner.PlanGoal` | backend/app/crud/goal_planner.py:101-163 | a successful plan echoes `history_months` and has at most five cut targets |
| `GoalPlanner.PlanErrors` | backend/app/crud/goal_planner.py:112-141 | `plan_goal` divides by zero exactly when the target month is the month before the current one; it raises for a year out of range exactly when the projected month, or the month after the current one, leaves years 1..9999 |
| `GoalPlanner.PlanSaving` | backend/app/crud/goal_planner.py:112-127 | `months_remaining` counts the months from today's to the target's; `required_monthly_saving` is within half a cent of `target / months_remaining`, and even on a tie; feasible iff `avg >= required` and `avg > 0`; the shortfall is 0 when feasible and `required - avg` otherwise, so it is never negative for a positive target not in the past |
| `GoalPlanner.PlanAverage` | backend/app/crud/goal_planner.py:115-121 | the history is the newest `history_months` months with transactions (or all of them, when there are fewer); the average is their mean net to the cent, ties to even, 0 without history; an empty ledger is never feasible |
| `GoalPlanner.HistoryLength` | backend/app/crud/goal_planner.py:54-57 | the unbounded monthly series holds `min(months, number of months with transactions)` rows |
| `GoalPlanner.PlanProjection` | backend/app/crud/goal_planner.py:129-134 | no projection iff the average is not positive; otherwise the least number of months whose savings reach the target (at least 1), and the goal month that many months on, counting the current one |
| `GoalPlanner.PlanCuts` | backend/app/crud/goal_planner.py:136-149 | exactly `min(5, number of categories)` cut targets, one per category of the current month's expenses in the `controllable` and `unnecessary` buckets; non-increasing, distinct, each with its category's spend; a category left out spent no more than any shown |
| `Alerts.MonthBounds` | backend/app/crud/alerts.py:21-29 | start is day 1 and end the last day of `d`'s month, December rolling to January; `start <= d <= end`; a date is within them iff it is in `d`'s month; none only for December 9999 |
| `Alerts.Lookup` | backend/app/crud/alerts.py:56 | the outer join finds the group with the budget's category, or NULL when there is none |
| `Alerts.JoinRows` | backend/app/crud/alerts.py:49-57 | one joined row per budget, in order, with its category, its limit and `coalesce(spent, 0)` |
| `Alerts.JoinedSpend` | backend/app/crud/alerts.py:36-56 | a budget's joined spend is the sum of expenses of its category dated in `[start, end]`, and 0 when there are none |
| `Alerts.OverLimitSound` | backend/app/crud/alerts.py:61-70 | every alert of the loop comes from a joined row whose spend exceeds its limit, with `over_by = spent - limit` |
| `Alerts.OverLimitComplete` | backend/app/crud/alerts.py:61-70 | every joined row whose spend exceeds its limit gives an alert |
| `Alerts.OverLimitDistinct` | backend/app/crud/alerts.py:61-70 | the loop repeats no category that the joined rows do not repeat |
| `Alerts.OverLimitLength` | backend/app/crud/alerts.py:61-70 | at most one alert per joined row |
| `Alerts.AlertsSound` | backend/app/crud/alerts.py:32-74 | each alert carries a budget's limit and its month spend, with `over_by = spent - limit > 0`; the alerts are sorted by `over_by`, largest first |
| `Alerts.AlertSource` | backend/app/crud/alerts.py:32-74 | the budget behind one alert |
| `Alerts.AlertsComplete` | backend/app/crud/alerts.py:32-74 | every budget spent beyond its limit has an alert with its category, its limit and its spend |
| `Alerts.AlertsUnique` | backend/app/crud/alerts.py:49-57 | when budget categories are unique, each category is alerted at most once |
| `Alerts.AlertIff` | backend/app/crud/alerts.py:61-69 | given unique categories, a budget is alerted iff its month spend exceeds its limit |
| `Alerts.NoSpendNoAlert` | backend/app/crud/alerts.py:53 | a budget with no spend this month never alerts, because limits are positive |
| `Alerts.TwoExpenses` | backend/app/crud/alerts.py:36-46 | two expenses of one category inside the window sum to that category's spend |
| `Alerts.DiningOutScenario` | backend/tests/test_alerts.py:10-49 | a 30.00 dining-out limit and expenses of 20.00 and 25.00 in the month give exactly one alert, `dining_out`, 15.00 over |
| `Alerts.GetOverBudgetAlerts` | backend/app/crud/alerts.py:32-74 | the method fails only for December 9999; otherwise it returns exactly the alerts for `for_date`'s month bounds |
| `Alerts.FilterOverLimit` | backend/app/crud/alerts.py:61-70 | the loop's result is the alerts of the joined rows over their limit, in order |
| `BucketClassifier.ParseBucket` | backend/app/services/bucket_classifier.py:6 | the three labels read back as their buckets, and nothing else does |
| `BucketClassifier.MatchIsWholeWord` | backend/app/services/bucket_classifier.py:34 | a `\b...\b` match of a keyword is a whole word of the text |
| `BucketClassifier.WholeWordMatches` | backend/app/services/bucket_classifier.py:34 | a whole word that is, lower-cased, a keyword is a match of the pattern |
| `BucketClassifier.SearchIffKeyword` | backend/app/services/bucket_classifier.py:31-53 | a rule's pattern finds a match iff some whole word of the text, compared ignoring case, is one of its alternatives |
| `BucketClassifier.RulesAreKeywords` | backend/app/services/bucket_classifier.py:31-53 | every alternative of every rule is a non-empty run of lower-case word characters, as the patterns spell them |
| `BucketClassifier.FirstMatch` | backend/app/services/bucket_classifier.py:66-70 | there is no answer iff no rule's pattern finds a match |
| `BucketClassifier.FirstMatchIsFirst` | backend/app/services/bucket_classifier.py:66-70 | the winning rule is the first that matches: every earlier one finds nothing |
| `BucketClassifier.CategoryBucket` | backend/app/services/bucket_classifier.py:61-64 | the table's bucket for the stripped, lower-cased category; none for a missing or empty category or one not in the table |
| `BucketClassifier.NoteBucket` | backend/app/services/bucket_classifier.py:66-70 | none for a missing or empty note; otherwise the first rule's bucket that matches the stripped note |
| `BucketClassifier.InferBucket` | backend/app/services/bucket_classifier.py:56-72 | a category in the table gives the table's bucket; otherwise there is no answer iff the note is missing or empty, or no rule has a whole word of it |
| `BucketClassifier.InferByNote` | backend/app/services/bucket_classifier.py:61-72 | when the category is not in the table and there is an answer, it is the bucket of the first rule (necessary, controllable, unnecessary) with a whole word of the stripped note among its alternatives |
| `BucketClassifier.InferFromCategory` | backend/app/services/bucket_classifier.py:61-64 | a category in the table decides, whatever the note |
| `BucketClassifier.InferWithoutCategory` | backend/app/services/bucket_classifier.py:61 | a missing or empty category falls through to the note |
| `BucketClassifier.RentExample` | backend/tests/test_bucket_classifier.py:5 | `rent` with no note is necessary |
| `BucketClassifier.EntertainmentExample` | backend/tests/test_bucket_classifier.py:7 | `entertainment` with no note is unnecessary |
| `BucketClassifier.DiningOutExample` | backend/tests/test_bucket_classifier.py:6 | `dining_out` with no note is controllable, as the test expects; the padded `" Dining_Out "` variant, stripped and lower-cased, is too, even with a note holding a keyword of another bucket |
| `BucketClassifier.NetflixExample` | backend/tests/test_bucket_classifier.py:11 | "Netflix monthly" without a category is unnecessary |
| `BucketClassifier.ElectricityExample` | backend/tests/test_bucket_classifier.py:12 | "Electricity bill" without a category is necessary |
| `BucketClassifier.CoffeeExample` | backend/tests/test_bucket_classifier.py:13 | "Coffee with friends" without a category is controllable |
| `BucketClassifier.UnknownExample` | backend/tests/test_bucket_classifier.py:17 | an unknown category with the note "random" gives no bucket |
| `CsvImport.RejectOf` | backend/app/services/csv_import.py:63-69 | a failure case becomes a reject numbered its 0-based index plus one (1 when it has none), with its reason |
| `CsvImport.CollectRejects` | backend/app/services/csv_import.py:63-69 | the loop gives one reject per failure case, in order |
| `CsvImport.FirstPositions` | backend/app/services/csv_import.py:76-83 | the kept positions increase, each is the first of its row number, and every such first position is kept |
| `CsvImport.KeepFirstPositions` | backend/app/services/csv_import.py:76-83 | the kept rejects are the rejects at those positions: a subsequence of the input, in its order |
| `CsvImport.KeepFirstDistinct` | backend/app/services/csv_import.py:88-95 | no two kept rejects share a row number |
| `CsvImport.KeepFirstCovers` | backend/app/services/csv_import.py:88-95 | every row number of the input keeps a reject, and it is the first with that row number |
| `CsvImport.DedupRejects` | backend/app/services/csv_import.py:88-95 | the `seen`/`uniq` loop returns exactly the first reject of each row number, with distinct row numbers |
| `CsvImport.DefaultCurrency` | backend/app/services/csv_import.py:37-39 | a missing or empty currency becomes "EUR"; any other is kept |
| `CsvImport.RowCurrency` | backend/app/services/csv_import.py:105 | an empty currency gives "EUR"; any other gives its first three characters upper-cased |
| `CsvImport.Truncated` | backend/app/services/csv_import.py:107-112 | a missing value stays missing; a present one is cut to its first `n` characters |
| `CsvImport.LabelOf` | backend/app/services/csv_import.py:116 | an inferred bucket is stored as its label |
| `CsvImport.ToTxFields` | backend/app/services/csv_import.py:102-128 | type, amount and date are unchanged; category and note are cut to 50 and 255 characters |
| `CsvImport.ToTxCurrency` | backend/app/services/csv_import.py:38-39 | the stored currency is "EUR" when missing or empty, and otherwise its first three characters upper-cased |
| `CsvImport.ToTxBucket` | backend/app/services/csv_import.py:111-116 | a provided bucket cut to 20 characters; otherwise the bucket inferred from the cut category and note for an expense, and none for income |
| `CsvImport.CurrencyShape` | backend/app/services/csv_import.py:105 | the stored currency has at most three characters and no lower-case letter |
| `CsvImport.InferredBucketIsLabel` | backend/app/services/csv_import.py:113-116 | a bucket the import fills in belongs to an expense and is one of the three labels |
| `CsvImport.ToTxValid` | backend/app/services/csv_import.py:118-127 | a validated row with a positive amount and a real date gives a valid transaction |
| `CsvImport.BuildTransactions` | backend/app/services/csv_import.py:101-128 | the loop builds one transaction per validated row, in order |
| `CsvImport.ImportRows` | backend/app/services/csv_import.py:44-133 | an empty CSV gives 0 inserted and exactly the reject `(1, "CSV is empty")`; otherwise the rejects are the de-duplicated rejects of the failure cases, and one transaction is inserted per validated row, `inserted_count` being their number |
| `Transactions.MatchesIff` | backend/app/crud/transactions.py:37-46 | a record matches iff it satisfies each filter given: type, category and bucket exactly, dates inclusively; an empty text filter is not applied |
| `Transactions.KeepKeep` | backend/app/crud/transactions.py:37-46 | two successive WHERE clauses filter by both |
| `Transactions.Selected` | backend/app/crud/transactions.py:37-46 | the selected records are exactly the stored records that match |
| `Transactions.SortNewest` | backend/app/crud/transactions.py:35 | the same records, as a multiset, ordered by date descending, then id descending |
| `Transactions.Window` | backend/app/crud/transactions.py:48 | `OFFSET`/`LIMIT`: the slice `[offset, offset + limit)`, clipped to the list |
| `Transactions.ListingFacts` | backend/app/crud/transactions.py:35-48 | at most `limit` records, each a stored record that matches every filter given, newest first |
| `Transactions.PagesConcatenate` | backend/app/crud/transactions.py:48 | two consecutive pages together are the page as long as both |
| `Transactions.ListingComplete` | backend/app/crud/transactions.py:35-48 | a page from offset 0 that is long enough holds every matching record exactly as often as the store does |
| `Transactions.ApplyPatch` | backend/app/crud/transactions.py:52-57 | the result is none exactly when the patch sets `tx_type`, `amount`, `currency` or `occurred_on` to null; otherwise each column the patch carries takes the patch's value, and every other column keeps its value |
| `Transactions.PatchLaws` | backend/app/crud/transactions.py:53-55 | an empty patch succeeds and changes nothing; applying a patch that succeeds a second time gives the same columns |
| `Transactions.PatchCompose` | backend/app/crud/transactions.py:53-55 | after a patch that succeeds, a second patch acts as one patch in which the later wins field by field, including whether it fails |
| `Transactions.IndexOf` | backend/app/crud/transactions.py:20-21 | the first position holding the id, or none when no record has it |
| `Transactions.RemoveAt` | backend/app/crud/transactions.py:62-64 | removing one record keeps the ids valid and leaves exactly the records with another id |
| `Transactions.Store.constructor` | backend/app/crud/transactions.py:12-17 | an empty table whose first id is 1 |
| `Transactions.Store.Create` | backend/app/crud/transactions.py:12-17 | appends the payload unchanged, with no bucket inference, under a fresh id; the ids stay distinct |
| `Transactions.Store.Get` | backend/app/crud/transactions.py:20-21 | the stored record with that id, or none when no record has it |
| `Transactions.Store.List` | backend/app/crud/transactions.py:24-49 | adding the WHERE clauses one at a time, then ordering and paging, returns exactly `Listing` |
| `Transactions.Where` | backend/app/crud/transactions.py:37-46 | one WHERE clause, skipped when its filter is not given, takes the rows from the first `k` clauses to the first `k + 1` |
| `Transactions.Store.Update` | backend/app/crud/transactions.py:52-59 | an unknown id gives `NotFound`, and a null for a NOT NULL column gives `NullColumn`; both leave the store unchanged. Otherwise only that record changes, to `ApplyPatch` of its columns |
| `Transactions.Store.Delete` | backend/app/crud/transactions.py:62-64 | removes exactly the record with that id and keeps the others in order; for an unknown id nothing changes |
| `Normalize.ExpandContents` | frontend/src/lib/normalize.ts:5 | the expansion is four characters longer per `&` of the text, has no `&` left, and has exactly the other characters of the text plus, when it had an `&`, those of " and " |
| `Normalize.Collapse` | frontend/src/lib/normalize.ts:6 | the result has only `[a-z0-9_]` and no `__`; it is empty only for empty text, and ends in `_` iff the text ends outside `[a-z0-9]` |
| `Normalize.NormalizeShape` | frontend/src/lib/normalize.ts:1-9 | the key has at most 50 characters, only `[a-z0-9_]`, no `__` and no leading `_`; it ends in `_` only when the cut at 50 falls right after an underscore of a longer key |
| `Normalize.UncutShape` | frontend/src/lib/normalize.ts:3-7 | before the cut the key has only `[a-z0-9_]`, no `__`, and no `_` at either end |
| `Normalize.NormalizeEmpty` | frontend/src/lib/normalize.ts:3-8 | the key is empty iff the input has no ASCII letter, no digit and no `&` |
| `Normalize.CollapseLetters` | frontend/src/lib/normalize.ts:6 | collapsing keeps every letter and digit, in order |
| `Normalize.NormalizeIdempotent` | frontend/src/lib/normalize.ts:1-9 | normalising a key that does not end in `_` gives it back |
| `Normalize.NormalizeTwiceDrops` | frontend/src/lib/normalize.ts:7-8 | a key cut right after an underscore loses that underscore when normalised again |
| `Normalize.AmpersandExample` | frontend/src/lib/normalize.ts:5-7 | "a&b" becomes "a_and_b" |
| `Decimals.RoundHalfEven` | backend/app/crud/goal_planner.py:113 | `quantize(Decimal("0.01"))` of an exact quotient: within half a cent, and even on a tie |
| `Decimals.RoundHalfEvenUnique` | backend/app/crud/goal_planner.py:113 | the rounding is the only value within half a cent that is even on ties |
| `Decimals.CeilDiv` | backend/app/crud/goal_planner.py:133 | `ceil(target / avg)` for a positive `avg`: the least `k` with `avg * k >= target` |
| `Text.StripFacts` | backend/app/services/bucket_classifier.py:62 | `strip` gives the piece between the first and the last non-space character, and nothing when every character is white space |
| `Grouping.SortDesc` | backend/app/crud/alerts.py:73 | the sort gives a permutation of its input that is non-increasing in the key |

## Left out

- SQL and sessions: the database, `commit`, `refresh`, and the rendering of SQL are not modelled. Each query is a function of a ledger value, with no snapshot consistency or concurrency.
- Conditional sums: `func.case` and `case` are modelled by their meaning, as one conditional sum.
- HTTP and pydantic: the routers, the 404 for a missing id and the schema validation are not modelled.
  - `Store.Update` and `Store.Delete` take an id; for an unknown id they leave the store unchanged and return `Failure(NotFound)` or false.
  - The schema guarantees appear as preconditions or hypotheses: `ValidLedger` (positive amounts on real dates) and `ValidBudgets` (positive limits, unique categories).
- Clock: `date.today()` is the parameter `today` of `PlanGoal`.
- CSV reading and validation: `read_csv`, the pandera validation (both passes) and `to_datetime` are not modelled. `ImportRows` takes three inputs:
  - whether the frame was empty;
  - the failure cases, with their column, check and value already rendered as text;
  - the validated rows, with amounts already in cents.
- CSV values: a cell that is present but fails `pd.notna` is indistinguishable from a missing one (`None`).
- Decimal arithmetic: amounts are exact cents and quotients exact rationals, rounded half to even. The finite precision of Python's decimal context is not modelled.
- Character sets: letters are ASCII only. `lower`, `upper` and the regex `\w` and `re.I` ignore non-ASCII letters; `strip` and `trim` use the ASCII white space of Python and the ECMAScript white space set. Two consequences:
  - Normalize.NormalizeEmpty describes the model, not the source, on non-ASCII letters. JavaScript's `toLowerCase` maps U+212A (Kelvin sign) to `k` and U+0130 to `i` followed by U+0307. So `normalizeCategory("\u212A")` is `"k"` in the source but `""` in the model.
  - Text.IsPySpace omits the Unicode white space that Python's `str.strip()` removes (U+00A0, U+3000, ...). A category of `"rent"` preceded by U+00A0 is `necessary` in the source, but in the model it misses the category table and falls through to the note.
- Regex engine: the keyword patterns are modelled by their match semantics, a leftmost search for `\b(alt|...)\b`, not by a regex engine.
- Month keys: `to_char(occurred_on, 'YYYY-MM')` is the pair `MonthKey(year, month)`, ordered by month index; the zero-padded text sorts the same way for years 1..9999.
- `projected_goal_month_if_unchanged` is the month key itself; its `strftime("%Y-%m")` text is not formed.
- Ties: the order among equal sums, in the bucket, category, cut-target and alert sorts, comes from the database. It is left unspecified; the contracts state non-increasing order only.
- In-place sort: `alerts.sort(...)` is a stable sort of a value, `SortDesc`. The loop that fills the list is a method.
- Transactions.Store.Update: the `setattr` loop over the supplied fields is one `ApplyPatch` of all of them. A null for one of the NOT NULL columns of `backend/app/models/transaction.py:17-24`, which the update schema admits and the commit refuses, is the failure `NullColumn`; the rolled-back session is the unchanged store.
- Errors: `date(...)` raising is a `None` or a `Failure`, for `add_months`, `month_bounds` and the cut window past year 9999. The division by zero in `plan_goal` is a `Failure(DivisionByZero)`.
- Negative integers: `LIMIT`, `OFFSET`, `top_n`, `months` and `history_months` are `nat`. Negative values, which the API's validation or the database would refuse, are not modelled.
- Auto-bucketing: `backend/tests/test_auto_bucket.py:23` expects a bucket to be inferred on create. `create_transaction` does not infer one, and the model follows the code.
- Derived fields: the `isoformat()` of the daily points and the dictionaries returned are records, not text.
- Frontend: the components, `fetch`, the charts and their float sums are not part of this model.
