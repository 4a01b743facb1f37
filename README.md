# E-commerce dashboard aggregations, modelled in Dafny

The dashboard loads an export of order items, one row per item. It keeps
the rows whose purchase time falls in a date range the user picks, then
computes six summary tables from the selection:

- daily orders and revenue;
- distinct orders per product category, largest first;
- revenue per product category, largest first;
- distinct customers per state;
- distinct customers per city;
- an RFM table with recency, frequency and monetary value per customer.

It also shows two headline totals: orders and revenue.

The model consists of pure functions over a sequence of `Row` values, with lemmas about them:

- `ordering.dfy`: module `Ordering`. Lexicographic order on strings, the order in which grouping lays out its keys.
- `rows.dfy`: module `Rows`. The row type, calendar dates, distinct values (`nunique`), sums, selections and group keys.
- `window.dfy`: module `DateWindow`. The date filter as written, and the selection it evidently intends.
- `daily.dfy`: module `DailyOrders`. The per-day resampling.
- `category.dfy`: module `CategoryTables`. The two category rankings.
- `geography.dfy`: module `Geography`. The state and city tables.
- `rfm.dfy`: module `Rfm`. The RFM table.
- `pipeline.dfy`: module `Dashboard`. One refresh: filter, then all tables and totals.

Modelling choices:

- **Times.** A purchase time is a whole number of seconds counted from midnight of date 0. Its calendar date is `t / 86400`, rounded down, which is what truncating to a date does.
- **Money.** Item values are integer cents.
- **Key order.** Grouping sorts its keys, so the state, city and RFM tables list their keys in ascending lexicographic order. That is the order `Ordering.Less` defines.
- **Sort ties.** The category tables are sorted by their figure, largest first. The sort used is not stable, so the contracts fix the order only up to ties. The model sorts with a stable insertion sort.
- **Empty days are kept.** Resampling the rows per day creates a row for every date from the earliest purchase to the latest. Dates without purchases get zero counts. The table therefore has one row per date of the span, not one per date with a purchase.

## Model

| member | source | states |
|---|---|---|
| Ordering.Less | dashboard/dashboard.py:24 | definition: the lexicographic order on strings, character by character with a proper prefix first, in which grouping sorts its keys |
| Ordering.LessIrreflexive | dashboard/dashboard.py:24 | no key sorts before itself |
| Ordering.LessTransitive | dashboard/dashboard.py:24 | the key order is transitive |
| Ordering.LessTotal | dashboard/dashboard.py:24 | any two different keys are ordered one way or the other |
| Ordering.InsertKey | dashboard/dashboard.py:24 | adding a key to an ascending key list keeps it strictly ascending, holds exactly the old keys and the new one, and grows by one only when the key is new |
| Rows.Day | dashboard/dashboard.py:77-78 | the calendar date of a time is the date whose 86400-second span contains it |
| Rows.Midnight | dashboard/dashboard.py:116-117 | a date filter bound is the first instant of its date: it lies on that date and the instant before it lies on the previous date |
| Rows.Distinct | dashboard/dashboard.py:25 | definition: the set of values a column takes; `nunique` is its size |
| Rows.DistinctSize | dashboard/dashboard.py:25 | `nunique` of a non-empty group is at least 1 and at most the number of rows |
| Rows.DistinctMembers | dashboard/dashboard.py:25 | a value is counted by `nunique` exactly when some row holds it |
| Rows.TotalValue | dashboard/dashboard.py:36 | definition: the sum of the item values, as `.sum()` computes it |
| Rows.TotalValueAppend | dashboard/dashboard.py:36 | the sum over two row sequences is the sum of their sums |
| Rows.Where | dashboard/dashboard.py:24 | one group keeps exactly the rows holding the key, and no more rows than the input; its multiplicities are fixed by Rows.WhereCounts |
| Rows.WhereCounts | dashboard/dashboard.py:24 | a group keeps each row holding its key exactly as often as the row occurs, duplicate item rows included, and no other row |
| Rows.GroupKeys | dashboard/dashboard.py:24 | the group keys are strictly ascending, are exactly the distinct values, and there are as many as the distinct count |
| Rows.WhereInSplit | dashboard/dashboard.py:35-36 | peeling one key off a list of distinct keys splits the summed value into that group's sum plus the rest |
| Rows.WhereInAll | dashboard/dashboard.py:35-36 | selecting by a key list that covers every row keeps all rows |
| Rows.LatestTime | dashboard/dashboard.py:65 | the maximal purchase time is held by some row and no row is later |
| Rows.LatestDate | dashboard/dashboard.py:78 | the latest calendar date is the date of some row, and no row's date is later |
| Rows.EarliestDate | dashboard/dashboard.py:11 | the earliest calendar date is the date of some row, and no row's date is earlier |
| Rows.EarliestNotAfterLatest | dashboard/dashboard.py:11 | the resampled span is never negative |
| Rows.DateOfLatestTime | dashboard/dashboard.py:77-78 | the date of the latest time is the latest date |
| DateWindow.FilterByDate | dashboard/dashboard.py:113-118 | a row is kept exactly when its time lies between midnight of the start date and midnight of the day after the end date, both ends included |
| DateWindow.InWindow | dashboard/dashboard.py:115-118 | definition: the mask, from midnight of the start date to midnight of the day after the end date, both ends included |
| DateWindow.FilterByDateCounts | dashboard/dashboard.py:115-118 | a kept row is kept as often as it occurs; a dropped row not at all |
| DateWindow.FilterByDateInOrder | dashboard/dashboard.py:115-118 | the kept rows are a subsequence of the loaded rows |
| DateWindow.FilterByDateEmpty | dashboard/dashboard.py:113-118 | a start more than one day after the end keeps nothing |
| DateWindow.StartAfterEndKeepsMidnight | dashboard/dashboard.py:113-118 | with the start one day after the end, a purchase at exactly midnight of the start date is still kept |
| DateWindow.OneDayKeepsNextMidnight | dashboard/dashboard.py:113-118 | a one-day range also keeps a purchase at midnight of the following date, which the intended selection leaves out |
| DateWindow.FullRangeKeepsAll | dashboard/dashboard.py:105-118 | a range covering every purchase date keeps every row, in order |
| DateWindow.DefaultRangeKeepsAll | dashboard/dashboard.py:97-118 | the initial range, from the earliest to the latest date, keeps the loaded rows unchanged |
| DateWindow.SelectDates | dashboard/dashboard.py:112-118 | the intended filter keeps exactly the rows whose date lies between start and end, both included |
| DateWindow.SelectDatesCounts | dashboard/dashboard.py:112-118 | the intended filter keeps each selected row as often as it occurs |
| DateWindow.SelectDatesInOrder | dashboard/dashboard.py:112-118 | the intended filter yields a subsequence |
| DateWindow.SelectDatesEmpty | dashboard/dashboard.py:112-118 | the intended filter is empty whenever start is after end |
| DateWindow.FilterByDateVersusSelectDates | dashboard/dashboard.py:112-118 | the filter as written keeps the intended rows plus exactly the purchases at midnight after the end date |
| DailyOrders.OnDate | dashboard/dashboard.py:11 | one day's bin holds exactly the rows of that date; its multiplicities are fixed by DailyOrders.OnDateCounts |
| DailyOrders.OnDateCounts | dashboard/dashboard.py:11 | a day's bin keeps each row of that date exactly as often as it occurs, and no other row |
| DailyOrders.InDates | dashboard/dashboard.py:11 | a span of bins holds exactly the rows dated in it; its multiplicities are fixed by DailyOrders.InDatesCounts |
| DailyOrders.InDatesCounts | dashboard/dashboard.py:11 | a span of dates keeps each row dated in it exactly as often as it occurs, and no other row |
| DailyOrders.Bins | dashboard/dashboard.py:11-13 | one row per date of the span, ascending, each holding its date's distinct order count and summed value |
| DailyOrders.DailyOrders | dashboard/dashboard.py:10-19 | empty input gives an empty table; otherwise one row for every date from the earliest to the latest, ascending, each holding that date's distinct order count and revenue |
| DailyOrders.ZeroFilledDates | dashboard/dashboard.py:11-13 | a row has order count 0 exactly when no purchase falls on its date |
| DailyOrders.EveryDateSummarised | dashboard/dashboard.py:11 | every purchase date has its row |
| DailyOrders.InDatesAll | dashboard/dashboard.py:11 | a span covering every date keeps all rows |
| DailyOrders.InDatesSplit | dashboard/dashboard.py:11-12 | splitting off the first date splits the summed value |
| DailyOrders.BinsRevenue | dashboard/dashboard.py:11-12 | the revenues of a span of bins add up to the value of its rows |
| DailyOrders.BinsRevenueCovering | dashboard/dashboard.py:11-12 | bins covering every date add up to the total value |
| DailyOrders.SumRevenue | dashboard/dashboard.py:139 | definition: the sum of the revenue column |
| DailyOrders.SumOrderCount | dashboard/dashboard.py:134 | definition: the sum of the order-count column |
| DailyOrders.DailyRevenueTotal | dashboard/dashboard.py:138-139 | the total revenue metric equals the summed item value of the selection |
| DailyOrders.OrdersSplit | dashboard/dashboard.py:12 | the orders of a span are those of its first date plus those of the rest |
| DailyOrders.OrdersDisjoint | dashboard/dashboard.py:12 | with one date per order, the first date shares no order with the rest |
| DailyOrders.BinsOrderCount | dashboard/dashboard.py:12 | with one date per order, the order counts of a span add up to its distinct orders |
| DailyOrders.BinsOrderCountCovering | dashboard/dashboard.py:12 | bins covering every date count every distinct order once |
| DailyOrders.DailyOrderCountTotal | dashboard/dashboard.py:134 | the total orders metric equals the distinct order count when no order spans two dates |
| DailyOrders.OrderTotalWhenOneDate | dashboard/dashboard.py:134 | when no order spans two dates, the order-count column sums to the distinct order count |
| DailyOrders.OrderOverTwoDatesCountedTwice | dashboard/dashboard.py:134 | one order with items on two dates is counted twice by the total orders metric |
| DailyOrders.TwoDatesSpan | dashboard/dashboard.py:11 | two rows on dates 0 and 1 span the dates 0 to 1 |
| DailyOrders.TwoDatesOneOrderEach | dashboard/dashboard.py:12 | each of those two dates holds the one shared order |
| CategoryTables.Tally | dashboard/dashboard.py:24-25 | one row per key, in key order, holding the key's distinct order count or summed value |
| CategoryTables.InsertDescending | dashboard/dashboard.py:26 | insertion keeps the order from the largest figure down and adds one row |
| CategoryTables.InsertPermutes | dashboard/dashboard.py:26 | insertion adds exactly the inserted row |
| CategoryTables.InsertSum | dashboard/dashboard.py:26 | insertion adds the row's figure to the sum |
| CategoryTables.InsertBehindHead | dashboard/dashboard.py:26 | inserting a row of a new category into the tail of a list with distinct categories yields no row sharing the head's category |
| CategoryTables.InsertKeepsDistinct | dashboard/dashboard.py:26 | inserting a new category keeps the categories distinct |
| CategoryTables.SortDescending | dashboard/dashboard.py:26 | the sorted table runs from the largest figure down and has the same length |
| CategoryTables.SortPermutes | dashboard/dashboard.py:26 | sorting is a permutation |
| CategoryTables.SortSum | dashboard/dashboard.py:37 | sorting keeps the sum of the figures |
| CategoryTables.SortKeepsDistinct | dashboard/dashboard.py:26 | sorting keeps the categories distinct |
| CategoryTables.Ranking | dashboard/dashboard.py:23-27 | a ranking runs from the largest figure down, with one row per distinct category |
| CategoryTables.RankingDistinct | dashboard/dashboard.py:24-26 | no category is listed twice |
| CategoryTables.PermutationMembers | dashboard/dashboard.py:26 | a permutation holds the same rows |
| CategoryTables.RankingTallies | dashboard/dashboard.py:24-26 | every ranked row holds a category that occurs, with that category's own figure |
| CategoryTables.RankingCovers | dashboard/dashboard.py:24-26 | every category that occurs has its row |
| CategoryTables.OrderCountBounds | dashboard/dashboard.py:25 | a category's order count is at least 1 and at most its number of rows |
| CategoryTables.CategoryOrderCounts | dashboard/dashboard.py:22-30 | one row per category, each with that category's distinct order count between 1 and its row count, from the largest down |
| CategoryTables.CategoryRevenue | dashboard/dashboard.py:33-41 | one row per category, each with that category's summed item value, from the largest down |
| CategoryTables.TallyRevenue | dashboard/dashboard.py:35-36 | the revenues of distinct keys add up to the value of the rows carrying those keys |
| CategoryTables.CategoryRevenueTotal | dashboard/dashboard.py:33-41 | the category revenues add up to the total item value of the selection |
| Geography.CustomerCounts | dashboard/dashboard.py:46 | one row per key, in key order, holding that key's distinct customer count |
| Geography.CustomerCountBounds | dashboard/dashboard.py:46 | a region that occurs has at least one customer and no more customers than rows |
| Geography.ByRegion | dashboard/dashboard.py:46 | one row per region, regions strictly ascending, each holding its distinct customer count |
| Geography.ByRegionCovers | dashboard/dashboard.py:46 | a value is listed exactly when the column takes it |
| Geography.ByRegionBounds | dashboard/dashboard.py:46 | every customer count lies between 1 and its region's row count |
| Geography.ByState | dashboard/dashboard.py:44-50 | one row per state that occurs, states ascending, each with its distinct customer count between 1 and its row count |
| Geography.ByCity | dashboard/dashboard.py:53-59 | one row per city that occurs, cities ascending, each with its distinct customer count between 1 and its row count |
| Geography.RegionsUnique | dashboard/dashboard.py:46 | no region is listed twice |
| Rfm.CustomerOccurs | dashboard/dashboard.py:63 | a customer that occurs has a non-empty group |
| Rfm.RfmRowOf | dashboard/dashboard.py:63-81 | one customer's row holds its distinct order count, its summed value, and the latest date of the selection minus the date of its latest purchase |
| Rfm.RfmRows | dashboard/dashboard.py:63-81 | one row per key, in key order, each the RFM summary of its customer |
| Rfm.Rfm | dashboard/dashboard.py:62-85 | one row per distinct customer, customers ascending, each the RFM summary of its own rows |
| Rfm.RfmCovers | dashboard/dashboard.py:63 | a customer is listed exactly when it occurs in the selection |
| Rfm.RfmOfBounds | dashboard/dashboard.py:66-81 | frequency is at least 1 and at most the customer's row count; recency is never negative |
| Rfm.RfmBounds | dashboard/dashboard.py:66-81 | every row of the table has those bounds |
| Rfm.RecencyZeroIff | dashboard/dashboard.py:77-81 | recency is 0 exactly when the customer bought on the latest date of the selection |
| Rfm.LatestBuyerRecencyZero | dashboard/dashboard.py:77-81 | a customer with a purchase on the latest date is listed with recency 0, whatever its number of orders |
| Rfm.SomeRecencyZero | dashboard/dashboard.py:77-81 | a non-empty selection has a customer with recency 0 |
| Rfm.RfmRowsMonetary | dashboard/dashboard.py:67 | the monetary values of distinct keys add up to the value of the rows carrying those keys |
| Rfm.RfmMonetaryTotal | dashboard/dashboard.py:67 | the monetary column adds up to the total item value of the selection |
| Rfm.TwoOrdersExample | dashboard/dashboard.py:62-85 | orders of one customer on date 1 (value 10) and date 3 (value 20) give the single row with recency 0, frequency 2 and monetary 30 |
| Rfm.ExampleCustomers | dashboard/dashboard.py:63 | two rows of one customer form one group |
| Rfm.ExampleOwn | dashboard/dashboard.py:63 | that customer's group is both rows |
| Rfm.ExampleOrders | dashboard/dashboard.py:66 | two different order ids count as two |
| Rfm.ExampleDates | dashboard/dashboard.py:65-78 | the latest date and the date of the latest time of the example are date 3, and its value is the sum of both |
| Dashboard.Summaries | dashboard/dashboard.py:120-139 | the six tables of a selection; the revenue total is the selection's summed value, and the order total is its distinct order count when no order spans two dates |
| Dashboard.Refresh | dashboard/dashboard.py:113-139 | a refresh summarises the filtered rows; its revenue total is their summed value, and its order total is their distinct order count when no order spans two dates |
| Dashboard.IntendedRefresh | dashboard/dashboard.py:112-139 | a refresh with the intended filter summarises the rows dated in the range; its totals are their summed value and, with one date per order, their distinct order count |
| Dashboard.OneDatePerOrderKept | dashboard/dashboard.py:115-118 | filtering keeps every order on one date |
| Dashboard.NothingSelected | dashboard/dashboard.py:120-139 | an empty selection gives six empty tables and zero totals |
| Dashboard.StartAfterEndEmptiesTables | dashboard/dashboard.py:113-139 | a start more than one day after the end empties every table |
| Dashboard.IntendedStartAfterEndEmptiesTables | dashboard/dashboard.py:112-139 | with the intended filter, any start after the end empties every table |
| Dashboard.DefaultRangeSummarisesAll | dashboard/dashboard.py:97-125 | the initial range summarises every loaded row |

## Left out

- Loading the CSV and parsing its timestamps (lines 88-95): file I/O. The model starts from a sequence of rows.
- The initial sort by purchase time (line 91) and the index reset. No aggregation depends on row order, and the filter keeps whatever order it receives.
- The Streamlit page: sidebar, widgets, headers, metrics and charts (lines 100-111, 127-355). This is presentation. The user's two dates are parameters of `Dashboard.Refresh`. The date picker's single-date case is not modelled.
- Currency formatting with babel (lines 138-141 and 301). Only the number being formatted is modelled.
- The averages of recency, frequency and monetary and their rounding (lines 293-302). These are floating-point presentation.
- The `head()` slices and re-sorts that only select rows for charts.
- Floating-point item values. Values are integer cents.
- Missing (NaN) keys, which grouping drops. Every model row has a key.
- CategoryTables.SortDescending: does not fix the order of equal figures. The library's default sort is not stable, so that order is unspecified.
- DailyOrders.DailyOrderCountTotal: proved only when every order is purchased on a single date. DailyOrders.OrderOverTwoDatesCountedTwice shows the total over-counts otherwise.

## Findings

| source | as written | input that shows it | evidently intended | confidence | as-written member | corrected member |
|---|---|---|---|---|---|---|
| dashboard/dashboard.py:112-118 | the end bound is midnight of the day after the end date, and it is compared with `<=`, so that instant is kept | start date 1, end date 0, and one purchase at exactly midnight of date 1: that row is kept, so the range is not empty. With start and end both 0, the same purchase is kept although it falls on date 1 (`DateWindow.OneDayKeepsNextMidnight`) | an inclusive range of calendar dates: start date <= purchase date <= end date, empty when start is after end | not executed | DateWindow.StartAfterEndKeepsMidnight | DateWindow.SelectDatesEmpty |
