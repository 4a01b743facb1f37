/** One refresh of the dashboard: the loaded rows are cut down to the
    chosen date range and every summary table, together with the two
    headline totals, is recomputed from the selection. */
module Dashboard {
  import opened Rows
  import opened DateWindow
  import opened DailyOrders
  import opened CategoryTables
  import opened Geography
  import opened Rfm

  /** Everything one refresh derives from the selection. */
  datatype Tables = Tables(
    daily: seq<DailyRow>,
    categoryOrders: seq<CategoryRow>,
    categoryRevenue: seq<CategoryRow>,
    byState: seq<RegionRow>,
    byCity: seq<RegionRow>,
    rfm: seq<RfmRow>,
    totalOrders: int,
    totalRevenue: int)

  /** The six tables of a selection, and the totals read off the daily
      table. */
  function Summaries(sel: seq<Row>): (t: Tables)
    ensures t.totalRevenue == TotalValue(sel)
    ensures OneDatePerOrder(sel) ==> t.totalOrders == |Distinct(sel, OrderId)|
  {
    var daily := DailyOrders.DailyOrders(sel);
    DailyRevenueTotal(sel);
    OrderTotalWhenOneDate(sel);
    Tables(daily, CategoryOrderCounts(sel), CategoryRevenue(sel), ByState(sel), ByCity(sel),
           Rfm.Rfm(sel), SumOrderCount(daily), SumRevenue(daily))
  }

  /** A refresh for the range [startDate, endDate] as the code filters it. */
  function Refresh(rows: seq<Row>, startDate: int, endDate: int): (t: Tables)
    ensures t == Summaries(FilterByDate(rows, startDate, endDate))
    ensures t.totalRevenue == TotalValue(FilterByDate(rows, startDate, endDate))
    ensures OneDatePerOrder(rows) ==>
              t.totalOrders == |Distinct(FilterByDate(rows, startDate, endDate), OrderId)|
  {
    var sel := FilterByDate(rows, startDate, endDate);
    OneDatePerOrderKept(rows, sel);
    Summaries(sel)
  }

  /** A refresh with the intended inclusive range of dates. */
  function IntendedRefresh(rows: seq<Row>, startDate: int, endDate: int): (t: Tables)
    ensures t == Summaries(SelectDates(rows, startDate, endDate))
    ensures t.totalRevenue == TotalValue(SelectDates(rows, startDate, endDate))
    ensures OneDatePerOrder(rows) ==>
              t.totalOrders == |Distinct(SelectDates(rows, startDate, endDate), OrderId)|
  {
    var sel := SelectDates(rows, startDate, endDate);
    OneDatePerOrderKept(rows, sel);
    Summaries(sel)
  }

  /** Selecting rows keeps every order on one date. */
  lemma OneDatePerOrderKept(rows: seq<Row>, sel: seq<Row>)
    requires forall r :: r in sel ==> r in rows
    ensures OneDatePerOrder(rows) ==> OneDatePerOrder(sel)
  {
  }

  /** No table has a row and both totals are zero. */
  predicate AllEmpty(t: Tables) {
    t.daily == [] && t.categoryOrders == [] && t.categoryRevenue == []
    && t.byState == [] && t.byCity == [] && t.rfm == []
    && t.totalOrders == 0 && t.totalRevenue == 0
  }

  /** The tables of an empty selection are all empty. */
  lemma NothingSelected()
    ensures AllEmpty(Summaries([]))
  {
    var t := Summaries([]);
    assert Distinct([], Category) == {} && Distinct([], State) == {};
    assert Distinct([], City) == {} && Distinct([], CustomerId) == {};
    assert |t.categoryOrders| == 0 && |t.categoryRevenue| == 0;
    assert |t.byState| == 0 && |t.byCity| == 0 && |t.rfm| == 0;
  }

  /** A start more than one day after the end leaves every table empty. */
  lemma StartAfterEndEmptiesTables(rows: seq<Row>, startDate: int, endDate: int)
    requires startDate > endDate + 1
    ensures AllEmpty(Refresh(rows, startDate, endDate))
  {
    FilterByDateEmpty(rows, startDate, endDate);
    NothingSelected();
  }

  /** With the intended selection any start after the end leaves every
      table empty. */
  lemma IntendedStartAfterEndEmptiesTables(rows: seq<Row>, startDate: int, endDate: int)
    requires startDate > endDate
    ensures AllEmpty(IntendedRefresh(rows, startDate, endDate))
  {
    SelectDatesEmpty(rows, startDate, endDate);
    NothingSelected();
  }

  /** The initial range, from the earliest to the latest purchase date,
      summarises every loaded row. */
  lemma DefaultRangeSummarisesAll(rows: seq<Row>)
    requires rows != []
    ensures Refresh(rows, EarliestDate(rows), LatestDate(rows)) == Summaries(rows)
  {
    DefaultRangeKeepsAll(rows);
  }
}
