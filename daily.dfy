/** Per-day resampling of the selected rows: one summary row for every
    calendar date from the earliest to the latest purchase, dates without
    purchases included with zero counts, each holding the number of
    distinct orders and the summed item value of that date. */
module DailyOrders {
  import opened Rows

  datatype DailyRow = DailyRow(date: int, orderCount: nat, revenue: int)

  /** The rows purchased on one calendar date. */
  function OnDate(rows: seq<Row>, d: int): (sel: seq<Row>)
    ensures forall r :: r in sel <==> r in rows && Day(r.purchaseTime) == d
  {
    if rows == [] then []
    else
      assert forall r :: r in rows <==> r == rows[0] || r in rows[1..];
      (if Day(rows[0].purchaseTime) == d then [rows[0]] else []) + OnDate(rows[1..], d)
  }

  /** The rows purchased on a date in [lo, hi). */
  function InDates(rows: seq<Row>, lo: int, hi: int): (sel: seq<Row>)
    ensures forall r :: r in sel <==> r in rows && lo <= Day(r.purchaseTime) < hi
  {
    if rows == [] then []
    else
      assert forall r :: r in rows <==> r == rows[0] || r in rows[1..];
      (if lo <= Day(rows[0].purchaseTime) < hi then [rows[0]] else []) + InDates(rows[1..], lo, hi)
  }

  /** A date's bin keeps each of its rows as often as it occurs. */
  lemma {:induction false} OnDateCounts(rows: seq<Row>, d: int)
    ensures forall r :: multiset(OnDate(rows, d))[r]
                     == (if Day(r.purchaseTime) == d then multiset(rows)[r] else 0)
  {
    if rows != [] {
      OnDateCounts(rows[1..], d);
      assert rows == [rows[0]] + rows[1..];
    }
  }

  /** A span of dates keeps each of its rows as often as it occurs. */
  lemma {:induction false} InDatesCounts(rows: seq<Row>, lo: int, hi: int)
    ensures forall r :: multiset(InDates(rows, lo, hi))[r]
                     == (if lo <= Day(r.purchaseTime) < hi then multiset(rows)[r] else 0)
  {
    if rows != [] {
      InDatesCounts(rows[1..], lo, hi);
      assert rows == [rows[0]] + rows[1..];
    }
  }

  /** A summary row holds the distinct order count and the summed item
      value of the rows purchased on its date. */
  predicate Summarises(rows: seq<Row>, b: DailyRow) {
    b.orderCount == |Distinct(OnDate(rows, b.date), OrderId)|
    && b.revenue == TotalValue(OnDate(rows, b.date))
  }

  /** One summary row per date in [lo, hi), ascending. */
  function Bins(rows: seq<Row>, lo: int, hi: int): (t: seq<DailyRow>)
    requires lo <= hi
    ensures |t| == hi - lo
    ensures forall i :: 0 <= i < |t| ==> t[i].date == lo + i && Summarises(rows, t[i])
    decreases hi - lo
  {
    if lo == hi then []
    else
      var own := OnDate(rows, lo);
      var rest := Bins(rows, lo + 1, hi);
      var t := [DailyRow(lo, |Distinct(own, OrderId)|, TotalValue(own))] + rest;
      assert forall i :: 1 <= i < |t| ==> t[i] == rest[i - 1];
      t
  }

  /** resample("D") over the purchase time, aggregating nunique order ids
      and summed item values: every date from the earliest purchase to the
      latest, in ascending order, each summarised from its own rows. */
  function DailyOrders(rows: seq<Row>): (t: seq<DailyRow>)
    ensures rows == [] ==> t == []
    ensures rows != [] ==> |t| == LatestDate(rows) - EarliestDate(rows) + 1
    ensures rows != [] ==> forall i :: 0 <= i < |t| ==> t[i].date == EarliestDate(rows) + i
    ensures forall i :: 0 <= i < |t| ==> Summarises(rows, t[i])
  {
    if rows == [] then []
    else
      EarliestNotAfterLatest(rows);
      Bins(rows, EarliestDate(rows), LatestDate(rows) + 1)
  }

  /** Dates inside the span without purchases are present with a zero
      order count; dates with purchases have a positive one. */
  lemma ZeroFilledDates(rows: seq<Row>, i: int)
    requires 0 <= i < |DailyOrders(rows)|
    ensures DailyOrders(rows)[i].orderCount == 0 <==> OnDate(rows, DailyOrders(rows)[i].date) == []
  {
    assert Summarises(rows, DailyOrders(rows)[i]);
  }

  /** Every purchase date has its summary row. */
  lemma EveryDateSummarised(rows: seq<Row>, r: Row)
    requires r in rows
    ensures exists i :: 0 <= i < |DailyOrders(rows)| && DailyOrders(rows)[i].date == Day(r.purchaseTime)
  {
    var t := DailyOrders(rows);
    var i := Day(r.purchaseTime) - EarliestDate(rows);
    assert t[i].date == Day(r.purchaseTime);
  }

  function SumRevenue(t: seq<DailyRow>): int {
    if t == [] then 0 else t[0].revenue + SumRevenue(t[1..])
  }

  function SumOrderCount(t: seq<DailyRow>): int {
    if t == [] then 0 else t[0].orderCount + SumOrderCount(t[1..])
  }

  /** Each order id is purchased on one calendar date only (all items of an
      order share its purchase time in the export). */
  predicate OneDatePerOrder(rows: seq<Row>) {
    forall r1, r2 :: r1 in rows && r2 in rows && r1.orderId == r2.orderId
      ==> Day(r1.purchaseTime) == Day(r2.purchaseTime)
  }

  lemma {:induction false} InDatesAll(rows: seq<Row>, lo: int, hi: int)
    requires forall r :: r in rows ==> lo <= Day(r.purchaseTime) < hi
    ensures InDates(rows, lo, hi) == rows
  {
    if rows != [] {
      InDatesAll(rows[1..], lo, hi);
    }
  }

  /** Splitting off the first date splits the total value. */
  lemma {:induction false} InDatesSplit(rows: seq<Row>, lo: int, hi: int)
    requires lo < hi
    ensures TotalValue(InDates(rows, lo, hi))
         == TotalValue(OnDate(rows, lo)) + TotalValue(InDates(rows, lo + 1, hi))
  {
    if rows != [] {
      InDatesSplit(rows[1..], lo, hi);
      var d := Day(rows[0].purchaseTime);
      var h := if lo <= d < hi then [rows[0]] else [];
      TotalValueAppend(h, InDates(rows[1..], lo, hi));
      var h0 := if d == lo then [rows[0]] else [];
      TotalValueAppend(h0, OnDate(rows[1..], lo));
      var h1 := if lo + 1 <= d < hi then [rows[0]] else [];
      TotalValueAppend(h1, InDates(rows[1..], lo + 1, hi));
    }
  }

  lemma {:induction false} BinsRevenue(rows: seq<Row>, lo: int, hi: int)
    requires lo <= hi
    ensures SumRevenue(Bins(rows, lo, hi)) == TotalValue(InDates(rows, lo, hi))
    decreases hi - lo
  {
    if lo != hi {
      BinsRevenue(rows, lo + 1, hi);
      InDatesSplit(rows, lo, hi);
      assert Bins(rows, lo, hi)[1..] == Bins(rows, lo + 1, hi);
    }
  }

  lemma BinsRevenueCovering(rows: seq<Row>, lo: int, hi: int)
    requires lo <= hi
    requires forall r :: r in rows ==> lo <= Day(r.purchaseTime) < hi
    ensures SumRevenue(Bins(rows, lo, hi)) == TotalValue(rows)
  {
    BinsRevenue(rows, lo, hi);
    InDatesAll(rows, lo, hi);
  }

  /** The revenue column sums to the total item value of the rows: the
      total revenue metric equals the selection's total. */
  lemma DailyRevenueTotal(rows: seq<Row>)
    ensures SumRevenue(DailyOrders(rows)) == TotalValue(rows)
  {
    if rows != [] {
      var lo, hi := EarliestDate(rows), LatestDate(rows);
      EarliestNotAfterLatest(rows);
      BinsRevenueCovering(rows, lo, hi + 1);
    }
  }

  /** The orders of [lo, hi) are those of lo and those of (lo, hi). */
  lemma OrdersSplit(rows: seq<Row>, lo: int, hi: int)
    requires lo < hi
    ensures Distinct(InDates(rows, lo, hi), OrderId)
         == Distinct(OnDate(rows, lo), OrderId) + Distinct(InDates(rows, lo + 1, hi), OrderId)
  {
    DistinctMembers(InDates(rows, lo, hi), OrderId);
    DistinctMembers(OnDate(rows, lo), OrderId);
    DistinctMembers(InDates(rows, lo + 1, hi), OrderId);
  }

  /** With one date per order, no order belongs to two different dates. */
  lemma OrdersDisjoint(rows: seq<Row>, lo: int, hi: int)
    requires OneDatePerOrder(rows)
    ensures Distinct(OnDate(rows, lo), OrderId) !! Distinct(InDates(rows, lo + 1, hi), OrderId)
  {
    DistinctMembers(OnDate(rows, lo), OrderId);
    DistinctMembers(InDates(rows, lo + 1, hi), OrderId);
  }

  lemma {:induction false} BinsOrderCount(rows: seq<Row>, lo: int, hi: int)
    requires lo <= hi
    requires OneDatePerOrder(rows)
    ensures SumOrderCount(Bins(rows, lo, hi)) == |Distinct(InDates(rows, lo, hi), OrderId)|
    decreases hi - lo
  {
    if lo != hi {
      BinsOrderCount(rows, lo + 1, hi);
      assert Bins(rows, lo, hi)[1..] == Bins(rows, lo + 1, hi);
      OrdersSplit(rows, lo, hi);
      OrdersDisjoint(rows, lo, hi);
    }
  }

  lemma BinsOrderCountCovering(rows: seq<Row>, lo: int, hi: int)
    requires lo <= hi
    requires OneDatePerOrder(rows)
    requires forall r :: r in rows ==> lo <= Day(r.purchaseTime) < hi
    ensures SumOrderCount(Bins(rows, lo, hi)) == |Distinct(rows, OrderId)|
  {
    BinsOrderCount(rows, lo, hi);
    InDatesAll(rows, lo, hi);
  }

  /** The order-count column sums to the number of distinct orders of the
      rows (the total orders metric), provided no order spans two dates. */
  lemma DailyOrderCountTotal(rows: seq<Row>)
    requires OneDatePerOrder(rows)
    ensures SumOrderCount(DailyOrders(rows)) == |Distinct(rows, OrderId)|
  {
    if rows != [] {
      var lo, hi := EarliestDate(rows), LatestDate(rows);
      EarliestNotAfterLatest(rows);
      BinsOrderCountCovering(rows, lo, hi + 1);
    }
  }

  /** The order total read off the daily table, whenever no order spans
      two dates. */
  lemma OrderTotalWhenOneDate(rows: seq<Row>)
    ensures OneDatePerOrder(rows) ==> SumOrderCount(DailyOrders(rows)) == |Distinct(rows, OrderId)|
  {
    if OneDatePerOrder(rows) {
      DailyOrderCountTotal(rows);
    }
  }

  /** Without that proviso an order whose items fall on two dates is counted
      on each of them. */
  lemma OrderOverTwoDatesCountedTwice(a: Row, b: Row)
    requires a.orderId == b.orderId && a.purchaseTime == Midnight(0) && b.purchaseTime == Midnight(1)
    ensures |Distinct([a, b], OrderId)| == 1
    ensures SumOrderCount(DailyOrders([a, b])) == 2
  {
    var rows := [a, b];
    assert Distinct(rows, OrderId) == {a.orderId} by {
      DistinctCons(a, [b], OrderId);
      DistinctCons(b, [], OrderId);
      assert [a] + [b] == rows && [b] + [] == [b];
    }
    TwoDatesSpan(a, b);
    TwoDatesOneOrderEach(a, b);
    var t := DailyOrders(rows);
    assert Summarises(rows, t[0]) && Summarises(rows, t[1]);
    assert t[1..][1..] == [];
    assert SumOrderCount(t[1..]) == t[1].orderCount;
  }

  lemma TwoDatesSpan(a: Row, b: Row)
    requires Day(a.purchaseTime) == 0 && Day(b.purchaseTime) == 1
    ensures EarliestDate([a, b]) == 0 && LatestDate([a, b]) == 1
  {
    assert [a, b][1..] == [b];
  }

  lemma TwoDatesOneOrderEach(a: Row, b: Row)
    requires a.orderId == b.orderId && Day(a.purchaseTime) == 0 && Day(b.purchaseTime) == 1
    ensures Distinct(OnDate([a, b], 0), OrderId) == {a.orderId}
    ensures Distinct(OnDate([a, b], 1), OrderId) == {a.orderId}
  {
    var rows := [a, b];
    assert a in OnDate(rows, 0) && b in OnDate(rows, 1);
    DistinctMembers(OnDate(rows, 0), OrderId);
    DistinctMembers(OnDate(rows, 1), OrderId);
  }
}
