/** The date-range filter applied to the loaded rows before any aggregation.
    The chosen end date is moved one day forward and compared with `<=`, so a
    purchase at exactly midnight after the end date is kept as well. */
module DateWindow {
  import opened Rows

  /** a is b with some elements left out, the others in the same order. */
  predicate IsSubsequence(a: seq<Row>, b: seq<Row>)
    decreases |b|
  {
    if a == [] then true
    else if b == [] then false
    else (a[0] == b[0] && IsSubsequence(a[1..], b[1..])) || IsSubsequence(a, b[1..])
  }

  /** The mask of the code: from midnight of the start date up to and
      including midnight of the day after the end date. */
  predicate InWindow(t: int, startDate: int, endDate: int) {
    Midnight(startDate) <= t <= Midnight(endDate + 1)
  }

  /** The filter as written: keeps exactly the rows inside the window. */
  function FilterByDate(rows: seq<Row>, startDate: int, endDate: int): (kept: seq<Row>)
    ensures forall r :: r in kept <==>
                     r in rows && Midnight(startDate) <= r.purchaseTime <= Midnight(endDate + 1)
  {
    if rows == [] then []
    else
      assert forall r :: r in rows <==> r == rows[0] || r in rows[1..];
      (if InWindow(rows[0].purchaseTime, startDate, endDate) then [rows[0]] else [])
        + FilterByDate(rows[1..], startDate, endDate)
  }

  /** Each kept row is kept as often as it occurs. */
  lemma {:induction false} FilterByDateCounts(rows: seq<Row>, startDate: int, endDate: int)
    ensures forall r :: multiset(FilterByDate(rows, startDate, endDate))[r]
                     == (if InWindow(r.purchaseTime, startDate, endDate) then multiset(rows)[r] else 0)
  {
    if rows != [] {
      FilterByDateCounts(rows[1..], startDate, endDate);
      assert rows == [rows[0]] + rows[1..];
    }
  }

  /** The kept rows keep their relative order. */
  lemma {:induction false} FilterByDateInOrder(rows: seq<Row>, startDate: int, endDate: int)
    ensures IsSubsequence(FilterByDate(rows, startDate, endDate), rows)
  {
    if rows != [] {
      FilterByDateInOrder(rows[1..], startDate, endDate);
      var rest := FilterByDate(rows[1..], startDate, endDate);
      if InWindow(rows[0].purchaseTime, startDate, endDate) {
        assert ([rows[0]] + rest)[1..] == rest;
      } else {
        assert FilterByDate(rows, startDate, endDate) == rest;
      }
    }
  }

  /** A start date more than one day after the end date selects nothing. */
  lemma FilterByDateEmpty(rows: seq<Row>, startDate: int, endDate: int)
    requires startDate > endDate + 1
    ensures FilterByDate(rows, startDate, endDate) == []
  {
  }

  /** With start one day after end the window still holds one instant:
      a single purchase at that midnight survives the filter. */
  lemma StartAfterEndKeepsMidnight(r: Row)
    requires r.purchaseTime == Midnight(1)
    ensures FilterByDate([r], 1, 0) == [r]
  {
    var kept := FilterByDate([r], 1, 0);
    FilterByDateCounts([r], 1, 0);
    assert r in kept;
    assert multiset(kept)[r] == 1;
    assert |multiset(kept)| == 1 by {
      assert forall x :: x != r ==> multiset(kept)[x] == 0;
      assert multiset(kept) == multiset{r};
    }
  }

  /** A one-day range also keeps a purchase at the following midnight,
      which the intended selection leaves out. */
  lemma OneDayKeepsNextMidnight(r: Row)
    requires r.purchaseTime == Midnight(1)
    ensures FilterByDate([r], 0, 0) == [r]
    ensures SelectDates([r], 0, 0) == []
  {
    assert [r][1..] == [];
    assert InWindow(r.purchaseTime, 0, 0);
  }

  /** Start at the earliest date and end at the latest keeps every row in
      order, which is the dashboard's initial selection. */
  lemma {:induction false} FullRangeKeepsAll(rows: seq<Row>, startDate: int, endDate: int)
    requires forall r :: r in rows ==> startDate <= Day(r.purchaseTime) <= endDate
    ensures FilterByDate(rows, startDate, endDate) == rows
  {
    if rows != [] {
      FullRangeKeepsAll(rows[1..], startDate, endDate);
      var t := rows[0].purchaseTime;
      DayMonotone(Midnight(startDate), t);
      DayMonotone(t, Midnight(endDate + 1));
      assert InWindow(t, startDate, endDate);
    }
  }

  lemma DefaultRangeKeepsAll(rows: seq<Row>)
    requires rows != []
    ensures FilterByDate(rows, EarliestDate(rows), LatestDate(rows)) == rows
  {
    FullRangeKeepsAll(rows, EarliestDate(rows), LatestDate(rows));
  }

  /** The evidently intended selection: the rows whose calendar date lies
      between the start and end dates, both inclusive. */
  function SelectDates(rows: seq<Row>, startDate: int, endDate: int): (kept: seq<Row>)
    ensures forall r :: r in kept <==> r in rows && startDate <= Day(r.purchaseTime) <= endDate
  {
    if rows == [] then []
    else
      assert forall r :: r in rows <==> r == rows[0] || r in rows[1..];
      (if startDate <= Day(rows[0].purchaseTime) <= endDate then [rows[0]] else [])
        + SelectDates(rows[1..], startDate, endDate)
  }

  lemma {:induction false} SelectDatesCounts(rows: seq<Row>, startDate: int, endDate: int)
    ensures forall r :: multiset(SelectDates(rows, startDate, endDate))[r]
                     == (if startDate <= Day(r.purchaseTime) <= endDate then multiset(rows)[r] else 0)
  {
    if rows != [] {
      SelectDatesCounts(rows[1..], startDate, endDate);
      assert rows == [rows[0]] + rows[1..];
    }
  }

  lemma {:induction false} SelectDatesInOrder(rows: seq<Row>, startDate: int, endDate: int)
    ensures IsSubsequence(SelectDates(rows, startDate, endDate), rows)
  {
    if rows != [] {
      SelectDatesInOrder(rows[1..], startDate, endDate);
      var rest := SelectDates(rows[1..], startDate, endDate);
      if startDate <= Day(rows[0].purchaseTime) <= endDate {
        assert ([rows[0]] + rest)[1..] == rest;
      } else {
        assert SelectDates(rows, startDate, endDate) == rest;
      }
    }
  }

  /** The intended selection is empty whenever start is after end. */
  lemma SelectDatesEmpty(rows: seq<Row>, startDate: int, endDate: int)
    requires startDate > endDate
    ensures SelectDates(rows, startDate, endDate) == []
  {
  }

  /** The filter as written keeps the intended rows and, besides them,
      exactly the purchases at midnight after the end date. */
  lemma FilterByDateVersusSelectDates(rows: seq<Row>, startDate: int, endDate: int, r: Row)
    requires r in rows
    ensures r in FilterByDate(rows, startDate, endDate) <==>
      r in SelectDates(rows, startDate, endDate)
      || (startDate <= endDate + 1 && r.purchaseTime == Midnight(endDate + 1))
  {
    var t := r.purchaseTime;
    if startDate <= Day(t) <= endDate {
      DayMonotone(Midnight(startDate), t);
      DayMonotone(t, Midnight(endDate + 1));
    }
  }
}
