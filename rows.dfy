/** One row of the order export per order item, and the column operations
    the dashboard's aggregations are built from: calendar dates, distinct
    values (nunique), sums, selections and group keys. */
module Rows {
  import opened Ordering

  /** One order item; item values are integer cents. */
  datatype Row = Row(
    orderId: string,
    customerId: string,
    purchaseTime: int,
    category: string,
    state: string,
    city: string,
    itemValue: int)

  /** The text columns that are counted distinct or grouped on. */
  datatype Column = OrderId | CustomerId | Category | State | City

  function Field(r: Row, c: Column): string {
    match c
    case OrderId => r.orderId
    case CustomerId => r.customerId
    case Category => r.category
    case State => r.state
    case City => r.city
  }

  /** Calendar date of a purchase time (seconds counted from midnight of
      date 0, 86400 to a date), time of day discarded: floor division. */
  function Day(t: int): (d: int)
    ensures d * 86400 <= t < d * 86400 + 86400
  {
    t / 86400
  }

  /** Midnight at the start of a calendar date. */
  function Midnight(d: int): (t: int)
    ensures Day(t) == d
    ensures Day(t - 1) == d - 1
  {
    DayUnique(d * 86400, d);
    DayUnique(d * 86400 - 1, d - 1);
    d * 86400
  }

  lemma DayUnique(t: int, d: int)
    requires d * 86400 <= t < d * 86400 + 86400
    ensures Day(t) == d
  {
  }

  lemma DayMonotone(s: int, t: int)
    requires s <= t
    ensures Day(s) <= Day(t)
  {
  }

  /** The values a column takes; pandas' nunique is the size of this set. */
  function Distinct(rows: seq<Row>, c: Column): set<string> {
    if rows == [] then {} else {Field(rows[0], c)} + Distinct(rows[1..], c)
  }

  /** There are at most as many values as rows, and at least one. */
  lemma {:induction false} DistinctSize(rows: seq<Row>, c: Column)
    ensures |Distinct(rows, c)| <= |rows|
    ensures rows != [] ==> |Distinct(rows, c)| >= 1
  {
    if rows != [] {
      DistinctSize(rows[1..], c);
    }
  }

  /** A value is distinct-counted exactly when some row holds it. */
  lemma {:induction false} DistinctMembers(rows: seq<Row>, c: Column)
    ensures forall x :: x in Distinct(rows, c) <==> exists r :: r in rows && Field(r, c) == x
  {
    if rows != [] {
      DistinctMembers(rows[1..], c);
      assert forall r :: r in rows <==> r == rows[0] || r in rows[1..];
    }
  }

  /** Sum of item values, in cents. */
  function TotalValue(rows: seq<Row>): int {
    if rows == [] then 0 else rows[0].itemValue + TotalValue(rows[1..])
  }

  lemma {:induction false} TotalValueAppend(a: seq<Row>, b: seq<Row>)
    ensures TotalValue(a + b) == TotalValue(a) + TotalValue(b)
  {
    if a != [] {
      TotalValueAppend(a[1..], b);
      assert (a + b)[0] == a[0] && (a + b)[1..] == a[1..] + b;
    } else {
      assert a + b == b;
    }
  }

  /** The rows whose column c holds k, in their original order. */
  function Where(rows: seq<Row>, c: Column, k: string): (sel: seq<Row>)
    ensures forall r :: r in sel <==> r in rows && Field(r, c) == k
    ensures |sel| <= |rows|
  {
    if rows == [] then []
    else
      assert forall r :: r in rows <==> r == rows[0] || r in rows[1..];
      (if Field(rows[0], c) == k then [rows[0]] else []) + Where(rows[1..], c, k)
  }

  /** Each selected row is kept as often as it occurs. */
  lemma {:induction false} WhereCounts(rows: seq<Row>, c: Column, k: string)
    ensures forall r :: multiset(Where(rows, c, k))[r]
                     == (if Field(r, c) == k then multiset(rows)[r] else 0)
  {
    if rows != [] {
      WhereCounts(rows[1..], c, k);
      assert rows == [rows[0]] + rows[1..];
    }
  }

  /** The rows whose column c holds one of the keys ks. */
  function WhereIn(rows: seq<Row>, c: Column, ks: seq<string>): seq<Row> {
    if rows == [] then []
    else (if Field(rows[0], c) in ks then [rows[0]] else []) + WhereIn(rows[1..], c, ks)
  }

  lemma WhereInNone(rows: seq<Row>, c: Column)
    ensures WhereIn(rows, c, []) == []
  {
  }

  /** Distinct values of a row followed by more rows. */
  lemma DistinctCons(r: Row, rows: seq<Row>, c: Column)
    ensures Distinct([r] + rows, c) == {Field(r, c)} + Distinct(rows, c)
  {
    assert ([r] + rows)[1..] == rows;
  }

  lemma {:induction false} WhereInAll(rows: seq<Row>, c: Column, ks: seq<string>)
    requires forall r :: r in rows ==> Field(r, c) in ks
    ensures WhereIn(rows, c, ks) == rows
  {
    if rows != [] {
      WhereInAll(rows[1..], c, ks);
    }
  }

  /** Peeling one key off the key list splits the total value. */
  lemma {:induction false} WhereInSplit(rows: seq<Row>, c: Column, ks: seq<string>)
    requires ks != [] && ks[0] !in ks[1..]
    ensures TotalValue(WhereIn(rows, c, ks))
         == TotalValue(Where(rows, c, ks[0])) + TotalValue(WhereIn(rows, c, ks[1..]))
  {
    if rows != [] {
      WhereInSplit(rows[1..], c, ks);
      var f := Field(rows[0], c);
      assert f in ks <==> f == ks[0] || f in ks[1..] by {
        assert ks == [ks[0]] + ks[1..];
      }
      var head := if f in ks then [rows[0]] else [];
      assert WhereIn(rows, c, ks) == head + WhereIn(rows[1..], c, ks);
      TotalValueAppend(head, WhereIn(rows[1..], c, ks));
      var h0 := if f == ks[0] then [rows[0]] else [];
      assert Where(rows, c, ks[0]) == h0 + Where(rows[1..], c, ks[0]);
      TotalValueAppend(h0, Where(rows[1..], c, ks[0]));
      var h1 := if f in ks[1..] then [rows[0]] else [];
      assert WhereIn(rows, c, ks[1..]) == h1 + WhereIn(rows[1..], c, ks[1..]);
      TotalValueAppend(h1, WhereIn(rows[1..], c, ks[1..]));
    }
  }

  /** The distinct values of a column in the order groupby lays them out:
      ascending, each once. */
  function GroupKeys(rows: seq<Row>, c: Column): (ks: seq<string>)
    ensures StrictlyAscending(ks)
    ensures forall x :: x in ks <==> x in Distinct(rows, c)
    ensures |ks| == |Distinct(rows, c)|
  {
    if rows == [] then []
    else
      var rest := GroupKeys(rows[1..], c);
      var ks := InsertKey(Field(rows[0], c), rest);
      var d := Distinct(rows[1..], c);
      assert Distinct(rows, c) == {Field(rows[0], c)} + d;
      if Field(rows[0], c) in d then
        assert {Field(rows[0], c)} + d == d;
        ks
      else
        assert |{Field(rows[0], c)} + d| == |d| + 1;
        ks
  }

  lemma GroupKeysNoRepeat(ks: seq<string>, i: int)
    requires StrictlyAscending(ks) && 0 <= i < |ks|
    ensures ks[i] !in ks[i + 1..]
  {
    if ks[i] in ks[i + 1..] {
      var j :| i + 1 <= j < |ks| && ks[j] == ks[i];
      LessIrreflexive(ks[i]);
    }
  }

  /** Latest purchase time among the rows. */
  function LatestTime(rows: seq<Row>): (t: int)
    requires rows != []
    ensures exists r :: r in rows && r.purchaseTime == t
    ensures forall r :: r in rows ==> r.purchaseTime <= t
  {
    if |rows| == 1 then rows[0].purchaseTime
    else
      var m := LatestTime(rows[1..]);
      assert forall r :: r in rows <==> r == rows[0] || r in rows[1..];
      if rows[0].purchaseTime >= m then rows[0].purchaseTime else m
  }

  /** Latest calendar date among the rows. */
  function LatestDate(rows: seq<Row>): (d: int)
    requires rows != []
    ensures exists r :: r in rows && Day(r.purchaseTime) == d
    ensures forall r :: r in rows ==> Day(r.purchaseTime) <= d
  {
    if |rows| == 1 then Day(rows[0].purchaseTime)
    else
      var m := LatestDate(rows[1..]);
      assert forall r :: r in rows <==> r == rows[0] || r in rows[1..];
      if Day(rows[0].purchaseTime) >= m then Day(rows[0].purchaseTime) else m
  }

  /** Earliest calendar date among the rows. */
  function EarliestDate(rows: seq<Row>): (d: int)
    requires rows != []
    ensures exists r :: r in rows && Day(r.purchaseTime) == d
    ensures forall r :: r in rows ==> d <= Day(r.purchaseTime)
  {
    if |rows| == 1 then Day(rows[0].purchaseTime)
    else
      var m := EarliestDate(rows[1..]);
      assert forall r :: r in rows <==> r == rows[0] || r in rows[1..];
      if Day(rows[0].purchaseTime) <= m then Day(rows[0].purchaseTime) else m
  }

  /** The earliest date is never after the latest one. */
  lemma EarliestNotAfterLatest(rows: seq<Row>)
    requires rows != []
    ensures EarliestDate(rows) <= LatestDate(rows)
  {
    var e := EarliestDate(rows);
    assert exists r :: r in rows && Day(r.purchaseTime) == e;
    var r :| r in rows && Day(r.purchaseTime) == e;
  }

  /** Taking the date of the latest time gives the latest date. */
  lemma DateOfLatestTime(rows: seq<Row>)
    requires rows != []
    ensures Day(LatestTime(rows)) == LatestDate(rows)
  {
    var t := LatestTime(rows);
    var r :| r in rows && r.purchaseTime == t;
    var q :| q in rows && Day(q.purchaseTime) == LatestDate(rows);
    DayMonotone(q.purchaseTime, t);
  }
}
