/** The RFM table: one row per distinct customer, with the days since the
    customer's latest purchase date counted back from the latest purchase
    date of the whole selection (recency), the number of distinct orders
    (frequency) and the summed item value (monetary). */
module Rfm {
  import opened Ordering
  import opened Rows

  datatype RfmRow = RfmRow(customerId: string, recency: int, frequency: int, monetary: int)

  /** The rows of one customer. */
  function Own(rows: seq<Row>, customer: string): seq<Row> {
    Where(rows, CustomerId, customer)
  }

  /** A row is the RFM summary of its own customer's rows within the
      selection rows. */
  predicate RfmOf(rows: seq<Row>, x: RfmRow) {
    var own := Own(rows, x.customerId);
    rows != [] && own != []
    && x.frequency == |Distinct(own, OrderId)|
    && x.monetary == TotalValue(own)
    && x.recency == LatestDate(rows) - Day(LatestTime(own))
  }

  /** A customer that occurs has rows of its own. */
  lemma CustomerOccurs(rows: seq<Row>, customer: string)
    requires customer in Distinct(rows, CustomerId)
    ensures rows != [] && Own(rows, customer) != []
  {
    DistinctMembers(rows, CustomerId);
    var r :| r in rows && r.customerId == customer;
    assert r in Own(rows, customer);
  }

  /** The summary row of one customer. */
  function RfmRowOf(rows: seq<Row>, customer: string): (x: RfmRow)
    requires customer in Distinct(rows, CustomerId)
    ensures x.customerId == customer && RfmOf(rows, x)
  {
    CustomerOccurs(rows, customer);
    var own := Own(rows, customer);
    RfmRow(customer, LatestDate(rows) - Day(LatestTime(own)), |Distinct(own, OrderId)|, TotalValue(own))
  }

  /** One summary row per key of ks, in the order of ks. */
  function RfmRows(rows: seq<Row>, ks: seq<string>): (t: seq<RfmRow>)
    requires forall k :: k in ks ==> k in Distinct(rows, CustomerId)
    ensures |t| == |ks|
    ensures forall i :: 0 <= i < |t| ==> t[i].customerId == ks[i] && RfmOf(rows, t[i])
  {
    if ks == [] then []
    else
      assert ks[0] in ks;
      var rest := RfmRows(rows, ks[1..]);
      var t := [RfmRowOf(rows, ks[0])] + rest;
      assert forall i :: 1 <= i < |t| ==> t[i] == rest[i - 1];
      t
  }

  /** create_rfm_df: groupby customer (keys ascending), aggregating the
      latest purchase time, the distinct order count and the summed value,
      then recency as the latest date of the selection minus the date of
      the customer's latest purchase time. */
  function Rfm(rows: seq<Row>): (t: seq<RfmRow>)
    ensures |t| == |Distinct(rows, CustomerId)|
    ensures forall i, j :: 0 <= i < j < |t| ==> Less(t[i].customerId, t[j].customerId)
    ensures forall i :: 0 <= i < |t| ==> RfmOf(rows, t[i])
  {
    RfmRows(rows, GroupKeys(rows, CustomerId))
  }

  /** Exactly the customers of the selection are listed. */
  lemma RfmCovers(rows: seq<Row>)
    ensures forall k :: k in Distinct(rows, CustomerId) <==>
              exists i :: 0 <= i < |Rfm(rows)| && Rfm(rows)[i].customerId == k
  {
    var ks := GroupKeys(rows, CustomerId);
    var t := RfmRows(rows, ks);
    assert t == Rfm(rows);
    forall k ensures k in Distinct(rows, CustomerId) <==> exists i :: 0 <= i < |t| && t[i].customerId == k {
      if k in Distinct(rows, CustomerId) {
        assert k in ks;
        var i :| 0 <= i < |ks| && ks[i] == k;
        assert t[i].customerId == k;
      }
      if exists i :: 0 <= i < |t| && t[i].customerId == k {
        var i :| 0 <= i < |t| && t[i].customerId == k;
        assert ks[i] in ks;
      }
    }
  }

  /** A summary row has at least one and at most as many orders as item
      rows, and a recency that is never negative. */
  lemma RfmOfBounds(rows: seq<Row>, x: RfmRow)
    requires RfmOf(rows, x)
    ensures 1 <= x.frequency <= |Own(rows, x.customerId)|
    ensures x.recency >= 0
  {
    var own := Own(rows, x.customerId);
    DistinctSize(own, OrderId);
    var lt := LatestTime(own);
    var r :| r in own && r.purchaseTime == lt;
    assert r in rows;
  }

  /** Every row of the table obeys those bounds. */
  lemma RfmBounds(rows: seq<Row>)
    ensures forall i :: 0 <= i < |Rfm(rows)| ==>
              1 <= Rfm(rows)[i].frequency <= |Own(rows, Rfm(rows)[i].customerId)|
              && Rfm(rows)[i].recency >= 0
  {
    var t := Rfm(rows);
    forall i | 0 <= i < |t|
      ensures 1 <= t[i].frequency <= |Own(rows, t[i].customerId)| && t[i].recency >= 0
    {
      RfmOfBounds(rows, t[i]);
    }
  }

  /** Recency is zero exactly for a customer with a purchase on the latest
      date of the selection. */
  lemma RecencyZeroIff(rows: seq<Row>, x: RfmRow)
    requires RfmOf(rows, x)
    ensures x.recency == 0 <==>
      exists r :: r in rows && r.customerId == x.customerId && Day(r.purchaseTime) == LatestDate(rows)
  {
    var own := Own(rows, x.customerId);
    DateOfLatestTime(own);
    var d := LatestDate(own);
    var q :| q in own && Day(q.purchaseTime) == d;
    assert q in rows;
    if exists r :: r in rows && r.customerId == x.customerId && Day(r.purchaseTime) == LatestDate(rows) {
      var r :| r in rows && r.customerId == x.customerId && Day(r.purchaseTime) == LatestDate(rows);
      assert r in own;
    }
  }

  /** A customer holding a purchase on the latest date, a single-order
      customer included, appears with recency zero. */
  lemma LatestBuyerRecencyZero(rows: seq<Row>, r: Row)
    requires r in rows && Day(r.purchaseTime) == LatestDate(rows)
    ensures exists i :: 0 <= i < |Rfm(rows)| && Rfm(rows)[i].customerId == r.customerId
                        && Rfm(rows)[i].recency == 0
  {
    var t := Rfm(rows);
    RfmCovers(rows);
    DistinctMembers(rows, CustomerId);
    assert r.customerId in Distinct(rows, CustomerId);
    var i :| 0 <= i < |t| && t[i].customerId == r.customerId;
    RecencyZeroIff(rows, t[i]);
  }

  /** The table of a non-empty selection has a row with recency zero. */
  lemma SomeRecencyZero(rows: seq<Row>)
    requires rows != []
    ensures exists i :: 0 <= i < |Rfm(rows)| && Rfm(rows)[i].recency == 0
  {
    var d := LatestDate(rows);
    var r :| r in rows && Day(r.purchaseTime) == d;
    LatestBuyerRecencyZero(rows, r);
  }

  function SumMonetary(t: seq<RfmRow>): int {
    if t == [] then 0 else t[0].monetary + SumMonetary(t[1..])
  }

  lemma {:induction false} RfmRowsMonetary(rows: seq<Row>, ks: seq<string>)
    requires forall k :: k in ks ==> k in Distinct(rows, CustomerId)
    requires StrictlyAscending(ks)
    ensures SumMonetary(RfmRows(rows, ks)) == TotalValue(WhereIn(rows, CustomerId, ks))
  {
    if ks == [] {
      WhereInNone(rows, CustomerId);
    } else {
      GroupKeysNoRepeat(ks, 0);
      RfmRowsMonetary(rows, ks[1..]);
      WhereInSplit(rows, CustomerId, ks);
      assert RfmRows(rows, ks)[1..] == RfmRows(rows, ks[1..]);
    }
  }

  /** The monetary column adds up to the total item value of the
      selection. */
  lemma RfmMonetaryTotal(rows: seq<Row>)
    ensures SumMonetary(Rfm(rows)) == TotalValue(rows)
  {
    var ks := GroupKeys(rows, CustomerId);
    RfmRowsMonetary(rows, ks);
    DistinctMembers(rows, CustomerId);
    WhereInAll(rows, CustomerId, ks);
  }

  /** Two orders of one customer, on date 1 with value 10 and on date 3
      with value 20, give the single row {recency 0, frequency 2,
      monetary 30}. */
  lemma TwoOrdersExample(a: Row, b: Row)
    requires a.customerId == b.customerId && a.orderId != b.orderId
    requires a.purchaseTime == Midnight(1) && a.itemValue == 10
    requires b.purchaseTime == Midnight(3) && b.itemValue == 20
    ensures Rfm([a, b]) == [RfmRow(a.customerId, 0, 2, 30)]
  {
    var rows := [a, b];
    var c := a.customerId;
    ExampleCustomers(a, b);
    ExampleOwn(a, b);
    ExampleOrders(a, b);
    ExampleDates(a, b);
    var t := Rfm(rows);
    assert |t| == 1;
    RfmCovers(rows);
    assert t[0].customerId == c;
    assert RfmOf(rows, t[0]);
  }

  lemma ExampleCustomers(a: Row, b: Row)
    requires a.customerId == b.customerId
    ensures Distinct([a, b], CustomerId) == {a.customerId}
  {
    DistinctCons(a, [b], CustomerId);
    DistinctCons(b, [], CustomerId);
    assert [a] + [b] == [a, b] && [b] + [] == [b];
  }

  lemma ExampleOwn(a: Row, b: Row)
    requires a.customerId == b.customerId
    ensures Own([a, b], a.customerId) == [a, b]
  {
    var c := a.customerId;
    assert [b][1..] == [];
    assert Where([b], CustomerId, c) == [b] + Where([], CustomerId, c);
    assert [a, b][1..] == [b];
    assert Where([a, b], CustomerId, c) == [a] + Where([b], CustomerId, c);
  }

  lemma ExampleOrders(a: Row, b: Row)
    requires a.orderId != b.orderId
    ensures |Distinct([a, b], OrderId)| == 2
  {
    DistinctCons(a, [b], OrderId);
    DistinctCons(b, [], OrderId);
    assert [a] + [b] == [a, b] && [b] + [] == [b];
    assert Distinct([a, b], OrderId) == {a.orderId, b.orderId};
  }

  lemma ExampleDates(a: Row, b: Row)
    requires a.purchaseTime == Midnight(1) && b.purchaseTime == Midnight(3)
    ensures LatestDate([a, b]) == 3 && Day(LatestTime([a, b])) == 3
    ensures TotalValue([a, b]) == a.itemValue + b.itemValue
  {
    assert [a, b][1..] == [b];
    assert [b][1..] == [];
    assert a.purchaseTime == 86400 && b.purchaseTime == 3 * 86400;
    assert LatestTime([b]) == b.purchaseTime;
    assert LatestTime([a, b]) == b.purchaseTime;
    assert LatestDate([b]) == 3;
    assert Day(a.purchaseTime) == 1;
    assert TotalValue([b]) == b.itemValue + TotalValue([]);
  }
}
