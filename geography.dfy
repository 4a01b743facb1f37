/** The two geographic tables: rows grouped by customer state or by
    customer city, each group reduced to its number of distinct customers,
    the groups in ascending key order as grouping lays them out. */
module Geography {
  import opened Ordering
  import opened Rows

  /** One state or city with the number of distinct customers in it. */
  datatype RegionRow = RegionRow(region: string, customerCount: int)

  /** A row counts the distinct customers of its own region. */
  predicate CountsCustomers(rows: seq<Row>, c: Column, x: RegionRow) {
    x.customerCount == |Distinct(Where(rows, c, x.region), CustomerId)|
  }

  /** groupby(c).customer_unique_id.nunique(): one row per key of ks, in
      the order of ks. */
  function CustomerCounts(rows: seq<Row>, c: Column, ks: seq<string>): (t: seq<RegionRow>)
    ensures |t| == |ks|
    ensures forall i :: 0 <= i < |t| ==> t[i].region == ks[i] && CountsCustomers(rows, c, t[i])
  {
    if ks == [] then []
    else
      var rest := CustomerCounts(rows, c, ks[1..]);
      var t := [RegionRow(ks[0], |Distinct(Where(rows, c, ks[0]), CustomerId)|)] + rest;
      assert forall i :: 1 <= i < |t| ==> t[i] == rest[i - 1];
      t
  }

  /** A region that occurs has at least one customer and no more customers
      than rows. */
  lemma CustomerCountBounds(rows: seq<Row>, c: Column, x: RegionRow)
    requires x.region in Distinct(rows, c) && CountsCustomers(rows, c, x)
    ensures 1 <= x.customerCount <= |Where(rows, c, x.region)|
  {
    DistinctMembers(rows, c);
    var r :| r in rows && Field(r, c) == x.region;
    assert r in Where(rows, c, x.region);
    DistinctSize(Where(rows, c, x.region), CustomerId);
  }

  /** The table for one column: regions ascending, each with its
      distinct customer count. */
  function ByRegion(rows: seq<Row>, c: Column): (t: seq<RegionRow>)
    ensures |t| == |Distinct(rows, c)|
    ensures forall i, j :: 0 <= i < j < |t| ==> Less(t[i].region, t[j].region)
    ensures forall i :: 0 <= i < |t| ==> CountsCustomers(rows, c, t[i])
  {
    CustomerCounts(rows, c, GroupKeys(rows, c))
  }

  /** Exactly the values the column takes are listed. */
  lemma ByRegionCovers(rows: seq<Row>, c: Column)
    ensures forall k :: k in Distinct(rows, c) <==>
              exists i :: 0 <= i < |ByRegion(rows, c)| && ByRegion(rows, c)[i].region == k
  {
    var ks := GroupKeys(rows, c);
    var t := ByRegion(rows, c);
    forall k ensures k in Distinct(rows, c) <==> exists i :: 0 <= i < |t| && t[i].region == k {
      if k in Distinct(rows, c) {
        assert k in ks;
        var i :| 0 <= i < |ks| && ks[i] == k;
        assert t[i].region == k;
      }
      if exists i :: 0 <= i < |t| && t[i].region == k {
        var i :| 0 <= i < |t| && t[i].region == k;
        assert ks[i] in ks;
      }
    }
  }

  /** Every count lies between 1 and the number of rows of its region. */
  lemma ByRegionBounds(rows: seq<Row>, c: Column)
    ensures forall i :: 0 <= i < |ByRegion(rows, c)| ==>
              1 <= ByRegion(rows, c)[i].customerCount <= |Where(rows, c, ByRegion(rows, c)[i].region)|
  {
    var ks := GroupKeys(rows, c);
    var t := ByRegion(rows, c);
    forall i | 0 <= i < |t| ensures 1 <= t[i].customerCount <= |Where(rows, c, t[i].region)| {
      assert ks[i] in ks;
      CustomerCountBounds(rows, c, t[i]);
    }
  }

  /** create_bystate_df. */
  function ByState(rows: seq<Row>): (t: seq<RegionRow>)
    ensures |t| == |Distinct(rows, State)|
    ensures forall i, j :: 0 <= i < j < |t| ==> Less(t[i].region, t[j].region)
    ensures forall k :: k in Distinct(rows, State) <==> exists i :: 0 <= i < |t| && t[i].region == k
    ensures forall i :: 0 <= i < |t| ==>
              t[i].customerCount == |Distinct(Where(rows, State, t[i].region), CustomerId)|
    ensures forall i :: 0 <= i < |t| ==> 1 <= t[i].customerCount <= |Where(rows, State, t[i].region)|
  {
    ByRegionCovers(rows, State);
    ByRegionBounds(rows, State);
    ByRegion(rows, State)
  }

  /** create_bycity_df. */
  function ByCity(rows: seq<Row>): (t: seq<RegionRow>)
    ensures |t| == |Distinct(rows, City)|
    ensures forall i, j :: 0 <= i < j < |t| ==> Less(t[i].region, t[j].region)
    ensures forall k :: k in Distinct(rows, City) <==> exists i :: 0 <= i < |t| && t[i].region == k
    ensures forall i :: 0 <= i < |t| ==>
              t[i].customerCount == |Distinct(Where(rows, City, t[i].region), CustomerId)|
    ensures forall i :: 0 <= i < |t| ==> 1 <= t[i].customerCount <= |Where(rows, City, t[i].region)|
  {
    ByRegionCovers(rows, City);
    ByRegionBounds(rows, City);
    ByRegion(rows, City)
  }

  /** No region is listed twice. */
  lemma RegionsUnique(rows: seq<Row>, c: Column, i: int, j: int)
    requires 0 <= i < j < |ByRegion(rows, c)|
    ensures ByRegion(rows, c)[i].region != ByRegion(rows, c)[j].region
  {
    LessIrreflexive(ByRegion(rows, c)[i].region);
  }
}
