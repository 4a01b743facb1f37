/** The two category rankings: rows grouped by product category, each
    group reduced to one figure (its distinct order count, or its summed
    item value), the groups then ordered from the largest figure down. */
module CategoryTables {
  import opened Ordering
  import opened Rows

  /** One category with its figure: an order count or a revenue in cents. */
  datatype CategoryRow = CategoryRow(category: string, amount: int)

  /** The reduction applied to each category's rows. */
  datatype Measure = OrderCount | Revenue

  function Measured(rows: seq<Row>, m: Measure): int {
    match m
    case OrderCount => |Distinct(rows, OrderId)|
    case Revenue => TotalValue(rows)
  }

  /** A row carries the figure of its own category's rows. */
  predicate Tallies(rows: seq<Row>, m: Measure, x: CategoryRow) {
    x.category in Distinct(rows, Category)
    && x.amount == Measured(Where(rows, Category, x.category), m)
  }

  predicate NonIncreasing(t: seq<CategoryRow>) {
    forall i, j :: 0 <= i < j < |t| ==> t[i].amount >= t[j].amount
  }

  predicate DistinctCategories(t: seq<CategoryRow>) {
    forall i, j :: 0 <= i < j < |t| ==> t[i].category != t[j].category
  }

  function SumAmounts(t: seq<CategoryRow>): int {
    if t == [] then 0 else t[0].amount + SumAmounts(t[1..])
  }

  /** groupby(category).agg(m): one row per key of ks, in the order of ks. */
  function Tally(rows: seq<Row>, ks: seq<string>, m: Measure): (t: seq<CategoryRow>)
    ensures |t| == |ks|
    ensures forall i :: 0 <= i < |t| ==> t[i].category == ks[i]
    ensures forall i :: 0 <= i < |t| ==> t[i].amount == Measured(Where(rows, Category, ks[i]), m)
  {
    if ks == [] then []
    else
      var rest := Tally(rows, ks[1..], m);
      var t := [CategoryRow(ks[0], Measured(Where(rows, Category, ks[0]), m))] + rest;
      assert forall i :: 1 <= i < |t| ==> t[i] == rest[i - 1];
      t
  }

  /** Inserts x into a list ordered from the largest figure down; the
      result starts with x or with the old first row. */
  function InsertDescending(x: CategoryRow, s: seq<CategoryRow>): (r: seq<CategoryRow>)
    requires NonIncreasing(s)
    ensures NonIncreasing(r)
    ensures |r| == |s| + 1 && (r[0] == x || (s != [] && r[0] == s[0]))
  {
    if s == [] then [x]
    else if x.amount >= s[0].amount then
      var r := [x] + s;
      assert r[1..] == s;
      r
    else
      var tail := InsertDescending(x, s[1..]);
      var r := [s[0]] + tail;
      assert NonIncreasing(r) by {
        forall i, j | 0 <= i < j < |r| ensures r[i].amount >= r[j].amount {
          assert r[j] == tail[j - 1];
          if i == 0 && j > 1 {
            assert tail[0].amount >= tail[j - 1].amount;
          }
          if i > 0 {
            assert r[i] == tail[i - 1];
          }
        }
      }
      r
  }

  /** Placing adds x and loses nothing. */
  lemma {:induction false} InsertPermutes(x: CategoryRow, s: seq<CategoryRow>)
    requires NonIncreasing(s)
    ensures multiset(InsertDescending(x, s)) == multiset(s) + multiset{x}
  {
    if s != [] && x.amount < s[0].amount {
      InsertPermutes(x, s[1..]);
      assert s == [s[0]] + s[1..];
      assert InsertDescending(x, s) == [s[0]] + InsertDescending(x, s[1..]);
    }
  }

  lemma {:induction false} InsertSum(x: CategoryRow, s: seq<CategoryRow>)
    requires NonIncreasing(s)
    ensures SumAmounts(InsertDescending(x, s)) == x.amount + SumAmounts(s)
  {
    if s != [] && x.amount < s[0].amount {
      InsertSum(x, s[1..]);
      assert InsertDescending(x, s)[1..] == InsertDescending(x, s[1..]);
    }
  }

  /** Rows placed behind the first one differ from it in category. */
  lemma InsertBehindHead(x: CategoryRow, s: seq<CategoryRow>)
    requires s != [] && NonIncreasing(s) && DistinctCategories(s)
    requires forall y :: y in s ==> y.category != x.category
    ensures forall y :: y in InsertDescending(x, s[1..]) ==> y.category != s[0].category
  {
    InsertPermutes(x, s[1..]);
    forall y | y in InsertDescending(x, s[1..]) ensures y.category != s[0].category {
      assert y in multiset(InsertDescending(x, s[1..]));
      if y != x {
        assert y in multiset(s[1..]);
        var k :| 0 <= k < |s[1..]| && s[1..][k] == y;
        assert s[k + 1] == y;
      }
    }
  }

  lemma {:induction false} InsertKeepsDistinct(x: CategoryRow, s: seq<CategoryRow>)
    requires NonIncreasing(s) && DistinctCategories(s)
    requires forall y :: y in s ==> y.category != x.category
    ensures DistinctCategories(InsertDescending(x, s))
  {
    if s != [] && x.amount < s[0].amount {
      assert DistinctCategories(s[1..]);
      InsertKeepsDistinct(x, s[1..]);
      InsertBehindHead(x, s);
      var tail := InsertDescending(x, s[1..]);
      var r := InsertDescending(x, s);
      assert r == [s[0]] + tail;
      forall i, j | 0 <= i < j < |r| ensures r[i].category != r[j].category {
        assert r[j] == tail[j - 1];
        if i == 0 {
          assert r[j] in tail;
        } else {
          assert r[i] == tail[i - 1];
        }
      }
    }
  }

  /** sort_values(ascending=False): the rows, largest figure first. */
  function SortDescending(t: seq<CategoryRow>): (s: seq<CategoryRow>)
    ensures NonIncreasing(s)
    ensures |s| == |t|
  {
    if t == [] then [] else InsertDescending(t[0], SortDescending(t[1..]))
  }

  /** Sorting reorders the rows and does nothing else. */
  lemma {:induction false} SortPermutes(t: seq<CategoryRow>)
    ensures multiset(SortDescending(t)) == multiset(t)
  {
    if t != [] {
      SortPermutes(t[1..]);
      InsertPermutes(t[0], SortDescending(t[1..]));
      assert t == [t[0]] + t[1..];
    }
  }

  lemma {:induction false} SortSum(t: seq<CategoryRow>)
    ensures SumAmounts(SortDescending(t)) == SumAmounts(t)
  {
    if t != [] {
      SortSum(t[1..]);
      InsertSum(t[0], SortDescending(t[1..]));
    }
  }

  lemma {:induction false} SortKeepsDistinct(t: seq<CategoryRow>)
    requires DistinctCategories(t)
    ensures DistinctCategories(SortDescending(t))
  {
    if t != [] {
      assert DistinctCategories(t[1..]);
      SortKeepsDistinct(t[1..]);
      SortPermutes(t[1..]);
      var rest := SortDescending(t[1..]);
      forall y | y in rest ensures y.category != t[0].category {
        assert y in multiset(rest);
        assert y in multiset(t[1..]);
        var k :| 0 <= k < |t[1..]| && t[1..][k] == y;
        assert t[k + 1] == y;
      }
      InsertKeepsDistinct(t[0], rest);
    }
  }

  /** A grouped table: the groupby rows, largest figure first. */
  function Ranking(rows: seq<Row>, m: Measure): (t: seq<CategoryRow>)
    ensures NonIncreasing(t)
    ensures |t| == |Distinct(rows, Category)|
  {
    SortDescending(Tally(rows, GroupKeys(rows, Category), m))
  }

  /** No category twice. */
  lemma RankingDistinct(rows: seq<Row>, m: Measure)
    ensures DistinctCategories(Ranking(rows, m))
  {
    var ks := GroupKeys(rows, Category);
    var g := Tally(rows, ks, m);
    assert DistinctCategories(g) by {
      forall i, j | 0 <= i < j < |g| ensures g[i].category != g[j].category {
        LessIrreflexive(ks[i]);
      }
    }
    SortKeepsDistinct(g);
  }

  /** A reordering holds the same rows as the original. */
  lemma PermutationMembers(g: seq<CategoryRow>, t: seq<CategoryRow>)
    requires multiset(t) == multiset(g)
    ensures forall x :: x in t <==> x in g
  {
    forall x ensures x in t <==> x in g {
      assert x in t <==> x in multiset(t);
      assert x in g <==> x in multiset(g);
    }
  }

  /** Every row carries its own category's figure. */
  lemma RankingTallies(rows: seq<Row>, m: Measure)
    ensures forall i :: 0 <= i < |Ranking(rows, m)| ==> Tallies(rows, m, Ranking(rows, m)[i])
  {
    var ks := GroupKeys(rows, Category);
    var g := Tally(rows, ks, m);
    var t := Ranking(rows, m);
    SortPermutes(g);
    PermutationMembers(g, t);
    forall i | 0 <= i < |t| ensures Tallies(rows, m, t[i]) {
      assert t[i] in g;
      var p :| 0 <= p < |g| && g[p] == t[i];
      assert ks[p] in Distinct(rows, Category);
    }
  }

  /** Every category has its row. */
  lemma RankingCovers(rows: seq<Row>, m: Measure)
    ensures forall k :: k in Distinct(rows, Category) ==>
              exists i :: 0 <= i < |Ranking(rows, m)| && Ranking(rows, m)[i].category == k
  {
    var ks := GroupKeys(rows, Category);
    var g := Tally(rows, ks, m);
    var t := Ranking(rows, m);
    SortPermutes(g);
    PermutationMembers(g, t);
    forall k | k in Distinct(rows, Category) ensures exists i :: 0 <= i < |t| && t[i].category == k {
      assert k in ks;
      var p :| 0 <= p < |ks| && ks[p] == k;
      assert g[p] in t;
      var i :| 0 <= i < |t| && t[i] == g[p];
    }
  }

  /** A category that occurs has at least one order and no more orders
      than rows. */
  lemma OrderCountBounds(rows: seq<Row>, x: CategoryRow)
    requires Tallies(rows, OrderCount, x)
    ensures 1 <= x.amount <= |Where(rows, Category, x.category)|
  {
    DistinctMembers(rows, Category);
    var r :| r in rows && Field(r, Category) == x.category;
    assert r in Where(rows, Category, x.category);
    DistinctSize(Where(rows, Category, x.category), OrderId);
  }

  /** create_category_sum_order_df: per category the number of distinct
      order ids bought in it, every count at least 1, largest first. */
  function CategoryOrderCounts(rows: seq<Row>): (t: seq<CategoryRow>)
    ensures |t| == |Distinct(rows, Category)|
    ensures NonIncreasing(t)
    ensures DistinctCategories(t)
    ensures forall i :: 0 <= i < |t| ==> t[i].category in Distinct(rows, Category)
    ensures forall i :: 0 <= i < |t| ==>
              t[i].amount == |Distinct(Where(rows, Category, t[i].category), OrderId)|
    ensures forall i :: 0 <= i < |t| ==> 1 <= t[i].amount <= |Where(rows, Category, t[i].category)|
    ensures forall k :: k in Distinct(rows, Category) ==> exists i :: 0 <= i < |t| && t[i].category == k
  {
    var t := Ranking(rows, OrderCount);
    RankingDistinct(rows, OrderCount);
    RankingTallies(rows, OrderCount);
    RankingCovers(rows, OrderCount);
    forall i | 0 <= i < |t| ensures 1 <= t[i].amount <= |Where(rows, Category, t[i].category)| {
      OrderCountBounds(rows, t[i]);
    }
    t
  }

  /** create_category_revenue_df: per category the summed item value of
      its rows, largest first. */
  function CategoryRevenue(rows: seq<Row>): (t: seq<CategoryRow>)
    ensures |t| == |Distinct(rows, Category)|
    ensures NonIncreasing(t)
    ensures DistinctCategories(t)
    ensures forall i :: 0 <= i < |t| ==> t[i].category in Distinct(rows, Category)
    ensures forall i :: 0 <= i < |t| ==> t[i].amount == TotalValue(Where(rows, Category, t[i].category))
    ensures forall k :: k in Distinct(rows, Category) ==> exists i :: 0 <= i < |t| && t[i].category == k
  {
    var t := Ranking(rows, Revenue);
    RankingDistinct(rows, Revenue);
    RankingTallies(rows, Revenue);
    RankingCovers(rows, Revenue);
    t
  }

  /** Summing the per-key revenues of distinct keys gives the value of the
      rows carrying one of those keys. */
  lemma {:induction false} TallyRevenue(rows: seq<Row>, ks: seq<string>)
    requires StrictlyAscending(ks)
    ensures SumAmounts(Tally(rows, ks, Revenue)) == TotalValue(WhereIn(rows, Category, ks))
  {
    if ks == [] {
      WhereInNone(rows, Category);
    } else {
      GroupKeysNoRepeat(ks, 0);
      TallyRevenue(rows, ks[1..]);
      WhereInSplit(rows, Category, ks);
      assert Tally(rows, ks, Revenue)[1..] == Tally(rows, ks[1..], Revenue);
    }
  }

  /** The revenues of the category table add up to the total item value of
      the selection: no row is lost or counted twice by the grouping. */
  lemma CategoryRevenueTotal(rows: seq<Row>)
    ensures SumAmounts(CategoryRevenue(rows)) == TotalValue(rows)
  {
    var ks := GroupKeys(rows, Category);
    SortSum(Tally(rows, ks, Revenue));
    TallyRevenue(rows, ks);
    DistinctMembers(rows, Category);
    WhereInAll(rows, Category, ks);
  }
}
