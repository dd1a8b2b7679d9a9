/** The "Profit Margin per Produk" table: a Profit Margin (%) column is added
    to the filtered rows, the rows are grouped by Product Name and averaged,
    the groups are ranked by mean margin, highest first, and the first ten
    are shown. */
module Margin {
  import opened Table
  import opened Ordering

  /** The margin column is defined only when no row has zero Sales. */
  predicate NonZeroSales(t: seq<Row>) {
    forall row :: row in t ==> row.sales != 0.0
  }

  /** Profit Margin (%) of one row: Profit as a percentage of Sales. */
  function ProfitMargin(row: Row): (m: real)
    requires row.sales != 0.0
    ensures m * row.sales == 100.0 * row.profit
    ensures row.sales > 0.0 ==> (m >= 0.0 <==> row.profit >= 0.0)
  {
    row.profit / row.sales * 100.0
  }

  /** The three averaged columns of a row, with its Product Name. */
  datatype MarginRow = MarginRow(product: string, sales: real, profit: real, margin: real)

  function MarginRowSales(m: MarginRow): real { m.sales }
  function MarginRowProfit(m: MarginRow): real { m.profit }
  function MarginRowMargin(m: MarginRow): real { m.margin }
  function MarginRowProduct(m: MarginRow): string { m.product }

  /** The filtered table with its Profit Margin (%) column added. */
  function WithMargin(t: seq<Row>): (r: seq<MarginRow>)
    requires NonZeroSales(t)
    ensures |r| == |t|
    ensures forall i :: 0 <= i < |t| ==>
      r[i] == MarginRow(t[i].product, t[i].sales, t[i].profit, ProfitMargin(t[i]))
  {
    if t == [] then []
    else
      var row := t[0];
      [MarginRow(row.product, row.sales, row.profit, ProfitMargin(row))] + WithMargin(t[1..])
  }

  function Products(t: seq<Row>): set<string> {
    set row | row in t :: row.product
  }

  function MarginProducts(mt: seq<MarginRow>): set<string> {
    set m | m in mt :: m.product
  }

  lemma WithMarginProducts(t: seq<Row>)
    requires NonZeroSales(t)
    ensures MarginProducts(WithMargin(t)) == Products(t)
  {
    var mt := WithMargin(t);
    forall p | p in Products(t) ensures p in MarginProducts(mt) {
      var row :| row in t && row.product == p;
      var i :| 0 <= i < |t| && t[i] == row;
      assert mt[i] in mt;
    }
    forall p | p in MarginProducts(mt) ensures p in Products(t) {
      var m :| m in mt && m.product == p;
      var i :| 0 <= i < |mt| && mt[i] == m;
      assert t[i] in t;
    }
  }

  function ProductIs(p: string): MarginRow -> bool {
    (m: MarginRow) => m.product == p
  }

  /** The rows of one product group. */
  function ProductRows(mt: seq<MarginRow>, p: string): (g: seq<MarginRow>)
    ensures forall m :: m in g <==> m in mt && m.product == p
    ensures p in MarginProducts(mt) ==> g != []
  {
    var g := Select(mt, ProductIs(p));
    if p in MarginProducts(mt) then
      var m :| m in mt && m.product == p;
      assert m in g;
      g
    else g
  }

  /** One row of the margin table: a product and its three column means. */
  datatype MarginEntry = MarginEntry(product: string, meanSales: real, meanProfit: real, meanMargin: real)

  function Mean(g: seq<MarginRow>, f: MarginRow -> real): real
    requires g != []
  {
    SumOf(g, f) / (|g| as real)
  }

  /** `groupby("Product Name").mean()` for one product. */
  function GroupMean(mt: seq<MarginRow>, p: string): (e: MarginEntry)
    requires p in MarginProducts(mt)
    ensures e.product == p
    ensures e.meanSales * (|ProductRows(mt, p)| as real) == SumOf(ProductRows(mt, p), MarginRowSales)
    ensures e.meanProfit * (|ProductRows(mt, p)| as real) == SumOf(ProductRows(mt, p), MarginRowProfit)
    ensures e.meanMargin * (|ProductRows(mt, p)| as real) == SumOf(ProductRows(mt, p), MarginRowMargin)
  {
    var g := ProductRows(mt, p);
    var e := MarginEntry(p, Mean(g, MarginRowSales), Mean(g, MarginRowProfit), Mean(g, MarginRowMargin));
    EntryTimesCount(g, e);
    e
  }

  lemma EntryTimesCount(g: seq<MarginRow>, e: MarginEntry)
    requires g != []
    requires e.meanSales == Mean(g, MarginRowSales) && e.meanProfit == Mean(g, MarginRowProfit)
    requires e.meanMargin == Mean(g, MarginRowMargin)
    ensures e.meanSales * (|g| as real) == SumOf(g, MarginRowSales)
    ensures e.meanProfit * (|g| as real) == SumOf(g, MarginRowProfit)
    ensures e.meanMargin * (|g| as real) == SumOf(g, MarginRowMargin)
  {
    MeanTimesCount(g, MarginRowSales);
    MeanTimesCount(g, MarginRowProfit);
    MeanTimesCount(g, MarginRowMargin);
  }

  lemma MeanTimesCount(g: seq<MarginRow>, f: MarginRow -> real)
    requires g != []
    ensures Mean(g, f) * (|g| as real) == SumOf(g, f)
  {
    QuotientTimesDivisor(SumOf(g, f), |g| as real);
  }

  lemma QuotientTimesDivisor(sum: real, n: real)
    requires n != 0.0
    ensures (sum / n) * n == sum
  {
  }

  lemma {:induction false} SumOfBounds(xs: seq<MarginRow>, f: MarginRow -> real, lo: real, hi: real)
    requires forall x :: x in xs ==> lo <= f(x) <= hi
    ensures lo * (|xs| as real) <= SumOf(xs, f) <= hi * (|xs| as real)
  {
    if xs != [] {
      SumOfBounds(xs[1..], f, lo, hi);
    }
  }

  /** Each mean lies between the smallest and the largest value of that
      column among the product's rows. */
  lemma MeanWithinRows(mt: seq<MarginRow>, p: string, lo: real, hi: real)
    requires p in MarginProducts(mt)
    requires forall m :: m in mt && m.product == p ==> lo <= m.margin <= hi
    ensures lo <= GroupMean(mt, p).meanMargin <= hi
  {
    var g := ProductRows(mt, p);
    assert forall m :: m in g ==> lo <= MarginRowMargin(m) <= hi;
    MeanBounds(g, MarginRowMargin, lo, hi);
    assert GroupMean(mt, p).meanMargin == Mean(g, MarginRowMargin);
  }

  lemma MeanBounds(g: seq<MarginRow>, f: MarginRow -> real, lo: real, hi: real)
    requires g != []
    requires forall x :: x in g ==> lo <= f(x) <= hi
    ensures lo <= Mean(g, f) <= hi
  {
    SumOfBounds(g, f, lo, hi);
    QuotientBounds(SumOf(g, f), |g| as real, lo, hi);
  }

  lemma QuotientBounds(sum: real, n: real, lo: real, hi: real)
    requires n > 0.0 && lo * n <= sum <= hi * n
    ensures lo <= sum / n <= hi
  {
    assert (sum / n) * n == sum;
  }

  function GroupMeans(mt: seq<MarginRow>, names: seq<string>): (r: seq<MarginEntry>)
    requires forall p :: p in names ==> p in MarginProducts(mt)
    ensures |r| == |names|
    ensures forall i :: 0 <= i < |names| ==> r[i] == GroupMean(mt, names[i])
  {
    if names == [] then [] else [GroupMean(mt, names[0])] + GroupMeans(mt, names[1..])
  }

  /** The grouped table before ranking: one entry per product of the rows,
      in ascending product order, each holding that product's means. */
  function ProductMeans(mt: seq<MarginRow>): (r: seq<MarginEntry>)
    ensures forall i, j :: 0 <= i < j < |r| ==> StrLess(r[i].product, r[j].product)
    ensures forall p :: p in MarginProducts(mt) <==> exists e :: e in r && e.product == p
    ensures forall e :: e in r ==> e.product in MarginProducts(mt) && e == GroupMean(mt, e.product)
  {
    StrLessIsStrictTotalOrder();
    var names := SortedUnique(Column(mt, MarginRowProduct), StrLess);
    forall p ensures p in names <==> p in MarginProducts(mt) {
      ColumnHas(mt, MarginRowProduct, p);
    }
    var r := GroupMeans(mt, names);
    forall p | p in MarginProducts(mt) ensures exists e :: e in r && e.product == p {
      var i :| 0 <= i < |names| && names[i] == p;
      assert r[i] in r;
    }
    r
  }

  predicate NonIncreasing(s: seq<MarginEntry>) {
    forall i, j :: 0 <= i < j < |s| ==> s[i].meanMargin >= s[j].meanMargin
  }

  predicate ProductsDistinct(s: seq<MarginEntry>) {
    forall i, j :: 0 <= i < j < |s| ==> s[i].product != s[j].product
  }

  /** Places `e` before the first entry whose mean margin is not above its own. */
  function InsertByMargin(e: MarginEntry, s: seq<MarginEntry>): seq<MarginEntry> {
    if s == [] || e.meanMargin >= s[0].meanMargin then [e] + s
    else [s[0]] + InsertByMargin(e, s[1..])
  }

  lemma {:induction false} InsertKeepsOrder(e: MarginEntry, s: seq<MarginEntry>)
    requires NonIncreasing(s)
    ensures NonIncreasing(InsertByMargin(e, s))
    ensures InsertByMargin(e, s)[0] == e || InsertByMargin(e, s)[0] == s[0]
  {
    if s != [] && e.meanMargin < s[0].meanMargin {
      InsertKeepsOrder(e, s[1..]);
      assert InsertByMargin(e, s[1..])[0].meanMargin <= s[0].meanMargin;
    }
  }

  lemma {:induction false} InsertPermutes(e: MarginEntry, s: seq<MarginEntry>)
    ensures multiset(InsertByMargin(e, s)) == multiset(s) + multiset{e}
  {
    if s != [] && e.meanMargin < s[0].meanMargin {
      InsertPermutes(e, s[1..]);
      assert s == [s[0]] + s[1..];
    }
  }

  lemma {:induction false} InsertKeepsProductsDistinct(e: MarginEntry, s: seq<MarginEntry>)
    requires ProductsDistinct(s)
    requires forall x :: x in s ==> x.product != e.product
    ensures ProductsDistinct(InsertByMargin(e, s))
  {
    if s != [] && e.meanMargin < s[0].meanMargin {
      InsertKeepsProductsDistinct(e, s[1..]);
      var rest := InsertByMargin(e, s[1..]);
      InsertPermutes(e, s[1..]);
      forall k | 0 <= k < |rest| ensures s[0].product != rest[k].product {
        assert rest[k] in multiset(rest);
        if rest[k] != e {
          var j :| 0 <= j < |s[1..]| && s[1..][j] == rest[k];
          assert s[1 + j] == rest[k];
        }
      }
    }
  }

  /** `sort_values("Profit Margin (%)", ascending=False)`: the same entries,
      highest mean margin first. */
  function RankByMargin(es: seq<MarginEntry>): (r: seq<MarginEntry>)
    ensures NonIncreasing(r)
    ensures multiset(r) == multiset(es)
  {
    if es == [] then []
    else
      var rest := RankByMargin(es[1..]);
      assert es == [es[0]] + es[1..];
      InsertKeepsOrder(es[0], rest);
      InsertPermutes(es[0], rest);
      InsertByMargin(es[0], rest)
  }

  lemma {:induction false} RankKeepsProductsDistinct(es: seq<MarginEntry>)
    requires ProductsDistinct(es)
    ensures ProductsDistinct(RankByMargin(es))
  {
    if es != [] {
      var rest := RankByMargin(es[1..]);
      RankKeepsProductsDistinct(es[1..]);
      forall x | x in rest ensures x.product != es[0].product {
        assert x in multiset(rest);
        var j :| 0 <= j < |es[1..]| && es[1..][j] == x;
        assert es[1 + j] == x;
      }
      InsertKeepsProductsDistinct(es[0], rest);
    }
  }

  function ReportedProducts(r: seq<MarginEntry>): set<string> {
    set e | e in r :: e.product
  }

  /** `margin_df`: at most ten products, one entry each, highest mean margin
      first; every entry holds its product's means; fewer than ten entries
      only when every product is listed; and no product left out has a
      higher mean margin than a listed one. */
  function MarginReport(t: seq<Row>): (r: seq<MarginEntry>)
    requires NonZeroSales(t)
    ensures |r| <= 10
    ensures NonIncreasing(r)
    ensures ProductsDistinct(r)
    ensures forall e :: e in r ==>
      e.product in MarginProducts(WithMargin(t)) && e == GroupMean(WithMargin(t), e.product)
    ensures |r| < 10 ==> ReportedProducts(r) == Products(t)
    ensures forall p, x :: p in Products(t) && p !in ReportedProducts(r) && x in r ==>
      p in MarginProducts(WithMargin(t)) && x.meanMargin >= GroupMean(WithMargin(t), p).meanMargin
  {
    var r := Head(RankByMargin(ProductMeans(WithMargin(t))), 10);
    ReportFacts(t, r);
    r
  }

  lemma ReportFacts(t: seq<Row>, r: seq<MarginEntry>)
    requires NonZeroSales(t)
    requires r == Head(RankByMargin(ProductMeans(WithMargin(t))), 10)
    ensures NonIncreasing(r)
    ensures ProductsDistinct(r)
    ensures forall e :: e in r ==>
      e.product in MarginProducts(WithMargin(t)) && e == GroupMean(WithMargin(t), e.product)
    ensures |r| < 10 ==> ReportedProducts(r) == Products(t)
    ensures forall p, x :: p in Products(t) && p !in ReportedProducts(r) && x in r ==>
      p in MarginProducts(WithMargin(t)) && x.meanMargin >= GroupMean(WithMargin(t), p).meanMargin
  {
    var mt := WithMargin(t);
    var means := ProductMeans(mt);
    var ranked := RankByMargin(means);
    ReportDistinct(mt, means, ranked, r);
    ReportEntries(mt, means, ranked, r);
    ReportCoversProducts(t, r);
    ReportKeepsLargestProducts(t, r);
  }

  lemma ReportCoversProducts(t: seq<Row>, r: seq<MarginEntry>)
    requires NonZeroSales(t)
    requires r == Head(RankByMargin(ProductMeans(WithMargin(t))), 10)
    ensures |r| < 10 ==> ReportedProducts(r) == Products(t)
  {
    var mt := WithMargin(t);
    WithMarginProducts(t);
    ReportCovers(mt, ProductMeans(mt), RankByMargin(ProductMeans(mt)), r);
  }

  lemma ReportKeepsLargestProducts(t: seq<Row>, r: seq<MarginEntry>)
    requires NonZeroSales(t)
    requires r == Head(RankByMargin(ProductMeans(WithMargin(t))), 10)
    ensures forall p, x :: p in Products(t) && p !in ReportedProducts(r) && x in r ==>
      p in MarginProducts(WithMargin(t)) && x.meanMargin >= GroupMean(WithMargin(t), p).meanMargin
  {
    var mt := WithMargin(t);
    var means := ProductMeans(mt);
    var ranked := RankByMargin(means);
    WithMarginProducts(t);
    forall p, x | p in Products(t) && p !in ReportedProducts(r) && x in r
      ensures p in MarginProducts(mt) && x.meanMargin >= GroupMean(mt, p).meanMargin
    {
      ReportKeepsLargest(mt, means, ranked, r, p, x);
    }
  }

  lemma ReportDistinct(mt: seq<MarginRow>, means: seq<MarginEntry>, ranked: seq<MarginEntry>, r: seq<MarginEntry>)
    requires means == ProductMeans(mt) && ranked == RankByMargin(means) && r == Head(ranked, 10)
    ensures ProductsDistinct(r)
  {
    StrLessIsStrictTotalOrder();
    assert ProductsDistinct(means);
    RankKeepsProductsDistinct(means);
  }

  lemma ReportEntries(mt: seq<MarginRow>, means: seq<MarginEntry>, ranked: seq<MarginEntry>, r: seq<MarginEntry>)
    requires means == ProductMeans(mt) && ranked == RankByMargin(means) && r == Head(ranked, 10)
    ensures forall e :: e in r ==> e.product in MarginProducts(mt) && e == GroupMean(mt, e.product)
  {
    forall e | e in r ensures e in means {
      assert e in ranked;
      assert e in multiset(ranked);
    }
  }

  lemma ReportCovers(mt: seq<MarginRow>, means: seq<MarginEntry>, ranked: seq<MarginEntry>, r: seq<MarginEntry>)
    requires means == ProductMeans(mt) && ranked == RankByMargin(means) && r == Head(ranked, 10)
    ensures |r| < 10 ==> ReportedProducts(r) == MarginProducts(mt)
  {
    if |r| < 10 {
      assert r == ranked;
      ReportEntries(mt, means, ranked, r);
      forall p | p in MarginProducts(mt) ensures p in ReportedProducts(r) {
        var e :| e in means && e.product == p;
        assert e in multiset(means);
        assert e in r;
      }
    }
  }

  lemma ReportKeepsLargest(mt: seq<MarginRow>, means: seq<MarginEntry>, ranked: seq<MarginEntry>, r: seq<MarginEntry>,
                           p: string, x: MarginEntry)
    requires means == ProductMeans(mt) && ranked == RankByMargin(means) && r == Head(ranked, 10)
    requires p in MarginProducts(mt) && p !in ReportedProducts(r) && x in r
    ensures x.meanMargin >= GroupMean(mt, p).meanMargin
  {
    var e :| e in means && e.product == p;
    assert e in multiset(means);
    var j :| 0 <= j < |ranked| && ranked[j] == e;
    var i :| 0 <= i < |r| && r[i] == x;
    assert ranked[i] == x;
  }
}
