/** The three KPI tiles over the filtered table: total Sales, total Profit
    and the number of distinct Order IDs. */
module Kpi {
  import opened Table
  import Filters

  function TotalSales(t: seq<Row>): real { SumOf(t, SalesOf) }

  function TotalProfit(t: seq<Row>): real { SumOf(t, ProfitOf) }

  /** The Order IDs that occur in the table. */
  function OrderIds(t: seq<Row>): set<string> {
    set row | row in t :: row.orderId
  }

  lemma {:induction false} OrderIdsBound(t: seq<Row>)
    ensures |OrderIds(t)| <= |t|
    ensures t != [] ==> t[0].orderId in OrderIds(t)
  {
    if t != [] {
      OrderIdsBound(t[1..]);
      assert t == [t[0]] + t[1..];
      assert OrderIds(t) == {t[0].orderId} + OrderIds(t[1..]);
    }
  }

  /** `nunique()` of Order ID: at most one order per row, since an order
      spreads over one or more rows; zero exactly for no rows. */
  function OrderCount(t: seq<Row>): (n: nat)
    ensures n <= |t|
    ensures n == 0 <==> t == []
  {
    OrderIdsBound(t);
    |OrderIds(t)|
  }

  datatype Kpis = Kpis(totalSales: real, totalProfit: real, orders: nat)

  /** The three tiles. */
  function ComputeKpis(t: seq<Row>): (k: Kpis)
    ensures k.orders <= |t|
    ensures t == [] ==> k == Kpis(0.0, 0.0, 0)
    ensures (forall row :: row in t ==> row.sales >= 0.0) ==> k.totalSales >= 0.0
  {
    SumOfNonNegativeSales(t);
    Kpis(TotalSales(t), TotalProfit(t), OrderCount(t))
  }

  lemma SumOfNonNegativeSales(t: seq<Row>)
    ensures (forall row :: row in t ==> row.sales >= 0.0) ==> TotalSales(t) >= 0.0
  {
    if forall row :: row in t ==> row.sales >= 0.0 {
      SumOfNonNegative(t, SalesOf);
    }
  }

  /** Selecting nothing in any of the three widgets shows zero on all tiles. */
  lemma EmptySelectionZeroKpis(t: seq<Row>, segments: set<string>, categories: set<string>, products: set<string>)
    requires segments == {} || categories == {} || products == {}
    ensures ComputeKpis(Filters.ApplyFilters(t, segments, categories, products)) == Kpis(0.0, 0.0, 0)
  {
    Filters.EmptySelectionLeavesNoRows(t, segments, categories, products);
  }

  /** The Sales tile for a selection plus the Sales of the rows the selection
      rejects is the Sales total of the whole table. */
  lemma FilteredSalesPlusRejected(t: seq<Row>, segments: set<string>, categories: set<string>, products: set<string>)
    ensures TotalSales(Filters.ApplyFilters(t, segments, categories, products))
          + TotalSales(Select(t, Filters.RejectMask(segments, categories, products)))
         == TotalSales(t)
  {
    Filters.ApplyFiltersIsOneMask(t, segments, categories, products);
    SumOfPartition(t, SalesOf, Filters.PassMask(segments, categories, products),
                   Filters.RejectMask(segments, categories, products));
  }
}
