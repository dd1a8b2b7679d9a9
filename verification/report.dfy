/** The downloadable summary document: a title, the Sales and Profit tiles,
    the date, a gap, then one line per row handed in. Fonts, page layout,
    number formatting and the byte encoding are not modelled; each `cell` or
    `ln` call is one `Cell` value in the order it is written. */
module Report {
  import opened Table
  import Kpi

  datatype Cell =
    | Title
    | SalesTotal(amount: real)
    | ProfitTotal(amount: real)
    | Dated(day: string)
    | Gap
    | Item(product: string, sales: real, profit: real)

  /** The line written for one row: its Product Name, Sales and Profit. */
  function ItemOf(row: Row): Cell {
    Item(row.product, row.sales, row.profit)
  }

  /** The lines before the items. The totals are taken over the whole
      filtered table, not over the rows handed in for the item lines. */
  function Header(filtered: seq<Row>, today: string): seq<Cell> {
    [Title, SalesTotal(Kpi.TotalSales(filtered)), ProfitTotal(Kpi.TotalProfit(filtered)), Dated(today), Gap]
  }

  /** `generate_pdf(dataframe)`: the header, then one item line per row of
      `dataframe`, in row order. `today` stands for the formatted clock
      reading. */
  method GeneratePdf(dataframe: seq<Row>, filtered: seq<Row>, today: string) returns (cells: seq<Cell>)
    ensures |cells| == |Header(filtered, today)| + |dataframe|
    ensures cells[..5] == Header(filtered, today)
    ensures forall i :: 0 <= i < |dataframe| ==> cells[5 + i] == ItemOf(dataframe[i])
  {
    cells := Header(filtered, today);
    for i := 0 to |dataframe|
      invariant |cells| == 5 + i
      invariant cells[..5] == Header(filtered, today)
      invariant forall j :: 0 <= j < i ==> cells[5 + j] == ItemOf(dataframe[j])
    {
      cells := cells + [ItemOf(dataframe[i])];
    }
  }

  /** `generate_pdf(df_filtered.head(10))`: the item lines are exactly the
      first min(10, n) filtered rows, in order, under totals over all n. */
  method SummaryPdf(filtered: seq<Row>, today: string) returns (cells: seq<Cell>)
    ensures |cells| == 5 + (if |filtered| < 10 then |filtered| else 10)
    ensures cells[..5] == Header(filtered, today)
    ensures forall i :: 0 <= i < |cells| - 5 ==> cells[5 + i] == ItemOf(filtered[i])
  {
    cells := GeneratePdf(Head(filtered, 10), filtered, today);
  }
}
