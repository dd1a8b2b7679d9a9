# Superstore sales dashboard: a Dafny model of its data pipeline

The dashboard (`app.py`) loads the Superstore order sheet. Each row is one
order line with an Order ID, Order Date, Segment, Category, Product Name,
Sales and Profit. The dashboard then does five things with the sheet:

1. It filters the rows through a sidebar cascade. The Segment and Category
   choices come from the whole sheet. The Product choices come from the rows
   those two leave. A final mask keeps the selected products.
2. It shows three KPI tiles over the filtered rows: total Sales, total Profit
   and the number of distinct Order IDs.
3. It adds a Profit Margin (%) column to the filtered rows. It averages
   Sales, Profit and margin per product and shows the ten products with the
   highest mean margin.
4. It sums Sales per (month, Category), per week and per month for the trend
   charts and the forecast.
5. It writes a PDF summary with a title, the two totals, the date, a gap and
   one line for each of the first ten filtered rows.

The model keeps the same shape, one module per concern:

- `Table` holds the row type and the table operations the pipeline uses:
  - `Select`, a boolean mask;
  - `Column`;
  - `Unique`, which keeps the order of first appearance;
  - `SumOf`;
  - `Head`.
- `Ordering` holds Python's code-point string order and a sort that removes
  duplicates. The sort models both `sorted(....unique())` and the sorted keys
  of a `groupby`.
- `Filters` holds the cascade.
- `Kpi` holds the tiles.
- `Margin` holds the margin table.
- `Trends` holds the Sales series.
- `Report` holds the PDF summary. These methods work by appending to a list
  of lines, as `generate_pdf` does.

Money is `real` and Order Date is a day number. The month or week a day falls
in is a function parameter, `monthOf` or `weekOf`. These number the buckets
consecutively: the next month or week is the number plus one, as in months
since an epoch. The month-end or Monday date pandas shows is only a bucket's
label.

Facts about `app.py` that shape the model:

- The Category choices (`app.py:33`) are taken from the whole sheet, not from
  the rows of the selected segments. Only the Product choices cascade.
- The margin table (`app.py:49`) is ordered with pandas' default sort, which
  is not stable. So `Margin.RankByMargin` promises only the order and that no
  entry is lost or added. It does not promise any order among equal margins.
- The PDF (`app.py:116`) lists the first ten filtered rows in sheet order, not
  the ten largest by Sales.
- The weekly and monthly series (`app.py:67`, `app.py:73`) group on a time key
  alone, so pandas emits every week or month from the first order to the
  last, empty ones with total 0. The month-by-Category series (`app.py:54`)
  groups on two keys and lists only the pairs that occur.

## Model

| member | source | states |
|---|---|---|
| Table.Select | app.py:34 | A boolean mask keeps exactly the rows the predicate accepts, in their order, each as often as before: a subsequence whose multiset counts are the input's for accepted rows and zero otherwise |
| Table.Unique | app.py:32 | `unique()` lists every value of the column exactly once, in order of first appearance: for any two listed values, the earlier one first occurs at an earlier position |
| Table.Head | app.py:116 | `head(n)` is the prefix of length min(n, rows) |
| Ordering.SortedUnique | app.py:35 | `sorted(set)` yields a strictly ascending sequence holding exactly the input's values |
| Ordering.StrLessIsStrictTotalOrder | app.py:35 | Python's code-point string comparison is irreflexive, transitive and total, so sorting by it is well defined |
| Filters.SegmentOptions | app.py:32 | The Segment choices are each segment of the sheet once, in order of first appearance: the first row's segment first, and every row holding a later choice has a row holding each earlier choice before it |
| Filters.CategoryOptions | app.py:33 | The Category choices are each category of the sheet once, in order of first appearance, stated as for the Segment choices |
| Filters.SegmentCategoryFilter | app.py:34 | The intermediate table keeps a row exactly when its Segment and Category are both selected, in sheet order, each kept row as often as in the sheet |
| Filters.ProductOptions | app.py:35 | The Product choices are strictly ascending, and a name is offered exactly when some row with a selected Segment and Category has that product |
| Filters.ApplyFilters | app.py:34-37 | The filtered table keeps a row exactly when its Segment, Category and Product Name are all selected, in order, with duplicates kept |
| Filters.ApplyFiltersIsOneMask | app.py:34-37 | The two-step cascade equals one mask testing all three selections |
| Filters.DefaultSelectionKeepsAllRows | app.py:32-37 | With the widgets' default selections (everything offered), the filtered table is the whole sheet |
| Filters.EmptySelectionLeavesNoRows | app.py:34-37 | Selecting no segment, no category or no product leaves no rows |
| Filters.NarrowingSelectionDropsRows | app.py:34-37 | Shrinking any of the three selections yields a subsequence of the wider result |
| Kpi.OrderCount | app.py:44 | `nunique()` of Order ID is at most the number of rows, and zero exactly for an empty table |
| Kpi.ComputeKpis | app.py:42-44 | The tiles are all zero on an empty table; the order count never exceeds the row count; non-negative Sales give a non-negative Sales tile |
| Kpi.EmptySelectionZeroKpis | app.py:42-44 | An empty selection in any widget shows zero Sales, zero Profit and zero orders |
| Kpi.FilteredSalesPlusRejected | app.py:42 | The Sales tile plus the Sales of the rejected rows is the Sales of the whole sheet |
| Margin.ProfitMargin | app.py:48 | A row's margin times its Sales is 100 times its Profit; with positive Sales the margin is non-negative exactly when the Profit is |
| Margin.WithMargin | app.py:48 | Adding the margin column keeps every row and its Product Name, Sales and Profit, and gives each its own margin |
| Margin.WithMarginProducts | app.py:48 | The margin table has the same products as the filtered table |
| Margin.GroupMean | app.py:49 | Each of a product's three means times the product's row count is the sum of that column over the product's rows |
| Margin.MeanWithinRows | app.py:49 | A product's mean margin lies between the smallest and the largest margin of its rows |
| Margin.ProductMeans | app.py:49 | `groupby("Product Name").mean()` has one entry per product, products ascending, each holding that product's means |
| Margin.RankByMargin | app.py:49 | Sorting by margin, descending, gives non-increasing margins and is a permutation of the grouped table |
| Margin.RankKeepsProductsDistinct | app.py:49 | Sorting keeps one entry per product |
| Margin.MarginReport | app.py:49 | The report has at most ten entries. Its margins are non-increasing, with one entry per product, and each entry holds its product's means. Fewer than ten entries means every product is listed. No product left out has a higher mean margin than a listed one |
| Trends.Points | app.py:54 | A series over given keys has one point per key, holding the Sales of the rows in that bucket |
| Trends.GroupSum | app.py:54 | `groupby(key)["Sales"].sum()` has one point per bucket that some row falls in, buckets strictly ascending, each holding its rows' Sales |
| Trends.MonthlyByCategory | app.py:54 | `monthly_category` is ordered by month then Category, has exactly the (month, Category) pairs that occur in the rows, and each point holds the Sales of that month's rows in that Category |
| Trends.Resample | app.py:67-73 | Grouping on one time bucket has no points for no rows; otherwise one point per bucket from the first bucket with a row to the last, consecutive, every row's bucket inside, each point holding its bucket's Sales (0 for an empty bucket) |
| Trends.Weekly | app.py:67 | `weekly` runs over consecutive weeks from the first week with an order to the last, each holding that week's Sales, 0 for a week without orders; empty for no rows |
| Trends.Monthly | app.py:73 | `monthly` runs over consecutive months from the first month with an order to the last, each holding that month's Sales, 0 for a month without orders; empty for no rows |
| Trends.GroupSumConserves | app.py:54 | Grouping conserves Sales: a series sums to the Sales of the whole table |
| Trends.ResampleConserves | app.py:67-73 | A series with its empty buckets filled in still sums to the Sales of the whole table |
| Trends.TrendsConserveSales | app.py:54-73 | The month-by-category, weekly and monthly series each sum to the Sales tile |
| Trends.CategoriesRollUpToMonth | app.py:54-73 | The (month, Category) points of one month, summed over categories, give that month's Sales |
| Trends.MonthlyMatchesCategories | app.py:54-73 | Every point of the monthly series, an empty month included, equals its month's points in the month-by-category series, summed |
| Report.GeneratePdf | app.py:102-114 | The document is the five header lines (title, Sales total, Profit total, date, gap), then one line per row handed in, in row order, each with its Product Name, Sales and Profit |
| Report.SummaryPdf | app.py:116 | The summary is the five header lines, with totals taken over all n filtered rows, then exactly the first min(10, n) filtered rows, in order |

## Left out

- The Streamlit layout and widgets, caching and the download buttons are left out. The widgets' state is modelled as the sets of selected values.
- Reading the Excel file, parsing dates and the five-row preview are left out. The model starts from a sequence of rows, and Ship Date is read but never used.
- Calendar arithmetic is left out. `monthOf` and `weekOf` give each day's month or Monday-ending week as a consecutive bucket number (months or weeks since an epoch). They do not give the label date, so the gap filling in `Trends.Resample` counts one point per calendar month or week.
- The linear-regression forecast and its chart are left out. The fit is floating point and comes from a foreign library. The series it is fitted to is `Trends.Monthly`, empty months included. Its inputs are the month numbers 0 … N-1, with N the length of that series, and it predicts at N, N+1 and N+2. On an empty selection the fit (`app.py:77`) gets no samples and raises an error, which stops the script. The Excel download (`app.py:98`) and the PDF (`app.py:116`) are then never produced. So the n = 0 case of `Report.SummaryPdf` describes the function `generate_pdf`, not anything the page shows.
- The charts, the PNG export and the Excel export are left out. They are rendering and file encoding.
- PDF fonts, cell geometry, currency formatting and the latin-1 encoding are left out. Each line is a value holding its data, and the date is a string parameter.
- Floating-point rounding is left out: money is exact `real`.
- Blank cells are left out. Every `Row` field is present, while pandas reads a blank cell as NaN. One consequence is not modelled: a blank Product Name among the Segment/Category-filtered rows makes `sorted(...)` at `app.py:35` raise a TypeError, because NaN cannot be compared with a string.
- Kpi.OrderCount: `nunique()` at `app.py:44` skips NaN Order IDs, so zero orders exactly on no rows holds only because every modelled row has an Order ID.
- Margin.ProfitMargin: requires non-zero Sales; the source divides unguarded, and a zero-Sales row gives an infinite or NaN margin that is not modelled.
- Margin.WithMargin: requires every row to have non-zero Sales, for the same reason.
- Margin.MarginReport: requires every filtered row to have non-zero Sales, for the same reason. The placement of infinite or NaN means in the sort is not modelled.
- Margin.RankByMargin: the model sorts by stable insertion. Because pandas' default sort is not stable, the contract states only non-increasing margins and a permutation, not the order among ties.
- Margin.WithMargin: pandas adds the column to `df_filtered` in place. The model returns a new table instead. Because of that in-place update, the Excel export (`app.py:98`) includes the Profit Margin (%) column; the export itself is left out.
