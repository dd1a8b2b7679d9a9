/** The Sales trend series: Sales summed per (month, Category), per week and
    per month. Which month or week a day falls in is calendar arithmetic
    outside this model; it is given as a function from the Order Date's day
    number to a bucket number. Buckets are numbered consecutively (the next
    month or week is the number plus one, as in months since an epoch); the
    month-end or Monday date pandas shows is only the bucket's label. */
module Trends {
  import opened Table
  import opened Ordering
  import Kpi

  /** One row of a series: a bucket key and the Sales summed over it. */
  datatype Point<K> = Point(key: K, total: real)

  function PointTotal<K>(p: Point<K>): real { p.total }

  /** The Sales column of a series, summed. */
  function SeriesTotal<K>(s: seq<Point<K>>): real { SumOf(s, PointTotal) }

  function KeyIs<K(==)>(key: Row -> K, k: K): Row -> bool {
    (r: Row) => key(r) == k
  }

  function InKeys<K(==)>(key: Row -> K, ks: seq<K>): Row -> bool {
    (r: Row) => key(r) in ks
  }

  /** The Sales of the rows that fall in bucket `k`. */
  function BucketSales<K(==)>(t: seq<Row>, key: Row -> K, k: K): real {
    Kpi.TotalSales(Select(t, KeyIs(key, k)))
  }

  /** One point per key of `ks`, in that order. */
  function Points<K(==)>(t: seq<Row>, key: Row -> K, ks: seq<K>): (s: seq<Point<K>>)
    ensures |s| == |ks|
    ensures forall i :: 0 <= i < |ks| ==> s[i].key == ks[i] && s[i].total == BucketSales(t, key, ks[i])
  {
    if ks == [] then [] else [Point(ks[0], BucketSales(t, key, ks[0]))] + Points(t, key, ks[1..])
  }

  function RowKeys<K>(t: seq<Row>, key: Row -> K): set<K> {
    set r | r in t :: key(r)
  }

  function SeriesKeys<K>(s: seq<Point<K>>): set<K> {
    set p | p in s :: p.key
  }

  /** `groupby(key)["Sales"].sum().reset_index()`: one point per bucket
      that some row falls in, buckets in ascending order, each holding the
      Sales of its rows. */
  function GroupSum<K(==,!new)>(t: seq<Row>, key: Row -> K, less: (K, K) -> bool): (s: seq<Point<K>>)
    requires IsStrictTotalOrder(less)
    ensures forall i, j :: 0 <= i < j < |s| ==> less(s[i].key, s[j].key)
    ensures SeriesKeys(s) == RowKeys(t, key)
    ensures forall p :: p in s ==> p.total == BucketSales(t, key, p.key)
  {
    var ks := SortedUnique(Column(t, key), less);
    var s := Points(t, key, ks);
    forall k ensures k in SeriesKeys(s) <==> k in RowKeys(t, key) {
      ColumnHas(t, key, k);
      if k in ks {
        var i :| 0 <= i < |ks| && ks[i] == k;
        assert s[i] in s;
      }
    }
    s
  }

  function MonthKey(monthOf: int -> int): Row -> int {
    (r: Row) => monthOf(r.orderDate)
  }

  function WeekKey(weekOf: int -> int): Row -> int {
    (r: Row) => weekOf(r.orderDate)
  }

  function MonthCategoryKey(monthOf: int -> int): Row -> (int, string) {
    (r: Row) => (monthOf(r.orderDate), r.category)
  }

  /** `monthly_category`: Sales per (month, Category) pair that occurs in the
      rows, ordered by month and then by Category, each holding the Sales of
      that month's rows in that Category. */
  function MonthlyByCategory(t: seq<Row>, monthOf: int -> int): (s: seq<Point<(int, string)>>)
    ensures forall i, j :: 0 <= i < j < |s| ==>
      s[i].key.0 < s[j].key.0 || (s[i].key.0 == s[j].key.0 && StrLess(s[i].key.1, s[j].key.1))
    ensures SeriesKeys(s) == set r | r in t :: (monthOf(r.orderDate), r.category)
    ensures forall p :: p in s ==> p.total == BucketSales(t, MonthCategoryKey(monthOf), p.key)
  {
    PairLessIsStrictTotalOrder();
    var s := GroupSum(t, MonthCategoryKey(monthOf), PairLess);
    assert RowKeys(t, MonthCategoryKey(monthOf)) == set r | r in t :: (monthOf(r.orderDate), r.category);
    s
  }

  /** The consecutive integers from `lo` to `hi`. */
  function Range(lo: int, hi: int): (r: seq<int>)
    ensures |r| == if lo <= hi then hi - lo + 1 else 0
    ensures forall i :: 0 <= i < |r| ==> r[i] == lo + i
    decreases hi - lo
  {
    if lo > hi then [] else [lo] + Range(lo + 1, hi)
  }

  function MinOf(xs: seq<int>): (m: int)
    requires xs != []
    ensures m in xs && forall x :: x in xs ==> m <= x
  {
    if |xs| == 1 then xs[0]
    else
      var m := MinOf(xs[1..]);
      assert xs == [xs[0]] + xs[1..];
      if xs[0] <= m then xs[0] else m
  }

  function MaxOf(xs: seq<int>): (m: int)
    requires xs != []
    ensures m in xs && forall x :: x in xs ==> x <= m
  {
    if |xs| == 1 then xs[0]
    else
      var m := MaxOf(xs[1..]);
      assert xs == [xs[0]] + xs[1..];
      if m <= xs[0] then xs[0] else m
  }

  /** `resample` on an integer bucket key, or a `groupby` on one time
      `Grouper`: one point for every bucket from the first bucket a row falls
      in to the last, consecutive and ascending, empty buckets included with
      total 0; no points for no rows. */
  function Resample(t: seq<Row>, key: Row -> int): (s: seq<Point<int>>)
    ensures t == [] ==> s == []
    ensures t != [] ==> s != [] && s[0].key in RowKeys(t, key) && s[|s| - 1].key in RowKeys(t, key)
    ensures forall i :: 0 <= i < |s| ==> s[i].key == s[0].key + i
    ensures forall r :: r in t ==> s != [] && s[0].key <= key(r) <= s[|s| - 1].key
    ensures forall p :: p in s ==> p.total == BucketSales(t, key, p.key)
  {
    if t == [] then []
    else
      var ks := Column(t, key);
      var s := Points(t, key, Range(MinOf(ks), MaxOf(ks)));
      PointsOfRange(t, key, MinOf(ks), MaxOf(ks));
      ResampleEnds(t, key, MinOf(ks), MaxOf(ks), s);
      ResampleCovers(t, key, ks, s);
      ResampleTotals(t, key, Range(MinOf(ks), MaxOf(ks)), s);
      s
  }

  lemma ResampleEnds(t: seq<Row>, key: Row -> int, lo: int, hi: int, s: seq<Point<int>>)
    requires lo in Column(t, key) && hi in Column(t, key) && lo <= hi
    requires |s| == hi - lo + 1 && forall i :: 0 <= i < |s| ==> s[i].key == lo + i
    ensures s != [] && s[0].key in RowKeys(t, key) && s[|s| - 1].key in RowKeys(t, key)
    ensures forall i :: 0 <= i < |s| ==> s[i].key == s[0].key + i
  {
    KeyOfSomeRow(t, key, lo);
    KeyOfSomeRow(t, key, hi);
  }

  lemma PointsOfRange(t: seq<Row>, key: Row -> int, lo: int, hi: int)
    requires lo <= hi
    ensures |Points(t, key, Range(lo, hi))| == hi - lo + 1
    ensures forall i :: 0 <= i < hi - lo + 1 ==> Points(t, key, Range(lo, hi))[i].key == lo + i
  {
  }

  lemma KeyOfSomeRow(t: seq<Row>, key: Row -> int, k: int)
    requires k in Column(t, key)
    ensures k in RowKeys(t, key)
  {
    ColumnHas(t, key, k);
    var r :| r in t && key(r) == k;
  }

  lemma ResampleCovers(t: seq<Row>, key: Row -> int, ks: seq<int>, s: seq<Point<int>>)
    requires t != [] && ks == Column(t, key) && s == Points(t, key, Range(MinOf(ks), MaxOf(ks)))
    ensures forall r :: r in t ==> s != [] && s[0].key <= key(r) <= s[|s| - 1].key
  {
    var lo, hi := MinOf(ks), MaxOf(ks);
    PointsOfRange(t, key, lo, hi);
    forall r | r in t ensures lo <= key(r) <= hi {
      ColumnHas(t, key, key(r));
    }
  }

  lemma ResampleTotals(t: seq<Row>, key: Row -> int, ks: seq<int>, s: seq<Point<int>>)
    requires s == Points(t, key, ks)
    ensures forall p :: p in s ==> p.total == BucketSales(t, key, p.key)
  {
    forall p | p in s ensures p.total == BucketSales(t, key, p.key) {
      var i :| 0 <= i < |s| && s[i] == p;
    }
  }

  /** `weekly`: Sales per week from the first week with an order to the last,
      weeks without orders included with total 0. */
  function Weekly(t: seq<Row>, weekOf: int -> int): (s: seq<Point<int>>)
    ensures t == [] ==> s == []
    ensures forall i :: 0 <= i < |s| ==> s[i].key == s[0].key + i
    ensures forall r :: r in t ==> s != [] && s[0].key <= weekOf(r.orderDate) <= s[|s| - 1].key
    ensures t != [] ==> s != [] && (exists r :: r in t && weekOf(r.orderDate) == s[0].key)
                                && (exists r :: r in t && weekOf(r.orderDate) == s[|s| - 1].key)
    ensures forall p :: p in s ==> p.total == BucketSales(t, WeekKey(weekOf), p.key)
  {
    Resample(t, WeekKey(weekOf))
  }

  /** `monthly`: Sales per month from the first month with an order to the
      last, months without orders included with total 0; the forecast numbers
      these points 0, 1, … in order. */
  function Monthly(t: seq<Row>, monthOf: int -> int): (s: seq<Point<int>>)
    ensures t == [] ==> s == []
    ensures forall i :: 0 <= i < |s| ==> s[i].key == s[0].key + i
    ensures forall r :: r in t ==> s != [] && s[0].key <= monthOf(r.orderDate) <= s[|s| - 1].key
    ensures t != [] ==> s != [] && (exists r :: r in t && monthOf(r.orderDate) == s[0].key)
                                && (exists r :: r in t && monthOf(r.orderDate) == s[|s| - 1].key)
    ensures forall p :: p in s ==> p.total == BucketSales(t, MonthKey(monthOf), p.key)
  {
    Resample(t, MonthKey(monthOf))
  }

  /** The Sales of the rows a mask keeps, for a table with one row in front. */
  lemma SelectedSalesCons(x: Row, t: seq<Row>, keep: Row -> bool)
    ensures Kpi.TotalSales(Select([x] + t, keep)) == (if keep(x) then x.sales else 0.0) + Kpi.TotalSales(Select(t, keep))
  {
    assert ([x] + t)[1..] == t;
    var rest := Select(t, keep);
    if keep(x) {
      assert ([x] + rest)[1..] == rest;
    }
  }

  lemma BucketSalesCons<K>(x: Row, t: seq<Row>, key: Row -> K, k: K)
    ensures BucketSales([x] + t, key, k) == (if key(x) == k then x.sales else 0.0) + BucketSales(t, key, k)
  {
    SelectedSalesCons(x, t, KeyIs(key, k));
  }

  lemma {:induction false} PointsOfNoRows<K>(key: Row -> K, ks: seq<K>)
    ensures SeriesTotal(Points([], key, ks)) == 0.0
  {
    if ks != [] {
      PointsOfNoRows(key, ks[1..]);
      var s := Points([], key, ks);
      assert s[1..] == Points([], key, ks[1..]);
    }
  }

  /** Adding a row to the table adds its Sales to exactly one point when its
      key is listed, and to none otherwise. */
  lemma {:induction false} PointsAddRow<K>(x: Row, t: seq<Row>, key: Row -> K, ks: seq<K>)
    requires NoDuplicates(ks)
    ensures SeriesTotal(Points([x] + t, key, ks))
         == SeriesTotal(Points(t, key, ks)) + (if key(x) in ks then x.sales else 0.0)
  {
    if ks != [] {
      assert NoDuplicates(ks[1..]);
      PointsAddRow(x, t, key, ks[1..]);
      BucketSalesCons(x, t, key, ks[0]);
      assert Points([x] + t, key, ks)[1..] == Points([x] + t, key, ks[1..]);
      assert Points(t, key, ks)[1..] == Points(t, key, ks[1..]);
      assert key(x) in ks <==> key(x) == ks[0] || key(x) in ks[1..];
      assert key(x) == ks[0] ==> key(x) !in ks[1..];
    }
  }

  /** A series over distinct keys sums to the Sales of the rows whose key is
      among them. */
  lemma {:induction false} PointsTotal<K>(t: seq<Row>, key: Row -> K, ks: seq<K>)
    requires NoDuplicates(ks)
    ensures SeriesTotal(Points(t, key, ks)) == Kpi.TotalSales(Select(t, InKeys(key, ks)))
  {
    if t == [] {
      PointsOfNoRows(key, ks);
    } else {
      var x, rest := t[0], t[1..];
      assert t == [x] + rest;
      PointsTotal(rest, key, ks);
      PointsAddRow(x, rest, key, ks);
      SelectedSalesCons(x, rest, InKeys(key, ks));
    }
  }

  /** Grouping conserves Sales: the points of a series sum to the Sales
      total of the table. */
  lemma GroupSumConserves<K(!new)>(t: seq<Row>, key: Row -> K, less: (K, K) -> bool)
    requires IsStrictTotalOrder(less)
    ensures SeriesTotal(GroupSum(t, key, less)) == Kpi.TotalSales(t)
  {
    var ks := SortedUnique(Column(t, key), less);
    AscendingHasNoDuplicates(ks, less);
    PointsTotal(t, key, ks);
    forall r | r in t ensures InKeys(key, ks)(r) {
      ColumnHas(t, key, key(r));
    }
    SelectAll(t, InKeys(key, ks));
  }

  /** Resampling conserves Sales too: the empty buckets add nothing. */
  lemma ResampleConserves(t: seq<Row>, key: Row -> int)
    ensures SeriesTotal(Resample(t, key)) == Kpi.TotalSales(t)
  {
    if t != [] {
      var ks := Column(t, key);
      var range := Range(MinOf(ks), MaxOf(ks));
      assert NoDuplicates(range);
      PointsTotal(t, key, range);
      forall r | r in t ensures InKeys(key, range)(r) {
        ColumnHas(t, key, key(r));
        assert range[key(r) - MinOf(ks)] == key(r);
      }
      SelectAll(t, InKeys(key, range));
    }
  }

  /** The month-by-category, weekly and monthly series each sum to the
      Sales tile. */
  lemma TrendsConserveSales(t: seq<Row>, monthOf: int -> int, weekOf: int -> int)
    ensures SeriesTotal(MonthlyByCategory(t, monthOf)) == Kpi.TotalSales(t)
    ensures SeriesTotal(Weekly(t, weekOf)) == Kpi.TotalSales(t)
    ensures SeriesTotal(Monthly(t, monthOf)) == Kpi.TotalSales(t)
  {
    PairLessIsStrictTotalOrder();
    GroupSumConserves(t, MonthCategoryKey(monthOf), PairLess);
    ResampleConserves(t, WeekKey(weekOf));
    ResampleConserves(t, MonthKey(monthOf));
  }

  function PointInMonth(m: int): Point<(int, string)> -> bool {
    (p: Point<(int, string)>) => p.key.0 == m
  }

  function KeyInMonth(m: int): ((int, string)) -> bool {
    (k: (int, string)) => k.0 == m
  }

  /** Keeping the points of one month is building the series over that
      month's keys only. */
  lemma {:induction false} PointsOfMonth(t: seq<Row>, key: Row -> (int, string), ks: seq<(int, string)>, m: int)
    ensures Select(Points(t, key, ks), PointInMonth(m)) == Points(t, key, Select(ks, KeyInMonth(m)))
  {
    if ks != [] {
      PointsOfMonth(t, key, ks[1..], m);
      var s := Points(t, key, ks);
      assert s[1..] == Points(t, key, ks[1..]);
      var rest := Select(ks[1..], KeyInMonth(m));
      if ks[0].0 == m {
        assert ([ks[0]] + rest)[1..] == rest;
      }
    }
  }

  /** Summing the (month, Category) points of month `m` over their
      categories gives the Sales of month `m`. */
  lemma CategoriesRollUpToMonth(t: seq<Row>, monthOf: int -> int, m: int)
    ensures SeriesTotal(Select(MonthlyByCategory(t, monthOf), PointInMonth(m)))
         == BucketSales(t, MonthKey(monthOf), m)
  {
    PairLessIsStrictTotalOrder();
    var key := MonthCategoryKey(monthOf);
    var ks := SortedUnique(Column(t, key), PairLess);
    var ksm := Select(ks, KeyInMonth(m));
    PointsOfMonth(t, key, ks, m);
    AscendingHasNoDuplicates(ks, PairLess);
    SelectKeepsNoDuplicates(ks, KeyInMonth(m));
    PointsTotal(t, key, ksm);
    forall r | r in t ensures InKeys(key, ksm)(r) == KeyIs(MonthKey(monthOf), m)(r) {
      ColumnHas(t, key, key(r));
    }
    SelectCongruent(t, InKeys(key, ksm), KeyIs(MonthKey(monthOf), m));
  }

  /** Every point of the monthly series equals the sum of that month's
      points in the month-by-category series. */
  lemma MonthlyMatchesCategories(t: seq<Row>, monthOf: int -> int)
    ensures forall p :: p in Monthly(t, monthOf) ==>
      SeriesTotal(Select(MonthlyByCategory(t, monthOf), PointInMonth(p.key))) == p.total
  {
    forall p | p in Monthly(t, monthOf)
      ensures SeriesTotal(Select(MonthlyByCategory(t, monthOf), PointInMonth(p.key))) == p.total
    {
      CategoriesRollUpToMonth(t, monthOf, p.key);
    }
  }
}
