/** The sidebar filter cascade: Segment and Category choices first, then the
    Product choices offered for the rows those two leave, then the final
    mask on Product Name. */
module Filters {
  import opened Table
  import opened Ordering

  /** The values a multiselect hands back, as the set that `isin` tests. */
  function Selected(choices: seq<string>): set<string> {
    set c | c in choices
  }

  /** Segment choices, `df["Segment"].unique()`: each segment of the table
      once, in order of first appearance: a row holding a later choice always
      has a row holding each earlier choice before it. */
  function SegmentOptions(t: seq<Row>): (r: seq<string>)
    ensures NoDuplicates(r)
    ensures forall s :: s in r <==> exists row :: row in t && row.segment == s
    ensures t != [] ==> r != [] && r[0] == t[0].segment
    ensures forall i, j, k :: 0 <= i < j < |r| && 0 <= k < |t| && t[k].segment == r[j] ==>
      exists k' :: 0 <= k' < k && t[k'].segment == r[i]
  {
    var r := Unique(Column(t, SegmentOf));
    forall s ensures s in r <==> exists row :: row in t && row.segment == s {
      ColumnHas(t, SegmentOf, s);
    }
    forall i, j, k | 0 <= i < j < |r| && 0 <= k < |t| && t[k].segment == r[j]
      ensures exists k' :: 0 <= k' < k && t[k'].segment == r[i]
    {
      ColumnFirstOrder(t, SegmentOf, r[i], r[j], k);
    }
    r
  }

  /** Category choices, `df["Category"].unique()`. */
  function CategoryOptions(t: seq<Row>): (r: seq<string>)
    ensures NoDuplicates(r)
    ensures forall c :: c in r <==> exists row :: row in t && row.category == c
    ensures t != [] ==> r != [] && r[0] == t[0].category
    ensures forall i, j, k :: 0 <= i < j < |r| && 0 <= k < |t| && t[k].category == r[j] ==>
      exists k' :: 0 <= k' < k && t[k'].category == r[i]
  {
    var r := Unique(Column(t, CategoryOf));
    forall c ensures c in r <==> exists row :: row in t && row.category == c {
      ColumnHas(t, CategoryOf, c);
    }
    forall i, j, k | 0 <= i < j < |r| && 0 <= k < |t| && t[k].category == r[j]
      ensures exists k' :: 0 <= k' < k && t[k'].category == r[i]
    {
      ColumnFirstOrder(t, CategoryOf, r[i], r[j], k);
    }
    r
  }

  function SegmentCategoryMask(segments: set<string>, categories: set<string>): Row -> bool {
    (row: Row) => row.segment in segments && row.category in categories
  }

  function ProductMask(products: set<string>): Row -> bool {
    (row: Row) => row.product in products
  }

  /** The intermediate table: rows whose Segment and Category are selected,
      in sheet order, duplicates kept. */
  function SegmentCategoryFilter(t: seq<Row>, segments: set<string>, categories: set<string>): (r: seq<Row>)
    ensures IsSubsequence(r, t)
    ensures forall row :: row in r <==> row in t && row.segment in segments && row.category in categories
    ensures forall row ::
      multiset(r)[row] == if row.segment in segments && row.category in categories then multiset(t)[row] else 0
  {
    Select(t, SegmentCategoryMask(segments, categories))
  }

  /** The Product choices, `sorted(sub["Product Name"].unique())` over the
      intermediate table: strictly ascending, and a name is offered exactly
      when some row of the table has that product and a selected Segment and
      Category. */
  function ProductOptions(t: seq<Row>, segments: set<string>, categories: set<string>): (r: seq<string>)
    ensures StrictlyAscending(r, StrLess)
    ensures NoDuplicates(r)
    ensures forall p :: p in r <==>
      exists row :: row in t && row.segment in segments && row.category in categories && row.product == p
  {
    var sub := SegmentCategoryFilter(t, segments, categories);
    StrLessIsStrictTotalOrder();
    var r := SortedUnique(Column(sub, ProductOf), StrLess);
    AscendingHasNoDuplicates(r, StrLess);
    forall p ensures p in r <==>
      exists row :: row in t && row.segment in segments && row.category in categories && row.product == p
    {
      ColumnHas(sub, ProductOf, p);
    }
    r
  }

  /** A row passes when its Segment, Category and Product Name are all selected. */
  predicate Passes(row: Row, segments: set<string>, categories: set<string>, products: set<string>) {
    row.segment in segments && row.category in categories && row.product in products
  }

  function PassMask(segments: set<string>, categories: set<string>, products: set<string>): Row -> bool {
    (row: Row) => Passes(row, segments, categories, products)
  }

  function RejectMask(segments: set<string>, categories: set<string>, products: set<string>): Row -> bool {
    (row: Row) => !Passes(row, segments, categories, products)
  }

  /** The cascade is one mask: the three membership tests applied together. */
  lemma ApplyFiltersIsOneMask(t: seq<Row>, segments: set<string>, categories: set<string>, products: set<string>)
    ensures ApplyFilters(t, segments, categories, products) == Select(t, PassMask(segments, categories, products))
  {
    SelectTwice(t, SegmentCategoryMask(segments, categories), ProductMask(products),
                PassMask(segments, categories, products));
  }

  /** `df_filtered`: the rows of `t` whose Segment, Category and Product Name
      are all selected, in their original order, each as often as in `t`. */
  function ApplyFilters(t: seq<Row>, segments: set<string>, categories: set<string>, products: set<string>): (r: seq<Row>)
    ensures IsSubsequence(r, t)
    ensures forall row :: row in r <==> row in t && Passes(row, segments, categories, products)
    ensures forall row ::
      multiset(r)[row] == if Passes(row, segments, categories, products) then multiset(t)[row] else 0
  {
    var sub := SegmentCategoryFilter(t, segments, categories);
    var r := Select(sub, ProductMask(products));
    SubsequenceTransitive(r, sub, t);
    r
  }

  /** With every segment, every category and every offered product selected
      (the widgets' defaults), the filtered table is the whole table. */
  lemma DefaultSelectionKeepsAllRows(t: seq<Row>)
    ensures
      var segments := Selected(SegmentOptions(t));
      var categories := Selected(CategoryOptions(t));
      ApplyFilters(t, segments, categories, Selected(ProductOptions(t, segments, categories))) == t
  {
    var segments := Selected(SegmentOptions(t));
    var categories := Selected(CategoryOptions(t));
    DefaultSegmentCategoryKeepsAllRows(t);
    DefaultProductsKeepAllRows(t, segments, categories);
  }

  lemma DefaultSegmentCategoryKeepsAllRows(t: seq<Row>)
    ensures SegmentCategoryFilter(t, Selected(SegmentOptions(t)), Selected(CategoryOptions(t))) == t
  {
    var segments := Selected(SegmentOptions(t));
    var categories := Selected(CategoryOptions(t));
    var so, co := SegmentOptions(t), CategoryOptions(t);
    forall row | row in t ensures SegmentCategoryMask(segments, categories)(row) {
      assert row.segment in so;
      assert row.category in co;
    }
    SelectAll(t, SegmentCategoryMask(segments, categories));
  }

  lemma DefaultProductsKeepAllRows(t: seq<Row>, segments: set<string>, categories: set<string>)
    ensures
      var sub := SegmentCategoryFilter(t, segments, categories);
      Select(sub, ProductMask(Selected(ProductOptions(t, segments, categories)))) == sub
  {
    var sub := SegmentCategoryFilter(t, segments, categories);
    var po := ProductOptions(t, segments, categories);
    var products := Selected(po);
    forall row | row in sub ensures ProductMask(products)(row) {
      assert row.product in po;
    }
    SelectAll(sub, ProductMask(products));
  }

  /** Selecting no segment, no category or no product leaves no rows. */
  lemma EmptySelectionLeavesNoRows(t: seq<Row>, segments: set<string>, categories: set<string>, products: set<string>)
    requires segments == {} || categories == {} || products == {}
    ensures ApplyFilters(t, segments, categories, products) == []
  {
  }

  /** Narrowing any selection can only drop rows: the result for the smaller
      selection is a subsequence of the result for the larger one. */
  lemma NarrowingSelectionDropsRows(t: seq<Row>,
                                    segments: set<string>, categories: set<string>, products: set<string>,
                                    segments': set<string>, categories': set<string>, products': set<string>)
    requires segments' <= segments && categories' <= categories && products' <= products
    ensures IsSubsequence(ApplyFilters(t, segments', categories', products'),
                          ApplyFilters(t, segments, categories, products))
  {
    var wide := SegmentCategoryFilter(t, segments, categories);
    var narrow := SegmentCategoryFilter(t, segments', categories');
    SelectNarrower(t, SegmentCategoryMask(segments, categories), SegmentCategoryMask(segments', categories'));
    SelectNarrower(narrow, ProductMask(products), ProductMask(products'));
    SelectPreservesSubsequence(narrow, wide, ProductMask(products));
    SubsequenceTransitive(Select(narrow, ProductMask(products')), Select(narrow, ProductMask(products)),
                          Select(wide, ProductMask(products)));
  }
}
