/** The sales table and the table primitives the dashboard applies to it:
    boolean-mask selection, column extraction, column sums, `unique()` and
    `head(n)`. A table is a sequence of rows in sheet order. */
module Table {

  /** One line item of the sales sheet. `orderDate` is the Order Date as a
      day number; how days fall into months and weeks is supplied by the
      caller (see module Trends). Ship Date is loaded but never used, so it
      is not part of the row. */
  datatype Row = Row(
    orderId: string,
    orderDate: int,
    segment: string,
    category: string,
    product: string,
    sales: real,
    profit: real)

  function SegmentOf(r: Row): string { r.segment }
  function CategoryOf(r: Row): string { r.category }
  function ProductOf(r: Row): string { r.product }
  function SalesOf(r: Row): real { r.sales }
  function ProfitOf(r: Row): real { r.profit }

  /** `a` is `b` with some elements dropped and the rest in their order. */
  predicate IsSubsequence<T(==)>(a: seq<T>, b: seq<T>)
    decreases |b|
  {
    if a == [] then true
    else if b == [] then false
    else (a[0] == b[0] && IsSubsequence(a[1..], b[1..])) || IsSubsequence(a, b[1..])
  }

  lemma {:induction false} SubsequenceTransitive<T>(a: seq<T>, b: seq<T>, c: seq<T>)
    requires IsSubsequence(a, b) && IsSubsequence(b, c)
    ensures IsSubsequence(a, c)
    decreases |c|
  {
    if a != [] {
      assert b != [] && c != [];
      if b[0] == c[0] && IsSubsequence(b[1..], c[1..]) {
        if a[0] == b[0] && IsSubsequence(a[1..], b[1..]) {
          SubsequenceTransitive(a[1..], b[1..], c[1..]);
        } else {
          SubsequenceTransitive(a, b[1..], c[1..]);
        }
      } else {
        SubsequenceTransitive(a, b, c[1..]);
      }
    }
  }

  predicate NoDuplicates<T(==)>(xs: seq<T>) {
    forall i, j :: 0 <= i < j < |xs| ==> xs[i] != xs[j]
  }

  /** Boolean-mask indexing `xs[mask]`: the elements for which `keep` holds,
      each as often as it occurs, in their original order. */
  function Select<T(==,!new)>(xs: seq<T>, keep: T -> bool): (r: seq<T>)
    ensures |r| <= |xs|
    ensures forall x :: x in r <==> x in xs && keep(x)
    ensures forall x :: multiset(r)[x] == if keep(x) then multiset(xs)[x] else 0
    ensures IsSubsequence(r, xs)
  {
    if xs == [] then []
    else
      var rest := Select(xs[1..], keep);
      assert xs == [xs[0]] + xs[1..];
      if keep(xs[0]) then
        assert ([xs[0]] + rest)[1..] == rest;
        [xs[0]] + rest
      else
        rest
  }

  lemma {:induction false} SelectAll<T(!new)>(xs: seq<T>, keep: T -> bool)
    requires forall x :: x in xs ==> keep(x)
    ensures Select(xs, keep) == xs
  {
    if xs != [] {
      SelectAll(xs[1..], keep);
    }
  }

  /** Two masks that agree on every element select the same rows. */
  lemma {:induction false} SelectCongruent<T(!new)>(xs: seq<T>, p: T -> bool, q: T -> bool)
    requires forall x :: x in xs ==> p(x) == q(x)
    ensures Select(xs, p) == Select(xs, q)
  {
    if xs != [] {
      SelectCongruent(xs[1..], p, q);
    }
  }

  lemma SubsequenceOfLonger<T>(a: seq<T>, x: T, b: seq<T>)
    requires IsSubsequence(a, b)
    ensures IsSubsequence(a, [x] + b)
  {
    assert ([x] + b)[1..] == b;
  }

  /** A mask that keeps fewer elements yields a subsequence of the result. */
  lemma {:induction false} SelectNarrower<T(!new)>(xs: seq<T>, p: T -> bool, q: T -> bool)
    requires forall x :: x in xs && q(x) ==> p(x)
    ensures IsSubsequence(Select(xs, q), Select(xs, p))
  {
    if xs != [] {
      SelectNarrower(xs[1..], p, q);
      var a, b := Select(xs[1..], q), Select(xs[1..], p);
      if q(xs[0]) {
        assert ([xs[0]] + a)[1..] == a && ([xs[0]] + b)[1..] == b;
      } else if p(xs[0]) {
        SubsequenceOfLonger(a, xs[0], b);
      }
    }
  }

  /** Masking keeps the subsequence relation between two tables. */
  lemma {:induction false} SelectPreservesSubsequence<T(!new)>(a: seq<T>, b: seq<T>, p: T -> bool)
    requires IsSubsequence(a, b)
    ensures IsSubsequence(Select(a, p), Select(b, p))
    decreases |b|
  {
    if a != [] {
      var sb := Select(b[1..], p);
      if a[0] == b[0] && IsSubsequence(a[1..], b[1..]) {
        SelectPreservesSubsequence(a[1..], b[1..], p);
        var sa := Select(a[1..], p);
        if p(a[0]) {
          assert ([a[0]] + sa)[1..] == sa && ([b[0]] + sb)[1..] == sb;
        }
      } else {
        SelectPreservesSubsequence(a, b[1..], p);
        if p(b[0]) {
          SubsequenceOfLonger(Select(a, p), b[0], sb);
        }
      }
    }
  }

  lemma {:induction false} SelectKeepsNoDuplicates<T(!new)>(xs: seq<T>, keep: T -> bool)
    requires NoDuplicates(xs)
    ensures NoDuplicates(Select(xs, keep))
  {
    if xs != [] {
      SelectKeepsNoDuplicates(xs[1..], keep);
      assert xs[0] !in xs[1..];
    }
  }

  /** Masking twice is masking once by the conjunction of the two masks. */
  lemma {:induction false} SelectTwice<T(!new)>(xs: seq<T>, p: T -> bool, q: T -> bool, both: T -> bool)
    requires forall x :: x in xs ==> both(x) == (p(x) && q(x))
    ensures Select(Select(xs, p), q) == Select(xs, both)
  {
    if xs != [] {
      SelectTwice(xs[1..], p, q, both);
      var rest := Select(xs[1..], p);
      if p(xs[0]) {
        assert ([xs[0]] + rest)[1..] == rest;
      }
    }
  }

  /** A column of the table: `df[name]` as a sequence, row by row. */
  function Column<T, U>(xs: seq<T>, f: T -> U): (r: seq<U>)
    ensures |r| == |xs|
    ensures forall i :: 0 <= i < |xs| ==> r[i] == f(xs[i])
  {
    if xs == [] then [] else [f(xs[0])] + Column(xs[1..], f)
  }

  lemma ColumnHas<T, U>(xs: seq<T>, f: T -> U, u: U)
    ensures u in Column(xs, f) <==> exists x :: x in xs && f(x) == u
  {
    var c := Column(xs, f);
    if u in c {
      var i :| 0 <= i < |c| && c[i] == u;
      assert xs[i] in xs;
    }
    if exists x :: x in xs && f(x) == u {
      var x :| x in xs && f(x) == u;
      var i :| 0 <= i < |xs| && xs[i] == x;
      assert c[i] == u;
    }
  }

  /** When `a` first appears in a column before `b` does, every row holding
      `b` has an earlier row holding `a`. */
  lemma ColumnFirstOrder<T, U>(xs: seq<T>, f: T -> U, a: U, b: U, k: nat)
    requires a in Column(xs, f) && b in Column(xs, f)
    requires FirstIndex(Column(xs, f), a) < FirstIndex(Column(xs, f), b)
    requires k < |xs| && f(xs[k]) == b
    ensures exists k' :: 0 <= k' < k && f(xs[k']) == a
  {
    var c := Column(xs, f);
    assert c[k] == b;
    assert FirstIndex(c, b) <= k;
    assert f(xs[FirstIndex(c, a)]) == a;
  }

  /** `df[name].sum()`: the sum of a real-valued column; 0 for no rows. */
  function SumOf<T>(xs: seq<T>, f: T -> real): real {
    if xs == [] then 0.0 else f(xs[0]) + SumOf(xs[1..], f)
  }

  lemma {:induction false} SumOfAppend<T>(a: seq<T>, b: seq<T>, f: T -> real)
    ensures SumOf(a + b, f) == SumOf(a, f) + SumOf(b, f)
  {
    if a == [] {
      assert a + b == b;
    } else {
      assert (a + b)[1..] == a[1..] + b;
      SumOfAppend(a[1..], b, f);
    }
  }

  /** Masking a column by a predicate and by its negation splits its sum:
      nothing is lost or counted twice. */
  lemma {:induction false} SumOfPartition<T(!new)>(xs: seq<T>, f: T -> real, keep: T -> bool, drop: T -> bool)
    requires forall x :: x in xs ==> drop(x) == !keep(x)
    ensures SumOf(Select(xs, keep), f) + SumOf(Select(xs, drop), f) == SumOf(xs, f)
  {
    if xs != [] {
      SumOfPartition(xs[1..], f, keep, drop);
      var k := if keep(xs[0]) then [xs[0]] else [];
      var n := if keep(xs[0]) then [] else [xs[0]];
      SumOfAppend(k, Select(xs[1..], keep), f);
      SumOfAppend(n, Select(xs[1..], drop), f);
    }
  }

  /** A column whose every value is non-negative has a non-negative sum. */
  lemma {:induction false} SumOfNonNegative<T>(xs: seq<T>, f: T -> real)
    requires forall x :: x in xs ==> f(x) >= 0.0
    ensures SumOf(xs, f) >= 0.0
  {
    if xs != [] {
      SumOfNonNegative(xs[1..], f);
    }
  }

  function Differs<T(==)>(x: T): T -> bool {
    y => y != x
  }

  /** The position of the first occurrence of `x` in `xs`. */
  function FirstIndex<T(==)>(xs: seq<T>, x: T): (k: nat)
    requires x in xs
    ensures k < |xs| && xs[k] == x
    ensures forall i :: 0 <= i < k ==> xs[i] != x
  {
    if xs[0] == x then 0 else 1 + FirstIndex(xs[1..], x)
  }

  /** A mask keeps the order in which two kept values first appear. */
  lemma {:induction false} SelectKeepsFirstOrder<T(!new)>(xs: seq<T>, keep: T -> bool, y: T, z: T)
    requires y in xs && z in xs && keep(y) && keep(z)
    ensures y in Select(xs, keep) && z in Select(xs, keep)
    ensures FirstIndex(Select(xs, keep), y) < FirstIndex(Select(xs, keep), z)
        <==> FirstIndex(xs, y) < FirstIndex(xs, z)
  {
    var r := Select(xs, keep);
    var rest := Select(xs[1..], keep);
    assert xs == [xs[0]] + xs[1..];
    if xs[0] == y || xs[0] == z {
      assert r[0] == xs[0];
    } else {
      SelectKeepsFirstOrder(xs[1..], keep, y, z);
      if keep(xs[0]) {
        assert r == [xs[0]] + rest;
        assert r[1..] == rest;
      }
    }
  }

  /** `unique()`: the distinct values in order of first appearance. */
  function Unique<T(==,!new)>(xs: seq<T>): (r: seq<T>)
    ensures NoDuplicates(r)
    ensures forall x :: x in r <==> x in xs
    ensures forall i, j :: 0 <= i < j < |r| ==> FirstIndex(xs, r[i]) < FirstIndex(xs, r[j])
    ensures IsSubsequence(r, xs)
    ensures xs != [] ==> r != [] && r[0] == xs[0]
    decreases |xs|
  {
    if xs == [] then []
    else
      var rest := Select(xs[1..], Differs(xs[0]));
      var u := Unique(rest);
      UniqueStep(xs, rest, u);
      UniqueOrder(xs, rest, u, [xs[0]] + u);
      [xs[0]] + u
  }

  lemma UniqueStep<T(!new)>(xs: seq<T>, rest: seq<T>, u: seq<T>)
    requires xs != [] && rest == Select(xs[1..], Differs(xs[0]))
    requires NoDuplicates(u) && IsSubsequence(u, rest)
    requires forall x :: x in u <==> x in rest
    ensures NoDuplicates([xs[0]] + u)
    ensures forall x :: x in [xs[0]] + u <==> x in xs
    ensures IsSubsequence([xs[0]] + u, xs)
  {
    SubsequenceTransitive(u, rest, xs[1..]);
    assert xs[0] !in u;
    assert ([xs[0]] + u)[1..] == u;
    assert xs == [xs[0]] + xs[1..];
  }

  lemma UniqueOrder<T(!new)>(xs: seq<T>, rest: seq<T>, u: seq<T>, r: seq<T>)
    requires xs != [] && rest == Select(xs[1..], Differs(xs[0])) && r == [xs[0]] + u
    requires forall x :: x in u ==> x in rest
    requires forall i, j :: 0 <= i < j < |u| ==> FirstIndex(rest, u[i]) < FirstIndex(rest, u[j])
    ensures forall x :: x in r ==> x in xs
    ensures forall i, j :: 0 <= i < j < |r| ==> FirstIndex(xs, r[i]) < FirstIndex(xs, r[j])
  {
    forall x | x in r ensures x in xs {
      if x != xs[0] {
        assert x in u;
      }
    }
    forall i, j | 0 <= i < j < |r| ensures FirstIndex(xs, r[i]) < FirstIndex(xs, r[j]) {
      UniquePair(xs, rest, u, r, i, j);
    }
  }

  lemma UniquePair<T(!new)>(xs: seq<T>, rest: seq<T>, u: seq<T>, r: seq<T>, i: nat, j: nat)
    requires xs != [] && rest == Select(xs[1..], Differs(xs[0])) && r == [xs[0]] + u
    requires forall x :: x in u ==> x in rest
    requires forall i, j :: 0 <= i < j < |u| ==> FirstIndex(rest, u[i]) < FirstIndex(rest, u[j])
    requires i < j < |r|
    ensures r[i] in xs && r[j] in xs && FirstIndex(xs, r[i]) < FirstIndex(xs, r[j])
  {
    var z := u[j - 1];
    assert r[j] == z;
    assert z in rest;
    assert z in xs[1..] && z != xs[0];
    FirstIndexTail(xs, z);
    if i > 0 {
      var y := u[i - 1];
      assert r[i] == y;
      assert y in rest;
      assert y in xs[1..] && y != xs[0];
      FirstIndexTail(xs, y);
      SelectKeepsFirstOrder(xs[1..], Differs(xs[0]), y, z);
    }
  }

  lemma FirstIndexTail<T>(xs: seq<T>, y: T)
    requires xs != [] && y in xs[1..] && y != xs[0]
    ensures y in xs && FirstIndex(xs, y) == 1 + FirstIndex(xs[1..], y)
  {
    assert xs == [xs[0]] + xs[1..];
  }

  /** `head(n)`: the first `n` rows, or all of them when there are fewer. */
  function Head<T>(xs: seq<T>, n: nat): (r: seq<T>)
    ensures |r| == if |xs| < n then |xs| else n
    ensures forall i :: 0 <= i < |r| ==> r[i] == xs[i]
  {
    if |xs| <= n then xs else xs[..n]
  }
}
