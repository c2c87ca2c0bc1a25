/**
 * The aggregations behind the sales report: restrict the cleaned table to
 * 2019, total `Sales` per month and per city and pick the best of each, total
 * the quantity per product in descending order, and count which products are
 * bought together with "AAA Batteries (4-pack)" on multi-row orders.
 */
module Analyze {
  import opened Wrappers
  import opened Text
  import opened Frame
  import opened Process

  const AnalysisYear := 2019

  /** The product whose bundles the report studies. */
  const ReferenceProduct := "AAA Batteries (4-pack)"

  /** How many bundles the report shows. */
  const TopBundleCount := 5

  // ------------------------------------------------------------ the 2019 view

  /** `df[df["Order Date"].dt.year == 2019]`. */
  function Restrict2019(df: seq<CleanRecord>): (r: seq<CleanRecord>)
    ensures |r| <= |df|
    ensures forall i | 0 <= i < |r| :: r[i].orderDate.year == AnalysisYear
    ensures forall x :: x in r <==> x in df && x.orderDate.year == AnalysisYear
  {
    if df == [] then []
    else
      var n := |df| - 1;
      assert df == df[..n] + [df[n]];
      Restrict2019(df[..n]) + (if df[n].orderDate.year == AnalysisYear then [df[n]] else [])
  }

  /** The 2019 view holds each 2019 row as many times as the table does, and no other row. */
  lemma {:induction false} Restrict2019Multiplicity(df: seq<CleanRecord>)
    ensures forall x :: multiset(Restrict2019(df))[x] == if x.orderDate.year == AnalysisYear then multiset(df)[x] else 0
  {
    if df != [] {
      var n := |df| - 1;
      Restrict2019Multiplicity(df[..n]);
      assert df == df[..n] + [df[n]];
    }
  }

  /** A 2019 month has the same `Sales` total in the 2019 view as in the whole table. */
  lemma {:induction false} Restrict2019KeepsMonth(df: seq<CleanRecord>, m: YearMonth)
    requires m.year == AnalysisYear
    ensures Total(Restrict2019(df), PeriodOf, SalesOrZero, m) == Total(df, PeriodOf, SalesOrZero, m)
  {
    if df != [] {
      var n := |df| - 1;
      Restrict2019KeepsMonth(df[..n], m);
      var r, x := Restrict2019(df[..n]), df[n];
      assert Total(df, PeriodOf, SalesOrZero, m)
          == Total(df[..n], PeriodOf, SalesOrZero, m) + (if PeriodOf(x) == m then SalesOrZero(x) else 0);
      if x.orderDate.year == AnalysisYear {
        assert Restrict2019(df) == r + [x];
        assert (r + [x])[..|r|] == r;
      } else {
        assert Restrict2019(df) == r;
      }
    }
  }

  // ------------------------------------------------------------- group sums

  /** The `YearMonth` column as line 31 recomputes it from the order date. */
  function PeriodOf(c: CleanRecord): YearMonth {
    YearMonth(c.orderDate.year, c.orderDate.month)
  }

  /** A row's `Sales`, with a null counted as 0, as pandas' `sum()` skips nulls. */
  function SalesOrZero(c: CleanRecord): int {
    if c.sales.Some? then c.sales.value else 0
  }

  /** A row's `Quantity Ordered`, with a null counted as 0. */
  function QuantityOrZero(c: CleanRecord): int {
    if c.quantity.Some? then c.quantity.value else 0
  }

  function CityOf(c: CleanRecord): string {
    c.city
  }

  function ProductOf(c: CleanRecord): string {
    c.product
  }

  function OrderIdOf(c: CleanRecord): string {
    c.orderId
  }

  /** Chronological order of periods. */
  predicate PeriodLess(a: YearMonth, b: YearMonth) {
    a.year < b.year || (a.year == b.year && a.month < b.month)
  }

  lemma PeriodOrder()
    ensures StrictTotalOrder(PeriodLess)
  {
  }

  lemma StringOrder()
    ensures StrictTotalOrder(Less)
  {
    forall a: string ensures !Less(a, a) {
      LessIrreflexive(a);
    }
    forall a: string, b: string, c: string | Less(a, b) && Less(b, c) ensures Less(a, c) {
      LessTransitive(a, b, c);
    }
    forall a: string, b: string | a != b ensures Less(a, b) || Less(b, a) {
      LessTotal(a, b);
    }
  }

  /** `df.groupby("YearMonth")["Sales"].sum()`. */
  function MonthlySales(df: seq<CleanRecord>): seq<(YearMonth, int)> {
    GroupSum(df, PeriodOf, SalesOrZero, PeriodLess)
  }

  /** `df.groupby("City")["Sales"].sum()`. */
  function CitySales(df: seq<CleanRecord>): seq<(string, int)> {
    GroupSum(df, CityOf, SalesOrZero, Less)
  }

  /** `df.groupby("Product")["Quantity Ordered"].sum().sort_values(ascending=False)`. */
  function ProductSales(df: seq<CleanRecord>): seq<(string, int)> {
    SortDesc(GroupSum(df, ProductOf, QuantityOrZero, Less))
  }

  /**
   * One group per period present, in chronological order, each holding the
   * sum of `Sales` over the rows of that period; together they hold all sales.
   */
  lemma MonthlySalesSpec(df: seq<CleanRecord>)
    ensures var g := MonthlySales(df);
      && StrictlySorted(Firsts(g), PeriodLess)
      && (forall m :: m in Firsts(g) <==> exists i | 0 <= i < |df| :: PeriodOf(df[i]) == m)
      && (forall i | 0 <= i < |g| :: g[i].1 == Total(df, PeriodOf, SalesOrZero, g[i].0))
      && SumValues(g) == SumAll(df, SalesOrZero)
  {
    GroupSumAddsUp(df, PeriodOf, SalesOrZero, PeriodLess);
    PeriodOrder();
    GroupSumSorted(df, PeriodOf, SalesOrZero, PeriodLess);
    var ks := KeyList(df, PeriodOf);
    forall m ensures m in ks <==> exists i | 0 <= i < |df| :: PeriodOf(df[i]) == m {
      if m in ks {
        var i :| 0 <= i < |ks| && ks[i] == m;
        assert PeriodOf(df[i]) == m;
      }
    }
  }

  /**
   * One group per city label present, in label order, each holding the sum
   * of `Sales` over that city's rows; together they hold all sales.
   */
  lemma CitySalesSpec(df: seq<CleanRecord>)
    ensures var g := CitySales(df);
      && StrictlySorted(Firsts(g), Less)
      && (forall c :: c in Firsts(g) <==> exists i | 0 <= i < |df| :: df[i].city == c)
      && (forall i | 0 <= i < |g| :: g[i].1 == Total(df, CityOf, SalesOrZero, g[i].0))
      && SumValues(g) == SumAll(df, SalesOrZero)
  {
    GroupSumAddsUp(df, CityOf, SalesOrZero, Less);
    StringOrder();
    GroupSumSorted(df, CityOf, SalesOrZero, Less);
    var ks := KeyList(df, CityOf);
    forall c ensures c in ks <==> exists i | 0 <= i < |df| :: df[i].city == c {
      if c in ks {
        var i :| 0 <= i < |ks| && ks[i] == c;
        assert df[i].city == c;
      }
    }
  }

  /**
   * The product totals are the per-product sums of quantity, each product
   * once, in non-increasing order of total.
   */
  lemma ProductSalesSpec(df: seq<CleanRecord>)
    ensures var g := ProductSales(df);
      && NonIncreasing(g)
      && Distinct(Firsts(g))
      && (forall p :: p in Firsts(g) <==> exists i | 0 <= i < |df| :: df[i].product == p)
      && (forall i | 0 <= i < |g| :: g[i].1 == Total(df, ProductOf, QuantityOrZero, g[i].0))
  {
    var h := GroupSum(df, ProductOf, QuantityOrZero, Less);
    var g := SortDesc(h);
    PermutedGroups(h, g);
    var ks := KeyList(df, ProductOf);
    forall p ensures p in ks <==> exists i | 0 <= i < |df| :: df[i].product == p {
      if p in ks {
        var i :| 0 <= i < |ks| && ks[i] == p;
        assert df[i].product == p;
      }
    }
  }

  /** A permutation of groups has the same keys, still each once, with the same totals. */
  lemma PermutedGroups<K(!new)>(h: seq<(K, int)>, g: seq<(K, int)>)
    requires multiset(g) == multiset(h)
    requires Distinct(Firsts(h))
    ensures Distinct(Firsts(g))
    ensures forall k :: k in Firsts(g) <==> k in Firsts(h)
    ensures forall i | 0 <= i < |g| :: g[i] in h
  {
    forall i | 0 <= i < |g| ensures g[i] in h {
      assert g[i] in multiset(g);
    }
    forall k ensures k in Firsts(g) <==> k in Firsts(h) {
      if k in Firsts(g) {
        var i :| 0 <= i < |g| && g[i].0 == k;
        assert g[i] in h;
      }
      if k in Firsts(h) {
        var i :| 0 <= i < |h| && h[i].0 == k;
        assert h[i] in multiset(h);
        assert h[i] in g;
      }
    }
    forall i, j | 0 <= i < j < |g| ensures g[i].0 != g[j].0 {
      if g[i].0 == g[j].0 {
        SameKeySameGroup(h, g[i], g[j]);
        assert g[i] == g[j];
        assert multiset(g)[g[i]] >= 2 by { CountTwo(g, i, j); }
        assert h[..] == h;
        DistinctOnce(h, g[i]);
      }
    }
  }

  lemma SameKeySameGroup<K>(h: seq<(K, int)>, x: (K, int), y: (K, int))
    requires Distinct(Firsts(h))
    requires x in h && y in h && x.0 == y.0
    ensures x == y
  {
    var i :| 0 <= i < |h| && h[i] == x;
    var j :| 0 <= j < |h| && h[j] == y;
    assert Firsts(h)[i] == x.0 && Firsts(h)[j] == y.0;
  }

  lemma {:induction false} CountTwo<T>(s: seq<T>, i: nat, j: nat)
    requires i < j < |s| && s[i] == s[j]
    ensures multiset(s)[s[i]] >= 2
  {
    assert s == s[..i] + [s[i]] + s[i + 1..j] + [s[j]] + s[j + 1..];
  }

  lemma {:induction false} DistinctOnce<K>(h: seq<(K, int)>, x: (K, int))
    requires Distinct(Firsts(h))
    ensures multiset(h)[x] <= 1
  {
    if h != [] {
      var t := h[1..];
      assert h == [h[0]] + t;
      assert Distinct(Firsts(t)) by {
        forall i, j | 0 <= i < j < |t| ensures t[i].0 != t[j].0 {
          assert Firsts(h)[i + 1] != Firsts(h)[j + 1];
        }
      }
      DistinctOnce(t, x);
      assert forall j | 0 <= j < |t| :: Firsts(h)[j + 1] == t[j].0;
      assert h[0] != x || x !in t;
    }
  }

  // ------------------------------------------------------- repeated orders

  /** How many rows of `rows` carry Order ID `id`. */
  function Occurrences(rows: seq<CleanRecord>, id: string): (n: nat)
    ensures n <= |rows|
    ensures n == 0 <==> forall i | 0 <= i < |rows| :: rows[i].orderId != id
  {
    if rows == [] then 0
    else
      var k := |rows| - 1;
      Occurrences(rows[..k], id) + (if rows[k].orderId == id then 1 else 0)
  }

  /** The rows of `rows` whose Order ID occurs at least twice in `df`. */
  function KeepRepeated(rows: seq<CleanRecord>, df: seq<CleanRecord>): (r: seq<CleanRecord>)
    ensures |r| <= |rows|
    ensures forall x :: x in r <==> x in rows && Occurrences(df, x.orderId) >= 2
  {
    if rows == [] then []
    else
      var k := |rows| - 1;
      assert rows == rows[..k] + [rows[k]];
      KeepRepeated(rows[..k], df) + (if Occurrences(df, rows[k].orderId) >= 2 then [rows[k]] else [])
  }

  /** `df[df["Order ID"].duplicated(keep=False)]`. */
  function MultiOrders(df: seq<CleanRecord>): seq<CleanRecord> {
    KeepRepeated(df, df)
  }

  /** The products on the rows of order `id`, in row order. */
  function ProductsOf(rows: seq<CleanRecord>, id: string): (r: seq<string>)
    ensures |r| == Occurrences(rows, id)
    ensures forall p :: p in r <==> exists i | 0 <= i < |rows| :: rows[i].orderId == id && rows[i].product == p
  {
    if rows == [] then []
    else
      var k := |rows| - 1;
      var q := rows[..k];
      assert forall i | 0 <= i < k :: q[i] == rows[i];
      ProductsOf(q, id) + (if rows[k].orderId == id then [rows[k].product] else [])
  }

  /** `multi_orders.groupby("Order ID")["Product"].apply(list)`: one entry per order, in Order ID order. */
  function GroupedOrders(multi: seq<CleanRecord>): seq<(string, seq<string>)> {
    var ids := SortedKeys(KeyList(multi, OrderIdOf), Less);
    seq(|ids|, i requires 0 <= i < |ids| => (ids[i], ProductsOf(multi, ids[i])))
  }

  lemma {:induction false} RepeatedProducts(rows: seq<CleanRecord>, df: seq<CleanRecord>, id: string)
    requires Occurrences(df, id) >= 2
    ensures ProductsOf(KeepRepeated(rows, df), id) == ProductsOf(rows, id)
  {
    if rows != [] {
      var k := |rows| - 1;
      RepeatedProducts(rows[..k], df, id);
      var x := rows[k];
      var a := KeepRepeated(rows[..k], df);
      var b := if Occurrences(df, x.orderId) >= 2 then [x] else [];
      ProductsSplit(a, b, id);
    }
  }

  lemma {:induction false} ProductsSplit(a: seq<CleanRecord>, b: seq<CleanRecord>, id: string)
    ensures ProductsOf(a + b, id) == ProductsOf(a, id) + ProductsOf(b, id)
  {
    if b != [] {
      var k := |b| - 1;
      assert (a + b)[..|a| + k] == a + b[..k];
      ProductsSplit(a, b[..k], id);
    } else {
      assert a + b == a;
    }
  }

  lemma {:induction false} IdsOfRepeated(rows: seq<CleanRecord>, df: seq<CleanRecord>, id: string)
    requires Occurrences(df, id) >= 2
    requires exists i | 0 <= i < |rows| :: rows[i].orderId == id
    ensures exists i | 0 <= i < |KeepRepeated(rows, df)| :: KeepRepeated(rows, df)[i].orderId == id
  {
    var i :| 0 <= i < |rows| && rows[i].orderId == id;
    assert rows[i] in KeepRepeated(rows, df);
  }

  /**
   * One group per Order ID that occurs on two or more rows, in Order ID
   * order, holding that order's products in row order; every such order has
   * a group.
   */
  lemma GroupedOrdersSpec(df: seq<CleanRecord>)
    ensures var g := GroupedOrders(MultiOrders(df));
      && StrictlySorted(Firsts(g), Less)
      && (forall i | 0 <= i < |g| :: Occurrences(df, g[i].0) >= 2 && g[i].1 == ProductsOf(df, g[i].0))
      && (forall id :: Occurrences(df, id) >= 2 ==> id in Firsts(g))
  {
    var multi := MultiOrders(df);
    var ks := KeyList(multi, OrderIdOf);
    var ids := SortedKeys(ks, Less);
    var g := GroupedOrders(multi);
    StringOrder();
    SortedKeysSorted(ks, Less);
    assert Firsts(g) == ids;
    forall i | 0 <= i < |g| ensures Occurrences(df, g[i].0) >= 2 && g[i].1 == ProductsOf(df, g[i].0) {
      var id := ids[i];
      assert id in ks;
      var j :| 0 <= j < |ks| && ks[j] == id;
      assert multi[j] in multi;
      RepeatedProducts(df, df, id);
    }
    forall id | Occurrences(df, id) >= 2 ensures id in Firsts(g) {
      IdsOfRepeated(df, df, id);
      var j :| 0 <= j < |multi| && multi[j].orderId == id;
      assert ks[j] == id;
    }
  }

  /** Orders of a single row have no group, and every group lists at least two products. */
  lemma GroupsHaveTwoRows(df: seq<CleanRecord>)
    ensures forall e | e in GroupedOrders(MultiOrders(df)) :: |e.1| >= 2
  {
    GroupedOrdersSpec(df);
    var g := GroupedOrders(MultiOrders(df));
    forall e | e in g ensures |e.1| >= 2 {
      var i :| 0 <= i < |g| && g[i] == e;
    }
  }

  // -------------------------------------------------------- product pairs

  /** An unordered pair of products, stored with the smaller name first. */
  datatype Pair = Pair(lo: string, hi: string)

  predicate Canonical(p: Pair) {
    Less(p.lo, p.hi)
  }

  function MakePair(a: string, b: string): (p: Pair)
    requires a != b
    ensures Canonical(p)
    ensures (p.lo == a && p.hi == b) || (p.lo == b && p.hi == a)
  {
    LessTotal(a, b);
    if Less(a, b) then Pair(a, b) else Pair(b, a)
  }

  /** A canonical pair is determined by its two products. */
  lemma CanonicalUnique(p: Pair, q: Pair)
    requires Canonical(p) && Canonical(q)
    requires (p.lo == q.lo && p.hi == q.hi) || (p.lo == q.hi && p.hi == q.lo)
    ensures p == q
  {
    if p.lo == q.hi && p.hi == q.lo {
      LessTransitive(p.lo, p.hi, p.lo);
      LessIrreflexive(p.lo);
    }
  }

  /** The distinct elements of `s` appended to `ks`, each the first time it is met. */
  function Extend<T(==,!new)>(ks: seq<T>, s: seq<T>): (r: seq<T>)
    ensures forall x :: x in r <==> x in ks || x in s
    ensures Distinct(ks) ==> Distinct(r)
    ensures |ks| <= |r| && r[..|ks|] == ks
  {
    if s == [] then ks
    else
      var k := |s| - 1;
      assert s == s[..k] + [s[k]];
      AddNew(Extend(ks, s[..k]), s[k])
  }

  /** `e` with `y` appended unless it is already there. */
  function AddNew<T(==)>(e: seq<T>, y: T): seq<T> {
    if y in e then e else e + [y]
  }

  /** `set(products)`, enumerated in order of first occurrence. */
  function Dedup<T(==,!new)>(s: seq<T>): (r: seq<T>)
    ensures Distinct(r)
    ensures forall x :: x in r <==> x in s
  {
    Extend([], s)
  }

  lemma {:induction false} ExtendAppend<T(!new)>(ks: seq<T>, a: seq<T>, b: seq<T>)
    ensures Extend(ks, a + b) == Extend(Extend(ks, a), b)
  {
    if b == [] {
      assert a + b == a;
    } else {
      var k := |b| - 1;
      var y := b[k];
      assert a + b == (a + b[..k]) + [y];
      assert b == b[..k] + [y];
      ExtendSnoc(ks, a + b[..k], y);
      ExtendAppend(ks, a, b[..k]);
      ExtendSnoc(Extend(ks, a), b[..k], y);
    }
  }

  lemma ExtendSnoc<T(!new)>(ks: seq<T>, s: seq<T>, y: T)
    ensures Extend(ks, s + [y]) == AddNew(Extend(ks, s), y)
  {
    assert (s + [y])[..|s|] == s;
  }

  /** The pairs of `x` with each of `ys`. */
  function PairsWith(x: string, ys: seq<string>): (r: seq<Pair>)
    requires x !in ys
    ensures |r| == |ys|
    ensures forall i | 0 <= i < |ys| :: r[i] == MakePair(x, ys[i])
  {
    seq(|ys|, i requires 0 <= i < |ys| => MakePair(x, ys[i]))
  }

  /** `combinations(ds, 2)`: every two-element subset once, as a canonical pair. */
  function Combinations(ds: seq<string>): (r: seq<Pair>)
    requires Distinct(ds)
    ensures forall p | p in r :: Canonical(p) && p.lo in ds && p.hi in ds
  {
    if ds == [] then []
    else
      assert forall i | 1 <= i < |ds| :: ds[i] != ds[0];
      PairsWith(ds[0], ds[1..]) + Combinations(ds[1..])
  }

  /** The pairs bought together on one order. */
  function PairsOf(products: seq<string>): seq<Pair> {
    Combinations(Dedup(products))
  }

  /** A pair is among the combinations exactly when both its products are. */
  lemma {:induction false} CombinationsComplete(ds: seq<string>, p: Pair)
    requires Distinct(ds)
    ensures p in Combinations(ds) <==> Canonical(p) && p.lo in ds && p.hi in ds
  {
    if ds != [] && Canonical(p) && p.lo in ds && p.hi in ds {
      var x := ds[0];
      var rest := ds[1..];
      assert ds == [x] + rest;
      assert forall i | 0 <= i < |rest| :: rest[i] != x;
      LessIrreflexive(p.lo);
      if p.lo == x || p.hi == x {
        var o := if p.lo == x then p.hi else p.lo;
        assert o in rest;
        var i :| 0 <= i < |rest| && rest[i] == o;
        CanonicalUnique(p, MakePair(x, o));
        assert PairsWith(x, rest)[i] == p;
      } else {
        CombinationsComplete(rest, p);
      }
    }
  }

  /** No pair is produced twice. */
  lemma {:induction false} CombinationsDistinct(ds: seq<string>)
    requires Distinct(ds)
    ensures Distinct(Combinations(ds))
  {
    if ds != [] {
      var x := ds[0];
      var rest := ds[1..];
      assert forall i | 0 <= i < |rest| :: rest[i] != x;
      CombinationsDistinct(rest);
      var a := PairsWith(x, rest);
      var b := Combinations(rest);
      assert Distinct(a) by {
        forall i, j | 0 <= i < j < |a| ensures a[i] != a[j] {
          assert rest[i] != rest[j];
        }
      }
      assert forall i | 0 <= i < |a| :: a[i].lo == x || a[i].hi == x;
      assert forall q | q in b :: q.lo != x && q.hi != x;
      DistinctConcat(a, b);
    }
  }

  lemma DistinctConcat<T>(a: seq<T>, b: seq<T>)
    requires Distinct(a) && Distinct(b)
    requires forall x | x in a :: x !in b
    ensures Distinct(a + b)
  {
    var c := a + b;
    forall i, j | 0 <= i < j < |c| ensures c[i] != c[j] {
      if i < |a| && |a| <= j {
        assert c[i] in a && c[j] == b[j - |a|];
      }
    }
  }

  /** An order's pairs: each two distinct products on it once. */
  lemma PairsOfSpec(products: seq<string>)
    ensures Distinct(PairsOf(products))
    ensures forall p :: p in PairsOf(products) <==> Canonical(p) && p.lo in products && p.hi in products
  {
    CombinationsDistinct(Dedup(products));
    forall p ensures p in PairsOf(products) <==> Canonical(p) && p.lo in products && p.hi in products {
      CombinationsComplete(Dedup(products), p);
    }
  }

  /** An order whose rows all name one product contributes no pair. */
  lemma SingleProductNoPairs(products: seq<string>)
    requires forall i | 0 <= i < |products| :: products[i] == products[0]
    ensures forall p :: p !in PairsOf(products)
  {
    PairsOfSpec(products);
    var r := PairsOf(products);
    forall p | p in r ensures false {
      assert p.lo == products[0] && p.hi == products[0];
      LessIrreflexive(p.lo);
    }
  }

  // -------------------------------------------------------------- counting

  /** A `Counter` of pairs: the counts and the order in which keys were first inserted. */
  datatype Tally = Tally(counts: map<Pair, int>, keys: seq<Pair>)

  /** Every counted pair is listed once, and only counted pairs are listed. */
  ghost predicate WellFormed(t: Tally) {
    Distinct(t.keys) && forall p :: p in t.counts <==> p in t.keys
  }

  /** `counter[p]`: a missing key reads as 0. */
  function Count(t: Tally, p: Pair): int {
    if p in t.counts then t.counts[p] else 0
  }

  const EmptyTally := Tally(map[], [])

  /** One more `p`; a new key goes to the end of the key order. */
  function Bump(t: Tally, p: Pair): Tally {
    if p in t.counts then Tally(t.counts[p := t.counts[p] + 1], t.keys)
    else Tally(t.counts[p := 1], t.keys + [p])
  }

  /** `counter.update(ps)`. */
  function AddAll(t: Tally, ps: seq<Pair>): Tally {
    if ps == [] then t
    else
      var k := |ps| - 1;
      Bump(AddAll(t, ps[..k]), ps[k])
  }

  /** The counter after every order's pairs have been added, orders taken in turn. */
  function TallyOf(orders: seq<seq<string>>): Tally {
    if orders == [] then EmptyTally
    else
      var k := |orders| - 1;
      AddAll(TallyOf(orders[..k]), PairsOf(orders[k]))
  }

  /** All pairs in the order the loop feeds them to the counter. */
  function PairStream(orders: seq<seq<string>>): seq<Pair> {
    if orders == [] then []
    else
      var k := |orders| - 1;
      PairStream(orders[..k]) + PairsOf(orders[k])
  }

  /** How many orders list both `a` and `b`. */
  function OrdersWith(orders: seq<seq<string>>, a: string, b: string): (n: nat)
    ensures n <= |orders|
  {
    if orders == [] then 0
    else
      var k := |orders| - 1;
      OrdersWith(orders[..k], a, b) + (if a in orders[k] && b in orders[k] then 1 else 0)
  }

  /** Adding distinct pairs raises each of them by one and leaves the rest alone. */
  lemma {:induction false} AddAllCount(t: Tally, ps: seq<Pair>, p: Pair)
    requires Distinct(ps)
    ensures Count(AddAll(t, ps), p) == Count(t, p) + (if p in ps then 1 else 0)
  {
    if ps != [] {
      var k := |ps| - 1;
      var q := ps[..k];
      assert ps == q + [ps[k]];
      assert Distinct(q);
      assert ps[k] !in q;
      AddAllCount(t, q, p);
    }
  }

  /** Adding pairs keeps the counter well formed and appends the new keys in order of first insertion. */
  lemma {:induction false} AddAllKeys(t: Tally, ps: seq<Pair>)
    requires WellFormed(t)
    ensures WellFormed(AddAll(t, ps))
    ensures AddAll(t, ps).keys == Extend(t.keys, ps)
  {
    if ps != [] {
      var k := |ps| - 1;
      AddAllKeys(t, ps[..k]);
      var u := AddAll(t, ps[..k]);
      assert ps[k] in u.counts <==> ps[k] in u.keys;
    }
  }

  /** A pair's count is the number of orders that list both its products. */
  lemma {:induction false} TallyCounts(orders: seq<seq<string>>, p: Pair)
    ensures Count(TallyOf(orders), p) == if Canonical(p) then OrdersWith(orders, p.lo, p.hi) else 0
  {
    if orders != [] {
      var k := |orders| - 1;
      TallyCounts(orders[..k], p);
      PairsOfSpec(orders[k]);
      AddAllCount(TallyOf(orders[..k]), PairsOf(orders[k]), p);
    }
  }

  /** The counter lists each pair met once, in the order the pairs were first met. */
  lemma {:induction false} TallyKeys(orders: seq<seq<string>>)
    ensures WellFormed(TallyOf(orders))
    ensures TallyOf(orders).keys == Dedup(PairStream(orders))
  {
    if orders != [] {
      var k := |orders| - 1;
      TallyKeys(orders[..k]);
      AddAllKeys(TallyOf(orders[..k]), PairsOf(orders[k]));
      ExtendAppend([], PairStream(orders[..k]), PairsOf(orders[k]));
    }
  }

  /** The `Counter` the bundle loop fills. */
  class PairCounter {
    var counts: map<Pair, int>
    var keys: seq<Pair>

    constructor ()
      ensures counts == map[] && keys == []
    {
      counts := map[];
      keys := [];
    }

    function State(): Tally
      reads this
    {
      Tally(counts, keys)
    }

    /** `Counter.update(pairs)`, one pair at a time. */
    method Update(pairs: seq<Pair>)
      modifies this
      ensures State() == AddAll(old(State()), pairs)
    {
      var i := 0;
      while i < |pairs|
        invariant 0 <= i <= |pairs|
        invariant State() == AddAll(old(State()), pairs[..i])
      {
        var p := pairs[i];
        if p in counts {
          counts := counts[p := counts[p] + 1];
        } else {
          counts := counts[p := 1];
          keys := keys + [p];
        }
        assert pairs[..i + 1][..i] == pairs[..i];
        i := i + 1;
      }
      assert pairs[..|pairs|] == pairs;
    }
  }

  /** The loop over the grouped orders: each order's pairs added to one counter. */
  method CountPairs(orders: seq<seq<string>>) returns (t: Tally)
    ensures t == TallyOf(orders)
  {
    var counter := new PairCounter();
    for i := 0 to |orders|
      invariant counter.State() == TallyOf(orders[..i])
    {
      counter.Update(PairsOf(orders[i]));
      assert orders[..i + 1][..i] == orders[..i];
    }
    assert orders[..|orders|] == orders;
    t := counter.State();
  }

  // --------------------------------------------------------------- bundles

  /** `counter.items()`, in key order. */
  function Items(t: Tally): (r: seq<(Pair, int)>)
    ensures |r| == |t.keys|
    ensures forall i | 0 <= i < |r| :: r[i] == (t.keys[i], Count(t, t.keys[i]))
  {
    seq(|t.keys|, i requires 0 <= i < |t.keys| => (t.keys[i], Count(t, t.keys[i])))
  }

  predicate Involves(p: Pair, name: string) {
    p.lo == name || p.hi == name
  }

  /** The counted pairs that include `name`, in counter order. */
  function RelatedTo(items: seq<(Pair, int)>, name: string): (r: seq<(Pair, int)>)
    ensures |r| <= |items|
    ensures forall x :: x in r <==> x in items && Involves(x.0, name)
  {
    if items == [] then []
    else
      var k := |items| - 1;
      assert items == items[..k] + [items[k]];
      RelatedTo(items[..k], name) + (if Involves(items[k].0, name) then [items[k]] else [])
  }

  /** Filtering keeps the counter order. */
  lemma {:induction false} RelatedToBefore(items: seq<(Pair, int)>, name: string, x: (Pair, int), y: (Pair, int))
    requires Before(RelatedTo(items, name), x, y)
    ensures Before(items, x, y)
  {
    var k := |items| - 1;
    var q := items[..k];
    var a := RelatedTo(q, name);
    var b := if Involves(items[k].0, name) then [items[k]] else [];
    assert RelatedTo(items, name) == a + b;
    var i, j :| 0 <= i < j < |a + b| && (a + b)[i] == x && (a + b)[j] == y;
    assert (a + b)[i] == a[i];
    if j < |a| {
      assert a[j] == y;
      RelatedToBefore(q, name, x, y);
      var m, n :| 0 <= m < n < |q| && q[m] == x && q[n] == y;
      assert items[m] == x && items[n] == y;
    } else {
      assert x in a;
      var m :| 0 <= m < |q| && q[m] == x;
      assert items[m] == x && items[k] == y;
    }
  }

  /** `sorted(related, key=count, reverse=True)[:5]`. */
  function TopBundles(t: Tally): seq<(Pair, int)> {
    Take(SortDesc(RelatedTo(Items(t), ReferenceProduct)), TopBundleCount)
  }

  /** The product of `p` that is not `name`. */
  function Other(p: Pair, name: string): string {
    if p.hi == name then p.lo else p.hi
  }

  /** The chart labels: each bundle named by its other product, with its count. */
  function Labels(top: seq<(Pair, int)>): seq<(string, int)> {
    seq(|top|, i requires 0 <= i < |top| => (Other(top[i].0, ReferenceProduct), top[i].1))
  }

  /** The counter filled from the orders that span several rows. */
  function BundleTally(df: seq<CleanRecord>): Tally {
    TallyOf(Seconds(GroupedOrders(MultiOrders(df))))
  }

  function Bundles(df: seq<CleanRecord>): seq<(string, int)> {
    Labels(TopBundles(BundleTally(df)))
  }

  /** Every pair the loop feeds the counter is canonical. */
  lemma {:induction false} StreamCanonical(orders: seq<seq<string>>)
    ensures forall p | p in PairStream(orders) :: Canonical(p)
  {
    if orders != [] {
      StreamCanonical(orders[..|orders| - 1]);
    }
  }

  ghost predicate CanonicalKeys(t: Tally) {
    forall p | p in t.keys :: Canonical(p)
  }

  /** Each of at most five labels names a counted pair with the reference product, with its count. */
  lemma TopBundlesLabelled(t: Tally)
    requires CanonicalKeys(t)
    ensures var r := Labels(TopBundles(t));
      && |r| <= TopBundleCount
      && forall i | 0 <= i < |r| ::
           && r[i].0 != ReferenceProduct
           && BundlePair(r[i].0) == TopBundles(t)[i].0
           && BundlePair(r[i].0) in t.keys
           && r[i].1 == Count(t, BundlePair(r[i].0))
  {
    var items := Items(t);
    var rel := RelatedTo(items, ReferenceProduct);
    var s := SortDesc(rel);
    var top := TopBundles(t);
    var r := Labels(top);
    forall i | 0 <= i < |r| ensures
      && r[i].0 != ReferenceProduct
      && BundlePair(r[i].0) == top[i].0
      && BundlePair(r[i].0) in t.keys
      && r[i].1 == Count(t, BundlePair(r[i].0))
    {
      var x := top[i];
      assert x == s[i];
      assert x in multiset(s);
      assert x in rel;
      var j :| 0 <= j < |items| && items[j] == x;
      LabelNamesPair(x.0);
    }
  }

  /** The bundle counts do not increase down the list. */
  lemma TopBundlesOrdered(t: Tally)
    ensures var r := Labels(TopBundles(t));
      forall i, j | 0 <= i < j < |r| :: r[i].1 >= r[j].1
  {
    var s := SortDesc(RelatedTo(Items(t), ReferenceProduct));
    var top := TopBundles(t);
    assert forall i | 0 <= i < |top| :: top[i] == s[i];
  }

  /**
   * Every counted pair with the reference product is shown, unless five
   * are shown and none of them has a smaller count.
   */
  lemma TopBundlesMaximal(t: Tally)
    requires CanonicalKeys(t)
    ensures var r := Labels(TopBundles(t));
      forall p | p in t.keys && Involves(p, ReferenceProduct) ::
        (exists i | 0 <= i < |r| :: r[i].0 == Other(p, ReferenceProduct))
        || (|r| == TopBundleCount && forall i | 0 <= i < |r| :: Count(t, p) <= r[i].1)
  {
    var items := Items(t);
    var rel := RelatedTo(items, ReferenceProduct);
    var s := SortDesc(rel);
    var top := TopBundles(t);
    var r := Labels(top);
    forall p | p in t.keys && Involves(p, ReferenceProduct) ensures
      (exists i | 0 <= i < |r| :: r[i].0 == Other(p, ReferenceProduct))
      || (|r| == TopBundleCount && forall i | 0 <= i < |r| :: Count(t, p) <= r[i].1)
    {
      var j :| 0 <= j < |t.keys| && t.keys[j] == p;
      var x := items[j];
      assert x in rel;
      assert x in multiset(rel);
      TakeOfSorted(s, TopBundleCount, x);
      if x in top {
        var m :| 0 <= m < |top| && top[m] == x;
        assert r[m].0 == Other(p, ReferenceProduct);
      }
    }
  }

  /**
   * At most five bundles; each names a product other than the reference one
   * whose pair with it was counted, with that pair's count; counts do not
   * increase down the list; no pair left out has a larger count than one
   * kept, and when fewer than five are kept none is left out.
   */
  lemma BundlesSpec(df: seq<CleanRecord>)
    ensures var t := BundleTally(df);
      var r := Bundles(df);
      && |r| <= TopBundleCount
      && (forall i | 0 <= i < |r| ::
            && r[i].0 != ReferenceProduct
            && BundlePair(r[i].0) in t.keys
            && r[i].1 == Count(t, BundlePair(r[i].0)))
      && (forall i, j | 0 <= i < j < |r| :: r[i].1 >= r[j].1)
      && (forall i, j | 0 <= i < j < |r| && r[i].1 == r[j].1 :: Before(t.keys, BundlePair(r[i].0), BundlePair(r[j].0)))
      && (forall p | p in t.keys && Involves(p, ReferenceProduct) ::
            (exists i | 0 <= i < |r| :: r[i].0 == Other(p, ReferenceProduct))
            || (|r| == TopBundleCount && forall i | 0 <= i < |r| :: Count(t, p) <= r[i].1))
  {
    var orders := Seconds(GroupedOrders(MultiOrders(df)));
    var t := BundleTally(df);
    TallyKeys(orders);
    StreamCanonical(orders);
    TopBundlesLabelled(t);
    TopBundlesOrdered(t);
    TopBundlesTies(t);
    TopBundlesMaximal(t);
  }

  /**
   * Bundles of equal count appear in the order their pairs first entered
   * the counter, as `sorted` is stable.
   */
  lemma TopBundlesTies(t: Tally)
    ensures var top := TopBundles(t);
      forall i, j | 0 <= i < j < |top| && top[i].1 == top[j].1 :: Before(t.keys, top[i].0, top[j].0)
  {
    var items := Items(t);
    var rel := RelatedTo(items, ReferenceProduct);
    var s := SortDesc(rel);
    var top := TopBundles(t);
    forall i, j | 0 <= i < j < |top| && top[i].1 == top[j].1 ensures Before(t.keys, top[i].0, top[j].0) {
      var x, y := top[i], top[j];
      assert s[i] == x && s[j] == y;
      WithValueBefore(s, x.1, x, y);
      WithValueBefore(rel, x.1, x, y);
      RelatedToBefore(items, ReferenceProduct, x, y);
      var m, n :| 0 <= m < n < |items| && items[m] == x && items[n] == y;
      assert t.keys[m] == x.0 && t.keys[n] == y.0;
    }
  }

  /** The pair a label stands for. */
  function BundlePair(name: string): Pair {
    if Less(name, ReferenceProduct) then Pair(name, ReferenceProduct) else Pair(ReferenceProduct, name)
  }

  /** A counted pair is recovered from its label. */
  lemma LabelNamesPair(p: Pair)
    requires Canonical(p) && Involves(p, ReferenceProduct)
    ensures Other(p, ReferenceProduct) != ReferenceProduct
    ensures MakePair(Other(p, ReferenceProduct), ReferenceProduct) == p
    ensures BundlePair(Other(p, ReferenceProduct)) == p
  {
    LessIrreflexive(p.lo);
    CanonicalUnique(p, MakePair(Other(p, ReferenceProduct), ReferenceProduct));
  }

  // ---------------------------------------------------------------- report

  /** The figures the report prints beside its charts. */
  datatype Report = Report(
    monthlySales: seq<(YearMonth, int)>,
    bestMonth: (YearMonth, int),
    citySales: seq<(string, int)>,
    bestCity: (string, int),
    productSales: seq<(string, int)>,
    bestProduct: (string, int),
    bundles: seq<(string, int)>)

  /** The totals have a group for every row's key, so none is empty when a row is left. */
  lemma NonEmptyGroups(d: seq<CleanRecord>)
    requires d != []
    ensures |MonthlySales(d)| > 0 && |CitySales(d)| > 0 && |ProductSales(d)| > 0
  {
    assert KeyList(d, PeriodOf)[0] in KeyList(d, PeriodOf);
    assert KeyList(d, CityOf)[0] in KeyList(d, CityOf);
    assert KeyList(d, ProductOf)[0] in KeyList(d, ProductOf);
  }

  /**
   * The aggregations of the report over the 2019 rows, or none when there
   * are no 2019 rows (`idxmax()` raises on an empty series).
   */
  function GenerateReport(df: seq<CleanRecord>): (r: Option<Report>)
    ensures r.None? <==> Restrict2019(df) == []
  {
    var d := Restrict2019(df);
    if d == [] then None
    else
      NonEmptyGroups(d);
      var monthly := MonthlySales(d);
      var city := CitySales(d);
      var product := ProductSales(d);
      Some(Report(
        monthly, monthly[ArgMax(monthly)],
        city, city[ArgMax(city)],
        product, product[ArgMax(product)],
        Bundles(d)))
  }

  /**
   * The best month is a 2019 month whose total is its rows' `Sales` sum, no
   * month has a larger total, and every earlier month has a smaller one.
   */
  lemma BestMonthSpec(df: seq<CleanRecord>)
    ensures var r := GenerateReport(df);
      var d := Restrict2019(df);
      r.Some? ==>
        var b := r.value.bestMonth;
        && b.0.year == AnalysisYear
        && b.1 == Total(d, PeriodOf, SalesOrZero, b.0)
        && (forall x | x in d :: Total(d, PeriodOf, SalesOrZero, PeriodOf(x)) <= b.1)
        && (forall x | x in d && PeriodLess(PeriodOf(x), b.0) :: Total(d, PeriodOf, SalesOrZero, PeriodOf(x)) < b.1)
  {
    var d := Restrict2019(df);
    if d != [] {
      BestOfMonthly(d);
    }
  }

  lemma BestOfMonthly(d: seq<CleanRecord>)
    requires d != []
    ensures |MonthlySales(d)| > 0
    ensures var g := MonthlySales(d);
      var b := g[ArgMax(g)];
      && (exists x | x in d :: PeriodOf(x) == b.0)
      && b.1 == Total(d, PeriodOf, SalesOrZero, b.0)
      && (forall x | x in d :: Total(d, PeriodOf, SalesOrZero, PeriodOf(x)) <= b.1)
      && (forall x | x in d && PeriodLess(PeriodOf(x), b.0) :: Total(d, PeriodOf, SalesOrZero, PeriodOf(x)) < b.1)
  {
    NonEmptyGroups(d);
    var g := MonthlySales(d);
    MonthlySalesSpec(d);
    PeriodOrder();
    FirstMaxSmallestKey(g, PeriodLess);
    var i := ArgMax(g);
    assert g[i].0 in Firsts(g);
    var k :| 0 <= k < |d| && PeriodOf(d[k]) == g[i].0;
    assert d[k] in d;
    forall x | x in d ensures exists j | 0 <= j < |g| :: g[j].0 == PeriodOf(x) {
      var m :| 0 <= m < |d| && d[m] == x;
      assert PeriodOf(x) in Firsts(g);
    }
  }

  /**
   * The best city is a city of a 2019 row whose total is its rows' `Sales`
   * sum, no city has a larger total, and every city whose label sorts
   * earlier has a smaller one.
   */
  lemma BestCitySpec(df: seq<CleanRecord>)
    ensures var r := GenerateReport(df);
      var d := Restrict2019(df);
      r.Some? ==>
        var b := r.value.bestCity;
        && (exists x | x in d :: x.city == b.0)
        && b.1 == Total(d, CityOf, SalesOrZero, b.0)
        && (forall x | x in d :: Total(d, CityOf, SalesOrZero, x.city) <= b.1)
        && (forall x | x in d && Less(x.city, b.0) :: Total(d, CityOf, SalesOrZero, x.city) < b.1)
  {
    var d := Restrict2019(df);
    if d != [] {
      BestOfCities(d);
    }
  }

  lemma BestOfCities(d: seq<CleanRecord>)
    requires d != []
    ensures |CitySales(d)| > 0
    ensures var g := CitySales(d);
      var b := g[ArgMax(g)];
      && (exists x | x in d :: x.city == b.0)
      && b.1 == Total(d, CityOf, SalesOrZero, b.0)
      && (forall x | x in d :: Total(d, CityOf, SalesOrZero, x.city) <= b.1)
      && (forall x | x in d && Less(x.city, b.0) :: Total(d, CityOf, SalesOrZero, x.city) < b.1)
  {
    NonEmptyGroups(d);
    var g := CitySales(d);
    CitySalesSpec(d);
    StringOrder();
    FirstMaxSmallestKey(g, Less);
    var i := ArgMax(g);
    assert g[i].0 in Firsts(g);
    var k :| 0 <= k < |d| && d[k].city == g[i].0;
    assert d[k] in d;
    forall x | x in d ensures exists j | 0 <= j < |g| :: g[j].0 == x.city {
      var m :| 0 <= m < |d| && d[m] == x;
      assert x.city in Firsts(g);
    }
  }

  /**
   * The best product heads the descending ranking, its total is its rows'
   * quantity sum, and no product has a larger total.
   */
  lemma BestProductSpec(df: seq<CleanRecord>)
    ensures var r := GenerateReport(df);
      var d := Restrict2019(df);
      r.Some? ==>
        var b := r.value.bestProduct;
        && b == r.value.productSales[0]
        && b.1 == Total(d, ProductOf, QuantityOrZero, b.0)
        && (forall x | x in d :: Total(d, ProductOf, QuantityOrZero, x.product) <= b.1)
  {
    var d := Restrict2019(df);
    if d != [] {
      NonEmptyGroups(d);
      var g := ProductSales(d);
      ProductSalesSpec(d);
      SortedMaxIsFirst(GroupSum(d, ProductOf, QuantityOrZero, Less));
      forall x | x in d ensures exists j | 0 <= j < |g| :: g[j].0 == x.product {
        var k :| 0 <= k < |d| && d[k] == x;
        assert x.product in Firsts(g);
      }
    }
  }

  // -------------------------------------------------------------- examples

  /**
   * Orders [a, b], [a, c] and [a]: the pairs (a, b) and (a, c) are counted
   * once each, in that order, and the single-product order adds nothing.
   */
  lemma BundleExample(a: string, b: string, c: string)
    requires a != b && a != c && b != c
    ensures var t := TallyOf([[a, b], [a, c], [a]]);
      && Count(t, MakePair(a, b)) == 1
      && Count(t, MakePair(a, c)) == 1
      && Count(t, MakePair(b, c)) == 0
      && t.keys == [MakePair(a, b), MakePair(a, c)]
  {
    var orders := [[a, b], [a, c], [a]];
    ExampleCount(a, b, c, MakePair(a, b), 1);
    ExampleCount(a, b, c, MakePair(a, c), 1);
    ExampleCount(a, b, c, MakePair(b, c), 0);
    ExampleKeys(a, b, c);
  }

  lemma ExampleCount(a: string, b: string, c: string, p: Pair, n: nat)
    requires a != b && a != c && b != c
    requires (p == MakePair(a, b) && n == 1) || (p == MakePair(a, c) && n == 1) || (p == MakePair(b, c) && n == 0)
    ensures Count(TallyOf([[a, b], [a, c], [a]]), p) == n
  {
    var orders := [[a, b], [a, c], [a]];
    assert orders[..2] == [[a, b], [a, c]] && orders[..1] == [[a, b]] && orders[..0] == [];
    TallyCounts(orders, p);
    var x, y := p.lo, p.hi;
    var n1 := if x in [a, b] && y in [a, b] then 1 else 0;
    var n2 := if x in [a, c] && y in [a, c] then 1 else 0;
    var n3 := if x in [a] && y in [a] then 1 else 0;
    assert OrdersWith(orders[..1], x, y) == n1;
    assert OrdersWith(orders[..2], x, y) == n1 + n2;
    assert OrdersWith(orders, x, y) == n1 + n2 + n3;
    LessIrreflexive(a);
  }

  lemma ExampleKeys(a: string, b: string, c: string)
    requires a != b && a != c && b != c
    ensures TallyOf([[a, b], [a, c], [a]]).keys == [MakePair(a, b), MakePair(a, c)]
  {
    TallyKeys([[a, b], [a, c], [a]]);
    ExampleStream(a, b, c);
    DedupTwo(MakePair(a, b), MakePair(a, c));
  }

  lemma ExampleStream(a: string, b: string, c: string)
    requires a != b && a != c && b != c
    ensures PairStream([[a, b], [a, c], [a]]) == [MakePair(a, b), MakePair(a, c)]
  {
    StreamOfThree([a, b], [a, c], [a]);
    PairsOfTwo(a, b);
    PairsOfTwo(a, c);
    PairsOfOne(a);
  }

  lemma StreamOfThree(o1: seq<string>, o2: seq<string>, o3: seq<string>)
    ensures PairStream([o1, o2, o3]) == PairsOf(o1) + PairsOf(o2) + PairsOf(o3)
  {
    var orders := [o1, o2, o3];
    assert orders[..2] == [o1, o2] && orders[..1] == [o1] && orders[..0] == [];
    assert [o1, o2][..1] == [o1] && [o1][..0] == [];
    assert PairStream([o1]) == [] + PairsOf(o1);
    assert PairStream([o1, o2]) == PairsOf(o1) + PairsOf(o2);
  }

  lemma PairsOfOne(a: string)
    ensures PairsOf([a]) == []
  {
    DedupOne(a);
    assert [a][1..] == [];
    assert |PairsWith(a, [])| == 0;
    assert Combinations([a]) == PairsWith(a, []) + Combinations([]);
  }

  lemma DedupOne<T(!new)>(x: T)
    ensures Dedup([x]) == [x]
  {
    assert [x][..0] == [];
    assert Extend([], [x][..0]) == [];
    assert AddNew([], x) == [x];
  }

  lemma DedupTwo<T(!new)>(x: T, y: T)
    requires x != y
    ensures Dedup([x, y]) == [x, y]
  {
    assert [x, y][..1] == [x];
    assert Extend([], [x]) == [x];
  }

  lemma PairsOfTwo(a: string, b: string)
    requires a != b
    ensures PairsOf([a, b]) == [MakePair(a, b)]
  {
    assert [a, b][..1] == [a];
    assert Extend([], [a]) == [a];
    assert Dedup([a, b]) == [a, b];
    assert [a, b][1..] == [b];
    assert Combinations([b]) == [] by { assert [b][1..] == []; }
  }

  /** A row of the cleaned table dated on the first of a month, with the given `Sales`. */
  function SaleIn(year: int, month: int, cents: int): CleanRecord {
    CleanRecord("1", "Widget", Some(1), Some(cents), DateTime(year, month, 1, 0, 0), "1 Main St, Dallas, TX 75001",
                YearMonth(year, month), month, "Dallas (TX)", Some(cents))
  }

  /**
   * January 2019 with 100, February 2019 with 50 and December 2018: the
   * December row is not in the 2019 view, and January is the best month.
   */
  lemma MonthlyExample()
    ensures var df := [SaleIn(2019, 1, 100), SaleIn(2019, 2, 50), SaleIn(2018, 12, 70)];
      && Restrict2019(df) == df[..2]
      && GenerateReport(df).Some?
      && GenerateReport(df).value.bestMonth == (YearMonth(2019, 1), 100)
  {
    var jan, feb, dec := SaleIn(2019, 1, 100), SaleIn(2019, 2, 50), SaleIn(2018, 12, 70);
    var df := [jan, feb, dec];
    ExampleView(jan, feb, dec);
    var d := [jan, feb];
    ExampleTotals(jan, feb);
    BestOfMonthly(d);
    var g := MonthlySales(d);
    var b := g[ArgMax(g)];
    var x :| x in d && PeriodOf(x) == b.0;
    assert jan in d;
  }

  lemma ExampleView(jan: CleanRecord, feb: CleanRecord, dec: CleanRecord)
    requires jan.orderDate.year == 2019 && feb.orderDate.year == 2019 && dec.orderDate.year == 2018
    ensures Restrict2019([jan, feb, dec]) == [jan, feb]
  {
    var df := [jan, feb, dec];
    assert df[..2] == [jan, feb] && df[..1] == [jan] && df[..0] == [];
  }

  lemma ExampleTotals(jan: CleanRecord, feb: CleanRecord)
    requires jan == SaleIn(2019, 1, 100) && feb == SaleIn(2019, 2, 50)
    ensures Total([jan, feb], PeriodOf, SalesOrZero, YearMonth(2019, 1)) == 100
    ensures Total([jan, feb], PeriodOf, SalesOrZero, YearMonth(2019, 2)) == 50
  {
    var d := [jan, feb];
    assert d[..1] == [jan];
    var m1, m2 := YearMonth(2019, 1), YearMonth(2019, 2);
    assert PeriodOf(jan) == m1 && PeriodOf(feb) == m2 && m1 != m2;
    assert SalesOrZero(jan) == 100 && SalesOrZero(feb) == 50;
    assert Total([jan], PeriodOf, SalesOrZero, m1) == 100;
    assert Total([jan], PeriodOf, SalesOrZero, m2) == 0;
  }
}
