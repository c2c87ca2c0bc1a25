/**
 * The table operations of pandas and Python that the report is built from,
 * stated over sequences of rows: `groupby(key)[col].sum()` (groups come out
 * with their keys in sorted order), `idxmax()`/`max()` (the first maximum),
 * `sorted(..., reverse=True)` (a stable sort on the value, largest first)
 * and `[:n]`.
 */
module Frame {

  /** The relation `lt` is a strict total order (irreflexive, transitive, total on distinct elements). */
  ghost predicate StrictTotalOrder<K(!new)>(lt: (K, K) -> bool) {
    && (forall a :: !lt(a, a))
    && (forall a, b, c :: lt(a, b) && lt(b, c) ==> lt(a, c))
    && (forall a, b :: a != b ==> lt(a, b) || lt(b, a))
  }

  predicate StrictlySorted<K>(ks: seq<K>, lt: (K, K) -> bool) {
    forall i, j | 0 <= i < j < |ks| :: lt(ks[i], ks[j])
  }

  predicate Distinct<K(==)>(ks: seq<K>) {
    forall i, j | 0 <= i < j < |ks| :: ks[i] != ks[j]
  }

  /** The key column of a table, row by row. */
  function KeyList<T, K>(rows: seq<T>, key: T -> K): (r: seq<K>)
    ensures |r| == |rows|
    ensures forall i | 0 <= i < |rows| :: r[i] == key(rows[i])
  {
    seq(|rows|, i requires 0 <= i < |rows| => key(rows[i]))
  }

  /** The keys of a grouped result, in order. */
  function Firsts<K, V>(g: seq<(K, V)>): (r: seq<K>)
    ensures |r| == |g|
    ensures forall i | 0 <= i < |g| :: r[i] == g[i].0
  {
    seq(|g|, i requires 0 <= i < |g| => g[i].0)
  }

  /** The values of a grouped result, in order. */
  function Seconds<K, V>(g: seq<(K, V)>): (r: seq<V>)
    ensures |r| == |g|
    ensures forall i | 0 <= i < |g| :: r[i] == g[i].1
  {
    seq(|g|, i requires 0 <= i < |g| => g[i].1)
  }

  /** The sum of `val` over the rows whose key is `k` (what one group of `groupby(key)[val].sum()` holds). */
  function Total<T, K(==)>(rows: seq<T>, key: T -> K, val: T -> int, k: K): int {
    if rows == [] then 0
    else
      var last := rows[|rows| - 1];
      Total(rows[..|rows| - 1], key, val, k) + (if key(last) == k then val(last) else 0)
  }

  /** Inserts a new key into an ordered key list in front of the first larger key. */
  function InsertKey<K(==,!new)>(k: K, ks: seq<K>, lt: (K, K) -> bool): (r: seq<K>)
    requires k !in ks
    ensures |r| == |ks| + 1
    ensures forall x :: x in r <==> x == k || x in ks
    ensures Distinct(ks) ==> Distinct(r)
  {
    if ks == [] || lt(k, ks[0]) then [k] + ks
    else
      var t := InsertKey(k, ks[1..], lt);
      assert Distinct(ks) ==> Distinct(ks[1..]) && ks[0] !in t by {
        if Distinct(ks) {
          assert forall i, j | 0 <= i < j < |ks[1..]| :: ks[1..][i] == ks[i + 1] && ks[1..][j] == ks[j + 1];
          assert ks[0] !in ks[1..];
        }
      }
      [ks[0]] + t
  }

  /** The distinct keys, each once, in the order `lt` (the index of a pandas groupby result). */
  function SortedKeys<K(==,!new)>(ks: seq<K>, lt: (K, K) -> bool): (r: seq<K>)
    ensures Distinct(r)
    ensures forall x :: x in r <==> x in ks
  {
    if ks == [] then []
    else
      var p := SortedKeys(ks[..|ks| - 1], lt);
      var k := ks[|ks| - 1];
      assert ks == ks[..|ks| - 1] + [k];
      if k in p then p else InsertKey(k, p, lt)
  }

  lemma {:induction false} InsertKeySorted<K(!new)>(k: K, ks: seq<K>, lt: (K, K) -> bool)
    requires StrictTotalOrder(lt)
    requires StrictlySorted(ks, lt) && k !in ks
    ensures StrictlySorted(InsertKey(k, ks, lt), lt)
  {
    if ks != [] && !lt(k, ks[0]) {
      assert lt(ks[0], k) by { assert k != ks[0]; }
      InsertKeySorted(k, ks[1..], lt);
      var r := InsertKey(k, ks, lt);
      var t := InsertKey(k, ks[1..], lt);
      assert r == [ks[0]] + t;
      forall j | 1 <= j < |r|
        ensures lt(r[0], r[j])
      {
        assert r[j] in t;
        assert r[j] == k || r[j] in ks[1..];
      }
    }
  }

  /** The groupby index is in increasing key order. */
  lemma {:induction false} SortedKeysSorted<K(!new)>(ks: seq<K>, lt: (K, K) -> bool)
    requires StrictTotalOrder(lt)
    ensures StrictlySorted(SortedKeys(ks, lt), lt)
  {
    if ks != [] {
      SortedKeysSorted(ks[..|ks| - 1], lt);
      var p := SortedKeys(ks[..|ks| - 1], lt);
      if ks[|ks| - 1] !in p {
        InsertKeySorted(ks[|ks| - 1], p, lt);
      }
    }
  }

  /**
   * `rows.groupby(key)[val].sum()`: one group per distinct key, in key order,
   * each holding the sum of `val` over the rows with that key.
   */
  function GroupSum<T, K(==,!new)>(rows: seq<T>, key: T -> K, val: T -> int, lt: (K, K) -> bool): (r: seq<(K, int)>)
    ensures Distinct(Firsts(r))
    ensures forall k :: k in Firsts(r) <==> k in KeyList(rows, key)
    ensures forall i | 0 <= i < |r| :: r[i].1 == Total(rows, key, val, r[i].0)
  {
    var ks := SortedKeys(KeyList(rows, key), lt);
    var g := seq(|ks|, i requires 0 <= i < |ks| => (ks[i], Total(rows, key, val, ks[i])));
    assert Firsts(g) == ks;
    g
  }

  /** The sum of `val` over all rows. */
  function SumAll<T>(rows: seq<T>, val: T -> int): int {
    if rows == [] then 0 else SumAll(rows[..|rows| - 1], val) + val(rows[|rows| - 1])
  }

  /** The sum of the values of a grouped result. */
  function SumValues<K>(g: seq<(K, int)>): int {
    if g == [] then 0 else SumValues(g[..|g| - 1]) + g[|g| - 1].1
  }

  /** The sum, over the keys `ks`, of each key's total. */
  function TotalOver<T, K(==)>(rows: seq<T>, key: T -> K, val: T -> int, ks: seq<K>): int {
    if ks == [] then 0
    else TotalOver(rows, key, val, ks[..|ks| - 1]) + Total(rows, key, val, ks[|ks| - 1])
  }

  /** One more row adds its value to the total of exactly one of distinct keys, if its key is among them. */
  lemma {:induction false} TotalOverSnoc<T, K>(rows: seq<T>, key: T -> K, val: T -> int, ks: seq<K>, x: T)
    requires Distinct(ks)
    ensures TotalOver(rows + [x], key, val, ks) == TotalOver(rows, key, val, ks) + (if key(x) in ks then val(x) else 0)
  {
    assert (rows + [x])[..|rows|] == rows;
    if ks != [] {
      var n := |ks| - 1;
      var q := ks[..n];
      assert ks == q + [ks[n]];
      assert Distinct(q);
      assert ks[n] !in q;
      TotalOverSnoc(rows, key, val, q, x);
    }
  }

  /** Summing the totals of distinct keys that cover every row gives the sum over all rows. */
  lemma {:induction false} TotalOverAll<T, K>(rows: seq<T>, key: T -> K, val: T -> int, ks: seq<K>)
    requires Distinct(ks)
    requires forall i | 0 <= i < |rows| :: key(rows[i]) in ks
    ensures TotalOver(rows, key, val, ks) == SumAll(rows, val)
  {
    if rows == [] {
      TotalOverEmpty(key, val, ks);
    } else {
      var n := |rows| - 1;
      var q := rows[..n];
      assert rows == q + [rows[n]];
      TotalOverAll(q, key, val, ks);
      TotalOverSnoc(q, key, val, ks, rows[n]);
    }
  }

  lemma {:induction false} TotalOverEmpty<T, K>(key: T -> K, val: T -> int, ks: seq<K>)
    ensures TotalOver([], key, val, ks) == 0
  {
    if ks != [] {
      TotalOverEmpty(key, val, ks[..|ks| - 1]);
    }
  }

  lemma {:induction false} SumValuesTotals<T, K>(g: seq<(K, int)>, rows: seq<T>, key: T -> K, val: T -> int)
    requires forall i | 0 <= i < |g| :: g[i].1 == Total(rows, key, val, g[i].0)
    ensures SumValues(g) == TotalOver(rows, key, val, Firsts(g))
  {
    if g != [] {
      var n := |g| - 1;
      SumValuesTotals(g[..n], rows, key, val);
      assert Firsts(g)[..n] == Firsts(g[..n]);
    }
  }

  /** The group totals add up to the sum over all rows: no row is lost or counted twice. */
  lemma GroupSumAddsUp<T, K(!new)>(rows: seq<T>, key: T -> K, val: T -> int, lt: (K, K) -> bool)
    ensures SumValues(GroupSum(rows, key, val, lt)) == SumAll(rows, val)
  {
    var g := GroupSum(rows, key, val, lt);
    SumValuesTotals(g, rows, key, val);
    forall i | 0 <= i < |rows| ensures key(rows[i]) in Firsts(g) {
      assert KeyList(rows, key)[i] == key(rows[i]);
    }
    TotalOverAll(rows, key, val, Firsts(g));
  }

  /** The groups of `GroupSum` come out in increasing key order. */
  lemma GroupSumSorted<T, K(!new)>(rows: seq<T>, key: T -> K, val: T -> int, lt: (K, K) -> bool)
    requires StrictTotalOrder(lt)
    ensures StrictlySorted(Firsts(GroupSum(rows, key, val, lt)), lt)
  {
    SortedKeysSorted(KeyList(rows, key), lt);
    assert Firsts(GroupSum(rows, key, val, lt)) == SortedKeys(KeyList(rows, key), lt);
  }

  /** `idxmax()`: the position of the first largest value. */
  function ArgMax<K>(g: seq<(K, int)>): (i: nat)
    requires |g| > 0
    ensures i < |g|
    ensures forall j | 0 <= j < |g| :: g[j].1 <= g[i].1
    ensures forall j | 0 <= j < i :: g[j].1 < g[i].1
  {
    if |g| == 1 then 0
    else
      var j := ArgMax(g[..|g| - 1]);
      if g[|g| - 1].1 > g[j].1 then |g| - 1 else j
  }

  /**
   * In key order, `idxmax()` breaks ties towards the smallest key: every
   * group with a smaller key holds a strictly smaller value.
   */
  lemma FirstMaxSmallestKey<K(!new)>(g: seq<(K, int)>, lt: (K, K) -> bool)
    requires |g| > 0
    requires StrictTotalOrder(lt) && StrictlySorted(Firsts(g), lt)
    ensures var b := g[ArgMax(g)];
      forall j | 0 <= j < |g| && lt(g[j].0, b.0) :: g[j].1 < b.1
  {
    var i := ArgMax(g);
    var ks := Firsts(g);
    forall j | 0 <= j < |g| && lt(g[j].0, g[i].0) ensures g[j].1 < g[i].1 {
      if i <= j {
        SortedNotBefore(ks, lt, i, j);
      }
    }
  }

  /** In a strictly sorted sequence no later key is below an earlier one. */
  lemma SortedNotBefore<K(!new)>(ks: seq<K>, lt: (K, K) -> bool, i: nat, j: nat)
    requires StrictTotalOrder(lt) && StrictlySorted(ks, lt)
    requires i <= j < |ks|
    ensures !lt(ks[j], ks[i])
  {
    if i < j {
      var a, b := ks[i], ks[j];
      assert lt(a, b);
      assert lt(b, a) ==> lt(a, a);
    }
  }

  predicate NonIncreasing<K>(g: seq<(K, int)>) {
    forall i, j | 0 <= i < j < |g| :: g[i].1 >= g[j].1
  }

  /** The entries whose value is `c`, in their order. */
  function WithValue<K>(g: seq<(K, int)>, c: int): seq<(K, int)> {
    if g == [] then []
    else (if g[0].1 == c then [g[0]] else []) + WithValue(g[1..], c)
  }

  /** `x` occurs before `y` in `s`. */
  ghost predicate Before<T>(s: seq<T>, x: T, y: T) {
    exists i, j | 0 <= i < j < |s| :: s[i] == x && s[j] == y
  }

  lemma {:induction false} WithValueMember<K>(g: seq<(K, int)>, c: int, x: (K, int))
    ensures x in WithValue(g, c) <==> x in g && x.1 == c
  {
    if g != [] {
      WithValueMember(g[1..], c, x);
      assert g == [g[0]] + g[1..];
    }
  }

  /** Two entries of value `c` keep their relative order when the entries of value `c` are picked out. */
  lemma WithValueBefore<K>(g: seq<(K, int)>, c: int, x: (K, int), y: (K, int))
    requires x.1 == c && y.1 == c
    ensures Before(WithValue(g, c), x, y) <==> Before(g, x, y)
  {
    if Before(g, x, y) {
      WithValueKeepsBefore(g, c, x, y);
    }
    if Before(WithValue(g, c), x, y) {
      WithValueBeforeIn(g, c, x, y);
    }
  }

  lemma {:induction false} WithValueKeepsBefore<K>(g: seq<(K, int)>, c: int, x: (K, int), y: (K, int))
    requires x.1 == c && y.1 == c && Before(g, x, y)
    ensures Before(WithValue(g, c), x, y)
  {
    var t := g[1..];
    var h := if g[0].1 == c then [g[0]] else [];
    var w := WithValue(t, c);
    assert WithValue(g, c) == h + w;
    var i, j :| 0 <= i < j < |g| && g[i] == x && g[j] == y;
    assert t[j - 1] == y;
    if i == 0 {
      WithValueMember(t, c, y);
      var m :| 0 <= m < |w| && w[m] == y;
      assert (h + w)[0] == x && (h + w)[|h| + m] == y;
    } else {
      assert t[i - 1] == x;
      WithValueKeepsBefore(t, c, x, y);
      var a, b :| 0 <= a < b < |w| && w[a] == x && w[b] == y;
      assert (h + w)[|h| + a] == x && (h + w)[|h| + b] == y;
    }
  }

  lemma {:induction false} WithValueBeforeIn<K>(g: seq<(K, int)>, c: int, x: (K, int), y: (K, int))
    requires Before(WithValue(g, c), x, y)
    ensures Before(g, x, y)
  {
    var t := g[1..];
    var h := if g[0].1 == c then [g[0]] else [];
    var w := WithValue(t, c);
    assert WithValue(g, c) == h + w;
    var i, j :| 0 <= i < j < |h + w| && (h + w)[i] == x && (h + w)[j] == y;
    assert w[j - |h|] == y;
    if i < |h| {
      WithValueMember(t, c, y);
      var m :| 0 <= m < |t| && t[m] == y;
      assert g[0] == x && g[m + 1] == y;
    } else {
      assert w[i - |h|] == x;
      WithValueBeforeIn(t, c, x, y);
      var a, b :| 0 <= a < b < |t| && t[a] == x && t[b] == y;
      assert g[a + 1] == x && g[b + 1] == y;
    }
  }

  /** Inserts `x` in front of the first entry that is not larger than it. */
  function InsertDesc<K(!new)>(x: (K, int), s: seq<(K, int)>): (r: seq<(K, int)>)
    ensures |r| == |s| + 1
    ensures multiset(r) == multiset(s) + multiset{x}
    ensures forall y :: y in r <==> y == x || y in s
  {
    if s == [] || s[0].1 <= x.1 then [x] + s
    else
      assert s == [s[0]] + s[1..];
      [s[0]] + InsertDesc(x, s[1..])
  }

  lemma {:induction false} InsertDescOrdered<K(!new)>(x: (K, int), s: seq<(K, int)>)
    requires NonIncreasing(s)
    ensures NonIncreasing(InsertDesc(x, s))
  {
    if s != [] && s[0].1 > x.1 {
      InsertDescOrdered(x, s[1..]);
      var t := InsertDesc(x, s[1..]);
      var r := [s[0]] + t;
      assert InsertDesc(x, s) == r;
      forall j | 1 <= j < |r|
        ensures r[0].1 >= r[j].1
      {
        assert r[j] in t;
      }
    }
  }

  /** `x` lands in front of the entries of `s` that have its value, and every other value's entries are untouched. */
  lemma {:induction false} InsertDescStable<K(!new)>(x: (K, int), s: seq<(K, int)>, c: int)
    ensures WithValue(InsertDesc(x, s), c) == (if x.1 == c then [x] else []) + WithValue(s, c)
  {
    if s == [] || s[0].1 <= x.1 {
      assert ([x] + s)[1..] == s;
    } else {
      var t := InsertDesc(x, s[1..]);
      assert ([s[0]] + t)[1..] == t;
      InsertDescStable(x, s[1..], c);
    }
  }

  /**
   * `sorted(g, key=value, reverse=True)`: a permutation of `g`, largest value
   * first, in which entries with equal values keep their order in `g` (stability).
   */
  function SortDesc<K(!new)>(g: seq<(K, int)>): (r: seq<(K, int)>)
    ensures |r| == |g|
    ensures multiset(r) == multiset(g)
    ensures NonIncreasing(r)
    ensures forall c :: WithValue(r, c) == WithValue(g, c)
  {
    if g == [] then []
    else
      assert g == [g[0]] + g[1..];
      var t := SortDesc(g[1..]);
      InsertDescOrdered(g[0], t);
      forall c ensures WithValue(InsertDesc(g[0], t), c) == WithValue(g, c) {
        InsertDescStable(g[0], t, c);
      }
      InsertDesc(g[0], t)
  }

  /** The first entry of a descending sort is where `idxmax()` finds the maximum. */
  lemma SortedMaxIsFirst<K(!new)>(g: seq<(K, int)>)
    requires |g| > 0
    ensures ArgMax(SortDesc(g)) == 0
  {
    ArgMaxOfNonIncreasing(SortDesc(g));
  }

  /** On a non-increasing sequence `idxmax()` is the first position. */
  lemma {:induction false} ArgMaxOfNonIncreasing<K>(g: seq<(K, int)>)
    requires |g| > 0 && NonIncreasing(g)
    ensures ArgMax(g) == 0
  {
    if |g| > 1 {
      var q := g[..|g| - 1];
      assert NonIncreasing(q);
      ArgMaxOfNonIncreasing(q);
      assert g[|g| - 1].1 <= g[0].1;
    }
  }

  /** Python's `s[:n]`. */
  function Take<T>(s: seq<T>, n: nat): (r: seq<T>)
    ensures |r| == if |s| < n then |s| else n
    ensures r == s[..|r|]
  {
    if |s| <= n then s else s[..n]
  }

  /**
   * Cutting a non-increasing sequence keeps every entry, or keeps `n` entries
   * none smaller than a dropped one.
   */
  lemma TakeOfSorted<K>(s: seq<(K, int)>, n: nat, x: (K, int))
    requires NonIncreasing(s) && x in s
    ensures var top := Take(s, n);
      x in top || (|top| == n && forall i | 0 <= i < |top| :: x.1 <= top[i].1)
  {
    var top := Take(s, n);
    var m :| 0 <= m < |s| && s[m] == x;
    if m < |top| {
      assert top[m] == x;
    } else {
      assert forall i | 0 <= i < |top| :: top[i] == s[i];
    }
  }
}
