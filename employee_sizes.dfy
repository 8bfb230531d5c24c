/**
 * GET /api/employee_sizes: the distinct `employee_size` values of the
 * `Companies` table, ordered by their position in the fixed bucket list.
 */
module EmployeeSizes {
  import opened Wrappers
  import opened Schema

  /** An `employee_size` column value; `None` is SQL NULL. */
  type Size = Option<string>

  /** `sizeOrder`: the eight employee-size buckets, smallest first. */
  const SizeOrder: seq<string> :=
    ["1-10", "11-50", "51-200", "201-500", "501-1000", "1001-5000", "5001-10000", "10000+"]

  /** `xs.indexOf(x)`: the first position of `x`, or -1 when it is absent. */
  function IndexOf<T(==)>(xs: seq<T>, x: T): (r: int)
    ensures -1 <= r < |xs|
    ensures r == -1 <==> x !in xs
    ensures r >= 0 ==> xs[r] == x && x !in xs[..r]
  {
    if xs == [] then -1
    else if xs[0] == x then 0
    else
      var r := IndexOf(xs[1..], x);
      if r == -1 then -1
      else
        assert xs[..r + 1] == [xs[0]] + xs[1..][..r];
        r + 1
  }

  /** `sizeOrder.indexOf(v!)`: the `!` is only a type assertion, so NULL and every
      value outside the bucket list rank -1. */
  function Rank(v: Size): (r: int)
    ensures -1 <= r < |SizeOrder|
    ensures r >= 0 ==> v == Some(SizeOrder[r])
  {
    if v.None? then -1 else IndexOf(SizeOrder, v.value)
  }

  /** Exactly NULL and the values outside the bucket list rank -1. */
  lemma RankUnknown(v: Size)
    ensures Rank(v) == -1 <==> v.None? || v.value !in SizeOrder
  {
  }

  predicate NoDuplicates<T(==)>(s: seq<T>) {
    forall i, j :: 0 <= i < j < |s| ==> s[i] != s[j]
  }

  /** What `sort` with the comparator `(a, b) => key(a) - key(b)` establishes. */
  predicate SortedBy<T>(s: seq<T>, key: T -> int) {
    forall i, j :: 0 <= i < j < |s| ==> key(s[i]) <= key(s[j])
  }

  /** The elements whose key is `k`, in order. */
  function WithKey<T>(s: seq<T>, key: T -> int, k: int): seq<T> {
    if s == [] then []
    else (if key(s[0]) == k then [s[0]] else []) + WithKey(s[1..], key, k)
  }

  lemma IndexOfPrefix<T>(xs: seq<T>, n: nat, x: T)
    requires n <= |xs| && x in xs[..n]
    ensures IndexOf(xs, x) == IndexOf(xs[..n], x)
  {
    var i := IndexOf(xs[..n], x);
    assert xs[..i] == xs[..n][..i];
    assert forall t :: 0 <= t < i ==> xs[..n][..i][t] == xs[t];
  }

  /** `[...new Set(xs)]`: every value once, in the order of first occurrence,
      which is the insertion order a `Set` keeps (see `DistinctInFirstOccurrenceOrder`). */
  function Distinct<T(==,!new)>(xs: seq<T>): (r: seq<T>)
    ensures NoDuplicates(r)
    ensures forall x :: x in r <==> x in xs
  {
    if xs == [] then []
    else
      var d := Distinct(xs[..|xs| - 1]);
      var x := xs[|xs| - 1];
      assert xs == xs[..|xs| - 1] + [x];
      if x in d then d else d + [x]
  }

  /** `Distinct` lists the values in the order of their first occurrences. */
  lemma {:induction false} DistinctInFirstOccurrenceOrder<T(!new)>(xs: seq<T>, i: int, j: int)
    requires 0 <= i < j < |Distinct(xs)|
    ensures IndexOf(xs, Distinct(xs)[i]) < IndexOf(xs, Distinct(xs)[j])
  {
    var front := xs[..|xs| - 1];
    var x := xs[|xs| - 1];
    var d := Distinct(front);
    assert xs == front + [x];
    IndexOfPrefix(xs, |xs| - 1, Distinct(xs)[i]);
    if j < |d| {
      IndexOfPrefix(xs, |xs| - 1, Distinct(xs)[j]);
      DistinctInFirstOccurrenceOrder(front, i, j);
    }
  }

  /** One step of a stable insertion sort: `x` goes before the first element whose
      key is not smaller than its own. */
  function Insert<T>(x: T, s: seq<T>, key: T -> int): (r: seq<T>)
    ensures multiset(r) == multiset(s) + multiset{x}
  {
    if s == [] || key(x) <= key(s[0]) then
      assert ([x] + s)[1..] == s;
      [x] + s
    else
      var t := Insert(x, s[1..], key);
      assert ([s[0]] + t)[1..] == t;
      assert s == [s[0]] + s[1..];
      [s[0]] + t
  }

  /** `Array.prototype.sort` with the comparator `(a, b) => key(a) - key(b)`. That sort
      is stable, so elements with equal keys keep their relative order. */
  function SortBy<T>(xs: seq<T>, key: T -> int): (r: seq<T>)
    ensures multiset(r) == multiset(xs)
    ensures SortedBy(r, key)
  {
    if xs == [] then []
    else
      var rest := SortBy(xs[1..], key);
      assert xs == [xs[0]] + xs[1..];
      InsertSorted(xs[0], rest, key);
      Insert(xs[0], rest, key)
  }

  /** Inserting into a sorted sequence keeps it sorted. */
  lemma {:induction false} InsertSorted<T>(x: T, s: seq<T>, key: T -> int)
    requires SortedBy(s, key)
    ensures SortedBy(Insert(x, s, key), key)
  {
    if s != [] && key(x) > key(s[0]) {
      var t := Insert(x, s[1..], key);
      InsertSorted(x, s[1..], key);
      assert ([s[0]] + t)[1..] == t;
      forall y | y in t ensures key(s[0]) <= key(y) {
        assert y in multiset(t);
        assert y == x || y in multiset(s[1..]);
      }
    }
  }

  /** `Insert` places `x` in front of the elements that share its key. */
  lemma {:induction false} InsertWithKey<T>(x: T, s: seq<T>, key: T -> int, k: int)
    ensures WithKey(Insert(x, s, key), key, k) == (if key(x) == k then [x] + WithKey(s, key, k) else WithKey(s, key, k))
  {
    if s == [] || key(x) <= key(s[0]) {
      assert ([x] + s)[1..] == s;
    } else {
      InsertWithKey(x, s[1..], key, k);
      var t := Insert(x, s[1..], key);
      assert ([s[0]] + t)[1..] == t;
      assert WithKey(s, key, k) == (if key(s[0]) == k then [s[0]] else []) + WithKey(s[1..], key, k);
    }
  }

  /** The sort is stable: the elements of each key keep their relative order. */
  lemma {:induction false} SortByStable<T>(xs: seq<T>, key: T -> int, k: int)
    ensures WithKey(SortBy(xs, key), key, k) == WithKey(xs, key, k)
  {
    if xs != [] {
      SortByStable(xs[1..], key, k);
      InsertWithKey(xs[0], SortBy(xs[1..], key), key, k);
    }
  }

  lemma {:induction false} InsertNoDuplicates<T>(x: T, s: seq<T>, key: T -> int)
    requires NoDuplicates(s) && x !in s
    ensures NoDuplicates(Insert(x, s, key))
  {
    if s != [] && key(x) > key(s[0]) {
      InsertNoDuplicates(x, s[1..], key);
      var t := Insert(x, s[1..], key);
      assert s[0] !in multiset(t);
    }
  }

  lemma {:induction false} SortByNoDuplicates<T>(xs: seq<T>, key: T -> int)
    requires NoDuplicates(xs)
    ensures NoDuplicates(SortBy(xs, key))
  {
    if xs != [] {
      SortByNoDuplicates(xs[1..], key);
      assert xs[0] !in multiset(SortBy(xs[1..], key));
      InsertNoDuplicates(xs[0], SortBy(xs[1..], key), key);
    }
  }

  /** The list the handler returns for the `employee_size` column values `data`. */
  function UniqueSizes(data: seq<Size>): (r: seq<Size>)
    ensures NoDuplicates(r)
    ensures forall v :: v in r <==> v in data
    ensures SortedBy(r, Rank)
  {
    var d := Distinct(data);
    var r := SortBy(d, Rank);
    assert forall v :: v in r <==> v in multiset(d);
    SortByNoDuplicates(d, Rank);
    r
  }

  lemma SortedPair<T>(s: seq<T>, key: T -> int, p: int, q: int)
    requires SortedBy(s, key) && 0 <= p < q < |s|
    ensures key(s[p]) <= key(s[q])
  {
  }

  /** In a sorted sequence a smaller key comes first. */
  lemma SortedOrder<T>(s: seq<T>, key: T -> int, p: int, q: int)
    requires SortedBy(s, key) && 0 <= p < |s| && 0 <= q < |s| && key(s[p]) < key(s[q])
    ensures p < q
  {
  }

  /** A known rank determines the value. */
  lemma KnownRankNamesValue(u: Size, v: Size)
    ensures Rank(u) >= 0 && Rank(u) == Rank(v) ==> u == v
  {
  }

  /** Known buckets come out strictly in bucket order. */
  lemma KnownSizesInBucketOrder(data: seq<Size>, i: int, j: int)
    requires 0 <= i < j < |UniqueSizes(data)|
    requires Rank(UniqueSizes(data)[i]) >= 0
    ensures Rank(UniqueSizes(data)[i]) < Rank(UniqueSizes(data)[j])
  {
    var r := UniqueSizes(data);
    SortedPair(r, Rank, i, j);
    assert r[i] != r[j];
    KnownRankNamesValue(r[i], r[j]);
  }

  /** Unknown values (rank -1, NULL among them) come before every known bucket. */
  lemma UnknownSizesFirst(data: seq<Size>, i: int, j: int)
    requires 0 <= i < |UniqueSizes(data)| && 0 <= j < |UniqueSizes(data)|
    requires Rank(UniqueSizes(data)[i]) == -1 && Rank(UniqueSizes(data)[j]) >= 0
    ensures i < j
  {
    SortedOrder(UniqueSizes(data), Rank, i, j);
  }

  /** Two elements with key `k` appear in `WithKey(a, key, k)` in the order they have in `a`. */
  lemma WithKeyKeepsOrder<T>(a: seq<T>, key: T -> int, k: int, i: int, j: int)
    requires 0 <= i < j < |a| && key(a[i]) == k && key(a[j]) == k
    ensures exists p, q :: 0 <= p < q < |WithKey(a, key, k)| && WithKey(a, key, k)[p] == a[i] && WithKey(a, key, k)[q] == a[j]
  {
    var f := WithKey(a[1..], key, k);
    var o := if key(a[0]) == k then 1 else 0;
    var w := WithKey(a, key, k);
    assert w == (if key(a[0]) == k then [a[0]] else []) + f;
    if i == 0 {
      WithKeyHas(a[1..], key, k, j - 1);
      var q :| 0 <= q < |f| && f[q] == a[1..][j - 1];
      assert w[0] == a[0] && w[q + 1] == a[j];
    } else {
      WithKeyKeepsOrder(a[1..], key, k, i - 1, j - 1);
      var p, q :| 0 <= p < q < |f| && f[p] == a[1..][i - 1] && f[q] == a[1..][j - 1];
      assert w[p + o] == a[i] && w[q + o] == a[j];
    }
  }

  lemma WithKeyHas<T>(a: seq<T>, key: T -> int, k: int, j: int)
    requires 0 <= j < |a| && key(a[j]) == k
    ensures exists q :: 0 <= q < |WithKey(a, key, k)| && WithKey(a, key, k)[q] == a[j]
  {
    var f := WithKey(a[1..], key, k);
    var o := if key(a[0]) == k then 1 else 0;
    var w := WithKey(a, key, k);
    assert w == (if key(a[0]) == k then [a[0]] else []) + f;
    if j == 0 {
      assert w[0] == a[0];
    } else {
      WithKeyHas(a[1..], key, k, j - 1);
      var q :| 0 <= q < |f| && f[q] == a[1..][j - 1];
      assert w[q + o] == a[j];
    }
  }

  /** Two entries of `WithKey(a, key, k)` come from positions of `a` in the same order. */
  lemma WithKeyFrom<T>(a: seq<T>, key: T -> int, k: int, p: int, q: int)
    requires 0 <= p < q < |WithKey(a, key, k)|
    ensures exists i, j :: 0 <= i < j < |a| && a[i] == WithKey(a, key, k)[p] && a[j] == WithKey(a, key, k)[q]
  {
    var f := WithKey(a[1..], key, k);
    var o := if key(a[0]) == k then 1 else 0;
    var w := WithKey(a, key, k);
    assert w == (if key(a[0]) == k then [a[0]] else []) + f;
    if o == 1 && p == 0 {
      WithKeyIn(a[1..], key, k, q - 1);
      var j :| 0 <= j < |a[1..]| && a[1..][j] == f[q - 1];
      assert a[0] == w[p] && a[j + 1] == w[q];
    } else {
      WithKeyFrom(a[1..], key, k, p - o, q - o);
      var i, j :| 0 <= i < j < |a[1..]| && a[1..][i] == f[p - o] && a[1..][j] == f[q - o];
      assert a[i + 1] == w[p] && a[j + 1] == w[q];
    }
  }

  lemma WithKeyIn<T>(a: seq<T>, key: T -> int, k: int, q: int)
    requires 0 <= q < |WithKey(a, key, k)|
    ensures exists j :: 0 <= j < |a| && a[j] == WithKey(a, key, k)[q]
  {
    var f := WithKey(a[1..], key, k);
    var o := if key(a[0]) == k then 1 else 0;
    var w := WithKey(a, key, k);
    assert w == (if key(a[0]) == k then [a[0]] else []) + f;
    if o == 1 && q == 0 {
      assert a[0] == w[q];
    } else {
      WithKeyIn(a[1..], key, k, q - o);
      var j :| 0 <= j < |a[1..]| && a[1..][j] == f[q - o];
      assert a[j + 1] == w[q];
    }
  }

  /** Values of equal rank, in particular the unknown ones, appear in the order in which
      they first occur in the data: the `Set` keeps insertion order and the sort is stable. */
  lemma EqualRanksInFirstOccurrenceOrder(data: seq<Size>, i: int, j: int)
    requires 0 <= i < j < |UniqueSizes(data)|
    requires Rank(UniqueSizes(data)[i]) == Rank(UniqueSizes(data)[j])
    ensures IndexOf(data, UniqueSizes(data)[i]) < IndexOf(data, UniqueSizes(data)[j])
  {
    var d := Distinct(data);
    var r := SortBy(d, Rank);
    var k := Rank(r[i]);
    WithKeyKeepsOrder(r, Rank, k, i, j);
    var p, q :| 0 <= p < q < |WithKey(r, Rank, k)| && WithKey(r, Rank, k)[p] == r[i] && WithKey(r, Rank, k)[q] == r[j];
    SortByStable(d, Rank, k);
    WithKeyFrom(d, Rank, k, p, q);
    var i', j' :| 0 <= i' < j' < |d| && d[i'] == r[i] && d[j'] == r[j];
    DistinctInFirstOccurrenceOrder(data, i', j');
  }

  /** The query's outcome: the selected column values, a reported store error, or a throw. */
  datatype SizesQuery = Fetched(data: seq<Size>) | QueryFailed(message: string) | Threw(message: string)

  /** The handler. */
  function Handle(httpMethod: string, query: SizesQuery): (r: Response)
    ensures httpMethod != "GET" ==> r == Response(405, Some(["GET"]), Message("Method " + httpMethod + " Not Allowed"))
    ensures httpMethod == "GET" && query.Fetched? ==>
      && r.status == 200 && r.allow == None && r.body.SizeList?
      && NoDuplicates(r.body.sizes) && SortedBy(r.body.sizes, Rank)
      && (forall v :: v in r.body.sizes <==> v in query.data)
    ensures httpMethod == "GET" && query.QueryFailed? ==>
      r == Response(500, None, MessageWithDetails("Error fetching from Supabase", query.message))
    ensures httpMethod == "GET" && query.Threw? ==>
      r == Response(500, None, MessageWithDetails("Internal Server Error", query.message))
  {
    if httpMethod != "GET" then
      Response(405, Some(["GET"]), Message("Method " + httpMethod + " Not Allowed"))
    else
      match query
      case QueryFailed(message) => Response(500, None, MessageWithDetails("Error fetching from Supabase", message))
      case Threw(message) => Response(500, None, MessageWithDetails("Internal Server Error", message))
      case Fetched(data) => Response(200, None, SizeList(UniqueSizes(data)))
  }

  /** Each bucket ranks at its own position in the list. */
  lemma BucketRanks(k: int)
    requires 0 <= k < |SizeOrder|
    ensures Rank(Some(SizeOrder[k])) == k
  {
    assert NoDuplicates(SizeOrder);
  }

  lemma DistinctSnoc<T(!new)>(xs: seq<T>, x: T)
    ensures Distinct(xs + [x]) == if x in Distinct(xs) then Distinct(xs) else Distinct(xs) + [x]
  {
    assert (xs + [x])[..|xs|] == xs;
  }

  lemma DistinctTwo<T(!new)>(a: T, b: T)
    requires a != b
    ensures Distinct([a, b]) == [a, b]
  {
    DistinctSnoc([], a);
    assert [] + [a] == [a];
    DistinctSnoc([a], b);
    assert [a] + [b] == [a, b];
  }

  /** The deduplication half of the example. */
  lemma DistinctExample<T(!new)>(a: T, n: T, b: T)
    requires a != n && a != b && n != b
    ensures Distinct([a, n, b, a]) == [a, n, b]
  {
    DistinctTwo(a, n);
    DistinctSnoc([a, n], b);
    assert [a, n] + [b] == [a, n, b];
    assert Distinct([a, n, b]) == [a, n, b];
    DistinctSnoc([a, n, b], a);
    assert a in Distinct([a, n, b]);
    assert [a, n, b] + [a] == [a, n, b, a];
  }

  lemma SortByCons<T>(x: T, s: seq<T>, key: T -> int)
    ensures SortBy([x] + s, key) == Insert(x, SortBy(s, key), key)
  {
    assert ([x] + s)[1..] == s;
  }

  lemma InsertFront<T>(x: T, s: seq<T>, key: T -> int)
    requires s == [] || key(x) <= key(s[0])
    ensures Insert(x, s, key) == [x] + s
  {
  }

  lemma InsertPast<T>(x: T, y: T, s: seq<T>, key: T -> int)
    requires key(x) > key(y)
    ensures Insert(x, [y] + s, key) == [y] + Insert(x, s, key)
  {
    assert ([y] + s)[1..] == s;
  }

  lemma SortTwo<T>(n: T, b: T, key: T -> int)
    requires key(n) <= key(b)
    ensures SortBy([n, b], key) == [n, b]
  {
    SortByCons(b, [], key);
    assert [b] == [b] + [];
    InsertFront(b, [], key);
    SortByCons(n, [b], key);
    assert [n, b] == [n] + [b];
    InsertFront(n, [b], key);
  }

  lemma InsertLast<T>(a: T, n: T, b: T, key: T -> int)
    requires key(a) > key(n) && key(a) > key(b)
    ensures Insert(a, [n, b], key) == [n, b, a]
  {
    InsertPast(a, n, [b], key);
    assert [n, b] == [n] + [b];
    InsertPast(a, b, [], key);
    assert [b] == [b] + [];
    InsertFront(a, [], key);
  }

  /** The sorting half of the example, for any key that ranks the three values 2, -1, 0. */
  lemma SortExample<T>(a: T, n: T, b: T, key: T -> int)
    requires key(a) == 2 && key(n) == -1 && key(b) == 0
    ensures SortBy([a, n, b], key) == [n, b, a]
  {
    SortTwo(n, b, key);
    SortByCons(a, [n, b], key);
    assert [a, n, b] == [a] + [n, b];
    InsertLast(a, n, b, key);
  }

  /** Duplicates are dropped, NULL comes first, and the buckets follow in size order. */
  lemma SortsExample()
    ensures UniqueSizes([Some("51-200"), None, Some("1-10"), Some("51-200")])
         == [None, Some("1-10"), Some("51-200")]
  {
    var a, n, b := Some("51-200"), None, Some("1-10");
    BucketRanks(0); BucketRanks(2);
    DistinctExample(a, n, b);
    SortExample(a, n, b, Rank);
  }

  /** No rows, an empty list. */
  lemma EmptyDataEmptyList()
    ensures Handle("GET", Fetched([])) == Response(200, None, SizeList([]))
  {
  }
}
