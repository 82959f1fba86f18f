/** The Python list operations the model relies on: `list.remove`, the
    slice `s[:n]`, filtering, and `itertools.product`. */
module Lists {
  import opened Wrappers

  /** No element occurs twice. */
  predicate NoDup<T(==)>(s: seq<T>) {
    forall i, j :: 0 <= i < j < |s| ==> s[i] != s[j]
  }

  /** Every earlier element stands in relation `R` to every later one. */
  predicate Chain<T>(s: seq<T>, R: (T, T) -> bool) {
    forall i, j :: 0 <= i < j < |s| ==> R(s[i], s[j])
  }

  /** Position of the first occurrence of `v`: Python's `s.index(v)`. */
  function IndexOf<T(==)>(s: seq<T>, v: T): (k: nat)
    requires v in s
    ensures k < |s| && s[k] == v && v !in s[..k]
  {
    if s[0] == v then 0
    else
      var k := 1 + IndexOf(s[1..], v);
      assert s[..k] == [s[0]] + s[1..][..k - 1];
      k
  }

  /** The second component of every pair, in order: `dict.values()` of a
      dict's items, or the names of `(value, name)` tuples. */
  function Seconds<A, B>(ps: seq<(A, B)>): (r: seq<B>)
    ensures |r| == |ps| && forall i :: 0 <= i < |ps| ==> r[i] == ps[i].1
  {
    seq(|ps|, i requires 0 <= i < |ps| => ps[i].1)
  }

  // ---------------------------------------------------------------------
  // list.remove and filtering

  /** Python's `s.remove(v)` with its `ValueError` swallowed: the first
      occurrence of `v` is taken out; without one the list is unchanged. */
  function RemoveFirst<T(==)>(s: seq<T>, v: T): (r: seq<T>)
    ensures v !in s ==> r == s
    ensures v in s ==> |r| == |s| - 1
  {
    if |s| == 0 then s
    else if s[0] == v then s[1..]
    else [s[0]] + RemoveFirst(s[1..], v)
  }

  /** `remove` takes out one copy of the value, if there is one. */
  lemma {:induction false} RemoveFirstShrinks<T>(s: seq<T>, v: T)
    ensures multiset(RemoveFirst(s, v)) == multiset(s) - multiset{v}
  {
    if |s| > 0 {
      assert s == [s[0]] + s[1..];
      RemoveFirstShrinks(s[1..], v);
    }
  }

  /** What `remove` takes out is the first occurrence, and only that. */
  lemma {:induction false} RemoveFirstCuts<T>(s: seq<T>, v: T)
    requires v in s
    ensures RemoveFirst(s, v) == s[..IndexOf(s, v)] + s[IndexOf(s, v) + 1..]
  {
    if s[0] != v {
      RemoveFirstCuts(s[1..], v);
      assert s[..IndexOf(s, v)] == [s[0]] + s[1..][..IndexOf(s[1..], v)];
    }
  }

  /** The elements of `s` that are not in `drop`, in their original order. */
  function Filter<T(==, !new)>(s: seq<T>, drop: set<T>): (r: seq<T>)
    ensures |r| <= |s|
    ensures forall x :: x in r <==> x in s && x !in drop
  {
    if |s| == 0 then []
    else
      var rest := Filter(s[1..], drop);
      assert forall x :: x in s <==> x == s[0] || x in s[1..];
      if s[0] in drop then rest else [s[0]] + rest
  }

  /** On a list without duplicates, `remove` is filtering out one value. */
  lemma {:induction false} RemoveFirstIsFilter<T(!new)>(s: seq<T>, v: T)
    requires NoDup(s)
    ensures RemoveFirst(s, v) == Filter(s, {v})
  {
    if |s| > 0 {
      if s[0] == v {
        assert v !in s[1..] by {
          forall k | 0 < k < |s| ensures s[k] != v { assert s[0] != s[k]; }
        }
        FilterNothing(s[1..], {v});
      } else {
        RemoveFirstIsFilter(s[1..], v);
      }
    }
  }

  /** Filtering out values that do not occur changes nothing. */
  lemma {:induction false} FilterNothing<T(!new)>(s: seq<T>, drop: set<T>)
    requires forall x :: x in s ==> x !in drop
    ensures Filter(s, drop) == s
  {
    if |s| > 0 {
      FilterNothing(s[1..], drop);
      assert s == [s[0]] + s[1..];
    }
  }

  /** Two filters in a row are one filter with both sets. */
  lemma {:induction false} FilterFilter<T(!new)>(s: seq<T>, a: set<T>, b: set<T>)
    ensures Filter(Filter(s, a), b) == Filter(s, a + b)
  {
    if |s| > 0 {
      FilterFilter(s[1..], a, b);
    }
  }

  lemma {:induction false} FilterNoDup<T(!new)>(s: seq<T>, drop: set<T>)
    requires NoDup(s)
    ensures NoDup(Filter(s, drop))
  {
    if |s| > 0 {
      FilterNoDup(s[1..], drop);
      assert s[0] !in s[1..] by {
        forall k | 0 < k < |s| ensures s[k] != s[0] { assert s[0] != s[k]; }
      }
    }
  }

  /** Filtering keeps the relative order of what it keeps. */
  lemma {:induction false} FilterChain<T(!new)>(s: seq<T>, drop: set<T>, R: (T, T) -> bool)
    requires Chain(s, R)
    ensures Chain(Filter(s, drop), R)
  {
    if |s| > 0 {
      FilterChain(s[1..], drop, R);
      if s[0] !in drop {
        var rest := Filter(s[1..], drop);
        forall j | 0 <= j < |rest| ensures R(s[0], rest[j]) {
          assert rest[j] in s[1..];
          var k :| 0 <= k < |s[1..]| && s[1..][k] == rest[j];
          assert s[k + 1] == rest[j];
        }
      }
    }
  }

  // ---------------------------------------------------------------------
  // s[:n]

  /** Length of Python's `s[:n]` for a list of length `len`: everything when
      `n` is None, at most `n` items for `n >= 0`, and all but the last `-n`
      items for a negative `n`. */
  function SliceEnd(len: nat, n: Option<int>): (k: nat)
    ensures k <= len
    ensures n.None? ==> k == len
    ensures n.Some? && n.value >= 0 ==> k == if n.value < len then n.value else len
    ensures n.Some? && n.value < 0 ==> k == if len + n.value > 0 then len + n.value else 0
  {
    match n
    case None => len
    case Some(m) =>
      if m >= 0 then (if m < len then m else len)
      else if len + m > 0 then len + m else 0
  }

  /** Python's `s[:n]`. */
  function Head<T>(s: seq<T>, n: Option<int>): (r: seq<T>)
    ensures |r| == SliceEnd(|s|, n) && r == s[..|r|]
  {
    s[..SliceEnd(|s|, n)]
  }

  lemma HeadKeeps<T>(s: seq<T>, n: Option<int>, R: (T, T) -> bool)
    ensures NoDup(s) ==> NoDup(Head(s, n))
    ensures Chain(s, R) ==> Chain(Head(s, n), R)
  {
  }

  // ---------------------------------------------------------------------
  // multiplicities

  /** An element that occurs at two positions is counted at least twice. */
  lemma TwiceCounted<T>(s: seq<T>, i: nat, j: nat)
    requires i < j < |s| && s[i] == s[j]
    ensures multiset(s)[s[i]] >= 2
  {
    assert s == s[..j] + [s[j]] + s[j + 1..];
    assert s[i] in s[..j];
  }

  /** Without duplicates every element is counted at most once. */
  lemma {:induction false} NoDupCount<T>(s: seq<T>, x: T)
    requires NoDup(s)
    ensures multiset(s)[x] <= 1
  {
    if |s| > 0 {
      assert s == [s[0]] + s[1..];
      NoDupCount(s[1..], x);
      if x == s[0] {
        assert x !in s[1..] by {
          forall k | 0 < k < |s| ensures s[k] != x { assert s[0] != s[k]; }
        }
      }
    }
  }

  /** A permutation of a list without duplicates has none either. */
  lemma PermutationNoDup<T>(a: seq<T>, b: seq<T>)
    requires multiset(a) == multiset(b) && NoDup(a)
    ensures NoDup(b)
  {
    forall i, j | 0 <= i < j < |b| ensures b[i] != b[j] {
      if b[i] == b[j] {
        TwiceCounted(b, i, j);
        NoDupCount(a, b[i]);
      }
    }
  }

  // ---------------------------------------------------------------------
  // itertools.product

  /** One row of the product: `x` paired with every element of `ys`. */
  function Row<A, B>(x: A, ys: seq<B>): (r: seq<(A, B)>)
    ensures |r| == |ys| && forall j :: 0 <= j < |ys| ==> r[j] == (x, ys[j])
  {
    seq(|ys|, j requires 0 <= j < |ys| => (x, ys[j]))
  }

  /** `list(itertools.product(xs, ys))`: all pairs, the first factor
      varying slowest. */
  function Product<A, B>(xs: seq<A>, ys: seq<B>): (r: seq<(A, B)>)
    ensures |r| == |xs| * |ys|
  {
    if |xs| == 0 then [] else Row(xs[0], ys) + Product(xs[1..], ys)
  }

  /** Pair `(xs[i], ys[j])` sits at position `i * |ys| + j`: lexicographic
      order with the first factor outermost. */
  lemma {:induction false} ProductAt<A, B>(xs: seq<A>, ys: seq<B>, i: nat, j: nat)
    requires i < |xs| && j < |ys|
    ensures i * |ys| + j < |Product(xs, ys)|
    ensures Product(xs, ys)[i * |ys| + j] == (xs[i], ys[j])
  {
    var m := |ys|;
    if i > 0 {
      ProductAt(xs[1..], ys, i - 1, j);
      assert i * m + j == m + ((i - 1) * m + j);
    }
  }

  function Count<T(==)>(s: seq<T>, x: T): nat {
    multiset(s)[x]
  }

  lemma {:induction false} RowCount<A, B>(x: A, ys: seq<B>, p: (A, B))
    ensures Count(Row(x, ys), p) == if p.0 == x then Count(ys, p.1) else 0
  {
    if |ys| > 0 {
      RowCount(x, ys[1..], p);
      RowFirst(x, ys);
      CountFirst(ys, p.1);
    }
  }

  lemma RowFirst<A, B>(x: A, ys: seq<B>)
    requires |ys| > 0
    ensures multiset(Row(x, ys)) == multiset{(x, ys[0])} + multiset(Row(x, ys[1..]))
  {
    assert Row(x, ys) == [(x, ys[0])] + Row(x, ys[1..]);
  }

  /** Each pair occurs as often as its two components multiply: when neither
      factor repeats a value, every combination occurs exactly once. */
  lemma {:induction false} ProductCount<A, B>(xs: seq<A>, ys: seq<B>, p: (A, B))
    ensures Count(Product(xs, ys), p) == Count(xs, p.0) * Count(ys, p.1)
  {
    if |xs| > 0 {
      ProductCount(xs[1..], ys, p);
      RowCount(xs[0], ys, p);
      ProductFirst(xs, ys);
      CountFirst(xs, p.0);
      var c, n := Count(ys, p.1), Count(xs[1..], p.0);
      var e := if xs[0] == p.0 then 1 else 0;
      assert Count(Product(xs, ys), p) == e * c + n * c;
      MulDistributes(e, 1, n, c);
    }
  }

  lemma ProductFirst<A, B>(xs: seq<A>, ys: seq<B>)
    requires |xs| > 0
    ensures multiset(Product(xs, ys)) == multiset(Row(xs[0], ys)) + multiset(Product(xs[1..], ys))
  {
  }

  lemma CountFirst<T>(s: seq<T>, x: T)
    requires |s| > 0
    ensures Count(s, x) == (if s[0] == x then 1 else 0) + Count(s[1..], x)
  {
    assert s == [s[0]] + s[1..];
  }

  // ---------------------------------------------------------------------
  // four factors

  function Flat<A, B, C, D>(n: (A, (B, (C, D)))): (A, B, C, D) {
    (n.0, n.1.0, n.1.1.0, n.1.1.1)
  }

  function FlattenAll<A, B, C, D>(ns: seq<(A, (B, (C, D)))>): (r: seq<(A, B, C, D)>)
    ensures |r| == |ns| && forall k :: 0 <= k < |ns| ==> r[k] == Flat(ns[k])
  {
    if |ns| == 0 then [] else [Flat(ns[0])] + FlattenAll(ns[1..])
  }

  /** `list(itertools.product(a, b, c, d))` as 4-tuples. */
  function Product4<A, B, C, D>(a: seq<A>, b: seq<B>, c: seq<C>, d: seq<D>): (r: seq<(A, B, C, D)>)
    ensures |r| == |a| * (|b| * (|c| * |d|))
  {
    FlattenAll(Product(a, Product(b, Product(c, d))))
  }

  lemma {:induction false} FlattenCount<A, B, C, D>(ns: seq<(A, (B, (C, D)))>, v: (A, (B, (C, D))))
    ensures Count(FlattenAll(ns), Flat(v)) == Count(ns, v)
  {
    if |ns| > 0 {
      FlattenCount(ns[1..], v);
      assert ns == [ns[0]] + ns[1..];
      assert FlattenAll(ns) == [Flat(ns[0])] + FlattenAll(ns[1..]);
    }
  }

  /** Mixed-radix position of index tuple `(i, j, k, l)`. */
  function Position(i: nat, j: nat, k: nat, l: nat, nb: nat, nc: nat, nd: nat): nat {
    ((i * nb + j) * nc + k) * nd + l
  }

  /** `(a[i], b[j], c[k], d[l])` sits at the mixed-radix position of
      `(i, j, k, l)`: `a` varies slowest and `d` fastest. */
  lemma Product4At<A, B, C, D>(a: seq<A>, b: seq<B>, c: seq<C>, d: seq<D>,
                               i: nat, j: nat, k: nat, l: nat)
    requires i < |a| && j < |b| && k < |c| && l < |d|
    ensures Position(i, j, k, l, |b|, |c|, |d|) < |Product4(a, b, c, d)|
    ensures Product4(a, b, c, d)[Position(i, j, k, l, |b|, |c|, |d|)] == (a[i], b[j], c[k], d[l])
  {
    var cd := Product(c, d);
    var bcd := Product(b, cd);
    ProductAt(c, d, k, l);
    var q := k * |d| + l;
    ProductAt(b, cd, j, q);
    var p := j * |cd| + q;
    ProductAt(a, bcd, i, p);
    PositionSplits(i, j, k, l, |b|, |c|, |d|);
    assert |cd| == |c| * |d| && |bcd| == |b| * |cd|;
    assert Position(i, j, k, l, |b|, |c|, |d|) == i * |bcd| + p;
  }

  /** The mixed-radix position as nested offsets: whole blocks of `a`, then
      of `b`, then of `c`. */
  lemma PositionSplits(i: nat, j: nat, k: nat, l: nat, nb: nat, nc: nat, nd: nat)
    ensures Position(i, j, k, l, nb, nc, nd) == i * (nb * (nc * nd)) + (j * (nc * nd) + (k * nd + l))
  {
    MulDistributes(i * nb + j, nc, k, nd);
    MulDistributes(i, nb, j, nc * nd);
  }

  lemma MulDistributes(x: int, y: int, z: int, w: int)
    ensures (x * y + z) * w == x * (y * w) + z * w
  {
  }

  /** Each 4-tuple occurs as often as its components multiply. */
  lemma Product4Count<A, B, C, D>(a: seq<A>, b: seq<B>, c: seq<C>, d: seq<D>, t: (A, B, C, D))
    ensures Count(Product4(a, b, c, d), t) ==
            Count(a, t.0) * (Count(b, t.1) * (Count(c, t.2) * Count(d, t.3)))
  {
    var v := (t.0, (t.1, (t.2, t.3)));
    assert Flat(v) == t;
    FlattenCount(Product(a, Product(b, Product(c, d))), v);
    ProductCount(a, Product(b, Product(c, d)), v);
    ProductCount(b, Product(c, d), v.1);
    ProductCount(c, d, v.1.1);
  }
}
