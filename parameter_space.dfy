/** The candidate space of the ARIMA grid search: the non-seasonal orders
    `(p, d, q)` and the seasonal orders `(P, D, Q, m)` that
    `ARIMAGridSearch.__generate_combinations_of_parameters` builds with
    `itertools.product`. A Python tuple is a `seq<nat>`, so the empty tuple
    `()` is `[]`. */
module ParameterSpace {
  import opened Arith

  /** The seasonal period every seasonal order carries; it is never searched. */
  const SeasonalPeriod: nat := 2

  /** The number of values `range(0, limit)` yields: none when `limit <= 0`. */
  function Width(limit: int): nat
  {
    if limit <= 0 then 0 else limit
  }

  /** Python's `range(0, limit)`. */
  function Range(limit: int): seq<nat>
  {
    seq(Width(limit), i requires 0 <= i => i)
  }

  // ---------------------------------------------------------------------
  // Two nested comprehensions: `[(x, y) for x in xs for y in ys]`
  // ---------------------------------------------------------------------

  /** The pairs `(x, y)` for `y` in `ys`, in order. */
  function Row<A, B>(x: A, ys: seq<B>): seq<(A, B)>
  {
    seq(|ys|, k requires 0 <= k < |ys| => (x, ys[k]))
  }

  /** `[(x, y) for x in xs for y in ys]`: `xs` is the outer loop. */
  function Cross<A, B>(xs: seq<A>, ys: seq<B>): seq<(A, B)>
  {
    if xs == [] then [] else Cross(xs[..|xs| - 1], ys) + Row(xs[|xs| - 1], ys)
  }

  /** A row grows one inner element at a time, as the inner loop walks it. */
  lemma RowSnoc<A, B>(x: A, ys: seq<B>, j: nat)
    requires j < |ys|
    ensures Row(x, ys[..j + 1]) == Row(x, ys[..j]) + [(x, ys[j])]
  {
    var a, b := Row(x, ys[..j + 1]), Row(x, ys[..j]) + [(x, ys[j])];
    assert |a| == |b|;
    forall k | 0 <= k < |a| ensures a[k] == b[k] {
      if k < j {
        assert a[k] == (x, ys[k]) && b[k] == (x, ys[k]);
      }
    }
  }

  /** The cross product grows one row at a time, as the outer loop walks it. */
  lemma CrossSnoc<A, B>(xs: seq<A>, ys: seq<B>, i: nat)
    requires i < |xs|
    ensures Cross(xs[..i + 1], ys) == Cross(xs[..i], ys) + Row(xs[i], ys)
  {
    var p := xs[..i + 1];
    assert p[..|p| - 1] == xs[..i] && p[|p| - 1] == xs[i];
  }

  /** The cross product has `|xs| * |ys|` pairs. */
  lemma {:induction false} CrossLength<A, B>(xs: seq<A>, ys: seq<B>)
    ensures |Cross(xs, ys)| == |xs| * |ys|
  {
    if xs != [] {
      CrossLength(xs[..|xs| - 1], ys);
      assert |xs| * |ys| == (|xs| - 1) * |ys| + |ys|;
    }
  }

  /** Position `k` of the cross product holds the `k / |ys|`-th outer element
      and the `k % |ys|`-th inner element (row-major order). */
  lemma {:induction false} CrossAtIndex<A, B>(xs: seq<A>, ys: seq<B>, k: int)
    requires 0 <= k < |xs| * |ys|
    ensures |Cross(xs, ys)| == |xs| * |ys|
    ensures 0 < |ys| && 0 <= k / |ys| < |xs| && Cross(xs, ys)[k] == (xs[k / |ys|], ys[k % |ys|])
  {
    var init, m := xs[..|xs| - 1], |ys|;
    CrossLength(xs, ys);
    CrossLength(init, ys);
    var n0 := |init| * m;
    assert |xs| * m == n0 + m;
    if k < n0 {
      CrossAtIndex(init, ys, k);
    } else {
      assert Cross(xs, ys)[k] == Row(xs[|xs| - 1], ys)[k - n0];
      DivModOf(k, |init|, m, k - n0);
    }
  }

  /** Every position of the cross product, as in `CrossAtIndex`. */
  lemma CrossAt<A, B>(xs: seq<A>, ys: seq<B>)
    ensures |Cross(xs, ys)| == |xs| * |ys|
    ensures forall k :: 0 <= k < |xs| * |ys| ==>
      0 < |ys| && 0 <= k / |ys| < |xs| && Cross(xs, ys)[k] == (xs[k / |ys|], ys[k % |ys|])
  {
    CrossLength(xs, ys);
    forall k | 0 <= k < |xs| * |ys|
      ensures 0 < |ys| && 0 <= k / |ys| < |xs| && Cross(xs, ys)[k] == (xs[k / |ys|], ys[k % |ys|])
    {
      CrossAtIndex(xs, ys, k);
    }
  }

  /** Every pair of an outer and an inner position occurs, at index `a * |ys| + b`. */
  lemma CrossComplete<A, B>(xs: seq<A>, ys: seq<B>, a: nat, b: nat)
    requires a < |xs| && b < |ys|
    ensures a * |ys| + b < |Cross(xs, ys)|
    ensures Cross(xs, ys)[a * |ys| + b] == (xs[a], ys[b])
  {
    MulLe(a + 1, |xs|, |ys|);
    CrossAtIndex(xs, ys, a * |ys| + b);
    DivModOf(a * |ys| + b, a, |ys|, b);
  }

  /** A pair is in the cross product exactly when its parts are in the two sequences. */
  lemma CrossMember<A, B>(xs: seq<A>, ys: seq<B>, x: A, y: B)
    ensures (x, y) in Cross(xs, ys) <==> x in xs && y in ys
  {
    CrossAt(xs, ys);
    if (x, y) in Cross(xs, ys) {
      var k :| 0 <= k < |Cross(xs, ys)| && Cross(xs, ys)[k] == (x, y);
      DivLt(k, |xs|, |ys|);
    }
    if x in xs && y in ys {
      var a :| 0 <= a < |xs| && xs[a] == x;
      var b :| 0 <= b < |ys| && ys[b] == y;
      CrossComplete(xs, ys, a, b);
    }
  }

  /** Sequences without repetitions. */
  ghost predicate Distinct<T>(s: seq<T>)
  {
    forall i, j :: 0 <= i < j < |s| ==> s[i] != s[j]
  }

  /** The cross product of two repetition-free sequences repeats no pair. */
  lemma CrossDistinct<A, B>(xs: seq<A>, ys: seq<B>)
    requires Distinct(xs) && Distinct(ys)
    ensures Distinct(Cross(xs, ys))
  {
    CrossLength(xs, ys);
    var c, m := Cross(xs, ys), |ys|;
    forall i, j | 0 <= i < j < |c| ensures c[i] != c[j] {
      CrossAtIndex(xs, ys, i);
      CrossAtIndex(xs, ys, j);
      if i / m == j / m {
        assert i % m != j % m;
      }
    }
  }

  // ---------------------------------------------------------------------
  // itertools.product
  // ---------------------------------------------------------------------

  /** One round of `itertools.product`: every tuple of `acc` extended by every
      element of `pool`, `acc` outer. */
  function Extend(acc: seq<seq<nat>>, pool: seq<nat>): seq<seq<nat>>
  {
    var c := Cross(acc, pool);
    seq(|c|, k requires 0 <= k < |c| => c[k].0 + [c[k].1])
  }

  /** `list(itertools.product(*pools))`: starting from `[()]`, each pool in turn
      extends every tuple so far. */
  function Product(pools: seq<seq<nat>>): seq<seq<nat>>
  {
    if pools == [] then [[]] else Extend(Product(pools[..|pools| - 1]), pools[|pools| - 1])
  }

  /** `pdq = list(itertools.product(p, d, q))` with `p = d = q = range(0, limit)`. */
  function Pdq(limit: int): seq<seq<nat>>
  {
    var r := Range(limit);
    Product([r, r, r])
  }

  /** `seasonal_pdq = [(x[0], x[1], x[2], 2) for x in itertools.product(p, d, q)]`;
      every `x` is a triple, so the tuple is `x` with the period appended. */
  function SeasonalPdq(limit: int): seq<seq<nat>>
  {
    var r := Range(limit);
    var triples := Product([r, r, r]);
    seq(|triples|, i requires 0 <= i < |triples| => triples[i] + [SeasonalPeriod])
  }

  /** `__generate_combinations_of_parameters`: both candidate lists have
      `limit³` elements (none for `limit <= 0`), every non-seasonal order is a
      triple of components in `[0, limit)`, and the `i`-th seasonal order is
      the `i`-th non-seasonal order followed by the period 2. */
  function GenerateCombinations(limit: int): (r: (seq<seq<nat>>, seq<seq<nat>>))
    ensures var n := Width(limit);
      |r.0| == n * n * n && |r.1| == n * n * n
    ensures forall i :: 0 <= i < |r.0| ==>
      |r.0[i]| == 3 && r.0[i][0] < Width(limit) && r.0[i][1] < Width(limit) && r.0[i][2] < Width(limit)
    ensures forall i :: 0 <= i < |r.1| ==> r.1[i] == r.0[i] + [SeasonalPeriod]
  {
    PdqLength(limit);
    PdqInRange(limit);
    (Pdq(limit), SeasonalPdq(limit))
  }

  // ---------------------------------------------------------------------
  // Index formula, range and completeness of pdq
  // ---------------------------------------------------------------------

  /** Position `k` of one product round: the `k / |pool|`-th tuple so far,
      extended by the `k % |pool|`-th element of the pool. */
  lemma ExtendAt(acc: seq<seq<nat>>, pool: seq<nat>, k: int)
    requires 0 <= k < |acc| * |pool|
    ensures |Extend(acc, pool)| == |acc| * |pool|
    ensures 0 < |pool| && 0 <= k / |pool| < |acc|
    ensures Extend(acc, pool)[k] == acc[k / |pool|] + [pool[k % |pool|]]
  {
    CrossAtIndex(acc, pool, k);
  }

  /** `itertools.product(range(n))` is `[(0,), (1,), ..., (n - 1,)]`. */
  lemma ProductOneRange(limit: int)
    ensures var n := Width(limit);
      |Product([Range(limit)])| == n &&
      forall i :: 0 <= i < n ==> Product([Range(limit)])[i] == [i]
  {
    var r, n := Range(limit), Width(limit);
    var none: seq<seq<nat>> := [];
    assert [r][..0] == none;
    var l0: seq<seq<nat>> := [[]];
    assert Product([r]) == Extend(l0, r);
    CrossLength(l0, r);
    forall i | 0 <= i < n ensures Product([r])[i] == [i] {
      ExtendAt(l0, r, i);
      DivModOf(i, 0, n, i);
    }
  }

  /** `itertools.product(range(n), range(n))` has `n²` pairs. */
  lemma ProductTwoRangesLength(limit: int)
    ensures var n := Width(limit); |Product([Range(limit), Range(limit)])| == n * n
  {
    var r := Range(limit);
    assert [r, r][..1] == [r];
    ProductOneRange(limit);
    CrossLength(Product([r]), r);
  }

  /** `itertools.product(range(n), range(n))` lists `(i / n, i % n)` at position `i`. */
  lemma ProductTwoRangesAt(limit: int, i: int)
    requires var n := Width(limit); 0 <= i < n * n
    ensures var n := Width(limit);
      |Product([Range(limit), Range(limit)])| == n * n &&
      0 < n && Product([Range(limit), Range(limit)])[i] == [i / n, i % n]
  {
    var r := Range(limit);
    assert [r, r][..1] == [r];
    var l1 := Product([r]);
    ProductOneRange(limit);
    assert Product([r, r]) == Extend(l1, r);
    ExtendAt(l1, r, i);
  }

  /** `pdq` has `n³` triples. */
  lemma PdqLength(limit: int)
    ensures var n := Width(limit); |Pdq(limit)| == n * n * n
  {
    var r := Range(limit);
    assert [r, r, r][..2] == [r, r];
    ProductTwoRangesLength(limit);
    CrossLength(Product([r, r]), r);
  }

  /** The `i`-th triple written in base `n`: `pdq[i] == (i / n², (i / n) % n, i % n)`. */
  lemma PdqAtIndex(limit: int, i: int)
    requires var n := Width(limit); 0 <= i < n * n * n
    ensures var n := Width(limit);
      |Pdq(limit)| == n * n * n &&
      0 < n && Pdq(limit)[i] == [i / (n * n), (i / n) % n, i % n]
  {
    var r, n := Range(limit), Width(limit);
    assert [r, r, r][..2] == [r, r];
    var l2 := Product([r, r]);
    ProductTwoRangesLength(limit);
    assert Pdq(limit) == Extend(l2, r);
    ExtendAt(l2, r, i);
    ProductTwoRangesAt(limit, i / n);
    DivDiv(i, n);
  }

  /** Every position of `pdq`, as in `PdqAtIndex`. */
  lemma PdqAt(limit: int)
    ensures var n := Width(limit);
      |Pdq(limit)| == n * n * n &&
      forall i :: 0 <= i < n * n * n ==> 0 < n && Pdq(limit)[i] == [i / (n * n), (i / n) % n, i % n]
  {
    var n := Width(limit);
    PdqLength(limit);
    forall i | 0 <= i < n * n * n ensures 0 < n && Pdq(limit)[i] == [i / (n * n), (i / n) % n, i % n] {
      PdqAtIndex(limit, i);
    }
  }

  /** Every generated order is a triple of components in `[0, limit)`. */
  lemma PdqInRange(limit: int)
    ensures forall i :: 0 <= i < |Pdq(limit)| ==>
      |Pdq(limit)[i]| == 3 &&
      Pdq(limit)[i][0] < Width(limit) && Pdq(limit)[i][1] < Width(limit) && Pdq(limit)[i][2] < Width(limit)
  {
    var n := Width(limit);
    PdqLength(limit);
    forall i | 0 <= i < |Pdq(limit)|
      ensures |Pdq(limit)[i]| == 3 && Pdq(limit)[i][0] < n && Pdq(limit)[i][1] < n && Pdq(limit)[i][2] < n
    {
      PdqAtIndex(limit, i);
      DigitsBelow(n, i);
    }
  }

  /** Every triple of components in `[0, limit)` is generated, at position
      `(p * n + d) * n + q`; together with `PdqInRange` this makes `pdq`
      exactly the triples over `range(0, limit)`. */
  lemma PdqComplete(limit: int, p: nat, d: nat, q: nat)
    requires p < limit && d < limit && q < limit
    ensures var n := Width(limit);
      (p * n + d) * n + q < |Pdq(limit)| && Pdq(limit)[(p * n + d) * n + q] == [p, d, q]
  {
    var n := Width(limit);
    var i := (p * n + d) * n + q;
    Digits(n, p, d, q, i);
    PdqAtIndex(limit, i);
  }

  /** A generated order is a triple of components in `[0, limit)`. */
  lemma PdqMemberInRange(limit: int, t: seq<nat>)
    requires t in Pdq(limit)
    ensures |t| == 3 && t[0] < limit && t[1] < limit && t[2] < limit
  {
    PdqInRange(limit);
  }

  /** Every triple of components in `[0, limit)` is a generated order. */
  lemma PdqMemberComplete(limit: int, t: seq<nat>)
    requires |t| == 3 && t[0] < limit && t[1] < limit && t[2] < limit
    ensures t in Pdq(limit)
  {
    PdqComplete(limit, t[0], t[1], t[2]);
    assert t == [t[0], t[1], t[2]];
  }

  /** Membership: a tuple is a non-seasonal order exactly when it is a triple
      whose components lie in `[0, limit)`. */
  lemma PdqMember(limit: int, t: seq<nat>)
    ensures t in Pdq(limit) <==> |t| == 3 && t[0] < limit && t[1] < limit && t[2] < limit
  {
    if t in Pdq(limit) {
      PdqMemberInRange(limit, t);
    }
    if |t| == 3 && t[0] < limit && t[1] < limit && t[2] < limit {
      PdqMemberComplete(limit, t);
    }
  }

  // ---------------------------------------------------------------------
  // Lexicographic order of the generated tuples
  // ---------------------------------------------------------------------

  /** Python's tuple comparison `a < b`: the first differing component decides,
      and a proper prefix is smaller. */
  predicate TupleLess(a: seq<nat>, b: seq<nat>)
  {
    if |a| == 0 then |b| > 0
    else |b| > 0 && (a[0] < b[0] || (a[0] == b[0] && TupleLess(a[1..], b[1..])))
  }

  /** No tuple is smaller than itself. */
  lemma {:induction false} TupleLessIrreflexive(a: seq<nat>)
    ensures !TupleLess(a, a)
  {
    if |a| > 0 {
      TupleLessIrreflexive(a[1..]);
    }
  }

  /** Extending two equally long tuples keeps their order. */
  lemma {:induction false} TupleLessAppend(a: seq<nat>, b: seq<nat>, x: nat, y: nat)
    requires |a| == |b| && TupleLess(a, b)
    ensures TupleLess(a + [x], b + [y])
  {
    assert (a + [x])[1..] == a[1..] + [x] && (b + [y])[1..] == b[1..] + [y];
    if a[0] == b[0] && TupleLess(a[1..], b[1..]) {
      TupleLessAppend(a[1..], b[1..], x, y);
    }
  }

  /** Extending one tuple by two different components orders the results by
      that component. */
  lemma {:induction false} TupleLessSamePrefix(a: seq<nat>, x: nat, y: nat)
    requires x < y
    ensures TupleLess(a + [x], a + [y])
  {
    if |a| > 0 {
      assert (a + [x])[1..] == a[1..] + [x] && (a + [y])[1..] == a[1..] + [y];
      TupleLessSamePrefix(a[1..], x, y);
    }
  }

  /** Strictly increasing under the tuple order. */
  ghost predicate Increasing(s: seq<seq<nat>>)
  {
    forall i, j :: 0 <= i < j < |s| ==> TupleLess(s[i], s[j])
  }

  /** Strictly increasing pool of components. */
  ghost predicate IncreasingPool(pool: seq<nat>)
  {
    forall i, j :: 0 <= i < j < |pool| ==> pool[i] < pool[j]
  }

  /** Extending two tuples: the same tuple by a smaller and a larger component,
      or a smaller and a larger tuple of equal length by any two components,
      gives a smaller and a larger tuple. */
  lemma ExtendedLess(u: seq<nat>, v: seq<nat>, x: nat, y: nat)
    requires |u| == |v|
    requires (u == v && x < y) || TupleLess(u, v)
    ensures TupleLess(u + [x], v + [y])
  {
    if u == v && x < y {
      TupleLessSamePrefix(u, x, y);
    } else {
      TupleLessAppend(u, v, x, y);
    }
  }

  /** Two positions of one product round are ordered as their indices are:
      the tuples that `ExtendAt` places at `i < j` are increasing. */
  lemma ExtendLess(acc: seq<seq<nat>>, pool: seq<nat>, len: nat, i: int, j: int)
    requires Increasing(acc) && IncreasingPool(pool)
    requires forall i :: 0 <= i < |acc| ==> |acc[i]| == len
    requires 0 <= i < j < |acc| * |pool|
    ensures 0 < |pool| && 0 <= i / |pool| < |acc| && 0 <= j / |pool| < |acc| &&
      TupleLess(acc[i / |pool|] + [pool[i % |pool|]], acc[j / |pool|] + [pool[j % |pool|]])
  {
    var m := |pool|;
    DivLt(i, |acc|, m);
    DivLt(j, |acc|, m);
    DivMonotone(i, j, m);
    var a, b, x, y := i / m, j / m, i % m, j % m;
    assert a == b ==> x < y;
    assert a < b ==> TupleLess(acc[a], acc[b]);
    ExtendedLess(acc[a], acc[b], pool[x], pool[y]);
  }

  /** One round of the product keeps the tuples strictly increasing and makes
      every tuple one component longer. */
  lemma ExtendIncreasing(acc: seq<seq<nat>>, pool: seq<nat>, len: nat)
    requires Increasing(acc) && IncreasingPool(pool)
    requires forall i :: 0 <= i < |acc| ==> |acc[i]| == len
    ensures Increasing(Extend(acc, pool))
    ensures forall i :: 0 <= i < |Extend(acc, pool)| ==> |Extend(acc, pool)[i]| == len + 1
  {
    var e := Extend(acc, pool);
    CrossLength(acc, pool);
    forall i | 0 <= i < |e| ensures |e[i]| == len + 1 {
      ExtendAt(acc, pool, i);
    }
    forall i, j | 0 <= i < j < |e| ensures TupleLess(e[i], e[j]) {
      ExtendAt(acc, pool, i);
      ExtendAt(acc, pool, j);
      ExtendLess(acc, pool, len, i, j);
    }
  }

  /** `itertools.product` over strictly increasing pools yields its tuples in
      strictly increasing lexicographic order, each as long as there are pools. */
  lemma {:induction false} ProductIncreasing(pools: seq<seq<nat>>)
    requires forall k :: 0 <= k < |pools| ==> IncreasingPool(pools[k])
    ensures Increasing(Product(pools))
    ensures forall i :: 0 <= i < |Product(pools)| ==> |Product(pools)[i]| == |pools|
  {
    if pools != [] {
      var init := pools[..|pools| - 1];
      ProductIncreasing(init);
      ExtendIncreasing(Product(init), pools[|pools| - 1], |init|);
    }
  }

  /** `pdq` is strictly increasing in Python's tuple order, hence free of duplicates. */
  lemma PdqIncreasing(limit: int)
    ensures Increasing(Pdq(limit))
    ensures Distinct(Pdq(limit))
  {
    var r := Range(limit);
    ProductIncreasing([r, r, r]);
    forall i, j | 0 <= i < j < |Pdq(limit)| ensures Pdq(limit)[i] != Pdq(limit)[j] {
      TupleLessIrreflexive(Pdq(limit)[i]);
    }
  }

  /** `seasonal_pdq` repeats no seasonal order either. */
  lemma SeasonalPdqDistinct(limit: int)
    ensures Distinct(SeasonalPdq(limit))
  {
    var s, t := SeasonalPdq(limit), Pdq(limit);
    PdqIncreasing(limit);
    PdqInRange(limit);
    forall i, j | 0 <= i < j < |s| ensures s[i] != s[j] {
      assert s[i] == t[i] + [SeasonalPeriod] && s[j] == t[j] + [SeasonalPeriod];
      assert s[i][..3] == t[i] && s[j][..3] == t[j];
    }
  }
}
