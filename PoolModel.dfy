/**
 * The pools' behaviour as values: the pair of ordered lists a pool keeps, and
 * what get, release and a size review do to them. The classes in Pooling.dfy
 * are proved to follow these definitions step by step; the lemmas here state
 * what follows over several calls (first-in-first-out reuse, growth up to the
 * ceiling, no item lost or duplicated).
 */
module PoolModel {
  import opened ListOps

  /**
   * A pool's lists: `available` holds idle items, served from the front;
   * `inUse` holds handed-out items, oldest first.
   */
  datatype Lists<T> = Lists(available: seq<T>, inUse: seq<T>)

  /** The item one get hands out and the lists after it. */
  datatype Got<T> = Got(item: T, pool: Lists<T>)

  /** The items a run of gets hands out, in order, and the lists after it. */
  datatype Run<T> = Run(items: seq<T>, pool: Lists<T>)

  /**
   * What a get does when nothing is available: a fixed-size pool always
   * reuses the oldest in-use item; a growing pool calls the factory while
   * fewer than `maxCount` items are in use.
   */
  datatype Policy<T> = Fixed | Growing(create: int -> T, maxCount: int)

  /** Every item the two lists hold, counted with multiplicity. */
  function Items<T>(p: Lists<T>): (r: multiset<T>) {
    multiset(p.available) + multiset(p.inUse)
  }

  /** No item is held twice, whether in one list or across both. */
  ghost predicate NoDuplicates<T(!new)>(m: multiset<T>) {
    forall x :: m[x] <= 1
  }

  function Min(a: int, b: int): (r: int) {
    if a <= b then a else b
  }

  function Max(a: int, b: int): (r: int) {
    if a <= b then b else a
  }

  /** The items the constructors create, in order: create(0), ..., create(n - 1); none when n <= 0. */
  function Created<T>(create: int -> T, n: int): (r: seq<T>)
    ensures |r| == if n < 0 then 0 else n
    ensures forall i :: 0 <= i < |r| ==> r[i] == create(i)
  {
    if n <= 0 then [] else Created(create, n - 1) + [create(n - 1)]
  }

  // ---------------------------------------------------------------- get

  /** Nothing is available and the policy lets the pool create another item. */
  predicate Grows<T>(p: Lists<T>, policy: Policy<T>) {
    p.available == [] && policy.Growing? && |p.inUse| < policy.maxCount
  }

  /** A get has an item to hand out; otherwise the source indexes an empty list and throws. */
  function CanGet<T>(p: Lists<T>, policy: Policy<T>): (r: bool)
    ensures policy.Fixed? ==> (r <==> p.available != [] || p.inUse != [])
    ensures policy.Growing? ==> (r <==> p.available != [] || p.inUse != [] || 0 < policy.maxCount)
  {
    p.available != [] || p.inUse != [] || Grows(p, policy)
  }

  /** Nothing is available and the pool may not grow: every get is a forced reuse. */
  predicate AtCeiling<T>(p: Lists<T>, policy: Policy<T>) {
    p.available == [] && p.inUse != [] && (policy.Fixed? || |p.inUse| >= policy.maxCount)
  }

  /**
   * One get: serve the front of `available`; else create an item (index: the
   * in-use count) if the policy allows; else move the front of `inUse` to its
   * back and hand it out again.
   */
  function Get<T>(p: Lists<T>, policy: Policy<T>): (r: Got<T>)
    requires CanGet(p, policy)
    ensures r.pool.inUse != [] && r.pool.inUse[|r.pool.inUse| - 1] == r.item
    ensures p.available != [] ==> r.item == p.available[0]
    ensures Grows(p, policy) ==> r.item == policy.create(|p.inUse|)
    ensures |r.pool.inUse| == |p.inUse| + (if AtCeiling(p, policy) then 0 else 1)
    ensures |r.pool.available| == if p.available == [] then 0 else |p.available| - 1
  {
    if p.available != [] then
      Got(p.available[0], Lists(p.available[1..], p.inUse + [p.available[0]]))
    else if Grows(p, policy) then
      var item := policy.create(|p.inUse|);
      Got(item, Lists([], p.inUse + [item]))
    else
      Got(p.inUse[0], Lists([], Rotate(p.inUse)))
  }

  /**
   * A get loses no item: a growing pool that creates one holds exactly that
   * one more; otherwise the item handed out was already held and the pool
   * holds the same items as before.
   */
  lemma {:induction false} GetConserves<T>(p: Lists<T>, policy: Policy<T>)
    requires CanGet(p, policy)
    ensures Grows(p, policy) ==> Items(Get(p, policy).pool) == Items(p) + multiset{Get(p, policy).item}
    ensures !Grows(p, policy) ==> Get(p, policy).item in Items(p) && Items(Get(p, policy).pool) == Items(p)
  {
    var a, u := p.available, p.inUse;
    var g := Get(p, policy);
    if a != [] {
      assert g == Got(a[0], Lists(a[1..], u + [a[0]]));
      MoveFrontKeepsItems(a, u);
    } else if Grows(p, policy) {
      var x := policy.create(|u|);
      assert g == Got(x, Lists([], u + [x]));
      assert multiset(u + [x]) == multiset(u) + multiset{x};
    } else {
      assert g == Got(u[0], Lists([], Rotate(u)));
      MoveFrontKeepsItems(u, []);
      assert [] + [u[0]] == [u[0]];
    }
  }

  /** Moving the front of one list to the back of another keeps the items of the two together. */
  lemma MoveFrontKeepsItems<T>(a: seq<T>, u: seq<T>)
    requires a != []
    ensures a[0] in multiset(a)
    ensures multiset(a[1..]) + multiset(u + [a[0]]) == multiset(a) + multiset(u)
  {
    assert a == [a[0]] + a[1..];
    assert multiset(u + [a[0]]) == multiset(u) + multiset{a[0]};
  }

  /** `k` gets in a row with no release in between. */
  function Gets<T>(p: Lists<T>, policy: Policy<T>, k: nat): (r: Run<T>)
    requires k == 0 || CanGet(p, policy)
    ensures |r.items| == k
    ensures k > 0 ==> r.pool.inUse != []
    decreases k
  {
    if k == 0 then Run([], p)
    else
      var g := Get(p, policy);
      var rest := Gets(g.pool, policy, k - 1);
      Run([g.item] + rest.items, rest.pool)
  }

  /** The first of `k` gets is `g`; the other `k - 1` start from the pool it leaves. */
  lemma GetsStep<T>(p: Lists<T>, policy: Policy<T>, k: nat, g: Got<T>)
    requires 0 < k && CanGet(p, policy) && Get(p, policy) == g
    ensures Gets(p, policy, k)
         == Run([g.item] + Gets(g.pool, policy, k - 1).items, Gets(g.pool, policy, k - 1).pool)
  {
  }

  /**
   * While items are available, either pool hands them out front first,
   * appending each to `inUse`; the `j` gets after that start from an empty
   * `available` and `inUse` extended by the drained items.
   */
  lemma {:induction false} DrainRun<T>(p: Lists<T>, policy: Policy<T>, j: nat)
    requires j == 0 || CanGet(p, policy)
    ensures |p.available| + j == 0 || CanGet(p, policy)
    ensures j == 0 || CanGet(Lists([], p.inUse + p.available), policy)
    ensures Gets(p, policy, |p.available| + j)
         == Run(p.available + Gets(Lists([], p.inUse + p.available), policy, j).items,
                Gets(Lists([], p.inUse + p.available), policy, j).pool)
    decreases |p.available|
  {
    var a, u := p.available, p.inUse;
    if a == [] {
      assert u + a == u;
    } else {
      var q := Lists(a[1..], u + [a[0]]);
      var rest := Gets(Lists([], u + a), policy, j);
      MoveFrontKeepsOrder(a, u, rest.items);
      DrainRun(q, policy, j);
      DrainStep(p, policy, j, rest);
    }
  }

  /** One step of DrainRun: the front idle item goes out first, then the gets from the pool that get leaves. */
  lemma DrainStep<T>(p: Lists<T>, policy: Policy<T>, j: nat, rest: Run<T>)
    requires p.available != []
    requires Gets(Lists(p.available[1..], p.inUse + [p.available[0]]), policy, |p.available| - 1 + j)
          == Run(p.available[1..] + rest.items, rest.pool)
    ensures Gets(p, policy, |p.available| + j) == Run(p.available + rest.items, rest.pool)
  {
    var a := p.available;
    var q := Lists(a[1..], p.inUse + [a[0]]);
    assert Get(p, policy) == Got(a[0], q);
    GetsStep(p, policy, |a| + j, Got(a[0], q));
    assert a == [a[0]] + a[1..];
  }

  /** Moving the front of `a` to the back of `u` keeps `u ++ a` in order, as handing out the front before the rest does. */
  lemma MoveFrontKeepsOrder<T>(a: seq<T>, u: seq<T>, t: seq<T>)
    requires a != []
    ensures (u + [a[0]]) + a[1..] == u + a
    ensures [a[0]] + (a[1..] + t) == a + t
  {
    assert a == [a[0]] + a[1..];
  }

  /**
   * At the ceiling every get is a forced reuse: the in-use items are handed
   * out again oldest first, and `inUse` turns round by one each time.
   */
  lemma {:induction false} SaturatedRun<T>(p: Lists<T>, policy: Policy<T>, k: nat)
    requires AtCeiling(p, policy) && k <= |p.inUse|
    ensures CanGet(p, policy)
    ensures Gets(p, policy, k) == Run(p.inUse[..k], Lists([], p.inUse[k..] + p.inUse[..k]))
    decreases k
  {
    var u := p.inUse;
    if k == 0 {
      assert u[..0] == [] && u[0..] == u;
    } else {
      var rot := Rotate(u);
      assert Get(p, policy) == Got(u[0], Lists([], rot));
      SaturatedRun(Lists([], rot), policy, k - 1);
      RotateSplit(u, k);
      var rest := Gets(Lists([], rot), policy, k - 1);
      assert Gets(p, policy, k) == Run([u[0]] + rest.items, rest.pool);
    }
  }

  /** Splitting a rotated list one position earlier gives the pieces of the original split, head moved. */
  lemma RotateSplit<T>(u: seq<T>, k: nat)
    requires 0 < k <= |u|
    ensures [u[0]] + Rotate(u)[..k - 1] == u[..k]
    ensures Rotate(u)[k - 1..] + Rotate(u)[..k - 1] == u[k..] + u[..k]
  {
    var rot := Rotate(u);
    assert rot[..k - 1] == u[1..k];
    assert u[..k] == [u[0]] + u[1..k];
    assert rot[k - 1..] == u[k..] + [u[0]];
  }

  /**
   * A growing pool at its ceiling behaves exactly as a fixed pool: no
   * factory call, the same items in the same order, the same lists.
   */
  lemma {:induction false} CeilingActsFixed<T>(p: Lists<T>, create: int -> T, maxCount: int, k: nat)
    requires AtCeiling(p, Growing(create, maxCount))
    ensures CanGet(p, Growing(create, maxCount)) && CanGet(p, Fixed)
    ensures Gets(p, Growing(create, maxCount), k) == Gets(p, Fixed, k)
    ensures Items(Gets(p, Fixed, k).pool) == Items(p)
    decreases k
  {
    if k > 0 {
      var g := Get(p, Fixed);
      assert Get(p, Growing(create, maxCount)) == g;
      GetConserves(p, Fixed);
      CeilingActsFixed(g.pool, create, maxCount, k - 1);
    }
  }

  /** The items the factory makes for indices n, n + 1, ..., n + k - 1, in that order. */
  function Fresh<T>(create: int -> T, n: int, k: nat): (r: seq<T>)
    ensures |r| == k
    decreases k
  {
    if k == 0 then [] else [create(n)] + Fresh(create, n + 1, k - 1)
  }

  /** The items for indices n, ..., m - 1 are the tail, from position n, of the m items a constructor creates. */
  lemma {:induction false} FreshIsCreatedTail<T>(create: int -> T, n: nat, m: nat)
    requires n <= m
    ensures Fresh(create, n, m - n) == Created(create, m)[n..]
    decreases m - n
  {
    var cm := Created(create, m);
    if n == m {
      assert cm[n..] == [];
    } else {
      var f := Fresh(create, n + 1, m - (n + 1));
      assert Fresh(create, n, m - n) == [create(n)] + f;
      FreshIsCreatedTail(create, n + 1, m);
      assert f == cm[n + 1..];
      TailCons(cm, n);
      assert cm[n] == create(n);
    }
  }

  /** The tail of a list from position n is its element n followed by the tail from n + 1. */
  lemma TailCons<T>(s: seq<T>, n: nat)
    requires n < |s|
    ensures s[n..] == [s[n]] + s[n + 1..]
  {
    assert s[n..][0] == s[n];
  }

  /**
   * A growing pool with nothing available and any list `u` of items in use
   * creates items |u|, |u| + 1, ..., |u| + k - 1 on the next k gets, as long
   * as the ceiling allows, appending each to `inUse`: the factory index is
   * the in-use count, whatever items are in use.
   */
  lemma {:induction false} GrowthRun<T>(create: int -> T, maxCount: int, u: seq<T>, k: nat)
    requires |u| + k <= maxCount
    ensures k == 0 || CanGet(Lists([], u), Growing(create, maxCount))
    ensures Gets(Lists([], u), Growing(create, maxCount), k)
         == Run(Fresh(create, |u|, k), Lists([], u + Fresh(create, |u|, k)))
    decreases k
  {
    if k == 0 {
      assert u + [] == u;
    } else {
      var policy := Growing(create, maxCount);
      var n := |u|;
      var u1 := u + [create(n)];
      var g := Get(Lists([], u), policy);
      assert g == Got(create(n), Lists([], u1));
      GrowthRun(create, maxCount, u1, k - 1);
      var f := Fresh(create, n + 1, k - 1);
      assert |u1| == n + 1;
      var rest := Gets(g.pool, policy, k - 1);
      assert rest == Run(f, Lists([], u1 + f));
      assert u1 + f == u + ([create(n)] + f);
      assert Gets(Lists([], u), policy, k) == Run([g.item] + rest.items, rest.pool);
    }
  }

  /**
   * With the in-use items those a constructor built, the run of gets above
   * continues the constructor's numbering: after m - n gets the pool holds
   * exactly the first m created items, all in use.
   */
  lemma {:induction false} GrowthAfterBuilt<T>(create: int -> T, maxCount: int, n: nat, m: nat)
    requires n <= m <= maxCount
    ensures n == m || CanGet(Lists([], Created(create, n)), Growing(create, maxCount))
    ensures Gets(Lists([], Created(create, n)), Growing(create, maxCount), m - n)
         == Run(Created(create, m)[n..], Lists([], Created(create, m)))
  {
    var c, cm, f := Created(create, n), Created(create, m), Fresh(create, n, m - n);
    var policy := Growing(create, maxCount);
    assert |c| == n;
    GrowthRun(create, maxCount, c, m - n);
    assert Gets(Lists([], c), policy, m - n) == Run(f, Lists([], c + f));
    FreshIsCreatedTail(create, n, m);
    CreatedSplit(create, n, m);
    assert f == cm[n..] && c + f == cm;
  }

  /** The first n of m created items are the n items a constructor with count n creates. */
  lemma CreatedSplit<T>(create: int -> T, n: nat, m: nat)
    requires n <= m
    ensures Created(create, n) + Created(create, m)[n..] == Created(create, m)
  {
    var c, cm := Created(create, n), Created(create, m);
    assert c == cm[..n] by {
      forall i | 0 <= i < n ensures c[i] == cm[i] {
      }
    }
    assert cm[..n] + cm[n..] == cm;
  }

  /** A factory that never repeats an item builds a pool free of duplicates. */
  lemma {:induction false} CreatedNoDuplicates<T(!new)>(create: int -> T, n: nat)
    requires forall i, j :: 0 <= i < j < n ==> create(i) != create(j)
    ensures NoDuplicates(multiset(Created(create, n)))
    ensures NoDuplicates(Items(Lists(Created(create, n), [])))
  {
    var c := Created(create, n);
    forall i, j | 0 <= i < j < |c| ensures c[i] != c[j] {
      assert c[i] == create(i) && c[j] == create(j);
    }
    DistinctNoDuplicates(c);
    assert Items(Lists(c, [])) == multiset(c);
  }

  /** A list whose positions all hold different items has no duplicates. */
  lemma {:induction false} DistinctNoDuplicates<T(!new)>(s: seq<T>)
    requires forall i, j :: 0 <= i < j < |s| ==> s[i] != s[j]
    ensures NoDuplicates(multiset(s))
    decreases |s|
  {
    if s != [] {
      var s', x := s[..|s| - 1], s[|s| - 1];
      assert s == s' + [x];
      assert forall i :: 0 <= i < |s'| ==> s'[i] == s[i];
      DistinctNoDuplicates(s');
      assert x !in s' by {
        forall i | 0 <= i < |s'| ensures s'[i] != x {
          assert s'[i] == s[i];
        }
      }
      SnocKeepsNoDuplicates(s', x);
    }
  }

  /** Appending an item a list does not hold keeps it free of duplicates. */
  lemma SnocKeepsNoDuplicates<T(!new)>(s: seq<T>, x: T)
    requires NoDuplicates(multiset(s)) && x !in s
    ensures NoDuplicates(multiset(s + [x]))
  {
    assert multiset(s + [x]) == multiset(s) + multiset{x};
    forall y ensures multiset(s + [x])[y] <= 1 {
      assert multiset(s + [x])[y] == multiset(s)[y] + multiset{x}[y];
    }
  }

  /**
   * A fixed pool built with `n` items: the first `n` gets hand out
   * create(0), ..., create(n - 1) in order, and get number n + 1 hands out
   * the first item again (forced reuse, oldest first).
   */
  lemma {:induction false} FixedExhaustion<T>(create: int -> T, n: nat)
    requires n >= 1
    ensures CanGet(Lists(Created(create, n), []), Fixed)
    ensures Gets(Lists(Created(create, n), []), Fixed, n + 1)
         == Run(Created(create, n) + [create(0)], Lists([], Rotate(Created(create, n))))
  {
    var c := Created(create, n);
    var p := Lists(c, []);
    assert [] + c == c && |c| == n;
    var g := Get(Lists([], c), Fixed);
    assert g == Got(create(0), Lists([], Rotate(c)));
    var r1 := Gets(Lists([], c), Fixed, 1);
    assert r1 == Run([create(0)], g.pool);
    DrainRun(p, Fixed, 1);
    assert Gets(p, Fixed, n + 1) == Run(c + r1.items, r1.pool);
  }

  /**
   * A growing pool built with `n` items below its ceiling: after the `n`
   * built items, the next get creates item `n`; the pool then holds exactly
   * n + 1 items, all in use.
   */
  lemma {:induction false} FlexibleGrowth<T>(create: int -> T, n: nat, maxCount: int)
    requires n < maxCount
    ensures CanGet(Lists(Created(create, n), []), Growing(create, maxCount))
    ensures Gets(Lists(Created(create, n), []), Growing(create, maxCount), n + 1)
         == Run(Created(create, n + 1), Lists([], Created(create, n + 1)))
  {
    var c, c1 := Created(create, n), Created(create, n + 1);
    var policy := Growing(create, maxCount);
    var p := Lists(c, []);
    assert [] + c == c && |c| == n;
    assert c1 == c + [create(n)];
    var g := Get(Lists([], c), policy);
    assert g == Got(create(n), Lists([], c1));
    var r1 := Gets(Lists([], c), policy, 1);
    assert r1 == Run([create(n)], g.pool);
    DrainRun(p, policy, 1);
    assert Gets(p, policy, n + 1) == Run(c + r1.items, r1.pool);
  }

  /** After a get, either (for a growing pool) the new item or an item already held is the one handed out, and nothing held is duplicated unless the factory repeats an item. */
  lemma {:induction false} GetKeepsNoDuplicates<T(!new)>(p: Lists<T>, policy: Policy<T>)
    requires CanGet(p, policy) && NoDuplicates(Items(p))
    requires Grows(p, policy) ==> policy.create(|p.inUse|) !in Items(p)
    ensures NoDuplicates(Items(Get(p, policy).pool))
  {
    var r := Get(p, policy);
    GetConserves(p, policy);
    if Grows(p, policy) {
      forall x ensures Items(r.pool)[x] <= 1 {
        assert Items(r.pool)[x] == Items(p)[x] + multiset{r.item}[x];
      }
    }
  }

  // ------------------------------------------------------------ release

  /** Release: remove the first occurrence of `x` from `inUse` (if any) and append `x` to `available`. */
  function Released<T(==)>(p: Lists<T>, x: T): (r: Lists<T>)
    ensures |r.available| == |p.available| + 1 && r.available[|p.available|] == x
    ensures r.available[..|p.available|] == p.available
  {
    Lists(p.available + [x], RemoveFirst(p.inUse, x))
  }

  /**
   * A release loses no item: releasing an item in use keeps the pool's
   * items; releasing one not in use leaves `inUse` alone and adds the item
   * to the pool a second time.
   */
  lemma {:induction false} ReleaseConserves<T>(p: Lists<T>, x: T)
    ensures x in p.inUse ==> Items(Released(p, x)) == Items(p)
    ensures x !in p.inUse ==> Released(p, x).inUse == p.inUse && Items(Released(p, x)) == Items(p) + multiset{x}
  {
    var r := Released(p, x);
    assert multiset(r.available) == multiset(p.available) + multiset{x};
    if x in p.inUse {
      assert x in multiset(p.inUse);
      assert multiset(p.inUse) == multiset(r.inUse) + multiset{x};
    }
  }

  /**
   * Releasing the item a get just handed out (one the pool did not already
   * have in use) puts `inUse` back as it was and parks the item at the back
   * of `available`.
   */
  lemma {:induction false} ReleaseUndoesGet<T>(p: Lists<T>, policy: Policy<T>)
    requires p.available != [] || Grows(p, policy)
    requires Get(p, policy).item !in p.inUse
    ensures CanGet(p, policy)
    ensures Released(Get(p, policy).pool, Get(p, policy).item)
         == Lists(Get(p, policy).pool.available + [Get(p, policy).item], p.inUse)
  {
    var g := Get(p, policy);
    assert g.pool.inUse == p.inUse + [g.item];
    RemoveAppended(p.inUse, g.item);
  }

  /** Releasing an item that is in use keeps the pool free of duplicates. */
  lemma {:induction false} ReleaseKeepsNoDuplicates<T(!new)>(p: Lists<T>, x: T)
    requires NoDuplicates(Items(p)) && x in p.inUse
    ensures NoDuplicates(Items(Released(p, x)))
  {
    ReleaseConserves(p, x);
  }

  /**
   * The double-release hazard: releasing an idle item that is not in use
   * leaves `inUse` alone and puts a second copy of the item in `available`.
   */
  lemma {:induction false} DoubleReleaseDuplicates<T(!new)>(p: Lists<T>, x: T)
    requires x in p.available && x !in p.inUse
    ensures Released(p, x).inUse == p.inUse
    ensures multiset(Released(p, x).available)[x] >= 2
    ensures !NoDuplicates(Items(Released(p, x)))
  {
    var r := Released(p, x);
    ReleaseConserves(p, x);
    assert multiset(r.available) == multiset(p.available) + multiset{x};
    assert x in multiset(p.available);
    assert Items(r)[x] >= 2;
  }

  // ---------------------------------------------------------- size review

  /** C#'s (int) conversion of a floating-point value: truncation toward zero. */
  function TruncateToInt(x: real): (r: int)
    ensures 0.0 <= x ==> 0 <= r && r as real <= x < r as real + 1.0
    ensures x < 0.0 ==> r <= 0 && r as real - 1.0 < x <= r as real
  {
    if 0.0 <= x then x.Floor else -((-x).Floor)
  }

  /** The idle reserve a review aims for: (int)(peak * margin). */
  function Reserve(peak: nat, margin: real): (r: int)
    ensures 0.0 <= margin ==> 0 <= r && r as real <= peak as real * margin < r as real + 1.0
    ensures margin < 0.0 ==> r <= 0
  {
    assert 0.0 <= margin ==> 0.0 <= peak as real * margin;
    assert margin < 0.0 ==> peak as real * margin <= 0.0;
    TruncateToInt(peak as real * margin)
  }

  /**
   * A review of an idle list of `availableCount` items does not throw: it
   * stops at the initial-count guard, or its reserve is not negative (a
   * negative reserve asks RemoveRange for more items than the list holds).
   * Only a negative margin with some recent use can break it.
   */
  function ReviewDefined(availableCount: nat, initialItemCount: int, peak: nat, margin: real): (r: bool)
    ensures 0.0 <= margin ==> r
    ensures !r ==> margin < 0.0 && initialItemCount <= availableCount && 0 < peak
  {
    assert peak == 0 ==> peak as real * margin == 0.0;
    availableCount < initialItemCount || 0 <= Reserve(peak, margin)
  }

  /**
   * A size review on the idle list: when it holds at least the initial item
   * count, the oldest idle items beyond Reserve(peak, margin) are destroyed.
   */
  function Adjusted<T>(available: seq<T>, initialItemCount: int, peak: nat, margin: real): (r: seq<T>)
    requires ReviewDefined(|available|, initialItemCount, peak, margin)
    ensures |r| <= |available| && r == available[|available| - |r|..]
    ensures |available| < initialItemCount ==> r == available
    ensures initialItemCount <= |available| ==> |r| == Min(|available|, Reserve(peak, margin))
  {
    if |available| < initialItemCount then available
    else
      var extra := |available| - Reserve(peak, margin);
      if extra > 0 then available[extra..] else available
  }

  /**
   * A review only ever destroys idle items: `inUse` is untouched, no item is
   * added, and a pool free of duplicates stays so.
   */
  lemma {:induction false} AdjustDestroysOnlyIdle<T(!new)>(p: Lists<T>, initialItemCount: int, peak: nat, margin: real)
    requires ReviewDefined(|p.available|, initialItemCount, peak, margin)
    ensures Items(Lists(Adjusted(p.available, initialItemCount, peak, margin), p.inUse)) <= Items(p)
    ensures NoDuplicates(Items(p)) ==> NoDuplicates(Items(Lists(Adjusted(p.available, initialItemCount, peak, margin), p.inUse)))
  {
    var a := p.available;
    var r := Adjusted(a, initialItemCount, peak, margin);
    assert a == a[..|a| - |r|] + r;
    assert multiset(a) == multiset(a[..|a| - |r|]) + multiset(r);
  }

  /**
   * The initial item count guards a review only before it: when no item was
   * in use over the last period, a review that passes the guard destroys
   * every idle item, however many the pool was built with.
   */
  lemma {:induction false} IdleReviewEmpties<T>(available: seq<T>, initialItemCount: int, margin: real)
    requires initialItemCount <= |available|
    ensures ReviewDefined(|available|, initialItemCount, 0, margin)
    ensures Adjusted(available, initialItemCount, 0, margin) == []
  {
    assert 0 as real * margin == 0.0;
    assert Reserve(0, margin) == 0;
  }
}
