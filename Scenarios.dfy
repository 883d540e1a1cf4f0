/**
 * Client code driving the two pool classes through short call sequences.
 * Each method builds its own pools and states, in its postcondition, what
 * the caller observes: which items come back and how large the lists are.
 */
module Scenarios {
  import opened ListOps
  import opened PoolModel
  import opened Pooling

  /**
   * A fixed pool of three items: the first three gets hand out the items in
   * creation order; the fourth, with none idle, hands out the first again.
   */
  method FixedPoolReusesOldest() returns (got: seq<int>)
    ensures got == [0, 1, 2, 0]
  {
    var pool := new SimplePool<int>(i => i, 3);
    assert pool.available == [0, 1, 2] by {
      assert Created(i => i, 3) == [0, 1, 2];
    }
    var a := pool.Get();
    var b := pool.Get();
    var c := pool.Get();
    var d := pool.Get();
    got := [a, b, c, d];
  }

  /**
   * A flexible pool built with two items: after those are handed out, the
   * next get creates item 2 (the factory is called with the in-use count)
   * and the pool holds three items, all in use.
   */
  method FlexiblePoolGrows() returns (got: seq<int>, idle: nat, busy: nat)
    ensures got == [0, 10, 20]
    ensures idle == 0 && busy == 3
  {
    var pool := new FlexiblePool<int>(i => 10 * i, 2);
    assert pool.available == [0, 10] by {
      assert Created(i => 10 * i, 2) == [0, 10];
    }
    var a := pool.Get();
    var b := pool.Get();
    var c := pool.Get();
    got := [a, b, c];
    idle, busy := |pool.available|, |pool.inUse|;
  }

  /** A fixed pool of two items after one get: item 0 in use, item 1 idle. */
  method OneOut() returns (pool: SimplePool<int>)
    ensures fresh(pool)
    ensures pool.inUse == [0] && pool.available == [1]
  {
    pool := new SimplePool<int>(i => i, 2);
    assert pool.available == [0, 1] by {
      assert Created(i => i, 2) == [0, 1];
    }
    var a := pool.Get();
  }

  /**
   * Releasing an item twice: the second release leaves `inUse` alone and
   * parks a second copy of the item among the idle ones.
   */
  method DoubleRelease() returns (idle: seq<int>, busy: seq<int>)
    ensures idle == [1, 0, 0] && busy == []
  {
    var pool := OneOut();
    var out := pool.inUse;
    assert RemoveFirst(out, 0) == out[1..];
    pool.Release(0);
    assert pool.inUse == [] && pool.available == [1, 0];
    pool.Release(0);
    idle, busy := pool.available, pool.inUse;
  }

  /**
   * A flexible pool built with two items by the identity factory (defaults:
   * ceiling 256, margin 1.2, period 5.0), after two gets that hand out
   * both built items.
   */
  method ServedPool() returns (pool: FlexiblePool<int>)
    ensures fresh(pool)
    ensures pool.inUse == [0, 1] && pool.available == []
    ensures forall i :: pool.create(i) == i
    ensures pool.maxCount == 256 && pool.maxRecentUseCount == 0 && pool.nextAdjustTime == 5.0
    ensures pool.initialItemCount == 2 && pool.margin == 1.2 && pool.sizeAdjustPeriod == 5.0
  {
    pool := new FlexiblePool<int>(i => i, 2);
    assert pool.available == [0, 1] by {
      assert Created(i => i, 2) == [0, 1];
    }
    var item := pool.Get();
    assert pool.inUse == [0] && pool.available == [1];
    item := pool.Get();
  }

  /**
   * ServedPool after three more gets, each creating an item (2, 3, 4), and
   * a tick at 1.0 that records the peak of five items in use.
   */
  method BusyPool() returns (pool: FlexiblePool<int>)
    ensures fresh(pool)
    ensures pool.inUse == [0, 1, 2, 3, 4] && pool.available == []
    ensures pool.maxRecentUseCount == 5 && pool.nextAdjustTime == 5.0
    ensures pool.initialItemCount == 2 && pool.margin == 1.2 && pool.sizeAdjustPeriod == 5.0
  {
    pool := ServedPool();
    var item := pool.Get();
    assert pool.inUse == [0, 1, 2];
    item := pool.Get();
    assert pool.inUse == [0, 1, 2, 3];
    item := pool.Get();
    assert pool.inUse == [0, 1, 2, 3, 4] && pool.available == [];
    pool.MonitorSize(1.0);
  }

  /** BusyPool after all five items are released: all idle, none in use. */
  method IdlePool() returns (pool: FlexiblePool<int>)
    ensures fresh(pool)
    ensures pool.inUse == [] && pool.available == [0, 1, 2, 3, 4]
    ensures pool.maxRecentUseCount == 5 && pool.nextAdjustTime == 5.0
    ensures pool.initialItemCount == 2 && pool.margin == 1.2 && pool.sizeAdjustPeriod == 5.0
  {
    pool := BusyPool();
    ReleaseAll(pool, [0, 1, 2, 3, 4]);
  }

  /**
   * IdlePool after a review at 5.1: the reserve is (int)(5 * 1.2) = 6, so
   * all five idle items stay; the peak restarts at the in-use count 0.
   */
  method FirstReview() returns (pool: FlexiblePool<int>)
    ensures fresh(pool)
    ensures pool.inUse == [] && |pool.available| == 5
    ensures pool.maxRecentUseCount == 0 && pool.nextAdjustTime == 5.1 + 5.0
    ensures pool.initialItemCount == 2 && pool.margin == 1.2
  {
    pool := IdlePool();
    assert Reserve(5, 1.2) == 6;
    pool.MonitorSize(5.1);
  }

  /**
   * The size review end to end: FirstReview keeps all five idle items; a
   * review at 10.2, whose peak is 0, destroys every idle item, leaving the
   * pool with fewer items than it was built with.
   */
  method ReviewShrinksBelowInitial() returns (idleAfterFirst: nat, idleAfterSecond: nat, initial: int)
    ensures idleAfterFirst == 5
    ensures idleAfterSecond == 0 && initial == 2
    ensures idleAfterSecond < initial
  {
    var pool := FirstReview();
    idleAfterFirst := |pool.available|;
    assert Reserve(0, 1.2) == 0;
    pool.MonitorSize(10.2);
    idleAfterSecond := |pool.available|;
    initial := pool.initialItemCount;
  }

  /**
   * The growth index is the in-use count, not a count of items created: a
   * pool built with one item by the identity factory hands out 0, 1 and 2,
   * takes 0 and 1 back, and a review (peak 1, reserve 1) destroys 0. After
   * 1 is handed out again, the next get creates with index 2 although item
   * 2 is still in use, so the pool holds it twice.
   */
  method GrowthRepeatsIndex() returns (got: int, busy: seq<int>)
    ensures got == 2 && busy == [2, 1, 2]
  {
    var pool := ShrunkPool();
    var item := pool.Get();
    assert item == 1 && pool.inUse == [2, 1] && pool.available == [];
    got := pool.Get();
    busy := pool.inUse;
  }

  /**
   * A flexible pool built with one item by the identity factory, after
   * three gets: the built item 0, then the created items 1 and 2.
   */
  method ThreeOut() returns (pool: FlexiblePool<int>)
    ensures fresh(pool)
    ensures pool.inUse == [0, 1, 2] && pool.available == []
    ensures forall i :: pool.create(i) == i
    ensures pool.maxCount == 256 && pool.maxRecentUseCount == 0 && pool.nextAdjustTime == 5.0
    ensures pool.initialItemCount == 1 && pool.margin == 1.2
  {
    pool := new FlexiblePool<int>(i => i, 1);
    assert pool.available == [0] by {
      assert Created(i => i, 1) == [0];
    }
    var item := pool.Get();
    assert pool.inUse == [0] && pool.available == [];
    item := pool.Get();
    assert pool.inUse == [0, 1];
    item := pool.Get();
  }

  /** ThreeOut after releasing 0: items 1 and 2 are in use, 0 is idle. */
  method ReleasedFirst() returns (pool: FlexiblePool<int>)
    ensures fresh(pool)
    ensures pool.inUse == [1, 2] && pool.available == [0]
    ensures forall i :: pool.create(i) == i
    ensures pool.maxCount == 256 && pool.maxRecentUseCount == 0 && pool.nextAdjustTime == 5.0
    ensures pool.initialItemCount == 1 && pool.margin == 1.2
  {
    pool := ThreeOut();
    var out := pool.inUse;
    assert RemoveFirst(out, 0) == out[1..];
    pool.Release(0);
  }

  /** ReleasedFirst after releasing 1: item 2 is in use, 0 and 1 are idle. */
  method ReleasedTwo() returns (pool: FlexiblePool<int>)
    ensures fresh(pool)
    ensures pool.inUse == [2] && pool.available == [0, 1]
    ensures forall i :: pool.create(i) == i
    ensures pool.maxCount == 256 && pool.maxRecentUseCount == 0 && pool.nextAdjustTime == 5.0
    ensures pool.initialItemCount == 1 && pool.margin == 1.2
  {
    pool := ReleasedFirst();
    var out := pool.inUse;
    assert RemoveFirst(out, 1) == out[1..];
    pool.Release(1);
  }

  /**
   * ReleasedTwo after a review at 5.1 whose peak is 1: the reserve is
   * (int)(1 * 1.2) = 1, so the review destroys item 0.
   */
  method ShrunkPool() returns (pool: FlexiblePool<int>)
    ensures fresh(pool)
    ensures pool.inUse == [2] && pool.available == [1]
    ensures forall i :: pool.create(i) == i
    ensures pool.maxCount == 256
  {
    pool := ReleasedTwo();
    assert Reserve(1, 1.2) == 1;
    pool.MonitorSize(5.1);
  }

  /** Release the items of `items`, in order, that the pool has in use in that same order. */
  method ReleaseAll(pool: FlexiblePool<int>, items: seq<int>)
    requires pool.inUse == items
    modifies pool`available, pool`inUse
    ensures pool.inUse == [] && pool.available == old(pool.available) + items
  {
    var i := 0;
    while i < |items|
      invariant 0 <= i <= |items|
      invariant pool.inUse == items[i..]
      invariant pool.available == old(pool.available) + items[..i]
    {
      assert RemoveFirst(items[i..], items[i]) == items[i + 1..];
      pool.Release(items[i]);
      assert items[..i + 1] == items[..i] + [items[i]];
      i := i + 1;
    }
  }
}
