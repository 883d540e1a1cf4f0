/**
 * The two pool classes of Pooling.cs. Each keeps its idle and handed-out
 * items in two ordered lists, here `seq` fields that the methods reassign.
 * Get and Release are proved to perform exactly PoolModel's Get and
 * Released step, and AdjustSize its Adjusted step, so the lemmas there apply
 * to any sequence of those calls; MonitorSize states its transitions in
 * terms of Adjusted.
 */
module Pooling {
  import opened ListOps
  import opened PoolModel

  /** The constructors' counting loop: create(0), ..., create(itemCount - 1), each appended in turn. */
  method CreateItems<T>(create: int -> T, itemCount: int) returns (items: seq<T>)
    ensures items == Created(create, itemCount)
  {
    items := [];
    var i := 0;
    while i < itemCount
      invariant 0 <= i && (i <= itemCount || i == 0)
      invariant items == Created(create, i)
    {
      items := items + [create(i)];
      i := i + 1;
    }
  }

  /**
   * A fixed-size pool: all items are created up front; when none is idle, a
   * get hands out the oldest in-use item again.
   */
  class SimplePool<T(==)> {
    var available: seq<T>
    var inUse: seq<T>

    /** The pool's lists as a value. */
    function State(): (r: Lists<T>)
      reads this
    {
      Lists(available, inUse)
    }

    /** Pooling.cs declares this constructor under the name `Pool`. */
    constructor (create: int -> T, itemCount: int)
      ensures available == Created(create, itemCount) && inUse == []
    {
      var items := CreateItems(create, itemCount);
      available := items;
      inUse := [];
    }

    /** Hand out an item; the source throws when both lists are empty. */
    method Get() returns (item: T)
      requires available != [] || inUse != []
      modifies this
      ensures Got(item, State()) == PoolModel.Get(old(State()), Fixed)
      ensures old(available) != [] ==>
        item == old(available[0]) && available == old(available[1..]) && inUse == old(inUse) + [item]
      ensures old(available) == [] ==>
        item == old(inUse[0]) && available == [] && inUse == old(inUse[1..]) + [item]
    {
      if |available| == 0 {
        item := inUse[0];
        inUse := inUse[1..];
        inUse := inUse + [item];
      } else {
        item := available[0];
        RemoveFirstSplices(available, item);
        available := RemoveFirst(available, item);
        inUse := inUse + [item];
      }
    }

    /** Take `item` back: drop its first occurrence from `inUse`, if any, and append it to `available`. */
    method Release(item: T)
      modifies this
      ensures State() == Released(old(State()), item)
      ensures inUse == RemoveFirst(old(inUse), item) && available == old(available) + [item]
    {
      inUse := RemoveFirst(inUse, item);
      available := available + [item];
    }
  }

  /**
   * An adaptive pool: it creates items on demand up to `maxCount` in use,
   * and periodic reviews destroy idle items beyond a margin over the recent
   * peak of in-use items.
   */
  class FlexiblePool<T(==)> {
    var available: seq<T>
    var inUse: seq<T>
    const create: int -> T
    const initialItemCount: int
    /** The largest in-use count seen by MonitorSize since the last review. */
    var maxRecentUseCount: nat
    var nextAdjustTime: real
    var maxCount: int
    /** Seconds between reviews. */
    var sizeAdjustPeriod: real
    /** Idle items kept per item of recent peak use. */
    var margin: real

    /** The pool's lists as a value. */
    function State(): (r: Lists<T>)
      reads this
    {
      Lists(available, inUse)
    }

    /** The pool's get policy, with its current ceiling. */
    function Policy(): (r: Policy<T>)
      reads this
    {
      Growing(create, maxCount)
    }

    constructor (create: int -> T, itemCount: int)
      ensures available == Created(create, itemCount) && inUse == []
      ensures this.create == create && initialItemCount == itemCount
      ensures maxRecentUseCount == 0 && nextAdjustTime == 5.0
      ensures maxCount == 256 && sizeAdjustPeriod == 5.0 && margin == 1.2
    {
      var items := CreateItems(create, itemCount);
      available := items;
      inUse := [];
      this.create := create;
      initialItemCount := itemCount;
      maxRecentUseCount := 0;
      nextAdjustTime := 5.0;
      maxCount := 256;
      sizeAdjustPeriod := 5.0;
      margin := 1.2;
    }

    /**
     * Hand out an item: an idle one if there is one, else a new one while
     * fewer than `maxCount` are in use, else the oldest in-use item again.
     * The source throws when it would have to reuse from an empty `inUse`.
     */
    method Get() returns (item: T)
      requires available != [] || inUse != [] || 0 < maxCount
      modifies this`available, this`inUse
      ensures Got(item, State()) == PoolModel.Get(old(State()), Policy())
      ensures old(available) != [] ==>
        item == old(available[0]) && available == old(available[1..]) && inUse == old(inUse) + [item]
      ensures old(available) == [] && old(|inUse|) < maxCount ==>
        item == create(old(|inUse|)) && available == [] && inUse == old(inUse) + [item]
      ensures old(available) == [] && maxCount <= old(|inUse|) ==>
        item == old(inUse[0]) && available == [] && inUse == old(inUse[1..]) + [item]
    {
      if |available| == 0 {
        if |inUse| < maxCount {
          item := create(|inUse|);
        } else {
          item := inUse[0];
          inUse := inUse[1..];
        }
        inUse := inUse + [item];
      } else {
        item := available[0];
        available := available[1..];
        inUse := inUse + [item];
      }
    }

    /** Take `item` back: drop its first occurrence from `inUse`, if any, and append it to `available`. */
    method Release(item: T)
      modifies this`available, this`inUse
      ensures State() == Released(old(State()), item)
      ensures inUse == RemoveFirst(old(inUse), item) && available == old(available) + [item]
    {
      inUse := RemoveFirst(inUse, item);
      available := available + [item];
    }

    /**
     * Called from the host's update loop with the current time: record the
     * in-use peak and, once `nextAdjustTime` has passed, review the idle
     * reserve, restart the peak from the current in-use count and schedule
     * the next review.
     */
    method MonitorSize(time: real)
      requires nextAdjustTime < time ==>
        ReviewDefined(|available|, initialItemCount, Max(maxRecentUseCount, |inUse|), margin)
      modifies this`available, this`maxRecentUseCount, this`nextAdjustTime
      ensures inUse == old(inUse)
      ensures |inUse| <= maxRecentUseCount
      ensures time <= old(nextAdjustTime) ==>
        && available == old(available)
        && nextAdjustTime == old(nextAdjustTime)
        && maxRecentUseCount == Max(old(maxRecentUseCount), |inUse|)
      ensures old(nextAdjustTime) < time ==>
        && available == Adjusted(old(available), initialItemCount, Max(old(maxRecentUseCount), |inUse|), margin)
        && maxRecentUseCount == |inUse|
        && nextAdjustTime == time + sizeAdjustPeriod
    {
      if |inUse| > maxRecentUseCount {
        maxRecentUseCount := |inUse|;
      }
      assert maxRecentUseCount == Max(old(maxRecentUseCount), |inUse|);
      if time > nextAdjustTime {
        AdjustSize();
        maxRecentUseCount := |inUse|;
        nextAdjustTime := time + sizeAdjustPeriod;
      }
    }

    /** The review: see PoolModel.Adjusted. */
    method AdjustSize()
      requires ReviewDefined(|available|, initialItemCount, maxRecentUseCount, margin)
      modifies this`available
      ensures available == Adjusted(old(available), initialItemCount, maxRecentUseCount, margin)
    {
      if |available| < initialItemCount {
        return;
      }
      var extraItems := |available| - TruncateToInt(maxRecentUseCount as real * margin);
      if extraItems > 0 {
        available := available[extraItems..];
      }
    }
  }
}
