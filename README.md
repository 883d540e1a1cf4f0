# Object pools: a verified model of Pooling.cs

Pooling.cs defines two generic object pools. Each is built with a factory `create(index)` and an item count.

- **SimplePool** keeps a fixed set of items. It creates all of them up front and puts them in `available`. A get takes the front idle item and appends it to `inUse`. When nothing is idle, a get hands out the oldest in-use item again and moves it to the back of `inUse`. A release removes the first occurrence of the item from `inUse` and appends it to `available`.
- **FlexiblePool** works the same way, with three changes:
  - When nothing is idle, a get calls the factory with the current in-use count, as long as fewer than `maxCount` items are in use. Only at that ceiling does it fall back to forced reuse.
  - `MonitorSize(time)`, called from the host's update loop, records the peak in-use count.
  - Once `nextAdjustTime` has passed, `MonitorSize` runs a review (`AdjustSize`). If the idle list holds at least the initial item count, the review destroys the oldest idle items beyond `(int)(peak * margin)`. It then restarts the peak from the current in-use count and schedules the next review `sizeAdjustPeriod` later.

The project has four modules:

- `ListOps.dfy` defines the `List<T>` operations the pools use, over Dafny sequences. `RemoveFirst` is `List.Remove`, `IndexOf` states which occurrence it removes, and `Rotate` is `RemoveAt(0)` followed by `Add` of the same item.
- `PoolModel.dfy` holds the pool behaviour as values. `Lists(available, inUse)` is a pool's state. `Get` is one get under a `Policy`: `Fixed` for SimplePool, `Growing(create, maxCount)` for FlexiblePool. `Released` is one release and `Adjusted` is one review. The lemmas cover runs of gets: `Gets` chains k of them. They also cover conservation of items, and what doubled items do.
- `Pooling.dfy` holds the two classes. Their `seq` fields are reassigned by methods whose `modifies` clauses are those of the source. `Get`, `Release` and `AdjustSize` are proved to perform exactly PoolModel's `Get`, `Released` and `Adjusted` step, so its lemmas apply to any sequence of gets and releases on the objects. `MonitorSize` is proved against its own postcondition, which states the peak, the schedule and the idle list it leaves in terms of `Adjusted`.
- `Scenarios.dfy` holds client code that drives the classes through short call sequences and states what a caller observes.

**The initial count is no floor.** `AdjustSize` compares the idle count with `initialItemCount` once, at Pooling.cs:119, before it removes anything at Pooling.cs:123. Nothing limits `extraItems` (Pooling.cs:121) to `available.Count - initialItemCount`, so after a quiet period one review can destroy every idle item and leave the pool with fewer items than it was built with. The model follows the code:

- `Adjusted` states the suffix the review keeps, with no floor.
- `IdleReviewEmpties` proves that a review with peak 0 that passes the guard empties `available`.
- `Scenarios.ReviewShrinksBelowInitial` shows a pool built with two items ending a review with none.

## Model

| member | source | states |
|---|---|---|
| ListOps.IndexOf | Pooling.cs:52 | the position List.Remove acts on: -1 exactly when the item is absent, otherwise a position holding the item with no earlier occurrence |
| ListOps.RemoveFirst | Pooling.cs:52 | List.Remove: an absent item leaves the list unchanged; otherwise the list is one shorter and its multiset loses exactly one copy of the item |
| ListOps.RemoveFirstSplices | Pooling.cs:42-43 | Remove cuts out exactly the element at the first occurrence and keeps the rest in order, so `available.Remove(available[0])` is `RemoveAt(0)` |
| ListOps.RemoveAppended | Pooling.cs:52 | removing an item just appended to a list where it did not occur gives the list back |
| PoolModel.Created | Pooling.cs:27-32 | the constructor loop's items: exactly max(n, 0) of them, item i being create(i) |
| PoolModel.CanGet | Pooling.cs:79-83 | the condition under which a get does not index an empty `inUse` (here and at Pooling.cs:38): something is idle or in use, or (FlexiblePool) the ceiling is positive |
| PoolModel.Get | Pooling.cs:76-95 | one get under either policy (SimplePool's at Pooling.cs:34-49): the item handed out becomes the last in-use item; with something idle it is `available[0]` and the idle list is one shorter; a growing pool below its ceiling with nothing idle hands out create(in-use count); the in-use list grows by one except at the ceiling |
| PoolModel.GetConserves | Pooling.cs:37-44 | a get loses no item: when it creates, the pool gains exactly that item; otherwise the item was already held and the pool's multiset is unchanged |
| PoolModel.Gets | Pooling.cs:34-49 | k gets in a row hand out k items and leave something in use |
| ListOps.Rotate | Pooling.cs:38-40 | the forced reuse (also Pooling.cs:83-86): `RemoveAt(0)` then `Add` of the same item keeps the length, puts the old front last and keeps the rest in order in front of it |
| PoolModel.DrainRun | Pooling.cs:41-44 | while items are idle, either pool hands them out in order, front first, and only then moves on to creation or reuse from `inUse ++ available` |
| PoolModel.SaturatedRun | Pooling.cs:37-40 | with nothing idle and no growth allowed, the next k gets (k at most the in-use count) hand out the in-use items oldest first and rotate `inUse` by k |
| PoolModel.CeilingActsFixed | Pooling.cs:80-85 | a FlexiblePool at its ceiling behaves exactly as a SimplePool on every run of gets and keeps its items |
| PoolModel.Fresh | Pooling.cs:81 | the items k successive creations produce from index n on: exactly k of them |
| PoolModel.FreshIsCreatedTail | Pooling.cs:28-31 | creating from index n up to m at Pooling.cs:81 gives exactly the items the constructor loop would have built at positions n..m-1 |
| PoolModel.GrowthRun | Pooling.cs:79-86 | from any in-use list u with nothing idle and k more items allowed, k gets create create(|u|), ..., create(|u| + k - 1), hand them out in that order and append them to u |
| PoolModel.GrowthAfterBuilt | Pooling.cs:79-86 | a pool whose in-use list is the first n constructed items, growing up to m (at most the ceiling), hands out constructed items n..m-1 and ends holding the first m, all in use |
| PoolModel.FixedExhaustion | Pooling.cs:37-44 | a SimplePool built with n items hands out create(0..n-1) in order on the first n gets, and get n + 1 hands out the first item again |
| PoolModel.FlexibleGrowth | Pooling.cs:79-91 | a FlexiblePool built with n < maxCount items hands out its n items and then create(n); it ends with n + 1 items, all in use |
| PoolModel.CreatedNoDuplicates | Pooling.cs:27-32 | with a factory that gives different items for different indices, the constructed pool holds no item twice |
| PoolModel.DistinctNoDuplicates | Pooling.cs:27-32 | a list whose positions hold pairwise different items has no item twice in its multiset |
| PoolModel.GetKeepsNoDuplicates | Pooling.cs:76-95 | a get keeps the pool free of duplicate items provided any newly created item is new |
| PoolModel.Released | Pooling.cs:51-55 | a release appends the item to the idle list: the old idle items stay in order in front, and the item is last |
| PoolModel.ReleaseConserves | Pooling.cs:51-55 | releasing an in-use item keeps the pool's multiset; releasing one not in use leaves `inUse` unchanged and adds a copy of the item |
| PoolModel.ReleaseUndoesGet | Pooling.cs:97-101 | releasing the item a serving or creating get just handed out restores `inUse` exactly and parks the item at the back of `available` |
| PoolModel.ReleaseKeepsNoDuplicates | Pooling.cs:51-55 | releasing an in-use item keeps the pool free of duplicates |
| PoolModel.DoubleReleaseDuplicates | Pooling.cs:51-55 | releasing an idle item that is not in use leaves `inUse` alone and holds the item twice in `available` |
| PoolModel.TruncateToInt | Pooling.cs:121 | C#'s `(int)` conversion: the integer part, rounding toward zero, for both signs |
| PoolModel.Reserve | Pooling.cs:121 | `(int)(maxRecentUseCount * margin)`: for a non-negative margin, the largest integer not above the product; for a negative margin, at most 0 |
| PoolModel.ReviewDefined | Pooling.cs:119-123 | the review does not throw: it holds for every non-negative margin, and fails only when the guard passes with a negative reserve, which makes `RemoveRange` remove more items than exist |
| PoolModel.Adjusted | Pooling.cs:118-125 | a review that does not throw keeps a suffix of the idle list; below the initial count it keeps all of it, otherwise it keeps min(count, (int)(peak * margin)) items, the oldest being destroyed |
| PoolModel.AdjustDestroysOnlyIdle | Pooling.cs:118-125 | a review only destroys idle items: the pool's multiset can only shrink, and a pool free of duplicates stays so |
| PoolModel.IdleReviewEmpties | Pooling.cs:119-123 | a review with peak 0 that passes the initial-count guard does not throw, whatever the margin, and empties the idle list, whatever the initial count |
| Pooling.CreateItems | Pooling.cs:28-31 | the counting loop produces exactly Created(create, itemCount) |
| Pooling.SimplePool.constructor | Pooling.cs:27-32 | the pool starts with available = create(0..itemCount-1) in order and nothing in use |
| Pooling.SimplePool.Get | Pooling.cs:34-49 | the method performs PoolModel.Get under the fixed policy: it serves the front idle item, or with none idle returns inUse[0] and rotates `inUse` |
| Pooling.SimplePool.Release | Pooling.cs:51-55 | the method performs PoolModel.Released: it removes the first occurrence from `inUse` and appends the item to `available` |
| Pooling.FlexiblePool.constructor | Pooling.cs:61-74 | the lists are built as in SimplePool; the factory and the initial count are stored; the defaults are maxRecentUseCount 0, nextAdjustTime 5, maxCount 256, sizeAdjustPeriod 5 and margin 1.2 |
| Pooling.FlexiblePool.Get | Pooling.cs:76-95 | the method performs PoolModel.Get under the growing policy: it serves from `available`; else it creates create(in-use count) below maxCount; else it reuses inUse[0] and rotates |
| Pooling.FlexiblePool.Release | Pooling.cs:97-101 | the method performs PoolModel.Released, as in SimplePool |
| Pooling.FlexiblePool.MonitorSize | Pooling.cs:107-116 | afterwards the peak covers the current in-use count and `inUse` is unchanged; up to nextAdjustTime only the peak changes; after it, the review runs with the updated peak, the peak restarts at the in-use count, and the next review is due sizeAdjustPeriod later |
| Pooling.FlexiblePool.AdjustSize | Pooling.cs:118-125 | when the review does not throw, the method leaves `available` equal to PoolModel.Adjusted of the old list and changes nothing else |
| Scenarios.FixedPoolReusesOldest | Pooling.cs:34-49 | a SimplePool of three items hands out 0, 1, 2 and then 0 again |
| Scenarios.FlexiblePoolGrows | Pooling.cs:76-95 | a FlexiblePool of two items hands out its two items and then a newly created third, ending with three in use and none idle |
| Scenarios.OneOut | Pooling.cs:34-49 | one get on a two-item SimplePool leaves item 0 in use and item 1 idle |
| Scenarios.DoubleRelease | Pooling.cs:51-55 | releasing the same item twice leaves two copies of it idle |
| Scenarios.ServedPool | Pooling.cs:71-95 | two gets on a two-item FlexiblePool hand out both built items and leave the defaults in place |
| Scenarios.BusyPool | Pooling.cs:79-116 | three more gets create items 2, 3 and 4, and a tick before the first review records the peak of 5 |
| Scenarios.ReleaseAll | Pooling.cs:97-101 | releasing the in-use items in their own order empties `inUse` and appends them to `available` |
| Scenarios.IdlePool | Pooling.cs:97-101 | releasing BusyPool's five items leaves all five idle, in order, and none in use |
| Scenarios.FirstReview | Pooling.cs:107-125 | the review at 5.1 keeps all 5 idle items (reserve (int)(5 * 1.2) = 6), restarts the peak at 0 and schedules the next review at 10.1 |
| Scenarios.ReviewShrinksBelowInitial | Pooling.cs:107-125 | after FirstReview, the review at 10.2 (peak 0) leaves 0 idle items, fewer than the initial count 2 |
| Scenarios.ThreeOut | Pooling.cs:71-95 | a one-item FlexiblePool hands out its item 0 and then creates and hands out 1 and 2 |
| Scenarios.ReleasedFirst | Pooling.cs:97-101 | releasing 0 leaves 1 and 2 in use and 0 idle |
| Scenarios.ReleasedTwo | Pooling.cs:97-101 | releasing 1 as well leaves 2 in use and 0, 1 idle |
| Scenarios.ShrunkPool | Pooling.cs:107-125 | a review at 5.1 with peak 1 keeps one idle item (reserve 1) and destroys item 0 |
| Scenarios.GrowthRepeatsIndex | Pooling.cs:79-90 | after 1 is handed out again, the next get calls the factory with index 2 (the in-use count) and hands out item 2 a second time: `inUse` is [2, 1, 2] |

## Left out

- The `OnGet`/`OnRelease` events and their invoke helpers (Pooling.cs:11-25, 46, 54, 92, 100): observer callbacks that do not change the pool's lists.
- The `useHistory` dictionary (Pooling.cs:63): it is never read or written.
- Floating point (Pooling.cs:65-69, 111, 114, 121): `time`, `nextAdjustTime`, `sizeAdjustPeriod` and `margin` are exact reals. `float` rounding of `time + sizeAdjustPeriod` and of `maxRecentUseCount * margin` is not modelled; the `(int)` cast is modelled exactly as truncation toward zero.
- Thread safety: the classes have no locking and are modelled as single-threaded.
- C# exceptions: a get with nothing to hand out, where the source throws at `inUse[0]`, is excluded by the get methods' preconditions. Release's `Remove` takes no exception path.
- The factory: a total, deterministic function `int -> T`. A factory that throws, has side effects or calls back into the pool is not modelled.
- Item equality: `List.Remove` uses the default equality comparer; the model uses Dafny's `==` on `T`.
- The constructor's name: Pooling.cs:27 declares it as `Pool` inside `SimplePool`. It is modelled as SimplePool's constructor, which is what FlexiblePool's `base(...)` call at Pooling.cs:71 refers to.
- `maxCount`, `sizeAdjustPeriod` and `margin` are public fields that clients may reassign between calls. The model has them as mutable fields, and each method reads their values at the time of the call.
- Pooling.FlexiblePool.MonitorSize: when the time is past `nextAdjustTime` it requires `ReviewDefined` of the idle count, the initial count, the updated peak and the margin. ReviewDefined fails only when the guard at Pooling.cs:119 passes and `(int)(peak * margin)` is negative, so that `RemoveRange` at Pooling.cs:123 is asked to remove more items than exist and throws; that exception path is not modelled. Up to `nextAdjustTime` no review runs and nothing is required.
- Pooling.FlexiblePool.AdjustSize: requires `ReviewDefined`, for the same reason. The source declares it private and calls it only from `MonitorSize`.
- PoolModel.Adjusted: requires `ReviewDefined`, for the same reason.
- The growth index: a get calls the factory with the in-use count (Pooling.cs:81), not with a count of items created so far. Once a review has destroyed idle items, the in-use count can return to an index already used while that item is still in use, and a deterministic factory then hands out an item the pool already holds (`Scenarios.GrowthRepeatsIndex`); a factory that returns a new object on every call would not. This is why PoolModel.GetKeepsNoDuplicates requires that a newly created item is not already held, and why PoolModel.CreatedNoDuplicates covers only the constructed pool.
- Inheritance: `FlexiblePool<T> : SimplePool<T>` (Pooling.cs:60), with `Get` and `Release` virtual and overridden. The model has two unrelated classes. Each holds its own `available` and `inUse` fields and its own `Get` and `Release`, so calls made through a `SimplePool` reference to a FlexiblePool object (dynamic dispatch) are not modelled as such; a client holding a FlexiblePool calls FlexiblePool's methods directly.
