/** The block pool and the page pool over a whole run of calls, with what the callers have. */
module PoolRuns {
  import opened Wrappers
  import ET = ExtentTree
  import BP = BlockPool
  import opened PagePool

  datatype Call =
    | GetBlocks(n: nat)
    | PutBlocks(blocks: seq<nat>)
    | GetExtents(n: nat)
    | PutExtents(ranges: seq<ET.Extent>)
    | GetPage
    | GetPageNear(page: nat)
    | PutPage(page: nat)

  /** What the callers have: whole blocks, and pages. */
  datatype Ledger = Ledger(blocks: multiset<nat>, pages: set<nat>)

  /** Callers give back only what they have. */
  predicate Rightful(l: Ledger, c: Call) {
    match c
    case PutBlocks(blocks) => multiset(blocks) <= l.blocks
    case PutExtents(ranges) =>
      (forall i :: 0 <= i < |ranges| ==> ranges[i].start < ranges[i].end) && multiset(BP.Listed(ranges)) <= l.blocks
    case PutPage(page) => page in l.pages
    case _ => true
  }

  /** The ledger after a call that answered `r`. */
  function Booked(l: Ledger, c: Call, r: seq<nat>): Ledger {
    match c
    case PutBlocks(blocks) => l.(blocks := l.blocks - multiset(blocks))
    case PutExtents(ranges) => l.(blocks := l.blocks - multiset(BP.Listed(ranges)))
    case PutPage(page) => l.(pages := l.pages - {page})
    case GetPage => l.(pages := l.pages + set p | p in r)
    case GetPageNear(_) => l.(pages := l.pages + set p | p in r)
    case _ => l.(blocks := l.blocks + multiset(r))
  }

  /** Calls that are not rightful are not made. */
  function BookedAll(l: Ledger, calls: seq<Call>, results: seq<seq<nat>>): Ledger
    requires |results| == |calls|
    decreases |calls|
  {
    if calls == [] then l
    else
      var n := |calls| - 1;
      var before := BookedAll(l, calls[..n], results[..n]);
      if Rightful(before, calls[n]) then Booked(before, calls[n], results[n]) else before
  }

  /**
    Every block of `whole` is in the block pool, taken by the page pool, or with a
    caller; the pages in use are those the callers have.
   */
  ghost predicate Kept(pp: PagePool, l: Ledger, whole: multiset<nat>)
    reads pp, pp.one, pp.blockPool, pp.blockPool.tree, pp.blockPool.blocksCache
  {
    pp.Valid() && pp.Blocks() + l.blocks == whole && forall p: nat :: IsLive(pp.pool, p) <==> p in l.pages
  }

  // ---------- bags ----------

  /** Three shares of a bag without repetition. */
  lemma Shares(free: multiset<nat>, owned: set<nat>, given: multiset<nat>, whole: multiset<nat>)
    requires free + multiset(owned) + given == whole && BP.Once(whole)
    ensures BP.Once(free) && forall b :: b in owned ==> free[b] == 0
    ensures forall part: multiset<nat> :: part <= given ==> BP.Once(free + part)
  {
    forall x ensures free[x] <= 1 && (x in owned ==> free[x] == 0) {
      assert whole[x] <= 1 && (free + multiset(owned) + given)[x] == free[x] + multiset(owned)[x] + given[x];
    }
    forall part: multiset<nat> | part <= given ensures BP.Once(free + part) {
      forall x ensures (free + part)[x] <= 1 {
        assert part[x] <= given[x] && whole[x] <= 1;
        assert (free + multiset(owned) + given)[x] == free[x] + multiset(owned)[x] + given[x];
      }
    }
  }

  lemma GivenOut(free: multiset<nat>, got: multiset<nat>, now: multiset<nat>, owned: set<nat>, given: multiset<nat>,
                 whole: multiset<nat>)
    requires free + multiset(owned) + given == whole && got + now == free
    ensures now + multiset(owned) + (given + got) == whole
  {
  }

  lemma GivenBack(free: multiset<nat>, put: multiset<nat>, owned: set<nat>, given: multiset<nat>, whole: multiset<nat>)
    requires free + multiset(owned) + given == whole && put <= given
    ensures free + put + multiset(owned) + (given - put) == whole
  {
  }

  lemma {:induction false} OncePuttable(nodes: seq<ET.Extent>, ranges: seq<ET.Extent>)
    requires ET.Canonical(nodes) && BP.Once(BP.TreeBag(nodes) + multiset(BP.Listed(ranges)))
    requires forall i :: 0 <= i < |ranges| ==> ranges[i].start < ranges[i].end
    ensures ET.Puttable(nodes, ranges)
    decreases |ranges|
  {
    hide ET.Canonical, BP.TreeBag, ET.Put, ET.Fresh, ET.Count;
    if ranges != [] {
      var e, later := ranges[0], BP.Listed(ranges[1..]);
      assert BP.Listed(ranges) == ET.Count(e.start, e.end) + later;
      assert multiset(BP.Listed(ranges)) == multiset(ET.Count(e.start, e.end)) + multiset(later);
      RangeFresh(nodes, e, multiset(later));
      BP.PutRangeBag(nodes, e.start, e.end);
      assert BP.TreeBag(nodes) + multiset(BP.Listed(ranges)) == BP.TreeBag(ET.Put(nodes, e.start, e.end)) + multiset(later);
      OncePuttable(ET.Put(nodes, e.start, e.end), ranges[1..]);
    }
  }

  lemma RangeFresh(nodes: seq<ET.Extent>, e: ET.Extent, later: multiset<nat>)
    requires ET.Canonical(nodes) && e.start < e.end && BP.Once(BP.TreeBag(nodes) + (multiset(ET.Count(e.start, e.end)) + later))
    ensures ET.Fresh(nodes, e.start, e.end)
  {
    hide ET.Canonical, BP.TreeBag, ET.Covers;
    var bag, range := BP.TreeBag(nodes), ET.Count(e.start, e.end);
    forall x: nat | e.start <= x < e.end ensures !ET.Covers(nodes, x) {
      BP.TreeBagIs(nodes, x);
      assert range[x - e.start] == x;
      assert (bag + (multiset(range) + later))[x] == bag[x] + multiset(range)[x] + later[x];
    }
  }

  // ---------- one call ----------

  /** The block pool after it handed blocks out or took some back. */
  lemma StillKept(pp: PagePool, l: Ledger, whole: multiset<nat>)
    requires pp.blockPool.Valid() && pp.one.Length == 1 && pp.one != pp.blockPool.blocksCache && PoolOk(pp.pool)
    requires pp.blockPool.Free() + multiset(pp.pool.owned) + l.blocks == whole && BP.Once(whole)
    requires forall p: nat :: IsLive(pp.pool, p) <==> p in l.pages
    ensures Kept(pp, l, whole)
  {
    hide PoolOk, IsLive;
    Shares(pp.blockPool.Free(), pp.pool.owned, l.blocks, whole);
  }

  method CallGetBlocks(pp: PagePool, n: nat, ghost l: Ledger, ghost whole: multiset<nat>) returns (r: seq<nat>)
    requires Kept(pp, l, whole) && BP.Once(whole)
    modifies pp, pp.one, pp.blockPool, pp.blockPool.tree, pp.blockPool.blocksCache
    ensures Kept(pp, Booked(l, GetBlocks(n), r), whole) && |r| <= n
    ensures |r| == if old(pp.blockPool.cachedBlockNum) >= n then n
                   else if old(pp.blockPool.tree.nodes) == [] then 0
                   else ET.Min(n, old(|pp.blockPool.Free()|))
  {
    hide PoolOk, IsLive, BP.Once, ET.Canonical, BP.TreeBag;
    var blocks := new nat[n];
    ghost var free := pp.blockPool.Free();
    var got := pp.blockPool.BlockPoolGet(n, blocks);
    r := blocks[..got];
    GivenOut(free, multiset(r), pp.blockPool.Free(), pp.pool.owned, l.blocks, whole);
    StillKept(pp, Booked(l, GetBlocks(n), r), whole);
  }

  method CallPutBlocks(pp: PagePool, put: seq<nat>, ghost l: Ledger, ghost whole: multiset<nat>)
    requires Kept(pp, l, whole) && BP.Once(whole) && multiset(put) <= l.blocks
    modifies pp, pp.one, pp.blockPool, pp.blockPool.tree, pp.blockPool.blocksCache
    ensures Kept(pp, Booked(l, PutBlocks(put), []), whole)
  {
    hide PoolOk, IsLive, BP.Once, ET.Canonical, BP.TreeBag;
    var blocks := new nat[|put|](i requires 0 <= i < |put| => put[i]);
    assert blocks[..|put|] == put;
    ghost var free := pp.blockPool.Free();
    Shares(free, pp.pool.owned, l.blocks, whole);
    pp.blockPool.BlockPoolPut(|put|, blocks);
    GivenBack(free, multiset(put), pp.pool.owned, l.blocks, whole);
    StillKept(pp, Booked(l, PutBlocks(put), []), whole);
  }

  method CallGetExtents(pp: PagePool, n: nat, ghost l: Ledger, ghost whole: multiset<nat>) returns (r: seq<nat>)
    requires Kept(pp, l, whole) && BP.Once(whole)
    modifies pp, pp.one, pp.blockPool, pp.blockPool.tree, pp.blockPool.blocksCache
    ensures Kept(pp, Booked(l, GetExtents(n), r), whole) && |r| == ET.Min(n, |old(BP.TreeBag(pp.blockPool.tree.nodes))|)
  {
    hide PoolOk, IsLive, BP.Once, ET.Canonical, BP.TreeBag, ET.Units;
    var container := new ET.ExtentContainer();
    ghost var free := pp.blockPool.Free();
    pp.blockPool.BlockPoolExtentGet(n, container);
    BP.TreeBagOf(container.Contents());
    r := BP.Listed(container.slots[..container.currentNum]);
    ListedUnits(container.Contents());
    GivenOut(free, multiset(r), pp.blockPool.Free(), pp.pool.owned, l.blocks, whole);
    StillKept(pp, Booked(l, GetExtents(n), r), whole);
  }

  lemma {:induction false} ListedUnits(es: seq<ET.Extent>)
    requires ET.Canonical(es)
    ensures BP.Listed(es) == ET.Units(es)
    decreases |es|
  {
    hide ET.Count;
    if es != [] {
      ListedUnits(es[1..]);
    }
  }

  method CallPutExtents(pp: PagePool, ranges: seq<ET.Extent>, ghost l: Ledger, ghost whole: multiset<nat>)
    requires Kept(pp, l, whole) && BP.Once(whole) && Rightful(l, PutExtents(ranges))
    modifies pp, pp.one, pp.blockPool, pp.blockPool.tree, pp.blockPool.blocksCache
    ensures Kept(pp, Booked(l, PutExtents(ranges), []), whole)
  {
    hide PoolOk, IsLive, BP.Once, ET.Canonical, BP.TreeBag, ET.Puttable;
    var container := FilledContainer(ranges);
    ghost var free := pp.blockPool.Free();
    Shares(free, pp.pool.owned, l.blocks, whole);
    ghost var put := multiset(BP.Listed(ranges));
    PartOnce(BP.TreeBag(pp.blockPool.tree.nodes), multiset(pp.blockPool.blocksCache[..pp.blockPool.cachedBlockNum]), put);
    OncePuttable(pp.blockPool.tree.nodes, ranges);
    pp.blockPool.BlockPoolExtentPut(container);
    GivenBack(free, put, pp.pool.owned, l.blocks, whole);
    StillKept(pp, Booked(l, PutExtents(ranges), []), whole);
  }

  lemma PartOnce(a: multiset<nat>, b: multiset<nat>, c: multiset<nat>)
    requires BP.Once(a + b + c)
    ensures BP.Once(a + c)
  {
    forall x ensures (a + c)[x] <= 1 { assert (a + b + c)[x] <= 1; }
  }

  /** The container a caller fills with the ranges it gives back. */
  method FilledContainer(ranges: seq<ET.Extent>) returns (container: ET.ExtentContainer)
    requires forall i :: 0 <= i < |ranges| ==> ranges[i].start < ranges[i].end
    ensures container.Valid() && fresh(container) && fresh(container.slots) && container.Contents() == ranges
    ensures container.size == |BP.Listed(ranges)|
  {
    container := new ET.ExtentContainer();
    for i := 0 to |ranges|
      invariant container.Valid() && fresh(container) && fresh(container.slots) && container.Contents() == ranges[..i]
      invariant container.size + |BP.Listed(ranges[i..])| == |BP.Listed(ranges)|
    {
      assert ranges[i..][0] == ranges[i] && ranges[i..][1..] == ranges[i + 1..];
      container.Append(ranges[i].start, ranges[i].end);
      assert ranges[..i + 1] == ranges[..i] + [ranges[i]];
    }
    assert ranges[..|ranges|] == ranges;
  }

  lemma PageTaken(p: Pool, q: Pool, page: nat, pages: set<nat>)
    requires OnlyLive(p, q, page) && forall x: nat :: IsLive(p, x) <==> x in pages
    ensures page !in pages && forall x: nat :: IsLive(q, x) <==> x in pages + {page}
  {
    hide IsLive;
  }

  lemma PageBack(p: Pool, q: Pool, page: nat, pages: set<nat>)
    requires OnlyFree(p, q, page) && forall x: nat :: IsLive(p, x) <==> x in pages
    ensures forall x: nat :: IsLive(q, x) <==> x in pages - {page}
  {
    hide IsLive;
  }

  /** There is no page to be had: each one is with a caller, or in a block that is. */
  ghost predicate Exhausted(l: Ledger, whole: multiset<nat>) {
    forall p: nat :: p / PAGES in whole && l.blocks[p / PAGES] == 0 ==> p in l.pages
  }

  lemma NothingLeft(pp: PagePool, l: Ledger, whole: multiset<nat>)
    requires Kept(pp, l, whole)
    requires pp.pool.nonFull == [] && pp.blockPool.cachedBlockNum == 0 && pp.blockPool.tree.nodes == []
    ensures Exhausted(l, whole)
  {
    assert pp.blockPool.Free() == multiset{} by { assert pp.blockPool.blocksCache[..0] == []; }
    forall p: nat | p / PAGES in whole && l.blocks[p / PAGES] == 0 ensures p in l.pages {
      assert (pp.Blocks() + l.blocks)[p / PAGES] > 0;
      assert IsLive(pp.pool, p);
    }
  }

  lemma OneMoreLeft(pp: PagePool, l: Ledger, whole: multiset<nat>, page: nat)
    requires pp.Valid() && pp.Blocks() + l.blocks == whole && BP.Once(whole) && IsLive(pp.pool, page) && page !in l.pages
    ensures !Exhausted(l, whole)
  {
    hide PoolOk, ET.Canonical, BP.TreeBag;
    var b := page / PAGES;
    assert (pp.Blocks() + l.blocks)[b] == pp.blockPool.Free()[b] + multiset(pp.pool.owned)[b] + l.blocks[b] <= 1;
    assert b in whole && l.blocks[b] == 0;
  }

  /** A page is refused exactly when none is left, whatever was asked of the pools before. */
  method CallGetPage(pp: PagePool, hint: Option<nat>, ghost l: Ledger, ghost whole: multiset<nat>) returns (r: seq<nat>)
    requires Kept(pp, l, whole) && BP.Once(whole)
    modifies pp, pp.one, pp.blockPool, pp.blockPool.tree, pp.blockPool.blocksCache
    ensures Kept(pp, Booked(l, GetPage, r), whole) && |r| <= 1 && forall p :: p in r ==> p !in l.pages
    ensures r == [] <==> Exhausted(l, whole)
  {
    hide PagePool.Valid, PagePool.Blocks, IsLive, OnlyLive, PoolOk, Exhausted, BP.Once;
    ghost var was := pp.pool;
    if pp.pool.nonFull == [] && pp.blockPool.cachedBlockNum == 0 && pp.blockPool.tree.nodes == [] {
      NothingLeft(pp, l, whole);
    }
    var page: Option<nat>;
    if hint.Some? {
      page := pp.PagePoolAllocWithHint(hint);
    } else {
      page := pp.PagePoolAlloc();
    }
    if page.None? {
      r := [];
      assert Booked(l, GetPage, r).pages == l.pages;
    } else {
      r := [page.value];
      PageTaken(was, pp.pool, page.value, l.pages);
      assert Booked(l, GetPage, r).pages == l.pages + {page.value};
      OneMoreLeft(pp, l, whole, page.value);
    }
  }

  method CallPutPage(pp: PagePool, page: nat, ghost l: Ledger, ghost whole: multiset<nat>)
    requires Kept(pp, l, whole) && page in l.pages
    modifies pp, pp.one, pp.blockPool, pp.blockPool.tree, pp.blockPool.blocksCache
    ensures Kept(pp, Booked(l, PutPage(page), []), whole)
  {
    hide PagePool.Valid, PagePool.Blocks, IsLive, OnlyFree, PoolOk;
    ghost var was := pp.pool;
    pp.PagePoolFree(page);
    PageBack(was, pp.pool, page, l.pages);
  }

  // ---------- a run ----------

  method DoCall(pp: PagePool, c: Call, l: Ledger, ghost whole: multiset<nat>) returns (r: seq<nat>)
    requires Kept(pp, l, whole) && BP.Once(whole) && Rightful(l, c)
    modifies pp, pp.one, pp.blockPool, pp.blockPool.tree, pp.blockPool.blocksCache
    ensures Kept(pp, Booked(l, c, r), whole)
    ensures c.GetPage? || c.GetPageNear? ==> (r == [] <==> Exhausted(l, whole))
  {
    hide Kept, BP.Once, Exhausted;
    r := [];
    match c
    case GetBlocks(n) => r := CallGetBlocks(pp, n, l, whole);
    case PutBlocks(blocks) => CallPutBlocks(pp, blocks, l, whole);
    case GetExtents(n) => r := CallGetExtents(pp, n, l, whole);
    case PutExtents(ranges) => CallPutExtents(pp, ranges, l, whole);
    case GetPage => r := CallGetPage(pp, None, l, whole);
    case GetPageNear(page) => r := CallGetPage(pp, Some(page), l, whole);
    case PutPage(page) => CallPutPage(pp, page, l, whole);
  }

  /**
    Any run of calls to both pools: no block and no page is lost or handed out twice,
    and a page is refused exactly when there is none.
   */
  method RunCalls(pp: PagePool, calls: seq<Call>, start: Ledger, ghost whole: multiset<nat>) returns (results: seq<seq<nat>>,
                  l: Ledger)
    requires Kept(pp, start, whole) && BP.Once(whole)
    modifies pp, pp.one, pp.blockPool, pp.blockPool.tree, pp.blockPool.blocksCache
    ensures |results| == |calls| && l == BookedAll(start, calls, results) && Kept(pp, l, whole)
    ensures forall i {:trigger results[i]} :: 0 <= i < |calls| && (calls[i].GetPage? || calls[i].GetPageNear?) ==>
              (results[i] == [] <==> Exhausted(BookedAll(start, calls[..i], results[..i]), whole))
  {
    hide Kept, BP.Once, Booked, Exhausted;
    results, l := [], start;
    for i := 0 to |calls|
      invariant |results| == i && l == BookedAll(start, calls[..i], results) && Kept(pp, l, whole)
      invariant forall k {:trigger results[k]} :: 0 <= k < i && (calls[k].GetPage? || calls[k].GetPageNear?) ==>
                  (results[k] == [] <==> Exhausted(BookedAll(start, calls[..k], results[..k]), whole))
    {
      ghost var sofar, before := results, l;
      if Rightful(l, calls[i]) {
        var r := DoCall(pp, calls[i], l, whole);
        results, l := results + [r], Booked(l, calls[i], r);
      } else {
        results := results + [[]];
      }
      assert calls[..i + 1][..i] == calls[..i] && results[..i] == sofar;
      forall k | 0 <= k < i ensures results[k] == sofar[k] && results[..k] == sofar[..k] && calls[..i][..k] == calls[..k] {}
    }
    assert calls[..|calls|] == calls;
  }

  /** In such a state a block is in exactly one place. */
  lemma InOnePlace(pp: PagePool, l: Ledger, whole: multiset<nat>, b: nat)
    requires Kept(pp, l, whole) && BP.Once(whole) && b in whole
    ensures var tree, cache := BP.TreeBag(pp.blockPool.tree.nodes), multiset(pp.blockPool.blocksCache[..pp.blockPool.cachedBlockNum]);
            tree[b] + cache[b] + (if b in pp.pool.owned then 1 else 0) + l.blocks[b] == 1
  {
    hide PoolOk, IsLive, ET.Canonical, BP.TreeBag;
    assert (pp.Blocks() + l.blocks)[b] == 1;
  }
}
