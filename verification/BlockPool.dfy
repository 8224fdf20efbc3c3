/**
  The pool of free blocks: an extent tree, and a cache of five blocks in front.

  Bags of block numbers say where every block is; a bag with no number twice is
  a set.  `drift` is by how much the counter blockNum is off.
 */
module BlockPool {
  import ET = ExtentTree

  const MAX_CACHE_BLOCK_NUM: nat := 5

  ghost predicate Once(b: multiset<nat>) { forall x :: b[x] <= 1 }

  ghost function TreeBag(nodes: seq<ET.Extent>): multiset<nat>
    requires ET.Canonical(nodes)
  {
    multiset(ET.Units(nodes))
  }

  // ---------- bags of the tree ----------

  lemma {:induction false} AscendingBag(s: seq<nat>, x: nat)
    requires forall i, j :: 0 <= i < j < |s| ==> s[i] < s[j]
    ensures multiset(s)[x] == if x in s then 1 else 0
    decreases |s|
  {
    if s != [] {
      var r := s[..|s| - 1];
      assert s == r + [s[|s| - 1]];
      AscendingBag(r, x);
    }
  }

  /** The tree has a number at most once, and has it when an extent covers it. */
  lemma TreeBagIs(nodes: seq<ET.Extent>, x: nat)
    requires ET.Canonical(nodes)
    ensures TreeBag(nodes)[x] == if ET.Covers(nodes, x) then 1 else 0
  {
    hide ET.Covers;
    ET.UnitsAscend(nodes);
    ET.UnitsCover(nodes, x);
    AscendingBag(ET.Units(nodes), x);
  }

  lemma PutBag(nodes: seq<ET.Extent>, b: nat)
    requires ET.Canonical(nodes) && b !in TreeBag(nodes)
    ensures ET.Fresh(nodes, b, b + 1) && ET.Canonical(ET.Put(nodes, b, b + 1))
    ensures TreeBag(ET.Put(nodes, b, b + 1)) == TreeBag(nodes) + multiset{b}
  {
    hide ET.Covers, ET.Put, TreeBag, ET.Canonical;
    TreeBagIs(nodes, b);
    assert ET.Fresh(nodes, b, b + 1);
    ET.PutCanonical(nodes, b, b + 1);
    var r := ET.Put(nodes, b, b + 1);
    forall x: nat ensures TreeBag(r)[x] == (TreeBag(nodes) + multiset{b})[x] {
      ET.PutCovers(nodes, b, b + 1, x);
      TreeBagIs(nodes, x);
      TreeBagIs(r, x);
    }
  }

  lemma GetBag(nodes: seq<ET.Extent>, size: nat)
    requires ET.Canonical(nodes)
    ensures ET.Canonical(ET.Taken(nodes, size)) && ET.Canonical(ET.Left(nodes, size))
    ensures TreeBag(ET.Taken(nodes, size)) + TreeBag(ET.Left(nodes, size)) == TreeBag(nodes)
  {
    hide ET.Taken, ET.Left, ET.Units, ET.Canonical;
    ET.GetTakesSmallest(nodes, size);
    assert multiset(ET.Units(ET.Taken(nodes, size)) + ET.Units(ET.Left(nodes, size))) == TreeBag(nodes);
  }

  /** The numbers of ranges in any order. */
  function Listed(ranges: seq<ET.Extent>): seq<nat>
    decreases |ranges|
  {
    if ranges == [] then []
    else (if ranges[0].start <= ranges[0].end then ET.Count(ranges[0].start, ranges[0].end) else []) + Listed(ranges[1..])
  }

  lemma PutRangeBag(nodes: seq<ET.Extent>, s: nat, e: nat)
    requires ET.Canonical(nodes) && s < e && ET.Fresh(nodes, s, e)
    ensures ET.Canonical(ET.Put(nodes, s, e))
    ensures TreeBag(ET.Put(nodes, s, e)) == TreeBag(nodes) + multiset(ET.Count(s, e))
  {
    hide ET.Covers, ET.Put, TreeBag, ET.Canonical;
    ET.PutCanonical(nodes, s, e);
    var r, c := ET.Put(nodes, s, e), ET.Count(s, e);
    forall x: nat ensures TreeBag(r)[x] == (TreeBag(nodes) + multiset(c))[x] {
      ET.PutCovers(nodes, s, e, x);
      TreeBagIs(nodes, x);
      TreeBagIs(r, x);
      AscendingBag(c, x);
      if s <= x < e { assert c[x - s] == x; }
    }
  }

  lemma {:induction false} PutAllBag(nodes: seq<ET.Extent>, ranges: seq<ET.Extent>)
    requires ET.Canonical(nodes) && ET.Puttable(nodes, ranges)
    ensures ET.Canonical(ET.PutAll(nodes, ranges))
    ensures TreeBag(ET.PutAll(nodes, ranges)) == TreeBag(nodes) + multiset(Listed(ranges))
    decreases |ranges|
  {
    hide ET.Covers, ET.Put, TreeBag, ET.Canonical, ET.Fresh;
    if ranges != [] {
      PutRangeBag(nodes, ranges[0].start, ranges[0].end);
      PutAllBag(ET.Put(nodes, ranges[0].start, ranges[0].end), ranges[1..]);
    }
  }

  /** A tree and its reverse share out the numbers below the bound. */
  lemma ReverseBag(nodes: seq<ET.Extent>, maxSize: nat)
    requires ET.Canonical(nodes) && ET.Bounded(nodes, maxSize)
    ensures ET.Canonical(ET.Reverse(nodes, maxSize))
    ensures TreeBag(nodes) + TreeBag(ET.Reverse(nodes, maxSize)) == multiset(ET.Count(0, maxSize))
  {
    hide ET.Covers, ET.Reverse, TreeBag, ET.Canonical;
    var r, c := ET.Reverse(nodes, maxSize), ET.Count(0, maxSize);
    ET.ReverseCovers(nodes, maxSize, 0);
    forall x: nat ensures (TreeBag(nodes) + TreeBag(r))[x] == multiset(c)[x] {
      ET.ReverseCovers(nodes, maxSize, x);
      ET.CoveredBelow(nodes, maxSize, x);
      TreeBagIs(nodes, x);
      TreeBagIs(r, x);
      AscendingBag(c, x);
      if x < maxSize { assert c[x] == x; }
    }
  }

  /**
    What a pull from the tree comes to: the smallest blocks of it, two more than are
    missing, go behind the cached ones to the caller, and what he does not want to the cache.
   */
  ghost predicate Pulled(nodes: seq<ET.Extent>, cache: seq<nat>, wanted: nat, got: seq<nat>, nodesNow: seq<ET.Extent>, cacheNow: seq<nat>)
    requires ET.Canonical(nodes) && |cache| < wanted
  {
    var batch := MAX_CACHE_BLOCK_NUM / 2 + wanted - |cache|;
    if nodes == [] then nodesNow == [] && got == [] && cacheNow == cache
    else
      && nodesNow == ET.Left(nodes, batch) && ET.Canonical(ET.Taken(nodes, batch))
      && got + cacheNow == cache + ET.Units(ET.Taken(nodes, batch)) && (cacheNow != [] ==> |got| == wanted)
  }

  lemma NothingPulled(cache: seq<nat>, wanted: nat)
    requires |cache| < wanted
    ensures ET.Canonical([]) && Pulled([], cache, wanted, [], [], cache)
  {
  }

  lemma PulledIs(nodes: seq<ET.Extent>, cache: seq<nat>, wanted: nat, got: seq<nat>, nodesNow: seq<ET.Extent>, cacheNow: seq<nat>)
    requires ET.Canonical(nodes) && |cache| < wanted && nodes != []
    requires var batch := MAX_CACHE_BLOCK_NUM / 2 + wanted - |cache|;
             && nodesNow == ET.Left(nodes, batch) && ET.Canonical(ET.Taken(nodes, batch))
             && got + cacheNow == cache + ET.Units(ET.Taken(nodes, batch)) && (cacheNow != [] ==> |got| == wanted)
    ensures Pulled(nodes, cache, wanted, got, nodesNow, cacheNow)
  {
    hide ET.Canonical, ET.Units, ET.Taken, ET.Left;
  }

  /** The cache takes all there is room for, or else keeps the last half of a full cache; the rest goes to the tree. */
  function StillCached(cache: seq<nat>, put: seq<nat>): seq<nat> {
    var all := cache + put;
    if |all| <= MAX_CACHE_BLOCK_NUM then all else all[|all| - MAX_CACHE_BLOCK_NUM / 2..]
  }

  lemma AllCached(cache: seq<nat>, put: seq<nat>)
    requires |cache| + |put| <= MAX_CACHE_BLOCK_NUM
    ensures StillCached(cache, put) == cache + put
  {
  }

  lemma CachedTail(cache: seq<nat>, put: seq<nat>)
    requires |cache| + |put| > MAX_CACHE_BLOCK_NUM
    ensures var out := |cache| + |put| - MAX_CACHE_BLOCK_NUM / 2;
            StillCached(cache, put) == if out > |cache| then put[out - |cache|..] else cache[out..] + put
  {
  }

  class BlockPool {
    const tree: ET.ExtentTree
    const blocksCache: array<nat>
    var cachedBlockNum: nat
    var blockNum: int
    ghost var drift: int

    /** The blocks the pool has. */
    ghost function Free(): multiset<nat>
      requires ET.Canonical(tree.nodes) && cachedBlockNum <= blocksCache.Length
      reads this, tree, blocksCache
    {
      TreeBag(tree.nodes) + multiset(blocksCache[..cachedBlockNum])
    }

    ghost predicate Valid()
      reads this, tree, blocksCache
    {
      && blocksCache.Length == MAX_CACHE_BLOCK_NUM && cachedBlockNum <= MAX_CACHE_BLOCK_NUM
      && ET.Canonical(tree.nodes)
      && Once(Free())
      && blockNum == |Free()| + drift
    }

    constructor ()
      ensures Valid() && Free() == multiset{} && drift == 0 && fresh(tree) && fresh(blocksCache)
    {
      tree := new ET.ExtentTree();
      blocksCache := new nat[MAX_CACHE_BLOCK_NUM];
      cachedBlockNum, blockNum, drift := 0, 0, 0;
    }

    /** One block dealt: to the caller while it wants any, to the cache after that. */
    method Deal(b: nat, wanted: nat, blockArray: array<nat>, got: nat) returns (n: nat)
      requires got <= wanted <= blockArray.Length && blockArray != blocksCache && (cachedBlockNum > 0 ==> got == wanted)
      requires got < wanted || cachedBlockNum < blocksCache.Length
      modifies blockArray, blocksCache, this`cachedBlockNum
      ensures n <= wanted && (cachedBlockNum > 0 ==> n == wanted) && old(cachedBlockNum) <= blocksCache.Length && cachedBlockNum <= blocksCache.Length
      ensures blockArray[..n] + blocksCache[..cachedBlockNum] == old(blockArray[..got] + blocksCache[..cachedBlockNum]) + [b]
    {
      n := got;
      if got < wanted {
        blockArray[got] := b;
        n := got + 1;
        assert blocksCache[..cachedBlockNum] == [];
      } else {
        blocksCache[cachedBlockNum] := b;
        cachedBlockNum := cachedBlockNum + 1;
      }
    }

    /** The blocks of one extent dealt, in order. */
    method DealExtent(start: nat, end: nat, wanted: nat, blockArray: array<nat>, got: nat) returns (n: nat)
      requires blockArray != blocksCache && blocksCache.Length == MAX_CACHE_BLOCK_NUM && start <= end
      requires got <= wanted <= blockArray.Length && cachedBlockNum <= MAX_CACHE_BLOCK_NUM && (cachedBlockNum > 0 ==> got == wanted)
      requires got + cachedBlockNum + (end - start) <= wanted + MAX_CACHE_BLOCK_NUM
      modifies blockArray, blocksCache, this`cachedBlockNum
      ensures n <= wanted && cachedBlockNum <= MAX_CACHE_BLOCK_NUM && (cachedBlockNum > 0 ==> n == wanted)
      ensures blockArray[..n] + blocksCache[..cachedBlockNum] == old(blockArray[..got] + blocksCache[..cachedBlockNum]) + ET.Count(start, end)
    {
      ghost var before, units := blockArray[..got] + blocksCache[..cachedBlockNum], ET.Count(start, end);
      n := got;
      assert before + units[..0] == before;
      for j := start to end
        invariant 0 <= n <= wanted && cachedBlockNum <= MAX_CACHE_BLOCK_NUM && (cachedBlockNum > 0 ==> n == wanted)
        invariant n + cachedBlockNum == |before| + (j - start)
        invariant blockArray[..n] + blocksCache[..cachedBlockNum] == before + units[..j - start]
      {
        n := Deal(j, wanted, blockArray, n);
        assert units[..j + 1 - start] == units[..j - start] + [j];
        assert before + units[..j - start] + [j] == before + units[..j + 1 - start];
        assert |blockArray[..n] + blocksCache[..cachedBlockNum]| == |before| + (j + 1 - start);
      }
      assert units[..end - start] == units;
    }

    /** The loops over the container: every block of it dealt, in order. */
    method DealContainer(container: ET.ExtentContainer, wanted: nat, blockArray: array<nat>, got: nat) returns (n: nat)
      requires container.Valid() && ET.Canonical(container.Contents()) && blockArray != blocksCache && blocksCache.Length == MAX_CACHE_BLOCK_NUM
      requires got <= wanted <= blockArray.Length && cachedBlockNum == 0
      requires got + |ET.Units(container.Contents())| <= wanted + MAX_CACHE_BLOCK_NUM
      modifies blockArray, blocksCache, this`cachedBlockNum
      ensures n <= wanted && cachedBlockNum <= MAX_CACHE_BLOCK_NUM && (cachedBlockNum > 0 ==> n == wanted)
      ensures blockArray[..n] + blocksCache[..cachedBlockNum] == old(blockArray[..got]) + old(ET.Units(container.Contents()))
    {
      hide ET.Canonical, ET.Units, ET.Count;
      ghost var es, start := container.Contents(), blockArray[..got];
      ghost var all := ET.Units(es);
      n := got;
      WholeLeft(es);
      assert blockArray[..n] + blocksCache[..cachedBlockNum] == start;
      for k := 0 to container.currentNum
        invariant 0 <= n <= wanted && cachedBlockNum <= MAX_CACHE_BLOCK_NUM && (cachedBlockNum > 0 ==> n == wanted)
        invariant container.Valid() && container.Contents() == es && |es| == container.currentNum && ET.Canonical(es[k..])
        invariant blockArray[..n] + blocksCache[..cachedBlockNum] + ET.Units(es[k..]) == start + all
        invariant n + cachedBlockNum + |ET.Units(es[k..])| == |start| + |all|
      {
        var extent := container.slots[k];
        assert es[k] == extent && es[k..][0] == extent && es[k..][1..] == es[k + 1..];
        UnitsHead(es[k..]);
        ghost var before := blockArray[..n] + blocksCache[..cachedBlockNum];
        n := DealExtent(extent.start, extent.end, wanted, blockArray, n);
        DealtMore(before, ET.Count(extent.start, extent.end), ET.Units(es[k + 1..]), start + all);
      }
      NoneLeft(es);
    }

    /** The path of BlockPoolGet that is served by the cache.  It leaves blockNum as it is. */
    method GetFromCache(wanted: nat, blockArray: array<nat>)
      requires Valid() && wanted <= blockArray.Length && blockArray != blocksCache && wanted <= cachedBlockNum
      modifies this, blockArray
      ensures Valid() && multiset(blockArray[..wanted]) + Free() == old(Free()) && drift == old(drift) + wanted
      ensures blocksCache[..cachedBlockNum] + blockArray[..wanted] == old(blocksCache[..cachedBlockNum])
    {
      hide ET.Canonical, Once, TreeBag;
      ghost var free, cache, from := Free(), blocksCache[..cachedBlockNum], cachedBlockNum - wanted;
      for i := 0 to wanted
        modifies blockArray
        invariant blocksCache[..cachedBlockNum] == cache && blockArray[..i] == cache[from..from + i]
      {
        blockArray[i] := blocksCache[cachedBlockNum - wanted + i];
      }
      cachedBlockNum := cachedBlockNum - wanted;
      drift := drift + wanted;
      ghost var a := blockArray[..wanted];
      assert blocksCache[..cachedBlockNum] == cache[..from] && a == cache[from..];
      CutBag(TreeBag(tree.nodes), cache, from);
      OncePart(free, multiset(a), Free());
    }

    /** The whole cache handed over. */
    method TakeCache(blockArray: array<nat>) returns (got: nat)
      requires blocksCache.Length == MAX_CACHE_BLOCK_NUM && cachedBlockNum <= MAX_CACHE_BLOCK_NUM && cachedBlockNum <= blockArray.Length
      requires blockArray != blocksCache
      modifies blockArray, this`cachedBlockNum
      ensures got == old(cachedBlockNum) && cachedBlockNum == 0 && blockArray[..got] == old(blocksCache[..cachedBlockNum])
    {
      ghost var cache := blocksCache[..cachedBlockNum];
      got := 0;
      while got < cachedBlockNum
        modifies blockArray
        invariant 0 <= got <= cachedBlockNum && blocksCache[..cachedBlockNum] == cache && blockArray[..got] == cache[..got]
      {
        blockArray[got] := blocksCache[got];
        got := got + 1;
      }
      assert cache[..got] == cache;
      cachedBlockNum := 0;
    }

    /** The pull itself: two blocks more than are missing, dealt out behind the cached ones. */
    method Pull(wanted: nat, blockArray: array<nat>) returns (got: nat)
      requires blocksCache.Length == MAX_CACHE_BLOCK_NUM && cachedBlockNum <= MAX_CACHE_BLOCK_NUM && ET.Canonical(tree.nodes) && Once(Free())
      requires wanted <= blockArray.Length && blockArray != blocksCache && cachedBlockNum < wanted
      modifies this`cachedBlockNum, tree, blocksCache, blockArray
      ensures cachedBlockNum <= MAX_CACHE_BLOCK_NUM && ET.Canonical(tree.nodes) && got <= wanted
      ensures multiset(blockArray[..got]) + Free() == old(Free()) && Once(Free()) && |Free()| == |old(Free())| - got
      ensures got == if old(tree.nodes) == [] then 0 else ET.Min(wanted, old(|Free()|))
      ensures old(tree.nodes) != [] ==> got > 0
      ensures Pulled(old(tree.nodes), old(blocksCache[..cachedBlockNum]), wanted, blockArray[..got], tree.nodes, blocksCache[..cachedBlockNum])
    {
      hide ET.Canonical, Once, TreeBag, ET.Units, ET.Taken, ET.Left, ET.Min, Pulled;
      ghost var free, nodes, cache := Free(), tree.nodes, blocksCache[..cachedBlockNum];
      var container := new ET.ExtentContainer();
      var batchPullBlockNum := MAX_CACHE_BLOCK_NUM / 2 + wanted - cachedBlockNum;
      PullFacts(nodes, cache, batchPullBlockNum, wanted);
      tree.ExtentTreeGet(container, batchPullBlockNum);
      if container.size == 0 {
        NothingPulled(cache, wanted);
        assert blockArray[..0] == [];
        return 0;
      }
      got := TakeCache(blockArray);
      got := DealContainer(container, wanted, blockArray, got);
      ghost var a, b := blockArray[..got], blocksCache[..cachedBlockNum];
      SharedOut(free, nodes, batchPullBlockNum, cache, a, b, wanted);
      PulledIs(nodes, cache, wanted, a, tree.nodes, b);
    }

    /** The path of BlockPoolGet that pulls from the tree. */
    method GetFromTree(wanted: nat, blockArray: array<nat>) returns (got: nat)
      requires Valid() && wanted <= blockArray.Length && blockArray != blocksCache && cachedBlockNum < wanted
      modifies this, tree, blocksCache, blockArray
      ensures Valid() && got <= wanted && drift == old(drift)
      ensures multiset(blockArray[..got]) + Free() == old(Free())
      ensures got == if old(tree.nodes) == [] then 0 else ET.Min(wanted, old(|Free()|))
      ensures old(tree.nodes) != [] ==> got > 0
      ensures Pulled(old(tree.nodes), old(blocksCache[..cachedBlockNum]), wanted, blockArray[..got], tree.nodes, blocksCache[..cachedBlockNum])
    {
      hide ET.Canonical, Once, TreeBag, ET.Min, Pulled;
      got := Pull(wanted, blockArray);
      blockNum := blockNum - got;
    }

    /** BlockPoolGet: the cache when it is enough, the tree otherwise. */
    method BlockPoolGet(wanted: nat, blockArray: array<nat>) returns (got: nat)
      requires Valid() && wanted <= blockArray.Length && blockArray != blocksCache
      modifies this, tree, blocksCache, blockArray
      ensures Valid() && got <= wanted
      ensures multiset(blockArray[..got]) + Free() == old(Free())
      ensures got == if old(cachedBlockNum) >= wanted then wanted
                     else if old(tree.nodes) == [] then 0
                     else ET.Min(wanted, old(|Free()|))
      ensures wanted > 0 ==> (got == 0 <==> old(cachedBlockNum) < wanted && old(tree.nodes) == [])
      ensures drift == old(drift) + if old(cachedBlockNum) >= wanted then wanted else 0
      ensures if old(cachedBlockNum) >= wanted then
                tree.nodes == old(tree.nodes) && blocksCache[..cachedBlockNum] + blockArray[..got] == old(blocksCache[..cachedBlockNum])
              else
                Pulled(old(tree.nodes), old(blocksCache[..cachedBlockNum]), wanted, blockArray[..got], tree.nodes, blocksCache[..cachedBlockNum])
    {
      hide ET.Canonical, Once, TreeBag, Pulled;
      if cachedBlockNum >= wanted {
        GetFromCache(wanted, blockArray);
        return wanted;
      }
      got := GetFromTree(wanted, blockArray);
    }

    /** The first `n` blocks of an array, put into the tree one by one. */
    method PutToTree(blocks: array<nat>, n: nat)
      requires n <= blocks.Length && ET.Canonical(tree.nodes) && Once(TreeBag(tree.nodes) + multiset(blocks[..n]))
      modifies tree
      ensures ET.Canonical(tree.nodes) && TreeBag(tree.nodes) == old(TreeBag(tree.nodes)) + multiset(blocks[..n])
    {
      hide ET.Canonical, Once, TreeBag, ET.Put, ET.Fresh;
      ghost var was, put := TreeBag(tree.nodes), blocks[..n];
      assert put[..0] == [];
      for i := 0 to n
        modifies tree
        invariant ET.Canonical(tree.nodes) && TreeBag(tree.nodes) == was + multiset(put[..i])
      {
        var b := blocks[i];
        assert put[i] == b;
        NotYetThere(was, put, i);
        PutBag(tree.nodes, b);
        ET.FreshStarts(tree.nodes, b, b + 1);
        tree.ExtentTreePut(b, b + 1);
      }
      assert put[..n] == put;
    }

    /** The last blocks of the array become the cache. */
    method CacheTail(blocks: array<nat>, from: nat, n: nat)
      requires blocksCache.Length == MAX_CACHE_BLOCK_NUM && from <= n <= blocks.Length && n - from <= MAX_CACHE_BLOCK_NUM && blocks != blocksCache
      modifies blocksCache, this`cachedBlockNum
      ensures cachedBlockNum == n - from && blocksCache[..cachedBlockNum] == blocks[from..n]
    {
      for i := 0 to n - from
        modifies blocksCache
        invariant blocksCache[..i] == blocks[from..from + i]
      {
        blocksCache[i] := blocks[from + i];
      }
      cachedBlockNum := n - from;
    }

    /** The array behind what is cached already. */
    method CacheAppend(blocks: array<nat>, n: nat)
      requires blocksCache.Length == MAX_CACHE_BLOCK_NUM && n <= blocks.Length && cachedBlockNum + n <= MAX_CACHE_BLOCK_NUM && blocks != blocksCache
      modifies blocksCache, this`cachedBlockNum
      ensures cachedBlockNum == old(cachedBlockNum) + n && blocksCache[..cachedBlockNum] == old(blocksCache[..cachedBlockNum]) + blocks[..n]
    {
      ghost var was := blocksCache[..cachedBlockNum];
      for i := 0 to n
        modifies blocksCache, this`cachedBlockNum
        invariant cachedBlockNum == old(cachedBlockNum) + i && blocksCache[..cachedBlockNum] == was + blocks[..i]
      {
        blocksCache[cachedBlockNum] := blocks[i];
        cachedBlockNum := cachedBlockNum + 1;
        assert blocksCache[..cachedBlockNum] == blocksCache[..cachedBlockNum - 1] + [blocks[i]];
        assert was + blocks[..i] + [blocks[i]] == was + blocks[..i + 1];
      }
    }

    /** The cache without its first `n` blocks. */
    method DropCached(n: nat)
      requires blocksCache.Length == MAX_CACHE_BLOCK_NUM && n <= cachedBlockNum <= MAX_CACHE_BLOCK_NUM
      modifies blocksCache, this`cachedBlockNum
      ensures cachedBlockNum == old(cachedBlockNum) - n && blocksCache[..cachedBlockNum] == old(blocksCache[n..cachedBlockNum])
    {
      ghost var was := blocksCache[..cachedBlockNum];
      for i := 0 to cachedBlockNum - n
        modifies blocksCache
        invariant forall k :: 0 <= k < i ==> blocksCache[k] == was[n + k]
        invariant forall k :: n + i <= k < cachedBlockNum ==> blocksCache[k] == was[k]
      {
        blocksCache[i] := blocksCache[n + i];
      }
      cachedBlockNum := cachedBlockNum - n;
      assert blocksCache[..cachedBlockNum] == was[n..];
    }

    /** BlockPoolPut when all that is cached, and some of the new, goes to the tree. */
    method PutOverMany(count: nat, blockArray: array<nat>, i: nat)
      requires blocksCache.Length == MAX_CACHE_BLOCK_NUM && cachedBlockNum <= MAX_CACHE_BLOCK_NUM && ET.Canonical(tree.nodes)
      requires i <= count <= blockArray.Length && blockArray != blocksCache && count - i == MAX_CACHE_BLOCK_NUM / 2
      requires i > 0 && cachedBlockNum + count > MAX_CACHE_BLOCK_NUM
      requires Once(Free() + multiset(blockArray[..count]))
      modifies this`cachedBlockNum, tree, blocksCache
      ensures cachedBlockNum == MAX_CACHE_BLOCK_NUM / 2 && ET.Canonical(tree.nodes)
      ensures Free() == old(Free()) + multiset(blockArray[..count])
      ensures blocksCache[..cachedBlockNum] == StillCached(old(blocksCache[..cachedBlockNum]), blockArray[..count])
    {
      hide ET.Canonical, Once, TreeBag, StillCached;
      ghost var put, cache, bag := blockArray[..count], blocksCache[..cachedBlockNum], TreeBag(tree.nodes);
      OverParts(bag, cache, put, |cache|, i);
      CachedTail(cache, put);
      PutToTree(blocksCache, cachedBlockNum);
      assert blockArray[..i] == put[..i];
      PutToTree(blockArray, i);
      CacheTail(blockArray, i, count);
      assert blocksCache[..cachedBlockNum] == put[i..];
    }

    /** BlockPoolPut when only cached blocks go to the tree. */
    method PutOverFew(count: nat, blockArray: array<nat>, outToTree: nat)
      requires blocksCache.Length == MAX_CACHE_BLOCK_NUM && outToTree <= cachedBlockNum <= MAX_CACHE_BLOCK_NUM && ET.Canonical(tree.nodes)
      requires count <= blockArray.Length && blockArray != blocksCache && cachedBlockNum - outToTree + count == MAX_CACHE_BLOCK_NUM / 2
      requires cachedBlockNum + count > MAX_CACHE_BLOCK_NUM
      requires Once(Free() + multiset(blockArray[..count]))
      modifies this`cachedBlockNum, tree, blocksCache
      ensures cachedBlockNum == MAX_CACHE_BLOCK_NUM / 2 && ET.Canonical(tree.nodes)
      ensures Free() == old(Free()) + multiset(blockArray[..count])
      ensures blocksCache[..cachedBlockNum] == StillCached(old(blocksCache[..cachedBlockNum]), blockArray[..count])
    {
      hide ET.Canonical, Once, TreeBag, StillCached;
      ghost var put, cache, bag := blockArray[..count], blocksCache[..cachedBlockNum], TreeBag(tree.nodes);
      OverParts(bag, cache, put, outToTree, 0);
      CachedTail(cache, put);
      assert blocksCache[..outToTree] == cache[..outToTree];
      PutToTree(blocksCache, outToTree);
      assert blocksCache[outToTree..cachedBlockNum] == cache[outToTree..];
      DropCached(outToTree);
      CacheAppend(blockArray, count);
      assert multiset(cache[outToTree..] + put) == multiset(cache[outToTree..]) + multiset(put);
    }

    /** BlockPoolPut when the cache has room. */
    method PutToCache(count: nat, blockArray: array<nat>)
      requires blocksCache.Length == MAX_CACHE_BLOCK_NUM && ET.Canonical(tree.nodes) && count <= blockArray.Length && blockArray != blocksCache
      requires cachedBlockNum + count <= MAX_CACHE_BLOCK_NUM
      modifies this`cachedBlockNum, blocksCache
      ensures cachedBlockNum <= MAX_CACHE_BLOCK_NUM
      ensures Free() == old(Free()) + multiset(blockArray[..count])
      ensures blocksCache[..cachedBlockNum] == StillCached(old(blocksCache[..cachedBlockNum]), blockArray[..count])
    {
      hide ET.Canonical, TreeBag, StillCached;
      ghost var put, cache := blockArray[..count], blocksCache[..cachedBlockNum];
      AllCached(cache, put);
      CacheAppend(blockArray, count);
      assert multiset(cache + put) == multiset(cache) + multiset(put);
    }

    /** And when it has not. */
    method PutOver(count: nat, blockArray: array<nat>)
      requires blocksCache.Length == MAX_CACHE_BLOCK_NUM && cachedBlockNum <= MAX_CACHE_BLOCK_NUM && ET.Canonical(tree.nodes)
      requires count <= blockArray.Length && blockArray != blocksCache && cachedBlockNum + count > MAX_CACHE_BLOCK_NUM
      requires Once(Free() + multiset(blockArray[..count]))
      modifies this`cachedBlockNum, tree, blocksCache
      ensures cachedBlockNum <= MAX_CACHE_BLOCK_NUM && ET.Canonical(tree.nodes)
      ensures Free() == old(Free()) + multiset(blockArray[..count])
      ensures blocksCache[..cachedBlockNum] == StillCached(old(blocksCache[..cachedBlockNum]), blockArray[..count])
    {
      hide ET.Canonical, Once, TreeBag, StillCached, BlockPool.Free;
      var outToTreeBlockNum := cachedBlockNum + count - MAX_CACHE_BLOCK_NUM / 2;
      if outToTreeBlockNum > cachedBlockNum {
        PutOverMany(count, blockArray, outToTreeBlockNum - cachedBlockNum);
      } else {
        PutOverFew(count, blockArray, outToTreeBlockNum);
      }
    }

    /** BlockPoolPut: no block is lost or kept twice, wherever it ends up. */
    method BlockPoolPut(count: nat, blockArray: array<nat>)
      requires Valid() && count <= blockArray.Length && blockArray != blocksCache && Once(Free() + multiset(blockArray[..count]))
      modifies this, tree, blocksCache
      ensures Valid() && Free() == old(Free()) + multiset(blockArray[..count]) && drift == old(drift)
      ensures blocksCache[..cachedBlockNum] == StillCached(old(blocksCache[..cachedBlockNum]), blockArray[..count])
    {
      hide ET.Canonical, Once, TreeBag, StillCached;
      BagSum(Free(), blockArray[..count]);
      blockNum := blockNum + count;
      if count + cachedBlockNum <= MAX_CACHE_BLOCK_NUM {
        PutToCache(count, blockArray);
      } else {
        PutOver(count, blockArray);
      }
    }

    method BlockPoolExtentGet(wanted: nat, container: ET.ExtentContainer)
      requires Valid() && container.Valid() && container.Contents() == [] && container.size == 0 && container.slots != (blocksCache as object)
      modifies this, tree, container, container.slots
      ensures Valid() && container.Valid() && drift == old(drift) && ET.Canonical(container.Contents())
      ensures TreeBag(container.Contents()) + Free() == old(Free())
      ensures container.size == |TreeBag(container.Contents())| == ET.Min(wanted, |old(TreeBag(tree.nodes))|)
      ensures container.Contents() == ET.Taken(old(tree.nodes), wanted) && tree.nodes == ET.Left(old(tree.nodes), wanted)
      ensures cachedBlockNum == old(cachedBlockNum) && blocksCache[..] == old(blocksCache[..])
    {
      hide ET.Canonical, Once, TreeBag, ET.Taken, ET.Left, ET.Units;
      ghost var free, nodes := Free(), tree.nodes;
      GetBag(nodes, wanted);
      ET.GetTakesSmallest(nodes, wanted);
      TreeBagOf(nodes);
      TreeBagOf(ET.Taken(nodes, wanted));
      tree.ExtentTreeGet(container, wanted);
      blockNum := blockNum - container.size;
      OncePart(free, TreeBag(container.Contents()), Free());
    }

    method BlockPoolExtentPut(container: ET.ExtentContainer)
      requires Valid() && container.Valid() && container.size == |Listed(container.Contents())|
      requires ET.Puttable(tree.nodes, container.Contents()) && Once(Free() + multiset(Listed(container.Contents())))
      modifies this, tree
      ensures Valid() && drift == old(drift) && Free() == old(Free()) + multiset(Listed(container.Contents()))
      ensures tree.nodes == ET.PutAll(old(tree.nodes), container.Contents()) && cachedBlockNum == old(cachedBlockNum)
    {
      hide ET.Canonical, Once, TreeBag, ET.Puttable, ET.PutAll, Listed;
      PutAllBag(tree.nodes, container.Contents());
      ghost var free := Free();
      BagSum(free, Listed(container.Contents()));
      blockNum := blockNum + container.size;
      tree.ExtentTreeBatchPut(container);
      assert Free() == free + multiset(Listed(container.Contents()));
    }

    /**
      BlockPoolRecoveryNotifyBlockBusy: while recovering the tree holds the busy blocks.
      It stays a tree exactly when none of the range was reported before.
     */
    method RecoveryNotifyBlockBusy(startBlock: nat, n: nat)
      requires ET.Canonical(tree.nodes) && n > 0 && ET.Startable(tree.nodes, startBlock)
      modifies tree
      ensures tree.nodes == ET.Put(old(tree.nodes), startBlock, startBlock + n)
      ensures ET.Canonical(tree.nodes) <==> ET.Fresh(old(tree.nodes), startBlock, startBlock + n)
      ensures ET.Canonical(tree.nodes) ==> TreeBag(tree.nodes) == old(TreeBag(tree.nodes)) + multiset(ET.Count(startBlock, startBlock + n))
    {
      hide ET.Canonical, TreeBag, ET.Put, ET.Fresh, ET.Startable;
      if ET.Fresh(tree.nodes, startBlock, startBlock + n) {
        PutRangeBag(tree.nodes, startBlock, startBlock + n);
      }
      tree.ExtentTreePut(startBlock, startBlock + n);
    }

    /**
      BlockPoolRecoveryEnd: the free blocks are exactly those not reported busy.
      The busy ones were never counted, so the counter is off by their number:
      it is right exactly when there are none.
     */
    method RecoveryEnd(total: nat)
      requires ET.Canonical(tree.nodes) && ET.Bounded(tree.nodes, total) && cachedBlockNum == 0 && blockNum == 0
      requires blocksCache.Length == MAX_CACHE_BLOCK_NUM
      modifies this, tree
      ensures Valid() && old(TreeBag(tree.nodes)) + Free() == multiset(ET.Count(0, total))
      ensures drift == |old(TreeBag(tree.nodes))| && (blockNum == |Free()| <==> old(tree.nodes) == [])
    {
      hide ET.Canonical, TreeBag, ET.Reverse, ET.Bounded, Once;
      ghost var busy := TreeBag(tree.nodes);
      ReverseBag(tree.nodes, total);
      TreeBagOf(tree.nodes);
      EmptyUnits(tree.nodes);
      tree.ExtentTreeReverseHolesAndExtents(total);
      blockNum := total - blockNum;
      drift := |busy|;
      assert Free() == TreeBag(tree.nodes);
      CountOnce(0, total);
      OncePart(multiset(ET.Count(0, total)), busy, Free());
    }
  }

  /**
    A block reported busy a second time: the insertion finds no place for it, or the
    tree is broken.
   */
  lemma ReportedTwice(nodes: seq<ET.Extent>, b: nat)
    requires ET.Canonical(nodes) && ET.Fresh(nodes, b, b + 1)
    ensures var once := ET.Put(nodes, b, b + 1);
            ET.Canonical(once) && (!ET.Startable(once, b) || !ET.Canonical(ET.Put(once, b, b + 1)))
  {
    hide ET.Canonical, ET.Put, ET.Covers, ET.Startable;
    var once := ET.Put(nodes, b, b + 1);
    ET.PutCanonical(nodes, b, b + 1);
    ET.PutCovers(nodes, b, b + 1, b);
    assert !ET.Fresh(once, b, b + 1);
    ET.PutCanonicalIff(once, b, b + 1);
  }

  lemma CutBag(bag: multiset<nat>, cache: seq<nat>, from: nat)
    requires from <= |cache|
    ensures multiset(cache[from..]) + (bag + multiset(cache[..from])) == bag + multiset(cache)
  {
    assert cache == cache[..from] + cache[from..];
  }

  lemma BagSum(b: multiset<nat>, s: seq<nat>)
    ensures |b + multiset(s)| == |b| + |s|
  {
  }

  lemma CountOnce(a: nat, b: nat)
    requires a <= b
    ensures Once(multiset(ET.Count(a, b))) && |multiset(ET.Count(a, b))| == b - a
  {
    forall x ensures multiset(ET.Count(a, b))[x] <= 1 { AscendingBag(ET.Count(a, b), x); }
  }

  /** The next block of a list is not in the tree yet. */
  lemma NotYetThere(bag: multiset<nat>, blocks: seq<nat>, i: nat)
    requires i < |blocks| && Once(bag + multiset(blocks))
    ensures blocks[i] !in bag + multiset(blocks[..i])
    ensures bag + multiset(blocks[..i]) + multiset{blocks[i]} == bag + multiset(blocks[..i + 1])
  {
    assert blocks[..i + 1] == blocks[..i] + [blocks[i]];
    var b := blocks[i];
    assert blocks == blocks[..i] + [b] + blocks[i + 1..];
    assert multiset(blocks)[b] == multiset(blocks[..i])[b] + 1 + multiset(blocks[i + 1..])[b];
    assert (bag + multiset(blocks))[b] <= 1;
  }

  /** The parts that go to the tree and those that stay. */
  lemma OverParts(bag: multiset<nat>, cache: seq<nat>, put: seq<nat>, m: nat, n: nat)
    requires m <= |cache| && n <= |put| && Once(bag + multiset(cache) + multiset(put))
    ensures multiset(cache) == multiset(cache[..m]) + multiset(cache[m..])
    ensures multiset(put) == multiset(put[..n]) + multiset(put[n..])
    ensures Once(bag + multiset(cache[..m])) && Once(bag + multiset(cache[..m]) + multiset(put[..n]))
    ensures cache[..|cache|] == cache && cache[|cache|..] == []
  {
    assert cache == cache[..m] + cache[m..] && put == put[..n] + put[n..];
    forall x ensures (bag + multiset(cache[..m]))[x] <= 1 && (bag + multiset(cache[..m]) + multiset(put[..n]))[x] <= 1 {
      assert (bag + multiset(cache) + multiset(put))[x] <= 1;
    }
  }

  lemma PullFacts(nodes: seq<ET.Extent>, cache: seq<nat>, batch: nat, wanted: nat)
    requires ET.Canonical(nodes) && |cache| < wanted && batch == MAX_CACHE_BLOCK_NUM / 2 + wanted - |cache|
    ensures ET.Canonical(ET.Taken(nodes, batch)) && ET.Canonical(ET.Left(nodes, batch))
    ensures |cache| + |ET.Units(ET.Taken(nodes, batch))| <= wanted + MAX_CACHE_BLOCK_NUM
    ensures |ET.Units(ET.Taken(nodes, batch))| == 0 <==> nodes == []
    ensures nodes == [] ==> ET.Left(nodes, batch) == nodes
  {
    hide ET.Taken, ET.Left, ET.Units;
    ET.GetTakesSmallest(nodes, batch);
    EmptyUnits(nodes);
    if nodes == [] {
      GetNothing(nodes, batch);
    }
  }

  /** Caller and cache share what the cache and the pull had. */
  lemma SharedOut(free: multiset<nat>, nodes: seq<ET.Extent>, batch: nat, cache: seq<nat>, a: seq<nat>, b: seq<nat>, wanted: nat)
    requires ET.Canonical(nodes) && free == TreeBag(nodes) + multiset(cache) && Once(free)
    requires |cache| < wanted && batch == MAX_CACHE_BLOCK_NUM / 2 + wanted - |cache|
    requires ET.Canonical(ET.Taken(nodes, batch)) && ET.Canonical(ET.Left(nodes, batch))
    requires a + b == cache + ET.Units(ET.Taken(nodes, batch)) && |a| <= wanted && (|b| > 0 ==> |a| == wanted)
    ensures var now := TreeBag(ET.Left(nodes, batch)) + multiset(b);
            multiset(a) + now == free && Once(now) && |now| == |free| - |a|
    ensures |a| == ET.Min(wanted, |free|) && (nodes != [] ==> |a| > 0)
  {
    EmptyUnits(nodes);
    hide ET.Taken, ET.Left, ET.Units, ET.Canonical, Once, TreeBag;
    var t, l := ET.Taken(nodes, batch), ET.Left(nodes, batch);
    GetBag(nodes, batch);
    ET.GetTakesSmallest(nodes, batch);
    TreeBagOf(nodes);
    TreeBagOf(t);
    assert multiset(a + b) == multiset(cache + ET.Units(t));
    var now := TreeBag(l) + multiset(b);
    assert multiset(a) + now == TreeBag(l) + (multiset(a) + multiset(b)) == TreeBag(l) + (multiset(cache) + TreeBag(t)) == free;
    OncePart(free, multiset(a), now);
    assert |a + b| == |a| + |b| == |cache| + |ET.Units(t)|;
  }

  lemma DealtMore(before: seq<nat>, units: seq<nat>, rest: seq<nat>, whole: seq<nat>)
    requires before + (units + rest) == whole
    ensures before + units + rest == whole && |before + units| + |rest| == |whole|
  {
  }

  lemma TreeBagOf(nodes: seq<ET.Extent>)
    requires ET.Canonical(nodes)
    ensures TreeBag(nodes) == multiset(ET.Units(nodes)) && |TreeBag(nodes)| == |ET.Units(nodes)|
  {
  }

  lemma OncePart(whole: multiset<nat>, a: multiset<nat>, b: multiset<nat>)
    requires Once(whole) && a + b == whole
    ensures Once(a) && Once(b) && |b| == |whole| - |a|
  {
    forall x ensures a[x] <= 1 && b[x] <= 1 { assert whole[x] == a[x] + b[x]; }
  }

  lemma WholeLeft(es: seq<ET.Extent>)
    requires ET.Canonical(es)
    ensures es[0..] == es && ET.Canonical(es[0..])
  {
  }

  lemma NoneLeft(es: seq<ET.Extent>)
    ensures ET.Canonical([]) && ET.Units([]) == [] && es[|es|..] == []
  {
  }

  lemma UnitsHead(es: seq<ET.Extent>)
    requires ET.Canonical(es) && es != []
    ensures es[0].start < es[0].end && ET.Canonical(es[1..]) && ET.Units(es) == ET.Count(es[0].start, es[0].end) + ET.Units(es[1..])
  {
  }

  lemma EmptyUnits(es: seq<ET.Extent>)
    requires ET.Canonical(es)
    ensures |ET.Units(es)| == 0 <==> es == []
  {
  }

  lemma GetNothing(es: seq<ET.Extent>, size: nat)
    requires ET.Canonical(es) && size > 0 && es == []
    ensures ET.Left(es, size) == es
  {
  }
}
