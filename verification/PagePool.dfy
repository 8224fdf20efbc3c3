/** Pages: every block taken from the block pool has a bitmap as long as one of its 512 pages is free. */
module PagePool {
  import opened Permutations
  import opened Wrappers
  import BP = BlockPool
  import ET = ExtentTree

  const PAGES: nat := 512
  const WORD_BITS: nat := 64
  const BITMAP_WORDS: nat := 8

  /** PageSubPool; a set bit is a page in use. */
  datatype SubPool = SubPool(bitmap: seq<bool>, count: nat, nextIndex: nat)

  function Zeros(bits: seq<bool>): (n: nat)
    ensures n <= |bits|
  {
    if bits == [] then 0 else (if bits[0] then 0 else 1) + Zeros(bits[1..])
  }

  lemma {:induction false} ZerosUpdate(bits: seq<bool>, i: nat, b: bool)
    requires i < |bits| && bits[i] != b
    ensures Zeros(bits[i := b]) == if b then Zeros(bits) - 1 else Zeros(bits) + 1
    decreases |bits|
  {
    if i == 0 {
      assert bits[i := b][1..] == bits[1..];
    } else {
      ZerosUpdate(bits[1..], i - 1, b);
      assert bits[i := b][1..] == bits[1..][i - 1 := b];
    }
  }

  lemma {:induction false} ZerosExtremes(bits: seq<bool>)
    ensures Zeros(bits) == 0 <==> forall i :: 0 <= i < |bits| ==> bits[i]
    ensures Zeros(bits) == |bits| <==> forall i :: 0 <= i < |bits| ==> !bits[i]
    decreases |bits|
  {
    if bits != [] {
      ZerosExtremes(bits[1..]);
      assert forall i :: 1 <= i < |bits| ==> bits[i] == bits[1..][i - 1];
    }
  }

  predicate WordFull(bitmap: seq<bool>, w: nat)
    requires |bitmap| == PAGES && w < BITMAP_WORDS
  {
    forall k :: w * WORD_BITS <= k < (w + 1) * WORD_BITS ==> bitmap[k]
  }

  /** PagePoolFfz: the lowest zero bit of a word that has one. */
  method Ffz(bitmap: seq<bool>, w: nat) returns (bit: nat)
    requires |bitmap| == PAGES && w < BITMAP_WORDS && !WordFull(bitmap, w)
    ensures bit < WORD_BITS && !bitmap[w * WORD_BITS + bit]
    ensures forall k :: w * WORD_BITS <= k < w * WORD_BITS + bit ==> bitmap[k]
  {
    bit := 0;
    while bit < WORD_BITS && bitmap[w * WORD_BITS + bit]
      invariant 0 <= bit <= WORD_BITS && forall k :: w * WORD_BITS <= k < w * WORD_BITS + bit ==> bitmap[k]
    {
      bit := bit + 1;
    }
  }

  /** The word a scan from `start` looks at in round `j`. */
  function Scanned(start: nat, j: nat): nat
    requires start < BITMAP_WORDS && j < BITMAP_WORDS
  {
    (start + j) % BITMAP_WORDS
  }

  /** The first zero bit, words taken going round from `start`. */
  ghost predicate NextZero(bitmap: seq<bool>, start: nat, index: nat)
    requires |bitmap| == PAGES && start < BITMAP_WORDS
  {
    && index < PAGES && !bitmap[index]
    && (forall k :: index / WORD_BITS * WORD_BITS <= k < index ==> bitmap[k])
    && exists j :: 0 <= j < BITMAP_WORDS && Scanned(start, j) == index / WORD_BITS
                   && forall i :: 0 <= i < j ==> WordFull(bitmap, Scanned(start, i))
  }

  /** BitmapZeroGet: some zero bit, from the first word with one, going round from `start`; -1 only when there is none. */
  method BitmapZeroGet(bitmap: seq<bool>, start: nat) returns (index: int)
    requires |bitmap| == PAGES && start < BITMAP_WORDS
    ensures index == -1 <==> Zeros(bitmap) == 0
    ensures index != -1 ==> 0 <= index && NextZero(bitmap, start, index)
  {
    hide WordFull;
    var i, j := start, 0;
    ZerosExtremes(bitmap);
    while j < BITMAP_WORDS
      invariant 0 <= j <= BITMAP_WORDS && (j < BITMAP_WORDS ==> i == Scanned(start, j))
      invariant forall k :: 0 <= k < j ==> WordFull(bitmap, Scanned(start, k))
    {
      if !WordFull(bitmap, i) {
        var bit := Ffz(bitmap, i);
        index := i * WORD_BITS + bit;
        assert index / WORD_BITS == i;
        return;
      }
      i := i + 1;
      if i >= BITMAP_WORDS {
        i := i - BITMAP_WORDS;
      }
      j := j + 1;
    }
    AllScanned(bitmap, start);
    index := -1;
  }

  lemma AllScanned(bitmap: seq<bool>, start: nat)
    requires |bitmap| == PAGES && start < BITMAP_WORDS
    requires forall k :: 0 <= k < BITMAP_WORDS ==> WordFull(bitmap, Scanned(start, k))
    ensures forall k :: 0 <= k < PAGES ==> bitmap[k]
  {
    forall k | 0 <= k < PAGES ensures bitmap[k] {
      var w := k / WORD_BITS;
      var j := if w >= start then w - start else w + BITMAP_WORDS - start;
      assert Scanned(start, j) == w;
      assert WordFull(bitmap, w);
    }
  }

  ghost predicate Sound(sp: SubPool) {
    |sp.bitmap| == PAGES && sp.count == Zeros(sp.bitmap) && sp.count > 0 && sp.nextIndex < BITMAP_WORDS
  }

  // ---------- lists of sub-pools ----------

  /** list_del. */
  function Without(list: seq<nat>, b: nat): seq<nat> {
    if list == [] then [] else if list[0] == b then list[1..] else [list[0]] + Without(list[1..], b)
  }

  lemma {:induction false} WithoutIs(list: seq<nat>, b: nat)
    requires Distinct(list)
    ensures Distinct(Without(list, b)) && (forall x :: x in Without(list, b) <==> x in list && x != b)
    ensures |Without(list, b)| == if b in list then |list| - 1 else |list|
    decreases |list|
  {
    if list != [] {
      WithoutIs(list[1..], b);
      var r := Without(list[1..], b);
      if list[0] != b {
        assert Without(list, b) == [list[0]] + r;
        DistinctCons(list[0], r);
      }
    }
  }

  lemma DistinctCons(x: nat, s: seq<nat>)
    requires Distinct(s) && x !in s
    ensures Distinct([x] + s)
  {
    var r := [x] + s;
    forall i, j | 0 <= i < j < |r| ensures r[i] != r[j] { assert r[j] == s[j - 1] && r[j] in s; }
  }

  function Sum(list: seq<nat>, m: map<nat, SubPool>): nat
    requires forall b :: b in list ==> b in m
  {
    if list == [] then 0 else m[list[0]].count + Sum(list[1..], m)
  }

  lemma {:induction false} SumSame(list: seq<nat>, m: map<nat, SubPool>, n: map<nat, SubPool>)
    requires forall b :: b in list ==> b in m && b in n && m[b].count == n[b].count
    ensures Sum(list, m) == Sum(list, n)
    decreases |list|
  {
    if list != [] {
      SumSame(list[1..], m, n);
    }
  }

  lemma {:induction false} SumUpdate(list: seq<nat>, m: map<nat, SubPool>, b: nat, sp: SubPool)
    requires Distinct(list) && b in list && forall x :: x in list ==> x in m
    ensures Sum(list, m[b := sp]) == Sum(list, m) - m[b].count + sp.count
    decreases |list|
  {
    if list[0] == b {
      SumSame(list[1..], m, m[b := sp]);
    } else {
      SumUpdate(list[1..], m, b, sp);
    }
  }

  lemma {:induction false} SumWithout(list: seq<nat>, m: map<nat, SubPool>, b: nat)
    requires Distinct(list) && b in list && forall x :: x in list ==> x in m
    ensures (forall x :: x in Without(list, b) ==> x in m) && Sum(Without(list, b), m) == Sum(list, m) - m[b].count
    decreases |list|
  {
    WithoutIs(list, b);
    if list[0] != b {
      SumWithout(list[1..], m, b);
      assert Without(list, b)[1..] == Without(list[1..], b);
    }
  }

  // ---------- the pool as a value ----------

  /** The radix tree, the list of sub-pools with free pages, the two counters, and the blocks the pool has taken. */
  datatype Pool = Pool(subPools: map<nat, SubPool>, nonFull: seq<nat>, subPoolNum: nat, pageNum: int, owned: set<nat>)

  ghost predicate PoolOk(p: Pool) {
    && (forall b :: b in p.subPools ==> Sound(p.subPools[b]) && b in p.owned)
    && Distinct(p.nonFull) && (forall b :: b in p.nonFull <==> b in p.subPools)
    && p.subPoolNum == |p.nonFull|
    && p.pageNum == Sum(p.nonFull, p.subPools)
  }

  predicate IsFree(p: Pool, page: nat) {
    var b := page / PAGES;
    b in p.subPools && page % PAGES < |p.subPools[b].bitmap| && !p.subPools[b].bitmap[page % PAGES]
  }

  /** A page of a block of the pool that is not free: somebody has it. */
  predicate IsLive(p: Pool, page: nat) { page / PAGES in p.owned && !IsFree(p, page) }

  /** AddPageSubPool, for a block fresh from the block pool. */
  function Added(p: Pool, b: nat): Pool {
    p.(subPools := p.subPools[b := SubPool(seq(PAGES, _ => false), PAGES, 0)], nonFull := p.nonFull + [b],
       subPoolNum := p.subPoolNum + 1, pageNum := p.pageNum + PAGES, owned := p.owned + {b})
  }

  lemma {:induction false} NoneSet(n: nat)
    ensures Zeros(seq(n, _ => false)) == n
    decreases n
  {
    ZerosExtremes(seq(n, _ => false));
  }

  lemma {:induction false} AllSet(n: nat)
    ensures Zeros(seq(n, _ => true)) == 0
  {
    ZerosExtremes(seq(n, _ => true));
  }

  lemma {:induction false} SumAppend(list: seq<nat>, m: map<nat, SubPool>, b: nat)
    requires b in m && forall x :: x in list ==> x in m
    ensures Sum(list + [b], m) == Sum(list, m) + m[b].count
    decreases |list|
  {
    if list != [] {
      assert (list + [b])[1..] == list[1..] + [b];
      SumAppend(list[1..], m, b);
    }
  }

  lemma AddedOk(p: Pool, b: nat)
    requires PoolOk(p) && b !in p.owned
    ensures PoolOk(Added(p, b)) && forall page :: IsLive(Added(p, b), page) == IsLive(p, page)
  {
    var q := Added(p, b);
    NoneSet(PAGES);
    SumSame(p.nonFull, p.subPools, q.subPools);
    SumAppend(p.nonFull, q.subPools, b);
    assert forall x :: x in q.nonFull <==> x in p.nonFull || x == b;
    assert Distinct(q.nonFull) by {
      forall i, j | 0 <= i < j < |q.nonFull| ensures q.nonFull[i] != q.nonFull[j] {
        assert p.nonFull[i] in p.nonFull;
      }
    }
  }

  /** A page of sub-pool `b` handed out, and the sub-pool dropped when that was its last. */
  function Handed(p: Pool, b: nat, index: nat): Pool
    requires b in p.subPools && index < |p.subPools[b].bitmap| && p.subPools[b].count > 0
  {
    var sp := p.subPools[b];
    var taken := SubPool(sp.bitmap[index := true], sp.count - 1, index / WORD_BITS);
    if taken.count == 0 then
      p.(subPools := map x | x in p.subPools && x != b :: p.subPools[x], nonFull := Without(p.nonFull, b),
         subPoolNum := if p.subPoolNum > 0 then p.subPoolNum - 1 else 0, pageNum := p.pageNum - 1)
    else p.(subPools := p.subPools[b := taken], pageNum := p.pageNum - 1)
  }

  /** The page is live afterwards and was not before; every other page is as it was. */
  ghost predicate OnlyLive(p: Pool, q: Pool, page: nat) {
    !IsLive(p, page) && IsLive(q, page) && forall x :: x != page ==> IsLive(q, x) == IsLive(p, x)
  }

  lemma HandedOk(p: Pool, b: nat, index: nat)
    requires PoolOk(p) && b in p.subPools && index < PAGES && !p.subPools[b].bitmap[index]
    ensures PoolOk(Handed(p, b, index)) && OnlyLive(p, Handed(p, b, index), b * PAGES + index)
    ensures Handed(p, b, index).owned == p.owned
  {
    hide Zeros, Sum, Without;
    HandedCounts(p, b, index);
    HandedLive(p, b, index);
  }

  lemma HandedCounts(p: Pool, b: nat, index: nat)
    requires PoolOk(p) && b in p.subPools && index < PAGES && !p.subPools[b].bitmap[index]
    ensures PoolOk(Handed(p, b, index)) && Handed(p, b, index).owned == p.owned
  {
    hide Zeros, Without, Sum, Distinct;
    ZerosUpdate(p.subPools[b].bitmap, index, true);
    if p.subPools[b].count == 1 {
      DroppedCounts(p, b, index);
    } else {
      KeptCounts(p, b, index);
    }
  }

  lemma DroppedCounts(p: Pool, b: nat, index: nat)
    requires PoolOk(p) && b in p.subPools && index < PAGES && !p.subPools[b].bitmap[index] && p.subPools[b].count == 1
    ensures PoolOk(Handed(p, b, index)) && Handed(p, b, index).owned == p.owned
  {
    hide Zeros, Without, Sum, Distinct;
    var q := Handed(p, b, index);
    WithoutIs(p.nonFull, b);
    SumWithout(p.nonFull, p.subPools, b);
    SumSame(q.nonFull, p.subPools, q.subPools);
  }

  lemma KeptCounts(p: Pool, b: nat, index: nat)
    requires PoolOk(p) && b in p.subPools && index < PAGES && !p.subPools[b].bitmap[index] && p.subPools[b].count > 1
    ensures PoolOk(Handed(p, b, index)) && Handed(p, b, index).owned == p.owned
  {
    hide Zeros, Without, Sum, Distinct;
    var sp := p.subPools[b];
    ZerosUpdate(sp.bitmap, index, true);
    SumUpdate(p.nonFull, p.subPools, b, SubPool(sp.bitmap[index := true], sp.count - 1, index / WORD_BITS));
  }

  lemma PageParts(b: nat, index: nat)
    requires index < PAGES
    ensures (b * PAGES + index) / PAGES == b && (b * PAGES + index) % PAGES == index
  {
  }

  lemma PageSplit(page: nat)
    ensures page == page / PAGES * PAGES + page % PAGES && page % PAGES < PAGES
  {
  }

  lemma HandedLive(p: Pool, b: nat, index: nat)
    requires PoolOk(p) && b in p.subPools && index < PAGES && !p.subPools[b].bitmap[index]
    ensures OnlyLive(p, Handed(p, b, index), b * PAGES + index)
  {
    hide Sum, Without;
    var q, page := Handed(p, b, index), b * PAGES + index;
    PageParts(b, index);
    ZerosUpdate(p.subPools[b].bitmap, index, true);
    ZerosExtremes(p.subPools[b].bitmap[index := true]);
    forall x: nat | x != page ensures IsLive(q, x) == IsLive(p, x) {
      PageSplit(x);
      var k := x % PAGES;
      if x / PAGES == b {
        assert k != index && p.subPools[b].bitmap[index := true][k] == p.subPools[b].bitmap[k];
      }
    }
  }

  /** The sub-pool of a block all of whose pages were in use comes back, with none free. */
  function Revived(p: Pool, b: nat): Pool {
    p.(subPools := p.subPools[b := SubPool(seq(PAGES, _ => true), 0, 0)], nonFull := [b] + p.nonFull, subPoolNum := p.subPoolNum + 1)
  }

  /** A page given back. */
  function Returned(p: Pool, b: nat, index: nat): Pool
    requires b in p.subPools && index < |p.subPools[b].bitmap|
  {
    var sp := p.subPools[b];
    p.(subPools := p.subPools[b := SubPool(sp.bitmap[index := false], sp.count + 1, index / WORD_BITS)], pageNum := p.pageNum + 1)
  }

  ghost predicate OnlyFree(p: Pool, q: Pool, page: nat) {
    !IsLive(q, page) && forall x :: x != page ==> IsLive(q, x) == IsLive(p, x)
  }

  lemma ReturnedOk(p: Pool, b: nat, index: nat)
    requires PoolOk(p) && b in p.subPools && index < PAGES && p.subPools[b].bitmap[index]
    ensures PoolOk(Returned(p, b, index)) && OnlyFree(p, Returned(p, b, index), b * PAGES + index)
  {
    hide Zeros, Without;
    var sp := p.subPools[b];
    ZerosUpdate(sp.bitmap, index, false);
    SumUpdate(p.nonFull, p.subPools, b, SubPool(sp.bitmap[index := false], sp.count + 1, index / WORD_BITS));
    PageParts(b, index);
    forall x: nat | x != b * PAGES + index ensures IsLive(Returned(p, b, index), x) == IsLive(p, x) { PageSplit(x); }
  }

  lemma RevivedReturnedOk(p: Pool, b: nat, index: nat)
    requires PoolOk(p) && b in p.owned && b !in p.subPools && index < PAGES
    ensures PoolOk(Returned(Revived(p, b), b, index)) && OnlyFree(p, Returned(Revived(p, b), b, index), b * PAGES + index)
  {
    hide Zeros, Without, PoolOk, OnlyFree, Returned, Revived;
    RevivedCounts(p, b, index);
    RevivedLive(p, b, index);
  }

  lemma RevivedCounts(p: Pool, b: nat, index: nat)
    requires PoolOk(p) && b in p.owned && b !in p.subPools && index < PAGES
    ensures PoolOk(Returned(Revived(p, b), b, index))
  {
    hide Zeros, Without;
    var r := Revived(p, b);
    var q := Returned(r, b, index);
    AllSet(PAGES);
    ZerosUpdate(r.subPools[b].bitmap, index, false);
    assert q.nonFull[0] == b && q.nonFull[1..] == p.nonFull;
    SumSame(p.nonFull, p.subPools, q.subPools);
    DistinctCons(b, p.nonFull);
  }

  lemma RevivedLive(p: Pool, b: nat, index: nat)
    requires PoolOk(p) && b in p.owned && b !in p.subPools && index < PAGES
    ensures OnlyFree(p, Returned(Revived(p, b), b, index), b * PAGES + index)
  {
    hide Zeros, Without, PoolOk;
    PageParts(b, index);
    forall x: nat | x != b * PAGES + index ensures IsLive(Returned(Revived(p, b), b, index), x) == IsLive(p, x) { PageSplit(x); }
  }

  /** A sub-pool that is free altogether leaves the pool, and its block with it. */
  function Released(p: Pool, b: nat): Pool {
    p.(subPools := map x | x in p.subPools && x != b :: p.subPools[x], nonFull := Without(p.nonFull, b),
       subPoolNum := if p.subPoolNum > 0 then p.subPoolNum - 1 else 0, pageNum := p.pageNum - PAGES, owned := p.owned - {b})
  }

  lemma ReleasedOk(p: Pool, b: nat)
    requires PoolOk(p) && b in p.subPools && p.subPools[b].count == PAGES
    ensures PoolOk(Released(p, b)) && forall page :: IsLive(Released(p, b), page) == IsLive(p, page)
  {
    hide Zeros, Without;
    var q := Released(p, b);
    WithoutIs(p.nonFull, b);
    SumWithout(p.nonFull, p.subPools, b);
    SumSame(q.nonFull, p.subPools, q.subPools);
    ZerosExtremes(p.subPools[b].bitmap);
    forall x: nat ensures IsLive(q, x) == IsLive(p, x) { PageSplit(x); }
  }

  // ---------- when a block goes back ----------

  /** Block `b` has a page nobody has. */
  ghost predicate HasFree(p: Pool, b: nat) { exists page: nat :: page / PAGES == b && IsFree(p, page) }

  ghost function OpenBlocks(p: Pool): set<nat> { set b | b in p.owned && HasFree(p, b) }

  ghost predicate NothingLive(p: Pool, b: nat) { forall page: nat :: page / PAGES == b ==> !IsLive(p, page) }

  /** The sub-pools are those of the blocks with a free page, and the counter counts them. */
  lemma OpenBlocksIs(p: Pool)
    requires PoolOk(p)
    ensures OpenBlocks(p) == p.subPools.Keys && p.subPoolNum == |OpenBlocks(p)|
  {
    hide Zeros, Sum;
    forall b: nat ensures HasFree(p, b) <==> b in p.subPools {
      if b in p.subPools {
        ZerosExtremes(p.subPools[b].bitmap);
        var i :| 0 <= i < PAGES && !p.subPools[b].bitmap[i];
        PageParts(b, i);
        assert IsFree(p, b * PAGES + i);
      }
    }
    assert forall b: nat :: HasFree(p, b) ==> b in p.owned;
    DistinctValues(p.nonFull);
    assert Values(p.nonFull) == p.subPools.Keys;
  }

  lemma NothingLiveIs(p: Pool, b: nat)
    requires PoolOk(p) && b in p.subPools
    ensures NothingLive(p, b) <==> p.subPools[b].count == PAGES
  {
    hide Zeros, Sum;
    var bits := p.subPools[b].bitmap;
    ZerosExtremes(bits);
    forall page: nat | page / PAGES == b ensures IsLive(p, page) <==> bits[page % PAGES] { PageSplit(page); }
    if NothingLive(p, b) {
      forall i | 0 <= i < PAGES ensures !bits[i] {
        PageParts(b, i);
        assert !IsLive(p, b * PAGES + i);
      }
    } else {
      var page: nat :| page / PAGES == b && IsLive(p, page);
      assert bits[page % PAGES];
    }
  }

  /** With the page back, nothing of its block is in use and two other blocks have free pages besides. */
  ghost predicate GoesBack(p: Pool, q: Pool, b: nat) {
    NothingLive(q, b) && |OpenBlocks(p) + {b}| >= 3
  }

  lemma SameLiveGoesBack(p: Pool, m: Pool, q: Pool, b: nat)
    requires forall x :: IsLive(q, x) == IsLive(m, x)
    ensures GoesBack(p, q, b) == GoesBack(p, m, b)
  {
    hide IsLive;
  }

  /** The test of PagePoolFree asks for just that. */
  lemma GoesBackIs(p: Pool, r: Pool, b: nat, index: nat)
    requires PoolOk(p) && index < PAGES
    requires (b !in p.subPools && r == Revived(p, b)) || (b in p.subPools && r == p)
    requires b in r.subPools && index < |r.subPools[b].bitmap| && PoolOk(Returned(r, b, index))
    ensures var m := Returned(r, b, index);
            GoesBack(p, m, b) <==> m.subPools[b].count == PAGES && m.subPoolNum >= 3
  {
    hide PoolOk, NothingLive, Zeros;
    var m := Returned(r, b, index);
    OpenBlocksIs(p);
    OpenBlocksIs(m);
    NothingLiveIs(m, b);
    assert m.subPools.Keys == p.subPools.Keys + {b};
  }

  /** The hinted block when it has a free page, else the first that has one, else a fresh one; then the next page of it. */
  ghost predicate TakenWell(p: Pool, hint: Option<nat>, q: Pool, page: nat)
  {
    var b := page / PAGES;
    if hint.Some? && hint.value / PAGES in p.subPools then b == hint.value / PAGES && TakenNext(p, q, page)
    else if p.nonFull != [] then b == p.nonFull[0] && TakenNext(p, q, page)
    else b !in p.owned && q.owned == p.owned + {b} && page % PAGES == 0
  }

  ghost predicate TakenNext(p: Pool, q: Pool, page: nat) {
    var b := page / PAGES;
    && q.owned == p.owned && b in p.subPools && Sound(p.subPools[b])
    && NextZero(p.subPools[b].bitmap, p.subPools[b].nextIndex, page % PAGES)
  }

  // ---------- the pool as it runs ----------

  class PagePool {
    const blockPool: BP.BlockPool
    const one: array<nat>
    var pool: Pool

    /** Nothing the pool has taken is in the block pool any more. */
    ghost predicate Valid()
      reads this, one, blockPool, blockPool.tree, blockPool.blocksCache
    {
      && blockPool.Valid() && one.Length == 1 && one != blockPool.blocksCache
      && PoolOk(pool)
      && forall b :: b in pool.owned ==> blockPool.Free()[b] == 0
    }

    /** Every block is in the block pool or taken by this pool; neither loses one. */
    ghost function Blocks(): multiset<nat>
      requires blockPool.Valid()
      reads this, blockPool, blockPool.tree, blockPool.blocksCache
    {
      blockPool.Free() + multiset(pool.owned)
    }

    constructor (blocks: BP.BlockPool)
      requires blocks.Valid()
      ensures Valid() && pool == Pool(map[], [], 0, 0, {}) && blockPool == blocks && fresh(one)
    {
      blockPool := blocks;
      one := new nat[1];
      pool := Pool(map[], [], 0, 0, {});
    }

    /** PageSubPoolPrepare and AddPageSubPool: a block from the block pool, all its pages free. */
    method AddSubPool() returns (ok: bool)
      requires Valid() && pool.nonFull == []
      modifies this, one, blockPool, blockPool.tree, blockPool.blocksCache
      ensures Valid() && Blocks() == old(Blocks())
      ensures !ok ==> pool == old(pool) && blockPool.Free() == old(blockPool.Free())
      ensures ok ==> exists b :: b !in old(pool).owned && pool == Added(old(pool), b)
      ensures ok <==> old(blockPool.cachedBlockNum) >= 1 || old(blockPool.tree.nodes) != []
    {
      hide PoolOk, BP.Once, ET.Canonical, BP.TreeBag, BP.BlockPool.Free;
      ghost var free, p := blockPool.Free(), pool;
      var got := blockPool.BlockPoolGet(1, one);
      ok := got > 0;
      if ok {
        var b := one[0];
        assert one[..1] == [b];
        OneTaken(free, b, blockPool.Free(), p.owned);
        AddedOk(pool, b);
        pool := Added(pool, b);
      } else {
        assert one[..0] == [];
      }
    }

    /** AllocPageFromPageSubPool and PageSubPoolAllocated. */
    method TakePage(b: nat) returns (page: nat)
      requires Valid() && b in pool.subPools
      modifies this
      ensures Valid() && OnlyLive(old(pool), pool, page) && page / PAGES == b && pool.owned == old(pool).owned
      ensures var sp := old(pool).subPools[b];
              |sp.bitmap| == PAGES && sp.nextIndex < BITMAP_WORDS && NextZero(sp.bitmap, sp.nextIndex, page % PAGES)
      ensures b in pool.subPools ==> pool.subPools[b].nextIndex == page % PAGES / WORD_BITS
    {
      hide Zeros, Sum, BP.Once, ET.Canonical, BP.TreeBag, NextZero;
      var sp := pool.subPools[b];
      assert Sound(sp);
      var index := BitmapZeroGet(sp.bitmap, sp.nextIndex);
      assert index < PAGES && !sp.bitmap[index] by { ZeroThere(sp.bitmap, sp.nextIndex, index); }
      HandedOk(pool, b, index);
      PageParts(b, index);
      page := b * PAGES + index;
      pool := Handed(pool, b, index);
    }

    /** PagePoolAlloc: a page nobody has, or none when there is no block left. */
    method PagePoolAlloc() returns (page: Option<nat>)
      requires Valid()
      modifies this, one, blockPool, blockPool.tree, blockPool.blocksCache
      ensures Valid() && Blocks() == old(Blocks())
      ensures page.Some? ==> OnlyLive(old(pool), pool, page.value)
      ensures page.None? ==> pool == old(pool) && blockPool.Free() == old(blockPool.Free())
      ensures page.Some? ==> TakenWell(old(pool), None, pool, page.value)
      ensures page.None? <==> old(pool).nonFull == [] && old(blockPool.cachedBlockNum) == 0 && old(blockPool.tree.nodes) == []
    {
      hide PoolOk, OnlyLive, Added, BP.Once, ET.Canonical, BP.TreeBag, NextZero, Sound;
      ghost var p := pool;
      if |pool.nonFull| == 0 {
        var ok := AddSubPool();
        if !ok {
          return None;
        }
        ghost var b :| b !in p.owned && pool == Added(p, b);
        AddedFirst(p, b);
      }
      ghost var m := pool;
      FirstInTree(m);
      var taken := TakePage(pool.nonFull[0]);
      LiveChain(p, m, pool, taken);
      if p.nonFull == [] {
        FreshFirst(taken);
      }
      return Some(taken);
    }

    /**
      PagePoolAllocWithHint: a page of the hinted block when it has a free one; none
      exactly when PagePoolAlloc has none.
     */
    method PagePoolAllocWithHint(hint: Option<nat>) returns (page: Option<nat>)
      requires Valid()
      modifies this, one, blockPool, blockPool.tree, blockPool.blocksCache
      ensures Valid() && Blocks() == old(Blocks())
      ensures page.Some? ==> OnlyLive(old(pool), pool, page.value)
      ensures page.None? ==> pool == old(pool) && blockPool.Free() == old(blockPool.Free())
      ensures page.Some? ==> TakenWell(old(pool), hint, pool, page.value)
      ensures page.None? <==> old(pool).nonFull == [] && old(blockPool.cachedBlockNum) == 0 && old(blockPool.tree.nodes) == []
      ensures hint.Some? && hint.value / PAGES in old(pool).subPools ==> page.Some? && page.value / PAGES == hint.value / PAGES
    {
      hide PoolOk, OnlyLive, BP.Once, ET.Canonical, BP.TreeBag, NextZero, Sound;
      if hint.Some? && hint.value / PAGES in pool.subPools {
        SubPoolListed(pool, hint.value / PAGES);
        var taken := TakePage(hint.value / PAGES);
        return Some(taken);
      }
      page := PagePoolAlloc();
    }

    /** The block of an empty sub-pool goes back (PageSubPoolDeprecate). */
    method ReleaseBlock(b: nat)
      requires Valid() && b in pool.subPools && pool.subPools[b].count == PAGES
      modifies this, one, blockPool, blockPool.tree, blockPool.blocksCache
      ensures Valid() && Blocks() == old(Blocks()) && pool == Released(old(pool), b)
      ensures blockPool.Free() == old(blockPool.Free()) + multiset{b}
    {
      hide Zeros, Sum, BP.Once, ET.Canonical, BP.TreeBag;
      ghost var free, p := blockPool.Free(), pool;
      ReleasedOk(pool, b);
      pool := Released(pool, b);
      one[0] := b;
      assert one[..1] == [b] && multiset(one[..1]) == multiset{b};
      OneGiven(free, b, p.owned);
      blockPool.BlockPoolPut(1, one);
    }

    /**
      PagePoolFree: the page is free again, and its block is the first to be looked at
      when it had none.  The block goes back to the block pool exactly when no page of
      it is in use and three blocks, this one included, have free pages.
     */
    method PagePoolFree(page: nat)
      requires Valid() && IsLive(pool, page)
      modifies this, one, blockPool, blockPool.tree, blockPool.blocksCache
      ensures Valid() && Blocks() == old(Blocks()) && OnlyFree(old(pool), pool, page)
      ensures var b := page / PAGES;
              if GoesBack(old(pool), pool, b) then
                pool.owned == old(pool).owned - {b} && blockPool.Free() == old(blockPool.Free()) + multiset{b}
              else
                pool.owned == old(pool).owned && blockPool.Free() == old(blockPool.Free())
      ensures var b := page / PAGES;
              pool.nonFull == if GoesBack(old(pool), pool, b) then Without(old(pool).nonFull, b)
                              else if b in old(pool).nonFull then old(pool).nonFull else [b] + old(pool).nonFull
      ensures page / PAGES in pool.subPools ==> pool.subPools[page / PAGES].nextIndex == page % PAGES / WORD_BITS
    {
      hide Zeros, Sum, OnlyFree, BP.Once, ET.Canonical, BP.TreeBag, Sound, GoesBack, Without;
      var block, index := page / PAGES, page % PAGES;
      PageSplit(page);
      ghost var p := pool;
      if block !in pool.subPools {
        RevivedReturnedOk(pool, block, index);
        pool := Revived(pool, block);
      } else {
        SetBit(pool, page);
        ReturnedOk(pool, block, index);
      }
      assert |pool.subPools[block].bitmap| == PAGES by { BitmapLength(p, pool, block); }
      GoesBackIs(p, pool, block, index);
      pool := Returned(pool, block, index);
      ghost var m := pool;
      if pool.subPools[block].count == PAGES && pool.subPoolNum >= 3 {
        ReleasedOk(pool, block);
        ReleaseBlock(block);
        FreeChain(p, m, pool, page);
        SameLiveGoesBack(p, m, pool, block);
      }
    }
  }

  lemma ZeroThere(bitmap: seq<bool>, start: nat, index: nat)
    requires |bitmap| == PAGES && start < BITMAP_WORDS && NextZero(bitmap, start, index)
    ensures index < PAGES && !bitmap[index]
  {
  }

  lemma BitmapLength(p: Pool, q: Pool, b: nat)
    requires PoolOk(p) && ((b !in p.subPools && q == Revived(p, b)) || (b in p.subPools && q == p))
    ensures b in q.subPools && |q.subPools[b].bitmap| == PAGES
  {
  }

  lemma SetBit(p: Pool, page: nat)
    requires PoolOk(p) && IsLive(p, page) && page / PAGES in p.subPools
    ensures |p.subPools[page / PAGES].bitmap| == PAGES && p.subPools[page / PAGES].bitmap[page % PAGES]
  {
    assert Sound(p.subPools[page / PAGES]);
  }

  lemma SubPoolListed(p: Pool, b: nat)
    requires PoolOk(p) && b in p.subPools
    ensures p.nonFull != [] && Sound(p.subPools[b])
  {
  }

  lemma FirstInTree(p: Pool)
    requires PoolOk(p) && p.nonFull != []
    ensures p.nonFull[0] in p.subPools && Sound(p.subPools[p.nonFull[0]])
  {
  }

  lemma AddedFirst(p: Pool, b: nat)
    requires PoolOk(p) && b !in p.owned
    ensures p.nonFull == [] ==> Added(p, b).nonFull == [b]
    ensures b in Added(p, b).subPools && Added(p, b).subPools[b] == SubPool(seq(PAGES, _ => false), PAGES, 0)
    ensures Added(p, b).owned == p.owned + {b}
    ensures Added(p, b).nonFull != [] && forall page :: IsLive(Added(p, b), page) == IsLive(p, page)
  {
    AddedOk(p, b);
  }

  lemma FreshFirst(page: nat)
    requires NextZero(seq(PAGES, _ => false), 0, page % PAGES)
    ensures page % PAGES == 0
  {
    var bits, i := seq(PAGES, _ => false), page % PAGES;
    assert !bits[0] && !WordFull(bits, Scanned(0, 0));
    var j :| 0 <= j < BITMAP_WORDS && Scanned(0, j) == i / WORD_BITS && forall k :: 0 <= k < j ==> WordFull(bits, Scanned(0, k));
    assert j == 0;
  }

  lemma LiveChain(p: Pool, m: Pool, q: Pool, page: nat)
    requires (forall x :: IsLive(m, x) == IsLive(p, x)) && OnlyLive(m, q, page)
    ensures OnlyLive(p, q, page)
  {
  }

  lemma FreeChain(p: Pool, m: Pool, q: Pool, page: nat)
    requires OnlyFree(p, m, page) && forall x :: IsLive(q, x) == IsLive(m, x)
    ensures OnlyFree(p, q, page)
  {
  }

  /** A block that comes out of the block pool is not one the page pool has. */
  lemma OneTaken(free: multiset<nat>, b: nat, now: multiset<nat>, owned: set<nat>)
    requires multiset([b]) + now == free && BP.Once(free) && forall x :: x in owned ==> free[x] == 0
    ensures b !in owned && now[b] == 0 && (forall x :: x in owned ==> now[x] == 0)
    ensures now + multiset(owned + {b}) == free + multiset(owned)
  {
    assert free[b] == multiset([b])[b] + now[b];
    forall x | x in owned ensures now[x] == 0 { assert free[x] == multiset([b])[x] + now[x]; }
    forall x ensures (now + multiset(owned + {b}))[x] == (free + multiset(owned))[x] { assert free[x] == multiset([b])[x] + now[x]; }
  }

  lemma OneGiven(free: multiset<nat>, b: nat, owned: set<nat>)
    requires b in owned && BP.Once(free) && forall x :: x in owned ==> free[x] == 0
    ensures BP.Once(free + multiset([b])) && (forall x :: x in owned - {b} ==> (free + multiset([b]))[x] == 0)
    ensures free + multiset([b]) + multiset(owned - {b}) == free + multiset(owned)
  {
    forall x ensures (free + multiset([b]))[x] <= 1 { assert free[b] == 0; }
    forall x ensures (free + multiset([b]) + multiset(owned - {b}))[x] == (free + multiset(owned))[x] {}
  }

  // ---------- recovery ----------

  /** The block PagePoolRecoveryNotifyPageBusy reports: it shifts the page number as if it were an address. */
  function ReportedBlock(page: nat): nat { page / 0x20_0000 }

  /** The report names the page's own block only in the first block. */
  lemma ReportsOwnBlockIff(page: nat)
    ensures ReportedBlock(page) == page / PAGES <==> page < PAGES
  {
  }

  /**
    Busy pages of two blocks below page 0x20_0000 report the same block, 0.  The second
    report does not leave a tree of free blocks to recover from.
   */
  lemma SecondReportFails(nodes: seq<ET.Extent>, p: nat, q: nat)
    requires p / PAGES != q / PAGES && p < 0x20_0000 && q < 0x20_0000
    requires ET.Canonical(nodes) && ET.Fresh(nodes, ReportedBlock(p), ReportedBlock(p) + 1)
    ensures var once := ET.Put(nodes, ReportedBlock(p), ReportedBlock(p) + 1);
            ET.Canonical(once)
            && (!ET.Startable(once, ReportedBlock(q)) || !ET.Canonical(ET.Put(once, ReportedBlock(q), ReportedBlock(q) + 1)))
  {
    hide ET.Canonical, ET.Put, ET.Fresh, ET.Startable;
    BP.ReportedTwice(nodes, 0);
  }
}
