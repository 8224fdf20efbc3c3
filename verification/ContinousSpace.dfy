/** Growing a chained stream, counting its pages and giving them back. */
module ContinousSpace {
  import opened Wrappers
  import opened Nvm
  import opened ChainedSpace
  import opened Permutations
  import opened PageSource

  const U64: nat := 0x1_0000_0000_0000_0000

  /** Unsigned 64-bit wrap-around. */
  function Wrap64(n: int): nat { n % U64 }

  function AlignUp(size: nat, align: nat): nat
    requires align > 0
  {
    (size + (align - 1)) / align * align
  }

  // ---------- prefixes of a chain ----------

  lemma ChainPrefix(mem: seq<byte>, chain: seq<nat>, ext: seq<nat>)
    requires Chain(|mem|, chain + ext)
    ensures Chain(|mem|, chain)
    ensures Linked(mem, chain + ext) ==> Linked(mem, chain)
    ensures Capacity(chain) <= Capacity(chain + ext)
    ensures forall o :: 0 <= o < Capacity(chain) ==> Locate(chain + ext, o) == Locate(chain, o)
    ensures Stream(mem, chain) == Stream(mem, chain + ext)[..Capacity(chain)]
  {
    assert forall i :: 0 <= i < |chain| ==> (chain + ext)[i] == chain[i];
    forall o | 0 <= o < Capacity(chain)
      ensures Locate(chain + ext, o) == Locate(chain, o)
    {
      assert o / BODY_SIZE < |chain|;
    }
  }

  // ---------- linking new pages ----------

  ghost function LastBefore(last: nat, pages: seq<nat>): nat
    requires pages != []
  {
    if |pages| == 1 then last else pages[|pages| - 2]
  }

  /** The link stores that append `pages` behind page `last`, first to last. */
  ghost function LinkStores(last: nat, pages: seq<nat>): (r: seq<Store>)
    ensures |r| == |pages|
    decreases |pages|
  {
    if pages == [] then []
    else
      var n := |pages| - 1;
      LinkStores(last, pages[..n]) + [Store(LastBefore(last, pages), ToLE(pages[n], LINK_SIZE))]
  }

  lemma {:induction false} LinkStoresPrefix(last: nat, pages: seq<nat>, k: nat)
    requires k <= |pages|
    ensures LinkStores(last, pages)[..k] == LinkStores(last, pages[..k])
    decreases |pages|
  {
    hide ToLE, LastBefore;
    if k < |pages| {
      var n := |pages| - 1;
      LinkStoresPrefix(last, pages[..n], k);
      var a, b := LinkStores(last, pages[..n]), [Store(LastBefore(last, pages), ToLE(pages[n], LINK_SIZE))];
      assert LinkStores(last, pages) == a + b && (a + b)[..k] == a[..k];
      assert pages[..n][..k] == pages[..k];
    } else {
      assert pages[..k] == pages;
    }
  }

  /** One more link: the chain is one page longer. */
  lemma LinkOne(mem: seq<byte>, chain: seq<nat>, page: nat)
    requires Linked(mem, chain) && chain != [] && Chain(|mem|, chain + [page])
    ensures Linked(Splice(mem, chain[|chain| - 1], ToLE(page, LINK_SIZE)), chain + [page])
  {
    hide Pow256, FromLE, ToLE;
    var last := |chain| - 1;
    var after := Splice(mem, chain[last], ToLE(page, LINK_SIZE));
    forall i | 0 <= i < |chain|
      ensures PageLink(after, chain[i]) == (chain + [page])[i + 1]
    {
      if i < last {
        OtherLinkKept(mem, chain, i, ToLE(page, LINK_SIZE));
      } else {
        assert (chain + [page])[|chain|] == page;
        NewLinkReads(mem, chain[last], page);
      }
    }
  }

  lemma NewLinkReads(mem: seq<byte>, at: nat, page: nat)
    requires page < ADDRESS_LIMIT && at + LINK_SIZE <= |mem|
    ensures PageLink(Splice(mem, at, ToLE(page, LINK_SIZE)), at) == page
  {
    hide FromLE, ToLE;
    Pow256Word();
    LERoundTrip(page, LINK_SIZE);
    assert Splice(mem, at, ToLE(page, LINK_SIZE))[at..at + LINK_SIZE] == ToLE(page, LINK_SIZE);
  }

  lemma OtherLinkKept(mem: seq<byte>, chain: seq<nat>, i: nat, link: seq<byte>)
    requires Linked(mem, chain) && i < |chain| - 1 && |link| == LINK_SIZE
    ensures PageLink(Splice(mem, chain[|chain| - 1], link), chain[i]) == chain[i + 1]
  {
    hide FromLE;
    var after := Splice(mem, chain[|chain| - 1], link);
    PagesApart(|mem|, chain, i, |chain| - 1);
    assert after[chain[i]..chain[i] + LINK_SIZE] == mem[chain[i]..chain[i] + LINK_SIZE];
  }

  lemma PagesApart(size: nat, chain: seq<nat>, i: nat, j: nat)
    requires Chain(size, chain) && i < |chain| && j < |chain| && i != j
    ensures chain[i] + PAGE_SIZE <= chain[j] || chain[j] + PAGE_SIZE <= chain[i]
  {
    assert chain[i] % PAGE_SIZE == 0 && chain[j] % PAGE_SIZE == 0 && chain[i] != chain[j];
  }

  /** A store to the link of some page changes no body byte. */
  lemma LinkKeepsStream(mem: seq<byte>, chain: seq<nat>, page: nat, data: seq<byte>)
    requires Chain(|mem|, chain) && page % PAGE_SIZE == 0 && |data| == LINK_SIZE && page + LINK_SIZE <= |mem|
    ensures Stream(Splice(mem, page, data), chain) == Stream(mem, chain)
  {
    hide Locate;
    var after := Splice(mem, page, data);
    forall o | 0 <= o < Capacity(chain)
      ensures Stream(after, chain)[o] == Stream(mem, chain)[o]
    {
      LocateFacts(|mem|, chain, o);
      LinkByteOffset(page, Locate(chain, o));
    }
  }

  lemma LinkByteOffset(page: nat, a: nat)
    requires page % PAGE_SIZE == 0
    ensures page <= a < page + LINK_SIZE ==> a % PAGE_SIZE < LINK_SIZE
  {
  }

  lemma {:induction false} LinkStoresEffect(mem: seq<byte>, chain: seq<nat>, pages: seq<nat>)
    requires Linked(mem, chain) && chain != [] && Chain(|mem|, chain + pages)
    ensures InBounds(|mem|, LinkStores(chain[|chain| - 1], pages))
    ensures var after := Apply(mem, LinkStores(chain[|chain| - 1], pages));
            Linked(after, chain + pages)
            && forall c :: Chain(|mem|, c) ==> Stream(after, c) == Stream(mem, c)
    decreases |pages|
  {
    var last := chain[|chain| - 1];
    if pages == [] {
      assert chain + pages == chain;
    } else {
      LinkStoresEffectStep(mem, chain, pages);
    }
  }

  lemma {:induction false} LinkStoresEffectStep(mem: seq<byte>, chain: seq<nat>, pages: seq<nat>)
    requires Linked(mem, chain) && chain != [] && pages != [] && Chain(|mem|, chain + pages)
    ensures InBounds(|mem|, LinkStores(chain[|chain| - 1], pages))
    ensures var after := Apply(mem, LinkStores(chain[|chain| - 1], pages));
            Linked(after, chain + pages)
            && forall c :: Chain(|mem|, c) ==> Stream(after, c) == Stream(mem, c)
    decreases |pages|, 0
  {
    hide Locate, Stream, Splice, PageLink;
    var last := chain[|chain| - 1];
    var n := |pages| - 1;
    var sofar := chain + pages[..n];
    assert chain + pages == sofar + [pages[n]];
    ChainPrefix(mem, sofar, [pages[n]]);
    LinkStoresEffect(mem, chain, pages[..n]);
    var mid := Apply(mem, LinkStores(last, pages[..n]));
    LinkOne(mid, sofar, pages[n]);
    var at := LastBefore(last, pages);
    assert at == sofar[|sofar| - 1];
    var link := Store(at, ToLE(pages[n], LINK_SIZE));
    ApplySingle(mid, link);
    ApplyConcat(mem, LinkStores(last, pages[..n]), [link]);
    forall c | Chain(|mem|, c)
      ensures Stream(Splice(mid, at, ToLE(pages[n], LINK_SIZE)), c) == Stream(mem, c)
    {
      LinkKeepsStream(mid, c, at, ToLE(pages[n], LINK_SIZE));
    }
  }

  // ---------- the page bookkeeping of one stream ----------

  /** Pages the allocator may hand out: usable in a chain and not already in it. */
  ghost predicate Usable(size: nat, chain: seq<nat>, free: set<nat>) {
    && (forall p :: p in free ==> p % PAGE_SIZE == 0 && p + PAGE_SIZE <= size)
    && (forall i :: 0 <= i < |chain| ==> chain[i] !in free)
  }

  ghost function Elements(s: seq<nat>): set<nat> { set x | x in s }

  lemma ExtendChain(size: nat, chain: seq<nat>, free: set<nat>, pages: seq<nat>)
    requires Chain(size, chain) && Usable(size, chain, free) && Distinct(pages) && Elements(pages) <= free
    ensures Chain(size, chain + pages)
    ensures Usable(size, chain + pages, free - Elements(pages))
  {
    forall i | 0 <= i < |pages|
      ensures pages[i] in free
    {
      assert pages[i] in Elements(pages);
    }
  }

  function PagesNeeded(rest: nat, size: nat): nat {
    if rest >= size then 0 else AlignUp(size - rest, BODY_SIZE) / BODY_SIZE
  }

  method AllocAreas(pool: PageSource, pageNum: nat) returns (pages: Option<seq<nat>>)
    modifies pool
    ensures pages.None? <==> |old(pool.free)| < pageNum
    ensures pages.None? ==> pool.free == old(pool.free)
    ensures pages.Some? ==> |pages.value| == pageNum && Distinct(pages.value)
    ensures pages.Some? ==> Elements(pages.value) <= old(pool.free) && pool.free == old(pool.free) - Elements(pages.value)
    ensures pages.Some? ==> |pool.free| == |old(pool.free)| - pageNum
  {
    hide Elements, Distinct;
    var arr: seq<nat> := [];
    NoneTaken(pool.free);
    while |arr| < pageNum
      invariant |arr| <= pageNum && Distinct(arr)
      invariant Elements(arr) <= old(pool.free) && pool.free == old(pool.free) - Elements(arr)
    {
      var page := pool.Alloc();
      ElementsCount(arr, old(pool.free));
      if page.None? {
        ReturnAreas(pool, arr);
        return None;
      }
      OneMoreTaken(arr, old(pool.free), page.value);
      arr := arr + [page.value];
    }
    ElementsCount(arr, old(pool.free));
    pages := Some(arr);
  }

  /** As few pages as are enough. */
  lemma PagesLeast(rest: nat, size: nat, k: nat)
    ensures PagesNeeded(rest, size) <= k <==> size <= rest + k * BODY_SIZE
  {
    if rest < size {
      var missing := size - rest;
      var n := PagesNeeded(rest, size);
      assert missing <= n * BODY_SIZE < missing + BODY_SIZE by {
        assert AlignUp(missing, BODY_SIZE) == n * BODY_SIZE by { assert AlignUp(missing, BODY_SIZE) % BODY_SIZE == 0; }
      }
      if k >= n {
        assert k * BODY_SIZE >= n * BODY_SIZE;
      } else {
        assert k * BODY_SIZE <= (n - 1) * BODY_SIZE;
      }
    }
  }

  lemma NeedIs(rest: nat, size: nat)
    ensures rest < size ==> PagesNeeded(rest, size) == AlignUp(size - rest, BODY_SIZE) / BODY_SIZE > 0
  {
  }

  lemma NoLinks(mem: seq<byte>, last: nat)
    ensures LinkStores(last, []) == [] && Stored(mem, [], mem) && Elements([]) == {}
  {
    ApplyNone(mem);
  }

  lemma NoneTaken(free: set<nat>)
    ensures Distinct([]) && Elements([]) == {} && free - {} == free
  {
  }

  lemma OneMoreTaken(arr: seq<nat>, free: set<nat>, page: nat)
    requires Distinct(arr) && Elements(arr) <= free && page in free - Elements(arr)
    ensures Distinct(arr + [page]) && Elements(arr + [page]) <= free
    ensures free - Elements(arr) - {page} == free - Elements(arr + [page])
  {
    assert Elements(arr + [page]) == Elements(arr) + {page};
    assert page !in Elements(arr);
  }

  /** Distinct pages of a set are as many as the list is long, and all of them when no other is left. */
  lemma ElementsCount(arr: seq<nat>, free: set<nat>)
    requires Distinct(arr) && Elements(arr) <= free
    ensures |Elements(arr)| == |arr| && |arr| + |free - Elements(arr)| == |free|
  {
    DistinctValues(arr);
    assert Elements(arr) == Values(arr);
    assert free == Elements(arr) + (free - Elements(arr));
  }

  /** The failure path of AllocAreas: give back what was taken, newest first. */
  method ReturnAreas(pool: PageSource, arr: seq<nat>)
    modifies pool
    ensures pool.free == old(pool.free) + Elements(arr)
  {
    var i := |arr|;
    while i > 0
      invariant 0 <= i <= |arr|
      invariant pool.free == old(pool.free) + Elements(arr[i..])
    {
      i := i - 1;
      pool.Free(arr[i]);
      assert arr[i..] == [arr[i]] + arr[i + 1..];
      assert Elements(arr[i..]) == {arr[i]} + Elements(arr[i + 1..]);
    }
  }

  /** The loop of LinkAreas: each new page is linked behind the one before. */
  method StoreLinks(dev: Device, pages: seq<nat>, last: nat, ghost chain: seq<nat>)
    requires dev.Valid() && chain != [] && Chain(dev.mem.Length, chain + pages) && last == chain[|chain| - 1]
    modifies dev, dev.mem
    ensures dev.Valid() && dev.trace == old(dev.trace) + LinkStores(last, pages)
  {
    hide Apply, Splice, Chain, InBounds;
    var lastArea := last;
    var i := 0;
    while i < |pages|
      invariant 0 <= i <= |pages|
      invariant lastArea == if i == 0 then last else pages[i - 1]
      invariant dev.Valid() && dev.trace == old(dev.trace) + LinkStores(last, pages[..i])
    {
      assert pages[..i + 1][..i] == pages[..i];
      assert LastBefore(last, pages[..i + 1]) == lastArea;
      LinkAreaFits(dev.mem.Length, chain, pages, i);
      dev.Write(lastArea, ToLE(pages[i], LINK_SIZE));
      lastArea := pages[i];
      i := i + 1;
    }
    assert pages[..i] == pages;
  }

  class ContinousSpace {
    var firstArea: nat
    var restSize: nat
    var areaNum: nat
    ghost var chain: seq<nat>

    ghost predicate Valid(mem: seq<byte>, free: set<nat>)
      reads this
    {
      && Linked(mem, chain) && Usable(|mem|, chain, free)
      && chain != [] && firstArea == chain[0] && areaNum == |chain|
    }

    constructor ()
    {
      firstArea, restSize, areaNum := 0, 0, 0;
      chain := [];
    }

    method Format(pool: PageSource, ghost size: nat) returns (err: bool)
      requires size <= ADDRESS_LIMIT && Usable(size, [], pool.free)
      modifies this, pool
      ensures err <==> old(pool.free) == {}
      ensures err ==> unchanged(this) && pool.free == old(pool.free)
      ensures !err ==> chain == [firstArea] && areaNum == 1 && restSize == BODY_SIZE
      ensures !err ==> Chain(size, chain) && Usable(size, chain, pool.free)
      ensures !err ==> firstArea in old(pool.free) && pool.free == old(pool.free) - {firstArea}
    {
      var addr := pool.Alloc();
      if addr.None? {
        return true;
      }
      firstArea, areaNum, restSize := addr.value, 1, PAGE_SIZE - LINK_SIZE;
      chain := [addr.value];
      err := false;
    }

    method LinkAreas(dev: Device, pages: seq<nat>, start: nat, ghost free: set<nat>)
      requires dev.Valid() && Valid(dev.mem[..], free) && Distinct(pages) && Elements(pages) <= free
      requires CurrentAreaOfAddr(start) == chain[|chain| - 1]
      modifies this, dev, dev.mem
      ensures dev.Valid() && Valid(dev.mem[..], free - Elements(pages))
      ensures chain == old(chain) + pages && firstArea == old(firstArea)
      ensures restSize == Wrap64(old(restSize) + |pages| * BODY_SIZE)
      ensures dev.trace == old(dev.trace) + LinkStores(old(chain)[|old(chain)| - 1], pages)
      ensures Stored(old(dev.mem[..]), LinkStores(old(chain)[|old(chain)| - 1], pages), dev.mem[..])
    {
      hide Locate, Stream, Apply, Splice, Linked, Usable, Distinct, InBounds, LinkStores, Wrap64;
      var grown := Wrap64(restSize + |pages| * BODY_SIZE);
      ghost var m0, t0, c0 := dev.mem[..], dev.trace, chain;
      LinkedIsChain(m0, c0);
      ExtendChain(|m0|, c0, free, pages);
      StoreLinks(dev, pages, CurrentAreaOfAddr(start), c0);
      LinkStoresEffect(m0, c0, pages);
      ApplyConcat(dev.base, t0, LinkStores(c0[|c0| - 1], pages));
      areaNum := areaNum + |pages|;
      restSize := grown;
      chain := c0 + pages;
    }

    method EssureEnoughSpace(dev: Device, addr: nat, size: nat, pool: PageSource) returns (err: bool, ghost pages: seq<nat>)
      requires dev.Valid() && Valid(dev.mem[..], pool.free)
      requires CurrentAreaOfAddr(addr) == chain[|chain| - 1]
      modifies this, dev, dev.mem, pool
      ensures dev.Valid() && Valid(dev.mem[..], pool.free)
      ensures err <==> |old(pool.free)| < PagesNeeded(old(restSize), size)
      ensures err ==> unchanged(this, dev, dev.mem) && pool.free == old(pool.free)
      ensures !err ==> |pages| == PagesNeeded(old(restSize), size) && Elements(pages) <= old(pool.free)
      ensures !err ==> chain == old(chain) + pages && firstArea == old(firstArea)
      ensures !err ==> pool.free == old(pool.free) - Elements(pages) && |pool.free| == |old(pool.free)| - |pages|
      ensures !err ==> restSize == if pages == [] then old(restSize) else Wrap64(old(restSize) + |pages| * BODY_SIZE)
      ensures !err ==> dev.trace == old(dev.trace) + LinkStores(old(chain)[|old(chain)| - 1], pages)
      ensures !err ==> Stored(old(dev.mem[..]), LinkStores(old(chain)[|old(chain)| - 1], pages), dev.mem[..])
    {
      hide Locate, Stream, Splice, Linked, Wrap64, Chain, Usable, Elements, LinkStores, Apply, AlignUp, InBounds;
      pages := [];
      NeedIs(restSize, size);
      if restSize >= size {
        NoLinks(dev.mem[..], chain[|chain| - 1]);
        return false, [];
      }
      var pageNum := AlignUp(size - restSize, BODY_SIZE) / BODY_SIZE;
      var areas := AllocAreas(pool, pageNum);
      if areas.None? {
        return true, [];
      }
      LinkAreas(dev, areas.value, addr, old(pool.free));
      return false, areas.value;
    }

    /** Walks the links from the first page to the page of `lastAddr`. */
    method RebuildEnd(dev: Device, lastAddr: nat, ghost pages: seq<nat>, ghost last: nat)
      requires Linked(dev.mem[..], pages) && last < |pages| && firstArea == pages[0]
      requires CurrentAreaOfAddr(lastAddr) == pages[last]
      modifies this
      ensures firstArea == old(firstArea) && chain == pages[..last + 1]
      ensures areaNum == last + 1 && restSize == RestSizeOfCurrentArea(lastAddr)
    {
      hide PageLink;
      var lastArea := CurrentAreaOfAddr(lastAddr);
      areaNum := 1;
      var cur := firstArea;
      while cur != lastArea
        invariant 1 <= areaNum <= last + 1 && cur == pages[areaNum - 1] && firstArea == old(firstArea)
        decreases last + 1 - areaNum
      {
        cur := ReadLink(dev, cur);
        areaNum := areaNum + 1;
      }
      restSize := RestSizeOfCurrentArea(lastAddr);
      chain := pages[..last + 1];
    }

    /** Gives every page of the chain back, once each. */
    method Destroy(dev: Device, pool: PageSource)
      requires Valid(dev.mem[..], pool.free)
      modifies this, pool
      ensures areaNum == 0 && pool.free == old(pool.free) + Elements(old(chain))
    {
      hide PageLink, Elements, Usable;
      var cur := firstArea;
      ghost var i, c, free := 0, chain, pool.free;
      ElementsNone(c);
      while areaNum != 0
        invariant 0 <= i <= |c| && areaNum == |c| - i && Linked(dev.mem[..], c)
        invariant i < |c| ==> cur == c[i]
        invariant pool.free == free + Elements(c[..i])
        decreases areaNum
      {
        var next := ReadLink(dev, cur);
        pool.Free(cur);
        ElementsNext(c, i);
        cur := next;
        areaNum := areaNum - 1;
        i := i + 1;
      }
      assert c[..i] == c;
    }

    method NotifyUsedSpace(size: nat)
      modifies this`restSize
      ensures restSize == Wrap64(old(restSize) - size)
    {
      restSize := Wrap64(restSize - size);
    }
  }

  lemma ElementsNone(c: seq<nat>)
    ensures Elements(c[..0]) == {}
  {
  }

  lemma ElementsNext(c: seq<nat>, i: nat)
    requires i < |c|
    ensures Elements(c[..i + 1]) == Elements(c[..i]) + {c[i]}
  {
    assert c[..i + 1] == c[..i] + [c[i]];
  }

  lemma LinkAreaFits(size: nat, chain: seq<nat>, pages: seq<nat>, i: nat)
    requires Chain(size, chain + pages) && chain != [] && i < |pages|
    ensures var at := if i == 0 then chain[|chain| - 1] else pages[i - 1];
            at % WORD == 0 && at + LINK_SIZE <= size
  {
    var at := if i == 0 then chain[|chain| - 1] else pages[i - 1];
    assert at == (chain + pages)[|chain| + i - 1];
    assert at % PAGE_SIZE == 0;
  }
}
