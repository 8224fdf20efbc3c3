/**
  The remapping of logical blocks and pages, as values: what swaps, splits and
  writes do to the tables and the data, and what readers see of it.
 */
module Remap {
  import opened Nvm
  import opened SwapMedium
  import opened PageUnmapTable

  const SIZE_4K: nat := 4096

  datatype PageEntry = PageEntry(relativeIndex: nat, busy: bool)

  /** A map table entry; `pages` counts only when the block is split. */
  datatype BlockEntry = BlockEntry(physBlock: nat, fineGrain: bool, busy: bool, pages: seq<PageEntry>)

  /** An entry of the block unmap table. */
  datatype Unmap = Unmap(unmapBlock: nat, fineGrain: bool)

  datatype State = State(blocks: seq<seq<byte>>, unmap: seq<Unmap>, groups: seq<Group>, entries: seq<BlockEntry>)

  predicate Shape(s: State) {
    && |s.unmap| == |s.blocks| && |s.groups| == |s.blocks| && |s.entries| == |s.blocks|
    && forall b :: 0 <= b < |s.blocks| ==> |s.blocks[b]| == SIZE_2M
  }

  /** Block map and block unmap table undo each other, both ways, and agree on what is split. */
  ghost predicate BlocksInverse(s: State)
    requires Shape(s)
  {
    && (forall l :: 0 <= l < |s.entries| ==> s.entries[l].physBlock < |s.unmap| && s.unmap[s.entries[l].physBlock].unmapBlock == l)
    && (forall b :: 0 <= b < |s.unmap| ==>
          && s.unmap[b].unmapBlock < |s.entries| && s.entries[s.unmap[b].unmapBlock].physBlock == b
          && s.entries[s.unmap[b].unmapBlock].fineGrain == s.unmap[b].fineGrain)
  }

  /** Page map and packed group of a split block undo each other, both ways. */
  ghost predicate PagesInverse(e: BlockEntry, g: Group) {
    e.fineGrain ==>
      && |e.pages| == PAGES_PER_BLOCK
      && (forall i :: 0 <= i < PAGES_PER_BLOCK ==> e.pages[i].relativeIndex < PAGES_PER_BLOCK && Get(g, e.pages[i].relativeIndex) == i)
      && (forall j :: 0 <= j < PAGES_PER_BLOCK ==> e.pages[Get(g, j)].relativeIndex == j)
  }

  ghost predicate AllPagesInverse(s: State)
    requires Shape(s)
  {
    forall l :: 0 <= l < |s.entries| ==> PagesInverse(s.entries[l], s.groups[l])
  }

  ghost predicate Inv(s: State) {
    Shape(s) && BlocksInverse(s) && AllPagesInverse(s)
  }

  // ---------- what a reader sees ----------

  /** MapTableQuery within the block: the offset a byte has in the physical block. */
  function PhysOffset(e: BlockEntry, off: nat): nat
    requires e.fineGrain ==> off / SIZE_4K < |e.pages|
  {
    if e.fineGrain then e.pages[off / SIZE_4K].relativeIndex * SIZE_4K + off % SIZE_4K else off
  }

  lemma PageOfOffset(off: nat)
    requires off < SIZE_2M
    ensures off / SIZE_4K < PAGES_PER_BLOCK
  {
  }

  lemma PhysOffsetFits(e: BlockEntry, g: Group, off: nat)
    requires PagesInverse(e, g) && off < SIZE_2M
    ensures e.fineGrain ==> off / SIZE_4K < |e.pages|
    ensures PhysOffset(e, off) < SIZE_2M
  {
    PageOfOffset(off);
  }

  ghost predicate Address(s: State, l: nat, off: nat) { l < |s.entries| && off < SIZE_2M }

  ghost function ByteAt(s: State, l: nat, off: nat): byte
    requires Inv(s) && Address(s, l, off)
  {
    PhysOffsetFits(s.entries[l], s.groups[l], off);
    s.blocks[s.entries[l].physBlock][PhysOffset(s.entries[l], off)]
  }

  /** MapTableIsBlockBusy and MapTableIsPageBusy: somebody wrote there. */
  predicate Busy(e: BlockEntry, off: nat) {
    if e.fineGrain then off / SIZE_4K < |e.pages| && e.pages[off / SIZE_4K].busy else e.busy
  }

  // ---------- block swaps ----------

  ghost predicate TwoBlocks(s: State, a: nat, b: nat) { a < |s.blocks| && b < |s.blocks| && a != b }

  /** BlockSwapFast: the old bytes go to block `b`; what `b` held is lost. */
  ghost function FastSwapped(s: State, a: nat, b: nat): State
    requires Inv(s) && TwoBlocks(s, a, b)
  {
    var la, lb := s.unmap[a].unmapBlock, s.unmap[b].unmapBlock;
    State(s.blocks[b := s.blocks[a]], s.unmap[a := s.unmap[b]][b := s.unmap[a]], s.groups,
          s.entries[la := s.entries[la].(physBlock := b)][lb := s.entries[lb].(physBlock := a)])
  }

  lemma FastKeepsInv(s: State, a: nat, b: nat)
    requires Inv(s) && TwoBlocks(s, a, b)
    ensures Inv(FastSwapped(s, a, b))
  {
    var t := FastSwapped(s, a, b);
    assert AllPagesInverse(t) by {
      forall l | 0 <= l < |t.entries| ensures PagesInverse(t.entries[l], t.groups[l]) {
        assert PagesInverse(s.entries[l], s.groups[l]);
      }
    }
    assert BlocksInverse(t) by { FastBlocksInverse(s, a, b); }
  }

  /** The two blocks have changed places in both tables; nothing is moved between logical blocks. */
  ghost predicate BlocksExchanged(s: State, t: State, a: nat, b: nat)
    requires Inv(s) && TwoBlocks(s, a, b)
  {
    var la, lb := s.unmap[a].unmapBlock, s.unmap[b].unmapBlock;
    && t.groups == s.groups && |t.unmap| == |s.unmap| && |t.entries| == |s.entries|
    && (forall c :: 0 <= c < |s.unmap| ==> t.unmap[c] == s.unmap[if c == a then b else if c == b then a else c])
    && (forall l :: 0 <= l < |s.entries| ==>
          t.entries[l] == s.entries[l].(physBlock := if l == la then b else if l == lb then a else s.entries[l].physBlock))
  }

  /** What a fast swap comes to: the tables exchanged, the bytes of `a` in both blocks, no other block touched. */
  lemma FastMoves(s: State, a: nat, b: nat)
    requires Inv(s) && TwoBlocks(s, a, b)
    ensures var t := FastSwapped(s, a, b);
            && BlocksExchanged(s, t, a, b) && |t.blocks| == |s.blocks|
            && forall c :: 0 <= c < |s.blocks| ==> t.blocks[c] == s.blocks[if c == b then a else c]
  {
    hide AllPagesInverse;
  }

  lemma FastBlocksInverse(s: State, a: nat, b: nat)
    requires Inv(s) && TwoBlocks(s, a, b)
    ensures Shape(FastSwapped(s, a, b)) && BlocksInverse(FastSwapped(s, a, b))
  {
    hide AllPagesInverse, PagesInverse;
  }

  /** Every byte reads as before but those of the block that was in `b`, which read what `a` had. */
  lemma FastReads(s: State, a: nat, b: nat, l: nat, off: nat)
    requires Inv(s) && TwoBlocks(s, a, b) && Address(s, l, off)
    ensures Inv(FastSwapped(s, a, b)) && Address(FastSwapped(s, a, b), l, off)
    ensures s.entries[l].fineGrain ==> off / SIZE_4K < |s.entries[l].pages|
    ensures PhysOffset(s.entries[l], off) < SIZE_2M
    ensures ByteAt(FastSwapped(s, a, b), l, off) ==
              if l == s.unmap[b].unmapBlock then s.blocks[a][PhysOffset(s.entries[l], off)] else ByteAt(s, l, off)
    ensures Busy(FastSwapped(s, a, b).entries[l], off) == Busy(s.entries[l], off)
  {
    hide PagesInverse;
    FastKeepsInv(s, a, b);
    PhysOffsetFits(s.entries[l], s.groups[l], off);
  }

  /** The busy bytes of the two states are the same bytes. */
  ghost predicate BusyKept(s: State, t: State)
    requires Inv(s) && Inv(t)
  {
    |t.entries| == |s.entries| &&
    forall l: nat, off: nat :: Address(s, l, off) && Busy(s.entries[l], off) ==> Address(t, l, off) && ByteAt(t, l, off) == ByteAt(s, l, off)
  }

  /** Nothing in use is different in block `from`, where the target's offsets will be read. */
  ghost predicate NothingToLose(s: State, from: nat, target: nat)
    requires Inv(s) && from < |s.blocks| && target < |s.blocks|
  {
    var l := s.unmap[target].unmapBlock;
    forall off: nat :: Address(s, l, off) && Busy(s.entries[l], off) ==>
      PhysOffset(s.entries[l], off) < SIZE_2M && s.blocks[from][PhysOffset(s.entries[l], off)] == ByteAt(s, l, off)
  }

  /** A fast swap keeps every byte in use exactly when the target had none that the source lacks. */
  lemma FastKeepsBusyIff(s: State, a: nat, b: nat)
    requires Inv(s) && TwoBlocks(s, a, b)
    ensures Inv(FastSwapped(s, a, b))
    ensures BusyKept(s, FastSwapped(s, a, b)) <==> NothingToLose(s, a, b)
  {
    hide BlocksInverse, AllPagesInverse, ByteAt, Busy, FastSwapped;
    FastKeepsInv(s, a, b);
    var t, lb := FastSwapped(s, a, b), s.unmap[b].unmapBlock;
    assert lb < |s.entries| && |t.entries| == |s.entries| by { TargetInRange(s, a, b); }
    forall l: nat, off: nat | Address(s, l, off)
      ensures s.entries[l].fineGrain ==> off / SIZE_4K < |s.entries[l].pages|
      ensures PhysOffset(s.entries[l], off) < SIZE_2M
      ensures ByteAt(t, l, off) == if l == lb then s.blocks[a][PhysOffset(s.entries[l], off)] else ByteAt(s, l, off)
    {
      FastReads(s, a, b, l, off);
    }
  }

  lemma TargetInRange(s: State, a: nat, b: nat)
    requires Inv(s) && TwoBlocks(s, a, b)
    ensures s.unmap[b].unmapBlock < |s.entries| && |FastSwapped(s, a, b).entries| == |s.entries|
  {
    hide AllPagesInverse;
  }

  /** BlockSwapSlow: `b` to `c`, `a` to `b`; what `c` held is lost. */
  ghost function SlowSwapped(s: State, a: nat, b: nat, c: nat): State
    requires Inv(s) && TwoBlocks(s, a, b) && TwoBlocks(s, a, c) && TwoBlocks(s, b, c)
  {
    var la, lb, lc := s.unmap[a].unmapBlock, s.unmap[b].unmapBlock, s.unmap[c].unmapBlock;
    State(s.blocks[c := s.blocks[b]][b := s.blocks[a]], s.unmap[a := s.unmap[c]][b := s.unmap[a]][c := s.unmap[b]], s.groups,
          s.entries[la := s.entries[la].(physBlock := b)][lb := s.entries[lb].(physBlock := c)][lc := s.entries[lc].(physBlock := a)])
  }

  /** A slow swap is two fast ones: first `b` moves to `c`, then `a` to `b`. */
  lemma SlowIsTwoFast(s: State, a: nat, b: nat, c: nat)
    requires Inv(s) && TwoBlocks(s, a, b) && TwoBlocks(s, a, c) && TwoBlocks(s, b, c)
    ensures Inv(FastSwapped(s, b, c)) && TwoBlocks(FastSwapped(s, b, c), a, b)
    ensures SlowSwapped(s, a, b, c) == FastSwapped(FastSwapped(s, b, c), a, b)
  {
    hide AllPagesInverse;
    FastKeepsInv(s, b, c);
    var m := FastSwapped(s, b, c);
    var la, lb, lc := s.unmap[a].unmapBlock, s.unmap[b].unmapBlock, s.unmap[c].unmapBlock;
    assert la != lb && la != lc && lb != lc;
    var t := FastSwapped(m, a, b);
    assert t.blocks == SlowSwapped(s, a, b, c).blocks;
    assert t.unmap == SlowSwapped(s, a, b, c).unmap;
    assert t.entries == SlowSwapped(s, a, b, c).entries;
  }

  /** What it comes to: `a` to `b`, `b` to `c`, and the tables of the three go round with the bytes. */
  lemma SlowMoves(s: State, a: nat, b: nat, c: nat)
    requires Inv(s) && TwoBlocks(s, a, b) && TwoBlocks(s, a, c) && TwoBlocks(s, b, c)
    ensures var t := SlowSwapped(s, a, b, c);
            && t.groups == s.groups && |t.blocks| == |s.blocks| && |t.unmap| == |s.unmap| && |t.entries| == |s.entries|
            && (forall x :: 0 <= x < |s.blocks| ==> t.blocks[x] == s.blocks[if x == b then a else if x == c then b else x])
            && (forall x :: 0 <= x < |s.unmap| ==> t.unmap[x] == s.unmap[if x == a then c else if x == b then a else if x == c then b else x])
            && (forall l :: 0 <= l < |s.entries| ==>
                  var x := s.entries[l].physBlock;
                  t.entries[l] == s.entries[l].(physBlock := if x == a then b else if x == b then c else if x == c then a else x))
  {
    hide AllPagesInverse;
    var la, lb, lc := s.unmap[a].unmapBlock, s.unmap[b].unmapBlock, s.unmap[c].unmapBlock;
    assert la != lb && la != lc && lb != lc;
  }

  lemma SlowReads(s: State, a: nat, b: nat, c: nat, l: nat, off: nat)
    requires Inv(s) && TwoBlocks(s, a, b) && TwoBlocks(s, a, c) && TwoBlocks(s, b, c) && Address(s, l, off)
    ensures Inv(SlowSwapped(s, a, b, c)) && Address(SlowSwapped(s, a, b, c), l, off)
    ensures s.entries[l].fineGrain ==> off / SIZE_4K < |s.entries[l].pages|
    ensures PhysOffset(s.entries[l], off) < SIZE_2M
    ensures ByteAt(SlowSwapped(s, a, b, c), l, off) ==
              if l == s.unmap[c].unmapBlock then s.blocks[a][PhysOffset(s.entries[l], off)] else ByteAt(s, l, off)
    ensures Busy(SlowSwapped(s, a, b, c).entries[l], off) == Busy(s.entries[l], off)
  {
    hide AllPagesInverse, SlowSwapped;
    SlowIsTwoFast(s, a, b, c);
    var m := FastSwapped(s, b, c);
    FastReads(s, b, c, l, off);
    FastReads(m, a, b, l, off);
    assert PhysOffset(m.entries[l], off) == PhysOffset(s.entries[l], off);
    assert s.unmap[a].unmapBlock != s.unmap[c].unmapBlock;
  }

  /** A slow swap keeps every byte in use exactly when the last block had none that the first lacks. */
  lemma SlowKeepsBusyIff(s: State, a: nat, b: nat, c: nat)
    requires Inv(s) && TwoBlocks(s, a, b) && TwoBlocks(s, a, c) && TwoBlocks(s, b, c)
    ensures Inv(SlowSwapped(s, a, b, c))
    ensures BusyKept(s, SlowSwapped(s, a, b, c)) <==> NothingToLose(s, a, c)
  {
    hide BlocksInverse, AllPagesInverse, ByteAt, Busy, SlowSwapped;
    var t, lc := SlowSwapped(s, a, b, c), s.unmap[c].unmapBlock;
    assert Inv(t) && |t.entries| == |s.entries| && lc < |s.entries| by { SlowShape(s, a, b, c); }
    forall l: nat, off: nat | Address(s, l, off)
      ensures s.entries[l].fineGrain ==> off / SIZE_4K < |s.entries[l].pages|
      ensures PhysOffset(s.entries[l], off) < SIZE_2M
      ensures ByteAt(t, l, off) == if l == lc then s.blocks[a][PhysOffset(s.entries[l], off)] else ByteAt(s, l, off)
    {
      SlowReads(s, a, b, c, l, off);
    }
  }

  lemma SlowShape(s: State, a: nat, b: nat, c: nat)
    requires Inv(s) && TwoBlocks(s, a, b) && TwoBlocks(s, a, c) && TwoBlocks(s, b, c)
    ensures Inv(SlowSwapped(s, a, b, c)) && |SlowSwapped(s, a, b, c).entries| == |s.entries|
    ensures s.unmap[c].unmapBlock < |s.entries|
  {
    hide AllPagesInverse;
    SlowIsTwoFast(s, a, b, c);
    FastKeepsInv(FastSwapped(s, b, c), a, b);
  }

  // ---------- page swaps inside a split block ----------

  /** Physical pages `p` and `q` of physical block `b`, which is split. */
  ghost predicate TwoPages(s: State, b: nat, p: nat, q: nat)
    requires Inv(s)
  {
    b < |s.blocks| && s.unmap[b].fineGrain && p < PAGES_PER_BLOCK && q < PAGES_PER_BLOCK && p != q
  }

  function PageBytes(block: seq<byte>, p: nat): (c: seq<byte>)
    requires |block| == SIZE_2M && p < PAGES_PER_BLOCK
    ensures |c| == SIZE_4K
  {
    block[p * SIZE_4K..p * SIZE_4K + SIZE_4K]
  }

  function WithPage(block: seq<byte>, p: nat, c: seq<byte>): (r: seq<byte>)
    requires |block| == SIZE_2M && p < PAGES_PER_BLOCK && |c| == SIZE_4K
    ensures |r| == SIZE_2M
  {
    Splice(block, p * SIZE_4K, c)
  }

  lemma PageByte(block: seq<byte>, p: nat, c: seq<byte>, q: nat, i: nat)
    requires |block| == SIZE_2M && p < PAGES_PER_BLOCK && q < PAGES_PER_BLOCK && |c| == SIZE_4K && i < SIZE_4K
    ensures q * SIZE_4K + i < SIZE_2M
    ensures WithPage(block, p, c)[q * SIZE_4K + i] == if q == p then c[i] else block[q * SIZE_4K + i]
    ensures PageBytes(block, q)[i] == block[q * SIZE_4K + i]
  {
    if q < p {
      assert q * SIZE_4K + i < p * SIZE_4K;
    } else if q > p {
      assert q * SIZE_4K >= p * SIZE_4K + SIZE_4K;
    }
  }

  /** The page tables after a page swap: MapTablePageSwap and two PageUnmapTableSets. */
  ghost function PagesSwapped(s: State, b: nat, p: nat, q: nat, block: seq<byte>): State
    requires Inv(s) && TwoPages(s, b, p, q)
  {
    var l := s.unmap[b].unmapBlock;
    assert PagesInverse(s.entries[l], s.groups[l]);
    var g, e := s.groups[l], s.entries[l];
    var lp, lq := Get(g, p), Get(g, q);
    s.(blocks := s.blocks[b := block],
       groups := s.groups[l := Set(Set(g, p, lq), q, lp)],
       entries := s.entries[l := e.(pages := e.pages[lp := e.pages[lp].(relativeIndex := q)][lq := e.pages[lq].(relativeIndex := p)])])
  }

  ghost function PageSwapFast(s: State, b: nat, p: nat, q: nat): State
    requires Inv(s) && TwoPages(s, b, p, q)
  {
    PagesSwapped(s, b, p, q, WithPage(s.blocks[b], q, PageBytes(s.blocks[b], p)))
  }

  ghost function PageSwapSlow(s: State, b: nat, p: nat, q: nat): State
    requires Inv(s) && TwoPages(s, b, p, q)
  {
    var block := s.blocks[b];
    PagesSwapped(s, b, p, q, WithPage(WithPage(block, q, PageBytes(block, p)), p, PageBytes(block, q)))
  }

  lemma SwappedPagesInverse(e: BlockEntry, g: Group, p: nat, q: nat)
    requires PagesInverse(e, g) && e.fineGrain && p < PAGES_PER_BLOCK && q < PAGES_PER_BLOCK && p != q
    ensures var lp, lq := Get(g, p), Get(g, q);
            PagesInverse(e.(pages := e.pages[lp := e.pages[lp].(relativeIndex := q)][lq := e.pages[lq].(relativeIndex := p)]),
                         Set(Set(g, p, lq), q, lp))
  {
    hide Get, Set;
    SetChangesOne(g, p, Get(g, q));
    SetChangesOne(Set(g, p, Get(g, q)), q, Get(g, p));
  }

  /** Swapping two pages keeps both pairs of tables inverse. */
  lemma PageSwapKeepsInv(s: State, b: nat, p: nat, q: nat, block: seq<byte>)
    requires Inv(s) && TwoPages(s, b, p, q) && |block| == SIZE_2M
    ensures Inv(PagesSwapped(s, b, p, q, block))
  {
    hide PagesInverse, Get, Set;
    var l, t := s.unmap[b].unmapBlock, PagesSwapped(s, b, p, q, block);
    assert PagesInverse(s.entries[l], s.groups[l]);
    SwappedPagesInverse(s.entries[l], s.groups[l], p, q);
    forall k | 0 <= k < |t.entries| ensures PagesInverse(t.entries[k], t.groups[k]) {
      assert PagesInverse(s.entries[k], s.groups[k]);
    }
  }

  /**
    The page tables have changed places: the group gives each of the two physical pages
    the logical page the other had, the map finds each of these logical pages on the
    other physical page, and everything else is as it was.
   */
  ghost predicate PagesExchanged(s: State, t: State, b: nat, p: nat, q: nat)
    requires Inv(s) && TwoPages(s, b, p, q)
  {
    var l := s.unmap[b].unmapBlock;
    && t.unmap == s.unmap && |t.groups| == |s.groups| && |t.entries| == |s.entries| && |t.blocks| == |s.blocks|
    && (forall k :: 0 <= k < PAGES_PER_BLOCK ==>
          Get(t.groups[l], k) == Get(s.groups[l], if k == p then q else if k == q then p else k))
    && |t.entries[l].pages| == |s.entries[l].pages| && t.entries[l].(pages := s.entries[l].pages) == s.entries[l]
    && (forall i :: 0 <= i < |s.entries[l].pages| ==>
          && t.entries[l].pages[i].busy == s.entries[l].pages[i].busy
          && t.entries[l].pages[i].relativeIndex == if i == Get(s.groups[l], p) then q
                                                    else if i == Get(s.groups[l], q) then p
                                                    else s.entries[l].pages[i].relativeIndex)
    && (forall m :: 0 <= m < |s.groups| && m != l ==> t.groups[m] == s.groups[m] && t.entries[m] == s.entries[m])
    && (forall c :: 0 <= c < |s.blocks| && c != b ==> t.blocks[c] == s.blocks[c])
  }

  lemma SwappedExchanged(s: State, b: nat, p: nat, q: nat, block: seq<byte>)
    requires Inv(s) && TwoPages(s, b, p, q) && |block| == SIZE_2M
    ensures PagesExchanged(s, PagesSwapped(s, b, p, q, block), b, p, q)
  {
    hide Get, Set;
    var l := s.unmap[b].unmapBlock;
    assert PagesInverse(s.entries[l], s.groups[l]);
    var lp, lq := Get(s.groups[l], p), Get(s.groups[l], q);
    SetChangesOne(s.groups[l], p, lq);
    SetChangesOne(Set(s.groups[l], p, lq), q, lp);
  }

  /** The page `q` of the block holds what `p` held, and every other page what it held. */
  ghost predicate PageCopied(block: seq<byte>, after: seq<byte>, p: nat, q: nat)
    requires |block| == SIZE_2M && p < PAGES_PER_BLOCK && q < PAGES_PER_BLOCK
  {
    |after| == SIZE_2M
    && forall k :: 0 <= k < PAGES_PER_BLOCK ==> PageBytes(after, k) == PageBytes(block, if k == q then p else k)
  }

  /** The two pages hold each what the other held, and every other page what it held. */
  ghost predicate BytesExchanged(block: seq<byte>, after: seq<byte>, p: nat, q: nat)
    requires |block| == SIZE_2M && p < PAGES_PER_BLOCK && q < PAGES_PER_BLOCK
  {
    |after| == SIZE_2M
    && forall k :: 0 <= k < PAGES_PER_BLOCK ==>
         PageBytes(after, k) == PageBytes(block, if k == p then q else if k == q then p else k)
  }

  lemma WithPageIs(block: seq<byte>, p: nat, c: seq<byte>, k: nat)
    requires |block| == SIZE_2M && p < PAGES_PER_BLOCK && k < PAGES_PER_BLOCK && |c| == SIZE_4K
    ensures PageBytes(WithPage(block, p, c), k) == if k == p then c else PageBytes(block, k)
  {
    hide WithPage, PageBytes;
    var x, y := PageBytes(WithPage(block, p, c), k), if k == p then c else PageBytes(block, k);
    forall i | 0 <= i < SIZE_4K ensures x[i] == y[i] {
      PageByte(block, p, c, k, i);
      PageByte(WithPage(block, p, c), p, c, k, i);
    }
  }

  lemma CopyIs(block: seq<byte>, p: nat, q: nat)
    requires |block| == SIZE_2M && p < PAGES_PER_BLOCK && q < PAGES_PER_BLOCK && p != q
    ensures PageCopied(block, WithPage(block, q, PageBytes(block, p)), p, q)
    ensures BytesExchanged(block, WithPage(WithPage(block, q, PageBytes(block, p)), p, PageBytes(block, q)), p, q)
  {
    hide WithPage, PageBytes;
    var half := WithPage(block, q, PageBytes(block, p));
    forall k | 0 <= k < PAGES_PER_BLOCK
      ensures PageBytes(half, k) == PageBytes(block, if k == q then p else k)
      ensures PageBytes(WithPage(half, p, PageBytes(block, q)), k) == PageBytes(block, if k == p then q else if k == q then p else k)
    {
      WithPageIs(block, q, PageBytes(block, p), k);
      WithPageIs(half, p, PageBytes(block, q), k);
    }
  }

  /** What a fast page swap comes to, table by table and page by page. */
  lemma PageFastMoves(s: State, b: nat, p: nat, q: nat)
    requires Inv(s) && TwoPages(s, b, p, q)
    ensures var t := PageSwapFast(s, b, p, q);
            PagesExchanged(s, t, b, p, q) && PageCopied(s.blocks[b], t.blocks[b], p, q)
  {
    hide PagesExchanged, PageCopied, WithPage, PageBytes, Get, Set, PagesInverse;
    SwappedExchanged(s, b, p, q, WithPage(s.blocks[b], q, PageBytes(s.blocks[b], p)));
    CopyIs(s.blocks[b], p, q);
  }

  /** And a slow one: the bytes change places as the tables do. */
  lemma PageSlowMoves(s: State, b: nat, p: nat, q: nat)
    requires Inv(s) && TwoPages(s, b, p, q)
    ensures var t := PageSwapSlow(s, b, p, q);
            PagesExchanged(s, t, b, p, q) && BytesExchanged(s.blocks[b], t.blocks[b], p, q)
  {
    hide PagesExchanged, BytesExchanged, WithPage, PageBytes, Get, Set, PagesInverse;
    var block := s.blocks[b];
    SwappedExchanged(s, b, p, q, WithPage(WithPage(block, q, PageBytes(block, p)), p, PageBytes(block, q)));
    CopyIs(block, p, q);
  }

  /** The physical page a logical page of a split block is found on, after the swap. */
  lemma SwappedOffset(s: State, b: nat, p: nat, q: nat, block: seq<byte>, off: nat)
    requires Inv(s) && TwoPages(s, b, p, q) && |block| == SIZE_2M && off < SIZE_2M
    ensures var l, t := s.unmap[b].unmapBlock, PagesSwapped(s, b, p, q, block);
            && l < |s.entries| && l < |t.entries| && off / SIZE_4K < |s.entries[l].pages| && off / SIZE_4K < |t.entries[l].pages|
            && s.entries[l].fineGrain && t.entries[l].fineGrain && t.entries[l].physBlock == b == s.entries[l].physBlock
            && var r := s.entries[l].pages[off / SIZE_4K].relativeIndex;
            && r < PAGES_PER_BLOCK
            && t.entries[l].pages[off / SIZE_4K].relativeIndex == (if r == p then q else if r == q then p else r)
            && t.entries[l].pages[off / SIZE_4K].busy == s.entries[l].pages[off / SIZE_4K].busy
  {
    hide Get, Set;
    PageOfOffset(off);
    var l := s.unmap[b].unmapBlock;
    assert PagesInverse(s.entries[l], s.groups[l]);
  }

  /** After a fast page swap only the logical page that was on `q` reads other bytes: those of the other page. */
  lemma PageFastReads(s: State, b: nat, p: nat, q: nat, l: nat, off: nat)
    requires Inv(s) && TwoPages(s, b, p, q) && Address(s, l, off)
    ensures Inv(PageSwapFast(s, b, p, q)) && Address(PageSwapFast(s, b, p, q), l, off)
    ensures !(l == s.unmap[b].unmapBlock && off / SIZE_4K == Get(s.groups[l], q)) ==>
              ByteAt(PageSwapFast(s, b, p, q), l, off) == ByteAt(s, l, off)
    ensures l == s.unmap[b].unmapBlock && off / SIZE_4K == Get(s.groups[l], q) ==>
              p * SIZE_4K + off % SIZE_4K < SIZE_2M &&
              ByteAt(PageSwapFast(s, b, p, q), l, off) == s.blocks[b][p * SIZE_4K + off % SIZE_4K]
    ensures Busy(PageSwapFast(s, b, p, q).entries[l], off) == Busy(s.entries[l], off)
  {
    hide WithPage, PageBytes, Get, Set;
    var block := s.blocks[b];
    var new_ := WithPage(block, q, PageBytes(block, p));
    PageSwapKeepsInv(s, b, p, q, new_);
    if l == s.unmap[b].unmapBlock {
      SwappedOffset(s, b, p, q, new_, off);
      var r := s.entries[l].pages[off / SIZE_4K].relativeIndex;
      GetOfRelative(s, l, off, q);
      PageByte(block, q, PageBytes(block, p), r, off % SIZE_4K);
      PageByte(block, q, PageBytes(block, p), p, off % SIZE_4K);
      PageByte(block, q, PageBytes(block, p), q, off % SIZE_4K);
    }
  }

  lemma GetOfRelative(s: State, l: nat, off: nat, q: nat)
    requires Inv(s) && Address(s, l, off) && s.entries[l].fineGrain && q < PAGES_PER_BLOCK
    ensures off / SIZE_4K < |s.entries[l].pages|
    ensures s.entries[l].pages[off / SIZE_4K].relativeIndex == q <==> off / SIZE_4K == Get(s.groups[l], q)
  {
    hide Get;
    PageOfOffset(off);
    assert PagesInverse(s.entries[l], s.groups[l]);
  }

  /** A slow page swap is not seen at all. */
  lemma PageSlowReads(s: State, b: nat, p: nat, q: nat, l: nat, off: nat)
    requires Inv(s) && TwoPages(s, b, p, q) && Address(s, l, off)
    ensures Inv(PageSwapSlow(s, b, p, q)) && Address(PageSwapSlow(s, b, p, q), l, off)
    ensures ByteAt(PageSwapSlow(s, b, p, q), l, off) == ByteAt(s, l, off)
    ensures Busy(PageSwapSlow(s, b, p, q).entries[l], off) == Busy(s.entries[l], off)
  {
    hide WithPage, PageBytes, Get, Set;
    var block := s.blocks[b];
    var half := WithPage(block, q, PageBytes(block, p));
    var new_ := WithPage(half, p, PageBytes(block, q));
    PageSwapKeepsInv(s, b, p, q, new_);
    if l == s.unmap[b].unmapBlock {
      SwappedOffset(s, b, p, q, new_, off);
      var r, i := s.entries[l].pages[off / SIZE_4K].relativeIndex, off % SIZE_4K;
      var x := if r == p then q else if r == q then p else r;
      PageByte(block, q, PageBytes(block, p), x, i);
      PageByte(block, q, PageBytes(block, p), r, i);
      PageByte(half, p, PageBytes(block, q), x, i);
    }
  }
}
