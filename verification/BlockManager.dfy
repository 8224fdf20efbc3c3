/** Swaps and splits as the block and page managers run them, on mutable tables. */
module BlockManager {
  import opened Nvm
  import opened SwapMedium
  import opened PageUnmapTable
  import opened Remap
  import opened RemapRuns

  /** The same three numbers, in some order. */
  predicate Rearranged(a: seq<nat>, b: seq<nat>) {
    && |a| == 3 && |b| == 3
    && ((a[0] == b[0] && a[1] == b[1] && a[2] == b[2]) || (a[0] == b[0] && a[1] == b[2] && a[2] == b[1])
        || (a[0] == b[1] && a[1] == b[0] && a[2] == b[2]) || (a[0] == b[1] && a[1] == b[2] && a[2] == b[0])
        || (a[0] == b[2] && a[1] == b[0] && a[2] == b[1]) || (a[0] == b[2] && a[1] == b[1] && a[2] == b[0]))
  }

  lemma SwapRearranged(a: seq<nat>, b: seq<nat>, j: nat)
    requires Rearranged(a, b) && j < 2
    ensures Rearranged(a[j := a[j + 1]][j + 1 := a[j]], b)
  {
  }

  /** SortBlocks: the lock order of a three-way swap. */
  method SortBlocks(blocks: array<nat>)
    requires blocks.Length == 3
    modifies blocks
    ensures blocks[0] <= blocks[1] <= blocks[2]
    ensures Rearranged(blocks[..], old(blocks[..]))
  {
    hide Rearranged;
    ghost var was := blocks[..];
    assert Rearranged(was, was) by { SameRearranged(was); }
    var i := 0;
    while i < 2
      invariant 0 <= i <= 2 && Rearranged(blocks[..], was)
      invariant i >= 1 ==> blocks[0] <= blocks[2] && blocks[1] <= blocks[2]
      invariant i == 2 ==> blocks[0] <= blocks[1]
    {
      var j := 0;
      while j < 2 - i
        invariant 0 <= j <= 2 - i && Rearranged(blocks[..], was)
        invariant i == 1 ==> blocks[0] <= blocks[2] && blocks[1] <= blocks[2]
        invariant j == 1 ==> blocks[0] <= blocks[1]
        invariant j == 2 ==> blocks[0] <= blocks[2] && blocks[1] <= blocks[2]
      {
        if blocks[j] > blocks[j + 1] {
          ghost var before := blocks[..];
          SwapRearranged(before, was, j);
          var tmp := blocks[j];
          blocks[j] := blocks[j + 1];
          blocks[j + 1] := tmp;
          assert blocks[..] == before[j := before[j + 1]][j + 1 := before[j]];
        }
        j := j + 1;
      }
      i := i + 1;
    }
  }

  lemma SameRearranged(a: seq<nat>)
    requires |a| == 3
    ensures Rearranged(a, a)
  {
  }

  class Managers {
    var blocks: seq<seq<byte>>
    var unmap: seq<Unmap>
    var groups: seq<Group>
    var entries: seq<BlockEntry>
    var tmpArea: seq<byte>

    ghost function Abs(): State
      reads this
    {
      State(blocks, unmap, groups, entries)
    }

    constructor (initial: seq<seq<byte>>, pageTables: seq<Group>)
      requires |pageTables| == |initial| && forall b :: 0 <= b < |initial| ==> |initial[b]| == SIZE_2M
      ensures Abs() == Formatted(initial, pageTables) && Inv(Abs())
    {
      FormattedIsSound(initial, pageTables);
      var s := Formatted(initial, pageTables);
      blocks, unmap, groups, entries, tmpArea := s.blocks, s.unmap, s.groups, s.entries, [];
    }

    /** BlockSwapFast, between lock and unlock. */
    method BlockSwapFast(blockA: nat, blockB: nat)
      requires Inv(Abs()) && TwoBlocks(Abs(), blockA, blockB)
      modifies this`blocks, this`unmap, this`entries
      ensures Abs() == FastSwapped(old(Abs()), blockA, blockB) && Inv(Abs())
      ensures BlocksExchanged(old(Abs()), Abs(), blockA, blockB)
      ensures blocks == old(blocks)[blockB := old(blocks[blockA])]
    {
      hide AllPagesInverse;
      ghost var s := Abs();
      FastKeepsInv(s, blockA, blockB);
      FastMoves(s, blockA, blockB);
      var infoA, infoB := unmap[blockA], unmap[blockB];
      blocks := blocks[blockB := blocks[blockA]];
      unmap := unmap[blockA := infoB];
      unmap := unmap[blockB := infoA];
      var la, lb := infoA.unmapBlock, infoB.unmapBlock;
      assert la != lb;
      var indexA, indexB := entries[la].physBlock, entries[lb].physBlock;
      entries := entries[la := entries[la].(physBlock := indexB)];
      entries := entries[lb := entries[lb].(physBlock := indexA)];
    }

    /** BlockSwapSlow, between lock and unlock. */
    method BlockSwapSlow(blockA: nat, blockB: nat, blockC: nat)
      requires Inv(Abs()) && TwoBlocks(Abs(), blockA, blockB) && TwoBlocks(Abs(), blockA, blockC) && TwoBlocks(Abs(), blockB, blockC)
      modifies this`blocks, this`unmap, this`entries
      ensures Abs() == SlowSwapped(old(Abs()), blockA, blockB, blockC) && Inv(Abs())
    {
      hide AllPagesInverse;
      SlowShape(Abs(), blockA, blockB, blockC);
      var infoA, infoB, infoC := unmap[blockA], unmap[blockB], unmap[blockC];
      blocks := blocks[blockC := blocks[blockB]];
      blocks := blocks[blockB := blocks[blockA]];
      unmap := unmap[blockA := infoC];
      unmap := unmap[blockB := infoA];
      unmap := unmap[blockC := infoB];
      var la, lb, lc := infoA.unmapBlock, infoB.unmapBlock, infoC.unmapBlock;
      assert la != lb && la != lc && lb != lc;
      var indexA, indexB, indexC := entries[la].physBlock, entries[lb].physBlock, entries[lc].physBlock;
      entries := entries[la := entries[la].(physBlock := indexB)];
      entries := entries[lb := entries[lb].(physBlock := indexC)];
      entries := entries[lc := entries[lc].(physBlock := indexA)];
    }

    /** PageUnmapTableGet: the logical page in its block. */
    function PageUnmapGet(b: nat, page: nat): Index
      requires HasPage(b, page)
      reads this
    {
      Get(groups[unmap[b].unmapBlock], page)
    }

    /** The page `p` of physical block `c` can be looked up. */
    predicate HasPage(c: nat, p: nat)
      reads this
    {
      c < |unmap| && unmap[c].unmapBlock < |groups| && p < PAGES_PER_BLOCK
    }

    /**
      PageUnmapTableSet: found through the block unmap table.  What is set is what
      PageUnmapGet gives afterwards; every other page of this block, and every page of
      a block whose unmap entry is another, gives what it gave.
     */
    method PageUnmapSet(b: nat, page: nat, value: Index)
      requires HasPage(b, page)
      modifies this`groups
      ensures |groups| == |old(groups)| && PageUnmapGet(b, page) == value
      ensures forall c: nat, p: nat :: HasPage(c, p) && (c != b || p != page) && (c != b ==> unmap[c].unmapBlock != unmap[b].unmapBlock) ==>
                PageUnmapGet(c, p) == old(PageUnmapGet(c, p))
      ensures groups == old(groups)[unmap[b].unmapBlock := Set(old(groups)[unmap[b].unmapBlock], page, value)]
    {
      hide Get, Set;
      var l := unmap[b].unmapBlock;
      SetChangesOne(groups[l], page, value);
      groups := groups[l := Set(groups[l], page, value)];
    }

    /** MapTablePageSwap, on two pages of one logical block. */
    method MapPageSwap(l: nat, pageA: nat, pageB: nat)
      requires l < |entries| && pageA < |entries[l].pages| && pageB < |entries[l].pages| && pageA != pageB
      modifies this`entries
      ensures var e := old(entries)[l];
              entries == old(entries)[l := e.(pages := e.pages[pageA := e.pages[pageA].(relativeIndex := e.pages[pageB].relativeIndex)]
                                                            [pageB := e.pages[pageB].(relativeIndex := e.pages[pageA].relativeIndex)])]
    {
      var mapIndexA, mapIndexB := entries[l].pages[pageA].relativeIndex, entries[l].pages[pageB].relativeIndex;
      entries := entries[l := entries[l].(pages := entries[l].pages[pageA := entries[l].pages[pageA].(relativeIndex := mapIndexB)])];
      entries := entries[l := entries[l].(pages := entries[l].pages[pageB := entries[l].pages[pageB].(relativeIndex := mapIndexA)])];
    }

    /** The tables of SwapPageFast and SwapPageSlow, once the data is in place. */
    method SwapPageTables(b: nat, pageA: nat, pageB: nat, logicPageA: Index, logicPageB: Index, ghost s: State)
      requires Inv(s) && TwoPages(s, b, pageA, pageB) && unmap == s.unmap && groups == s.groups && entries == s.entries
      requires s.unmap[b].unmapBlock < |s.groups|
      requires logicPageA == Get(s.groups[s.unmap[b].unmapBlock], pageA) && logicPageB == Get(s.groups[s.unmap[b].unmapBlock], pageB)
      requires |blocks| == |s.blocks| && b < |blocks| && blocks == s.blocks[b := blocks[b]]
      modifies this`groups, this`entries
      ensures Abs() == PagesSwapped(s, b, pageA, pageB, blocks[b])
    {
      hide Get, Set;
      ghost var l := s.unmap[b].unmapBlock;
      assert PagesInverse(s.entries[l], s.groups[l]);
      PageUnmapSet(b, pageA, logicPageB);
      PageUnmapSet(b, pageB, logicPageA);
      MapPageSwap(unmap[b].unmapBlock, logicPageA, logicPageB);
    }

    method SwapPageFast(b: nat, pageA: nat, pageB: nat)
      requires Inv(Abs()) && TwoPages(Abs(), b, pageA, pageB)
      modifies this`blocks, this`groups, this`entries
      ensures Abs() == PageSwapFast(old(Abs()), b, pageA, pageB) && Inv(Abs())
      ensures PagesExchanged(old(Abs()), Abs(), b, pageA, pageB) && PageCopied(old(blocks[b]), blocks[b], pageA, pageB)
      ensures HasPage(b, pageA) && HasPage(b, pageB)
      ensures PageUnmapGet(b, pageA) == old(PageUnmapGet(b, pageB)) && PageUnmapGet(b, pageB) == old(PageUnmapGet(b, pageA))
    {
      hide AllPagesInverse, Get, Set, WithPage, PageBytes;
      ghost var s := Abs();
      PageFastMoves(s, b, pageA, pageB);
      assert s.unmap[b].unmapBlock < |s.groups|;
      var logicPageA, logicPageB := PageUnmapGet(b, pageA), PageUnmapGet(b, pageB);
      blocks := blocks[b := WithPage(blocks[b], pageB, PageBytes(blocks[b], pageA))];
      PageSwapKeepsInv(s, b, pageA, pageB, blocks[b]);
      SwapPageTables(b, pageA, pageB, logicPageA, logicPageB, s);
    }

    method SwapPageSlow(b: nat, pageA: nat, pageB: nat)
      requires Inv(Abs()) && TwoPages(Abs(), b, pageA, pageB)
      modifies this`blocks, this`groups, this`entries, this`tmpArea
      ensures Abs() == PageSwapSlow(old(Abs()), b, pageA, pageB) && Inv(Abs())
      ensures PagesExchanged(old(Abs()), Abs(), b, pageA, pageB) && BytesExchanged(old(blocks[b]), blocks[b], pageA, pageB)
      ensures HasPage(b, pageA) && HasPage(b, pageB)
      ensures PageUnmapGet(b, pageA) == old(PageUnmapGet(b, pageB)) && PageUnmapGet(b, pageB) == old(PageUnmapGet(b, pageA))
    {
      hide AllPagesInverse, Get, Set, WithPage, PageBytes;
      ghost var s := Abs();
      PageSlowMoves(s, b, pageA, pageB);
      assert s.unmap[b].unmapBlock < |s.groups|;
      var logicPageA, logicPageB := PageUnmapGet(b, pageA), PageUnmapGet(b, pageB);
      tmpArea := PageBytes(blocks[b], pageB);
      blocks := blocks[b := WithPage(blocks[b], pageB, PageBytes(blocks[b], pageA))];
      blocks := blocks[b := WithPage(blocks[b], pageA, tmpArea)];
      PageSwapKeepsInv(s, b, pageA, pageB, blocks[b]);
      SwapPageTables(b, pageA, pageB, logicPageA, logicPageB, s);
    }

    /** BlockManagerSplit: formats the group of the physical block. */
    method BlockManagerSplit(l: nat, stack: Word)
      requires Inv(Abs()) && l < |entries| && !entries[l].fineGrain
      modifies this`unmap, this`groups, this`entries
      ensures exists g :: Identity(g) && Abs() == Split(old(Abs()), l, g)
      ensures Inv(Abs()) <==> FormatFits(old(Abs()), l)
    {
      hide AllPagesInverse, Identity, FormatFits, WholePages;
      ghost var s := Abs();
      entries := entries[l := entries[l].(fineGrain := true, pages := WholePages())];
      var b := entries[l].physBlock;
      var info := unmap[b].(fineGrain := true);
      var g := BatchFormat(groups[b], stack);
      groups := groups[b := g];
      unmap := unmap[b := info];
      assert Abs() == Split(s, l, g);
      SplitKeepsInvIff(s, l, g);
    }

    /** BlockManagerWrite, between lock and unlock. */
    method BlockManagerWrite(l: nat, offset: nat, data: seq<byte>)
      requires Inv(Abs()) && Allowed(Abs(), Write(l, offset, data))
      modifies this`blocks, this`entries
      ensures Abs() == Do(old(Abs()), Write(l, offset, data)) && Inv(Abs())
    {
      hide AllPagesInverse;
      WriteKeeps(Abs(), map[], l, offset, data);
      var physBlock := entries[l].physBlock;
      entries := entries[l := entries[l].(busy := true)];
      blocks := blocks[physBlock := StoreAt(blocks[physBlock], offset, data)];
    }
  }
}
