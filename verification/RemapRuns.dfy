/**
  Runs of writes, trims, splits and swaps: what the users wrote stays where they
  wrote it.
 */
module RemapRuns {
  import opened Nvm
  import opened SwapMedium
  import opened PageUnmapTable
  import opened Remap

  // ---------- splitting ----------

  function WholePages(): (p: seq<PageEntry>)
    ensures |p| == PAGES_PER_BLOCK && forall i :: 0 <= i < |p| ==> p[i] == PageEntry(i, false)
  {
    seq(PAGES_PER_BLOCK, i requires 0 <= i < PAGES_PER_BLOCK => PageEntry(i, false))
  }

  /** BlockManagerSplit.  `g` is the group it formats: the one of the physical block. */
  ghost function Split(s: State, l: nat, g: Group): State
    requires Inv(s) && l < |s.entries|
  {
    var b := s.entries[l].physBlock;
    s.(entries := s.entries[l := s.entries[l].(fineGrain := true, pages := WholePages())],
       groups := s.groups[b := g], unmap := s.unmap[b := s.unmap[b].(fineGrain := true)])
  }

  /** The formatted group is the one that will be looked at, or formatting was needless and harmless. */
  ghost predicate FormatFits(s: State, l: nat)
    requires Inv(s) && l < |s.entries|
  {
    var b := s.entries[l].physBlock;
    b == l || (Identity(s.groups[l]) && (s.entries[b].fineGrain ==> Identity(s.groups[b])))
  }

  lemma WholePagesInverse(e: BlockEntry, g: Group)
    requires e.fineGrain && e.pages == WholePages()
    ensures PagesInverse(e, g) <==> Identity(g)
  {
    hide Get;
    if PagesInverse(e, g) {
      forall k | 0 <= k < PAGES_PER_BLOCK ensures Get(g, k) == k { assert e.pages[k].relativeIndex == k; }
    }
  }

  lemma ReformattedInverse(e: BlockEntry, g: Group, f: Group)
    requires e.fineGrain && PagesInverse(e, g) && Identity(f)
    ensures PagesInverse(e, f) <==> Identity(g)
  {
    hide Get;
    if PagesInverse(e, f) {
      forall k | 0 <= k < PAGES_PER_BLOCK ensures Get(g, k) == k {
        assert e.pages[Get(f, k)].relativeIndex == k;
        assert Get(g, e.pages[k].relativeIndex) == k;
      }
    }
    if Identity(g) {
      forall i | 0 <= i < PAGES_PER_BLOCK ensures e.pages[i].relativeIndex == i { assert e.pages[Get(g, i)].relativeIndex == i; }
    }
  }

  lemma SplitBlocksInverse(s: State, l: nat, g: Group)
    requires Inv(s) && l < |s.entries|
    ensures Shape(Split(s, l, g)) && BlocksInverse(Split(s, l, g))
  {
    hide AllPagesInverse, WholePages;
  }

  /**
    The group is formatted by physical block but read by logical block: a split
    leaves the tables inverse exactly when the two are the same block, or both
    groups happened to be formatted already.
   */
  lemma SplitKeepsInvIff(s: State, l: nat, g: Group)
    requires Inv(s) && l < |s.entries| && !s.entries[l].fineGrain && Identity(g)
    ensures Inv(Split(s, l, g)) <==> FormatFits(s, l)
  {
    hide PagesInverse, WholePages, Identity, BlocksInverse;
    SplitBlocksInverse(s, l, g);
    var t, b := Split(s, l, g), s.entries[l].physBlock;
    assert b < |s.entries| && b < |s.groups| by { PhysInRange(s, l); }
    WholePagesInverse(t.entries[l], t.groups[l]);
    if b != l {
      assert PagesInverse(s.entries[b], s.groups[b]);
      if s.entries[b].fineGrain {
        ReformattedInverse(s.entries[b], s.groups[b], g);
      } else {
        UnsplitInverse(s.entries[b], g);
      }
    }
    if FormatFits(s, l) {
      forall k | 0 <= k < |t.entries| ensures PagesInverse(t.entries[k], t.groups[k]) {
        assert PagesInverse(s.entries[k], s.groups[k]);
      }
    }
    if Inv(t) {
      assert PagesInverse(t.entries[l], t.groups[l]);
      assert PagesInverse(t.entries[b], t.groups[b]);
    }
  }

  lemma PhysInRange(s: State, l: nat)
    requires Inv(s) && l < |s.entries|
    ensures s.entries[l].physBlock < |s.entries| == |s.groups| == |s.blocks|
  {
    hide AllPagesInverse;
  }

  lemma UnsplitInverse(e: BlockEntry, g: Group)
    requires !e.fineGrain
    ensures PagesInverse(e, g)
  {
  }

  // ---------- operations ----------

  datatype Op =
    | Write(block: nat, offset: nat, data: seq<byte>)       // BlockManagerWrite
    | WritePage(block: nat, offset: nat, data: seq<byte>)   // PageManagerWrite
    | Trim(block: nat)                                      // BlockManagerTrim
    | TrimPage(block: nat, page: nat)                       // PageManagerTrim
    | SplitBlock(block: nat, group: Group)
    | SwapFast(a: nat, b: nat)
    | SwapSlow(a: nat, b: nat, c: nat)
    | SwapPageFast(b: nat, p: nat, q: nat)
    | SwapPageSlow(b: nat, p: nat, q: nat)

  /** No byte of the logical block in physical block `b` is in use. */
  ghost predicate Unused(s: State, b: nat)
    requires Inv(s) && b < |s.blocks|
  {
    var l := s.unmap[b].unmapBlock;
    forall off: nat :: Address(s, l, off) ==> !Busy(s.entries[l], off)
  }

  /** What the callers of the operations see to. */
  ghost predicate Allowed(s: State, op: Op)
    requires Inv(s)
  {
    match op
    case Write(l, off, data) => l < |s.entries| && !s.entries[l].fineGrain && off + |data| <= SIZE_2M
    case WritePage(l, off, data) => l < |s.entries| && s.entries[l].fineGrain && off < SIZE_2M && off % SIZE_4K + |data| <= SIZE_4K
    case Trim(l) => l < |s.entries| && !s.entries[l].fineGrain
    case TrimPage(l, i) => l < |s.entries| && s.entries[l].fineGrain && i < PAGES_PER_BLOCK
    case SplitBlock(l, g) => l < |s.entries| && !s.entries[l].fineGrain && Identity(g) && FormatFits(s, l)
    case SwapFast(a, b) => TwoBlocks(s, a, b) && Unused(s, b)
    case SwapSlow(a, b, c) => TwoBlocks(s, a, b) && TwoBlocks(s, a, c) && TwoBlocks(s, b, c) && Unused(s, c)
    case SwapPageFast(b, p, q) =>
      TwoPages(s, b, p, q) &&
      var e := s.entries[s.unmap[b].unmapBlock];
      var i := Get(s.groups[s.unmap[b].unmapBlock], q);
      i < |e.pages| && !e.pages[i].busy
    case SwapPageSlow(b, p, q) => TwoPages(s, b, p, q)
  }

  function StoreAt(block: seq<byte>, at: nat, data: seq<byte>): (r: seq<byte>)
    ensures |r| == |block|
  {
    if at + |data| <= |block| then Splice(block, at, data) else block
  }

  ghost function Do(s: State, op: Op): State
    requires Inv(s) && Allowed(s, op)
  {
    match op
    case Write(l, off, data) =>
      var e := s.entries[l];
      s.(blocks := s.blocks[e.physBlock := StoreAt(s.blocks[e.physBlock], off, data)], entries := s.entries[l := e.(busy := true)])
    case WritePage(l, off, data) =>
      var e, i := s.entries[l], off / SIZE_4K;
      PhysOffsetFits(e, s.groups[l], off);
      s.(blocks := s.blocks[e.physBlock := StoreAt(s.blocks[e.physBlock], PhysOffset(e, off), data)],
         entries := s.entries[l := e.(busy := true, pages := e.pages[i := e.pages[i].(busy := true)])])
    case Trim(l) => s.(entries := s.entries[l := s.entries[l].(busy := false)])
    case TrimPage(l, i) =>
      var e := s.entries[l];
      assert PagesInverse(e, s.groups[l]);
      s.(entries := s.entries[l := e.(pages := e.pages[i := e.pages[i].(busy := false)])])
    case SplitBlock(l, g) => Split(s, l, g)
    case SwapFast(a, b) => FastSwapped(s, a, b)
    case SwapSlow(a, b, c) => SlowSwapped(s, a, b, c)
    case SwapPageFast(b, p, q) => PageSwapFast(s, b, p, q)
    case SwapPageSlow(b, p, q) => PageSwapSlow(s, b, p, q)
  }

  // ---------- the users' memory ----------

  datatype Addr = Addr(block: nat, offset: nat)

  function Range(l: nat, off: nat, n: nat): (r: set<Addr>)
    ensures forall a :: a in r <==> a.block == l && off <= a.offset < off + n
    decreases n
  {
    if n == 0 then {} else Range(l, off, n - 1) + {Addr(l, off + n - 1)}
  }

  function MemWrite(m: map<Addr, byte>, l: nat, off: nat, data: seq<byte>): map<Addr, byte> {
    map a | a in m.Keys + Range(l, off, |data|) ::
      if a.block == l && off <= a.offset < off + |data| then data[a.offset - off] else m[a]
  }

  /** What the users may expect after an operation. */
  function Mem(m: map<Addr, byte>, op: Op): map<Addr, byte> {
    match op
    case Write(l, off, data) => MemWrite(m, l, off, data)
    case WritePage(l, off, data) => MemWrite(m, l, off, data)
    case Trim(l) => map a | a in m && a.block != l :: m[a]
    case TrimPage(l, i) => map a | a in m && !(a.block == l && a.offset / SIZE_4K == i) :: m[a]
    case SplitBlock(l, _) => map a | a in m && a.block != l :: m[a]
    case _ => m
  }

  /** Every byte the users wrote is marked in use and reads back. */
  ghost predicate Keeps(s: State, m: map<Addr, byte>)
    requires Inv(s)
  {
    forall a :: a in m ==> Address(s, a.block, a.offset) && Busy(s.entries[a.block], a.offset) && ByteAt(s, a.block, a.offset) == m[a]
  }

  lemma MemWriteAt(m: map<Addr, byte>, l: nat, off: nat, data: seq<byte>, a: Addr)
    ensures a in MemWrite(m, l, off, data) <==> a in m || (a.block == l && off <= a.offset < off + |data|)
    ensures a in MemWrite(m, l, off, data) ==>
              MemWrite(m, l, off, data)[a] == if a.block == l && off <= a.offset < off + |data| then data[a.offset - off] else m[a]
  {
  }

  // ---------- one operation ----------

  lemma TablesOnly(s: State, t: State)
    requires Inv(s) && |t.blocks| == |s.blocks| && t.unmap == s.unmap && t.groups == s.groups && |t.entries| == |s.entries|
    requires forall b :: 0 <= b < |t.blocks| ==> |t.blocks[b]| == SIZE_2M
    requires forall l :: 0 <= l < |s.entries| ==>
               && t.entries[l].physBlock == s.entries[l].physBlock && t.entries[l].fineGrain == s.entries[l].fineGrain
               && |t.entries[l].pages| == |s.entries[l].pages|
               && forall i :: 0 <= i < |s.entries[l].pages| ==> t.entries[l].pages[i].relativeIndex == s.entries[l].pages[i].relativeIndex
    ensures Inv(t)
  {
    hide Get;
    assert BlocksInverse(t);
    forall l | 0 <= l < |t.entries| ensures PagesInverse(t.entries[l], t.groups[l]) {
      assert PagesInverse(s.entries[l], s.groups[l]);
    }
  }

  lemma WriteKeeps(s: State, m: map<Addr, byte>, l: nat, off: nat, data: seq<byte>)
    requires Inv(s) && Keeps(s, m) && Allowed(s, Write(l, off, data))
    ensures Inv(Do(s, Write(l, off, data))) && Keeps(Do(s, Write(l, off, data)), Mem(m, Write(l, off, data)))
  {
    hide PagesInverse, MemWrite;
    var t := Do(s, Write(l, off, data));
    TablesOnly(s, t);
    forall a | a in MemWrite(m, l, off, data)
      ensures Address(t, a.block, a.offset) && Busy(t.entries[a.block], a.offset)
              && ByteAt(t, a.block, a.offset) == MemWrite(m, l, off, data)[a]
    {
      MemWriteAt(m, l, off, data, a);
      PhysOffsetFits(s.entries[a.block], s.groups[a.block], a.offset) by { assert PagesInverse(s.entries[a.block], s.groups[a.block]); }
    }
  }

  lemma SameOffset(e: BlockEntry, g: Group, off: nat, o: nat)
    requires PagesInverse(e, g) && e.fineGrain && off < SIZE_2M && o < SIZE_2M
    ensures off / SIZE_4K < |e.pages| && o / SIZE_4K < |e.pages|
    ensures PhysOffset(e, off) / SIZE_4K < PAGES_PER_BLOCK && PhysOffset(e, off) % SIZE_4K == off % SIZE_4K
    ensures PhysOffset(e, off) == PhysOffset(e, off - off % SIZE_4K) + off % SIZE_4K
    ensures PhysOffset(e, off) / SIZE_4K == PhysOffset(e, o) / SIZE_4K <==> off / SIZE_4K == o / SIZE_4K
  {
    hide Get;
    PageOfOffset(off);
    PageOfOffset(o);
    var i, j := off / SIZE_4K, o / SIZE_4K;
    assert e.pages[i].relativeIndex == e.pages[j].relativeIndex ==> i == j;
  }

  /** Inside the page written, offsets shift along; in every other page they miss it. */
  lemma PageStoreHits(e: BlockEntry, g: Group, off: nat, n: nat, o: nat)
    requires PagesInverse(e, g) && e.fineGrain && off < SIZE_2M && off % SIZE_4K + n <= SIZE_4K && o < SIZE_2M
    ensures off / SIZE_4K < |e.pages| && o / SIZE_4K < |e.pages|
    ensures PhysOffset(e, off) + n <= SIZE_2M
    ensures PhysOffset(e, off) <= PhysOffset(e, o) < PhysOffset(e, off) + n <==> off <= o < off + n
    ensures off <= o < off + n ==> PhysOffset(e, o) - PhysOffset(e, off) == o - off && o / SIZE_4K == off / SIZE_4K
  {
    hide Get, PagesInverse;
    SameOffset(e, g, off, o);
    SameOffset(e, g, o, off);
    SameOffset(e, g, off, off);
  }

  lemma WritePageKeeps(s: State, m: map<Addr, byte>, l: nat, off: nat, data: seq<byte>)
    requires Inv(s) && Keeps(s, m) && Allowed(s, WritePage(l, off, data))
    ensures Inv(Do(s, WritePage(l, off, data))) && Keeps(Do(s, WritePage(l, off, data)), Mem(m, WritePage(l, off, data)))
  {
    hide PagesInverse, MemWrite, PhysOffset;
    assert PagesInverse(s.entries[l], s.groups[l]);
    PageStoreHits(s.entries[l], s.groups[l], off, |data|, off);
    var t := Do(s, WritePage(l, off, data));
    TablesOnly(s, t);
    forall a | a in MemWrite(m, l, off, data)
      ensures Address(t, a.block, a.offset) && Busy(t.entries[a.block], a.offset)
              && ByteAt(t, a.block, a.offset) == MemWrite(m, l, off, data)[a]
    {
      MemWriteAt(m, l, off, data, a);
      assert a.offset < SIZE_2M by { WrittenInBlock(off, |data|, a.offset); }
      assert PagesInverse(s.entries[a.block], s.groups[a.block]);
      SameEntryOffset(s.entries[a.block], t.entries[a.block], s.groups[a.block], a.offset);
      if a.block == l {
        PageStoreHits(s.entries[l], s.groups[l], off, |data|, a.offset);
      }
    }
  }

  lemma WrittenInBlock(off: nat, n: nat, o: nat)
    requires off < SIZE_2M && off % SIZE_4K + n <= SIZE_4K
    ensures off <= o < off + n ==> o < SIZE_2M
  {
  }

  lemma SameEntryOffset(e: BlockEntry, f: BlockEntry, g: Group, off: nat)
    requires PagesInverse(e, g) && off < SIZE_2M && f.fineGrain == e.fineGrain && |f.pages| == |e.pages|
    requires forall i :: 0 <= i < |e.pages| ==> f.pages[i].relativeIndex == e.pages[i].relativeIndex
    ensures e.fineGrain ==> off / SIZE_4K < |e.pages|
    ensures PhysOffset(f, off) == PhysOffset(e, off) < SIZE_2M
  {
    PhysOffsetFits(e, g, off);
  }

  lemma TrimKeeps(s: State, m: map<Addr, byte>, op: Op)
    requires Inv(s) && Keeps(s, m) && Allowed(s, op) && (op.Trim? || op.TrimPage?)
    ensures Inv(Do(s, op)) && Keeps(Do(s, op), Mem(m, op))
  {
    hide PagesInverse, PhysOffset;
    assert PagesInverse(s.entries[op.block], s.groups[op.block]);
    var t := Do(s, op);
    TrimTables(s, op);
    TablesOnly(s, t);
    forall a | a in Mem(m, op)
      ensures Address(t, a.block, a.offset) && Busy(t.entries[a.block], a.offset) && ByteAt(t, a.block, a.offset) == Mem(m, op)[a]
    {
      assert PagesInverse(s.entries[a.block], s.groups[a.block]);
      SameEntryOffset(s.entries[a.block], t.entries[a.block], s.groups[a.block], a.offset);
    }
  }

  lemma TrimTables(s: State, op: Op)
    requires Inv(s) && Allowed(s, op) && (op.Trim? || op.TrimPage?)
    ensures var t := Do(s, op);
            && t.blocks == s.blocks && t.unmap == s.unmap && t.groups == s.groups && |t.entries| == |s.entries|
            && forall l :: 0 <= l < |s.entries| ==>
               && t.entries[l].physBlock == s.entries[l].physBlock && t.entries[l].fineGrain == s.entries[l].fineGrain
               && |t.entries[l].pages| == |s.entries[l].pages|
               && forall i :: 0 <= i < |s.entries[l].pages| ==> t.entries[l].pages[i].relativeIndex == s.entries[l].pages[i].relativeIndex
  {
    assert PagesInverse(s.entries[op.block], s.groups[op.block]);
  }

  lemma SplitKeeps(s: State, m: map<Addr, byte>, l: nat, g: Group)
    requires Inv(s) && Keeps(s, m) && Allowed(s, SplitBlock(l, g))
    ensures Inv(Do(s, SplitBlock(l, g))) && Keeps(Do(s, SplitBlock(l, g)), Mem(m, SplitBlock(l, g)))
  {
    hide PagesInverse, PhysOffset, WholePages, Identity;
    SplitKeepsInvIff(s, l, g);
    var t := Do(s, SplitBlock(l, g));
    forall a | a in Mem(m, SplitBlock(l, g))
      ensures Address(t, a.block, a.offset) && Busy(t.entries[a.block], a.offset)
              && ByteAt(t, a.block, a.offset) == Mem(m, SplitBlock(l, g))[a]
    {
      assert PagesInverse(s.entries[a.block], s.groups[a.block]);
      SameEntryOffset(s.entries[a.block], t.entries[a.block], s.groups[a.block], a.offset);
    }
  }

  lemma SwapsKeep(s: State, m: map<Addr, byte>, op: Op)
    requires Inv(s) && Keeps(s, m) && Allowed(s, op)
    requires op.SwapFast? || op.SwapSlow? || op.SwapPageFast? || op.SwapPageSlow?
    ensures Inv(Do(s, op)) && Keeps(Do(s, op), m)
  {
    hide Inv, ByteAt, Busy, FastSwapped, SlowSwapped, PageSwapFast, PageSwapSlow;
    assert Inv(Do(s, op)) by { SwapsInv(s, op); }
    forall a | a in m
      ensures Address(Do(s, op), a.block, a.offset) && Busy(Do(s, op).entries[a.block], a.offset)
              && ByteAt(Do(s, op), a.block, a.offset) == m[a]
    {
      SwapReads(s, op, a.block, a.offset);
    }
  }

  lemma SwapsInv(s: State, op: Op)
    requires Inv(s) && Allowed(s, op) && (op.SwapFast? || op.SwapSlow? || op.SwapPageFast? || op.SwapPageSlow?)
    ensures Inv(Do(s, op))
  {
    hide AllPagesInverse, BlocksInverse, Unused;
    match op
    case SwapFast(a, b) => FastKeepsInv(s, a, b);
    case SwapSlow(a, b, c) => SlowShape(s, a, b, c);
    case SwapPageFast(b, p, q) => PageSwapKeepsInv(s, b, p, q, WithPage(s.blocks[b], q, PageBytes(s.blocks[b], p)));
    case SwapPageSlow(b, p, q) =>
      PageSwapKeepsInv(s, b, p, q, WithPage(WithPage(s.blocks[b], q, PageBytes(s.blocks[b], p)), p, PageBytes(s.blocks[b], q)));
  }

  lemma SwapReads(s: State, op: Op, l: nat, off: nat)
    requires Inv(s) && Allowed(s, op) && Address(s, l, off) && Busy(s.entries[l], off)
    requires op.SwapFast? || op.SwapSlow? || op.SwapPageFast? || op.SwapPageSlow?
    ensures Inv(Do(s, op)) && Address(Do(s, op), l, off) && Busy(Do(s, op).entries[l], off)
    ensures ByteAt(Do(s, op), l, off) == ByteAt(s, l, off)
  {
    hide AllPagesInverse, ByteAt, FastSwapped, SlowSwapped, PageSwapFast, PageSwapSlow;
    match op
    case SwapFast(a, b) => FastReads(s, a, b, l, off);
    case SwapSlow(a, b, c) => SlowReads(s, a, b, c, l, off);
    case SwapPageFast(b, p, q) => PageFastReads(s, b, p, q, l, off);
    case SwapPageSlow(b, p, q) => PageSlowReads(s, b, p, q, l, off);
  }

  lemma OpKeeps(s: State, m: map<Addr, byte>, op: Op)
    requires Inv(s) && Keeps(s, m) && Allowed(s, op)
    ensures Inv(Do(s, op)) && Keeps(Do(s, op), Mem(m, op))
  {
    hide Inv, Keeps, Do, Allowed;
    match op
    case Write(l, off, data) => WriteKeeps(s, m, l, off, data);
    case WritePage(l, off, data) => WritePageKeeps(s, m, l, off, data);
    case Trim(_) => TrimKeeps(s, m, op);
    case TrimPage(_, _) => TrimKeeps(s, m, op);
    case SplitBlock(l, g) => SplitKeeps(s, m, l, g);
    case _ => SwapsKeep(s, m, op);
  }

  // ---------- runs ----------

  ghost predicate Run(s: State, ops: seq<Op>)
    decreases |ops|
  {
    ops == [] || (Inv(s) && Allowed(s, ops[0]) && Run(Do(s, ops[0]), ops[1..]))
  }

  ghost function After(s: State, ops: seq<Op>): State
    requires Run(s, ops)
    decreases |ops|
  {
    if ops == [] then s else After(Do(s, ops[0]), ops[1..])
  }

  function MemAfter(m: map<Addr, byte>, ops: seq<Op>): map<Addr, byte>
    decreases |ops|
  {
    if ops == [] then m else MemAfter(Mem(m, ops[0]), ops[1..])
  }

  /**
    Over any run of writes, trims, splits and swaps of blocks and pages the map
    tables and unmap tables stay inverse, and every byte reads as last written.
   */
  lemma {:induction false} RunKeeps(s: State, m: map<Addr, byte>, ops: seq<Op>)
    requires Inv(s) && Keeps(s, m) && Run(s, ops)
    ensures Inv(After(s, ops)) && Keeps(After(s, ops), MemAfter(m, ops))
    decreases |ops|
  {
    hide Inv, Keeps, Do, Allowed, Mem;
    if ops != [] {
      OpKeeps(s, m, ops[0]);
      RunKeeps(Do(s, ops[0]), Mem(m, ops[0]), ops[1..]);
    }
  }

  /** MapTableFormat and BlockUnmapTableFormat, on any contents. */
  function Formatted(blocks: seq<seq<byte>>, groups: seq<Group>): State {
    var n := |blocks|;
    State(blocks, seq(n, b requires 0 <= b < n => Unmap(b, false)), groups, seq(n, l requires 0 <= l < n => BlockEntry(l, false, false, [])))
  }

  lemma FormattedIsSound(blocks: seq<seq<byte>>, groups: seq<Group>)
    requires |groups| == |blocks| && forall b :: 0 <= b < |blocks| ==> |blocks[b]| == SIZE_2M
    ensures Inv(Formatted(blocks, groups)) && Keeps(Formatted(blocks, groups), map[])
    ensures var s := Formatted(blocks, groups);
            s.blocks == blocks && forall l :: 0 <= l < |blocks| ==>
              s.entries[l].physBlock == l && !s.entries[l].busy && !s.entries[l].fineGrain && s.unmap[l] == Unmap(l, false)
  {
  }

  // ---------- what is in use ----------

  /** Whether a byte is in use after an operation: writes claim a block or a page, trims give one up, a split forgets. */
  predicate UsedAfter(op: Op, was: bool, l: nat, off: nat) {
    match op
    case Write(block, _, _) => l == block || was
    case WritePage(block, offset, _) => (l == block && off / SIZE_4K == offset / SIZE_4K) || was
    case Trim(block) => l != block && was
    case TrimPage(block, page) => !(l == block && off / SIZE_4K == page) && was
    case SplitBlock(block, _) => l != block && was
    case _ => was
  }

  /** The flag of the block itself, which a split block keeps beside those of its pages. */
  predicate FlagAfter(op: Op, was: bool, l: nat) {
    match op
    case Write(block, _, _) => l == block || was
    case WritePage(block, _, _) => l == block || was
    case Trim(block) => l != block && was
    case _ => was
  }

  lemma UsedAfterIs(s: State, op: Op, l: nat, off: nat)
    requires Inv(s) && Allowed(s, op) && Address(s, l, off)
    ensures l < |Do(s, op).entries| && Busy(Do(s, op).entries[l], off) == UsedAfter(op, Busy(s.entries[l], off), l, off)
    ensures Do(s, op).entries[l].busy == FlagAfter(op, s.entries[l].busy, l)
  {
    hide AllPagesInverse, BlocksInverse, PagesInverse, Unused, WholePages;
    PageOfOffset(off);
    match op
    case SwapFast(a, b) => FastReads(s, a, b, l, off); FastMoves(s, a, b);
    case SwapSlow(a, b, c) => SlowReads(s, a, b, c, l, off); SlowMoves(s, a, b, c);
    case SwapPageFast(b, p, q) => PageFastReads(s, b, p, q, l, off); PageFastMoves(s, b, p, q);
    case SwapPageSlow(b, p, q) => PageSlowReads(s, b, p, q, l, off); PageSlowMoves(s, b, p, q);
    case _ => OneEntryUsed(s, op, l, off);
  }

  lemma OneEntryUsed(s: State, op: Op, l: nat, off: nat)
    requires Inv(s) && Allowed(s, op) && Address(s, l, off)
    requires op.Write? || op.WritePage? || op.Trim? || op.TrimPage? || op.SplitBlock?
    ensures l < |Do(s, op).entries| && Busy(Do(s, op).entries[l], off) == UsedAfter(op, Busy(s.entries[l], off), l, off)
    ensures Do(s, op).entries[l].busy == FlagAfter(op, s.entries[l].busy, l)
  {
    assert PagesInverse(s.entries[l], s.groups[l]);
    PageOfOffset(off);
  }

  // ---------- the free list ----------

  /** BlockManagerTrim puts the physical block into the free list, where it belongs from then on. */
  lemma TrimKeepsFreeList(s: State, free: set<nat>, l: nat)
    requires Inv(s) && FreeListSound(s, free) && Allowed(s, Trim(l))
    ensures Inv(Do(s, Trim(l))) && FreeListSound(Do(s, Trim(l)), free + {s.entries[l].physBlock})
  {
    hide PagesInverse, Busy, Do;
    var t := Do(s, Trim(l));
    TrimKeeps(s, map[], Trim(l));
    TrimTables(s, Trim(l));
    forall b | b in free + {s.entries[l].physBlock} ensures b < |t.blocks| && Unused(t, b) {
      var k := t.unmap[b].unmapBlock;
      assert b in free ==> Unused(s, b);
      forall off: nat | Address(t, k, off) ensures !Busy(t.entries[k], off) { UsedAfterIs(s, Trim(l), k, off); }
    }
  }

  /** The blocks the coldness lists call free are not in use. */
  ghost predicate FreeListSound(s: State, free: set<nat>)
    requires Inv(s)
  {
    forall b :: b in free ==> b < |s.blocks| && Unused(s, b)
  }

  /** BlockManagerWrite does not touch the coldness lists: they stay right exactly when the block was not in the free one. */
  lemma WriteKeepsFreeListIff(s: State, free: set<nat>, l: nat, off: nat, data: seq<byte>)
    requires Inv(s) && FreeListSound(s, free) && Allowed(s, Write(l, off, data))
    ensures Inv(Do(s, Write(l, off, data)))
    ensures FreeListSound(Do(s, Write(l, off, data)), free) <==> s.entries[l].physBlock !in free
  {
    hide PagesInverse;
    WriteKeeps(s, map[], l, off, data);
    var t, b := Do(s, Write(l, off, data)), s.entries[l].physBlock;
    if b in free {
      assert Address(t, l, 0) && Busy(t.entries[l], 0);
      assert !Unused(t, b);
    } else {
      forall c | c in free ensures c < |t.blocks| && Unused(t, c) {
        assert Unused(s, c) && t.unmap[c].unmapBlock != l;
      }
    }
  }

  /** A fast swap returns `a` to the free list and takes `b` from it: it stays right. */
  lemma FastSwapKeepsFreeList(s: State, free: set<nat>, a: nat, b: nat)
    requires Inv(s) && FreeListSound(s, free) && TwoBlocks(s, a, b) && b in free
    ensures Inv(FastSwapped(s, a, b)) && FreeListSound(FastSwapped(s, a, b), free - {b} + {a})
  {
    hide PagesInverse;
    FastKeepsInv(s, a, b);
    var t := FastSwapped(s, a, b);
    forall c | c in free - {b} + {a} ensures c < |t.blocks| && Unused(t, c) {
      var from := if c == a then b else c;
      assert Unused(s, from) && t.unmap[c].unmapBlock == s.unmap[from].unmapBlock;
      forall off: nat | Address(t, t.unmap[c].unmapBlock, off) ensures !Busy(t.entries[t.unmap[c].unmapBlock], off) {
        assert Address(s, s.unmap[from].unmapBlock, off);
        FastReads(s, a, b, s.unmap[from].unmapBlock, off);
      }
    }
  }

  /** A block written while it was in the free list is lost to the next fast swap that picks it. */
  lemma WrittenFreeBlockIsLost(s: State, l: nat, a: nat, x: byte)
    requires Inv(s) && l < |s.entries| && !s.entries[l].fineGrain
    requires a < |s.blocks| && a != s.entries[l].physBlock && s.blocks[a][0] != x
    ensures Allowed(s, Write(l, 0, [x])) && Inv(Do(s, Write(l, 0, [x])))
    ensures var t := Do(s, Write(l, 0, [x]));
            l < |t.entries| && TwoBlocks(t, a, t.entries[l].physBlock) && Inv(FastSwapped(t, a, t.entries[l].physBlock))
            && !BusyKept(t, FastSwapped(t, a, t.entries[l].physBlock))
  {
    hide PagesInverse;
    WriteKeeps(s, map[], l, 0, [x]);
    var t := Do(s, Write(l, 0, [x]));
    var b := t.entries[l].physBlock;
    FastKeepsBusyIff(t, a, b);
    assert Address(t, l, 0) && Busy(t.entries[l], 0) && ByteAt(t, l, 0) == x;
    assert t.blocks[a][0] == s.blocks[a][0];
  }
}
