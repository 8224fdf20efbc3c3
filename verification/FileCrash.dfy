/**
  A file write on the bytes of the device: its data stores and the stores of its
  log appends in one sequence, cut anywhere, and what a mount makes of the bytes.

  FileRuns treats an append as one indivisible effect and keeps the log apart
  from the memory.  Here both are the same bytes; the log keeps to its pages and
  the data to the spaces of the file.
 */
module FileCrash {
  import opened Wrappers
  import opened Nvm
  import opened ChainedSpace
  import opened ContinousSpace
  import opened PageSource
  import opened LogLayout
  import opened Log
  import opened FileExtents
  import opened FileExtentTree
  import opened FileRead
  import opened FileState
  import opened FileRuns
  import opened FileInodeInfo

  // ---------- log pages and the rest ----------

  ghost predicate InPages(pages: seq<nat>, a: nat) {
    exists i :: 0 <= i < |pages| && pages[i] <= a < pages[i] + PAGE_SIZE
  }

  /** The bytes of the pages. */
  ghost function PageBytes(size: nat, pages: seq<nat>): (r: set<nat>)
    ensures forall a: nat :: a in r <==> a < size && InPages(pages, a)
  {
    set a: nat | a < size && InPages(pages, a)
  }

  /** The memories agree on everything but the pages. */
  ghost predicate AgreeOff(pages: seq<nat>, m: seq<byte>, n: seq<byte>) {
    |m| == |n| && forall a :: 0 <= a < |m| && !InPages(pages, a) ==> m[a] == n[a]
  }

  ghost predicate AgreeOn(pages: seq<nat>, m: seq<byte>, n: seq<byte>) {
    |m| == |n| && forall a :: 0 <= a < |m| && InPages(pages, a) ==> m[a] == n[a]
  }

  lemma InPagesMore(a: seq<nat>, b: seq<nat>, x: nat)
    requires InPages(a, x) && forall p :: p in a ==> p in b
    ensures InPages(b, x)
  {
    var i :| 0 <= i < |a| && a[i] <= x < a[i] + PAGE_SIZE;
    assert a[i] in b;
    var j :| 0 <= j < |b| && b[j] == a[i];
  }

  lemma LocateInPages(size: nat, chain: seq<nat>, o: nat)
    requires Chain(size, chain) && o < Capacity(chain)
    ensures Locate(chain, o) < size && InPages(chain, Locate(chain, o))
  {
    LocateFacts(size, chain, o);
    var i := o / BODY_SIZE;
    assert chain[i] <= Locate(chain, o) < chain[i] + PAGE_SIZE;
  }

  /** A log is in its pages: the same bytes there are the same log. */
  lemma OnMediumAgree(m: seq<byte>, n: seq<byte>, chain: seq<nat>, start: nat, es: seq<Entry>)
    requires OnMedium(m, chain, start, es) && AgreeOn(chain, m, n)
    ensures OnMedium(n, chain, start, es)
  {
    hide Locate, LogAt, InPages;
    LinkedIsChain(m, chain);
    assert Linked(n, chain) by { LinksAgree(m, n, chain); }
    forall o | 0 <= o < Capacity(chain) ensures Stream(n, chain)[o] == Stream(m, chain)[o] { LocateInPages(|m|, chain, o); }
    assert Stream(n, chain) == Stream(m, chain);
  }

  lemma LinksAgree(m: seq<byte>, n: seq<byte>, chain: seq<nat>)
    requires Linked(m, chain) && AgreeOn(chain, m, n)
    ensures Linked(n, chain)
  {
    hide FromLE;
    forall i | 0 <= i < |chain| - 1 ensures PageLink(n, chain[i]) == chain[i + 1] {
      forall a | chain[i] <= a < chain[i] + LINK_SIZE ensures n[a] == m[a] { assert InPages(chain, a); }
      assert n[chain[i]..chain[i] + LINK_SIZE] == m[chain[i]..chain[i] + LINK_SIZE];
    }
  }

  lemma {:induction false} LinkStoresWithin(size: nat, last: nat, pages: seq<nat>, all: seq<nat>)
    requires last in all && (forall p :: p in pages ==> p in all) && (forall p :: p in all ==> p + PAGE_SIZE <= size)
    ensures Within(LinkStores(last, pages), PageBytes(size, all)) && InBounds(size, LinkStores(last, pages))
    decreases |pages|
  {
    hide ToLE, PageBytes;
    if pages != [] {
      var n := |pages| - 1;
      LinkStoresWithin(size, last, pages[..n], all);
      var p := LastBefore(last, pages);
      assert p in all;
      forall a | p <= a < p + LINK_SIZE ensures a in PageBytes(size, all) {
        var j :| 0 <= j < |all| && all[j] == p;
        assert InPages(all, a);
      }
    }
  }

  lemma RegionWithin(size: nat, chain: seq<nat>, o: nat, n: nat)
    requires Chain(size, chain) && o + n <= Capacity(chain)
    ensures Region(chain, o, n) <= PageBytes(size, chain)
  {
    hide Locate, PageBytes, InPages;
    forall a | a in Region(chain, o, n) ensures a in PageBytes(size, chain) {
      var i :| o <= i < o + n && Locate(chain, i) == a;
      LocateInPages(size, chain, i);
    }
  }

  /** All stores of an append keep to the pages of the log. */
  lemma AppendWithin(size: nat, chain: seq<nat>, pages: seq<nat>, w: nat, e: Entry)
    requires chain != [] && Chain(size, chain + pages) && w % WORD == 0 && w + EntrySize(e) + WORD <= Capacity(chain + pages)
    ensures Within(AppendStores(chain, pages, w, e, LogWriteBody(chain + pages, w, e)), PageBytes(size, chain + pages))
  {
    hide Locate, PageBytes, Within, Region, StreamStores, EntrySize, Head, Capacity, InBounds, LinkStores, Chain, InPages;
    var grown, all := chain + pages, PageBytes(size, chain + pages);
    var links, data, foot, head := LinkStores(chain[|chain| - 1], pages), StreamStores(grown, w + WORD, e.data),
                                   StreamStores(grown, w + EntrySize(e), ZERO_WORD), StreamStores(grown, w, Head(e));
    ChainFits(size, grown);
    LinkStoresWithin(size, chain[|chain| - 1], pages, grown);
    StreamStoresWithin(size, grown, w + WORD, e.data);
    StreamStoresWithin(size, grown, w + EntrySize(e), ZERO_WORD);
    StreamStoresWithin(size, grown, w, Head(e));
    RegionWithin(size, grown, w + WORD, |e.data|);
    RegionWithin(size, grown, w + EntrySize(e), WORD);
    RegionWithin(size, grown, w, WORD);
    HeadIsOneStore(size, grown, w, Head(e));
    WithinConcat(data, foot, Region(grown, w + WORD, |e.data|), Region(grown, w + EntrySize(e), WORD), all);
    WithinConcat(links, data + foot, all, all, all);
    WithinConcat(links + (data + foot), head, all, Region(grown, w, WORD), all);
  }

  lemma ChainFits(size: nat, chain: seq<nat>)
    requires Chain(size, chain)
    ensures forall p :: p in chain ==> p + PAGE_SIZE <= size
  {
  }

  // ---------- effects as stores ----------

  ghost function AppendOf(chain: seq<nat>, pages: seq<nat>, start: nat, log: seq<FileOp>, op: FileOp): seq<Store>
    requires chain != [] && EndOf(start, EncodeAll(log)) + EntrySize(Encode(op)) + WORD <= Capacity(chain + pages)
  {
    var w := EndOf(start, EncodeAll(log));
    AppendStores(chain, pages, w, Encode(op), LogWriteBody(chain + pages, w, Encode(op)))
  }

  /** The effects can be stored: data off the log pages, and room for each append but no page too many, in pages from `all`. */
  ghost predicate Lowerable(es: seq<Effect>, size: nat, chain: seq<nat>, start: nat, log: seq<FileOp>, allocs: seq<seq<nat>>,
                            all: seq<nat>)
    decreases |es|
  {
    es == [] ||
    match es[0]
    case Data(st) =>
      && st.addr + |st.data| <= size && (forall a :: st.addr <= a < st.addr + |st.data| ==> !InPages(all, a))
      && Lowerable(es[1..], size, chain, start, log, allocs, all)
    case Append(op) =>
      && allocs != [] && chain != [] && Chain(size, chain + allocs[0]) && (forall p :: p in chain + allocs[0] ==> p in all)
      && EndOf(start, EncodeAll(log)) % WORD == 0 && EndOf(start, EncodeAll(log)) < Capacity(chain)
      && EndOf(start, EncodeAll(log)) + EntrySize(Encode(op)) + WORD <= Capacity(chain + allocs[0])
      && Capacity(chain + allocs[0]) - (EndOf(start, EncodeAll(log)) + EntrySize(Encode(op))) <= BODY_SIZE
      && Lowerable(es[1..], size, chain + allocs[0], start, log + [op], allocs[1..], all)
  }

  /** Every store of the effects, in order. */
  ghost function Lower(es: seq<Effect>, size: nat, chain: seq<nat>, start: nat, log: seq<FileOp>, allocs: seq<seq<nat>>,
                       all: seq<nat>): seq<Store>
    requires Lowerable(es, size, chain, start, log, allocs, all)
    decreases |es|
  {
    if es == [] then []
    else match es[0]
      case Data(st) => [st] + Lower(es[1..], size, chain, start, log, allocs, all)
      case Append(op) =>
        AppendOf(chain, allocs[0], start, log, op) + Lower(es[1..], size, chain + allocs[0], start, log + [op], allocs[1..], all)
  }

  /** The device holds this disk: the log in its chain, up to the last page of it, the other bytes as they are. */
  ghost predicate Holds(mem: seq<byte>, chain: seq<nat>, start: nat, all: seq<nat>, d: Disk) {
    && OnMedium(mem, chain, start, EncodeAll(d.log)) && AgreeOff(all, mem, d.mem)
    && Capacity(chain) - EndOf(start, EncodeAll(d.log)) <= BODY_SIZE
    && forall p :: p in chain ==> p in all
  }

  lemma DataHolds(mem: seq<byte>, chain: seq<nat>, start: nat, all: seq<nat>, d: Disk, st: Store)
    requires Holds(mem, chain, start, all, d) && st.addr + |st.data| <= |mem|
    requires forall a :: st.addr <= a < st.addr + |st.data| ==> !InPages(all, a)
    ensures Holds(Splice(mem, st.addr, st.data), chain, start, all, ApplyEffect(d, Data(st)))
  {
    hide OnMedium, EncodeAll, InPages;
    var after := Splice(mem, st.addr, st.data);
    assert AgreeOn(chain, mem, after) by {
      forall a | 0 <= a < |mem| && InPages(chain, a) ensures after[a] == mem[a] { InPagesMore(chain, all, a); }
    }
    OnMediumAgree(mem, after, chain, start, EncodeAll(d.log));
  }

  /** Some of the stores of an append: the disk before, until all are made. */
  lemma AppendHolds(mem: seq<byte>, chain: seq<nat>, pages: seq<nat>, start: nat, all: seq<nat>, d: Disk, op: FileOp, k: nat)
    requires Holds(mem, chain, start, all, d)
    requires chain != [] && Chain(|mem|, chain + pages) && (forall p :: p in chain + pages ==> p in all)
    requires var w := EndOf(start, EncodeAll(d.log));
             && w % WORD == 0 && w < Capacity(chain) && w + EntrySize(Encode(op)) + WORD <= Capacity(chain + pages)
             && Capacity(chain + pages) - (w + EntrySize(Encode(op))) <= BODY_SIZE
    requires k <= |AppendOf(chain, pages, start, d.log, op)|
    ensures var stores := AppendOf(chain, pages, start, d.log, op);
            && InBounds(|mem|, stores[..k])
            && (k < |stores| ==> Holds(Apply(mem, stores[..k]), chain, start, all, d))
            && (k == |stores| ==> Holds(Apply(mem, stores[..k]), chain + pages, start, all, ApplyEffect(d, Append(op))))
  {
    hide OnMedium, InPages, Encode, EntrySize, Apply, InBounds, Within, PageBytes, LogWriteBody, AppendStores, Chain, EndOf,
         Capacity;
    var e, es := Encode(op), EncodeAll(d.log);
    var w := EndOf(start, es);
    var stores := AppendOf(chain, pages, start, d.log, op);
    EncodeLoggable(op);
    LogWriteAtomic(mem, chain, pages, start, es, e, k);
    AppendWithin(|mem|, chain, pages, w, e);
    CutWithin(stores, PageBytes(|mem|, chain + pages), k);
    WithinKeeps(mem, stores[..k], PageBytes(|mem|, chain + pages));
    var after := Apply(mem, stores[..k]);
    assert AgreeOff(all, after, d.mem) by {
      forall a | 0 <= a < |mem| && !InPages(all, a) ensures after[a] == mem[a] {
        if InPages(chain + pages, a) { InPagesMore(chain + pages, all, a); }
      }
    }
    assert EncodeAll(d.log + [op]) == es + [e];
    EndOfAppend(start, es, e);
  }

  lemma CutWithin(stores: seq<Store>, region: set<nat>, k: nat)
    requires Within(stores, region) && k <= |stores|
    ensures Within(stores[..k], region)
  {
  }

  /**
    The stores of a run of effects cut after any one of them: the device holds the
    disk after some number of whole effects, after all of them when nothing is cut.
   */
  lemma {:induction false} LowerCut(mem: seq<byte>, es: seq<Effect>, chain: seq<nat>, start: nat, d: Disk,
                                    allocs: seq<seq<nat>>, all: seq<nat>, k: nat)
    returns (found: seq<nat>, j: nat)
    requires Holds(mem, chain, start, all, d) && Lowerable(es, |mem|, chain, start, d.log, allocs, all)
    requires k <= |Lower(es, |mem|, chain, start, d.log, allocs, all)|
    ensures var stores := Lower(es, |mem|, chain, start, d.log, allocs, all)[..k];
            InBounds(|mem|, stores) && j <= |es| && Holds(Apply(mem, stores), found, start, all, ApplyEffects(d, es[..j]))
    ensures chain <= found && (k == |Lower(es, |mem|, chain, start, d.log, allocs, all)| ==> j == |es|)
    decreases |es|
  {
    hide Holds, OnMedium, InPages, AppendOf, Splice, EntrySize, Encode, EndOf, Chain, Capacity;
    var stores := Lower(es, |mem|, chain, start, d.log, allocs, all);
    assert es[..0] == [];
    if k == 0 {
      found, j := chain, 0;
      ApplyNone(mem);
      assert stores[..0] == [];
      if es != [] && es[0].Append? { AppendStoresSome(chain, allocs[0], start, d.log, es[0].op); }
    } else {
      match es[0]
      case Data(st) => found, j := LowerData(mem, es, chain, start, d, allocs, all, k);
      case Append(op) => found, j := LowerAppend(mem, es, chain, start, d, allocs, all, k);
    }
  }

  lemma {:induction false} LowerData(mem: seq<byte>, es: seq<Effect>, chain: seq<nat>, start: nat, d: Disk,
                                     allocs: seq<seq<nat>>, all: seq<nat>, k: nat)
    returns (found: seq<nat>, j: nat)
    requires Holds(mem, chain, start, all, d) && Lowerable(es, |mem|, chain, start, d.log, allocs, all)
    requires 0 < k <= |Lower(es, |mem|, chain, start, d.log, allocs, all)| && es != [] && es[0].Data?
    ensures var stores := Lower(es, |mem|, chain, start, d.log, allocs, all)[..k];
            InBounds(|mem|, stores) && j <= |es| && Holds(Apply(mem, stores), found, start, all, ApplyEffects(d, es[..j]))
    ensures chain <= found && (k == |Lower(es, |mem|, chain, start, d.log, allocs, all)| ==> j == |es|)
    decreases |es|, 0
  {
    hide Holds, OnMedium, InPages, AppendOf, Splice, EntrySize, Encode, EndOf, Chain, Capacity, Apply, InBounds, ApplyEffects;
    var st := es[0].store;
    DataHolds(mem, chain, start, all, d, st);
    HoldsSize(mem, chain, start, all, d);
    var m1, d1 := Splice(mem, st.addr, st.data), ApplyEffect(d, es[0]);
    ApplySingle(mem, st);
    var rest := Lower(es[1..], |mem|, chain, start, d.log, allocs, all);
    var f, i := LowerCut(m1, es[1..], chain, start, d1, allocs, all, k - 1);
    assert ([st] + rest)[..k] == [st] + rest[..k - 1];
    InBoundsConcat(|mem|, [st], rest[..k - 1]);
    ApplyConcat(mem, [st], rest[..k - 1]);
    EffectsCons(d, es, i);
    found, j := f, i + 1;
  }

  lemma {:induction false} LowerAppend(mem: seq<byte>, es: seq<Effect>, chain: seq<nat>, start: nat, d: Disk,
                                       allocs: seq<seq<nat>>, all: seq<nat>, k: nat)
    returns (found: seq<nat>, j: nat)
    requires Holds(mem, chain, start, all, d) && Lowerable(es, |mem|, chain, start, d.log, allocs, all)
    requires 0 < k <= |Lower(es, |mem|, chain, start, d.log, allocs, all)| && es != [] && es[0].Append?
    ensures var stores := Lower(es, |mem|, chain, start, d.log, allocs, all)[..k];
            InBounds(|mem|, stores) && j <= |es| && Holds(Apply(mem, stores), found, start, all, ApplyEffects(d, es[..j]))
    ensures chain <= found && (k == |Lower(es, |mem|, chain, start, d.log, allocs, all)| ==> j == |es|)
    decreases |es|, 0
  {
    hide Holds, OnMedium, InPages, AppendOf, Splice, EntrySize, Encode, EndOf, Chain, Capacity, Apply, InBounds, ApplyEffects;
    var op, pages := es[0].op, allocs[0];
    var first := AppendOf(chain, pages, start, d.log, op);
    var rest := Lower(es[1..], |mem|, chain + pages, start, d.log + [op], allocs[1..], all);
    assert es[..0] == [];
    NoEffects(d);
    if k < |first| {
      AppendHolds(mem, chain, pages, start, all, d, op, k);
      assert (first + rest)[..k] == first[..k];
      found, j := chain, 0;
    } else {
      AppendHolds(mem, chain, pages, start, all, d, op, |first|);
      assert first[..|first|] == first;
      var m1, d1 := Apply(mem, first), ApplyEffect(d, es[0]);
      var f, i := LowerCut(m1, es[1..], chain + pages, start, d1, allocs[1..], all, k - |first|);
      assert (first + rest)[..k] == first + rest[..k - |first|];
      InBoundsConcat(|mem|, first, rest[..k - |first|]);
      ApplyConcat(mem, first, rest[..k - |first|]);
      EffectsCons(d, es, i);
      found, j := f, i + 1;
    }
  }

  lemma AppendStoresSome(chain: seq<nat>, pages: seq<nat>, start: nat, log: seq<FileOp>, op: FileOp)
    requires chain != [] && EndOf(start, EncodeAll(log)) + EntrySize(Encode(op)) + WORD <= Capacity(chain + pages)
    ensures AppendOf(chain, pages, start, log, op) != []
  {
    hide Encode, EntrySize, LogWriteBody, LinkStores;
  }

  lemma HoldsSize(mem: seq<byte>, chain: seq<nat>, start: nat, all: seq<nat>, d: Disk)
    requires Holds(mem, chain, start, all, d)
    ensures |d.mem| == |mem|
  {
  }

  lemma NoEffects(d: Disk)
    ensures ApplyEffects(d, []) == d
  {
  }

  lemma EffectsCons(d: Disk, es: seq<Effect>, i: nat)
    requires es != [] && i <= |es| - 1
    ensures ApplyEffects(d, es[..i + 1]) == ApplyEffects(ApplyEffect(d, es[0]), es[1..][..i])
  {
    hide ApplyEffect;
    assert es[..i + 1] == [es[0]] + es[1..][..i];
    ApplyEffectsConcat(d, [es[0]], es[1..][..i]);
    assert ApplyEffects(d, [es[0]]) == ApplyEffect(d, es[0]) by { LastEffect(d, [], es[0]); assert [] + [es[0]] == [es[0]]; NoEffects(d); }
  }

  // ---------- the file behind the bytes ----------

  /** The space keeps off the log pages. */
  ghost predicate SpaceApart(addr: nat, size: nat, all: seq<nat>) {
    forall a :: addr <= a < addr + size ==> !InPages(all, a)
  }

  ghost predicate OpApart(op: FileOp, all: seq<nat>) { op.AddSpace? ==> SpaceApart(op.addr, op.size, all) }

  ghost predicate LogApart(log: seq<FileOp>, all: seq<nat>) { forall i :: 0 <= i < |log| ==> OpApart(log[i], all) }

  ghost predicate EffectsApart(es: seq<Effect>, all: seq<nat>) {
    forall i :: 0 <= i < |es| && es[i].Append? ==> OpApart(es[i].op, all)
  }

  lemma {:induction false} SpacesFromLog(log: seq<FileOp>, all: seq<nat>, x: Space)
    requires LogApart(log, all) && x in Replay(log).spaces
    ensures SpaceApart(x.start, x.size, all)
    decreases |log|
  {
    hide SpaceApart, InsertSpace;
    if log != [] {
      var n := |log| - 1;
      var op := log[n];
      if op.AddSpace? {
        InsertSpaceHas(Replay(log[..n]).spaces, Space(op.addr, op.size), x);
        assert OpApart(op, all);
      }
      if x in Replay(log[..n]).spaces {
        SpacesFromLog(log[..n], all, x);
      }
    }
  }

  lemma {:induction false} LogAfterEffects(d: Disk, es: seq<Effect>, all: seq<nat>)
    requires LogApart(d.log, all) && EffectsApart(es, all)
    ensures LogApart(ApplyEffects(d, es).log, all)
    decreases |es|
  {
    hide OpApart;
    if es != [] {
      var n := |es| - 1;
      LogAfterEffects(d, es[..n], all);
      assert es[n].Append? ==> OpApart(es[n].op, all);
    }
  }

  /** Extents off the log pages read the same from both memories. */
  lemma {:induction false} FlatAgrees(es: seq<Extent>, m: seq<byte>, n: seq<byte>, all: seq<nat>, p: nat)
    requires AgreeOff(all, m, n) && forall i :: 0 <= i < |es| ==> SpaceApart(es[i].start, es[i].size, all)
    ensures FlatByte(es, m, p) == FlatByte(es, n, p)
    decreases |es|
  {
    hide InPages;
    if es != [] && !es[0].Covers(p) {
      FlatAgrees(es[1..], m, n, all, p);
    }
  }

  lemma ViewAgrees(r: Manager, log: seq<FileOp>, m: seq<byte>, n: seq<byte>, all: seq<nat>)
    requires Good(r, |n|, log) && r == FileState.Rebuild(log) && LogApart(log, all) && AgreeOff(all, m, n)
    ensures View(r, m) == View(r, n)
  {
    hide InPages, FlatByte, AreasOk, LogOk, Sorted, LogApart, AgreeOff;
    forall i | 0 <= i < |r.extents| ensures SpaceApart(r.extents[i].start, r.extents[i].size, all) {
      assert Backed(r.extents[i], r.spaces);
      var k :| 0 <= k < |r.spaces| && r.spaces[k].start <= r.extents[i].start
             && r.extents[i].start + r.extents[i].size <= r.spaces[k].start + r.spaces[k].size;
      assert r.spaces[k] in r.spaces;
      SpacesFromLog(log, all, r.spaces[k]);
    }
    forall p | 0 <= p < r.fileMaxLen ensures FlatByte(r.extents, m, p) == FlatByte(r.extents, n, p) {
      FlatAgrees(r.extents, m, n, all, p);
    }
    assert View(r, m) == View(r, n);
  }

  ghost predicate FitAll(log: seq<FileOp>) { forall i :: 0 <= i < |log| ==> Fits64(log[i]) }

  ghost predicate EffectsFit(es: seq<Effect>) { forall i :: 0 <= i < |es| && es[i].Append? ==> Fits64(es[i].op) }

  lemma {:induction false} FitAfterEffects(d: Disk, es: seq<Effect>)
    requires FitAll(d.log) && EffectsFit(es)
    ensures FitAll(ApplyEffects(d, es).log)
    decreases |es|
  {
    hide Fits64;
    if es != [] {
      var n := |es| - 1;
      FitAfterEffects(d, es[..n]);
      assert es[n].Append? ==> Fits64(es[n].op);
    }
  }

  /**
    Crash-safe file writes, on the bytes.  The stores of a write are the bytes for
    the rest of the current area, the bytes and links of each log entry, and the
    bytes for each new area.  Cut them after any one.  The device then holds a log:
    its pages are those there were, perhaps with some of the new ones behind, and it
    ends in the last of them.  The operations of this log rebuild to a good manager,
    and the file it describes is the old one overlaid with a prefix of the data.
    When nothing is cut the prefix is all of it, and the manager is the running one.
   */
  lemma CrashedWriteOnDevice(mem: seq<byte>, chain: seq<nat>, start: nat, log: seq<FileOp>, m: Manager, pos: nat, steps: seq<Step>,
                             allocs: seq<seq<nat>>, all: seq<nat>, k: nat)
    returns (found: seq<nat>, ops: seq<FileOp>, n: nat)
    requires OnMedium(mem, chain, start, EncodeAll(log)) && (forall p :: p in chain ==> p in all)
    requires Capacity(chain) - EndOf(start, EncodeAll(log)) <= BODY_SIZE
    requires Good(m, |mem|, log) && RunOk(m, |mem|, pos, steps)
    requires LogApart(log, all) && EffectsApart(RunEffects(m, pos, steps), all)
    requires Lowerable(RunEffects(m, pos, steps), |mem|, chain, start, log, allocs, all)
    requires k <= |Lower(RunEffects(m, pos, steps), |mem|, chain, start, log, allocs, all)|
    ensures var stores := Lower(RunEffects(m, pos, steps), |mem|, chain, start, log, allocs, all)[..k];
            && InBounds(|mem|, stores) && n <= |RunData(steps)|
            && var after, r := Apply(mem, stores), FileState.Rebuild(ops);
            && OnMedium(after, found, start, EncodeAll(ops)) && Good(r, |after|, ops)
            && chain <= found && Capacity(found) - EndOf(start, EncodeAll(ops)) <= BODY_SIZE
            && (forall p :: p in found ==> p in all) && LogApart(ops, all)
            && View(r, after) == Overlay(View(m, mem), pos, RunData(steps)[..n])
    ensures FitAll(log) && EffectsFit(RunEffects(m, pos, steps)) ==> FitAll(ops)
    ensures k == |Lower(RunEffects(m, pos, steps), |mem|, chain, start, log, allocs, all)| ==>
              n == |RunData(steps)| && FileState.Rebuild(ops) == RunManager(m, pos, steps)
  {
    hide OnMedium, InPages, Good, RunOk, RunEffects, Lowerable, Lower, View, Overlay, Apply, InBounds, ApplyEffects, RunData,
         FileState.Rebuild, AgreeOff, LogApart, EffectsApart, RunManager, FitAll, EffectsFit;
    var d, es := Disk(mem, log), RunEffects(m, pos, steps);
    assert AgreeOff(all, mem, mem) by { SelfAgree(all, mem); }
    var f, j := LowerCut(mem, es, chain, start, d, allocs, all, k);
    CrashedWrite(m, d, pos, steps, j);
    var dj := ApplyEffects(d, es[..j]);
    found, ops, n := f, dj.log, Committed(m, pos, steps, j);
    LogAfterEffects(d, es[..j], all) by { CutApart(es, all, j); }
    if FitAll(log) && EffectsFit(es) {
      FitAfterEffects(d, es[..j]) by { CutFit(es, j); }
    }
    ReplayRebuilt(m, d, pos, steps, j);
    ViewAgrees(FileState.Rebuild(ops), ops, Apply(mem, Lower(es, |mem|, chain, start, log, allocs, all)[..k]), dj.mem, all);
    if j == |es| {
      assert es[..j] == es;
      CommittedAll(m, pos, steps);
      FinishedWrite(m, d, pos, steps);
      RebuildIsLive(RunManager(m, pos, steps), |dj.mem|, dj.log);
    }
  }

  lemma SelfAgree(all: seq<nat>, mem: seq<byte>)
    ensures AgreeOff(all, mem, mem)
  {
  }

  lemma CutApart(es: seq<Effect>, all: seq<nat>, j: nat)
    requires EffectsApart(es, all) && j <= |es|
    ensures EffectsApart(es[..j], all)
  {
  }

  lemma CutFit(es: seq<Effect>, j: nat)
    requires EffectsFit(es) && j <= |es|
    ensures EffectsFit(es[..j])
  {
  }

  lemma ReplayRebuilt(m: Manager, d: Disk, pos: nat, steps: seq<Step>, j: nat)
    requires Good(m, |d.mem|, d.log) && RunOk(m, |d.mem|, pos, steps) && j <= |RunEffects(m, pos, steps)|
    ensures var after := ApplyEffects(d, RunEffects(m, pos, steps)[..j]);
            |after.mem| == |d.mem| && Good(FileState.Rebuild(after.log), |after.mem|, after.log)
  {
    hide Good, RunOk, RunEffects, View, Overlay, RunData, ApplyEffects;
    CrashedWrite(m, d, pos, steps, j);
  }
}
