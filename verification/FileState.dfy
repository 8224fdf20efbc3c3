/**
  A file as its log describes it, and what a write does to medium and log.

  The log of an inode is the list of operations whose entries reached the
  medium (module LogLayout: an append is all or nothing).  The device bytes are
  written before the log entry that makes them part of the file.
 */
module FileState {
  import opened Wrappers
  import opened Nvm
  import opened FileExtents
  import opened FileExtentTree
  import opened FileRead

  const SIZE_4K: nat := 0x1000
  const SIZE_2M: nat := 0x20_0000
  const INVALID: nat := 0xFFFF_FFFF_FFFF_FFFF

  datatype FileOp =
    | AddSpace(addr: nat, size: nat)
    | WriteData(fileStart: nat, addr: nat, size: nat)
    | Truncate

  datatype Manager = Manager(extents: seq<Extent>, spaces: seq<Space>, curArea: nat, curWriteStart: nat, curSize: nat,
                             lastUsedPage: nat, fileMaxLen: nat)

  const NO_FILE := Manager([], [], INVALID, INVALID, 0, INVALID, 0)

  function RestSizeOfCurrentArea(m: Manager): int { m.curSize - (m.curWriteStart - m.curArea) }

  // ---------- what the running file system does to its memory ----------

  function Grow(m: Manager, addr: nat, size: nat): Manager {
    m.(spaces := InsertSpace(m.spaces, Space(addr, size)),
       curArea := addr, curWriteStart := addr, curSize := size,
       lastUsedPage := if size == SIZE_4K then addr else m.lastUsedPage)
  }

  function Fill(m: Manager, fileStart: nat, size: nat): Manager {
    m.(extents := Override(m.extents, Extent(m.curWriteStart, fileStart, size)),
       curWriteStart := m.curWriteStart + size,
       fileMaxLen := Max(m.fileMaxLen, fileStart + size))
  }

  function Truncated(m: Manager): Manager { m.(extents := [], fileMaxLen := 0) }

  // ---------- what a mount does with the log ----------

  function ReplayOp(m: Manager, op: FileOp): Manager {
    match op
    case AddSpace(addr, size) =>
      m.(spaces := InsertSpace(m.spaces, Space(addr, size)), curArea := addr, curSize := size,
         lastUsedPage := if size == SIZE_4K then addr else m.lastUsedPage)
    case WriteData(fileStart, addr, size) =>
      m.(extents := Override(m.extents, Extent(addr, fileStart, size)), curWriteStart := addr + size,
         fileMaxLen := Max(m.fileMaxLen, fileStart + size))
    case Truncate => Truncated(m)
  }

  function Replay(log: seq<FileOp>): Manager
    decreases |log|
  {
    if log == [] then NO_FILE else ReplayOp(Replay(log[..|log| - 1]), log[|log| - 1])
  }

  function RebuildEnd(m: Manager): Manager {
    if m.curArea <= m.curWriteStart <= m.curArea + m.curSize then m
    else m.(curWriteStart := m.curArea)
  }

  function Rebuild(log: seq<FileOp>): Manager { RebuildEnd(Replay(log)) }

  lemma ReplayAppend(log: seq<FileOp>, op: FileOp)
    ensures Replay(log + [op]) == ReplayOp(Replay(log), op)
  {
    assert (log + [op])[..|log + [op]| - 1] == log;
  }

  // ---------- the state between operations ----------

  ghost predicate Disjoint(a: Space, b: Space) {
    a.start + a.size <= b.start || b.start + b.size <= a.start
  }

  ghost predicate AreasOk(m: Manager, size: nat) {
    && size < INVALID
    && (forall x :: x in m.spaces ==> x.size > 0 && x.start + x.size <= size)
    && (if m.spaces == [] then m.curArea == m.curWriteStart == INVALID && m.curSize == 0
        else Space(m.curArea, m.curSize) in m.spaces && m.curArea <= m.curWriteStart <= m.curArea + m.curSize)
  }

  ghost predicate ExtentsOk(m: Manager) {
    && Sorted(m.extents) && AllBacked(m.extents, m.spaces)
    && Below(m.extents, m.fileMaxLen)
    && (forall i :: 0 <= i < |m.extents| ==>
          m.extents[i].start + m.extents[i].size <= m.curWriteStart
          || m.curArea + m.curSize <= m.extents[i].start)
  }

  /** A replay gives the live state, up to the write position of an area that is still empty. */
  ghost predicate LogOk(m: Manager, log: seq<FileOp>) {
    var r := Replay(log);
    && r.(curWriteStart := m.curWriteStart) == m
    && (r.curWriteStart == m.curWriteStart
        || (m.curWriteStart == m.curArea && m.curSize > 0 && !(m.curArea <= r.curWriteStart <= m.curArea + m.curSize)))
  }

  ghost predicate Good(m: Manager, size: nat, log: seq<FileOp>) {
    AreasOk(m, size) && ExtentsOk(m) && LogOk(m, log)
  }

  lemma GoodStart(size: nat)
    requires size < INVALID
    ensures Good(NO_FILE, size, [])
  {
  }

  /** Replay equals live: the rebuilt manager is the running one, field by field. */
  lemma RebuildIsLive(m: Manager, size: nat, log: seq<FileOp>)
    requires Good(m, size, log)
    ensures Rebuild(log) == m
  {
  }

  // ---------- steps of a write and their effects on the medium ----------

  /** A write is a sequence of: fill part of the current area; move on to a new area. */
  datatype Step = FillStep(data: seq<byte>) | GrowStep(addr: nat, size: nat)

  datatype Effect = Data(store: Store) | Append(op: FileOp)

  datatype Disk = Disk(mem: seq<byte>, log: seq<FileOp>)

  function StepSize(st: Step): nat { if st.FillStep? then |st.data| else 0 }

  function StepManager(m: Manager, pos: nat, st: Step): Manager {
    match st
    case FillStep(data) => Fill(m, pos, |data|)
    case GrowStep(addr, size) => Grow(m, addr, size)
  }

  function StepOp(m: Manager, pos: nat, st: Step): FileOp {
    match st
    case FillStep(data) => WriteData(pos, m.curWriteStart, |data|)
    case GrowStep(addr, size) => AddSpace(addr, size)
  }

  ghost function StepStores(m: Manager, st: Step): seq<Store> {
    match st
    case FillStep(data) => StoresOf(m.curWriteStart, data)
    case GrowStep(_, _) => []
  }

  ghost function DataEffects(stores: seq<Store>): (es: seq<Effect>)
    ensures |es| == |stores| && forall i :: 0 <= i < |es| ==> es[i] == Data(stores[i])
  {
    seq(|stores|, i requires 0 <= i < |stores| => Data(stores[i]))
  }

  /** First the bytes, then the log entry. */
  ghost function StepEffects(m: Manager, pos: nat, st: Step): seq<Effect> {
    DataEffects(StepStores(m, st)) + [Append(StepOp(m, pos, st))]
  }

  /** When the code takes this step: data fits in the area; a new area is fresh and the old one full. */
  ghost predicate StepOk(m: Manager, size: nat, st: Step) {
    match st
    case FillStep(data) => 0 < |data| <= RestSizeOfCurrentArea(m)
    case GrowStep(addr, n) =>
      RestSizeOfCurrentArea(m) == 0 && n > 0 && addr + n <= size
      && forall x :: x in m.spaces ==> Disjoint(x, Space(addr, n))
  }

  // ---------- one effect at a time ----------

  ghost function ApplyEffect(d: Disk, e: Effect): Disk {
    match e
    case Data(st) => if st.addr + |st.data| <= |d.mem| then d.(mem := Splice(d.mem, st.addr, st.data)) else d
    case Append(op) => d.(log := d.log + [op])
  }

  ghost function ApplyEffects(d: Disk, es: seq<Effect>): Disk
    decreases |es|
  {
    if es == [] then d else ApplyEffect(ApplyEffects(d, es[..|es| - 1]), es[|es| - 1])
  }

  lemma {:induction false} ApplyEffectsConcat(d: Disk, a: seq<Effect>, b: seq<Effect>)
    ensures ApplyEffects(d, a + b) == ApplyEffects(ApplyEffects(d, a), b)
    decreases |b|
  {
    hide ApplyEffect;
    if b == [] {
      assert a + b == a;
    } else {
      ApplyEffectsConcat(d, a, b[..|b| - 1]);
      assert (a + b)[..|a + b| - 1] == a + b[..|b| - 1];
      assert (a + b)[|a + b| - 1] == b[|b| - 1];
    }
  }

  lemma {:induction false} ApplyDataEffects(d: Disk, stores: seq<Store>)
    requires InBounds(|d.mem|, stores)
    ensures ApplyEffects(d, DataEffects(stores)) == Disk(Apply(d.mem, stores), d.log)
    decreases |stores|
  {
    if stores != [] {
      var n := |stores| - 1;
      assert DataEffects(stores)[..n] == DataEffects(stores[..n]);
      ApplyDataEffects(d, stores[..n]);
    }
  }

  // ---------- file contents ----------

  /** The bytes of the file. */
  ghost function View(m: Manager, mem: seq<byte>): (f: seq<byte>)
    ensures |f| == m.fileMaxLen && forall p :: 0 <= p < m.fileMaxLen ==> f[p] == FlatByte(m.extents, mem, p)
  {
    seq(m.fileMaxLen, p requires 0 <= p < m.fileMaxLen => FlatByte(m.extents, mem, p))
  }

  /** The flat file `f` after `data` was written at `at`; a gap in front is zero. */
  function Overlay(f: seq<byte>, at: nat, data: seq<byte>): (r: seq<byte>)
    ensures data == [] ==> r == f
    ensures data != [] ==> |r| == Max(|f|, at + |data|)
    ensures data != [] ==> forall i :: 0 <= i < |r| ==>
              r[i] == if at <= i < at + |data| then data[i - at] else if i < |f| then f[i] else 0
  {
    if data == [] then f
    else seq(Max(|f|, at + |data|), i requires 0 <= i < Max(|f|, at + |data|) =>
               if at <= i < at + |data| then data[i - at] else if i < |f| then f[i] else 0)
  }

  lemma OverlaySplit(f: seq<byte>, at: nat, data: seq<byte>, n: nat)
    requires n <= |data|
    ensures Overlay(Overlay(f, at, data[..n]), at + n, data[n..]) == Overlay(f, at, data)
  {
    var g := Overlay(f, at, data[..n]);
    if n == 0 {
      assert data[n..] == data;
    } else if n == |data| {
      assert data[..n] == data;
    } else {
      var r, q := Overlay(g, at + n, data[n..]), Overlay(f, at, data);
      assert |r| == |q|;
      forall i | 0 <= i < |r| ensures r[i] == q[i] { }
    }
  }

  /** Bytes outside the live extents are not part of the file. */
  lemma {:induction false} FlatUnchanged(es: seq<Extent>, mem: seq<byte>, after: seq<byte>, lo: nat, hi: nat, p: nat)
    requires |after| == |mem| && (forall a :: 0 <= a < |mem| && !(lo <= a < hi) ==> after[a] == mem[a])
    requires forall i :: 0 <= i < |es| ==> es[i].start + es[i].size <= lo || hi <= es[i].start
    ensures FlatByte(es, after, p) == FlatByte(es, mem, p)
    decreases |es|
  {
    if es != [] && !es[0].Covers(p) {
      FlatUnchanged(es[1..], mem, after, lo, hi, p);
    }
  }

  lemma ViewUnchanged(m: Manager, mem: seq<byte>, after: seq<byte>, log: seq<FileOp>)
    requires Good(m, |mem|, log) && |after| == |mem|
    requires forall a :: 0 <= a < |mem| && !(m.curWriteStart <= a < m.curArea + m.curSize) ==> after[a] == mem[a]
    ensures View(m, after) == View(m, mem)
  {
    hide FlatByte, AreasOk, LogOk, AllBacked, Sorted;
    forall p | 0 <= p < m.fileMaxLen
      ensures FlatByte(m.extents, after, p) == FlatByte(m.extents, mem, p)
    {
      FlatUnchanged(m.extents, mem, after, m.curWriteStart, m.curArea + m.curSize, p);
    }
    assert View(m, after) == View(m, mem);
  }

  // ---------- each step keeps the state good and does what it should ----------

  lemma SubBacked(x: Extent, spaces: seq<Space>, sp: Space)
    requires sp in spaces && sp.start <= x.start && x.start + x.size <= sp.start + sp.size
    ensures Backed(x, spaces)
  {
    var k :| 0 <= k < |spaces| && spaces[k] == sp;
  }

  lemma FillExtents(m: Manager, size: nat, pos: nat, n: nat)
    requires AreasOk(m, size) && ExtentsOk(m) && 0 < n <= RestSizeOfCurrentArea(m)
    ensures ExtentsOk(Fill(m, pos, n)) && AreasOk(Fill(m, pos, n), size)
  {
    hide Sorted, AllBacked, Below;
    var x := Extent(m.curWriteStart, pos, n);
    var c := Clip(m.extents, pos, pos + n);
    SubBacked(x, m.spaces, Space(m.curArea, m.curSize));
    OverrideSorted(m.extents, x);
    ClipBacked(m.extents, m.spaces, pos, pos + n);
    InsertBacked(c, m.spaces, x);
    OverrideBelow(m.extents, x, m.fileMaxLen);
    forall y | y in Override(m.extents, x)
      ensures y.start + y.size <= m.curWriteStart + n || m.curArea + m.curSize <= y.start
    {
      OverrideMembers(m.extents, x, y);
      if y != x {
        var e :| e in m.extents && y.PartOf(e);
      }
    }
  }

  lemma OverrideMembers(es: seq<Extent>, x: Extent, y: Extent)
    requires y in Override(es, x)
    ensures y == x || exists e :: e in es && y.PartOf(e)
  {
    hide Clip, InsertPos;
    var c := Clip(es, x.fileStart, x.End());
    if y != x {
      assert y in c;
      ClipPartOf(es, x.fileStart, x.End(), y);
    }
  }

  lemma OverrideBelow(es: seq<Extent>, x: Extent, hi: nat)
    requires Below(es, hi)
    ensures Below(Override(es, x), Max(hi, x.End()))
  {
    hide Clip, InsertPos;
    ClipBelow(es, x.fileStart, x.End(), hi);
  }

  lemma FillGood(m: Manager, size: nat, log: seq<FileOp>, pos: nat, n: nat)
    requires Good(m, size, log) && 0 < n <= RestSizeOfCurrentArea(m)
    ensures Good(Fill(m, pos, n), size, log + [WriteData(pos, m.curWriteStart, n)])
  {
    hide AreasOk, ExtentsOk, Override, Replay;
    FillExtents(m, size, pos, n);
    ReplayAppend(log, WriteData(pos, m.curWriteStart, n));
  }

  /** A new area is only added when the current one is full, so a stale write position lies outside it. */
  lemma GrowGood(m: Manager, size: nat, log: seq<FileOp>, addr: nat, n: nat)
    requires Good(m, size, log) && StepOk(m, size, GrowStep(addr, n))
    ensures Good(Grow(m, addr, n), size, log + [AddSpace(addr, n)])
  {
    GrowAreas(m, size, addr, n);
    GrowExtents(m, size, addr, n);
    GrowLog(m, size, log, addr, n);
  }

  lemma GrowAreas(m: Manager, size: nat, addr: nat, n: nat)
    requires AreasOk(m, size) && StepOk(m, size, GrowStep(addr, n))
    ensures AreasOk(Grow(m, addr, n), size)
  {
    hide InsertSpace;
    var g := Grow(m, addr, n);
    forall x | x in g.spaces ensures x.size > 0 && x.start + x.size <= size { InsertSpaceHas(m.spaces, Space(addr, n), x); }
    InsertSpaceHas(m.spaces, Space(addr, n), Space(addr, n));
  }

  lemma GrowExtents(m: Manager, size: nat, addr: nat, n: nat)
    requires ExtentsOk(m) && StepOk(m, size, GrowStep(addr, n))
    ensures ExtentsOk(Grow(m, addr, n))
  {
    hide InsertSpace, Sorted, Below;
    MoreSpaces(m.extents, m.spaces, Space(addr, n));
    forall i | 0 <= i < |m.extents|
      ensures m.extents[i].start + m.extents[i].size <= addr || addr + n <= m.extents[i].start
    {
      assert Backed(m.extents[i], m.spaces);
      var k :| 0 <= k < |m.spaces| && m.spaces[k].start <= m.extents[i].start
             && m.extents[i].start + m.extents[i].size <= m.spaces[k].start + m.spaces[k].size;
      assert Disjoint(m.spaces[k], Space(addr, n));
    }
  }

  lemma GrowLog(m: Manager, size: nat, log: seq<FileOp>, addr: nat, n: nat)
    requires AreasOk(m, size) && LogOk(m, log) && StepOk(m, size, GrowStep(addr, n))
    ensures LogOk(Grow(m, addr, n), log + [AddSpace(addr, n)])
  {
    hide InsertSpace, Replay;
    ReplayAppend(log, AddSpace(addr, n));
    if m.spaces != [] {
      assert Disjoint(Space(m.curArea, m.curSize), Space(addr, n));
    }
  }

  /** Filling overlays the file with the data. */
  lemma FillView(m: Manager, mem: seq<byte>, log: seq<FileOp>, pos: nat, data: seq<byte>)
    requires Good(m, |mem|, log) && 0 < |data| <= RestSizeOfCurrentArea(m) && m.curWriteStart + |data| <= |mem|
    ensures View(Fill(m, pos, |data|), Splice(mem, m.curWriteStart, data)) == Overlay(View(m, mem), pos, data)
  {
    hide FlatByte, AreasOk, LogOk, AllBacked, Override, Splice;
    var after := Splice(mem, m.curWriteStart, data);
    var x := Extent(m.curWriteStart, pos, |data|);
    var f := Fill(m, pos, |data|);
    ViewUnchanged(m, mem, after, log);
    var r := Overlay(View(m, mem), pos, data);
    forall p | 0 <= p < f.fileMaxLen
      ensures View(f, after)[p] == r[p]
    {
      FlatOverride(m.extents, x, after, p);
      if !x.Covers(p) {
        if p < m.fileMaxLen {
          assert FlatByte(m.extents, after, p) == View(m, after)[p];
        } else {
          FlatBeyond(m.extents, after, m.fileMaxLen, p);
        }
      }
    }
  }

  /**
    WriteDataToArea does not look at the result of its log append.  When that
    fails the running file has the data, but a mount finds the file as it was.
   */
  lemma UnloggedFillIsLost(m: Manager, mem: seq<byte>, log: seq<FileOp>, pos: nat, data: seq<byte>)
    requires Good(m, |mem|, log) && 0 < |data| <= RestSizeOfCurrentArea(m) && m.curWriteStart + |data| <= |mem|
    ensures var after := Splice(mem, m.curWriteStart, data);
            && View(Fill(m, pos, |data|), after) == Overlay(View(m, mem), pos, data)
            && View(Rebuild(log), after) == View(m, mem)
  {
    hide View, Overlay, Fill, Rebuild, Override;
    FillView(m, mem, log, pos, data);
    RebuildIsLive(m, |mem|, log);
    ViewUnchanged(m, mem, Splice(mem, m.curWriteStart, data), log);
  }

  lemma FlatOverride(es: seq<Extent>, x: Extent, mem: seq<byte>, p: nat)
    requires Sorted(es) && x.size > 0 && x.start + x.size <= |mem|
    ensures FlatByte(Override(es, x), mem, p) == if x.Covers(p) then mem[x.At(p)] else FlatByte(es, mem, p)
  {
    hide Override, Sorted, MapAt;
    OverrideAt(es, x, p);
  }

  lemma FlatBeyond(es: seq<Extent>, mem: seq<byte>, hi: nat, p: nat)
    requires Below(es, hi) && hi <= p
    ensures FlatByte(es, mem, p) == 0
  {
    MapAtOutside(es, p);
  }

  lemma GrowView(m: Manager, mem: seq<byte>, addr: nat, n: nat)
    ensures View(Grow(m, addr, n), mem) == View(m, mem)
  {
    hide InsertSpace, FlatByte;
  }

  /** A finished step: a good state, and the file overlaid with the step's data. */
  lemma StepDone(m: Manager, d: Disk, pos: nat, st: Step)
    requires Good(m, |d.mem|, d.log) && StepOk(m, |d.mem|, st)
    ensures var after := ApplyEffects(d, StepEffects(m, pos, st));
            var g := StepManager(m, pos, st);
            && |after.mem| == |d.mem| && Good(g, |after.mem|, after.log)
            && View(g, after.mem) == Overlay(View(m, d.mem), pos, if st.FillStep? then st.data else [])
  {
    hide Good, Fill, Grow, RestSizeOfCurrentArea, View, Overlay, Splice;
    StoresFit(m, d, st);
    var stores := StepStores(m, st);
    ApplyDataEffects(d, stores);
    LastEffect(d, DataEffects(stores), Append(StepOp(m, pos, st)));
    match st
    case FillStep(data) =>
      ApplyStoresOf(d.mem, m.curWriteStart, data);
      FillGood(m, |d.mem|, d.log, pos, |data|);
      FillView(m, d.mem, d.log, pos, data);
    case GrowStep(addr, n) =>
      ApplyNone(d.mem);
      GrowGood(m, |d.mem|, d.log, addr, n);
      GrowView(m, d.mem, addr, n);
  }

  lemma LastEffect(d: Disk, es: seq<Effect>, e: Effect)
    ensures ApplyEffects(d, es + [e]) == ApplyEffect(ApplyEffects(d, es), e)
  {
    hide ApplyEffect;
    assert (es + [e])[..|es + [e]| - 1] == es;
  }

  lemma StoresFit(m: Manager, d: Disk, st: Step)
    requires Good(m, |d.mem|, d.log) && StepOk(m, |d.mem|, st)
    ensures InBounds(|d.mem|, StepStores(m, st))
    ensures st.FillStep? ==> m.curWriteStart + |st.data| <= |d.mem|
  {
    hide ExtentsOk, LogOk;
  }

  /** A step cut short: the log, and with it the file, is as before. */
  lemma StepCut(m: Manager, d: Disk, pos: nat, st: Step, k: nat)
    requires Good(m, |d.mem|, d.log) && StepOk(m, |d.mem|, st) && k < |StepEffects(m, pos, st)|
    ensures var after := ApplyEffects(d, StepEffects(m, pos, st)[..k]);
            && |after.mem| == |d.mem| && after.log == d.log
            && View(m, after.mem) == View(m, d.mem)
  {
    hide Good, View, RestSizeOfCurrentArea;
    StoresFit(m, d, st);
    var stores := StepStores(m, st);
    assert StepEffects(m, pos, st)[..k] == DataEffects(stores[..k]);
    ApplyDataEffects(d, stores[..k]);
    CutStoresInTail(m, d, st, k);
    ViewUnchanged(m, d.mem, Apply(d.mem, stores[..k]), d.log);
  }

  predicate InTail(m: Manager, a: nat) { m.curWriteStart <= a < m.curArea + m.curSize }

  lemma CutStoresInTail(m: Manager, d: Disk, st: Step, k: nat)
    requires Good(m, |d.mem|, d.log) && StepOk(m, |d.mem|, st) && k <= |StepStores(m, st)|
    requires InBounds(|d.mem|, StepStores(m, st))
    ensures InBounds(|d.mem|, StepStores(m, st)[..k])
    ensures forall a :: 0 <= a < |d.mem| && !(m.curWriteStart <= a < m.curArea + m.curSize) ==>
              Apply(d.mem, StepStores(m, st)[..k])[a] == d.mem[a]
  {
    hide ExtentsOk, LogOk, Apply;
    var stores := StepStores(m, st)[..k];
    var region := set a: nat | a < m.curArea + m.curSize && InTail(m, a);
    assert Within(stores, region);
    WithinKeeps(d.mem, stores, region);
  }
}
