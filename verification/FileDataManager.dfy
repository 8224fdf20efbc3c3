/** The data of one file: where writes go, what they log, and reading it back. */
module FileDataManager {
  import opened Wrappers
  import opened Nvm
  import opened FileExtents
  import opened FileExtentTree
  import opened FileRead
  import opened FileState
  import opened FileRuns
  import opened FileOutcomes
  import FileLogSpace
  import FilePlaces

  /** A run of 2 MiB blocks, as an extent container lists them. */
  datatype Blocks = Blocks(start: nat, end: nat)

  function BlockArea(b: Blocks): Space
    requires b.start < b.end
  {
    Space(b.start * SIZE_2M, (b.end - b.start) * SIZE_2M)
  }

  predicate NonEmpty(container: seq<Blocks>) {
    forall i :: 0 <= i < |container| ==> container[i].start < container[i].end
  }

  function BlockCount(container: seq<Blocks>): nat
    requires NonEmpty(container)
  {
    if container == [] then 0 else container[0].end - container[0].start + BlockCount(container[1..])
  }

  function Areas(container: seq<Blocks>): (r: seq<Space>)
    requires NonEmpty(container)
    ensures |r| == |container| && forall i :: 0 <= i < |r| ==> r[i] == BlockArea(container[i])
  {
    seq(|container|, i requires 0 <= i < |container| => BlockArea(container[i]))
  }

  function BlocksFor(size: nat): nat { (size + (SIZE_2M - 1)) / SIZE_2M }

  /** Exactly as many blocks as the data needs: all areas but the last are filled. */
  lemma {:induction false} ContainerFits(container: seq<Blocks>, size: nat)
    requires NonEmpty(container) && size > 0 && BlockCount(container) == BlocksFor(size)
    ensures AreasFit(Areas(container), size)
    decreases |container|
  {
    var b := container[0];
    var n := b.end - b.start;
    assert Areas(container)[1..] == Areas(container[1..]);
    NeededBlocks(size, n);
    if |container| > 1 {
      assert BlockCount(container[1..]) >= 1 by { assert container[1..][0] == container[1]; }
      ContainerFits(container[1..], size - n * SIZE_2M);
    } else {
      assert BlockCount(container[1..]) == 0;
    }
  }

  lemma NeededBlocks(size: nat, n: nat)
    requires size > 0 && n > 0
    ensures BlocksFor(size) > n ==> size > n * SIZE_2M && BlocksFor(size - n * SIZE_2M) == BlocksFor(size) - n
    ensures BlocksFor(size) == n ==> size <= n * SIZE_2M
  {
  }

  /** The areas a write of `n` bytes moves on to: none, one page, or the blocks. */
  function NewAreas(rest: int, n: nat, page: Option<nat>, container: seq<Blocks>): seq<Space>
    requires NonEmpty(container)
  {
    if n <= rest then []
    else if n - rest <= SIZE_4K then if page.Some? then [Space(page.value, SIZE_4K)] else []
    else Areas(container)
  }

  class FileDataManager {
    const tree: FileExtentTree
    const dev: Device
    var curArea: nat
    var curWriteStart: nat
    var curSize: nat
    var lastUsedPage: nat
    var fileMaxLen: nat
    /** The entries of the inode log that reached the medium. */
    var log: seq<FileOp>
    ghost var effects: seq<Effect>

    ghost function State(): Manager
      reads this, tree
    {
      Manager(tree.extents, tree.spaces, curArea, curWriteStart, curSize, lastUsedPage, fileMaxLen)
    }

    ghost function Disk(): Disk
      reads this, dev, dev.mem
    {
      FileState.Disk(dev.mem[..], log)
    }

    /** What holds between calls even when an append of the log failed. */
    ghost predicate Running()
      reads this, tree, dev, dev.mem
    {
      dev.Valid() && tree.Ordered() && dev.mem.Length < INVALID
    }

    ghost predicate Valid()
      reads this, tree, dev, dev.mem
    {
      Running() && tree.Valid() && Good(State(), dev.mem.Length, log)
    }

    constructor (device: Device)
      requires device.Valid() && device.mem.Length < INVALID
      ensures Valid() && fresh(tree) && dev == device && State() == NO_FILE && log == []
    {
      var t := new FileExtentTree();
      tree, dev := t, device;
      curArea, curWriteStart, curSize, lastUsedPage, fileMaxLen := INVALID, INVALID, 0, INVALID, 0;
      log, effects := [], [];
    }

    function RestSize(): int
      reads this
    {
      curSize - (curWriteStart - curArea)
    }

    /** The data, its log entry, the extent: `logged` is what LogWrite answers, and nobody looks at it. */
    method WriteDataToArea(buffer: seq<byte>, fileStart: nat, logged: bool)
      requires Running() && buffer != []
      modifies this, tree, dev, dev.mem
      ensures Running() && State() == TryManager(old(State()), fileStart, FillStep(buffer), logged)
      ensures Disk() == ApplyEffects(old(Disk()), TryEffects(old(State()), dev.mem.Length, fileStart, FillStep(buffer), logged))
      ensures effects == old(effects) + TryEffects(old(State()), dev.mem.Length, fileStart, FillStep(buffer), logged)
      ensures curWriteStart == (old(curWriteStart) + |buffer|) % ADDRESSES && fileMaxLen == Max(old(fileMaxLen), fileStart + |buffer|)
      ensures tree.spaces == old(tree.spaces) && unchanged(`curArea) && unchanged(`curSize) && unchanged(`lastUsedPage)
      ensures old(curWriteStart) + |buffer| <= dev.mem.Length ==> dev.mem[..] == Splice(old(dev.mem[..]), old(curWriteStart), buffer)
      ensures log == old(log) + if logged then [WriteData(fileStart, old(curWriteStart), |buffer|)] else []
    {
      hide Good, View, Apply, ApplyEffect, ApplyEffects, Splice, Override, TryEffects;
      ghost var m, d, st := State(), Disk(), FillStep(buffer);
      FillDisk(m, d, fileStart, buffer, logged);
      if curWriteStart + |buffer| <= dev.mem.Length {
        dev.Write(curWriteStart, buffer);
      }
      if logged {
        log := log + [WriteData(fileStart, curWriteStart, |buffer|)];
      }
      effects := effects + TryEffects(m, |d.mem|, fileStart, st, logged);
      tree.FileExtentTreeAddExtent(curWriteStart, fileStart, |buffer|);
      curWriteStart := (curWriteStart + |buffer|) % ADDRESSES;
      if fileMaxLen < fileStart + |buffer| {
        fileMaxLen := fileStart + |buffer|;
      }
    }

    method AddNewSpace(addr: nat, size: nat, logged: bool, ghost pos: nat) returns (err: bool)
      requires Running()
      modifies this, tree
      ensures Running() && (err <==> !logged) && (err ==> unchanged(tree) && unchanged(`log))
      ensures State() == TryManager(old(State()), pos, GrowStep(addr, size), logged)
      ensures Disk() == ApplyEffects(old(Disk()), TryEffects(old(State()), dev.mem.Length, pos, GrowStep(addr, size), logged))
      ensures effects == old(effects) + TryEffects(old(State()), dev.mem.Length, pos, GrowStep(addr, size), logged)
      ensures !err ==> curArea == curWriteStart == addr && curSize == size && log == old(log) + [AddSpace(addr, size)]
      ensures !err ==> lastUsedPage == if size == SIZE_4K then addr else old(lastUsedPage)
      ensures !err ==> unchanged(`fileMaxLen) && tree.extents == old(tree.extents)
      ensures err ==> unchanged(`curArea) && unchanged(`curWriteStart) && unchanged(`curSize) && unchanged(`lastUsedPage) && unchanged(`fileMaxLen)
    {
      hide Good, View, ApplyEffect, InsertSpace, TryEffects, ApplyEffects, Sorted;
      ghost var m, d, st := State(), Disk(), GrowStep(addr, size);
      AreaDisk(m, d, pos, addr, size, logged);
      effects := effects + TryEffects(m, |d.mem|, pos, st, logged);
      if !logged {
        return true;
      }
      log := log + [AddSpace(addr, size)];
      tree.FileExtentTreeAddSpace(addr, size);
      curWriteStart, curArea, curSize := addr, addr, size;
      if size == SIZE_4K {
        lastUsedPage := addr;
      }
      err := false;
    }

    /** Add one new area and write as much of the buffer as it takes, whether or not it was added. */
    method AddAndFill(area: Space, buffer: seq<byte>, fileStart: nat, answers: nat -> bool, i: nat) returns (n: nat)
      requires Running() && buffer != [] && area.size > 0
      modifies this, tree, dev, dev.mem
      ensures Running() && n == Min(|buffer|, area.size)
      ensures State() == TryRun(old(State()), fileStart, AreaSteps(area, buffer), answers, i)
      ensures Disk() == ApplyEffects(old(Disk()), TryRunEffects(old(State()), dev.mem.Length, fileStart, AreaSteps(area, buffer), answers, i))
      ensures effects == old(effects) + TryRunEffects(old(State()), dev.mem.Length, fileStart, AreaSteps(area, buffer), answers, i)
    {
      hide Good, View, TryEffects, TryManager, InsertSpace, Override, ApplyEffects, TryRunEffects, TryRun;
      ghost var m, d := State(), Disk();
      n := if area.size >= |buffer| then |buffer| else area.size;
      ghost var grow, fill := GrowStep(area.start, area.size), FillStep(buffer[..n]);
      var ignored := AddNewSpace(area.start, area.size, answers(i), fileStart);
      ghost var m1 := State();
      WriteDataToArea(buffer[..n], fileStart, answers(i + 1));
      TryPair(m, |d.mem|, fileStart, grow, fill, answers, i);
      ApplyEffectsConcat(d, TryEffects(m, |d.mem|, fileStart, grow, answers(i)), TryEffects(m1, |d.mem|, fileStart, fill, answers(i + 1)));
    }

    /** The loop of FileDataManagerWriteDataLarge over the extents of the container. */
    method FillAreas(container: seq<Blocks>, buffer: seq<byte>, fileStart: nat, answers: nat -> bool, i: nat)
      requires Running() && NonEmpty(container) && AreasFit(Areas(container), |buffer|)
      modifies this, tree, dev, dev.mem
      ensures Running()
      ensures TryLeads(old(State()), old(Disk()), old(effects), fileStart, WriteAreas(Areas(container), buffer), answers, i,
                       State(), Disk(), effects)
    {
      hide Good, View, ApplyEffects, TryRunEffects, TryRun, AreasFit, BlockArea, WriteAreas, TryLeads;
      ghost var m, d, e, areas := State(), Disk(), effects, Areas(container);
      ghost var all := WriteAreas(areas, buffer);
      ghost var es := TryRunEffects(m, |d.mem|, fileStart, all, answers, i);
      ghost var M, D, E := TryRun(m, fileStart, all, answers, i), ApplyEffects(d, es), e + es;
      TryLeadsThere(m, d, e, fileStart, all, answers, i);
      var k, left, pos := 0, buffer, fileStart;
      while k < |container|
        invariant 0 <= k <= |container| && Running()
        invariant k < |container| ==> AreasFit(areas[k..], |left|)
        invariant TryLeads(State(), Disk(), effects, pos, WriteAreas(areas[k..], left), answers, i + 2 * k, M, D, E)
      {
        var area := BlockArea(container[k]);
        ghost var now, disk, trace := State(), Disk(), effects;
        assert areas[k..][0] == area && areas[k..][1..] == areas[k + 1..];
        NextArea(areas[k..], left);
        var n := AddAndFill(area, left, pos, answers, i + 2 * k);
        TryLeadsStep(now, disk, trace, pos, AreaSteps(area, left), WriteAreas(areas[k + 1..], left[n..]), answers, i + 2 * k, M, D, E);
        left, pos, k := left[n..], pos + n, k + 1;
      }
      NoAreas(left);
      assert areas[k..] == [];
      TryLeadsNowhere(State(), Disk(), effects, pos, answers, i + 2 * k, M, D, E);
    }

    /** What is left of the buffer once the current area is full, and the next append. */
    method FillRest(buffer: seq<byte>, fileStart: nat, answers: nat -> bool, ghost areas: seq<Space>)
      returns (left: seq<byte>, pos: nat, i: nat)
      requires Running() && 0 <= RestSize() < |buffer|
      modifies this, tree, dev, dev.mem
      ensures Running()
      ensures left == buffer[RestSizeOfCurrentArea(old(State()))..]
      ensures forall M, D, E :: TryLeads(old(State()), old(Disk()), old(effects), fileStart, WriteSteps(old(State()), buffer, areas),
                                         answers, 0, M, D, E)
                ==> TryLeads(State(), Disk(), effects, pos, WriteAreas(areas, left), answers, i, M, D, E)
    {
      hide Good, View, ApplyEffects, TryRunEffects, TryRun, TryManager, TryEffects, WriteAreas, TryLeads;
      ghost var m, d, e := State(), Disk(), effects;
      left, pos, i := buffer, fileStart, 0;
      var restSize := RestSize();
      if restSize > 0 {
        WriteDataToArea(buffer[..restSize], fileStart, answers(0));
        left, pos, i := buffer[restSize..], fileStart + restSize, 1;
        ghost var st := FillStep(buffer[..restSize]);
        TrySingle(m, |d.mem|, fileStart, st, answers, 0);
        RunSingle(m, fileStart, st);
        forall M, D, E | TryLeads(m, d, e, fileStart, [st] + WriteAreas(areas, left), answers, 0, M, D, E)
          ensures TryLeads(State(), Disk(), effects, pos, WriteAreas(areas, left), answers, i, M, D, E)
        {
          TryLeadsStep(m, d, e, fileStart, [st], WriteAreas(areas, left), answers, 0, M, D, E);
        }
      }
    }

    method FileDataManagerWriteDataSmall(buffer: seq<byte>, fileStart: nat, page: Option<nat>,
                                         answers: nat -> bool) returns (err: bool)
      requires Running() && 0 <= RestSize() < |buffer| <= RestSize() + SIZE_4K
      modifies this, tree, dev, dev.mem
      ensures Running() && (err <==> page.None?)
      ensures err ==> unchanged(this, tree, dev, dev.mem)
      ensures !err ==> TryLeads(old(State()), old(Disk()), old(effects), fileStart,
                                WriteSteps(old(State()), buffer, [Space(page.value, SIZE_4K)]), answers, 0, State(), Disk(), effects)
    {
      hide Good, View, ApplyEffects, TryRunEffects, TryRun, WriteAreas, WriteSteps, TryLeads;
      if page.None? {
        return true;
      }
      ghost var m, d, e, areas := State(), Disk(), effects, [Space(page.value, SIZE_4K)];
      ghost var all := WriteSteps(m, buffer, areas);
      ghost var es := TryRunEffects(m, |d.mem|, fileStart, all, answers, 0);
      ghost var M, D, E := TryRun(m, fileStart, all, answers, 0), ApplyEffects(d, es), e + es;
      TryLeadsThere(m, d, e, fileStart, all, answers, 0);
      var left, pos, i := FillRest(buffer, fileStart, answers, areas);
      ghost var now, disk, trace := State(), Disk(), effects;
      OneAreaFits(page.value, |left|);
      NextArea(areas, left);
      var n := AddAndFill(Space(page.value, SIZE_4K), left, pos, answers, i);
      TryLeadsStep(now, disk, trace, pos, AreaSteps(areas[0], left), WriteAreas(areas[1..], left[n..]), answers, i, M, D, E);
      NoAreas(left[n..]);
      assert areas[1..] == [];
      TryLeadsNowhere(State(), Disk(), effects, pos + n, answers, i + 2, M, D, E);
      err := false;
    }

    method FileDataManagerWriteDataLarge(buffer: seq<byte>, fileStart: nat, container: seq<Blocks>, answers: nat -> bool)
      returns (err: bool)
      requires Running() && 0 <= RestSize() < |buffer| && NonEmpty(container)
      requires BlockCount(container) <= BlocksFor(|buffer| - RestSize())
      modifies this, tree, dev, dev.mem
      ensures Running() && (err <==> BlockCount(container) < BlocksFor(|buffer| - RestSizeOfCurrentArea(old(State()))))
      ensures err ==> unchanged(this, tree, dev, dev.mem)
      ensures !err ==> TryLeads(old(State()), old(Disk()), old(effects), fileStart,
                                WriteSteps(old(State()), buffer, Areas(container)), answers, 0, State(), Disk(), effects)
    {
      hide Good, View, ApplyEffects, TryRunEffects, TryRun, WriteAreas, WriteSteps, TryLeads, AreasFit, BlockArea;
      if BlockCount(container) < BlocksFor(|buffer| - RestSize()) {
        return true;
      }
      ghost var m, d, e, areas := State(), Disk(), effects, Areas(container);
      ghost var all := WriteSteps(m, buffer, areas);
      TryLeadsThere(m, d, e, fileStart, all, answers, 0);
      ContainerFits(container, |buffer| - RestSize());
      var left, pos, i := FillRest(buffer, fileStart, answers, areas);
      ghost var now, disk, trace := State(), Disk(), effects;
      FillAreas(container, left, pos, answers, i);
      ghost var es := TryRunEffects(m, |d.mem|, fileStart, all, answers, 0);
      TryLeadsSame(now, disk, trace, pos, WriteAreas(areas, left), answers, i, TryRun(m, fileStart, all, answers, 0), ApplyEffects(d, es),
                   e + es, State(), Disk(), effects);
      err := false;
    }

    /**
      A write, with what the allocators and the log answered.  It fails exactly when
      the data needs more space than they gave.  What it leaves lasts exactly when all
      its appends were made; then the file is the old one overlaid with the buffer, and
      the trace is the one CrashedWrite cuts.
     */
    method FileDataManagerWriteData(buffer: seq<byte>, fileStart: nat, page: Option<nat>, container: seq<Blocks>,
                                    answers: nat -> bool)
      returns (err: bool, ghost steps: seq<Step>)
      requires Valid() && buffer != []
      requires page.Some? ==> FreshAreas(tree.spaces, [Space(page.value, SIZE_4K)], dev.mem.Length)
      requires NonEmpty(container) && FreshAreas(tree.spaces, Areas(container), dev.mem.Length)
      requires |buffer| > RestSize() ==> BlockCount(container) <= BlocksFor(|buffer| - RestSize())
      modifies this, tree, dev, dev.mem
      ensures Running()
      ensures err ==> unchanged(this, tree, dev, dev.mem)
      ensures var rest := old(RestSize());
              err <==> |buffer| > rest && if |buffer| - rest <= SIZE_4K then page.None? else BlockCount(container) < BlocksFor(|buffer| - rest)
      ensures !err ==> TryLeads(old(State()), old(Disk()), old(effects), fileStart, steps, answers, 0, State(), Disk(), effects)
      ensures !err ==> steps == WriteSteps(old(State()), buffer, NewAreas(old(RestSize()), |buffer|, page, container))
      ensures !err ==> RunOk(old(State()), dev.mem.Length, fileStart, steps) && RunData(steps) == buffer && WriteShape(steps)
      ensures !err ==> (Lasts(old(State()), old(Disk()), fileStart, steps, answers, 0) <==> AllMade(answers, 0, |steps|))
      ensures !err && AllMade(answers, 0, |steps|) ==>
                Valid() && View(State(), dev.mem[..]) == Overlay(old(View(State(), dev.mem[..])), fileStart, buffer)
      ensures !err && AllMade(answers, 0, |steps|) ==>
                FilePlaces.Placed(old(State()), State(), fileStart, |buffer|, NewAreas(old(RestSize()), |buffer|, page, container))
    {
      hide Good, View, InsertSpace, Override, Overlay, ApplyEffects, TryRunEffects, TryRun, RunManager, RunEffects, RunData,
           RunOk, WriteAreas, WriteSteps, TryLeads, FreshAreas, AreasFit, BlockArea, BlockCount, BlocksFor, WriteShape, Lasts,
           AllMade, TryManager, TryEffects, FilePlaces.Placed;
      ghost var m, d, e := State(), Disk(), effects;
      GoodRest(m, dev.mem.Length, log);
      var restSize := RestSize();
      ghost var areas := [];
      if |buffer| <= restSize {
        FillOnly(m, d, e, fileStart, buffer, answers);
        WriteDataToArea(buffer, fileStart, answers(0));
        NoFresh(tree.spaces, dev.mem.Length);
        NoFresh(m.spaces, dev.mem.Length);
        err := false;
      } else if |buffer| - restSize <= SIZE_4K {
        err := FileDataManagerWriteDataSmall(buffer, fileStart, page, answers);
        if !err {
          areas := [Space(page.value, SIZE_4K)];
          OneAreaFits(page.value, |buffer| - restSize);
        }
      } else {
        err := FileDataManagerWriteDataLarge(buffer, fileStart, container, answers);
        if !err {
          areas := Areas(container);
          ContainerFits(container, |buffer| - restSize);
        }
      }
      steps := WriteSteps(m, buffer, areas);
      if !err {
        GoodAreas(m, d);
        WriteStepsOk(m, |d.mem|, fileStart, buffer, areas);
        FileLogSpace.WriteNeeds(m, |d.mem|, buffer, areas);
        LastsIff(m, d, fileStart, steps, answers, 0);
        if AllMade(answers, 0, |steps|) {
          MadeWrite(m, d, e, fileStart, steps, answers, State(), Disk(), effects);
          GoodBacks(State(), dev.mem.Length, log);
          WhereItGoes(m, d, fileStart, buffer, areas);
        }
      }
    }

    /**
      `logged` is what LogWrite answers: without the entry nothing happens.  With it the
      file is empty, and what fitted the rest of the current area still does.
     */
    method FileDataManagerTruncate(logged: bool) returns (err: bool)
      requires Valid()
      modifies this, tree
      ensures Valid() && (err <==> !logged)
      ensures err ==> unchanged(this, tree)
      ensures !err ==> State() == Truncated(old(State())) && log == old(log) + [Truncate] && View(State(), dev.mem[..]) == []
      ensures tree.spaces == old(tree.spaces) && RestSize() == old(RestSize())
      ensures unchanged(`curArea) && unchanged(`curWriteStart) && unchanged(`curSize) && unchanged(`lastUsedPage)
    {
      hide Good, InsertSpace, Override;
      if !logged {
        return true;
      }
      TruncGood(Live(State(), Disk()));
      log := log + [Truncate];
      effects := effects + [Append(Truncate)];
      tree.FileExtentTreeTruncate();
      fileMaxLen := 0;
      err := false;
    }

    /** Where a read ends. */
    function ReadEnd(size: nat, fileStart: nat): nat
      reads this
    {
      Min(fileStart + size, fileMaxLen)
    }

    /**
      The number of bytes read.  They are the bytes of the flat file when the
      destination was zero or no hole of the range is followed by data; ReadRightIff
      says that for other destinations they are not.  Behind them nothing is stored
      when the gaps fit, and StaysInsideIff says that otherwise there is.
     */
    method FileDataManagerReadData(size: nat, fileStart: nat, buffer: array<byte>) returns (n: nat)
      requires Valid() && size <= buffer.Length && buffer != dev.mem
      requires fileStart < fileMaxLen ==> Standing(tree.extents, fileStart, ReadEnd(size, fileStart), fileStart)
      requires fileStart < fileMaxLen ==> StaysWithin(tree.extents, fileStart, ReadEnd(size, fileStart), fileStart, buffer.Length)
      modifies buffer
      ensures n == if fileStart >= fileMaxLen then 0 else Min(size, fileMaxLen - fileStart)
      ensures n == 0 ==> buffer[..] == old(buffer[..])
      ensures n > 0 && (MappedPrefix(tree.extents, fileStart, fileStart + n) || old(AllZero(buffer[..Min(size, fileMaxLen - fileStart)]))) ==>
                buffer[..n] == View(State(), dev.mem[..])[fileStart..fileStart + n]
      ensures n > 0 && GapsFit(tree.extents, fileStart, fileStart + n) ==> buffer[n..] == old(buffer[n..])
    {
      hide Good, ReadFrom, FlatByte, Sorted, MappedPrefix, FirstGap, StaysWithin, GapsFit;
      if fileStart >= fileMaxLen {
        return 0;
      }
      var end := fileStart + size;
      if end > fileMaxLen {
        end := fileMaxLen;
      }
      n := end - fileStart;
      ExtentsInDevice(State(), dev.mem.Length, log);
      ghost var es, mem, b := tree.extents, dev.mem[..], buffer[..];
      if AllZero(b[..n]) {
        assert forall i :: 0 <= i < n ==> b[i] == b[..n][i];
        ReadIntoZeros(es, mem, fileStart, end, fileStart, b);
      }
      FirstGapNone(es, fileStart, end, fileStart);
      if MappedPrefix(es, fileStart, end) {
        ReadWithoutGap(es, mem, fileStart, end, fileStart, b);
      }
      if n == 0 {
        ReadNothing(es, mem, fileStart, b);
      }
      StaysIff(es, fileStart, end, fileStart);
      FileExtentTreeRead(tree, dev, fileStart, end, buffer);
      ghost var f := View(State(), dev.mem[..]);
      if MappedPrefix(es, fileStart, end) || AllZero(b[..n]) {
        SliceMatches(buffer[..], f, fileStart, n);
      }
      if GapsFit(es, fileStart, end) {
        forall i | n <= i < |b| ensures buffer[i] == b[i] { BehindKept(es, mem, fileStart, end, fileStart, b, n, i); }
      }
    }
  }

  lemma SliceMatches(b: seq<byte>, f: seq<byte>, start: nat, n: nat)
    requires n <= |b| && start + n <= |f|
    requires forall p :: start <= p < start + n ==> b[p - start] == f[p]
    ensures b[..n] == f[start..start + n]
  {
    var c := f[start..start + n];
    forall i | 0 <= i < n ensures b[i] == c[i] {
      var p := start + i;
      assert b[p - start] == f[p];
    }
  }

  predicate AllZero(b: seq<byte>) { forall i :: 0 <= i < |b| ==> b[i] == 0 }

  lemma ReadNothing(es: seq<Extent>, mem: seq<byte>, s: nat, buf: seq<byte>)
    requires InDevice(es, |mem|) && Sorted(es) && StaysWithin(es, s, s, s, |buf|)
    ensures ReadFrom(es, mem, s, s, s, buf) == buf
  {
    hide Sorted, ReadFrom, StaysWithin;
    DoubleStays(es, s, s, s);
    forall i | 0 <= i < |buf| ensures ReadFrom(es, mem, s, s, s, buf)[i] == buf[i] { BehindKept(es, mem, s, s, s, buf, 0, i); }
  }

  lemma GoodRest(m: Manager, size: nat, log: seq<FileOp>)
    requires Good(m, size, log)
    ensures RestSizeOfCurrentArea(m) >= 0
  {
    hide ExtentsOk, LogOk;
  }

  lemma GoodAreas(m: Manager, d: Disk)
    requires Good(m, |d.mem|, d.log)
    ensures AreasOk(m, |d.mem|)
  {
  }

  lemma WhereItGoes(m: Manager, d: Disk, pos: nat, buffer: seq<byte>, areas: seq<Space>)
    requires Good(m, |d.mem|, d.log) && buffer != []
    requires if |buffer| <= RestSizeOfCurrentArea(m) then areas == [] else AreasFit(areas, |buffer| - RestSizeOfCurrentArea(m))
    ensures FilePlaces.Placed(m, RunManager(m, pos, WriteSteps(m, buffer, areas)), pos, |buffer|, areas)
  {
    hide LogOk, AreasFit, WriteSteps, RunManager;
    FilePlaces.WritePlaced(m, |d.mem|, pos, buffer, areas);
  }

  lemma ExtentsInDevice(m: Manager, size: nat, log: seq<FileOp>)
    requires Good(m, size, log)
    ensures InDevice(m.extents, size) && Sorted(m.extents)
  {
    hide Sorted, LogOk, Below;
    forall i | 0 <= i < |m.extents|
      ensures m.extents[i].start + m.extents[i].size <= size
    {
      assert Backed(m.extents[i], m.spaces);
    }
  }

  lemma TryLeadsSame(m: Manager, d: Disk, e: seq<Effect>, pos: nat, steps: seq<Step>, answers: nat -> bool, i: nat,
                     M: Manager, D: Disk, E: seq<Effect>, M2: Manager, D2: Disk, E2: seq<Effect>)
    requires TryLeads(m, d, e, pos, steps, answers, i, M, D, E) && TryLeads(m, d, e, pos, steps, answers, i, M2, D2, E2)
    ensures M == M2 && D == D2 && E == E2
  {
  }

  lemma FillOnly(m: Manager, d: Disk, e: seq<Effect>, pos: nat, buffer: seq<byte>, answers: nat -> bool)
    requires |buffer| <= RestSizeOfCurrentArea(m)
    ensures var es := TryEffects(m, |d.mem|, pos, FillStep(buffer), answers(0));
            TryLeads(m, d, e, pos, WriteSteps(m, buffer, []), answers, 0, TryManager(m, pos, FillStep(buffer), answers(0)),
                     ApplyEffects(d, es), e + es)
  {
    hide ApplyEffects, TryEffects, TryManager;
    TrySingle(m, |d.mem|, pos, FillStep(buffer), answers, 0);
  }

  /** With every append made, the write ends where FileRuns says. */
  lemma MadeWrite(m: Manager, d: Disk, e: seq<Effect>, pos: nat, steps: seq<Step>,
                  answers: nat -> bool, M: Manager, D: Disk, E: seq<Effect>)
    requires Good(m, |d.mem|, d.log) && RunOk(m, |d.mem|, pos, steps) && AllMade(answers, 0, |steps|)
    requires TryLeads(m, d, e, pos, steps, answers, 0, M, D, E)
    ensures |D.mem| == |d.mem| && Good(M, |D.mem|, D.log) && View(M, D.mem) == Overlay(View(m, d.mem), pos, RunData(steps))
    ensures M == RunManager(m, pos, steps) && D == ApplyEffects(d, RunEffects(m, pos, steps)) && E == e + RunEffects(m, pos, steps)
  {
    hide Good, RunOk, AllMade, View, Overlay, RunData, RunManager, RunEffects, TryRun, TryRunEffects, ApplyEffects;
    MadeRun(m, d, pos, steps, answers, 0);
    FinishedWrite(m, d, pos, steps);
  }

  lemma GoodBacks(m: Manager, size: nat, log: seq<FileOp>)
    requires Good(m, size, log)
    ensures AllBacked(m.extents, m.spaces)
  {
  }

  lemma NoFresh(spaces: seq<Space>, size: nat)
    ensures FreshAreas(spaces, [], size)
  {
  }

  lemma OneAreaFits(page: nat, n: nat)
    requires 0 < n <= SIZE_4K
    ensures AreasFit([Space(page, SIZE_4K)], n)
  {
  }

  lemma NoAreas(buffer: seq<byte>)
    ensures WriteAreas([], buffer) == []
  {
  }

  /** One round of that loop: the next area takes some of the buffer and leaves the rest to the others. */
  lemma NextArea(areas: seq<Space>, buf: seq<byte>)
    requires areas != [] && AreasFit(areas, |buf|)
    ensures buf != [] && areas[0].size > 0
    ensures var n := Min(|buf|, areas[0].size);
            && WriteAreas(areas, buf) == AreaSteps(areas[0], buf) + WriteAreas(areas[1..], buf[n..])
            && |AreaSteps(areas[0], buf)| == 2 && |RunData(AreaSteps(areas[0], buf))| == n
            && (areas[1..] != [] ==> AreasFit(areas[1..], |buf| - n) && n <= |buf|)
  {
    hide RunData, WriteAreas, AreasFit;
    FirstAreaSteps(areas, buf);
    var steps := AreaSteps(areas[0], buf);
    RunPair(NO_FILE, 0, steps[0], steps[1]);
    assert steps == [steps[0], steps[1]];
  }

  lemma FirstAreaSteps(areas: seq<Space>, buf: seq<byte>)
    requires areas != [] && AreasFit(areas, |buf|)
    ensures buf != [] && areas[0].size > 0
    ensures WriteAreas(areas, buf) == AreaSteps(areas[0], buf) + WriteAreas(areas[1..], buf[Min(|buf|, areas[0].size)..])
    ensures areas[1..] != [] ==> areas[0].size < |buf| && AreasFit(areas[1..], |buf| - areas[0].size)
  {
  }

  function AreaSteps(area: Space, buffer: seq<byte>): seq<Step> {
    [GrowStep(area.start, area.size), FillStep(buffer[..Min(|buffer|, area.size)])]
  }

  lemma FillDisk(m: Manager, d: Disk, pos: nat, data: seq<byte>, ok: bool)
    ensures ApplyEffects(d, TryEffects(m, |d.mem|, pos, FillStep(data), ok))
         == FileState.Disk(if m.curWriteStart + |data| <= |d.mem| then Splice(d.mem, m.curWriteStart, data) else d.mem,
                           d.log + if ok then [WriteData(pos, m.curWriteStart, |data|)] else [])
  {
    hide Splice, TryEffects, ApplyEffects;
    var st := FillStep(data);
    TryStepLog(m, d, pos, st, ok);
    TryStepMem(m, d, pos, st, ok);
  }

  lemma AreaDisk(m: Manager, d: Disk, pos: nat, addr: nat, size: nat, ok: bool)
    ensures ApplyEffects(d, TryEffects(m, |d.mem|, pos, GrowStep(addr, size), ok))
         == d.(log := d.log + if ok then [AddSpace(addr, size)] else [])
  {
    hide TryEffects, ApplyEffects;
    var st := GrowStep(addr, size);
    TryStepLog(m, d, pos, st, ok);
    TryStepMem(m, d, pos, st, ok);
  }

  /** What a step does to the device bytes. */
  lemma TryStepMem(m: Manager, d: Disk, pos: nat, st: Step, ok: bool)
    ensures ApplyEffects(d, TryEffects(m, |d.mem|, pos, st, ok)).mem
         == if st.FillStep? && m.curWriteStart + |st.data| <= |d.mem| then Splice(d.mem, m.curWriteStart, st.data) else d.mem
  {
    hide Splice, ApplyEffects, StepOp;
    var stores := TryStores(m, |d.mem|, st);
    TryStoresApply(m, d.mem, st);
    ApplyDataEffects(d, stores);
    var es := DataEffects(stores);
    if ok {
      LastEffect(d, es, Append(StepOp(m, pos, st)));
    } else {
      assert es + [] == es;
    }
  }

  lemma TryStoresApply(m: Manager, mem: seq<byte>, st: Step)
    ensures InBounds(|mem|, TryStores(m, |mem|, st))
    ensures Apply(mem, TryStores(m, |mem|, st))
         == if st.FillStep? && m.curWriteStart + |st.data| <= |mem| then Splice(mem, m.curWriteStart, st.data) else mem
  {
    hide Splice, Apply;
    if st.FillStep? && m.curWriteStart + |st.data| <= |mem| {
      ApplyStoresOf(mem, m.curWriteStart, st.data);
    } else {
      ApplyNone(mem);
    }
  }
}
