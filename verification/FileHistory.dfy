/** Whole histories of a file on the device, with losses of power and mounts between the events. */
module FileHistory {
  import opened Wrappers
  import opened Nvm
  import opened ChainedSpace
  import opened ContinousSpace
  import opened LogLayout
  import opened Log
  import opened FileExtents
  import opened FileExtentTree
  import opened FileRead
  import opened FileState
  import opened FileRuns
  import opened FileInodeInfo
  import opened FileCrash
  import opened FileDevice
  import FileLogSpace

  /** The running file system: its manager, the bytes of the device, and the log that is in them. */
  datatype Image = Image(m: Manager, mem: seq<byte>, chain: seq<nat>, ops: seq<FileOp>)

  datatype Job = WriteJob(pos: nat, data: seq<byte>, areas: seq<Space>) | TruncateJob

  /** A job with the pages its log may take, and after how many stores the power is lost, if it is. */
  datatype DeviceEvent = DeviceEvent(job: Job, pages: seq<nat>, cut: Option<nat>)

  ghost function JobEffects(m: Manager, job: Job): seq<Effect> {
    match job
    case WriteJob(pos, data, areas) => RunEffects(m, pos, WriteSteps(m, data, areas))
    case TruncateJob => [Append(Truncate)]
  }

  function JobManager(m: Manager, job: Job): Manager {
    match job
    case WriteJob(pos, data, areas) => RunManager(m, pos, WriteSteps(m, data, areas))
    case TruncateJob => Truncated(m)
  }

  function JobAreas(job: Job): seq<Space> { if job.WriteJob? then job.areas else [] }

  /** The log space the job needs. */
  function JobBytes(m: Manager, job: Job): nat {
    match job
    case WriteJob(_, data, areas) => FileLogSpace.LogBytes(WriteSteps(m, data, areas))
    case TruncateJob => AppendSize(0) - WORD
  }

  // ---------- the log in the bytes ----------

  /** A log a mount can read: FileInodeInfo.Rebuild asks for no more. */
  ghost predicate LogThere(mem: seq<byte>, chain: seq<nat>, start: nat, ops: seq<FileOp>) {
    && start % WORD == 0 && chain != [] && OnMedium(mem, chain, start, EncodeAll(ops)) && FitAll(ops)
    && Capacity(chain) - EndOf(start, EncodeAll(ops)) <= BODY_SIZE
  }

  lemma {:induction false} SamePage(mem: seq<byte>, a: seq<nat>, b: seq<nat>, i: nat)
    requires Linked(mem, a) && Linked(mem, b) && i < |a| && i < |b| && a[0] == b[0]
    ensures a[i] == b[i]
    decreases i
  {
    hide PageLink;
    if i > 0 {
      SamePage(mem, a, b, i - 1);
      LinkIs(mem, a, i - 1);
      LinkIs(mem, b, i - 1);
    }
  }

  lemma LinkIs(mem: seq<byte>, chain: seq<nat>, i: nat)
    requires Linked(mem, chain) && i + 1 < |chain|
    ensures chain[i] + LINK_SIZE <= |mem| && chain[i + 1] == PageLink(mem, chain[i])
  {
    hide PageLink;
  }

  lemma LongerChain(mem: seq<byte>, start: nat, a: seq<nat>, x: seq<FileOp>, b: seq<nat>, y: seq<FileOp>)
    requires LogThere(mem, a, start, x) && LogThere(mem, b, start, y) && a[0] == b[0] && |a| <= |b|
    ensures a == b && EncodeAll(x) == EncodeAll(y)
  {
    hide EndOf, LogAt, Locate, Encode, FitAll, PageLink, Linked, Stream;
    LogEndFits(mem, a, start, EncodeAll(x));
    LinkedIsChain(mem, a);
    LinkedIsChain(mem, b);
    forall i | 0 <= i < |a| ensures a[i] == b[i] { SamePage(mem, a, b, i); }
    assert b == a + b[|a|..];
    LogInLongerChain(mem, a, b[|a|..], start, EncodeAll(x));
    LogAtUnique(Stream(mem, b), start, EncodeAll(x), EncodeAll(y));
    assert |b| * BODY_SIZE < (|a| + 1) * BODY_SIZE;
  }

  lemma EncodeAllInjective(x: seq<FileOp>, y: seq<FileOp>)
    requires EncodeAll(x) == EncodeAll(y) && FitAll(x) && FitAll(y)
    ensures x == y
  {
    hide Encode, VisitsOf, OpsOfVisits, EncodeAll;
    VisitsDecode(x, [], 0);
    VisitsDecode(y, [], 0);
  }

  /** From one first page the bytes hold at most one log: what a mount finds is settled. */
  lemma LogUnique(mem: seq<byte>, start: nat, a: seq<nat>, x: seq<FileOp>, b: seq<nat>, y: seq<FileOp>)
    requires LogThere(mem, a, start, x) && LogThere(mem, b, start, y) && a[0] == b[0]
    ensures a == b && x == y
  {
    hide EndOf, OnMedium, EncodeAll, FitAll;
    if |a| <= |b| {
      LongerChain(mem, start, a, x, b, y);
    } else {
      LongerChain(mem, start, b, y, a, x);
    }
    EncodeAllInjective(x, y);
  }

  // ---------- events ----------

  /** What holds between events: the log is in the bytes, tells the manager, and the spaces keep off its pages. */
  ghost predicate Held(s: Image, start: nat) {
    && LogThere(s.mem, s.chain, start, s.ops) && Good(s.m, |s.mem|, s.ops) && SpacesApart(s.m.spaces, s.chain)
  }

  ghost function Contents(s: Image): seq<byte> { View(s.m, s.mem) }

  /** Bytes left in the last page of the log. */
  ghost function Rest(s: Image, start: nat): nat {
    var w := EndOf(start, EncodeAll(s.ops));
    if w <= Capacity(s.chain) then Capacity(s.chain) - w else 0
  }

  /** What the allocators give is usable and apart from everything in use, and is enough. */
  ghost predicate EventOk(s: Image, start: nat, e: DeviceEvent) {
    && Chain(|s.mem|, s.chain + e.pages) && SpacesApart(s.m.spaces, e.pages)
    && SpacesApart(JobAreas(e.job), s.chain) && SpacesApart(JobAreas(e.job), e.pages)
    && (e.job.WriteJob? ==> WriteOk(Live(s.m, Disk(s.mem, s.ops)), e.job.data, e.job.areas) && e.job.pos + |e.job.data| <= U64)
    && PagesNeeded(Rest(s, start), JobBytes(s.m, e.job) + WORD) <= |e.pages|
  }

  /** All stores of a job, the log pages taken from the front of the pages given. */
  ghost function Stores(s: Image, start: nat, e: DeviceEvent): seq<Store> {
    var es, all := JobEffects(s.m, e.job), s.chain + e.pages;
    var shares := Shares(es, Rest(s, start), e.pages);
    if Lowerable(es, |s.mem|, s.chain, start, s.ops, shares, all) then Lower(es, |s.mem|, s.chain, start, s.ops, shares, all) else []
  }

  ghost function Made(stores: seq<Store>, cut: Option<nat>): (r: seq<Store>)
    ensures r <= stores
  {
    if cut.Some? && cut.value <= |stores| then stores[..cut.value] else stores
  }

  /**
    The state after an event.  The stores made are on the device, the log is the one
    the bytes hold from the same first page, and the manager is the running one or,
    when the power was lost, the one rebuilt from that log.
   */
  ghost predicate Next(s: Image, start: nat, e: DeviceEvent, t: Image) {
    && Stored(s.mem, Made(Stores(s, start, e), e.cut), t.mem)
    && LogThere(t.mem, t.chain, start, t.ops) && s.chain != [] && t.chain[0] == s.chain[0]
    && t.m == if e.cut.Some? then FileState.Rebuild(t.ops) else JobManager(s.m, e.job)
  }

  /** The same on a flat file. */
  ghost predicate FlatNext(f: seq<byte>, e: DeviceEvent, g: seq<byte>) {
    match e.job
    case WriteJob(pos, data, _) =>
      if e.cut.None? then g == Overlay(f, pos, data) else exists n :: 0 <= n <= |data| && g == Overlay(f, pos, data[..n])
    case TruncateJob => g == [] || (e.cut.Some? && g == f)
  }

  /** There is at most one next state. */
  lemma NextUnique(s: Image, start: nat, e: DeviceEvent, t: Image, u: Image)
    requires Next(s, start, e, t) && Next(s, start, e, u)
    ensures t == u
  {
    hide Stores, LogThere, JobManager, FileState.Rebuild;
    LogThereSome(t.mem, t.chain, start, t.ops);
    LogUnique(t.mem, start, t.chain, t.ops, u.chain, u.ops);
  }

  lemma LogThereSome(mem: seq<byte>, chain: seq<nat>, start: nat, ops: seq<FileOp>)
    requires LogThere(mem, chain, start, ops)
    ensures chain != []
  {
  }

  // ---------- the stores of an event exist ----------

  lemma JoinApart(spaces: seq<Space>, a: seq<nat>, b: seq<nat>)
    requires SpacesApart(spaces, a) && SpacesApart(spaces, b)
    ensures SpacesApart(spaces, a + b)
  {
    forall x | x in spaces ensures SpaceApart(x.start, x.size, a + b) {
      assert SpaceApart(x.start, x.size, a) && SpaceApart(x.start, x.size, b);
      forall p | x.start <= p < x.start + x.size ensures !InPages(a + b, p) { InEither(a, b, p); }
    }
  }

  lemma InEither(a: seq<nat>, b: seq<nat>, p: nat)
    ensures InPages(a + b, p) ==> InPages(a, p) || InPages(b, p)
  {
    if InPages(a + b, p) {
      var i :| 0 <= i < |a + b| && (a + b)[i] <= p < (a + b)[i] + PAGE_SIZE;
      assert if i < |a| then (a + b)[i] == a[i] else (a + b)[i] == b[i - |a|];
    }
  }

  lemma JobFine(s: Image, start: nat, e: DeviceEvent)
    requires Held(s, start) && EventOk(s, start, e)
    ensures EffectsFine(JobEffects(s.m, e.job), |s.mem|, s.chain + e.pages)
    ensures EffectBytes(JobEffects(s.m, e.job)) == JobBytes(s.m, e.job)
    ensures SpacesApart(s.m.spaces, s.chain + e.pages)
  {
    hide LogThere, Good, SpacesApart, EffectFine, RunOk, RunEffects, WriteSteps, FileLogSpace.LogBytes, FreshAreas, AreasFit,
         PagesNeeded, Chain, AlignUp, RunData;
    var all := s.chain + e.pages;
    JoinApart(s.m.spaces, s.chain, e.pages);
    match e.job
    case WriteJob(pos, data, areas) =>
      JoinApart(areas, s.chain, e.pages);
      var d := Disk(s.mem, s.ops);
      WriteReady(s.m, d, pos, data, areas);
      WriteAdded(s.m, data, areas);
      AddedApart(WriteSteps(s.m, data, areas), areas, all);
      RunFine(s.m, d, pos, WriteSteps(s.m, data, areas), all);
    case TruncateJob =>
      LastBytes(Append(Truncate));
      assert EffectFine(Append(Truncate), |s.mem|, all) by { TruncateFine(|s.mem|, all); }
  }

  lemma WriteReady(m: Manager, d: Disk, pos: nat, data: seq<byte>, areas: seq<Space>)
    requires Good(m, |d.mem|, d.log) && WriteOk(Live(m, d), data, areas)
    ensures RunOk(m, |d.mem|, pos, WriteSteps(m, data, areas)) && RunData(WriteSteps(m, data, areas)) == data
  {
    hide Good, RunOk, RunData, WriteSteps, FreshAreas, AreasFit;
    SoundAreas(Live(m, d));
    WriteStepsOk(m, |d.mem|, pos, data, areas);
  }

  lemma TruncateFine(size: nat, all: seq<nat>)
    ensures EffectFine(Append(Truncate), size, all)
  {
  }

  lemma LogTight(mem: seq<byte>, chain: seq<nat>, start: nat, ops: seq<FileOp>)
    requires LogThere(mem, chain, start, ops)
    ensures Tight(chain, EndOf(start, EncodeAll(ops))) && Linked(mem, chain)
  {
    hide EndOf, LogAt, Stream, FitAll, EncodeAll;
    LogEndFits(mem, chain, start, EncodeAll(ops));
    LogAtEnd(Stream(mem, chain), start, EncodeAll(ops));
  }

  /** Pages enough for the log, and the job can be stored. */
  lemma JobLower(s: Image, start: nat, e: DeviceEvent)
    requires Held(s, start) && EventOk(s, start, e)
    ensures var es := JobEffects(s.m, e.job);
            Lowerable(es, |s.mem|, s.chain, start, s.ops, Shares(es, Rest(s, start), e.pages), s.chain + e.pages)
  {
    hide Good, SpacesApart, EffectsFine, JobEffects, JobBytes, EffectBytes, PagesNeeded, Chain, Shares, EncodeAll, EndOf,
         OnMedium, Capacity;
    JobFine(s, start, e);
    LogTight(s.mem, s.chain, start, s.ops);
    SharesLower(JobEffects(s.m, e.job), |s.mem|, s.chain, start, s.ops, e.pages, s.chain + e.pages);
  }

  // ---------- some whole effects of a job ----------

  /** After the first `j` effects of a job: a good manager in the log, and the file it describes. */
  lemma JobCut(m: Manager, d: Disk, job: Job, j: nat)
    requires Good(m, |d.mem|, d.log) && j <= |JobEffects(m, job)|
    requires job.WriteJob? ==> WriteOk(Live(m, d), job.data, job.areas)
    ensures var after := ApplyEffects(d, JobEffects(m, job)[..j]);
            var r := FileState.Rebuild(after.log);
            && |after.mem| == |d.mem| && Good(r, |after.mem|, after.log)
            && FlatNext(View(m, d.mem), DeviceEvent(job, [], Some(0)), View(r, after.mem))
    ensures j == |JobEffects(m, job)| ==>
              var after := ApplyEffects(d, JobEffects(m, job)[..j]);
              FileState.Rebuild(after.log) == JobManager(m, job)
              && FlatNext(View(m, d.mem), DeviceEvent(job, [], None), View(JobManager(m, job), after.mem))
  {
    match job
    case WriteJob(pos, data, areas) => WriteCut(m, d, pos, data, areas, j);
    case TruncateJob => TruncateCut(m, d, j);
  }

  lemma WriteCut(m: Manager, d: Disk, pos: nat, data: seq<byte>, areas: seq<Space>, j: nat)
    requires Good(m, |d.mem|, d.log) && WriteOk(Live(m, d), data, areas)
    requires j <= |RunEffects(m, pos, WriteSteps(m, data, areas))|
    ensures var es := RunEffects(m, pos, WriteSteps(m, data, areas));
            var after := ApplyEffects(d, es[..j]);
            var r := FileState.Rebuild(after.log);
            && |after.mem| == |d.mem| && Good(r, |after.mem|, after.log)
            && (exists n :: 0 <= n <= |data| && View(r, after.mem) == Overlay(View(m, d.mem), pos, data[..n]))
            && (j == |es| ==> r == RunManager(m, pos, WriteSteps(m, data, areas)) && View(r, after.mem) == Overlay(View(m, d.mem), pos, data))
  {
    hide Good, RunOk, RunData, RunEffects, RunManager, WriteSteps, FreshAreas, AreasFit, WriteOk, View, Overlay, ApplyEffects,
         FileState.Rebuild;
    var steps := WriteSteps(m, data, areas);
    var es := RunEffects(m, pos, steps);
    WriteReady(m, d, pos, data, areas);
    CrashedWrite(m, d, pos, steps, j);
    var n := Committed(m, pos, steps, j);
    assert View(FileState.Rebuild(ApplyEffects(d, es[..j]).log), ApplyEffects(d, es[..j]).mem) == Overlay(View(m, d.mem), pos, data[..n]);
    if j == |es| {
      assert es[..j] == es;
      FinishedWrite(m, d, pos, steps);
      var after := ApplyEffects(d, es);
      RebuildIsLive(RunManager(m, pos, steps), |after.mem|, after.log);
    }
  }

  lemma TruncateCut(m: Manager, d: Disk, j: nat)
    requires Good(m, |d.mem|, d.log) && j <= 1
    ensures var after := ApplyEffects(d, [Append(Truncate)][..j]);
            var r := FileState.Rebuild(after.log);
            && after.mem == d.mem && Good(r, |after.mem|, after.log)
            && (j == 0 ==> r == m) && (j == 1 ==> r == Truncated(m) && View(r, after.mem) == [])
  {
    hide Good, View, FileState.Rebuild, Truncated, Replay, ApplyEffects;
    RebuildIsLive(m, |d.mem|, d.log);
    TruncateEffect(d);
    if j == 0 {
      assert [Append(Truncate)][..j] == [];
    } else {
      assert [Append(Truncate)][..j] == [Append(Truncate)];
      TruncGood(Live(m, d));
      RebuildIsLive(Truncated(m), |d.mem|, d.log + [Truncate]);
    }
  }

  lemma TruncateEffect(d: Disk)
    ensures ApplyEffects(d, []) == d
    ensures ApplyEffects(d, [Append(Truncate)]) == Disk(d.mem, d.log + [Truncate])
  {
    LastEffect(d, [], Append(Truncate));
    assert [] + [Append(Truncate)] == [Append(Truncate)];
  }

  // ---------- one event ----------

  lemma {:induction false} LogFromSpaces(log: seq<FileOp>, all: seq<nat>)
    requires SpacesApart(Replay(log).spaces, all)
    ensures LogApart(log, all)
    decreases |log|
  {
    hide SpaceApart, InsertSpace;
    if log != [] {
      var n := |log| - 1;
      var before, op := Replay(log[..n]), log[n];
      if op.AddSpace? {
        forall x | x in before.spaces ensures SpaceApart(x.start, x.size, all) {
          InsertSpaceHas(before.spaces, Space(op.addr, op.size), x);
        }
        InsertSpaceHas(before.spaces, Space(op.addr, op.size), Space(op.addr, op.size));
      }
      LogFromSpaces(log[..n], all);
    }
  }

  lemma GoodSpaces(m: Manager, size: nat, log: seq<FileOp>)
    requires Good(m, size, log)
    ensures Replay(log).spaces == m.spaces
  {
  }

  lemma SpacesOffLog(m: Manager, size: nat, log: seq<FileOp>, all: seq<nat>, chain: seq<nat>)
    requires Good(m, size, log) && LogApart(log, all) && forall p :: p in chain ==> p in all
    ensures SpacesApart(m.spaces, chain)
  {
    hide Good, LogApart, InPages;
    GoodSpaces(m, size, log);
    forall x | x in m.spaces ensures SpaceApart(x.start, x.size, chain) {
      SpacesFromLog(log, all, x);
      forall a | x.start <= a < x.start + x.size ensures !InPages(chain, a) {
        if InPages(chain, a) { InPagesMore(chain, all, a); }
      }
    }
  }

  /** Effects that are fine in the sense of FileCrash. */
  lemma FineParts(es: seq<Effect>, size: nat, all: seq<nat>, j: nat)
    requires EffectsFine(es, size, all) && j <= |es|
    ensures EffectsApart(es[..j], all) && EffectsFit(es[..j])
  {
    hide SpaceApart;
    forall i | 0 <= i < j && es[..j][i].Append? ensures OpApart(es[..j][i].op, all) && Fits64(es[..j][i].op) {
      assert EffectFine(es[i], size, all);
    }
  }

  /** No byte changes that is in no page of the log, old or given, and in no space of the file, old or given. */
  ghost predicate Untouched(s: Image, e: DeviceEvent, mem: seq<byte>) {
    && |mem| == |s.mem|
    && forall a :: 0 <= a < |mem| && !InPages(s.chain + e.pages, a) && !InSpace(a, s.m.spaces) && !InSpace(a, JobAreas(e.job)) ==>
         mem[a] == s.mem[a]
  }

  lemma JobMisses(m: Manager, d: Disk, job: Job, j: nat, a: nat)
    requires Good(m, |d.mem|, d.log) && j <= |JobEffects(m, job)| && a < |d.mem|
    requires job.WriteJob? ==> WriteOk(Live(m, d), job.data, job.areas)
    requires !InSpace(a, m.spaces) && !InSpace(a, JobAreas(job))
    ensures var after := ApplyEffects(d, JobEffects(m, job)[..j]).mem; |after| == |d.mem| && after[a] == d.mem[a]
  {
    hide Good, InSpace, RunEffects, WriteSteps, RunOk, WriteOk, ApplyEffects, AddsFrom;
    var es := JobEffects(m, job);
    assert Misses(es, a) by {
      if job.WriteJob? {
        WriteReady(m, d, job.pos, job.data, job.areas);
        WriteAdded(m, job.data, job.areas);
        RunMisses(m, d, job.pos, WriteSteps(m, job.data, job.areas), job.areas, a);
      }
    }
    assert Misses(es[..j], a);
    MissedKept(d, es[..j], a);
  }

  /** What is on the device after `k` stores of a job: the disk after `j` of its effects. */
  lemma JobStored(s: Image, start: nat, e: DeviceEvent, k: nat) returns (found: seq<nat>, j: nat)
    requires Held(s, start) && EventOk(s, start, e) && k <= |Stores(s, start, e)|
    ensures InBounds(|s.mem|, Stores(s, start, e)[..k]) && s.chain <= found && j <= |JobEffects(s.m, e.job)|
    ensures k == |Stores(s, start, e)| ==> j == |JobEffects(s.m, e.job)|
    ensures Holds(Apply(s.mem, Stores(s, start, e)[..k]), found, start, s.chain + e.pages,
                  ApplyEffects(Disk(s.mem, s.ops), JobEffects(s.m, e.job)[..j]))
  {
    hide Good, SpacesApart, OnMedium, JobEffects, Lowerable, Lower, Apply, InBounds, ApplyEffects, EncodeAll, EndOf, Capacity,
         FitAll, Shares, Rest, EffectsFine, EventOk, AgreeOff;
    JobLower(s, start, e);
    var all, d := s.chain + e.pages, Disk(s.mem, s.ops);
    SelfAgree(all, s.mem);
    assert Holds(s.mem, s.chain, start, all, d);
    found, j := LowerCut(s.mem, JobEffects(s.m, e.job), s.chain, start, d, Shares(JobEffects(s.m, e.job), Rest(s, start), e.pages), all, k);
  }

  /** What that disk says: its operations fit the log and keep off its pages. */
  lemma JobLogged(s: Image, start: nat, e: DeviceEvent, j: nat)
    requires Held(s, start) && EventOk(s, start, e) && j <= |JobEffects(s.m, e.job)|
    ensures var log := ApplyEffects(Disk(s.mem, s.ops), JobEffects(s.m, e.job)[..j]).log; FitAll(log) && LogApart(log, s.chain + e.pages)
  {
    hide Good, SpacesApart, OnMedium, JobEffects, ApplyEffects, EncodeAll, EndOf, Capacity, FitAll, EffectsFine, EventOk,
         LogApart, EffectsApart, EffectsFit, Replay;
    JobFine(s, start, e);
    GoodSpaces(s.m, |s.mem|, s.ops);
    LogFromSpaces(s.ops, s.chain + e.pages);
    FineParts(JobEffects(s.m, e.job), |s.mem|, s.chain + e.pages, j);
    FitAfterEffects(Disk(s.mem, s.ops), JobEffects(s.m, e.job)[..j]);
    LogAfterEffects(Disk(s.mem, s.ops), JobEffects(s.m, e.job)[..j], s.chain + e.pages);
  }

  lemma HoldsThere(mem: seq<byte>, chain: seq<nat>, start: nat, all: seq<nat>, d: Disk, was: seq<nat>)
    requires Holds(mem, chain, start, all, d) && FitAll(d.log) && start % WORD == 0 && was != [] && was <= chain
    ensures LogThere(mem, chain, start, d.log) && chain[0] == was[0] && (forall p :: p in chain ==> p in all) && AgreeOff(all, mem, d.mem)
  {
    hide OnMedium, FitAll, EncodeAll, EndOf, Capacity, AgreeOff;
  }

  lemma HeldParts(s: Image, start: nat)
    requires Held(s, start)
    ensures Good(s.m, |s.mem|, s.ops) && s.chain != [] && start % WORD == 0
  {
    hide Good, OnMedium, FitAll, EncodeAll, EndOf, Capacity, SpacesApart;
  }

  lemma EventParts(s: Image, start: nat, e: DeviceEvent)
    requires EventOk(s, start, e)
    ensures e.job.WriteJob? ==> WriteOk(Live(s.m, Disk(s.mem, s.ops)), e.job.data, e.job.areas)
  {
    hide Chain, SpacesApart, WriteOk, PagesNeeded, Rest, JobBytes;
  }

  lemma CutOf(stores: seq<Store>, cut: Option<nat>) returns (k: nat)
    ensures k <= |stores| && Made(stores, cut) == stores[..k] && (cut.None? ==> k == |stores|)
  {
    k := |Made(stores, cut)|;
    assert stores[..|stores|] == stores;
  }

  /**
    An event can happen, and what is on the device then is as it should be: the
    state is held again, the file went as a flat one, and other bytes were let be.
   */
  lemma EventHappens(s: Image, start: nat, e: DeviceEvent) returns (t: Image)
    requires Held(s, start) && EventOk(s, start, e)
    ensures Next(s, start, e, t) && Held(t, start) && FlatNext(Contents(s), e, Contents(t)) && Untouched(s, e, t.mem)
    ensures s.chain <= t.chain && forall p :: p in t.chain ==> p in s.chain + e.pages
  {
    hide Good, Held, EventOk, LogThere, JobEffects, JobManager, ApplyEffects, Stores, Holds, View, Overlay, LogApart,
         SpacesApart, FitAll, Apply, InBounds, FileState.Rebuild, WriteOk, InSpace, InPages, JobAreas;
    var d, all, es := Disk(s.mem, s.ops), s.chain + e.pages, JobEffects(s.m, e.job);
    HeldParts(s, start);
    EventParts(s, start, e);
    var k := CutOf(Stores(s, start, e), e.cut);
    var found, j := JobStored(s, start, e, k);
    var after, dj := Apply(s.mem, Stores(s, start, e)[..k]), ApplyEffects(d, es[..j]);
    JobLogged(s, start, e, j);
    HoldsThere(after, found, start, all, dj, s.chain);
    JobCut(s.m, d, e.job, j);
    var r := FileState.Rebuild(dj.log);
    ViewAgrees(r, dj.log, after, dj.mem, all);
    SpacesOffLog(r, |dj.mem|, dj.log, all, found);
    t := Image(r, after, found, dj.log);
    assert Held(t, start) by { IsHeld(t, start); }
    forall a | 0 <= a < |after| && !InPages(all, a) && !InSpace(a, s.m.spaces) && !InSpace(a, JobAreas(e.job)) ensures after[a] == s.mem[a] {
      JobMisses(s.m, d, e.job, j, a);
    }
  }

  lemma IsHeld(t: Image, start: nat)
    requires LogThere(t.mem, t.chain, start, t.ops) && Good(t.m, |t.mem|, t.ops) && SpacesApart(t.m.spaces, t.chain)
    ensures Held(t, start)
  {
    hide LogThere, Good, SpacesApart;
  }

  /** Every event, finished or cut short, refines the flat file. */
  lemma NextRefines(s: Image, start: nat, e: DeviceEvent, t: Image)
    requires Held(s, start) && EventOk(s, start, e) && Next(s, start, e, t)
    ensures Held(t, start) && FlatNext(Contents(s), e, Contents(t)) && Untouched(s, e, t.mem)
    ensures s.chain <= t.chain && forall p :: p in t.chain ==> p in s.chain + e.pages
  {
    hide Held, EventOk, Next, FlatNext, Untouched, Contents;
    var u := EventHappens(s, start, e);
    NextUnique(s, start, e, t, u);
  }

  // ---------- histories ----------

  /** Event after event, each fit for the state it meets. */
  ghost predicate HistoryRuns(ss: seq<Image>, start: nat, es: seq<DeviceEvent>) {
    |ss| == |es| + 1 && forall i :: 0 <= i < |es| ==> EventOk(ss[i], start, es[i]) && Next(ss[i], start, es[i], ss[i + 1])
  }

  /**
    Every history of writes, truncates, losses of power and mounts, on the bytes: the
    file goes through it as a flat array would, each mount finds the log, and only the
    pages and spaces of the file change.
   */
  lemma {:induction false} HistoryRefines(ss: seq<Image>, start: nat, es: seq<DeviceEvent>, n: nat)
    requires HistoryRuns(ss, start, es) && Held(ss[0], start) && n <= |es|
    ensures forall i :: 0 <= i <= n ==> Held(ss[i], start)
    ensures forall i :: 0 <= i < n ==> FlatNext(Contents(ss[i]), es[i], Contents(ss[i + 1])) && Untouched(ss[i], es[i], ss[i + 1].mem)
    decreases n
  {
    hide Held, EventOk, Next, FlatNext, Untouched, Contents;
    if n > 0 {
      HistoryRefines(ss, start, es, n - 1);
      NextRefines(ss[n - 1], start, es[n - 1], ss[n]);
    }
  }

  /** A history starts with a formatted log. */
  lemma FormattedHeld(mem: seq<byte>, page: nat, start: nat)
    requires OnMedium(mem, [page], start, []) && start % WORD == 0 && |mem| < INVALID
    ensures Held(Image(NO_FILE, mem, [page], []), start) && Contents(Image(NO_FILE, mem, [page], [])) == []
  {
    hide OnMedium;
    GoodStart(|mem|);
    assert EncodeAll([]) == [];
  }

  // ---------- the mount ----------

  lemma StillUsable(size: nat, all: seq<nat>, chain: seq<nat>, free: set<nat>)
    requires Usable(size, all, free) && forall p :: p in chain ==> p in all
    ensures Usable(size, chain, free)
  {
    forall i | 0 <= i < |chain| ensures chain[i] !in free {
      assert chain[i] in all;
      var j :| 0 <= j < |all| && all[j] == chain[i];
    }
  }

  /** The mount after a loss of power, by the code that reads the bytes. */
  method MountAfterCrash(dev: Device, log: Log, firstArea: nat, reserve: nat, ghost s: Image, ghost e: DeviceEvent,
                         ghost free: set<nat>)
    returns (m: Manager, ghost t: Image)
    requires Held(s, AlignUp(reserve, 8)) && EventOk(s, AlignUp(reserve, 8), e) && e.cut.Some?
    requires Stored(s.mem, Made(Stores(s, AlignUp(reserve, 8), e), e.cut), dev.mem[..])
    requires s.chain != [] && firstArea == s.chain[0] && Usable(dev.mem.Length, s.chain + e.pages, free)
    modifies log, log.cs
    ensures t == Image(m, dev.mem[..], log.cs.chain, t.ops) && Next(s, AlignUp(reserve, 8), e, t)
    ensures Held(t, AlignUp(reserve, 8)) && FlatNext(Contents(s), e, View(m, dev.mem[..]))
    ensures log.Valid(dev.mem[..], free) && log.entries == EncodeAll(t.ops)
  {
    hide Good, Stores, View, EventOk, Apply, InBounds, AlignUp, FlatNext, OnMedium, EndOf, EncodeAll, Capacity, SpacesApart,
         FileState.Rebuild, Usable;
    t := EventHappens(s, AlignUp(reserve, 8), e);
    StillUsable(dev.mem.Length, s.chain + e.pages, t.chain, free);
    m := FileInodeInfo.Rebuild(dev, log, firstArea, reserve, t.chain, t.ops, free);
  }
}
