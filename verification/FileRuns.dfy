/** Whole writes, crashes inside them, and whole histories of a file. */
module FileRuns {
  import opened Wrappers
  import opened Nvm
  import opened FileExtents
  import opened FileExtentTree
  import opened FileRead
  import opened FileState

  // ---------- running the steps of a write ----------

  function RunManager(m: Manager, pos: nat, steps: seq<Step>): Manager
    decreases |steps|
  {
    if steps == [] then m else RunManager(StepManager(m, pos, steps[0]), pos + StepSize(steps[0]), steps[1..])
  }

  ghost function RunEffects(m: Manager, pos: nat, steps: seq<Step>): seq<Effect>
    decreases |steps|
  {
    if steps == [] then []
    else StepEffects(m, pos, steps[0]) + RunEffects(StepManager(m, pos, steps[0]), pos + StepSize(steps[0]), steps[1..])
  }

  lemma RunSingle(m: Manager, pos: nat, st: Step)
    ensures RunManager(m, pos, [st]) == StepManager(m, pos, st)
    ensures RunEffects(m, pos, [st]) == StepEffects(m, pos, st)
    ensures RunData([st]) == StepData(st)
  {
    assert [st][1..] == [];
  }

  lemma RunPair(m: Manager, pos: nat, s1: Step, s2: Step)
    ensures RunManager(m, pos, [s1, s2]) == StepManager(StepManager(m, pos, s1), pos + StepSize(s1), s2)
    ensures RunEffects(m, pos, [s1, s2]) == StepEffects(m, pos, s1) + StepEffects(StepManager(m, pos, s1), pos + StepSize(s1), s2)
    ensures RunData([s1, s2]) == StepData(s1) + StepData(s2)
  {
    hide StepManager, StepEffects;
    assert [s1, s2][1..] == [s2];
    RunSingle(StepManager(m, pos, s1), pos + StepSize(s1), s2);
  }

  ghost predicate RunOk(m: Manager, size: nat, pos: nat, steps: seq<Step>)
    decreases |steps|
  {
    steps == [] ||
    (StepOk(m, size, steps[0]) && RunOk(StepManager(m, pos, steps[0]), size, pos + StepSize(steps[0]), steps[1..]))
  }

  function StepData(st: Step): seq<byte> { if st.FillStep? then st.data else [] }

  function RunData(steps: seq<Step>): seq<byte> {
    if steps == [] then [] else StepData(steps[0]) + RunData(steps[1..])
  }

  /** How many bytes of the write are in the log after the first `k` effects. */
  ghost function Committed(m: Manager, pos: nat, steps: seq<Step>, k: nat): (n: nat)
    requires k <= |RunEffects(m, pos, steps)|
    ensures n <= |RunData(steps)|
    decreases |steps|
  {
    if steps == [] || k < |StepEffects(m, pos, steps[0])| then 0
    else
      StepSize(steps[0]) + Committed(StepManager(m, pos, steps[0]), pos + StepSize(steps[0]), steps[1..],
                                     k - |StepEffects(m, pos, steps[0])|)
  }

  lemma {:induction false} CommittedAll(m: Manager, pos: nat, steps: seq<Step>)
    ensures Committed(m, pos, steps, |RunEffects(m, pos, steps)|) == |RunData(steps)|
    decreases |steps|
  {
    hide StepEffects, StepManager;
    if steps != [] {
      CommittedAll(StepManager(m, pos, steps[0]), pos + StepSize(steps[0]), steps[1..]);
    }
  }

  /**
    A write cut after any of its effects, even inside one data store: a mount
    finds a good state, and the file is the old one overlaid with the prefix of
    the data whose log entries are on the medium.
   */
  lemma {:induction false} CrashedWrite(m: Manager, d: Disk, pos: nat, steps: seq<Step>, k: nat)
    requires Good(m, |d.mem|, d.log) && RunOk(m, |d.mem|, pos, steps) && k <= |RunEffects(m, pos, steps)|
    ensures var after := ApplyEffects(d, RunEffects(m, pos, steps)[..k]);
            var r := Rebuild(after.log);
            && |after.mem| == |d.mem| && Good(r, |after.mem|, after.log)
            && View(r, after.mem) == Overlay(View(m, d.mem), pos, RunData(steps)[..Committed(m, pos, steps, k)])
    decreases |steps|
  {
    if steps == [] {
      RebuildIsLive(m, |d.mem|, d.log);
    } else if k < |StepEffects(m, pos, steps[0])| {
      assert RunEffects(m, pos, steps)[..k] == StepEffects(m, pos, steps[0])[..k];
      StepCut(m, d, pos, steps[0], k);
      RebuildIsLive(m, |d.mem|, d.log);
    } else {
      CrashedLater(m, d, pos, steps, k);
    }
  }

  /** A cut behind the first step, seen as that step and a cut of the rest. */
  lemma LaterParts(m: Manager, pos: nat, steps: seq<Step>, k: nat)
    requires k <= |RunEffects(m, pos, steps)| && steps != [] && k >= |StepEffects(m, pos, steps[0])|
    ensures var g, p, j := StepManager(m, pos, steps[0]), pos + StepSize(steps[0]), k - |StepEffects(m, pos, steps[0])|;
            && j <= |RunEffects(g, p, steps[1..])|
            && RunEffects(m, pos, steps)[..k] == StepEffects(m, pos, steps[0]) + RunEffects(g, p, steps[1..])[..j]
            && RunData(steps)[..Committed(m, pos, steps, k)]
                 == StepData(steps[0]) + RunData(steps[1..])[..Committed(g, p, steps[1..], j)]
  {
    hide StepEffects, StepManager;
    var g, p := StepManager(m, pos, steps[0]), pos + StepSize(steps[0]);
    PrefixBeyond(StepEffects(m, pos, steps[0]), RunEffects(g, p, steps[1..]), k);
    PrefixBeyond(StepData(steps[0]), RunData(steps[1..]), Committed(m, pos, steps, k));
  }

  lemma PrefixBeyond<T>(a: seq<T>, b: seq<T>, k: nat)
    requires |a| <= k <= |a| + |b|
    ensures (a + b)[..k] == a + b[..k - |a|]
  {
  }

  lemma {:induction false} CrashedLater(m: Manager, d: Disk, pos: nat, steps: seq<Step>, k: nat)
    requires Good(m, |d.mem|, d.log) && RunOk(m, |d.mem|, pos, steps) && k <= |RunEffects(m, pos, steps)|
    requires steps != [] && k >= |StepEffects(m, pos, steps[0])|
    ensures var after := ApplyEffects(d, RunEffects(m, pos, steps)[..k]);
            var r := Rebuild(after.log);
            && |after.mem| == |d.mem| && Good(r, |after.mem|, after.log)
            && View(r, after.mem) == Overlay(View(m, d.mem), pos, RunData(steps)[..Committed(m, pos, steps, k)])
    decreases |steps|, 0
  {
    hide Good, StepOk, StepEffects, StepManager, View, Overlay, Rebuild, RunEffects, RunData, Committed, ApplyEffects;
    var st := steps[0];
    var first := StepEffects(m, pos, st);
    var g, p, j := StepManager(m, pos, st), pos + StepSize(st), k - |first|;
    LaterParts(m, pos, steps, k);
    StepDone(m, d, pos, st);
    CrashedWrite(g, ApplyEffects(d, first), p, steps[1..], j);
    var rest := RunEffects(g, p, steps[1..])[..j];
    ApplyEffectsConcat(d, first, rest);
    var tail := RunData(steps[1..])[..Committed(g, p, steps[1..], j)];
    var data := StepData(st) + tail;
    assert data[..StepSize(st)] == StepData(st) && data[StepSize(st)..] == tail;
    OverlaySplit(View(m, d.mem), pos, data, StepSize(st));
  }

  /** The live state after all steps, and the file it holds. */
  lemma {:induction false} FinishedWrite(m: Manager, d: Disk, pos: nat, steps: seq<Step>)
    requires Good(m, |d.mem|, d.log) && RunOk(m, |d.mem|, pos, steps)
    ensures var after := ApplyEffects(d, RunEffects(m, pos, steps));
            var r := RunManager(m, pos, steps);
            && |after.mem| == |d.mem| && Good(r, |after.mem|, after.log)
            && View(r, after.mem) == Overlay(View(m, d.mem), pos, RunData(steps))
    decreases |steps|
  {
    hide Good, StepOk, StepEffects, StepManager, View, Overlay;
    if steps != [] {
      var st := steps[0];
      var g, p := StepManager(m, pos, st), pos + StepSize(st);
      StepDone(m, d, pos, st);
      FinishedWrite(g, ApplyEffects(d, StepEffects(m, pos, st)), p, steps[1..]);
      ApplyEffectsConcat(d, StepEffects(m, pos, st), RunEffects(g, p, steps[1..]));
      var data := RunData(steps);
      assert data[..StepSize(st)] == StepData(st) && data[StepSize(st)..] == RunData(steps[1..]);
      OverlaySplit(View(m, d.mem), pos, data, StepSize(st));
    }
  }

  // ---------- the steps WriteData takes ----------

  /** One new area after the other, each filled before the next is added. */
  function WriteAreas(areas: seq<Space>, buf: seq<byte>): seq<Step> {
    if areas == [] then []
    else
      var n := Min(|buf|, areas[0].size);
      [GrowStep(areas[0].start, areas[0].size), FillStep(buf[..n])] + WriteAreas(areas[1..], buf[n..])
  }

  /** The rest of the current area first, then the new areas. */
  function WriteSteps(m: Manager, buf: seq<byte>, areas: seq<Space>): seq<Step> {
    var rest := RestSizeOfCurrentArea(m);
    if |buf| <= rest then [FillStep(buf)]
    else if rest > 0 then [FillStep(buf[..rest])] + WriteAreas(areas, buf[rest..])
    else WriteAreas(areas, buf)
  }

  /** The areas hold `n` bytes and all of them are needed. */
  ghost predicate AreasFit(areas: seq<Space>, n: nat) {
    areas != [] && areas[0].size > 0 &&
    if |areas| == 1 then 0 < n <= areas[0].size else areas[0].size < n && AreasFit(areas[1..], n - areas[0].size)
  }

  /** Areas the allocators may return: inside the device, apart from the file's spaces and from each other. */
  ghost predicate FreshAreas(spaces: seq<Space>, areas: seq<Space>, size: nat) {
    && (forall a :: a in areas ==> a.start + a.size <= size && forall x :: x in spaces ==> Disjoint(x, a))
    && (forall i, j :: 0 <= i < j < |areas| ==> Disjoint(areas[i], areas[j]))
  }

  lemma FreshTail(spaces: seq<Space>, areas: seq<Space>, size: nat)
    requires FreshAreas(spaces, areas, size) && areas != []
    ensures FreshAreas(InsertSpace(spaces, areas[0]), areas[1..], size)
    ensures areas[0].start + areas[0].size <= size && forall x :: x in spaces ==> Disjoint(x, areas[0])
  {
    hide InsertSpace;
    assert areas[0] in areas;
    forall a, x | a in areas[1..] && x in InsertSpace(spaces, areas[0])
      ensures Disjoint(x, a)
    {
      InsertSpaceHas(spaces, areas[0], x);
      var j :| 0 <= j < |areas[1..]| && areas[1..][j] == a;
      assert areas[j + 1] == a;
    }
  }

  /** The first area grown into and filled: both steps are safe, and what is left is as before. */
  lemma FirstArea(m: Manager, size: nat, pos: nat, areas: seq<Space>, n: nat, total: nat)
    requires RestSizeOfCurrentArea(m) == 0 && FreshAreas(m.spaces, areas, size) && AreasFit(areas, total)
    requires n == Min(total, areas[0].size)
    ensures n > 0 && (|areas| == 1 <==> n == total)
    ensures forall data: seq<byte> :: |data| == n ==>
              StepOk(m, size, GrowStep(areas[0].start, areas[0].size)) && StepOk(Grow(m, areas[0].start, areas[0].size), size, FillStep(data))
    ensures var f := Fill(Grow(m, areas[0].start, areas[0].size), pos, n);
            |areas| > 1 ==> RestSizeOfCurrentArea(f) == 0 && FreshAreas(f.spaces, areas[1..], size) && AreasFit(areas[1..], total - n)
  {
    hide Override, InsertSpace, FreshAreas, Disjoint;
    FreshTail(m.spaces, areas, size);
  }

  lemma {:induction false} WriteAreasOk(m: Manager, size: nat, pos: nat, areas: seq<Space>, buf: seq<byte>)
    requires RestSizeOfCurrentArea(m) == 0 && FreshAreas(m.spaces, areas, size) && AreasFit(areas, |buf|)
    ensures RunOk(m, size, pos, WriteAreas(areas, buf)) && RunData(WriteAreas(areas, buf)) == buf
    decreases |areas|
  {
    hide FreshAreas, RestSizeOfCurrentArea, StepOk, RunOk, RunData, Grow, Fill;
    var a := areas[0];
    var n := Min(|buf|, a.size);
    FirstArea(m, size, pos, areas, n, |buf|);
    var f := Fill(Grow(m, a.start, a.size), pos, n);
    var later := WriteAreas(areas[1..], buf[n..]);
    if |areas| > 1 {
      WriteAreasOk(f, size, pos + n, areas[1..], buf[n..]);
    } else {
      NoSteps(f, size, pos + n);
    }
    TwoSteps(m, size, pos, GrowStep(a.start, a.size), FillStep(buf[..n]), later);
    assert buf[..n] + buf[n..] == buf;
  }

  lemma NoSteps(m: Manager, size: nat, pos: nat)
    ensures RunOk(m, size, pos, []) && RunData([]) == []
  {
  }

  lemma TwoSteps(m: Manager, size: nat, pos: nat, s1: Step, s2: Step, later: seq<Step>)
    requires s1.GrowStep? && s2.FillStep?
    requires StepOk(m, size, s1) && StepOk(StepManager(m, pos, s1), size, s2)
    requires RunOk(StepManager(StepManager(m, pos, s1), pos, s2), size, pos + |s2.data|, later)
    ensures RunOk(m, size, pos, [s1, s2] + later) && RunData([s1, s2] + later) == s2.data + RunData(later)
  {
    hide StepOk, StepManager;
    var steps := [s1, s2] + later;
    assert steps[1..] == [s2] + later && steps[1..][1..] == later;
  }

  lemma OneStep(m: Manager, size: nat, pos: nat, s1: Step, later: seq<Step>)
    requires StepOk(m, size, s1) && RunOk(StepManager(m, pos, s1), size, pos + StepSize(s1), later)
    ensures RunOk(m, size, pos, [s1] + later) && RunData([s1] + later) == StepData(s1) + RunData(later)
  {
    hide StepOk, StepManager;
    assert ([s1] + later)[1..] == later;
  }

  /** Every step WriteData takes meets the conditions that make it safe. */
  lemma WriteStepsOk(m: Manager, size: nat, pos: nat, buf: seq<byte>, areas: seq<Space>)
    requires AreasOk(m, size) && buf != [] && FreshAreas(m.spaces, areas, size)
    requires |buf| > RestSizeOfCurrentArea(m) ==> AreasFit(areas, |buf| - RestSizeOfCurrentArea(m))
    ensures RunOk(m, size, pos, WriteSteps(m, buf, areas)) && RunData(WriteSteps(m, buf, areas)) == buf
  {
    hide Override, AreasOk, FreshAreas, AreasFit, WriteAreas;
    var rest := RestSizeOfCurrentArea(m);
    RestIsNat(m, size);
    if |buf| <= rest {
      OneStep(m, size, pos, FillStep(buf), []);
      assert [FillStep(buf)] + [] == [FillStep(buf)];
    } else if rest > 0 {
      WriteAreasOk(Fill(m, pos, rest), size, pos + rest, areas, buf[rest..]);
      OneStep(m, size, pos, FillStep(buf[..rest]), WriteAreas(areas, buf[rest..]));
      assert buf[..rest] + buf[rest..] == buf;
    } else {
      WriteAreasOk(m, size, pos, areas, buf);
    }
  }

  lemma RestIsNat(m: Manager, size: nat)
    requires AreasOk(m, size)
    ensures RestSizeOfCurrentArea(m) >= 0
  {
  }

  // ---------- histories ----------

  datatype Event =
    | Write(pos: nat, data: seq<byte>, areas: seq<Space>)
    | CrashIn(pos: nat, data: seq<byte>, areas: seq<Space>, k: nat)
    | Trunc

  /** The running file system: memory state and medium. */
  datatype Live = Live(m: Manager, d: Disk)

  ghost predicate Sound(l: Live) { Good(l.m, |l.d.mem|, l.d.log) }

  ghost function Content(l: Live): seq<byte> { View(l.m, l.d.mem) }

  ghost predicate WriteOk(l: Live, data: seq<byte>, areas: seq<Space>) {
    && data != [] && FreshAreas(l.m.spaces, areas, |l.d.mem|)
    && (|data| > RestSizeOfCurrentArea(l.m) ==> AreasFit(areas, |data| - RestSizeOfCurrentArea(l.m)))
  }

  ghost predicate EventOk(l: Live, e: Event) {
    match e
    case Write(pos, data, areas) => WriteOk(l, data, areas)
    case CrashIn(pos, data, areas, k) =>
      WriteOk(l, data, areas) && k <= |RunEffects(l.m, pos, WriteSteps(l.m, data, areas))|
    case Trunc => true
  }

  /** What an event does; after a crash the state is what a mount rebuilds from the log. */
  ghost function Exec(l: Live, e: Event): Live
    requires EventOk(l, e)
  {
    match e
    case Write(pos, data, areas) =>
      var steps := WriteSteps(l.m, data, areas);
      Live(RunManager(l.m, pos, steps), ApplyEffects(l.d, RunEffects(l.m, pos, steps)))
    case CrashIn(pos, data, areas, k) =>
      var d := ApplyEffects(l.d, RunEffects(l.m, pos, WriteSteps(l.m, data, areas))[..k]);
      Live(Rebuild(d.log), d)
    case Trunc => Live(Truncated(l.m), l.d.(log := l.d.log + [Truncate]))
  }

  /** The same events on a flat file; a crashed write leaves some prefix of its data. */
  ghost predicate FlatStep(f: seq<byte>, e: Event, g: seq<byte>) {
    match e
    case Write(pos, data, _) => g == Overlay(f, pos, data)
    case CrashIn(pos, data, _, _) => exists n :: 0 <= n <= |data| && g == Overlay(f, pos, data[..n])
    case Trunc => g == []
  }

  lemma TruncGood(l: Live)
    requires Sound(l)
    ensures Sound(Exec(l, Trunc)) && Content(Exec(l, Trunc)) == []
  {
    hide Replay;
    ReplayAppend(l.d.log, Truncate);
  }

  lemma EventRefines(l: Live, e: Event)
    requires Sound(l) && EventOk(l, e)
    ensures Sound(Exec(l, e)) && FlatStep(Content(l), e, Content(Exec(l, e)))
  {
    hide Good, View, Overlay, RunOk, RunEffects, RunData, WriteSteps, FreshAreas, AreasFit;
    match e
    case Trunc => TruncGood(l);
    case Write(pos, data, areas) =>
      SoundAreas(l);
      WriteStepsOk(l.m, |l.d.mem|, pos, data, areas);
      FinishedWrite(l.m, l.d, pos, WriteSteps(l.m, data, areas));
    case CrashIn(pos, data, areas, k) =>
      SoundAreas(l);
      WriteStepsOk(l.m, |l.d.mem|, pos, data, areas);
      CrashedWrite(l.m, l.d, pos, WriteSteps(l.m, data, areas), k);
      var n := Committed(l.m, pos, WriteSteps(l.m, data, areas), k);
      assert Content(Exec(l, e)) == Overlay(Content(l), pos, data[..n]);
  }

  lemma SoundAreas(l: Live)
    requires Sound(l)
    ensures AreasOk(l.m, |l.d.mem|)
  {
  }

  ghost predicate HistoryOk(l: Live, es: seq<Event>)
    decreases |es|
  {
    es == [] || (EventOk(l, es[0]) && HistoryOk(Exec(l, es[0]), es[1..]))
  }

  ghost function ExecAll(l: Live, es: seq<Event>): Live
    requires HistoryOk(l, es)
    decreases |es|
  {
    if es == [] then l else ExecAll(Exec(l, es[0]), es[1..])
  }

  ghost predicate FlatRun(f: seq<byte>, es: seq<Event>, g: seq<byte>)
    decreases |es|
  {
    if es == [] then g == f else exists h :: FlatStep(f, es[0], h) && FlatRun(h, es[1..], g)
  }

  /**
    Flat-file refinement over every history of writes, truncates and crashes:
    the file is always the flat file of the same history, and the running state
    is always the one a mount would rebuild.
   */
  lemma {:induction false} HistoryRefines(l: Live, es: seq<Event>)
    requires Sound(l) && HistoryOk(l, es)
    ensures var r := ExecAll(l, es);
            Sound(r) && FlatRun(Content(l), es, Content(r)) && Rebuild(r.d.log) == r.m
    decreases |es|
  {
    hide Good, View, Rebuild, EventOk, Exec, FlatStep, Content;
    if es == [] {
      RebuildIsLive(l.m, |l.d.mem|, l.d.log);
    } else {
      EventRefines(l, es[0]);
      HistoryRefines(Exec(l, es[0]), es[1..]);
    }
  }
}
