/**
  What a file write does when a log append fails.

  WriteDataToArea does not look at the result of its append, and the callers of
  AddNewSpace do not look at its.  `answers(i)` says whether the i-th append of a write
  reached the log; FileRuns is the case where all of them did.
 */
module FileOutcomes {
  import opened Wrappers
  import opened Nvm
  import opened FileExtents
  import opened FileExtentTree
  import opened FileRead
  import opened FileState
  import opened FileRuns

  /** An unsigned 64-bit address. */
  const ADDRESSES: nat := INVALID + 1

  // ---------- one step, whatever its append answers ----------

  /** A fill is made in any case; an area is only moved to when it was logged. */
  function TryManager(m: Manager, pos: nat, st: Step, ok: bool): Manager {
    match st
    case FillStep(data) => Fill(m, pos, |data|).(curWriteStart := (m.curWriteStart + |data|) % ADDRESSES)
    case GrowStep(addr, size) => if ok then Grow(m, addr, size) else m
  }

  /** The bytes go to the write position; an address off the device stores nothing there. */
  ghost function TryStores(m: Manager, size: nat, st: Step): seq<Store> {
    if st.FillStep? && m.curWriteStart + |st.data| > size then [] else StepStores(m, st)
  }

  ghost function TryEffects(m: Manager, size: nat, pos: nat, st: Step, ok: bool): seq<Effect> {
    DataEffects(TryStores(m, size, st)) + if ok then [Append(StepOp(m, pos, st))] else []
  }

  // ---------- the steps of a write, from append `i` on ----------

  function TryRun(m: Manager, pos: nat, steps: seq<Step>, answers: nat -> bool, i: nat): Manager
    decreases |steps|
  {
    if steps == [] then m
    else TryRun(TryManager(m, pos, steps[0], answers(i)), pos + StepSize(steps[0]), steps[1..], answers, i + 1)
  }

  ghost function TryRunEffects(m: Manager, size: nat, pos: nat, steps: seq<Step>, answers: nat -> bool, i: nat): seq<Effect>
    decreases |steps|
  {
    if steps == [] then []
    else TryEffects(m, size, pos, steps[0], answers(i))
         + TryRunEffects(TryManager(m, pos, steps[0], answers(i)), size, pos + StepSize(steps[0]), steps[1..], answers, i + 1)
  }

  lemma TrySingle(m: Manager, size: nat, pos: nat, st: Step, answers: nat -> bool, i: nat)
    ensures TryRun(m, pos, [st], answers, i) == TryManager(m, pos, st, answers(i))
    ensures TryRunEffects(m, size, pos, [st], answers, i) == TryEffects(m, size, pos, st, answers(i))
  {
    hide TryManager, TryEffects;
    assert [st][1..] == [];
  }

  lemma TryPair(m: Manager, size: nat, pos: nat, s1: Step, s2: Step, answers: nat -> bool, i: nat)
    ensures var g, p := TryManager(m, pos, s1, answers(i)), pos + StepSize(s1);
            && TryRun(m, pos, [s1, s2], answers, i) == TryManager(g, p, s2, answers(i + 1))
            && TryRunEffects(m, size, pos, [s1, s2], answers, i)
                 == TryEffects(m, size, pos, s1, answers(i)) + TryEffects(g, size, p, s2, answers(i + 1))
  {
    hide TryManager, TryEffects;
    assert [s1, s2][1..] == [s2];
    TrySingle(TryManager(m, pos, s1, answers(i)), size, pos + StepSize(s1), s2, answers, i + 1);
  }

  /** Running a and then b, from where a ends. */
  lemma {:induction false} TryConcat(m: Manager, size: nat, pos: nat, a: seq<Step>, b: seq<Step>, answers: nat -> bool, i: nat)
    ensures var g, p := TryRun(m, pos, a, answers, i), pos + |RunData(a)|;
            && TryRun(m, pos, a + b, answers, i) == TryRun(g, p, b, answers, i + |a|)
            && TryRunEffects(m, size, pos, a + b, answers, i)
                 == TryRunEffects(m, size, pos, a, answers, i) + TryRunEffects(g, size, p, b, answers, i + |a|)
    decreases |a|
  {
    hide TryManager, TryEffects;
    if a == [] {
      assert a + b == b;
    } else {
      var g, p := TryManager(m, pos, a[0], answers(i)), pos + StepSize(a[0]);
      assert (a + b)[0] == a[0] && (a + b)[1..] == a[1..] + b;
      assert |RunData(a)| == StepSize(a[0]) + |RunData(a[1..])|;
      TryConcat(g, size, p, a[1..], b, answers, i + 1);
    }
  }

  /** From here the steps lead to manager M, medium D and trace E. */
  ghost predicate TryLeads(m: Manager, d: Disk, e: seq<Effect>, pos: nat, steps: seq<Step>, answers: nat -> bool, i: nat,
                           M: Manager, D: Disk, E: seq<Effect>) {
    && TryRun(m, pos, steps, answers, i) == M
    && ApplyEffects(d, TryRunEffects(m, |d.mem|, pos, steps, answers, i)) == D
    && e + TryRunEffects(m, |d.mem|, pos, steps, answers, i) == E
  }

  lemma {:induction false} EffectsKeepSize(d: Disk, es: seq<Effect>)
    ensures |ApplyEffects(d, es).mem| == |d.mem|
    decreases |es|
  {
    if es != [] {
      EffectsKeepSize(d, es[..|es| - 1]);
    }
  }

  lemma TryLeadsStep(m: Manager, d: Disk, e: seq<Effect>, pos: nat, a: seq<Step>, b: seq<Step>, answers: nat -> bool, i: nat,
                     M: Manager, D: Disk, E: seq<Effect>)
    requires TryLeads(m, d, e, pos, a + b, answers, i, M, D, E)
    ensures var done := TryRunEffects(m, |d.mem|, pos, a, answers, i);
            TryLeads(TryRun(m, pos, a, answers, i), ApplyEffects(d, done), e + done, pos + |RunData(a)|, b, answers, i + |a|, M, D, E)
  {
    hide TryRun, TryRunEffects, ApplyEffects;
    var done := TryRunEffects(m, |d.mem|, pos, a, answers, i);
    EffectsKeepSize(d, done);
    TryConcat(m, |d.mem|, pos, a, b, answers, i);
    ApplyEffectsConcat(d, done, TryRunEffects(TryRun(m, pos, a, answers, i), |d.mem|, pos + |RunData(a)|, b, answers, i + |a|));
  }

  lemma TryLeadsThere(m: Manager, d: Disk, e: seq<Effect>, pos: nat, steps: seq<Step>, answers: nat -> bool, i: nat)
    ensures var es := TryRunEffects(m, |d.mem|, pos, steps, answers, i);
            TryLeads(m, d, e, pos, steps, answers, i, TryRun(m, pos, steps, answers, i), ApplyEffects(d, es), e + es)
  {
  }

  lemma TryLeadsNowhere(m: Manager, d: Disk, e: seq<Effect>, pos: nat,
                        answers: nat -> bool, i: nat, M: Manager, D: Disk, E: seq<Effect>)
    requires TryLeads(m, d, e, pos, [], answers, i, M, D, E)
    ensures m == M && d == D && e == E
  {
  }

  // ---------- when every append is made ----------

  predicate AllMade(answers: nat -> bool, i: nat, n: nat) { forall j :: i <= j < i + n ==> answers(j) }

  lemma MadeStep(m: Manager, d: Disk, pos: nat, st: Step)
    requires Good(m, |d.mem|, d.log) && StepOk(m, |d.mem|, st)
    ensures TryManager(m, pos, st, true) == StepManager(m, pos, st)
    ensures TryEffects(m, |d.mem|, pos, st, true) == StepEffects(m, pos, st)
  {
    hide ExtentsOk, LogOk;
    StoresFit(m, d, st);
  }

  lemma {:induction false} MadeRun(m: Manager, d: Disk, pos: nat, steps: seq<Step>, answers: nat -> bool, i: nat)
    requires Good(m, |d.mem|, d.log) && RunOk(m, |d.mem|, pos, steps) && AllMade(answers, i, |steps|)
    ensures TryRun(m, pos, steps, answers, i) == RunManager(m, pos, steps)
    ensures TryRunEffects(m, |d.mem|, pos, steps, answers, i) == RunEffects(m, pos, steps)
    decreases |steps|
  {
    hide Good, StepOk, StepManager, StepEffects, TryManager, TryEffects, View;
    if steps != [] {
      assert answers(i);
      MadeStep(m, d, pos, steps[0]);
      StepDone(m, d, pos, steps[0]);
      MadeRun(StepManager(m, pos, steps[0]), ApplyEffects(d, StepEffects(m, pos, steps[0])), pos + StepSize(steps[0]), steps[1..],
              answers, i + 1);
    }
  }

  // ---------- what it takes for a write to last ----------

  /** Every fill goes to the free rest of an area the file has. */
  predicate InPlace(m: Manager, pos: nat, steps: seq<Step>, answers: nat -> bool, i: nat)
    decreases |steps|
  {
    steps == [] ||
    ((steps[0].FillStep? ==> |steps[0].data| <= RestSizeOfCurrentArea(m))
     && InPlace(TryManager(m, pos, steps[0], answers(i)), pos + StepSize(steps[0]), steps[1..], answers, i + 1))
  }

  /** As long, and every byte in the same place: the same file whatever the bytes are. */
  ghost predicate SameFile(a: Manager, b: Manager) {
    a.fileMaxLen == b.fileMaxLen && forall p: nat :: MapAt(a.extents, p) == MapAt(b.extents, p)
  }

  lemma SameFileReads(a: Manager, b: Manager, mem: seq<byte>)
    requires SameFile(a, b)
    ensures View(a, mem) == View(b, mem)
  {
    hide MapAt;
  }

  /** Behind every new area comes the fill it was wanted for, and no fill is empty. */
  predicate WriteShape(steps: seq<Step>) { forall i :: 0 <= i < |steps| ==> ShapeAt(steps, i) }

  predicate ShapeAt(steps: seq<Step>, i: nat)
    requires i < |steps|
  {
    if steps[i].GrowStep? then i + 1 < |steps| && steps[i + 1].FillStep? else steps[i].data != []
  }

  /** What the running file system has in memory is what a mount will find, and nothing was stored out of place. */
  ghost predicate Lasts(m: Manager, d: Disk, pos: nat, steps: seq<Step>, answers: nat -> bool, i: nat) {
    && InPlace(m, pos, steps, answers, i)
    && SameFile(Rebuild(ApplyEffects(d, TryRunEffects(m, |d.mem|, pos, steps, answers, i)).log), TryRun(m, pos, steps, answers, i))
  }

  /** The operations that reach the log. */
  function TryOps(m: Manager, pos: nat, steps: seq<Step>, answers: nat -> bool, i: nat): seq<FileOp>
    decreases |steps|
  {
    if steps == [] then []
    else (if answers(i) then [StepOp(m, pos, steps[0])] else [])
         + TryOps(TryManager(m, pos, steps[0], answers(i)), pos + StepSize(steps[0]), steps[1..], answers, i + 1)
  }

  lemma {:induction false} DataKeepsLog(d: Disk, stores: seq<Store>)
    ensures ApplyEffects(d, DataEffects(stores)).log == d.log
    decreases |stores|
  {
    if stores != [] {
      var n := |stores| - 1;
      assert DataEffects(stores)[..n] == DataEffects(stores[..n]);
      DataKeepsLog(d, stores[..n]);
    }
  }

  lemma TryStepLog(m: Manager, d: Disk, pos: nat, st: Step, ok: bool)
    ensures ApplyEffects(d, TryEffects(m, |d.mem|, pos, st, ok)).log == d.log + if ok then [StepOp(m, pos, st)] else []
  {
    var es := DataEffects(TryStores(m, |d.mem|, st));
    DataKeepsLog(d, TryStores(m, |d.mem|, st));
    if ok {
      LastEffect(d, es, Append(StepOp(m, pos, st)));
    } else {
      assert es + [] == es;
    }
  }

  lemma LeadsNothing(d: Disk)
    ensures ApplyEffects(d, []) == d
  {
  }

  lemma {:induction false} TryLog(m: Manager, d: Disk, pos: nat, steps: seq<Step>, answers: nat -> bool, i: nat)
    ensures ApplyEffects(d, TryRunEffects(m, |d.mem|, pos, steps, answers, i)).log == d.log + TryOps(m, pos, steps, answers, i)
    decreases |steps|
  {
    hide TryManager, TryEffects, StepOp, ApplyEffects;
    if steps == [] {
      assert ApplyEffects(d, []) == d by { LeadsNothing(d); }
      assert d.log + [] == d.log;
    } else {
      var g, p, first := TryManager(m, pos, steps[0], answers(i)), pos + StepSize(steps[0]), TryEffects(m, |d.mem|, pos, steps[0], answers(i));
      var rest := TryRunEffects(g, |d.mem|, p, steps[1..], answers, i + 1);
      TryStepLog(m, d, pos, steps[0], answers(i));
      EffectsKeepSize(d, first);
      TryLog(g, ApplyEffects(d, first), p, steps[1..], answers, i + 1);
      assert ApplyEffects(d, first + rest) == ApplyEffects(ApplyEffects(d, first), rest) by { ApplyEffectsConcat(d, first, rest); }
    }
  }

  // ---------- a fill whose append fails ----------

  /** What is written behind position `q` does not move `q`, in memory ... */
  lemma {:induction false} RunningKept(m: Manager, pos: nat, steps: seq<Step>, answers: nat -> bool, i: nat, q: nat)
    requires Sorted(m.extents) && q < pos && forall k :: 0 <= k < |steps| && steps[k].FillStep? ==> steps[k].data != []
    ensures MapAt(TryRun(m, pos, steps, answers, i).extents, q) == MapAt(m.extents, q)
    decreases |steps|
  {
    hide Sorted, MapAt, Override, InsertSpace;
    if steps != [] {
      var g := TryManager(m, pos, steps[0], answers(i));
      if steps[0].FillStep? {
        var x := Extent(m.curWriteStart, pos, |steps[0].data|);
        OverrideAt(m.extents, x, q);
        OverrideSorted(m.extents, x);
      }
      RunningKept(g, pos + StepSize(steps[0]), steps[1..], answers, i + 1, q);
    }
  }

  /** ... or in a replay. */
  lemma {:induction false} ReplayedKept(log: seq<FileOp>, m: Manager, pos: nat, steps: seq<Step>,
                                        answers: nat -> bool, i: nat, q: nat)
    requires Sorted(Replay(log).extents) && q < pos && forall k :: 0 <= k < |steps| && steps[k].FillStep? ==> steps[k].data != []
    ensures MapAt(Replay(log + TryOps(m, pos, steps, answers, i)).extents, q) == MapAt(Replay(log).extents, q)
    decreases |steps|
  {
    hide Sorted, MapAt, Override, InsertSpace, Replay, TryManager;
    var ops := TryOps(m, pos, steps, answers, i);
    if steps == [] {
      assert log + ops == log;
    } else {
      var g, p := TryManager(m, pos, steps[0], answers(i)), pos + StepSize(steps[0]);
      var later := TryOps(g, p, steps[1..], answers, i + 1);
      if answers(i) {
        var op := StepOp(m, pos, steps[0]);
        ReplayAppend(log, op);
        var r := Replay(log);
        if steps[0].FillStep? {
          var x := Extent(m.curWriteStart, pos, |steps[0].data|);
          OverrideAt(r.extents, x, q);
          OverrideSorted(r.extents, x);
        }
        ReplayedKept(log + [op], g, p, steps[1..], answers, i + 1, q);
        assert log + ops == log + [op] + later;
      } else {
        ReplayedKept(log, g, p, steps[1..], answers, i + 1, q);
        assert ops == later;
      }
    }
  }

  /** Nothing of the file is in the free rest of its current area. */
  lemma {:induction false} NotInTail(es: seq<Extent>, lo: nat, hi: nat, p: nat)
    requires lo < hi && forall k :: 0 <= k < |es| ==> es[k].start + es[k].size <= lo || hi <= es[k].start
    ensures MapAt(es, p) != Some(lo)
    decreases |es|
  {
    if es != [] && !es[0].Covers(p) {
      NotInTail(es[1..], lo, hi, p);
    }
  }

  lemma GoodFacts(m: Manager, size: nat, log: seq<FileOp>)
    requires Good(m, size, log)
    ensures Sorted(m.extents) && Sorted(Replay(log).extents) && Replay(log).extents == m.extents
  {
  }

  lemma TailFacts(m: Manager, size: nat, log: seq<FileOp>, p: nat)
    requires Good(m, size, log) && RestSizeOfCurrentArea(m) > 0
    ensures MapAt(m.extents, p) != Some(m.curWriteStart)
  {
    hide Sorted, AllBacked, Below, LogOk, MapAt;
    NotInTail(m.extents, m.curWriteStart, m.curArea + m.curSize, p);
  }

  lemma FillLost(m: Manager, d: Disk, pos: nat, steps: seq<Step>, answers: nat -> bool, i: nat)
    requires Good(m, |d.mem|, d.log) && RunOk(m, |d.mem|, pos, steps) && WriteShape(steps)
    requires steps != [] && steps[0].FillStep? && !answers(i)
    ensures !Lasts(m, d, pos, steps, answers, i)
  {
    hide Good, Sorted, MapAt, Override, Replay, View, TryRunEffects, TryOps, TryRun, InPlace, ApplyEffects, RunOk;
    var data := steps[0].data;
    assert StepOk(m, |d.mem|, steps[0]) by { FirstOk(m, |d.mem|, pos, steps); }
    var g, p := TryManager(m, pos, steps[0], false), pos + |data|;
    var x := Extent(m.curWriteStart, pos, |data|);
    GoodFacts(m, |d.mem|, d.log);
    OverrideAt(m.extents, x, pos);
    OverrideSorted(m.extents, x);
    ShapeTail(steps);
    RunningKept(g, p, steps[1..], answers, i + 1, pos);
    TryLog(m, d, pos, steps, answers, i);
    var ops := TryOps(g, p, steps[1..], answers, i + 1);
    assert TryOps(m, pos, steps, answers, i) == ops by { OpsLater(m, pos, steps, answers, i); }
    assert TryRun(m, pos, steps, answers, i) == TryRun(g, p, steps[1..], answers, i + 1) by { RunLater(m, pos, steps, answers, i); }
    ReplayedKept(d.log, g, p, steps[1..], answers, i + 1, pos);
    TailFacts(m, |d.mem|, d.log, pos);
    assert MapAt(TryRun(m, pos, steps, answers, i).extents, pos) == Some(m.curWriteStart);
    assert MapAt(Rebuild(d.log + ops).extents, pos) == MapAt(m.extents, pos);
  }

  lemma FirstOk(m: Manager, size: nat, pos: nat, steps: seq<Step>)
    requires RunOk(m, size, pos, steps) && steps != []
    ensures StepOk(m, size, steps[0]) && RunOk(StepManager(m, pos, steps[0]), size, pos + StepSize(steps[0]), steps[1..])
  {
    hide StepOk, StepManager;
  }

  lemma OpsLater(m: Manager, pos: nat, steps: seq<Step>, answers: nat -> bool, i: nat)
    requires steps != [] && !answers(i)
    ensures TryOps(m, pos, steps, answers, i)
         == TryOps(TryManager(m, pos, steps[0], false), pos + StepSize(steps[0]), steps[1..], answers, i + 1)
  {
    hide TryManager;
  }

  lemma RunLater(m: Manager, pos: nat, steps: seq<Step>, answers: nat -> bool, i: nat)
    requires steps != []
    ensures TryRun(m, pos, steps, answers, i)
         == TryRun(TryManager(m, pos, steps[0], answers(i)), pos + StepSize(steps[0]), steps[1..], answers, i + 1)
  {
  }

  lemma ShapeTail(steps: seq<Step>)
    requires WriteShape(steps) && steps != []
    ensures WriteShape(steps[1..])
    ensures forall k :: 0 <= k < |steps[1..]| && steps[1..][k].FillStep? ==> steps[1..][k].data != []
  {
    forall k | 0 <= k < |steps[1..]| ensures ShapeAt(steps[1..], k) { assert ShapeAt(steps, k + 1); }
    forall k | 0 <= k < |steps[1..]| && steps[1..][k].FillStep? ensures steps[1..][k].data != [] { assert ShapeAt(steps[1..], k); }
  }

  // ---------- an area whose append fails ----------

  lemma AreaLost(m: Manager, d: Disk, pos: nat, steps: seq<Step>, answers: nat -> bool, i: nat)
    requires RunOk(m, |d.mem|, pos, steps) && WriteShape(steps)
    requires steps != [] && steps[0].GrowStep? && !answers(i)
    ensures !InPlace(m, pos, steps, answers, i)
  {
    hide RunOk, InsertSpace;
    FirstOk(m, |d.mem|, pos, steps);
    assert ShapeAt(steps, 0) && ShapeAt(steps, 1);
    assert steps[1..][0] == steps[1];
  }

  /**
    A write lasts exactly when each of its appends is made: then a mount finds the
    running file, and all bytes went to free space of the file.
   */
  lemma {:induction false} LastsIff(m: Manager, d: Disk, pos: nat, steps: seq<Step>, answers: nat -> bool, i: nat)
    requires Good(m, |d.mem|, d.log) && RunOk(m, |d.mem|, pos, steps) && WriteShape(steps)
    ensures Lasts(m, d, pos, steps, answers, i) <==> AllMade(answers, i, |steps|)
    decreases |steps|
  {
    hide Good, StepOk, TryManager, TryEffects, SameFile, Rebuild, ApplyEffects, StepManager, StepEffects, View, WriteShape;
    if steps == [] {
      NothingTried(m, d, pos, answers, i);
    } else if answers(i) {
      var g, p, first := StepManager(m, pos, steps[0]), pos + StepSize(steps[0]), StepEffects(m, pos, steps[0]);
      FirstOk(m, |d.mem|, pos, steps);
      MadeStep(m, d, pos, steps[0]);
      StepDone(m, d, pos, steps[0]);
      ShapeTail(steps);
      LastsIff(g, ApplyEffects(d, first), p, steps[1..], answers, i + 1);
      ApplyEffectsConcat(d, first, TryRunEffects(g, |d.mem|, p, steps[1..], answers, i + 1));
      FillInPlace(m, |d.mem|, steps[0]);
      assert Lasts(m, d, pos, steps, answers, i) <==> Lasts(g, ApplyEffects(d, first), p, steps[1..], answers, i + 1);
    } else if steps[0].FillStep? {
      FillLost(m, d, pos, steps, answers, i);
    } else {
      AreaLost(m, d, pos, steps, answers, i);
    }
  }

  lemma FillInPlace(m: Manager, size: nat, st: Step)
    requires StepOk(m, size, st)
    ensures st.FillStep? ==> |st.data| <= RestSizeOfCurrentArea(m)
  {
  }

  lemma NothingTried(m: Manager, d: Disk, pos: nat, answers: nat -> bool, i: nat)
    requires Good(m, |d.mem|, d.log)
    ensures Lasts(m, d, pos, [], answers, i)
  {
    hide Rebuild, MapAt;
    RebuildIsLive(m, |d.mem|, d.log);
  }

  // ---------- what happens otherwise ----------

  /** With every append made, no byte outside the spaces of the file changes. */
  lemma {:induction false} SpacesOnly(m: Manager, d: Disk, pos: nat, steps: seq<Step>, a: nat)
    requires Good(m, |d.mem|, d.log) && RunOk(m, |d.mem|, pos, steps) && a < |d.mem|
    requires !InSpace(a, RunManager(m, pos, steps).spaces)
    ensures var after := ApplyEffects(d, RunEffects(m, pos, steps)).mem; |after| == |d.mem| && after[a] == d.mem[a]
    ensures !InSpace(a, m.spaces)
    decreases |steps|
  {
    hide Good, StepOk, StepEffects, StepManager, InSpace, View, RunOk;
    if steps != [] {
      var g, p, first := StepManager(m, pos, steps[0]), pos + StepSize(steps[0]), StepEffects(m, pos, steps[0]);
      FirstOk(m, |d.mem|, pos, steps);
      StepDone(m, d, pos, steps[0]);
      SpacesOnly(g, ApplyEffects(d, first), p, steps[1..], a);
      StepSpaces(m, d, pos, steps[0], a);
      ApplyEffectsConcat(d, first, RunEffects(g, p, steps[1..]));
    }
  }

  lemma StepSpaces(m: Manager, d: Disk, pos: nat, st: Step, a: nat)
    requires Good(m, |d.mem|, d.log) && StepOk(m, |d.mem|, st) && a < |d.mem| && !InSpace(a, StepManager(m, pos, st).spaces)
    ensures !InSpace(a, m.spaces)
    ensures var after := ApplyEffects(d, StepEffects(m, pos, st)).mem; |after| == |d.mem| && after[a] == d.mem[a]
  {
    hide ExtentsOk, LogOk, Override, InsertSpace, ApplyEffects, Apply;
    StoresFit(m, d, st);
    var stores := StepStores(m, st);
    ApplyDataEffects(d, stores);
    LastEffect(d, DataEffects(stores), Append(StepOp(m, pos, st)));
    CutStoresInTail(m, d, st, |stores|);
    assert stores[..|stores|] == stores;
    AreaHolds(m, |d.mem|, a);
    if st.GrowStep? {
      StillInSpace(m.spaces, Space(st.addr, st.size), a);
      ApplyNone(d.mem);
      assert stores == [];
    }
  }

  /** The free rest of the current area is part of a space. */
  lemma AreaHolds(m: Manager, size: nat, a: nat)
    requires AreasOk(m, size)
    ensures m.curWriteStart <= a < m.curArea + m.curSize ==> InSpace(a, m.spaces)
  {
    if m.curWriteStart <= a < m.curArea + m.curSize {
      var k :| 0 <= k < |m.spaces| && m.spaces[k] == Space(m.curArea, m.curSize);
      assert m.spaces[k].Holds(a);
    }
  }

  lemma StillInSpace(spaces: seq<Space>, x: Space, a: nat)
    ensures InSpace(a, spaces) ==> InSpace(a, InsertSpace(spaces, x))
  {
    hide InsertSpace;
    if InSpace(a, spaces) {
      var k :| 0 <= k < |spaces| && spaces[k].Holds(a);
      InsertSpaceHas(spaces, x, spaces[k]);
      var s := InsertSpace(spaces, x);
      var j :| 0 <= j < |s| && s[j] == spaces[k];
    }
  }

  /**
    When AddNewSpace fails on a file whose area is full, its callers store the data at
    the address right behind that area, whoever has it.
   */
  lemma UnaddedAreaOverwrites(m: Manager, d: Disk, pos: nat, area: Space, data: seq<byte>, answers: nat -> bool)
    requires RestSizeOfCurrentArea(m) == 0 && m.curWriteStart + |data| <= |d.mem| && !answers(0) && !answers(1)
    ensures var after := ApplyEffects(d, TryRunEffects(m, |d.mem|, pos, [GrowStep(area.start, area.size), FillStep(data)], answers, 0));
            && m.curWriteStart == m.curArea + m.curSize
            && after.log == d.log && after.mem == Splice(d.mem, m.curArea + m.curSize, data)
  {
    hide TryManager, TryEffects, ApplyEffects, TryRunEffects, Splice;
    var grow, fill := GrowStep(area.start, area.size), FillStep(data);
    TryPair(m, |d.mem|, pos, grow, fill, answers, 0);
    NotAdded(m, |d.mem|, pos, grow);
    Unlogged(m, d, pos, fill);
  }

  lemma Unlogged(m: Manager, d: Disk, pos: nat, st: Step)
    requires st.FillStep? && m.curWriteStart + |st.data| <= |d.mem|
    ensures ApplyEffects(d, TryEffects(m, |d.mem|, pos, st, false)) == FileState.Disk(Splice(d.mem, m.curWriteStart, st.data), d.log)
    ensures [] + TryEffects(m, |d.mem|, pos, st, false) == TryEffects(m, |d.mem|, pos, st, false)
  {
    hide Splice, ApplyEffects;
    var stores := StoresOf(m.curWriteStart, st.data);
    ApplyStoresOf(d.mem, m.curWriteStart, st.data);
    ApplyDataEffects(d, stores);
    var es := TryEffects(m, |d.mem|, pos, st, false);
    assert es == DataEffects(stores) + [];
    assert es == DataEffects(stores);
    assert [] + es == es;
  }

  /** A file with one full page and its neighbour: one byte more, no page for the log, and the neighbour's byte is gone. */
  lemma NeighbourOverwritten()
    ensures var m := Manager([Extent(0, 0, SIZE_4K)], [Space(0, SIZE_4K)], 0, SIZE_4K, SIZE_4K, 0, SIZE_4K);
            var d := FileState.Disk(Zeros(3 * SIZE_4K), [AddSpace(0, SIZE_4K), WriteData(0, 0, SIZE_4K)]);
            var steps := [GrowStep(2 * SIZE_4K, SIZE_4K), FillStep([1])];
            var after := ApplyEffects(d, TryRunEffects(m, |d.mem|, SIZE_4K, steps, _ => false, 0));
            && Good(m, |d.mem|, d.log) && RunOk(m, |d.mem|, SIZE_4K, steps) && !Lasts(m, d, SIZE_4K, steps, _ => false, 0)
            && !InSpace(SIZE_4K, m.spaces) && d.mem[SIZE_4K] == 0 && |after.mem| == |d.mem| && after.mem[SIZE_4K] == 1
  {
    var m := Manager([Extent(0, 0, SIZE_4K)], [Space(0, SIZE_4K)], 0, SIZE_4K, SIZE_4K, 0, SIZE_4K);
    var log := [AddSpace(0, SIZE_4K), WriteData(0, 0, SIZE_4K)];
    var d := FileState.Disk(Zeros(3 * SIZE_4K), log);
    var no: nat -> bool := _ => false;
    FullPageGood();
    var steps := [GrowStep(2 * SIZE_4K, SIZE_4K), FillStep([1])];
    assert RunOk(m, |d.mem|, SIZE_4K, steps) by { assert steps[1..] == [FillStep([1])] && steps[1..][1..] == []; }
    assert WriteShape(steps) by { assert ShapeAt(steps, 0) && ShapeAt(steps, 1); }
    LastsIff(m, d, SIZE_4K, steps, no, 0);
    UnaddedAreaOverwrites(m, d, SIZE_4K, Space(2 * SIZE_4K, SIZE_4K), [1], no);
    assert !no(0);
  }

  lemma FullPageGood()
    ensures Good(Manager([Extent(0, 0, SIZE_4K)], [Space(0, SIZE_4K)], 0, SIZE_4K, SIZE_4K, 0, SIZE_4K), 3 * SIZE_4K,
                 [AddSpace(0, SIZE_4K), WriteData(0, 0, SIZE_4K)])
  {
    hide Good;
    GoodStart(3 * SIZE_4K);
    var g := Grow(NO_FILE, 0, SIZE_4K);
    GrowGood(NO_FILE, 3 * SIZE_4K, [], 0, SIZE_4K);
    FillGood(g, 3 * SIZE_4K, [] + [AddSpace(0, SIZE_4K)], 0, SIZE_4K);
    assert [] + [AddSpace(0, SIZE_4K)] + [WriteData(0, 0, SIZE_4K)] == [AddSpace(0, SIZE_4K), WriteData(0, 0, SIZE_4K)];
    assert Fill(g, 0, SIZE_4K) == Manager([Extent(0, 0, SIZE_4K)], [Space(0, SIZE_4K)], 0, SIZE_4K, SIZE_4K, 0, SIZE_4K);
  }

  /** When the first area of a file is not added, its data goes nowhere. */
  lemma FirstWriteNowhere(d: Disk, pos: nat, area: Space, data: seq<byte>, answers: nat -> bool)
    requires |d.mem| < INVALID && data != [] && !answers(0) && !answers(1)
    ensures var steps := [GrowStep(area.start, area.size), FillStep(data)];
            && ApplyEffects(d, TryRunEffects(NO_FILE, |d.mem|, pos, steps, answers, 0)) == d
            && TryRun(NO_FILE, pos, steps, answers, 0).fileMaxLen == pos + |data|
  {
    hide TryManager, TryEffects, ApplyEffects;
    var grow, fill := GrowStep(area.start, area.size), FillStep(data);
    TryPair(NO_FILE, |d.mem|, pos, grow, fill, answers, 0);
    NotAdded(NO_FILE, |d.mem|, pos, grow);
    OffDevice(NO_FILE, |d.mem|, pos, fill);
    LeadsNothing(d);
  }

  lemma NotAdded(m: Manager, size: nat, pos: nat, st: Step)
    requires st.GrowStep?
    ensures TryManager(m, pos, st, false) == m && TryEffects(m, size, pos, st, false) == []
  {
  }

  lemma OffDevice(m: Manager, size: nat, pos: nat, st: Step)
    requires st.FillStep? && m.curWriteStart >= size && st.data != []
    ensures TryEffects(m, size, pos, st, false) == []
    ensures TryManager(m, pos, st, false).fileMaxLen == Max(m.fileMaxLen, pos + |st.data|)
  {
    hide Override;
  }
}
