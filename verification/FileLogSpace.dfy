/**
  The log space a file write needs, and what it is worth to check it beforehand.
 */
module FileLogSpace {
  import Nvm
  import ChainedSpace
  import ContinousSpace
  import Log
  import FileInodeInfo
  import opened FileExtentTree
  import opened FileRead
  import opened FileState
  import opened FileRuns
  import opened FileOutcomes

  /** The data of the log entry of a step. */
  function OpSize(st: Step): nat { if st.GrowStep? then 16 else 24 }

  lemma OpSizeIs(m: Manager, pos: nat, st: Step)
    ensures |FileInodeInfo.Encode(StepOp(m, pos, st)).data| == OpSize(st)
  {
    hide Nvm.ToLE;
  }

  /** What the entries of the steps take up in the log, heads included. */
  function LogBytes(steps: seq<Step>): nat {
    if steps == [] then 0 else Log.AppendSize(OpSize(steps[0])) - Nvm.WORD + LogBytes(steps[1..])
  }

  /**
    The answers are those of LogWrite, for a log with `rest` bytes left in its last
    page and `free` pages to be had; after a failed append they may be anything, since
    the account of the log is off.
   */
  ghost predicate Answered(rest: int, free: nat, steps: seq<Step>, answers: nat -> bool, i: nat)
    decreases |steps|
  {
    steps == [] ||
    (rest >= 0 &&
     var n := OpSize(steps[0]);
     && (answers(i) <==> Log.PagesFor(rest, n) <= free)
     && (answers(i) ==> Answered(Log.RestAfter(rest, n), free - Log.PagesFor(rest, n), steps[1..], answers, i + 1)))
  }

  /** All appends are made exactly when the free pages are enough for all entries together. */
  lemma {:induction false} MadeIffPages(rest: nat, free: nat, steps: seq<Step>, answers: nat -> bool, i: nat)
    requires rest >= Nvm.WORD && Answered(rest, free, steps, answers, i)
    ensures AllMade(answers, i, |steps|) <==> ContinousSpace.PagesNeeded(rest, LogBytes(steps) + Nvm.WORD) <= free
    decreases |steps|
  {
    hide ContinousSpace.PagesNeeded, OpSize, Log.AppendSize;
    ContinousSpace.PagesLeast(rest, LogBytes(steps) + Nvm.WORD, free);
    if steps != [] {
      var n := OpSize(steps[0]);
      var k, b := Log.PagesFor(rest, n), Log.AppendSize(n) - Nvm.WORD;
      ContinousSpace.PagesLeast(rest, Log.AppendSize(n), free);
      Log.RestStays(rest, n);
      if answers(i) {
        var after: nat := Log.RestAfter(rest, n);
        MadeIffPages(after, free - k, steps[1..], answers, i + 1);
        ContinousSpace.PagesLeast(after, LogBytes(steps[1..]) + Nvm.WORD, free - k);
        assert after + (free - k) * ChainedSpace.BODY_SIZE == rest + free * ChainedSpace.BODY_SIZE - b;
      }
    }
  }

  /**
    A write lasts, byte for byte and in place, exactly when the page source has the
    pages its log entries need: the caller can tell before the write.
   */
  lemma WriteLastsIff(m: Manager, d: Disk, pos: nat, steps: seq<Step>, answers: nat -> bool, rest: nat, free: nat)
    requires Good(m, |d.mem|, d.log) && RunOk(m, |d.mem|, pos, steps) && WriteShape(steps)
    requires rest >= Nvm.WORD && Answered(rest, free, steps, answers, 0)
    ensures Lasts(m, d, pos, steps, answers, 0) <==> ContinousSpace.PagesNeeded(rest, LogBytes(steps) + Nvm.WORD) <= free
  {
    hide Good, RunOk, WriteShape, Lasts, ContinousSpace.PagesNeeded, LogBytes, Answered;
    LastsIff(m, d, pos, steps, answers, 0);
    MadeIffPages(rest, free, steps, answers, 0);
  }

  /** The steps of FileDataManagerWriteData: an area is entered to be filled. */
  lemma {:induction false} AreasShape(areas: seq<Space>, buf: seq<Nvm.byte>)
    requires areas != [] ==> AreasFit(areas, |buf|)
    ensures WriteShape(WriteAreas(areas, buf)) && LogBytes(WriteAreas(areas, buf)) == 56 * |areas|
    decreases |areas|
  {
    if areas != [] {
      var n := Min(|buf|, areas[0].size);
      var grow, fill, later := GrowStep(areas[0].start, areas[0].size), FillStep(buf[..n]), WriteAreas(areas[1..], buf[n..]);
      AreasShape(areas[1..], buf[n..]);
      TwoMore(grow, fill, later);
    }
  }

  lemma TwoMore(grow: Step, fill: Step, later: seq<Step>)
    requires grow.GrowStep? && fill.FillStep? && fill.data != [] && WriteShape(later)
    ensures WriteShape([grow, fill] + later) && LogBytes([grow, fill] + later) == 56 + LogBytes(later)
  {
    var steps := [grow, fill] + later;
    forall k | 0 <= k < |steps| ensures ShapeAt(steps, k) {
      if k >= 2 { assert ShapeAt(later, k - 2); }
    }
    assert steps[1..] == [fill] + later && steps[1..][1..] == later;
  }

  lemma OneMore(fill: Step, later: seq<Step>)
    requires fill.FillStep? && fill.data != [] && WriteShape(later)
    ensures WriteShape([fill] + later) && LogBytes([fill] + later) == 32 + LogBytes(later)
  {
    var steps := [fill] + later;
    forall k | 0 <= k < |steps| ensures ShapeAt(steps, k) {
      if k >= 1 { assert ShapeAt(later, k - 1); }
    }
    assert steps[1..] == later;
  }

  /** The log space of a write: 56 bytes for each new area, 32 for the rest of the current one. */
  lemma WriteNeeds(m: Manager, size: nat, buf: seq<Nvm.byte>, areas: seq<Space>)
    requires AreasOk(m, size) && buf != []
    requires |buf| > RestSizeOfCurrentArea(m) ==> AreasFit(areas, |buf| - RestSizeOfCurrentArea(m))
    ensures WriteShape(WriteSteps(m, buf, areas))
    ensures LogBytes(WriteSteps(m, buf, areas)) ==
              if |buf| <= RestSizeOfCurrentArea(m) then 32
              else 56 * |areas| + if RestSizeOfCurrentArea(m) > 0 then 32 else 0
  {
    hide AreasOk, AreasFit, WriteAreas;
    RestIsNat(m, size);
    var rest := RestSizeOfCurrentArea(m);
    if |buf| <= rest {
      OneMore(FillStep(buf), []);
      assert [FillStep(buf)] + [] == [FillStep(buf)];
    } else {
      AreasShape(areas, buf[rest..]);
      if rest > 0 {
        OneMore(FillStep(buf[..rest]), WriteAreas(areas, buf[rest..]));
      } else {
        assert buf[rest..] == buf;
      }
    }
  }
}
