/**
  What a replay makes of a log, told entry by entry: each field of the manager comes
  from the last entry of a kind, the length from the longest write, and every position
  of the file from the last entry that touched it.
 */
module FileReplay {
  import opened Wrappers
  import opened FileExtents
  import opened FileExtentTree
  import opened FileRead
  import opened FileState

  /** The last entry of a kind, if there is one. */
  function Last(log: seq<FileOp>, kind: FileOp -> bool): (r: Option<nat>)
    ensures r == None ==> forall i :: 0 <= i < |log| ==> !kind(log[i])
    ensures r.Some? ==> r.value < |log| && kind(log[r.value]) && forall j :: r.value < j < |log| ==> !kind(log[j])
    decreases |log|
  {
    if log == [] then None
    else if kind(log[|log| - 1]) then Some(|log| - 1)
    else Last(log[..|log| - 1], kind)
  }

  const AREA: FileOp -> bool := (op: FileOp) => op.AddSpace?
  const PAGE: FileOp -> bool := (op: FileOp) => op.AddSpace? && op.size == SIZE_4K
  const WRITE: FileOp -> bool := (op: FileOp) => op.WriteData?
  const TRUNCATE: FileOp -> bool := (op: FileOp) => op.Truncate?

  /** Entries that decide what position `p` of the file is. */
  function Touching(p: nat): FileOp -> bool {
    (op: FileOp) => op.Truncate? || (op.WriteData? && op.fileStart <= p < op.fileStart + op.size)
  }

  /** The last page added is the hint for the next one, whatever came before it. */
  lemma {:induction false} LastPageIs(log: seq<FileOp>)
    ensures Replay(log).lastUsedPage == (match Last(log, PAGE) case None => INVALID case Some(i) => log[i].addr)
    decreases |log|
  {
    hide Override, InsertSpace;
    if log != [] {
      var before := log[..|log| - 1];
      LastPageIs(before);
    }
  }

  /** The current area is the last one added; the write position is the end of the last write, wherever that was. */
  lemma {:induction false} CurrentAreaIs(log: seq<FileOp>)
    ensures var r := Replay(log);
            && (r.curArea, r.curSize) == (match Last(log, AREA) case None => (INVALID, 0) case Some(i) => (log[i].addr, log[i].size))
            && r.curWriteStart == (match Last(log, WRITE) case None => INVALID case Some(i) => log[i].addr + log[i].size)
    decreases |log|
  {
    hide Override, InsertSpace;
    if log != [] {
      var before := log[..|log| - 1];
      CurrentAreaIs(before);
    }
  }

  /** The spaces are those that were added; nothing takes one away. */
  lemma {:induction false} SpacesAre(log: seq<FileOp>, x: Space)
    ensures x in Replay(log).spaces <==> exists i :: 0 <= i < |log| && log[i] == AddSpace(x.start, x.size)
    decreases |log|
  {
    hide Override, InsertSpace;
    if log != [] {
      var n := |log| - 1;
      SpacesAre(log[..n], x);
      if log[n].AddSpace? {
        InsertSpaceHas(Replay(log[..n]).spaces, Space(log[n].addr, log[n].size), x);
      }
      if x in Replay(log[..n]).spaces {
        var i :| 0 <= i < n && log[..n][i] == AddSpace(x.start, x.size);
        assert log[i] == AddSpace(x.start, x.size);
      }
      if i :| 0 <= i < |log| && log[i] == AddSpace(x.start, x.size) {
        assert i < n ==> log[..n][i] == AddSpace(x.start, x.size);
      }
    }
  }

  /** They are in the order of their addresses, as LookupFileSpaceNode searches them. */
  lemma {:induction false} SpacesAscend(log: seq<FileOp>)
    ensures StartsAscend(Replay(log).spaces)
    decreases |log|
  {
    hide Override, InsertSpace, StartsAscend;
    if log == [] {
      NoneAscend();
    } else {
      var n := |log| - 1;
      SpacesAscend(log[..n]);
      if log[n].AddSpace? {
        InsertSpaceAscends(Replay(log[..n]).spaces, Space(log[n].addr, log[n].size));
      }
    }
  }

  lemma NoneAscend()
    ensures StartsAscend([])
  {
  }

  /** The file is as long as the farthest write since the last truncate. */
  ghost predicate LengthOf(log: seq<FileOp>, from: nat, len: nat) {
    && (forall i :: from <= i < |log| && log[i].WriteData? ==> log[i].fileStart + log[i].size <= len)
    && (len == 0 || exists i :: from <= i < |log| && log[i].WriteData? && log[i].fileStart + log[i].size == len)
  }

  lemma {:induction false} LengthIs(log: seq<FileOp>)
    ensures LengthOf(log, Last(log, TRUNCATE).GetOr(0), Replay(log).fileMaxLen)
    decreases |log|
  {
    hide Override, InsertSpace;
    if log != [] {
      var n := |log| - 1;
      var before, len := log[..n], Replay(log[..n]).fileMaxLen;
      LengthIs(before);
      var from := Last(before, TRUNCATE).GetOr(0);
      assert LengthOf(before, from, len);
      if log[n].WriteData? {
        assert log[n].fileStart + log[n].size <= Replay(log).fileMaxLen;
      }
      if len > 0 {
        var i :| from <= i < n && before[i].WriteData? && before[i].fileStart + before[i].size == len;
        assert log[i] == before[i];
      }
    }
  }

  ghost predicate WritesSome(log: seq<FileOp>) { forall i :: 0 <= i < |log| && log[i].WriteData? ==> log[i].size > 0 }

  /** Each position of the file is where the last entry that touched it put it. */
  lemma {:induction false} MapIs(log: seq<FileOp>, p: nat)
    requires WritesSome(log)
    ensures Sorted(Replay(log).extents)
    ensures MapAt(Replay(log).extents, p) ==
              match Last(log, Touching(p))
              case None => None
              case Some(i) => if log[i].Truncate? then None else Some(log[i].addr + (p - log[i].fileStart))
    decreases |log|
  {
    hide Override, InsertSpace, Sorted, MapAt;
    if log == [] {
      EmptyMap(p);
    } else {
      var n := |log| - 1;
      var before := log[..n];
      assert WritesSome(before);
      MapIs(before, p);
      match log[n]
      case AddSpace(_, _) =>
      case Truncate => EmptyMap(p);
      case WriteData(fileStart, addr, size) =>
        OverrideAt(Replay(before).extents, Extent(addr, fileStart, size), p);
        OverrideSorted(Replay(before).extents, Extent(addr, fileStart, size));
    }
  }

  lemma EmptyMap(p: nat)
    ensures Sorted([]) && MapAt([], p) == None
  {
  }

  // ---------- the running manager ----------

  /** In every good state the hint is the last page added, in memory as after a mount. */
  lemma HintIsLastPage(m: Manager, size: nat, log: seq<FileOp>)
    requires Good(m, size, log)
    ensures m.lastUsedPage == (match Last(log, PAGE) case None => INVALID case Some(i) => log[i].addr)
    ensures Rebuild(log).lastUsedPage == m.lastUsedPage
  {
    hide AreasOk, ExtentsOk, Replay;
    LastPageIs(log);
  }

  /** And the current area is the last one added. */
  lemma AreaIsLast(m: Manager, size: nat, log: seq<FileOp>)
    requires Good(m, size, log)
    ensures (m.curArea, m.curSize) == (match Last(log, AREA) case None => (INVALID, 0) case Some(i) => (log[i].addr, log[i].size))
  {
    hide AreasOk, ExtentsOk, Replay;
    CurrentAreaIs(log);
  }

  /** The write position is the end of the last write when that lies in the current area, else the start of the area. */
  lemma WritePositionIs(m: Manager, size: nat, log: seq<FileOp>)
    requires Good(m, size, log)
    ensures var end := (match Last(log, WRITE) case None => INVALID case Some(i) => log[i].addr + log[i].size);
            m.curWriteStart == if m.curArea <= end <= m.curArea + m.curSize then end else m.curArea
  {
    hide ExtentsOk, Replay;
    CurrentAreaIs(log);
  }

  /** A truncate takes the contents and the length, and nothing else: the free rest of the current area stays. */
  lemma TruncateKeeps(log: seq<FileOp>)
    ensures var r, t := Rebuild(log), Rebuild(log + [Truncate]);
            && t.spaces == r.spaces && t.curArea == r.curArea && t.curWriteStart == r.curWriteStart && t.curSize == r.curSize
            && t.lastUsedPage == r.lastUsedPage && RestSizeOfCurrentArea(t) == RestSizeOfCurrentArea(r)
            && t.extents == [] && t.fileMaxLen == 0
  {
    hide Replay;
    ReplayAppend(log, Truncate);
  }
}
