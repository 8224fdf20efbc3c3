/** From the bytes of an inode's log to the operations they stand for, and back. */
module FileInodeInfo {
  import opened Wrappers
  import opened Nvm
  import opened ChainedSpace
  import opened ContinousSpace
  import opened PageSource
  import opened LogLayout
  import opened Log
  import opened FileState

  const INODE_LOG_ADD_SPACE: byte := 1
  const INODE_LOG_WRITE_DATA: byte := 2
  const INODE_LOG_TRUNCATE: byte := 3

  function Word(n: nat): (b: seq<byte>)
    ensures |b| == 8
  {
    ToLE(n, 8)
  }

  /** The log entry of an operation: the C structures, eight bytes a field. */
  function Encode(op: FileOp): Entry {
    match op
    case AddSpace(addr, size) => Entry(INODE_LOG_ADD_SPACE, Word(addr) + Word(size))
    case WriteData(fileStart, addr, size) => Entry(INODE_LOG_WRITE_DATA, Word(fileStart) + Word(addr) + Word(size))
    case Truncate => Entry(INODE_LOG_TRUNCATE, [])
  }

  function EncodeAll(log: seq<FileOp>): (es: seq<Entry>)
    ensures |es| == |log| && forall i :: 0 <= i < |log| ==> es[i] == Encode(log[i])
  {
    seq(|log|, i requires 0 <= i < |log| => Encode(log[i]))
  }

  predicate Fits64(op: FileOp) {
    match op
    case AddSpace(addr, size) => addr < U64 && size < U64
    case WriteData(fileStart, addr, size) => fileStart < U64 && addr < U64 && size < U64
    case Truncate => true
  }

  /** FileInodeRebuildCleanupOps. */
  const REBUILD_OPS: seq<Ops> := [Ops(NoPrepare, false), Ops(WholeEntry, true), Ops(WholeEntry, true), Ops(NoPrepare, true)]

  /** What a rebuild callback makes of the entry it is given. */
  function OpOfVisit(v: Visit): FileOp {
    if v.kind == INODE_LOG_ADD_SPACE && |v.data| >= 16 then AddSpace(FromLE(v.data[..8]), FromLE(v.data[8..16]))
    else if v.kind == INODE_LOG_WRITE_DATA && |v.data| >= 24 then
      WriteData(FromLE(v.data[..8]), FromLE(v.data[8..16]), FromLE(v.data[16..24]))
    else Truncate
  }

  function OpsOfVisits(vs: seq<Visit>): (r: seq<FileOp>)
    ensures |r| == |vs| && forall i :: 0 <= i < |vs| ==> r[i] == OpOfVisit(vs[i])
  {
    seq(|vs|, i requires 0 <= i < |vs| => OpOfVisit(vs[i]))
  }

  /** The entries byte by byte: the type in the head, the fields of the C structures eight bytes apart. */
  lemma EntryFields(op: FileOp)
    requires Fits64(op)
    ensures var e := Encode(op);
            match op
            case AddSpace(addr, size) =>
              e.kind == 1 && |e.data| == 16 && FromLE(e.data[0..8]) == addr && FromLE(e.data[8..16]) == size
            case WriteData(fileStart, addr, size) =>
              e.kind == 2 && |e.data| == 24
              && FromLE(e.data[0..8]) == fileStart && FromLE(e.data[8..16]) == addr && FromLE(e.data[16..24]) == size
            case Truncate => e.kind == 3 && e.data == []
  {
    hide ToLE, FromLE;
    match op
    case AddSpace(addr, size) =>
      WordDecodes(addr);
      WordDecodes(size);
      var d := Word(addr) + Word(size);
      assert d[0..8] == Word(addr) && d[8..16] == Word(size);
    case WriteData(fileStart, addr, size) =>
      WordDecodes(fileStart);
      WordDecodes(addr);
      WordDecodes(size);
      var d := Word(fileStart) + Word(addr) + Word(size);
      assert d[0..8] == Word(fileStart) && d[8..16] == Word(addr) && d[16..24] == Word(size);
    case Truncate =>
  }

  lemma WordDecodes(n: nat)
    requires n < U64
    ensures FromLE(Word(n)) == n
  {
    Pow256Word();
    LERoundTrip(n, 8);
  }

  lemma EncodeLoggable(op: FileOp)
    ensures Loggable(Encode(op)) && Encode(op).kind < |REBUILD_OPS|
    ensures ReadSize(REBUILD_OPS[Encode(op).kind], |Encode(op).data|) <= |Encode(op).data|
  {
    hide ToLE;
  }

  lemma VisitDecodes(op: FileOp, chain: seq<nat>, o: nat)
    requires Fits64(op)
    ensures Encode(op).kind < |REBUILD_OPS|
    ensures ReadSize(REBUILD_OPS[Encode(op).kind], |Encode(op).data|) <= |Encode(op).data|
    ensures var vs := VisitOf(REBUILD_OPS[Encode(op).kind], chain, o, Encode(op));
            |vs| == 1 && OpOfVisit(vs[0]) == op
  {
    hide ToLE, FromLE, At;
    EncodeLoggable(op);
    match op
    case AddSpace(addr, size) =>
      WordDecodes(addr);
      WordDecodes(size);
      var d := Word(addr) + Word(size);
      assert d[..8] == Word(addr) && d[8..16] == Word(size) && d[..|d|] == d;
    case WriteData(fileStart, addr, size) =>
      WordDecodes(fileStart);
      WordDecodes(addr);
      WordDecodes(size);
      var d := Word(fileStart) + Word(addr) + Word(size);
      assert d[..8] == Word(fileStart) && d[8..16] == Word(addr) && d[16..24] == Word(size) && d[..|d|] == d;
    case Truncate =>
  }

  lemma EncodeAllFits(log: seq<FileOp>)
    ensures OpsFit(REBUILD_OPS, EncodeAll(log))
  {
    hide Encode, ReadSize;
    forall i | 0 <= i < |log|
      ensures EncodeAll(log)[i].kind < |REBUILD_OPS|
              && ReadSize(REBUILD_OPS[EncodeAll(log)[i].kind], |EncodeAll(log)[i].data|) <= |EncodeAll(log)[i].data|
    {
      EncodeLoggable(log[i]);
    }
  }

  /** Replaying the encoded operations calls back with exactly these operations, in order. */
  lemma {:induction false} VisitsDecode(log: seq<FileOp>, chain: seq<nat>, o: nat)
    requires forall i :: 0 <= i < |log| ==> Fits64(log[i])
    ensures OpsFit(REBUILD_OPS, EncodeAll(log))
    ensures OpsOfVisits(VisitsOf(REBUILD_OPS, chain, o, EncodeAll(log))) == log
    decreases |log|
  {
    hide Encode, OpOfVisit, VisitOf, EntrySize, ReadSize, Fits64;
    EncodeAllFits(log);
    if log != [] {
      var e := Encode(log[0]);
      VisitDecodes(log[0], chain, o);
      VisitsDecode(log[1..], chain, o + EntrySize(e));
      assert EncodeAll(log)[1..] == EncodeAll(log[1..]);
      var first := VisitOf(REBUILD_OPS[e.kind], chain, o, e);
      var rest := VisitsOf(REBUILD_OPS, chain, o + EntrySize(e), EncodeAll(log[1..]));
      assert VisitsOf(REBUILD_OPS, chain, o, EncodeAll(log)) == first + rest;
      assert OpsOfVisits(first + rest) == [log[0]] + OpsOfVisits(rest);
    }
  }

  /** The callbacks, one entry after the other. */
  method ReplayVisits(visits: seq<Visit>, ghost ops: seq<FileOp>) returns (m: Manager)
    requires OpsOfVisits(visits) == ops
    ensures m == Replay(ops)
  {
    hide OpOfVisit, ReplayOp;
    m := NO_FILE;
    var i := 0;
    while i < |visits|
      invariant 0 <= i <= |visits| && m == Replay(ops[..i])
    {
      m := ReplayOp(m, OpOfVisit(visits[i]));
      assert ops[..i + 1] == ops[..i] + [ops[i]];
      ReplayAppend(ops[..i], ops[i]);
      i := i + 1;
    }
    assert ops[..i] == ops;
  }

  /**
    FileInodeInfoRebuild: the manager a mount makes of the medium is the one the
    logged operations describe, and the log is ready for the next append.
   */
  method Rebuild(dev: Device, log: Log, firstArea: nat, reserve: nat, ghost chain: seq<nat>, ghost ops: seq<FileOp>,
                 ghost free: set<nat>)
    returns (m: Manager)
    requires OnMedium(dev.mem[..], chain, AlignUp(reserve, 8), EncodeAll(ops))
    requires forall i :: 0 <= i < |ops| ==> Fits64(ops[i])
    requires chain != [] && firstArea == chain[0] && Usable(dev.mem.Length, chain, free)
    requires Capacity(chain) - EndOf(AlignUp(reserve, 8), EncodeAll(ops)) <= BODY_SIZE
    modifies log, log.cs
    ensures m == FileState.Rebuild(ops)
    ensures log.Valid(dev.mem[..], free) && log.cs.chain == chain && log.entries == EncodeAll(ops)
  {
    hide LogAt, Stream, Locate, Encode, VisitsOf, VisitOf, EndOf, OpOfVisit, ReplayOp, OpsFit, AlignUp, Linked;
    VisitsDecode(ops, chain, AlignUp(reserve, 8));
    var visits := log.LogRebuild(dev, firstArea, reserve, REBUILD_OPS, chain, EncodeAll(ops), free);
    m := ReplayVisits(visits, ops);
    m := RebuildEnd(m);
  }
}
