/**
  What the log of a directory says: entries that add and remove names, the
  dentries they leave, and the same dentries found again by replaying.
 */
module DirLog {
  import opened Wrappers
  import opened Nvm
  import opened ChainedSpace
  import opened ContinousSpace
  import opened LogLayout
  import opened Log

  const INODE_LOG_ADD_DENTRY: byte := 1
  const INODE_LOG_REMOVE_DENTRY: byte := 2

  /** sizeof(struct DirInodeLogAddDentryEntry): the name comes behind it. */
  const ADD_HEADER: nat := 24

  datatype DirOp =
    | AddDentry(ino: nat, kind: byte, nameHash: nat, name: seq<byte>)
    | RemoveDentry(ino: nat)

  /** A node of the dentry cache. */
  datatype Dentry = Dentry(ino: nat, kind: byte, nameAddr: nat, nameLen: nat, nameHash: nat)

  predicate Fits(op: DirOp) {
    op.ino < U64 && (op.AddDentry? ==> |op.name| + ADD_HEADER < 0x1_0000_0000 && op.nameHash < 0x1_0000_0000)
  }

  /** The structure in front of a name: ino, type, length and hash at their C offsets. */
  function Header(op: DirOp): (h: seq<byte>)
    requires op.AddDentry?
    ensures |h| == ADD_HEADER
  {
    ToLE(op.ino, 8) + [op.kind, 0, 0, 0] + ToLE(|op.name|, 4) + ToLE(op.nameHash, 4) + [0, 0, 0, 0]
  }

  function Encode(op: DirOp): Entry {
    match op
    case AddDentry(_, _, _, name) => Entry(INODE_LOG_ADD_DENTRY, Header(op) + name)
    case RemoveDentry(ino) => Entry(INODE_LOG_REMOVE_DENTRY, ToLE(ino, 8))
  }

  function EncodeAll(ops: seq<DirOp>): (es: seq<Entry>)
    ensures |es| == |ops| && forall i :: 0 <= i < |ops| ==> es[i] == Encode(ops[i])
  {
    seq(|ops|, i requires 0 <= i < |ops| => Encode(ops[i]))
  }

  // ---------- dentries, in the order they were added ----------

  function DropIno(ds: seq<Dentry>, ino: nat): seq<Dentry> {
    if ds == [] then [] else if ds[0].ino == ino then ds[1..] else [ds[0]] + DropIno(ds[1..], ino)
  }

  ghost predicate HasIno(ds: seq<Dentry>, ino: nat) { exists i :: 0 <= i < |ds| && ds[i].ino == ino }

  ghost predicate UniqueInos(ds: seq<Dentry>) { forall i, j :: 0 <= i < j < |ds| ==> ds[i].ino != ds[j].ino }

  function NameLens(ds: seq<Dentry>): nat { if ds == [] then 0 else ds[0].nameLen + NameLens(ds[1..]) }

  /** Where in the stream the name of an entry at `o` begins. */
  function NameAt(o: nat): nat { o + WORD + ADD_HEADER }

  /** One operation whose entry is at stream position `o`. */
  ghost function Apply1(ds: seq<Dentry>, chain: seq<nat>, o: nat, op: DirOp): seq<Dentry> {
    match op
    case AddDentry(ino, kind, hash, name) => ds + [Dentry(ino, kind, At(chain, NameAt(o)).GetOr(0), |name|, hash)]
    case RemoveDentry(ino) => DropIno(ds, ino)
  }

  /** The dentries after the operations logged from `o` on. */
  ghost function Dentries(ds: seq<Dentry>, chain: seq<nat>, o: nat, ops: seq<DirOp>): seq<Dentry>
    decreases |ops|
  {
    if ops == [] then ds else Dentries(Apply1(ds, chain, o, ops[0]), chain, o + EntrySize(Encode(ops[0])), ops[1..])
  }

  lemma {:induction false} DentriesAppend(ds: seq<Dentry>, chain: seq<nat>, o: nat, ops: seq<DirOp>, op: DirOp)
    ensures Dentries(ds, chain, o, ops + [op]) == Apply1(Dentries(ds, chain, o, ops), chain, EndOf(o, EncodeAll(ops)), op)
    decreases |ops|
  {
    hide Apply1, Encode, EntrySize;
    if ops == [] {
      assert ops + [op] == [op] && [op][1..] == [];
    } else {
      assert (ops + [op])[1..] == ops[1..] + [op] && (ops + [op])[0] == ops[0];
      assert EncodeAll(ops)[1..] == EncodeAll(ops[1..]);
      DentriesAppend(Apply1(ds, chain, o, ops[0]), chain, o + EntrySize(Encode(ops[0])), ops[1..], op);
    }
  }

  /** Growing the chain moves no name. */
  lemma {:induction false} DentriesStay(ds: seq<Dentry>, chain: seq<nat>, pages: seq<nat>, o: nat, ops: seq<DirOp>)
    requires EndOf(o, EncodeAll(ops)) < Capacity(chain)
    requires forall p :: 0 <= p < Capacity(chain) ==> At(chain + pages, p) == At(chain, p)
    ensures Dentries(ds, chain + pages, o, ops) == Dentries(ds, chain, o, ops)
    decreases |ops|
  {
    hide Encode, EntrySize, Capacity, At;
    if ops != [] {
      assert EncodeAll(ops)[1..] == EncodeAll(ops[1..]);
      var next := o + EntrySize(Encode(ops[0]));
      assert EndOf(o, EncodeAll(ops)) == EndOf(next, EncodeAll(ops[1..]));
      if ops[0].AddDentry? {
        HeaderInEntry(ops[0]);
      }
      DentriesStay(Apply1(ds, chain, o, ops[0]), chain, pages, next, ops[1..]);
    }
  }

  lemma HeaderInEntry(op: DirOp)
    requires op.AddDentry?
    ensures WORD + ADD_HEADER <= EntrySize(Encode(op)) && |Encode(op).data| == ADD_HEADER + |op.name|
    ensures Encode(op).data[ADD_HEADER..] == op.name && Encode(op).data[..ADD_HEADER] == Header(op)
  {
    hide ToLE;
  }

  // ---------- replay ----------

  /** DirInodeRebuildCleanupOps: the callbacks ask for the structures in front. */
  const REBUILD_OPS: seq<Ops> := [Ops(NoPrepare, false), Ops(FirstBytes(ADD_HEADER), true), Ops(FirstBytes(8), true)]

  /** What a rebuild callback does to the dentries; a dentry's name is where the bytes it read end. */
  function ReplayVisit(ds: seq<Dentry>, v: Visit): seq<Dentry> {
    if v.kind == INODE_LOG_ADD_DENTRY && |v.data| >= ADD_HEADER then
      ds + [Dentry(FromLE(v.data[..8]), v.data[8], v.readEnd.GetOr(0), FromLE(v.data[12..16]), FromLE(v.data[16..20]))]
    else if |v.data| >= 8 then DropIno(ds, FromLE(v.data[..8]))
    else ds
  }

  function ReplayVisits(ds: seq<Dentry>, vs: seq<Visit>): seq<Dentry>
    decreases |vs|
  {
    if vs == [] then ds else ReplayVisits(ReplayVisit(ds, vs[0]), vs[1..])
  }

  lemma {:induction false} ReplayAppend(ds: seq<Dentry>, vs: seq<Visit>, v: Visit)
    ensures ReplayVisits(ds, vs + [v]) == ReplayVisit(ReplayVisits(ds, vs), v)
    decreases |vs|
  {
    hide ReplayVisit;
    if vs == [] {
      assert vs + [v] == [v] && [v][1..] == [];
    } else {
      assert (vs + [v])[1..] == vs[1..] + [v];
      ReplayAppend(ReplayVisit(ds, vs[0]), vs[1..], v);
    }
  }

  lemma EncodeFits(op: DirOp)
    requires Fits(op)
    ensures Loggable(Encode(op)) && Encode(op).kind < |REBUILD_OPS|
    ensures ReadSize(REBUILD_OPS[Encode(op).kind], |Encode(op).data|) <= |Encode(op).data|
  {
    hide ToLE;
  }

  lemma FourBytes(n: nat)
    requires n < 0x1_0000_0000
    ensures FromLE(ToLE(n, 4)) == n
  {
    hide Pow256;
    Pow256Word();
    LERoundTrip(n, 4);
  }

  lemma EightBytes(n: nat)
    requires n < U64
    ensures FromLE(ToLE(n, 8)) == n
  {
    hide Pow256;
    Pow256Word();
    LERoundTrip(n, 8);
  }

  lemma HeaderDecodes(op: DirOp)
    requires op.AddDentry? && Fits(op)
    ensures var h := Header(op);
            FromLE(h[..8]) == op.ino && h[8] == op.kind && FromLE(h[12..16]) == |op.name| && FromLE(h[16..20]) == op.nameHash
  {
    hide ToLE, FromLE;
    EightBytes(op.ino);
    FourBytes(|op.name|);
    FourBytes(op.nameHash);
    var h := Header(op);
    assert h[..8] == ToLE(op.ino, 8) && h[12..16] == ToLE(|op.name|, 4) && h[16..20] == ToLE(op.nameHash, 4);
  }

  /** The callback of one entry does what the operation did. */
  lemma VisitReplays(ds: seq<Dentry>, chain: seq<nat>, o: nat, op: DirOp)
    requires Fits(op)
    ensures Encode(op).kind < |REBUILD_OPS| && ReadSize(REBUILD_OPS[Encode(op).kind], |Encode(op).data|) <= |Encode(op).data|
    ensures var vs := VisitOf(REBUILD_OPS[Encode(op).kind], chain, o, Encode(op));
            |vs| == 1 && ReplayVisit(ds, vs[0]) == Apply1(ds, chain, o, op)
  {
    hide ToLE, FromLE, At, DropIno;
    EncodeFits(op);
    match op
    case AddDentry(ino, kind, hash, name) =>
      HeaderInEntry(op);
      HeaderDecodes(op);
    case RemoveDentry(ino) =>
      EightBytes(ino);
      assert ToLE(ino, 8)[..8] == ToLE(ino, 8);
  }

  lemma EncodeAllFits(ops: seq<DirOp>)
    requires forall i :: 0 <= i < |ops| ==> Fits(ops[i])
    ensures OpsFit(REBUILD_OPS, EncodeAll(ops))
  {
    hide Encode, ReadSize, Fits;
    forall i | 0 <= i < |ops|
      ensures EncodeAll(ops)[i].kind < |REBUILD_OPS|
              && ReadSize(REBUILD_OPS[EncodeAll(ops)[i].kind], |EncodeAll(ops)[i].data|) <= |EncodeAll(ops)[i].data|
    {
      EncodeFits(ops[i]);
    }
  }

  /** Replaying the log gives exactly the dentries there were, every name at its address. */
  lemma {:induction false} ReplayIsLive(ds: seq<Dentry>, chain: seq<nat>, o: nat, ops: seq<DirOp>)
    requires forall i :: 0 <= i < |ops| ==> Fits(ops[i])
    ensures OpsFit(REBUILD_OPS, EncodeAll(ops))
    ensures ReplayVisits(ds, VisitsOf(REBUILD_OPS, chain, o, EncodeAll(ops))) == Dentries(ds, chain, o, ops)
    decreases |ops|
  {
    hide Encode, ReplayVisit, VisitOf, EntrySize, ReadSize, Fits, Apply1;
    EncodeAllFits(ops);
    if ops != [] {
      var e := Encode(ops[0]);
      VisitReplays(ds, chain, o, ops[0]);
      var next := Apply1(ds, chain, o, ops[0]);
      ReplayIsLive(next, chain, o + EntrySize(e), ops[1..]);
      assert EncodeAll(ops)[1..] == EncodeAll(ops[1..]);
      var first := VisitOf(REBUILD_OPS[e.kind], chain, o, e);
      var rest := VisitsOf(REBUILD_OPS, chain, o + EntrySize(e), EncodeAll(ops[1..]));
      assert VisitsOf(REBUILD_OPS, chain, o, EncodeAll(ops)) == first + rest;
      assert (first + rest)[0] == first[0] && (first + rest)[1..] == rest;
    }
  }

  // ---------- names ----------

  datatype Named = Named(ino: nat, name: seq<byte>)

  function DropNamed(ns: seq<Named>, ino: nat): seq<Named> {
    if ns == [] then [] else if ns[0].ino == ino then ns[1..] else [ns[0]] + DropNamed(ns[1..], ino)
  }

  /** Inodes and names after the operations, without addresses. */
  function Names(ns: seq<Named>, ops: seq<DirOp>): seq<Named>
    decreases |ops|
  {
    if ops == [] then ns
    else Names(match ops[0] case AddDentry(ino, _, _, name) => ns + [Named(ino, name)] case RemoveDentry(ino) => DropNamed(ns, ino),
               ops[1..])
  }

  /** Each dentry lies over the bytes of its name, and has its hash. */
  ghost predicate Lies(ds: seq<Dentry>, ns: seq<Named>, s: seq<byte>, chain: seq<nat>, hash: seq<byte> -> nat) {
    && |ds| == |ns|
    && forall i :: 0 <= i < |ds| ==> LiesAt(ds[i], ns[i], s, chain, hash)
  }

  ghost predicate LiesAt(d: Dentry, n: Named, s: seq<byte>, chain: seq<nat>, hash: seq<byte> -> nat) {
    && d.ino == n.ino && d.nameLen == |n.name| && d.nameHash == hash(n.name)
    && exists p :: NameIs(d, n, s, chain, p)
  }

  ghost predicate NameIs(d: Dentry, n: Named, s: seq<byte>, chain: seq<nat>, p: nat) {
    At(chain, p) == Some(d.nameAddr) && BodyAt(s, p, n.name)
  }

  lemma {:induction false} DropLies(ds: seq<Dentry>, ns: seq<Named>, s: seq<byte>, chain: seq<nat>,
                                    hash: seq<byte> -> nat, ino: nat)
    requires Lies(ds, ns, s, chain, hash)
    ensures Lies(DropIno(ds, ino), DropNamed(ns, ino), s, chain, hash)
    decreases |ds|
  {
    hide LiesAt;
    if ds != [] {
      assert LiesAt(ds[0], ns[0], s, chain, hash);
      SameIno(ds[0], ns[0], s, chain, hash);
      assert Lies(ds[1..], ns[1..], s, chain, hash);
      if ds[0].ino != ino {
        DropLies(ds[1..], ns[1..], s, chain, hash, ino);
      }
    }
  }

  lemma SameIno(d: Dentry, n: Named, s: seq<byte>, chain: seq<nat>, hash: seq<byte> -> nat)
    requires LiesAt(d, n, s, chain, hash)
    ensures d.ino == n.ino
  {
  }

  /** The logged operations used the hash of the names. */
  ghost predicate Hashed(ops: seq<DirOp>, hash: seq<byte> -> nat) {
    forall i :: 0 <= i < |ops| ==> Fits(ops[i]) && (ops[i].AddDentry? ==> ops[i].nameHash == hash(ops[i].name))
  }

  lemma AddedLies(s: seq<byte>, chain: seq<nat>, o: nat, op: DirOp, hash: seq<byte> -> nat)
    requires op.AddDentry? && op.nameHash == hash(op.name) && EntryAt(s, o, Encode(op))
    requires |s| == Capacity(chain) && o + EntrySize(Encode(op)) + WORD <= |s|
    ensures LiesAt(Dentry(op.ino, op.kind, At(chain, NameAt(o)).GetOr(0), |op.name|, op.nameHash), Named(op.ino, op.name), s, chain, hash)
  {
    hide Locate, Header, EntrySize;
    HeaderInEntry(op);
    var e := Encode(op);
    var p := NameAt(o);
    assert s[p..p + |op.name|] == s[o + WORD..o + WORD + |e.data|][ADD_HEADER..];
    assert NameIs(Dentry(op.ino, op.kind, At(chain, p).GetOr(0), |op.name|, op.nameHash), Named(op.ino, op.name), s, chain, p);
  }

  /** Every dentry of the directory points at its name on the medium. */
  lemma {:induction false} NamesReadBack(ds: seq<Dentry>, ns: seq<Named>, s: seq<byte>, chain: seq<nat>, o: nat,
                                         ops: seq<DirOp>, hash: seq<byte> -> nat)
    requires LogAt(s, o, EncodeAll(ops)) && |s| == Capacity(chain) && Hashed(ops, hash) && Lies(ds, ns, s, chain, hash)
    ensures Lies(Dentries(ds, chain, o, ops), Names(ns, ops), s, chain, hash)
    decreases |ops|
  {
    hide Encode, EntrySize, EntryAt, LiesAt, At, DropIno, DropNamed;
    if ops != [] {
      var op, e := ops[0], Encode(ops[0]);
      assert EncodeAll(ops)[1..] == EncodeAll(ops[1..]);
      var next := o + EntrySize(e);
      LogAtFits(s, next, EncodeAll(ops[1..]));
      if op.AddDentry? {
        AddedLies(s, chain, o, op, hash);
        NamesReadBack(Apply1(ds, chain, o, op), ns + [Named(op.ino, op.name)], s, chain, next, ops[1..], hash);
      } else {
        DropLies(ds, ns, s, chain, hash, op.ino);
        NamesReadBack(Apply1(ds, chain, o, op), DropNamed(ns, op.ino), s, chain, next, ops[1..], hash);
      }
    }
  }

  lemma {:induction false} LogAtFits(s: seq<byte>, o: nat, es: seq<Entry>)
    requires LogAt(s, o, es)
    ensures o + WORD <= |s|
    decreases |es|
  {
    hide EntrySize;
  }
}
