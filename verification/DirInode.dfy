/** A directory inode: its log on the medium and its dentries in memory. */
module DirInode {
  import opened Wrappers
  import opened Nvm
  import opened ChainedSpace
  import opened ContinousSpace
  import opened PageSource
  import opened LogLayout
  import opened Log
  import opened DirLog
  import opened DentryCache

  // ---------- names and hashes ----------

  /** A C string with its terminator. */
  predicate Terminated(name: seq<byte>) {
    |name| > 0 && name[|name| - 1] == 0 && forall i :: 0 <= i < |name| - 1 ==> name[i] != 0
  }

  /** What strcmp looks at. */
  function CString(b: seq<byte>): seq<byte> {
    if b == [] || b[0] == 0 then [] else [b[0]] + CString(b[1..])
  }

  lemma {:induction false} CStringOf(b: seq<byte>)
    requires Terminated(b)
    ensures CString(b) == b[..|b| - 1]
    decreases |b|
  {
    if b[0] != 0 {
      CStringOf(b[1..]);
    }
  }

  /** On terminated names of one length strcmp is equality. */
  lemma StrcmpIsEquality(a: seq<byte>, b: seq<byte>)
    requires Terminated(a) && Terminated(b) && |a| == |b|
    ensures CString(a) == CString(b) <==> a == b
  {
    CStringOf(a);
    CStringOf(b);
    assert a == a[..|a| - 1] + [0 as byte] && b == b[..|b| - 1] + [0 as byte];
  }

  /** The names of the directory itself and of its parent. */
  const DOT: seq<byte> := [46, 0]
  const DOTS: seq<byte> := [46, 46, 0]

  /** strcmp tells the two names from all others, whatever the lengths. */
  lemma DotsCompared(name: seq<byte>)
    requires Terminated(name)
    ensures CString(name) == CString(DOT) <==> name == DOT
    ensures CString(name) == CString(DOTS) <==> name == DOTS
  {
    CStringOf(name);
    CStringOf(DOT);
    CStringOf(DOTS);
    assert name == name[..|name| - 1] + [0 as byte];
    assert DOT == DOT[..1] + [0 as byte] && DOTS == DOTS[..2] + [0 as byte];
  }

  const U32: nat := 0x1_0000_0000

  /** One round of DJBHash; characters are signed. */
  function DjbStep(hash: nat, c: byte): nat {
    (hash + hash * 32 % U32 + (if c >= 128 then c + U32 - 256 else c)) % U32
  }

  function DjbFrom(hash: nat, str: seq<byte>): nat
    decreases |str|
  {
    if str == [] then hash else DjbFrom(DjbStep(hash, str[0]), str[1..])
  }

  function NameHash(str: seq<byte>): nat { DjbFrom(5381, str) % 0x8000_0000 }

  method DJBHash(str: seq<byte>) returns (h: nat)
    ensures h == NameHash(str)
  {
    hide DjbStep;
    var hash: nat, i := 5381, 0;
    assert str[0..] == str;
    while i < |str|
      invariant 0 <= i <= |str| && DjbFrom(hash, str[i..]) == DjbFrom(5381, str)
    {
      assert str[i..][0] == str[i] && str[i..][1..] == str[i + 1..];
      hash := DjbStep(hash, str[i]);
      i := i + 1;
    }
    h := hash % 0x8000_0000;
  }

  // ---------- what a directory keeps ----------

  ghost predicate UniqueNames(ns: seq<Named>) {
    && (forall i :: 0 <= i < |ns| ==> Terminated(ns[i].name))
    && (forall i, j :: 0 <= i < j < |ns| ==> ns[i].ino != ns[j].ino && ns[i].name != ns[j].name)
  }

  ghost predicate HasName(ns: seq<Named>, name: seq<byte>) { exists i :: 0 <= i < |ns| && ns[i].name == name }

  function HashFn(): seq<byte> -> nat { (s: seq<byte>) => NameHash(s) }

  lemma {:induction false} NamesAppend(ns: seq<Named>, ops: seq<DirOp>, op: DirOp)
    ensures Names(ns, ops + [op]) ==
      match op case AddDentry(ino, _, _, name) => Names(ns, ops) + [Named(ino, name)] case RemoveDentry(ino) => DropNamed(Names(ns, ops), ino)
    decreases |ops|
  {
    if ops == [] {
      assert ops + [op] == [op] && [op][1..] == [];
    } else {
      assert (ops + [op])[1..] == ops[1..] + [op] && (ops + [op])[0] == ops[0];
      match ops[0]
      case AddDentry(ino, _, _, name) => NamesAppend(ns + [Named(ino, name)], ops[1..], op);
      case RemoveDentry(ino) => NamesAppend(DropNamed(ns, ino), ops[1..], op);
    }
  }

  lemma {:induction false} DropNamedIs(ns: seq<Named>, ino: nat)
    requires UniqueNames(ns)
    ensures UniqueNames(DropNamed(ns, ino)) && forall n :: n in DropNamed(ns, ino) <==> n in ns && n.ino != ino
    decreases |ns|
  {
    if ns != [] && ns[0].ino == ino {
      assert ns == [ns[0]] + ns[1..];
      forall n | n in ns[1..] ensures n.ino != ino {
        var k :| 0 <= k < |ns[1..]| && ns[1..][k] == n;
        assert ns[k + 1] == n;
      }
    }
    if ns != [] && ns[0].ino != ino {
      var r := DropNamed(ns[1..], ino);
      DropNamedIs(ns[1..], ino);
      forall j | 0 <= j < |r| ensures ns[0].ino != r[j].ino && ns[0].name != r[j].name {
        assert r[j] in ns[1..];
        var k :| 0 <= k < |ns[1..]| && ns[1..][k] == r[j];
        assert ns[k + 1] == r[j];
      }
      assert DropNamed(ns, ino) == [ns[0]] + r;
    }
  }

  /** What holds of the logged history: encoded with the right hashes, names and inodes unique at every moment. */
  ghost predicate History(ops: seq<DirOp>) {
    Hashed(ops, HashFn()) && forall k :: 0 <= k <= |ops| ==> UniqueNames(Names([], ops[..k]))
  }

  lemma HistoryNow(ops: seq<DirOp>)
    requires History(ops)
    ensures UniqueNames(Names([], ops))
  {
    assert ops[..|ops|] == ops;
  }

  /** One operation more: an addition brings its name and loses none, a removal takes the name of its inode alone. */
  lemma NamesNow(ops: seq<DirOp>, op: DirOp)
    requires History(ops)
    ensures forall n :: n in Names([], ops + [op]) <==>
      match op
      case AddDentry(ino, _, _, name) => n in Names([], ops) || n == Named(ino, name)
      case RemoveDentry(ino) => n in Names([], ops) && n.ino != ino
  {
    hide UniqueNames, Names;
    HistoryNow(ops);
    NamesAppend([], ops, op);
    if op.RemoveDentry? {
      DropNamedIs(Names([], ops), op.ino);
    }
  }

  lemma HistoryMore(ops: seq<DirOp>, op: DirOp)
    requires History(ops) && UniqueNames(Names([], ops + [op])) && Hashed([op], HashFn())
    ensures History(ops + [op])
  {
    hide UniqueNames, Names;
    var more := ops + [op];
    assert Hashed(more, HashFn()) by { assert [op][0] == op; }
    forall k | 0 <= k <= |more| ensures UniqueNames(Names([], more[..k])) {
      assert k <= |ops| ==> more[..k] == ops[..k];
      assert k == |more| ==> more[..k] == more;
    }
  }

  lemma HistoryRemove(ops: seq<DirOp>, ino: nat)
    requires History(ops) && ino < U64
    ensures History(ops + [RemoveDentry(ino)])
  {
    hide UniqueNames, Names;
    HistoryNow(ops);
    NamesAppend([], ops, RemoveDentry(ino));
    DropNamedIs(Names([], ops), ino);
    HistoryMore(ops, RemoveDentry(ino));
  }

  lemma HistoryAdd(ops: seq<DirOp>, op: DirOp)
    requires History(ops) && op.AddDentry? && Fits(op) && op.nameHash == NameHash(op.name) && Terminated(op.name)
    requires !HasName(Names([], ops), op.name) && forall i :: 0 <= i < |Names([], ops)| ==> Names([], ops)[i].ino != op.ino
    ensures History(ops + [op])
  {
    hide Names, NameHash, Terminated, History;
    HistoryNow(ops);
    NamesAppend([], ops, op);
    HistoryMore(ops, op);
  }

  // ---------- crash and replay ----------

  /** The stores of adding a dentry: the log's, with the structure and the name as its two pieces. */
  ghost function AddStores(chain: seq<nat>, pages: seq<nat>, w: nat, op: DirOp): seq<Store>
    requires op.AddDentry? && chain != [] && w + EntrySize(Encode(op)) + WORD <= Capacity(chain + pages)
  {
    PiecesOf(op);
    AppendStores(chain, pages, w, Encode(op), StepWriteBody(chain + pages, w, Encode(op), [Header(op), op.name]))
  }

  lemma PiecesOf(op: DirOp)
    requires op.AddDentry?
    ensures Flatten([Header(op), op.name]) == Encode(op).data
  {
    assert [Header(op), op.name][1..] == [op.name] && [op.name][1..] == [];
    assert Flatten([op.name]) == op.name + [];
  }

  /**
    Adding a name, cut by a crash after any store: the mount replays either the
    directory as it was or the directory with the whole new dentry.
   */
  lemma CrashedAdd(mem: seq<byte>, chain: seq<nat>, pages: seq<nat>, start: nat, ops: seq<DirOp>, op: DirOp, k: nat)
    requires OnMedium(mem, chain, start, EncodeAll(ops)) && op.AddDentry? && Fits(op)
    requires Room(mem, chain, pages, EndOf(start, EncodeAll(ops)), Encode(op))
    requires k <= |AddStores(chain, pages, EndOf(start, EncodeAll(ops)), op)|
    requires forall i :: 0 <= i < |ops| ==> Fits(ops[i])
    ensures var stores := AddStores(chain, pages, EndOf(start, EncodeAll(ops)), op);
            && InBounds(|mem|, stores[..k])
            && var found, now := if k < |stores| then chain else chain + pages, if k < |stores| then ops else ops + [op];
            && OnMedium(Apply(mem, stores[..k]), found, start, EncodeAll(now))
            && OpsFit(REBUILD_OPS, EncodeAll(now))
            && ReplayVisits([], VisitsOf(REBUILD_OPS, found, start, EncodeAll(now))) == Dentries([], found, start, now)
  {
    hide LogAt, Stream, Linked, Encode, Header, Dentries, ReplayVisits, VisitsOf, OpsFit, Fits, InBounds, Apply,
         StepWriteBody, AppendStores;
    PiecesOf(op);
    EncodeFits(op);
    StepWriteAtomic(mem, chain, pages, start, EncodeAll(ops), Encode(op), [Header(op), op.name], k);
    assert EncodeAll(ops + [op]) == EncodeAll(ops) + [Encode(op)];
    ReplayIsLive([], chain, start, ops);
    ReplayIsLive([], chain + pages, start, ops + [op]);
  }

  // ---------- the directory as it runs ----------

  /** The log and the history fit together, and the names can be read. */
  lemma NamesLie(mem: seq<byte>, chain: seq<nat>, start: nat, ops: seq<DirOp>)
    requires OnMedium(mem, chain, start, EncodeAll(ops)) && History(ops)
    ensures Lies(Dentries([], chain, start, ops), Names([], ops), Stream(mem, chain), chain, HashFn())
  {
    hide LogAt, Stream, Linked, Encode, UniqueNames;
    LinkedIsChain(mem, chain);
    StreamLength(mem, chain);
    NamesReadBack([], [], Stream(mem, chain), chain, start, ops, HashFn());
  }

  lemma StreamLength(mem: seq<byte>, chain: seq<nat>)
    requires Linked(mem, chain)
    ensures |Stream(mem, chain)| == Capacity(chain)
  {
  }

  class DirInodeInfo {
    /** The base information: the inode of the directory and that of its parent. */
    const thisIno: nat
    const parentIno: nat
    const log: Log
    const cache: DirFileDentryCache
    ghost var ops: seq<DirOp>

    ghost predicate Valid(mem: seq<byte>, free: set<nat>)
      reads this, log, log.cs, cache
    {
      && log.Valid(mem, free) && log.entries == EncodeAll(ops)
      && cache.Valid() && History(ops)
      && cache.nodes == Dentries([], log.cs.chain, log.reserveSize, ops)
    }

    constructor (ino: nat, parent: nat, inoHash: nat -> nat, nameHash: nat -> nat)
      requires (forall k :: inoHash(k) < BUCKETS) && (forall k :: nameHash(k) < BUCKETS)
      ensures thisIno == ino && parentIno == parent
      ensures fresh(log) && fresh(log.cs) && fresh(cache) && cache.Valid() && cache.nodes == [] && ops == []
    {
      thisIno, parentIno := ino, parent;
      log := new Log();
      cache := new DirFileDentryCache(inoHash, nameHash);
      ops := [];
    }

    /** DirInodeInfoFormat: an empty log in a fresh page. */
    method Format(dev: Device, pool: PageSource, reserve: nat) returns (err: bool)
      requires dev.Valid() && dev.mem.Length <= ADDRESS_LIMIT && Usable(dev.mem.Length, [], pool.free)
      requires reserve + 2 * WORD <= BODY_SIZE && cache.Valid() && cache.nodes == [] && ops == []
      modifies log, log.cs, dev, dev.mem, pool
      ensures dev.Valid() && (err <==> old(pool.free) == {})
      ensures err ==> unchanged(dev, dev.mem) && pool.free == old(pool.free)
      ensures !err ==> Valid(dev.mem[..], pool.free) && ops == []
    {
      hide LogAt, Stream, Linked, EndOf, Locate, Capacity, Usable, DirFileDentryCache.Valid;
      NothingLogged(log.cs.chain, log.reserveSize);
      err := log.LogFormat(dev, pool, reserve);
      NothingLogged(log.cs.chain, log.reserveSize);
    }

    /** LogRead of a dentry's name. */
    method ReadName(dev: Device, d: Dentry, ghost n: Named) returns (buffer: seq<byte>)
      requires Linked(dev.mem[..], log.cs.chain) && LiesAt(d, n, Stream(dev.mem[..], log.cs.chain), log.cs.chain, HashFn())
      ensures buffer == n.name
    {
      hide Stream, Linked, Locate;
      LinkedIsChain(dev.mem[..], log.cs.chain);
      ghost var p :| NameIs(d, n, Stream(dev.mem[..], log.cs.chain), log.cs.chain, p);
      StreamLength(dev.mem[..], log.cs.chain);
      buffer := ContinousSpaceRead(dev, d.nameLen, d.nameAddr, log.cs.chain, p);
    }

    /** Whether a node is called `name`: hash and length first, then the bytes on the medium. */
    method IsCalled(dev: Device, d: Dentry, name: seq<byte>, hash: nat, ghost n: Named) returns (same: bool)
      requires Linked(dev.mem[..], log.cs.chain) && LiesAt(d, n, Stream(dev.mem[..], log.cs.chain), log.cs.chain, HashFn())
      requires Terminated(name) && Terminated(n.name) && hash == NameHash(name)
      ensures same <==> n.name == name
    {
      hide Stream, Linked, LiesAt, Terminated, NameHash, CString;
      LinkedIsChain(dev.mem[..], log.cs.chain);
      LiesFacts(d, n, Stream(dev.mem[..], log.cs.chain), log.cs.chain);
      if d.nameHash != hash || d.nameLen != |name| {
        return false;
      }
      var buffer := ReadName(dev, d, n);
      StrcmpIsEquality(buffer, name);
      return CString(buffer) == CString(name);
    }

    /** DirFileDentryCacheLookupByNameImpl: one bucket of the name index. */
    method FindName(dev: Device, name: seq<byte>, hash: nat, ghost free: set<nat>) returns (node: Option<Dentry>)
      requires Valid(dev.mem[..], free) && Terminated(name) && hash == NameHash(name)
      ensures node.Some? ==> exists k :: 0 <= k < |cache.nodes| && cache.nodes[k] == node.value
                                    && k < |Names([], ops)| && Names([], ops)[k] == Named(node.value.ino, name)
      ensures node.None? ==> !HasName(Names([], ops), name)
    {
      hide LogAt, Stream, Linked, LiesAt, Terminated, NameHash, CString, Dentries, Names, UniqueInos, Hashed,
           DirFileDentryCache.Valid;
      LinkedIsChain(dev.mem[..], log.cs.chain);
      ghost var nodes, ns, s, chain := cache.nodes, Names([], ops), Stream(dev.mem[..], log.cs.chain), log.cs.chain;
      NamesLie(dev.mem[..], chain, log.reserveSize, ops);
      HistoryNow(ops);
      cache.NameBucketHolds(hash);
      var bucket := cache.namehash[cache.nameBucket(hash)];
      assert bucket[..0] == [];
      for i := 0 to |bucket|
        invariant NoneCalled(nodes, ns, bucket[..i], name)
      {
        var d := bucket[i];
        assert d in bucket;
        ghost var k :| 0 <= k < |nodes| && nodes[k] == d;
        assert LiesAt(nodes[k], ns[k], s, chain, HashFn());
        SameIno(nodes[k], ns[k], s, chain, HashFn());
        var same := IsCalled(dev, d, name, hash, ns[k]);
        if same {
          return Some(d);
        }
        NotCalledEither(nodes, ns, bucket, i, k, name);
      }
      assert bucket[..|bucket|] == bucket;
      NobodyCalled(nodes, ns, s, chain, bucket, hash, name);
      return None;
    }

    /** DirInodeInfoLookupDentryByName: the directory itself answers to the dots, the history to every other name. */
    method LookupDentryByName(dev: Device, name: seq<byte>, ghost free: set<nat>) returns (ino: Option<nat>)
      requires Valid(dev.mem[..], free) && Terminated(name)
      ensures name == DOT ==> ino == Some(thisIno)
      ensures name == DOTS ==> ino == Some(parentIno)
      ensures name != DOT && name != DOTS && ino.Some? ==>
                exists k :: 0 <= k < |Names([], ops)| && Names([], ops)[k] == Named(ino.value, name)
      ensures name != DOT && name != DOTS ==> (ino.None? <==> !HasName(Names([], ops), name))
    {
      hide NameHash, Terminated, History, CString;
      DotsCompared(name);
      if CString(name) == CString(DOT) {
        return Some(thisIno);
      }
      if CString(name) == CString(DOTS) {
        return Some(parentIno);
      }
      var hash := DJBHash(name);
      var node := FindName(dev, name, hash, free);
      match node
      case None => return None;
      case Some(d) => return Some(d.ino);
    }

    /** DirFileDentryCacheAppendDentryCheck: neither the inode nor the name is there. */
    method AppendDentryCheck(dev: Device, ino: nat, name: seq<byte>, hash: nat, ghost free: set<nat>) returns (exists_: bool)
      requires Valid(dev.mem[..], free) && Terminated(name) && hash == NameHash(name)
      ensures exists_ <==> HasIno(cache.nodes, ino) || HasName(Names([], ops), name)
    {
      hide NameHash, Terminated, History, UniqueInos;
      var node := cache.LookupByIno(ino);
      if node.Some? {
        InHas(cache.nodes, node.value);
        return true;
      }
      node := FindName(dev, name, hash, free);
      return node.Some?;
    }

    /**
      DirInodeInfoAddDentry.  A name or inode that is there already changes nothing;
      otherwise, unless the log finds no page, the history is one addition longer.
     */
    method AddDentry(dev: Device, pool: PageSource, ino: nat, name: seq<byte>, kind: byte) returns (eexist: bool, enospc: bool)
      requires dev.Valid() && Valid(dev.mem[..], pool.free) && Terminated(name)
      requires ino < U64 && |name| + ADD_HEADER < 0x1_0000_0000
      modifies this, log, log.cs, cache, dev, dev.mem, pool
      ensures dev.Valid()
      ensures eexist <==> old(HasIno(cache.nodes, ino)) || old(HasName(Names([], ops), name))
      ensures eexist ==> !enospc && unchanged(this, log, log.cs, cache, dev, dev.mem, pool)
      ensures enospc <==> !eexist && |old(pool.free)| < PagesFor(old(log.cs.restSize), ADD_HEADER + |name|)
      ensures enospc ==> unchanged(this, dev, dev.mem) && cache.nodes == old(cache.nodes)
      ensures !eexist && !enospc ==>
                Valid(dev.mem[..], pool.free) && ops == old(ops) + [DirOp.AddDentry(ino, kind, NameHash(name), name)]
    {
      hide NameHash, Terminated, History, LogAt, Stream, Linked, Encode, Header, Dentries, Names, Chain, Locate, EndOf,
           Capacity, EntrySize, Room, Loggable, Usable, UniqueInos, LinkStores, StreamStores, StepWriteBody, AppendStores,
           ToLE, Flatten, Apply, InBounds, At, NameAt, DirFileDentryCache.Valid, UniqueNames, Hashed;
      var hash := DJBHash(name);
      HashFits(name);
      var found := AppendDentryCheck(dev, ino, name, hash, pool.free);
      if found {
        return true, false;
      }
      ghost var op := DirOp.AddDentry(ino, kind, hash, name);
      ghost var e, m0, chain0, w, es, t0 := Encode(op), dev.mem[..], log.cs.chain, log.End(), log.entries, dev.trace;
      EncodeFits(op);
      HeaderInEntry(op);
      EncodeKind(op);
      AddedHistory(m0, chain0, log.reserveSize, cache.nodes, ops, op);
      var err, handle, pages := log.LogStepWriteBegin(dev, INODE_LOG_ADD_DENTRY, ADD_HEADER + |name|, pool, e);
      if err {
        var _ := cache.RemoveDentry(ino);
        return false, true;
      }
      PlacedFoot(handle, log.cs.chain, w, e);
      var nameAddr := StorePieces(dev, handle, ino, name, kind, hash, log.cs.chain, w, op);
      AddTrace(t0, chain0, pages, w, op);
      AppendedByStep(dev.base, t0, m0, chain0, pages, log.reserveSize, es, e, [Header(op), name], dev.trace, dev.mem[..]);
      log.entries := log.entries + [e];
      AddedNodes(chain0, pages, log.reserveSize, ops, op);
      cache.JustAppendDentry(Dentry(ino, kind, nameAddr, |name|, hash));
      ops := ops + [op];
      return false, false;
    }

    /** DirInodeInfoRemoveDentry. */
    method RemoveDentry(dev: Device, pool: PageSource, ino: nat) returns (einval: bool, enospc: bool)
      requires dev.Valid() && Valid(dev.mem[..], pool.free) && ino < U64
      modifies this, log, log.cs, cache, dev, dev.mem, pool
      ensures dev.Valid() && (einval <==> !old(HasIno(cache.nodes, ino)))
      ensures einval ==> !enospc && unchanged(this, log, log.cs, cache, dev, dev.mem, pool)
      ensures enospc <==> !einval && |old(pool.free)| < PagesFor(old(log.cs.restSize), 8)
      ensures enospc ==> unchanged(this, cache, dev, dev.mem)
      ensures !einval && !enospc ==> Valid(dev.mem[..], pool.free) && ops == old(ops) + [DirOp.RemoveDentry(ino)]
    {
      hide History, LogAt, Stream, Linked, Encode, Dentries, Chain, Locate, EndOf, Capacity, EntrySize, Loggable, Usable,
           UniqueInos, AppendStores, LogWriteBody, ToLE, Apply, InBounds, At, DirFileDentryCache.Valid;
      var node := cache.LookupByIno(ino);
      if node.None? {
        return true, false;
      }
      InHas(cache.nodes, node.value);
      ghost var op, chain0, start := DirOp.RemoveDentry(ino), log.cs.chain, log.reserveSize;
      assert Fits(op);
      EncodeFits(op);
      RemoveEntry(op);
      var err, _, pages := log.LogWrite(dev, INODE_LOG_REMOVE_DENTRY, ToLE(ino, 8), pool);
      if err {
        return false, true;
      }
      RemovedNodes(chain0, pages, start, ops, op);
      HistoryRemove(ops, ino);
      var found := cache.RemoveDentry(ino);
      ops := ops + [op];
      return false, false;
    }

    /** DirInodeInfoRebuild on a fresh directory: what is on the medium is what was written. */
    method Rebuild(dev: Device, firstArea: nat, reserve: nat, ghost chain: seq<nat>, ghost written: seq<DirOp>,
                   ghost free: set<nat>)
      requires OnMedium(dev.mem[..], chain, AlignUp(reserve, 8), EncodeAll(written)) && History(written)
      requires chain != [] && firstArea == chain[0] && Usable(dev.mem.Length, chain, free)
      requires Capacity(chain) - EndOf(AlignUp(reserve, 8), EncodeAll(written)) <= BODY_SIZE
      requires cache.Valid() && cache.nodes == []
      modifies this, log, log.cs, cache
      ensures Valid(dev.mem[..], free) && ops == written && log.cs.chain == chain && log.reserveSize == AlignUp(reserve, 8)
    {
      hide LogAt, Stream, Locate, Encode, VisitsOf, EndOf, OpsFit, AlignUp, Linked, Dentries, Capacity, Usable, Names,
           UniqueNames, Fits, DirFileDentryCache.Valid, ReplayVisits;
      ReplayIsLive([], chain, AlignUp(reserve, 8), written);
      var visits := log.LogRebuild(dev, firstArea, reserve, REBUILD_OPS, chain, EncodeAll(written), free);
      ops := written;
      PrefixesUnique(chain, AlignUp(reserve, 8), written);
      ReplayAll(visits, chain, AlignUp(reserve, 8), written);
    }

    /** The rebuild callbacks, one entry after the other. */
    method ReplayAll(visits: seq<Visit>, ghost chain: seq<nat>, ghost o: nat, ghost written: seq<DirOp>)
      requires cache.Valid() && cache.nodes == []
      requires (forall i :: 0 <= i < |written| ==> Fits(written[i])) && OpsFit(REBUILD_OPS, EncodeAll(written))
      requires visits == VisitsOf(REBUILD_OPS, chain, o, EncodeAll(written)) && AllFresh([], chain, o, written)
      modifies cache
      ensures cache.Valid() && cache.nodes == Dentries([], chain, o, written)
    {
      hide VisitOf, Encode, EntrySize, ReadSize, Fits, Apply1, ReplayVisit, DirFileDentryCache.Valid, At, HasIno, OpsFit, VisitsOf;
      ghost var ops, at: nat := written, o;
      var i := 0;
      assert visits[0..] == visits;
      while i < |visits|
        modifies cache
        invariant 0 <= i <= |visits| && cache.Valid()
        invariant (forall k :: 0 <= k < |ops| ==> Fits(ops[k])) && OpsFit(REBUILD_OPS, EncodeAll(ops))
        invariant visits[i..] == VisitsOf(REBUILD_OPS, chain, at, EncodeAll(ops)) && AllFresh(cache.nodes, chain, at, ops)
        invariant Dentries(cache.nodes, chain, at, ops) == Dentries([], chain, o, written)
      {
        FirstVisit(cache.nodes, chain, at, ops, visits[i..]);
        var v := visits[i];
        Replay1(v, chain, at, ops[0]);
        at, ops := at + EntrySize(Encode(ops[0])), ops[1..];
        assert visits[i..][1..] == visits[i + 1..];
        i := i + 1;
      }
      NoVisitsLeft(chain, at, ops);
    }

    /** One callback: DirInodeRebuildAddDentryCleanup or DirInodeRebuildRemoveDentryCleanup. */
    method Replay1(v: Visit, ghost chain: seq<nat>, ghost o: nat, ghost op: DirOp)
      requires cache.Valid() && Fits(op) && (op.AddDentry? ==> !HasIno(cache.nodes, op.ino))
      requires Encode(op).kind < |REBUILD_OPS| && ReadSize(REBUILD_OPS[Encode(op).kind], |Encode(op).data|) <= |Encode(op).data|
      requires [v] == VisitOf(REBUILD_OPS[Encode(op).kind], chain, o, Encode(op))
      modifies cache
      ensures cache.Valid() && cache.nodes == Apply1(old(cache.nodes), chain, o, op)
    {
      hide DirFileDentryCache.Valid, ToLE, FromLE, At, HasIno;
      VisitReplays(cache.nodes, chain, o, op);
      VisitFields(v, chain, o, op);
      assert [v][0] == v;
      if v.kind == INODE_LOG_ADD_DENTRY {
        cache.JustAppendDentry(Dentry(FromLE(v.data[..8]), v.data[8], v.readEnd.GetOr(0), FromLE(v.data[12..16]), FromLE(v.data[16..20])));
      } else {
        ghost var was := cache.nodes;
        var found := cache.RemoveDentry(FromLE(v.data[..8]));
        if !found {
          NothingDropped(was, FromLE(v.data[..8]));
        }
      }
    }
  }

  lemma NothingLogged(chain: seq<nat>, o: nat)
    ensures EncodeAll([]) == [] && History([]) && Dentries([], chain, o, []) == []
  {
  }

  lemma RemoveEntry(op: DirOp)
    requires op.RemoveDentry?
    ensures Encode(op) == Entry(INODE_LOG_REMOVE_DENTRY, ToLE(op.ino, 8))
  {
  }

  lemma RemovedNodes(chain: seq<nat>, pages: seq<nat>, start: nat, ops: seq<DirOp>, op: DirOp)
    requires EndOf(start, EncodeAll(ops)) < Capacity(chain) && op.RemoveDentry?
    ensures Dentries([], chain + pages, start, ops + [op]) == DropIno(Dentries([], chain, start, ops), op.ino)
    ensures EncodeAll(ops + [op]) == EncodeAll(ops) + [Encode(op)]
  {
    hide Capacity, At, Encode, EndOf;
    forall p | 0 <= p < Capacity(chain) ensures At(chain + pages, p) == At(chain, p) { AtPrefix(chain, pages, p); }
    DentriesStay([], chain, pages, start, ops);
    DentriesAppend([], chain + pages, start, ops, op);
  }

  lemma {:induction false} NothingDropped(ds: seq<Dentry>, ino: nat)
    requires !HasIno(ds, ino)
    ensures DropIno(ds, ino) == ds
    decreases |ds|
  {
    if ds != [] {
      assert ds[0].ino != ino;
      assert !HasIno(ds[1..], ino) by { assert forall k :: 0 <= k < |ds[1..]| ==> ds[1..][k] == ds[k + 1]; }
      NothingDropped(ds[1..], ino);
    }
  }

  lemma VisitFields(v: Visit, chain: seq<nat>, o: nat, op: DirOp)
    requires Fits(op) && Encode(op).kind < |REBUILD_OPS|
    requires ReadSize(REBUILD_OPS[Encode(op).kind], |Encode(op).data|) <= |Encode(op).data|
    requires [v] == VisitOf(REBUILD_OPS[Encode(op).kind], chain, o, Encode(op))
    ensures v.kind == (if op.AddDentry? then INODE_LOG_ADD_DENTRY else INODE_LOG_REMOVE_DENTRY)
    ensures |v.data| == (if op.AddDentry? then ADD_HEADER else 8) && FromLE(v.data[..8]) == op.ino
  {
    hide ToLE, FromLE, At;
    assert [v][0] == v;
    EightBytes(op.ino);
    if op.AddDentry? {
      HeaderInEntry(op);
      HeaderDecodes(op);
    } else {
      assert ToLE(op.ino, 8)[..8] == ToLE(op.ino, 8);
    }
  }

  /** Every dentry is new when its entry is replayed. */
  ghost predicate AllFresh(ds: seq<Dentry>, chain: seq<nat>, o: nat, ops: seq<DirOp>)
    decreases |ops|
  {
    ops == [] ||
    ((ops[0].AddDentry? ==> !HasIno(ds, ops[0].ino)) && AllFresh(Apply1(ds, chain, o, ops[0]), chain, o + EntrySize(Encode(ops[0])), ops[1..]))
  }

  lemma FirstVisit(ds: seq<Dentry>, chain: seq<nat>, o: nat, ops: seq<DirOp>, vs: seq<Visit>)
    requires (forall k :: 0 <= k < |ops| ==> Fits(ops[k])) && OpsFit(REBUILD_OPS, EncodeAll(ops))
    requires vs == VisitsOf(REBUILD_OPS, chain, o, EncodeAll(ops)) && vs != [] && AllFresh(ds, chain, o, ops)
    ensures ops != [] && (ops[0].AddDentry? ==> !HasIno(ds, ops[0].ino))
    ensures Encode(ops[0]).kind < |REBUILD_OPS| && ReadSize(REBUILD_OPS[Encode(ops[0]).kind], |Encode(ops[0]).data|) <= |Encode(ops[0]).data|
    ensures [vs[0]] == VisitOf(REBUILD_OPS[Encode(ops[0]).kind], chain, o, Encode(ops[0]))
    ensures OpsFit(REBUILD_OPS, EncodeAll(ops[1..]))
    ensures vs[1..] == VisitsOf(REBUILD_OPS, chain, o + EntrySize(Encode(ops[0])), EncodeAll(ops[1..]))
    ensures AllFresh(Apply1(ds, chain, o, ops[0]), chain, o + EntrySize(Encode(ops[0])), ops[1..])
    ensures Dentries(ds, chain, o, ops) == Dentries(Apply1(ds, chain, o, ops[0]), chain, o + EntrySize(Encode(ops[0])), ops[1..])
  {
    hide VisitOf, Encode, EntrySize, ReadSize, Fits, Apply1, ReplayVisit;
    if ops != [] {
      assert EncodeAll(ops)[1..] == EncodeAll(ops[1..]);
      VisitReplays(ds, chain, o, ops[0]);
      var first := VisitOf(REBUILD_OPS[Encode(ops[0]).kind], chain, o, Encode(ops[0]));
      assert first == [first[0]];
    }
  }

  lemma NoVisitsLeft(chain: seq<nat>, o: nat, ops: seq<DirOp>)
    requires (forall k :: 0 <= k < |ops| ==> Fits(ops[k])) && OpsFit(REBUILD_OPS, EncodeAll(ops))
    requires VisitsOf(REBUILD_OPS, chain, o, EncodeAll(ops)) == []
    ensures ops == []
  {
    hide Encode, EntrySize, ReadSize, Fits, VisitOf;
    if ops != [] {
      VisitReplays([], chain, o, ops[0]);
    }
  }

  /** A history with unique inodes replays without ever adding one twice. */
  lemma PrefixesUnique(chain: seq<nat>, o: nat, ops: seq<DirOp>)
    requires History(ops)
    ensures AllFresh([], chain, o, ops)
  {
    hide UniqueNames, Names;
    FreshFrom([], [], chain, o, ops);
  }

  ghost predicate SameInos(ds: seq<Dentry>, ns: seq<Named>) {
    |ds| == |ns| && forall i :: 0 <= i < |ds| ==> ds[i].ino == ns[i].ino
  }

  lemma {:induction false} DropSameInos(ds: seq<Dentry>, ns: seq<Named>, ino: nat)
    requires SameInos(ds, ns)
    ensures SameInos(DropIno(ds, ino), DropNamed(ns, ino))
    decreases |ds|
  {
    if ds != [] && ds[0].ino != ino {
      DropSameInos(ds[1..], ns[1..], ino);
    }
  }

  lemma {:induction false} FreshFrom(ds: seq<Dentry>, ns: seq<Named>, chain: seq<nat>, o: nat, ops: seq<DirOp>)
    requires SameInos(ds, ns) && forall k :: 0 <= k <= |ops| ==> UniqueNames(Names(ns, ops[..k]))
    ensures AllFresh(ds, chain, o, ops)
    decreases |ops|
  {
    hide UniqueNames, Encode, EntrySize, At;
    if ops != [] {
      var op := ops[0];
      var next := if op.AddDentry? then ns + [Named(op.ino, op.name)] else DropNamed(ns, op.ino);
      forall k | 0 <= k <= |ops[1..]| ensures UniqueNames(Names(next, ops[1..][..k])) {
        assert ops[..k + 1][0] == op && ops[..k + 1][1..] == ops[1..][..k];
        assert UniqueNames(Names(ns, ops[..k + 1]));
      }
      if op.AddDentry? {
        assert ops[1..][..0] == [];
        LastIsNew(ns, Named(op.ino, op.name));
        assert !HasIno(ds, op.ino);
      } else {
        DropSameInos(ds, ns, op.ino);
      }
      FreshFrom(Apply1(ds, chain, o, op), next, chain, o + EntrySize(Encode(op)), ops[1..]);
    }
  }

  lemma LastIsNew(ns: seq<Named>, n: Named)
    requires UniqueNames(ns + [n])
    ensures forall i :: 0 <= i < |ns| ==> ns[i].ino != n.ino
  {
    forall i | 0 <= i < |ns| ensures ns[i].ino != n.ino {
      assert (ns + [n])[i] == ns[i] && (ns + [n])[|ns|] == n;
    }
  }

  /** The structure, then the name, then the head: what follows LogStepWriteBegin. */
  method StorePieces(dev: Device, handle: StepHandle, ino: nat, name: seq<byte>, kind: byte, hash: nat,
                     ghost chain: seq<nat>, ghost w: nat, ghost op: DirOp)
    returns (nameAddr: nat)
    requires dev.Valid() && Linked(dev.mem[..], chain) && op == DirOp.AddDentry(ino, kind, hash, name)
    requires handle.Placed(chain, w, w + WORD, Encode(op)) && w % WORD == 0 && w + EntrySize(Encode(op)) + WORD <= Capacity(chain)
    modifies dev, dev.mem
    ensures dev.Valid() && Linked(dev.mem[..], chain) && Some(nameAddr) == At(chain, NameAt(w))
    ensures w + WORD + |Flatten([Header(op), name])| <= Capacity(chain)
    ensures dev.trace == old(dev.trace) + PieceStores(chain, w + WORD, [Header(op), name]) + [Store(Locate(chain, w), Head(Encode(op)))]
  {
    hide Linked, Locate, Encode, Header, EntrySize, StreamStores, Head, Capacity, Flatten, PieceStores, ToLE, At, NameAt,
         StepHandle.Placed;
    var header := ToLE(ino, 8) + [kind, 0, 0, 0] + ToLE(|name|, 4) + ToLE(hash, 4) + [0, 0, 0, 0];
    HeaderIs(op);
    PlacedFacts(handle, chain, w, op);
    TwoPieces(chain, w + WORD, header, name);
    var h1, _ := LogStepWriteContinue(dev, handle, header, chain, w + WORD);
    var h2, start := LogStepWriteContinue(dev, h1, name, chain, w + WORD + ADD_HEADER);
    nameAddr := start;
    LogStepWriteEnd(dev, h2, chain, w);
  }

  lemma PlacedFoot(handle: StepHandle, chain: seq<nat>, w: nat, e: Entry)
    requires handle.Placed(chain, w, w + WORD, e) && w + EntrySize(e) + WORD <= Capacity(chain)
    ensures w + EntrySize(e) < Capacity(chain) && handle.footAddr == Locate(chain, w + EntrySize(e))
  {
    hide Locate, EntrySize;
  }

  /** Where head, structure and name of the new entry go. */
  lemma PlacedFacts(handle: StepHandle, chain: seq<nat>, w: nat, op: DirOp)
    requires op.AddDentry? && handle.Placed(chain, w, w + WORD, Encode(op)) && w + EntrySize(Encode(op)) + WORD <= Capacity(chain)
    ensures w + WORD + ADD_HEADER + |op.name| < Capacity(chain) && w + WORD + |Flatten([Header(op), op.name])| <= Capacity(chain)
    ensures w + WORD <= Capacity(chain) && handle.headAddr == Locate(chain, w) && handle.entryAddr == Locate(chain, w + WORD)
    ensures handle.head == Head(Encode(op)) && At(chain, NameAt(w)) == Some(Locate(chain, w + WORD + ADD_HEADER))
  {
    hide Locate, Encode, Header, EntrySize, Head, Flatten;
    HeaderInEntry(op);
    PiecesOf(op);
  }

  lemma HeaderIs(op: DirOp)
    requires op.AddDentry?
    ensures Header(op) == ToLE(op.ino, 8) + [op.kind, 0, 0, 0] + ToLE(|op.name|, 4) + ToLE(op.nameHash, 4) + [0, 0, 0, 0]
  {
  }

  lemma TwoPieces(chain: seq<nat>, o: nat, a: seq<byte>, b: seq<byte>)
    requires o + |Flatten([a, b])| <= Capacity(chain)
    ensures |Flatten([a, b])| == |a| + |b|
    ensures o + |a| <= Capacity(chain) && o + |a| + |b| <= Capacity(chain)
    ensures PieceStores(chain, o, [a, b]) == StreamStores(chain, o, a) + StreamStores(chain, o + |a|, b)
  {
    hide StreamStores;
    assert [a, b][1..] == [b] && [b][1..] == [];
    assert Flatten([b]) == b + [];
    assert PieceStores(chain, o + |a|, [b]) == StreamStores(chain, o + |a|, b) + [];
  }

  lemma AddTrace(t0: seq<Store>, chain: seq<nat>, pages: seq<nat>, w: nat, op: DirOp)
    requires op.AddDentry? && chain != [] && w + EntrySize(Encode(op)) + WORD <= Capacity(chain + pages)
    ensures Flatten([Header(op), op.name]) == Encode(op).data && w + WORD + |Encode(op).data| <= Capacity(chain + pages)
    ensures t0 + LinkStores(chain[|chain| - 1], pages) + StreamStores(chain + pages, w + EntrySize(Encode(op)), ZERO_WORD)
              + PieceStores(chain + pages, w + WORD, [Header(op), op.name]) + [Store(Locate(chain + pages, w), Head(Encode(op)))]
            == t0 + AppendStores(chain, pages, w, Encode(op), StepWriteBody(chain + pages, w, Encode(op), [Header(op), op.name]))
  {
    hide LinkStores, StreamStores, PieceStores, Head, Locate, Encode, Header, EntrySize;
    PiecesOf(op);
  }

  lemma AtPrefix(chain: seq<nat>, pages: seq<nat>, p: nat)
    requires p < Capacity(chain)
    ensures At(chain + pages, p) == At(chain, p)
  {
  }

  lemma AddedNodes(chain: seq<nat>, pages: seq<nat>, start: nat, ops: seq<DirOp>, op: DirOp)
    requires EndOf(start, EncodeAll(ops)) < Capacity(chain) && op.AddDentry?
    ensures Dentries([], chain + pages, start, ops + [op]) ==
      Dentries([], chain, start, ops)
        + [Dentry(op.ino, op.kind, At(chain + pages, NameAt(EndOf(start, EncodeAll(ops)))).GetOr(0), |op.name|, op.nameHash)]
    ensures EncodeAll(ops + [op]) == EncodeAll(ops) + [Encode(op)]
  {
    hide Capacity, At, Encode, EndOf;
    forall p | 0 <= p < Capacity(chain) ensures At(chain + pages, p) == At(chain, p) { AtPrefix(chain, pages, p); }
    DentriesStay([], chain, pages, start, ops);
    DentriesAppend([], chain + pages, start, ops, op);
  }

  lemma AddedHistory(mem: seq<byte>, chain: seq<nat>, start: nat, nodes: seq<Dentry>, ops: seq<DirOp>, op: DirOp)
    requires OnMedium(mem, chain, start, EncodeAll(ops)) && nodes == Dentries([], chain, start, ops)
    requires History(ops) && op.AddDentry? && Fits(op) && op.nameHash == NameHash(op.name) && Terminated(op.name)
    requires !HasName(Names([], ops), op.name) && !HasIno(nodes, op.ino)
    ensures History(ops + [op])
  {
    hide LogAt, Stream, Linked, LiesAt, Terminated, NameHash, Dentries, Names, History, Fits;
    LinkedIsChain(mem, chain);
    NamesLie(mem, chain, start, ops);
    var ns := Names([], ops);
    forall i | 0 <= i < |ns| ensures ns[i].ino != op.ino {
      assert LiesAt(nodes[i], ns[i], Stream(mem, chain), chain, HashFn());
      SameIno(nodes[i], ns[i], Stream(mem, chain), chain, HashFn());
    }
    HistoryAdd(ops, op);
  }

  lemma HashFits(name: seq<byte>)
    ensures NameHash(name) < 0x8000_0000
  {
    hide DjbFrom;
  }

  lemma EncodeKind(op: DirOp)
    requires op.AddDentry?
    ensures Encode(op).kind == INODE_LOG_ADD_DENTRY && Encode(op).data == Header(op) + op.name
  {
  }

  lemma InHas(nodes: seq<Dentry>, d: Dentry)
    requires d in nodes
    ensures HasIno(nodes, d.ino)
  {
    var k :| 0 <= k < |nodes| && nodes[k] == d;
    assert nodes[k].ino == d.ino;
  }

  /** Of the nodes in the list, none is called `name`. */
  ghost predicate NoneCalled(nodes: seq<Dentry>, ns: seq<Named>, list: seq<Dentry>, name: seq<byte>)
    requires |nodes| == |ns|
  {
    forall k :: 0 <= k < |ns| && nodes[k] in list ==> ns[k].name != name
  }

  lemma NotCalledEither(nodes: seq<Dentry>, ns: seq<Named>, bucket: seq<Dentry>, i: nat, k: nat, name: seq<byte>)
    requires |nodes| == |ns| && UniqueInos(nodes) && i < |bucket| && k < |nodes| && nodes[k] == bucket[i]
    requires NoneCalled(nodes, ns, bucket[..i], name) && ns[k].name != name
    ensures NoneCalled(nodes, ns, bucket[..i + 1], name)
  {
    assert bucket[..i + 1] == bucket[..i] + [bucket[i]];
  }

  lemma NobodyCalled(nodes: seq<Dentry>, ns: seq<Named>, s: seq<byte>, chain: seq<nat>, bucket: seq<Dentry>, hash: nat,
                     name: seq<byte>)
    requires Lies(nodes, ns, s, chain, HashFn()) && NoneCalled(nodes, ns, bucket, name) && hash == NameHash(name)
    requires forall d :: d in nodes && d.nameHash == hash ==> d in bucket
    ensures !HasName(ns, name)
  {
    hide LiesAt, NameHash;
    forall k | 0 <= k < |ns| ensures ns[k].name != name {
      assert LiesAt(nodes[k], ns[k], s, chain, HashFn());
      LiesFacts(nodes[k], ns[k], s, chain);
    }
  }

  lemma LiesFacts(d: Dentry, n: Named, s: seq<byte>, chain: seq<nat>)
    requires LiesAt(d, n, s, chain, HashFn())
    ensures d.ino == n.ino && d.nameLen == |n.name| && d.nameHash == NameHash(n.name)
  {
  }
}
