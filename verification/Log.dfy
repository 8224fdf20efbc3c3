/** The log of an inode: appending, replaying and rebuilding. */
module Log {
  import opened Wrappers
  import opened Nvm
  import opened ChainedSpace
  import opened ContinousSpace
  import opened PageSource
  import opened LogLayout

  // ---------- replay ----------

  /** How much of an entry a replay callback asks for. */
  datatype Prepare = NoPrepare | WholeEntry | FirstBytes(n: nat)

  datatype Ops = Ops(prepare: Prepare, cleanup: bool)

  /** One call of a cleanup callback; addresses are None where the code passes invalid_nvm_addr. */
  datatype Visit = Visit(kind: byte, data: seq<byte>, readStart: Option<nat>, readEnd: Option<nat>)

  function ReadSize(ops: Ops, size: nat): nat {
    match ops.prepare
    case NoPrepare => 0
    case WholeEntry => size
    case FirstBytes(n) => n
  }

  ghost predicate OpsFit(ops: seq<Ops>, es: seq<Entry>) {
    forall k :: 0 <= k < |es| ==> es[k].kind < |ops| && ReadSize(ops[es[k].kind], |es[k].data|) <= |es[k].data|
  }

  ghost function At(chain: seq<nat>, o: nat): Option<nat> {
    if o < Capacity(chain) then Some(Locate(chain, o)) else None
  }

  ghost function VisitOf(ops: Ops, chain: seq<nat>, o: nat, e: Entry): seq<Visit>
    requires ReadSize(ops, |e.data|) <= |e.data|
  {
    var n := ReadSize(ops, |e.data|);
    if ops.prepare != NoPrepare then [Visit(e.kind, e.data[..n], At(chain, o + WORD), At(chain, o + WORD + n))]
    else if e.data == [] && ops.cleanup then [Visit(e.kind, [], None, None)]
    else []
  }

  /** The callbacks a replay of the entries `es`, stored from stream position `o`, makes. */
  ghost function VisitsOf(ops: seq<Ops>, chain: seq<nat>, o: nat, es: seq<Entry>): seq<Visit>
    requires OpsFit(ops, es)
    decreases |es|
  {
    if es == [] then []
    else VisitOf(ops[es[0].kind], chain, o, es[0]) + VisitsOf(ops, chain, o + EntrySize(es[0]), es[1..])
  }

  lemma EntryBytes(s: seq<byte>, o: nat, es: seq<Entry>)
    requires LogAt(s, o, es)
    ensures o + WORD <= |s|
    ensures es == [] <==> s[o..o + WORD] == ZERO_WORD
    ensures es != [] ==>
      var e := es[0];
      && s[o] == e.kind && FromLE(s[o..o + WORD][4..8]) == |e.data|
      && o + EntrySize(e) + WORD <= |s| && s[o + WORD..o + WORD + |e.data|] == e.data
      && LogAt(s, o + EntrySize(e), es[1..])
  {
    hide EntrySize, Head, FromLE;
    if es != [] {
      HeadDecodes(es[0]);
      assert s[o..o + WORD] == Head(es[0]);
      LogAtEnd(s, o + EntrySize(es[0]), es[1..]);
    }
  }

  /** One round of a replay: what the callback of entry `e` is given. */
  method VisitEntry(dev: Device, ops: Ops, kind: byte, size: nat, addr: nat, ghost chain: seq<nat>, ghost o: nat, ghost e: Entry)
    returns (visits: seq<Visit>)
    requires Linked(dev.mem[..], chain) && addr == At(chain, o).GetOr(0) && o + EntrySize(e) + WORD <= Capacity(chain)
    requires e.kind == kind && |e.data| == size && Stream(dev.mem[..], chain)[o + WORD..o + WORD + |e.data|] == e.data
    requires ReadSize(ops, size) <= size
    ensures visits == VisitOf(ops, chain, o, e)
  {
    hide Locate, Stream, PageLink, EntrySize;
    if ops.prepare != NoPrepare {
      var n := ReadSize(ops, size);
      var readStart := CalculateNextAddr(dev, addr, WORD, chain, o);
      var readEnd := CalculateNextAddr(dev, readStart, n, chain, o + WORD);
      var buffer := ContinousSpaceRead(dev, n, readStart, chain, o + WORD);
      assert buffer == e.data[..n] by {
        var s := Stream(dev.mem[..], chain);
        assert s[o + WORD..o + WORD + n] == s[o + WORD..o + WORD + size][..n];
      }
      visits := [Visit(kind, buffer, Some(readStart), Some(readEnd))];
    } else if size == 0 && ops.cleanup {
      visits := [Visit(kind, [], None, None)];
    } else {
      visits := [];
    }
  }

  lemma ReplayStep(ops: seq<Ops>, chain: seq<nat>, o: nat, rest: seq<Entry>, visits: seq<Visit>)
    requires rest != [] && OpsFit(ops, rest)
    ensures OpsFit(ops, rest[1..]) && rest[0].kind < |ops| && ReadSize(ops[rest[0].kind], |rest[0].data|) <= |rest[0].data|
    ensures EndOf(o + EntrySize(rest[0]), rest[1..]) == EndOf(o, rest)
    ensures visits + VisitOf(ops[rest[0].kind], chain, o, rest[0]) + VisitsOf(ops, chain, o + EntrySize(rest[0]), rest[1..])
         == visits + VisitsOf(ops, chain, o, rest)
  {
    hide EntrySize, VisitOf, ReadSize;
  }

  method LogForEachEntry(dev: Device, firstArea: nat, reserveSize: nat, ops: seq<Ops>, ghost chain: seq<nat>, ghost es: seq<Entry>)
    returns (visits: seq<Visit>, lastReadAddr: nat)
    requires OnMedium(dev.mem[..], chain, reserveSize, es) && OpsFit(ops, es)
    requires chain != [] && firstArea == chain[0]
    ensures visits == VisitsOf(ops, chain, reserveSize, es)
    ensures Some(lastReadAddr) == At(chain, EndOf(reserveSize, es))
  {
    hide Locate, Stream, LogAt, PageLink, EntrySize, FromLE, Head, VisitOf, Chain, VisitsOf, EndOf, OpsFit, ReadSize, AlignUp,
         NextAddr, Linked;
    LogEndFits(dev.mem[..], chain, reserveSize, es);
    LinkedIsChain(dev.mem[..], chain);
    ghost var s := Stream(dev.mem[..], chain);
    ghost var o: nat, rest := reserveSize, es;
    StartOfChain(chain);
    var addr := CalculateNextAddr(dev, firstArea + LINK_SIZE, reserveSize, chain, 0);
    EntryBytes(s, o, rest);
    var head := ContinousSpaceRead(dev, WORD, addr, chain, o);
    visits := [];
    while head != ZERO_WORD
      invariant LogAt(s, o, rest) && o < Capacity(chain) && addr == Locate(chain, o)
      invariant o + WORD <= |s| && head == s[o..o + WORD]
      invariant OpsFit(ops, rest) && EndOf(o, rest) == EndOf(reserveSize, es)
      invariant visits + VisitsOf(ops, chain, o, rest) == VisitsOf(ops, chain, reserveSize, es)
      decreases |rest|
    {
      EntryBytes(s, o, rest);
      ReplayStep(ops, chain, o, rest, visits);
      ghost var e := rest[0];
      var size := FromLE(head[4..8]);
      var kind := head[0];
      var now := VisitEntry(dev, ops[kind], kind, size, addr, chain, o, e);
      visits := visits + now;
      EntrySizeIs(e);
      addr := CalculateNextAddr(dev, addr, AlignUp(size, 8) + WORD, chain, o);
      o, rest := o + EntrySize(e), rest[1..];
      EntryBytes(s, o, rest);
      head := ContinousSpaceRead(dev, WORD, addr, chain, o);
    }
    EntryBytes(s, o, rest);
    ReplayEnd(ops, chain, o);
    lastReadAddr := addr;
  }

  lemma ReplayEnd(ops: seq<Ops>, chain: seq<nat>, o: nat)
    ensures OpsFit(ops, []) && VisitsOf(ops, chain, o, []) == [] && EndOf(o, []) == o
  {
  }

  lemma AlignedUp(n: nat)
    ensures AlignUp(n, 8) % WORD == 0 && n <= AlignUp(n, 8) < n + WORD && AlignUp(AlignUp(n, 8), 8) == AlignUp(n, 8)
  {
  }

  lemma EntrySizeIs(e: Entry)
    ensures EntrySize(e) == AlignUp(|e.data|, 8) + WORD
  {
  }

  lemma EntrySizeAligned(e: Entry)
    requires Loggable(e)
    ensures EntrySize(e) % WORD == 0 && WORD <= EntrySize(e) < 0x2_0000_0000 - WORD
  {
  }

  lemma StartOfChain(chain: seq<nat>)
    requires chain != []
    ensures 0 < Capacity(chain) && Locate(chain, 0) == chain[0] + LINK_SIZE
  {
  }

  // ---------- the live log ----------

  /** After an append the write position is again in the last page, with room for a foot. */
  lemma RestAfterAppend(rest: nat, size: nat, k: nat)
    requires WORD <= rest <= BODY_SIZE && rest % WORD == 0
    requires 2 * WORD <= size < 0x2_0000_0000 && size % WORD == 0 && k == PagesNeeded(rest, size)
    ensures rest + k * BODY_SIZE < U64 && size <= rest + k * BODY_SIZE
    ensures WORD <= rest + k * BODY_SIZE - (size - WORD) <= BODY_SIZE
    ensures (rest + k * BODY_SIZE - (size - WORD)) % WORD == 0
  {
    var a, b := rest / WORD, size / WORD;
    assert rest == WORD * a && size == WORD * b;
    if rest < size {
      PagesForMissing(size - rest, k);
    }
    IsMultiple(rest + k * BODY_SIZE - (size - WORD), a + 511 * k - b + 1);
  }

  lemma PagesForMissing(missing: nat, k: nat)
    requires missing > 0 && k == AlignUp(missing, BODY_SIZE) / BODY_SIZE
    ensures missing <= k * BODY_SIZE < missing + BODY_SIZE
  {
    var q := (missing + (BODY_SIZE - 1)) / BODY_SIZE;
    assert q * BODY_SIZE / BODY_SIZE == q;
  }

  lemma LastPage(size: nat, chain: seq<nat>, w: nat)
    requires Chain(size, chain) && chain != [] && w < Capacity(chain) && Capacity(chain) - w <= BODY_SIZE
    ensures CurrentAreaOfAddr(Locate(chain, w)) == chain[|chain| - 1]
    ensures RestSizeOfCurrentArea(Locate(chain, w)) == Capacity(chain) - w
  {
    LocateFacts(size, chain, w);
    assert w / BODY_SIZE == |chain| - 1;
  }

  lemma EmptyLog(mem: seq<byte>, page: nat, o: nat)
    requires Chain(|mem|, [page]) && o + WORD <= BODY_SIZE
    ensures Linked(mem, [page]) && Capacity([page]) == BODY_SIZE && Locate([page], 0) == page + LINK_SIZE
    ensures FootAt(Splice(Stream(mem, [page]), o, ZERO_WORD), o)
  {
  }

  /** A formatted log is empty, and its account is right. */
  lemma FreshLog(m0: seq<byte>, m1: seq<byte>, page: nat, o: nat)
    requires Chain(|m0|, [page]) && o + 2 * WORD <= BODY_SIZE && o % WORD == 0 && Linked(m1, [page])
    requires Stream(m1, [page]) == Splice(Stream(m0, [page]), o, ZERO_WORD)
    ensures OnMedium(m1, [page], o, []) && EndOf(o, []) == o && o < Capacity([page])
    ensures Wrap64(BODY_SIZE - o) == Capacity([page]) - o && WORD <= Capacity([page]) - o <= BODY_SIZE
  {
    hide Stream, Splice, Linked, Chain, Locate;
    EmptyLog(m0, page, o);
  }

  lemma GrownRest(rest: nat, k: nat, size: nat, left: nat)
    requires rest < U64 && rest + k * BODY_SIZE < U64 && left == rest + k * BODY_SIZE - size
    ensures Wrap64((if k == 0 then rest else Wrap64(rest + k * BODY_SIZE)) - size) == left
  {
  }

  lemma GrownCapacity(chain: seq<nat>, pages: seq<nat>)
    ensures Capacity(chain + pages) == Capacity(chain) + |pages| * BODY_SIZE && Capacity(chain) % WORD == 0
  {
  }

  /** The bookkeeping of an append, once `pages` were linked. */
  lemma AppendGeometry(mem: seq<byte>, chain: seq<nat>, pages: seq<nat>, w: nat, e: Entry, rest: nat)
    requires chain != [] && Chain(|mem|, chain + pages) && Loggable(e)
    requires w % WORD == 0 && w < Capacity(chain) && rest == Capacity(chain) - w && WORD <= rest <= BODY_SIZE
    requires |pages| == PagesNeeded(rest, EntrySize(e) + WORD)
    ensures Room(mem, chain, pages, w, e)
    ensures var grown := if pages == [] then rest else Wrap64(rest + |pages| * BODY_SIZE);
            Wrap64(grown - EntrySize(e)) == Capacity(chain + pages) - (w + EntrySize(e))
    ensures WORD <= Capacity(chain + pages) - (w + EntrySize(e)) <= BODY_SIZE
    ensures (w + EntrySize(e)) % WORD == 0
  {
    hide EntrySize, PagesNeeded, Chain, Capacity, Wrap64;
    GrownCapacity(chain, pages);
    EntrySizeAligned(e);
    RestAfterAppend(rest, EntrySize(e) + WORD, |pages|);
    GrownRest(rest, |pages|, EntrySize(e), Capacity(chain + pages) - (w + EntrySize(e)));
  }

  lemma AfterEssure(m0: seq<byte>, chain: seq<nat>, pages: seq<nat>, start: nat, es: seq<Entry>, m: seq<byte>)
    requires OnMedium(m0, chain, start, es) && chain != [] && Chain(|m0|, chain + pages)
    requires Stored(m0, LinkStores(chain[|chain| - 1], pages), m)
    ensures Linked(m, chain + pages)
    ensures forall o :: 0 <= o < Capacity(chain) ==> Locate(chain + pages, o) == Locate(chain, o)
  {
    hide Locate, Stream, Apply;
    AfterLinks(m0, chain, pages, start, es);
    ChainPrefix(m0, chain, pages);
  }

  /** The stores of LogWrite once there is room: data, foot, head. */
  method StoreEntry(dev: Device, e: Entry, headAddr: nat, ghost chain: seq<nat>, ghost w: nat)
    returns (entryAddr: nat, footAddr: nat)
    requires dev.Valid() && Linked(dev.mem[..], chain) && w % WORD == 0
    requires w + EntrySize(e) + WORD <= Capacity(chain) && headAddr == Locate(chain, w)
    modifies dev, dev.mem
    ensures dev.Valid() && Linked(dev.mem[..], chain)
    ensures entryAddr == Locate(chain, w + WORD) && footAddr == Locate(chain, w + EntrySize(e))
    ensures dev.trace == old(dev.trace) + LogWriteBody(chain, w, e) + [Store(Locate(chain, w), Head(e))]
  {
    hide Locate, Stream, Linked, EntrySize, Head, Splice, Chain, StreamStores, Capacity, AlignUp, NextAddr, Apply, InBounds;
    EntrySizeIs(e);
    LinkedIsChain(dev.mem[..], chain);
    entryAddr := CalculateNextAddr(dev, headAddr, WORD, chain, w);
    footAddr := CalculateNextAddr(dev, entryAddr, AlignUp(|e.data|, 8), chain, w + WORD);
    ContinousSpaceWrite(dev, e.data, entryAddr, chain, w + WORD);
    ContinousSpaceWrite(dev, ZERO_WORD, footAddr, chain, w + EntrySize(e));
    HeadIsOneStore(dev.mem.Length, chain, w, Head(e));
    ContinousSpaceWrite(dev, Head(e), headAddr, chain, w);
    assert dev.trace == old(dev.trace) + StreamStores(chain, w + WORD, e.data) + StreamStores(chain, w + EntrySize(e), ZERO_WORD)
                      + StreamStores(chain, w, Head(e));
  }

  /** What an append of `size` bytes asks for: head, data up to a word, foot. */
  function AppendSize(size: nat): nat { WORD + WORD + AlignUp(size, 8) }

  /** The pages still to be linked before `size` bytes can be appended. */
  function PagesFor(rest: nat, size: nat): nat { PagesNeeded(rest, AppendSize(size)) }

  /** What is left of the last page once they are linked and the entry is there. */
  function RestAfter(rest: nat, size: nat): int { rest + PagesFor(rest, size) * BODY_SIZE - (AppendSize(size) - WORD) }

  lemma RestStays(rest: nat, size: nat)
    ensures RestAfter(rest, size) >= WORD
  {
    hide PagesNeeded;
    PagesLeast(rest, AppendSize(size), PagesFor(rest, size));
  }

  class Log {
    var reserveSize: nat
    var writeStart: nat
    const cs: ContinousSpace
    ghost var entries: seq<Entry>

    ghost function End(): nat
      reads this
    {
      EndOf(reserveSize, entries)
    }

    /** The write position is behind the entries, in the last page of the chain. */
    ghost predicate Geometry()
      reads this, cs
    {
      && reserveSize % WORD == 0 && End() % WORD == 0
      && End() < Capacity(cs.chain) && writeStart == Locate(cs.chain, End())
      && cs.restSize == Capacity(cs.chain) - End()
      && WORD <= cs.restSize <= BODY_SIZE
    }

    ghost predicate Valid(mem: seq<byte>, free: set<nat>)
      reads this, cs
    {
      && cs.Valid(mem, free)
      && OnMedium(mem, cs.chain, reserveSize, entries)
      && Geometry()
    }

    constructor ()
      ensures fresh(cs)
    {
      cs := new ContinousSpace();
      reserveSize, writeStart, entries := 0, 0, [];
    }

    method LogFormat(dev: Device, pool: PageSource, reserve: nat) returns (err: bool)
      requires dev.Valid() && dev.mem.Length <= ADDRESS_LIMIT && Usable(dev.mem.Length, [], pool.free)
      requires reserve + 2 * WORD <= BODY_SIZE
      modifies this, cs, dev, dev.mem, pool
      ensures dev.Valid()
      ensures err <==> old(pool.free) == {}
      ensures err ==> unchanged(dev, dev.mem) && pool.free == old(pool.free)
      ensures !err ==> Valid(dev.mem[..], pool.free) && entries == [] && reserveSize == AlignUp(reserve, 8)
      ensures !err ==> cs.firstArea in old(pool.free) && pool.free == old(pool.free) - {cs.firstArea}
    {
      hide Locate, Stream, StreamStores, PageLink, AlignUp, Splice, Chain, Usable, FootAt, Linked, LogAt, EndOf, Capacity, Wrap64;
      err := cs.Format(pool, dev.mem.Length);
      if err {
        return;
      }
      AlignedUp(reserve);
      var aligned := AlignUp(reserve, 8);
      reserveSize := AlignUp(aligned, 8);
      ghost var m0 := dev.mem[..];
      EmptyLog(m0, cs.firstArea, aligned);
      writeStart := CalculateNextAddr(dev, cs.firstArea + LINK_SIZE, aligned, cs.chain, 0);
      cs.NotifyUsedSpace(aligned);
      ContinousSpaceWrite(dev, ZERO_WORD, writeStart, cs.chain, aligned);
      FreshLog(m0, dev.mem[..], cs.firstArea, aligned);
      entries := [];
    }

    /**
      Reading the medium back (LogRebuildBegin, LogRebuild and LogRebuildEnd).
      Valid fixes all five fields, so the result is the log that was written.
     */
    method LogRebuild(dev: Device, firstArea: nat, reserve: nat, ops: seq<Ops>, ghost chain: seq<nat>, ghost es: seq<Entry>,
                      ghost free: set<nat>)
      returns (visits: seq<Visit>)
      requires OnMedium(dev.mem[..], chain, AlignUp(reserve, 8), es) && OpsFit(ops, es)
      requires chain != [] && firstArea == chain[0] && Usable(dev.mem.Length, chain, free)
      requires Capacity(chain) - EndOf(AlignUp(reserve, 8), es) <= BODY_SIZE
      modifies this, cs
      ensures Valid(dev.mem[..], free) && cs.chain == chain && entries == es && reserveSize == AlignUp(reserve, 8)
      ensures visits == VisitsOf(ops, chain, AlignUp(reserve, 8), es)
    {
      hide Locate, Stream, LogAt, PageLink, OpsFit, VisitsOf, EndOf;
      reserveSize := AlignUp(reserve, 8);
      AlignedUp(reserve);
      cs.firstArea := firstArea;
      entries := es;
      LogEndFits(dev.mem[..], chain, reserveSize, es);
      LogAtEnd(Stream(dev.mem[..], chain), reserveSize, es);
      visits, writeStart := LogForEachEntry(dev, firstArea, reserveSize, ops, chain, es);
      LastPage(dev.mem.Length, chain, EndOf(reserveSize, es));
      cs.RebuildEnd(dev, writeStart, chain, |chain| - 1);
      assert chain[..|chain|] == chain;
    }

    /** What LogWrite and LogStepWriteBegin do first: make room and account for it. */
    method PrepareAppend(dev: Device, pool: PageSource, size: nat, ghost e: Entry) returns (err: bool, ghost pages: seq<nat>)
      requires dev.Valid() && Valid(dev.mem[..], pool.free) && Loggable(e) && |e.data| == size
      modifies cs, dev, dev.mem, pool
      ensures dev.Valid() && (err <==> |old(pool.free)| < PagesFor(old(cs.restSize), size))
      ensures err ==> unchanged(dev, dev.mem) && pool.free == old(pool.free) && cs.chain == old(cs.chain)
      ensures err ==> cs.restSize == Wrap64(old(cs.restSize) - EntrySize(e))
      ensures !err ==> cs.Valid(dev.mem[..], pool.free) && cs.chain == old(cs.chain) + pages
      ensures !err ==> Elements(pages) <= old(pool.free) && pool.free == old(pool.free) - Elements(pages)
      ensures !err ==> |pages| == PagesFor(old(cs.restSize), size) && |pool.free| == |old(pool.free)| - |pages|
      ensures !err ==> cs.restSize == RestAfter(old(cs.restSize), size)
      ensures !err ==> Room(old(dev.mem[..]), old(cs.chain), pages, End(), e)
      ensures !err ==> End() + EntrySize(e) + WORD <= Capacity(cs.chain) && writeStart == Locate(cs.chain, End())
      ensures !err ==> cs.restSize == Capacity(cs.chain) - (End() + EntrySize(e)) && WORD <= cs.restSize <= BODY_SIZE
      ensures !err ==> (End() + EntrySize(e)) % WORD == 0
      ensures !err ==> dev.trace == old(dev.trace) + LinkStores(old(cs.chain)[|old(cs.chain)| - 1], pages)
    {
      hide Locate, Stream, LogAt, Linked, EntrySize, PagesNeeded, AlignUp, Apply, InBounds, Chain,
           LinkStores, Usable, Loggable, Room, EndOf, Capacity, Wrap64;
      ghost var w, m0, chain0, es := End(), dev.mem[..], cs.chain, entries;
      var alignedSize := AlignUp(size, 8);
      EntrySizeIs(e);
      LinkedIsChain(m0, chain0);
      LastPage(|m0|, chain0, w);
      err, pages := cs.EssureEnoughSpace(dev, writeStart, AppendSize(size), pool);
      cs.NotifyUsedSpace(WORD + alignedSize);
      if !err {
        LinkedIsChain(dev.mem[..], cs.chain);
        AppendGeometry(m0, chain0, pages, w, e, old(cs.restSize));
        GrownCapacity(chain0, pages);
        RoomFacts(m0, chain0, pages, w, e);
        AfterEssure(m0, chain0, pages, reserveSize, es, dev.mem[..]);
      }
    }

    /**
      LogWrite.  It fails, and then the account of the log is off for good, exactly
      when the page source has fewer pages than the entry still needs.
     */
    method LogWrite(dev: Device, kind: byte, data: seq<byte>, pool: PageSource)
      returns (err: bool, entryAddr: nat, ghost pages: seq<nat>)
      requires dev.Valid() && Valid(dev.mem[..], pool.free) && Loggable(Entry(kind, data))
      modifies this, cs, dev, dev.mem, pool
      ensures dev.Valid() && reserveSize == old(reserveSize)
      ensures err <==> |old(pool.free)| < PagesFor(old(cs.restSize), |data|)
      ensures Geometry() <==> PagesFor(old(cs.restSize), |data|) <= |old(pool.free)|
      ensures !err ==> |pages| == PagesFor(old(cs.restSize), |data|) && |pool.free| == |old(pool.free)| - |pages|
      ensures !err ==> cs.restSize == RestAfter(old(cs.restSize), |data|)
      ensures !err ==> Valid(dev.mem[..], pool.free) && entries == old(entries) + [Entry(kind, data)]
      ensures !err ==> cs.chain == old(cs.chain) + pages && Elements(pages) <= old(pool.free)
      ensures !err ==> pool.free == old(pool.free) - Elements(pages)
      ensures !err ==> old(End()) + EntrySize(Entry(kind, data)) + WORD <= Capacity(cs.chain)
      ensures !err ==> dev.trace == old(dev.trace) + AppendStores(old(cs.chain), pages, old(End()), Entry(kind, data),
                                                       LogWriteBody(cs.chain, old(End()), Entry(kind, data)))
      ensures !err ==> Some(entryAddr) == At(cs.chain, old(End()) + WORD)
      ensures err ==> unchanged(this, dev, dev.mem) && pool.free == old(pool.free) && cs.chain == old(cs.chain)
      ensures err ==> cs.restSize == Wrap64(old(cs.restSize) - EntrySize(Entry(kind, data))) && !Geometry()
    {
      hide Locate, Stream, LogAt, Linked, EntrySize, Head, Apply, InBounds, Chain,
           AppendStores, LogWriteBody, LinkStores, Usable, Loggable, Room, EndOf, Capacity, Wrap64;
      var e := Entry(kind, data);
      ghost var w, m0, t0, chain0, es := End(), dev.mem[..], dev.trace, cs.chain, entries;
      err, pages := PrepareAppend(dev, pool, |data|, e);
      if err {
        LostSpace(old(cs.restSize), e);
        return true, 0, [];
      }
      entryAddr, writeStart := StoreEntry(dev, e, writeStart, cs.chain, w);
      entries := entries + [e];
      AppendStoresIs(chain0, pages, w, e);
      Appended(dev.base, t0, m0, chain0, pages, reserveSize, es, e, dev.trace, dev.mem[..]);
    }

    /** The first half of a stepwise append: room, addresses and the foot. */
    method LogStepWriteBegin(dev: Device, kind: byte, totalSize: nat, pool: PageSource, ghost e: Entry)
      returns (err: bool, handle: StepHandle, ghost pages: seq<nat>)
      requires dev.Valid() && Valid(dev.mem[..], pool.free)
      requires e.kind == kind && |e.data| == totalSize && Loggable(e)
      modifies this`writeStart, cs, dev, dev.mem, pool
      ensures dev.Valid() && (err <==> |old(pool.free)| < PagesFor(old(cs.restSize), totalSize))
      ensures err ==> unchanged(this, dev, dev.mem) && pool.free == old(pool.free) && cs.chain == old(cs.chain)
      ensures err ==> cs.restSize == Wrap64(old(cs.restSize) - EntrySize(e))
      ensures !err ==> cs.Valid(dev.mem[..], pool.free) && cs.chain == old(cs.chain) + pages
      ensures !err ==> Elements(pages) <= old(pool.free) && pool.free == old(pool.free) - Elements(pages)
      ensures !err ==> Room(old(dev.mem[..]), old(cs.chain), pages, End(), e)
      ensures !err ==> handle.Placed(cs.chain, End(), End() + WORD, e) && writeStart == handle.footAddr
      ensures !err ==> End() + EntrySize(e) + WORD <= Capacity(cs.chain) && (End() + EntrySize(e)) % WORD == 0
      ensures !err ==> cs.restSize == Capacity(cs.chain) - (End() + EntrySize(e)) && WORD <= cs.restSize <= BODY_SIZE
      ensures !err ==> dev.trace == old(dev.trace) + LinkStores(old(cs.chain)[|old(cs.chain)| - 1], pages)
                                  + StreamStores(cs.chain, End() + EntrySize(e), ZERO_WORD)
    {
      hide Locate, Stream, LogAt, Linked, EntrySize, Head, Apply, InBounds, Chain,
           LinkStores, StreamStores, Usable, Loggable, Room, EndOf, Capacity, Wrap64;
      handle := StepHandle(0, 0, 0, HeadOf(kind, totalSize));
      err, pages := PrepareAppend(dev, pool, totalSize, e);
      if !err {
        handle := StoreFoot(dev, writeStart, kind, totalSize, cs.chain, End(), e);
        writeStart := handle.footAddr;
      }
    }
  }

  /** The addresses of a stepwise append, and its foot. */
  method StoreFoot(dev: Device, headAddr: nat, kind: byte, size: nat, ghost chain: seq<nat>, ghost w: nat, ghost e: Entry)
    returns (handle: StepHandle)
    requires dev.Valid() && Linked(dev.mem[..], chain) && e.kind == kind && |e.data| == size
    requires w + EntrySize(e) + WORD <= Capacity(chain) && headAddr == Locate(chain, w)
    modifies dev, dev.mem
    ensures dev.Valid() && Linked(dev.mem[..], chain)
    ensures handle.Placed(chain, w, w + WORD, e)
    ensures dev.trace == old(dev.trace) + StreamStores(chain, w + EntrySize(e), ZERO_WORD)
  {
    hide Locate, Stream, Linked, EntrySize, Splice, Chain, StreamStores, Capacity, AlignUp, Head, HeadOf, NextAddr, Apply;
    EntrySizeIs(e);
    var entryAddr := CalculateNextAddr(dev, headAddr, WORD, chain, w);
    var footAddr := CalculateNextAddr(dev, entryAddr, AlignUp(size, 8), chain, w + WORD);
    ContinousSpaceWrite(dev, ZERO_WORD, footAddr, chain, w + EntrySize(e));
    HeadOfEntry(e);
    handle := StepHandle(headAddr, entryAddr, footAddr, HeadOf(kind, size));
  }

  datatype StepHandle = StepHandle(headAddr: nat, entryAddr: nat, footAddr: nat, head: seq<byte>) {
    /** The handle of entry `e` at `w`, whose next piece goes to stream position `next`. */
    ghost predicate Placed(chain: seq<nat>, w: nat, next: nat, e: Entry) {
      && At(chain, w) == Some(headAddr) && At(chain, next) == Some(entryAddr)
      && At(chain, w + EntrySize(e)) == Some(footAddr) && head == Head(e)
    }
  }

  function HeadOf(kind: byte, size: nat): (h: seq<byte>)
    ensures |h| == WORD
  {
    [kind, 0, 0, 0] + ToLE(size, 4)
  }

  lemma HeadOfEntry(e: Entry)
    ensures HeadOf(e.kind, |e.data|) == Head(e)
  {
  }

  method LogStepWriteContinue(dev: Device, handle: StepHandle, buffer: seq<byte>, ghost chain: seq<nat>, ghost o: nat)
    returns (after: StepHandle, entryStartAddr: nat)
    requires dev.Valid() && Linked(dev.mem[..], chain)
    requires o + |buffer| < Capacity(chain) && handle.entryAddr == Locate(chain, o)
    modifies dev, dev.mem
    ensures dev.Valid() && Linked(dev.mem[..], chain)
    ensures dev.trace == old(dev.trace) + StreamStores(chain, o, buffer)
    ensures entryStartAddr == handle.entryAddr
    ensures after == handle.(entryAddr := Locate(chain, o + |buffer|))
  {
    hide Locate, Stream, Linked, StreamStores, Capacity;
    entryStartAddr := handle.entryAddr;
    ContinousSpaceWrite(dev, buffer, handle.entryAddr, chain, o);
    var next := CalculateNextAddr(dev, handle.entryAddr, |buffer|, chain, o);
    after := handle.(entryAddr := next);
  }

  method LogStepWriteEnd(dev: Device, handle: StepHandle, ghost chain: seq<nat>, ghost w: nat)
    requires dev.Valid() && Linked(dev.mem[..], chain) && |handle.head| == WORD
    requires w % WORD == 0 && w + WORD <= Capacity(chain) && handle.headAddr == Locate(chain, w)
    modifies dev, dev.mem
    ensures dev.Valid() && Linked(dev.mem[..], chain)
    ensures dev.trace == old(dev.trace) + [Store(Locate(chain, w), handle.head)]
  {
    hide Locate, Stream, PageLink;
    HeadIsOneStore(dev.mem.Length, chain, w, handle.head);
    ContinousSpaceWrite(dev, handle.head, handle.headAddr, chain, w);
  }

  /** A failed append has already been charged: the account is off, whatever the sizes. */
  lemma LostSpace(rest: nat, e: Entry)
    requires rest < U64 && Loggable(e)
    ensures Wrap64(rest - EntrySize(e)) != rest
  {
    hide EntrySize;
  }

  lemma RoomFacts(mem: seq<byte>, chain: seq<nat>, pages: seq<nat>, w: nat, e: Entry)
    requires Room(mem, chain, pages, w, e)
    ensures w < Capacity(chain) && w + EntrySize(e) + WORD <= Capacity(chain + pages) && w < Capacity(chain + pages)
  {
    hide EntrySize, Chain;
  }

  lemma AppendStoresIs(chain: seq<nat>, pages: seq<nat>, w: nat, e: Entry)
    requires chain != [] && w + EntrySize(e) + WORD <= Capacity(chain + pages)
    ensures AppendStores(chain, pages, w, e, LogWriteBody(chain + pages, w, e))
         == LinkStores(chain[|chain| - 1], pages) + LogWriteBody(chain + pages, w, e) + [Store(Locate(chain + pages, w), Head(e))]
  {
  }

  /** The memory behind a trace that ends with the stores of LogWrite. */
  lemma Appended(base: seq<byte>, t0: seq<Store>, m0: seq<byte>, chain: seq<nat>, pages: seq<nat>, start: nat,
                 es: seq<Entry>, e: Entry, t: seq<Store>, m: seq<byte>)
    requires Stored(base, t0, m0) && Stored(base, t, m)
    requires OnMedium(m0, chain, start, es) && Room(m0, chain, pages, EndOf(start, es), e) && Loggable(e)
    requires t == t0 + AppendStores(chain, pages, EndOf(start, es), e, LogWriteBody(chain + pages, EndOf(start, es), e))
    ensures OnMedium(m, chain + pages, start, es + [e])
    ensures EndOf(start, es + [e]) == EndOf(start, es) + EntrySize(e)
  {
    hide Locate, Stream, LogAt, Apply, InBounds, Within, LogWriteBody, EntrySize;
    var w := EndOf(start, es);
    var stores := AppendStores(chain, pages, w, e, LogWriteBody(chain + pages, w, e));
    LogWriteAtomic(m0, chain, pages, start, es, e, |stores|);
    assert stores[..|stores|] == stores;
    ApplyConcat(base, t0, stores);
    EndOfAppend(start, es, e);
  }

  /** The same for a stepwise append. */
  lemma AppendedByStep(base: seq<byte>, t0: seq<Store>, m0: seq<byte>, chain: seq<nat>, pages: seq<nat>, start: nat,
                       es: seq<Entry>, e: Entry, pieces: seq<seq<byte>>, t: seq<Store>, m: seq<byte>)
    requires Stored(base, t0, m0) && Stored(base, t, m) && Flatten(pieces) == e.data
    requires OnMedium(m0, chain, start, es) && Room(m0, chain, pages, EndOf(start, es), e) && Loggable(e)
    requires t == t0 + AppendStores(chain, pages, EndOf(start, es), e,
                                    StepWriteBody(chain + pages, EndOf(start, es), e, pieces))
    ensures OnMedium(m, chain + pages, start, es + [e])
    ensures EndOf(start, es + [e]) == EndOf(start, es) + EntrySize(e)
  {
    hide Locate, Stream, LogAt, Apply, InBounds, Within, StepWriteBody, EntrySize;
    var w := EndOf(start, es);
    var stores := AppendStores(chain, pages, w, e, StepWriteBody(chain + pages, w, e, pieces));
    StepWriteAtomic(m0, chain, pages, start, es, e, pieces, |stores|);
    assert stores[..|stores|] == stores;
    ApplyConcat(base, t0, stores);
    EndOfAppend(start, es, e);
  }

  lemma {:induction false} EndOfAppend(o: nat, es: seq<Entry>, e: Entry)
    ensures EndOf(o, es + [e]) == EndOf(o, es) + EntrySize(e)
    decreases |es|
  {
    hide EntrySize;
    if es == [] {
      assert es + [e] == [e] && [e][1..] == [];
    } else {
      assert (es + [e])[1..] == es[1..] + [e];
      EndOfAppend(o + EntrySize(es[0]), es[1..], e);
    }
  }

  /** What the write position looks like after any run of successful appends. */
  lemma LogGeometry(log: Log, mem: seq<byte>, free: set<nat>)
    requires log.Valid(mem, free)
    ensures log.writeStart % WORD == 0
    ensures CurrentAreaOfAddr(log.writeStart) == log.cs.chain[|log.cs.chain| - 1]
    ensures log.cs.restSize == PAGE_SIZE - log.writeStart % PAGE_SIZE
    ensures WORD <= log.cs.restSize <= BODY_SIZE && log.cs.restSize % WORD == 0
    ensures log.cs.areaNum == |log.cs.chain|
  {
    hide Locate, EndOf, LogAt, Stream;
    LastPage(|mem|, log.cs.chain, log.End());
    LocateAligned(|mem|, log.cs.chain, log.End());
  }

  /** Two logs that describe the same bytes agree in every field LogIsSame compares. */
  lemma SameLog(a: Log, b: Log, mem: seq<byte>, freeA: set<nat>, freeB: set<nat>)
    requires a.Valid(mem, freeA) && b.Valid(mem, freeB)
    requires a.cs.chain == b.cs.chain && a.reserveSize == b.reserveSize
    ensures a.entries == b.entries && a.writeStart == b.writeStart
    ensures a.cs.firstArea == b.cs.firstArea && a.cs.restSize == b.cs.restSize && a.cs.areaNum == b.cs.areaNum
  {
    hide Locate, EndOf, LogAt, Stream;
    LogAtUnique(Stream(mem, a.cs.chain), a.reserveSize, a.entries, b.entries);
  }
}
