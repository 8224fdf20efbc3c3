/**
  Histories of a file on the bytes of the device: writes, truncates, losses of power
  inside them, and the mount that FileInodeInfo.Rebuild makes of the bytes each time.

  FileRuns has these histories for whole log operations.  Here an event is its
  stores (FileCrash.Lower), and what is known of the next state is read off the bytes.
 */
module FileDevice {
  import opened Wrappers
  import opened Nvm
  import opened ChainedSpace
  import opened ContinousSpace
  import opened LogLayout
  import opened Log
  import opened FileExtents
  import opened FileExtentTree
  import opened FileRead
  import opened FileState
  import opened FileRuns
  import opened FileInodeInfo
  import opened FileCrash
  import FileOutcomes
  import FileLogSpace

  // ---------- the log pages a list of effects takes ----------

  /** What the entries of the effects take up in the log. */
  function EffectBytes(es: seq<Effect>): nat {
    if es == [] then 0 else EffectSize(es[0]) + EffectBytes(es[1..])
  }

  function EffectSize(e: Effect): nat { if e.Data? then 0 else AppendSize(|Encode(e.op).data|) - WORD }

  /** Each append takes from the front of the pages what EssureEnoughSpace asks for. */
  function Shares(es: seq<Effect>, rest: nat, pages: seq<nat>): seq<seq<nat>>
    decreases |es|
  {
    if es == [] then []
    else match es[0]
      case Data(_) => Shares(es[1..], rest, pages)
      case Append(op) =>
        var n := |Encode(op).data|;
        var k := PagesFor(rest, n);
        RestStays(rest, n);
        if k <= |pages| then [pages[..k]] + Shares(es[1..], RestAfter(rest, n), pages[k..]) else []
  }

  ghost predicate EffectFine(e: Effect, size: nat, all: seq<nat>) {
    match e
    case Data(st) => st.addr + |st.data| <= size && SpaceApart(st.addr, |st.data|, all)
    case Append(op) => OpApart(op, all) && Fits64(op)
  }

  /** Data inside the device and off the log pages, operations that fit their entries. */
  ghost predicate EffectsFine(es: seq<Effect>, size: nat, all: seq<nat>) {
    forall i :: 0 <= i < |es| ==> EffectFine(es[i], size, all)
  }

  lemma {:induction false} EffectBytesConcat(a: seq<Effect>, b: seq<Effect>)
    ensures EffectBytes(a + b) == EffectBytes(a) + EffectBytes(b)
    decreases |a|
  {
    hide EffectSize;
    if a == [] {
      assert a + b == b;
    } else {
      assert (a + b)[0] == a[0] && (a + b)[1..] == a[1..] + b;
      EffectBytesConcat(a[1..], b);
    }
  }

  lemma {:induction false} DataBytes(es: seq<Effect>)
    requires forall i :: 0 <= i < |es| ==> es[i].Data?
    ensures EffectBytes(es) == 0
    decreases |es|
  {
    if es != [] {
      DataBytes(es[1..]);
    }
  }

  /** The rest of the last page is whole words, one at least. */
  ghost predicate Tight(chain: seq<nat>, w: nat) {
    w % WORD == 0 && w + WORD <= Capacity(chain) && Capacity(chain) - w <= BODY_SIZE
  }

  /** One append: its pages are there, and what is left is enough for the others. */
  lemma OneShare(chain: seq<nat>, w: nat, op: FileOp, later: nat, pages: seq<nat>)
    requires Tight(chain, w)
    requires PagesNeeded(Capacity(chain) - w, EffectSize(Append(op)) + later + WORD) <= |pages|
    ensures var e := Encode(op);
            var k := PagesFor(Capacity(chain) - w, |e.data|);
            && k <= |pages| && Tight(chain + pages[..k], w + EntrySize(e))
            && RestAfter(Capacity(chain) - w, |e.data|) == Capacity(chain + pages[..k]) - (w + EntrySize(e))
            && PagesNeeded(Capacity(chain + pages[..k]) - (w + EntrySize(e)), later + WORD) <= |pages| - k
  {
    hide PagesNeeded, Encode;
    var n, rest := |Encode(op).data|, Capacity(chain) - w;
    var size, k := AppendSize(n), PagesFor(rest, n);
    EncodeLoggable(op);
    PagesLeast(rest, size - WORD + later + WORD, |pages|);
    PagesLeast(rest, size, |pages|);
    WordsLeft(|chain|, w);
    EntryWords(Encode(op));
    RestAfterAppend(rest, size, k);
    var after := rest + k * BODY_SIZE - (size - WORD);
    assert Capacity(chain + pages[..k]) == Capacity(chain) + k * BODY_SIZE;
    assert (w + EntrySize(Encode(op))) % WORD == 0 by { WordsAdd(w, EntrySize(Encode(op))); }
    PagesLeast(after, later + WORD, |pages| - k);
    assert after + (|pages| - k) * BODY_SIZE == rest + |pages| * BODY_SIZE - (size - WORD);
  }

  lemma EntryWords(e: Entry)
    ensures AppendSize(|e.data|) == EntrySize(e) + WORD && AppendSize(|e.data|) % WORD == 0 && AppendSize(|e.data|) >= 2 * WORD
    ensures Loggable(e) ==> AppendSize(|e.data|) < 0x2_0000_0000
  {
    var n := EntrySize(e) / WORD;
    assert AppendSize(|e.data|) == WORD * (n + 1);
  }

  lemma WordsLeft(pages: nat, w: nat)
    requires w % WORD == 0 && w <= pages * BODY_SIZE
    ensures (pages * BODY_SIZE - w) % WORD == 0
  {
    IsMultiple(pages * BODY_SIZE - w, 511 * pages - w / WORD);
  }

  lemma ChainFront(size: nat, chain: seq<nat>, pages: seq<nat>, k: nat)
    requires Chain(size, chain + pages) && k <= |pages|
    ensures Chain(size, chain + pages[..k]) && chain + pages[..k] + pages[k..] == chain + pages
  {
    var front := chain + pages[..k];
    assert forall i :: 0 <= i < |front| ==> front[i] == (chain + pages)[i];
  }

  /** With pages enough for all entries, the effects can be stored. */
  lemma {:induction false} SharesLower(es: seq<Effect>, size: nat, chain: seq<nat>, start: nat, log: seq<FileOp>,
                                       pages: seq<nat>, all: seq<nat>)
    requires EffectsFine(es, size, all) && Tight(chain, EndOf(start, EncodeAll(log)))
    requires chain != [] && Chain(size, chain + pages) && forall p :: p in chain + pages ==> p in all
    requires PagesNeeded(Capacity(chain) - EndOf(start, EncodeAll(log)), EffectBytes(es) + WORD) <= |pages|
    ensures Lowerable(es, size, chain, start, log, Shares(es, Capacity(chain) - EndOf(start, EncodeAll(log)), pages), all)
    decreases |es|
  {
    hide PagesNeeded, Encode, EntrySize, EndOf, Chain, InPages, RestAfter, PagesFor, Capacity, EffectFine;
    if es != [] {
      assert EffectFine(es[0], size, all);
      FineTail(es, size, all);
      match es[0]
      case Data(st) =>
        ApartFrom(st, size, all);
        SharesLower(es[1..], size, chain, start, log, pages, all);
      case Append(op) => SharesAppend(es, size, chain, start, log, pages, all);
    }
  }

  lemma FineTail(es: seq<Effect>, size: nat, all: seq<nat>)
    requires EffectsFine(es, size, all) && es != []
    ensures EffectsFine(es[1..], size, all)
  {
    hide EffectFine;
    forall i | 0 <= i < |es[1..]| ensures EffectFine(es[1..][i], size, all) { assert es[1..][i] == es[i + 1]; }
  }

  lemma ApartFrom(st: Store, size: nat, all: seq<nat>)
    requires EffectFine(Data(st), size, all)
    ensures st.addr + |st.data| <= size && forall a :: st.addr <= a < st.addr + |st.data| ==> !InPages(all, a)
  {
  }

  lemma {:induction false} SharesAppend(es: seq<Effect>, size: nat, chain: seq<nat>, start: nat, log: seq<FileOp>,
                                        pages: seq<nat>, all: seq<nat>)
    requires es != [] && es[0].Append? && EffectsFine(es[1..], size, all) && Tight(chain, EndOf(start, EncodeAll(log)))
    requires chain != [] && Chain(size, chain + pages) && forall p :: p in chain + pages ==> p in all
    requires PagesNeeded(Capacity(chain) - EndOf(start, EncodeAll(log)), EffectBytes(es) + WORD) <= |pages|
    ensures Lowerable(es, size, chain, start, log, Shares(es, Capacity(chain) - EndOf(start, EncodeAll(log)), pages), all)
    decreases |es|, 0
  {
    hide PagesNeeded, Encode, EntrySize, EndOf, Chain, InPages, RestAfter, PagesFor, Capacity, EffectFine, EffectsFine;
    var op, w := es[0].op, EndOf(start, EncodeAll(log));
    var n, rest := |Encode(op).data|, Capacity(chain) - w;
    OneShare(chain, w, op, EffectBytes(es[1..]), pages);
    var k := PagesFor(rest, n);
    ChainFront(size, chain, pages, k);
    assert EncodeAll(log + [op]) == EncodeAll(log) + [Encode(op)];
    EndOfAppend(start, EncodeAll(log), Encode(op));
    SharesLower(es[1..], size, chain + pages[..k], start, log + [op], pages[k..], all);
    var shares := Shares(es, rest, pages);
    assert shares[0] == pages[..k] && shares[1..] == Shares(es[1..], RestAfter(rest, n), pages[k..]);
  }

  // ---------- what the steps of a write need ----------

  ghost predicate SpacesApart(spaces: seq<Space>, all: seq<nat>) {
    forall x :: x in spaces ==> SpaceApart(x.start, x.size, all)
  }

  ghost predicate StepsApart(steps: seq<Step>, all: seq<nat>) {
    forall i :: 0 <= i < |steps| && steps[i].GrowStep? ==> SpaceApart(steps[i].addr, steps[i].size, all)
  }

  lemma FineConcat(a: seq<Effect>, b: seq<Effect>, size: nat, all: seq<nat>)
    requires EffectsFine(a, size, all) && EffectsFine(b, size, all)
    ensures EffectsFine(a + b, size, all)
  {
    hide EffectFine;
  }

  /** One step: its bytes go to the free rest of a space, its operation fits the entry. */
  lemma StepFine(m: Manager, d: Disk, pos: nat, st: Step, all: seq<nat>)
    requires Good(m, |d.mem|, d.log) && StepOk(m, |d.mem|, st) && SpacesApart(m.spaces, all)
    requires st.GrowStep? ==> SpaceApart(st.addr, st.size, all)
    requires pos + StepSize(st) <= U64
    ensures EffectsFine(StepEffects(m, pos, st), |d.mem|, all)
    ensures EffectBytes(StepEffects(m, pos, st)) == AppendSize(FileLogSpace.OpSize(st)) - WORD
    ensures SpacesApart(StepManager(m, pos, st).spaces, all)
  {
    hide Good, InPages, EffectBytes, SpaceApart, AlignUp, InsertSpace, Override;
    var data, entry := DataEffects(StepStores(m, st)), [Append(StepOp(m, pos, st))];
    StepInSpace(m, d, st, all);
    DataBytes(data);
    EffectBytesConcat(data, entry);
    assert EffectBytes(entry) == EffectSize(entry[0]) by { LastBytes(entry[0]); }
    FileLogSpace.OpSizeIs(m, pos, st);
    assert EffectFine(entry[0], |d.mem|, all);
    if st.GrowStep? {
      forall x | x in InsertSpace(m.spaces, Space(st.addr, st.size)) ensures SpaceApart(x.start, x.size, all) {
        InsertSpaceHas(m.spaces, Space(st.addr, st.size), x);
      }
    }
  }

  lemma LastBytes(e: Effect)
    ensures EffectBytes([e]) == EffectSize(e)
  {
    hide EffectSize;
    assert [e][1..] == [];
  }

  lemma StepInSpace(m: Manager, d: Disk, st: Step, all: seq<nat>)
    requires Good(m, |d.mem|, d.log) && StepOk(m, |d.mem|, st) && SpacesApart(m.spaces, all)
    ensures EffectsFine(DataEffects(StepStores(m, st)), |d.mem|, all)
    ensures |d.mem| < INVALID && (st.FillStep? ==> m.curWriteStart + |st.data| <= |d.mem|)
  {
    hide ExtentsOk, LogOk, InPages;
    StoresFit(m, d, st);
    if st.FillStep? {
      var sp := Space(m.curArea, m.curSize);
      assert SpaceApart(sp.start, sp.size, all);
      var stores := StoresOf(m.curWriteStart, st.data);
      forall i | 0 <= i < |stores| ensures EffectFine(Data(stores[i]), |d.mem|, all) { }
    }
  }

  lemma {:induction false} RunFine(m: Manager, d: Disk, pos: nat, steps: seq<Step>, all: seq<nat>)
    requires Good(m, |d.mem|, d.log) && RunOk(m, |d.mem|, pos, steps) && SpacesApart(m.spaces, all) && StepsApart(steps, all)
    requires pos + |RunData(steps)| <= U64
    ensures EffectsFine(RunEffects(m, pos, steps), |d.mem|, all)
    ensures EffectBytes(RunEffects(m, pos, steps)) == FileLogSpace.LogBytes(steps)
    decreases |steps|
  {
    hide Good, StepOk, StepEffects, StepManager, View, InPages, SpaceApart, EffectBytes, EffectsFine, AlignUp;
    if steps == [] {
      NothingFine(|d.mem|, all);
    } else {
      var g, p, first := StepManager(m, pos, steps[0]), pos + StepSize(steps[0]), StepEffects(m, pos, steps[0]);
      StepFine(m, d, pos, steps[0], all);
      StepDone(m, d, pos, steps[0]);
      assert StepsApart(steps[1..], all) by { ApartTail(steps, all); }
      RunFine(g, ApplyEffects(d, first), p, steps[1..], all);
      FineConcat(first, RunEffects(g, p, steps[1..]), |d.mem|, all);
      EffectBytesConcat(first, RunEffects(g, p, steps[1..]));
    }
  }

  lemma NothingFine(size: nat, all: seq<nat>)
    ensures EffectsFine([], size, all) && EffectBytes([]) == 0
  {
  }

  lemma ApartTail(steps: seq<Step>, all: seq<nat>)
    requires StepsApart(steps, all) && steps != []
    ensures StepsApart(steps[1..], all)
  {
    hide SpaceApart;
    forall i | 0 <= i < |steps[1..]| && steps[1..][i].GrowStep? ensures SpaceApart(steps[1..][i].addr, steps[1..][i].size, all) {
      assert steps[1..][i] == steps[i + 1];
    }
  }

  /** The areas the steps add are among `areas`. */
  ghost predicate AddsFrom(steps: seq<Step>, areas: seq<Space>) {
    forall i :: 0 <= i < |steps| && steps[i].GrowStep? ==> Space(steps[i].addr, steps[i].size) in areas
  }

  lemma {:induction false} AreasAdded(areas: seq<Space>, buf: seq<byte>)
    ensures AddsFrom(WriteAreas(areas, buf), areas)
    decreases |areas|
  {
    if areas != [] {
      var n := Min(|buf|, areas[0].size);
      AreasAdded(areas[1..], buf[n..]);
      var later := WriteAreas(areas[1..], buf[n..]);
      var steps := WriteAreas(areas, buf);
      forall i | 0 <= i < |steps| && steps[i].GrowStep? ensures Space(steps[i].addr, steps[i].size) in areas {
        if i >= 2 { assert steps[i] == later[i - 2]; }
      }
    }
  }

  lemma WriteAdded(m: Manager, buf: seq<byte>, areas: seq<Space>)
    ensures AddsFrom(WriteSteps(m, buf, areas), areas)
  {
    hide WriteAreas;
    var rest := FileState.RestSizeOfCurrentArea(m);
    if |buf| > rest {
      if rest > 0 {
        AreasAdded(areas, buf[rest..]);
        var later := WriteAreas(areas, buf[rest..]);
        var steps := [FillStep(buf[..rest])] + later;
        forall i | 0 <= i < |steps| && steps[i].GrowStep? ensures Space(steps[i].addr, steps[i].size) in areas {
          assert steps[i] == later[i - 1];
        }
      } else {
        AreasAdded(areas, buf);
      }
    }
  }

  lemma AddedApart(steps: seq<Step>, areas: seq<Space>, all: seq<nat>)
    requires AddsFrom(steps, areas) && SpacesApart(areas, all)
    ensures StepsApart(steps, all)
  {
    hide SpaceApart;
  }

  // ---------- bytes a write does not touch ----------

  /** No data store goes to `a`. */
  ghost predicate Misses(es: seq<Effect>, a: nat) {
    forall i :: 0 <= i < |es| && es[i].Data? ==> !(es[i].store.addr <= a < es[i].store.addr + |es[i].store.data|)
  }

  lemma {:induction false} MissedKept(d: Disk, es: seq<Effect>, a: nat)
    requires Misses(es, a) && a < |d.mem|
    ensures |ApplyEffects(d, es).mem| == |d.mem| && ApplyEffects(d, es).mem[a] == d.mem[a]
    decreases |es|
  {
    if es != [] {
      MissedKept(d, es[..|es| - 1], a);
    }
  }

  lemma StepMisses(m: Manager, d: Disk, pos: nat, st: Step, a: nat)
    requires Good(m, |d.mem|, d.log) && StepOk(m, |d.mem|, st) && !InSpace(a, m.spaces)
    requires st.GrowStep? ==> !Space(st.addr, st.size).Holds(a)
    ensures Misses(StepEffects(m, pos, st), a) && !InSpace(a, StepManager(m, pos, st).spaces)
  {
    hide ExtentsOk, LogOk, InsertSpace, Override;
    FileOutcomes.AreaHolds(m, |d.mem|, a);
    if st.GrowStep? {
      InSpaceMore(m.spaces, Space(st.addr, st.size), a);
    }
  }

  lemma InSpaceMore(spaces: seq<Space>, x: Space, a: nat)
    ensures InSpace(a, InsertSpace(spaces, x)) ==> x.Holds(a) || InSpace(a, spaces)
  {
    hide InsertSpace;
    var s := InsertSpace(spaces, x);
    if InSpace(a, s) {
      var k :| 0 <= k < |s| && s[k].Holds(a);
      InsertSpaceHas(spaces, x, s[k]);
      if s[k] in spaces {
        var j :| 0 <= j < |spaces| && spaces[j] == s[k];
      }
    }
  }

  /** Bytes in no space of the file and in no area it gets are not stored to. */
  lemma {:induction false} RunMisses(m: Manager, d: Disk, pos: nat, steps: seq<Step>, areas: seq<Space>, a: nat)
    requires Good(m, |d.mem|, d.log) && RunOk(m, |d.mem|, pos, steps) && AddsFrom(steps, areas)
    requires !InSpace(a, m.spaces) && !InSpace(a, areas)
    ensures Misses(RunEffects(m, pos, steps), a)
    decreases |steps|
  {
    hide Good, StepOk, StepEffects, StepManager, View, InSpace, RunOk;
    if steps != [] {
      var g, p, first := StepManager(m, pos, steps[0]), pos + StepSize(steps[0]), StepEffects(m, pos, steps[0]);
      FileOutcomes.FirstOk(m, |d.mem|, pos, steps);
      AddedMisses(steps, areas, a);
      StepMisses(m, d, pos, steps[0], a);
      StepDone(m, d, pos, steps[0]);
      RunMisses(g, ApplyEffects(d, first), p, steps[1..], areas, a);
    }
  }

  lemma AddedMisses(steps: seq<Step>, areas: seq<Space>, a: nat)
    requires AddsFrom(steps, areas) && !InSpace(a, areas) && steps != []
    ensures steps[0].GrowStep? ==> !Space(steps[0].addr, steps[0].size).Holds(a)
    ensures AddsFrom(steps[1..], areas)
  {
    if steps[0].GrowStep? {
      var k :| 0 <= k < |areas| && areas[k] == Space(steps[0].addr, steps[0].size);
      assert !areas[k].Holds(a);
    }
    forall i | 0 <= i < |steps[1..]| && steps[1..][i].GrowStep? ensures Space(steps[1..][i].addr, steps[1..][i].size) in areas {
      assert steps[1..][i] == steps[i + 1];
    }
  }
}
