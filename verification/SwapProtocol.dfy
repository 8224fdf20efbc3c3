/**
  The block swap protocol: what is on the medium after which step commit, and
  which stores a swap or its recovery may make in between.
 */
module SwapProtocol {
  import opened Nvm
  import opened SwapMedium

  /**
    A swap of two blocks, with the bytes and unmap entries they had when it began.
    `slot` is the block of the swap table; the quick form, for a new block that is
    not in use, does without one and logs a zero.
   */
  datatype Txn = Txn(index: nat, quick: bool, oldBlock: nat, newBlock: nat, slot: nat,
                     oldData: seq<byte>, newData: seq<byte>, oldInfo: BlockInfo, newInfo: BlockInfo)

  /** The part of the medium a swap has to itself. */
  datatype View = View(oldBytes: seq<byte>, newBytes: seq<byte>, slotBytes: seq<byte>,
                       oldUnmap: BlockInfo, newUnmap: BlockInfo, entry: Info)

  predicate Fits(s: Medium, t: Txn) {
    && t.index < |s.log| && t.oldBlock < |s.blocks| && t.newBlock < |s.blocks| && t.oldBlock != t.newBlock
    && |s.unmap| == |s.blocks|
    && (if t.quick then t.slot == 0 && !t.newInfo.busy else t.slot < |s.swap|)
  }

  function See(s: Medium, t: Txn): View
    requires Fits(s, t)
  {
    View(s.blocks[t.oldBlock], s.blocks[t.newBlock], if t.quick then [] else s.swap[t.slot],
         s.unmap[t.oldBlock], s.unmap[t.newBlock], s.log[t.index])
  }

  function StepFlags(quick: bool, step: nat): Flags {
    Flags(true, quick, true, step >= 2, step >= 3, step >= 4)
  }

  function LastPhase(t: Txn): nat { if t.quick then 2 else 4 }

  /** StepOfBlockSwapTransactionInfo. */
  function StepOf(f: Flags): nat {
    if f.step4 then 4 else if f.step3 then 3 else if f.step2 then 2 else 1
  }

  /** An entry recovery does not act on. */
  predicate Idle(e: Info) {
    !e.flags.valid || (if e.flags.quick then StepOf(e.flags) != 1 else StepOf(e.flags) == 4)
  }

  predicate Logged(e: Info, t: Txn) {
    && e.oldBlock == t.oldBlock && e.newBlock == t.newBlock && e.swapBlock == t.slot
    && e.oldInfo == t.oldInfo && e.newInfo == t.newInfo
  }

  predicate UnmapBetween(v: View, t: Txn) {
    && (v.oldUnmap == t.oldInfo || v.oldUnmap == t.newInfo)
    && (v.newUnmap == t.newInfo || v.newUnmap == t.oldInfo)
  }

  /** What holds between two step commits, whatever copy was cut where. */
  predicate Phase(v: View, t: Txn, ph: nat) {
    if ph == 0 then
      && Idle(v.entry) && v.oldBytes == t.oldData && v.newBytes == t.newData
      && v.oldUnmap == t.oldInfo && v.newUnmap == t.newInfo
    else
      && Logged(v.entry, t) && v.entry.flags == StepFlags(t.quick, ph) && ph <= LastPhase(t)
      && if t.quick then
           if ph == 1 then v.oldBytes == t.oldData && UnmapBetween(v, t)
           else v.oldBytes == t.oldData && v.newBytes == t.oldData && v.oldUnmap == t.newInfo && v.newUnmap == t.oldInfo
         else
           match ph
           case 1 => v.oldBytes == t.oldData && v.newBytes == t.newData && v.oldUnmap == t.oldInfo && v.newUnmap == t.newInfo
           case 2 => v.slotBytes == t.oldData && v.newBytes == t.newData && v.oldUnmap == t.oldInfo && v.newUnmap == t.newInfo
           case 3 => v.slotBytes == t.oldData && v.oldBytes == t.newData && UnmapBetween(v, t)
           case _ => v.newBytes == t.oldData && v.oldBytes == t.newData && v.oldUnmap == t.newInfo && v.newUnmap == t.oldInfo
  }

  /** When the next step may be committed. */
  predicate Ready(v: View, t: Txn, ph: nat) {
    if ph == 0 then Logged(v.entry, t)
    else if t.quick then ph == 1 && v.newBytes == t.oldData && v.oldUnmap == t.newInfo && v.newUnmap == t.oldInfo
    else
      match ph
      case 1 => v.slotBytes == t.oldData
      case 2 => v.oldBytes == t.newData
      case 3 => v.newBytes == t.oldData && v.oldUnmap == t.newInfo && v.newUnmap == t.oldInfo
      case _ => false
  }

  predicate Allowed(v: View, t: Txn, ph: nat, st: Put) {
    match st
    case PutByte(Data(b), _, _) =>
      if t.quick then ph == 1 && b == t.newBlock else (ph == 2 && b == t.oldBlock) || (ph == 3 && b == t.newBlock)
    case PutByte(Swap(k), _, _) => !t.quick && ph == 1 && k == t.slot
    case PutUnmap(b, info) =>
      && ph == (if t.quick then 1 else 3)
      && ((b == t.oldBlock && info == t.newInfo) || (b == t.newBlock && info == t.oldInfo))
    case PutFlags(i, f) => i == t.index && f == StepFlags(t.quick, ph + 1) && Ready(v, t, ph)
    case PutBlocks(i, _, _) => i == t.index && ph == 0
    case PutSwapBlock(i, _) => i == t.index && ph == 0
    case PutInfos(i, _, _) => i == t.index && ph == 0
  }

  function NextPhase(ph: nat, st: Put): nat { if st.PutFlags? then ph + 1 else ph }

  lemma AllowedKeepsPhase(s: Medium, t: Txn, ph: nat, st: Put)
    requires Fits(s, t) && Phase(See(s, t), t, ph) && Allowed(See(s, t), t, ph, st)
    ensures Fits(ApplyPut(s, st), t) && Phase(See(ApplyPut(s, st), t), t, NextPhase(ph, st))
  {
  }

  // ---------- several swaps at once ----------

  predicate Apart(t: Txn, u: Txn) {
    && t.index != u.index && t.oldBlock != u.oldBlock && t.oldBlock != u.newBlock
    && t.newBlock != u.oldBlock && t.newBlock != u.newBlock
    && (t.quick || u.quick || t.slot != u.slot)
  }

  /** A store outside everything the swap has to itself. */
  predicate Avoids(st: Put, t: Txn) {
    match st
    case PutByte(Data(b), _, _) => b != t.oldBlock && b != t.newBlock
    case PutByte(Swap(k), _, _) => t.quick || k != t.slot
    case PutUnmap(b, _) => b != t.oldBlock && b != t.newBlock
    case PutFlags(i, _) => i != t.index
    case PutBlocks(i, _, _) => i != t.index
    case PutSwapBlock(i, _) => i != t.index
    case PutInfos(i, _, _) => i != t.index
  }

  lemma AvoidsKeepsView(s: Medium, t: Txn, st: Put)
    requires Fits(s, t) && Avoids(st, t)
    ensures Fits(ApplyPut(s, st), t) && See(ApplyPut(s, st), t) == See(s, t)
  {
  }

  lemma AllowedAvoids(v: View, t: Txn, ph: nat, st: Put, u: Txn)
    requires Allowed(v, t, ph, st) && Apart(t, u)
    ensures Avoids(st, u)
  {
  }

  datatype Flight = Flight(txn: Txn, phase: nat)

  /** Swaps under way, each in its phase, none in the way of another; every other entry is at rest. */
  ghost predicate Inv(s: Medium, fs: seq<Flight>) {
    && Whole(s)
    && (forall i :: 0 <= i < |fs| ==> Fits(s, fs[i].txn) && Phase(See(s, fs[i].txn), fs[i].txn, fs[i].phase))
    && (forall i, j :: 0 <= i < |fs| && 0 <= j < |fs| && i != j ==> Apart(fs[i].txn, fs[j].txn))
    && (forall k :: 0 <= k < |s.log| && !Idle(s.log[k]) ==> exists i :: 0 <= i < |fs| && fs[i].txn.index == k)
  }

  datatype Event =
    | Begin(txn: Txn)                // BlockSwapPrepare and BlockSwapTransactionInit
    | SwapStore(i: nat, st: Put)     // a store of swap i, or of its recovery
    | OtherStore(st: Put)            // a store of anybody else
    | Finish(i: nat)                 // BlockSwapEnd

  ghost predicate Possible(s: Medium, fs: seq<Flight>, e: Event) {
    match e
    case Begin(t) =>
      && Fits(s, t) && Phase(See(s, t), t, 0)
      && forall i :: 0 <= i < |fs| ==> Apart(t, fs[i].txn) && Apart(fs[i].txn, t)
    case SwapStore(i, st) => i < |fs| && Fits(s, fs[i].txn) && Allowed(See(s, fs[i].txn), fs[i].txn, fs[i].phase, st)
    case OtherStore(st) =>
      && (st.PutByte? || st.PutUnmap?) && forall i :: 0 <= i < |fs| ==> Avoids(st, fs[i].txn)
    case Finish(i) => i < |fs| && fs[i].phase == LastPhase(fs[i].txn)
  }

  function MediumAfter(s: Medium, e: Event): Medium {
    match e
    case Begin(_) => s
    case SwapStore(_, st) => ApplyPut(s, st)
    case OtherStore(st) => ApplyPut(s, st)
    case Finish(_) => s
  }

  function FlightsAfter(fs: seq<Flight>, e: Event): seq<Flight> {
    match e
    case Begin(t) => fs + [Flight(t, 0)]
    case SwapStore(i, st) => if i < |fs| then fs[i := Flight(fs[i].txn, NextPhase(fs[i].phase, st))] else fs
    case OtherStore(_) => fs
    case Finish(i) => if i < |fs| then fs[..i] + fs[i + 1..] else fs
  }

  lemma BeginKeepsInv(s: Medium, fs: seq<Flight>, t: Txn)
    requires Inv(s, fs) && Possible(s, fs, Begin(t))
    ensures Inv(s, fs + [Flight(t, 0)])
  {
    hide Phase, Apart, Fits, Idle, Whole;
    var gs := fs + [Flight(t, 0)];
    forall k | 0 <= k < |s.log| && !Idle(s.log[k]) ensures exists i :: 0 <= i < |gs| && gs[i].txn.index == k {
      var i :| 0 <= i < |fs| && fs[i].txn.index == k;
      assert gs[i] == fs[i];
    }
  }

  lemma SwapStoreKeepsInv(s: Medium, fs: seq<Flight>, i: nat, st: Put)
    requires Inv(s, fs) && Possible(s, fs, SwapStore(i, st))
    ensures Inv(ApplyPut(s, st), FlightsAfter(fs, SwapStore(i, st)))
  {
    hide Phase, Apart, Idle, Whole, ApplyPut, Avoids, Allowed, See, Fits, NextPhase;
    var r, t := ApplyPut(s, st), fs[i].txn;
    var gs := FlightsAfter(fs, SwapStore(i, st));
    ApplyPutShape(s, st);
    AllowedKeepsPhase(s, t, fs[i].phase, st);
    forall j | 0 <= j < |fs| && j != i ensures Fits(r, fs[j].txn) && See(r, fs[j].txn) == See(s, fs[j].txn) {
      AllowedAvoids(See(s, t), t, fs[i].phase, st, fs[j].txn);
      AvoidsKeepsView(s, fs[j].txn, st);
    }
    forall k | 0 <= k < |r.log| && !Idle(r.log[k]) ensures exists j :: 0 <= j < |gs| && gs[j].txn.index == k {
      if k == t.index {
        assert gs[i].txn.index == k;
      } else {
        OtherEntries(s, See(s, t), t, fs[i].phase, st, k);
        var j :| 0 <= j < |fs| && fs[j].txn.index == k;
        assert gs[j].txn.index == k;
      }
    }
  }

  lemma OtherEntries(s: Medium, v: View, t: Txn, ph: nat, st: Put, k: nat)
    requires Allowed(v, t, ph, st) && k < |s.log| && k != t.index
    ensures |ApplyPut(s, st).log| == |s.log| && ApplyPut(s, st).log[k] == s.log[k]
  {
  }

  lemma OtherStoreKeepsInv(s: Medium, fs: seq<Flight>, st: Put)
    requires Inv(s, fs) && Possible(s, fs, OtherStore(st))
    ensures Inv(ApplyPut(s, st), fs)
  {
    hide Phase, Apart, Idle, Whole, ApplyPut, Avoids, See, Fits;
    var r := ApplyPut(s, st);
    ApplyPutShape(s, st);
    assert r.log == s.log by { LogKept(s, st); }
    forall j | 0 <= j < |fs| ensures Fits(r, fs[j].txn) && See(r, fs[j].txn) == See(s, fs[j].txn) {
      AvoidsKeepsView(s, fs[j].txn, st);
    }
  }

  lemma LogKept(s: Medium, st: Put)
    requires st.PutByte? || st.PutUnmap?
    ensures ApplyPut(s, st).log == s.log
  {
  }

  lemma LastIsIdle(v: View, t: Txn)
    requires Phase(v, t, LastPhase(t))
    ensures Idle(v.entry)
  {
  }

  lemma FinishKeepsInv(s: Medium, fs: seq<Flight>, i: nat)
    requires Inv(s, fs) && Possible(s, fs, Finish(i))
    ensures Inv(s, fs[..i] + fs[i + 1..])
  {
    hide Phase, Apart, Idle, Whole, Fits;
    var gs := fs[..i] + fs[i + 1..];
    LastIsIdle(See(s, fs[i].txn), fs[i].txn);
    IndexOfView(s, fs[i].txn);
    forall j | 0 <= j < |gs| ensures gs[j] == fs[if j < i then j else j + 1] {}
    forall k | 0 <= k < |s.log| && !Idle(s.log[k]) ensures exists j :: 0 <= j < |gs| && gs[j].txn.index == k {
      var j :| 0 <= j < |fs| && fs[j].txn.index == k;
      assert j != i;
      assert gs[if j < i then j else j - 1] == fs[j];
    }
  }

  lemma IndexOfView(s: Medium, t: Txn)
    requires Fits(s, t)
    ensures See(s, t).entry == s.log[t.index]
  {
  }

  /** No event of any swap, recovery or bystander leaves the protocol. */
  lemma EventKeepsInv(s: Medium, fs: seq<Flight>, e: Event)
    requires Inv(s, fs) && Possible(s, fs, e)
    ensures Inv(MediumAfter(s, e), FlightsAfter(fs, e))
  {
    hide Inv, Possible;
    match e
    case Begin(t) => BeginKeepsInv(s, fs, t);
    case SwapStore(i, st) =>
      assert Inv(ApplyPut(s, st), FlightsAfter(fs, e)) by { SwapStoreKeepsInv(s, fs, i, st); }
    case OtherStore(st) => OtherStoreKeepsInv(s, fs, st);
    case Finish(i) =>
      assert i < |fs| by { FinishInRange(s, fs, i); }
      FinishKeepsInv(s, fs, i);
  }

  lemma FinishInRange(s: Medium, fs: seq<Flight>, i: nat)
    requires Possible(s, fs, Finish(i))
    ensures i < |fs|
  {
  }
}
