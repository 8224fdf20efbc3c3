/**
  Runs of many swaps: what the users of the blocks see along the way, and for
  which transactions of a mount recovery works.
 */
module SwapHistory {
  import opened Nvm
  import opened SwapMedium
  import opened SwapProtocol
  import opened SwapRecovery
  import opened SwapSafety

  // ---------- one event ----------

  lemma BeginInvisible(s: Medium, fs: seq<Flight>, t: Txn, b: nat)
    requires Inv(s, fs) && Possible(s, fs, Begin(t)) && b < |s.blocks| == |s.unmap|
    ensures Before(s, fs + [Flight(t, 0)], b) == Before(s, fs, b)
  {
    hide Inv, Phase, Apart, Before;
    BeforeAppend(s, fs, Flight(t, 0), b);
    if Uninvolved(fs, b) {
      BeforeOther(s, fs, b);
      BeginBytes(s, t);
      BeforeOne(s, Flight(t, 0), b);
    }
  }

  lemma BeforeOne(s: Medium, f: Flight, b: nat)
    requires b < |s.blocks| == |s.unmap|
    ensures Before(s, [f], b) == if b == f.txn.oldBlock then (f.txn.oldInfo, f.txn.oldData)
                                 else if b == f.txn.newBlock then (f.txn.newInfo, f.txn.newData)
                                 else (s.unmap[b], s.blocks[b])
  {
    assert [f][1..] == [];
  }

  /** One more swap behind the others counts only for blocks none of them is about. */
  lemma {:induction false} BeforeAppend(s: Medium, fs: seq<Flight>, f: Flight, b: nat)
    requires b < |s.blocks| == |s.unmap|
    ensures Before(s, fs + [f], b) == if Uninvolved(fs, b) then Before(s, [f], b) else Before(s, fs, b)
    decreases |fs|
  {
    if fs == [] {
      assert fs + [f] == [f];
    } else {
      assert (fs + [f])[1..] == fs[1..] + [f];
      BeforeAppend(s, fs[1..], f, b);
      assert fs == [fs[0]] + fs[1..];
      assert Uninvolved(fs, b) <==> b != fs[0].txn.oldBlock && b != fs[0].txn.newBlock && Uninvolved(fs[1..], b);
    }
  }

  lemma BeginBytes(s: Medium, t: Txn)
    requires Fits(s, t) && Phase(See(s, t), t, 0)
    ensures s.blocks[t.oldBlock] == t.oldData && s.blocks[t.newBlock] == t.newData
    ensures s.unmap[t.oldBlock] == t.oldInfo && s.unmap[t.newBlock] == t.newInfo
  {
  }

  lemma StoreInvisible(s: Medium, fs: seq<Flight>, i: nat, st: Put, b: nat)
    requires Inv(s, fs) && Possible(s, fs, SwapStore(i, st)) && b < |s.blocks| == |s.unmap|
    ensures b < |ApplyPut(s, st).blocks| == |ApplyPut(s, st).unmap|
    ensures Before(ApplyPut(s, st), FlightsAfter(fs, SwapStore(i, st)), b) == Before(s, fs, b)
  {
    hide Inv, Phase, Idle, Whole, ApplyPut, Possible;
    var r := ApplyPut(s, st);
    OthersKeptOnce(s, fs, i, st);
    SwapStoreKeepsInv(s, fs, i, st);
    var gs := FlightsAfter(fs, SwapStore(i, st));
    SameTxns(fs, i, st);
    var j := InvolvedBy(fs, b);
    if Uninvolved(fs, b) {
      BeforeOther(s, fs, b);
      BeforeOther(r, gs, b);
    } else {
      InvParts(s, fs);
      InvParts(r, gs);
      BeforeOwn(s, fs, j);
      BeforeOwn(r, gs, j);
    }
  }

  lemma SameTxns(fs: seq<Flight>, i: nat, st: Put)
    ensures var gs := FlightsAfter(fs, SwapStore(i, st));
            |gs| == |fs| && forall j :: 0 <= j < |fs| ==> gs[j].txn == fs[j].txn
    ensures forall b {:trigger Uninvolved(fs, b)} :: Uninvolved(fs, b) ==> Uninvolved(FlightsAfter(fs, SwapStore(i, st)), b)
  {
  }

  lemma InvParts(s: Medium, fs: seq<Flight>)
    requires Inv(s, fs)
    ensures forall i :: 0 <= i < |fs| ==> Fits(s, fs[i].txn)
    ensures forall a, b :: 0 <= a < |fs| && 0 <= b < |fs| && a != b ==> Apart(fs[a].txn, fs[b].txn)
  {
    hide Phase, Idle, Whole, Fits, Apart;
  }

  /** A store of somebody else changes what is seen at its block, and there as the store says. */
  lemma OtherStoreSeen(s: Medium, fs: seq<Flight>, st: Put, b: nat)
    requires Inv(s, fs) && Possible(s, fs, OtherStore(st)) && b < |s.blocks| == |s.unmap|
    ensures b < |ApplyPut(s, st).blocks| == |ApplyPut(s, st).unmap|
    ensures Before(ApplyPut(s, st), fs, b)
              == if Uninvolved(fs, b) then (ApplyPut(s, st).unmap[b], ApplyPut(s, st).blocks[b]) else Before(s, fs, b)
  {
    hide Phase, Idle;
    var r := ApplyPut(s, st);
    OtherStoreKeepsInv(s, fs, st);
    ApplyPutShape(s, st);
    var j := InvolvedBy(fs, b);
    if Uninvolved(fs, b) {
      BeforeOther(r, fs, b);
    } else {
      BeforeOwn(s, fs, j);
      BeforeOwn(r, fs, j);
    }
  }

  lemma FinishedOutcome(s: Medium, fs: seq<Flight>, i: nat)
    requires Inv(s, fs) && i < |fs| && fs[i].phase == LastPhase(fs[i].txn)
    ensures Fits(s, fs[i].txn) && Outcome(See(s, fs[i].txn), fs[i].txn, fs[i].phase) && fs[i].phase > 0
  {
    hide Apart, Idle, Whole;
  }

  /** Where a finished swap leaves what was at `b`; its own inverse. */
  function Swapped(t: Txn, b: nat): nat {
    if b == t.oldBlock then t.newBlock else if b == t.newBlock then t.oldBlock else b
  }

  lemma FinishElsewhere(s: Medium, fs: seq<Flight>, i: nat, b: nat)
    requires Inv(s, fs) && i < |fs| && b < |s.blocks| == |s.unmap|
    requires b != fs[i].txn.oldBlock && b != fs[i].txn.newBlock
    ensures Before(s, fs[..i] + fs[i + 1..], b) == Before(s, fs, b)
  {
    hide Phase, Idle, Whole;
    var gs := fs[..i] + fs[i + 1..];
    var j := InvolvedBy(fs, b);
    if Uninvolved(fs, b) {
      assert Uninvolved(gs, b) by { GapIndex(fs, i); }
      BeforeOther(s, fs, b);
      BeforeOther(s, gs, b);
    } else {
      var k := if j < i then j else j - 1;
      assert gs[k] == fs[j];
      GapApart(s, fs, i);
      BeforeOwn(s, fs, j);
      BeforeOwn(s, gs, k);
    }
  }

  lemma GapIndex(fs: seq<Flight>, i: nat)
    requires i < |fs|
    ensures var gs := fs[..i] + fs[i + 1..];
            forall j :: 0 <= j < |gs| ==> gs[j] == fs[if j < i then j else j + 1]
  {
  }

  lemma GapApart(s: Medium, fs: seq<Flight>, i: nat)
    requires Inv(s, fs) && i < |fs|
    ensures var gs := fs[..i] + fs[i + 1..];
            forall a, b :: 0 <= a < |gs| && 0 <= b < |gs| && a != b ==> Apart(gs[a].txn, gs[b].txn)
  {
    hide Phase, Idle, Whole, Apart, Fits;
    GapIndex(fs, i);
  }

  lemma GapUninvolved(s: Medium, fs: seq<Flight>, i: nat)
    requires Inv(s, fs) && i < |fs|
    ensures Uninvolved(fs[..i] + fs[i + 1..], fs[i].txn.oldBlock) && Uninvolved(fs[..i] + fs[i + 1..], fs[i].txn.newBlock)
  {
    hide Phase, Idle, Whole, Fits;
    GapIndex(fs, i);
    assert forall j :: 0 <= j < |fs| && j != i ==> Apart(fs[i].txn, fs[j].txn);
  }

  /** BlockSwapEnd: what was at `b` is now at Swapped(t, b), when it is in use. */
  lemma FinishMoves(s: Medium, fs: seq<Flight>, i: nat, b: nat, logical: nat, c: seq<byte>)
    requires Inv(s, fs) && Possible(s, fs, Finish(i))
    ensures HeldAt(s, fs, b, logical, c) <==> HeldAt(s, fs[..i] + fs[i + 1..], Swapped(fs[i].txn, b), logical, c)
  {
    hide Phase, Idle, Whole, Inv;
    var gs, t := fs[..i] + fs[i + 1..], fs[i].txn;
    FinishedOutcome(s, fs, i);
    if b < |s.blocks| == |s.unmap| {
      if b == t.oldBlock || b == t.newBlock {
        InvParts(s, fs);
        BeforeOwn(s, fs, i);
        GapUninvolved(s, fs, i);
        BeforeOther(s, gs, t.oldBlock);
        BeforeOther(s, gs, t.newBlock);
      } else {
        FinishElsewhere(s, fs, i, b);
      }
    }
  }

  /** Beginning, carrying on, recovering or ending a swap is not seen by the users of the blocks. */
  lemma SwapEventsInvisible(s: Medium, fs: seq<Flight>, e: Event, logical: nat, c: seq<byte>)
    requires Inv(s, fs) && Possible(s, fs, e) && !e.OtherStore?
    ensures Holds(MediumAfter(s, e), FlightsAfter(fs, e), logical, c) <==> Holds(s, fs, logical, c)
  {
    hide Inv, Possible, ApplyPut;
    var r, gs := MediumAfter(s, e), FlightsAfter(fs, e);
    match e
    case Begin(t) =>
      forall b: nat ensures HeldAt(r, gs, b, logical, c) <==> HeldAt(s, fs, b, logical, c) {
        if b < |s.blocks| == |s.unmap| { BeginInvisible(s, fs, t, b); }
      }
    case SwapStore(i, st) =>
      ShapeOfInv(s, fs, st);
      forall b: nat ensures HeldAt(r, gs, b, logical, c) <==> HeldAt(s, fs, b, logical, c) {
        if b < |s.blocks| == |s.unmap| { StoreInvisible(s, fs, i, st, b); }
      }
    case Finish(i) =>
      FinishInRange(s, fs, i);
      forall b: nat ensures HeldAt(s, fs, b, logical, c) <==> HeldAt(s, gs, Swapped(fs[i].txn, b), logical, c) {
        FinishMoves(s, fs, i, b, logical, c);
      }
      SwappedTwice(s, fs, gs, fs[i].txn, logical, c);
  }

  lemma ShapeOfInv(s: Medium, fs: seq<Flight>, st: Put)
    requires Inv(s, fs)
    ensures |ApplyPut(s, st).blocks| == |s.blocks| == |s.unmap| == |ApplyPut(s, st).unmap|
  {
    hide Phase, Idle, Apart, Fits;
  }

  lemma SwappedTwice(s: Medium, fs: seq<Flight>, gs: seq<Flight>, t: Txn, logical: nat, c: seq<byte>)
    requires forall b :: HeldAt(s, fs, b, logical, c) <==> HeldAt(s, gs, Swapped(t, b), logical, c)
    ensures Holds(s, gs, logical, c) <==> Holds(s, fs, logical, c)
  {
    hide HeldAt;
    if Holds(s, fs, logical, c) {
      var b :| HeldAt(s, fs, b, logical, c);
      assert HeldAt(s, gs, Swapped(t, b), logical, c);
    }
    if Holds(s, gs, logical, c) {
      var b :| HeldAt(s, gs, b, logical, c);
      assert Swapped(t, Swapped(t, b)) == b;
      assert HeldAt(s, fs, Swapped(t, b), logical, c);
    }
  }

  // ---------- runs ----------

  ghost predicate Run(s: Medium, fs: seq<Flight>, es: seq<Event>)
    decreases |es|
  {
    es == [] || (Possible(s, fs, es[0]) && Run(MediumAfter(s, es[0]), FlightsAfter(fs, es[0]), es[1..]))
  }

  function RunMedium(s: Medium, es: seq<Event>): Medium
    decreases |es|
  {
    if es == [] then s else RunMedium(MediumAfter(s, es[0]), es[1..])
  }

  function RunFlights(fs: seq<Flight>, es: seq<Event>): seq<Flight>
    decreases |es|
  {
    if es == [] then fs else RunFlights(FlightsAfter(fs, es[0]), es[1..])
  }

  lemma {:induction false} RunKeepsInv(s: Medium, fs: seq<Flight>, es: seq<Event>)
    requires Inv(s, fs) && Run(s, fs, es)
    ensures Inv(RunMedium(s, es), RunFlights(fs, es))
    decreases |es|
  {
    hide Inv, Possible, MediumAfter, FlightsAfter;
    if es != [] {
      EventKeepsInv(s, fs, es[0]);
      RunKeepsInv(MediumAfter(s, es[0]), FlightsAfter(fs, es[0]), es[1..]);
    }
  }

  predicate NoOther(es: seq<Event>) { forall i :: 0 <= i < |es| ==> !es[i].OtherStore? }

  lemma {:induction false} RunInvisible(s: Medium, fs: seq<Flight>, es: seq<Event>, logical: nat, c: seq<byte>)
    requires Inv(s, fs) && Run(s, fs, es) && NoOther(es)
    ensures Holds(RunMedium(s, es), RunFlights(fs, es), logical, c) <==> Holds(s, fs, logical, c)
    decreases |es|
  {
    hide Inv, Possible, MediumAfter, FlightsAfter, Holds;
    if es != [] {
      EventKeepsInv(s, fs, es[0]);
      SwapEventsInvisible(s, fs, es[0], logical, c);
      RunInvisible(MediumAfter(s, es[0]), FlightsAfter(fs, es[0]), es[1..], logical, c);
    }
  }

  /**
    Any history of swaps on a medium at rest, cut by a crash and by crashes of
    the mounts after it: the users find every busy block as it was at the start.
   */
  lemma SwapsLoseNothing(s: Medium, es: seq<Event>, cuts: seq<nat>, logical: nat, c: seq<byte>)
    requires Inv(s, []) && Run(s, [], es) && NoOther(es) && Scanned(RunFlights([], es))
    ensures Holds(Recovered(Interrupted(RunMedium(s, es), cuts)), [], logical, c) <==> Holds(s, [], logical, c)
  {
    hide Inv, Run, Holds, Recovered, Interrupted;
    RunKeepsInv(s, [], es);
    BusyBlocksSurvive(RunMedium(s, es), RunFlights([], es), cuts, logical, c);
    RunInvisible(s, [], es, logical, c);
  }

  // ---------- one whole transaction ----------

  /** BlockSwapTransactionCommitStep1: the fields, the flags behind them. */
  function CommitStep1(t: Txn): seq<Put> {
    [PutBlocks(t.index, t.oldBlock, t.newBlock), PutSwapBlock(t.index, t.slot), PutInfos(t.index, t.oldInfo, t.newInfo),
     PutFlags(t.index, StepFlags(t.quick, 1))]
  }

  /** A transaction: its first commit, then what recovery would do for it. */
  function TxnStores(s: Medium, t: Txn): seq<Put>
    requires t.index < |s.log|
  {
    var m := ApplyPuts(s, CommitStep1(t));
    LogLength(s, CommitStep1(t));
    CommitStep1(t) + EntryStores(m, t.index)
  }

  lemma {:induction false} LogLength(s: Medium, sts: seq<Put>)
    ensures |ApplyPuts(s, sts).log| == |s.log|
    decreases |sts|
  {
    if sts != [] {
      LogLength(ApplyPut(s, sts[0]), sts[1..]);
    }
  }

  lemma CommitLegal(s: Medium, t: Txn)
    requires Fits(s, t) && Phase(See(s, t), t, 0)
    ensures Legal(s, t, 0, CommitStep1(t)) && PhaseAfter(0, CommitStep1(t)) == 1
  {
    var c := CommitStep1(t);
    var s1 := ApplyPut(s, c[0]);
    var s2 := ApplyPut(s1, c[1]);
    var s3 := ApplyPut(s2, c[2]);
    Single(s3, t, 0, c[3]);
    assert Legal(s3, t, 0, [c[3]]) && PhaseAfter(0, [c[3]]) == 1;
    assert [c[2], c[3]][1..] == [c[3]];
    assert Legal(s2, t, 0, [c[2], c[3]]) && PhaseAfter(0, [c[2], c[3]]) == 1;
    assert [c[1], c[2], c[3]][1..] == [c[2], c[3]];
    assert Legal(s1, t, 0, [c[1], c[2], c[3]]) && PhaseAfter(0, [c[1], c[2], c[3]]) == 1;
    assert c[1..] == [c[1], c[2], c[3]];
  }

  /** Every store of a transaction is one the protocol allows, and the last one ends it. */
  lemma TxnLegal(s: Medium, t: Txn)
    requires Whole(s) && Fits(s, t) && Phase(See(s, t), t, 0)
    ensures Legal(s, t, 0, TxnStores(s, t)) && PhaseAfter(0, TxnStores(s, t)) == LastPhase(t)
  {
    hide Whole, Phase, See, Legal, PhaseAfter, EntryStores, CommitStep1;
    var c := CommitStep1(t);
    CommitLegal(s, t);
    LegalKeepsPhase(s, t, 0, c);
    ApplyPutsShape(s, c);
    LogLength(s, CommitStep1(t));
    EntryLegal(ApplyPuts(s, c), t, 1);
    LegalConcat(s, t, 0, c, EntryStores(ApplyPuts(s, c), t.index));
  }

  // ---------- the index of the transaction ----------

  /** After a crash behind `k` stores of the swap, a mount finds the two blocks swapped or as they were. */
  ghost predicate SafeAt(s: Medium, t: Txn, k: nat)
    requires Fits(s, t)
  {
    k <= |TxnStores(s, t)| ==>
      var r := Recovered(ApplyPuts(s, TxnStores(s, t)[..k]));
      Fits(r, t) && (Outcome(See(r, t), t, 0) || Outcome(See(r, t), t, 1))
  }

  lemma SafeIfScanned(s: Medium, t: Txn, k: nat)
    requires Inv(s, []) && Fits(s, t) && Phase(See(s, t), t, 0) && t.index < BLOCK_SWAP_TRANSACTION_INFO_NUM_PER_AREA
    ensures SafeAt(s, t, k)
  {
    hide Whole, Phase, See, Legal, PhaseAfter, TxnStores, Outcome, Recovered;
    if k <= |TxnStores(s, t)| {
      var fs, sts := [Flight(t, 0)], TxnStores(s, t)[..k];
      assert Possible(s, [], Begin(t));
      BeginKeepsInv(s, [], t);
      assert [] + fs == fs;
      TxnLegal(s, t);
      LegalCut(s, t, 0, TxnStores(s, t), k);
      LegalKeepsInv(s, fs, 0, sts);
      var gs := Advance(fs, 0, sts);
      assert gs == [Flight(t, PhaseAfter(0, sts))];
      var m := ApplyPuts(s, sts);
      RecoveryFinishesSwaps(m, gs, []);
      assert Interrupted(m, []) == m;
      assert gs[0].txn == t && gs[0].phase == PhaseAfter(0, sts);
      OutcomeOfPhase(Recovered(m), t, PhaseAfter(0, sts));
    }
  }

  lemma OutcomeOfPhase(r: Medium, t: Txn, ph: nat)
    requires Fits(r, t) && Outcome(See(r, t), t, ph)
    ensures Outcome(See(r, t), t, 0) || Outcome(See(r, t), t, 1)
  {
  }

  lemma {:induction false} RecoveryAtRest(s: Medium, k: nat)
    requires forall j :: 0 <= j < |s.log| && j < BLOCK_SWAP_TRANSACTION_INFO_NUM_PER_AREA ==> Idle(s.log[j])
    ensures AreaStores(s, k) == []
    decreases BLOCK_SWAP_TRANSACTION_INFO_NUM_PER_AREA - k
  {
    hide EntryStores;
    if k < BLOCK_SWAP_TRANSACTION_INFO_NUM_PER_AREA && k < |s.log| {
      IdleStores(s, k);
      RecoveryAtRest(s, k + 1);
    }
  }

  lemma {:induction false} OtherEntriesKept(s: Medium, t: Txn, ph: nat, sts: seq<Put>, k: nat)
    requires Legal(s, t, ph, sts) && k < |s.log| && k != t.index
    ensures |ApplyPuts(s, sts).log| == |s.log| && ApplyPuts(s, sts).log[k] == s.log[k]
    decreases |sts|
  {
    hide Fits, Allowed, ApplyPut, NextPhase, See;
    if sts != [] {
      OtherEntries(s, See(s, t), t, ph, sts[0], k);
      OtherEntriesKept(ApplyPut(s, sts[0]), t, NextPhase(ph, sts[0]), sts[1..], k);
    }
  }

  predicate NoUnmap(sts: seq<Put>) { forall i :: 0 <= i < |sts| ==> !sts[i].PutUnmap? }

  lemma {:induction false} UnmapKept(s: Medium, sts: seq<Put>)
    requires NoUnmap(sts)
    ensures ApplyPuts(s, sts).unmap == s.unmap
    decreases |sts|
  {
    if sts != [] {
      UnmapKept(ApplyPut(s, sts[0]), sts[1..]);
    }
  }

  /** The two unmap stores and the last commit come at the end, and no other unmap store before them. */
  ghost predicate EndsSwapping(sts: seq<Put>, i: nat, e: Info, last: Flags) {
    |sts| >= 3 && sts[|sts| - 3..] == SwapUnmap(i, e, last) && NoUnmap(sts[..|sts| - 3])
  }

  lemma EndsAfter(a: seq<Put>, b: seq<Put>, i: nat, e: Info, last: Flags)
    requires NoUnmap(a) && EndsSwapping(b, i, e, last)
    ensures EndsSwapping(a + b, i, e, last)
  {
    var c := a + b;
    assert c[|c| - 3..] == b[|b| - 3..] && c[..|c| - 3] == a + b[..|b| - 3];
  }

  lemma CopyEnds(p: Place, content: seq<byte>, i: nat, e: Info, last: Flags)
    ensures NoUnmap(Copy(p, content)) && EndsSwapping(Copy(p, content) + SwapUnmap(i, e, last), i, e, last)
  {
    var a, b := Copy(p, content), SwapUnmap(i, e, last);
    assert (a + b)[..|a + b| - 3] == a && (a + b)[|a + b| - 3..] == b;
  }

  lemma EntryEnds(m: Medium, t: Txn)
    requires t.index < |m.log| && Logged(m.log[t.index], t) && m.log[t.index].flags == StepFlags(t.quick, 1)
    ensures EndsSwapping(EntryStores(m, t.index), t.index, m.log[t.index], StepFlags(t.quick, LastPhase(t)))
  {
    hide EndsSwapping, Copy, ApplyPuts, NoUnmap, SwapUnmap;
    var i, e := t.index, m.log[t.index];
    if t.quick {
      CopyEnds(Data(e.newBlock), BytesOrNone(m, Data(e.oldBlock)), i, e, StepFlags(true, 2));
    } else {
      var m2 := ApplyPuts(m, Step1(m, i, e));
      var m3 := ApplyPuts(m2, Step2(m2, i, e));
      var last := StepFlags(false, 4);
      CopyEnds(Data(e.newBlock), BytesOrNone(m3, Swap(e.swapBlock)), i, e, last);
      StepsNoUnmap(m2, i, e);
      StepsNoUnmap(m, i, e);
      EndsAfter(Step2(m2, i, e), FromStep3(m3, i, e), i, e, last);
      EndsAfter(Step1(m, i, e), FromStep2(m2, i, e), i, e, last);
    }
  }

  lemma StepsNoUnmap(m: Medium, i: nat, e: Info)
    ensures NoUnmap(Step1(m, i, e)) && NoUnmap(Step2(m, i, e))
  {
  }

  /** The stores of every transaction end with the two unmap entries and the last commit. */
  lemma EndsWithUnmap(s: Medium, t: Txn)
    requires Whole(s) && Fits(s, t) && Phase(See(s, t), t, 0)
    ensures var sts := TxnStores(s, t);
            |sts| >= 3 && sts[|sts| - 3] == PutUnmap(t.oldBlock, t.newInfo)
            && sts[|sts| - 2] == PutUnmap(t.newBlock, t.oldInfo) && NoUnmap(sts[..|sts| - 3])
  {
    hide Legal, PhaseAfter, EntryStores;
    var c := CommitStep1(t);
    var m := ApplyPuts(s, c);
    CommitLegal(s, t);
    LegalKeepsPhase(s, t, 0, c);
    LogLength(s, c);
    EntryEnds(m, t);
    var sts := TxnStores(s, t);
    EndsAfter(c, EntryStores(m, t.index), t.index, m.log[t.index], StepFlags(t.quick, LastPhase(t)));
    assert sts[|sts| - 3] == sts[|sts| - 3..][0] && sts[|sts| - 2] == sts[|sts| - 3..][1];
  }

  lemma HalfSwapped(v: View, t: Txn)
    requires v.oldUnmap == v.newUnmap && t.oldInfo != t.newInfo
    ensures !Outcome(v, t, 0) && !Outcome(v, t, 1)
  {
  }

  /** Between the two unmap stores both physical blocks claim to be the same logical block. */
  lemma HalfWay(s: Medium, t: Txn) returns (k: nat)
    requires Whole(s) && Fits(s, t) && Phase(See(s, t), t, 0)
    ensures k <= |TxnStores(s, t)| && Legal(s, t, 0, TxnStores(s, t)[..k])
    ensures var r := ApplyPuts(s, TxnStores(s, t)[..k]);
            Fits(r, t) && See(r, t).oldUnmap == t.newInfo && See(r, t).newUnmap == t.newInfo
  {
    hide Legal, TxnStores, Whole, NoUnmap;
    var sts := TxnStores(s, t);
    EndsWithUnmap(s, t);
    TxnLegal(s, t);
    k := |sts| - 2;
    LegalCut(s, t, 0, sts, k);
    LegalCut(s, t, 0, sts, k - 1);
    var a := sts[..k - 1];
    assert sts[..k] == a + [sts[k - 1]];
    ApplyPutsLast(s, a, sts[k - 1]);
    LegalKeepsPhase(s, t, 0, a);
    UnmapKept(s, a);
  }

  lemma LostIfNotScanned(s: Medium, t: Txn) returns (k: nat)
    requires Inv(s, []) && Fits(s, t) && Phase(See(s, t), t, 0) && t.oldInfo != t.newInfo
    requires t.index >= BLOCK_SWAP_TRANSACTION_INFO_NUM_PER_AREA
    ensures !SafeAt(s, t, k)
  {
    hide Whole, Phase, See, Legal, PhaseAfter, TxnStores, Outcome, AreaStores, Idle;
    k := HalfWay(s, t);
    var sts := TxnStores(s, t)[..k];
    var r := ApplyPuts(s, sts);
    HalfSwapped(See(r, t), t);
    forall j | 0 <= j < |r.log| && j < BLOCK_SWAP_TRANSACTION_INFO_NUM_PER_AREA ensures Idle(r.log[j]) {
      LogLength(s, sts);
      OtherEntriesKept(s, t, 0, sts, j);
    }
    RecoveryAtRest(r, 0);
  }

  /**
    UpdateLogAreaIndex never starts over, recovery looks at 64 entries: a swap
    survives a crash at every point exactly when fewer than 64 were begun since
    the mount.
   */
  lemma SafeExactlyInTheFirst64(s: Medium, t: Txn)
    requires Inv(s, []) && Fits(s, t) && Phase(See(s, t), t, 0) && t.oldInfo != t.newInfo
    ensures (forall k :: SafeAt(s, t, k)) <==> t.index < BLOCK_SWAP_TRANSACTION_INFO_NUM_PER_AREA
  {
    hide SafeAt, Inv, Fits, Phase, See;
    if t.index < BLOCK_SWAP_TRANSACTION_INFO_NUM_PER_AREA {
      forall k ensures SafeAt(s, t, k) { SafeIfScanned(s, t, k); }
    } else {
      var k := LostIfNotScanned(s, t);
    }
  }
}
