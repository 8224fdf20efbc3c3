/**
  Block swaps and crashes: any number of swaps under way, a crash after any
  store, any number of mounts that crash inside recovery, one that does not.
 */
module SwapSafety {
  import opened Nvm
  import opened SwapMedium
  import opened SwapProtocol
  import opened SwapRecovery

  // ---------- recovery of the whole area ----------

  /** The same swaps, none further back, none committed that was not. */
  ghost predicate Progress(fs: seq<Flight>, gs: seq<Flight>) {
    && |fs| == |gs|
    && forall i :: 0 <= i < |fs| ==> gs[i].txn == fs[i].txn && gs[i].phase >= fs[i].phase && (gs[i].phase == 0 <==> fs[i].phase == 0)
  }

  predicate Settled(f: Flight) { f.phase == 0 || f.phase == LastPhase(f.txn) }

  ghost predicate Uninvolved(fs: seq<Flight>, b: nat) {
    forall i :: 0 <= i < |fs| ==> b != fs[i].txn.oldBlock && b != fs[i].txn.newBlock
  }

  /** Blocks no swap is about are as they were. */
  ghost predicate OthersKept(s: Medium, r: Medium, fs: seq<Flight>) {
    && |r.blocks| == |s.blocks| && |r.unmap| == |s.unmap| && |r.log| == |s.log|
    && forall b :: 0 <= b < |s.blocks| && Uninvolved(fs, b) && |s.unmap| == |s.blocks| ==>
         r.blocks[b] == s.blocks[b] && r.unmap[b] == s.unmap[b]
  }

  lemma OthersKeptOnce(s: Medium, fs: seq<Flight>, i: nat, st: Put)
    requires Inv(s, fs) && Possible(s, fs, SwapStore(i, st))
    ensures OthersKept(s, ApplyPut(s, st), fs)
  {
    hide Phase, Apart, Idle;
    ApplyPutShape(s, st);
    assert !Avoids(st, fs[i].txn);
  }

  lemma OthersKeptTrans(s: Medium, m: Medium, r: Medium, fs: seq<Flight>, gs: seq<Flight>)
    requires OthersKept(s, m, fs) && OthersKept(m, r, gs) && Progress(fs, gs)
    ensures OthersKept(s, r, fs)
  {
    forall b | 0 <= b < |s.blocks| && Uninvolved(fs, b) && |s.unmap| == |s.blocks|
      ensures r.blocks[b] == s.blocks[b] && r.unmap[b] == s.unmap[b]
    {
      assert Uninvolved(gs, b);
    }
  }

  lemma ProgressTrans(fs: seq<Flight>, gs: seq<Flight>, hs: seq<Flight>)
    requires Progress(fs, gs) && Progress(gs, hs)
    ensures Progress(fs, hs)
  {
  }

  /** The state the flights are in after one of them made these stores. */
  function Advance(fs: seq<Flight>, i: nat, sts: seq<Put>): seq<Flight>
    requires i < |fs|
  {
    fs[i := Flight(fs[i].txn, PhaseAfter(fs[i].phase, sts))]
  }

  lemma {:induction false} LegalKeepsInv(s: Medium, fs: seq<Flight>, i: nat, sts: seq<Put>)
    requires Inv(s, fs) && i < |fs| && Legal(s, fs[i].txn, fs[i].phase, sts)
    ensures Inv(ApplyPuts(s, sts), Advance(fs, i, sts)) && OthersKept(s, ApplyPuts(s, sts), fs)
    decreases |sts|
  {
    hide Inv, Possible, Fits, Allowed, ApplyPut, NextPhase, See, OthersKept;
    if sts == [] {
      assert Advance(fs, i, sts) == fs;
      KeptRefl(s, fs);
    } else {
      var st := sts[0];
      LegalHead(s, fs, i, sts);
      SwapStoreKeepsInv(s, fs, i, st);
      OthersKeptOnce(s, fs, i, st);
      var r, gs := ApplyPut(s, st), FlightsAfter(fs, SwapStore(i, st));
      assert gs[i].phase == NextPhase(fs[i].phase, st) && gs[i].txn == fs[i].txn;
      LegalKeepsInv(r, gs, i, sts[1..]);
      assert Advance(gs, i, sts[1..]) == Advance(fs, i, sts);
      SameBlocksKept(s, r, ApplyPuts(r, sts[1..]), fs, gs);
    }
  }

  lemma LegalHead(s: Medium, fs: seq<Flight>, i: nat, sts: seq<Put>)
    requires i < |fs| && Legal(s, fs[i].txn, fs[i].phase, sts) && sts != []
    ensures Possible(s, fs, SwapStore(i, sts[0]))
    ensures Legal(ApplyPut(s, sts[0]), fs[i].txn, NextPhase(fs[i].phase, sts[0]), sts[1..])
  {
    hide Fits, Allowed, ApplyPut, NextPhase, See;
  }

  lemma KeptRefl(s: Medium, fs: seq<Flight>)
    ensures OthersKept(s, s, fs)
  {
  }

  lemma SameBlocksKept(s: Medium, m: Medium, r: Medium, fs: seq<Flight>, gs: seq<Flight>)
    requires OthersKept(s, m, fs) && OthersKept(m, r, gs)
    requires |gs| == |fs| && forall i :: 0 <= i < |fs| ==> gs[i].txn == fs[i].txn
    ensures OthersKept(s, r, fs)
  {
    forall b | 0 <= b < |s.blocks| && Uninvolved(fs, b) && |s.unmap| == |s.blocks|
      ensures r.blocks[b] == s.blocks[b] && r.unmap[b] == s.unmap[b]
    {
      assert Uninvolved(gs, b);
    }
  }

  lemma AdvanceIsProgress(fs: seq<Flight>, i: nat, sts: seq<Put>)
    requires i < |fs| && fs[i].phase > 0
    ensures Progress(fs, Advance(fs, i, sts))
  {
    PhaseGrows(fs[i].phase, sts);
  }

  /** The swap a live entry belongs to. */
  lemma OwnerOf(s: Medium, fs: seq<Flight>, k: nat) returns (i: nat)
    requires Inv(s, fs) && k < |s.log| && !Idle(s.log[k])
    ensures i < |fs| && fs[i].txn.index == k && 1 <= fs[i].phase <= LastPhase(fs[i].txn)
    ensures Fits(s, fs[i].txn) && Phase(See(s, fs[i].txn), fs[i].txn, fs[i].phase)
  {
    hide Apart, Whole;
    i :| 0 <= i < |fs| && fs[i].txn.index == k;
  }

  /** Some of the stores for one entry: the protocol goes on. */
  lemma EntryCut(s: Medium, fs: seq<Flight>, k: nat, cut: nat) returns (gs: seq<Flight>)
    requires Inv(s, fs) && k < |s.log| && cut <= |EntryStores(s, k)|
    ensures var r := ApplyPuts(s, EntryStores(s, k)[..cut]);
            Inv(r, gs) && Progress(fs, gs) && OthersKept(s, r, fs)
    ensures forall j :: 0 <= j < |fs| && fs[j].txn.index != k ==> gs[j] == fs[j]
    ensures cut == |EntryStores(s, k)| ==> forall j :: 0 <= j < |fs| && fs[j].txn.index == k ==> Settled(gs[j])
  {
    hide EntryStores, Legal, OthersKept, Phase, See, Allowed, PhaseAfter;
    var sts := EntryStores(s, k);
    if Idle(s.log[k]) {
      IdleStores(s, k);
      gs := fs;
      KeptRefl(s, fs);
      IdleSettled(s, fs, k);
    } else {
      var i := OwnerOf(s, fs, k);
      EntryLegal(s, fs[i].txn, fs[i].phase);
      LegalCut(s, fs[i].txn, fs[i].phase, sts, cut);
      gs := Advance(fs, i, sts[..cut]);
      LegalKeepsInv(s, fs, i, sts[..cut]);
      AdvanceIsProgress(fs, i, sts[..cut]);
      assert sts[..|sts|] == sts;
      assert forall j :: 0 <= j < |fs| && fs[j].txn.index == k ==> j == i by {
        assert forall j :: 0 <= j < |fs| && j != i ==> Apart(fs[i].txn, fs[j].txn);
      }
    }
  }

  lemma IdleSettled(s: Medium, fs: seq<Flight>, k: nat)
    requires Inv(s, fs) && k < |s.log| && Idle(s.log[k])
    ensures forall j :: 0 <= j < |fs| && fs[j].txn.index == k ==> Settled(fs[j])
  {
    hide Whole, Apart;
  }

  /** Recovery cut anywhere: the protocol goes on. */
  lemma {:induction false} AreaCut(s: Medium, fs: seq<Flight>, k: nat, cut: nat) returns (gs: seq<Flight>)
    requires Inv(s, fs) && cut <= |AreaStores(s, k)|
    ensures var r := ApplyPuts(s, AreaStores(s, k)[..cut]);
            Inv(r, gs) && Progress(fs, gs) && OthersKept(s, r, fs)
    decreases BLOCK_SWAP_TRANSACTION_INFO_NUM_PER_AREA - k
  {
    hide Inv, EntryStores, OthersKept;
    if k >= BLOCK_SWAP_TRANSACTION_INFO_NUM_PER_AREA || k >= |s.log| {
      gs := fs;
      KeptRefl(s, fs);
    } else {
      var a := EntryStores(s, k);
      var m := ApplyPuts(s, a);
      var b := AreaStores(m, k + 1);
      if cut <= |a| {
        gs := EntryCut(s, fs, k, cut);
        assert (a + b)[..cut] == a[..cut];
      } else {
        var hs := EntryCut(s, fs, k, |a|);
        assert a[..|a|] == a;
        gs := AreaCut(m, hs, k + 1, cut - |a|);
        assert (a + b)[..cut] == a + b[..cut - |a|];
        ApplyPutsConcat(s, a, b[..cut - |a|]);
        ProgressTrans(fs, hs, gs);
        OthersKeptTrans(s, m, ApplyPuts(m, b[..cut - |a|]), fs, hs);
      }
    }
  }

  /** Recovery run to its end: every swap it looks at is settled. */
  lemma {:induction false} AreaDone(s: Medium, fs: seq<Flight>, k: nat) returns (gs: seq<Flight>)
    requires Inv(s, fs)
    ensures var r := ApplyPuts(s, AreaStores(s, k));
            Inv(r, gs) && Progress(fs, gs) && OthersKept(s, r, fs)
    ensures forall j :: 0 <= j < |fs| && fs[j].txn.index < k ==> gs[j] == fs[j]
    ensures forall j :: 0 <= j < |fs| && k <= fs[j].txn.index < BLOCK_SWAP_TRANSACTION_INFO_NUM_PER_AREA ==> Settled(gs[j])
    decreases BLOCK_SWAP_TRANSACTION_INFO_NUM_PER_AREA - k
  {
    hide Inv, EntryStores, OthersKept;
    if k >= BLOCK_SWAP_TRANSACTION_INFO_NUM_PER_AREA || k >= |s.log| {
      gs := fs;
      KeptRefl(s, fs);
      IndexInLog(s, fs);
    } else {
      var a := EntryStores(s, k);
      var m := ApplyPuts(s, a);
      var hs := EntryCut(s, fs, k, |a|);
      assert a[..|a|] == a;
      gs := AreaDone(m, hs, k + 1);
      ApplyPutsConcat(s, a, AreaStores(m, k + 1));
      ProgressTrans(fs, hs, gs);
      OthersKeptTrans(s, m, ApplyPuts(m, AreaStores(m, k + 1)), fs, hs);
    }
  }

  lemma IndexInLog(s: Medium, fs: seq<Flight>)
    requires Inv(s, fs)
    ensures forall j :: 0 <= j < |fs| ==> fs[j].txn.index < |s.log|
  {
    hide Phase, Whole, Apart;
  }

  // ---------- the result ----------

  /** The swapped state, or the original one when the first step was not committed. */
  predicate Outcome(v: View, t: Txn, ph: nat) {
    if ph == 0 then v.oldBytes == t.oldData && v.newBytes == t.newData && v.oldUnmap == t.oldInfo && v.newUnmap == t.newInfo
    else
      && v.oldUnmap == t.newInfo && v.newUnmap == t.oldInfo && v.newBytes == t.oldData
      && v.oldBytes == if t.quick then t.oldData else t.newData
  }

  ghost predicate Outcomes(s: Medium, r: Medium, fs: seq<Flight>) {
    && OthersKept(s, r, fs)
    && forall i :: 0 <= i < |fs| ==> Fits(r, fs[i].txn) && Outcome(See(r, fs[i].txn), fs[i].txn, fs[i].phase)
  }

  ghost predicate Scanned(fs: seq<Flight>) {
    forall i :: 0 <= i < |fs| ==> fs[i].txn.index < BLOCK_SWAP_TRANSACTION_INFO_NUM_PER_AREA
  }

  lemma SettledOutcome(v: View, t: Txn, ph: nat, before: nat)
    requires Phase(v, t, ph) && Settled(Flight(t, ph)) && (ph == 0 <==> before == 0)
    ensures Outcome(v, t, before) && Idle(v.entry)
  {
  }

  lemma {:induction false} InterruptedKeeps(s: Medium, fs: seq<Flight>, cuts: seq<nat>) returns (gs: seq<Flight>)
    requires Inv(s, fs)
    ensures Inv(Interrupted(s, cuts), gs) && Progress(fs, gs) && OthersKept(s, Interrupted(s, cuts), fs)
    decreases |cuts|
  {
    hide Inv, AreaStores, OthersKept;
    if cuts == [] {
      gs := fs;
      KeptRefl(s, fs);
    } else {
      var sts := AreaStores(s, 0);
      var cut := if cuts[0] <= |sts| then cuts[0] else |sts|;
      var hs := AreaCut(s, fs, 0, cut);
      var m := ApplyPuts(s, sts[..cut]);
      assert sts[..|sts|] == sts;
      gs := InterruptedKeeps(m, hs, cuts[1..]);
      ProgressTrans(fs, hs, gs);
      OthersKeptTrans(s, m, Interrupted(m, cuts[1..]), fs, hs);
    }
  }

  /**
    A crash after any store of any swaps, any number of mounts that crash inside
    recovery after any store, then a mount that finishes: each swap whose first
    step was committed before the first crash is done, each other one never
    happened, no other block changed, and nothing is left to recover.
   */
  lemma RecoveryFinishesSwaps(s: Medium, fs: seq<Flight>, cuts: seq<nat>)
    requires Inv(s, fs) && Scanned(fs)
    ensures var r := Recovered(Interrupted(s, cuts));
            && Outcomes(s, r, fs)
            && Inv(r, [])
            && (forall k :: 0 <= k < |r.log| ==> Idle(r.log[k]))
  {
    hide Inv, AreaStores, OthersKept, Phase, Outcome, Idle, Apart, See, Fits;
    var m := Interrupted(s, cuts);
    var hs := InterruptedKeeps(s, fs, cuts);
    var gs := AreaDone(m, hs, 0);
    var r := Recovered(m);
    ProgressTrans(fs, hs, gs);
    OthersKeptTrans(s, m, r, fs, hs);
    forall i | 0 <= i < |fs| ensures Fits(r, fs[i].txn) && Outcome(See(r, fs[i].txn), fs[i].txn, fs[i].phase)
    {
      InvAt(r, gs, i);
      SettledOutcome(See(r, gs[i].txn), gs[i].txn, gs[i].phase, fs[i].phase);
    }
    AllIdle(r, gs);
  }

  lemma InvAt(s: Medium, fs: seq<Flight>, i: nat)
    requires Inv(s, fs) && i < |fs|
    ensures Fits(s, fs[i].txn) && Phase(See(s, fs[i].txn), fs[i].txn, fs[i].phase)
  {
    hide Phase, Apart, Idle, Whole, Fits, See;
  }

  lemma AllIdle(s: Medium, fs: seq<Flight>)
    requires Inv(s, fs) && forall i :: 0 <= i < |fs| ==> Settled(fs[i])
    ensures Inv(s, []) && forall k :: 0 <= k < |s.log| ==> Idle(s.log[k])
  {
    hide Apart, Whole;
    forall k | 0 <= k < |s.log| ensures Idle(s.log[k]) {
      if !Idle(s.log[k]) {
        var i := OwnerOf(s, fs, k);
        SettledOutcome(See(s, fs[i].txn), fs[i].txn, fs[i].phase, fs[i].phase);
        assert false;
      }
    }
  }

  // ---------- what the users of the blocks see ----------

  /** Block `b` with the swaps under way left out: its unmap entry and its bytes. */
  function Before(s: Medium, fs: seq<Flight>, b: nat): (BlockInfo, seq<byte>)
    requires b < |s.blocks| == |s.unmap|
    decreases |fs|
  {
    if fs == [] then (s.unmap[b], s.blocks[b])
    else if b == fs[0].txn.oldBlock then (fs[0].txn.oldInfo, fs[0].txn.oldData)
    else if b == fs[0].txn.newBlock then (fs[0].txn.newInfo, fs[0].txn.newData)
    else Before(s, fs[1..], b)
  }

  ghost predicate HeldAt(s: Medium, fs: seq<Flight>, b: nat, logical: nat, c: seq<byte>) {
    b < |s.blocks| == |s.unmap|
    && var x := Before(s, fs, b); x.0.busy && x.0.unmapBlock == logical && x.1 == c
  }

  /** The busy logical block `logical` has the bytes `c`. */
  ghost predicate Holds(s: Medium, fs: seq<Flight>, logical: nat, c: seq<byte>) {
    exists b :: HeldAt(s, fs, b, logical, c)
  }

  lemma {:induction false} BeforeOwn(s: Medium, fs: seq<Flight>, i: nat)
    requires i < |fs| && Fits(s, fs[i].txn)
    requires forall a, b :: 0 <= a < |fs| && 0 <= b < |fs| && a != b ==> Apart(fs[a].txn, fs[b].txn)
    ensures Before(s, fs, fs[i].txn.oldBlock) == (fs[i].txn.oldInfo, fs[i].txn.oldData)
    ensures Before(s, fs, fs[i].txn.newBlock) == (fs[i].txn.newInfo, fs[i].txn.newData)
    decreases |fs|
  {
    if i > 0 {
      assert Apart(fs[0].txn, fs[i].txn);
      assert fs[1..][i - 1] == fs[i];
      BeforeOwn(s, fs[1..], i - 1);
    }
  }

  lemma {:induction false} BeforeOther(s: Medium, fs: seq<Flight>, b: nat)
    requires b < |s.blocks| == |s.unmap| && Uninvolved(fs, b)
    ensures Before(s, fs, b) == (s.unmap[b], s.blocks[b])
    decreases |fs|
  {
    if fs != [] {
      assert Uninvolved(fs[1..], b);
      BeforeOther(s, fs[1..], b);
    }
  }

  /** Every block belongs to a swap or to none. */
  lemma InvolvedBy(fs: seq<Flight>, b: nat) returns (i: nat)
    ensures Uninvolved(fs, b) || (i < |fs| && (b == fs[i].txn.oldBlock || b == fs[i].txn.newBlock))
  {
    if !Uninvolved(fs, b) {
      i :| 0 <= i < |fs| && (b == fs[i].txn.oldBlock || b == fs[i].txn.newBlock);
    } else {
      i := 0;
    }
  }

  /** Where recovery leaves the content of block `b`. */
  function Moved(t: Txn, ph: nat, b: nat): nat {
    if ph == 0 then b else if b == t.oldBlock then t.newBlock else t.oldBlock
  }

  lemma HoldsOnward(s: Medium, fs: seq<Flight>, r: Medium, b: nat, logical: nat, c: seq<byte>)
    requires Inv(s, fs) && Outcomes(s, r, fs)
    requires HeldAt(s, fs, b, logical, c)
    ensures Holds(r, [], logical, c)
  {
    hide Phase, Idle, Whole;
    var i := InvolvedBy(fs, b);
    if Uninvolved(fs, b) {
      BeforeOther(s, fs, b);
      assert HeldAt(r, [], b, logical, c);
    } else {
      BeforeOwn(s, fs, i);
      assert HeldAt(r, [], Moved(fs[i].txn, fs[i].phase, b), logical, c);
    }
  }

  lemma HoldsBackward(s: Medium, fs: seq<Flight>, r: Medium, b: nat, logical: nat, c: seq<byte>)
    requires Inv(s, fs) && Outcomes(s, r, fs)
    requires HeldAt(r, [], b, logical, c)
    ensures Holds(s, fs, logical, c)
  {
    hide Phase, Idle, Whole;
    var i := InvolvedBy(fs, b);
    if Uninvolved(fs, b) {
      BeforeOther(s, fs, b);
      assert HeldAt(s, fs, b, logical, c);
    } else {
      BeforeOwn(s, fs, i);
      assert HeldAt(s, fs, Moved(fs[i].txn, fs[i].phase, b), logical, c);
    }
  }

  /** After the crash and the mounts, every busy logical block has the bytes it had, and no other bytes. */
  lemma BusyBlocksSurvive(s: Medium, fs: seq<Flight>, cuts: seq<nat>, logical: nat, c: seq<byte>)
    requires Inv(s, fs) && Scanned(fs)
    ensures Holds(Recovered(Interrupted(s, cuts)), [], logical, c) <==> Holds(s, fs, logical, c)
  {
    hide Inv, HeldAt, Outcomes, Recovered, Interrupted;
    RecoveryFinishesSwaps(s, fs, cuts);
    var r := Recovered(Interrupted(s, cuts));
    if Holds(s, fs, logical, c) {
      var b :| HeldAt(s, fs, b, logical, c);
      HoldsOnward(s, fs, r, b, logical, c);
    }
    if Holds(r, [], logical, c) {
      var b :| HeldAt(r, [], b, logical, c);
      HoldsBackward(s, fs, r, b, logical, c);
    }
  }
}
