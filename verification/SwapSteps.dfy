/** The stores of each step, matched to the copies and commits that make them. */
module SwapSteps {
  import opened Nvm
  import opened SwapMedium
  import opened SwapProtocol
  import opened SwapRecovery
  import opened SwapSafety
  import opened SwapHistory

  /** A swap in phase `ph` on a sound medium. */
  ghost predicate At(s: Medium, t: Txn, ph: nat) {
    Whole(s) && Fits(s, t) && Phase(See(s, t), t, ph)
  }

  ghost function CopiedThen(s: Medium, dst: Place, src: Place, st: Put): Medium
    requires Has(s, dst) && Has(s, src)
  {
    ApplyPut(WithBlock(s, dst, Bytes(s, src)), st)
  }

  lemma CopiedThenStores(s: Medium, dst: Place, src: Place, st: Put)
    requires Whole(s) && Has(s, dst) && Has(s, src)
    ensures ApplyPuts(s, Copy(dst, Bytes(s, src)) + [st]) == CopiedThen(s, dst, src, st)
  {
    hide ApplyPut, ApplyPuts, Copy, WithBlock;
    CopyDone(s, dst, Bytes(s, src));
    ApplyPutsLast(s, Copy(dst, Bytes(s, src)), st);
  }

  lemma CopiedThenUnmap(s: Medium, dst: Place, src: Place, i: nat, f: Flags)
    requires Has(s, dst) && Has(s, src)
    ensures CopiedThen(s, dst, src, PutFlags(i, f)).unmap == s.unmap
  {
  }

  lemma UnmapAtStart(s: Medium, t: Txn)
    requires At(s, t, 0)
    ensures t.oldBlock < |s.unmap| && t.newBlock < |s.unmap| && s.unmap[t.oldBlock] == t.oldInfo && s.unmap[t.newBlock] == t.newInfo
  {
  }

  lemma PlacesFit(s: Medium, t: Txn)
    requires Fits(s, t)
    ensures Has(s, Data(t.oldBlock)) && Has(s, Data(t.newBlock)) && (!t.quick ==> Has(s, Swap(t.slot)))
    ensures t.oldBlock != t.newBlock && t.index < |s.log| && |s.unmap| == |s.blocks| && (t.quick ==> t.slot == 0)
  {
  }

  lemma AtNext(s: Medium, t: Txn, ph: nat, sts: seq<Put>)
    requires At(s, t, ph) && Legal(s, t, ph, sts)
    ensures At(ApplyPuts(s, sts), t, PhaseAfter(ph, sts))
  {
    hide Whole, Fits, Phase, See, Legal, PhaseAfter, ApplyPuts;
    ApplyPutsShape(s, sts);
    LegalKeepsPhase(s, t, ph, sts);
  }

  lemma Step1Made(s: Medium, t: Txn, e: Info)
    requires At(s, t, 1) && !t.quick && Logged(e, t)
    ensures Has(s, Data(t.oldBlock)) && Has(s, Swap(t.slot))
    ensures var r := CopiedThen(s, Swap(t.slot), Data(t.oldBlock), PutFlags(t.index, StepFlags(false, 2)));
            var a := Copy(Swap(t.slot), Bytes(s, Data(t.oldBlock))) + [PutFlags(t.index, StepFlags(false, 2))];
            && At(r, t, 2) && r.unmap == s.unmap && r == ApplyPuts(s, a) && FromStep1(s, t.index, e) == a + FromStep2(r, t.index, e)
  {
    hide Whole, Fits, Phase, See, Legal, PhaseAfter, ApplyPuts, Copy, FromStep2, CopiedThen, StepFlags;
    PlacesFit(s, t);
    CopiedThenUnmap(s, Swap(t.slot), Data(t.oldBlock), t.index, StepFlags(false, 2));
    CopiedThenStores(s, Swap(t.slot), Data(t.oldBlock), PutFlags(t.index, StepFlags(false, 2)));
    Step1Legal(s, t, e);
    AtNext(s, t, 1, Step1(s, t.index, e));
  }

  lemma Step2Made(s: Medium, t: Txn, e: Info)
    requires At(s, t, 2) && !t.quick && Logged(e, t)
    ensures Has(s, Data(t.oldBlock)) && Has(s, Data(t.newBlock))
    ensures var r := CopiedThen(s, Data(t.oldBlock), Data(t.newBlock), PutFlags(t.index, StepFlags(false, 3)));
            var a := Copy(Data(t.oldBlock), Bytes(s, Data(t.newBlock))) + [PutFlags(t.index, StepFlags(false, 3))];
            && At(r, t, 3) && r.unmap == s.unmap && r == ApplyPuts(s, a) && FromStep2(s, t.index, e) == a + FromStep3(r, t.index, e)
  {
    hide Whole, Fits, Phase, See, Legal, PhaseAfter, ApplyPuts, Copy, FromStep3, CopiedThen, StepFlags;
    PlacesFit(s, t);
    CopiedThenUnmap(s, Data(t.oldBlock), Data(t.newBlock), t.index, StepFlags(false, 3));
    CopiedThenStores(s, Data(t.oldBlock), Data(t.newBlock), PutFlags(t.index, StepFlags(false, 3)));
    Step2Legal(s, t, e);
    AtNext(s, t, 2, Step2(s, t.index, e));
  }

  /** The last copy, both unmap entries, the last commit. */
  ghost function CopiedAndSwapped(s: Medium, t: Txn, src: Place): Medium
    requires Has(s, Data(t.newBlock)) && Has(s, src)
  {
    ApplyPut(ApplyPut(CopiedThen(s, Data(t.newBlock), src, PutUnmap(t.oldBlock, t.newInfo)), PutUnmap(t.newBlock, t.oldInfo)),
             PutFlags(t.index, StepFlags(t.quick, LastPhase(t))))
  }

  lemma LastStores(s: Medium, t: Txn, e: Info, src: Place)
    requires Whole(s) && Has(s, Data(t.newBlock)) && Has(s, src) && Logged(e, t)
    ensures ApplyPuts(s, Copy(Data(t.newBlock), Bytes(s, src)) + SwapUnmap(t.index, e, StepFlags(t.quick, LastPhase(t))))
            == CopiedAndSwapped(s, t, src)
  {
    hide ApplyPut, ApplyPuts, Copy, WithBlock, CopiedThen;
    var a := Copy(Data(t.newBlock), Bytes(s, src)) + [PutUnmap(t.oldBlock, t.newInfo)];
    var u, f := PutUnmap(t.newBlock, t.oldInfo), PutFlags(t.index, StepFlags(t.quick, LastPhase(t)));
    CopiedThenStores(s, Data(t.newBlock), src, PutUnmap(t.oldBlock, t.newInfo));
    ApplyPutsLast(s, a, u);
    ApplyPutsLast(s, a + [u], f);
    assert a + [u] + [f] == Copy(Data(t.newBlock), Bytes(s, src)) + SwapUnmap(t.index, e, StepFlags(t.quick, LastPhase(t)));
  }

  lemma Step3Made(s: Medium, t: Txn, e: Info)
    requires At(s, t, 3) && !t.quick && Logged(e, t)
    ensures Has(s, Data(t.newBlock)) && Has(s, Swap(t.slot))
    ensures var r := CopiedAndSwapped(s, t, Swap(t.slot));
            && At(r, t, 4) && r == ApplyPuts(s, FromStep3(s, t.index, e))
            && FromStep3(s, t.index, e) == Copy(Data(t.newBlock), Bytes(s, Swap(t.slot))) + SwapUnmap(t.index, e, StepFlags(false, 4))
  {
    hide Whole, Fits, Phase, See, Legal, PhaseAfter, ApplyPuts, Copy, CopiedAndSwapped, StepFlags, SwapUnmap;
    PlacesFit(s, t);
    LastStores(s, t, e, Swap(t.slot));
    FromStep3Legal(s, t, e);
    AtNext(s, t, 3, FromStep3(s, t.index, e));
  }

  lemma QuickMade(s: Medium, t: Txn, e: Info)
    requires At(s, t, 1) && t.quick && Logged(e, t)
    ensures Has(s, Data(t.newBlock)) && Has(s, Data(t.oldBlock))
    ensures var r := CopiedAndSwapped(s, t, Data(t.oldBlock));
            && At(r, t, 2) && r == ApplyPuts(s, QuickStep(s, t.index, e))
            && QuickStep(s, t.index, e) == Copy(Data(t.newBlock), Bytes(s, Data(t.oldBlock))) + SwapUnmap(t.index, e, StepFlags(true, 2))
  {
    hide Whole, Fits, Phase, See, Legal, PhaseAfter, ApplyPuts, Copy, CopiedAndSwapped, StepFlags, SwapUnmap;
    PlacesFit(s, t);
    LastStores(s, t, e, Data(t.oldBlock));
    QuickLegal(s, t, e);
    AtNext(s, t, 1, QuickStep(s, t.index, e));
  }

  lemma CommitMade(s: Medium, t: Txn)
    requires At(s, t, 0)
    ensures var r := ApplyPuts(s, CommitStep1(t));
            && At(r, t, 1) && Logged(r.log[t.index], t) && r.unmap == s.unmap
            && TxnStores(s, t) == CommitStep1(t) + if t.quick then QuickStep(r, t.index, r.log[t.index]) else FromStep1(r, t.index, r.log[t.index])
  {
    hide Whole, Legal, PhaseAfter, ApplyPuts, QuickStep, FromStep1;
    CommitLegal(s, t);
    AtNext(s, t, 0, CommitStep1(t));
    UnmapKept(s, CommitStep1(t));
    LogLength(s, CommitStep1(t));
  }

  // ---------- the media a whole swap passes through ----------

  ghost function Medium1(s: Medium, t: Txn): Medium { ApplyPuts(s, CommitStep1(t)) }

  ghost function Medium2(s: Medium, t: Txn): Medium
    requires Has(s, Swap(t.slot)) && Has(s, Data(t.oldBlock))
  {
    CopiedThen(s, Swap(t.slot), Data(t.oldBlock), PutFlags(t.index, StepFlags(false, 2)))
  }

  ghost function Medium3(s: Medium, t: Txn): Medium
    requires Has(s, Data(t.newBlock)) && Has(s, Data(t.oldBlock))
  {
    CopiedThen(s, Data(t.oldBlock), Data(t.newBlock), PutFlags(t.index, StepFlags(false, 3)))
  }

  /** A medium the swap can copy its blocks on. */
  ghost predicate Copyable(s: Medium, t: Txn) {
    && Whole(s) && Has(s, Data(t.oldBlock)) && Has(s, Data(t.newBlock)) && (!t.quick ==> Has(s, Swap(t.slot)))
    && t.oldBlock != t.newBlock && t.index < |s.log| && |s.unmap| == |s.blocks|
  }

  lemma AtCopyable(s: Medium, t: Txn, ph: nat)
    requires At(s, t, ph)
    ensures Copyable(s, t) && (t.quick ==> t.slot == 0)
  {
    hide Whole;
    PlacesFit(s, t);
  }

  /** One step more of a longer sequence of stores. */
  lemma Onward(s: Medium, done: seq<Put>, m: Medium, a: seq<Put>, r: Medium, rest: seq<Put>)
    requires m == ApplyPuts(s, done) && r == ApplyPuts(m, a)
    ensures r == ApplyPuts(s, done + a) && done + (a + rest) == done + a + rest
  {
    hide ApplyPuts;
    ApplyPutsConcat(s, done, a);
  }

  /** The stores of a complete swap up to its last part. */
  ghost function CompleteHead(s1: Medium, s2: Medium, t: Txn): seq<Put>
    requires Copyable(s1, t) && Copyable(s2, t)
  {
    CommitStep1(t) + (Copy(Swap(t.slot), Bytes(s1, Data(t.oldBlock))) + [PutFlags(t.index, StepFlags(false, 2))])
      + (Copy(Data(t.oldBlock), Bytes(s2, Data(t.newBlock))) + [PutFlags(t.index, StepFlags(false, 3))])
  }

  lemma CompleteMade(s: Medium, t: Txn)
    requires At(s, t, 0) && !t.quick
    ensures var s1 := Medium1(s, t);
            && Copyable(s1, t) && Copyable(Medium2(s1, t), t) && Copyable(Medium3(Medium2(s1, t), t), t)
    ensures var s1 := Medium1(s, t);
            var s2 := Medium2(s1, t);
            var s3 := Medium3(s2, t);
            var s4 := CopiedAndSwapped(s3, t, Swap(t.slot));
            && s1.unmap == s.unmap && s2.unmap == s.unmap && s3.unmap == s.unmap
            && At(s4, t, 4) && s4 == ApplyPuts(s, TxnStores(s, t))
            && TxnStores(s, t) == CompleteHead(s1, s2, t)
                 + (Copy(Data(t.newBlock), Bytes(s3, Swap(t.slot))) + SwapUnmap(t.index, s1.log[t.index], StepFlags(false, 4)))
            && Logged(s1.log[t.index], t)
  {
    hide ApplyPuts, Copy, ApplyPut, Whole, Phase, Fits, FromStep1, FromStep2, FromStep3, At, CommitStep1, TxnStores, SwapUnmap,
         StepFlags, CopiedThen, CopiedAndSwapped, Logged;
    CommitMade(s, t);
    var s1, c := Medium1(s, t), CommitStep1(t);
    AtCopyable(s1, t, 1);
    var e := s1.log[t.index];
    Step1Made(s1, t, e);
    var s2 := Medium2(s1, t);
    var a := Copy(Swap(t.slot), Bytes(s1, Data(t.oldBlock))) + [PutFlags(t.index, StepFlags(false, 2))];
    AtCopyable(s2, t, 2);
    Step2Made(s2, t, e);
    var s3 := Medium3(s2, t);
    var b := Copy(Data(t.oldBlock), Bytes(s2, Data(t.newBlock))) + [PutFlags(t.index, StepFlags(false, 3))];
    AtCopyable(s3, t, 3);
    Step3Made(s3, t, e);
    var d := FromStep3(s3, t.index, e);
    Onward(s, c, s1, a, s2, b + d);
    Onward(s, c + a, s2, b, s3, d);
    Onward(s, c + a + b, s3, d, ApplyPuts(s3, d), []);
  }

  lemma QuickSwapMade(s: Medium, t: Txn)
    requires At(s, t, 0) && t.quick
    ensures var s1 := Medium1(s, t);
            Copyable(s1, t) && s1.unmap == s.unmap && t.slot == 0 && Logged(s1.log[t.index], t)
    ensures var s1 := Medium1(s, t);
            var s2 := CopiedAndSwapped(s1, t, Data(t.oldBlock));
            && At(s2, t, 2) && s2 == ApplyPuts(s, TxnStores(s, t))
            && TxnStores(s, t) == CommitStep1(t)
                 + (Copy(Data(t.newBlock), Bytes(s1, Data(t.oldBlock))) + SwapUnmap(t.index, s1.log[t.index], StepFlags(true, 2)))
  {
    hide ApplyPuts, Copy, ApplyPut, Whole, Phase, Fits, QuickStep, At, CommitStep1, TxnStores, SwapUnmap, StepFlags,
         CopiedAndSwapped, Logged;
    CommitMade(s, t);
    AtCopyable(s, t, 0);
    var s1 := Medium1(s, t);
    AtCopyable(s1, t, 1);
    var e := s1.log[t.index];
    QuickMade(s1, t, e);
    Onward(s, CommitStep1(t), s1, QuickStep(s1, t.index, e), ApplyPuts(s1, QuickStep(s1, t.index, e)), []);
  }

  // ---------- recovery of one entry ----------

  lemma EntryInPhase(s: Medium, t: Txn, ph: nat)
    requires At(s, t, ph) && ph >= 1
    ensures t.index < |s.log| && ph <= LastPhase(t)
    ensures var e := s.log[t.index]; Logged(e, t) && e.flags == StepFlags(t.quick, ph) && StepOf(e.flags) == ph
  {
    hide Whole;
  }

  /** What is left to do for a valid entry, by its kind and step. */
  lemma EntryStoresAre(s: Medium, i: nat)
    requires i < |s.log| && s.log[i].flags.valid
    ensures var e := s.log[i];
            EntryStores(s, i) ==
              if e.flags.quick then if StepOf(e.flags) == 1 then QuickStep(s, i, e) else []
              else if StepOf(e.flags) == 1 then FromStep1(s, i, e)
              else if StepOf(e.flags) == 2 then FromStep2(s, i, e)
              else if StepOf(e.flags) == 3 then FromStep3(s, i, e)
              else []
  {
    hide FromStep1, FromStep2, FromStep3, QuickStep;
  }
}
