/**
  Recovery of the swap log area: what it stores, and what is on the medium when
  it ran to its end, after any number of attempts that did not.
 */
module SwapRecovery {
  import opened Nvm
  import opened SwapMedium
  import opened SwapProtocol

  function BytesOrNone(s: Medium, p: Place): seq<byte> { if Has(s, p) then Bytes(s, p) else [] }

  // ---------- the stores of recovery ----------

  /** Both unmap entries, then the last step commit. */
  function SwapUnmap(i: nat, e: Info, last: Flags): seq<Put> {
    [PutUnmap(e.oldBlock, e.newInfo), PutUnmap(e.newBlock, e.oldInfo), PutFlags(i, last)]
  }

  function FromStep3(s: Medium, i: nat, e: Info): seq<Put> {
    Copy(Data(e.newBlock), BytesOrNone(s, Swap(e.swapBlock))) + SwapUnmap(i, e, StepFlags(false, 4))
  }

  function Step2(s: Medium, i: nat, e: Info): seq<Put> {
    Copy(Data(e.oldBlock), BytesOrNone(s, Data(e.newBlock))) + [PutFlags(i, StepFlags(false, 3))]
  }

  function FromStep2(s: Medium, i: nat, e: Info): seq<Put> {
    Step2(s, i, e) + FromStep3(ApplyPuts(s, Step2(s, i, e)), i, e)
  }

  function Step1(s: Medium, i: nat, e: Info): seq<Put> {
    Copy(Swap(e.swapBlock), BytesOrNone(s, Data(e.oldBlock))) + [PutFlags(i, StepFlags(false, 2))]
  }

  function FromStep1(s: Medium, i: nat, e: Info): seq<Put> {
    Step1(s, i, e) + FromStep2(ApplyPuts(s, Step1(s, i, e)), i, e)
  }

  function QuickStep(s: Medium, i: nat, e: Info): seq<Put> {
    Copy(Data(e.newBlock), BytesOrNone(s, Data(e.oldBlock))) + SwapUnmap(i, e, StepFlags(true, 2))
  }

  /** What recovery stores for entry `i`: the steps that are not committed. */
  function EntryStores(s: Medium, i: nat): seq<Put>
    requires i < |s.log|
  {
    var e := s.log[i];
    if !e.flags.valid then []
    else if e.flags.quick then
      if StepOf(e.flags) == 1 then QuickStep(s, i, e) else []
    else
      match StepOf(e.flags)
      case 1 => FromStep1(s, i, e)
      case 2 => FromStep2(s, i, e)
      case 3 => FromStep3(s, i, e)
      case _ => []
  }

  /** BlockSwapTransactionLogAreaRecovery from entry `i` on; it looks at the first 64 entries. */
  function AreaStores(s: Medium, i: nat): seq<Put>
    decreases BLOCK_SWAP_TRANSACTION_INFO_NUM_PER_AREA - i
  {
    if i >= BLOCK_SWAP_TRANSACTION_INFO_NUM_PER_AREA || i >= |s.log| then []
    else EntryStores(s, i) + AreaStores(ApplyPuts(s, EntryStores(s, i)), i + 1)
  }

  function Recovered(s: Medium): Medium { ApplyPuts(s, AreaStores(s, 0)) }

  /** Mounts that crashed inside recovery, the first one after `cuts[0]` stores. */
  function Interrupted(s: Medium, cuts: seq<nat>): Medium
    decreases |cuts|
  {
    if cuts == [] then s
    else
      var sts := AreaStores(s, 0);
      Interrupted(ApplyPuts(s, if cuts[0] <= |sts| then sts[..cuts[0]] else sts), cuts[1..])
  }

  // ---------- they are stores the protocol allows ----------

  function PhaseAfter(ph: nat, sts: seq<Put>): nat
    decreases |sts|
  {
    if sts == [] then ph else PhaseAfter(NextPhase(ph, sts[0]), sts[1..])
  }

  ghost predicate Legal(s: Medium, t: Txn, ph: nat, sts: seq<Put>)
    decreases |sts|
  {
    sts == [] ||
    (Fits(s, t) && Allowed(See(s, t), t, ph, sts[0]) && Legal(ApplyPut(s, sts[0]), t, NextPhase(ph, sts[0]), sts[1..]))
  }

  lemma {:induction false} LegalConcat(s: Medium, t: Txn, ph: nat, a: seq<Put>, b: seq<Put>)
    requires Legal(s, t, ph, a) && Legal(ApplyPuts(s, a), t, PhaseAfter(ph, a), b)
    ensures Legal(s, t, ph, a + b) && PhaseAfter(ph, a + b) == PhaseAfter(PhaseAfter(ph, a), b)
    decreases |a|
  {
    hide Fits, Allowed, ApplyPut, NextPhase, See;
    if a == [] {
      assert a + b == b;
    } else {
      assert (a + b)[0] == a[0] && (a + b)[1..] == a[1..] + b;
      LegalConcat(ApplyPut(s, a[0]), t, NextPhase(ph, a[0]), a[1..], b);
    }
  }

  lemma {:induction false} LegalCut(s: Medium, t: Txn, ph: nat, sts: seq<Put>, k: nat)
    requires Legal(s, t, ph, sts) && k <= |sts|
    ensures Legal(s, t, ph, sts[..k])
    decreases k
  {
    hide Fits, Allowed, ApplyPut, NextPhase, See;
    if k > 0 {
      LegalCut(ApplyPut(s, sts[0]), t, NextPhase(ph, sts[0]), sts[1..], k - 1);
      assert sts[..k][0] == sts[0] && sts[..k][1..] == sts[1..][..k - 1];
    }
  }

  lemma {:induction false} PhaseGrows(ph: nat, sts: seq<Put>)
    ensures PhaseAfter(ph, sts) >= ph
    decreases |sts|
  {
    if sts != [] {
      PhaseGrows(NextPhase(ph, sts[0]), sts[1..]);
    }
  }

  lemma {:induction false} LegalKeepsPhase(s: Medium, t: Txn, ph: nat, sts: seq<Put>)
    requires Fits(s, t) && Phase(See(s, t), t, ph) && Legal(s, t, ph, sts)
    ensures Fits(ApplyPuts(s, sts), t) && Phase(See(ApplyPuts(s, sts), t), t, PhaseAfter(ph, sts))
    decreases |sts|
  {
    hide Fits, Allowed, ApplyPut, NextPhase, See, Phase;
    if sts != [] {
      AllowedKeepsPhase(s, t, ph, sts[0]);
      LegalKeepsPhase(ApplyPut(s, sts[0]), t, NextPhase(ph, sts[0]), sts[1..]);
    }
  }

  /** The block that is being overwritten in a phase. */
  predicate Target(t: Txn, ph: nat, p: Place) {
    if t.quick then ph == 1 && p == Data(t.newBlock)
    else
      match ph
      case 1 => p == Swap(t.slot)
      case 2 => p == Data(t.oldBlock)
      case 3 => p == Data(t.newBlock)
      case _ => false
  }

  lemma TargetAllowed(v: View, t: Txn, ph: nat, p: Place, o: nat, x: byte)
    requires Target(t, ph, p)
    ensures Allowed(v, t, ph, PutByte(p, o, x)) && NextPhase(ph, PutByte(p, o, x)) == ph
  {
  }

  lemma {:induction false} CopyLegal(s: Medium, t: Txn, ph: nat, p: Place, content: seq<byte>, o: nat)
    requires Fits(s, t) && Phase(See(s, t), t, ph) && Target(t, ph, p) && o <= |content|
    ensures Legal(s, t, ph, CopyFrom(p, content, o)) && PhaseAfter(ph, CopyFrom(p, content, o)) == ph
    decreases |content| - o
  {
    hide Fits, Allowed, ApplyPut, NextPhase, See, Phase, Target;
    if o < |content| {
      var st := PutByte(p, o, content[o]);
      TargetAllowed(See(s, t), t, ph, p, o, content[o]);
      AllowedKeepsPhase(s, t, ph, st);
      CopyLegal(ApplyPut(s, st), t, ph, p, content, o + 1);
      assert CopyFrom(p, content, o)[1..] == CopyFrom(p, content, o + 1);
    }
  }

  lemma Single(s: Medium, t: Txn, ph: nat, st: Put)
    requires Fits(s, t) && Allowed(See(s, t), t, ph, st)
    ensures Legal(s, t, ph, [st]) && PhaseAfter(ph, [st]) == NextPhase(ph, st) && ApplyPuts(s, [st]) == ApplyPut(s, st)
  {
    hide Fits, Allowed, ApplyPut, See;
    assert [st][1..] == [];
  }

  /** A copy and what follows it. */
  lemma CopyThen(s: Medium, t: Txn, ph: nat, p: Place, content: seq<byte>, rest: seq<Put>)
    requires Whole(s) && Fits(s, t) && Phase(See(s, t), t, ph) && Target(t, ph, p) && |content| == SIZE_2M && Has(s, p)
    requires Legal(WithBlock(s, p, content), t, ph, rest)
    ensures Legal(s, t, ph, Copy(p, content) + rest) && PhaseAfter(ph, Copy(p, content) + rest) == PhaseAfter(ph, rest)
    ensures ApplyPuts(s, Copy(p, content) + rest) == ApplyPuts(WithBlock(s, p, content), rest)
  {
    hide Fits, See, Phase, Target, Whole, Has;
    CopyLegal(s, t, ph, p, content, 0);
    CopyDone(s, p, content);
    LegalConcat(s, t, ph, Copy(p, content), rest);
    ApplyPutsConcat(s, Copy(p, content), rest);
  }

  /** With the data in place, the unmap entries and the last commit are allowed. */
  lemma SwapUnmapLegal(s: Medium, t: Txn, ph: nat, e: Info)
    requires Fits(s, t) && Phase(See(s, t), t, ph) && ph == LastPhase(t) - 1 && Logged(e, t)
    requires See(s, t).newBytes == t.oldData
    ensures Legal(s, t, ph, SwapUnmap(t.index, e, StepFlags(t.quick, ph + 1)))
    ensures PhaseAfter(ph, SwapUnmap(t.index, e, StepFlags(t.quick, ph + 1))) == LastPhase(t)
  {
    var a, b, c := PutUnmap(e.oldBlock, e.newInfo), PutUnmap(e.newBlock, e.oldInfo), PutFlags(t.index, StepFlags(t.quick, ph + 1));
    var s1 := ApplyPut(s, a);
    var s2 := ApplyPut(s1, b);
    assert Legal(s2, t, ph, [c]) && PhaseAfter(ph, [c]) == ph + 1 by { Single(s2, t, ph, c); }
    assert [b, c][1..] == [c] && [a, b, c][1..] == [b, c];
  }

  lemma FromStep3Legal(s: Medium, t: Txn, e: Info)
    requires Whole(s) && Fits(s, t) && Phase(See(s, t), t, 3) && !t.quick && Logged(e, t)
    ensures Legal(s, t, 3, FromStep3(s, t.index, e)) && PhaseAfter(3, FromStep3(s, t.index, e)) == 4
  {
    hide Legal, PhaseAfter, SwapUnmap;
    var p := Data(t.newBlock);
    var r := WithBlock(s, p, t.oldData);
    assert BytesOrNone(s, Swap(t.slot)) == t.oldData && |t.oldData| == SIZE_2M;
    assert Fits(r, t) && Phase(See(r, t), t, 3) && See(r, t).newBytes == t.oldData;
    SwapUnmapLegal(r, t, 3, e);
    CopyThen(s, t, 3, p, t.oldData, SwapUnmap(t.index, e, StepFlags(false, 4)));
  }

  lemma Step2Legal(s: Medium, t: Txn, e: Info)
    requires Whole(s) && Fits(s, t) && Phase(See(s, t), t, 2) && !t.quick && Logged(e, t)
    ensures Legal(s, t, 2, Step2(s, t.index, e)) && PhaseAfter(2, Step2(s, t.index, e)) == 3
  {
    hide Legal, PhaseAfter;
    var p, c := Data(t.oldBlock), PutFlags(t.index, StepFlags(false, 3));
    var r := WithBlock(s, p, t.newData);
    assert BytesOrNone(s, Data(t.newBlock)) == t.newData && |t.newData| == SIZE_2M;
    assert Fits(r, t) && Allowed(See(r, t), t, 2, c);
    Single(r, t, 2, c);
    CopyThen(s, t, 2, p, t.newData, [c]);
  }

  lemma Step1Legal(s: Medium, t: Txn, e: Info)
    requires Whole(s) && Fits(s, t) && Phase(See(s, t), t, 1) && !t.quick && Logged(e, t)
    ensures Legal(s, t, 1, Step1(s, t.index, e)) && PhaseAfter(1, Step1(s, t.index, e)) == 2
  {
    hide Legal, PhaseAfter;
    var p, c := Swap(t.slot), PutFlags(t.index, StepFlags(false, 2));
    var r := WithBlock(s, p, t.oldData);
    assert BytesOrNone(s, Data(t.oldBlock)) == t.oldData && |t.oldData| == SIZE_2M;
    assert Fits(r, t) && Allowed(See(r, t), t, 1, c);
    Single(r, t, 1, c);
    CopyThen(s, t, 1, p, t.oldData, [c]);
  }

  lemma QuickLegal(s: Medium, t: Txn, e: Info)
    requires Whole(s) && Fits(s, t) && Phase(See(s, t), t, 1) && t.quick && Logged(e, t)
    ensures Legal(s, t, 1, QuickStep(s, t.index, e)) && PhaseAfter(1, QuickStep(s, t.index, e)) == 2
  {
    hide Legal, PhaseAfter, SwapUnmap;
    var p := Data(t.newBlock);
    var r := WithBlock(s, p, t.oldData);
    assert BytesOrNone(s, Data(t.oldBlock)) == t.oldData && |t.oldData| == SIZE_2M;
    assert Fits(r, t) && Phase(See(r, t), t, 1) && See(r, t).newBytes == t.oldData;
    SwapUnmapLegal(r, t, 1, e);
    CopyThen(s, t, 1, p, t.oldData, SwapUnmap(t.index, e, StepFlags(true, 2)));
  }

  lemma FromStep2Legal(s: Medium, t: Txn, e: Info)
    requires Whole(s) && Fits(s, t) && Phase(See(s, t), t, 2) && !t.quick && Logged(e, t)
    ensures Legal(s, t, 2, FromStep2(s, t.index, e)) && PhaseAfter(2, FromStep2(s, t.index, e)) == 4
  {
    hide Legal, PhaseAfter, Phase, Fits, See, Whole, Logged, Step2, FromStep3;
    var a := Step2(s, t.index, e);
    Step2Legal(s, t, e);
    LegalKeepsPhase(s, t, 2, a);
    ApplyPutsShape(s, a);
    FromStep3Legal(ApplyPuts(s, a), t, e);
    LegalConcat(s, t, 2, a, FromStep3(ApplyPuts(s, a), t.index, e));
  }

  lemma FromStep1Legal(s: Medium, t: Txn, e: Info)
    requires Whole(s) && Fits(s, t) && Phase(See(s, t), t, 1) && !t.quick && Logged(e, t)
    ensures Legal(s, t, 1, FromStep1(s, t.index, e)) && PhaseAfter(1, FromStep1(s, t.index, e)) == 4
  {
    hide Legal, PhaseAfter, Phase, Fits, See, Whole, Logged, Step1, FromStep2;
    var a := Step1(s, t.index, e);
    Step1Legal(s, t, e);
    LegalKeepsPhase(s, t, 1, a);
    ApplyPutsShape(s, a);
    FromStep2Legal(ApplyPuts(s, a), t, e);
    LegalConcat(s, t, 1, a, FromStep2(ApplyPuts(s, a), t.index, e));
  }

  /** From any committed step, the stores recovery makes for the entry lead to the last. */
  lemma EntryLegal(s: Medium, t: Txn, ph: nat)
    requires Whole(s) && Fits(s, t) && Phase(See(s, t), t, ph) && 1 <= ph <= LastPhase(t)
    ensures Legal(s, t, ph, EntryStores(s, t.index)) && PhaseAfter(ph, EntryStores(s, t.index)) == LastPhase(t)
  {
    hide Whole, Legal, PhaseAfter, FromStep1, FromStep2, FromStep3, QuickStep;
    var e := s.log[t.index];
    assert Logged(e, t) && e.flags == StepFlags(t.quick, ph);
    if ph == LastPhase(t) {
      NothingLegal(s, t, ph);
    } else if t.quick {
      QuickLegal(s, t, e);
    } else if ph == 1 {
      FromStep1Legal(s, t, e);
    } else if ph == 2 {
      FromStep2Legal(s, t, e);
    } else {
      FromStep3Legal(s, t, e);
    }
  }

  lemma NothingLegal(s: Medium, t: Txn, ph: nat)
    ensures Legal(s, t, ph, []) && PhaseAfter(ph, []) == ph
  {
  }

  lemma IdleStores(s: Medium, i: nat)
    requires i < |s.log| && Idle(s.log[i])
    ensures EntryStores(s, i) == []
  {
    hide FromStep1, FromStep2, FromStep3, QuickStep;
  }
}
