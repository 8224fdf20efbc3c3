/** The swap transaction and its recovery as the program runs them. */
module SwapTransaction {
  import opened Nvm
  import opened SwapMedium
  import opened SwapProtocol
  import opened SwapRecovery
  import opened SwapSafety
  import opened SwapHistory
  import opened SwapSteps

  /** The forward map is the inverse of the unmap table. */
  ghost predicate Inverse(map_: seq<nat>, unmap: seq<BlockInfo>) {
    && |map_| == |unmap|
    && forall b :: 0 <= b < |unmap| ==> unmap[b].unmapBlock < |map_| && map_[unmap[b].unmapBlock] == b
  }

  lemma InverseSwapped(m: seq<nat>, unmap: seq<BlockInfo>, a: nat, b: nat)
    requires Inverse(m, unmap) && a < |unmap| && b < |unmap| && a != b
    ensures unmap[a].unmapBlock < |m| && unmap[b].unmapBlock < |m| && unmap[a].unmapBlock != unmap[b].unmapBlock
    ensures Inverse(m[unmap[a].unmapBlock := b][unmap[b].unmapBlock := a], unmap[a := unmap[b]][b := unmap[a]])
  {
  }

  class SwapArea {
    var medium: Medium
    var map_: seq<nat>
    var startIndex: nat
    var nextBlock: nat
    ghost var trace: seq<Put>

    constructor (m: Medium, forward: seq<nat>)
      ensures medium == m && map_ == forward && startIndex == 0 && nextBlock == 0 && trace == []
    {
      medium, map_, startIndex, nextBlock, trace := m, forward, 0, 0, [];
    }

    method Store(st: Put)
      modifies this`medium, this`trace
      ensures medium == ApplyPut(old(medium), st) && trace == old(trace) + [st]
    {
      medium := ApplyPut(medium, st);
      trace := trace + [st];
    }

    /** NVMemcpy of one block. */
    method Memcpy(dst: Place, src: Place)
      requires Whole(medium) && Has(medium, dst) && Has(medium, src) && dst != src
      modifies this`medium, this`trace
      ensures trace == old(trace) + Copy(dst, old(Bytes(medium, src)))
      ensures medium == WithBlock(old(medium), dst, old(Bytes(medium, src)))
    {
      hide Whole, ApplyPut, ApplyPuts, CopyFrom;
      ghost var s, content := medium, Bytes(medium, src);
      var o := 0;
      PrefixNone(s, dst, content);
      while o < SIZE_2M
        invariant 0 <= o <= SIZE_2M && |content| == SIZE_2M
        invariant medium == ApplyPuts(s, Copy(dst, content)[..o]) && trace == old(trace) + Copy(dst, content)[..o]
        invariant SameShape(s, medium) && Has(medium, src) && Bytes(medium, src) == content && |Copy(dst, content)| == SIZE_2M
      {
        assert Whole(medium);
        ghost var st := PutByte(dst, o, content[o]);
        ghost var m := medium;
        Store(PutByte(dst, o, Bytes(medium, src)[o]));
        assert Copy(dst, content)[..o + 1] == Copy(dst, content)[..o] + [st];
        ApplyPutsLast(s, Copy(dst, content)[..o], st);
        ApplyPutShape(m, st);
        SourceKept(m, dst, o, content[o], src);
        o := o + 1;
      }
      assert Copy(dst, content)[..o] == Copy(dst, content);
      CopyDone(s, dst, content);
    }

    /** BlockSwapTransactionCommitStep1. */
    method CommitFirst(index: nat, oldBlock: nat, newBlock: nat, slot: nat, oldInfo: BlockInfo, newInfo: BlockInfo, quick: bool)
      modifies this`medium, this`trace
      ensures var sts := [PutBlocks(index, oldBlock, newBlock), PutSwapBlock(index, slot), PutInfos(index, oldInfo, newInfo),
                          PutFlags(index, StepFlags(quick, 1))];
              medium == ApplyPuts(old(medium), sts) && trace == old(trace) + sts
    {
      hide ApplyPut, ApplyPuts;
      ghost var s := medium;
      Store(PutBlocks(index, oldBlock, newBlock));
      Store(PutSwapBlock(index, slot));
      Store(PutInfos(index, oldInfo, newInfo));
      Store(PutFlags(index, Flags(true, quick, true, false, false, false)));
      FourPuts(s, PutBlocks(index, oldBlock, newBlock), PutSwapBlock(index, slot), PutInfos(index, oldInfo, newInfo),
               PutFlags(index, StepFlags(quick, 1)));
    }

    /** BlockSwapTransactionCommitStepx, whose switch falls through. */
    method CommitStep(index: nat, step: nat, quick: bool)
      requires 2 <= step <= 4
      modifies this`medium, this`trace
      ensures medium == ApplyPut(old(medium), PutFlags(index, StepFlags(quick, step)))
      ensures trace == old(trace) + [PutFlags(index, StepFlags(quick, step))] && medium.unmap == old(medium.unmap)
    {
      var flags := Flags(true, quick, true, false, false, false);
      if step == 4 {
        flags := flags.(step4 := true);
      }
      if step >= 3 {
        flags := flags.(step3 := true);
      }
      flags := flags.(step2 := true);
      Store(PutFlags(index, flags));
    }

    /** MapInfoManagerSwapBlock: both unmap entries, and the forward map in memory. */
    method SwapBlock(oldBlock: nat, newBlock: nat, oldInfo: BlockInfo, newInfo: BlockInfo)
      requires oldBlock < |medium.unmap| && newBlock < |medium.unmap| && oldBlock != newBlock
      requires Inverse(map_, medium.unmap) && medium.unmap[oldBlock] == oldInfo && medium.unmap[newBlock] == newInfo
      modifies this`medium, this`trace, this`map_
      ensures medium == ApplyPut(ApplyPut(old(medium), PutUnmap(oldBlock, newInfo)), PutUnmap(newBlock, oldInfo))
      ensures trace == old(trace) + [PutUnmap(oldBlock, newInfo), PutUnmap(newBlock, oldInfo)]
      ensures Inverse(map_, medium.unmap)
    {
      InverseSwapped(map_, medium.unmap, oldBlock, newBlock);
      Store(PutUnmap(oldBlock, newInfo));
      Store(PutUnmap(newBlock, oldInfo));
      var nvmAddr := map_[oldInfo.unmapBlock];
      map_ := map_[oldInfo.unmapBlock := map_[newInfo.unmapBlock]];
      map_ := map_[newInfo.unmapBlock := nvmAddr];
    }

    /** GetSwapBlock: the blocks of the swap table in turn. */
    method GetSwapBlock() returns (slot: nat)
      requires nextBlock < |medium.swap|
      modifies this`nextBlock
      ensures slot == old(nextBlock) < |medium.swap| && nextBlock < |medium.swap|
      ensures nextBlock == if slot + 1 == |medium.swap| then 0 else slot + 1
    {
      slot := nextBlock;
      nextBlock := (nextBlock + 1) % |medium.swap|;
    }

    /** BlockSwapTransactionInit.  The index only ever grows: the wrap assigns a local pointer. */
    method TransactionInit() returns (index: nat)
      modifies this`startIndex
      ensures index == old(startIndex) && startIndex == index + 1
    {
      index := startIndex;
      startIndex := startIndex + 1;
    }

    /**
      DoBlockCompleteSwapTransaction.  `t` puts the arguments together.  The stores
      are those of TxnStores, which the protocol allows one by one (TxnLegal).
     */
    method DoBlockCompleteSwapTransaction(t: Txn)
      requires At(medium, t, 0) && !t.quick && Inverse(map_, medium.unmap)
      modifies this`medium, this`trace, this`map_
      ensures medium == ApplyPuts(old(medium), TxnStores(old(medium), t)) && trace == old(trace) + TxnStores(old(medium), t)
      ensures At(medium, t, 4) && Inverse(map_, medium.unmap)
    {
      hide ApplyPuts, Inverse, Copy, ApplyPut, Whole, CompleteHead, At, TxnStores, Has, Bytes, WithBlock;
      ghost var s0, b0 := medium, trace;
      AtCopyable(s0, t, 0);
      UnmapAtStart(s0, t);
      CompleteMade(s0, t);
      CommitFirst(t.index, t.oldBlock, t.newBlock, t.slot, t.oldInfo, t.newInfo, false);
      ghost var s1 := medium;
      Memcpy(Swap(t.slot), Data(t.oldBlock));
      CommitStep(t.index, 2, false);
      ghost var s2 := medium;
      Memcpy(Data(t.oldBlock), Data(t.newBlock));
      CommitStep(t.index, 3, false);
      assert trace == b0 + CompleteHead(s1, s2, t) by { HeadTrace(b0, s1, s2, t); }
      ghost var s3, b3 := medium, trace;
      Memcpy(Data(t.newBlock), Swap(t.slot));
      CopyKeepsUnmap(s3, Data(t.newBlock), Bytes(s3, Swap(t.slot)));
      SwapBlock(t.oldBlock, t.newBlock, t.oldInfo, t.newInfo);
      CommitStep(t.index, 4, false);
      assert trace == b3 + (Copy(Data(t.newBlock), Bytes(s3, Swap(t.slot))) + SwapUnmap(t.index, s1.log[t.index], StepFlags(false, 4)));
    }

    /** DoBlockQuickSwapTransaction: the new block is not in use, so nothing needs saving. */
    method DoBlockQuickSwapTransaction(t: Txn)
      requires At(medium, t, 0) && t.quick && Inverse(map_, medium.unmap)
      modifies this`medium, this`trace, this`map_
      ensures medium == ApplyPuts(old(medium), TxnStores(old(medium), t)) && trace == old(trace) + TxnStores(old(medium), t)
      ensures At(medium, t, 2) && Inverse(map_, medium.unmap)
    {
      hide ApplyPuts, Inverse, Copy, ApplyPut, Whole, At, TxnStores, Has, Bytes, WithBlock;
      ghost var s0, b0 := medium, trace;
      AtCopyable(s0, t, 0);
      UnmapAtStart(s0, t);
      QuickSwapMade(s0, t);
      CommitFirst(t.index, t.oldBlock, t.newBlock, 0, t.oldInfo, t.newInfo, true);
      ghost var s1, b1 := medium, trace;
      Memcpy(Data(t.newBlock), Data(t.oldBlock));
      CopyKeepsUnmap(s1, Data(t.newBlock), Bytes(s1, Data(t.oldBlock)));
      SwapBlock(t.oldBlock, t.newBlock, t.oldInfo, t.newInfo);
      CommitStep(t.index, 2, true);
      assert trace == b1 + (Copy(Data(t.newBlock), Bytes(s1, Data(t.oldBlock))) + SwapUnmap(t.index, s1.log[t.index], StepFlags(true, 2)));
    }

    /** DoBlockSwapTransaction: the complete form when the new block is in use, the quick form when it is not. */
    method DoBlockSwapTransaction(t: Txn)
      requires At(medium, t, 0) && t.quick == !t.newInfo.busy && Inverse(map_, medium.unmap)
      modifies this`medium, this`trace, this`map_
      ensures medium == ApplyPuts(old(medium), TxnStores(old(medium), t)) && trace == old(trace) + TxnStores(old(medium), t)
      ensures At(medium, t, LastPhase(t)) && Inverse(map_, medium.unmap)
    {
      hide At, Inverse, ApplyPuts, TxnStores;
      if t.newInfo.busy {
        DoBlockCompleteSwapTransaction(t);
      } else {
        DoBlockQuickSwapTransaction(t);
      }
    }

    /** MapInfoManagerRecoverySwapBlock: the forward map is only built later. */
    method RecoverySwapBlock(block1: nat, info1: BlockInfo, block2: nat, info2: BlockInfo)
      modifies this`medium, this`trace
      ensures medium == ApplyPut(ApplyPut(old(medium), PutUnmap(block1, info1)), PutUnmap(block2, info2))
      ensures trace == old(trace) + [PutUnmap(block1, info1), PutUnmap(block2, info2)]
    {
      Store(PutUnmap(block1, info1));
      Store(PutUnmap(block2, info2));
    }

    /** Of the stores `due`, begun on `s`, those of `done` are made and those of `rest` are left. */
    ghost predicate Left(s: Medium, before: seq<Put>, due: seq<Put>, done: seq<Put>, rest: seq<Put>)
      reads this
    {
      medium == ApplyPuts(s, done) && trace == before + done && due == done + rest
    }

    // The three cases of BlockCompleteSwapTransactionRecovery.

    method RecoverStep1(index: nat, info: Info, ghost t: Txn, ghost s: Medium, ghost before: seq<Put>, ghost due: seq<Put>,
                        ghost done: seq<Put>)
      returns (ghost made: seq<Put>)
      requires At(medium, t, 1) && !t.quick && Logged(info, t) && index == t.index
      requires Left(s, before, due, done, FromStep1(medium, index, info))
      modifies this`medium, this`trace
      ensures At(medium, t, 2) && Left(s, before, due, made, FromStep2(medium, index, info))
    {
      hide ApplyPuts, Copy, ApplyPut, Whole, At, Has, Bytes, WithBlock, FromStep1, FromStep2;
      ghost var m := medium;
      AtCopyable(m, t, 1);
      Step1Made(m, t, info);
      Memcpy(Swap(info.swapBlock), Data(info.oldBlock));
      CommitStep(index, 2, false);
      ghost var a := Copy(Swap(info.swapBlock), Bytes(m, Data(info.oldBlock))) + [PutFlags(index, StepFlags(false, 2))];
      Onward(s, done, m, a, medium, FromStep2(medium, index, info));
      made := done + a;
    }

    method RecoverStep2(index: nat, info: Info, ghost t: Txn, ghost s: Medium, ghost before: seq<Put>, ghost due: seq<Put>,
                        ghost done: seq<Put>)
      returns (ghost made: seq<Put>)
      requires At(medium, t, 2) && !t.quick && Logged(info, t) && index == t.index
      requires Left(s, before, due, done, FromStep2(medium, index, info))
      modifies this`medium, this`trace
      ensures At(medium, t, 3) && Left(s, before, due, made, FromStep3(medium, index, info))
    {
      hide ApplyPuts, Copy, ApplyPut, Whole, At, Has, Bytes, WithBlock, FromStep2, FromStep3;
      ghost var m := medium;
      AtCopyable(m, t, 2);
      Step2Made(m, t, info);
      Memcpy(Data(info.oldBlock), Data(info.newBlock));
      CommitStep(index, 3, false);
      ghost var a := Copy(Data(info.oldBlock), Bytes(m, Data(info.newBlock))) + [PutFlags(index, StepFlags(false, 3))];
      Onward(s, done, m, a, medium, FromStep3(medium, index, info));
      made := done + a;
    }

    method RecoverStep3(index: nat, info: Info, ghost t: Txn, ghost s: Medium, ghost before: seq<Put>, ghost due: seq<Put>,
                        ghost done: seq<Put>)
      returns (ghost made: seq<Put>)
      requires At(medium, t, 3) && !t.quick && Logged(info, t) && index == t.index
      requires Left(s, before, due, done, FromStep3(medium, index, info))
      modifies this`medium, this`trace
      ensures At(medium, t, 4) && Left(s, before, due, made, [])
    {
      hide ApplyPuts, Copy, ApplyPut, Whole, At, Has, Bytes, WithBlock, FromStep3;
      ghost var m := medium;
      AtCopyable(m, t, 3);
      Step3Made(m, t, info);
      Memcpy(Data(info.newBlock), Swap(info.swapBlock));
      RecoverySwapBlock(info.oldBlock, info.newInfo, info.newBlock, info.oldInfo);
      CommitStep(index, 4, false);
      ghost var a := FromStep3(m, index, info);
      Onward(s, done, m, a, medium, []);
      made := done + a;
    }

    /** Entry `index` can be recovered: it is finished, or a swap in flight `t` made it. */
    ghost predicate Recoverable(index: nat, info: Info, t: Txn)
      reads this
    {
      && index < |medium.log| && info == medium.log[index] && info.flags.valid
      && (Idle(info) || (At(medium, t, StepOf(info.flags)) && index == t.index))
    }

    /** BlockCompleteSwapTransactionRecovery, whose switch falls through. */
    method CompleteRecovery(index: nat, info: Info, ghost t: Txn)
      requires Recoverable(index, info, t) && !info.flags.quick
      modifies this`medium, this`trace
      ensures medium == ApplyPuts(old(medium), EntryStores(old(medium), index))
      ensures trace == old(trace) + EntryStores(old(medium), index)
    {
      hide ApplyPuts, At, EntryStores, FromStep1, FromStep2, FromStep3, Logged;
      var step := StepOf(info.flags);
      ghost var s, before, due := medium, trace, EntryStores(medium, index);
      ghost var done: seq<Put> := [];
      EntryStoresAre(s, index);
      NothingDone(s);
      if step < 4 {
        EntryInPhase(s, t, step);
      }
      if step <= 1 {
        done := RecoverStep1(index, info, t, s, before, due, done);
      }
      if step <= 2 {
        done := RecoverStep2(index, info, t, s, before, due, done);
      }
      if step <= 3 {
        done := RecoverStep3(index, info, t, s, before, due, done);
      }
      assert done + [] == done;
    }

    /** BlockQuickSwapTransactionRecovery. */
    method QuickRecovery(index: nat, info: Info, ghost t: Txn)
      requires Recoverable(index, info, t) && info.flags.quick
      modifies this`medium, this`trace
      ensures medium == ApplyPuts(old(medium), EntryStores(old(medium), index))
      ensures trace == old(trace) + EntryStores(old(medium), index)
    {
      hide ApplyPuts, Copy, ApplyPut, Whole, At, Has, Bytes, WithBlock, QuickStep, EntryStores;
      var step := StepOf(info.flags);
      ghost var m := medium;
      EntryStoresAre(m, index);
      NothingDone(m);
      if step == 1 {
        EntryInPhase(m, t, 1);
        AtCopyable(m, t, 1);
        QuickMade(m, t, info);
        Memcpy(Data(info.newBlock), Data(info.oldBlock));
        RecoverySwapBlock(info.oldBlock, info.newInfo, info.newBlock, info.oldInfo);
        CommitStep(index, 2, true);
      }
    }

    method RecoverEntry(index: nat, ghost fs: seq<Flight>)
      requires Inv(medium, fs) && index < |medium.log|
      modifies this`medium, this`trace
      ensures medium == ApplyPuts(old(medium), EntryStores(old(medium), index))
      ensures trace == old(trace) + EntryStores(old(medium), index)
    {
      hide ApplyPuts, Inv, At, EntryStores, Phase, See, Fits, Whole, Logged;
      ghost var m := medium;
      ghost var t := AnyTxn(m, fs, index);
      NothingDone(m);
      if Idle(m.log[index]) {
        IdleStores(m, index);
      }
      var info := medium.log[index];
      if info.flags.valid {
        if !info.flags.quick {
          CompleteRecovery(index, info, t);
        } else {
          QuickRecovery(index, info, t);
        }
      }
    }

    /** BlockSwapTransactionLogAreaRecovery. */
    method LogAreaRecovery(ghost fs: seq<Flight>)
      requires Inv(medium, fs) && BLOCK_SWAP_TRANSACTION_INFO_NUM_PER_AREA <= |medium.log|
      modifies this`medium, this`trace
      ensures medium == Recovered(old(medium)) && trace == old(trace) + AreaStores(old(medium), 0)
    {
      hide ApplyPuts, Inv, EntryStores;
      ghost var s, before, due, gs := medium, trace, AreaStores(medium, 0), fs;
      ghost var done: seq<Put> := [];
      NothingDone(s);
      for i := 0 to BLOCK_SWAP_TRANSACTION_INFO_NUM_PER_AREA
        invariant Inv(medium, gs) && BLOCK_SWAP_TRANSACTION_INFO_NUM_PER_AREA <= |medium.log|
        invariant Left(s, before, due, done, AreaStores(medium, i))
      {
        ghost var m := medium;
        ghost var a := EntryStores(m, i);
        RecoverEntry(i, gs);
        gs := EntryCut(m, gs, i, |a|);
        assert a[..|a|] == a;
        LogLength(m, a);
        Onward(s, done, m, a, medium, AreaStores(medium, i + 1));
        done := done + a;
      }
      assert done + [] == done;
    }
  }

  lemma NothingDone(s: Medium)
    ensures ApplyPuts(s, []) == s
  {
  }

  /** The swap a live entry belongs to, for recovery. */
  lemma AnyTxn(s: Medium, fs: seq<Flight>, k: nat) returns (t: Txn)
    requires Inv(s, fs) && k < |s.log|
    ensures Idle(s.log[k]) || (At(s, t, StepOf(s.log[k].flags)) && t.index == k)
  {
    hide At, Inv, Phase, See, Fits, Whole, Idle;
    if !Idle(s.log[k]) {
      var i := OwnerOf(s, fs, k);
      AtFromInv(s, fs, i);
      t := fs[i].txn;
      EntryInPhase(s, t, fs[i].phase);
    } else {
      t := Txn(0, false, 0, 0, 0, [], [], BlockInfo(0, false, false), BlockInfo(0, false, false));
    }
  }

  lemma AtFromInv(s: Medium, fs: seq<Flight>, i: nat)
    requires Inv(s, fs) && i < |fs|
    ensures At(s, fs[i].txn, fs[i].phase)
  {
    hide Phase, Apart, Idle, Whole, Fits, See;
  }

  lemma CopyKeepsUnmap(s: Medium, p: Place, c: seq<byte>)
    requires Has(s, p)
    ensures WithBlock(s, p, c).unmap == s.unmap && WithBlock(s, p, c).log == s.log
  {
  }

  lemma HeadTrace(before: seq<Put>, s1: Medium, s2: Medium, t: Txn)
    requires Copyable(s1, t) && Copyable(s2, t)
    ensures before + CommitStep1(t) + Copy(Swap(t.slot), Bytes(s1, Data(t.oldBlock))) + [PutFlags(t.index, StepFlags(false, 2))]
              + Copy(Data(t.oldBlock), Bytes(s2, Data(t.newBlock))) + [PutFlags(t.index, StepFlags(false, 3))]
            == before + CompleteHead(s1, s2, t)
  {
    hide Copy, CommitStep1;
  }

  lemma PrefixNone(s: Medium, p: Place, content: seq<byte>)
    ensures Copy(p, content)[..0] == [] && ApplyPuts(s, []) == s
  {
  }

  lemma SourceKept(s: Medium, p: Place, o: nat, v: byte, src: Place)
    requires p != src && Has(s, src)
    ensures Has(ApplyPut(s, PutByte(p, o, v)), src) && Bytes(ApplyPut(s, PutByte(p, o, v)), src) == Bytes(s, src)
  {
  }

  lemma FourPuts(s: Medium, a: Put, b: Put, c: Put, d: Put)
    ensures ApplyPuts(s, [a, b, c, d]) == ApplyPut(ApplyPut(ApplyPut(ApplyPut(s, a), b), c), d)
  {
    hide ApplyPut;
    assert [a, b, c, d] == [a] + [b] + [c] + [d];
    ApplyPutsLast(s, [a] + [b] + [c], d);
    ApplyPutsLast(s, [a] + [b], c);
    ApplyPutsLast(s, [a], b);
    ApplyPutsLast(s, [], a);
    assert [] + [a] == [a];
  }
}
