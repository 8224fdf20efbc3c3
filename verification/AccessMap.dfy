/**
  NVMAccessControllerRebuild: the forward map a mount builds from the unmap table.

  A map entry is found by nine bits of the logical address, so the entry of
  logical block l is entry l mod 512.
 */
module AccessMap {
  import opened Nvm
  import opened Permutations
  import opened SwapMedium
  import opened SwapProtocol
  import opened SwapRecovery
  import opened SwapSafety

  const INDEX_MASK: nat := 512

  /** IndexOfBlock of the address of a logical block. */
  function IndexOfBlock(logical: nat): nat { logical % INDEX_MASK }

  function Logicals(unmap: seq<BlockInfo>): (p: seq<nat>)
    ensures |p| == |unmap| && forall b :: 0 <= b < |p| ==> p[b] == unmap[b].unmapBlock
  {
    seq(|unmap|, b requires 0 <= b < |unmap| => unmap[b].unmapBlock)
  }

  /** Block `b` is the last of the first `n` that has this map entry. */
  ghost predicate LastAt(unmap: seq<BlockInfo>, n: nat, index: nat, b: nat)
    requires n <= |unmap|
  {
    b < n && IndexOfBlock(unmap[b].unmapBlock) == index
    && forall c :: b < c < n ==> IndexOfBlock(unmap[c].unmapBlock) != index
  }

  /** Every entry holds the last block that has it. */
  ghost predicate BuiltFrom(entries: seq<nat>, unmap: seq<BlockInfo>, n: nat) {
    n <= |unmap| == |entries|
    && forall index: nat, b: nat :: index < |entries| && LastAt(unmap, n, index, b) ==> entries[index] == b
  }

  method Rebuild(unmap: seq<BlockInfo>) returns (entries: seq<nat>)
    requires Permutation(Logicals(unmap))
    ensures BuiltFrom(entries, unmap, |unmap|)
  {
    var blockNum := |unmap|;
    entries := seq(blockNum, _ => 0);
    for i := 0 to blockNum
      invariant |entries| == blockNum && BuiltFrom(entries, unmap, i)
    {
      assert Logicals(unmap)[i] < blockNum;
      ghost var before := entries;
      entries := entries[IndexOfBlock(unmap[i].unmapBlock) := i];
      BuiltNext(before, unmap, i);
    }
  }

  lemma BuiltNext(entries: seq<nat>, unmap: seq<BlockInfo>, n: nat)
    requires n < |unmap| && BuiltFrom(entries, unmap, n) && unmap[n].unmapBlock < |unmap|
    ensures IndexOfBlock(unmap[n].unmapBlock) < |entries|
    ensures BuiltFrom(entries[IndexOfBlock(unmap[n].unmapBlock) := n], unmap, n + 1)
  {
    var at := IndexOfBlock(unmap[n].unmapBlock);
    var r, m := entries[at := n], n + 1;
    forall index: nat, b: nat | index < |r| && LastAt(unmap, m, index, b) ensures r[index] == b {
      if b < n {
        assert index != at;
        assert LastAt(unmap, n, index, b);
      }
    }
  }

  /** Each physical block is found again from its logical block. */
  ghost predicate FindsAll(entries: seq<nat>, unmap: seq<BlockInfo>)
    requires |entries| == |unmap|
  {
    forall b :: 0 <= b < |unmap| ==>
      IndexOfBlock(unmap[b].unmapBlock) < |entries| && entries[IndexOfBlock(unmap[b].unmapBlock)] == b
  }

  lemma UpTo512Found(entries: seq<nat>, unmap: seq<BlockInfo>, b: nat)
    requires Permutation(Logicals(unmap)) && BuiltFrom(entries, unmap, |unmap|) && b < |unmap| <= INDEX_MASK
    ensures unmap[b].unmapBlock < |entries| && IndexOfBlock(unmap[b].unmapBlock) == unmap[b].unmapBlock
    ensures entries[unmap[b].unmapBlock] == b
  {
    var p := Logicals(unmap);
    assert p[b] < |p|;
    forall c | b < c < |unmap| ensures IndexOfBlock(unmap[c].unmapBlock) != p[b] {
      assert p[c] < |p| && p[c] != p[b];
    }
    assert LastAt(unmap, |unmap|, p[b], b);
  }

  /** The rebuilt map is the inverse of the unmap table exactly when there are at most 512 blocks. */
  lemma InverseUpTo512(entries: seq<nat>, unmap: seq<BlockInfo>)
    requires Permutation(Logicals(unmap)) && BuiltFrom(entries, unmap, |unmap|)
    ensures FindsAll(entries, unmap) <==> |unmap| <= INDEX_MASK
  {
    if |unmap| <= INDEX_MASK {
      forall b | 0 <= b < |unmap|
        ensures IndexOfBlock(unmap[b].unmapBlock) < |entries| && entries[IndexOfBlock(unmap[b].unmapBlock)] == b
      {
        UpTo512Found(entries, unmap, b);
      }
    } else {
      var a := Occurs(Logicals(unmap), 0);
      var b := Occurs(Logicals(unmap), INDEX_MASK);
      assert unmap[a].unmapBlock == 0 && unmap[b].unmapBlock == INDEX_MASK;
      assert IndexOfBlock(unmap[a].unmapBlock) == IndexOfBlock(unmap[b].unmapBlock) == 0;
    }
  }

  // ---------- the page tables of split blocks ----------

  const PAGES_PER_BLOCK: nat := 512

  /** A packed entry of the page unmap table holds six pages, and 86 entries are the group of a logical block. */
  const SLOTS: nat := 6
  const ENTRIES_PER_GROUP: nat := 86

  predicate PackedEntries(table: seq<seq<nat>>) {
    forall i :: 0 <= i < |table| ==> |table[i]| == SLOTS && forall j :: 0 <= j < SLOTS ==> table[i][j] < PAGES_PER_BLOCK
  }

  /** The packed entry PageUnmapTableGet reads for page `i` of a logical block. */
  function EntryOf(logical: nat, i: nat): nat { logical * ENTRIES_PER_GROUP + i / SLOTS }

  /** The one PageUnmapTableBatchGet reads: it moves on by an entry with every page. */
  function BatchEntryOf(logical: nat, i: nat): nat { logical * ENTRIES_PER_GROUP + (i - i % SLOTS) }

  /** PageUnmapTableBatchGet, for a table with as much behind the group as it reads. */
  method PageUnmapTableBatchGet(table: seq<seq<nat>>, logical: nat) returns (infos: seq<nat>)
    requires PackedEntries(table) && logical * ENTRIES_PER_GROUP + PAGES_PER_BLOCK <= |table|
    ensures |infos| == PAGES_PER_BLOCK
    ensures forall i :: 0 <= i < PAGES_PER_BLOCK ==> infos[i] == logical * PAGES_PER_BLOCK + table[BatchEntryOf(logical, i)][i % SLOTS]
  {
    infos := [];
    var addr, j := logical * ENTRIES_PER_GROUP, 0;
    var entry := table[addr];
    for i := 0 to PAGES_PER_BLOCK
      invariant |infos| == i && addr == logical * ENTRIES_PER_GROUP + i && j == i % SLOTS
      invariant j > 0 ==> entry == table[BatchEntryOf(logical, i)]
      invariant forall k :: 0 <= k < i ==> infos[k] == logical * PAGES_PER_BLOCK + table[BatchEntryOf(logical, k)][k % SLOTS]
    {
      if j == 0 {
        entry := table[addr];
      }
      infos := infos + [logical * PAGES_PER_BLOCK + entry[j]];
      addr, j := addr + 1, j + 1;
      if j >= SLOTS {
        j := 0;
      }
    }
  }

  /** So a mount reads the entry of a page that the program wrote only for the first six. */
  lemma BatchReadsRightIff(logical: nat, i: nat)
    ensures BatchEntryOf(logical, i) == EntryOf(logical, i) <==> i < SLOTS
  {
    assert i - i % SLOTS == i / SLOTS * SLOTS;
  }

  /**
    And it uses the whole logical page number for the place in the page table of the
    block, which has 512: each lies inside exactly when the logical block is 0.
   */
  lemma PageTableFitsIff(table: seq<seq<nat>>, logical: nat, infos: seq<nat>)
    requires PackedEntries(table) && logical * ENTRIES_PER_GROUP + PAGES_PER_BLOCK <= |table| && |infos| == PAGES_PER_BLOCK
    requires forall i :: 0 <= i < PAGES_PER_BLOCK ==> infos[i] == logical * PAGES_PER_BLOCK + table[BatchEntryOf(logical, i)][i % SLOTS]
    ensures (forall i :: 0 <= i < PAGES_PER_BLOCK ==> infos[i] < PAGES_PER_BLOCK) <==> logical == 0
    ensures logical > 0 ==> forall i :: 0 <= i < PAGES_PER_BLOCK ==> infos[i] >= PAGES_PER_BLOCK
  {
    forall i | 0 <= i < PAGES_PER_BLOCK ensures logical * PAGES_PER_BLOCK <= infos[i] < (logical + 1) * PAGES_PER_BLOCK {
      assert |table[BatchEntryOf(logical, i)]| == SLOTS;
      assert table[BatchEntryOf(logical, i)][i % SLOTS] < PAGES_PER_BLOCK;
    }
    assert infos[0] >= logical * PAGES_PER_BLOCK;
  }

  // ---------- crash, recovery, rebuild, read ----------

  /** The logical numbers the blocks had, the swaps under way left out. */
  ghost predicate NumbersOk(s: Medium, fs: seq<Flight>) {
    && |s.unmap| == |s.blocks|
    && (forall b {:trigger Before(s, fs, b)} :: 0 <= b < |s.blocks| ==> Before(s, fs, b).0.unmapBlock < |s.blocks|)
    && (forall a, b {:trigger Before(s, fs, a), Before(s, fs, b)} :: 0 <= a < b < |s.blocks| ==>
          Before(s, fs, a).0.unmapBlock != Before(s, fs, b).0.unmapBlock)
  }

  /** Where the unmap entry of `b` was before the swaps. */
  lemma OriginOf(s: Medium, fs: seq<Flight>, r: Medium, b: nat) returns (o: nat, i: nat)
    requires Inv(s, fs) && Outcomes(s, r, fs) && b < |s.blocks|
    ensures o < |s.blocks| == |s.unmap| == |r.unmap| && r.unmap[b] == Before(s, fs, o).0
    ensures (Uninvolved(fs, b) && o == b) ||
            (i < |fs| && (b == fs[i].txn.oldBlock || b == fs[i].txn.newBlock) && o == Moved(fs[i].txn, fs[i].phase, b))
  {
    hide Phase, Idle, Whole;
    i := InvolvedBy(fs, b);
    assert |s.unmap| == |s.blocks| by { ShapeOf(s, fs); }
    if Uninvolved(fs, b) {
      o := b;
      BeforeOther(s, fs, b);
    } else {
      o := Moved(fs[i].txn, fs[i].phase, b);
      BeforeOwn(s, fs, i);
    }
  }

  lemma ShapeOf(s: Medium, fs: seq<Flight>)
    requires Inv(s, fs)
    ensures |s.unmap| == |s.blocks|
  {
    hide Phase, Idle, Apart, Fits;
  }

  lemma OriginsDiffer(s: Medium, fs: seq<Flight>, r: Medium, a: nat, b: nat)
    requires Inv(s, fs) && Outcomes(s, r, fs) && a < b < |s.blocks| && NumbersOk(s, fs)
    ensures |r.unmap| == |s.blocks| && r.unmap[a].unmapBlock != r.unmap[b].unmapBlock && r.unmap[b].unmapBlock < |s.blocks|
    ensures r.unmap[a].unmapBlock < |s.blocks|
  {
    hide Phase, Idle, Whole, Fits, OthersKept;
    var o, i := OriginOf(s, fs, r, a);
    var q, j := OriginOf(s, fs, r, b);
    if !Uninvolved(fs, a) && !Uninvolved(fs, b) && i != j {
      assert Apart(fs[i].txn, fs[j].txn);
    }
    assert o != q;
    if o < q {
      assert Before(s, fs, o).0.unmapBlock != Before(s, fs, q).0.unmapBlock;
    } else {
      assert Before(s, fs, q).0.unmapBlock != Before(s, fs, o).0.unmapBlock;
    }
  }

  lemma RecoveredPermutation(s: Medium, fs: seq<Flight>, r: Medium)
    requires Inv(s, fs) && Outcomes(s, r, fs) && NumbersOk(s, fs)
    ensures Permutation(Logicals(r.unmap)) && |r.unmap| == |s.blocks|
  {
    hide Inv, Outcomes, NumbersOk;
    var p := Logicals(r.unmap);
    assert |r.unmap| == |s.blocks| by { SameCount(s, fs, r); }
    forall i | 0 <= i < |p| ensures p[i] < |p| {
      if i + 1 < |p| {
        OriginsDiffer(s, fs, r, i, i + 1);
      } else if i > 0 {
        OriginsDiffer(s, fs, r, i - 1, i);
      } else {
        OnlyBlock(s, fs, r);
      }
    }
    forall i, j | 0 <= i < j < |p| ensures p[i] != p[j] { OriginsDiffer(s, fs, r, i, j); }
  }

  lemma SameCount(s: Medium, fs: seq<Flight>, r: Medium)
    requires Inv(s, fs) && Outcomes(s, r, fs)
    ensures |r.unmap| == |s.blocks|
  {
    hide Phase, Idle, Apart, Fits;
  }

  lemma OnlyBlock(s: Medium, fs: seq<Flight>, r: Medium)
    requires Inv(s, fs) && Outcomes(s, r, fs) && NumbersOk(s, fs) && |s.blocks| == 1
    ensures |r.unmap| == 1 && r.unmap[0].unmapBlock < 1
  {
    hide Phase, Idle, Whole, Fits, OthersKept;
    var o, i := OriginOf(s, fs, r, 0);
  }

  /**
    From the crash to a read: at most 512 blocks, any swaps in flight, any number
    of mounts that crashed in recovery.  The mount that succeeds rebuilds a map
    through which every busy logical block reads the bytes it had.
   */
  lemma MountReadsOldBytes(s: Medium, fs: seq<Flight>, cuts: seq<nat>, entries: seq<nat>, logical: nat, c: seq<byte>)
    requires Inv(s, fs) && Scanned(fs) && NumbersOk(s, fs) && |s.blocks| <= INDEX_MASK
    requires Holds(s, fs, logical, c)
    requires BuiltFrom(entries, Recovered(Interrupted(s, cuts)).unmap, |Recovered(Interrupted(s, cuts)).unmap|)
    ensures var r := Recovered(Interrupted(s, cuts));
            && IndexOfBlock(logical) < |entries|
            && entries[IndexOfBlock(logical)] < |r.blocks| && r.blocks[entries[IndexOfBlock(logical)]] == c
  {
    hide Inv, NumbersOk, Recovered, Interrupted, Permutation, BuiltFrom, Outcomes;
    var r := Recovered(Interrupted(s, cuts));
    RecoveryFinishesSwaps(s, fs, cuts);
    RecoveredPermutation(s, fs, r);
    BusyBlocksSurvive(s, fs, cuts, logical, c);
    var b :| HeldAt(r, [], b, logical, c);
    UpTo512Found(entries, r.unmap, b);
  }
}
