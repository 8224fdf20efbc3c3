/**
  The medium a block swap works on, store by store.

  A store changes one byte of a block, one entry of the unmap table, or one
  aligned word of a transaction entry.  Stores reach the medium in program
  order; a crash keeps a prefix of them.  Blocks are told apart by number;
  AddressesDistinct says when their device addresses are different too.
 */
module SwapMedium {
  import opened Nvm

  const SIZE_2M: nat := 0x20_0000
  const BLOCK_SWAP_TRANSACTION_INFO_NUM_PER_AREA: nat := 64
  const BLOCK_SWAP_TRANSACTION_LOG_AREA_SIZE: nat := 0x20_0000

  datatype BlockInfo = BlockInfo(unmapBlock: nat, busy: bool, fineGrain: bool)

  datatype Flags = Flags(valid: bool, quick: bool, step1: bool, step2: bool, step3: bool, step4: bool)

  datatype Info = Info(oldBlock: nat, newBlock: nat, swapBlock: nat, oldInfo: BlockInfo, newInfo: BlockInfo, flags: Flags)

  /** A block of the data area, or one of the swap table. */
  datatype Place = Data(block: nat) | Swap(slot: nat)

  datatype Medium = Medium(blocks: seq<seq<byte>>, swap: seq<seq<byte>>, unmap: seq<BlockInfo>, log: seq<Info>)

  datatype Put =
    | PutByte(place: Place, offset: nat, value: byte)
    | PutUnmap(block: nat, info: BlockInfo)
    | PutBlocks(index: nat, oldBlock: nat, newBlock: nat)
    | PutSwapBlock(index: nat, swapBlock: nat)
    | PutInfos(index: nat, oldInfo: BlockInfo, newInfo: BlockInfo)
    | PutFlags(index: nat, flags: Flags)

  predicate Whole(s: Medium) {
    && |s.unmap| == |s.blocks|
    && (forall b :: 0 <= b < |s.blocks| ==> |s.blocks[b]| == SIZE_2M)
    && (forall k :: 0 <= k < |s.swap| ==> |s.swap[k]| == SIZE_2M)
  }

  predicate Has(s: Medium, p: Place) {
    match p
    case Data(b) => b < |s.blocks|
    case Swap(k) => k < |s.swap|
  }

  function Bytes(s: Medium, p: Place): (c: seq<byte>)
    requires Has(s, p)
    ensures Whole(s) ==> |c| == SIZE_2M
  {
    match p
    case Data(b) => s.blocks[b]
    case Swap(k) => s.swap[k]
  }

  function SetByte(c: seq<byte>, o: nat, v: byte): seq<byte>
    requires o < |c|
  {
    c[o := v]
  }

  /** One store; one that misses the medium changes nothing. */
  function ApplyPut(s: Medium, st: Put): Medium {
    match st
    case PutByte(Data(b), o, v) =>
      if b < |s.blocks| && o < |s.blocks[b]| then s.(blocks := s.blocks[b := SetByte(s.blocks[b], o, v)]) else s
    case PutByte(Swap(k), o, v) =>
      if k < |s.swap| && o < |s.swap[k]| then s.(swap := s.swap[k := SetByte(s.swap[k], o, v)]) else s
    case PutUnmap(b, info) => if b < |s.unmap| then s.(unmap := s.unmap[b := info]) else s
    case PutBlocks(i, o, n) => if i < |s.log| then s.(log := s.log[i := s.log[i].(oldBlock := o, newBlock := n)]) else s
    case PutSwapBlock(i, k) => if i < |s.log| then s.(log := s.log[i := s.log[i].(swapBlock := k)]) else s
    case PutInfos(i, o, n) => if i < |s.log| then s.(log := s.log[i := s.log[i].(oldInfo := o, newInfo := n)]) else s
    case PutFlags(i, f) => if i < |s.log| then s.(log := s.log[i := s.log[i].(flags := f)]) else s
  }

  function ApplyPuts(s: Medium, sts: seq<Put>): Medium
    decreases |sts|
  {
    if sts == [] then s else ApplyPuts(ApplyPut(s, sts[0]), sts[1..])
  }

  lemma {:induction false} ApplyPutsConcat(s: Medium, a: seq<Put>, b: seq<Put>)
    ensures ApplyPuts(s, a + b) == ApplyPuts(ApplyPuts(s, a), b)
    decreases |a|
  {
    hide ApplyPut;
    if a == [] {
      assert a + b == b;
    } else {
      assert (a + b)[1..] == a[1..] + b;
      ApplyPutsConcat(ApplyPut(s, a[0]), a[1..], b);
    }
  }

  lemma ApplyPutsLast(s: Medium, a: seq<Put>, st: Put)
    ensures ApplyPuts(s, a + [st]) == ApplyPut(ApplyPuts(s, a), st)
  {
    hide ApplyPut;
    ApplyPutsConcat(s, a, [st]);
    assert [st][1..] == [];
  }

  /** Stores keep the sizes of everything. */
  ghost predicate SameShape(s: Medium, r: Medium) {
    && Whole(r) && |r.blocks| == |s.blocks| && |r.swap| == |s.swap| && |r.log| == |s.log|
  }

  lemma ApplyPutShape(s: Medium, st: Put)
    requires Whole(s)
    ensures SameShape(s, ApplyPut(s, st))
  {
  }

  lemma {:induction false} ApplyPutsShape(s: Medium, sts: seq<Put>)
    requires Whole(s)
    ensures SameShape(s, ApplyPuts(s, sts))
    decreases |sts|
  {
    hide ApplyPut, Whole;
    if sts != [] {
      ApplyPutShape(s, sts[0]);
      ApplyPutsShape(ApplyPut(s, sts[0]), sts[1..]);
    }
  }

  // ---------- the log area ----------

  /** BlockSwapTransactionInfo, packed: two block numbers, an address, two block infos, the flags. */
  const INFO_SIZE: nat := 4 + 4 + 8 + 4 + 4 + 8

  /**
    The layout gives the log area 2 MiB, of which recovery looks at the first 64
    entries: those from 64 to 65535 lie in the rest of it, and only later ones in what
    follows.
   */
  lemma EntryInAreaIff(index: nat)
    ensures (index + 1) * INFO_SIZE <= BLOCK_SWAP_TRANSACTION_LOG_AREA_SIZE <==> index < 65536
  {
  }

  // ---------- copying a block ----------

  /** NVMemcpy to `p`: one store a byte, from offset `o` on. */
  function CopyFrom(p: Place, content: seq<byte>, o: nat): (sts: seq<Put>)
    requires o <= |content|
    ensures |sts| == |content| - o
    ensures forall i :: 0 <= i < |sts| ==> sts[i] == PutByte(p, o + i, content[o + i])
    decreases |content| - o
  {
    if o == |content| then [] else [PutByte(p, o, content[o])] + CopyFrom(p, content, o + 1)
  }

  function Copy(p: Place, content: seq<byte>): seq<Put> { CopyFrom(p, content, 0) }

  /** The medium with block `p` replaced. */
  ghost function WithBlock(s: Medium, p: Place, c: seq<byte>): Medium
    requires Has(s, p)
  {
    match p
    case Data(b) => s.(blocks := s.blocks[b := c])
    case Swap(k) => s.(swap := s.swap[k := c])
  }

  lemma {:induction false} CopyFromDone(s: Medium, p: Place, content: seq<byte>, o: nat)
    requires Whole(s) && Has(s, p) && |content| == SIZE_2M && o <= SIZE_2M
    requires forall i :: 0 <= i < o ==> Bytes(s, p)[i] == content[i]
    ensures ApplyPuts(s, CopyFrom(p, content, o)) == WithBlock(s, p, content)
    decreases SIZE_2M - o
  {
    if o == SIZE_2M {
      assert Bytes(s, p) == content;
    } else {
      var r := ApplyPut(s, PutByte(p, o, content[o]));
      ApplyPutShape(s, PutByte(p, o, content[o]));
      CopyFromDone(r, p, content, o + 1);
      assert WithBlock(r, p, content) == WithBlock(s, p, content);
      assert CopyFrom(p, content, o)[1..] == CopyFrom(p, content, o + 1);
    }
  }

  /** A finished copy leaves exactly the copied bytes, and nothing else changed. */
  lemma CopyDone(s: Medium, p: Place, content: seq<byte>)
    requires Whole(s) && Has(s, p) && |content| == SIZE_2M
    ensures ApplyPuts(s, Copy(p, content)) == WithBlock(s, p, content)
  {
    CopyFromDone(s, p, content, 0);
  }

  // ---------- block numbers and device addresses ----------

  /** block_to_nvm_addr: the block number is a 32-bit unsigned integer when it is shifted. */
  function BlockToNvmAddr(block: nat, dataStart: nat): nat { block * SIZE_2M % 0x1_0000_0000 + dataStart }

  /** Different blocks have different addresses exactly up to 2048 blocks, four gigabytes of data area. */
  lemma AddressesDistinct(blockNum: nat, dataStart: nat)
    ensures (forall a, b :: 0 <= a < b < blockNum ==> BlockToNvmAddr(a, dataStart) != BlockToNvmAddr(b, dataStart)) <==> blockNum <= 2048
  {
    if blockNum > 2048 {
      assert BlockToNvmAddr(0, dataStart) == BlockToNvmAddr(2048, dataStart);
    } else {
      forall a, b | 0 <= a < b < blockNum ensures BlockToNvmAddr(a, dataStart) != BlockToNvmAddr(b, dataStart) {
        assert a * SIZE_2M < b * SIZE_2M < 0x1_0000_0000;
      }
    }
  }
}
