/**
  The inode table in memory.  A cell is either the address of an inode or, for a
  free number, the link of the free list that runs through the table.
 */
module InodeTable {
  import opened Permutations
  import opened Wrappers

  /** The bits of invalid addresses: -1 as an unsigned 64-bit number. */
  const MINUS_ONE: nat := 0xFFFF_FFFF_FFFF_FFFF

  datatype Cell = Address(addr: nat) | Link(next: nat) | Null

  const UNMARKED: Cell := Address(MINUS_ONE)

  /** The numbers from 1 below `n` whose cells are unmarked, in order. */
  function UnmarkedBelow(cells: seq<Cell>, n: nat): (s: seq<nat>)
    requires n <= |cells|
  {
    if n <= 1 then []
    else UnmarkedBelow(cells, n - 1) + if cells[n - 1] == UNMARKED then [n - 1] else []
  }

  lemma {:induction false} UnmarkedIs(cells: seq<Cell>, n: nat)
    requires n <= |cells|
    ensures Distinct(UnmarkedBelow(cells, n))
    ensures forall x: nat :: x in UnmarkedBelow(cells, n) <==> 1 <= x < n && cells[x] == UNMARKED
    decreases n
  {
    if n > 1 {
      UnmarkedIs(cells, n - 1);
      var r := UnmarkedBelow(cells, n - 1);
      forall i | 0 <= i < |r| ensures r[i] < n - 1 { assert r[i] in r; }
    }
  }

  lemma UnmarkedNext(cells: seq<Cell>, n: nat)
    requires 1 <= n < |cells|
    ensures n !in UnmarkedBelow(cells, n)
    ensures forall x: nat :: x in UnmarkedBelow(cells, n) ==> x < n
    ensures UnmarkedBelow(cells, n + 1) == UnmarkedBelow(cells, n) + if cells[n] == UNMARKED then [n] else []
  {
    UnmarkedIs(cells, n);
  }

  class InodeTable {
    const listTable: array<Cell>
    /** The inode addresses on the medium. */
    const stored: array<nat>
    var head: Option<nat>
    var tail: Option<nat>
    /** The free list, first to last. */
    ghost var free: seq<nat>

    /** Head and tail are the ends of the list and the cells between link it up; the last cell may hold anything. */
    ghost predicate Valid()
      reads this, listTable
    {
      && stored.Length == listTable.Length
      && Distinct(free) && (forall k :: 0 <= k < |free| ==> free[k] < listTable.Length)
      && (free == [] ==> head == None && tail == None)
      && (free != [] ==> head == Some(free[0]) && tail == Some(free[|free| - 1]))
      && forall k {:trigger free[k]} :: 0 <= k < |free| - 1 ==> listTable[free[k]] == Link(free[k + 1])
    }

    /** InodeTableRecoveryPreinit. */
    constructor Recovery(medium: array<nat>)
      ensures Valid() && free == [] && fresh(listTable) && listTable.Length == medium.Length && stored == medium
      ensures forall k :: 0 <= k < medium.Length ==> listTable[k] == UNMARKED
    {
      stored := medium;
      listTable := new Cell[medium.Length](_ => UNMARKED);
      head, tail, free := None, None, [];
    }

    /** InodeTableFormat: every number but 0 is free. */
    constructor Format(medium: array<nat>)
      requires medium.Length >= 2
      ensures Valid() && fresh(listTable) && listTable.Length == medium.Length && stored == medium
      ensures |free| == medium.Length - 1 && forall k :: 0 <= k < |free| ==> free[k] == k + 1
    {
      stored := medium;
      var maxInodeNum := medium.Length;
      listTable := new Cell[maxInodeNum](i => if 1 <= i < maxInodeNum - 1 then Link(i + 1) else Null);
      head, tail := Some(1), Some(maxInodeNum - 1);
      free := seq(maxInodeNum - 1, k => k + 1);
    }

    method AppendToList(ino: nat)
      requires Valid() && ino < listTable.Length && ino !in free
      modifies this, listTable
      ensures Valid() && free == old(free) + [ino]
      ensures forall k :: 0 <= k < listTable.Length && k !in old(free) ==> listTable[k] == old(listTable[k])
    {
      hide Distinct;
      ghost var was := free;
      AppendDistinct(was, ino);
      if head == None {
        head, tail := Some(ino), Some(ino);
      } else {
        var last := tail.value;
        OnlyLast(was);
        listTable[last] := Link(ino);
        tail := Some(ino);
      }
      free := free + [ino];
      assert forall k :: 0 <= k < |was| ==> free[k] == was[k];
    }

    /** InodeTableRecoveryEnd: the free list holds each unmarked number but 0, once, in order. */
    method RecoveryEnd()
      requires Valid() && free == []
      modifies this, listTable
      ensures Valid() && free == UnmarkedBelow(old(listTable[..]), listTable.Length)
      ensures forall k :: 0 <= k < listTable.Length && old(listTable[k]) != UNMARKED ==> listTable[k] == old(listTable[k])
    {
      hide Distinct, UnmarkedBelow, Valid;
      ghost var cells := listTable[..];
      NoneBelow(cells);
      var i := 1;
      while i < listTable.Length
        invariant Valid() && 1 <= i && (i <= listTable.Length || listTable.Length == 0)
        invariant i <= listTable.Length ==> free == UnmarkedBelow(cells, i)
        invariant listTable.Length == 0 ==> free == []
        invariant forall k :: i <= k < listTable.Length ==> listTable[k] == cells[k]
        invariant forall k :: 0 <= k < listTable.Length && cells[k] != UNMARKED ==> listTable[k] == cells[k]
      {
        UnmarkedNext(cells, i);
        OnlyUnmarked(cells, i);
        if listTable[i] == UNMARKED {
          AppendToList(i);
        }
        i := i + 1;
      }
    }

    /** InodeTableGetIno: the first of the list, or none. */
    method GetIno() returns (ino: Option<nat>)
      requires Valid()
      modifies this
      ensures Valid() && (ino.None? <==> old(free) == [])
      ensures ino.Some? ==> old(free) == [ino.value] + free
      ensures ino.None? ==> free == []
    {
      match head
      case None => return None;
      case Some(cur) =>
        assert cur == free[0];
        if head == tail {
          assert |free| == 1 by { LastIsFirst(free); }
          head, tail := None, None;
        } else {
          assert |free| > 1;
          assert listTable[free[0]] == Link(free[1]);
          head := Some(listTable[cur].next);
        }
        ghost var was := free;
        free := free[1..];
        assert was == [cur] + free;
        assert forall k :: 0 <= k < |free| ==> free[k] == was[k + 1];
        return Some(cur);
    }

    /** InodeTablePutIno: behind the others; the number 0 is never given back. */
    method PutIno(ino: nat)
      requires Valid() && ino < listTable.Length && ino !in free
      modifies this, listTable
      ensures Valid() && free == if ino == 0 then old(free) else old(free) + [ino]
      ensures forall k :: 0 <= k < listTable.Length && k !in old(free) ==> listTable[k] == old(listTable[k])
    {
      if ino != 0 {
        AppendToList(ino);
      }
    }

    /** InodeTableUpdateInodeAddr, for a number that is in use: the cell, and the medium a mount reads it back from. */
    method UpdateInodeAddr(ino: nat, addr: nat)
      requires Valid() && ino < listTable.Length && ino !in free
      modifies listTable, stored
      ensures Valid() && listTable[ino] == Address(addr) && stored[ino] == addr
      ensures forall k :: 0 <= k < listTable.Length && k != ino ==> listTable[k] == old(listTable[k]) && stored[k] == old(stored[k])
    {
      listTable[ino] := Address(addr);
      stored[ino] := addr;
    }

    /** InodeTableRecoveryNotifyInodeInuse: whether the number was marked before; marked it is afterwards. */
    method NotifyInodeInuse(ino: nat) returns (hasNotified: bool)
      requires Valid() && free == [] && ino < listTable.Length
      modifies listTable
      ensures Valid() && (hasNotified <==> old(listTable[ino]) != UNMARKED)
      ensures listTable[ino] == if hasNotified then old(listTable[ino]) else Address(stored[ino])
      ensures forall k :: 0 <= k < listTable.Length && k != ino ==> listTable[k] == old(listTable[k])
    {
      if listTable[ino] != UNMARKED {
        return true;
      }
      listTable[ino] := Address(stored[ino]);
      return false;
    }
  }

  lemma OnlyUnmarked(cells: seq<Cell>, n: nat)
    requires n <= |cells|
    ensures forall k :: 0 <= k < |cells| && cells[k] != UNMARKED ==> k !in UnmarkedBelow(cells, n)
  {
    UnmarkedIs(cells, n);
  }

  lemma NoneBelow(cells: seq<Cell>)
    ensures UnmarkedBelow(cells, 0) == [] && (cells != [] ==> UnmarkedBelow(cells, 1) == [])
  {
  }

  lemma AppendDistinct(s: seq<nat>, x: nat)
    requires Distinct(s) && x !in s
    ensures Distinct(s + [x])
  {
  }

  /** The last element is nowhere else in the list. */
  lemma OnlyLast(s: seq<nat>)
    requires Distinct(s) && s != []
    ensures forall k :: 0 <= k < |s| - 1 ==> s[k] != s[|s| - 1]
  {
  }

  lemma LastIsFirst(s: seq<nat>)
    requires Distinct(s) && s != [] && s[0] == s[|s| - 1]
    ensures |s| == 1
  {
  }
}
