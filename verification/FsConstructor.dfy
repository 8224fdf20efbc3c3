/**
  Mount-time traversal: starting from the root inode, every inode that a directory
  names is marked in the inode table, whatever cycles and duplicates there are.

  `children[ino]` are the inodes the recovery of `ino` puts into the queue: those
  its directory log names, none for a file.  `stored[ino]` is the inode address in
  the table on the medium.
 */
module FsConstructor {
  import opened Wrappers
  import opened Permutations
  import opened InodeTable

  /** A walk from `a` to `b` along directory entries. */
  ghost predicate Path(children: seq<seq<nat>>, a: nat, p: seq<nat>, b: nat) {
    && p != [] && p[0] == a && p[|p| - 1] == b
    && (forall i :: 0 <= i < |p| ==> p[i] < |children|)
    && forall i {:trigger p[i]} :: 0 <= i < |p| - 1 ==> p[i + 1] in children[p[i]]
  }

  ghost predicate Reachable(children: seq<seq<nat>>, a: nat, b: nat) { exists p :: Path(children, a, p, b) }

  /** Every entry names an inode of the table. */
  ghost predicate Graph(children: seq<seq<nat>>, stored: seq<nat>) {
    && |stored| == |children|
    && forall a, b :: 0 <= a < |children| && b in children[a] ==> b < |children|
  }

  lemma ReachSelf(children: seq<seq<nat>>, a: nat)
    requires a < |children|
    ensures Reachable(children, a, a)
  {
    assert Path(children, a, [a], a);
  }

  lemma ReachMore(children: seq<seq<nat>>, stored: seq<nat>, root: nat, a: nat, b: nat)
    requires Graph(children, stored) && a < |children| && Reachable(children, root, a) && b in children[a]
    ensures b < |children| && Reachable(children, root, b)
  {
    var p :| Path(children, root, p, a);
    var q := p + [b];
    forall i | 0 <= i < |q| - 1 ensures q[i + 1] in children[q[i]] {
      assert q[i] == p[i];
      assert i + 1 < |p| ==> q[i + 1] == p[i + 1];
    }
    assert Path(children, root, q, b);
  }

  ghost predicate Marked(cells: seq<Cell>, k: nat) { k < |cells| && cells[k] != UNMARKED }

  /** The numbers not marked yet. */
  ghost function Unmarked(cells: seq<Cell>): (s: set<nat>)
    ensures forall k: nat :: k in s <==> k < |cells| && cells[k] == UNMARKED
  {
    set k | k in Below(|cells|) && cells[k] == UNMARKED
  }

  /** Nothing but reachable inodes is marked or queued, and what a marked one names is marked or queued. */
  ghost predicate Worklist(children: seq<seq<nat>>, stored: seq<nat>, root: nat, cells: seq<Cell>, queue: seq<nat>) {
    && |cells| == |children| == |stored|
    && (forall k: nat :: Marked(cells, k) ==> Reachable(children, root, k) && cells[k] == Address(stored[k]))
    && (forall k :: k in queue ==> k < |children| && Reachable(children, root, k))
    && (Marked(cells, root) || root in queue)
    && forall a: nat, b: nat :: Marked(cells, a) && b in children[a] ==> Marked(cells, b) || b in queue
  }

  lemma MarkStep(children: seq<seq<nat>>, stored: seq<nat>, root: nat, cells: seq<Cell>, queue: seq<nat>, ino: nat)
    requires Graph(children, stored) && Worklist(children, stored, root, cells, queue) && queue != [] && ino == queue[0]
    requires ino < |cells| && cells[ino] == UNMARKED && stored[ino] != MINUS_ONE
    ensures Worklist(children, stored, root, cells[ino := Address(stored[ino])], queue[1..] + children[ino])
  {
    hide Reachable;
    var after, rest := cells[ino := Address(stored[ino])], queue[1..] + children[ino];
    assert queue == [ino] + queue[1..];
    assert Reachable(children, root, ino) by { assert ino in queue; }
    forall k | k in rest ensures k < |children| && Reachable(children, root, k) {
      if k in children[ino] {
        ReachMore(children, stored, root, ino, k);
      } else {
        assert k in queue;
      }
    }
    forall a: nat, b: nat | Marked(after, a) && b in children[a] ensures Marked(after, b) || b in rest {
      assert a != ino ==> Marked(cells, a);
      assert Marked(cells, b) ==> Marked(after, b);
      assert b in queue ==> b == ino || b in rest;
    }
  }

  /** Marking an inode leaves fewer unmarked ones. */
  lemma FewerUnmarked(cells: seq<Cell>, ino: nat, addr: nat)
    requires ino < |cells| && cells[ino] == UNMARKED && addr != MINUS_ONE
    ensures |Unmarked(cells[ino := Address(addr)])| < |Unmarked(cells)|
  {
    assert Unmarked(cells[ino := Address(addr)]) == Unmarked(cells) - {ino};
  }

  lemma SkipStep(children: seq<seq<nat>>, stored: seq<nat>, root: nat, cells: seq<Cell>, queue: seq<nat>, ino: nat)
    requires Graph(children, stored) && Worklist(children, stored, root, cells, queue) && queue != [] && ino == queue[0]
    requires ino < |cells| && cells[ino] != UNMARKED
    ensures Worklist(children, stored, root, cells, queue[1..])
  {
    hide Reachable, Graph;
    var rest := queue[1..];
    assert queue == [ino] + rest;
    forall k | k in rest ensures k < |children| && Reachable(children, root, k) { assert k in queue; }
    forall a: nat, b: nat | Marked(cells, a) && b in children[a] ensures Marked(cells, b) || b in rest {
      assert b in queue ==> b == ino || b in rest;
    }
  }

  /** Marked inodes are closed under naming: whatever is reachable is marked. */
  lemma {:induction false} ClosedIsAll(children: seq<seq<nat>>, stored: seq<nat>, root: nat, cells: seq<Cell>, p: seq<nat>, b: nat)
    requires Graph(children, stored) && Worklist(children, stored, root, cells, []) && Path(children, root, p, b)
    ensures Marked(cells, b)
    decreases |p|
  {
    if |p| > 1 {
      var q := p[..|p| - 1];
      var a := q[|q| - 1];
      assert p[|p| - 2] == a && p[|p| - 2 + 1] in children[p[|p| - 2]];
      forall i | 0 <= i < |q| - 1 ensures q[i + 1] in children[q[i]] {
        assert p[i] == q[i] && p[i + 1] == q[i + 1];
      }
      assert Path(children, root, q, a);
      ClosedIsAll(children, stored, root, cells, q, a);
    }
  }

  lemma AllMarked(children: seq<seq<nat>>, stored: seq<nat>, root: nat, cells: seq<Cell>)
    requires Graph(children, stored) && Worklist(children, stored, root, cells, [])
    ensures forall k: nat :: Marked(cells, k) <==> Reachable(children, root, k)
  {
    forall k: nat | Reachable(children, root, k) ensures Marked(cells, k) {
      var p :| Path(children, root, p, k);
      ClosedIsAll(children, stored, root, cells, p, k);
    }
  }

  /**
    The addresses of the inodes in use are addresses, so the mark cannot be mistaken:
    an inode gets its address before a directory names it.
   */
  ghost predicate AddressesValid(children: seq<seq<nat>>, stored: seq<nat>, root: nat) {
    |stored| == |children| && forall k :: 0 <= k < |stored| && Reachable(children, root, k) ==> stored[k] != MINUS_ONE
  }

  /**
    FsConstructorRun: terminates on every graph, by the number of unmarked inodes
    and then the length of the queue, and marks exactly the inodes reachable from
    the root, each with its address.
   */
  method FsConstructorRun(table: InodeTable, children: seq<seq<nat>>, ghost stored: seq<nat>, rootIno: nat)
    requires stored == table.stored[..] && table.Valid() && table.free == [] && table.listTable.Length == |children| && rootIno < |children|
    requires Graph(children, stored) && AddressesValid(children, stored, rootIno)
    requires forall k :: 0 <= k < table.listTable.Length ==> table.listTable[k] == UNMARKED
    modifies table.listTable
    ensures table.Valid() && table.free == []
    ensures forall k: nat :: Marked(table.listTable[..], k) <==> Reachable(children, rootIno, k)
    ensures forall k :: 0 <= k < |children| && Reachable(children, rootIno, k) ==> table.listTable[k] == Address(stored[k])
  {
    hide Reachable, Unmarked, Path;
    ReachSelf(children, rootIno);
    var queue := [rootIno];
    while queue != []
      invariant table.Valid() && table.free == []
      invariant Worklist(children, stored, rootIno, table.listTable[..], queue)
      decreases |Unmarked(table.listTable[..])|, |queue|
    {
      ghost var cells := table.listTable[..];
      assert queue[0] in queue;
      var ino := queue[0];
      var hasNotified := table.NotifyInodeInuse(ino);
      if !hasNotified {
        MarkStep(children, stored, rootIno, cells, queue, ino);
        FewerUnmarked(cells, ino, stored[ino]);
        assert table.listTable[..] == cells[ino := Address(stored[ino])];
        queue := queue[1..] + children[ino];
      } else {
        SkipStep(children, stored, rootIno, cells, queue, ino);
        assert table.listTable[..] == cells;
        queue := queue[1..];
      }
    }
    AllMarked(children, stored, rootIno, table.listTable[..]);
    assert forall k :: 0 <= k < |children| && Reachable(children, rootIno, k) ==> Marked(table.listTable[..], k);
  }

  /**
    After the traversal the free list holds exactly the unreachable numbers but 0,
    each once, in order, and every reachable inode is found at its address.
   */
  method Mount(children: seq<seq<nat>>, medium: array<nat>, rootIno: nat) returns (table: InodeTable)
    requires rootIno < |children| && Graph(children, medium[..]) && AddressesValid(children, medium[..], rootIno)
    ensures fresh(table) && table.Valid() && table.stored == medium
    ensures Distinct(table.free) && forall k: nat :: k in table.free <==> 1 <= k < |children| && !Reachable(children, rootIno, k)
    ensures Ascending(table.free) && table.listTable.Length == |children|
    ensures forall k :: 0 <= k < |children| && Reachable(children, rootIno, k) ==> table.listTable[k] == Address(medium[k])
  {
    assert medium.Length == |children|;
    hide Reachable, Graph, AddressesValid;
    table := new InodeTable.Recovery(medium);
    FsConstructorRun(table, children, medium[..], rootIno);
    ghost var cells := table.listTable[..];
    UnmarkedIs(cells, |cells|);
    UnmarkedAscend(cells, |cells|);
    assert forall k: nat :: k < |cells| ==> (Marked(cells, k) <==> cells[k] != UNMARKED);
    table.RecoveryEnd();
  }

  ghost predicate Ascending(s: seq<nat>) { forall i, j :: 0 <= i < j < |s| ==> s[i] < s[j] }

  lemma {:induction false} UnmarkedAscend(cells: seq<Cell>, n: nat)
    requires n <= |cells|
    ensures Ascending(UnmarkedBelow(cells, n))
    decreases n
  {
    if n > 1 {
      UnmarkedAscend(cells, n - 1);
      UnmarkedIs(cells, n - 1);
      var r := UnmarkedBelow(cells, n - 1);
      AscendingMore(r, n - 1) by {
        forall i | 0 <= i < |r| ensures r[i] < n - 1 { assert r[i] in r; }
      }
    }
  }

  lemma AscendingMore(r: seq<nat>, x: nat)
    requires Ascending(r) && forall i :: 0 <= i < |r| ==> r[i] < x
    ensures Ascending(r + [x]) && Ascending(r + [])
  {
    assert r + [] == r;
  }
}
