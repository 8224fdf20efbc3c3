/**
  The extent tree of a file.  The red-black trees are ordered sequences; a node
  pointer is the position of the node, |extents| standing for NULL.
 */
module FileExtentTree {
  import opened Wrappers
  import opened FileExtents

  /** A device area the file owns. */
  datatype Space = Space(start: nat, size: nat) {
    predicate Holds(addr: nat) { start <= addr < start + size }
  }

  ghost predicate Backed(x: Extent, spaces: seq<Space>) {
    exists k :: 0 <= k < |spaces| && spaces[k].start <= x.start && x.start + x.size <= spaces[k].start + spaces[k].size
  }

  ghost predicate AllBacked(es: seq<Extent>, spaces: seq<Space>) {
    forall i :: 0 <= i < |es| ==> Backed(es[i], spaces)
  }

  /** What ASSERT(space) in InsertExtentNode asks of a debug build: the device address lies in a space of the file. */
  ghost predicate InSpace(addr: nat, spaces: seq<Space>) {
    exists k :: 0 <= k < |spaces| && spaces[k].Holds(addr)
  }

  lemma BackedPart(x: Extent, spaces: seq<Space>, part: Extent)
    requires Backed(x, spaces) && part.PartOf(x)
    ensures Backed(part, spaces) && (part.size > 0 ==> InSpace(part.start, spaces))
  {
    var k :| 0 <= k < |spaces| && spaces[k].start <= x.start && x.start + x.size <= spaces[k].start + spaces[k].size;
    assert part.start + part.size <= x.start + x.size;
    assert part.size > 0 ==> spaces[k].Holds(part.start);
  }

  lemma InsertBetween(a: seq<Extent>, b: seq<Extent>, x: Extent)
    requires forall i :: 0 <= i < |a| ==> a[i].fileStart <= x.fileStart
    requires forall i :: 0 <= i < |b| ==> b[i].fileStart > x.fileStart
    ensures Insert(a + b, x) == a + [x] + b
  {
    InsertPosSplit(a, b, x.fileStart);
  }

  /** A node from inside `node` goes where `node` was, or right behind what is left of it. */
  lemma InsertInside(before: seq<Extent>, after: seq<Extent>, node: Extent, x: Extent)
    requires Below(before, node.fileStart) && Above(after, node.End()) && node.fileStart <= x.fileStart < node.End()
    requires forall i :: 0 <= i < |before| ==> before[i].size > 0
    ensures Insert(before + after, x) == before + [x] + after
  {
    hide Insert;
    InsertBetween(before, after, x);
  }

  lemma InsertBehind(before: seq<Extent>, cut: Extent, after: seq<Extent>, node: Extent, x: Extent)
    requires Below(before, node.fileStart) && Above(after, node.End()) && node.fileStart <= x.fileStart < node.End()
    requires cut.fileStart == node.fileStart && forall i :: 0 <= i < |before| ==> before[i].size > 0
    ensures Insert(before + [cut] + after, x) == before + [cut] + [x] + after
  {
    hide Insert;
    InsertBetween(before + [cut], after, x);
  }

  // ---------- the size account ----------

  /** Bytes of `e` behind the range that the erase counts a second time when it re-inserts them. */
  function ReAddedOne(e: Extent, s: nat, t: nat): nat {
    if s < e.End() && e.fileStart < t < e.End() then e.End() - t else 0
  }

  function ReAdded(es: seq<Extent>, s: nat, t: nat): nat {
    if es == [] then 0 else ReAddedOne(es[0], s, t) + ReAdded(es[1..], s, t)
  }

  lemma {:induction false} TotalConcat(a: seq<Extent>, b: seq<Extent>)
    ensures Total(a + b) == Total(a) + Total(b)
    decreases |a|
  {
    if a == [] {
      assert a + b == b;
    } else {
      assert (a + b)[0] == a[0] && (a + b)[1..] == a[1..] + b;
      TotalConcat(a[1..], b);
    }
  }

  lemma {:induction false} ReAddedConcat(a: seq<Extent>, b: seq<Extent>, s: nat, t: nat)
    ensures ReAdded(a + b, s, t) == ReAdded(a, s, t) + ReAdded(b, s, t)
    decreases |a|
  {
    if a == [] {
      assert a + b == b;
    } else {
      assert (a + b)[0] == a[0] && (a + b)[1..] == a[1..] + b;
      ReAddedConcat(a[1..], b, s, t);
    }
  }

  lemma ClipOneShape(e: Extent, s: nat, t: nat)
    requires s < t && s < e.End() && e.fileStart < t
    ensures ClipOne(e, s, t) == (if e.fileStart < s then [e.(size := s - e.fileStart)] else [])
                              + (if t < e.End() then [Extent(e.start + (t - e.fileStart), t, e.End() - t)] else [])
  {
  }

  /** The bytes of an overlapping extent that survive. */
  lemma ClipOneTotal(e: Extent, s: nat, t: nat)
    requires s < t && s < e.End() && e.fileStart < t
    ensures Total(ClipOne(e, s, t)) == (if e.fileStart < s then s - e.fileStart else 0) + (if t < e.End() then e.End() - t else 0)
    ensures |ClipOne(e, s, t)| == (if e.fileStart < s then 1 else 0) + (if t < e.End() then 1 else 0)
  {
    var l, r := Left(e, s), Right(e, t);
    TotalConcat(l, r);
    assert l == [] || l == [l[0]];
    assert r == [] || r == [r[0]];
  }

  /** Nothing is counted twice exactly when no extent runs across the end of the range. */
  lemma {:induction false} ReAddedZero(es: seq<Extent>, s: nat, t: nat)
    requires s < t
    ensures ReAdded(es, s, t) == 0 <==> forall i :: 0 <= i < |es| ==> !(es[i].fileStart < t < es[i].End())
    decreases |es|
  {
    if es != [] {
      ReAddedZero(es[1..], s, t);
    }
  }

  /** Counted twice is what the one extent that runs across the end of the range has behind it. */
  lemma ReAddedIs(es: seq<Extent>, k: nat, s: nat, t: nat)
    requires Sorted(es) && s < t && k < |es| && es[k].fileStart < t < es[k].End()
    ensures ReAdded(es, s, t) == es[k].End() - t
  {
    var a, b := es[..k], es[k + 1..];
    assert es == a + [es[k]] + b;
    ReAddedConcat(a + [es[k]], b, s, t);
    ReAddedConcat(a, [es[k]], s, t);
    assert [es[k]][1..] == [];
    ReAddedZero(a, s, t);
    ReAddedZero(b, s, t);
  }

  // ---------- the erase loop ----------

  /** The extents while the erase walks: `k` of them cut, the rest as before. */
  ghost function Walked(es: seq<Extent>, k: nat, s: nat, t: nat): seq<Extent>
    requires k <= |es|
  {
    Clip(es[..k], s, t) + es[k..]
  }

  lemma WalkedStep(es: seq<Extent>, k: nat, s: nat, t: nat)
    requires k < |es| && Sorted(es) && s < t
    ensures var done := Clip(es[..k], s, t);
            && Walked(es, k, s, t) == done + [es[k]] + es[k + 1..]
            && Walked(es, k + 1, s, t) == done + ClipOne(es[k], s, t) + es[k + 1..]
            && Below(done, es[k].fileStart) && Above(es[k + 1..], es[k].End())
            && Clip(es[..k + 1], s, t) == done + ClipOne(es[k], s, t)
  {
    hide ClipOne;
    assert es[..k + 1] == es[..k] + [es[k]];
    ClipConcat(es[..k], [es[k]], s, t);
    assert Clip([es[k]], s, t) == ClipOne(es[k], s, t) + Clip([], s, t);
    ClipBelow(es[..k], s, t, es[k].fileStart);
    assert es[k..] == [es[k]] + es[k + 1..];
  }

  /** The size account over one step of the walk. */
  lemma AccountStep(es: seq<Extent>, k: nat, s: nat, t: nat)
    requires k < |es| && Sorted(es) && s < t
    ensures Total(Walked(es, k + 1, s, t)) == Total(Walked(es, k, s, t)) - es[k].size + Total(ClipOne(es[k], s, t))
    ensures es[k].size <= Total(Walked(es, k, s, t))
    ensures ReAdded(es[..k + 1], s, t) == ReAdded(es[..k], s, t) + ReAddedOne(es[k], s, t)
  {
    hide ClipOne, Clip, Walked, ReAddedOne, Sorted;
    var done := Clip(es[..k], s, t);
    WalkedStep(es, k, s, t);
    TotalConcat(done + [es[k]], es[k + 1..]);
    TotalConcat(done, [es[k]]);
    TotalConcat(done + ClipOne(es[k], s, t), es[k + 1..]);
    TotalConcat(done, ClipOne(es[k], s, t));
    assert es[..k + 1] == es[..k] + [es[k]];
    ReAddedConcat(es[..k], [es[k]], s, t);
  }

  lemma AccountStart(es: seq<Extent>, k: nat, s: nat, t: nat)
    requires s < t && k <= |es| && (forall i :: 0 <= i < k ==> es[i].End() <= s)
    ensures ReAdded(es[..k], s, t) == 0
  {
    hide ReAdded;
    ReAddedZero(es[..k], s, t);
  }

  lemma AccountEnd(es: seq<Extent>, k: nat, s: nat, t: nat)
    requires k <= |es| && ReAdded(es[k..], s, t) == 0
    ensures ReAdded(es, s, t) == ReAdded(es[..k], s, t)
  {
    hide ReAdded;
    assert es == es[..k] + es[k..];
    ReAddedConcat(es[..k], es[k..], s, t);
  }

  lemma ClipPositive(es: seq<Extent>, k: nat, s: nat, t: nat)
    requires Sorted(es) && s <= t && k <= |es|
    ensures Sorted(Clip(es[..k], s, t))
    ensures forall i :: 0 <= i < |Clip(es[..k], s, t)| ==> Clip(es[..k], s, t)[i].size > 0
  {
    hide Clip;
    ClipSorted(es[..k], s, t, 0);
  }

  /** Cutting keeps every byte inside the spaces of the file. */
  lemma ClipBacked(es: seq<Extent>, spaces: seq<Space>, s: nat, t: nat)
    requires AllBacked(es, spaces)
    ensures AllBacked(Clip(es, s, t), spaces)
  {
    hide Clip, Backed;
    forall i | 0 <= i < |Clip(es, s, t)|
      ensures Backed(Clip(es, s, t)[i], spaces)
    {
      var x := Clip(es, s, t)[i];
      ClipPartOf(es, s, t, x);
      var e :| e in es && x.PartOf(e);
      BackedPart(e, spaces, x);
    }
  }

  /** Extents before the one a lower bound finds end before the range. */
  lemma StartSkips(es: seq<Extent>, k: nat, s: nat)
    requires Sorted(es) && ((k < |es| && es[k].fileStart <= s) || k == 0)
    ensures forall i :: 0 <= i < k ==> es[i].End() <= s
  {
  }

  lemma NodeFacts(es: seq<Extent>, k: nat)
    requires Sorted(es) && k < |es|
    ensures es[k].size > 0
  {
  }

  lemma WalkedSkip(es: seq<Extent>, k: nat, s: nat, t: nat)
    requires Sorted(es) && s < t && k <= |es| && (forall i :: 0 <= i < k ==> es[i].End() <= s)
    ensures Walked(es, k, s, t) == es && Clip(es[..k], s, t) == es[..k]
  {
    ClipOutside(es[..k], s, t);
  }

  lemma BehindStays(es: seq<Extent>, k: nat, t: nat)
    requires Sorted(es) && k <= |es| && (k < |es| ==> es[k].fileStart >= t)
    ensures forall i :: 0 <= i < |es[k..]| ==> es[k..][i].size > 0 && es[k..][i].fileStart >= t
  {
    forall i | 0 <= i < |es[k..]| ensures es[k..][i].size > 0 && es[k..][i].fileStart >= t {
      assert es[k..][i] == es[k + i];
    }
  }

  lemma WalkedEnd(es: seq<Extent>, k: nat, s: nat, t: nat)
    requires Sorted(es) && s < t && k <= |es| && (k < |es| ==> es[k].fileStart >= t)
    ensures Walked(es, k, s, t) == Clip(es, s, t)
    ensures ReAdded(es[k..], s, t) == 0
  {
    hide Clip, ReAdded, Sorted;
    var rest := es[k..];
    BehindStays(es, k, t);
    ClipOutside(rest, s, t);
    ClipConcat(es[..k], rest, s, t);
    assert es == es[..k] + rest;
    ReAddedZero(rest, s, t);
  }

  class FileExtentTree {
    var extents: seq<Extent>
    var spaces: seq<Space>
    var effectiveSize: nat
    var spaceSize: nat

    /** The extents are in order and accounted for. */
    ghost predicate Ordered()
      reads this
    {
      Sorted(extents) && Total(extents) <= effectiveSize
    }

    /** They also lie in the spaces of the file. */
    ghost predicate Valid()
      reads this
    {
      Ordered() && AllBacked(extents, spaces)
    }

    constructor ()
      ensures Valid() && extents == [] && spaces == [] && effectiveSize == 0 && spaceSize == 0
    {
      extents, spaces, effectiveSize, spaceSize := [], [], 0, 0;
    }

    /** The extent that starts at `start`, or the last one that starts before it. */
    method ExtentTreeLowerBound(start: nat) returns (node: Option<nat>)
      requires Sorted(extents)
      ensures node.Some? ==> node.value < |extents| && extents[node.value].fileStart <= start
      ensures node.Some? ==> forall i :: node.value < i < |extents| ==> extents[i].fileStart > start
      ensures node.None? ==> forall i :: 0 <= i < |extents| ==> extents[i].fileStart > start
    {
      node := None;
      var i := 0;
      while i < |extents| && extents[i].fileStart <= start
        invariant 0 <= i <= |extents|
        invariant node == if i == 0 then None else Some(i - 1)
        invariant forall j :: 0 <= j < i ==> extents[j].fileStart <= start
      {
        node := Some(i);
        i := i + 1;
      }
    }

    /** InsertExtentNode: the node goes to its place and its size is counted. */
    method InsertExtentNode(x: Extent)
      modifies this`extents, this`effectiveSize
      ensures extents == Insert(old(extents), x)
      ensures effectiveSize == old(effectiveSize) + x.size
    {
      var pos := 0;
      while pos < |extents| && extents[pos].fileStart <= x.fileStart
        invariant 0 <= pos <= |extents|
        invariant InsertPos(extents, x.fileStart) == pos + InsertPos(extents[pos..], x.fileStart)
      {
        pos := pos + 1;
      }
      extents := extents[..pos] + [x] + extents[pos..];
      effectiveSize := effectiveSize + x.size;
    }

    /** One overlapping node, in the four cases of the code; `next` is the node to look at afterwards. */
    method EraseNode(cur: nat, s: nat, t: nat, nextNode: nat) returns (next: nat)
      requires cur < |extents| && nextNode == cur + 1 && s < t
      requires extents[cur].size > 0 && s < extents[cur].End() && extents[cur].fileStart < t
      requires Below(extents[..cur], extents[cur].fileStart) && Above(extents[cur + 1..], extents[cur].End())
      requires forall i :: 0 <= i < cur ==> extents[i].size > 0
      requires extents[cur].size <= effectiveSize
      modifies this`extents, this`effectiveSize
      ensures extents == old(extents[..cur]) + ClipOne(old(extents[cur]), s, t) + old(extents[cur + 1..])
      ensures next == cur + |ClipOne(old(extents[cur]), s, t)|
      ensures effectiveSize == old(effectiveSize) + Total(ClipOne(old(extents[cur]), s, t)) - old(extents[cur].size)
                             + ReAddedOne(old(extents[cur]), s, t)
    {
      hide Insert, InsertPos, Total, ClipOne, Below, Above;
      var node := extents[cur];
      ClipOneTotal(node, s, t);
      ClipOneShape(node, s, t);
      ghost var before, after := extents[..cur], extents[cur + 1..];
      var curStart, curEnd := node.fileStart, node.End();
      next := nextNode;
      if curStart <= s && curEnd >= s && curEnd <= t {
        var cut := node.(size := node.size - (curEnd - s));
        extents := extents[cur := cut];
        if cut.size == 0 {
          extents, next := extents[..cur] + extents[cur + 1..], next - 1;
        }
        effectiveSize := effectiveSize - (curEnd - s);
      } else if curStart <= s && curEnd >= t {
        var cut := node.(size := s - curStart);
        extents := extents[cur := cut];
        var newExtentSize := curEnd - t;
        if newExtentSize > 0 {
          var rest := Extent(node.start + (t - curStart), t, newExtentSize);
          InsertBehind(before, cut, after, node, rest);
          assert extents == before + [cut] + after;
          InsertExtentNode(rest);
          next := next + 1;
        }
        if cut.size == 0 {
          extents, next := extents[..cur] + extents[cur + 1..], next - 1;
        }
        effectiveSize := effectiveSize - (t - s);
      } else if curStart >= s && curEnd <= t {
        extents, next := extents[..cur] + extents[cur + 1..], next - 1;
        effectiveSize := effectiveSize - (curEnd - curStart);
      } else {
        var size := curEnd - t;
        var moved := Extent(node.start + (t - curStart), node.fileStart + (t - curStart), size);
        if size > 0 {
          extents := extents[..cur] + extents[cur + 1..];
          InsertInside(before, after, node, moved);
          assert extents == before + after;
          InsertExtentNode(moved);
        } else {
          assert false;  // a node left empty here would be deleted, but curEnd > t
        }
        effectiveSize := effectiveSize - (t - curStart);
      }
    }

    /** Cuts file positions fileStart..fileStart+size out of the tree, walking it with a saved next pointer. */
    method ExtentTreeErase(fileStart: nat, size: nat)
      requires Ordered() && size > 0
      modifies this`extents, this`effectiveSize
      ensures Ordered() && extents == Clip(old(extents), fileStart, fileStart + size)
      ensures effectiveSize == old(effectiveSize) - Total(old(extents)) + Total(extents)
                             + ReAdded(old(extents), fileStart, fileStart + size)
    {
      hide ClipOne, Clip, Walked, ReAdded, ReAddedOne, Total, Backed, Sorted, AllBacked, Below, Above;
      ghost var es := extents;
      var s, t := fileStart, fileStart + size;
      var found := ExtentTreeLowerBound(s);
      var cur := if found.None? then 0 else found.value;
      var nextNode := if cur < |extents| then cur + 1 else cur;
      ghost var k := cur;
      StartSkips(es, k, s);
      WalkedSkip(es, k, s, t);
      AccountStart(es, k, s, t);
      while cur < |extents|
        invariant k <= |es| && extents == Walked(es, k, s, t) && cur == |Clip(es[..k], s, t)|
        invariant |extents| == cur + (|es| - k)
        invariant nextNode == if cur < |extents| then cur + 1 else cur
        invariant effectiveSize - Total(extents) == old(effectiveSize) - Total(es) + ReAdded(es[..k], s, t)
        invariant forall i :: 0 <= i < k ==> es[i].fileStart < t
        decreases |es| - k
      {
        WalkedStep(es, k, s, t);
        AccountStep(es, k, s, t);
        NodeFacts(es, k);
        ghost var done, rest := Clip(es[..k], s, t), es[k + 1..];
        assert extents[cur] == es[k] && extents[..cur] == done && extents[cur + 1..] == rest;
        var node := extents[cur];
        if node.fileStart >= t {
          break;
        }
        if node.End() <= s {
          ClipOneOutside(node, s, t);
          NotReAdded(node, s, t);
        } else {
          ClipPositive(es, k, s, t);
          nextNode := EraseNode(cur, s, t, nextNode);
        }
        assert extents == done + ClipOne(es[k], s, t) + rest;
        k := k + 1;
        cur := nextNode;
        nextNode := if cur < |extents| then cur + 1 else cur;
      }
      WalkedEnd(es, k, s, t);
      AccountEnd(es, k, s, t);
      ClipPositive(es, |es|, s, t);
      assert es[..|es|] == es;
    }

    /**
      Override of a range.  The account drifts by the bytes ReAdded names:
      effectiveSize stays the sum of the extent sizes exactly when no extent
      runs across the end of the new one (see EffectiveSizeExact).
     */
    method FileExtentTreeAddExtent(addr: nat, fileStart: nat, size: nat)
      requires Ordered() && size > 0
      modifies this`extents, this`effectiveSize
      ensures old(Valid()) && Backed(Extent(addr, fileStart, size), spaces) ==> Valid()
      ensures Ordered() && extents == Override(old(extents), Extent(addr, fileStart, size))
      ensures effectiveSize - Total(extents) == old(effectiveSize - Total(extents))
                             + ReAdded(old(extents), fileStart, fileStart + size)
    {
      hide Clip, Insert, Total, ReAdded, AllBacked, Backed, Sorted;
      var x := Extent(addr, fileStart, size);
      ghost var es := extents;
      OverrideSorted(extents, x);
      ExtentTreeErase(fileStart, size);
      InsertTotal(extents, x);
      if AllBacked(es, spaces) && Backed(x, spaces) {
        ClipBacked(es, spaces, fileStart, fileStart + size);
        InsertBacked(extents, spaces, x);
      }
      InsertExtentNode(x);
    }

    method FileExtentTreeAddSpace(addr: nat, size: nat)
      modifies this`spaces, this`spaceSize
      ensures old(Valid()) ==> Valid()
      ensures spaces == InsertSpace(old(spaces), Space(addr, size))
      ensures spaceSize == old(spaceSize) + size
    {
      var pos := 0;
      while pos < |spaces| && spaces[pos].start <= addr
        invariant 0 <= pos <= |spaces|
        invariant SpacePos(spaces, addr) == pos + SpacePos(spaces[pos..], addr)
      {
        pos := pos + 1;
      }
      if AllBacked(extents, spaces) { MoreSpaces(extents, spaces, Space(addr, size)); }
      spaces := spaces[..pos] + [Space(addr, size)] + spaces[pos..];
      spaceSize := spaceSize + size;
    }

    method FileExtentTreeTruncate()
      modifies this`extents, this`effectiveSize
      ensures spaces == old(spaces)
      ensures Valid() && extents == [] && effectiveSize == 0
    {
      EmptySorted();
      extents, effectiveSize := [], 0;
    }
  }

  function SpacePos(spaces: seq<Space>, key: nat): (i: nat)
    ensures i <= |spaces|
  {
    if spaces == [] || spaces[0].start > key then 0 else 1 + SpacePos(spaces[1..], key)
  }

  function InsertSpace(spaces: seq<Space>, x: Space): seq<Space> {
    spaces[..SpacePos(spaces, x.start)] + [x] + spaces[SpacePos(spaces, x.start)..]
  }

  lemma InsertSpaceHas(spaces: seq<Space>, x: Space, y: Space)
    ensures y in InsertSpace(spaces, x) <==> y == x || y in spaces
  {
    var i := SpacePos(spaces, x.start);
    assert spaces == spaces[..i] + spaces[i..];
  }

  ghost predicate StartsAscend(spaces: seq<Space>) { forall i, j :: 0 <= i < j < |spaces| ==> spaces[i].start <= spaces[j].start }

  /** The space tree stays in order and has one space more. */
  lemma InsertSpaceAscends(spaces: seq<Space>, x: Space)
    requires StartsAscend(spaces)
    ensures StartsAscend(InsertSpace(spaces, x)) && multiset(InsertSpace(spaces, x)) == multiset(spaces) + multiset{x}
  {
    hide StartsAscend, SpacePos;
    var i := SpacePos(spaces, x.start);
    SpacePosIs(spaces, x.start);
    assert spaces == spaces[..i] + spaces[i..];
    AscendBetween(spaces[..i], spaces[i..], x);
  }

  lemma AscendBetween(a: seq<Space>, b: seq<Space>, x: Space)
    requires StartsAscend(a + b)
    requires forall i :: 0 <= i < |a| ==> a[i].start <= x.start
    requires forall i :: 0 <= i < |b| ==> b[i].start > x.start
    ensures StartsAscend(a + [x] + b)
  {
    forall i | 0 <= i < |a| ensures a[i] == (a + b)[i] {}
    forall i | 0 <= i < |b| ensures b[i] == (a + b)[|a| + i] {}
  }

  lemma {:induction false} SpacePosIs(spaces: seq<Space>, key: nat)
    requires StartsAscend(spaces)
    ensures forall j :: 0 <= j < SpacePos(spaces, key) ==> spaces[j].start <= key
    ensures forall j :: SpacePos(spaces, key) <= j < |spaces| ==> spaces[j].start > key
    decreases |spaces|
  {
    if spaces != [] && spaces[0].start <= key {
      SpacePosIs(spaces[1..], key);
      forall j | 0 <= j < |spaces| ensures j < SpacePos(spaces, key) <==> spaces[j].start <= key {
        if j > 0 { assert spaces[j] == spaces[1..][j - 1]; }
      }
    }
  }

  lemma MoreSpaces(es: seq<Extent>, spaces: seq<Space>, x: Space)
    requires AllBacked(es, spaces)
    ensures AllBacked(es, InsertSpace(spaces, x))
  {
    hide InsertSpace;
    forall i | 0 <= i < |es|
      ensures Backed(es[i], InsertSpace(spaces, x))
    {
      var k :| 0 <= k < |spaces| && spaces[k].start <= es[i].start && es[i].start + es[i].size <= spaces[k].start + spaces[k].size;
      InsertSpaceHas(spaces, x, spaces[k]);
    }
  }

  lemma InsertTotal(es: seq<Extent>, x: Extent)
    ensures Total(Insert(es, x)) == Total(es) + x.size
  {
    hide InsertPos;
    var i := InsertPos(es, x.fileStart);
    assert es == es[..i] + es[i..];
    TotalConcat(es[..i], es[i..]);
    TotalConcat(es[..i] + [x], es[i..]);
    TotalConcat(es[..i], [x]);
  }

  lemma InsertBacked(es: seq<Extent>, spaces: seq<Space>, x: Extent)
    requires AllBacked(es, spaces) && Backed(x, spaces)
    ensures AllBacked(Insert(es, x), spaces)
  {
    hide InsertPos, Backed;
  }

  /** When effectiveSize is exact before an AddExtent, it is exact after it iff no extent straddles the new end. */
  lemma EffectiveSizeExact(es: seq<Extent>, x: Extent, before: nat, after: nat)
    requires x.size > 0 && before == Total(es)
    requires after - Total(Override(es, x)) == before - Total(es) + ReAdded(es, x.fileStart, x.End())
    ensures after == Total(Override(es, x)) <==> forall i :: 0 <= i < |es| ==> !(es[i].fileStart < x.End() < es[i].End())
  {
    hide Override, Total, ReAdded;
    ReAddedZero(es, x.fileStart, x.End());
  }

  /** A write into the middle of an extent makes the account too large. */
  lemma EffectiveSizeDrifts()
    ensures var es, x := [Extent(0, 0, 10)], Extent(20, 2, 3);
            Total(Override(es, x)) == 10 && Total(es) + ReAdded(es, 2, 5) == 15
  {
    var es, x := [Extent(0, 0, 10)], Extent(20, 2, 3);
    assert Clip(es, 2, 5) == [Extent(0, 0, 2), Extent(5, 5, 5)] by {
      assert es[1..] == [];
    }
    InsertBetween([Extent(0, 0, 2)], [Extent(5, 5, 5)], x);
    assert [Extent(0, 0, 2)] + [Extent(5, 5, 5)] == [Extent(0, 0, 2), Extent(5, 5, 5)];
    assert Override(es, x) == [Extent(0, 0, 2), x, Extent(5, 5, 5)];
    assert Total(Override(es, x)[1..]) == 8;
  }

  lemma NotReAdded(e: Extent, s: nat, t: nat)
    requires e.End() <= s < t
    ensures ReAddedOne(e, s, t) == 0 && Total(ClipOne(e, s, t)) == e.size
  {
    assert Left(e, s) == [] || Left(e, s) == [e];
    assert Right(e, t) == [];
    assert ClipOne(e, s, t) == Left(e, s);
  }
}
