/**
  The extents of a file: which device byte holds which file byte.

  An extent maps file positions fileStart..fileStart+size to device bytes from
  start on.  This module says what overriding a range means; FileExtentTree
  shows that the tree surgery of the code does it.
 */
module FileExtents {
  import opened Wrappers

  datatype Extent = Extent(start: nat, fileStart: nat, size: nat) {
    function End(): nat { fileStart + size }

    predicate Covers(p: nat) { fileStart <= p < End() }

    /** Device address of file position `p`. */
    function At(p: nat): nat
      requires fileStart <= p
    {
      start + (p - fileStart)
    }

    /** Every byte this extent maps, `that` maps to the same place. */
    predicate PartOf(that: Extent) {
      that.fileStart <= fileStart && End() <= that.End() && start == that.At(fileStart)
    }
  }

  /** No empty extents, ordered by file position, not overlapping. */
  ghost predicate Sorted(es: seq<Extent>) {
    && (forall i :: 0 <= i < |es| ==> es[i].size > 0)
    && (forall i, j :: 0 <= i < j < |es| ==> es[i].End() <= es[j].fileStart)
  }

  /** Where file position `p` is stored; None in a hole. */
  function MapAt(es: seq<Extent>, p: nat): Option<nat> {
    if es == [] then None
    else if es[0].Covers(p) then Some(es[0].At(p))
    else MapAt(es[1..], p)
  }

  function Total(es: seq<Extent>): nat {
    if es == [] then 0 else es[0].size + Total(es[1..])
  }

  // ---------- cutting a range out ----------

  /** What is left of `e` below file position `s`. */
  function Left(e: Extent, s: nat): seq<Extent> {
    if e.fileStart >= s then []
    else if e.End() <= s then [e]
    else [e.(size := s - e.fileStart)]
  }

  /** What is left of `e` from file position `t` on. */
  function Right(e: Extent, t: nat): seq<Extent> {
    if e.End() <= t then []
    else if e.fileStart >= t then [e]
    else [Extent(e.At(t), t, e.End() - t)]
  }

  function ClipOne(e: Extent, s: nat, t: nat): seq<Extent> {
    Left(e, s) + Right(e, t)
  }

  /** The extents without the file positions s..t. */
  function Clip(es: seq<Extent>, s: nat, t: nat): seq<Extent> {
    if es == [] then [] else ClipOne(es[0], s, t) + Clip(es[1..], s, t)
  }

  /** Ordered insertion, behind entries with the same key, as InsertExtentToExtentTree descends. */
  function InsertPos(es: seq<Extent>, key: nat): (i: nat)
    ensures i <= |es|
  {
    if es == [] || es[0].fileStart > key then 0 else 1 + InsertPos(es[1..], key)
  }

  function Insert(es: seq<Extent>, x: Extent): seq<Extent> {
    es[..InsertPos(es, x.fileStart)] + [x] + es[InsertPos(es, x.fileStart)..]
  }

  /** The extents once `x` has replaced whatever was in its range. */
  function Override(es: seq<Extent>, x: Extent): seq<Extent> {
    Insert(Clip(es, x.fileStart, x.End()), x)
  }

  // ---------- clipping, pointwise ----------

  lemma {:induction false} MapAtConcat(a: seq<Extent>, b: seq<Extent>, p: nat)
    ensures MapAt(a + b, p) == if MapAt(a, p).Some? then MapAt(a, p) else MapAt(b, p)
    decreases |a|
  {
    if a == [] {
      assert a + b == b;
    } else {
      assert (a + b)[0] == a[0] && (a + b)[1..] == a[1..] + b;
      MapAtConcat(a[1..], b, p);
    }
  }

  lemma ClipOneAt(e: Extent, s: nat, t: nat, p: nat)
    requires s <= t
    ensures MapAt(ClipOne(e, s, t), p) == if s <= p < t then None else MapAt([e], p)
  {
    var l, r := Left(e, s), Right(e, t);
    MapAtConcat(l, r, p);
    assert l == [] || l == [l[0]];
    assert r == [] || r == [r[0]];
  }

  lemma {:induction false} ClipAt(es: seq<Extent>, s: nat, t: nat, p: nat)
    requires s <= t
    ensures MapAt(Clip(es, s, t), p) == if s <= p < t then None else MapAt(es, p)
    decreases |es|
  {
    hide ClipOne;
    if es != [] {
      ClipOneAt(es[0], s, t, p);
      ClipAt(es[1..], s, t, p);
      MapAtConcat(ClipOne(es[0], s, t), Clip(es[1..], s, t), p);
      MapAtConcat([es[0]], es[1..], p);
      assert es == [es[0]] + es[1..];
    }
  }

  lemma {:induction false} ClipConcat(a: seq<Extent>, b: seq<Extent>, s: nat, t: nat)
    ensures Clip(a + b, s, t) == Clip(a, s, t) + Clip(b, s, t)
    decreases |a|
  {
    hide ClipOne;
    if a == [] {
      assert a + b == b;
    } else {
      assert (a + b)[0] == a[0] && (a + b)[1..] == a[1..] + b;
      ClipConcat(a[1..], b, s, t);
    }
  }

  lemma ClipOneOutside(e: Extent, s: nat, t: nat)
    requires s <= t && e.size > 0 && (e.End() <= s || e.fileStart >= t)
    ensures ClipOne(e, s, t) == [e]
  {
  }

  /** Extents outside the range are not touched. */
  lemma {:induction false} ClipOutside(es: seq<Extent>, s: nat, t: nat)
    requires s <= t
    requires forall i :: 0 <= i < |es| ==> es[i].size > 0 && (es[i].End() <= s || es[i].fileStart >= t)
    ensures Clip(es, s, t) == es
    decreases |es|
  {
    hide ClipOne;
    if es != [] {
      ClipOneOutside(es[0], s, t);
      ClipOutside(es[1..], s, t);
      assert es == [es[0]] + es[1..];
    }
  }

  ghost predicate Below(es: seq<Extent>, key: nat) {
    forall i :: 0 <= i < |es| ==> es[i].End() <= key
  }

  ghost predicate Above(es: seq<Extent>, key: nat) {
    forall i :: 0 <= i < |es| ==> key <= es[i].fileStart
  }

  lemma SortedConcat(a: seq<Extent>, b: seq<Extent>, key: nat)
    requires Sorted(a) && Sorted(b) && Below(a, key) && Above(b, key)
    ensures Sorted(a + b)
  {
  }

  ghost predicate Apart(es: seq<Extent>, s: nat, t: nat) {
    forall i :: 0 <= i < |es| ==> es[i].End() <= s || t <= es[i].fileStart
  }

  lemma ClipOneFacts(e: Extent, s: nat, t: nat)
    requires e.size > 0 && s <= t
    ensures Sorted(ClipOne(e, s, t)) && Apart(ClipOne(e, s, t), s, t)
    ensures Above(ClipOne(e, s, t), e.fileStart) && Below(ClipOne(e, s, t), e.End())
  {
  }

  lemma SortedCons(es: seq<Extent>)
    requires Sorted(es) && es != []
    ensures Sorted(es[1..]) && Above(es[1..], es[0].End()) && es[0].size > 0
  {
  }

  /** Clipping keeps extents sorted, inside the bounds they were in, and outside the range. */
  lemma {:induction false} ClipSorted(es: seq<Extent>, s: nat, t: nat, lo: nat)
    requires Sorted(es) && s <= t && Above(es, lo)
    ensures Sorted(Clip(es, s, t)) && Above(Clip(es, s, t), lo) && Apart(Clip(es, s, t), s, t)
    decreases |es|
  {
    hide ClipOne, Sorted;
    if es == [] {
      EmptySorted();
    } else {
      var e := es[0];
      SortedCons(es);
      ClipOneFacts(e, s, t);
      ClipSorted(es[1..], s, t, e.End());
      SortedConcat(ClipOne(e, s, t), Clip(es[1..], s, t), e.End());
    }
  }

  lemma EmptySorted()
    ensures Sorted([])
  {
  }

  lemma {:induction false} ClipBelow(es: seq<Extent>, s: nat, t: nat, hi: nat)
    requires Below(es, hi)
    ensures Below(Clip(es, s, t), hi)
    decreases |es|
  {
    if es != [] {
      ClipBelow(es[1..], s, t, hi);
    }
  }

  /** Clipping only shortens: what is left maps bytes where they were mapped before. */
  lemma {:induction false} ClipPartOf(es: seq<Extent>, s: nat, t: nat, x: Extent)
    requires x in Clip(es, s, t)
    ensures exists e :: e in es && x.PartOf(e)
    decreases |es|
  {
    if x in ClipOne(es[0], s, t) {
      assert x.PartOf(es[0]);
    } else {
      ClipPartOf(es[1..], s, t, x);
    }
  }

  // ---------- insertion, pointwise ----------

  lemma {:induction false} InsertPosSplit(a: seq<Extent>, b: seq<Extent>, key: nat)
    requires forall i :: 0 <= i < |a| ==> a[i].fileStart <= key
    requires forall i :: 0 <= i < |b| ==> b[i].fileStart > key
    ensures InsertPos(a + b, key) == |a|
    decreases |a|
  {
    if a == [] {
      assert a + b == b;
    } else {
      assert (a + b)[0] == a[0] && (a + b)[1..] == a[1..] + b;
      InsertPosSplit(a[1..], b, key);
    }
  }

  lemma {:induction false} InsertPosCuts(es: seq<Extent>, s: nat, t: nat)
    requires Sorted(es) && s < t
    requires Apart(es, s, t)
    ensures Below(es[..InsertPos(es, s)], s) && Above(es[InsertPos(es, s)..], t)
    decreases |es|
  {
    if es != [] && es[0].fileStart <= s {
      InsertPosCuts(es[1..], s, t);
      assert es[..InsertPos(es, s)] == [es[0]] + es[1..][..InsertPos(es[1..], s)];
      assert es[InsertPos(es, s)..] == es[1..][InsertPos(es[1..], s)..];
    } else if es != [] {
      assert forall i :: 0 <= i < |es| ==> es[0].fileStart <= es[i].fileStart;
    }
  }

  lemma {:induction false} MapAtOutside(es: seq<Extent>, p: nat)
    requires forall i :: 0 <= i < |es| ==> !es[i].Covers(p)
    ensures MapAt(es, p) == None
    decreases |es|
  {
    if es != [] {
      MapAtOutside(es[1..], p);
    }
  }

  /**
    Override replaces a range.  Afterwards positions inside `x` are where `x`
    says, all others where they were, and the extents are sorted and disjoint.
   */
  lemma OverrideAt(es: seq<Extent>, x: Extent, p: nat)
    requires Sorted(es) && x.size > 0
    ensures MapAt(Override(es, x), p) == if x.Covers(p) then Some(x.At(p)) else MapAt(es, p)
  {
    hide ClipOne, Clip, Sorted, Insert;
    OverrideShape(es, x);
    var c := Clip(es, x.fileStart, x.End());
    var i := InsertPos(c, x.fileStart);
    ClipAt(es, x.fileStart, x.End(), p);
    MapAtConcat(c[..i] + [x], c[i..], p);
    MapAtConcat(c[..i], [x], p);
    MapAtConcat(c[..i], c[i..], p);
    assert c == c[..i] + c[i..];
    if x.Covers(p) {
      MapAtOutside(c[..i], p);
    }
  }

  lemma OverrideShape(es: seq<Extent>, x: Extent)
    requires Sorted(es) && x.size > 0
    ensures var c := Clip(es, x.fileStart, x.End());
            var i := InsertPos(c, x.fileStart);
            && Sorted(c) && Override(es, x) == c[..i] + [x] + c[i..]
            && Below(c[..i], x.fileStart) && Above(c[i..], x.End())
  {
    hide Clip, InsertPos;
    var c := Clip(es, x.fileStart, x.End());
    ClipSorted(es, x.fileStart, x.End(), 0);
    InsertPosCuts(c, x.fileStart, x.End());
  }

  lemma OverrideSorted(es: seq<Extent>, x: Extent)
    requires Sorted(es) && x.size > 0
    ensures Sorted(Override(es, x))
  {
    hide Clip, InsertPos, Override;
    OverrideShape(es, x);
    var c := Clip(es, x.fileStart, x.End());
    var i := InsertPos(c, x.fileStart);
    SortedConcat(c[..i], [x], x.fileStart);
    SortedConcat(c[..i] + [x], c[i..], x.End());
  }
}
