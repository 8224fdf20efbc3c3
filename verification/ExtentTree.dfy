/**
  The free set of the block pool: numbers kept as extents, the red-black tree
  seen as its nodes in order.
 */
module ExtentTree {
  datatype Extent = Extent(start: nat, end: nat)

  predicate In(e: Extent, x: nat) { e.start <= x < e.end }

  ghost predicate Covers(es: seq<Extent>, x: nat) {
    exists i :: 0 <= i < |es| && In(es[i], x)
  }

  /** Ascending, none empty, and never two that touch. */
  ghost predicate Canonical(es: seq<Extent>) {
    && (forall i :: 0 <= i < |es| ==> es[i].start < es[i].end)
    && (forall i, j :: 0 <= i < j < |es| ==> es[i].end < es[j].start)
  }

  // ---------- the numbers, in ascending order ----------

  function Count(a: nat, b: nat): (s: seq<nat>)
    requires a <= b
    ensures |s| == b - a && forall i :: 0 <= i < |s| ==> s[i] == a + i
  {
    seq(b - a, i requires 0 <= i < b - a => a + i)
  }

  /** All numbers, smallest first. */
  ghost function Units(es: seq<Extent>): seq<nat>
    requires Canonical(es)
    decreases |es|
  {
    if es == [] then [] else Count(es[0].start, es[0].end) + Units(es[1..])
  }

  lemma {:induction false} UnitsCover(es: seq<Extent>, x: nat)
    requires Canonical(es)
    ensures x in Units(es) <==> Covers(es, x)
    decreases |es|
  {
    if es != [] {
      UnitsCover(es[1..], x);
      var c := Count(es[0].start, es[0].end);
      if In(es[0], x) {
        assert c[x - es[0].start] == x;
      }
      assert Covers(es, x) <==> In(es[0], x) || Covers(es[1..], x) by { CoversCons(es, x); }
    }
  }

  lemma CoversCons(es: seq<Extent>, x: nat)
    requires es != []
    ensures Covers(es, x) <==> In(es[0], x) || Covers(es[1..], x)
  {
    if Covers(es[1..], x) {
      var i :| 0 <= i < |es[1..]| && In(es[1..][i], x);
      assert es[1..][i] == es[i + 1];
    }
    if Covers(es, x) && !In(es[0], x) {
      var i :| 0 <= i < |es| && In(es[i], x);
      assert es[1..][i - 1] == es[i];
    }
  }

  lemma {:induction false} UnitsAscend(es: seq<Extent>)
    requires Canonical(es)
    ensures forall i, j :: 0 <= i < j < |Units(es)| ==> Units(es)[i] < Units(es)[j]
    decreases |es|
  {
    if es != [] {
      UnitsAscend(es[1..]);
      var c, r := Count(es[0].start, es[0].end), Units(es[1..]);
      forall j | 0 <= j < |r| ensures r[j] > es[0].end {
        UnitsCover(es[1..], r[j]);
      }
    }
  }

  // ---------- one free set, one list ----------

  lemma FirstStarts(a: seq<Extent>, b: seq<Extent>)
    requires Canonical(a) && Canonical(b) && forall x: nat :: Covers(a, x) ==> Covers(b, x)
    requires a != []
    ensures b != [] && b[0].start <= a[0].start
  {
    assert In(a[0], a[0].start);
    assert Covers(b, a[0].start);
  }

  lemma CoversAt(es: seq<Extent>, k: nat, x: nat)
    requires k < |es| && In(es[k], x)
    ensures Covers(es, x)
  {
  }

  lemma OnlyFirst(b: seq<Extent>, x: nat)
    requires Canonical(b) && b != [] && x == b[0].end
    ensures !Covers(b, x)
  {
  }

  lemma FirstEnds(a: seq<Extent>, b: seq<Extent>)
    requires Canonical(a) && Canonical(b) && (forall x: nat :: Covers(a, x) ==> Covers(b, x))
    requires a != [] && b != [] && a[0].start == b[0].start
    ensures a[0].end <= b[0].end
  {
    if a[0].end > b[0].end {
      var x := b[0].end;
      CoversAt(a, 0, x);
      OnlyFirst(b, x);
    }
  }

  /** A canonical list is determined by the numbers it covers. */
  lemma {:induction false} CanonicalUnique(a: seq<Extent>, b: seq<Extent>)
    requires Canonical(a) && Canonical(b) && forall x: nat :: Covers(a, x) <==> Covers(b, x)
    ensures a == b
    decreases |a|
  {
    if a == [] {
      if b != [] {
        FirstStarts(b, a);
        assert false;
      }
    } else {
      FirstStarts(a, b);
      FirstStarts(b, a);
      FirstEnds(a, b);
      FirstEnds(b, a);
      assert a[0] == b[0];
      forall x: nat ensures Covers(a[1..], x) <==> Covers(b[1..], x) {
        CoversCons(a, x);
        CoversCons(b, x);
        TailBeyond(a, x);
        TailBeyond(b, x);
      }
      CanonicalUnique(a[1..], b[1..]);
    }
  }

  lemma TailBeyond(a: seq<Extent>, x: nat)
    requires Canonical(a) && a != []
    ensures In(a[0], x) ==> !Covers(a[1..], x)
  {
  }

  // ---------- ExtentTreePut ----------

  /** How many extents start at `addr` or before: behind the node ExtentTreeLowerBound finds. */
  function Pos(es: seq<Extent>, addr: nat): (i: nat)
    ensures i <= |es|
  {
    if es == [] || es[0].start > addr then 0 else 1 + Pos(es[1..], addr)
  }

  lemma {:induction false} PosSplits(es: seq<Extent>, addr: nat)
    requires Canonical(es)
    ensures forall k :: 0 <= k < Pos(es, addr) ==> es[k].start <= addr
    ensures forall k :: Pos(es, addr) <= k < |es| ==> es[k].start > addr
    decreases |es|
  {
    if es != [] && es[0].start <= addr {
      PosSplits(es[1..], addr);
    }
  }

  predicate MergesFront(es: seq<Extent>, i: nat, start: nat) { 0 < i <= |es| && es[i - 1].end == start }

  predicate MergesNext(es: seq<Extent>, i: nat, end: nat) { i < |es| && es[i].start == end }

  /** The four ways a range goes in. */
  function Put(es: seq<Extent>, start: nat, end: nat): seq<Extent> {
    var i := Pos(es, start);
    if MergesFront(es, i, start) && MergesNext(es, i, end) then es[..i - 1] + [Extent(es[i - 1].start, es[i].end)] + es[i + 1..]
    else if MergesFront(es, i, start) then es[..i - 1] + [Extent(es[i - 1].start, end)] + es[i..]
    else if MergesNext(es, i, end) then es[..i] + [Extent(start, es[i].end)] + es[i + 1..]
    else es[..i] + [Extent(start, end)] + es[i..]
  }

  /** No number of the range is in the set. */
  ghost predicate Fresh(es: seq<Extent>, start: nat, end: nat) {
    forall x: nat :: start <= x < end ==> !Covers(es, x)
  }

  lemma FreshBetween(es: seq<Extent>, start: nat, end: nat)
    requires Canonical(es) && start < end && Fresh(es, start, end)
    ensures var i := Pos(es, start);
            && (forall k :: 0 <= k < i ==> es[k].end <= start) && (forall k :: i <= k < |es| ==> end <= es[k].start)
  {
    var i := Pos(es, start);
    PosSplits(es, start);
    forall k | 0 <= k < i ensures es[k].end <= start {
      if es[k].end > start {
        CoversAt(es, k, start);
      }
    }
    forall k | i <= k < |es| ensures end <= es[k].start {
      if es[k].start < end {
        CoversAt(es, k, es[k].start);
      }
    }
  }

  lemma PutCanonical(es: seq<Extent>, start: nat, end: nat)
    requires Canonical(es) && start < end && Fresh(es, start, end)
    ensures Canonical(Put(es, start, end))
  {
    hide Fresh, Pos, Canonical;
    FreshBetween(es, start, end);
    var i := Pos(es, start);
    SlicesCanonical(es, i, start, end);
    var low := if MergesFront(es, i, start) then i - 1 else i;
    var high := if MergesNext(es, i, end) then i + 1 else i;
    var m := Extent(if low < i then es[low].start else start, if high > i then es[i].end else end);
    assert Put(es, start, end) == es[..low] + [m] + es[high..];
    CanonicalParts(es[..low], m, es[high..]);
  }

  /** Putting a range that overlaps what is there breaks the tree. */
  lemma PutCanonicalIff(es: seq<Extent>, start: nat, end: nat)
    requires Canonical(es) && start < end
    ensures Canonical(Put(es, start, end)) <==> Fresh(es, start, end)
  {
    hide Fresh, Pos, Canonical, Put, Covers;
    if Fresh(es, start, end) {
      PutCanonical(es, start, end);
    } else {
      assert exists x: nat :: start <= x < end && Covers(es, x) by { NotFresh(es, start, end); }
      var x: nat :| start <= x < end && Covers(es, x);
      PutBreaks(es, start, end, x);
    }
  }

  lemma NotFresh(es: seq<Extent>, start: nat, end: nat)
    requires !Fresh(es, start, end)
    ensures exists x: nat :: start <= x < end && Covers(es, x)
  {
    hide Covers;
  }

  /** The extent that has `x` makes the one in front of the new extent overlap it, or the one behind. */
  lemma PutBreaks(es: seq<Extent>, start: nat, end: nat, x: nat)
    requires Canonical(es) && start <= x < end && Covers(es, x)
    ensures !Canonical(Put(es, start, end))
  {
    hide Pos, Put;
    var i := Pos(es, start);
    PosSplits(es, start);
    var k :| 0 <= k < |es| && In(es[k], x);
    if k < i {
      Ascends(es, k, i - 1);
      FrontOverlaps(es, start, end);
    } else {
      Ascends(es, i, k);
      NextOverlaps(es, start, end);
    }
  }

  lemma Ascends(es: seq<Extent>, i: nat, k: nat)
    requires Canonical(es) && i <= k < |es|
    ensures es[i].start <= es[k].start && es[i].end <= es[k].end
  {
  }

  lemma FrontOverlaps(es: seq<Extent>, start: nat, end: nat)
    requires Pos(es, start) > 0 && es[Pos(es, start) - 1].end > start
    ensures !Canonical(Put(es, start, end))
  {
    hide Pos;
    var i, put := Pos(es, start), Put(es, start, end);
    assert put[i - 1] == es[i - 1] && put[i].start == start;
  }

  lemma NextOverlaps(es: seq<Extent>, start: nat, end: nat)
    requires Pos(es, start) < |es| && es[Pos(es, start)].start < end
    ensures !Canonical(Put(es, start, end))
  {
    hide Pos;
    var i, put := Pos(es, start), Put(es, start, end);
    if MergesFront(es, i, start) {
      assert put[i - 1].end == end && put[i] == es[i];
    } else {
      assert put[i].end == end && put[i + 1] == es[i];
    }
  }

  /** ExtentTreeJustInsert finds a place: it has none for a start that is there already. */
  ghost predicate Startable(es: seq<Extent>, start: nat) { forall k :: 0 <= k < |es| ==> es[k].start != start }

  lemma FreshStarts(es: seq<Extent>, start: nat, end: nat)
    requires Canonical(es) && start < end && Fresh(es, start, end)
    ensures Startable(es, start)
  {
    hide Covers;
    forall k | 0 <= k < |es| ensures es[k].start != start {
      if es[k].start == start { CoversAt(es, k, start); }
    }
  }

  /** What is kept in front of and behind the new extent. */
  lemma SlicesCanonical(es: seq<Extent>, i: nat, start: nat, end: nat)
    requires Canonical(es) && i <= |es| && start < end
    requires (forall k :: 0 <= k < i ==> es[k].end <= start) && (forall k :: i <= k < |es| ==> end <= es[k].start)
    ensures var low := if MergesFront(es, i, start) then i - 1 else i;
            && Canonical(es[..low]) && (low < i ==> es[low].start < start)
            && forall k :: 0 <= k < low ==> es[k].end < if low < i then es[low].start else start
    ensures var high := if MergesNext(es, i, end) then i + 1 else i;
            && Canonical(es[high..]) && (high > i ==> end < es[i].end)
            && forall k :: high <= k < |es| ==> (if high > i then es[i].end else end) < es[k].start
  {
  }

  lemma CanonicalParts(a: seq<Extent>, m: Extent, b: seq<Extent>)
    requires Canonical(a) && Canonical(b) && m.start < m.end
    requires (forall k :: 0 <= k < |a| ==> a[k].end < m.start) && (forall k :: 0 <= k < |b| ==> m.end < b[k].start)
    ensures Canonical(a + [m] + b)
  {
    var r := a + [m] + b;
    forall i | 0 <= i < |r| ensures r[i] == if i < |a| then a[i] else if i == |a| then m else b[i - |a| - 1] {}
  }

  lemma CoversParts(a: seq<Extent>, m: Extent, b: seq<Extent>, x: nat)
    ensures Covers(a + [m] + b, x) <==> Covers(a, x) || In(m, x) || Covers(b, x)
  {
    var es := a + [m] + b;
    if Covers(es, x) {
      var i :| 0 <= i < |es| && In(es[i], x);
      assert i < |a| ==> es[i] == a[i];
      assert i > |a| ==> es[i] == b[i - |a| - 1];
    }
    if Covers(a, x) {
      var i :| 0 <= i < |a| && In(a[i], x);
      assert es[i] == a[i];
    }
    if In(m, x) {
      assert es[|a|] == m;
    }
    if Covers(b, x) {
      var i :| 0 <= i < |b| && In(b[i], x);
      assert es[|a| + 1 + i] == b[i];
    }
  }

  lemma CoversSplit(es: seq<Extent>, i: nat, x: nat)
    requires i < |es|
    ensures Covers(es, x) <==> Covers(es[..i], x) || In(es[i], x) || Covers(es[i + 1..], x)
  {
    assert es == es[..i] + [es[i]] + es[i + 1..];
    CoversParts(es[..i], es[i], es[i + 1..], x);
  }

  lemma CoversHalves(es: seq<Extent>, i: nat, x: nat)
    requires i <= |es|
    ensures Covers(es, x) <==> Covers(es[..i], x) || Covers(es[i..], x)
  {
    if Covers(es, x) {
      var k :| 0 <= k < |es| && In(es[k], x);
      assert k < i ==> es[..i][k] == es[k];
      assert k >= i ==> es[i..][k - i] == es[k];
    }
    if Covers(es[..i], x) {
      var k :| 0 <= k < i && In(es[..i][k], x);
      assert es[k] == es[..i][k];
    }
    if Covers(es[i..], x) {
      var k :| 0 <= k < |es| - i && In(es[i..][k], x);
      assert es[i + k] == es[i..][k];
    }
  }

  /** Putting a range adds exactly its numbers. */
  lemma PutCovers(es: seq<Extent>, start: nat, end: nat, x: nat)
    requires Canonical(es) && start < end && Fresh(es, start, end)
    ensures Covers(Put(es, start, end), x) <==> Covers(es, x) || start <= x < end
  {
    hide Covers, Fresh, Pos;
    FreshBetween(es, start, end);
    var i := Pos(es, start);
    CoversHalves(es, i, x);
    if MergesFront(es, i, start) {
      CoversSplit(es[..i], i - 1, x);
      assert es[..i][..i - 1] == es[..i - 1] && es[..i][i..] == [];
      NothingCovers(x);
      if MergesNext(es, i, end) {
        CoversSplit(es[i..], 0, x);
        assert es[i..][..0] == [] && es[i..][1..] == es[i + 1..];
        CoversParts(es[..i - 1], Extent(es[i - 1].start, es[i].end), es[i + 1..], x);
      } else {
        CoversParts(es[..i - 1], Extent(es[i - 1].start, end), es[i..], x);
      }
    } else if MergesNext(es, i, end) {
      CoversSplit(es[i..], 0, x);
      NothingCovers(x);
      assert es[i..][..0] == [] && es[i..][1..] == es[i + 1..];
      CoversParts(es[..i], Extent(start, es[i].end), es[i + 1..], x);
    } else {
      CoversParts(es[..i], Extent(start, end), es[i..], x);
    }
  }

  lemma NothingCovers(x: nat)
    ensures !Covers([], x)
  {
  }

  // ---------- ExtentTreeGet ----------

  /** What is taken, and what is left, when `size` numbers are wanted. */
  function Taken(es: seq<Extent>, size: nat): seq<Extent>
    decreases |es|
  {
    if es == [] || size == 0 || es[0].start > es[0].end then []
    else if size >= es[0].end - es[0].start then [es[0]] + Taken(es[1..], size - (es[0].end - es[0].start))
    else [Extent(es[0].start, es[0].start + size)]
  }

  function Left(es: seq<Extent>, size: nat): seq<Extent>
    decreases |es|
  {
    if es == [] || size == 0 || es[0].start > es[0].end then es
    else if size >= es[0].end - es[0].start then Left(es[1..], size - (es[0].end - es[0].start))
    else [Extent(es[0].start + size, es[0].end)] + es[1..]
  }

  function Min(a: nat, b: nat): nat { if a <= b then a else b }

  lemma TakenStarts(es: seq<Extent>, size: nat)
    requires Canonical(es)
    ensures Taken(es, size) != [] ==> es != [] && Taken(es, size)[0].start == es[0].start
    ensures es != [] && Left(es, size) != [] ==> Left(es, size)[0].start >= es[0].start
  {
    if es != [] && size > 0 && size >= es[0].end - es[0].start {
      var n := size - (es[0].end - es[0].start);
      LeftAbove(es[1..], n, es[0].end);
    }
  }

  lemma {:induction false} LeftAbove(es: seq<Extent>, size: nat, low: nat)
    requires Canonical(es) && (es != [] ==> low < es[0].start)
    ensures Left(es, size) != [] ==> low < Left(es, size)[0].start
    decreases |es|
  {
    if es != [] && size > 0 && size >= es[0].end - es[0].start {
      LeftAbove(es[1..], size - (es[0].end - es[0].start), es[0].end);
    }
  }

  lemma CanonicalCons(e: Extent, es: seq<Extent>)
    requires e.start < e.end && Canonical(es) && (es != [] ==> e.end < es[0].start)
    ensures Canonical([e] + es)
  {
  }

  lemma UnitsCons(e: Extent, es: seq<Extent>)
    requires Canonical([e] + es) && Canonical(es)
    ensures e.start < e.end && Units([e] + es) == Count(e.start, e.end) + Units(es)
  {
    assert ([e] + es)[0] == e && ([e] + es)[1..] == es;
  }

  lemma {:induction false} GetCanonical(es: seq<Extent>, size: nat)
    requires Canonical(es)
    ensures Canonical(Taken(es, size)) && Canonical(Left(es, size))
    decreases |es|
  {
    hide Canonical;
    if es == [] || size == 0 {
      NoneCanonical();
    } else {
      HeadOf(es);
      var e, n := es[0], es[0].end - es[0].start;
      if size >= n {
        GetCanonical(es[1..], size - n);
        TakenStarts(es[1..], size - n);
        CanonicalCons(e, Taken(es[1..], size - n));
      } else {
        CanonicalCons(Extent(e.start + size, e.end), es[1..]);
        NoneCanonical();
        CanonicalCons(Extent(e.start, e.start + size), []);
        assert [Extent(e.start, e.start + size)] + [] == [Extent(e.start, e.start + size)];
      }
    }
  }

  lemma NoneCanonical()
    ensures Canonical([])
  {
  }

  /**
    Get takes the smallest min(size, total) numbers: put in front of what is left
    they are the numbers there were, in order.
   */
  lemma {:induction false} GetTakesSmallest(es: seq<Extent>, size: nat)
    requires Canonical(es)
    ensures Canonical(Taken(es, size)) && Canonical(Left(es, size))
    ensures Units(Taken(es, size)) + Units(Left(es, size)) == Units(es)
    ensures |Units(Taken(es, size))| == Min(size, |Units(es)|)
    decreases |es|
  {
    hide Canonical, Units;
    GetCanonical(es, size);
    if es == [] || size == 0 {
      NothingTaken(es);
    } else {
      var e, n, rest := es[0], es[0].end - es[0].start, es[1..];
      assert es == [e] + rest;
      assert e.start < e.end && Canonical(rest) by { HeadOf(es); }
      UnitsCons(e, rest);
      if size >= n {
        var t, l := Taken(rest, size - n), Left(rest, size - n);
        GetTakesSmallest(rest, size - n);
        UnitsCons(e, t);
        assert Count(e.start, e.end) + Units(t) + Units(l) == Count(e.start, e.end) + (Units(t) + Units(l));
      } else {
        GetPart(e, rest, size);
      }
    }
  }

  lemma NothingTaken(es: seq<Extent>)
    requires Canonical(es)
    ensures Units([]) == [] && Units([]) + Units(es) == Units(es)
  {
  }

  lemma HeadOf(es: seq<Extent>)
    requires Canonical(es) && es != []
    ensures es[0].start < es[0].end && Canonical(es[1..])
    ensures es[1..] != [] ==> es[0].end < es[1..][0].start
  {
  }

  lemma GetPart(e: Extent, rest: seq<Extent>, size: nat)
    requires Canonical([e] + rest) && Canonical(rest) && 0 < size < e.end - e.start
    ensures var t, l := Extent(e.start, e.start + size), Extent(e.start + size, e.end);
            && Canonical([t]) && Canonical([l] + rest)
            && Units([t]) == Count(e.start, e.start + size)
            && Units([t]) + Units([l] + rest) == Units([e] + rest)
  {
    hide Units;
    var t, l := Extent(e.start, e.start + size), Extent(e.start + size, e.end);
    assert ([e] + rest)[0] == e && (rest != [] ==> ([e] + rest)[1] == rest[0]);
    CanonicalCons(l, rest);
    CanonicalCons(t, []);
    assert [t] + [] == [t];
    UnitsCons(t, []);
    NothingTaken([]);
    UnitsCons(l, rest);
    UnitsCons(e, rest);
    assert Count(e.start, e.end) == Count(e.start, e.start + size) + Count(e.start + size, e.end);
  }

  // ---------- ExtentTreeReverseHolesAndExtents ----------

  /** The holes from `lastHole` on, put one by one. */
  function HolesFrom(es: seq<Extent>, lastHole: nat, maxSize: nat, done: seq<Extent>): seq<Extent>
    decreases |es|
  {
    if es == [] then if lastHole != maxSize then Put(done, lastHole, maxSize) else done
    else HolesFrom(es[1..], es[0].end, maxSize, if lastHole < es[0].start then Put(done, lastHole, es[0].start) else done)
  }

  function Reverse(es: seq<Extent>, maxSize: nat): seq<Extent> { HolesFrom(es, 0, maxSize, []) }

  ghost predicate Bounded(es: seq<Extent>, maxSize: nat) { forall i :: 0 <= i < |es| ==> es[i].end <= maxSize }

  ghost predicate CoversBelow(done: seq<Extent>, low: nat) { forall x: nat :: Covers(done, x) ==> x < low }

  lemma {:induction false} HolesCover(es: seq<Extent>, lastHole: nat, maxSize: nat, done: seq<Extent>, x: nat)
    requires Canonical(es) && Bounded(es, maxSize) && Canonical(done) && CoversBelow(done, lastHole) && lastHole <= maxSize
    requires es != [] ==> lastHole == 0 || lastHole < es[0].start
    ensures Canonical(HolesFrom(es, lastHole, maxSize, done))
    ensures Covers(HolesFrom(es, lastHole, maxSize, done), x) <==> Covers(done, x) || (lastHole <= x < maxSize && !Covers(es, x))
    decreases |es|
  {
    hide Covers, Canonical, Pos, Put;
    if es == [] {
      NothingCovers(x);
      if lastHole != maxSize {
        assert Fresh(done, lastHole, maxSize);
        PutCanonical(done, lastHole, maxSize);
        PutCovers(done, lastHole, maxSize, x);
      }
    } else {
      CoversCons(es, x);
      TailCanonical(es, maxSize);
      var next := done;
      if lastHole < es[0].start {
        assert Fresh(done, lastHole, es[0].start);
        next := Put(done, lastHole, es[0].start);
        PutCanonical(done, lastHole, es[0].start);
        forall y: nat ensures Covers(next, y) <==> Covers(done, y) || lastHole <= y < es[0].start { PutCovers(done, lastHole, es[0].start, y); }
      }
      HolesCover(es[1..], es[0].end, maxSize, next, x);
      TailAbove(es, x);
    }
  }

  lemma TailCanonical(es: seq<Extent>, maxSize: nat)
    requires Canonical(es) && Bounded(es, maxSize) && es != []
    ensures Canonical(es[1..]) && Bounded(es[1..], maxSize) && es[0].start < es[0].end <= maxSize
    ensures es[1..] != [] ==> es[0].end < es[1..][0].start
  {
  }

  lemma TailAbove(es: seq<Extent>, x: nat)
    requires Canonical(es) && es != []
    ensures Covers(es[1..], x) ==> x > es[0].end
  {
  }

  /** ReverseHolesAndExtents is the complement below maxSize. */
  lemma ReverseCovers(es: seq<Extent>, maxSize: nat, x: nat)
    requires Canonical(es) && Bounded(es, maxSize)
    ensures Canonical(Reverse(es, maxSize)) && (Covers(Reverse(es, maxSize), x) <==> x < maxSize && !Covers(es, x))
  {
    NothingCovers(x);
    HolesCover(es, 0, maxSize, [], x);
  }

  lemma ReverseBounded(es: seq<Extent>, maxSize: nat)
    requires Canonical(es) && Bounded(es, maxSize)
    ensures Bounded(Reverse(es, maxSize), maxSize)
  {
    hide Reverse;
    var r := Reverse(es, maxSize);
    ReverseCovers(es, maxSize, 0);
    forall i | 0 <= i < |r| ensures r[i].end <= maxSize {
      var x := r[i].end - 1;
      assert In(r[i], x) && Covers(r, x);
      ReverseCovers(es, maxSize, x);
    }
  }

  /** Reversing twice gives the tree back. */
  lemma ReverseTwice(es: seq<Extent>, maxSize: nat)
    requires Canonical(es) && Bounded(es, maxSize)
    ensures Reverse(Reverse(es, maxSize), maxSize) == es
  {
    hide Reverse, Canonical, Covers;
    var r := Reverse(es, maxSize);
    ReverseBounded(es, maxSize);
    ReverseCovers(es, maxSize, 0);
    ReverseCovers(r, maxSize, 0);
    forall x: nat ensures Covers(Reverse(r, maxSize), x) <==> Covers(es, x) {
      ReverseCovers(es, maxSize, x);
      ReverseCovers(r, maxSize, x);
      CoveredBelow(es, maxSize, x);
    }
    CanonicalUnique(Reverse(r, maxSize), es);
  }

  lemma CoveredBelow(es: seq<Extent>, maxSize: nat, x: nat)
    requires Bounded(es, maxSize)
    ensures Covers(es, x) ==> x < maxSize
  {
  }

  // ---------- the tree and the container ----------

  const DEFAULT_EXTENT_CONTAINER_NUM: nat := 3

  /** ExtentContainer: an array that doubles when it is full. */
  class ExtentContainer {
    var slots: array<Extent>
    var currentNum: nat
    var size: nat

    ghost predicate Valid()
      reads this, slots
    {
      0 < slots.Length && currentNum <= slots.Length && Contents() == slots[..currentNum]
    }

    ghost function Contents(): seq<Extent>
      reads this, slots
    {
      if currentNum <= slots.Length then slots[..currentNum] else []
    }

    constructor ()
      ensures Valid() && Contents() == [] && size == 0 && fresh(slots)
    {
      slots := new Extent[DEFAULT_EXTENT_CONTAINER_NUM](_ => Extent(0, 0));
      currentNum, size := 0, 0;
    }

    method Append(start: nat, end: nat)
      requires Valid() && start <= end
      modifies this, slots
      ensures Valid() && Contents() == old(Contents()) + [Extent(start, end)] && size == old(size) + (end - start)
      ensures slots == old(slots) || fresh(slots)
    {
      ghost var was := Contents();
      if currentNum == slots.Length {
        var newArray := new Extent[slots.Length * 2](_ => Extent(0, 0));
        forall i | 0 <= i < slots.Length {
          newArray[i] := slots[i];
        }
        assert newArray[..currentNum] == was;
        slots := newArray;
      }
      slots[currentNum] := Extent(start, end);
      size := size + (end - start);
      currentNum := currentNum + 1;
      assert slots[..currentNum] == slots[..currentNum - 1] + [Extent(start, end)];
    }
  }

  class ExtentTree {
    /** The nodes of the tree, in order. */
    var nodes: seq<Extent>

    constructor ()
      ensures nodes == []
    {
      nodes := [];
    }

    /** ExtentTreeLowerBound and rb_next: the place behind the last node that starts at `addr` or before. */
    method Next(addr: nat) returns (i: nat)
      requires Canonical(nodes)
      ensures i == Pos(nodes, addr)
    {
      hide Canonical;
      PosSplits(nodes, addr);
      i := 0;
      var hi := |nodes|;
      while i < hi
        invariant 0 <= i <= Pos(nodes, addr) <= hi <= |nodes|
      {
        var mid := (i + hi) / 2;
        if addr < nodes[mid].start {
          hi := mid;
        } else {
          i := mid + 1;
        }
      }
    }

    method ExtentTreePut(start: nat, end: nat)
      requires Canonical(nodes) && start < end && Startable(nodes, start)
      modifies this
      ensures nodes == Put(old(nodes), start, end)
      ensures Canonical(nodes) <==> Fresh(old(nodes), start, end)
    {
      hide Canonical, Fresh, Pos;
      PutCanonicalIff(nodes, start, end);
      var i := Next(start);
      var front, next := i > 0 && nodes[i - 1].end == start, i < |nodes| && nodes[i].start == end;
      if front && next {
        var nextEnd := nodes[i].end;
        nodes := nodes[..i] + nodes[i + 1..];
        nodes := nodes[i - 1 := Extent(nodes[i - 1].start, nextEnd)];
      } else if front {
        nodes := nodes[i - 1 := Extent(nodes[i - 1].start, end)];
      } else if next {
        var node := nodes[i];
        nodes := nodes[..i] + nodes[i + 1..];
        nodes := nodes[..i] + [Extent(start, node.end)] + nodes[i..];
      } else {
        nodes := nodes[..i] + [Extent(start, end)] + nodes[i..];
      }
    }

    /** One round of ExtentTreeGet: a whole node, or the front of one. */
    method TakeNode(container: ExtentContainer, size: nat) returns (rest: nat)
      requires Canonical(nodes) && container.Valid() && nodes != [] && size > 0
      modifies this, container, container.slots
      ensures Canonical(nodes) && container.Valid() && rest <= size && (container.slots == old(container.slots) || fresh(container.slots))
      ensures |nodes| < |old(nodes)| || (rest == 0 && |nodes| == |old(nodes)|)
      ensures old(container.Contents()) + Taken(old(nodes), size) == container.Contents() + Taken(nodes, rest)
      ensures Left(old(nodes), size) == Left(nodes, rest)
      ensures container.size == old(container.size) + (size - rest) && |Units(old(nodes))| == (size - rest) + |Units(nodes)|
    {
      hide Units, Canonical, Taken, Left;
      ghost var done := container.Contents();
      GetStep(nodes, size);
      var node := nodes[0];
      nodes := nodes[1..];
      if size >= node.end - node.start {
        container.Append(node.start, node.end);
        rest := size - (node.end - node.start);
        assert done + ([node] + Taken(nodes, rest)) == done + [node] + Taken(nodes, rest);
      } else {
        container.Append(node.start, node.start + size);
        nodes := [Extent(node.start + size, node.end)] + nodes;
        assert done + [Extent(node.start, node.start + size)] + [] == done + [Extent(node.start, node.start + size)];
        rest := 0;
      }
    }

    method ExtentTreeGet(container: ExtentContainer, wanted: nat)
      requires Canonical(nodes) && container.Valid() && container.Contents() == []
      modifies this, container, container.slots
      ensures nodes == Left(old(nodes), wanted) && Canonical(nodes)
      ensures container.Valid() && container.Contents() == Taken(old(nodes), wanted)
      ensures Canonical(Taken(old(nodes), wanted))
      ensures container.size == old(container.size) + |Units(Taken(old(nodes), wanted))|
      ensures container.slots == old(container.slots) || fresh(container.slots)
    {
      hide Units, Canonical, Taken, Left;
      ghost var all, size0 := nodes, container.size;
      GetTakesSmallest(all, wanted);
      var size: nat := wanted;
      assert [] + Taken(all, wanted) == Taken(all, wanted);
      while nodes != [] && size > 0
        invariant Canonical(nodes) && container.Valid() && size <= wanted
        invariant container.slots == old(container.slots) || fresh(container.slots)
        invariant container.Contents() + Taken(nodes, size) == Taken(all, wanted) && Left(nodes, size) == Left(all, wanted)
        invariant container.size == size0 + (wanted - size) && |Units(all)| == (wanted - size) + |Units(nodes)|
        decreases |nodes|, size
      {
        size := TakeNode(container, size);
      }
      GetEnds(nodes, size);
      assert container.Contents() + [] == container.Contents();
    }

    method ExtentTreeBatchPut(container: ExtentContainer)
      requires Canonical(nodes) && container.Valid() && Puttable(nodes, container.Contents())
      modifies this
      ensures nodes == PutAll(old(nodes), container.Contents()) && Canonical(nodes)
    {
      hide Canonical, Fresh, Put;
      ghost var was, es := nodes, container.Contents();
      assert es[..0] == [] && es[0..] == es;
      for i := 0 to container.currentNum
        invariant Canonical(nodes) && container.Valid() && container.Contents() == es && |es| == container.currentNum
        invariant Puttable(nodes, es[i..]) && PutAll(nodes, es[i..]) == PutAll(was, es)
      {
        var e := container.slots[i];
        assert es[i..][0] == e && es[i..][1..] == es[i + 1..];
        FreshStarts(nodes, e.start, e.end);
        ExtentTreePut(e.start, e.end);
      }
    }

    method ExtentTreeReverseHolesAndExtents(maxSize: nat)
      requires Canonical(nodes) && Bounded(nodes, maxSize)
      modifies this
      ensures nodes == Reverse(old(nodes), maxSize) && Canonical(nodes)
    {
      hide Canonical, Fresh, Put, Covers, Bounded;
      ghost var all := nodes;
      var lastHole: nat := 0;
      var newTree := new ExtentTree();
      assert Canonical([]) by { NoneCanonical(); }
      NothingBelow(0);
      while nodes != []
        invariant Canonical(nodes) && Bounded(nodes, maxSize) && Canonical(newTree.nodes) && CoversBelow(newTree.nodes, lastHole)
        invariant lastHole <= maxSize && (nodes != [] ==> lastHole == 0 || lastHole < nodes[0].start)
        invariant HolesFrom(nodes, lastHole, maxSize, newTree.nodes) == Reverse(all, maxSize)
        decreases |nodes|
      {
        TailCanonical(nodes, maxSize);
        ghost var done := newTree.nodes;
        HoleStep(done, lastHole, nodes[0]);
        if lastHole < nodes[0].start {
          FreshStarts(done, lastHole, nodes[0].start);
          newTree.ExtentTreePut(lastHole, nodes[0].start);
        }
        lastHole := nodes[0].end;
        nodes := nodes[1..];
      }
      if lastHole != maxSize {
        BeyondIsFresh(newTree.nodes, lastHole, maxSize);
        FreshStarts(newTree.nodes, lastHole, maxSize);
        newTree.ExtentTreePut(lastHole, maxSize);
      }
      nodes := newTree.nodes;
    }
  }

  lemma GetStep(es: seq<Extent>, size: nat)
    requires Canonical(es) && es != [] && size > 0
    ensures es[0].start < es[0].end && Canonical(es[1..])
    ensures var n := es[0].end - es[0].start;
            && |Units(es)| == n + |Units(es[1..])|
            && (size >= n ==> Taken(es, size) == [es[0]] + Taken(es[1..], size - n) && Left(es, size) == Left(es[1..], size - n))
            && (size < n ==>
                  var l := [Extent(es[0].start + size, es[0].end)] + es[1..];
                  && Taken(es, size) == [Extent(es[0].start, es[0].start + size)] && Taken(l, 0) == []
                  && Left(es, size) == l == Left(l, 0) && Canonical(l) && |Units(l)| == n - size + |Units(es[1..])|)
  {
    HeadOf(es);
    if size < es[0].end - es[0].start {
      CanonicalCons(Extent(es[0].start + size, es[0].end), es[1..]);
      UnitsCons(Extent(es[0].start + size, es[0].end), es[1..]);
    }
  }

  lemma GetEnds(es: seq<Extent>, size: nat)
    requires Canonical(es) && (es == [] || size == 0)
    ensures Taken(es, size) == [] && Left(es, size) == es && (es == [] ==> Units(es) == [])
  {
  }

  /** The ranges can be put one after the other: each is fresh when its turn comes. */
  ghost predicate Puttable(es: seq<Extent>, ranges: seq<Extent>)
    decreases |ranges|
  {
    ranges == [] ||
    (ranges[0].start < ranges[0].end && Fresh(es, ranges[0].start, ranges[0].end)
     && Puttable(Put(es, ranges[0].start, ranges[0].end), ranges[1..]))
  }

  function PutAll(es: seq<Extent>, ranges: seq<Extent>): seq<Extent>
    decreases |ranges|
  {
    if ranges == [] then es else PutAll(Put(es, ranges[0].start, ranges[0].end), ranges[1..])
  }

  lemma NothingBelow(low: nat)
    ensures CoversBelow([], low)
  {
  }

  lemma BeyondIsFresh(done: seq<Extent>, low: nat, high: nat)
    requires CoversBelow(done, low)
    ensures Fresh(done, low, high)
  {
  }

  lemma HoleStep(done: seq<Extent>, lastHole: nat, e: Extent)
    requires Canonical(done) && CoversBelow(done, lastHole) && e.start < e.end && (lastHole == 0 || lastHole < e.start)
    ensures lastHole < e.start ==> Fresh(done, lastHole, e.start) && CoversBelow(Put(done, lastHole, e.start), e.end)
    ensures lastHole >= e.start ==> CoversBelow(done, e.end)
  {
    hide Covers, Put;
    if lastHole < e.start {
      BeyondIsFresh(done, lastHole, e.start);
      forall x: nat ensures Covers(Put(done, lastHole, e.start), x) <==> Covers(done, x) || lastHole <= x < e.start {
        PutCovers(done, lastHole, e.start, x);
      }
    }
  }

  // ---------- putting several ranges ----------

  /** Non-empty, apart from each other and from the set. */
  ghost predicate Separate(es: seq<Extent>, ranges: seq<Extent>) {
    && (forall k :: 0 <= k < |ranges| ==> ranges[k].start < ranges[k].end && Fresh(es, ranges[k].start, ranges[k].end))
    && (forall j, k :: 0 <= j < k < |ranges| ==> ranges[j].end <= ranges[k].start || ranges[k].end <= ranges[j].start)
  }

  lemma SeparateTail(es: seq<Extent>, ranges: seq<Extent>)
    requires Canonical(es) && Separate(es, ranges) && ranges != []
    ensures ranges[0].start < ranges[0].end && Fresh(es, ranges[0].start, ranges[0].end)
    ensures Separate(Put(es, ranges[0].start, ranges[0].end), ranges[1..])
  {
    hide Covers, Put, Canonical;
    var e := ranges[0];
    var r := Put(es, e.start, e.end);
    forall k | 0 <= k < |ranges| - 1 ensures Fresh(r, ranges[1..][k].start, ranges[1..][k].end) {
      var f := ranges[k + 1];
      forall x: nat | f.start <= x < f.end ensures !Covers(r, x) {
        PutCovers(es, e.start, e.end, x);
        assert Fresh(es, f.start, f.end);
      }
    }
  }

  /** Separate ranges can be put in any order; the set is the union. */
  lemma {:induction false} PutAllCovers(es: seq<Extent>, ranges: seq<Extent>, x: nat)
    requires Canonical(es) && Separate(es, ranges)
    ensures Puttable(es, ranges) && Canonical(PutAll(es, ranges))
    ensures Covers(PutAll(es, ranges), x) <==> Covers(es, x) || Covers(ranges, x)
    decreases |ranges|
  {
    hide Covers, Put, Canonical, Fresh;
    if ranges == [] {
      NothingCovers(x);
    } else {
      var e := ranges[0];
      SeparateTail(es, ranges);
      PutCanonical(es, e.start, e.end);
      PutCovers(es, e.start, e.end, x);
      PutAllCovers(Put(es, e.start, e.end), ranges[1..], x);
      CoversCons(ranges, x);
    }
  }

  lemma {:induction false} TakenOrLeft(es: seq<Extent>, size: nat, x: nat)
    requires Canonical(es)
    ensures Canonical(Taken(es, size)) && Canonical(Left(es, size))
    ensures Covers(es, x) <==> Covers(Taken(es, size), x) || Covers(Left(es, size), x)
    ensures !(Covers(Taken(es, size), x) && Covers(Left(es, size), x))
  {
    hide Covers, Canonical, Taken, Left, Units;
    GetTakesSmallest(es, size);
    var t, l := Units(Taken(es, size)), Units(Left(es, size));
    UnitsCover(es, x);
    UnitsCover(Taken(es, size), x);
    UnitsCover(Left(es, size), x);
    UnitsAscend(es);
    assert x in t + l <==> x in t || x in l;
    forall i, j | 0 <= i < |t| && 0 <= j < |l| ensures t[i] < l[j] {
      var m := |t| + j;
      assert t[i] == (t + l)[i] && l[j] == (t + l)[m];
    }
  }

  lemma TakenSeparate(es: seq<Extent>, size: nat)
    requires Canonical(es)
    ensures Canonical(Left(es, size)) && Separate(Left(es, size), Taken(es, size))
  {
    hide Taken, Left, Covers;
    GetTakesSmallest(es, size);
    var t, l := Taken(es, size), Left(es, size);
    forall k | 0 <= k < |t| ensures Fresh(l, t[k].start, t[k].end) {
      forall x: nat | t[k].start <= x < t[k].end ensures !Covers(l, x) {
        TakenOrLeft(es, size, x);
        CoversAt(t, k, x);
      }
    }
  }

  /** What was taken, put back, gives the very tree there was before. */
  lemma GetThenPutBack(es: seq<Extent>, size: nat)
    requires Canonical(es)
    ensures PutAll(Left(es, size), Taken(es, size)) == es
  {
    hide Canonical, Covers, Taken, Left, PutAll, Puttable, Separate;
    TakenSeparate(es, size);
    var r := PutAll(Left(es, size), Taken(es, size));
    PutAllCovers(Left(es, size), Taken(es, size), 0);
    forall x: nat ensures Covers(r, x) <==> Covers(es, x) {
      PutAllCovers(Left(es, size), Taken(es, size), x);
      TakenOrLeft(es, size, x);
    }
    CanonicalUnique(r, es);
  }
}
