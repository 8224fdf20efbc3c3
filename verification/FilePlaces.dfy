/**
  Where a write puts its bytes: the rest of the current area first, then the new areas
  one after the other, each filled before the next is added, so that nothing is wasted.
 */
module FilePlaces {
  import opened Wrappers
  import opened Nvm
  import opened FileExtents
  import opened FileExtentTree
  import opened FileRead
  import opened FileState
  import opened FileRuns

  /** The device address of byte `j` of data that is laid into the areas from the first one on. */
  function PlaceIn(areas: seq<Space>, j: nat): Option<nat> {
    if areas == [] then None
    else if j < areas[0].size then Some(areas[0].start + j)
    else PlaceIn(areas[1..], j - areas[0].size)
  }

  /** The device address of byte `j` of a write. */
  function Place(m: Manager, areas: seq<Space>, j: nat): Option<nat> {
    var rest := RestSizeOfCurrentArea(m);
    if j < rest then Some(m.curWriteStart + j) else PlaceIn(areas, if rest >= 0 then j - rest else j)
  }

  function SizeOf(areas: seq<Space>): nat {
    if areas == [] then 0 else areas[0].size + SizeOf(areas[1..])
  }

  /**
    What a write of `n` bytes to file position `pos` makes of the manager: its bytes are in their
    places, the other positions where they were, the areas are spaces of the file, and what
    they have left over can be written next, in the last of them.
   */
  ghost predicate Placed(m: Manager, r: Manager, pos: nat, n: nat, areas: seq<Space>) {
    var rest := RestSizeOfCurrentArea(m);
    && Sorted(r.extents) && (forall x :: x in r.spaces <==> x in m.spaces || x in areas)
    && (forall p: nat :: MapAt(r.extents, p) == if pos <= p < pos + n then Place(m, areas, p - pos) else MapAt(m.extents, p))
    && if n <= rest then
         r.curArea == m.curArea && RestSizeOfCurrentArea(r) == rest - n
       else
         areas != [] && r.curArea == areas[|areas| - 1].start && RestSizeOfCurrentArea(r) == rest + SizeOf(areas) - n
  }

  lemma FillPlaced(m: Manager, pos: nat, n: nat)
    requires Sorted(m.extents) && 0 < n <= RestSizeOfCurrentArea(m)
    ensures Placed(m, Fill(m, pos, n), pos, n, [])
  {
    hide Override, Sorted, MapAt;
    var x := Extent(m.curWriteStart, pos, n);
    OverrideSorted(m.extents, x);
    forall p: nat ensures MapAt(Override(m.extents, x), p) == if pos <= p < pos + n then Some(m.curWriteStart + (p - pos)) else MapAt(m.extents, p) {
      OverrideAt(m.extents, x, p);
    }
  }

  /** The first area, grown into and filled, when the current one is full. */
  lemma GrownPlaced(m: Manager, pos: nat, area: Space, n: nat)
    requires Sorted(m.extents) && RestSizeOfCurrentArea(m) == 0 && 0 < n <= area.size
    ensures Placed(m, Fill(Grow(m, area.start, area.size), pos, n), pos, n, [area])
  {
    hide Override, InsertSpace, Sorted, MapAt;
    var g := Grow(m, area.start, area.size);
    FillPlaced(g, pos, n);
    assert SizeOf([area]) == area.size;
    forall x ensures x in g.spaces <==> x in m.spaces || x in [area] { InsertSpaceHas(m.spaces, area, x); }
    forall j: nat | j < n ensures Place(m, [area], j) == Place(g, [], j) {
    }
  }

  /** A first part that ends in a full area, and the rest of the write behind it. */
  lemma PlacedOn(m: Manager, g: Manager, r: Manager, pos: nat, first: seq<Space>, k: nat, later: seq<Space>, n: nat)
    requires Placed(m, g, pos, k, first) && RestSizeOfCurrentArea(g) == 0 && Placed(g, r, pos + k, n, later) && n > 0
    requires RestSizeOfCurrentArea(m) >= 0 && k == RestSizeOfCurrentArea(m) + SizeOf(first)
    requires first == [] || first == [first[0]]
    ensures Placed(m, r, pos, k + n, first + later)
  {
    hide MapAt, Sorted;
    var rest := RestSizeOfCurrentArea(m);
    SizeOfBoth(first, later);
    assert (first + later)[|first + later| - 1] == later[|later| - 1];
    forall p: nat ensures MapAt(r.extents, p) == if pos <= p < pos + k + n then Place(m, first + later, p - pos) else MapAt(m.extents, p) {
      if pos <= p < pos + k + n {
        PlaceBoth(m, first, later, p - pos);
        if p >= pos + k {
          assert MapAt(r.extents, p) == Place(g, later, p - (pos + k));
        } else {
          assert MapAt(r.extents, p) == MapAt(g.extents, p);
        }
      }
    }
  }

  lemma SizeOfBoth(first: seq<Space>, later: seq<Space>)
    requires first == [] || first == [first[0]]
    ensures SizeOf(first + later) == SizeOf(first) + SizeOf(later)
  {
    if first == [] {
      assert first + later == later;
    } else {
      assert (first + later)[1..] == later && first[1..] == [];
    }
  }

  lemma PlaceBoth(m: Manager, first: seq<Space>, later: seq<Space>, j: nat)
    requires first == [] || first == [first[0]]
    requires RestSizeOfCurrentArea(m) >= 0
    ensures var k := RestSizeOfCurrentArea(m) + SizeOf(first);
            Place(m, first + later, j) == if j < k then Place(m, first, j) else PlaceIn(later, j - k)
  {
    if first == [] {
      assert first + later == later;
    } else {
      assert (first + later)[1..] == later && (first + later)[0] == first[0] && first[1..] == [];
    }
  }

  lemma {:induction false} AreasPlaced(m: Manager, pos: nat, areas: seq<Space>, buf: seq<byte>)
    requires Sorted(m.extents) && RestSizeOfCurrentArea(m) == 0 && AreasFit(areas, |buf|)
    ensures Placed(m, RunManager(m, pos, WriteAreas(areas, buf)), pos, |buf|, areas)
    decreases |areas|
  {
    hide RestSizeOfCurrentArea, Placed, Grow, Fill;
    var a := areas[0];
    var n := Min(|buf|, a.size);
    var f := Fill(Grow(m, a.start, a.size), pos, n);
    var later := WriteAreas(areas[1..], buf[n..]);
    GrownPlaced(m, pos, a, n);
    ThenRun(m, pos, GrowStep(a.start, a.size), FillStep(buf[..n]), later);
    if |areas| > 1 {
      FilledUp(m, f, pos, n, a);
      AreasPlaced(f, pos + n, areas[1..], buf[n..]);
      PlacedOn(m, f, RunManager(f, pos + n, later), pos, [a], n, areas[1..], |buf| - n);
      assert [a] + areas[1..] == areas;
    } else {
      assert areas == [a];
    }
  }

  lemma FilledUp(m: Manager, f: Manager, pos: nat, n: nat, a: Space)
    requires Placed(m, f, pos, n, [a]) && n == a.size > 0 && RestSizeOfCurrentArea(m) == 0
    ensures RestSizeOfCurrentArea(f) == 0 && Sorted(f.extents) && n == RestSizeOfCurrentArea(m) + SizeOf([a])
  {
    hide MapAt, Sorted;
    assert [a][1..] == [] && SizeOf([a]) == a.size + SizeOf([]);
  }

  lemma ThenRun(m: Manager, pos: nat, s1: Step, s2: Step, later: seq<Step>)
    requires s1.GrowStep? && s2.FillStep?
    ensures RunManager(m, pos, [s1, s2] + later) == RunManager(StepManager(StepManager(m, pos, s1), pos, s2), pos + |s2.data|, later)
  {
    hide StepManager;
    var steps := [s1, s2] + later;
    assert steps[1..] == [s2] + later && steps[1..][1..] == later;
  }

  /** Every write puts its bytes where Place says. */
  lemma WritePlaced(m: Manager, size: nat, pos: nat, buf: seq<byte>, areas: seq<Space>)
    requires AreasOk(m, size) && Sorted(m.extents) && buf != []
    requires |buf| > RestSizeOfCurrentArea(m) ==> AreasFit(areas, |buf| - RestSizeOfCurrentArea(m))
    ensures Placed(m, RunManager(m, pos, WriteSteps(m, buf, areas)), pos, |buf|, if |buf| <= RestSizeOfCurrentArea(m) then [] else areas)
  {
    hide AreasOk, AreasFit, WriteAreas, Placed, Fill, Sorted;
    var rest := RestSizeOfCurrentArea(m);
    RestIsNat(m, size);
    if |buf| <= rest {
      FillPlaced(m, pos, |buf|);
      RunSingle(m, pos, FillStep(buf));
    } else if rest > 0 {
      var f := Fill(m, pos, rest);
      FillPlaced(m, pos, rest);
      AllFilled(m, f, pos, rest);
      AreasPlaced(f, pos + rest, areas, buf[rest..]);
      var later := WriteAreas(areas, buf[rest..]);
      assert ([FillStep(buf[..rest])] + later)[1..] == later;
      PlacedOn(m, f, RunManager(f, pos + rest, later), pos, [], rest, areas, |buf| - rest);
      assert [] + areas == areas;
    } else {
      AreasPlaced(m, pos, areas, buf);
    }
  }

  lemma AllFilled(m: Manager, f: Manager, pos: nat, n: nat)
    requires Placed(m, f, pos, n, []) && n == RestSizeOfCurrentArea(m)
    ensures RestSizeOfCurrentArea(f) == 0 && Sorted(f.extents) && SizeOf([]) == 0
  {
    hide MapAt, Sorted;
  }
}
