/**
  Reading a range of a file.

  FileExtentTreeRead zeroes a hole in front of an extent at the place where the
  extent's data goes, not where the hole is.  The model keeps that.  The
  destination is the first t - s bytes of `buf`; whatever is behind them is other
  memory, which the misplaced zeroes may reach.
 */
module FileRead {
  import opened Wrappers
  import opened Nvm
  import opened FileExtents
  import opened FileExtentTree

  ghost predicate InDevice(es: seq<Extent>, size: nat) {
    forall i :: 0 <= i < |es| ==> es[i].start + es[i].size <= size
  }

  /** The byte a file with these extents has at `p`: stored data, or zero in a hole. */
  ghost function FlatByte(es: seq<Extent>, mem: seq<byte>, p: nat): byte {
    var a := MapAt(es, p);
    if a.Some? && a.value < |mem| then mem[a.value] else 0
  }

  function Zeros(n: nat): (z: seq<byte>)
    ensures |z| == n && forall i :: 0 <= i < n ==> z[i] == 0
  {
    seq(n, _ => 0)
  }

  function Max(a: nat, b: nat): nat { if a >= b then a else b }

  function Min(a: nat, b: nat): nat { if a <= b then a else b }

  /** Where the read may stand: everything before `last` is done. */
  ghost predicate Standing(es: seq<Extent>, s: nat, t: nat, last: nat) {
    Sorted(es) && s <= last <= t && (last == s || Above(es, last))
  }

  /** No byte the read stores lies behind the first `n` of the buffer. */
  ghost predicate StaysWithin(es: seq<Extent>, s: nat, t: nat, last: nat, n: nat)
    requires Standing(es, s, t, last)
    decreases |es|
  {
    t - s <= n &&
    if es == [] || es[0].fileStart >= t then true
    else
      StandingNext(es, s, t, last);
      if es[0].End() <= s then StaysWithin(es[1..], s, t, last, n)
      else
        var rs := Max(s, es[0].fileStart);
        (rs - s) + (rs - last) <= n && StaysWithin(es[1..], s, t, Min(t, es[0].End()), n)
  }

  /** The same for one extent. */
  predicate OneStays(e: Extent, s: nat, t: nat, last: nat, n: nat)
    requires s <= t && last <= Max(s, e.fileStart)
  {
    var rs := Max(s, e.fileStart);
    t - s <= n && (rs - s) + (rs - last) <= n
  }

  /** The buffer one extent leaves behind: misplaced zeroes, then data. */
  function ReadOne(e: Extent, mem: seq<byte>, s: nat, t: nat, last: nat, buf: seq<byte>): (r: seq<byte>)
    requires e.start + e.size <= |mem| && s < e.End() && e.fileStart < t && s <= last <= Max(s, e.fileStart) && s <= t
    requires OneStays(e, s, t, last, |buf|)
    ensures |r| == |buf|
  {
    var rs, re := Max(s, e.fileStart), Min(t, e.End());
    var zeroed := if last != rs then Splice(buf, rs - s, Zeros(rs - last)) else buf;
    Splice(zeroed, rs - s, mem[e.At(rs)..e.At(rs) + (re - rs)])
  }

  /** What the read loop leaves in the buffer. */
  ghost function ReadFrom(es: seq<Extent>, mem: seq<byte>, s: nat, t: nat, last: nat, buf: seq<byte>): (r: seq<byte>)
    requires InDevice(es, |mem|) && Standing(es, s, t, last) && StaysWithin(es, s, t, last, |buf|)
    ensures |r| == |buf|
    decreases |es|
  {
    if es == [] || es[0].fileStart >= t then
      if last != t then Splice(buf, last - s, Zeros(t - last)) else buf
    else
      assert InDevice(es[1..], |mem|);
      StandingNext(es, s, t, last);
      if es[0].End() <= s then ReadFrom(es[1..], mem, s, t, last, buf)
      else ReadFrom(es[1..], mem, s, t, Min(t, es[0].End()), ReadOne(es[0], mem, s, t, last, buf))
  }

  lemma StandingNext(es: seq<Extent>, s: nat, t: nat, last: nat)
    requires Standing(es, s, t, last) && es != [] && es[0].fileStart < t
    ensures es[0].End() <= s ==> Standing(es[1..], s, t, last)
    ensures es[0].End() > s ==> Standing(es[1..], s, t, Min(t, es[0].End())) && last <= Max(s, es[0].fileStart)
    ensures es[0].size > 0
  {
    SortedCons(es);
  }

  // ---------- when the read is right ----------

  /** One extent, seen from the position the read stands at. */
  lemma MapAtHead(es: seq<Extent>, p: nat)
    requires Sorted(es) && es != []
    ensures MapAt(es, p) == if es[0].Covers(p) then Some(es[0].At(p)) else MapAt(es[1..], p)
    ensures p < es[0].fileStart ==> MapAt(es, p) == None
  {
    if p < es[0].fileStart {
      MapAtOutside(es, p);
    }
  }

  lemma FlatHead(es: seq<Extent>, mem: seq<byte>, p: nat)
    requires Sorted(es) && es != [] && InDevice(es, |mem|)
    ensures es[0].start + es[0].size <= |mem|
    ensures FlatByte(es, mem, p) == if es[0].Covers(p) then mem[es[0].At(p)] else FlatByte(es[1..], mem, p)
    ensures p < es[0].fileStart ==> FlatByte(es, mem, p) == 0
  {
    MapAtHead(es, p);
  }

  lemma ReadOneBytes(e: Extent, mem: seq<byte>, s: nat, t: nat, last: nat, buf: seq<byte>, i: nat)
    requires e.start + e.size <= |mem| && s < e.End() && e.fileStart < t && s <= last <= Max(s, e.fileStart) && s <= t
    requires OneStays(e, s, t, last, |buf|) && i < |buf|
    ensures var rs, re := Max(s, e.fileStart), Min(t, e.End());
            ReadOne(e, mem, s, t, last, buf)[i] ==
              if rs <= s + i < re then mem[e.At(s + i)]
              else if last != rs && rs <= s + i < rs + (rs - last) then 0
              else buf[i]
  {
    hide Splice;
  }

  /** What is already read stays; a destination that was zero reads right. */
  lemma {:induction false} ReadIntoZeros(es: seq<Extent>, mem: seq<byte>, s: nat, t: nat, last: nat, buf: seq<byte>)
    requires InDevice(es, |mem|) && Standing(es, s, t, last) && StaysWithin(es, s, t, last, |buf|)
    requires forall i :: last - s <= i < t - s ==> buf[i] == 0
    ensures var r := ReadFrom(es, mem, s, t, last, buf);
            && (forall i :: 0 <= i < last - s ==> r[i] == buf[i])
            && (forall p :: last <= p < t ==> r[p - s] == FlatByte(es, mem, p))
    decreases |es|
  {
    hide ReadOne, Sorted, MapAt, FlatByte;
    var r := ReadFrom(es, mem, s, t, last, buf);
    if es == [] || es[0].fileStart >= t {
      forall p | last <= p < t ensures FlatByte(es, mem, p) == 0 { NothingBelow(es, mem, t, p); }
    } else {
      var e := es[0];
      StandingNext(es, s, t, last);
      if e.End() <= s {
        ReadIntoZeros(es[1..], mem, s, t, last, buf);
        forall p | last <= p < t ensures FlatByte(es, mem, p) == FlatByte(es[1..], mem, p) { FlatHead(es, mem, p); }
      } else {
        var rs, re, b := Max(s, e.fileStart), Min(t, e.End()), ReadOne(e, mem, s, t, last, buf);
        forall i | 0 <= i < t - s
          ensures b[i] == if rs <= s + i < re then mem[e.At(s + i)] else buf[i]
        {
          ReadOneBytes(e, mem, s, t, last, buf, i);
        }
        ReadIntoZeros(es[1..], mem, s, t, re, b);
        forall p | last <= p < t ensures r[p - s] == FlatByte(es, mem, p) {
          FlatHead(es, mem, p);
          if p < re {
            var i := p - s;
            assert r[i] == b[i] && s + i == p;
            assert e.Covers(p) <==> rs <= p;
          } else {
            assert !e.Covers(p);
            assert r[p - s] == FlatByte(es[1..], mem, p);
          }
        }
      }
    }
  }

  lemma NothingBelow(es: seq<Extent>, mem: seq<byte>, t: nat, p: nat)
    requires Sorted(es) && p < t && (es == [] || es[0].fileStart >= t)
    ensures MapAt(es, p) == None && FlatByte(es, mem, p) == 0
  {
    if es != [] {
      MapAtHead(es, p);
    }
  }

  /** No hole of a..t is followed by stored bytes. */
  ghost predicate MappedPrefix(es: seq<Extent>, a: nat, t: nat) {
    forall p, q :: a <= p < q < t && MapAt(es, q).Some? ==> MapAt(es, p).Some?
  }

  /** The start of the first hole that is followed by stored bytes. */
  ghost function FirstGap(es: seq<Extent>, s: nat, t: nat, last: nat): Option<nat>
    requires Standing(es, s, t, last)
    decreases |es|
  {
    if es == [] || es[0].fileStart >= t then None
    else
      StandingNext(es, s, t, last);
      if es[0].End() <= s then FirstGap(es[1..], s, t, last)
      else if es[0].fileStart > last then Some(last)
      else FirstGap(es[1..], s, t, Min(t, es[0].End()))
  }

  /** Without such a hole any destination reads right. */
  lemma {:induction false} ReadWithoutGap(es: seq<Extent>, mem: seq<byte>, s: nat, t: nat, last: nat, buf: seq<byte>)
    requires InDevice(es, |mem|) && Standing(es, s, t, last) && StaysWithin(es, s, t, last, |buf|)
    requires FirstGap(es, s, t, last) == None
    ensures var r := ReadFrom(es, mem, s, t, last, buf);
            && (forall i :: 0 <= i < last - s ==> r[i] == buf[i])
            && (forall p :: last <= p < t ==> r[p - s] == FlatByte(es, mem, p))
    decreases |es|
  {
    hide ReadOne, Sorted, MapAt, FlatByte;
    var r := ReadFrom(es, mem, s, t, last, buf);
    if es == [] || es[0].fileStart >= t {
      forall p | last <= p < t ensures FlatByte(es, mem, p) == 0 { NothingBelow(es, mem, t, p); }
    } else {
      var e := es[0];
      StandingNext(es, s, t, last);
      if e.End() <= s {
        ReadWithoutGap(es[1..], mem, s, t, last, buf);
        forall p | last <= p < t ensures FlatByte(es, mem, p) == FlatByte(es[1..], mem, p) { FlatHead(es, mem, p); }
      } else {
        var re, b := Min(t, e.End()), ReadOne(e, mem, s, t, last, buf);
        forall i | 0 <= i < t - s
          ensures b[i] == if last <= s + i < re then mem[e.At(s + i)] else buf[i]
        {
          ReadOneBytes(e, mem, s, t, last, buf, i);
        }
        ReadWithoutGap(es[1..], mem, s, t, re, b);
        forall p | last <= p < t ensures r[p - s] == FlatByte(es, mem, p) {
          FlatHead(es, mem, p);
          if p < re {
            var i := p - s;
            assert r[i] == b[i] && s + i == p && e.Covers(p);
          } else {
            assert !e.Covers(p);
            assert r[p - s] == FlatByte(es[1..], mem, p);
          }
        }
      }
    }
  }

  /** With such a hole its first byte keeps whatever the destination held. */
  lemma {:induction false} ReadKeepsGap(es: seq<Extent>, mem: seq<byte>, s: nat, t: nat, last: nat, buf: seq<byte>)
    requires InDevice(es, |mem|) && Standing(es, s, t, last) && StaysWithin(es, s, t, last, |buf|)
    requires FirstGap(es, s, t, last).Some?
    ensures var g := FirstGap(es, s, t, last).value;
            && last <= g < t && MapAt(es, g) == None
            && ReadFrom(es, mem, s, t, last, buf)[g - s] == buf[g - s]
    decreases |es|
  {
    hide ReadOne, Sorted, MapAt, InDevice;
    var e, g := es[0], FirstGap(es, s, t, last).value;
    StandingNext(es, s, t, last);
    InDeviceTail(es, |mem|);
    MapAtHead(es, g);
    if e.End() <= s {
      ReadKeepsGap(es[1..], mem, s, t, last, buf);
    } else {
      var re, b := Min(t, e.End()), ReadOne(e, mem, s, t, last, buf);
      if e.fileStart > last {
        ReadOneBytes(e, mem, s, t, last, buf, g - s);
        ReadPrefixKept(es[1..], mem, s, t, re, b, g - s);
      } else {
        ReadKeepsGap(es[1..], mem, s, t, re, b);
        ReadOneBytes(e, mem, s, t, last, buf, g - s);
      }
    }
  }

  lemma InDeviceTail(es: seq<Extent>, size: nat)
    requires InDevice(es, size) && es != []
    ensures InDevice(es[1..], size) && es[0].start + es[0].size <= size
  {
  }

  lemma {:induction false} ReadPrefixKept(es: seq<Extent>, mem: seq<byte>, s: nat, t: nat, last: nat, buf: seq<byte>, i: nat)
    requires InDevice(es, |mem|) && Standing(es, s, t, last) && StaysWithin(es, s, t, last, |buf|) && i < last - s
    ensures ReadFrom(es, mem, s, t, last, buf)[i] == buf[i]
    decreases |es|
  {
    hide ReadOne, Sorted;
    if es != [] && es[0].fileStart < t {
      StandingNext(es, s, t, last);
      ReadOneBytes(es[0], mem, s, t, last, buf, i);
      ReadPrefixKept(es[1..], mem, s, t, Min(t, es[0].End()), ReadOne(es[0], mem, s, t, last, buf), i);
    }
  }

  lemma {:induction false} FirstGapNone(es: seq<Extent>, s: nat, t: nat, last: nat)
    requires Standing(es, s, t, last)
    ensures FirstGap(es, s, t, last) == None <==> MappedPrefix(es, last, t)
    decreases |es|
  {
    hide Sorted, MapAt;
    if es == [] || es[0].fileStart >= t {
      forall p | last <= p < t ensures MapAt(es, p) == None { NothingBelow(es, [], t, p); }
    } else {
      var e := es[0];
      StandingNext(es, s, t, last);
      if e.End() <= s {
        FirstGapNone(es[1..], s, t, last);
        forall p | last <= p < t ensures MapAt(es, p) == MapAt(es[1..], p) { MapAtHead(es, p); }
      } else if e.fileStart > last {
        MapAtHead(es, last);
        MapAtHead(es, e.fileStart);
        assert MapAt(es, last) == None && MapAt(es, e.fileStart).Some?;
      } else {
        var re := Min(t, e.End());
        FirstGapNone(es[1..], s, t, re);
        forall p | last <= p < t ensures MapAt(es, p) == if p < re then Some(e.At(p)) else MapAt(es[1..], p) { MapAtHead(es, p); }
      }
    }
  }

  // ---------- the read loop ----------

  lemma {:induction false} ReadSkips(es: seq<Extent>, k: nat, mem: seq<byte>, s: nat, t: nat, buf: seq<byte>)
    requires InDevice(es, |mem|) && Sorted(es) && s <= t && k <= |es| && StaysWithin(es, s, t, s, |buf|)
    requires forall i :: 0 <= i < k ==> es[i].End() <= s
    ensures InDevice(es[k..], |mem|) && Standing(es[k..], s, t, s) && StaysWithin(es[k..], s, t, s, |buf|)
    ensures ReadFrom(es, mem, s, t, s, buf) == ReadFrom(es[k..], mem, s, t, s, buf)
    decreases k
  {
    if k == 0 {
      assert es[0..] == es;
    } else {
      assert es[1..][k - 1..] == es[k..];
      assert es[0].size > 0 && es[0].fileStart < t;
      StandingNext(es, s, t, s);
      ReadSkips(es[1..], k - 1, mem, s, t, buf);
    }
  }

  /** The four cases of the code: device bytes from..to of the node go to file position readStart. */
  method ReadWindow(node: Extent, start: nat, end: nat) returns (from: nat, to: nat, readStart: nat)
    requires start < node.End() && node.fileStart < end && start <= end
    ensures readStart == Max(start, node.fileStart) && from == node.At(readStart)
    ensures to == from + (Min(end, node.End()) - readStart)
  {
    var curStart, curEnd := node.fileStart, node.End();
    if curStart <= start && curEnd >= start && curEnd <= end {
      from, to, readStart := node.start + (start - curStart), node.start + node.size, start;
    } else if curStart <= start && curEnd >= end {
      from, to, readStart := node.start + (start - curStart), node.start + (end - curStart), start;
    } else if curStart >= start && curEnd <= end {
      from, to, readStart := node.start, node.start + node.size, curStart;
    } else {
      from, to, readStart := node.start, node.start + (end - curStart), curStart;
    }
  }

  /** One round of the loop on an extent that overlaps the range. */
  method ReadNode(dev: Device, node: Extent, start: nat, end: nat, lastRead: nat, buffer: array<byte>) returns (last: nat)
    requires node.start + node.size <= dev.mem.Length && start < node.End() && node.fileStart < end
    requires start <= lastRead <= Max(start, node.fileStart) && start <= end && OneStays(node, start, end, lastRead, buffer.Length)
    requires buffer != dev.mem
    modifies buffer
    ensures last == Min(end, node.End())
    ensures buffer[..] == ReadOne(node, dev.mem[..], start, end, lastRead, old(buffer[..]))
  {
    hide Splice;
    ghost var mem := dev.mem[..];
    var from, to, readStart := ReadWindow(node, start, end);
    var data := dev.Read(from, to - from);
    assert data == mem[from..from + (to - from)];
    if lastRead != readStart {
      Put(buffer, readStart - start, Zeros(readStart - lastRead));
    }
    Put(buffer, readStart - start, data);
    last := readStart + (to - from);
  }

  method Put(buffer: array<byte>, at: nat, data: seq<byte>)
    requires at + |data| <= buffer.Length
    modifies buffer
    ensures buffer[..] == Splice(old(buffer[..]), at, data)
  {
    forall i | 0 <= i < |data| {
      buffer[at + i] := data[i];
    }
  }

  method FileExtentTreeRead(tree: FileExtentTree, dev: Device, start: nat, end: nat, buffer: array<byte>)
    requires tree.Valid() && InDevice(tree.extents, dev.mem.Length) && start <= end
    requires StaysWithin(tree.extents, start, end, start, buffer.Length) && buffer != dev.mem
    modifies buffer
    ensures buffer[..] == ReadFrom(tree.extents, dev.mem[..], start, end, start, old(buffer[..]))
  {
    hide Sorted, ReadOne, Splice, AllBacked, Above;
    ghost var es, mem, buf0 := tree.extents, dev.mem[..], buffer[..];
    var found := tree.ExtentTreeLowerBound(start);
    var cur := if found.None? then 0 else found.value;
    StartSkips(es, cur, start);
    ReadSkips(es, cur, mem, start, end, buf0);
    var lastRead: nat := start;
    while cur < |tree.extents|
      invariant cur <= |es| && InDevice(es[cur..], |mem|) && Standing(es[cur..], start, end, lastRead)
      invariant StaysWithin(es[cur..], start, end, lastRead, buffer.Length)
      invariant ReadFrom(es, mem, start, end, start, buf0) == ReadFrom(es[cur..], mem, start, end, lastRead, buffer[..])
    {
      var node := tree.extents[cur];
      assert es[cur..][0] == node && es[cur..][1..] == es[cur + 1..];
      if node.fileStart >= end {
        break;
      }
      StandingNext(es[cur..], start, end, lastRead);
      if node.End() > start {
        lastRead := ReadNode(dev, node, start, end, lastRead, buffer);
      }
      cur := cur + 1;
    }
    if lastRead != end {
      Put(buffer, lastRead - start, Zeros(end - lastRead));
    }
  }

  // ---------- when the read stays in its destination ----------

  /** How far the file is read before extent `k`. */
  function Reached(es: seq<Extent>, k: nat, last: nat): nat
    requires k < |es|
  {
    if k == 0 then last else Max(last, es[k - 1].End())
  }

  /** No hole in front of an extent is longer than the range goes on behind the hole. */
  ghost predicate GapsFit(es: seq<Extent>, last: nat, t: nat) {
    forall k :: 0 <= k < |es| && last <= es[k].fileStart < t ==> es[k].fileStart - Reached(es, k, last) <= t - es[k].fileStart
  }

  lemma GapsFitTail(es: seq<Extent>, last: nat, re: nat, t: nat)
    requires Sorted(es) && es != [] && last <= re && re == Max(last, Min(t, es[0].End()))
    requires last <= es[0].fileStart < t ==> es[0].fileStart - last <= t - es[0].fileStart
    ensures GapsFit(es, last, t) <==> GapsFit(es[1..], re, t)
  {
    hide Sorted;
    SortedCons(es);
    var rest := es[1..];
    forall k | 0 <= k < |rest| && rest[k].fileStart < t
      ensures rest[k].fileStart >= es[0].End() && Reached(rest, k, re) == Reached(es, k + 1, last)
    {
      ReachedTail(es, last, re, t, k);
    }
    if GapsFit(rest, re, t) {
      forall k | 0 <= k < |es| && last <= es[k].fileStart < t
        ensures es[k].fileStart - Reached(es, k, last) <= t - es[k].fileStart
      {
        if k > 0 { assert rest[k - 1] == es[k]; }
      }
    }
    if GapsFit(es, last, t) {
      forall k | 0 <= k < |rest| && re <= rest[k].fileStart < t
        ensures rest[k].fileStart - Reached(rest, k, re) <= t - rest[k].fileStart
      {
        assert rest[k] == es[k + 1];
      }
    }
  }

  lemma ReachedTail(es: seq<Extent>, last: nat, re: nat, t: nat, k: nat)
    requires Sorted(es) && es != [] && k < |es[1..]| && es[k + 1].fileStart < t && re == Max(last, Min(t, es[0].End()))
    ensures es[1..][k].fileStart >= es[0].End()
    ensures Reached(es[1..], k, re) == Reached(es, k + 1, last)
  {
    if k > 0 { assert es[k].End() >= es[0].End(); }
  }
  /** The read of s..t keeps to t - s bytes exactly when the gaps fit. */
  lemma {:induction false} StaysIff(es: seq<Extent>, s: nat, t: nat, last: nat)
    requires Standing(es, s, t, last)
    ensures StaysWithin(es, s, t, last, t - s) <==> GapsFit(es, last, t)
    decreases |es|
  {
    hide Sorted, GapsFit;
    if es == [] || es[0].fileStart >= t {
      NoGapsBeyond(es, last, t);
    } else {
      var e := es[0];
      StandingNext(es, s, t, last);
      if last <= e.fileStart && e.fileStart - last > t - e.fileStart {
        FirstGapTooLong(es, last, t);
      } else {
        var re := if e.End() <= s then last else Min(t, e.End());
        StaysIff(es[1..], s, t, re);
        GapsFitTail(es, last, re, t);
      }
    }
  }

  lemma NoGapsBeyond(es: seq<Extent>, last: nat, t: nat)
    requires Sorted(es) && (es == [] || es[0].fileStart >= t)
    ensures GapsFit(es, last, t)
  {
  }

  lemma FirstGapTooLong(es: seq<Extent>, last: nat, t: nat)
    requires es != [] && last <= es[0].fileStart < t && es[0].fileStart - last > t - es[0].fileStart
    ensures !GapsFit(es, last, t)
  {
    assert Reached(es, 0, last) == last;
  }

  lemma {:induction false} StaysMore(es: seq<Extent>, s: nat, t: nat, last: nat, n: nat, m: nat)
    requires Standing(es, s, t, last) && StaysWithin(es, s, t, last, n) && n <= m
    ensures StaysWithin(es, s, t, last, m)
    decreases |es|
  {
    hide Sorted;
    if es != [] && es[0].fileStart < t {
      StandingNext(es, s, t, last);
      StaysMore(es[1..], s, t, if es[0].End() <= s then last else Min(t, es[0].End()), n, m);
    }
  }

  /** Twice the range is always enough. */
  lemma {:induction false} DoubleStays(es: seq<Extent>, s: nat, t: nat, last: nat)
    requires Standing(es, s, t, last)
    ensures StaysWithin(es, s, t, last, 2 * (t - s))
    decreases |es|
  {
    hide Sorted;
    if es != [] && es[0].fileStart < t {
      StandingNext(es, s, t, last);
      DoubleStays(es[1..], s, t, if es[0].End() <= s then last else Min(t, es[0].End()));
    }
  }

  /** Behind the bytes the read keeps to nothing changes. */
  lemma {:induction false} BehindKept(es: seq<Extent>, mem: seq<byte>, s: nat, t: nat, last: nat, buf: seq<byte>, n: nat, i: nat)
    requires InDevice(es, |mem|) && Standing(es, s, t, last) && StaysWithin(es, s, t, last, |buf|)
    requires StaysWithin(es, s, t, last, n) && n <= i < |buf|
    ensures ReadFrom(es, mem, s, t, last, buf)[i] == buf[i]
    decreases |es|
  {
    hide ReadOne, Sorted;
    if es != [] && es[0].fileStart < t {
      StandingNext(es, s, t, last);
      if es[0].End() <= s {
        BehindKept(es[1..], mem, s, t, last, buf, n, i);
      } else {
        ReadOneBytes(es[0], mem, s, t, last, buf, i);
        BehindKept(es[1..], mem, s, t, Min(t, es[0].End()), ReadOne(es[0], mem, s, t, last, buf), n, i);
      }
    }
  }

  /** Whatever the read stores behind the range is zero. */
  lemma {:induction false} ZeroOrKept(es: seq<Extent>, mem: seq<byte>, s: nat, t: nat, last: nat, buf: seq<byte>, i: nat)
    requires InDevice(es, |mem|) && Standing(es, s, t, last) && StaysWithin(es, s, t, last, |buf|) && t - s <= i < |buf|
    ensures var r := ReadFrom(es, mem, s, t, last, buf); r[i] == buf[i] || r[i] == 0
    decreases |es|
  {
    hide ReadOne, Sorted;
    if es != [] && es[0].fileStart < t {
      StandingNext(es, s, t, last);
      if es[0].End() <= s {
        ZeroOrKept(es[1..], mem, s, t, last, buf, i);
      } else {
        ReadOneBytes(es[0], mem, s, t, last, buf, i);
        ZeroOrKept(es[1..], mem, s, t, Min(t, es[0].End()), ReadOne(es[0], mem, s, t, last, buf), i);
      }
    }
  }

  /** A read that does not keep to the first `n` bytes leaves a zero behind them. */
  lemma {:induction false} OverrunZeroes(es: seq<Extent>, mem: seq<byte>, s: nat, t: nat, last: nat, buf: seq<byte>, n: nat)
    returns (i: nat)
    requires InDevice(es, |mem|) && Standing(es, s, t, last) && StaysWithin(es, s, t, last, |buf|)
    requires t - s <= n && !StaysWithin(es, s, t, last, n)
    ensures n <= i < |buf| && ReadFrom(es, mem, s, t, last, buf)[i] == 0
    decreases |es|
  {
    hide ReadOne, Sorted;
    var e := es[0];
    StandingNext(es, s, t, last);
    if e.End() <= s {
      i := OverrunZeroes(es[1..], mem, s, t, last, buf, n);
    } else {
      var rs, b := Max(s, e.fileStart), ReadOne(e, mem, s, t, last, buf);
      if (rs - s) + (rs - last) > n {
        i := (rs - s) + (rs - last) - 1;
        ReadOneBytes(e, mem, s, t, last, buf, i);
        ZeroOrKept(es[1..], mem, s, t, Min(t, e.End()), b, i);
      } else {
        i := OverrunZeroes(es[1..], mem, s, t, Min(t, e.End()), b, n);
      }
    }
  }

  /** A read into `buf` leaves the memory behind the destination as it was. */
  ghost predicate BehindUntouched(es: seq<Extent>, mem: seq<byte>, s: nat, t: nat, buf: seq<byte>)
    requires InDevice(es, |mem|) && Sorted(es) && s <= t && StaysWithin(es, s, t, s, |buf|)
  {
    forall i :: t - s <= i < |buf| ==> ReadFrom(es, mem, s, t, s, buf)[i] == buf[i]
  }

  /**
    When the code's read stays inside its destination of t - s bytes: exactly when
    no hole in front of an extent is longer than the range goes on behind it.
   */
  lemma StaysInsideIff(es: seq<Extent>, mem: seq<byte>, s: nat, t: nat)
    requires InDevice(es, |mem|) && Sorted(es) && s <= t
    ensures StaysWithin(es, s, t, s, 2 * (t - s))
    ensures (forall buf: seq<byte> | |buf| == 2 * (t - s) :: BehindUntouched(es, mem, s, t, buf)) <==> GapsFit(es, s, t)
  {
    hide Sorted, ReadFrom, GapsFit, StaysWithin, InDevice;
    DoubleStays(es, s, t, s);
    StaysIff(es, s, t, s);
    if GapsFit(es, s, t) {
      forall buf: seq<byte> | |buf| == 2 * (t - s) ensures BehindUntouched(es, mem, s, t, buf) {
        forall i | t - s <= i < |buf| ensures ReadFrom(es, mem, s, t, s, buf)[i] == buf[i] {
          BehindKept(es, mem, s, t, s, buf, t - s, i);
        }
      }
    } else {
      var ones: seq<byte> := seq(2 * (t - s), _ => 1);
      var i := OverrunZeroes(es, mem, s, t, s, ones, t - s);
      assert !BehindUntouched(es, mem, s, t, ones);
    }
  }

  /** A hole of 100 bytes, then 10 bytes of data: reading all of it zeroes 90 bytes behind the destination. */
  lemma ReadOverruns(mem: seq<byte>, buf: seq<byte>)
    requires |mem| >= 10 && |buf| >= 200
    ensures var es := [Extent(0, 100, 10)];
            && InDevice(es, |mem|) && Sorted(es) && !GapsFit(es, 0, 110) && StaysWithin(es, 0, 110, 0, |buf|)
            && forall i :: 110 <= i < 200 ==> ReadFrom(es, mem, 0, 110, 0, buf)[i] == 0
  {
    var es := [Extent(0, 100, 10)];
    assert es[0].End() == 110 && es[1..] == [];
    FirstGapTooLong(es, 0, 110);
    assert StaysWithin(es[1..], 0, 110, 110, |buf|);
    assert ReadFrom(es, mem, 0, 110, 0, buf) == ReadOne(es[0], mem, 0, 110, 0, buf);
    forall i | 110 <= i < 200 ensures ReadFrom(es, mem, 0, 110, 0, buf)[i] == 0 { ReadOneBytes(es[0], mem, 0, 110, 0, buf, i); }
  }

  /** Where holes are not followed by data there is no gap that could be too long. */
  lemma {:induction false} NoGapStays(es: seq<Extent>, s: nat, t: nat, last: nat, n: nat)
    requires Standing(es, s, t, last) && FirstGap(es, s, t, last) == None && t - s <= n
    ensures StaysWithin(es, s, t, last, n)
    decreases |es|
  {
    hide Sorted;
    if es != [] && es[0].fileStart < t {
      StandingNext(es, s, t, last);
      NoGapStays(es[1..], s, t, if es[0].End() <= s then last else Min(t, es[0].End()), n);
    }
  }

  /** The read keeps to the buffer, and the first t - s bytes of it are the file's bytes s..t. */
  ghost predicate ReadsRight(es: seq<Extent>, mem: seq<byte>, s: nat, t: nat, buf: seq<byte>)
    requires InDevice(es, |mem|) && Sorted(es) && s <= t
  {
    && StaysWithin(es, s, t, s, |buf|)
    && forall p :: s <= p < t ==> ReadFrom(es, mem, s, t, s, buf)[p - s] == FlatByte(es, mem, p)
  }

  /**
    When the code's read is right, into a destination exactly as long as the range:
    into zeroes exactly when the gaps fit, and into every destination exactly when
    no hole of the range is followed by data.
   */
  lemma ReadRightIff(es: seq<Extent>, mem: seq<byte>, s: nat, t: nat)
    requires InDevice(es, |mem|) && Sorted(es) && s <= t
    ensures ReadsRight(es, mem, s, t, Zeros(t - s)) <==> GapsFit(es, s, t)
    ensures (forall buf: seq<byte> | |buf| == t - s :: ReadsRight(es, mem, s, t, buf)) <==> MappedPrefix(es, s, t)
  {
    hide Sorted, MapAt, ReadFrom, FirstGap, MappedPrefix, GapsFit, StaysWithin;
    StaysIff(es, s, t, s);
    if GapsFit(es, s, t) {
      ReadIntoZeros(es, mem, s, t, s, Zeros(t - s));
    }
    FirstGapNone(es, s, t, s);
    if MappedPrefix(es, s, t) {
      forall buf: seq<byte> | |buf| == t - s ensures ReadsRight(es, mem, s, t, buf) {
        NoGapStays(es, s, t, s, t - s);
        ReadWithoutGap(es, mem, s, t, s, buf);
      }
    } else {
      var ones: seq<byte> := seq(t - s, _ => 1);
      if StaysWithin(es, s, t, s, t - s) {
        ReadKeepsGap(es, mem, s, t, s, ones);
        var g := FirstGap(es, s, t, s).value;
        assert FlatByte(es, mem, g) == 0;
      }
      assert !ReadsRight(es, mem, s, t, ones);
    }
  }
}
