/**
  A byte stream stored in a chain of 4 KiB pages.  The first eight bytes of a
  page hold the address of the next page; the other 4088 carry the stream.
 */
module ChainedSpace {
  import opened Nvm

  const PAGE_SIZE: nat := 4096
  const LINK_SIZE: nat := 8
  const BODY_SIZE: nat := 4088

  const ADDRESS_LIMIT: nat := 0x1_0000_0000_0000_0000

  function RestSizeOfCurrentArea(addr: nat): nat { PAGE_SIZE - addr % PAGE_SIZE }

  function CurrentAreaOfAddr(addr: nat): nat { addr - addr % PAGE_SIZE }

  function PageLink(mem: seq<byte>, page: nat): nat
    requires page + LINK_SIZE <= |mem|
  {
    FromLE(mem[page..page + LINK_SIZE])
  }

  // ---------- chains ----------

  /** Distinct, page-aligned pages inside a memory of `size` bytes. */
  ghost predicate Chain(size: nat, chain: seq<nat>) {
    && size <= ADDRESS_LIMIT
    && (forall i :: 0 <= i < |chain| ==> chain[i] % PAGE_SIZE == 0 && chain[i] + PAGE_SIZE <= size)
    && (forall i, j :: 0 <= i < j < |chain| ==> chain[i] != chain[j])
  }

  ghost predicate Linked(mem: seq<byte>, chain: seq<nat>) {
    && Chain(|mem|, chain)
    && (forall i {:trigger chain[i]} :: 0 <= i < |chain| - 1 ==> PageLink(mem, chain[i]) == chain[i + 1])
  }

  lemma LinkedIsChain(mem: seq<byte>, chain: seq<nat>)
    requires Linked(mem, chain)
    ensures Chain(|mem|, chain)
  {
  }

  ghost function Capacity(chain: seq<nat>): nat { |chain| * BODY_SIZE }

  /** Address of the `o`-th byte of the stream. */
  ghost function Locate(chain: seq<nat>, o: nat): nat
    requires o < Capacity(chain)
  {
    chain[o / BODY_SIZE] + LINK_SIZE + o % BODY_SIZE
  }

  lemma LocateFacts(size: nat, chain: seq<nat>, o: nat)
    requires Chain(size, chain) && o < Capacity(chain)
    ensures o / BODY_SIZE < |chain|
    ensures CurrentAreaOfAddr(Locate(chain, o)) == chain[o / BODY_SIZE]
    ensures RestSizeOfCurrentArea(Locate(chain, o)) == BODY_SIZE - o % BODY_SIZE
    ensures LINK_SIZE <= Locate(chain, o) % PAGE_SIZE
    ensures Locate(chain, o) < size
  {
    var page := chain[o / BODY_SIZE];
    assert page % PAGE_SIZE == 0;
    assert (page + LINK_SIZE + o % BODY_SIZE) % PAGE_SIZE == LINK_SIZE + o % BODY_SIZE;
  }

  /** Different stream positions are different bytes of memory. */
  lemma LocateInjective(size: nat, chain: seq<nat>, o: nat, p: nat)
    requires Chain(size, chain) && o < Capacity(chain) && p < Capacity(chain)
    requires Locate(chain, o) == Locate(chain, p)
    ensures o == p
  {
    LocateFacts(size, chain, o);
    LocateFacts(size, chain, p);
  }

  /** Inside one page the stream is contiguous. */
  lemma LocateStep(chain: seq<nat>, o: nat, n: nat)
    requires o < Capacity(chain) && n < BODY_SIZE - o % BODY_SIZE
    ensures o + n < Capacity(chain)
    ensures Locate(chain, o + n) == Locate(chain, o) + n
  {
    assert (o + n) / BODY_SIZE == o / BODY_SIZE;
  }

  /** Past the end of a page the stream goes on at the start of the next body. */
  lemma LocateNextPage(chain: seq<nat>, o: nat)
    requires o < Capacity(chain) && o / BODY_SIZE + 1 < |chain|
    ensures var p := o + (BODY_SIZE - o % BODY_SIZE);
            p < Capacity(chain) && p % BODY_SIZE == 0 && Locate(chain, p) == chain[o / BODY_SIZE + 1] + LINK_SIZE
  {
    var p := o + (BODY_SIZE - o % BODY_SIZE);
    assert p == (o / BODY_SIZE + 1) * BODY_SIZE;
    assert p / BODY_SIZE == o / BODY_SIZE + 1;
  }

  /** The whole stream a chain carries. */
  ghost function Stream(mem: seq<byte>, chain: seq<nat>): (s: seq<byte>)
    requires Chain(|mem|, chain)
    ensures |s| == Capacity(chain)
    ensures forall o :: 0 <= o < Capacity(chain) ==> s[o] == mem[Locate(chain, o)]
  {
    seq(Capacity(chain), o requires 0 <= o < Capacity(chain) =>
      LocateFacts(|mem|, chain, o); mem[Locate(chain, o)])
  }

  /** The memory addresses of `n` stream bytes from position `o`. */
  ghost function Region(chain: seq<nat>, o: nat, n: nat): set<nat>
    requires o + n <= Capacity(chain)
  {
    set i | o <= i < o + n :: Locate(chain, i)
  }

  ghost predicate SameOutside(mem: seq<byte>, after: seq<byte>, region: set<nat>)
    requires |after| == |mem|
  {
    forall a :: 0 <= a < |mem| && a !in region ==> after[a] == mem[a]
  }

  /** Changing stream bytes changes no link. */
  lemma RegionKeepsLinks(mem: seq<byte>, after: seq<byte>, chain: seq<nat>, o: nat, n: nat)
    requires Linked(mem, chain) && |after| == |mem| && o + n <= Capacity(chain)
    requires SameOutside(mem, after, Region(chain, o, n))
    ensures Linked(after, chain)
  {
    hide Locate, Region;
    forall i | 0 <= i < |chain| - 1
      ensures PageLink(after, chain[i]) == PageLink(mem, chain[i])
    {
      LinkNotInRegion(|mem|, chain, o, n, chain[i]);
      assert after[chain[i]..chain[i] + LINK_SIZE] == mem[chain[i]..chain[i] + LINK_SIZE];
    }
  }

  lemma LinkNotInRegion(size: nat, chain: seq<nat>, o: nat, n: nat, page: nat)
    requires Chain(size, chain) && o + n <= Capacity(chain) && page % PAGE_SIZE == 0
    ensures forall a :: page <= a < page + LINK_SIZE ==> a !in Region(chain, o, n)
  {
    hide Locate;
    forall a | page <= a < page + LINK_SIZE
      ensures a !in Region(chain, o, n)
    {
      assert a % PAGE_SIZE == a - page;
      if a in Region(chain, o, n) {
        var j :| o <= j < o + n && a == Locate(chain, j);
        LocateFacts(size, chain, j);
        assert false;
      }
    }
  }

  /** Changing stream bytes o..o+n changes no other stream byte. */
  lemma RegionFrame(mem: seq<byte>, after: seq<byte>, chain: seq<nat>, o: nat, n: nat)
    requires Chain(|mem|, chain) && |after| == |mem| && o + n <= Capacity(chain)
    requires SameOutside(mem, after, Region(chain, o, n))
    ensures forall i :: 0 <= i < Capacity(chain) && !(o <= i < o + n) ==> Stream(after, chain)[i] == Stream(mem, chain)[i]
  {
    hide Locate;
    forall i | 0 <= i < Capacity(chain) && !(o <= i < o + n)
      ensures Stream(after, chain)[i] == Stream(mem, chain)[i]
    {
      LocateFacts(|mem|, chain, i);
      if Locate(chain, i) in Region(chain, o, n) {
        var j :| o <= j < o + n && Locate(chain, i) == Locate(chain, j);
        LocateInjective(|mem|, chain, i, j);
        assert false;
      }
    }
  }

  // ---------- what a write to the stream stores ----------

  /** The stores ContinousSpaceWrite makes: one NVMWrite for each page touched. */
  ghost function PieceSize(o: nat, len: nat): (n: nat)
    ensures n <= len && n <= BODY_SIZE - o % BODY_SIZE && (len > 0 ==> n > 0)
  {
    var room := BODY_SIZE - o % BODY_SIZE;
    if len <= room then len else room
  }

  ghost function StreamStores(chain: seq<nat>, o: nat, buf: seq<byte>): (r: seq<Store>)
    requires o + |buf| <= Capacity(chain)
    decreases |buf|
  {
    if buf == [] then []
    else
      var n := PieceSize(o, |buf|);
      StoresOf(Locate(chain, o), buf[..n]) + StreamStores(chain, o + n, buf[n..])
  }

  lemma PieceRegion(chain: seq<nat>, o: nat, n: nat)
    requires o < Capacity(chain) && n <= BODY_SIZE - o % BODY_SIZE && o + n <= Capacity(chain)
    ensures forall a :: Locate(chain, o) <= a < Locate(chain, o) + n ==> a in Region(chain, o, n)
    ensures forall j :: o <= j < o + n ==> Locate(chain, j) == Locate(chain, o) + (j - o)
  {
    hide Locate;
    forall j | o <= j < o + n
      ensures Locate(chain, j) == Locate(chain, o) + (j - o)
    {
      LocateStep(chain, o, j - o);
    }
    forall a | Locate(chain, o) <= a < Locate(chain, o) + n
      ensures a in Region(chain, o, n)
    {
      var j := o + (a - Locate(chain, o));
      assert Locate(chain, j) == a;
    }
  }

  lemma RegionSplit(chain: seq<nat>, o: nat, n: nat, m: nat)
    requires o + n + m <= Capacity(chain)
    ensures Region(chain, o, n) <= Region(chain, o, n + m)
    ensures Region(chain, o + n, m) <= Region(chain, o, n + m)
  {
    hide Locate;
  }

  lemma PieceFits(size: nat, chain: seq<nat>, o: nat, n: nat)
    requires Chain(size, chain) && 0 < n <= BODY_SIZE - o % BODY_SIZE && o + n <= Capacity(chain)
    ensures Locate(chain, o) + n <= size
  {
    LocateStep(chain, o, n - 1);
    LocateFacts(size, chain, o + n - 1);
  }

  lemma PieceWithin(size: nat, chain: seq<nat>, o: nat, buf: seq<byte>)
    requires o < Capacity(chain) && |buf| <= BODY_SIZE - o % BODY_SIZE && o + |buf| <= Capacity(chain)
    requires Chain(size, chain) && buf != []
    ensures Within(StoresOf(Locate(chain, o), buf), Region(chain, o, |buf|))
    ensures InBounds(size, StoresOf(Locate(chain, o), buf))
  {
    hide Locate, Region;
    PieceFits(size, chain, o, |buf|);
    PieceRegion(chain, o, |buf|);
  }

  /** A torn or finished stream write touches only the bytes it was asked to write. */
  lemma {:induction false} StreamStoresWithin(size: nat, chain: seq<nat>, o: nat, buf: seq<byte>)
    requires Chain(size, chain) && o + |buf| <= Capacity(chain)
    ensures InBounds(size, StreamStores(chain, o, buf))
    ensures Within(StreamStores(chain, o, buf), Region(chain, o, |buf|))
    decreases |buf|
  {
    if buf != [] {
      StreamStoresWithinStep(size, chain, o, buf);
    }
  }

  lemma {:induction false} StreamStoresWithinStep(size: nat, chain: seq<nat>, o: nat, buf: seq<byte>)
    requires Chain(size, chain) && o + |buf| <= Capacity(chain) && buf != []
    ensures InBounds(size, StreamStores(chain, o, buf))
    ensures Within(StreamStores(chain, o, buf), Region(chain, o, |buf|))
    decreases |buf|, 0
  {
    hide Locate, PieceSize, Region, Within, Chain, StoresOf, InBounds;
    var n := PieceSize(o, |buf|);
    var first := StoresOf(Locate(chain, o), buf[..n]);
    var rest := StreamStores(chain, o + n, buf[n..]);
    PieceWithin(size, chain, o, buf[..n]);
    StreamStoresWithin(size, chain, o + n, buf[n..]);
    InBoundsConcat(size, first, rest);
    RegionSplit(chain, o, n, |buf| - n);
    WithinConcat(first, rest, Region(chain, o, n), Region(chain, o + n, |buf| - n), Region(chain, o, |buf|));
  }

  /** A finished stream write replaces exactly the stream bytes o..o+|buf|. */
  lemma {:induction false} StreamStoresEffect(mem: seq<byte>, chain: seq<nat>, o: nat, buf: seq<byte>)
    requires Linked(mem, chain) && o + |buf| <= Capacity(chain)
    ensures InBounds(|mem|, StreamStores(chain, o, buf))
    ensures var after := Apply(mem, StreamStores(chain, o, buf));
            Linked(after, chain) && Stream(after, chain) == Splice(Stream(mem, chain), o, buf)
    decreases |buf|
  {
    StreamStoresWithin(|mem|, chain, o, buf);
    if buf == [] {
      assert Splice(Stream(mem, chain), o, buf) == Stream(mem, chain);
    } else {
      StreamStoresStep(mem, chain, o, buf);
    }
  }

  lemma {:induction false} StreamStoresStep(mem: seq<byte>, chain: seq<nat>, o: nat, buf: seq<byte>)
    requires Linked(mem, chain) && o + |buf| <= Capacity(chain) && buf != []
    requires InBounds(|mem|, StreamStores(chain, o, buf))
    ensures var after := Apply(mem, StreamStores(chain, o, buf));
            Linked(after, chain) && Stream(after, chain) == Splice(Stream(mem, chain), o, buf)
    decreases |buf|, 0
  {
    hide Locate, PieceSize, Stream, Chain, PageLink, StoresOf, InBounds, Apply, Splice;
    var n := PieceSize(o, |buf|);
    PieceFits(|mem|, chain, o, n);
    PieceEffect(mem, chain, o, buf[..n]);
    var mid := Splice(mem, Locate(chain, o), buf[..n]);
    StreamStoresEffect(mid, chain, o + n, buf[n..]);
    ApplyStoresOf(mem, Locate(chain, o), buf[..n]);
    ApplyConcat(mem, StoresOf(Locate(chain, o), buf[..n]), StreamStores(chain, o + n, buf[n..]));
    SpliceSplit(Stream(mem, chain), o, buf, n);
  }

  /** The same for the part of a write that stays inside one page. */
  lemma PieceEffect(mem: seq<byte>, chain: seq<nat>, o: nat, buf: seq<byte>)
    requires Linked(mem, chain) && o < Capacity(chain) && o + |buf| <= Capacity(chain)
    requires |buf| <= BODY_SIZE - o % BODY_SIZE
    requires Locate(chain, o) + |buf| <= |mem|
    ensures var mid := Splice(mem, Locate(chain, o), buf);
            Linked(mid, chain) && Stream(mid, chain) == Splice(Stream(mem, chain), o, buf)
  {
    var mid := Splice(mem, Locate(chain, o), buf);
    hide Locate;
    PieceRegion(chain, o, |buf|);
    RegionFrame(mem, mid, chain, o, |buf|);
    RegionKeepsLinks(mem, mid, chain, o, |buf|);
    assert Stream(mid, chain) == Splice(Stream(mem, chain), o, buf);
  }

  // ---------- address arithmetic over the links ----------

  lemma NextPageExists(chain: seq<nat>, o: nat)
    requires o + (BODY_SIZE - o % BODY_SIZE) < Capacity(chain)
    ensures o / BODY_SIZE + 1 < |chain|
  {
    assert o + (BODY_SIZE - o % BODY_SIZE) == (o / BODY_SIZE + 1) * BODY_SIZE;
  }

  /** The link of a page leads to the stream byte after the page's last one. */
  lemma FollowLink(mem: seq<byte>, chain: seq<nat>, o: nat)
    requires Linked(mem, chain) && o < Capacity(chain)
    requires o + (BODY_SIZE - o % BODY_SIZE) < Capacity(chain)
    ensures var area := CurrentAreaOfAddr(Locate(chain, o));
            area + LINK_SIZE <= |mem| && PageLink(mem, area) + LINK_SIZE == Locate(chain, o + (BODY_SIZE - o % BODY_SIZE))
  {
    hide Locate;
    LocateFacts(|mem|, chain, o);
    NextPageExists(chain, o);
    LocateNextPage(chain, o);
  }

  /** Where `size` stream bytes after `start` end up, following links (0 when a link lies outside the memory). */
  function NextAddr(mem: seq<byte>, start: nat, size: nat): nat
    decreases size
  {
    var rest := RestSizeOfCurrentArea(start);
    if rest > size then start + size
    else if CurrentAreaOfAddr(start) + LINK_SIZE > |mem| then 0
    else NextAddr(mem, PageLink(mem, CurrentAreaOfAddr(start)) + LINK_SIZE, size - rest)
  }

  /** Following links is moving along the stream. */
  lemma {:induction false} NextAddrLocates(mem: seq<byte>, chain: seq<nat>, o: nat, n: nat)
    requires Linked(mem, chain) && o + n < Capacity(chain)
    ensures NextAddr(mem, Locate(chain, o), n) == Locate(chain, o + n)
    decreases n
  {
    hide Locate;
    LocateFacts(|mem|, chain, o);
    var rest := BODY_SIZE - o % BODY_SIZE;
    if rest > n {
      LocateStep(chain, o, n);
    } else {
      FollowLink(mem, chain, o);
      NextAddrLocates(mem, chain, o + rest, n - rest);
    }
  }

  /** Moving by m and then by n is moving by m + n. */
  lemma NextAddrAdditive(mem: seq<byte>, chain: seq<nat>, o: nat, m: nat, n: nat)
    requires Linked(mem, chain) && o + m + n < Capacity(chain)
    ensures NextAddr(mem, NextAddr(mem, Locate(chain, o), m), n) == NextAddr(mem, Locate(chain, o), m + n)
  {
    hide Locate, NextAddr;
    NextAddrLocates(mem, chain, o, m);
    NextAddrLocates(mem, chain, o + m, n);
    NextAddrLocates(mem, chain, o, m + n);
  }

  method ReadLink(dev: Device, page: nat) returns (next: nat)
    requires page + LINK_SIZE <= dev.mem.Length
    ensures next == PageLink(dev.mem[..], page)
  {
    var link := dev.Read(page, LINK_SIZE);
    assert link == dev.mem[..][page..page + LINK_SIZE];
    next := FromLE(link);
  }

  method CalculateNextAddr(dev: Device, start: nat, size: nat, ghost chain: seq<nat>, ghost o: nat) returns (r: nat)
    requires Linked(dev.mem[..], chain) && o + size < Capacity(chain) && start == Locate(chain, o)
    ensures r == NextAddr(dev.mem[..], start, size) == Locate(chain, o + size)
  {
    hide Locate;
    ghost var p := o;
    var addr: nat, left: nat := start, size;
    NextAddrLocates(dev.mem[..], chain, o, size);
    while RestSizeOfCurrentArea(addr) <= left
      invariant left >= 0 && p + left == o + size && addr == Locate(chain, p)
      decreases left
    {
      var rest := RestSizeOfCurrentArea(addr);
      LocateFacts(dev.mem.Length, chain, p);
      FollowLink(dev.mem[..], chain, p);
      var link := ReadLink(dev, CurrentAreaOfAddr(addr));
      addr := link + LINK_SIZE;
      left := left - rest;
      p := p + rest;
    }
    LocateFacts(dev.mem.Length, chain, p);
    LocateStep(chain, p, left);
    r := addr + left;
  }

  // ---------- reading and writing the stream ----------

  /** The part of a write that fits in the page of `addr`. */
  method WriteDataToCurrentArea(dev: Device, buf: seq<byte>, addr: nat, ghost chain: seq<nat>, ghost p: nat)
    returns (writeSize: nat, full: bool)
    requires dev.Valid() && Linked(dev.mem[..], chain)
    requires p < Capacity(chain) && p + |buf| <= Capacity(chain) && addr == Locate(chain, p)
    modifies dev, dev.mem
    ensures dev.Valid() && Linked(dev.mem[..], chain)
    ensures writeSize == PieceSize(p, |buf|) && (full <==> writeSize == BODY_SIZE - p % BODY_SIZE)
    ensures dev.trace == old(dev.trace) + StoresOf(addr, buf[..writeSize])
  {
    hide Locate, StoresOf, Stream, Splice;
    LocateFacts(dev.mem.Length, chain, p);
    var restSize := RestSizeOfCurrentArea(addr);
    writeSize := if |buf| <= restSize then |buf| else restSize;
    full := writeSize == restSize;
    if writeSize > 0 {
      PieceFits(dev.mem.Length, chain, p, writeSize);
    }
    PieceEffect(dev.mem[..], chain, p, buf[..writeSize]);
    dev.Write(addr, buf[..writeSize]);
  }

  lemma StoresStep(done: seq<Store>, chain: seq<nat>, p: nat, left: seq<byte>, n: nat)
    requires p < Capacity(chain) && p + |left| <= Capacity(chain) && n == PieceSize(p, |left|)
    ensures done + StoresOf(Locate(chain, p), left[..n]) + StreamStores(chain, p + n, left[n..])
         == done + StreamStores(chain, p, left)
  {
    hide Locate, StoresOf;
  }

  method ContinousSpaceWrite(dev: Device, buf: seq<byte>, addr: nat, ghost chain: seq<nat>, ghost o: nat)
    requires dev.Valid() && Linked(dev.mem[..], chain)
    requires o < Capacity(chain) && o + |buf| <= Capacity(chain) && addr == Locate(chain, o)
    modifies dev, dev.mem
    ensures dev.Valid() && Linked(dev.mem[..], chain)
    ensures Stream(dev.mem[..], chain) == Splice(old(Stream(dev.mem[..], chain)), o, buf)
    ensures dev.trace == old(dev.trace) + StreamStores(chain, o, buf)
  {
    hide Locate, Stream, Linked, StoresOf, InBounds, Splice, Apply, Within;
    ghost var m0, t0 := dev.mem[..], dev.trace;
    ghost var p: nat, done := o, [];
    var at, left, more := addr, buf, true;
    while more
      invariant dev.Valid() && Linked(dev.mem[..], chain) && dev.trace == t0 + done
      invariant p + |left| <= Capacity(chain) && done + StreamStores(chain, p, left) == StreamStores(chain, o, buf)
      invariant more ==> p < Capacity(chain) && at == Locate(chain, p)
      invariant !more ==> left == []
      decreases more, |left|
    {
      var writeSize, full := WriteDataToCurrentArea(dev, left, at, chain, p);
      StoresStep(done, chain, p, left, writeSize);
      done := done + StoresOf(at, left[..writeSize]);
      if |left| > writeSize && full {
        FollowLink(dev.mem[..], chain, p);
        var link := ReadLink(dev, CurrentAreaOfAddr(at));
        at := link + LINK_SIZE;
      }
      p, left := p + writeSize, left[writeSize..];
      more := |left| > 0;
    }
    assert done == StreamStores(chain, o, buf);
    StreamStoresEffect(m0, chain, o, buf);
    ApplyConcat(dev.base, t0, done);
  }

  method ContinousSpaceRead(dev: Device, size: nat, addr: nat, ghost chain: seq<nat>, ghost o: nat) returns (buf: seq<byte>)
    requires Linked(dev.mem[..], chain)
    requires o < Capacity(chain) && o + size <= Capacity(chain) && addr == Locate(chain, o)
    ensures buf == Stream(dev.mem[..], chain)[o..o + size]
  {
    hide Locate, Stream;
    var at, left, more := addr, size, true;
    ghost var p: nat := o;
    ghost var s := Stream(dev.mem[..], chain);
    buf := [];
    while more
      invariant left >= 0 && p + left == o + size && |buf| + left == size
      invariant buf == s[o..p]
      invariant more ==> p < Capacity(chain) && at == Locate(chain, p)
      invariant !more ==> left == 0
      decreases more, left
    {
      LocateFacts(dev.mem.Length, chain, p);
      var restSize := RestSizeOfCurrentArea(at);
      var readSize := if restSize >= left then left else restSize;
      ReadPiece(dev.mem[..], chain, p, readSize);
      var piece := dev.Read(at, readSize);
      assert piece == dev.mem[..][at..at + readSize];
      assert s[o..p] + s[p..p + readSize] == s[o..p + readSize];
      buf := buf + piece;
      left := left - readSize;
      if left > 0 {
        FollowLink(dev.mem[..], chain, p);
        var link := ReadLink(dev, CurrentAreaOfAddr(at));
        at := link + LINK_SIZE;
      }
      p := p + readSize;
      more := left > 0;
    }
  }

  lemma ReadPiece(mem: seq<byte>, chain: seq<nat>, p: nat, n: nat)
    requires Chain(|mem|, chain) && p < Capacity(chain) && p + n <= Capacity(chain) && n <= BODY_SIZE - p % BODY_SIZE
    ensures Locate(chain, p) + n <= |mem|
    ensures mem[Locate(chain, p)..Locate(chain, p) + n] == Stream(mem, chain)[p..p + n]
  {
    hide Locate;
    LocateFacts(|mem|, chain, p);
    if n > 0 {
      PieceFits(|mem|, chain, p, n);
    }
    PieceRegion(chain, p, n);
    var at := Locate(chain, p);
    var s := Stream(mem, chain);
    assert forall j :: p <= j < p + n ==> s[j] == mem[at + (j - p)];
    assert mem[at..at + n] == s[p..p + n];
  }
}
