/**
  Byte-addressed non-volatile memory and the order of the stores made to it.

  A crash is a cut of the sequence of stores.  A store of eight bytes to an
  eight-byte boundary reaches the memory whole; every other write may be torn
  after any byte (see StoresOf).
 */
module Nvm {
  type byte = x: int | 0 <= x < 256

  /** Bytes `data` written at `addr` in one indivisible step. */
  datatype Store = Store(addr: nat, data: seq<byte>)

  function Splice<T>(s: seq<T>, at: nat, b: seq<T>): (r: seq<T>)
    requires at + |b| <= |s|
    ensures |r| == |s|
    ensures forall i :: 0 <= i < |s| ==> r[i] == if at <= i < at + |b| then b[i - at] else s[i]
  {
    s[..at] + b + s[at + |b|..]
  }

  /** Writing in two consecutive pieces is writing at once. */
  lemma SpliceSplit<T>(s: seq<T>, at: nat, b: seq<T>, n: nat)
    requires at + |b| <= |s| && n <= |b|
    ensures Splice(Splice(s, at, b[..n]), at + n, b[n..]) == Splice(s, at, b)
  {
  }

  ghost predicate InBounds(size: nat, stores: seq<Store>) {
    forall k :: 0 <= k < |stores| ==> stores[k].addr + |stores[k].data| <= size
  }

  /** Memory after the stores, first to last. */
  ghost function Apply(mem: seq<byte>, stores: seq<Store>): (r: seq<byte>)
    requires InBounds(|mem|, stores)
    ensures |r| == |mem|
    decreases |stores|
  {
    if stores == [] then mem
    else
      var last := stores[|stores| - 1];
      Splice(Apply(mem, stores[..|stores| - 1]), last.addr, last.data)
  }

  /** `after` is the memory `before` once the stores have reached it. */
  ghost predicate Stored(before: seq<byte>, stores: seq<Store>, after: seq<byte>) {
    InBounds(|before|, stores) && after == Apply(before, stores)
  }

  lemma ApplyNone(mem: seq<byte>)
    ensures InBounds(|mem|, []) && Apply(mem, []) == mem
  {
  }

  lemma {:induction false} ApplyConcat(mem: seq<byte>, a: seq<Store>, b: seq<Store>)
    requires InBounds(|mem|, a) && InBounds(|mem|, b)
    ensures InBounds(|mem|, a + b)
    ensures Apply(mem, a + b) == Apply(Apply(mem, a), b)
    decreases |b|
  {
    hide Splice;
    if b == [] {
      assert a + b == a;
    } else {
      ApplyConcat(mem, a, b[..|b| - 1]);
      assert (a + b)[|a + b| - 1] == b[|b| - 1];
      assert (a + b)[..|a + b| - 1] == a + b[..|b| - 1];
    }
  }

  /** Every byte the stores write lies in `region`. */
  ghost predicate Within(stores: seq<Store>, region: set<nat>) {
    forall k, a {:trigger stores[k], a in region} :: 0 <= k < |stores| && stores[k].addr <= a < stores[k].addr + |stores[k].data| ==> a in region
  }

  lemma WithinConcat(a: seq<Store>, b: seq<Store>, ra: set<nat>, rb: set<nat>, region: set<nat>)
    requires Within(a, ra) && Within(b, rb) && ra <= region && rb <= region
    ensures Within(a + b, region)
  {
  }

  lemma InBoundsConcat(size: nat, a: seq<Store>, b: seq<Store>)
    requires InBounds(size, a) && InBounds(size, b)
    ensures InBounds(size, a + b)
  {
  }

  lemma {:induction false} WithinKeeps(mem: seq<byte>, stores: seq<Store>, region: set<nat>)
    requires InBounds(|mem|, stores) && Within(stores, region)
    ensures forall a :: 0 <= a < |mem| && a !in region ==> Apply(mem, stores)[a] == mem[a]
    decreases |stores|
  {
    if stores != [] {
      WithinKeeps(mem, stores[..|stores| - 1], region);
    }
  }

  /** The stores one NVMWrite amounts to: an aligned word is indivisible, anything else tears. */
  ghost function StoresOf(addr: nat, data: seq<byte>): (r: seq<Store>)
    ensures forall k :: 0 <= k < |r| ==> addr <= r[k].addr && r[k].addr + |r[k].data| <= addr + |data|
    ensures data == [] ==> r == []
  {
    if |data| == 8 && addr % 8 == 0 then [Store(addr, data)]
    else seq(|data|, i requires 0 <= i < |data| => Store(addr + i, [data[i]]))
  }

  lemma {:induction false} ApplyBytes(mem: seq<byte>, addr: nat, data: seq<byte>, stores: seq<Store>)
    requires addr + |data| <= |mem| && |stores| == |data|
    requires forall i :: 0 <= i < |data| ==> stores[i] == Store(addr + i, [data[i]])
    ensures InBounds(|mem|, stores)
    ensures Apply(mem, stores) == Splice(mem, addr, data)
    decreases |data|
  {
    if data != [] {
      var n := |data| - 1;
      ApplyBytes(mem, addr, data[..n], stores[..n]);
    }
  }

  lemma ApplyStoresOf(mem: seq<byte>, addr: nat, data: seq<byte>)
    requires addr + |data| <= |mem|
    ensures InBounds(|mem|, StoresOf(addr, data))
    ensures Apply(mem, StoresOf(addr, data)) == Splice(mem, addr, data)
  {
    hide Apply, Splice;
    if |data| == 8 && addr % 8 == 0 {
      ApplySingle(mem, Store(addr, data));
    } else {
      ApplyBytes(mem, addr, data, StoresOf(addr, data));
    }
  }

  lemma ApplySingle(mem: seq<byte>, st: Store)
    requires st.addr + |st.data| <= |mem|
    ensures InBounds(|mem|, [st]) && Apply(mem, [st]) == Splice(mem, st.addr, st.data)
  {
    hide Splice;
    assert [st][..0] == [];
  }

  // ---------- little-endian integers ----------

  function Pow256(k: nat): (r: nat)
    ensures r > 0
  {
    if k == 0 then 1 else 256 * Pow256(k - 1)
  }

  function FromLE(b: seq<byte>): (r: nat) {
    if b == [] then 0 else b[0] + 256 * FromLE(b[1..])
  }

  function ToLE(n: nat, k: nat): (b: seq<byte>)
    ensures |b| == k
    decreases k
  {
    if k == 0 then [] else [n % 256] + ToLE(n / 256, k - 1)
  }

  lemma {:induction false} LERoundTrip(n: nat, k: nat)
    requires n < Pow256(k)
    ensures FromLE(ToLE(n, k)) == n
    decreases k
  {
    if k > 0 {
      assert n / 256 < Pow256(k - 1);
      LERoundTrip(n / 256, k - 1);
      assert ToLE(n, k)[1..] == ToLE(n / 256, k - 1);
    }
  }

  lemma {:induction false} LEInverse(b: seq<byte>)
    ensures FromLE(b) < Pow256(|b|)
    ensures ToLE(FromLE(b), |b|) == b
    decreases |b|
  {
    if b != [] {
      var rest := FromLE(b[1..]);
      LEInverse(b[1..]);
      assert (b[0] + 256 * rest) % 256 == b[0] && (b[0] + 256 * rest) / 256 == rest;
    }
  }

  const WORD: nat := 8
  const ZERO_WORD: seq<byte> := [0, 0, 0, 0, 0, 0, 0, 0]

  lemma Pow256Word()
    ensures Pow256(8) == 0x1_0000_0000_0000_0000 && Pow256(4) == 0x1_0000_0000
  {
    assert Pow256(1) == 256 && Pow256(2) == 65536 && Pow256(3) == 16777216 && Pow256(4) == 4294967296;
    assert Pow256(5) == 1099511627776 && Pow256(6) == 281474976710656;
  }

  /** The memory device. `trace` is every store made since the device held `base`. */
  class Device {
    const mem: array<byte>
    ghost const base: seq<byte>
    ghost var trace: seq<Store>

    ghost predicate Valid()
      reads this, mem
    {
      |base| == mem.Length && InBounds(|base|, trace) && mem[..] == Apply(base, trace)
    }

    constructor (initial: seq<byte>)
      ensures Valid() && fresh(mem) && mem[..] == initial == base && trace == []
    {
      mem := new byte[|initial|](i requires 0 <= i < |initial| => initial[i]);
      base := initial;
      trace := [];
      new;
      assert mem[..] == initial;
    }

    method Write(addr: nat, data: seq<byte>)
      requires Valid() && addr + |data| <= mem.Length
      modifies this, mem
      ensures Valid()
      ensures mem[..] == Splice(old(mem[..]), addr, data)
      ensures trace == old(trace) + StoresOf(addr, data)
    {
      ghost var was := mem[..];
      forall i | 0 <= i < |data| {
        mem[addr + i] := data[i];
      }
      assert mem[..] == Splice(was, addr, data);
      ApplyStoresOf(was, addr, data);
      ApplyConcat(base, trace, StoresOf(addr, data));
      trace := trace + StoresOf(addr, data);
    }

    method Read(addr: nat, size: nat) returns (data: seq<byte>)
      requires addr + size <= mem.Length
      ensures data == mem[addr..addr + size]
    {
      data := mem[addr..addr + size];
    }
  }
}
