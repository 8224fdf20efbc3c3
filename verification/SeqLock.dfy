/**
  The sequence lock in a map table entry (MapTable.c, BlockManagerRead).

  A writer or swapper makes the 22-bit lock word of a logical block odd, changes
  the bytes of the physical block behind it or the mapping, and makes it even
  again.  A reader takes nothing: it remembers an even lock word, asks for the
  physical block, reads byte by byte, and starts over when the word has changed.

  `completed`, `holder` and `owner` are history: how many sections a logical
  block has seen, who is inside one, and who may store to a physical block.
 */
module SeqLock {
  import opened Wrappers
  import opened Nvm
  import opened SwapMedium

  const LOCK_VALUES: nat := 0x40_0000
  const SECTIONS: nat := 0x20_0000

  /**
    A reader of `size` bytes of one logical block from `offset` on, `v` being the
    word it remembers and `start` what the whole block held then.
   */
  datatype Reader =
    | Resting
    | Loaded(block: nat, offset: nat, size: nat, v: nat, since: nat, start: seq<byte>)
    | Reading(block: nat, offset: nat, size: nat, v: nat, since: nat, start: seq<byte>, phys: nat, buffer: seq<byte>)

  datatype State = State(lock: seq<nat>, map_: seq<nat>, blocks: seq<seq<byte>>,
                         completed: seq<nat>, holder: seq<Option<nat>>, owner: seq<Option<nat>>, readers: seq<Reader>)

  datatype Action =
    | Lock(writer: nat, block: nat)                          // MapTableBlockWriteLock
    | StoreByte(writer: nat, phys: nat, offset: nat, value: byte)
    | SetMap(writer: nat, block: nat, phys: nat)             // one store of MapTableBlockSwapFast or Slow
    | Unlock(writer: nat, block: nat)                        // MapTableBlockWriteUnlock
    | ReadLock(reader: nat, block: nat, offset: nat, size: nat) // MapTableBlockReadLock, when the word is even
    | Query(reader: nat)                                     // MapTableQuery
    | ReadByte(reader: nat)
    | Leave(reader: nat)                                     // MapTableBlockReadUnlock, whatever it says

  ghost predicate Shape(s: State) {
    && |s.lock| == |s.map_| == |s.completed| == |s.holder| && |s.owner| == |s.blocks|
    && (forall l :: 0 <= l < |s.map_| ==> s.map_[l] < |s.blocks|)
    && (forall p :: 0 <= p < |s.blocks| ==> |s.blocks[p]| == SIZE_2M)
  }

  /** The bytes of a logical block. */
  function Content(s: State, l: nat): seq<byte>
    requires l < |s.map_| && s.map_[l] < |s.blocks|
  {
    s.blocks[s.map_[l]]
  }

  predicate Enabled(s: State, a: Action) {
    match a
    case Lock(w, l) => l < |s.lock| == |s.holder| && s.lock[l] % 2 == 0
    case StoreByte(w, p, o, _) => p < |s.owner| && s.owner[p] == Some(w) && o < SIZE_2M
    case SetMap(w, l, p) => l < |s.holder| && s.holder[l] == Some(w) && p < |s.owner| && s.owner[p] == Some(w)
    case Unlock(w, l) =>
      l < |s.holder| == |s.map_| && s.holder[l] == Some(w) && s.map_[l] < |s.owner| && s.owner[s.map_[l]] == Some(w)
    case ReadLock(r, l, off, n) =>
      r < |s.readers| && s.readers[r].Resting? && l < |s.lock| && s.lock[l] % 2 == 0 && off + n <= SIZE_2M
    case Query(r) => r < |s.readers| && s.readers[r].Loaded?
    case ReadByte(r) => r < |s.readers| && s.readers[r].Reading? && |s.readers[r].buffer| < s.readers[r].size
    case Leave(r) => r < |s.readers| && s.readers[r].Reading?
  }

  function Do(s: State, a: Action): State
    requires Shape(s) && Enabled(s, a) && ReadersInRange(s)
  {
    match a
    case Lock(w, l) =>
      s.(lock := s.lock[l := (s.lock[l] + 1) % LOCK_VALUES], holder := s.holder[l := Some(w)],
         owner := s.owner[s.map_[l] := Some(w)])
    case StoreByte(w, p, o, x) => s.(blocks := s.blocks[p := SetByte(s.blocks[p], o, x)])
    case SetMap(w, l, p) => s.(map_ := s.map_[l := p])
    case Unlock(w, l) =>
      s.(lock := s.lock[l := (s.lock[l] + 1) % LOCK_VALUES], holder := s.holder[l := None],
         owner := s.owner[s.map_[l] := None], completed := s.completed[l := s.completed[l] + 1])
    case ReadLock(r, l, off, n) => s.(readers := s.readers[r := Loaded(l, off, n, s.lock[l], s.completed[l], Content(s, l))])
    case Query(r) =>
      var x := s.readers[r];
      s.(readers := s.readers[r := Reading(x.block, x.offset, x.size, x.v, x.since, x.start, s.map_[x.block], [])])
    case ReadByte(r) =>
      var x := s.readers[r];
      s.(readers := s.readers[r := x.(buffer := x.buffer + [s.blocks[x.phys][x.offset + |x.buffer|]])])
    case Leave(r) => s.(readers := s.readers[r := Resting])
  }

  predicate ReaderInRange(s: State, x: Reader) {
    match x
    case Resting => true
    case Loaded(l, off, n, _, _, start) => l < |s.map_| && off + n <= |start| == SIZE_2M
    case Reading(l, off, n, _, _, start, p, b) => l < |s.map_| && p < |s.blocks| && |b| <= n && off + n <= |start| == SIZE_2M
  }

  predicate ReadersInRange(s: State) {
    forall r :: 0 <= r < |s.readers| ==> ReaderInRange(s, s.readers[r])
  }

  // ---------- the invariant ----------

  function LockWord(completed: nat, held: bool): nat { (2 * completed + if held then 1 else 0) % LOCK_VALUES }

  ghost predicate LocksOk(s: State)
    requires Shape(s)
  {
    forall l :: 0 <= l < |s.lock| ==> s.lock[l] == LockWord(s.completed[l], s.holder[l].Some?)
  }

  /** What is not inside a section has its own physical block, and nobody may store to it. */
  ghost predicate Apart(s: State)
    requires Shape(s)
  {
    && (forall l :: 0 <= l < |s.map_| && s.holder[l].None? ==> s.owner[s.map_[l]].None?)
    && (forall l, k :: 0 <= l < k < |s.map_| && s.holder[l].None? && s.holder[k].None? ==> s.map_[l] != s.map_[k])
  }

  /** No section of the block has begun since the reader remembered the word. */
  predicate Undisturbed(s: State, l: nat, since: nat)
    requires l < |s.completed| && l < |s.holder|
  {
    s.completed[l] == since && s.holder[l].None?
  }

  ghost predicate ReaderOk(s: State, x: Reader)
    requires Shape(s)
  {
    ReaderInRange(s, x) &&
    match x
    case Resting => true
    case Loaded(l, _, _, v, since, start) =>
      since <= s.completed[l] && v == LockWord(since, false) && (Undisturbed(s, l, since) ==> Content(s, l) == start)
    case Reading(l, off, _, v, since, start, p, b) =>
      since <= s.completed[l] && v == LockWord(since, false) &&
      (Undisturbed(s, l, since) ==> Content(s, l) == start && p == s.map_[l] && b == start[off..off + |b|])
  }

  ghost predicate Inv(s: State) {
    Shape(s) && LocksOk(s) && Apart(s) && forall r :: 0 <= r < |s.readers| ==> ReaderOk(s, s.readers[r])
  }

  lemma WordParity(c: nat, held: bool)
    ensures LockWord(c, held) % 2 == if held then 1 else 0
    ensures !held ==> (LockWord(c, false) + 1) % LOCK_VALUES == LockWord(c, true)
    ensures (LockWord(c, true) + 1) % LOCK_VALUES == LockWord(c + 1, false)
  {
    RemainderParity(2 * c);
    RemainderParity(2 * c + 1);
    RemainderStep(2 * c);
    RemainderStep(2 * c + 1);
  }

  lemma RemainderParity(n: nat)
    ensures n % LOCK_VALUES % 2 == n % 2
  {
    var q, r := n / LOCK_VALUES, n % LOCK_VALUES;
    assert n == LOCK_VALUES * q + r;
    assert n == 2 * (SECTIONS * q) + r;
  }

  lemma RemainderStep(n: nat)
    ensures (n % LOCK_VALUES + 1) % LOCK_VALUES == (n + 1) % LOCK_VALUES
  {
    var q, r := n / LOCK_VALUES, n % LOCK_VALUES;
    assert n + 1 == LOCK_VALUES * q + (r + 1);
    if r + 1 == LOCK_VALUES { assert n + 1 == LOCK_VALUES * (q + 1); }
  }

  lemma LockedFree(s: State, l: nat)
    requires Inv(s) && l < |s.lock| && s.lock[l] % 2 == 0
    ensures s.holder[l].None?
  {
    WordParity(s.completed[l], s.holder[l].Some?);
  }

  lemma InvInRange(s: State)
    requires Inv(s)
    ensures Shape(s) && ReadersInRange(s)
  {
    hide Shape;
    forall r | 0 <= r < |s.readers| ensures ReaderInRange(s, s.readers[r]) {
      assert ReaderOk(s, s.readers[r]);
    }
  }

  lemma LockKeeps(s: State, w: nat, l: nat)
    requires Inv(s) && Enabled(s, Lock(w, l)) && ReadersInRange(s)
    ensures Inv(Do(s, Lock(w, l)))
  {
    LockedFree(s, l);
    hide LockWord;
    WordParity(s.completed[l], false);
    var t := Do(s, Lock(w, l));
    forall r | 0 <= r < |t.readers| ensures ReaderOk(t, t.readers[r]) {
      assert ReaderOk(s, s.readers[r]);
    }
  }

  lemma UnlockKeeps(s: State, w: nat, l: nat)
    requires Inv(s) && Enabled(s, Unlock(w, l)) && ReadersInRange(s)
    ensures Inv(Do(s, Unlock(w, l)))
  {
    hide LockWord;
    WordParity(s.completed[l], true);
    var t := Do(s, Unlock(w, l));
    forall r | 0 <= r < |t.readers| ensures ReaderOk(t, t.readers[r]) {
      assert ReaderOk(s, s.readers[r]);
    }
  }

  /** Stores go to blocks nobody reads undisturbed. */
  lemma StoreKeeps(s: State, w: nat, p: nat, o: nat, x: byte)
    requires Inv(s) && Enabled(s, StoreByte(w, p, o, x)) && ReadersInRange(s)
    ensures Inv(Do(s, StoreByte(w, p, o, x)))
  {
    hide LockWord;
    var t := Do(s, StoreByte(w, p, o, x));
    forall r | 0 <= r < |t.readers| ensures ReaderOk(t, t.readers[r]) {
      assert ReaderOk(s, s.readers[r]);
    }
  }

  lemma SetMapKeeps(s: State, w: nat, l: nat, p: nat)
    requires Inv(s) && Enabled(s, SetMap(w, l, p)) && ReadersInRange(s)
    ensures Inv(Do(s, SetMap(w, l, p)))
  {
    hide LockWord;
    var t := Do(s, SetMap(w, l, p));
    forall r | 0 <= r < |t.readers| ensures ReaderOk(t, t.readers[r]) {
      assert ReaderOk(s, s.readers[r]);
    }
  }

  lemma ReaderKeeps(s: State, a: Action)
    requires Inv(s) && Enabled(s, a) && ReadersInRange(s)
    requires a.ReadLock? || a.Query? || a.ReadByte? || a.Leave?
    ensures Inv(Do(s, a))
  {
    if a.ReadLock? {
      LockedFree(s, a.block);
    }
    hide LockWord;
    var t := Do(s, a);
    forall r | 0 <= r < |t.readers| ensures ReaderOk(t, t.readers[r]) {
      assert ReaderOk(s, s.readers[r]);
    }
  }

  lemma ActionKeepsInv(s: State, a: Action)
    requires Inv(s) && Enabled(s, a)
    ensures Shape(s) && ReadersInRange(s) && Inv(Do(s, a))
  {
    hide Inv, Enabled, Do;
    InvInRange(s);
    match a
    case Lock(w, l) => LockKeeps(s, w, l);
    case StoreByte(w, p, o, x) => StoreKeeps(s, w, p, o, x);
    case SetMap(w, l, p) => SetMapKeeps(s, w, l, p);
    case Unlock(w, l) => UnlockKeeps(s, w, l);
    case _ => ReaderKeeps(s, a);
  }

  // ---------- when the check lets a read pass ----------

  /** Lock words agree exactly when no section is open and a multiple of 2^21 have ended. */
  lemma CheckPasses(c0: nat, c1: nat, held: bool)
    requires c0 <= c1
    ensures LockWord(c0, false) == LockWord(c1, held) <==> !held && (c1 - c0) % SECTIONS == 0
  {
    var a, b := 2 * c0, 2 * c1 + if held then 1 else 0;
    assert LockWord(c0, false) == LockWord(c1, held) <==> (b - a) % LOCK_VALUES == 0 by { SameRemainder(a, b); }
    if held {
      OddRemainder(c1 - c0);
    } else {
      DoubledRemainder(c1 - c0);
    }
  }

  lemma OddRemainder(n: nat)
    ensures (2 * n + 1) % LOCK_VALUES != 0
  {
    var q := (2 * n + 1) / LOCK_VALUES;
    assert 2 * n + 1 == LOCK_VALUES * q + (2 * n + 1) % LOCK_VALUES;
    assert LOCK_VALUES * q == 2 * (SECTIONS * q);
  }

  lemma SameRemainder(a: nat, b: nat)
    requires a <= b
    ensures a % LOCK_VALUES == b % LOCK_VALUES <==> (b - a) % LOCK_VALUES == 0
  {
  }

  lemma DoubledRemainder(d: nat)
    ensures 2 * d % LOCK_VALUES == 0 <==> d % SECTIONS == 0
  {
  }

  /** The reader has all it asked for, the check passes, and fewer than 2^21 sections ended meanwhile. */
  predicate Passes(s: State, x: Reader) {
    && x.Reading? && |x.buffer| == x.size && x.block < |s.lock| == |s.completed|
    && s.lock[x.block] == x.v && s.completed[x.block] < x.since + SECTIONS
  }

  /** The bytes are those of the asked-for range, which the block has now and had when the read began. */
  predicate OneState(s: State, x: Reader) {
    && x.Reading? && x.block < |s.map_| && s.map_[x.block] < |s.blocks|
    && x.offset + x.size <= |Content(s, x.block)| && x.offset + x.size <= |x.start|
    && x.buffer == Content(s, x.block)[x.offset..x.offset + x.size] == x.start[x.offset..x.offset + x.size]
  }

  /**
    A read of any part of a block whose check passes, with fewer than 2^21 sections
    since it began: there was none, and its bytes are those of one state.
   */
  lemma PassedReadIsOneState(s: State, r: nat)
    requires Inv(s) && r < |s.readers| && Passes(s, s.readers[r])
    ensures var x := s.readers[r];
            x.block < |s.completed| && x.block < |s.holder| && Undisturbed(s, x.block, x.since) && OneState(s, x)
  {
    hide LockWord;
    var x := s.readers[r];
    assert ReaderOk(s, x);
    CheckPasses(x.since, s.completed[x.block], s.holder[x.block].Some?);
  }

  // ---------- runs ----------

  ghost predicate Run(s: State, run: seq<Action>)
    decreases |run|
  {
    run == [] || (Shape(s) && ReadersInRange(s) && Enabled(s, run[0]) && Run(Do(s, run[0]), run[1..]))
  }

  ghost function After(s: State, run: seq<Action>): State
    requires Run(s, run)
    decreases |run|
  {
    if run == [] then s else After(Do(s, run[0]), run[1..])
  }

  lemma {:induction false} RunKeepsInv(s: State, run: seq<Action>)
    requires Inv(s) && Run(s, run)
    ensures Inv(After(s, run))
    decreases |run|
  {
    hide Inv, Enabled, Do, Shape, ReadersInRange;
    if run != [] {
      ActionKeepsInv(s, run[0]);
      RunKeepsInv(Do(s, run[0]), run[1..]);
    }
  }

  /** MapTableFormat, and any contents of the blocks. */
  function Formatted(blocks: seq<seq<byte>>, readers: nat): State {
    var n := |blocks|;
    State(seq(n, _ => 0), seq(n, l => l), blocks, seq(n, _ => 0), seq(n, _ => None), seq(n, _ => None), seq(readers, _ => Resting))
  }

  /** In every run from a formatted table, a read that passes the check with fewer than 2^21 sections in it is clean. */
  lemma EveryPassedReadIsOneState(blocks: seq<seq<byte>>, readers: nat, run: seq<Action>, r: nat)
    requires forall p :: 0 <= p < |blocks| ==> |blocks[p]| == SIZE_2M
    requires Run(Formatted(blocks, readers), run)
    ensures var s := After(Formatted(blocks, readers), run);
            Inv(s) && (r < |s.readers| && Passes(s, s.readers[r]) ==> OneState(s, s.readers[r]))
  {
    hide Run, After;
    assert Inv(Formatted(blocks, readers));
    RunKeepsInv(Formatted(blocks, readers), run);
    var s := After(Formatted(blocks, readers), run);
    if r < |s.readers| && Passes(s, s.readers[r]) {
      PassedReadIsOneState(s, r);
    }
  }

  lemma {:induction false} RunConcat(s: State, a: seq<Action>, b: seq<Action>)
    requires Run(s, a) && Run(After(s, a), b)
    ensures Run(s, a + b) && After(s, a + b) == After(After(s, a), b)
    decreases |a|
  {
    hide Enabled, Do, Shape, ReadersInRange;
    if a == [] {
      assert a + b == b;
    } else {
      assert (a + b)[1..] == a[1..] + b;
      RunConcat(Do(s, a[0]), a[1..], b);
    }
  }

  lemma RunOne(s: State, a: Action)
    requires Shape(s) && ReadersInRange(s) && Enabled(s, a)
    ensures Run(s, [a]) && After(s, [a]) == Do(s, a)
  {
    hide Enabled, Do, Shape, ReadersInRange;
    assert [a][1..] == [];
  }

  lemma RunThen(s: State, a: seq<Action>, b: Action)
    requires Run(s, a) && Shape(After(s, a)) && ReadersInRange(After(s, a)) && Enabled(After(s, a), b)
    ensures Run(s, a + [b]) && After(s, a + [b]) == Do(After(s, a), b)
  {
    hide Enabled, Do, Shape, ReadersInRange, Run, After;
    RunOne(After(s, a), b);
    RunConcat(s, a, [b]);
  }

  // ---------- readers and writers get on ----------

  /** A section can begin, and so can a read of any part of a block, exactly when nobody is inside a section of the block. */
  lemma BeginsIff(s: State, l: nat)
    requires Inv(s) && l < |s.lock|
    ensures forall w: nat :: Enabled(s, Lock(w, l)) <==> s.holder[l].None?
    ensures forall r: nat, off: nat, n: nat ::
      Enabled(s, ReadLock(r, l, off, n)) <==> r < |s.readers| && s.readers[r].Resting? && s.holder[l].None? && off + n <= SIZE_2M
  {
    WordParity(s.completed[l], s.holder[l].Some?);
  }

  /** A read of `n` bytes by a reader nobody disturbs, up to the check. */
  function ReadActions(r: nat, l: nat, off: nat, n: nat): (run: seq<Action>)
    ensures |run| == n + 2
  {
    [ReadLock(r, l, off, n)] + [Query(r)] + seq(n, _ => ReadByte(r))
  }

  /** The state while reader `r` has the first `i` of its bytes. */
  function WithBytes(s: State, r: nat, l: nat, off: nat, n: nat, i: nat): State
    requires Shape(s) && r < |s.readers| && l < |s.map_| && i <= n && off + n <= SIZE_2M
  {
    s.(readers := s.readers[r := Reading(l, off, n, s.lock[l], s.completed[l], Content(s, l), s.map_[l], Content(s, l)[off..off + i])])
  }

  lemma {:induction false} BytesRead(s: State, r: nat, l: nat, off: nat, n: nat, i: nat, run: seq<Action>)
    requires Shape(s) && ReadersInRange(s) && r < |s.readers| && l < |s.map_| && i <= n && off + n <= SIZE_2M
    requires Run(s, run) && After(s, run) == WithBytes(s, r, l, off, n, 0)
    ensures Run(s, run + seq(i, _ => ReadByte(r))) && After(s, run + seq(i, _ => ReadByte(r))) == WithBytes(s, r, l, off, n, i)
    decreases i
  {
    hide Run, After;
    var a := seq(i, _ => ReadByte(r));
    if i == 0 {
      assert run + a == run;
    } else {
      BytesRead(s, r, l, off, n, i - 1, run);
      var b, c := seq(i - 1, _ => ReadByte(r)), Content(s, l);
      assert a == b + [ReadByte(r)] && run + a == run + b + [ReadByte(r)];
      var u := WithBytes(s, r, l, off, n, i - 1);
      RunThen(s, run + b, ReadByte(r));
      assert c[off..off + (i - 1)] + [c[off + (i - 1)]] == c[off..off + i];
      assert Do(u, ReadByte(r)).readers == WithBytes(s, r, l, off, n, i).readers;
    }
  }

  /** A read nobody disturbs passes its check, has the bytes of the range and changes nothing but the reader. */
  lemma ReadPasses(s: State, r: nat, l: nat, off: nat, n: nat)
    requires Inv(s) && r < |s.readers| && s.readers[r].Resting? && l < |s.lock| && s.holder[l].None? && off + n <= SIZE_2M
    ensures Run(s, ReadActions(r, l, off, n))
    ensures var t := After(s, ReadActions(r, l, off, n));
            && r < |t.readers| && t.readers == s.readers[r := t.readers[r]] && t == s.(readers := t.readers)
            && Passes(t, t.readers[r]) && t.readers[r].buffer == Content(s, l)[off..off + n]
  {
    hide Run, After, LockWord;
    InvInRange(s);
    BeginsIff(s, l);
    var a, b := ReadLock(r, l, off, n), Query(r);
    assert Enabled(s, a);
    RunOne(s, a);
    var s1 := Do(s, a);
    assert ReadersInRange(s1);
    RunThen(s, [a], b);
    assert Do(s1, b).readers == WithBytes(s, r, l, off, n, 0).readers;
    BytesRead(s, r, l, off, n, n, [a] + [b]);
  }

  // ---------- the bound is sharp ----------

  function Page(first: byte, second: byte): (c: seq<byte>)
    ensures |c| == SIZE_2M
  {
    seq(SIZE_2M, i => if i == 0 then first else if i == 1 then second else 0)
  }

  /** One block, whose only reader wants its first `n` bytes and has some while `k` sections came and went. */
  function Torn(k: nat, n: nat, buffer: seq<byte>): State {
    State([LockWord(k, false)], [0], [if k == 0 then Page(0, 0) else Page(1, 1)], [k], [None], [None],
          [Reading(0, 0, n, LockWord(0, false), 0, Page(0, 0), 0, buffer)])
  }

  function WholeSection(): seq<Action> { [Lock(0, 0), StoreByte(0, 0, 0, 1), StoreByte(0, 0, 1, 1), Unlock(0, 0)] }

  lemma SectionRuns(k: nat, n: nat)
    requires 1 <= n <= SIZE_2M
    ensures Run(Torn(k, n, [0]), WholeSection()) && After(Torn(k, n, [0]), WholeSection()) == Torn(k + 1, n, [0])
  {
    hide Run, After, LockWord;
    WordParity(k, false);
    WordParity(k, true);
    var s := Torn(k, n, [0]);
    RunOne(s, Lock(0, 0));
    var a := [Lock(0, 0)];
    RunThen(s, a, StoreByte(0, 0, 0, 1));
    RunThen(s, a + [StoreByte(0, 0, 0, 1)], StoreByte(0, 0, 1, 1));
    RunThen(s, a + [StoreByte(0, 0, 0, 1)] + [StoreByte(0, 0, 1, 1)], Unlock(0, 0));
    var c := SetByte(SetByte(s.blocks[0], 0, 1), 1, 1);
    assert c == Page(1, 1);
    assert a + [StoreByte(0, 0, 0, 1)] + [StoreByte(0, 0, 1, 1)] + [Unlock(0, 0)] == WholeSection();
    assert After(s, WholeSection()) == Torn(k + 1, n, [0]);
  }

  lemma {:induction false} SectionsRun(k: nat, n: nat) returns (run: seq<Action>)
    requires 1 <= n <= SIZE_2M
    ensures Run(Torn(0, n, [0]), run) && After(Torn(0, n, [0]), run) == Torn(k, n, [0])
    decreases k
  {
    hide Torn, WholeSection, Enabled, Do;
    if k == 0 {
      run := [];
    } else {
      run := SectionsRun(k - 1, n);
      SectionRuns(k - 1, n);
      RunConcat(Torn(0, n, [0]), run, WholeSection());
      run := run + WholeSection();
    }
  }

  /** The first byte from before, the others from now. */
  function Mixed(n: nat): (b: seq<byte>)
    requires 1 <= n <= SIZE_2M
    ensures |b| == n
  {
    seq(n, i => if i == 1 then 1 else 0)
  }

  lemma {:induction false} RestRead(k: nat, n: nat, i: nat) returns (run: seq<Action>)
    requires k > 0 && 1 <= i <= n <= SIZE_2M
    ensures Run(Torn(k, n, [0]), run) && After(Torn(k, n, [0]), run) == Torn(k, n, Mixed(i))
    decreases i
  {
    hide LockWord, Run, After;
    if i == 1 {
      run := [];
      RunNothing(Torn(k, n, [0]));
      assert Mixed(1) == [0];
    } else {
      run := RestRead(k, n, i - 1);
      var s := Torn(k, n, Mixed(i - 1));
      RunThen(Torn(k, n, [0]), run, ReadByte(0));
      assert Mixed(i - 1) + [s.blocks[0][i - 1]] == Mixed(i);
      assert Do(s, ReadByte(0)) == Torn(k, n, Mixed(i));
      run := run + [ReadByte(0)];
    }
  }

  lemma RunNothing(s: State)
    ensures Run(s, []) && After(s, []) == s
  {
  }

  lemma FirstByteRead(n: nat) returns (run: seq<Action>)
    requires 1 <= n <= SIZE_2M
    ensures Run(Formatted([Page(0, 0)], 1), run) && After(Formatted([Page(0, 0)], 1), run) == Torn(0, n, [0])
  {
    hide Run, After;
    var s := Formatted([Page(0, 0)], 1);
    assert s == State([0], [0], [Page(0, 0)], [0], [None], [None], [Resting]);
    assert LockWord(0, false) == 0;
    var a := ReadLock(0, 0, 0, n);
    RunOne(s, a);
    var s1 := Do(s, a);
    assert s1.readers == [Loaded(0, 0, n, 0, 0, Page(0, 0))];
    RunThen(s, [a], Query(0));
    var s2 := Do(s1, Query(0));
    assert s2.readers == [Reading(0, 0, n, 0, 0, Page(0, 0), 0, [])];
    RunThen(s, [a] + [Query(0)], ReadByte(0));
    run := [a] + [Query(0)] + [ReadByte(0)];
    assert s2.blocks[0][0] == 0 && [] + [s2.blocks[0][0]] == [0];
    assert Do(s2, ReadByte(0)).readers == [Reading(0, 0, n, 0, 0, Page(0, 0), 0, [0])];
  }

  /**
    With 2^21 sections in one read of two bytes or more the check passes on bytes the
    block never had between two sections.
   */
  lemma TornReadPasses(n: nat) returns (run: seq<Action>, s: State)
    requires 2 <= n <= SIZE_2M
    ensures Run(Formatted([Page(0, 0)], 1), run) && s == After(Formatted([Page(0, 0)], 1), run)
    ensures Inv(s) && |s.readers| == 1 && s.readers[0].Reading? && |s.readers[0].buffer| == s.readers[0].size == n
    ensures s.lock[0] == s.readers[0].v && s.completed[0] == s.readers[0].since + SECTIONS
    ensures s.readers[0].buffer != Content(s, 0)[..n] && s.readers[0].buffer != s.readers[0].start[..n]
  {
    hide Run, After;
    var z := Formatted([Page(0, 0)], 1);
    var a := FirstByteRead(n);
    var b := SectionsRun(SECTIONS, n);
    var c := RestRead(SECTIONS, n, n);
    RunConcat(z, a, b);
    RunConcat(z, a + b, c);
    run := a + b + c;
    s := Torn(SECTIONS, n, Mixed(n));
    assert Inv(z);
    RunKeepsInv(z, run);
    assert Mixed(n)[0] == 0 && Mixed(n)[1] == 1 && Page(1, 1)[..n][0] == 1 && Page(0, 0)[..n][1] == 0;
  }

  // ---------- what writers and swappers do is allowed ----------

  /** Whoever acts, what a writer holds stays as it is, and so do the bytes only it may store. */
  lemma HeldIsStable(s: State, a: Action, w: nat)
    requires Inv(s) && Enabled(s, a) && ReadersInRange(s)
    requires !a.ReadLock? && !a.Query? && !a.ReadByte? && !a.Leave? ==> a.writer != w
    ensures var t := Do(s, a);
            && |t.holder| == |s.holder| && |t.owner| == |s.owner| == |t.blocks| == |s.blocks| && |t.map_| == |s.map_| == |s.holder|
            && (forall l :: 0 <= l < |s.holder| && s.holder[l] == Some(w) ==> t.holder[l] == Some(w) && t.map_[l] == s.map_[l])
            && (forall p :: 0 <= p < |s.owner| && s.owner[p] == Some(w) ==> t.owner[p] == Some(w) && t.blocks[p] == s.blocks[p])
  {
    hide LockWord;
    if a.Lock? {
      LockedFree(s, a.block);
    }
  }

  function CopyStores(w: nat, p: nat, content: seq<byte>, n: nat): (run: seq<Action>)
    requires n <= |content|
    ensures |run| == n
  {
    seq(n, i requires 0 <= i < n => StoreByte(w, p, i, content[i]))
  }

  /** The first `n` bytes of a block stored, the rest as it was. */
  function Stored(old_: seq<byte>, content: seq<byte>, n: nat): (c: seq<byte>)
    requires n <= |content| == |old_|
    ensures |c| == |old_| && (n == |content| ==> c == content)
  {
    content[..n] + old_[n..]
  }

  lemma {:induction false} CopyRuns(s: State, w: nat, p: nat, content: seq<byte>, n: nat)
    requires Shape(s) && ReadersInRange(s) && p < |s.blocks| && s.owner[p] == Some(w) && n <= |content| == SIZE_2M
    ensures Run(s, CopyStores(w, p, content, n))
    ensures After(s, CopyStores(w, p, content, n)) == s.(blocks := s.blocks[p := Stored(s.blocks[p], content, n)])
    decreases n
  {
    hide Run, After;
    if n == 0 {
      assert Stored(s.blocks[p], content, 0) == s.blocks[p];
      assert CopyStores(w, p, content, 0) == [];
      RunNothing(s);
    } else {
      CopyRuns(s, w, p, content, n - 1);
      var m := s.(blocks := s.blocks[p := Stored(s.blocks[p], content, n - 1)]);
      assert ReadersInRange(m) by {
        forall r | 0 <= r < |m.readers| ensures ReaderInRange(m, m.readers[r]) { assert ReaderInRange(s, s.readers[r]); }
      }
      var st := StoreByte(w, p, n - 1, content[n - 1]);
      RunThen(s, CopyStores(w, p, content, n - 1), st);
      assert CopyStores(w, p, content, n - 1) + [st] == CopyStores(w, p, content, n);
      assert SetByte(Stored(s.blocks[p], content, n - 1), n - 1, content[n - 1]) == Stored(s.blocks[p], content, n);
    }
  }

  /** BlockSwapFast on locked blocks: the copy, both map entries, both unlocks. */
  function FastSwapActions(s: State, w: nat, la: nat, lb: nat): seq<Action>
    requires Shape(s) && la < |s.map_| && lb < |s.map_|
  {
    [Lock(w, la)] + [Lock(w, lb)] + CopyStores(w, s.map_[lb], Content(s, la), SIZE_2M)
      + [SetMap(w, la, s.map_[lb])] + [SetMap(w, lb, s.map_[la])] + [Unlock(w, la)] + [Unlock(w, lb)]
  }

  /** A fast swap of two free blocks is a run, and leaves the bytes of the first where readers find them. */
  lemma FastSwapRuns(s: State, w: nat, la: nat, lb: nat)
    requires Inv(s) && la < |s.map_| && lb < |s.map_| && la != lb && s.holder[la].None? && s.holder[lb].None?
    ensures Run(s, FastSwapActions(s, w, la, lb))
    ensures var t := After(s, FastSwapActions(s, w, la, lb));
            && t.map_ == s.map_[la := s.map_[lb]][lb := s.map_[la]] && t.holder == s.holder && Shape(t)
            && (forall l :: 0 <= l < |s.map_| && l != lb && s.holder[l].None? ==> Content(t, l) == Content(s, l))
            && Content(t, lb) == Content(s, la)
  {
    hide Run, After, LockWord;
    InvInRange(s);
    WordParity(s.completed[la], false);
    WordParity(s.completed[lb], false);
    var pa, pb, c := s.map_[la], s.map_[lb], Content(s, la);
    assert pa != pb;
    RunOne(s, Lock(w, la));
    var s1 := Do(s, Lock(w, la));
    LockKeeps(s, w, la);
    InvInRange(s1);
    var r2 := [Lock(w, la)] + [Lock(w, lb)];
    RunThen(s, [Lock(w, la)], Lock(w, lb));
    var s2 := Do(s1, Lock(w, lb));
    LockKeeps(s1, w, lb);
    InvInRange(s2);
    CopyRuns(s2, w, pb, c, SIZE_2M);
    RunConcat(s, r2, CopyStores(w, pb, c, SIZE_2M));
    FastSwapEnds(s, s2, w, la, lb, r2 + CopyStores(w, pb, c, SIZE_2M));
  }

  lemma FastSwapEnds(s: State, s2: State, w: nat, la: nat, lb: nat, run: seq<Action>)
    requires Inv(s) && Inv(s2) && la < |s.map_| && lb < |s.map_| && la != lb && s.holder[la].None? && s.holder[lb].None?
    requires s2.map_ == s.map_ && s2.blocks == s.blocks && s2.holder == s.holder[la := Some(w)][lb := Some(w)]
    requires s2.owner == s.owner[s.map_[la] := Some(w)][s.map_[lb] := Some(w)]
    requires Run(s, run) && After(s, run) == s2.(blocks := s2.blocks[s.map_[lb] := Content(s, la)])
    ensures var r := run + [SetMap(w, la, s.map_[lb])] + [SetMap(w, lb, s.map_[la])] + [Unlock(w, la)] + [Unlock(w, lb)];
            Run(s, r) &&
            var t := After(s, r);
            && t.map_ == s.map_[la := s.map_[lb]][lb := s.map_[la]] && t.holder == s.holder && Shape(t)
            && (forall l :: 0 <= l < |s.map_| && l != lb && s.holder[l].None? ==> Content(t, l) == Content(s, l))
            && Content(t, lb) == Content(s, la)
  {
    hide Run, After, LockWord;
    var s3 := After(s, run);
    InvInRange(s2);
    assert ReadersInRange(s3) by {
      forall r | 0 <= r < |s3.readers| ensures ReaderInRange(s3, s3.readers[r]) { assert ReaderInRange(s2, s2.readers[r]); }
    }
    var a, b, c, d := SetMap(w, la, s.map_[lb]), SetMap(w, lb, s.map_[la]), Unlock(w, la), Unlock(w, lb);
    RunThen(s, run, a);
    var s4 := Do(s3, a);
    SameReaders(s3, s4);
    RunThen(s, run + [a], b);
    var s5 := Do(s4, b);
    SameReaders(s4, s5);
    RunThen(s, run + [a] + [b], c);
    var s6 := Do(s5, c);
    SameReaders(s5, s6);
    RunThen(s, run + [a] + [b] + [c], d);
    FastSwapContents(s, Do(s6, d), la, lb);
  }

  lemma FastSwapContents(s: State, t: State, la: nat, lb: nat)
    requires Shape(s) && Apart(s) && la < |s.map_| && lb < |s.map_| && la != lb && s.holder[la].None? && s.holder[lb].None?
    requires Shape(t) && t.map_ == s.map_[la := s.map_[lb]][lb := s.map_[la]]
    requires t.blocks == s.blocks[s.map_[lb] := Content(s, la)]
    ensures forall l :: 0 <= l < |s.map_| && l != lb && s.holder[l].None? ==> Content(t, l) == Content(s, l)
    ensures Content(t, lb) == Content(s, la)
  {
  }

  lemma SameReaders(s: State, t: State)
    requires ReadersInRange(s) && t.readers == s.readers && |t.map_| == |s.map_| && |t.blocks| == |s.blocks|
    ensures ReadersInRange(t)
  {
    forall r | 0 <= r < |t.readers| ensures ReaderInRange(t, t.readers[r]) { assert ReaderInRange(s, s.readers[r]); }
  }
}
