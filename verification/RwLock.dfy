/**
  The reader/writer lock in a block map entry (BlockEntrySharedLock,
  BlockEntrySharedUnlock, BlockEntryUniqueLock, BlockEntryUniqueUnlock).

  An entry is one word: two bits of lock, eight bits of reader count, and the
  mapping.  Every operation loads the word, computes the word it expects and the
  word it wants, and compares and swaps; when that fails it starts over.  Any
  number of threads interleave at these steps.
 */
module RwLock {
  import opened Wrappers

  const COUNTS: nat := 256

  datatype Entry = Entry(lock: nat, count: nat, mapping: nat)

  /** What a compare and swap expects, and what it puts there. */
  datatype Swap = Swap(expected: Entry, wanted: Entry)

  function SharedLockSwap(e: Entry): Swap {
    if e.lock == 0 then Swap(e, e.(lock := 2, count := 1))
    else Swap(e.(lock := 2), e.(lock := 2, count := (e.count + 1) % COUNTS))
  }

  function SharedUnlockSwap(e: Entry): Swap {
    if e.lock == 2 then
      Swap(e, if e.count == 1 then e.(lock := 0, count := 0) else e.(count := (e.count + COUNTS - 1) % COUNTS))
    else
      Swap(e.(lock := 3), if e.count == 1 then e.(lock := 1, count := 0) else e.(count := (e.count + COUNTS - 1) % COUNTS))
  }

  function UniqueLockSwap(e: Entry): Swap {
    if e.lock == 0 then Swap(e, e.(lock := 1)) else Swap(e.(lock := 2), e.(lock := 3))
  }

  function UniqueUnlockSwap(e: Entry): Swap { Swap(e, e.(lock := 0)) }

  /** Where a thread is; inside an operation, with the word it loaded. */
  datatype Pc =
    | Outside
    | SharedTry(seen: Option<Entry>)
    | Reading
    | SharedRelease(seen: Option<Entry>)
    | UniqueTry(seen: Option<Entry>)
    | UniqueWait
    | Writing
    | UniqueRelease(seen: Option<Entry>)

  datatype State = State(entry: Entry, threads: seq<Pc>)

  datatype Action =
    | Call(thread: nat, op: Pc)          // begin an operation: SharedTry, SharedRelease, UniqueTry or UniqueRelease
    | Load(thread: nat)
    | CompareAndSwap(thread: nat)
    | Spin(thread: nat)                  // the second loop of BlockEntryUniqueLock
    | Remap(thread: nat, mapping: nat)   // the owner changes the mapping

  predicate Trying(pc: Pc) { pc.SharedTry? || pc.SharedRelease? || pc.UniqueTry? || pc.UniqueRelease? }

  predicate MayCall(pc: Pc, op: Pc) {
    match op
    case SharedTry(seen) => seen.None? && pc.Outside?
    case UniqueTry(seen) => seen.None? && pc.Outside?
    case SharedRelease(seen) => seen.None? && pc.Reading?
    case UniqueRelease(seen) => seen.None? && pc.Writing?
    case _ => false
  }

  predicate Enabled(s: State, a: Action) {
    a.thread < |s.threads| &&
    var pc := s.threads[a.thread];
    match a
    case Call(_, op) => MayCall(pc, op)
    case Load(_) => Trying(pc) && pc.seen.None?
    case CompareAndSwap(_) => Trying(pc) && pc.seen.Some?
    case Spin(_) => pc.UniqueWait?
    case Remap(_, _) => pc.Writing?
  }

  function SwapOf(pc: Pc): Swap
    requires Trying(pc) && pc.seen.Some?
  {
    match pc
    case SharedTry(Some(e)) => SharedLockSwap(e)
    case SharedRelease(Some(e)) => SharedUnlockSwap(e)
    case UniqueTry(Some(e)) => UniqueLockSwap(e)
    case UniqueRelease(Some(e)) => UniqueUnlockSwap(e)
  }

  function Succeeded(pc: Pc): Pc
    requires Trying(pc)
  {
    match pc
    case SharedTry(_) => Reading
    case SharedRelease(_) => Outside
    case UniqueTry(_) => UniqueWait
    case UniqueRelease(_) => Outside
  }

  function WithSeen(pc: Pc, seen: Option<Entry>): Pc
    requires Trying(pc)
  {
    match pc
    case SharedTry(_) => SharedTry(seen)
    case SharedRelease(_) => SharedRelease(seen)
    case UniqueTry(_) => UniqueTry(seen)
    case UniqueRelease(_) => UniqueRelease(seen)
  }

  function Do(s: State, a: Action): State
    requires Enabled(s, a)
  {
    var pc := s.threads[a.thread];
    match a
    case Call(t, op) => s.(threads := s.threads[t := op])
    case Load(t) => s.(threads := s.threads[t := WithSeen(pc, Some(s.entry))])
    case CompareAndSwap(t) =>
      if s.entry == SwapOf(pc).expected then State(SwapOf(pc).wanted, s.threads[t := Succeeded(pc)])
      else s.(threads := s.threads[t := WithSeen(pc, None)])
    case Spin(t) => if s.entry.lock == 1 then s.(threads := s.threads[t := Writing]) else s
    case Remap(_, m) => s.(entry := s.entry.(mapping := m))
  }

  // ---------- counting holders ----------

  /** Threads that hold the lock shared: from the swap that takes it to the one that gives it back. */
  predicate Reader(pc: Pc) { pc.Reading? || pc.SharedRelease? }

  /** Threads that own the lock or wait to. */
  predicate Writer(pc: Pc) { pc.UniqueWait? || pc.Writing? || pc.UniqueRelease? }

  function Readers(ts: seq<Pc>): (n: nat)
    ensures n <= |ts|
  {
    if ts == [] then 0 else (if Reader(ts[0]) then 1 else 0) + Readers(ts[1..])
  }

  function Writers(ts: seq<Pc>): (n: nat)
    ensures n <= |ts|
  {
    if ts == [] then 0 else (if Writer(ts[0]) then 1 else 0) + Writers(ts[1..])
  }

  lemma {:induction false} CountsAfter(ts: seq<Pc>, t: nat, pc: Pc)
    requires t < |ts|
    ensures Readers(ts[t := pc]) == Readers(ts) - (if Reader(ts[t]) then 1 else 0) + (if Reader(pc) then 1 else 0)
    ensures Writers(ts[t := pc]) == Writers(ts) - (if Writer(ts[t]) then 1 else 0) + (if Writer(pc) then 1 else 0)
    decreases |ts|
  {
    if t == 0 {
      assert ts[t := pc][1..] == ts[1..];
    } else {
      CountsAfter(ts[1..], t - 1, pc);
      assert ts[t := pc][1..] == ts[1..][t - 1 := pc];
    }
  }

  /** A thread outside both kinds leaves room for itself. */
  lemma {:induction false} CountsLeave(ts: seq<Pc>, t: nat)
    requires t < |ts|
    ensures Readers(ts) + Writers(ts) <= |ts|
    ensures Reader(ts[t]) ==> Readers(ts) >= 1
    ensures Writer(ts[t]) ==> Writers(ts) >= 1
    ensures !Reader(ts[t]) ==> Readers(ts) < |ts|
    ensures !Reader(ts[t]) && !Writer(ts[t]) ==> Readers(ts) + Writers(ts) < |ts|
    decreases |ts|
  {
    if |ts| > 1 {
      CountsLeave(ts[1..], if t == 0 then 0 else t - 1);
    }
  }

  lemma {:induction false} TwoWriters(ts: seq<Pc>, t: nat, u: nat)
    requires t < u < |ts| && Writer(ts[t]) && Writer(ts[u])
    ensures Writers(ts) >= 2
    decreases |ts|
  {
    if t == 0 {
      CountsLeave(ts[1..], u - 1);
    } else {
      TwoWriters(ts[1..], t - 1, u - 1);
    }
  }

  // ---------- the invariant ----------

  /** What a thread knows of the word while it holds the lock. */
  predicate SeenOk(pc: Pc) {
    match pc
    case SharedRelease(Some(e)) => e.lock == 2 || e.lock == 3
    case UniqueRelease(Some(e)) => e.lock == 1
    case _ => true
  }

  /**
    0: nobody; 1: one owner; 2: as many readers as the count says, modulo its
    width; 3: the same and one waiting writer.
   */
  ghost predicate Inv(s: State) {
    var r, w := Readers(s.threads), Writers(s.threads);
    && s.entry.count < COUNTS
    && (match s.entry.lock
        case 0 => r == 0 && w == 0 && s.entry.count == 0
        case 1 => r == 0 && w == 1 && s.entry.count == 0
        case 2 => r >= 1 && w == 0 && s.entry.count == r % COUNTS
        case 3 => r >= 1 && w == 1 && s.entry.count == r % COUNTS
        case _ => false)
    && (forall t :: 0 <= t < |s.threads| ==> SeenOk(s.threads[t]))
    && (s.entry.lock == 3 ==> forall t :: 0 <= t < |s.threads| && Writer(s.threads[t]) ==> s.threads[t].UniqueWait?)
  }

  lemma SwapKeepsInv(s: State, t: nat)
    requires Inv(s) && Enabled(s, CompareAndSwap(t)) && |s.threads| <= COUNTS
    requires s.entry == SwapOf(s.threads[t]).expected
    ensures Inv(Do(s, CompareAndSwap(t)))
  {
    hide Readers, Writers;
    var pc := s.threads[t];
    CountsLeave(s.threads, t);
    CountsAfter(s.threads, t, Succeeded(pc));
    match pc
    case SharedTry(Some(e)) =>
    case SharedRelease(Some(e)) =>
    case UniqueTry(Some(e)) =>
      if s.entry.lock == 2 { NoWriters(s.threads); }
    case UniqueRelease(Some(e)) =>
  }

  lemma {:induction false} NoWriters(ts: seq<Pc>)
    requires Writers(ts) == 0
    ensures forall t :: 0 <= t < |ts| ==> !Writer(ts[t])
  {
    forall t | 0 <= t < |ts| ensures !Writer(ts[t]) { CountsLeave(ts, t); }
  }

  lemma ActionKeepsInv(s: State, a: Action)
    requires Inv(s) && Enabled(s, a) && |s.threads| <= COUNTS
    ensures Inv(Do(s, a)) && |Do(s, a).threads| == |s.threads|
  {
    hide Readers, Writers;
    var t := a.thread;
    var pc := s.threads[t];
    CountsLeave(s.threads, t);
    match a
    case Call(_, op) => CountsAfter(s.threads, t, op);
    case Load(_) => CountsAfter(s.threads, t, WithSeen(pc, Some(s.entry)));
    case CompareAndSwap(_) =>
      if s.entry == SwapOf(pc).expected {
        SwapKeepsInv(s, t);
      } else {
        CountsAfter(s.threads, t, WithSeen(pc, None));
      }
    case Spin(_) => CountsAfter(s.threads, t, Writing);
    case Remap(_, _) =>
  }

  // ---------- runs ----------

  function Start(n: nat, mapping: nat): State { State(Entry(0, 0, mapping), seq(n, _ => Outside)) }

  ghost predicate Run(s: State, run: seq<Action>)
    decreases |run|
  {
    run == [] || (Enabled(s, run[0]) && Run(Do(s, run[0]), run[1..]))
  }

  ghost function After(s: State, run: seq<Action>): State
    requires Run(s, run)
    decreases |run|
  {
    if run == [] then s else After(Do(s, run[0]), run[1..])
  }

  lemma {:induction false} RunKeepsInv(s: State, run: seq<Action>)
    requires Inv(s) && |s.threads| <= COUNTS && Run(s, run)
    ensures Inv(After(s, run)) && |After(s, run).threads| == |s.threads|
    decreases |run|
  {
    hide Inv, Enabled, Do;
    if run != [] {
      ActionKeepsInv(s, run[0]);
      RunKeepsInv(Do(s, run[0]), run[1..]);
    }
  }

  lemma {:induction false} NobodyAtStart(n: nat)
    ensures var ts := seq<Pc>(n, _ => Outside); Readers(ts) == 0 && Writers(ts) == 0
    decreases n
  {
    if n > 0 {
      NobodyAtStart(n - 1);
      assert seq<Pc>(n, _ => Outside)[1..] == seq<Pc>(n - 1, _ => Outside);
    }
  }

  /** Never an owner beside another owner or a reader. */
  ghost predicate Exclusive(s: State) {
    forall t, u :: 0 <= t < |s.threads| && 0 <= u < |s.threads| && t != u && s.threads[t].Writing? ==>
      !s.threads[u].Writing? && !s.threads[u].Reading?
  }

  lemma InvExcludes(s: State)
    requires Inv(s)
    ensures Exclusive(s)
  {
    hide Readers, Writers;
    forall t, u | 0 <= t < |s.threads| && 0 <= u < |s.threads| && t != u && s.threads[t].Writing?
      ensures !s.threads[u].Writing? && !s.threads[u].Reading?
    {
      CountsLeave(s.threads, t);
      CountsLeave(s.threads, u);
      if s.threads[u].Writing? {
        TwoWriters(s.threads, if t < u then t else u, if t < u then u else t);
      }
    }
  }

  lemma SafeUpTo256(n: nat, mapping: nat, run: seq<Action>)
    requires n <= COUNTS && Run(Start(n, mapping), run)
    ensures Exclusive(After(Start(n, mapping), run))
  {
    hide Exclusive;
    NobodyAtStart(n);
    RunKeepsInv(Start(n, mapping), run);
    InvExcludes(After(Start(n, mapping), run));
  }

  // ---------- 257 threads are too many ----------

  function TakeShared(t: nat): seq<Action> { [Call(t, SharedTry(None)), Load(t), CompareAndSwap(t)] }

  /** Threads below `k` read, the others have not begun. */
  ghost predicate FirstRead(s: State, n: nat, k: nat) {
    && |s.threads| == n && k <= n
    && (forall t :: 0 <= t < k ==> s.threads[t] == Reading)
    && (forall t :: k <= t < n ==> s.threads[t] == Outside)
    && s.entry.count == k % COUNTS && s.entry.lock == if k == 0 then 0 else 2
  }

  lemma RunThree(s: State, a: Action, b: Action, c: Action)
    requires Enabled(s, a) && Enabled(Do(s, a), b) && Enabled(Do(Do(s, a), b), c)
    ensures Run(s, [a, b, c]) && After(s, [a, b, c]) == Do(Do(Do(s, a), b), c)
  {
    hide Enabled, Do;
    var s1, s2 := Do(s, a), Do(Do(s, a), b);
    assert Run(s2, [c]) && After(s2, [c]) == Do(s2, c) by { assert [c][1..] == []; }
    assert [b, c][1..] == [c];
    assert Run(s1, [b, c]) && After(s1, [b, c]) == Do(s2, c);
    assert [a, b, c][1..] == [b, c];
  }

  lemma {:induction false} RunConcat(s: State, a: seq<Action>, b: seq<Action>)
    requires Run(s, a) && Run(After(s, a), b)
    ensures Run(s, a + b) && After(s, a + b) == After(After(s, a), b)
    decreases |a|
  {
    hide Enabled, Do;
    if a == [] {
      assert a + b == b;
    } else {
      assert (a + b)[1..] == a[1..] + b;
      RunConcat(Do(s, a[0]), a[1..], b);
    }
  }

  lemma OneMoreReads(s: State, n: nat, k: nat)
    requires FirstRead(s, n, k) && k < n
    ensures Run(s, TakeShared(k)) && FirstRead(After(s, TakeShared(k)), n, k + 1)
  {
    RunThree(s, Call(k, SharedTry(None)), Load(k), CompareAndSwap(k));
  }

  lemma {:induction false} AllRead(n: nat, mapping: nat, k: nat) returns (run: seq<Action>)
    requires k <= n
    ensures Run(Start(n, mapping), run) && FirstRead(After(Start(n, mapping), run), n, k)
    decreases k
  {
    hide Run, After;
    if k == 0 {
      run := [];
      RunNothing(Start(n, mapping));
    } else {
      var before := AllRead(n, mapping, k - 1);
      var s := After(Start(n, mapping), before);
      OneMoreReads(s, n, k - 1);
      RunConcat(Start(n, mapping), before, TakeShared(k - 1));
      run := before + TakeShared(k - 1);
    }
  }

  lemma RunNothing(s: State)
    ensures Run(s, []) && After(s, []) == s
  {
  }

  /** With the count back at one, the first reader to leave frees the lock under the others. */
  lemma FreedTooEarly(s: State, n: nat)
    requires FirstRead(s, n, COUNTS + 1)
    ensures var r := [Call(0, SharedRelease(None)), Load(0), CompareAndSwap(0)];
            Run(s, r) && After(s, r).entry.lock == 0 && After(s, r).threads == s.threads[0 := Outside]
  {
    RunThree(s, Call(0, SharedRelease(None)), Load(0), CompareAndSwap(0));
  }

  lemma TakeUnique(s: State)
    requires |s.threads| > 1 && s.entry.lock == 0 && s.threads[0] == Outside && s.threads[1] == Reading
    ensures var r := [Call(0, UniqueTry(None)), Load(0), CompareAndSwap(0)] + [Spin(0)];
            Run(s, r) && !Exclusive(After(s, r))
  {
    var a := [Call(0, UniqueTry(None)), Load(0), CompareAndSwap(0)];
    RunThree(s, Call(0, UniqueTry(None)), Load(0), CompareAndSwap(0));
    var m := After(s, a);
    assert m.entry.lock == 1 && m.threads[0] == UniqueWait && m.threads[1] == Reading;
    assert Run(m, [Spin(0)]) && After(m, [Spin(0)]) == Do(m, Spin(0)) by { assert [Spin(0)][1..] == []; }
    RunConcat(s, a, [Spin(0)]);
    var r := Do(m, Spin(0));
    assert r.threads[0].Writing? && r.threads[1].Reading?;
  }

  lemma UnsafeFrom257(n: nat, mapping: nat) returns (run: seq<Action>)
    requires n > COUNTS
    ensures Run(Start(n, mapping), run) && !Exclusive(After(Start(n, mapping), run))
  {
    hide Run, After, Exclusive, Do, Enabled;
    var s := Start(n, mapping);
    var a := AllRead(n, mapping, COUNTS + 1);
    var s1 := After(s, a);
    var b := [Call(0, SharedRelease(None)), Load(0), CompareAndSwap(0)];
    FreedTooEarly(s1, n);
    RunConcat(s, a, b);
    var s2 := After(s1, b);
    var c := [Call(0, UniqueTry(None)), Load(0), CompareAndSwap(0)] + [Spin(0)];
    TakeUnique(s2);
    RunConcat(s, a + b, c);
    run := a + b + c;
  }

  /** The lock excludes in every run exactly when no more than 256 threads use it. */
  lemma ExclusiveUpTo256(n: nat, mapping: nat)
    ensures (forall run :: Run(Start(n, mapping), run) ==> Exclusive(After(Start(n, mapping), run))) <==> n <= COUNTS
  {
    hide Run, After, Exclusive;
    if n <= COUNTS {
      forall run | Run(Start(n, mapping), run) ensures Exclusive(After(Start(n, mapping), run)) {
        SafeUpTo256(n, mapping, run);
      }
    } else {
      var run := UnsafeFrom257(n, mapping);
    }
  }

  // ---------- writers are not overtaken, readers keep their mapping ----------

  /** While a writer waits no reader comes in, and the last one out hands over the lock. */
  lemma WaiterNotOvertaken(s: State, a: Action)
    requires Inv(s) && Enabled(s, a) && |s.threads| <= COUNTS && s.entry.lock == 3
    ensures var r := Do(s, a);
            && (forall t :: 0 <= t < |s.threads| && Reader(r.threads[t]) ==> Reader(s.threads[t]))
            && Readers(r.threads) <= Readers(s.threads)
            && r.entry.lock == (if Readers(r.threads) == 0 then 1 else 3)
            && r.entry.mapping == s.entry.mapping
  {
    hide Readers, Writers;
    var t := a.thread;
    CountsLeave(s.threads, t);
    CountsAfter(s.threads, t, Do(s, a).threads[t]);
    ActionKeepsInv(s, a);
    assert Do(s, a).threads == s.threads[t := Do(s, a).threads[t]];
  }

  /** As long as somebody reads, the mapping stays. */
  lemma {:induction false} MappingKept(s: State, run: seq<Action>, t: nat)
    requires Inv(s) && |s.threads| <= COUNTS && Run(s, run) && t < |s.threads|
    requires forall k :: 0 <= k <= |run| ==> Run(s, run[..k]) && t < |After(s, run[..k]).threads| && Reader(After(s, run[..k]).threads[t])
    ensures After(s, run).entry.mapping == s.entry.mapping
    decreases |run|
  {
    hide Inv, Enabled, Do;
    if run != [] {
      var r := Do(s, run[0]);
      assert Reader(s.threads[t]) by { assert run[..0] == []; }
      ReaderBlocksRemap(s, run[0], t);
      ActionKeepsInv(s, run[0]);
      forall k | 0 <= k <= |run[1..]|
        ensures Run(r, run[1..][..k]) && t < |After(r, run[1..][..k]).threads| && Reader(After(r, run[1..][..k]).threads[t])
      {
        assert run[..k + 1][1..] == run[1..][..k] && run[..k + 1][0] == run[0];
        assert Run(s, run[..k + 1]);
      }
      MappingKept(r, run[1..], t);
    }
  }

  lemma ReaderBlocksRemap(s: State, a: Action, t: nat)
    requires Inv(s) && Enabled(s, a) && t < |s.threads| && Reader(s.threads[t])
    ensures Do(s, a).entry.mapping == s.entry.mapping
  {
    hide Readers, Writers;
    CountsLeave(s.threads, t);
    CountsLeave(s.threads, a.thread);
  }

  // ---------- locks are taken, and nobody is locked out for good ----------

  /** On the word just loaded a release always succeeds, and a lock exactly when the word is free or held by readers alone. */
  lemma SwapSucceedsIff(s: State, t: nat)
    requires Inv(s) && Enabled(s, CompareAndSwap(t)) && s.threads[t].seen == Some(s.entry)
    ensures var pc := s.threads[t];
            s.entry == SwapOf(pc).expected <==> pc.SharedRelease? || pc.UniqueRelease? || s.entry.lock == 0 || s.entry.lock == 2
  {
    hide Readers, Writers;
    assert SeenOk(s.threads[t]);
  }

  /** A writer that finds readers leaves the word 3, with their count, and waits. */
  lemma WriterRegisters(s: State, t: nat)
    requires Inv(s) && Enabled(s, CompareAndSwap(t)) && s.threads[t] == UniqueTry(Some(s.entry)) && s.entry.lock == 2
    ensures var r := Do(s, CompareAndSwap(t));
            && r.entry.lock == 3 && r.entry.count == s.entry.count && r.entry.mapping == s.entry.mapping
            && r.threads == s.threads[t := UniqueWait]
  {
    hide Inv;
  }

  lemma RunOne(s: State, a: Action)
    requires Enabled(s, a)
    ensures Run(s, [a]) && After(s, [a]) == Do(s, a)
  {
    hide Enabled, Do;
    assert [a][1..] == [];
  }

  lemma RunTwo(s: State, a: Action, b: Action)
    requires Enabled(s, a) && Enabled(Do(s, a), b)
    ensures Run(s, [a, b]) && After(s, [a, b]) == Do(Do(s, a), b)
  {
    hide Enabled, Do;
    RunOne(Do(s, a), b);
    assert [a, b][1..] == [b];
  }

  /** A thread that holds the lock gets to the word as it is now; nothing else changes on the way. */
  lemma ReadyToRelease(s: State, u: nat) returns (run: seq<Action>)
    requires Inv(s) && u < |s.threads| && s.threads[u] != UniqueWait
    requires Reader(s.threads[u]) || Writer(s.threads[u])
    ensures Run(s, run)
    ensures var pc := if Reader(s.threads[u]) then SharedRelease(Some(s.entry)) else UniqueRelease(Some(s.entry));
            After(s, run) == s.(threads := s.threads[u := pc])
  {
    hide Readers, Writers, Run, After;
    assert SeenOk(s.threads[u]);
    match s.threads[u]
    case Reading => run := [Call(u, SharedRelease(None)), Load(u)]; RunTwo(s, Call(u, SharedRelease(None)), Load(u));
    case Writing => run := [Call(u, UniqueRelease(None)), Load(u)]; RunTwo(s, Call(u, UniqueRelease(None)), Load(u));
    case SharedRelease(None) => run := [Load(u)]; RunOne(s, Load(u));
    case UniqueRelease(None) => run := [Load(u)]; RunOne(s, Load(u));
    case SharedRelease(Some(e)) => run := Reload(s, u);
    case UniqueRelease(Some(e)) => run := Reload(s, u);
  }

  /** A word loaded earlier is the word still, or the compare and swap fails and it is loaded again. */
  lemma Reload(s: State, u: nat) returns (run: seq<Action>)
    requires Enabled(s, CompareAndSwap(u)) && (s.threads[u].SharedRelease? || s.threads[u].UniqueRelease?) && SeenOk(s.threads[u])
    ensures Run(s, run) && After(s, run) == s.(threads := s.threads[u := WithSeen(s.threads[u], Some(s.entry))])
  {
    hide Run, After;
    if s.threads[u].seen == Some(s.entry) {
      run := [];
      RunNothing(s);
    } else {
      run := [CompareAndSwap(u), Load(u)];
      RunTwo(s, CompareAndSwap(u), Load(u));
    }
  }

  lemma {:induction false} SomeReader(ts: seq<Pc>) returns (u: nat)
    requires Readers(ts) > 0
    ensures u < |ts| && Reader(ts[u])
    decreases |ts|
  {
    if Reader(ts[0]) {
      u := 0;
    } else {
      var v := SomeReader(ts[1..]);
      u := v + 1;
    }
  }

  lemma {:induction false} SomeWriter(ts: seq<Pc>) returns (u: nat)
    requires Writers(ts) > 0
    ensures u < |ts| && Writer(ts[u])
    decreases |ts|
  {
    if Writer(ts[0]) {
      u := 0;
    } else {
      var v := SomeWriter(ts[1..]);
      u := v + 1;
    }
  }

  /** With a writer waiting, one of the readers leaves; the last one hands the lock over. */
  lemma ReaderLeaves(s: State, u: nat) returns (run: seq<Action>)
    requires Inv(s) && |s.threads| <= COUNTS && s.entry.lock == 3 && u < |s.threads| && Reader(s.threads[u])
    ensures Run(s, run) && Inv(After(s, run)) && After(s, run).threads == s.threads[u := Outside]
    ensures Readers(After(s, run).threads) == Readers(s.threads) - 1
    ensures After(s, run).entry.lock == if Readers(s.threads) == 1 then 1 else 3
  {
    hide Readers, Writers, Run, After;
    var ready := ReadyToRelease(s, u);
    var m := After(s, ready);
    RunKeepsInv(s, ready);
    CountsAfter(s.threads, u, SharedRelease(Some(s.entry)));
    SwapSucceedsIff(m, u);
    ActionKeepsInv(m, CompareAndSwap(u));
    RunOne(m, CompareAndSwap(u));
    RunConcat(s, ready, [CompareAndSwap(u)]);
    run := ready + [CompareAndSwap(u)];
    CountsLeave(s.threads, u);
    CountsAfter(m.threads, u, Outside);
    assert m.threads[u := Outside] == s.threads[u := Outside];
  }

  /** From there the readers leave, and the writer writes; no other thread has moved. */
  lemma {:induction false} WaiterGetsIn(s: State, t: nat) returns (run: seq<Action>)
    requires Inv(s) && |s.threads| <= COUNTS && t < |s.threads| && s.entry.lock == 3 && s.threads[t] == UniqueWait
    ensures Run(s, run) && Inv(After(s, run)) && |After(s, run).threads| == |s.threads|
    ensures After(s, run).threads[t] == Writing && After(s, run).entry.lock == 1
    ensures forall u :: 0 <= u < |s.threads| && u != t ==>
              After(s, run).threads[u] == if Reader(s.threads[u]) then Outside else s.threads[u]
    decreases Readers(s.threads)
  {
    hide Readers, Writers, Run, After;
    var u := SomeReader(s.threads);
    var leave := ReaderLeaves(s, u);
    var m := After(s, leave);
    if m.entry.lock == 1 {
      ActionKeepsInv(m, Spin(t));
      RunOne(m, Spin(t));
      RunConcat(s, leave, [Spin(t)]);
      run := leave + [Spin(t)];
      NoReaders(m.threads);
    } else {
      var rest := WaiterGetsIn(m, t);
      RunConcat(s, leave, rest);
      run := leave + rest;
    }
  }

  lemma NoReaders(ts: seq<Pc>)
    requires Readers(ts) == 0
    ensures forall t :: 0 <= t < |ts| ==> !Reader(ts[t])
  {
    forall t | 0 <= t < |ts| ensures !Reader(ts[t]) { CountsLeave(ts, t); }
  }

  /** The owner gives the lock back. */
  lemma OwnerLeaves(s: State) returns (run: seq<Action>, u: nat)
    requires Inv(s) && |s.threads| <= COUNTS && s.entry.lock == 1
    ensures u < |s.threads| && Writer(s.threads[u])
    ensures Run(s, run) && Inv(After(s, run)) && After(s, run).entry.lock == 0 && After(s, run).threads == s.threads[u := Outside]
  {
    hide Readers, Writers, Run, After;
    u := SomeWriter(s.threads);
    var first := [];
    RunNothing(s);
    if s.threads[u] == UniqueWait {
      first := [Spin(u)];
      RunOne(s, Spin(u));
    }
    RunKeepsInv(s, first);
    var m := After(s, first);
    var ready := ReadyToRelease(m, u);
    var k := After(m, ready);
    RunKeepsInv(m, ready);
    SwapSucceedsIff(k, u);
    ActionKeepsInv(k, CompareAndSwap(u));
    RunOne(k, CompareAndSwap(u));
    RunConcat(m, ready, [CompareAndSwap(u)]);
    RunConcat(s, first, ready + [CompareAndSwap(u)]);
    run := first + (ready + [CompareAndSwap(u)]);
    assert Do(k, CompareAndSwap(u)).threads == s.threads[u := Outside];
  }

  /** A thread takes the lock for itself when nobody else, or only readers, have it. */
  lemma TakesUnique(s: State, t: nat) returns (run: seq<Action>)
    requires Inv(s) && |s.threads| <= COUNTS && t < |s.threads| && s.threads[t] == Outside && (s.entry.lock == 0 || s.entry.lock == 2)
    ensures Run(s, run) && Inv(After(s, run)) && |After(s, run).threads| == |s.threads| && After(s, run).threads[t] == Writing
  {
    hide Readers, Writers, Run, After;
    RunThree(s, Call(t, UniqueTry(None)), Load(t), CompareAndSwap(t));
    var a := [Call(t, UniqueTry(None)), Load(t), CompareAndSwap(t)];
    RunKeepsInv(s, a);
    var m := After(s, a);
    var b;
    if s.entry.lock == 0 {
      b := [Spin(t)];
      RunOne(m, Spin(t));
      RunKeepsInv(m, b);
    } else {
      b := WaiterGetsIn(m, t);
    }
    RunConcat(s, a, b);
    run := a + b;
  }

  /** The lock is never stuck: from every state there is a run in which a thread outside comes to write. */
  lemma EveryWriterGetsIn(s: State, t: nat) returns (run: seq<Action>)
    requires Inv(s) && |s.threads| <= COUNTS && t < |s.threads| && s.threads[t] == Outside
    ensures Run(s, run) && Inv(After(s, run)) && |After(s, run).threads| == |s.threads| && After(s, run).threads[t] == Writing
  {
    hide Readers, Writers, Run, After;
    var first, m := [], s;
    RunNothing(s);
    if s.entry.lock == 3 {
      var w := SomeWriter(s.threads);
      first := WaiterGetsIn(s, w);
      m := After(s, first);
    }
    if m.entry.lock == 1 {
      var leave, _ := OwnerLeaves(m);
      RunConcat(s, first, leave);
      first, m := first + leave, After(m, leave);
    }
    var take := TakesUnique(m, t);
    RunConcat(s, first, take);
    run := first + take;
  }
}
