/**
  The append-only log of an inode: entries in a chained stream.

  An entry is an eight-byte head (kind and size), the data padded to a multiple
  of eight, and a zero foot where the next head will go.  The head is stored
  last, so it commits the entry.
 */
module LogLayout {
  import opened Wrappers
  import opened Nvm
  import opened ChainedSpace
  import opened ContinousSpace
  import opened PageSource

  datatype Entry = Entry(kind: byte, data: seq<byte>)

  /** Log entries the eight-byte head can express and a reader can see. */
  predicate Loggable(e: Entry) {
    |e.data| < 0x1_0000_0000 && (e.kind != 0 || e.data != [])
  }

  function Head(e: Entry): (h: seq<byte>)
    ensures |h| == WORD
  {
    [e.kind, 0, 0, 0] + ToLE(|e.data|, 4)
  }

  function EntrySize(e: Entry): (n: nat)
    ensures WORD + |e.data| <= n < 2 * WORD + |e.data| && n % WORD == 0
  {
    WORD + AlignUp(|e.data|, 8)
  }

  /** Stream position behind the entries `es` that start at `o`: the place of the next head. */
  function EndOf(o: nat, es: seq<Entry>): (w: nat)
    ensures o <= w
    decreases |es|
  {
    if es == [] then o else EndOf(o + EntrySize(es[0]), es[1..])
  }

  ghost predicate FootAt(s: seq<byte>, o: nat) {
    o + WORD <= |s| && s[o..o + WORD] == ZERO_WORD
  }

  ghost predicate BodyAt(s: seq<byte>, o: nat, data: seq<byte>) {
    o + |data| <= |s| && s[o..o + |data|] == data
  }

  ghost predicate EntryAt(s: seq<byte>, o: nat, e: Entry) {
    Loggable(e) && BodyAt(s, o, Head(e)) && BodyAt(s, o + WORD, e.data)
  }

  /** The stream `s` holds exactly the entries `es` from position `o`, then a zero foot. */
  ghost predicate LogAt(s: seq<byte>, o: nat, es: seq<Entry>)
    decreases |es|
  {
    if es == [] then FootAt(s, o)
    else EntryAt(s, o, es[0]) && LogAt(s, o + EntrySize(es[0]), es[1..])
  }

  ghost predicate AgreeBelow(s: seq<byte>, t: seq<byte>, n: nat) {
    n <= |s| && n <= |t| && forall i :: 0 <= i < n ==> t[i] == s[i]
  }

  lemma AgreeBody(s: seq<byte>, t: seq<byte>, n: nat, o: nat, data: seq<byte>)
    requires AgreeBelow(s, t, n) && BodyAt(s, o, data) && o + |data| <= n
    ensures BodyAt(t, o, data)
  {
    assert t[o..o + |data|] == s[o..o + |data|];
  }

  lemma HeadDecodes(e: Entry)
    requires Loggable(e)
    ensures Head(e)[0] == e.kind && FromLE(Head(e)[4..8]) == |e.data| && Head(e) != ZERO_WORD
  {
    hide FromLE, ToLE, Pow256;
    Pow256Word();
    LERoundTrip(|e.data|, 4);
    assert Head(e)[4..8] == ToLE(|e.data|, 4);
    assert ZERO_WORD[4..8] == [0, 0, 0, 0];
    ZeroLE();
  }

  lemma ZeroLE()
    ensures FromLE([0, 0, 0, 0]) == 0
  {
    assert FromLE([0]) == 0;
    assert [0, 0][1..] == [0] && [0, 0, 0][1..] == [0, 0] && [0, 0, 0, 0][1..] == [0, 0, 0];
  }

  lemma {:induction false} LogAtEnd(s: seq<byte>, o: nat, es: seq<Entry>)
    requires LogAt(s, o, es)
    ensures FootAt(s, EndOf(o, es))
    ensures o % WORD == 0 ==> EndOf(o, es) % WORD == 0
    decreases |es|
  {
    hide EntrySize, EntryAt, FootAt;
    if es != [] {
      var n := EntrySize(es[0]);
      LogAtEnd(s, o + n, es[1..]);
      if o % WORD == 0 { WordsAdd(o, n); }
    }
  }

  lemma WordsAdd(a: nat, b: nat)
    requires a % WORD == 0 && b % WORD == 0
    ensures (a + b) % WORD == 0
  {
    IsMultiple(a + b, a / WORD + b / WORD);
  }

  lemma IsMultiple(x: nat, n: nat)
    requires x == WORD * n
    ensures x % WORD == 0
  {
  }

  /** An aligned stream position leaves room for a word in its page. */
  lemma RoomForWord(w: nat)
    requires w % WORD == 0
    ensures BODY_SIZE - w % BODY_SIZE >= WORD
  {
    var a, q := w / WORD, w / BODY_SIZE;
    assert w == WORD * a && w % BODY_SIZE == w - BODY_SIZE * q;
    assert BODY_SIZE - w % BODY_SIZE == WORD * (511 - a + 511 * q);
  }

  /** A log depends only on its own bytes, up to and including the foot. */
  lemma {:induction false} LogAtAgree(s: seq<byte>, t: seq<byte>, o: nat, es: seq<Entry>)
    requires LogAt(s, o, es) && AgreeBelow(s, t, EndOf(o, es) + WORD)
    ensures LogAt(t, o, es)
    decreases |es|
  {
    hide EntrySize, Head;
    var n := EndOf(o, es) + WORD;
    if es == [] {
      AgreeBody(s, t, n, o, ZERO_WORD);
    } else {
      var next := o + EntrySize(es[0]);
      assert next <= EndOf(next, es[1..]);
      AgreeBody(s, t, n, o, Head(es[0]));
      AgreeBody(s, t, n, o + WORD, es[0].data);
      LogAtAgree(s, t, next, es[1..]);
    }
  }

  /** A head over a complete body and foot makes the log one entry longer. */
  lemma {:induction false} LogAtAppend(s: seq<byte>, t: seq<byte>, o: nat, es: seq<Entry>, e: Entry)
    requires LogAt(s, o, es) && AgreeBelow(s, t, EndOf(o, es))
    requires EntryAt(t, EndOf(o, es), e) && FootAt(t, EndOf(o, es) + EntrySize(e))
    ensures LogAt(t, o, es + [e])
    ensures EndOf(o, es + [e]) == EndOf(o, es) + EntrySize(e)
    decreases |es|
  {
    hide EntrySize, FootAt, BodyAt, AgreeBelow, Head;
    if es == [] {
      assert es + [e] == [e] && [e][1..] == [];
    } else {
      var f := es[0];
      var next := o + EntrySize(f);
      assert (es + [e])[1..] == es[1..] + [e] && (es + [e])[0] == f;
      assert next <= EndOf(next, es[1..]);
      AgreeBody(s, t, EndOf(o, es), o, Head(f));
      AgreeBody(s, t, EndOf(o, es), o + WORD, f.data);
      LogAtAppend(s, t, next, es[1..], e);
    }
  }

  /** The bytes determine the entries. */
  lemma {:induction false} LogAtUnique(s: seq<byte>, o: nat, es: seq<Entry>, fs: seq<Entry>)
    requires LogAt(s, o, es) && LogAt(s, o, fs)
    ensures es == fs
    decreases |es|
  {
    hide EntrySize, Head, ToLE, FromLE;
    if es != [] {
      HeadDecodes(es[0]);
    }
    if fs != [] {
      HeadDecodes(fs[0]);
    }
    if es != [] && fs != [] {
      assert es[0] == fs[0];
      LogAtUnique(s, o + EntrySize(es[0]), es[1..], fs[1..]);
      assert es == [es[0]] + es[1..] && fs == [fs[0]] + fs[1..];
    }
  }

  // ---------- a log on the medium, and crashes while it grows ----------

  /** What LogForEachEntry finds when it starts at stream position `start`. */
  ghost predicate OnMedium(mem: seq<byte>, chain: seq<nat>, start: nat, es: seq<Entry>) {
    Linked(mem, chain) && LogAt(Stream(mem, chain), start, es)
  }

  /** New pages and the position `w` leave room for the entry and its foot. */
  ghost predicate Room(mem: seq<byte>, chain: seq<nat>, pages: seq<nat>, w: nat, e: Entry) {
    && chain != [] && Chain(|mem|, chain + pages)
    && w % WORD == 0 && w < Capacity(chain)
    && w + EntrySize(e) + WORD <= Capacity(chain + pages)
  }

  /** Stores that change nothing but the bytes of the new body and foot. */
  ghost predicate InNewEntry(size: nat, chain: seq<nat>, w: nat, e: Entry, body: seq<Store>)
    requires w + EntrySize(e) + WORD <= Capacity(chain)
  {
    InBounds(size, body) && Within(body, Region(chain, w + WORD, EntrySize(e)))
  }

  /** Body and foot of the new entry have reached the stream. */
  ghost predicate BodyComplete(s: seq<byte>, w: nat, e: Entry) {
    BodyAt(s, w + WORD, e.data) && FootAt(s, w + EntrySize(e))
  }

  /** The commit word is one indivisible store. */
  lemma HeadIsOneStore(size: nat, chain: seq<nat>, w: nat, h: seq<byte>)
    requires Chain(size, chain) && w % WORD == 0 && |h| == WORD && w + WORD <= Capacity(chain)
    ensures StreamStores(chain, w, h) == [Store(Locate(chain, w), h)]
  {
    hide Locate;
    LocateAligned(size, chain, w);
    RoomForWord(w);
    assert h[..WORD] == h && h[WORD..] == [];
  }

  lemma MultipleOfWord(page: nat, w: nat, q: nat)
    requires page % PAGE_SIZE == 0 && w % WORD == 0 && q == w / BODY_SIZE
    ensures (page + LINK_SIZE + w % BODY_SIZE) % WORD == 0
  {
    var p, a := page / PAGE_SIZE, w / WORD;
    assert page == PAGE_SIZE * p && w == WORD * a && w % BODY_SIZE == w - BODY_SIZE * q;
    IsMultiple(page + LINK_SIZE + w % BODY_SIZE, 512 * p + 1 + a - 511 * q);
  }

  lemma LocateAligned(size: nat, chain: seq<nat>, w: nat)
    requires Chain(size, chain) && w % WORD == 0 && w < Capacity(chain)
    ensures Locate(chain, w) % WORD == 0
  {
    var q := w / BODY_SIZE;
    assert chain[q] % PAGE_SIZE == 0;
    MultipleOfWord(chain[q], w, q);
  }

  /** Stores behind the old foot leave the old log as it was, however many of them arrive. */
  lemma OldLogSurvives(mem: seq<byte>, chain: seq<nat>, start: nat, es: seq<Entry>, stores: seq<Store>, n: nat)
    requires OnMedium(mem, chain, start, es)
    requires EndOf(start, es) + WORD + n <= Capacity(chain)
    requires InBounds(|mem|, stores) && Within(stores, Region(chain, EndOf(start, es) + WORD, n))
    ensures OnMedium(Apply(mem, stores), chain, start, es)
  {
    hide Locate, Within, InBounds, Region, Stream;
    var w := EndOf(start, es);
    var after := Apply(mem, stores);
    WithinKeeps(mem, stores, Region(chain, w + WORD, n));
    RegionKeepsLinks(mem, after, chain, w + WORD, n);
    RegionFrame(mem, after, chain, w + WORD, n);
    LogAtAgree(Stream(mem, chain), Stream(after, chain), start, es);
  }

  /** A log in a chain is a log in the chain extended by linked pages, and back. */
  lemma LogInLongerChain(mem: seq<byte>, chain: seq<nat>, pages: seq<nat>, start: nat, es: seq<Entry>)
    requires Linked(mem, chain + pages) && Chain(|mem|, chain)
    requires EndOf(start, es) + WORD <= Capacity(chain)
    ensures OnMedium(mem, chain + pages, start, es) <==> OnMedium(mem, chain, start, es)
  {
    hide Locate, Stream;
    ChainPrefix(mem, chain, pages);
    if LogAt(Stream(mem, chain), start, es) {
      LogAtAgree(Stream(mem, chain), Stream(mem, chain + pages), start, es);
    }
    if LogAt(Stream(mem, chain + pages), start, es) {
      LogAtAgree(Stream(mem, chain + pages), Stream(mem, chain), start, es);
    }
  }

  /** All stores of one append: link the new pages, body and foot in some order, then the head. */
  ghost function AppendStores(chain: seq<nat>, pages: seq<nat>, w: nat, e: Entry, body: seq<Store>): seq<Store>
    requires chain != [] && w < Capacity(chain + pages)
  {
    LinkStores(chain[|chain| - 1], pages) + body + [Store(Locate(chain + pages, w), Head(e))]
  }

  /** The memory once the new pages are linked: same log, longer chain. */
  lemma AfterLinks(mem: seq<byte>, chain: seq<nat>, pages: seq<nat>, start: nat, es: seq<Entry>)
    requires OnMedium(mem, chain, start, es) && chain != [] && Chain(|mem|, chain + pages)
    ensures InBounds(|mem|, LinkStores(chain[|chain| - 1], pages))
    ensures var m := Apply(mem, LinkStores(chain[|chain| - 1], pages));
            OnMedium(m, chain + pages, start, es) && OnMedium(m, chain, start, es)
  {
    hide Locate, Stream, PageLink, InBounds;
    LinkStoresEffect(mem, chain, pages);
    var m := Apply(mem, LinkStores(chain[|chain| - 1], pages));
    ChainPrefix(m, chain, pages);
    LogAtEnd(Stream(mem, chain), start, es);
    LogInLongerChain(m, chain, pages, start, es);
  }

  /** A crash before the head reaches the medium: the log is exactly the old one. */
  lemma CrashBeforeHead(mem: seq<byte>, chain: seq<nat>, pages: seq<nat>, start: nat, es: seq<Entry>, e: Entry,
                        body: seq<Store>, k: nat)
    requires OnMedium(mem, chain, start, es) && Room(mem, chain, pages, EndOf(start, es), e)
    requires InNewEntry(|mem|, chain + pages, EndOf(start, es), e, body)
    requires k <= |pages| + |body|
    ensures var stores := (LinkStores(chain[|chain| - 1], pages) + body)[..k];
            && InBounds(|mem|, stores)
            && OnMedium(Apply(mem, stores), chain, start, es)
            && (k >= |pages| ==> OnMedium(Apply(mem, stores), chain + pages, start, es))
  {
    hide Locate, Stream, OnMedium, InNewEntry, Apply, LinkStores, InBounds, Chain;
    var last := chain[|chain| - 1];
    if k < |pages| {
      assert (LinkStores(last, pages) + body)[..k] == LinkStores(last, pages)[..k];
      CrashInLinks(mem, chain, pages, start, es, k);
    } else {
      assert (LinkStores(last, pages) + body)[..k] == LinkStores(last, pages) + body[..k - |pages|];
      CrashInBody(mem, chain, pages, start, es, e, body, k - |pages|);
    }
  }

  lemma CrashInLinks(mem: seq<byte>, chain: seq<nat>, pages: seq<nat>, start: nat, es: seq<Entry>, k: nat)
    requires OnMedium(mem, chain, start, es) && chain != [] && Chain(|mem|, chain + pages) && k <= |pages|
    ensures var stores := LinkStores(chain[|chain| - 1], pages)[..k];
            InBounds(|mem|, stores) && OnMedium(Apply(mem, stores), chain, start, es)
  {
    hide Locate, Stream, OnMedium, Apply, LinkStores;
    LinkStoresPrefix(chain[|chain| - 1], pages, k);
    assert chain + pages[..k] + pages[k..] == chain + pages;
    ChainPrefix(mem, chain + pages[..k], pages[k..]);
    AfterLinks(mem, chain, pages[..k], start, es);
  }

  lemma CrashInBody(mem: seq<byte>, chain: seq<nat>, pages: seq<nat>, start: nat, es: seq<Entry>, e: Entry,
                    body: seq<Store>, j: nat)
    requires OnMedium(mem, chain, start, es) && Room(mem, chain, pages, EndOf(start, es), e) && j <= |body|
    requires InNewEntry(|mem|, chain + pages, EndOf(start, es), e, body)
    ensures var stores := LinkStores(chain[|chain| - 1], pages) + body[..j];
            && InBounds(|mem|, stores)
            && OnMedium(Apply(mem, stores), chain, start, es) && OnMedium(Apply(mem, stores), chain + pages, start, es)
  {
    hide Locate, Stream, OnMedium, Apply, LinkStores, Region;
    AfterLinks(mem, chain, pages, start, es);
    var m := Apply(mem, LinkStores(chain[|chain| - 1], pages));
    LogEndFits(mem, chain, start, es);
    OldLogSurvives(m, chain + pages, start, es, body[..j], EntrySize(e));
    ApplyConcat(mem, LinkStores(chain[|chain| - 1], pages), body[..j]);
    LogEndFits(Apply(m, body[..j]), chain + pages, start, es);
    ChainPrefix(mem, chain, pages);
    LogInLongerChain(Apply(m, body[..j]), chain, pages, start, es);
  }

  lemma LogEndFits(mem: seq<byte>, chain: seq<nat>, start: nat, es: seq<Entry>)
    requires OnMedium(mem, chain, start, es)
    ensures Linked(mem, chain) && EndOf(start, es) + WORD <= Capacity(chain)
  {
    hide Locate;
    LogAtEnd(Stream(mem, chain), start, es);
  }

  /** The head over a complete body and foot: the log is the old one and the whole new entry. */
  lemma HeadCommits(m: seq<byte>, chain: seq<nat>, start: nat, es: seq<Entry>, e: Entry)
    requires OnMedium(m, chain, start, es) && Loggable(e)
    requires EndOf(start, es) % WORD == 0 && EndOf(start, es) + EntrySize(e) + WORD <= Capacity(chain)
    requires BodyComplete(Stream(m, chain), EndOf(start, es), e)
    ensures var st := Store(Locate(chain, EndOf(start, es)), Head(e));
            st.addr + WORD <= |m| && OnMedium(Splice(m, st.addr, st.data), chain, start, es + [e])
  {
    hide Locate, Stream, Head, EntrySize, Apply;
    var w := EndOf(start, es);
    var s := Stream(m, chain);
    HeadIsOneStore(|m|, chain, w, Head(e));
    StreamStoresEffect(m, chain, w, Head(e));
    assert [Store(Locate(chain, w), Head(e))][0] == Store(Locate(chain, w), Head(e));
    ApplySingle(m, Store(Locate(chain, w), Head(e)));
    var t := Splice(s, w, Head(e));
    assert BodyAt(t, w, Head(e));
    assert t[w + WORD..w + WORD + |e.data|] == s[w + WORD..w + WORD + |e.data|];
    assert t[w + EntrySize(e)..w + EntrySize(e) + WORD] == s[w + EntrySize(e)..w + EntrySize(e) + WORD];
    LogAtAppend(s, t, start, es, e);
  }

  /**
    Append atomicity.  Whatever the order of the body stores, a crash after any
    number of stores leaves exactly the old log, or, once the head is stored,
    the old log followed by the whole new entry.
   */
  lemma AppendAtomic(mem: seq<byte>, chain: seq<nat>, pages: seq<nat>, start: nat, es: seq<Entry>, e: Entry,
                     body: seq<Store>, k: nat)
    requires OnMedium(mem, chain, start, es) && Room(mem, chain, pages, EndOf(start, es), e) && Loggable(e)
    requires InNewEntry(|mem|, chain + pages, EndOf(start, es), e, body)
    requires var done := LinkStores(chain[|chain| - 1], pages) + body;
             InBounds(|mem|, done) && BodyComplete(Stream(Apply(mem, done), chain + pages), EndOf(start, es), e)
    requires k <= |AppendStores(chain, pages, EndOf(start, es), e, body)|
    ensures var stores := AppendStores(chain, pages, EndOf(start, es), e, body);
            && InBounds(|mem|, stores[..k])
            && (k < |stores| ==> OnMedium(Apply(mem, stores[..k]), chain, start, es))
            && (k == |stores| ==> OnMedium(Apply(mem, stores[..k]), chain + pages, start, es + [e]))
  {
    hide Locate, Stream, Linked, LogAt, Region, Apply, InBounds, Within, BodyComplete, Splice;
    var w := EndOf(start, es);
    var done := LinkStores(chain[|chain| - 1], pages) + body;
    var stores := AppendStores(chain, pages, w, e, body);
    if k < |stores| {
      assert stores[..k] == done[..k];
      CrashBeforeHead(mem, chain, pages, start, es, e, body, k);
    } else {
      CrashBeforeHead(mem, chain, pages, start, es, e, body, |done|);
      assert done[..|done|] == done;
      var m := Apply(mem, done);
      var head := Store(Locate(chain + pages, w), Head(e));
      HeadCommits(m, chain + pages, start, es, e);
      ApplySingle(m, head);
      InBoundsConcat(|mem|, done, [head]);
      ApplyConcat(mem, done, [head]);
      assert stores[..k] == done + [head];
    }
  }

  // ---------- the two ways the code stores a body ----------

  /** LogWrite: the data, then the foot. */
  ghost function LogWriteBody(chain: seq<nat>, w: nat, e: Entry): seq<Store>
    requires w + EntrySize(e) + WORD <= Capacity(chain)
  {
    StreamStores(chain, w + WORD, e.data) + StreamStores(chain, w + EntrySize(e), ZERO_WORD)
  }

  function Flatten(pieces: seq<seq<byte>>): seq<byte> {
    if pieces == [] then [] else pieces[0] + Flatten(pieces[1..])
  }

  ghost function PieceStores(chain: seq<nat>, o: nat, pieces: seq<seq<byte>>): seq<Store>
    requires o + |Flatten(pieces)| <= Capacity(chain)
    decreases |pieces|
  {
    if pieces == [] then []
    else StreamStores(chain, o, pieces[0]) + PieceStores(chain, o + |pieces[0]|, pieces[1..])
  }

  /** LogStepWriteBegin/Continue: the foot, then the data piece by piece. */
  ghost function StepWriteBody(chain: seq<nat>, w: nat, e: Entry, pieces: seq<seq<byte>>): seq<Store>
    requires w + EntrySize(e) + WORD <= Capacity(chain) && Flatten(pieces) == e.data
  {
    StreamStores(chain, w + EntrySize(e), ZERO_WORD) + PieceStores(chain, w + WORD, pieces)
  }

  lemma SubRegion(chain: seq<nat>, o: nat, n: nat, p: nat, m: nat)
    requires o <= p && p + m <= o + n <= Capacity(chain)
    ensures Region(chain, p, m) <= Region(chain, o, n)
  {
    hide Locate;
  }

  lemma LogWriteBodyOk(mem: seq<byte>, chain: seq<nat>, w: nat, e: Entry)
    requires Linked(mem, chain) && w + EntrySize(e) + WORD <= Capacity(chain)
    ensures InNewEntry(|mem|, chain, w, e, LogWriteBody(chain, w, e))
    ensures BodyComplete(Stream(Apply(mem, LogWriteBody(chain, w, e)), chain), w, e)
    ensures Linked(Apply(mem, LogWriteBody(chain, w, e)), chain)
  {
    hide Locate, Stream, Apply, InBounds, Within, Region, StreamStores, EntrySize, Splice, Linked, Chain, BodyComplete;
    LinkedIsChain(mem, chain);
    var data := StreamStores(chain, w + WORD, e.data);
    var foot := StreamStores(chain, w + EntrySize(e), ZERO_WORD);
    var all := Region(chain, w + WORD, EntrySize(e));
    StreamStoresWithin(|mem|, chain, w + WORD, e.data);
    StreamStoresWithin(|mem|, chain, w + EntrySize(e), ZERO_WORD);
    SubRegion(chain, w + WORD, EntrySize(e), w + WORD, |e.data|);
    SubRegion(chain, w + WORD, EntrySize(e), w + EntrySize(e), WORD);
    WithinConcat(data, foot, Region(chain, w + WORD, |e.data|), Region(chain, w + EntrySize(e), WORD), all);
    InBoundsConcat(|mem|, data, foot);
    StreamStoresEffect(mem, chain, w + WORD, e.data);
    var m := Apply(mem, data);
    StreamStoresEffect(m, chain, w + EntrySize(e), ZERO_WORD);
    ApplyConcat(mem, data, foot);
    BodyThenFoot(Stream(mem, chain), w, e);
  }

  lemma BodyThenFoot(s: seq<byte>, w: nat, e: Entry)
    requires w + EntrySize(e) + WORD <= |s|
    ensures BodyComplete(Splice(Splice(s, w + WORD, e.data), w + EntrySize(e), ZERO_WORD), w, e)
    ensures BodyComplete(Splice(Splice(s, w + EntrySize(e), ZERO_WORD), w + WORD, e.data), w, e)
  {
    hide EntrySize;
  }

  lemma {:induction false} PieceStoresEffect(mem: seq<byte>, chain: seq<nat>, o: nat, pieces: seq<seq<byte>>)
    requires Linked(mem, chain) && o + |Flatten(pieces)| <= Capacity(chain)
    ensures var stores := PieceStores(chain, o, pieces);
            && InBounds(|mem|, stores) && Within(stores, Region(chain, o, |Flatten(pieces)|))
            && Linked(Apply(mem, stores), chain)
            && Stream(Apply(mem, stores), chain) == Splice(Stream(mem, chain), o, Flatten(pieces))
    decreases |pieces|
  {
    if pieces == [] {
      assert Splice(Stream(mem, chain), o, []) == Stream(mem, chain);
    } else {
      PieceStoresStep(mem, chain, o, pieces);
    }
  }

  lemma {:induction false} PieceStoresStep(mem: seq<byte>, chain: seq<nat>, o: nat, pieces: seq<seq<byte>>)
    requires Linked(mem, chain) && o + |Flatten(pieces)| <= Capacity(chain) && pieces != []
    ensures var stores := PieceStores(chain, o, pieces);
            && InBounds(|mem|, stores) && Within(stores, Region(chain, o, |Flatten(pieces)|))
            && Linked(Apply(mem, stores), chain)
            && Stream(Apply(mem, stores), chain) == Splice(Stream(mem, chain), o, Flatten(pieces))
    decreases |pieces|, 0
  {
    hide Locate, Stream, Apply, InBounds, Within, Region, StreamStores, Splice, Linked, Chain;
    var n, all := |pieces[0]|, Flatten(pieces);
    var first, rest := StreamStores(chain, o, pieces[0]), PieceStores(chain, o + n, pieces[1..]);
    LinkedIsChain(mem, chain);
    StreamStoresWithin(|mem|, chain, o, pieces[0]);
    StreamStoresEffect(mem, chain, o, pieces[0]);
    var m := Apply(mem, first);
    PieceStoresEffect(m, chain, o + n, pieces[1..]);
    SubRegion(chain, o, |all|, o, n);
    SubRegion(chain, o, |all|, o + n, |all| - n);
    WithinConcat(first, rest, Region(chain, o, n), Region(chain, o + n, |all| - n), Region(chain, o, |all|));
    InBoundsConcat(|mem|, first, rest);
    ApplyConcat(mem, first, rest);
    assert all[..n] == pieces[0] && all[n..] == Flatten(pieces[1..]);
    SpliceSplit(Stream(mem, chain), o, all, n);
  }

  lemma StepWriteBodyOk(mem: seq<byte>, chain: seq<nat>, w: nat, e: Entry, pieces: seq<seq<byte>>)
    requires Linked(mem, chain) && w + EntrySize(e) + WORD <= Capacity(chain) && Flatten(pieces) == e.data
    ensures InNewEntry(|mem|, chain, w, e, StepWriteBody(chain, w, e, pieces))
    ensures BodyComplete(Stream(Apply(mem, StepWriteBody(chain, w, e, pieces)), chain), w, e)
    ensures Linked(Apply(mem, StepWriteBody(chain, w, e, pieces)), chain)
  {
    hide Locate, Stream, Apply, InBounds, Within, Region, StreamStores, PieceStores, EntrySize, Splice, Linked, Chain, BodyComplete;
    LinkedIsChain(mem, chain);
    var foot := StreamStores(chain, w + EntrySize(e), ZERO_WORD);
    var data := PieceStores(chain, w + WORD, pieces);
    StreamStoresWithin(|mem|, chain, w + EntrySize(e), ZERO_WORD);
    StreamStoresEffect(mem, chain, w + EntrySize(e), ZERO_WORD);
    var m := Apply(mem, foot);
    PieceStoresEffect(m, chain, w + WORD, pieces);
    SubRegion(chain, w + WORD, EntrySize(e), w + WORD, |e.data|);
    SubRegion(chain, w + WORD, EntrySize(e), w + EntrySize(e), WORD);
    WithinConcat(foot, data, Region(chain, w + EntrySize(e), WORD), Region(chain, w + WORD, |e.data|),
                 Region(chain, w + WORD, EntrySize(e)));
    InBoundsConcat(|mem|, foot, data);
    ApplyConcat(mem, foot, data);
    BodyThenFoot(Stream(mem, chain), w, e);
  }

  /** LogWrite cut after any store. */
  lemma LogWriteAtomic(mem: seq<byte>, chain: seq<nat>, pages: seq<nat>, start: nat, es: seq<Entry>, e: Entry, k: nat)
    requires OnMedium(mem, chain, start, es) && Room(mem, chain, pages, EndOf(start, es), e) && Loggable(e)
    requires k <= |AppendStores(chain, pages, EndOf(start, es), e, LogWriteBody(chain + pages, EndOf(start, es), e))|
    ensures var stores := AppendStores(chain, pages, EndOf(start, es), e, LogWriteBody(chain + pages, EndOf(start, es), e));
            && InBounds(|mem|, stores[..k])
            && (k < |stores| ==> OnMedium(Apply(mem, stores[..k]), chain, start, es))
            && (k == |stores| ==> OnMedium(Apply(mem, stores[..k]), chain + pages, start, es + [e]))
  {
    hide Locate, Stream, Linked, LogAt, Region, Apply, InBounds, Within, BodyComplete, LogWriteBody;
    var w := EndOf(start, es);
    AfterLinks(mem, chain, pages, start, es);
    var m := Apply(mem, LinkStores(chain[|chain| - 1], pages));
    var body := LogWriteBody(chain + pages, w, e);
    LogWriteBodyOk(m, chain + pages, w, e);
    InBoundsConcat(|mem|, LinkStores(chain[|chain| - 1], pages), body);
    ApplyConcat(mem, LinkStores(chain[|chain| - 1], pages), body);
    AppendAtomic(mem, chain, pages, start, es, e, body, k);
  }

  /** LogStepWriteBegin, any number of LogStepWriteContinue and LogStepWriteEnd cut after any store. */
  lemma StepWriteAtomic(mem: seq<byte>, chain: seq<nat>, pages: seq<nat>, start: nat, es: seq<Entry>, e: Entry,
                        pieces: seq<seq<byte>>, k: nat)
    requires OnMedium(mem, chain, start, es) && Room(mem, chain, pages, EndOf(start, es), e) && Loggable(e)
    requires Flatten(pieces) == e.data
    requires k <= |AppendStores(chain, pages, EndOf(start, es), e, StepWriteBody(chain + pages, EndOf(start, es), e, pieces))|
    ensures var stores := AppendStores(chain, pages, EndOf(start, es), e,
                                       StepWriteBody(chain + pages, EndOf(start, es), e, pieces));
            && InBounds(|mem|, stores[..k])
            && (k < |stores| ==> OnMedium(Apply(mem, stores[..k]), chain, start, es))
            && (k == |stores| ==> OnMedium(Apply(mem, stores[..k]), chain + pages, start, es + [e]))
  {
    hide Locate, Stream, Linked, LogAt, Region, Apply, InBounds, Within, BodyComplete, StepWriteBody;
    var w := EndOf(start, es);
    AfterLinks(mem, chain, pages, start, es);
    var m := Apply(mem, LinkStores(chain[|chain| - 1], pages));
    var body := StepWriteBody(chain + pages, w, e, pieces);
    StepWriteBodyOk(m, chain + pages, w, e, pieces);
    InBoundsConcat(|mem|, LinkStores(chain[|chain| - 1], pages), body);
    ApplyConcat(mem, LinkStores(chain[|chain| - 1], pages), body);
    AppendAtomic(mem, chain, pages, start, es, e, body, k);
  }
}
