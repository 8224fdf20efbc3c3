/**
  The page unmap table: for every split block, which logical page a physical page
  holds.  Nine bits a page, seven pages a word, 74 words a block.
 */
module PageUnmapTable {
  const PAGES_PER_BLOCK: nat := 512
  const FIELDS: nat := 7
  const WORDS: nat := 74

  type Index = x: nat | x < PAGES_PER_BLOCK

  /** NVMPageUnmapTableEntry: seven bit fields. */
  datatype Word = Word(unmapPage0: Index, unmapPage1: Index, unmapPage2: Index, unmapPage3: Index,
                       unmapPage4: Index, unmapPage5: Index, unmapPage6: Index)

  type Group = g: seq<Word> | |g| == WORDS witness seq(WORDS, _ => Word(0, 0, 0, 0, 0, 0, 0))

  /** GetUnmapPageRelativeIndexFromEntry. */
  function Field(w: Word, index: nat): Index {
    match index
    case 0 => w.unmapPage0
    case 1 => w.unmapPage1
    case 2 => w.unmapPage2
    case 3 => w.unmapPage3
    case 4 => w.unmapPage4
    case 5 => w.unmapPage5
    case 6 => w.unmapPage6
    case _ => 0
  }

  /** SetUnmapPageRelativeIndexOfEntry. */
  function WithField(w: Word, index: nat, value: Index): (r: Word)
    ensures forall k :: 0 <= k < FIELDS ==> Field(r, k) == if k == index then value else Field(w, k)
  {
    match index
    case 0 => w.(unmapPage0 := value)
    case 1 => w.(unmapPage1 := value)
    case 2 => w.(unmapPage2 := value)
    case 3 => w.(unmapPage3 := value)
    case 4 => w.(unmapPage4 := value)
    case 5 => w.(unmapPage5 := value)
    case 6 => w.(unmapPage6 := value)
    case _ => w
  }

  function Get(g: Group, page: nat): Index
    requires page < PAGES_PER_BLOCK
  {
    Field(g[page / FIELDS], page % FIELDS)
  }

  function Set(g: Group, page: nat, value: Index): Group
    requires page < PAGES_PER_BLOCK
  {
    g[page / FIELDS := WithField(g[page / FIELDS], page % FIELDS, value)]
  }

  /** Setting one packed slot changes no other page of the block. */
  lemma SetChangesOne(g: Group, page: nat, value: Index)
    requires page < PAGES_PER_BLOCK
    ensures forall k :: 0 <= k < PAGES_PER_BLOCK ==> Get(Set(g, page, value), k) == if k == page then value else Get(g, k)
  {
    hide Field, WithField;
    forall k | 0 <= k < PAGES_PER_BLOCK ensures Get(Set(g, page, value), k) == if k == page then value else Get(g, k) {
      if k / FIELDS == page / FIELDS {
        assert k == page <==> k % FIELDS == page % FIELDS;
      }
    }
  }

  ghost predicate Identity(g: Group) {
    forall k :: 0 <= k < PAGES_PER_BLOCK ==> Get(g, k) == k
  }

  /** Words of the group below `words` are done, and the first `j` fields of the word under way. */
  ghost predicate FormattedTo(g: Group, words: nat, entry: Word, j: nat) {
    && words < WORDS && j < FIELDS
    && (forall w, f :: 0 <= w < words && 0 <= f < FIELDS ==> Field(g[w], f) == w * FIELDS + f)
    && (forall f :: 0 <= f < j ==> Field(entry, f) == words * FIELDS + f)
  }

  /**
    PageUnmapTableBatchFormat.  `entry` starts out as whatever the stack holds;
    its last fields are stored but belong to no page.
   */
  method BatchFormat(g0: Group, entry0: Word) returns (g: Group)
    ensures Identity(g)
  {
    hide Field, WithField;
    g := g0;
    var entry := entry0;
    var j, addr := 0, 0;
    for i := 0 to PAGES_PER_BLOCK
      invariant FormattedTo(g, addr, entry, j) && addr * FIELDS + j == i
    {
      entry := WithField(entry, j, i);
      j := j + 1;
      if j > 6 {
        j := 0;
        g := g[addr := entry];
        addr := addr + 1;
      }
    }
    ghost var before := g;
    g := g[addr := entry];
    FormatDone(before, entry, g);
  }

  lemma FormatDone(before: Group, entry: Word, g: Group)
    requires FormattedTo(before, 73, entry, 1) && g == before[73 := entry]
    ensures Identity(g)
  {
    hide Field;
    forall k | 0 <= k < PAGES_PER_BLOCK ensures Get(g, k) == k {
      var w, f := k / FIELDS, k % FIELDS;
      assert k == w * FIELDS + f && 0 <= f < FIELDS;
      if w < 73 {
        assert Field(before[w], f) == w * FIELDS + f;
      } else {
        assert w == 73 && f == 0;
      }
    }
  }
}
