/**
 Base relocation of a loaded PE image: a table of blocks in the file names the
 words of the image to which the load delta is added, each modulo its own width.
 */
module PeReloc {
  import opened Words

  const REL_ABSOLUTE := 0
  const REL_HIGH := 1
  const REL_LOW := 2
  const REL_HIGHLOW := 3
  const REL_DIR64 := 10

  /** One table entry: the image address it patches and how. */
  datatype Site = Site(rva: nat, kind: nat)

  function Width(kind: nat): nat {
    if kind == REL_DIR64 then 8
    else if kind == REL_HIGHLOW then 4
    else if kind == REL_HIGH || kind == REL_LOW then 2
    else 0
  }

  // What is added at a site of this kind, as the casts in the source cut it down.
  function Increment(kind: nat, delta: nat): nat {
    if kind == REL_DIR64 then delta
    else if kind == REL_HIGHLOW then delta % TWO32
    else if kind == REL_HIGH then (delta / TWO16) % TWO16
    else if kind == REL_LOW then delta % TWO16
    else 0
  }

  // ---------------------------------------------------------------- the table

  function EntryAt(file: seq<byte>, pos: nat, page: nat): Site
    requires pos + 2 <= |file|
  {
    var entry := Read(file, pos, 2);
    Site(page + entry % 4096, entry / 4096)
  }

  function Entries(file: seq<byte>, pos: nat, count: nat, page: nat): (sites: seq<Site>)
    requires pos + 2 * count <= |file|
    ensures |sites| == count
    decreases count
  {
    if count == 0 then []
    else Entries(file, pos, count - 1, page) + [EntryAt(file, pos + 2 * (count - 1), page)]
  }

  function EntryCount(blockSize: nat): nat
    requires blockSize >= 8
  {
    (blockSize - 8) / 2
  }

  // Every block the loader visits lies inside the file, so that it reads nothing else.
  predicate TableInFile(file: seq<byte>, pos: nat, end: nat)
    requires end <= |file|
    decreases |file| - pos
  {
    if pos + 8 > end || Read(file, pos + 4, 4) < 8 then true
    else
      var size := Read(file, pos + 4, 4);
      pos + size <= |file| && TableInFile(file, pos + 8 + 2 * EntryCount(size), end)
  }

  /** All entries of the blocks from `pos`, in table order. */
  function Sites(file: seq<byte>, pos: nat, end: nat): seq<Site>
    requires end <= |file| && TableInFile(file, pos, end)
    decreases |file| - pos
  {
    if pos + 8 > end || Read(file, pos + 4, 4) < 8 then []
    else
      var size := Read(file, pos + 4, 4);
      Entries(file, pos + 8, EntryCount(size), Read(file, pos, 4))
      + Sites(file, pos + 8 + 2 * EntryCount(size), end)
  }

  // ---------------------------------------------------------------- patching

  predicate InImage(site: Site, size: nat) {
    Width(site.kind) > 0 ==> site.rva + Width(site.kind) <= size
  }

  predicate AllInImage(sites: seq<Site>, size: nat) {
    forall i :: 0 <= i < |sites| ==> InImage(sites[i], size)
  }

  function Patch(m: seq<byte>, site: Site, delta: nat): (m': seq<byte>)
    requires InImage(site, |m|)
    ensures |m'| == |m|
  {
    var w := Width(site.kind);
    if w == 0 then m
    else Write(m, site.rva, w, Read(m, site.rva, w) + Increment(site.kind, delta))
  }

  /** The image after adding `delta` at every site, in table order. */
  function Relocate(m: seq<byte>, sites: seq<Site>, delta: nat): (m': seq<byte>)
    requires AllInImage(sites, |m|)
    ensures |m'| == |m|
    decreases |sites|
  {
    if sites == [] then m
    else
      var n := |sites| - 1;
      assert AllInImage(sites[..n], |m|);
      Patch(Relocate(m, sites[..n], delta), sites[n], delta)
  }

  lemma {:induction false} RelocateAppend(m: seq<byte>, a: seq<Site>, b: seq<Site>, delta: nat)
    requires AllInImage(a + b, |m|)
    ensures AllInImage(a, |m|) && AllInImage(b, |m|)
    ensures Relocate(m, a + b, delta) == Relocate(Relocate(m, a, delta), b, delta)
    decreases |b|
  {
    assert forall i :: 0 <= i < |a| ==> (a + b)[i] == a[i];
    assert forall i :: 0 <= i < |b| ==> (a + b)[|a| + i] == b[i];
    if b == [] {
      assert a + b == a;
    } else {
      var c := b[..|b| - 1];
      assert (a + b)[..|a + b| - 1] == a + c;
      RelocateAppend(m, a, c, delta);
    }
  }

  /** Patches the image in place, block by block. The table is read from the file's own
      bytes, which the patches do not touch. */
  method ApplyBlocks(file: seq<byte>, relocOff: nat, relocSize: nat, mem: array<byte>, delta: nat)
    requires relocOff + relocSize <= |file| < TWO32
    requires TableInFile(file, relocOff, relocOff + relocSize)
    requires AllInImage(Sites(file, relocOff, relocOff + relocSize), mem.Length)
    modifies mem
    ensures mem[..] == Relocate(old(mem[..]), Sites(file, relocOff, relocOff + relocSize), delta)
  {
    hide Relocate, Entries, AllInImage, Read, U32;
    var pos := relocOff;
    var end := relocOff + relocSize;
    ghost var goal := Relocate(mem[..], Sites(file, pos, end), delta);
    while pos + 8 <= end
      invariant pos <= |file| && TableInFile(file, pos, end)
      invariant AllInImage(Sites(file, pos, end), mem.Length)
      invariant Relocate(mem[..], Sites(file, pos, end), delta) == goal
      decreases |file| - pos
    {
      var page := Read(file, pos, 4);
      var size := Read(file, pos + 4, 4);
      if size < 8 {
        break;
      }
      var count := EntryCount(size);
      ghost var next := NextBlock(file, pos, end, mem[..], delta, page, size, count);
      var entriesEnd := U32(pos + size);
      pos := pos + 8;
      pos := ApplyEntries(file, pos, count, entriesEnd, page, mem, delta);
      assert pos == next;
    }
    NoSites(mem[..], delta);
  }

  lemma NoSites(m: seq<byte>, delta: nat)
    ensures AllInImage([], |m|) && Relocate(m, [], delta) == m
  {
  }

  // Doing the table from `pos` on is doing one block and then the table after it.
  lemma NextBlock(file: seq<byte>, pos: nat, end: nat, m: seq<byte>, delta: nat, page: nat, size: nat, count: nat)
    returns (next: nat)
    requires pos + 8 <= end <= |file| && TableInFile(file, pos, end)
    requires AllInImage(Sites(file, pos, end), |m|)
    requires page == Read(file, pos, 4) && size == Read(file, pos + 4, 4) >= 8 && count == EntryCount(size)
    ensures next == pos + 8 + 2 * count <= pos + size <= |file|
    ensures TableInFile(file, next, end)
    ensures AllInImage(Entries(file, pos + 8, count, page), |m|)
    ensures AllInImage(Sites(file, next, end), |m|)
    ensures Relocate(Relocate(m, Entries(file, pos + 8, count, page), delta), Sites(file, next, end), delta)
         == Relocate(m, Sites(file, pos, end), delta)
  {
    next := pos + 8 + 2 * count;
    RelocateAppend(m, Entries(file, pos + 8, count, page), Sites(file, next, end), delta);
  }

  // The entries of one block, from `start` on; returns where the next block begins.
  method ApplyEntries(file: seq<byte>, start: nat, count: nat, entriesEnd: nat, page: nat, mem: array<byte>, delta: nat)
    returns (pos: nat)
    requires start + 2 * count <= entriesEnd <= |file| < TWO32
    requires AllInImage(Entries(file, start, count, page), mem.Length)
    modifies mem
    ensures pos == start + 2 * count
    ensures mem[..] == Relocate(old(mem[..]), Entries(file, start, count, page), delta)
  {
    hide Relocate, Entries, AllInImage, InImage, Patch, Read;
    NoEntries(file, start, page, mem[..], delta);
    pos := start;
    var e := 0;
    ghost var was := mem[..];
    while e < count && U32(pos + 2) <= entriesEnd
      invariant 0 <= e <= count && pos == start + 2 * e
      invariant AllInImage(Entries(file, start, e, page), mem.Length)
      invariant mem[..] == Relocate(was, Entries(file, start, e, page), delta)
    {
      var entry := Read(file, pos, 2);
      var site := Site(page + entry % 4096, entry / 4096);
      NextEntry(file, start, e, count, page, site, was, delta);
      PatchInPlace(mem, site, delta);
      pos := pos + 2;
      e := e + 1;
    }
  }

  lemma NoEntries(file: seq<byte>, start: nat, page: nat, m: seq<byte>, delta: nat)
    requires start <= |file|
    ensures AllInImage(Entries(file, start, 0, page), |m|) && Relocate(m, Entries(file, start, 0, page), delta) == m
  {
  }

  lemma NextEntry(file: seq<byte>, start: nat, e: nat, count: nat, page: nat, site: Site, was: seq<byte>, delta: nat)
    requires e < count && start + 2 * count <= |file|
    requires AllInImage(Entries(file, start, count, page), |was|)
    requires AllInImage(Entries(file, start, e, page), |was|)
    requires site == EntryAt(file, start + 2 * e, page)
    ensures InImage(site, |was|)
    ensures AllInImage(Entries(file, start, e + 1, page), |was|)
    ensures Relocate(was, Entries(file, start, e + 1, page), delta)
         == Patch(Relocate(was, Entries(file, start, e, page), delta), site, delta)
  {
    EntriesPrefix(file, start, e + 1, count, page);
    var more := Entries(file, start, e + 1, page);
    assert more[e] == site && more[..e] == Entries(file, start, e, page);
    assert forall i :: 0 <= i < |more| ==> InImage(more[i], |was|);
  }

  lemma {:induction false} EntriesPrefix(file: seq<byte>, pos: nat, k: nat, count: nat, page: nat)
    requires k <= count && pos + 2 * count <= |file|
    ensures Entries(file, pos, k, page) == Entries(file, pos, count, page)[..k]
    decreases count
  {
    if k < count {
      EntriesPrefix(file, pos, k, count - 1, page);
    } else {
      assert Entries(file, pos, count, page)[..k] == Entries(file, pos, count, page);
    }
  }

  // The switch of the source: one read-modify-write of a word, or nothing.
  method PatchInPlace(mem: array<byte>, site: Site, delta: nat)
    requires InImage(site, mem.Length)
    modifies mem
    ensures mem[..] == Patch(old(mem[..]), site, delta)
  {
    if site.kind == REL_DIR64 {
      Store(mem, site.rva, 8, Read(mem[..], site.rva, 8) + delta);
    } else if site.kind == REL_HIGHLOW {
      Store(mem, site.rva, 4, Read(mem[..], site.rva, 4) + delta % TWO32);
    } else if site.kind == REL_HIGH {
      Store(mem, site.rva, 2, Read(mem[..], site.rva, 2) + (delta / TWO16) % TWO16);
    } else if site.kind == REL_LOW {
      Store(mem, site.rva, 2, Read(mem[..], site.rva, 2) + delta % TWO16);
    }
  }

  // ---------------------------------------------------------------- the table format

  /** The table as the linker writes it, apart from its bytes. */
  datatype Entry = Entry(kind: nat, offset: nat)

  datatype Block = Block(page: nat, entries: seq<Entry>)

  ghost predicate BlockOk(b: Block) {
    && b.page < TWO32 && 8 + 2 * |b.entries| < TWO32
    && forall i :: 0 <= i < |b.entries| ==> b.entries[i].kind < 16 && b.entries[i].offset < 4096
  }

  ghost predicate BlocksOk(bs: seq<Block>) {
    forall i :: 0 <= i < |bs| ==> BlockOk(bs[i])
  }

  function EntryBytes(es: seq<Entry>): (s: seq<byte>)
    ensures |s| == 2 * |es|
  {
    if es == [] then [] else Encode(es[0].kind * 4096 + es[0].offset, 2) + EntryBytes(es[1..])
  }

  function BlockBytes(b: Block): (s: seq<byte>)
    ensures |s| == 8 + 2 * |b.entries|
  {
    Encode(b.page, 4) + Encode(8 + 2 * |b.entries|, 4) + EntryBytes(b.entries)
  }

  function TableBytes(bs: seq<Block>): seq<byte> {
    if bs == [] then [] else BlockBytes(bs[0]) + TableBytes(bs[1..])
  }

  // The sites that one block, and all of them in order, name.
  function BlockSites(page: nat, es: seq<Entry>): seq<Site> {
    if es == [] then [] else [Site(page + es[0].offset, es[0].kind)] + BlockSites(page, es[1..])
  }

  function TableSites(bs: seq<Block>): seq<Site> {
    if bs == [] then [] else BlockSites(bs[0].page, bs[0].entries) + TableSites(bs[1..])
  }

  // The bytes `s` stand in the file at `pos`.
  ghost predicate Stands(file: seq<byte>, pos: nat, s: seq<byte>) {
    pos + |s| <= |file| && file[pos..pos + |s|] == s
  }

  // Behind `pos` comes no further block: too few bytes are left, or its size is too small.
  predicate TableStops(file: seq<byte>, pos: nat, end: nat)
    requires end <= |file|
  {
    pos <= end && (end - pos < 8 || Read(file, pos + 4, 4) < 8)
  }

  lemma StandsSplit(file: seq<byte>, pos: nat, a: seq<byte>, b: seq<byte>)
    requires Stands(file, pos, a + b)
    ensures Stands(file, pos, a) && Stands(file, pos + |a|, b)
  {
    assert file[pos..pos + |a|] == (a + b)[..|a|];
    assert file[pos + |a|..pos + |a| + |b|] == (a + b)[|a|..];
  }

  lemma ReadStanding(file: seq<byte>, pos: nat, v: nat, w: nat)
    requires Stands(file, pos, Encode(v, w)) && v < Span(w)
    ensures Read(file, pos, w) == v
  {
    LowKeeps(v, w);
  }

  lemma EntryStanding(file: seq<byte>, pos: nat, page: nat, e: Entry)
    requires Stands(file, pos, Encode(e.kind * 4096 + e.offset, 2)) && e.kind < 16 && e.offset < 4096
    ensures EntryAt(file, pos, page) == Site(page + e.offset, e.kind)
  {
    hide Read, Encode, Stands, Span;
    Spans();
    ReadStanding(file, pos, e.kind * 4096 + e.offset, 2);
    DivUnique(e.kind * 4096 + e.offset, 4096, e.kind, e.offset);
  }

  lemma {:induction false} EntriesFromFront(file: seq<byte>, pos: nat, count: nat, page: nat)
    requires 0 < count && pos + 2 * count <= |file|
    ensures Entries(file, pos, count, page) == [EntryAt(file, pos, page)] + Entries(file, pos + 2, count - 1, page)
    decreases count
  {
    if count > 1 {
      EntriesFromFront(file, pos, count - 1, page);
      assert pos + 2 + 2 * (count - 2) == pos + 2 * (count - 1);
    }
  }

  lemma {:induction false} EntriesStanding(file: seq<byte>, pos: nat, page: nat, es: seq<Entry>)
    requires Stands(file, pos, EntryBytes(es))
    requires forall i :: 0 <= i < |es| ==> es[i].kind < 16 && es[i].offset < 4096
    ensures Entries(file, pos, |es|, page) == BlockSites(page, es)
    decreases |es|
  {
    hide EntryAt, Encode, Read;
    if es != [] {
      var first := Encode(es[0].kind * 4096 + es[0].offset, 2);
      StandsSplit(file, pos, first, EntryBytes(es[1..]));
      EntryStanding(file, pos, page, es[0]);
      EntriesStanding(file, pos + 2, page, es[1..]);
      EntriesFromFront(file, pos, |es|, page);
    }
  }

  // The two words of a block's header, and its entries.
  lemma BlockStanding(file: seq<byte>, pos: nat, b: Block)
    requires BlockOk(b) && Stands(file, pos, BlockBytes(b))
    ensures pos + 8 + 2 * |b.entries| <= |file| && EntryCount(8 + 2 * |b.entries|) == |b.entries|
    ensures Read(file, pos, 4) == b.page && Read(file, pos + 4, 4) == 8 + 2 * |b.entries|
    ensures Entries(file, pos + 8, |b.entries|, b.page) == BlockSites(b.page, b.entries)
  {
    hide Encode, Read, EntryAt, Entries, EntryBytes;
    var n := 8 + 2 * |b.entries|;
    StandsSplit(file, pos, Encode(b.page, 4) + Encode(n, 4), EntryBytes(b.entries));
    StandsSplit(file, pos, Encode(b.page, 4), Encode(n, 4));
    Spans();
    ReadStanding(file, pos, b.page, 4);
    ReadStanding(file, pos + 4, n, 4);
    EntriesStanding(file, pos + 8, b.page, b.entries);
  }

  /** What the table says: its bytes are read back as the sites of its blocks, in order, each
      entry a page plus twelve bits of offset and four bits of kind. */
  lemma {:induction false} SitesOfTable(file: seq<byte>, pos: nat, end: nat, bs: seq<Block>)
    requires BlocksOk(bs) && Stands(file, pos, TableBytes(bs)) && end <= |file|
    requires TableStops(file, pos + |TableBytes(bs)|, end)
    ensures TableInFile(file, pos, end) && Sites(file, pos, end) == TableSites(bs)
    decreases |bs|
  {
    hide BlockBytes, BlockSites, Entries, EntryBytes, BlockOk, TableInFile, Sites, Stands;
    if bs == [] {
      NoBlock(file, pos, end);
    } else {
      var b, rest := bs[0], TableBytes(bs[1..]);
      StandsSplit(file, pos, BlockBytes(b), rest);
      BlockStanding(file, pos, b);
      var next := pos + 8 + 2 * |b.entries|;
      assert pos + |BlockBytes(b) + rest| == next + |rest|;
      SitesOfTable(file, next, end, bs[1..]);
      OneBlock(file, pos, end, |b.entries|);
    }
  }

  lemma NoBlock(file: seq<byte>, pos: nat, end: nat)
    requires end <= |file| && TableStops(file, pos, end)
    ensures TableInFile(file, pos, end) && Sites(file, pos, end) == []
  {
  }

  lemma OneBlock(file: seq<byte>, pos: nat, end: nat, count: nat)
    requires pos + 8 + 2 * count <= end <= |file| && Read(file, pos + 4, 4) == 8 + 2 * count
    requires TableInFile(file, pos + 8 + 2 * count, end)
    ensures TableInFile(file, pos, end)
    ensures Sites(file, pos, end) == Entries(file, pos + 8, count, Read(file, pos, 4)) + Sites(file, pos + 8 + 2 * count, end)
  {
    hide Entries, Read;
  }

  // ---------------------------------------------------------------- main results

  predicate Covers(site: Site, a: int) {
    site.rva <= a < site.rva + Width(site.kind)
  }

  predicate Apart(s: Site, t: Site) {
    s.rva + Width(s.kind) <= t.rva || t.rva + Width(t.kind) <= s.rva
    || Width(s.kind) == 0 || Width(t.kind) == 0
  }

  // No two entries patch a common byte.
  predicate NoOverlap(sites: seq<Site>) {
    forall i, j :: 0 <= i < j < |sites| ==> Apart(sites[i], sites[j])
  }

  function Word(m: seq<byte>, s: Site): nat
    requires InImage(s, |m|) && Width(s.kind) > 0
  {
    Read(m, s.rva, Width(s.kind))
  }

  predicate WordMoved(m: seq<byte>, m': seq<byte>, s: Site, delta: nat) {
    && |m'| == |m| && InImage(s, |m|)
    && (Width(s.kind) > 0 ==> Word(m', s) == Low(Word(m, s) + Increment(s.kind, delta), Width(s.kind)))
  }

  // Each site's word moved by its increment, and no other byte changed.
  ghost predicate Moved(m: seq<byte>, m': seq<byte>, sites: seq<Site>, delta: nat) {
    && |m'| == |m|
    && (forall a :: 0 <= a < |m| && Uncovered(sites, a) ==> m'[a] == m[a])
    && (forall i :: 0 <= i < |sites| ==> WordMoved(m, m', sites[i], delta))
  }

  ghost predicate Uncovered(sites: seq<Site>, a: int) {
    forall i :: 0 <= i < |sites| ==> !Covers(sites[i], a)
  }

  /** What relocation means word by word, when the sites share no byte: each site's word
      moves by its increment, and no other byte of the image changes. */
  lemma {:induction false} RelocateWords(m: seq<byte>, sites: seq<Site>, delta: nat)
    requires AllInImage(sites, |m|) && NoOverlap(sites)
    ensures Moved(m, Relocate(m, sites, delta), sites, delta)
    decreases |sites|
  {
    if sites != [] {
      var n := |sites| - 1;
      var front, s := sites[..n], sites[n];
      assert AllInImage(front, |m|);
      forall i, j | 0 <= i < j < n
        ensures Apart(front[i], front[j])
      {
        assert Apart(sites[i], sites[j]);
      }
      RelocateWords(m, front, delta);
      forall i | 0 <= i < n
        ensures Apart(front[i], s)
      {
        assert Apart(sites[i], sites[n]);
      }
      PatchOne(m, Relocate(m, front, delta), front, s, delta);
      assert front + [s] == sites;
    }
  }

  // One more patch changes its own word and leaves the words of the other sites alone.
  lemma PatchOne(m: seq<byte>, m1: seq<byte>, front: seq<Site>, s: Site, delta: nat)
    requires Moved(m, m1, front, delta) && InImage(s, |m|)
    requires forall i :: 0 <= i < |front| ==> Apart(front[i], s)
    ensures Moved(m, Patch(m1, s, delta), front + [s], delta)
  {
    var sites, m2 := front + [s], Patch(m1, s, delta);
    if Width(s.kind) > 0 {
      ReadUntouched(m, m1, front, s, delta);
    }
    PatchFacts(m1, s, delta);
    forall i | 0 <= i < |sites|
      ensures WordMoved(m, m2, sites[i], delta)
    {
      if i < |front| {
        assert WordMoved(m, m1, front[i], delta) && Apart(front[i], s);
        PatchApart(m1, s, delta, front[i]);
      }
    }
    forall a | 0 <= a < |m| && Uncovered(sites, a)
      ensures m2[a] == m[a]
    {
      assert !Covers(sites[|front|], a);
      forall i | 0 <= i < |front|
        ensures !Covers(front[i], a)
      {
        assert !Covers(sites[i], a);
      }
      assert Uncovered(front, a);
    }
  }

  lemma PatchFacts(m: seq<byte>, s: Site, delta: nat)
    requires InImage(s, |m|)
    ensures WordMoved(m, Patch(m, s, delta), s, delta)
    ensures forall a :: 0 <= a < |m| && !Covers(s, a) ==> Patch(m, s, delta)[a] == m[a]
  {
    if Width(s.kind) > 0 {
      ReadWritten(m, s.rva, Width(s.kind), Word(m, s) + Increment(s.kind, delta));
    }
  }

  lemma PatchApart(m: seq<byte>, s: Site, delta: nat, t: Site)
    requires InImage(s, |m|) && InImage(t, |m|) && Apart(t, s)
    ensures Width(t.kind) > 0 ==> Word(Patch(m, s, delta), t) == Word(m, t)
  {
    if Width(s.kind) > 0 && Width(t.kind) > 0 {
      ReadApart(m, s.rva, Width(s.kind), Word(m, s) + Increment(s.kind, delta), t.rva, Width(t.kind));
    }
  }

  lemma ReadUntouched(m: seq<byte>, m1: seq<byte>, front: seq<Site>, s: Site, delta: nat)
    requires Moved(m, m1, front, delta) && InImage(s, |m|) && Width(s.kind) > 0
    requires forall i :: 0 <= i < |front| ==> Apart(front[i], s)
    ensures Word(m1, s) == Word(m, s)
  {
    var w := Width(s.kind);
    forall a | s.rva <= a < s.rva + w
      ensures m1[a] == m[a]
    {
      forall i | 0 <= i < |front|
        ensures !Covers(front[i], a)
      {
        assert Apart(front[i], s);
      }
      assert Uncovered(front, a);
    }
    assert m1[s.rva..s.rva + w] == m[s.rva..s.rva + w];
  }

  // The bytes an entry moves and how, with the kinds DIR64, HIGHLOW, HIGH and LOW by their
  // numbers in the file. Other kinds move nothing.
  predicate Touches(kind: nat, rva: nat, a: int) {
    rva <= a < rva + if kind == 10 then 8 else if kind == 3 then 4 else if kind == 1 || kind == 2 then 2 else 0
  }

  ghost predicate Untouched(bs: seq<Block>, a: int) {
    forall i, j :: 0 <= i < |bs| && 0 <= j < |bs[i].entries| ==>
      !Touches(bs[i].entries[j].kind, bs[i].page + bs[i].entries[j].offset, a)
  }

  predicate MovedBy(m: seq<byte>, m': seq<byte>, rva: nat, kind: nat, delta: nat) {
    && (kind == 10 ==> rva + 8 <= |m| == |m'| && Read(m', rva, 8) == (Read(m, rva, 8) + delta) % TWO64)
    && (kind == 3 ==> rva + 4 <= |m| == |m'| && Read(m', rva, 4) == (Read(m, rva, 4) + delta) % TWO32)
    && (kind == 1 ==> rva + 2 <= |m| == |m'| && Read(m', rva, 2) == (Read(m, rva, 2) + delta / TWO16) % TWO16)
    && (kind == 2 ==> rva + 2 <= |m| == |m'| && Read(m', rva, 2) == (Read(m, rva, 2) + delta) % TWO16)
  }

  /** What relocation by a table means, entry by entry: the words its entries name move by the
      delta, cut or shifted by their kind, and every other byte of the image stays. */
  lemma TableMovesWords(file: seq<byte>, pos: nat, end: nat, bs: seq<Block>, m: seq<byte>, delta: nat)
    requires BlocksOk(bs) && Stands(file, pos, TableBytes(bs)) && end <= |file|
    requires TableStops(file, pos + |TableBytes(bs)|, end)
    requires AllInImage(TableSites(bs), |m|) && NoOverlap(TableSites(bs))
    ensures TableInFile(file, pos, end) && AllInImage(Sites(file, pos, end), |m|)
    ensures var m' := Relocate(m, Sites(file, pos, end), delta);
      && (forall i, j :: 0 <= i < |bs| && 0 <= j < |bs[i].entries| ==>
            var e := bs[i].entries[j]; MovedBy(m, m', bs[i].page + e.offset, e.kind, delta))
      && (forall a :: 0 <= a < |m| && Untouched(bs, a) ==> m'[a] == m[a])
  {
    hide Stands, TableBytes, TableStops, Sites, Relocate, TableSites, BlockOk, InImage;
    SitesOfTable(file, pos, end, bs);
    var sites := TableSites(bs);
    RelocateWords(m, sites, delta);
    var m' := Relocate(m, sites, delta);
    forall i, j | 0 <= i < |bs| && 0 <= j < |bs[i].entries|
      ensures var e := bs[i].entries[j]; MovedBy(m, m', bs[i].page + e.offset, e.kind, delta)
    {
      var k := SiteListed(bs, i, j);
      assert WordMoved(m, m', sites[k], delta);
      MovedWord(m, m', sites[k], delta);
    }
    forall a | 0 <= a < |m| && Untouched(bs, a)
      ensures m'[a] == m[a]
    {
      forall k | 0 <= k < |sites|
        ensures !Covers(sites[k], a)
      {
        var i, j := EntryListed(bs, k);
        assert !Touches(bs[i].entries[j].kind, bs[i].page + bs[i].entries[j].offset, a);
      }
      assert Uncovered(sites, a);
    }
  }

  lemma MovedWord(m: seq<byte>, m': seq<byte>, s: Site, delta: nat)
    requires WordMoved(m, m', s, delta)
    ensures MovedBy(m, m', s.rva, s.kind, delta)
  {
    hide Low, Read;
    if Width(s.kind) > 0 {
      LowIsModulo(Word(m, s) + Increment(s.kind, delta), Width(s.kind));
      CutSummand(Word(m, s), delta);
      CutSummand(Word(m, s), delta / TWO16);
    }
  }

  lemma CutSummand(v: nat, x: nat)
    ensures (v + x % TWO32) % TWO32 == (v + x) % TWO32
    ensures (v + x % TWO16) % TWO16 == (v + x) % TWO16
  {
    Wrap16(v, x, 0);
    CutSummand32(v, x);
  }

  lemma CutSummand32(v: nat, x: nat)
    ensures (v + x % TWO32) % TWO32 == (v + x) % TWO32
  {
  }

  // Every entry is a site, and every site is an entry.
  lemma {:induction false} SiteListed(bs: seq<Block>, i: nat, j: nat) returns (k: nat)
    requires i < |bs| && j < |bs[i].entries|
    ensures k < |TableSites(bs)|
    ensures TableSites(bs)[k] == Site(bs[i].page + bs[i].entries[j].offset, bs[i].entries[j].kind)
  {
    BlockSitesAt(bs[0].page, bs[0].entries);
    if i == 0 {
      k := j;
    } else {
      k := SiteListed(bs[1..], i - 1, j);
      k := k + |bs[0].entries|;
    }
  }

  lemma {:induction false} EntryListed(bs: seq<Block>, k: nat) returns (i: nat, j: nat)
    requires k < |TableSites(bs)|
    ensures i < |bs| && j < |bs[i].entries|
    ensures TableSites(bs)[k] == Site(bs[i].page + bs[i].entries[j].offset, bs[i].entries[j].kind)
  {
    BlockSitesAt(bs[0].page, bs[0].entries);
    if k < |bs[0].entries| {
      i, j := 0, k;
    } else {
      i, j := EntryListed(bs[1..], k - |bs[0].entries|);
      i := i + 1;
    }
  }

  lemma {:induction false} BlockSitesAt(page: nat, es: seq<Entry>)
    ensures |BlockSites(page, es)| == |es|
    ensures forall j :: 0 <= j < |es| ==> BlockSites(page, es)[j] == Site(page + es[j].offset, es[j].kind)
  {
    if es != [] {
      BlockSitesAt(page, es[1..]);
    }
  }

  predicate CarryFree(d1: nat, d2: nat) {
    d1 % TWO16 + d2 % TWO16 < TWO16
  }

  // Adding twice to a word is adding once, unless a high half drops the carry.
  predicate Additive(kind: nat, d1: nat, d2: nat) {
    kind != REL_HIGH || CarryFree(d1, d2)
  }

  lemma AddTwice(kind: nat, v: nat, d1: nat, d2: nat)
    requires Width(kind) > 0 && d1 < TWO64 && d2 < TWO64
    ensures var w := Width(kind);
      Low(Low(v + Increment(kind, d1), w) + Increment(kind, d2), w) == Low(v + Increment(kind, (d1 + d2) % TWO64), w)
      <==> Additive(kind, d1, d2)
  {
    hide Low, CarryFree;
    if kind == REL_DIR64 {
      AddTwiceDir64(v, d1, d2);
    } else if kind == REL_HIGHLOW {
      AddTwiceHighLow(v, d1, d2);
    } else if kind == REL_LOW {
      AddTwiceLowHalf(v, d1, d2);
    } else {
      AddTwiceHighHalf(v, d1, d2);
    }
  }

  lemma AddTwiceDir64(v: nat, d1: nat, d2: nat)
    ensures Low(Low(v + d1, 8) + d2, 8) == Low(v + (d1 + d2) % TWO64, 8)
  {
    hide Low;
    TwiceLow(v, d1, d2, (d1 + d2) % TWO64, 8);
    AddTwice64(v, d1, d2);
  }

  lemma AddTwiceHighLow(v: nat, d1: nat, d2: nat)
    ensures Low(Low(v + d1 % TWO32, 4) + d2 % TWO32, 4) == Low(v + (d1 + d2) % TWO64 % TWO32, 4)
  {
    hide Low;
    TwiceLow(v, d1 % TWO32, d2 % TWO32, (d1 + d2) % TWO64 % TWO32, 4);
    AddTwice32(v, d1, d2);
  }

  lemma AddTwiceLowHalf(v: nat, d1: nat, d2: nat)
    ensures Low(Low(v + d1 % TWO16, 2) + d2 % TWO16, 2) == Low(v + (d1 + d2) % TWO64 % TWO16, 2)
  {
    hide Low;
    TwiceLow(v, d1 % TWO16, d2 % TWO16, (d1 + d2) % TWO64 % TWO16, 2);
    AddTwice16(v, d1, d2);
  }

  lemma AddTwiceHighHalf(v: nat, d1: nat, d2: nat)
    ensures Low(Low(v + d1 / TWO16 % TWO16, 2) + d2 / TWO16 % TWO16, 2) == Low(v + (d1 + d2) % TWO64 / TWO16 % TWO16, 2)
      <==> CarryFree(d1, d2)
  {
    hide Low, CarryFree;
    TwiceLow(v, d1 / TWO16 % TWO16, d2 / TWO16 % TWO16, (d1 + d2) % TWO64 / TWO16 % TWO16, 2);
    AddTwiceHigh(v, d1, d2);
  }

  // The words in terms of remainders.
  lemma TwiceLow(v: nat, x: nat, y: nat, z: nat, w: nat)
    ensures w == 2 ==> Low(Low(v + x, w) + y, w) == ((v + x) % TWO16 + y) % TWO16 && Low(v + z, w) == (v + z) % TWO16
    ensures w == 4 ==> Low(Low(v + x, w) + y, w) == ((v + x) % TWO32 + y) % TWO32 && Low(v + z, w) == (v + z) % TWO32
    ensures w == 8 ==> Low(Low(v + x, w) + y, w) == ((v + x) % TWO64 + y) % TWO64 && Low(v + z, w) == (v + z) % TWO64
  {
    hide Low;
    LowIsModulo(v + x, w);
    LowIsModulo(Low(v + x, w) + y, w);
    LowIsModulo(v + z, w);
  }

  lemma AddTwice64(v: nat, d1: nat, d2: nat)
    ensures ((v + d1) % TWO64 + d2) % TWO64 == (v + (d1 + d2) % TWO64) % TWO64
  {
  }

  lemma AddTwice32(v: nat, d1: nat, d2: nat)
    ensures ((v + d1 % TWO32) % TWO32 + d2 % TWO32) % TWO32 == (v + ((d1 + d2) % TWO64) % TWO32) % TWO32
  {
    var k := (d1 + d2) / TWO64;
    var sum := (d1 + d2) % TWO64;
    assert sum == d1 + d2 - TWO32 * (TWO32 * k);
    SameRest(d1 + d2, sum, TWO32, TWO32 * k);
    RestOfSum(v, d1, d2);
    RestOfSum(v, sum, 0);
    SumRest(v, d1 + d2, sum);
  }

  lemma SameRest(x: nat, y: nat, m: nat, k: int)
    requires m > 0 && y == x - m * k
    ensures x % m == y % m
  {
    var q := x / m;
    assert m * (q - k) == m * q - m * k;
    DivUnique(y, m, q - k, x % m);
  }

  lemma RestOfSum(v: nat, x: nat, y: nat)
    ensures ((v + x % TWO32) % TWO32 + y % TWO32) % TWO32 == (v + x + y) % TWO32
  {
  }

  lemma SumRest(v: nat, x: nat, y: nat)
    requires x % TWO32 == y % TWO32
    ensures (v + x) % TWO32 == (v + y) % TWO32
  {
  }

  lemma AddTwice16(v: nat, d1: nat, d2: nat)
    ensures ((v + d1 % TWO16) % TWO16 + d2 % TWO16) % TWO16 == (v + ((d1 + d2) % TWO64) % TWO16) % TWO16
  {
    var k := (d1 + d2) / TWO64;
    assert (d1 + d2) % TWO64 == d1 + d2 - TWO16 * (0x1_0000_0000_0000 * k);
  }

  // The high half of a sum: the sum of the high halves plus the carry.
  lemma HighOfSum(d1: nat, d2: nat, c: nat)
    requires c == if CarryFree(d1, d2) then 0 else 1
    ensures ((d1 + d2) % TWO64 / TWO16) % TWO16 == (d1 / TWO16 + d2 / TWO16 + c) % TWO16
  {
    var h, k := d1 / TWO16 + d2 / TWO16 + c, (d1 + d2) / TWO64;
    var sum := d1 + d2 - TWO64 * k;
    assert sum == TWO16 * (h - 0x1_0000_0000_0000 * k) + (d1 % TWO16 + d2 % TWO16 - TWO16 * c);
    assert sum / TWO16 == h - TWO16 * (TWO32 * k);
    SameRest(h, sum / TWO16, TWO16, TWO32 * k);
  }

  lemma Wrap16(v: nat, x: nat, y: nat)
    ensures ((v + x % TWO16) % TWO16 + y % TWO16) % TWO16 == (v + x + y) % TWO16
    ensures (v + x % TWO16) % TWO16 == (v + x) % TWO16
  {
  }

  lemma AddTwiceHigh(v: nat, d1: nat, d2: nat)
    ensures ((v + (d1 / TWO16) % TWO16) % TWO16 + (d2 / TWO16) % TWO16) % TWO16
            == (v + (((d1 + d2) % TWO64) / TWO16) % TWO16) % TWO16
      <==> CarryFree(d1, d2)
  {
    var c := if CarryFree(d1, d2) then 0 else 1;
    var x, y := d1 / TWO16, d2 / TWO16;
    HighOfSum(d1, d2, c);
    Wrap16(v, x, y);
    Wrap16(v, x + y + c, 0);
    OneMore(v + x + y, c);
  }

  lemma OneMore(a: nat, c: nat)
    requires c <= 1
    ensures (a + c) % TWO16 == a % TWO16 <==> c == 0
  {
  }

  /** Relocating by `d1` and then by `d2` is relocating once by their sum, for every image
      and every table of sites that share no byte, exactly when no HIGH site has to carry
      out of the low sixteen bits. */
  lemma RelocationComposes(m: seq<byte>, sites: seq<Site>, d1: nat, d2: nat)
    requires AllInImage(sites, |m|) && NoOverlap(sites) && d1 < TWO64 && d2 < TWO64
    ensures Relocate(Relocate(m, sites, d1), sites, d2) == Relocate(m, sites, (d1 + d2) % TWO64)
      <==> forall i :: 0 <= i < |sites| ==> Additive(sites[i].kind, d1, d2)
  {
    var mid := Relocate(m, sites, d1);
    RelocateWords(m, sites, d1);
    RelocateWords(mid, sites, d2);
    RelocateWords(m, sites, (d1 + d2) % TWO64);
    MovesCompose(m, mid, Relocate(mid, sites, d2), Relocate(m, sites, (d1 + d2) % TWO64), sites, d1, d2);
  }

  lemma MovesCompose(m: seq<byte>, mid: seq<byte>, twice: seq<byte>, once: seq<byte>, sites: seq<Site>, d1: nat, d2: nat)
    requires d1 < TWO64 && d2 < TWO64 && AllInImage(sites, |m|)
    requires Moved(m, mid, sites, d1) && Moved(mid, twice, sites, d2) && Moved(m, once, sites, (d1 + d2) % TWO64)
    ensures twice == once <==> forall i :: 0 <= i < |sites| ==> Additive(sites[i].kind, d1, d2)
  {
    hide Word, Low;
    forall i | 0 <= i < |sites| && Width(sites[i].kind) > 0
      ensures Word(twice, sites[i]) == Word(once, sites[i]) <==> Additive(sites[i].kind, d1, d2)
    {
      assert WordMoved(m, mid, sites[i], d1) && WordMoved(mid, twice, sites[i], d2);
      assert WordMoved(m, once, sites[i], (d1 + d2) % TWO64);
      AddTwice(sites[i].kind, Word(m, sites[i]), d1, d2);
    }
    if forall i :: 0 <= i < |sites| ==> Additive(sites[i].kind, d1, d2) {
      SameWordsSameImage(twice, once, sites);
    }
  }

  lemma SameWordsSameImage(x: seq<byte>, y: seq<byte>, sites: seq<Site>)
    requires |x| == |y| && AllInImage(sites, |x|)
    requires forall a :: 0 <= a < |x| && Uncovered(sites, a) ==> x[a] == y[a]
    requires forall i :: 0 <= i < |sites| && Width(sites[i].kind) > 0 ==> Word(x, sites[i]) == Word(y, sites[i])
    ensures x == y
  {
    forall a | 0 <= a < |x|
      ensures x[a] == y[a]
    {
      if !Uncovered(sites, a) {
        var i :| 0 <= i < |sites| && Covers(sites[i], a);
        SameWordSameByte(x, y, sites[i], a);
      }
    }
  }

  lemma SameWordSameByte(x: seq<byte>, y: seq<byte>, s: Site, a: nat)
    requires |x| == |y| && InImage(s, |x|) && Covers(s, a) && Word(x, s) == Word(y, s)
    ensures x[a] == y[a]
  {
    var r, w := s.rva, Width(s.kind);
    ValueInjective(x[r..r + w], y[r..r + w]);
    assert x[a] == x[r..r + w][a - r] && y[a] == y[r..r + w][a - r];
  }

  /** A HIGH site drops a carry: two moves by 2^15 leave the word alone, the one move by 2^16
      that they add up to does not. */
  lemma HighDropsCarry()
    ensures var m: seq<byte>, sites, d := [0, 0], [Site(0, REL_HIGH)], 0x8000;
      && AllInImage(sites, |m|) && NoOverlap(sites)
      && Relocate(Relocate(m, sites, d), sites, d) != Relocate(m, sites, d + d)
  {
    var m: seq<byte>, sites := [0, 0], [Site(0, REL_HIGH)];
    RelocationComposes(m, sites, 0x8000, 0x8000);
    assert !Additive(sites[0].kind, 0x8000, 0x8000);
  }

  /** A zero delta changes nothing, so the early return agrees with the general loop. */
  lemma {:induction false} ZeroDelta(m: seq<byte>, sites: seq<Site>)
    requires AllInImage(sites, |m|)
    ensures Relocate(m, sites, 0) == m
    decreases |sites|
  {
    if sites != [] {
      var n := |sites| - 1;
      assert AllInImage(sites[..n], |m|);
      ZeroDelta(m, sites[..n]);
      assert InImage(sites[n], |m|);
      ZeroPatch(m, sites[n]);
    }
  }

  lemma ZeroPatch(m: seq<byte>, s: Site)
    requires InImage(s, |m|)
    ensures Patch(m, s, 0) == m
  {
    var r, w := s.rva, Width(s.kind);
    if w > 0 {
      var v := Read(m, r, w);
      LowKeeps(v, w);
      ValueInjective(Encode(v, w), m[r..r + w]);
      assert m == m[..r] + m[r..r + w] + m[r + w..];
    }
  }

  /** Moving the image back undoes the move exactly when it has no HIGH site or the delta
      is a multiple of 2^16. */
  lemma RelocationUndone(m: seq<byte>, sites: seq<Site>, d: nat, back: nat)
    requires AllInImage(sites, |m|) && NoOverlap(sites) && d < TWO64
    requires back == (TWO64 - d) % TWO64
    ensures Relocate(Relocate(m, sites, d), sites, back) == m
      <==> d % TWO16 == 0 || forall i :: 0 <= i < |sites| ==> sites[i].kind != REL_HIGH
  {
    BackCarries(d, back);
    UndoneBy(m, sites, d, back);
  }

  lemma UndoneBy(m: seq<byte>, sites: seq<Site>, d: nat, back: nat)
    requires AllInImage(sites, |m|) && NoOverlap(sites) && d < TWO64 && back < TWO64
    requires (d + back) % TWO64 == 0
    ensures Relocate(Relocate(m, sites, d), sites, back) == m
      <==> CarryFree(d, back) || forall i :: 0 <= i < |sites| ==> sites[i].kind != REL_HIGH
  {
    RelocationComposes(m, sites, d, back);
    ZeroDelta(m, sites);
  }

  lemma BackCarries(d: nat, back: nat)
    requires d < TWO64 && back == (TWO64 - d) % TWO64
    ensures back < TWO64 && (d + back) % TWO64 == 0
    ensures CarryFree(d, back) <==> d % TWO16 == 0
  {
    if d > 0 {
      var h := d / TWO16;
      assert back == TWO16 * (0x1_0000_0000_0000 - h) - d % TWO16;
    }
  }
}
