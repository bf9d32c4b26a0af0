/**
 Whole runs of the kernel heap: allocations, frees of any pointer that was ever
 handed out or lies outside the heap, and clients writing into their own payloads
 without forging a header. `live` is what the clients hold, kept from the answers
 of kmalloc alone.
 */
module HeapRuns {
  import opened Options
  import opened Words
  import opened HeapSpec

  datatype Extent = Extent(count: nat, size: nat)

  type Live = map<nat, Extent>

  // ---------------------------------------------------------------- the invariant

  predicate Within(b: nat, e: Extent, i: int) {
    b <= i < b + e.count
  }

  ghost predicate ExtentsOk(h: Heap, live: Live) {
    && (forall b :: b in live ==> live[b].count == Blocks(live[b].size) && live[b].size > 0 && b + live[b].count <= |h.bits|)
    && (forall a, b, i :: a in live && b in live && Within(a, live[a], i) && Within(b, live[b], i) ==> a == b)
    && (forall i :: 0 <= i < |h.bits| ==> (h.bits[i] <==> exists b :: b in live && Within(b, live[b], i)))
  }

  // The header of block `b` tells what is live there, and no other block looks allocated.
  predicate HeaderOk(h: Heap, live: Live, b: nat)
    requires WellFormed(h) && b < |h.bits|
  {
    if b in live then
      MagicAt(h.mem, b * BLOCK) == MAGIC && BlocksAt(h.mem, b * BLOCK) == live[b].count && SizeAt(h.mem, b * BLOCK) == live[b].size
    else !LooksAllocated(h.mem, b * BLOCK)
  }

  ghost predicate HeadersOk(h: Heap, live: Live)
    requires WellFormed(h)
  {
    forall b :: 0 <= b < |h.bits| ==> HeaderOk(h, live, b)
  }

  // The counters of a heap with `n` live extents.
  predicate CountersOk(h: Heap, n: nat) {
    && h.used == Count(h.bits) && h.used <= h.peak <= |h.bits|
    && U64(h.frees + n) == h.allocs
  }

  /** The heap invariant. The header stores the block count in 32 bits, so heaps of 2^32
      blocks (64 GiB) or more are outside it; TruncatedBlocks shows why. */
  ghost predicate Inv(h: Heap, live: Live) {
    WellFormed(h) && |h.bits| < TWO32 && ExtentsOk(h, live) && HeadersOk(h, live) && CountersOk(h, |live|)
  }

  // ---------------------------------------------------------------- kmalloc

  lemma AllocKeepsInv(h: Heap, live: Live, size: nat, k: nat)
    requires Inv(h, live) && 0 < size < TWO64 && FirstFit(h.bits, Blocks(size)) == Some(k)
    ensures k !in live
    ensures Inv(Alloc(h, size).0, live[k := Extent(Blocks(size), size)])
  {
    AllocExtent(h, size, k, Blocks(size));
    RunNotLive(h, live, k, Blocks(size));
    ExtentAdded(h, Alloc(h, size).0, live, size, k, Blocks(size));
  }

  lemma ExtentAdded(h: Heap, h': Heap, live: Live, size: nat, k: nat, n: nat)
    requires Inv(h, live) && k !in live && IsRun(h.bits, k, n) && n == Blocks(size) && 0 < size < TWO64
    requires WellFormed(h') && k * BLOCK + BLOCK <= |h.mem|
    requires h'.bits == Fill(h.bits, k, k + n) && h'.mem == PutHeader(h.mem, k * BLOCK, MAGIC, n, size)
    requires h'.used == h.used + n && h'.frees == h.frees && h'.allocs == Inc(h.allocs)
    requires h'.peak == if h'.used > h.peak then h'.used else h.peak
    ensures Inv(h', live[k := Extent(n, size)])
  {
    var live' := live[k := Extent(n, size)];
    NewExtent(h, h', live, k, n, size);
    AllocHeaders(h, h', live, live', k, n, size);
    AllocCounters(h, h', |live|, k, n);
    assert |live'| == |live| + 1 by {
      assert live'.Keys == live.Keys + {k};
    }
  }

  lemma RunNotLive(h: Heap, live: Live, k: nat, n: nat)
    requires ExtentsOk(h, live) && IsRun(h.bits, k, n) && n > 0
    ensures k !in live
  {
    assert !h.bits[k];
    if k in live {
      assert Within(k, live[k], k);
    }
  }

  lemma AllocCounters(h: Heap, h': Heap, m: nat, k: nat, n: nat)
    requires CountersOk(h, m) && IsRun(h.bits, k, n)
    requires h'.bits == Fill(h.bits, k, k + n) && h'.used == h.used + n && h'.frees == h.frees
    requires h'.peak == (if h'.used > h.peak then h'.used else h.peak) && h'.allocs == Inc(h.allocs)
    ensures CountersOk(h', m + 1)
  {
    CountFill(h.bits, k, n);
    MoreLive(h.frees, h.allocs, m);
  }

  lemma MoreLive(frees: nat, allocs: nat, n: nat)
    requires U64(frees + n) == allocs
    ensures U64(frees + (n + 1)) == Inc(allocs)
  {
    U64Absorbs(frees + n, 1);
  }

  lemma LessLive(frees: nat, allocs: nat, n: nat)
    requires n > 0 && U64(frees + n) == allocs
    ensures U64(Inc(frees) + (n - 1)) == allocs
  {
    U64Absorbs(frees + 1, n - 1);
  }

  lemma NewExtent(h: Heap, h': Heap, live: Live, k: nat, n: nat, size: nat)
    requires ExtentsOk(h, live) && k !in live && IsRun(h.bits, k, n) && n == Blocks(size) && size > 0
    requires h'.bits == Fill(h.bits, k, k + n)
    ensures ExtentsOk(h', live[k := Extent(n, size)])
  {
    var live' := live[k := Extent(n, size)];
    forall b, i | b in live && Within(b, live[b], i)
      ensures !(k <= i < k + n)
    {
      assert h.bits[i];
    }
    forall i | 0 <= i < |h.bits|
      ensures h'.bits[i] <==> exists b :: b in live' && Within(b, live'[b], i)
    {
      if h.bits[i] {
        var b :| b in live && Within(b, live[b], i);
        assert b in live' && Within(b, live'[b], i);
      } else if k <= i < k + n {
        assert k in live' && Within(k, live'[k], i);
      } else {
        forall b | b in live'
          ensures !Within(b, live'[b], i)
        {
          if b != k {
            assert b in live;
          }
        }
      }
    }
  }

  lemma AllocHeaders(h: Heap, h': Heap, live: Live, live': Live, k: nat, n: nat, size: nat)
    requires WellFormed(h) && WellFormed(h') && HeadersOk(h, live) && h'.bits == Fill(h.bits, k, k + n)
    requires k + n <= |h.bits| < TWO32 && n > 0 && live' == live[k := Extent(n, size)] && |h'.mem| == |h.mem|
    requires h'.mem == PutHeader(h.mem, k * BLOCK, MAGIC, n, size) && size < TWO64
    ensures HeadersOk(h', live')
  {
    HeaderWritten(h.mem, k * BLOCK, MAGIC, n, size);
    forall b | 0 <= b < |h'.bits|
      ensures HeaderOk(h', live', b)
    {
      if b != k {
        assert HeaderOk(h, live, b);
        HeaderKept(h.mem, h'.mem, b * BLOCK);
      }
    }
  }

  // ---------------------------------------------------------------- kfree

  lemma FreeLiveKeepsInv(h: Heap, live: Live, k: nat)
    requires Inv(h, live) && k in live
    ensures Pointer(h, k) < TWO64
    ensures Inv(Free(h, Pointer(h, k)), live - {k})
    ensures Free(h, Pointer(h, k)).bits == Clear(h.bits, k, k + live[k].count)
  {
    LiveHeader(h, live, k);
    FreeExtent(h, k, live[k].count);
    ExtentRemoved(h, Free(h, Pointer(h, k)), live, k, live[k].count);
  }

  lemma ExtentRemoved(h: Heap, h': Heap, live: Live, k: nat, n: nat)
    requires Inv(h, live) && k in live && n == live[k].count && k < |h.bits| && k + n <= |h.bits|
    requires WellFormed(h')
    requires h'.bits == Clear(h.bits, k, k + n) && h'.mem == PutHeader(h.mem, k * BLOCK, 0, 0, 0)
    requires h'.used == h.used - CountIn(h.bits, k, k + n) && h'.frees == Inc(h.frees)
    requires h'.peak == h.peak && h'.allocs == h.allocs
    ensures Inv(h', live - {k})
  {
    GoneExtent(h, h', live, k);
    FreeHeaders(h, h', live, k);
    FreeCounters(h, h', |live|, k, n);
    assert |live - {k}| == |live| - 1 by {
      assert (live - {k}).Keys == live.Keys - {k};
    }
  }

  lemma LiveHeader(h: Heap, live: Live, k: nat)
    requires Inv(h, live) && k in live
    ensures live[k].count > 0 && k + live[k].count <= |h.bits| && h.used == Count(h.bits)
    ensures k * BLOCK + BLOCK <= h.size
    ensures MagicAt(h.mem, k * BLOCK) == MAGIC && BlocksAt(h.mem, k * BLOCK) == live[k].count
    ensures SizeAt(h.mem, k * BLOCK) == live[k].size
  {
    assert HeaderOk(h, live, k);
  }

  // Freeing a block reads the header kmalloc wrote there and clears just that extent.
  lemma FreeExtent(h: Heap, k: nat, n: nat)
    requires WellFormed(h) && h.used == Count(h.bits) && n > 0 && k + n <= |h.bits|
    requires MagicAt(h.mem, k * BLOCK) == MAGIC && BlocksAt(h.mem, k * BLOCK) == n
    ensures Pointer(h, k) < TWO64
    ensures var h' := Free(h, Pointer(h, k));
      && h'.bits == Clear(h.bits, k, k + n) && h'.used == h.used - CountIn(h.bits, k, k + n)
      && h'.mem == PutHeader(h.mem, k * BLOCK, 0, 0, 0)
      && h' == h.(bits := h'.bits, used := h'.used, mem := h'.mem, frees := Inc(h.frees))
  {
    PointerToBlock(h, k);
  }

  lemma FreeCounters(h: Heap, h': Heap, m: nat, k: nat, n: nat)
    requires CountersOk(h, m) && m > 0 && k + n <= |h.bits|
    requires h'.bits == Clear(h.bits, k, k + n) && h'.used == h.used - CountIn(h.bits, k, k + n)
    requires h'.peak == h.peak && h'.allocs == h.allocs && h'.frees == Inc(h.frees)
    ensures CountersOk(h', m - 1)
  {
    CountClear(h.bits, k, k + n);
    LessLive(h.frees, h.allocs, m);
  }

  lemma GoneExtent(h: Heap, h': Heap, live: Live, k: nat)
    requires ExtentsOk(h, live) && k in live
    requires h'.bits == Clear(h.bits, k, k + live[k].count)
    ensures ExtentsOk(h', live - {k})
  {
    var live' := live - {k};
    forall i | 0 <= i < |h.bits|
      ensures h'.bits[i] <==> exists b :: b in live' && Within(b, live'[b], i)
    {
      if h'.bits[i] {
        var b :| b in live && Within(b, live[b], i);
        assert b in live' && Within(b, live'[b], i);
      } else if b :| b in live' && Within(b, live'[b], i) {
        assert b in live && Within(b, live[b], i);
        assert h.bits[i];
        assert Within(k, live[k], i);
        assert false;
      }
    }
  }

  lemma FreeHeaders(h: Heap, h': Heap, live: Live, k: nat)
    requires WellFormed(h) && WellFormed(h') && HeadersOk(h, live) && k in live && k < |h.bits|
    requires |h'.bits| == |h.bits| && h'.mem == PutHeader(h.mem, k * BLOCK, 0, 0, 0)
    ensures HeadersOk(h', live - {k})
  {
    HeaderWritten(h.mem, k * BLOCK, 0, 0, 0);
    forall b | 0 <= b < |h'.bits|
      ensures HeaderOk(h', live - {k}, b)
    {
      if b != k {
        assert HeaderOk(h, live, b);
        HeaderKept(h.mem, h'.mem, b * BLOCK);
      }
    }
  }

  // Pointers at block boundaries of the heap: all that kmalloc ever returns.
  predicate Aligned(h: Heap, ptr: nat)
    requires ptr < TWO64
  {
    InRange(h, HeaderAddress(ptr)) ==>
      (HeaderAddress(ptr) - h.start) % BLOCK == 0 && (HeaderAddress(ptr) - h.start) / BLOCK < |h.bits|
  }

  // The block a pointer inside the heap names.
  function BlockOf(h: Heap, ptr: nat): nat
    requires ptr < TWO64 && InRange(h, HeaderAddress(ptr))
  {
    (HeaderAddress(ptr) - h.start) / BLOCK
  }

  // The block of a pointer that kmalloc returned.
  function BlockNumber(h: Heap, ptr: nat): nat {
    if ptr < h.start + BLOCK then 0 else (ptr - BLOCK - h.start) / BLOCK
  }

  lemma BlockNumberOfPointer(h: Heap, k: nat)
    ensures BlockNumber(h, Pointer(h, k)) == k
  {
  }

  predicate IsLive(h: Heap, live: Live, ptr: nat)
    requires ptr < TWO64
  {
    ptr != 0 && InRange(h, HeaderAddress(ptr)) && BlockOf(h, ptr) in live
  }

  /** Freeing a pointer that is dead, or outside the heap, changes no bit and no byte: it
      is counted as invalid, or ignored when null. */
  lemma FreeDeadIsHarmless(h: Heap, live: Live, ptr: nat)
    requires Inv(h, live) && ptr < TWO64 && Aligned(h, ptr) && !IsLive(h, live, ptr)
    ensures Free(h, ptr) == if ptr == 0 then h else h.(invalid := Inc(h.invalid))
  {
    if ptr != 0 && InRange(h, HeaderAddress(ptr)) {
      assert HeaderOk(h, live, BlockOf(h, ptr));
    }
  }

  /** For any 64-bit pointer at all, aligned or not: a free changes neither bits nor memory
      exactly when the pointer is null, lies outside the heap, or has no header in front. */
  lemma FreeIsHarmlessIff(h: Heap, ptr: nat)
    requires WellFormed(h) && h.used == Count(h.bits) && ptr < TWO64
    ensures Free(h, ptr).bits == h.bits && Free(h, ptr).mem == h.mem
      <==> ptr == 0 || !InRange(h, HeaderAddress(ptr)) || !LooksAllocated(h.mem, HeaderAddress(ptr) - h.start)
  {
    if ptr != 0 && InRange(h, HeaderAddress(ptr)) && LooksAllocated(h.mem, HeaderAddress(ptr) - h.start) {
      HeaderWritten(h.mem, HeaderAddress(ptr) - h.start, 0, 0, 0);
    }
  }

  // ---------------------------------------------------------------- client writes

  // Writing `data` at byte `off` of live block `b`.
  function Poke(h: Heap, b: nat, off: nat, data: seq<byte>): (h': Heap)
    requires WellFormed(h) && b * BLOCK + off + |data| <= |h.mem|
    ensures WellFormed(h')
  {
    var at := b * BLOCK + off;
    h.(mem := h.mem[..at] + data + h.mem[at + |data|..])
  }

  // A client stays inside its payload and leaves no block of it looking like a header.
  predicate OwnPayload(h: Heap, live: Live, b: nat, off: nat, data: seq<byte>)
    requires WellFormed(h)
  {
    && b in live && BLOCK <= off && off + |data| <= BLOCK + live[b].size
    && b + live[b].count <= |h.bits| && live[b].count == Blocks(live[b].size)
    && forall c :: b < c < b + live[b].count ==> !LooksAllocated(Poke(h, b, off, data).mem, c * BLOCK)
  }

  lemma PokeKeepsInv(h: Heap, live: Live, b: nat, off: nat, data: seq<byte>)
    requires Inv(h, live) && OwnPayload(h, live, b, off, data)
    ensures Inv(Poke(h, b, off, data), live)
  {
    forall c | 0 <= c < |h.bits|
      ensures HeaderOk(Poke(h, b, off, data), live, c)
    {
      PokedHeader(h, live, b, off, data, c);
    }
  }

  lemma PokedHeader(h: Heap, live: Live, b: nat, off: nat, data: seq<byte>, c: nat)
    requires WellFormed(h) && ExtentsOk(h, live) && OwnPayload(h, live, b, off, data)
    requires c < |h.bits| && HeaderOk(h, live, c)
    ensures HeaderOk(Poke(h, b, off, data), live, c)
  {
    if b < c < b + live[b].count {
      assert Within(b, live[b], c);
      assert c in live ==> Within(c, live[c], c);
    } else {
      HeaderKept(h.mem, Poke(h, b, off, data).mem, c * BLOCK);
    }
  }

  // ---------------------------------------------------------------- runs

  datatype Op = Malloc(size: nat) | Release(ptr: nat) | Store(b: nat, off: nat, data: seq<byte>)

  predicate Legal(h: Heap, live: Live, op: Op)
    requires WellFormed(h)
  {
    match op
    case Malloc(size) => size < TWO64
    case Release(ptr) => ptr < TWO64 && Aligned(h, ptr)
    case Store(b, off, data) => OwnPayload(h, live, b, off, data)
  }

  ghost function Step(h: Heap, live: Live, op: Op): (Heap, Live)
    requires Inv(h, live) && Legal(h, live, op)
  {
    match op
    case Malloc(size) =>
      var (h', ptr) := Alloc(h, size);
      (h', if ptr == 0 then live else live[BlockNumber(h, ptr) := Extent(Blocks(size), size)])
    case Release(ptr) =>
      (Free(h, ptr), if IsLive(h, live, ptr) then live - {BlockOf(h, ptr)} else live)
    case Store(b, off, data) => (Poke(h, b, off, data), live)
  }

  lemma StepKeepsInv(h: Heap, live: Live, op: Op)
    requires Inv(h, live) && Legal(h, live, op)
    ensures Inv(Step(h, live, op).0, Step(h, live, op).1)
  {
    match op
    case Malloc(size) => MallocKeepsInv(h, live, size);
    case Release(ptr) => ReleaseKeepsInv(h, live, ptr);
    case Store(b, off, data) => PokeKeepsInv(h, live, b, off, data);
  }

  lemma MallocKeepsInv(h: Heap, live: Live, size: nat)
    requires Inv(h, live) && size < TWO64
    ensures Inv(Step(h, live, Malloc(size)).0, Step(h, live, Malloc(size)).1)
  {
    if size > 0 {
      var fit := FirstFit(h.bits, Blocks(size));
      if fit.Some? {
        AllocKeepsInv(h, live, size, fit.value);
        AllocExtent(h, size, fit.value, Blocks(size));
        BlockNumberOfPointer(h, fit.value);
      } else {
        FailureKeepsInv(h, Alloc(h, size).0, live);
      }
    }
  }

  lemma ReleaseKeepsInv(h: Heap, live: Live, ptr: nat)
    requires Inv(h, live) && ptr < TWO64 && Aligned(h, ptr)
    ensures Inv(Step(h, live, Release(ptr)).0, Step(h, live, Release(ptr)).1)
  {
    if IsLive(h, live, ptr) {
      var k := BlockOf(h, ptr);
      assert Pointer(h, k) == ptr;
      FreeLiveKeepsInv(h, live, k);
    } else {
      FreeDeadIsHarmless(h, live, ptr);
      FailureKeepsInv(h, Free(h, ptr), live);
    }
  }

  lemma FailureKeepsInv(h: Heap, h': Heap, live: Live)
    requires Inv(h, live) && h' == h.(failed := h'.failed, invalid := h'.invalid)
    ensures Inv(h', live)
  {
    forall b | 0 <= b < |h'.bits|
      ensures HeaderOk(h', live, b)
    {
      assert HeaderOk(h, live, b);
    }
  }

  /** A run reaches `(h', live')` through legal steps. */
  ghost predicate Reaches(h: Heap, live: Live, run: seq<Op>, h': Heap, live': Live)
    requires Inv(h, live)
    decreases |run|
  {
    if run == [] then h' == h && live' == live
    else
      Legal(h, live, run[0])
      && (StepKeepsInv(h, live, run[0]);
          var (h1, live1) := Step(h, live, run[0]);
          Reaches(h1, live1, run[1..], h', live'))
  }

  lemma {:induction false} RunKeepsInv(h: Heap, live: Live, run: seq<Op>, h': Heap, live': Live)
    requires Inv(h, live) && Reaches(h, live, run, h', live')
    ensures Inv(h', live')
    decreases |run|
  {
    if run != [] {
      StepKeepsInv(h, live, run[0]);
      var (h1, live1) := Step(h, live, run[0]);
      RunKeepsInv(h1, live1, run[1..], h', live');
    }
  }

  ghost predicate Fresh(h: Heap) {
    && WellFormed(h) && |h.bits| < TWO32
    && (forall i :: 0 <= i < |h.bits| ==> !h.bits[i])
    && (forall b :: 0 <= b < |h.bits| ==> !LooksAllocated(h.mem, b * BLOCK))
    && h.used == 0 && h.peak == 0 && h.allocs == 0 && h.frees == 0
  }

  lemma FreshInv(h: Heap)
    requires Fresh(h)
    ensures Inv(h, map[])
  {
    CountZero(h.bits);
    forall b | 0 <= b < |h.bits|
      ensures HeaderOk(h, map[], b)
    {
      assert !LooksAllocated(h.mem, b * BLOCK);
    }
  }

  /** Over every run from a fresh heap: live extents are in range, large enough and
      pairwise disjoint, and the set bits are exactly their union. */
  lemma HeapSafety(h: Heap, run: seq<Op>, h': Heap, live: Live)
    requires Fresh(h) && (FreshInv(h); Reaches(h, map[], run, h', live))
    ensures forall b :: b in live ==> b + live[b].count <= |h'.bits| && live[b].size + 16 <= 16 * live[b].count
    ensures forall a, b, i :: a in live && b in live && Within(a, live[a], i) && Within(b, live[b], i) ==> a == b
    ensures forall i :: 0 <= i < |h'.bits| ==> (h'.bits[i] <==> exists b :: b in live && Within(b, live[b], i))
  {
    FreshInv(h);
    RunKeepsInv(h, map[], run, h', live);
  }

  /** Over every run from a fresh heap: used_blocks is the number of set bits, the peak
      bounds it, and alloc_count is free_count plus the number of live extents, in 64 bits. */
  lemma HeapAccounting(h: Heap, run: seq<Op>, h': Heap, live: Live)
    requires Fresh(h) && (FreshInv(h); Reaches(h, map[], run, h', live))
    ensures h'.used == Count(h'.bits) <= h'.peak <= |h'.bits|
    ensures h'.allocs == U64(h'.frees + |live|) && |live| <= |h'.bits| < TWO32
  {
    hide ExtentsOk, HeadersOk, Fresh;
    FreshInv(h);
    RunKeepsInv(h, map[], run, h', live);
    LiveFits(h', live);
  }

  /** What a run did, told from outside: requests granted and refused, frees of live and of
      other pointers, and the most blocks that were in use at a time. */
  datatype Tally = Tally(granted: nat, refused: nat, released: nat, invalid: nat, highest: nat)

  // What one call adds to the tally.
  ghost function OneCall(h: Heap, live: Live, op: Op): Tally
    requires Inv(h, live) && Legal(h, live, op)
  {
    var none := Tally(0, 0, 0, 0, Count(h.bits));
    match op
    case Malloc(size) =>
      if size == 0 then none
      else if exists k: nat :: IsRun(h.bits, k, Blocks(size)) then none.(granted := 1) else none.(refused := 1)
    case Release(ptr) =>
      if ptr == 0 then none else if IsLive(h, live, ptr) then none.(released := 1) else none.(invalid := 1)
    case Store(_, _, _) => none
  }

  function Higher(x: nat, y: nat): nat { if x > y then x else y }

  function Sum(s: Tally, t: Tally): Tally {
    Tally(s.granted + t.granted, s.refused + t.refused, s.released + t.released, s.invalid + t.invalid,
          Higher(s.highest, t.highest))
  }

  // The tally of a run, up to its first call that is not legal.
  ghost function TallyOf(h: Heap, live: Live, run: seq<Op>): (t: Tally)
    requires Inv(h, live)
    ensures t.highest >= Count(h.bits)
    decreases |run|
  {
    if run == [] || !Legal(h, live, run[0]) then Tally(0, 0, 0, 0, Count(h.bits))
    else
      StepKeepsInv(h, live, run[0]);
      var (h1, live1) := Step(h, live, run[0]);
      Sum(OneCall(h, live, run[0]), TallyOf(h1, live1, run[1..]))
  }

  predicate CountersFit(h: Heap) {
    h.allocs < TWO64 && h.frees < TWO64 && h.failed < TWO64 && h.invalid < TWO64
  }

  ghost predicate Counted(h: Heap, h': Heap, t: Tally) {
    && h'.allocs == U64(h.allocs + t.granted) && h'.failed == U64(h.failed + t.refused)
    && h'.frees == U64(h.frees + t.released) && h'.invalid == U64(h.invalid + t.invalid)
    && h'.peak == Higher(h.peak, t.highest)
  }

  // The counters that one call moves.
  lemma StepCounts(h: Heap, live: Live, op: Op)
    requires Inv(h, live) && Legal(h, live, op) && CountersFit(h)
    ensures Counted(h, Step(h, live, op).0, OneCall(h, live, op).(highest := Count(Step(h, live, op).0.bits)))
    ensures CountersFit(Step(h, live, op).0)
  {
    hide HeadersOk, ExtentsOk, Alloc, Free, IsLive;
    match op
    case Malloc(size) => MallocCounts(h, live, size);
    case Release(ptr) => ReleaseCounts(h, live, ptr);
    case Store(b, off, data) =>
  }

  lemma MallocCounts(h: Heap, live: Live, size: nat)
    requires Inv(h, live) && size < TWO64
    ensures var h1 := Alloc(h, size).0;
      var fits := exists k: nat :: IsRun(h.bits, k, Blocks(size));
      && h1.allocs == (if size > 0 && fits then Inc(h.allocs) else h.allocs)
      && h1.failed == (if size > 0 && !fits then Inc(h.failed) else h.failed)
      && h1.frees == h.frees && h1.invalid == h.invalid
      && h1.peak == if Count(h1.bits) > h.peak then Count(h1.bits) else h.peak
  {
    hide HeadersOk, ExtentsOk, PutHeader, Fill, Count;
    if size > 0 {
      var fit := FirstFit(h.bits, Blocks(size));
      if fit.Some? {
        AllocExtent(h, size, fit.value, Blocks(size));
        CountFill(h.bits, fit.value, Blocks(size));
      }
    }
  }

  lemma ReleaseCounts(h: Heap, live: Live, ptr: nat)
    requires Inv(h, live) && ptr < TWO64 && Aligned(h, ptr)
    ensures var h1 := Free(h, ptr);
      && h1.allocs == h.allocs && h1.failed == h.failed && h1.peak == h.peak && Count(h1.bits) <= h.peak
      && h1.frees == (if ptr != 0 && IsLive(h, live, ptr) then Inc(h.frees) else h.frees)
      && h1.invalid == if ptr != 0 && !IsLive(h, live, ptr) then Inc(h.invalid) else h.invalid
  {
    hide HeadersOk, ExtentsOk, PutHeader, Clear, Count, CountIn;
    if IsLive(h, live, ptr) {
      var k := BlockOf(h, ptr);
      LiveHeader(h, live, k);
      assert Pointer(h, k) == ptr;
      FreeExtent(h, k, live[k].count);
      CountClear(h.bits, k, k + live[k].count);
    } else {
      FreeDeadIsHarmless(h, live, ptr);
    }
  }

  lemma CountedChain(h: Heap, h1: Heap, h2: Heap, s: Tally, t: Tally)
    requires Counted(h, h1, s.(highest := Count(h1.bits))) && Counted(h1, h2, t)
    requires s.highest <= h.peak && t.highest >= Count(h1.bits)
    ensures Counted(h, h2, Sum(s, t))
  {
    hide U64, Count;
    U64Absorbs(h.allocs + s.granted, t.granted);
    U64Absorbs(h.failed + s.refused, t.refused);
    U64Absorbs(h.frees + s.released, t.released);
    U64Absorbs(h.invalid + s.invalid, t.invalid);
  }

  /** Over every run the counters tell what happened: every request for at least one byte is
      counted as granted or failed, every free of a pointer as carried out or invalid, and
      the peak is the most blocks ever in use. */
  lemma {:induction false} CountersTally(h: Heap, live: Live, run: seq<Op>, h': Heap, live': Live)
    requires Inv(h, live) && Reaches(h, live, run, h', live') && CountersFit(h)
    ensures Counted(h, h', TallyOf(h, live, run))
    decreases |run|
  {
    hide IsRun, ExtentsOk, HeadersOk, Legal, Step, Counted, OneCall, Sum;
    if run == [] {
      NothingCounted(h);
    } else {
      StepKeepsInv(h, live, run[0]);
      var (h1, live1) := Step(h, live, run[0]);
      StepCounts(h, live, run[0]);
      CountersTally(h1, live1, run[1..], h', live');
      OneCallHighest(h, live, run[0]);
      CountedChain(h, h1, h', OneCall(h, live, run[0]), TallyOf(h1, live1, run[1..]));
    }
  }

  lemma NothingCounted(h: Heap)
    requires CountersFit(h) && Count(h.bits) <= h.peak
    ensures Counted(h, h, Tally(0, 0, 0, 0, Count(h.bits)))
  {
  }

  lemma OneCallHighest(h: Heap, live: Live, op: Op)
    requires Inv(h, live) && Legal(h, live, op)
    ensures OneCall(h, live, op).highest <= h.peak
  {
  }

  // There are no more live extents than blocks.
  lemma LiveFits(h: Heap, live: Live)
    requires Inv(h, live)
    ensures |live| <= |h.bits|
  {
    var all := set i {:trigger h.bits[i]} | 0 <= i < |h.bits|;
    forall b | b in live
      ensures b in all
    {
      assert Within(b, live[b], b);
    }
    assert live.Keys <= all;
    SubsetSize(live.Keys, |h.bits|);
  }

  lemma {:induction false} SubsetSize(s: set<nat>, n: nat)
    requires forall x :: x in s ==> x < n
    ensures |s| <= n
  {
    if n > 0 {
      SubsetSize(s - {n - 1}, n - 1);
    } else {
      assert s == {};
    }
  }

  /** ksize of a live pointer is the size that was asked for. */
  lemma SizeOfLive(h: Heap, live: Live, k: nat)
    requires Inv(h, live) && k in live
    ensures Pointer(h, k) < TWO64 && InRange(h, HeaderAddress(Pointer(h, k)))
    ensures SizeOf(h, Pointer(h, k)) == live[k].size
  {
    LiveHeader(h, live, k);
    PointerToBlock(h, k);
  }

  /** And zero once it was freed. */
  lemma SizeAfterFree(h: Heap, live: Live, k: nat)
    requires Inv(h, live) && k in live
    ensures var ptr := Pointer(h, k);
      && ptr < TWO64 && InRange(h, HeaderAddress(ptr)) && h.used == Count(h.bits)
      && InRange(Free(h, ptr), HeaderAddress(ptr)) && SizeOf(Free(h, ptr), ptr) == 0
  {
    hide HeadersOk, ExtentsOk, PutHeader, Clear, CountIn, Count;
    LiveHeader(h, live, k);
    PointerToBlock(h, k);
    FreeExtent(h, k, live[k].count);
    HeaderWritten(h.mem, k * BLOCK, 0, 0, 0);
  }

  /** Allocating and freeing others never touches a byte of a live payload. */
  lemma PayloadKept(h: Heap, live: Live, op: Op, b: nat, i: nat)
    requires Inv(h, live) && Legal(h, live, op) && !op.Store?
    requires b in live && b in Step(h, live, op).1
    requires BLOCK <= i < live[b].count * BLOCK
    ensures b * BLOCK + i < |h.mem| && Step(h, live, op).0.mem[b * BLOCK + i] == h.mem[b * BLOCK + i]
  {
    match op
    case Malloc(size) =>
      if size > 0 && FirstFit(h.bits, Blocks(size)).Some? {
        var k := FirstFit(h.bits, Blocks(size)).value;
        AllocExtent(h, size, k, Blocks(size));
        assert !h.bits[k];
        OutsideHeader(h, live, b, i, k);
        HeaderWritten(h.mem, k * BLOCK, MAGIC, Blocks(size), size);
      }
    case Release(ptr) =>
      if IsLive(h, live, ptr) {
        var k := BlockOf(h, ptr);
        LiveHeader(h, live, k);
        assert Pointer(h, k) == ptr;
        FreeExtent(h, k, live[k].count);
        assert Within(k, live[k], k);
        OutsideHeader(h, live, b, i, k);
        HeaderWritten(h.mem, k * BLOCK, 0, 0, 0);
      } else {
        FreeDeadIsHarmless(h, live, ptr);
      }
  }

  // Along the run the extent stays live and its client stores nothing.
  ghost predicate Spares(h: Heap, live: Live, run: seq<Op>, b: nat)
    requires Inv(h, live)
    decreases |run|
  {
    && b in live
    && (run == [] ||
        (Legal(h, live, run[0]) && !(run[0].Store? && run[0].b == b)
         && (StepKeepsInv(h, live, run[0]);
             var (h1, live1) := Step(h, live, run[0]);
             Spares(h1, live1, run[1..], b))))
  }

  /** Over a whole run, whatever others allocate, free and store, the payload of an extent
      that stays live and is not stored to keeps every byte. */
  lemma {:induction false} PayloadKeptOverRun(h: Heap, live: Live, run: seq<Op>, h': Heap, live': Live, b: nat, i: nat)
    requires Inv(h, live) && Reaches(h, live, run, h', live') && Spares(h, live, run, b)
    requires BLOCK <= i < live[b].count * BLOCK
    ensures b in live' && live'[b] == live[b]
    ensures b * BLOCK + i < |h.mem| == |h'.mem| && h'.mem[b * BLOCK + i] == h.mem[b * BLOCK + i]
    decreases |run|
  {
    if run == [] {
      assert Within(b, live[b], b);
      assert live[b].count * BLOCK + b * BLOCK <= |h.bits| * BLOCK <= h.size;
    } else {
      StepKeepsInv(h, live, run[0]);
      var (h1, live1) := Step(h, live, run[0]);
      ExtentStays(h, live, run[0], b);
      if run[0].Store? {
        StoreElsewhere(h, live, run[0], b, i);
      } else {
        PayloadKept(h, live, run[0], b, i);
      }
      PayloadKeptOverRun(h1, live1, run[1..], h', live', b, i);
    }
  }

  lemma ExtentStays(h: Heap, live: Live, op: Op, b: nat)
    requires Inv(h, live) && Legal(h, live, op) && b in live && b in Step(h, live, op).1
    ensures Step(h, live, op).1[b] == live[b] && |Step(h, live, op).0.mem| == |h.mem|
  {
    if op.Malloc? && op.size > 0 && FirstFit(h.bits, Blocks(op.size)).Some? {
      var k := FirstFit(h.bits, Blocks(op.size)).value;
      AllocKeepsInv(h, live, op.size, k);
      BlockNumberOfPointer(h, k);
    }
  }

  lemma StoreElsewhere(h: Heap, live: Live, op: Op, b: nat, i: nat)
    requires Inv(h, live) && op.Store? && Legal(h, live, op) && b in live && b != op.b
    requires BLOCK <= i < live[b].count * BLOCK
    ensures b * BLOCK + i < |h.mem| && Step(h, live, op).0.mem[b * BLOCK + i] == h.mem[b * BLOCK + i]
  {
    var at := b * BLOCK + i;
    assert live[b].count * BLOCK + b * BLOCK <= |h.bits| * BLOCK <= h.size;
    if op.b * BLOCK + op.off <= at < op.b * BLOCK + op.off + |op.data| {
      var j := at / BLOCK;
      assert Within(b, live[b], j) && Within(op.b, live[op.b], j);
    }
  }

  // A payload byte lies in no other block's header.
  lemma OutsideHeader(h: Heap, live: Live, b: nat, i: nat, k: nat)
    requires Inv(h, live) && b in live && BLOCK <= i < live[b].count * BLOCK && k < |h.bits|
    requires !h.bits[k] || (k in live && k != b && Within(k, live[k], k))
    ensures !(k * BLOCK <= b * BLOCK + i < k * BLOCK + BLOCK)
  {
    if k * BLOCK <= b * BLOCK + i < k * BLOCK + BLOCK {
      assert Within(b, live[b], k);
    }
  }

  /** Freeing what was just allocated restores the bitmap exactly when the block count fits
      the header's 32-bit field: a larger request leaks the blocks that do not. */
  lemma TruncatedBlocks(h: Heap, size: nat, h1: Heap, ptr: nat)
    requires WellFormed(h) && h.used == Count(h.bits) && 0 < size < TWO64
    requires Alloc(h, size) == (h1, ptr) && ptr != 0
    ensures WellFormed(h1) && h1.used == Count(h1.bits) && ptr < TWO64
    ensures Free(h1, ptr).bits == h.bits <==> Blocks(size) < TWO32
  {
    var k := FirstFit(h.bits, Blocks(size)).value;
    AllocExtent(h, size, k, Blocks(size));
    NewHeader(h, h1, size, k, Blocks(size));
    FreeAfterAlloc(h.bits, h1, k, Blocks(size), ptr);
  }

  // A heap of `n` free blocks.
  function FreeHeap(n: nat): Heap
    requires n * BLOCK + 2 * BLOCK < TWO64 - 1
  {
    Heap(1, n * BLOCK, seq(n, _ => false), seq(n * BLOCK + BLOCK, _ => 0), 0, 0, 0, 0, 0, 0)
  }

  /** A heap of 2^32 blocks that are all allocated at once: the free that follows gives back
      none of them. */
  lemma WholeHeapLeaks()
    ensures var h, size := FreeHeap(TWO32), TWO32 * BLOCK - BLOCK;
      var (h1, ptr) := Alloc(h, size);
      && ptr != 0 && ptr < TWO64 && WellFormed(h1) && h1.used == Count(h1.bits)
      && Free(h1, ptr).bits != h.bits && Free(h1, ptr).used == TWO32
  {
    var h, size: nat := FreeHeap(TWO32), TWO32 * BLOCK - BLOCK;
    CountZero(h.bits);
    assert Blocks(size) == TWO32;
    assert IsRun(h.bits, 0, TWO32);
    assert FirstFit(h.bits, TWO32) == Some(0);
    var (h1, ptr) := Alloc(h, size);
    TruncatedBlocks(h, size, h1, ptr);
    NewHeader(h, h1, size, 0, TWO32);
    PointerToBlock(h1, 0);
    assert BlocksAt(h1.mem, 0) == 0;
  }

  lemma NewHeader(h: Heap, h1: Heap, size: nat, k: nat, n: nat)
    requires h.used == Count(h.bits) && IsRun(h.bits, k, n) && h1.used == h.used + n && size < TWO64
    requires h1.bits == Fill(h.bits, k, k + n)
    requires k * BLOCK + BLOCK <= |h.mem| && h1.mem == PutHeader(h.mem, k * BLOCK, MAGIC, n, size)
    ensures h1.used == Count(h1.bits)
    ensures MagicAt(h1.mem, k * BLOCK) == MAGIC && BlocksAt(h1.mem, k * BLOCK) == U32(n)
  {
    CountFill(h.bits, k, n);
    HeaderWritten(h.mem, k * BLOCK, MAGIC, n, size);
  }

  lemma FreeAfterAlloc(bits: seq<bool>, h: Heap, k: nat, n: nat, ptr: nat)
    requires ptr == Pointer(h, k) && WellFormed(h) && h.used == Count(h.bits) && n > 0 && IsRun(bits, k, n)
    requires h.bits == Fill(bits, k, k + n)
    requires MagicAt(h.mem, k * BLOCK) == MAGIC && BlocksAt(h.mem, k * BLOCK) == U32(n)
    ensures ptr < TWO64
    ensures Free(h, ptr).bits == bits <==> n < TWO32
  {
    if n < TWO32 {
      FreeExtent(h, k, n);
      assert Clear(h.bits, k, k + n) == bits;
    } else {
      assert !bits[k + n - 1];
      FreeLeaks(h, k, n);
    }
  }

  lemma FreeLeaks(h: Heap, k: nat, n: nat)
    requires WellFormed(h) && h.used == Count(h.bits) && k + n <= |h.bits| && n > 0 && h.bits[k + n - 1]
    requires BlocksAt(h.mem, k * BLOCK) < n
    ensures Pointer(h, k) < TWO64 && Free(h, Pointer(h, k)).bits[k + n - 1]
  {
    PointerToBlock(h, k);
  }
}
