/**
 What the kernel heap does, as functions on its visible state: the bitmap as a
 sequence of bits, the heap memory with its in-band headers, and the counters.
 The class in KernelHeap refines these functions; the results about whole runs
 are proved here.
 */
module HeapSpec {
  import opened Options
  import opened Words

  const BLOCK := 16
  const MAGIC: nat := 0xC0DE_C0DE

  datatype Heap = Heap(start: nat, size: nat, bits: seq<bool>, mem: seq<byte>, used: nat, peak: nat,
                       allocs: nat, frees: nat, failed: nat, invalid: nat)

  // The memory is the heap's range and the sixteen bytes behind it, which a free of a
  // pointer to the very end reads.
  predicate WellFormed(h: Heap) {
    && |h.bits| == h.size / BLOCK && h.size + BLOCK <= |h.mem|
    && 0 < h.start && h.start + |h.mem| < TWO64
  }

  // A 64-bit counter.
  function Inc(x: nat): nat { U64(x + 1) }

  // ---------------------------------------------------------------- bits

  function Count(bits: seq<bool>): (n: nat)
    ensures n <= |bits|
  {
    if bits == [] then 0 else Count(bits[..|bits| - 1]) + if bits[|bits| - 1] then 1 else 0
  }

  // The set bits in [lo, hi).
  function CountIn(bits: seq<bool>, lo: nat, hi: nat): (n: nat)
    requires hi <= |bits|
    decreases hi
  {
    if hi <= lo then 0 else CountIn(bits, lo, hi - 1) + if bits[hi - 1] then 1 else 0
  }

  function Fill(bits: seq<bool>, lo: nat, hi: nat): (b: seq<bool>)
    ensures |b| == |bits|
  {
    seq(|bits|, i requires 0 <= i < |bits| => bits[i] || lo <= i < hi)
  }

  function Clear(bits: seq<bool>, lo: nat, hi: nat): (b: seq<bool>)
    ensures |b| == |bits|
  {
    seq(|bits|, i requires 0 <= i < |bits| => bits[i] && !(lo <= i < hi))
  }

  lemma {:induction false} CountClear(bits: seq<bool>, lo: nat, hi: nat)
    requires hi <= |bits|
    ensures Count(Clear(bits, lo, hi)) == Count(bits) - CountIn(bits, lo, hi)
    decreases |bits|
  {
    if bits != [] {
      var n := |bits| - 1;
      var front := bits[..n];
      assert Clear(bits, lo, hi)[..n] == Clear(front, lo, if hi <= n then hi else n);
      if hi <= n {
        CountClear(front, lo, hi);
        CountInPrefix(bits, lo, hi, n);
      } else {
        CountClear(front, lo, n);
        CountInPrefix(bits, lo, n, n);
      }
    }
  }

  lemma {:induction false} CountInPrefix(bits: seq<bool>, lo: nat, hi: nat, n: nat)
    requires hi <= n <= |bits|
    ensures CountIn(bits[..n], lo, hi) == CountIn(bits, lo, hi)
    decreases hi
  {
    if hi > lo {
      CountInPrefix(bits, lo, hi - 1, n);
    }
  }

  lemma {:induction false} CountInAll(bits: seq<bool>, lo: nat, hi: nat)
    requires lo <= hi <= |bits| && forall i :: lo <= i < hi ==> bits[i]
    ensures CountIn(bits, lo, hi) == hi - lo
    decreases hi
  {
    if hi > lo {
      CountInAll(bits, lo, hi - 1);
    }
  }

  lemma CountFill(bits: seq<bool>, k: nat, n: nat)
    requires IsRun(bits, k, n)
    ensures Count(Fill(bits, k, k + n)) == Count(bits) + n
  {
    var full := Fill(bits, k, k + n);
    assert Clear(full, k, k + n) == bits;
    CountClear(full, k, k + n);
    CountInAll(full, k, k + n);
  }

  lemma {:induction false} CountZero(bits: seq<bool>)
    requires forall i :: 0 <= i < |bits| ==> !bits[i]
    ensures Count(bits) == 0
    decreases |bits|
  {
    if bits != [] {
      CountZero(bits[..|bits| - 1]);
    }
  }

  // ---------------------------------------------------------------- first fit

  predicate IsRun(bits: seq<bool>, k: nat, n: nat) {
    k + n <= |bits| && forall j :: k <= j < k + n ==> !bits[j]
  }

  // The lowest run of `n` free blocks, looking from `k` on.
  function FirstFitFrom(bits: seq<bool>, n: nat, k: nat): (r: Option<nat>)
    requires k <= |bits|
    ensures r.Some? ==> k <= r.value && IsRun(bits, r.value, n) && forall j :: k <= j < r.value ==> !IsRun(bits, j, n)
    ensures r.None? ==> forall j :: k <= j ==> !IsRun(bits, j, n)
    decreases |bits| - k
  {
    if IsRun(bits, k, n) then Some(k)
    else if k == |bits| then None
    else FirstFitFrom(bits, n, k + 1)
  }

  function FirstFit(bits: seq<bool>, n: nat): Option<nat> {
    FirstFitFrom(bits, n, 0)
  }

  // Blocks for a payload of `size` bytes behind its header, in unbounded arithmetic.
  function Blocks(size: nat): nat {
    (size + BLOCK + BLOCK - 1) / BLOCK
  }

  // ---------------------------------------------------------------- headers

  function PutHeader(mem: seq<byte>, at: nat, magic: nat, blocks: nat, size: nat): (m: seq<byte>)
    requires at + BLOCK <= |mem|
    ensures |m| == |mem|
  {
    Write(Write(Write(mem, at, 4, magic), at + 4, 4, blocks), at + 8, 8, size)
  }

  function MagicAt(mem: seq<byte>, at: nat): nat
    requires at + BLOCK <= |mem|
  {
    Read(mem, at, 4)
  }

  function BlocksAt(mem: seq<byte>, at: nat): nat
    requires at + BLOCK <= |mem|
  {
    Read(mem, at + 4, 4)
  }

  function SizeAt(mem: seq<byte>, at: nat): nat
    requires at + BLOCK <= |mem|
  {
    Read(mem, at + 8, 8)
  }

  predicate LooksAllocated(mem: seq<byte>, at: nat)
    requires at + BLOCK <= |mem|
  {
    MagicAt(mem, at) == MAGIC && BlocksAt(mem, at) != 0
  }

  lemma HeaderWritten(mem: seq<byte>, at: nat, magic: nat, blocks: nat, size: nat)
    requires at + BLOCK <= |mem| && magic < TWO32 && size < TWO64
    ensures var m := PutHeader(mem, at, magic, blocks, size);
      && MagicAt(m, at) == magic && BlocksAt(m, at) == U32(blocks) && SizeAt(m, at) == size
      && forall i :: 0 <= i < |mem| && !(at <= i < at + BLOCK) ==> m[i] == mem[i]
  {
    var m1 := Write(mem, at, 4, magic);
    var m2 := Write(m1, at + 4, 4, blocks);
    ReadWritten(mem, at, 4, magic);
    ReadWritten(m1, at + 4, 4, blocks);
    ReadWritten(m2, at + 8, 8, size);
    ReadApart(m1, at + 4, 4, blocks, at, 4);
    ReadApart(m2, at + 8, 8, size, at, 4);
    ReadApart(m2, at + 8, 8, size, at + 4, 4);
    LowIsTruncation(magic, 4);
    LowIsTruncation(blocks, 4);
    LowIsTruncation(size, 8);
  }

  // A header elsewhere reads as before when its bytes did not change.
  lemma HeaderKept(m: seq<byte>, m': seq<byte>, at: nat)
    requires |m| == |m'| && at + BLOCK <= |m|
    requires forall i :: at <= i < at + BLOCK ==> m'[i] == m[i]
    ensures MagicAt(m', at) == MagicAt(m, at) && BlocksAt(m', at) == BlocksAt(m, at) && SizeAt(m', at) == SizeAt(m, at)
  {
    assert m'[at..at + 4] == m[at..at + 4];
    assert m'[at + 4..at + 8] == m[at + 4..at + 8];
    assert m'[at + 8..at + 16] == m[at + 8..at + 16];
  }

  // ---------------------------------------------------------------- the operations

  function Pointer(h: Heap, block: nat): nat {
    h.start + block * BLOCK + BLOCK
  }

  /** kmalloc: the new heap and the payload address, 0 for none. */
  function Alloc(h: Heap, size: nat): (r: (Heap, nat))
    requires WellFormed(h) && size < TWO64
    ensures WellFormed(r.0)
  {
    if size == 0 then (h, 0)
    else
      var n := Blocks(size);
      match FirstFit(h.bits, n)
      case None => (h.(failed := Inc(h.failed)), 0)
      case Some(k) =>
        var used := h.used + n;
        (h.(bits := Fill(h.bits, k, k + n), used := used, peak := if used > h.peak then used else h.peak,
            allocs := Inc(h.allocs), mem := PutHeader(h.mem, k * BLOCK, MAGIC, n, size)),
         Pointer(h, k))
  }

  // A block's pointer names the header at the block's own bytes.
  lemma PointerToBlock(h: Heap, k: nat)
    requires WellFormed(h) && k < |h.bits|
    ensures 0 < Pointer(h, k) < TWO64 && InRange(h, HeaderAddress(Pointer(h, k)))
    ensures HeaderAddress(Pointer(h, k)) - h.start == k * BLOCK && k * BLOCK + BLOCK <= h.size
    ensures k * BLOCK / BLOCK == k
  {
  }

  // The header address of a payload pointer, in 64-bit arithmetic.
  function HeaderAddress(ptr: nat): nat
    requires ptr < TWO64
  {
    if ptr >= BLOCK then ptr - BLOCK else ptr + TWO64 - BLOCK
  }

  predicate InRange(h: Heap, addr: nat) {
    h.start <= addr < h.start + h.size
  }

  // A successful allocation, field by field.
  lemma AllocExtent(h: Heap, size: nat, k: nat, n: nat)
    requires WellFormed(h) && 0 < size < TWO64 && n == Blocks(size) && FirstFit(h.bits, n) == Some(k)
    ensures n > 0 && IsRun(h.bits, k, n) && k * BLOCK + BLOCK <= h.size
    ensures var (h', ptr) := Alloc(h, size);
      && ptr == Pointer(h, k) && 0 < ptr < TWO64
      && h'.bits == Fill(h.bits, k, k + n) && h'.mem == PutHeader(h.mem, k * BLOCK, MAGIC, n, size)
      && h'.used == h.used + n && h'.peak == (if h'.used > h.peak then h'.used else h.peak)
      && h' == h.(bits := h'.bits, mem := h'.mem, used := h'.used, peak := h'.peak, allocs := Inc(h.allocs))
  {
    PointerToBlock(h, k);
  }

  // Freeing what the header at byte `at` of the heap describes.
  function FreeAt(h: Heap, at: nat): (h': Heap)
    requires WellFormed(h) && at < h.size && h.used == Count(h.bits)
    ensures WellFormed(h') && h'.used == Count(h'.bits)
  {
    if !LooksAllocated(h.mem, at) then h.(invalid := Inc(h.invalid))
    else
      var lo := at / BLOCK;
      var hi := Lesser(lo + BlocksAt(h.mem, at), |h.bits|);
      CountClear(h.bits, lo, hi);
      h.(bits := Clear(h.bits, lo, hi), used := h.used - CountIn(h.bits, lo, hi),
         mem := PutHeader(h.mem, at, 0, 0, 0), frees := Inc(h.frees))
  }

  /** kfree. */
  function Free(h: Heap, ptr: nat): (h': Heap)
    requires WellFormed(h) && ptr < TWO64 && h.used == Count(h.bits)
    ensures WellFormed(h') && h'.used == Count(h'.bits)
  {
    var addr := HeaderAddress(ptr);
    if ptr == 0 then h
    else if !InRange(h, addr) then h.(invalid := Inc(h.invalid))
    else FreeAt(h, addr - h.start)
  }

  // A heap that differs from `h` as a carried-out free says, is the freed heap.
  lemma FreeIs(h: Heap, ptr: nat, at: nat, count: nat, hi: nat, h': Heap)
    requires WellFormed(h) && h.used == Count(h.bits) && 0 < ptr < TWO64
    requires InRange(h, HeaderAddress(ptr)) && at == HeaderAddress(ptr) - h.start
    requires MagicAt(h.mem, at) == MAGIC && BlocksAt(h.mem, at) == count != 0
    requires hi == Lesser(at / BLOCK + count, |h.bits|)
    requires h'.bits == Clear(h.bits, at / BLOCK, hi) && h'.used + CountIn(h.bits, at / BLOCK, hi) == h.used
    requires h'.mem == PutHeader(h.mem, at, 0, 0, 0) && h'.frees == Inc(h.frees)
    requires h' == h.(bits := h'.bits, used := h'.used, mem := h'.mem, frees := h'.frees)
    ensures h' == Free(h, ptr) && h'.used == Count(h'.bits) && WellFormed(h')
  {
    hide Clear, Count, CountIn, PutHeader, Read, U64;
    CountClear(h.bits, at / BLOCK, hi);
  }

  // A heap that differs from `h` as a successful allocation says, is what Alloc returns.
  lemma AllocIs(h: Heap, size: nat, k: nat, n: nat, h': Heap, ptr: nat)
    requires WellFormed(h) && h.used == Count(h.bits) && 0 < size < TWO64
    requires n == Blocks(size) && FirstFit(h.bits, n) == Some(k)
    requires h'.bits == Fill(h.bits, k, k + n) && k * BLOCK + BLOCK <= |h.mem|
    requires h'.mem == PutHeader(h.mem, k * BLOCK, MAGIC, n, size)
    requires h'.used == h.used + n && h'.peak == (if h'.used > h.peak then h'.used else h.peak)
    requires h'.allocs == Inc(h.allocs)
    requires h' == h.(bits := h'.bits, mem := h'.mem, used := h'.used, peak := h'.peak, allocs := h'.allocs)
    requires ptr == Pointer(h, k)
    ensures Alloc(h, size) == (h', ptr) && h'.used == Count(h'.bits) && WellFormed(h')
  {
    CountFill(h.bits, k, n);
  }

  /** ksize. */
  function SizeOf(h: Heap, ptr: nat): nat
    requires WellFormed(h) && ptr < TWO64
    requires ptr != 0 ==> InRange(h, HeaderAddress(ptr))
  {
    if ptr == 0 then 0
    else
      var at := HeaderAddress(ptr) - h.start;
      if MagicAt(h.mem, at) != MAGIC then 0 else SizeAt(h.mem, at)
  }

  /** First fit is sound and complete for every 64-bit size: an allocation succeeds exactly
      when some run of enough free blocks exists, takes the lowest, and leaves room for
      the payload; otherwise the bitmap and the memory are untouched. */
  lemma FirstFitExact(h: Heap, size: nat)
    requires WellFormed(h) && 0 < size < TWO64
    ensures var (h', ptr) := Alloc(h, size);
      && (ptr != 0 <==> exists k: nat :: IsRun(h.bits, k, Blocks(size)))
      && (ptr == 0 ==> h'.bits == h.bits && h'.mem == h.mem && h'.used == h.used && h'.allocs == h.allocs)
      && (ptr != 0 ==> exists k: nat ::
            && ptr == h.start + 16 * k + 16 && IsRun(h.bits, k, Blocks(size))
            && (forall j :: 0 <= j < k ==> !IsRun(h.bits, j, Blocks(size)))
            && size + 16 <= 16 * Blocks(size) < size + 32
            && h'.bits == Fill(h.bits, k, k + Blocks(size)))
  {
  }

  /** In front of the payload stand the magic number, the low 32 bits of the block count and
      the size asked for, and no other byte of the heap changes. */
  lemma HeaderBytes(h: Heap, size: nat)
    requires WellFormed(h) && 0 < size < TWO64 && Alloc(h, size).1 != 0
    ensures var (h', ptr) := Alloc(h, size);
      var at := ptr - 16 - h.start;
      && 0 <= at && at + 16 <= |h.mem| == |h'.mem|
      && Read(h'.mem, at, 4) == 0xC0DE_C0DE && Read(h'.mem, at + 4, 4) == Blocks(size) % TWO32 && Read(h'.mem, at + 8, 8) == size
      && forall i :: 0 <= i < |h.mem| && !(at <= i < at + 16) ==> h'.mem[i] == h.mem[i]
  {
    hide Read, Fill;
    var k := FirstFit(h.bits, Blocks(size)).value;
    AllocExtent(h, size, k, Blocks(size));
    HeaderWritten(h.mem, k * BLOCK, MAGIC, Blocks(size), size);
    U32IsModulo(Blocks(size));
  }
}
