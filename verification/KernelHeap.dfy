/**
 The kernel heap as the program keeps it: a byte bitmap changed bit by bit, the
 heap memory, and 64-bit counters. Each method changes the state exactly as the
 function of the same operation in HeapSpec says. The spinlock around the scans is
 not shown: a method runs as one step.
 */
module KernelHeap {
  import opened Options
  import opened Words
  import opened HeapSpec

  // ---------------------------------------------------------------- bits of a byte

  function Mask(bit: nat): bv8
    requires bit < 8
  {
    match bit
    case 0 => 1
    case 1 => 2
    case 2 => 4
    case 3 => 8
    case 4 => 16
    case 5 => 32
    case 6 => 64
    case _ => 128
  }

  predicate BitSet(b: bv8, bit: nat)
    requires bit < 8
  {
    b & Mask(bit) != 0
  }

  lemma SettingABit(b: bv8, bit: nat, other: nat)
    requires bit < 8 && other < 8
    ensures BitSet(b | Mask(bit), other) <==> other == bit || BitSet(b, other)
  {
  }

  lemma ClearingABit(b: bv8, bit: nat, other: nat)
    requires bit < 8 && other < 8
    ensures BitSet(b & !Mask(bit), other) <==> other != bit && BitSet(b, other)
  {
  }

  /** Bit `i` of a bitmap stored eight to a byte. */
  predicate BitAt(bytes: seq<bv8>, i: nat)
    requires i < 8 * |bytes|
  {
    BitSet(bytes[i / 8], i % 8)
  }

  function BitsOf(bytes: seq<bv8>, n: nat): (bits: seq<bool>)
    requires n <= 8 * |bytes|
    ensures |bits| == n
  {
    seq(n, i requires 0 <= i < n => BitAt(bytes, i))
  }

  lemma BitSetInMap(bytes: seq<bv8>, n: nat, i: nat)
    requires i < n <= 8 * |bytes|
    ensures BitsOf(bytes[i / 8 := bytes[i / 8] | Mask(i % 8)], n) == BitsOf(bytes, n)[i := true]
  {
    var after := bytes[i / 8 := bytes[i / 8] | Mask(i % 8)];
    forall j | 0 <= j < n
      ensures BitAt(after, j) == BitsOf(bytes, n)[i := true][j]
    {
      if j / 8 == i / 8 {
        SettingABit(bytes[i / 8], i % 8, j % 8);
      }
    }
  }

  lemma BitClearedInMap(bytes: seq<bv8>, n: nat, i: nat)
    requires i < n <= 8 * |bytes|
    ensures BitsOf(bytes[i / 8 := bytes[i / 8] & !Mask(i % 8)], n) == BitsOf(bytes, n)[i := false]
  {
    var after := bytes[i / 8 := bytes[i / 8] & !Mask(i % 8)];
    forall j | 0 <= j < n
      ensures BitAt(after, j) == BitsOf(bytes, n)[i := false][j]
    {
      if j / 8 == i / 8 {
        ClearingABit(bytes[i / 8], i % 8, j % 8);
      }
    }
  }

  // ---------------------------------------------------------------- rounding

  /** The 64-bit rounding of kmalloc agrees with unbounded arithmetic, or it wraps and the
      true block count fits no heap. */
  lemma RoundingWraps(size: nat, total: nat, needed: nat, bits: seq<bool>)
    requires 0 < size < TWO64 && |bits| < TWO64 / BLOCK
    requires total == U64(size + BLOCK)
    requires total >= size ==> needed == U64(total + BLOCK - 1) / BLOCK
    ensures total < size ==> FirstFit(bits, Blocks(size)).None?
    ensures total >= size ==> needed == Blocks(size) || (needed == 0 && FirstFit(bits, Blocks(size)).None?)
  {
    if size + BLOCK >= TWO64 {
      assert total == size + BLOCK - TWO64;
    } else if size + BLOCK + BLOCK - 1 >= TWO64 {
      assert U64(total + BLOCK - 1) == size + BLOCK + BLOCK - 1 - TWO64;
    }
  }

  // ---------------------------------------------------------------- scanning

  // After `i` bits: the last `free` of them are clear, the one before is not, and no run
  // of `needed` clear bits lies among them.
  ghost predicate ScanState(bits: seq<bool>, needed: nat, i: nat, free: nat) {
    && free <= i <= |bits|
    && (forall j :: i - free <= j < i ==> !bits[j])
    && (i - free > 0 ==> bits[i - free - 1])
    && (needed > 0 ==> free < needed && forall k: nat :: k + needed <= i ==> !IsRun(bits, k, needed))
  }

  lemma ScanStart(bits: seq<bool>, needed: nat)
    ensures ScanState(bits, needed, 0, 0)
  {
  }

  lemma ScanEnd(bits: seq<bool>, needed: nat, free: nat)
    requires ScanState(bits, needed, |bits|, free)
    ensures needed > 0 ==> FirstFit(bits, needed) == None
  {
  }

  // One more clear bit: the lowest run if it completes one.
  lemma ScanFree(bits: seq<bool>, needed: nat, i: nat, free: nat)
    requires i < |bits| && !bits[i] && ScanState(bits, needed, i, free)
    ensures free + 1 == needed ==> FirstFit(bits, needed) == Some(i - free)
    ensures free + 1 != needed ==> ScanState(bits, needed, i + 1, free + 1)
  {
    if free + 1 == needed {
      assert IsRun(bits, i - free, needed);
    }
  }

  lemma ScanUsed(bits: seq<bool>, needed: nat, i: nat, free: nat)
    requires i < |bits| && bits[i] && ScanState(bits, needed, i, free)
    ensures ScanState(bits, needed, i + 1, 0)
  {
  }

  /** The scan of kmalloc: the first stretch of `needed` clear bits, if any. A request for no
      blocks, which is what a wrapped rounding leaves, never matches. */
  method FindRun(bitmap: array<bv8>, total: nat, needed: nat) returns (run: Option<nat>)
    requires total <= 8 * bitmap.Length
    ensures needed > 0 ==> run == FirstFit(BitsOf(bitmap[..], total), needed)
    ensures needed == 0 ==> run == None
  {
    hide ScanState, BitAt, Mask, BitsOf, FirstFit;
    ghost var bits := BitsOf(bitmap[..], total);
    ScanStart(bits, needed);
    var free, startBlock, i := 0, 0, 0;
    while i < total
      invariant 0 <= free <= i <= total
      invariant free > 0 ==> startBlock == i - free
      invariant ScanState(bits, needed, i, free)
    {
      BitInMap(bitmap[..], total, i);
      if bitmap[i / 8] & Mask(i % 8) == 0 {
        ScanFree(bits, needed, i, free);
        if free == 0 {
          startBlock := i;
        }
        free := free + 1;
        if free == needed {
          return Some(startBlock);
        }
      } else {
        ScanUsed(bits, needed, i, free);
        free := 0;
      }
      i := i + 1;
    }
    ScanEnd(bits, needed, free);
    return None;
  }

  /** Sets the bits of `count` blocks from `k` on. */
  method MarkBlocks(bitmap: array<bv8>, total: nat, k: nat, count: nat)
    requires k + count <= total <= 8 * bitmap.Length
    modifies bitmap
    ensures BitsOf(bitmap[..], total) == Fill(old(BitsOf(bitmap[..], total)), k, k + count)
  {
    ghost var bits := BitsOf(bitmap[..], total);
    var j := 0;
    while j < count
      invariant 0 <= j <= count
      invariant BitsOf(bitmap[..], total) == Fill(bits, k, k + j)
    {
      var block := k + j;
      ghost var bytes := bitmap[..];
      bitmap[block / 8] := bitmap[block / 8] | Mask(block % 8);
      assert bitmap[..] == bytes[block / 8 := bytes[block / 8] | Mask(block % 8)];
      BitSetInMap(bytes, total, block);
      assert Fill(bits, k, k + (j + 1)) == Fill(bits, k, k + j)[block := true];
      j := j + 1;
    }
  }

  // One more block cleared, and taken off the count if it was set.
  lemma ClearNext(bits: seq<bool>, lo: nat, block: nat, now: seq<bool>)
    requires lo <= block < |bits| && now == Clear(bits, lo, block)
    ensures now[block] == bits[block]
    ensures Clear(bits, lo, block + 1) == if bits[block] then now[block := false] else now
    ensures CountIn(bits, lo, block + 1) == CountIn(bits, lo, block) + (if bits[block] then 1 else 0) <= Count(bits)
  {
    CountClear(bits, lo, block + 1);
  }

  lemma BitInMap(bytes: seq<bv8>, n: nat, i: nat)
    requires i < n <= 8 * |bytes|
    ensures BitsOf(bytes, n)[i] <==> bytes[i / 8] & Mask(i % 8) != 0
  {
  }

  lemma NoneCleared(bits: seq<bool>, lo: nat)
    requires lo <= |bits|
    ensures Clear(bits, lo, lo) == bits && CountIn(bits, lo, lo) == 0
  {
  }

  /** Clears the bits of `count` blocks from `lo` on, as far as the heap goes, and takes each
      one that was set off the count of used blocks, which never underflows. */
  method ClearBlocks(bitmap: array<bv8>, total: nat, lo: nat, count: nat, usedBlocks: nat) returns (used: nat)
    requires lo <= total <= 8 * bitmap.Length
    requires usedBlocks == Count(BitsOf(bitmap[..], total))
    modifies bitmap
    ensures BitsOf(bitmap[..], total) == Clear(old(BitsOf(bitmap[..], total)), lo, Lesser(lo + count, total))
    ensures used + CountIn(old(BitsOf(bitmap[..], total)), lo, Lesser(lo + count, total)) == usedBlocks
  {
    hide BitsOf, Clear, Count, CountIn, Mask, BitAt;
    ghost var bits := BitsOf(bitmap[..], total);
    NoneCleared(bits, lo);
    used := usedBlocks;
    var i := 0;
    while i < count && lo + i < total
      invariant 0 <= i <= count && lo + i <= total
      invariant BitsOf(bitmap[..], total) == Clear(bits, lo, lo + i)
      invariant used + CountIn(bits, lo, lo + i) == usedBlocks
    {
      ClearNext(bits, lo, lo + i, Clear(bits, lo, lo + i));
      used := ClearOne(bitmap, total, lo + i, used);
      i := i + 1;
    }
  }

  // Clears a bit that is set, and counts it.
  method ClearOne(bitmap: array<bv8>, total: nat, block: nat, usedBlocks: nat) returns (used: nat)
    requires block < total <= 8 * bitmap.Length && (BitsOf(bitmap[..], total)[block] ==> usedBlocks > 0)
    modifies bitmap
    ensures used == usedBlocks - if old(BitsOf(bitmap[..], total))[block] then 1 else 0
    ensures BitsOf(bitmap[..], total) ==
      var was := old(BitsOf(bitmap[..], total));
      if was[block] then was[block := false] else was
  {
    hide BitsOf, Mask, BitAt;
    used := usedBlocks;
    BitInMap(bitmap[..], total, block);
    BitClearedInMap(bitmap[..], total, block);
    if bitmap[block / 8] & Mask(block % 8) != 0 {
      ghost var bytes := bitmap[..];
      bitmap[block / 8] := bitmap[block / 8] & !Mask(block % 8);
      used := used - 1;
      assert bitmap[..] == bytes[block / 8 := bytes[block / 8] & !Mask(block % 8)];
    }
  }

  // ---------------------------------------------------------------- the heap

  class KernelHeap {
    const start: nat
    const size: nat
    const totalBlocks: nat
    const bitmap: array<bv8>
    const mem: array<byte>
    var usedBlocks: nat
    var peakUsedBlocks: nat
    var allocCount: nat
    var freeCount: nat
    var failedAllocations: nat
    var invalidFrees: nat
    ghost var bits: seq<bool>  // what the bitmap's bytes say

    ghost function View(): Heap
      reads this, mem
    {
      Heap(start, size, bits, mem[..], usedBlocks, peakUsedBlocks, allocCount, freeCount, failedAllocations, invalidFrees)
    }

    // The ghost bits are the bitmap, eight to a byte.
    ghost predicate BitmapOk()
      reads this, bitmap
    {
      totalBlocks <= 8 * bitmap.Length && bitmap as object != mem as object && bits == BitsOf(bitmap[..], totalBlocks)
    }

    ghost predicate Valid()
      reads this, bitmap, mem
    {
      BitmapOk() && WellFormed(View()) && usedBlocks == Count(bits)
    }

    /** heap_init, with a bitmap large enough for the heap and memory behind it. */
    constructor (start: nat, size: nat, bitmap: array<bv8>, mem: array<byte>)
      requires size / BLOCK <= 8 * bitmap.Length && size + BLOCK <= mem.Length
      requires 0 < start && start + mem.Length < TWO64 && bitmap as object != mem as object
      modifies bitmap
      ensures Valid() && this.start == start && this.size == size && this.bitmap == bitmap && this.mem == mem
      ensures View() == Heap(start, size, seq(size / BLOCK, _ => false), mem[..], 0, 0, 0, 0, 0, 0)
    {
      this.start, this.size, this.totalBlocks, this.bitmap, this.mem := start, size, size / BLOCK, bitmap, mem;
      usedBlocks, peakUsedBlocks, allocCount, freeCount, failedAllocations, invalidFrees := 0, 0, 0, 0, 0, 0;
      bits := seq(size / BLOCK, _ => false);
      new;
      forall i | 0 <= i < bitmap.Length {
        bitmap[i] := 0;
      }
      CountZero(bits);
    }

    method Kmalloc(request: nat) returns (ptr: nat)
      requires Valid() && request < TWO64
      modifies this, bitmap, mem
      ensures Valid()
      ensures Alloc(old(View()), request) == (View(), ptr)
    {
      if request == 0 {
        return 0;
      }
      var totalSize := U64(request + BLOCK);
      if totalSize < request {
        RoundingWraps(request, totalSize, 0, bits);
        failedAllocations := U64(failedAllocations + 1);
        return 0;
      }
      var needed := U64(totalSize + BLOCK - 1) / BLOCK;
      RoundingWraps(request, totalSize, needed, bits);
      var run := FindRun(bitmap, totalBlocks, needed);
      if run.None? {
        failedAllocations := U64(failedAllocations + 1);
        return 0;
      }
      ptr := Take(run.value, needed, request);
    }

    // Marks the blocks found, counts them and writes their header.
    method Take(startBlock: nat, needed: nat, request: nat) returns (ptr: nat)
      requires Valid() && 0 < request < TWO64 && needed == Blocks(request)
      requires FirstFit(bits, needed) == Some(startBlock)
      modifies this, bitmap, mem
      ensures Valid()
      ensures Alloc(old(View()), request) == (View(), ptr)
    {
      hide Fill, PutHeader, Count, BitsOf, Alloc;
      ghost var h := View();
      var at := startBlock * BLOCK;
      PointerToBlock(h, startBlock);
      ptr := start + at + BLOCK;
      MarkBlocks(bitmap, totalBlocks, startBlock, needed);
      bits := Fill(bits, startBlock, startBlock + needed);
      usedBlocks := usedBlocks + needed;
      if usedBlocks > peakUsedBlocks {
        peakUsedBlocks := usedBlocks;
      }
      allocCount := U64(allocCount + 1);
      assert mem[..] == h.mem;
      WriteHeader(at, MAGIC, needed, request);
      ghost var h' := View();
      assert h'.peak == if h'.used > h.peak then h'.used else h.peak;
      AllocIs(h, request, startBlock, needed, h', ptr);
    }

    // heap_alloc_header_t: magic, the low 32 bits of the block count, the requested size.
    method WriteHeader(at: nat, magic: nat, blocks: nat, request: nat)
      requires at + BLOCK <= mem.Length
      modifies mem
      ensures mem[..] == PutHeader(old(mem[..]), at, magic, blocks, request)
    {
      Store(mem, at, 4, magic);
      Store(mem, at + 4, 4, blocks);
      Store(mem, at + 8, 8, request);
    }

    method Kfree(ptr: nat)
      requires Valid() && ptr < TWO64
      modifies this, bitmap, mem
      ensures Valid()
      ensures View() == Free(old(View()), ptr)
    {
      if ptr == 0 {
        return;
      }
      var addr := HeaderAddress(ptr);
      if addr < start || addr >= start + size {
        invalidFrees := U64(invalidFrees + 1);
        return;
      }
      FreeHeaderAt(addr - start, ptr);
    }

    // The part of kfree that has found its header inside the heap.
    method FreeHeaderAt(at: nat, ghost ptr: nat)
      requires Valid() && 0 < ptr < TWO64
      requires InRange(View(), HeaderAddress(ptr)) && at == HeaderAddress(ptr) - start
      modifies this, bitmap, mem
      ensures Valid()
      ensures View() == Free(old(View()), ptr)
    {
      hide Clear, Count, CountIn, BitsOf, PutHeader;
      var magic, blocks := Read(mem[..], at, 4), Read(mem[..], at + 4, 4);
      if magic != MAGIC || blocks == 0 {
        invalidFrees := U64(invalidFrees + 1);
        return;
      }
      ghost var h := View();
      ghost var lo, hi := at / BLOCK, Lesser(at / BLOCK + blocks, totalBlocks);
      usedBlocks := ClearBlocks(bitmap, totalBlocks, at / BLOCK, blocks, usedBlocks);
      bits := Clear(bits, lo, hi);
      assert mem[..] == h.mem;
      WriteHeader(at, 0, 0, 0);
      freeCount := U64(freeCount + 1);
      FreeIs(h, ptr, at, blocks, hi, View());
    }

    /** ksize reads the header and changes nothing. */
    method Ksize(ptr: nat) returns (n: nat)
      requires Valid() && ptr < TWO64
      requires ptr != 0 ==> InRange(View(), HeaderAddress(ptr))
      ensures n == SizeOf(View(), ptr)
    {
      if ptr == 0 {
        return 0;
      }
      var at := HeaderAddress(ptr) - start;
      if Read(mem[..], at, 4) != MAGIC {
        return 0;
      }
      return Read(mem[..], at + 8, 8);
    }
  }
}
