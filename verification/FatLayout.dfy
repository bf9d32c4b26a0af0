/**
 Where a FAT32 volume keeps its table and its clusters, as the format lays them out: the
 table is a sequence of little-endian words, the data area a sequence of bytes, each in
 consecutive sectors. Reading a file is reading the bytes that the table strings together.
 */
module FatLayout {
  import opened Words
  import opened Fat32

  function WordBytes(ws: seq<u32>): (s: seq<byte>)
    ensures |s| == 4 * |ws|
  {
    if ws == [] then [] else Encode(ws[0], 4) + WordBytes(ws[1..])
  }

  // The sectors from `start` on hold the bytes, 512 to a sector.
  ghost predicate Holds(v: Volume, start: nat, s: seq<byte>) {
    && |s| % 512 == 0 && start + |s| / 512 <= TWO32
    && forall k: nat {:trigger v.disk(start + k)} :: 512 * k < |s| ==> v.disk(start + k) == s[512 * k..512 * k + 512]
  }

  ghost predicate LaidOut(v: Volume, fat: seq<u32>, data: seq<byte>) {
    v.mounted && v.sectorsPerCluster > 0 && Holds(v, v.fatStart, WordBytes(fat)) && Holds(v, v.dataStart, data)
  }

  lemma SectorHeld(v: Volume, start: nat, s: seq<byte>, k: nat)
    requires Holds(v, start, s) && 512 * k < |s|
    ensures 512 * k + 512 <= |s| && start + k < TWO32 && v.disk(start + k) == s[512 * k..512 * k + 512]
  {
  }

  // ---------------------------------------------------------------- the table

  lemma {:induction false} WordAt(ws: seq<u32>, c: nat)
    requires c < |ws|
    ensures WordBytes(ws)[4 * c..4 * c + 4] == Encode(ws[c], 4)
  {
    if c == 0 {
      assert WordBytes(ws)[..4] == Encode(ws[0], 4);
    } else {
      WordAt(ws[1..], c - 1);
      assert WordBytes(ws)[4 * c..4 * c + 4] == WordBytes(ws[1..])[4 * (c - 1)..4 * (c - 1) + 4];
    }
  }

  /** The next cluster is the low 28 bits of the table's word, and none from 0x0FFFFFF8 on. */
  lemma NextClusterIs(v: Volume, fat: seq<u32>, data: seq<byte>, c: u32)
    requires LaidOut(v, fat, data) && 2 <= c < |fat| <= 0x4000_0000
    ensures var e := EntryOf(fat, c);
      NextCluster(v, c) == if e < 0x0FFF_FFF8 then e else 0
  {
    hide WordBytes, Encode, Value;
    var bytes := WordBytes(fat);
    var k, at := c * 4 / 512, c * 4 % 512;
    SectorHeld(v, v.fatStart, bytes, k);
    assert at + 4 <= 512 by { EntryInSector(c); }
    assert v.disk(v.fatStart + k)[at..at + 4] == bytes[4 * c..4 * c + 4] by {
      SliceOfSlice(bytes, 512 * k, at);
    }
    WordAt(fat, c);
    Spans();
    LowKeeps(fat[c], 4);
  }

  lemma SliceOfSlice(s: seq<byte>, from: nat, at: nat)
    requires from + 512 <= |s| && at + 4 <= 512
    ensures s[from..from + 512][at..at + 4] == s[from + at..from + at + 4]
  {
    var l, r := s[from..from + 512][at..at + 4], s[from + at..from + at + 4];
    assert forall i :: 0 <= i < 4 ==> l[i] == r[i];
  }

  // ---------------------------------------------------------------- the clusters

  /** Cluster `c` is the (c-2)-nd stretch of the data area. */
  lemma ClusterIs(v: Volume, fat: seq<u32>, data: seq<byte>, c: u32)
    requires LaidOut(v, fat, data) && 2 <= c && (c - 1) * ClusterSize(v) <= |data|
    ensures Cluster(v, c) == Part(data, ClusterSize(v), c)
  {
    hide Holds, Cluster, Part, ClusterSize;
    var size := ClusterSize(v);
    PartInData(data, size, c);
    forall i: nat | i < size
      ensures Cluster(v, c)[i] == Part(data, size, c)[i]
    {
      OneByte(v, data, c, i);
    }
  }

  lemma OneByte(v: Volume, data: seq<byte>, c: u32, i: nat)
    requires Holds(v, v.dataStart, data) && 2 <= c && i < ClusterSize(v)
    requires (c - 2) * ClusterSize(v) <= (c - 1) * ClusterSize(v) <= |data|
    requires |Part(data, ClusterSize(v), c)| == ClusterSize(v)
    ensures Cluster(v, c)[i] == Part(data, ClusterSize(v), c)[i]
  {
    hide Holds, ClusterByte, ClusterSize;
    ByteInSector(v, data, c, i);
  }

  // The bytes of a cluster in the data area; clusters count from two.
  function Part(data: seq<byte>, size: nat, c: nat): (s: seq<byte>)
    requires 2 <= c && (c - 2) * size <= (c - 1) * size <= |data|
  {
    data[(c - 2) * size..(c - 1) * size]
  }

  lemma PartInData(data: seq<byte>, size: nat, c: nat)
    requires 2 <= c && (c - 1) * size <= |data|
    ensures (c - 2) * size + size == (c - 1) * size <= |data|
    ensures |Part(data, size, c)| == size
  {
    assert (c - 2) * size + size == (c - 1) * size;
  }

  lemma ByteInSector(v: Volume, data: seq<byte>, c: u32, i: nat)
    requires Holds(v, v.dataStart, data) && 2 <= c && (c - 1) * ClusterSize(v) <= |data| && i < ClusterSize(v)
    ensures (c - 2) * ClusterSize(v) + i < |data|
    ensures ClusterByte(v, c, i) == data[(c - 2) * ClusterSize(v) + i]
  {
    hide Holds, U32;
    var first, k := (c - 2) * v.sectorsPerCluster, i / 512;
    Sectors(c, v.sectorsPerCluster);
    PartInData(data, ClusterSize(v), c);
    SectorHeld(v, v.dataStart, data, first + k);
    SectorOf(v, c, i, first);
    ByteOfSlice(data, 512 * (first + k), i % 512);
  }

  lemma Sectors(c: nat, n: nat)
    requires c >= 2
    ensures (c - 2) * (n * 512) == 512 * ((c - 2) * n) && (c - 2) * n >= 0
  {
  }

  // No sum wraps while the sector exists.
  lemma SectorOf(v: Volume, c: u32, i: nat, first: nat)
    requires c >= 2 && first == (c - 2) * v.sectorsPerCluster && v.dataStart + first + i / 512 < TWO32
    ensures ClusterByte(v, c, i) == v.disk(v.dataStart + (first + i / 512))[i % 512]
  {
  }

  lemma ByteOfSlice(s: seq<byte>, from: nat, at: nat)
    requires from + 512 <= |s| && at < 512
    ensures s[from..from + 512][at] == s[from + at]
  {
  }

  // ---------------------------------------------------------------- files

  // The 28 bits of the table for a cluster.
  function EntryOf(fat: seq<u32>, c: nat): nat
    requires c < |fat|
  {
    fat[c] % 0x1000_0000
  }

  // An entry names the next cluster of the chain, or ends it behind the last.
  predicate Linked(entry: nat, rest: seq<u32>) {
    if rest == [] then entry < 2 || entry >= 0x0FFF_FFF8 else entry == rest[0] < 0x0FFF_FFF8
  }

  // The table strings these clusters together, and ends behind the last of them.
  ghost predicate IsChain(fat: seq<u32>, chain: seq<u32>) {
    && chain != []
    && (forall i :: 0 <= i < |chain| ==> 2 <= chain[i] < |fat|)
    && (forall i :: 0 <= i < |chain| ==> Linked(EntryOf(fat, chain[i]), chain[i + 1..]))
  }

  ghost predicate ChainInData(size: nat, data: seq<byte>, chain: seq<u32>) {
    forall i :: 0 <= i < |chain| ==> 2 <= chain[i] && (chain[i] - 2) * size <= (chain[i] - 1) * size <= |data|
  }

  /** The bytes of the clusters of a chain, in its order. */
  ghost function Contents(size: nat, data: seq<byte>, chain: seq<u32>): seq<byte>
    requires ChainInData(size, data, chain)
  {
    if chain == [] then []
    else
      assert ChainInData(size, data, chain[1..]);
      Part(data, size, chain[0]) + Contents(size, data, chain[1..])
  }

  lemma {:induction false} ContentsAt(size: nat, data: seq<byte>, chain: seq<u32>, p: nat)
    requires ChainInData(size, data, chain) && size > 0
    ensures |Contents(size, data, chain)| == |chain| * size
    ensures p < |chain| * size ==>
              Quot(p, size) < |chain| && |Part(data, size, chain[Quot(p, size)])| == size
              && Contents(size, data, chain)[p] == Part(data, size, chain[Quot(p, size)])[Rem(p, size)]
  {
    if chain != [] {
      PartInData(data, size, chain[0]);
      ContentsAt(size, data, chain[1..], if p >= size then p - size else 0);
      assert |chain| * size == size + (|chain| - 1) * size;
    }
  }

  lemma {:induction false} HopsFollow(v: Volume, fat: seq<u32>, data: seq<byte>, chain: seq<u32>, k: nat)
    requires LaidOut(v, fat, data) && |fat| <= 0x4000_0000 && IsChain(fat, chain) && k <= |chain|
    ensures if k < |chain| then Hops(v, chain[0], k) == chain[k] else Hops(v, chain[0], k) < 2
    decreases k
  {
    hide LaidOut;
    if k > 0 {
      HopsFollow(v, fat, data, chain, k - 1);
      NextClusterIs(v, fat, data, chain[k - 1]);
    }
  }

  /** Reading a file: a read at `offset` succeeds exactly when the offset lies inside the bytes
      of the file's clusters, and it brings those bytes from there on, as many as were asked
      for or as there are. */
  lemma FileIsContents(v: Volume, fat: seq<u32>, data: seq<byte>, chain: seq<u32>, offset: nat, len: nat, n: nat)
    requires LaidOut(v, fat, data) && |fat| <= 0x4000_0000 && IsChain(fat, chain)
    requires ChainInData(ClusterSize(v), data, chain)
    ensures var file := Contents(ClusterSize(v), data, chain);
      && (Reaches(v, chain[0], offset) <==> offset < |file|)
      && (offset <= |file| && IsAvailable(v, chain[0], offset, len, n) ==>
            n == Lesser(len, |file| - offset) && Slice(v, chain[0], offset, n) == file[offset..offset + n])
  {
    hide ChainInData, Contents, IsAvailable, Slice, Reaches, Hops, Holds;
    var size := ClusterSize(v);
    var file := Contents(size, data, chain);
    ReachedIff(v, fat, data, chain, offset);
    if offset <= |file| && IsAvailable(v, chain[0], offset, len, n) {
      AvailableIs(v, fat, data, chain, offset, len, n);
      SliceIs(v, fat, data, chain, offset, n);
    }
  }

  lemma ReachedIff(v: Volume, fat: seq<u32>, data: seq<byte>, chain: seq<u32>, p: nat)
    requires LaidOut(v, fat, data) && |fat| <= 0x4000_0000 && IsChain(fat, chain)
    requires ChainInData(ClusterSize(v), data, chain)
    ensures v.sectorsPerCluster > 0 && (Reaches(v, chain[0], p) <==> p < |Contents(ClusterSize(v), data, chain)|)
  {
    hide ChainInData, Contents;
    var size, m := ClusterSize(v), |chain|;
    ContentsAt(size, data, chain, p);
    QuotBelow(p, m, size);
    HopsFollow(v, fat, data, chain, m);
    if p < m * size {
      HopsFollow(v, fat, data, chain, Quot(p, size));
    } else {
      DeadStaysDead(v, chain[0], m, Quot(p, size));
    }
  }

  lemma ByteIs(v: Volume, fat: seq<u32>, data: seq<byte>, chain: seq<u32>, p: nat)
    requires LaidOut(v, fat, data) && |fat| <= 0x4000_0000 && IsChain(fat, chain)
    requires ChainInData(ClusterSize(v), data, chain) && p < |Contents(ClusterSize(v), data, chain)|
    ensures v.sectorsPerCluster > 0 && ChainByte(v, chain[0], p) == Contents(ClusterSize(v), data, chain)[p]
  {
    hide Contents, Holds, ClusterByte, Hops;
    var size := ClusterSize(v);
    ContentsAt(size, data, chain, p);
    var k := Quot(p, size);
    HopsFollow(v, fat, data, chain, k);
    ClusterIs(v, fat, data, chain[k]);
    assert Cluster(v, chain[k])[Rem(p, size)] == ClusterByte(v, chain[k], Rem(p, size));
  }

  lemma AvailableIs(v: Volume, fat: seq<u32>, data: seq<byte>, chain: seq<u32>, offset: nat, len: nat, n: nat)
    requires LaidOut(v, fat, data) && |fat| <= 0x4000_0000 && IsChain(fat, chain)
    requires ChainInData(ClusterSize(v), data, chain) && offset <= |Contents(ClusterSize(v), data, chain)|
    requires v.sectorsPerCluster > 0 && IsAvailable(v, chain[0], offset, len, n)
    ensures n == Lesser(len, |Contents(ClusterSize(v), data, chain)| - offset)
  {
    hide LaidOut, IsChain, ChainInData, Contents, Reaches;
    var file := Contents(ClusterSize(v), data, chain);
    ReachedIff(v, fat, data, chain, offset + n);
    ReachedIff(v, fat, data, chain, |file|);
  }

  lemma {:induction false} SliceIs(v: Volume, fat: seq<u32>, data: seq<byte>, chain: seq<u32>, offset: nat, n: nat)
    requires LaidOut(v, fat, data) && |fat| <= 0x4000_0000 && IsChain(fat, chain)
    requires ChainInData(ClusterSize(v), data, chain) && offset + n <= |Contents(ClusterSize(v), data, chain)|
    ensures v.sectorsPerCluster > 0
    ensures Slice(v, chain[0], offset, n) == Contents(ClusterSize(v), data, chain)[offset..offset + n]
    decreases n
  {
    hide IsChain, ChainInData, Contents, ChainByte;
    if n > 0 {
      SliceIs(v, fat, data, chain, offset, n - 1);
      ByteIs(v, fat, data, chain, offset + n - 1);
    }
  }
}
