/**
 Reading files from a mounted FAT32 volume: following the cluster chain through the
 table and copying a slice of it. The disk is a total function from sector numbers
 to sectors, so reads succeed.
 */
module Fat32 {
  import opened Words

  const SECTOR := 512
  const END_OF_CHAIN: nat := 0x0FFF_FFF8

  type Sector = s: seq<byte> | |s| == SECTOR witness seq(SECTOR, _ => 0)

  datatype Volume = Volume(disk: nat -> Sector, mounted: bool, fatStart: u32, dataStart: u32,
                           sectorsPerCluster: byte, rootCluster: u32)

  function ClusterSize(v: Volume): (n: nat)
    ensures v.sectorsPerCluster > 0 ==> n > 0
  {
    v.sectorsPerCluster * SECTOR
  }

  // ---------------------------------------------------------------- the chain

  function Mask28(x: nat): nat {
    x % 0x1000_0000
  }

  lemma EntryInSector(c: nat)
    ensures U32(c * 4) % SECTOR + 4 <= SECTOR
  {
    U32IsModulo(c * 4);
    assert U32(c * 4) % 4 == 0;
  }

  /** fat32_next_cluster: the table entry of cluster `c`, 0 at the end of the chain. */
  function NextCluster(v: Volume, c: u32): (next: u32)
    ensures next < END_OF_CHAIN
  {
    if !v.mounted || c < 2 then 0
    else
      var fatOffset := U32(c * 4);
      var fatSector := U32(v.fatStart + fatOffset / SECTOR);
      assert fatOffset % SECTOR + 4 <= SECTOR by { EntryInSector(c); }
      var next := Mask28(Read(v.disk(fatSector), fatOffset % SECTOR, 4));
      if next >= END_OF_CHAIN then 0 else next
  }

  /** The cluster reached by following the table `n` times. */
  function Hops(v: Volume, c: u32, n: nat): u32
    decreases n
  {
    if n == 0 then c else NextCluster(v, Hops(v, c, n - 1))
  }

  lemma {:induction false} DeadStaysDead(v: Volume, c: u32, n: nat, m: nat)
    requires n <= m && Hops(v, c, n) < 2
    ensures Hops(v, c, m) < 2
    decreases m
  {
    if n < m {
      DeadStaysDead(v, c, n, m - 1);
    }
  }

  function FirstSector(v: Volume, c: u32): u32
    requires c >= 2
  {
    U32(v.dataStart + U32((c - 2) * v.sectorsPerCluster))
  }

  function ClusterByte(v: Volume, c: u32, i: nat): byte
    requires c >= 2
  {
    v.disk(U32(FirstSector(v, c) + i / SECTOR))[i % SECTOR]
  }

  /** The bytes of one cluster. */
  function Cluster(v: Volume, c: u32): (s: seq<byte>)
    requires c >= 2
    ensures |s| == ClusterSize(v)
  {
    seq(ClusterSize(v), (i: nat) => ClusterByte(v, c, i))
  }

  /** fat32_read_cluster into a buffer of one cluster. */
  method ReadCluster(v: Volume, c: u32, buffer: array<byte>) returns (ok: bool)
    requires buffer.Length == ClusterSize(v)
    modifies buffer
    ensures ok <==> v.mounted && c >= 2 && v.sectorsPerCluster > 0
    ensures ok ==> buffer[..] == Cluster(v, c)
    ensures !ok ==> buffer[..] == old(buffer[..])
  {
    if !v.mounted || c < 2 || v.sectorsPerCluster == 0 {
      return false;
    }
    var sector := FirstSector(v, c);
    var i := 0;
    while i < v.sectorsPerCluster
      invariant 0 <= i <= v.sectorsPerCluster
      invariant forall k :: 0 <= k < i * SECTOR ==> buffer[k] == ClusterByte(v, c, k)
    {
      var data := v.disk(U32(sector + i));
      forall j | 0 <= j < SECTOR {
        buffer[i * SECTOR + j] := data[j];
      }
      forall k | i * SECTOR <= k < (i + 1) * SECTOR
        ensures buffer[k] == ClusterByte(v, c, k)
      {
        assert buffer[i * SECTOR + (k - i * SECTOR)] == data[k - i * SECTOR];
        assert k / SECTOR == i && k % SECTOR == k - i * SECTOR;
      }
      i := i + 1;
    }
    return true;
  }

  // ---------------------------------------------------------------- positions

  /** `p / size`, counted out. */
  function Quot(p: nat, size: nat): nat
    requires size > 0
  {
    if p < size then 0 else 1 + Quot(p - size, size)
  }

  /** `p % size`, counted out. */
  function Rem(p: nat, size: nat): (r: nat)
    requires size > 0
    ensures r < size
  {
    if p < size then p else Rem(p - size, size)
  }

  lemma {:induction false} QuotRem(p: nat, size: nat)
    requires size > 0
    ensures Quot(p, size) == p / size && Rem(p, size) == p % size
    ensures p == Quot(p, size) * size + Rem(p, size)
  {
    if p >= size {
      QuotRem(p - size, size);
      var q := Quot(p - size, size);
      assert (q + 1) * size == q * size + size;
      DivUnique(p, size, q + 1, Rem(p, size));
    } else {
      DivUnique(p, size, 0, p);
    }
  }

  lemma {:induction false} Advance(p: nat, d: nat, size: nat)
    requires size > 0
    ensures Rem(p, size) + d < size ==> Quot(p + d, size) == Quot(p, size) && Rem(p + d, size) == Rem(p, size) + d
    ensures Rem(p, size) + d == size ==> Quot(p + d, size) == Quot(p, size) + 1 && Rem(p + d, size) == 0
  {
    if p >= size {
      Advance(p - size, d, size);
    }
  }

  // Position `p` lies before the end of `m` whole clusters exactly when its quotient does.
  lemma {:induction false} QuotBelow(p: nat, m: nat, size: nat)
    requires size > 0
    ensures Quot(p, size) < m <==> p < m * size
  {
    if p >= size && m > 0 {
      QuotBelow(p - size, m - 1, size);
      assert m * size == (m - 1) * size + size;
    } else if m > 0 {
      assert m * size == (m - 1) * size + size;
    }
  }

  // ---------------------------------------------------------------- reading a slice

  /** Byte `p` of the file that starts at cluster `c`, while the chain lasts. */
  function ChainByte(v: Volume, c: u32, p: nat): byte
    requires v.sectorsPerCluster > 0
  {
    var q := Hops(v, c, Quot(p, ClusterSize(v)));
    if q < 2 then 0 else ClusterByte(v, q, Rem(p, ClusterSize(v)))
  }

  function Slice(v: Volume, c: u32, offset: nat, n: nat): (s: seq<byte>)
    requires v.sectorsPerCluster > 0
    ensures |s| == n
  {
    if n == 0 then [] else Slice(v, c, offset, n - 1) + [ChainByte(v, c, offset + n - 1)]
  }

  // Does the chain reach as far as byte `p`?
  predicate Reaches(v: Volume, c: u32, p: nat)
    requires v.sectorsPerCluster > 0
  {
    Hops(v, c, Quot(p, ClusterSize(v))) >= 2
  }

  /** `n` is the number of bytes of the request that exist: all of it, or what the chain
      has left. */
  ghost predicate IsAvailable(v: Volume, c: u32, offset: nat, len: nat, n: nat)
    requires v.sectorsPerCluster > 0
  {
    && n <= len
    && (forall p :: offset <= p < offset + n ==> Reaches(v, c, p))
    && (n < len ==> !Reaches(v, c, offset + n))
  }

  // An unsigned count returned as a 32-bit int.
  function AsInt(n: nat): int {
    if n < 0x8000_0000 then n else n - TWO32
  }

  /** fat32_read_file. It terminates on every table, cyclic or not, because each round
      copies at least one byte. `n` is the number of bytes copied. */
  method ReadFile(v: Volume, start: u32, offset: u32, buf: array<byte>, len: u32, memory: bool)
    returns (rc: int, ghost n: nat)
    requires len <= buf.Length && v.sectorsPerCluster > 0
    modifies buf
    ensures n <= len && buf[n..] == old(buf[n..])
    ensures !v.mounted || len == 0 || !memory || !Reaches(v, start, offset) ==> rc == -1 && n == 0
    ensures v.mounted && len > 0 && memory && Reaches(v, start, offset) ==>
              rc == AsInt(n) && IsAvailable(v, start, offset, len, n) && buf[..n] == Slice(v, start, offset, n)
  {
    if !v.mounted || len == 0 {
      return -1, 0;
    }
    var size := ClusterSize(v);
    var cluster, skip := start, Quot(offset, size);
    var i := 0;
    while i < skip && cluster >= 2
      invariant 0 <= i <= skip && cluster == Hops(v, start, i)
    {
      cluster := NextCluster(v, cluster);
      i := i + 1;
    }
    if cluster < 2 {
      DeadStaysDead(v, start, i, skip);
      return -1, 0;
    }
    if !memory {
      return -1, 0;
    }
    var total := CopyChain(v, start, offset, buf, len, cluster);
    rc, n := AsInt(total), total;
  }

  // Byte `within` of `cluster` is where position `p` of the file lies.
  predicate AtPosition(v: Volume, start: u32, p: nat, cluster: u32, within: nat)
    requires v.sectorsPerCluster > 0
  {
    cluster == Hops(v, start, Quot(p, ClusterSize(v))) && within == Rem(p, ClusterSize(v))
  }

  // `bytes` is the file from `offset` on, all of it reached by the chain.
  ghost predicate Copied(v: Volume, start: u32, offset: nat, bytes: seq<byte>)
    requires v.sectorsPerCluster > 0
  {
    forall p :: offset <= p < offset + |bytes| ==>
      Reaches(v, start, p) && bytes[p - offset] == ChainByte(v, start, p)
  }

  lemma {:induction false} CopiedIsSlice(v: Volume, start: u32, offset: nat, bytes: seq<byte>)
    requires v.sectorsPerCluster > 0 && Copied(v, start, offset, bytes)
    ensures bytes == Slice(v, start, offset, |bytes|)
    decreases |bytes|
  {
    if bytes != [] {
      var n := |bytes| - 1;
      CopiedIsSlice(v, start, offset, bytes[..n]);
      assert Reaches(v, start, offset + n);
      assert bytes == bytes[..n] + [bytes[n]];
    }
  }

  // The copying loop, from the cluster where the slice begins.
  method CopyChain(v: Volume, start: u32, offset: u32, buf: array<byte>, len: u32, first: u32)
    returns (total: nat)
    requires len <= buf.Length && v.sectorsPerCluster > 0 && v.mounted && 0 < len
    requires first == Hops(v, start, Quot(offset, ClusterSize(v))) >= 2
    modifies buf
    ensures total <= len && buf[total..] == old(buf[total..])
    ensures IsAvailable(v, start, offset, len, total) && buf[..total] == Slice(v, start, offset, total)
  {
    hide Hops, NextCluster, Cluster, ChainByte, Slice, Copied, IsAvailable, Quot, Rem;
    var size := ClusterSize(v);
    FirstRound(v, start, offset, len, first);
    var clusterBuf := new byte[size];
    ghost var was := buf[..];
    assert buf[..0] == [];
    var cluster, within: nat, left := first, Rem(offset, size), len;
    total := 0;
    while left > 0 && cluster >= 2
      invariant 0 <= left && total + left == len
      invariant RoundOk(v, start, offset, buf[..total], cluster, within, left)
      invariant buf[total..] == was[total..]
    {
      var toCopy := if size - within > left then left else size - within;
      ghost var done := buf[..total];
      CopyPiece(v, cluster, clusterBuf, within, toCopy, buf, total);
      NextRound(v, start, offset, done, cluster, within, left, Cluster(v, cluster)[within..within + toCopy]);
      total := total + toCopy;
      left := left - toCopy;
      within := 0;
      cluster := NextCluster(v, cluster);
    }
    RoundIsSlice(v, start, offset, buf[..total], cluster, within, left);
    assert was[total..] == old(buf[total..]);
    CountIsAvailable(v, start, offset, buf[..total], cluster, within, left);
  }

  lemma FirstRound(v: Volume, start: u32, offset: nat, len: nat, first: u32)
    requires v.sectorsPerCluster > 0 && first == Hops(v, start, Quot(offset, ClusterSize(v)))
    ensures RoundOk(v, start, offset, [], first, Rem(offset, ClusterSize(v)), len)
  {
  }

  lemma RoundIsSlice(v: Volume, start: u32, offset: nat, done: seq<byte>, cluster: u32, within: nat, left: nat)
    requires v.sectorsPerCluster > 0 && RoundOk(v, start, offset, done, cluster, within, left)
    ensures done == Slice(v, start, offset, |done|)
  {
    CopiedIsSlice(v, start, offset, done);
  }

  lemma CountIsAvailable(v: Volume, start: u32, offset: nat, done: seq<byte>, cluster: u32, within: nat, left: nat)
    requires v.sectorsPerCluster > 0 && RoundOk(v, start, offset, done, cluster, within, left)
    requires left == 0 || cluster < 2
    ensures IsAvailable(v, start, offset, |done| + left, |done|)
  {
  }

  // Between rounds: what is copied, and where the rest begins.
  ghost predicate RoundOk(v: Volume, start: u32, offset: nat, done: seq<byte>, cluster: u32, within: nat, left: nat)
    requires v.sectorsPerCluster > 0
  {
    Copied(v, start, offset, done) && (left > 0 ==> AtPosition(v, start, offset + |done|, cluster, within))
  }

  // One round: the rest of a cluster extends the slice, and the next cluster follows it.
  lemma NextRound(v: Volume, start: u32, offset: nat, done: seq<byte>, cluster: u32, within: nat, left: nat,
                  piece: seq<byte>)
    requires v.sectorsPerCluster > 0 && RoundOk(v, start, offset, done, cluster, within, left)
    requires left > 0 && cluster >= 2 && within + |piece| <= ClusterSize(v)
    requires |piece| == left || within + |piece| == ClusterSize(v)
    requires piece == Cluster(v, cluster)[within..within + |piece|] && |piece| <= left
    ensures RoundOk(v, start, offset, done + piece, NextCluster(v, cluster), 0, left - |piece|)
  {
    NextPiece(v, start, offset, done, cluster, within, piece);
    NextPosition(v, start, offset + |done|, cluster, within, |piece|);
    assert offset + |done| + |piece| == offset + |done + piece|;
  }

  lemma NextPiece(v: Volume, start: u32, offset: nat, done: seq<byte>, cluster: u32, within: nat, piece: seq<byte>)
    requires v.sectorsPerCluster > 0 && Copied(v, start, offset, done)
    requires AtPosition(v, start, offset + |done|, cluster, within) && cluster >= 2
    requires within + |piece| <= ClusterSize(v) && piece == Cluster(v, cluster)[within..within + |piece|]
    ensures Copied(v, start, offset, done + piece)
  {
    var from, all := offset + |done|, done + piece;
    forall p | offset <= p < offset + |all|
      ensures Reaches(v, start, p) && all[p - offset] == ChainByte(v, start, p)
    {
      if p < from {
        assert Reaches(v, start, p);
      } else {
        ByteOfCluster(v, start, from, cluster, within, p - from);
        assert from + (p - from) == p && all[p - offset] == piece[p - from];
      }
    }
  }

  lemma NextPosition(v: Volume, start: u32, p: nat, cluster: u32, within: nat, n: nat)
    requires v.sectorsPerCluster > 0 && AtPosition(v, start, p, cluster, within)
    ensures within + n == ClusterSize(v) ==> AtPosition(v, start, p + n, NextCluster(v, cluster), 0)
  {
    Advance(p, n, ClusterSize(v));
  }

  lemma ByteOfCluster(v: Volume, start: u32, p: nat, cluster: u32, r: nat, d: nat)
    requires v.sectorsPerCluster > 0 && cluster == Hops(v, start, Quot(p, ClusterSize(v))) >= 2
    requires r == Rem(p, ClusterSize(v)) && r + d < ClusterSize(v)
    ensures Reaches(v, start, p + d) && ChainByte(v, start, p + d) == Cluster(v, cluster)[r + d]
  {
    Advance(p, d, ClusterSize(v));
  }

  // Reads a cluster and copies `n` bytes of it to `total`.
  method CopyPiece(v: Volume, cluster: u32, clusterBuf: array<byte>, within: nat, n: nat, buf: array<byte>, total: nat)
    requires v.mounted && cluster >= 2 && v.sectorsPerCluster > 0 && clusterBuf.Length == ClusterSize(v)
    requires within + n <= ClusterSize(v) && total + n <= buf.Length && buf != clusterBuf
    modifies buf, clusterBuf
    ensures buf[..total + n] == old(buf[..total]) + Cluster(v, cluster)[within..within + n]
    ensures buf[total + n..] == old(buf[total + n..])
  {
    var _ := ReadCluster(v, cluster, clusterBuf);
    forall i | 0 <= i < n {
      buf[total + i] := clusterBuf[within + i];
    }
  }

  // ---------------------------------------------------------------- what is left

  /** The available count is unique, so the contract above determines the result. */
  lemma AvailableIsUnique(v: Volume, c: u32, offset: nat, len: nat, n: nat, m: nat)
    requires v.sectorsPerCluster > 0 && IsAvailable(v, c, offset, len, n) && IsAvailable(v, c, offset, len, m)
    ensures n == m
  {
  }

  // The chain from `c` has exactly `m` clusters.
  ghost predicate ChainLength(v: Volume, c: u32, m: nat) {
    Hops(v, c, m) < 2 && forall k :: 0 <= k < m ==> Hops(v, c, k) >= 2
  }

  /** On a chain of `m` clusters the count is the smaller of the request and what the chain
      has left behind the offset. */
  lemma AvailableCount(v: Volume, c: u32, offset: nat, len: nat, n: nat, m: nat)
    requires v.sectorsPerCluster > 0 && IsAvailable(v, c, offset, len, n)
    requires ChainLength(v, c, m) && offset <= m * ClusterSize(v)
    ensures n == if len <= m * ClusterSize(v) - offset then len else m * ClusterSize(v) - offset
  {
    var size := ClusterSize(v);
    var total := m * size;
    QuotBelow(total, m, size);
    DeadStaysDead(v, c, m, Quot(total, size));
    assert !Reaches(v, c, total);
    if offset + n < total {
      QuotBelow(offset + n, m, size);
      assert Reaches(v, c, offset + n);
    }
  }

  /** On a chain that never ends the count is the whole request. */
  lemma CyclicChainGivesAll(v: Volume, c: u32, offset: nat, len: nat, n: nat)
    requires v.sectorsPerCluster > 0 && IsAvailable(v, c, offset, len, n)
    requires forall k: nat :: Hops(v, c, k) >= 2
    ensures n == len
  {
    assert Reaches(v, c, offset + n);
  }
}
