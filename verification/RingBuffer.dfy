/**
 A circular buffer over a fixed array, as the sequence of its contents.
 */
module RingBuffers {
  import opened Words

  const RING_SIZE := 4096

  /** The index after `i` in a buffer of `size` cells. */
  function Next(i: nat, size: nat): (r: nat)
    requires i < size
    ensures r == if i + 1 == size then 0 else i + 1
  {
    (i + 1) % size
  }

  function Wrap(x: nat, size: nat): nat {
    if x < size then x else x - size
  }

  // The `n` cells from `tail` on, round the end.
  function Ring<T>(data: seq<T>, tail: nat, n: nat): (s: seq<T>)
    requires tail < |data| && n <= |data|
    ensures |s| == n
  {
    if tail + n <= |data| then data[tail..tail + n] else data[tail..] + data[..tail + n - |data|]
  }

  /** Writing the cell behind the contents appends to them. */
  lemma RingPut<T>(data: seq<T>, tail: nat, n: nat, x: T)
    requires tail < |data| && n < |data|
    ensures Ring(data[Wrap(tail + n, |data|) := x], tail, n + 1) == Ring(data, tail, n) + [x]
  {
  }

  /** The cell at the tail is the first of the contents, the rest starts behind it. */
  lemma RingTake<T>(data: seq<T>, tail: nat, n: nat)
    requires tail < |data| && 0 < n <= |data|
    ensures Ring(data, tail, n) == [data[tail]] + Ring(data, Next(tail, |data|), n - 1)
  {
  }

  class RingBuffer {
    const data: array<byte>
    var head: nat
    var tail: nat
    var count: nat

    ghost predicate Valid()
      reads this, data
    {
      && data.Length == RING_SIZE && tail < RING_SIZE && count <= RING_SIZE
      && head == Wrap(tail + count, RING_SIZE)
    }

    ghost function Contents(): (s: seq<byte>)
      requires Valid()
      reads this, data
      ensures |s| == count
    {
      Ring(data[..], tail, count)
    }

    constructor ()
      ensures Valid() && Contents() == [] && fresh(data)
    {
      data := new byte[RING_SIZE](_ => 0);
      head, tail, count := 0, 0, 0;
    }

    /** ring_buffer_init. */
    method Init()
      requires Valid()
      modifies this, data
      ensures Valid() && Contents() == []
    {
      forall k | 0 <= k < RING_SIZE {
        data[k] := 0;
      }
      head, tail, count := 0, 0, 0;
    }

    /** ring_buffer_write: all of the bytes or none. */
    method Write(src: seq<byte>) returns (r: int)
      requires Valid()
      modifies this, data
      ensures Valid()
      ensures r == if src == [] || |src| > RING_SIZE - |old(Contents())| then -1 else |src|
      ensures Contents() == if r == -1 then old(Contents()) else old(Contents()) + src
    {
      hide Ring, Wrap;
      if |src| == 0 {
        return -1;
      }
      var available := RING_SIZE - count;
      if |src| > available {
        return -1;
      }
      ghost var goal := Contents() + src;
      assert src[0..] == src;
      var i := 0;
      while i < |src|
        invariant i <= |src| && tail == old(tail) && count == old(count)
        invariant head == Wrap(tail + count + i, RING_SIZE)
        invariant Ring(data[..], tail, count + i) + src[i..] == goal
      {
        Put(src[i], count + i, src, i);
        i := i + 1;
      }
      EndOf(Ring(data[..], tail, count + |src|), src);
      count := count + |src|;
      return |src|;
    }

    // One byte behind the first `n`, the `i`th of `src`.
    method Put(b: byte, ghost n: nat, ghost src: seq<byte>, ghost i: nat)
      requires data.Length == RING_SIZE && tail < RING_SIZE && n < RING_SIZE && head == Wrap(tail + n, RING_SIZE)
      requires i < |src| && b == src[i]
      modifies this`head, data
      ensures head == Wrap(tail + n + 1, RING_SIZE)
      ensures Ring(data[..], tail, n + 1) + src[i + 1..] == Ring(old(data[..]), tail, n) + src[i..]
    {
      hide Ring;
      RingPut(data[..], tail, n, b);
      FirstOf(Ring(data[..], tail, n), src, i);
      data[head] := b;
      assert data[..] == old(data[..])[head := b];
      head := Next(head, RING_SIZE);
    }

    /** ring_buffer_read: up to `len` bytes, the oldest first. */
    method Read(dst: array<byte>, len: nat) returns (r: int)
      requires Valid() && dst != data && len <= dst.Length
      modifies this, dst
      ensures Valid() && data[..] == old(data[..])
      ensures r == if len == 0 then -1 else Lesser(len, |old(Contents())|)
      ensures r == -1 ==> Contents() == old(Contents()) && dst[..] == old(dst[..])
      ensures r != -1 ==> old(Contents()) == dst[..r] + Contents() && dst[r..] == old(dst[r..])
    {
      hide Ring, Wrap;
      if len == 0 {
        return -1;
      }
      var n := len;
      if n > count {
        n := count;
      }
      ghost var before := Contents();
      EmptyFront(dst[..], before);
      var i := 0;
      while i < n
        invariant i <= n <= count && count == old(count) && tail < RING_SIZE
        invariant head == Wrap(tail + (count - i), RING_SIZE)
        invariant data[..] == old(data[..]) && dst[n..] == old(dst[n..])
        invariant before == dst[..i] + Ring(data[..], tail, count - i)
      {
        Take(dst, i, count - i);
        i := i + 1;
      }
      count := count - n;
      return n;
    }

    // The byte at the tail, the first of `n`.
    method Take(dst: array<byte>, i: nat, ghost n: nat)
      requires data.Length == RING_SIZE && tail < RING_SIZE && 0 < n <= RING_SIZE && head == Wrap(tail + n, RING_SIZE)
      requires i < dst.Length && dst != data
      modifies this`tail, dst
      ensures tail < RING_SIZE && head == Wrap(tail + (n - 1), RING_SIZE) && dst[i + 1..] == old(dst[i + 1..])
      ensures dst[..i + 1] + Ring(data[..], tail, n - 1) == old(dst[..i] + Ring(data[..], tail, n))
    {
      hide Ring;
      RingTake(data[..], tail, n);
      dst[i] := data[tail];
      assert dst[..i + 1] == old(dst[..i]) + [data[tail]];
      Regroup(dst[..i], [data[tail]], Ring(data[..], Next(tail, RING_SIZE), n - 1));
      tail := Next(tail, RING_SIZE);
    }
  }

  lemma EndOf(r: seq<byte>, src: seq<byte>)
    ensures r + src[|src|..] == r
  {
  }

  lemma FirstOf(r: seq<byte>, src: seq<byte>, i: nat)
    requires i < |src|
    ensures r + [src[i]] + src[i + 1..] == r + src[i..]
  {
  }

  lemma Regroup(a: seq<byte>, b: seq<byte>, c: seq<byte>)
    ensures a + b + c == a + (b + c)
  {
  }

  lemma EmptyFront(d: seq<byte>, r: seq<byte>)
    ensures d[..0] + r == r
  {
  }
}
