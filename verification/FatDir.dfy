/**
 The three walkers over a FAT32 directory: listing names, reading the entry with a
 given number, and finding a name. Each is proved against its own function of the
 directory's entries; the lemmas then say how the three agree.
 */
module FatDir {
  import opened Bits
  import opened Options
  import opened Words
  import opened Fat32

  const ENTRY := 32
  const SLOT := 13
  const SPACE: byte := 0x20
  const DOT: byte := 0x2E
  const DELETED: byte := 0xE5

  type Entry = e: seq<byte> | |e| == ENTRY witness seq(ENTRY, _ => 0)

  // ---------------------------------------------------------------- entries

  function Attr(e: Entry): byte { e[11] }

  predicate EndsDirectory(e: Entry) { e[0] == 0 }

  predicate IsVolumeLabel(e: Entry) { (Attr(e) / 8) % 2 == 1 }

  // Neither deleted nor part of a long name: what fat32_lookup compares.
  predicate Findable(e: Entry) { e[0] != DELETED && Attr(e) != 0x0F }

  // What listing and numbering show.
  predicate Visible(e: Entry) { Findable(e) && !IsVolumeLabel(e) }

  function EntriesPerCluster(v: Volume): nat { v.sectorsPerCluster * 16 }

  function EntryAt(bytes: seq<byte>, i: nat): Entry
    requires i * ENTRY + ENTRY <= |bytes|
  {
    bytes[i * ENTRY..i * ENTRY + ENTRY]
  }

  function EntriesFrom(bytes: seq<byte>, i: nat, n: nat): seq<Entry>
    requires n * ENTRY <= |bytes|
    decreases n - i
  {
    if i >= n then [] else [EntryAt(bytes, i)] + EntriesFrom(bytes, i + 1, n)
  }

  /** All entry slots of the directory chain from `c`, at most `m` clusters of it. */
  function ChainEntries(v: Volume, c: u32, m: nat): seq<Entry>
    decreases m
  {
    if c < 2 || m == 0 then []
    else EntriesFrom(Cluster(v, c), 0, EntriesPerCluster(v)) + ChainEntries(v, NextCluster(v, c), m - 1)
  }

  // The visible entries before the end marker.
  function VisibleOf(es: seq<Entry>): seq<Entry> {
    if es == [] || EndsDirectory(es[0]) then []
    else if Visible(es[0]) then [es[0]] + VisibleOf(es[1..]) else VisibleOf(es[1..])
  }

  function Joined(es: seq<Entry>): seq<byte> {
    if es == [] then [] else es[0] + Joined(es[1..])
  }

  /** The bytes of at most `m` clusters of the chain. */
  function ChainBytes(v: Volume, c: u32, m: nat): seq<byte>
    decreases m
  {
    if c < 2 || m == 0 then [] else Cluster(v, c) + ChainBytes(v, NextCluster(v, c), m - 1)
  }

  /** No byte of a directory is skipped or seen twice: its entries, one behind the other, are
      the bytes of its clusters. */
  lemma {:induction false} EntriesAreBytes(v: Volume, c: u32, m: nat)
    ensures Joined(ChainEntries(v, c, m)) == ChainBytes(v, c, m)
    decreases m
  {
    hide Cluster, NextCluster;
    if c >= 2 && m > 0 {
      var es := EntriesFrom(Cluster(v, c), 0, EntriesPerCluster(v));
      EntriesAreBytes(v, NextCluster(v, c), m - 1);
      ClusterEntries(Cluster(v, c), 0, EntriesPerCluster(v));
      assert Cluster(v, c)[0..] == Cluster(v, c);
      JoinedAppend(es, ChainEntries(v, NextCluster(v, c), m - 1));
    }
  }

  lemma {:induction false} ClusterEntries(bytes: seq<byte>, i: nat, n: nat)
    requires i <= n && |bytes| == n * 32
    ensures Joined(EntriesFrom(bytes, i, n)) == bytes[i * 32..]
    decreases n - i
  {
    if i < n {
      ClusterEntries(bytes, i + 1, n);
      assert EntriesFrom(bytes, i, n)[1..] == EntriesFrom(bytes, i + 1, n);
      assert bytes[i * 32..] == bytes[i * 32..i * 32 + 32] + bytes[(i + 1) * 32..];
    }
  }

  lemma AddTwice(x: seq<byte>, y: seq<byte>, z: seq<byte>)
    ensures x + (y + z) == x + y + z
  {
  }

  lemma {:induction false} JoinedAppend(a: seq<Entry>, b: seq<Entry>)
    ensures Joined(a + b) == Joined(a) + Joined(b)
  {
    if a == [] {
      assert a + b == b;
    } else {
      JoinedAppend(a[1..], b);
      assert (a + b)[0] == a[0] && (a + b)[1..] == a[1..] + b;
      AddTwice(a[0], Joined(a[1..]), Joined(b));
    }
  }

  // ---------------------------------------------------------------- names

  // The bytes before the first space, at most `n` of them.
  function UpToSpace(s: seq<byte>): (r: seq<byte>)
    ensures |r| <= |s|
  {
    if s == [] || s[0] == SPACE then [] else [s[0]] + UpToSpace(s[1..])
  }

  /** The name as the walkers print it: base, and a dot and extension unless that is blank. */
  function Trim(e: Entry): (r: seq<byte>)
    ensures |r| <= 12
  {
    UpToSpace(e[..8]) + if e[8] != SPACE then [DOT] + UpToSpace(e[8..11]) else []
  }

  // A C string in a buffer: the bytes before the terminator.
  function CString(s: seq<byte>): seq<byte> {
    if s == [] || s[0] == 0 then [] else [s[0]] + CString(s[1..])
  }

  function NameOf(e: Entry): seq<byte> {
    CString(Trim(e))
  }

  // ---------------------------------------------------------------- the walkers' functions

  function Nth(es: seq<Entry>, idx: nat): Option<Entry> {
    if es == [] || EndsDirectory(es[0]) then None
    else if !Visible(es[0]) then Nth(es[1..], idx)
    else if idx == 0 then Some(es[0])
    else Nth(es[1..], idx - 1)
  }

  function Find(es: seq<Entry>, name: seq<byte>): Option<Entry> {
    if es == [] || EndsDirectory(es[0]) then None
    else if Findable(es[0]) && NameOf(es[0]) == name then Some(es[0])
    else Find(es[1..], name)
  }

  function Listing(es: seq<Entry>, max: nat): seq<seq<byte>> {
    if es == [] || EndsDirectory(es[0]) || max == 0 then []
    else if Visible(es[0]) then [Trim(es[0])] + Listing(es[1..], max - 1)
    else Listing(es[1..], max)
  }

  // ---------------------------------------------------------------- the walkers

  // The chain from `c` ends within `m` clusters.
  ghost predicate EndsWithin(v: Volume, c: u32, m: nat) {
    Hops(v, c, m) < 2
  }

  lemma {:induction false} HopsFromNext(v: Volume, c: u32, m: nat)
    ensures Hops(v, NextCluster(v, c), m) == Hops(v, c, m + 1)
  {
    if m > 0 {
      HopsFromNext(v, c, m - 1);
    }
  }

  // The entries alone bring each walk to an end: an end marker, or all that was asked for.
  predicate NthSettled(es: seq<Entry>, idx: nat) {
    es != [] && (EndsDirectory(es[0])
                 || (if !Visible(es[0]) then NthSettled(es[1..], idx) else idx == 0 || NthSettled(es[1..], idx - 1)))
  }

  predicate FindSettled(es: seq<Entry>, name: seq<byte>) {
    es != [] && (EndsDirectory(es[0]) || (Findable(es[0]) && NameOf(es[0]) == name) || FindSettled(es[1..], name))
  }

  predicate ListSettled(es: seq<Entry>, max: nat) {
    max == 0 || (es != [] && (EndsDirectory(es[0]) || ListSettled(es[1..], if Visible(es[0]) then max - 1 else max)))
  }

  // The walk from `c` ends within `m` clusters: the chain does, or its entries settle it.
  ghost predicate NthEnds(v: Volume, c: u32, m: nat, idx: nat) {
    EndsWithin(v, c, m) || NthSettled(ChainEntries(v, c, m), idx)
  }

  ghost predicate FindEnds(v: Volume, c: u32, m: nat, name: seq<byte>) {
    EndsWithin(v, c, m) || FindSettled(ChainEntries(v, c, m), name)
  }

  ghost predicate ListEnds(v: Volume, c: u32, m: nat, max: nat) {
    EndsWithin(v, c, m) || ListSettled(ChainEntries(v, c, m), max)
  }

  // Follows the chain by one cluster: the entries are that cluster's and then the rest's.
  method Follow(v: Volume, c: u32, ghost m: nat) returns (c': u32, ghost rest: seq<Entry>)
    requires c >= 2 && m > 0
    ensures (EndsWithin(v, c, m) ==> EndsWithin(v, c', m - 1)) && rest == ChainEntries(v, c', m - 1)
    ensures ChainEntries(v, c, m) == EntriesFrom(Cluster(v, c), 0, EntriesPerCluster(v)) + rest
  {
    HopsFromNext(v, c, m - 1);
    c' := NextCluster(v, c);
    rest := ChainEntries(v, c', m - 1);
  }

  /** fat32_readdir: the entry with number `idx` among the visible ones. */
  method ReadDir(v: Volume, dir: u32, idx: nat, memory: bool, ghost m: nat) returns (r: Option<Entry>)
    requires NthEnds(v, dir, m, idx)
    ensures r == if memory && CanRead(v) then Nth(ChainEntries(v, dir, m), idx) else None
  {
    hide NthEnds, ChainEntries, Nth;
    if !memory {
      return None;
    }
    var buf := new byte[ClusterSize(v)];
    var cluster, want := dir, idx;
    ghost var left := m;
    while cluster >= 2
      invariant NthEnds(v, cluster, left, want)
      invariant Nth(ChainEntries(v, dir, m), idx) == Nth(ChainEntries(v, cluster, left), want)
      decreases left
    {
      var stop;
      stop, r, cluster, want := ReadDirRound(v, cluster, buf, want, left);
      if stop {
        return r;
      }
      left := left - 1;
    }
    NothingAtEnd(v, cluster, left, want);
    return None;
  }

  lemma NothingAtEnd(v: Volume, c: u32, m: nat, idx: nat)
    requires c < 2
    ensures Nth(ChainEntries(v, c, m), idx) == None
  {
  }

  // One cluster of readdir, and the cluster after it.
  method ReadDirRound(v: Volume, cluster: u32, buf: array<byte>, idx: nat, ghost m: nat)
    returns (stop: bool, r: Option<Entry>, next: u32, want: nat)
    requires cluster >= 2 && NthEnds(v, cluster, m, idx) && buf.Length == ClusterSize(v)
    modifies buf
    ensures m > 0 && (!stop ==> NthEnds(v, next, m - 1, want))
    ensures !CanRead(v) ==> stop && r == None
    ensures CanRead(v) ==>
              Nth(ChainEntries(v, cluster, m), idx) == if stop then r else Nth(ChainEntries(v, next, m - 1), want)
  {
    ghost var rest;
    next, rest := Follow(v, cluster, m);
    var ok := ReadCluster(v, cluster, buf);
    if !ok {
      return true, None, next, idx;
    }
    stop, r, want := NthInCluster(buf, EntriesPerCluster(v), idx, rest);
  }

  predicate CanRead(v: Volume) { v.mounted && v.sectorsPerCluster > 0 }

  // One cluster of readdir: either the answer, or how many visible entries are still to
  // be skipped in what follows.
  method NthInCluster(buf: array<byte>, n: nat, idx: nat, ghost next: seq<Entry>)
    returns (stop: bool, r: Option<Entry>, want: nat)
    requires n * ENTRY <= buf.Length
    ensures Nth(EntriesFrom(buf[..], 0, n) + next, idx) == if stop then r else Nth(next, want)
    ensures !stop && NthSettled(EntriesFrom(buf[..], 0, n) + next, idx) ==> NthSettled(next, want)
  {
    want, r := idx, None;
    var i := 0;
    while i < n
      invariant 0 <= i <= n
      invariant Nth(EntriesFrom(buf[..], 0, n) + next, idx) == Nth(EntriesFrom(buf[..], i, n) + next, want)
      invariant NthSettled(EntriesFrom(buf[..], 0, n) + next, idx) ==> NthSettled(EntriesFrom(buf[..], i, n) + next, want)
    {
      var e := EntryAt(buf[..], i);
      NextEntry(buf[..], i, n, next);
      if e[0] == 0 {
        return true, None, want;
      }
      if e[0] != DELETED && e[11] != 0x0F && (e[11] / 8) % 2 != 1 {
        if want == 0 {
          return true, Some(e), want;
        }
        want := want - 1;
      }
      i := i + 1;
    }
    assert EntriesFrom(buf[..], n, n) + next == next;
    return false, None, want;
  }

  lemma NoEntries(bytes: seq<byte>, n: nat, next: seq<Entry>)
    requires n * ENTRY <= |bytes|
    ensures EntriesFrom(bytes, n, n) + next == next
  {
  }

  lemma NextEntry(bytes: seq<byte>, i: nat, n: nat, next: seq<Entry>)
    requires i < n && n * ENTRY <= |bytes|
    ensures var es := EntriesFrom(bytes, i, n) + next;
      && es != [] && es[0] == EntryAt(bytes, i) && es[1..] == EntriesFrom(bytes, i + 1, n) + next
  {
  }

  // ---------------------------------------------------------------- building a name

  // The bytes of `name` from `i` up to the first space, at most as far as `end`.
  lemma {:induction false} UpToSpaceStep(name: seq<byte>, i: nat, end: nat)
    requires i < end <= |name|
    ensures name[i] == SPACE ==> UpToSpace(name[i..end]) == []
    ensures name[i] != SPACE ==> UpToSpace(name[i..end]) == [name[i]] + UpToSpace(name[i + 1..end])
  {
    assert name[i..end][1..] == name[i + 1..end];
  }

  lemma StopsAtEnd(name: Entry, end: nat)
    requires end <= 11
    ensures UpToSpace(name[end..end]) == []
  {
  }

  // A buffer with `s` written at `at`.
  function Put(was: seq<byte>, at: nat, s: seq<byte>): (r: seq<byte>)
    requires at + |s| <= |was|
    ensures |r| == |was|
  {
    was[..at] + s + was[at + |s|..]
  }

  lemma PutNothing(was: seq<byte>, at: nat)
    requires at <= |was|
    ensures Put(was, at, []) == was
  {
  }

  lemma PutTwice(was: seq<byte>, at: nat, s: seq<byte>, t: seq<byte>)
    requires at + |s| + |t| <= |was|
    ensures Put(Put(was, at, s), at + |s|, t) == Put(was, at, s + t)
  {
  }

  // Copies name bytes from `from` until a space or `end`.
  method CopyPart(out: array<byte>, at: nat, name: Entry, from: nat, end: nat) returns (k: nat)
    requires from <= end <= 11 && at + (end - from) <= out.Length
    modifies out
    ensures k == at + |UpToSpace(name[from..end])| <= at + (end - from)
    ensures out[..] == Put(old(out[..]), at, UpToSpace(name[from..end]))
  {
    hide UpToSpace, Put;
    PutNothing(out[..], at);
    k := at;
    var i := from;
    StopsAtEnd(name, end);
    ghost var was, part := out[..], UpToSpace(name[from..end]);
    ghost var done: seq<byte> := [];
    while i < end && name[i] != SPACE
      invariant from <= i <= end && |done| == i - from && k == at + |done|
      invariant part == done + UpToSpace(name[i..end])
      invariant out[..] == Put(was, at, done)
    {
      UpToSpaceStep(name, i, end);
      PutTwice(was, at, done, [name[i]]);
      PutByte(out, k, name[i]);
      done := done + [name[i]];
      k := k + 1;
      i := i + 1;
    }
    if i < end {
      UpToSpaceStep(name, i, end);
    }
    assert part == done;
  }

  method PutByte(out: array<byte>, at: nat, b: byte)
    requires at < out.Length
    modifies out
    ensures out[..] == Put(old(out[..]), at, [b])
  {
    out[at] := b;
  }

  /** fat32_trim_name: the trimmed name and its terminator, at `at`. */
  method TrimName(out: array<byte>, at: nat, e: Entry)
    requires at + SLOT <= out.Length
    modifies out
    ensures out[..] == Put(old(out[..]), at, Trim(e) + [0])
  {
    hide Put, UpToSpace;
    ghost var was := out[..];
    var k := CopyPart(out, at, e, 0, 8);
    ghost var o1 := out[..];
    if e[8] != SPACE {
      PutByte(out, k, DOT);
      ghost var o2 := out[..];
      var l := CopyPart(out, k + 1, e, 8, 11);
      ghost var o3 := out[..];
      PutByte(out, l, 0);
      TrimWithExtension(was, at, e, o1, k, o2, o3, l, out[..]);
    } else {
      PutByte(out, k, 0);
      TrimWithoutExtension(e);
      PutTwice(was, at, UpToSpace(e[0..8]), [0]);
    }
  }

  lemma TrimWithoutExtension(e: Entry)
    requires e[8] == SPACE
    ensures Trim(e) == UpToSpace(e[0..8])
  {
    assert e[0..8] == e[..8];
  }

  // The pieces that TrimName writes one behind the other are the trimmed name.
  lemma TrimWithExtension(was: seq<byte>, at: nat, e: Entry, o1: seq<byte>, k: nat, o2: seq<byte>, o3: seq<byte>,
                          l: nat, o4: seq<byte>)
    requires at + SLOT <= |was| && e[8] != SPACE
    requires k == at + |UpToSpace(e[0..8])| && l == k + 1 + |UpToSpace(e[8..11])|
    requires o1 == Put(was, at, UpToSpace(e[0..8])) && o2 == Put(o1, k, [DOT])
    requires o3 == Put(o2, k + 1, UpToSpace(e[8..11])) && o4 == Put(o3, l, [0])
    ensures o4 == Put(was, at, Trim(e) + [0])
  {
    hide Put, UpToSpace;
    var base, ext := UpToSpace(e[0..8]), UpToSpace(e[8..11]);
    assert e[0..8] == e[..8];
    assert Trim(e) == base + [DOT] + ext;
    PutTwice(was, at, base, [DOT]);
    PutTwice(was, at, base + [DOT], ext);
    PutTwice(was, at, Trim(e), [0]);
  }

  // ---------------------------------------------------------------- listing

  // Slot `j` holds the name and its terminator.
  predicate SlotHolds(out: seq<byte>, j: nat, name: seq<byte>)
    requires j * 13 + 13 <= |out| && |name| <= 12
  {
    out[j * 13..j * 13 + |name| + 1] == name + [0]
  }

  // The names stand one to a slot from the start of the buffer, nothing behind them changed.
  ghost predicate Listed(was: seq<byte>, out: seq<byte>, names: seq<seq<byte>>) {
    && |out| == |was| && |names| * 13 <= |out|
    && (forall j :: 0 <= j < |names| ==> |names[j]| <= 12)
    && (forall j :: 0 <= j < |names| ==> SlotHolds(out, j, names[j]))
    && (forall k :: |names| * 13 <= k < |out| ==> out[k] == was[k])
  }

  lemma OneMoreName(was: seq<byte>, out: seq<byte>, names: seq<seq<byte>>, name: seq<byte>)
    requires Listed(was, out, names) && |name| <= 12 && |names| * SLOT + SLOT <= |out|
    ensures Listed(was, Put(out, |names| * SLOT, name + [0]), names + [name])
  {
    var more, out' := names + [name], Put(out, |names| * SLOT, name + [0]);
    forall j | 0 <= j < |more|
      ensures SlotHolds(out', j, more[j])
    {
      if j < |names| {
        assert SlotHolds(out, j, names[j]);
        assert j * SLOT + SLOT <= |names| * SLOT;
        assert out'[j * SLOT..j * SLOT + |names[j]| + 1] == out[j * SLOT..j * SLOT + |names[j]| + 1];
      }
    }
  }

  /** fat32_list_root: at most `max` trimmed names, in slots of thirteen bytes. */
  method ListRoot(v: Volume, out: array<byte>, max: int, memory: bool, ghost m: nat) returns (rc: int)
    requires (max > 0 ==> ListEnds(v, v.rootCluster, m, max)) && max * SLOT <= out.Length
    modifies out
    ensures !v.mounted || max <= 0 || !memory ==> rc == -1 && out[..] == old(out[..])
    ensures v.mounted && max > 0 && memory && !CanRead(v) ==> rc == 0
    ensures CanRead(v) && max > 0 && memory ==>
              var names := Listing(ChainEntries(v, v.rootCluster, m), max);
              rc == |names| && Listed(old(out[..]), out[..], names)
  {
    if !v.mounted || max <= 0 || !memory {
      return -1;
    }
    var buf := new byte[ClusterSize(v)];
    rc := ListChain(v, buf, out, max, m, ChainEntries(v, v.rootCluster, m));
  }

  method ListChain(v: Volume, buf: array<byte>, out: array<byte>, max: nat, ghost m: nat, ghost es: seq<Entry>)
    returns (count: nat)
    requires ListEnds(v, v.rootCluster, m, max) && es == ChainEntries(v, v.rootCluster, m)
    requires max > 0 && max * SLOT <= out.Length && buf.Length == ClusterSize(v) && buf != out
    modifies out, buf
    ensures CanRead(v) ==> count == |Listing(es, max)| && Listed(old(out[..]), out[..], Listing(es, max))
    ensures !CanRead(v) ==> count == 0
  {
    hide ListEnds, ChainEntries, Listing, Listed;
    NothingListed(out[..], v, v.rootCluster, m, max);
    var cluster := v.rootCluster;
    count := 0;
    ghost var left, was, names, es', goal := m, out[..], [], es, Listing(es, max);
    var stop := false;
    while cluster >= 2 && count < max && !stop
      invariant Listed(was, out[..], names) && count == |names| <= max
      invariant !stop ==> ListEnds(v, cluster, left, max - count) && es' == ChainEntries(v, cluster, left)
      invariant !CanRead(v) ==> count == 0
      invariant CanRead(v) ==> goal == if stop then names else names + Listing(es', max - count)
      decreases !stop, left
    {
      stop, cluster, count, names, es' := ListRound(v, cluster, buf, out, count, max, left, es', was, names, goal);
      left := left - 1;
    }
    if !stop {
      NoMoreListed(v, cluster, left, max - count, names);
    }
  }

  lemma NothingListed(was: seq<byte>, v: Volume, c: u32, m: nat, max: nat)
    ensures Listed(was, was, []) && [] + Listing(ChainEntries(v, c, m), max) == Listing(ChainEntries(v, c, m), max)
  {
  }

  lemma NoMoreListed(v: Volume, c: u32, m: nat, max: nat, names: seq<seq<byte>>)
    requires c < 2 || max == 0
    ensures names + Listing(ChainEntries(v, c, m), max) == names
  {
  }

  // One cluster of the listing, and the cluster after it.
  method ListRound(v: Volume, cluster: u32, buf: array<byte>, out: array<byte>, count: nat, max: nat,
                   ghost m: nat, ghost es: seq<Entry>, ghost was: seq<byte>, ghost names: seq<seq<byte>>,
                   ghost goal: seq<seq<byte>>)
    returns (stop: bool, next: u32, total: nat, ghost listed: seq<seq<byte>>, ghost rest: seq<Entry>)
    requires cluster >= 2 && es == ChainEntries(v, cluster, m)
    requires buf.Length == ClusterSize(v) && buf != out
    requires Listed(was, out[..], names) && count == |names| < max && max * SLOT <= out.Length
    requires ListEnds(v, cluster, m, max - count)
    requires CanRead(v) ==> goal == names + Listing(es, max - count)
    modifies buf, out
    ensures m > 0 && rest == ChainEntries(v, next, m - 1) && total <= max
    ensures !stop ==> ListEnds(v, next, m - 1, max - total)
    ensures !CanRead(v) ==> stop && total == count
    ensures Listed(was, out[..], listed) && total == |listed| <= max
    ensures CanRead(v) ==> goal == if stop then listed else listed + Listing(rest, max - total)
  {
    hide Listing, Listed, EntriesFrom, Cluster, NextCluster;
    next, rest := Follow(v, cluster, m);
    var ok := ReadCluster(v, cluster, buf);
    if !ok {
      return true, next, count, names, rest;
    }
    stop, total, listed := ListCluster(buf, EntriesPerCluster(v), out, count, max, rest, was, names, goal);
  }

  // The entries of one cluster, up to the end marker or the limit.
  method ListCluster(buf: array<byte>, n: nat, out: array<byte>, first: nat, max: nat,
                     ghost rest: seq<Entry>, ghost was: seq<byte>, ghost names: seq<seq<byte>>, ghost goal: seq<seq<byte>>)
    returns (stop: bool, count: nat, ghost listed: seq<seq<byte>>)
    requires n * ENTRY <= buf.Length && buf != out
    requires Listed(was, out[..], names) && first == |names| < max && max * SLOT <= out.Length
    requires goal == names + Listing(EntriesFrom(buf[..], 0, n) + rest, max - first)
    modifies out
    ensures Listed(was, out[..], listed) && count == |listed| <= max
    ensures goal == if stop then listed else listed + Listing(rest, max - count)
    ensures !stop && ListSettled(EntriesFrom(buf[..], 0, n) + rest, max - first) ==> ListSettled(rest, max - count)
  {
    hide EntriesFrom, Listed, Put, Trim;
    count, listed := first, names;
    NoEntries(buf[..], n, rest);
    var i := 0;
    while i < n
      invariant 0 <= i <= n && Listed(was, out[..], listed) && count == |listed| < max
      invariant goal == listed + Listing(EntriesFrom(buf[..], i, n) + rest, max - count)
      invariant ListSettled(EntriesFrom(buf[..], 0, n) + rest, max - first) ==>
                  ListSettled(EntriesFrom(buf[..], i, n) + rest, max - count)
    {
      var e := EntryAt(buf[..], i);
      NextEntry(buf[..], i, n, rest);
      ghost var later := EntriesFrom(buf[..], i + 1, n) + rest;
      if e[0] == 0 {
        return true, count, listed;
      }
      if e[0] != DELETED && e[11] != 0x0F && (e[11] / 8) % 2 != 1 {
        OneMoreName(was, out[..], listed, Trim(e));
        TrimName(out, count * SLOT, e);
        assert listed + ([Trim(e)] + Listing(later, max - count - 1)) == (listed + [Trim(e)]) + Listing(later, max - count - 1);
        listed := listed + [Trim(e)];
        count := count + 1;
        if count >= max {
          return false, count, listed;
        }
      }
      i := i + 1;
    }
    return false, count, listed;
  }

  // ---------------------------------------------------------------- lookup

  /** strcmp of a buffer holding a terminated string with a name. */
  method SameString(buf: array<byte>, name: seq<byte>) returns (same: bool)
    requires 0 in buf[..] && 0 !in name
    ensures same <==> CString(buf[..]) == name
  {
    hide CString;
    assert buf[0..] == buf[..] && name[0..] == name;
    var i := 0;
    while i < |name| && buf[i] != 0 && buf[i] == name[i]
      invariant 0 <= i <= |name| && i < buf.Length && 0 in buf[i..]
      invariant CString(buf[..]) == name <==> CString(buf[i..]) == name[i..]
    {
      SameHead(buf[i..], name[i..]);
      assert buf[i..][1..] == buf[i + 1..] && name[i..][1..] == name[i + 1..];
      i := i + 1;
    }
    OtherHead(buf[i..], name[i..]);
    return i == |name| && buf[i] == 0;
  }

  lemma SameHead(s: seq<byte>, name: seq<byte>)
    requires s != [] && name != [] && s[0] == name[0] != 0 && 0 in s
    ensures (CString(s) == name <==> CString(s[1..]) == name[1..]) && 0 in s[1..]
  {
    assert s == [s[0]] + s[1..] && name == [name[0]] + name[1..];
  }

  lemma OtherHead(s: seq<byte>, name: seq<byte>)
    requires s != [] && 0 !in name && (name == [] || s[0] == 0 || s[0] != name[0])
    ensures CString(s) == name <==> name == [] && s[0] == 0
  {
  }

  /** fat32_lookup: the first comparable entry whose printed name is `name`. */
  method Lookup(v: Volume, dir: u32, name: seq<byte>, memory: bool, ghost m: nat) returns (r: Option<Entry>)
    requires FindEnds(v, dir, m, name) && 0 !in name
    ensures r == if memory && CanRead(v) then Find(ChainEntries(v, dir, m), name) else None
  {
    hide FindEnds, ChainEntries, Find;
    if !memory {
      return None;
    }
    var buf := new byte[ClusterSize(v)];
    var cluster := dir;
    ghost var left := m;
    while cluster >= 2
      invariant FindEnds(v, cluster, left, name)
      invariant Find(ChainEntries(v, dir, m), name) == Find(ChainEntries(v, cluster, left), name)
      decreases left
    {
      var stop;
      stop, r, cluster := LookupRound(v, cluster, buf, name, left);
      if stop {
        return r;
      }
      left := left - 1;
    }
    NothingAfterEnd(v, cluster, left, name);
    return None;
  }

  lemma NothingAfterEnd(v: Volume, c: u32, m: nat, name: seq<byte>)
    requires c < 2
    ensures Find(ChainEntries(v, c, m), name) == None
  {
  }

  method LookupRound(v: Volume, cluster: u32, buf: array<byte>, name: seq<byte>, ghost m: nat)
    returns (stop: bool, r: Option<Entry>, next: u32)
    requires cluster >= 2 && FindEnds(v, cluster, m, name) && buf.Length == ClusterSize(v) && 0 !in name
    modifies buf
    ensures m > 0 && (!stop ==> FindEnds(v, next, m - 1, name))
    ensures !CanRead(v) ==> stop && r == None
    ensures CanRead(v) ==>
              Find(ChainEntries(v, cluster, m), name) == if stop then r else Find(ChainEntries(v, next, m - 1), name)
  {
    ghost var rest;
    next, rest := Follow(v, cluster, m);
    var ok := ReadCluster(v, cluster, buf);
    if !ok {
      return true, None, next;
    }
    stop, r := FindInCluster(buf, EntriesPerCluster(v), name, rest);
  }

  method FindInCluster(buf: array<byte>, n: nat, name: seq<byte>, ghost next: seq<Entry>)
    returns (stop: bool, r: Option<Entry>)
    requires n * ENTRY <= buf.Length && 0 !in name
    ensures Find(EntriesFrom(buf[..], 0, n) + next, name) == if stop then r else Find(next, name)
    ensures !stop && FindSettled(EntriesFrom(buf[..], 0, n) + next, name) ==> FindSettled(next, name)
  {
    var i := 0;
    while i < n
      invariant 0 <= i <= n
      invariant Find(EntriesFrom(buf[..], 0, n) + next, name) == Find(EntriesFrom(buf[..], i, n) + next, name)
      invariant FindSettled(EntriesFrom(buf[..], 0, n) + next, name) ==> FindSettled(EntriesFrom(buf[..], i, n) + next, name)
    {
      var e := EntryAt(buf[..], i);
      NextEntry(buf[..], i, n, next);
      if e[0] == 0 {
        return true, None;
      }
      if e[0] != DELETED && e[11] != 0x0F {
        var same := HasName(e, name);
        if same {
          return true, Some(e);
        }
      }
      i := i + 1;
    }
    assert EntriesFrom(buf[..], n, n) + next == next;
    return false, None;
  }

  // The entry's name, built in a local buffer, compared with `name`.
  method HasName(e: Entry, name: seq<byte>) returns (same: bool)
    requires 0 !in name
    ensures same <==> NameOf(e) == name
  {
    var entryName := new byte[SLOT](_ => 0);
    TrimName(entryName, 0, e);
    ghost var rest := entryName[|Trim(e)| + 1..];
    assert entryName[..] == Trim(e) + [0] + rest;
    assert entryName[|Trim(e)|] == 0;
    CStringStops(Trim(e), rest);
    same := SameString(entryName, name);
  }

  lemma {:induction false} CStringStops(s: seq<byte>, rest: seq<byte>)
    ensures CString(s + [0] + rest) == CString(s)
  {
    if s == [] {
      assert s + [0] + rest == [0] + rest;
    } else {
      CStringStops(s[1..], rest);
      assert s + [0] + rest == [s[0]] + (s[1..] + [0] + rest);
    }
  }

  // ---------------------------------------------------------------- how they agree

  /** readdir numbers exactly the visible entries. */
  lemma {:induction false} NthIsVisible(es: seq<Entry>, idx: nat)
    ensures Nth(es, idx) == if idx < |VisibleOf(es)| then Some(VisibleOf(es)[idx]) else None
  {
    if es != [] && !EndsDirectory(es[0]) {
      if !Visible(es[0]) {
        NthIsVisible(es[1..], idx);
      } else if idx > 0 {
        NthIsVisible(es[1..], idx - 1);
      }
    }
  }

  /** The listing with limit `max` has min(max, number of visible entries) names, and its
      k-th is the trimmed name of readdir's k-th entry. */
  lemma {:induction false} ListingIsReadDir(es: seq<Entry>, max: nat)
    ensures |Listing(es, max)| == if max <= |VisibleOf(es)| then max else |VisibleOf(es)|
    ensures forall k :: 0 <= k < |Listing(es, max)| ==>
              Nth(es, k).Some? && Listing(es, max)[k] == Trim(Nth(es, k).value)
  {
    ListingIsVisible(es, max);
    forall k | 0 <= k < |Listing(es, max)|
      ensures Nth(es, k).Some? && Listing(es, max)[k] == Trim(Nth(es, k).value)
    {
      NthIsVisible(es, k);
    }
  }

  lemma {:induction false} ListingIsVisible(es: seq<Entry>, max: nat)
    ensures |Listing(es, max)| == if max <= |VisibleOf(es)| then max else |VisibleOf(es)|
    ensures forall k :: 0 <= k < |Listing(es, max)| ==> Listing(es, max)[k] == Trim(VisibleOf(es)[k])
  {
    if es != [] && !EndsDirectory(es[0]) && max > 0 {
      ListingIsVisible(es[1..], if Visible(es[0]) then max - 1 else max);
    }
  }

  lemma LabelBit(a: nat)
    ensures BitAnd(a, 0x08) == a / 8 % 2 * 8
  {
    EvenMask(a, 4);
    EvenMask(a / 2, 2);
    EvenMask(a / 4, 1);
    assert a / 8 == a / 2 / 2 / 2;
    assert BitAnd(a / 8, 1) == 2 * BitAnd(a / 8 / 2, 0) + a / 8 % 2;
  }

  // An end marker, the first byte zero.
  ghost predicate Ended(es: seq<Entry>) {
    exists i :: 0 <= i < |es| && es[i][0] == 0
  }

  /** Which entries are shown: those before the first zero name byte that are not marked
      deleted, do not have the attributes of a long name, and are no label. */
  lemma {:induction false} ShownEntry(es: seq<Entry>, e: Entry)
    ensures VisibleOf(es + [e]) == VisibleOf(es) +
      if !Ended(es) && e[0] != 0 && e[0] != 0xE5 && e[11] != 0x0F && BitAnd(e[11], 0x08) == 0 then [e] else []
  {
    LabelBit(e[11]);
    if es == [] {
      assert es + [e] == [e] && [e][1..] == [];
    } else {
      ShownEntry(es[1..], e);
      assert (es + [e])[1..] == es[1..] + [e];
      assert es[0][0] != 0 ==> (Ended(es) <==> Ended(es[1..])) by { EndedBehind(es); }
    }
  }

  /** Which entries lookup compares: labels too. The first whose printed name is the name asked
      for is the answer. */
  lemma {:induction false} ComparedEntry(es: seq<Entry>, e: Entry, name: seq<byte>)
    ensures Find(es + [e], name) ==
      if Find(es, name).Some? then Find(es, name)
      else if !Ended(es) && e[0] != 0 && e[0] != 0xE5 && e[11] != 0x0F && NameOf(e) == name then Some(e)
      else None
  {
    if es == [] {
      assert es + [e] == [e] && [e][1..] == [];
    } else {
      ComparedEntry(es[1..], e, name);
      assert (es + [e])[1..] == es[1..] + [e];
      assert es[0][0] != 0 ==> (Ended(es) <==> Ended(es[1..])) by { EndedBehind(es); }
    }
  }

  lemma EndedBehind(es: seq<Entry>)
    requires es != []
    ensures es[0][0] == 0 ==> Ended(es)
    ensures es[0][0] != 0 ==> (Ended(es) <==> Ended(es[1..]))
  {
    if i :| 0 < i < |es| && es[i][0] == 0 {
      assert es[1..][i - 1][0] == 0;
    }
    if i :| 0 <= i < |es[1..]| && es[1..][i][0] == 0 {
      assert es[i + 1][0] == 0;
    }
  }

  // The first entry of a list with this name.
  function FirstNamed(es: seq<Entry>, name: seq<byte>): Option<Entry> {
    if es == [] then None else if NameOf(es[0]) == name then Some(es[0]) else FirstNamed(es[1..], name)
  }

  lemma {:induction false} FirstNamedMeans(es: seq<Entry>, name: seq<byte>)
    ensures FirstNamed(es, name).None? <==> forall i :: 0 <= i < |es| ==> NameOf(es[i]) != name
    ensures FirstNamed(es, name).Some? ==>
              exists i :: 0 <= i < |es| && es[i] == FirstNamed(es, name).value && NameOf(es[i]) == name
                          && forall j :: 0 <= j < i ==> NameOf(es[j]) != name
  {
    if es != [] && NameOf(es[0]) != name {
      FirstNamedMeans(es[1..], name);
      assert forall i :: 0 < i < |es| ==> es[i] == es[1..][i - 1];
      if FirstNamed(es[1..], name).Some? {
        var i :| 0 <= i < |es[1..]| && es[1..][i] == FirstNamed(es[1..], name).value && NameOf(es[1..][i]) == name
                 && forall j :: 0 <= j < i ==> NameOf(es[1..][j]) != name;
        assert es[i + 1] == FirstNamed(es, name).value;
      }
    }
  }

  // A volume label that prints as the name stands before the end marker and before every
  // visible entry of that name.
  ghost predicate LabelAhead(es: seq<Entry>, name: seq<byte>) {
    exists i :: 0 <= i < |es| && LabelAt(es, name, i)
  }

  ghost predicate LabelAt(es: seq<Entry>, name: seq<byte>, i: nat)
    requires i < |es|
  {
    && Findable(es[i]) && IsVolumeLabel(es[i]) && NameOf(es[i]) == name
    && (forall k :: 0 <= k <= i ==> !EndsDirectory(es[k]))
    && (forall k :: 0 <= k < i ==> !(Visible(es[k]) && NameOf(es[k]) == name))
  }

  lemma LabelAheadOfTail(es: seq<Entry>, name: seq<byte>)
    requires es != [] && !EndsDirectory(es[0]) && !(Findable(es[0]) && NameOf(es[0]) == name)
    ensures LabelAhead(es, name) <==> LabelAhead(es[1..], name)
  {
    if LabelAhead(es, name) {
      var i :| 0 <= i < |es| && LabelAt(es, name, i);
      assert forall k :: 0 <= k < |es| - 1 ==> es[1..][k] == es[k + 1];
      assert LabelAt(es[1..], name, i - 1);
    }
    if LabelAhead(es[1..], name) {
      var i :| 0 <= i < |es[1..]| && LabelAt(es[1..], name, i);
      assert forall k :: 0 < k < |es| ==> es[k] == es[1..][k - 1];
      assert LabelAt(es, name, i + 1);
    }
  }

  /** lookup finds what readdir shows, the first visible entry of that name, exactly when no
      volume label of that name stands ahead of it: the source does not skip labels here. */
  lemma {:induction false} LookupAgreesIff(es: seq<Entry>, name: seq<byte>)
    ensures Find(es, name) == FirstNamed(VisibleOf(es), name) <==> !LabelAhead(es, name)
  {
    if es == [] || EndsDirectory(es[0]) {
      assert es != [] ==> forall i :: 0 <= i < |es| ==> !LabelAt(es, name, i);
    } else if !(Findable(es[0]) && NameOf(es[0]) == name) {
      LabelAheadOfTail(es, name);
      LookupAgreesIff(es[1..], name);
    } else if IsVolumeLabel(es[0]) {
      assert LabelAt(es, name, 0);
      FirstVisible(VisibleOf(es), name);
      VisibleOfVisible(es);
    } else {
      assert forall i :: 0 <= i < |es| ==> !LabelAt(es, name, i);
    }
  }

  // An entry with a one-letter name.
  function ShortEntry(letter: byte, attr: byte): (e: Entry)
    ensures e[0] == letter && e[11] == attr && forall i :: 1 <= i < 11 ==> e[i] == SPACE
  {
    seq(ENTRY, i => if i == 0 then letter else if i == 11 then attr else SPACE)
  }

  /** A label and a file of the same printed name: readdir shows the file, and lookup of the
      name gives the label. */
  lemma LabelIsFound()
    ensures var es, name := [ShortEntry(0x41, 0x08), ShortEntry(0x41, 0x20)], [0x41];
      && LabelAhead(es, name)
      && VisibleOf(es) == [es[1]] && FirstNamed(VisibleOf(es), name) == Some(es[1])
      && Find(es, name) == Some(es[0]) && es[0] != es[1]
  {
    var es := [ShortEntry(0x41, 0x08), ShortEntry(0x41, 0x20)];
    OneLetterName(es[0]);
    OneLetterName(es[1]);
    assert es[1..] == [es[1]] && es[1..][1..] == [];
    assert LabelAt(es, [0x41], 0);
    assert VisibleOf(es[1..]) == [es[1]];
  }

  lemma OneLetterName(e: Entry)
    requires e[0] == 0x41 && forall i :: 1 <= i < 11 ==> e[i] == SPACE
    ensures NameOf(e) == [0x41]
  {
    assert e[..8][0] == 0x41 && e[..8][1..][0] == SPACE;
    assert UpToSpace(e[..8][1..]) == [];
    assert UpToSpace(e[..8]) == [0x41];
    assert Trim(e) == [0x41];
    assert CString([0x41][1..]) == [];
  }

  lemma {:induction false} VisibleOfVisible(es: seq<Entry>)
    ensures forall e :: e in VisibleOf(es) ==> Visible(e)
  {
    if es != [] {
      VisibleOfVisible(es[1..]);
    }
  }

  lemma {:induction false} FirstVisible(es: seq<Entry>, name: seq<byte>)
    ensures FirstNamed(es, name).Some? ==> FirstNamed(es, name).value in es
  {
    if es != [] {
      FirstVisible(es[1..], name);
    }
  }

  /** Without volume labels, lookup succeeds exactly when some visible entry prints as the
      name, and returns the first of them. */
  lemma LookupWithoutLabels(es: seq<Entry>, name: seq<byte>)
    requires forall i :: 0 <= i < |es| ==> !IsVolumeLabel(es[i])
    ensures Find(es, name) == FirstNamed(VisibleOf(es), name)
    ensures Find(es, name).Some? <==> exists i :: 0 <= i < |VisibleOf(es)| && NameOf(VisibleOf(es)[i]) == name
  {
    FoundInList(es, name);
    LookupAgreesIff(es, name);
    FirstNamedMeans(VisibleOf(es), name);
  }

  lemma {:induction false} FoundInList(es: seq<Entry>, name: seq<byte>)
    ensures Find(es, name).Some? ==> Find(es, name).value in es
  {
    if es != [] {
      FoundInList(es[1..], name);
    }
  }

  // ---------------------------------------------------------------- names told apart

  // Spaces from some point on, and neither dots nor terminators before it.
  predicate Padded(s: seq<byte>) {
    if s == [] then true
    else if s[0] == SPACE then forall i :: 0 <= i < |s| ==> s[i] == SPACE
    else s[0] != DOT && s[0] != 0 && Padded(s[1..])
  }

  lemma {:induction false} PaddedIsTold(s: seq<byte>, t: seq<byte>)
    requires |s| == |t| && Padded(s) && Padded(t) && UpToSpace(s) == UpToSpace(t)
    ensures s == t
  {
    if s != [] {
      if s[0] == SPACE {
        assert t[0] == SPACE;
      } else {
        assert s[0] == UpToSpace(s)[0] == t[0];
        assert UpToSpace(s)[1..] == UpToSpace(s[1..]) && UpToSpace(t)[1..] == UpToSpace(t[1..]);
        PaddedIsTold(s[1..], t[1..]);
        assert s == [s[0]] + s[1..] && t == [t[0]] + t[1..];
      }
    }
  }

  lemma {:induction false} PlainBytes(s: seq<byte>)
    requires Padded(s)
    ensures forall i :: 0 <= i < |UpToSpace(s)| ==> UpToSpace(s)[i] != DOT && UpToSpace(s)[i] != 0
  {
    if s != [] && s[0] != SPACE {
      PlainBytes(s[1..]);
    }
  }

  // Bytes without a space, padded with spaces to `n`.
  function Pad(s: seq<byte>, n: nat): (r: seq<byte>)
    ensures |s| <= n ==> |r| == n
    decreases n - |s|
  {
    if |s| >= n then s else Pad(s + [0x20], n)
  }

  lemma {:induction false} UpToSpaceOf(s: seq<byte>, rest: seq<byte>)
    requires 0x20 !in s && (rest == [] || rest[0] == 0x20)
    ensures UpToSpace(s + rest) == s
  {
    if s == [] {
      assert s + rest == rest;
    } else {
      UpToSpaceOf(s[1..], rest);
      assert (s + rest)[1..] == s[1..] + rest;
    }
  }

  lemma {:induction false} PadIs(s: seq<byte>, n: nat)
    ensures |Pad(s, n)| >= |s| && Pad(s, n)[..|s|] == s && (|s| < n ==> Pad(s, n)[|s|] == 0x20)
    decreases n - |s|
  {
    if |s| < n {
      PadIs(s + [0x20], n);
      assert Pad(s, n)[..|s|] == Pad(s, n)[..|s| + 1][..|s|];
    }
  }

  lemma PaddedPart(s: seq<byte>, n: nat)
    requires |s| <= n && 0x20 !in s
    ensures UpToSpace(Pad(s, n)) == s && (n > 0 ==> (Pad(s, n)[0] == 0x20 <==> s == []))
  {
    PadIs(s, n);
    var p := Pad(s, n);
    assert p == s + p[|s|..];
    UpToSpaceOf(s, p[|s|..]);
    assert s != [] ==> p[0] == s[0];
  }

  /** The name of an entry: eight bytes of base and three of extension, padded with spaces, are
      printed with a dot in between, and without it if there is no extension. */
  lemma TrimOfPadded(base: seq<byte>, ext: seq<byte>, e: Entry)
    requires |base| <= 8 && |ext| <= 3 && 0x20 !in base && 0x20 !in ext
    requires e[..8] == Pad(base, 8) && e[8..11] == Pad(ext, 3)
    ensures Trim(e) == if ext == [] then base else base + [0x2E] + ext
    ensures 0 !in base && 0 !in ext ==> NameOf(e) == Trim(e)
  {
    hide UpToSpace, Pad, CString;
    PaddedPart(base, 8);
    PaddedPart(ext, 3);
    assert e[8] == e[8..11][0];
    AddTwice(base, [0x2E], ext);
    NoZero(Trim(e));
  }

  lemma {:induction false} NoZero(s: seq<byte>)
    ensures 0 !in s ==> CString(s) == s
  {
    if s != [] {
      NoZero(s[1..]);
    }
  }

  /** Trimming loses nothing: entries whose base and extension are space-padded, without
      inner spaces or dots, print alike only if their eleven name bytes are alike. */
  lemma TrimIsInjective(d: Entry, e: Entry)
    requires Padded(d[..8]) && Padded(d[8..11]) && Padded(e[..8]) && Padded(e[8..11])
    requires Trim(d) == Trim(e)
    ensures d[..11] == e[..11]
  {
    var b, c := UpToSpace(d[..8]), UpToSpace(e[..8]);
    PlainBytes(d[..8]);
    PlainBytes(e[..8]);
    assert d[8..11][0] == d[8] && e[8..11][0] == e[8];
    var x := if d[8] != SPACE then [DOT] + UpToSpace(d[8..11]) else [];
    var y := if e[8] != SPACE then [DOT] + UpToSpace(e[8..11]) else [];
    SplitAtDot(b, x, c, y);
    PaddedIsTold(d[..8], e[..8]);
    if d[8] != SPACE {
      assert UpToSpace(d[8..11]) == x[1..] == y[1..] == UpToSpace(e[8..11]);
    }
    PaddedIsTold(d[8..11], e[8..11]);
    assert d[..11] == d[..8] + d[8..11] && e[..11] == e[..8] + e[8..11];
  }

  lemma SplitAtDot(b: seq<byte>, x: seq<byte>, c: seq<byte>, y: seq<byte>)
    requires b + x == c + y
    requires (x == [] || x[0] == DOT) && (y == [] || y[0] == DOT)
    requires forall i :: 0 <= i < |b| ==> b[i] != DOT
    requires forall i :: 0 <= i < |c| ==> c[i] != DOT
    ensures b == c && x == y
  {
    var s := b + x;
    BeforeDot(b, x, s);
    BeforeDot(c, y, s);
    assert |b| < |s| ==> s[|b|] == DOT;
    assert |c| < |s| ==> s[|c|] == DOT;
    assert |b| == |c|;
    assert b == (b + x)[..|b|] && c == (c + y)[..|c|];
    assert x == (b + x)[|b|..] && y == (c + y)[|c|..];
  }

  lemma BeforeDot(b: seq<byte>, x: seq<byte>, s: seq<byte>)
    requires s == b + x && (x == [] || x[0] == DOT)
    requires forall i :: 0 <= i < |b| ==> b[i] != DOT
    ensures forall i :: 0 <= i < |b| ==> s[i] != DOT
    ensures |b| < |s| ==> s[|b|] == DOT
  {
  }
}
