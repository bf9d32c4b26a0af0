/**
 The pipe table. A pipe is a slot with two descriptors and a ring buffer; the table is
 proved against functions on the sequence of pipes, and what a reader can rely on is
 proved over every run of those functions.
 */
module Pipes {
  import opened Options
  import opened Words
  import opened RingBuffers

  const MAX_PIPES := 32
  const READ_BASE := 100
  const WRITE_BASE := 200

  datatype Pipe = Pipe(used: bool, readEnd: int, writeEnd: int, content: seq<byte>)

  predicate Answers(p: Pipe, fd: int) {
    p.used && (p.readEnd == fd || p.writeEnd == fd)
  }

  /** The first pipe that answers to a descriptor. */
  function FindByFd(ps: seq<Pipe>, fd: int, i: nat): (r: Option<nat>)
    requires i <= |ps|
    ensures match r
            case None => forall j :: i <= j < |ps| ==> !Answers(ps[j], fd)
            case Some(k) => i <= k < |ps| && Answers(ps[k], fd) && forall j :: i <= j < k ==> !Answers(ps[j], fd)
    decreases |ps| - i
  {
    if i == |ps| then None else if Answers(ps[i], fd) then Some(i) else FindByFd(ps, fd, i + 1)
  }

  function FirstUnused(ps: seq<Pipe>, i: nat): (r: Option<nat>)
    requires i <= |ps|
    ensures match r
            case None => forall j :: i <= j < |ps| ==> ps[j].used
            case Some(k) => i <= k < |ps| && !ps[k].used && forall j :: i <= j < k ==> ps[j].used
    decreases |ps| - i
  {
    if i == |ps| then None else if !ps[i].used then Some(i) else FirstUnused(ps, i + 1)
  }

  // ---------------------------------------------------------------- what each call does

  function Created(i: nat): Pipe { Pipe(true, i + READ_BASE, i + WRITE_BASE, []) }

  // The slot that a write goes to, all of it or nothing.
  function WriteSlot(ps: seq<Pipe>, fd: int, data: seq<byte>): (r: Option<nat>)
    ensures r.Some? ==> r.value < |ps| && Answers(ps[r.value], fd)
  {
    var k := FindByFd(ps, fd, 0);
    if k.None? || data == [] || ps[k.value].writeEnd != fd || |ps[k.value].content| + |data| > RING_SIZE then None
    else k
  }

  // The slot that a read comes from.
  function ReadSlot(ps: seq<Pipe>, fd: int, len: nat): (r: Option<nat>)
    ensures r.Some? ==> r.value < |ps| && Answers(ps[r.value], fd)
  {
    var k := FindByFd(ps, fd, 0);
    if k.None? || len == 0 || ps[k.value].readEnd != fd then None else k
  }

  function Closed(p: Pipe, fd: int): Pipe {
    var r := if p.readEnd == fd then -1 else p.readEnd;
    var w := if p.writeEnd == fd then -1 else p.writeEnd;
    p.(readEnd := r, writeEnd := w, used := p.used && !(r < 0 && w < 0))
  }

  datatype Event = Create | Write(fd: int, data: seq<byte>) | Read(fd: int, len: nat) | Close(fd: int)

  /** The pipes, with what was written to and read from each since its creation. */
  datatype World = World(pipes: seq<Pipe>, sent: seq<seq<byte>>, got: seq<seq<byte>>)

  predicate Shaped(w: World) {
    |w.pipes| == |w.sent| == |w.got| == MAX_PIPES
  }

  function Written(w: World, i: nat, data: seq<byte>): (w': World)
    requires Shaped(w) && i < MAX_PIPES
    ensures Shaped(w')
  {
    var p := w.pipes[i];
    w.(pipes := w.pipes[i := p.(content := p.content + data)], sent := w.sent[i := w.sent[i] + data])
  }

  function Taken(w: World, i: nat, n: nat): (w': World)
    requires Shaped(w) && i < MAX_PIPES && n <= |w.pipes[i].content|
    ensures Shaped(w')
  {
    var p := w.pipes[i];
    w.(pipes := w.pipes[i := p.(content := p.content[n..])], got := w.got[i := w.got[i] + p.content[..n]])
  }

  function Step(w: World, e: Event): (w': World)
    requires Shaped(w)
    ensures Shaped(w')
  {
    var ps := w.pipes;
    match e
    case Create =>
      var i := FirstUnused(ps, 0);
      if i.None? then w
      else World(ps[i.value := Created(i.value)], w.sent[i.value := []], w.got[i.value := []])
    case Write(fd, data) =>
      var i := WriteSlot(ps, fd, data);
      if i.None? then w else Written(w, i.value, data)
    case Read(fd, len) =>
      var i := ReadSlot(ps, fd, len);
      if i.None? then w else Taken(w, i.value, Lesser(len, |ps[i.value].content|))
    case Close(fd) =>
      var i := FindByFd(ps, fd, 0);
      if i.None? then w else w.(pipes := ps[i.value := Closed(ps[i.value], fd)])
  }

  // ---------------------------------------------------------------- runs

  // A slot in use has an open end, its own descriptors, and holds what was written but not
  // yet read.
  ghost predicate SlotOk(w: World, i: nat)
    requires Shaped(w) && i < MAX_PIPES
  {
    var p := w.pipes[i];
    p.used ==>
      && (p.readEnd == -1 || p.readEnd == i + READ_BASE) && (p.writeEnd == -1 || p.writeEnd == i + WRITE_BASE)
      && !(p.readEnd == -1 && p.writeEnd == -1)
      && |p.content| <= RING_SIZE && w.sent[i] == w.got[i] + p.content
  }

  ghost predicate Inv(w: World) {
    Shaped(w) && forall i: nat :: i < MAX_PIPES ==> SlotOk(w, i)
  }

  function Empty(): World {
    World(seq(MAX_PIPES, _ => Pipe(false, 0, 0, [])), seq(MAX_PIPES, _ => []), seq(MAX_PIPES, _ => []))
  }

  lemma StepKeepsInv(w: World, e: Event)
    requires Inv(w)
    ensures Inv(Step(w, e))
  {
    var w' := Step(w, e);
    forall i: nat | i < MAX_PIPES
      ensures SlotOk(w', i)
    {
      assert SlotOk(w, i);
      if w'.pipes[i] != w.pipes[i] && e.Read? {
        var c := w.pipes[i].content;
        assert c == c[..Lesser(e.len, |c|)] + c[Lesser(e.len, |c|)..];
      }
    }
  }

  function After(w: World, run: seq<Event>): (w': World)
    requires Shaped(w)
    ensures Shaped(w')
    decreases |run|
  {
    if run == [] then w else After(Step(w, run[0]), run[1..])
  }

  lemma {:induction false} RunKeepsInv(w: World, run: seq<Event>)
    requires Inv(w)
    ensures Inv(After(w, run))
    decreases |run|
  {
    if run != [] {
      StepKeepsInv(w, run[0]);
      RunKeepsInv(Step(w, run[0]), run[1..]);
    }
  }

  /** Over every run of calls, what was read from a pipe is a prefix of what was written to
      it since its creation, and the rest, at most 4096 bytes, is in its buffer. */
  lemma Streams(run: seq<Event>, i: nat)
    requires i < MAX_PIPES && After(Empty(), run).pipes[i].used
    ensures var w := After(Empty(), run);
      && w.got[i] <= w.sent[i] && w.sent[i][|w.got[i]|..] == w.pipes[i].content
      && |w.pipes[i].content| <= RING_SIZE
  {
    RunKeepsInv(Empty(), run);
    assert SlotOk(After(Empty(), run), i);
  }

  // ---------------------------------------------------------------- descriptors

  // One pipe at most answers, and with one end.
  ghost predicate NamesOneEnd(ps: seq<Pipe>, fd: int) {
    && (forall i, j :: 0 <= i < j < |ps| ==> !(Answers(ps[i], fd) && Answers(ps[j], fd)))
    && (forall i :: 0 <= i < |ps| && Answers(ps[i], fd) ==> ps[i].readEnd != ps[i].writeEnd)
  }

  /** The table after two pipes lost their read ends. */
  function HalfClosed(): World {
    Step(Step(Step(Step(Empty(), Create), Create), Close(READ_BASE)), Close(READ_BASE + 1))
  }

  /** A descriptor names at most one pipe end in every reachable table exactly when it is not
      -1, the mark of a closed end. */
  lemma NamesOneEndIff(fd: int)
    ensures (forall run :: NamesOneEnd(After(Empty(), run).pipes, fd)) <==> fd != -1
  {
    if fd != -1 {
      forall run
        ensures NamesOneEnd(After(Empty(), run).pipes, fd)
      {
        RunKeepsInv(Empty(), run);
        EndsApart(After(Empty(), run), fd);
      }
    } else {
      var run := [Create, Create, Close(READ_BASE), Close(READ_BASE + 1)];
      HalfClosedReached(run);
      TwoHalfClosed();
      assert !NamesOneEnd(After(Empty(), run).pipes, -1);
    }
  }

  lemma EndsApart(w: World, fd: int)
    requires Inv(w) && fd != -1
    ensures NamesOneEnd(w.pipes, fd)
  {
    forall i | 0 <= i < |w.pipes| && Answers(w.pipes[i], fd)
      ensures fd == (if w.pipes[i].readEnd == fd then i + READ_BASE else i + WRITE_BASE)
      ensures w.pipes[i].readEnd != w.pipes[i].writeEnd
    {
      assert SlotOk(w, i);
    }
  }

  lemma HalfClosedReached(run: seq<Event>)
    requires run == [Create, Create, Close(READ_BASE), Close(READ_BASE + 1)]
    ensures After(Empty(), run) == HalfClosed()
  {
    var w1 := Step(Empty(), Create);
    var w2 := Step(w1, Create);
    var w3 := Step(w2, Close(READ_BASE));
    assert run[1..] == [Create, Close(READ_BASE), Close(READ_BASE + 1)];
    assert run[1..][1..] == [Close(READ_BASE), Close(READ_BASE + 1)];
    assert run[1..][1..][1..] == [Close(READ_BASE + 1)];
    assert run[1..][1..][1..][1..] == [];
    assert After(w3, [Close(READ_BASE + 1)]) == Step(w3, Close(READ_BASE + 1));
    assert After(w2, run[1..][1..]) == After(w3, run[1..][1..][1..]);
    assert After(w1, run[1..]) == After(w2, run[1..][1..]);
  }

  lemma TwoHalfClosed()
    ensures var ps := HalfClosed().pipes;
      ps[0] == Pipe(true, -1, WRITE_BASE, []) && ps[1] == Pipe(true, -1, WRITE_BASE + 1, [])
  {
    var w1 := Step(Empty(), Create);
    assert w1.pipes[0] == Created(0);
    assert FirstUnused(w1.pipes, 0) == FirstUnused(w1.pipes, 1) == Some(1);
    var w2 := Step(w1, Create);
    assert w2.pipes[0] == Created(0) && w2.pipes[1] == Created(1);
    var w3 := Step(w2, Close(READ_BASE));
    assert FindByFd(w2.pipes, READ_BASE, 0) == Some(0);
    assert w3.pipes[0] == Pipe(true, -1, WRITE_BASE, []);
    assert FindByFd(w3.pipes, READ_BASE + 1, 0) == FindByFd(w3.pipes, READ_BASE + 1, 1) == Some(1);
  }

  // The descriptors of a slot find it as long as the end is open, and nothing else does.
  lemma FoundIff(w: World, i: nat, fd: int)
    requires Inv(w) && i < MAX_PIPES && fd != -1
    ensures FindByFd(w.pipes, fd, 0) == Some(i) <==> Answers(w.pipes[i], fd)
  {
    EndsApart(w, fd);
  }

  /** A write through descriptor 200+i is taken, whole, exactly when pipe `i` is in use with
      that end open, and the bytes written but not yet read leave room for it in 4096. */
  lemma WriteIsTakenIff(w: World, i: nat, data: seq<byte>)
    requires Inv(w) && i < 32
    ensures var w' := Step(w, Write(200 + i, data));
      && w'.got == w.got
      && w'.sent == if w.pipes[i].used && w.pipes[i].writeEnd != -1 && 0 < |data| <= 4096 - (|w.sent[i]| - |w.got[i]|)
                    then w.sent[i := w.sent[i] + data] else w.sent
  {
    assert SlotOk(w, i);
    FoundIff(w, i, 200 + i);
    AnswerIsOwn(w, 200 + i);
  }

  /** A read through descriptor 100+i brings the bytes written next, as many as there are up
      to the length asked for, exactly when pipe `i` is in use with that end open. */
  lemma ReadBringsNext(w: World, i: nat, len: nat)
    requires Inv(w) && i < 32
    ensures var w' := Step(w, Read(100 + i, len));
      && w'.sent == w.sent
      && w'.got == if w.pipes[i].used && w.pipes[i].readEnd != -1
                   then w.got[i := w.sent[i][..Lesser(|w.got[i]| + len, |w.sent[i]|)]] else w.got
  {
    assert SlotOk(w, i);
    FoundIff(w, i, 100 + i);
    AnswerIsOwn(w, 100 + i);
    var p := w.pipes[i];
    if p.used {
      GotNext(w.sent[i], w.got[i], p.content, len);
    }
  }

  lemma GotNext(sent: seq<byte>, got: seq<byte>, content: seq<byte>, len: nat)
    requires sent == got + content
    ensures got + content[..Lesser(len, |content|)] == sent[..Lesser(|got| + len, |sent|)]
    ensures got == sent[..|got|]
  {
  }

  // Whoever answers to a descriptor of slot `i` is slot `i`.
  lemma AnswerIsOwn(w: World, fd: int)
    requires Inv(w) && fd != -1
    ensures forall k :: 0 <= k < MAX_PIPES && Answers(w.pipes[k], fd) ==>
              if w.pipes[k].readEnd == fd then fd == 100 + k && w.pipes[k].writeEnd != fd else fd == 200 + k
  {
    forall k | 0 <= k < MAX_PIPES && Answers(w.pipes[k], fd)
      ensures if w.pipes[k].readEnd == fd then fd == 100 + k && w.pipes[k].writeEnd != fd else fd == 200 + k
    {
      assert SlotOk(w, k);
    }
  }

  /** A new pipe is made exactly when one of the 32 slots is out of use, in the lowest such
      slot, with both ends open. */
  lemma CreateTakesLowest(w: World, i: nat)
    requires Inv(w) && i < 32
    ensures |w.pipes| == 32
    ensures var p' := Step(w, Create).pipes[i];
      if !w.pipes[i].used && forall j :: 0 <= j < i ==> w.pipes[j].used
      then p' == Pipe(true, 100 + i, 200 + i, []) else p' == w.pipes[i]
  {
  }

  /** After a close no pipe answers to the descriptor, unless it is -1 and some pipe has lost
      one of its ends: that pipe can still be written or read through it. */
  lemma ClosedIsDeadIff(w: World, fd: int)
    requires Inv(w)
    ensures FindByFd(Step(w, Close(fd)).pipes, fd, 0) == None
      <==> fd != -1 || forall i :: 0 <= i < MAX_PIPES && w.pipes[i].used ==>
             w.pipes[i].readEnd >= 0 && w.pipes[i].writeEnd >= 0
  {
    var k, w' := FindByFd(w.pipes, fd, 0), Step(w, Close(fd));
    if fd != -1 {
      EndsApart(w, fd);
    } else if k.Some? {
      assert SlotOk(w, k.value);
      assert w'.pipes[k.value] == w.pipes[k.value];
      assert FindByFd(w'.pipes, fd, 0).Some?;
    } else {
      assert forall i :: 0 <= i < MAX_PIPES ==> !Answers(w.pipes[i], -1);
      forall i | 0 <= i < MAX_PIPES && w.pipes[i].used
        ensures w.pipes[i].readEnd >= 0 && w.pipes[i].writeEnd >= 0
      {
        assert SlotOk(w, i);
      }
    }
  }

  /** A call takes a slot out of use only by closing its last open end, and gives a slot to a
      new pipe only when it was out of use, without any byte of the old pipe. */
  lemma SlotsAreReusedEmpty(w: World, e: Event, i: nat)
    requires Inv(w) && i < MAX_PIPES
    ensures var p, p' := w.pipes[i], Step(w, e).pipes[i];
      && (p.used && !p'.used ==>
            e.Close? && Answers(p, e.fd) && e.fd >= 0 && (p.readEnd == -1 || p.writeEnd == -1))
      && (!p.used && p'.used ==>
            e == Create && p' == Created(i) && Step(w, e).sent[i] == Step(w, e).got[i] == [])
      && (p.used && e == Create ==> p' == p)
  {
    assert SlotOk(w, i);
  }

  // ---------------------------------------------------------------- the table in memory

  lemma CutAt(c: seq<byte>, a: seq<byte>, b: seq<byte>)
    requires c == a + b
    ensures c[..|a|] == a && c[|a|..] == b
  {
  }

  datatype Slot = Slot(used: bool, readEnd: int, writeEnd: int)

  class PipeTable {
    const slots: array<Slot>
    const buffers: seq<RingBuffer>
    ghost var world: World  // the pipes, and what went through each

    // Each slot has a buffer of its own.
    ghost predicate Apart() {
      && slots.Length == |buffers| == MAX_PIPES
      && forall i, j :: 0 <= i < j < MAX_PIPES ==> buffers[i] != buffers[j] && buffers[i].data != buffers[j].data
    }

    ghost function Memory(): set<object> {
      (set b: RingBuffer | b in buffers :: b as object) + (set b: RingBuffer | b in buffers :: b.data as object)
    }

    ghost predicate SlotIs(i: nat)
      requires i < slots.Length && i < |buffers| && i < |world.pipes|
      reads this, slots, buffers[i], buffers[i].data
    {
      && buffers[i].Valid()
      && world.pipes[i] == Pipe(slots[i].used, slots[i].readEnd, slots[i].writeEnd, buffers[i].Contents())
    }

    ghost predicate Valid()
      reads this, slots, Memory()
    {
      && Apart() && Shaped(world)
      && forall i: nat :: i < MAX_PIPES ==> buffers[i] in buffers && SlotIs(i)
    }

    /** ipc_init. */
    constructor (buffers: seq<RingBuffer>)
      requires |buffers| == MAX_PIPES && (forall b :: b in buffers ==> b.Valid() && b.Contents() == [])
      requires forall i, j :: 0 <= i < j < MAX_PIPES ==> buffers[i] != buffers[j] && buffers[i].data != buffers[j].data
      ensures Valid() && fresh(slots) && world == Empty()
    {
      this.buffers := buffers;
      slots := new Slot[MAX_PIPES](_ => Slot(false, 0, 0));
      world := Empty();
    }

    /** find_pipe_by_fd. */
    method FindPipeByFd(fd: int) returns (i: int)
      requires Valid()
      ensures match FindByFd(world.pipes, fd, 0)
              case None => i == -1
              case Some(k) => i == k
    {
      i := 0;
      while i < MAX_PIPES
        invariant 0 <= i <= MAX_PIPES && FindByFd(world.pipes, fd, 0) == FindByFd(world.pipes, fd, i)
      {
        assert SlotIs(i);
        if slots[i].used && (slots[i].readEnd == fd || slots[i].writeEnd == fd) {
          return;
        }
        i := i + 1;
      }
      return -1;
    }

    /** pipe_create. */
    method Create() returns (r: int, readFd: int, writeFd: int)
      requires Valid()
      modifies this`world, slots, Memory()
      ensures Valid() && world == Step(old(world), Event.Create)
      ensures match FirstUnused(old(world).pipes, 0)
              case None => r == -1
              case Some(i) => r == 0 && readFd == i + READ_BASE && writeFd == i + WRITE_BASE
    {
      var i := 0;
      while i < MAX_PIPES
        invariant 0 <= i <= MAX_PIPES && world == old(world) && Valid()
        invariant FirstUnused(world.pipes, 0) == FirstUnused(world.pipes, i)
      {
        assert SlotIs(i);
        if !slots[i].used {
          readFd, writeFd := i + READ_BASE, i + WRITE_BASE;
          assert buffers[i] in buffers;
          Place(i, readFd, writeFd);
          return 0, readFd, writeFd;
        }
        i := i + 1;
      }
      return -1, -1, -1;
    }

    // Sets up a slot for a new pipe.
    method Place(i: nat, readFd: int, writeFd: int)
      requires Valid() && i < MAX_PIPES && readFd == i + READ_BASE && writeFd == i + WRITE_BASE
      modifies this`world, slots, buffers[i], buffers[i].data
      ensures Valid()
      ensures var w := old(world); world == World(w.pipes[i := Created(i)], w.sent[i := []], w.got[i := []])
    {
      hide RingBuffer.Valid, RingBuffer.Contents;
      assert SlotIs(i);
      slots[i] := Slot(true, readFd, writeFd);
      buffers[i].Init();
      world := World(world.pipes[i := Created(i)], world.sent[i := []], world.got[i := []]);
      forall j: nat | j < MAX_PIPES
        ensures SlotIs(j)
      {
        assert old(SlotIs(j));
      }
    }

    /** pipe_write. */
    method Write(fd: int, data: seq<byte>) returns (r: int)
      requires Valid()
      modifies this`world, Memory()
      ensures Valid() && world == Step(old(world), Event.Write(fd, data))
      ensures r == if WriteSlot(old(world).pipes, fd, data).None? then -1 else |data|
    {
      var k := FindPipeByFd(fd);
      if k < 0 || |data| == 0 {
        return -1;
      }
      assert SlotIs(k);
      if slots[k].writeEnd != fd {
        return -1;
      }
      assert buffers[k] in buffers;
      r := Append(k, data);
    }

    // Writes into the buffer of a slot.
    method Append(k: nat, data: seq<byte>) returns (r: int)
      requires Valid() && k < MAX_PIPES && data != []
      modifies this`world, buffers[k], buffers[k].data
      ensures Valid() && r == if |old(world).pipes[k].content| + |data| > RING_SIZE then -1 else |data|
      ensures world == if r == -1 then old(world) else Written(old(world), k, data)
    {
      hide RingBuffer.Valid, RingBuffer.Contents;
      assert SlotIs(k);
      r := buffers[k].Write(data);
      if r != -1 {
        world := Written(world, k, data);
      }
      forall j: nat | j < MAX_PIPES
        ensures SlotIs(j)
      {
        assert old(SlotIs(j));
      }
    }

    /** pipe_read. */
    method Read(fd: int, dst: array<byte>, len: nat) returns (r: int)
      requires Valid() && len <= dst.Length && dst as object !in Memory()
      modifies this`world, Memory(), dst
      ensures Valid() && world == Step(old(world), Event.Read(fd, len))
      ensures match ReadSlot(old(world).pipes, fd, len)
              case None => r == -1 && dst[..] == old(dst[..])
              case Some(i) =>
                var c := old(world).pipes[i].content;
                r == Lesser(len, |c|) && dst[..r] == c[..r] && dst[r..] == old(dst[r..])
    {
      var k := FindPipeByFd(fd);
      if k < 0 || len == 0 {
        return -1;
      }
      assert SlotIs(k);
      if slots[k].readEnd != fd {
        return -1;
      }
      assert buffers[k] in buffers;
      r := Remove(k, dst, len);
    }

    // Reads from the buffer of a slot.
    method Remove(k: nat, dst: array<byte>, len: nat) returns (r: nat)
      requires Valid() && k < MAX_PIPES && 0 < len <= dst.Length && dst as object !in Memory()
      modifies this`world, buffers[k], dst
      ensures Valid()
      ensures var c := old(world).pipes[k].content;
        && r == Lesser(len, |c|) && dst[..r] == c[..r] && dst[r..] == old(dst[r..])
        && world == Taken(old(world), k, r)
    {
      hide RingBuffer.Valid, RingBuffer.Contents;
      assert SlotIs(k);
      ghost var c := world.pipes[k].content;
      assert buffers[k].data in Memory();
      r := buffers[k].Read(dst, len);
      CutAt(c, dst[..r], buffers[k].Contents());
      world := Taken(world, k, r);
      forall j: nat | j < MAX_PIPES
        ensures SlotIs(j)
      {
        assert old(SlotIs(j));
      }
    }

    /** pipe_close. */
    method Close(fd: int) returns (r: int)
      requires Valid()
      modifies this`world, slots
      ensures Valid() && world == Step(old(world), Event.Close(fd))
      ensures r == if FindByFd(old(world).pipes, fd, 0).None? then -1 else 0
    {
      var k := FindPipeByFd(fd);
      if k < 0 {
        return -1;
      }
      assert SlotIs(k);
      if slots[k].readEnd == fd {
        slots[k] := slots[k].(readEnd := -1);
      }
      if slots[k].writeEnd == fd {
        slots[k] := slots[k].(writeEnd := -1);
      }
      if slots[k].readEnd < 0 && slots[k].writeEnd < 0 {
        slots[k] := slots[k].(used := false);
      }
      world := world.(pipes := world.pipes[k := Closed(world.pipes[k], fd)]);
      forall j: nat | j < MAX_PIPES
        ensures SlotIs(j)
      {
        assert old(SlotIs(j));
      }
      return 0;
    }
  }
}
