/**
 A message queue: a ring of fixed-size message buffers with the length of each, as a
 first-in first-out sequence of messages.
 */
module Messages {
  import opened Options
  import opened Words
  import opened RingBuffers

  const MAX_QUEUED := 16  // IPC_MAX_MSGQS: the number of queues, and of messages in each
  const MAX_MESSAGE := 256

  datatype Queue = Queue(used: bool, key: nat, content: seq<seq<byte>>)

  function Cut(msg: seq<byte>, max: nat): seq<byte> {
    msg[..Lesser(max, |msg|)]
  }

  predicate CanSend(q: Queue, msg: seq<byte>) {
    q.used && 0 < |msg| <= MAX_MESSAGE && |q.content| < MAX_QUEUED
  }

  predicate CanReceive(q: Queue, max: nat) {
    q.used && max > 0 && q.content != []
  }

  // ---------------------------------------------------------------- runs

  datatype Event = Create(key: nat) | Send(msg: seq<byte>) | Receive(max: nat) | Destroy

  datatype Received = Received(bytes: seq<byte>, max: nat)

  /** A queue, with the messages sent to it and received from it since its creation. */
  datatype History = History(queue: Queue, sent: seq<seq<byte>>, got: seq<Received>)

  function Step(h: History, e: Event): History {
    var q := h.queue;
    match e
    case Create(key) => if q.used then h else History(Queue(true, key, []), [], [])
    case Send(msg) =>
      if CanSend(q, msg) then h.(queue := q.(content := q.content + [msg]), sent := h.sent + [msg]) else h
    case Receive(max) =>
      if CanReceive(q, max) then
        h.(queue := q.(content := q.content[1..]), got := h.got + [Received(Cut(q.content[0], max), max)])
      else h
    case Destroy => h.(queue := q.(used := false))
  }

  ghost predicate Inv(h: History) {
    && |h.got| <= |h.sent| && h.queue.content == h.sent[|h.got|..] && |h.queue.content| <= MAX_QUEUED
    && forall k :: 0 <= k < |h.got| ==> h.got[k].bytes == Cut(h.sent[k], h.got[k].max)
  }

  function After(h: History, run: seq<Event>): History
    decreases |run|
  {
    if run == [] then h else After(Step(h, run[0]), run[1..])
  }

  lemma StepKeepsInv(h: History, e: Event)
    requires Inv(h)
    ensures Inv(Step(h, e))
  {
    if e.Send? && CanSend(h.queue, e.msg) {
      assert (h.sent + [e.msg])[|h.got|..] == h.sent[|h.got|..] + [e.msg];
    } else if e.Receive? && CanReceive(h.queue, e.max) {
      assert h.sent[|h.got|..][1..] == h.sent[|h.got| + 1..];
    }
  }

  lemma {:induction false} RunKeepsInv(h: History, run: seq<Event>)
    requires Inv(h)
    ensures Inv(After(h, run))
    decreases |run|
  {
    if run != [] {
      StepKeepsInv(h, run[0]);
      RunKeepsInv(Step(h, run[0]), run[1..]);
    }
  }

  /** A message is taken exactly when the queue is in use, the message has 1 to 256 bytes, and
      fewer than 16 of those sent wait to be received. */
  lemma SendIsTakenIff(h: History, msg: seq<byte>)
    requires Inv(h)
    ensures var h' := Step(h, Send(msg));
      && h'.got == h.got
      && h'.sent == if h.queue.used && 1 <= |msg| <= 256 && |h.sent| - |h.got| < 16 then h.sent + [msg] else h.sent
  {
  }

  /** A receive brings the message sent next, cut to the length asked for, exactly when the
      queue is in use, some message waits and the length is not zero. */
  lemma ReceiveBringsNext(h: History, max: nat)
    requires Inv(h)
    ensures var h' := Step(h, Receive(max));
      && h'.sent == h.sent
      && h'.got == if h.queue.used && |h.got| < |h.sent| && max > 0
                   then h.got + [Received(h.sent[|h.got|][..Lesser(max, |h.sent[|h.got|]|)], max)] else h.got
  {
    assert h.queue.content != [] <==> |h.got| < |h.sent|;
  }

  // ---------------------------------------------------------------- the table

  datatype Call = Open(key: nat) | SendTo(id: int, msg: seq<byte>) | ReceiveFrom(id: int, max: nat) | Remove(id: int)

  function FirstUnused(qs: seq<Queue>, i: nat): (r: Option<nat>)
    requires i <= |qs|
    ensures match r
            case None => forall j :: i <= j < |qs| ==> qs[j].used
            case Some(k) => i <= k < |qs| && !qs[k].used && forall j :: i <= j < k ==> qs[j].used
    decreases |qs| - i
  {
    if i == |qs| then None else if !qs[i].used then Some(i) else FirstUnused(qs, i + 1)
  }

  function Queues(hs: seq<History>): (qs: seq<Queue>)
    ensures |qs| == |hs| && forall i :: 0 <= i < |hs| ==> qs[i] == hs[i].queue
  {
    seq(|hs|, i requires 0 <= i < |hs| => hs[i].queue)
  }

  // The queue that a call is about, and what happens to it.
  function Target(hs: seq<History>, c: Call): Option<nat> {
    match c
    case Open(_) => FirstUnused(Queues(hs), 0)
    case SendTo(id, _) => if 0 <= id < |hs| then Some(id) else None
    case ReceiveFrom(id, _) => if 0 <= id < |hs| then Some(id) else None
    case Remove(id) => if 0 <= id < |hs| then Some(id) else None
  }

  function EventOf(c: Call): Event {
    match c
    case Open(key) => Create(key)
    case SendTo(_, msg) => Send(msg)
    case ReceiveFrom(_, max) => Receive(max)
    case Remove(_) => Destroy
  }

  function TableStep(hs: seq<History>, c: Call): (hs': seq<History>)
    ensures |hs'| == |hs|
  {
    var t := Target(hs, c);
    if t.Some? && t.value < |hs| then hs[t.value := Step(hs[t.value], EventOf(c))] else hs
  }

  function TableAfter(hs: seq<History>, run: seq<Call>): (hs': seq<History>)
    ensures |hs'| == |hs|
    decreases |run|
  {
    if run == [] then hs else TableAfter(TableStep(hs, run[0]), run[1..])
  }

  function EmptyTable(): seq<History> {
    seq(MAX_QUEUED, _ => History(Queue(false, 0, []), [], []))
  }

  // The events that the calls of a run make at one queue.
  function EventsAt(hs: seq<History>, run: seq<Call>, i: nat): seq<Event>
    decreases |run|
  {
    if run == [] then []
    else (if Target(hs, run[0]) == Some(i) then [EventOf(run[0])] else []) + EventsAt(TableStep(hs, run[0]), run[1..], i)
  }

  /** Queues do not disturb each other: each goes through the calls made at it, and no others. */
  lemma {:induction false} QueuesAreApart(hs: seq<History>, run: seq<Call>, i: nat)
    requires i < |hs|
    ensures TableAfter(hs, run)[i] == After(hs[i], EventsAt(hs, run, i))
    decreases |run|
  {
    if run != [] {
      var hs' := TableStep(hs, run[0]);
      QueuesAreApart(hs', run[1..], i);
      var rest := EventsAt(hs', run[1..], i);
      if Target(hs, run[0]) == Some(i) {
        assert ([EventOf(run[0])] + rest)[1..] == rest;
      } else {
        assert [] + rest == rest;
      }
    }
  }

  /** Over every run of calls, in every queue: the k-th message received is the k-th message
      sent, cut to the length its receiver asked for, and the messages not yet received are
      queued in order. */
  lemma FirstInFirstOut(run: seq<Call>, i: nat)
    requires i < MAX_QUEUED
    ensures var h := TableAfter(EmptyTable(), run)[i];
      && |h.got| <= |h.sent| && h.queue.content == h.sent[|h.got|..] && |h.queue.content| <= MAX_QUEUED
      && forall k :: 0 <= k < |h.got| ==> h.got[k].bytes == Cut(h.sent[k], h.got[k].max)
  {
    QueuesAreApart(EmptyTable(), run, i);
    RunKeepsInv(EmptyTable()[i], EventsAt(EmptyTable(), run, i));
  }

  /** A queue is made exactly when one of the sixteen is out of use: the lowest such one, empty. */
  lemma OpenTakesLowest(hs: seq<History>, key: nat, i: nat)
    requires |hs| == |EmptyTable()| && i < 16
    ensures |hs| == 16
    ensures TableStep(hs, Open(key))[i] ==
      if !hs[i].queue.used && forall j :: 0 <= j < i ==> hs[j].queue.used
      then History(Queue(true, key, []), [], []) else hs[i]
  {
  }

  /** After a queue was destroyed nothing is sent to it or received from it until it is made
      anew, and the other queues stay. */
  lemma DestroyedIsDead(hs: seq<History>, id: nat, c: Call)
    requires id < |hs| && !c.Open?
    ensures var hs' := TableStep(hs, Call.Remove(id));
      hs' == hs[id := hs'[id]] && !hs'[id].queue.used && TableStep(hs', c)[id] == hs'[id]
  {
  }

  // ---------------------------------------------------------------- the queue in memory

  class MsgQueue {
    var used: bool
    var key: nat
    const messages: array2<byte>
    const lens: array<nat>
    var head: nat
    var tail: nat
    var count: nat
    ghost var rows: seq<seq<byte>>

    // A message buffer holds its message in front.
    ghost predicate RowOk(i: nat)
      requires i < |rows| && i < lens.Length && i < messages.Length0
      reads this`rows, messages, lens
    {
      && |rows[i]| == lens[i] <= MAX_MESSAGE && messages.Length1 == MAX_MESSAGE
      && forall k :: 0 <= k < lens[i] ==> messages[i, k] == rows[i][k]
    }

    ghost predicate Valid()
      reads this, messages, lens
    {
      && messages.Length0 == MAX_QUEUED && messages.Length1 == MAX_MESSAGE
      && lens.Length == |rows| == MAX_QUEUED
      && tail < MAX_QUEUED && count <= MAX_QUEUED && head == Wrap(tail + count, MAX_QUEUED)
      && forall i: nat :: i < MAX_QUEUED ==> RowOk(i)
    }

    ghost function View(): (q: Queue)
      requires Valid()
      reads this, messages, lens
      ensures |q.content| == count
    {
      Queue(used, key, Ring(rows, tail, count))
    }

    constructor ()
      ensures Valid() && View() == Queue(false, 0, []) && fresh(messages) && fresh(lens)
    {
      used, key := false, 0;
      messages := new byte[MAX_QUEUED, MAX_MESSAGE]((_, _) => 0);
      lens := new nat[MAX_QUEUED](_ => 0);
      head, tail, count := 0, 0, 0;
      rows := seq(MAX_QUEUED, _ => []);
    }

    /** msgq_create, on the slot it found unused. */
    method Create(key: nat)
      requires Valid()
      modifies this
      ensures Valid() && View() == Queue(true, key, [])
    {
      used, this.key := true, key;
      head, tail, count := 0, 0, 0;
      assert forall i: nat :: i < MAX_QUEUED ==> old(RowOk(i));
    }

    /** msgq_send. */
    method Send(msg: seq<byte>) returns (r: int)
      requires Valid()
      modifies this, messages, lens
      ensures Valid()
      ensures r == if CanSend(old(View()), msg) then 0 else -1
      ensures View() == if r == -1 then old(View()) else old(View()).(content := old(View()).content + [msg])
    {
      if !used || |msg| == 0 || |msg| > MAX_MESSAGE || count >= MAX_QUEUED {
        return -1;
      }
      hide Ring;
      RingPut(rows, tail, count, msg);
      Store(head, msg);
      head := Next(head, MAX_QUEUED);
      count := count + 1;
      assert forall i: nat :: i < MAX_QUEUED ==> RowOk(i);
      return 0;
    }

    // Copies a message into a buffer.
    method Store(at: nat, msg: seq<byte>)
      requires Valid() && at < MAX_QUEUED && |msg| <= MAX_MESSAGE
      modifies this`rows, messages, lens
      ensures |rows| == MAX_QUEUED && rows == old(rows)[at := msg]
      ensures forall i: nat :: i < MAX_QUEUED ==> RowOk(i)
    {
      hide Ring;
      var k := 0;
      while k < |msg|
        invariant k <= |msg| && rows == old(rows) && lens[..] == old(lens[..])
        invariant forall i, j :: 0 <= i < MAX_QUEUED && 0 <= j < MAX_MESSAGE ==>
                    messages[i, j] == if i == at && j < k then msg[j] else old(messages[i, j])
      {
        messages[at, k] := msg[k];
        k := k + 1;
      }
      lens[at] := |msg|;
      rows := rows[at := msg];
      forall i: nat | i < MAX_QUEUED
        ensures RowOk(i)
      {
        assert old(RowOk(i));
      }
    }

    /** msgq_recv: a message longer than `max` is cut, and what is cut off is lost. */
    method Receive(dst: array<byte>, max: nat) returns (r: int)
      requires Valid() && dst != messages as object && dst != lens as object && max <= dst.Length
      modifies this, dst
      ensures Valid()
      ensures r == if CanReceive(old(View()), max) then Lesser(max, |old(View()).content[0]|) else -1
      ensures r == -1 ==> View() == old(View()) && dst[..] == old(dst[..])
      ensures r != -1 ==>
                && View() == old(View()).(content := old(View()).content[1..])
                && dst[..r] == Cut(old(View()).content[0], max) && dst[r..] == old(dst[r..])
    {
      if !used || max == 0 || count == 0 {
        return -1;
      }
      hide Ring;
      RingTake(rows, tail, count);
      assert RowOk(tail);
      var len := lens[tail];
      if len > max {
        len := max;
      }
      CopyOut(dst, tail, len);
      tail := Next(tail, MAX_QUEUED);
      count := count - 1;
      assert forall i: nat :: i < MAX_QUEUED ==> old(RowOk(i));
      return len;
    }

    // Copies the front of a message out of its buffer.
    method CopyOut(dst: array<byte>, at: nat, len: nat)
      requires Valid() && at < MAX_QUEUED && len <= |rows[at]| && len <= dst.Length
      requires dst != messages as object && dst != lens as object
      modifies dst
      ensures dst[..len] == rows[at][..len] && dst[len..] == old(dst[len..])
    {
      assert RowOk(at);
      ghost var row := rows[at];
      var k := 0;
      while k < len
        invariant k <= len && dst[len..] == old(dst[len..]) && dst[..k] == row[..k]
      {
        dst[k] := messages[at, k];
        assert dst[..k + 1] == dst[..k] + [row[k]];
        k := k + 1;
      }
    }

    /** msgq_destroy. */
    method Destroy()
      requires Valid()
      modifies this`used
      ensures Valid() && View() == old(View()).(used := false)
    {
      used := false;
      assert forall i: nat :: i < MAX_QUEUED ==> old(RowOk(i));
    }
  }

  // ---------------------------------------------------------------- the table in memory

  class MsgTable {
    const queues: seq<MsgQueue>
    ghost var history: seq<History>  // the queues, and the messages sent to and received from each

    ghost predicate Apart() {
      && |queues| == MAX_QUEUED
      && forall i, j :: 0 <= i < j < MAX_QUEUED ==>
           queues[i] != queues[j] && queues[i].messages != queues[j].messages && queues[i].lens != queues[j].lens
    }

    ghost function Memory(): set<object> {
      (set q: MsgQueue | q in queues :: q as object) + (set q: MsgQueue | q in queues :: q.messages as object)
      + (set q: MsgQueue | q in queues :: q.lens as object)
    }

    ghost predicate QueueIs(i: nat)
      requires i < |queues| && i < |history|
      reads this, queues[i], queues[i].messages, queues[i].lens
    {
      queues[i].Valid() && history[i].queue == queues[i].View()
    }

    ghost predicate Valid()
      reads this, Memory()
    {
      Apart() && |history| == MAX_QUEUED && forall i: nat :: i < MAX_QUEUED ==> queues[i] in queues && QueueIs(i)
    }

    /** ipc_init. */
    constructor (queues: seq<MsgQueue>)
      requires |queues| == MAX_QUEUED
      requires forall q :: q in queues ==> q.Valid() && q.View() == Queue(false, 0, [])
      requires forall i, j :: 0 <= i < j < MAX_QUEUED ==>
                 queues[i] != queues[j] && queues[i].messages != queues[j].messages && queues[i].lens != queues[j].lens
      ensures Valid() && history == EmptyTable()
    {
      this.queues := queues;
      history := EmptyTable();
    }

    /** msgq_create: the first unused queue starts empty under the key. */
    method Create(key: nat) returns (r: int)
      requires Valid()
      modifies this`history, Memory()
      ensures Valid() && history == TableStep(old(history), Open(key))
      ensures match FirstUnused(Queues(old(history)), 0)
              case None => r == -1
              case Some(i) => r == i
    {
      var i := 0;
      while i < MAX_QUEUED
        invariant 0 <= i <= MAX_QUEUED && history == old(history) && Valid()
        invariant FirstUnused(Queues(history), 0) == FirstUnused(Queues(history), i)
      {
        assert QueueIs(i);
        if !queues[i].used {
          Start(i, key);
          return i;
        }
        i := i + 1;
      }
      return -1;
    }

    method Start(i: nat, key: nat)
      requires Valid() && i < MAX_QUEUED
      requires !history[i].queue.used
      modifies this`history, queues[i]
      ensures Valid() && history == old(history)[i := Step(old(history)[i], Event.Create(key))]
    {
      hide MsgQueue.Valid, MsgQueue.View;
      assert QueueIs(i);
      queues[i].Create(key);
      history := history[i := Step(history[i], Event.Create(key))];
      forall j: nat | j < MAX_QUEUED
        ensures QueueIs(j)
      {
        assert old(QueueIs(j));
      }
    }

    /** msgq_send. */
    method Send(id: int, msg: seq<byte>) returns (r: int)
      requires Valid()
      modifies this`history, Memory()
      ensures Valid() && history == TableStep(old(history), SendTo(id, msg))
      ensures r == if 0 <= id < MAX_QUEUED && CanSend(old(history)[id].queue, msg) then 0 else -1
    {
      if id < 0 || id >= MAX_QUEUED {
        return -1;
      }
      assert queues[id] in queues;
      r := SendAt(id, msg);
    }

    method SendAt(i: nat, msg: seq<byte>) returns (r: int)
      requires Valid() && i < MAX_QUEUED
      modifies this`history, queues[i], queues[i].messages, queues[i].lens
      ensures Valid() && r == if CanSend(old(history)[i].queue, msg) then 0 else -1
      ensures history == old(history)[i := Step(old(history)[i], Event.Send(msg))]
    {
      hide MsgQueue.Valid, MsgQueue.View, CanSend;
      assert QueueIs(i);
      r := queues[i].Send(msg);
      history := history[i := Step(history[i], Event.Send(msg))];
      forall j: nat | j < MAX_QUEUED
        ensures QueueIs(j)
      {
        assert old(QueueIs(j));
      }
    }

    /** msgq_recv. */
    method Receive(id: int, dst: array<byte>, max: nat) returns (r: int)
      requires Valid() && dst as object !in Memory() && max <= dst.Length
      modifies this`history, Memory(), dst
      ensures Valid() && history == TableStep(old(history), ReceiveFrom(id, max))
      ensures r == if 0 <= id < MAX_QUEUED && CanReceive(old(history)[id].queue, max)
                   then Lesser(max, |old(history)[id].queue.content[0]|) else -1
      ensures r == -1 ==> dst[..] == old(dst[..])
      ensures r != -1 ==> dst[..r] == Cut(old(history)[id].queue.content[0], max) && dst[r..] == old(dst[r..])
    {
      if id < 0 || id >= MAX_QUEUED {
        return -1;
      }
      assert queues[id] in queues;
      r := ReceiveAt(id, dst, max);
    }

    method ReceiveAt(i: nat, dst: array<byte>, max: nat) returns (r: int)
      requires Valid() && i < MAX_QUEUED && dst as object !in Memory() && max <= dst.Length
      modifies this`history, queues[i], dst
      ensures Valid() && history == old(history)[i := Step(old(history)[i], Event.Receive(max))]
      ensures var q := old(history)[i].queue;
        && r == (if CanReceive(q, max) then Lesser(max, |q.content[0]|) else -1)
        && (r == -1 ==> dst[..] == old(dst[..]))
        && (r != -1 ==> dst[..r] == Cut(q.content[0], max) && dst[r..] == old(dst[r..]))
    {
      hide MsgQueue.Valid, MsgQueue.View;
      assert QueueIs(i);
      assert queues[i].messages in Memory() && queues[i].lens in Memory();
      r := queues[i].Receive(dst, max);
      history := history[i := Step(history[i], Event.Receive(max))];
      forall j: nat | j < MAX_QUEUED
        ensures QueueIs(j)
      {
        assert old(QueueIs(j));
      }
    }

    /** msgq_destroy. */
    method Destroy(id: int) returns (r: int)
      requires Valid()
      modifies this`history, Memory()
      ensures Valid() && history == TableStep(old(history), Call.Remove(id))
      ensures r == if 0 <= id < MAX_QUEUED then 0 else -1
    {
      if id < 0 || id >= MAX_QUEUED {
        return -1;
      }
      assert queues[id] in queues;
      DestroyAt(id);
      return 0;
    }

    method DestroyAt(i: nat)
      requires Valid() && i < MAX_QUEUED
      modifies this`history, queues[i]
      ensures Valid() && history == old(history)[i := Step(old(history)[i], Event.Destroy)]
    {
      hide MsgQueue.Valid, MsgQueue.View;
      assert QueueIs(i);
      queues[i].Destroy();
      history := history[i := Step(history[i], Event.Destroy)];
      forall j: nat | j < MAX_QUEUED
        ensures QueueIs(j)
      {
        assert old(QueueIs(j));
      }
    }
  }
}
