/**
 Thread control blocks on an intrusive doubly linked ready queue, and the scheduler
 and process manager that share them. Every method changes the linked structure and
 the counters, and its contract says which function of RoundRobin that is.
 */
module Scheduler {
  import opened Options
  import opened Words
  import RR = RoundRobin

  const PCB_MAGIC: nat := 0x5043_4231

  class Pcb {
    var magic: nat
    var state: RR.ThreadState
    var nextReady: Pcb?
    var prevReady: Pcb?
    var inReadyQueue: bool
    ghost var place: nat  // position in the ready queue while queued

    constructor ()
      ensures magic == PCB_MAGIC && state == RR.Ready && !inReadyQueue && nextReady == null && prevReady == null
    {
      magic, state, nextReady, prevReady, inReadyQueue := PCB_MAGIC, RR.Ready, null, null, false;
    }
  }

  function Held(p: Pcb?): Option<Pcb> {
    if p == null then None else var q: Pcb := p; Some(q)
  }

  // The links of the block at place `i` of the queue name its neighbours there.
  ghost predicate SlotOk(q: seq<Pcb>, i: int)
    requires 0 <= i < |q|
    reads {q[i]}`prevReady, {q[i]}`nextReady
  {
    && q[i].prevReady == (if i == 0 then null else q[i - 1])
    && q[i].nextReady == (if i == |q| - 1 then null else q[i + 1])
  }

  class Scheduler {
    var currentThread: Pcb?
    var head: Pcb?
    var tail: Pcb?
    var readyCount: nat
    var liveThreads: nat
    var totalCreated: nat
    var totalDestroyed: nat
    var exitedThreads: nat
    var tickCount: nat
    ghost var queue: seq<Pcb>  // the ready queue, head first
    ghost var all: set<Pcb>    // created and not destroyed

    ghost predicate QueueOk()
      reads this`head, this`tail, this`readyCount, this`queue, this`all
      reads all`magic, all`nextReady, all`prevReady, all`inReadyQueue, all`place
    {
      && (forall i :: 0 <= i < |queue| ==> queue[i] in all && queue[i].place == i && queue[i].inReadyQueue)
      && (forall i :: 0 <= i < |queue| ==> SlotOk(queue, i))
      && head == (if queue == [] then null else queue[0])
      && tail == (if queue == [] then null else queue[|queue| - 1])
      && readyCount == |queue|
      && (forall p :: p in all ==> p.magic == PCB_MAGIC)
      && (forall p :: p in all && p.inReadyQueue ==> p.place < |queue| && queue[p.place] == p)
    }

    ghost predicate StatsOk()
      reads this`liveThreads, this`totalCreated, this`totalDestroyed, this`all
    {
      liveThreads == |all| && U32(totalDestroyed + |all|) == totalCreated
    }

    ghost function States(): map<Pcb, RR.ThreadState>
      reads this`all, all`state
    {
      map p | p in all :: p.state
    }

    ghost function View(): RR.Sched<Pcb>
      reads this`currentThread, this`queue, this`tickCount, this`all, all`state
    {
      RR.Sched(Held(currentThread), queue, States(), tickCount)
    }

    ghost predicate Valid()
      reads this, all
    {
      QueueOk() && StatsOk() && (currentThread != null ==> currentThread in all)
    }

    /** process_init. */
    constructor ()
      ensures Valid() && all == {} && View() == RR.Sched(None, [], map[], 0)
    {
      currentThread, head, tail, readyCount := null, null, null, 0;
      liveThreads, totalCreated, totalDestroyed, exitedThreads, tickCount := 0, 0, 0, 0, 0;
      queue, all := [], {};
      new;
      assert View().states == map[];
    }

    /** pcb_create, given memory for the block and its stack. */
    method Create() returns (p: Pcb)
      requires Valid() && |all| + 1 < TWO32
      modifies this`totalCreated, this`liveThreads, this`all
      ensures Valid() && fresh(p) && all == old(all) + {p}
      ensures View() == RR.Create(old(View()), p)
    {
      hide U32, QueueOk, SlotOk;
      p := new Pcb();
      totalCreated := U32(totalCreated + 1);
      liveThreads := U32(liveThreads + 1);
      U32Step(totalDestroyed, |all|, old(totalCreated));
      all := all + {p};
      QueueKept(p);
      assert States() == old(States())[p := RR.Ready];
    }

    // Taking an unqueued block in leaves the queue as it was.
    twostate lemma QueueKept(new p: Pcb)
      requires old(QueueOk()) && all == old(all) + {p} && p.magic == PCB_MAGIC && !p.inReadyQueue
      requires head == old(head) && tail == old(tail) && readyCount == old(readyCount) && queue == old(queue)
      requires unchanged(old(all))
      ensures QueueOk()
    {
      forall j | 0 <= j < |queue|
        ensures SlotOk(queue, j)
      {
        assert queue[j] in old(all) && old(SlotOk(queue, j));
      }
    }

    /** pcb_add_to_ready_queue. */
    method Enqueue(p: Pcb)
      requires Valid() && p in all
      modifies this`head, this`tail, this`readyCount, this`queue
      modifies p`state, all`nextReady, all`prevReady, all`inReadyQueue, all`place
      ensures Valid()
      ensures View() == RR.Enqueue(old(View()), p)
    {
      QueuedIff(p);
      if p.state == RR.Exited || p.inReadyQueue {
        return;
      }
      p.state := RR.Ready;
      assert States() == old(States())[p := RR.Ready];
      Append(p);
    }

    // The flag in the block says whether it is in the queue.
    lemma QueuedIff(p: Pcb)
      requires QueueOk() && p in all
      ensures p.inReadyQueue <==> p in queue
    {
      if p in queue {
        var i :| 0 <= i < |queue| && queue[i] == p;
        assert SlotOk(queue, i);
      }
    }

    // Links a block behind the tail.
    method Append(p: Pcb)
      requires QueueOk() && p in all && !p.inReadyQueue
      modifies this`head, this`tail, this`readyCount, this`queue
      modifies all`nextReady, all`prevReady, all`inReadyQueue, all`place
      ensures QueueOk() && queue == old(queue) + [p]
    {
      ghost var q := queue;
      assert q != [] ==> SlotOk(q, |q| - 1);
      p.nextReady := null;
      if tail == null {
        head := p;
        tail := p;
        p.prevReady := null;
      } else {
        p.prevReady := tail;
        tail.nextReady := p;
        tail := p;
      }
      p.inReadyQueue := true;
      p.place := |queue|;
      readyCount := readyCount + 1;
      queue := q + [p];
      forall j | 0 <= j < |queue|
        ensures SlotOk(queue, j)
      {
        assert j < |q| ==> old(SlotOk(q, j)) && queue[j] == q[j] != p;
        assert j < |q| - 1 ==> queue[j + 1] == q[j + 1];
      }
    }

    /** pcb_remove_from_ready_queue: from anywhere in the queue. */
    method Remove(p: Pcb)
      requires QueueOk() && p in all
      modifies this`head, this`tail, this`readyCount, this`queue
      modifies all`nextReady, all`prevReady, all`inReadyQueue, all`place
      ensures QueueOk() && queue == RR.Without(old(queue), p) && !p.inReadyQueue
    {
      hide RR.Without;
      if !p.inReadyQueue {
        forall i | 0 <= i < |queue|
          ensures queue[i] != p
        {
          assert SlotOk(queue, i);
        }
        RR.WithoutAbsent(queue, p);
        return;
      }
      ghost var q, k := queue, p.place;
      assert SlotOk(q, k);
      RR.WithoutPresent(q, p, k);
      assert k > 0 ==> SlotOk(q, k - 1);
      assert k < |q| - 1 ==> SlotOk(q, k + 1);
      Unlink(p);
      forall i | 0 <= i < |q| && i != k
        ensures JoinedOk(q, k, i)
      {
        assert old(SlotOk(q, i));
      }
      CloseGap(q, p, k);
    }

    /** pcb_get_next_ready. */
    method GetNextReady() returns (p: Pcb?)
      requires QueueOk()
      modifies this`head, this`tail, this`readyCount, this`queue
      modifies all`nextReady, all`prevReady, all`inReadyQueue, all`place
      ensures QueueOk()
      ensures old(queue) == [] ==> p == null && queue == []
      ensures old(queue) != [] ==> p == old(queue)[0] && queue == old(queue)[1..]
    {
      if head == null {
        return null;
      }
      p := head;
      assert SlotOk(queue, 0) && queue[0] in all;
      Remove(p);
    }

    /** pcb_destroy of a thread that is not running. */
    method Destroy(p: Pcb)
      requires Valid() && p in all && p != currentThread
      modifies this`head, this`tail, this`readyCount, this`queue, this`all, this`liveThreads, this`totalDestroyed
      modifies all`nextReady, all`prevReady, all`inReadyQueue, all`place, p`magic
      ensures Valid() && all == old(all) - {p}
      ensures View() == RR.Destroy(old(View()), p)
    {
      hide RR.Without, SlotOk;
      if p.inReadyQueue {
        Remove(p);
      } else {
        QueuedIff(p);
        RR.WithoutAbsent(queue, p);
      }
      Forget(p);
    }

    // The block, out of the queue, is given back.
    method Forget(p: Pcb)
      requires Valid() && p in all && p != currentThread && !p.inReadyQueue
      modifies this`all, this`liveThreads, this`totalDestroyed, p`magic
      ensures Valid() && all == old(all) - {p} && States() == old(States()) - {p}
    {
      QueuedIff(p);
      U32Gone(totalDestroyed, |all|, totalCreated);
      p.magic := 0;
      if liveThreads > 0 {
        liveThreads := liveThreads - 1;
      }
      totalDestroyed := U32(totalDestroyed + 1);
      all := all - {p};
      forall i | 0 <= i < |queue|
        ensures SlotOk(queue, i)
      {
        assert old(SlotOk(queue, i));
      }
    }

    /** schedule. Switching context is assigning `currentThread`. */
    method Schedule()
      requires Valid()
      modifies this`head, this`tail, this`readyCount, this`queue, this`currentThread
      modifies all`nextReady, all`prevReady, all`inReadyQueue, all`place, all`state
      ensures Valid()
      ensures View() == RR.Schedule(old(View()))
    {
      if currentThread != null {
        var c: Pcb := currentThread;
        if c.state == RR.Running {
          c.state := RR.Ready;
          assert States() == old(States())[c := RR.Ready];
          Enqueue(c);
        }
      }
      Dispatch();
    }

    // The head of the queue becomes current; without one, a current thread that has not
    // exited goes on running.
    method Dispatch()
      requires Valid()
      modifies this`head, this`tail, this`readyCount, this`queue, this`currentThread
      modifies all`nextReady, all`prevReady, all`inReadyQueue, all`place, all`state
      ensures Valid()
      ensures View() == RR.Dispatch(old(View()))
    {
      hide SlotOk, RR.Distinct;
      assert queue != [] ==> queue[0] in all;
      var next := GetNextReady();
      if next != null {
        GiveCpu(next);
      } else if currentThread != null && currentThread.state != RR.Exited {
        GiveCpu(currentThread);
      } else {
        currentThread := null;
      }
    }

    method GiveCpu(p: Pcb)
      requires Valid() && p in all
      modifies this`currentThread, p`state
      ensures Valid()
      ensures View() == old(View()).(current := Some(p), states := old(View()).states[p := RR.Running])
    {
      p.state := RR.Running;
      assert States() == old(States())[p := RR.Running];
      currentThread := p;
    }

    /** thread_exit. */
    method Exit()
      requires Valid()
      modifies this, all
      ensures Valid()
      ensures all == if old(currentThread) == null then old(all) else old(all) - {old(currentThread)}
      ensures View() == RR.Exit(old(View()))
    {
      if currentThread != null {
        var exiting: Pcb := currentThread;
        exiting.state := RR.Exited;
        assert States() == old(States())[exiting := RR.Exited];
        exitedThreads := U32(exitedThreads + 1);
        currentThread := null;
        RR.ExitedIsForgotten(old(View()), exiting, View());
        Destroy(exiting);
        Schedule();
      }
    }

    /** scheduler_tick. */
    method Tick()
      requires Valid()
      modifies this`head, this`tail, this`readyCount, this`queue, this`currentThread, this`tickCount
      modifies all`nextReady, all`prevReady, all`inReadyQueue, all`place, all`state
      ensures Valid()
      ensures View() == RR.Tick(old(View()))
    {
      hide SlotOk, RR.Dispatch, RR.Preempt, RR.Schedule, U64;
      tickCount := U64(tickCount + 1);
      if tickCount % RR.QUANTUM == 0 {
        Schedule();
      }
    }

    /** scheduler_remove_thread: the thread is only marked, it stays where it is queued. */
    method RemoveThread(p: Pcb)
      requires Valid() && p in all
      modifies p`state
      ensures Valid()
      ensures View() == RR.MarkExited(old(View()), p)
    {
      p.state := RR.Exited;
      assert States() == old(States())[p := RR.Exited];
    }

    /** What every reachable state has: a duplicate-free queue of READY threads, at most one
        RUNNING thread, which is the current one, and exact thread counts. */
    lemma ReadyQueueIsASequence()
      requires Valid() && RR.Inv(View())
      ensures forall p :: p in all && p.state.Running? ==> p == currentThread
      ensures RR.Distinct(queue) && readyCount == |queue|
      ensures forall p :: p in all ==> (p.inReadyQueue <==> p in queue)
      ensures queue != [] ==> head == queue[0] && head.prevReady == null
                              && tail == queue[|queue| - 1] && tail.nextReady == null
      ensures forall i :: 0 <= i < |queue| - 1 ==> queue[i].nextReady == queue[i + 1] && queue[i + 1].prevReady == queue[i]
      ensures U32(totalDestroyed + liveThreads) == totalCreated
    {
      forall i, j | 0 <= i < j < |queue|
        ensures queue[i] != queue[j]
      {
        assert SlotOk(queue, i) && SlotOk(queue, j);
      }
      forall p | p in all
        ensures (p.inReadyQueue <==> p in queue) && (p.state.Running? ==> p == currentThread)
      {
        QueuedIff(p);
        assert p in View().states;
      }
      forall i | 0 <= i < |queue| - 1
        ensures queue[i].nextReady == queue[i + 1] && queue[i + 1].prevReady == queue[i]
      {
        assert SlotOk(queue, i) && SlotOk(queue, i + 1);
      }
      if queue != [] {
        assert SlotOk(queue, 0) && SlotOk(queue, |queue| - 1);
      }
    }

    // The pointer surgery: the neighbours are joined, nobody else's links change.
    method Unlink(p: Pcb)
      requires QueueOk() && p in all && p.inReadyQueue
      modifies this`head, this`tail, this`readyCount
      modifies all`nextReady, all`prevReady, all`inReadyQueue
      ensures head == if old(p.prevReady) == null then old(p.nextReady) else old(head)
      ensures tail == if old(p.nextReady) == null then old(p.prevReady) else old(tail)
      ensures readyCount == old(readyCount) - 1
      ensures forall x :: x in all ==> x.inReadyQueue == (old(x.inReadyQueue) && x != p)
      ensures forall x :: x in all && x != p ==>
                x.nextReady == if x == old(p.prevReady) then old(p.nextReady) else old(x.nextReady)
      ensures forall x :: x in all && x != p ==>
                x.prevReady == if x == old(p.nextReady) then old(p.prevReady) else old(x.prevReady)
    {
      ghost var k := p.place;
      assert SlotOk(queue, k);
      assert k > 0 ==> queue[k - 1] in all && SlotOk(queue, k - 1);
      assert k < |queue| - 1 ==> queue[k + 1] in all && SlotOk(queue, k + 1);
      if p.prevReady != null {
        p.prevReady.nextReady := p.nextReady;
      } else {
        head := p.nextReady;
      }
      if p.nextReady != null {
        p.nextReady.prevReady := p.prevReady;
      } else {
        tail := p.prevReady;
      }
      p.nextReady := null;
      p.prevReady := null;
      p.inReadyQueue := false;
      assert readyCount > 0;
      readyCount := readyCount - 1;
    }

    // With the links joined, the queue is the old one without place `k`.
    ghost method CloseGap(q: seq<Pcb>, p: Pcb, k: nat)
      requires queue == q && k < |q| && q[k] == p && p in all && !p.inReadyQueue
      requires forall i :: 0 <= i < |q| ==> q[i] in all
      requires forall i :: 0 <= i < |q| ==> q[i].place == i && (i != k ==> q[i].inReadyQueue)
      requires forall i :: 0 <= i < |q| && i != k ==> JoinedOk(q, k, i)
      requires forall x :: x in all ==> x.magic == PCB_MAGIC
      requires forall x :: x in all && x.inReadyQueue ==> x.place < |q| && q[x.place] == x
      requires head == (if k > 0 then q[0] else if |q| > 1 then q[1] else null)
      requires tail == (if k < |q| - 1 then q[|q| - 1] else if |q| > 1 then q[k - 1] else null)
      requires readyCount == |q| - 1
      modifies this`queue, all`place
      ensures QueueOk() && queue == q[..k] + q[k + 1..]
    {
      hide SlotOk;
      queue := q[..k] + q[k + 1..];
      forall i | k < i < |q| {
        q[i].place := i - 1;
      }
      forall j | 0 <= j < |queue|
        ensures SlotOk(queue, j)
      {
        assert old(JoinedOk(q, k, if j < k then j else j + 1));
        JoinedIsSlot(q, k, if j < k then j else j + 1);
      }
    }
  }

  // The links of the block at place `i` once its neighbour at place `k` is gone.
  ghost predicate JoinedOk(q: seq<Pcb>, k: int, i: int)
    requires 0 <= i < |q| && 0 <= k < |q|
    reads {q[i]}`prevReady, {q[i]}`nextReady
  {
    var prev, next := if i - 1 == k then i - 2 else i - 1, if i + 1 == k then i + 2 else i + 1;
    && q[i].prevReady == (if prev < 0 then null else q[prev])
    && q[i].nextReady == (if next >= |q| then null else q[next])
  }

  // Joined links are the right links at the block's new place.
  lemma JoinedIsSlot(q: seq<Pcb>, k: nat, i: nat)
    requires i < |q| && k < |q| && i != k && JoinedOk(q, k, i)
    ensures SlotOk(q[..k] + q[k + 1..], if i < k then i else i - 1)
  {
  }

  lemma U32Step(destroyed: nat, live: nat, created: nat)
    requires U32(destroyed + live) == created
    ensures U32(destroyed + (live + 1)) == U32(created + 1)
  {
    U32Absorbs(destroyed + live, 1);
  }

  lemma U32Gone(destroyed: nat, live: nat, created: nat)
    requires U32(destroyed + live) == created && live > 0
    ensures U32(U32(destroyed + 1) + (live - 1)) == created
  {
    U32Absorbs(destroyed + 1, live - 1);
  }
}
