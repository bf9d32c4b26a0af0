/**
 The round-robin scheduler as a transition system over (current thread, ready queue,
 thread states, tick counter), and what it guarantees whatever threads come and go.
 The class in Scheduler refines these functions.
 */
module RoundRobin {
  import opened Options
  import opened Words

  const QUANTUM := 10

  datatype ThreadState = Ready | Running | Blocked | Exited

  datatype Sched<T(==)> = Sched(current: Option<T>, queue: seq<T>, states: map<T, ThreadState>, ticks: nat)

  ghost predicate Distinct<T>(q: seq<T>) {
    forall i, j :: 0 <= i < j < |q| ==> q[i] != q[j]
  }

  /** Queued threads are distinct, known and READY; only the current thread can be RUNNING. */
  ghost predicate Inv<T>(s: Sched<T>) {
    && Distinct(s.queue)
    && (forall i :: 0 <= i < |s.queue| ==> s.queue[i] in s.states && s.states[s.queue[i]].Ready?)
    && (s.current.Some? ==> s.current.value in s.states && !s.states[s.current.value].Exited?)
    && (forall t :: t in s.states && s.states[t].Running? ==> s.current == Some(t))
  }

  // The part of the invariant that bookkeeping needs, whatever the states are.
  ghost predicate Tracked<T>(s: Sched<T>) {
    && Distinct(s.queue)
    && (forall i :: 0 <= i < |s.queue| ==> s.queue[i] in s.states)
    && (s.current.Some? ==> s.current.value in s.states)
  }

  // ---------------------------------------------------------------- operations

  /** pcb_add_to_ready_queue. */
  function Enqueue<T(==)>(s: Sched<T>, t: T): Sched<T>
    requires t in s.states
  {
    if s.states[t].Exited? || t in s.queue then s
    else s.(queue := s.queue + [t], states := s.states[t := Ready])
  }

  function Without<T(==)>(q: seq<T>, t: T): (r: seq<T>)
    ensures |r| <= |q|
  {
    if q == [] then [] else if q[0] == t then q[1..] else [q[0]] + Without(q[1..], t)
  }

  // The current thread leaves the CPU: back to the queue if it was running.
  function Preempt<T(==)>(s: Sched<T>): Sched<T>
    requires s.current.Some? ==> s.current.value in s.states
  {
    if s.current.Some? && s.states[s.current.value].Running? then
      Enqueue(s.(states := s.states[s.current.value := Ready]), s.current.value)
    else s
  }

  // The head of the queue gets the CPU.
  function Dispatch<T(==)>(s: Sched<T>): Sched<T> {
    if s.queue != [] then
      Sched(Some(s.queue[0]), s.queue[1..], s.states[s.queue[0] := Running], s.ticks)
    else if s.current.Some? && s.current.value in s.states && !s.states[s.current.value].Exited? then
      s.(states := s.states[s.current.value := Running])
    else s.(current := None)
  }

  /** schedule. */
  function Schedule<T(==)>(s: Sched<T>): Sched<T>
    requires s.current.Some? ==> s.current.value in s.states
  {
    Dispatch(Preempt(s))
  }

  /** scheduler_tick. */
  function Tick<T(==)>(s: Sched<T>): Sched<T>
    requires s.current.Some? ==> s.current.value in s.states
  {
    var s1 := s.(ticks := U64(s.ticks + 1));
    if s1.ticks % QUANTUM == 0 then Schedule(s1) else s1
  }

  /** pcb_create: a new thread, not yet queued. */
  function Create<T(==)>(s: Sched<T>, t: T): Sched<T> {
    s.(states := s.states[t := Ready])
  }

  /** pcb_destroy of a thread other than the current one. */
  function Destroy<T(==)>(s: Sched<T>, t: T): Sched<T> {
    s.(queue := Without(s.queue, t), states := s.states - {t})
  }

  /** thread_exit. */
  function Exit<T(==)>(s: Sched<T>): Sched<T> {
    if s.current.None? then s else Schedule(Destroy(s.(current := None), s.current.value))
  }

  // The exiting thread's last state goes with it.
  lemma ExitedIsForgotten<T>(s: Sched<T>, t: T, mid: Sched<T>)
    requires mid == s.(current := None, states := s.states[t := Exited])
    ensures Destroy(mid, t) == Destroy(s.(current := None), t)
  {
    assert s.states[t := Exited] - {t} == s.states - {t};
  }

  // ---------------------------------------------------------------- the invariant

  lemma {:induction false} WithoutKeeps<T>(q: seq<T>, t: T)
    requires Distinct(q)
    ensures Distinct(Without(q, t)) && t !in Without(q, t)
    ensures forall x :: x in Without(q, t) ==> x in q && x != t
    ensures forall x :: x in q && x != t ==> x in Without(q, t)
    ensures t in q ==> |Without(q, t)| == |q| - 1
  {
    if q != [] {
      assert forall i, j :: 0 <= i < j < |q[1..]| ==> q[1..][i] != q[1..][j];
      assert forall i :: 0 < i < |q| ==> q[i] == q[1..][i - 1];
      WithoutKeeps(q[1..], t);
      assert forall x :: x in q <==> x == q[0] || x in q[1..];
      var r := Without(q, t);
      if q[0] != t {
        var rest := Without(q[1..], t);
        assert r == [q[0]] + rest;
        forall i, j | 0 <= i < j < |r|
          ensures r[i] != r[j]
        {
          assert rest[j - 1] in rest && r[j] == rest[j - 1];
        }
        assert forall x :: x in r <==> x == q[0] || x in rest;
      }
    }
  }

  lemma {:induction false} WithoutAbsent<T>(q: seq<T>, t: T)
    requires t !in q
    ensures Without(q, t) == q
  {
    if q != [] {
      WithoutAbsent(q[1..], t);
    }
  }

  // Removing a queued thread closes the gap at its place.
  lemma {:induction false} WithoutPresent<T>(q: seq<T>, t: T, k: nat)
    requires k < |q| && q[k] == t && forall i :: 0 <= i < k ==> q[i] != t
    ensures Without(q, t) == q[..k] + q[k + 1..]
  {
    if k > 0 {
      WithoutPresent(q[1..], t, k - 1);
      assert [q[0]] + (q[1..][..k - 1] + q[1..][k..]) == q[..k] + q[k + 1..];
    }
  }

  lemma EnqueueInv<T>(s: Sched<T>, t: T)
    requires Inv(s) && t in s.states
    ensures Inv(Enqueue(s, t))
  {
  }

  lemma PreemptInv<T>(s: Sched<T>)
    requires Inv(s)
    ensures Inv(Preempt(s)) && Preempt(s).current == s.current
    ensures forall t :: t in Preempt(s).states ==> !Preempt(s).states[t].Running?
  {
  }

  lemma DispatchInv<T>(s: Sched<T>)
    requires Inv(s) && forall t :: t in s.states ==> !s.states[t].Running?
    ensures Inv(Dispatch(s))
  {
    if s.queue != [] {
      var s' := Dispatch(s);
      assert forall i :: 0 <= i < |s'.queue| ==> s'.queue[i] == s.queue[i + 1] && s'.queue[i] != s.queue[0];
    }
  }

  lemma ScheduleInv<T>(s: Sched<T>)
    requires Inv(s)
    ensures Inv(Schedule(s))
  {
    PreemptInv(s);
    DispatchInv(Preempt(s));
  }

  lemma DestroyInv<T>(s: Sched<T>, t: T)
    requires Inv(s) && s.current != Some(t)
    ensures Inv(Destroy(s, t))
  {
    WithoutKeeps(s.queue, t);
    var r := Without(s.queue, t);
    forall i | 0 <= i < |r|
      ensures r[i] in s.states && s.states[r[i]].Ready? && r[i] != t
    {
      assert r[i] in r && r[i] in s.queue;
    }
  }

  /** scheduler_remove_thread only marks the thread. */
  function MarkExited<T(==)>(s: Sched<T>, t: T): Sched<T> {
    s.(states := s.states[t := Exited])
  }

  // ---------------------------------------------------------------- runs

  datatype Event<T> = Arrive(t: T) | Add(t: T) | Kill(t: T) | Leave | Yield | TimerTick

  predicate Legal<T(==)>(s: Sched<T>, e: Event<T>) {
    match e
    case Arrive(t) => t !in s.states
    case Add(t) => t in s.states
    case Kill(t) => t in s.states && s.current != Some(t)
    case _ => true
  }

  function Step<T(==)>(s: Sched<T>, e: Event<T>): Sched<T>
    requires s.current.Some? ==> s.current.value in s.states
    requires Legal(s, e)
  {
    match e
    case Arrive(t) => Create(s, t)
    case Add(t) => Enqueue(s, t)
    case Kill(t) => Destroy(s, t)
    case Leave => Exit(s)
    case Yield => Schedule(s)
    case TimerTick => Tick(s)
  }

  // Does this event call schedule?
  predicate Calls<T(==)>(s: Sched<T>, e: Event<T>) {
    match e
    case Leave => s.current.Some?
    case Yield => true
    case TimerTick => U64(s.ticks + 1) % QUANTUM == 0
    case _ => false
  }

  lemma StepInv<T>(s: Sched<T>, e: Event<T>)
    requires Inv(s) && Legal(s, e)
    ensures Inv(Step(s, e))
  {
    match e
    case Arrive(t) =>
    case Add(t) => EnqueueInv(s, t);
    case Kill(t) => DestroyInv(s, t);
    case Leave => ExitInv(s);
    case Yield => ScheduleInv(s);
    case TimerTick =>
      var s1 := s.(ticks := U64(s.ticks + 1));
      assert Inv(s1);
      ScheduleInv(s1);
  }

  lemma ExitInv<T>(s: Sched<T>)
    requires Inv(s)
    ensures Inv(Exit(s))
  {
    if s.current.Some? {
      var c := s.current.value;
      WithoutKeeps(s.queue, c);
      var s1 := Destroy(s.(current := None), c);
      forall i | 0 <= i < |s1.queue|
        ensures s1.queue[i] in s1.states && s1.states[s1.queue[i]].Ready?
      {
        assert s1.queue[i] in s1.queue && s1.queue[i] in s.queue;
      }
      ScheduleInv(s1);
    }
  }

  lemma StepTracked<T>(s: Sched<T>, e: Event<T>)
    requires Tracked(s) && Legal(s, e)
    ensures Tracked(Step(s, e))
  {
    match e
    case Arrive(t) =>
    case Add(t) =>
    case Kill(t) => DestroyTracked(s, t);
    case Leave =>
      if s.current.Some? {
        DestroyTracked(s.(current := None), s.current.value);
        ScheduleTracked(Destroy(s.(current := None), s.current.value));
      }
    case Yield => ScheduleTracked(s);
    case TimerTick => ScheduleTracked(s.(ticks := U64(s.ticks + 1)));
  }

  lemma DestroyTracked<T>(s: Sched<T>, t: T)
    requires Tracked(s) && s.current != Some(t)
    ensures Tracked(Destroy(s, t)) && t !in Destroy(s, t).states && t !in Destroy(s, t).queue
  {
    WithoutKeeps(s.queue, t);
    var r := Without(s.queue, t);
    forall i | 0 <= i < |r|
      ensures r[i] in s.states && r[i] != t
    {
      assert r[i] in r && r[i] in s.queue;
    }
  }

  lemma ScheduleTracked<T>(s: Sched<T>)
    requires Tracked(s)
    ensures Tracked(Schedule(s))
  {
    var q := Preempt(s);
    assert Tracked(q);
    if q.queue != [] {
      assert forall i :: 0 <= i < |q.queue| - 1 ==> q.queue[1..][i] == q.queue[i + 1];
    }
  }

  ghost predicate LegalRun<T>(s: Sched<T>, run: seq<Event<T>>)
    requires Tracked(s)
    decreases |run|
  {
    run == [] || (Legal(s, run[0]) && (StepTracked(s, run[0]); LegalRun(Step(s, run[0]), run[1..])))
  }

  ghost function After<T>(s: Sched<T>, run: seq<Event<T>>): (s': Sched<T>)
    requires Tracked(s) && LegalRun(s, run)
    ensures Tracked(s')
    decreases |run|
  {
    if run == [] then s
    else
      StepTracked(s, run[0]);
      After(Step(s, run[0]), run[1..])
  }

  /** Every legal run from a sound state leads to a sound state. */
  lemma {:induction false} RunKeepsInv<T>(s: Sched<T>, run: seq<Event<T>>)
    requires Inv(s) && LegalRun(s, run)
    ensures Inv(After(s, run))
    decreases |run|
  {
    if run != [] {
      StepInv(s, run[0]);
      RunKeepsInv(Step(s, run[0]), run[1..]);
    }
  }

  // The number of calls of schedule in a run.
  ghost function CallCount<T>(s: Sched<T>, run: seq<Event<T>>): nat
    requires Tracked(s) && LegalRun(s, run)
    decreases |run|
  {
    if run == [] then 0
    else
      StepTracked(s, run[0]);
      (if Calls(s, run[0]) then 1 else 0) + CallCount(Step(s, run[0]), run[1..])
  }

  // ---------------------------------------------------------------- the bound

  // A queued thread at position `p`.
  predicate WaitsAt<T(==)>(s: Sched<T>, t: T, p: nat) {
    p < |s.queue| && s.queue[p] == t
  }

  lemma DispatchAdvances<T>(s: Sched<T>, t: T, p: nat)
    requires WaitsAt(s, t, p)
    ensures p == 0 ==> Dispatch(s).current == Some(t)
    ensures p > 0 ==> WaitsAt(Dispatch(s), t, p - 1)
  {
  }

  lemma PreemptKeepsPlace<T>(s: Sched<T>, t: T, p: nat)
    requires Inv(s) && WaitsAt(s, t, p)
    ensures WaitsAt(Preempt(s), t, p)
  {
  }

  lemma {:induction false} WithoutAdvances<T>(q: seq<T>, x: T, t: T, p: nat) returns (p': nat)
    requires p < |q| && q[p] == t && t != x
    ensures p' <= p && p' < |Without(q, x)| && Without(q, x)[p'] == t
  {
    if q[0] == x {
      p' := p - 1;
    } else if p == 0 {
      p' := 0;
    } else {
      var k := WithoutAdvances(q[1..], x, t, p - 1);
      p' := k + 1;
    }
  }

  // One event: a waiting thread keeps its place or moves forward, and each call of
  // schedule moves it forward or gives it the CPU.
  lemma StepAdvances<T>(s: Sched<T>, e: Event<T>, t: T, p: nat) returns (p': nat)
    requires Inv(s) && Legal(s, e) && WaitsAt(s, t, p) && e != Kill(t) && s.current != Some(t)
    ensures Step(s, e).current == Some(t) || WaitsAt(Step(s, e), t, p')
    ensures Step(s, e).current != Some(t) ==> p' <= p - (if Calls(s, e) then 1 else 0)
    ensures Step(s, e).current == Some(t) ==> Calls(s, e)
  {
    p' := p;
    match e
    case Arrive(x) =>
    case Add(x) =>
    case Kill(x) => p' := WithoutAdvances(s.queue, x, t, p);
    case Leave =>
      if s.current.Some? {
        var k := WithoutAdvances(s.queue, s.current.value, t, p);
        DispatchAdvances(Destroy(s.(current := None), s.current.value), t, k);
        p' := if k > 0 then k - 1 else 0;
      }
    case Yield =>
      PreemptKeepsPlace(s, t, p);
      DispatchAdvances(Preempt(s), t, p);
      p' := if p > 0 then p - 1 else 0;
    case TimerTick =>
      if Calls(s, e) {
        var s1 := s.(ticks := U64(s.ticks + 1));
        PreemptKeepsPlace(s1, t, p);
        DispatchAdvances(Preempt(s1), t, p);
        p' := if p > 0 then p - 1 else 0;
      }
  }

  /** Round-robin bound: a thread at position `p` of the ready queue becomes current after at
      most p+1 calls of schedule, whatever arrivals, yields, exits and removals of other
      threads happen meanwhile. */
  lemma {:induction false} BoundedWait<T>(s: Sched<T>, run: seq<Event<T>>, t: T, p: nat) returns (n: nat)
    requires Inv(s) && LegalRun(s, run) && WaitsAt(s, t, p) && s.current != Some(t)
    requires Kill(t) !in run && CallCount(s, run) > p
    ensures 0 < n <= |run| && LegalRun(s, run[..n])
    ensures After(s, run[..n]).current == Some(t) && CallCount(s, run[..n]) <= p + 1
    decreases |run|
  {
    var e := run[0];
    StepInv(s, e);
    var p' := StepAdvances(s, e, t, p);
    if Step(s, e).current == Some(t) {
      n := 1;
      assert run[..1] == [e] && run[..1][1..] == [];
    } else {
      var m := BoundedWait(Step(s, e), run[1..], t, p');
      n := m + 1;
      assert run[..n][0] == e && run[..n][1..] == run[1..][..m];
    }
  }

  // ---------------------------------------------------------------- removed threads

  predicate Runs<T(==)>(s: Sched<T>, t: T) {
    s.current == Some(t) && t in s.states && s.states[t].Running?
  }

  // The thread is not destroyed during the run.
  ghost predicate Survives<T>(s: Sched<T>, run: seq<Event<T>>, t: T)
    requires Tracked(s) && LegalRun(s, run)
    decreases |run|
  {
    t in s.states && (run == [] || (StepTracked(s, run[0]); Survives(Step(s, run[0]), run[1..], t)))
  }

  // One of the first `c` calls of schedule gives the thread the CPU.
  ghost predicate GivenCpu<T>(s: Sched<T>, run: seq<Event<T>>, t: T, c: nat)
    requires Tracked(s) && LegalRun(s, run)
    decreases |run|
  {
    run != [] &&
    (StepTracked(s, run[0]);
     var s' := Step(s, run[0]);
     if Calls(s, run[0]) then c > 0 && (Runs(s', t) || GivenCpu(s', run[1..], t, c - 1))
     else GivenCpu(s', run[1..], t, c))
  }

  lemma {:induction false} GivenCpuMore<T>(s: Sched<T>, run: seq<Event<T>>, t: T, c: nat, d: nat)
    requires Tracked(s) && LegalRun(s, run) && GivenCpu(s, run, t, c) && c <= d
    ensures GivenCpu(s, run, t, d)
    decreases |run|
  {
    StepTracked(s, run[0]);
    var s' := Step(s, run[0]);
    if !Calls(s, run[0]) {
      GivenCpuMore(s', run[1..], t, c, d);
    } else if !Runs(s', t) {
      GivenCpuMore(s', run[1..], t, c - 1, d - 1);
    }
  }

  // A call of schedule serves the head of the queue and moves the others up, whatever the
  // states of the threads are.
  lemma ScheduleServes<T>(s: Sched<T>, t: T, p: nat)
    requires Tracked(s) && WaitsAt(s, t, p)
    ensures p == 0 ==> Runs(Schedule(s), t)
    ensures p > 0 ==> WaitsAt(Schedule(s), t, p - 1)
  {
    assert WaitsAt(Preempt(s), t, p);
    DispatchAdvances(Preempt(s), t, p);
  }

  lemma StepServes<T>(s: Sched<T>, e: Event<T>, t: T, p: nat) returns (p': nat)
    requires Tracked(s) && Legal(s, e) && WaitsAt(s, t, p) && t in Step(s, e).states
    ensures Calls(s, e) ==> Runs(Step(s, e), t) || (WaitsAt(Step(s, e), t, p') && p' < p)
    ensures !Calls(s, e) ==> WaitsAt(Step(s, e), t, p') && p' <= p
  {
    p' := p;
    match e
    case Arrive(x) =>
    case Add(x) =>
    case Kill(x) => p' := WithoutAdvances(s.queue, x, t, p);
    case Leave =>
      if s.current.Some? {
        var c, s0 := s.current.value, s.(current := None);
        DestroyTracked(s0, c);
        if c == t {
          ScheduleKnows(Destroy(s0, c), t);
        } else {
          var k := WithoutAdvances(s.queue, c, t, p);
          ScheduleServes(Destroy(s0, c), t, k);
          p' := if k > 0 then k - 1 else 0;
        }
      }
    case Yield =>
      ScheduleServes(s, t, p);
      p' := if p > 0 then p - 1 else 0;
    case TimerTick =>
      if Calls(s, e) {
        ScheduleServes(s.(ticks := U64(s.ticks + 1)), t, p);
        p' := if p > 0 then p - 1 else 0;
      }
  }

  // schedule makes no thread known.
  lemma ScheduleKnows<T>(s: Sched<T>, t: T)
    requires Tracked(s) && t !in s.states
    ensures t !in Schedule(s).states
  {
    assert Tracked(Preempt(s));
  }

  lemma {:induction false} ServedInTurn<T>(s: Sched<T>, run: seq<Event<T>>, t: T, p: nat)
    requires Tracked(s) && LegalRun(s, run) && Survives(s, run, t) && WaitsAt(s, t, p) && CallCount(s, run) > p
    ensures GivenCpu(s, run, t, p + 1)
    decreases |run|
  {
    StepTracked(s, run[0]);
    var s' := Step(s, run[0]);
    assert Survives(s', run[1..], t);
    var p' := StepServes(s, run[0], t, p);
    if !(Calls(s, run[0]) && Runs(s', t)) {
      ServedInTurn(s', run[1..], t, p');
      GivenCpuMore(s', run[1..], t, p' + 1, if Calls(s, run[0]) then p else p + 1);
    }
  }

  // Exited and in no queue.
  predicate Out<T(==)>(s: Sched<T>, t: T) {
    t !in s.queue && t in s.states && s.states[t].Exited?
  }

  lemma ScheduleLeavesOut<T>(s: Sched<T>, t: T)
    requires Tracked(s) && Out(s, t)
    ensures Out(Schedule(s), t) && Schedule(s).current != Some(t)
  {
    var q := Preempt(s);
    assert Tracked(q) && Out(q, t);
    assert q.queue != [] ==> q.queue[0] in q.queue && forall x :: x in q.queue[1..] ==> x in q.queue;
  }

  lemma StepLeavesOut<T>(s: Sched<T>, e: Event<T>, t: T)
    requires Tracked(s) && Legal(s, e) && Out(s, t) && t in Step(s, e).states
    ensures Out(Step(s, e), t) && (Calls(s, e) ==> Step(s, e).current != Some(t))
  {
    match e
    case Arrive(x) =>
    case Add(x) =>
    case Kill(x) => WithoutKeeps(s.queue, x);
    case Leave =>
      if s.current.Some? {
        var c, s0 := s.current.value, s.(current := None);
        DestroyTracked(s0, c);
        WithoutKeeps(s.queue, c);
        if c == t {
          ScheduleKnows(Destroy(s0, c), t);
        } else {
          ScheduleLeavesOut(Destroy(s0, c), t);
        }
      }
    case Yield => ScheduleLeavesOut(s, t);
    case TimerTick => ScheduleLeavesOut(s.(ticks := U64(s.ticks + 1)), t);
  }

  lemma {:induction false} OutNeverRuns<T>(s: Sched<T>, run: seq<Event<T>>, t: T, c: nat)
    requires Tracked(s) && LegalRun(s, run) && Survives(s, run, t) && Out(s, t)
    ensures !GivenCpu(s, run, t, c)
    decreases |run|
  {
    if run != [] {
      StepTracked(s, run[0]);
      var s' := Step(s, run[0]);
      assert Survives(s', run[1..], t);
      StepLeavesOut(s, run[0], t);
      OutNeverRuns(s', run[1..], t, if Calls(s, run[0]) && c > 0 then c - 1 else c);
    }
  }

  /** scheduler_remove_thread only marks the thread. In a run that does not destroy it and
      goes on for as many calls of schedule as threads were queued, the thread is given the
      CPU again exactly when it stood in the ready queue: from place `p` within p+1 calls,
      and otherwise by no call at all. */
  lemma RemovedRunsAgainIff<T>(s: Sched<T>, t: T, m: Sched<T>, run: seq<Event<T>>)
    requires Tracked(s) && t in s.states && m == MarkExited(s, t)
    requires LegalRun(m, run) && Survives(m, run, t) && CallCount(m, run) >= |s.queue|
    ensures GivenCpu(m, run, t, |s.queue|) <==> t in s.queue
    ensures forall p: nat :: WaitsAt(s, t, p) ==> GivenCpu(m, run, t, p + 1)
    ensures t !in s.queue ==> forall c: nat :: !GivenCpu(m, run, t, c)
  {
    forall p: nat | WaitsAt(s, t, p)
      ensures GivenCpu(m, run, t, p + 1)
    {
      ServedInTurn(m, run, t, p);
    }
    if t in s.queue {
      var p: nat :| p < |s.queue| && s.queue[p] == t;
      assert WaitsAt(s, t, p);
      GivenCpuMore(m, run, t, p + 1, |s.queue|);
    } else {
      forall c: nat
        ensures !GivenCpu(m, run, t, c)
      {
        OutNeverRuns(m, run, t, c);
      }
    }
  }

  /** Thread 1 waits behind the running thread 0 and is removed: the next call of schedule
      runs it. */
  lemma RemovedThreadRuns()
    ensures var s := Sched(Some(0), [1], map[0 := Running, 1 := Ready], 0);
      Inv(s) && Runs(Schedule(MarkExited(s, 1)), 1)
  {
  }

  // ---------------------------------------------------------------- timer ticks

  ghost function TickCount<T>(run: seq<Event<T>>): nat {
    if run == [] then 0 else (if run[0].TimerTick? then 1 else 0) + TickCount(run[1..])
  }

  // How far the quantum has run: ticks since the last expiry, also where the 64-bit
  // counter wraps in the middle of a quantum.
  function Elapsed(ticks: nat): nat
    requires ticks < TWO64
  {
    if ticks < TWO64 - 6 then ticks % QUANTUM else ticks - (TWO64 - 6) + 4
  }

  lemma TickElapses(ticks: nat)
    requires ticks < TWO64
    ensures Elapsed(ticks) <= 9
    ensures U64(ticks + 1) % QUANTUM != 0 ==> Elapsed(U64(ticks + 1)) >= Elapsed(ticks) + 1
  {
  }

  lemma {:induction false} CallsFollowTicks<T>(s: Sched<T>, run: seq<Event<T>>)
    requires Inv(s) && LegalRun(s, run) && s.ticks < TWO64
    ensures 10 * CallCount(s, run) + 9 >= TickCount(run) + Elapsed(s.ticks)
    decreases |run|
  {
    TickElapses(s.ticks);
    if run != [] {
      StepInv(s, run[0]);
      TicksChange(s, run[0]);
      CallsFollowTicks(Step(s, run[0]), run[1..]);
    }
  }

  lemma TicksChange<T>(s: Sched<T>, e: Event<T>)
    requires Inv(s) && Legal(s, e)
    ensures Step(s, e).ticks == if e.TimerTick? then U64(s.ticks + 1) else s.ticks
  {
  }

  /** In timer ticks: position `p` waits at most 10*(p+1) of them, wherever the counter
      stands and even when it wraps. */
  lemma BoundedTicks<T>(s: Sched<T>, run: seq<Event<T>>, t: T, p: nat) returns (n: nat)
    requires Inv(s) && LegalRun(s, run) && WaitsAt(s, t, p) && s.current != Some(t) && s.ticks < TWO64
    requires Kill(t) !in run && TickCount(run) >= 10 * (p + 1)
    ensures 0 < n <= |run| && LegalRun(s, run[..n])
    ensures After(s, run[..n]).current == Some(t) && CallCount(s, run[..n]) <= p + 1
  {
    CallsFollowTicks(s, run);
    n := BoundedWait(s, run, t, p);
  }

  /** A tick calls schedule exactly when the counter after it is a multiple of ten, and
      otherwise only counts. */
  lemma TickIs<T>(s: Sched<T>)
    requires Tracked(s) && s.ticks < TWO64
    ensures var n := (s.ticks + 1) % TWO64;
      && (Calls(s, Event<T>.TimerTick) <==> n % 10 == 0)
      && Step(s, Event<T>.TimerTick) == if n % 10 == 0 then Schedule(s.(ticks := n)) else s.(ticks := n)
  {
    U64IsModulo(s.ticks + 1);
  }

  lemma {:induction false} TicksAfter<T>(s: Sched<T>, run: seq<Event<T>>)
    requires Tracked(s) && LegalRun(s, run) && s.ticks < TWO64
    ensures After(s, run).ticks == (s.ticks + TickCount(run)) % TWO64
    decreases |run|
  {
    if run != [] {
      StepTracked(s, run[0]);
      OneTick(s, run[0]);
      TicksAfter(Step(s, run[0]), run[1..]);
      AddModulo(s.ticks, if run[0].TimerTick? then 1 else 0, TickCount(run[1..]));
    }
  }

  lemma OneTick<T>(s: Sched<T>, e: Event<T>)
    requires Tracked(s) && Legal(s, e) && s.ticks < TWO64
    ensures Step(s, e).ticks == (s.ticks + if e.TimerTick? then 1 else 0) % TWO64
  {
    U64IsModulo(s.ticks + 1);
  }

  lemma AddModulo(a: nat, b: nat, c: nat)
    ensures ((a + b) % TWO64 + c) % TWO64 == (a + b + c) % TWO64
  {
  }

  /** The quantum is exact: behind a tick that called schedule, whatever happens in between, the
      tenth tick is the next to call it. Only the last quantum before the 64-bit counter
      wraps has six ticks. */
  lemma QuantumIsExact<T>(s: Sched<T>, run: seq<Event<T>>, k: nat)
    requires Tracked(s) && LegalRun(s, run) && s.ticks < TWO64 && s.ticks % 10 == 0
    requires k < |run| && run[k].TimerTick?
    ensures LegalRun(s, run[..k])
    ensures var n, quantum := TickCount(run[..k]) + 1, if s.ticks == TWO64 - 6 then 6 else 10;
      n <= quantum ==> (Calls(After(s, run[..k]), run[k]) <==> n == quantum)
  {
    hide After, LegalRun, Calls, Step, TickCount, Schedule;
    LegalFront(s, run, k);
    TicksAfter(s, run[..k]);
    TickIs(After(s, run[..k]));
    QuantumNumbers(s.ticks, TickCount(run[..k]) + 1);
  }

  lemma QuantumNumbers(ticks: nat, n: nat)
    requires ticks < TWO64 && ticks % 10 == 0 && 0 < n
    ensures var quantum := if ticks == TWO64 - 6 then 6 else 10;
      n <= quantum ==> (((ticks + (n - 1)) % TWO64 + 1) % TWO64 % 10 == 0 <==> n == quantum)
  {
    AddModulo(ticks, n - 1, 1);
    if n <= 10 {
      TensAndSix(ticks, n);
    }
  }

  lemma TensAndSix(ticks: nat, n: nat)
    requires ticks < TWO64 && ticks % 10 == 0 && 0 < n <= 10
    ensures var quantum := if ticks == TWO64 - 6 then 6 else 10;
      n <= quantum ==> ((ticks + n) % TWO64 % 10 == 0 <==> n == quantum)
  {
  }

  lemma {:induction false} LegalFront<T>(s: Sched<T>, run: seq<Event<T>>, k: nat)
    requires Tracked(s) && LegalRun(s, run) && k <= |run|
    ensures LegalRun(s, run[..k])
    decreases |run|
  {
    if k > 0 {
      StepTracked(s, run[0]);
      LegalFront(Step(s, run[0]), run[1..], k - 1);
      assert run[..k][1..] == run[1..][..k - 1];
    }
  }

  /** A current thread that is blocked stays off the CPU at a call of schedule exactly when
      another one is queued; otherwise it is made to run. */
  lemma BlockedStaysOffIff<T>(s: Sched<T>)
    requires Inv(s) && s.current.Some? && s.states[s.current.value].Blocked?
    ensures var c, s' := s.current.value, Schedule(s);
      c !in s'.queue && if s.queue != [] then s'.current == Some(s.queue[0]) && s'.states[c].Blocked? else Runs(s', c)
  {
  }

  /** Thread 0 is blocked and alone: the next call of schedule makes it run. */
  lemma BlockedThreadRuns()
    ensures var s := Sched(Some(0), [], map[0 := Blocked], 0);
      Inv(s) && Runs(Schedule(s), 0)
  {
  }

  // ---------------------------------------------------------------- coming and going

  /** A new thread is READY and waits for nothing until it is added; then it stands behind all
      that wait. */
  lemma ArrivedIsLast<T>(s: Sched<T>, t: T)
    requires Inv(s) && t !in s.states
    ensures var s1 := Step(s, Arrive(t));
      && s1 == s.(states := s1.states) && s1.states[t].Ready? && t !in s1.queue
      && Step(s1, Add(t)).queue == s.queue + [t]
  {
    assert forall i :: 0 <= i < |s.queue| ==> s.queue[i] in s.states;
  }

  /** The running thread that exits is forgotten, and the head of the queue runs in its place. */
  lemma ExitIs<T>(s: Sched<T>)
    requires Inv(s) && s.current.Some? && s.states[s.current.value].Running?
    ensures var c, s' := s.current.value, Step(s, Event<T>.Leave);
      && c !in s'.states && c !in s'.queue
      && (s.queue == [] ==> s'.current == None && s'.queue == [])
      && (s.queue != [] ==> Runs(s', s.queue[0]) && s'.queue == s.queue[1..])
  {
    WithoutAbsent(s.queue, s.current.value);
  }

  /** A thread that is destroyed is forgotten, and those that waited close up. */
  lemma KilledIsGone<T>(s: Sched<T>, t: T, p: nat)
    requires Inv(s) && Legal(s, Kill(t))
    ensures var s' := Step(s, Kill(t));
      && s'.current == s.current && s'.ticks == s.ticks && s'.states == s.states - {t}
      && (WaitsAt(s, t, p) ==> s'.queue == s.queue[..p] + s.queue[p + 1..])
      && (t !in s.queue ==> s'.queue == s.queue)
  {
    if WaitsAt(s, t, p) {
      WithoutPresent(s.queue, t, p);
    }
    if t !in s.queue {
      WithoutAbsent(s.queue, t);
    }
  }

  // ---------------------------------------------------------------- full circle

  function ScheduleTimes<T(==)>(s: Sched<T>, n: nat): Sched<T>
    requires s.current.Some? && s.current.value in s.states
  {
    if n == 0 then s
    else
      var r := ScheduleTimes(s, n - 1);
      if r.current.Some? && r.current.value in r.states then Schedule(r) else r
  }

  // After `k` turns the ring of current thread and queue has moved on by `k` places.
  function Turned<T(==)>(s: Sched<T>, k: nat): Sched<T>
    requires s.current.Some? && k <= |s.queue| && s.current.value in s.states
  {
    var ring := [s.current.value] + s.queue;
    s.(current := Some(ring[k]), queue := ring[k + 1..] + ring[..k],
       states := s.states[s.current.value := Ready][ring[k] := Running])
  }

  lemma {:induction false} TurnsAdvance<T>(s: Sched<T>, k: nat)
    requires Inv(s) && s.current.Some? && s.states[s.current.value].Running? && k <= |s.queue|
    ensures ScheduleTimes(s, k) == Turned(s, k)
  {
    var c := s.current.value;
    var ring := [c] + s.queue;
    if k == 0 {
      assert ring[1..] + ring[..0] == s.queue;
      assert s.states[c := Ready][c := Running] == s.states;
    } else {
      TurnsAdvance(s, k - 1);
      OneTurn(s, k);
    }
  }

  lemma OneTurn<T>(s: Sched<T>, k: nat)
    requires Inv(s) && s.current.Some? && s.states[s.current.value].Running? && 0 < k <= |s.queue|
    ensures Turned(s, k - 1).current.Some? && Turned(s, k - 1).current.value in Turned(s, k - 1).states
    ensures Schedule(Turned(s, k - 1)) == Turned(s, k)
  {
    var c := s.current.value;
    var ring := [c] + s.queue;
    var r := Turned(s, k - 1);
    RingMembers(s);
    assert ring[k..] + ring[..k - 1] == [ring[k]] + (ring[k + 1..] + ring[..k - 1]);
    assert r.queue == ring[k..] + ring[..k - 1];
    assert ring[k - 1] !in r.queue by {
      assert forall i :: 0 <= i < |r.queue| ==> r.queue[i] == if i < |ring| - k then ring[k + i] else ring[i - (|ring| - k)];
    }
    assert Preempt(r).queue == ring[k..] + ring[..k - 1] + [ring[k - 1]];
    assert ring[..k - 1] + [ring[k - 1]] == ring[..k];
    assert Preempt(r).queue[1..] == ring[k + 1..] + ring[..k];
    assert k - 1 > 0 ==> ring[k - 1] == s.queue[k - 2] && s.states[ring[k - 1]].Ready?;
    assert s.states[c := Ready][ring[k - 1] := Running][ring[k - 1] := Ready] == s.states[c := Ready];
  }

  lemma RingMembers<T>(s: Sched<T>)
    requires Inv(s) && s.current.Some? && s.states[s.current.value].Running?
    ensures Distinct([s.current.value] + s.queue)
    ensures forall i :: 0 <= i < |[s.current.value] + s.queue| ==> ([s.current.value] + s.queue)[i] in s.states
  {
    assert s.current.value !in s.queue;
  }

  /** With one thread running, a fixed set of `n` queued ones and no other event, n+1 calls
      of schedule restore the scheduler exactly. */
  lemma FullCircle<T>(s: Sched<T>)
    requires Inv(s) && s.current.Some? && s.states[s.current.value].Running?
    ensures ScheduleTimes(s, |s.queue| + 1) == s
  {
    TurnsAdvance(s, |s.queue|);
    LastTurn(s);
  }

  lemma LastTurn<T>(s: Sched<T>)
    requires Inv(s) && s.current.Some? && s.states[s.current.value].Running?
    ensures var r := Turned(s, |s.queue|);
      r.current.Some? && r.current.value in r.states && Schedule(r) == s
  {
    var c, n := s.current.value, |s.queue|;
    var ring := [c] + s.queue;
    RingMembers(s);
    var r := Turned(s, n);
    assert r.queue == ring[..n];
    assert ring[n] !in ring[..n] by {
      assert forall i :: 0 <= i < n ==> ring[..n][i] == ring[i];
    }
    assert ring[..n] + [ring[n]] == ring;
    assert Preempt(r).queue == ring && ring[1..] == s.queue;
    assert n > 0 ==> ring[n] == s.queue[n - 1] && s.states[ring[n]].Ready?;
    assert Preempt(r).states[c := Running] == s.states;
  }
}
