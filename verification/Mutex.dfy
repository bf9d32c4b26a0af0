/**
 The recursive mutex on top of a spinlock, as interleaved atomic steps.

 Every thread carries a program counter inside `mutex_lock`, `mutex_try_lock` or
 `mutex_unlock`; one step performs one atomic access to the shared fields. `depth`
 is the client's own count of nested successful lock calls. It is kept only from
 what the calls return, never from the mutex fields, so that "recursion_count is
 the owner's nesting depth" is a statement about two independent records.
 */
module Mutex {
  import opened Options
  import opened Words

  // Where a spinning thread continues once its exchange succeeds.
  datatype Goal = LockEntry | LockRetry | UnlockEntry

  datatype Pc =
    | Idle
    | Spin(goal: Goal)        // about to exchange `locked` with 1
    | Wait(goal: Goal)        // reading `locked` until it is 0
    | TryOnce                 // the single exchange of spinlock_try_lock
    | Test(try: bool)         // owner == current_thread ?
    | Bump                    // recursion_count++
    | CheckFree(try: bool)    // owner != NULL ?
    | Backoff                 // spinlock_unlock before yielding
    | Yield                   // thread_yield
    | Take                    // owner = current_thread
    | Count                   // recursion_count = 1
    | Granted                 // spinlock_unlock, then return success
    | Refused                 // spinlock_unlock, then return 0
    | UTest                   // owner != current_thread ?
    | UDrop                   // recursion_count--
    | UClear                  // if recursion_count == 0, owner = NULL
    | UDone                   // spinlock_unlock, then return
    | URefused                // spinlock_unlock on an owner violation

  datatype Op = Lock | TryLock | Unlock

  datatype Thread = Thread(pc: Pc, depth: nat)

  datatype State = State(locked: bool, owner: Option<nat>, recursion: nat, threads: seq<Thread>)

  // The pcs at which a thread holds the spinlock.
  predicate Holding(pc: Pc) {
    !(pc.Idle? || pc.Spin? || pc.Wait? || pc.TryOnce? || pc.Yield?)
  }

  function Init(n: nat): State {
    State(false, None, 0, seq(n, _ => Thread(Idle, 0)))
  }

  function Begin(op: Op): Pc {
    match op
    case Lock => Spin(LockEntry)
    case TryLock => TryOnce
    case Unlock => Spin(UnlockEntry)
  }

  function Entered(goal: Goal): Pc {
    match goal
    case LockEntry => Test(false)
    case LockRetry => CheckFree(false)
    case UnlockEntry => UTest
  }

  function At(s: State, t: nat, pc: Pc): State
    requires t < |s.threads|
  {
    s.(threads := s.threads[t := s.threads[t].(pc := pc)])
  }

  // The client's own bookkeeping when a call returns.
  function Returned(s: State, t: nat, depth: nat): State
    requires t < |s.threads|
  {
    s.(locked := false, threads := s.threads[t := Thread(Idle, depth)])
  }

  /** One atomic step of thread `t`. An idle thread starts the call `op`. */
  function Step(s: State, t: nat, op: Op): (s': State)
    requires t < |s.threads|
    ensures |s'.threads| == |s.threads|
  {
    var me := s.threads[t];
    match me.pc
    case Idle => At(s, t, Begin(op))
    case Spin(goal) =>
      if s.locked then At(s, t, Wait(goal)) else At(s.(locked := true), t, Entered(goal))
    case Wait(goal) => if s.locked then s else At(s, t, Spin(goal))
    case TryOnce =>
      if s.locked then At(s, t, Idle) else At(s.(locked := true), t, Test(true))
    case Test(try) => At(s, t, if s.owner == Some(t) then Bump else CheckFree(try))
    case Bump => At(s.(recursion := U32(s.recursion + 1)), t, Granted)
    case CheckFree(try) =>
      At(s, t, if s.owner.None? then Take else if try then Refused else Backoff)
    case Backoff => At(s.(locked := false), t, Yield)
    case Yield => At(s, t, Spin(LockRetry))
    case Take => At(s.(owner := Some(t)), t, Count)
    case Count => At(s.(recursion := 1), t, Granted)
    case Granted => Returned(s, t, me.depth + 1)
    case Refused => Returned(s, t, me.depth)
    case UTest => At(s, t, if s.owner != Some(t) then URefused else UDrop)
    case UDrop => At(s.(recursion := if s.recursion == 0 then TWO32 - 1 else s.recursion - 1), t, UClear)
    case UClear => At(if s.recursion == 0 then s.(owner := None) else s, t, UDone)
    case UDone => Returned(s, t, if me.depth > 0 then me.depth - 1 else 0)
    case URefused => Returned(s, t, if me.depth > 0 then me.depth - 1 else 0)
  }

  // The 32-bit counter at a nesting depth of at most 2^32, where it reads zero.
  function Counter(d: nat): nat {
    if d == TWO32 then 0 else d
  }

  // What the mutex fields say about one thread, by where that thread is.
  predicate ThreadOk(s: State, t: nat)
    requires t < |s.threads|
  {
    var d := s.threads[t].depth;
    var mine := s.owner == Some(t);
    d <= TWO32 &&
    match s.threads[t].pc
    case Idle | TryOnce | Test(_) | UTest => (mine <==> d > 0) && (mine ==> s.recursion == Counter(d))
    case Spin(goal) =>
      if goal.LockRetry? then d == 0 && !mine else (mine <==> d > 0) && (mine ==> s.recursion == Counter(d))
    case Wait(goal) =>
      if goal.LockRetry? then d == 0 && !mine else (mine <==> d > 0) && (mine ==> s.recursion == Counter(d))
    case Yield | CheckFree(_) | URefused => d == 0 && !mine
    case Backoff | Refused => d == 0 && !mine && s.owner.Some?
    case Take => d == 0 && s.owner.None?
    case Count => d == 0 && mine
    case Bump | UDrop => mine && d > 0 && s.recursion == Counter(d)
    case Granted => mine && s.recursion == if d == TWO32 then 1 else Counter(d + 1)
    case UClear => mine && d > 0 && s.recursion == d - 1
    case UDone => if d == 1 then s.owner.None? else mine && d > 1 && s.recursion == d - 1
  }

  predicate HoldsAt(s: State, t: int) {
    0 <= t < |s.threads| && Holding(s.threads[t].pc)
  }

  // The lock word tells whether somebody holds the spinlock, and nobody shares it.
  ghost predicate SpinlockInv(s: State) {
    && (s.locked <==> exists h :: HoldsAt(s, h))
    && (forall a, b :: HoldsAt(s, a) && HoldsAt(s, b) ==> a == b)
    && (s.owner.Some? ==> s.owner.value < |s.threads|)
    && (s.owner.None? ==> s.recursion == 0)
  }

  ghost predicate Inv(s: State) {
    SpinlockInv(s) && forall t :: 0 <= t < |s.threads| ==> ThreadOk(s, t)
  }

  // The one return that can break the invariant: a nesting depth of more than 2^32.
  predicate Overflows(s: State, t: nat)
    requires t < |s.threads|
  {
    s.threads[t].pc.Granted? && s.threads[t].depth == TWO32
  }

  /** The invariant survives a step exactly when that step is not the return of a
      lock call that takes the caller more than 2^32 levels deep. */
  lemma StepKeepsInv(s: State, t: nat, op: Op)
    requires t < |s.threads| && Inv(s)
    ensures Inv(Step(s, t, op)) <==> !Overflows(s, t)
  {
    var s' := Step(s, t, op);
    assert |s'.threads| == |s.threads|;
    assert forall u :: 0 <= u < |s.threads| && u != t ==> s'.threads[u] == s.threads[u];
    assert ThreadOk(s, t);
    if Overflows(s, t) {
      assert s'.threads[t].depth == TWO32 + 1;
      assert !ThreadOk(s', t);
    } else {
      OthersOk(s, t, op);
      SpinlockOk(s, t, op);
    }
  }

  lemma OthersOk(s: State, t: nat, op: Op)
    requires t < |s.threads| && Inv(s) && !Overflows(s, t)
    ensures forall u :: 0 <= u < |s.threads| ==> ThreadOk(Step(s, t, op), u)
  {
    assert ThreadOk(s, t);
    MoverOk(s, t, op);
    forall u | 0 <= u < |s.threads|
      ensures ThreadOk(Step(s, t, op), u)
    {
      assert ThreadOk(s, u);
      if u != t {
        assert HoldsAt(s, t) ==> !HoldsAt(s, u);
        BystanderOk(s, t, op, u);
      }
    }
  }

  lemma MoverOk(s: State, t: nat, op: Op)
    requires t < |s.threads| && ThreadOk(s, t) && !Overflows(s, t) && SpinlockInv(s)
    ensures ThreadOk(Step(s, t, op), t)
  {
    hide ThreadOk, Step, SpinlockInv;
    if InUnlock(s.threads[t].pc) {
      UnlockerOk(s, t, op);
    } else {
      LockerOk(s, t, op);
    }
  }

  lemma UnlockerOk(s: State, t: nat, op: Op)
    requires t < |s.threads| && ThreadOk(s, t) && InUnlock(s.threads[t].pc)
    ensures ThreadOk(Step(s, t, op), t)
  {
  }

  lemma LockerOk(s: State, t: nat, op: Op)
    requires t < |s.threads| && ThreadOk(s, t) && !Overflows(s, t) && SpinlockInv(s) && !InUnlock(s.threads[t].pc)
    ensures ThreadOk(Step(s, t, op), t)
  {
  }

  lemma BystanderOk(s: State, t: nat, op: Op, u: nat)
    requires t < |s.threads| && u < |s.threads| && u != t && ThreadOk(s, t) && ThreadOk(s, u)
    requires !(HoldsAt(s, t) && HoldsAt(s, u))
    ensures ThreadOk(Step(s, t, op), u)
  {
  }

  lemma SpinlockOk(s: State, t: nat, op: Op)
    requires t < |s.threads| && Inv(s)
    ensures SpinlockInv(Step(s, t, op))
  {
    var s' := Step(s, t, op);
    assert ThreadOk(s, t);
    assert forall u :: u != t ==> (HoldsAt(s', u) <==> HoldsAt(s, u));
    assert HoldsAt(s, t) <==> Holding(s.threads[t].pc);
    assert HoldsAt(s', t) <==> Holding(s'.threads[t].pc);
  }

  // A schedule names, step by step, who moves and what an idle thread would call.
  datatype Move = Move(who: nat, op: Op)

  ghost predicate Scheduled(n: nat, run: seq<Move>) {
    forall i :: 0 <= i < |run| ==> run[i].who < n
  }

  function Run(s: State, run: seq<Move>): (s': State)
    requires Scheduled(|s.threads|, run)
    ensures |s'.threads| == |s.threads|
    decreases |run|
  {
    if run == [] then s
    else
      var last := run[|run| - 1];
      Step(Run(s, run[..|run| - 1]), last.who, last.op)
  }

  predicate Shallow(s: State, bound: nat) {
    forall t :: 0 <= t < |s.threads| ==> s.threads[t].depth <= bound
  }

  // No client ever nests its lock calls more than `bound` deep during the run.
  ghost predicate NestsWithin(s: State, run: seq<Move>, bound: nat)
    requires Scheduled(|s.threads|, run)
  {
    forall k :: 0 <= k <= |run| ==> Shallow(Run(s, run[..k]), bound)
  }

  lemma InitInv(n: nat)
    ensures Inv(Init(n))
  {
    var s := Init(n);
    assert forall t :: 0 <= t < n ==> ThreadOk(s, t);
  }

  /** Every interleaving of any clients, whatever they call, keeps the invariant. */
  lemma {:induction false} RunKeepsInv(s: State, run: seq<Move>)
    requires Inv(s) && Scheduled(|s.threads|, run) && NestsWithin(s, run, TWO32)
    ensures Inv(Run(s, run))
    decreases |run|
  {
    hide Step, Inv, Shallow, Overflows;
    if run != [] {
      var front, last := run[..|run| - 1], run[|run| - 1];
      FrontNestsWithin(s, run, TWO32);
      RunKeepsInv(s, front);
      if Overflows(Run(s, front), last.who) {
        OverflowIsDeep(Run(s, front), last.who, last.op);
      }
      StepKeepsInv(Run(s, front), last.who, last.op);
    }
  }

  lemma FrontNestsWithin(s: State, run: seq<Move>, bound: nat)
    requires Scheduled(|s.threads|, run) && NestsWithin(s, run, bound) && run != []
    ensures NestsWithin(s, run[..|run| - 1], bound) && Shallow(Run(s, run), bound)
  {
    hide Run, Shallow;
    var front := run[..|run| - 1];
    assert run[..|run|] == run;
    forall k | 0 <= k <= |front|
      ensures Shallow(Run(s, front[..k]), bound)
    {
      assert front[..k] == run[..k];
    }
  }

  lemma OverflowIsDeep(s: State, t: nat, op: Op)
    requires t < |s.threads| && Overflows(s, t)
    ensures !Shallow(Step(s, t, op), TWO32)
  {
    assert Step(s, t, op).threads[t].depth == TWO32 + 1;
  }

  predicate InMutex(s: State, t: nat)
    requires t < |s.threads|
  {
    s.threads[t].depth > 0
  }

  ghost predicate AtMostOneInside(s: State) {
    forall t, u :: 0 <= t < |s.threads| && 0 <= u < |s.threads| && InMutex(s, t) && InMutex(s, u) ==> t == u
  }

  /** Safety over whole runs: at most one thread is inside the mutex, and whenever the
      spinlock is free the owner field names it and the counter is its nesting depth, in 32
      bits. */
  lemma MutualExclusion(n: nat, run: seq<Move>)
    requires Scheduled(n, run) && NestsWithin(Init(n), run, TWO32)
    ensures var s := Run(Init(n), run);
      && AtMostOneInside(s)
      && (!s.locked ==>
            && (s.owner.None? ==> forall t :: 0 <= t < n ==> s.threads[t].depth == 0)
            && (s.owner.Some? ==>
                  s.owner.value < n && s.threads[s.owner.value].depth > 0
                  && s.recursion == s.threads[s.owner.value].depth % TWO32))
  {
    InitInv(n);
    RunKeepsInv(Init(n), run);
    var s := Run(Init(n), run);
    assert |s.threads| == n;
    forall t, u | 0 <= t < n && 0 <= u < n && InMutex(s, t) && InMutex(s, u)
      ensures t == u
    {
      OneInside(s, t, u);
    }
    if !s.locked {
      OwnerNamed(s);
    }
  }

  lemma OwnerNamed(s: State)
    requires Inv(s) && !s.locked
    ensures s.owner.None? ==> forall t :: 0 <= t < |s.threads| ==> s.threads[t].depth == 0
    ensures s.owner.Some? ==>
              s.owner.value < |s.threads| && s.threads[s.owner.value].depth > 0
              && s.recursion == s.threads[s.owner.value].depth % TWO32
  {
    forall t | 0 <= t < |s.threads|
      ensures s.owner.None? ==> s.threads[t].depth == 0
    {
      assert ThreadOk(s, t) && !HoldsAt(s, t);
    }
    if s.owner.Some? {
      assert ThreadOk(s, s.owner.value) && !HoldsAt(s, s.owner.value);
    }
  }

  lemma OneInside(s: State, t: nat, u: nat)
    requires Inv(s) && t < |s.threads| && u < |s.threads|
    requires s.threads[t].depth > 0 && s.threads[u].depth > 0
    ensures t == u
  {
    assert ThreadOk(s, t) && ThreadOk(s, u);
    assert HoldsAt(s, t) && HoldsAt(s, u) ==> t == u;
  }

  predicate InUnlock(pc: Pc) {
    || pc == Spin(UnlockEntry) || pc == Wait(UnlockEntry)
    || pc.UTest? || pc.UDrop? || pc.UClear? || pc.UDone? || pc.URefused?
  }

  /** An unlock by a thread that is not inside changes neither owner nor counter, at any
      of its steps, and it is refused rather than carried out. */
  lemma NonOwnerUnlockIsHarmless(s: State, t: nat, op: Op)
    requires Inv(s) && t < |s.threads|
    requires InUnlock(s.threads[t].pc) && s.threads[t].depth == 0
    ensures var s' := Step(s, t, op);
      && s'.owner == s.owner && s'.recursion == s.recursion
      && s'.threads[t].depth == 0
      && (s.threads[t].pc.UTest? ==> s'.threads[t].pc.URefused?)
      && (forall u :: 0 <= u < |s.threads| ==> s'.threads[u].depth == s.threads[u].depth)
  {
    assert ThreadOk(s, t);
  }

  // ---------------------------------------------------------------- what a call achieves

  // The same thread makes `k` steps of the same call.
  function Times(s: State, t: nat, op: Op, k: nat): (s': State)
    requires t < |s.threads|
    ensures |s'.threads| == |s.threads|
    decreases k
  {
    if k == 0 then s else Step(Times(s, t, op, k - 1), t, op)
  }

  // Thread `t` is between calls, and nobody holds the spinlock.
  ghost predicate Quiet(s: State, t: nat) {
    t < |s.threads| && Inv(s) && s.threads[t].pc.Idle? && !s.locked
  }

  // What taking the mutex once more makes of the state.
  function Deeper(s: State, t: nat): State
    requires t < |s.threads|
  {
    State(false, Some(t), U32(s.recursion + 1), s.threads[t := Thread(Idle, s.threads[t].depth + 1)])
  }

  // Thread `t` stands at `pc` inside its call, with the spinlock held or not.
  function Inside(s: State, t: nat, pc: Pc, locked: bool): State
    requires t < |s.threads|
  {
    At(s.(locked := locked), t, pc)
  }

  /** A lock or try-lock that nobody disturbs takes a free mutex in seven steps, and one that
      the caller holds already once more in five. Of a mutex that another thread holds, a
      try-lock returns in five steps and leaves everything as it was; a lock goes on waiting. */
  lemma LockAlone(s: State, t: nat, op: Op)
    requires Quiet(s, t) && op != Unlock
    ensures s.owner == None ==> Times(s, t, op, 7) == Deeper(s, t)
    ensures s.owner == Some(t) ==> Times(s, t, op, 5) == Deeper(s, t)
    ensures s.owner.Some? && s.owner != Some(t) && op == TryLock ==> Times(s, t, op, 5) == s
    ensures s.owner.Some? && s.owner != Some(t) && op == Lock ==> Times(s, t, op, 6) == Inside(s, t, Spin(LockRetry), false)
  {
    assert ThreadOk(s, t);
    var try := op == TryLock;
    assert Times(s, t, op, 2).threads == Inside(s, t, Test(try), true).threads;
    assert Times(s, t, op, 2) == Inside(s, t, Test(try), true);
    if s.owner == Some(t) {
      assert Times(s, t, op, 5).threads == Deeper(s, t).threads;
    } else {
      assert Times(s, t, op, 3).threads == Inside(s, t, CheckFree(try), true).threads;
      assert Times(s, t, op, 3) == Inside(s, t, CheckFree(try), true);
      NotMine(s, t, op);
    }
  }

  lemma NotMine(s: State, t: nat, op: Op)
    requires Quiet(s, t) && op != Unlock && s.owner != Some(t)
    requires Times(s, t, op, 3) == Inside(s, t, CheckFree(op == TryLock), true)
    ensures s.owner == None ==> Times(s, t, op, 7) == Deeper(s, t)
    ensures s.owner.Some? && op == TryLock ==> Times(s, t, op, 5) == s
    ensures s.owner.Some? && op == Lock ==> Times(s, t, op, 6) == Inside(s, t, Spin(LockRetry), false)
  {
    assert ThreadOk(s, t);
    if s.owner == None {
      assert Times(s, t, op, 7).threads == Deeper(s, t).threads;
    } else if op == TryLock {
      assert Times(s, t, op, 5).threads == s.threads;
    } else {
      assert Times(s, t, op, 6).threads == Inside(s, t, Spin(LockRetry), false).threads;
    }
  }

  /** A try-lock that finds the spinlock held is back after two steps, without a change. */
  lemma TryLockBusy(s: State, t: nat)
    requires t < |s.threads| && s.threads[t].pc.Idle? && s.locked
    ensures Times(s, t, TryLock, 2) == s
  {
    assert Times(s, t, TryLock, 2).threads == s.threads;
  }

  /** An unlock that nobody disturbs gives up one level of the mutex in six steps, and the
      mutex with the last one; a thread that is not inside is back in four, without a change. */
  lemma UnlockAlone(s: State, t: nat)
    requires Quiet(s, t)
    ensures var d := s.threads[t].depth;
      if s.owner == Some(t) then
        d > 0 && Times(s, t, Unlock, 6) ==
          State(false, if d == 1 then None else Some(t), d - 1, s.threads[t := Thread(Idle, d - 1)])
      else d == 0 && Times(s, t, Unlock, 4) == s
  {
    assert ThreadOk(s, t);
    var d := s.threads[t].depth;
    if s.owner == Some(t) {
      DropsOneLevel(s, t, d);
    } else {
      assert Times(s, t, Unlock, 4).threads == s.threads;
    }
  }

  lemma DropsOneLevel(s: State, t: nat, d: nat)
    requires t < |s.threads| && s.threads[t] == Thread(Idle, d) && !s.locked && s.owner == Some(t)
    requires d > 0 && s.recursion == Counter(d) && d <= TWO32
    ensures Times(s, t, Unlock, 6) ==
      State(false, if d == 1 then None else Some(t), d - 1, s.threads[t := Thread(Idle, d - 1)])
  {
    var s3 := Times(s, t, Unlock, 3);
    assert s3.threads == Inside(s, t, UDrop, true).threads;
    assert s3 == Inside(s, t, UDrop, true);
    assert Step(Step(s3, t, Unlock), t, Unlock).recursion == d - 1;
    assert Times(s, t, Unlock, 6).threads == s.threads[t := Thread(Idle, d - 1)];
  }

  // The steps that a call of try-lock still has to make, at most.
  function TryRank(pc: Pc): nat {
    match pc
    case TryOnce => 6
    case Test(try) => if try then 5 else 0
    case CheckFree(try) => if try then 4 else 0
    case Take => 3
    case Count | Bump => 2
    case Granted | Refused => 1
    case _ => 0
  }

  // How often the thread moves.
  function MovesOf(run: seq<Move>, t: nat): nat
    decreases |run|
  {
    if run == [] then 0
    else MovesOf(run[..|run| - 1], t) + if run[|run| - 1].who == t then 1 else 0
  }

  lemma StepLowersTryRank(s: State, u: nat, op: Op, t: nat)
    requires u < |s.threads| && t < |s.threads| && TryRank(s.threads[t].pc) > 0
    ensures var pc, pc' := s.threads[t].pc, Step(s, u, op).threads[t].pc;
      if u == t then pc'.Idle? || 0 < TryRank(pc') < TryRank(pc) else pc' == pc
  {
  }

  /** A try-lock never waits: whatever the others do, it has returned by its sixth step behind
      the first. */
  lemma {:induction false} TryLockReturns(s: State, run: seq<Move>, t: nat)
    requires Scheduled(|s.threads|, run) && t < |s.threads| && TryRank(s.threads[t].pc) > 0
    ensures (exists k :: 0 <= k <= |run| && Run(s, run[..k]).threads[t].pc.Idle?)
            || 0 < TryRank(Run(s, run).threads[t].pc) <= TryRank(s.threads[t].pc) - MovesOf(run, t)
    ensures MovesOf(run, t) >= 6 ==> exists k :: 0 <= k <= |run| && Run(s, run[..k]).threads[t].pc.Idle?
    decreases |run|
  {
    hide Step, TryRank;
    if run != [] {
      var n := |run| - 1;
      var front, last := run[..n], run[n];
      TryLockReturns(s, front, t);
      if k :| 0 <= k <= n && Run(s, front[..k]).threads[t].pc.Idle? {
        assert run[..k] == front[..k];
      } else {
        StepLowersTryRank(Run(s, front), last.who, last.op, t);
        assert run[..n + 1] == run;
      }
    }
    TryRankIsSmall(s.threads[t].pc);
  }

  lemma TryRankIsSmall(pc: Pc)
    ensures TryRank(pc) <= 6
  {
  }

  // ---------------------------------------------------------------- the bound is sharp

  // Thread 0 is alone, `d` calls deep and between calls.
  function Nested(n: nat, d: nat): State
    requires n > 0
  {
    State(false, if d == 0 then None else Some(0), U32(d), Init(n).threads[0 := Thread(Idle, d)])
  }

  lemma {:induction false} RunJoin(s: State, a: seq<Move>, b: seq<Move>)
    requires Scheduled(|s.threads|, a) && Scheduled(|s.threads|, b)
    ensures Scheduled(|s.threads|, a + b) && Run(s, a + b) == Run(Run(s, a), b)
    decreases |b|
  {
    if b == [] {
      assert a + b == a;
    } else {
      var front := b[..|b| - 1];
      RunJoin(s, a, front);
      assert (a + b)[..|a + b| - 1] == a + front;
    }
  }

  lemma JoinNestsWithin(s: State, a: seq<Move>, b: seq<Move>, bound: nat)
    requires Scheduled(|s.threads|, a) && Scheduled(|s.threads|, b)
    requires NestsWithin(s, a, bound) && NestsWithin(Run(s, a), b, bound)
    ensures Scheduled(|s.threads|, a + b) && Run(s, a + b) == Run(Run(s, a), b)
    ensures NestsWithin(s, a + b, bound)
  {
    hide Step, Shallow;
    RunJoin(s, a, b);
    forall k | 0 <= k <= |a + b|
      ensures Shallow(Run(s, (a + b)[..k]), bound)
    {
      if k <= |a| {
        assert (a + b)[..k] == a[..k];
      } else {
        assert (a + b)[..k] == a + b[..k - |a|];
        RunJoin(s, a, b[..k - |a|]);
      }
    }
  }

  lemma {:induction false} RunTimes(s: State, t: nat, op: Op, k: nat, bound: nat) returns (run: seq<Move>)
    requires t < |s.threads| && forall j :: 0 <= j <= k ==> Shallow(Times(s, t, op, j), bound)
    ensures Scheduled(|s.threads|, run) && Run(s, run) == Times(s, t, op, k) && NestsWithin(s, run, bound)
    decreases k
  {
    hide Step, Shallow;
    run := [];
    assert Times(s, t, op, 0) == s && run[..0] == run;
    if k > 0 {
      var front := RunTimes(s, t, op, k - 1, bound);
      run := front + [Move(t, op)];
      assert Shallow(Times(s, t, op, k), bound);
      OneMore(s, front, Move(t, op), bound);
    }
  }

  lemma OneMore(s: State, run: seq<Move>, m: Move, bound: nat)
    requires Scheduled(|s.threads|, run) && m.who < |s.threads| && NestsWithin(s, run, bound)
    requires Shallow(Step(Run(s, run), m.who, m.op), bound)
    ensures Scheduled(|s.threads|, run + [m]) && Run(s, run + [m]) == Step(Run(s, run), m.who, m.op)
    ensures NestsWithin(s, run + [m], bound)
  {
    hide Step, Shallow;
    var all := run + [m];
    assert all[..|all| - 1] == run;
    forall k | 0 <= k <= |all|
      ensures Shallow(Run(s, all[..k]), bound)
    {
      if k <= |run| {
        assert all[..k] == run[..k];
      } else {
        assert all[..k] == all;
      }
    }
  }

  // A nested lock call takes five steps.
  lemma DeeperByOne(n: nat, d: nat) returns (run: seq<Move>)
    requires n > 0 && d > 0
    ensures Scheduled(n, run) && Run(Nested(n, d), run) == Nested(n, d + 1) && NestsWithin(Nested(n, d), run, d + 1)
  {
    var s := Nested(n, d);
    var s4 := Times(s, 0, Lock, 4);
    assert s4.threads == Init(n).threads[0 := Thread(Granted, d)] && s4.recursion == U32(U32(d) + 1);
    U32Absorbs(d, 1);
    assert Step(s4, 0, Lock).threads == Nested(n, d + 1).threads;
    forall j | 0 <= j <= 5
      ensures Shallow(Times(s, 0, Lock, j), d + 1)
    {
      assert j == 0 || j == 1 || j == 2 || j == 3 || j == 4 || j == 5;
    }
    run := RunTimes(s, 0, Lock, 5, d + 1);
  }

  // The first lock call on a free mutex takes seven.
  lemma FirstLock(s: State, t: nat, bound: nat) returns (run: seq<Move>)
    requires t < |s.threads| && !s.locked && s.owner.None? && s.threads[t] == Thread(Idle, 0)
    requires Shallow(s, bound) && bound > 0
    ensures Scheduled(|s.threads|, run) && NestsWithin(s, run, bound)
    ensures Run(s, run) == State(false, Some(t), 1, s.threads[t := Thread(Idle, 1)])
  {
    var s5 := Times(s, t, Lock, 5);
    assert s5.threads == s.threads[t := Thread(Count, 0)] && s5.owner == Some(t) && s5.locked;
    var s6 := Times(s, t, Lock, 6);
    assert s6.threads == s.threads[t := Thread(Granted, 0)];
    forall j | 0 <= j <= 7
      ensures Shallow(Times(s, t, Lock, j), bound)
    {
      assert j == 0 || j == 1 || j == 2 || j == 3 || j == 4 || j == 5 || j == 6 || j == 7;
    }
    run := RunTimes(s, t, Lock, 7, bound);
    assert Step(s6, t, Lock).threads == s.threads[t := Thread(Idle, 1)];
  }

  lemma {:induction false} NestTo(n: nat, d: nat) returns (run: seq<Move>)
    requires n > 0 && d > 0
    ensures Scheduled(n, run) && Run(Init(n), run) == Nested(n, d) && NestsWithin(Init(n), run, d)
    decreases d
  {
    if d == 1 {
      run := FirstLock(Init(n), 0, 1);
    } else {
      var front := NestTo(n, d - 1);
      var more := DeeperByOne(n, d - 1);
      LooserNesting(Init(n), front, d - 1, d);
      JoinNestsWithin(Init(n), front, more, d);
      run := front + more;
    }
  }

  lemma LooserNesting(s: State, run: seq<Move>, bound: nat, looser: nat)
    requires Scheduled(|s.threads|, run) && NestsWithin(s, run, bound) && bound <= looser
    ensures NestsWithin(s, run, looser)
  {
    hide Step, Run;
    forall k | 0 <= k <= |run|
      ensures Shallow(Run(s, run[..k]), looser)
    {
      assert Shallow(Run(s, run[..k]), bound);
    }
  }

  // One unlock from depth 2^32+1 gives the mutex up.
  lemma UnlockFromDeep(n: nat) returns (run: seq<Move>)
    requires n > 0
    ensures Scheduled(n, run) && NestsWithin(Nested(n, TWO32 + 1), run, TWO32 + 1)
    ensures Run(Nested(n, TWO32 + 1), run) == State(false, None, 0, Init(n).threads[0 := Thread(Idle, TWO32)])
  {
    var s := Nested(n, TWO32 + 1);
    assert U32(TWO32 + 1) == U32(1) == 1;
    var s5 := Times(s, 0, Unlock, 5);
    assert s5 == State(true, None, 0, Init(n).threads[0 := Thread(UDone, TWO32 + 1)]);
    forall j | 0 <= j <= 6
      ensures Shallow(Times(s, 0, Unlock, j), TWO32 + 1)
    {
      assert j == 0 || j == 1 || j == 2 || j == 3 || j == 4 || j == 5 || j == 6;
    }
    run := RunTimes(s, 0, Unlock, 6, TWO32 + 1);
    assert Step(s5, 0, Unlock).threads == Init(n).threads[0 := Thread(Idle, TWO32)];
  }

  /** A thread that nests 2^32 + 1 levels deep, and never deeper, lets another thread in when
      it unlocks once. */
  lemma ExclusionLostBeyond(n: nat) returns (run: seq<Move>)
    requires n >= 2
    ensures Scheduled(n, run) && NestsWithin(Init(n), run, TWO32 + 1)
    ensures var s := Run(Init(n), run); s.threads[0].depth == TWO32 && s.threads[1].depth == 1
  {
    hide Step, Run;
    var nest := NestTo(n, TWO32 + 1);
    var out := UnlockFromDeep(n);
    JoinNestsWithin(Init(n), nest, out, TWO32 + 1);
    var s := State(false, None, 0, Init(n).threads[0 := Thread(Idle, TWO32)]);
    var enter := FirstLock(s, 1, TWO32 + 1);
    JoinNestsWithin(Init(n), nest + out, enter, TWO32 + 1);
    run := nest + out + enter;
  }

  /** The bound is exact: among `n` threads that nest at most `bound` deep, every
      interleaving keeps all but one thread out exactly when there is one thread at most or
      the bound is 2^32 or less. */
  lemma ExclusionIff(n: nat, bound: nat)
    ensures (forall run: seq<Move> ::
               Scheduled(n, run) && NestsWithin(Init(n), run, bound) ==> AtMostOneInside(Run(Init(n), run)))
      <==> n <= 1 || bound <= TWO32
  {
    hide Step, Run;
    if bound <= TWO32 {
      forall run: seq<Move> | Scheduled(n, run) && NestsWithin(Init(n), run, bound)
        ensures AtMostOneInside(Run(Init(n), run))
      {
        LooserNesting(Init(n), run, bound, TWO32);
        MutualExclusion(n, run);
      }
    } else if n >= 2 {
      var run := ExclusionLostBeyond(n);
      LooserNesting(Init(n), run, TWO32 + 1, bound);
      var s := Run(Init(n), run);
      assert InMutex(s, 0) && InMutex(s, 1);
      assert !AtMostOneInside(s);
    }
  }
}
