/**
 The stress test cannot get stuck: from every reachable state some continuation
 lets all threads finish. The proof always moves a thread that can make progress
 (whoever holds the spinlock, else the owner, else anybody unfinished) and counts
 down the remaining work.
 */
module StressProgress {
  import opened Options
  import opened Words
  import M = Mutex
  import opened StressTest

  function PcRank(pc: M.Pc, free: bool): nat {
    match pc
    case Wait(g) => if g.LockEntry? then 39 else if g.LockRetry? then 33 else 23
    case Spin(g) => if g.LockEntry? then 38 else if g.LockRetry? then 32 else 22
    case Test(_) => 37
    case CheckFree(_) => if free then 31 else 36
    case Backoff => 35
    case Yield => 34
    case Take => 30
    case Count => 29
    case Granted => 28
    case UTest => 21
    case UDrop => 20
    case UClear => 19
    case UDone => 18
    case _ => 0
  }

  function LineRank(line: Line, pc: M.Pc, free: bool): nat {
    match line
    case CallLock => 40
    case InLock => PcRank(pc, free)
    case ReadOld => 27
    case ReadTmp => 26
    case WriteTmp => 25
    case CallUnlock => 24
    case InUnlock => PcRank(pc, free)
    case Compare => 17
  }

  // The steps thread `t` still has to make if nothing blocks it, at most.
  function Rank(w: World, K: nat, t: nat): nat
    requires WellFormed(w) && t < |w.clients|
  {
    var c := w.clients[t];
    if c.round >= K then 0
    else 64 * (K - c.round) + LineRank(c.line, w.mutex.threads[t].pc, w.mutex.owner.None?)
  }

  function RankBelow(w: World, K: nat, n: nat): nat
    requires WellFormed(w) && n <= |w.clients|
  {
    if n == 0 then 0 else RankBelow(w, K, n - 1) + Rank(w, K, n - 1)
  }

  lemma {:induction false} RankFalls(w: World, w': World, K: nat, t: nat, n: nat)
    requires WellFormed(w) && WellFormed(w') && |w.clients| == |w'.clients|
    requires t < |w.clients| && n <= |w.clients|
    requires Rank(w', K, t) < Rank(w, K, t)
    requires forall u :: 0 <= u < |w.clients| && u != t ==> Rank(w', K, u) == Rank(w, K, u)
    ensures RankBelow(w', K, n) <= RankBelow(w, K, n)
    ensures t < n ==> RankBelow(w', K, n) < RankBelow(w, K, n)
  {
    if n > 0 {
      RankFalls(w, w', K, t, n - 1);
    }
  }

  // A thread that nothing blocks: the spinlock's holder, or anyone when it is free
  // and the mutex is free or one's own.
  predicate CanMove(w: World, K: nat, t: nat)
    requires WellFormed(w) && t < |w.clients|
  {
    && w.clients[t].round < K
    && (if w.mutex.locked then M.HoldsAt(w.mutex, t) else w.mutex.owner.None? || w.mutex.owner == Some(t))
  }

  lemma SomebodyCanMove(w: World, K: nat) returns (t: nat)
    requires Inv(w, K) && !Finished(w, K)
    ensures t < |w.clients| && CanMove(w, K, t)
  {
    if w.mutex.locked {
      t :| M.HoldsAt(w.mutex, t);
      assert ClientOk(w, K, t);
    } else if w.mutex.owner.Some? {
      t := w.mutex.owner.value;
      assert M.ThreadOk(w.mutex, t) && !M.HoldsAt(w.mutex, t);
      assert ClientOk(w, K, t);
    } else {
      t :| 0 <= t < |w.clients| && w.clients[t].round < K;
    }
  }

  lemma MovingMakesProgress(w: World, K: nat, t: nat)
    requires Inv(w, K) && t < |w.clients| && CanMove(w, K, t)
    ensures Rank(Step(w, K, t), K, t) < Rank(w, K, t)
  {
    assert ClientOk(w, K, t) && M.ThreadOk(w.mutex, t);
    assert M.HoldsAt(w.mutex, t) <==> M.Holding(w.mutex.threads[t].pc);
  }

  lemma OthersKeepRank(w: World, K: nat, t: nat, u: nat)
    requires Inv(w, K) && t < |w.clients| && u < |w.clients| && u != t
    ensures Rank(Step(w, K, t), K, u) == Rank(w, K, u)
  {
    assert ClientOk(w, K, t) && ClientOk(w, K, u);
    assert M.HoldsAt(w.mutex, t) && M.HoldsAt(w.mutex, u) ==> t == u;
    assert M.HoldsAt(w.mutex, t) <==> M.Holding(w.mutex.threads[t].pc);
    assert M.HoldsAt(w.mutex, u) <==> M.Holding(w.mutex.threads[u].pc);
  }

  lemma {:induction false} CompletionFrom(w: World, K: nat) returns (run: seq<nat>)
    requires Inv(w, K)
    ensures Scheduled(|w.clients|, run) && Finished(Run(w, K, run), K)
    decreases RankBelow(w, K, |w.clients|)
  {
    if Finished(w, K) {
      run := [];
    } else {
      var t := SomebodyCanMove(w, K);
      MovingMakesProgress(w, K, t);
      StepKeepsInv(w, K, t);
      var w' := Step(w, K, t);
      forall u | 0 <= u < |w.clients| && u != t
        ensures Rank(w', K, u) == Rank(w, K, u)
      {
        OthersKeepRank(w, K, t, u);
      }
      RankFalls(w, w', K, t, |w.clients|);
      var rest := CompletionFrom(w', K);
      run := [t] + rest;
      assert run[1..] == rest;
    }
  }

  lemma {:induction false} RunAppend(w: World, K: nat, a: seq<nat>, b: seq<nat>)
    requires WellFormed(w) && Scheduled(|w.clients|, a) && Scheduled(|w.clients|, b)
    ensures Scheduled(|w.clients|, a + b)
    ensures Run(w, K, a + b) == Run(Run(w, K, a), K, b)
    decreases |a|
  {
    if a == [] {
      assert a + b == b;
    } else {
      RunAppend(Step(w, K, a[0]), K, a[1..], b);
      assert (a + b)[1..] == a[1..] + b;
    }
  }

  /** No deadlock: every run can be continued until all threads have finished, and then
      the counter is exact. */
  lemma EveryRunCanFinish(n: nat, K: nat, run: seq<nat>)
    requires Scheduled(n, run)
    ensures exists rest :: Scheduled(n, run + rest) && Finished(Run(Boot(n), K, run + rest), K)
                           && Run(Boot(n), K, run + rest).shared == (n * K) % TWO32
  {
    BootInv(n, K);
    RunKeepsInv(Boot(n), K, run);
    var rest := CompletionFrom(Run(Boot(n), K, run), K);
    RunAppend(Boot(n), K, run, rest);
    FinalCounter(n, K, run + rest);
  }

  // ---------------------------------------------------------- a false alarm

  function LineOrder(line: Line): nat {
    match line
    case CallLock => 0
    case InLock => 1
    case ReadOld => 2
    case ReadTmp => 3
    case WriteTmp => 4
    case CallUnlock => 5
    case InUnlock => 6
    case Compare => 7
  }

  predicate Undisturbed(w: World, K: nat, t: nat)
    requires WellFormed(w) && t < |w.clients|
  {
    CanMove(w, K, t) && (w.mutex.owner.None? || w.mutex.owner == Some(t))
  }

  // One step of an undisturbed thread on its way.
  lemma AloneStep(w: World, K: nat, t: nat, stop: Line)
    requires Inv(w, K) && t < |w.clients| && Undisturbed(w, K, t) && w.clients[t].line != stop
    requires LineOrder(w.clients[t].line) <= LineOrder(stop) && 5 <= LineOrder(stop)
    requires LineOrder(w.clients[t].line) >= 5 ==> w.clients[t].snap == w.stores
    ensures var w' := Step(w, K, t);
      && WellFormed(w') && Inv(w', K) && Undisturbed(w', K, t) && Rank(w', K, t) < Rank(w, K, t)
      && w'.clients == w.clients[t := w'.clients[t]] && LineOrder(w'.clients[t].line) <= LineOrder(stop)
      && (LineOrder(w'.clients[t].line) >= 5 ==> w'.clients[t].snap == w'.stores)
      && w'.clients[t].complaints == w.clients[t].complaints
      && w'.stores - w.stores == (if LineOrder(w.clients[t].line) < 5 <= LineOrder(w'.clients[t].line) then 1 else 0)
      && (LineOrder(w.clients[t].line) >= 5 ==> LineOrder(w'.clients[t].line) >= 5)
  {
    var w' := Step(w, K, t);
    StepKeepsInv(w, K, t);
    MovingMakesProgress(w, K, t);
    assert ClientOk(w, K, t) && M.ThreadOk(w.mutex, t) && ClientOk(w', K, t);
    assert M.HoldsAt(w.mutex, t) <==> M.Holding(w.mutex.threads[t].pc);
    assert M.HoldsAt(w'.mutex, t) <==> M.Holding(w'.mutex.threads[t].pc);
  }

  // Undisturbed, a thread gets to the line `stop` of its round, and its
  // store is the only one on the way.
  lemma {:induction false} Alone(w: World, K: nat, t: nat, stop: Line) returns (run: seq<nat>)
    requires Inv(w, K) && t < |w.clients| && Undisturbed(w, K, t)
    requires LineOrder(w.clients[t].line) <= LineOrder(stop) && 5 <= LineOrder(stop)
    requires LineOrder(w.clients[t].line) >= 5 ==> w.clients[t].snap == w.stores
    ensures Scheduled(|w.clients|, run)
    ensures var w' := Run(w, K, run);
      && Inv(w', K) && w'.clients == w.clients[t := w'.clients[t]]
      && w'.clients[t].line == stop && Undisturbed(w', K, t) && w'.clients[t].snap == w'.stores
      && w'.clients[t].complaints == w.clients[t].complaints
      && w'.stores == w.stores + if LineOrder(w.clients[t].line) < 5 then 1 else 0
    decreases Rank(w, K, t)
  {
    hide M.Inv, Undisturbed, Step, ClientOk;
    if w.clients[t].line == stop {
      run := [];
    } else {
      AloneStep(w, K, t, stop);
      var rest := Alone(Step(w, K, t), K, t, stop);
      run := [t] + rest;
      assert run[1..] == rest;
    }
  }

  /** The program prints its inconsistency message in a run where nothing went wrong:
      thread 0 leaves the mutex, thread 1 stores, and only then does thread 0 compare. */
  lemma FalseAlarm(n: nat, K: nat)
    requires n >= 2 && K >= 1
    ensures exists run :: Scheduled(n, run) && Run(Boot(n), K, run).clients[0].complaints == 1
                          && Run(Boot(n), K, run).shared == 2
  {
    var w0 := Boot(n);
    BootInv(n, K);
    var a := Alone(w0, K, 0, Compare);
    var w1 := Run(w0, K, a);
    assert ClientOk(w1, K, 0) && M.ThreadOk(w1.mutex, 0);
    assert !M.HoldsAt(w1.mutex, 0);
    var b := Alone(w1, K, 1, CallUnlock);
    RunAppend(w0, K, a, b);
    assert w1.clients[1] == w0.clients[1];
    OneMoreStep(n, K, a + b);
  }

  lemma OneMoreStep(n: nat, K: nat, run: seq<nat>)
    requires Scheduled(n, run) && n >= 1
    requires var w := Run(Boot(n), K, run);
      && w.clients[0].line.Compare? && w.clients[0].complaints == 0 && w.clients[0].round < K
      && w.stores == w.clients[0].snap + 1 && w.shared == 2
    ensures Scheduled(n, run + [0])
    ensures Run(Boot(n), K, run + [0]).clients[0].complaints == 1
    ensures Run(Boot(n), K, run + [0]).shared == 2
  {
    var w := Run(Boot(n), K, run);
    ComparePassesIff(n, K, run, 0);
    RunAppend(Boot(n), K, run, [0]);
    assert Run(w, K, [0]) == Step(w, K, 0);
  }
}
