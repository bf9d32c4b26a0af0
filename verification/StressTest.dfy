/**
 The mutex's client in the kernel stress test: every thread makes `K` rounds of
 lock, `shared_counter++`, unlock, and then compares the counter with the value it
 read inside the mutex. The increment is a separate load and store of a 32-bit
 word, so only the mutex keeps increments from being lost.
 */
module StressTest {
  import opened Words
  import M = Mutex

  datatype Line = CallLock | InLock | ReadOld | ReadTmp | WriteTmp | CallUnlock | InUnlock | Compare

  /** `snap` is history: the number of stores made when this thread made its own. */
  datatype Client = Client(line: Line, round: nat, seen: nat, loaded: nat, snap: nat, complaints: nat)

  /** `stores` is history: the number of times anybody wrote `shared_counter`. */
  datatype World = World(mutex: M.State, shared: nat, stores: nat, clients: seq<Client>)

  predicate WellFormed(w: World) {
    |w.clients| == |w.mutex.threads|
  }

  function Boot(n: nat): (w: World)
    ensures WellFormed(w)
  {
    World(M.Init(n), 0, 0, seq(n, _ => Client(CallLock, 0, 0, 0, 0, 0)))
  }

  function Put(w: World, t: nat, c: Client): World
    requires t < |w.clients|
  {
    w.(clients := w.clients[t := c])
  }

  /** One atomic step of thread `t`; a thread that has made its `K` rounds has exited. */
  function Step(w: World, K: nat, t: nat): (w': World)
    requires WellFormed(w) && t < |w.clients|
    ensures WellFormed(w') && |w'.clients| == |w.clients|
  {
    var c := w.clients[t];
    if c.round >= K then w
    else match c.line
      case CallLock => Put(w.(mutex := M.Step(w.mutex, t, M.Lock)), t, c.(line := InLock))
      case InLock =>
        var m := M.Step(w.mutex, t, M.Lock);
        Put(w.(mutex := m), t, if m.threads[t].pc.Idle? then c.(line := ReadOld) else c)
      case ReadOld => Put(w, t, c.(line := ReadTmp, seen := w.shared))
      case ReadTmp => Put(w, t, c.(line := WriteTmp, loaded := w.shared))
      case WriteTmp =>
        Put(w.(shared := (c.loaded + 1) % TWO32, stores := w.stores + 1), t,
            c.(line := CallUnlock, snap := w.stores + 1))
      case CallUnlock => Put(w.(mutex := M.Step(w.mutex, t, M.Unlock)), t, c.(line := InUnlock))
      case InUnlock =>
        var m := M.Step(w.mutex, t, M.Unlock);
        Put(w.(mutex := m), t, if m.threads[t].pc.Idle? then c.(line := Compare) else c)
      case Compare =>
        var wrong := w.shared != (c.seen + 1) % TWO32;
        Put(w, t, c.(line := CallLock, round := c.round + 1,
                     complaints := c.complaints + if wrong then 1 else 0))
  }

  predicate Scheduled(n: nat, run: seq<nat>) {
    forall i :: 0 <= i < |run| ==> run[i] < n
  }

  function Run(w: World, K: nat, run: seq<nat>): (w': World)
    requires WellFormed(w) && Scheduled(|w.clients|, run)
    ensures WellFormed(w') && |w'.clients| == |w.clients|
    decreases |run|
  {
    if run == [] then w else Run(Step(w, K, run[0]), K, run[1..])
  }

  predicate Finished(w: World, K: nat) {
    forall t :: 0 <= t < |w.clients| ==> w.clients[t].round >= K
  }

  // ---------------------------------------------------------------- the invariant

  function Done(c: Client): nat {
    c.round + if c.line.CallUnlock? || c.line.InUnlock? || c.line.Compare? then 1 else 0
  }

  function Total(cs: seq<Client>): nat {
    if cs == [] then 0 else Done(cs[0]) + Total(cs[1..])
  }

  lemma {:induction false} TotalUpdate(cs: seq<Client>, t: nat, c: Client)
    requires t < |cs|
    ensures Total(cs[t := c]) == Total(cs) - Done(cs[t]) + Done(c)
  {
    if t == 0 {
      assert cs[t := c][1..] == cs[1..];
    } else {
      TotalUpdate(cs[1..], t - 1, c);
      assert cs[t := c][1..] == cs[1..][t - 1 := c];
    }
  }

  lemma {:induction false} TotalWhenFinished(cs: seq<Client>, K: nat)
    requires forall t :: 0 <= t < |cs| ==> cs[t].round == K && cs[t].line.CallLock?
    ensures Total(cs) == |cs| * K
  {
    if cs != [] {
      TotalWhenFinished(cs[1..], K);
      assert |cs| * K == (|cs| - 1) * K + K;
    }
  }

  predicate LockPath(pc: M.Pc) {
    match pc
    case Spin(g) => !g.UnlockEntry?
    case Wait(g) => !g.UnlockEntry?
    case Test(try) => !try
    case CheckFree(try) => !try
    case Backoff | Yield | Take | Count | Granted => true
    case _ => false
  }

  predicate UnlockPath(pc: M.Pc) {
    M.InUnlock(pc) && !pc.URefused?
  }

  predicate ClientOk(w: World, K: nat, t: nat)
    requires WellFormed(w) && t < |w.clients|
  {
    var c, m := w.clients[t], w.mutex.threads[t];
    && (c.round < K || (c.round == K && c.line.CallLock?))
    && m.depth == (if c.line.ReadOld? || c.line.ReadTmp? || c.line.WriteTmp? || c.line.CallUnlock? || c.line.InUnlock? then 1 else 0)
    && (if c.line.InLock? then LockPath(m.pc) else if c.line.InUnlock? then UnlockPath(m.pc) else m.pc.Idle?)
    && (c.line.ReadTmp? || c.line.WriteTmp? ==> c.seen == w.shared)
    && (c.line.WriteTmp? ==> c.loaded == w.shared)
    && (c.line.CallUnlock? || c.line.InUnlock? ==> c.snap == w.stores)
    && (c.line.CallUnlock? || c.line.InUnlock? || c.line.Compare? ==>
          c.snap <= w.stores && (c.seen + 1) % TWO32 == c.snap % TWO32)
  }

  ghost predicate Inv(w: World, K: nat) {
    && WellFormed(w)
    && M.Inv(w.mutex)
    && w.stores == Total(w.clients)
    && w.shared == w.stores % TWO32
    && (forall t :: 0 <= t < |w.clients| ==> ClientOk(w, K, t))
  }

  lemma BootInv(n: nat, K: nat)
    ensures Inv(Boot(n), K)
  {
    M.InitInv(n);
    TotalWhenFinished(Boot(n).clients, 0);
    assert forall t :: 0 <= t < n ==> ClientOk(Boot(n), K, t);
  }

  // A thread's own step keeps what is known about that thread.
  lemma OwnStep(w: World, K: nat, t: nat)
    requires Inv(w, K) && t < |w.clients|
    ensures ClientOk(Step(w, K, t), K, t)
  {
    assert ClientOk(w, K, t);
    assert M.ThreadOk(w.mutex, t);
  }

  // Nobody else's record changes, and a store cannot happen while another is inside.
  lemma OtherStep(w: World, K: nat, t: nat, u: nat)
    requires Inv(w, K) && t < |w.clients| && u < |w.clients| && u != t
    ensures ClientOk(Step(w, K, t), K, u)
  {
    assert ClientOk(w, K, t) && ClientOk(w, K, u);
    if w.mutex.threads[t].depth > 0 && w.mutex.threads[u].depth > 0 {
      M.OneInside(w.mutex, t, u);
    }
    assert Step(w, K, t).clients[u] == w.clients[u];
    assert Step(w, K, t).mutex.threads[u] == w.mutex.threads[u];
  }

  lemma StepKeepsInv(w: World, K: nat, t: nat)
    requires Inv(w, K) && t < |w.clients|
    ensures Inv(Step(w, K, t), K)
  {
    hide Step, ClientOk, M.Inv, M.ThreadOk;
    FieldsKept(w, K, t);
    forall u | 0 <= u < |w.clients|
      ensures ClientOk(Step(w, K, t), K, u)
    {
      if u == t { OwnStep(w, K, t); } else { OtherStep(w, K, t, u); }
    }
  }

  // The mutex stays sound and the counter is what was stored.
  lemma FieldsKept(w: World, K: nat, t: nat)
    requires Inv(w, K) && t < |w.clients|
    ensures var w' := Step(w, K, t);
      M.Inv(w'.mutex) && w'.stores == Total(w'.clients) && w'.shared == w'.stores % TWO32
  {
    assert ClientOk(w, K, t) && M.ThreadOk(w.mutex, t);
    MutexKept(w, K, t);
    CounterKept(w, K, t);
  }

  lemma MutexKept(w: World, K: nat, t: nat)
    requires WellFormed(w) && t < |w.clients| && M.Inv(w.mutex) && w.mutex.threads[t].depth < TWO32
    ensures M.Inv(Step(w, K, t).mutex)
  {
    hide M.Inv, M.Step;
    M.StepKeepsInv(w.mutex, t, M.Lock);
    M.StepKeepsInv(w.mutex, t, M.Unlock);
  }

  lemma CounterKept(w: World, K: nat, t: nat)
    requires WellFormed(w) && t < |w.clients| && ClientOk(w, K, t)
    requires w.stores == Total(w.clients) && w.shared == w.stores % TWO32
    ensures var w' := Step(w, K, t); w'.stores == Total(w'.clients) && w'.shared == w'.stores % TWO32
  {
    hide M.Step;
    TotalUpdate(w.clients, t, Step(w, K, t).clients[t]);
    NextValue(w.stores);
    assert w.clients[t := w.clients[t]] == w.clients;
  }

  lemma NextValue(n: nat)
    ensures (n % TWO32 + 1) % TWO32 == (n + 1) % TWO32
  {
  }

  lemma {:induction false} RunKeepsInv(w: World, K: nat, run: seq<nat>)
    requires Inv(w, K) && Scheduled(|w.clients|, run)
    ensures Inv(Run(w, K, run), K)
    decreases |run|
  {
    if run == [] {
    } else {
      StepKeepsInv(w, K, run[0]);
      RunKeepsInv(Step(w, K, run[0]), K, run[1..]);
    }
  }

  // ---------------------------------------------------------------- main results

  /** No increment is lost: whatever the interleaving, once all `n` threads have made
      their `K` rounds the counter reads `n * K` modulo 2^32. */
  lemma FinalCounter(n: nat, K: nat, run: seq<nat>)
    requires Scheduled(n, run) && Finished(Run(Boot(n), K, run), K)
    ensures Run(Boot(n), K, run).shared == (n * K) % TWO32
  {
    BootInv(n, K);
    RunKeepsInv(Boot(n), K, run);
    var w := Run(Boot(n), K, run);
    forall t | 0 <= t < n
      ensures w.clients[t].round == K && w.clients[t].line.CallLock?
    {
      assert ClientOk(w, K, t);
    }
    TotalWhenFinished(w.clients, K);
  }

  /** At most one thread is between its lock and its unlock at any time. */
  lemma OneInCriticalSection(n: nat, K: nat, run: seq<nat>, t: nat, u: nat)
    requires Scheduled(n, run) && t < n && u < n
    requires var w := Run(Boot(n), K, run);
      && (w.clients[t].line.ReadOld? || w.clients[t].line.ReadTmp? || w.clients[t].line.WriteTmp?)
      && (w.clients[u].line.ReadOld? || w.clients[u].line.ReadTmp? || w.clients[u].line.WriteTmp?)
    ensures t == u
  {
    BootInv(n, K);
    RunKeepsInv(Boot(n), K, run);
    var w := Run(Boot(n), K, run);
    assert ClientOk(w, K, t) && ClientOk(w, K, u);
    M.OneInside(w.mutex, t, u);
  }

  /** The check after the unlock is not a check of the mutex: in every reachable state it
      passes exactly when the stores others made since this thread's own are a multiple
      of 2^32, so any single one in between makes it complain. */
  lemma ComparePassesIff(n: nat, K: nat, run: seq<nat>, t: nat)
    requires Scheduled(n, run) && t < n
    requires Run(Boot(n), K, run).clients[t].line.Compare?
    ensures var w := Run(Boot(n), K, run);
      Step(w, K, t).clients[t].complaints == w.clients[t].complaints
      <==> (w.stores - w.clients[t].snap) % TWO32 == 0
  {
    BootInv(n, K);
    RunKeepsInv(Boot(n), K, run);
    var w := Run(Boot(n), K, run);
    assert ClientOk(w, K, t);
    SameResidue(w.stores, w.clients[t].snap);
  }

  lemma SameResidue(a: nat, b: nat)
    requires b <= a
    ensures a % TWO32 == b % TWO32 <==> (a - b) % TWO32 == 0
  {
  }
}
