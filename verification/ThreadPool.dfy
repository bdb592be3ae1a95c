/** The thread pool of `threadpool.c` as interleaved steps of its threads. A step is what a thread does
    between two points where another thread may see the difference: the mutex, the condition variable,
    the task list and the `terminate` flags are shared. */
module ThreadPool {
  type Task = nat

  /** Where a worker is in `nThreadPoolCallback`. */
  datatype Pc =
    | Starting             // at the lock that opens the loop
    | Testing              // holds the lock, looks at the task list
    | Doubting             // found no task, looks at its `terminate` flag
    | Dozing               // saw it clear, about to call pthread_cond_wait
    | Waiting              // asleep, without the lock
    | Woken                // woken up, wants the lock back
    | Deciding             // left the inner loop with the lock, looks at its flag
    | Removing             // saw it clear, about to take the first task
    | Holding(task: Task)  // took a task, still has the lock
    | Running(task: Task)  // runs it without the lock
    | Exited

  /** Where a caller is in `nThreadPoolPushTask` or `nThreadPoolDestory`. */
  datatype Client =
    | Outside
    | Pushing(task: Task)  // has the lock
    | Inserted             // has put the task into the list
    | Signalled            // has signalled, still has the lock
    | Flagging(next: nat)  // sets the flags of the workers, one after another, without the lock
    | Flagged              // wants the lock
    | Closing              // has the lock
    | Closed               // has called broadcast, still has the lock
    | Gone

  datatype Owner = Free | Worker(i: nat) | Caller(j: nat)

  /** The shared state and every thread's place; `pushed`, `started` and `finished` are its history. */
  datatype Pool = Pool(workers: seq<Pc>, clients: seq<Client>, terminate: seq<bool>, owner: Owner, queue: seq<Task>,
                       pushed: multiset<Task>, started: multiset<Task>, finished: multiset<Task>, broadcast: bool)

  predicate HasLock(pc: Pc) {
    pc.Testing? || pc.Doubting? || pc.Dozing? || pc.Deciding? || pc.Removing? || pc.Holding?
  }

  predicate ClientHasLock(c: Client) {
    c.Pushing? || c.Inserted? || c.Signalled? || c.Closing? || c.Closed?
  }

  // ---------- steps ----------

  /** The next step of worker `i`; `None` if it cannot move by itself. */
  function WorkerStep(s: Pool, i: nat): (s': Pool)
    requires i < |s.workers| == |s.terminate|
  {
    var pc := s.workers[i];
    match pc
    case Starting => if s.owner == Free then s.(workers := s.workers[i := Testing], owner := Worker(i)) else s
    case Testing => s.(workers := s.workers[i := if s.queue == [] then Doubting else Deciding])
    case Doubting => s.(workers := s.workers[i := if s.terminate[i] then Deciding else Dozing])
    case Dozing => s.(workers := s.workers[i := Waiting], owner := Free)
    case Waiting => s
    case Woken => if s.owner == Free then s.(workers := s.workers[i := Testing], owner := Worker(i)) else s
    case Deciding =>
      if s.terminate[i] then s.(workers := s.workers[i := Exited], owner := Free)
      else s.(workers := s.workers[i := Removing])
    case Removing =>
      if s.queue == [] then s
      else s.(workers := s.workers[i := Holding(s.queue[0])], queue := s.queue[1..])
    case Holding(t) => s.(workers := s.workers[i := Running(t)], owner := Free, started := s.started + multiset{t})
    case Running(t) => s.(workers := s.workers[i := Starting], finished := s.finished + multiset{t})
    case Exited => s
  }

  /** The sleeping workers among `who` are woken. */
  function Wake(workers: seq<Pc>, who: set<nat>): seq<Pc> {
    seq(|workers|, i requires 0 <= i < |workers| => if i in who && workers[i] == Waiting then Woken else workers[i])
  }

  predicate Sleeps(workers: seq<Pc>, i: nat) {
    i < |workers| && workers[i] == Waiting
  }

  ghost predicate BeginPush(s: Pool, j: nat, t: Task, s': Pool)
    requires j < |s.clients|
  {
    && s.clients[j] == Outside && s.owner == Free
    && s.pushed[t] == 0
    && s' == s.(clients := s.clients[j := Pushing(t)], owner := Caller(j))
  }

  predicate Destroys(c: Client) {
    c.Flagging? || c.Flagged? || c.Closing? || c.Closed? || c.Gone?
  }

  ghost predicate BeginDestroy(s: Pool, j: nat, s': Pool)
    requires j < |s.clients|
  {
    && s.clients[j] == Outside && (forall k :: 0 <= k < |s.clients| ==> !Destroys(s.clients[k]))
    && s' == s.(clients := s.clients[j := Flagging(0)])
  }

  /** A signal wakes at least one sleeper if there is any. */
  ghost predicate Signal(s: Pool, j: nat, who: set<nat>, s': Pool)
    requires j < |s.clients|
  {
    && ((exists i: nat :: Sleeps(s.workers, i)) ==> exists i: nat :: i in who && Sleeps(s.workers, i))
    && s' == s.(clients := s.clients[j := Signalled], workers := Wake(s.workers, who))
  }

  /** A broadcast wakes all sleepers. */
  ghost predicate Broadcast(s: Pool, j: nat, who: set<nat>, s': Pool)
    requires j < |s.clients|
  {
    && (forall i: nat :: Sleeps(s.workers, i) ==> i in who)
    && s' == s.(clients := s.clients[j := Closed], workers := Wake(s.workers, who), broadcast := true)
  }

  /** A caller takes a step: it begins a push of a task that was never pushed, or a destruction if none
      has begun; then it goes on. */
  ghost predicate ClientStep(s: Pool, j: nat, s': Pool)
    requires j < |s.clients| && |s.terminate| == |s.workers|
  {
    match s.clients[j]
    case Outside => BeginDestroy(s, j, s') || exists t :: BeginPush(s, j, t, s')
    case Pushing(t) =>
      s' == s.(clients := s.clients[j := Inserted], queue := [t] + s.queue, pushed := s.pushed + multiset{t})
    case Inserted => exists who :: Signal(s, j, who, s')
    case Signalled => s' == s.(clients := s.clients[j := Outside], owner := Free)
    case Flagging(i) =>
      if i < |s.terminate| then s' == s.(clients := s.clients[j := Flagging(i + 1)],
                                         terminate := s.terminate[i := true])
      else s' == s.(clients := s.clients[j := Flagged])
    case Flagged => s.owner == Free && s' == s.(clients := s.clients[j := Closing], owner := Caller(j))
    case Closing => exists who :: Broadcast(s, j, who, s')
    case Closed => s' == s.(clients := s.clients[j := Gone], owner := Free)
    case Gone => false
  }

  /** A sleeper may wake up for no reason. */
  ghost predicate WakesUp(s: Pool, i: nat, s': Pool) {
    Sleeps(s.workers, i) && s' == s.(workers := s.workers[i := Woken])
  }

  ghost predicate Works(s: Pool, i: nat, s': Pool) {
    i < |s.workers| == |s.terminate| && s' == WorkerStep(s, i)
  }

  ghost predicate Acts(s: Pool, j: nat, s': Pool) {
    j < |s.clients| && |s.terminate| == |s.workers| && ClientStep(s, j, s')
  }

  /** One step of one thread. */
  ghost predicate Next(s: Pool, s': Pool) {
    exists i: nat :: Works(s, i, s') || WakesUp(s, i, s') || Acts(s, i, s')
  }

  ghost predicate Init(s: Pool) {
    && |s.terminate| == |s.workers|
    && (forall i :: 0 <= i < |s.workers| ==> s.workers[i] == Starting && !s.terminate[i])
    && (forall j :: 0 <= j < |s.clients| ==> s.clients[j] == Outside)
    && s.owner == Free && s.queue == [] && !s.broadcast
    && s.pushed == multiset{} && s.started == multiset{} && s.finished == multiset{}
  }

  ghost predicate Run(ss: seq<Pool>) {
    ss != [] && Init(ss[0]) && forall n :: 0 <= n < |ss| - 1 ==> Next(ss[n], ss[n + 1])
  }

  // ---------- counting workers ----------

  /** What to count: workers that have taken a task, that run it, that will look at the task list before
      they sleep, or that have been woken. */
  datatype Query = Takers(task: Task) | Runners(task: Task) | Lookers | Wakened

  predicate Meets(pc: Pc, q: Query) {
    match q
    case Takers(t) => pc == Holding(t) || pc == Running(t)
    case Runners(t) => pc == Running(t)
    case Lookers => pc.Woken? || pc.Testing? || pc.Deciding? || pc.Removing?
    case Wakened => pc.Woken?
  }

  function One(pc: Pc, q: Query): nat {
    if Meets(pc, q) then 1 else 0
  }

  function Count(workers: seq<Pc>, q: Query): nat {
    if workers == [] then 0 else Count(workers[..|workers| - 1], q) + One(workers[|workers| - 1], q)
  }

  lemma {:induction false} CountUpdate(workers: seq<Pc>, i: nat, pc: Pc, q: Query)
    requires i < |workers|
    ensures Count(workers[i := pc], q) + One(workers[i], q) == Count(workers, q) + One(pc, q)
  {
    hide One;
    var last := |workers| - 1;
    if i < last {
      CountUpdate(workers[..last], i, pc, q);
      assert workers[i := pc][..last] == workers[..last][i := pc];
    } else {
      assert workers[i := pc][..last] == workers[..last];
    }
  }

  lemma {:induction false} CountAtMost(a: seq<Pc>, b: seq<Pc>, q: Query, q': Query)
    requires |a| == |b| && forall i :: 0 <= i < |a| && Meets(a[i], q) ==> Meets(b[i], q')
    ensures Count(a, q) <= Count(b, q')
  {
    hide Meets;
    if a != [] {
      var last := |a| - 1;
      assert forall i :: 0 <= i < last ==> a[..last][i] == a[i] && b[..last][i] == b[i];
      CountAtMost(a[..last], b[..last], q, q');
    }
  }

  lemma {:induction false} CountWakes(workers: seq<Pc>, who: set<nat>, q: Query)
    ensures q != Wakened && q != Lookers ==> Count(Wake(workers, who), q) == Count(workers, q)
    ensures Count(Wake(workers, who), q) >= Count(workers, q)
  {
    CountAtMost(workers, Wake(workers, who), q, q);
    if q != Wakened && q != Lookers {
      CountAtMost(Wake(workers, who), workers, q, q);
    }
  }

  lemma {:induction false} WakesOne(workers: seq<Pc>, who: set<nat>, i: nat)
    requires i in who && Sleeps(workers, i)
    ensures Count(Wake(workers, who), Lookers) > Count(workers, Lookers)
  {
    var one := workers[i := Woken];
    CountUpdate(workers, i, Woken, Lookers);
    CountAtMost(one, Wake(workers, who), Lookers, Lookers);
  }

  // ---------- the invariant ----------

  /** The lock is held by exactly the thread whose place says so. */
  ghost predicate Locked(s: Pool) {
    && |s.terminate| == |s.workers|
    && (forall i :: 0 <= i < |s.workers| ==> (HasLock(s.workers[i]) <==> s.owner == Worker(i)))
    && (forall j :: 0 <= j < |s.clients| ==> (ClientHasLock(s.clients[j]) <==> s.owner == Caller(j)))
  }

  /** A pushed task is in the list, taken by a worker, or finished, and only once; a started one runs or
      is finished. */
  ghost predicate InOnePlace(s: Pool, t: Task) {
    && s.pushed[t] == multiset(s.queue)[t] + Count(s.workers, Takers(t)) + s.finished[t] <= 1
    && s.started[t] == Count(s.workers, Runners(t)) + s.finished[t]
  }

  ghost predicate Accounted(s: Pool) {
    && (forall t :: InOnePlace(s, t))
    && (forall j :: 0 <= j < |s.clients| && s.clients[j].Pushing? ==> s.pushed[s.clients[j].task] == 0)
  }

  /** What a worker has seen under the lock is still so. */
  ghost predicate Seen(s: Pool) {
    |s.terminate| == |s.workers| &&
    forall i :: 0 <= i < |s.workers| ==>
      && (s.workers[i].Doubting? || s.workers[i].Dozing? ==> s.queue == [])
      && (s.workers[i].Deciding? ==> s.queue != [] || s.terminate[i])
      && (s.workers[i].Removing? ==> s.queue != [])
  }

  predicate Unflagged(s: Pool) {
    forall i :: 0 <= i < |s.terminate| ==> !s.terminate[i]
  }

  predicate AllFlagged(s: Pool) {
    forall i :: 0 <= i < |s.terminate| ==> s.terminate[i]
  }

  /** A task was put into the list and nobody has been woken for it yet. */
  function Unannounced(s: Pool): nat {
    match s.owner
    case Caller(j) => if j < |s.clients| && s.clients[j] == Inserted then 1 else 0
    case _ => 0
  }

  ghost predicate SomeSleeps(s: Pool) {
    exists i: nat :: Sleeps(s.workers, i)
  }

  /** While a worker sleeps there are no more tasks than workers about to look for one. */
  ghost predicate NoLostWakeup(s: Pool) {
    Unflagged(s) && SomeSleeps(s) ==> |s.queue| <= Count(s.workers, Lookers) + Unannounced(s)
  }

  /** What the destroying caller has done when it is at `c`. */
  ghost predicate Destroyed(s: Pool, c: Client) {
    match c
    case Flagging(n) => forall i :: 0 <= i < n && i < |s.terminate| ==> s.terminate[i]
    case Flagged => AllFlagged(s)
    case Closing => AllFlagged(s)
    case Closed => s.broadcast
    case Gone => s.broadcast
    case _ => true
  }

  /** No worker sleeps or is about to. */
  ghost predicate Awake(s: Pool) {
    AllFlagged(s) && forall i :: 0 <= i < |s.workers| ==> !s.workers[i].Waiting? && !s.workers[i].Dozing?
  }

  /** How far the destruction is. */
  ghost predicate Ending(s: Pool) {
    && |s.terminate| == |s.workers|
    && (forall j :: 0 <= j < |s.clients| ==> Destroyed(s, s.clients[j]))
    && (s.broadcast ==> Awake(s))
  }

  ghost predicate Inv(s: Pool) {
    Locked(s) && Accounted(s) && Seen(s) && NoLostWakeup(s) && Ending(s)
  }

  // ---------- every step keeps it ----------

  lemma {:induction false} WorkerKeepsLocked(s: Pool, i: nat)
    requires Locked(s) && i < |s.workers|
    ensures Locked(WorkerStep(s, i))
  {
  }

  lemma {:induction false} QueueCounts(queue: seq<Task>, t: Task)
    ensures queue != [] ==> multiset(queue)[t] == multiset(queue[1..])[t] + if queue[0] == t then 1 else 0
  {
    if queue != [] {
      assert queue == [queue[0]] + queue[1..];
    }
  }

  lemma {:induction false} WorkerFrame(s: Pool, i: nat)
    requires i < |s.workers| == |s.terminate|
    ensures var s' := WorkerStep(s, i);
            && s'.pushed == s.pushed && s'.clients == s.clients && |s'.workers| == |s.workers|
            && s'.workers == s.workers[i := s'.workers[i]]
  {
  }

  lemma {:induction false} TakingMoves(s: Pool, i: nat, t: Task)
    requires i < |s.workers| == |s.terminate| && s.workers[i].Removing?
    ensures var s' := WorkerStep(s, i);
            && |s'.workers| == |s.workers| && s'.finished == s.finished
            && multiset(s'.queue)[t] + One(s'.workers[i], Takers(t)) == multiset(s.queue)[t]
            && One(s.workers[i], Takers(t)) == 0
  {
    QueueCounts(s.queue, t);
  }

  lemma {:induction false} FinishingMoves(s: Pool, i: nat, t: Task)
    requires i < |s.workers| == |s.terminate| && s.workers[i].Running?
    ensures var s' := WorkerStep(s, i);
            && |s'.workers| == |s.workers| && s'.queue == s.queue
            && s'.finished[t] == s.finished[t] + One(s.workers[i], Takers(t))
            && One(s'.workers[i], Takers(t)) == 0
  {
  }

  lemma {:induction false} OthersMoveNothing(s: Pool, i: nat, t: Task)
    requires i < |s.workers| == |s.terminate| && !s.workers[i].Removing? && !s.workers[i].Running?
    ensures var s' := WorkerStep(s, i);
            && |s'.workers| == |s.workers| && s'.queue == s.queue && s'.finished == s.finished
            && One(s'.workers[i], Takers(t)) == One(s.workers[i], Takers(t))
  {
  }

  /** One step of a worker moves a task along, if anything. */
  lemma {:induction false} WorkerMoves(s: Pool, i: nat, t: Task)
    requires i < |s.workers| == |s.terminate|
    ensures var s' := WorkerStep(s, i);
            |s'.workers| == |s.workers| &&
            multiset(s'.queue)[t] + One(s'.workers[i], Takers(t)) + s'.finished[t]
            == multiset(s.queue)[t] + One(s.workers[i], Takers(t)) + s.finished[t]
  {
    hide WorkerStep, One;
    if s.workers[i].Removing? {
      TakingMoves(s, i, t);
    } else if s.workers[i].Running? {
      FinishingMoves(s, i, t);
    } else {
      OthersMoveNothing(s, i, t);
    }
  }

  lemma {:induction false} WorkerRuns(s: Pool, i: nat, t: Task)
    requires i < |s.workers| == |s.terminate|
    ensures var s' := WorkerStep(s, i);
            |s'.workers| == |s.workers| &&
            s'.started[t] + One(s.workers[i], Runners(t)) + s.finished[t]
            == s.started[t] + One(s'.workers[i], Runners(t)) + s'.finished[t]
  {
  }

  lemma {:induction false} WorkerKeepsAccounts(s: Pool, i: nat)
    requires Accounted(s) && i < |s.workers| == |s.terminate|
    ensures Accounted(WorkerStep(s, i))
  {
    hide Count, One, WorkerStep;
    var s' := WorkerStep(s, i);
    WorkerFrame(s, i);
    forall t ensures InOnePlace(s', t) {
      assert InOnePlace(s, t);
      WorkerMoves(s, i, t);
      WorkerRuns(s, i, t);
      CountUpdate(s.workers, i, s'.workers[i], Takers(t));
      CountUpdate(s.workers, i, s'.workers[i], Runners(t));
    }
  }

  lemma {:induction false} WorkerKeepsSeen(s: Pool, i: nat)
    requires Locked(s) && Seen(s) && i < |s.workers|
    ensures Seen(WorkerStep(s, i))
  {
  }

  lemma {:induction false} WorkerKeepsWakeups(s: Pool, i: nat)
    requires Locked(s) && Seen(s) && NoLostWakeup(s) && i < |s.workers|
    ensures NoLostWakeup(WorkerStep(s, i))
  {
    var s' := WorkerStep(s, i);
    if s' != s && Unflagged(s') && SomeSleeps(s') {
      CountUpdate(s.workers, i, s'.workers[i], Lookers);
      hide Count;
      var k: nat :| Sleeps(s'.workers, k);
      assert k != i ==> Sleeps(s.workers, k);
    }
  }

  /** A worker goes to sleep only if its flag is not set. */
  lemma {:induction false} WorkerSleeps(s: Pool, i: nat)
    requires i < |s.workers| == |s.terminate|
    ensures var s' := WorkerStep(s, i);
            && s'.terminate == s.terminate && s'.broadcast == s.broadcast && |s'.workers| == |s.workers|
            && (s'.workers[i].Waiting? ==> s.workers[i].Waiting? || s.workers[i].Dozing?)
            && (s'.workers[i].Dozing? ==> s.workers[i].Dozing? || !s.terminate[i])
  {
  }

  lemma {:induction false} WorkerKeepsEnding(s: Pool, i: nat)
    requires Ending(s) && i < |s.workers|
    ensures Ending(WorkerStep(s, i))
  {
    hide WorkerStep, Destroyed;
    var s' := WorkerStep(s, i);
    WorkerFrame(s, i);
    WorkerSleeps(s, i);
    forall j | 0 <= j < |s.clients| ensures Destroyed(s', s.clients[j]) {
      StillDestroyed(s, s', s.clients[j]);
    }
  }

  lemma {:induction false} WorkerKeepsInv(s: Pool, i: nat)
    requires Inv(s) && i < |s.workers|
    ensures Inv(WorkerStep(s, i))
  {
    hide Locked, Accounted, Seen, NoLostWakeup, Ending, WorkerStep;
    assert |s.terminate| == |s.workers| by { SameLength(s); }
    WorkerKeepsLocked(s, i);
    WorkerKeepsAccounts(s, i);
    WorkerKeepsSeen(s, i);
    WorkerKeepsWakeups(s, i);
    WorkerKeepsEnding(s, i);
  }

  lemma {:induction false} SameLength(s: Pool)
    requires Locked(s)
    ensures |s.terminate| == |s.workers|
  {
  }

  /** Even a wake-up for no reason. */
  lemma {:induction false} WakeUpKeepsInv(s: Pool, i: nat)
    requires Inv(s) && Sleeps(s.workers, i)
    ensures Inv(s.(workers := s.workers[i := Woken]))
  {
    var s' := s.(workers := s.workers[i := Woken]);
    assert Locked(s') && Seen(s') && Ending(s') by {
      hide Accounted, NoLostWakeup;
    }
    assert Accounted(s') by {
      hide Locked, Seen, Ending, NoLostWakeup;
      forall t ensures InOnePlace(s', t) {
        assert InOnePlace(s, t);
        CountUpdate(s.workers, i, Woken, Takers(t));
        CountUpdate(s.workers, i, Woken, Runners(t));
        hide Count;
      }
    }
    CountUpdate(s.workers, i, Woken, Lookers);
    assert SomeSleeps(s);
    hide Locked, Seen, Ending, Accounted, Count;
  }

  lemma {:induction false} WokenKeepsAccounts(s: Pool, who: set<nat>, s': Pool)
    requires Accounted(s) && s'.workers == Wake(s.workers, who)
    requires s'.queue == s.queue && s'.pushed == s.pushed && s'.started == s.started && s'.finished == s.finished
    requires |s'.clients| == |s.clients|
    requires forall j :: 0 <= j < |s.clients| && s'.clients[j].Pushing? ==> s'.clients[j] == s.clients[j]
    ensures Accounted(s')
  {
    forall t ensures InOnePlace(s', t) {
      assert InOnePlace(s, t);
      CountWakes(s.workers, who, Takers(t));
      CountWakes(s.workers, who, Runners(t));
      hide Count, Wake;
    }
  }

  /** What a caller's step does to the workers: it wakes some, or nothing. */
  lemma {:induction false} ActsOnWorkers(s: Pool, j: nat, s': Pool)
    requires Acts(s, j, s')
    ensures |s'.workers| == |s.workers| && |s'.terminate| == |s.terminate| && |s'.clients| == |s.clients|
    ensures forall i :: 0 <= i < |s.workers| ==>
              s'.workers[i] == s.workers[i] || (s.workers[i].Waiting? && s'.workers[i].Woken?)
    ensures forall k :: 0 <= k < |s.clients| && k != j ==> s'.clients[k] == s.clients[k]
    ensures forall i :: 0 <= i < |s.terminate| && s.terminate[i] ==> s'.terminate[i]
  {
    var c := s.clients[j];
    if c.Inserted? {
      var who :| Signal(s, j, who, s');
    } else if c.Closing? {
      var who :| Broadcast(s, j, who, s');
    }
  }

  /** What a caller's step does to the lock. */
  lemma {:induction false} ActsOnLock(s: Pool, j: nat, s': Pool)
    requires Acts(s, j, s') && (ClientHasLock(s.clients[j]) <==> s.owner == Caller(j))
    ensures |s'.clients| == |s.clients|
    ensures s'.owner == s.owner || (s.owner == Free && s'.owner == Caller(j))
            || (s.owner == Caller(j) && s'.owner == Free)
    ensures ClientHasLock(s'.clients[j]) <==> s'.owner == Caller(j)
  {
    hide Wake;
  }

  lemma {:induction false} ClientKeepsLocked(s: Pool, j: nat, s': Pool)
    requires Locked(s) && Acts(s, j, s')
    ensures Locked(s')
  {
    ActsOnWorkers(s, j, s');
    ActsOnLock(s, j, s');
    hide ClientStep;
  }

  /** A caller that moves on without touching tasks. */
  lemma {:induction false} IdleKeepsAccounts(s: Pool, j: nat, c: Client, s': Pool)
    requires Accounted(s) && j < |s.clients| && (c.Pushing? ==> s.pushed[c.task] == 0)
    requires s'.clients == s.clients[j := c] && s'.workers == s.workers && s'.queue == s.queue
    requires s'.pushed == s.pushed && s'.started == s.started && s'.finished == s.finished
    ensures Accounted(s')
  {
    hide Count;
    forall t ensures InOnePlace(s', t) {
      assert InOnePlace(s, t);
    }
  }

  lemma {:induction false} PushKeepsAccounts(s: Pool, j: nat, t: Task)
    requires Locked(s) && Accounted(s) && j < |s.clients| && s.clients[j] == Pushing(t)
    ensures Accounted(s.(clients := s.clients[j := Inserted], queue := [t] + s.queue, pushed := s.pushed + multiset{t}))
  {
    hide Count;
    var s' := s.(clients := s.clients[j := Inserted], queue := [t] + s.queue, pushed := s.pushed + multiset{t});
    assert s'.queue[1..] == s.queue;
    forall u ensures InOnePlace(s', u) {
      assert InOnePlace(s, u);
      QueueCounts(s'.queue, u);
    }
    forall k | 0 <= k < |s'.clients| ensures !s'.clients[k].Pushing? {
      assert k != j ==> s'.clients[k] == s.clients[k];
    }
  }

  lemma {:induction false} ClientKeepsAccounts(s: Pool, j: nat, s': Pool)
    requires Locked(s) && Accounted(s) && Acts(s, j, s')
    ensures Accounted(s')
  {
    hide Count, Accounted, Locked;
    var c := s.clients[j];
    if c.Inserted? {
      var who :| Signal(s, j, who, s');
      WokenKeepsAccounts(s, who, s');
    } else if c.Closing? {
      var who :| Broadcast(s, j, who, s');
      WokenKeepsAccounts(s, who, s');
    } else if c.Pushing? {
      PushKeepsAccounts(s, j, c.task);
    } else {
      var c' := s'.clients[j];
      IdleKeepsAccounts(s, j, c', s');
    }
  }

  /** Only a push changes the task list. */
  lemma {:induction false} ActsOnQueue(s: Pool, j: nat, s': Pool)
    requires Acts(s, j, s')
    ensures s'.queue == s.queue || (s.clients[j].Pushing? && s'.queue != [])
  {
    hide Wake;
  }

  lemma {:induction false} ClientKeepsSeen(s: Pool, j: nat, s': Pool)
    requires Locked(s) && Seen(s) && Acts(s, j, s')
    ensures Seen(s')
  {
    hide ClientStep, WorkerStep;
    ActsOnWorkers(s, j, s');
    ActsOnQueue(s, j, s');
    assert s.clients[j].Pushing? ==> s.owner == Caller(j);
  }

  lemma {:induction false} ClientKeepsWakeups(s: Pool, j: nat, s': Pool)
    requires Locked(s) && NoLostWakeup(s) && Acts(s, j, s')
    ensures NoLostWakeup(s')
  {
    hide Count;
    var c := s.clients[j];
    if c.Closing? {
      var who :| Broadcast(s, j, who, s');
      WakesAll(s.workers, who);
    } else if c.Inserted? {
      var who :| Signal(s, j, who, s');
      if Unflagged(s') && SomeSleeps(s') {
        var k: nat :| Sleeps(s'.workers, k);
        assert Sleeps(s.workers, k);
        var i: nat :| i in who && Sleeps(s.workers, i);
        WakesOne(s.workers, who, i);
      }
    } else if c.Flagging? && c.next < |s.terminate| {
      assert s'.terminate[c.next];
    } else {
      assert s'.workers == s.workers && s'.terminate == s.terminate;
    }
  }

  lemma {:induction false} WakesAll(workers: seq<Pc>, who: set<nat>)
    requires forall i: nat :: Sleeps(workers, i) ==> i in who
    ensures forall i: nat :: !Sleeps(Wake(workers, who), i)
  {
    forall i: nat ensures !Sleeps(Wake(workers, who), i) {
      if i < |workers| && workers[i] == Waiting {
        assert Sleeps(workers, i);
      }
    }
  }

  /** What a caller's step does to the destruction, as far as that caller is concerned. */
  lemma {:induction false} ActsOnEnd(s: Pool, j: nat, s': Pool)
    requires Acts(s, j, s') && Destroyed(s, s.clients[j])
    ensures |s'.clients| == |s.clients| && Destroyed(s', s'.clients[j])
    ensures s'.broadcast == s.broadcast || (s.clients[j].Closing? && s'.terminate == s.terminate)
  {
    hide Wake;
  }

  lemma {:induction false} ClosingWakes(s: Pool, j: nat, s': Pool)
    requires Locked(s) && Acts(s, j, s') && s.clients[j].Closing? && AllFlagged(s)
    ensures Awake(s')
  {
    var who :| Broadcast(s, j, who, s');
    assert s.owner == Caller(j);
    WakesAll(s.workers, who);
    forall i | 0 <= i < |s'.workers| ensures !s'.workers[i].Waiting? && !s'.workers[i].Dozing? {
      assert !Sleeps(s'.workers, i) && !HasLock(s.workers[i]);
    }
  }

  lemma {:induction false} StillDestroyed(s: Pool, s': Pool, c: Client)
    requires Destroyed(s, c) && |s'.terminate| == |s.terminate| && (s.broadcast ==> s'.broadcast)
    requires forall i :: 0 <= i < |s.terminate| && s.terminate[i] ==> s'.terminate[i]
    ensures Destroyed(s', c)
  {
  }

  lemma {:induction false} ClientKeepsEnding(s: Pool, j: nat, s': Pool)
    requires Locked(s) && Ending(s) && Acts(s, j, s')
    ensures Ending(s')
  {
    hide ClientStep, Destroyed, Locked, Awake;
    assert Destroyed(s, s.clients[j]);
    ActsOnWorkers(s, j, s');
    ActsOnEnd(s, j, s');
    if s.clients[j].Closing? {
      FlagsSet(s, j);
      ClosingWakes(s, j, s');
      ClosingBroadcasts(s, j, s');
    } else if s.broadcast {
      StillAwake(s, s');
    }
    forall k | 0 <= k < |s'.clients| ensures Destroyed(s', s'.clients[k]) {
      if k != j {
        StillDestroyed(s, s', s.clients[k]);
      }
    }
  }

  lemma {:induction false} FlagsSet(s: Pool, j: nat)
    requires j < |s.clients| && s.clients[j].Closing? && Destroyed(s, s.clients[j])
    ensures AllFlagged(s)
  {
  }

  lemma {:induction false} ClosingBroadcasts(s: Pool, j: nat, s': Pool)
    requires Acts(s, j, s') && s.clients[j].Closing?
    ensures s'.broadcast
  {
  }

  lemma {:induction false} StillAwake(s: Pool, s': Pool)
    requires Awake(s) && |s'.workers| == |s.workers| && |s'.terminate| == |s.terminate|
    requires forall i :: 0 <= i < |s.workers| ==>
               s'.workers[i] == s.workers[i] || (s.workers[i].Waiting? && s'.workers[i].Woken?)
    requires forall i :: 0 <= i < |s.terminate| && s.terminate[i] ==> s'.terminate[i]
    ensures Awake(s')
  {
  }

  lemma {:induction false} NextKeepsInv(s: Pool, s': Pool)
    requires Inv(s) && Next(s, s')
    ensures Inv(s')
  {
    hide Locked, Accounted, Seen, NoLostWakeup, Ending, WorkerStep, ClientStep;
    var i: nat :| Works(s, i, s') || WakesUp(s, i, s') || Acts(s, i, s');
    if Works(s, i, s') {
      WorkerKeepsInv(s, i);
    } else if WakesUp(s, i, s') {
      WakeUpKeepsInv(s, i);
    } else {
      hide Acts;
      ClientKeepsLocked(s, i, s');
      ClientKeepsAccounts(s, i, s');
      ClientKeepsSeen(s, i, s');
      ClientKeepsWakeups(s, i, s');
      ClientKeepsEnding(s, i, s');
    }
  }

  lemma {:induction false} CountNone(workers: seq<Pc>, q: Query)
    requires forall i :: 0 <= i < |workers| ==> !Meets(workers[i], q)
    ensures Count(workers, q) == 0
  {
    if workers != [] {
      var last := |workers| - 1;
      assert forall i :: 0 <= i < last ==> workers[..last][i] == workers[i];
      CountNone(workers[..last], q);
    }
  }

  lemma {:induction false} InitInv(s: Pool)
    requires Init(s)
    ensures Inv(s)
  {
    forall t: Task ensures Count(s.workers, Takers(t)) == 0 && Count(s.workers, Runners(t)) == 0 {
      CountNone(s.workers, Takers(t));
      CountNone(s.workers, Runners(t));
    }
  }

  lemma {:induction false} RunKeepsInv(ss: seq<Pool>, n: nat)
    requires Run(ss) && n < |ss|
    ensures Inv(ss[n])
  {
    hide Inv, Next, Init;
    if n == 0 {
      InitInv(ss[0]);
    } else {
      RunKeepsInv(ss, n - 1);
      assert Next(ss[n - 1], ss[(n - 1) + 1]);
      NextKeepsInv(ss[n - 1], ss[n]);
    }
  }

  // ---------- what the pool promises, in every state of every run ----------

  /** A task runs at most once, and a pushed task is in exactly one place: in the list, with one worker,
      or finished. A worker about to take a task finds one. */
  lemma {:induction false} EveryTaskOnce(ss: seq<Pool>, n: nat, t: Task)
    requires Run(ss) && n < |ss|
    ensures var s := ss[n];
            && s.pushed[t] == multiset(s.queue)[t] + Count(s.workers, Takers(t)) + s.finished[t] <= 1
            && s.started[t] == Count(s.workers, Runners(t)) + s.finished[t] <= 1
            && forall i :: 0 <= i < |s.workers| && s.workers[i].Removing? ==> s.queue != []
  {
    RunKeepsInv(ss, n);
    var s := ss[n];
    hide Locked, NoLostWakeup, Ending, Count, Run;
    assert InOnePlace(s, t);
    assert Count(s.workers, Runners(t)) <= Count(s.workers, Takers(t)) by {
      CountAtMost(s.workers, s.workers, Runners(t), Takers(t));
    }
  }

  /** No wake-up is lost: before the pool is destroyed, whenever no thread has the lock and some worker
      sleeps, at least as many workers have been woken as there are tasks; so if all workers sleep, no
      task waits. */
  lemma {:induction false} NoWakeupLost(ss: seq<Pool>, n: nat)
    requires Run(ss) && n < |ss|
    requires var s := ss[n]; Unflagged(s) && s.owner == Free && exists i: nat :: Sleeps(s.workers, i)
    ensures var s := ss[n];
            && |s.queue| <= Count(s.workers, Wakened)
            && ((forall i :: 0 <= i < |s.workers| ==> s.workers[i] == Waiting) ==> s.queue == [])
  {
    RunKeepsInv(ss, n);
    var s := ss[n];
    assert SomeSleeps(s);
    hide Accounted, Seen, Ending, Count, Run;
    CountAtMost(s.workers, s.workers, Lookers, Wakened);
    if forall i :: 0 <= i < |s.workers| ==> s.workers[i] == Waiting {
      CountNone(s.workers, Wakened);
    }
  }

  /** After the broadcast of the destruction no worker sleeps, nor will it; and when the destroying call
      has returned, the broadcast was made. */
  lemma {:induction false} NoneLeftAsleep(ss: seq<Pool>, n: nat)
    requires Run(ss) && n < |ss|
    ensures var s := ss[n];
            && |s.terminate| == |s.workers|
            && (s.broadcast ==> forall i :: 0 <= i < |s.workers| ==>
                  s.workers[i] != Waiting && s.workers[i] != Dozing && s.terminate[i])
            && (Gone in s.clients ==> s.broadcast)
  {
    RunKeepsInv(ss, n);
    assert |ss[n].terminate| == |ss[n].workers| by { SameLength(ss[n]); }
    hide Locked, Accounted, Seen, NoLostWakeup, Run;
  }

  /** How many more steps of its own a worker of a closed pool needs to exit. */
  function Left(pc: Pc): nat {
    match pc
    case Removing => 7
    case Holding(_) => 6
    case Running(_) => 5
    case Starting => 4
    case Woken => 4
    case Testing => 3
    case Doubting => 2
    case Deciding => 1
    case Exited => 0
    case _ => 8
  }

  /** After the broadcast every worker exits: each step of its own brings it nearer, and only another
      thread's hold on the lock can keep it from stepping. */
  lemma {:induction false} WorkersExit(ss: seq<Pool>, n: nat, i: nat)
    requires Run(ss) && n < |ss| && ss[n].broadcast && i < |ss[n].workers|
    ensures var s := ss[n];
            && |s.terminate| == |s.workers| && Left(s.workers[i]) <= 7
            && var s' := WorkerStep(s, i);
               && |s'.workers| == |s.workers|
               && (s' != s ==> Left(s'.workers[i]) < Left(s.workers[i]))
               && (s.workers[i] != Exited && (s.owner == Free || s.owner == Worker(i)) ==> s' != s)
  {
    RunKeepsInv(ss, n);
    hide Accounted, NoLostWakeup, Run;
    StepNearer(ss[n], i);
  }

  lemma {:induction false} StepNearer(s: Pool, i: nat)
    requires Locked(s) && Seen(s) && i < |s.workers| && s.terminate[i]
    requires s.workers[i] != Waiting && s.workers[i] != Dozing
    ensures var s' := WorkerStep(s, i);
            && |s'.workers| == |s.workers| && Left(s.workers[i]) <= 7
            && (s' != s ==> Left(s'.workers[i]) < Left(s.workers[i]))
            && (s.workers[i] != Exited && (s.owner == Free || s.owner == Worker(i)) ==> s' != s)
  {
    var s' := WorkerStep(s, i);
    assert s.workers[i] != Exited && (s.owner == Free || s.owner == Worker(i)) ==> s'.workers[i] != s.workers[i];
  }
}
