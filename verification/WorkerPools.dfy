/**
 The worker pool of TinyWebServer/threadpool/threadpool.h together with the database
 connection pool of TinyWebServer/CGImysql/sql_connection_pool.cpp, as one system of
 interleaved steps. Every thread has a program counter; a step of the system is a step of
 one thread. `Sem` is a counter, `Locker` an owner.

 Which requests are handled with a connection (the actor mode, the request's state, the
 outcome of read_once) is left open: the event of a step says it.
 */
module WorkerPools {
  import opened Counting
  import opened Options
  import opened Sequences

  datatype Config<!C> = Config(
    maxRequests: nat,    // m_max_requests
    conns: seq<C>,       // the connections that init() made
    early: bool,         // m_queue_stat.wait() may return early, without taking the semaphore
    earlyReserve: bool   // so may reserve.wait()
  )

  /** Where a worker stands in run(), GetConnection() and ReleaseConnection(). */
  datatype Worker<R, C> =
    | Waiting                          // before m_queue_stat.wait()
    | Woken                            // past it, before m_queue_locker.lock()
    | Checking                         // holds the queue lock, before the test for empty
    | Backing                          // found the queue empty, before unlock()
    | Popping                          // found it not empty, before front() and pop_front()
    | Popped(r: R)                     // before unlock()
    | Handling(r: R)                   // has a request, holds no lock
    | Asking(r: R)                     // in GetConnection(), before the test for size 0
    | Reserving(r: R)                  // before reserve.wait()
    | Reserved(r: R)                   // past it, before lock.lock()
    | Taking(r: R)                     // holds the pool lock, before front() and pop_front()
    | Taken(r: R, conn: C)             // before lock.unlock()
    | Using(r: R, got: Option<C>)      // in process(), with a connection or with NULL
    | Returning(r: R, conn: C)         // in ReleaseConnection(), before lock.lock()
    | Giving(r: R, conn: C)            // holds the pool lock, before push_back()
    | Given(r: R)                      // before lock.unlock()
    | Posting(r: R)                    // before reserve.post()

  /** Where a producer stands in append() or append_p(). */
  datatype Producer<R> =
    | Idle
    | Locking(r: R)    // before m_queue_locker.lock()
    | Testing(r: R)    // holds the queue lock, before the test for full
    | Full             // found it full, before unlock()
    | Pushing(r: R)    // found room, before push_back()
    | Added            // before unlock()
    | Signalling       // before m_queue_stat.post()

  datatype Thread = W(i: nat) | P(j: nat)

  datatype State<R, C> = State(
    queue: seq<R>,               // m_work_queue
    queueSem: nat,               // m_queue_stat
    queueLock: Option<Thread>,   // m_queue_locker
    workers: seq<Worker<R, C>>,
    producers: seq<Producer<R>>,
    free: seq<C>,                // conn_list
    freeConn: int,               // m_free_conn
    curConn: int,                // m_cur_conn
    reserve: nat,                // reserve
    poolLock: Option<nat>,       // lock
    accepted: seq<R>,            // history: every request pushed, in order
    dispatched: seq<R>,          // history: every request popped, in order
    refused: seq<R>,             // history: every request turned away
    handled: seq<R>,             // history: every request that a worker is done with
    lent: seq<C>,                // history: every connection taken off the free list, in order
    returned: seq<C>             // history: every connection put back, in order
  )

  /** A step: worker i moves, taking `choice` where the code has one; and so on. */
  datatype Event<R> =
    | Work(i: nat, choice: bool)
    | WakeEarly(i: nat)            // a semaphore wait of worker i returns without success
    | Produce(j: nat)
    | Arrive(j: nat, r: R)         // producer j calls append

  ghost predicate WorkEnabled<R, C>(s: State<R, C>, i: nat) {
    i < |s.workers| &&
    match s.workers[i]
    case Waiting => s.queueSem > 0
    case Woken => s.queueLock.None?
    case Popping => s.queue != []
    case Reserving(_) => s.reserve > 0
    case Reserved(_) => s.poolLock.None?
    case Taking(_) => s.free != []
    case Returning(_, _) => s.poolLock.None?
    case _ => true
  }

  ghost predicate Enabled<R, C>(cfg: Config<C>, s: State<R, C>, e: Event<R>) {
    match e
    case Work(i, _) => WorkEnabled(s, i)
    case WakeEarly(i) =>
      i < |s.workers| && ((cfg.early && s.workers[i].Waiting?) || (cfg.earlyReserve && s.workers[i].Reserving?))
    case Produce(j) =>
      j < |s.producers| && !s.producers[j].Idle? && (s.producers[j].Locking? ==> s.queueLock.None?)
    case Arrive(j, _) => j < |s.producers| && s.producers[j].Idle?
  }

  ghost function Move<R, C>(s: State<R, C>, i: nat, w: Worker<R, C>): State<R, C>
    requires i < |s.workers|
  {
    s.(workers := s.workers[i := w])
  }

  /** The worker is done with its request. */
  ghost function Finish<R, C>(s: State<R, C>, i: nat, r: R): State<R, C>
    requires i < |s.workers|
  {
    Move(s, i, Waiting).(handled := s.handled + [r])
  }

  /** One step of run(), threadpool.h:143-204, with the connection pool inlined. */
  ghost function WorkApply<R, C>(s: State<R, C>, i: nat, choice: bool): State<R, C>
    requires WorkEnabled(s, i)
  {
    match s.workers[i]
    case Waiting => Move(s, i, Woken).(queueSem := s.queueSem - 1)
    case Woken => Move(s, i, Checking).(queueLock := Some(W(i)))
    case Checking => Move(s, i, if s.queue == [] then Backing else Popping)
    case Backing => Move(s, i, Waiting).(queueLock := None)
    case Popping =>
      Move(s, i, Popped(s.queue[0])).(queue := s.queue[1..], dispatched := s.dispatched + [s.queue[0]])
    case Popped(r) => Move(s, i, Handling(r)).(queueLock := None)
    case Handling(r) => if choice then Move(s, i, Asking(r)) else Finish(s, i, r)
    case Asking(r) => Move(s, i, if s.free == [] then Using(r, None) else Reserving(r))
    case Reserving(r) => Move(s, i, Reserved(r)).(reserve := s.reserve - 1)
    case Reserved(r) => Move(s, i, Taking(r)).(poolLock := Some(i))
    case Taking(r) =>
      Move(s, i, Taken(r, s.free[0])).(free := s.free[1..], freeConn := s.freeConn - 1, curConn := s.curConn + 1,
                                       lent := s.lent + [s.free[0]])
    case Taken(r, c) => Move(s, i, Using(r, Some(c))).(poolLock := None)
    case Using(r, got) => if got.Some? then Move(s, i, Returning(r, got.value)) else Finish(s, i, r)
    case Returning(r, c) => Move(s, i, Giving(r, c)).(poolLock := Some(i))
    case Giving(r, c) =>
      Move(s, i, Given(r)).(free := s.free + [c], freeConn := s.freeConn + 1, curConn := s.curConn - 1,
                            returned := s.returned + [c])
    case Given(r) => Move(s, i, Posting(r)).(poolLock := None)
    case Posting(r) => Finish(s, i, r).(reserve := s.reserve + 1)
  }

  ghost function Shift<R, C>(s: State<R, C>, j: nat, p: Producer<R>): State<R, C>
    requires j < |s.producers|
  {
    s.(producers := s.producers[j := p])
  }

  /** One step of append() and append_p(), threadpool.h:98-132. */
  ghost function ProduceApply<R, C>(cfg: Config<C>, s: State<R, C>, j: nat): State<R, C>
    requires Enabled(cfg, s, Produce(j))
  {
    match s.producers[j]
    case Locking(r) => Shift(s, j, Testing(r)).(queueLock := Some(P(j)))
    case Testing(r) =>
      if |s.queue| >= cfg.maxRequests then Shift(s, j, Full).(refused := s.refused + [r]) else Shift(s, j, Pushing(r))
    case Full => Shift(s, j, Idle).(queueLock := None)
    case Pushing(r) => Shift(s, j, Added).(queue := s.queue + [r], accepted := s.accepted + [r])
    case Added => Shift(s, j, Signalling).(queueLock := None)
    case Signalling => Shift(s, j, Idle).(queueSem := s.queueSem + 1)
  }

  ghost function Apply<R, C>(cfg: Config<C>, s: State<R, C>, e: Event<R>): State<R, C>
    requires Enabled(cfg, s, e)
  {
    match e
    case Work(i, choice) => WorkApply(s, i, choice)
    case WakeEarly(i) => Move(s, i, if s.workers[i].Waiting? then Woken else Reserved(s.workers[i].r))
    case Produce(j) => ProduceApply(cfg, s, j)
    case Arrive(j, r) => Shift(s, j, Locking(r))
  }

  /** A run from `s`: every event is enabled when its turn comes. */
  ghost predicate CanRun<R, C>(cfg: Config<C>, s: State<R, C>, es: seq<Event<R>>)
    decreases es
  {
    es == [] || (Enabled(cfg, s, es[0]) && CanRun(cfg, Apply(cfg, s, es[0]), es[1..]))
  }

  ghost function Run<R, C>(cfg: Config<C>, s: State<R, C>, es: seq<Event<R>>): State<R, C>
    requires CanRun(cfg, s, es)
    decreases es
  {
    if es == [] then s else Run(cfg, Apply(cfg, s, es[0]), es[1..])
  }

  /** The constructors: nothing queued, every connection free, the semaphores at their counts. */
  ghost function Init<R, C>(cfg: Config<C>, workers: nat, producers: nat): State<R, C> {
    State([], 0, None, seq(workers, _ => Waiting), seq(producers, _ => Idle),
          cfg.conns, |cfg.conns|, 0, |cfg.conns|, None, [], [], [], [], [], [])
  }

  // ---------- The invariant ----------

  ghost predicate HoldsQueue<R, C>(w: Worker<R, C>) {
    w.Checking? || w.Backing? || w.Popping? || w.Popped?
  }

  ghost predicate HoldsQueueP<R>(p: Producer<R>) {
    p.Testing? || p.Full? || p.Pushing? || p.Added?
  }

  ghost predicate HoldsPool<R, C>(w: Worker<R, C>) {
    w.Taking? || w.Taken? || w.Giving? || w.Given?
  }

  /** The queue mutex is held by exactly the thread whose program counter says so. */
  ghost predicate QueueLockOk<R, C>(ws: seq<Worker<R, C>>, ps: seq<Producer<R>>, owner: Option<Thread>) {
    && (forall i :: 0 <= i < |ws| ==> (HoldsQueue(ws[i]) <==> owner == Some(W(i))))
    && (forall j :: 0 <= j < |ps| ==> (HoldsQueueP(ps[j]) <==> owner == Some(P(j))))
    && (owner.Some? ==> match owner.value case W(i) => i < |ws| case P(j) => j < |ps|)
  }

  /** So is the pool mutex. */
  ghost predicate PoolLockOk<R, C>(ws: seq<Worker<R, C>>, owner: Option<nat>) {
    && (forall i :: 0 <= i < |ws| ==> (HoldsPool(ws[i]) <==> owner == Some(i)))
    && (owner.Some? ==> owner.value < |ws|)
  }

  ghost predicate LocksOk<R, C>(s: State<R, C>) {
    QueueLockOk(s.workers, s.producers, s.queueLock) && PoolLockOk(s.workers, s.poolLock)
  }

  /** A thread takes a free mutex, gives back its own, or leaves it alone. */
  ghost predicate LockStep<T>(owner: Option<T>, owner': Option<T>, me: T, held: bool, held': bool) {
    || (held == held' && owner' == owner)
    || (owner.None? && owner' == Some(me) && held')
    || (owner == Some(me) && owner'.None? && !held')
  }

  lemma WorkerQueueLock<R, C>(ws: seq<Worker<R, C>>, ps: seq<Producer<R>>, owner: Option<Thread>, owner': Option<Thread>, i: nat, w: Worker<R, C>)
    requires QueueLockOk(ws, ps, owner) && i < |ws|
    requires LockStep(owner, owner', W(i), HoldsQueue(ws[i]), HoldsQueue(w))
    ensures QueueLockOk(ws[i := w], ps, owner')
  {
  }

  lemma ProducerQueueLock<R, C>(ws: seq<Worker<R, C>>, ps: seq<Producer<R>>, owner: Option<Thread>, owner': Option<Thread>, j: nat, p: Producer<R>)
    requires QueueLockOk(ws, ps, owner) && j < |ps|
    requires LockStep(owner, owner', P(j), HoldsQueueP(ps[j]), HoldsQueueP(p))
    ensures QueueLockOk(ws, ps[j := p], owner')
  {
  }

  lemma WorkerPoolLock<R, C>(ws: seq<Worker<R, C>>, owner: Option<nat>, owner': Option<nat>, i: nat, w: Worker<R, C>)
    requires PoolLockOk(ws, owner) && i < |ws|
    requires LockStep(owner, owner', i, HoldsPool(ws[i]), HoldsPool(w))
    ensures PoolLockOk(ws[i := w], owner')
  {
  }

  lemma WorkLocks<R, C>(s: State<R, C>, i: nat, choice: bool)
    requires LocksOk(s) && WorkEnabled(s, i)
    ensures var s' := WorkApply(s, i, choice);
      && |s'.workers| == |s.workers|
      && LockStep(s.queueLock, s'.queueLock, W(i), HoldsQueue(s.workers[i]), HoldsQueue(s'.workers[i]))
      && LockStep(s.poolLock, s'.poolLock, i, HoldsPool(s.workers[i]), HoldsPool(s'.workers[i]))
  {
  }

  lemma LocksKept<R, C>(cfg: Config<C>, s: State<R, C>, e: Event<R>)
    requires LocksOk(s) && Enabled(cfg, s, e)
    ensures LocksOk(Apply(cfg, s, e))
  {
    var s' := Apply(cfg, s, e);
    if e.Work? || e.WakeEarly? {
      MovesOne(cfg, s, e);
      var w := s'.workers[e.i];
      if e.Work? { WorkLocks(s, e.i, e.choice); }
      WorkerQueueLock(s.workers, s.producers, s.queueLock, s'.queueLock, e.i, w);
      WorkerPoolLock(s.workers, s.poolLock, s'.poolLock, e.i, w);
    } else {
      ProducerQueueLock(s.workers, s.producers, s.queueLock, s'.queueLock, e.j, s'.producers[e.j]);
    }
  }

  // Program points that the accounting counts. Each is a plain function, so that it can be passed to Count.

  /** Past the wait, before the pop. */
  ghost predicate BeforePop<R, C>(w: Worker<R, C>) {
    w.Woken? || w.Checking? || w.Popping?
  }

  /** Past the push, before the post. */
  ghost predicate BeforeSignal<R>(p: Producer<R>) {
    p.Added? || p.Signalling?
  }

  /** Past reserve.wait(), before the pop. */
  ghost predicate BeforeTake<R, C>(w: Worker<R, C>) {
    w.Reserved? || w.Taking?
  }

  /** Past the push, before reserve.post(). */
  ghost predicate BeforePost<R, C>(w: Worker<R, C>) {
    w.Given? || w.Posting?
  }

  /** The connection that a worker has taken off the free list and not put back. */
  ghost function InHand<R, C>(w: Worker<R, C>): Option<C> {
    match w
    case Taken(_, c) => Some(c)
    case Using(_, got) => got
    case Returning(_, c) => Some(c)
    case Giving(_, c) => Some(c)
    case _ => None
  }

  ghost function Held<R, C>(w: Worker<R, C>): multiset<C> {
    match InHand(w)
    case None => multiset{}
    case Some(c) => multiset{c}
  }

  ghost predicate Holding<R, C>(w: Worker<R, C>) {
    InHand(w).Some?
  }

  /** What queueSem and the threads in flight promise about the queue. */
  ghost function Promised<R, C>(s: State<R, C>): nat {
    s.queueSem + Count(s.workers, BeforePop) + Count(s.producers, BeforeSignal)
  }

  ghost predicate QueueOk<R, C>(cfg: Config<C>, s: State<R, C>) {
    && |s.queue| <= Promised(s) && (!cfg.early ==> |s.queue| == Promised(s))
    && s.dispatched + s.queue == s.accepted && |s.queue| <= cfg.maxRequests
    && GuardsOk(cfg, s)
  }

  /** What a thread that holds the queue lock found out about the queue is so. */
  ghost predicate GuardsOk<R, C>(cfg: Config<C>, s: State<R, C>) {
    && (forall i :: 0 <= i < |s.workers| ==> WorkerOk(cfg, s.workers[i], s.queue))
    && (forall j :: 0 <= j < |s.producers| ==> ProducerOk(cfg, s.producers[j], s.queue))
  }

  ghost predicate WorkerOk<R, C>(cfg: Config<C>, w: Worker<R, C>, queue: seq<R>) {
    (w.Popping? ==> queue != []) && (!cfg.early ==> !w.Backing?)
  }

  ghost predicate ProducerOk<R, C>(cfg: Config<C>, p: Producer<R>, queue: seq<R>) {
    p.Pushing? ==> |queue| < cfg.maxRequests
  }

  /** What reserve and the workers in flight promise about the free list. */
  ghost function Reservable<R, C>(s: State<R, C>): nat {
    s.reserve + Count(s.workers, BeforeTake) + Count(s.workers, BeforePost)
  }

  ghost predicate PoolOk<R, C>(cfg: Config<C>, s: State<R, C>) {
    && multiset(s.free) + Gather(s.workers, Held) == multiset(cfg.conns)
    && s.freeConn == |s.free|
    && s.curConn == Count(s.workers, Holding)
    && |s.free| <= Reservable(s) && (!cfg.earlyReserve ==> |s.free| == Reservable(s))
  }

  ghost predicate Inv<R, C>(cfg: Config<C>, s: State<R, C>) {
    LocksOk(s) && QueueOk(cfg, s) && PoolOk(cfg, s)
  }

  // ---------- Every step keeps it ----------

  /** If what one worker gains is what the free list loses, nothing appears or disappears. */
  lemma Conserve<C>(free: multiset<C>, all: multiset<C>, h: multiset<C>, free': multiset<C>, all': multiset<C>, h': multiset<C>, total: multiset<C>)
    requires free + all == total && all' + h == all + h' && free' + h' == free + h
    ensures free' + all' == total
  {
    var a, b := free' + all' + h + h', free + all + h + h';
    assert a == (free' + h') + (all' + h);
    assert b == (free + h) + (all + h');
    Cancel(free' + all', free + all, h, h');
  }

  lemma Cancel<C>(a: multiset<C>, b: multiset<C>, h: multiset<C>, h': multiset<C>)
    requires a + h + h' == b + h + h'
    ensures a == b
  {
    assert a == (a + h + h') - h' - h;
    assert b == (b + h + h') - h' - h;
  }

  /** The free list and one worker's hands exchange at most one connection. */
  ghost predicate Exchange<R, C>(s: State<R, C>, s': State<R, C>, i: nat)
    requires i < |s.workers|
  {
    && |s'.workers| == |s.workers| && s'.workers == s.workers[i := s'.workers[i]]
    && multiset(s'.free) + Held(s'.workers[i]) == multiset(s.free) + Held(s.workers[i])
    && |s'.free| - s'.freeConn == |s.free| - s.freeConn
    && s'.curConn - s.curConn == |Held(s'.workers[i])| - |Held(s.workers[i])|
  }

  lemma WorkExchange<R, C>(cfg: Config<C>, s: State<R, C>, e: Event<R>)
    requires Enabled(cfg, s, e) && (e.Work? || e.WakeEarly?)
    ensures Exchange(s, Apply(cfg, s, e), e.i)
  {
    var s', w := Apply(cfg, s, e), s.workers[e.i];
    if e.Work? && w.Taking? {
      TakeExchange(s, e.i, e.choice);
    } else if e.Work? && w.Giving? {
      GiveExchange(s, e.i, e.choice);
    } else {
      MovesOne(cfg, s, e);
      OtherExchange(cfg, s, e);
    }
  }

  /** Every other step leaves the free list, the counters and the worker's hands alone. */
  lemma OtherExchange<R, C>(cfg: Config<C>, s: State<R, C>, e: Event<R>)
    requires Enabled(cfg, s, e) && (e.Work? || e.WakeEarly?)
    requires e.Work? ==> !s.workers[e.i].Taking? && !s.workers[e.i].Giving?
    ensures var s' := Apply(cfg, s, e);
      && s'.free == s.free && s'.freeConn == s.freeConn && s'.curConn == s.curConn
      && |s'.workers| == |s.workers| && InHand(s'.workers[e.i]) == InHand(s.workers[e.i])
  {
    if e.Work? { OtherWork(s, e.i, e.choice); }
  }

  lemma OtherWork<R, C>(s: State<R, C>, i: nat, choice: bool)
    requires WorkEnabled(s, i) && !s.workers[i].Taking? && !s.workers[i].Giving?
    ensures var s' := WorkApply(s, i, choice);
      && s'.free == s.free && s'.freeConn == s.freeConn && s'.curConn == s.curConn
      && |s'.workers| == |s.workers| && InHand(s'.workers[i]) == InHand(s.workers[i])
  {
  }

  /** A step of a worker moves that worker and no other thread. */
  lemma MovesOne<R, C>(cfg: Config<C>, s: State<R, C>, e: Event<R>)
    requires Enabled(cfg, s, e) && (e.Work? || e.WakeEarly?)
    ensures var s' := Apply(cfg, s, e);
      && |s'.workers| == |s.workers| && s'.workers == s.workers[e.i := s'.workers[e.i]]
      && s'.producers == s.producers
  {
    if e.Work? { WorkMovesOne(s, e.i, e.choice); }
  }

  lemma WorkMovesOne<R, C>(s: State<R, C>, i: nat, choice: bool)
    requires WorkEnabled(s, i)
    ensures var s' := WorkApply(s, i, choice);
      && |s'.workers| == |s.workers| && s'.workers == s.workers[i := s'.workers[i]]
      && s'.producers == s.producers
  {
  }

  lemma TakeExchange<R, C>(s: State<R, C>, i: nat, choice: bool)
    requires WorkEnabled(s, i) && s.workers[i].Taking?
    ensures Exchange(s, WorkApply(s, i, choice), i)
  {
    assert s.free == [s.free[0]] + s.free[1..];
  }

  lemma GiveExchange<R, C>(s: State<R, C>, i: nat, choice: bool)
    requires WorkEnabled(s, i) && s.workers[i].Giving?
    ensures Exchange(s, WorkApply(s, i, choice), i)
  {
  }

  lemma ConservationKept<R, C>(cfg: Config<C>, s: State<R, C>, e: Event<R>)
    requires PoolOk(cfg, s) && Enabled(cfg, s, e) && (e.Work? || e.WakeEarly?)
    ensures var s' := Apply(cfg, s, e);
      && multiset(s'.free) + Gather(s'.workers, Held) == multiset(cfg.conns)
      && s'.freeConn == |s'.free| && s'.curConn == Count(s'.workers, Holding)
  {
    var s' := Apply(cfg, s, e);
    var ws, i, w := s.workers, e.i, s'.workers[e.i];
    WorkExchange(cfg, s, e);
    CountUpdate(ws, i, w, Holding);
    GatherUpdate(ws, i, w, Held);
    Conserve(multiset(s.free), Gather(ws, Held), Held(ws[i]), multiset(s'.free), Gather(s'.workers, Held), Held(w),
             multiset(cfg.conns));
  }

  lemma ReserveKept<R, C>(cfg: Config<C>, s: State<R, C>, e: Event<R>)
    requires PoolOk(cfg, s) && Enabled(cfg, s, e) && (e.Work? || e.WakeEarly?)
    ensures var s' := Apply(cfg, s, e);
      |s'.free| <= Reservable(s') && (!cfg.earlyReserve ==> |s'.free| == Reservable(s'))
  {
    var s' := Apply(cfg, s, e);
    MovesOne(cfg, s, e);
    CountUpdate(s.workers, e.i, s'.workers[e.i], BeforeTake);
    CountUpdate(s.workers, e.i, s'.workers[e.i], BeforePost);
    if e.Work? { WorkReserve(s, e.i, e.choice); }
  }

  /** The free list less what reserve and one worker promise of it. */
  ghost function ReserveBalance<R, C>(s: State<R, C>, i: nat): int
    requires i < |s.workers|
  {
    |s.free| - s.reserve - (if BeforeTake(s.workers[i]) then 1 else 0) - (if BeforePost(s.workers[i]) then 1 else 0)
  }

  lemma WorkReserve<R, C>(s: State<R, C>, i: nat, choice: bool)
    requires WorkEnabled(s, i)
    ensures var s' := WorkApply(s, i, choice); |s'.workers| == |s.workers| && ReserveBalance(s', i) == ReserveBalance(s, i)
  {
  }

  lemma PoolKept<R, C>(cfg: Config<C>, s: State<R, C>, e: Event<R>)
    requires PoolOk(cfg, s) && Enabled(cfg, s, e)
    ensures PoolOk(cfg, Apply(cfg, s, e))
  {
    if e.Work? || e.WakeEarly? {
      ConservationKept(cfg, s, e);
      ReserveKept(cfg, s, e);
    } else {
      ProducerLeavesPool(cfg, s, e);
    }
  }

  lemma ProducerLeavesPool<R, C>(cfg: Config<C>, s: State<R, C>, e: Event<R>)
    requires Enabled(cfg, s, e) && (e.Produce? || e.Arrive?)
    ensures var s' := Apply(cfg, s, e);
      && s'.workers == s.workers && s'.free == s.free && s'.freeConn == s.freeConn
      && s'.curConn == s.curConn && s'.reserve == s.reserve && s'.poolLock == s.poolLock
  {
  }

  /** The accounting of the queue: a step changes both sides alike. */
  lemma AccountKept<R, C>(cfg: Config<C>, s: State<R, C>, e: Event<R>)
    requires LocksOk(s) && QueueOk(cfg, s) && Enabled(cfg, s, e)
    ensures var s' := Apply(cfg, s, e);
      |s'.queue| <= Promised(s') && (!cfg.early ==> |s'.queue| == Promised(s'))
  {
    var s' := Apply(cfg, s, e);
    if e.Work? || e.WakeEarly? {
      AccountWork(cfg, s, e);
    } else {
      CountUpdate(s.producers, e.j, s'.producers[e.j], BeforeSignal);
      ProducerLeavesPool(cfg, s, e);
    }
  }

  lemma AccountWork<R, C>(cfg: Config<C>, s: State<R, C>, e: Event<R>)
    requires LocksOk(s) && QueueOk(cfg, s) && Enabled(cfg, s, e) && (e.Work? || e.WakeEarly?)
    ensures var s' := Apply(cfg, s, e);
      |s'.queue| <= Promised(s') && (!cfg.early ==> |s'.queue| == Promised(s'))
  {
    var s' := Apply(cfg, s, e);
    MovesOne(cfg, s, e);
    CountUpdate(s.workers, e.i, s'.workers[e.i], BeforePop);
    if e.Work? {
      WorkBalance(s, e.i, e.choice);
      if s.workers[e.i].Checking? && s.queue == [] { SomeonePops(s, e.i); }
    }
  }

  lemma SomeonePops<R, C>(s: State<R, C>, i: nat)
    requires i < |s.workers| && BeforePop(s.workers[i])
    ensures Count(s.workers, BeforePop) > 0
  {
    CountPositive(s.workers, BeforePop);
  }

  /** The queue less what the semaphore and one worker promise of it. */
  ghost function Balance<R, C>(s: State<R, C>, i: nat): int
    requires i < |s.workers|
  {
    |s.queue| - s.queueSem - (if BeforePop(s.workers[i]) then 1 else 0)
  }

  /** A worker's step leaves the balance alone, unless it found the queue empty. */
  lemma WorkBalance<R, C>(s: State<R, C>, i: nat, choice: bool)
    requires WorkEnabled(s, i)
    ensures var s' := WorkApply(s, i, choice);
      && |s'.workers| == |s.workers|
      && if s.workers[i].Checking? && s.queue == [] then s'.queue == [] else Balance(s', i) == Balance(s, i)
  {
  }

  lemma QueueKept<R, C>(cfg: Config<C>, s: State<R, C>, e: Event<R>)
    requires LocksOk(s) && QueueOk(cfg, s) && Enabled(cfg, s, e)
    ensures QueueOk(cfg, Apply(cfg, s, e))
  {
    AccountKept(cfg, s, e);
    HistoryKept(cfg, s, e);
    GuardsKept(cfg, s, e);
  }

  lemma GuardsKept<R, C>(cfg: Config<C>, s: State<R, C>, e: Event<R>)
    requires LocksOk(s) && QueueOk(cfg, s) && Enabled(cfg, s, e)
    ensures GuardsOk(cfg, Apply(cfg, s, e))
  {
    var s' := Apply(cfg, s, e);
    ThreadsFixed(cfg, s, e);
    forall i | 0 <= i < |s'.workers| ensures WorkerOk(cfg, s'.workers[i], s'.queue) {
      WorkerGuards(cfg, s, e, i);
    }
    forall j | 0 <= j < |s'.producers| ensures ProducerOk(cfg, s'.producers[j], s'.queue) {
      ProducerGuards(cfg, s, e, j);
    }
  }

  lemma ThreadsFixed<R, C>(cfg: Config<C>, s: State<R, C>, e: Event<R>)
    requires Enabled(cfg, s, e)
    ensures |Apply(cfg, s, e).workers| == |s.workers| && |Apply(cfg, s, e).producers| == |s.producers|
  {
    if e.Work? || e.WakeEarly? { MovesOne(cfg, s, e); } else { ProducerLeavesPool(cfg, s, e); }
  }

  lemma HistoryKept<R, C>(cfg: Config<C>, s: State<R, C>, e: Event<R>)
    requires QueueOk(cfg, s) && Enabled(cfg, s, e)
    ensures var s' := Apply(cfg, s, e);
      s'.dispatched + s'.queue == s'.accepted && |s'.queue| <= cfg.maxRequests
  {
    if e.Work? && s.workers[e.i].Popping? {
      assert s.queue == [s.queue[0]] + s.queue[1..];
    } else if e.Produce? && s.producers[e.j].Pushing? {
      assert s.dispatched + (s.queue + [s.producers[e.j].r]) == (s.dispatched + s.queue) + [s.producers[e.j].r];
    }
  }

  /** Only the owner of the queue lock changes the queue. */
  lemma QueueChange<R, C>(cfg: Config<C>, s: State<R, C>, e: Event<R>)
    requires LocksOk(s) && Enabled(cfg, s, e)
    ensures var s' := Apply(cfg, s, e);
      s'.queue != s.queue ==>
        s.queueLock == Some(if e.Work? || e.WakeEarly? then W(e.i) else P(e.j))
  {
  }

  /** What a worker sees in its own step. */
  lemma WorkSees<R, C>(s: State<R, C>, i: nat, choice: bool)
    requires WorkEnabled(s, i)
    ensures var s' := WorkApply(s, i, choice);
      && |s'.workers| == |s.workers|
      && (s'.workers[i].Popping? ==> s'.queue != [])
      && (s'.workers[i].Backing? ==> s.workers[i].Checking? && s.queue == [])
  {
  }

  /** What a worker found out about the queue stays true while it holds the lock. */
  lemma WorkerGuards<R, C>(cfg: Config<C>, s: State<R, C>, e: Event<R>, i: nat)
    requires LocksOk(s) && QueueOk(cfg, s) && Enabled(cfg, s, e) && i < |s.workers|
    ensures var s' := Apply(cfg, s, e);
      |s'.workers| == |s.workers| && WorkerOk(cfg, s'.workers[i], s'.queue)
  {
    assert WorkerOk(cfg, s.workers[i], s.queue);
    if e.Work? || e.WakeEarly? { MovesOne(cfg, s, e); } else { ProducerLeavesPool(cfg, s, e); }
    if e.Work? && e.i == i {
      WorkSees(s, i, e.choice);
      if s.workers[i].Checking? { SomeonePops(s, i); }
    } else {
      QueueChange(cfg, s, e);
    }
  }

  lemma ProducerGuards<R, C>(cfg: Config<C>, s: State<R, C>, e: Event<R>, j: nat)
    requires LocksOk(s) && QueueOk(cfg, s) && Enabled(cfg, s, e) && j < |s.producers|
    ensures var s' := Apply(cfg, s, e);
      |s'.producers| == |s.producers| && ProducerOk(cfg, s'.producers[j], s'.queue)
  {
    assert ProducerOk(cfg, s.producers[j], s.queue);
    if e.Work? || e.WakeEarly? { MovesOne(cfg, s, e); }
    QueueChange(cfg, s, e);
  }

  lemma InvKept<R, C>(cfg: Config<C>, s: State<R, C>, e: Event<R>)
    requires Inv(cfg, s) && Enabled(cfg, s, e)
    ensures Inv(cfg, Apply(cfg, s, e))
  {
    LocksKept(cfg, s, e);
    QueueKept(cfg, s, e);
    PoolKept(cfg, s, e);
  }

  // ---------- Safety over whole runs ----------

  lemma InitInv<R, C>(cfg: Config<C>, workers: nat, producers: nat)
    ensures Inv(cfg, Init<R, C>(cfg, workers, producers))
  {
    var s := Init<R, C>(cfg, workers, producers);
    CountNone(s.workers, BeforePop);
    CountNone(s.producers, BeforeSignal);
    CountNone(s.workers, Holding);
    CountNone(s.workers, BeforeTake);
    CountNone(s.workers, BeforePost);
    GatherNone(s.workers, Held);
  }

  lemma {:induction false} RunKeeps<R, C>(cfg: Config<C>, s: State<R, C>, es: seq<Event<R>>)
    requires Inv(cfg, s) && CanRun(cfg, s, es)
    ensures Inv(cfg, Run(cfg, s, es))
    decreases es
  {
    if es != [] {
      InvKept(cfg, s, es[0]);
      RunKeeps(cfg, Apply(cfg, s, es[0]), es[1..]);
    }
  }

  /** `s` is reached from the start of a system with so many workers and producers. */
  ghost predicate Reachable<R(!new), C>(cfg: Config<C>, workers: nat, producers: nat, s: State<R, C>) {
    exists es :: CanRun(cfg, Init<R, C>(cfg, workers, producers), es) && Run(cfg, Init<R, C>(cfg, workers, producers), es) == s
  }

  /** The accounting holds in every reachable state. */
  lemma ReachableInv<R(!new), C>(cfg: Config<C>, workers: nat, producers: nat, s: State<R, C>)
    requires Reachable(cfg, workers, producers, s)
    ensures Inv(cfg, s)
  {
    var s0 := Init<R, C>(cfg, workers, producers);
    var es :| CanRun(cfg, s0, es) && Run(cfg, s0, es) == s;
    InitInv<R, C>(cfg, workers, producers);
    RunKeeps(cfg, s0, es);
  }

  /** Requests are dispatched in the order of acceptance, each acceptance at most once. */
  lemma DispatchedInOrder<R(!new), C>(cfg: Config<C>, workers: nat, producers: nat, s: State<R, C>)
    requires Reachable(cfg, workers, producers, s)
    ensures s.dispatched <= s.accepted && |s.accepted| - |s.dispatched| == |s.queue| <= cfg.maxRequests
  {
    ReachableInv(cfg, workers, producers, s);
  }

  /** With successful waits, the empty-queue branch of run() is never taken. */
  lemma EmptyBranchDead<R(!new), C>(cfg: Config<C>, workers: nat, producers: nat, s: State<R, C>, i: nat)
    requires Reachable(cfg, workers, producers, s) && !cfg.early && i < |s.workers|
    ensures !s.workers[i].Backing? && (s.workers[i].Checking? ==> s.queue != [])
    ensures |s.queue| == Promised(s)
  {
    ReachableInv(cfg, workers, producers, s);
    CountPositive(s.workers, BeforePop);
    assert BeforePop(s.workers[i]) ==> Count(s.workers, BeforePop) > 0;
  }

  lemma {:induction false} OnceInMultiset<C>(s: seq<C>, c: C)
    requires NoDuplicates(s)
    ensures multiset(s)[c] <= 1
  {
    if s != [] {
      assert s == [s[0]] + s[1..];
      OnceInMultiset(s[1..], c);
      assert forall i :: 0 <= i < |s[1..]| ==> s[1..][i] == s[i + 1] != s[0];
    }
  }

  /** No connection is in two hands, or in a hand and on the free list. */
  lemma NoSharing<R(!new), C>(cfg: Config<C>, workers: nat, producers: nat, s: State<R, C>, i: nat, c: C)
    requires Reachable(cfg, workers, producers, s) && NoDuplicates(cfg.conns)
    requires i < |s.workers| && InHand(s.workers[i]) == Some(c)
    ensures c !in s.free && c in cfg.conns
    ensures forall j :: 0 <= j < |s.workers| && j != i ==> InHand(s.workers[j]) != Some(c)
  {
    ReachableInv(cfg, workers, producers, s);
    OnceInMultiset(cfg.conns, c);
    var all := Gather(s.workers, Held);
    GatherContains(s.workers, i, Held);
    assert all[c] >= 1 && multiset(cfg.conns)[c] == multiset(s.free)[c] + all[c];
    forall j | 0 <= j < |s.workers| && j != i ensures InHand(s.workers[j]) != Some(c) {
      if i < j { GatherTwo(s.workers, i, j, Held); } else { GatherTwo(s.workers, j, i, Held); }
      assert InHand(s.workers[j]) == Some(c) ==> (Held(s.workers[i]) + Held(s.workers[j]))[c] == 2;
    }
  }

  /** The counters of the pool, and the conservation of connections. */
  lemma PoolCounters<R(!new), C>(cfg: Config<C>, workers: nat, producers: nat, s: State<R, C>)
    requires Reachable(cfg, workers, producers, s)
    ensures s.freeConn == |s.free| && s.curConn == Count(s.workers, Holding)
    ensures s.freeConn + s.curConn == |cfg.conns|
    ensures multiset(s.free) + Gather(s.workers, Held) == multiset(cfg.conns)
  {
    ReachableInv(cfg, workers, producers, s);
    ConnectionsCounted(cfg, s);
  }

  lemma HandsCounted<R, C>(ws: seq<Worker<R, C>>)
    ensures |Gather(ws, Held)| == Count(ws, Holding)
  {
    GatherSize(ws, Held, Holding);
  }

  /** front() is never taken on an empty free list, if waits succeed or workers do not outnumber connections. */
  lemma FrontSafe<R(!new), C>(cfg: Config<C>, workers: nat, producers: nat, s: State<R, C>, i: nat)
    requires Reachable(cfg, workers, producers, s)
    requires !cfg.earlyReserve || workers <= |cfg.conns|
    requires i < |s.workers| && s.workers[i].Taking?
    ensures s.free != []
  {
    ReachableInv(cfg, workers, producers, s);
    WorkersFixed(cfg, workers, producers, s);
    TakingFinds(cfg, s, i);
  }

  /** A worker at front() finds a connection. */
  lemma TakingFinds<R, C>(cfg: Config<C>, s: State<R, C>, i: nat)
    requires PoolOk(cfg, s) && i < |s.workers| && s.workers[i].Taking?
    requires !cfg.earlyReserve || |s.workers| <= |cfg.conns|
    ensures s.free != []
  {
    if !cfg.earlyReserve {
      CountPositive(s.workers, BeforeTake);
      assert BeforeTake(s.workers[i]);
    } else {
      ConnectionsCounted(cfg, s);
      CountBelow(s.workers, i, Holding);
    }
  }

  lemma ConnectionsCounted<R, C>(cfg: Config<C>, s: State<R, C>)
    requires PoolOk(cfg, s)
    ensures |s.free| + Count(s.workers, Holding) == |cfg.conns|
  {
    HandsCounted(s.workers);
    assert |multiset(s.free) + Gather(s.workers, Held)| == |s.free| + |Gather(s.workers, Held)|;
  }

  lemma {:induction false} RunWorkers<R, C>(cfg: Config<C>, s: State<R, C>, es: seq<Event<R>>)
    requires CanRun(cfg, s, es)
    ensures |Run(cfg, s, es).workers| == |s.workers| && |Run(cfg, s, es).producers| == |s.producers|
    decreases es
  {
    if es != [] {
      ThreadsFixed(cfg, s, es[0]);
      RunWorkers(cfg, Apply(cfg, s, es[0]), es[1..]);
    }
  }

  lemma WorkersFixed<R(!new), C>(cfg: Config<C>, workers: nat, producers: nat, s: State<R, C>)
    requires Reachable(cfg, workers, producers, s)
    ensures |s.workers| == workers && |s.producers| == producers
  {
    var s0 := Init<R, C>(cfg, workers, producers);
    var es :| CanRun(cfg, s0, es) && Run(cfg, s0, es) == s;
    RunWorkers(cfg, s0, es);
  }

  // ---------- No deadlock ----------

  /** Nothing is left to do: the queue is empty, workers wait for requests, producers are outside. */
  ghost predicate Quiescent<R, C>(s: State<R, C>) {
    && s.queue == []
    && (forall i :: 0 <= i < |s.workers| ==> s.workers[i].Waiting?)
    && (forall j :: 0 <= j < |s.producers| ==> s.producers[j].Idle?)
  }

  /** A step that the system takes by itself: no new request, no failing wait. */
  ghost predicate Internal<R>(e: Event<R>) {
    e.Work? || e.Produce?
  }

  /** Holds a connection, is past its wait but before its pop, or past its push but before its post. */
  ghost predicate OnTheWay<R, C>(w: Worker<R, C>) {
    Holding(w) || BeforeTake(w) || BeforePost(w)
  }

  /** A worker blocked in reserve.wait() waits for another worker that is on its way to post. */
  lemma BlockedOnOther<R(!new), C>(cfg: Config<C>, workers: nat, producers: nat, s: State<R, C>, i: nat)
    requires Reachable(cfg, workers, producers, s) && cfg.conns != []
    requires i < |s.workers| && s.workers[i].Reserving? && s.reserve == 0
    ensures exists j :: 0 <= j < |s.workers| && j != i && OnTheWay(s.workers[j])
  {
    ReachableInv(cfg, workers, producers, s);
    SomeoneHolds(cfg, s);
  }

  lemma SomeoneHolds<R, C>(cfg: Config<C>, s: State<R, C>)
    requires PoolOk(cfg, s) && cfg.conns != [] && s.reserve == 0
    ensures exists j :: 0 <= j < |s.workers| && OnTheWay(s.workers[j])
  {
    CountPositive(s.workers, Holding);
    CountPositive(s.workers, BeforeTake);
    CountPositive(s.workers, BeforePost);
    ConnectionsCounted(cfg, s);
  }

  /** front() is safe: the waits succeed, workers do not outnumber connections, or nobody gets there. */
  ghost predicate FrontSound<C>(cfg: Config<C>, workers: nat) {
    !cfg.earlyReserve || workers <= |cfg.conns| || cfg.conns == []
  }

  /** With such a configuration, and the accounting. */
  ghost predicate Sound<R, C>(cfg: Config<C>, s: State<R, C>) {
    Inv(cfg, s) && FrontSound(cfg, |s.workers|) && (cfg.conns == [] ==> NeverAsked(s))
  }

  /** Whoever holds a mutex, or is neither at a wait nor before a held mutex, can move. */
  lemma CanMove<R, C>(cfg: Config<C>, s: State<R, C>, i: nat)
    requires Sound(cfg, s) && i < |s.workers|
    ensures WorkEnabled(s, i) ||
      match s.workers[i]
      case Waiting => s.queueSem == 0
      case Woken => s.queueLock.Some?
      case Reserving(_) => s.reserve == 0
      case Reserved(_) => s.poolLock.Some?
      case Returning(_, _) => s.poolLock.Some?
      case _ => false
  {
    if s.workers[i].Taking? && cfg.conns != [] {
      TakingFinds(cfg, s, i);
    }
  }

  /** The owner of a mutex can move. */
  lemma OwnerMoves<R, C>(cfg: Config<C>, s: State<R, C>) returns (e: Event<R>)
    requires Sound(cfg, s) && (s.queueLock.Some? || s.poolLock.Some?)
    ensures Internal(e) && Enabled(cfg, s, e)
  {
    if s.poolLock.Some? {
      CanMove(cfg, s, s.poolLock.value);
      e := Work(s.poolLock.value, true);
    } else {
      match s.queueLock.value
      case W(i) =>
        CanMove(cfg, s, i);
        e := Work(i, true);
      case P(j) =>
        e := Produce(j);
    }
  }

  /** With both mutexes free, only workers at an exhausted wait, and idle producers, cannot move. */
  lemma FreeMoves<R, C>(cfg: Config<C>, s: State<R, C>) returns (e: Event<R>)
    requires Sound(cfg, s) && s.queueLock.None? && s.poolLock.None?
    requires |s.workers| > 0 && !Quiescent(s)
    ensures Internal(e) && Enabled(cfg, s, e)
  {
    if j :| 0 <= j < |s.producers| && !s.producers[j].Idle? {
      return Produce(j);
    }
    if i :| 0 <= i < |s.workers| && !s.workers[i].Waiting? && !s.workers[i].Reserving? {
      CanMove(cfg, s, i);
      return Work(i, true);
    }
    if i :| 0 <= i < |s.workers| && s.workers[i].Reserving? {
      if s.reserve == 0 { SomeoneHolds(cfg, s); }
      return Work(i, true);
    }
    CountNone(s.workers, BeforePop);
    CountNone(s.producers, BeforeSignal);
    e := Work(0, true);
  }

  lemma ReachableSound<R(!new), C>(cfg: Config<C>, workers: nat, producers: nat, s: State<R, C>)
    requires Reachable(cfg, workers, producers, s) && FrontSound(cfg, workers)
    ensures Sound(cfg, s) && |s.workers| == workers
  {
    ReachableInv(cfg, workers, producers, s);
    WorkersFixed(cfg, workers, producers, s);
    if cfg.conns == [] {
      var s0 := Init<R, C>(cfg, workers, producers);
      var es :| CanRun(cfg, s0, es) && Run(cfg, s0, es) == s;
      NeverAskedRun(cfg, s0, es);
    }
  }

  /** No reachable state is deadlocked, under the condition that also makes front() safe. */
  lemma NoDeadlock<R(!new), C>(cfg: Config<C>, workers: nat, producers: nat, s: State<R, C>)
    requires Reachable(cfg, workers, producers, s)
    requires FrontSound(cfg, workers) && workers > 0
    ensures Quiescent(s) || exists e :: Internal(e) && Enabled(cfg, s, e)
  {
    ReachableSound(cfg, workers, producers, s);
    if s.queueLock.Some? || s.poolLock.Some? {
      var e := OwnerMoves(cfg, s);
    } else if !Quiescent(s) {
      var e := FreeMoves(cfg, s);
    }
  }

  // ---------- No accepted request is stranded ----------

  /** How many steps a worker may still take before it waits again. */
  ghost function WorkerRank<R, C>(w: Worker<R, C>): nat {
    match w
    case Waiting => 0
    case Backing => 1
    case Popping => 2
    case Checking => 3
    case Woken => 4
    case Posting(_) => 1
    case Given(_) => 2
    case Giving(_, _) => 3
    case Returning(_, _) => 4
    case Using(_, _) => 5
    case Taken(_, _) => 6
    case Taking(_) => 7
    case Reserved(_) => 8
    case Reserving(_) => 9
    case Asking(_) => 10
    case Handling(_) => 11
    case Popped(_) => 12
  }

  ghost function ProducerRank<R>(p: Producer<R>): nat {
    match p
    case Idle => 0
    case Full => 1
    case Signalling => 6
    case Added => 7
    case Pushing(_) => 28
    case Testing(_) => 29
    case Locking(_) => 30
  }

  /** An upper bound on the number of internal steps that remain. */
  ghost function Remaining<R, C>(s: State<R, C>): nat {
    20 * |s.queue| + 5 * s.queueSem + Total(s.workers, WorkerRank) + Total(s.producers, ProducerRank)
  }

  lemma StepDecreases<R, C>(cfg: Config<C>, s: State<R, C>, e: Event<R>)
    requires Enabled(cfg, s, e) && Internal(e)
    ensures Remaining(Apply(cfg, s, e)) < Remaining(s)
  {
    var s' := Apply(cfg, s, e);
    if e.Work? {
      WorkDecreases(cfg, s, e);
    } else {
      ProducerLeavesPool(cfg, s, e);
      TotalUpdate(s.producers, e.j, s'.producers[e.j], ProducerRank);
    }
  }

  lemma WorkDecreases<R, C>(cfg: Config<C>, s: State<R, C>, e: Event<R>)
    requires Enabled(cfg, s, e) && e.Work?
    ensures Remaining(Apply(cfg, s, e)) < Remaining(s)
  {
    var s' := Apply(cfg, s, e);
    MovesOne(cfg, s, e);
    TotalUpdate(s.workers, e.i, s'.workers[e.i], WorkerRank);
    RankDecreases(s, e.i, e.choice);
  }

  lemma RankDecreases<R, C>(s: State<R, C>, i: nat, choice: bool)
    requires WorkEnabled(s, i)
    ensures var s' := WorkApply(s, i, choice);
      && |s'.workers| == |s.workers|
      && 20 * |s'.queue| + 5 * s'.queueSem + WorkerRank(s'.workers[i]) < 20 * |s.queue| + 5 * s.queueSem + WorkerRank(s.workers[i])
  {
  }

  /** A wait that returns early costs at most four more steps. */
  lemma EarlyIncreases<R, C>(cfg: Config<C>, s: State<R, C>, e: Event<R>)
    requires Enabled(cfg, s, e) && e.WakeEarly?
    ensures Remaining(Apply(cfg, s, e)) <= Remaining(s) + 4
  {
    TotalUpdate(s.workers, e.i, Apply(cfg, s, e).workers[e.i], WorkerRank);
  }

  /** How many waits return early. */
  ghost function Early<R>(es: seq<Event<R>>): nat {
    if es == [] then 0 else (if es[0].WakeEarly? then 1 else 0) + Early(es[1..])
  }

  lemma {:induction false} RunBounded<R, C>(cfg: Config<C>, s: State<R, C>, es: seq<Event<R>>)
    requires CanRun(cfg, s, es) && forall k :: 0 <= k < |es| ==> !es[k].Arrive?
    ensures |es| + Remaining(Run(cfg, s, es)) <= Remaining(s) + 5 * Early(es)
    decreases es
  {
    if es != [] {
      if es[0].WakeEarly? {
        EarlyIncreases(cfg, s, es[0]);
      } else {
        StepDecreases(cfg, s, es[0]);
      }
      RunBounded(cfg, Apply(cfg, s, es[0]), es[1..]);
    }
  }

  /**
   Without new requests, the system stops after a number of steps that depends only on the
   state and on how many waits return early, whatever the schedule; and when it can go no
   further every accepted request has been dispatched.
   */
  lemma Drains<R(!new), C>(cfg: Config<C>, workers: nat, producers: nat, s: State<R, C>, es: seq<Event<R>>)
    requires Reachable(cfg, workers, producers, s)
    requires FrontSound(cfg, workers) && workers > 0
    requires CanRun(cfg, s, es) && forall k :: 0 <= k < |es| ==> !es[k].Arrive?
    ensures |es| <= Remaining(s) + 5 * Early(es)
    ensures (forall e :: Internal(e) ==> !Enabled(cfg, Run(cfg, s, es), e)) ==>
      Quiescent(Run(cfg, s, es)) && Run(cfg, s, es).dispatched == Run(cfg, s, es).accepted
  {
    RunBounded(cfg, s, es);
    ReachableOn(cfg, workers, producers, s, es);
    NoDeadlock(cfg, workers, producers, Run(cfg, s, es));
    DispatchedInOrder(cfg, workers, producers, Run(cfg, s, es));
  }

  lemma {:induction false} RunAppend<R, C>(cfg: Config<C>, s: State<R, C>, a: seq<Event<R>>, b: seq<Event<R>>)
    requires CanRun(cfg, s, a) && CanRun(cfg, Run(cfg, s, a), b)
    ensures CanRun(cfg, s, a + b) && Run(cfg, s, a + b) == Run(cfg, Run(cfg, s, a), b)
    decreases a
  {
    if a == [] {
      assert a + b == b;
    } else {
      RunAppend(cfg, Apply(cfg, s, a[0]), a[1..], b);
      assert (a + b)[0] == a[0] && (a + b)[1..] == a[1..] + b;
    }
  }

  lemma ReachableOn<R(!new), C>(cfg: Config<C>, workers: nat, producers: nat, s: State<R, C>, es: seq<Event<R>>)
    requires Reachable(cfg, workers, producers, s) && CanRun(cfg, s, es)
    ensures Reachable(cfg, workers, producers, Run(cfg, s, es))
  {
    var s0 := Init<R, C>(cfg, workers, producers);
    var a :| CanRun(cfg, s0, a) && Run(cfg, s0, a) == s;
    RunAppend(cfg, s0, a, es);
  }

  // ---------- When reserve.wait() may return early ----------

  lemma ReachableStep<R(!new), C>(cfg: Config<C>, workers: nat, producers: nat, s: State<R, C>, e: Event<R>)
    requires Reachable(cfg, workers, producers, s) && Enabled(cfg, s, e)
    ensures Reachable(cfg, workers, producers, Apply(cfg, s, e))
  {
    assert CanRun(cfg, Apply(cfg, s, e), []);
    assert CanRun(cfg, s, [e]) && Run(cfg, s, [e]) == Apply(cfg, s, e);
    ReachableOn(cfg, workers, producers, s, [e]);
  }

  /** The first `k` workers are past an early reserve.wait(), the others wait for requests. */
  ghost predicate Gathered<R, C>(cfg: Config<C>, s: State<R, C>, k: nat) {
    && s.queue == [] && s.queueSem == 0 && s.queueLock.None? && s.poolLock.None? && s.free == cfg.conns
    && k <= |s.workers|
    && (forall i :: 0 <= i < k ==> s.workers[i].Reserved?)
    && (forall i :: k <= i < |s.workers| ==> s.workers[i].Waiting?)
    && |s.producers| > 0 && s.producers[0].Idle?
  }

  /** Producer 0 calls append and gets to the push. */
  lemma Call<R(!new), C>(cfg: Config<C>, workers: nat, producers: nat, s: State<R, C>, k: nat, r: R) returns (s': State<R, C>)
    requires Reachable(cfg, workers, producers, s) && Gathered(cfg, s, k) && cfg.maxRequests > 0
    ensures Reachable(cfg, workers, producers, s')
    ensures s' == s.(producers := s.producers[0 := Pushing(r)], queueLock := Some(P(0)))
  {
    s' := s;
    ReachableStep(cfg, workers, producers, s', Arrive(0, r));
    s' := Apply(cfg, s', Arrive(0, r));
    ReachableStep(cfg, workers, producers, s', Produce(0));
    s' := Apply(cfg, s', Produce(0));
    ReachableStep(cfg, workers, producers, s', Produce(0));
    s' := Apply(cfg, s', Produce(0));
  }

  /** A request goes through the queue: producer 0 pushes it and posts. */
  lemma Submit<R(!new), C>(cfg: Config<C>, workers: nat, producers: nat, s: State<R, C>, k: nat, r: R) returns (s': State<R, C>)
    requires Reachable(cfg, workers, producers, s) && Gathered(cfg, s, k) && cfg.maxRequests > 0
    ensures Reachable(cfg, workers, producers, s')
    ensures s' == s.(queue := [r], queueSem := 1, accepted := s.accepted + [r])
  {
    s' := Call(cfg, workers, producers, s, k, r);
    ReachableStep(cfg, workers, producers, s', Produce(0));
    s' := Apply(cfg, s', Produce(0));
    ReachableStep(cfg, workers, producers, s', Produce(0));
    s' := Apply(cfg, s', Produce(0));
    ReachableStep(cfg, workers, producers, s', Produce(0));
    s' := Apply(cfg, s', Produce(0));
    assert s'.producers == s.producers;
  }

  /** Worker `k` picks the request up and gets past reserve.wait() without taking the semaphore. */
  lemma PassEarly<R(!new), C>(cfg: Config<C>, workers: nat, producers: nat, s0: State<R, C>, k: nat, r: R) returns (s': State<R, C>)
    requires Reachable(cfg, workers, producers, s0) && Gathered(cfg, s0, k) && k < |s0.workers|
    requires cfg.maxRequests > 0 && cfg.earlyReserve && cfg.conns != []
    ensures Reachable(cfg, workers, producers, s') && Gathered(cfg, s', k + 1) && |s'.workers| == |s0.workers|
  {
    s' := Submit(cfg, workers, producers, s0, k, r);
    s' := PickUp(cfg, workers, producers, s', k, r);
    ReachableStep(cfg, workers, producers, s', Work(k, true));
    s' := Apply(cfg, s', Work(k, true));
    ReachableStep(cfg, workers, producers, s', Work(k, true));
    s' := Apply(cfg, s', Work(k, true));
    assert s'.workers[k] == Reserving(r);
    ReachableStep(cfg, workers, producers, s', WakeEarly(k));
    s' := Apply(cfg, s', WakeEarly(k));
  }

  lemma PickUp<R(!new), C>(cfg: Config<C>, workers: nat, producers: nat, s: State<R, C>, k: nat, r: R) returns (s': State<R, C>)
    requires Reachable(cfg, workers, producers, s) && k < |s.workers| && s.workers[k].Waiting?
    requires s.queue == [r] && s.queueSem == 1 && s.queueLock.None?
    ensures Reachable(cfg, workers, producers, s')
    ensures s' == s.(queue := [], queueSem := 0, dispatched := s.dispatched + [r], workers := s.workers[k := Handling(r)])
  {
    s' := s;
    ReachableStep(cfg, workers, producers, s', Work(k, true));
    s' := Apply(cfg, s', Work(k, true));
    ReachableStep(cfg, workers, producers, s', Work(k, true));
    s' := Apply(cfg, s', Work(k, true));
    ReachableStep(cfg, workers, producers, s', Work(k, true));
    s' := Apply(cfg, s', Work(k, true));
    assert s'.workers[k].Popping?;
    ReachableStep(cfg, workers, producers, s', Work(k, true));
    s' := Apply(cfg, s', Work(k, true));
    ReachableStep(cfg, workers, producers, s', Work(k, true));
    s' := Apply(cfg, s', Work(k, true));
  }

  lemma {:induction false} GatherAll<R(!new), C>(cfg: Config<C>, workers: nat, producers: nat, k: nat, r: R) returns (s: State<R, C>)
    requires cfg.maxRequests > 0 && cfg.earlyReserve && cfg.conns != [] && k <= workers && producers > 0
    ensures Reachable(cfg, workers, producers, s) && Gathered(cfg, s, k) && |s.workers| == workers
  {
    if k == 0 {
      s := Init<R, C>(cfg, workers, producers);
      assert CanRun(cfg, s, []) && Run(cfg, s, []) == s;
    } else {
      s := GatherAll(cfg, workers, producers, k - 1, r);
      s := PassEarly(cfg, workers, producers, s, k - 1, r);
    }
  }

  /** The first `k` workers took one connection each; workers up to `n` are still past their wait. */
  lemma {:induction false} TakeAll<R(!new), C>(cfg: Config<C>, workers: nat, producers: nat, k: nat, r: R) returns (s: State<R, C>)
    requires cfg.maxRequests > 0 && cfg.earlyReserve && cfg.conns != [] && producers > 0
    requires k <= |cfg.conns| < workers
    ensures Reachable(cfg, workers, producers, s) && |s.workers| == workers && s.poolLock.None?
    ensures s.free == cfg.conns[k..]
    ensures forall i :: k <= i <= |cfg.conns| ==> s.workers[i].Reserved?
  {
    if k == 0 {
      s := GatherAll(cfg, workers, producers, |cfg.conns| + 1, r);
    } else {
      s := TakeAll(cfg, workers, producers, k - 1, r);
      ReachableStep(cfg, workers, producers, s, Work(k - 1, true));
      s := Apply(cfg, s, Work(k - 1, true));
      ReachableStep(cfg, workers, producers, s, Work(k - 1, true));
      s := Apply(cfg, s, Work(k - 1, true));
      ReachableStep(cfg, workers, producers, s, Work(k - 1, true));
      s := Apply(cfg, s, Work(k - 1, true));
    }
  }

  /**
   If reserve.wait() may return early and workers outnumber connections, some run ends with a
   worker about to take front() of an empty free list. With `FrontSafe`, this is the exact
   condition.
   */
  lemma FrontUnsafe<R(!new), C>(cfg: Config<C>, workers: nat, producers: nat, r: R)
    requires cfg.maxRequests > 0 && producers > 0 && cfg.earlyReserve && cfg.conns != [] && |cfg.conns| < workers
    ensures exists s: State<R, C>, i: nat ::
      Reachable(cfg, workers, producers, s) && i < |s.workers| && s.workers[i].Taking? && s.free == []
  {
    var n := |cfg.conns|;
    var s := TakeAll(cfg, workers, producers, n, r);
    ReachableStep(cfg, workers, producers, s, Work(n, true));
    s := Apply(cfg, s, Work(n, true));
    assert s.workers[n].Taking? && s.free == [];
  }

  /** A pool without connections: GetConnection() answers NULL and nobody gets to the free list. */
  ghost predicate NeverAsked<R, C>(s: State<R, C>) {
    s.free == [] && forall i :: 0 <= i < |s.workers| ==>
      !s.workers[i].Reserving? && !s.workers[i].Reserved? && !s.workers[i].Taking? && InHand(s.workers[i]).None?
  }

  lemma {:induction false} NeverAskedRun<R, C>(cfg: Config<C>, s: State<R, C>, es: seq<Event<R>>)
    requires NeverAsked(s) && CanRun(cfg, s, es)
    ensures NeverAsked(Run(cfg, s, es))
    decreases es
  {
    if es != [] {
      NeverAskedStep(cfg, s, es[0]);
      NeverAskedRun(cfg, Apply(cfg, s, es[0]), es[1..]);
    }
  }

  lemma NeverAskedStep<R, C>(cfg: Config<C>, s: State<R, C>, e: Event<R>)
    requires NeverAsked(s) && Enabled(cfg, s, e)
    ensures NeverAsked(Apply(cfg, s, e))
  {
    if e.Work? || e.WakeEarly? {
      MovesOne(cfg, s, e);
      assert !Holding(s.workers[e.i]);
    } else {
      ProducerLeavesPool(cfg, s, e);
    }
  }

  ghost predicate FrontAlwaysSafe<R(!new), C(!new)>(cfg: Config<C>, workers: nat, producers: nat) {
    forall s: State<R, C>, i: nat ::
      Reachable(cfg, workers, producers, s) && i < |s.workers| && s.workers[i].Taking? ==> s.free != []
  }

  /** front() is safe in every run exactly if waits succeed, workers do not outnumber connections, or there are none. */
  lemma FrontExact<R(!new), C(!new)>(cfg: Config<C>, workers: nat, producers: nat, r: R)
    requires cfg.maxRequests > 0 && producers > 0
    ensures FrontAlwaysSafe<R, C>(cfg, workers, producers) <==> FrontSound(cfg, workers)
  {
    if FrontSound(cfg, workers) {
      forall s: State<R, C>, i: nat | Reachable(cfg, workers, producers, s) && i < |s.workers| && s.workers[i].Taking?
        ensures s.free != []
      {
        ReachableSound(cfg, workers, producers, s);
        if cfg.conns != [] {
          TakingFinds(cfg, s, i);
        }
      }
    } else {
      FrontUnsafe<R, C>(cfg, workers, producers, r);
    }
  }
}
