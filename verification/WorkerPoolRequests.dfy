/**
 What becomes of the requests and of the connections in the runs of WorkerPools: nothing is
 mixed up, lost or handled twice, and nobody is turned away without reason.
 */
module WorkerPoolRequests {
  import opened Counting
  import opened Options
  import opened WorkerPools

  // ---------- In whose hands things are ----------

  /** The request that a worker has. */
  ghost function Carried<R, C>(w: Worker<R, C>): multiset<R> {
    if w.Waiting? || w.Woken? || w.Checking? || w.Backing? || w.Popping? then multiset{} else multiset{w.r}
  }

  /** The request that a producer has neither pushed nor given up. */
  ghost function Offered<R>(p: Producer<R>): multiset<R> {
    if p.Locking? || p.Testing? || p.Pushing? then multiset{p.r} else multiset{}
  }

  /** Every dispatched request is in the hands of one worker, or some worker is done with it. */
  ghost predicate RequestsOk<R, C>(s: State<R, C>) {
    multiset(s.dispatched) == Gather(s.workers, Carried) + multiset(s.handled)
  }

  /** Connections are lent in the order in which they became free. */
  ghost predicate LendingOk<R, C>(cfg: Config<C>, s: State<R, C>) {
    cfg.conns + s.returned == s.lent + s.free
  }

  /** While a worker has the lock, what it took is what was taken last. */
  ghost predicate JustTook<R, C>(s: State<R, C>, w: Worker<R, C>) {
    && (w.Popped? ==> s.dispatched != [] && w.r == s.dispatched[|s.dispatched| - 1])
    && (w.Taken? ==> s.lent != [] && w.conn == s.lent[|s.lent| - 1])
  }

  ghost predicate HandsOk<R, C>(cfg: Config<C>, s: State<R, C>) {
    && RequestsOk(s) && LendingOk(cfg, s)
    && (forall i :: 0 <= i < |s.workers| ==> JustTook(s, s.workers[i]))
    && (forall j :: 0 <= j < |s.producers| && s.producers[j].Full? ==> |s.queue| >= cfg.maxRequests)
  }

  // ---------- Every step keeps this ----------

  /** The step with which a worker is done with its request. */
  ghost predicate Finishing<R, C>(w: Worker<R, C>, choice: bool) {
    (w.Handling? && !choice) || (w.Using? && w.got.None?) || w.Posting?
  }

  lemma WorkFinishes<R, C>(s: State<R, C>, i: nat, choice: bool)
    requires WorkEnabled(s, i) && Finishing(s.workers[i], choice)
    ensures var s', w := WorkApply(s, i, choice), s.workers[i];
      && |s'.workers| == |s.workers| && s'.dispatched == s.dispatched && s'.handled == s.handled + [w.r]
      && Carried(w) == multiset{w.r} && Carried(s'.workers[i]) == multiset{}
  {
  }

  lemma WorkKeeps<R, C>(s: State<R, C>, i: nat, choice: bool)
    requires WorkEnabled(s, i) && !Finishing(s.workers[i], choice) && !s.workers[i].Popping?
    ensures var s' := WorkApply(s, i, choice);
      && |s'.workers| == |s.workers| && s'.dispatched == s.dispatched && s'.handled == s.handled
      && Carried(s'.workers[i]) == Carried(s.workers[i])
  {
  }

  lemma RequestsKept<R, C>(cfg: Config<C>, s: State<R, C>, e: Event<R>)
    requires RequestsOk(s) && Enabled(cfg, s, e)
    ensures RequestsOk(Apply(cfg, s, e))
  {
    var s' := Apply(cfg, s, e);
    if e.Work? {
      WorkRequests(s, e.i, e.choice);
    } else if e.WakeEarly? {
      GatherSame(s.workers, e.i, s'.workers[e.i], Carried);
    } else {
      NoWorkNoHistory(cfg, s, e);
    }
  }

  lemma WorkRequests<R, C>(s: State<R, C>, i: nat, choice: bool)
    requires RequestsOk(s) && WorkEnabled(s, i)
    ensures RequestsOk(WorkApply(s, i, choice))
  {
    var s', w := WorkApply(s, i, choice), s.workers[i];
    WorkMovesOne(s, i, choice);
    if w.Popping? {
      GatherGains(s.workers, i, s'.workers[i], Carried, s.queue[0]);
      Shifted(s.dispatched, s.handled, s.queue[0], Gather(s.workers, Carried), Gather(s'.workers, Carried));
    } else if Finishing(w, choice) {
      WorkFinishes(s, i, choice);
      GatherLoses(s.workers, i, s'.workers[i], Carried, w.r);
      Settled(s.dispatched, s.handled, w.r, Gather(s.workers, Carried), Gather(s'.workers, Carried));
    } else {
      WorkKeeps(s, i, choice);
      GatherSame(s.workers, i, s'.workers[i], Carried);
    }
  }

  lemma Shifted<T>(d: seq<T>, h: seq<T>, x: T, g: multiset<T>, g': multiset<T>)
    requires multiset(d) == g + multiset(h) && g' == g + multiset{x}
    ensures multiset(d + [x]) == g' + multiset(h)
  {
  }

  lemma Settled<T>(d: seq<T>, h: seq<T>, x: T, g: multiset<T>, g': multiset<T>)
    requires multiset(d) == g + multiset(h) && g' + multiset{x} == g
    ensures multiset(d) == g' + multiset(h + [x])
  {
  }

  lemma LendingKept<R, C>(cfg: Config<C>, s: State<R, C>, e: Event<R>)
    requires LendingOk(cfg, s) && Enabled(cfg, s, e)
    ensures LendingOk(cfg, Apply(cfg, s, e))
  {
    if e.Work? {
      var s', w := Apply(cfg, s, e), s.workers[e.i];
      if w.Taking? {
        assert s.free == [s.free[0]] + s.free[1..];
      } else if w.Giving? {
        assert cfg.conns + s'.returned == (cfg.conns + s.returned) + [w.conn];
        assert s'.lent + s'.free == (s.lent + s.free) + [w.conn];
      } else {
        WorkLendsNothing(s, e.i, e.choice);
      }
    } else if e.Produce? || e.Arrive? {
      NoWorkNoHistory(cfg, s, e);
    }
  }

  lemma WorkLendsNothing<R, C>(s: State<R, C>, i: nat, choice: bool)
    requires WorkEnabled(s, i) && !s.workers[i].Taking? && !s.workers[i].Giving?
    ensures var s' := WorkApply(s, i, choice); s'.free == s.free && s'.lent == s.lent && s'.returned == s.returned
  {
  }

  /** Producers leave the workers' histories alone. */
  lemma NoWorkNoHistory<R, C>(cfg: Config<C>, s: State<R, C>, e: Event<R>)
    requires Enabled(cfg, s, e) && (e.Produce? || e.Arrive?)
    ensures var s' := Apply(cfg, s, e);
      && s'.workers == s.workers && s'.free == s.free && s'.lent == s.lent && s'.returned == s.returned
      && s'.dispatched == s.dispatched && s'.handled == s.handled
  {
  }

  /** Nobody else takes from a list while a worker has its lock. */
  lemma TookKept<R, C>(cfg: Config<C>, s: State<R, C>, e: Event<R>, i: nat)
    requires LocksOk(s) && Enabled(cfg, s, e) && i < |s.workers| && JustTook(s, s.workers[i])
    ensures var s' := Apply(cfg, s, e); |s'.workers| == |s.workers| && JustTook(s', s'.workers[i])
  {
    if e.Work? {
      MovesOne(cfg, s, e);
      WorkTook(s, e.i, e.choice, i);
    } else if e.WakeEarly? {
      MovesOne(cfg, s, e);
    } else {
      NoWorkNoHistory(cfg, s, e);
    }
  }

  lemma WorkTook<R, C>(s: State<R, C>, me: nat, choice: bool, i: nat)
    requires LocksOk(s) && WorkEnabled(s, me) && i < |s.workers| && JustTook(s, s.workers[i])
    ensures var s' := WorkApply(s, me, choice); |s'.workers| == |s.workers| && JustTook(s', s'.workers[i])
  {
    WorkMovesOne(s, me, choice);
    if !s.workers[me].Popping? && !s.workers[me].Taking? { WorkTakesNothing(s, me, choice); }
  }

  lemma WorkTakesNothing<R, C>(s: State<R, C>, i: nat, choice: bool)
    requires WorkEnabled(s, i) && !s.workers[i].Popping? && !s.workers[i].Taking?
    ensures var s' := WorkApply(s, i, choice);
      && |s'.workers| == |s.workers| && s'.dispatched == s.dispatched && s'.lent == s.lent
      && !s'.workers[i].Popped? && !s'.workers[i].Taken?
  {
  }

  lemma FullKept<R, C>(cfg: Config<C>, s: State<R, C>, e: Event<R>, j: nat)
    requires LocksOk(s) && Enabled(cfg, s, e) && j < |s.producers|
    requires s.producers[j].Full? ==> |s.queue| >= cfg.maxRequests
    ensures var s' := Apply(cfg, s, e);
      |s'.producers| == |s.producers| && (s'.producers[j].Full? ==> |s'.queue| >= cfg.maxRequests)
  {
    if e.Work? || e.WakeEarly? { MovesOne(cfg, s, e); }
    QueueChange(cfg, s, e);
  }

  lemma HandsKept<R, C>(cfg: Config<C>, s: State<R, C>, e: Event<R>)
    requires LocksOk(s) && HandsOk(cfg, s) && Enabled(cfg, s, e)
    ensures HandsOk(cfg, Apply(cfg, s, e))
  {
    var s' := Apply(cfg, s, e);
    RequestsKept(cfg, s, e);
    LendingKept(cfg, s, e);
    ThreadsFixed(cfg, s, e);
    forall i | 0 <= i < |s'.workers| ensures JustTook(s', s'.workers[i]) { TookKept(cfg, s, e, i); }
    forall j | 0 <= j < |s'.producers| ensures s'.producers[j].Full? ==> |s'.queue| >= cfg.maxRequests {
      FullKept(cfg, s, e, j);
    }
  }

  lemma {:induction false} RunHands<R, C>(cfg: Config<C>, s: State<R, C>, es: seq<Event<R>>)
    requires Inv(cfg, s) && HandsOk(cfg, s) && CanRun(cfg, s, es)
    ensures HandsOk(cfg, Run(cfg, s, es))
    decreases es
  {
    if es != [] {
      InvKept(cfg, s, es[0]);
      HandsKept(cfg, s, es[0]);
      RunHands(cfg, Apply(cfg, s, es[0]), es[1..]);
    }
  }

  lemma ReachableHands<R(!new), C>(cfg: Config<C>, workers: nat, producers: nat, s: State<R, C>)
    requires Reachable(cfg, workers, producers, s)
    ensures HandsOk(cfg, s)
  {
    var s0 := Init<R, C>(cfg, workers, producers);
    var es :| CanRun(cfg, s0, es) && Run(cfg, s0, es) == s;
    InitInv<R, C>(cfg, workers, producers);
    GatherNone(s0.workers, Carried);
    RunHands(cfg, s0, es);
  }

  // ---------- Requests ----------

  /** The worker that has just popped a request has the oldest one that was waiting, and nobody else has it. */
  lemma HandsOutTheOldest<R(!new), C>(cfg: Config<C>, workers: nat, producers: nat, s: State<R, C>, i: nat)
    requires Reachable(cfg, workers, producers, s) && i < |s.workers| && s.workers[i].Popped?
    ensures 0 < |s.dispatched| <= |s.accepted| && s.workers[i].r == s.accepted[|s.dispatched| - 1]
  {
    ReachableHands(cfg, workers, producers, s);
    DispatchedInOrder(cfg, workers, producers, s);
    assert JustTook(s, s.workers[i]);
  }

  /** Each dispatched request is in the hands of exactly one worker, or handled exactly once. */
  lemma HandledOnce<R(!new), C>(cfg: Config<C>, workers: nat, producers: nat, s: State<R, C>)
    requires Reachable(cfg, workers, producers, s)
    ensures multiset(s.dispatched) == Gather(s.workers, Carried) + multiset(s.handled)
    ensures Quiescent(s) ==> multiset(s.handled) == multiset(s.accepted)
  {
    ReachableHands(cfg, workers, producers, s);
    if Quiescent(s) {
      DispatchedInOrder(cfg, workers, producers, s);
      GatherNone(s.workers, Carried);
      assert s.dispatched == s.accepted;
    }
  }

  /** A request is turned away only beside a queue of m_max_requests. */
  lemma RefusedOnlyWhenFull<R(!new), C>(cfg: Config<C>, workers: nat, producers: nat, s: State<R, C>, j: nat)
    requires Reachable(cfg, workers, producers, s) && j < |s.producers| && s.producers[j].Full?
    ensures |s.queue| == cfg.maxRequests
  {
    ReachableHands(cfg, workers, producers, s);
    ReachableInv(cfg, workers, producers, s);
  }

  /** The requests that a run brings, in the order of the calls of append. */
  ghost function Arrivals<R>(es: seq<Event<R>>): seq<R> {
    if es == [] then [] else (if es[0].Arrive? then [es[0].r] else []) + Arrivals(es[1..])
  }

  /** Where the requests of the calls so far are. */
  ghost function Called<R, C>(s: State<R, C>): multiset<R> {
    Gather(s.producers, Offered) + multiset(s.accepted) + multiset(s.refused)
  }

  lemma CalledKept<R, C>(cfg: Config<C>, s: State<R, C>, e: Event<R>)
    requires Enabled(cfg, s, e)
    ensures Called(Apply(cfg, s, e)) == Called(s) + (if e.Arrive? then multiset{e.r} else multiset{})
  {
    if e.Work? || e.WakeEarly? {
      MovesOne(cfg, s, e);
      WorkersCallNobody(cfg, s, e);
    } else if e.Arrive? {
      GatherGains(s.producers, e.j, Locking(e.r), Offered, e.r);
    } else {
      ProducerCalls(cfg, s, e.j);
    }
  }

  lemma WorkersCallNobody<R, C>(cfg: Config<C>, s: State<R, C>, e: Event<R>)
    requires Enabled(cfg, s, e) && (e.Work? || e.WakeEarly?)
    ensures Apply(cfg, s, e).accepted == s.accepted && Apply(cfg, s, e).refused == s.refused
  {
  }

  lemma ProducerCalls<R, C>(cfg: Config<C>, s: State<R, C>, j: nat)
    requires Enabled(cfg, s, Produce(j))
    ensures Called(ProduceApply(cfg, s, j)) == Called(s)
  {
    var p := s.producers[j];
    if p.Pushing? {
      PushCalls(cfg, s, j);
    } else if p.Testing? && |s.queue| >= cfg.maxRequests {
      RefusalCalls(cfg, s, j);
    } else {
      OtherCalls(cfg, s, j);
    }
  }

  lemma PushCalls<R, C>(cfg: Config<C>, s: State<R, C>, j: nat)
    requires Enabled(cfg, s, Produce(j)) && s.producers[j].Pushing?
    ensures Called(ProduceApply(cfg, s, j)) == Called(s)
  {
    var r, ps := s.producers[j].r, s.producers[j := Added];
    GatherLoses(s.producers, j, Added, Offered, r);
    Moved(Gather(s.producers, Offered), Gather(ps, Offered), s.accepted, s.refused, r);
    var s' := ProduceApply(cfg, s, j);
    assert s'.producers == ps && s'.accepted == s.accepted + [r] && s'.refused == s.refused;
  }

  lemma RefusalCalls<R, C>(cfg: Config<C>, s: State<R, C>, j: nat)
    requires Enabled(cfg, s, Produce(j)) && s.producers[j].Testing? && |s.queue| >= cfg.maxRequests
    ensures Called(ProduceApply(cfg, s, j)) == Called(s)
  {
    var r, ps := s.producers[j].r, s.producers[j := Full];
    GatherLoses(s.producers, j, Full, Offered, r);
    Moved(Gather(s.producers, Offered), Gather(ps, Offered), s.accepted, s.refused, r);
    var s' := ProduceApply(cfg, s, j);
    assert s'.producers == ps && s'.accepted == s.accepted && s'.refused == s.refused + [r];
  }

  lemma OtherCalls<R, C>(cfg: Config<C>, s: State<R, C>, j: nat)
    requires Enabled(cfg, s, Produce(j)) && !s.producers[j].Pushing?
    requires s.producers[j].Testing? ==> |s.queue| < cfg.maxRequests
    ensures Called(ProduceApply(cfg, s, j)) == Called(s)
  {
    var q := ProducerKeeps(cfg, s, j);
    GatherSame(s.producers, j, q, Offered);
  }

  /** Every other step of a producer leaves its request and the histories alone. */
  lemma ProducerKeeps<R, C>(cfg: Config<C>, s: State<R, C>, j: nat) returns (q: Producer<R>)
    requires Enabled(cfg, s, Produce(j)) && !s.producers[j].Pushing?
    requires s.producers[j].Testing? ==> |s.queue| < cfg.maxRequests
    ensures Offered(q) == Offered(s.producers[j])
    ensures var s' := ProduceApply(cfg, s, j);
      s'.producers == s.producers[j := q] && s'.accepted == s.accepted && s'.refused == s.refused
  {
    match s.producers[j]
    case Locking(r) => q := Testing(r);
    case Testing(r) => q := Pushing(r);
    case Added => q := Signalling;
    case _ => q := Idle;
  }

  lemma Moved<T>(g: multiset<T>, g': multiset<T>, a: seq<T>, b: seq<T>, x: T)
    requires g' + multiset{x} == g
    ensures g' + multiset(a + [x]) + multiset(b) == g + multiset(a) + multiset(b)
    ensures g' + multiset(a) + multiset(b + [x]) == g + multiset(a) + multiset(b)
  {
  }

  /** Every call of append is pending, accepted or refused, exactly once, whatever the run. */
  lemma {:induction false} CallsAccounted<R, C>(cfg: Config<C>, s: State<R, C>, es: seq<Event<R>>)
    requires CanRun(cfg, s, es)
    ensures Called(Run(cfg, s, es)) == Called(s) + multiset(Arrivals(es))
    decreases es
  {
    if es != [] {
      CalledKept(cfg, s, es[0]);
      CallsAccounted(cfg, Apply(cfg, s, es[0]), es[1..]);
    }
  }

  /** From the start, the accepted, the refused and the pending requests are those that were brought. */
  lemma CallsFromStart<R, C>(cfg: Config<C>, workers: nat, producers: nat, es: seq<Event<R>>)
    requires CanRun(cfg, Init<R, C>(cfg, workers, producers), es)
    ensures var s := Run(cfg, Init<R, C>(cfg, workers, producers), es);
      multiset(Arrivals(es)) == Gather(s.producers, Offered) + multiset(s.accepted) + multiset(s.refused)
  {
    var s0 := Init<R, C>(cfg, workers, producers);
    GatherNone(s0.producers, Offered);
    CallsAccounted(cfg, s0, es);
  }

  // ---------- Connections ----------

  /** Connections go out in the order in which they came in, from the first one on; a worker gets the one that was free longest. */
  lemma LentInOrder<R(!new), C>(cfg: Config<C>, workers: nat, producers: nat, s: State<R, C>, i: nat)
    requires Reachable(cfg, workers, producers, s)
    ensures s.lent <= cfg.conns + s.returned && s.free == (cfg.conns + s.returned)[|s.lent|..]
    ensures i < |s.workers| && s.workers[i].Taken? ==> s.lent != [] && s.workers[i].conn == s.lent[|s.lent| - 1]
  {
    ReachableHands(cfg, workers, producers, s);
    assert i < |s.workers| ==> JustTook(s, s.workers[i]);
  }

  /** While there are as many connections as workers, nobody who asks is told NULL. */
  ghost predicate NobodyWithout<R, C>(s: State<R, C>) {
    forall i :: 0 <= i < |s.workers| && s.workers[i].Using? ==> s.workers[i].got.Some?
  }

  lemma AskerFindsOne<R, C>(cfg: Config<C>, s: State<R, C>, i: nat)
    requires PoolOk(cfg, s) && |s.workers| <= |cfg.conns| && i < |s.workers| && !Holding(s.workers[i])
    ensures s.free != []
  {
    ConnectionsCounted(cfg, s);
    CountBelow(s.workers, i, Holding);
  }

  lemma NobodyWithoutKept<R, C>(cfg: Config<C>, s: State<R, C>, e: Event<R>)
    requires PoolOk(cfg, s) && |s.workers| <= |cfg.conns| && NobodyWithout(s) && Enabled(cfg, s, e)
    ensures NobodyWithout(Apply(cfg, s, e))
  {
    if e.Work? || e.WakeEarly? {
      MovesOne(cfg, s, e);
      if e.Work? && s.workers[e.i].Asking? { AskerFindsOne(cfg, s, e.i); }
    } else {
      NoWorkNoHistory(cfg, s, e);
    }
  }

  lemma {:induction false} RunNobodyWithout<R, C>(cfg: Config<C>, s: State<R, C>, es: seq<Event<R>>)
    requires Inv(cfg, s) && |s.workers| <= |cfg.conns| && NobodyWithout(s) && CanRun(cfg, s, es)
    ensures NobodyWithout(Run(cfg, s, es))
    decreases es
  {
    if es != [] {
      InvKept(cfg, s, es[0]);
      NobodyWithoutKept(cfg, s, es[0]);
      ThreadsFixed(cfg, s, es[0]);
      RunNobodyWithout(cfg, Apply(cfg, s, es[0]), es[1..]);
    }
  }

  /** GetConnection() never answers NULL when workers do not outnumber connections. */
  lemma NeverNull<R(!new), C>(cfg: Config<C>, workers: nat, producers: nat, s: State<R, C>, i: nat)
    requires Reachable(cfg, workers, producers, s) && workers <= |cfg.conns|
    requires i < |s.workers| && s.workers[i].Using?
    ensures s.workers[i].got.Some?
  {
    var s0 := Init<R, C>(cfg, workers, producers);
    var es :| CanRun(cfg, s0, es) && Run(cfg, s0, es) == s;
    InitInv<R, C>(cfg, workers, producers);
    RunNobodyWithout(cfg, s0, es);
  }

  /** In the run from `s`, worker `i` asked in state number `n` and found the free list empty. */
  ghost predicate FoundNone<R, C>(cfg: Config<C>, s: State<R, C>, es: seq<Event<R>>, n: nat, i: nat, r: R)
    requires CanRun(cfg, s, es)
  {
    n < |es| && CanRun(cfg, s, es[..n]) &&
    var t := Run(cfg, s, es[..n]);
    t.free == [] && i < |t.workers| && t.workers[i] == Asking(r) && es[n].Work? && es[n].i == i
  }

  /** A worker ends up with NULL for its request only because, when it asked for it, no connection was free. */
  lemma {:induction false} NullOnlyWhenNoneFree<R, C>(cfg: Config<C>, s: State<R, C>, es: seq<Event<R>>, i: nat, r: R) returns (n: nat)
    requires CanRun(cfg, s, es) && i < |s.workers| && s.workers[i] != Using(r, None)
    requires i < |Run(cfg, s, es).workers| && Run(cfg, s, es).workers[i] == Using(r, None)
    ensures FoundNone(cfg, s, es, n, i, r)
    decreases es
  {
    var s' := Apply(cfg, s, es[0]);
    ThreadsFixed(cfg, s, es[0]);
    if s'.workers[i] == Using(r, None) {
      AskedNow(cfg, s, es[0], i, r);
      assert es[..0] == [];
      n := 0;
    } else {
      var m := NullOnlyWhenNoneFree(cfg, s', es[1..], i, r);
      n := m + 1;
      assert es[..n][0] == es[0] && es[..n][1..] == es[1..][..m];
    }
  }

  lemma AskedNow<R, C>(cfg: Config<C>, s: State<R, C>, e: Event<R>, i: nat, r: R)
    requires Enabled(cfg, s, e) && i < |s.workers| && s.workers[i] != Using(r, None)
    requires i < |Apply(cfg, s, e).workers| && Apply(cfg, s, e).workers[i] == Using(r, None)
    ensures s.free == [] && s.workers[i] == Asking(r) && e.Work? && e.i == i
  {
    if e.Work? || e.WakeEarly? { MovesOne(cfg, s, e); } else { NoWorkNoHistory(cfg, s, e); }
  }
}
