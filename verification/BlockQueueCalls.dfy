/**
 What becomes of the calls in the runs of BlockQueueWaits: what a thread has tested and means to do
 is done, on the queue that it has seen, and no pushed element is lost.
 */
module BlockQueueCalls {
  import opened Counting
  import opened Options
  import opened BlockQueueWaits

  // ---------- Under the mutex ----------

  /** Nobody else touches the queue, or moves the thread, while it has the mutex. */
  lemma OthersWait<T>(cap: nat, s: State<T>, e: Event<T>, t: nat)
    requires LockOk(s) && Enabled(s, e) && t < |s.pcs| && Holds(s.pcs[t])
    requires e != Step(t) && !s.pcs[t].Wait?
    ensures var s' := Apply(cap, s, e);
      && |s'.pcs| == |s.pcs| && s'.pcs[t] == s.pcs[t] && s'.queue == s.queue
      && s'.accepted == s.accepted && s'.removed == s.removed && s'.refused == s.refused
  {
  }

  /** The histories only grow. */
  lemma {:induction false} RunGrows<T>(cap: nat, s: State<T>, es: seq<Event<T>>)
    requires CanRun(cap, s, es)
    ensures var s' := Run(cap, s, es);
      |s'.pcs| == |s.pcs| && s.accepted <= s'.accepted && s.removed <= s'.removed && s.refused <= s'.refused
    decreases es
  {
    if es != [] { RunGrows(cap, Apply(cap, s, es[0]), es[1..]); }
  }

  /** A thread about to take, store or clear does just that with the queue as it is, before anybody else does anything. */
  ghost predicate Done<T>(s: State<T>, s': State<T>, t: nat)
    requires t < |s.pcs| && t < |s'.pcs|
  {
    match s.pcs[t]
    case Insert(x) => s.accepted + [x] <= s'.accepted
    case Take => s.queue != [] && s.removed + [Popped(s.queue[0])] <= s'.removed
    case Clearing => s.removed + Drop(s.queue) <= s'.removed
    case _ => true
  }

  lemma {:induction false} DoesIt<T>(cap: nat, s: State<T>, es: seq<Event<T>>, t: nat)
    requires Inv(cap, s) && CanRun(cap, s, es) && t < |s.pcs|
    requires s.pcs[t].Insert? || s.pcs[t].Take? || s.pcs[t].Clearing?
    ensures var s' := Run(cap, s, es);
      |s'.pcs| == |s.pcs| && (s'.pcs[t] != s.pcs[t] ==> Done(s, s', t))
    decreases es
  {
    RunGrows(cap, s, es);
    if es != [] {
      var s1 := Apply(cap, s, es[0]);
      if es[0] == Step(t) {
        RunGrows(cap, s1, es[1..]);
      } else {
        OthersWait(cap, s, es[0], t);
        InvKept(cap, s, es[0]);
        DoesIt(cap, s1, es[1..], t);
      }
    }
  }

  /** What a push that has reached its test comes to. */
  ghost predicate Outcome<T>(cap: nat, s: State<T>, s': State<T>, x: T) {
    if |s.queue| < cap then s.accepted + [x] <= s'.accepted else s.refused + [x] <= s'.refused
  }

  /** A push that finds room is the next to be accepted; one that finds none is refused. */
  lemma {:induction false} PushComesTo<T>(cap: nat, s: State<T>, es: seq<Event<T>>, t: nat, x: T)
    requires Inv(cap, s) && CanRun(cap, s, es) && t < |s.pcs| && s.pcs[t] == Room(x)
    ensures var s' := Run(cap, s, es);
      |s'.pcs| == |s.pcs| && (s'.pcs[t] != Room(x) && s'.pcs[t] != Insert(x) ==> Outcome(cap, s, s', x))
    decreases es
  {
    RunGrows(cap, s, es);
    if es != [] {
      var s1 := Apply(cap, s, es[0]);
      InvKept(cap, s, es[0]);
      if es[0] == Step(t) {
        RunGrows(cap, s1, es[1..]);
        if |s.queue| < cap { DoesIt(cap, s1, es[1..], t); }
      } else {
        OthersWait(cap, s, es[0], t);
        PushComesTo(cap, s1, es[1..], t, x);
      }
    }
  }

  // ---------- All calls of push() ----------

  ghost function Pushes<T>(es: seq<Event<T>>): seq<T> {
    if es == [] then [] else (if CallsPush(es[0]) then [es[0].pc.x] else []) + Pushes(es[1..])
  }

  /** The element that a thread has neither stored nor given up. */
  ghost function Pending<T>(pc: Pc<T>): multiset<T> {
    if pc.PushLock? || pc.Room? || pc.Insert? then multiset{pc.x} else multiset{}
  }

  /** Where the elements of the calls so far are. */
  ghost function Offered<T>(s: State<T>): multiset<T> {
    Gather(s.pcs, Pending) + multiset(s.accepted) + multiset(s.refused)
  }

  lemma {:induction false} WakeKeepsPending<T>(pcs: seq<Pc<T>>)
    ensures Gather(Wake(pcs), Pending) == Gather(pcs, Pending)
  {
    if pcs != [] {
      WakeKeepsPending(pcs[1..]);
      assert Wake(pcs)[1..] == Wake(pcs[1..]);
    }
  }

  ghost predicate CallsPush<T>(e: Event<T>) {
    e.Call? && e.pc.PushLock?
  }

  lemma OfferedKept<T>(cap: nat, s: State<T>, e: Event<T>)
    requires Enabled(s, e)
    ensures Offered(Apply(cap, s, e)) == if CallsPush(e) then Offered(s) + multiset{e.pc.x} else Offered(s)
  {
    match e
    case Call(t, pc) =>
      if pc.PushLock? { CallOffers(s, t, pc); } else { GatherSame(s.pcs, t, pc, Pending); }
    case Step(t) => StepOffers(cap, s, t);
    case Spurious(t) => GatherSame(s.pcs, t, Woken, Pending);
    case WaitFails(t) => GatherSame(s.pcs, t, Leave, Pending);
  }

  lemma CallOffers<T>(s: State<T>, t: nat, pc: Pc<T>)
    requires t < |s.pcs| && s.pcs[t].Out? && pc.PushLock?
    ensures Offered(Move(s, t, pc)) == Offered(s) + multiset{pc.x}
  {
    GatherGains(s.pcs, t, pc, Pending, pc.x);
    MovesIn(Gather(s.pcs, Pending), Gather(s.pcs[t := pc], Pending), multiset(s.accepted), multiset(s.refused), multiset{pc.x});
  }

  lemma MovesIn<T>(g: multiset<T>, g': multiset<T>, a: multiset<T>, b: multiset<T>, x: multiset<T>)
    requires g' == g + x
    ensures g' + a + b == (g + a + b) + x
  {
  }

  lemma StepOffers<T>(cap: nat, s: State<T>, t: nat)
    requires t < |s.pcs| && CanStep(s.pcs[t], s.owner)
    ensures Offered(StepApply(cap, s, t)) == Offered(s)
  {
    match s.pcs[t]
    case Signal =>
      WakeKeepsPending(s.pcs);
      GatherSame(Wake(s.pcs), t, Leave, Pending);
    case Insert(x) =>
      InsertOffers(cap, s, t);
    case Room(x) =>
      if |s.queue| >= cap {
        RefusalOffers(cap, s, t);
      } else {
        GatherSame(s.pcs, t, Insert(x), Pending);
      }
    case _ =>
      OtherOffers(cap, s, t);
  }

  lemma InsertOffers<T>(cap: nat, s: State<T>, t: nat)
    requires t < |s.pcs| && s.pcs[t].Insert?
    ensures Offered(StepApply(cap, s, t)) == Offered(s)
  {
    var x, pcs := s.pcs[t].x, s.pcs[t := Signal];
    GatherLoses(s.pcs, t, Signal, Pending, x);
    Moves(Gather(s.pcs, Pending), Gather(pcs, Pending), s.accepted, s.refused, x);
    var s' := StepApply(cap, s, t);
    assert s'.pcs == pcs && s'.accepted == s.accepted + [x] && s'.refused == s.refused;
  }

  lemma RefusalOffers<T>(cap: nat, s: State<T>, t: nat)
    requires t < |s.pcs| && s.pcs[t].Room? && |s.queue| >= cap
    ensures Offered(StepApply(cap, s, t)) == Offered(s)
  {
    var x, pcs := s.pcs[t].x, s.pcs[t := Signal];
    GatherLoses(s.pcs, t, Signal, Pending, x);
    Moves(Gather(s.pcs, Pending), Gather(pcs, Pending), s.accepted, s.refused, x);
    var s' := StepApply(cap, s, t);
    assert s'.pcs == pcs && s'.accepted == s.accepted && s'.refused == s.refused + [x];
  }

  lemma OtherOffers<T>(cap: nat, s: State<T>, t: nat)
    requires t < |s.pcs| && CanStep(s.pcs[t], s.owner)
    requires !s.pcs[t].Signal? && !s.pcs[t].Insert? && !s.pcs[t].Room?
    ensures Offered(StepApply(cap, s, t)) == Offered(s)
  {
    OtherStep(cap, s, t);
    GatherSame(s.pcs, t, StepApply(cap, s, t).pcs[t], Pending);
  }

  lemma OtherStep<T>(cap: nat, s: State<T>, t: nat)
    requires t < |s.pcs| && CanStep(s.pcs[t], s.owner)
    requires !s.pcs[t].Signal? && !s.pcs[t].Insert? && !s.pcs[t].Room?
    ensures var s' := StepApply(cap, s, t);
      && |s'.pcs| == |s.pcs| && s'.pcs == s.pcs[t := s'.pcs[t]] && Pending(s'.pcs[t]) == Pending(s.pcs[t])
      && s'.accepted == s.accepted && s'.refused == s.refused
  {
  }

  lemma Moves<T>(g: multiset<T>, g': multiset<T>, a: seq<T>, b: seq<T>, x: T)
    requires g' + multiset{x} == g
    ensures g' + multiset(a + [x]) + multiset(b) == g + multiset(a) + multiset(b)
    ensures g' + multiset(a) + multiset(b + [x]) == g + multiset(a) + multiset(b)
  {
  }

  /** Every call of push() is pending, accepted or refused, exactly once. */
  lemma {:induction false} PushesAccounted<T>(cap: nat, s: State<T>, es: seq<Event<T>>)
    requires CanRun(cap, s, es)
    ensures Offered(Run(cap, s, es)) == Offered(s) + multiset(Pushes(es))
    decreases es
  {
    if es != [] {
      var s1, rest := Apply(cap, s, es[0]), Pushes(es[1..]);
      OfferedKept(cap, s, es[0]);
      PushesAccounted(cap, s1, es[1..]);
      if CallsPush(es[0]) {
        Prepend(Offered(s), Offered(s1), Offered(Run(cap, s, es)), es[0].pc.x, rest);
      } else {
        assert [] + rest == rest;
      }
    }
  }

  lemma Prepend<T>(a: multiset<T>, b: multiset<T>, c: multiset<T>, x: T, rest: seq<T>)
    requires b == a + multiset{x} && c == b + multiset(rest)
    ensures c == a + multiset([x] + rest)
  {
  }

  /** From the start: the elements accepted, refused and still pending are those of the calls. */
  lemma PushesFromStart<T>(cap: nat, threads: nat, es: seq<Event<T>>)
    requires CanRun(cap, Init<T>(threads), es)
    ensures var s := Run(cap, Init<T>(threads), es);
      multiset(Pushes(es)) == Gather(s.pcs, Pending) + multiset(s.accepted) + multiset(s.refused)
  {
    GatherNone(Init<T>(threads).pcs, Pending);
    PushesAccounted(cap, Init<T>(threads), es);
  }
}
