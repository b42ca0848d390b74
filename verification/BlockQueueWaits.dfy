/**
 The waiting protocol of TinyWebServer/log/block_queue.h: any number of threads that call push(),
 pop() and clear() on one queue, interleaved at the mutex and at the condition variable. What the
 locked sections do to the queue is in BlockQueue.
 */
module BlockQueueWaits {
  import opened Counting
  import opened Options

  /** Where a thread is. */
  datatype Pc<T> =
    | Out                // in none of the calls
    | PopLock            // pop(): before m_mutex.lock()
    | Test               // at the test of m_size
    | Wait               // about to call m_cond.wait()
    | Parked             // waiting, without the mutex
    | Woken              // notified, and before it has the mutex again
    | Take               // about to take the element
    | Return(x: T)       // pop(): has the element, before m_mutex.unlock()
    | PushLock(x: T)     // push(): before m_mutex.lock()
    | Room(x: T)         // at the test of m_size
    | Insert(x: T)       // about to store the element
    | Signal             // about to call m_cond.broadcast()
    | ClearLock          // clear(): before m_mutex.lock()
    | Clearing
    | Leave              // before m_mutex.unlock()

  /** How an element left the queue. */
  datatype Removal<T> = Popped(x: T) | Dropped(x: T)

  datatype State<T> = State(
    pcs: seq<Pc<T>>,
    owner: Option<nat>,        // who has m_mutex
    queue: seq<T>,
    accepted: seq<T>,          // what push() stored, in order
    removed: seq<Removal<T>>,  // what left the queue, in order
    refused: seq<T>            // what push() did not store
  )

  datatype Event<T> =
    | Call(t: nat, pc: Pc<T>)  // a thread calls one of the operations
    | Step(t: nat)
    | Spurious(t: nat)         // a wait that ends without a broadcast
    | WaitFails(t: nat)        // m_cond.wait() returns false

  // ---------- Steps ----------

  ghost predicate CanStep<T>(pc: Pc<T>, owner: Option<nat>) {
    match pc
    case Out => false
    case Parked => false
    case PopLock => owner.None?
    case Woken => owner.None?
    case PushLock(_) => owner.None?
    case ClearLock => owner.None?
    case _ => true
  }

  ghost predicate Enabled<T>(s: State<T>, e: Event<T>) {
    e.t < |s.pcs| &&
    match e
    case Call(t, pc) => s.pcs[t].Out? && (pc.PopLock? || pc.PushLock? || pc.ClearLock?)
    case Step(t) => CanStep(s.pcs[t], s.owner)
    case Spurious(t) => s.pcs[t].Parked?
    case WaitFails(t) => s.pcs[t].Wait?
  }

  ghost function Move<T>(s: State<T>, t: nat, pc: Pc<T>): State<T>
    requires t < |s.pcs|
  {
    s.(pcs := s.pcs[t := pc])
  }

  /** m_cond.broadcast(). */
  ghost function Wake<T>(pcs: seq<Pc<T>>): (r: seq<Pc<T>>)
    ensures |r| == |pcs|
    ensures forall t :: 0 <= t < |r| ==> r[t] == if pcs[t].Parked? then Woken else pcs[t]
  {
    seq(|pcs|, t requires 0 <= t < |pcs| => if pcs[t].Parked? then Woken else pcs[t])
  }

  ghost function Drop<T>(q: seq<T>): (r: seq<Removal<T>>)
    ensures |r| == |q| && forall i :: 0 <= i < |q| ==> r[i] == Dropped(q[i])
  {
    seq(|q|, i requires 0 <= i < |q| => Dropped(q[i]))
  }

  ghost function StepApply<T>(cap: nat, s: State<T>, t: nat): State<T>
    requires t < |s.pcs|
  {
    match s.pcs[t]
    case Out => s
    case Parked => s
    case PopLock => Move(s, t, Test).(owner := Some(t))
    case Woken => Move(s, t, Test).(owner := Some(t))
    case Test => Move(s, t, if s.queue == [] then Wait else Take)
    case Wait => Move(s, t, Parked).(owner := None)
    case Take =>
      if s.queue == [] then Move(s, t, Leave)
      else Move(s, t, Return(s.queue[0])).(queue := s.queue[1..], removed := s.removed + [Popped(s.queue[0])])
    case PushLock(x) => Move(s, t, Room(x)).(owner := Some(t))
    case Room(x) =>
      if |s.queue| >= cap then Move(s, t, Signal).(refused := s.refused + [x]) else Move(s, t, Insert(x))
    case Insert(x) => Move(s, t, Signal).(queue := s.queue + [x], accepted := s.accepted + [x])
    case Signal => s.(pcs := Wake(s.pcs)[t := Leave])
    case ClearLock => Move(s, t, Clearing).(owner := Some(t))
    case Clearing => Move(s, t, Leave).(queue := [], removed := s.removed + Drop(s.queue))
    case Leave => Move(s, t, Out).(owner := None)
    case Return(_) => Move(s, t, Out).(owner := None)
  }

  ghost function Apply<T>(cap: nat, s: State<T>, e: Event<T>): State<T>
    requires Enabled(s, e)
  {
    match e
    case Call(t, pc) => Move(s, t, pc)
    case Step(t) => StepApply(cap, s, t)
    case Spurious(t) => Move(s, t, Woken)
    case WaitFails(t) => Move(s, t, Leave)
  }

  ghost predicate CanRun<T>(cap: nat, s: State<T>, es: seq<Event<T>>)
    decreases es
  {
    es == [] || (Enabled(s, es[0]) && CanRun(cap, Apply(cap, s, es[0]), es[1..]))
  }

  ghost function Run<T>(cap: nat, s: State<T>, es: seq<Event<T>>): State<T>
    requires CanRun(cap, s, es)
    decreases es
  {
    if es == [] then s else Run(cap, Apply(cap, s, es[0]), es[1..])
  }

  ghost function Init<T>(threads: nat): State<T> {
    State(seq(threads, _ => Out), None, [], [], [], [])
  }

  ghost predicate Reachable<T(!new)>(cap: nat, threads: nat, s: State<T>) {
    exists es :: CanRun(cap, Init(threads), es) && Run(cap, Init(threads), es) == s
  }

  // ---------- What every step keeps ----------

  ghost predicate Holds<T>(pc: Pc<T>) {
    pc.Test? || pc.Wait? || pc.Take? || pc.Room? || pc.Insert? || pc.Signal? || pc.Clearing? || pc.Leave? || pc.Return?
  }

  ghost predicate LockOk<T>(s: State<T>) {
    && (s.owner.Some? ==> s.owner.value < |s.pcs|)
    && forall t :: 0 <= t < |s.pcs| ==> (Holds(s.pcs[t]) <==> s.owner == Some(t))
  }

  /** What a thread has seen stays true while it has the mutex. */
  ghost predicate SeenOk<T>(cap: nat, pc: Pc<T>, queue: seq<T>) {
    && (pc.Take? ==> queue != [])
    && (pc.Wait? ==> queue == [])
    && (pc.Insert? ==> |queue| < cap)
  }

  ghost predicate AllSeenOk<T>(cap: nat, s: State<T>) {
    forall t :: 0 <= t < |s.pcs| ==> SeenOk(cap, s.pcs[t], s.queue)
  }

  /** A consumer is parked beside an element only while the broadcast for it is under way. */
  ghost predicate WakeUpsOk<T>(s: State<T>) {
    forall t :: 0 <= t < |s.pcs| && s.pcs[t].Parked? && s.queue != [] ==>
      s.owner.Some? && s.owner.value < |s.pcs| && s.pcs[s.owner.value].Signal?
  }

  ghost function Items<T>(rs: seq<Removal<T>>): (r: seq<T>)
    ensures |r| == |rs| && forall i :: 0 <= i < |rs| ==> r[i] == rs[i].x
  {
    seq(|rs|, i requires 0 <= i < |rs| => rs[i].x)
  }

  ghost predicate HistoryOk<T>(cap: nat, s: State<T>) {
    s.accepted == Items(s.removed) + s.queue && |s.queue| <= cap
  }

  /** While a consumer has the mutex, what it has in hand is what left the queue last. */
  ghost predicate ReturnsOk<T>(s: State<T>) {
    forall t :: 0 <= t < |s.pcs| && s.pcs[t].Return? ==>
      s.removed != [] && s.removed[|s.removed| - 1] == Popped(s.pcs[t].x)
  }

  ghost predicate Inv<T>(cap: nat, s: State<T>) {
    LockOk(s) && AllSeenOk(cap, s) && WakeUpsOk(s) && ReturnsOk(s) && HistoryOk(cap, s)
  }

  lemma LockKept<T>(cap: nat, s: State<T>, e: Event<T>)
    requires LockOk(s) && Enabled(s, e)
    ensures LockOk(Apply(cap, s, e))
  {
  }

  lemma SeenKept<T>(cap: nat, s: State<T>, e: Event<T>)
    requires LockOk(s) && AllSeenOk(cap, s) && Enabled(s, e)
    ensures AllSeenOk(cap, Apply(cap, s, e))
  {
  }

  lemma WakeUpsKept<T>(cap: nat, s: State<T>, e: Event<T>)
    requires LockOk(s) && AllSeenOk(cap, s) && WakeUpsOk(s) && Enabled(s, e)
    ensures WakeUpsOk(Apply(cap, s, e))
  {
  }

  lemma ReturnsKept<T>(cap: nat, s: State<T>, e: Event<T>)
    requires LockOk(s) && ReturnsOk(s) && Enabled(s, e)
    ensures ReturnsOk(Apply(cap, s, e))
  {
  }

  lemma HistoryKept<T>(cap: nat, s: State<T>, e: Event<T>)
    requires AllSeenOk(cap, s) && HistoryOk(cap, s) && Enabled(s, e)
    ensures HistoryOk(cap, Apply(cap, s, e))
  {
  }

  lemma InvKept<T>(cap: nat, s: State<T>, e: Event<T>)
    requires Inv(cap, s) && Enabled(s, e)
    ensures Inv(cap, Apply(cap, s, e))
  {
    LockKept(cap, s, e);
    SeenKept(cap, s, e);
    WakeUpsKept(cap, s, e);
    ReturnsKept(cap, s, e);
    HistoryKept(cap, s, e);
  }

  lemma {:induction false} RunKeeps<T>(cap: nat, s: State<T>, es: seq<Event<T>>)
    requires Inv(cap, s) && CanRun(cap, s, es)
    ensures Inv(cap, Run(cap, s, es))
    decreases es
  {
    if es != [] {
      InvKept(cap, s, es[0]);
      RunKeeps(cap, Apply(cap, s, es[0]), es[1..]);
    }
  }

  lemma ReachableInv<T(!new)>(cap: nat, threads: nat, s: State<T>)
    requires Reachable(cap, threads, s)
    ensures Inv(cap, s)
  {
    var s0 := Init<T>(threads);
    var es :| CanRun(cap, s0, es) && Run(cap, s0, es) == s;
    RunKeeps(cap, s0, es);
  }

  // ---------- Safety ----------

  /** No wake-up is lost: with the mutex free, a consumer is parked only beside an empty queue. */
  lemma NoLostWakeUp<T(!new)>(cap: nat, threads: nat, s: State<T>, t: nat)
    requires Reachable(cap, threads, s) && t < |s.pcs| && s.pcs[t].Parked? && s.owner.None?
    ensures s.queue == []
  {
    ReachableInv(cap, threads, s);
  }

  /** pop() takes an element only when there is one, although the queue may change while it waits. */
  lemma TakesAnElement<T(!new)>(cap: nat, threads: nat, s: State<T>, t: nat)
    requires Reachable(cap, threads, s) && t < |s.pcs| && s.pcs[t].Take?
    ensures s.queue != [] && forall u :: 0 <= u < |s.pcs| && u != t ==> !Holds(s.pcs[u])
  {
    ReachableInv(cap, threads, s);
  }

  /** What pop() gives to its caller is the element that has just left the queue, the oldest one. */
  lemma GivesWhatItTook<T(!new)>(cap: nat, threads: nat, s: State<T>, t: nat)
    requires Reachable(cap, threads, s) && t < |s.pcs| && s.pcs[t].Return?
    ensures 0 < |s.removed| <= |s.accepted| && s.removed[|s.removed| - 1] == Popped(s.pcs[t].x)
    ensures s.pcs[t].x == s.accepted[|s.removed| - 1]
  {
    ReachableInv(cap, threads, s);
    assert Items(s.removed)[|s.removed| - 1] == s.pcs[t].x;
  }

  /** Elements leave in the order in which they were accepted, each once, by pop() or by clear(). */
  lemma FirstInFirstOut<T(!new)>(cap: nat, threads: nat, s: State<T>)
    requires Reachable(cap, threads, s)
    ensures s.accepted == Items(s.removed) + s.queue && |s.queue| <= cap
  {
    ReachableInv(cap, threads, s);
  }

  // ---------- Progress ----------

  /** Nobody is in a call, except consumers that wait for an element that is not there. */
  ghost predicate Settled<T>(s: State<T>) {
    forall t :: 0 <= t < |s.pcs| ==> s.pcs[t].Out? || (s.pcs[t].Parked? && s.queue == [])
  }

  /** As long as the system is not settled, some thread can go on by itself. */
  lemma NoDeadlock<T(!new)>(cap: nat, threads: nat, s: State<T>)
    requires Reachable(cap, threads, s)
    ensures Settled(s) <==> forall t :: 0 <= t < |s.pcs| ==> !CanStep(s.pcs[t], s.owner)
  {
    ReachableInv(cap, threads, s);
    if s.owner.Some? {
      assert CanStep(s.pcs[s.owner.value], s.owner);
    }
  }

  ghost function Rank<T>(n: nat): Pc<T> -> nat {
    (pc: Pc<T>) =>
      match pc
      case Out => 0
      case Parked => 1
      case Leave => 1
      case Return(_) => 1
      case Wait => 2
      case Take => 2
      case Clearing => 2
      case Test => 3
      case ClearLock => 3
      case Woken => 4
      case PopLock => 4
      case Signal => 3 * n + 2
      case Insert(_) => 3 * n + 3
      case Room(_) => 3 * n + 4
      case PushLock(_) => 3 * n + 5
  }

  /** An upper bound on the number of steps that the calls under way still take. */
  ghost function Remaining<T>(s: State<T>): nat {
    Total(s.pcs, Rank(|s.pcs|))
  }

  lemma {:induction false} WakeTotal<T>(pcs: seq<Pc<T>>, n: nat)
    ensures Total(Wake(pcs), Rank(n)) <= Total(pcs, Rank(n)) + 3 * |pcs|
  {
    if pcs != [] {
      WakeTotal(pcs[1..], n);
      assert Wake(pcs)[1..] == Wake(pcs[1..]);
    }
  }

  lemma StepDecreases<T>(cap: nat, s: State<T>, t: nat)
    requires t < |s.pcs| && CanStep(s.pcs[t], s.owner)
    ensures Remaining(StepApply(cap, s, t)) < Remaining(s)
  {
    var s', n := StepApply(cap, s, t), |s.pcs|;
    if s.pcs[t].Signal? {
      WakeTotal(s.pcs, n);
      TotalUpdate(Wake(s.pcs), t, Leave, Rank(n));
    } else {
      TotalUpdate(s.pcs, t, s'.pcs[t], Rank(n));
    }
  }

  lemma {:induction false} StepsBounded<T>(cap: nat, s: State<T>, es: seq<Event<T>>)
    requires CanRun(cap, s, es) && forall k :: 0 <= k < |es| ==> es[k].Step?
    ensures |es| + Remaining(Run(cap, s, es)) <= Remaining(s)
    decreases es
  {
    if es != [] {
      StepDecreases(cap, s, es[0].t);
      StepsBounded(cap, Apply(cap, s, es[0]), es[1..]);
    }
  }

  lemma {:induction false} RunAppend<T>(cap: nat, s: State<T>, a: seq<Event<T>>, b: seq<Event<T>>)
    requires CanRun(cap, s, a) && CanRun(cap, Run(cap, s, a), b)
    ensures CanRun(cap, s, a + b) && Run(cap, s, a + b) == Run(cap, Run(cap, s, a), b)
    decreases a
  {
    if a == [] {
      assert a + b == b;
    } else {
      RunAppend(cap, Apply(cap, s, a[0]), a[1..], b);
      assert (a + b)[0] == a[0] && (a + b)[1..] == a[1..] + b;
    }
  }

  /**
   Without new calls the system comes to rest after a bounded number of steps, whatever the
   schedule, and then every call has returned except pops that wait beside an empty queue.
   */
  lemma ComesToRest<T(!new)>(cap: nat, threads: nat, s: State<T>, es: seq<Event<T>>)
    requires Reachable(cap, threads, s)
    requires CanRun(cap, s, es) && forall k :: 0 <= k < |es| ==> es[k].Step?
    ensures |es| <= Remaining(s)
    ensures var s' := Run(cap, s, es);
      (forall t :: 0 <= t < |s'.pcs| ==> !CanStep(s'.pcs[t], s'.owner)) ==> Settled(s')
  {
    StepsBounded(cap, s, es);
    var s0 := Init<T>(threads);
    var a :| CanRun(cap, s0, a) && Run(cap, s0, a) == s;
    RunAppend(cap, s0, a, es);
    NoDeadlock(cap, threads, Run(cap, s, es));
  }
}
