/**
 The blocking queue of TinyWebServer/log/block_queue.h as a whole: the threads of BlockQueueWaits,
 with the ring of BlockQueue in the place of the queue. Every run of it is a run of the protocol.
 */
module BlockQueueRuns {
  import opened Options
  import Ring = BlockQueue
  import opened BlockQueueWaits

  datatype Whole<T> = Whole(
    pcs: seq<Pc<T>>,
    owner: Option<nat>,
    ring: Ring.Ring<T>,
    accepted: seq<T>,
    removed: seq<Removal<T>>,
    refused: seq<T>
  )

  ghost predicate Ok<T>(c: Whole<T>) {
    Ring.RingOk(c.ring)
  }

  /** What the protocol sees. */
  ghost function Seen<T>(c: Whole<T>): State<T>
    requires Ok(c)
  {
    State(c.pcs, c.owner, Ring.Queued(c.ring), c.accepted, c.removed, c.refused)
  }

  ghost function To<T>(c: Whole<T>, t: nat, pc: Pc<T>): Whole<T>
    requires t < |c.pcs|
  {
    c.(pcs := c.pcs[t := pc])
  }

  /** The steps that read or write the ring do it as the code does; the others are those of the protocol. */
  ghost function WholeStep<T>(c: Whole<T>, t: nat): Whole<T>
    requires Ok(c) && t < |c.pcs|
  {
    match c.pcs[t]
    case Test => To(c, t, if c.ring.size <= 0 then Wait else Take)
    case Take =>
      var (ring, x) := Ring.Popped(c.ring);
      To(c, t, Return(x)).(ring := ring, removed := c.removed + [Popped(x)])
    case Room(x) =>
      if c.ring.size >= |c.ring.items| then To(c, t, Signal).(refused := c.refused + [x]) else To(c, t, Insert(x))
    case Insert(x) => To(c, t, Signal).(ring := Ring.Pushed(c.ring, x), accepted := c.accepted + [x])
    case Clearing => To(c, t, Leave).(ring := Ring.Emptied(c.ring), removed := c.removed + Drop(Ring.Queued(c.ring)))
    case _ =>
      var s := StepApply(|c.ring.items|, Seen(c), t);
      c.(pcs := s.pcs, owner := s.owner)
  }

  ghost function WholeApply<T>(c: Whole<T>, e: Event<T>): Whole<T>
    requires Ok(c) && Enabled(Seen(c), e)
  {
    if e.Step? then WholeStep(c, e.t) else c.(pcs := Apply(|c.ring.items|, Seen(c), e).pcs)
  }

  /** A step of the whole is the same step of the protocol. */
  lemma StepSeen<T>(c: Whole<T>, t: nat)
    requires Ok(c) && Inv(|c.ring.items|, Seen(c)) && t < |c.pcs|
    ensures var c', cap := WholeStep(c, t), |c.ring.items|;
      Ok(c') && |c'.ring.items| == cap && Seen(c') == StepApply(cap, Seen(c), t)
  {
    var q := Ring.Queued(c.ring);
    match c.pcs[t]
    case Take =>
      Ring.PoppedQueued(c.ring);
      assert q[1..] == Ring.Queued(Ring.Popped(c.ring).0);
    case Insert(x) =>
      Ring.PushedQueued(c.ring, x);
    case _ =>
  }

  lemma ApplySeen<T>(c: Whole<T>, e: Event<T>)
    requires Ok(c) && Inv(|c.ring.items|, Seen(c)) && Enabled(Seen(c), e)
    ensures var c', cap := WholeApply(c, e), |c.ring.items|;
      Ok(c') && |c'.ring.items| == cap && Seen(c') == Apply(cap, Seen(c), e)
  {
    if e.Step? { StepSeen(c, e.t); }
  }

  ghost predicate WholeCanRun<T>(c: Whole<T>, es: seq<Event<T>>)
    decreases es
  {
    es == [] || (Ok(c) && Enabled(Seen(c), es[0]) && WholeCanRun(WholeApply(c, es[0]), es[1..]))
  }

  ghost function WholeRun<T>(c: Whole<T>, es: seq<Event<T>>): Whole<T>
    requires WholeCanRun(c, es)
    decreases es
  {
    if es == [] then c else WholeRun(WholeApply(c, es[0]), es[1..])
  }

  /** Every run of the whole is a run of the protocol, with the same capacity. */
  lemma {:induction false} RunSeen<T>(c: Whole<T>, es: seq<Event<T>>)
    requires Ok(c) && Inv(|c.ring.items|, Seen(c)) && WholeCanRun(c, es)
    ensures var c', cap := WholeRun(c, es), |c.ring.items|;
      Ok(c') && |c'.ring.items| == cap && CanRun(cap, Seen(c), es) && Seen(c') == Run(cap, Seen(c), es)
    decreases es
  {
    if es != [] {
      var cap := |c.ring.items|;
      ApplySeen(c, es[0]);
      InvKept(cap, Seen(c), es[0]);
      RunSeen(WholeApply(c, es[0]), es[1..]);
    }
  }

  /** The constructor: an array with whatever it holds, and the indices at -1. */
  ghost function Fresh<T>(items: seq<T>, threads: nat): Whole<T> {
    Whole(seq(threads, _ => Out), None, Ring.Ring(items, 0, -1, -1), [], [], [])
  }

  /**
   Whatever the threads do, from the constructor on: the indices are in order, the state is one
   that the protocol reaches, and m_size tells parked consumers and takers the truth.
   */
  lemma RingServesProtocol<T(!new)>(items: seq<T>, threads: nat, es: seq<Event<T>>, t: nat)
    requires items != [] && WholeCanRun(Fresh(items, threads), es)
    ensures var c := WholeRun(Fresh(items, threads), es);
      && Ok(c) && |c.ring.items| == |items| && Reachable(|items|, threads, Seen(c))
      && c.accepted == Items(c.removed) + Ring.Queued(c.ring)
      && (t < |c.pcs| && c.pcs[t].Take? ==> c.ring.size > 0)
      && (t < |c.pcs| && c.pcs[t].Parked? && c.owner.None? ==> c.ring.size == 0)
  {
    var c0 := Fresh(items, threads);
    assert Seen(c0) == Init(threads);
    var c := WholeRun(c0, es);
    RunSeen(c0, es);
    ReachableInv(|items|, threads, Seen(c));
    FirstInFirstOut(|items|, threads, Seen(c));
  }
}
