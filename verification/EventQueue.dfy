/** The input event queue: a ring of events and, over every run of the machine, the protocol
    by which producers and consumers share it through a semaphore. */
module EventQueue {
  import opened Options
  import opened Lists
  import opened KmtRuns

  const NEVENTS := 128

  // ---------------------------------------------------------------- the ring

  /** The slot i places after front. */
  function Slot(front: nat, i: nat): nat { (front + i) % NEVENTS }

  lemma SlotNext(front: nat, i: nat)
    ensures Slot((front + 1) % NEVENTS, i) == Slot(front, i + 1)
  {
  }

  lemma SlotsDiffer(front: nat, i: nat, j: nat)
    requires front < NEVENTS && i < j < NEVENTS
    ensures Slot(front, i) != Slot(front, j)
  {
  }

  class EventRing<E> {
    var events: array<E>
    var front: nat
    var rear: nat
    ghost var queue: seq<E>

    ghost predicate Valid()
      reads this, events
    {
      && events.Length == NEVENTS && front < NEVENTS && |queue| < NEVENTS
      && rear == Slot(front, |queue|)
      && forall i :: 0 <= i < |queue| ==> events[Slot(front, i)] == queue[i]
    }

    constructor (filler: E)
      ensures Valid() && fresh(events) && queue == []
    {
      events := new E[NEVENTS](_ => filler);
      front, rear, queue := 0, 0, [];
    }

    method IsEmpty() returns (b: bool)
      requires Valid()
      ensures b <==> queue == []
    {
      b := rear == front;
    }

    /** The locked part of push_event; false is the panic "input queue full". */
    method Push(ev: E) returns (ok: bool)
      requires Valid()
      modifies this, events
      ensures ok <==> old(|queue|) < NEVENTS - 1
      ensures ok ==> Valid() && queue == old(queue) + [ev] && events == old(events)
    {
      forall i | 0 <= i < |queue| ensures Slot(front, i) != rear {
        SlotsDiffer(front, i, |queue|);
      }
      events[rear] := ev;
      rear := (rear + 1) % NEVENTS;
      if |queue| + 1 < NEVENTS {
        SlotsDiffer(front, 0, |queue| + 1);
      }
      ok := rear != front;
      if ok {
        queue := queue + [ev];
      }
    }

    /** The locked part of pop_event; None is the panic "input queue empty". */
    method Pop() returns (r: Option<E>)
      requires Valid()
      modifies this
      ensures r.None? <==> old(queue) == []
      ensures r.Some? ==> Valid() && old(queue) == [r.value] + queue && events == old(events)
    {
      if queue != [] {
        SlotsDiffer(front, 0, |queue|);
        SlotNext(front, |queue| - 1);
      }
      if rear == front {
        return None;
      }
      var idx := front;
      assert events[Slot(front, 0)] == queue[0];
      front := (front + 1) % NEVENTS;
      ghost var was := queue;
      queue := queue[1..];
      forall i | 0 <= i < |queue| ensures events[Slot(front, i)] == queue[i] {
        SlotNext(old(front), i);
      }
      r := Some(events[idx]);
    }
  }

  // ---------------------------------------------------------------- the protocol

  /** The machine, the queue, the producers that have stored an event and not yet signalled it,
      and all events stored and taken so far. */
  datatype Input<T(==), S(==), C, E> =
    Input(y: Sys<T, S, C>, queue: seq<E>, stored: set<T>, pushed: seq<E>, popped: seq<E>)

  /** Store and Announce are the two halves of push_event; Take is the second half of pop_event,
      whose first half is a wait. */
  datatype Act<T, S, C, E> = Machine(l: Step<T, S, C>) | Store(ev: E) | Announce | Take

  datatype Result<T(==), S(==), C, E> = Impossible | Full | Empty | Done(z: Input<T, S, C, E>)

  /** Kernel steps other than those of the protocol: only pop_event waits on the semaphore, in
      task code, and takes an event before it waits again. */
  predicate Foreign<T, S, C>(y: Sys<T, S, C>, l: Step<T, S, C>, events: S) {
    && l != Post(events) && l != Leave(events) && l != Use(events) && (l.Open? && l.s == events ==> l.value == 0)
    && (l == Acquire(events) ==> y.k.current.Some? && !y.Holds(events))
  }

  function Do<T, S, C, E>(z: Input<T, S, C, E>, events: S, a: Act<T, S, C, E>): Result<T, S, C, E> {
    var busy := z.y.Executing() && z.y.k.current.Some? && events in z.y.k.sems && events in z.y.book;
    match a
    case Machine(l) =>
      var r := Next(z.y, l);
      if !Foreign(z.y, l, events) || r.None? then Impossible else Done(z.(y := r.value))
    case Store(ev) =>
      if !busy || z.y.k.current.value in z.stored then Impossible
      else if |z.queue| >= NEVENTS - 1 then Full
      else Done(z.(queue := z.queue + [ev], stored := z.stored + {z.y.k.current.value}, pushed := z.pushed + [ev]))
    case Announce =>
      if !busy || z.y.k.current.value !in z.stored then Impossible
      else Done(z.(y := Posted(z.y, events), stored := z.stored - {z.y.k.current.value}))
    case Take =>
      if !busy || !z.y.Holds(events) then Impossible
      else if z.queue == [] then Empty
      else Done(z.(y := Used(z.y, events), queue := z.queue[1..], popped := z.popped + [z.queue[0]]))
  }

  /** The queue holds one event for every free unit, every consumer granted one that has not
      taken it yet, and every producer that has not signalled it yet. */
  ghost predicate Protocol<T, S, C, E>(z: Input<T, S, C, E>, events: S) {
    && Inv(z.y)
    && z.pushed == z.popped + z.queue
    && |z.queue| == (if events in z.y.k.sems then Units(z.y, events) else 0) + |z.stored|
  }

  lemma KernelKeeps<T, S, C, E>(z: Input<T, S, C, E>, events: S, l: Step<T, S, C>)
    requires Protocol(z, events) && Do(z, events, Machine(l)).Done?
    ensures Protocol(Do(z, events, Machine(l)).z, events)
  {
    var y' := Next(z.y, l).value;
    StepKeepsInv(z.y, l);
    if events !in z.y.k.sems {
      NewUnits(z.y, l, events);
    } else if l == Acquire(events) {
      AcquireUnits(z.y, events);
    } else {
      OtherUnits(z.y, l, events);
    }
  }

  lemma StoreKeeps<T, S, C, E>(z: Input<T, S, C, E>, events: S, ev: E)
    requires Protocol(z, events) && Do(z, events, Store(ev)).Done?
    ensures Protocol(Do(z, events, Store(ev)).z, events)
  {
    var t := z.y.k.current.value;
    assert |z.stored + {t}| == |z.stored| + 1;
    assert z.pushed + [ev] == z.popped + (z.queue + [ev]);
  }

  lemma AnnounceKeeps<T, S, C, E>(z: Input<T, S, C, E>, events: S)
    requires Protocol(z, events) && Do(z, events, Act<T, S, C, E>.Announce).Done?
    ensures Protocol(Do(z, events, Act<T, S, C, E>.Announce).z, events)
  {
    PostInv(z.y, events);
    PostUnits(z.y, events);
    var t := z.y.k.current.value;
    assert |z.stored - {t}| == |z.stored| - 1;
  }

  lemma TakeKeeps<T, S, C, E>(z: Input<T, S, C, E>, events: S)
    requires Protocol(z, events) && Do(z, events, Act<T, S, C, E>.Take).Done?
    ensures Protocol(Do(z, events, Act<T, S, C, E>.Take).z, events)
  {
    UseInv(z.y, events);
    UseUnits(z.y, events);
    assert z.popped + z.queue == z.popped + [z.queue[0]] + z.queue[1..];
  }

  /** A consumer that was granted a unit finds an event: "input queue empty" cannot happen. */
  lemma NeverEmpty<T, S, C, E>(z: Input<T, S, C, E>, events: S, a: Act<T, S, C, E>)
    requires Protocol(z, events)
    ensures !Do(z, events, a).Empty?
  {
    if a.Take? && events in z.y.k.sems && z.y.Holds(events) {
      UseUnits(z.y, events);
    }
  }

  /** Which acts a run can take. A task outside sem_wait, while the semaphore is there, may always store
      an event unless it has one to announce, announce the one it has stored, and take one if it was
      granted a unit; all other steps of the kernel stay possible but for those that use the semaphore
      otherwise. */
  lemma ActPossible<T, S, C, E>(z: Input<T, S, C, E>, events: S, a: Act<T, S, C, E>)
    requires Protocol(z, events)
    ensures var y, t := z.y, z.y.k.current;
      var task := y.trap.None? && t.Some? && y.phase[t.value] == User && events in y.k.sems;
      !Do(z, events, a).Impossible? <==>
        match a
        case Store(_) => task && t.value !in z.stored
        case Announce => task && t.value in z.stored
        case Take => task && t.value in y.book[events].holders
        case Machine(l) =>
          && Next(y, l).Some? && l != Post(events) && l != Leave(events) && l != Use(events)
          && (l.Open? && l.s == events ==> l.value == 0)
          && (l == Acquire(events) ==> t.Some? && t.value !in y.book[events].holders)
  {
    if a.Machine? && a.l == Acquire(events) { Possible(z.y, a.l); }
  }

  /** A run of the protocol up to its end or its first failure. */
  function Play<T, S, C, E>(z: Input<T, S, C, E>, events: S, acts: seq<Act<T, S, C, E>>): Result<T, S, C, E> {
    if acts == [] then Done(z)
    else
      var before := Play(z, events, Init(acts));
      if before.Done? then Do(before.z, events, Last(acts)) else before
  }

  lemma {:induction false} PlayKeeps<T, S, C, E>(z: Input<T, S, C, E>, events: S, acts: seq<Act<T, S, C, E>>)
    requires Protocol(z, events)
    ensures Play(z, events, acts).Done? ==> Protocol(Play(z, events, acts).z, events)
    ensures !Play(z, events, acts).Empty?
    decreases |acts|
  {
    if acts != [] {
      PlayKeeps(z, events, Init(acts));
      var before := Play(z, events, Init(acts));
      if before.Done? {
        NeverEmpty(before.z, events, Last(acts));
        ActKeeps(before.z, events, Last(acts));
      }
    }
  }

  lemma ActKeeps<T, S, C, E>(z: Input<T, S, C, E>, events: S, a: Act<T, S, C, E>)
    requires Protocol(z, events)
    ensures Do(z, events, a).Done? ==> Protocol(Do(z, events, a).z, events)
  {
    if Do(z, events, a).Done? {
      match a
      case Machine(l) => KernelKeeps(z, events, l);
      case Store(ev) => StoreKeeps(z, events, ev);
      case Announce => AnnounceKeeps(z, events);
      case Take => TakeKeeps(z, events);
    }
  }

  function Start<T, S, C, E>(idle: T, c: C): Input<T, S, C, E> {
    Input(Boot(idle, c), [], {}, [], [])
  }

  /** The events that the acts of a run store. */
  function Events<T, S, C, E>(acts: seq<Act<T, S, C, E>>): seq<E> {
    if acts == [] then [] else Events(Init(acts)) + if Last(acts).Store? then [Last(acts).ev] else []
  }

  lemma {:induction false} FromActs<T, S, C, E>(z: Input<T, S, C, E>, events: S, acts: seq<Act<T, S, C, E>>)
    requires z.pushed == [] && z.popped == [] && z.stored == {} && Play(z, events, acts).Done?
    ensures var z' := Play(z, events, acts).z;
      && z'.pushed == Events(acts) && |Events(acts)| == Count(acts, (a: Act<T, S, C, E>) => a.Store?)
      && |z'.popped| == Count(acts, (a: Act<T, S, C, E>) => a.Take?)
      && |z'.stored| + Count(acts, (a: Act<T, S, C, E>) => a.Announce?) == |Events(acts)|
    decreases |acts|
  {
    if acts != [] {
      FromActs(z, events, Init(acts));
      StoredBy(Play(z, events, Init(acts)).z, events, Last(acts));
    }
  }

  /** What one act does to the events stored, the number of those taken and the producers under way. */
  lemma StoredBy<T, S, C, E>(z: Input<T, S, C, E>, events: S, a: Act<T, S, C, E>)
    requires Do(z, events, a).Done?
    ensures var z' := Do(z, events, a).z;
      && z'.pushed == z.pushed + (if a.Store? then [a.ev] else [])
      && |z'.popped| == |z.popped| + (if a.Take? then 1 else 0)
      && |z'.stored| == |z.stored| + (if a.Store? then 1 else if a.Announce? then -1 else 0)
  {
    if a.Store? { assert |z.stored + {z.y.k.current.value}| == |z.stored| + 1; }
    if a.Announce? { assert |z.stored - {z.y.k.current.value}| == |z.stored| - 1; }
  }

  /** In every run from boot, the queue never runs empty under a consumer; its length is what the
      semaphore, the consumers granted an event and the producers that have not signalled theirs yet
      account for; and one event was taken per act of taking, in the order in which they were stored. */
  lemma EveryRun<T, S, C, E>(idle: T, c: C, events: S, acts: seq<Act<T, S, C, E>>)
    ensures var r := Play(Start(idle, c), events, acts);
      && !r.Empty?
      && (r.Done? && events in r.z.y.k.sems && events in r.z.y.book ==>
            |r.z.queue| == r.z.y.k.sems[events].count + |r.z.y.book[events].holders|
                           + |Events(acts)| - Count(acts, (a: Act<T, S, C, E>) => a.Announce?))
      && (r.Done? ==> r.z.popped + r.z.queue == Events(acts)
                      && |r.z.popped| == Count(acts, (a: Act<T, S, C, E>) => a.Take?))
  {
    BootInv<T, S, C>(idle, c);
    PlayKeeps(Start(idle, c), events, acts);
    if Play(Start(idle, c), events, acts).Done? {
      FromActs(Start(idle, c), events, acts);
    }
  }

  /** The panic "input queue full" comes exactly when 127 events are outstanding. */
  lemma FullWhenOutstanding<T, S, C, E>(z: Input<T, S, C, E>, events: S, ev: E)
    requires Protocol(z, events) && !Do(z, events, Store(ev)).Impossible?
    ensures Do(z, events, Store(ev)).Full? <==>
      z.y.k.sems[events].count + |z.y.book[events].holders| + |z.stored| >= 127
  {
  }
}
