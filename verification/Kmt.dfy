/** The tasks and semaphores of one CPU, as functions on lists: what create, sem_wait,
    sem_signal and the two trap handlers do between taking and releasing their locks.
    Tasks, semaphores and saved contexts are opaque. */
module Kmt {
  import opened Options
  import opened Lists

  /** TASK_DEAD and TASK_NULL are never assigned to a task. */
  datatype Status = Ready | Running | Sleeping

  datatype Sem<T> = Sem(count: nat, waiting: seq<T>)

  datatype Event = NoEvent | Yield | Syscall | PageFault | Error | IrqTimer | IrqIodev

  /** `current` is None before the first task is dispatched, `idle` is buf_task. */
  datatype Kernel<T(==), S(==), C> = Kernel(current: Option<T>, ready: seq<T>, idle: T,
                                            status: map<T, Status>, context: map<T, C>, sems: map<S, Sem<T>>)
  {
    predicate Waits(s: S, t: T) { s in sems && t in sems[s].waiting }

    /** t is linked into some list. */
    ghost predicate Listed(t: T) { t in ready || Waiting(t) }

    ghost predicate Waiting(t: T) { exists s :: s in sems && Waits(s, t) }

    /** No task is linked twice, into one list or into two. */
    ghost predicate Shape() {
      && idle in status && context.Keys == status.Keys
      && (forall t :: t in ready ==> t in status)
      && (forall s :: s in sems ==> forall t :: t in sems[s].waiting ==> t in status && t !in ready)
      && (forall s, s', t :: s in sems && s' in sems && t in status && Waits(s, t) && Waits(s', t) ==> s == s')
      && Distinct(ready)
      && (forall s :: s in sems ==> Distinct(sems[s].waiting))
    }

    /** Shape, and every task is where its status says. */
    ghost predicate Placed() {
      && Shape()
      && (current.Some? ==> current.value in status)
      && status[idle] != Sleeping && !Listed(idle)
      && (forall t :: t in status && t != idle ==> WellPlaced(t))
    }

    ghost predicate WellPlaced(t: T)
      requires t in status
    {
      && (t in ready ==> status[t] == Ready && current != Some(t))
      && (Waiting(t) <==> status[t] == Sleeping)
      && (status[t] == Ready ==> t in ready || current == Some(t))
      && (status[t] == Running ==> current == Some(t))
    }
  }

  /** q without the first t in it. */
  function Without<T(==)>(q: seq<T>, t: T): seq<T> {
    if q == [] then [] else if q[0] == t then q[1..] else [q[0]] + Without(q[1..], t)
  }

  // ---------------------------------------------------------------- the operations

  /** After kmt_init: no task but the idle one. */
  function NoTasks<T, S, C>(idle: T, c: C): Kernel<T, S, C> {
    Kernel(None, [], idle, map[idle := Ready], map[idle := c], map[])
  }

  /** push_task. */
  function Push<T, S, C>(k: Kernel<T, S, C>, t: T): Kernel<T, S, C>
    requires t in k.status
  {
    if k.status[t].Sleeping? then k else k.(status := k.status[t := Ready], ready := k.ready + [t])
  }

  /** kmt_create, with the context that kcontext made. */
  function Create<T, S, C>(k: Kernel<T, S, C>, t: T, c: C): Kernel<T, S, C> {
    Push(WithRecord(k, t, c), t)
  }

  function WithRecord<T, S, C>(k: Kernel<T, S, C>, t: T, c: C): Kernel<T, S, C> {
    k.(status := k.status[t := Ready], context := k.context[t := c])
  }

  /** kmt_sem_init on a semaphore not in use. */
  function InitSem<T, S, C>(k: Kernel<T, S, C>, s: S, value: nat): Kernel<T, S, C> {
    k.(sems := k.sems[s := Sem(value, [])])
  }

  function SetSem<T, S, C>(k: Kernel<T, S, C>, s: S, sem: Sem<T>): Kernel<T, S, C> {
    k.(sems := k.sems[s := sem])
  }

  /** kmt_sem_wait up to the release of its lock: None is the failed assertion that a task
      is running. A task that must wait is left current and asleep. */
  function Wait<T, S, C>(k: Kernel<T, S, C>, s: S): Option<Kernel<T, S, C>>
    requires s in k.sems
  {
    var sem := k.sems[s];
    if sem.count > 0 then Some(SetSem(k, s, Sem(sem.count - 1, sem.waiting)))
    else if k.current.None? then None
    else
      var t := k.current.value;
      Some(SetSem(k, s, Sem(sem.count, sem.waiting + [t])).(status := k.status[t := Sleeping]))
  }

  /** The task that a signal wakes, if any: the current task when it is on its way to sleep on
      this semaphore, otherwise the first in line. */
  function Woken<T, S, C>(k: Kernel<T, S, C>, s: S): Option<T>
    requires s in k.sems
  {
    if k.current.None? || k.sems[s].waiting == [] then None
    else if Interrupted(k, s) then k.current
    else Some(k.sems[s].waiting[0])
  }

  /** The current task is in the window of sem_wait between the lock and the yield. */
  predicate Interrupted<T, S, C>(k: Kernel<T, S, C>, s: S)
    requires s in k.sems && k.current.Some?
  {
    var t := k.current.value;
    t in k.status && k.status[t].Sleeping? && t in k.sems[s].waiting
  }

  /** kmt_sem_signal. */
  function Signal<T, S, C>(k: Kernel<T, S, C>, s: S): Kernel<T, S, C>
    requires s in k.sems
  {
    var sem := k.sems[s];
    if Woken(k, s).None? then SetSem(k, s, Sem(sem.count + 1, sem.waiting))
    else
      var t := Woken(k, s).value;
      if Interrupted(k, s) then Wake(k, s, t) else Push(Wake(k, s, t), t)
  }

  /** Takes t out of the waiting list of s. */
  function Wake<T, S, C>(k: Kernel<T, S, C>, s: S, t: T): Kernel<T, S, C>
    requires s in k.sems
  {
    SetSem(k, s, Sem(k.sems[s].count, Without(k.sems[s].waiting, t))).(status := k.status[t := Ready])
  }

  /** kmt_context_save. */
  function Save<T, S, C>(k: Kernel<T, S, C>, c: C): Kernel<T, S, C> {
    if k.current.Some? then k.(context := k.context[k.current.value := c]) else k
  }

  /** The events on which the CPU may change tasks. */
  predicate Reschedules(ev: Event) { ev.Yield? || ev.IrqTimer? || ev.IrqIodev? }

  function Requeue<T, S, C>(k: Kernel<T, S, C>): Kernel<T, S, C>
    requires k.current.Some? ==> k.current.value in k.status
  {
    if k.current.Some? && k.current.value != k.idle then Push(k, k.current.value) else k
  }

  function Dispatch<T, S, C>(k: Kernel<T, S, C>): Kernel<T, S, C> {
    var t := if k.ready == [] then k.idle else k.ready[0];
    k.(ready := if k.ready == [] then [] else k.ready[1..], status := k.status[t := Running], current := Some(t))
  }

  /** The scheduling part of kmt_schedule. */
  function Schedule<T, S, C>(k: Kernel<T, S, C>): Kernel<T, S, C>
    requires k.current.Some? ==> k.current.value in k.status
  {
    Dispatch(Requeue(k))
  }

  // ---------------------------------------------------------------- lists

  lemma {:induction false} WithoutAt<T>(q: seq<T>, i: nat)
    requires Distinct(q) && i < |q|
    ensures Without(q, q[i]) == q[..i] + q[i + 1..]
  {
    if i > 0 {
      assert Distinct(q[1..]) && q[1..][i - 1] == q[i];
      WithoutAt(q[1..], i - 1);
      assert [q[0]] + q[1..][..i - 1] == q[..i];
    }
  }

  lemma WithoutKeeps<T>(q: seq<T>, t: T)
    requires Distinct(q) && t in q
    ensures Distinct(Without(q, t)) && |Without(q, t)| == |q| - 1
    ensures forall u :: u in Without(q, t) <==> u in q && u != t
  {
    var i :| 0 <= i < |q| && q[i] == t;
    WithoutAt(q, i);
    var w := q[..i] + q[i + 1..];
    forall u | u in q && u != t ensures u in w {
      var j :| 0 <= j < |q| && q[j] == u;
      assert if j < i then w[j] == u else w[j - 1] == u;
    }
  }

  // ---------------------------------------------------------------- no task is linked twice

  lemma SameWaiting<T, S, C>(k: Kernel<T, S, C>, k': Kernel<T, S, C>)
    requires k.sems == k'.sems
    ensures forall t :: k'.Waiting(t) <==> k.Waiting(t)
  {
    assert forall s, t :: k'.Waits(s, t) <==> k.Waits(s, t);
  }

  lemma PushShape<T, S, C>(k: Kernel<T, S, C>, t: T)
    requires k.Shape() && t in k.status && (k.status[t].Sleeping? || !k.Listed(t))
    ensures Push(k, t).Shape()
  {
    var k' := Push(k, t);
    assert forall s, u :: k'.Waits(s, u) <==> k.Waits(s, u);
    if !k.status[t].Sleeping? {
      forall s | s in k.sems ensures t !in k.sems[s].waiting {
        assert k.Waits(s, t) ==> k.Waiting(t);
      }
    }
  }

  lemma DispatchShape<T, S, C>(k: Kernel<T, S, C>)
    requires k.Shape()
    ensures Dispatch(k).Shape()
  {
    var k' := Dispatch(k);
    assert forall s, u :: k'.Waits(s, u) <==> k.Waits(s, u);
    assert forall u :: u in k'.ready ==> u in k.ready;
  }

  lemma WakeWaits<T, S, C>(k: Kernel<T, S, C>, s: S, t: T)
    requires k.Shape() && k.Waits(s, t)
    ensures forall s', u :: Wake(k, s, t).Waits(s', u) <==> k.Waits(s', u) && u != t
    ensures forall u :: Wake(k, s, t).Waiting(u) <==> k.Waiting(u) && u != t
  {
    WithoutKeeps(k.sems[s].waiting, t);
    var k' := Wake(k, s, t);
    forall s', u ensures k'.Waits(s', u) <==> k.Waits(s', u) && u != t {
      if k.Waits(s', t) { assert s' == s; }
    }
    forall u ensures k'.Waiting(u) <==> k.Waiting(u) && u != t {
      if k.Waiting(u) && u != t {
        var s' :| s' in k.sems && k.Waits(s', u);
        assert k'.Waits(s', u);
      }
    }
  }

  lemma WakeShape<T, S, C>(k: Kernel<T, S, C>, s: S, t: T)
    requires k.Shape() && k.Waits(s, t)
    ensures Wake(k, s, t).Shape() && !Wake(k, s, t).Listed(t)
  {
    WakeWaits(k, s, t);
    WithoutKeeps(k.sems[s].waiting, t);
    var k' := Wake(k, s, t);
    forall s', u | s' in k'.sems && u in k'.sems[s'].waiting ensures u in k'.status && u !in k'.ready {
      assert k'.Waits(s', u);
      assert k.Waits(s', u);
    }
  }

  lemma WaitShape<T, S, C>(k: Kernel<T, S, C>, s: S)
    requires k.Shape() && s in k.sems && Wait(k, s).Some?
    requires k.current.Some? ==> k.current.value in k.status && !k.Listed(k.current.value)
    ensures Wait(k, s).value.Shape()
    ensures forall u :: Wait(k, s).value.Waiting(u) <==> k.Waiting(u) || (k.sems[s].count == 0 && k.current == Some(u))
  {
    var k' := Wait(k, s).value;
    forall s', u
      ensures k'.Waits(s', u) <==> k.Waits(s', u) || (k.sems[s].count == 0 && s' == s && k.current == Some(u))
    {
    }
    if k.sems[s].count == 0 {
      var t := k.current.value;
      assert k'.Waits(s, t);
      forall s' ensures !k.Waits(s', t) {
        assert k.Waits(s', t) ==> k.Waiting(t);
      }
    }
  }

  // ---------------------------------------------------------------- every task stays where its status says

  lemma RecordShape<T, S, C>(k: Kernel<T, S, C>, t: T, c: C)
    requires k.Shape() && t !in k.status
    ensures WithRecord(k, t, c).Shape() && !WithRecord(k, t, c).Listed(t)
  {
    var k1 := WithRecord(k, t, c);
    assert forall s, u :: k1.Waits(s, u) <==> k.Waits(s, u);
    assert forall s, u :: k.Waits(s, u) ==> u in k.status;
  }

  lemma CreatePlaced<T, S, C>(k: Kernel<T, S, C>, t: T, c: C)
    requires k.Placed() && t !in k.status
    ensures Create(k, t, c).Placed()
    ensures Create(k, t, c) ==
      k.(ready := k.ready + [t], status := k.status[t := Ready], context := k.context[t := c])
  {
    RecordShape(k, t, c);
    PushShape(WithRecord(k, t, c), t);
    var k' := Create(k, t, c);
    SameWaiting(k, k');
    forall u | u in k'.status && u != k'.idle ensures k'.WellPlaced(u) {
      if u != t { assert k.WellPlaced(u); }
    }
  }

  lemma InitSemPlaced<T, S, C>(k: Kernel<T, S, C>, s: S, value: nat)
    requires k.Placed() && s !in k.sems
    ensures InitSem(k, s, value).Placed()
  {
    var k' := InitSem(k, s, value);
    assert forall s', u :: k'.Waits(s', u) <==> k.Waits(s', u);
    assert forall u :: k'.Waiting(u) <==> k.Waiting(u);
    forall u | u in k'.status && u != k'.idle ensures k'.WellPlaced(u) {
      assert k.WellPlaced(u);
    }
  }

  lemma WaitPlaced<T, S, C>(k: Kernel<T, S, C>, s: S)
    requires k.Placed() && s in k.sems && Wait(k, s).Some?
    requires k.current.Some? ==> k.current.value != k.idle && !k.status[k.current.value].Sleeping?
    ensures Wait(k, s).value.Placed()
  {
    if k.current.Some? { assert k.WellPlaced(k.current.value); }
    WaitShape(k, s);
    var k' := Wait(k, s).value;
    forall u | u in k'.status && u != k'.idle ensures k'.WellPlaced(u) {
      assert k.WellPlaced(u);
    }
  }

  lemma SignalPlaced<T, S, C>(k: Kernel<T, S, C>, s: S)
    requires k.Placed() && s in k.sems
    ensures Signal(k, s).Placed()
  {
    var k' := Signal(k, s);
    if Woken(k, s).None? {
      assert forall s', u :: k'.Waits(s', u) <==> k.Waits(s', u);
      assert forall u :: k'.Waiting(u) <==> k.Waiting(u);
      forall u | u in k'.status && u != k'.idle ensures k'.WellPlaced(u) {
        assert k.WellPlaced(u);
      }
    } else {
      WakePlaced(k, s, Woken(k, s).value);
    }
  }

  lemma WakePlaced<T, S, C>(k: Kernel<T, S, C>, s: S, t: T)
    requires k.Placed() && s in k.sems && Woken(k, s) == Some(t)
    ensures Signal(k, s).Placed()
  {
    assert k.Waits(s, t) && k.Waiting(t);
    WakeWaits(k, s, t);
    WakeShape(k, s, t);
    assert k.WellPlaced(t);
    var k1, k' := Wake(k, s, t), Signal(k, s);
    if !Interrupted(k, s) { PushShape(k1, t); }
    SameWaiting(k1, k');
    forall u | u in k'.status && u != k'.idle ensures k'.WellPlaced(u) {
      assert k.WellPlaced(u);
    }
  }

  lemma SavePlaced<T, S, C>(k: Kernel<T, S, C>, c: C)
    requires k.Placed()
    ensures Save(k, c).Placed()
  {
    var k' := Save(k, c);
    assert forall s, u :: k'.Waits(s, u) <==> k.Waits(s, u);
    SameWaiting(k, k');
    forall u | u in k'.status && u != k'.idle ensures k'.WellPlaced(u) {
      assert k.WellPlaced(u);
    }
  }

  lemma RequeueShape<T, S, C>(k: Kernel<T, S, C>)
    requires k.Placed()
    ensures Requeue(k).Shape()
  {
    if k.current.Some? && k.current.value != k.idle {
      assert k.WellPlaced(k.current.value);
      PushShape(k, k.current.value);
    }
  }

  /** Where a dispatch leaves one task. */
  lemma DispatchMoves<T, S, C>(q: Kernel<T, S, C>, u: T)
    requires Distinct(q.ready)
    ensures q.ready != [] ==> (u in q.ready <==> u in Dispatch(q).ready || u == q.ready[0])
    ensures q.ready != [] ==> q.ready[0] !in Dispatch(q).ready
    ensures q.ready == [] ==> Dispatch(q).ready == []
  {
  }

  lemma ScheduleMoves<T, S, C>(k: Kernel<T, S, C>, u: T)
    requires k.Placed() && u in k.status && u != k.idle
    ensures Schedule(k).WellPlaced(u)
  {
    var q, k' := Requeue(k), Schedule(k);
    RequeueShape(k);
    SameWaiting(k, k');
    DispatchMoves(q, u);
    assert k.WellPlaced(u);
    assert u in q.ready <==> u in k.ready || (k.current == Some(u) && !k.status[u].Sleeping?);
    assert u in q.ready ==> q.status[u] == Ready;
  }

  lemma SchedulePlaced<T, S, C>(k: Kernel<T, S, C>)
    requires k.Placed()
    ensures Schedule(k).Placed()
  {
    RequeueShape(k);
    DispatchShape(Requeue(k));
    SameWaiting(k, Schedule(k));
    forall u | u in k.status && u != k.idle ensures Schedule(k).WellPlaced(u) {
      ScheduleMoves(k, u);
    }
    DispatchMoves(Requeue(k), k.idle);
  }

  /** The idle task runs only when nothing else could, the interrupted task included. */
  lemma IdleOnlyIfNothingReady<T, S, C>(k: Kernel<T, S, C>)
    requires k.Placed()
    ensures Schedule(k).current == Some(k.idle) <==>
      k.ready == [] && (k.current.None? || k.current.value == k.idle || k.status[k.current.value].Sleeping?)
  {
    if k.current.Some? && k.current.value != k.idle {
      assert k.WellPlaced(k.current.value);
    }
    assert forall i :: 0 <= i < |k.ready| ==> k.ready[i] in k.ready;
  }

  /** What a signal changes: one task that waited here no longer waits, or the count grows. */
  lemma SignalEffect<T, S, C>(k: Kernel<T, S, C>, s: S)
    requires k.Placed() && s in k.sems
    ensures var k', w := Signal(k, s), Woken(k, s);
      && k'.current == k.current && k'.sems.Keys == k.sems.Keys && k'.context == k.context
      && (forall s' :: s' in k.sems && s' != s ==> k'.sems[s'] == k.sems[s'])
      && (w.None? ==> k'.status == k.status && k'.sems[s] == Sem(k.sems[s].count + 1, k.sems[s].waiting))
      && (w.Some? ==> k.Waits(s, w.value) && k.status[w.value] == Sleeping && k'.status == k.status[w.value := Ready]
                      && k'.sems[s].count == k.sems[s].count)
      && (forall s', u :: k'.Waits(s', u) <==> k.Waits(s', u) && w != Some(u))
  {
    if Woken(k, s).Some? {
      var t := Woken(k, s).value;
      assert k.Waits(s, t) && k.Waiting(t);
      WakeWaits(k, s, t);
      assert k.WellPlaced(t);
      var k1, k' := Wake(k, s, t), Signal(k, s);
      assert k'.sems == k1.sems;
      assert forall s', u :: k'.Waits(s', u) <==> k1.Waits(s', u);
    }
  }

  /** What a dispatch changes: a task that was awake runs, and no task falls asleep. */
  lemma ScheduleEffect<T, S, C>(k: Kernel<T, S, C>)
    requires k.Placed()
    ensures var k' := Schedule(k);
      && k'.current.Some? && k'.sems == k.sems && k'.context == k.context && k'.status.Keys == k.status.Keys
      && k'.status[k'.current.value] == Running && k.status[k'.current.value] != Sleeping
      && (forall u :: u in k.status ==> (k'.status[u] == Sleeping <==> k.status[u] == Sleeping))
  {
    SchedulePlaced(k);
    RequeueShape(k);
    var q, k' := Requeue(k), Schedule(k);
    var t := k'.current.value;
    if q.ready != [] {
      assert q.ready[0] in q.ready;
      if t != k.idle { assert k.WellPlaced(t); }
    }
  }

  /** What a wait changes: it takes a unit, or puts the current task last in line, asleep. */
  lemma WaitEffect<T, S, C>(k: Kernel<T, S, C>, s: S)
    requires k.Placed() && s in k.sems && Wait(k, s).Some?
    requires k.current.Some? ==> k.current.value != k.idle && k.status[k.current.value] == Running
    ensures var k' := Wait(k, s).value;
      && k'.current == k.current && k'.sems.Keys == k.sems.Keys && k'.context == k.context
      && (forall s' :: s' in k.sems && s' != s ==> k'.sems[s'] == k.sems[s'])
      && (k.sems[s].count > 0 ==>
            k'.status == k.status && k'.sems[s] == Sem(k.sems[s].count - 1, k.sems[s].waiting)
            && forall s', u :: k'.Waits(s', u) <==> k.Waits(s', u))
      && (k.sems[s].count == 0 ==>
            && k.current.Some? && k'.sems[s] == Sem(0, k.sems[s].waiting + [k.current.value])
            && k'.status == k.status[k.current.value := Sleeping]
            && (forall s' :: !k.Waits(s', k.current.value))
            && forall s', u :: k'.Waits(s', u) <==> k.Waits(s', u) || (s' == s && k.current == Some(u)))
  {
    if k.sems[s].count == 0 {
      var t := k.current.value;
      assert k.WellPlaced(t);
      forall s' ensures !k.Waits(s', t) {
        assert k.Waits(s', t) ==> k.Waiting(t);
      }
    }
  }

  /** A dispatch that does not put the current task back: it is lost, in no list and not current,
      exactly when it was not asleep. */
  lemma NotRequeued<T, S, C>(k: Kernel<T, S, C>)
    requires k.Placed() && k.current.Some? && k.current.value != k.idle
    ensures var t, k' := k.current.value, Dispatch(k);
      && (k'.Placed() <==> k.status[t] == Sleeping)
      && (k.status[t] != Sleeping ==> k'.current != Some(t) && !k'.Listed(t))
  {
    var t, k' := k.current.value, Dispatch(k);
    assert k.WellPlaced(t);
    if k.status[t] == Sleeping {
      assert k' == Schedule(k);
      SchedulePlaced(k);
    } else {
      assert t !in k'.ready && k'.current != Some(t);
      assert !k'.Waiting(t) by {
        forall s | s in k'.sems ensures !k'.Waits(s, t) { assert k.Waits(s, t) ==> k.Waiting(t); }
      }
      assert k'.status[t] == k.status[t] && !k'.WellPlaced(t);
    }
  }
}
