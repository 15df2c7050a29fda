/** The task and semaphore records in memory: every field is a table from addresses, and one
    `next` field links a task into the ready list or into one waiting list. Each operation is
    proved to do to memory what its function in Kmt does to the lists. */
module KmtMemory {
  import opened Options
  import opened Lists
  import opened Kmt
  import opened KmtLinks

  type Addr = nat

  const NULL: Addr := 0

  /** The bind_cpu of the idle task. */
  const IDLE_CPU := -2

  type Tasks = Kernel<Addr, Addr, nat>

  function Ref(t: Option<Addr>): Addr { if t.Some? then t.value else NULL }

  /** The `next` fields that make the lists of k. */
  ghost predicate Linked(k: Tasks, next: map<Addr, Addr>) {
    && NULL !in k.status && next.Keys == k.status.Keys
    && forall t {:trigger Next(k, t)} :: t in k.status ==> next[t] == Ref(Next(k, t))
  }

  /** What sem_wait comes to: a unit taken, the current task queued and about to yield, or the
      failed assertion that there is a current task. */
  datatype Waited = Took | Queued | NoTask

  class Scheduler {
    var current: Addr
    var head: Addr
    var tail: Addr
    const idle: Addr
    // the fields of task_t
    var status: map<Addr, Status>
    var next: map<Addr, Addr>
    var context: map<Addr, nat>
    var bindCpu: map<Addr, int>
    // the fields of sem_t
    var count: map<Addr, int>
    var wl: map<Addr, Addr>
    // the lists
    ghost var k: Tasks

    /** Memory holds the lists of k. */
    ghost predicate Valid()
      reads this
    {
      Linked(k, next) && InMemory()
    }

    ghost predicate InMemory()
      reads this
    {
      Heads() && Fields() && Sems()
    }

    ghost predicate Heads()
      reads this
    {
      && (k.current.Some? ==> k.current.value in k.status)
      && current == Ref(k.current)
      && head == Ref(First(k.ready)) && tail == Ref(Final(k.ready))
    }

    ghost predicate Fields()
      reads this
    {
      && k.idle == idle && status == k.status && context == k.context && bindCpu.Keys == k.status.Keys
      && idle in bindCpu && bindCpu[idle] == IDLE_CPU
    }

    ghost predicate Sems()
      reads this
    {
      && count.Keys == k.sems.Keys == wl.Keys
      && forall s :: s in k.sems ==> count[s] == k.sems[s].count && wl[s] == Ref(First(k.sems[s].waiting))
    }

    /** kmt_init. */
    constructor (idle: Addr, c: nat)
      requires idle != NULL
      ensures Valid() && k.Placed()
      ensures k == NoTasks<Addr, Addr, nat>(idle, c)
    {
      this.idle := idle;
      current, head, tail := NULL, NULL, NULL;
      status, next, context, bindCpu := map[idle := Ready], map[idle := NULL], map[idle := c], map[idle := IDLE_CPU];
      count, wl := map[], map[];
      k := NoTasks<Addr, Addr, nat>(idle, c);
      new;
      NextFree(k, idle);
    }

    // ---------------------------------------------------------------- lists

    /** push_task. */
    method PushTask(task: Addr, st: Status)
      requires InMemory() && task in k.status && st == k.status[task] && NULL !in k.status
      requires st != Sleeping ==> Behind(k, task)
      modifies `head, `tail, `next, `status, `k
      ensures InMemory() && k == Push(old(k), task)
      ensures next == if st == Sleeping then old(next) else Appended(old(next), Final(old(k).ready), task)
    {
      if st == Sleeping {
        return;
      }
      LinkLast(task);
      status := status[task := Ready];
      k := Push(k, task);
    }

    /** Links a task behind the last one of the ready list. */
    method LinkLast(task: Addr)
      requires Heads() && NULL !in k.status && Behind(k, task)
      modifies `head, `tail, `next
      ensures next == Appended(old(next), Final(k.ready), task)
      ensures head == Ref(First(k.ready + [task])) && tail == Ref(Final(k.ready + [task]))
    {
      next := next[task := NULL];
      if tail != NULL {
        next := next[tail := task];
        tail := task;
      } else {
        head := task;
        tail := task;
      }
    }

    /** pop_task of the ready list; NULL if it is empty. */
    method PopTask() returns (task: Addr)
      requires InMemory() && NULL !in k.status && Chained(next, k.ready)
      modifies `head, `tail, `next, `k
      ensures InMemory() && task == Ref(First(old(k).ready))
      ensures k == old(k).(ready := if old(k).ready == [] then [] else old(k).ready[1..])
      ensures next == if old(k).ready == [] then old(next) else old(next)[task := NULL]
    {
      assert k.ready != [] ==> LinkOk(next, k.ready, 0);
      assert |k.ready| > 1 ==> LinkOk(next, k.ready, 1);
      task := head;
      if head != NULL {
        var rest := next[head];
        next := next[task := NULL];
        head := rest;
        if rest == NULL {
          tail := NULL;
        }
        k := k.(ready := k.ready[1..]);
      }
    }

    /** The last node of the waiting list of s, or NULL. */
    method LastWaiter(s: Addr, ghost q: seq<Addr>) returns (p: Addr)
      requires s in wl && wl[s] == Ref(First(q)) && Chained(next, q)
      ensures p == Ref(Final(q))
    {
      ghost var i := 0;
      p := wl[s];
      assert q != [] ==> LinkOk(next, q, 0);
      assert |q| > 1 ==> LinkOk(next, q, 1);
      while p != NULL && next[p] != NULL
        invariant q == [] ==> p == NULL
        invariant q != [] ==> 0 <= i < |q| && p == q[i] && LinkOk(next, q, i)
        invariant q != [] && i + 1 < |q| ==> LinkOk(next, q, i + 1)
        decreases |q| - i
      {
        p := next[p];
        i := i + 1;
        assert i + 1 < |q| ==> LinkOk(next, q, i + 1);
      }
    }

    /** Looks for t in the waiting list of s; `last` is the node before it. */
    method FindWaiter(s: Addr, t: Addr) returns (found: bool, last: Addr)
      requires InMemory() && s in k.sems && Chained(next, k.sems[s].waiting) && t != NULL
      ensures found <==> t in k.sems[s].waiting
      ensures found ==> Precedes(k.sems[s].waiting, last, t)
    {
      ghost var q, i := k.sems[s].waiting, 0;
      var ref := wl[s];
      last := NULL;
      while ref != NULL && ref != t
        invariant 0 <= i <= |q| && ref == (if i < |q| then q[i] else NULL)
        invariant last == (if i > 0 then q[i - 1] else NULL)
        invariant t !in q[..i]
        decreases |q| - i
      {
        assert LinkOk(next, q, i);
        last := ref;
        ref := next[ref];
        i := i + 1;
      }
      found := ref == t;
      if i < |q| {
        assert LinkOk(next, q, i);
        assert PrecedesAt(q, i, last, q[i]);
      } else {
        assert q[..i] == q;
      }
    }

    // ---------------------------------------------------------------- tasks

    /** kmt_create of a task record not in use, with the context that kcontext made. */
    method CreateTask(task: Addr, c: nat, bind: int)
      requires Valid() && k.Placed() && task !in k.status && task != NULL
      modifies `head, `tail, `next, `status, `context, `bindCpu, `k
      ensures Valid() && k == Create(old(k), task, c) && bindCpu == old(bindCpu)[task := bind]
    {
      CreateLinked(k, next, task, c);
      InitRecord(task, c, bind);
      PushTask(task, Ready);
    }

    method InitRecord(task: Addr, c: nat, bind: int)
      requires InMemory() && task !in k.status && k.idle in k.status
      modifies `next, `status, `context, `bindCpu, `k
      ensures InMemory() && k == WithRecord(old(k), task, c)
      ensures bindCpu == old(bindCpu)[task := bind] && next == old(next)[task := NULL]
    {
      bindCpu := bindCpu[task := bind];
      status := status[task := Ready];
      next := next[task := NULL];
      context := context[task := c];
      k := WithRecord(k, task, c);
    }

    /** kmt_context_save. */
    method ContextSave(c: nat)
      requires Valid() && k.Placed()
      modifies `context, `k
      ensures Valid() && k == Save(old(k), c)
    {
      SaveLinked(k, next, c);
      if current != NULL {
        context := context[current := c];
      }
      k := Save(k, c);
    }

    /** kmt_schedule: the context to go on with. Without a current task it may only be called
        for an event that makes one. A current task with the bind_cpu of the idle task is not
        requeued. */
    method ScheduleNext(ev: Event) returns (c: nat)
      requires Valid() && k.Placed()
      requires current != NULL || ev == Yield || ev == IrqTimer || ev == IrqIodev
      modifies `current, `head, `tail, `next, `status, `k
      ensures Valid()
      ensures k ==
        if ev != Yield && ev != IrqTimer && ev != IrqIodev then old(k)
        else if old(Kept()) then Schedule(old(k))
        else Dispatch(old(k))
      ensures k.current.Some? && c == k.context[k.current.value]
    {
      if Reschedules(ev) {
        RequeueShape(k);
        RequeueCurrent();
        DispatchFirst();
      }
      c := context[current];
    }

    /** The current task, if any, goes back to the ready list. */
    ghost predicate Kept()
      reads this
    {
      current in bindCpu && bindCpu[current] == IDLE_CPU ==> current == idle
    }

    method RequeueCurrent()
      requires Valid() && k.Placed()
      modifies `head, `tail, `next, `status, `k
      ensures Valid() && k == if old(Kept()) then Requeue(old(k)) else old(k)
    {
      if current != NULL && bindCpu[current] != IDLE_CPU {
        RequeueLinked(k, next);
        PushTask(current, status[current]);
      }
    }

    method DispatchFirst()
      requires Valid() && k.Shape()
      modifies `current, `head, `tail, `next, `status, `k
      ensures Valid() && k == Dispatch(old(k))
    {
      DispatchLinked(k, next);
      ReadyChained(k, next);
      assert k.ready != [] ==> k.ready[0] in k.status;
      RunFirst();
    }

    /** Makes the first ready task current, or the idle one. */
    method RunFirst()
      requires InMemory() && NULL !in k.status && k.idle in k.status && Chained(next, k.ready)
      requires k.ready != [] ==> k.ready[0] in k.status
      modifies `current, `head, `tail, `next, `status, `k
      ensures InMemory() && k == Dispatch(old(k))
      ensures next == if old(k).ready == [] then old(next) else old(next)[old(k).ready[0] := NULL]
    {
      ghost var k0 := k;
      var task := PopTask();
      if task == NULL {
        task := idle;
      }
      status := status[task := Running];
      current := task;
      k := Dispatch(k0);
    }

    // ---------------------------------------------------------------- semaphores

    /** kmt_sem_init of a semaphore not in use; false is the failed assertion. */
    method SemInit(s: Addr, value: int) returns (ok: bool)
      requires Valid() && k.Placed() && s !in k.sems
      modifies `count, `wl, `k
      ensures Valid() && (ok <==> value == 0 || value == 1)
      ensures k == if 0 <= value <= 1 then old(k).(sems := old(k).sems[s := Sem(value, [])]) else old(k)
    {
      ok := value == 0 || value == 1;
      if ok {
        InitSemLinked(k, next, s, value);
        OpenSem(s, value);
      }
    }

    method OpenSem(s: Addr, value: nat)
      requires InMemory() && s !in k.sems
      modifies `count, `wl, `k
      ensures InMemory() && k == InitSem(old(k), s, value)
    {
      count := count[s := value];
      wl := wl[s := NULL];
      k := InitSem(k, s, value);
    }

    /** kmt_sem_wait up to its yield, by a task that is outside sem_wait. */
    method SemWait(s: Addr) returns (r: Waited)
      requires Valid() && k.Placed() && s in k.sems
      requires current != NULL ==> current != idle && status[current] == Running
      modifies `next, `status, `count, `wl, `k
      ensures Valid()
      ensures if r.NoTask? then k == old(k) && Wait(old(k), s).None? else Some(k) == Wait(old(k), s)
      ensures r.Took? <==> old(k).sems[s].count > 0
    {
      if count[s] == 0 {
        if current == NULL {
          return NoTask;
        }
        Sleep(s);
        return Queued;
      }
      CountDown(s);
      r := Took;
    }

    method Sleep(s: Addr)
      requires Valid() && k.Placed() && s in k.sems && k.sems[s].count == 0
      requires current != NULL && current != idle && status[current] == Running
      modifies `next, `status, `wl, `k
      ensures Valid() && Some(k) == Wait(old(k), s)
    {
      WaitLinked(k, next, s);
      QueueCurrent(s);
    }

    method CountDown(s: Addr)
      requires Valid() && k.Placed() && s in k.sems && k.sems[s].count > 0
      requires current != NULL ==> current != idle && status[current] == Running
      modifies `count, `k
      ensures Valid() && Some(k) == Wait(old(k), s)
    {
      CountDownIsWait(k, next, s);
      TakeUnit(s);
    }

    method TakeUnit(s: Addr)
      requires InMemory() && s in k.sems && k.sems[s].count > 0
      modifies `count, `k
      ensures InMemory() && k == SetSem(old(k), s, Sem(old(k).sems[s].count - 1, old(k).sems[s].waiting))
    {
      count := count[s := count[s] - 1];
      k := SetSem(k, s, Sem(k.sems[s].count - 1, k.sems[s].waiting));
    }

    method AddUnit(s: Addr)
      requires InMemory() && s in k.sems && Woken(k, s).None?
      modifies `count, `k
      ensures InMemory() && k == Signal(old(k), s)
    {
      count := count[s := count[s] + 1];
      k := Signal(k, s);
    }

    method QueueCurrent(s: Addr)
      requires InMemory() && s in k.sems && k.sems[s].count == 0 && current != NULL && NULL !in k.status
      requires Chained(next, k.sems[s].waiting) && current !in k.sems[s].waiting && current in next
      modifies `next, `status, `wl, `k
      ensures InMemory() && k == Wait(old(k), s).value
      ensures next == Appended(old(next), Final(old(k).sems[s].waiting), current)
    {
      ghost var q := k.sems[s].waiting;
      AppendWaiter(s, q);
      status := status[current := Sleeping];
      assert First(q + [current]) == if q == [] then Some(current) else First(q);
      k := Wait(k, s).value;
    }

    /** Links the current task behind the last one that waits for s. */
    method AppendWaiter(s: Addr, ghost q: seq<Addr>)
      requires s in wl && wl[s] == Ref(First(q)) && Chained(next, q) && current !in q && current in next
      modifies `next, `wl
      ensures next == Appended(old(next), Final(q), current)
      ensures wl == old(wl)[s := if q == [] then current else q[0]]
    {
      var p := LastWaiter(s, q);
      if p == NULL {
        assert q != [] ==> LinkOk(next, q, |q| - 1);
        wl := wl[s := current];
      } else {
        assert q != [] && p == q[|q| - 1];
        next := next[p := current];
      }
      next := next[current := NULL];
    }

    /** kmt_sem_signal. */
    method SemSignal(s: Addr)
      requires Valid() && k.Placed() && s in k.sems
      modifies `head, `tail, `next, `status, `count, `wl, `k
      ensures Valid() && k == Signal(old(k), s)
    {
      WaitersChained(k, next, s);
      if current == NULL || wl[s] == NULL {
        assert k.sems[s].waiting != [] ==> LinkOk(next, k.sems[s].waiting, 0);
        CountUp(s);
      } else {
        Wakeup(s);
      }
    }

    method CountUp(s: Addr)
      requires Valid() && k.Placed() && s in k.sems && Woken(k, s).None?
      modifies `count, `k
      ensures Valid() && k == Signal(old(k), s)
    {
      CountUpLinked(k, next, s);
      AddUnit(s);
    }

    method Wakeup(s: Addr)
      requires Valid() && k.Placed() && s in k.sems && Woken(k, s).Some?
      modifies `head, `tail, `next, `status, `wl, `k
      ensures Valid() && k == Signal(old(k), s)
    {
      WaitersChained(k, next, s);
      if status[current] == Sleeping {
        var found, last := FindWaiter(s, current);
        if found {
          WakeLinked(k, next, s, current, last);
          Unlink(s, current, last);
          return;
        }
      }
      WakeFirst(s);
    }

    /** Takes t, behind `last`, out of the waiting list of s. */
    method Unlink(s: Addr, t: Addr, last: Addr)
      requires InMemory() && s in k.sems && Chained(next, k.sems[s].waiting) && Distinct(k.sems[s].waiting)
      requires Precedes(k.sems[s].waiting, last, t) && t in k.status && t in next
      modifies `next, `status, `wl, `k
      ensures InMemory() && k == Wake(old(k), s, t) && next == Unlinked(old(next), last, t)
    {
      CutNode(s, t, last, k.sems[s].waiting);
      status := status[t := Ready];
      k := Wake(k, s, t);
    }

    method CutNode(s: Addr, t: Addr, last: Addr, ghost q: seq<Addr>)
      requires s in wl && wl[s] == Ref(First(q)) && Chained(next, q) && Distinct(q)
      requires Precedes(q, last, t) && t in next
      modifies `next, `wl
      ensures next == Unlinked(old(next), last, t)
      ensures wl == old(wl)[s := Ref(First(Without(q, t)))]
    {
      ghost var i: nat :| i < |q| && PrecedesAt(q, i, last, t);
      assert LinkOk(next, q, i) && (i > 0 ==> LinkOk(next, q, i - 1));
      WithoutAt(q, i);
      if last == NULL {
        wl := wl[s := next[t]];
      } else {
        next := next[last := next[t]];
      }
      next := next[t := NULL];
    }

    /** Wakes the first task that waits for s. */
    method WakeFirst(s: Addr)
      requires Valid() && k.Placed() && s in k.sems && Woken(k, s).Some? && !Interrupted(k, s)
      modifies `head, `tail, `next, `status, `wl, `k
      ensures Valid() && k == Signal(old(k), s)
    {
      var p := wl[s];
      FirstWoken(k, next, s);
      TakeFirst(s, p);
      PushTask(p, Ready);
    }

    method TakeFirst(s: Addr, p: Addr)
      requires InMemory() && s in k.sems && Chained(next, k.sems[s].waiting) && p in k.status
      requires First(k.sems[s].waiting) == Some(p)
      modifies `status, `wl, `k
      ensures InMemory() && k == Wake(old(k), s, p)
    {
      assert LinkOk(next, k.sems[s].waiting, 0);
      wl := wl[s := next[p]];
      status := status[p := Ready];
      k := Wake(k, s, p);
    }
  }

  /** The links with t behind the last node of a list. */
  function Appended(next: map<Addr, Addr>, last: Option<Addr>, t: Addr): map<Addr, Addr> {
    if last.None? then next[t := NULL] else next[t := NULL][last.value := t]
  }

  /** t may be linked behind the last ready task. */
  predicate Behind(k: Tasks, t: Addr) {
    Final(k.ready) != Some(t) && (k.ready != [] ==> k.ready[|k.ready| - 1] in k.status)
  }

  /** The nodes of q are linked in this order. */
  ghost predicate Chained(next: map<Addr, Addr>, q: seq<Addr>) {
    forall i :: 0 <= i < |q| ==> LinkOk(next, q, i)
  }

  ghost predicate LinkOk(next: map<Addr, Addr>, q: seq<Addr>, i: nat)
    requires i < |q|
  {
    q[i] != NULL && q[i] in next && next[q[i]] == if i + 1 < |q| then q[i + 1] else NULL
  }

  /** t is in q, behind `last` or, if that is NULL, first. */
  ghost predicate Precedes(q: seq<Addr>, last: Addr, t: Addr) {
    exists i :: 0 <= i < |q| && PrecedesAt(q, i, last, t)
  }

  predicate PrecedesAt(q: seq<Addr>, i: nat, last: Addr, t: Addr)
    requires i < |q|
  {
    q[i] == t && last == if i > 0 then q[i - 1] else NULL
  }

  /** A push links the task behind the last one. */
  lemma PushLinked(k: Tasks, next: map<Addr, Addr>, t: Addr)
    requires Linked(k, next) && k.Shape() && t in k.status && k.status[t] != Sleeping && !k.Listed(t)
    ensures Linked(Push(k, t), Appended(next, Final(k.ready), t)) && Behind(k, t)
  {
    PushShape(k, t);
    NextFree(k, t);
    forall u | u in k.status ensures Next(Push(k, t), u) == if Final(k.ready) == Some(u) then Some(t) else Next(k, u) {
      PushNext(k, t, u);
    }
  }

  lemma ReadyChained(k: Tasks, next: map<Addr, Addr>)
    requires Linked(k, next) && k.Shape()
    ensures Chained(next, k.ready)
  {
    forall i | 0 <= i < |k.ready|
      ensures LinkOk(next, k.ready, i)
    {
      AfterAt(k.ready, i);
      assert next[k.ready[i]] == Ref(Next(k, k.ready[i]));
    }
  }

  lemma WaitersChained(k: Tasks, next: map<Addr, Addr>, s: Addr)
    requires Linked(k, next) && k.Shape() && s in k.sems
    ensures Chained(next, k.sems[s].waiting)
  {
    var q := k.sems[s].waiting;
    forall i | 0 <= i < |q| ensures LinkOk(next, q, i) {
      assert k.Waits(s, q[i]);
      NextWaits(k, s, q[i]);
      AfterAt(q, i);
    }
  }

  lemma DispatchLinked(k: Tasks, next: map<Addr, Addr>)
    requires Linked(k, next) && k.Shape()
    ensures Linked(Dispatch(k), if k.ready == [] then next else next[k.ready[0] := NULL])
  {
    DispatchShape(k);
    forall u | u in k.status ensures Next(Dispatch(k), u) == if First(k.ready) == Some(u) then None else Next(k, u) {
      DispatchNext(k, u);
    }
  }

  // ---------------------------------------------------------------- the links after each operation

  lemma CreateLinked(k: Tasks, next: map<Addr, Addr>, t: Addr, c: nat)
    requires Linked(k, next) && k.Placed() && t !in k.status && t != NULL
    ensures Linked(Create(k, t, c), Appended(next[t := NULL], Final(k.ready), t))
    ensures Behind(WithRecord(k, t, c), t)
  {
    var k1 := WithRecord(k, t, c);
    RecordShape(k, t, c);
    forall u | u in k1.status ensures next[t := NULL][u] == Ref(Next(k1, u)) {
      if u == t { NextFree(k1, t); } else { SameNext(k, k1, u); }
    }
    PushLinked(k1, next[t := NULL], t);
  }

  lemma SameNext(k: Tasks, k': Tasks, u: Addr)
    requires k.Shape() && k'.Shape() && k.ready == k'.ready
    requires forall s :: k'.Waits(s, u) <==> k.Waits(s, u)
    requires forall s :: k.Waits(s, u) && k'.Waits(s, u) ==> k'.sems[s].waiting == k.sems[s].waiting
    ensures Next(k', u) == Next(k, u)
  {
    if u !in k.ready && k.Waiting(u) {
      var s :| s in k.sems && k.Waits(s, u);
      NextWaits(k, s, u);
      NextWaits(k', s, u);
    }
  }

  lemma SaveLinked(k: Tasks, next: map<Addr, Addr>, c: nat)
    requires Linked(k, next) && k.Placed()
    ensures Linked(Save(k, c), next)
  {
    SavePlaced(k, c);
    forall u | u in k.status ensures Next(Save(k, c), u) == Next(k, u) {
      SameNext(k, Save(k, c), u);
    }
  }

  lemma InitSemLinked(k: Tasks, next: map<Addr, Addr>, s: Addr, value: nat)
    requires Linked(k, next) && k.Placed() && s !in k.sems
    ensures Linked(InitSem(k, s, value), next)
  {
    InitSemPlaced(k, s, value);
    forall u | u in k.status ensures Next(InitSem(k, s, value), u) == Next(k, u) {
      SameNext(k, InitSem(k, s, value), u);
    }
  }

  /** Changing only the count of a semaphore changes no link. */
  lemma CountLinked(k: Tasks, next: map<Addr, Addr>, s: Addr, n: nat)
    requires Linked(k, next) && k.Shape() && s in k.sems
    ensures Linked(SetSem(k, s, Sem(n, k.sems[s].waiting)), next)
  {
    var k' := SetSem(k, s, Sem(n, k.sems[s].waiting));
    assert forall s', u :: k'.Waits(s', u) <==> k.Waits(s', u);
    forall u | u in k.status ensures Next(k', u) == Next(k, u) {
      SameNext(k, k', u);
    }
  }

  lemma CountDownIsWait(k: Tasks, next: map<Addr, Addr>, s: Addr)
    requires Linked(k, next) && k.Placed() && s in k.sems && k.sems[s].count > 0
    requires k.current.Some? ==> k.current.value != k.idle && k.status[k.current.value] == Running
    ensures var k' := SetSem(k, s, Sem(k.sems[s].count - 1, k.sems[s].waiting));
      Wait(k, s) == Some(k') && Linked(k', next)
  {
    WaitPlaced(k, s);
    CountLinked(k, next, s, k.sems[s].count - 1);
  }

  lemma CountUpLinked(k: Tasks, next: map<Addr, Addr>, s: Addr)
    requires Linked(k, next) && k.Placed() && s in k.sems && Woken(k, s).None?
    ensures Linked(Signal(k, s), next)
  {
    CountLinked(k, next, s, k.sems[s].count + 1);
  }

  lemma RequeueLinked(k: Tasks, next: map<Addr, Addr>)
    requires Linked(k, next) && k.Placed() && k.current.Some? && k.current.value != k.idle
    ensures var t := k.current.value;
      Linked(Requeue(k), if k.status[t] == Sleeping then next else Appended(next, Final(k.ready), t))
      && (k.status[t] != Sleeping ==> Behind(k, t))
  {
    var t := k.current.value;
    assert k.WellPlaced(t);
    if k.status[t] != Sleeping { PushLinked(k, next, t); }
  }

  lemma WaitLinked(k: Tasks, next: map<Addr, Addr>, s: Addr)
    requires Linked(k, next) && k.Placed() && s in k.sems && k.sems[s].count == 0
    requires k.current.Some? && k.current.value != k.idle && k.status[k.current.value] == Running
    ensures Linked(Wait(k, s).value, Appended(next, Final(k.sems[s].waiting), k.current.value))
    ensures Chained(next, k.sems[s].waiting) && k.current.value !in k.sems[s].waiting && k.current.value in next
  {
    var t, q := k.current.value, k.sems[s].waiting;
    assert k.WellPlaced(t);
    WaitersChained(k, next, s);
    WaitShape(k, s);
    assert t !in q by { assert k.Waits(s, t) ==> k.Waiting(t); }
    NextFree(k, t);
    forall u | u in k.status ensures Next(Wait(k, s).value, u) == if Final(q) == Some(u) then Some(t) else Next(k, u) {
      WaitNext(k, s, u);
    }
    if q != [] { assert k.Waits(s, q[|q| - 1]); }
  }

  /** The links without t, which is behind `last`. */
  function Unlinked(next: map<Addr, Addr>, last: Addr, t: Addr): map<Addr, Addr>
    requires t in next
  {
    if last == NULL then next[t := NULL] else next[last := next[t]][t := NULL]
  }

  lemma WakeLinked(k: Tasks, next: map<Addr, Addr>, s: Addr, t: Addr, last: Addr)
    requires Linked(k, next) && k.Shape() && s in k.sems && Precedes(k.sems[s].waiting, last, t)
    ensures t in k.status && Linked(Wake(k, s, t), Unlinked(next, last, t)) && Distinct(k.sems[s].waiting)
  {
    var q := k.sems[s].waiting;
    var i: nat :| i < |q| && PrecedesAt(q, i, last, t);
    assert k.Waits(s, t);
    WakeShape(k, s, t);
    WaitersChained(k, next, s);
    assert last != NULL ==> LinkOk(next, q, i - 1);
    forall u | u in k.status ensures Unlinked(next, last, t)[u] == Ref(Next(Wake(k, s, t), u)) {
      WakeNext(k, s, t, u);
      NextInQueue(k, s, t, i, u);
    }
  }

  /** Only the node before t, if any, links to it. */
  lemma NextInQueue(k: Tasks, s: Addr, t: Addr, i: nat, u: Addr)
    requires k.Shape() && s in k.sems && i < |k.sems[s].waiting| && k.sems[s].waiting[i] == t
    ensures k.Waits(s, u) && Next(k, u) == Some(t) <==> i > 0 && u == k.sems[s].waiting[i - 1]
  {
    var q := k.sems[s].waiting;
    if u in q {
      var j :| 0 <= j < |q| && q[j] == u;
      assert k.Waits(s, u);
      NextWaits(k, s, u);
      AfterAt(q, j);
    }
  }

  lemma FirstWoken(k: Tasks, next: map<Addr, Addr>, s: Addr)
    requires Linked(k, next) && k.Placed() && s in k.sems && Woken(k, s).Some? && !Interrupted(k, s)
    ensures var q := k.sems[s].waiting;
      && q != [] && Chained(next, q) && q[0] in k.status && q[0] in next
      && Behind(Wake(k, s, q[0]), q[0])
      && Linked(Signal(k, s), Appended(next, Final(k.ready), q[0]))
  {
    var t := k.sems[s].waiting[0];
    WaitersChained(k, next, s);
    assert PrecedesAt(k.sems[s].waiting, 0, NULL, t);
    WakeLinked(k, next, s, t, NULL);
    assert k.Waits(s, t);
    WakeShape(k, s, t);
    PushLinked(Wake(k, s, t), next[t := NULL], t);
    assert Appended(next[t := NULL], Final(k.ready), t) == Appended(next, Final(k.ready), t);
  }

  /** A task created with the bind_cpu of the idle task runs once: at the next reschedule it is in no
      list and not current, although nobody put it to sleep. */
  method OnceOnly(idle: Addr, task: Addr, c: nat, c': nat) returns (m: Scheduler)
    requires idle != NULL && task != NULL && task != idle
    ensures m.Valid() && m.current == idle && task in m.status && m.status[task] == Running
    ensures !m.k.Listed(task) && !m.k.Placed()
  {
    m := new Scheduler(idle, c);
    m.CreateTask(task, c', IDLE_CPU);
    CreatePlaced(NoTasks<Addr, Addr, nat>(idle, c), task, c');
    SchedulePlaced(m.k);
    var first := m.ScheduleNext(Yield);
    assert m.k.current == Some(task) && m.k.ready == [];
    NotRequeued(m.k);
    var second := m.ScheduleNext(Yield);
  }
}
