/** Every run of the tasks of one CPU: boot code, tasks that create, wait, signal and yield,
    and interrupts at any point, also between the two halves of sem_wait. A trap saves the
    context, runs the handlers, which may signal, and schedules. */
module KmtRuns {
  import opened Options
  import opened Lists
  import opened Kmt

  /** Where a task stands in sem_wait: in the window between releasing the lock and the yield,
      or in the yield or about to return from it. */
  datatype Phase<S> = User | Window(sem: S) | Yielded(sem: S)

  /** What happened to a semaphore so far. A holder was granted a unit by its last wait and has
      neither given it back nor used it up since. */
  datatype Book<T(==)> = Book(initial: nat, signals: nat, grants: nat, holders: set<T>)

  /** `trap` is the event being handled. */
  datatype Sys<T(==), S(==), C> = Sys(k: Kernel<T, S, C>, trap: Option<Event>, phase: map<T, Phase<S>>,
                                      book: map<S, Book<T>>)
  {
    /** Code outside any trap and outside sem_wait is executing: a task or, before the first
        dispatch, the boot code. */
    predicate Executing() {
      trap.None? && (k.current.Some? ==> k.current.value in phase && phase[k.current.value].User?)
    }

    /** Interrupts may come at any time outside a trap; a yield comes from task code or ends the
        window of sem_wait. */
    predicate CanTrap(ev: Event) {
      trap.None? && (k.current.Some? ==> k.current.value in phase && !(ev.Yield? && phase[k.current.value].Yielded?))
    }

    predicate CanReturn() {
      trap.None? && k.current.Some? && k.current.value in phase && phase[k.current.value].Yielded?
    }

    predicate Holds(s: S) { s in book && k.current.Some? && k.current.value in book[s].holders }

    /** The maps describe the tasks and semaphores there are. */
    predicate Consistent() {
      && book.Keys == k.sems.Keys && phase.Keys == k.status.Keys
      && (k.current.Some? ==> k.current.value in k.status)
    }
  }

  /** One step. Open is sem_init, Spawn is create, Acquire is sem_wait up to its window and Post
      is sem_signal. Leave is a signal by which a holder gives its unit back; Use records that
      the unit of a holder is spent. Trap is the entry of a trap up to the end of context_save
      and Resume is the scheduling handler and the return from the trap. */
  datatype Step<T, S, C> =
    | Open(s: S, value: nat)
    | Spawn(t: T, c: C)
    | Acquire(s: S)
    | Post(s: S)
    | Leave(s: S)
    | Use(s: S)
    | Trap(ev: Event, c: C)
    | Resume
    | Return

  // ---------------------------------------------------------------- the steps

  function Opened<T, S, C>(y: Sys<T, S, C>, s: S, value: nat): Sys<T, S, C> {
    y.(k := InitSem(y.k, s, value), book := y.book[s := Book(value, 0, 0, {})])
  }

  function Spawned<T, S, C>(y: Sys<T, S, C>, t: T, c: C): Sys<T, S, C> {
    y.(k := Create(y.k, t, c), phase := y.phase[t := User])
  }

  function Acquired<T, S, C>(y: Sys<T, S, C>, s: S): Option<Sys<T, S, C>>
    requires s in y.k.sems && s in y.book
  {
    var k' := Wait(y.k, s);
    var b := y.book[s];
    if k'.None? then None
    else if y.k.sems[s].count > 0 then
      Some(y.(k := k'.value,
              book := y.book[s := b.(grants := b.grants + 1, holders := b.holders + One(y.k.current))]))
    else
      Some(y.(k := k'.value, phase := y.phase[y.k.current.value := Window(s)],
              book := y.book[s := b.(holders := b.holders - One(y.k.current))]))
  }

  function One<T>(t: Option<T>): set<T> { if t.Some? then {t.value} else {} }

  function Posted<T, S, C>(y: Sys<T, S, C>, s: S): Sys<T, S, C>
    requires s in y.k.sems && s in y.book
  {
    var woken := Woken(y.k, s);
    var b := y.book[s];
    y.(k := Signal(y.k, s),
       book := y.book[s := b.(signals := b.signals + 1,
                              grants := if woken.Some? then b.grants + 1 else b.grants,
                              holders := b.holders + One(woken))])
  }

  function Used<T, S, C>(y: Sys<T, S, C>, s: S): Sys<T, S, C>
    requires s in y.book && y.k.current.Some?
  {
    y.(book := y.book[s := y.book[s].(holders := y.book[s].holders - {y.k.current.value})])
  }

  function Trapped<T, S, C>(y: Sys<T, S, C>, ev: Event, c: C): Sys<T, S, C>
    requires y.k.current.Some? ==> y.k.current.value in y.phase
  {
    var y' := y.(k := Save(y.k, c), trap := Some(ev));
    if y.k.current.None? || !ev.Yield? then y'
    else
      var t := y.k.current.value;
      if y.phase[t].Window? then y'.(phase := y.phase[t := Yielded(y.phase[t].sem)]) else y'
  }

  function Resumed<T, S, C>(y: Sys<T, S, C>): Option<Sys<T, S, C>>
    requires y.k.current.Some? ==> y.k.current.value in y.k.status
  {
    if y.trap.None? then None
    else if Reschedules(y.trap.value) then Some(y.(k := Schedule(y.k), trap := None))
    else if y.k.current.None? then None
    else Some(y.(trap := None))
  }

  function Returned<T, S, C>(y: Sys<T, S, C>): Sys<T, S, C>
    requires y.k.current.Some?
  {
    y.(phase := y.phase[y.k.current.value := User])
  }

  /** One step of a run; None if the step is not possible, or halts on a failed assertion. */
  function Next<T, S, C>(y: Sys<T, S, C>, l: Step<T, S, C>): Option<Sys<T, S, C>> {
    if !y.Consistent() then None
    else match l
      case Open(s, value) => if y.Executing() && s !in y.k.sems && value <= 1 then Some(Opened(y, s, value)) else None
      case Spawn(t, c) => if y.Executing() && t !in y.k.status then Some(Spawned(y, t, c)) else None
      case Acquire(s) =>
        if y.Executing() && s in y.k.sems && y.k.current != Some(y.k.idle) then Acquired(y, s) else None
      case Post(s) => if (y.Executing() || y.trap.Some?) && s in y.k.sems then Some(Posted(y, s)) else None
      case Leave(s) => if y.Executing() && y.Holds(s) then Some(Posted(Used(y, s), s)) else None
      case Use(s) => if y.Executing() && y.Holds(s) then Some(Used(y, s)) else None
      case Trap(ev, c) => if y.CanTrap(ev) then Some(Trapped(y, ev, c)) else None
      case Resume => Resumed(y)
      case Return => if y.CanReturn() then Some(Returned(y)) else None
  }

  /** The machine after kmt_init: no task but the idle one, whose context is c. */
  function Boot<T, S, C>(idle: T, c: C): Sys<T, S, C> {
    Sys(NoTasks(idle, c), None, map[idle := User], map[])
  }

  // ---------------------------------------------------------------- what every step keeps

  /** Units are conserved, and a free unit and a waiting task never meet. */
  predicate Balanced<T, S, C>(y: Sys<T, S, C>, s: S)
    requires s in y.k.sems && s in y.book
  {
    var sem, b := y.k.sems[s], y.book[s];
    && b.initial + b.signals == sem.count + b.grants
    && (sem.count > 0 ==> sem.waiting == [])
    && (y.k.current.None? ==> sem.waiting == [])
  }

  /** A task in sem_wait either waits or was granted its unit; one outside is awake. */
  predicate InPhase<T, S, C>(y: Sys<T, S, C>, t: T)
    requires t in y.phase && t in y.k.status
  {
    match y.phase[t]
    case User => y.k.status[t] != Sleeping && (y.k.current == Some(t) ==> y.k.status[t] == Running)
    case Window(s) => Pending(y, s, t)
    case Yielded(s) =>
      && Pending(y, s, t)
      && (y.k.current == Some(t) && y.trap != Some(Yield) ==> y.k.status[t] == Running)
  }

  predicate Pending<T, S, C>(y: Sys<T, S, C>, s: S, t: T)
    requires t in y.k.status
  {
    && s in y.k.sems && s in y.book
    && (y.k.status[t] == Sleeping <==> y.k.Waits(s, t))
    && (y.k.Waits(s, t) <==> t !in y.book[s].holders)
  }

  ghost predicate Inv<T, S, C>(y: Sys<T, S, C>) {
    && y.k.Placed()
    && y.book.Keys == y.k.sems.Keys && y.phase.Keys == y.k.status.Keys
    && y.phase[y.k.idle] == User
    && (forall s :: s in y.k.sems ==> Balanced(y, s))
    && (forall t :: t in y.k.status ==> InPhase(y, t))
  }

  lemma BootInv<T, S, C>(idle: T, c: C)
    ensures Inv<T, S, C>(Boot(idle, c))
  {
    var y: Sys<T, S, C> := Boot(idle, c);
    assert y.k.Placed();
  }

  /** Which steps are possible in a state of a run. Task code and the boot code do what they like; only
      one sem_wait is ruled out, that of the boot code for a semaphore without units, and those of the
      idle task. Traps come at any time outside a trap, and a trap ends unless no task is running and
      its event does not reschedule. */
  lemma Possible<T, S, C>(y: Sys<T, S, C>, l: Step<T, S, C>)
    requires Inv(y)
    ensures var code := y.trap.None? && (y.k.current.Some? ==> y.phase[y.k.current.value] == User);
      var holds := s => s in y.book && y.k.current.Some? && y.k.current.value in y.book[s].holders;
      Next(y, l).Some? <==>
        match l
        case Open(s, value) => code && s !in y.k.sems && (value == 0 || value == 1)
        case Spawn(t, _) => code && t !in y.k.status
        case Acquire(s) =>
          code && s in y.k.sems && y.k.current != Some(y.k.idle) && (y.k.current.Some? || y.k.sems[s].count > 0)
        case Post(s) => (code || y.trap.Some?) && s in y.k.sems
        case Leave(s) => code && holds(s)
        case Use(s) => code && holds(s)
        case Trap(ev, _) =>
          y.trap.None? && !(ev == Yield && y.k.current.Some? && y.phase[y.k.current.value].Yielded?)
        case Resume =>
          y.trap.Some? && (y.k.current.Some? || y.trap.value in {Yield, IrqTimer, IrqIodev})
        case Return => y.trap.None? && y.k.current.Some? && y.phase[y.k.current.value].Yielded?
  {
  }

  lemma OpenInv<T, S, C>(y: Sys<T, S, C>, s: S, value: nat)
    requires Inv(y) && s !in y.k.sems
    ensures Inv(Opened(y, s, value))
  {
    var y' := Opened(y, s, value);
    InitSemPlaced(y.k, s, value);
    forall t | t in y'.k.status ensures InPhase(y', t) {
      assert InPhase(y, t);
    }
    forall s' | s' in y'.k.sems ensures Balanced(y', s') {
      if s' != s { assert Balanced(y, s'); }
    }
  }

  lemma SpawnInv<T, S, C>(y: Sys<T, S, C>, t: T, c: C)
    requires Inv(y) && t !in y.k.status
    ensures Inv(Spawned(y, t, c))
  {
    var y' := Spawned(y, t, c);
    CreatePlaced(y.k, t, c);
    forall s | s in y'.k.sems ensures Balanced(y', s) { assert Balanced(y, s); }
    forall u | u in y'.k.status ensures InPhase(y', u) {
      if u != t { assert InPhase(y, u); }
    }
  }

  /** A wait that is possible: the current task, if any, is an ordinary one outside sem_wait. */
  ghost predicate CanAcquire<T, S, C>(y: Sys<T, S, C>, s: S) {
    Inv(y) && y.Executing() && s in y.k.sems && y.k.current != Some(y.k.idle) && Acquired(y, s).Some?
  }

  lemma WaiterRuns<T, S, C>(y: Sys<T, S, C>, s: S)
    requires CanAcquire(y, s)
    ensures Balanced(y, s) && y.k.Placed() && Wait(y.k, s).Some?
    ensures y.k.current.Some? ==> y.k.status[y.k.current.value] == Running
  {
    if y.k.current.Some? { assert InPhase(y, y.k.current.value); }
  }

  lemma AcquireInv<T, S, C>(y: Sys<T, S, C>, s: S)
    requires CanAcquire(y, s)
    ensures Inv(Acquired(y, s).value)
  {
    var y' := Acquired(y, s).value;
    WaiterRuns(y, s);
    WaitPlaced(y.k, s);
    AcquireKeys(y, s);
    forall s' | s' in y.k.sems ensures Balanced(y', s') { AcquireBalanced(y, s, s'); }
    forall u | u in y.k.status ensures InPhase(y', u) { AcquirePhase(y, s, u); }
  }

  lemma AcquireKeys<T, S, C>(y: Sys<T, S, C>, s: S)
    requires CanAcquire(y, s)
    ensures var y' := Acquired(y, s).value;
      && y'.k.sems.Keys == y.k.sems.Keys == y'.book.Keys && y'.k.status.Keys == y.k.status.Keys == y'.phase.Keys
      && y'.k.context == y.k.context && y'.k.idle == y.k.idle
      && y'.phase[y.k.idle] == User
  {
    WaiterRuns(y, s);
    WaitEffect(y.k, s);
  }

  lemma AcquireBalanced<T, S, C>(y: Sys<T, S, C>, s: S, s': S)
    requires CanAcquire(y, s) && s' in y.k.sems && s' in Wait(y.k, s).value.sems
    ensures Balanced(Acquired(y, s).value, s')
  {
    WaiterRuns(y, s);
    assert Balanced(y, s');
    WaitEffect(y.k, s);
  }

  lemma AcquirePhase<T, S, C>(y: Sys<T, S, C>, s: S, u: T)
    requires CanAcquire(y, s) && u in y.k.status && u in Wait(y.k, s).value.status
    ensures InPhase(Acquired(y, s).value, u)
  {
    assert InPhase(y, u);
    WaiterRuns(y, s);
    WaitEffect(y.k, s);
  }

  lemma PostInv<T, S, C>(y: Sys<T, S, C>, s: S)
    requires Inv(y) && s in y.k.sems
    ensures Inv(Posted(y, s))
  {
    var y' := Posted(y, s);
    SignalPlaced(y.k, s);
    SignalEffect(y.k, s);
    forall s' | s' in y'.k.sems ensures Balanced(y', s') { PostBalanced(y, s, s'); }
    forall u | u in y'.k.status ensures InPhase(y', u) { PostPhase(y, s, u); }
  }

  lemma PostBalanced<T, S, C>(y: Sys<T, S, C>, s: S, s': S)
    requires Inv(y) && s in y.k.sems && s' in y.k.sems && s' in Signal(y.k, s).sems
    ensures Balanced(Posted(y, s), s')
  {
    assert Balanced(y, s');
    SignalEffect(y.k, s);
    var y' := Posted(y, s);
    var w := Woken(y.k, s);
    if s' == s && w.Some? {
      WithoutKeeps(y.k.sems[s].waiting, w.value);
    }
  }

  lemma PostPhase<T, S, C>(y: Sys<T, S, C>, s: S, u: T)
    requires Inv(y) && s in y.k.sems && u in y.k.status && u in Signal(y.k, s).status
    ensures InPhase(Posted(y, s), u)
  {
    assert InPhase(y, u);
    SignalEffect(y.k, s);
  }

  lemma UseInv<T, S, C>(y: Sys<T, S, C>, s: S)
    requires Inv(y) && y.Executing() && y.Holds(s)
    ensures Inv(Used(y, s))
  {
    var y' := Used(y, s);
    forall s' | s' in y'.k.sems ensures Balanced(y', s') { assert Balanced(y, s'); }
    forall u | u in y'.k.status ensures InPhase(y', u) {
      assert InPhase(y, u);
    }
  }

  lemma TrapInv<T, S, C>(y: Sys<T, S, C>, ev: Event, c: C)
    requires Inv(y) && y.CanTrap(ev)
    ensures Inv(Trapped(y, ev, c))
  {
    var y' := Trapped(y, ev, c);
    SavePlaced(y.k, c);
    forall s' | s' in y'.k.sems ensures Balanced(y', s') { assert Balanced(y, s'); }
    forall u | u in y'.k.status ensures InPhase(y', u) { TrapPhase(y, ev, c, u); }
  }

  lemma TrapPhase<T, S, C>(y: Sys<T, S, C>, ev: Event, c: C, u: T)
    requires Inv(y) && y.CanTrap(ev) && u in y.k.status
    ensures InPhase(Trapped(y, ev, c), u)
  {
    var y' := Trapped(y, ev, c);
    assert InPhase(y, u);
    assert forall s :: y'.k.Waits(s, u) <==> y.k.Waits(s, u);
  }

  lemma ResumeInv<T, S, C>(y: Sys<T, S, C>)
    requires Inv(y) && Resumed(y).Some?
    ensures Inv(Resumed(y).value)
  {
    if Reschedules(y.trap.value) {
      var y' := y.(k := Schedule(y.k), trap := None);
      SchedulePlaced(y.k);
      ScheduleEffect(y.k);
      forall s' | s' in y'.k.sems ensures Balanced(y', s') { assert Balanced(y, s'); }
      forall u | u in y'.k.status ensures InPhase(y', u) { ResumePhase(y, u); }
    } else {
      var y' := y.(trap := None);
      forall s' | s' in y'.k.sems ensures Balanced(y', s') { assert Balanced(y, s'); }
      forall u | u in y'.k.status ensures InPhase(y', u) { assert InPhase(y, u); }
    }
  }

  lemma ResumePhase<T, S, C>(y: Sys<T, S, C>, u: T)
    requires Inv(y) && y.trap.Some? && u in y.k.status && Schedule(y.k).status.Keys == y.k.status.Keys
    ensures InPhase(y.(k := Schedule(y.k), trap := None), u)
  {
    var k' := Schedule(y.k);
    assert InPhase(y, u);
    ScheduleEffect(y.k);
    assert forall s :: k'.Waits(s, u) <==> y.k.Waits(s, u);
  }

  lemma ReturnInv<T, S, C>(y: Sys<T, S, C>)
    requires Inv(y) && y.CanReturn()
    ensures Inv(Returned(y))
  {
    var y' := Returned(y);
    forall s' | s' in y'.k.sems ensures Balanced(y', s') { assert Balanced(y, s'); }
    forall u | u in y'.k.status ensures InPhase(y', u) {
      assert InPhase(y, u);
    }
  }

  lemma StepKeepsInv<T, S, C>(y: Sys<T, S, C>, l: Step<T, S, C>)
    requires Inv(y) && Next(y, l).Some?
    ensures Inv(Next(y, l).value)
  {
    match l
    case Open(s, value) => OpenInv(y, s, value);
    case Spawn(t, c) => SpawnInv(y, t, c);
    case Acquire(s) => AcquireInv(y, s);
    case Post(s) => PostInv(y, s);
    case Leave(s) => UseInv(y, s); PostInv(Used(y, s), s);
    case Use(s) => UseInv(y, s);
    case Trap(ev, c) => TrapInv(y, ev, c);
    case Resume => ResumeInv(y);
    case Return => ReturnInv(y);
  }

  /** A run; None if some step of it is not possible. */
  function Run<T, S, C>(y: Sys<T, S, C>, steps: seq<Step<T, S, C>>): Option<Sys<T, S, C>> {
    if steps == [] then Some(y)
    else
      var before := Run(y, Init(steps));
      if before.None? then None else Next(before.value, Last(steps))
  }

  lemma RunOne<T, S, C>(y: Sys<T, S, C>, l: Step<T, S, C>)
    ensures Run(y, [l]) == Next(y, l)
  {
    assert Init([l]) == [];
  }

  lemma {:induction false} RunKeepsInv<T, S, C>(y: Sys<T, S, C>, steps: seq<Step<T, S, C>>)
    requires Inv(y) && Run(y, steps).Some?
    ensures Inv(Run(y, steps).value)
    decreases |steps|
  {
    if steps != [] {
      RunKeepsInv(y, Init(steps));
      StepKeepsInv(Run(y, Init(steps)).value, Last(steps));
    }
  }

  /** In every run from boot, units are conserved: those there were and those signalled are free
      or granted; and while one is free nobody waits. */
  lemma Conservation<T, S, C>(idle: T, c: C, steps: seq<Step<T, S, C>>, s: S)
    requires Run(Boot(idle, c), steps).Some? && s in Run(Boot(idle, c), steps).value.k.sems
    ensures var y := Run(Boot(idle, c), steps).value;
      && s in y.book
      && y.book[s].initial + y.book[s].signals == y.k.sems[s].count + y.book[s].grants
      && (y.k.sems[s].count > 0 ==> y.k.sems[s].waiting == [])
  {
    BootInv<T, S, C>(idle, c);
    RunKeepsInv(Boot(idle, c), steps);
    assert Balanced(Run(Boot(idle, c), steps).value, s);
  }

  // ---------------------------------------------------------------- what holds in every run

  /** Every task but the idle one is in exactly one place: it is current and awake, or in the
      ready list, or in the waiting list of exactly one semaphore. If it is current and yet
      waits, it is between its wait and the end of its yield. */
  lemma OnePlace<T, S, C>(y: Sys<T, S, C>, t: T)
    requires Inv(y) && t in y.k.status && t != y.k.idle
    ensures y.k.Waiting(t) ==> t !in y.k.ready
    ensures t in y.k.ready ==> y.k.current != Some(t)
    ensures y.k.current == Some(t) || t in y.k.ready || y.k.Waiting(t)
    ensures forall s, s' :: y.k.Waits(s, t) && y.k.Waits(s', t) ==> s == s'
    ensures y.k.current == Some(t) && y.k.Waiting(t) ==>
      y.phase[t].Window? || (y.phase[t].Yielded? && y.trap == Some(Yield))
  {
    assert y.k.WellPlaced(t);
    assert InPhase(y, t);
  }

  /** sem_wait returns only to a task that was granted a unit of the semaphore. */
  lemma ReturnsGranted<T, S, C>(y: Sys<T, S, C>)
    requires Inv(y) && Next(y, Return).Some?
    ensures var t := y.k.current.value;
      t in y.book[y.phase[t].sem].holders && y.k.status[t] == Running && !y.k.Waiting(t)
  {
    var t := y.k.current.value;
    assert InPhase(y, t);
    assert y.k.WellPlaced(t);
  }

  /** A task that is not current is left alone: it keeps its place in the code and its context. */
  lemma OthersUntouched<T, S, C>(y: Sys<T, S, C>, l: Step<T, S, C>, t: T)
    requires Inv(y) && Next(y, l).Some? && t in y.k.status && y.k.current != Some(t)
    ensures var y' := Next(y, l).value;
      t in y'.phase && t in y'.k.context && y'.phase[t] == y.phase[t] && y'.k.context[t] == y.k.context[t]
  {
    if l.Acquire? {
      AcquireKeeps(y, l.s, t);
    } else if l.Post? || l.Leave? {
      SignalEffect(y.k, l.s);
    }
  }

  lemma AcquireKeeps<T, S, C>(y: Sys<T, S, C>, s: S, t: T)
    requires CanAcquire(y, s) && t in y.k.status && y.k.current != Some(t)
    ensures var y' := Acquired(y, s).value;
      t in y'.phase && t in y'.k.context && y'.phase[t] == y.phase[t] && y'.k.context[t] == y.k.context[t]
  {
    AcquireKeys(y, s);
  }

  /** The return from a trap: some task runs, and it has a context. */
  lemma SomebodyResumes<T, S, C>(y: Sys<T, S, C>)
    requires Inv(y) && Next(y, Resume).Some?
    ensures var y' := Next(y, Resume).value;
      y'.k.current.Some? && y'.k.current.value in y'.k.context && y'.k.context == y.k.context
  {
    ScheduleEffect(y.k);
  }

  /** The end of a trap. After a yield or an interrupt of the timer or a device the first ready task
      runs, and a task that was running and is awake is ready behind all others; any other event
      leaves the current task and the ready list alone. */
  lemma ResumeSwitches<T, S, C>(y: Sys<T, S, C>)
    requires Inv(y) && Next(y, Resume).Some?
    ensures var k, y' := y.k, Next(y, Resume).value;
      && y'.trap == None && y'.k.context == k.context && y'.k.sems == k.sems
      && if y.trap == Some(Yield) || y.trap == Some(IrqTimer) || y.trap == Some(IrqIodev) then
           var awake := k.current.Some? && k.current.value != k.idle && k.status[k.current.value] != Sleeping;
           var queue := k.ready + if awake then [k.current.value] else [];
           if queue == [] then y'.k.current == Some(k.idle) && y'.k.ready == []
           else y'.k.current == Some(queue[0]) && y'.k.ready == queue[1..]
         else y'.k.current == k.current && y'.k.ready == k.ready && y'.k.status == k.status
  {
    if Reschedules(y.trap.value) {
      assert Next(y, Resume) == Some(y.(k := Schedule(y.k), trap := None));
      ScheduleQueue(y.k);
    } else {
      assert Next(y, Resume) == Some(y.(trap := None));
    }
  }

  lemma ScheduleQueue<T, S, C>(k: Kernel<T, S, C>)
    requires k.current.Some? ==> k.current.value in k.status
    ensures var awake := k.current.Some? && k.current.value != k.idle && k.status[k.current.value] != Sleeping;
      var queue, k' := k.ready + if awake then [k.current.value] else [], Schedule(k);
      && k'.context == k.context && k'.sems == k.sems
      && if queue == [] then k'.current == Some(k.idle) && k'.ready == []
         else k'.current == Some(queue[0]) && k'.ready == queue[1..]
  {
  }

  // ---------------------------------------------------------------- mutual exclusion

  /** Every wait on m is by a task that holds no unit of it, and every signal gives one back. */
  ghost predicate Bracketed<T, S, C>(y: Sys<T, S, C>, l: Step<T, S, C>, m: S) {
    && l != Post(m) && l != Use(m)
    && (l == Acquire(m) ==> y.k.current.Some? && !y.Holds(m))
  }

  ghost predicate BracketedRun<T, S, C>(y: Sys<T, S, C>, steps: seq<Step<T, S, C>>, m: S) {
    steps != [] ==>
      && BracketedRun(y, Init(steps), m)
      && var before := Run(y, Init(steps));
         before.Some? && Bracketed(before.value, Last(steps), m)
  }

  /** The units of m that are free or held. */
  function Units<T, S, C>(y: Sys<T, S, C>, m: S): nat
    requires m in y.k.sems && m in y.book
  {
    y.k.sems[m].count + |y.book[m].holders|
  }

  predicate SameUnits<T, S(==), C>(y: Sys<T, S, C>, y': Sys<T, S, C>, m: S) {
    && m in y.k.sems && m in y.book && m in y'.k.sems && m in y'.book
    && Units(y', m) == Units(y, m) && y'.book[m].initial == y.book[m].initial
  }

  /** A wait by a task that holds no unit moves one from free to held, or changes nothing. The
      unit that another caller held before, or the one that the boot code takes, is gone. */
  lemma AcquireUnits<T, S, C>(y: Sys<T, S, C>, m: S)
    requires CanAcquire(y, m)
    ensures var y' := Acquired(y, m).value;
      && m in y'.k.sems && m in y'.book && y'.book[m].initial == y.book[m].initial
      && Units(y', m) == Units(y, m) - if y.k.current.Some? && !y.Holds(m) then 0 else 1
  {
    WaiterRuns(y, m);
    WaitEffect(y.k, m);
    if y.k.current.Some? {
      HoldersChange(y.book[m].holders, y.k.current.value);
    } else {
      assert y.book[m].holders + {} == y.book[m].holders;
    }
  }

  lemma HoldersChange<T>(h: set<T>, t: T)
    ensures |h + {t}| == |h| + if t in h then 0 else 1
    ensures |h - {t}| == |h| - if t in h then 1 else 0
  {
    if t in h {
      assert h + {t} == h;
    } else {
      assert h - {t} == h;
    }
  }

  /** A signal makes one more unit, free or held by the task it wakes. */
  lemma PostUnits<T, S, C>(y: Sys<T, S, C>, m: S)
    requires Inv(y) && m in y.k.sems
    ensures var y' := Posted(y, m);
      m in y'.k.sems && m in y'.book && Units(y', m) == Units(y, m) + 1 && y'.book[m].initial == y.book[m].initial
  {
    var h, w := y.book[m].holders, Woken(y.k, m);
    SignalEffect(y.k, m);
    if w.Some? {
      assert InPhase(y, w.value);
      assert |h + {w.value}| == |h| + 1;
    } else {
      assert h + {} == h;
    }
  }

  lemma UseUnits<T, S, C>(y: Sys<T, S, C>, m: S)
    requires Inv(y) && y.Holds(m)
    ensures var y' := Used(y, m);
      m in y'.k.sems && m in y'.book && Units(y', m) == Units(y, m) - 1 && y'.book[m].initial == y.book[m].initial
  {
    var t, h := y.k.current.value, y.book[m].holders;
    assert |h - {t}| == |h| - 1;
  }

  /** Steps that do not name m leave its units alone. */
  lemma OtherUnits<T, S, C>(y: Sys<T, S, C>, l: Step<T, S, C>, m: S)
    requires Inv(y) && Next(y, l).Some? && m in y.k.sems
    requires l != Acquire(m) && l != Leave(m) && l != Post(m) && l != Use(m)
    ensures SameUnits(y, Next(y, l).value, m)
  {
    if l.Post? || l.Leave? {
      PostOther(y, l, m);
    } else if l.Acquire? {
      AcquireOther(y, l.s);
    }
  }

  lemma PostOther<T, S, C>(y: Sys<T, S, C>, l: Step<T, S, C>, m: S)
    requires Inv(y) && Next(y, l).Some? && m in y.k.sems
    requires (l.Post? || l.Leave?) && l.s != m
    ensures SameUnits(y, Next(y, l).value, m)
  {
    SignalEffect(y.k, l.s);
  }

  lemma AcquireOther<T, S, C>(y: Sys<T, S, C>, s: S)
    requires CanAcquire(y, s)
    ensures forall m :: m in y.k.sems && m != s ==> Wait(y.k, s).value.sems[m] == y.k.sems[m]
    ensures Wait(y.k, s).value.sems.Keys == y.k.sems.Keys
  {
    WaiterRuns(y, s);
    WaitEffect(y.k, s);
  }

  /** The units of m are those it was initialised with. */
  predicate Exclusive<T, S, C>(y: Sys<T, S, C>, m: S) {
    m in y.k.sems && m in y.book ==> Units(y, m) == y.book[m].initial <= 1
  }

  lemma StepKeepsExclusive<T, S, C>(y: Sys<T, S, C>, l: Step<T, S, C>, m: S)
    requires Inv(y) && Next(y, l).Some? && Bracketed(y, l, m) && Exclusive(y, m)
    ensures Exclusive(Next(y, l).value, m)
  {
    if l == Acquire(m) {
      AcquireUnits(y, m);
    } else if l == Leave(m) {
      UseUnits(y, m);
      UseInv(y, m);
      PostUnits(Used(y, m), m);
    } else if m in y.k.sems {
      OtherUnits(y, l, m);
    } else {
      NewUnits(y, l, m);
    }
  }

  lemma NewUnits<T, S, C>(y: Sys<T, S, C>, l: Step<T, S, C>, m: S)
    requires Inv(y) && Next(y, l).Some? && m !in y.k.sems
    ensures Exclusive(Next(y, l).value, m)
    ensures m in Next(y, l).value.k.sems ==> l.Open? && l.s == m
  {
    if l.Acquire? { AcquireOther(y, l.s); }
    if l.Post? || l.Leave? { SignalEffect(y.k, l.s); }
  }

  lemma {:induction false} RunKeepsExclusive<T, S, C>(y: Sys<T, S, C>, steps: seq<Step<T, S, C>>, m: S)
    requires Inv(y) && Exclusive(y, m) && Run(y, steps).Some? && BracketedRun(y, steps, m)
    ensures Exclusive(Run(y, steps).value, m)
    decreases |steps|
  {
    if steps != [] {
      RunKeepsExclusive(y, Init(steps), m);
      RunKeepsInv(y, Init(steps));
      StepKeepsExclusive(Run(y, Init(steps)).value, Last(steps), m);
    }
  }

  /** A semaphore initialised to 1 and used as wait ... signal brackets admits one task. */
  lemma MutualExclusion<T, S, C>(idle: T, c: C, steps: seq<Step<T, S, C>>, m: S, t: T, u: T)
    requires Run(Boot(idle, c), steps).Some? && BracketedRun(Boot(idle, c), steps, m)
    requires var y := Run(Boot(idle, c), steps).value;
      m in y.book && t in y.book[m].holders && u in y.book[m].holders
    ensures t == u
  {
    BootInv<T, S, C>(idle, c);
    RunKeepsInv(Boot(idle, c), steps);
    RunKeepsExclusive(Boot(idle, c), steps, m);
    AtMostOne(Run(Boot(idle, c), steps).value.book[m].holders);
  }

  lemma AtMostOne<T>(h: set<T>)
    requires |h| <= 1
    ensures forall t, u :: t in h && u in h ==> t == u
  {
    forall t, u | t in h && u in h ensures t == u {
      assert |h - {t}| == |h| - 1;
      assert u in h - {t} ==> |h - {t}| > 0;
    }
  }

  // ---------------------------------------------------------------- bounded waiting

  /** The number of steps of a run in which the scheduler picks a task. */
  function Dispatches<T, S, C>(y: Sys<T, S, C>, steps: seq<Step<T, S, C>>): nat {
    if steps == [] then 0
    else Dispatches(y, Init(steps)) + if Picks(Run(y, Init(steps)), Last(steps)) then 1 else 0
  }

  predicate Picks<T, S, C>(y: Option<Sys<T, S, C>>, l: Step<T, S, C>) {
    l.Resume? && y.Some? && y.value.trap.Some? && Reschedules(y.value.trap.value)
  }

  /** No step but a dispatch takes a task out of the ready list, and that takes the first. */
  lemma ReadyPrefix<T, S, C>(y: Sys<T, S, C>, l: Step<T, S, C>)
    requires Next(y, l).Some?
    ensures var y' := Next(y, l).value;
      if Picks(Some(y), l) then y.k.ready != [] ==> y.k.ready[1..] <= y'.k.ready && y'.k.current == Some(y.k.ready[0])
      else y.k.ready <= y'.k.ready
  {
  }

  predicate StandsAt<T(==), S, C>(y: Sys<T, S, C>, i: nat, t: T) {
    i < |y.k.ready| && y.k.ready[i] == t
  }

  lemma MovesOne<T, S, C>(y: Sys<T, S, C>, l: Step<T, S, C>, i: nat, t: T)
    requires Next(y, l).Some? && StandsAt(y, i, t)
    ensures if !Picks(Some(y), l) then StandsAt(Next(y, l).value, i, t)
            else if i > 0 then StandsAt(Next(y, l).value, i - 1, t)
            else Next(y, l).value.k.current == Some(t)
  {
    ReadyPrefix(y, l);
  }

  lemma RunLast<T, S, C>(y: Sys<T, S, C>, steps: seq<Step<T, S, C>>)
    requires steps != [] && Run(y, steps).Some?
    ensures Run(y, Init(steps)).Some?
    ensures Next(Run(y, Init(steps)).value, Last(steps)) == Run(y, steps)
    ensures Dispatches(y, steps) ==
      Dispatches(y, Init(steps)) + if Picks(Run(y, Init(steps)), Last(steps)) then 1 else 0
  {
  }

  /** Step j of a run is a return from a trap for a yield, the timer or a device. */
  ghost predicate PickedAt<T, S, C>(y: Sys<T, S, C>, steps: seq<Step<T, S, C>>, j: int) {
    && 0 <= j < |steps| && steps[j] == Resume && Run(y, steps[..j]).Some?
    && Run(y, steps[..j]).value.trap in {Some(Yield), Some(IrqTimer), Some(IrqIodev)}
  }

  ghost function PickPoints<T, S, C>(y: Sys<T, S, C>, steps: seq<Step<T, S, C>>): set<int> {
    Where(|steps|, j => PickedAt(y, steps, j))
  }

  /** A task at index k of the ready list moves up by one with every dispatch, whatever else
      happens. */
  lemma MovesUp<T, S, C>(y: Sys<T, S, C>, steps: seq<Step<T, S, C>>, y': Sys<T, S, C>, k: nat, n: nat)
    requires Run(y, steps) == Some(y') && k < |y.k.ready| && |PickPoints(y, steps)| == n <= k
    ensures k - n < |y'.k.ready| && y'.k.ready[k - n] == y.k.ready[k]
  {
    CountPicked(y, steps);
    StandsHigher(y, steps, k, n);
    assert StandsAt(y', k - n, y.k.ready[k]);
  }

  lemma {:induction false} StandsHigher<T, S, C>(y: Sys<T, S, C>, steps: seq<Step<T, S, C>>, k: nat, n: nat)
    requires Run(y, steps).Some? && k < |y.k.ready| && Dispatches(y, steps) == n <= k
    ensures StandsAt(Run(y, steps).value, k - n, y.k.ready[k])
    decreases |steps|
  {
    if steps != [] {
      RunLast(y, steps);
      var n' := Dispatches(y, Init(steps));
      StandsHigher(y, Init(steps), k, n');
      assert StandsAt(Run(y, Init(steps)).value, k - n', y.k.ready[k]);
      MovesOne(Run(y, Init(steps)).value, Last(steps), k - n', y.k.ready[k]);
    }
  }

  lemma PickedBefore<T, S, C>(y: Sys<T, S, C>, steps: seq<Step<T, S, C>>, j: int)
    requires steps != [] && j < |steps| - 1
    ensures PickedAt(y, steps, j) <==> PickedAt(y, Init(steps), j)
  {
    if j >= 0 { assert Init(steps)[..j] == steps[..j]; }
  }

  lemma PickedLast<T, S, C>(y: Sys<T, S, C>, steps: seq<Step<T, S, C>>)
    requires steps != []
    ensures PickedAt(y, steps, |steps| - 1) <==> Picks(Run(y, Init(steps)), Last(steps))
  {
  }

  lemma {:induction false} CountPicked<T, S, C>(y: Sys<T, S, C>, steps: seq<Step<T, S, C>>)
    ensures Dispatches(y, steps) == |PickPoints(y, steps)|
    decreases |steps|
  {
    if steps != [] {
      var init, n := Init(steps), |steps| - 1;
      var p, q := j => PickedAt(y, steps, j), j => PickedAt(y, init, j);
      CountPicked(y, init);
      WhereNext(n, p);
      forall j | 0 <= j < n ensures p(j) == q(j) { PickedBefore(y, steps, j); }
      WhereSame(n, p, q);
      PickedLast(y, steps);
    }
  }

  /** The dispatch numbered k + 1 runs the task at index k of the ready list; dispatches are the
      returns from traps for a yield, the timer or a device. */
  lemma BoundedWaiting<T, S, C>(y: Sys<T, S, C>, steps: seq<Step<T, S, C>>, k: nat)
    requires Run(y, steps).Some? && k < |y.k.ready|
    requires |PickPoints(y, steps)| == k + 1 && PickedAt(y, steps, |steps| - 1)
    ensures Run(y, steps).value.k.current == Some(y.k.ready[k])
  {
    CountPicked(y, steps);
    RunLast(y, steps);
    PickedLast(y, steps);
    StandsHigher(y, Init(steps), k, k);
    MovesOne(Run(y, Init(steps)).value, Last(steps), 0, y.k.ready[k]);
  }
}
