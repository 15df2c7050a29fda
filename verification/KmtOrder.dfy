/** The order in which a semaphore serves its waiters. It is first come, first served, except
    that a signal which finds the current task between its wait and its yield serves that task,
    which is the last in line. */
module KmtOrder {
  import opened Options
  import opened Lists
  import opened Kmt
  import opened KmtRuns

  /** The current task, if it waits at all, is the last in line. */
  ghost predicate LastInLine<T, S, C>(y: Sys<T, S, C>) {
    y.k.current.Some? ==> forall s :: s in y.k.sems ==> EndsLine(y.k, s, y.k.current.value)
  }

  predicate EndsLine<T, S, C>(k: Kernel<T, S, C>, s: S, t: T)
    requires s in k.sems
  {
    var q := k.sems[s].waiting;
    t in q ==> q[|q| - 1] == t
  }

  lemma PostKeepsLast<T, S, C>(y: Sys<T, S, C>, s: S)
    requires Inv(y) && LastInLine(y) && s in y.k.sems
    ensures LastInLine(Posted(y, s))
  {
    SignalEffect(y.k, s);
    var w, k' := Woken(y.k, s), Signal(y.k, s);
    if y.k.current.Some? {
      var t := y.k.current.value;
      forall s' | s' in k'.sems ensures EndsLine(k', s', t) {
        assert EndsLine(y.k, s', t) && InPhase(y, t);
        assert k'.Waits(s', t) ==> y.k.Waits(s', t);
      }
    }
  }

  lemma AcquireKeepsLast<T, S, C>(y: Sys<T, S, C>, s: S)
    requires CanAcquire(y, s) && LastInLine(y)
    ensures LastInLine(Acquired(y, s).value)
  {
    WaiterRuns(y, s);
    WaitEffect(y.k, s);
    if y.k.current.Some? {
      var t, k' := y.k.current.value, Wait(y.k, s).value;
      forall s' | s' in k'.sems ensures EndsLine(k', s', t) {
        assert EndsLine(y.k, s', t);
      }
    }
  }

  lemma ResumeKeepsLast<T, S, C>(y: Sys<T, S, C>)
    requires Inv(y) && LastInLine(y) && Resumed(y).Some?
    ensures LastInLine(Resumed(y).value)
  {
    if Reschedules(y.trap.value) {
      ScheduleEffect(y.k);
      var k' := Schedule(y.k);
      var t := k'.current.value;
      SchedulePlaced(y.k);
      forall s | s in k'.sems ensures EndsLine(k', s, t) {
        assert k'.Waits(s, t) ==> k'.Waiting(t);
        if t != k'.idle { assert k'.WellPlaced(t); }
      }
    }
  }

  lemma StepKeepsLast<T, S, C>(y: Sys<T, S, C>, l: Step<T, S, C>)
    requires Inv(y) && LastInLine(y) && Next(y, l).Some?
    ensures LastInLine(Next(y, l).value)
  {
    match l
    case Open(s, value) =>
      if y.k.current.Some? {
        forall s' | s' in Next(y, l).value.k.sems ensures EndsLine(Next(y, l).value.k, s', y.k.current.value) {
          if s' != s { assert EndsLine(y.k, s', y.k.current.value); }
        }
      }
    case Acquire(s) => AcquireKeepsLast(y, s);
    case Post(s) => PostKeepsLast(y, s);
    case Leave(s) => UseInv(y, s); PostKeepsLast(Used(y, s), s);
    case Resume => ResumeKeepsLast(y);
    case Spawn(t, c) => SameSems(y, Next(y, l).value);
    case Use(s) => SameSems(y, Next(y, l).value);
    case Trap(ev, c) => SameSems(y, Next(y, l).value);
    case Return => SameSems(y, Next(y, l).value);
  }

  lemma SameSems<T, S, C>(y: Sys<T, S, C>, y': Sys<T, S, C>)
    requires LastInLine(y) && y'.k.sems == y.k.sems && y'.k.current == y.k.current
    ensures LastInLine(y')
  {
    if y.k.current.Some? {
      forall s | s in y.k.sems ensures EndsLine(y'.k, s, y.k.current.value) {
        assert EndsLine(y.k, s, y.k.current.value);
      }
    }
  }

  lemma {:induction false} RunKeepsLast<T, S, C>(y: Sys<T, S, C>, steps: seq<Step<T, S, C>>)
    requires Inv(y) && LastInLine(y) && Run(y, steps).Some?
    ensures LastInLine(Run(y, steps).value)
    decreases |steps|
  {
    if steps != [] {
      RunKeepsLast(y, Init(steps));
      RunKeepsInv(y, Init(steps));
      StepKeepsLast(Run(y, Init(steps)).value, Last(steps));
    }
  }

  /** In every run, a signal that wakes a task wakes the first in line unless it comes while the
      current task is in its window on that semaphore; then it wakes the last in line. */
  lemma WhoIsServed<T, S, C>(idle: T, c: C, steps: seq<Step<T, S, C>>, s: S)
    requires Run(Boot(idle, c), steps).Some?
    requires var k := Run(Boot(idle, c), steps).value.k; s in k.sems && Woken(k, s).Some?
    ensures var k := Run(Boot(idle, c), steps).value.k;
      var q := k.sems[s].waiting;
      && q != []
      && Woken(k, s) == Some(if Interrupted(k, s) then q[|q| - 1] else q[0])
      && (Woken(k, s) == Some(q[0]) <==> !Interrupted(k, s) || |q| == 1)
  {
    var y0: Sys<T, S, C> := Boot(idle, c);
    BootInv<T, S, C>(idle, c);
    assert LastInLine(y0);
    RunKeepsInv(y0, steps);
    RunKeepsLast(y0, steps);
    var y := Run(y0, steps).value;
    Served(y, s);
  }

  lemma Served<T, S, C>(y: Sys<T, S, C>, s: S)
    requires Inv(y) && LastInLine(y) && s in y.k.sems && Woken(y.k, s).Some?
    ensures var q := y.k.sems[s].waiting;
      && q != []
      && Woken(y.k, s) == Some(if Interrupted(y.k, s) then q[|q| - 1] else q[0])
      && (Woken(y.k, s) == Some(q[0]) <==> !Interrupted(y.k, s) || |q| == 1)
  {
    assert EndsLine(y.k, s, y.k.current.value);
    assert Distinct(y.k.sems[s].waiting);
  }

  /** What a signal does in any state of any run. If nobody waits there is one more unit. If the
      current task waits, on its way to sleep, it stays awake where it is, and it was last in line.
      Otherwise the first in line becomes ready behind all others. */
  lemma SignalServes<T, S, C>(idle: T, c: C, steps: seq<Step<T, S, C>>, y: Sys<T, S, C>, s: S)
    requires Run(Boot(idle, c), steps) == Some(y) && Next(y, Post(s)).Some?
    ensures var k, k' := y.k, Next(y, Post(s)).value.k;
      var n, q := k.sems[s].count, k.sems[s].waiting;
      if q == [] then k' == k.(sems := k.sems[s := Sem(n + 1, [])])
      else if k.current.Some? && k.current.value in q then
        && k.current.value == q[|q| - 1]
        && k' == k.(sems := k.sems[s := Sem(n, q[..|q| - 1])], status := k.status[k.current.value := Ready])
      else
        k' == k.(sems := k.sems[s := Sem(n, q[1..])], status := k.status[q[0] := Ready], ready := k.ready + [q[0]])
  {
    var y0: Sys<T, S, C> := Boot(idle, c);
    BootInv<T, S, C>(idle, c);
    RunKeepsInv(y0, steps);
    assert LastInLine(y0);
    RunKeepsLast(y0, steps);
    if y.k.sems[s].waiting != [] {
      Somebody(y, s);
      ServedState(y.k, s);
    }
  }

  lemma Somebody<T, S, C>(y: Sys<T, S, C>, s: S)
    requires Inv(y) && LastInLine(y) && s in y.k.sems && y.k.sems[s].waiting != []
    ensures y.k.current.Some? && y.k.Placed()
    ensures var q := y.k.sems[s].waiting; Woken(y.k, s) == Some(if Interrupted(y.k, s) then q[|q| - 1] else q[0])
  {
    assert Balanced(y, s);
    Served(y, s);
  }

  lemma ServedState<T, S, C>(k: Kernel<T, S, C>, s: S)
    requires k.Placed() && s in k.sems && k.sems[s].waiting != [] && k.current.Some?
    requires var q := k.sems[s].waiting; Woken(k, s) == Some(if Interrupted(k, s) then q[|q| - 1] else q[0])
    ensures var n, q, k' := k.sems[s].count, k.sems[s].waiting, Signal(k, s);
      if k.current.value in q then
        && k.current.value == q[|q| - 1]
        && k' == k.(sems := k.sems[s := Sem(n, q[..|q| - 1])], status := k.status[k.current.value := Ready])
      else
        k' == k.(sems := k.sems[s := Sem(n, q[1..])], status := k.status[q[0] := Ready], ready := k.ready + [q[0]])
  {
    var q, t := k.sems[s].waiting, k.current.value;
    if t in q {
      assert k.Waits(s, t) && k.Waiting(t) && k.Listed(t) && k.WellPlaced(t);
      assert Interrupted(k, s);
      WithoutAt(q, |q| - 1);
      assert q[..|q| - 1] + q[|q|..] == q[..|q| - 1];
    } else {
      WithoutAt(q, 0);
      assert q[..0] + q[1..] == q[1..];
    }
  }

  // ---------------------------------------------------------------- a task is overtaken

  type Machine = Sys<nat, nat, nat>

  lemma Then(y: Machine, steps: seq<Step<nat, nat, nat>>, l: Step<nat, nat, nat>, y1: Machine, y2: Machine)
    requires Run(y, steps) == Some(y1) && Next(y1, l) == Some(y2)
    ensures Run(y, steps + [l]) == Some(y2)
  {
    assert Init(steps + [l]) == steps && Last(steps + [l]) == l;
  }

  lemma Same(a: Machine, b: Machine)
    requires a.k.current == b.k.current && a.k.ready == b.k.ready && a.k.idle == b.k.idle
    requires a.k.status == b.k.status && a.k.context == b.k.context && a.k.sems == b.k.sems
    requires a.trap == b.trap && a.phase == b.phase && a.book == b.book
    ensures a == b
  {
  }

  const UNUSED: Book<nat> := Book(0, 0, 0, {})

  /** Two tasks are ready. */
  function TwoReady(): Machine {
    Sys(Kernel(None, [1, 2], 0, map[0 := Ready, 1 := Ready, 2 := Ready], map[0 := 100, 1 := 10, 2 := 20],
               map[7 := Sem(0, [])]),
        None, map[0 := User, 1 := User, 2 := User], map[7 := UNUSED])
  }

  /** The first one runs. */
  function FirstRuns(): Machine {
    TwoReady().(k := TwoReady().k.(current := Some(1), ready := [2],
                                   status := map[0 := Ready, 1 := Running, 2 := Ready]))
  }

  /** It has queued on semaphore 7 and is in its window. */
  function FirstQueued(): Machine {
    FirstRuns().(k := FirstRuns().k.(status := map[0 := Ready, 1 := Sleeping, 2 := Ready],
                                     sems := map[7 := Sem(0, [1])]),
                 phase := map[0 := User, 1 := Window(7), 2 := User])
  }

  /** It sleeps, and the second one runs. */
  function SecondRuns(): Machine {
    Sys(Kernel(Some(2), [], 0, map[0 := Ready, 1 := Sleeping, 2 := Running], map[0 := 100, 1 := 11, 2 := 20],
               map[7 := Sem(0, [1])]),
        None, map[0 := User, 1 := Yielded(7), 2 := User], map[7 := UNUSED])
  }

  /** The second one has queued behind the first. */
  function TwoWaiters(): Machine {
    SecondRuns().(k := SecondRuns().k.(status := map[0 := Ready, 1 := Sleeping, 2 := Sleeping],
                                       sems := map[7 := Sem(0, [1, 2])]),
                  phase := map[0 := User, 1 := Yielded(7), 2 := Window(7)])
  }

  function Begin(): Machine { Boot(0, 100) }

  function Made(): seq<Step<nat, nat, nat>> { [Open(7, 0)] + [Spawn(1, 10)] + [Spawn(2, 20)] }

  lemma MakeTwo()
    ensures Run(Begin(), Made()) == Some(TwoReady())
  {
    var y1 := Opened(Begin(), 7, 0);
    var y2 := Spawned(y1, 1, 10);
    RunOne(Begin(), Open(7, 0));
    Then(Begin(), [Open(7, 0)], Spawn(1, 10), y1, y2);
    Same(Spawned(y2, 2, 20), TwoReady());
    Then(Begin(), [Open(7, 0)] + [Spawn(1, 10)], Spawn(2, 20), y2, TwoReady());
  }

  lemma BootTraps()
    ensures Next(TwoReady(), Trap(Yield, 5)) == Some(TwoReady().(trap := Some(Yield)))
  {
    Same(Trapped(TwoReady(), Yield, 5), TwoReady().(trap := Some(Yield)));
  }

  lemma FirstResumes()
    ensures Next(TwoReady().(trap := Some(Yield)), Resume) == Some(FirstRuns())
  {
    Same(Resumed(TwoReady().(trap := Some(Yield))).value, FirstRuns());
  }

  lemma FirstQueues()
    ensures Next(FirstRuns(), Acquire(7)) == Some(FirstQueued())
  {
    FirstWaits();
    assert UNUSED.holders - {1} == {};
    Same(Acquired(FirstRuns(), 7).value, FirstQueued());
  }

  lemma FirstWaits()
    ensures Wait(FirstRuns().k, 7) == Some(FirstQueued().k)
  {
    var k, k' := Wait(FirstRuns().k, 7).value, FirstQueued().k;
    assert FirstRuns().k.sems[7].waiting + [1] == [1];
    assert k.status == k'.status && k.sems == k'.sems;
  }

  function FirstYields(): Machine {
    Sys(Kernel(Some(1), [2], 0, map[0 := Ready, 1 := Sleeping, 2 := Ready], map[0 := 100, 1 := 11, 2 := 20],
               map[7 := Sem(0, [1])]),
        Some(Yield), map[0 := User, 1 := Yielded(7), 2 := User], map[7 := UNUSED])
  }

  lemma FirstTraps()
    ensures Next(FirstQueued(), Trap(Yield, 11)) == Some(FirstYields())
  {
    Same(Trapped(FirstQueued(), Yield, 11), FirstYields());
  }

  lemma SecondResumes()
    ensures Next(FirstYields(), Resume) == Some(SecondRuns())
  {
    Same(Resumed(FirstYields()).value, SecondRuns());
  }

  lemma SecondQueues()
    ensures Next(SecondRuns(), Acquire(7)) == Some(TwoWaiters())
  {
    SecondWaits();
    assert UNUSED.holders - {2} == {};
    Same(Acquired(SecondRuns(), 7).value, TwoWaiters());
  }

  lemma SecondWaits()
    ensures Wait(SecondRuns().k, 7) == Some(TwoWaiters().k)
  {
    var k, k' := Wait(SecondRuns().k, 7).value, TwoWaiters().k;
    assert SecondRuns().k.sems[7].waiting + [2] == [1, 2];
    assert k.status == k'.status && k.sems == k'.sems;
  }

  /** An interrupt finds the second one in its window. */
  function Interrupting(): Machine {
    TwoWaiters().(k := TwoWaiters().k.(context := map[0 := 100, 1 := 11, 2 := 30]), trap := Some(IrqIodev))
  }

  /** Its handler has signalled: the second one is awake, and the first one waits on. */
  function SecondServed(): Machine {
    Interrupting().(k := Interrupting().k.(status := map[0 := Ready, 1 := Sleeping, 2 := Ready],
                                           sems := map[7 := Sem(0, [1])]),
                    book := map[7 := Book(0, 1, 1, {2})])
  }

  lemma SecondInterrupted()
    ensures Next(TwoWaiters(), Trap(IrqIodev, 30)) == Some(Interrupting())
  {
    Same(Trapped(TwoWaiters(), IrqIodev, 30), Interrupting());
  }

  lemma WakesSecond()
    ensures Woken(Interrupting().k, 7) == Some(2) && Signal(Interrupting().k, 7) == SecondServed().k
  {
    assert Interrupting().k.sems[7].waiting == [1, 2];
    assert Without([1, 2], 2) == [1];
    var k, k' := Signal(Interrupting().k, 7), SecondServed().k;
    assert k.status == k'.status && k.sems == k'.sems;
  }

  lemma HandlerSignals()
    ensures Next(Interrupting(), Post(7)) == Some(SecondServed())
  {
    WakesSecond();
    assert UNUSED.holders + {2} == {2};
    Same(Posted(Interrupting(), 7), SecondServed());
  }

  /** Task 1 waits on semaphore 7 and yields; task 2 waits on it too and is in its window. */
  function ToTwoWaiters(): seq<Step<nat, nat, nat>> {
    Made() + [Trap(Yield, 5)] + [Resume] + [Acquire(7)] + [Trap(Yield, 11)] + [Resume] + [Acquire(7)]
  }

  lemma ReachTwoWaiters()
    ensures Run(Begin(), ToTwoWaiters()) == Some(TwoWaiters())
  {
    MakeTwo();
    BootTraps();
    FirstResumes();
    FirstQueues();
    FirstTraps();
    SecondResumes();
    SecondQueues();
    var steps := Made() + [Trap(Yield, 5)] + [Resume];
    Then(Begin(), Made(), Trap(Yield, 5), TwoReady(), TwoReady().(trap := Some(Yield)));
    Then(Begin(), Made() + [Trap(Yield, 5)], Resume, TwoReady().(trap := Some(Yield)), FirstRuns());
    Then(Begin(), steps, Acquire(7), FirstRuns(), FirstQueued());
    Then(Begin(), steps + [Acquire(7)], Trap(Yield, 11), FirstQueued(), FirstYields());
    Then(Begin(), steps + [Acquire(7)] + [Trap(Yield, 11)], Resume, FirstYields(), SecondRuns());
    Then(Begin(), steps + [Acquire(7)] + [Trap(Yield, 11)] + [Resume], Acquire(7), SecondRuns(), TwoWaiters());
  }

  /** A run in which a signal from an interrupt wakes task 2 while task 1, which has waited
      longer, waits on. */
  lemma Overtaken()
    ensures Run(Begin(), ToTwoWaiters()) == Some(TwoWaiters()) && TwoWaiters().k.sems[7].waiting == [1, 2]
    ensures Run(Begin(), ToTwoWaiters() + [Trap(IrqIodev, 30)] + [Post(7)]) == Some(SecondServed())
    ensures var k := SecondServed().k; k.status[2] == Ready && k.status[1] == Sleeping && k.sems[7].waiting == [1]
  {
    ReachTwoWaiters();
    SecondInterrupted();
    HandlerSignals();
    Then(Begin(), ToTwoWaiters(), Trap(IrqIodev, 30), TwoWaiters(), Interrupting());
    Then(Begin(), ToTwoWaiters() + [Trap(IrqIodev, 30)], Post(7), Interrupting(), SecondServed());
  }
}
