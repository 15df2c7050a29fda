/** What the steps of a run alone say about its end: whose context is stored, and how many units of a
    semaphore are free or waited for. */
module KmtHistory {
  import opened Options
  import opened Lists
  import opened Kmt
  import opened KmtRuns

  /** Task t was current when step i was taken. */
  ghost predicate Ran<T, S, C>(y: Sys<T, S, C>, steps: seq<Step<T, S, C>>, i: nat, t: T)
    requires i <= |steps|
  {
    Run(y, steps[..i]).Some? && Run(y, steps[..i]).value.k.current == Some(t)
  }

  lemma RanBefore<T, S, C>(y: Sys<T, S, C>, steps: seq<Step<T, S, C>>, i: nat, t: T)
    requires i < |steps|
    ensures Ran(y, steps, i, t) <==> Ran(y, Init(steps), i, t)
  {
    assert Init(steps)[..i] == steps[..i];
  }

  lemma LastStep<T, S, C>(y: Sys<T, S, C>, steps: seq<Step<T, S, C>>, y': Sys<T, S, C>) returns (before: Sys<T, S, C>)
    requires steps != [] && Run(y, steps) == Some(y')
    ensures Run(y, Init(steps)) == Some(before) && Next(before, Last(steps)) == Some(y')
  {
    before := Run(y, Init(steps)).value;
  }

  // ---------------------------------------------------------------- contexts

  /** Step i set the context of t: t was created, or t was current when a trap, of whatever event,
      came. */
  ghost predicate SetsContext<T, S, C>(y: Sys<T, S, C>, steps: seq<Step<T, S, C>>, i: nat, t: T)
    requires i < |steps|
  {
    (steps[i].Trap? && Ran(y, steps, i, t)) || (steps[i].Spawn? && steps[i].t == t)
  }

  /** In every run from boot the context stored for a task is that of the last trap that came while it
      was current, or else the one it was created with. */
  lemma {:induction false} ContextOf<T, S, C>(idle: T, c0: C, steps: seq<Step<T, S, C>>, y: Sys<T, S, C>, t: T)
    returns (i: int)
    requires Run(Boot(idle, c0), steps) == Some(y) && t in y.k.status
    ensures -1 <= i < |steps| && t in y.k.context
    ensures i == -1 ==> t == idle && y.k.context[t] == c0
    ensures i >= 0 ==>
      && (steps[i].Trap? || steps[i].Spawn?) && y.k.context[t] == steps[i].c
      && (steps[i].Trap? ==>
            Run(Boot(idle, c0), steps[..i]).Some? && Run(Boot(idle, c0), steps[..i]).value.k.current == Some(t))
      && (steps[i].Spawn? ==> steps[i].t == t)
    ensures forall j {:trigger steps[j]} :: i < j < |steps| ==>
      && !(steps[j].Spawn? && steps[j].t == t)
      && (steps[j].Trap? ==>
            Run(Boot(idle, c0), steps[..j]).Some? && Run(Boot(idle, c0), steps[..j]).value.k.current != Some(t))
    decreases |steps|
  {
    i := LastSet(idle, c0, steps, y, t);
    forall j | i < j < |steps| && steps[j].Trap?
      ensures Run(Boot(idle, c0), steps[..j]).Some? && Run(Boot(idle, c0), steps[..j]).value.k.current != Some(t)
    {
      Prefix(Boot(idle, c0), steps, j);
      assert !SetsContext(Boot(idle, c0), steps, j, t);
    }
    forall j | i < j < |steps| ensures !(steps[j].Spawn? && steps[j].t == t) {
      assert !SetsContext(Boot(idle, c0), steps, j, t);
    }
  }

  lemma {:induction false} Prefix<T, S, C>(y: Sys<T, S, C>, steps: seq<Step<T, S, C>>, j: nat)
    requires Run(y, steps).Some? && j <= |steps|
    ensures Run(y, steps[..j]).Some?
    decreases |steps|
  {
    if j == |steps| {
      assert steps[..j] == steps;
    } else {
      assert steps[..j] == Init(steps)[..j];
      Prefix(y, Init(steps), j);
    }
  }

  lemma {:induction false} LastSet<T, S, C>(idle: T, c0: C, steps: seq<Step<T, S, C>>, y: Sys<T, S, C>, t: T)
    returns (i: int)
    requires Run(Boot(idle, c0), steps) == Some(y) && t in y.k.status
    ensures -1 <= i < |steps| && t in y.k.context
    ensures i == -1 ==> t == idle && y.k.context[t] == c0
    ensures i >= 0 ==> SetsContext(Boot(idle, c0), steps, i, t) && y.k.context[t] == steps[i].c
    ensures forall j :: i < j < |steps| ==> !SetsContext(Boot(idle, c0), steps, j, t)
    decreases |steps|
  {
    var y0: Sys<T, S, C> := Boot(idle, c0);
    if steps == [] {
      i := -1;
    } else {
      var before := LastStep(y0, steps, y);
      var n := |steps| - 1;
      BootInv<T, S, C>(idle, c0);
      RunKeepsInv(y0, Init(steps));
      assert steps[..n] == Init(steps);
      if SetsContext(y0, steps, n, t) {
        i := n;
        ContextSet(before, Last(steps), t);
      } else {
        ContextKept(before, Last(steps), t);
        i := LastSet(idle, c0, Init(steps), before, t);
        StillLast(y0, steps, t, i);
      }
    }
  }

  lemma StillLast<T, S, C>(y: Sys<T, S, C>, steps: seq<Step<T, S, C>>, t: T, i: int)
    requires steps != [] && -1 <= i < |steps| - 1 && !SetsContext(y, steps, |steps| - 1, t)
    requires forall j :: i < j < |steps| - 1 ==> !SetsContext(y, Init(steps), j, t)
    ensures i >= 0 ==> (SetsContext(y, steps, i, t) <==> SetsContext(y, Init(steps), i, t))
    ensures forall j :: i < j < |steps| ==> !SetsContext(y, steps, j, t)
  {
    forall j | i <= j < |steps| - 1 && j >= 0
      ensures SetsContext(y, steps, j, t) <==> SetsContext(y, Init(steps), j, t)
    {
      RanBefore(y, steps, j, t);
    }
  }

  lemma ContextSet<T, S, C>(y: Sys<T, S, C>, l: Step<T, S, C>, t: T)
    requires Inv(y) && Next(y, l).Some?
    requires (l.Trap? && y.k.current == Some(t)) || (l.Spawn? && l.t == t)
    ensures t in Next(y, l).value.k.context && Next(y, l).value.k.context[t] == l.c
  {
    if l.Spawn? { CreatePlaced(y.k, l.t, l.c); }
  }

  lemma ContextKept<T, S, C>(y: Sys<T, S, C>, l: Step<T, S, C>, t: T)
    requires Inv(y) && Next(y, l).Some? && t in Next(y, l).value.k.status
    requires !(l.Trap? && y.k.current == Some(t)) && !(l.Spawn? && l.t == t)
    ensures t in y.k.status && t in Next(y, l).value.k.context
    ensures Next(y, l).value.k.context[t] == y.k.context[t]
  {
    match l
    case Spawn(u, c) => CreatePlaced(y.k, u, c);
    case Acquire(s) => AcquireKeys(y, s);
    case Post(s) => SignalEffect(y.k, s);
    case Leave(s) => SignalEffect(y.k, s);
    case Resume => ResumeKeys(y);
    case Open(_, _) =>
    case Use(_) =>
    case Trap(_, _) =>
    case Return =>
  }

  lemma ResumeKeys<T, S, C>(y: Sys<T, S, C>)
    requires Inv(y) && Next(y, Resume).Some?
    ensures Next(y, Resume).value.k.context == y.k.context && Next(y, Resume).value.k.status.Keys == y.k.status.Keys
  {
    ScheduleEffect(y.k);
  }

  // ---------------------------------------------------------------- units

  predicate IsSignal<T(==), S(==), C(==)>(l: Step<T, S, C>, s: S) { (l.Post? || l.Leave?) && l.s == s }

  predicate IsWait<T(==), S(==), C(==)>(l: Step<T, S, C>, s: S) { l.Acquire? && l.s == s }

  ghost function Signals<T, S, C>(steps: seq<Step<T, S, C>>, s: S): set<int> {
    Where(|steps|, i => 0 <= i < |steps| && IsSignal(steps[i], s))
  }

  ghost function Waits<T, S, C>(steps: seq<Step<T, S, C>>, s: S): set<int> {
    Where(|steps|, i => 0 <= i < |steps| && IsWait(steps[i], s))
  }

  /** In every run from boot, counted on the steps alone: the initial value of a semaphore and its
      signals, less its waits, are its free units, less the tasks that wait. */
  lemma {:induction false} UnitsFromSteps<T, S, C>(idle: T, c0: C, steps: seq<Step<T, S, C>>, y: Sys<T, S, C>, s: S)
    returns (i: nat)
    requires Run(Boot(idle, c0), steps) == Some(y) && s in y.k.sems
    ensures i < |steps| && steps[i].Open? && steps[i].s == s
    ensures y.k.sems[s].count - |y.k.sems[s].waiting| == steps[i].value + |Signals(steps, s)| - |Waits(steps, s)|
    decreases |steps|
  {
    var y0: Sys<T, S, C> := Boot(idle, c0);
    assert steps != [];
    var before := LastStep(y0, steps, y);
    var l := Last(steps);
    BootInv<T, S, C>(idle, c0);
    RunKeepsInv(y0, Init(steps));
    OneMoreStep(steps, s);
    if s in before.k.sems {
      i := UnitsFromSteps(idle, c0, Init(steps), before, s);
      UnitStep(before, l, s);
    } else {
      i := |steps| - 1;
      NoneYet(y0, Init(steps), s);
      NewUnits(before, l, s);
    }
  }

  lemma OneMoreStep<T, S, C>(steps: seq<Step<T, S, C>>, s: S)
    requires steps != []
    ensures |Signals(steps, s)| == |Signals(Init(steps), s)| + if IsSignal(Last(steps), s) then 1 else 0
    ensures |Waits(steps, s)| == |Waits(Init(steps), s)| + if IsWait(Last(steps), s) then 1 else 0
  {
    var init, n := Init(steps), |steps| - 1;
    var p, q := i => 0 <= i < |steps| && IsSignal(steps[i], s), i => 0 <= i < |init| && IsSignal(init[i], s);
    WhereNext(n, p);
    WhereSame(n, p, q);
    var p', q' := i => 0 <= i < |steps| && IsWait(steps[i], s), i => 0 <= i < |init| && IsWait(init[i], s);
    WhereNext(n, p');
    WhereSame(n, p', q');
  }

  /** What a step does to the free units less the waiting tasks. */
  lemma UnitStep<T, S, C>(y: Sys<T, S, C>, l: Step<T, S, C>, s: S)
    requires Inv(y) && Next(y, l).Some? && s in y.k.sems
    ensures var k' := Next(y, l).value.k;
      && s in k'.sems
      && k'.sems[s].count - |k'.sems[s].waiting| ==
         y.k.sems[s].count - |y.k.sems[s].waiting|
         + (if IsSignal(l, s) then 1 else 0) - (if IsWait(l, s) then 1 else 0)
  {
    match l
    case Acquire(s') => WaiterRuns(y, s'); WaitEffect(y.k, s');
    case Post(s') => SignalUnit(y.k, s');
    case Leave(s') => SignalUnit(y.k, s');
    case Resume => ResumeSwitches(y);
    case Spawn(t, c) => CreatePlaced(y.k, t, c);
    case Open(_, _) =>
    case Use(_) =>
    case Trap(_, _) =>
    case Return =>
  }

  lemma SignalUnit<T, S, C>(k: Kernel<T, S, C>, s: S)
    requires k.Placed() && s in k.sems
    ensures var k' := Signal(k, s);
      && k'.sems.Keys == k.sems.Keys && (forall s' :: s' in k.sems && s' != s ==> k'.sems[s'] == k.sems[s'])
      && k'.sems[s].count - |k'.sems[s].waiting| == k.sems[s].count - |k.sems[s].waiting| + 1
  {
    SignalEffect(k, s);
    var w := Woken(k, s);
    if w.Some? { WithoutKeeps(k.sems[s].waiting, w.value); }
  }

  /** No step of a run names a semaphore that is not there at its end. */
  lemma {:induction false} NoneYet<T, S, C>(y: Sys<T, S, C>, steps: seq<Step<T, S, C>>, s: S)
    requires Inv(y) && Run(y, steps).Some? && s !in Run(y, steps).value.k.sems
    ensures s !in y.k.sems && Signals(steps, s) == {} && Waits(steps, s) == {}
    decreases |steps|
  {
    if steps != [] {
      var before := LastStep(y, steps, Run(y, steps).value);
      var l := Last(steps);
      RunKeepsInv(y, Init(steps));
      if s in before.k.sems { UnitStep(before, l, s); }
      NoneYet(y, Init(steps), s);
      OneMoreStep(steps, s);
    }
  }
}
