/** The parallel table filling: the main thread creates the workers of a round one by one,
    joins them and goes on to the next anti-diagonal; the workers claim cells under a
    spinlock and fill them outside it. Every step of every thread is one transition and a
    schedule picks the thread to move, so all interleavings are covered. */
module LcsWorkers {
  import opened Lcs

  const NTHREAD := 64

  datatype Config = Config(a: string, b: string, threads: int) {
    /** What scanf delivers: two non-empty strings. */
    ghost predicate Valid() { |a| > 0 && |b| > 0 }

    /** The number of workers that a round has. */
    function Team(): nat { if threads < 0 then 0 else threads }

    /** The number of rounds. */
    function Rounds(): int { |a| + |b| - 1 }

    predicate InTable(x: int, y: int) { 0 <= x < |a| && 0 <= y < |b| }

    predicate OnDiagonal(round: int, x: int, y: int) { InTable(x, y) && x + y == round - 1 }
  }

  /** The program counter and locals of a worker. */
  datatype Worker =
    | Absent
    | Start
    | Loop(i: int, j: int)
    | Lock(i: int, j: int)
    | Test(i: int, j: int)
    | Release(i: int, j: int, mine: bool)
    | ReadA(i: int, j: int)
    | ReadB(i: int, j: int, skipA: int)
    | ReadBoth(i: int, j: int, skipA: int, skipB: int)
    | Store(i: int, j: int, value: int)
    | Advance(i: int, j: int)
    | Done

  /** The program counter of the main thread; Aborted is the failed assertion in create. */
  datatype Main =
    | NextRound(step: int)
    | Spawning(step: int, next: nat)
    | Joining(step: int, next: nat)
    | Finished
    | Aborted

  /** The shared variables. `dp` holds the cells written so far (the others are still zero),
      `cal` the cells marked in dp_cal; the last three fields record history only: who took
      the lock last, who claimed a cell, and how often cells were claimed. */
  datatype State = State(main: Main, round: int, lock: bool, cal: set<(int, int)>, dp: map<(int, int), int>,
                         workers: seq<Worker>, holder: nat, owner: map<(int, int), nat>, claims: multiset<(int, int)>)

  /** The DP macro on the shared table. */
  function At(dp: map<(int, int), int>, x: int, y: int): int {
    if x >= 0 && y >= 0 && (x, y) in dp then dp[(x, y)] else 0
  }

  function Init(c: Config): State {
    State(NextRound(0), 1, false, {}, map[], seq(c.Team(), _ => Absent), 0, map[], multiset{})
  }

  function MainStep(c: Config, s: State): State {
    match s.main
    case NextRound(t) => s.(main := if t < c.Rounds() then Spawning(t, 0) else Finished)
    case Spawning(t, k) =>
      if k >= c.threads then s.(main := Joining(t, 0))
      else if k >= NTHREAD then s.(main := Aborted)
      else if k >= |s.workers| then s
      else s.(main := Spawning(t, k + 1), workers := s.workers[k := Start])
    case Joining(t, k) =>
      if k >= |s.workers| then
        s.(main := NextRound(t + 1), round := s.round + 1, workers := seq(|s.workers|, _ => Absent))
      else if s.workers[k].Done? then s.(main := Joining(t, k + 1))
      else s
    case Finished => s
    case Aborted => s
  }

  /** One step of worker k, whose id is k + 1. */
  function WorkerStep(c: Config, s: State, k: nat): State
    requires k < |s.workers|
  {
    match s.workers[k]
    case Absent => s
    case Start =>
      if k + 1 > s.round then Put(s, k, Done)
      else if s.round > |c.a| then Put(s, k, Loop(|c.a| - 1, s.round - |c.a|))
      else Put(s, k, Loop(s.round - 1, 0))
    case Loop(i, j) => Put(s, k, if i >= 0 && j < |c.b| then Lock(i, j) else Done)
    case Lock(i, j) => if s.lock then s else Put(s, k, Test(i, j)).(lock := true, holder := k)
    case Test(i, j) =>
      if (i, j) in s.cal then Put(s, k, Release(i, j, false))
      else Put(s, k, Release(i, j, true)).(cal := s.cal + {(i, j)}, owner := s.owner[(i, j) := k],
                                           claims := s.claims + multiset{(i, j)})
    case Release(i, j, mine) => Put(s, k, if mine then ReadA(i, j) else Advance(i, j)).(lock := false)
    case ReadA(i, j) => Put(s, k, ReadB(i, j, At(s.dp, i - 1, j)))
    case ReadB(i, j, skipA) => Put(s, k, ReadBoth(i, j, skipA, At(s.dp, i, j - 1)))
    case ReadBoth(i, j, skipA, skipB) =>
      if c.InTable(i, j) then
        Put(s, k, Store(i, j, Max3(skipA, skipB, At(s.dp, i - 1, j - 1) + Same(c.a[i], c.b[j]))))
      else s
    case Store(i, j, v) => Put(s, k, Advance(i, j)).(dp := s.dp[(i, j) := v])
    case Advance(i, j) => Put(s, k, Loop(i - 1, j + 1))
    case Done => s
  }

  function Put(s: State, k: nat, w: Worker): State
    requires k < |s.workers|
  {
    s.(workers := s.workers[k := w])
  }

  /** Who moves: the main thread or a worker. */
  datatype Choice = MoveMain | Move(k: nat)

  function Step(c: Config, s: State, who: Choice): State {
    if who.MoveMain? then MainStep(c, s)
    else if who.k < |s.workers| then WorkerStep(c, s, who.k)
    else s
  }

  function Run(c: Config, schedule: seq<Choice>): State {
    if schedule == [] then Init(c) else Step(c, Run(c, schedule[..|schedule| - 1]), schedule[|schedule| - 1])
  }

  // ---------------------------------------------------------------- the invariant

  /** Worker w has claimed cell (x, y) and has not stored it yet. */
  predicate Holds(w: Worker, x: int, y: int) {
    match w
    case Release(i, j, mine) => mine && i == x && j == y
    case ReadA(i, j) => i == x && j == y
    case ReadB(i, j, _) => i == x && j == y
    case ReadBoth(i, j, _, _) => i == x && j == y
    case Store(i, j, _) => i == x && j == y
    case _ => false
  }

  predicate Critical(w: Worker) { w.Test? || w.Release? }

  /** The cells of the diagonal below row i are all claimed. */
  ghost predicate Passed(c: Config, s: State, i: int) {
    forall x, y :: c.OnDiagonal(s.round, x, y) && x > i ==> (x, y) in s.cal
  }

  ghost predicate Claimed(c: Config, s: State, i: int, j: int) {
    c.OnDiagonal(s.round, i, j) && Passed(c, s, i) && (i, j) in s.cal
  }

  ghost predicate WorkerOk(c: Config, s: State, k: nat)
    requires k < |s.workers|
  {
    match s.workers[k]
    case Absent => true
    case Start => true
    case Loop(i, j) => i + j == s.round - 1 && -1 <= i < |c.a| && 0 <= j <= |c.b| && Passed(c, s, i)
    case Lock(i, j) => c.OnDiagonal(s.round, i, j) && Passed(c, s, i)
    case Test(i, j) => c.OnDiagonal(s.round, i, j) && Passed(c, s, i)
    case Release(i, j, _) => Claimed(c, s, i, j)
    case ReadA(i, j) => Claimed(c, s, i, j)
    case ReadB(i, j, skipA) => Claimed(c, s, i, j) && skipA == Cell(c.a, c.b, i - 1, j)
    case ReadBoth(i, j, skipA, skipB) =>
      Claimed(c, s, i, j) && skipA == Cell(c.a, c.b, i - 1, j) && skipB == Cell(c.a, c.b, i, j - 1)
    case Store(i, j, v) => Claimed(c, s, i, j) && v == Cell(c.a, c.b, i, j)
    case Advance(i, j) => Claimed(c, s, i, j)
    case Done => k + 1 <= s.round ==> Passed(c, s, -1)
  }

  ghost predicate WorkersOk(c: Config, s: State) {
    forall k :: 0 <= k < |s.workers| ==> WorkerOk(c, s, k)
  }

  /** Mutual exclusion. */
  ghost predicate LockOk(s: State) {
    && (s.lock ==> s.holder < |s.workers| && Critical(s.workers[s.holder]))
    && (forall k :: 0 <= k < |s.workers| && Critical(s.workers[k]) ==> s.lock && k == s.holder)
  }

  /** A cell is held by its one claimant until it is stored. */
  ghost predicate OwnersOk(s: State) {
    && s.owner.Keys == s.cal
    && s.claims == multiset(s.cal)
    && (forall k, x, y :: 0 <= k < |s.workers| && Holds(s.workers[k], x, y) ==>
          (x, y) in s.cal && (x, y) !in s.dp && s.owner[(x, y)] == k)
    && (forall x, y :: (x, y) in s.cal && (x, y) !in s.dp ==>
          s.owner[(x, y)] < |s.workers| && Holds(s.workers[s.owner[(x, y)]], x, y))
  }

  /** Earlier diagonals are complete, later ones untouched, stored cells right. */
  ghost predicate CellsOk(c: Config, s: State) {
    && s.dp.Keys <= s.cal
    && (forall x, y :: (x, y) in s.cal ==> c.InTable(x, y) && x + y <= s.round - 1)
    && (forall x, y :: c.InTable(x, y) && x + y < s.round - 1 ==> (x, y) in s.dp)
    && (forall x, y :: (x, y) in s.dp && c.InTable(x, y) ==> s.dp[(x, y)] == Cell(c.a, c.b, x, y))
  }

  ghost predicate MainOk(c: Config, s: State) {
    && |s.workers| == c.Team()
    && match s.main
       case NextRound(t) => s.round == t + 1 && 0 <= t <= c.Rounds() && AllAbsentFrom(s, 0)
       case Spawning(t, k) => s.round == t + 1 && 0 <= t < c.Rounds() && k <= c.Team() && AllAbsentFrom(s, k)
       case Joining(t, k) => s.round == t + 1 && 0 <= t < c.Rounds() && k <= c.Team() && AllDoneBelow(s, k)
       case Finished => s.round == c.Rounds() + 1 && AllAbsentFrom(s, 0)
       case Aborted => false
  }

  ghost predicate AllAbsentFrom(s: State, k: int) {
    && (forall l :: k <= l < |s.workers| ==> 0 <= l && s.workers[l].Absent?)
    && (forall l :: 0 <= l < k && l < |s.workers| ==> !s.workers[l].Absent?)
  }

  ghost predicate AllDoneBelow(s: State, k: int) {
    && (forall l :: 0 <= l < |s.workers| ==> !s.workers[l].Absent?)
    && (forall l :: 0 <= l < k && l < |s.workers| ==> s.workers[l].Done?)
  }

  ghost predicate Inv(c: Config, s: State) {
    && c.Valid() && 1 <= c.threads <= 64
    && MainOk(c, s) && WorkersOk(c, s) && LockOk(s) && OwnersOk(s) && CellsOk(c, s)
  }

  lemma InitInv(c: Config)
    requires c.Valid() && 1 <= c.threads <= 64
    ensures Inv(c, Init(c))
  {
  }

  // ---------------------------------------------------------------- preservation

  /** The other workers do not notice that worker k moved, claimed or stored. */
  lemma OthersOk(c: Config, s: State, s': State, k: nat)
    requires WorkersOk(c, s) && k < |s.workers| == |s'.workers|
    requires forall l :: 0 <= l < |s.workers| && l != k ==> s'.workers[l] == s.workers[l]
    requires s'.round == s.round && s.cal <= s'.cal
    requires WorkerOk(c, s', k)
    ensures WorkersOk(c, s')
  {
    forall l | 0 <= l < |s.workers| ensures WorkerOk(c, s', l) {
      if l != k { assert WorkerOk(c, s, l); }
    }
  }

  /** A move of worker k that only changes its own counter and locals. */
  lemma LocalMove(c: Config, s: State, k: nat, w: Worker)
    requires Inv(c, s) && k < |s.workers|
    requires !s.workers[k].Absent? && !s.workers[k].Done? && !w.Absent?
    requires !Critical(s.workers[k]) && !Critical(w)
    requires forall x, y :: Holds(s.workers[k], x, y) <==> Holds(w, x, y)
    requires WorkerOk(c, Put(s, k, w), k)
    ensures Inv(c, Put(s, k, w))
  {
    OthersOk(c, s, Put(s, k, w), k);
  }

  lemma StartStep(c: Config, s: State, k: nat)
    requires Inv(c, s) && k < |s.workers| && s.workers[k].Start?
    ensures Inv(c, WorkerStep(c, s, k))
  {
    assert !s.main.Finished? && !s.main.NextRound?;
    var w := StartMove(c, s, k);
    LocalMove(c, s, k, w);
  }

  /** A worker leaves at once or starts at the lower end of the diagonal. */
  lemma StartMove(c: Config, s: State, k: nat) returns (w: Worker)
    requires c.Valid() && k < |s.workers| && s.workers[k].Start? && 1 <= s.round <= c.Rounds()
    ensures WorkerStep(c, s, k) == Put(s, k, w) && (w.Done? || w.Loop?) && WorkerOk(c, Put(s, k, w), k)
  {
    w := if k + 1 > s.round then Done
         else if s.round > |c.a| then Loop(|c.a| - 1, s.round - |c.a|)
         else Loop(s.round - 1, 0);
  }

  lemma LoopStep(c: Config, s: State, k: nat)
    requires Inv(c, s) && k < |s.workers| && s.workers[k].Loop?
    ensures Inv(c, WorkerStep(c, s, k))
  {
    assert WorkerOk(c, s, k);
    var w := WorkerStep(c, s, k).workers[k];
    LocalMove(c, s, k, w);
  }

  lemma LockStep(c: Config, s: State, k: nat)
    requires Inv(c, s) && k < |s.workers| && s.workers[k].Lock?
    ensures Inv(c, WorkerStep(c, s, k))
  {
    assert WorkerOk(c, s, k);
    if !s.lock {
      OthersOk(c, s, WorkerStep(c, s, k), k);
    }
  }

  lemma TestStep(c: Config, s: State, k: nat)
    requires Inv(c, s) && k < |s.workers| && s.workers[k].Test?
    ensures Inv(c, WorkerStep(c, s, k))
  {
    var s' := WorkerStep(c, s, k);
    var i, j := s.workers[k].i, s.workers[k].j;
    assert WorkerOk(c, s, k);
    OthersOk(c, s, s', k);
    assert LockOk(s');
    TestCells(c, s, k);
    if (i, j) !in s.cal {
      ClaimOwned(c, s, k, i, j);
    }
  }

  /** A claim is on the diagonal of the round. */
  lemma TestCells(c: Config, s: State, k: nat)
    requires CellsOk(c, s) && k < |s.workers| && s.workers[k].Test? && WorkerOk(c, s, k)
    ensures CellsOk(c, WorkerStep(c, s, k))
  {
  }

  /** A fresh claim gives the cell one owner and one claim. */
  lemma ClaimOwned(c: Config, s: State, k: nat, i: int, j: int)
    requires OwnersOk(s) && CellsOk(c, s)
    requires k < |s.workers| && s.workers[k] == Test(i, j) && (i, j) !in s.cal
    ensures OwnersOk(WorkerStep(c, s, k))
  {
    assert multiset(s.cal + {(i, j)}) == multiset(s.cal) + multiset{(i, j)};
  }

  lemma ReleaseStep(c: Config, s: State, k: nat)
    requires Inv(c, s) && k < |s.workers| && s.workers[k].Release?
    ensures Inv(c, WorkerStep(c, s, k))
  {
    assert WorkerOk(c, s, k);
    OthersOk(c, s, WorkerStep(c, s, k), k);
  }

  /** Reads go to earlier diagonals, which are complete. */
  lemma ReadEarlier(c: Config, s: State, x: int, y: int)
    requires CellsOk(c, s) && x < |c.a| && y < |c.b| && x + y < s.round - 1
    ensures At(s.dp, x, y) == Cell(c.a, c.b, x, y)
  {
  }

  lemma ReadStep(c: Config, s: State, k: nat)
    requires Inv(c, s) && k < |s.workers|
    requires s.workers[k].ReadA? || s.workers[k].ReadB? || s.workers[k].ReadBoth?
    ensures Inv(c, WorkerStep(c, s, k))
  {
    ReadValue(c, s, k);
    LocalMove(c, s, k, WorkerStep(c, s, k).workers[k]);
  }

  lemma ReadValue(c: Config, s: State, k: nat)
    requires Inv(c, s) && k < |s.workers|
    requires s.workers[k].ReadA? || s.workers[k].ReadB? || s.workers[k].ReadBoth?
    ensures WorkerOk(c, Put(s, k, WorkerStep(c, s, k).workers[k]), k)
  {
    assert WorkerOk(c, s, k);
    match s.workers[k]
    case ReadA(_, _) => ReadAValue(c, s, k);
    case ReadB(_, _, _) => ReadBValue(c, s, k);
    case ReadBoth(_, _, _, _) => ReadBothValue(c, s, k);
  }

  lemma ReadAValue(c: Config, s: State, k: nat)
    requires CellsOk(c, s) && k < |s.workers| && s.workers[k].ReadA? && WorkerOk(c, s, k)
    ensures WorkerOk(c, Put(s, k, WorkerStep(c, s, k).workers[k]), k)
  {
    var ReadA(i, j) := s.workers[k];
    ReadEarlier(c, s, i - 1, j);
    assert WorkerStep(c, s, k).workers[k] == ReadB(i, j, At(s.dp, i - 1, j));
  }

  lemma ReadBValue(c: Config, s: State, k: nat)
    requires CellsOk(c, s) && k < |s.workers| && s.workers[k].ReadB? && WorkerOk(c, s, k)
    ensures WorkerOk(c, Put(s, k, WorkerStep(c, s, k).workers[k]), k)
  {
    var ReadB(i, j, skipA) := s.workers[k];
    ReadEarlier(c, s, i, j - 1);
    assert WorkerStep(c, s, k).workers[k] == ReadBoth(i, j, skipA, At(s.dp, i, j - 1));
  }

  lemma ReadBothValue(c: Config, s: State, k: nat)
    requires CellsOk(c, s) && k < |s.workers| && s.workers[k].ReadBoth? && WorkerOk(c, s, k)
    ensures WorkerOk(c, Put(s, k, WorkerStep(c, s, k).workers[k]), k)
  {
    var ReadBoth(i, j, skipA, skipB) := s.workers[k];
    ReadEarlier(c, s, i - 1, j - 1);
    FillCell(c, i, j, skipA, skipB, At(s.dp, i - 1, j - 1));
    BothStep(c, s, k, i, j, skipA, skipB, Cell(c.a, c.b, i, j));
  }

  lemma BothStep(c: Config, s: State, k: nat, i: int, j: int, skipA: int, skipB: int, v: int)
    requires k < |s.workers| && s.workers[k] == ReadBoth(i, j, skipA, skipB) && c.InTable(i, j)
    requires v == Max3(skipA, skipB, At(s.dp, i - 1, j - 1) + Same(c.a[i], c.b[j]))
    ensures WorkerStep(c, s, k).workers[k] == Store(i, j, v)
  {
  }

  lemma FillCell(c: Config, i: int, j: int, skipA: int, skipB: int, takeBoth: int)
    requires c.InTable(i, j)
    requires skipA == Cell(c.a, c.b, i - 1, j) && skipB == Cell(c.a, c.b, i, j - 1)
    requires takeBoth == Cell(c.a, c.b, i - 1, j - 1)
    ensures Max3(skipA, skipB, takeBoth + Same(c.a[i], c.b[j])) == Cell(c.a, c.b, i, j)
  {
  }

  lemma StoreStep(c: Config, s: State, k: nat)
    requires Inv(c, s) && k < |s.workers| && s.workers[k].Store?
    ensures Inv(c, WorkerStep(c, s, k))
  {
    assert WorkerOk(c, s, k);
    StoreGivesUp(c, s, k);
    OthersOk(c, s, WorkerStep(c, s, k), k);
  }

  /** A stored cell is held by nobody any more. */
  lemma StoreGivesUp(c: Config, s: State, k: nat)
    requires OwnersOk(s) && k < |s.workers| && s.workers[k].Store?
    ensures OwnersOk(WorkerStep(c, s, k)) && (s.workers[k].i, s.workers[k].j) in s.cal
  {
    assert Holds(s.workers[k], s.workers[k].i, s.workers[k].j);
  }

  lemma AdvanceStep(c: Config, s: State, k: nat)
    requires Inv(c, s) && k < |s.workers| && s.workers[k].Advance?
    ensures Inv(c, WorkerStep(c, s, k))
  {
    assert WorkerOk(c, s, k);
    LocalMove(c, s, k, WorkerStep(c, s, k).workers[k]);
  }

  lemma WorkerPreserves(c: Config, s: State, k: nat)
    requires Inv(c, s) && k < |s.workers|
    ensures Inv(c, WorkerStep(c, s, k))
  {
    match s.workers[k]
    case Absent =>
    case Start => StartStep(c, s, k);
    case Loop(_, _) => LoopStep(c, s, k);
    case Lock(_, _) => LockStep(c, s, k);
    case Test(_, _) => TestStep(c, s, k);
    case Release(_, _, _) => ReleaseStep(c, s, k);
    case ReadA(_, _) => ReadStep(c, s, k);
    case ReadB(_, _, _) => ReadStep(c, s, k);
    case ReadBoth(_, _, _, _) => ReadStep(c, s, k);
    case Store(_, _, _) => StoreStep(c, s, k);
    case Advance(_, _) => AdvanceStep(c, s, k);
    case Done =>
  }

  /** Once all workers are joined, every cell of the diagonal is claimed and stored:
      worker 1 never leaves early, and nobody holds a cell any more. */
  lemma JoinComplete(c: Config, s: State)
    requires Inv(c, s) && s.main.Joining? && s.main.next >= |s.workers|
    ensures forall x, y :: c.OnDiagonal(s.round, x, y) ==> (x, y) in s.dp
  {
    assert WorkerOk(c, s, 0) && s.workers[0].Done?;
    forall x, y | c.OnDiagonal(s.round, x, y) ensures (x, y) in s.dp {
      assert (x, y) in s.cal;
    }
  }

  lemma MainPreserves(c: Config, s: State)
    requires Inv(c, s)
    ensures Inv(c, MainStep(c, s))
  {
    var s' := MainStep(c, s);
    match s.main
    case NextRound(t) =>
      SameWorkers(c, s, s');
    case Spawning(t, k) =>
      SpawnStep(c, s);
    case Joining(t, k) =>
      if k >= |s.workers| {
        JoinStep(c, s);
      } else {
        SameWorkers(c, s, s');
      }
    case Finished =>
    case Aborted =>
  }

  lemma SameWorkers(c: Config, s: State, s': State)
    requires WorkersOk(c, s) && s' == s.(main := s'.main)
    ensures WorkersOk(c, s')
  {
    forall k | 0 <= k < |s.workers| ensures WorkerOk(c, s', k) { assert WorkerOk(c, s, k); }
  }

  lemma SpawnStep(c: Config, s: State)
    requires Inv(c, s) && s.main.Spawning?
    ensures Inv(c, MainStep(c, s))
  {
    var s' := MainStep(c, s);
    var k := s.main.next;
    if k < c.threads {
      OthersOk(c, s, s', k);
    } else {
      SameWorkers(c, s, s');
    }
  }

  lemma JoinStep(c: Config, s: State)
    requires Inv(c, s) && s.main.Joining? && s.main.next >= |s.workers|
    ensures Inv(c, MainStep(c, s))
  {
    JoinComplete(c, s);
  }

  lemma StepPreserves(c: Config, s: State, who: Choice)
    requires Inv(c, s)
    ensures Inv(c, Step(c, s, who))
  {
    if who.MoveMain? {
      MainPreserves(c, s);
    } else if who.k < |s.workers| {
      WorkerPreserves(c, s, who.k);
    }
  }

  /** The invariant holds in every reachable state of every interleaving. */
  lemma {:induction false} RunInv(c: Config, schedule: seq<Choice>)
    requires c.Valid() && 1 <= c.threads <= 64
    ensures Inv(c, Run(c, schedule))
  {
    if schedule == [] {
      InitInv(c);
    } else {
      var before := schedule[..|schedule| - 1];
      RunInv(c, before);
      StepPreserves(c, Run(c, before), schedule[|schedule| - 1]);
    }
  }

  // ---------------------------------------------------------------- what a run delivers

  /** The main thread reaches the end of a run only with the whole table right, every cell
      having been claimed by exactly one worker, and the last cell then is the answer. */
  lemma FinishedIsRight(c: Config, schedule: seq<Choice>)
    requires c.Valid() && 1 <= c.threads <= 64
    ensures var s := Run(c, schedule);
            s.main.Finished? ==>
              && (forall x, y :: c.InTable(x, y) ==> At(s.dp, x, y) == Cell(c.a, c.b, x, y) && s.claims[(x, y)] == 1)
              && LongestCommon(c.a, c.b, At(s.dp, |c.a| - 1, |c.b| - 1))
  {
    var s := Run(c, schedule);
    RunInv(c, schedule);
    if s.main.Finished? {
      forall x, y | c.InTable(x, y) ensures At(s.dp, x, y) == Cell(c.a, c.b, x, y) && s.claims[(x, y)] == 1 {
        FinishedCell(c, s, x, y);
      }
      AnswerIsLongest(c, s);
    }
  }

  lemma FinishedCell(c: Config, s: State, x: int, y: int)
    requires Inv(c, s) && s.main.Finished? && c.InTable(x, y)
    ensures At(s.dp, x, y) == Cell(c.a, c.b, x, y) && s.claims[(x, y)] == 1
  {
    assert (x, y) in s.dp;
  }

  lemma AnswerIsLongest(c: Config, s: State)
    requires Inv(c, s) && s.main.Finished?
    ensures LongestCommon(c.a, c.b, At(s.dp, |c.a| - 1, |c.b| - 1))
  {
    FinishedCell(c, s, |c.a| - 1, |c.b| - 1);
    LastCellIsLongest(c.a, c.b);
  }

  /** At every join the diagonal of the round is complete, right, and claimed cell by cell
      by exactly one worker. */
  lemma RoundIsRight(c: Config, schedule: seq<Choice>)
    requires c.Valid() && 1 <= c.threads <= 64
    ensures var s := Run(c, schedule);
            s.main.Joining? && s.main.next >= |s.workers| ==>
              forall x, y :: c.OnDiagonal(s.round, x, y) ==>
                (x, y) in s.dp && s.dp[(x, y)] == Cell(c.a, c.b, x, y) && s.claims[(x, y)] == 1
  {
    var s := Run(c, schedule);
    RunInv(c, schedule);
    if s.main.Joining? && s.main.next >= |s.workers| {
      JoinComplete(c, s);
    }
  }

  /** The cell that a worker is about to read, if any. */
  function ReadTarget(w: Worker): (t: seq<(int, int)>) {
    match w
    case ReadA(i, j) => [(i - 1, j)]
    case ReadB(i, j, _) => [(i, j - 1)]
    case ReadBoth(i, j, _, _) => [(i - 1, j - 1)]
    case _ => []
  }

  /** A step of a worker depends on the table only through that cell. */
  lemma ReadsTarget(c: Config, s: State, dp': map<(int, int), int>, k: nat)
    requires k < |s.workers|
    requires forall t :: t in ReadTarget(s.workers[k]) ==> At(s.dp, t.0, t.1) == At(dp', t.0, t.1)
    ensures WorkerStep(c, s.(dp := dp'), k).workers == WorkerStep(c, s, k).workers
  {
    var w, s' := s.workers[k], s.(dp := dp');
    assert s'.workers == s.workers && s'.cal == s.cal && s'.lock == s.lock && s'.round == s.round;
    if ReadTarget(w) != [] { assert ReadTarget(w)[0] in ReadTarget(w); }
    match w
    case ReadA(i, j) => assert At(s.dp, i - 1, j) == At(dp', i - 1, j);
    case ReadB(i, j, _) => assert At(s.dp, i, j - 1) == At(dp', i, j - 1);
    case _ =>
  }

  /** It changes no cell but the one it stores. */
  lemma StoresOneCell(c: Config, s: State, k: nat, x: int, y: int)
    requires k < |s.workers|
    ensures At(WorkerStep(c, s, k).dp, x, y) != At(s.dp, x, y) ==>
      s.workers[k].Store? && x == s.workers[k].i && y == s.workers[k].j
  {
    match s.workers[k]
    case Store(i, j, _) =>
    case _ => assert WorkerStep(c, s, k).dp == s.dp;
  }

  /** No data race on the table: what a worker reads, inside the table, was stored in an
      earlier round, and no worker is about to store to it. Two workers never store to the
      same cell. */
  lemma NoRace(c: Config, schedule: seq<Choice>, k: nat, l: nat)
    requires c.Valid() && 1 <= c.threads <= 64
    requires k < |Run(c, schedule).workers| && l < |Run(c, schedule).workers|
    ensures var s := Run(c, schedule);
            var w := s.workers[l];
            w.Store? ==>
              && (w.i, w.j) !in ReadTarget(s.workers[k])
              && (s.workers[k].Store? && s.workers[k].i == w.i && s.workers[k].j == w.j ==> k == l)
    ensures var s := Run(c, schedule);
            forall t :: t in ReadTarget(s.workers[k]) && c.InTable(t.0, t.1) ==>
              t in s.dp && t.0 + t.1 < s.round - 1
  {
    var s := Run(c, schedule);
    RunInv(c, schedule);
    assert WorkerOk(c, s, k) && WorkerOk(c, s, l);
    var w := s.workers[l];
    if w.Store? && s.workers[k].Store? && s.workers[k].i == w.i && s.workers[k].j == w.j {
      assert Holds(s.workers[k], w.i, w.j) && Holds(w, w.i, w.j);
    }
  }

  // ---------------------------------------------------------------- termination

  /** What a worker has left to do in its round, counted in steps. */
  function WorkLeft(c: Config, w: Worker): int {
    match w
    case Absent => 9 * |c.a| + 3
    case Start => 9 * |c.a| + 2
    case Loop(i, _) => 9 * i + 10
    case Lock(i, _) => 9 * i + 9
    case Test(i, _) => 9 * i + 8
    case Release(i, _, _) => 9 * i + 7
    case ReadA(i, _) => 9 * i + 6
    case ReadB(i, _, _) => 9 * i + 5
    case ReadBoth(i, _, _, _) => 9 * i + 4
    case Store(i, _, _) => 9 * i + 3
    case Advance(i, _) => 9 * i + 2
    case Done => 0
  }

  function TeamWork(c: Config, ws: seq<Worker>): int {
    if ws == [] then 0 else WorkLeft(c, ws[0]) + TeamWork(c, ws[1..])
  }

  lemma {:induction false} TeamWorkUpdate(c: Config, ws: seq<Worker>, k: nat, w: Worker)
    requires k < |ws|
    ensures TeamWork(c, ws[k := w]) == TeamWork(c, ws) - WorkLeft(c, ws[k]) + WorkLeft(c, w)
  {
    if k > 0 {
      assert ws[k := w][1..] == ws[1..][k - 1 := w];
      TeamWorkUpdate(c, ws[1..], k - 1, w);
    } else {
      assert ws[k := w][1..] == ws[1..];
    }
  }

  lemma {:induction false} TeamWorkBounds(c: Config, ws: seq<Worker>)
    requires forall k :: 0 <= k < |ws| ==> WorkLeft(c, ws[k]) >= 0
    ensures TeamWork(c, ws) >= 0
  {
    if ws != [] {
      assert forall k :: 0 <= k < |ws[1..]| ==> ws[1..][k] == ws[k + 1];
      TeamWorkBounds(c, ws[1..]);
    }
  }

  /** The work of a team at the start of a round, and all steps of one round. */
  function IdleTeam(c: Config): int { TeamWork(c, seq(c.Team(), _ => Absent)) }

  function RoundCost(c: Config): int { 2 * c.Team() + 4 + IdleTeam(c) }

  function RoundsCost(c: Config, rounds: int): int {
    if rounds <= 0 then 0 else RoundCost(c) + RoundsCost(c, rounds - 1)
  }

  /** An upper bound on the steps still to come. */
  function StepsLeft(c: Config, s: State): int {
    var team := TeamWork(c, s.workers);
    match s.main
    case NextRound(t) => RoundsCost(c, c.Rounds() - t) + 2 * c.Team() + 4 + team
    case Spawning(t, k) => RoundsCost(c, c.Rounds() - t) + 2 * c.Team() + 3 - k + team
    case Joining(t, k) => RoundsCost(c, c.Rounds() - t) + c.Team() + 1 - k + team
    case Finished => 0
    case Aborted => 0
  }

  lemma IdleTeamNonNegative(c: Config)
    ensures IdleTeam(c) >= 0
  {
    TeamWorkBounds(c, seq(c.Team(), _ => Absent));
  }

  lemma {:induction false} RoundsCostNonNegative(c: Config, rounds: int)
    ensures RoundsCost(c, rounds) >= 0
  {
    IdleTeamNonNegative(c);
    if rounds > 0 { RoundsCostNonNegative(c, rounds - 1); }
  }

  lemma WorkNonNegative(c: Config, s: State)
    requires Inv(c, s)
    ensures TeamWork(c, s.workers) >= 0
  {
    forall k | 0 <= k < |s.workers| ensures WorkLeft(c, s.workers[k]) >= 0 { assert WorkerOk(c, s, k); }
    TeamWorkBounds(c, s.workers);
  }

  lemma StepsLeftNonNegative(c: Config, s: State)
    requires Inv(c, s)
    ensures StepsLeft(c, s) >= 0
  {
    WorkNonNegative(c, s);
    if !s.main.Finished? { RoundsCostNonNegative(c, c.Rounds() - s.main.step); }
  }

  /** Every step that changes anything brings the run closer to its end; only a failed
      attempt on the lock and a wait in join leave the state as it was. */
  lemma StepProgress(c: Config, s: State, who: Choice)
    requires Inv(c, s)
    ensures Step(c, s, who) == s || StepsLeft(c, Step(c, s, who)) < StepsLeft(c, s)
  {
    if who.MoveMain? {
      MainProgress(c, s);
    } else if who.k < |s.workers| {
      WorkerProgress(c, s, who.k);
    }
  }

  /** The row a worker is at. */
  ghost predicate RowInRange(c: Config, w: Worker) {
    match w
    case Absent => true
    case Start => true
    case Done => true
    case Loop(i, _) => -1 <= i < |c.a|
    case _ => 0 <= w.i < |c.a|
  }

  lemma WorkerInRange(c: Config, s: State, k: nat)
    requires Inv(c, s) && k < |s.workers|
    ensures RowInRange(c, s.workers[k])
    ensures s.workers[k].Start? ==> 1 <= s.round < |c.a| + |c.b|
    ensures s.workers[k].ReadBoth? ==> c.InTable(s.workers[k].i, s.workers[k].j)
    ensures !s.workers[k].Absent? && !s.workers[k].Done? ==> s.main.Spawning? || s.main.Joining?
  {
    assert WorkerOk(c, s, k);
  }

  lemma WorkerProgress(c: Config, s: State, k: nat)
    requires Inv(c, s) && k < |s.workers|
    ensures WorkerStep(c, s, k) == s || StepsLeft(c, WorkerStep(c, s, k)) < StepsLeft(c, s)
  {
    WorkerInRange(c, s, k);
    WorkerStepShape(c, s, k);
    if !Stuck(s, k) {
      var w := s.workers[k];
      if w.Start? || w.Loop? || w.Lock? || w.Test? || w.Release? {
        ClaimingShrinks(c, s, k);
      } else {
        FillingShrinks(c, s, k);
      }
    }
    TeamWorkUpdate(c, s.workers, k, WorkerStep(c, s, k).workers[k]);
  }

  /** Worker k has nothing to do, or finds the lock taken. */
  predicate Stuck(s: State, k: nat)
    requires k < |s.workers|
  {
    s.workers[k].Absent? || s.workers[k].Done? || (s.workers[k].Lock? && s.lock)
  }

  lemma WorkerStepShape(c: Config, s: State, k: nat)
    requires k < |s.workers|
    ensures WorkerStep(c, s, k).main == s.main
    ensures WorkerStep(c, s, k).workers == s.workers[k := WorkerStep(c, s, k).workers[k]]
    ensures Stuck(s, k) ==> WorkerStep(c, s, k) == s
  {
    match s.workers[k]
    case Absent =>
    case Start =>
    case Loop(i, j) =>
    case Lock(i, j) =>
    case Test(i, j) =>
    case Release(i, j, mine) =>
    case ReadA(i, j) =>
    case ReadB(i, j, skipA) =>
    case ReadBoth(i, j, skipA, skipB) =>
    case Store(i, j, v) =>
    case Advance(i, j) =>
    case Done =>
  }

  lemma ClaimingShrinks(c: Config, s: State, k: nat)
    requires k < |s.workers| && RowInRange(c, s.workers[k]) && !Stuck(s, k)
    requires var w := s.workers[k]; w.Start? || w.Loop? || w.Lock? || w.Test? || w.Release?
    requires s.workers[k].Start? ==> 1 <= s.round < |c.a| + |c.b|
    ensures WorkLeft(c, WorkerStep(c, s, k).workers[k]) < WorkLeft(c, s.workers[k])
  {
    match s.workers[k]
    case Start =>
    case Loop(_, _) =>
    case Lock(_, _) =>
    case Test(_, _) =>
    case Release(_, _, _) =>
  }

  lemma FillingShrinks(c: Config, s: State, k: nat)
    requires k < |s.workers| && RowInRange(c, s.workers[k])
    requires var w := s.workers[k]; w.ReadA? || w.ReadB? || w.ReadBoth? || w.Store? || w.Advance?
    requires s.workers[k].ReadBoth? ==> c.InTable(s.workers[k].i, s.workers[k].j)
    ensures WorkLeft(c, WorkerStep(c, s, k).workers[k]) < WorkLeft(c, s.workers[k])
  {
    match s.workers[k]
    case ReadA(_, _) =>
    case ReadB(_, _, _) =>
    case ReadBoth(_, _, _, _) =>
    case Store(_, _, _) =>
    case Advance(_, _) =>
  }

  lemma MainProgress(c: Config, s: State)
    requires Inv(c, s)
    ensures MainStep(c, s) == s || StepsLeft(c, MainStep(c, s)) < StepsLeft(c, s)
  {
    match s.main
    case NextRound(t) =>
      WorkNonNegative(c, s);
      RoundsCostNonNegative(c, c.Rounds() - t);
    case Spawning(t, k) =>
      SpawnProgress(c, s);
    case Joining(t, k) =>
      JoinProgress(c, s);
    case Finished =>
    case Aborted =>
  }

  lemma SpawnProgress(c: Config, s: State)
    requires Inv(c, s) && s.main.Spawning?
    ensures StepsLeft(c, MainStep(c, s)) < StepsLeft(c, s)
  {
    var k := s.main.next;
    if k < c.threads { TeamWorkUpdate(c, s.workers, k, Start); }
  }

  lemma JoinProgress(c: Config, s: State)
    requires Inv(c, s) && s.main.Joining?
    ensures MainStep(c, s) == s || StepsLeft(c, MainStep(c, s)) < StepsLeft(c, s)
  {
    WorkNonNegative(c, s);
    if s.main.next >= |s.workers| {
      RoundEnds(c, s);
    }
  }

  /** The end of a join pays for the next round. */
  lemma RoundEnds(c: Config, s: State)
    requires s.main.Joining? && s.main.next == |s.workers| == c.Team() && 0 <= s.main.step < c.Rounds()
    requires TeamWork(c, s.workers) >= 0
    ensures StepsLeft(c, MainStep(c, s)) < StepsLeft(c, s)
  {
    var left := c.Rounds() - s.main.step;
    assert MainStep(c, s).workers == seq(c.Team(), _ => Absent);
    assert RoundsCost(c, left) == RoundCost(c) + RoundsCost(c, left - 1);
  }

  /** Until the run is finished some thread can move. */
  lemma SomebodyMoves(c: Config, s: State) returns (who: Choice)
    requires Inv(c, s) && !s.main.Finished?
    ensures Step(c, s, who) != s
  {
    who := MoveMain;
    if MainStep(c, s) == s {
      var k := s.main.next;
      assert s.main.Joining? && k < |s.workers| && !s.workers[k].Done? && !s.workers[k].Absent?;
      assert WorkerOk(c, s, k);
      who := if s.workers[k].Lock? && s.lock then Move(s.holder) else Move(k);
    }
  }

  /** The steps of a schedule that change something. */
  function Effective(c: Config, schedule: seq<Choice>): nat {
    if schedule == [] then 0
    else
      var before := schedule[..|schedule| - 1];
      Effective(c, before) + (if Run(c, schedule) == Run(c, before) then 0 else 1)
  }

  /** No schedule makes more effective steps than the bound of the initial state, so every
      schedule that does not spin for ever comes to an end, and by SomebodyMoves the end
      is the finished table. */
  lemma {:induction false} EffectiveBound(c: Config, schedule: seq<Choice>)
    requires c.Valid() && 1 <= c.threads <= 64
    ensures Effective(c, schedule) + StepsLeft(c, Run(c, schedule)) <= StepsLeft(c, Init(c))
    ensures Effective(c, schedule) <= StepsLeft(c, Init(c))
  {
    RunInv(c, schedule);
    StepsLeftNonNegative(c, Run(c, schedule));
    if schedule != [] {
      var before := schedule[..|schedule| - 1];
      RunInv(c, before);
      EffectiveBound(c, before);
      StepProgress(c, Run(c, before), schedule[|schedule| - 1]);
    }
  }

  // ---------------------------------------------------------------- other team sizes

  /** Without workers the rounds pass and nothing is computed. */
  ghost predicate IdleInv(c: Config, s: State) {
    c.threads <= 0 && s.workers == [] && s.dp == map[] && !s.main.Aborted?
  }

  /** With more workers than create has room for, the run aborts in its first round. */
  ghost predicate CrowdInv(c: Config, s: State) {
    c.threads > 64 && c.Valid() && |s.workers| == c.threads &&
    match s.main
    case NextRound(t) => t == 0
    case Spawning(t, k) => k <= 64
    case Aborted => true
    case _ => false
  }

  lemma OtherStep(c: Config, s: State, who: Choice)
    requires c.Valid()
    ensures IdleInv(c, s) ==> IdleInv(c, Step(c, s, who))
    ensures CrowdInv(c, s) ==> CrowdInv(c, Step(c, s, who))
  {
    if who.Move? && who.k < |s.workers| { WorkerStepShape(c, s, who.k); }
    if who.MoveMain? { OtherMainStep(c, s); }
  }

  lemma OtherMainStep(c: Config, s: State)
    requires c.Valid()
    ensures IdleInv(c, s) ==> IdleInv(c, MainStep(c, s))
    ensures CrowdInv(c, s) ==> CrowdInv(c, MainStep(c, s))
  {
  }

  lemma {:induction false} OtherRuns(c: Config, schedule: seq<Choice>)
    requires c.Valid()
    ensures c.threads <= 0 ==> IdleInv(c, Run(c, schedule))
    ensures c.threads > 64 ==> CrowdInv(c, Run(c, schedule))
  {
    if schedule != [] {
      OtherRuns(c, schedule[..|schedule| - 1]);
      OtherStep(c, Run(c, schedule[..|schedule| - 1]), schedule[|schedule| - 1]);
    }
  }

  predicate NothingShared(a: string, b: string) {
    forall i, j :: 0 <= i < |a| && 0 <= j < |b| ==> a[i] != b[j]
  }

  lemma FirstPick(a: string, b: string, p: seq<int>, q: seq<int>)
    requires CommonSubsequence(a, b, p, q) && |p| > 0
    ensures !NothingShared(a, b)
  {
    assert a[p[0]] == b[q[0]];
  }

  lemma ZeroIffNothingShared(a: string, b: string)
    ensures LongestCommon(a, b, 0) <==> NothingShared(a, b)
  {
    if NothingShared(a, b) {
      assert CommonSubsequence(a, b, [], []);
      forall p, q | CommonSubsequence(a, b, p, q) ensures |p| <= 0 {
        if |p| > 0 { FirstPick(a, b, p, q); }
      }
    } else {
      var i, j :| 0 <= i < |a| && 0 <= j < |b| && a[i] == b[j];
      assert CommonSubsequence(a, b, [i], [j]);
    }
  }

  /** A finished run prints the right result exactly when there was a worker or the strings
      share no character, and a run can only finish with a team that fits. */
  lemma ResultRightIff(c: Config, schedule: seq<Choice>)
    requires c.Valid() && Run(c, schedule).main.Finished?
    ensures c.threads <= 64
    ensures LongestCommon(c.a, c.b, At(Run(c, schedule).dp, |c.a| - 1, |c.b| - 1))
            <==> c.threads >= 1 || NothingShared(c.a, c.b)
  {
    OtherRuns(c, schedule);
    if c.threads >= 1 {
      FinishedIsRight(c, schedule);
    } else {
      ZeroIffNothingShared(c.a, c.b);
    }
  }
}
