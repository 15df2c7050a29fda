/** Schedules that keep giving every thread its turn come to the end of the program. */
module LcsFairness {
  import opened Bits
  import opened Lcs
  import opened LcsWorkers

  /** A schedule without end. */
  type Schedule = nat -> Choice

  function Prefix(f: Schedule, n: nat): seq<Choice> { seq(n, i requires 0 <= i < n => f(i)) }

  /** The main thread, or a worker of the team. */
  predicate InTeam(c: Config, who: Choice) { who.Move? ==> who.k < c.Team() }

  ghost predicate TurnAfter(f: Schedule, n: nat, who: Choice) { exists m: nat :: m >= n && f(m) == who }

  ghost predicate Fair(c: Config, f: Schedule) {
    forall n: nat, who: Choice :: InTeam(c, who) ==> TurnAfter(f, n, who)
  }

  function After(c: Config, f: Schedule, n: nat): State { Run(c, Prefix(f, n)) }

  lemma OneMore(c: Config, f: Schedule, n: nat)
    ensures After(c, f, n + 1) == Step(c, After(c, f, n), f(n))
  {
    assert Prefix(f, n + 1)[..n] == Prefix(f, n);
  }

  /** A state s that does not last has a last moment, and the step then is progress. */
  lemma {:induction false} LowerBy(c: Config, f: Schedule, n: nat, m: nat, s: State) returns (l: nat)
    requires c.Valid() && 1 <= c.threads <= 64 && n <= m && After(c, f, n) == s
    requires After(c, f, m) == s ==> After(c, f, m + 1) != s
    ensures StepsLeft(c, After(c, f, l)) < StepsLeft(c, s)
    decreases m - n
  {
    if n == m || After(c, f, n + 1) != s {
      ChangeLowers(c, f, n, s);
      l := n + 1;
    } else {
      l := LowerBy(c, f, n + 1, m, s);
    }
  }

  lemma ChangeLowers(c: Config, f: Schedule, n: nat, s: State)
    requires c.Valid() && 1 <= c.threads <= 64 && After(c, f, n) == s && After(c, f, n + 1) != s
    ensures StepsLeft(c, After(c, f, n + 1)) < StepsLeft(c, s)
  {
    RunInv(c, Prefix(f, n));
    OneMore(c, f, n);
    StepProgress(c, s, f(n));
  }

  /** A thread that can move in the state at n has a later turn; if nothing changes before it, it
      changes the state then. */
  lemma MoverTurn(c: Config, f: Schedule, n: nat) returns (turn: nat)
    requires c.Valid() && 1 <= c.threads <= 64 && Fair(c, f) && !After(c, f, n).main.Finished?
    ensures turn >= n && (After(c, f, turn) == After(c, f, n) ==> After(c, f, turn + 1) != After(c, f, n))
  {
    RunInv(c, Prefix(f, n));
    var who := SomebodyMoves(c, After(c, f, n));
    MoversInTeam(c, After(c, f, n), who);
    assert TurnAfter(f, n, who);
    turn :| turn >= n && f(turn) == who;
    OneMore(c, f, turn);
  }

  /** While the program is not finished, a fair schedule comes to an effective step. */
  lemma Progress(c: Config, f: Schedule, n: nat) returns (l: nat)
    requires c.Valid() && 1 <= c.threads <= 64 && Fair(c, f) && !After(c, f, n).main.Finished?
    ensures StepsLeft(c, After(c, f, l)) < StepsLeft(c, After(c, f, n))
  {
    var turn := MoverTurn(c, f, n);
    l := LowerBy(c, f, n, turn, After(c, f, n));
  }

  lemma MoversInTeam(c: Config, s: State, who: Choice)
    requires Inv(c, s) && Step(c, s, who) != s
    ensures InTeam(c, who)
  {
  }

  /** Every fair schedule finishes the program, from any point on. */
  lemma {:induction false} FinishesFrom(c: Config, f: Schedule, n: nat) returns (m: nat)
    requires c.Valid() && 1 <= c.threads <= 64 && Fair(c, f)
    ensures After(c, f, m).main.Finished?
    decreases StepsLeft(c, After(c, f, n))
  {
    RunInv(c, Prefix(f, n));
    StepsLeftNonNegative(c, After(c, f, n));
    if After(c, f, n).main.Finished? {
      m := n;
    } else {
      var l := Progress(c, f, n);
      RunInv(c, Prefix(f, l));
      StepsLeftNonNegative(c, After(c, f, l));
      m := FinishesFrom(c, f, l);
    }
  }

  /** With 1 to 64 workers every fair schedule finishes, with the whole table and the result
      right. */
  lemma FairRunsFinish(c: Config, f: Schedule) returns (m: nat)
    requires c.Valid() && 1 <= c.threads <= 64 && Fair(c, f)
    ensures var s := After(c, f, m);
      && s.main.Finished?
      && (forall x, y :: c.InTable(x, y) ==> LcsWorkers.At(s.dp, x, y) == Cell(c.a, c.b, x, y) && s.claims[(x, y)] == 1)
      && LongestCommon(c.a, c.b, LcsWorkers.At(s.dp, |c.a| - 1, |c.b| - 1))
  {
    m := FinishesFrom(c, f, 0);
    FinishedIsRight(c, Prefix(f, m));
  }

  /** Everybody in turn. */
  function RoundRobin(c: Config): Schedule {
    n => if n % (c.Team() + 1) == 0 then MoveMain else Move(n % (c.Team() + 1) - 1)
  }

  lemma RoundRobinIsFair(c: Config)
    ensures Fair(c, RoundRobin(c))
  {
    forall n: nat, who: Choice | InTeam(c, who) ensures TurnAfter(RoundRobin(c), n, who) {
      var r, size := if who.MoveMain? then 0 else who.k + 1, c.Team() + 1;
      var m := n * size + r;
      MulMonotone(1, size, n);
      QuotientUnique(m, size, n, r);
      assert RoundRobin(c)(m) == who;
    }
  }

  // ---------------------------------------------------------------- no workers

  /** The main thread alone. */
  function Alone(n: nat): seq<Choice> { seq(n, _ => MoveMain) }

  lemma AloneStep(c: Config, n: nat)
    ensures Run(c, Alone(n + 1)) == MainStep(c, Run(c, Alone(n)))
  {
    assert Alone(n + 1)[..n] == Alone(n);
  }

  /** Nothing is stored, and round t is next. */
  ghost predicate EmptyRound(s: State, t: nat) { s.main == NextRound(t) && s.workers == [] && s.dp == map[] }

  lemma ThreeSteps(c: Config, s: State, t: nat)
    requires c.Valid() && c.threads <= 0 && t < c.Rounds() && EmptyRound(s, t)
    ensures EmptyRound(MainStep(c, MainStep(c, MainStep(c, s))), t + 1)
  {
    var s1 := MainStep(c, s);
    assert s1.main == Spawning(t, 0) && s1.workers == [];
    var s2 := MainStep(c, s1);
    assert s2.main == Joining(t, 0) && s2.workers == [];
    assert c.Team() == 0;
  }

  /** Without workers a round is three steps that store nothing. */
  lemma {:induction false} EmptyRounds(c: Config, t: nat)
    requires c.Valid() && c.threads <= 0 && t <= c.Rounds()
    ensures EmptyRound(Run(c, Alone(3 * t)), t)
  {
    if t > 0 {
      var n := 3 * t - 3;
      EmptyRounds(c, t - 1);
      AloneStep(c, n);
      AloneStep(c, n + 1);
      AloneStep(c, n + 2);
      ThreeSteps(c, Run(c, Alone(n)), t - 1);
    }
  }

  /** Without workers the program still finishes, with an empty table and so the result 0. */
  lemma EmptyTeamFinishes(c: Config, n: nat)
    requires c.Valid() && c.threads <= 0 && n == 3 * c.Rounds()
    ensures Run(c, Alone(n + 1)).main.Finished? && Run(c, Alone(n + 1)).dp == map[]
  {
    EmptyRounds(c, c.Rounds());
    AloneStep(c, n);
    FromLastRound(c, Run(c, Alone(n)), Run(c, Alone(n + 1)));
  }

  lemma FromLastRound(c: Config, s: State, s': State)
    requires c.Valid() && EmptyRound(s, c.Rounds()) && s' == MainStep(c, s)
    ensures s'.main.Finished? && s'.dp == map[]
  {
  }

  /** The strings "a" and "a" without workers: the result is 0, and 1 is right. */
  lemma EmptyTeamIsWrong()
    ensures var c := Config("a", "a", 0);
      var s := Run(c, Alone(4));
      s.main.Finished? && LcsWorkers.At(s.dp, 0, 0) == 0 && LongestCommon("a", "a", 1) && !LongestCommon("a", "a", 0)
  {
    var c := Config("a", "a", 0);
    EmptyTeamFinishes(c, 3);
    assert CommonSubsequence("a", "a", [0], [0]);
    LastCellIsLongest("a", "a");
    assert Cell("a", "a", 0, 0) == 1;
  }
}
