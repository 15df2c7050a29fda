/** pushcli and popcli: nested regions with interrupts off. */
module Interrupts {
  import opened Lists
  import opened Options

  /** The interrupt flag, irq_nest and irq_istatus of one CPU. */
  datatype Flags = Flags(ienabled: bool, nest: int, istatus: bool)

  function Pushed(f: Flags): Flags {
    Flags(false, f.nest + 1, if f.nest == 0 then f.ienabled else f.istatus)
  }

  /** None is a failed assertion. */
  function Popped(f: Flags): Option<Flags> {
    if f.ienabled || f.nest <= 0 then None
    else Some(Flags(f.nest == 1 && f.istatus, f.nest - 1, f.istatus))
  }

  class Cpu {
    var ienabled: bool
    var nest: int
    var istatus: bool

    /** A CPU outside any region. */
    constructor (ienabled: bool)
      ensures nest == 0 && this.ienabled == ienabled
    {
      this.ienabled, nest, istatus := ienabled, 0, false;
    }

    function State(): Flags
      reads this
    {
      Flags(ienabled, nest, istatus)
    }

    method PushCli()
      modifies this
      ensures State() == Pushed(old(State()))
      ensures !ienabled && nest == old(nest) + 1 && istatus == if old(nest) == 0 then old(ienabled) else old(istatus)
    {
      var was := ienabled;
      ienabled := false;
      if nest == 0 {
        istatus := was;
      }
      nest := nest + 1;
    }

    method PopCli() returns (ok: bool)
      modifies this
      ensures ok <==> Popped(old(State())).Some?
      ensures ok ==> Some(State()) == Popped(old(State()))
      ensures ok <==> !old(ienabled) && old(nest) > 0
      ensures ok ==> nest == old(nest) - 1 && istatus == old(istatus) && ienabled == (nest == 0 && istatus)
    {
      if ienabled {
        return false;
      }
      ok := nest > 0;
      nest := nest - 1;
      if ok && nest == 0 && istatus {
        ienabled := true;
      }
    }

    /** Any sequence of calls on a machine that starts outside any region: no assertion fails
        exactly when no pop lacks its push; interrupts are off while a push is open, and when all
        are closed the flag is what it was. */
    method Execute(ops: seq<Op>) returns (ok: bool)
      requires nest == 0
      modifies this
      ensures ok <==> WellNested(ops)
      ensures ok ==> nest == Depth(ops)
      ensures ok ==> if nest == 0 then ienabled == old(ienabled) else !ienabled && istatus == old(ienabled)
    {
      ghost var start := State();
      Nesting(start, ops);
      for i := 0 to |ops|
        invariant Run(start, ops[..i]) == Some(State())
      {
        assert ops[..i + 1][..i] == ops[..i];
        if ops[i].Push? {
          PushCli();
        } else {
          ok := PopCli();
          if !ok {
            FailsForGood(start, ops, i + 1);
            return;
          }
        }
      }
      assert ops[..|ops|] == ops;
      ok := true;
    }
  }

  datatype Op = Push | Pop

  /** How many pushes are still open. */
  function Depth(ops: seq<Op>): int {
    Count(ops, (o: Op) => o.Push?) - Count(ops, (o: Op) => o.Pop?)
  }

  function Run(f: Flags, ops: seq<Op>): Option<Flags> {
    if ops == [] then Some(f)
    else
      var before := Run(f, ops[..|ops| - 1]);
      if before.None? then None
      else if ops[|ops| - 1].Push? then Some(Pushed(before.value))
      else Popped(before.value)
  }

  ghost predicate WellNested(ops: seq<Op>) { forall n :: 0 <= n <= |ops| ==> Depth(ops[..n]) >= 0 }

  /** From outside any region, a sequence of pushes and pops fails no assertion exactly when no
      pop lacks its push; then interrupts are off while a push is open, and when all are closed
      the flag is what it was. */
  lemma {:induction false} Nesting(f: Flags, ops: seq<Op>)
    requires f.nest == 0
    ensures Run(f, ops).Some? <==> WellNested(ops)
    ensures Run(f, ops).Some? ==>
      var f' := Run(f, ops).value;
      && f'.nest == Depth(ops)
      && if f'.nest == 0 then f'.ienabled == f.ienabled else !f'.ienabled && f'.istatus == f.ienabled
    decreases |ops|
  {
    if ops != [] {
      var init := ops[..|ops| - 1];
      Nesting(f, init);
      assert forall n :: 0 <= n <= |init| ==> init[..n] == ops[..n];
      assert ops[..|ops|] == ops;
      assert WellNested(ops) <==> WellNested(init) && Depth(ops) >= 0;
    } else {
      assert forall n :: 0 <= n <= |ops| ==> ops[..n] == [];
    }
  }

  /** After a failed assertion nothing runs. */
  lemma {:induction false} FailsForGood(f: Flags, ops: seq<Op>, n: nat)
    requires n <= |ops| && Run(f, ops[..n]).None?
    ensures Run(f, ops).None?
    decreases |ops|
  {
    if n < |ops| {
      var init := ops[..|ops| - 1];
      assert init[..n] == ops[..n];
      FailsForGood(f, init, n);
    } else {
      assert ops[..n] == ops;
    }
  }
}
