/** The `next` field of a task as a function of the lists, and how each list operation
    changes it. */
module KmtLinks {
  import opened Options
  import opened Lists
  import opened Kmt

  /** The node after t in a list without repetitions. */
  function After<T(==)>(q: seq<T>, t: T): Option<T> {
    if |q| < 2 then None else if q[0] == t then Some(q[1]) else After(q[1..], t)
  }

  /** What the `next` field of t holds: its successor in the list it is in, if any. */
  ghost function Next<T, S, C>(k: Kernel<T, S, C>, t: T): Option<T> {
    if t in k.ready then After(k.ready, t)
    else if k.Waiting(t) then
      var s :| s in k.sems && k.Waits(s, t);
      After(k.sems[s].waiting, t)
    else None
  }

  function First<T>(q: seq<T>): Option<T> { if q == [] then None else Some(q[0]) }

  function Final<T>(q: seq<T>): Option<T> { if q == [] then None else Some(q[|q| - 1]) }

  lemma {:induction false} AfterAt<T>(q: seq<T>, i: nat)
    requires Distinct(q) && i < |q|
    ensures After(q, q[i]) == if i + 1 < |q| then Some(q[i + 1]) else None
  {
    if i > 0 {
      assert Distinct(q[1..]) && q[1..][i - 1] == q[i];
      AfterAt(q[1..], i - 1);
    }
  }

  lemma {:induction false} AfterAbsent<T>(q: seq<T>, t: T)
    requires t !in q
    ensures After(q, t) == None
  {
    if |q| >= 2 { AfterAbsent(q[1..], t); }
  }

  lemma {:induction false} AfterAppend<T>(q: seq<T>, t: T, u: T)
    requires Distinct(q) && t !in q
    ensures After(q + [t], u) == if Final(q) == Some(u) then Some(t) else After(q, u)
  {
    if |q| >= 2 {
      assert (q + [t])[1..] == q[1..] + [t];
      AfterAppend(q[1..], t, u);
    }
  }

  lemma AfterTail<T>(q: seq<T>, u: T)
    requires Distinct(q) && q != []
    ensures After(q[1..], u) == if u == q[0] then None else After(q, u)
  {
    if u == q[0] { AfterAbsent(q[1..], u); }
  }

  lemma {:induction false} AfterWithout<T>(q: seq<T>, t: T, u: T)
    requires Distinct(q) && t in q
    ensures After(Without(q, t), u) ==
      if u == t then None else if After(q, u) == Some(t) then After(q, t) else After(q, u)
  {
    if q[0] == t {
      AfterTail(q, u);
      if u != t && u in q {
        var i :| 0 <= i < |q| && q[i] == u;
        AfterAt(q, i);
      } else if u != t {
        AfterAbsent(q, u);
      }
    } else {
      assert t in q[1..];
      AfterWithout(q[1..], t, u);
      WithoutKeeps(q[1..], t);
      if u == q[0] {
        AfterAbsent(q[1..], u);
        AfterAt(q, 1);
      }
    }
  }

  lemma NextWaits<T, S, C>(k: Kernel<T, S, C>, s: S, t: T)
    requires k.Shape() && s in k.sems && k.Waits(s, t)
    ensures Next(k, t) == After(k.sems[s].waiting, t)
  {
    assert k.Waiting(t);
  }

  /** A task in no list has no successor; one in a list has that list's. */
  lemma NextFree<T, S, C>(k: Kernel<T, S, C>, t: T)
    requires !k.Listed(t)
    ensures Next(k, t) == None
  {
  }

  lemma PushNext<T, S, C>(k: Kernel<T, S, C>, t: T, u: T)
    requires k.Shape() && t in k.status && k.status[t] != Sleeping && !k.Listed(t)
    ensures Next(Push(k, t), u) == if Final(k.ready) == Some(u) then Some(t) else Next(k, u)
  {
    var k' := Push(k, t);
    PushShape(k, t);
    SameWaiting(k, k');
    AfterAppend(k.ready, t, u);
    if u !in k'.ready && k.Waiting(u) {
      var s :| s in k.sems && k.Waits(s, u);
      NextWaits(k, s, u);
      NextWaits(k', s, u);
    }
    if u == t { AfterAbsent(k.ready, t); }
  }

  lemma DispatchNext<T, S, C>(k: Kernel<T, S, C>, u: T)
    requires k.Shape()
    ensures Next(Dispatch(k), u) == if First(k.ready) == Some(u) then None else Next(k, u)
  {
    var k' := Dispatch(k);
    DispatchShape(k);
    SameWaiting(k, k');
    if k.ready != [] {
      DispatchMoves(k, u);
      AfterTail(k.ready, u);
    }
    if u !in k.ready && k.Waiting(u) {
      var s :| s in k.sems && k.Waits(s, u);
      NextWaits(k, s, u);
      NextWaits(k', s, u);
    }
    if First(k.ready) == Some(u) {
      assert forall s :: s in k.sems ==> !k.Waits(s, u);
    }
  }

  lemma WakeNext<T, S, C>(k: Kernel<T, S, C>, s: S, t: T, u: T)
    requires k.Shape() && k.Waits(s, t)
    ensures Next(Wake(k, s, t), u) ==
      if u == t then None
      else if k.Waits(s, u) && Next(k, u) == Some(t) then Next(k, t)
      else Next(k, u)
  {
    var k' := Wake(k, s, t);
    WakeWaits(k, s, t);
    WakeShape(k, s, t);
    NextWaits(k, s, t);
    if u != t && u !in k.ready && k.Waiting(u) {
      var s' :| s' in k.sems && k.Waits(s', u);
      NextWaits(k, s', u);
      NextWaits(k', s', u);
      AfterWithout(k.sems[s].waiting, t, u);
    }
  }

  lemma WaitNext<T, S, C>(k: Kernel<T, S, C>, s: S, u: T)
    requires k.Shape() && s in k.sems && k.sems[s].count == 0 && k.current.Some?
    requires k.current.value in k.status && !k.Listed(k.current.value)
    ensures Next(Wait(k, s).value, u) == if Final(k.sems[s].waiting) == Some(u) then k.current else Next(k, u)
  {
    var k', t, w := Wait(k, s).value, k.current.value, k.sems[s].waiting;
    WaitShape(k, s);
    assert t !in w by { assert k.Waits(s, t) ==> k.Waiting(t); }
    AfterAppend(w, t, u);
    if u == t {
      AfterAbsent(w, t);
      assert k'.Waits(s, t);
      NextWaits(k', s, t);
    } else if u !in k.ready && k.Waiting(u) {
      var s' :| s' in k.sems && k.Waits(s', u);
      NextWaits(k, s', u);
      assert k'.Waits(s', u);
      NextWaits(k', s', u);
      assert u in w ==> k.Waits(s, u);
    } else if Final(w) == Some(u) {
      assert k.Waits(s, u);
    }
  }
}
