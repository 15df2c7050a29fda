/** The handler list of the kernel and the dispatch of a trap through it. */
module Traps {
  import opened Options
  import opened Lists
  import opened Kmt
  import opened KmtRuns

  const INT_MIN := -0x8000_0000
  const INT_MAX := 0x7fff_ffff

  /** What a handler does: save the context, schedule, or signal semaphores and return NULL. */
  datatype Handler<S> = ContextSave | Scheduling | Notify(signals: seq<S>)

  /** The registration of a handler for one event, or for all if the event is NoEvent. */
  datatype Entry<S> = Entry(order: int, event: Event, handler: Handler<S>)

  // ---------------------------------------------------------------- registration

  /** The list with e behind every entry it does not precede. */
  function Insert<S>(q: seq<Entry<S>>, e: Entry<S>): seq<Entry<S>> {
    if q == [] || q[0].order > e.order then [e] + q else [q[0]] + Insert(q[1..], e)
  }

  ghost predicate Sorted<S>(q: seq<Entry<S>>) {
    forall i, j :: 0 <= i < j < |q| ==> q[i].order <= q[j].order
  }

  /** The entries with one sequence number, in list order. */
  function WithOrder<S>(q: seq<Entry<S>>, n: int): seq<Entry<S>> {
    if q == [] then [] else (if q[0].order == n then [q[0]] else []) + WithOrder(q[1..], n)
  }

  /** The list after a run of registrations. */
  function Registered<S>(regs: seq<Entry<S>>): seq<Entry<S>> {
    if regs == [] then [] else Insert(Registered(regs[..|regs| - 1]), regs[|regs| - 1])
  }

  lemma {:induction false} InsertMembers<S>(q: seq<Entry<S>>, e: Entry<S>)
    ensures forall x :: x in Insert(q, e) ==> x == e || x in q
  {
    if q != [] && q[0].order <= e.order { InsertMembers(q[1..], e); }
  }

  lemma {:induction false} InsertSorted<S>(q: seq<Entry<S>>, e: Entry<S>)
    requires Sorted(q)
    ensures Sorted(Insert(q, e))
  {
    if q != [] && q[0].order <= e.order {
      InsertSorted(q[1..], e);
      InsertMembers(q[1..], e);
      assert forall x :: x in Insert(q[1..], e) ==> q[0].order <= x.order;
    }
  }

  lemma {:induction false} InsertKeeps<S>(q: seq<Entry<S>>, e: Entry<S>)
    ensures multiset(Insert(q, e)) == multiset(q) + multiset{e}
  {
    if q != [] && q[0].order <= e.order {
      InsertKeeps(q[1..], e);
      assert q == [q[0]] + q[1..];
    }
  }

  lemma {:induction false} InsertStable<S>(q: seq<Entry<S>>, e: Entry<S>, n: int)
    requires Sorted(q)
    ensures WithOrder(Insert(q, e), n) == WithOrder(q, n) + if e.order == n then [e] else []
  {
    if q != [] && q[0].order <= e.order {
      InsertStable(q[1..], e, n);
      WithOrderCons(q[0], q[1..], n);
      WithOrderCons(q[0], Insert(q[1..], e), n);
      assert q == [q[0]] + q[1..];
    } else {
      WithOrderCons(e, q, n);
      if e.order == n { NoneBelow(q, n); }
    }
  }

  lemma WithOrderCons<S>(e: Entry<S>, q: seq<Entry<S>>, n: int)
    ensures WithOrder([e] + q, n) == (if e.order == n then [e] else []) + WithOrder(q, n)
  {
    assert ([e] + q)[1..] == q;
  }

  lemma {:induction false} NoneBelow<S>(q: seq<Entry<S>>, n: int)
    requires forall x :: x in q ==> x.order > n
    ensures WithOrder(q, n) == []
  {
    if q != [] { NoneBelow(q[1..], n); }
  }

  lemma {:induction false} WithOrderAppend<S>(q: seq<Entry<S>>, e: Entry<S>, n: int)
    ensures WithOrder(q + [e], n) == WithOrder(q, n) + if e.order == n then [e] else []
  {
    if q != [] {
      assert (q + [e])[1..] == q[1..] + [e];
      WithOrderAppend(q[1..], e, n);
    }
  }

  lemma {:induction false} RegisteredSorted<S>(regs: seq<Entry<S>>)
    ensures Sorted(Registered(regs))
    decreases |regs|
  {
    if regs != [] {
      RegisteredSorted(regs[..|regs| - 1]);
      InsertSorted(Registered(regs[..|regs| - 1]), regs[|regs| - 1]);
    }
  }

  lemma {:induction false} RegisteredAll<S>(regs: seq<Entry<S>>)
    ensures multiset(Registered(regs)) == multiset(regs)
    decreases |regs|
  {
    if regs != [] {
      RegisteredAll(regs[..|regs| - 1]);
      InsertKeeps(Registered(regs[..|regs| - 1]), regs[|regs| - 1]);
      assert regs == regs[..|regs| - 1] + [regs[|regs| - 1]];
    }
  }

  lemma {:induction false} RegisteredInOrder<S>(regs: seq<Entry<S>>, n: int)
    ensures WithOrder(Registered(regs), n) == WithOrder(regs, n)
    decreases |regs|
  {
    if regs != [] {
      var init, e := regs[..|regs| - 1], regs[|regs| - 1];
      RegisteredInOrder(init, n);
      RegisteredSorted(init);
      InsertStable(Registered(init), e, n);
      WithOrderAppend(init, e, n);
      assert regs == init + [e];
    }
  }

  /** The handler list is the stable sort of the registrations by sequence number. */
  lemma StablySorted<S>(regs: seq<Entry<S>>)
    ensures Sorted(Registered(regs)) && multiset(Registered(regs)) == multiset(regs)
    ensures forall n :: WithOrder(Registered(regs), n) == WithOrder(regs, n)
  {
    RegisteredSorted(regs);
    RegisteredAll(regs);
    forall n ensures WithOrder(Registered(regs), n) == WithOrder(regs, n) {
      RegisteredInOrder(regs, n);
    }
  }

  class Node<S> {
    const entry: Entry<S>
    var next: Node?<S>

    constructor (entry: Entry<S>, next: Node?<S>)
      ensures this.entry == entry && this.next == next
    {
      this.entry := entry;
      this.next := next;
    }
  }

  /** handler_head: its own entry is not a handler. */
  class HandlerList<S> {
    const head: Node<S>
    ghost var nodes: seq<Node<S>>

    ghost predicate Valid()
      reads this, nodes
    {
      && |nodes| > 0 && nodes[0] == head
      && Distinct(nodes)
      && forall i :: 0 <= i < |nodes| ==> LinkOk(i)
    }

    ghost predicate LinkOk(i: nat)
      requires i < |nodes|
      reads this, nodes
    {
      nodes[i].next == if i + 1 < |nodes| then nodes[i + 1] else null
    }

    /** The registered handlers in list order. */
    ghost function Contents(): (q: seq<Entry<S>>)
      reads this, nodes
      requires Valid()
      ensures |q| == |nodes| - 1
    {
      Entries(nodes[1..])
    }

    constructor ()
      ensures Valid() && Contents() == [] && fresh(nodes)
    {
      var sentinel := new Node<S>(Entry(0, NoEvent, Notify([])), null);
      head := sentinel;
      nodes := [sentinel];
    }

    /** os_on_irq. */
    method OnIrq(order: int, event: Event, handler: Handler<S>)
      requires Valid()
      modifies this, nodes
      ensures Valid() && fresh(set n | n in nodes && n !in old(nodes))
      ensures Contents() == Insert(old(Contents()), Entry(order, event, handler))
    {
      var last, next, i := FindPlace(order);
      InsertAt(Contents(), Entry(order, event, handler), i);
      var newOne := new Node(Entry(order, event, handler), next);
      last.next := newOne;
      nodes := nodes[..i + 1] + [newOne] + nodes[i + 1..];
      Inserted(i, newOne);
    }

    /** The node behind which an entry goes, the one before which it goes, and how many precede. */
    method FindPlace(order: int) returns (last: Node<S>, next: Node?<S>, ghost i: nat)
      requires Valid()
      ensures i <= |Contents()| && last == nodes[i] && next == last.next
      ensures forall j :: 0 <= j < i ==> Contents()[j].order <= order
      ensures i < |Contents()| ==> Contents()[i].order > order
    {
      assert LinkOk(0);
      last, next, i := head, head.next, 0;
      while next != null && next.entry.order <= order
        invariant i < |nodes| && last == nodes[i] && next == last.next
        invariant next == if i + 1 < |nodes| then nodes[i + 1] else null
        invariant forall j :: 0 <= j < i ==> Contents()[j].order <= order
        decreases |nodes| - i
      {
        assert LinkOk(i + 1);
        last := next;
        next := next.next;
        i := i + 1;
      }
    }

    /** The list with a node linked in behind node i. */
    twostate lemma Inserted(i: nat, new newOne: Node<S>)
      requires old(Valid()) && i < |old(nodes)| && fresh(newOne)
      requires nodes == old(nodes)[..i + 1] + [newOne] + old(nodes)[i + 1..]
      requires old(nodes)[i].next == newOne && newOne.next == old(nodes[i].next)
      requires forall j :: 0 <= j < |old(nodes)| && j != i ==> old(nodes)[j].next == old(nodes[j].next)
      ensures Valid() && Contents() == old(Contents())[..i] + [newOne.entry] + old(Contents())[i..]
    {
      ghost var was := old(nodes);
      InsertDistinct(was, i + 1, newOne);
      forall j | 0 <= j < |nodes| ensures LinkOk(j) {
        SpliceAt(was, i + 1, newOne, j);
        if j + 1 < |nodes| { SpliceAt(was, i + 1, newOne, j + 1); }
        if j <= i {
          assert old(LinkOk(j)) && nodes[j] == was[j];
        } else if j > i + 1 {
          assert old(LinkOk(j - 1)) && nodes[j] == was[j - 1] && nodes[j].next == old(was[j - 1].next);
        } else {
          assert old(LinkOk(i)) && nodes[j] == newOne;
        }
      }
      SpliceAt(was, i + 1, newOne, 0);
      SpliceEntries(was, i + 1, newOne);
    }
  }

  ghost function Entries<S>(nodes: seq<Node<S>>): seq<Entry<S>> {
    seq(|nodes|, i requires 0 <= i < |nodes| => nodes[i].entry)
  }

  lemma SpliceAt<A>(q: seq<A>, i: nat, x: A, j: nat)
    requires i <= |q| && j <= |q|
    ensures (q[..i] + [x] + q[i..])[j] == if j < i then q[j] else if j == i then x else q[j - 1]
  {
  }

  lemma InsertDistinct<A>(q: seq<A>, i: nat, x: A)
    requires Distinct(q) && x !in q && i <= |q|
    ensures Distinct(q[..i] + [x] + q[i..])
  {
    var r := q[..i] + [x] + q[i..];
    forall a, b | 0 <= a < b < |r| ensures r[a] != r[b] {
      SpliceAt(q, i, x, a);
      SpliceAt(q, i, x, b);
    }
  }

  /** Insertion stops at the first entry that e precedes. */
  lemma {:induction false} InsertAt<S>(q: seq<Entry<S>>, e: Entry<S>, i: nat)
    requires i <= |q| && (forall j :: 0 <= j < i ==> q[j].order <= e.order)
    requires i < |q| ==> q[i].order > e.order
    ensures Insert(q, e) == q[..i] + [e] + q[i..]
  {
    if i > 0 {
      InsertAt(q[1..], e, i - 1);
      assert q[1..][..i - 1] == q[1..i] && q[1..][i - 1..] == q[i..];
    }
  }

  lemma SpliceEntries<S>(q: seq<Node<S>>, i: nat, x: Node<S>)
    requires 0 < i <= |q|
    ensures Entries((q[..i] + [x] + q[i..])[1..]) == Entries(q[1..])[..i - 1] + [x.entry] + Entries(q[1..])[i - 1..]
  {
    var r := q[..i] + [x] + q[i..];
    forall j | 0 <= j < |q|
      ensures Entries(r[1..])[j] == (Entries(q[1..])[..i - 1] + [x.entry] + Entries(q[1..])[i - 1..])[j]
    {
      SpliceAt(q, i, x, j + 1);
      SpliceAt(Entries(q[1..]), i - 1, x.entry, j);
    }
  }

  // ---------------------------------------------------------------- dispatch

  /** The end of a trap: the machine goes on in context c, or stops. */
  datatype Outcome<T(==), S(==), C> = Resumes(y: Sys<T, S, C>, c: C) | Panic

  predicate Matches<S>(e: Entry<S>, ev: Event) { e.event == NoEvent || e.event == ev }

  /** What calling a handler does and returns; None if it fails. */
  function Call<T, S, C>(h: Handler<S>, ev: Event, c: C, y: Sys<T, S, C>): Option<(Sys<T, S, C>, Option<C>)> {
    match h
    case ContextSave =>
      var r := Next(y, Trap(ev, c));
      if r.None? then None else Some((r.value, None))
    case Notify(signals) =>
      var r := Run(y, Posts(signals));
      if r.None? then None else Some((r.value, None))
    case Scheduling =>
      var r := Next(y, Resume);
      if r.None? || r.value.k.current.None? || r.value.k.current.value !in r.value.k.context then None
      else Some((r.value, Some(r.value.k.context[r.value.k.current.value])))
  }

  function Posts<T, S, C>(signals: seq<S>): seq<Step<T, S, C>> {
    seq(|signals|, i requires 0 <= i < |signals| => Post(signals[i]))
  }

  /** os_trap from some point of the list on, with the context returned so far. */
  function Dispatch<T, S, C>(q: seq<Entry<S>>, ev: Event, c: C, y: Sys<T, S, C>, found: Option<C>): Outcome<T, S, C> {
    if q == [] then
      if found.None? then Panic else Resumes(y, found.value)
    else if !Matches(q[0], ev) then Dispatch(q[1..], ev, c, y, found)
    else
      var r := Call(q[0].handler, ev, c, y);
      if r.None? then Panic
      else if r.value.1.Some? && found.Some? then Panic
      else Dispatch(q[1..], ev, c, r.value.0, if r.value.1.Some? then r.value.1 else found)
  }

  /** os_trap. */
  method OsTrap<T, S, C>(handlers: HandlerList<S>, ev: Event, c: C, y: Sys<T, S, C>) returns (r: Outcome<T, S, C>)
    requires handlers.Valid()
    ensures r == Dispatch(handlers.Contents(), ev, c, y, None)
  {
    ghost var q := handlers.Contents();
    assert handlers.LinkOk(0);
    var table := handlers.head.next;
    var state, nextContext := y, None;
    ghost var i := 0;
    while table != null
      invariant 0 <= i <= |q| && table == if i < |q| then handlers.nodes[i + 1] else null
      invariant Dispatch(q[i..], ev, c, state, nextContext) == Dispatch(q, ev, c, y, None)
      decreases |q| - i
    {
      assert q[i..][0] == table.entry && q[i..][1..] == q[i + 1..];
      if Matches(table.entry, ev) {
        var called := Call(table.entry.handler, ev, c, state);
        if called.None? {
          return Panic;
        }
        if called.value.1.Some? && nextContext.Some? {
          return Panic;
        }
        state := called.value.0;
        if called.value.1.Some? {
          nextContext := called.value.1;
        }
      }
      assert handlers.LinkOk(i + 1);
      table := table.next;
      i := i + 1;
    }
    r := if nextContext.None? then Panic else Resumes(state, nextContext.value);
  }

  /** A run of registrations on the empty list. */
  method RegisterAll<S>(regs: seq<Entry<S>>) returns (handlers: HandlerList<S>)
    ensures handlers.Valid() && handlers.Contents() == Registered(regs) && fresh(handlers) && fresh(handlers.nodes)
  {
    handlers := new HandlerList<S>();
    for i := 0 to |regs|
      invariant handlers.Valid() && handlers.Contents() == Registered(regs[..i])
      invariant fresh(handlers) && fresh(handlers.nodes)
    {
      assert regs[..i + 1][..i] == regs[..i];
      handlers.OnIrq(regs[i].order, regs[i].event, regs[i].handler);
    }
    assert regs[..|regs|] == regs;
  }

  /** os_trap goes on only if exactly one of the handlers called returns a context: otherwise it
      panics, because of none or of several. */
  lemma {:induction false} OneContext<T, S, C>(q: seq<Entry<S>>, ev: Event, c: C, y: Sys<T, S, C>)
    returns (i: nat)
    requires Dispatch(q, ev, c, y, None).Resumes?
    ensures i < |q| && q[i].handler == Scheduling && (q[i].event == NoEvent || q[i].event == ev)
    ensures forall j :: 0 <= j < |q| && j != i && (q[j].event == NoEvent || q[j].event == ev) ==>
      q[j].handler != Scheduling
  {
    if !Matches(q[0], ev) {
      i := OneContext(q[1..], ev, c, y);
      i := i + 1;
      assert forall j :: 0 < j < |q| ==> q[j] == q[1..][j - 1];
    } else {
      var called := Call(q[0].handler, ev, c, y).value;
      if called.1.None? {
        i := OneContext(q[1..], ev, c, called.0);
        i := i + 1;
        assert forall j :: 0 < j < |q| ==> q[j] == q[1..][j - 1];
      } else {
        i := 0;
        NoOther(q[1..], ev, c, called.0, called.1);
        assert forall j :: 0 < j < |q| ==> q[j] == q[1..][j - 1];
      }
    }
  }

  lemma {:induction false} NoOther<T, S, C>(q: seq<Entry<S>>, ev: Event, c: C, y: Sys<T, S, C>, found: Option<C>)
    requires found.Some? && Dispatch(q, ev, c, y, found).Resumes?
    ensures forall j :: 0 <= j < |q| && (q[j].event == NoEvent || q[j].event == ev) ==> q[j].handler != Scheduling
  {
    if q != [] {
      var y1 := if Matches(q[0], ev) then Call(q[0].handler, ev, c, y).value.0 else y;
      NoOther(q[1..], ev, c, y1, found);
      assert forall j :: 0 < j < |q| ==> q[j] == q[1..][j - 1];
    }
  }

  /** The state after all handlers of a trap were called; None if a call fails. */
  function Called<T, S, C>(q: seq<Entry<S>>, ev: Event, c: C, y: Sys<T, S, C>): Option<Sys<T, S, C>> {
    if q == [] then Some(y)
    else if q[0].event != NoEvent && q[0].event != ev then Called(q[1..], ev, c, y)
    else
      var r := Call(q[0].handler, ev, c, y);
      if r.None? then None else Called(q[1..], ev, c, r.value.0)
  }

  /** Conversely it goes on if exactly one does so, and every call succeeds. */
  lemma {:induction false} OneContextSuffices<T, S, C>(q: seq<Entry<S>>, ev: Event, c: C, y: Sys<T, S, C>, i: nat)
    requires Called(q, ev, c, y).Some? && i < |q|
    requires q[i].handler == Scheduling && (q[i].event == NoEvent || q[i].event == ev)
    requires forall j :: 0 <= j < |q| && j != i && (q[j].event == NoEvent || q[j].event == ev) ==>
      q[j].handler != Scheduling
    ensures var r := Dispatch(q, ev, c, y, None);
      r.Resumes? && Called(q, ev, c, y) == Some(r.y)
  {
    assert forall j :: 0 < j < |q| ==> q[j] == q[1..][j - 1];
    var matches := q[0].event == NoEvent || q[0].event == ev;
    var y1 := if matches then Call(q[0].handler, ev, c, y).value.0 else y;
    if i == 0 {
      NoneBeyond(q[1..], ev, c, y1, Call(q[0].handler, ev, c, y).value.1);
    } else {
      OneContextSuffices(q[1..], ev, c, y1, i - 1);
    }
  }

  lemma {:induction false} NoneBeyond<T, S, C>(q: seq<Entry<S>>, ev: Event, c: C, y: Sys<T, S, C>, found: Option<C>)
    requires Called(q, ev, c, y).Some? && found.Some?
    requires forall j :: 0 <= j < |q| && (q[j].event == NoEvent || q[j].event == ev) ==> q[j].handler != Scheduling
    ensures Dispatch(q, ev, c, y, found) == Resumes(Called(q, ev, c, y).value, found.value)
  {
    if q != [] {
      assert forall j :: 0 < j < |q| ==> q[j] == q[1..][j - 1];
      var matches := q[0].event == NoEvent || q[0].event == ev;
      NoneBeyond(q[1..], ev, c, if matches then Call(q[0].handler, ev, c, y).value.0 else y, found);
    }
  }

  // ---------------------------------------------------------------- one trap

  function Saver<S>(): Entry<S> { Entry(INT_MIN, NoEvent, ContextSave) }

  function Scheduler<S>(): Entry<S> { Entry(INT_MAX, NoEvent, Scheduling) }

  /** A handler of a device: it returns NULL and is registered strictly between the two of kmt. */
  predicate Middle<S>(e: Entry<S>) { e.handler.Notify? && INT_MIN < e.order < INT_MAX }

  /** kmt_init registers its two handlers before any device does. */
  ghost predicate Setup<S>(regs: seq<Entry<S>>) {
    |regs| >= 2 && regs[0] == Saver() && regs[1] == Scheduler() && forall i :: 2 <= i < |regs| ==> Middle(regs[i])
  }

  /** Saving comes first and scheduling last, whatever the devices register. */
  lemma {:induction false} SaveFirstScheduleLast<S>(regs: seq<Entry<S>>)
    requires Setup(regs)
    ensures Registered(regs) == [Saver()] + Registered(regs[2..]) + [Scheduler()]
    ensures forall e :: e in Registered(regs[2..]) ==> Middle(e)
    decreases |regs|
  {
    var init := regs[..|regs| - 1];
    if |regs| == 2 {
      assert regs[2..] == [] && init == [regs[0]] && init[..0] == [];
      assert Registered(init) == [Saver()];
      assert [Saver<S>()][1..] == [];
    } else {
      var e := regs[|regs| - 1];
      SaveFirstScheduleLast(init);
      assert regs[2..][..|regs| - 3] == init[2..] && regs[2..][|regs| - 3] == e;
      InsertMiddle(Registered(init[2..]), e);
      InsertMembers(Registered(init[2..]), e);
    }
  }

  lemma InsertMiddle<S>(q: seq<Entry<S>>, e: Entry<S>)
    requires Middle(e)
    ensures Insert([Saver()] + q + [Scheduler()], e) == [Saver()] + Insert(q, e) + [Scheduler()]
  {
    assert ([Saver()] + q + [Scheduler()])[1..] == q + [Scheduler()];
    InsertBeforeLast(q, e);
  }

  lemma {:induction false} InsertBeforeLast<S>(q: seq<Entry<S>>, e: Entry<S>)
    requires Middle(e)
    ensures Insert(q + [Scheduler()], e) == Insert(q, e) + [Scheduler()]
  {
    if q != [] && q[0].order <= e.order {
      assert (q + [Scheduler()])[1..] == q[1..] + [Scheduler()];
      InsertBeforeLast(q[1..], e);
    }
  }

  /** The semaphores that the handlers in q signal for an event, in order. */
  function Signals<S>(q: seq<Entry<S>>, ev: Event): seq<S> {
    if q == [] then []
    else (if Matches(q[0], ev) && q[0].handler.Notify? then q[0].handler.signals else []) + Signals(q[1..], ev)
  }

  lemma {:induction false} RunJoined<T, S, C>(y: Sys<T, S, C>, a: seq<Step<T, S, C>>, b: seq<Step<T, S, C>>,
                                              ab: seq<Step<T, S, C>>, ya: Sys<T, S, C>)
    requires Run(y, a) == Some(ya) && ab == a + b
    ensures Run(y, ab) == Run(ya, b)
    decreases |b|
  {
    if b == [] {
      assert ab == a;
    } else {
      LastOfJoined(a, b, ab);
      RunJoined(y, a, Init(b), Init(ab), ya);
    }
  }

  lemma LastOfJoined<A>(a: seq<A>, b: seq<A>, ab: seq<A>)
    requires b != [] && ab == a + b
    ensures ab != [] && Last(ab) == Last(b) && Init(ab) == a + Init(b)
  {
  }

  lemma RunAppend<T, S, C>(y: Sys<T, S, C>, a: seq<Step<T, S, C>>, b: seq<Step<T, S, C>>)
    requires Run(y, a).Some?
    ensures Run(y, a + b) == Run(Run(y, a).value, b)
  {
    RunJoined(y, a, b, a + b, Run(y, a).value);
  }

  /** y' is y after some signals from handlers. */
  ghost predicate Signalled<T, S, C>(y: Sys<T, S, C>, y': Sys<T, S, C>) {
    && Inv(y') && y'.trap == y.trap && y'.k.current == y.k.current && y'.k.sems.Keys == y.k.sems.Keys
    && y'.k.context == y.k.context && y'.k.idle == y.k.idle && y.k.ready <= y'.k.ready
  }

  /** Signals from handlers always succeed and leave the trap and the current task alone. */
  lemma {:induction false} PostsRun<T, S, C>(y: Sys<T, S, C>, signals: seq<S>)
    requires Inv(y) && y.trap.Some? && forall s :: s in signals ==> s in y.k.sems
    ensures Run(y, Posts(signals)).Some? && Signalled(y, Run(y, Posts(signals)).value)
    decreases |signals|
  {
    if signals != [] {
      var init := signals[..|signals| - 1];
      PostsRun(y, init);
      LastPost<T, S, C>(signals);
      PostKeeps(Run(y, Posts(init)).value, signals[|signals| - 1]);
    }
  }

  lemma LastPost<T, S, C>(signals: seq<S>)
    requires signals != []
    ensures var steps: seq<Step<T, S, C>> := Posts(signals);
      steps != [] && Init(steps) == Posts(signals[..|signals| - 1]) && Last(steps) == Post(signals[|signals| - 1])
  {
  }

  lemma PostKeeps<T, S, C>(y: Sys<T, S, C>, s: S)
    requires Inv(y) && y.trap.Some? && s in y.k.sems
    ensures Next(y, Post(s)).Some? && Signalled(y, Next(y, Post(s)).value)
  {
    StepKeepsInv(y, Post(s));
    SignalEffect(y.k, s);
    PostReady(y, s);
  }

  lemma PostReady<T, S, C>(y: Sys<T, S, C>, s: S)
    requires s in y.k.sems && s in y.book
    ensures y.k.ready <= Posted(y, s).k.ready && Posted(y, s).k.idle == y.k.idle
  {
  }

  /** The handlers between saving and scheduling amount to their signals. */
  lemma {:induction false} MiddleRun<T, S, C>(q: seq<Entry<S>>, rest: seq<Entry<S>>, ev: Event, c: C, y: Sys<T, S, C>)
    requires Inv(y) && y.trap.Some? && forall s :: s in Signals(q, ev) ==> s in y.k.sems
    requires forall e :: e in q ==> Middle(e)
    ensures Run(y, Posts(Signals(q, ev))).Some?
    ensures Dispatch(q + rest, ev, c, y, None) == Dispatch(rest, ev, c, Run(y, Posts(Signals(q, ev))).value, None)
  {
    if q == [] {
      assert q + rest == rest;
    } else {
      assert (q + rest)[1..] == q[1..] + rest && q[0] in q;
      if Matches(q[0], ev) {
        var y1 := OneHandler(q[0].handler.signals, y);
        DispatchOne(q + rest, ev, c, y, y1);
        MiddleRun(q[1..], rest, ev, c, y1);
        RunPosts(y, q[0].handler.signals, Signals(q[1..], ev));
      } else {
        MiddleRun(q[1..], rest, ev, c, y);
        assert Signals(q, ev) == Signals(q[1..], ev);
      }
    }
  }

  lemma DispatchOne<T, S, C>(q: seq<Entry<S>>, ev: Event, c: C, y: Sys<T, S, C>, y1: Sys<T, S, C>)
    requires q != [] && Matches(q[0], ev) && q[0].handler.Notify? && Run(y, Posts(q[0].handler.signals)) == Some(y1)
    ensures Dispatch(q, ev, c, y, None) == Dispatch(q[1..], ev, c, y1, None)
  {
  }

  lemma OneHandler<T, S, C>(signals: seq<S>, y: Sys<T, S, C>) returns (y1: Sys<T, S, C>)
    requires Inv(y) && y.trap.Some? && forall s :: s in signals ==> s in y.k.sems
    ensures Run(y, Posts(signals)) == Some(y1)
    ensures Inv(y1) && y1.trap == y.trap && y1.k.sems.Keys == y.k.sems.Keys
  {
    PostsRun(y, signals);
    y1 := Run(y, Posts(signals)).value;
  }

  lemma RunPosts<T, S, C>(y: Sys<T, S, C>, a: seq<S>, b: seq<S>)
    requires Run(y, Posts(a)).Some?
    ensures Run(y, Posts(a + b)) == Run(Run(y, Posts(a)).value, Posts(b))
  {
    RunAppend(y, Posts(a), Posts(b));
    PostsAppend<T, S, C>(a, b);
  }

  lemma PostsAppend<T, S, C>(a: seq<S>, b: seq<S>)
    ensures Posts<T, S, C>(a + b) == Posts<T, S, C>(a) + Posts<T, S, C>(b)
  {
  }

  lemma {:induction false} SignalsJoin<S>(a: seq<Entry<S>>, b: seq<Entry<S>>, ev: Event)
    ensures Signals(a + b, ev) == Signals(a, ev) + Signals(b, ev)
  {
    if a == [] {
      assert a + b == b;
    } else {
      assert (a + b)[1..] == a[1..] + b;
      SignalsJoin(a[1..], b, ev);
    }
  }

  /** Entry i contributes its signals if it is registered for the event or for all. */
  lemma PartAt<S>(q: seq<Entry<S>>, ev: Event, i: nat, part: seq<S>)
    requires i < |q|
    requires part == if q[i].handler.Notify? && (q[i].event == NoEvent || q[i].event == ev) then q[i].handler.signals
                     else []
    ensures var a, b := |Signals(q[..i], ev)|, |Signals(q[..i + 1], ev)|;
      a <= b <= |Signals(q, ev)| && Signals(q, ev)[a..b] == part
  {
    SignalsJoin(q[..i], [q[i]], ev);
    SignalsJoin(q[..i + 1], q[i + 1..], ev);
    assert q[..i] + [q[i]] == q[..i + 1] && q[..i + 1] + q[i + 1..] == q;
    assert Signals([q[i]], ev) == part by { assert [q[i]][1..] == []; }
  }

  /** Part i of the signals, from ends[i] to ends[i + 1], is what the handler at i signals when it is
      registered for the event or for all, and otherwise empty. */
  ghost predicate Part<S>(q: seq<Entry<S>>, ev: Event, signals: seq<S>, ends: seq<nat>, i: nat)
    requires i < |q| && |ends| == |q| + 1
  {
    && ends[i] <= ends[i + 1] <= |signals|
    && signals[ends[i]..ends[i + 1]] ==
       if q[i].handler.Notify? && (q[i].event == NoEvent || q[i].event == ev) then q[i].handler.signals else []
  }

  /** The signals are the parts of all handlers in the order of the list. */
  ghost predicate InParts<S>(q: seq<Entry<S>>, ev: Event, signals: seq<S>, ends: seq<nat>) {
    && |ends| == |q| + 1 && ends[0] == 0 && ends[|q|] == |signals|
    && forall i :: 0 <= i < |q| ==> Part(q, ev, signals, ends, i)
  }

  lemma SignalParts<S>(q: seq<Entry<S>>, ev: Event) returns (ends: seq<nat>)
    ensures InParts(q, ev, Signals(q, ev), ends)
  {
    ends := seq(|q| + 1, i requires 0 <= i <= |q| => |Signals(q[..i], ev)|);
    assert q[..|q|] == q;
    forall i | 0 <= i < |q| ensures Part(q, ev, Signals(q, ev), ends, i) {
      PartAt(q, ev, i, if q[i].handler.Notify? && (q[i].event == NoEvent || q[i].event == ev)
                       then q[i].handler.signals else []);
    }
  }

  /** A semaphore is signalled in a trap exactly if a handler registered for its event or for all does
      so. */
  lemma {:induction false} SignalledBy<S>(q: seq<Entry<S>>, ev: Event, s: S)
    ensures s in Signals(q, ev) <==>
      exists e :: e in q && e.handler.Notify? && (e.event == NoEvent || e.event == ev) && s in e.handler.signals
  {
    if q != [] {
      SignalledBy(q[1..], ev, s);
      assert q == [q[0]] + q[1..];
    }
  }

  lemma SignalledByRegistered<S>(regs: seq<Entry<S>>, ev: Event, s: S)
    ensures s in Signals(Registered(regs), ev) <==>
      exists e :: e in regs && e.handler.Notify? && (e.event == NoEvent || e.event == ev) && s in e.handler.signals
  {
    SignalledBy(Registered(regs), ev, s);
    RegisteredAll(regs);
    assert forall e :: e in regs <==> e in multiset(regs);
    assert forall e :: e in Registered(regs) <==> e in multiset(Registered(regs));
  }

  lemma AllSignals<S>(regs: seq<Entry<S>>, ev: Event)
    ensures forall s :: s in Signals(Registered(regs), ev) <==>
      exists e :: e in regs && e.handler.Notify? && (e.event == NoEvent || e.event == ev) && s in e.handler.signals
  {
    forall s ensures s in Signals(Registered(regs), ev) <==>
      exists e :: e in regs && e.handler.Notify? && (e.event == NoEvent || e.event == ev) && s in e.handler.signals
    {
      SignalledByRegistered(regs, ev, s);
    }
  }

  lemma SignalsThere<S>(regs: seq<Entry<S>>, ev: Event, there: set<S>)
    requires forall e :: e in regs && e.handler.Notify? && (e.event == NoEvent || e.event == ev) ==>
      forall s :: s in e.handler.signals ==> s in there
    ensures forall s :: s in Signals(Registered(regs), ev) ==> s in there
  {
    forall s | s in Signals(Registered(regs), ev) ensures s in there {
      SignalledByRegistered(regs, ev, s);
    }
  }

  /** os_trap never panics. It acts as the steps of a run: the trap, the signals of the handlers
      registered for its event or for all in the order of the list, and the return. After a yield or
      an interrupt of the timer or a device the first ready task goes on, after any other event the
      current one. A task that goes on at once does so with the context handed in, any other with
      the one stored for it. */
  lemma TrapIsFaithful<T, S, C>(regs: seq<Entry<S>>, ev: Event, c: C, y: Sys<T, S, C>)
    returns (signals: seq<S>, ends: seq<nat>)
    requires Setup(regs) && Inv(y) && y.CanTrap(ev)
    requires y.k.current.Some? || ev == Yield || ev == IrqTimer || ev == IrqIodev
    requires forall e :: e in regs && e.handler.Notify? && (e.event == NoEvent || e.event == ev) ==>
      forall s :: s in e.handler.signals ==> s in y.k.sems
    ensures InParts(Registered(regs), ev, signals, ends)
    ensures forall s :: s in signals <==>
      exists e :: e in regs && e.handler.Notify? && (e.event == NoEvent || e.event == ev) && s in e.handler.signals
    ensures var r := Dispatch(Registered(regs), ev, c, y, None);
      && r.Resumes?
      && Run(y, [Trap(ev, c)] + seq(|signals|, i requires 0 <= i < |signals| => Post(signals[i])) + [Resume])
         == Some(r.y)
      && r.y.k.current.Some?
      && (if ev == Yield || ev == IrqTimer || ev == IrqIodev then
            y.k.ready != [] ==> r.y.k.current == Some(y.k.ready[0])
          else r.y.k.current == y.k.current)
      && if r.y.k.current == y.k.current then r.c == c
         else r.y.k.current.value in y.k.context && r.c == y.k.context[r.y.k.current.value]
  {
    var mid := Registered(regs[2..]);
    signals := Signals(Registered(regs), ev);
    ends := SignalParts(Registered(regs), ev);
    AllSignals(regs, ev);
    SignalsThere(regs, ev, y.k.sems.Keys);
    SaveFirstScheduleLast(regs);
    SignalsAround(mid, ev);
    var y2 := UpToScheduling(mid, ev, c, y);
    LastDispatch(ev, c, y2);
    ChosenTask(y, y2, ev, c);
  }

  lemma ChosenTask<T, S, C>(y: Sys<T, S, C>, y2: Sys<T, S, C>, ev: Event, c: C)
    requires Inv(y) && Inv(y2) && y2.trap == Some(ev) && y2.k.current == y.k.current && y.k.ready <= y2.k.ready
    requires y2.k.context == Save(y.k, c).context && y2.k.idle == y.k.idle
    requires Next(y2, Resume).Some? && Next(y2, Resume).value.k.current.Some?
    ensures var k, k' := y.k, Next(y2, Resume).value.k;
      && k'.current.value in k'.context
      && (if ev == Yield || ev == IrqTimer || ev == IrqIodev then k.ready != [] ==> k'.current == Some(k.ready[0])
          else k'.current == k.current)
      && if k'.current == k.current then k'.context[k'.current.value] == c
         else k'.current.value in k.context && k'.context[k'.current.value] == k.context[k'.current.value]
  {
    ResumeSwitches(y2);
    ScheduleEffect(y2.k);
  }

  /** From the registrations to a trap on the machine: the list built by them is walked, and the
      trap ends as TrapIsFaithful says. */
  method RegisterAndTrap<T, S, C>(regs: seq<Entry<S>>, ev: Event, c: C, y: Sys<T, S, C>)
    returns (r: Outcome<T, S, C>, ghost signals: seq<S>, ghost ends: seq<nat>)
    requires Setup(regs) && Inv(y) && y.CanTrap(ev)
    requires y.k.current.Some? || ev == Yield || ev == IrqTimer || ev == IrqIodev
    requires forall e :: e in regs && e.handler.Notify? && (e.event == NoEvent || e.event == ev) ==>
      forall s :: s in e.handler.signals ==> s in y.k.sems
    ensures InParts(Registered(regs), ev, signals, ends)
    ensures r.Resumes? && r.y.k.current.Some?
    ensures if ev == Yield || ev == IrqTimer || ev == IrqIodev then
              y.k.ready != [] ==> r.y.k.current == Some(y.k.ready[0])
            else r.y.k.current == y.k.current
    ensures if r.y.k.current == y.k.current then r.c == c
            else r.y.k.current.value in y.k.context && r.c == y.k.context[r.y.k.current.value]
    ensures
      Run(y, [Trap(ev, c)] + seq(|signals|, i requires 0 <= i < |signals| => Post(signals[i])) + [Resume]) == Some(r.y)
  {
    var handlers := RegisterAll(regs);
    signals, ends := TrapIsFaithful(regs, ev, c, y);
    r := OsTrap(handlers, ev, c, y);
  }

  /** The trap up to the scheduling handler. */
  lemma UpToScheduling<T, S, C>(mid: seq<Entry<S>>, ev: Event, c: C, y: Sys<T, S, C>) returns (y2: Sys<T, S, C>)
    requires Inv(y) && y.CanTrap(ev)
    requires forall s :: s in Signals(mid, ev) ==> s in y.k.sems
    requires forall e :: e in mid ==> Middle(e)
    ensures Dispatch([Saver()] + mid + [Scheduler()], ev, c, y, None) == Dispatch([Scheduler()], ev, c, y2, None)
    ensures Run(y, [Trap(ev, c)] + Posts(Signals(mid, ev)) + [Resume]) == Next(y2, Resume)
    ensures Inv(y2) && y2.trap == Some(ev) && y2.k.current == y.k.current && y2.k.idle == y.k.idle
    ensures y.k.ready <= y2.k.ready && y2.k.context == Save(y.k, c).context
  {
    var y1 := TrapEntered(y, ev, c);
    y2 := Handled(mid, ev, c, y1);
    Regrouped([Saver<S>()], mid, [Scheduler<S>()]);
    DispatchSave(mid + [Scheduler()], ev, c, y, y1);
    ThreeParts(y, y1, y2, Trap(ev, c), Posts(Signals(mid, ev)), Resume);
  }

  lemma Regrouped<X>(a: seq<X>, b: seq<X>, c: seq<X>)
    ensures a + b + c == a + (b + c)
  {
  }

  lemma DispatchSave<T, S, C>(q: seq<Entry<S>>, ev: Event, c: C, y: Sys<T, S, C>, y1: Sys<T, S, C>)
    requires Next(y, Trap(ev, c)) == Some(y1)
    ensures Dispatch([Saver()] + q, ev, c, y, None) == Dispatch(q, ev, c, y1, None)
  {
    assert ([Saver()] + q)[1..] == q;
  }

  lemma Handled<T, S, C>(mid: seq<Entry<S>>, ev: Event, c: C, y1: Sys<T, S, C>) returns (y2: Sys<T, S, C>)
    requires Inv(y1) && y1.trap.Some? && forall s :: s in Signals(mid, ev) ==> s in y1.k.sems
    requires forall e :: e in mid ==> Middle(e)
    ensures Run(y1, Posts(Signals(mid, ev))) == Some(y2) && Signalled(y1, y2)
    ensures Dispatch(mid + [Scheduler()], ev, c, y1, None) == Dispatch([Scheduler()], ev, c, y2, None)
  {
    MiddleRun(mid, [Scheduler()], ev, c, y1);
    PostsRun(y1, Signals(mid, ev));
    y2 := Run(y1, Posts(Signals(mid, ev))).value;
  }

  lemma TrapEntered<T, S, C>(y: Sys<T, S, C>, ev: Event, c: C) returns (y1: Sys<T, S, C>)
    requires Inv(y) && y.CanTrap(ev)
    ensures Next(y, Trap(ev, c)) == Some(y1) && Inv(y1)
    ensures y1.trap == Some(ev) && y1.k == Save(y.k, c)
  {
    y1 := Next(y, Trap(ev, c)).value;
    StepKeepsInv(y, Trap(ev, c));
  }

  lemma ThreeParts<T, S, C>(y: Sys<T, S, C>, y1: Sys<T, S, C>, y2: Sys<T, S, C>,
                            l: Step<T, S, C>, steps: seq<Step<T, S, C>>, l': Step<T, S, C>)
    requires Next(y, l) == Some(y1) && Run(y1, steps) == Some(y2)
    ensures Run(y, [l] + steps + [l']) == Next(y2, l')
  {
    RunOne(y, l);
    RunAppend(y, [l], steps);
    RunAppend(y, [l] + steps, [l']);
    RunOne(y2, l');
  }

  lemma {:induction false} SignalsAround<S>(mid: seq<Entry<S>>, ev: Event)
    ensures Signals([Saver()] + mid + [Scheduler()], ev) == Signals(mid, ev)
  {
    assert ([Saver()] + mid + [Scheduler()])[1..] == mid + [Scheduler()];
    SignalsBefore(mid, ev);
  }

  lemma {:induction false} SignalsBefore<S>(mid: seq<Entry<S>>, ev: Event)
    ensures Signals(mid + [Scheduler()], ev) == Signals(mid, ev)
  {
    if mid == [] {
      assert (mid + [Scheduler()])[1..] == [];
    } else {
      assert (mid + [Scheduler()])[1..] == mid[1..] + [Scheduler()];
      SignalsBefore(mid[1..], ev);
    }
  }

  lemma LastDispatch<T, S, C>(ev: Event, c: C, y: Sys<T, S, C>)
    requires Inv(y) && y.trap.Some? && (Reschedules(y.trap.value) || y.k.current.Some?)
    ensures var r := Dispatch([Scheduler()], ev, c, y, None);
      && r.Resumes? && Next(y, Resume) == Some(r.y)
      && r.y.k.current.Some? && r.y.k.current.value in r.y.k.context && r.y.k.context[r.y.k.current.value] == r.c
  {
    assert [Scheduler<S>()][1..] == [];
    SomebodyResumes(y);
  }
}
