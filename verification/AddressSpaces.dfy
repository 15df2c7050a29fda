/** Several address spaces in one memory, drawing on one page allocator: an operation on one of
    them leaves the tables and the translations of the others alone. */
module AddressSpaces {
  import opened Bits
  import opened Paging
  import opened PageTree
  import opened Options
  import opened Lists
  import opened AddressSpace

  type Tree = map<seq<nat>, nat>

  /** One address space, for which all other memory is given. */
  function Alone(mem: Memory, root: nat, tree: Tree, kpt: nat): Space {
    Space(mem, root, tree, mem - tree.Values, kpt)
  }

  /** mem' is mem but for the pages in `touched` and pages that are new. */
  ghost predicate SameBut(mem: Memory, mem': Memory, touched: set<nat>) {
    forall a :: a in mem && a !in touched ==> a in mem' && mem'[a] == mem[a]
  }

  /** An address space none of whose pages is touched, nor the kernel's table, keeps its tree and
      every last-level entry. */
  lemma OtherKept(g: Geometry, mem: Memory, mem': Memory, root: nat, tree: Tree, kpt: nat, touched: set<nat>)
    requires TreeOk(g, Alone(mem, root, tree, kpt)) && SameBut(mem, mem', touched)
    requires tree.Values !! touched && kpt !in touched
    ensures TreeOk(g, Alone(mem', root, tree, kpt))
    ensures forall p :: Leaf(Alone(mem', root, tree, kpt), p) == Leaf(Alone(mem, root, tree, kpt), p)
  {
    var s, s' := Alone(mem, root, tree, kpt), Alone(mem', root, tree, kpt);
    forall p | p in tree ensures tree[p] in mem && tree[p] in mem' && mem'[tree[p]] == mem[tree[p]] {
      assert TableOk(g, s, p);
    }
    forall p | p in tree ensures TableOk(g, s', p) {
      assert TableOk(g, s, p);
      forall i | 0 <= i < g.entries ensures EntryOk(g, s', p, i, s'.mem[tree[p]][i]) {
        assert EntryOk(g, s, p, i, s.mem[tree[p]][i]);
      }
    }
  }

  /** The memory that an address space was made in is all but its tables. */
  lemma IsAlone(g: Geometry, s: Space)
    requires TreeOk(g, s)
    ensures s == Alone(s.mem, s.root, s.tree, s.kpt)
  {
    forall p | p in s.tree ensures s.tree[p] !in s.kmem { assert TableOk(g, s, p); }
    assert s.kmem.Keys == (s.mem - s.tree.Values).Keys;
    assert s.kmem == s.mem - s.tree.Values;
  }

  /** An address space as its ptr field and its tables. */
  datatype Handle = Handle(ptr: nat, tree: Tree)

  ghost predicate Member(g: Geometry, mem: Memory, h: Handle, kpt: nat) {
    && And(h.ptr, PTE_P) != 0 && And(h.ptr, PTE_U) != 0
    && TreeOk(g, Alone(mem, Base(h.ptr, g.offset), h.tree, kpt))
  }

  /** Every address space is a tree of its own. */
  ghost predicate Family(g: Geometry, mem: Memory, hs: seq<Handle>, kpt: nat) {
    && (forall i :: 0 <= i < |hs| ==> Member(g, mem, hs[i], kpt))
    && (forall i, j :: 0 <= i < j < |hs| ==> hs[i].tree.Values !! hs[j].tree.Values)
  }

  /** The entry of a last-level table that h has for a path. */
  function LeafOf(g: Geometry, mem: Memory, h: Handle, kpt: nat, path: seq<nat>): nat {
    Leaf(Alone(mem, Base(h.ptr, g.offset), h.tree, kpt), path)
  }

  /** The tables of one member are not those of another, nor the kernel's. */
  lemma OwnTables(g: Geometry, mem: Memory, hs: seq<Handle>, kpt: nat, i: nat, j: nat)
    requires Family(g, mem, hs, kpt) && i < |hs| && j < |hs| && i != j
    ensures hs[j].tree.Values !! hs[i].tree.Values && kpt !in hs[i].tree.Values
    ensures hs[j].tree.Values <= mem.Keys
  {
    assert Member(g, mem, hs[i], kpt) && Member(g, mem, hs[j], kpt);
    var s := Alone(mem, Base(hs[j].ptr, g.offset), hs[j].tree, kpt);
    forall p | p in s.tree ensures s.tree[p] in mem { assert TableOk(g, s, p); }
  }

  /** An operation on member i that touches only its own tables and new pages keeps the others. */
  lemma MemberKept(g: Geometry, mem: Memory, mem': Memory, hs: seq<Handle>, kpt: nat, i: nat, j: nat)
    requires Family(g, mem, hs, kpt) && i < |hs| && j < |hs| && i != j
    requires SameBut(mem, mem', hs[i].tree.Values)
    ensures Member(g, mem', hs[j], kpt)
    ensures forall p :: LeafOf(g, mem', hs[j], kpt, p) == LeafOf(g, mem, hs[j], kpt, p)
  {
    OwnTables(g, mem, hs, kpt, i, j);
    assert Member(g, mem, hs[j], kpt);
    OtherKept(g, mem, mem', Base(hs[j].ptr, g.offset), hs[j].tree, kpt, hs[i].tree.Values);
  }

  /** The family after member i has become h. */
  lemma FamilyKept(g: Geometry, mem: Memory, mem': Memory, hs: seq<Handle>, kpt: nat, i: nat, h: Handle)
    requires Family(g, mem, hs, kpt) && i < |hs| && SameBut(mem, mem', hs[i].tree.Values)
    requires Member(g, mem', h, kpt) && h.tree.Values !! (mem.Keys - hs[i].tree.Values)
    ensures Family(g, mem', hs[i := h], kpt)
  {
    forall j | 0 <= j < |hs| && j != i
      ensures Member(g, mem', hs[j], kpt) && hs[j].tree.Values !! h.tree.Values
    {
      MemberKept(g, mem, mem', hs, kpt, i, j);
      OwnTables(g, mem, hs, kpt, i, j);
    }
  }

  /** The family with one more member, all of whose tables are new. */
  lemma FamilyGrows(g: Geometry, mem: Memory, mem': Memory, hs: seq<Handle>, kpt: nat, h: Handle)
    requires Family(g, mem, hs, kpt) && SameBut(mem, mem', {})
    requires Member(g, mem', h, kpt) && h.tree.Values !! mem.Keys
    ensures Family(g, mem', hs + [h], kpt)
    ensures forall j :: 0 <= j < |hs| ==> SameLeaves(g, mem, mem', hs[j], kpt)
  {
    forall j | 0 <= j < |hs| ensures hs[j].tree.Values !! h.tree.Values && SameLeaves(g, mem, mem', hs[j], kpt) {
      Untouched(g, mem, mem', hs[j], kpt);
    }
    JoinFamily(g, mem', hs, kpt, h);
  }

  lemma JoinFamily(g: Geometry, mem: Memory, hs: seq<Handle>, kpt: nat, h: Handle)
    requires (forall j :: 0 <= j < |hs| ==> Member(g, mem, hs[j], kpt)) && Member(g, mem, h, kpt)
    requires forall i, j :: 0 <= i < j < |hs| ==> hs[i].tree.Values !! hs[j].tree.Values
    requires forall j :: 0 <= j < |hs| ==> hs[j].tree.Values !! h.tree.Values
    ensures Family(g, mem, hs + [h], kpt)
  {
    var all := hs + [h];
    forall i | 0 <= i < |all| ensures Member(g, mem, all[i], kpt) && all[i] == if i < |hs| then hs[i] else h {
    }
  }

  lemma Untouched(g: Geometry, mem: Memory, mem': Memory, h: Handle, kpt: nat)
    requires Member(g, mem, h, kpt) && SameBut(mem, mem', {})
    ensures h.tree.Values <= mem.Keys && SameLeaves(g, mem, mem', h, kpt)
  {
    OtherKept(g, mem, mem', Base(h.ptr, g.offset), h.tree, kpt, {});
    var s := Alone(mem, Base(h.ptr, g.offset), h.tree, kpt);
    forall p | p in s.tree ensures s.tree[p] in mem { assert TableOk(g, s, p); }
  }

  /** The family without member i. */
  lemma FamilyShrinks(g: Geometry, mem: Memory, mem': Memory, hs: seq<Handle>, kpt: nat, i: nat)
    requires Family(g, mem, hs, kpt) && i < |hs| && SameBut(mem, mem', hs[i].tree.Values)
    ensures Family(g, mem', Removed(hs, i), kpt)
    ensures forall j :: 0 <= j < |hs| && j != i ==> SameLeaves(g, mem, mem', hs[j], kpt)
  {
    forall j | 0 <= j < |hs| && j != i
      ensures Member(g, mem', hs[j], kpt) && SameLeaves(g, mem, mem', hs[j], kpt)
    {
      MemberKept(g, mem, mem', hs, kpt, i, j);
    }
  }

  /** h translates user addresses in mem' as in mem. */
  ghost predicate SameLeaves(g: Geometry, mem: Memory, mem': Memory, h: Handle, kpt: nat) {
    && Member(g, mem, h, kpt) && Member(g, mem', h, kpt)
    && forall p :: LeafOf(g, mem', h, kpt, p) == LeafOf(g, mem, h, kpt, p)
  }

  /** The ptr fields of the family. */
  ghost predicate Named(ptrs: seq<nat>, hs: seq<Handle>) {
    |ptrs| == |hs| && forall i :: 0 <= i < |hs| ==> ptrs[i] == hs[i].ptr
  }

  lemma NamedWithout(ptrs: seq<nat>, hs: seq<Handle>, i: nat)
    requires Named(ptrs, hs) && i < |hs|
    ensures Named(Removed(ptrs, i), Removed(hs, i))
  {
  }

  lemma NamedWith(ptrs: seq<nat>, hs: seq<Handle>, h: Handle)
    requires Named(ptrs, hs)
    ensures Named(ptrs + [h.ptr], hs + [h])
  {
  }

  /** All tables of the family. */
  ghost function Tables(hs: seq<Handle>): set<nat> {
    set i, a | 0 <= i < |hs| && a in hs[i].tree.Values :: a
  }

  lemma TablesWithout(hs: seq<Handle>, i: nat)
    requires i < |hs|
    ensures Tables(hs) == Tables(Removed(hs, i)) + hs[i].tree.Values
  {
    var rest := Removed(hs, i);
    forall a | a in Tables(hs) ensures a in Tables(rest) + hs[i].tree.Values {
      var j :| 0 <= j < |hs| && a in hs[j].tree.Values;
      if j < i { assert rest[j] == hs[j]; }
      if j > i { assert rest[j - 1] == hs[j]; }
    }
  }

  lemma TablesWith(hs: seq<Handle>, h: Handle)
    ensures Tables(hs + [h]) == Tables(hs) + h.tree.Values
  {
    TablesWithout(hs + [h], |hs|);
    assert Removed(hs + [h], |hs|) == hs;
  }

  lemma TablesUpdated(hs: seq<Handle>, i: nat, h: Handle)
    requires i < |hs|
    ensures Tables(hs[i := h]) == Tables(Removed(hs, i)) + h.tree.Values
  {
    TablesWithout(hs[i := h], i);
    assert Removed(hs[i := h], i) == Removed(hs, i);
  }

  /** Memory is the boot memory and the tables, and the pages that are not boot memory are the
      reserve: in tables or free. */
  ghost predicate Complete(mem: Memory, pool: set<nat>, hs: seq<Handle>, boot: Memory, reserve: set<nat>) {
    mem - Tables(hs) == boot && pool + Tables(hs) == reserve
  }

  lemma CompleteKept(mem: Memory, mem': Memory, pool: set<nat>, pool': set<nat>, hs: seq<Handle>, i: nat, h: Handle,
                  boot: Memory, reserve: set<nat>)
    requires Complete(mem, pool, hs, boot, reserve) && i < |hs|
    requires mem' - h.tree.Values == mem - hs[i].tree.Values
    requires pool' + h.tree.Values == pool + hs[i].tree.Values
    ensures Complete(mem', pool', hs[i := h], boot, reserve)
  {
    TablesWithout(hs, i);
    TablesUpdated(hs, i, h);
    var others := Tables(Removed(hs, i));
    Minus(mem', h.tree.Values, others);
    Minus(mem, hs[i].tree.Values, others);
    assert pool' + (others + h.tree.Values) == others + (pool' + h.tree.Values);
    assert pool + (others + hs[i].tree.Values) == others + (pool + hs[i].tree.Values);
  }

  lemma Minus(mem: Memory, a: set<nat>, b: set<nat>)
    ensures mem - (b + a) == (mem - a) - b
  {
  }

  lemma CompleteGrows(mem: Memory, mem': Memory, pool: set<nat>, pool': set<nat>, hs: seq<Handle>, h: Handle,
                   boot: Memory, reserve: set<nat>)
    requires Complete(mem, pool, hs, boot, reserve)
    requires mem' - h.tree.Values == mem && pool' + h.tree.Values == pool
    ensures Complete(mem', pool', hs + [h], boot, reserve)
  {
    TablesWith(hs, h);
    Minus(mem', h.tree.Values, Tables(hs));
    assert pool' + (Tables(hs) + h.tree.Values) == (pool' + h.tree.Values) + Tables(hs);
  }

  lemma CompleteShrinks(mem: Memory, mem': Memory, pool: set<nat>, pool': set<nat>, hs: seq<Handle>, i: nat,
                     boot: Memory, reserve: set<nat>)
    requires Complete(mem, pool, hs, boot, reserve) && i < |hs|
    requires mem' == mem - hs[i].tree.Values && pool' == pool + hs[i].tree.Values
    ensures Complete(mem', pool', Removed(hs, i), boot, reserve)
  {
    TablesWithout(hs, i);
    Minus(mem, hs[i].tree.Values, Tables(Removed(hs, i)));
    assert pool + (Tables(Removed(hs, i)) + hs[i].tree.Values) == (pool + hs[i].tree.Values) + Tables(Removed(hs, i));
  }

  /** No table is in the boot memory. */
  lemma BootOutside(mem: Memory, hs: seq<Handle>, boot: Memory, i: nat)
    requires mem - Tables(hs) == boot && i < |hs|
    ensures SameBut(boot, mem - hs[i].tree.Values, {})
  {
    assert hs[i].tree.Values <= Tables(hs);
  }

  /** A walk that stays inside a memory goes the same way in a larger one. */
  lemma {:induction false} WalkInLarger(m: Mmu, mem: Memory, mem': Memory, table: nat, va: nat, l: nat)
    requires 1 <= l <= m.Levels() && WalkInside(m, mem, table, va, l) && SameBut(mem, mem', {})
    ensures WalkInside(m, mem', table, va, l) && Walk(m, mem', table, va, l) == Walk(m, mem, table, va, l)
    decreases m.Levels() - l
  {
    var i := m.Index(va, l);
    if table in mem && i < |mem[table]| {
      var e := mem[table][i];
      if And(e, PTE_P) != 0 && l < m.Levels() && And(e, PTE_PS) == 0 {
        WalkInLarger(m, mem, mem', Base(e, m.offset), va, l + 1);
      }
    }
  }

  /** A kernel address translates in a member as in the boot memory outside its tables. */
  lemma KernelOfMember(m: Mmu, g: Geometry, mem: Memory, boot: Memory, h: Handle, kpt: nat, va: nat)
    requires Member(g, mem, h, kpt) && SameBut(boot, mem - h.tree.Values, {}) && 1 <= m.Levels() == g.levels
    requires m.Index(va, 1) in g.kernel && WalkInside(m, boot, kpt, va, 1)
    ensures Walk(m, mem, Base(h.ptr, g.offset), va, 1) == Walk(m, boot, kpt, va, 1)
  {
    var s := Alone(mem, Base(h.ptr, g.offset), h.tree, kpt);
    WalkInLarger(m, boot, s.kmem, kpt, va, 1);
    KernelWalk(m, g, s, va);
  }

  /** A machine with any number of live address spaces; `vm` is the code, its memory and its
      allocator, working on one address space at a time. */
  class Machine {
    const vm: AddrSpace
    /** The live address spaces. The code knows only their ptr fields. */
    var ptrs: seq<nat>
    ghost var hs: seq<Handle>
    /** The memory before the first protect, and the pages that were free then. */
    ghost const boot: Memory
    ghost const reserve: set<nat>

    /** The address spaces are trees apart from each other, and there is nothing in memory beside
        them and the boot memory. */
    ghost predicate Valid()
      reads this, vm
    {
      Sound() && AllAccounted(hs)
    }

    ghost predicate Sound()
      reads this, vm
    {
      vm.mmu.Valid() && Named(ptrs, hs) && Apart(hs)
    }

    ghost predicate Apart(hs': seq<Handle>)
      requires vm.mmu.Valid()
      reads vm
    {
      && PoolOk(vm.Geom(), vm.pool) && Addresses(vm.pool) !! vm.pages.Keys
      && KernelOk(vm.Geom(), vm.pages, vm.kpt) && Family(vm.Geom(), vm.pages, hs', vm.kpt)
    }

    ghost predicate AllAccounted(hs': seq<Handle>)
      reads this, vm
    {
      Complete(vm.pages, Addresses(vm.pool), hs', boot, reserve)
    }

    /** What the processor finds for an address while address space i is in use. */
    function LookupIn(i: nat, va: nat): Option<Translation>
      requires i < |ptrs| && vm.mmu.Levels() >= 1
      reads this, vm
    {
      Walk(vm.mmu, vm.pages, Base(ptrs[i], vm.mmu.offset), va, 1)
    }

    /** How a call of map in address space i ends. */
    ghost function VerdictIn(i: nat, q: Request): Outcome
      requires vm.mmu.Valid() && i < |ptrs| && i < |hs|
      reads this, vm
    {
      vm.Judged(q, |vm.pool|, hs[i].tree, LookupIn(i, q.va))
    }

    /** The same for an address space with the tables of h. */
    ghost function VerdictOf(h: Handle, q: Request): Outcome
      requires vm.mmu.Valid()
      reads vm
    {
      vm.Judged(q, |vm.pool|, h.tree, Walk(vm.mmu, vm.pages, Base(h.ptr, vm.mmu.offset), q.va, 1))
    }

    constructor (m: Mmu, memory: Memory, kernelTable: nat, free: seq<FreePage>)
      requires m.Valid() && Boot(m, memory, kernelTable, free)
      ensures Valid() && ptrs == [] && vm.mmu == m && vm.pages == memory && vm.pool == free && fresh(vm)
      ensures vm.kpt == kernelTable && boot == memory && reserve == Addresses(free)
    {
      vm := new AddrSpace(m, memory, kernelTable, free);
      ptrs, hs, boot, reserve := [], [], memory, Addresses(free);
      new;
      assert vm.pages - Tables([]) == vm.pages && Addresses(free) + Tables([]) == Addresses(free);
    }

    /** In every address space a kernel address translates as in the boot memory. */
    lemma KernelIn(i: nat, va: nat)
      requires Valid() && i < |ptrs|
      requires vm.mmu.KernelSlot(vm.mmu.Index(va, 1)) && WalkInside(vm.mmu, boot, vm.kpt, va, 1)
      ensures LookupIn(i, va) == Walk(vm.mmu, boot, vm.kpt, va, 1)
    {
      IndexIsField(vm.mmu, va, 1);
      assert vm.mmu.Index(va, 1) in vm.Geom().kernel;
      assert Member(vm.Geom(), vm.pages, hs[i], vm.kpt);
      BootOutside(vm.pages, hs, boot, i);
      KernelOfMember(vm.mmu, vm.Geom(), vm.pages, boot, hs[i], vm.kpt, va);
    }

    /** Without address spaces memory is the boot memory and all pages are free again. */
    lemma AllGone()
      requires Valid() && ptrs == []
      ensures vm.pages == boot && Addresses(vm.pool) == reserve
    {
      assert vm.pages - Tables([]) == vm.pages;
    }

    /** The code turns to address space i. */
    method Enter(i: nat)
      requires Sound() && i < |ptrs|
      modifies vm`ptr, vm`tree, vm`kmem, vm`reserve
      ensures vm.Protected() && vm.ptr == hs[i].ptr && vm.tree == hs[i].tree && vm.kmem == vm.pages - vm.tree.Values
      ensures vm.reserve == Addresses(vm.pool) + vm.tree.Values
    {
      assert Member(vm.Geom(), vm.pages, hs[i], vm.kpt);
      vm.ptr, vm.tree, vm.kmem := ptrs[i], hs[i].tree, vm.pages - hs[i].tree.Values;
      vm.reserve := Addresses(vm.pool) + vm.tree.Values;
    }

    /** The page of va translates as asked if the call is done, and every other user address as before. */
    ghost predicate Remapped(mem: Memory, mem': Memory, ptr: nat, done: bool, va: nat, asked: Option<Translation>)
      requires vm.mmu.Valid()
    {
      var root := Base(ptr, vm.mmu.offset);
      forall a :: vm.mmu.InUser(a) ==>
        (Walk(vm.mmu, mem', root, a, 1) ==
          if done && PageOf(vm.mmu, a) == PageOf(vm.mmu, va) then asked else Walk(vm.mmu, mem, root, a, 1))
    }

    /** map in one of several address spaces ends and acts as in a single one; the others translate as
        before, and the pages of the allocator and of the address space stay the same between them. */
    method MapIn(i: nat, va: nat, pa: nat, prot: nat) returns (r: Outcome)
      requires Valid() && i < |ptrs|
      modifies this, vm
      ensures Valid() && ptrs == old(ptrs) && hs == old(hs)[i := hs[i]]
      ensures r == old(VerdictIn(i, Request(va, pa, prot)))
      ensures !r.Done? ==> r == VerdictIn(i, Request(va, pa, prot))
      ensures Addresses(vm.pool) + hs[i].tree.Values == Addresses(old(vm.pool)) + old(hs[i].tree.Values)
      ensures Remapped(old(vm.pages), vm.pages, ptrs[i], r.Done?, va, vm.Asked(pa, prot))
      ensures forall j :: 0 <= j < |ptrs| && j != i ==> SameTranslations(old(vm.pages), vm.pages, hs[j])
      ensures forall j, a :: 0 <= j < |ptrs| && vm.mmu.InUser(a) ==>
        LookupIn(j, a) == if r.Done? && j == i && PageOf(vm.mmu, a) == PageOf(vm.mmu, va) then
                            if prot == 0 then None else Some(Translation(pa, (prot / 2) % 2 == 1, true))
                          else old(LookupIn(j, a))
    {
      r := MapNoted(i, va, pa, prot);
      AllFound(old(vm.pages), vm.pages, i, r.Done?, va, vm.Asked(pa, prot));
      AskedMeans(vm, pa, prot);
    }

    lemma AllFound(mem: Memory, mem': Memory, i: nat, done: bool, va: nat, asked: Option<Translation>)
      requires vm.mmu.Valid() && Named(ptrs, hs) && i < |ptrs| && Remapped(mem, mem', ptrs[i], done, va, asked)
      requires forall j :: 0 <= j < |ptrs| && j != i ==> SameTranslations(mem, mem', hs[j])
      ensures forall j, a :: 0 <= j < |ptrs| && vm.mmu.InUser(a) ==>
        Found(mem', ptrs[j], a) == if done && j == i && PageOf(vm.mmu, a) == PageOf(vm.mmu, va) then asked
                                   else Found(mem, ptrs[j], a)
    {
      forall j, a | 0 <= j < |ptrs| && j != i && vm.mmu.InUser(a)
        ensures Found(mem', ptrs[j], a) == Found(mem, ptrs[j], a)
      {
        assert SameTranslations(mem, mem', hs[j]);
      }
    }

    method MapNoted(i: nat, va: nat, pa: nat, prot: nat) returns (r: Outcome)
      requires Valid() && i < |ptrs|
      modifies this, vm
      ensures Valid() && ptrs == old(ptrs) && hs == old(hs)[i := hs[i]]
      ensures r == old(VerdictIn(i, Request(va, pa, prot)))
      ensures !r.Done? ==> r == VerdictIn(i, Request(va, pa, prot))
      ensures Addresses(vm.pool) + hs[i].tree.Values == Addresses(old(vm.pool)) + old(hs[i].tree.Values)
      ensures Remapped(old(vm.pages), vm.pages, ptrs[i], r.Done?, va, vm.Asked(pa, prot))
      ensures forall j :: 0 <= j < |ptrs| && j != i ==> SameTranslations(old(vm.pages), vm.pages, hs[j])
    {
      ghost var h;
      r, h := MapKept(i, va, pa, prot);
      TakeNote(i, h);
    }

    /** The family takes note of the new tables of address space i. */
    ghost method TakeNote(i: nat, h: Handle)
      requires vm.mmu.Valid() && Named(ptrs, hs) && i < |hs| && h.ptr == hs[i].ptr
      requires Apart(hs[i := h]) && AllAccounted(hs[i := h])
      modifies `hs
      ensures Valid() && hs == old(hs)[i := h]
    {
      hs := hs[i := h];
    }

    /** The same, before the family takes note of the new tables h. */
    method MapKept(i: nat, va: nat, pa: nat, prot: nat) returns (r: Outcome, ghost h: Handle)
      requires Valid() && i < |ptrs|
      modifies vm
      ensures h.ptr == hs[i].ptr && Apart(hs[i := h]) && AllAccounted(hs[i := h])
      ensures r == old(VerdictIn(i, Request(va, pa, prot)))
      ensures !r.Done? ==> r == VerdictOf(h, Request(va, pa, prot))
      ensures Addresses(vm.pool) + h.tree.Values == Addresses(old(vm.pool)) + hs[i].tree.Values
      ensures Remapped(old(vm.pages), vm.pages, ptrs[i], r.Done?, va, vm.Asked(pa, prot))
      ensures forall j :: 0 <= j < |ptrs| && j != i ==> SameTranslations(old(vm.pages), vm.pages, hs[j])
    {
      ghost var mem, free := vm.pages, Addresses(vm.pool);
      r, h := MapHere(i, va, pa, prot);
      OtherLookups(mem, vm.pages, i);
      CompleteKept(mem, vm.pages, free, Addresses(vm.pool), hs, i, h, boot, reserve);
    }

    /** The operation itself. */
    method MapHere(i: nat, va: nat, pa: nat, prot: nat) returns (r: Outcome, ghost h: Handle)
      requires Sound() && i < |ptrs|
      modifies vm
      ensures h.ptr == hs[i].ptr && After(i, old(vm.pages), h)
      ensures r == old(VerdictIn(i, Request(va, pa, prot)))
      ensures !r.Done? ==> r == VerdictOf(h, Request(va, pa, prot))
      ensures Addresses(vm.pool) + h.tree.Values == Addresses(old(vm.pool)) + hs[i].tree.Values
      ensures Remapped(old(vm.pages), vm.pages, ptrs[i], r.Done?, va, vm.Asked(pa, prot))
    {
      Enter(i);
      AskedMeans(vm, pa, prot);
      r := vm.Map(va, pa, prot);
      h := Handle(vm.ptr, vm.tree);
      Stored(old(vm.pages), i, h);
    }

    /** What an operation on address space i, whose tables are then those of h, leaves of the memory
        that was, and of the allocator. */
    ghost predicate After(i: nat, was: Memory, h: Handle)
      requires vm.mmu.Valid() && i < |hs|
      reads this, vm
    {
      && PoolOk(vm.Geom(), vm.pool) && Addresses(vm.pool) !! vm.pages.Keys
      && KernelOk(vm.Geom(), vm.pages, vm.kpt)
      && SameBut(was, vm.pages, hs[i].tree.Values)
      && vm.pages - h.tree.Values == was - hs[i].tree.Values
      && Family(vm.Geom(), vm.pages, hs[i := h], vm.kpt)
    }

    lemma OtherLookups(mem: Memory, mem': Memory, i: nat)
      requires vm.mmu.Valid() && Family(vm.Geom(), mem, hs, vm.kpt) && i < |hs|
      requires SameBut(mem, mem', hs[i].tree.Values)
      ensures forall j :: 0 <= j < |hs| && j != i ==> SameTranslations(mem, mem', hs[j])
    {
      FamilyShrinks(vm.Geom(), mem, mem', hs, vm.kpt, i);
      forall j | 0 <= j < |hs| && j != i ensures SameTranslations(mem, mem', hs[j]) {
        forall a | vm.mmu.InUser(a)
          ensures Walk(vm.mmu, mem', Base(hs[j].ptr, vm.mmu.offset), a, 1) ==
                  Walk(vm.mmu, mem, Base(hs[j].ptr, vm.mmu.offset), a, 1)
        {
          SameLookup(mem, mem', hs[j], a);
        }
      }
    }

    lemma RestLookups(mem: Memory, mem': Memory, i: nat)
      requires vm.mmu.Valid() && Family(vm.Geom(), mem, hs, vm.kpt) && i < |hs|
      requires SameBut(mem, mem', hs[i].tree.Values)
      ensures forall h :: h in Removed(hs, i) ==> SameTranslations(mem, mem', h)
    {
      OtherLookups(mem, mem', i);
    }

    /** h translates every user address in mem' as in mem. */
    ghost predicate SameTranslations(mem: Memory, mem': Memory, h: Handle)
      requires vm.mmu.Levels() >= 1 && |vm.mmu.areas| > 0
    {
      forall a :: vm.mmu.InUser(a) ==>
        Walk(vm.mmu, mem', Base(h.ptr, vm.mmu.offset), a, 1) == Walk(vm.mmu, mem, Base(h.ptr, vm.mmu.offset), a, 1)
    }

    lemma SameLookup(mem: Memory, mem': Memory, h: Handle, a: nat)
      requires vm.mmu.Valid() && SameLeaves(vm.Geom(), mem, mem', h, vm.kpt) && vm.mmu.InUser(a)
      ensures Walk(vm.mmu, mem', Base(h.ptr, vm.mmu.offset), a, 1) ==
              Walk(vm.mmu, mem, Base(h.ptr, vm.mmu.offset), a, 1)
    {
      var g, root := vm.Geom(), Base(h.ptr, vm.mmu.offset);
      vm.LookupIsLeaf(Alone(mem, root, h.tree, vm.kpt), a);
      vm.LookupIsLeaf(Alone(mem', root, h.tree, vm.kpt), a);
      assert LeafOf(g, mem', h, vm.kpt, vm.UserIndices(a)) == LeafOf(g, mem, h, vm.kpt, vm.UserIndices(a));
    }

    /** protect: one more address space, in which no user page is mapped; the others translate as
        before. */
    method ProtectNew() returns (r: Outcome)
      requires Valid()
      modifies this, vm
      ensures Valid() && (r.Done? <==> old(vm.pool) != [])
      ensures !r.Done? ==> r == Panic(OutOfPages) && vm.pool == [] && ptrs == old(ptrs) && hs == old(hs)
      ensures r.Done? ==> |ptrs| == |old(ptrs)| + 1 && ptrs[..|old(ptrs)|] == old(ptrs)
      ensures r.Done? ==> Addresses(vm.pool) + hs[|old(ptrs)|].tree.Values == Addresses(old(vm.pool))
      ensures r.Done? ==> forall a :: vm.mmu.InUser(a) ==> LookupIn(|ptrs| - 1, a).None?
      ensures forall j :: 0 <= j < |old(ptrs)| ==>
        hs[j] == old(hs[j]) && SameTranslations(old(vm.pages), vm.pages, hs[j])
      ensures forall j, a :: 0 <= j < |old(ptrs)| && vm.mmu.InUser(a) ==> LookupIn(j, a) == old(LookupIn(j, a))
    {
      ghost var h;
      r, h := TakeIn();
      if r.Done? {
        NamedWith(ptrs, hs, h);
        ptrs := ptrs + [vm.ptr];
        hs := hs + [h];
      }
    }

    /** protect, before the family takes note. */
    method TakeIn() returns (r: Outcome, ghost h: Handle)
      requires Valid()
      modifies vm
      ensures r.Done? <==> old(vm.pool) != []
      ensures r.Done? ==> Apart(hs + [h]) && AllAccounted(hs + [h])
      ensures !r.Done? ==> r == Panic(OutOfPages) && vm.pool == [] && Apart(hs) && AllAccounted(hs)
      ensures r.Done? ==> h.ptr == vm.ptr && Addresses(vm.pool) + h.tree.Values == Addresses(old(vm.pool))
      ensures r.Done? ==>
        forall a :: vm.mmu.InUser(a) ==> Walk(vm.mmu, vm.pages, Base(vm.ptr, vm.mmu.offset), a, 1).None?
      ensures forall j :: 0 <= j < |hs| ==> SameTranslations(old(vm.pages), vm.pages, hs[j])
    {
      ghost var mem, free := vm.pages, Addresses(vm.pool);
      r, h := ProtectHere();
      if r.Done? {
        AllLookups(mem, vm.pages, h);
        CompleteGrows(mem, vm.pages, free, Addresses(vm.pool), hs, h, boot, reserve);
      }
    }

    lemma AllLookups(mem: Memory, mem': Memory, h: Handle)
      requires vm.mmu.Valid() && Family(vm.Geom(), mem, hs, vm.kpt) && SameBut(mem, mem', {})
      requires Member(vm.Geom(), mem', h, vm.kpt) && h.tree.Values !! mem.Keys
      ensures Family(vm.Geom(), mem', hs + [h], vm.kpt)
      ensures forall j :: 0 <= j < |hs| ==> SameTranslations(mem, mem', hs[j])
    {
      FamilyGrows(vm.Geom(), mem, mem', hs, vm.kpt, h);
      forall j | 0 <= j < |hs| ensures SameTranslations(mem, mem', hs[j]) {
        forall a | vm.mmu.InUser(a)
          ensures Walk(vm.mmu, mem', Base(hs[j].ptr, vm.mmu.offset), a, 1) ==
                  Walk(vm.mmu, mem, Base(hs[j].ptr, vm.mmu.offset), a, 1)
        {
          SameLookup(mem, mem', hs[j], a);
        }
      }
    }

    method ProtectHere() returns (r: Outcome, ghost h: Handle)
      requires Sound()
      modifies vm
      ensures PoolOk(vm.Geom(), vm.pool) && Addresses(vm.pool) !! vm.pages.Keys
      ensures KernelOk(vm.Geom(), vm.pages, vm.kpt) && (r.Done? <==> old(vm.pool) != [])
      ensures !r.Done? ==> r == Panic(OutOfPages) && vm.pages == old(vm.pages) && vm.pool == old(vm.pool)
      ensures r.Done? ==> h.ptr == vm.ptr && Member(vm.Geom(), vm.pages, h, vm.kpt)
      ensures r.Done? ==> Addresses(vm.pool) + h.tree.Values == Addresses(old(vm.pool))
      ensures r.Done? ==> vm.pages - h.tree.Values == old(vm.pages)
      ensures r.Done? ==> SameBut(old(vm.pages), vm.pages, {}) && h.tree.Values !! old(vm.pages).Keys
      ensures r.Done? ==>
        forall a :: vm.mmu.InUser(a) ==> Walk(vm.mmu, vm.pages, Base(vm.ptr, vm.mmu.offset), a, 1).None?
    {
      vm.tree, vm.kmem, vm.reserve := map[], vm.pages, Addresses(vm.pool);
      r := vm.Protect();
      h := Handle(vm.ptr, vm.tree);
      if r.Done? {
        IsAlone(vm.Geom(), vm.View());
        forall p | p in vm.tree ensures vm.tree[p] !in vm.kmem { assert TableOk(vm.Geom(), vm.View(), p); }
      }
    }

    /** unprotect of address space i: its tables go back to the pool, and the others translate as
        before. */
    method UnprotectAt(i: nat)
      requires Valid() && i < |ptrs|
      modifies this, vm
      ensures Valid() && ptrs == Removed(old(ptrs), i) && hs == Removed(old(hs), i)
      ensures vm.pages == old(vm.pages) - old(hs[i].tree.Values)
      ensures Addresses(vm.pool) == Addresses(old(vm.pool)) + old(hs[i].tree.Values)
      ensures forall h :: h in hs ==> SameTranslations(old(vm.pages), vm.pages, h)
      ensures |ptrs| == |old(ptrs)| - 1
      ensures forall j, a :: 0 <= j < |ptrs| && vm.mmu.InUser(a) ==>
        LookupIn(j, a) == old(LookupIn(if j < i then j else j + 1, a))
    {
      GiveUp(i);
      Forget(i);
      OthersStay(old(vm.pages), vm.pages, old(ptrs), i);
    }

    /** The family takes note that address space i is gone. */
    method Forget(i: nat)
      requires vm.mmu.Valid() && Named(ptrs, hs) && i < |hs|
      requires Apart(Removed(hs, i)) && AllAccounted(Removed(hs, i))
      modifies this
      ensures Valid()
      ensures ptrs == Removed(old(ptrs), i) && hs == Removed(old(hs), i)
    {
      NamedWithout(ptrs, hs, i);
      ptrs := Removed(ptrs, i);
      hs := Removed(hs, i);
    }

    lemma OthersStay(mem: Memory, mem': Memory, was: seq<nat>, i: nat)
      requires vm.mmu.Valid() && Named(ptrs, hs) && i < |was| && ptrs == Removed(was, i)
      requires forall h :: h in hs ==> SameTranslations(mem, mem', h)
      ensures forall j, a :: 0 <= j < |ptrs| && vm.mmu.InUser(a) ==>
        Found(mem', ptrs[j], a) == Found(mem, was[if j < i then j else j + 1], a)
    {
      forall j, a | 0 <= j < |ptrs| && vm.mmu.InUser(a)
        ensures Found(mem', ptrs[j], a) == Found(mem, was[if j < i then j else j + 1], a)
      {
        assert hs[j] in hs && ptrs[j] == hs[j].ptr;
        assert SameTranslations(mem, mem', hs[j]);
      }
    }

    /** unprotect, before the family takes note. */
    method GiveUp(i: nat)
      requires Valid() && i < |ptrs|
      modifies vm
      ensures Apart(Removed(hs, i)) && AllAccounted(Removed(hs, i))
      ensures vm.pages == old(vm.pages) - hs[i].tree.Values
      ensures Addresses(vm.pool) == Addresses(old(vm.pool)) + hs[i].tree.Values
      ensures forall h :: h in Removed(hs, i) ==> SameTranslations(old(vm.pages), vm.pages, h)
    {
      ghost var mem, free := vm.pages, Addresses(vm.pool);
      UnprotectHere(i);
      RestLookups(mem, vm.pages, i);
      FamilyShrinks(vm.Geom(), mem, vm.pages, hs, vm.kpt, i);
      CompleteShrinks(mem, vm.pages, free, Addresses(vm.pool), hs, i, boot, reserve);
    }

    method UnprotectHere(i: nat)
      requires Sound() && i < |ptrs|
      modifies vm
      ensures PoolOk(vm.Geom(), vm.pool) && Addresses(vm.pool) !! vm.pages.Keys
      ensures KernelOk(vm.Geom(), vm.pages, vm.kpt) && SameBut(old(vm.pages), vm.pages, hs[i].tree.Values)
      ensures vm.pages == old(vm.pages) - hs[i].tree.Values
      ensures Addresses(vm.pool) == Addresses(old(vm.pool)) + hs[i].tree.Values
    {
      Enter(i);
      vm.Unprotect();
    }

    /** What the code leaves of address space i belongs to the family again. */
    lemma Stored(mem: Memory, i: nat, h: Handle)
      requires vm.Protected() && i < |hs| && Family(vm.Geom(), mem, hs, vm.kpt)
      requires vm.kmem == mem - hs[i].tree.Values && h == Handle(vm.ptr, vm.tree)
      ensures SameBut(mem, vm.pages, hs[i].tree.Values) && Family(vm.Geom(), vm.pages, hs[i := h], vm.kpt)
      ensures KernelOk(vm.Geom(), vm.pages, vm.kpt)
      ensures vm.pages - h.tree.Values == mem - hs[i].tree.Values
    {
      var s := vm.View();
      IsAlone(vm.Geom(), s);
      forall p | p in s.tree ensures s.tree[p] !in s.kmem { assert TableOk(vm.Geom(), s, p); }
      FamilyKept(vm.Geom(), mem, vm.pages, hs, vm.kpt, i, h);
    }

    // -------------------------------------------------------------- any run of operations

    /** How many address spaces a run leaves. */
    function Count(ops: seq<Op>): nat {
      if ops == [] then 0
      else
        var before := Count(ops[..|ops| - 1]);
        match ops[|ops| - 1]
        case Protect => before + 1
        case Map(_, _) => before
        case Unprotect(i) => if i < before then before - 1 else before
    }

    /** What a run leaves of an address in the address space at i: as if each were a map of its own. */
    function Trans(ops: seq<Op>, i: nat, a: nat): Option<Translation> {
      if ops == [] then None
      else
        var before := ops[..|ops| - 1];
        match ops[|ops| - 1]
        case Protect => if i == Count(before) then None else Trans(before, i, a)
        case Map(j, q) =>
          if i == j && PageOf(vm.mmu, a) == PageOf(vm.mmu, q.va) then vm.Asked(q.pa, q.prot) else Trans(before, i, a)
        case Unprotect(j) => Trans(before, if i < j then i else i + 1, a)
    }

    /** As many address spaces are left as protects were done and not undone. */
    lemma {:induction false} CountAtLeast(ops: seq<Op>, k: nat)
      requires k <= |ops|
      ensures Count(ops[..k]) + |Where(k, j => 0 <= j < |ops| && ops[j].Unprotect?)|
              >= |Where(k, j => 0 <= j < |ops| && ops[j].Protect?)|
    {
      if k > 0 {
        CountAtLeast(ops, k - 1);
        assert ops[..k][..k - 1] == ops[..k - 1];
        WhereNext(k - 1, j => 0 <= j < |ops| && ops[j].Unprotect?);
        WhereNext(k - 1, j => 0 <= j < |ops| && ops[j].Protect?);
      }
    }

    /** The last request for a page of an address space decides about it. */
    lemma {:induction false} LastMap(ops: seq<Op>, k: nat, a: nat)
      requires k < |ops| && ops[k].Map? && PageOf(vm.mmu, a) == PageOf(vm.mmu, ops[k].q.va)
      requires ops[k].i < Count(ops[..k])
      requires forall j :: k < j < |ops| ==> !(ops[j].Unprotect? && ops[j].i <= ops[k].i)
      requires forall j :: k < j < |ops| ==>
        !(ops[j].Map? && ops[j].i == ops[k].i && PageOf(vm.mmu, a) == PageOf(vm.mmu, ops[j].q.va))
      ensures ops[k].i < Count(ops) && Trans(ops, ops[k].i, a) == vm.Asked(ops[k].q.pa, ops[k].q.prot)
      decreases |ops|
    {
      var before := ops[..|ops| - 1];
      if k < |ops| - 1 {
        assert before[..k] == ops[..k];
        LastMap(before, k, a);
      } else {
        assert before == ops[..k];
      }
    }

    lemma {:induction false} NoMap(ops: seq<Op>, i: nat, a: nat)
      requires forall j :: 0 <= j < |ops| ==> !(ops[j].Map? && PageOf(vm.mmu, a) == PageOf(vm.mmu, ops[j].q.va))
      ensures Trans(ops, i, a).None?
      decreases |ops|
    {
      if ops != [] {
        var before := ops[..|ops| - 1];
        NoMap(before, i, a);
        if ops[|ops| - 1].Unprotect? { NoMap(before, i + 1, a); }
      }
    }

    /** The address spaces that a run leaves translate as it says. */
    ghost predicate Follows(ops: seq<Op>)
      requires vm.mmu.Valid()
      reads this, vm
    {
      FollowsIn(vm.pages, ptrs, ops)
    }

    ghost predicate FollowsIn(mem: Memory, ptrs: seq<nat>, ops: seq<Op>)
      requires vm.mmu.Valid()
    {
      && |ptrs| == Count(ops)
      && forall i, a :: 0 <= i < |ptrs| && vm.mmu.InUser(a) ==> Found(mem, ptrs[i], a) == Trans(ops, i, a)
    }

    function Found(mem: Memory, ptr: nat, a: nat): Option<Translation>
      requires vm.mmu.Levels() >= 1
    {
      Walk(vm.mmu, mem, Base(ptr, vm.mmu.offset), a, 1)
    }

    /** After a run of operations: the last request for a page, in an address space that was there and
        has not moved since, decides about the page. */
    lemma LastRequestDecides(ops: seq<Op>, k: nat, a: nat)
      requires vm.mmu.Valid() && Follows(ops) && k < |ops| && ops[k].Map?
      requires vm.mmu.InUser(a) && PageOf(vm.mmu, a) == PageOf(vm.mmu, ops[k].q.va)
      requires ops[k].i + |Where(k, j => 0 <= j < |ops| && ops[j].Unprotect?)|
               < |Where(k, j => 0 <= j < |ops| && ops[j].Protect?)|
      requires forall j :: k < j < |ops| ==> !(ops[j].Unprotect? && ops[j].i <= ops[k].i)
      requires forall j :: k < j < |ops| ==>
        !(ops[j].Map? && ops[j].i == ops[k].i && PageOf(vm.mmu, a) == PageOf(vm.mmu, ops[j].q.va))
      ensures ops[k].i < |ptrs|
      ensures var q := ops[k].q;
        LookupIn(ops[k].i, a) == if q.prot == 0 then None else Some(Translation(q.pa, (q.prot / 2) % 2 == 1, true))
    {
      CountAtLeast(ops, k);
      LastMap(ops, k, a);
      AskedMeans(vm, ops[k].q.pa, ops[k].q.prot);
      assert Found(vm.pages, ptrs[ops[k].i], a) == Trans(ops, ops[k].i, a);
    }

    /** A page that no request of the run is about is mapped in no address space. */
    lemma UnaskedIsUnmapped(ops: seq<Op>, i: nat, a: nat)
      requires vm.mmu.Valid() && Follows(ops) && i < |ptrs| && vm.mmu.InUser(a)
      requires forall j :: 0 <= j < |ops| ==> !(ops[j].Map? && PageOf(vm.mmu, a) == PageOf(vm.mmu, ops[j].q.va))
      ensures LookupIn(i, a).None?
    {
      NoMap(ops, i, a);
      assert Found(vm.pages, ptrs[i], a) == Trans(ops, i, a);
    }

    lemma AfterProtect(mem: Memory, mem': Memory, ptrs: seq<nat>, ptr: nat, hs: seq<Handle>, ops: seq<Op>)
      requires vm.mmu.Valid() && FollowsIn(mem, ptrs, ops) && Named(ptrs, hs)
      requires forall j :: 0 <= j < |hs| ==> SameTranslations(mem, mem', hs[j])
      requires forall a :: vm.mmu.InUser(a) ==> Found(mem', ptr, a).None?
      ensures FollowsIn(mem', ptrs + [ptr], ops + [Protect])
    {
      assert (ops + [Protect])[..|ops|] == ops;
      forall i, a | 0 <= i < |ptrs| && vm.mmu.InUser(a) ensures Found(mem', ptrs[i], a) == Trans(ops, i, a) {
        assert SameTranslations(mem, mem', hs[i]) && Found(mem, ptrs[i], a) == Trans(ops, i, a);
      }
    }

    lemma AfterMap(mem: Memory, mem': Memory, ptrs: seq<nat>, hs: seq<Handle>, i: nat, q: Request, done: bool,
                   ops: seq<Op>)
      requires vm.mmu.Valid() && FollowsIn(mem, ptrs, ops) && Named(ptrs, hs) && i < |ptrs|
      requires forall j :: 0 <= j < |hs| && j != i ==> SameTranslations(mem, mem', hs[j])
      requires Remapped(mem, mem', ptrs[i], done, q.va, vm.Asked(q.pa, q.prot))
      ensures FollowsIn(mem', ptrs, if done then ops + [Map(i, q)] else ops)
    {
      assert (ops + [Map(i, q)])[..|ops|] == ops;
      forall j, a | 0 <= j < |ptrs| && vm.mmu.InUser(a)
        ensures Found(mem', ptrs[j], a) == Trans(if done then ops + [Map(i, q)] else ops, j, a)
      {
        assert Found(mem, ptrs[j], a) == Trans(ops, j, a);
        if j != i { assert SameTranslations(mem, mem', hs[j]); }
      }
    }

    lemma AfterUnprotect(mem: Memory, mem': Memory, ptrs: seq<nat>, hs: seq<Handle>, i: nat, ops: seq<Op>)
      requires vm.mmu.Valid() && FollowsIn(mem, ptrs, ops) && Named(ptrs, hs) && i < |ptrs|
      requires forall h :: h in Removed(hs, i) ==> SameTranslations(mem, mem', h)
      ensures FollowsIn(mem', Removed(ptrs, i), ops + [Unprotect(i)])
    {
      assert (ops + [Unprotect(i)])[..|ops|] == ops;
      var ptrs', hs' := Removed(ptrs, i), Removed(hs, i);
      forall j, a | 0 <= j < |ptrs'| && vm.mmu.InUser(a)
        ensures Found(mem', ptrs'[j], a) == Trans(ops + [Unprotect(i)], j, a)
      {
        var k := if j < i then j else j + 1;
        assert hs'[j] in hs' && hs'[j] == hs[k] && ptrs'[j] == ptrs[k];
        assert SameTranslations(mem, mem', hs'[j]) && Found(mem, ptrs[k], a) == Trans(ops, k, a);
      }
    }

    /** How an operation ends; one on an address space that does not exist is none. */
    ghost function Ends(op: Op): Outcome
      requires vm.mmu.Valid() && |ptrs| == |hs|
      reads this, vm
    {
      match op
      case Protect => if vm.pool == [] then Panic(OutOfPages) else Done
      case Map(i, q) => if i < |ptrs| then VerdictIn(i, q) else Done
      case Unprotect(_) => Done
    }

    method Operate(op: Op, ghost ops: seq<Op>) returns (r: Outcome)
      requires Valid() && Follows(ops)
      modifies this, vm
      ensures Valid() && Follows(if r.Done? then ops + [op] else ops)
      ensures r == old(Ends(op)) && (!r.Done? ==> r == Ends(op))
    {
      r := Done;
      if !op.Protect? && op.i >= |ptrs| {
        AfterNothing(vm.pages, ptrs, op, ops);
        return;
      }
      match op
      case Protect => r := FollowProtect(ops);
      case Map(i, q) => r := FollowMap(i, q, ops);
      case Unprotect(i) => FollowUnprotect(i, ops);
    }

    lemma AfterNothing(mem: Memory, ptrs: seq<nat>, op: Op, ops: seq<Op>)
      requires vm.mmu.Valid() && FollowsIn(mem, ptrs, ops) && !op.Protect? && op.i >= |ptrs|
      ensures FollowsIn(mem, ptrs, ops + [op])
    {
      assert (ops + [op])[..|ops|] == ops;
      forall j, a | 0 <= j < |ptrs| && vm.mmu.InUser(a) ensures Found(mem, ptrs[j], a) == Trans(ops + [op], j, a) {
        assert Found(mem, ptrs[j], a) == Trans(ops, j, a);
      }
    }

    method FollowProtect(ghost ops: seq<Op>) returns (r: Outcome)
      requires Valid() && Follows(ops)
      modifies this, vm
      ensures Valid() && Follows(if r.Done? then ops + [Protect] else ops)
      ensures r == old(Ends(Protect)) && (!r.Done? ==> r == Ends(Protect))
    {
      ghost var mem, was, had := vm.pages, ptrs, hs;
      r := ProtectNew();
      if r.Done? {
        AfterProtect(mem, vm.pages, was, ptrs[|was|], had, ops);
        assert ptrs == was + [ptrs[|was|]];
      }
    }

    method FollowMap(i: nat, q: Request, ghost ops: seq<Op>) returns (r: Outcome)
      requires Valid() && Follows(ops) && i < |ptrs|
      modifies this, vm
      ensures Valid() && Follows(if r.Done? then ops + [Map(i, q)] else ops)
      ensures r == old(Ends(Map(i, q))) && (!r.Done? ==> r == Ends(Map(i, q)))
    {
      ghost var mem := vm.pages;
      r := MapNoted(i, q.va, q.pa, q.prot);
      AfterMap(mem, vm.pages, ptrs, hs, i, q, r.Done?, ops);
    }

    method FollowUnprotect(i: nat, ghost ops: seq<Op>)
      requires Valid() && Follows(ops) && i < |ptrs|
      modifies this, vm
      ensures Valid() && Follows(ops + [Unprotect(i)])
    {
      ghost var mem, was, had := vm.pages, ptrs, hs;
      UnprotectAt(i);
      AfterUnprotect(mem, vm.pages, was, had, i, ops);
    }

    /** unprotect of all address spaces. */
    method UnprotectAll()
      requires Valid()
      modifies this, vm
      ensures Valid() && vm.pages == boot && Addresses(vm.pool) == reserve
    {
      while |ptrs| > 0
        invariant Valid()
        decreases |ptrs|
      {
        UnprotectAt(0);
      }
      AllGone();
    }
  }

  /** protect; map in the address space at i; unprotect of it. */
  datatype Op = Protect | Map(i: nat, q: Request) | Unprotect(i: nat)

  /** Any run of operations on any number of address spaces: each translates as a map of its own,
      until an operation ends in a panic. */
  method RunOps(m: Mmu, memory: Memory, kernelTable: nat, free: seq<FreePage>, ops: seq<Op>)
    returns (s: Machine, r: Outcome, ghost n: nat)
    requires m.Valid() && Boot(m, memory, kernelTable, free)
    ensures s.Valid() && s.boot == memory && s.reserve == Addresses(free) && s.vm.mmu == m && fresh(s) && fresh(s.vm)
    ensures n <= |ops| && s.Follows(ops[..n])
    ensures if n == |ops| then r.Done? else !r.Done? && r == s.Ends(ops[n])
  {
    s := new Machine(m, memory, kernelTable, free);
    r := Done;
    for i := 0 to |ops|
      invariant s.Valid() && s.boot == memory && s.reserve == Addresses(free) && s.vm.mmu == m
      invariant fresh(s) && fresh(s.vm) && s.Follows(ops[..i])
    {
      assert ops[..i + 1] == ops[..i] + [ops[i]];
      r := s.Operate(ops[i], ops[..i]);
      if !r.Done? {
        return s, r, i;
      }
    }
    n, r := |ops|, Done;
  }

  /** After any run, unprotecting what is left gives back memory and all pages. */
  method RunAndRelease(m: Mmu, memory: Memory, kernelTable: nat, free: seq<FreePage>, ops: seq<Op>)
    returns (s: Machine)
    requires m.Valid() && Boot(m, memory, kernelTable, free)
    ensures s.vm.pages == memory && Addresses(s.vm.pool) == Addresses(free)
  {
    var r;
    ghost var n;
    s, r, n := RunOps(m, memory, kernelTable, free, ops);
    s.UnprotectAll();
  }
}
