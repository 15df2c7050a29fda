/** protect, map and unprotect of the x86 port: one address space, the page allocator it
    draws its tables from, and the physical memory they live in. */
module AddressSpace {
  import opened Bits
  import opened Paging
  import opened PageTree
  import opened Options

  const MMAP_NONE := 0
  const MMAP_WRITE := 2

  /** The arguments of one call of map. */
  datatype Request = Request(va: nat, pa: nat, prot: nat)

  datatype Reason = InvalidAddress | NotPageBoundary | OutOfPages | NotMapped | AlreadyMapped

  /** A panic stops the machine. */
  datatype Outcome = Done | Panic(reason: Reason)

  /** A page that the allocator has to give, with whatever was left in it. */
  datatype FreePage = FreePage(addr: nat, content: seq<nat>)

  ghost function Addresses(pool: seq<FreePage>): set<nat> {
    set k | 0 <= k < |pool| :: pool[k].addr
  }

  ghost predicate PoolOk(g: Geometry, pool: seq<FreePage>) {
    && (forall k :: 0 <= k < |pool| ==> Aligned(pool[k].addr, g.offset) && |pool[k].content| == g.entries)
    && (forall k, l :: 0 <= k < l < |pool| ==> pool[k].addr != pool[l].addr)
  }

  lemma TakeFirst(g: Geometry, pool: seq<FreePage>)
    requires PoolOk(g, pool) && |pool| > 0
    ensures PoolOk(g, pool[1..])
    ensures Addresses(pool) == Addresses(pool[1..]) + {pool[0].addr}
    ensures pool[0].addr !in Addresses(pool[1..])
  {
    assert forall k :: 0 <= k < |pool[1..]| ==> pool[1..][k] == pool[k + 1];
    forall x | x in Addresses(pool) ensures x in Addresses(pool[1..]) + {pool[0].addr} {
      var k :| 0 <= k < |pool| && pool[k].addr == x;
      if k > 0 { assert pool[1..][k - 1].addr == x; }
    }
  }

  lemma PutFirst(g: Geometry, pool: seq<FreePage>, f: FreePage)
    requires PoolOk(g, pool) && f.addr !in Addresses(pool)
    requires Aligned(f.addr, g.offset) && |f.content| == g.entries
    ensures PoolOk(g, [f] + pool)
    ensures Addresses([f] + pool) == Addresses(pool) + {f.addr}
  {
    assert ([f] + pool)[1..] == pool;
    forall k | 0 <= k < |pool| ensures pool[k].addr in Addresses(pool) {}
    TakeFirst(g, [f] + pool);
  }

  ghost function GeometryOf(m: Mmu): Geometry
    requires |m.tables| > 1
  {
    Geometry(m.Levels(), m.Entries(), m.offset, set i | 0 <= i < m.Entries() && m.KernelSlot(i))
  }

  /** What vme_init leaves: a kernel's table none of whose entries is a user one, and free pages
      that are not in memory yet. */
  ghost predicate Boot(m: Mmu, memory: Memory, kernelTable: nat, free: seq<FreePage>)
    requires |m.tables| > 1
  {
    && KernelOk(GeometryOf(m), memory, kernelTable)
    && PoolOk(GeometryOf(m), free) && Addresses(free) !! memory.Keys
  }

  /** A machine of either configuration. */
  method BootX86_64(memory: Memory, kernelTable: nat, free: seq<FreePage>) returns (s: AddrSpace)
    requires Boot(X86_64, memory, kernelTable, free)
    ensures s.Idle() && s.mmu == X86_64 && s.pages == memory && s.kpt == kernelTable && s.pool == free && fresh(s)
  {
    X86_64Valid();
    s := new AddrSpace(X86_64, memory, kernelTable, free);
  }

  method BootI386(memory: Memory, kernelTable: nat, free: seq<FreePage>) returns (s: AddrSpace)
    requires Boot(I386, memory, kernelTable, free)
    ensures s.Idle() && s.mmu == I386 && s.pages == memory && s.kpt == kernelTable && s.pool == free && fresh(s)
  {
    I386Valid();
    s := new AddrSpace(I386, memory, kernelTable, free);
  }

  /** The tables missing on the way along path, from level l on. */
  ghost function Need(tree: map<seq<nat>, nat>, path: seq<nat>, l: nat): nat
    decreases |path| - l
  {
    if l >= |path| then 0 else (if path[..l] in tree then 0 else 1) + Need(tree, path, l + 1)
  }

  /** How a step down draws on the pool: a missing table takes one page, and fails without one. */
  ghost predicate Drawn(tree: map<seq<nat>, nat>, tree': map<seq<nat>, nat>, p: seq<nat>, left: nat, left': nat,
                        next: Option<nat>)
  {
    if p in tree then next.Some? && tree' == tree && left' == left
    else if left == 0 then next.None? && tree' == tree && left' == 0
    else next.Some? && tree' == tree[p := next.value] && left' == left - 1
  }

  lemma {:induction false} NeedSame(tree: map<seq<nat>, nat>, tree': map<seq<nat>, nat>, path: seq<nat>, l: nat)
    requires forall k :: l <= k < |path| ==> (path[..k] in tree <==> path[..k] in tree')
    ensures Need(tree', path, l) == Need(tree, path, l)
    decreases |path| - l
  {
    if l < |path| { NeedSame(tree, tree', path, l + 1); }
  }

  /** A step down at level l keeps what the pool has beyond the need, and fails below it. */
  lemma NeedStep(tree: map<seq<nat>, nat>, tree': map<seq<nat>, nat>, path: seq<nat>, l: nat,
                 left: nat, left': nat, next: Option<nat>)
    requires 1 <= l < |path| && Drawn(tree, tree', path[..l], left, left', next)
    ensures next.Some? ==> left' - Need(tree', path, l + 1) == left - Need(tree, path, l)
    ensures next.None? ==> left < Need(tree, path, l) && left' == 0 && Need(tree', path, 1) > 0
  {
    assert forall k :: l < k < |path| ==> |path[..k]| != |path[..l]|;
    NeedSame(tree, tree', path, l + 1);
    if next.None? { NeedFrom(tree', path, l); }
  }

  lemma {:induction false} NeedFrom(tree: map<seq<nat>, nat>, path: seq<nat>, l: nat)
    requires 1 <= l < |path| && path[..l] !in tree
    ensures Need(tree, path, 1) > 0
  {
    NeedMore(tree, path, 1, l);
  }

  lemma {:induction false} NeedMore(tree: map<seq<nat>, nat>, path: seq<nat>, k: nat, l: nat)
    requires k <= l <= |path|
    ensures Need(tree, path, k) >= Need(tree, path, l)
    decreases l - k
  {
    if k < l { NeedMore(tree, path, k + 1, l); }
  }

  lemma {:induction false} NeedNone(tree: map<seq<nat>, nat>, path: seq<nat>, l: nat)
    requires forall k :: l <= k < |path| ==> path[..k] in tree
    ensures Need(tree, path, l) == 0
    decreases |path| - l
  {
    if l < |path| { NeedNone(tree, path, l + 1); }
  }

  class AddrSpace {
    const mmu: Mmu
    const kpt: nat
    var pages: Memory
    var pool: seq<FreePage>
    var ptr: nat
    /** The tables of the address space, the memory and the free pages from before protect. */
    ghost var tree: map<seq<nat>, nat>
    ghost var kmem: Memory
    ghost var reserve: set<nat>

    ghost function Geom(): Geometry
      requires mmu.Valid()
    {
      GeometryOf(mmu)
    }

    ghost function View(): Space
      reads this
    {
      Space(pages, Base(ptr, mmu.offset), tree, kmem, kpt)
    }

    /** Every page is in use or free, none both. */
    ghost predicate Accounted()
      reads this
      requires mmu.Valid()
    {
      && PoolOk(Geom(), pool)
      && Addresses(pool) !! pages.Keys
      && Addresses(pool) + tree.Values == reserve
    }

    /** Between unprotect and protect. */
    ghost predicate Idle()
      reads this
    {
      && mmu.Valid() && tree == map[] && pages == kmem
      && KernelOk(Geom(), kmem, kpt) && Accounted()
    }

    /** Between protect and unprotect. */
    ghost predicate Protected()
      reads this
    {
      && mmu.Valid() && Accounted()
      && And(ptr, PTE_P) != 0 && And(ptr, PTE_U) != 0
      && TreeOk(Geom(), View())
    }

    /** The indices of a user address. */
    ghost function UserIndices(va: nat): (p: seq<nat>)
      requires mmu.Valid() && mmu.InUser(va)
      ensures UserPath(Geom(), p) && Fits(mmu, Geom(), va, p)
    {
      var p := mmu.Path(va);
      assert forall l :: 1 <= l <= mmu.Levels() ==>
        p[l - 1] == mmu.Index(va, l) && mmu.Index(va, l) < mmu.Entries() by
      {
        forall l | 1 <= l <= mmu.Levels() ensures p[l - 1] == mmu.Index(va, l) < mmu.Entries() {
          IndexIsField(mmu, va, l);
        }
      }
      p
    }

    /** No address space yet: the memory with the kernel's table in it, and the free pages. */
    constructor (m: Mmu, memory: Memory, kernelTable: nat, free: seq<FreePage>)
      requires m.Valid() && Boot(m, memory, kernelTable, free)
      ensures Idle() && mmu == m && pages == memory && kpt == kernelTable && pool == free
    {
      mmu, pages, kpt, pool, ptr := m, memory, kernelTable, free, 0;
      tree, kmem, reserve := map[], memory, Addresses(free);
    }

    /** What the processor finds for an address. */
    function Lookup(va: nat): Option<Translation>
      requires mmu.Levels() >= 1
      reads this
    {
      Walk(mmu, pages, Base(ptr, mmu.offset), va, 1)
    }

    method PgAlloc() returns (page: Option<nat>)
      requires mmu.Valid() && PoolOk(Geom(), pool) && Addresses(pool) !! pages.Keys
      modifies `pages, `pool
      ensures PoolOk(Geom(), pool) && Addresses(pool) !! pages.Keys
      ensures page.None? <==> old(pool) == []
      ensures page.None? ==> pool == [] && pages == old(pages)
      ensures page.Some? ==> |pool| == |old(pool)| - 1
      ensures page.Some? ==> page.value !in old(pages) && Aligned(page.value, mmu.offset)
      ensures page.Some? ==> Addresses(old(pool)) == Addresses(pool) + {page.value} && page.value !in Addresses(pool)
      ensures page.Some? ==> exists junk :: |junk| == mmu.Entries() && pages == old(pages)[page.value := junk]
    {
      if pool == [] {
        return None;
      }
      TakeFirst(Geom(), pool);
      var f := pool[0];
      assert f.addr in Addresses(pool);
      pages := pages[f.addr := f.content];
      pool := pool[1..];
      page := Some(f.addr);
    }

    /** pgallocz: a page of zeros. */
    method PgAllocZ() returns (page: Option<nat>)
      requires mmu.Valid() && PoolOk(Geom(), pool) && Addresses(pool) !! pages.Keys
      modifies `pages, `pool
      ensures PoolOk(Geom(), pool) && Addresses(pool) !! pages.Keys
      ensures page.None? <==> old(pool) == []
      ensures page.None? ==> pool == [] && pages == old(pages)
      ensures page.Some? ==> |pool| == |old(pool)| - 1
      ensures page.Some? ==> page.value !in old(pages) && Aligned(page.value, mmu.offset)
      ensures page.Some? ==> Addresses(old(pool)) == Addresses(pool) + {page.value} && page.value !in Addresses(pool)
      ensures page.Some? ==> pages == old(pages)[page.value := seq(mmu.Entries(), _ => 0)]
    {
      page := PgAlloc();
      if page.Some? {
        var base := page.value;
        var i := 0;
        while i < mmu.Entries()
          modifies `pages
          invariant 0 <= i <= mmu.Entries()
          invariant base in pages && |pages[base]| == mmu.Entries()
          invariant pages == old(pages)[base := pages[base]]
          invariant forall k :: 0 <= k < i ==> pages[base][k] == 0
        {
          pages := pages[base := pages[base][i := 0]];
          i := i + 1;
        }
        assert pages[base] == seq(mmu.Entries(), _ => 0);
      }
    }

    method PgFree(page: nat)
      requires mmu.Valid() && PoolOk(Geom(), pool) && Addresses(pool) !! pages.Keys
      requires page in pages && Aligned(page, mmu.offset) && |pages[page]| == mmu.Entries()
      modifies `pages, `pool
      ensures PoolOk(Geom(), pool) && Addresses(pool) !! pages.Keys
      ensures Addresses(pool) == Addresses(old(pool)) + {page}
      ensures pages == old(pages) - {page}
    {
      PutFirst(Geom(), pool, FreePage(page, pages[page]));
      pool := [FreePage(page, pages[page])] + pool;
      pages := pages - {page};
    }

    /** One level down: the table that entry `index` of table `cur` points to, made if missing. */
    method NextTable(cur: nat, index: nat, flags: nat, ghost p: seq<nat>) returns (next: Option<nat>)
      requires Protected() && flags == PTE_W + PTE_U
      requires p in tree && tree[p] == cur && |p| + 1 < mmu.Levels() && index < mmu.Entries()
      requires |p| == 0 ==> !mmu.KernelSlot(index)
      modifies `pages, `pool, `tree
      ensures Protected() && Extends(Geom(), old(View()), View()) && reserve == old(reserve)
      ensures next.Some? ==> p + [index] in tree && tree[p + [index]] == next.value
      ensures next.None? ==> p + [index] !in old(tree)
      ensures Drawn(old(tree), tree, p + [index], |old(pool)|, |pool|, next)
    {
      EntryMeans(View(), p, index);
      var e := pages[cur][index];
      if And(e, PTE_P) == 0 {
        next := AddTable(cur, index, flags, p);
      } else {
        next := Some(Base(e, mmu.offset));
      }
    }

    /** An entry above the last level is present exactly when the tree goes on there. */
    lemma EntryMeans(s: Space, p: seq<nat>, index: nat)
      requires mmu.Valid() && TreeOk(Geom(), s)
      requires p in s.tree && |p| + 1 < mmu.Levels() && index < mmu.Entries()
      requires |p| == 0 ==> !mmu.KernelSlot(index)
      ensures s.tree[p] in s.mem && index < |s.mem[s.tree[p]]|
      ensures And(s.mem[s.tree[p]][index], PTE_P) == 0 <==> Missing(Geom(), s, p, index)
      ensures p + [index] in s.tree ==> Base(s.mem[s.tree[p]][index], mmu.offset) == s.tree[p + [index]]
    {
      NoEntry();
      EntryInTable(Geom(), s, p, index);
      if p + [index] in s.tree {
        assert TableOk(Geom(), s, p + [index]);
        TableEntry(s.tree[p + [index]], mmu.offset);
      }
    }

    method AddTable(cur: nat, index: nat, flags: nat, ghost p: seq<nat>) returns (next: Option<nat>)
      requires Protected() && flags == PTE_W + PTE_U
      requires Missing(Geom(), View(), p, index) && tree[p] == cur
      modifies `pages, `pool, `tree
      ensures Protected() && Extends(Geom(), old(View()), View()) && reserve == old(reserve)
      ensures next.Some? ==> p + [index] in tree && tree[p + [index]] == next.value
      ensures next.None? ==> p + [index] !in old(tree)
      ensures Drawn(old(tree), tree, p + [index], |old(pool)|, |pool|, next)
    {
      ghost var before := View();
      next := NewTable();
      if next.Some? {
        LinkTable(cur, index, flags, next.value, p, before);
      }
    }

    /** A page for a table, not linked yet. */
    method NewTable() returns (next: Option<nat>)
      requires Protected()
      modifies `pages, `pool
      ensures next.None? <==> old(pool) == []
      ensures next.None? ==> View() == old(View()) && pool == [] && Protected() && Extends(Geom(), old(View()), View())
      ensures next.Some? ==> next.value !in old(pages) && Aligned(next.value, mmu.offset) && |pool| == |old(pool)| - 1
      ensures next.Some? ==> View() == old(View()).(mem := old(pages)[next.value := seq(mmu.Entries(), _ => 0)])
      ensures PoolOk(Geom(), pool) && Addresses(pool) !! pages.Keys
      ensures next.Some? ==> Addresses(pool) + (tree.Values + {next.value}) == reserve
    {
      next := PgAllocZ();
    }

    /** Links the fresh page just allocated, which is in no list now, into the tree. */
    method LinkTable(cur: nat, index: nat, flags: nat, page: nat, ghost p: seq<nat>, ghost before: Space)
      requires mmu.Valid() && TreeOk(Geom(), before) && flags == PTE_W + PTE_U
      requires Missing(Geom(), before, p, index) && before.tree[p] == cur
      requires page !in before.mem && Aligned(page, mmu.offset)
      requires View() == before.(mem := before.mem[page := seq(mmu.Entries(), _ => 0)])
      requires PoolOk(Geom(), pool) && Addresses(pool) !! pages.Keys
      requires Addresses(pool) + (tree.Values + {page}) == reserve
      requires And(ptr, PTE_P) != 0 && And(ptr, PTE_U) != 0
      modifies `pages, `tree
      ensures Protected() && Extends(Geom(), before, View())
      ensures tree == old(tree)[p + [index] := page]
      ensures p + [index] in tree && tree[p + [index]] == page
    {
      GrowTree(cur, index, flags, page, p, before);
    }

    method GrowTree(cur: nat, index: nat, flags: nat, page: nat, ghost p: seq<nat>, ghost before: Space)
      requires mmu.Valid() && TreeOk(Geom(), before) && flags == PTE_W + PTE_U
      requires Missing(Geom(), before, p, index) && before.tree[p] == cur
      requires page !in before.mem && Aligned(page, mmu.offset)
      requires View() == before.(mem := before.mem[page := seq(mmu.Entries(), _ => 0)])
      modifies `pages, `tree
      ensures TreeOk(Geom(), View()) && Extends(Geom(), before, View())
      ensures pages.Keys == old(pages.Keys) && tree.Values == old(tree.Values) + {page}
      ensures tree == old(tree)[p + [index] := page]
      ensures p + [index] in tree && tree[p + [index]] == page
    {
      ghost var zeros := seq(mmu.Entries(), _ => 0);
      WithTableExtends(Geom(), before, p, index, page, zeros);
      StoreLink(cur, index, flags, page, p, before, zeros);
    }

    method StoreLink(cur: nat, index: nat, flags: nat, page: nat, ghost p: seq<nat>, ghost before: Space,
                     ghost zeros: seq<nat>)
      requires mmu.Valid() && p in before.tree && before.tree[p] == cur && cur in before.mem && cur != page
      requires index < |before.mem[cur]| && Aligned(page, mmu.offset) && flags == PTE_W + PTE_U
      requires View() == before.(mem := before.mem[page := zeros])
      modifies `pages, `tree
      ensures View() == WithTable(before, p, index, page, zeros)
      ensures tree == old(tree)[p + [index] := page] && pages.Keys == old(pages.Keys)
    {
      JoinFlags(page, PTE_P, flags, mmu.offset);
      var row: seq<nat> := pages[cur][index := Or(Or(page, PTE_P), flags)];
      pages := pages[cur := row];
      tree := tree[p + [index] := page];
    }

    /** One level down along the indices of a user address. */
    method Descend(addr: nat, i: nat, cur: nat, flags: nat, ghost path: seq<nat>, ghost before: Space)
      returns (next: Option<nat>)
      requires Protected() && Extends(Geom(), before, View()) && flags == PTE_W + PTE_U
      requires UserPath(Geom(), path) && Fits(mmu, Geom(), addr, path)
      requires 1 <= i < mmu.Levels() && path[..i - 1] in tree && cur == tree[path[..i - 1]]
      modifies `pages, `pool, `tree
      ensures Protected() && Extends(Geom(), before, View()) && reserve == old(reserve)
      ensures next.Some? ==> path[..i] in tree && next.value == tree[path[..i]]
      ensures next.None? ==> path[..i] !in before.tree
      ensures Drawn(old(tree), tree, path[..i], |old(pool)|, |pool|, next)
    {
      ghost var middle := View();
      SplitLast(path, i);
      next := NextTable(cur, mmu.Index(addr, i), flags, path[..i - 1]);
      ExtendsTransitive(Geom(), before, middle, View());
    }

    /** One iteration of ptwalk, with what it costs. */
    method WalkStep(addr: nat, i: nat, cur: nat, flags: nat, ghost path: seq<nat>, ghost before: Space,
                    ghost spare: int)
      returns (next: Option<nat>)
      requires Protected() && Extends(Geom(), before, View()) && flags == PTE_W + PTE_U
      requires UserPath(Geom(), path) && Fits(mmu, Geom(), addr, path)
      requires 1 <= i < mmu.Levels() && path[..i - 1] in tree && cur == tree[path[..i - 1]]
      requires |pool| - Need(tree, path, i) == spare
      modifies `pages, `pool, `tree
      ensures Protected() && Extends(Geom(), before, View()) && reserve == old(reserve)
      ensures next.Some? ==> path[..i] in tree && next.value == tree[path[..i]]
      ensures next.Some? ==> |pool| - Need(tree, path, i + 1) == spare
      ensures next.None? ==> path[..i] !in before.tree && spare < 0 && pool == [] && Need(tree, path, 1) > 0
    {
      ghost var was, left := tree, |pool|;
      next := Descend(addr, i, cur, flags, path, before);
      NeedStep(was, tree, path, i, left, |pool|, next);
    }

    lemma RootIsTable(path: seq<nat>)
      requires Protected()
      ensures path[..0] in tree && tree[path[..0]] == Base(ptr, mmu.offset)
      ensures Extends(Geom(), View(), View())
    {
      assert path[..0] == [];
    }

    lemma LeafNeedsAll(path: seq<nat>)
      requires Protected() && UserPath(Geom(), path)
      ensures forall i :: 1 <= i < mmu.Levels() && path[..i] !in tree ==> path[..mmu.Levels() - 1] !in tree
    {
      forall i | 1 <= i < mmu.Levels() && path[..i] !in tree ensures path[..mmu.Levels() - 1] !in tree {
        MissingOnTheWay(Geom(), View(), path, i);
      }
    }

    /** The last-level slot of a user address, with the tables on the way made if missing. */
    method Ptwalk(addr: nat, flags: nat, ghost path: seq<nat>) returns (slot: Option<(nat, nat)>)
      requires Protected() && flags == PTE_W + PTE_U
      requires UserPath(Geom(), path) && Fits(mmu, Geom(), addr, path)
      modifies `pages, `pool, `tree
      ensures Protected() && Extends(Geom(), old(View()), View()) && reserve == old(reserve)
      ensures slot.Some? ==> path[..mmu.Levels() - 1] in tree
      ensures slot.Some? ==> slot.value == (tree[path[..mmu.Levels() - 1]], path[mmu.Levels() - 1])
      ensures slot.None? ==> path[..mmu.Levels() - 1] !in old(tree)
      ensures slot.None? <==> |old(pool)| < Need(old(tree), path, 1)
      ensures slot.Some? ==> |pool| == |old(pool)| - Need(old(tree), path, 1)
      ensures slot.None? ==> pool == [] && Need(tree, path, 1) > 0
    {
      ghost var before, spare := View(), |pool| - Need(tree, path, 1);
      RootIsTable(path);
      LeafNeedsAll(path);
      var i, cur := 1, Base(ptr, mmu.offset);
      while i < mmu.Levels()
        modifies `pages, `pool, `tree
        invariant 1 <= i <= mmu.Levels()
        invariant Protected() && Extends(Geom(), before, View()) && reserve == old(reserve)
        invariant path[..i - 1] in tree && cur == tree[path[..i - 1]]
        invariant |pool| - Need(tree, path, i) == spare
      {
        var next := WalkStep(addr, i, cur, flags, path, before, spare);
        if next.None? { return None; }
        cur := next.value;
        i := i + 1;
      }
      slot := Some((cur, mmu.Index(addr, i)));
    }

    /** Lookup is the last-level entry read as the processor reads it. */
    lemma LookupIsLeaf(s: Space, va: nat)
      requires mmu.Valid() && TreeOk(Geom(), s) && mmu.InUser(va)
      ensures Walk(mmu, s.mem, s.root, va, 1) == LeafTranslation(Leaf(s, UserIndices(va)), mmu.offset)
    {
      WalkIsLeaf(mmu, Geom(), s, va, UserIndices(va));
    }

    /** If one last-level entry became e, one page translates as e says and the others as before. */
    lemma OnePageChanged(s: Space, s': Space, va: nat, e: nat, a: nat)
      requires mmu.Valid() && TreeOk(Geom(), s) && TreeOk(Geom(), s') && mmu.InUser(va) && mmu.InUser(a)
      requires forall p :: UserPath(Geom(), p) ==> Leaf(s', p) == if p == UserIndices(va) then e else Leaf(s, p)
      ensures Walk(mmu, s'.mem, s'.root, a, 1) ==
        if PageOf(mmu, a) == PageOf(mmu, va) then LeafTranslation(e, mmu.offset) else Walk(mmu, s.mem, s.root, a, 1)
    {
      LookupIsLeaf(s, a);
      LookupIsLeaf(s', a);
      SamePathIffSamePage(mmu, a, va);
    }

    lemma NothingChanged(s: Space, s': Space, a: nat)
      requires mmu.Valid() && TreeOk(Geom(), s) && TreeOk(Geom(), s') && mmu.InUser(a)
      requires Extends(Geom(), s, s')
      ensures Walk(mmu, s'.mem, s'.root, a, 1) == Walk(mmu, s.mem, s.root, a, 1)
    {
      LookupIsLeaf(s, a);
      LookupIsLeaf(s', a);
    }

    /** A kernel address translates as it did before protect, under the kernel's own tables. */
    lemma KernelLookup(va: nat)
      requires Protected()
      requires mmu.KernelSlot(mmu.Index(va, 1)) && WalkInside(mmu, kmem, kpt, va, 1)
      ensures Lookup(va) == Walk(mmu, kmem, kpt, va, 1)
    {
      IndexIsField(mmu, va, 1);
      KernelWalk(mmu, Geom(), View(), va);
    }

    /** Stores a last-level entry. */
    method SetLeaf(table: nat, index: nat, e: nat, ghost path: seq<nat>)
      requires Protected() && UserPath(Geom(), path)
      requires path[..mmu.Levels() - 1] in tree
      requires table == tree[path[..mmu.Levels() - 1]] && index == path[mmu.Levels() - 1]
      requires e == 0 || (And(e, PTE_P) != 0 && And(e, PTE_U) != 0)
      modifies `pages
      ensures Protected() && kmem == old(kmem) && tree == old(tree) && reserve == old(reserve)
      ensures forall p :: UserPath(Geom(), p) ==> Leaf(View(), p) == if p == path then e else old(Leaf(View(), p))
    {
      ghost var before, q := View(), path[..mmu.Levels() - 1];
      EntryInTable(Geom(), before, q, index);
      WithLeafOk(Geom(), before, q, index, e);
      var row: seq<nat> := pages[table][index := e];
      pages := pages[table := row];
      assert View() == WithLeaf(before, q, index, e);
      assert pages.Keys == old(pages.Keys);
      forall p | UserPath(Geom(), p) ensures Leaf(View(), p) == if p == path then e else Leaf(before, p) {
        WithLeafLeaf(Geom(), before, path, e, p);
      }
    }

    /** What map asks for: a user page that may be written if the digit of weight 2 is set. */
    function Asked(pa: nat, prot: nat): Option<Translation> {
      if prot == MMAP_NONE then None else Some(Translation(pa, And(prot, MMAP_WRITE) != 0, true))
    }

    /** How a call of map ends for an address that translates to `was`, when `left` pages are free:
        the first of its checks that fails, where the check between the arguments and the entry is
        that the pool holds the tables missing on the way. */
    ghost function Judged(q: Request, left: nat, tables: map<seq<nat>, nat>, was: Option<Translation>): Outcome
      requires mmu.Valid()
    {
      if !mmu.InUser(q.va) then Panic(InvalidAddress)
      else if !mmu.PageAligned(q.va) || !mmu.PageAligned(q.pa) then Panic(NotPageBoundary)
      else if left < Need(tables, UserIndices(q.va), 1) then Panic(OutOfPages)
      else if q.prot == MMAP_NONE && was.None? then Panic(NotMapped)
      else if q.prot != MMAP_NONE && was.Some? then Panic(AlreadyMapped)
      else Done
    }

    /** The same here and now. */
    ghost function Verdict(q: Request): Outcome
      requires Protected()
      reads this
    {
      Judged(q, |pool|, tree, Lookup(q.va))
    }

    /** map: maps or unmaps one user page, and changes no other translation. It panics exactly
        when a check fails, and then the check still fails afterwards. */
    method Map(va: nat, pa: nat, prot: nat) returns (r: Outcome)
      requires Protected()
      modifies `pages, `pool, `tree
      ensures Protected() && kmem == old(kmem) && reserve == old(reserve)
      ensures r == old(Verdict(Request(va, pa, prot))) && (!r.Done? ==> r == Verdict(Request(va, pa, prot)))
      ensures r == Panic(InvalidAddress) <==> !mmu.InUser(va)
      ensures r == Panic(NotPageBoundary) <==> mmu.InUser(va) && !(mmu.PageAligned(va) && mmu.PageAligned(pa))
      ensures r == Panic(NotMapped) ==> prot == 0 && old(Lookup(va)).None?
      ensures r == Panic(AlreadyMapped) ==> prot != 0 && old(Lookup(va)).Some?
      ensures r == Panic(OutOfPages) ==> pool == []
      ensures r.Done? ==> (prot == 0 <==> old(Lookup(va)).Some?)
      ensures forall a :: mmu.InUser(a) ==>
        Lookup(a) == if r.Done? && PageOf(mmu, a) == PageOf(mmu, va) then
                       if prot == 0 then None else Some(Translation(pa, (prot / 2) % 2 == 1, true))
                     else old(Lookup(a))
      ensures r.Done? ==>
        Leaf(View(), UserIndices(va)) == if prot == 0 then 0 else pa + if (prot / 2) % 2 == 1 then 7 else 5
    {
      if !mmu.InUser(va) {
        return Panic(InvalidAddress);
      }
      if !mmu.PageAligned(va) || !mmu.PageAligned(pa) {
        return Panic(NotPageBoundary);
      }
      AskedMeans(this, pa, prot);
      r := MapPage(va, pa, prot);
    }

    /** map after its checks of the arguments. */
    method MapPage(va: nat, pa: nat, prot: nat) returns (r: Outcome)
      requires Protected() && mmu.InUser(va) && mmu.PageAligned(va) && mmu.PageAligned(pa)
      modifies `pages, `pool, `tree
      ensures Protected() && kmem == old(kmem) && reserve == old(reserve)
      ensures r == old(Verdict(Request(va, pa, prot))) && (!r.Done? ==> r == Verdict(Request(va, pa, prot)))
      ensures forall a :: mmu.InUser(a) ==>
        Lookup(a) == if r.Done? && PageOf(mmu, a) == PageOf(mmu, va) then Asked(pa, prot) else old(Lookup(a))
      ensures r.Done? ==>
        Leaf(View(), UserIndices(va)) == if prot == 0 then 0 else pa + if (prot / 2) % 2 == 1 then 7 else 5
      ensures r == Panic(OutOfPages) ==> pool == []
    {
      ghost var path, before := UserIndices(va), View();
      ghost var e;
      r, e := WalkAndSet(va, pa, prot, path, before);
      if r.Done? {
        var slot := Ptwalk(va, PTE_W + PTE_U, path);
      }
      Remapped(before, View(), r.Done?, va, e);
    }

    /** What map does to the last-level entries, as translations. */
    lemma Remapped(s: Space, s': Space, done: bool, va: nat, e: nat)
      requires mmu.Valid() && TreeOk(Geom(), s) && TreeOk(Geom(), s') && mmu.InUser(va)
      requires !done ==> Extends(Geom(), s, s')
      requires done ==> forall p :: UserPath(Geom(), p) ==>
        Leaf(s', p) == if p == UserIndices(va) then e else Leaf(s, p)
      ensures forall a :: mmu.InUser(a) ==>
        (Walk(mmu, s'.mem, s'.root, a, 1) ==
          if done && PageOf(mmu, a) == PageOf(mmu, va) then LeafTranslation(e, mmu.offset)
          else Walk(mmu, s.mem, s.root, a, 1))
      ensures Walk(mmu, s.mem, s.root, va, 1) == LeafTranslation(Leaf(s, UserIndices(va)), mmu.offset)
    {
      LookupIsLeaf(s, va);
      forall a | mmu.InUser(a)
        ensures Walk(mmu, s'.mem, s'.root, a, 1) ==
          if done && PageOf(mmu, a) == PageOf(mmu, va) then LeafTranslation(e, mmu.offset)
          else Walk(mmu, s.mem, s.root, a, 1)
      {
        if done { OnePageChanged(s, s', va, e, a); } else { NothingChanged(s, s', a); }
      }
    }

    /** The first walk of map and the update of the entry it finds. */
    method WalkAndSet(va: nat, pa: nat, prot: nat, ghost path: seq<nat>, ghost before: Space)
      returns (r: Outcome, ghost e: nat)
      requires Protected() && mmu.PageAligned(pa) && before == View()
      requires UserPath(Geom(), path) && Fits(mmu, Geom(), va, path)
      modifies `pages, `pool, `tree
      ensures Protected() && kmem == old(kmem) && reserve == old(reserve)
      ensures var was := LeafTranslation(Leaf(before, path), mmu.offset);
        r == if |old(pool)| < Need(old(tree), path, 1) then Panic(OutOfPages)
             else if prot == MMAP_NONE && was.None? then Panic(NotMapped)
             else if prot != MMAP_NONE && was.Some? then Panic(AlreadyMapped)
             else Done
      ensures if r == Panic(OutOfPages) then pool == [] && Need(tree, path, 1) > 0 else Need(tree, path, 1) == 0
      ensures !r.Done? ==> Extends(Geom(), before, View())
      ensures r.Done? ==> LeafTranslation(e, mmu.offset) == Asked(pa, prot)
      ensures r.Done? ==> e == if prot == 0 then 0 else pa + if (prot / 2) % 2 == 1 then 7 else 5
      ensures r.Done? ==> forall p :: UserPath(Geom(), p) ==>
        Leaf(View(), p) == if p == path then e else Leaf(before, p)
    {
      var slot := Ptwalk(va, PTE_W + PTE_U, path);
      if slot.None? {
        return Panic(OutOfPages), 0;
      }
      NoNeed(path);
      r, e := SetEntry(slot.value.0, slot.value.1, pa, prot, path, before);
    }

    /** Where the last-level table exists, none is missing on the way. */
    lemma NoNeed(path: seq<nat>)
      requires Protected() && UserPath(Geom(), path) && path[..mmu.Levels() - 1] in tree
      ensures Need(tree, path, 1) == 0
    {
      forall l: nat | 1 <= l < |path| ensures path[..l] in tree {
        TablesOnTheWay(Geom(), View(), path, l);
      }
      NeedNone(tree, path, 1);
    }

    /** The update of the last-level entry by map. */
    method SetEntry(table: nat, index: nat, pa: nat, prot: nat, ghost path: seq<nat>, ghost before: Space)
      returns (r: Outcome, ghost e: nat)
      requires Protected() && mmu.PageAligned(pa) && UserPath(Geom(), path)
      requires path[..mmu.Levels() - 1] in tree
      requires table == tree[path[..mmu.Levels() - 1]] && index == path[mmu.Levels() - 1]
      requires Extends(Geom(), before, View())
      modifies `pages
      ensures Protected() && kmem == old(kmem) && tree == old(tree) && reserve == old(reserve)
      ensures var was := LeafTranslation(Leaf(before, path), mmu.offset);
        r == if prot == MMAP_NONE && was.None? then Panic(NotMapped)
             else if prot != MMAP_NONE && was.Some? then Panic(AlreadyMapped)
             else Done
      ensures !r.Done? ==> Extends(Geom(), before, View())
      ensures r.Done? ==> LeafTranslation(e, mmu.offset) == Asked(pa, prot)
      ensures r.Done? ==> e == if prot == 0 then 0 else pa + if (prot / 2) % 2 == 1 then 7 else 5
      ensures r.Done? ==> forall p :: UserPath(Geom(), p) ==>
        Leaf(View(), p) == if p == path then e else Leaf(before, p)
    {
      EntryInTable(Geom(), View(), path[..mmu.Levels() - 1], index);
      var entry := pages[table][index];
      assert entry == Leaf(View(), path);
      e := 0;
      if prot == MMAP_NONE {
        if And(entry, PTE_P) == 0 {
          return Panic(NotMapped), 0;
        }
        NoEntry();
        SetLeaf(table, index, 0, path);
      } else {
        if And(entry, PTE_P) != 0 {
          return Panic(AlreadyMapped), 0;
        }
        WriteDigit(prot);
        UserEntry(pa, And(prot, MMAP_WRITE) != 0, mmu.offset);
        var pte := Or(Or(Or(pa, PTE_P), PTE_U), if And(prot, MMAP_WRITE) != 0 then PTE_W else 0);
        SetLeaf(table, index, pte, path);
        e := pte;
      }
      r := Done;
    }

    /** The inner loop of protect: copies the kernel's entries for one area. */
    method CopyArea(upt: nat, area: Area)
      requires mmu.Valid() && mmu.SlotAligned(area)
      requires upt in pages && kpt in pages && upt != kpt
      requires |pages[upt]| == |pages[kpt]| == mmu.Entries()
      modifies `pages
      ensures upt in pages && |pages[upt]| == mmu.Entries() && pages == old(pages)[upt := pages[upt]]
      ensures forall k :: 0 <= k < mmu.Entries() ==>
        pages[upt][k] == if mmu.InSlots(area, k) then old(pages)[kpt][k] else old(pages)[upt][k]
    {
      ghost var s := mmu.tables[1].shift;
      ghost var slot, last := Shr(area.start, s), Shr(mmu.End(area), s);
      var cur := area.start;
      StartsBelow(slot, last, s);
      while cur != area.end
        modifies `pages
        invariant Shr(area.start, s) <= slot <= last
        invariant slot < last ==> cur == Shl(slot, s) && cur != area.end
        invariant slot == last ==> cur == area.end
        invariant upt in pages && |pages[upt]| == mmu.Entries() && pages == old(pages)[upt := pages[upt]]
        invariant forall k :: 0 <= k < mmu.Entries() ==>
          pages[upt][k] == if Shr(area.start, s) <= k < slot then old(pages)[kpt][k] else old(pages)[upt][k]
        decreases last - slot
      {
        SlotIndex(mmu, slot);
        var index := mmu.Index(cur, 1);
        var row: seq<nat> := pages[upt][index := pages[kpt][index]];
        pages := pages[upt := row];
        NextSlot(mmu, area, slot);
        cur := (cur + Shl(1, mmu.tables[1].shift)) % mmu.word;
        slot := slot + 1;
      }
    }

    /** The entry that protect leaves in slot k after the first i areas. */
    ghost predicate Copied(i: int, k: nat)
      requires mmu.Valid() && i <= |mmu.areas|
    {
      exists j :: 0 <= j < i && mmu.areas[j].kernel && mmu.InSlots(mmu.areas[j].area, k)
    }

    ghost predicate TopRow(upt: nat, i: int)
      reads this
      requires mmu.Valid() && i <= |mmu.areas| && kpt in kmem && |kmem[kpt]| == mmu.Entries()
    {
      && upt in pages && |pages[upt]| == mmu.Entries()
      && pages == kmem[upt := pages[upt]]
      && forall k :: 0 <= k < mmu.Entries() ==> pages[upt][k] == if Copied(i, k) then kmem[kpt][k] else 0
    }

    /** protect: a new address space with the kernel's entries and nothing mapped. */
    method Protect() returns (r: Outcome)
      requires Idle()
      modifies this
      ensures kmem == old(kmem) && reserve == old(reserve)
      ensures r.Done? ==> Protected() && forall a :: mmu.InUser(a) ==> Lookup(a).None?
      ensures r.Done? <==> old(pool) != []
      ensures !r.Done? ==> r == Panic(OutOfPages) && Idle() && pages == old(pages) && pool == []
    {
      var page := PgAllocZ();
      if page.None? {
        return Panic(OutOfPages);
      }
      var upt := page.value;
      CopyKernel(upt);
      RootFlags(upt, mmu.offset);
      JoinFlags(upt, PTE_P, PTE_U, mmu.offset);
      ptr := Or(Or(upt, PTE_P), PTE_U);
      tree := map[[] := upt];
      NewTree(upt);
      r := Done;
    }

    /** The outer loop of protect. */
    method CopyKernel(upt: nat)
      requires mmu.Valid() && KernelOk(Geom(), kmem, kpt) && upt !in kmem
      requires pages == kmem[upt := seq(mmu.Entries(), _ => 0)]
      modifies `pages
      ensures TopRow(upt, |mmu.areas|)
    {
      var i := 0;
      while i < |mmu.areas|
        modifies `pages
        invariant 0 <= i <= |mmu.areas|
        invariant TopRow(upt, i)
      {
        if mmu.areas[i].kernel {
          CopyArea(upt, mmu.areas[i].area);
        }
        assert forall k: nat :: Copied(i + 1, k) <==>
          Copied(i, k) || (mmu.areas[i].kernel && mmu.InSlots(mmu.areas[i].area, k));
        i := i + 1;
      }
    }

    /** The single new table is a tree that maps nothing. */
    lemma NewTree(upt: nat)
      requires mmu.Valid() && KernelOk(Geom(), kmem, kpt) && TopRow(upt, |mmu.areas|) && upt !in kmem
      requires Aligned(upt, mmu.offset) && Base(ptr, mmu.offset) == upt && tree == map[[] := upt]
      ensures TreeOk(Geom(), View())
      ensures forall a :: mmu.InUser(a) ==> Lookup(a).None?
    {
      var none: map<seq<nat>, nat> := map[];
      ValuesInsert(none, [], upt);
      assert tree == none[[] := upt];
      forall k | 0 <= k < mmu.Entries() ensures EntryOk(Geom(), View(), [], k, pages[upt][k]) {
        assert k in Geom().kernel <==> Copied(|mmu.areas|, k);
        assert |[] + [k]| == 1;
      }
      assert TableOk(Geom(), View(), []);
      NoEntry();
      forall a | mmu.InUser(a) ensures Lookup(a).None? {
        LookupIsLeaf(View(), a);
      }
    }

    /** The tables of the subtree at p are as they were in s. */
    ghost predicate Untouched(s: Space, p: seq<nat>)
      reads this
    {
      forall q :: q in s.tree && p <= q ==>
        s.tree[q] in s.mem && s.tree[q] in pages && pages[s.tree[q]] == s.mem[s.tree[q]]
    }

    ghost function Freed(level: nat, s: Space, p: seq<nat>): set<nat> {
      if level > mmu.Levels() then {} else Under(s.tree, p)
    }

    /** teardown: frees the tables of a subtree, and with them nothing else. */
    method Teardown(level: nat, pt: nat, ghost p: seq<nat>, ghost s: Space)
      requires mmu.Valid() && TreeOk(Geom(), s) && 1 <= level <= mmu.Levels() + 1
      requires PoolOk(Geom(), pool) && Addresses(pool) !! pages.Keys
      requires level <= mmu.Levels() ==> p in s.tree && |p| == level - 1 && s.tree[p] == pt && Untouched(s, p)
      modifies `pages, `pool
      ensures PoolOk(Geom(), pool) && Addresses(pool) !! pages.Keys
      ensures pages == old(pages) - Freed(level, s, p)
      ensures Addresses(pool) == Addresses(old(pool)) + Freed(level, s, p)
      decreases mmu.Levels() + 1 - level, 3
    {
      if level > mmu.Levels() {
        return;
      }
      TeardownEntries(level, pt, p, s);
      UnderWhole(Geom(), s, p);
      UnderApart(Geom(), s, p, mmu.Entries(), p);
      assert TableOk(Geom(), s, p);
      PgFree(pt);
    }

    /** The loop of teardown. */
    method TeardownEntries(level: nat, pt: nat, ghost p: seq<nat>, ghost s: Space)
      requires mmu.Valid() && TreeOk(Geom(), s) && 1 <= level <= mmu.Levels()
      requires PoolOk(Geom(), pool) && Addresses(pool) !! pages.Keys
      requires p in s.tree && |p| == level - 1 && s.tree[p] == pt && Untouched(s, p)
      modifies `pages, `pool
      ensures PoolOk(Geom(), pool) && Addresses(pool) !! pages.Keys
      ensures pages == old(pages) - UnderBelow(s.tree, p, mmu.Entries())
      ensures Addresses(pool) == Addresses(old(pool)) + UnderBelow(s.tree, p, mmu.Entries())
      decreases mmu.Levels() + 1 - level, 2
    {
      ghost var start, free := pages, Addresses(pool);
      var index := 0;
      while index < mmu.Entries()
        modifies `pages, `pool
        invariant 0 <= index <= mmu.Entries()
        invariant PoolOk(Geom(), pool) && Addresses(pool) !! pages.Keys
        invariant pages == start - UnderBelow(s.tree, p, index)
        invariant Addresses(pool) == free + UnderBelow(s.tree, p, index)
      {
        TeardownNext(level, pt, index, p, s, start, free);
        index := index + 1;
      }
    }

    /** One iteration of that loop. */
    method TeardownNext(level: nat, pt: nat, index: nat, ghost p: seq<nat>, ghost s: Space,
                        ghost start: Memory, ghost free: set<nat>)
      requires mmu.Valid() && TreeOk(Geom(), s) && 1 <= level <= mmu.Levels() && index < mmu.Entries()
      requires PoolOk(Geom(), pool) && Addresses(pool) !! pages.Keys
      requires p in s.tree && |p| == level - 1 && s.tree[p] == pt
      requires pages == start - UnderBelow(s.tree, p, index) && Addresses(pool) == free + UnderBelow(s.tree, p, index)
      requires forall q :: q in s.tree && p <= q ==>
        s.tree[q] in s.mem && s.tree[q] in start && start[s.tree[q]] == s.mem[s.tree[q]]
      modifies `pages, `pool
      ensures PoolOk(Geom(), pool) && Addresses(pool) !! pages.Keys
      ensures pages == start - UnderBelow(s.tree, p, index + 1)
      ensures Addresses(pool) == free + UnderBelow(s.tree, p, index + 1)
      decreases mmu.Levels() + 1 - level, 1
    {
      UnderNext(Geom(), s, p, index);
      TeardownEntry(level, pt, index, p, s, start);
    }

    /** The entry of that iteration. */
    method TeardownEntry(level: nat, pt: nat, index: nat, ghost p: seq<nat>, ghost s: Space, ghost start: Memory)
      requires mmu.Valid() && TreeOk(Geom(), s) && 1 <= level <= mmu.Levels() && index < mmu.Entries()
      requires PoolOk(Geom(), pool) && Addresses(pool) !! pages.Keys
      requires p in s.tree && |p| == level - 1 && s.tree[p] == pt
      requires pages == start - UnderBelow(s.tree, p, index)
      requires forall q :: q in s.tree && p <= q ==>
        s.tree[q] in s.mem && s.tree[q] in start && start[s.tree[q]] == s.mem[s.tree[q]]
      modifies `pages, `pool
      ensures PoolOk(Geom(), pool) && Addresses(pool) !! pages.Keys
      ensures pages == old(pages) - Under(s.tree, p + [index])
      ensures Addresses(pool) == Addresses(old(pool)) + Under(s.tree, p + [index])
      decreases mmu.Levels() + 1 - level, 0
    {
      UnderNext(Geom(), s, p, index);
      UnderApart(Geom(), s, p, index, p);
      EntryInTable(Geom(), s, p, index);
      UserEntryMeans(s, p, index);
      var e := pages[pt][index];
      if And(e, PTE_P) != 0 && And(e, PTE_U) != 0 {
        forall q | q in s.tree && p + [index] <= q ensures s.tree[q] !in UnderBelow(s.tree, p, index) && p <= q {
          UnderApart(Geom(), s, p, index, q);
          Below(p, index, q);
        }
        Teardown(level + 1, Base(e, mmu.offset), p + [index], s);
      }
    }

    /** The entries that teardown follows are exactly those that point to tables of the tree;
        the last-level ones end the recursion. */
    lemma UserEntryMeans(s: Space, p: seq<nat>, index: nat)
      requires mmu.Valid() && TreeOk(Geom(), s) && p in s.tree && index < mmu.Entries()
      requires s.tree[p] in s.mem && index < |s.mem[s.tree[p]]|
      ensures var e := s.mem[s.tree[p]][index];
        |p| + 1 < mmu.Levels() ==>
          && (And(e, PTE_P) != 0 && And(e, PTE_U) != 0 <==> p + [index] in s.tree)
          && (p + [index] in s.tree ==> Base(e, mmu.offset) == s.tree[p + [index]])
      ensures |p| + 1 == mmu.Levels() ==> Under(s.tree, p + [index]) == {}
    {
      NoEntry();
      EntryInTable(Geom(), s, p, index);
      if p + [index] in s.tree {
        assert PathOk(Geom(), p + [index]);
        assert TableOk(Geom(), s, p + [index]);
        TableEntry(s.tree[p + [index]], mmu.offset);
        if |p| == 0 { assert (p + [index])[0] == index; }
      }
      if |p| + 1 == mmu.Levels() {
        UnderNext(Geom(), s, p, index);
        UnderWhole(Geom(), s, p);
      }
    }

    /** unprotect: gives back every table of the address space, once each, and leaves the
        memory exactly as it was before protect. */
    method Unprotect()
      requires Protected()
      modifies this
      ensures Idle() && kmem == old(kmem) && reserve == old(reserve)
      ensures pages == old(kmem) && Addresses(pool) == old(reserve)
    {
      ghost var s := View();
      if And(ptr, PTE_P) != 0 && And(ptr, PTE_U) != 0 {
        forall q | q in tree ensures tree[q] in pages { assert TableOk(Geom(), s, q); }
        Teardown(1, Base(ptr, mmu.offset), [], s);
      }
      assert Under(s.tree, []) == s.tree.Values;
      forall q | q in s.tree ensures s.tree[q] !in kmem { assert TableOk(Geom(), s, q); }
      tree := map[];
    }

    /** A run of map calls up to the first panic, n of which are done: every user page ends up as
        the last of them for it says, and what ends the run early is the panic of the next one. */
    method MapAll(requests: seq<Request>) returns (r: Outcome, ghost n: nat)
      requires Protected()
      modifies `pages, `pool, `tree
      ensures Protected() && kmem == old(kmem) && reserve == old(reserve)
      ensures n <= |requests| && (r.Done? <==> n == |requests|)
      ensures forall a :: mmu.InUser(a) ==> Lookup(a) == After(requests[..n], a, old(Lookup(a)))
      ensures !r.Done? ==> r == Verdict(requests[n])
      ensures forall i: nat, a :: i < n && mmu.InUser(a) && PageOf(mmu, requests[i].va) == PageOf(mmu, a) ==>
        var q := requests[i];
        (exists j :: i < j < n && PageOf(mmu, requests[j].va) == PageOf(mmu, a)) ||
        Lookup(a) == if q.prot == 0 then None else Some(Translation(q.pa, (q.prot / 2) % 2 == 1, true))
      ensures forall a ::
        mmu.InUser(a) && (forall j :: 0 <= j < n ==> PageOf(mmu, requests[j].va) != PageOf(mmu, a)) ==>
        Lookup(a) == old(Lookup(a))
    {
      ghost var was := View();
      r, n := MapRun(requests);
      Answered(requests, n, was);
    }

    /** In a space that is as asked, the last request for a page decides about it, in numbers. */
    lemma Answered(requests: seq<Request>, n: nat, s: Space)
      requires Protected() && n <= |requests| && AsAsked(requests[..n], s)
      ensures forall i: nat, a :: i < n && mmu.InUser(a) && PageOf(mmu, requests[i].va) == PageOf(mmu, a) ==>
        var q := requests[i];
        (exists j :: i < j < n && PageOf(mmu, requests[j].va) == PageOf(mmu, a)) ||
        Lookup(a) == if q.prot == 0 then None else Some(Translation(q.pa, (q.prot / 2) % 2 == 1, true))
      ensures forall a ::
        mmu.InUser(a) && (forall j :: 0 <= j < n ==> PageOf(mmu, requests[j].va) != PageOf(mmu, a)) ==>
        Lookup(a) == Walk(mmu, s.mem, s.root, a, 1)
    {
      forall i: nat, a | i < n && mmu.InUser(a) && PageOf(mmu, requests[i].va) == PageOf(mmu, a) &&
          (forall j :: i < j < n ==> PageOf(mmu, requests[j].va) != PageOf(mmu, a))
        ensures var q := requests[i];
          Lookup(a) == if q.prot == 0 then None else Some(Translation(q.pa, (q.prot / 2) % 2 == 1, true))
      {
        AfterLast(requests[..n], i, a, Walk(mmu, s.mem, s.root, a, 1));
        AskedMeans(this, requests[i].pa, requests[i].prot);
      }
      forall a | mmu.InUser(a) && (forall j :: 0 <= j < n ==> PageOf(mmu, requests[j].va) != PageOf(mmu, a))
        ensures Lookup(a) == Walk(mmu, s.mem, s.root, a, 1)
      {
        AfterNone(requests[..n], a, Walk(mmu, s.mem, s.root, a, 1));
      }
    }

    lemma {:induction false} AfterLast(requests: seq<Request>, i: nat, a: nat, before: Option<Translation>)
      requires i < |requests| && PageOf(mmu, requests[i].va) == PageOf(mmu, a)
      requires forall j :: i < j < |requests| ==> PageOf(mmu, requests[j].va) != PageOf(mmu, a)
      ensures After(requests, a, before) == Asked(requests[i].pa, requests[i].prot)
      decreases |requests|
    {
      if i < |requests| - 1 { AfterLast(requests[..|requests| - 1], i, a, before); }
    }

    lemma {:induction false} AfterNone(requests: seq<Request>, a: nat, before: Option<Translation>)
      requires forall j :: 0 <= j < |requests| ==> PageOf(mmu, requests[j].va) != PageOf(mmu, a)
      ensures After(requests, a, before) == before
      decreases |requests|
    {
      if requests != [] { AfterNone(requests[..|requests| - 1], a, before); }
    }

    method MapRun(requests: seq<Request>) returns (r: Outcome, ghost n: nat)
      requires Protected()
      modifies `pages, `pool, `tree
      ensures Protected() && kmem == old(kmem) && reserve == old(reserve)
      ensures n <= |requests| && (r.Done? <==> n == |requests|)
      ensures AsAsked(requests[..n], old(View()))
      ensures !r.Done? ==> r == Verdict(requests[n])
    {
      r := Done;
      ghost var before := View();
      var i := 0;
      while i < |requests|
        modifies `pages, `pool, `tree
        invariant 0 <= i <= |requests|
        invariant Protected() && kmem == old(kmem) && reserve == old(reserve)
        invariant r.Done? && AsAsked(requests[..i], before)
      {
        r := MapNext(requests, i, before);
        if !r.Done? {
          return r, i;
        }
        i := i + 1;
      }
      n := i;
    }

    /** Every user page translates as the last request for it says, from a space s on. */
    ghost predicate AsAsked(requests: seq<Request>, s: Space)
      reads this
      requires Protected()
    {
      forall a :: mmu.InUser(a) ==> Lookup(a) == After(requests, a, Walk(mmu, s.mem, s.root, a, 1))
    }

    method MapNext(requests: seq<Request>, i: nat, ghost s: Space) returns (r: Outcome)
      requires Protected() && i < |requests| && AsAsked(requests[..i], s)
      modifies `pages, `pool, `tree
      ensures Protected() && kmem == old(kmem) && reserve == old(reserve)
      ensures if r.Done? then AsAsked(requests[..i + 1], s) else AsAsked(requests[..i], s)
      ensures r == old(Verdict(requests[i])) && (!r.Done? ==> r == Verdict(requests[i]))
    {
      var q := requests[i];
      AskedMeans(this, q.pa, q.prot);
      r := Map(q.va, q.pa, q.prot);
      if r.Done? {
        forall a | mmu.InUser(a) ensures Lookup(a) == After(requests[..i + 1], a, Walk(mmu, s.mem, s.root, a, 1)) {
          AfterNext(requests, i, a, Walk(mmu, s.mem, s.root, a, 1));
        }
      }
    }

    lemma AfterNext(requests: seq<Request>, i: nat, a: nat, before: Option<Translation>)
      requires i < |requests|
      ensures var q, was := requests[i], After(requests[..i], a, before);
        After(requests[..i + 1], a, before) == if PageOf(mmu, a) == PageOf(mmu, q.va) then Asked(q.pa, q.prot) else was
    {
      assert requests[..i + 1][..i] == requests[..i];
    }

    /** What a run of requests leaves of the translation of an address. */
    function After(requests: seq<Request>, a: nat, before: Option<Translation>): Option<Translation> {
      if requests == [] then before
      else
        var last := requests[|requests| - 1];
        if PageOf(mmu, a) == PageOf(mmu, last.va) then Asked(last.pa, last.prot)
        else After(requests[..|requests| - 1], a, before)
    }

    /** The whole life of an address space: memory and allocator end as they began, unless there
        is no page for protect or one of the requests panics. */
    method Lifetime(requests: seq<Request>) returns (r: Outcome, ghost n: nat)
      requires Idle()
      modifies this
      ensures r.Done? ==> n == |requests| && Idle() && pages == old(pages) && Addresses(pool) == Addresses(old(pool))
      ensures !r.Done? ==>
        if old(pool) == [] then r == Panic(OutOfPages) && Idle() && pages == old(pages)
        else n < |requests| && Protected() && r == Verdict(requests[n])
             && forall a :: mmu.InUser(a) ==> Lookup(a) == After(requests[..n], a, None)
    {
      n := 0;
      r := Protect();
      if r.Done? {
        r, n := MapAll(requests);
      }
      if r.Done? {
        Unprotect();
      }
    }
  }

  /** What map asks for, in numbers. */
  lemma AskedMeans(m: AddrSpace, pa: nat, prot: nat)
    ensures m.Asked(pa, prot) == if prot == 0 then None else Some(Translation(pa, (prot / 2) % 2 == 1, true))
  {
    WriteDigit(prot);
  }

  lemma WriteDigit(prot: nat)
    ensures And(prot, 2) != 0 <==> (prot / 2) % 2 == 1
  {
    AndField(prot, 1, 1);
    assert Shl(1, 1) == 2 && Low(Shr(prot, 1), 1) == (prot / 2) % 2;
  }

  lemma RootFlags(upt: nat, offset: nat)
    requires Aligned(upt, offset) && offset >= 8
    ensures var e := Entry(upt, Or(PTE_P, PTE_U));
            And(e, PTE_P) != 0 && And(e, PTE_U) != 0 && Base(e, offset) == upt
    ensures Or(PTE_P, PTE_U) < 256
  {
    assert Or(1, 4) == 5 && And(5, 1) == 1 && And(5, 4) == 4;
    EntryParts(upt, 5, PTE_P, offset);
    EntryParts(upt, 5, PTE_U, offset);
  }

  lemma StartsBelow(i: nat, j: nat, s: nat)
    ensures Shl(i, s) < Shl(j, s) ==> i < j
  {
    if j <= i { ShlMonotone(j, i, s); }
  }

  /** The address where a slot starts has the slot as its top-level index. */
  lemma SlotIndex(m: Mmu, slot: nat)
    requires m.Valid() && slot < m.Entries()
    ensures m.Index(Shl(slot, m.tables[1].shift), 1) == slot
  {
    IndexIsField(m, Shl(slot, m.tables[1].shift), 1);
    CutUnique(slot, 0, m.tables[1].shift);
    LowSmall(slot, m.tables[1].bits);
  }

  /** The loop moves on to the start of the next slot, which is the end, perhaps wrapped to 0,
      exactly after the last one. */
  lemma NextSlot(m: Mmu, area: Area, slot: nat)
    requires m.Valid() && m.SlotAligned(area)
    requires Shr(area.start, m.tables[1].shift) <= slot < Shr(m.End(area), m.tables[1].shift)
    ensures var s := m.tables[1].shift;
            var next := (Shl(slot, s) + Shl(1, s)) % m.word;
            if slot + 1 < Shr(m.End(area), s) then next == Shl(slot + 1, s) && next != area.end
            else next == area.end
  {
    var s, last := m.tables[1].shift, Shr(m.End(area), m.tables[1].shift);
    ShlAdd(slot, 1, s);
    ShlMonotone(slot + 1, last, s);
    ShlIsMul(1, s);
    if slot + 1 < last {
      ShlAdd(slot + 1, 1, s);
      ShlMonotone(slot + 2, last, s);
    }
    WrapAround(Shl(slot + 1, s), m.word);
  }

  lemma WrapAround(x: nat, word: nat)
    requires 0 < word && x <= word
    ensures x % word == if x == word then 0 else x
  {
  }

  lemma MissingOnTheWay(g: Geometry, s: Space, path: seq<nat>, l: nat)
    requires TreeOk(g, s) && l < g.levels == |path| && path[..l] !in s.tree
    ensures path[..g.levels - 1] !in s.tree
  {
    TablesOnTheWay(g, s, path, l);
  }
}
