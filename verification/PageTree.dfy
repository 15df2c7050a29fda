/** The tables of one address space as a tree of pages, and the translation it gives. */
module PageTree {
  import opened Bits
  import opened Paging
  import opened Options

  const PTE_P := 0x001
  const PTE_W := 0x002
  const PTE_U := 0x004
  const PTE_PS := 0x080

  /** What the processor makes of an address: the page frame and the rights to it. */
  datatype Translation = Translation(frame: nat, writable: bool, user: bool)

  type Memory = map<nat, seq<nat>>

  /** What the tree of tables depends on: the number of levels, the entries of a table, the
      digits of a page offset, and the top-level slots that belong to the kernel. */
  datatype Geometry = Geometry(levels: nat, entries: nat, offset: nat, kernel: set<nat>) {
    predicate Ok() { levels >= 2 && offset >= 8 && entries > 0 }
  }

  /** baseof: the address part of an entry. */
  function Base(e: nat, offset: nat): nat { Shl(Shr(e, offset), offset) }

  /** It is what masking with ~(pgsize - 1) leaves of a word of w digits. */
  lemma BaseIsMask(e: nat, k: nat, w: nat)
    requires k <= w && e < Pow2(w)
    ensures Pow2(w) >= Pow2(k) && And(e, Pow2(w) - Pow2(k)) == Base(e, k)
  {
    HighMask(k, w);
    AndField(e, k, w - k);
    ShrBound(e, k, w);
    LowSmall(Shr(e, k), w - k);
  }

  lemma HighMask(k: nat, w: nat)
    requires k <= w
    ensures Pow2(w) >= Pow2(k) && Pow2(w) - Pow2(k) == Shl(Pow2(w - k) - 1, k)
  {
    ShlIsMul(1, k);
    ShlIsMul(1, w);
    ShlShl(1, w - k, k);
    ShlIsMul(1, w - k);
    ShlAdd(Pow2(w - k) - 1, 1, k);
  }

  predicate Aligned(x: nat, offset: nat) { Low(x, offset) == 0 }

  /** An entry is a page address joined with its flags. */
  function Entry(page: nat, flags: nat): nat { Or(page, flags) }

  lemma {:induction false} AndOfLow(h: nat, f: nat, g: nat, k: nat)
    requires f < Pow2(k) && g < Pow2(k)
    ensures And(Shl(h, k) + f, g) == And(f, g)
  {
    if k > 0 && g > 0 {
      var x := Shl(h, k) + f;
      AndOfLow(h, f / 2, g / 2, k - 1);
      assert x / 2 == Shl(h, k - 1) + f / 2 && x % 2 == f % 2;
      if x == 0 { assert f == 0; }
      else { assert And(x, g) == 2 * And(x / 2, g / 2) + (if x % 2 == 1 && g % 2 == 1 then 1 else 0); }
    }
  }

  lemma EntryParts(page: nat, flags: nat, g: nat, offset: nat)
    requires Aligned(page, offset) && offset >= 8 && flags < 256 && g < 256
    ensures Base(Entry(page, flags), offset) == page
    ensures And(Entry(page, flags), g) == And(flags, g)
  {
    assert Pow2(8) == 256;
    Pow2Monotone(8, offset);
    Recompose(page, offset);
    var h := Shr(page, offset);
    OrDisjoint(h, flags, offset);
    CutUnique(h, flags, offset);
    AndOfLow(h, flags, g, offset);
  }

  lemma TableEntry(page: nat, offset: nat)
    requires Aligned(page, offset) && offset >= 8
    ensures Base(Entry(page, 7), offset) == page
    ensures And(Entry(page, 7), PTE_P) != 0 && And(Entry(page, 7), PTE_W) != 0
    ensures And(Entry(page, 7), PTE_U) != 0 && And(Entry(page, 7), PTE_PS) == 0
  {
    EntryParts(page, 7, PTE_P, offset);
    EntryParts(page, 7, PTE_W, offset);
    EntryParts(page, 7, PTE_U, offset);
    EntryParts(page, 7, PTE_PS, offset);
  }

  /** Joining flags to a page address one after the other joins them all. */
  lemma JoinFlags(page: nat, f: nat, g: nat, offset: nat)
    requires Aligned(page, offset) && offset >= 8 && f < 256 && g < 256 && Or(f, g) < 256
    ensures Or(Or(page, f), g) == Entry(page, Or(f, g))
  {
    Recompose(page, offset);
    Pow2Monotone(8, offset);
    assert Pow2(8) == 256;
    var h := Shr(page, offset);
    OrDisjoint(h, f, offset);
    OrLow(h, f, g, offset);
    OrDisjoint(h, Or(f, g), offset);
  }

  lemma AlignedPlus(page: nat, flags: nat, offset: nat)
    requires Aligned(page, offset) && offset >= 8 && flags < 256
    ensures Entry(page, flags) == page + flags
  {
    assert Pow2(8) == 256;
    Pow2Monotone(8, offset);
    Recompose(page, offset);
    OrLow(Shr(page, offset), 0, flags, offset);
  }

  /** The entry that maps a user page. */
  lemma UserEntry(pa: nat, w: bool, offset: nat)
    requires Aligned(pa, offset) && offset >= 8
    ensures var e := Or(Or(Or(pa, PTE_P), PTE_U), if w then PTE_W else 0);
            && And(e, PTE_P) != 0 && And(e, PTE_U) != 0
            && LeafTranslation(e, offset) == Some(Translation(pa, w, true))
            && e == pa + if w then 7 else 5
  {
    AlignedPlus(pa, if w then 7 else 5, offset);
    JoinFlags(pa, PTE_P, PTE_U, offset);
    JoinFlags(pa, 5, if w then PTE_W else 0, offset);
    assert Or(5, 2) == 7 && Or(1, 4) == 5;
    var flags := if w then 7 else 5;
    EntryParts(pa, flags, PTE_P, offset);
    EntryParts(pa, flags, PTE_W, offset);
    EntryParts(pa, flags, PTE_U, offset);
  }

  lemma {:induction false} OrLow(h: nat, f: nat, g: nat, k: nat)
    requires f < Pow2(k) && g < Pow2(k)
    ensures Or(Shl(h, k) + f, g) == Shl(h, k) + Or(f, g)
  {
    if k > 0 && g > 0 {
      var x := Shl(h, k) + f;
      OrLow(h, f / 2, g / 2, k - 1);
      assert x / 2 == Shl(h, k - 1) + f / 2 && x % 2 == f % 2;
      if x == 0 { assert f == 0 && Shl(h, k) == 0; }
      else { assert Or(x, g) == 2 * Or(x / 2, g / 2) + (if x % 2 == 1 || g % 2 == 1 then 1 else 0); }
    }
  }

  lemma NoEntry()
    ensures And(0, PTE_P) == 0 && And(0, PTE_U) == 0
  {
  }

  // ---------------------------------------------------------------- the processor

  /** The walk of section 4.5 of the Intel SDM, volume 3A: an access right holds if every
      entry on the way grants it, and an entry may map a large page. */
  function Walk(m: Mmu, mem: Memory, table: nat, va: nat, l: nat): Option<Translation>
    requires 1 <= l <= m.Levels()
    decreases m.Levels() - l
  {
    var i := m.Index(va, l);
    if table !in mem || i >= |mem[table]| then None
    else
      var e := mem[table][i];
      if And(e, PTE_P) == 0 then None
      else if l == m.Levels() then LeafTranslation(e, m.offset)
      else if And(e, PTE_PS) != 0 then
        Some(Translation(LargeFrame(m, e, va, l), And(e, PTE_W) != 0, And(e, PTE_U) != 0))
      else Restrict(Walk(m, mem, Base(e, m.offset), va, l + 1), e)
  }

  function LeafTranslation(e: nat, offset: nat): Option<Translation> {
    if And(e, PTE_P) == 0 then None
    else Some(Translation(Base(e, offset), And(e, PTE_W) != 0, And(e, PTE_U) != 0))
  }

  /** The rights left after passing through entry e. */
  function Restrict(t: Option<Translation>, e: nat): Option<Translation> {
    if t.None? then None
    else Some(Translation(t.value.frame, t.value.writable && And(e, PTE_W) != 0, t.value.user && And(e, PTE_U) != 0))
  }

  function LargeFrame(m: Mmu, e: nat, va: nat, l: nat): nat
    requires l < |m.tables|
  {
    var s := m.tables[l].shift;
    Shl(Shr(e, s), s) + Shl(Shr(Low(va, s), m.offset), m.offset)
  }

  /** Entry k of a walk lies in table k, at the index of the address, and is present. */
  ghost predicate Followed(m: Mmu, mem: Memory, va: nat, l: nat, tables: seq<nat>, entries: seq<nat>, k: nat)
    requires k < |tables| && k < |entries| && 1 <= l && l + k <= m.Levels()
  {
    var i := m.Index(va, l + k);
    tables[k] in mem && i < |mem[tables[k]]| && entries[k] == mem[tables[k]][i] && entries[k] % 2 == 1
  }

  /** There is no present entry for the address in a table of level l. */
  ghost predicate NoneThere(m: Mmu, mem: Memory, table: nat, va: nat, l: nat)
    requires 1 <= l <= m.Levels()
  {
    table in mem && m.Index(va, l) < |mem[table]| ==> mem[table][m.Index(va, l)] % 2 == 0
  }

  /** The tables that a walk goes through and the entries it follows. It fails where there is none.
      Otherwise it ends with an entry of the last level or of a large page, and the rights are those
      that all entries grant. */
  lemma {:induction false} WalkMeans(m: Mmu, mem: Memory, table: nat, va: nat, l: nat)
    returns (tables: seq<nat>, entries: seq<nat>)
    requires 1 <= l <= m.Levels()
    ensures 0 < |tables| <= m.Levels() + 1 - l && |tables| - 1 <= |entries| <= |tables| && tables[0] == table
    ensures forall k :: 0 <= k < |entries| ==> Followed(m, mem, va, l, tables, entries, k)
    ensures forall k :: 0 <= k < |tables| - 1 ==>
      tables[k + 1] == Base(entries[k], m.offset) && (entries[k] / 128) % 2 == 0
    ensures var t, n := Walk(m, mem, table, va, l), |tables| - 1;
      if t.None? then |entries| == n && NoneThere(m, mem, tables[n], va, l + n)
      else
        && |entries| == n + 1 && (l + n == m.Levels() || (entries[n] / 128) % 2 == 1)
        && (l + n == m.Levels() ==> t.value.frame == Base(entries[n], m.offset))
        && (l + n < m.Levels() ==> t.value.frame == LargeFrame(m, entries[n], va, l + n))
        && (t.value.writable <==> forall e :: e in entries ==> (e / 2) % 2 == 1)
        && (t.value.user <==> forall e :: e in entries ==> (e / 4) % 2 == 1)
    decreases m.Levels() - l
  {
    var i := m.Index(va, l);
    tables, entries := [table], [];
    if table in mem && i < |mem[table]| {
      var e := mem[table][i];
      EntryDigits(e);
      if And(e, PTE_P) != 0 {
        entries := [e];
        AllGrant(e, [], 2);
        AllGrant(e, [], 4);
        if l < m.Levels() && And(e, PTE_PS) == 0 {
          var ts, es := WalkMeans(m, mem, Base(e, m.offset), va, l + 1);
          tables, entries := tables + ts, [e] + es;
          AllGrant(e, es, 2);
          AllGrant(e, es, 4);
          forall k | 0 <= k < |entries| ensures Followed(m, mem, va, l, tables, entries, k) {
            if k > 0 { assert Followed(m, mem, va, l + 1, ts, es, k - 1); }
          }
          forall k | 0 <= k < |tables| - 1
            ensures tables[k + 1] == Base(entries[k], m.offset) && (entries[k] / 128) % 2 == 0
          {
            if k > 0 { assert ts[k] == Base(es[k - 1], m.offset); }
          }
        }
      }
    }
  }

  lemma AllGrant(e: nat, es: seq<nat>, p: nat)
    requires p > 0
    ensures (forall x :: x in [e] + es ==> (x / p) % 2 == 1) <==>
            (e / p) % 2 == 1 && forall x :: x in es ==> (x / p) % 2 == 1
    ensures [e] + [] == [e]
  {
    assert e in [e] + es;
    forall x ensures x in [e] + es <==> x == e || x in es {}
  }

  /** The frame in a large page. */
  lemma LargeFrameMeans(m: Mmu, e: nat, va: nat, l: nat)
    requires l < |m.tables|
    ensures var p, q := Pow2(m.tables[l].shift), Pow2(m.offset);
      LargeFrame(m, e, va, l) == e / p * p + va % p / q * q
  {
    var s := m.tables[l].shift;
    ShrIsDiv(e, s);
    ShlIsMul(Shr(e, s), s);
    ShrIsDiv(va, s);
    ShrIsDiv(Low(va, s), m.offset);
    ShlIsMul(Shr(Low(va, s), m.offset), m.offset);
  }

  /** The flags of an entry as digits. */
  lemma EntryDigits(e: nat)
    ensures (And(e, PTE_P) != 0 <==> e % 2 == 1) && (And(e, PTE_W) != 0 <==> (e / 2) % 2 == 1)
    ensures (And(e, PTE_U) != 0 <==> (e / 4) % 2 == 1) && (And(e, PTE_PS) != 0 <==> (e / 128) % 2 == 1)
  {
    BitDigit(e, 0);
    BitDigit(e, 1);
    BitDigit(e, 2);
    BitDigit(e, 7);
    assert Pow2(7) == 128;
  }

  lemma BitDigit(e: nat, k: nat)
    ensures And(e, Pow2(k)) != 0 <==> (e / Pow2(k)) % 2 == 1
  {
    AndField(e, k, 1);
    ShrIsDiv(e, k);
    ShlIsMul(1, k);
    ShlIsMul(0, k);
    assert Low(Shr(e, k), 1) == Shr(e, k) % 2;
  }

  /** The walk of va stays within the given memory. */
  ghost predicate WalkInside(m: Mmu, mem: Memory, table: nat, va: nat, l: nat)
    requires 1 <= l <= m.Levels()
    decreases m.Levels() - l
  {
    && table in mem && m.Index(va, l) < |mem[table]|
    && var e := mem[table][m.Index(va, l)];
       (And(e, PTE_P) != 0 && l < m.Levels() && And(e, PTE_PS) == 0 ==>
          WalkInside(m, mem, Base(e, m.offset), va, l + 1))
  }

  // ---------------------------------------------------------------- the tree

  /** Memory, the tables of an address space by the indices that lead to them, and the
      memory that was there before the address space was made. */
  datatype Space = Space(mem: Memory, root: nat, tree: map<seq<nat>, nat>, kmem: Memory, kpt: nat)

  ghost predicate PathOk(g: Geometry, p: seq<nat>) {
    && |p| < g.levels
    && (forall k :: 0 <= k < |p| ==> p[k] < g.entries)
    && (|p| > 0 ==> p[0] !in g.kernel)
  }

  /** The indices of a user address. */
  ghost predicate UserPath(g: Geometry, path: seq<nat>) {
    && |path| == g.levels > 0
    && (forall k :: 0 <= k < |path| ==> path[k] < g.entries)
    && path[0] !in g.kernel
  }

  ghost predicate Shape(g: Geometry, s: Space) {
    && [] in s.tree && s.tree[[]] == s.root
    && (forall p :: p in s.tree ==> PathOk(g, p))
    && (forall p: seq<nat>, i: nat :: p + [i] in s.tree ==> p in s.tree)
    && (forall p, q :: p in s.tree && q in s.tree && s.tree[p] == s.tree[q] ==> p == q)
  }

  /** The boot memory: the kernel's top-level table, none of whose entries is a user one. */
  ghost predicate KernelOk(g: Geometry, kmem: Memory, kpt: nat) {
    && kpt in kmem && |kmem[kpt]| == g.entries
    && (forall i :: 0 <= i < g.entries && i in g.kernel ==> And(kmem[kpt][i], PTE_U) == 0)
  }

  ghost predicate EntryOk(g: Geometry, s: Space, p: seq<nat>, i: nat, e: nat) {
    if |p| == 0 && i in g.kernel then s.kpt in s.kmem && i < |s.kmem[s.kpt]| && e == s.kmem[s.kpt][i]
    else if |p| + 1 < g.levels then e == if p + [i] in s.tree then Entry(s.tree[p + [i]], 7) else 0
    else e == 0 || (And(e, PTE_P) != 0 && And(e, PTE_U) != 0)
  }

  ghost predicate TableOk(g: Geometry, s: Space, p: seq<nat>)
    requires p in s.tree
  {
    var t := s.tree[p];
    && t in s.mem && t !in s.kmem
    && |s.mem[t]| == g.entries && Aligned(t, g.offset)
    && forall i :: 0 <= i < g.entries ==> EntryOk(g, s, p, i, s.mem[t][i])
  }

  ghost predicate Frame(s: Space) {
    && s.mem.Keys == s.kmem.Keys + s.tree.Values
    && (forall k :: k in s.kmem ==> k in s.mem && s.mem[k] == s.kmem[k])
  }

  /** The invariant of an address space: its pages form a tree in which no page is shared,
      its kernel entries are the kernel's own, and all other memory is as it was before. */
  ghost predicate TreeOk(g: Geometry, s: Space) {
    && g.Ok() && Shape(g, s) && KernelOk(g, s.kmem, s.kpt) && Frame(s)
    && forall p :: p in s.tree ==> TableOk(g, s, p)
  }

  /** Entry i of the table that p leads to, 0 if there is no such table. */
  function EntryAt(s: Space, p: seq<nat>, i: nat): nat {
    if p in s.tree && s.tree[p] in s.mem && i < |s.mem[s.tree[p]]| then s.mem[s.tree[p]][i] else 0
  }

  /** The last-level entry of a user address. */
  function Leaf(s: Space, path: seq<nat>): nat {
    if path == [] then 0 else EntryAt(s, path[..|path| - 1], path[|path| - 1])
  }

  lemma {:induction false} PrefixIn(g: Geometry, s: Space, p: seq<nat>, k: nat)
    requires Shape(g, s) && p in s.tree && k <= |p|
    ensures p[..k] in s.tree
    decreases |p|
  {
    if k < |p| {
      assert p == p[..|p| - 1] + [p[|p| - 1]];
      PrefixIn(g, s, p[..|p| - 1], k);
      assert p[..|p| - 1][..k] == p[..k];
    } else {
      assert p[..k] == p;
    }
  }

  /** The tables on the way to a last-level table all exist. */
  lemma TablesOnTheWay(g: Geometry, s: Space, path: seq<nat>, l: nat)
    requires Shape(g, s) && l < g.levels == |path|
    ensures path[..g.levels - 1] in s.tree ==> path[..l] in s.tree
  {
    var q := path[..g.levels - 1];
    assert q[..l] == path[..l];
    if q in s.tree { PrefixIn(g, s, q, l); }
  }

  /** The processor of a machine with this geometry, on an address with these indices. */
  ghost predicate Fits(m: Mmu, g: Geometry, va: nat, path: seq<nat>) {
    && m.Levels() == g.levels == |path| && m.offset == g.offset
    && forall l :: 1 <= l <= g.levels ==> m.Index(va, l) == path[l - 1]
  }

  /** What the tree says of level l on the way along path. */
  ghost predicate LevelOk(g: Geometry, s: Space, path: seq<nat>, l: nat)
    requires 1 <= l <= g.levels == |path|
  {
    var p := path[..l - 1];
    && (p in s.tree ==> s.tree[p] in s.mem && path[l - 1] < |s.mem[s.tree[p]]|)
    && (p in s.tree && l < g.levels ==>
          EntryAt(s, p, path[l - 1]) == if path[..l] in s.tree then Entry(s.tree[path[..l]], 7) else 0)
    && (path[..l] in s.tree ==> Aligned(s.tree[path[..l]], g.offset))
    && (l < g.levels && path[..l] !in s.tree ==> path[..g.levels - 1] !in s.tree)
  }

  lemma LevelsOk(g: Geometry, s: Space, path: seq<nat>, l: nat)
    requires TreeOk(g, s) && UserPath(g, path) && 1 <= l <= g.levels
    ensures LevelOk(g, s, path, l)
  {
    if path[..l - 1] in s.tree {
      EntryOnPath(g, s, path, l);
    }
    if path[..l] in s.tree { assert TableOk(g, s, path[..l]); }
    if l < g.levels { TablesOnTheWay(g, s, path, l); }
  }

  lemma EntryOnPath(g: Geometry, s: Space, path: seq<nat>, l: nat)
    requires TreeOk(g, s) && UserPath(g, path) && 1 <= l <= g.levels
    requires path[..l - 1] in s.tree
    ensures var p := path[..l - 1];
            && s.tree[p] in s.mem && path[l - 1] < |s.mem[s.tree[p]]|
            && EntryOk(g, s, p, path[l - 1], EntryAt(s, p, path[l - 1]))
            && path[..l] == p + [path[l - 1]]
  {
    SplitLast(path, l);
    EntryInTable(g, s, path[..l - 1], path[l - 1]);
  }

  lemma SplitLast(path: seq<nat>, l: nat)
    requires 1 <= l <= |path|
    ensures path[..l] == path[..l - 1] + [path[l - 1]]
  {
  }

  lemma EntryInTable(g: Geometry, s: Space, p: seq<nat>, i: nat)
    requires TreeOk(g, s) && p in s.tree && i < g.entries
    ensures s.tree[p] in s.mem && i < |s.mem[s.tree[p]]| && EntryOk(g, s, p, i, EntryAt(s, p, i))
  {
    assert TableOk(g, s, p);
  }

  /** A mapped user page is open to user code. */
  lemma LeafIsUser(g: Geometry, s: Space, path: seq<nat>)
    requires TreeOk(g, s) && UserPath(g, path)
    ensures And(Leaf(s, path), PTE_P) != 0 ==> And(Leaf(s, path), PTE_U) != 0
  {
    var q := path[..g.levels - 1];
    if q in s.tree {
      assert TableOk(g, s, q);
      assert EntryOk(g, s, q, path[g.levels - 1], Leaf(s, path));
    }
    NoEntry();
  }

  lemma {:induction false} WalkAlong(m: Mmu, g: Geometry, s: Space, va: nat, path: seq<nat>, l: nat)
    requires g.Ok() && Fits(m, g, va, path) && 1 <= l <= g.levels && path[..l - 1] in s.tree
    requires forall k :: l <= k <= g.levels ==> LevelOk(g, s, path, k)
    requires And(Leaf(s, path), PTE_P) != 0 ==> And(Leaf(s, path), PTE_U) != 0
    ensures Walk(m, s.mem, s.tree[path[..l - 1]], va, l) == LeafTranslation(Leaf(s, path), g.offset)
    decreases g.levels - l
  {
    NoEntry();
    assert LevelOk(g, s, path, l) && m.Index(va, l) == path[l - 1];
    if l < g.levels && path[..l] in s.tree {
      TableEntry(s.tree[path[..l]], g.offset);
      WalkAlong(m, g, s, va, path, l + 1);
    }
  }

  /** What the processor finds for a user address is what the last-level entry says. */
  lemma WalkIsLeaf(m: Mmu, g: Geometry, s: Space, va: nat, path: seq<nat>)
    requires TreeOk(g, s) && UserPath(g, path) && Fits(m, g, va, path)
    ensures Walk(m, s.mem, s.root, va, 1) == LeafTranslation(Leaf(s, path), g.offset)
  {
    forall k | 1 <= k <= g.levels ensures LevelOk(g, s, path, k) { LevelsOk(g, s, path, k); }
    LeafIsUser(g, s, path);
    assert path[..0] == [];
    WalkAlong(m, g, s, va, path, 1);
  }

  /** A walk that stays inside the old memory finds the same there and now. */
  lemma {:induction false} WalkUnchanged(m: Mmu, s: Space, table: nat, va: nat, l: nat)
    requires Frame(s) && 1 <= l <= m.Levels()
    requires WalkInside(m, s.kmem, table, va, l)
    ensures Walk(m, s.mem, table, va, l) == Walk(m, s.kmem, table, va, l)
    decreases m.Levels() - l
  {
    var e := s.kmem[table][m.Index(va, l)];
    if And(e, PTE_P) != 0 && l < m.Levels() && And(e, PTE_PS) == 0 {
      WalkUnchanged(m, s, Base(e, m.offset), va, l + 1);
    }
  }

  /** A kernel address translates as it does under the kernel's own tables. */
  lemma KernelWalk(m: Mmu, g: Geometry, s: Space, va: nat)
    requires TreeOk(g, s) && m.Levels() == g.levels
    requires m.Index(va, 1) in g.kernel && WalkInside(m, s.kmem, s.kpt, va, 1)
    ensures Walk(m, s.mem, s.root, va, 1) == Walk(m, s.kmem, s.kpt, va, 1)
  {
    var i := m.Index(va, 1);
    assert TableOk(g, s, []);
    assert EntryOk(g, s, [], i, s.mem[s.root][i]);
    var e := s.kmem[s.kpt][i];
    if And(e, PTE_P) != 0 && And(e, PTE_PS) == 0 {
      WalkUnchanged(m, s, Base(e, m.offset), va, 2);
    }
  }

  // ---------------------------------------------------------------- growing and filling the tree

  /** The space with a fresh, empty table linked under p at index i. */
  ghost function WithTable(s: Space, p: seq<nat>, i: nat, page: nat, zeros: seq<nat>): Space
    requires p in s.tree && s.tree[p] in s.mem && i < |s.mem[s.tree[p]]|
  {
    var row: seq<nat> := s.mem[s.tree[p]][i := Entry(page, 7)];
    s.(mem := s.mem[page := zeros][s.tree[p] := row], tree := s.tree[p + [i] := page])
  }

  ghost predicate Fresh(g: Geometry, s: Space, page: nat, zeros: seq<nat>) {
    && page !in s.mem && Aligned(page, g.offset)
    && |zeros| == g.entries && forall k :: 0 <= k < |zeros| ==> zeros[k] == 0
  }

  ghost predicate Missing(g: Geometry, s: Space, p: seq<nat>, i: nat) {
    && p in s.tree && |p| + 1 < g.levels && i < g.entries
    && p + [i] !in s.tree && !(|p| == 0 && i in g.kernel)
  }

  lemma ValuesInsert<K, V>(t: map<K, V>, k: K, v: V)
    requires k !in t
    ensures t[k := v].Values == t.Values + {v}
  {
    var t' := t[k := v];
    forall x | x in t.Values ensures x in t'.Values {
      var j :| j in t && t[j] == x;
      assert t'[j] == x;
    }
    assert t'[k] == v;
  }

  lemma WithTableShape(g: Geometry, s: Space, p: seq<nat>, i: nat, page: nat, zeros: seq<nat>)
    requires TreeOk(g, s) && Fresh(g, s, page, zeros) && Missing(g, s, p, i)
    requires s.tree[p] in s.mem && i < |s.mem[s.tree[p]]|
    ensures Shape(g, WithTable(s, p, i, page, zeros))
  {
    var s' := WithTable(s, p, i, page, zeros);
    var p' := p + [i];
    assert forall q :: q in s.tree ==> s.tree[q] in s.tree.Values;
    forall q: seq<nat>, k: nat | q + [k] in s'.tree ensures q in s'.tree {
      LastStep(q, k, p, i);
    }
  }

  lemma LastStep<T>(q: seq<T>, k: T, p: seq<T>, i: T)
    ensures q + [k] == p + [i] ==> q == p && k == i
  {
    assert (q + [k])[..|q|] == q && (p + [i])[..|p|] == p;
  }

  lemma WithTableFrame(g: Geometry, s: Space, p: seq<nat>, i: nat, page: nat, zeros: seq<nat>)
    requires p in s.tree && Frame(s) && TableOk(g, s, p) && Fresh(g, s, page, zeros)
    requires p + [i] !in s.tree && i < |s.mem[s.tree[p]]|
    ensures Frame(WithTable(s, p, i, page, zeros))
  {
    ValuesInsert(s.tree, p + [i], page);
    assert s.tree[p] in s.tree.Values;
  }

  lemma WithTableOk(g: Geometry, s: Space, p: seq<nat>, i: nat, page: nat, zeros: seq<nat>)
    requires TreeOk(g, s) && Fresh(g, s, page, zeros) && Missing(g, s, p, i)
    requires s.tree[p] in s.mem && i < |s.mem[s.tree[p]]|
    ensures TreeOk(g, WithTable(s, p, i, page, zeros))
  {
    var s' := WithTable(s, p, i, page, zeros);
    var p' := p + [i];
    WithTableShape(g, s, p, i, page, zeros);
    WithTableFrame(g, s, p, i, page, zeros);
    forall q | q in s'.tree ensures TableOk(g, s', q) {
      if q == p' {
        NewTableOk(g, s, p, i, page, zeros);
      } else {
        OldTableOk(g, s, p, i, page, zeros, q);
      }
    }
  }

  lemma NewTableOk(g: Geometry, s: Space, p: seq<nat>, i: nat, page: nat, zeros: seq<nat>)
    requires TreeOk(g, s) && Fresh(g, s, page, zeros) && Missing(g, s, p, i)
    requires s.tree[p] in s.mem && i < |s.mem[s.tree[p]]|
    ensures TableOk(g, WithTable(s, p, i, page, zeros), p + [i])
  {
    var s' := WithTable(s, p, i, page, zeros);
    var p' := p + [i];
    assert s.tree[p] != page;
    forall k | 0 <= k < g.entries ensures EntryOk(g, s', p', k, s'.mem[page][k]) {
      assert p' + [k] !in s.tree;
    }
  }

  lemma OldTableOk(g: Geometry, s: Space, p: seq<nat>, i: nat, page: nat, zeros: seq<nat>, q: seq<nat>)
    requires TreeOk(g, s) && Fresh(g, s, page, zeros) && Missing(g, s, p, i)
    requires s.tree[p] in s.mem && i < |s.mem[s.tree[p]]|
    requires q in s.tree
    ensures TableOk(g, WithTable(s, p, i, page, zeros), q)
  {
    var s' := WithTable(s, p, i, page, zeros);
    assert TableOk(g, s, q) && TableOk(g, s, p);
    var t := s.tree[q];
    forall k | 0 <= k < g.entries ensures EntryOk(g, s', q, k, s'.mem[t][k]) {
      assert EntryOk(g, s, q, k, s.mem[t][k]);
      LastStep(q, k, p, i);
    }
  }

  /** A new empty table changes no translation. */
  lemma WithTableLeaf(g: Geometry, s: Space, p: seq<nat>, i: nat, page: nat, zeros: seq<nat>, path: seq<nat>)
    requires TreeOk(g, s) && Fresh(g, s, page, zeros) && Missing(g, s, p, i)
    requires s.tree[p] in s.mem && i < |s.mem[s.tree[p]]|
    requires UserPath(g, path)
    ensures Leaf(WithTable(s, p, i, page, zeros), path) == Leaf(s, path)
  {
    var q := path[..g.levels - 1];
    if q in s.tree {
      assert TableOk(g, s, q) && s.tree[q] != s.tree[p];
    }
    LeafAfterLink(s, p, i, page, zeros, path);
  }

  lemma LeafAfterLink(s: Space, p: seq<nat>, i: nat, page: nat, zeros: seq<nat>, path: seq<nat>)
    requires p in s.tree && s.tree[p] in s.mem && i < |s.mem[s.tree[p]]|
    requires page !in s.mem && p + [i] !in s.tree && |path| > 0
    requires forall k :: 0 <= k < |zeros| ==> zeros[k] == 0
    requires var q := path[..|path| - 1]; q in s.tree ==> s.tree[q] in s.mem && s.tree[q] != s.tree[p]
    ensures Leaf(WithTable(s, p, i, page, zeros), path) == Leaf(s, path)
  {
  }

  /** The space with a last-level entry set. */
  ghost function WithLeaf(s: Space, p: seq<nat>, i: nat, e: nat): Space
    requires p in s.tree && s.tree[p] in s.mem && i < |s.mem[s.tree[p]]|
  {
    var row: seq<nat> := s.mem[s.tree[p]][i := e];
    s.(mem := s.mem[s.tree[p] := row])
  }

  lemma WithLeafOk(g: Geometry, s: Space, p: seq<nat>, i: nat, e: nat)
    requires TreeOk(g, s) && p in s.tree && |p| + 1 == g.levels && i < g.entries
    requires s.tree[p] in s.mem && i < |s.mem[s.tree[p]]|
    requires e == 0 || (And(e, PTE_P) != 0 && And(e, PTE_U) != 0)
    ensures TreeOk(g, WithLeaf(s, p, i, e))
  {
    var s' := WithLeaf(s, p, i, e);
    assert TableOk(g, s, p);
    assert s.tree[p] in s.tree.Values;
    forall q | q in s'.tree ensures TableOk(g, s', q) {
      OtherTableOk(g, s, p, i, e, q);
    }
  }

  lemma OtherTableOk(g: Geometry, s: Space, p: seq<nat>, i: nat, e: nat, q: seq<nat>)
    requires Shape(g, s) && p in s.tree && q in s.tree && |p| + 1 == g.levels
    requires TableOk(g, s, p) && TableOk(g, s, q) && i < g.entries && g.Ok()
    requires e == 0 || (And(e, PTE_P) != 0 && And(e, PTE_U) != 0)
    ensures TableOk(g, WithLeaf(s, p, i, e), q)
  {
    var s' := WithLeaf(s, p, i, e);
    forall k | 0 <= k < g.entries ensures EntryOk(g, s', q, k, s'.mem[s.tree[q]][k]) {
      assert EntryOk(g, s, q, k, s.mem[s.tree[q]][k]);
    }
  }

  /** Setting an entry changes the translation of exactly one address. */
  lemma WithLeafLeaf(g: Geometry, s: Space, path: seq<nat>, e: nat, path': seq<nat>)
    requires TreeOk(g, s) && |path| == |path'| == g.levels
    requires path[..g.levels - 1] in s.tree && s.tree[path[..g.levels - 1]] in s.mem
    requires path[g.levels - 1] < |s.mem[s.tree[path[..g.levels - 1]]]|
    ensures Leaf(WithLeaf(s, path[..g.levels - 1], path[g.levels - 1], e), path')
            == if path' == path then e else Leaf(s, path')
  {
    var p, p' := path[..g.levels - 1], path'[..g.levels - 1];
    assert p' in s.tree && p' != p ==> s.tree[p'] != s.tree[p];
    LeafAfterStore(s, path, e, path', g.levels - 1);
  }

  lemma LeafAfterStore(s: Space, path: seq<nat>, e: nat, path': seq<nat>, n: nat)
    requires |path| == |path'| == n + 1
    requires path[..n] in s.tree && s.tree[path[..n]] in s.mem && path[n] < |s.mem[s.tree[path[..n]]]|
    requires path'[..n] in s.tree && path'[..n] != path[..n] ==> s.tree[path'[..n]] != s.tree[path[..n]]
    ensures Leaf(WithLeaf(s, path[..n], path[n], e), path') == if path' == path then e else Leaf(s, path')
  {
    assert path == path[..n] + [path[n]] && path' == path'[..n] + [path'[n]];
  }

  // ---------------------------------------------------------------- extension

  /** s' has the tables of s and perhaps more, the same translations and the same old memory. */
  ghost predicate Extends(g: Geometry, s: Space, s': Space) {
    && s'.kmem == s.kmem && s'.kpt == s.kpt && s'.root == s.root
    && (forall p :: p in s.tree ==> p in s'.tree && s'.tree[p] == s.tree[p])
    && (forall path :: UserPath(g, path) ==> Leaf(s', path) == Leaf(s, path))
  }

  lemma ExtendsTransitive(g: Geometry, a: Space, b: Space, c: Space)
    requires Extends(g, a, b) && Extends(g, b, c)
    ensures Extends(g, a, c)
  {
  }

  lemma WithTableExtends(g: Geometry, s: Space, p: seq<nat>, i: nat, page: nat, zeros: seq<nat>)
    requires TreeOk(g, s) && Fresh(g, s, page, zeros) && Missing(g, s, p, i)
    ensures s.tree[p] in s.mem && i < |s.mem[s.tree[p]]|
    ensures TreeOk(g, WithTable(s, p, i, page, zeros))
    ensures Extends(g, s, WithTable(s, p, i, page, zeros))
    ensures WithTable(s, p, i, page, zeros).tree.Values == s.tree.Values + {page}
  {
    assert TableOk(g, s, p);
    WithTableOk(g, s, p, i, page, zeros);
    ValuesInsert(s.tree, p + [i], page);
    forall path | UserPath(g, path) ensures Leaf(WithTable(s, p, i, page, zeros), path) == Leaf(s, path) {
      WithTableLeaf(g, s, p, i, page, zeros, path);
    }
  }

  // ---------------------------------------------------------------- subtrees

  /** The pages of the subtree at p. */
  ghost function Under(tree: map<seq<nat>, nat>, p: seq<nat>): set<nat> {
    set q | q in tree && p <= q :: tree[q]
  }

  /** The pages of the subtrees below p at its indices less than i. */
  ghost function UnderBelow(tree: map<seq<nat>, nat>, p: seq<nat>, i: nat): set<nat> {
    set q | q in tree && p < q && q[|p|] < i :: tree[q]
  }

  lemma {:induction false} AncestorIn(g: Geometry, s: Space, p: seq<nat>, q: seq<nat>)
    requires Shape(g, s) && q in s.tree && p <= q
    ensures p in s.tree
  {
    PrefixIn(g, s, q, |p|);
    assert q[..|p|] == p;
  }

  lemma Below<T>(p: seq<T>, i: T, q: seq<T>)
    ensures p + [i] <= q <==> p < q && q[|p|] == i
  {
    if p < q && q[|p|] == i {
      assert q[..|p| + 1] == p + [i];
    }
  }

  lemma UnderNext(g: Geometry, s: Space, p: seq<nat>, i: nat)
    requires Shape(g, s)
    ensures UnderBelow(s.tree, p, i + 1) == UnderBelow(s.tree, p, i) + Under(s.tree, p + [i])
    ensures p + [i] !in s.tree ==> Under(s.tree, p + [i]) == {}
  {
    forall q | q in s.tree ensures p + [i] <= q <==> p < q && q[|p|] == i { Below(p, i, q); }
    forall q | q in s.tree && p + [i] <= q ensures p + [i] in s.tree { AncestorIn(g, s, p + [i], q); }
    assert p + [i] !in s.tree ==> forall q :: q in s.tree ==> !(p + [i] <= q);
  }

  lemma UnderWhole(g: Geometry, s: Space, p: seq<nat>)
    requires Shape(g, s) && p in s.tree
    ensures Under(s.tree, p) == UnderBelow(s.tree, p, g.entries) + {s.tree[p]}
    ensures |p| + 1 == g.levels ==> forall i: nat :: UnderBelow(s.tree, p, i) == {}
  {
    forall q | q in s.tree && p < q ensures |q| > |p| && PathOk(g, q) && q[|p|] < g.entries {}
    forall x | x in Under(s.tree, p) ensures x in UnderBelow(s.tree, p, g.entries) + {s.tree[p]} {
      var q :| q in s.tree && p <= q && s.tree[q] == x;
      assert q == p || p < q;
    }
  }

  /** A page of the subtree at p + [i] is not among those of the smaller indices, nor is p's own. */
  lemma UnderApart(g: Geometry, s: Space, p: seq<nat>, i: nat, q: seq<nat>)
    requires Shape(g, s) && q in s.tree
    requires q == p || p + [i] <= q
    ensures s.tree[q] !in UnderBelow(s.tree, p, i)
  {
    if q != p { Below(p, i, q); }
  }
}
