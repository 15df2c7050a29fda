/** The interface of the memory allocator: nine pools, chosen by size on the way out and by
    address on the way back. Calls run one at a time, with interrupts off. */
module Allocator {
  import opened PmmLayout
  import opened Pmm

  const NULL := 0

  /** The smallest class that fits; 9 if none does. */
  function ClassOf(size: nat): (k: nat)
    ensures k <= 9 && (k < 9 ==> size <= CLASSES[k].size) && (forall j :: 0 <= j < k ==> CLASSES[j].size < size)
  {
    if size <= 128 then 0
    else if size <= 256 then 1
    else if size <= KIB then 2
    else if size <= 4 * KIB then 3
    else if size <= 8 * KIB then 4
    else if size <= 64 * KIB then 5
    else if size <= MIB then 6
    else if size <= 4 * MIB then 7
    else if size <= 16 * MIB then 8
    else 9
  }

  // ---------------------------------------------------------------- calls and answers

  datatype Call = Alloc(size: nat) | Free(ptr: nat)

  datatype Reply = Given(addr: nat) | Taken(accepted: bool)

  /** What the callers hold after a log of calls: the addresses they were given and have not given
      back, with the sizes they asked for. */
  ghost function Held(calls: seq<Call>, answers: seq<Reply>): map<nat, nat>
    requires |calls| == |answers|
  {
    if calls == [] then map[]
    else
      var n := |calls| - 1;
      HeldNext(Held(calls[..n], answers[..n]), calls[n], answers[n])
  }

  ghost function HeldNext(held: map<nat, nat>, call: Call, answer: Reply): map<nat, nat> {
    match (call, answer)
    case (Alloc(size), Given(addr)) => if addr == NULL then held else held[addr := size]
    case (Free(ptr), Taken(accepted)) => if accepted then held - {ptr} else held
    case _ => held
  }

  /** A block given out is nobody's, and free accepts exactly what somebody holds. */
  ghost predicate Right(held: map<nat, nat>, call: Call, answer: Reply) {
    match call
    case Alloc(size) =>
      answer.Given? && (answer.addr != NULL ==>
        answer.addr !in held
        && forall a :: a in held ==> a + held[a] <= answer.addr || answer.addr + size <= a)
    case Free(ptr) => answer == Taken(ptr in held)
  }

  ghost predicate AllRight(calls: seq<Call>, answers: seq<Reply>)
    requires |calls| == |answers|
  {
    forall n :: 0 <= n < |calls| ==> Right(Held(calls[..n], answers[..n]), calls[n], answers[n])
  }

  lemma OneMoreRight(calls: seq<Call>, answers: seq<Reply>, call: Call, answer: Reply)
    requires |calls| == |answers| && AllRight(calls, answers) && Right(Held(calls, answers), call, answer)
    ensures AllRight(calls + [call], answers + [answer])
    ensures Held(calls + [call], answers + [answer]) == HeldNext(Held(calls, answers), call, answer)
  {
    var cs, ans, n := calls + [call], answers + [answer], |calls|;
    assert cs[..n] == calls && ans[..n] == answers;
    forall m | 0 <= m < |cs| ensures Right(Held(cs[..m], ans[..m]), cs[m], ans[m]) {
      if m < n { assert cs[..m] == calls[..m] && ans[..m] == answers[..m]; }
    }
  }

  // ---------------------------------------------------------------- the allocator

  /** How many words behind the last header free may take for headers. */
  const STRAY := 8

  class Allocator {
    const start: nat
    const pools: seq<Pool>
    /** HEAD_END_BLOCK. */
    const end: nat
    /** The headers of all pools, one table behind the other, and what lies behind the last: the
        gap before the first block and the first words of that block. */
    const table: array<Header>
    /** Memory, in words of eight bytes. */
    var mem: map<nat, nat>

    ghost predicate Shape() {
      && ClassesOk(CLASSES) && |pools| == |CLASSES| && table.Length == Headers(CLASSES, |pools|) + STRAY
      && (forall j, k :: 0 <= j < k < |pools| ==> pools[j] != pools[k])
      && (forall k :: 0 <= k < |pools| ==> Fits(k)) && end == Base(CLASSES, start, |pools|)
    }

    ghost predicate Fits(k: nat)
      requires ClassesOk(CLASSES) && |pools| == |CLASSES| && k < |pools|
    {
      var p := pools[k];
      && p.size == CLASSES[k].size && p.room == CLASSES[k].room && p.base == Base(CLASSES, start, k)
      && p.off == Headers(CLASSES, k) && p.table == table
    }

    ghost predicate Valid()
      reads this, pools, table
    {
      Shape() && forall k :: 0 <= k < |pools| ==> PoolValid(k)
    }

    ghost predicate PoolValid(k: nat)
      requires Shape() && k < |pools|
      reads pools, table
    {
      assert Fits(k) && pools[k] in pools;
      pools[k].Valid()
    }

    /** The free lists of the pools. */
    ghost function FreeLists(): (f: seq<seq<nat>>)
      reads this, pools
    {
      seq(|pools|, k requires 0 <= k < |pools| reads pools => pools[k].free)
    }

    /** Block i of pool k is allocated. */
    ghost predicate Live(k: nat, i: nat)
      requires k < |pools|
      reads this, pools
    {
      i < pools[k].room && i !in pools[k].free
    }

    /** kalloc. */
    method Kalloc(size: nat) returns (addr: nat)
      requires Valid()
      modifies this, pools, table
      ensures Valid()
      ensures var k := ClassOf(size);
        if k == 9 || old(FreeLists())[k] == [] then addr == NULL && FreeLists() == old(FreeLists()) && mem == old(mem)
        else
          && addr == Nth(pools[k].base, pools[k].size, old(FreeLists())[k][0])
          && addr != NULL && addr % CLASSES[k].size == 0
          && FreeLists() == old(FreeLists())[k := old(FreeLists())[k][1..]]
          && Zeroed(mem, addr, CLASSES[k].size) && SameOutside(old(mem), mem, addr, CLASSES[k].size)
    {
      if size <= 128 {
        addr := KallocFrom(0, 128);
      } else if size <= 256 {
        addr := KallocFrom(1, 256);
      } else if size <= KIB {
        addr := KallocFrom(2, KIB);
      } else if size <= 4 * KIB {
        addr := KallocFrom(3, 4 * KIB);
      } else if size <= 8 * KIB {
        addr := KallocFrom(4, 8 * KIB);
      } else if size <= 64 * KIB {
        addr := KallocFrom(5, 64 * KIB);
      } else if size <= MIB {
        addr := KallocFrom(6, MIB);
      } else if size <= 4 * MIB {
        addr := KallocFrom(7, 4 * MIB);
      } else if size <= 16 * MIB {
        addr := KallocFrom(8, 16 * MIB);
      } else {
        addr := NULL;
      }
    }

    /** MEMPOOL_KALLOC. */
    method KallocFrom(k: nat, size: nat) returns (addr: nat)
      requires Valid() && k < |pools| && size == CLASSES[k].size
      modifies this, pools, table
      ensures Valid()
      ensures if old(FreeLists())[k] == [] then addr == NULL && FreeLists() == old(FreeLists()) && mem == old(mem)
        else
          && addr == Nth(pools[k].base, pools[k].size, old(FreeLists())[k][0]) && addr != NULL && addr % size == 0
          && FreeLists() == old(FreeLists())[k := old(FreeLists())[k][1..]]
          && Zeroed(mem, addr, size) && SameOutside(old(mem), mem, addr, size)
    {
      FreeHeads();
      if FreeLists()[k] != [] { BlockFacts(k, FreeLists()[k][0]); }
      var taken := TakeHeader(k);
      if taken == NIL {
        return NULL;
      }
      addr := table[taken].addr;
      ZeroBlock(addr, size);
    }

    method TakeHeader(k: nat) returns (temp: int)
      requires Valid() && k < |pools|
      modifies pools[k], table
      ensures Valid()
      ensures if old(FreeLists())[k] == [] then temp == NIL && FreeLists() == old(FreeLists())
        else
          && 0 <= temp < table.Length && table[temp].addr == Nth(pools[k].base, pools[k].size, old(FreeLists())[k][0])
          && FreeLists() == old(FreeLists())[k := old(FreeLists())[k][1..]]
    {
      assert PoolValid(k) && Fits(k);
      temp := pools[k].Take();
      OthersValid(k);
    }

    /** Changing one pool and its headers leaves the others valid. */
    twostate lemma OthersValid(k: nat)
      requires old(Valid()) && k < |pools| && pools[k].Valid()
      requires forall j :: 0 <= j < |pools| && j != k ==> unchanged(pools[j])
      requires forall h :: 0 <= h < table.Length && !(pools[k].off <= h < pools[k].off + pools[k].room) ==>
        table[h] == old(table[h])
      ensures Valid()
    {
      forall j | 0 <= j < |pools| ensures PoolValid(j) {
        if j != k {
          assert Fits(j) && Fits(k) && old(PoolValid(j));
          if j < k { HeadersAscend(CLASSES, j, k); } else { HeadersAscend(CLASSES, k, j); }
          StaysValid(pools[j]);
        }
      }
    }

    /** Where the next pool begins. */
    function Upper(k: nat): nat
      requires |pools| == 9 && k < 9
    {
      if k == 8 then end else pools[k + 1].base
    }

    /** ptr lies where the source looks for blocks of pool k. */
    predicate InRange(k: nat, ptr: nat)
      requires |pools| == 9 && k < 9
    {
      pools[k].base <= ptr < Upper(k)
    }

    /** ptr lies behind the last block of pool k. */
    predicate Behind(k: nat, ptr: nat)
      requires |pools| == 9 && k < 9
    {
      ptr >= Nth(pools[k].base, pools[k].size, pools[k].room)
    }

    /** ptr is a multiple of the block size into pool k. */
    ghost predicate Aligned(k: nat, ptr: nat)
      requires Shape() && k < 9 && ptr >= pools[k].base
    {
      assert Fits(k) && CLASSES[k].Ok();
      (ptr - pools[k].base) % pools[k].size == 0
    }

    /** The header that free looks at. */
    ghost function Found(k: nat, ptr: nat): nat
      requires Shape() && k < 9 && ptr >= pools[k].base
    {
      assert Fits(k) && CLASSES[k].Ok();
      pools[k].off + (ptr - pools[k].base) / pools[k].size
    }

    /** Header h has been put before the free list of pool k. */
    ghost predicate PutBack(k: nat, h: nat, was: seq<Header>, wasFirst: int)
      requires |pools| == 9 && k < 9
      reads pools, table
    {
      h < |was| && table[..] == was[h := Header(was[h].addr, 0, wasFirst)] && pools[k].first == h
    }

    /** How free ends when the headers are hs. */
    ghost function Answer(k: nat, ptr: nat, hs: seq<Header>): Freed
      requires Shape() && k < 9 && ptr >= pools[k].base && Found(k, ptr) < |hs|
    {
      if !Aligned(k, ptr) then Unaligned else if hs[Found(k, ptr)].used != 1 then NotInUse else Done
    }

    /** kfree. A pointer is accepted exactly when it is a multiple of the block size into the range
        of a pool and the header found for it says that it is in use. For a pointer behind the last
        block that header is not one of this pool, and accepting it breaks the pool. */
    method Kfree(ptr: nat) returns (r: Freed, k: nat)
      requires Valid()
      modifies pools, table
      ensures k < 9 ==> InRange(k, ptr) && Found(k, ptr) < table.Length && r == Answer(k, ptr, old(table[..]))
      ensures k < 9 && !Behind(k, ptr) ==> Valid() && ReleasedFrom(k, ptr, old(FreeLists()), FreeLists(), r)
      ensures k < 9 && Behind(k, ptr) ==> (Valid() <==> r != Done)
      ensures k >= 9 ==> (forall j :: 0 <= j < 9 ==> !InRange(j, ptr)) && r == Illegal
      ensures r == Done ==> k < 9 && PutBack(k, Found(k, ptr), old(table[..]), old(pools[k].first))
      ensures r != Done ==> Valid() && FreeLists() == old(FreeLists()) && table[..] == old(table[..])
    {
      k := PoolAt(ptr);
      if k == 9 {
        return Illegal, k;
      }
      r := KfreeFrom(k, ptr);
    }

    /** The pool in whose range ptr lies; 9 if none. */
    method PoolAt(ptr: nat) returns (k: nat)
      requires Valid()
      ensures k <= 9 && (k < 9 ==> InRange(k, ptr)) && (k == 9 ==> forall j :: 0 <= j < 9 ==> !InRange(j, ptr))
    {
      if ptr >= pools[0].base && ptr < pools[1].base {
        k := 0;
      } else if ptr >= pools[1].base && ptr < pools[2].base {
        k := 1;
      } else if ptr >= pools[2].base && ptr < pools[3].base {
        k := 2;
      } else if ptr >= pools[3].base && ptr < pools[4].base {
        k := 3;
      } else if ptr >= pools[4].base && ptr < pools[5].base {
        k := 4;
      } else if ptr >= pools[5].base && ptr < pools[6].base {
        k := 5;
      } else if ptr >= pools[6].base && ptr < pools[7].base {
        k := 6;
      } else if ptr >= pools[7].base && ptr < pools[8].base {
        k := 7;
      } else if ptr >= pools[8].base && ptr < end {
        k := 8;
      } else {
        k := 9;
      }
    }

    ghost predicate ReleasedFrom(k: nat, ptr: nat, f: seq<seq<nat>>, f': seq<seq<nat>>, r: Freed)
      requires |pools| == 9 && k < 9
    {
      && |f| == |f'| == 9 && f' == f[k := f'[k]]
      && Released(pools[k].base, pools[k].size, pools[k].room, ptr, f[k], f'[k], r)
    }

    /** MEM_FREE. */
    method KfreeFrom(k: nat, ptr: nat) returns (r: Freed)
      requires Valid() && k < 9 && InRange(k, ptr)
      modifies pools[k], table
      ensures Found(k, ptr) < table.Length && r == Answer(k, ptr, old(table[..]))
      ensures !Behind(k, ptr) ==> Valid() && ReleasedFrom(k, ptr, old(FreeLists()), FreeLists(), r)
      ensures Behind(k, ptr) ==> (Valid() <==> r != Done)
      ensures r == Done ==> PutBack(k, Found(k, ptr), old(table[..]), old(pools[k].first))
      ensures r != Done ==> Valid() && FreeLists() == old(FreeLists()) && table[..] == old(table[..])
    {
      assert PoolValid(k) && Fits(k);
      FoundInTable(k, ptr);
      ghost var h;
      r, h := pools[k].Release(ptr);
      if !Behind(k, ptr) || r != Done {
        FoundIsOwn(k, ptr);
        OthersValid(k);
      } else {
        assert !PoolValid(k);
      }
    }

    /** The header found for a pointer up to the last block is one of the pool. */
    lemma FoundIsOwn(k: nat, ptr: nat)
      requires Shape() && k < 9 && InRange(k, ptr)
      ensures !Behind(k, ptr) && Aligned(k, ptr) ==>
        pools[k].off <= Found(k, ptr) < pools[k].off + pools[k].room
    {
      assert Fits(k) && CLASSES[k].Ok();
      BlockOrNot(pools[k].base, pools[k].size, pools[k].room, ptr);
    }

    /** Wherever in the range of a pool a pointer lies, the header found is close to the tables. */
    lemma FoundInTable(k: nat, ptr: nat)
      requires Shape() && k < 9 && InRange(k, ptr)
      ensures Found(k, ptr) < table.Length
    {
      assert Fits(k) && CLASSES[k].Ok();
      UpperIsBase(k);
      InReach(start, k, ptr);
    }

    /** The ranges of the pools do not overlap. */
    lemma OneRange(ptr: nat)
      requires Shape()
      ensures forall j, k :: 0 <= j < k < 9 ==> !(InRange(j, ptr) && InRange(k, ptr))
    {
      forall j, k | 0 <= j < k < 9 ensures !(InRange(j, ptr) && InRange(k, ptr)) {
        UpperIsBase(j);
        assert Fits(k);
        if j + 1 < k { BasesAscend(CLASSES, start, j + 1, k); }
      }
    }

    lemma UpperIsBase(k: nat)
      requires Shape() && k < 9
      ensures Upper(k) == Base(CLASSES, start, k + 1) && pools[k].base == Base(CLASSES, start, k)
    {
      assert Fits(k);
      if k < 8 { assert Fits(k + 1); }
    }

    method ZeroBlock(addr: nat, size: nat)
      modifies `mem
      ensures Zeroed(mem, addr, size) && SameOutside(old(mem), mem, addr, size)
    {
      var at := addr;
      for j := 0 to size / 8
        invariant at == addr + 8 * j
        invariant Zeroed(mem, addr, 8 * j) && SameOutside(old(mem), mem, addr, 8 * j)
      {
        mem := mem[at := 0];
        at := at + 8;
      }
    }

    // ---------------------------------------------------------------- whole runs

    /** What the address of a block of a pool is good for. */
    lemma BlockFacts(k: nat, i: nat)
      requires Shape() && k < 9 && i < pools[k].room
      ensures var p, addr := pools[k], Nth(pools[k].base, pools[k].size, i);
        && addr % CLASSES[k].size == 0 && addr != NULL
        && InRange(k, addr) && addr < Nth(p.base, p.size, p.room)
    {
      var p := pools[k];
      assert Fits(k) && CLASSES[k].Ok();
      NthIsMul(p.base, p.size, p.room);
      NthAscends(p.base, p.size, i, p.room);
      BlockAligned(CLASSES, start, k, i);
      BasesAscend(CLASSES, start, k, k + 1);
      UpperIsBase(k);
      AboveTables(CLASSES, start, k);
      TotalHeaders();
    }

    /** Two allocated blocks never overlap, and no allocated block overlaps a header. */
    lemma LiveBlocksApart(k: nat, i: nat, k': nat, i': nat)
      requires Valid() && k < 9 && k' < 9 && Live(k, i) && Live(k', i') && (k, i) != (k', i')
      ensures var a, a' := Nth(pools[k].base, pools[k].size, i), Nth(pools[k'].base, pools[k'].size, i');
        && (a + pools[k].size <= a' || a' + pools[k'].size <= a)
        && HeaderAddr(CLASSES, start, k', i') + MEM_TABLE_SIZE <= a
    {
      assert Fits(k) && Fits(k');
      BlockFacts(k, i);
      BlockFacts(k', i');
      BlocksApart(CLASSES, start, k, i, k', i');
    }

    /** Freeing an allocated block succeeds and puts it first; freeing it again is refused. */
    lemma FreeingBlock(k: nat, i: nat, f: seq<seq<nat>>, f': seq<seq<nat>>, r: Freed)
      requires Shape() && k < 9 && i < pools[k].room && |f| == 9
      requires ReleasedFrom(k, Nth(pools[k].base, pools[k].size, i), f, f', r)
      ensures if i in f[k] then r == NotInUse && f' == f else r == Done && f' == f[k := [i] + f[k]]
    {
      var p := pools[k];
      assert Fits(k) && CLASSES[k].Ok();
      forall j: nat | Nth(p.base, p.size, i) == Nth(p.base, p.size, j) ensures j == i {
        OneBlock(p.base, p.size, i, j);
      }
    }

    /** Freeing the block i of pool k. */
    method FreeBlock(k: nat, i: nat) returns (r: Freed)
      requires Valid() && k < 9 && i < pools[k].room
      modifies pools, table
      ensures Valid()
      ensures if i in old(FreeLists())[k] then r == NotInUse && FreeLists() == old(FreeLists())
        else r == Done && FreeLists() == old(FreeLists())[k := [i] + old(FreeLists())[k]]
    {
      BlockFacts(k, i);
      var ptr := Nth(pools[k].base, pools[k].size, i);
      OneRange(ptr);
      ghost var at;
      r, at := Kfree(ptr);
      FreeingBlock(k, i, old(FreeLists()), FreeLists(), r);
    }

    /** free undoes alloc: every free list is as it was, in the same order. */
    method AllocThenFree(size: nat) returns (addr: nat, r: Freed)
      requires Valid()
      modifies this, pools, table
      ensures Valid() && FreeLists() == old(FreeLists()) && (addr != NULL ==> r == Done)
    {
      ghost var f := FreeLists();
      ghost var k := ClassOf(size);
      FreeHeads();
      addr := Kalloc(size);
      r := Done;
      if addr != NULL {
        r := FreeTaken(addr, k, f);
      }
    }

    method FreeTaken(addr: nat, ghost k: nat, ghost f: seq<seq<nat>>) returns (r: Freed)
      requires Valid() && k < 9 && |f| == 9 && f[k] != [] && f[k][0] < pools[k].room && f[k][0] !in f[k][1..]
      requires FreeLists() == f[k := f[k][1..]] && addr == Nth(pools[k].base, pools[k].size, f[k][0])
      modifies pools, table
      ensures Valid() && FreeLists() == f && r == Done
    {
      BlockFacts(k, f[k][0]);
      OneRange(addr);
      ghost var taken := FreeLists();
      ghost var at;
      r, at := Kfree(addr);
      FreeingBlock(k, f[k][0], taken, FreeLists(), r);
      assert [f[k][0]] + f[k][1..] == f[k];
    }

    /** The first free header of a pool is in its table and occurs once. */
    lemma FreeHeads()
      requires Valid()
      ensures forall k :: 0 <= k < 9 && FreeLists()[k] != [] ==>
        FreeLists()[k][0] < pools[k].room && FreeLists()[k][0] !in FreeLists()[k][1..]
    {
      forall k | 0 <= k < 9 && FreeLists()[k] != []
        ensures FreeLists()[k][0] < pools[k].room && FreeLists()[k][0] !in FreeLists()[k][1..]
      {
        assert PoolValid(k) && pools[k].free[0] in pools[k].free;
      }
    }

    /** A header is marked in use exactly while its block is allocated. */
    lemma InUseIffLive(k: nat, i: nat)
      requires Valid() && k < 9 && i < pools[k].room
      ensures pools[k].off + i < table.Length && (table[pools[k].off + i].used == 1 <==> Live(k, i))
    {
      assert PoolValid(k) && Fits(k) && pools[k].HeaderOk(i);
    }

    /** Behind its two blocks the pool of 1 MiB has room that belongs to nobody. While the first
        block of 4 MiB is allocated, free accepts the address 2 MiB into that pool, and the
        allocator is broken. */
    method FreeBehind() returns (r: Freed)
      requires Valid() && Live(7, 0)
      modifies pools, table
      ensures r == Done && !Valid()
    {
      var ptr := pools[6].base + 2 * MIB;
      BehindMegabytes(ptr);
      OneRange(ptr);
      ghost var at;
      r, at := Kfree(ptr);
    }

    lemma BehindMegabytes(ptr: nat)
      requires Valid() && Live(7, 0) && ptr == pools[6].base + 2 * MIB
      ensures InRange(6, ptr) && Behind(6, ptr) && Aligned(6, ptr)
      ensures Found(6, ptr) == pools[7].off && pools[7].off < table.Length && table[pools[7].off].used == 1
    {
      assert Fits(6) && Fits(7);
      HeadersOf(6);
      HeadersOf(7);
      UpperIsBase(6);
      NextBase(start, 6);
      NthIsMul(pools[6].base, pools[6].size, pools[6].room);
      InUseIffLive(7, 0);
    }

    // -------------------------------------------------------------- any run of calls

    /** Block i of pool k is allocated when the free lists are f. */
    ghost predicate LiveIn(f: seq<seq<nat>>, k: nat, i: nat)
      requires k < |pools| && k < |f|
    {
      i < pools[k].room && i !in f[k]
    }

    /** The addresses held are those of the allocated blocks, each of one; `at` says of which. */
    ghost predicate HoldsAt(f: seq<seq<nat>>, held: map<nat, nat>, at: map<nat, (nat, nat)>)
      requires Shape() && |f| == 9
    {
      && held.Keys == at.Keys
      && (forall a :: a in at ==> OneHeld(f, held, at, a))
      && (forall k, i :: 0 <= k < 9 && 0 <= i && LiveIn(f, k, i) ==> AddrOf(k, i) in at && at[AddrOf(k, i)] == (k, i))
    }

    ghost predicate OneHeld(f: seq<seq<nat>>, held: map<nat, nat>, at: map<nat, (nat, nat)>, a: nat)
      requires Shape() && |f| == 9 && a in held && a in at
    {
      var (k, i) := at[a];
      k < 9 && LiveIn(f, k, i) && a == AddrOf(k, i) && held[a] <= CLASSES[k].size
    }

    ghost function AddrOf(k: nat, i: nat): nat
      requires Shape() && k < 9
    {
      Nth(pools[k].base, pools[k].size, i)
    }

    /** Different blocks lie apart, whether they are allocated or not. */
    lemma TwoBlocks(k: nat, i: nat, k': nat, i': nat)
      requires Shape() && k < 9 && k' < 9 && i < pools[k].room && i' < pools[k'].room && (k, i) != (k', i')
      ensures AddrOf(k, i) + CLASSES[k].size <= AddrOf(k', i') || AddrOf(k', i') + CLASSES[k'].size <= AddrOf(k, i)
      ensures AddrOf(k, i) != AddrOf(k', i')
    {
      assert Fits(k) && Fits(k') && CLASSES[k].Ok() && CLASSES[k'].Ok();
      BlocksApart(CLASSES, start, k, i, k', i');
    }

    /** A block that is free is right to give out. */
    lemma FreeBlockApart(f: seq<seq<nat>>, held: map<nat, nat>, at: map<nat, (nat, nat)>, k: nat, i: nat, size: nat)
      requires Shape() && |f| == 9 && HoldsAt(f, held, at)
      requires k < 9 && i < pools[k].room && i in f[k] && size <= CLASSES[k].size
      ensures Right(held, Alloc(size), Given(AddrOf(k, i)))
    {
      forall a | a in held
        ensures a != AddrOf(k, i) && (a + held[a] <= AddrOf(k, i) || AddrOf(k, i) + size <= a)
      {
        assert OneHeld(f, held, at, a);
        TwoBlocks(at[a].0, at[a].1, k, i);
      }
    }

    /** The first free block of pool k has been given out. */
    lemma GivenOut(f: seq<seq<nat>>, held: map<nat, nat>, at: map<nat, (nat, nat)>, k: nat, size: nat)
      requires Shape() && |f| == 9 && HoldsAt(f, held, at) && k < 9 && size <= CLASSES[k].size
      requires f[k] != [] && f[k][0] < pools[k].room && f[k][0] !in f[k][1..]
      ensures var addr := AddrOf(k, f[k][0]);
        HoldsAt(f[k := f[k][1..]], held[addr := size], at[addr := (k, f[k][0])])
    {
      var i, addr, f' := f[k][0], AddrOf(k, f[k][0]), f[k := f[k][1..]];
      var held', at' := held[addr := size], at[addr := (k, i)];
      forall k', i' | 0 <= k' < 9 && 0 <= i' ensures LiveIn(f', k', i') <==> LiveIn(f, k', i') || (k', i') == (k, i) {
        if k' == k { assert f[k] == [i] + f[k][1..]; }
      }
      forall a | a in at' ensures OneHeld(f', held', at', a) {
        if a != addr { assert OneHeld(f, held, at, a) && LiveIn(f', at[a].0, at[a].1); }
      }
      forall k', i' | 0 <= k' < 9 && 0 <= i' && LiveIn(f', k', i')
        ensures AddrOf(k', i') in at' && at'[AddrOf(k', i')] == (k', i')
      {
        if (k', i') != (k, i) { TwoBlocks(k', i', k, i); }
      }
    }

    /** Block i of pool k has been given back. */
    lemma GivenBack(f: seq<seq<nat>>, held: map<nat, nat>, at: map<nat, (nat, nat)>, k: nat, i: nat)
      requires Shape() && |f| == 9 && HoldsAt(f, held, at) && k < 9 && LiveIn(f, k, i)
      ensures AddrOf(k, i) in held
      ensures HoldsAt(f[k := [i] + f[k]], held - {AddrOf(k, i)}, at - {AddrOf(k, i)})
    {
      var addr, f' := AddrOf(k, i), f[k := [i] + f[k]];
      var held', at' := held - {addr}, at - {addr};
      forall a | a in at' ensures OneHeld(f', held', at', a) {
        assert OneHeld(f, held, at, a) && at[a] != (k, i) && LiveIn(f', at[a].0, at[a].1);
      }
      forall k', i' | 0 <= k' < 9 && 0 <= i' && LiveIn(f', k', i')
        ensures AddrOf(k', i') in at' && at'[AddrOf(k', i')] == (k', i')
      {
        TwoBlocks(k', i', k, i);
      }
    }

    /** Where a held address lies. */
    lemma HeldInPool(f: seq<seq<nat>>, held: map<nat, nat>, at: map<nat, (nat, nat)>, a: nat)
      requires Shape() && |f| == 9 && HoldsAt(f, held, at) && a in held
      ensures var (k, i) := at[a];
        k < 9 && LiveIn(f, k, i) && a == AddrOf(k, i) && InRange(k, a) && !Behind(k, a)
    {
      assert OneHeld(f, held, at, a);
      BlockFacts(at[a].0, at[a].1);
    }

    lemma HeldInRange(f: seq<seq<nat>>, held: map<nat, nat>, at: map<nat, (nat, nat)>, a: nat, k: nat)
      requires Shape() && |f| == 9 && HoldsAt(f, held, at) && a in held && k < 9 && InRange(k, a)
      ensures at[a].0 == k && !Behind(k, a)
    {
      HeldInPool(f, held, at, a);
      OneRange(a);
    }

    /** A pointer that free refuses, or that lies in no pool, is held by nobody. */
    lemma RefusedIsNotHeld(f: seq<seq<nat>>, held: map<nat, nat>, at: map<nat, (nat, nat)>, ptr: nat,
                           k: nat, r: Freed)
      requires Shape() && |f| == 9 && HoldsAt(f, held, at) && r != Done
      requires k < 9 ==> InRange(k, ptr) && (!Behind(k, ptr) ==> ReleasedFrom(k, ptr, f, f, r))
      requires k >= 9 ==> forall j :: 0 <= j < 9 ==> !InRange(j, ptr)
      ensures ptr !in held
    {
      if ptr in held {
        HeldInPool(f, held, at, ptr);
        OneRange(ptr);
        FreeingBlock(at[ptr].0, at[ptr].1, f, f, r);
        assert false;
      }
    }

    /** A call: its answer is right, except that free may accept a stray pointer behind the last block
        of a pool, and then the allocator is broken. */
    method Serve(call: Call, ghost held: map<nat, nat>, ghost at: map<nat, (nat, nat)>)
      returns (answer: Reply, stray: bool, ghost at': map<nat, (nat, nat)>)
      requires Valid() && HoldsAt(FreeLists(), held, at)
      modifies this, pools, table
      ensures Valid() <==> !stray
      ensures !stray ==> Right(held, call, answer) && HoldsAt(FreeLists(), HeldNext(held, call, answer), at')
      ensures stray ==> call.Free? && answer == Taken(true) && call.ptr !in held
    {
      stray := false;
      match call
      case Alloc(size) =>
        var addr;
        addr, at' := ServeAlloc(size, held, at);
        answer := Given(addr);
      case Free(ptr) =>
        var accepted;
        accepted, stray, at' := ServeFree(ptr, held, at);
        answer := Taken(accepted);
    }

    method ServeAlloc(size: nat, ghost held: map<nat, nat>, ghost at: map<nat, (nat, nat)>)
      returns (addr: nat, ghost at': map<nat, (nat, nat)>)
      requires Valid() && HoldsAt(FreeLists(), held, at)
      modifies this, pools, table
      ensures Valid() && Right(held, Alloc(size), Given(addr))
      ensures HoldsAt(FreeLists(), HeldNext(held, Alloc(size), Given(addr)), at')
    {
      ghost var f, k := FreeLists(), ClassOf(size);
      FreeHeads();
      at' := at;
      if k < 9 && f[k] != [] {
        FreeBlockApart(f, held, at, k, f[k][0], size);
        GivenOut(f, held, at, k, size);
        at' := at[AddrOf(k, f[k][0]) := (k, f[k][0])];
      }
      addr := Kalloc(size);
    }

    method ServeFree(ptr: nat, ghost held: map<nat, nat>, ghost at: map<nat, (nat, nat)>)
      returns (accepted: bool, stray: bool, ghost at': map<nat, (nat, nat)>)
      requires Valid() && HoldsAt(FreeLists(), held, at)
      modifies pools, table
      ensures Valid() <==> !stray
      ensures !stray ==> accepted == (ptr in held)
      ensures !stray ==> HoldsAt(FreeLists(), HeldNext(held, Free(ptr), Taken(accepted)), at')
      ensures stray ==> accepted && ptr !in held
    {
      ghost var f := FreeLists();
      var r, k := Kfree(ptr);
      accepted, stray, at' := r == Done, k < 9 && Behind(k, ptr) && r == Done, at;
      if r != Done {
        RefusedIsNotHeld(f, held, at, ptr, k, r);
      } else if stray {
        StrayIsNotHeld(f, held, at, ptr, k);
      } else {
        GivenBack(f, held, at, k, FreeLists()[k][0]);
        at' := at - {ptr};
      }
    }

    lemma StrayIsNotHeld(f: seq<seq<nat>>, held: map<nat, nat>, at: map<nat, (nat, nat)>, ptr: nat, k: nat)
      requires Shape() && |f| == 9 && HoldsAt(f, held, at) && k < 9 && InRange(k, ptr) && Behind(k, ptr)
      ensures ptr !in held
    {
      if ptr in held {
        HeldInRange(f, held, at, ptr, k);
      }
    }

    /** mempool_init on a heap that starts at `start`, with `behind` as the words behind the headers. */
    constructor (start: nat, behind: seq<Header>)
      requires |behind| == STRAY
      ensures Valid() && this.start == start && mem == map[]
      ensures fresh(table) && forall k :: 0 <= k < |pools| ==> fresh(pools[k])
      ensures forall k :: 0 <= k < |CLASSES| ==> FreeLists()[k] == seq(CLASSES[k].room, i => i)
    {
      TheClassesAreOk();
      var t := NewTable(behind);
      var ps := NewPools(start, t);
      this.start := start;
      end := Base(CLASSES, start, |ps|);
      pools := ps;
      table := t;
      mem := map[];
      new;
      Made();
    }

    /** After mempool_init nothing is held. */
    lemma NothingHeld()
      requires Valid() && forall k :: 0 <= k < |CLASSES| ==> FreeLists()[k] == seq(CLASSES[k].room, i => i)
      ensures HoldsAt(FreeLists(), map[], map[])
    {
      forall k, i | 0 <= k < 9 && 0 <= i ensures !LiveIn(FreeLists(), k, i) {
        assert Fits(k);
        if i < pools[k].room { assert FreeLists()[k][i] == i; }
      }
    }

    /** The pools: the size of their blocks and how many there are. */
    lemma PoolsInNumbers(k: nat)
      requires Valid() && k < 9
      ensures |pools| == 9 && pools[k].size == [128, 256, 1024, 4096, 8192, 0x10000, 0x100000, 0x400000, 0x1000000][k]
      ensures pools[k].room == [16384, 16384, 1024, 4096, 4096, 128, 2, 4, 2][k]
    {
      assert Fits(k);
    }

    lemma Made()
      requires ClassesOk(CLASSES) && |pools| == |CLASSES| && AllNew(pools, start, table)
      requires table.Length == Headers(CLASSES, |pools|) + STRAY && end == Base(CLASSES, start, |pools|)
      ensures Valid() && forall k :: 0 <= k < |CLASSES| ==> FreeLists()[k] == seq(CLASSES[k].room, i => i)
    {
      forall k | 0 <= k < |pools|
        ensures Fits(k) && pools[k].Valid() && FreeLists()[k] == seq(CLASSES[k].room, i => i)
      {
        assert IsNewPool(pools[k], start, table, k);
      }
    }
  }

  /** Any run of calls from mempool_init on. Every answer is right, up to the first pointer behind a
      pool that free takes for a block, if there is one: that breaks the allocator. */
  method RunCalls(start: nat, behind: seq<Header>, calls: seq<Call>)
    returns (a: Allocator, answers: seq<Reply>, ghost at: map<nat, (nat, nat)>)
    requires |behind| == STRAY
    ensures |answers| <= |calls|
    ensures a.Valid() ==> |answers| == |calls| && AllRight(calls, answers)
    ensures a.Valid() ==> a.HoldsAt(a.FreeLists(), Held(calls, answers), at)
    ensures !a.Valid() ==> var n := |answers| - 1;
      n >= 0 && AllRight(calls[..n], answers[..n]) && calls[n].Free? && answers[n] == Taken(true)
      && calls[n].ptr !in Held(calls[..n], answers[..n])
  {
    a := new Allocator(start, behind);
    a.NothingHeld();
    answers, at := [], map[];
    assert calls[..0] == [];
    while |answers| < |calls|
      invariant |answers| <= |calls| && fresh(a) && fresh(a.table)
      invariant forall k :: 0 <= k < |a.pools| ==> fresh(a.pools[k])
      invariant a.Valid() && AllRight(calls[..|answers|], answers)
      invariant a.HoldsAt(a.FreeLists(), Held(calls[..|answers|], answers), at)
    {
      ghost var before := answers;
      var call := calls[|answers|];
      var answer, stray;
      answer, stray, at := a.Serve(call, Held(calls[..|answers|], answers), at);
      answers := answers + [answer];
      assert answers[..|before|] == before;
      if stray {
        return;
      }
      assert calls[..|answers|] == calls[..|before|] + [call];
      OneMoreRight(calls[..|before|], before, call, answer);
    }
    assert calls[..|answers|] == calls;
  }

  /** Two calls from mempool_init on that break the allocator, wherever its heap starts: a block of
      4 MiB is given out, and free accepts the address 2 MiB into the pool of 1 MiB. */
  method BrokenFromStart(start: nat, behind: seq<Header>) returns (a: Allocator, addr: nat, r: Freed)
    requires |behind| == STRAY
    ensures addr != NULL && r == Done && !a.Valid()
  {
    a := new Allocator(start, behind);
    assert a.FreeLists()[7] == [0, 1, 2, 3];
    addr := a.Kalloc(4 * MIB);
    assert a.FreeLists()[7] == [1, 2, 3] && a.Fits(7);
    r := a.FreeBehind();
  }

  method CountHeaders() returns (n: nat)
    ensures n == Headers(CLASSES, |CLASSES|)
  {
    n := 0;
    for k := 0 to |CLASSES|
      invariant n == Headers(CLASSES, k)
    {
      n := n + CLASSES[k].room;
    }
  }

  /** The headers as the kernel finds them, zero, and the words behind them. */
  method NewTable(behind: seq<Header>) returns (t: array<Header>)
    requires |behind| == STRAY
    ensures fresh(t) && t.Length == Headers(CLASSES, |CLASSES|) + STRAY
    ensures forall h :: 0 <= h < Headers(CLASSES, |CLASSES|) ==> t[h] == Header(0, 0, 0)
    ensures t[Headers(CLASSES, |CLASSES|)..] == behind
  {
    var n := CountHeaders();
    t := new Header[n + STRAY](h => if n <= h < n + STRAY then behind[h - n] else Header(0, 0, 0));
  }

  method NewPools(start: nat, table: array<Header>) returns (ps: seq<Pool>)
    requires table.Length == Headers(CLASSES, |CLASSES|) + STRAY
    requires forall h :: 0 <= h < Headers(CLASSES, |CLASSES|) ==> table[h].used == 0
    modifies table
    ensures ClassesOk(CLASSES) && |ps| == |CLASSES| && AllNew(ps, start, table)
    ensures forall j :: 0 <= j < |ps| ==> fresh(ps[j])
  {
    TheClassesAreOk();
    ps := [];
    for k := 0 to |CLASSES|
      invariant |ps| == k && AllNew(ps, start, table)
      invariant forall j :: 0 <= j < k ==> fresh(ps[j])
      invariant forall h :: Headers(CLASSES, k) <= h < Headers(CLASSES, |CLASSES|) ==> table[h].used == 0
    {
      HeadersAscend(CLASSES, k + 1, |CLASSES|);
      var p := NextPool(start, table, k, ps);
      AppendNew(ps, p, start, table);
      ps := ps + [p];
    }
  }

  /** MEM_ASSIGN for pool k, when those before it are made. */
  method NextPool(start: nat, table: array<Header>, k: nat, ghost ps: seq<Pool>) returns (p: Pool)
    requires ClassesOk(CLASSES) && k < |CLASSES| && table.Length == Headers(CLASSES, |CLASSES|) + STRAY
    requires forall h :: Headers(CLASSES, k) <= h < Headers(CLASSES, k) + CLASSES[k].room ==>
      h < table.Length && table[h].used == 0
    requires |ps| == k && AllNew(ps, start, table)
    modifies table
    ensures IsNewPool(p, start, table, k) && fresh(p) && AllNew(ps, start, table)
    ensures forall h :: 0 <= h < table.Length && !(Headers(CLASSES, k) <= h < Headers(CLASSES, k) + CLASSES[k].room) ==>
      table[h] == old(table[h])
  {
    HeadersAscend(CLASSES, k + 1, |CLASSES|);
    assert CLASSES[k].Ok();
    p := new Pool(CLASSES[k].size, CLASSES[k].room, Base(CLASSES, start, k), Headers(CLASSES, k), table);
    forall j | 0 <= j < k ensures IsNewPool(ps[j], start, table, j) {
      assert old(IsNewPool(ps[j], start, table, j));
      HeadersAscend(CLASSES, j, k);
      StaysValid(ps[j]);
    }
  }

  /** The first pools as MEM_ASSIGN leaves them. */
  ghost predicate AllNew(ps: seq<Pool>, start: nat, table: array<Header>)
    requires ClassesOk(CLASSES)
    reads ps, table, set p | p in ps :: p.table
  {
    && |ps| <= |CLASSES|
    && (forall j :: 0 <= j < |ps| ==> ps[j] in ps && IsNewPool(ps[j], start, table, j))
    && (forall i, j :: 0 <= i < j < |ps| ==> ps[i] != ps[j])
  }

  lemma AppendNew(ps: seq<Pool>, p: Pool, start: nat, table: array<Header>)
    requires ClassesOk(CLASSES) && |ps| < |CLASSES| && AllNew(ps, start, table) && p !in ps
    requires IsNewPool(p, start, table, |ps|)
    ensures AllNew(ps + [p], start, table)
  {
    var qs := ps + [p];
    forall j | 0 <= j < |qs| ensures IsNewPool(qs[j], start, table, j) {
      if j < |ps| { assert IsNewPool(ps[j], start, table, j); }
    }
  }

  /** Pool k as MEM_ASSIGN leaves it. */
  ghost predicate IsNewPool(p: Pool, start: nat, table: array<Header>, k: nat)
    requires ClassesOk(CLASSES) && k < |CLASSES|
    reads p, table, p.table
  {
    && p.Valid() && p.size == CLASSES[k].size && p.room == CLASSES[k].room && p.base == Base(CLASSES, start, k)
    && p.off == Headers(CLASSES, k) && p.table == table && p.free == seq(CLASSES[k].room, i => i)
  }

  /** Every word of the block at addr is zero. */
  ghost predicate Zeroed(mem: map<nat, nat>, addr: nat, size: nat) {
    forall a :: addr <= a && a + 8 <= addr + size && (a - addr) % 8 == 0 ==> a in mem && mem[a] == 0
  }

  ghost predicate SameOutside(m: map<nat, nat>, m': map<nat, nat>, addr: nat, size: nat) {
    forall a: nat :: !(addr <= a < addr + size) ==> (a in m <==> a in m') && (a in m ==> m'[a] == m[a])
  }
}
