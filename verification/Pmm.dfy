/** The memory allocator: one free list for each size of block, over a part of the headers. */
module Pmm {
  import opened Bits
  import opened Lists
  import opened PmmLayout

  /** The end of a free list. */
  const NIL := -1

  /** A mempool record; headers are named by their number, counted through all tables. */
  datatype Header = Header(addr: nat, used: int, next: int)

  datatype Freed = Done | Unaligned | NotInUse | Illegal

  /** A mempool_head and its part of the headers: `room` of them from number `off` on. */
  class Pool {
    const size: nat
    const room: nat
    const base: nat
    const off: nat
    const table: array<Header>
    var first: int
    var used: int
    /** The free list, as indices into the part of the pool. */
    ghost var free: seq<nat>

    ghost predicate Shape()
    {
      size > 0 && room > 0 && off + room <= table.Length
    }

    /** Free are exactly the headers not in use, each once, and header i is for block i. */
    ghost predicate Valid()
      reads this, table
    {
      && Shape()
      && used + |free| == room
      && Members() && Linked() && Distinct(free)
      && (forall i :: 0 <= i < room ==> HeaderOk(i))
    }

    ghost predicate Members()
      reads this
    {
      forall i :: i in free ==> i < room
    }

    ghost predicate HeaderOk(i: nat)
      requires Shape() && i < room
      reads this, table
    {
      table[off + i].addr == Nth(base, size, i) && table[off + i].used == if i in free then 0 else 1
    }

    ghost predicate Linked()
      requires Shape() && Members()
      reads this, table
    {
      && first == (if free == [] then NIL else off + free[0])
      && forall j :: 0 <= j < |free| ==> LinkOk(j)
    }

    ghost predicate LinkOk(j: nat)
      requires Shape() && j < |free| && Members()
      reads this, table
    {
      assert free[j] in free;
      table[off + free[j]].next == if j + 1 < |free| then off + free[j + 1] else NIL
    }

    /** The headers of the pool are as they were in another state of the table. */
    ghost predicate SameHeaders(was: seq<Header>)
      requires Shape() && |was| == table.Length
      reads table
    {
      forall h :: off <= h < off + room ==> table[h] == was[h]
    }

    /** A pool with every block free, in order. The headers are zero when the kernel starts. */
    constructor (size: nat, room: nat, base: nat, off: nat, table: array<Header>)
      requires size > 0 && room > 0 && off + room <= table.Length
      requires forall h :: off <= h < off + room ==> table[h].used == 0
      modifies table
      ensures Valid() && this.size == size && this.room == room && this.base == base && this.off == off
      ensures this.table == table && free == seq(room, i => i) && used == 0
      ensures forall h :: 0 <= h < table.Length && !(off <= h < off + room) ==> table[h] == old(table[h])
    {
      this.size, this.room, this.base, this.off, this.table := size, room, base, off, table;
      first, used := off, 0;
      free := seq(room, i => i);
      new;
      Assign();
      AllFree();
    }

    /** Header h when it is free, stands for its block, and is linked to the next one. */
    ghost function Assigned(h: nat): Header
      requires off <= h
    {
      Header(Nth(base, size, h - off), 0, if h + 1 < off + room then h + 1 else NIL)
    }

    lemma AllFree()
      requires Shape() && free == seq(room, i => i) && first == off && used == 0
      requires forall h :: off <= h < off + room ==> table[h] == Assigned(h)
      ensures Valid()
    {
      forall j | 0 <= j < |free| ensures LinkOk(j) {
        assert free[j] == j && table[off + j] == Assigned(off + j);
      }
      forall i | 0 <= i < room ensures HeaderOk(i) {
        assert free[i] == i && table[off + i] == Assigned(off + i);
      }
    }

    /** MEM_ASSIGN. */
    method Assign()
      requires Shape() && forall h :: off <= h < off + room ==> table[h].used == 0
      modifies table
      ensures forall h :: off <= h < off + room ==> table[h] == Assigned(h)
      ensures forall h :: 0 <= h < table.Length && !(off <= h < off + room) ==> table[h] == old(table[h])
    {
      var ptr, addr := off, base;
      for i := 0 to room - 1
        invariant ptr == off + i && addr == Nth(base, size, i)
        invariant forall h :: off <= h < ptr ==> table[h] == Assigned(h)
        invariant forall h :: ptr <= h < off + room ==> table[h].used == 0
        invariant forall h :: 0 <= h < table.Length && !(off <= h < off + room) ==> table[h] == old(table[h])
      {
        table[ptr] := table[ptr].(addr := addr);
        var temp := ptr + 1;
        table[ptr] := table[ptr].(next := temp);
        assert table[ptr] == Assigned(ptr);
        ptr := temp;
        addr := addr + size;
      }
      table[ptr] := table[ptr].(addr := addr);
      table[ptr] := table[ptr].(next := NIL);
      assert table[ptr] == Assigned(ptr);
    }

    /** The head of the free list, taken off it; NIL when the pool is empty. */
    method Take() returns (temp: int)
      requires Valid()
      modifies this, table
      ensures Valid()
      ensures old(free) == [] ==> temp == NIL && free == [] && table[..] == old(table[..])
      ensures old(free) != [] ==> old(free)[0] < room && temp == off + old(free)[0] && free == old(free)[1..]
      ensures old(free) != [] ==> table[temp].addr == Nth(base, size, old(free)[0])
      ensures old(free) != [] ==> table[..] == old(table[..])[temp := old(table[temp]).(used := 1)]
    {
      temp := first;
      if free != [] {
        assert LinkOk(0) && free[0] in free && HeaderOk(free[0]);
      }
      if temp != NIL {
        first := table[temp].next;
        used := used + 1;
        table[temp] := table[temp].(used := 1);
        ghost var was := free;
        free := free[1..];
        assert forall j :: 0 <= j < |free| ==> free[j] == was[j + 1];
        assert forall i :: i in free ==> i in was;
        forall j | 0 <= j < |free| ensures LinkOk(j) {
          assert old(LinkOk(j + 1));
        }
        forall i | 0 <= i < room ensures HeaderOk(i) {
          assert old(HeaderOk(i));
          assert i in was <==> i in free || i == was[0];
        }
      }
    }

    /** MEM_FREE: the header h that the arithmetic finds decides. Behind the last block of the pool
        it belongs to another pool, or lies behind all headers; if it is in use all the same, the
        pool takes it into its list and is broken. */
    method Release(ptr: nat) returns (r: Freed, ghost h: nat)
      requires Valid() && base <= ptr && off + (ptr - base) / size < table.Length
      modifies this, table
      ensures h == off + (ptr - base) / size
      ensures r ==
        if (ptr - base) % size != 0 then Unaligned else if old(table[..])[h].used != 1 then NotInUse else Done
      ensures r == Done ==> table[..] == old(table[..])[h := Header(old(table[..])[h].addr, 0, old(first))]
      ensures r == Done ==> first == h
      ensures r != Done ==> table[..] == old(table[..]) && first == old(first) && used == old(used) && free == old(free)
      ensures ptr < Nth(base, size, room) ==> Valid() && Released(base, size, room, ptr, old(free), free, r)
      ensures ptr >= Nth(base, size, room) ==> (Valid() <==> r != Done)
    {
      h := off + (ptr - base) / size;
      var dif := ptr - base;
      BlockOrNot(base, size, room, ptr);
      if dif % size != 0 {
        return Unaligned, h;
      }
      dif := dif / size;
      assert dif < room ==> HeaderOk(dif);
      if table[off + dif].used != 1 {
        return NotInUse, h;
      }
      PushHeader(off + dif);
      if ptr < Nth(base, size, room) {
        free := [dif] + free;
        Pushed(dif);
      }
      r := Done;
    }

    method PushHeader(h: nat)
      requires h < table.Length
      modifies `first, `used, table
      ensures table[..] == old(table[..])[h := Header(old(table[h]).addr, 0, old(first))]
      ensures first == h && used == old(used) - 1
    {
      table[h] := table[h].(used := 0);
      var temp := first;
      first := h;
      table[h] := table[h].(next := temp);
      used := used - 1;
    }

    /** A header of the pool put before its free list. */
    twostate lemma Pushed(i: nat)
      requires old(Valid()) && i < room && i !in old(free) && free == [i] + old(free)
      requires table[..] == old(table[..])[off + i := Header(old(table[off + i]).addr, 0, old(first))]
      requires first == off + i && used == old(used) - 1
      ensures Valid()
    {
      forall j | 0 <= j < |free| ensures LinkOk(j) {
        if j > 0 { assert old(LinkOk(j - 1)); }
      }
      forall h | 0 <= h < room ensures HeaderOk(h) {
        assert old(HeaderOk(h));
      }
    }
  }

  /** A pool stays valid while its fields and its headers stay as they are. */
  twostate lemma StaysValid(p: Pool)
    requires old(p.Valid()) && unchanged(p) && p.SameHeaders(old(p.table[..]))
    ensures p.Valid()
  {
    forall j | 0 <= j < |p.free| ensures p.LinkOk(j) {
      assert old(p.LinkOk(j)) && p.free[j] in p.free;
    }
    forall i | 0 <= i < p.room ensures p.HeaderOk(i) {
      assert old(p.HeaderOk(i));
    }
  }

  /** Giving back ptr: the block at ptr, if there is one and it is in use, becomes the first free
      one, and otherwise nothing changes. */
  ghost predicate Released(base: nat, size: nat, room: nat, ptr: nat, free: seq<nat>, free': seq<nat>, r: Freed) {
    match r
    case Done =>
      |free'| > 0 && free' == [free'[0]] + free && free'[0] < room && free'[0] !in free
      && ptr == Nth(base, size, free'[0])
    case NotInUse => free' == free && exists i :: i in free && i < room && ptr == Nth(base, size, i)
    case Unaligned => free' == free && forall i :: ptr != Nth(base, size, i)
    case Illegal => false
  }

  /** The arithmetic of free: aligned addresses up to the last block are those of blocks, each of
      one, and no other addresses are. */
  lemma BlockOrNot(base: nat, size: nat, room: nat, ptr: nat)
    requires size > 0 && base <= ptr
    ensures (ptr - base) % size == 0 ==> ptr == Nth(base, size, (ptr - base) / size)
    ensures (ptr - base) % size == 0 ==> (ptr < Nth(base, size, room) <==> (ptr - base) / size < room)
    ensures forall j: nat :: ptr == Nth(base, size, j) ==> (ptr - base) % size == 0 && j == (ptr - base) / size
  {
    var i := (ptr - base) / size;
    if (ptr - base) % size == 0 {
      NthIsMul(base, size, i);
      assert ptr - base == i * size;
      if i < room { NthAscends(base, size, i, room); }
      if room < i { NthAscends(base, size, room, i); }
    }
    forall j: nat | ptr == Nth(base, size, j) ensures (ptr - base) % size == 0 && j == i {
      BlockDivides(base, size, ptr, j);
    }
  }

  lemma BlockDivides(base: nat, size: nat, ptr: nat, j: nat)
    requires size > 0 && ptr == Nth(base, size, j)
    ensures ptr >= base && (ptr - base) % size == 0 && (ptr - base) / size == j
  {
    NthIsMul(base, size, j);
    QuotientUnique(ptr - base, size, j, 0);
  }
}
