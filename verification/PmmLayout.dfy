/** Where the memory allocator puts its header tables and its nine pools of blocks. */
module PmmLayout {
  import opened Bits

  /** Blocks of one size: how many, and how many bytes are set aside for them. */
  datatype Class = Class(size: nat, room: nat, reserve: nat) {
    predicate Ok() { size > 0 && room > 0 && Bytes() <= reserve }

    /** The bytes of all blocks. */
    function Bytes(): nat { room * size }
  }

  const KIB := 1024
  const MIB := 1024 * 1024

  /** The 1 MiB pool has 4 MiB set aside but room for two blocks only. */
  const CLASSES: seq<Class> := [
    Class(128, 16384, 16384 * 128),
    Class(256, 16384, 16384 * 256),
    Class(KIB, 1024, 1024 * KIB),
    Class(4 * KIB, 4096, 4096 * 4 * KIB),
    Class(8 * KIB, 4096, 4096 * 8 * KIB),
    Class(64 * KIB, 128, 128 * 64 * KIB),
    Class(MIB, 2, 4 * MIB),
    Class(4 * MIB, 4, 16 * MIB),
    Class(16 * MIB, 2, 32 * MIB)
  ]

  const MEM_TABLE_SIZE := 24

  /** The ALIGN macro. */
  function Align(addr: nat, num: nat): nat
    requires num > 0
  {
    if addr % num == 0 then addr else (addr / num + 1) * num
  }

  lemma AlignUp(addr: nat, num: nat)
    requires num > 0
    ensures addr <= Align(addr, num) < addr + num && Align(addr, num) % num == 0
  {
    var q, r := addr / num, addr % num;
    assert addr == q * num + r;
    if r != 0 {
      assert (q + 1) * num == q * num + num;
      QuotientUnique((q + 1) * num, num, q + 1, 0);
    }
  }

  /** Whatever lies between two multiples is aligned up to the second. */
  lemma AlignTo(addr: nat, num: nat, q: nat)
    requires num > 0 && (q - 1) * num < addr <= q * num
    ensures Align(addr, num) == q * num
  {
    AlignUp(addr, num);
    var a := Align(addr, num);
    var p := a / num;
    assert a == p * num;
    if p > q { assert (p - q) * num >= num by { MulAtLeast(num, p - q); } }
    if p < q { assert (q - p) * num >= num by { MulAtLeast(num, q - p); } }
  }

  ghost predicate ClassesOk(cs: seq<Class>) { forall k :: 0 <= k < |cs| ==> cs[k].Ok() }

  /** The number of headers of the first k pools. */
  function Headers(cs: seq<Class>, k: nat): nat
    requires k <= |cs|
  {
    if k == 0 then 0 else Headers(cs, k - 1) + cs[k - 1].room
  }

  /** The address of header i of pool k. */
  function HeaderAddr(cs: seq<Class>, start: nat, k: nat, i: nat): nat
    requires k <= |cs|
  {
    start + MEM_TABLE_SIZE * Headers(cs, k) + MEM_TABLE_SIZE * i
  }

  /** Where pool k begins; after the last pool, where the pools end. */
  function Base(cs: seq<Class>, start: nat, k: nat): nat
    requires ClassesOk(cs) && k <= |cs|
  {
    var align := if k < |cs| then cs[k].size else 1;
    if k == 0 then Align(start + MEM_TABLE_SIZE * Headers(cs, |cs|), align)
    else Align(Base(cs, start, k - 1) + cs[k - 1].reserve, align)
  }

  /** The address of block i. */
  function Nth(base: nat, size: nat, i: nat): nat {
    if i == 0 then base else Nth(base, size, i - 1) + size
  }

  lemma {:induction false} NthIsMul(base: nat, size: nat, i: nat)
    ensures Nth(base, size, i) == base + i * size
  {
    if i > 0 {
      NthIsMul(base, size, i - 1);
      assert i * size == (i - 1) * size + size;
    }
  }

  lemma {:induction false} NthAscends(base: nat, size: nat, i: nat, j: nat)
    requires i < j
    ensures Nth(base, size, i) + size <= Nth(base, size, j)
    decreases j
  {
    if i < j - 1 { NthAscends(base, size, i, j - 1); }
  }

  /** An address is that of at most one block. */
  lemma OneBlock(base: nat, size: nat, i: nat, j: nat)
    requires size > 0 && Nth(base, size, i) == Nth(base, size, j)
    ensures i == j
  {
    if i < j { NthAscends(base, size, i, j); }
    if j < i { NthAscends(base, size, j, i); }
  }

  function Block(cs: seq<Class>, start: nat, k: nat, i: nat): nat
    requires ClassesOk(cs) && k < |cs|
  {
    Nth(Base(cs, start, k), cs[k].size, i)
  }

  lemma BaseAligned(cs: seq<Class>, start: nat, k: nat)
    requires ClassesOk(cs) && k < |cs|
    ensures Base(cs, start, k) % cs[k].size == 0
  {
    if k == 0 {
      AlignUp(start + MEM_TABLE_SIZE * Headers(cs, |cs|), cs[k].size);
    } else {
      AlignUp(Base(cs, start, k - 1) + cs[k - 1].reserve, cs[k].size);
    }
  }

  lemma BlockAligned(cs: seq<Class>, start: nat, k: nat, i: nat)
    requires ClassesOk(cs) && k < |cs|
    ensures Block(cs, start, k, i) % cs[k].size == 0
  {
    BaseAligned(cs, start, k);
    NthIsMul(Base(cs, start, k), cs[k].size, i);
    SumOfMultiples(Base(cs, start, k), cs[k].size, i);
  }

  lemma SumOfMultiples(base: nat, s: nat, i: nat)
    requires s > 0 && base % s == 0
    ensures (base + i * s) % s == 0
  {
    var q := base / s;
    assert base == q * s && (q + i) * s == q * s + i * s;
    QuotientUnique(base + i * s, s, q + i, 0);
  }

  lemma {:induction false} BasesAscend(cs: seq<Class>, start: nat, j: nat, k: nat)
    requires ClassesOk(cs) && j < k <= |cs|
    ensures Base(cs, start, j) + cs[j].Bytes() <= Base(cs, start, k)
    decreases k
  {
    AlignUp(Base(cs, start, k - 1) + cs[k - 1].reserve, if k < |cs| then cs[k].size else 1);
    assert cs[k - 1].Ok() && cs[j].Ok();
    if j < k - 1 { BasesAscend(cs, start, j, k - 1); }
  }

  lemma AboveTables(cs: seq<Class>, start: nat, k: nat)
    requires ClassesOk(cs) && k < |cs|
    ensures start + MEM_TABLE_SIZE * Headers(cs, |cs|) <= Base(cs, start, k)
  {
    AlignUp(start + MEM_TABLE_SIZE * Headers(cs, |cs|), cs[0].size);
    if k > 0 { BasesAscend(cs, start, 0, k); }
  }

  /** The next pool begins behind all the bytes set aside for this one. */
  lemma NextBase(start: nat, k: nat)
    requires ClassesOk(CLASSES) && k < 9
    ensures Base(CLASSES, start, k) + CLASSES[k].reserve <= Base(CLASSES, start, k + 1)
  {
    AlignUp(Base(CLASSES, start, k) + CLASSES[k].reserve, Alignment(k + 1));
  }

  lemma {:induction false} HeadersAscend(cs: seq<Class>, j: nat, k: nat)
    requires j <= k <= |cs|
    ensures Headers(cs, j) <= Headers(cs, k)
    ensures j < k ==> Headers(cs, j) + cs[j].room <= Headers(cs, k)
    decreases k
  {
    if j < k { HeadersAscend(cs, j, k - 1); }
  }

  /** Two different blocks never overlap, and no block overlaps a header. */
  lemma BlocksApart(cs: seq<Class>, start: nat, k: nat, i: nat, k': nat, i': nat)
    requires ClassesOk(cs) && k < |cs| && k' < |cs| && i < cs[k].room && i' < cs[k'].room && (k, i) != (k', i')
    ensures Block(cs, start, k, i) + cs[k].size <= Block(cs, start, k', i')
         || Block(cs, start, k', i') + cs[k'].size <= Block(cs, start, k, i)
    ensures HeaderAddr(cs, start, k', i') + MEM_TABLE_SIZE <= Block(cs, start, k, i)
    ensures HeaderAddr(cs, start, k, i) + MEM_TABLE_SIZE <= HeaderAddr(cs, start, k', i')
         || HeaderAddr(cs, start, k', i') + MEM_TABLE_SIZE <= HeaderAddr(cs, start, k, i)
  {
    WithinPool(cs, start, k, i);
    WithinPool(cs, start, k', i');
    AboveTables(cs, start, k);
    HeadersAscend(cs, k', |cs|);
    if k < k' {
      BasesAscend(cs, start, k, k');
      HeadersAscend(cs, k, k');
    } else if k' < k {
      BasesAscend(cs, start, k', k);
      HeadersAscend(cs, k', k);
    } else if i < i' {
      NthAscends(Base(cs, start, k), cs[k].size, i, i');
    } else {
      NthAscends(Base(cs, start, k), cs[k].size, i', i);
    }
  }

  lemma WithinPool(cs: seq<Class>, start: nat, k: nat, i: nat)
    requires ClassesOk(cs) && k < |cs| && i < cs[k].room
    ensures Base(cs, start, k) <= Block(cs, start, k, i)
    ensures Block(cs, start, k, i) + cs[k].size <= Base(cs, start, k) + cs[k].Bytes()
  {
    var base, c := Base(cs, start, k), cs[k];
    NthIsMul(base, c.size, i);
    NthIsMul(base, c.size, c.room);
    NthAscends(base, c.size, i, c.room);
  }

  lemma TheClassesAreOk()
    ensures ClassesOk(CLASSES)
  {
  }

  /** How many headers from the first one of a pool on free may look at. */
  const REACH: seq<nat> := [16386, 16388, 1028, 4098, 4104, 144, 8, 8, 2]

  function Alignment(k: nat): nat { if k < |CLASSES| then CLASSES[k].size else 1 }

  lemma ReachCovers(k: nat)
    requires k < 9
    ensures CLASSES[k].reserve + Alignment(k + 1) - 1 <= REACH[k] * CLASSES[k].size
    ensures Headers(CLASSES, k) + REACH[k] <= Headers(CLASSES, |CLASSES|) + 8
  {
    TotalHeaders();
    HeadersOf(k);
  }

  /** A pointer into the range of a pool makes free look at one of those. */
  lemma InReach(start: nat, k: nat, ptr: nat)
    requires ClassesOk(CLASSES) && k < 9 && Base(CLASSES, start, k) <= ptr < Base(CLASSES, start, k + 1)
    ensures Headers(CLASSES, k) + (ptr - Base(CLASSES, start, k)) / CLASSES[k].size < Headers(CLASSES, |CLASSES|) + 8
  {
    AlignUp(Base(CLASSES, start, k) + CLASSES[k].reserve, Alignment(k + 1));
    ReachCovers(k);
    QuotientBelow(ptr - Base(CLASSES, start, k), CLASSES[k].size, REACH[k]);
  }

  lemma QuotientBelow(d: nat, size: nat, n: nat)
    requires size > 0 && d < n * size
    ensures d / size < n
  {
    var q := d / size;
    assert d == q * size + d % size;
    if q >= n { MulMonotone(n, q, size); }
  }

  lemma HeadersOf(k: nat)
    requires k < 9
    ensures Headers(CLASSES, k) == [0, 16384, 32768, 33792, 37888, 41984, 42112, 42114, 42118][k]
  {
    assert Headers(CLASSES, 0) == 0;
    assert Headers(CLASSES, 1) == 16384;
    assert Headers(CLASSES, 2) == 32768;
    assert Headers(CLASSES, 3) == 33792;
    assert Headers(CLASSES, 4) == 37888;
    assert Headers(CLASSES, 5) == 41984;
    assert Headers(CLASSES, 6) == 42112;
    assert Headers(CLASSES, 7) == 42114;
    assert Headers(CLASSES, 8) == 42118;
  }

  /** On a heap that starts at a multiple of 16 MiB the pools end 128 MiB further. */
  lemma EndsAt128MiB(start: nat, q: nat)
    requires start == q * 0x1000000
    ensures ClassesOk(CLASSES) && Base(CLASSES, start, 9) == start + 128 * MIB
  {
    SmallPools(start, q);
    AlignTo(start + 0x3800000 + 0x800000, 0x100000, q * 16 + 64);
    assert Base(CLASSES, start, 6) == start + 0x4000000;
    AlignTo(start + 0x4000000 + 0x400000, 0x400000, q * 4 + 17);
    assert Base(CLASSES, start, 7) == start + 0x4400000;
    AlignTo(start + 0x4400000 + 0x1000000, 0x1000000, q + 6);
    assert Base(CLASSES, start, 8) == start + 0x6000000;
    AlignTo(start + 0x6000000 + 0x2000000, 1, start + 0x8000000);
  }

  lemma TotalHeaders()
    ensures Headers(CLASSES, 9) == 42120
  {
    HeadersOf(8);
  }

  lemma SmallPools(start: nat, q: nat)
    requires start == q * 0x1000000
    ensures ClassesOk(CLASSES) && Base(CLASSES, start, 5) == start + 0x3800000
  {
    SmallestPools(start, q);
    AlignTo(start + 7303168 + 0x100000, 4096, q * 0x1000 + 2039);
    assert Base(CLASSES, start, 3) == start + 8351744;
    AlignTo(start + 8351744 + 0x1000000, 8192, q * 0x800 + 3068);
    assert Base(CLASSES, start, 4) == start + 25133056;
    AlignTo(start + 25133056 + 0x2000000, 65536, q * 0x100 + 896);
  }

  lemma SmallestPools(start: nat, q: nat)
    requires start == q * 0x1000000
    ensures ClassesOk(CLASSES) && Base(CLASSES, start, 2) == start + 7303168
  {
    TotalHeaders();
    AlignTo(start + 24 * 42120, 128, q * 0x20000 + 7898);
    assert Base(CLASSES, start, 0) == start + 1010944;
    AlignTo(start + 1010944 + 0x200000, 256, q * 0x10000 + 12141);
    assert Base(CLASSES, start, 1) == start + 3108096;
    AlignTo(start + 3108096 + 0x400000, 1024, q * 0x4000 + 7132);
  }
}
