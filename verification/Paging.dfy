/** The paging geometry of the x86 port: the mmu and vm_areas tables, page-table entries,
    table indices, and the translation that the processor performs. */
module Paging {
  import opened Bits

  /** One row of mmu.pgtables. */
  datatype PtInfo = PtInfo(mask: nat, shift: nat, bits: nat)

  datatype Area = Area(start: nat, end: nat)

  datatype VmArea = VmArea(area: Area, kernel: bool)

  /** `word` is one more than the largest address; row 0 of `tables` is CR3. */
  datatype Mmu = Mmu(pgsize: nat, offset: nat, word: nat, tables: seq<PtInfo>, areas: seq<VmArea>) {

    function Levels(): int { |tables| - 1 }

    /** The area of user space: vm_areas[0]. */
    function User(): Area
      requires |areas| > 0
    {
      areas[0].area
    }

    /** The end of an area, when the end of the address space is written 0. */
    function End(a: Area): nat { if a.end == 0 then word else a.end }

    /** The slots of a top-level table that the kernel areas cover. */
    ghost predicate KernelSlot(i: int)
      requires |tables| > 1
    {
      exists k :: 0 <= k < |areas| && areas[k].kernel && InSlots(areas[k].area, i)
    }

    predicate InSlots(a: Area, i: int)
      requires |tables| > 1
    {
      Shr(a.start, tables[1].shift) <= i < Shr(End(a), tables[1].shift)
    }

    /** The indices of the tables partition an address, and areas start and end at slots. */
    ghost predicate Valid() {
      && 2 <= Levels()
      && pgsize == Pow2(offset) && offset >= 8
      && tables[0] == PtInfo(0, 0, 0)
      && (forall l :: 1 <= l <= Levels() ==> tables[l].mask == Shl(Pow2(tables[l].bits) - 1, tables[l].shift))
      && (forall l :: 1 <= l <= Levels() ==> tables[l].bits == tables[1].bits)
      && (forall l :: 1 <= l < Levels() ==> tables[l].shift == tables[l + 1].shift + tables[1].bits)
      && tables[Levels()].shift == offset
      && |areas| > 0 && !areas[0].kernel
      && User().end <= Pow2(tables[1].shift + tables[1].bits)
      && (forall va :: InUser(va) ==> !KernelSlot(Index(va, 1)))
      && (forall k :: 0 <= k < |areas| && areas[k].kernel ==> SlotAligned(areas[k].area))
    }

    ghost predicate SlotAligned(a: Area)
      requires |tables| > 1
    {
      && a.start < End(a) <= word && a.end < word && a.start != a.end
      && a.start == Shl(Shr(a.start, tables[1].shift), tables[1].shift)
      && End(a) == Shl(Shr(End(a), tables[1].shift), tables[1].shift)
      && Shr(End(a), tables[1].shift) <= Entries()
    }

    predicate InUser(va: nat)
      requires |areas| > 0
    {
      User().start <= va < User().end
    }

    /** The number of entries of a table. */
    function Entries(): nat
      requires |tables| > 1
    {
      Pow2(tables[1].bits)
    }

    /** indexof: the index of an address in a table of level l. */
    function Index(va: nat, l: nat): nat
      requires l < |tables|
    {
      Shr(And(va, tables[l].mask), tables[l].shift)
    }

    predicate PageAligned(x: nat) { Low(x, offset) == 0 }

    /** The indices of an address, from level 1 down. */
    function Path(va: nat): seq<nat>
      requires |tables| > 0
    {
      seq(|tables| - 1, l requires 0 <= l < |tables| - 1 => Index(va, l + 1))
    }
  }

  // ---------------------------------------------------------------- the two tables of the source

  const X86_64 := Mmu(4096, 12, 0x1_0000_0000_0000_0000, [
    PtInfo(0x000000000000, 0, 0),
    PtInfo(0xff8000000000, 39, 9),
    PtInfo(0x007fc0000000, 30, 9),
    PtInfo(0x00003fe00000, 21, 9),
    PtInfo(0x0000001ff000, 12, 9)
  ], [
    VmArea(Area(0x100000000000, 0x108000000000), false),
    VmArea(Area(0x000000000000, 0x008000000000), true)
  ])

  const I386 := Mmu(4096, 12, 0x1_0000_0000, [
    PtInfo(0x00000000, 0, 0),
    PtInfo(0xffc00000, 22, 10),
    PtInfo(0x003ff000, 12, 10)
  ], [
    VmArea(Area(0x40000000, 0x80000000), false),
    VmArea(Area(0x00000000, 0x40000000), true),
    VmArea(Area(0xfd000000, 0x00000000), true)
  ])

  lemma IndexIsField(m: Mmu, va: nat, l: nat)
    requires 1 <= l < |m.tables| && m.tables[l].mask == Shl(Pow2(m.tables[l].bits) - 1, m.tables[l].shift)
    ensures m.Index(va, l) == Low(Shr(va, m.tables[l].shift), m.tables[l].bits)
    ensures m.Index(va, l) < Pow2(m.tables[l].bits)
  {
    var info := m.tables[l];
    AndField(va, info.shift, info.bits);
    Recompose(Shr(va, info.shift), info.bits);
    CutUnique(Low(Shr(va, info.shift), info.bits), 0, info.shift);
  }

  /** The index in the arithmetic of the manual: a digit of the address. */
  lemma IndexIsDigit(m: Mmu, va: nat, l: nat, p: nat, q: nat)
    requires 1 <= l < |m.tables| && m.tables[l].mask == Shl(Pow2(m.tables[l].bits) - 1, m.tables[l].shift)
    requires p == Pow2(m.tables[l].shift) && q == Pow2(m.tables[l].bits)
    ensures m.Index(va, l) == (va / p) % q
  {
    IndexIsField(m, va, l);
    ShrIsDiv(va, m.tables[l].shift);
    ShrIsDiv(Shr(va, m.tables[l].shift), m.tables[l].bits);
  }

  /** The page that an address lies in. */
  function PageOf(m: Mmu, va: nat): nat { Shr(va, m.offset) }

  /** Two user addresses have the same indices exactly when they lie in the same page. */
  lemma SamePathIffSamePage(m: Mmu, va: nat, va': nat)
    requires m.Valid() && m.InUser(va) && m.InUser(va')
    ensures m.Path(va) == m.Path(va') <==> PageOf(m, va) == PageOf(m, va')
  {
    if m.Path(va) == m.Path(va') {
      SamePrefix(m, va, va', m.Levels());
    }
    if PageOf(m, va) == PageOf(m, va') {
      forall k | 0 <= k < m.Levels() ensures m.Path(va)[k] == m.Path(va')[k] {
        SamePageSameIndex(m, va, va', k + 1);
      }
      assert m.Path(va) == m.Path(va');
    }
  }

  lemma SamePageSameIndex(m: Mmu, va: nat, va': nat, l: nat)
    requires m.Valid() && 1 <= l <= m.Levels() && PageOf(m, va) == PageOf(m, va')
    ensures m.Index(va, l) == m.Index(va', l)
  {
    ShiftsAbovePage(m, l);
    ShrShr(va, m.offset, m.tables[l].shift - m.offset);
    ShrShr(va', m.offset, m.tables[l].shift - m.offset);
    IndexIsField(m, va, l);
    IndexIsField(m, va', l);
  }

  lemma {:induction false} ShiftsAbovePage(m: Mmu, l: nat)
    requires m.Valid() && 1 <= l <= m.Levels()
    ensures m.tables[l].shift >= m.offset
    decreases m.Levels() - l
  {
    if l < m.Levels() { ShiftsAbovePage(m, l + 1); }
  }

  lemma {:induction false} SamePrefix(m: Mmu, va: nat, va': nat, l: nat)
    requires m.Valid() && m.InUser(va) && m.InUser(va')
    requires m.Path(va) == m.Path(va')
    requires 1 <= l <= m.Levels()
    ensures Shr(va, m.tables[l].shift) == Shr(va', m.tables[l].shift)
    decreases l
  {
    var s, b := m.tables[l].shift, m.tables[l].bits;
    assert m.Path(va)[l - 1] == m.Path(va')[l - 1];
    IndexIsField(m, va, l);
    IndexIsField(m, va', l);
    if l == 1 {
      TopDigits(va, s, b);
      TopDigits(va', s, b);
    } else {
      SamePrefix(m, va, va', l - 1);
      SameDigits(va, va', s, b);
    }
  }

  lemma TopDigits(x: nat, s: nat, b: nat)
    requires x < Pow2(s + b)
    ensures Shr(x, s) == Low(Shr(x, s), b)
  {
    ShrBound(x, s, s + b);
    LowSmall(Shr(x, s), b);
  }

  lemma SameDigits(x: nat, y: nat, s: nat, b: nat)
    requires Shr(x, s + b) == Shr(y, s + b) && Low(Shr(x, s), b) == Low(Shr(y, s), b)
    ensures Shr(x, s) == Shr(y, s)
  {
    ShrShr(x, s, b);
    ShrShr(y, s, b);
    Recompose(Shr(x, s), b);
    Recompose(Shr(y, s), b);
  }

  // ---------------------------------------------------------------- both tables are sound

  /** The same conditions in plain arithmetic: `unit[l]` is what one entry of level l spans. */
  ghost predicate ValidInNumbers(m: Mmu, entries: nat, unit: seq<nat>)
  {
    && 2 <= m.Levels() && |unit| == |m.tables|
    && m.pgsize == Pow2(m.offset) && m.offset >= 8
    && m.tables[0] == PtInfo(0, 0, 0)
    && entries == Pow2(m.tables[1].bits)
    && (forall l :: 1 <= l <= m.Levels() ==> Row(m, entries, unit, l))
    && (forall l :: 1 <= l < m.Levels() ==> m.tables[l].shift == m.tables[l + 1].shift + m.tables[1].bits)
    && m.tables[m.Levels()].shift == m.offset
    && |m.areas| > 0 && !m.areas[0].kernel
    && m.User().end <= m.word
    && Whole(m.User(), m.User().end, entries, unit[1])
    && (forall k :: 0 <= k < |m.areas| && m.areas[k].kernel ==> KernelArea(m, entries, unit[1], m.areas[k].area))
  }

  ghost predicate Row(m: Mmu, entries: nat, unit: seq<nat>, l: nat)
    requires 1 <= l < |unit| == |m.tables| && entries > 0
  {
    && m.tables[l].mask == (entries - 1) * unit[l] && unit[l] == Pow2(m.tables[l].shift)
    && Pow2(m.tables[l].bits) == entries && m.tables[l].bits == m.tables[1].bits
  }

  /** A whole number of slots, within one table. */
  ghost predicate Whole(a: Area, end: nat, entries: nat, unit: nat) {
    && unit > 0 && a.start < end && end / unit <= entries
    && (a.start / unit) * unit == a.start && (end / unit) * unit == end
  }

  ghost predicate KernelArea(m: Mmu, entries: nat, unit: nat, a: Area)
    requires |m.areas| > 0
  {
    && Whole(a, m.End(a), entries, unit) && m.End(a) <= m.word && a.end < m.word && a.start != a.end
    && (m.End(a) <= m.User().start || m.User().end <= a.start)
  }

  lemma ValidFromNumbers(m: Mmu, entries: nat, unit: seq<nat>)
    requires ValidInNumbers(m, entries, unit)
    ensures m.Valid()
  {
    forall l | 1 <= l <= m.Levels()
      ensures m.tables[l].mask == Shl(Pow2(m.tables[l].bits) - 1, m.tables[l].shift)
      ensures m.tables[l].bits == m.tables[1].bits
    {
      assert Row(m, entries, unit, l);
      ShlIsMul(entries - 1, m.tables[l].shift);
    }
    assert Row(m, entries, unit, 1);
    UserEnd(m, entries, unit[1]);
    AreasAligned(m, entries, unit[1]);
    forall va | m.InUser(va) ensures !m.KernelSlot(m.Index(va, 1)) {
      UserOutside(m, entries, unit[1], va);
    }
  }

  lemma AreasAligned(m: Mmu, entries: nat, unit: nat)
    requires |m.tables| > 1 && |m.areas| > 0
    requires unit == Pow2(m.tables[1].shift) && entries == Pow2(m.tables[1].bits)
    requires forall k :: 0 <= k < |m.areas| && m.areas[k].kernel ==> KernelArea(m, entries, unit, m.areas[k].area)
    ensures forall k :: 0 <= k < |m.areas| && m.areas[k].kernel ==> m.SlotAligned(m.areas[k].area)
  {
    forall k | 0 <= k < |m.areas| && m.areas[k].kernel ensures m.SlotAligned(m.areas[k].area) {
      AreaAligned(m, entries, unit, m.areas[k].area);
    }
  }

  lemma UserOutside(m: Mmu, entries: nat, unit: nat, va: nat)
    requires |m.tables| > 1 && |m.areas| > 0 && m.InUser(va)
    requires m.tables[1].mask == Shl(Pow2(m.tables[1].bits) - 1, m.tables[1].shift)
    requires unit == Pow2(m.tables[1].shift) && entries == Pow2(m.tables[1].bits)
    requires Whole(m.User(), m.User().end, entries, unit)
    requires forall k :: 0 <= k < |m.areas| && m.areas[k].kernel ==> KernelArea(m, entries, unit, m.areas[k].area)
    ensures !m.KernelSlot(m.Index(va, 1))
  {
    forall k | 0 <= k < |m.areas| && m.areas[k].kernel ensures !m.InSlots(m.areas[k].area, m.Index(va, 1)) {
      UserApart(m, m.User().end / unit, unit, m.areas[k].area, va);
    }
  }

  lemma UserEnd(m: Mmu, entries: nat, unit: nat)
    requires |m.tables| > 1 && |m.areas| > 0
    requires unit == Pow2(m.tables[1].shift) && entries == Pow2(m.tables[1].bits)
    requires Whole(m.User(), m.User().end, entries, unit)
    ensures m.User().end <= Pow2(m.tables[1].shift + m.tables[1].bits)
  {
    var s, b := m.tables[1].shift, m.tables[1].bits;
    ShlMonotone(m.User().end / unit, entries, s);
    ShlIsMul(m.User().end / unit, s);
    PowerShifted(b, s);
  }

  lemma {:induction false} PowerShifted(b: nat, s: nat)
    ensures Shl(Pow2(b), s) == Pow2(s + b)
  {
    if s > 0 { PowerShifted(b, s - 1); }
  }

  lemma AreaAligned(m: Mmu, entries: nat, unit: nat, a: Area)
    requires |m.tables| > 1 && |m.areas| > 0
    requires unit == Pow2(m.tables[1].shift) && entries == Pow2(m.tables[1].bits)
    requires KernelArea(m, entries, unit, a)
    ensures m.SlotAligned(a)
  {
    var s := m.tables[1].shift;
    ShrIsDiv(a.start, s);
    ShrIsDiv(m.End(a), s);
    ShlIsMul(a.start / unit, s);
    ShlIsMul(m.End(a) / unit, s);
  }

  lemma UserApart(m: Mmu, hi: nat, unit: nat, a: Area, va: nat)
    requires |m.tables| > 1 && |m.areas| > 0 && m.InUser(va)
    requires m.tables[1].mask == Shl(Pow2(m.tables[1].bits) - 1, m.tables[1].shift)
    requires unit == Pow2(m.tables[1].shift)
    requires m.User().end == hi * unit && hi <= Pow2(m.tables[1].bits)
    requires m.End(a) <= m.User().start || m.User().end <= a.start
    ensures !m.InSlots(a, m.Index(va, 1))
  {
    SlotsApart(va, hi, m.User(), a.start, m.End(a), unit);
    UserIndex(m, va, unit);
    ShrIsDiv(a.start, m.tables[1].shift);
    ShrIsDiv(m.End(a), m.tables[1].shift);
  }

  lemma UserIndex(m: Mmu, va: nat, unit: nat)
    requires |m.tables| > 1
    requires m.tables[1].mask == Shl(Pow2(m.tables[1].bits) - 1, m.tables[1].shift)
    requires unit == Pow2(m.tables[1].shift) && va / unit < Pow2(m.tables[1].bits)
    ensures m.Index(va, 1) == va / unit
  {
    IndexIsField(m, va, 1);
    ShrIsDiv(va, m.tables[1].shift);
    LowSmall(Shr(va, m.tables[1].shift), m.tables[1].bits);
  }

  lemma SlotsApart(va: nat, hi: nat, user: Area, start: nat, end: nat, unit: nat)
    requires unit > 0 && user.start <= va < user.end == hi * unit
    requires end <= user.start || user.end <= start
    ensures va / unit < hi && !(start / unit <= va / unit < end / unit)
  {
    SlotBelow(va, hi, unit);
    if end <= user.start {
      QuotientMonotone(end, va, unit);
    } else {
      SlotAtLeast(start, hi, unit);
    }
  }

  lemma SlotBelow(va: nat, hi: nat, unit: nat)
    requires unit > 0 && va < hi * unit
    ensures va / unit < hi
  {
    var q := va / unit;
    assert va == q * unit + va % unit;
    if q >= hi { MulMonotone(hi, q, unit); }
  }

  lemma SlotAtLeast(x: nat, hi: nat, unit: nat)
    requires unit > 0 && hi * unit <= x
    ensures hi <= x / unit
  {
    var q := x / unit;
    assert x == q * unit + x % unit;
    if q < hi { MulAtLeast(unit, hi - q); }
  }

  lemma QuotientMonotone(x: nat, y: nat, unit: nat)
    requires unit > 0 && x <= y
    ensures x / unit <= y / unit
  {
    var q := x / unit;
    var p := y / unit;
    assert x == q * unit + x % unit && y == p * unit + y % unit;
    if p < q { MulAtLeast(unit, q - p); }
  }

  lemma X86_64Valid()
    ensures X86_64.Valid()
  {
    var unit: seq<nat> := [1, 0x8000000000, 0x40000000, 0x200000, 0x1000];
    X86_64Rows(unit);
    X86_64Areas();
    assert Pow2(12) == 4096;
    ValidFromNumbers(X86_64, 512, unit);
  }

  lemma X86_64Rows(unit: seq<nat>)
    requires unit == [1, 0x8000000000, 0x40000000, 0x200000, 0x1000]
    ensures forall l: nat :: 1 <= l <= 4 ==> Row(X86_64, 512, unit, l)
  {
    Pow2Values();
    forall l: nat | 1 <= l <= 4 ensures Row(X86_64, 512, unit, l) {
      assert l == 1 || l == 2 || l == 3 || l == 4;
    }
  }

  lemma X86_64Areas()
    ensures Whole(X86_64.User(), X86_64.User().end, 512, 0x8000000000)
    ensures KernelArea(X86_64, 512, 0x8000000000, X86_64.areas[1].area)
  {
  }

  lemma I386Valid()
    ensures I386.Valid()
  {
    var unit: seq<nat> := [1, 0x400000, 0x1000];
    I386Rows(unit);
    I386Areas();
    assert Pow2(12) == 4096;
    ValidFromNumbers(I386, 1024, unit);
  }

  lemma I386Rows(unit: seq<nat>)
    requires unit == [1, 0x400000, 0x1000]
    ensures forall l: nat :: 1 <= l <= 2 ==> Row(I386, 1024, unit, l)
  {
    Pow2Values();
    forall l: nat | 1 <= l <= 2 ensures Row(I386, 1024, unit, l) {
      assert l == 1 || l == 2;
    }
  }

  lemma I386Areas()
    ensures Whole(I386.User(), I386.User().end, 1024, 0x400000)
    ensures KernelArea(I386, 1024, 0x400000, I386.areas[1].area)
    ensures KernelArea(I386, 1024, 0x400000, I386.areas[2].area)
  {
  }

  /** Pages of both configurations, in numbers. */
  lemma PageNumbers(m: Mmu, a: nat)
    requires m.offset == 12
    ensures (m.PageAligned(a) <==> a % 4096 == 0) && PageOf(m, a) == a / 4096
  {
    ShrIsDiv(a, 12);
    Pow2Values();
  }

  /** The 64-bit address space in numbers: where user addresses lie, which top-level slot is the
      kernel's, and the indices of an address. */
  lemma X86_64Numbers(a: nat, i: int)
    ensures X86_64.InUser(a) <==> 0x100000000000 <= a < 0x108000000000
    ensures X86_64.KernelSlot(i) <==> i == 0
    ensures X86_64.Levels() == 4
    ensures X86_64.Index(a, 1) == a / 0x8000000000 % 512 && X86_64.Index(a, 2) == a / 0x40000000 % 512
    ensures X86_64.Index(a, 3) == a / 0x200000 % 512 && X86_64.Index(a, 4) == a / 0x1000 % 512
  {
    X86_64Valid();
    Pow2Values();
    IndexIsDigit(X86_64, a, 1, 0x8000000000, 512);
    IndexIsDigit(X86_64, a, 2, 0x40000000, 512);
    IndexIsDigit(X86_64, a, 3, 0x200000, 512);
    IndexIsDigit(X86_64, a, 4, 0x1000, 512);
    ShrIsDiv(0, 39);
    ShrIsDiv(0x8000000000, 39);
    assert X86_64.areas[1].kernel && (X86_64.InSlots(X86_64.areas[1].area, i) <==> i == 0);
  }

  /** The 32-bit address space in numbers. */
  lemma I386Numbers(a: nat, i: int)
    ensures I386.InUser(a) <==> 0x40000000 <= a < 0x80000000
    ensures I386.KernelSlot(i) <==> 0 <= i < 256 || 1012 <= i < 1024
    ensures I386.Levels() == 2
    ensures I386.Index(a, 1) == a / 0x400000 % 1024 && I386.Index(a, 2) == a / 0x1000 % 1024
  {
    I386Valid();
    Pow2Values();
    IndexIsDigit(I386, a, 1, 0x400000, 1024);
    IndexIsDigit(I386, a, 2, 0x1000, 1024);
    ShrIsDiv(0, 22);
    ShrIsDiv(0x40000000, 22);
    ShrIsDiv(0xfd000000, 22);
    ShrIsDiv(0x1_0000_0000, 22);
    assert I386.areas[1].kernel && (I386.InSlots(I386.areas[1].area, i) <==> 0 <= i < 256);
    assert I386.areas[2].kernel && (I386.InSlots(I386.areas[2].area, i) <==> 1012 <= i < 1024);
  }

  lemma Pow2Values()
    ensures Pow2(9) == 512 && Pow2(10) == 1024 && Pow2(12) == 4096
    ensures Pow2(21) == 0x200000 && Pow2(22) == 0x400000 && Pow2(30) == 0x40000000 && Pow2(39) == 0x8000000000
  {
    assert Pow2(9) == 512;
    assert Pow2(12) == 4096;
    assert Pow2(21) == 0x200000;
    assert Pow2(30) == 0x40000000;
  }
}
