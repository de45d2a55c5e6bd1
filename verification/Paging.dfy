/** Four-level page tables in memory, and the edit both stivale loaders make to the live ones. */
module Paging {
  import opened Bytes
  import opened MemoryMap
  import opened Machine

  const HIGH_BASE: nat := 0xFFFF_8000_0000_0000
  const KERNEL_BASE: nat := 0xFFFF_FFFF_8000_0000

  predicate Present(e: U64) { e % 2 == 1 }

  /** Bit 7: a level-3 or level-2 entry that maps a page of its own. */
  predicate Large(e: U64) { e / 0x80 % 2 == 1 }

  /** Address bits 12 to 51. */
  function Frame(e: U64): (f: nat)
    ensures f % 0x1000 == 0 && f < 0x10_0000_0000_0000
  {
    e / 0x1000 % 0x100_0000_0000 * 0x1000
  }

  /** How much one entry of a table of the level maps. */
  function Span(level: nat): nat
    requires 1 <= level <= 4
  {
    if level == 1 then 0x1000 else if level == 2 then 0x20_0000 else if level == 3 then 0x4000_0000 else 0x80_0000_0000
  }

  /** Which entry of a table of the level covers the offset off into what the table maps. */
  function Index(level: nat, off: nat): (i: nat)
    requires 1 <= level <= 3
    ensures off < Span(level + 1) ==> i < 512
  {
    if level == 1 then off / 0x1000 else if level == 2 then off / 0x20_0000 else off / 0x4000_0000
  }

  /** The offset into what that entry maps. */
  function Rest(level: nat, off: nat): (r: nat)
    requires 1 <= level <= 3
    ensures r < Span(level)
  {
    if level == 1 then off % 0x1000 else if level == 2 then off % 0x20_0000 else off % 0x4000_0000
  }

  /** Address bits from the span of the level to 51. */
  function LargeFrame(e: U64, level: nat): nat
    requires 2 <= level <= 3
  {
    if level == 2 then e / 0x20_0000 % 0x8000_0000 * 0x20_0000 else e / 0x4000_0000 % 0x40_0000 * 0x4000_0000
  }

  /** What an entry of a table of level 1 to 3 leads to. */
  datatype Target = Nothing | Page(base: nat) | Table(table: nat)

  function Decode(e: U64, level: nat): (t: Target)
    requires 1 <= level <= 3
    ensures t.Table? ==> level > 1 && t.table % 0x1000 == 0
  {
    if !Present(e) then Nothing
    else if level == 1 then Page(Frame(e))
    else if Large(e) then Page(LargeFrame(e, level))
    else Table(Frame(e))
  }

  function TargetAt(m: Memory, level: nat, table: nat, off: nat): (t: Target)
    requires 1 <= level <= 3
    ensures t.Table? ==> level > 1 && t.table % 0x1000 == 0
  {
    Decode(ReadWord(m, table + 8 * Index(level, off)), level)
  }

  /** The walk from a table of level 1 to 3 down; off is the part of the address the table covers. */
  function Walk(m: Memory, level: nat, table: nat, off: nat): Option<nat>
    requires 1 <= level <= 3
    decreases level
  {
    match TargetAt(m, level, table, off)
    case Nothing => None
    case Page(base) => Some(base + Rest(level, off))
    case Table(next) => Walk(m, level - 1, next, Rest(level, off))
  }

  /** The addresses of the tables that walk reads. */
  function Tables(m: Memory, level: nat, table: nat, off: nat): set<nat>
    requires 1 <= level <= 3
    decreases level
  {
    var t := TargetAt(m, level, table, off);
    {table} + if t.Table? then Tables(m, level - 1, t.table, Rest(level, off)) else {}
  }

  predicate CanonicalAddress(va: U64) {
    va < 0x8000_0000_0000 || HIGH_BASE <= va
  }

  function Slot(va: U64): nat { va / Span(4) % 512 }

  /** A level-4 entry that leads to a level-3 table; bit 7 is reserved there. */
  predicate Leads(e: U64) { Present(e) && !Large(e) }

  /** The walk from a level-4 slot and the offset into what the slot maps. */
  function FromSlot(m: Memory, pml4: nat, slot: nat, off: nat): Option<nat> {
    var e := ReadWord(m, pml4 + 8 * slot);
    if Leads(e) then Walk(m, 3, Frame(e), off) else None
  }

  /** The tables below level 4 that this walk reads. */
  function TablesFrom(m: Memory, pml4: nat, slot: nat, off: nat): set<nat> {
    var e := ReadWord(m, pml4 + 8 * slot);
    if Leads(e) then Tables(m, 3, Frame(e), off) else {}
  }

  /** The physical address a virtual address reaches under the level-4 table at pml4. */
  function Translate(m: Memory, pml4: nat, va: U64): Option<nat> {
    if CanonicalAddress(va) then FromSlot(m, pml4, Slot(va), va % Span(4)) else None
  }

  function TablesFor(m: Memory, pml4: nat, va: U64): set<nat> {
    TablesFrom(m, pml4, Slot(va), va % Span(4))
  }

  /** The walk spelled out on the bits of the address: nine bits pick an entry on each of the four levels (section 4.5
      of the Intel SDM Volume 3A), bit 0 says an entry is present and bit 7 that it maps a page of its own. */
  lemma TranslateByBits(m: Memory, pml4: nat, va: U64)
    ensures var e4 := ReadWord(m, pml4 + 8 * (va / 0x80_0000_0000 % 512));
      var e3 := ReadWord(m, e4 / 0x1000 % 0x100_0000_0000 * 0x1000 + 8 * (va / 0x4000_0000 % 512));
      var e2 := ReadWord(m, e3 / 0x1000 % 0x100_0000_0000 * 0x1000 + 8 * (va / 0x20_0000 % 512));
      var e1 := ReadWord(m, e2 / 0x1000 % 0x100_0000_0000 * 0x1000 + 8 * (va / 0x1000 % 512));
      Translate(m, pml4, va) ==
        if 0x8000_0000_0000 <= va < 0xFFFF_8000_0000_0000 || e4 % 2 == 0 || e4 / 128 % 2 == 1 || e3 % 2 == 0 then None
        else if e3 / 128 % 2 == 1 then Some(e3 / 0x4000_0000 % 0x40_0000 * 0x4000_0000 + va % 0x4000_0000)
        else if e2 % 2 == 0 then None
        else if e2 / 128 % 2 == 1 then Some(e2 / 0x20_0000 % 0x8000_0000 * 0x20_0000 + va % 0x20_0000)
        else if e1 % 2 == 0 then None
        else Some(e1 / 0x1000 % 0x100_0000_0000 * 0x1000 + va % 0x1000)
  {
    hide ReadWord, Walk, Slot;
    BitFields(va);
    var e4 := ReadWord(m, pml4 + 8 * (va / 0x80_0000_0000 % 512));
    SlotBits(va);
    if Leads(e4) {
      LowerBits(m, Frame(e4), va);
    }
  }

  lemma SlotBits(va: U64)
    ensures Slot(va) == va / 0x80_0000_0000 % 512
  {
  }

  /** The same below level 4. */
  lemma LowerBits(m: Memory, table: nat, va: U64)
    ensures var e3 := ReadWord(m, table + 8 * (va / 0x4000_0000 % 512));
      var e2 := ReadWord(m, Frame(e3) + 8 * (va / 0x20_0000 % 512));
      var e1 := ReadWord(m, Frame(e2) + 8 * (va / 0x1000 % 512));
      Walk(m, 3, table, va % 0x80_0000_0000) ==
        if e3 % 2 == 0 then None
        else if e3 / 128 % 2 == 1 then Some(e3 / 0x4000_0000 % 0x40_0000 * 0x4000_0000 + va % 0x4000_0000)
        else if e2 % 2 == 0 then None
        else if e2 / 128 % 2 == 1 then Some(e2 / 0x20_0000 % 0x8000_0000 * 0x20_0000 + va % 0x20_0000)
        else if e1 % 2 == 0 then None
        else Some(Frame(e1) + va % 0x1000)
  {
    hide ReadWord, Frame, Walk;
    BitFields(va);
    var o4, o3, o2 := va % 0x80_0000_0000, va % 0x4000_0000, va % 0x20_0000;
    assert Index(3, o4) == va / 0x4000_0000 % 512 && Rest(3, o4) == o3;
    assert Index(2, o3) == va / 0x20_0000 % 512 && Rest(2, o3) == o2;
    assert Index(1, o2) == va / 0x1000 % 512 && Rest(1, o2) == va % 0x1000;
    WalkOnce(m, 3, table, o4);
    var e3 := ReadWord(m, table + 8 * Index(3, o4));
    WalkOnce(m, 2, Frame(e3), o3);
    var e2 := ReadWord(m, Frame(e3) + 8 * Index(2, o3));
    WalkOnce(m, 1, Frame(e2), o2);
  }

  lemma WalkOnce(m: Memory, level: nat, table: nat, off: nat)
    requires 1 <= level <= 3
    ensures var e := ReadWord(m, table + 8 * Index(level, off));
      Walk(m, level, table, off) ==
        if e % 2 == 0 then None
        else if level == 1 then Some(Frame(e) + Rest(1, off))
        else if e / 128 % 2 == 1 then Some(LargeFrame(e, level) + Rest(level, off))
        else Walk(m, level - 1, Frame(e), Rest(level, off))
  {
    hide ReadWord, Frame, LargeFrame, Index, Rest;
  }

  lemma BitFields(va: U64)
    ensures va % 0x80_0000_0000 / 0x4000_0000 == va / 0x4000_0000 % 512 && va % 0x80_0000_0000 % 0x4000_0000 == va % 0x4000_0000
    ensures va % 0x4000_0000 / 0x20_0000 == va / 0x20_0000 % 512 && va % 0x4000_0000 % 0x20_0000 == va % 0x20_0000
    ensures va % 0x20_0000 / 0x1000 == va / 0x1000 % 512 && va % 0x20_0000 % 0x1000 == va % 0x1000
  {
    BitField(va, 0x4000_0000);
    BitField(va, 0x20_0000);
    BitField(va, 0x1000);
  }

  lemma BitField(va: U64, span: nat)
    requires span == 0x4000_0000 || span == 0x20_0000 || span == 0x1000
    ensures va % (512 * span) / span == va / span % 512 && va % (512 * span) % span == va % span
  {
    var q, r := va / span, va % span;
    assert va == span * (512 * (q / 512) + q % 512) + r;
    assert va == (512 * span) * (q / 512) + (span * (q % 512) + r);
    ByQuotient(va, 512 * span, q / 512, span * (q % 512) + r);
    ByQuotient(span * (q % 512) + r, span, q % 512, r);
  }

  ghost predicate SameTables(m: Memory, m': Memory, tables: set<nat>) {
    forall t :: t in tables ==> SameBytes(m, m', t, EFI_PAGE_SIZE)
  }

  lemma TargetFrame(m: Memory, m': Memory, level: nat, table: nat, off: nat)
    requires 1 <= level <= 3 && off < Span(level + 1)
    requires SameBytes(m, m', table, EFI_PAGE_SIZE)
    ensures TargetAt(m', level, table, off) == TargetAt(m, level, table, off)
  {
    hide ReadWord, Decode;
    var a := table + 8 * Index(level, off);
    assert SameBytes(m, m', a, 8);
    ReadSame(m, m', a);
  }

  /** A walk depends only on the tables it reads. */
  lemma {:induction false} WalkFrame(m: Memory, m': Memory, level: nat, table: nat, off: nat)
    requires 1 <= level <= 3 && off < Span(level + 1)
    requires SameTables(m, m', Tables(m, level, table, off))
    ensures Walk(m', level, table, off) == Walk(m, level, table, off)
    ensures Tables(m', level, table, off) == Tables(m, level, table, off)
    decreases level
  {
    hide TargetAt;
    assert table in Tables(m, level, table, off);
    TargetFrame(m, m', level, table, off);
    match TargetAt(m, level, table, off)
    case Table(next) =>
      WalkFrame(m, m', level - 1, next, Rest(level, off));
    case _ =>
  }

  lemma SlotFrame(m: Memory, m': Memory, pml4: nat, slot: nat, off: nat)
    requires off < Span(4)
    requires SameBytes(m, m', pml4 + 8 * slot, 8)
    requires SameTables(m, m', TablesFrom(m, pml4, slot, off))
    ensures FromSlot(m', pml4, slot, off) == FromSlot(m, pml4, slot, off)
    ensures TablesFrom(m', pml4, slot, off) == TablesFrom(m, pml4, slot, off)
  {
    hide ReadWord, Walk, Tables, Leads, Frame, SameTables;
    ReadSame(m, m', pml4 + 8 * slot);
    var e := ReadWord(m, pml4 + 8 * slot);
    if Leads(e) {
      WalkFrame(m, m', 3, Frame(e), off);
    }
  }

  // ---------- the edit ----------

  /** Pml4[0] with the mask the loaders use, which keeps bits 12 to 62. */
  function MaskedTable(e: U64): (t: nat)
    ensures t % EFI_PAGE_SIZE == 0
  {
    e / 0x1000 % 0x8_0000_0000_0000 * 0x1000
  }

  /** A level-4 entry that leads to a table and has bits 52 to 62 clear, where the loaders' mask and the walk agree. */
  predicate PlainEntry(e: U64) {
    Leads(e) && e / 0x10_0000_0000_0000 % 0x800 == 0
  }

  lemma MaskAgreesOnPlainEntries(e: U64)
    requires e / 0x10_0000_0000_0000 % 0x800 == 0
    ensures MaskedTable(e) == Frame(e)
  {
    var n := e / 0x1000;
    var high, low := n / 0x100_0000_0000, n % 0x100_0000_0000;
    assert high == e / 0x10_0000_0000_0000;
    var k := high / 0x800;
    assert high == 0x800 * k;
    assert n == 0x8_0000_0000_0000 * k + low;
  }

  predicate EditedByte(pml4: nat, page: nat, x: nat) {
    || pml4 + 8 * 256 <= x < pml4 + 8 * 257
    || pml4 + 8 * 511 <= x < pml4 + 8 * 512
    || page <= x < page + EFI_PAGE_SIZE
  }

  /** What memory m' is after the edit of memory m, with page as the new level-3 table. */
  ghost predicate EditOf(m: Memory, m': Memory, pml4: nat, page: nat) {
    var low := MaskedTable(ReadWord(m, pml4));
    && ReadWord(m', pml4 + 8 * 256) == ReadWord(m, pml4)
    && ReadWord(m', pml4 + 8 * 511) == page + 3
    && (forall i: nat :: i < 510 ==> ReadWord(m', page + 8 * i) == 0)
    && ReadWord(m', page + 8 * 510) == ReadWord(m, low)
    && ReadWord(m', page + 8 * 511) == ReadWord(m, low + 8)
    && forall x: nat :: !EditedByte(pml4, page, x) ==> m'(x) == m(x)
  }

  predicate Aligned(pml4: nat, page: nat) {
    pml4 % EFI_PAGE_SIZE == 0 && page % EFI_PAGE_SIZE == 0 && pml4 != page && page < 0x10_0000_0000_0000
  }

  lemma {:induction false} TablesAreAligned(m: Memory, level: nat, table: nat, off: nat)
    requires 1 <= level <= 3 && table % EFI_PAGE_SIZE == 0
    ensures forall t :: t in Tables(m, level, table, off) ==> t % EFI_PAGE_SIZE == 0
    decreases level
  {
    hide TargetAt;
    match TargetAt(m, level, table, off)
    case Table(next) =>
      TablesAreAligned(m, level - 1, next, Rest(level, off));
    case _ =>
  }

  lemma OtherTablesKept(m: Memory, m': Memory, pml4: nat, page: nat, tables: set<nat>)
    requires Aligned(pml4, page) && EditOf(m, m', pml4, page)
    requires tables !! {pml4, page} && forall t :: t in tables ==> t % EFI_PAGE_SIZE == 0
    ensures SameTables(m, m', tables)
  {
    forall t | t in tables
      ensures SameBytes(m, m', t, EFI_PAGE_SIZE)
    {
      assert t != pml4 && t != page;
      assert t / EFI_PAGE_SIZE != pml4 / EFI_PAGE_SIZE && t / EFI_PAGE_SIZE != page / EFI_PAGE_SIZE;
      forall x: nat | t <= x < t + EFI_PAGE_SIZE
        ensures m(x) == m'(x)
      {
        assert !EditedByte(pml4, page, x);
      }
    }
  }

  lemma TablesKept(m: Memory, m': Memory, pml4: nat, page: nat, slot: nat, off: nat)
    requires Aligned(pml4, page) && EditOf(m, m', pml4, page)
    requires TablesFrom(m, pml4, slot, off) !! {pml4, page}
    ensures SameTables(m, m', TablesFrom(m, pml4, slot, off))
  {
    var e := ReadWord(m, pml4 + 8 * slot);
    if Leads(e) {
      TablesAreAligned(m, 3, Frame(e), off);
    }
    OtherTablesKept(m, m', pml4, page, TablesFrom(m, pml4, slot, off));
  }

  lemma PagesApart(pml4: nat, page: nat, x: nat)
    requires Aligned(pml4, page) && pml4 <= x < pml4 + EFI_PAGE_SIZE
    ensures !(page <= x < page + EFI_PAGE_SIZE)
  {
    assert pml4 / EFI_PAGE_SIZE != page / EFI_PAGE_SIZE;
  }

  lemma OtherSlotsUnchanged(m: Memory, m': Memory, pml4: nat, page: nat, slot: nat, off: nat)
    requires Aligned(pml4, page) && EditOf(m, m', pml4, page)
    requires slot < 512 && slot != 256 && slot != 511 && off < Span(4)
    requires TablesFrom(m, pml4, slot, off) !! {pml4, page}
    ensures FromSlot(m', pml4, slot, off) == FromSlot(m, pml4, slot, off)
  {
    TablesKept(m, m', pml4, page, slot, off);
    var a := pml4 + 8 * slot;
    forall x: nat | a <= x < a + 8
      ensures m(x) == m'(x)
    {
      PagesApart(pml4, page, x);
      assert !EditedByte(pml4, page, x);
    }
    SlotFrame(m, m', pml4, slot, off);
  }

  lemma Slot256IsSlot0(m: Memory, m': Memory, pml4: nat, page: nat, off: nat)
    requires Aligned(pml4, page) && EditOf(m, m', pml4, page)
    requires off < Span(4) && TablesFrom(m, pml4, 0, off) !! {pml4, page}
    ensures FromSlot(m', pml4, 256, off) == FromSlot(m, pml4, 0, off)
  {
    TablesKept(m, m', pml4, page, 0, off);
    var e := ReadWord(m, pml4);
    if Leads(e) {
      WalkFrame(m, m', 3, Frame(e), off);
    }
  }

  lemma NewTableEntry(page: nat)
    requires page % EFI_PAGE_SIZE == 0 && page < 0x10_0000_0000_0000
    ensures Leads(page + 3) && Frame(page + 3) == page
  {
    var n := page / 0x1000;
    assert page == n * 0x1000;
    assert (page + 3) / 0x80 == n * 0x20;
  }

  /** The last two gigabytes of slot 511, each the walk of the same gigabyte of slot 0. */
  lemma Slot511IsSlot0(m: Memory, m': Memory, pml4: nat, page: nat, off: nat)
    requires Aligned(pml4, page) && EditOf(m, m', pml4, page)
    requires off < 2 * Span(3) && TablesFrom(m, pml4, 0, off) !! {pml4, page}
    requires PlainEntry(ReadWord(m, pml4))
    ensures FromSlot(m', pml4, 511, 510 * Span(3) + off) == FromSlot(m, pml4, 0, off)
  {
    hide ReadWord, Decode, Leads, Frame;
    NewTableEntry(page);
    var e := ReadWord(m, pml4);
    MaskAgreesOnPlainEntries(e);
    var low, i, off' := Frame(e), Index(3, off), 510 * Span(3) + off;
    assert Index(3, off') == 510 + i && Rest(3, off') == Rest(3, off);
    var e3 := ReadWord(m, low + 8 * i);
    assert ReadWord(m', page + 8 * (510 + i)) == e3 by {
      assert i == 0 || i == 1;
    }
    assert FromSlot(m', pml4, 511, off') == Walk(m', 3, page, off');
    assert TargetAt(m', 3, page, off') == Decode(e3, 3) == TargetAt(m, 3, low, off);
    match Decode(e3, 3)
    case Table(next) =>
      var below := Tables(m, 2, next, Rest(3, off));
      assert below <= TablesFrom(m, pml4, 0, off);
      TablesKept(m, m', pml4, page, 0, off);
      WalkFrame(m, m', 2, next, Rest(3, off));
    case _ =>
  }

  lemma RestOfSlot511(m: Memory, m': Memory, pml4: nat, page: nat, off: nat)
    requires Aligned(pml4, page) && EditOf(m, m', pml4, page)
    requires off < 510 * Span(3)
    ensures FromSlot(m', pml4, 511, off) == None
  {
    hide ReadWord, Leads, Frame;
    NewTableEntry(page);
    var i := Index(3, off);
    assert ReadWord(m', page + 8 * i) == 0;
    assert FromSlot(m', pml4, 511, off) == Walk(m', 3, page, off);
    assert TargetAt(m', 3, page, off) == Decode(0, 3);
  }

  /** Where an address lies, given as a multiple of the level-4 span and an offset. */
  lemma InSlot(va: U64, k: nat, off: nat)
    requires off < Span(4) && va == k * 0x80_0000_0000 + off
    ensures Slot(va) == k % 512 && va % Span(4) == off
  {
    assert va / 0x80_0000_0000 == k;
  }

  /** Outside level-4 slots 256 and 511 every address translates as before. */
  lemma ElsewhereUnchanged(m: Memory, m': Memory, pml4: nat, page: nat, va: U64)
    requires Aligned(pml4, page) && EditOf(m, m', pml4, page)
    requires TablesFor(m, pml4, va) !! {pml4, page}
    requires Slot(va) != 256 && Slot(va) != 511
    ensures Translate(m', pml4, va) == Translate(m, pml4, va)
  {
    OtherSlotsUnchanged(m, m', pml4, page, Slot(va), va % Span(4));
  }

  /** The first 512 GiB appear again at 0xffff800000000000. */
  lemma HighAlias(m: Memory, m': Memory, pml4: nat, page: nat, x: nat)
    requires Aligned(pml4, page) && EditOf(m, m', pml4, page)
    requires x < Span(4) && TablesFor(m, pml4, x) !! {pml4, page}
    ensures Translate(m', pml4, HIGH_BASE + x) == Translate(m, pml4, x) == Translate(m', pml4, x)
  {
    InSlot(x, 0, x);
    InSlot(HIGH_BASE + x, 0x1FF_FF00, x);
    OtherSlotsUnchanged(m, m', pml4, page, 0, x);
    Slot256IsSlot0(m, m', pml4, page, x);
  }

  /** The first 2 GiB appear again at 0xffffffff80000000. */
  lemma KernelAlias(m: Memory, m': Memory, pml4: nat, page: nat, x: nat)
    requires Aligned(pml4, page) && EditOf(m, m', pml4, page)
    requires x < 0x8000_0000 && TablesFor(m, pml4, x) !! {pml4, page}
    requires PlainEntry(ReadWord(m, pml4))
    ensures Translate(m', pml4, KERNEL_BASE + x) == Translate(m, pml4, x) == Translate(m', pml4, x)
  {
    hide FromSlot, TablesFrom, ReadWord, EditOf, PlainEntry, Slot, Aligned;
    InSlot(x, 0, x);
    InSlot(KERNEL_BASE + x, 0x1FF_FFFF, 510 * Span(3) + x);
    OtherSlotsUnchanged(m, m', pml4, page, 0, x);
    Slot511IsSlot0(m, m', pml4, page, x);
  }

  /** The rest of the last level-4 slot is unmapped. */
  lemma LastSlotOtherwiseUnmapped(m: Memory, m': Memory, pml4: nat, page: nat, va: U64)
    requires Aligned(pml4, page) && EditOf(m, m', pml4, page)
    requires 0xFFFF_FF80_0000_0000 <= va < KERNEL_BASE
    ensures Translate(m', pml4, va) == None
  {
    var off := va - 0xFFFF_FF80_0000_0000;
    InSlot(va, 0x1FF_FFFF, off);
    RestOfSlot511(m, m', pml4, page, off);
  }

  predicate Apart(a: nat, b: nat) {
    a + EFI_PAGE_SIZE <= b || b + EFI_PAGE_SIZE <= a
  }

  lemma AlignedApart(a: nat, b: nat)
    requires a % EFI_PAGE_SIZE == 0 && b % EFI_PAGE_SIZE == 0 && a != b
    ensures Apart(a, b)
  {
    var i, j := a / EFI_PAGE_SIZE, b / EFI_PAGE_SIZE;
    assert a == i * EFI_PAGE_SIZE && b == j * EFI_PAGE_SIZE;
  }

  /** Memory before the two words are copied into the new table. */
  function TableLinked(m: Memory, pml4: nat, page: nat): Memory
    requires Aligned(pml4, page)
  {
    var m1 := Written(m, pml4 + 8 * 256, ToLE(ReadWord(m, pml4), 8));
    var m2 := Written(m1, page, seq(EFI_PAGE_SIZE, _ => 0));
    Written(m2, pml4 + 8 * 511, ToLE(page + 3, 8))
  }

  lemma LinkedWords(m: Memory, pml4: nat, page: nat)
    requires Aligned(pml4, page)
    ensures var m3 := TableLinked(m, pml4, page);
      && ReadWord(m3, pml4) == ReadWord(m, pml4)
      && ReadWord(m3, pml4 + 8 * 256) == ReadWord(m, pml4)
      && ReadWord(m3, pml4 + 8 * 511) == page + 3
  {
    hide ReadWord;
    AlignedApart(pml4, page);
    var w1, w2, w3 := ToLE(ReadWord(m, pml4), 8), seq(EFI_PAGE_SIZE, _ => 0), ToLE(page + 3, 8);
    var a1, a3 := pml4 + 8 * 256, pml4 + 8 * 511;
    var m1 := Written(m, a1, w1);
    var m2 := Written(m1, page, w2);
    ReadElsewhere(m, a1, w1, pml4); ReadElsewhere(m1, page, w2, pml4); ReadElsewhere(m2, a3, w3, pml4);
    ReadWritten(m, a1, ReadWord(m, pml4)); ReadElsewhere(m1, page, w2, a1); ReadElsewhere(m2, a3, w3, a1);
    ReadWritten(m2, a3, page + 3);
  }

  lemma LinkedNewTable(m: Memory, pml4: nat, page: nat, b: nat)
    requires Aligned(pml4, page) && page <= b && b + 8 <= page + EFI_PAGE_SIZE
    ensures ReadWord(TableLinked(m, pml4, page), b) == 0
  {
    hide ReadWord;
    AlignedApart(pml4, page);
    var m1 := Written(m, pml4 + 8 * 256, ToLE(ReadWord(m, pml4), 8));
    var m2 := Written(m1, page, seq(EFI_PAGE_SIZE, _ => 0));
    ReadZeroed(m1, page, EFI_PAGE_SIZE, b); ReadElsewhere(m2, pml4 + 8 * 511, ToLE(page + 3, 8), b);
  }

  lemma LinkedElsewhere(m: Memory, pml4: nat, page: nat, t: nat, b: nat)
    requires Aligned(pml4, page) && t % EFI_PAGE_SIZE == 0 && t != pml4 && t != page
    requires t <= b && b + 8 <= t + EFI_PAGE_SIZE
    ensures ReadWord(TableLinked(m, pml4, page), b) == ReadWord(m, b)
  {
    hide ReadWord;
    AlignedApart(t, pml4); AlignedApart(t, page);
    var w1, w2 := ToLE(ReadWord(m, pml4), 8), seq(EFI_PAGE_SIZE, _ => 0);
    var m1 := Written(m, pml4 + 8 * 256, w1);
    var m2 := Written(m1, page, w2);
    ReadElsewhere(m, pml4 + 8 * 256, w1, b); ReadElsewhere(m1, page, w2, b);
    ReadElsewhere(m2, pml4 + 8 * 511, ToLE(page + 3, 8), b);
  }

  /** Memory after the edit, write by write. */
  function Edited(m: Memory, pml4: nat, page: nat): Memory
    requires Aligned(pml4, page)
  {
    var m3 := TableLinked(m, pml4, page);
    var low := MaskedTable(ReadWord(m3, pml4));
    var m4 := Written(m3, page + 8 * 510, ToLE(ReadWord(m3, low), 8));
    Written(m4, page + 8 * 511, ToLE(ReadWord(m4, low + 8), 8))
  }

  lemma EditedWords(m: Memory, pml4: nat, page: nat)
    requires Aligned(pml4, page)
    requires var low := MaskedTable(ReadWord(m, pml4)); low != pml4 && low != page
    ensures var low, m' := MaskedTable(ReadWord(m, pml4)), Edited(m, pml4, page);
      && ReadWord(m', pml4 + 8 * 256) == ReadWord(m, pml4)
      && ReadWord(m', pml4 + 8 * 511) == page + 3
      && ReadWord(m', page + 8 * 510) == ReadWord(m, low)
      && ReadWord(m', page + 8 * 511) == ReadWord(m, low + 8)
  {
    hide ReadWord, TableLinked, MaskedTable;
    var m3, low := TableLinked(m, pml4, page), MaskedTable(ReadWord(m, pml4));
    AlignedApart(pml4, page); AlignedApart(low, page);
    LinkedWords(m, pml4, page);
    LinkedElsewhere(m, pml4, page, low, low); LinkedElsewhere(m, pml4, page, low, low + 8);
    var a4, a5 := page + 8 * 510, page + 8 * 511;
    var w4 := ToLE(ReadWord(m3, low), 8);
    var m4 := Written(m3, a4, w4);
    ReadElsewhere(m3, a4, w4, low + 8);
    var w5 := ToLE(ReadWord(m4, low + 8), 8);
    LastWrites(m3, page, w4, w5, pml4 + 8 * 256);
    LastWrites(m3, page, w4, w5, pml4 + 8 * 511);
    ReadWritten(m3, a4, ReadWord(m3, low)); ReadElsewhere(m4, a5, w5, a4);
    ReadWritten(m4, a5, ReadWord(m4, low + 8));
  }

  lemma LastWrites(m3: Memory, page: nat, w4: seq<Byte>, w5: seq<Byte>, b: nat)
    requires |w4| == |w5| == 8 && (b + 8 <= page + 8 * 510 || page + EFI_PAGE_SIZE <= b)
    ensures ReadWord(Written(Written(m3, page + 8 * 510, w4), page + 8 * 511, w5), b) == ReadWord(m3, b)
  {
    hide ReadWord;
    ReadElsewhere(m3, page + 8 * 510, w4, b);
    ReadElsewhere(Written(m3, page + 8 * 510, w4), page + 8 * 511, w5, b);
  }

  lemma EditedIsEditOf(m: Memory, pml4: nat, page: nat)
    requires Aligned(pml4, page)
    requires var low := MaskedTable(ReadWord(m, pml4)); low != pml4 && low != page
    ensures EditOf(m, Edited(m, pml4, page), pml4, page)
  {
    hide ReadWord, MaskedTable;
    EditedWords(m, pml4, page);
    var m' := Edited(m, pml4, page);
    forall i: nat | i < 510
      ensures ReadWord(m', page + 8 * i) == 0
    {
      var m3 := TableLinked(m, pml4, page);
      var low := MaskedTable(ReadWord(m3, pml4));
      var w4 := ToLE(ReadWord(m3, low), 8);
      LinkedNewTable(m, pml4, page, page + 8 * i);
      LastWrites(m3, page, w4, ToLE(ReadWord(Written(m3, page + 8 * 510, w4), low + 8), 8), page + 8 * i);
    }
  }

  /** The edit, in the order the loaders make it. They read and write the tables at their physical addresses. */
  method PrepareHigherHalf(p: Platform, pml4: nat) returns (page: nat)
    requires p.free != {} && forall q :: q in p.free ==> q < 0x100_0000_0000
    requires pml4 % EFI_PAGE_SIZE == 0 && pml4 / EFI_PAGE_SIZE !in p.free
    requires var low := MaskedTable(ReadWord(p.memory, pml4)); low != pml4 && low / EFI_PAGE_SIZE !in p.free
    modifies p
    ensures page / EFI_PAGE_SIZE in old(p.free) && p.free == old(p.free) - {page / EFI_PAGE_SIZE}
    ensures Aligned(pml4, page)
    ensures EditOf(old(p.memory), p.memory, pml4, page)
  {
    hide ReadWord, MaskedTable, EditOf, Written;
    ghost var m := p.memory;
    var first := ReadWord(p.memory, pml4);
    p.WriteBytes(pml4 + 8 * 256, ToLE(first, 8));
    page := p.AllocatePage();
    assert Aligned(pml4, page);
    p.WriteBytes(page, seq(EFI_PAGE_SIZE, _ => 0));
    p.WriteBytes(pml4 + 8 * 511, ToLE(page + 3, 8));
    assert p.memory == TableLinked(m, pml4, page);
    var low := MaskedTable(ReadWord(p.memory, pml4));
    p.WriteBytes(page + 8 * 510, ToLE(ReadWord(p.memory, low), 8));
    p.WriteBytes(page + 8 * 511, ToLE(ReadWord(p.memory, low + 8), 8));
    assert p.memory == Edited(m, pml4, page);
    EditedIsEditOf(m, pml4, page);
  }
}
