/** The stivale loaders end to end: load the ELF file, edit the page tables, and see the kernel where it was linked. */
module HigherHalf {
  import opened Bytes
  import opened MemoryMap
  import opened Machine
  import opened Paging
  import opened ElfLoader

  /** The choice LoadStivaleHeader makes from the ELF entry and the entry in the stivale header. */
  function IsHigherHalf(elfEntry: U64, headerEntry: U64): bool {
    if headerEntry != 0 then headerEntry > KERNEL_BASE else elfEntry > KERNEL_BASE
  }

  function OffsetFor(elfEntry: U64, headerEntry: U64): U64 {
    if IsHigherHalf(elfEntry, headerEntry) then KERNEL_BASE else 0
  }

  /** Linked in the top two gigabytes. */
  predicate InKernelHalf(s: Segment) {
    KERNEL_BASE <= s.vaddr && s.vaddr + s.memsz <= TWO_64
  }

  /** A higher-half segment lands where the page-table edit will show it exactly when the entry point is above
      the bare base, or the physical address in the file happens to say the same. */
  lemma LandsUnderItsLink(s: Segment, elfEntry: U64, headerEntry: U64)
    requires InKernelHalf(s)
    ensures BaseOf(s, OffsetFor(elfEntry, headerEntry)) == s.vaddr - KERNEL_BASE
       <==> (if headerEntry != 0 then headerEntry else elfEntry) > 0xFFFF_FFFF_8000_0000 || s.paddr == s.vaddr - KERNEL_BASE
  {
  }

  /** An entry point at the very base is not taken for higher half. */
  lemma EntryAtTheBaseIsLow()
    ensures !IsHigherHalf(KERNEL_BASE, 0) && OffsetFor(KERNEL_BASE, 0) == 0
    ensures var s := Segment(PT_LOAD, 0, KERNEL_BASE, 0x10_0000, 0x1000, 0x1000);
            InKernelHalf(s) && BaseOf(s, OffsetFor(KERNEL_BASE, 0)) != s.vaddr - KERNEL_BASE
  {
  }

  /** What the firmware hands over (section 2.3.4 of the UEFI specification): the pages it can still give are
      identity mapped, and the page tables are not among them. */
  ghost predicate FirmwareTables(m: Memory, free: set<nat>, pml4: nat) {
    && PhysicalPages(free)
    && pml4 % EFI_PAGE_SIZE == 0 && !InPages(free, pml4)
    && PlainEntry(ReadWord(m, pml4))
    && (forall x: U64 {:trigger InPages(free, x)} :: InPages(free, x) ==> Translate(m, pml4, x) == Some(x))
    && (forall va: U64 :: pml4 !in TablesFor(m, pml4, va))
    && forall va: U64, t: nat :: t in TablesFor(m, pml4, va) ==> !InPages(free, t)
  }

  /** Reading the virtual address gives the byte. */
  predicate Shows(m: Memory, pml4: nat, va: U64, b: Byte) {
    Translate(m, pml4, va).Some? && m(Translate(m, pml4, va).value) == b
  }

  /** Loading changes no translation. */
  lemma TranslationKept(m: Memory, free: set<nat>, m': Memory, free': set<nat>, pml4: nat, va: U64)
    requires FirmwareTables(m, free, pml4) && OnlyTakenPagesChanged(m, free, m', free')
    ensures Translate(m', pml4, va) == Translate(m, pml4, va)
    ensures TablesFor(m', pml4, va) == TablesFor(m, pml4, va)
  {
    hide ReadWord, Walk, Tables, PlainEntry;
    var slot, off := Slot(va), va % Span(4);
    PageKept(m, free, m', free', pml4);
    assert SameBytes(m, m', pml4 + 8 * slot, 8);
    TablesForAreAligned(m, pml4, va);
    forall t | t in TablesFor(m, pml4, va)
      ensures SameBytes(m, m', t, EFI_PAGE_SIZE)
    {
      PageKept(m, free, m', free', t);
    }
    SlotFrame(m, m', pml4, slot, off);
  }

  lemma TablesForAreAligned(m: Memory, pml4: nat, va: U64)
    ensures forall t :: t in TablesFor(m, pml4, va) ==> t % EFI_PAGE_SIZE == 0
  {
    hide ReadWord, Tables;
    var e := ReadWord(m, pml4 + 8 * Slot(va));
    if Leads(e) {
      TablesAreAligned(m, 3, Frame(e), va % Span(4));
    }
  }

  lemma PageKept(m: Memory, free: set<nat>, m': Memory, free': set<nat>, t: nat)
    requires OnlyTakenPagesChanged(m, free, m', free')
    requires t % EFI_PAGE_SIZE == 0 && !InPages(free, t)
    ensures SameBytes(m, m', t, EFI_PAGE_SIZE)
  {
    forall x: nat | t <= x < t + EFI_PAGE_SIZE
      ensures m(x) == m'(x)
    {
      assert x / EFI_PAGE_SIZE == t / EFI_PAGE_SIZE;
      assert !InPages(free, x);
    }
  }

  /** A byte written into a once free page before the edit is still there after it, and shows at its own address
      and in the two other places. */
  lemma SeenAfterEdit(m: Memory, free: set<nat>, m1: Memory, free1: set<nat>, m2: Memory, pml4: nat, page: nat, x: nat)
    requires FirmwareTables(m, free, pml4) && OnlyTakenPagesChanged(m, free, m1, free1)
    requires Aligned(pml4, page) && InPages(free1, page) && EditOf(m1, m2, pml4, page)
    requires InPages(free, x) && !InPages(free1, x)
    requires ReadWord(m1, pml4) == ReadWord(m, pml4)
    ensures ShowsEverywhere(m2, pml4, x, m1(x))
  {
    hide ReadWord, Walk, Tables, TablesFor, Translate, PlainEntry, FirmwareTables, OnlyTakenPagesChanged;
    FreeAddress(m, free, pml4, x);
    TranslationKept(m, free, m1, free1, pml4, x);
    assert Translate(m1, pml4, x) == Some(x) && TablesFor(m1, pml4, x) !! {pml4, page} && PlainEntry(ReadWord(m1, pml4)) by {
      FirmwareFacts(m, free, m1, free1, pml4, page, x);
    }
    assert m2(x) == m1(x) by {
      assert !InPages(free, pml4) by { FirmwareFacts(m, free, m1, free1, pml4, page, x); }
      NotEdited(free, free1, pml4, page, x);
    }
    LowSlot(m1, pml4, x);
    ElsewhereUnchanged(m1, m2, pml4, page, x);
    if x < Span(4) {
      HighAlias(m1, m2, pml4, page, x);
      if x < 0x8000_0000 {
        KernelAlias(m1, m2, pml4, page, x);
      }
    }
  }

  lemma FreeAddress(m: Memory, free: set<nat>, pml4: nat, x: nat)
    requires FirmwareTables(m, free, pml4) && InPages(free, x)
    ensures x < 0x10_0000_0000_0000
  {
    FirmwarePages(m, free, pml4);
  }

  /** A physical address that is its own virtual address lies in the lower half: it is canonical, and has 52 bits. */
  lemma LowSlot(m: Memory, pml4: nat, x: U64)
    requires Translate(m, pml4, x).Some? && x < 0x10_0000_0000_0000
    ensures Slot(x) < 256
  {
    hide FromSlot;
  }

  lemma FirmwareFacts(m: Memory, free: set<nat>, m1: Memory, free1: set<nat>, pml4: nat, page: nat, x: U64)
    requires FirmwareTables(m, free, pml4) && OnlyTakenPagesChanged(m, free, m1, free1)
    requires Translate(m1, pml4, x) == Translate(m, pml4, x) && TablesFor(m1, pml4, x) == TablesFor(m, pml4, x)
    requires InPages(free1, page) && InPages(free, x)
    ensures Translate(m1, pml4, x) == Some(x) && TablesFor(m1, pml4, x) !! {pml4, page}
    ensures !InPages(free, pml4) && PlainEntry(ReadWord(m, pml4))
  {
    hide ReadWord, Walk, Tables, TablesFor, Translate, PlainEntry;
    assert InPages(free, page);
  }

  lemma NotEdited(free: set<nat>, free1: set<nat>, pml4: nat, page: nat, x: nat)
    requires Aligned(pml4, page) && !InPages(free, pml4) && InPages(free, x)
    requires InPages(free1, page) && !InPages(free1, x)
    ensures !EditedByte(pml4, page, x)
  {
    assert x / EFI_PAGE_SIZE != pml4 / EFI_PAGE_SIZE && x / EFI_PAGE_SIZE != page / EFI_PAGE_SIZE;
  }

  /** Every byte of every loaded image shows at its physical address; below 512 GiB also that far above 0xffff800000000000,
      and below two gigabytes that far above 0xffffffff80000000. */
  ghost predicate AllImagesShow(m: Memory, pml4: nat, file: seq<Byte>, h: Header, vo: U64) {
    forall i: nat :: i < h.phnum && IsLoadable(file, Elf64, h, i) ==>
      var s, base := SegmentAt(file, Elf64, h, i).value, ImageBase(file, Elf64, h, vo, i);
      s.offset + s.filesz <= |file| && ImageShows(m, pml4, file, s, base)
  }

  /** The physical address shows the byte in all the places that reach it. */
  predicate ShowsEverywhere(m: Memory, pml4: nat, x: nat, b: Byte) {
    && x < TWO_64 && Shows(m, pml4, x, b)
    && (x < Span(4) ==> Shows(m, pml4, HIGH_BASE + x, b))
    && (x < 0x8000_0000 ==> Shows(m, pml4, KERNEL_BASE + x, b))
  }

  ghost predicate ImageShows(m: Memory, pml4: nat, file: seq<Byte>, s: Segment, base: nat)
    requires s.offset + s.filesz <= |file|
  {
    forall k: nat :: k < s.memsz ==> ShowsEverywhere(m, pml4, base + k, ImageByte(file, s, k))
  }

  lemma ImageShowsAfterEdit(m: Memory, free: set<nat>, m1: Memory, free1: set<nat>, m2: Memory, pml4: nat, page: nat,
                            file: seq<Byte>, s: Segment, base: nat)
    requires FirmwareTables(m, free, pml4) && OnlyTakenPagesChanged(m, free, m1, free1)
    requires Aligned(pml4, page) && InPages(free1, page) && EditOf(m1, m2, pml4, page)
    requires ReadWord(m1, pml4) == ReadWord(m, pml4)
    requires Loadable(s) && Intact(m1, file, s, base) && Taken(free1, s, base) && WasFree(free, s, base)
    ensures ImageShows(m2, pml4, file, s, base)
  {
    hide ReadWord, Shows, FirmwareTables, OnlyTakenPagesChanged, EditOf, ImageByte;
    forall k: nat | k < s.memsz
      ensures ShowsEverywhere(m2, pml4, base + k, ImageByte(file, s, k))
    {
      var x := base + k;
      assert InPages(free, x) && !InPages(free1, x);
      assert m1(x) == ImageByte(file, s, x - base);
      SeenAfterEdit(m, free, m1, free1, m2, pml4, page, x);
    }
  }

  /** The ELF file loads, and leaves a page for the new table. */
  predicate KernelLoads(file: seq<Byte>, headerEntry: U64, free: set<nat>, willing: (nat, nat) -> bool) {
    && HeaderOf(file, Elf64).Some?
    && var h := HeaderOf(file, Elf64).value;
    var vo := OffsetFor(h.entry, headerEntry);
    LoadSucceeds(file, Elf64, vo, free, willing) && free - Reserved(file, Elf64, h, vo, h.phnum) != {}
  }

  /** LoadStivaleKernel and LoadStivale2Kernel from the header to the edited page tables. The allocation of the
      new table is not checked by the loaders; a run in which it fails is not followed further. */
  method LoadKernel(p: Platform, file: seq<Byte>, headerEntry: U64, pml4: nat) returns (info: Option<Info>)
    requires FirmwareTables(p.memory, p.free, pml4)
    requires HeaderOf(file, Elf64).Some? ==> SaneFile(file, Elf64, HeaderOf(file, Elf64).value)
    modifies p
    ensures info.Some? <==> KernelLoads(file, headerEntry, old(p.free), p.willing)
    ensures info.Some? ==> info.value.virtualOffset == if info.value.entry > KERNEL_BASE then KERNEL_BASE else 0
    ensures info.Some? ==> info.value.entry == if headerEntry != 0 then headerEntry else HeaderOf(file, Elf64).value.entry
    ensures info.Some? ==> AllImagesShow(p.memory, pml4, file, HeaderOf(file, Elf64).value, info.value.virtualOffset)
    ensures info.Some? ==> forall va: U64 :: 0xFFFF_FF80_0000_0000 <= va < KERNEL_BASE ==> Translate(p.memory, pml4, va) == None
  {
    hide HeaderOf, SegmentAt, BaseOf, ReadWord, Shows, FirmwareTables, OnlyTakenPagesChanged, EditOf, ImageByte, MaskedTable,
         Intact, Taken, WasFree, PairwiseDisjoint, Tightest, ImageShows, SaneFile, Translate, LoadSucceeds, Reserved;
    info := None;
    var header := HeaderOf(file, Elf64);
    if header.None? { return; }
    var h := header.value;
    var vo := OffsetFor(h.entry, headerEntry);
    ghost var m, free := p.memory, p.free;
    FirmwarePages(m, free, pml4);
    LoadNeedsHeader(file, vo, p.free, p.willing);
    var loaded := LoadElf(p, file, Elf64, vo);
    if loaded.None? || p.free == {} { return; }
    ghost var m1, free1 := p.memory, p.free;
    ReadyToEdit(m, free, m1, free1, pml4);
    var page := PrepareHigherHalf(p, pml4);
    forall i: nat | i < h.phnum && IsLoadable(file, Elf64, h, i)
      ensures var s, base := SegmentAt(file, Elf64, h, i).value, ImageBase(file, Elf64, h, vo, i);
        s.offset + s.filesz <= |file| && ImageShows(p.memory, pml4, file, s, base)
    {
      var s, base := SegmentAt(file, Elf64, h, i).value, ImageBase(file, Elf64, h, vo, i);
      assert LoadedAt(m1, free1, file, Elf64, h, vo, i);
      IntactFits(m1, file, s, base);
      ImageShowsAfterEdit(m, free, m1, free1, p.memory, pml4, page, file, s, base);
    }
    forall va: U64 | 0xFFFF_FF80_0000_0000 <= va < KERNEL_BASE
      ensures Translate(p.memory, pml4, va) == None
    {
      LastSlotOtherwiseUnmapped(m1, p.memory, pml4, page, va);
    }
    info := Some(if headerEntry != 0 then loaded.value.(entry := headerEntry) else loaded.value);
  }

  lemma LoadNeedsHeader(file: seq<Byte>, vo: U64, free: set<nat>, willing: (nat, nat) -> bool)
    ensures LoadSucceeds(file, Elf64, vo, free, willing) ==> HeaderOf(file, Elf64).Some?
  {
  }

  lemma IntactFits(m: Memory, file: seq<Byte>, s: Segment, base: nat)
    requires Intact(m, file, s, base)
    ensures s.offset + s.filesz <= |file|
  {
  }

  lemma FirmwarePages(m: Memory, free: set<nat>, pml4: nat)
    requires FirmwareTables(m, free, pml4)
    ensures PhysicalPages(free)
  {
  }

  /** After the load the page tables are as the firmware left them, and still not free. */
  lemma ReadyToEdit(m: Memory, free: set<nat>, m1: Memory, free1: set<nat>, pml4: nat)
    requires FirmwareTables(m, free, pml4) && OnlyTakenPagesChanged(m, free, m1, free1)
    ensures ReadWord(m1, pml4) == ReadWord(m, pml4)
    ensures PhysicalPages(free1) && pml4 % EFI_PAGE_SIZE == 0 && pml4 / EFI_PAGE_SIZE !in free1
    ensures var low := MaskedTable(ReadWord(m1, pml4)); low != pml4 && low / EFI_PAGE_SIZE !in free1
  {
    hide ReadWord, Translate;
    PageKept(m, free, m1, free1, pml4);
    ReadSame(m, m1, pml4);
    var e := ReadWord(m, pml4);
    MaskAgreesOnPlainEntries(e);
    assert Frame(e) in TablesFor(m, pml4, 0);
    assert !InPages(free, Frame(e));
  }

  /** The promise of the higher half: when the kernel that was loaded is entered above the base, or a segment has the
      physical address that goes with its link, a segment linked in the top two gigabytes is readable there, file
      bytes first and zeros after them. */
  lemma KernelReadableAtItsLink(m: Memory, pml4: nat, file: seq<Byte>, h: Header, entry: U64, i: nat, k: nat)
    requires AllImagesShow(m, pml4, file, h, if entry > KERNEL_BASE then KERNEL_BASE else 0)
    requires i < h.phnum && IsLoadable(file, Elf64, h, i)
    requires InKernelHalf(SegmentAt(file, Elf64, h, i).value)
    requires entry > KERNEL_BASE
      || SegmentAt(file, Elf64, h, i).value.paddr == SegmentAt(file, Elf64, h, i).value.vaddr - KERNEL_BASE
    requires k < SegmentAt(file, Elf64, h, i).value.memsz
    ensures var s := SegmentAt(file, Elf64, h, i).value;
      && s.offset + s.filesz <= |file|
      && Shows(m, pml4, s.vaddr + k, if k < s.filesz then file[s.offset + k] else 0)
  {
    hide Shows, SegmentAt, BaseOf;
    var vo := if entry > KERNEL_BASE then KERNEL_BASE else 0;
    var s, base := SegmentAt(file, Elf64, h, i).value, ImageBase(file, Elf64, h, vo, i);
    LandsUnderItsLink(s, entry, 0);
    assert ImageShows(m, pml4, file, s, base);
    assert ShowsEverywhere(m, pml4, base + k, ImageByte(file, s, k));
    assert ImageByte(file, s, k) == if k < s.filesz then file[s.offset + k] else 0;
    assert KERNEL_BASE + base + k == s.vaddr + k;
  }

  // ---------- such firmware exists ----------

  /** Memory made of 64-bit words. */
  function OfWords(w: nat -> U64): Memory {
    (a: nat) => ToLE(w(a / 8), 8)[a % 8]
  }

  lemma ReadOfWords(w: nat -> U64, k: nat)
    ensures ReadWord(OfWords(w), 8 * k) == w(k)
  {
    FromToLE64(w(k));
    hide ToLE, FromLE;
    forall i: nat | i < 8
      ensures OfWords(w)(8 * k + i) == ToLE(w(k), 8)[i]
    {
      WordOfByte(k, i);
    }
    assert Slice(OfWords(w), 8 * k, 8) == ToLE(w(k), 8);
  }

  lemma WordOfByte(k: nat, i: nat)
    requires i < 8
    ensures (8 * k + i) / 8 == k && (8 * k + i) % 8 == i
  {
  }

  /** A level-4 table at 0x1000 whose first entry leads to a level-3 table at 0x2000 of 512 one-gigabyte pages. */
  function IdentityTables(k: nat): U64 {
    if k == 0x200 then 0x2003 else if 0x400 <= k < 0x600 then (k - 0x400) * 0x4000_0000 + 0x83 else 0
  }

  lemma IdentityEntry(i: nat)
    requires i < 512
    ensures Decode(i * 0x4000_0000 + 0x83, 3) == Page(i * 0x4000_0000)
  {
    hide Present, Large;
    IdentityBits(i);
    assert LargeFrame(i * 0x4000_0000 + 0x83, 3) == i * 0x4000_0000;
  }

  lemma IdentityBits(i: nat)
    requires i < 512
    ensures var e := i * 0x4000_0000 + 0x83; Present(e) && Large(e) && e / 0x4000_0000 == i
  {
    var e := i * 0x4000_0000 + 0x83;
    assert e == 2 * (i * 0x2000_0000 + 0x41) + 1;
    assert e / 0x80 == i * 0x80_0000 + 1;
    assert e / 0x80 == 2 * (i * 0x40_0000) + 1;
  }

  lemma IdentityWalk(off: nat)
    requires off < Span(4)
    ensures var m := OfWords(IdentityTables);
      && FromSlot(m, 0x1000, 0, off) == Some(off) && TablesFrom(m, 0x1000, 0, off) == {0x2000}
      && ReadWord(m, 0x1000) == 0x2003
  {
    hide ReadWord, Decode;
    var m, i := OfWords(IdentityTables), Index(3, off);
    ReadOfWords(IdentityTables, 0x200);
    ReadOfWords(IdentityTables, 0x400 + i);
    NewTableEntry(0x2000);
    IdentityEntry(i);
    assert TargetAt(m, 3, 0x2000, off) == Page(i * 0x4000_0000);
    assert i * 0x4000_0000 + Rest(3, off) == off;
  }

  lemma OtherSlotsAreEmpty(slot: nat, off: nat)
    requires 0 < slot < 512
    ensures TablesFrom(OfWords(IdentityTables), 0x1000, slot, off) == {}
  {
    hide ReadWord;
    ReadOfWords(IdentityTables, 0x200 + slot);
  }

  /** What is asked of the firmware can be had: identity tables with sixteen free pages. */
  lemma FirmwareTablesExist()
    ensures FirmwareTables(OfWords(IdentityTables), PageRange(16, 31), 0x1000)
  {
    hide ReadWord, Translate, TablesFor, PlainEntry, OfWords, IdentityTables, InPages;
    var m, free := OfWords(IdentityTables), PageRange(16, 31);
    IdentityWalk(0);
    PlainIdentity();
    forall x: U64 | InPages(free, x)
      ensures Translate(m, 0x1000, x) == Some(x)
    {
      SixteenPages(x);
      IdentityTranslates(x);
    }
    forall va: U64
      ensures TablesFor(m, 0x1000, va) <= {0x2000}
    {
      OneTable(va);
    }
    SixteenPages(0x1000);
    SixteenPages(0x2000);
  }

  lemma SixteenPages(x: nat)
    ensures InPages(PageRange(16, 31), x) <==> 0x1_0000 <= x < 0x2_0000
  {
  }

  lemma PlainIdentity()
    ensures PlainEntry(0x2003)
  {
    NewTableEntry(0x2000);
  }

  lemma IdentityTranslates(x: U64)
    requires x < Span(4)
    ensures Translate(OfWords(IdentityTables), 0x1000, x) == Some(x)
  {
    hide FromSlot;
    InSlot(x, 0, x);
    IdentityWalk(x);
  }

  lemma OneTable(va: U64)
    ensures TablesFor(OfWords(IdentityTables), 0x1000, va) <= {0x2000}
  {
    hide TablesFrom;
    if Slot(va) == 0 {
      IdentityWalk(va % Span(4));
    } else {
      OtherSlotsAreEmpty(Slot(va), va % Span(4));
    }
  }
}
