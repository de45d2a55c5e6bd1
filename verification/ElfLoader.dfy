/** LoadElf32 and LoadElf64: the same loader for the two ELF classes. */
module ElfLoader {
  import opened Bytes
  import opened MemoryMap
  import opened Machine
  import opened Layout

  datatype Class = Elf32 | Elf64

  const PT_LOAD: U32 := 1
  const MAX_INT64: U64 := 0x7FFF_FFFF_FFFF_FFFF

  datatype Header = Header(entry: U64, phoff: U64, shoff: U64, phentsize: U16, phnum: U16, shentsize: U16, shnum: U16, shstrndx: U16)

  datatype Segment = Segment(ty: U32, offset: U64, vaddr: U64, paddr: U64, filesz: U64, memsz: U64)

  datatype Info = Info(virtualOffset: U64, physicalBase: U64, physicalTop: U64, entry: U64,
                       sectionHeaders: seq<Byte>, sectionEntrySize: nat, stringSectionIndex: nat)

  /** FileRead: size bytes at the offset, or an error when the file is too short. */
  function FileRead(file: seq<Byte>, size: nat, offset: nat): (r: Option<seq<Byte>>)
    ensures r.Some? <==> offset + size <= |file|
    ensures r.Some? ==> r.value == file[offset..offset + size]
  {
    if offset + size <= |file| then Some(file[offset..offset + size]) else None
  }

  function HeaderSize(c: Class): nat { if c.Elf32? then 52 else 64 }

  function SegmentHeaderSize(c: Class): nat { if c.Elf32? then 32 else 56 }

  /** The modulus of an address word of the class. */
  function Modulus(c: Class): nat { if c.Elf32? then TWO_32 else TWO_64 }

  function ParseHeader(bs: seq<Byte>, c: Class): Header
    requires |bs| == HeaderSize(c)
  {
    match c
    case Elf32 => Header(U32At(bs, 24), U32At(bs, 28), U32At(bs, 32),
                        U16At(bs, 42), U16At(bs, 44), U16At(bs, 46), U16At(bs, 48), U16At(bs, 50))
    case Elf64 => Header(U64At(bs, 24), U64At(bs, 32), U64At(bs, 40),
                        U16At(bs, 54), U16At(bs, 56), U16At(bs, 58), U16At(bs, 60), U16At(bs, 62))
  }

  function ParseSegment(bs: seq<Byte>, c: Class): Segment
    requires |bs| == SegmentHeaderSize(c)
  {
    match c
    case Elf32 => Segment(U32At(bs, 0), U32At(bs, 4), U32At(bs, 8), U32At(bs, 12), U32At(bs, 16), U32At(bs, 20))
    case Elf64 => Segment(U32At(bs, 0), U64At(bs, 8), U64At(bs, 16), U64At(bs, 24), U64At(bs, 32), U64At(bs, 40))
  }

  /** IS_ELF and the checks of EI_VERSION, EI_CLASS and EI_DATA. */
  predicate Identified(bs: seq<Byte>, c: Class)
    requires |bs| == HeaderSize(c)
  {
    && bs[..4] == [0x7F, 0x45, 0x4C, 0x46]
    && bs[6] == 1
    && bs[4] == (if c.Elf32? then 1 else 2)
    && bs[5] == 1
  }

  function HeaderOf(file: seq<Byte>, c: Class): Option<Header> {
    var r := FileRead(file, HeaderSize(c), 0);
    if r.Some? && Identified(r.value, c) then Some(ParseHeader(r.value, c)) else None
  }

  /** The i-th program header, or nothing when the file ends before it does. */
  function SegmentAt(file: seq<Byte>, c: Class, h: Header, i: nat): Option<Segment> {
    var r := FileRead(file, SegmentHeaderSize(c), (h.phoff + h.phentsize * i) % Modulus(c));
    if r.Some? then Some(ParseSegment(r.value, c)) else None
  }

  // ---------- the two headers as they are declared ----------

  /** Elf32_Phdr and Elf64_Phdr. */
  function SegmentFields(s: Segment, c: Class, flags: nat, align: nat): seq<Field> {
    match c
    case Elf32 => [Field(s.ty, 4), Field(s.offset, 4), Field(s.vaddr, 4), Field(s.paddr, 4),
                   Field(s.filesz, 4), Field(s.memsz, 4), Field(flags, 4), Field(align, 4)]
    case Elf64 => [Field(s.ty, 4), Field(flags, 4), Field(s.offset, 8), Field(s.vaddr, 8),
                   Field(s.paddr, 8), Field(s.filesz, 8), Field(s.memsz, 8), Field(align, 8)]
  }

  /** The fields of the file header that the loader does not look at. */
  datatype Unread = Unread(ty: U16, machine: U16, version: U32, flags: U32, ehsize: U16)

  /** Elf32_Ehdr and Elf64_Ehdr behind e_ident. */
  function HeaderFields(h: Header, c: Class, u: Unread): seq<Field> {
    var w := if c.Elf32? then 4 else 8;
    [Field(u.ty, 2), Field(u.machine, 2), Field(u.version, 4), Field(h.entry, w), Field(h.phoff, w), Field(h.shoff, w),
     Field(u.flags, 4), Field(u.ehsize, 2), Field(h.phentsize, 2), Field(h.phnum, 2), Field(h.shentsize, 2),
     Field(h.shnum, 2), Field(h.shstrndx, 2)]
  }

  predicate AllHold(fs: seq<Field>) {
    forall k :: 0 <= k < |fs| ==> Holds(fs[k])
  }

  /** A program header that stands where the file header says is read field by field. */
  lemma SegmentReadsBack(pre: seq<Byte>, s: Segment, c: Class, flags: nat, align: nat, post: seq<Byte>, h: Header, i: nat)
    requires AllHold(SegmentFields(s, c, flags, align))
    requires |pre| == (h.phoff + h.phentsize * i) % (if c.Elf32? then 0x1_0000_0000 else 0x1_0000_0000_0000_0000)
    ensures var file := pre + Packed(SegmentFields(s, c, flags, align)) + post;
      && SegmentAt(file, c, h, i) == Some(s)
      && (IsLoadable(file, c, h, i) <==> s.ty == 1 && s.memsz > 0)
  {
    hide ParseSegment, Packed, Offset, AllHold;
    var fs := SegmentFields(s, c, flags, align);
    var file := pre + Packed(fs) + post;
    SegmentOffsets(s, c, flags, align);
    var bs := file[|pre|..|pre| + SegmentHeaderSize(c)];
    assert bs == [] + Packed(fs) + [];
    SegmentParsed(s, c, flags, align);
    assert FileRead(file, SegmentHeaderSize(c), |pre|) == Some(bs);
  }

  lemma SegmentOffsets(s: Segment, c: Class, flags: nat, align: nat)
    ensures var fs := SegmentFields(s, c, flags, align);
      && |fs| == 8 && Offset(fs, 8) == SegmentHeaderSize(c)
      && (c.Elf32? ==> forall k :: 0 <= k < 8 ==> Offset(fs, k) == 4 * k)
      && (c.Elf64? ==> Offset(fs, 0) == 0 && forall k :: 1 < k < 8 ==> Offset(fs, k) == 8 * (k - 1))
  {
    var fs := SegmentFields(s, c, flags, align);
    match c
    case Elf32 =>
      assert Offset(fs, 0) == 0;
      assert Offset(fs, 1) == 4;
      assert Offset(fs, 2) == 8;
      assert Offset(fs, 3) == 12;
      assert Offset(fs, 4) == 16;
      assert Offset(fs, 5) == 20;
      assert Offset(fs, 6) == 24;
      assert Offset(fs, 7) == 28;
    case Elf64 =>
      assert Offset(fs, 1) == 4;
      assert Offset(fs, 2) == 8;
      assert Offset(fs, 3) == 16;
      assert Offset(fs, 4) == 24;
      assert Offset(fs, 5) == 32;
      assert Offset(fs, 6) == 40;
      assert Offset(fs, 7) == 48;
  }

  lemma SegmentParsed(s: Segment, c: Class, flags: nat, align: nat)
    requires AllHold(SegmentFields(s, c, flags, align))
    ensures var bs := [] + Packed(SegmentFields(s, c, flags, align)) + [];
      |bs| == SegmentHeaderSize(c) && ParseSegment(bs, c) == s
  {
    hide Packed, Word, Holds, Offset;
    var fs := SegmentFields(s, c, flags, align);
    SegmentOffsets(s, c, flags, align);
    FieldsRead([], fs, []);
    var bs := [] + Packed(fs) + [];
    assert Reads(bs, Offset(fs, 0), fs[0]) && Reads(bs, Offset(fs, 1), fs[1]) && Reads(bs, Offset(fs, 2), fs[2]);
    assert Reads(bs, Offset(fs, 3), fs[3]) && Reads(bs, Offset(fs, 4), fs[4]) && Reads(bs, Offset(fs, 5), fs[5]);
    assert Reads(bs, Offset(fs, 6), fs[6]);
    match c
    case Elf32 =>
    case Elf64 =>
  }

  /** The file header is read field by field, exactly when e_ident says what the class and the loader ask for. */
  lemma HeaderReadsBack(ident: seq<Byte>, h: Header, c: Class, u: Unread, post: seq<Byte>)
    requires |ident| == 16 && AllHold(HeaderFields(h, c, u))
    ensures HeaderOf(ident + Packed(HeaderFields(h, c, u)) + post, c) ==
      if ident[0] == 0x7F && ident[1] == 'E' as int && ident[2] == 'L' as int && ident[3] == 'F' as int
         && ident[4] == (if c.Elf32? then 1 else 2) && ident[5] == 1 && ident[6] == 1
      then Some(h) else None
  {
    hide ParseHeader, Packed;
    var fs := HeaderFields(h, c, u);
    HeaderOffsets(h, c, u);
    HeaderParsed(ident, h, c, u);
    var file, bs := ident + Packed(fs) + post, ident + Packed(fs) + [];
    assert file[..HeaderSize(c)] == bs && bs[..4] == ident[..4];
    assert ident[..4] == [ident[0], ident[1], ident[2], ident[3]];
  }

  lemma HeaderOffsets(h: Header, c: Class, u: Unread)
    ensures var fs, w := HeaderFields(h, c, u), if c.Elf32? then 4 else 8;
      && |fs| == 13 && 16 + Offset(fs, 13) == HeaderSize(c)
      && Offset(fs, 3) == 8 && Offset(fs, 4) == 8 + w && Offset(fs, 5) == 8 + 2 * w
      && forall k :: 7 < k < 13 ==> Offset(fs, k) == 2 * k - 2 + 3 * w
  {
    var fs, w := HeaderFields(h, c, u), if c.Elf32? then 4 else 8;
    assert Offset(fs, 1) == 2;
    assert Offset(fs, 2) == 4;
    assert Offset(fs, 3) == 8;
    assert Offset(fs, 4) == 8 + w;
    assert Offset(fs, 5) == 8 + 2 * w;
    assert Offset(fs, 6) == 8 + 3 * w;
    assert Offset(fs, 7) == 12 + 3 * w;
    assert Offset(fs, 8) == 14 + 3 * w;
    assert Offset(fs, 9) == 16 + 3 * w;
    assert Offset(fs, 10) == 18 + 3 * w;
    assert Offset(fs, 11) == 20 + 3 * w;
    assert Offset(fs, 12) == 22 + 3 * w;
  }

  lemma HeaderParsed(ident: seq<Byte>, h: Header, c: Class, u: Unread)
    requires |ident| == 16 && AllHold(HeaderFields(h, c, u))
    ensures var bs := ident + Packed(HeaderFields(h, c, u)) + [];
      |bs| == HeaderSize(c) && ParseHeader(bs, c) == h
  {
    hide Packed, Word, Holds, Offset;
    var fs := HeaderFields(h, c, u);
    HeaderOffsets(h, c, u);
    FieldsRead(ident, fs, []);
    var bs := ident + Packed(fs) + [];
    assert Reads(bs, 16 + Offset(fs, 3), fs[3]) && Reads(bs, 16 + Offset(fs, 4), fs[4]) && Reads(bs, 16 + Offset(fs, 5), fs[5]);
    assert Reads(bs, 16 + Offset(fs, 8), fs[8]) && Reads(bs, 16 + Offset(fs, 9), fs[9]) && Reads(bs, 16 + Offset(fs, 10), fs[10]);
    assert Reads(bs, 16 + Offset(fs, 11), fs[11]) && Reads(bs, 16 + Offset(fs, 12), fs[12]);
    match c
    case Elf32 =>
    case Elf64 =>
  }

  predicate Loadable(s: Segment) { s.ty == PT_LOAD && s.memsz != 0 }

  /** Where the segment goes. */
  function BaseOf(s: Segment, virtualOffset: U64): U64 {
    if virtualOffset != 0 then (s.vaddr - virtualOffset) % TWO_64 else s.paddr
  }

  /** The segment is placed below its virtual address by the offset, in 64 bits, or at its physical address. */
  lemma PlacedByOffset(s: Segment, virtualOffset: U64)
    ensures virtualOffset != 0 ==> (BaseOf(s, virtualOffset) + virtualOffset) % TWO_64 == s.vaddr
    ensures BaseOf(s, 0) == s.paddr
  {
    if s.vaddr < virtualOffset {
      WholeTurns(s.vaddr - virtualOffset, 1);
    }
  }

  /** How many pages are asked for: EFI_SIZE_TO_PAGES(ALIGN_VALUE(p_memsz, EFI_PAGE_SIZE)). */
  function PagesFor(s: Segment, c: Class): nat {
    var size := AlignValue(s.memsz, EFI_PAGE_SIZE, Modulus(c));
    size / EFI_PAGE_SIZE + if size % EFI_PAGE_SIZE != 0 then 1 else 0
  }

  /** The pages cover the segment with less than a page to spare, exactly when rounding its size up fits the word. */
  lemma PagesCoverSegment(s: Segment, c: Class)
    requires s.memsz < Modulus(c)
    ensures s.memsz <= Modulus(c) - EFI_PAGE_SIZE
       <==> s.memsz <= PagesFor(s, c) * EFI_PAGE_SIZE < s.memsz + EFI_PAGE_SIZE
    ensures s.memsz > Modulus(c) - EFI_PAGE_SIZE ==> PagesFor(s, c) == 0
  {
    AlignValueRoundsUp(s.memsz, EFI_PAGE_SIZE, Modulus(c));
    RoundUpIsLeast(s.memsz, EFI_PAGE_SIZE);
  }

  /** What the program counts on: no segment holds more in the file than in memory, and sizes round up within a word. */
  predicate SaneSegment(s: Segment, c: Class) {
    Loadable(s) ==> s.filesz <= s.memsz <= Modulus(c) - EFI_PAGE_SIZE
  }

  /** The byte a loaded segment shows at offset k. */
  function ImageByte(file: seq<Byte>, s: Segment, k: nat): Byte
    requires s.offset + s.filesz <= |file|
  {
    if k < s.filesz then file[s.offset + k] else 0
  }

  /** The whole image of the segment is in memory. */
  ghost predicate Intact(m: Memory, file: seq<Byte>, s: Segment, base: nat) {
    && s.offset + s.filesz <= |file|
    && forall x: nat :: base <= x < base + s.memsz ==> m(x) == ImageByte(file, s, x - base)
  }

  /** No byte of the segment lies in a free page. */
  ghost predicate Taken(free: set<nat>, s: Segment, base: nat) {
    forall x: nat :: base <= x < base + s.memsz ==> !InPages(free, x)
  }

  /** Every byte of the segment lies in a free page. */
  ghost predicate WasFree(free: set<nat>, s: Segment, base: nat) {
    forall x: nat :: base <= x < base + s.memsz ==> InPages(free, x)
  }

  predicate DisjointImages(s: Segment, base: nat, s': Segment, base': nat) {
    base + s.memsz <= base' || base' + s'.memsz <= base
  }

  lemma FreePagesAreDisjoint(free: set<nat>, s: Segment, base: nat, s': Segment, base': nat)
    requires s.memsz > 0 && s'.memsz > 0
    requires Taken(free, s, base) && WasFree(free, s', base')
    ensures DisjointImages(s, base, s', base')
  {
    var x := if base < base' then base' else base;
    var inBoth := InPages(free, x);
  }

  /** Memory and allocator moving on leave a loaded segment alone. */
  lemma StaysIntact(m: Memory, free: set<nat>, m': Memory, free': set<nat>, file: seq<Byte>, s: Segment, base: nat)
    requires Intact(m, file, s, base) && Taken(free, s, base)
    requires OnlyTakenPagesChanged(m, free, m', free')
    ensures Intact(m', file, s, base) && Taken(free', s, base)
  {
    forall x: nat | base <= x < base + s.memsz
      ensures m'(x) == m(x) && !InPages(free', x)
    {
      assert !InPages(free, x);
    }
  }

  /** Only memory in pages that were free and no longer are has changed. */
  ghost predicate OnlyTakenPagesChanged(m: Memory, free: set<nat>, m': Memory, free': set<nat>) {
    && free' <= free
    && forall x: nat {:trigger m'(x)} :: !InPages(free, x) || InPages(free', x) ==> m'(x) == m(x)
  }

  /** Whether one segment loads: its pages are to be had and its bytes are in the file. */
  predicate CanLoad(file: seq<Byte>, c: Class, s: Segment, base: nat, free: set<nat>, willing: (nat, nat) -> bool) {
    && willing(base, PagesFor(s, c)) && PagesOf(base, PagesFor(s, c)) <= free
    && s.offset + s.filesz <= |file|
  }

  /** One PT_LOAD segment: allocate, read, zero the rest. */
  method LoadSegment(p: Platform, file: seq<Byte>, c: Class, s: Segment, base: U64) returns (ok: bool)
    requires Loadable(s) && SaneSegment(s, c)
    modifies p
    ensures OnlyTakenPagesChanged(old(p.memory), old(p.free), p.memory, p.free)
    ensures ok <==> CanLoad(file, c, s, base, old(p.free), p.willing)
    ensures ok ==> p.free == old(p.free) - PagesOf(base, PagesFor(s, c))
    ensures ok ==> Intact(p.memory, file, s, base) && Taken(p.free, s, base)
    ensures ok ==> WasFree(old(p.free), s, base)
  {
    var pages := PagesFor(s, c);
    PagesCoverSegment(s, c);
    ok := p.AllocateAddress(base, pages);
    if !ok { return; }
    var data := FileRead(file, s.filesz, s.offset);
    if data.None? { ok := false; return; }
    p.WriteBytes(base, data.value);
    p.WriteBytes(base + s.filesz, seq(s.memsz - s.filesz, _ => 0));
  }

  /** Physical addresses have 52 bits. */
  predicate PhysicalPages(free: set<nat>) {
    forall q :: q in free ==> q < 0x100_0000_0000
  }

  lemma FreeSegmentsAreLow(free: set<nat>, s: Segment, base: nat)
    requires PhysicalPages(free) && WasFree(free, s, base) && s.memsz > 0
    ensures base + s.memsz <= 0x10_0000_0000_0000
  {
    assert InPages(free, base + s.memsz - 1);
  }

  ghost predicate LoadedAt(m: Memory, free: set<nat>, file: seq<Byte>, c: Class, h: Header, vo: U64, i: nat) {
    && SegmentAt(file, c, h, i).Some?
    && var s := SegmentAt(file, c, h, i).value;
    (Loadable(s) ==> Intact(m, file, s, BaseOf(s, vo)) && Taken(free, s, BaseOf(s, vo)))
  }

  predicate IsLoadable(file: seq<Byte>, c: Class, h: Header, i: nat) {
    SegmentAt(file, c, h, i).Some? && Loadable(SegmentAt(file, c, h, i).value)
  }

  function ImageBase(file: seq<Byte>, c: Class, h: Header, vo: U64, i: nat): U64
    requires IsLoadable(file, c, h, i)
  {
    BaseOf(SegmentAt(file, c, h, i).value, vo)
  }

  function ImageTop(file: seq<Byte>, c: Class, h: Header, vo: U64, i: nat): nat
    requires IsLoadable(file, c, h, i)
  {
    ImageBase(file, c, h, vo, i) + SegmentAt(file, c, h, i).value.memsz
  }

  /** The pages the first n program headers take. */
  function Reserved(file: seq<Byte>, c: Class, h: Header, vo: U64, n: nat): set<nat> {
    if n == 0 then {} else
      Reserved(file, c, h, vo, n - 1) +
      if IsLoadable(file, c, h, n - 1) then
        PagesOf(ImageBase(file, c, h, vo, n - 1), PagesFor(SegmentAt(file, c, h, n - 1).value, c))
      else {}
  }

  /** Whether the first n program headers can all be read and their segments loaded one after the other,
      each from what the earlier ones have left free. */
  predicate CanLoadAll(file: seq<Byte>, c: Class, h: Header, vo: U64, n: nat, free: set<nat>, willing: (nat, nat) -> bool) {
    forall i: nat :: i < n ==>
      && SegmentAt(file, c, h, i).Some?
      && (IsLoadable(file, c, h, i) ==>
            CanLoad(file, c, SegmentAt(file, c, h, i).value, ImageBase(file, c, h, vo, i), free - Reserved(file, c, h, vo, i), willing))
  }

  ghost predicate PairwiseDisjoint(file: seq<Byte>, c: Class, h: Header, vo: U64, n: nat) {
    forall i: nat, j: nat :: i < j < n && IsLoadable(file, c, h, i) && IsLoadable(file, c, h, j) ==>
      DisjointImages(SegmentAt(file, c, h, i).value, ImageBase(file, c, h, vo, i),
                     SegmentAt(file, c, h, j).value, ImageBase(file, c, h, vo, j))
  }

  /** [base, top) is the least interval around the first n program headers' images. */
  ghost predicate Tightest(file: seq<Byte>, c: Class, h: Header, vo: U64, n: nat, base: U64, top: U64) {
    && (forall i: nat :: i < n && IsLoadable(file, c, h, i) ==>
          base <= ImageBase(file, c, h, vo, i) && ImageTop(file, c, h, vo, i) <= top)
    && ((base == 0x7FFF_FFFF_FFFF_FFFF && top == 0 && forall i: nat :: i < n ==> !IsLoadable(file, c, h, i))
        || ((exists i: nat :: i < n && IsLoadable(file, c, h, i) && ImageBase(file, c, h, vo, i) == base)
         && (exists i: nat :: i < n && IsLoadable(file, c, h, i) && ImageTop(file, c, h, vo, i) == top)))
  }

  lemma TightestStep(file: seq<Byte>, c: Class, h: Header, vo: U64, n: nat, base: U64, top: U64)
    requires Tightest(file, c, h, vo, n, base, top)
    requires IsLoadable(file, c, h, n) ==> ImageTop(file, c, h, vo, n) <= 0x10_0000_0000_0000
    ensures !IsLoadable(file, c, h, n) ==> Tightest(file, c, h, vo, n + 1, base, top)
    ensures IsLoadable(file, c, h, n) ==>
      var b, t := ImageBase(file, c, h, vo, n), ImageTop(file, c, h, vo, n);
      Tightest(file, c, h, vo, n + 1, if base > b then b else base, if top < t then t else top)
  {
    hide SegmentAt, BaseOf, ImageBase, ImageTop;
    if IsLoadable(file, c, h, n) {
      var b, t := ImageBase(file, c, h, vo, n), ImageTop(file, c, h, vo, n);
      assert b <= t by { assert t == b + SegmentAt(file, c, h, n).value.memsz by { ImageTopIs(file, c, h, vo, n); } }
      var base', top' := if base > b then b else base, if top < t then t else top;
      if base == MAX_INT64 && top == 0 && forall i: nat :: i < n ==> !IsLoadable(file, c, h, i) {
      } else {
        var i: nat :| i < n && IsLoadable(file, c, h, i) && ImageBase(file, c, h, vo, i) == base;
        var j: nat :| j < n && IsLoadable(file, c, h, j) && ImageTop(file, c, h, vo, j) == top;
      }
    }
  }

  lemma ImageTopIs(file: seq<Byte>, c: Class, h: Header, vo: U64, n: nat)
    requires IsLoadable(file, c, h, n)
    ensures ImageTop(file, c, h, vo, n) == ImageBase(file, c, h, vo, n) + SegmentAt(file, c, h, n).value.memsz
  {
  }

  lemma NothingChanged(m: Memory, free: set<nat>)
    ensures OnlyTakenPagesChanged(m, free, m, free)
  {
  }

  lemma ChangesCompose(m: Memory, free: set<nat>, m': Memory, free': set<nat>, m'': Memory, free'': set<nat>)
    requires OnlyTakenPagesChanged(m, free, m', free') && OnlyTakenPagesChanged(m', free', m'', free'')
    ensures OnlyTakenPagesChanged(m, free, m'', free'') && free' <= free
  {
    forall x: nat | !InPages(free, x) || InPages(free'', x)
      ensures m''(x) == m(x)
    {
      assert m'(x) == m(x);
    }
  }

  lemma FreeOnlyShrinks(m: Memory, free: set<nat>, m': Memory, free': set<nat>)
    requires OnlyTakenPagesChanged(m, free, m', free') && PhysicalPages(free)
    ensures PhysicalPages(free')
  {
  }

  lemma FreedEarlier(free: set<nat>, free': set<nat>, s: Segment, base: nat)
    requires free' <= free && WasFree(free', s, base)
    ensures WasFree(free, s, base)
  {
    forall x: nat | base <= x < base + s.memsz
      ensures InPages(free, x)
    {
      assert InPages(free', x);
    }
  }

  lemma TightestOfNone(file: seq<Byte>, c: Class, h: Header, vo: U64)
    ensures Tightest(file, c, h, vo, 0, MAX_INT64, 0)
  {
  }

  lemma DisjointSoFar(m: Memory, free: set<nat>, file: seq<Byte>, c: Class, h: Header, vo: U64, n: nat)
    requires forall j: nat :: j < n ==> LoadedAt(m, free, file, c, h, vo, j)
    requires PairwiseDisjoint(file, c, h, vo, n)
    requires IsLoadable(file, c, h, n) && WasFree(free, SegmentAt(file, c, h, n).value, ImageBase(file, c, h, vo, n))
    ensures PairwiseDisjoint(file, c, h, vo, n + 1)
  {
    hide DisjointImages, WasFree, Taken, Intact, SegmentAt, BaseOf;
    forall j: nat | j < n && IsLoadable(file, c, h, j)
      ensures DisjointImages(SegmentAt(file, c, h, j).value, ImageBase(file, c, h, vo, j),
                             SegmentAt(file, c, h, n).value, ImageBase(file, c, h, vo, n))
    {
      assert LoadedAt(m, free, file, c, h, vo, j);
      FreePagesAreDisjoint(free, SegmentAt(file, c, h, j).value, ImageBase(file, c, h, vo, j),
                           SegmentAt(file, c, h, n).value, ImageBase(file, c, h, vo, n));
    }
  }

  /** The loop over the program headers, with the running bounds of the image. */
  method LoadSegments(p: Platform, file: seq<Byte>, c: Class, h: Header, vo: U64)
    returns (ok: bool, physicalBase: U64, physicalTop: U64)
    requires PhysicalPages(p.free)
    requires SaneFile(file, c, h)
    modifies p
    ensures OnlyTakenPagesChanged(old(p.memory), old(p.free), p.memory, p.free)
    ensures ok <==> CanLoadAll(file, c, h, vo, h.phnum, old(p.free), p.willing)
    ensures ok ==> p.free == old(p.free) - Reserved(file, c, h, vo, h.phnum)
    ensures ok ==> forall i: nat :: i < h.phnum ==> LoadedAt(p.memory, p.free, file, c, h, vo, i)
    ensures ok ==> PairwiseDisjoint(file, c, h, vo, h.phnum)
    ensures ok ==> Tightest(file, c, h, vo, h.phnum, physicalBase, physicalTop)
    ensures ok ==> forall i: nat :: i < h.phnum && IsLoadable(file, c, h, i) ==>
      WasFree(old(p.free), SegmentAt(file, c, h, i).value, ImageBase(file, c, h, vo, i))
  {
    hide SegmentAt, BaseOf, PagesFor, PagesOf, SaneSegment, CanLoad, OnlyTakenPagesChanged, DisjointImages,
      WasFree, Taken, Intact, Tightest;
    physicalBase, physicalTop, ok := MAX_INT64, 0, false;
    NothingChanged(p.memory, p.free);
    TightestOfNone(file, c, h, vo);
    for i := 0 to h.phnum
      invariant OnlyTakenPagesChanged(old(p.memory), old(p.free), p.memory, p.free)
      invariant CanLoadAll(file, c, h, vo, i, old(p.free), p.willing)
      invariant p.free == old(p.free) - Reserved(file, c, h, vo, i)
      invariant forall j: nat :: j < i ==> LoadedAt(p.memory, p.free, file, c, h, vo, j)
      invariant PairwiseDisjoint(file, c, h, vo, i)
      invariant Tightest(file, c, h, vo, i, physicalBase, physicalTop)
      invariant forall j: nat :: j < i && IsLoadable(file, c, h, j) ==>
        WasFree(old(p.free), SegmentAt(file, c, h, j).value, ImageBase(file, c, h, vo, j))
    {
      var r := SegmentAt(file, c, h, i);
      if r.None? { return; }
      var s := r.value;
      if Loadable(s) {
        var base := BaseOf(s, vo);
        ghost var m, free := p.memory, p.free;
        var granted := LoadSegment(p, file, c, s, base);
        ChangesCompose(old(p.memory), old(p.free), m, free, p.memory, p.free);
        if !granted { return; }
        LoadedSoFar(m, free, p.memory, p.free, file, c, h, vo, i);
        DisjointSoFar(m, free, file, c, h, vo, i);
        FreedEarlier(old(p.free), free, s, base);
        FreeSegmentsAreLow(old(p.free), s, base);
        TightestStep(file, c, h, vo, i, physicalBase, physicalTop);
        if physicalBase > base {
          physicalBase := base;
        }
        if physicalTop < base + s.memsz {
          physicalTop := base + s.memsz;
        }
      } else {
        TightestStep(file, c, h, vo, i, physicalBase, physicalTop);
      }
    }
    ok := true;
  }

  lemma LoadedSoFar(m: Memory, free: set<nat>, m': Memory, free': set<nat>, file: seq<Byte>, c: Class, h: Header, vo: U64, n: nat)
    requires forall j: nat :: j < n ==> LoadedAt(m, free, file, c, h, vo, j)
    requires OnlyTakenPagesChanged(m, free, m', free')
    ensures forall j: nat :: j < n ==> LoadedAt(m', free', file, c, h, vo, j)
  {
    forall j: nat | j < n
      ensures LoadedAt(m', free', file, c, h, vo, j)
    {
      assert LoadedAt(m, free, file, c, h, vo, j);
      if IsLoadable(file, c, h, j) {
        StaysIntact(m, free, m', free', file, SegmentAt(file, c, h, j).value, ImageBase(file, c, h, vo, j));
      }
    }
  }

  predicate SaneFile(file: seq<Byte>, c: Class, h: Header) {
    forall i: nat :: i < h.phnum && SegmentAt(file, c, h, i).Some? ==> SaneSegment(SegmentAt(file, c, h, i).value, c)
  }

  /** What a successful load leaves: every image whole, no two overlapping, the bounds exact, the section headers copied. */
  ghost predicate Loaded(m: Memory, free: set<nat>, file: seq<Byte>, c: Class, h: Header, info: Info) {
    && (forall i: nat :: i < h.phnum ==> LoadedAt(m, free, file, c, h, info.virtualOffset, i))
    && PairwiseDisjoint(file, c, h, info.virtualOffset, h.phnum)
    && Tightest(file, c, h, info.virtualOffset, h.phnum, info.physicalBase, info.physicalTop)
    && FileRead(file, h.shnum * h.shentsize, h.shoff) == Some(info.sectionHeaders)
    && info.sectionEntrySize == h.shentsize && info.stringSectionIndex == h.shstrndx && info.entry == h.entry
  }

  /** Exactly when the whole load succeeds. */
  predicate LoadSucceeds(file: seq<Byte>, c: Class, vo: U64, free: set<nat>, willing: (nat, nat) -> bool) {
    && HeaderOf(file, c).Some?
    && var h := HeaderOf(file, c).value;
    CanLoadAll(file, c, h, vo, h.phnum, free, willing) && FileRead(file, h.shnum * h.shentsize, h.shoff).Some?
  }

  method LoadElf(p: Platform, file: seq<Byte>, c: Class, virtualOffset: U64) returns (info: Option<Info>)
    requires PhysicalPages(p.free)
    requires HeaderOf(file, c).Some? ==> SaneFile(file, c, HeaderOf(file, c).value)
    modifies p
    ensures OnlyTakenPagesChanged(old(p.memory), old(p.free), p.memory, p.free)
    ensures info.Some? <==> LoadSucceeds(file, c, virtualOffset, old(p.free), p.willing)
    ensures HeaderOf(file, c).None? ==> p.free == old(p.free) && p.memory == old(p.memory)
    ensures info.Some? ==> HeaderOf(file, c).Some? && info.value.virtualOffset == virtualOffset
    ensures info.Some? ==> p.free == old(p.free) - Reserved(file, c, HeaderOf(file, c).value, virtualOffset, HeaderOf(file, c).value.phnum)
    ensures info.Some? ==> Loaded(p.memory, p.free, file, c, HeaderOf(file, c).value, info.value)
    ensures info.Some? ==> forall i: nat :: i < HeaderOf(file, c).value.phnum && IsLoadable(file, c, HeaderOf(file, c).value, i) ==>
      WasFree(old(p.free), SegmentAt(file, c, HeaderOf(file, c).value, i).value,
              ImageBase(file, c, HeaderOf(file, c).value, virtualOffset, i))
  {
    hide HeaderOf, SegmentAt, BaseOf, OnlyTakenPagesChanged, Tightest, LoadedAt, WasFree, PairwiseDisjoint, CanLoadAll, Reserved;
    NothingChanged(p.memory, p.free);
    info := None;
    var header := HeaderOf(file, c);
    if header.None? { return; }
    var h := header.value;
    var ok, physicalBase, physicalTop := LoadSegments(p, file, c, h, virtualOffset);
    if !ok { return; }
    var sections := FileRead(file, h.shnum * h.shentsize, h.shoff);
    if sections.None? { return; }
    info := Some(Info(virtualOffset, physicalBase, physicalTop, h.entry, sections.value, h.shentsize, h.shstrndx));
  }
}
