/** LoadMB2Kernel: header, boot parameters, ELF image and final memory map together. */
module Mb2Kernel {
  import opened Bytes
  import opened MemoryMap
  import opened Machine
  import opened TagStream
  import opened BootParams
  import opened Modules
  import H = Mb2Header
  import I = Mb2Info
  import E = ElfLoader

  /** What the boot entry and the firmware supply. mb2 never sets VirtualOffset, so its value is an input. */
  datatype Inputs = Inputs(
    file: seq<Byte>, cmdline: seq<Byte>, modules: seq<ModuleFile>, framebuffer: I.Framebuffer,
    rsdp: Option<seq<Byte>>, xsdp: Option<seq<Byte>>, virtualOffset: U64,
    firstMapSize: nat, finalMap: I.FinalMap, mapTypes: seq<U32>)

  /** What the loader takes for granted of its inputs. */
  predicate Usable(x: Inputs) {
    && |x.cmdline| < 0xFFFF_0000 && I.ModulesFit(x.modules)
    && (x.rsdp.Some? ==> |x.rsdp.value| == 20) && (x.xsdp.Some? ==> |x.xsdp.value| == 36)
    && x.firstMapSize < 0xFFFF_0000 && I.FinalMapFits(x.finalMap, x.firstMapSize + EFI_PAGE_SIZE)
    && (x.finalMap.FinalMap? ==> |x.mapTypes| == |x.finalMap.raw| / x.finalMap.stride)
    && UsableElf(x.file, E.Elf32) && UsableElf(x.file, E.Elf64)
  }

  predicate UsableElf(file: seq<Byte>, c: E.Class) {
    var h := E.HeaderOf(file, c);
    h.Some? ==> E.SaneFile(file, c, h.value) && h.value.shentsize > 0
  }

  predicate UsableHeader(h: seq<Byte>) {
    |h| <= TWO_32 - H.HEADER_ALIGN && H.TagsFrom(h, H.HEADER_SIZE).Some?
  }

  lemma SectionTableSize(n: U16, size: U16)
    ensures n * size <= 0xFFFE_0001
  {
    ProductGrows(n, size, 0xFFFF);
  }

  /** The loader goes wrong on a first header that the file cuts short; later ones it never looks at. */
  ghost predicate UsableFirstHeader(file: seq<Byte>) {
    forall i: nat :: FirstHeader(file, i) ==>
      i + U32At(file, i + 8) <= |file| && UsableHeader(file[i..i + U32At(file, i + 8)])
  }

  ghost predicate ImageLoaded(m: Memory, free: set<nat>, file: seq<Byte>, c: E.Class, info: E.Info) {
    E.HeaderOf(file, c).Some? && E.Loaded(m, free, file, c, E.HeaderOf(file, c).value, info)
  }

  lemma SectionsLoaded(m: Memory, free: set<nat>, file: seq<Byte>, c: E.Class, h: E.Header, info: E.Info)
    requires E.Loaded(m, free, file, c, h, info)
    ensures info.sectionEntrySize == h.shentsize && |info.sectionHeaders| < 0xFFFF_0000
  {
    hide E.LoadedAt, E.PairwiseDisjoint, E.Tightest;
    SectionTableSize(h.shnum, h.shentsize);
  }

  lemma NeedsHeader(x: Inputs, free: set<nat>, willing: (nat, nat) -> bool)
    ensures forall c: E.Class :: E.LoadSucceeds(x.file, c, x.virtualOffset, free, willing) ==> E.HeaderOf(x.file, c).Some?
  {
  }

  /** The class byte tells the two apart, so a failed ELF32 load that took pages is never followed by an ELF64 one. */
  lemma NeverBothClasses(file: seq<Byte>)
    ensures E.HeaderOf(file, E.Elf32).None? || E.HeaderOf(file, E.Elf64).None?
  {
  }

  /** LoadElf32, and LoadElf64 if that fails. */
  method LoadEither(p: Platform, x: Inputs) returns (c: E.Class, info: Option<E.Info>)
    requires Usable(x) && E.PhysicalPages(p.free)
    modifies p
    ensures E.LoadSucceeds(x.file, E.Elf32, x.virtualOffset, old(p.free), p.willing) <==> info.Some? && c == E.Elf32
    ensures E.LoadSucceeds(x.file, E.Elf64, x.virtualOffset, old(p.free), p.willing) <==> info.Some? && c == E.Elf64
    ensures info.Some? ==> ImageLoaded(p.memory, p.free, x.file, c, info.value)
    ensures info.Some? ==> 0 < info.value.sectionEntrySize && |info.value.sectionHeaders| < 0xFFFF_0000
  {
    hide E.HeaderOf, E.SaneFile, E.WasFree, E.OnlyTakenPagesChanged, E.IsLoadable, E.LoadSucceeds, E.Loaded, E.Reserved,
         I.ModulesFit, I.FinalMapFits;
    NeedsHeader(x, p.free, p.willing);
    NeverBothClasses(x.file);
    ghost var m, free := p.memory, p.free;
    c := E.Elf32;
    info := E.LoadElf(p, x.file, c, x.virtualOffset);
    if info.None? {
      E.FreeOnlyShrinks(m, free, p.memory, p.free);
      c := E.Elf64;
      NeedsHeader(x, p.free, p.willing);
      info := E.LoadElf(p, x.file, c, x.virtualOffset);
    }
    if info.Some? {
      SectionsLoaded(p.memory, p.free, x.file, c, E.HeaderOf(x.file, c).value, info.value);
    }
  }

  predicate FirstHeader(file: seq<Byte>, i: nat) {
    && H.Candidate(i) && H.HeaderAt(file, i)
    && forall j: nat :: H.Candidate(j) && j < i ==> !H.HeaderAt(file, j)
  }

  /** Whether the tags of the header at the offset let the kernel be started. */
  predicate TagsAllow(x: Inputs, offset: nat)
    requires H.HeaderAt(x.file, offset)
  {
    var end := offset + U32At(x.file, offset + 8);
    && end <= |x.file| && H.TagsFrom(x.file[offset..end], H.HEADER_SIZE).Some?
    && var tags := H.TagsFrom(x.file[offset..end], H.HEADER_SIZE).value;
    && H.AllHaveBodies(tags)
    && (forall t :: t in tags ==> !H.Rejected(t)) && !H.HasAddressTag(tags)
    && (H.Demands(tags, 14) ==> x.rsdp.Some?) && (H.Demands(tags, 15) ==> x.xsdp.Some?)
  }

  predicate ImageLoads(x: Inputs, free: set<nat>, willing: (nat, nat) -> bool) {
    || E.LoadSucceeds(x.file, E.Elf32, x.virtualOffset, free, willing)
    || E.LoadSucceeds(x.file, E.Elf64, x.virtualOffset, free, willing)
  }

  /** What a kernel that is started finds: its image is in memory, and walking the buffer it is given yields
      every tag in order, to the end tag. */
  ghost predicate Started(x: Inputs, m: Memory, free: set<nat>, buf: seq<Byte>, entry: U64,
                          offset: nat, c: E.Class, info: E.Info, slack: seq<Byte>)
    requires H.HeaderAt(x.file, offset) && TagsAllow(x, offset)
    requires AllLoaded(x.modules) && info.sectionEntrySize > 0
    requires Usable(x) && x.finalMap.FinalMap?
  {
    var tags := H.TagsFrom(x.file[offset..offset + U32At(x.file, offset + 8)], H.HEADER_SIZE).value;
    && ImageLoaded(m, free, x.file, c, info)
    && entry == (if H.EntryOverride(tags) != 0 then H.EntryOverride(tags) else info.entry)
    && |slack| == 3
    && Walk(buf, 8) == Some(I.EarlyTags(x.cmdline, slack, x.modules, x.framebuffer, x.rsdp, x.xsdp)
                            + [I.SectionsTag(I.Sections(info.sectionHeaders, info.sectionEntrySize, info.stringSectionIndex))]
                            + I.TailTags(x.finalMap, x.mapTypes))
  }

  method LoadMB2Kernel(p: Platform, params: Params, x: Inputs)
    returns (entry: Option<U64>, ghost offset: nat, ghost c: E.Class, ghost info: Option<E.Info>, ghost slack: seq<Byte>)
    requires Usable(x) && UsableFirstHeader(x.file) && E.PhysicalPages(p.free)
    modifies p, params
    ensures entry.Some? ==> FirstHeader(x.file, offset) && TagsAllow(x, offset)
    ensures entry.Some? ==> AllLoaded(x.modules) && x.finalMap.FinalMap?
    ensures entry.Some? ==> info.Some? && info.value.sectionEntrySize > 0 && params.buffer != null
    ensures entry.Some? ==> Started(x, p.memory, p.free, params.buffer[..], entry.value, offset, c, info.value, slack)
    ensures entry.Some? <==>
      && (exists i: nat :: FirstHeader(x.file, i) && TagsAllow(x, i))
      && AllLoaded(x.modules) && x.finalMap.FinalMap?
      && ImageLoads(x, old(p.free), p.willing)
  {
    hide H.HeaderAt, H.TagsFrom, H.Rejected, H.EntryOverride, H.Demands, H.HasAddressTag, H.AllHaveBodies, H.Candidate, U32At,
         ImageLoaded, Walk, I.EarlyTags, I.SectionsTag, I.TailTags, Laid, E.PhysicalPages, E.LoadSucceeds, E.HeaderOf;
    entry, offset, c, info, slack := None, 0, E.Elf32, None, [];
    var found, header := H.LoadMB2Header(x.file);
    if found.None? { return; }
    offset := found.value;
    assert FirstHeader(x.file, offset);
    var h := header.value;
    params.Reset();
    var accepted, findings := H.WalkHeaderTags(h);
    if !accepted { return; }
    var pushed;
    pushed, slack := I.PushEarlyTags(params, x.cmdline, x.modules, x.framebuffer, x.rsdp, x.xsdp,
                                     findings.mustHaveOld, findings.mustHaveNew);
    if !pushed || findings.notElf { return; }
    var image;
    c, image := LoadEither(p, x);
    info := image;
    if image.None? { return; }
    var i := image.value;
    I.PushSections(params, I.Sections(i.sectionHeaders, i.sectionEntrySize, i.stringSectionIndex));
    var finished := I.FinishTail(params, x.firstMapSize, x.finalMap, x.mapTypes);
    if !finished { return; }
    entry := Some(if findings.entryOverride != 0 then findings.entryOverride else i.entry);
  }

  /** The types of the tags a kernel with modules is given when both ACPI tables exist. */
  function AllTags(cmdline: seq<Byte>, slack: seq<Byte>, ms: seq<ModuleFile>, fb: I.Framebuffer, rsdp: seq<Byte>,
                   xsdp: seq<Byte>, s: I.Sections, f: I.FinalMap, types: seq<U32>): seq<Tag>
    requires AllLoaded(ms) && s.entrySize > 0
    requires f.FinalMap? && f.stride >= DESCRIPTOR_FIELDS && |types| == |f.raw| / f.stride
  {
    I.EarlyTags(cmdline, slack, ms, fb, Some(rsdp), Some(xsdp)) + [I.SectionsTag(s)] + I.TailTags(f, types)
  }

  /** The information a kernel may insist on is exactly the information some tag gives it. */
  lemma RequestsAreAnswered(cmdline: seq<Byte>, slack: seq<Byte>, ms: seq<ModuleFile>, fb: I.Framebuffer, rsdp: seq<Byte>,
                            xsdp: seq<Byte>, s: I.Sections, f: I.FinalMap, types: seq<U32>, r: U32)
    requires ms != [] && AllLoaded(ms) && s.entrySize > 0
    requires f.FinalMap? && f.stride >= DESCRIPTOR_FIELDS && |types| == |f.raw| / f.stride
    ensures var tags := AllTags(cmdline, slack, ms, fb, rsdp, xsdp, s, f, types);
      !H.Unsupported(r) <==> r != TAG_END && exists t :: t in tags && t.ty == r
  {
    hide I.EarlyTags, I.ModuleTags, I.ModuleTag, I.FramebufferTag, I.SectionsTag, I.MapTag, I.EfiMapTag, I.MapReads, I.AsText;
    var early := I.EarlyTags(cmdline, slack, ms, fb, Some(rsdp), Some(xsdp));
    var tail, n := I.TailTags(f, types), |ms|;
    I.OtherTagsRead(cmdline, slack, ms, fb, Some(rsdp), Some(xsdp));
    I.ModuleTagsInOrder(ms);
    I.FramebufferTagReads(fb);
    I.SectionsTagReads(s);
    I.TailReads(f, types);
    forall k | 2 <= k < n + 2
      ensures early[k].ty == 3
    {
      assert early[k] == early[2..2 + n][k - 2];
      I.ModuleTagReads(ms[k - 2].tag, ms[k - 2].loaded.value.0, ms[k - 2].loaded.value.1);
    }
    assert tail[0].ty == 6 by { MapTagType(f, types); }
    TypesOf(early, I.SectionsTag(s), tail, n, r);
  }

  lemma MapTagType(f: I.FinalMap, types: seq<U32>)
    requires f.FinalMap? && f.stride >= DESCRIPTOR_FIELDS && |types| == |f.raw| / f.stride
    ensures I.TailTags(f, types)[0].ty == 6
  {
  }

  lemma TypesOf(early: seq<Tag>, sections: Tag, tail: seq<Tag>, n: nat, r: U32)
    requires n > 0 && |early| == n + 5 && early[0].ty == 1 && early[1].ty == 2
    requires forall k :: 2 <= k < n + 2 ==> early[k].ty == 3
    requires early[n + 2].ty == 8 && early[n + 3].ty == 14 && early[n + 4].ty == 15
    requires sections.ty == 9 && |tail| == 3 && tail[0].ty == 6 && tail[1].ty == 17 && tail[2].ty == 0
    ensures !H.Unsupported(r) <==> r != 0 && exists t :: t in early + [sections] + tail && t.ty == r
  {
    var tags := early + [sections] + tail;
    assert tags[0].ty == 1 && tags[1].ty == 2 && tags[n + 2].ty == 8 && tags[n + 3].ty == 14 && tags[n + 4].ty == 15;
    assert early[2].ty == 3 && tags[2].ty == 3;
    assert tags[n + 5].ty == 9 && tags[n + 6].ty == 6 && tags[n + 7].ty == 17 && tags[n + 8].ty == 0;
    forall t | t in tags
      ensures t.ty == 0 || !H.Unsupported(t.ty)
    {
      var k :| 0 <= k < |tags| && tags[k] == t;
      assert k < n + 5 ==> t == early[k];
    }
  }
}
