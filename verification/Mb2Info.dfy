/** The information LoadMB2Kernel hands to the kernel: the tags it pushes, and the three it carves out of the
    region reserved before the memory map is final. */
module Mb2Info {
  import opened Bytes
  import opened MemoryMap
  import opened TagStream
  import opened BootParams
  import opened Modules

  const TAG_CMDLINE: U32 := 1
  const TAG_BOOT_LOADER_NAME: U32 := 2
  const TAG_MODULE: U32 := 3
  const TAG_MMAP: U32 := 6
  const TAG_FRAMEBUFFER: U32 := 8
  const TAG_ELF_SECTIONS: U32 := 9
  const TAG_ACPI_OLD: U32 := 14
  const TAG_ACPI_NEW: U32 := 15
  const TAG_EFI_MMAP: U32 := 17

  /** pad is what the compiler leaves in the two bytes after the last field of the framebuffer tag. */
  datatype Framebuffer = Framebuffer(addr: U64, pixelsPerScanLine: U32, width: U32, height: U32, pad: (Byte, Byte))

  datatype Sections = Sections(headers: seq<Byte>, entrySize: nat, stringIndex: nat)

  /** "TomatBoot-UEFI" and its terminator. */
  const LOADER_NAME: seq<Byte> := [84, 111, 109, 97, 116, 66, 111, 111, 116, 45, 85, 69, 70, 73, 0]
  /** sizeof("TomatBoot v2 UEFI"): the room made for the name is that of another string. */
  const LOADER_NAME_ROOM: nat := 18

  // ---------- the tags ----------

  function StringTag(ty: U32, s: seq<Byte>): Tag { Tag(ty, s + [0]) }

  /** The start and end are stored in 32 bits. */
  function ModuleTag(tag: seq<Byte>, start: nat, size: nat): Tag {
    Tag(TAG_MODULE, ToLE(start % TWO_32, 4) + ToLE((start + size) % TWO_32, 4) + tag + [0])
  }

  function ModuleTags(ms: seq<ModuleFile>): seq<Tag>
    requires forall m :: m in ms ==> m.loaded.Some?
  {
    if ms == [] then [] else
      var m := ms[|ms| - 1];
      ModuleTags(ms[..|ms| - 1]) + [ModuleTag(m.tag, m.loaded.value.0, m.loaded.value.1)]
  }

  function FramebufferTag(fb: Framebuffer): Tag {
    Tag(TAG_FRAMEBUFFER,
      ToLE(fb.addr, 8) + ToLE(fb.pixelsPerScanLine * 4 % TWO_32, 4) + ToLE(fb.width, 4) + ToLE(fb.height, 4)
      + [32, 1, 0, 0] + [16, 8, 8, 8, 0, 8] + [fb.pad.0, fb.pad.1])
  }

  function AcpiTags(ty: U32, table: Option<seq<Byte>>): seq<Tag> {
    if table.Some? then [Tag(ty, table.value)] else []
  }

  function SectionsTag(s: Sections): Tag
    requires s.entrySize > 0
  {
    Tag(TAG_ELF_SECTIONS,
      ToLE(|s.headers| / s.entrySize % TWO_32, 4) + ToLE(s.entrySize % TWO_32, 4) + ToLE(s.stringIndex % TWO_32, 4) + s.headers)
  }

  /** Everything pushed before the ELF file is loaded; slack is what the name tag leaves unwritten. */
  function EarlyTags(cmdline: seq<Byte>, slack: seq<Byte>, ms: seq<ModuleFile>, fb: Framebuffer,
                     rsdp: Option<seq<Byte>>, xsdp: Option<seq<Byte>>): seq<Tag>
    requires forall m :: m in ms ==> m.loaded.Some?
  {
    [StringTag(TAG_CMDLINE, cmdline), Tag(TAG_BOOT_LOADER_NAME, LOADER_NAME + slack)] + ModuleTags(ms)
    + [FramebufferTag(fb)] + AcpiTags(TAG_ACPI_OLD, rsdp) + AcpiTags(TAG_ACPI_NEW, xsdp)
  }

  // ---------- pushing them ----------

  predicate ModulesFit(ms: seq<ModuleFile>) {
    forall m :: m in ms ==> |m.tag| < 0xFFFF_0000
  }

  /** The pushes up to the ACPI tables. Fails when a module does not load or a demanded table is missing. */
  method PushEarlyTags(p: Params, cmdline: seq<Byte>, ms: seq<ModuleFile>, fb: Framebuffer,
                       rsdp: Option<seq<Byte>>, xsdp: Option<seq<Byte>>, mustHaveOld: bool, mustHaveNew: bool)
    returns (ok: bool, ghost slack: seq<Byte>)
    requires p.Valid() && p.tags == []
    requires |cmdline| < 0xFFFF_0000 && ModulesFit(ms)
    requires (rsdp.Some? ==> |rsdp.value| == 20) && (xsdp.Some? ==> |xsdp.value| == 36)
    modifies p
    ensures p.Valid()
    ensures ok <==> (forall m :: m in ms ==> m.loaded.Some?) && (mustHaveOld ==> rsdp.Some?) && (mustHaveNew ==> xsdp.Some?)
    ensures ok ==> |slack| == 3 && p.tags == EarlyTags(cmdline, slack, ms, fb, rsdp, xsdp)
  {
    hide Laid, ToLE;
    ok, slack := false, [];
    ghost var t := p.PushTag(TAG_CMDLINE, |cmdline| + 1, cmdline + [0]);
    assert t == StringTag(TAG_CMDLINE, cmdline) by { assert t.payload == t.payload[..|cmdline| + 1]; }
    t := p.PushTag(TAG_BOOT_LOADER_NAME, LOADER_NAME_ROOM, LOADER_NAME);
    slack := t.payload[|LOADER_NAME|..];
    assert t.payload == LOADER_NAME + slack;
    ghost var first := [StringTag(TAG_CMDLINE, cmdline), Tag(TAG_BOOT_LOADER_NAME, LOADER_NAME + slack)];
    for i := 0 to |ms|
      invariant p.Valid()
      invariant forall m :: m in ms[..i] ==> m.loaded.Some?
      invariant p.tags == first + ModuleTags(ms[..i])
    {
      var m := ms[i];
      assert m in ms;
      if m.loaded.None? { return; }
      assert ms[..i + 1] == ms[..i] + [m];
      assert ms[..i + 1][..i] == ms[..i];
      var (start, size) := m.loaded.value;
      p.PushStruct(ModuleTag(m.tag, start, size));
    }
    assert ms[..|ms|] == ms;
    p.PushStruct(FramebufferTag(fb));
    if rsdp.Some? {
      p.PushStruct(Tag(TAG_ACPI_OLD, rsdp.value));
    } else if mustHaveOld { return; }
    if xsdp.Some? {
      p.PushStruct(Tag(TAG_ACPI_NEW, xsdp.value));
    } else if mustHaveNew { return; }
    ok := true;
  }

  /** The ELF section headers. The count is a division by the entry size, which the processor refuses when it is zero. */
  method PushSections(p: Params, s: Sections)
    requires p.Valid() && s.entrySize > 0 && |s.headers| < 0xFFFF_0000
    modifies p
    ensures p.Valid() && p.tags == old(p.tags) + [SectionsTag(s)]
  {
    hide Laid;
    p.PushStruct(SectionsTag(s));
  }

  // ---------- the tail ----------

  /** One entry of the memory-map tag. */
  function MapEntry(d: Descriptor, ty: U32): (bs: seq<Byte>)
    ensures |bs| == 24
  {
    ToLE(d.start, 8) + ToLE(d.pages * EFI_PAGE_SIZE % TWO_64, 8) + ToLE(ty, 4) + ToLE(0, 4)
  }

  function MapEntries(ds: seq<Descriptor>, types: seq<U32>): (bs: seq<Byte>)
    requires |types| == |ds|
    ensures |bs| == 24 * |ds|
  {
    if ds == [] then [] else
      MapEntries(ds[..|ds| - 1], types[..|ds| - 1]) + MapEntry(ds[|ds| - 1], types[|ds| - 1])
  }

  function MapTag(ds: seq<Descriptor>, types: seq<U32>): Tag
    requires |types| == |ds|
  {
    Tag(TAG_MMAP, ToLE(24, 4) + ToLE(0, 4) + MapEntries(ds, types))
  }

  function EfiMapTag(raw: seq<Byte>, stride: nat, version: U32): Tag {
    Tag(TAG_EFI_MMAP, ToLE(stride % TWO_32, 4) + ToLE(version, 4) + raw)
  }

  /** How much is reserved for the tail when the map may take up to room bytes. */
  function TailRoom(room: nat): nat { 16 + room + 16 + room }

  /** Whatever the final map is, the two map tags and the end tag fit the reserved region. */
  lemma TailFits(room: nat, size: nat, stride: nat)
    requires stride >= DESCRIPTOR_FIELDS && size <= room && room >= EFI_PAGE_SIZE
    ensures 24 * (size / stride) <= size
    ensures var efi := 16 + 24 * (size / stride);
      efi % TAG_ALIGN == 0 && efi + RoundUp(16 + size, TAG_ALIGN) + 8 <= RoundUp(TailRoom(room), TAG_ALIGN)
  {
    var n := size / stride;
    assert stride * n <= size;
    assert 40 * n <= stride * n;
    RoundUpIsLeast(16 + size, TAG_ALIGN);
    RoundUpIsLeast(TailRoom(room), TAG_ALIGN);
  }

  /** The loop over the descriptors, which fills the entries of the memory-map tag. */
  method WriteMapEntries(a: array<Byte>, at: nat, ds: seq<Descriptor>, types: seq<U32>)
    requires |types| == |ds| && at + 24 * |ds| <= a.Length
    modifies a
    ensures a[..at] == old(a[..at])
    ensures a[at..at + 24 * |ds|] == MapEntries(ds, types)
  {
    hide MapEntry, MapEntries;
    ghost var header := a[..at];
    assert MapEntries(ds[..0], types[..0]) == [] by { NoEntries(); }
    for i := 0 to |ds|
      invariant a[..at] == header
      invariant a[at..at + 24 * i] == MapEntries(ds[..i], types[..i])
    {
      ghost var done := a[at..at + 24 * i];
      Poke(a, at + 24 * i, MapEntry(ds[i], types[i]));
      assert a[at..at + 24 * i] == done;
      OneMoreEntry(ds, types, i);
      assert a[at..at + 24 * (i + 1)] == done + a[at + 24 * i..at + 24 * i + 24];
    }
    assert ds[..|ds|] == ds && types[..|ds|] == types;
  }

  lemma NoEntries()
    ensures MapEntries([], []) == []
  {
  }

  lemma OneMoreEntry(ds: seq<Descriptor>, types: seq<U32>, i: nat)
    requires |types| == |ds| && i < |ds|
    ensures MapEntries(ds[..i + 1], types[..i + 1]) == MapEntries(ds[..i], types[..i]) + MapEntry(ds[i], types[i])
  {
    assert ds[..i + 1][..i] == ds[..i] && types[..i + 1][..i] == types[..i];
  }

  /** The memory-map tag: its header, then the entries. */
  method WriteMapTag(a: array<Byte>, at: nat, ds: seq<Descriptor>, types: seq<U32>)
    requires |types| == |ds| && at + 16 + 24 * |ds| <= a.Length && 16 + 24 * |ds| < TWO_32
    modifies a
    ensures a[..at] == old(a[..at])
    ensures Stands(a[..], at, MapTag(ds, types))
  {
    hide ToLE, Stands, MapEntries;
    var size := 16 + 24 * |ds|;
    Poke(a, at, ToLE(TAG_MMAP, 4));
    Poke(a, at + 8, ToLE(24, 4));
    Poke(a, at + 12, ToLE(0, 4));
    Poke(a, at + 4, ToLE(size, 4));
    ghost var header := a[at..at + 16];
    assert header == MapHeader(|ds|) by {
      assert header == a[at..at + 4] + a[at + 4..at + 8] + a[at + 8..at + 12] + a[at + 12..at + 16];
    }
    ghost var start := a[..at + 16];
    WriteMapEntries(a, at + 16, ds, types);
    assert a[at..at + 16] == start[at..] == header;
    assert a[..at] == start[..at];
    MapTagAssembled(a[..], at, ds, types);
  }

  function MapHeader(n: nat): seq<Byte> {
    ToLE(TAG_MMAP, 4) + ToLE(16 + 24 * n, 4) + ToLE(24, 4) + ToLE(0, 4)
  }

  lemma MapTagAssembled(buf: seq<Byte>, at: nat, ds: seq<Descriptor>, types: seq<U32>)
    requires |types| == |ds| && at + 16 + 24 * |ds| <= |buf| && 16 + 24 * |ds| < TWO_32
    requires buf[at..at + 16] == MapHeader(|ds|)
    requires buf[at + 16..at + 16 + 24 * |ds|] == MapEntries(ds, types)
    ensures Stands(buf, at, MapTag(ds, types))
  {
    hide Encode, MapHeader, MapEntries, MapTag;
    EncodedMap(ds, types);
    var mid, end := at + 16, at + 16 + 24 * |ds|;
    assert buf[at..end] == buf[at..mid] + buf[mid..end];
  }

  lemma EncodedMap(ds: seq<Descriptor>, types: seq<U32>)
    requires |types| == |ds| && 16 + 24 * |ds| < TWO_32
    ensures TagSize(MapTag(ds, types)) == 16 + 24 * |ds|
    ensures Encode(MapTag(ds, types)) == MapHeader(|ds|) + MapEntries(ds, types)
  {
    hide ToLE, MapEntries;
    var c, d, e := ToLE(24, 4), ToLE(0, 4), MapEntries(ds, types);
    EncodedTag(TAG_MMAP, c + d + e, 16 + 24 * |ds|);
    Regroup(ToLE(TAG_MMAP, 4), ToLE(16 + 24 * |ds|, 4), c, d, e);
  }

  lemma EncodedTag(ty: U32, payload: seq<Byte>, size: nat)
    requires size == 8 + |payload| < TWO_32
    ensures Encode(Tag(ty, payload)) == ToLE(ty, 4) + ToLE(size, 4) + payload
  {
    hide ToLE;
    assert TagSize(Tag(ty, payload)) % TWO_32 == size;
  }

  lemma Regroup(a: seq<Byte>, b: seq<Byte>, c: seq<Byte>, d: seq<Byte>, e: seq<Byte>)
    ensures a + b + (c + d + e) == a + b + c + d + e
  {
  }

  /** What the second call to GetMemoryMap and the exit from boot services answer. */
  datatype FinalMap = Unavailable | FinalMap(raw: seq<Byte>, stride: nat, version: U32)

  predicate FinalMapFits(f: FinalMap, room: nat) {
    f.FinalMap? ==> f.stride >= DESCRIPTOR_FIELDS && |f.raw| <= room
  }

  /** The three writes into the region, each tag at the next multiple of 8. */
  method WriteTail(a: array<Byte>, start: nat, f: FinalMap, types: seq<U32>)
    requires f.FinalMap? && f.stride >= DESCRIPTOR_FIELDS && |f.raw| < 0xFFFF_FF00
    requires |types| == |f.raw| / f.stride && 16 + 24 * (|f.raw| / f.stride) < TWO_32
    requires start + 16 + 24 * (|f.raw| / f.stride) + RoundUp(16 + |f.raw|, TAG_ALIGN) + 8 <= a.Length
    modifies a
    ensures a[..start] == old(a[..start])
    ensures var mapTag, efi := TailTags(f, types)[0], TailTags(f, types)[1];
            var mid := start + TagSize(mapTag);
      && Stands(a[..], start, mapTag) && Stands(a[..], mid, efi)
      && Stands(a[..], mid + RoundUp(TagSize(efi), TAG_ALIGN), END_TAG)
  {
    hide Stands, RoundUp, Encode, MapTag, EfiMapTag, ToLE;
    var ds := Descriptors(f.raw, f.stride);
    ghost var mapTag, efiMap := MapTag(ds, types), EfiMapTag(f.raw, f.stride, f.version);
    MapSizes(ds, types, f.raw, f.stride, f.version);
    RoundUpIsLeast(16 + |f.raw|, TAG_ALIGN);
    var efi := start + 16 + 24 * |ds|;
    var end := efi + RoundUp(16 + |f.raw|, TAG_ALIGN);
    WriteMapTag(a, start, ds, types);
    ghost var first := a[..];
    WriteTag(a, efi, TAG_EFI_MMAP, 8 + |f.raw|, ToLE(f.stride % TWO_32, 4) + ToLE(f.version, 4) + f.raw);
    EfiTagIs(a[efi + 8..efi + 16 + |f.raw|], f.raw, f.stride, f.version);
    StandsFrame(first, a[..], start, mapTag, efi);
    ghost var second := a[..];
    WriteTag(a, end, TAG_END, 0, []);
    assert a[end + 8..end + 8 + 0] == [];
    StandsFrame(second, a[..], start, mapTag, end);
    StandsFrame(second, a[..], efi, efiMap, end);
    PrefixOfPrefix(old(a[..]), first, second, a[..], start, efi, end);
  }

  lemma PrefixOfPrefix(s0: seq<Byte>, s1: seq<Byte>, s2: seq<Byte>, s3: seq<Byte>, i: nat, j: nat, k: nat)
    requires i <= j <= k <= |s0| == |s1| == |s2| == |s3|
    requires s0[..i] == s1[..i] && s1[..j] == s2[..j] && s2[..k] == s3[..k]
    ensures s0[..i] == s3[..i]
  {
    assert s1[..i] == s1[..j][..i] && s2[..i] == s2[..j][..i] && s2[..i] == s2[..k][..i] && s3[..i] == s3[..k][..i];
  }

  /** The tail, from the reservation on: the two map tags and the end tag go into the one region pushed for them. */
  method FinishTail(p: Params, firstSize: nat, f: FinalMap, types: seq<U32>) returns (ok: bool)
    requires p.Valid() && firstSize < 0xFFFF_0000 && FinalMapFits(f, firstSize + EFI_PAGE_SIZE)
    requires f.FinalMap? ==> |types| == |f.raw| / f.stride
    modifies p
    ensures ok <==> f.FinalMap?
    ensures ok ==> p.buffer != null
    ensures ok ==> Walk(p.buffer[..], 8) == Some(old(p.tags) + TailTags(f, types))
    ensures ok ==> var tags, n := Walk(p.buffer[..], 8).value, |old(p.tags)|;
      && |tags| == n + 3 && MapReads(tags[n], Descriptors(f.raw, f.stride), types)
      && EfiMapReads(tags[n + 1], f) && tags[n + 2] == Tag(0, [])
  {
    hide MapReads, EfiMapReads;
    hide Laid, Stands, RoundUp, Encode, MapTag, EfiMapTag, Walk;
    ghost var tags, before := p.tags, p.buffer[..];
    var room := firstSize + EFI_PAGE_SIZE;
    var start := p.PushBootParams(None, TailRoom(room));
    ok := f.FinalMap?;
    if !ok { return; }
    TailFits(room, |f.raw|, f.stride);
    WriteTail(p.buffer, start, f, types);
    assert before[..start] == before;
    LaidFrame(before, p.buffer[..], 8, tags, start);
    ClosedStream(p.buffer[..], tags, start, f, types);
    TailReads(f, types);
  }

  lemma ClosedStream(buf: seq<Byte>, tags: seq<Tag>, start: nat, f: FinalMap, types: seq<U32>)
    requires f.FinalMap? && f.stride >= DESCRIPTOR_FIELDS && |f.raw| < 0xFFFF_FF00
    requires |types| == |f.raw| / f.stride && 16 + 24 * (|f.raw| / f.stride) < TWO_32
    requires Laid(buf, 8, tags, start)
    requires var mapTag, efi := TailTags(f, types)[0], TailTags(f, types)[1];
             var mid := start + TagSize(mapTag);
      && Stands(buf, start, mapTag) && Stands(buf, mid, efi)
      && Stands(buf, mid + RoundUp(TagSize(efi), TAG_ALIGN), END_TAG)
    ensures Walk(buf, 8) == Some(tags + TailTags(f, types))
  {
    hide Laid, Stands, RoundUp, MapTag, EfiMapTag, Walk;
    var ds := Descriptors(f.raw, f.stride);
    var t1, t2 := MapTag(ds, types), EfiMapTag(f.raw, f.stride, f.version);
    MapSizes(ds, types, f.raw, f.stride, f.version);
    TailReadsBack(buf, tags, start, t1, t2);
    assert tags + TailTags(f, types) == tags + [t1] + [t2] + [END_TAG];
  }

  function TailTags(f: FinalMap, types: seq<U32>): seq<Tag>
    requires f.FinalMap? && f.stride >= DESCRIPTOR_FIELDS && |types| == |f.raw| / f.stride
  {
    [MapTag(Descriptors(f.raw, f.stride), types), EfiMapTag(f.raw, f.stride, f.version), END_TAG]
  }

  lemma MapSizes(ds: seq<Descriptor>, types: seq<U32>, raw: seq<Byte>, stride: nat, version: U32)
    requires |types| == |ds|
    ensures TagSize(MapTag(ds, types)) == 16 + 24 * |ds| == RoundUp(TagSize(MapTag(ds, types)), TAG_ALIGN)
    ensures TagSize(EfiMapTag(raw, stride, version)) == 16 + |raw|
    ensures MapTag(ds, types).ty != TAG_END && EfiMapTag(raw, stride, version).ty != TAG_END
  {
    hide ToLE, MapEntries;
    RoundTwentyFours(|ds|);
  }

  lemma RoundTwentyFours(n: nat)
    ensures RoundUp(16 + 24 * n, TAG_ALIGN) == 16 + 24 * n
  {
    assert (16 + 24 * n + 7) / 8 == 2 + 3 * n;
  }

  lemma EfiTagIs(payload: seq<Byte>, raw: seq<Byte>, stride: nat, version: U32)
    requires |payload| == 8 + |raw|
    requires payload[..8 + |raw|] == ToLE(stride % TWO_32, 4) + ToLE(version, 4) + raw
    ensures Tag(TAG_EFI_MMAP, payload) == EfiMapTag(raw, stride, version)
  {
    assert payload[..8 + |raw|] == payload;
  }

  lemma TailReadsBack(buf: seq<Byte>, tags: seq<Tag>, start: nat, t1: Tag, t2: Tag)
    requires Laid(buf, 8, tags, start)
    requires t1.ty != TAG_END && t2.ty != TAG_END && Fits(t1) && Fits(t2)
    requires var mid := start + RoundUp(TagSize(t1), TAG_ALIGN);
      Stands(buf, start, t1) && Stands(buf, mid, t2) && Stands(buf, mid + RoundUp(TagSize(t2), TAG_ALIGN), END_TAG)
    ensures Walk(buf, 8) == Some(tags + [t1] + [t2] + [END_TAG])
  {
    hide Stands, Laid, RoundUp, Walk;
    var mid := start + RoundUp(TagSize(t1), TAG_ALIGN);
    LaidSnoc(buf, 8, tags, start, t1);
    LaidSnoc(buf, 8, tags + [t1], mid, t2);
    WalkReadsBack(buf, 8, tags + [t1] + [t2], mid + RoundUp(TagSize(t2), TAG_ALIGN));
  }

  // ---------- what a kernel reads in the tags ----------

  /** A module tag gives the two addresses modulo 2^32, and the string with its terminator. */
  lemma ModuleTagReads(tag: seq<Byte>, start: nat, size: nat)
    ensures var t := ModuleTag(tag, start, size);
      && t.ty == 3 && |t.payload| == 8 + |tag| + 1 && t.payload[8..] == tag + [0]
      && U32At(t.payload, 0) == start % 0x1_0000_0000 && U32At(t.payload, 4) == (start + size) % 0x1_0000_0000
  {
    hide ToLE, U32At;
    var p := ModuleTag(tag, start, size).payload;
    ReadsU32(p, 0, start % TWO_32);
    ReadsU32(p, 4, (start + size) % TWO_32);
  }

  /** The module tags are those of the modules, one each and in order. */
  lemma {:induction false} ModuleTagsInOrder(ms: seq<ModuleFile>)
    requires AllLoaded(ms)
    ensures |ModuleTags(ms)| == |ms|
    ensures forall i :: 0 <= i < |ms| ==>
      ModuleTags(ms)[i] == ModuleTag(ms[i].tag, ms[i].loaded.value.0, ms[i].loaded.value.1)
  {
    hide ModuleTag;
    if ms == [] {
    } else {
      ModuleTagsInOrder(ms[..|ms| - 1]);
    }
  }

  /** The framebuffer tag: address, pitch, width and height, then 32 bits a pixel of type RGB with red, green and blue
      eight bits wide at bits 16, 8 and 0. */
  lemma FramebufferTagReads(fb: Framebuffer)
    ensures var t := FramebufferTag(fb);
      && t.ty == 8 && |t.payload| == 32
      && U64At(t.payload, 0) == fb.addr && U32At(t.payload, 8) == fb.pixelsPerScanLine * 4 % 0x1_0000_0000
      && U32At(t.payload, 12) == fb.width && U32At(t.payload, 16) == fb.height
      && t.payload[20] == 32 && t.payload[21] == 1
      && t.payload[24] == 16 && t.payload[26] == 8 && t.payload[28] == 0
      && t.payload[25] == t.payload[27] == t.payload[29] == 8
  {
    hide ToLE, U32At, U64At;
    var p := FramebufferTag(fb).payload;
    ReadsU64(p, 0, fb.addr);
    ReadsU32(p, 8, fb.pixelsPerScanLine * 4 % TWO_32);
    ReadsU32(p, 12, fb.width);
    ReadsU32(p, 16, fb.height);
  }

  /** The section tag: the count, the size of one, the index of the names, and the section headers themselves. */
  lemma SectionsTagReads(s: Sections)
    requires s.entrySize > 0
    ensures var t := SectionsTag(s);
      && t.ty == 9 && |t.payload| == 12 + |s.headers| && t.payload[12..] == s.headers
      && U32At(t.payload, 0) == |s.headers| / s.entrySize % 0x1_0000_0000
      && U32At(t.payload, 4) == s.entrySize % 0x1_0000_0000 && U32At(t.payload, 8) == s.stringIndex % 0x1_0000_0000
  {
    hide ToLE, U32At;
    var p := SectionsTag(s).payload;
    ReadsU32(p, 0, |s.headers| / s.entrySize % TWO_32);
    ReadsU32(p, 4, s.entrySize % TWO_32);
    ReadsU32(p, 8, s.stringIndex % TWO_32);
  }

  /** The strings, and the copies of the ACPI tables. */
  lemma OtherTagsRead(cmdline: seq<Byte>, slack: seq<Byte>, ms: seq<ModuleFile>, fb: Framebuffer,
                      rsdp: Option<seq<Byte>>, xsdp: Option<seq<Byte>>)
    requires AllLoaded(ms)
    ensures var tags, n := EarlyTags(cmdline, slack, ms, fb, rsdp, xsdp), 3 + |ms|;
      && |tags| == n + (if rsdp.Some? then 1 else 0) + (if xsdp.Some? then 1 else 0)
      && tags[0] == Tag(1, cmdline + [0])
      && tags[1].ty == 2 && AsText(LOADER_NAME) == "TomatBoot-UEFI" + [0 as char]
      && LOADER_NAME <= tags[1].payload
      && tags[2..n - 1] == ModuleTags(ms) && tags[n - 1] == FramebufferTag(fb)
      && (rsdp.Some? ==> tags[n] == Tag(14, rsdp.value))
      && (xsdp.Some? ==> tags[|tags| - 1] == Tag(15, xsdp.value))
  {
    hide FramebufferTag, ModuleTag, AsText;
    ModuleTagsInOrder(ms);
    LoaderName();
  }

  function AsText(bs: seq<Byte>): string {
    seq(|bs|, i requires 0 <= i < |bs| => bs[i] as char)
  }

  lemma LoaderName()
    ensures AsText(LOADER_NAME) == "TomatBoot-UEFI" + [0 as char]
  {
  }

  lemma {:induction false} EntryInMap(ds: seq<Descriptor>, types: seq<U32>, i: nat)
    requires |types| == |ds| && i < |ds|
    ensures MapEntries(ds, types)[24 * i..24 * i + 24] == MapEntry(ds[i], types[i])
  {
    hide MapEntry;
    if i == |ds| - 1 {
    } else {
      EntryInMap(ds[..|ds| - 1], types[..|ds| - 1], i);
    }
  }

  /** The memory map as a kernel reads it out of the tag: entries of 24 bytes, version 0, and for every descriptor its
      start, its size in bytes, its type and a zero. */
  ghost predicate MapReads(t: Tag, ds: seq<Descriptor>, types: seq<U32>)
    requires |types| == |ds|
  {
    && t.ty == 6 && |t.payload| == 8 + 24 * |ds|
    && U32At(t.payload, 0) == 24 && U32At(t.payload, 4) == 0
    && forall i {:trigger ds[i]} :: 0 <= i < |ds| ==>
      && U64At(t.payload, 8 + 24 * i) == ds[i].start
      && U64At(t.payload, 16 + 24 * i) == ds[i].pages * 4096 % 0x1_0000_0000_0000_0000
      && U32At(t.payload, 24 + 24 * i) == types[i] && U32At(t.payload, 28 + 24 * i) == 0
  }

  lemma MapTagReads(ds: seq<Descriptor>, types: seq<U32>)
    requires |types| == |ds|
    ensures MapReads(MapTag(ds, types), ds, types)
  {
    hide ToLE, U32At, U64At, MapEntries, MapEntry;
    var p := MapTag(ds, types).payload;
    assert p[0..4] == ToLE(24, 4) && p[4..8] == ToLE(0, 4) && p[8..] == MapEntries(ds, types);
    ReadsU32(p, 0, 24);
    ReadsU32(p, 4, 0);
    forall i {:trigger ds[i]} | 0 <= i < |ds|
      ensures U64At(p, 8 + 24 * i) == ds[i].start
      ensures U64At(p, 16 + 24 * i) == ds[i].pages * 4096 % 0x1_0000_0000_0000_0000
      ensures U32At(p, 24 + 24 * i) == types[i] && U32At(p, 28 + 24 * i) == 0
    {
      EntryInMap(ds, types, i);
      var at := 8 + 24 * i;
      assert p[at..at + 24] == p[8..][24 * i..24 * i + 24];
      MapEntryReads(p, at, ds[i], types[i]);
    }
    assert |p| == 8 + 24 * |ds| && U32At(p, 0) == 24 && U32At(p, 4) == 0;
  }

  lemma MapEntryReads(p: seq<Byte>, at: nat, d: Descriptor, ty: U32)
    requires at + 24 <= |p| && p[at..at + 24] == MapEntry(d, ty)
    ensures U64At(p, at) == d.start && U64At(p, at + 8) == d.pages * 4096 % 0x1_0000_0000_0000_0000
    ensures U32At(p, at + 16) == ty && U32At(p, at + 20) == 0
  {
    hide ToLE, U32At, U64At;
    SliceOfSlice(p, at, at + 24, 0, 8); SliceOfSlice(p, at, at + 24, 8, 16);
    SliceOfSlice(p, at, at + 24, 16, 20); SliceOfSlice(p, at, at + 24, 20, 24);
    ReadsU64(p, at, d.start);
    ReadsU64(p, at + 8, d.pages * EFI_PAGE_SIZE % TWO_64);
    ReadsU32(p, at + 16, ty);
    ReadsU32(p, at + 20, 0);
  }

  /** The firmware's own map: the stride, the version of its descriptors, and its bytes as they are. */
  ghost predicate EfiMapReads(t: Tag, f: FinalMap)
    requires f.FinalMap?
  {
    && t.ty == 17 && |t.payload| == 8 + |f.raw| && t.payload[8..] == f.raw
    && U32At(t.payload, 0) == f.stride % 0x1_0000_0000 && U32At(t.payload, 4) == f.version
  }

  lemma TailReads(f: FinalMap, types: seq<U32>)
    requires f.FinalMap? && f.stride >= DESCRIPTOR_FIELDS && |types| == |f.raw| / f.stride
    ensures var tags := TailTags(f, types);
      && |tags| == 3 && MapReads(tags[0], Descriptors(f.raw, f.stride), types)
      && EfiMapReads(tags[1], f) && tags[2] == Tag(0, [])
  {
    hide ToLE, U32At, MapTag, MapReads;
    MapTagReads(Descriptors(f.raw, f.stride), types);
    var p := EfiMapTag(f.raw, f.stride, f.version).payload;
    ReadsU32(p, 0, f.stride % TWO_32);
    ReadsU32(p, 4, f.version);
  }
}
