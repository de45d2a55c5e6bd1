/** The Multiboot2 header of a kernel file (section 3.1 of the Multiboot2 Specification 2.0): the search for it
    and the walk over its tags. */
module Mb2Header {
  import opened Bytes
  import opened Layout

  const MULTIBOOT_SEARCH: nat := 32768
  const HEADER_ALIGN: nat := 8
  const HEADER_MAGIC: U32 := 0xE852_50D6
  const HEADER_SIZE: nat := 16

  // ---------- the search ----------

  /** Sixteen readable bytes with the magic, the i386 architecture and fields that sum to zero. */
  predicate HeaderAt(file: seq<Byte>, i: nat) {
    && i + HEADER_SIZE <= |file|
    && U32At(file, i) == HEADER_MAGIC && U32At(file, i + 4) == 0
    && (U32At(file, i + 12) + U32At(file, i) + U32At(file, i + 4) + U32At(file, i + 8)) % TWO_32 == 0
  }

  predicate Candidate(i: nat) {
    i < MULTIBOOT_SEARCH && i % HEADER_ALIGN == 0
  }

  /** LoadMB2Header. The second result is the header with its tags; it is missing when the file ends before the
      announced length, in which case the loader goes on with an allocation it has not filled. */
  method LoadMB2Header(file: seq<Byte>) returns (offset: Option<nat>, header: Option<seq<Byte>>)
    ensures offset.None? <==> forall i: nat :: Candidate(i) ==> !HeaderAt(file, i)
    ensures offset.Some? ==> Candidate(offset.value) && HeaderAt(file, offset.value)
    ensures offset.Some? ==> forall i: nat :: Candidate(i) && i < offset.value ==> !HeaderAt(file, i)
    ensures header.Some? <==> offset.Some? && offset.value + U32At(file, offset.value + 8) <= |file|
    ensures header.Some? ==> header.value == file[offset.value..offset.value + U32At(file, offset.value + 8)]
  {
    hide U32At;
    var i: nat := 0;
    while i < MULTIBOOT_SEARCH
      invariant i % HEADER_ALIGN == 0
      invariant forall j: nat :: Candidate(j) && j < i ==> !HeaderAt(file, j)
    {
      if i + HEADER_SIZE > |file| { return None, None; }
      var magic, architecture, length, checksum := U32At(file, i), U32At(file, i + 4), U32At(file, i + 8), U32At(file, i + 12);
      if magic == HEADER_MAGIC && architecture == 0 && (checksum + magic + architecture + length) % TWO_32 == 0 {
        assert Candidate(i) && HeaderAt(file, i);
        offset := Some(i);
        header := if i + length <= |file| then Some(file[i..i + length]) else None;
        return;
      }
      i := i + HEADER_ALIGN;
    }
    offset, header := None, None;
  }

  // ---------- the tags ----------

  datatype HeaderTag = HeaderTag(ty: U16, flags: U16, body: seq<Byte>)

  const TAG_END: U16 := 0
  const TAG_REQUEST: U16 := 1
  const TAG_ADDRESS: U16 := 2
  const TAG_ENTRY: U16 := 3
  const TAG_CONSOLE: U16 := 4
  const TAG_FRAMEBUFFER: U16 := 5
  const TAG_MODULE_ALIGN: U16 := 6
  const TAG_RELOCATABLE: U16 := 10

  const ACPI_OLD: U32 := 14
  const ACPI_NEW: U32 := 15

  /** How many bytes the loader reads after the common eight. */
  function BodyNeeded(ty: U16): nat {
    if ty == TAG_ENTRY || ty == TAG_CONSOLE then 4 else if ty == TAG_FRAMEBUFFER then 12 else 0
  }

  /** The tag at the offset: at least eight bytes, all it announces inside the header, and the fields its type has. */
  function HeaderTagAt(h: seq<Byte>, off: nat): (t: Option<HeaderTag>)
    ensures t.Some? ==> off + 8 + |t.value.body| <= |h|
  {
    if off + 8 > |h| then None else
    var ty, size := U16At(h, off), U32At(h, off + 4);
    if ty == TAG_END then Some(HeaderTag(ty, U16At(h, off + 2), []))
    else if size < 8 + BodyNeeded(ty) || off + size > |h| then None
    else Some(HeaderTag(ty, U16At(h, off + 2), h[off + 8..off + size]))
  }

  /** The list of tags up to the end tag or the end of the header, when they are all well formed. */
  function TagsFrom(h: seq<Byte>, off: nat): Option<seq<HeaderTag>>
    decreases |h| - off
  {
    if off >= |h| then Some([]) else
    match HeaderTagAt(h, off)
    case None => None
    case Some(t) =>
      if t.ty == TAG_END then Some([]) else
      match TagsFrom(h, off + RoundUp(8 + |t.body|, HEADER_ALIGN))
      case None => None
      case Some(rest) => Some([t] + rest)
  }

  predicate Optional(t: HeaderTag) { t.flags % 2 == 1 }

  /** The i-th information type an information request asks for. */
  function Request(t: HeaderTag, i: nat): U32
    requires i < |t.body| / 4
  {
    U32At(t.body, 4 * i)
  }

  function RequestCount(t: HeaderTag): nat { |t.body| / 4 }

  predicate Asks(t: HeaderTag, r: U32) {
    exists i: nat :: i < RequestCount(t) && Request(t, i) == r
  }

  /** Information the loader always gives: command line, loader name, modules, both memory maps, framebuffer, ELF sections. */
  predicate AlwaysGiven(r: U32) {
    r == 1 || r == 2 || r == 3 || r == 6 || r == 17 || r == 8 || r == 9
  }

  predicate Unsupported(r: U32) {
    !AlwaysGiven(r) && r != ACPI_OLD && r != ACPI_NEW
  }

  /** A tag that makes the loader give up. */
  predicate Rejected(t: HeaderTag)
    requires |t.body| >= BodyNeeded(t.ty)
  {
    if t.ty == TAG_REQUEST then !Optional(t) && exists i: nat :: i < RequestCount(t) && Unsupported(Request(t, i))
    else if t.ty == TAG_CONSOLE then U32At(t.body, 0) % 2 == 1
    else if 7 <= t.ty <= TAG_RELOCATABLE then !Optional(t)
    else t.ty == TAG_END || t.ty > TAG_RELOCATABLE
  }

  /** Whether the last tag that asks for the table demands it. */
  predicate Demands(tags: seq<HeaderTag>, table: U32) {
    if tags == [] then false else
      var t := tags[|tags| - 1];
      if t.ty == TAG_REQUEST && Asks(t, table) then !Optional(t) else Demands(tags[..|tags| - 1], table)
  }

  predicate AllHaveBodies(tags: seq<HeaderTag>) {
    forall t :: t in tags ==> |t.body| >= BodyNeeded(t.ty)
  }

  /** The entry address of the last entry-address tag, or zero. */
  function EntryOverride(tags: seq<HeaderTag>): U32
    requires AllHaveBodies(tags)
  {
    if tags == [] then 0 else
      var t := tags[|tags| - 1];
      assert t in tags && |t.body| >= BodyNeeded(t.ty);
      if t.ty == TAG_ENTRY then U32At(t.body, 0) else EntryOverride(tags[..|tags| - 1])
  }

  predicate HasAddressTag(tags: seq<HeaderTag>) {
    exists t :: t in tags && t.ty == TAG_ADDRESS
  }

  /** What the walk finds out. */
  datatype Findings = Findings(entryOverride: U32, mustHaveOld: bool, mustHaveNew: bool, notElf: bool)

  function FindingsOf(tags: seq<HeaderTag>): Findings
    requires AllHaveBodies(tags)
  {
    Findings(EntryOverride(tags), Demands(tags, ACPI_OLD), Demands(tags, ACPI_NEW), HasAddressTag(tags))
  }

  /** The inner loop over the entries of one information request. */
  method CheckRequests(t: HeaderTag, f: Findings) returns (ok: bool, f': Findings)
    requires t.ty == TAG_REQUEST
    ensures ok <==> !Rejected(t)
    ensures ok ==> f' == f.(mustHaveOld := if Asks(t, ACPI_OLD) then !Optional(t) else f.mustHaveOld,
                            mustHaveNew := if Asks(t, ACPI_NEW) then !Optional(t) else f.mustHaveNew)
  {
    hide Request;
    f' := f;
    for i := 0 to RequestCount(t)
      invariant !Optional(t) ==> forall j: nat :: j < i ==> !Unsupported(Request(t, j))
      invariant f' == f.(mustHaveOld := f'.mustHaveOld, mustHaveNew := f'.mustHaveNew)
      invariant f'.mustHaveOld == if exists j: nat :: j < i && Request(t, j) == ACPI_OLD then !Optional(t) else f.mustHaveOld
      invariant f'.mustHaveNew == if exists j: nat :: j < i && Request(t, j) == ACPI_NEW then !Optional(t) else f.mustHaveNew
    {
      var r := Request(t, i);
      if AlwaysGiven(r) {
      } else if r == ACPI_OLD {
        f' := f'.(mustHaveOld := !Optional(t));
      } else if r == ACPI_NEW {
        f' := f'.(mustHaveNew := !Optional(t));
      } else if !Optional(t) {
        return false, f';
      }
    }
    ok := true;
  }

  /** One tag. */
  method CheckTag(t: HeaderTag, f: Findings) returns (ok: bool, f': Findings)
    requires t.ty != TAG_END && |t.body| >= BodyNeeded(t.ty)
    ensures ok <==> !Rejected(t)
    ensures ok ==> f'.entryOverride == if t.ty == TAG_ENTRY then U32At(t.body, 0) else f.entryOverride
    ensures ok ==> f'.mustHaveOld == if t.ty == TAG_REQUEST && Asks(t, ACPI_OLD) then !Optional(t) else f.mustHaveOld
    ensures ok ==> f'.mustHaveNew == if t.ty == TAG_REQUEST && Asks(t, ACPI_NEW) then !Optional(t) else f.mustHaveNew
    ensures ok ==> (f'.notElf <==> t.ty == TAG_ADDRESS || f.notElf)
  {
    hide U32At, Asks;
    ok, f' := true, f;
    if t.ty == TAG_REQUEST {
      ok, f' := CheckRequests(t, f);
    } else if t.ty == TAG_ADDRESS {
      f' := f.(notElf := true);
    } else if t.ty == TAG_ENTRY {
      f' := f.(entryOverride := U32At(t.body, 0));
    } else if t.ty == TAG_CONSOLE {
      ok := U32At(t.body, 0) % 2 == 0;
    } else if t.ty == TAG_FRAMEBUFFER || t.ty == TAG_MODULE_ALIGN {
    } else if 7 <= t.ty <= TAG_RELOCATABLE {
      ok := Optional(t);
    } else {
      ok := false;
    }
  }

  lemma HeaderTagHasBody(h: seq<Byte>, off: nat)
    requires HeaderTagAt(h, off).Some? && HeaderTagAt(h, off).value.ty != TAG_END
    ensures var t := HeaderTagAt(h, off).value; |t.body| >= BodyNeeded(t.ty) && 8 + |t.body| == U32At(h, off + 4)
  {
  }

  lemma {:induction false} TagsHaveBodies(h: seq<Byte>, off: nat)
    requires TagsFrom(h, off).Some?
    ensures AllHaveBodies(TagsFrom(h, off).value)
    decreases |h| - off
  {
    if off >= |h| || HeaderTagAt(h, off).value.ty == TAG_END {
    } else {
      HeaderTagHasBody(h, off);
      TagsHaveBodies(h, off + RoundUp(8 + |HeaderTagAt(h, off).value.body|, HEADER_ALIGN));
    }
  }

  /** What one more tag does to the findings. */
  lemma OneMoreTag(done: seq<HeaderTag>, t: HeaderTag)
    requires AllHaveBodies(done) && |t.body| >= BodyNeeded(t.ty)
    ensures AllHaveBodies(done + [t])
    ensures EntryOverride(done + [t]) == if t.ty == 3 then U32At(t.body, 0) else EntryOverride(done)
    ensures forall r: U32 :: Demands(done + [t], r) == if t.ty == 1 && Asks(t, r) then t.flags % 2 == 0 else Demands(done, r)
    ensures HasAddressTag(done + [t]) <==> t.ty == 2 || HasAddressTag(done)
  {
    hide U32At, Asks;
    assert (done + [t])[..|done|] == done;
    assert forall x :: x in done + [t] <==> x in done || x == t;
  }

  /** Which tags make the loader give up, by number (section 3.1.3 of the Multiboot2 Specification 2.0): a demand for
      information it has not got, a text console that is required, whatever is unknown, and boot services, EFI entry
      points and relocation unless they are optional. */
  lemma RejectedTags(t: HeaderTag)
    requires |t.body| >= BodyNeeded(t.ty)
    ensures t.ty == 1 ==> (Rejected(t) <==> t.flags % 2 == 0 && exists r :: Asks(t, r) && Unsupported(r))
    ensures t.ty in {2, 3, 5, 6} ==> !Rejected(t)
    ensures t.ty == 4 ==> |t.body| >= 4 && (Rejected(t) <==> t.body[0] % 2 == 1)
    ensures 7 <= t.ty <= 10 ==> (Rejected(t) <==> t.flags % 2 == 0)
    ensures t.ty == 0 || t.ty > 10 ==> Rejected(t)
  {
    hide Request;
    if t.ty == TAG_CONSOLE {
      LowBit(t.body[0..4]);
    }
    if t.ty == TAG_REQUEST && Rejected(t) {
      var i: nat :| i < RequestCount(t) && Unsupported(Request(t, i));
      assert Asks(t, Request(t, i));
    }
  }

  /** An information request lists its types as words, and asks for exactly those. */
  lemma RequestsRead(t: HeaderTag, types: seq<U32>, r: U32)
    requires t.body == Packed(WordFields(types))
    ensures RequestCount(t) == |types|
    ensures Asks(t, r) <==> r in types
  {
    hide Packed, Word, Offset;
    var fs := WordFields(types);
    PowersOf256();
    FieldsRead([], fs, []);
    assert [] + t.body + [] == t.body;
    WordOffsets(types, |types|);
    forall i | 0 <= i < |types|
      ensures Request(t, i) == types[i]
    {
      WordOffsets(types, i);
      assert Reads([] + t.body + [], 0 + Offset(fs, i), fs[i]);
    }
  }

  function WordFields(types: seq<U32>): seq<Field> {
    seq(|types|, i requires 0 <= i < |types| => Field(types[i], 4))
  }

  lemma {:induction false} WordOffsets(types: seq<U32>, k: nat)
    requires k <= |types|
    ensures Offset(WordFields(types), k) == 4 * k
  {
    if k == 0 {
    } else {
      WordOffsets(types, k - 1);
    }
  }

  lemma LowBit(bs: seq<Byte>)
    requires bs != []
    ensures FromLE(bs) % 2 == bs[0] % 2
  {
  }

  /** A header tag as it is declared: type, flags and size, then its own fields. Of the end tag only the type counts. */
  lemma HeaderTagReadsBack(pre: seq<Byte>, t: HeaderTag, post: seq<Byte>)
    requires 8 + |t.body| < TWO_32
    requires |t.body| >= (if t.ty == 3 || t.ty == 4 then 4 else if t.ty == 5 then 12 else 0)
    ensures var h := pre + Packed([Field(t.ty, 2), Field(t.flags, 2), Field(8 + |t.body|, 4)]) + t.body + post;
      HeaderTagAt(h, |pre|) == Some(if t.ty == 0 then t.(body := []) else t)
  {
    hide Packed, Word, Offset;
    var fs := [Field(t.ty, 2), Field(t.flags, 2), Field(8 + |t.body|, 4)];
    var h := pre + Packed(fs) + (t.body + post);
    PowersOf256();
    ThreeFields(fs);
    FieldsRead(pre, fs, t.body + post);
    assert Reads(h, |pre| + Offset(fs, 0), fs[0]) && Reads(h, |pre| + Offset(fs, 1), fs[1])
        && Reads(h, |pre| + Offset(fs, 2), fs[2]);
    assert h[|pre| + 8..|pre| + 8 + |t.body|] == t.body;
    assert h == pre + Packed(fs) + t.body + post;
  }

  lemma ThreeFields(fs: seq<Field>)
    requires |fs| == 3 && fs[0].width == 2 && fs[1].width == 2 && fs[2].width == 4
    ensures Offset(fs, 0) == 0 && Offset(fs, 1) == 2 && Offset(fs, 2) == 4 && Offset(fs, 3) == 8
  {
  }

  /** The file header is found by its four words: the magic number, architecture i386, and a sum of zero in 32 bits. */
  lemma HeaderFound(pre: seq<Byte>, magic: U32, architecture: U32, length: U32, checksum: U32, post: seq<Byte>)
    ensures var file := pre + Packed([Field(magic, 4), Field(architecture, 4), Field(length, 4), Field(checksum, 4)]) + post;
      && |pre| + 16 <= |file| && U32At(file, |pre| + 8) == length
      && (Candidate(|pre|) <==> |pre| < 32768 && |pre| % 8 == 0)
      && (HeaderAt(file, |pre|) <==> magic == 0xE852_50D6 && architecture == 0
                                     && (magic + architecture + length + checksum) % 0x1_0000_0000 == 0)
  {
    hide Packed, Word, Offset;
    var fs := [Field(magic, 4), Field(architecture, 4), Field(length, 4), Field(checksum, 4)];
    var file := pre + Packed(fs) + post;
    PowersOf256();
    FourWords(fs);
    FieldsRead(pre, fs, post);
    assert Reads(file, |pre| + Offset(fs, 0), fs[0]) && Reads(file, |pre| + Offset(fs, 1), fs[1])
        && Reads(file, |pre| + Offset(fs, 2), fs[2]) && Reads(file, |pre| + Offset(fs, 3), fs[3]);
  }

  lemma FourWords(fs: seq<Field>)
    requires |fs| == 4 && fs[0].width == fs[1].width == fs[2].width == fs[3].width == 4
    ensures Offset(fs, 0) == 0 && Offset(fs, 1) == 4 && Offset(fs, 2) == 8 && Offset(fs, 3) == 12 && Offset(fs, 4) == 16
  {
    assert Offset(fs, 1) == 4;
    assert Offset(fs, 3) == 12;
  }

  lemma FindingsStep(done: seq<HeaderTag>, t: HeaderTag, f: Findings, f': Findings)
    requires AllHaveBodies(done) && |t.body| >= BodyNeeded(t.ty) && f == FindingsOf(done)
    requires f'.entryOverride == if t.ty == TAG_ENTRY then U32At(t.body, 0) else f.entryOverride
    requires f'.mustHaveOld == if t.ty == TAG_REQUEST && Asks(t, ACPI_OLD) then !Optional(t) else f.mustHaveOld
    requires f'.mustHaveNew == if t.ty == TAG_REQUEST && Asks(t, ACPI_NEW) then !Optional(t) else f.mustHaveNew
    requires f'.notElf <==> t.ty == TAG_ADDRESS || f.notElf
    ensures AllHaveBodies(done + [t]) && f' == FindingsOf(done + [t])
  {
    hide U32At, Asks, EntryOverride, Demands, HasAddressTag;
    OneMoreTag(done, t);
  }

  lemma NextTagOffset(h: seq<Byte>, off: nat)
    requires |h| <= TWO_32 - HEADER_ALIGN && HeaderTagAt(h, off).Some? && HeaderTagAt(h, off).value.ty != TAG_END
    ensures off + 8 <= |h|
    ensures var step := AlignValue(U32At(h, off + 4), HEADER_ALIGN, TWO_32);
      step == RoundUp(8 + |HeaderTagAt(h, off).value.body|, HEADER_ALIGN) > 0
  {
    hide AlignValue, RoundUp;
    HeaderTagHasBody(h, off);
    AlignValueRoundsUp(U32At(h, off + 4), HEADER_ALIGN, TWO_32);
    RoundUpIsLeast(U32At(h, off + 4), HEADER_ALIGN);
  }

  lemma TagsUnfold(h: seq<Byte>, off: nat)
    requires off < |h| && TagsFrom(h, off).Some?
    ensures HeaderTagAt(h, off).Some?
    ensures HeaderTagAt(h, off).value.ty == TAG_END ==> TagsFrom(h, off).value == []
    ensures HeaderTagAt(h, off).value.ty != TAG_END ==>
      var t := HeaderTagAt(h, off).value;
      var rest := TagsFrom(h, off + RoundUp(8 + |t.body|, HEADER_ALIGN));
      rest.Some? && TagsFrom(h, off).value == [t] + rest.value
  {
    hide HeaderTagAt;
  }

  /** The walk: accepted exactly when no tag is rejected, and then the last word on every question counts. */
  method WalkHeaderTags(h: seq<Byte>) returns (ok: bool, f: Findings)
    requires |h| <= TWO_32 - HEADER_ALIGN && TagsFrom(h, HEADER_SIZE).Some?
    ensures AllHaveBodies(TagsFrom(h, HEADER_SIZE).value)
    ensures var tags := TagsFrom(h, HEADER_SIZE).value;
      && (ok <==> forall t :: t in tags ==> !Rejected(t))
      && (ok ==> f == FindingsOf(tags))
  {
    hide U32At, U16At, HeaderTagAt, Rejected, Asks, TagsFrom, FindingsOf, Optional, BodyNeeded, AlignValue, RoundUp;
    ghost var tags := TagsFrom(h, HEADER_SIZE).value;
    TagsHaveBodies(h, HEADER_SIZE);
    ghost var done: seq<HeaderTag> := [];
    ghost var rest := tags;
    var off := HEADER_SIZE;
    f := Findings(0, false, false, false);
    NoTags();
    while off < |h|
      invariant TagsFrom(h, off) == Some(rest) && tags == done + rest
      invariant AllHaveBodies(done)
      invariant forall t :: t in done ==> !Rejected(t)
      invariant f == FindingsOf(done)
      decreases |h| - off
    {
      TagsUnfold(h, off);
      var t := HeaderTagAt(h, off).value;
      if t.ty == TAG_END { break; }
      HeaderTagHasBody(h, off);
      assert rest[0] == t && tags[|done|] == t;
      ghost var before := f;
      ok, f := CheckTag(t, f);
      if !ok { return; }
      FindingsStep(done, t, before, f);
      assert done + rest == done + [t] + rest[1..];
      done, rest := done + [t], rest[1..];
      NextTagOffset(h, off);
      off := off + AlignValue(U32At(h, off + 4), HEADER_ALIGN, TWO_32);
    }
    if off >= |h| { NoTagsLeft(h, off); }
    assert tags == done;
    ok := true;
  }

  lemma NoTags()
    ensures FindingsOf([]) == Findings(0, false, false, false)
  {
  }

  lemma NoTagsLeft(h: seq<Byte>, off: nat)
    requires off >= |h|
    ensures TagsFrom(h, off) == Some([])
  {
  }
}
