/** The firmware memory map and the memory types of the boot protocols. */
module MemoryMap {
  import opened Bytes
  import opened Layout

  const EFI_PAGE_SIZE: nat := 4096
  /** sizeof(EFI_MEMORY_DESCRIPTOR); a firmware may use a larger stride, never a smaller one. */
  const DESCRIPTOR_FIELDS: nat := 40
  const EFI_PERSISTENT_MEMORY: U32 := 14
  const EFI_MAX_MEMORY_TYPE: U32 := 15

  datatype Descriptor = Descriptor(ty: U32, start: U64, pages: U64)

  lemma ProductGrows(c: nat, a: nat, b: nat)
    requires a <= b
    ensures c * a <= c * b
  {
  }

  lemma StrideInside(size: nat, stride: nat, i: nat)
    requires stride > 0 && i < size / stride
    ensures stride * i + stride <= size
  {
    var n := size / stride;
    ProductGrows(stride, i + 1, n);
    calc {
      stride * i + stride;
      stride * (i + 1);
    <=
      stride * n;
    <=
      size;
    }
  }

  lemma MoreBytesMoreDescriptors(size: nat, bound: nat, stride: nat)
    requires stride > 0 && size <= bound
    ensures size / stride <= bound / stride
  {
    assert bound < stride * (bound / stride) + stride;
    if bound / stride < size / stride {
      StrideInside(size, stride, bound / stride);
      assert false;
    }
  }

  /** The i-th descriptor of a raw map laid out with the given stride. */
  function DescriptorAt(raw: seq<Byte>, stride: nat, i: nat): Descriptor
    requires stride >= DESCRIPTOR_FIELDS && i < |raw| / stride
  {
    StrideInside(|raw|, stride, i);
    var at := stride * i;
    Descriptor(U32At(raw, at), U64At(raw, at + 8), U64At(raw, at + 24))
  }

  /** All whole descriptors of a raw map. */
  function Descriptors(raw: seq<Byte>, stride: nat): (ds: seq<Descriptor>)
    requires stride >= DESCRIPTOR_FIELDS
    ensures |ds| == |raw| / stride
    ensures forall i :: 0 <= i < |ds| ==> ds[i] == DescriptorAt(raw, stride, i)
  {
    seq(|raw| / stride, i requires 0 <= i < |raw| / stride => DescriptorAt(raw, stride, i))
  }

  /** EFI_MEMORY_DESCRIPTOR as it is declared, with what the compiler leaves after the type. */
  function DescriptorFields(d: Descriptor, pad: U32, virtualStart: U64, attribute: U64): seq<Field> {
    [Field(d.ty, 4), Field(pad, 4), Field(d.start, 8), Field(virtualStart, 8), Field(d.pages, 8), Field(attribute, 8)]
  }

  /** A descriptor that stands at its place in the map is read field by field, whatever the stride. */
  lemma DescriptorReadsBack(pre: seq<Byte>, d: Descriptor, pad: U32, virtualStart: U64, attribute: U64, post: seq<Byte>,
                            stride: nat, i: nat)
    requires stride >= 40 && |pre| == stride * i && |post| >= stride - 40
    ensures var raw := pre + Packed(DescriptorFields(d, pad, virtualStart, attribute)) + post;
      i < |Descriptors(raw, stride)| && Descriptors(raw, stride)[i] == d
  {
    hide Packed, Word, Offset;
    var fs := DescriptorFields(d, pad, virtualStart, attribute);
    var raw := pre + Packed(fs) + post;
    DescriptorOffsets(fs);
    assert |raw| >= stride * (i + 1);
    ByQuotient(stride * (i + 1), stride, i + 1, 0);
    MoreBytesMoreDescriptors(stride * (i + 1), |raw|, stride);
    PowersOf256();
    FieldsRead(pre, fs, post);
    assert Reads(raw, |pre| + Offset(fs, 0), fs[0]) && Reads(raw, |pre| + Offset(fs, 2), fs[2])
        && Reads(raw, |pre| + Offset(fs, 4), fs[4]);
  }

  lemma DescriptorOffsets(fs: seq<Field>)
    requires |fs| == 6 && fs[0].width == 4 == fs[1].width && fs[2].width == fs[3].width == fs[4].width == fs[5].width == 8
    ensures Offset(fs, 0) == 0 && Offset(fs, 2) == 8 && Offset(fs, 4) == 24 && Offset(fs, 6) == 40
  {
    assert Offset(fs, 1) == 4;
    assert Offset(fs, 3) == 16;
    assert Offset(fs, 5) == 32;
  }

  // ---------- memory types ----------

  /** Which loader's type table is in use. The table of stivale has no slot for EfiPersistentMemory:
      pastEnd is whatever the word after the table holds. */
  datatype TypeTable = Stivale(pastEnd: nat) | Stivale2

  const USABLE: nat := 1
  const RESERVED: nat := 2
  const ACPI_RECLAIM: nat := 3
  const ACPI_NVS: nat := 4
  const BAD_MEMORY: nat := 5
  const STIVALE_KERNEL: nat := 10
  const BOOTLOADER_RECLAIM: nat := 0x1000
  const STIVALE2_KERNEL: nat := 0x1001

  /** The slots the two tables share. */
  function CommonKind(ty: U32): nat
    requires ty < EFI_PERSISTENT_MEMORY
  {
    if ty == 0 then RESERVED                    // EfiReservedMemoryType
    else if ty <= 4 then BOOTLOADER_RECLAIM     // loader and boot services, code and data
    else if ty <= 6 then RESERVED               // runtime services
    else if ty == 7 then USABLE                 // EfiConventionalMemory
    else if ty == 8 then BAD_MEMORY             // EfiUnusableMemory
    else if ty == 9 then ACPI_RECLAIM
    else if ty == 10 then ACPI_NVS
    else RESERVED                               // memory mapped I/O and port space, PAL code
  }

  function KindOf(table: TypeTable, kernelType: U32, ty: U32): nat {
    if ty == kernelType then (if table.Stivale2? then STIVALE2_KERNEL else STIVALE_KERNEL)
    else if ty < EFI_PERSISTENT_MEMORY then CommonKind(ty)
    else if ty < EFI_MAX_MEMORY_TYPE then (match table case Stivale(pastEnd) => pastEnd case Stivale2 => RESERVED)
    else RESERVED
  }

  /** The two protocols' tables as a relation: which firmware types are handed over as which kind. */
  predicate Gives(table: TypeTable, kernelType: U32, ty: U32, kind: nat) {
    if ty == kernelType then kind == (if table.Stivale2? then 0x1001 else 10)
    else if ty == 14 && table.Stivale? then kind == table.pastEnd
    else
      || (kind == 1 && ty == 7)
      || (kind == 2 && (ty == 0 || 5 <= ty <= 6 || 11 <= ty))
      || (kind == 3 && ty == 9)
      || (kind == 4 && ty == 10)
      || (kind == 5 && ty == 8)
      || (kind == 0x1000 && 1 <= ty <= 4)
  }

  /** Every type is given exactly the kind the protocols mean for it. */
  lemma KindsExactly(table: TypeTable, kernelType: U32, ty: U32, kind: nat)
    ensures KindOf(table, kernelType, ty) == kind <==> Gives(table, kernelType, ty, kind)
  {
  }
}
