/** The memory-map loop of the two stivale loaders, writing its entries in place. */
module StivaleMemoryMap {
  import opened Bytes
  import opened MemoryMap
  import opened Coalesce

  /** The loop over the descriptors. count is StartFrom minus the start of the buffer, and Memmap->Entries. */
  method WriteEntries(ds: seq<Descriptor>, table: TypeTable, kernelType: U32, entries: array<Region>)
    returns (count: nat)
    requires |ds| <= entries.Length
    modifies entries
    ensures count <= |ds|
    ensures entries[..count] == Merge(Retyped(ds, table, kernelType))
    ensures entries[count..] == old(entries[count..])
  {
    hide Merge, Step, KindOf, End;
    ghost var rs := Retyped(ds, table, kernelType);
    count := 0;
    var lastType: int := -1;
    var lastEnd: nat := 0xFFFF_FFFF_FFFF;
    for i := 0 to |ds|
      invariant count <= i
      invariant entries[..count] == Merge(rs[..i])
      invariant entries[count..] == old(entries[count..])
      invariant i == 0 ==> count == 0 && lastType == -1
      invariant i > 0 ==> count > 0 && lastType == entries[count - 1].kind && lastEnd == End(entries[count - 1])
    {
      var d := ds[i];
      var length := d.pages * EFI_PAGE_SIZE % TWO_64;
      var physicalEnd := (d.start + length) % TWO_64;
      var kind := KindOf(table, kernelType, d.ty);
      ghost var out := entries[..count];
      assert rs[..i + 1] == rs[..i] + [rs[i]];
      MergeSnoc(rs[..i], rs[i]);
      StepOnWords(out, rs[i]);
      if lastType == kind && lastEnd == d.start {
        entries[count - 1] := entries[count - 1].(length := (entries[count - 1].length + length) % TWO_64);
      } else {
        entries[count] := Region(d.start, length, kind);
        lastType := kind;
        count := count + 1;
      }
      assert entries[..count] == Step(out, rs[i]);
      lastEnd := physicalEnd;
    }
    assert rs[..|ds|] == rs;
  }

  /** The entries of the kind stand for exactly the descriptors of the types meant for it. */
  ghost predicate ShowsKind(entries: seq<Region>, ds: seq<Descriptor>, table: TypeTable, kernelType: U32, kind: nat) {
    var wanted := TypesGiven(table, kernelType, kind);
    && (forall a: U64 :: Cover(entries, kind, a) == Covering(ds, wanted, a))
    && Held(entries, kind) == Holding(ds, wanted)
  }

  /** What the second GetMemoryMap call answers: the raw map and its stride, or an error. */
  datatype MapReply = MapError | Map(raw: seq<Byte>, stride: nat)

  /** From the size the first call asked for to the finished entries. The room for the entries is fixed
      before the second call is made, from the same stride; room is what the fresh buffer held. */
  method BuildMemoryMap(firstSize: nat, stride: nat, reply: MapReply, table: TypeTable, kernelType: U32)
    returns (entries: array<Region>, written: Option<nat>, ghost room: seq<Region>)
    requires stride >= DESCRIPTOR_FIELDS
    requires reply.Map? ==> reply.stride == stride && |reply.raw| <= firstSize + EFI_PAGE_SIZE
    ensures fresh(entries) && entries.Length == (firstSize + EFI_PAGE_SIZE) / stride
    ensures |room| == entries.Length
    ensures written.None? <==> reply.MapError?
    ensures reply.MapError? ==> entries[..] == room
    ensures reply.Map? ==>
      && written.value <= |Descriptors(reply.raw, stride)| <= entries.Length
      && entries[..written.value] == Merge(Retyped(Descriptors(reply.raw, stride), table, kernelType))
      && entries[written.value..] == room[written.value..]
    ensures reply.Map? ==> forall kind: nat :: RunsFit(Retyped(Descriptors(reply.raw, stride), table, kernelType), kind) ==>
      ShowsKind(entries[..written.value], Descriptors(reply.raw, stride), table, kernelType, kind)
  {
    var memoryMapSize := firstSize + EFI_PAGE_SIZE;
    entries := new Region[memoryMapSize / stride];
    room := entries[..];
    match reply
    case MapError =>
      written := None;
    case Map(raw, _) =>
      MoreBytesMoreDescriptors(|raw|, memoryMapSize, stride);
      var count := WriteEntries(Descriptors(raw, stride), table, kernelType, entries);
      written := Some(count);
      forall kind: nat | RunsFit(Retyped(Descriptors(raw, stride), table, kernelType), kind)
        ensures ShowsKind(entries[..count], Descriptors(raw, stride), table, kernelType, kind)
      {
        HandedOver(Descriptors(raw, stride), table, kernelType, kind);
      }
  }
}
