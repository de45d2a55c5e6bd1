/** The buffer of Multiboot2 boot parameters, grown by reallocation and written through pointers into it. */
module BootParams {
  import opened Bytes
  import opened TagStream

  class Params {
    var buffer: array?<Byte>
    var size: nat
    /** The tags pushed so far, from offset 8 on. */
    ghost var tags: seq<Tag>

    ghost predicate Sized()
      reads this
    {
      if buffer == null then size == 0 else size == buffer.Length
    }

    /** The buffer holds its first eight bytes and then exactly the tags. */
    ghost predicate Valid()
      reads this, buffer
    {
      && buffer != null && size == buffer.Length
      && size % TAG_ALIGN == 0
      && Laid(buffer[..], 8, tags, size)
    }

    /** mBootParamsSize = 8 and a fresh eight-byte buffer, whatever was there before. */
    method Reset()
      modifies this
      ensures Valid() && fresh(buffer)
      ensures tags == []
    {
      size := 8;
      buffer := new Byte[8];
      tags := [];
    }

    /** PushBootParams: make room for n more bytes rounded up to 8, keeping what is there. New bytes hold
        the data, if any is given; the rest of them are whatever the allocation contains. */
    method PushBootParams(data: Option<seq<Byte>>, n: nat) returns (base: nat)
      requires Sized() && n <= TWO_64 - TAG_ALIGN
      requires data.Some? ==> |data.value| == n
      modifies this`buffer, this`size
      ensures buffer != null && fresh(buffer) && Sized()
      ensures base == old(size) && size == base + RoundUp(n, TAG_ALIGN)
      ensures old(buffer) != null ==> buffer[..base] == old(buffer[..])
      ensures base + n <= buffer.Length
      ensures data.Some? ==> buffer[base..base + n] == data.value
    {
      var allocationSize := AlignValue(n, TAG_ALIGN, TWO_64);
      AlignValueRoundsUp(n, TAG_ALIGN, TWO_64);
      RoundUpIsLeast(n, TAG_ALIGN);
      var grown := new Byte[size + allocationSize];
      if buffer != null {
        forall i | 0 <= i < size {
          grown[i] := buffer[i];
        }
        assert grown[..size] == buffer[..];
      }
      buffer := grown;
      if data.Some? {
        Poke(grown, size, data.value);
      }
      base := size;
      size := size + allocationSize;
    }

    /** Push room for a tag of the type with this many payload bytes and write all but the tail of them. */
    method PushTag(ty: U32, room: nat, written: seq<Byte>) returns (ghost t: Tag)
      requires Valid()
      requires ty != TAG_END && 8 + room < TWO_32 && |written| <= room
      modifies this
      ensures Valid() && fresh(buffer)
      ensures tags == old(tags) + [t]
      ensures t.ty == ty && |t.payload| == room && t.payload[..|written|] == written
    {
      hide Laid, Encode, Stands, RoundUp, ToLE;
      ghost var before := buffer[..];
      var n := 8 + room;
      var base := PushBootParams(None, n);
      RoundUpIsLeast(n, TAG_ALIGN);
      WriteTag(buffer, base, ty, room, written);
      t := Tag(ty, buffer[base + 8..base + n]);
      KeepAndAppend(before, buffer[..], tags, base, t);
      tags := tags + [t];
    }

    /** Push a tag the caller has already put together. */
    method PushStruct(t: Tag)
      requires Valid()
      requires t.ty != TAG_END && Fits(t)
      modifies this
      ensures Valid() && fresh(buffer)
      ensures tags == old(tags) + [t]
    {
      hide Laid, Encode, RoundUp;
      ghost var before := buffer[..];
      var n := 8 + |t.payload|;
      var base := PushBootParams(Some(Encode(t)), n);
      RoundUpIsLeast(n, TAG_ALIGN);
      KeepAndAppend(before, buffer[..], tags, base, t);
      tags := tags + [t];
    }
  }

  /** Write the bytes into the array from the offset on. */
  method Poke(a: array<Byte>, at: nat, bs: seq<Byte>)
    requires at + |bs| <= a.Length
    modifies a
    ensures a[at..at + |bs|] == bs
    ensures forall i :: 0 <= i < a.Length && (i < at || at + |bs| <= i) ==> a[i] == old(a[i])
  {
    forall i | 0 <= i < |bs| {
      a[at + i] := bs[i];
    }
  }

  /** Write the type and size of a tag and the first of its payload bytes, leaving the rest of the payload as it is. */
  method WriteTag(a: array<Byte>, at: nat, ty: U32, room: nat, written: seq<Byte>)
    requires at + 8 + room <= a.Length && 8 + room < TWO_32 && |written| <= room
    modifies a
    ensures a[..at] == old(a[..at])
    ensures Stands(a[..], at, Tag(ty, a[at + 8..at + 8 + room]))
    ensures a[at + 8..at + 8 + room][..|written|] == written
  {
    hide Encode, Stands, ToLE;
    var n := 8 + room;
    Poke(a, at, ToLE(ty, 4));
    Poke(a, at + 4, ToLE(n, 4));
    assert a[at..at + 4] == ToLE(ty, 4);
    ghost var header, size := a[at..at + 4], a[at + 4..at + 8];
    Poke(a, at + 8, written);
    assert a[at..at + 4] == header && a[at + 4..at + 8] == size;
    HeaderMakesTag(a[..], at, Tag(ty, a[at + 8..at + n]));
  }

  lemma HeaderMakesTag(buf: seq<Byte>, base: nat, t: Tag)
    requires base + TagSize(t) <= |buf| && Fits(t)
    requires buf[base..base + 4] == ToLE(t.ty, 4) && buf[base + 4..base + 8] == ToLE(TagSize(t), 4)
    requires buf[base + 8..base + TagSize(t)] == t.payload
    ensures Stands(buf, base, t)
  {
    hide ToLE;
    var n := TagSize(t);
    JoinSlices(buf, base, base + 4, base + 8);
    JoinSlices(buf, base, base + 8, base + n);
  }

  lemma JoinSlices(buf: seq<Byte>, i: nat, j: nat, k: nat)
    requires i <= j <= k <= |buf|
    ensures buf[i..k] == buf[i..j] + buf[j..k]
  {
  }

  lemma KeepAndAppend(before: seq<Byte>, after: seq<Byte>, tags: seq<Tag>, base: nat, t: Tag)
    requires Laid(before, 8, tags, base) && base == |before| <= |after| && after[..base] == before
    requires Fits(t) && t.ty != TAG_END && Stands(after, base, t)
    ensures Laid(after, 8, tags + [t], base + RoundUp(TagSize(t), TAG_ALIGN))
  {
    assert before[..base] == before;
    LaidFrame(before, after, 8, tags, base);
    LaidSnoc(after, 8, tags, base, t);
  }
}
