/** The tag stream of the Multiboot2 information structure (section 3.6.2 of the Multiboot2 Specification 2.0),
    as a reader walks it and as a writer lays it out. */
module TagStream {
  import opened Bytes

  const TAG_ALIGN: nat := 8
  const TAG_END: U32 := 0

  datatype Tag = Tag(ty: U32, payload: seq<Byte>)

  function TagSize(t: Tag): nat { 8 + |t.payload| }

  /** The bytes of a tag: type, size, payload. */
  function Encode(t: Tag): (bs: seq<Byte>)
    ensures |bs| == TagSize(t)
  {
    ToLE(t.ty, 4) + ToLE(TagSize(t) % TWO_32, 4) + t.payload
  }

  const END_TAG := Tag(TAG_END, [])

  // ---------- reading ----------

  /** The tag at the offset, when its size is at least 8 and it lies inside the buffer. */
  function TagAt(buf: seq<Byte>, off: nat): Option<Tag> {
    if off + 8 > |buf| then None else
    var size := U32At(buf, off + 4);
    if size < 8 || off + size > |buf| then None else Some(Tag(U32At(buf, off), buf[off + 8..off + size]))
  }

  /** The walk a kernel makes: step by the size rounded up to 8 until the end tag. */
  function Walk(buf: seq<Byte>, off: nat): Option<seq<Tag>>
    decreases |buf| - off
  {
    match TagAt(buf, off)
    case None => None
    case Some(t) =>
      if t.ty == TAG_END then Some([t]) else
      match Walk(buf, off + RoundUp(TagSize(t), 8))
      case None => None
      case Some(rest) => Some([t] + rest)
  }

  // ---------- writing ----------

  predicate Fits(t: Tag) { TagSize(t) < TWO_32 }

  /** The tag stands at the offset. */
  predicate Stands(buf: seq<Byte>, off: nat, t: Tag) {
    off + TagSize(t) <= |buf| && buf[off..off + TagSize(t)] == Encode(t)
  }

  /** The tags stand one after another from off on, each at the next multiple of 8, and leave off at end. */
  predicate Laid(buf: seq<Byte>, off: nat, tags: seq<Tag>, end: nat)
    decreases |tags|
  {
    if tags == [] then off == end else
      && Fits(tags[0]) && tags[0].ty != TAG_END && Stands(buf, off, tags[0])
      && Laid(buf, off + RoundUp(TagSize(tags[0]), TAG_ALIGN), tags[1..], end)
  }

  /** Where the tag after these would go. */
  function EndOf(off: nat, tags: seq<Tag>): (end: nat)
    ensures off <= end && (off % TAG_ALIGN == 0 ==> end % TAG_ALIGN == 0)
    decreases |tags|
  {
    if tags == [] then off else
      RoundUpIsLeast(TagSize(tags[0]), TAG_ALIGN);
      EndOf(off + RoundUp(TagSize(tags[0]), TAG_ALIGN), tags[1..])
  }

  lemma ReadsBack(buf: seq<Byte>, off: nat, t: Tag)
    requires Stands(buf, off, t)
    ensures Fits(t) ==> TagAt(buf, off) == Some(t)
  {
    hide Encode, ToLE;
    var n := TagSize(t);
    var bs := buf[off..off + n];
    SliceOfSlice(buf, off, off + n, 0, 4); SliceOfSlice(buf, off, off + n, 4, 8); SliceOfSlice(buf, off, off + n, 8, n);
    assert bs[8..] == bs[8..n];
    EncodedParts(t);
    FromToLE32(t.ty);
    FromToLE32(n % TWO_32);
  }

  lemma EncodedParts(t: Tag)
    ensures Encode(t)[0..4] == ToLE(t.ty, 4)
    ensures Encode(t)[4..8] == ToLE(TagSize(t) % TWO_32, 4)
    ensures Encode(t)[8..] == t.payload
  {
  }

  /** A tag of 4 GiB or more does not read back: its size field has lost the high bits. */
  lemma OversizedTagIsLost(buf: seq<Byte>, off: nat, t: Tag)
    requires Stands(buf, off, t)
    ensures TagAt(buf, off) == Some(t) <==> Fits(t)
  {
    ReadsBack(buf, off, t);
    EncodedParts(t);
    var n := TagSize(t);
    SliceOfSlice(buf, off, off + n, 4, 8);
    FromToLE32(n % TWO_32);
  }

  /** What is laid out before end does not depend on what comes after. */
  lemma {:induction false} LaidFrame(buf: seq<Byte>, buf': seq<Byte>, off: nat, tags: seq<Tag>, end: nat)
    requires Laid(buf, off, tags, end)
    requires end <= |buf| && end <= |buf'| && buf[..end] == buf'[..end]
    ensures Laid(buf', off, tags, end)
    decreases |tags|
  {
    hide RoundUp, Stands, Fits;
    if tags == [] {
    } else {
      var n := TagSize(tags[0]);
      RoundUpIsLeast(n, TAG_ALIGN);
      LaidFrame(buf, buf', off + RoundUp(n, TAG_ALIGN), tags[1..], end);
      LaidIsForward(buf, off + RoundUp(n, TAG_ALIGN), tags[1..], end);
      StandsFrame(buf, buf', off, tags[0], end);
    }
  }

  lemma StandsFrame(buf: seq<Byte>, buf': seq<Byte>, off: nat, t: Tag, end: nat)
    requires Stands(buf, off, t) && off + TagSize(t) <= end
    requires end <= |buf| && end <= |buf'| && buf[..end] == buf'[..end]
    ensures Stands(buf', off, t)
  {
    hide Encode;
    SliceOfSlice(buf, 0, end, off, off + TagSize(t)); SliceOfSlice(buf', 0, end, off, off + TagSize(t));
    assert buf[..end] == buf[0..end] && buf'[..end] == buf'[0..end];
  }

  lemma {:induction false} LaidIsForward(buf: seq<Byte>, off: nat, tags: seq<Tag>, end: nat)
    requires Laid(buf, off, tags, end)
    ensures off <= end && end == EndOf(off, tags)
    decreases |tags|
  {
    hide RoundUp, Stands, Fits;
    if tags == [] {
    } else {
      RoundUpIsLeast(TagSize(tags[0]), TAG_ALIGN);
      LaidIsForward(buf, off + RoundUp(TagSize(tags[0]), TAG_ALIGN), tags[1..], end);
    }
  }

  lemma {:induction false} LaidSnoc(buf: seq<Byte>, off: nat, tags: seq<Tag>, mid: nat, t: Tag)
    requires Laid(buf, off, tags, mid)
    requires Fits(t) && t.ty != TAG_END && Stands(buf, mid, t)
    ensures Laid(buf, off, tags + [t], mid + RoundUp(TagSize(t), TAG_ALIGN))
    decreases |tags|
  {
    hide RoundUp, Stands, Fits;
    if tags == [] {
      assert tags + [t] == [t] && [t][1..] == [];
    } else {
      LaidSnoc(buf, off + RoundUp(TagSize(tags[0]), TAG_ALIGN), tags[1..], mid, t);
      assert (tags + [t])[1..] == tags[1..] + [t];
    }
  }

  /** The round trip: a reader of a stream that was laid out and closed gets the tags back, in order, and the end tag. */
  lemma {:induction false} WalkReadsBack(buf: seq<Byte>, off: nat, tags: seq<Tag>, end: nat)
    requires Laid(buf, off, tags, end)
    requires Stands(buf, end, END_TAG)
    ensures Walk(buf, off) == Some(tags + [END_TAG])
    decreases |tags|
  {
    hide RoundUp, Stands, TagAt;
    if tags == [] {
      ReadsBack(buf, off, END_TAG);
      assert tags + [END_TAG] == [END_TAG];
    } else {
      ReadsBack(buf, off, tags[0]);
      WalkReadsBack(buf, off + RoundUp(TagSize(tags[0]), TAG_ALIGN), tags[1..], end);
      assert tags + [END_TAG] == [tags[0]] + (tags[1..] + [END_TAG]);
    }
  }
}
