/** Packed little-endian structures: fields in the order of their declaration, one right behind the other. */
module Layout {
  import opened Bytes

  datatype Field = Field(value: nat, width: nat)

  predicate Holds(f: Field) { f.value < Pow256(f.width) }

  /** Where the k-th field starts. */
  function Offset(fs: seq<Field>, k: nat): nat
    requires k <= |fs|
  {
    if k == 0 then 0 else Offset(fs, k - 1) + fs[k - 1].width
  }

  function PackedTo(fs: seq<Field>, k: nat): (bs: seq<Byte>)
    requires k <= |fs|
    ensures |bs| == Offset(fs, k)
  {
    if k == 0 then [] else PackedTo(fs, k - 1) + ToLE(fs[k - 1].value, fs[k - 1].width)
  }

  /** The bytes of the structure. */
  function Packed(fs: seq<Field>): (bs: seq<Byte>)
    ensures |bs| == Offset(fs, |fs|)
  {
    PackedTo(fs, |fs|)
  }

  predicate Reads(bs: seq<Byte>, at: nat, f: Field) {
    at + f.width <= |bs| && Word(bs, at, f.width) == f.value
  }

  lemma {:induction false} PackedGrows(fs: seq<Field>, j: nat, k: nat)
    requires j <= k <= |fs|
    ensures PackedTo(fs, j) <= PackedTo(fs, k)
    decreases k - j
  {
    if j == k {
    } else {
      PackedGrows(fs, j, k - 1);
    }
  }

  lemma FieldReads(pre: seq<Byte>, fs: seq<Field>, post: seq<Byte>, k: nat)
    requires k < |fs| && Holds(fs[k])
    ensures Reads(pre + Packed(fs) + post, |pre| + Offset(fs, k), fs[k])
  {
    hide ToLE, FromLE;
    var f, whole, at := fs[k], Packed(fs), Offset(fs, k);
    PackedGrows(fs, k + 1, |fs|);
    FromToLE(f.value, f.width);
    assert PackedTo(fs, k + 1)[at..at + f.width] == ToLE(f.value, f.width);
    assert whole[at..at + f.width] == PackedTo(fs, k + 1)[at..at + f.width];
    assert (pre + whole + post)[|pre| + at..|pre| + at + f.width] == whole[at..at + f.width];
  }

  /** Every field reads back at its offset, whatever is before and behind the structure. */
  lemma FieldsRead(pre: seq<Byte>, fs: seq<Field>, post: seq<Byte>)
    requires forall k :: 0 <= k < |fs| ==> Holds(fs[k])
    ensures forall k :: 0 <= k < |fs| ==> Reads(pre + Packed(fs) + post, |pre| + Offset(fs, k), fs[k])
  {
    hide Packed, Reads, Holds;
    forall k | 0 <= k < |fs|
      ensures Reads(pre + Packed(fs) + post, |pre| + Offset(fs, k), fs[k])
    {
      FieldReads(pre, fs, post, k);
    }
  }
}
