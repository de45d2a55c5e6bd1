/** Device paths as raw bytes and as lists of nodes (section 10.3 of the UEFI 2.8 specification), and the partition
    a boot:// URI names. */
module DevicePath {
  import opened Bytes
  import opened Layout

  const END_TYPE: Byte := 0x7F
  const MEDIA_TYPE: Byte := 4
  const HARDDRIVE_SUBTYPE: Byte := 1
  const END_NODE: seq<Byte> := [0x7F, 0xFF, 4, 0]

  type Node = seq<Byte>

  function NodeLength(dp: seq<Byte>, off: nat): U16
    requires off + 4 <= |dp|
  {
    U16At(dp, off + 2)
  }

  predicate IsEnd(dp: seq<Byte>, off: nat)
    requires off + 4 <= |dp|
  {
    dp[off] == END_TYPE
  }

  /** The nodes from the offset to the end node, when every node is at least a header long and inside the bytes. */
  function Nodes(dp: seq<Byte>, off: nat): Option<seq<Node>>
    decreases |dp| - off
  {
    if off + 4 > |dp| then None
    else if IsEnd(dp, off) then (if NodeLength(dp, off) == 4 then Some([]) else None)
    else
      var n := NodeLength(dp, off);
      if n < 4 || off + n > |dp| then None else
      match Nodes(dp, off + n)
      case None => None
      case Some(rest) => Some([dp[off..off + n]] + rest)
  }

  predicate WellFormed(dp: seq<Byte>) { Nodes(dp, 0).Some? }

  function NodesOf(dp: seq<Byte>): seq<Node>
    requires WellFormed(dp)
  {
    Nodes(dp, 0).value
  }

  // ---------- nodes laid end to end ----------

  predicate IsNode(n: Node) {
    4 <= |n| < 0x1_0000 && U16At(n, 2) == |n| && n[0] != END_TYPE
  }

  function Flat(ns: seq<Node>): seq<Byte> {
    if ns == [] then [] else ns[0] + Flat(ns[1..])
  }

  lemma NodesStep(dp: seq<Byte>, off: nat)
    requires Nodes(dp, off).Some?
    ensures off + 4 <= |dp|
    ensures IsEnd(dp, off) ==> Nodes(dp, off).value == [] && NodeLength(dp, off) == 4
    ensures !IsEnd(dp, off) ==>
      var n := NodeLength(dp, off);
      && 4 <= n && off + n <= |dp| && Nodes(dp, off + n).Some?
      && Nodes(dp, off).value == [dp[off..off + n]] + Nodes(dp, off + n).value
  {
  }

  lemma {:induction false} NodesAreNodes(dp: seq<Byte>, off: nat)
    requires Nodes(dp, off).Some?
    ensures forall n :: n in Nodes(dp, off).value ==> IsNode(n)
    ensures off + |Flat(Nodes(dp, off).value)| + 4 <= |dp|
    ensures dp[off..off + |Flat(Nodes(dp, off).value)|] == Flat(Nodes(dp, off).value)
    decreases |dp| - off
  {
    NodesStep(dp, off);
    if IsEnd(dp, off) {
    } else {
      var n := NodeLength(dp, off);
      NodesAreNodes(dp, off + n);
      var node, rest := dp[off..off + n], Nodes(dp, off + n).value;
      SliceOfSlice(dp, off, off + n, 2, 4);
      assert ([node] + rest)[1..] == rest;
      assert dp[off..off + n + |Flat(rest)|] == node + dp[off + n..off + n + |Flat(rest)|];
    }
  }

  /** Nodes laid end to end and closed with an end node read back as those nodes. */
  lemma {:induction false} FlatReadsBack(dp: seq<Byte>, off: nat, ns: seq<Node>)
    requires forall n :: n in ns ==> IsNode(n)
    requires off <= |dp| && dp[off..] == Flat(ns) + END_NODE
    ensures Nodes(dp, off) == Some(ns)
    decreases |ns|
  {
    if ns == [] {
      assert dp[off..] == END_NODE;
      EndNodeEnds(dp, off);
    } else {
      hide IsNode, Nodes;
      var node, k := ns[0], |ns[0]|;
      var rest := Flat(ns[1..]) + END_NODE;
      assert IsNode(node);
      assert dp[off..] == node + rest;
      NodeThenRest(dp, off, node, rest);
      FlatReadsBack(dp, off + k, ns[1..]);
      assert [node] + ns[1..] == ns;
    }
  }

  lemma EndNodeEnds(dp: seq<Byte>, off: nat)
    requires off <= |dp| && dp[off..] == END_NODE
    ensures Nodes(dp, off) == Some([])
  {
    assert |dp| == off + 4 && dp[off] == dp[off..][0];
    assert dp[off + 2..off + 4] == dp[off..][2..4] == [4, 0];
    assert FromLE([4, 0]) == 4 + 256 * FromLE([0]) by { assert [4, 0][1..] == [0]; }
    assert FromLE([0]) == 0 + 256 * FromLE([]) by { assert [0][1..] == []; }
  }

  lemma NodeThenRest(dp: seq<Byte>, off: nat, node: Node, rest: seq<Byte>)
    requires IsNode(node) && off <= |dp| && dp[off..] == node + rest
    ensures off + |node| <= |dp| && dp[off + |node|..] == rest
    ensures Nodes(dp, off + |node|).Some? ==> Nodes(dp, off) == Some([node] + Nodes(dp, off + |node|).value)
  {
    var k := |node|;
    assert |dp| - off == k + |rest|;
    assert dp[off..off + k] == dp[off..][..k] == node;
    assert dp[off + k..] == dp[off..][k..] == rest;
    SliceOfSlice(dp, off, off + k, 2, 4);
    assert dp[off] == dp[off..off + k][0];
    assert NodeLength(dp, off) == U16At(node, 2) == k;
  }

  lemma {:induction false} FlatSnoc(ns: seq<Node>, n: Node)
    ensures Flat(ns + [n]) == Flat(ns) + n
  {
    if ns == [] {
      assert ns + [n] == [n] && [n][1..] == [];
    } else {
      assert (ns + [n])[1..] == ns[1..] + [n];
      FlatSnoc(ns[1..], n);
    }
  }

  // ---------- the three walks ----------

  /** InsideDevicePath: whether the path one is where the path all begins. */
  method InsideDevicePath(all: seq<Byte>, one: seq<Byte>) returns (inside: bool)
    requires WellFormed(all) && WellFormed(one)
    ensures inside <==> NodesOf(one) <= NodesOf(all)
  {
    hide Nodes, NodeLength;
    var p: nat, a: nat := 0, 0;
    ghost var restOne, restAll := NodesOf(one), NodesOf(all);
    NodesStep(one, p);
    NodesStep(all, a);
    while NodeLength(one, p) == NodeLength(all, a) && !IsEnd(one, p)
          && one[p..p + NodeLength(one, p)] == all[a..a + NodeLength(all, a)]
      invariant p + 4 <= |one| && a + 4 <= |all|
      invariant Nodes(one, p) == Some(restOne) && Nodes(all, a) == Some(restAll)
      invariant !IsEnd(one, p) ==> p + NodeLength(one, p) <= |one|
      invariant a + NodeLength(all, a) <= |all|
      invariant NodesOf(one) <= NodesOf(all) <==> restOne <= restAll
      decreases |one| - p
    {
      NodesStep(one, p);
      NodesStep(all, a);
      var n := NodeLength(one, p);
      assert one[p] == one[p..p + n][0] == all[a..a + n][0] == all[a];
      restOne, restAll := restOne[1..], restAll[1..];
      p, a := p + n, a + n;
      NodesStep(one, p);
      NodesStep(all, a);
    }
    NodesStep(one, p);
    NodesStep(all, a);
    inside := IsEnd(one, p);
    if !inside {
      assert restOne[0] == one[p..p + NodeLength(one, p)];
      if !IsEnd(all, a) {
        assert restAll[0] == all[a..a + NodeLength(all, a)] != restOne[0];
      }
    }
  }

  /** LastDevicePathNode: where the last node is, if there is any. */
  method LastDevicePathNode(dp: seq<Byte>) returns (last: Option<nat>)
    requires WellFormed(dp)
    ensures last.None? <==> NodesOf(dp) == []
    ensures last.Some? ==> var ns := NodesOf(dp);
      && last.value == |Flat(ns[..|ns| - 1])|
      && last.value + |ns[|ns| - 1]| <= |dp| && dp[last.value..last.value + |ns[|ns| - 1]|] == ns[|ns| - 1]
  {
    hide Nodes, NodeLength, Flat;
    last := None;
    var off: nat := 0;
    ghost var ns := NodesOf(dp);
    ghost var i := 0;
    NodesStep(dp, off);
    FlatNone();
    while !IsEnd(dp, off)
      invariant off + 4 <= |dp| && 0 <= i <= |ns|
      invariant Nodes(dp, off) == Some(ns[i..])
      invariant off == |Flat(ns[..i])|
      invariant last.None? <==> i == 0
      invariant i > 0 ==> last.value == |Flat(ns[..i - 1])| && last.value + |ns[i - 1]| == off
      invariant i > 0 ==> dp[last.value..off] == ns[i - 1]
      decreases |dp| - off
    {
      NodesStep(dp, off);
      var n := NodeLength(dp, off);
      assert ns[i] == ns[i..][0] == dp[off..off + n];
      FlatSnoc(ns[..i], ns[i]);
      assert ns[..i + 1] == ns[..i] + [ns[i]];
      ghost var rest := Nodes(dp, off + n).value;
      assert ns[i + 1..] == ns[i..][1..] == ([ns[i]] + rest)[1..] == rest;
      last := Some(off);
      off := off + n;
      i := i + 1;
      NodesStep(dp, off);
    }
    NodesStep(dp, off);
  }

  lemma FlatNone()
    ensures |Flat([])| == 0
  {
  }

  /** RemoveLastDevicePathNode on a path that has a node: a fresh path of all the nodes but the last. */
  method RemoveLastDevicePathNode(dp: seq<Byte>) returns (shorter: array<Byte>)
    requires WellFormed(dp) && NodesOf(dp) != []
    ensures fresh(shorter)
    ensures Nodes(shorter[..], 0) == Some(NodesOf(dp)[..|NodesOf(dp)| - 1])
  {
    hide Nodes;
    ghost var ns := NodesOf(dp);
    var last := LastDevicePathNode(dp);
    var len := last.value;
    shorter := new Byte[len + 4];
    forall i | 0 <= i < len {
      shorter[i] := dp[i];
    }
    forall i | 0 <= i < 4 {
      shorter[len + i] := END_NODE[i];
    }
    ghost var kept := ns[..|ns| - 1];
    NodesAreNodes(dp, 0);
    assert ns == kept + [ns[|ns| - 1]];
    FlatSnoc(kept, ns[|ns| - 1]);
    assert dp[..len] == dp[0..|Flat(ns)|][..len] == Flat(kept);
    assert shorter[..] == Flat(kept) + END_NODE;
    assert shorter[..][0..] == shorter[..];
    FlatReadsBack(shorter[..], 0, kept);
  }

  // ---------- choosing a partition ----------

  predicate IsHardDrive(n: Node)
    requires |n| >= 4
  {
    n[0] == MEDIA_TYPE && n[1] == HARDDRIVE_SUBTYPE
  }

  /** A device path a file system can have: some node, and a partition number in its hard-drive nodes. */
  predicate IsDevice(dp: seq<Byte>) {
    && WellFormed(dp) && NodesOf(dp) != []
    && var n := NodesOf(dp)[|NodesOf(dp)| - 1];
       |n| >= 4 && (IsHardDrive(n) ==> |n| >= 8)
  }

  /** On the drive, with a hard-drive node of that number last. */
  predicate IsPartition(dp: seq<Byte>, drive: seq<Node>, number: U64)
    requires IsDevice(dp)
  {
    var n := NodesOf(dp)[|NodesOf(dp)| - 1];
    drive <= NodesOf(dp) && IsHardDrive(n) && U32At(n, 4) == number
  }

  /** HARDDRIVE_DEVICE_PATH as it is declared, up to the 18 bytes of its signature and its two kinds. */
  function HardDriveFields(ty: Byte, subtype: Byte, number: U32, start: U64, size: U64): seq<Field> {
    [Field(ty, 1), Field(subtype, 1), Field(42, 2), Field(number, 4), Field(start, 8), Field(size, 8)]
  }

  /** Such a node is a node, and behind the nodes of a drive it is the partition with the wanted number exactly when
      its type is media (4), its subtype hard drive (1), and its number the wanted one. */
  lemma PartitionNodeReads(drive: seq<Node>, ty: Byte, subtype: Byte, number: U32, start: U64, size: U64,
                           signature: seq<Byte>, wanted: U64)
    requires ty != 0x7F && |signature| == 18 && forall n :: n in drive ==> IsNode(n)
    ensures var n := Packed(HardDriveFields(ty, subtype, number, start, size)) + signature;
      var dp := Flat(drive + [n]) + [0x7F, 0xFF, 4, 0];
      && IsNode(n) && WellFormed(dp) && NodesOf(dp) == drive + [n] && IsDevice(dp)
      && (IsPartition(dp, drive, wanted) <==> ty == 4 && subtype == 1 && number == wanted)
  {
    hide Packed, Nodes, Flat, U16At, U32At;
    var n := Packed(HardDriveFields(ty, subtype, number, start, size)) + signature;
    var dp := Flat(drive + [n]) + END_NODE;
    HardDriveNode(ty, subtype, number, start, size, signature);
    assert dp[0..] == dp;
    FlatReadsBack(dp, 0, drive + [n]);
  }

  lemma HardDriveNode(ty: Byte, subtype: Byte, number: U32, start: U64, size: U64, signature: seq<Byte>)
    requires |signature| == 18
    ensures var n := Packed(HardDriveFields(ty, subtype, number, start, size)) + signature;
      |n| == 42 && n[0] == ty && n[1] == subtype && U16At(n, 2) == 42 && U32At(n, 4) == number
  {
    hide Packed, Offset, Word;
    var fs := HardDriveFields(ty, subtype, number, start, size);
    var n := [] + Packed(fs) + signature;
    HardDriveOffsets(fs);
    PowersOf256();
    FieldsRead([], fs, signature);
    assert Reads(n, 0 + Offset(fs, 0), fs[0]) && Reads(n, 0 + Offset(fs, 1), fs[1])
        && Reads(n, 0 + Offset(fs, 2), fs[2]) && Reads(n, 0 + Offset(fs, 3), fs[3]);
    OneByteWord(n, 0);
    OneByteWord(n, 1);
    assert n == Packed(fs) + signature;
  }

  lemma OneByteWord(bs: seq<Byte>, at: nat)
    requires at < |bs|
    ensures Word(bs, at, 1) == bs[at]
  {
    var b := bs[at..at + 1];
    assert b == [bs[at]] && b[1..] == [];
    assert FromLE(b) == b[0] + 256 * FromLE(b[1..]);
  }

  lemma HardDriveOffsets(fs: seq<Field>)
    requires |fs| == 6 && fs[0].width == 1 == fs[1].width && fs[2].width == 2 && fs[3].width == 4
    requires fs[4].width == 8 == fs[5].width
    ensures Offset(fs, 0) == 0 && Offset(fs, 1) == 1 && Offset(fs, 2) == 2 && Offset(fs, 3) == 4 && Offset(fs, 6) == 24
  {
    assert Offset(fs, 1) == 1;
    assert Offset(fs, 2) == 2;
    assert Offset(fs, 3) == 4;
    assert Offset(fs, 4) == 8;
    assert Offset(fs, 5) == 16;
  }

  /** What HandleProtocol gives for each file-system handle: its device path, or an error. */
  type Handles = seq<Option<seq<Byte>>>

  datatype Choice = Chosen(index: nat) | NoSuchPartition | HandleError(index: nat)

  /** The search of ParseUri for boot://N/, from the device path of the partition the loader came from. */
  method ChooseBootPartition(bootPath: seq<Byte>, handles: Handles, number: U64) returns (c: Choice)
    requires WellFormed(bootPath) && NodesOf(bootPath) != []
    requires forall h :: h in handles && h.Some? ==> IsDevice(h.value)
    ensures var drive := NodesOf(bootPath)[..|NodesOf(bootPath)| - 1];
      match c
      case Chosen(i) => i < |handles| && handles[i].Some? && IsPartition(handles[i].value, drive, number)
        && forall j :: 0 <= j < i ==> handles[j].Some? && !IsPartition(handles[j].value, drive, number)
      case HandleError(i) => i < |handles| && handles[i].None?
        && forall j :: 0 <= j < i ==> handles[j].Some? && !IsPartition(handles[j].value, drive, number)
      case NoSuchPartition =>
        forall j :: 0 <= j < |handles| ==> handles[j].Some? && !IsPartition(handles[j].value, drive, number)
  {
    hide Nodes, U32At, Flat;
    ghost var drive := NodesOf(bootPath)[..|NodesOf(bootPath)| - 1];
    var shorter := RemoveLastDevicePathNode(bootPath);
    var drivePath := shorter[..];
    for i := 0 to |handles|
      invariant Nodes(drivePath, 0) == Some(drive)
      invariant forall j :: 0 <= j < i ==> handles[j].Some? && !IsPartition(handles[j].value, drive, number)
    {
      assert handles[i] in handles;
      if handles[i].None? { return HandleError(i); }
      var dp := handles[i].value;
      var inside := InsideDevicePath(dp, drivePath);
      if inside {
        var last := LastDevicePathNode(dp);
        ghost var n := NodesOf(dp)[|NodesOf(dp)| - 1];
        var at := last.value;
        assert dp[at] == n[0] && dp[at + 1] == n[1] by { assert dp[at..at + |n|] == n; }
        if dp[at] == MEDIA_TYPE && dp[at + 1] == HARDDRIVE_SUBTYPE {
          SameU32(dp, at, n);
          if U32At(dp, at + 4) == number { return Chosen(i); }
        }
      }
    }
    c := NoSuchPartition;
  }

  lemma SameU32(dp: seq<Byte>, at: nat, n: Node)
    requires |n| >= 8 && at + |n| <= |dp| && dp[at..at + |n|] == n
    ensures U32At(dp, at + 4) == U32At(n, 4)
  {
    SliceOfSlice(dp, at, at + |n|, 4, 8);
  }
}
