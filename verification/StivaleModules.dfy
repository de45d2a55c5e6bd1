/** The modules as the two stivale protocols hand them over: a linked list and an array. */
module StivaleModules {
  import opened Bytes
  import opened Modules

  /** sizeof the String field of a module record. */
  const STRING_ROOM: nat := 128

  /** What a kernel reads out of one record. */
  datatype Record = Record(begin: U64, end: U64, text: seq<Byte>)

  /** A tag that does not fit with its terminator is not copied at all, and the record was zeroed. */
  function TextOf(tag: seq<Byte>): seq<Byte> {
    if |tag| < STRING_ROOM then tag else []
  }

  function RecordOf(m: ModuleFile): Record
    requires m.loaded.Some?
  {
    var (start, size) := m.loaded.value;
    Record(start, (start + size) % TWO_64, TextOf(m.tag))
  }

  /** A record starts where the file was put, ends its size further on in 64 bits, and has the tag as its text when
      that fits the 128 bytes of the field with its terminator. */
  lemma RecordSays(m: ModuleFile)
    requires m.loaded.Some?
    ensures var r := RecordOf(m);
      && r.begin == m.loaded.value.0 && (r.end - r.begin) % TWO_64 == m.loaded.value.1
      && (|m.tag| + 1 <= 128 ==> r.text == m.tag) && (|m.tag| + 1 > 128 ==> r.text == [])
  {
    var (start, size) := m.loaded.value;
    if start + size >= TWO_64 {
      WholeTurns(size, -1);
    }
  }

  function Records(ms: seq<ModuleFile>): (rs: seq<Record>)
    requires AllLoaded(ms)
    ensures |rs| == |ms| && forall i :: 0 <= i < |ms| ==> rs[i] == RecordOf(ms[i])
  {
    seq(|ms|, i requires 0 <= i < |ms| => RecordOf(ms[i]))
  }

  // ---------- stivale ----------

  class StivaleModule {
    var record: Record
    var next: StivaleModule?

    constructor (record: Record)
      ensures this.record == record && next == null
    {
      this.record, next := record, null;
    }
  }

  class StivaleStruct {
    var modules: StivaleModule?
    var moduleCount: nat
    /** The list from modules on. */
    ghost var nodes: seq<StivaleModule>

    constructor ()
      ensures Listed() && nodes == [] && moduleCount == 0
    {
      modules, moduleCount, nodes := null, 0, [];
    }

    ghost predicate Listed()
      reads this, nodes
    {
      && modules == (if nodes == [] then null else nodes[0])
      && (forall i :: 0 <= i < |nodes| - 1 ==> nodes[i].next == nodes[i + 1])
      && (nodes != [] ==> nodes[|nodes| - 1].next == null)
      && forall i, j :: 0 <= i < j < |nodes| ==> nodes[i] != nodes[j]
    }

    /** Put the new module after the last one, or at the head. */
    method Link(lastModule: StivaleModule?, newModule: StivaleModule)
      requires Listed() && newModule !in nodes && newModule.next == null
      requires lastModule == if nodes == [] then null else nodes[|nodes| - 1]
      modifies this, nodes`next
      ensures Listed() && nodes == old(nodes) + [newModule] && moduleCount == old(moduleCount) + 1
    {
      if lastModule != null {
        lastModule.next := newModule;
      } else {
        modules := newModule;
      }
      nodes := nodes + [newModule];
      moduleCount := moduleCount + 1;
    }
  }

  /** What following the next pointers from a node on reads. */
  ghost predicate Reads(m: StivaleModule?, nodes: seq<StivaleModule>, rs: seq<Record>)
    reads nodes
    decreases |rs|
  {
    if rs == [] then m == null else
      && nodes != [] && m == nodes[0] && nodes[0].record == rs[0]
      && Reads(nodes[0].next, nodes[1..], rs[1..])
  }

  lemma {:induction false} ListReads(s: StivaleStruct, i: nat, rs: seq<Record>)
    requires s.Listed() && i <= |s.nodes| == |rs|
    requires forall j :: 0 <= j < |rs| ==> s.nodes[j].record == rs[j]
    ensures Reads(if i < |rs| then s.nodes[i] else null, s.nodes[i..], rs[i..])
    decreases |rs| - i
  {
    if i == |rs| {
    } else {
      ListReads(s, i + 1, rs);
      var nodes, rest := s.nodes[i..], rs[i..];
      assert nodes[1..] == s.nodes[i + 1..] && rest[1..] == rs[i + 1..];
      assert nodes[0] == s.nodes[i] && rest[0] == rs[i];
      assert s.nodes[i].next == if i + 1 < |rs| then s.nodes[i + 1] else null;
      assert Reads(nodes[0].next, nodes[1..], rest[1..]);
    }
  }

  /** The nodes hold the records of the modules, one each and in order. */
  ghost predicate Holds(nodes: seq<StivaleModule>, ms: seq<ModuleFile>)
    reads nodes
  {
    && |nodes| == |ms| && AllLoaded(ms)
    && forall j :: 0 <= j < |ms| ==> nodes[j].record == RecordOf(ms[j])
  }

  lemma HoldsOneMore(nodes: seq<StivaleModule>, ms: seq<ModuleFile>, i: nat, node: StivaleModule)
    requires i < |ms| && Holds(nodes, ms[..i]) && ms[i].loaded.Some? && node.record == RecordOf(ms[i])
    ensures Holds(nodes + [node], ms[..i + 1])
  {
    assert ms[..i + 1] == ms[..i] + [ms[i]];
  }

  lemma NothingHeld(nodes: seq<StivaleModule>, ms: seq<ModuleFile>)
    requires nodes == []
    ensures Holds(nodes, ms[..0])
  {
  }

  lemma NotLoaded(ms: seq<ModuleFile>, i: nat)
    requires i < |ms| && ms[i].loaded.None?
    ensures !AllLoaded(ms)
  {
    assert ms[i] in ms;
  }

  lemma ListHolds(s: StivaleStruct, ms: seq<ModuleFile>)
    requires s.Listed() && Holds(s.nodes, ms)
    ensures AllLoaded(ms) && Reads(s.modules, s.nodes, Records(ms))
  {
    hide Reads;
    ListReads(s, 0, Records(ms));
    assert s.nodes[0..] == s.nodes && Records(ms)[0..] == Records(ms);
  }

  /** The module loop of LoadStivaleKernel: a kernel that follows the list from the structure to its null end
      reads the modules in the order of the boot entry, and the count is theirs. */
  method PushModules(ms: seq<ModuleFile>) returns (ok: bool, s: StivaleStruct)
    ensures ok <==> AllLoaded(ms)
    ensures ok ==> s.Listed() && s.moduleCount == |ms| && Reads(s.modules, s.nodes, Records(ms))
  {
    hide Reads, RecordOf, AllLoaded;
    ok := false;
    s := new StivaleStruct();
    var lastModule: StivaleModule? := null;
    assert Holds(s.nodes, ms[..0]) by { NothingHeld(s.nodes, ms); }
    for i := 0 to |ms|
      invariant fresh(s) && fresh(s.nodes) && s.Listed() && |s.nodes| == s.moduleCount == i
      invariant Holds(s.nodes, ms[..i])
      invariant lastModule == if i == 0 then null else s.nodes[i - 1]
    {
      var m := ms[i];
      if m.loaded.None? {
        assert !AllLoaded(ms) by { NotLoaded(ms, i); }
        return;
      }
      var newModule := new StivaleModule(RecordOf(m));
      ghost var nodes := s.nodes;
      s.Link(lastModule, newModule);
      HoldsOneMore(nodes, ms, i, newModule);
      lastModule := newModule;
    }
    assert ms[..|ms|] == ms;
    ok := true;
    ListHolds(s, ms);
  }

  // ---------- stivale2 ----------

  /** The module loop of LoadStivale2Kernel: the same records, in an array made to the count. */
  method FillModules(ms: seq<ModuleFile>) returns (ok: bool, modules: array<Record>)
    ensures ok <==> AllLoaded(ms)
    ensures modules.Length == |ms|
    ensures ok ==> modules[..] == Records(ms)
  {
    ok := false;
    modules := new Record[|ms|];
    for i := 0 to |ms|
      invariant AllLoaded(ms[..i])
      invariant forall j :: 0 <= j < i ==> modules[j] == RecordOf(ms[j])
    {
      var m := ms[i];
      assert m in ms;
      if m.loaded.None? { return; }
      var (start, size) := m.loaded.value;
      modules[i] := Record(start, (start + size) % TWO_64, TextOf(m.tag));
    }
    assert ms[..|ms|] == ms;
    ok := true;
  }
}
