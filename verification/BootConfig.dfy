/** The boot configuration file: what its lines mean, and the line loop that builds the entries. */
module BootConfig {
  import opened Bytes

  datatype Protocol = Invalid | Linux | Mb2 | Stivale | Stivale2

  /** What a line asks for. Lines of no interest, and all lines before the first entry, build nothing. */
  datatype Key =
    | Entry(name: string)
    | Path(uri: string)
    | Cmdline(text: string)
    | Proto(text: string)
    | ModulePath(uri: string)
    | ModuleString(text: string)
    | Other

  /** CHECK_OPTION: the line starts with the key and an equals sign. */
  predicate HasKey(line: string, key: string) {
    key + "=" <= line
  }

  /** What follows the first equals sign. */
  function Value(line: string): string {
    if line == [] then [] else if line[0] == '=' then line[1..] else Value(line[1..])
  }

  function Classify(line: string): Key {
    if line != [] && line[0] == ':' then Entry(line[1..])
    else if HasKey(line, "PATH") || HasKey(line, "KERNEL_PATH") then Path(Value(line))
    else if HasKey(line, "CMDLINE") || HasKey(line, "KERNEL_CMDLINE") then Cmdline(Value(line))
    else if HasKey(line, "PROTOCOL") || HasKey(line, "KERNEL_PROTO") || HasKey(line, "KERNEL_PROTOCOL") then Proto(Value(line))
    else if HasKey(line, "MODULE_PATH") then ModulePath(Value(line))
    else if HasKey(line, "MODULE_STRING") then ModuleString(Value(line))
    else Other
  }

  function ProtocolNamed(s: string): Option<Protocol> {
    if s == "linux" then Some(Linux)
    else if s == "mb2" then Some(Mb2)
    else if s == "stivale" then Some(Stivale)
    else if s == "stivale2" then Some(Stivale2)
    else None
  }

  predicate TakesStrings(p: Protocol) { p == Mb2 || p == Stivale || p == Stivale2 }

  /** What ParseUri makes of a URI: a path and perhaps another file system, or an error. */
  datatype Location = Location(fs: Option<nat>, path: string)

  type Resolver = string -> Option<Location>

  // ---------- the meaning of a file ----------

  datatype ModuleValue = ModuleValue(fs: nat, path: string, tag: string)

  datatype EntryValue = EntryValue(name: string, protocol: Protocol, fs: nat, path: Option<string>, cmdline: string,
                                   modules: seq<ModuleValue>)

  /** An entry line and the lines up to the next one. */
  datatype Block = Block(name: string, body: seq<Key>)

  function Last<T>(s: seq<T>): T
    requires s != []
  {
    s[|s| - 1]
  }

  function Init<T>(s: seq<T>): seq<T>
    requires s != []
  {
    s[..|s| - 1]
  }

  function Blocks(keys: seq<Key>): seq<Block> {
    if keys == [] then [] else
      var bs, k := Blocks(Init(keys)), Last(keys);
      if k.Entry? then bs + [Block(k.name, [])]
      else if bs == [] then []
      else Init(bs) + [Block(Last(bs).name, Last(bs).body + [k])]
  }

  function Paths(body: seq<Key>): seq<string> {
    if body == [] then [] else Paths(Init(body)) + if Last(body).ModulePath? then [Last(body).uri] else []
  }

  function Strings(body: seq<Key>): seq<string> {
    if body == [] then [] else Strings(Init(body)) + if Last(body).ModuleString? then [Last(body).text] else []
  }

  /** The last protocol line decides. */
  function ProtocolOf(body: seq<Key>): Protocol {
    if body == [] then Invalid
    else if Last(body).Proto? && ProtocolNamed(Last(body).text).Some? then ProtocolNamed(Last(body).text).value
    else ProtocolOf(Init(body))
  }

  function CmdlineOf(body: seq<Key>): string {
    if body == [] then "" else if Last(body).Cmdline? then Last(body).text else CmdlineOf(Init(body))
  }

  function PathOf(body: seq<Key>, resolve: Resolver): Option<string> {
    if body == [] then None
    else if Last(body).Path? && resolve(Last(body).uri).Some? then Some(resolve(Last(body).uri).value.path)
    else PathOf(Init(body), resolve)
  }

  /** A URI that names no file system leaves the one the entry had. */
  function FsOf(body: seq<Key>, fs: nat, resolve: Resolver): nat {
    if body == [] then fs else
      var before := FsOf(Init(body), fs, resolve);
      if Last(body).Path? && resolve(Last(body).uri).Some? then FsIn(resolve(Last(body).uri).value, before) else before
  }

  function FsIn(l: Location, default: nat): nat {
    if l.fs.Some? then l.fs.value else default
  }

  /** The k-th module path of the block with the k-th module string, if there are that many. */
  function ModuleOf(body: seq<Key>, fs: nat, resolve: Resolver, k: nat): ModuleValue
    requires k < |Paths(body)|
  {
    var l := if resolve(Paths(body)[k]).Some? then resolve(Paths(body)[k]).value else Location(None, "");
    ModuleValue(FsIn(l, fs), l.path, if k < |Strings(body)| then Strings(body)[k] else "")
  }

  function Meaning(b: Block, fs: nat, resolve: Resolver): (v: EntryValue)
    ensures |v.modules| == |Paths(b.body)|
  {
    EntryValue(b.name, ProtocolOf(b.body), FsOf(b.body, fs, resolve), PathOf(b.body, resolve), CmdlineOf(b.body),
      seq(|Paths(b.body)|, k requires 0 <= k < |Paths(b.body)| => ModuleOf(b.body, fs, resolve, k)))
  }

  /** Whether an entry accepts one more line after those of its body. */
  predicate Fits(body: seq<Key>, k: Key, resolve: Resolver) {
    && (k.Path? ==> resolve(k.uri).Some?)
    && (k.ModulePath? ==> resolve(k.uri).Some?)
    && (k.Proto? ==> ProtocolNamed(k.text).Some?)
    && (k.ModuleString? ==> TakesStrings(ProtocolOf(body)) && |Strings(body)| < |Paths(body)|)
  }

  /** Whether the loop accepts one more line after those before it. */
  predicate Admissible(before: seq<Key>, k: Key, resolve: Resolver) {
    Blocks(before) != [] ==> Fits(Last(Blocks(before)).body, k, resolve)
  }

  /** A line of 255 characters or more does not fit the line buffer; any other read can fail too. */
  const LINE_BUFFER: nat := 255

  predicate Readable(line: Option<string>) {
    line.Some? && |line.value| < LINE_BUFFER
  }

  function KeyOf(line: Option<string>): Key {
    if line.Some? then Classify(line.value) else Other
  }

  function Keys(lines: seq<Option<string>>): (ks: seq<Key>)
    ensures |ks| == |lines|
    ensures forall i :: 0 <= i < |lines| ==> ks[i] == KeyOf(lines[i])
  {
    seq(|lines|, i requires 0 <= i < |lines| => KeyOf(lines[i]))
  }

  predicate Accepted(lines: seq<Option<string>>, resolve: Resolver) {
    forall i :: 0 <= i < |lines| ==> Readable(lines[i]) && Admissible(Keys(lines)[..i], Keys(lines)[i], resolve)
  }

  // ---------- the objects ----------

  class BootModule {
    var fs: nat
    var path: string
    var tag: string
    var next: BootModule?

    constructor (fs: nat, path: string)
      ensures this.fs == fs && this.path == path && tag == "" && next == null
    {
      this.fs, this.path, tag, next := fs, path, "", null;
    }
  }

  class BootEntry {
    var name: string
    var protocol: Protocol
    var fs: nat
    var path: Option<string>
    var cmdline: string
    var first: BootModule?
    var last: BootModule?
    /** The modules from first to last. */
    ghost var modules: seq<BootModule>

    constructor (name: string, fs: nat)
      ensures this.name == name && protocol == Invalid && this.fs == fs && path == None && cmdline == ""
      ensures modules == [] && Linked()
    {
      this.name, protocol, this.fs, path, cmdline := name, Invalid, fs, None, "";
      first, last, modules := null, null, [];
    }

    ghost predicate Linked()
      reads this, modules
    {
      && (modules == [] ==> first == null && last == null)
      && (modules != [] ==> first == modules[0] && last == Last(modules) && Last(modules).next == null)
      && (forall k :: 0 <= k < |modules| - 1 ==> modules[k].next == modules[k + 1])
      && forall j, k :: 0 <= j < k < |modules| ==> modules[j] != modules[k]
    }

    /** InsertTailList. */
    method InsertTail(m: BootModule)
      requires Linked() && m !in modules && m.next == null
      modifies this`first, this`last, this`modules, modules`next
      ensures modules == old(modules) + [m] && Linked()
    {
      if last == null {
        first := m;
      } else {
        last.next := m;
      }
      last := m;
      modules := modules + [m];
    }
  }

  /** The object holds what the value says. */
  ghost predicate Shows(e: BootEntry, v: EntryValue)
    reads e, e.modules
  {
    && e.Linked()
    && e.name == v.name && e.protocol == v.protocol && e.fs == v.fs && e.path == v.path && e.cmdline == v.cmdline
    && |e.modules| == |v.modules|
    && forall k :: 0 <= k < |v.modules| ==>
      && e.modules[k].fs == v.modules[k].fs
      && e.modules[k].path == v.modules[k].path
      && e.modules[k].tag == v.modules[k].tag
  }

  // ---------- one more line in a block ----------

  lemma SnocParts(body: seq<Key>, k: Key)
    ensures Init(body + [k]) == body && Last(body + [k]) == k
    ensures Paths(body + [k]) == Paths(body) + if k.ModulePath? then [k.uri] else []
    ensures Strings(body + [k]) == Strings(body) + if k.ModuleString? then [k.text] else []
  {
    assert Init(body + [k]) == body;
  }

  /** What one more line does to the meaning of a block. */
  lemma MeaningSnoc(name: string, body: seq<Key>, k: Key, fs: nat, resolve: Resolver)
    requires |Strings(body)| <= |Paths(body)| && Fits(body, k, resolve)
    ensures var v, v' := Meaning(Block(name, body), fs, resolve), Meaning(Block(name, body + [k]), fs, resolve);
      v' == v.(
        protocol := if k.Proto? then ProtocolNamed(k.text).value else v.protocol,
        fs := if k.Path? then FsIn(resolve(k.uri).value, v.fs) else v.fs,
        path := if k.Path? then Some(resolve(k.uri).value.path) else v.path,
        cmdline := if k.Cmdline? then k.text else v.cmdline,
        modules := if k.ModulePath? then v.modules + [ModuleValue(FsIn(resolve(k.uri).value, fs), resolve(k.uri).value.path, "")]
                   else if k.ModuleString? then v.modules[|Strings(body)| := v.modules[|Strings(body)|].(tag := k.text)]
                   else v.modules)
  {
    hide Fits;
    assert k.Path? ==> resolve(k.uri).Some? by { FitsMeans(body, k, resolve); }
    assert k.ModulePath? ==> resolve(k.uri).Some? by { FitsMeans(body, k, resolve); }
    assert k.Proto? ==> ProtocolNamed(k.text).Some? by { FitsMeans(body, k, resolve); }
    SnocParts(body, k);
    ModulesSnoc(name, body, k, fs, resolve);
  }

  lemma FitsMeans(body: seq<Key>, k: Key, resolve: Resolver)
    requires Fits(body, k, resolve)
    ensures k.Path? ==> resolve(k.uri).Some?
    ensures k.ModulePath? ==> resolve(k.uri).Some?
    ensures k.Proto? ==> ProtocolNamed(k.text).Some?
    ensures k.ModuleString? ==> |Strings(body)| < |Paths(body)|
  {
  }

  lemma ModulesSnoc(name: string, body: seq<Key>, k: Key, fs: nat, resolve: Resolver)
    requires |Strings(body)| <= |Paths(body)| && Fits(body, k, resolve)
    ensures var ms, ms' := Meaning(Block(name, body), fs, resolve).modules, Meaning(Block(name, body + [k]), fs, resolve).modules;
      ms' == if k.ModulePath? then ms + [ModuleValue(FsIn(resolve(k.uri).value, fs), resolve(k.uri).value.path, "")]
             else if k.ModuleString? then ms[|Strings(body)| := ms[|Strings(body)|].(tag := k.text)]
             else ms
  {
    hide Paths, Strings, ProtocolOf, FsOf, PathOf, CmdlineOf, ProtocolNamed;
    SnocParts(body, k);
    var ms, ms' := Meaning(Block(name, body), fs, resolve).modules, Meaning(Block(name, body + [k]), fs, resolve).modules;
    forall j | 0 <= j < |ms|
      ensures ms'[j] == if k.ModuleString? && j == |Strings(body)| then ms[j].(tag := k.text) else ms[j]
    {
    }
  }

  /** The module that the next MODULE_STRING tags: the first one without a string, or none. */
  ghost predicate IsPending(e: BootEntry, body: seq<Key>, pending: BootModule?)
    reads e
  {
    && |Strings(body)| <= |Paths(body)| == |e.modules|
    && pending == if |Strings(body)| < |Paths(body)| then e.modules[|Strings(body)|] else null
  }

  /** MODULE_PATH: a new last module; if none was waiting for a string, it is the one that does. */
  method AddModule(e: BootEntry, pending: BootModule?, uri: string, l: Location, fs: nat, resolve: Resolver, ghost body: seq<Key>)
    returns (pending': BootModule?)
    requires Shows(e, Meaning(Block(e.name, body), fs, resolve)) && IsPending(e, body, pending)
    requires resolve(uri) == Some(l)
    modifies e, e.modules
    ensures Shows(e, Meaning(Block(e.name, body + [ModulePath(uri)]), fs, resolve))
    ensures IsPending(e, body + [ModulePath(uri)], pending')
    ensures forall m :: m in e.modules ==> m in old(e.modules) || fresh(m)
    ensures e.name == old(e.name)
  {
    hide Meaning, Paths, Strings, ProtocolOf, ProtocolNamed;
    hide FsIn, Fits;
    SnocParts(body, ModulePath(uri));
    assert Fits(body, ModulePath(uri), resolve) by { PathFits(body, uri, resolve); }
    MeaningSnoc(e.name, body, ModulePath(uri), fs, resolve);
    var m := new BootModule(FsIn(l, fs), l.path);
    ghost var nodes, v := e.modules, Meaning(Block(e.name, body), fs, resolve);
    e.InsertTail(m);
    ShowsOneMore(e, nodes, m, v, Meaning(Block(e.name, body + [ModulePath(uri)]), fs, resolve));
    pending' := if pending == null then m else pending;
  }

  lemma ShowsOneMore(e: BootEntry, nodes: seq<BootModule>, m: BootModule, v: EntryValue, v': EntryValue)
    requires e.Linked() && e.modules == nodes + [m] && |nodes| == |v.modules|
    requires e.name == v.name && e.protocol == v.protocol && e.fs == v.fs && e.path == v.path && e.cmdline == v.cmdline
    requires forall k :: 0 <= k < |nodes| ==> ModuleValue(nodes[k].fs, nodes[k].path, nodes[k].tag) == v.modules[k]
    requires v' == v.(modules := v.modules + [ModuleValue(m.fs, m.path, m.tag)])
    ensures Shows(e, v')
  {
  }

  lemma PathFits(body: seq<Key>, uri: string, resolve: Resolver)
    requires resolve(uri).Some?
    ensures Fits(body, ModulePath(uri), resolve)
  {
  }

  /** MODULE_STRING: the waiting module gets the string, and the one after it waits. */
  method TagModule(e: BootEntry, pending: BootModule, text: string, fs: nat, resolve: Resolver, ghost body: seq<Key>)
    returns (pending': BootModule?)
    requires Shows(e, Meaning(Block(e.name, body), fs, resolve)) && IsPending(e, body, pending)
    requires Fits(body, ModuleString(text), resolve)
    modifies e.modules
    ensures Shows(e, Meaning(Block(e.name, body + [ModuleString(text)]), fs, resolve))
    ensures IsPending(e, body + [ModuleString(text)], pending')
    ensures e.modules == old(e.modules) && e.name == old(e.name)
  {
    hide Meaning, Paths, Strings, ProtocolOf, ProtocolNamed;
    SnocParts(body, ModuleString(text));
    MeaningSnoc(e.name, body, ModuleString(text), fs, resolve);
    pending.tag := text;
    pending' := if pending == e.last then null else pending.next;
  }

  /** The branch of the loop for a line inside an entry. */
  method ApplyLine(e: BootEntry, pending: BootModule?, k: Key, fs: nat, resolve: Resolver, ghost body: seq<Key>)
    returns (ok: bool, pending': BootModule?)
    requires !k.Entry? && Shows(e, Meaning(Block(e.name, body), fs, resolve)) && IsPending(e, body, pending)
    modifies e, e.modules
    ensures ok <==> Fits(body, k, resolve)
    ensures ok ==> Shows(e, Meaning(Block(e.name, body + [k]), fs, resolve)) && IsPending(e, body + [k], pending')
    ensures forall m :: m in e.modules ==> m in old(e.modules) || fresh(m)
    ensures e.name == old(e.name)
  {
    hide Meaning, Paths, Strings, ProtocolOf, ProtocolNamed, FsIn;
    ok, pending' := false, pending;
    MeaningProtocol(e.name, body, fs, resolve);
    if k.ModulePath? {
      var l := resolve(k.uri);
      if l.None? { return; }
      pending' := AddModule(e, pending, k.uri, l.value, fs, resolve, body);
      ok := true;
    } else if k.ModuleString? {
      if !TakesStrings(e.protocol) || pending == null { return; }
      pending' := TagModule(e, pending, k.text, fs, resolve, body);
      ok := true;
    } else {
      ok := ApplySetting(e, k, fs, resolve, body);
      SnocParts(body, k);
    }
  }

  /** The lines that set a field of the entry. */
  method ApplySetting(e: BootEntry, k: Key, fs: nat, resolve: Resolver, ghost body: seq<Key>) returns (ok: bool)
    requires k.Path? || k.Cmdline? || k.Proto? || k.Other?
    requires Shows(e, Meaning(Block(e.name, body), fs, resolve)) && |Strings(body)| <= |Paths(body)|
    modifies e`fs, e`path, e`cmdline, e`protocol
    ensures ok <==> Fits(body, k, resolve)
    ensures ok ==> Shows(e, Meaning(Block(e.name, body + [k]), fs, resolve))
  {
    hide Meaning, Paths, Strings, ProtocolOf, ProtocolNamed;
    ok := true;
    if Fits(body, k, resolve) {
      MeaningSnoc(e.name, body, k, fs, resolve);
    }
    match k {
      case Path(uri) =>
        var l := resolve(uri);
        if l.None? { return false; }
        if l.value.fs.Some? {
          e.fs := l.value.fs.value;
        }
        e.path := Some(l.value.path);
      case Cmdline(text) =>
        e.cmdline := text;
      case Proto(text) =>
        var p := ProtocolNamed(text);
        if p.None? { return false; }
        e.protocol := p.value;
      case Other =>
    }
  }

  lemma MeaningProtocol(name: string, body: seq<Key>, fs: nat, resolve: Resolver)
    ensures Meaning(Block(name, body), fs, resolve).protocol == ProtocolOf(body)
    ensures |Meaning(Block(name, body), fs, resolve).modules| == |Paths(body)|
  {
  }

  lemma MeaningOfNewEntry(name: string, fs: nat, resolve: Resolver)
    ensures Meaning(Block(name, []), fs, resolve) == EntryValue(name, Invalid, fs, None, "", [])
  {
  }

  lemma BlocksSnoc(keys: seq<Key>, k: Key)
    ensures var bs := Blocks(keys);
      Blocks(keys + [k]) == if k.Entry? then bs + [Block(k.name, [])]
                            else if bs == [] then []
                            else Init(bs) + [Block(Last(bs).name, Last(bs).body + [k])]
  {
    assert Init(keys + [k]) == keys;
  }

  /** No object belongs to two entries. */
  ghost predicate Separate(head: seq<BootEntry>)
    reads head
  {
    forall i, j :: 0 <= i < j < |head| ==>
      head[i] != head[j] && forall m :: m in head[i].modules ==> m !in head[j].modules
  }

  /** A line inside the last entry leaves the other entries alone. */
  method ApplyToLast(head: seq<BootEntry>, pending: BootModule?, k: Key, fs: nat, resolve: Resolver, ghost blocks: seq<Block>)
    returns (ok: bool, pending': BootModule?)
    requires head != [] && |head| == |blocks| && Separate(head) && !k.Entry?
    requires forall j :: 0 <= j < |head| ==> Shows(head[j], Meaning(blocks[j], fs, resolve))
    requires IsPending(Last(head), Last(blocks).body, pending)
    modifies Last(head), Last(head).modules
    ensures ok <==> Fits(Last(blocks).body, k, resolve)
    ensures forall j :: 0 <= j < |head| - 1 ==> head[j].modules == old(head[j].modules)
    ensures forall m :: m in Last(head).modules ==> m in old(Last(head).modules) || fresh(m)
    ensures Separate(head)
    ensures forall j :: 0 <= j < |head| - 1 ==> Shows(head[j], Meaning(blocks[j], fs, resolve))
    ensures ok ==> Shows(Last(head), Meaning(Block(Last(blocks).name, Last(blocks).body + [k]), fs, resolve))
    ensures ok ==> IsPending(Last(head), Last(blocks).body + [k], pending')
  {
    hide Meaning, Fits, IsPending, Paths, Strings, BootEntry.Linked;
    var e := Last(head);
    ghost var b := Last(blocks);
    NamesAgree(e, b, fs, resolve);
    assert b == Block(e.name, b.body);
    ok, pending' := ApplyLine(e, pending, k, fs, resolve, b.body);
    forall j | 0 <= j < |head| - 1
      ensures Shows(head[j], Meaning(blocks[j], fs, resolve))
    {
      var o := head[j];
      assert o != e && o.modules == old(o.modules);
      assert forall m :: m in o.modules ==> m !in old(e.modules);
      assert forall k :: 0 <= k < |o.modules| ==> o.modules[k] in o.modules;
      assert old(Shows(o, Meaning(blocks[j], fs, resolve)));
    }
  }

  lemma SeparateSnoc(head: seq<BootEntry>, e: BootEntry)
    requires Separate(head) && e !in head && e.modules == []
    ensures Separate(head + [e])
  {
  }

  ghost predicate Owns(repr: set<object>, head: seq<BootEntry>)
    reads head
  {
    forall j :: 0 <= j < |head| ==> head[j] in repr && forall m :: m in head[j].modules ==> m in repr
  }

  /** What the list and the waiting module are after the lines keys. */
  ghost predicate Built(head: seq<BootEntry>, pending: BootModule?, keys: seq<Key>, fs: nat, resolve: Resolver, repr: set<object>)
    reads head, repr
  {
    && Owns(repr, head) && Separate(head) && |head| == |Blocks(keys)|
    && (forall j :: 0 <= j < |head| ==> Shows(head[j], Meaning(Blocks(keys)[j], fs, resolve)))
    && (head != [] ==> IsPending(Last(head), Last(Blocks(keys)).body, pending))
  }

  /** The body of the loop for a line that was read. */
  method NextLine(head: seq<BootEntry>, pending: BootModule?, k: Key, fs: nat, resolve: Resolver,
                  ghost keys: seq<Key>, ghost repr: set<object>)
    returns (ok: bool, head': seq<BootEntry>, pending': BootModule?, ghost repr': set<object>)
    requires Built(head, pending, keys, fs, resolve, repr)
    modifies repr
    ensures ok <==> Admissible(keys, k, resolve)
    ensures ok ==> Built(head', pending', keys + [k], fs, resolve, repr')
    ensures fresh(repr' - repr)
  {
    hide Meaning, Blocks, Fits, Shows, IsPending, Separate;
    ok, head', pending', repr' := true, head, pending, repr;
    BlocksSnoc(keys, k);
    EntryLinesFit(if Blocks(keys) == [] then [] else Last(Blocks(keys)).body, k, resolve);
    if k.Entry? {
      pending' := null;
      head', repr' := NextEntry(head, pending, k, fs, resolve, keys, repr);
    } else if head != [] {
      assert Last(head) == head[|head| - 1];
      ok, pending' := ApplyToLast(head, pending, k, fs, resolve, Blocks(keys));
      repr' := repr + set m | m in Last(head).modules;
      if ok {
        BuiltAfterLine(head, pending', k, fs, resolve, keys, repr');
      }
    }
  }

  lemma BuiltAfterLine(head: seq<BootEntry>, pending: BootModule?, k: Key, fs: nat, resolve: Resolver,
                       keys: seq<Key>, repr: set<object>)
    requires head != [] && |head| == |Blocks(keys)| && Owns(repr, head) && Separate(head) && !k.Entry?
    requires forall j :: 0 <= j < |head| - 1 ==> Shows(head[j], Meaning(Blocks(keys)[j], fs, resolve))
    requires var b := Last(Blocks(keys));
      Shows(Last(head), Meaning(Block(b.name, b.body + [k]), fs, resolve)) && IsPending(Last(head), b.body + [k], pending)
    ensures Built(head, pending, keys + [k], fs, resolve, repr)
  {
    hide Meaning, Blocks, Shows, IsPending, Separate;
    BlocksSnoc(keys, k);
  }

  /** A line that starts an entry. */
  method NextEntry(head: seq<BootEntry>, ghost pending: BootModule?, k: Key, fs: nat, resolve: Resolver,
                   ghost keys: seq<Key>, ghost repr: set<object>)
    returns (head': seq<BootEntry>, ghost repr': set<object>)
    requires k.Entry? && Built(head, pending, keys, fs, resolve, repr)
    ensures Built(head', null, keys + [k], fs, resolve, repr')
    ensures fresh(repr' - repr)
  {
    hide Meaning, Blocks, Shows, IsPending, Separate;
    BlocksSnoc(keys, k);
    var e := new BootEntry(k.name, fs);
    EntryShows(e, k.name, fs, resolve);
    SeparateSnoc(head, e);
    head', repr' := head + [e], repr + {e};
  }

  /** LoadBootEntries on the lines of the file: it accepts exactly the admissible files, and then the list holds one
      entry for every entry line, in order, each as its own lines mean it. */
  method LoadBootEntries(fs: nat, lines: seq<Option<string>>, resolve: Resolver) returns (ok: bool, head: seq<BootEntry>)
    ensures ok <==> Accepted(lines, resolve)
    ensures ok ==> |head| == |Blocks(Keys(lines))| && Separate(head)
    ensures ok ==> forall j :: 0 <= j < |head| ==> Shows(head[j], Meaning(Blocks(Keys(lines))[j], fs, resolve))
  {
    hide Meaning, Blocks, Shows, IsPending, Separate, Admissible, Readable;
    ok, head := false, [];
    var pending: BootModule? := null;
    ghost var keys, repr: set<object> := Keys(lines), {};
    assert Built(head, pending, keys[..0], fs, resolve, repr) by { NothingBuilt(fs, resolve); }
    for i := 0 to |lines|
      invariant forall j :: 0 <= j < i ==> Readable(lines[j]) && Admissible(keys[..j], keys[j], resolve)
      invariant Built(head, pending, keys[..i], fs, resolve, repr) && fresh(repr)
    {
      if !Readable(lines[i]) { return; }
      var k := KeyOf(lines[i]);
      assert keys[..i + 1] == keys[..i] + [k];
      var fits;
      fits, head, pending, repr := NextLine(head, pending, k, fs, resolve, keys[..i], repr);
      if !fits { return; }
    }
    assert keys[..|lines|] == keys;
    ok := true;
  }

  lemma NothingBuilt(fs: nat, resolve: Resolver)
    ensures Built([], null, [], fs, resolve, {})
  {
  }

  lemma EntryLinesFit(body: seq<Key>, k: Key, resolve: Resolver)
    ensures k.Entry? ==> Fits(body, k, resolve)
  {
  }

  lemma NamesAgree(e: BootEntry, b: Block, fs: nat, resolve: Resolver)
    requires Shows(e, Meaning(b, fs, resolve))
    ensures e.name == b.name
  {
  }

  lemma EntryShows(e: BootEntry, name: string, fs: nat, resolve: Resolver)
    requires e.Linked() && e.modules == [] && e.name == name && e.protocol == Invalid && e.fs == fs && e.path == None && e.cmdline == ""
    ensures Shows(e, Meaning(Block(name, []), fs, resolve)) && IsPending(e, [], null)
  {
    MeaningOfNewEntry(name, fs, resolve);
  }

  /** GetBootEntryAt: walk the list to the index; a negative index is never met. */
  method GetBootEntryAt(head: seq<BootEntry>, index: int) returns (e: BootEntry?)
    ensures e == if 0 <= index < |head| then head[index] else null
  {
    for i := 0 to |head|
      invariant 0 <= index ==> i <= index
    {
      if index == i { return head[i]; }
    }
    e := null;
  }

  // ---------- what the meaning of a file says ----------

  /** The lines a list of blocks was made from. */
  function Unblocked(bs: seq<Block>): seq<Key> {
    if bs == [] then [] else Unblocked(Init(bs)) + [Entry(Last(bs).name)] + Last(bs).body
  }

  /** The lines from the first entry line on. */
  function FromFirstEntry(keys: seq<Key>): seq<Key> {
    if keys == [] then [] else if keys[0].Entry? then keys else FromFirstEntry(keys[1..])
  }

  lemma {:induction false} FromFirstEntrySnoc(keys: seq<Key>, k: Key)
    ensures FromFirstEntry(keys + [k]) == if FromFirstEntry(keys) == [] && !k.Entry? then [] else FromFirstEntry(keys) + [k]
    decreases |keys|
  {
    if keys == [] {
      assert keys + [k] == [k] && [k][1..] == [];
    } else {
      assert (keys + [k])[1..] == keys[1..] + [k];
      FromFirstEntrySnoc(keys[1..], k);
    }
  }

  lemma BlocksOfNothing()
    ensures Blocks([]) == [] && Unblocked([]) == [] && FromFirstEntry([]) == []
  {
  }

  /** Blocks only cuts the file up: laid end to end they are the file from its first entry line on, so entries and
      modules keep the order of the file and no line counts for an entry it does not stand under. */
  lemma {:induction false} BlocksAreTheFile(keys: seq<Key>)
    ensures Unblocked(Blocks(keys)) == FromFirstEntry(keys)
    ensures forall b :: b in Blocks(keys) ==> forall k :: k in b.body ==> !k.Entry?
  {
    hide Blocks, FromFirstEntry, Unblocked;
    BlocksOfNothing();
    if keys == [] {
    } else {
      var p, k := Init(keys), Last(keys);
      BlocksAreTheFile(p);
      assert keys == p + [k];
      FromFirstEntrySnoc(p, k);
      var bs := Blocks(p);
      BlocksSnoc(p, k);
      if k.Entry? {
        UnblockedSnoc(bs, Block(k.name, []));
      } else if bs != [] {
        assert bs == Init(bs) + [Last(bs)] && Last(bs) in bs;
        UnblockedSnoc(Init(bs), Last(bs));
        UnblockedSnoc(Init(bs), Block(Last(bs).name, Last(bs).body + [k]));
      }
    }
  }

  lemma UnblockedSnoc(bs: seq<Block>, b: Block)
    ensures Unblocked(bs + [b]) == Unblocked(bs) + [Entry(b.name)] + b.body
  {
    assert Init(bs + [b]) == bs && Last(bs + [b]) == b;
  }

  /** At no point of an accepted file has an entry had more module strings than module paths. */
  lemma {:induction false} StringsNeverOutnumberPaths(lines: seq<Option<string>>, resolve: Resolver, n: nat)
    requires Accepted(lines, resolve) && n <= |lines|
    ensures forall b :: b in Blocks(Keys(lines)[..n]) ==> |Strings(b.body)| <= |Paths(b.body)|
    decreases n
  {
    hide Blocks, Paths, Strings, Fits, Readable, KeyOf;
    BlocksOfNothing();
    if n > 0 {
      StringsNeverOutnumberPaths(lines, resolve, n - 1);
      var p, k := Keys(lines)[..n - 1], Keys(lines)[n - 1];
      assert Keys(lines)[..n] == p + [k];
      assert Admissible(p, k, resolve);
      OneMoreString(p, k, resolve);
    } else {
      assert Keys(lines)[..n] == [];
    }
  }

  lemma OneMoreString(p: seq<Key>, k: Key, resolve: Resolver)
    requires Admissible(p, k, resolve)
    requires forall b :: b in Blocks(p) ==> |Strings(b.body)| <= |Paths(b.body)|
    ensures forall b :: b in Blocks(p + [k]) ==> |Strings(b.body)| <= |Paths(b.body)|
  {
    hide Blocks, Paths, Strings, Fits;
    NoStrings();
    BlocksSnoc(p, k);
    var bs := Blocks(p);
    if bs != [] && !k.Entry? {
      var body := Last(bs).body;
      assert Last(bs) in bs;
      SnocParts(body, k);
      FitsMeans(body, k, resolve);
      assert forall b :: b in Init(bs) ==> b in bs;
    }
  }

  lemma NoStrings()
    ensures Strings([]) == [] && Paths([]) == []
  {
  }

  // ---------- what the text of a line says ----------

  lemma {:induction false} ValueFollowsTheSign(key: string, v: string)
    requires '=' !in key
    ensures Value(key + "=" + v) == v
  {
    if key == "" {
      assert "" + "=" + v == "=" + v && ("=" + v)[1..] == v;
    } else {
      ValueFollowsTheSign(key[1..], v);
      assert (key + "=" + v)[1..] == key[1..] + "=" + v;
    }
  }

  lemma NotThatKey(line: string, key: string, i: nat)
    requires i < |line| && i < |key| && line[i] != key[i]
    ensures !HasKey(line, key)
  {
  }

  lemma ThatKey(line: string, key: string, v: string)
    requires line == key + "=" + v && '=' !in key
    ensures HasKey(line, key) && Value(line) == v
  {
    ValueFollowsTheSign(key, v);
  }

  lemma PathLines(v: string)
    ensures Classify("PATH=" + v) == Path(v)
    ensures Classify("KERNEL_PATH=" + v) == Path(v)
  {
    hide HasKey, Value;
    ThatKey("PATH=" + v, "PATH", v);
    ThatKey("KERNEL_PATH=" + v, "KERNEL_PATH", v);
  }

  lemma CmdlineLines(v: string)
    ensures Classify("CMDLINE=" + v) == Cmdline(v)
    ensures Classify("KERNEL_CMDLINE=" + v) == Cmdline(v)
  {
    hide HasKey, Value;
    ThatKey("CMDLINE=" + v, "CMDLINE", v);
    NotThatKey("CMDLINE=" + v, "PATH", 0);
    NotThatKey("CMDLINE=" + v, "KERNEL_PATH", 0);
    ThatKey("KERNEL_CMDLINE=" + v, "KERNEL_CMDLINE", v);
    NotThatKey("KERNEL_CMDLINE=" + v, "PATH", 0);
    NotThatKey("KERNEL_CMDLINE=" + v, "KERNEL_PATH", 7);
  }

  lemma ProtocolLines(v: string)
    ensures Classify("PROTOCOL=" + v) == Proto(v)
    ensures Classify("KERNEL_PROTO=" + v) == Proto(v)
    ensures Classify("KERNEL_PROTOCOL=" + v) == Proto(v)
  {
    hide HasKey, Value;
    ThatKey("PROTOCOL=" + v, "PROTOCOL", v);
    NotThatKey("PROTOCOL=" + v, "PATH", 1);
    NotThatKey("PROTOCOL=" + v, "KERNEL_PATH", 0);
    NotThatKey("PROTOCOL=" + v, "CMDLINE", 0);
    NotThatKey("PROTOCOL=" + v, "KERNEL_CMDLINE", 0);
    ThatKey("KERNEL_PROTO=" + v, "KERNEL_PROTO", v);
    NotThatKey("KERNEL_PROTO=" + v, "PATH", 0);
    NotThatKey("KERNEL_PROTO=" + v, "KERNEL_PATH", 8);
    NotThatKey("KERNEL_PROTO=" + v, "CMDLINE", 0);
    NotThatKey("KERNEL_PROTO=" + v, "KERNEL_CMDLINE", 7);
    ThatKey("KERNEL_PROTOCOL=" + v, "KERNEL_PROTOCOL", v);
    NotThatKey("KERNEL_PROTOCOL=" + v, "PATH", 0);
    NotThatKey("KERNEL_PROTOCOL=" + v, "KERNEL_PATH", 8);
    NotThatKey("KERNEL_PROTOCOL=" + v, "CMDLINE", 0);
    NotThatKey("KERNEL_PROTOCOL=" + v, "KERNEL_CMDLINE", 7);
  }

  lemma ModuleLines(v: string)
    ensures Classify("MODULE_PATH=" + v) == ModulePath(v)
    ensures Classify("MODULE_STRING=" + v) == ModuleString(v)
  {
    hide HasKey, Value;
    ThatKey("MODULE_PATH=" + v, "MODULE_PATH", v);
    NotThatKey("MODULE_PATH=" + v, "PATH", 0);
    NotThatKey("MODULE_PATH=" + v, "KERNEL_PATH", 0);
    NotThatKey("MODULE_PATH=" + v, "CMDLINE", 0);
    NotThatKey("MODULE_PATH=" + v, "KERNEL_CMDLINE", 0);
    NotThatKey("MODULE_PATH=" + v, "PROTOCOL", 0);
    NotThatKey("MODULE_PATH=" + v, "KERNEL_PROTO", 0);
    NotThatKey("MODULE_PATH=" + v, "KERNEL_PROTOCOL", 0);
    ThatKey("MODULE_STRING=" + v, "MODULE_STRING", v);
    NotThatKey("MODULE_STRING=" + v, "PATH", 0);
    NotThatKey("MODULE_STRING=" + v, "KERNEL_PATH", 0);
    NotThatKey("MODULE_STRING=" + v, "CMDLINE", 0);
    NotThatKey("MODULE_STRING=" + v, "KERNEL_CMDLINE", 0);
    NotThatKey("MODULE_STRING=" + v, "PROTOCOL", 0);
    NotThatKey("MODULE_STRING=" + v, "KERNEL_PROTO", 0);
    NotThatKey("MODULE_STRING=" + v, "KERNEL_PROTOCOL", 0);
    NotThatKey("MODULE_STRING=" + v, "MODULE_PATH", 7);
  }

  /** Every spelling of every key, with any text behind it. */
  lemma LinesMean(v: string)
    ensures Classify(":" + v) == Entry(v)
    ensures Classify("PATH=" + v) == Path(v) && Classify("KERNEL_PATH=" + v) == Path(v)
    ensures Classify("CMDLINE=" + v) == Cmdline(v) && Classify("KERNEL_CMDLINE=" + v) == Cmdline(v)
    ensures Classify("PROTOCOL=" + v) == Proto(v)
    ensures Classify("KERNEL_PROTO=" + v) == Proto(v) && Classify("KERNEL_PROTOCOL=" + v) == Proto(v)
    ensures Classify("MODULE_PATH=" + v) == ModulePath(v)
    ensures Classify("MODULE_STRING=" + v) == ModuleString(v)
  {
    assert Classify(":" + v) == Entry(v) by { assert (":" + v)[1..] == v; }
    hide Classify;
    PathLines(v);
    CmdlineLines(v);
    ProtocolLines(v);
    ModuleLines(v);
  }

  /** All other lines mean nothing. */
  lemma OtherLines(line: string)
    ensures Classify(line) == Other <==>
      && !(":" <= line) && !("PATH=" <= line) && !("KERNEL_PATH=" <= line)
      && !("CMDLINE=" <= line) && !("KERNEL_CMDLINE=" <= line)
      && !("PROTOCOL=" <= line) && !("KERNEL_PROTO=" <= line) && !("KERNEL_PROTOCOL=" <= line)
      && !("MODULE_PATH=" <= line) && !("MODULE_STRING=" <= line)
  {
    hide Value;
    assert ":" <= line <==> line != [] && line[0] == ':';
    assert "PATH" + "=" == "PATH=";
    assert "KERNEL_PATH" + "=" == "KERNEL_PATH=";
    assert "CMDLINE" + "=" == "CMDLINE=";
    assert "KERNEL_CMDLINE" + "=" == "KERNEL_CMDLINE=";
    assert "PROTOCOL" + "=" == "PROTOCOL=";
    assert "KERNEL_PROTO" + "=" == "KERNEL_PROTO=";
    assert "KERNEL_PROTOCOL" + "=" == "KERNEL_PROTOCOL=";
    assert "MODULE_PATH" + "=" == "MODULE_PATH=";
    assert "MODULE_STRING" + "=" == "MODULE_STRING=";
  }

  /** The four protocols, and which of them may have module strings. */
  lemma ProtocolNames(s: string)
    ensures ProtocolNamed("linux") == Some(Linux) && ProtocolNamed("mb2") == Some(Mb2)
    ensures ProtocolNamed("stivale") == Some(Stivale) && ProtocolNamed("stivale2") == Some(Stivale2)
    ensures ProtocolNamed(s).None? <==> s !in {"linux", "mb2", "stivale", "stivale2"}
    ensures ProtocolNamed(s).Some? && TakesStrings(ProtocolNamed(s).value) <==> s in {"mb2", "stivale", "stivale2"}
  {
    assert "linux" != "mb2" && "stivale" != "stivale2";
  }

  /** A file of one entry that says everything once. */
  function OneEntry(name: string, protocol: string, uri: string, cmdline: string, moduleUri: string, tag: string): seq<Option<string>> {
    [Some(":" + name), Some("PROTOCOL=" + protocol), Some("PATH=" + uri), Some("CMDLINE=" + cmdline),
     Some("MODULE_PATH=" + moduleUri), Some("MODULE_STRING=" + tag)]
  }

  /** From text to meaning: the file is accepted exactly when no line has 255 characters, the protocol takes module
      strings and both URIs resolve, and then it is one entry with that name, protocol, path, command line and tagged module. */
  lemma OneEntryFile(name: string, protocol: string, uri: string, cmdline: string, moduleUri: string, tag: string,
                     fs: nat, resolve: Resolver)
    ensures var lines := OneEntry(name, protocol, uri, cmdline, moduleUri, tag);
      && (Accepted(lines, resolve) <==>
            && (forall i :: 0 <= i < |lines| ==> |lines[i].value| <= 254)
            && protocol in {"mb2", "stivale", "stivale2"} && resolve(uri).Some? && resolve(moduleUri).Some?)
      && (Accepted(lines, resolve) ==>
            && |Blocks(Keys(lines))| == 1
            && var l, m := resolve(uri).value, resolve(moduleUri).value;
            Meaning(Blocks(Keys(lines))[0], fs, resolve) ==
              EntryValue(name, ProtocolNamed(protocol).value, FsIn(l, fs), Some(l.path), cmdline,
                         [ModuleValue(FsIn(m, fs), m.path, tag)]))
  {
    hide Classify, Meaning, Blocks, Fits, ProtocolNamed, Accepted, KeyOf, FsIn;
    var lines := OneEntry(name, protocol, uri, cmdline, moduleUri, tag);
    var body := [Proto(protocol), Path(uri), Cmdline(cmdline), ModulePath(moduleUri), ModuleString(tag)];
    KeysOfOneEntry(name, protocol, uri, cmdline, moduleUri, tag);
    AcceptedBlock(lines, name, body, resolve);
    BodyFits(protocol, uri, cmdline, moduleUri, tag, resolve);
    ProtocolNames(protocol);
    if Accepted(lines, resolve) {
      BodyMeans(name, protocol, uri, cmdline, moduleUri, tag, fs, resolve);
    }
  }

  lemma KeysOfOneEntry(name: string, protocol: string, uri: string, cmdline: string, moduleUri: string, tag: string)
    ensures Keys(OneEntry(name, protocol, uri, cmdline, moduleUri, tag)) ==
      [Entry(name)] + [Proto(protocol), Path(uri), Cmdline(cmdline), ModulePath(moduleUri), ModuleString(tag)]
  {
    hide Classify;
    assert Classify(":" + name) == Entry(name) by { LinesMean(name); }
    assert Classify("PROTOCOL=" + protocol) == Proto(protocol) by { LinesMean(protocol); }
    assert Classify("PATH=" + uri) == Path(uri) by { LinesMean(uri); }
    assert Classify("CMDLINE=" + cmdline) == Cmdline(cmdline) by { LinesMean(cmdline); }
    assert Classify("MODULE_PATH=" + moduleUri) == ModulePath(moduleUri) by { LinesMean(moduleUri); }
    assert Classify("MODULE_STRING=" + tag) == ModuleString(tag) by { LinesMean(tag); }
  }

  /** A file of one block is accepted exactly when every line can be read and fits those before it in the block. */
  lemma AcceptedBlock(lines: seq<Option<string>>, name: string, body: seq<Key>, resolve: Resolver)
    requires Keys(lines) == [Entry(name)] + body && forall k :: k in body ==> !k.Entry?
    ensures Blocks(Keys(lines)) == [Block(name, body)]
    ensures Accepted(lines, resolve) <==>
      (forall i :: 0 <= i < |lines| ==> Readable(lines[i])) && forall i :: 0 <= i < |body| ==> Fits(body[..i], body[i], resolve)
  {
    hide Blocks, Fits, Readable;
    var ks := Keys(lines);
    BlocksOfNothing();
    OneBlock(name, body);
    forall i | 0 <= i < |body|
      ensures Admissible(ks[..i + 1], ks[i + 1], resolve) <==> Fits(body[..i], body[i], resolve)
    {
      assert ks[..i + 1] == [Entry(name)] + body[..i] && ks[i + 1] == body[i];
      OneBlock(name, body[..i]);
    }
    assert Admissible(ks[..0], ks[0], resolve) by { assert ks[..0] == []; }
    forall i | 0 < i < |lines|
      ensures Admissible(ks[..i], ks[i], resolve) <==> Fits(body[..i - 1], body[i - 1], resolve)
    {
      assert i == (i - 1) + 1;
    }
    if Accepted(lines, resolve) {
      forall i | 0 <= i < |body|
        ensures Fits(body[..i], body[i], resolve)
      {
        assert Admissible(ks[..i + 1], ks[i + 1], resolve);
      }
    }
  }

  lemma {:induction false} OneBlock(name: string, body: seq<Key>)
    requires forall k :: k in body ==> !k.Entry?
    ensures Blocks([Entry(name)] + body) == [Block(name, body)]
    decreases |body|
  {
    hide Blocks;
    if body == [] {
      BlocksOfNothing();
      BlocksSnoc([], Entry(name));
      assert [] + [Entry(name)] == [Entry(name)] + body;
    } else {
      OneBlock(name, Init(body));
      BlocksSnoc([Entry(name)] + Init(body), Last(body));
      assert [Entry(name)] + Init(body) + [Last(body)] == [Entry(name)] + body;
      assert Init(body) + [Last(body)] == body;
    }
  }

  lemma ProtocolSnoc(body: seq<Key>, k: Key)
    ensures ProtocolOf(body + [k]) == if k.Proto? && ProtocolNamed(k.text).Some? then ProtocolNamed(k.text).value else ProtocolOf(body)
  {
    assert Init(body + [k]) == body;
  }

  lemma BodyFits(protocol: string, uri: string, cmdline: string, moduleUri: string, tag: string, resolve: Resolver)
    ensures var body := [Proto(protocol), Path(uri), Cmdline(cmdline), ModulePath(moduleUri), ModuleString(tag)];
      (forall i :: 0 <= i < 5 ==> Fits(body[..i], body[i], resolve)) <==>
        protocol in {"mb2", "stivale", "stivale2"} && resolve(uri).Some? && resolve(moduleUri).Some?
  {
    hide ProtocolNamed, TakesStrings;
    var p, u, c, m, t := Proto(protocol), Path(uri), Cmdline(cmdline), ModulePath(moduleUri), ModuleString(tag);
    var body := [p, u, c, m, t];
    NoStrings();
    SnocParts([], p); SnocParts([p], u); SnocParts([p, u], c); SnocParts([p, u, c], m);
    assert body[..0] == [] && body[..1] == [] + [p] == [p] && body[..2] == [p] + [u] == [p, u];
    assert body[..3] == [p, u] + [c] == [p, u, c] && body[..4] == [p, u, c] + [m];
    ProtocolNames(protocol);
    ProtocolSnoc([], p); ProtocolSnoc([p], u); ProtocolSnoc([p, u], c); ProtocolSnoc([p, u, c], m);
    assert Fits(body[..0], p, resolve) <==> ProtocolNamed(protocol).Some?;
    assert Fits(body[..1], u, resolve) <==> resolve(uri).Some?;
    assert Fits(body[..2], c, resolve);
    assert Fits(body[..3], m, resolve) <==> resolve(moduleUri).Some?;
    assert Fits(body[..4], t, resolve) <==> TakesStrings(ProtocolOf(body[..4]));
  }

  lemma BodyMeans(name: string, protocol: string, uri: string, cmdline: string, moduleUri: string, tag: string,
                  fs: nat, resolve: Resolver)
    requires ProtocolNamed(protocol).Some? && resolve(uri).Some? && resolve(moduleUri).Some?
    requires var body := [Proto(protocol), Path(uri), Cmdline(cmdline), ModulePath(moduleUri), ModuleString(tag)];
      forall i :: 0 <= i < 5 ==> Fits(body[..i], body[i], resolve)
    ensures var body := [Proto(protocol), Path(uri), Cmdline(cmdline), ModulePath(moduleUri), ModuleString(tag)];
      var l, m := resolve(uri).value, resolve(moduleUri).value;
      Meaning(Block(name, body), fs, resolve) ==
        EntryValue(name, ProtocolNamed(protocol).value, FsIn(l, fs), Some(l.path), cmdline,
                   [ModuleValue(FsIn(m, fs), m.path, tag)])
  {
    hide ProtocolNamed, Fits, Meaning, FsIn;
    var p, u, c, m, t := Proto(protocol), Path(uri), Cmdline(cmdline), ModulePath(moduleUri), ModuleString(tag);
    var body := [p, u, c, m, t];
    NoStrings();
    MeaningOfNewEntry(name, fs, resolve);
    SnocParts([], p); SnocParts([p], u); SnocParts([p, u], c); SnocParts([p, u, c], m);
    assert body[..0] == [] && body[..1] == [] + [p] == [p] && body[..2] == [p] + [u] == [p, u];
    assert body[..3] == [p, u] + [c] == [p, u, c] && body[..4] == [p, u, c] + [m] == [p, u, c, m] && body == [p, u, c, m] + [t];
    assert body[0] == p && body[1] == u && body[2] == c && body[3] == m && body[4] == t;
    MeaningSnoc(name, [], p, fs, resolve);
    MeaningSnoc(name, [p], u, fs, resolve);
    MeaningSnoc(name, [p, u], c, fs, resolve);
    MeaningSnoc(name, [p, u, c], m, fs, resolve);
    MeaningSnoc(name, [p, u, c, m], t, fs, resolve);
  }
}
