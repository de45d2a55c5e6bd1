/** Merging neighbouring memory regions of the same kind, as both stivale loaders do it, and what the merge keeps. */
module Coalesce {
  import opened Bytes
  import opened MemoryMap

  /** A range of physical memory. Addresses are 64-bit words, so a range may run past the top and come round. */
  datatype Region = Region(base: U64, length: nat, kind: nat)

  /** The 64-bit address just past the region. */
  function End(r: Region): U64 {
    (r.base + r.length) % TWO_64
  }

  /** A region as a memory-map entry stores it, with a 64-bit length. */
  function Stored(r: Region): Region {
    r.(length := r.length % TWO_64)
  }

  function StoredAll(rs: seq<Region>): (out: seq<Region>)
    ensures |out| == |rs|
    ensures forall i :: 0 <= i < |rs| ==> out[i] == Stored(rs[i])
  {
    seq(|rs|, i requires 0 <= i < |rs| => Stored(rs[i]))
  }

  predicate Adjoins(r: Region, next: Region) {
    r.kind == next.kind && End(r) == next.base
  }

  // ---------- the merge, on 64-bit words ----------

  /** One pass of the loop: lengthen the last entry or append a new one. */
  function Step(out: seq<Region>, r: Region): (out': seq<Region>)
    ensures |out| <= |out'| <= |out| + 1 && out' != []
  {
    var n := |out|;
    if n > 0 && Adjoins(out[n - 1], r) then
      out[..n - 1] + [out[n - 1].(length := (out[n - 1].length + r.length) % TWO_64)]
    else
      out + [Stored(r)]
  }

  function MergeFrom(out: seq<Region>, rs: seq<Region>): (out': seq<Region>)
    ensures |out| <= |out'| <= |out| + |rs|
    decreases |rs|
  {
    if rs == [] then out else MergeFrom(Step(out, rs[0]), rs[1..])
  }

  function Merge(rs: seq<Region>): (out: seq<Region>)
    ensures |out| <= |rs|
  {
    MergeFrom([], rs)
  }

  lemma {:induction false} MergeInTwo(out: seq<Region>, p: seq<Region>, q: seq<Region>)
    ensures MergeFrom(out, p + q) == MergeFrom(MergeFrom(out, p), q)
    decreases |p|
  {
    if p == [] {
      assert p + q == q;
    } else {
      assert (p + q)[1..] == p[1..] + q;
      MergeInTwo(Step(out, p[0]), p[1..], q);
    }
  }

  // ---------- canonical form ----------

  predicate Canonical(out: seq<Region>) {
    forall i {:trigger out[i]} :: 0 < i < |out| ==> !Adjoins(out[i - 1], out[i])
  }

  lemma {:induction false} MergeFromIsCanonical(out: seq<Region>, rs: seq<Region>)
    requires Canonical(out)
    ensures Canonical(MergeFrom(out, rs))
    decreases |rs|
  {
    if rs == [] {
    } else {
      MergeFromIsCanonical(Step(out, rs[0]), rs[1..]);
    }
  }

  lemma {:induction false} MergeFromKeeps(out: seq<Region>, rs: seq<Region>)
    requires Canonical(out + rs)
    requires forall r :: r in rs ==> r.length < TWO_64
    ensures MergeFrom(out, rs) == out + rs
    decreases |rs|
  {
    if rs == [] {
      assert out + rs == out;
    } else {
      var both := out + rs;
      assert both[|out|] == rs[0];
      assert Step(out, rs[0]) == out + [rs[0]];
      assert out + [rs[0]] + rs[1..] == both;
      MergeFromKeeps(out + [rs[0]], rs[1..]);
    }
  }

  lemma {:induction false} MergeFromStores(out: seq<Region>, rs: seq<Region>)
    requires forall r :: r in out ==> r.length < TWO_64
    ensures forall r :: r in MergeFrom(out, rs) ==> r.length < TWO_64
    decreases |rs|
  {
    if rs == [] {
    } else {
      MergeFromStores(Step(out, rs[0]), rs[1..]);
    }
  }

  /** No two consecutive entries could still be merged, and merging the output again changes nothing. */
  lemma MergeIsCanonical(rs: seq<Region>)
    ensures Canonical(Merge(rs))
    ensures Merge(Merge(rs)) == Merge(rs)
  {
    MergeFromIsCanonical([], rs);
    MergeFromStores([], rs);
    assert [] + Merge(rs) == Merge(rs);
    MergeFromKeeps([], Merge(rs));
  }

  /** How the firmware cuts a range into descriptors does not show in the output. */
  lemma SplitInvariant(p: seq<Region>, r: Region, cut: nat, q: seq<Region>)
    requires cut <= r.length
    ensures var low, high := r.(length := cut), Region((r.base + cut) % TWO_64, r.length - cut, r.kind);
            Merge(p + [low, high] + q) == Merge(p + [r] + q)
  {
    var low, high := r.(length := cut), Region((r.base + cut) % TWO_64, r.length - cut, r.kind);
    var out := Merge(p);
    MergeInTwo([], p + [low, high], q);
    MergeInTwo([], p, [low, high]);
    MergeInTwo([], p + [r], q);
    MergeInTwo([], p, [r]);
    assert [low, high][1..] == [high];
    assert MergeFrom(out, [low, high]) == MergeFrom(Step(out, low), [high]) == Step(Step(out, low), high);
    assert MergeFrom(out, [r]) == Step(out, r);
    StepInTwo(out, r, cut);
  }

  lemma StepInTwo(out: seq<Region>, r: Region, cut: nat)
    requires cut <= r.length
    ensures var low, high := r.(length := cut), Region((r.base + cut) % TWO_64, r.length - cut, r.kind);
            Step(Step(out, low), high) == Step(out, r)
  {
    var low, high := r.(length := cut), Region((r.base + cut) % TWO_64, r.length - cut, r.kind);
    var n := |out|;
    if n > 0 && Adjoins(out[n - 1], r) {
      var last := out[n - 1];
      var once := last.(length := (last.length + cut) % TWO_64);
      assert Step(out, low) == out[..n - 1] + [once];
      assert Adjoins(once, high) by { EndAfterAdding(last, cut); AddInTwo(last.base + last.length, cut, 0); }
      AddInTwo(last.length, cut, r.length - cut);
      assert Step(Step(out, low), high) == out[..n - 1] + [once.(length := (once.length + high.length) % TWO_64)];
    } else {
      assert Step(out, low) == out + [Stored(low)];
      assert Adjoins(Stored(low), high) by { EndAfterAdding(low.(length := 0), cut); }
      AddInTwo(0, cut, r.length - cut);
      assert Step(Step(out, low), high) == out + [Stored(r)];
    }
  }

  /** The end of a region whose length was stored after adding to it. */
  lemma EndAfterAdding(r: Region, more: nat)
    ensures End(r.(length := (r.length + more) % TWO_64)) == (r.base + r.length + more) % TWO_64
  {
    AddInTwo(r.length + more, r.base, 0);
  }

  lemma EndIs(r: Region)
    ensures End(r) == (r.base + r.length) % TWO_64
  {
  }

  /** One step in the loop's own terms: it adds lengths that are already words, and remembers the end
      of the descriptor it has just read. */
  lemma StepOnWords(out: seq<Region>, r: Region)
    ensures var n, length := |out|, r.length % TWO_64;
      && Step(out, r) == (if n > 0 && Adjoins(out[n - 1], r) then
                            out[n - 1 := out[n - 1].(length := (out[n - 1].length + length) % TWO_64)]
                          else out + [Region(r.base, length, r.kind)])
      && (var last := Step(out, r)[|Step(out, r)| - 1];
          last.kind == r.kind && End(last) == (r.base + length) % TWO_64)
  {
    hide End;
    var n := |out|;
    AddInTwo(r.length, r.base, 0);
    EndIs(Region(r.base, r.length % TWO_64, r.kind));
    if n > 0 && Adjoins(out[n - 1], r) {
      var last := out[n - 1];
      AddInTwo(r.length, last.length, 0);
      EndIs(last);
      EndAfterAdding(last, r.length);
      AddInTwo(last.base + last.length, r.length, 0);
    }
  }

  /** What StartFrom[-1], LastType and LastEnd hold after the loop has read rs. */
  lemma LastEntry(rs: seq<Region>)
    requires rs != []
    ensures Merge(rs) != []
    ensures var out := Merge(rs); out[|out| - 1].kind == rs[|rs| - 1].kind && End(out[|out| - 1]) == End(rs[|rs| - 1])
  {
    hide Merge, Step, MergeFrom;
    var p, r := rs[..|rs| - 1], rs[|rs| - 1];
    assert rs == p + [r];
    MergeSnoc(p, r);
    StepOnWords(Merge(p), r);
    AddInTwo(r.length, r.base, 0);
  }

  lemma MergeSnoc(rs: seq<Region>, r: Region)
    ensures Merge(rs + [r]) == Step(Merge(rs), r)
  {
    MergeInTwo([], rs, [r]);
  }

  // ---------- coverage ----------

  /** How many of the bytes base, base + 1, ..., base + length - 1 (as 64-bit addresses) fall on address a. */
  function Hits(base: U64, length: nat, a: U64): nat {
    var gap := (a - base) % TWO_64;
    (length + TWO_64 - 1 - gap) / TWO_64
  }

  /** On a region that does not come round, Hits is membership. */
  lemma HitsIsMembership(r: Region, a: U64)
    requires r.base + r.length <= TWO_64
    ensures Hits(r.base, r.length, a) == if r.base <= a < r.base + r.length then 1 else 0
  {
    assert (a - r.base) % TWO_64 == if r.base <= a then a - r.base else a - r.base + TWO_64;
  }

  lemma HitsOfParts(base: U64, l1: nat, l2: nat, a: U64)
    ensures Hits(base, l1 + l2, a) == Hits(base, l1, a) + Hits((base + l1) % TWO_64, l2, a)
  {
    var gap := (a - base) % TWO_64;
    var q, s := l1 / TWO_64, l1 % TWO_64;
    var mid := (base + l1) % TWO_64;
    var gap' := (a - mid) % TWO_64;
    GapFromMiddle(base, l1, a);
    if s <= gap {
      assert (l1 + l2 + TWO_64 - 1 - gap) / TWO_64 == q + (l2 + TWO_64 - 1 - gap') / TWO_64;
      assert (l1 + TWO_64 - 1 - gap) / TWO_64 == q;
    } else {
      assert (l1 + l2 + TWO_64 - 1 - gap) / TWO_64 == q + 1 + (l2 + TWO_64 - 1 - gap') / TWO_64;
      assert (l1 + TWO_64 - 1 - gap) / TWO_64 == q + 1;
    }
  }

  lemma GapFromMiddle(base: U64, l1: nat, a: U64)
    ensures var gap, s := (a - base) % TWO_64, l1 % TWO_64;
      (a - (base + l1) % TWO_64) % TWO_64 == if s <= gap then gap - s else gap - s + TWO_64
  {
    var gap, s := (a - base) % TWO_64, l1 % TWO_64;
    var mid := (base + l1) % TWO_64;
    AddInTwo(l1, base, 0);
    assert mid == if base + s < TWO_64 then base + s else base + s - TWO_64;
  }

  lemma HitsOfStored(base: U64, length: nat, a: U64)
    ensures Hits(base, length, a) == Hits(base, length % TWO_64, a) + length / TWO_64
  {
  }

  /** How many regions of the kind cover the address. */
  function Cover(rs: seq<Region>, kind: nat, a: U64): nat {
    if rs == [] then 0 else
      Cover(rs[..|rs| - 1], kind, a) +
      (var r := rs[|rs| - 1]; if r.kind == kind then Hits(r.base, r.length, a) else 0)
  }

  /** How many bytes the regions of the kind hold. */
  function Held(rs: seq<Region>, kind: nat): nat {
    if rs == [] then 0 else
      Held(rs[..|rs| - 1], kind) + (var r := rs[|rs| - 1]; if r.kind == kind then r.length else 0)
  }

  lemma CoverSnoc(rs: seq<Region>, r: Region, kind: nat, a: U64)
    ensures Cover(rs + [r], kind, a) == Cover(rs, kind, a) + if r.kind == kind then Hits(r.base, r.length, a) else 0
    ensures Held(rs + [r], kind) == Held(rs, kind) + if r.kind == kind then r.length else 0
  {
    assert (rs + [r])[..|rs|] == rs;
  }

  // The same merge on unbounded lengths: its output lists the maximal runs of adjoining regions.

  function IdealStep(out: seq<Region>, r: Region): (out': seq<Region>) {
    var n := |out|;
    if n > 0 && Adjoins(out[n - 1], r) then
      out[..n - 1] + [out[n - 1].(length := out[n - 1].length + r.length)]
    else
      out + [r]
  }

  /** The maximal runs of adjoining regions of one kind, with their true total lengths. */
  function Runs(rs: seq<Region>): seq<Region> {
    if rs == [] then [] else IdealStep(Runs(rs[..|rs| - 1]), rs[|rs| - 1])
  }

  lemma {:induction false} MergeStoresRuns(rs: seq<Region>)
    ensures Merge(rs) == StoredAll(Runs(rs))
  {
    if rs == [] {
    } else {
      var p, r := rs[..|rs| - 1], rs[|rs| - 1];
      MergeStoresRuns(p);
      assert rs == p + [r];
      MergeSnoc(p, r);
      StepOfStored(Runs(p), r);
    }
  }

  lemma StepOfStored(runs: seq<Region>, r: Region)
    ensures Step(StoredAll(runs), r) == StoredAll(IdealStep(runs, r))
  {
    var n := |runs|;
    if n > 0 {
      var last := runs[n - 1];
      EndAfterAdding(last, 0);
      AddInTwo(last.length, r.length, 0);
    }
  }

  lemma {:induction false} RunsCoverTheSame(rs: seq<Region>, kind: nat, a: U64)
    ensures Cover(Runs(rs), kind, a) == Cover(rs, kind, a)
    ensures Held(Runs(rs), kind) == Held(rs, kind)
  {
    if rs == [] {
    } else {
      var p, r := rs[..|rs| - 1], rs[|rs| - 1];
      RunsCoverTheSame(p, kind, a);
      StepCoversTheSame(Runs(p), r, kind, a);
    }
  }

  lemma StepCoversTheSame(out: seq<Region>, r: Region, kind: nat, a: U64)
    ensures Cover(IdealStep(out, r), kind, a) == Cover(out, kind, a) + if r.kind == kind then Hits(r.base, r.length, a) else 0
    ensures Held(IdealStep(out, r), kind) == Held(out, kind) + if r.kind == kind then r.length else 0
  {
    hide Hits;
    var n := |out|;
    if n > 0 && Adjoins(out[n - 1], r) {
      var last := out[n - 1];
      HitsOfParts(last.base, last.length, r.length, a);
      CoverSnoc(out[..n - 1], last.(length := last.length + r.length), kind, a);
    } else {
      CoverSnoc(out, r, kind, a);
    }
  }

  /** Whole turns of the 64-bit address space that storing the lengths drops. */
  function Lost(runs: seq<Region>, kind: nat): nat {
    if runs == [] then 0 else
      Lost(runs[..|runs| - 1], kind) +
      (var r := runs[|runs| - 1]; if r.kind == kind then r.length / TWO_64 else 0)
  }

  lemma {:induction false} StoringLoses(runs: seq<Region>, kind: nat, a: U64)
    ensures Cover(runs, kind, a) == Cover(StoredAll(runs), kind, a) + Lost(runs, kind)
    ensures Held(runs, kind) == Held(StoredAll(runs), kind) + TWO_64 * Lost(runs, kind)
  {
    if runs == [] {
    } else {
      var p, r := runs[..|runs| - 1], runs[|runs| - 1];
      StoringLoses(p, kind, a);
      HitsOfStored(r.base, r.length, a);
      assert StoredAll(runs)[..|runs| - 1] == StoredAll(p);
    }
  }

  /** Every run of the kind is shorter than the address space. */
  ghost predicate RunsFit(rs: seq<Region>, kind: nat) {
    forall r :: r in Runs(rs) && r.kind == kind ==> r.length < TWO_64
  }

  lemma {:induction false} LostNothingIffFit(runs: seq<Region>, kind: nat)
    ensures Lost(runs, kind) == 0 <==> forall r :: r in runs && r.kind == kind ==> r.length < TWO_64
  {
    if runs == [] {
    } else {
      var p, r := runs[..|runs| - 1], runs[|runs| - 1];
      LostNothingIffFit(p, kind);
      assert runs == p + [r];
    }
  }

  /** The merged map covers every address with every kind exactly as often as the descriptors do,
      and holds as many bytes of that kind, if and only if no run of that kind fills the address space. */
  lemma MergePreservesCoverage(rs: seq<Region>, kind: nat)
    ensures RunsFit(rs, kind) <==> forall a: U64 :: Cover(Merge(rs), kind, a) == Cover(rs, kind, a)
    ensures RunsFit(rs, kind) <==> Held(Merge(rs), kind) == Held(rs, kind)
  {
    var runs := Runs(rs);
    MergeStoresRuns(rs);
    LostNothingIffFit(runs, kind);
    forall a: U64
      ensures Cover(rs, kind, a) == Cover(Merge(rs), kind, a) + Lost(runs, kind)
      ensures Held(rs, kind) == Held(Merge(rs), kind) + TWO_64 * Lost(runs, kind)
    {
      RunsCoverTheSame(rs, kind, a);
      StoringLoses(runs, kind, a);
    }
    var zero: U64 := 0;
    assert Cover(rs, kind, zero) == Cover(Merge(rs), kind, zero) + Lost(runs, kind);
  }

  /** Two usable halves of the address space, stored as one entry of length zero: the condition is not vacuous. */
  lemma FullAddressSpaceIsLost()
    ensures var half := TWO_64 / 2;
            var rs := [Region(0, half, USABLE), Region(half, half, USABLE)];
            Merge(rs) == [Region(0, 0, USABLE)] && Cover(rs, USABLE, 0) == 1 && Cover(Merge(rs), USABLE, 0) == 0
  {
    hide Merge, Cover, Step;
    var half := TWO_64 / 2;
    var low, high, none := Region(0, half, USABLE), Region(half, half, USABLE), Region(0, 0, USABLE);
    assert [] + [low] == [low] && [low] + [high] == [low, high] && [] + [none] == [none];
    MergeNothing();
    MergeSnoc([], low); MergeSnoc([low], high);
    StepOnWords([], low); StepOnWords([low], high);
    assert Step([low], high) == [low][0 := none];
    CoverSnoc([], low, USABLE, 0); CoverSnoc([low], high, USABLE, 0); CoverSnoc([], none, USABLE, 0);
    HitsIsMembership(low, 0); HitsIsMembership(high, 0); HitsIsMembership(none, 0);
  }

  lemma MergeNothing()
    ensures Merge([]) == [] && forall kind: nat, a: U64 :: Cover([], kind, a) == 0
  {
  }

  // ---------- sorted maps ----------

  /** Regions in address order and without overlap; the last may end at the very top of the address space. */
  predicate SortedDisjoint(rs: seq<Region>) {
    && (forall i :: 0 <= i < |rs| ==> rs[i].base + rs[i].length <= TWO_64)
    && forall i, j :: 0 <= i < j < |rs| ==> rs[i].base + rs[i].length <= rs[j].base
  }

  /** The address just past the last region, unwrapped. */
  function Top(rs: seq<Region>): nat {
    if rs == [] then 0 else rs[|rs| - 1].base + rs[|rs| - 1].length
  }

  /** Where the last chain of neighbours of one kind begins. */
  function ChainBase(rs: seq<Region>): U64
    requires rs != []
  {
    var n := |rs| - 1;
    if n > 0 && rs[n].kind == rs[n - 1].kind && rs[n].base == rs[n - 1].base + rs[n - 1].length
    then ChainBase(rs[..n]) else rs[n].base
  }

  /** The map ends in a chain of the kind over the whole address space. */
  predicate Fills(rs: seq<Region>, kind: nat) {
    rs != [] && rs[|rs| - 1].kind == kind && ChainBase(rs) == 0 && Top(rs) == TWO_64
  }

  lemma SortedPrefix(rs: seq<Region>)
    requires SortedDisjoint(rs) && rs != []
    ensures SortedDisjoint(rs[..|rs| - 1])
    ensures Top(rs[..|rs| - 1]) <= rs[|rs| - 1].base && rs[|rs| - 1].base + rs[|rs| - 1].length <= TWO_64
  {
  }

  lemma IdealStepSorts(out: seq<Region>, r: Region)
    requires SortedDisjoint(out) && Top(out) <= r.base && r.base + r.length <= TWO_64
    ensures SortedDisjoint(IdealStep(out, r)) && IdealStep(out, r) != [] && Top(IdealStep(out, r)) == r.base + r.length
  {
  }

  /** The runs of a sorted map are sorted, and the last of them is its last chain. */
  lemma {:induction false} RunsOfSorted(rs: seq<Region>)
    requires SortedDisjoint(rs)
    ensures SortedDisjoint(Runs(rs))
    ensures rs == [] ==> Runs(rs) == []
    ensures rs != [] ==> Runs(rs) != [] && EndsIn(Runs(rs), ChainBase(rs), Top(rs), rs[|rs| - 1].kind)
  {
    if rs == [] {
    } else {
      hide SortedDisjoint, IdealStep;
      var p, r := rs[..|rs| - 1], rs[|rs| - 1];
      SortedPrefix(rs);
      RunsOfSorted(p);
      IdealStepSorts(Runs(p), r);
      ChainStep(rs);
    }
  }

  predicate EndsIn(runs: seq<Region>, base: nat, top: nat, kind: nat)
    requires runs != []
  {
    var last := runs[|runs| - 1];
    last.base == base && last.base + last.length == top && last.kind == kind
  }

  lemma ChainStep(rs: seq<Region>)
    requires rs != [] && Top(rs[..|rs| - 1]) <= rs[|rs| - 1].base
    requires var p := rs[..|rs| - 1];
      if p == [] then Runs(p) == [] else Runs(p) != [] && EndsIn(Runs(p), ChainBase(p), Top(p), p[|p| - 1].kind)
    ensures Runs(rs) != [] && EndsIn(Runs(rs), ChainBase(rs), Top(rs), rs[|rs| - 1].kind)
  {
  }

  /** A run over the whole address space is the last one. */
  lemma FullRun(rs: seq<Region>, kind: nat)
    requires SortedDisjoint(rs)
    ensures RunsFit(rs, kind) <==> !Fills(rs, kind)
  {
    hide Runs, ChainBase;
    RunsOfSorted(rs);
    var runs := Runs(rs);
    forall r | r in runs && r.length >= TWO_64
      ensures r == runs[|runs| - 1]
    {
      var i :| 0 <= i < |runs| && runs[i] == r;
      assert i == |runs| - 1;
    }
  }

  lemma ShorterStaysSorted(rs: seq<Region>)
    requires SortedDisjoint(rs)
    ensures SortedDisjoint(StoredAll(rs))
  {
  }

  /** A sorted map without overlaps stays one. It loses nothing of a kind exactly when it does not end in one run of
      that kind over the whole address space. */
  lemma SortedStaysSorted(rs: seq<Region>, kind: nat)
    requires SortedDisjoint(rs)
    ensures SortedDisjoint(Merge(rs))
    ensures !Fills(rs, kind) <==> forall a: U64 :: Cover(Merge(rs), kind, a) == Cover(rs, kind, a)
    ensures !Fills(rs, kind) <==> Held(Merge(rs), kind) == Held(rs, kind)
  {
    hide Runs, Merge, RunsFit, Fills, SortedDisjoint;
    RunsOfSorted(rs);
    MergeStoresRuns(rs);
    ShorterStaysSorted(Runs(rs));
    FullRun(rs, kind);
    MergePreservesCoverage(rs, kind);
  }

  // ---------- the two protocols ----------

  function Renamed(kind: nat): nat {
    if kind == STIVALE_KERNEL then STIVALE2_KERNEL else kind
  }

  function RenamedAll(rs: seq<Region>): (out: seq<Region>)
    ensures |out| == |rs|
    ensures forall i :: 0 <= i < |rs| ==> out[i] == rs[i].(kind := Renamed(rs[i].kind))
  {
    seq(|rs|, i requires 0 <= i < |rs| => rs[i].(kind := Renamed(rs[i].kind)))
  }

  lemma {:induction false} MergeCommutesWithRenaming(out: seq<Region>, rs: seq<Region>)
    requires forall r :: r in out + rs ==> r.kind != STIVALE2_KERNEL
    ensures MergeFrom(RenamedAll(out), RenamedAll(rs)) == RenamedAll(MergeFrom(out, rs))
    decreases |rs|
  {
    if rs == [] {
    } else {
      var r := rs[0];
      assert r in out + rs;
      var n := |out|;
      if n > 0 {
        assert out[n - 1] in out + rs;
      }
      assert RenamedAll(rs)[1..] == RenamedAll(rs[1..]);
      assert Step(RenamedAll(out), RenamedAll(rs)[0]) == RenamedAll(Step(out, r));
      forall x | x in Step(out, r) + rs[1..]
        ensures x.kind != STIVALE2_KERNEL
      {
        if x in Step(out, r) {
          StepKinds(out, r, x);
        } else {
          assert x in rs;
        }
      }
      MergeCommutesWithRenaming(Step(out, r), rs[1..]);
    }
  }

  lemma StepKinds(out: seq<Region>, r: Region, x: Region)
    requires x in Step(out, r)
    ensures x.kind == r.kind || exists y :: y in out && y.kind == x.kind
  {
    var n := |out|;
    if n > 0 && Adjoins(out[n - 1], r) {
      assert out[n - 1] in out;
      assert Step(out, r) == out[..n - 1] + [out[n - 1].(length := (out[n - 1].length + r.length) % TWO_64)];
      if x in out[..n - 1] {
        assert x in out;
      }
    }
  }

  /** The descriptors as the loop sees them, with the true length the firmware means. */
  function Retyped(ds: seq<Descriptor>, table: TypeTable, kernelType: U32): (rs: seq<Region>)
    ensures |rs| == |ds|
    ensures forall i :: 0 <= i < |ds| ==>
      rs[i] == Region(ds[i].start, ds[i].pages * EFI_PAGE_SIZE, KindOf(table, kernelType, ds[i].ty))
  {
    seq(|ds|, i requires 0 <= i < |ds| =>
      Region(ds[i].start, ds[i].pages * EFI_PAGE_SIZE, KindOf(table, kernelType, ds[i].ty)))
  }

  /** How often the descriptors whose type is wanted cover the address, and how many bytes they hold. */
  function Covering(ds: seq<Descriptor>, wanted: U32 -> bool, a: U64): nat {
    if ds == [] then 0 else
      Covering(ds[..|ds| - 1], wanted, a) +
      (var d := ds[|ds| - 1]; if wanted(d.ty) then Hits(d.start, d.pages * EFI_PAGE_SIZE, a) else 0)
  }

  function Holding(ds: seq<Descriptor>, wanted: U32 -> bool): nat {
    if ds == [] then 0 else
      Holding(ds[..|ds| - 1], wanted) +
      (var d := ds[|ds| - 1]; if wanted(d.ty) then d.pages * EFI_PAGE_SIZE else 0)
  }

  /** The firmware types that are handed over as the kind. */
  function TypesGiven(table: TypeTable, kernelType: U32, kind: nat): U32 -> bool {
    (ty: U32) => Gives(table, kernelType, ty, kind)
  }

  lemma {:induction false} RetypedCovers(ds: seq<Descriptor>, table: TypeTable, kernelType: U32, kind: nat, a: U64)
    ensures var rs, wanted := Retyped(ds, table, kernelType), TypesGiven(table, kernelType, kind);
      Cover(rs, kind, a) == Covering(ds, wanted, a) && Held(rs, kind) == Holding(ds, wanted)
  {
    hide Hits, KindOf, Gives;
    var rs := Retyped(ds, table, kernelType);
    if ds == [] {
    } else {
      var p, d := ds[..|ds| - 1], ds[|ds| - 1];
      RetypedCovers(p, table, kernelType, kind, a);
      assert rs[..|ds| - 1] == Retyped(p, table, kernelType);
      KindsExactly(table, kernelType, d.ty, kind);
    }
  }

  /** From the firmware's map to the kernel's: the entries of a kind cover every address as often as the descriptors
      of the types meant for it, and hold as many bytes, if and only if no run of the kind fills the address space. */
  lemma HandedOver(ds: seq<Descriptor>, table: TypeTable, kernelType: U32, kind: nat)
    ensures var rs, wanted := Retyped(ds, table, kernelType), TypesGiven(table, kernelType, kind);
      && (RunsFit(rs, kind) <==> forall a: U64 :: Cover(Merge(rs), kind, a) == Covering(ds, wanted, a))
      && (RunsFit(rs, kind) <==> Held(Merge(rs), kind) == Holding(ds, wanted))
  {
    hide Hits, Gives, Merge, RunsFit;
    var rs := Retyped(ds, table, kernelType);
    MergePreservesCoverage(rs, kind);
    forall a: U64
      ensures Cover(rs, kind, a) == Covering(ds, TypesGiven(table, kernelType, kind), a)
      ensures Held(rs, kind) == Holding(ds, TypesGiven(table, kernelType, kind))
    {
      RetypedCovers(ds, table, kernelType, kind, a);
    }
    var zero: U64 := 0;
    assert Cover(rs, kind, zero) == Covering(ds, TypesGiven(table, kernelType, kind), zero);
  }

  /** Whether the two type tables agree, up to the name of the kernel type. */
  predicate TablesAgree(pastEnd: nat, kernelType: U32, ty: U32) {
    ty != EFI_PERSISTENT_MEMORY || ty == kernelType || pastEnd == RESERVED
  }

  lemma TablesAgreeExactly(pastEnd: nat, kernelType: U32, ty: U32)
    ensures TablesAgree(pastEnd, kernelType, ty)
       <==> KindOf(Stivale2, kernelType, ty) == Renamed(KindOf(Stivale(pastEnd), kernelType, ty))
  {
  }

  /** Both loaders hand over the same entries, except that stivale2 numbers the kernel type differently. */
  lemma ProtocolsAgree(ds: seq<Descriptor>, pastEnd: nat, kernelType: U32)
    requires forall d :: d in ds ==> TablesAgree(pastEnd, kernelType, d.ty)
    ensures Merge(Retyped(ds, Stivale2, kernelType)) == RenamedAll(Merge(Retyped(ds, Stivale(pastEnd), kernelType)))
  {
    var rs := Retyped(ds, Stivale(pastEnd), kernelType);
    forall i | 0 <= i < |ds|
      ensures Retyped(ds, Stivale2, kernelType)[i] == RenamedAll(rs)[i]
    {
      assert ds[i] in ds;
      TablesAgreeExactly(pastEnd, kernelType, ds[i].ty);
    }
    assert Retyped(ds, Stivale2, kernelType) == RenamedAll(rs);
    forall r | r in [] + rs
      ensures r.kind != STIVALE2_KERNEL
    {
      var i :| 0 <= i < |rs| && rs[i] == r;
      assert ds[i] in ds;
    }
    assert RenamedAll([]) == [];
    MergeCommutesWithRenaming([], rs);
  }
}
