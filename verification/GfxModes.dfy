/** The cyclic search through the graphics modes. */
module GfxModes {
  import opened Bytes

  /** What QueryMode tells of a mode: whether its pixel format is the supported one, and its resolution. */
  datatype Mode = Mode(supported: bool, width: U32, height: U32)

  type Modes = seq<Mode>

  predicate Supported(ms: Modes, i: int) {
    0 <= i < |ms| && ms[i].supported
  }

  /** Going up from a and round at the end, index j comes before b. With a == b that is every other index. */
  predicate Between(a: int, j: int, b: int) {
    if a < b then a < j < b else j > a || j < b
  }

  ghost predicate NoneBetween(ms: Modes, a: int, b: int) {
    forall j :: Supported(ms, j) && Between(a, j, b) ==> false
  }

  /** The next supported index after a, or a itself when there is no other. */
  ghost predicate IsNext(ms: Modes, a: int, r: int) {
    0 <= r < |ms| && NoneBetween(ms, a, r) && (Supported(ms, r) || r == a)
  }

  ghost predicate IsPrev(ms: Modes, a: int, r: int) {
    0 <= r < |ms| && NoneBetween(ms, r, a) && (Supported(ms, r) || r == a)
  }

  /** GetModeCommon. It is entered with an index in range or, going up, with -1; then some mode must be supported,
      because the loop would never meet its starting point again. */
  method GetModeCommon(ms: Modes, start: int, dir: int) returns (r: int)
    requires dir == 1 || dir == -1
    requires 0 <= start < |ms| || (start == -1 && dir == 1 && exists i :: Supported(ms, i))
    ensures dir == 1 ==> IsNext(ms, start, r)
    ensures dir == -1 ==> IsPrev(ms, start, r)
  {
    r := start;
    ghost var left := if start == -1 then |ms| else |ms| - 1;
    while true
      invariant r == start || 0 <= r < |ms|
      invariant dir == 1 && r != start ==> NoneBetween(ms, start, r) && !Supported(ms, r)
      invariant dir == -1 && r != start ==> NoneBetween(ms, r, start) && !Supported(ms, r)
      invariant r == start ==> left == if start == -1 then |ms| else |ms| - 1
      invariant r != start && dir == 1 ==>
        left == if r < start then start - r - 1 else (if start == -1 then |ms| else start + |ms|) - r - 1
      invariant r != start && dir == -1 ==> left == if r > start then r - start - 1 else r + |ms| - start - 1
      decreases left
    {
      ghost var before := r;
      r := r + dir;
      if dir == -1 {
        if r < 0 {
          r := |ms| - 1;
        }
      } else if r >= |ms| {
        r := 0;
      }
      if r == start {
        break;
      }
      if ms[r].supported {
        break;
      }
      left := left - 1;
    }
  }

  method GetNextGfxMode(ms: Modes, current: int) returns (r: int)
    requires 0 <= current < |ms| || (current == -1 && exists i :: Supported(ms, i))
    ensures IsNext(ms, current, r)
  {
    r := GetModeCommon(ms, current, 1);
  }

  method GetPrevGfxMode(ms: Modes, current: int) returns (r: int)
    requires 0 <= current < |ms|
    ensures IsPrev(ms, current, r)
  {
    r := GetModeCommon(ms, current, -1);
  }

  method GetFirstGfxMode(ms: Modes) returns (r: int)
    requires exists i :: Supported(ms, i)
    ensures Supported(ms, r) && forall j :: Supported(ms, j) ==> r <= j
  {
    r := GetNextGfxMode(ms, -1);
  }

  // ---------- the cycle ----------

  lemma NextIsUnique(ms: Modes, a: int, r: int, r': int)
    requires IsNext(ms, a, r) && IsNext(ms, a, r')
    ensures r == r'
  {
    assert Supported(ms, r) ==> !Between(a, r, r');
    assert Supported(ms, r') ==> !Between(a, r', r);
  }

  lemma PrevIsUnique(ms: Modes, a: int, r: int, r': int)
    requires 0 <= a < |ms| && IsPrev(ms, a, r) && IsPrev(ms, a, r')
    ensures r == r'
  {
    assert Supported(ms, r) ==> !Between(r', r, a);
    assert Supported(ms, r') ==> !Between(r, r', a);
  }

  /** On supported modes next and previous undo each other. */
  lemma NextAndPrevAreInverse(ms: Modes, a: int, b: int, c: int)
    requires Supported(ms, a)
    ensures IsNext(ms, a, b) && IsPrev(ms, b, c) ==> c == a
    ensures IsPrev(ms, a, b) && IsNext(ms, b, c) ==> c == a
  {
    if IsNext(ms, a, b) && IsPrev(ms, b, c) {
      PrevIsUnique(ms, b, a, c);
    }
    if IsPrev(ms, a, b) && IsNext(ms, b, c) {
      NextIsUnique(ms, b, a, c);
    }
  }

  /** The supported indices in order. */
  function SupportedList(ms: Modes): (s: seq<int>)
    ensures forall i, j :: 0 <= i < j < |s| ==> s[i] < s[j]
    ensures forall x :: x in s <==> Supported(ms, x)
  {
    if ms == [] then [] else
      var n := |ms| - 1;
      assert forall x :: Supported(ms, x) <==> Supported(ms[..n], x) || (x == n && ms[n].supported);
      var below := SupportedList(ms[..n]);
      assert forall i :: 0 <= i < |below| ==> below[i] in below;
      below + if ms[n].supported then [n] else []
  }

  /** Next takes each supported index to the one after it in the list, and the last to the first. */
  lemma NextInList(ms: Modes, i: nat, r: int)
    requires i < |SupportedList(ms)|
    requires IsNext(ms, SupportedList(ms)[i], r)
    ensures var s := SupportedList(ms); r == if i + 1 < |s| then s[i + 1] else s[0]
  {
    var s := SupportedList(ms);
    var t := if i + 1 < |s| then s[i + 1] else s[0];
    assert t in s && s[i] in s;
    forall k | 0 <= k < |s|
      ensures !Between(s[i], s[k], t)
    {
    }
    assert NoneBetween(ms, s[i], t) by {
      assert forall j :: Supported(ms, j) ==> j in s;
    }
    NextIsUnique(ms, s[i], r, t);
  }

  /** A walk from the first supported mode, one GetNextGfxMode after the other. */
  ghost predicate IsTour(ms: Modes, tour: seq<int>) {
    && tour != [] && Supported(ms, tour[0]) && (forall j :: Supported(ms, j) ==> tour[0] <= j)
    && forall k :: 0 < k < |tour| ==> IsNext(ms, tour[k - 1], tour[k])
  }

  /** The walk goes through the supported modes in order, over and over: every supported mode comes up exactly
      once per turn. */
  lemma {:induction false} TourVisitsAll(ms: Modes, tour: seq<int>, k: nat)
    requires IsTour(ms, tour) && k < |tour|
    ensures var s := SupportedList(ms); s != [] && tour[k] == s[k % |s|]
    decreases k
  {
    hide IsNext, Supported;
    if k == 0 {
      TourStarts(ms, tour);
    } else {
      TourVisitsAll(ms, tour, k - 1);
      var s := SupportedList(ms);
      var i := (k - 1) % |s|;
      NextTurn(k - 1, |s|);
      assert IsNext(ms, s[i], tour[k]);
      NextInList(ms, i, tour[k]);
    }
  }

  lemma TourStarts(ms: Modes, tour: seq<int>)
    requires IsTour(ms, tour)
    ensures var s := SupportedList(ms); s != [] && tour[0] == s[0]
  {
    var s := SupportedList(ms);
    assert tour[0] in s;
    var i :| 0 <= i < |s| && s[i] == tour[0];
    assert s[0] in s;
  }

  lemma NextTurn(k: nat, n: nat)
    requires n > 0
    ensures (k + 1) % n == if k % n + 1 < n then k % n + 1 else 0
  {
    var q, r := k / n, k % n;
    assert k == n * q + r && n * (q + 1) == n * q + n;
    if r + 1 < n {
      ByQuotient(k + 1, n, q, r + 1);
    } else {
      ByQuotient(k + 1, n, q + 1, 0);
    }
  }

  // ---------- the best mode ----------

  predicate Exact(m: Mode, width: U32, height: U32) {
    m.supported && m.height == height && m.width == width
  }

  predicate TooBig(m: Mode, width: U32, height: U32) {
    m.height > height && m.width > width
  }

  /** GetBestGfxMode: the first exact match if there is one. Otherwise some supported mode that is not larger in
      both directions; the result is unset exactly when there is no such mode. */
  method GetBestGfxMode(ms: Modes, width: U32, height: U32) returns (r: Option<nat>)
    ensures (exists i :: 0 <= i < |ms| && Exact(ms[i], width, height)) ==>
      r.Some? && r.value < |ms| && Exact(ms[r.value], width, height)
      && forall j :: 0 <= j < r.value ==> !Exact(ms[j], width, height)
    ensures r.None? <==> forall i :: 0 <= i < |ms| ==> !ms[i].supported || TooBig(ms[i], width, height)
    ensures r.Some? ==> r.value < |ms| && ms[r.value].supported && !TooBig(ms[r.value], width, height)
  {
    r := None;
    var bestWidth, bestHeight := 0, 0;
    for i := 0 to |ms|
      invariant r.None? ==> bestWidth == 0 && bestHeight == 0
      invariant r.None? <==> forall j :: 0 <= j < i ==> !ms[j].supported || TooBig(ms[j], width, height)
      invariant r.Some? ==> r.value < i && ms[r.value].supported && !TooBig(ms[r.value], width, height)
      invariant forall j :: 0 <= j < i ==> !Exact(ms[j], width, height)
    {
      var m := ms[i];
      if !m.supported { continue; }
      if m.height == height && m.width == width { return Some(i); }
      if (m.height > height && m.width > width) || (m.height < bestHeight && m.width < bestWidth) { continue; }
      bestWidth, bestHeight := m.width, m.height;
      r := Some(i);
    }
  }
}
