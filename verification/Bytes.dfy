/** Bytes, fixed-width unsigned words and their little-endian encoding, and the rounding macros of the UEFI headers. */
module Bytes {

  type Byte = b: int | 0 <= b < 0x100
  type U16 = n: int | 0 <= n < 0x1_0000
  type U32 = n: int | 0 <= n < 0x1_0000_0000
  type U64 = n: int | 0 <= n < 0x1_0000_0000_0000_0000

  const TWO_32 := 0x1_0000_0000
  const TWO_64 := 0x1_0000_0000_0000_0000

  datatype Option<+T> = None | Some(value: T)

  lemma SliceOfSlice<T>(s: seq<T>, a: nat, b: nat, i: nat, j: nat)
    requires a <= b <= |s| && i <= j <= b - a
    ensures s[a..b][i..j] == s[a + i..a + j]
  {
    var l, r := s[a..b][i..j], s[a + i..a + j];
    assert forall k :: 0 <= k < j - i ==> l[k] == r[k];
  }

  // ---------- little-endian words ----------

  function Pow256(w: nat): (p: nat)
    ensures p > 0
  {
    if w == 0 then 1 else 256 * Pow256(w - 1)
  }

  /** The number a little-endian byte string stands for. */
  function FromLE(bs: seq<Byte>): nat {
    if bs == [] then 0 else bs[0] + 256 * FromLE(bs[1..])
  }

  /** The low w bytes of n, least significant first. */
  function ToLE(n: nat, w: nat): (bs: seq<Byte>)
    ensures |bs| == w
    decreases w
  {
    if w == 0 then [] else [n % 256] + ToLE(n / 256, w - 1)
  }

  lemma {:induction false} FromToLE(n: nat, w: nat)
    requires n < Pow256(w)
    ensures FromLE(ToLE(n, w)) == n
    decreases w
  {
    if w == 0 {
    } else {
      FromToLE(n / 256, w - 1);
      assert ToLE(n, w)[1..] == ToLE(n / 256, w - 1);
    }
  }

  /** The i-th byte is the digit of weight 256^i. */
  lemma {:induction false} ByteOfLE(n: nat, w: nat, i: nat)
    requires i < w
    ensures ToLE(n, w)[i] == n / Pow256(i) % 256
    decreases i
  {
    if i == 0 {
    } else {
      ByteOfLE(n / 256, w - 1, i - 1);
      assert Pow256(i) == 256 * Pow256(i - 1);
      DivideTwice(n, 256, Pow256(i - 1));
    }
  }

  lemma DivideTwice(n: nat, a: nat, b: nat)
    requires a > 0 && b > 0
    ensures a * b > 0 && n / a / b == n / (a * b)
  {
    var q, r, q', r' := n / a, n % a, n / a / b, n / a % b;
    assert n == a * (b * q' + r') + r;
    assert n == (a * b) * q' + (a * r' + r);
    assert a * r' <= a * (b - 1);
    ByQuotient(n, a * b, q', a * r' + r);
  }

  lemma {:induction false} FromLEBound(bs: seq<Byte>)
    ensures FromLE(bs) < Pow256(|bs|)
  {
    if bs == [] {
    } else {
      FromLEBound(bs[1..]);
    }
  }

  lemma PowersOf256()
    ensures Pow256(1) == 0x100 && Pow256(2) == 0x1_0000 && Pow256(4) == TWO_32 && Pow256(8) == TWO_64
  {
    assert Pow256(2) == 256 * Pow256(1);
    assert Pow256(4) == 256 * Pow256(3) && Pow256(3) == 256 * Pow256(2);
    assert Pow256(6) == 256 * Pow256(5) && Pow256(5) == 256 * Pow256(4);
    assert Pow256(8) == 256 * Pow256(7) && Pow256(7) == 256 * Pow256(6);
  }

  /** The w bytes at offset at, read as a little-endian word. */
  function Word(bs: seq<Byte>, at: nat, w: nat): nat
    requires at + w <= |bs|
  {
    FromLE(bs[at..at + w])
  }

  function U16At(bs: seq<Byte>, at: nat): (n: U16)
    requires at + 2 <= |bs|
  {
    PowersOf256(); FromLEBound(bs[at..at + 2]);
    Word(bs, at, 2)
  }

  function U32At(bs: seq<Byte>, at: nat): (n: U32)
    requires at + 4 <= |bs|
  {
    PowersOf256(); FromLEBound(bs[at..at + 4]);
    Word(bs, at, 4)
  }

  function U64At(bs: seq<Byte>, at: nat): (n: U64)
    requires at + 8 <= |bs|
  {
    PowersOf256(); FromLEBound(bs[at..at + 8]);
    Word(bs, at, 8)
  }

  lemma FromToLE32(n: U32)
    ensures FromLE(ToLE(n, 4)) == n
  {
    PowersOf256(); FromToLE(n, 4);
  }

  lemma FromToLE64(n: U64)
    ensures FromLE(ToLE(n, 8)) == n
  {
    PowersOf256(); FromToLE(n, 8);
  }

  lemma ReadsU32(bs: seq<Byte>, at: nat, n: U32)
    requires at + 4 <= |bs| && bs[at..at + 4] == ToLE(n, 4)
    ensures U32At(bs, at) == n
  {
    FromToLE32(n);
  }

  lemma ReadsU64(bs: seq<Byte>, at: nat, n: U64)
    requires at + 8 <= |bs| && bs[at..at + 8] == ToLE(n, 8)
    ensures U64At(bs, at) == n
  {
    FromToLE64(n);
  }

  // ---------- ALIGN_VALUE ----------

  /** The macro ALIGN_VALUE on a word of modulus m: Value + ((Alignment - Value) & (Alignment - 1)),
      where masking with a power of two less one is the remainder by that power. */
  function AlignValue(value: nat, alignment: nat, m: nat): nat
    requires alignment > 0 && m > 0
  {
    (value + (alignment - value) % m % alignment) % m
  }

  /** Rounding up in unbounded arithmetic. */
  function RoundUp(value: nat, alignment: nat): nat
    requires alignment > 0
  {
    (value + alignment - 1) / alignment * alignment
  }

  /** ALIGN_VALUE rounds up to the next multiple of the alignment, except that a value whose rounding
      does not fit the word comes back as zero. */
  lemma AlignValueRoundsUp(value: nat, alignment: nat, m: nat)
    requires alignment > 0 && m % alignment == 0
    requires value < m
    ensures AlignValue(value, alignment, m) == if value <= m - alignment then RoundUp(value, alignment) else 0
  {
    RoundUpByGap(value, alignment);
    var gap := if value % alignment == 0 then 0 else alignment - value % alignment;
    GapByMask(value, alignment, m);
    assert (alignment - value) % m % alignment == gap;
    RoundUpInWord(value, alignment, m);
  }

  /** RoundUp gives the least multiple of the alignment that is not below the value. */
  lemma RoundUpIsLeast(value: nat, alignment: nat)
    requires alignment > 0
    ensures RoundUp(value, alignment) % alignment == 0
    ensures value <= RoundUp(value, alignment) < value + alignment
  {
    RoundUpByGap(value, alignment);
    ByQuotient(RoundUp(value, alignment), alignment, (value + alignment - 1) / alignment, 0);
  }

  /** Quotient and remainder are the only numbers of their kind. */
  lemma ByQuotient(x: int, a: nat, q: int, r: nat)
    requires a > 0 && x == a * q + r && r < a
    ensures x / a == q && x % a == r
  {
    var q', r' := x / a, x % a;
    assert x == a * q' + r';
    assert a * (q + 1) == a * q + a && a * (q' + 1) == a * q' + a;
    Cancel(a, q, q' + 1);
    Cancel(a, q', q + 1);
  }

  lemma RoundUpByGap(value: nat, a: nat)
    requires a > 0
    ensures RoundUp(value, a) == value + if value % a == 0 then 0 else a - value % a
  {
    var q, r := value / a, value % a;
    assert value == a * q + r;
    if r == 0 {
      ByQuotient(value + a - 1, a, q, a - 1);
    } else {
      assert a * (q + 1) == a * q + a;
      ByQuotient(value + a - 1, a, q + 1, r - 1);
    }
  }

  lemma GapByMask(value: nat, a: nat, m: nat)
    requires a > 0 && m % a == 0 && value < m
    ensures (a - value) % m % a == if value % a == 0 then 0 else a - value % a
  {
    var q, r, n := value / a, value % a, m / a;
    var t := (a - value) / m;
    assert a - value == m * t + (a - value) % m;
    assert m * t == a * (n * t);
    var k := if r == 0 then 1 - q - n * t else -q - n * t;
    var g := if r == 0 then 0 else a - r;
    assert (a - value) % m == a - (a * q + r) - a * (n * t);
    assert a * k == if r == 0 then a - a * q - a * (n * t) else 0 - a * q - a * (n * t);
    ByQuotient((a - value) % m, a, k, g);
  }

  lemma RoundUpInWord(value: nat, a: nat, m: nat)
    requires a > 0 && m % a == 0 && value < m
    ensures RoundUp(value, a) % m == if value <= m - a then RoundUp(value, a) else 0
  {
    RoundUpByGap(value, a);
    Exact(m, a);
    NextMultiple(value, RoundUp(value, a), a, (value + a - 1) / a, m, m / a);
  }

  lemma Exact(m: nat, a: nat)
    requires a > 0 && m % a == 0
    ensures m == a * (m / a)
  {
  }

  lemma NextMultiple(value: nat, up: nat, a: nat, u: int, m: nat, n: int)
    requires value <= up == a * u && up < value + a && value < m == a * n
    ensures up % m == if value <= m - a then up else 0
  {
    if value <= m - a {
      ByQuotient(up, m, 0, up);
    } else {
      assert a * (n - 1) == m - a && a * (n + 1) == m + a;
      Cancel(a, n - 1, u);
      Cancel(a, u, n + 1);
      ByQuotient(m, m, 1, 0);
    }
  }

  lemma Cancel(a: nat, x: int, y: int)
    requires a * x < a * y
    ensures x < y
  {
  }

  // ---------- sums in 64 bits ----------

  lemma WholeTurns(x: int, k: int)
    ensures (x + TWO_64 * k) % TWO_64 == x % TWO_64
  {
  }

  lemma AddInTwo(x: nat, y: nat, z: nat)
    ensures (x % TWO_64 + y) % TWO_64 == (x + y) % TWO_64
    ensures ((x + y) % TWO_64 + z) % TWO_64 == (x + (y + z)) % TWO_64
  {
    WholeTurns(x % TWO_64 + y, x / TWO_64);
    WholeTurns((x + y) % TWO_64 + z, (x + y) / TWO_64);
  }
}
