/** Physical memory as bytes, and the firmware's page allocator. */
module Machine {
  import opened Bytes
  import opened MemoryMap

  type Memory = nat -> Byte

  /** The n bytes from address a on. */
  function Slice(m: Memory, a: nat, n: nat): (bs: seq<Byte>)
    ensures |bs| == n
    ensures forall i :: 0 <= i < n ==> bs[i] == m(a + i)
  {
    seq(n, i requires 0 <= i < n => m(a + i))
  }

  /** Memory after the bytes bs have been written from address a on. */
  function Written(m: Memory, a: nat, bs: seq<Byte>): (m': Memory) {
    (x: nat) => if a <= x < a + |bs| then bs[x - a] else m(x)
  }

  function ReadWord(m: Memory, a: nat): U64 {
    PowersOf256(); FromLEBound(Slice(m, a, 8));
    FromLE(Slice(m, a, 8))
  }

  predicate SameBytes(m: Memory, m': Memory, a: nat, n: nat) {
    forall x: nat :: a <= x < a + n ==> m(x) == m'(x)
  }

  lemma ReadSame(m: Memory, m': Memory, a: nat)
    requires SameBytes(m, m', a, 8)
    ensures ReadWord(m, a) == ReadWord(m', a)
  {
    assert Slice(m, a, 8) == Slice(m', a, 8);
  }

  lemma ReadWritten(m: Memory, a: nat, w: U64)
    ensures ReadWord(Written(m, a, ToLE(w, 8)), a) == w
  {
    FromToLE64(w);
    assert Slice(Written(m, a, ToLE(w, 8)), a, 8) == ToLE(w, 8);
  }

  lemma ReadElsewhere(m: Memory, a: nat, bs: seq<Byte>, b: nat)
    requires b + 8 <= a || a + |bs| <= b
    ensures ReadWord(Written(m, a, bs), b) == ReadWord(m, b)
  {
    ReadSame(m, Written(m, a, bs), b);
  }

  lemma ReadZeroed(m: Memory, a: nat, n: nat, b: nat)
    requires a <= b && b + 8 <= a + n
    ensures ReadWord(Written(m, a, seq(n, _ => 0)), b) == 0
  {
    assert Slice(Written(m, a, seq(n, _ => 0)), b, 8) == seq(8, _ => 0);
    ZerosAreZero(8);
  }

  lemma {:induction false} ZerosAreZero(n: nat)
    ensures FromLE(seq(n, _ => 0)) == 0
  {
    if n == 0 {
    } else {
      ZerosAreZero(n - 1);
      assert seq(n, _ => 0)[1..] == seq(n - 1, _ => 0);
    }
  }

  /** The page numbers from lo to hi. */
  function PageRange(lo: nat, hi: int): (pages: set<nat>)
    ensures forall p: nat :: p in pages <==> lo <= p <= hi
    decreases hi - lo
  {
    if lo > hi then {} else {lo} + PageRange(lo + 1, hi)
  }

  /** Whether the page of the address is among the pages. */
  predicate InPages(pages: set<nat>, x: nat) {
    x / EFI_PAGE_SIZE in pages
  }

  /** The numbers of the pages that n pages of memory from address base on touch. */
  function PagesOf(base: nat, n: nat): (pages: set<nat>)
    ensures forall x: nat :: base <= x < base + n * EFI_PAGE_SIZE ==> InPages(pages, x)
  {
    if n == 0 then {} else PageRange(base / EFI_PAGE_SIZE, (base + n * EFI_PAGE_SIZE - 1) / EFI_PAGE_SIZE)
  }

  /** A page is one of them exactly when it has an address in common with the range. */
  lemma PagesTouched(base: nat, n: nat, page: nat)
    ensures page in PagesOf(base, n) <==> n > 0 && 4096 * page < base + 4096 * n && base < 4096 * (page + 1)
  {
  }

  /** The machine the loaders run on: memory, and the numbers of the pages the firmware still has to give. */
  class Platform {
    var memory: Memory
    var free: set<nat>
    /** Whether the firmware is willing to give n pages from an address on, if they are free. */
    const willing: (nat, nat) -> bool

    constructor (memory: Memory, free: set<nat>, willing: (nat, nat) -> bool)
      ensures this.memory == memory && this.free == free && this.willing == willing
    {
      this.memory := memory;
      this.free := free;
      this.willing := willing;
    }

    /** AllocatePages(AllocateAddress): only pages that are all free can be had. */
    method AllocateAddress(base: nat, n: nat) returns (granted: bool)
      modifies this`free
      ensures granted <==> willing(base, n) && PagesOf(base, n) <= old(free)
      ensures free == if granted then old(free) - PagesOf(base, n) else old(free)
    {
      granted := willing(base, n) && PagesOf(base, n) <= free;
      if granted {
        free := free - PagesOf(base, n);
      }
    }

    /** AllocatePages(1): any free page, by address, or null when there is none. */
    method AllocatePage() returns (page: nat)
      modifies this`free
      ensures page % EFI_PAGE_SIZE == 0
      ensures if old(free) == {} then page == 0 else page / EFI_PAGE_SIZE in old(free)
      ensures free == if old(free) == {} then {} else old(free) - {page / EFI_PAGE_SIZE}
    {
      if free == {} { return 0; }
      var p :| p in free;
      page := p * EFI_PAGE_SIZE;
      free := free - {p};
    }

    method WriteBytes(a: nat, bs: seq<Byte>)
      modifies this`memory
      ensures memory == Written(old(memory), a, bs)
    {
      memory := Written(memory, a, bs);
    }
  }
}
