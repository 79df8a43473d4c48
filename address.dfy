/** Address decoding: the bit-field arithmetic of the simulator (part2.c:13-25, 107-108, 145).
    C's `&` and `|` are modelled bit by bit on the two's complement pattern of an `int`,
    and the lemmas below prove that each mask is a remainder and each `|` a sum. The shifts
    are modelled as multiplication and division by 2^10: `<<` of a frame that stays inside
    a positive `int`, and `>>` as the arithmetic shift, which rounds down. */
module Address {

  const TLB_SIZE: int := 16
  const PAGES: int := 1024
  const FRAMES: int := 256
  const PAGE_SIZE: int := 1024
  const OFFSET_BITS: nat := 10
  const PAGE_MASK: nat := 1023
  const OFFSET_MASK: nat := 1023
  const MEMORY_SIZE: int := PAGES * PAGE_SIZE

  /** A C `int`: the type of every address the simulator reads. */
  newtype Int32 = x: int | -0x8000_0000 <= x < 0x8000_0000

  /** A C `signed char`: the type of every byte of memory. */
  newtype Int8 = x: int | -128 <= x < 128

  function Pow2(k: nat): (r: nat)
    ensures r >= 1
  {
    if k == 0 then 1 else 2 * Pow2(k - 1)
  }

  /** The two's complement bit pattern of a C `int`, read as an unsigned number. */
  function Bits(a: int): nat {
    a % 0x1_0000_0000
  }

  /** Bitwise and of two bit patterns, one bit at a time from the least significant. */
  function BitAnd(a: nat, b: nat): nat
    decreases a
  {
    if a == 0 || b == 0 then 0
    else 2 * BitAnd(a / 2, b / 2) + (if a % 2 == 1 && b % 2 == 1 then 1 else 0)
  }

  /** Bitwise or of two bit patterns. */
  function BitOr(a: nat, b: nat): nat
    decreases a + b
  {
    if a == 0 then b
    else if b == 0 then a
    else 2 * BitOr(a / 2, b / 2) + (if a % 2 == 1 || b % 2 == 1 then 1 else 0)
  }

  /** `logical_address & OFFSET_MASK` */
  function Offset(a: Int32): (offset: int)
    ensures offset == a as int % PAGE_SIZE
  {
    MaskIsMod(Bits(a as int), OFFSET_BITS);
    BitsLow(a as int);
    BitAnd(Bits(a as int), OFFSET_MASK)
  }

  /** `(logical_address >> OFFSET_BITS) & PAGE_MASK`, with `>>` shifting in copies of the
      sign bit as the usual C compilers do; the mask keeps bits 10..19 only, so a shift that
      brought in zeros would give the same page. */
  function Page(a: Int32): (page: int)
    ensures page == (a as int / PAGE_SIZE) % PAGES
  {
    var shifted := a as int / Pow2(OFFSET_BITS);
    MaskIsMod(Bits(shifted), OFFSET_BITS);
    BitsLow(shifted);
    BitAnd(Bits(shifted), PAGE_MASK)
  }

  /** `(physical_page << OFFSET_BITS) | offset`, for a frame small enough that the shift
      stays inside a positive `int`: the frame number followed by the offset bits. */
  function PhysicalAddress(frame: int, offset: int): (r: int)
    requires 0 <= frame < 0x20_0000 && 0 <= offset < PAGE_SIZE
    ensures r == frame * PAGE_SIZE + offset
  {
    OrIsAdd(frame, offset, OFFSET_BITS);
    BitOr(frame * Pow2(OFFSET_BITS), offset)
  }

  /** `max` of part2.c:198-201. */
  function Max(a: int, b: int): (r: int)
    ensures r >= a && r >= b
    ensures r == a || r == b
  {
    if a > b then a else b
  }

  /** Euclidean division is unique: any quotient and in-range remainder are the ones. */
  lemma DivModUnique(a: int, d: int, q: int, r: int)
    requires d > 0 && 0 <= r < d && a == d * q + r
    ensures a / d == q && a % d == r
  {
    MulStep(d, q, a / d);
    MulStep(d, a / d, q);
  }

  lemma MulStep(d: int, x: int, y: int)
    requires d > 0
    ensures x < y ==> d * x + d <= d * y
  {
    if x < y {
      MulAtLeast(d, y - x);
      assert d * (y - x) == d * y - d * x;
    }
  }

  lemma MulAtLeast(d: int, x: int)
    requires d > 0 && x >= 1
    ensures d * x >= d
  {
  }

  /** Halving then reducing modulo m, and reattaching the low bit, is reducing modulo 2m. */
  lemma ModDouble(a: nat, m: nat)
    requires m >= 1
    ensures 2 * ((a / 2) % m) + a % 2 == a % (2 * m)
  {
    var q, b := a / 2, a % 2;
    var s, t := q / m, q % m;
    assert q == m * s + t;
    assert a == (2 * m) * s + (2 * t + b);
    DivModUnique(a, 2 * m, s, 2 * t + b);
  }

  /** Reading the 32-bit pattern of an `int` does not change its low ten bits. */
  lemma BitsLow(a: int)
    ensures Bits(a) % 1024 == a % 1024
  {
    var b := Bits(a);
    assert a == 0x1_0000_0000 * (a / 0x1_0000_0000) + b;
    DivModUnique(a, 1024, 0x40_0000 * (a / 0x1_0000_0000) + b / 1024, b % 1024);
  }

  /** And-ing with an odd mask keeps the low bit and and-s the rest one position down. */
  lemma BitAndOdd(a: nat, m: nat)
    requires a > 0 && m % 2 == 1
    ensures BitAnd(a, m) == 2 * BitAnd(a / 2, m / 2) + a % 2
  {
  }

  /** Masking with k one-bits keeps the value modulo 2^k. */
  lemma {:induction false} MaskIsMod(a: nat, k: nat)
    ensures BitAnd(a, Pow2(k) - 1) == a % Pow2(k)
  {
    if k == 0 {
      assert Pow2(k) - 1 == 0 && a % Pow2(k) == 0;
    } else if a == 0 {
      assert 0 % Pow2(k) == 0;
    } else {
      var p := Pow2(k - 1);
      var m := Pow2(k) - 1;
      assert m == 2 * p - 1 && m % 2 == 1 && m / 2 == p - 1;
      calc {
        BitAnd(a, m);
      == { BitAndOdd(a, m); }
        2 * BitAnd(a / 2, p - 1) + a % 2;
      == { MaskIsMod(a / 2, k - 1); }
        2 * ((a / 2) % p) + a % 2;
      == { ModDouble(a, p); }
        a % (2 * p);
      }
    }
  }

  /** Or-ing bits below position k into a number shifted left by k adds them. */
  lemma {:induction false} OrIsAdd(m: nat, o: nat, k: nat)
    requires o < Pow2(k)
    ensures BitOr(m * Pow2(k), o) == m * Pow2(k) + o
  {
    if k > 0 && m > 0 && o > 0 {
      var p := Pow2(k - 1);
      var x := m * Pow2(k);
      assert x == 2 * (m * p);
      assert x / 2 == m * p && x % 2 == 0;
      OrIsAdd(m, o / 2, k - 1);
      assert BitOr(x, o) == 2 * BitOr(m * p, o / 2) + o % 2;
    }
  }

  /** Truncation law: reassembling page and offset gives the address modulo 2^20, for
      negative addresses too; an address at or beyond the 20-bit space aliases a lower
      page (2^20 itself decodes to page 0, offset 0). */
  lemma DecodeTruncates(a: Int32)
    ensures 0 <= Page(a) < PAGES && 0 <= Offset(a) < PAGE_SIZE
    ensures Page(a) * PAGE_SIZE + Offset(a) == a as int % MEMORY_SIZE
  {
    var n := a as int;
    var q1, o := n / 1024, n % 1024;
    var q2, p := q1 / 1024, q1 % 1024;
    assert n == 1024 * q1 + o && q1 == 1024 * q2 + p;
    assert n == MEMORY_SIZE * q2 + (p * 1024 + o);
    DivModUnique(n, MEMORY_SIZE, q2, p * 1024 + o);
  }

  /** Decoding a physical address gives back its frame and offset. */
  lemma PhysicalAddressDecodes(frame: int, offset: int)
    requires 0 <= frame < PAGES && 0 <= offset < PAGE_SIZE
    ensures var r := PhysicalAddress(frame, offset);
            Page(r as Int32) == frame && Offset(r as Int32) == offset
  {
    var r := PhysicalAddress(frame, offset);
    assert r == frame * PAGE_SIZE + offset;
    DivModUnique(r, PAGE_SIZE, frame, offset);
    DivModUnique(frame, PAGES, 0, frame);
    assert Page(r as Int32) == (r / PAGE_SIZE) % PAGES;
  }
}
