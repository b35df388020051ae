/** The machine's sizes and words. Words used as numbers are integers with the wrap-around written out;
    words used as bit sets (`|= 1u << k`, `&= ~(1u << k)`, `>> k & 1`) are their 32 bits,
    bit 0 first. */
module Bits {

  const WORD := 0x1_0000_0000
  const PAGE := 4096    // bytes in a page and in a frame
  const FRAMES := 8192  // frames of RAM (32 MB), and the most that the allocator manages

  /** A C `u32`. */
  type u32 = w: int | 0 <= w < WORD

  /** A C `u8`. */
  type u8 = b: int | 0 <= b < 256

  /** A C `u16`. */
  type u16 = h: int | 0 <= h < 0x1_0000

  /** Unsigned 32-bit wrap-around. */
  function Wrap(x: int): u32 {
    x % WORD
  }

  /** The cast `(int) x` of a `u32`. */
  function Signed(x: u32): (n: int)
    ensures -0x8000_0000 <= n < 0x8000_0000 && Wrap(n) == x
  {
    if x < 0x8000_0000 then x else x - WORD
  }

  /** A `u32` used as a set of bit numbers. */
  type Mask = m: seq<bool> | |m| == 32 witness seq(32, _ => false)

  function NoBits(): (m: Mask)
    ensures forall k :: 0 <= k < 32 ==> !m[k]
  {
    seq(32, _ => false)
  }

  function AllBits(): (m: Mask)
    ensures forall k :: 0 <= k < 32 ==> m[k]
  {
    seq(32, _ => true)
  }

  // ----- division -----

  lemma Quotient(x: nat, d: nat, q: nat, r: nat)
    requires d > 0 && r < d && x == q * d + r
    ensures x / d == q && x % d == r
  {
    var q', r' := x / d, x % d;
    assert x == q' * d + r';
    assert (q - q') * d == r' - r && (q' - q) * d == r - r';
    if q > q' {
      AtLeast(q - q', d);
    } else if q' > q {
      AtLeast(q' - q, d);
    }
  }

  lemma AtLeast(n: nat, d: nat)
    requires n > 0
    ensures n * d >= d
  {
  }

  // ----- bitwise or -----

  function Pow2(n: nat): (p: nat)
    ensures p > 0
  {
    if n == 0 then 1 else 2 * Pow2(n - 1)
  }

  /** The low n bits of `a | b`. */
  function OrBits(a: nat, b: nat, n: nat): (r: nat)
    ensures r < Pow2(n)
  {
    if n == 0 then 0 else (if a % 2 == 1 || b % 2 == 1 then 1 else 0) + 2 * OrBits(a / 2, b / 2, n - 1)
  }

  /** Bit i of a number. */
  predicate Bit(x: nat, i: nat) {
    x / Pow2(i) % 2 == 1
  }

  /** Bit by bit, `|` is or. */
  lemma {:induction false} OrBit(a: nat, b: nat, n: nat, i: nat)
    requires i < n
    ensures Bit(OrBits(a, b, n), i) <==> Bit(a, i) || Bit(b, i)
  {
    var x := OrBits(a / 2, b / 2, n - 1);
    var r := OrBits(a, b, n);
    assert r / 2 == x && r % 2 == if a % 2 == 1 || b % 2 == 1 then 1 else 0;
    if i > 0 {
      HalfBit(a, i);
      HalfBit(b, i);
      HalfBit(r, i);
      OrBit(a / 2, b / 2, n - 1, i - 1);
    } else {
      assert Pow2(0) == 1;
    }
  }

  lemma HalfBit(x: nat, i: nat)
    requires i > 0
    ensures Bit(x, i) == Bit(x / 2, i - 1)
  {
    DivTwice(x, Pow2(i - 1));
  }

  lemma DivTwice(x: nat, p: nat)
    requires p > 0
    ensures x / (2 * p) == x / 2 / p
  {
    var q, r := x / 2 / p, x / 2 % p;
    assert x / 2 == q * p + r;
    assert x == 2 * (q * p + r) + x % 2;
    assert 2 * (q * p) == q * (2 * p);
    assert 0 <= 2 * r + x % 2 < 2 * p;
    Quotient(x, 2 * p, q, 2 * r + x % 2);
  }

  lemma WordBits()
    ensures Pow2(12) == PAGE && Pow2(32) == WORD
  {
    assert Pow2(8) == 0x100;
    assert Pow2(12) == PAGE;
    assert Pow2(20) == 0x10_0000;
    assert Pow2(32) == WORD;
  }

  /** `a | b` */
  function Or(a: u32, b: u32): u32 {
    WordBits();
    OrBits(a, b, 32)
  }

  lemma {:induction false} OrZero(a: nat, n: nat)
    requires a < Pow2(n)
    ensures OrBits(a, 0, n) == a
  {
    if n > 0 {
      OrZero(a / 2, n - 1);
    }
  }

  /** Where the operands have no bits in common positions, `|` is addition: b fits below bit k,
      where a has none. */
  lemma {:induction false} OrDisjoint(x: nat, b: nat, k: nat, n: nat)
    requires k <= n && b < Pow2(k) && x * Pow2(k) < Pow2(n)
    ensures OrBits(x * Pow2(k), b, n) == x * Pow2(k) + b
  {
    if k == 0 {
      OrZero(x, n);
    } else {
      var y := x * Pow2(k - 1);
      assert x * Pow2(k) == 2 * y by {
        assert x * (2 * Pow2(k - 1)) == 2 * (x * Pow2(k - 1));
      }
      OrDisjoint(x, b / 2, k - 1, n - 1);
      OrStep(2 * y, b, n);
    }
  }

  lemma OrStep(a: nat, b: nat, n: nat)
    requires n > 0
    ensures OrBits(a, b, n) == (if a % 2 == 1 || b % 2 == 1 then 1 else 0) + 2 * OrBits(a / 2, b / 2, n - 1)
  {
  }

  /** `address | flags` for a page-aligned address and flags below the page size. */
  lemma OrAligned(address: u32, flags: u32)
    requires address % PAGE == 0 && flags < PAGE
    ensures Or(address, flags) == address + flags
  {
    WordBits();
    assert address == address / PAGE * PAGE;
    OrDisjoint(address / PAGE, flags, 12, 32);
  }

  // ----- words in byte strings -----

  /** The word with these four bytes. */
  function LittleEndian(b0: u8, b1: u8, b2: u8, b3: u8): u32 {
    b0 + 0x100 * (b1 + 0x100 * (b2 + 0x100 * b3))
  }

  /** `*(u16 *)(b + o)` */
  function U16(b: seq<u8>, o: nat): nat
    requires o + 2 <= |b|
  {
    b[o] + 0x100 * (b[o + 1] as int)
  }

  /** `*(u32 *)(b + o)` */
  function U32(b: seq<u8>, o: nat): u32
    requires o + 4 <= |b|
  {
    LittleEndian(b[o], b[o + 1], b[o + 2], b[o + 3])
  }
}
