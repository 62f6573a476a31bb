/** round_up_to_power_of_2 of lib/zlog/src/fifo.c, on 32-bit words. */
module RingSize {
  import opened Arithmetic

  const WORD := 0x1_0000_0000
  const PAGE := 4096

  predicate IsPowerOfTwo(p: bv32) { p != 0 && p & (p - 1) == 0 }

  /** Copies the highest bit of n to all lower ones. */
  function Smear(n: bv32): bv32 {
    var a := n | (n >> 1);
    var b := a | (a >> 2);
    var c := b | (b >> 4);
    var d := c | (c >> 8);
    d | (d >> 16)
  }

  /** A power of two that is not below n, unless there is none that fits a word. */
  function RoundUp(n: bv32): (p: bv32)
    ensures p == 0 <==> n > 0x8000_0000
    ensures n <= 0x8000_0000 ==> IsPowerOfTwo(p) && n <= p
  {
    if n == 0 then 1 else Smear(n - 1) + 1
  }

  /** And the least one. */
  lemma RoundUpIsLeast(n: bv32, q: bv32)
    requires IsPowerOfTwo(q) && n <= q
    ensures RoundUp(n) <= q
  {
  }

  // ---------- The size of a ring ----------

  /** fifo_create: as many pages as are wanted, rounded up; the product is taken in 32 bits. */
  function RingBytes(pages: bv32): nat { RoundUp(pages) as nat * PAGE % WORD }

  /** A power of two up to 2^20 as a number. */
  lemma PowerAsNumber(p: bv32) returns (k: nat)
    requires IsPowerOfTwo(p) && p <= 0x10_0000
    ensures k <= 20 && p as nat == Pow2(k) && (k <= 19 <==> p <= 0x8_0000)
  {
    PowersUpTo(p);
    Pow2Table();
    k := if p == 1 then 0 else if p == 2 then 1 else if p == 4 then 2 else if p == 8 then 3
      else if p == 0x10 then 4 else if p == 0x20 then 5 else if p == 0x40 then 6 else if p == 0x80 then 7
      else if p == 0x100 then 8 else if p == 0x200 then 9 else if p == 0x400 then 10 else if p == 0x800 then 11
      else if p == 0x1000 then 12 else if p == 0x2000 then 13 else if p == 0x4000 then 14 else if p == 0x8000 then 15
      else if p == 0x1_0000 then 16 else if p == 0x2_0000 then 17 else if p == 0x4_0000 then 18
      else if p == 0x8_0000 then 19 else 20;
  }

  lemma PowersUpTo(p: bv32)
    requires IsPowerOfTwo(p) && p <= 0x10_0000
    ensures p == 1 || p == 2 || p == 4 || p == 8 || p == 0x10 || p == 0x20 || p == 0x40 || p == 0x80
         || p == 0x100 || p == 0x200 || p == 0x400 || p == 0x800 || p == 0x1000 || p == 0x2000 || p == 0x4000 || p == 0x8000
         || p == 0x1_0000 || p == 0x2_0000 || p == 0x4_0000 || p == 0x8_0000 || p == 0x10_0000
  {
  }

  lemma Pow2Table()
    ensures Pow2(0) == 1 && Pow2(1) == 2 && Pow2(2) == 4 && Pow2(3) == 8 && Pow2(4) == 0x10 && Pow2(5) == 0x20
    ensures Pow2(6) == 0x40 && Pow2(7) == 0x80 && Pow2(8) == 0x100 && Pow2(9) == 0x200 && Pow2(10) == 0x400
    ensures Pow2(11) == 0x800 && Pow2(12) == 0x1000 && Pow2(13) == 0x2000 && Pow2(14) == 0x4000 && Pow2(15) == 0x8000
    ensures Pow2(16) == 0x1_0000 && Pow2(17) == 0x2_0000 && Pow2(18) == 0x4_0000 && Pow2(19) == 0x8_0000
    ensures Pow2(20) == 0x10_0000 && Pow2(32) == WORD
  {
    Pow2Sum(20, 12);
  }

  /** Up to 2^19 pages the size of the ring is a power of two that divides 2^32, and not all of it. */
  lemma RingDivides(pages: bv32) returns (k: nat)
    requires pages <= 0x8_0000
    ensures k <= 19 && RingBytes(pages) == Pow2(k + 12) == RoundUp(pages) as nat * PAGE
    ensures Pow2(k + 12) * Pow2(20 - k) == WORD && Pow2(20 - k) > 1
  {
    RoundUpIsLeast(pages, 0x8_0000);
    k := PowerAsNumber(RoundUp(pages));
    Pow2Table();
    Pow2Sum(k, 12);
    Pow2Sum(k + 12, 20 - k);
    Pow2Grows(20 - k);
    assert Pow2(k + 12) < WORD;
  }

  /** The exact condition: of the requests for at most 2^20 pages, which is 2^32 bytes, those for more than
      half of that end up with a ring of no bytes. */
  lemma RingExists(pages: bv32)
    requires pages <= 0x10_0000
    ensures RingBytes(pages) > 0 <==> pages <= 0x8_0000
  {
    if pages <= 0x8_0000 {
      var k := RingDivides(pages);
    } else {
      OneSizeLeft(RoundUp(pages), pages);
      assert 0x10_0000 as nat * PAGE == WORD;
    }
  }

  lemma OneSizeLeft(p: bv32, pages: bv32)
    requires 0x8_0000 < pages <= 0x10_0000 && p == RoundUp(pages)
    ensures p == 0x10_0000
  {
  }
}
