/** The header checksum of the wire protocol (common/lwmp.c): the table-driven loop, what it computes,
    and the errors it cannot miss. */
module Crc32 {
  import opened ByteStrings
  import opened ShiftRegister
  import opened CrcStep
  import opened CrcTable


  /** The register whose only one bit is k places below the top. */
  function PlaceBit(k: nat): bv32 {
    match k
    case 0 => 0x8000_0000 case 1 => 0x4000_0000 case 2 => 0x2000_0000 case 3 => 0x1000_0000
    case 4 => 0x800_0000 case 5 => 0x400_0000 case 6 => 0x200_0000 case 7 => 0x100_0000
    case 8 => 0x80_0000 case 9 => 0x40_0000 case 10 => 0x20_0000 case 11 => 0x10_0000
    case 12 => 0x8_0000 case 13 => 0x4_0000 case 14 => 0x2_0000 case 15 => 0x1_0000
    case 16 => 0x8000 case 17 => 0x4000 case 18 => 0x2000 case 19 => 0x1000
    case 20 => 0x800 case 21 => 0x400 case 22 => 0x200 case 23 => 0x100
    case 24 => 0x80 case 25 => 0x40 case 26 => 0x20 case 27 => 0x10
    case 28 => 8 case 29 => 4 case 30 => 2 case 31 => 1
    case _ => 0
  }

  const CRC: Lfsr<bv32> := Lfsr(BitStep, Xor, 0, PlaceBit, TopOf)
  const ONES: bv32 := 0xFFFF_FFFF

  lemma CrcLawful()
    ensures CRC.Lawful()
  {
    forall x, y ensures CRC.StepAt(x, y) { StepLaw(x, y); }
    forall x, y ensures CRC.GroupAt(x, y) { GroupLaw(x, y); }
    forall x, y, z ensures CRC.AssocAt(x, y, z) { AssocLaw(x, y, z); }
    forall k ensures CRC.PlaceAt(k) { PlaceLaw(k); }
  }

  lemma StepLaw(x: bv32, y: bv32)
    ensures CRC.StepAt(x, y)
  {
    StepLinear(x, y);
    if BitStep(x) == 0 { OnlyZeroVanishes(x); }
  }

  lemma GroupLaw(x: bv32, y: bv32)
    ensures CRC.GroupAt(x, y)
  {
    XorLaws(x, y, 0);
    TopLinear(x, y);
  }

  lemma AssocLaw(x: bv32, y: bv32, z: bv32)
    ensures CRC.AssocAt(x, y, z)
  {
    XorAssociative(x, y, z);
  }

  lemma PlaceLaw(k: nat)
    ensures CRC.PlaceAt(k)
  {
    if k < 8 {
      match k { case 0 => case 1 => case 2 => case 3 => case 4 => case 5 => case 6 => case 7 => }
    } else if k < 16 {
      match k { case 8 => case 9 => case 10 => case 11 => case 12 => case 13 => case 14 => case 15 => }
    } else if k < 24 {
      match k { case 16 => case 17 => case 18 => case 19 => case 20 => case 21 => case 22 => case 23 => }
    } else if k < 31 {
      match k { case 24 => case 25 => case 26 => case 27 => case 28 => case 29 => case 30 => }
    }
  }

  function ByteBits(b: bv8): (bits: seq<bool>)
    ensures |bits| == 8
  {
    [b & 0x80 != 0, b & 0x40 != 0, b & 0x20 != 0, b & 0x10 != 0,
     b & 8 != 0, b & 4 != 0, b & 2 != 0, b & 1 != 0]
  }

  /** The bits of a message, each byte most significant bit first. */
  function MessageBits(msg: Bytes): (bits: seq<bool>)
    ensures |bits| == 8 * |msg|
  {
    if msg == [] then [] else ByteBits(msg[0]) + MessageBits(msg[1..])
  }

  /** The checksum, one message bit at a time. */
  function Crc(msg: Bytes): bv32 { CRC.Serial(ONES, MessageBits(msg)) ^ ONES }

  /** The definition of the standard: complement the first 32 bits, append 32 zeros, divide by the
      generator, complement the remainder. */
  function StandardCrc(msg: Bytes): bv32
    requires |msg| >= 4
  {
    CRC.LongDivision(0, Flip(MessageBits(msg)[..32]) + MessageBits(msg)[32..] + Repeat(false, 32)) ^ ONES
  }

  lemma {:induction false} BitsAppend(a: Bytes, b: Bytes)
    ensures MessageBits(a + b) == MessageBits(a) + MessageBits(b)
    decreases a
  {
    if a == [] {
      assert a + b == b;
    } else {
      assert (a + b)[1..] == a[1..] + b;
      BitsAppend(a[1..], b);
    }
  }

  lemma {:induction false} BitsInjective(a: Bytes, b: Bytes)
    requires |a| == |b| && MessageBits(a) == MessageBits(b)
    ensures a == b
    decreases a
  {
    if a != [] {
      var x, y := MessageBits(a), MessageBits(b);
      assert x[..8] == ByteBits(a[0]) && y[..8] == ByteBits(b[0]);
      assert x[8..] == MessageBits(a[1..]) && y[8..] == MessageBits(b[1..]);
      ByteBitsInjective(a[0], b[0]);
      BitsInjective(a[1..], b[1..]);
      assert a == [a[0]] + a[1..] && b == [b[0]] + b[1..];
    }
  }

  lemma ByteBitsInjective(a: bv8, b: bv8)
    requires ByteBits(a) == ByteBits(b)
    ensures a == b
  {
    assert forall k | 0 <= k < 8 :: ByteBits(a)[k] == ByteBits(b)[k];
    SameBits(a, b, ByteBits(a), ByteBits(b));
  }

  lemma SameBits(a: bv8, b: bv8, x: seq<bool>, y: seq<bool>)
    requires x == ByteBits(a) && y == ByteBits(b)
    requires x[0] == y[0] && x[1] == y[1] && x[2] == y[2] && x[3] == y[3]
    requires x[4] == y[4] && x[5] == y[5] && x[6] == y[6] && x[7] == y[7]
    ensures a == b
  {
  }

  // ---------- The table loop ----------

  function Pick(t: bool, v: bv32): bv32 { if t then v else 0 }

  lemma BitIsPick(t: bool, k: nat, v: bv32)
    requires PlaceBit(k) == v
    ensures CRC.Bit(t, k) == Pick(t, v)
  {
  }

  /** Eight bits laid out in the top byte. */
  function TopByte(t: seq<bool>): bv32
    requires |t| == 8
  {
    Xor(Pick(t[0], 0x8000_0000), Xor(Pick(t[1], 0x4000_0000), Xor(Pick(t[2], 0x2000_0000), Xor(Pick(t[3], 0x1000_0000),
    Xor(Pick(t[4], 0x800_0000), Xor(Pick(t[5], 0x400_0000), Xor(Pick(t[6], 0x200_0000), Xor(Pick(t[7], 0x100_0000), 0))))))))
  }

  lemma TopByteOfByte(b: bv8)
    ensures TopByte(ByteBits(b)) == (b as bv32) << 24
  {
  }

  lemma PlaceIsTopByte(t: seq<bool>)
    requires |t| == 8
    ensures CRC.Place(t, 0) == TopByte(t)
  {
    CRC.PlaceEight(t, 0);
    BitIsPick(t[0], 0, 0x8000_0000);
    BitIsPick(t[1], 1, 0x4000_0000);
    BitIsPick(t[2], 2, 0x2000_0000);
    BitIsPick(t[3], 3, 0x1000_0000);
    BitIsPick(t[4], 4, 0x800_0000);
    BitIsPick(t[5], 5, 0x400_0000);
    BitIsPick(t[6], 6, 0x200_0000);
    BitIsPick(t[7], 7, 0x100_0000);
    assert t[8..] == [];
  }

  lemma StepsEight(c: bv32)
    ensures CRC.Steps(8, c) == BitSteps8(c)
  {
    var c4 := BitStep(BitStep(BitStep(BitStep(c))));
    assert CRC.Steps(8, c) == CRC.Steps(4, c4);
    assert CRC.Steps(4, c4) == BitStep(BitStep(BitStep(BitStep(c4))));
  }

  function Word(b: bv8): bv32 { (b as bv32) << 24 }

  lemma SerialOfByte(c: bv32, b: bv8)
    ensures CRC.Serial(c, ByteBits(b)) == CRC.Steps(8, Xor(c, Word(b)))
  {
    PlaceIsTopByte(ByteBits(b));
    TopByteOfByte(b);
    CrcLawful();
    CRC.SerialPlaced(c, ByteBits(b));
  }

  lemma StepsSplit(x: bv32, y: bv32)
    ensures CRC.Steps(8, Xor(x, y)) == Xor(BitSteps8(x), BitSteps8(y))
  {
    CrcLawful();
    CRC.StepsLinear(8, x, y);
    StepsEight(x);
    StepsEight(y);
  }

  lemma TurnIsSerial(c: bv32, b: bv8, k: bv32, p: bv32, l: bv32)
    requires p ^ l == c && l & 0xFF00_0000 == 0 && l << 8 == c << 8
    requires k < 256 && k << 24 == p ^ Word(b)
    ensures Xor(c << 8, Table(k)) == CRC.Serial(c, ByteBits(b))
  {
    TurnSplits(c, Word(b), k, p, l);
    SerialOfByte(c, b);
    StepsSplit(k << 24, l);
  }

  /** A turn of the loop in crc32 consumes the eight bits of one byte. */
  method Turn(c: bv32, b: bv8) returns (r: bv32)
    ensures r == CRC.Serial(c, ByteBits(b))
  {
    SplitTopByte(c, b as bv32);
    var k := ((c >> 24) ^ (b as bv32)) & 0xFF;
    TurnIsSerial(c, b, k, c & 0xFF00_0000, c & 0x00FF_FFFF);
    r := Xor(c << 8, Table(k));
  }

  /** The table-driven loop returns the bit-serial checksum of its input. */
  method Compute(data: Bytes) returns (r: bv32)
    ensures r == Crc(data)
  {
    var crc: bv32 := ONES;
    var i := 0;
    while i < |data|
      invariant 0 <= i <= |data|
      invariant CRC.Serial(crc, MessageBits(data[i..])) == CRC.Serial(ONES, MessageBits(data))
    {
      SerialOfMessage(crc, data, i);
      crc := Turn(crc, data[i]);
      i := i + 1;
    }
    return crc ^ ONES;
  }

  lemma SerialOfMessage(crc: bv32, data: Bytes, i: nat)
    requires i < |data|
    ensures CRC.Serial(CRC.Serial(crc, ByteBits(data[i])), MessageBits(data[i + 1..]))
            == CRC.Serial(crc, MessageBits(data[i..]))
  {
    assert data[i..][1..] == data[i + 1..];
    CRC.SerialAppend(crc, ByteBits(data[i]), MessageBits(data[i + 1..]));
  }

  // ---------- What the checksum is, and what it detects ----------

  lemma OnesAreOnes()
    ensures CRC.Place(Repeat(true, 32), 0) == ONES
  {
    assert CRC.Place(Repeat(true, 0), 32) == 0;
    EightOnes(0, 24, 0);
    EightOnes(8, 16, 0xFF);
    EightOnes(16, 8, 0xFFFF);
    EightOnes(24, 0, 0xFF_FFFF);
  }

  lemma EightOnes(n: nat, k: nat, below: bv32)
    requires n == 24 - k && (k == 0 || k == 8 || k == 16 || k == 24)
    requires CRC.Place(Repeat(true, n), k + 8) == below
    ensures CRC.Place(Repeat(true, n + 8), k)
            == Xor(PlaceBit(k), Xor(PlaceBit(k + 1), Xor(PlaceBit(k + 2), Xor(PlaceBit(k + 3), Xor(PlaceBit(k + 4), Xor(PlaceBit(k + 5), Xor(PlaceBit(k + 6), Xor(PlaceBit(k + 7), below))))))))
  {
    CRC.PlaceEight(Repeat(true, n + 8), k);
    RepeatDrop(n, 8);
  }

  lemma {:induction false} RepeatDrop(n: nat, d: nat)
    ensures var r := Repeat(true, n + d); r[d..] == Repeat(true, n) && forall i | 0 <= i < d :: r[i]
    decreases d
  {
    if d != 0 {
      RepeatDrop(n, d - 1);
      var r, r' := Repeat(true, n + d), Repeat(true, n + d - 1);
      assert r == [true] + r';
      assert r[d..] == r'[d - 1..];
      assert forall i | 1 <= i < d :: r[i] == r'[i - 1];
    }
  }

  /** The checksum is the one the standard defines by polynomial division. */
  lemma CrcIsStandard(msg: Bytes)
    requires |msg| >= 4
    ensures Crc(msg) == StandardCrc(msg)
  {
    CrcLawful();
    OnesAreOnes();
    var bits := MessageBits(msg);
    CRC.StandardIsSerial(bits[..32], bits[32..]);
    assert bits[..32] + bits[32..] == bits;
  }

  lemma XorCancels(x: bv32, y: bv32, z: bv32)
    requires x ^ z == y ^ z
    ensures x == y
  {
  }

  /** Two messages of one length that agree outside four consecutive bytes have equal checksums only
      if they are equal: no error burst of up to four bytes goes undetected. */
  lemma BurstDetected(m: Bytes, n: Bytes, at: nat)
    requires |m| == |n| && at + 4 <= |m|
    requires m[..at] == n[..at] && m[at + 4..] == n[at + 4..]
    ensures Crc(m) == Crc(n) <==> m == n
  {
    if Crc(m) == Crc(n) {
      var x, y := m[at..at + 4], n[at..at + 4];
      var head, tail := MessageBits(m[..at]), MessageBits(m[at + 4..]);
      assert m == m[..at] + x + m[at + 4..] && n == m[..at] + y + m[at + 4..];
      BitsAppend(m[..at] + x, m[at + 4..]);
      BitsAppend(m[..at], x);
      BitsAppend(m[..at] + y, m[at + 4..]);
      BitsAppend(m[..at], y);
      XorCancels(CRC.Serial(ONES, MessageBits(m)), CRC.Serial(ONES, MessageBits(n)), ONES);
      CrcLawful();
      CRC.BurstChangesRegister(ONES, head, MessageBits(x), MessageBits(y), tail);
      BitsInjective(x, y);
    }
  }
}
