/** Laws of a 32-bit linear feedback shift register, stated for any register type with an exclusive or.
    Crc32 instantiates them with the generator of the wire protocol. */
module ShiftRegister {

  function Flip(bits: seq<bool>): (r: seq<bool>)
    ensures |r| == |bits|
  {
    if bits == [] then [] else [!bits[0]] + Flip(bits[1..])
  }

  function Repeat(b: bool, n: nat): (bits: seq<bool>)
    ensures |bits| == n
  {
    if n == 0 then [] else [b] + Repeat(b, n - 1)
  }

  /** `at(k)` is the register whose only one bit is k places below the top, `top` reads the top bit,
      and `step` shifts one place up, subtracting the generator when a one leaves. */
  datatype Lfsr<!R(==,!new)> = Lfsr(step: R -> R, xor: (R, R) -> R, zero: R, at: nat -> R, top: R -> bool) {

    function Bit(b: bool, k: nat): R { if b then at(k) else zero }

    function Steps(n: nat, c: R): R
      decreases n
    {
      if n == 0 then c else Steps(n - 1, step(c))
    }

    /** Message bits enter at the top of the register. */
    function Serial(reg: R, bits: seq<bool>): R
      decreases bits
    {
      if bits == [] then reg else Serial(step(xor(reg, Bit(bits[0], 0))), bits[1..])
    }

    /** Long division over GF(2): bits enter at the bottom of the remainder, and the generator is
        subtracted whenever a one leaves at the top. */
    function LongDivision(rem: R, bits: seq<bool>): R
      decreases bits
    {
      if bits == [] then rem else LongDivision(xor(step(rem), Bit(bits[0], 31)), bits[1..])
    }

    /** The register in which these bits stand k places below the top. */
    function Place(bits: seq<bool>, k: nat): R
      decreases bits
    {
      if bits == [] then zero else xor(Bit(bits[0], k), Place(bits[1..], k + 1))
    }

    // ---------- The laws ----------

    ghost predicate AssocAt(x: R, y: R, z: R) { xor(xor(x, y), z) == xor(x, xor(y, z)) }

    ghost predicate GroupAt(x: R, y: R) {
      xor(x, y) == xor(y, x) && xor(x, x) == zero && xor(x, zero) == x && top(xor(x, y)) == (top(x) != top(y))
    }

    ghost predicate StepAt(x: R, y: R) {
      step(xor(x, y)) == xor(step(x), step(y)) && (step(x) == zero ==> x == zero)
    }

    ghost predicate PlaceAt(k: nat) {
      k < 31 ==> step(at(k + 1)) == at(k) && !top(at(k + 1))
    }

    ghost predicate Lawful() {
      && (forall x, y, z :: AssocAt(x, y, z))
      && (forall x, y :: GroupAt(x, y))
      && (forall x, y :: StepAt(x, y))
      && (forall k :: PlaceAt(k))
      && top(at(0))
    }

    // ---------- Algebra ----------

    lemma Cancel(x: R, y: R, z: R)
      requires Lawful() && xor(x, z) == xor(y, z)
      ensures x == y
    {
      assert AssocAt(x, z, z) && AssocAt(y, z, z) && GroupAt(z, z) && GroupAt(x, x) && GroupAt(y, y);
    }

    lemma StepInjective(x: R, y: R)
      requires Lawful() && step(x) == step(y)
      ensures x == y
    {
      assert StepAt(x, y) && StepAt(xor(x, y), zero) && GroupAt(step(y), step(y)) && GroupAt(y, y);
      Cancel(x, y, y);
    }

    lemma Interchange(a: R, b: R, c: R, d: R)
      requires Lawful()
      ensures xor(xor(a, b), xor(c, d)) == xor(xor(a, c), xor(b, d))
    {
      assert AssocAt(a, b, xor(c, d)) && AssocAt(b, c, d) && GroupAt(b, c) && AssocAt(c, b, d);
      assert AssocAt(a, c, xor(b, d));
    }

    lemma StepOfZero()
      requires Lawful()
      ensures step(zero) == zero && !top(zero)
    {
      assert GroupAt(zero, zero) && StepAt(zero, zero) && GroupAt(step(zero), zero);
    }

    lemma {:induction false} StepsOfZero(n: nat)
      requires Lawful()
      ensures Steps(n, zero) == zero
    {
      StepOfZero();
      if n != 0 { StepsOfZero(n - 1); }
    }

    lemma {:induction false} StepsLinear(n: nat, x: R, y: R)
      requires Lawful()
      ensures Steps(n, xor(x, y)) == xor(Steps(n, x), Steps(n, y))
      decreases n
    {
      if n != 0 {
        assert StepAt(x, y);
        StepsLinear(n - 1, step(x), step(y));
      }
    }

    lemma {:induction false} StepsInjective(n: nat, x: R, y: R)
      requires Lawful() && Steps(n, x) == Steps(n, y)
      ensures x == y
      decreases n
    {
      if n != 0 {
        StepsInjective(n - 1, step(x), step(y));
        StepInjective(x, y);
      }
    }

    lemma {:induction false} StepsCommute(n: nat, c: R)
      ensures Steps(n, step(c)) == step(Steps(n, c))
      decreases n
    {
      if n != 0 { StepsCommute(n - 1, step(c)); }
    }

    lemma {:induction false} Climb(n: nat, k: nat)
      requires Lawful() && k + n <= 31
      ensures Steps(n, at(k + n)) == at(k)
      decreases n
    {
      if n != 0 {
        assert PlaceAt(k + n - 1);
        Climb(n - 1, k);
      }
    }

    // ---------- A run of bits applied at once ----------

    lemma {:induction false} StepPlace(bits: seq<bool>, k: nat)
      requires Lawful() && k + |bits| <= 31
      ensures step(Place(bits, k + 1)) == Place(bits, k) && !top(Place(bits, k + 1))
      decreases bits
    {
      StepOfZero();
      if bits != [] {
        StepPlace(bits[1..], k + 1);
        assert PlaceAt(k);
        assert StepAt(Bit(bits[0], k + 1), Place(bits[1..], k + 2));
        assert GroupAt(Bit(bits[0], k + 1), Place(bits[1..], k + 2));
      }
    }

    lemma {:induction false} SerialPlaced(reg: R, bits: seq<bool>)
      requires Lawful() && |bits| <= 32
      ensures Serial(reg, bits) == Steps(|bits|, xor(reg, Place(bits, 0)))
      decreases bits
    {
      if bits == [] {
        assert GroupAt(reg, zero);
      } else {
        var t, p := Bit(bits[0], 0), Place(bits[1..], 1);
        assert AssocAt(reg, t, p) && StepAt(xor(reg, t), p);
        StepPlace(bits[1..], 0);
        SerialPlaced(step(xor(reg, t)), bits[1..]);
      }
    }

    /** At most 32 bits can be read back from the register that holds them. */
    lemma {:induction false} PlaceInjective(a: seq<bool>, b: seq<bool>)
      requires Lawful() && |a| == |b| <= 32 && Place(a, 0) == Place(b, 0)
      ensures a == b
      decreases a
    {
      if a != [] {
        var p, q := Place(a[1..], 1), Place(b[1..], 1);
        StepPlace(a[1..], 0);
        StepPlace(b[1..], 0);
        StepOfZero();
        assert GroupAt(Bit(a[0], 0), p) && GroupAt(Bit(b[0], 0), q);
        assert a[0] == b[0];
        assert GroupAt(p, Bit(a[0], 0)) && GroupAt(q, Bit(a[0], 0));
        Cancel(p, q, Bit(a[0], 0));
        PlaceInjective(a[1..], b[1..]);
        assert a == [a[0]] + a[1..] && b == [b[0]] + b[1..];
      }
    }

    lemma PlaceOne(t: seq<bool>, k: nat, i: nat)
      requires i < |t|
      ensures Place(t[i..], k) == xor(Bit(t[i], k), Place(t[i + 1..], k + 1))
    {
      assert t[i..][1..] == t[i + 1..];
    }

    lemma PlaceEight(t: seq<bool>, k: nat)
      requires |t| >= 8
      ensures Place(t, k) == xor(Bit(t[0], k), xor(Bit(t[1], k + 1), xor(Bit(t[2], k + 2), xor(Bit(t[3], k + 3),
                xor(Bit(t[4], k + 4), xor(Bit(t[5], k + 5), xor(Bit(t[6], k + 6), xor(Bit(t[7], k + 7),
                Place(t[8..], k + 8)))))))))
    {
      assert t[0..] == t;
      PlaceOne(t, k, 0);
      PlaceOne(t, k + 1, 1);
      PlaceOne(t, k + 2, 2);
      PlaceOne(t, k + 3, 3);
      PlaceOne(t, k + 4, 4);
      PlaceOne(t, k + 5, 5);
      PlaceOne(t, k + 6, 6);
      PlaceOne(t, k + 7, 7);
    }

    lemma {:induction false} SerialAppend(reg: R, a: seq<bool>, b: seq<bool>)
      ensures Serial(reg, a + b) == Serial(Serial(reg, a), b)
      decreases a
    {
      if a == [] {
        assert a + b == b;
      } else {
        assert (a + b)[1..] == a[1..] + b;
        SerialAppend(step(xor(reg, Bit(a[0], 0))), a[1..], b);
      }
    }

    lemma {:induction false} SerialInjective(x: R, y: R, bits: seq<bool>)
      requires Lawful() && Serial(x, bits) == Serial(y, bits)
      ensures x == y
      decreases bits
    {
      if bits != [] {
        var t := Bit(bits[0], 0);
        SerialInjective(step(xor(x, t)), step(xor(y, t)), bits[1..]);
        StepInjective(xor(x, t), xor(y, t));
        Cancel(x, y, t);
      }
    }

    /** No error burst of up to 32 bits leaves the register unchanged, wherever it strikes. */
    lemma BurstChangesRegister(reg: R, head: seq<bool>, a: seq<bool>, b: seq<bool>, tail: seq<bool>)
      requires Lawful() && |a| == |b| <= 32
      ensures Serial(reg, head + a + tail) == Serial(reg, head + b + tail) <==> a == b
    {
      if Serial(reg, head + a + tail) == Serial(reg, head + b + tail) {
        var s := Serial(reg, head);
        SerialAppend(reg, head + a, tail);
        SerialAppend(reg, head + b, tail);
        SerialInjective(Serial(reg, head + a), Serial(reg, head + b), tail);
        SerialAppend(reg, head, a);
        SerialAppend(reg, head, b);
        SerialPlaced(s, a);
        SerialPlaced(s, b);
        StepsInjective(|a|, xor(s, Place(a, 0)), xor(s, Place(b, 0)));
        assert GroupAt(s, Place(a, 0)) && GroupAt(s, Place(b, 0));
        Cancel(Place(a, 0), Place(b, 0), s);
        PlaceInjective(a, b);
      }
    }

    // ---------- Bit-serial form and long division ----------

    lemma {:induction false} DivisionAppend(rem: R, a: seq<bool>, b: seq<bool>)
      ensures LongDivision(rem, a + b) == LongDivision(LongDivision(rem, a), b)
      decreases a
    {
      if a == [] {
        assert a + b == b;
      } else {
        assert (a + b)[1..] == a[1..] + b;
        DivisionAppend(xor(step(rem), Bit(a[0], 31)), a[1..], b);
      }
    }

    lemma {:induction false} DivisionOfZeros(rem: R, n: nat)
      requires Lawful()
      ensures LongDivision(rem, Repeat(false, n)) == Steps(n, rem)
      decreases n
    {
      if n != 0 {
        assert GroupAt(step(rem), zero);
        DivisionOfZeros(step(rem), n - 1);
      }
    }

    /** A bit that enters at the bottom acts 32 steps later exactly as one that enters at the top. */
    lemma {:induction false} DivisionIsSerial(rem: R, bits: seq<bool>)
      requires Lawful()
      ensures Steps(32, LongDivision(rem, bits)) == Serial(Steps(32, rem), bits)
      decreases bits
    {
      if bits != [] {
        var low, high := Bit(bits[0], 31), Bit(bits[0], 0);
        DivisionIsSerial(xor(step(rem), low), bits[1..]);
        StepsLinear(32, step(rem), low);
        StepsCommute(32, rem);
        StepsOfZero(32);
        StepOfZero();
        Climb(31, 0);
        StepsCommute(31, at(31));
        assert Steps(32, low) == step(high);
        assert StepAt(Steps(32, rem), high);
      }
    }

    lemma {:induction false} PlaceFlipped(bits: seq<bool>, k: nat)
      requires Lawful()
      ensures Place(Flip(bits), k) == xor(Place(bits, k), Place(Repeat(true, |bits|), k))
      decreases bits
    {
      if bits == [] {
        assert GroupAt(zero, zero);
      } else {
        PlaceFlipped(bits[1..], k + 1);
        assert Flip(bits)[1..] == Flip(bits[1..]);
        var t := Bit(bits[0], k);
        assert GroupAt(at(k), at(k)) && GroupAt(zero, at(k)) && GroupAt(at(k), zero);
        assert Bit(!bits[0], k) == xor(t, at(k));
        Interchange(t, at(k), Place(bits[1..], k + 1), Place(Repeat(true, |bits| - 1), k + 1));
      }
    }

    /** Complementing the first 32 bits, appending 32 zeros and dividing is the bit-serial form
        started from the all-ones register. */
    lemma StandardIsSerial(first: seq<bool>, rest: seq<bool>)
      requires Lawful() && |first| == 32
      ensures LongDivision(zero, Flip(first) + rest + Repeat(false, 32))
              == Serial(Place(Repeat(true, 32), 0), first + rest)
    {
      var bits, ones := Flip(first) + rest, Place(Repeat(true, 32), 0);
      DivisionAppend(zero, bits, Repeat(false, 32));
      DivisionOfZeros(LongDivision(zero, bits), 32);
      DivisionIsSerial(zero, bits);
      StepsOfZero(32);
      SerialAppend(zero, Flip(first), rest);
      SerialAppend(ones, first, rest);
      SerialPlaced(zero, Flip(first));
      SerialPlaced(ones, first);
      PlaceFlipped(first, 0);
      assert GroupAt(Place(first, 0), ones) && GroupAt(Place(Flip(first), 0), zero) && GroupAt(zero, Place(Flip(first), 0));
    }
  }
}
