/** Products and remainders the solver does not find by itself. */
module Arithmetic {

  lemma MulMonotone(d: nat, a: nat, b: nat)
    requires a <= b
    ensures d * a <= d * b
  {
  }

  /** Quotient and remainder are unique. */
  lemma DivMod(d: nat, q: nat, r: nat)
    requires r < d
    ensures (d * q + r) % d == r && (d * q + r) / d == q
  {
    var x := d * q + r;
    var p := x / d;
    assert x == d * p + x % d;
    if p > q { MulMonotone(d, q + 1, p); }
    if p < q { MulMonotone(d, p + 1, q); }
  }

  lemma AddMultiple(x: nat, d: nat, k: nat)
    requires d > 0
    ensures (d * k + x) % d == x % d
  {
    var q, r := x / d, x % d;
    assert x == d * q + r;
    assert d * k + x == d * (k + q) + r;
    DivMod(d, k + q, r);
  }

  /** Dividing twice is dividing by the product. */
  lemma DivDiv(n: nat, a: nat, b: nat)
    requires a > 0 && b > 0
    ensures a * b > 0 && n / a / b == n / (a * b)
  {
    var q, r := n / a, n % a;
    var t, s := q / b, q % b;
    assert n == a * q + r && q == b * t + s;
    assert a * q == a * (b * t) + a * s;
    assert a * (b * t) == a * b * t;
    MulMonotone(a, s + 1, b);
    assert a * (s + 1) == a * s + a;
    DivMod(a * b, t, a * s + r);
  }

  // ---------- Powers of two ----------

  function Pow2(n: nat): (p: nat)
    ensures p > 0
  {
    if n == 0 then 1 else 2 * Pow2(n - 1)
  }

  lemma {:induction false} Pow2Sum(a: nat, b: nat)
    ensures Pow2(a + b) == Pow2(a) * Pow2(b)
    decreases a
  {
    if a > 0 {
      Pow2Sum(a - 1, b);
      assert Pow2(a - 1 + b) == Pow2(a - 1) * Pow2(b);
    }
  }

  lemma Pow2Grows(n: nat)
    requires n > 0
    ensures Pow2(n) > 1
  {
  }

  ghost predicate IsPow2(n: nat) { exists k: nat :: n == Pow2(k) }

  lemma Pow2Product(a: nat, b: nat)
    requires IsPow2(a) && IsPow2(b)
    ensures IsPow2(a * b)
  {
    var i: nat, j: nat :| a == Pow2(i) && b == Pow2(j);
    Pow2Sum(i, j);
  }

  /** Bitwise and, bit by bit. */
  function BitAnd(a: nat, b: nat): nat {
    if a == 0 || b == 0 then 0 else 2 * BitAnd(a / 2, b / 2) + if a % 2 == 1 && b % 2 == 1 then 1 else 0
  }

  /** The mask of a power of two is the remainder. */
  lemma {:induction false} MaskIsRemainder(h: nat, n: nat)
    ensures BitAnd(h, Pow2(n) - 1) == h % Pow2(n)
    decreases n
  {
    if n > 0 {
      MaskIsRemainder(h / 2, n - 1);
      HalfRemainder(h, Pow2(n - 1));
      assert (2 * Pow2(n - 1) - 1) / 2 == Pow2(n - 1) - 1;
    }
  }

  lemma HalfRemainder(h: nat, p: nat)
    requires p > 0
    ensures h % (2 * p) == 2 * (h / 2 % p) + h % 2
  {
    var q, r := h / 2 / p, h / 2 % p;
    assert h / 2 == p * q + r;
    assert 2 * (p * q) == 2 * p * q;
    DivMod(2 * p, q, 2 * r + h % 2);
  }
}
