/** Byte strings: big-endian numbers and C strings in fixed fields. */
module ByteStrings {
  import Arithmetic

  type Bytes = seq<bv8>

  // ---------- Bytes as numbers ----------

  function NibbleOf(n: nat): (b: bv8)
    requires n < 16
    ensures b < 16
  {
    match n
    case 0 => 0 case 1 => 1 case 2 => 2 case 3 => 3 case 4 => 4 case 5 => 5 case 6 => 6 case 7 => 7
    case 8 => 8 case 9 => 9 case 10 => 10 case 11 => 11 case 12 => 12 case 13 => 13 case 14 => 14 case 15 => 15
  }

  function NibbleValue(b: bv8): (n: nat)
    ensures n < 16
  {
    match b
    case 0 => 0 case 1 => 1 case 2 => 2 case 3 => 3 case 4 => 4 case 5 => 5 case 6 => 6 case 7 => 7
    case 8 => 8 case 9 => 9 case 10 => 10 case 11 => 11 case 12 => 12 case 13 => 13 case 14 => 14 case _ => 15
  }

  function ByteOf(n: nat): bv8
    requires n < 256
  {
    (NibbleOf(n / 16) << 4) | NibbleOf(n % 16)
  }

  function Value(b: bv8): (n: nat)
    ensures n < 256
  {
    16 * NibbleValue(b >> 4) + NibbleValue(b & 15)
  }

  lemma NibbleRoundTrip(n: nat)
    requires n < 16
    ensures NibbleValue(NibbleOf(n)) == n
  {
  }

  lemma Halves(h: bv8, l: bv8)
    requires h < 16 && l < 16
    ensures ((h << 4) | l) >> 4 == h && ((h << 4) | l) & 15 == l
  {
  }

  lemma ByteRoundTrip(n: nat)
    requires n < 256
    ensures Value(ByteOf(n)) == n
  {
    NibbleRoundTrip(n / 16);
    NibbleRoundTrip(n % 16);
    Halves(NibbleOf(n / 16), NibbleOf(n % 16));
  }

  /** A byte stands for the number it is. */
  lemma ValueIsByte(b: bv8)
    ensures Value(b) == b as nat
  {
  }

  // ---------- Big-endian numbers (htons, htobe64 and their inverses) ----------

  function Power256(n: nat): (p: nat)
    ensures p >= 1
  {
    if n == 0 then 1 else 256 * Power256(n - 1)
  }

  function BigEndian(n: nat, width: nat): (b: Bytes)
    ensures |b| == width
    decreases width
  {
    if width == 0 then [] else BigEndian(n / 256, width - 1) + [ByteOf(n % 256)]
  }

  function Number(b: Bytes): nat {
    if b == [] then 0 else 256 * Number(b[..|b| - 1]) + Value(b[|b| - 1])
  }

  lemma {:induction false} BigEndianRoundTrip(n: nat, width: nat)
    requires n < Power256(width)
    ensures Number(BigEndian(n, width)) == n
    decreases width
  {
    if width != 0 {
      BigEndianRoundTrip(n / 256, width - 1);
      var b := BigEndian(n, width);
      assert b[..width - 1] == BigEndian(n / 256, width - 1);
      ByteRoundTrip(n % 256);
    }
  }

  /** Byte k of a number in that order, most significant first. */
  lemma {:induction false} BigEndianAt(n: nat, width: nat, k: nat)
    requires k < width
    ensures BigEndian(n, width)[k] as nat == n / Power256(width - 1 - k) % 256
    decreases width
  {
    if k == width - 1 {
      ByteRoundTrip(n % 256);
      ValueIsByte(ByteOf(n % 256));
    } else {
      BigEndianAt(n / 256, width - 1, k);
      Arithmetic.DivDiv(n, 256, Power256(width - 2 - k));
    }
  }

  lemma {:induction false} NumberBounded(b: Bytes)
    ensures Number(b) < Power256(|b|)
    decreases b
  {
    if b != [] { NumberBounded(b[..|b| - 1]); }
  }

  lemma Widths()
    ensures Power256(2) == 0x1_0000
    ensures Power256(8) == 0x1_0000_0000_0000_0000
  {
    assert Power256(3) == 256 * Power256(2) && Power256(2) == 256 * Power256(1) && Power256(1) == 256;
    assert Power256(5) == 256 * Power256(4) && Power256(4) == 256 * Power256(3);
    assert Power256(7) == 256 * Power256(6) && Power256(6) == 256 * Power256(5);
  }

  // ---------- C strings ----------

  /** The characters before the first NUL: what strlen and strncmp see of a field. */
  function CString(field: Bytes): (s: Bytes)
    ensures 0 !in s && |s| <= |field|
    decreases field
  {
    if field == [] || field[0] == 0 then [] else [field[0]] + CString(field[1..])
  }

  function Zeros(n: nat): (z: Bytes)
    ensures |z| == n
  {
    if n == 0 then [] else [0] + Zeros(n - 1)
  }

  /** strncpy into a field of the given width: cut, or padded with NULs. */
  function StrNCpy(src: Bytes, width: nat): (field: Bytes)
    ensures |field| == width
  {
    var s := CString(src);
    if |s| >= width then s[..width] else s + Zeros(width - |s|)
  }

  lemma {:induction false} NoNulIsAll(s: Bytes)
    requires 0 !in s
    ensures CString(s) == s
    decreases s
  {
    if s != [] { NoNulIsAll(s[1..]); }
  }

  lemma {:induction false} CStringOfPadded(s: Bytes, n: nat)
    requires 0 !in s
    ensures CString(s + Zeros(n)) == s
    decreases s
  {
    if s != [] {
      assert (s + Zeros(n))[1..] == s[1..] + Zeros(n);
      CStringOfPadded(s[1..], n);
      assert (s + Zeros(n))[0] == s[0] && s[0] in s;
    } else if n != 0 {
      assert (s + Zeros(n))[0] == 0;
    }
  }

  /** A name that fits is read back from the field it was copied to. */
  lemma NameRoundTrip(name: Bytes, width: nat)
    requires 0 !in name && |name| <= width
    ensures CString(StrNCpy(name, width)) == name
  {
    CStringOfPadded(name, 0);
    assert name + Zeros(0) == name;
    if |name| < width {
      CStringOfPadded(name, width - |name|);
    } else {
      assert name[..width] == name;
    }
  }

  // ---------- Concatenations ----------

  lemma Assoc<T>(a: seq<T>, b: seq<T>, c: seq<T>)
    ensures (a + b) + c == a + (b + c)
  {
  }

  lemma HeadTail<T>(a: seq<T>)
    requires a != []
    ensures a == [a[0]] + a[1..]
  {
  }

  lemma TakeDrop<T>(a: seq<T>, k: nat)
    requires k <= |a|
    ensures a == a[..k] + a[k..]
  {
  }

  lemma SliceLeft<T>(a: seq<T>, b: seq<T>, i: nat, j: nat)
    requires i <= j <= |a|
    ensures (a + b)[i..j] == a[i..j]
  {
  }

  lemma SliceRight<T>(a: seq<T>, b: seq<T>, i: nat, j: nat)
    requires |a| <= i <= j <= |a| + |b|
    ensures (a + b)[i..j] == b[i - |a|..j - |a|]
  {
  }

  lemma Cut(a: Bytes, b: Bytes, n: nat)
    requires |a| <= n <= |a| + |b|
    ensures (a + b)[..n] == a + b[..n - |a|]
  {
  }

  lemma SameSuffix<T>(a: seq<T>, b: seq<T>, c: seq<T>)
    requires a + b == a + c
    ensures b == c
  {
    assert b == (a + b)[|a|..] == (a + c)[|a|..] == c;
  }

  lemma SamePrefix<T>(a: seq<T>, b: seq<T>, c: seq<T>)
    requires a + b <= a + c
    ensures b <= c
  {
    assert forall i | 0 <= i < |b| :: b[i] == (a + b)[|a| + i] == (a + c)[|a| + i] == c[i];
  }

  lemma PrefixOfPrefix<T>(a: seq<T>, b: seq<T>, c: seq<T>)
    requires a + b <= c
    ensures a <= c && c[..|a|] == a
  {
    assert forall i | 0 <= i < |a| :: a[i] == (a + b)[i];
  }

  lemma Transitive<T>(a: seq<T>, b: seq<T>, c: seq<T>)
    requires a <= b <= c
    ensures a <= c
  {
  }

  function Map<A, B>(f: A -> B, xs: seq<A>): (ys: seq<B>)
    ensures |ys| == |xs| && forall i | 0 <= i < |ys| :: ys[i] == f(xs[i])
  {
    seq(|xs|, i requires 0 <= i < |xs| => f(xs[i]))
  }

  lemma MapHead<A, B>(f: A -> B, x: A, xs: seq<A>)
    ensures Map(f, [x] + xs) == [f(x)] + Map(f, xs)
  {
  }

  lemma MapPrefix<A, B>(f: A -> B, xs: seq<A>, ys: seq<A>)
    requires xs <= ys
    ensures Map(f, xs) <= Map(f, ys)
  {
  }

  lemma MapAppend<A, B>(f: A -> B, xs: seq<A>, ys: seq<A>)
    ensures Map(f, xs + ys) == Map(f, xs) + Map(f, ys)
  {
  }

  /** The concatenated encodings of a sequence of things. */
  function Wire<A>(enc: A -> Bytes, xs: seq<A>): Bytes {
    if xs == [] then [] else enc(xs[0]) + Wire(enc, xs[1..])
  }

  lemma {:induction false} WireAppend<A>(enc: A -> Bytes, a: seq<A>, b: seq<A>)
    ensures Wire(enc, a + b) == Wire(enc, a) + Wire(enc, b)
    decreases a
  {
    if a == [] {
      assert a + b == b;
    } else {
      WireAppend(enc, a[1..], b);
      assert (a + b)[1..] == a[1..] + b;
      Assoc(enc(a[0]), Wire(enc, a[1..]), Wire(enc, b));
    }
  }

  lemma WireSplit<A>(enc: A -> Bytes, xs: seq<A>, k: nat)
    requires k <= |xs|
    ensures Wire(enc, xs) == Wire(enc, xs[..k]) + Wire(enc, xs[k..])
  {
    TakeDrop(xs, k);
    WireAppend(enc, xs[..k], xs[k..]);
  }

  lemma WireOne<A>(enc: A -> Bytes, x: A)
    ensures Wire(enc, [x]) == enc(x)
  {
    assert [x][1..] == [];
  }
}
