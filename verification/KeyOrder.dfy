/** The two comparators of the hash tables: user names (std_client_cmp in server/clhandle.c) and addresses
    (ip_cmp in server/ipblock.c). A chain stays sorted only if its comparator is a strict total order. */
module KeyOrder {
  import opened ByteStrings

  type Compare = (Bytes, Bytes) -> int

  predicate Less(cmp: Compare, a: Bytes, b: Bytes) { cmp(a, b) < 0 }

  predicate Ascending(cmp: Compare, a: Bytes, b: Bytes, c: Bytes) { Less(cmp, a, b) && Less(cmp, b, c) }

  /** cmp is the three-way comparison of a total order on the keys in question. */
  ghost predicate TotalOrder(cmp: Compare, key: Bytes -> bool) {
    && (forall a, b | key(a) && key(b) :: cmp(a, b) == 0 <==> a == b)
    && (forall a, b | key(a) && key(b) && cmp(a, b) < 0 :: cmp(b, a) > 0)
    && (forall a, b | key(a) && key(b) && cmp(a, b) > 0 :: cmp(b, a) < 0)
    && (forall a, b, c {:trigger Ascending(cmp, a, b, c)} |
          key(a) && key(b) && key(c) && Ascending(cmp, a, b, c) :: Less(cmp, a, c))
  }

  // ---------- User names ----------

  /** strncmp: stops at n characters, at a difference, or after a common NUL. */
  function StrNCmp(a: Bytes, b: Bytes, n: nat): int
    requires n <= |a| && n <= |b|
    decreases n
  {
    if n == 0 then 0
    else if a[0] != b[0] then Value(a[0]) - Value(b[0])
    else if a[0] == 0 then 0
    else StrNCmp(a[1..], b[1..], n - 1)
  }

  function StdClientCmp(a: Bytes, b: Bytes): int {
    var res := StrNCmp(a, b, if |a| < |b| then |a| else |b|);
    if res != 0 then res else |a| - |b|
  }

  predicate NulFree(a: Bytes) { 0 !in a }

  lemma ValueInjective(x: bv8, y: bv8)
    requires Value(x) == Value(y)
    ensures x == y
  {
    SplitByte(x);
    SplitByte(y);
    assert NibbleValue(x >> 4) == NibbleValue(y >> 4) && NibbleValue(x & 15) == NibbleValue(y & 15);
    NibbleInjective(x >> 4, y >> 4);
    NibbleInjective(x & 15, y & 15);
  }

  lemma SplitByte(x: bv8)
    ensures x == ((x >> 4) << 4) | (x & 15) && x >> 4 < 16 && x & 15 < 16
  {
  }

  lemma NibbleInjective(x: bv8, y: bv8)
    requires x < 16 && y < 16 && NibbleValue(x) == NibbleValue(y)
    ensures x == y
  {
    assert NibbleOf(NibbleValue(x)) == x && NibbleOf(NibbleValue(y)) == y;
  }

  /** On NUL-free names, one more common character changes nothing. */
  lemma StdClientCmpStep(a: Bytes, b: Bytes)
    requires a != [] && b != [] && NulFree(a) && NulFree(b)
    ensures StdClientCmp(a, b) == if a[0] != b[0] then Value(a[0]) - Value(b[0]) else StdClientCmp(a[1..], b[1..])
    ensures a[0] != b[0] ==> Value(a[0]) != Value(b[0])
  {
    if a[0] != b[0] && Value(a[0]) == Value(b[0]) { ValueInjective(a[0], b[0]); }
  }

  lemma {:induction false} StdClientCmpEqual(a: Bytes, b: Bytes)
    requires NulFree(a) && NulFree(b)
    ensures StdClientCmp(a, b) == 0 <==> a == b
    decreases |a|
  {
    if a != [] && b != [] {
      StdClientCmpStep(a, b);
      if a[0] == b[0] {
        StdClientCmpEqual(a[1..], b[1..]);
        HeadTail(a);
        HeadTail(b);
      }
    }
  }

  lemma {:induction false} StdClientCmpAntisymmetric(a: Bytes, b: Bytes)
    requires NulFree(a) && NulFree(b)
    ensures StdClientCmp(b, a) == -StdClientCmp(a, b)
    decreases |a|
  {
    if a != [] && b != [] {
      StdClientCmpStep(a, b);
      StdClientCmpStep(b, a);
      if a[0] == b[0] { StdClientCmpAntisymmetric(a[1..], b[1..]); }
    }
  }

  lemma {:induction false} StdClientCmpTransitive(a: Bytes, b: Bytes, c: Bytes)
    requires NulFree(a) && NulFree(b) && NulFree(c)
    requires StdClientCmp(a, b) < 0 && StdClientCmp(b, c) < 0
    ensures StdClientCmp(a, c) < 0
    decreases |a|
  {
    if a != [] {
      StdClientCmpStep(a, b);
      StdClientCmpStep(b, c);
      StdClientCmpStep(a, c);
      if a[0] == b[0] == c[0] { StdClientCmpTransitive(a[1..], b[1..], c[1..]); }
    }
  }

  /** User names are totally ordered, since none contains a NUL. */
  lemma UserNamesOrdered()
    ensures TotalOrder(StdClientCmp, NulFree)
  {
    forall a, b | NulFree(a) && NulFree(b)
      ensures StdClientCmp(a, b) == 0 <==> a == b
      ensures StdClientCmp(b, a) == -StdClientCmp(a, b)
    {
      StdClientCmpEqual(a, b);
      StdClientCmpAntisymmetric(a, b);
    }
    forall a, b, c | NulFree(a) && NulFree(b) && NulFree(c) && Ascending(StdClientCmp, a, b, c)
      ensures Less(StdClientCmp, a, c)
    {
      StdClientCmpTransitive(a, b, c);
    }
  }

  lemma BytesCompare(x: bv8, y: bv8)
    ensures Value(x) < Value(y) <==> x < y
  {
    ValueIsByte(x);
    ValueIsByte(y);
  }

  /** Which order that is: by the first byte in which two names differ, as an unsigned number; a name comes before
      its continuations. */
  lemma {:induction false} NamesByFirstDifference(a: Bytes, b: Bytes, k: nat)
    requires NulFree(a) && NulFree(b) && k <= |a| && k <= |b| && a[..k] == b[..k]
    ensures k < |a| && k < |b| && a[k] != b[k] ==> (StdClientCmp(a, b) < 0 <==> a[k] < b[k])
    ensures k == |a| < |b| ==> StdClientCmp(a, b) < 0
    decreases k
  {
    if k > 0 {
      assert a[0] == a[..k][0] == b[..k][0] == b[0];
      StdClientCmpStep(a, b);
      assert a[1..][..k - 1] == a[..k][1..] == b[..k][1..] == b[1..][..k - 1];
      NamesByFirstDifference(a[1..], b[1..], k - 1);
    } else if a != [] && b != [] && a[0] != b[0] {
      StdClientCmpStep(a, b);
      BytesCompare(a[0], b[0]);
    }
  }

  lemma {:induction false} StrNCmpZero(a: Bytes, b: Bytes)
    requires |a| == |b|
    ensures StrNCmp(a, b, |a|) == 0 <==> CString(a) == CString(b)
    decreases |a|
  {
    if a != [] {
      if a[0] != b[0] {
        if Value(a[0]) == Value(b[0]) { ValueInjective(a[0], b[0]); }
        FirstOfCString(a);
        FirstOfCString(b);
      } else {
        StrNCmpZero(a[1..], b[1..]);
        if a[0] != 0 {
          assert CString(a)[1..] == CString(a[1..]) && CString(b)[1..] == CString(b[1..]);
          assert CString(a) == [a[0]] + CString(a[1..]);
        }
      }
    }
  }

  lemma FirstOfCString(a: Bytes)
    requires a != []
    ensures a[0] == 0 ==> CString(a) == []
    ensures a[0] != 0 ==> CString(a) != [] && CString(a)[0] == a[0]
  {
  }

  /** On all keys: two names compare equal exactly when their lengths and the text before the first NUL
      agree, so keys that differ after a NUL would be taken for one another. */
  lemma StdClientCmpZero(a: Bytes, b: Bytes)
    ensures StdClientCmp(a, b) == 0 <==> |a| == |b| && CString(a) == CString(b)
  {
    if |a| == |b| { StrNCmpZero(a, b); }
  }

  lemma NulsConfuseNames()
    ensures !TotalOrder(StdClientCmp, a => true)
  {
    var a: Bytes, b: Bytes := [0, 1], [0, 2];
    StdClientCmpZero(a, b);
    FirstOfCString(a);
    FirstOfCString(b);
    assert a[1] != b[1];
  }

  // ---------- Addresses ----------

  /** The loop over the bytes of an address from byte i on. */
  function IpCmpFrom(a: Bytes, b: Bytes, i: nat): int
    requires |a| == |b| && i <= |a|
    decreases |a| - i
  {
    if i == |a| then 0
    else if Value(a[i]) - Value(b[i]) != 0 then Value(a[i]) - Value(b[i])
    else IpCmpFrom(a, b, i + 1)
  }

  predicate Address(a: Bytes) { |a| == 4 }

  function IpCmp(a: Bytes, b: Bytes): int {
    if |a| == |b| then IpCmpFrom(a, b, 0) else |a| - |b|
  }

  lemma {:induction false} IpCmpFromOrder(a: Bytes, b: Bytes, i: nat)
    requires |a| == |b| && i <= |a|
    ensures IpCmpFrom(a, b, i) == 0 <==> a[i..] == b[i..]
    ensures IpCmpFrom(b, a, i) == -IpCmpFrom(a, b, i)
    decreases |a| - i
  {
    if i < |a| {
      IpCmpFromOrder(a, b, i + 1);
      HeadTail(a[i..]);
      HeadTail(b[i..]);
      assert a[i..][1..] == a[i + 1..] && b[i..][1..] == b[i + 1..];
      if Value(a[i]) == Value(b[i]) { ValueInjective(a[i], b[i]); }
    }
  }

  /** Addresses likewise, by the first byte that differs. */
  lemma {:induction false} AddressesByFirstDifference(a: Bytes, b: Bytes, i: nat, k: nat)
    requires |a| == |b| && i <= k < |a| && a[k] != b[k] && forall j | i <= j < k :: a[j] == b[j]
    ensures IpCmpFrom(a, b, i) < 0 <==> a[k] < b[k]
    decreases k - i
  {
    if i < k {
      assert a[i] == b[i];
      AddressesByFirstDifference(a, b, i + 1, k);
    } else {
      BytesCompare(a[k], b[k]);
      if Value(a[k]) == Value(b[k]) { ValueInjective(a[k], b[k]); }
    }
  }

  lemma {:induction false} IpCmpFromTransitive(a: Bytes, b: Bytes, c: Bytes, i: nat)
    requires |a| == |b| == |c| && i <= |a|
    requires IpCmpFrom(a, b, i) < 0 && IpCmpFrom(b, c, i) < 0
    ensures IpCmpFrom(a, c, i) < 0
    decreases |a| - i
  {
    if i < |a| && Value(a[i]) == Value(b[i]) == Value(c[i]) { IpCmpFromTransitive(a, b, c, i + 1); }
  }

  lemma AddressesOrdered()
    ensures TotalOrder(IpCmp, Address)
  {
    forall a, b | Address(a) && Address(b)
      ensures IpCmp(a, b) == 0 <==> a == b
      ensures IpCmp(b, a) == -IpCmp(a, b)
    {
      IpCmpFromOrder(a, b, 0);
      assert a[0..] == a && b[0..] == b;
    }
    forall a, b, c | Address(a) && Address(b) && Address(c) && Ascending(IpCmp, a, b, c)
      ensures Less(IpCmp, a, c)
    {
      IpCmpFromTransitive(a, b, c, 0);
    }
  }
}
