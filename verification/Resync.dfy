/** Resynchronisation on a damaged stream (lwmp_stream_resync in common/lwmp.c). */
module Resync {
  import opened ByteStrings
  import opened Lwmp

  /** The stream may continue here: a PDU mark, with a valid checksum if the header is complete. */
  predicate GoodStart(s: Bytes) {
    |s| >= 4 && s[..4] == PDU_MARK && (|s| >= HDR_SIZE ==> ChecksumOk(s))
  }

  predicate GoodAt(s: Bytes, i: nat)
    requires i <= |s|
  {
    GoodStart(s[i..])
  }

  predicate MarkAt(s: Bytes, i: nat) {
    i + 4 <= |s| && s[i..i + 4] == PDU_MARK
  }

  /** r is the longest suffix of s at which the stream may continue, or nothing when there is none. */
  ghost predicate IsLongestGood(s: Bytes, r: Bytes) {
    && |r| <= |s|
    && r == s[|s| - |r|..]
    && (r == [] || GoodStart(r))
    && forall i | 0 <= i < |s| - |r| :: !GoodAt(s, i)
  }

  lemma NoLonger(s: Bytes, r: Bytes, t: Bytes)
    requires IsLongestGood(s, r) && IsLongestGood(s, t)
    ensures |t| <= |r|
  {
    if t != [] { assert GoodAt(s, |s| - |t|); }
  }

  /** There is exactly one answer. */
  lemma LongestGoodUnique(s: Bytes, r: Bytes, t: Bytes)
    requires IsLongestGood(s, r) && IsLongestGood(s, t)
    ensures r == t
  {
    NoLonger(s, r, t);
    NoLonger(s, t, r);
  }

  function Resynced(s: Bytes): (r: Bytes)
    ensures IsLongestGood(s, r)
    decreases |s|
  {
    if |s| < 4 then
      assert s[|s|..] == [];
      []
    else if GoodStart(s) then
      assert s[0..] == s;
      s
    else
      var r := Resynced(s[1..]);
      assert s[0..] == s;
      DropOne(s, r);
      r
  }

  lemma DropOne(s: Bytes, r: Bytes)
    requires |s| >= 1 && IsLongestGood(s[1..], r) && !GoodAt(s, 0)
    ensures IsLongestGood(s, r)
  {
    assert s[1..][|s| - 1 - |r|..] == s[|s| - |r|..];
    forall i | 0 <= i < |s| - |r|
      ensures !GoodAt(s, i)
    {
      if i > 0 {
        assert s[i..] == s[1..][i - 1..];
        assert !GoodAt(s[1..], i - 1);
      }
    }
  }

  /** memmem for the PDU mark in the first size bytes of the buffer. */
  method FindMark(buf: array<bv8>, size: nat) returns (found: bool, at: nat)
    requires size <= buf.Length
    ensures found ==> MarkAt(buf[..size], at)
    ensures forall i | 0 <= i < (if found then at else size) :: !MarkAt(buf[..size], i)
  {
    at := 0;
    while at + 4 <= size
      invariant at <= size
      invariant forall i | 0 <= i < at :: !MarkAt(buf[..size], i)
    {
      assert buf[..size][at..at + 4] == buf[at..at + 4];
      if buf[at..at + 4] == PDU_MARK {
        return true, at;
      }
      at := at + 1;
    }
    return false, size;
  }

  /** memmove of the tail that starts at `from` to the front of the buffer. */
  method MoveToFront(buf: array<bv8>, from: nat, size: nat)
    requires from <= size <= buf.Length
    modifies buf
    ensures buf[..size - from] == old(buf[..size])[from..]
  {
    ghost var was := buf[..size];
    var i := 0;
    while i < size - from
      invariant 0 <= i <= size - from
      invariant forall k | 0 <= k < i :: buf[k] == was[from + k]
      invariant forall k | i <= k < size :: buf[k] == was[k]
    {
      buf[i] := buf[from + i];
      i := i + 1;
    }
  }

  /** t is what the buffer holds of the input: its tail, possibly with the first byte overwritten. */
  ghost predicate Tail(input: Bytes, skipped: nat, t: Bytes) {
    && skipped <= |input|
    && (t == input[skipped..]
        || (skipped < |input| && !GoodAt(input, skipped) && t == [0] + input[skipped + 1..]))
  }

  lemma GoodHasMark(input: Bytes, skipped: nat, t: Bytes, j: nat)
    requires Tail(input, skipped, t) && j < |t|
    ensures GoodAt(input, skipped + j) ==> MarkAt(t, j)
  {
    if j > 0 || t == input[skipped..] {
      assert input[skipped + j..] == t[j..];
      if j + 4 <= |t| { assert t[j..][..4] == t[j..j + 4]; }
    }
  }

  /** Where the buffer shows no mark the input has no good start. */
  lemma SkippedMarks(input: Bytes, skipped: nat, t: Bytes, n: nat)
    requires Tail(input, skipped, t) && n <= |t|
    requires forall i | 0 <= i < n :: !MarkAt(t, i)
    requires forall i | 0 <= i < skipped :: !GoodAt(input, i)
    ensures forall i | 0 <= i < skipped + n :: !GoodAt(input, i)
  {
    forall i | skipped <= i < skipped + n
      ensures !GoodAt(input, i)
    {
      GoodHasMark(input, skipped, t, i - skipped);
      assert !MarkAt(t, i - skipped);
    }
  }

  /** Overwriting the first byte cannot make a mark, so a mark in the buffer is one of the input. */
  lemma FoundMark(input: Bytes, skipped: nat, t: Bytes, at: nat)
    requires Tail(input, skipped, t) && MarkAt(t, at)
    ensures |input| == skipped + |t| && t[at..] == input[skipped + at..] && input[skipped + at..][..4] == PDU_MARK
    ensures t[at] == 0xF7
  {
    assert t[at] == t[at..at + 4][0] == 0xF7;
    assert t[at..][..4] == t[at..at + 4];
    if t != input[skipped..] { assert at > 0; }
    assert t[at..] == input[skipped + at..];
  }

  /** Moves the first mark of the buffer to the front and checks the header it starts; a header that
      fails is blotted out. */
  method TryNextMark(buf: array<bv8>, size: nat, ghost input: Bytes, ghost skipped: nat)
    returns (newSize: nat, done: bool)
    requires size <= buf.Length && Tail(input, skipped, buf[..size])
    requires forall i | 0 <= i < skipped :: !GoodAt(input, i)
    modifies buf
    ensures newSize <= size && newSize <= |input|
    ensures forall i | 0 <= i < |input| - newSize :: !GoodAt(input, i)
    ensures done ==> buf[..newSize] == input[|input| - newSize..] && (newSize == 0 || GoodAt(input, |input| - newSize))
    ensures !done ==> 0 < newSize && Tail(input, |input| - newSize, buf[..newSize]) && buf[0] == 0
    ensures !done && newSize == size ==> old(buf[0]) == 0xF7
  {
    var found, at := FindMark(buf, size);
    ghost var before := buf[..size];
    SkippedMarks(input, skipped, before, if found then at else size);
    if !found {
      return 0, true;
    }
    FoundMark(input, skipped, before, at);
    newSize := size - at;
    MoveToFront(buf, at, size);
    done := CheckFront(buf, newSize, input[skipped + at..]);
    FrontMeans(input, skipped + at, done, buf[..newSize]);
  }

  lemma FrontMeans(input: Bytes, from: nat, good: bool, t: Bytes)
    requires from < |input| && (good <==> GoodStart(input[from..]))
    requires t == if good then input[from..] else [0] + input[from..][1..]
    ensures good ==> t == input[from..] && GoodAt(input, from)
    ensures !good ==> Tail(input, from, t)
  {
    assert input[from..][1..] == input[from + 1..];
  }

  /** The header at the front of the buffer is checked if it is complete, and blotted out if it is bad. */
  method CheckFront(buf: array<bv8>, size: nat, ghost rest: Bytes) returns (good: bool)
    requires 4 <= size <= buf.Length && buf[..size] == rest && rest[..4] == PDU_MARK
    modifies buf
    ensures good <==> GoodStart(rest)
    ensures buf[..size] == if good then rest else [0] + rest[1..]
    ensures !good ==> buf[0] == 0
  {
    good := true;
    if size >= HDR_SIZE {
      assert buf[..CRC_OFFSET] == rest[..CRC_OFFSET] && buf[CRC_OFFSET..HDR_SIZE] == rest[CRC_OFFSET..HDR_SIZE];
      if buf[CRC_OFFSET..HDR_SIZE] != Sum(buf[..CRC_OFFSET]) {
        Blot(buf, size);
        good := false;
      }
    }
  }

  method Blot(buf: array<bv8>, size: nat)
    requires 0 < size <= buf.Length
    modifies buf
    ensures buf[0] == 0 && buf[..size] == [0] + old(buf[1..size])
  {
    buf[0] := 0;
  }

  /** Resynchronises in place. On return the longest good suffix of the input stands at the front of
      the buffer, and its length is returned; 0 means there is none. */
  method StreamResync(buf: array<bv8>, size: nat) returns (newSize: nat)
    requires size <= buf.Length
    modifies buf
    ensures newSize <= size && IsLongestGood(old(buf[..size]), buf[..newSize])
    ensures buf[..newSize] == Resynced(old(buf[..size]))
  {
    ghost var input := buf[..size];
    newSize := size;
    var done := false;
    assert input[0..] == input;
    while !done
      invariant newSize <= size
      invariant forall i | 0 <= i < size - newSize :: !GoodAt(input, i)
      invariant !done ==> Tail(input, size - newSize, buf[..newSize])
      invariant done ==> buf[..newSize] == input[size - newSize..] && (newSize == 0 || GoodAt(input, size - newSize))
      decreases if done then 0 else 1, newSize, if newSize > 0 && buf[0] == 0 then 0 else 1
    {
      newSize, done := TryNextMark(buf, newSize, input, size - newSize);
    }
    LongestGoodUnique(input, buf[..newSize], Resynced(input));
  }
}
