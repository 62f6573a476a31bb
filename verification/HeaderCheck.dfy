/** What the checksum of a header is worth to the server's validator (lwmp_validate_hdrs in common/lwmp.c). */
module HeaderCheck {
  import opened ByteStrings
  import opened Lwmp
  import opened Relay
  import Crc32

  lemma WordOfBytes(x: bv32, y: bv32)
    requires ((x >> 24) & 0xFF) == ((y >> 24) & 0xFF) && ((x >> 16) & 0xFF) == ((y >> 16) & 0xFF)
    requires ((x >> 8) & 0xFF) == ((y >> 8) & 0xFF) && (x & 0xFF) == (y & 0xFF)
    ensures x == y
  {
  }

  lemma SameLowOctet(x: bv32, y: bv32)
    requires LowOctet(x) == LowOctet(y)
    ensures x & 0xFF == y & 0xFF
  {
  }

  lemma OctetsDetermine(x: bv32, y: bv32)
    requires LowOctet(x >> 24) == LowOctet(y >> 24) && LowOctet(x >> 16) == LowOctet(y >> 16)
    requires LowOctet(x >> 8) == LowOctet(y >> 8) && LowOctet(x) == LowOctet(y)
    ensures x == y
  {
    SameLowOctet(x >> 24, y >> 24);
    SameLowOctet(x >> 16, y >> 16);
    SameLowOctet(x >> 8, y >> 8);
    SameLowOctet(x, y);
    WordOfBytes(x, y);
  }

  lemma FourSame(a: bv8, b: bv8, c: bv8, d: bv8, p: bv8, q: bv8, r: bv8, s: bv8)
    requires [a, b, c, d] == [p, q, r, s]
    ensures a == p && b == q && c == r && d == s
  {
    assert [a, b, c, d][0] == [p, q, r, s][0] && [a, b, c, d][1] == [p, q, r, s][1];
    assert [a, b, c, d][2] == [p, q, r, s][2] && [a, b, c, d][3] == [p, q, r, s][3];
  }

  /** The bytes of a word determine it. */
  lemma HtoNLInjective(x: bv32, y: bv32)
    requires HtoNL(x) == HtoNL(y)
    ensures x == y
  {
    FourSame(LowOctet(x >> 24), LowOctet(x >> 16), LowOctet(x >> 8), LowOctet(x),
             LowOctet(y >> 24), LowOctet(y >> 16), LowOctet(y >> 8), LowOctet(y));
    OctetsDetermine(x, y);
  }

  lemma ChecksumField(b: Bytes)
    requires |b| == HDR_SIZE
    ensures b[CRC_OFFSET..HDR_SIZE] == b[CRC_OFFSET..]
  {
  }

  /** Up to four consecutive bytes of the covered part. */
  lemma CoveredChange(b: Bytes, c: Bytes, at: nat)
    requires |b| == |c| == HDR_SIZE && at + 4 <= CRC_OFFSET && b != c
    requires b[..at] == c[..at] && b[at + 4..] == c[at + 4..] && ChecksumOk(b)
    ensures !ChecksumOk(c)
  {
    var m, n := b[..CRC_OFFSET], c[..CRC_OFFSET];
    assert m[..at] == b[..at] == c[..at] == n[..at];
    assert m[at + 4..] == b[at + 4..][..CRC_OFFSET - at - 4] == c[at + 4..][..CRC_OFFSET - at - 4] == n[at + 4..];
    assert b[CRC_OFFSET..] == b[at + 4..][CRC_OFFSET - at - 4..] == c[at + 4..][CRC_OFFSET - at - 4..] == c[CRC_OFFSET..];
    TakeDrop(b, CRC_OFFSET);
    TakeDrop(c, CRC_OFFSET);
    Crc32.BurstDetected(m, n, at);
    if ChecksumOk(c) {
      ChecksumField(b);
      ChecksumField(c);
      HtoNLInjective(Crc32.Crc(m), Crc32.Crc(n));
    }
  }

  /** Any change of the checksum field. */
  lemma ChecksumChange(b: Bytes, c: Bytes)
    requires |b| == |c| == HDR_SIZE && b != c && b[..CRC_OFFSET] == c[..CRC_OFFSET] && ChecksumOk(b)
    ensures !ChecksumOk(c)
  {
    TakeDrop(b, CRC_OFFSET);
    TakeDrop(c, CRC_OFFSET);
    ChecksumField(b);
    ChecksumField(c);
  }

  /** A header whose checksum is right, changed in one byte anywhere, is never accepted by the validator. */
  lemma OneByteRejected(env: Env, dest: Bytes, b: Bytes, i: nat, x: bv8)
    requires |b| == HDR_SIZE && ChecksumOk(b) && i < HDR_SIZE && x != b[i]
    ensures Validate(env, b[i := x], dest) == if b[i := x][..4] != PDU_MARK then HvInvalPdu else HvCrcErr
  {
    var c := b[i := x];
    assert c[i] != b[i];
    if i < CRC_OFFSET {
      var at := if i <= CRC_OFFSET - 4 then i else CRC_OFFSET - 4;
      assert b[..at] == c[..at] && b[at + 4..] == c[at + 4..];
      CoveredChange(b, c, at);
    } else {
      assert b[..CRC_OFFSET] == c[..CRC_OFFSET];
      ChecksumChange(b, c);
    }
  }
}
