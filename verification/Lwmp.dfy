/** The wire format of common/lwmp.h: PDUs with an 81-byte header, chunks with a 38-byte header. */
module Lwmp {
  import opened ByteStrings
  import Crc32

  const UNAME_SIZE := 32
  const OPTDATA_LEN := 32
  const MAX_PDU_SIZE := 4096
  const HDR_SIZE := 81
  const CHUNK_HDR_SIZE := 38
  const PDU_BUF_SIZE := 4015
  const CHUNK_BUF_SIZE := 4058
  const CRC_OFFSET := 77
  const TWO_64 := 0x1_0000_0000_0000_0000

  const PDU_MARK: Bytes := [0xF7, 0xC3, 0xED, 0xA8]
  const CHUNK_MARK: Bytes := [0x4F, 0xE2, 0xCD, 0x81]

  const MT_NONE: bv8 := 0
  const MT_MSG: bv8 := 1
  const MT_FILE: bv8 := 2
  const MT_REQ: bv8 := 3
  const MT_INFO: bv8 := 4

  datatype Header = Header(kind: bv8, subject: Bytes, opt: Bytes, size: nat) {
    predicate Valid() {
      |subject| == UNAME_SIZE && |opt| == OPTDATA_LEN && size < TWO_64
    }
  }

  function LowOctet(c: bv32): bv8 { (c & 0xFF) as bv8 }

  /** htonl: the bytes of a word, most significant first. */
  function HtoNL(c: bv32): (s: Bytes)
    ensures |s| == 4
  {
    [LowOctet(c >> 24), LowOctet(c >> 16), LowOctet(c >> 8), LowOctet(c)]
  }

  /** The four checksum bytes. */
  function Sum(covered: Bytes): (s: Bytes)
    ensures |s| == 4
  {
    HtoNL(Crc32.Crc(covered))
  }

  /** Everything before the checksum field. */
  function Covered(h: Header): (b: Bytes)
    requires h.Valid()
    ensures |b| == CRC_OFFSET
  {
    PDU_MARK + [h.kind] + h.subject + h.opt + BigEndian(h.size, 8)
  }

  function EncodeHeader(h: Header): (b: Bytes)
    requires h.Valid()
    ensures |b| == HDR_SIZE
  {
    Covered(h) + Sum(Covered(h))
  }

  predicate ChecksumOk(b: Bytes)
    requires |b| >= HDR_SIZE
  {
    b[CRC_OFFSET..HDR_SIZE] == Sum(b[..CRC_OFFSET])
  }

  function HeaderOf(b: Bytes): (h: Header)
    requires |b| >= HDR_SIZE
    ensures h.Valid()
  {
    NumberBounded(b[69..77]);
    Widths();
    Header(b[4], b[5..37], b[37..69], Number(b[69..77]))
  }

  lemma CoveredFields(h: Header)
    requires h.Valid()
    ensures var c := Covered(h);
      && c[..4] == PDU_MARK && c[4] == h.kind && c[5..37] == h.subject && c[37..69] == h.opt && c[69..77] == BigEndian(h.size, 8)
  {
    var p1 := PDU_MARK + [h.kind];
    var p2 := p1 + h.subject;
    var p3 := p2 + h.opt;
    var size := BigEndian(h.size, 8);
    SliceLeft(p3, size, 0, 4);
    SliceLeft(p3, size, 5, 37);
    SliceLeft(p3, size, 37, 69);
    SliceRight(p3, size, 69, 77);
    SliceLeft(p2, h.opt, 0, 4);
    SliceLeft(p2, h.opt, 5, 37);
    SliceRight(p2, h.opt, 37, 69);
    SliceLeft(p1, h.subject, 0, 4);
    SliceRight(p1, h.subject, 5, 37);
    SliceLeft(PDU_MARK, [h.kind], 0, 4);
  }

  /** What of a header can be read off its covered part. */
  lemma HeaderSlices(c: Bytes, sum: Bytes, rest: Bytes)
    requires |c| == CRC_OFFSET && |sum| == 4
    ensures var b := (c + sum) + rest;
      && b[..CRC_OFFSET] == c && b[CRC_OFFSET..HDR_SIZE] == sum && b[HDR_SIZE..] == rest
      && b[..4] == c[..4] && b[4] == c[4] && b[5..37] == c[5..37] && b[37..69] == c[37..69] && b[69..77] == c[69..77]
  {
  }

  /** A receiver reads back the header a sender wrote, whatever follows it. */
  lemma HeaderRoundTrip(h: Header, rest: Bytes)
    requires h.Valid()
    ensures ChecksumOk(EncodeHeader(h) + rest) && HeaderOf(EncodeHeader(h) + rest) == h
    ensures (EncodeHeader(h) + rest)[..4] == PDU_MARK
  {
    CoveredFields(h);
    HeaderSlices(Covered(h), Sum(Covered(h)), rest);
    Widths();
    BigEndianRoundTrip(h.size, 8);
  }

  /** Where the fields of a header are, the checksum with its most significant byte first. */
  lemma HeaderLayout(h: Header)
    requires h.Valid()
    ensures var b := EncodeHeader(h);
      && b[..4] == [0xF7, 0xC3, 0xED, 0xA8] && b[4] == h.kind && b[5..37] == h.subject && b[37..69] == h.opt
      && InWord(b[77..81]) == Crc32.Crc(b[..77])
  {
    CoveredFields(h);
    HeaderSlices(Covered(h), Sum(Covered(h)), []);
    assert EncodeHeader(h) + [] == EncodeHeader(h);
    WordBytes(Crc32.Crc(Covered(h)));
  }

  /** The size likewise: byte k of eight. */
  lemma HeaderSizeAt(h: Header, k: nat)
    requires h.Valid() && k < 8
    ensures EncodeHeader(h)[69 + k] as nat == h.size / Power256(7 - k) % 256
  {
    CoveredFields(h);
    BigEndianAt(h.size, 8, k);
    assert Covered(h)[69..77][k] == EncodeHeader(h)[69 + k];
  }

  /** Four bytes as a word, the first one on top. */
  function InWord(b: Bytes): bv32
    requires |b| == 4
  {
    (b[0] as bv32 << 24) | (b[1] as bv32 << 16) | (b[2] as bv32 << 8) | b[3] as bv32
  }

  lemma WordBytes(c: bv32)
    ensures InWord(HtoNL(c)) == c
  {
  }

  // ---------- Frames ----------

  datatype Frame =
    | Pdu(hdr: Header, payload: Bytes)
    | Chunk(subject: Bytes, data: Bytes)

  /** How many payload bytes travel with a PDU header: a longer file continues in chunks. */
  function WirePayload(kind: bv8, size: nat): nat {
    if kind == MT_FILE && size > PDU_BUF_SIZE then PDU_BUF_SIZE else size
  }

  /** total_needed: how much of the buffer a PDU takes up, in 64 bits. */
  function TotalNeeded(hdr: Header): nat
    requires hdr.Valid()
  {
    var total := HDR_SIZE + WirePayload(hdr.kind, hdr.size);
    if total < TWO_64 then total else total - TWO_64
  }

  /** Frames are those whose size fits 64 bits. */
  predicate ValidFrame(f: Frame) {
    match f
    case Pdu(hdr, payload) => hdr.Valid() && |payload| == WirePayload(hdr.kind, hdr.size) && HDR_SIZE + |payload| < TWO_64
    case Chunk(subject, data) => |subject| == UNAME_SIZE && |data| < 0x1_0000
  }

  /** Frames that a well-behaved peer can put on the wire. */
  type WireFrame = f: Frame | ValidFrame(f) witness Chunk(Zeros(32), [])

  function ChunkHeader(subject: Bytes, size: nat): (b: Bytes)
    requires |subject| == UNAME_SIZE
    ensures |b| == CHUNK_HDR_SIZE
  {
    CHUNK_MARK + BigEndian(size, 2) + subject
  }

  function Encode(f: WireFrame): (b: Bytes)
    ensures |b| == FrameSize(f) && |b| >= CHUNK_HDR_SIZE
  {
    match f
    case Pdu(hdr, payload) => EncodeHeader(hdr) + payload
    case Chunk(subject, data) => ChunkHeader(subject, |data|) + data
  }

  function FrameSize(f: Frame): nat {
    match f
    case Pdu(_, payload) => HDR_SIZE + |payload|
    case Chunk(_, data) => CHUNK_HDR_SIZE + |data|
  }

  /** What a receiver sees at the head of its buffer. */
  datatype Head =
    | NeedMore
    | Whole(frame: WireFrame)
    | Wrapped(hdr: Header, total: nat)   // a header for which total_needed is less than the header itself
    | BadChecksum
    | NoMark

  function HeadOf(buf: Bytes): (h: Head)
    ensures h.Whole? ==> FrameSize(h.frame) <= |buf|
    ensures h.Wrapped? ==> h.hdr.Valid() && h.total < HDR_SIZE <= |buf|
  {
    if |buf| < 4 then NeedMore
    else if buf[..4] == PDU_MARK then
      if |buf| < HDR_SIZE then NeedMore
      else if !ChecksumOk(buf) then BadChecksum
      else
        var hdr := HeaderOf(buf);
        var needed := TotalNeeded(hdr);
        if |buf| < needed then NeedMore
        else if needed < HDR_SIZE then Wrapped(hdr, needed)
        else Whole(Pdu(hdr, buf[HDR_SIZE..needed]))
    else if buf[..4] == CHUNK_MARK then
      if |buf| < CHUNK_HDR_SIZE then NeedMore
      else
        var needed := CHUNK_HDR_SIZE + ChunkSize(buf);
        if |buf| < needed then NeedMore else Whole(Chunk(buf[6..CHUNK_HDR_SIZE], buf[CHUNK_HDR_SIZE..needed]))
    else NoMark
  }

  function ChunkSize(buf: Bytes): (n: nat)
    requires |buf| >= CHUNK_HDR_SIZE
    ensures n < 0x1_0000
  {
    NumberBounded(buf[4..6]);
    Widths();
    Number(buf[4..6])
  }

  lemma ChunkHeaderRoundTrip(subject: Bytes, size: nat, rest: Bytes)
    requires |subject| == UNAME_SIZE && size < 0x1_0000
    ensures var b := ChunkHeader(subject, size) + rest;
      b[..4] == CHUNK_MARK && ChunkSize(b) == size && b[6..CHUNK_HDR_SIZE] == subject && b[CHUNK_HDR_SIZE..] == rest
  {
    var b := ChunkHeader(subject, size) + rest;
    assert b[..4] == CHUNK_MARK;
    assert b[4..6] == BigEndian(size, 2);
    assert b[6..CHUNK_HDR_SIZE] == subject;
    Widths();
    BigEndianRoundTrip(size, 2);
  }

  /** Where the fields of a chunk header are. */
  lemma ChunkLayout(subject: Bytes, size: nat)
    requires |subject| == UNAME_SIZE && size < 0x1_0000
    ensures var b := ChunkHeader(subject, size);
      && b[..4] == [0x4F, 0xE2, 0xCD, 0x81] && b[6..38] == subject
      && b[4] as nat == size / Power256(1) % 256 && b[5] as nat == size / Power256(0) % 256
  {
    BigEndianAt(size, 2, 0);
    BigEndianAt(size, 2, 1);
    ChunkFields(BigEndian(size, 2), subject);
  }

  lemma ChunkFields(size: Bytes, subject: Bytes)
    requires |size| == 2 && |subject| == UNAME_SIZE
    ensures var b := CHUNK_MARK + size + subject;
      b[..4] == CHUNK_MARK && b[4] == size[0] && b[5] == size[1] && b[6..38] == subject
  {
  }

  lemma MarksDiffer()
    ensures PDU_MARK != CHUNK_MARK
  {
    assert PDU_MARK[0] != CHUNK_MARK[0];
  }

  lemma HeadOfPdu(hdr: Header, payload: Bytes, rest: Bytes)
    requires ValidFrame(Pdu(hdr, payload))
    ensures HeadOf(EncodeHeader(hdr) + (payload + rest)) == Whole(Pdu(hdr, payload))
  {
    var b := EncodeHeader(hdr) + (payload + rest);
    HeaderRoundTrip(hdr, payload + rest);
    assert b[HDR_SIZE..HDR_SIZE + |payload|] == payload;
  }

  lemma HeadOfChunk(subject: Bytes, data: Bytes, rest: Bytes)
    requires ValidFrame(Chunk(subject, data))
    ensures HeadOf(ChunkHeader(subject, |data|) + (data + rest)) == Whole(Chunk(subject, data))
  {
    var b := ChunkHeader(subject, |data|) + (data + rest);
    ChunkHeaderRoundTrip(subject, |data|, data + rest);
    MarksDiffer();
    assert b[CHUNK_HDR_SIZE..CHUNK_HDR_SIZE + |data|] == data;
  }

  /** A whole encoded frame is recognised as that frame, whatever follows it. */
  lemma HeadOfEncoded(f: WireFrame, rest: Bytes)
    ensures HeadOf(Encode(f) + rest) == Whole(f)
  {
    match f {
      case Pdu(hdr, payload) =>
        Assoc(EncodeHeader(hdr), payload, rest);
        HeadOfPdu(hdr, payload, rest);
      case Chunk(subject, data) =>
        Assoc(ChunkHeader(subject, |data|), data, rest);
        HeadOfChunk(subject, data, rest);
    }
  }

  lemma HeadOfPduPrefix(hdr: Header, payload: Bytes, n: nat)
    requires ValidFrame(Pdu(hdr, payload)) && n < HDR_SIZE + |payload|
    ensures HeadOf((EncodeHeader(hdr) + payload)[..n]) == NeedMore
  {
    if n >= HDR_SIZE {
      Cut(EncodeHeader(hdr), payload, n);
      HeadOfPduStart(hdr, payload[..n - HDR_SIZE]);
    } else if n >= 4 {
      HeaderRoundTrip(hdr, payload);
      ShorterPrefix(EncodeHeader(hdr) + payload, n);
    }
  }

  lemma HeadOfPduStart(hdr: Header, some: Bytes)
    requires hdr.Valid() && |some| < WirePayload(hdr.kind, hdr.size) && HDR_SIZE + WirePayload(hdr.kind, hdr.size) < TWO_64
    ensures HeadOf(EncodeHeader(hdr) + some) == NeedMore
  {
    HeaderRoundTrip(hdr, some);
  }

  lemma HeadOfChunkPrefix(subject: Bytes, data: Bytes, n: nat)
    requires ValidFrame(Chunk(subject, data)) && n < CHUNK_HDR_SIZE + |data|
    ensures HeadOf((ChunkHeader(subject, |data|) + data)[..n]) == NeedMore
  {
    MarksDiffer();
    if n >= CHUNK_HDR_SIZE {
      Cut(ChunkHeader(subject, |data|), data, n);
      ChunkHeaderRoundTrip(subject, |data|, data[..n - CHUNK_HDR_SIZE]);
    } else if n >= 4 {
      ChunkHeaderRoundTrip(subject, |data|, data);
      ShorterPrefix(ChunkHeader(subject, |data|) + data, n);
    }
  }

  lemma ShorterPrefix(b: Bytes, n: nat)
    requires 4 <= n <= |b|
    ensures b[..n][..4] == b[..4]
  {
  }

  /** A proper prefix of an encoded frame makes the receiver wait, never resynchronise. */
  lemma HeadOfPrefix(f: WireFrame, n: nat)
    requires n < FrameSize(f)
    ensures HeadOf(Encode(f)[..n]) == NeedMore
  {
    match f
    case Pdu(hdr, payload) => HeadOfPduPrefix(hdr, payload, n);
    case Chunk(subject, data) => HeadOfChunkPrefix(subject, data, n);
  }

  /** A header that announces 2^64 - 81 bytes or more is recognised at once, whatever follows it. */
  lemma HeadOfWrapped(hdr: Header, rest: Bytes)
    requires hdr.Valid()
    ensures HeadOf(EncodeHeader(hdr) + rest).Wrapped? <==> hdr.kind != MT_FILE && HDR_SIZE + hdr.size >= TWO_64
    ensures HeadOf(EncodeHeader(hdr) + rest).Wrapped? ==>
              HeadOf(EncodeHeader(hdr) + rest) == Wrapped(hdr, HDR_SIZE + hdr.size - TWO_64)
  {
    HeaderRoundTrip(hdr, rest);
  }

  function EncodeAll(fs: seq<WireFrame>): Bytes { Wire(Encode, fs) }
}
