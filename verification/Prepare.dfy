/** Filling in PDUs and chunks in place (lwmp_prepare_response and lwmp_prepare_chunk in common/lwmp.c, and
    the re-stamping in server/worker.c), and what the peer reads out of them. */
module Prepare {
  import opened ByteStrings
  import opened Lwmp
  import opened Relay
  import opened RelayMessages
  import opened FrameStream
  import opened Rounds
  import opened HeaderCheck

  datatype Text = NoText | Text(chars: Bytes)

  /** X_RESPONSES. */
  function RespCode(s: Status): bv32 {
    match s
    case HvOk => 0x4F64_3180
    case HvFileNotAllowed => 0x7F1C_825B
    case HvFileTooBig => 0x1C33_7928
    case HvTextTooBig => 0x4829_CD33
    case HvCrcErr => 0xCC32_621A
    case HvInvalReq => 0x3738_AA64
    case HvInvalPdu => 0x337C_801A
    case HvInvalSubj => 0x772A_5C19
  }

  /** The payload of a response: the text up to its NUL, cut to what a PDU can carry, and a NUL. */
  function Body(text: Text): (b: Bytes)
    ensures |b| <= PDU_BUF_SIZE
  {
    match text
    case NoText => []
    case Text(chars) =>
      var s := CString(chars);
      (if |s| >= PDU_BUF_SIZE then s[..PDU_BUF_SIZE - 1] else s) + [0]
  }

  function ResponseHeader(kind: bv8, opt: Bytes, text: Text): (h: Header)
    requires |opt| <= OPTDATA_LEN
    ensures h.Valid()
  {
    Header(kind, Zeros(UNAME_SIZE), opt + Zeros(OPTDATA_LEN - |opt|), |Body(text)|)
  }

  /** The frame that a response is. */
  function Response(kind: bv8, opt: Bytes, text: Text): (f: WireFrame)
    requires |opt| <= OPTDATA_LEN
    ensures f.Pdu?
  {
    Pdu(ResponseHeader(kind, opt, text), Body(text))
  }

  function CutTo(s: Bytes, n: nat): Bytes { if |s| <= n then s else s[..n] }

  /** A response as it is read: type, an empty name, the optional data and zeros behind it, and, when there is a text,
      as much of it as a PDU carries with its NUL, which is counted. */
  ghost predicate ReadsAs(b: Bytes, kind: bv8, opt: Bytes, text: Text)
    requires |opt| <= 32
  {
    && |b| >= 81 && b[..4] == [0xF7, 0xC3, 0xED, 0xA8] && ChecksumOk(b)
    && var h := HeaderOf(b);
       && h.kind == kind && CString(h.subject) == [] && h.opt == opt + Zeros(32 - |opt|)
       && match text
          case NoText => h.size == 0
          case Text(chars) =>
            var t := CutTo(CString(chars), 4014);
            && h.size == |t| + 1 && |b| >= 81 + h.size
            && b[81..81 + h.size] == t + [0] && CString(b[81..81 + h.size]) == t
  }

  lemma {:induction false} EndsAtNul(t: Bytes, rest: Bytes)
    requires 0 !in t
    ensures CString(t + [0] + rest) == t
    decreases t
  {
    if t != [] {
      assert (t + [0] + rest)[1..] == t[1..] + [0] + rest;
      EndsAtNul(t[1..], rest);
      assert t[0] in t;
    }
  }

  lemma ResponseReads(kind: bv8, opt: Bytes, text: Text, rest: Bytes)
    requires |opt| <= OPTDATA_LEN
    ensures ReadsAs(Encode(Response(kind, opt, text)) + rest, kind, opt, text)
  {
    var h, body := ResponseHeader(kind, opt, text), Body(text);
    var b := Encode(Response(kind, opt, text)) + rest;
    Assoc(EncodeHeader(h), body, rest);
    HeaderRoundTrip(h, body + rest);
    CStringOfPadded([], UNAME_SIZE);
    assert [] + Zeros(UNAME_SIZE) == Zeros(UNAME_SIZE);
    if text.Text? {
      var t := CutTo(CString(text.chars), 4014);
      assert body == t + [0];
      assert b[81..81 + |body|] == body;
      EndsAtNul(t, []);
      assert t + [0] + [] == t + [0];
    }
  }

  // ---------- In place ----------

  /** A buffer laid out as consecutive fields. */
  function Flat(parts: seq<Bytes>): Bytes {
    if parts == [] then [] else Flat(parts[..|parts| - 1]) + parts[|parts| - 1]
  }

  function Over(s: Bytes, at: nat, data: Bytes): (r: Bytes)
    requires at + |data| <= |s|
    ensures |r| == |s|
  {
    s[..at] + data + s[at + |data|..]
  }

  lemma OverLast(s: Bytes, x: Bytes, data: Bytes)
    requires |data| == |x|
    ensures Over(s + x, |s|, data) == s + data
  {
    assert (s + x)[..|s|] == s && (s + x)[|s| + |data|..] == [];
  }

  lemma OverLeft(s: Bytes, t: Bytes, at: nat, data: Bytes)
    requires at + |data| <= |s|
    ensures Over(s + t, at, data) == Over(s, at, data) + t
  {
    var end := at + |data|;
    assert (s + t)[..at] == s[..at] && (s + t)[end..] == s[end..] + t;
    Assoc(s[..at] + data, s[end..], t);
  }

  /** Overwriting one field replaces it and nothing else. */
  lemma {:induction false} OverField(parts: seq<Bytes>, k: nat, data: Bytes)
    requires k < |parts| && |data| == |parts[k]|
    ensures |Flat(parts[..k])| + |data| <= |Flat(parts)|
    ensures Over(Flat(parts), |Flat(parts[..k])|, data) == Flat(parts[k := data])
    decreases |parts|
  {
    var n := |parts| - 1;
    if k == n {
      OverLast(Flat(parts[..n]), parts[n], data);
      assert parts[k := data][..n] == parts[..n];
    } else {
      OverField(parts[..n], k, data);
      assert parts[..n][..k] == parts[..k] && parts[k := data][..n] == parts[..n][k := data];
      OverLeft(Flat(parts[..n]), parts[n], |Flat(parts[..k])|, data);
    }
  }

  /** mark, type, subject, optional data, size, checksum, payload, and what else the buffer holds. */
  ghost predicate Layout(parts: seq<Bytes>, n: nat) {
    && |parts| == 8
    && |parts[0]| == 4 && |parts[1]| == 1 && |parts[2]| == UNAME_SIZE && |parts[3]| == OPTDATA_LEN
    && |parts[4]| == 8 && |parts[5]| == 4 && |parts[6]| == n
  }

  function Offset(k: nat): nat {
    match k case 0 => 0 case 1 => 4 case 2 => 5 case 3 => 37 case 4 => 69 case 5 => CRC_OFFSET case _ => HDR_SIZE
  }

  lemma {:induction false} OffsetsFit(parts: seq<Bytes>, n: nat, k: nat)
    requires Layout(parts, n) && k <= 6
    ensures |Flat(parts[..k])| == Offset(k)
  {
    if k > 0 {
      OffsetsFit(parts, n, k - 1);
      assert parts[..k][..k - 1] == parts[..k - 1];
    }
  }

  lemma FlatStep(parts: seq<Bytes>, k: nat)
    requires k < |parts|
    ensures Flat(parts[..k + 1]) == Flat(parts[..k]) + parts[k]
  {
    assert parts[..k + 1][..k] == parts[..k];
  }

  lemma UnfoldedFour(p: seq<Bytes>)
    requires |p| >= 4
    ensures Flat(p[..4]) == p[0] + p[1] + p[2] + p[3]
  {
    FlatStep(p, 0);
    FlatStep(p, 1);
    FlatStep(p, 2);
    FlatStep(p, 3);
    assert [] + p[0] == p[0];
  }

  lemma Unfolded(p: seq<Bytes>)
    requires |p| == 8
    ensures Flat(p) == p[0] + p[1] + p[2] + p[3] + p[4] + p[5] + p[6] + p[7]
  {
    UnfoldedFour(p);
    FlatStep(p, 4);
    FlatStep(p, 5);
    FlatStep(p, 6);
    FlatStep(p, 7);
    assert p[..8] == p;
  }

  /** Any buffer that is large enough, as fields. */
  function Fields(s: Bytes, n: nat): (parts: seq<Bytes>)
    requires |s| >= HDR_SIZE + n
  {
    [s[..4], s[4..5], s[5..37], s[37..69], s[69..CRC_OFFSET], s[CRC_OFFSET..HDR_SIZE], s[HDR_SIZE..HDR_SIZE + n], s[HDR_SIZE + n..]]
  }

  lemma FieldsAreAll(s: Bytes, n: nat)
    requires |s| >= HDR_SIZE + n
    ensures Flat(Fields(s, n)) == s
  {
    Unfolded(Fields(s, n));
    Join(s, 4, 5);
    Join(s, 5, 37);
    Join(s, 37, 69);
    Join(s, 69, CRC_OFFSET);
    Join(s, CRC_OFFSET, HDR_SIZE);
    Join(s, HDR_SIZE, HDR_SIZE + n);
    TakeDrop(s, HDR_SIZE + n);
  }

  lemma Join(s: Bytes, i: nat, j: nat)
    requires i <= j <= |s|
    ensures s[..i] + s[i..j] == s[..j]
  {
  }

  function PduParts(h: Header, sum: Bytes, body: Bytes, rest: Bytes): (parts: seq<Bytes>)
    ensures |parts| == 8
  {
    [PDU_MARK, [h.kind], h.subject, h.opt, BigEndian(h.size, 8), sum, body, rest]
  }

  /** The fields of a whole PDU of header h. */
  lemma PduFields(h: Header, body: Bytes, rest: Bytes)
    requires h.Valid()
    ensures Flat(PduParts(h, Sum(Covered(h)), body, rest)) == (EncodeHeader(h) + body) + rest
  {
    Unfolded(PduParts(h, Sum(Covered(h)), body, rest));
  }

  /** What the checksum is taken over. */
  lemma CoveredInFront(h: Header, sum: Bytes, body: Bytes, rest: Bytes)
    requires h.Valid()
    ensures var s := Flat(PduParts(h, sum, body, rest));
      |s| >= CRC_OFFSET && s[..CRC_OFFSET] == Covered(h)
  {
    Unfolded(PduParts(h, sum, body, rest));
    Assoc(Covered(h), sum, body);
    Assoc(Covered(h), sum + body, rest);
    Cut(Covered(h), (sum + body) + rest, CRC_OFFSET);
  }

  /** memcpy, memset, strncpy or an assignment. */
  method Write(a: array<bv8>, at: nat, data: Bytes)
    requires at + |data| <= a.Length
    modifies a
    ensures a[..] == Over(old(a[..]), at, data)
  {
    forall i | 0 <= i < |data| { a[at + i] := data[i]; }
  }

  /** A write to field k. */
  method Store(pdu: array<bv8>, k: nat, data: Bytes, ghost parts: seq<Bytes>, ghost n: nat) returns (ghost now: seq<Bytes>)
    requires Layout(parts, n) && pdu[..] == Flat(parts) && k <= 6 && |data| == |parts[k]|
    modifies pdu
    ensures now == parts[k := data] && pdu[..] == Flat(now) && Layout(now, n)
  {
    OffsetsFit(parts, n, k);
    OverField(parts, k, data);
    Write(pdu, Offset(k), data);
    now := parts[k := data];
  }

  /** Every field of a PDU but the checksum, in the order in which the source fills them in. */
  method FillFields(pdu: array<bv8>, h: Header, body: Bytes)
    requires h.Valid() && pdu.Length >= HDR_SIZE + |body|
    modifies pdu
    ensures pdu[..] == Flat(PduParts(h, old(pdu[..])[CRC_OFFSET..HDR_SIZE], body, old(pdu[..])[HDR_SIZE + |body|..]))
  {
    ghost var n := |body|;
    ghost var parts := Fields(pdu[..], n);
    FieldsAreAll(pdu[..], n);
    parts := Store(pdu, 2, h.subject, parts, n);
    parts := Store(pdu, 1, [h.kind], parts, n);
    parts := Store(pdu, 0, PDU_MARK, parts, n);
    parts := Store(pdu, 3, h.opt, parts, n);
    parts := Store(pdu, 6, body, parts, n);
    parts := Store(pdu, 4, BigEndian(h.size, 8), parts, n);
    assert parts == PduParts(h, old(pdu[..])[CRC_OFFSET..HDR_SIZE], body, old(pdu[..])[HDR_SIZE + n..]);
  }

  /** The checksum, over everything that stands before it. */
  method Seal(pdu: array<bv8>, ghost h: Header, ghost sum: Bytes, ghost body: Bytes, ghost rest: Bytes)
    requires h.Valid() && |sum| == 4 && pdu[..] == Flat(PduParts(h, sum, body, rest))
    modifies pdu
    ensures pdu[..] == (EncodeHeader(h) + body) + rest
  {
    CoveredInFront(h, sum, body, rest);
    assert pdu[..CRC_OFFSET] == pdu[..][..CRC_OFFSET];
    var crc := Sum(pdu[..CRC_OFFSET]);
    ghost var parts := Store(pdu, 5, crc, PduParts(h, sum, body, rest), |body|);
    assert parts == PduParts(h, crc, body, rest);
    PduFields(h, body, rest);
  }

  /** lwmp_prepare_response: the buffer becomes the frame of the response, and nothing behind it changes;
      optional data that does not fit leaves it alone. */
  method PrepareResponse(pdu: array<bv8>, kind: bv8, opt: Bytes, text: Text)
    requires pdu.Length >= HDR_SIZE + |Body(text)|
    modifies pdu
    ensures pdu[..] == if |opt| > OPTDATA_LEN then old(pdu[..])
                       else Encode(Response(kind, opt, text)) + old(pdu[..])[HDR_SIZE + |Body(text)|..]
    ensures |opt| <= OPTDATA_LEN ==> ReadsAs(pdu[..], kind, opt, text)
  {
    if |opt| > OPTDATA_LEN { return; }
    var h, body := ResponseHeader(kind, opt, text), Body(text);
    ghost var was := pdu[..];
    FillFields(pdu, h, body);
    Seal(pdu, h, was[CRC_OFFSET..HDR_SIZE], body, was[HDR_SIZE + |body|..]);
    ResponseReads(kind, opt, text, was[HDR_SIZE + |body|..]);
  }

  /** The re-stamping of a PDU that is handed on: the sender's name over the recipient's, and a new checksum. */
  method StampSender(env: Env, pdu: array<bv8>)
    requires pdu.Length >= HDR_SIZE
    modifies pdu
    ensures pdu[..] == Restamp(env, old(pdu[..]))
  {
    ghost var was := pdu[..];
    var name := StrNCpy(env.me, UNAME_SIZE);
    Write(pdu, 5, name);
    StampedCovered(was, name);
    assert pdu[..CRC_OFFSET] == pdu[..][..CRC_OFFSET];
    var crc := Sum(pdu[..CRC_OFFSET]);
    ghost var stamped := pdu[..];
    Write(pdu, CRC_OFFSET, crc);
    assert stamped[HDR_SIZE..] == was[HDR_SIZE..];
  }

  lemma StampedCovered(s: Bytes, name: Bytes)
    requires |s| >= HDR_SIZE && |name| == UNAME_SIZE
    ensures Over(s, 5, name)[..CRC_OFFSET] == s[..5] + name + s[37..CRC_OFFSET]
    ensures Over(s, 5, name)[HDR_SIZE..] == s[HDR_SIZE..]
  {
  }

  /** lwmp_prepare_chunk. */
  method PrepareChunk(chunk: array<bv8>, size: nat, subject: Bytes, data: Bytes)
    requires size < 0x1_0000 && |data| >= Min(size, CHUNK_BUF_SIZE)
    requires chunk.Length >= CHUNK_HDR_SIZE + Min(size, CHUNK_BUF_SIZE)
    modifies chunk
    ensures var n := Min(size, CHUNK_BUF_SIZE);
      chunk[..] == Encode(Chunk(StrNCpy(subject, UNAME_SIZE), data[..n])) + old(chunk[..])[CHUNK_HDR_SIZE + n..]
  {
    ghost var was := chunk[..];
    var n := if size > CHUNK_BUF_SIZE then CHUNK_BUF_SIZE else size;
    var name := StrNCpy(subject, UNAME_SIZE);
    Write(chunk, 0, CHUNK_MARK);
    Write(chunk, 6, name);
    Write(chunk, 4, BigEndian(n, 2));
    Write(chunk, CHUNK_HDR_SIZE, data[..n]);
    ChunkFilled(was, BigEndian(n, 2), name, data[..n]);
  }

  lemma ChunkFilled(s: Bytes, size: Bytes, name: Bytes, data: Bytes)
    requires |size| == 2 && |name| == UNAME_SIZE && |s| >= CHUNK_HDR_SIZE + |data|
    ensures Over(Over(Over(Over(s, 0, CHUNK_MARK), 6, name), 4, size), CHUNK_HDR_SIZE, data)
            == ((CHUNK_MARK + size + name) + data) + s[CHUNK_HDR_SIZE + |data|..]
  {
  }

  // ---------- What the sender of a message is told ----------

  function Ascii(s: string): (b: Bytes)
    ensures |b| == |s|
  {
    seq(|s|, i requires 0 <= i < |s| => ByteOf(s[i] as int % 128))
  }

  /** snprintf into a buffer of the given size. */
  function Printed(text: Bytes, room: nat): Bytes
    requires room > 0
  {
    if |text| >= room then text[..room - 1] else text
  }

  /** The PDU that one of the server's answers becomes; `users` is the listing of the connected users. */
  function Answer(o: Out, users: Bytes): (f: WireFrame)
    requires !o.Forward? && |users| < TWO_64 - HDR_SIZE
    ensures f.Pdu? && f.hdr.kind != MT_MSG && f.hdr.kind != MT_FILE
  {
    match o
    case Respond(status) => Response(MT_INFO, HtoNL(RespCode(status)), NoText)
    case Unreachable(user) =>
      Response(MT_INFO, HtoNL(RespCode(HvInvalSubj)), Text(Printed(Ascii("Unable to reach recipient ") + user + Ascii("."), 256)))
    case SendUserList =>
      if users == [] then Response(MT_INFO, HtoNL(RespCode(HvInvalReq)), Text(Ascii("Failed to process request.")))
      else Pdu(Header(MT_REQ, Zeros(UNAME_SIZE), HtoNL(RespCode(HvOk)) + Zeros(28), |users|), users)
  }

  /** The code of every verdict as it stands in the answer. */
  function CodeBytes(s: Status): Bytes {
    match s
    case HvOk => [0x4F, 0x64, 0x31, 0x80]
    case HvFileNotAllowed => [0x7F, 0x1C, 0x82, 0x5B]
    case HvFileTooBig => [0x1C, 0x33, 0x79, 0x28]
    case HvTextTooBig => [0x48, 0x29, 0xCD, 0x33]
    case HvCrcErr => [0xCC, 0x32, 0x62, 0x1A]
    case HvInvalReq => [0x37, 0x38, 0xAA, 0x64]
    case HvInvalPdu => [0x33, 0x7C, 0x80, 0x1A]
    case HvInvalSubj => [0x77, 0x2A, 0x5C, 0x19]
  }

  lemma CodeInOrder(s: Status)
    ensures HtoNL(RespCode(s)) == CodeBytes(s)
  {
    match s
    case HvOk => assert HtoNL(0x4F64_3180) == CodeBytes(s);
    case HvFileNotAllowed => assert HtoNL(0x7F1C_825B) == CodeBytes(s);
    case HvFileTooBig => assert HtoNL(0x1C33_7928) == CodeBytes(s);
    case HvTextTooBig => assert HtoNL(0x4829_CD33) == CodeBytes(s);
    case HvCrcErr => assert HtoNL(0xCC32_621A) == CodeBytes(s);
    case HvInvalReq => assert HtoNL(0x3738_AA64) == CodeBytes(s);
    case HvInvalPdu => assert HtoNL(0x337C_801A) == CodeBytes(s);
    case HvInvalSubj => assert HtoNL(0x772A_5C19) == CodeBytes(s);
  }

  /** Every verdict is told by its code alone. */
  lemma CodesTold(s: Status, users: Bytes)
    requires |users| < TWO_64 - HDR_SIZE
    ensures var f := Answer(Respond(s), users); f.hdr.kind == MT_INFO && f.payload == [] && f.hdr.opt[..4] == CodeBytes(s)
  {
    CodeInOrder(s);
  }

  /** What a sender is told besides: that its recipient cannot be reached, which is named, or the listing it asked
      for. */
  lemma TextsTold(user: Bytes, users: Bytes)
    requires 0 !in user && |user| <= UNAME_SIZE && users != [] && |users| < TWO_64 - HDR_SIZE
    ensures Answer(Unreachable(user), users).hdr.opt[..4] == CodeBytes(HvInvalSubj)
    ensures Answer(Unreachable(user), users).payload == Ascii("Unable to reach recipient ") + user + Ascii(".") + [0]
    ensures Answer(SendUserList, users).hdr.kind == MT_REQ && Answer(SendUserList, users).payload == users
    ensures Answer(SendUserList, users).hdr.opt[..4] == CodeBytes(HvOk)
  {
    CodeInOrder(HvInvalSubj);
    CodeInOrder(HvOk);
    AsciiNoNul("Unable to reach recipient ");
    AsciiNoNul(".");
    NoNulIsAll(Ascii("Unable to reach recipient ") + user + Ascii("."));
  }

  lemma AsciiNoNul(s: string)
    requires forall c | c in s :: 0 < c as int < 128
    ensures 0 !in Ascii(s)
  {
    forall i | 0 <= i < |s|
      ensures Ascii(s)[i] != 0
    {
      assert s[i] in s;
      ByteRoundTrip(s[i] as int);
    }
  }

  /** Everything the sender itself is sent. */
  function AnswersTo(out: seq<Out>, users: Bytes): (fs: seq<WireFrame>)
    requires |users| < TWO_64 - HDR_SIZE
    ensures forall i | 0 <= i < |fs| :: fs[i].Pdu? && fs[i].hdr.kind != MT_MSG && fs[i].hdr.kind != MT_FILE
  {
    if out == [] then []
    else
      var rest := AnswersTo(out[1..], users);
      if out[0].Forward? then rest else [Answer(out[0], users)] + rest
  }

  lemma {:induction false} AnswersFit(out: seq<Out>, users: Bytes)
    requires |users| < TWO_64 - HDR_SIZE
    ensures AllFit(AnswersTo(out, users)) <==> (SendUserList in out ==> HDR_SIZE + |users| <= RECV_BUF_SIZE)
    decreases out
  {
    if out != [] {
      AnswersFit(out[1..], users);
      HeadTail(out);
      var fs, rest := AnswersTo(out, users), AnswersTo(out[1..], users);
      if !out[0].Forward? {
        assert FrameSize(Answer(out[0], users)) <= RECV_BUF_SIZE || out[0].SendUserList?;
        assert AllFit(fs) <==> Fits(Answer(out[0], users)) && AllFit(rest) by {
          assert fs[0] == Answer(out[0], users) && fs[1..] == rest;
          assert forall i | 0 <= i < |rest| :: rest[i] == fs[i + 1];
        }
      }
    }
  }

  /** The exact condition: the sender's client gets to read every answer, in order, if and only if it has not
      asked for a listing of the users that is longer than its receive buffer takes. */
  lemma AnswersArrive(out: seq<Out>, users: Bytes)
    requires |users| < TWO_64 - HDR_SIZE
    ensures (exists wants :: DeliversAll(AnswersTo(out, users), wants))
            <==> (SendUserList in out ==> |users| <= RECV_BUF_SIZE - HDR_SIZE)
  {
    AnswersFit(out, users);
    DeliveredExactly(AnswersTo(out, users));
  }

  /** However its stream is cut, a client that has read everything has every answer. */
  lemma AnswersInOrder(out: seq<Out>, users: Bytes, wants: seq<nat>)
    requires |users| < TWO_64 - HDR_SIZE
    ensures var r := Run(Line([], EncodeAll(AnswersTo(out, users))), wants);
      r.frames <= AnswersTo(out, users) && (r.line.tail == [] ==> r.frames == AnswersTo(out, users) && r.line.buf == [])
  {
    var fs := AnswersTo(out, users);
    FreshSynced(fs, EncodeAll(fs));
    RunSynced(fs, EncodeAll(fs), [], Line([], EncodeAll(fs)), wants);
    var r := Run(Line([], EncodeAll(fs)), wants);
    assert [] + r.frames == r.frames;
    if r.line.tail == [] { AllArrived(fs, r.frames, r.line.buf); }
  }

  /** A longer listing wedges the client: neither it nor anything behind it is ever delivered. */
  lemma ListingWedges(users: Bytes, behind: seq<WireFrame>, wants: seq<nat>)
    requires RECV_BUF_SIZE - HDR_SIZE < |users| < TWO_64 - HDR_SIZE && Harmless(behind)
    ensures Run(Line([], EncodeAll([Answer(SendUserList, users)] + behind)), wants).frames == []
  {
    var fs := [Answer(SendUserList, users)] + behind;
    forall i | 0 <= i < |fs| - 1 ensures !EmptyText(fs[i]) {
      if i > 0 { assert fs[i] == behind[i - 1]; }
    }
    FreshSynced(fs, EncodeAll(fs));
    TooLargeWedges(fs, EncodeAll(fs), [], Line([], EncodeAll(fs)), wants);
  }

  /** Different verdicts have different codes, in network byte order too. */
  lemma CodesDiffer(s: Status, t: Status)
    requires HtoNL(RespCode(s)) == HtoNL(RespCode(t))
    ensures s == t
  {
    HtoNLInjective(RespCode(s), RespCode(t));
  }

  /** So the sender can tell from its answer which verdict its message got. */
  lemma VerdictsTold(s: Status, t: Status, users: Bytes, rest: Bytes)
    requires |users| < TWO_64 - HDR_SIZE
    ensures HeadOf(Encode(Answer(Respond(s), users)) + rest) == Whole(Answer(Respond(t), users)) <==> s == t
  {
    HeadOfEncoded(Answer(Respond(s), users), rest);
    assert (HtoNL(RespCode(s)) + Zeros(28))[..4] == HtoNL(RespCode(s));
    assert (HtoNL(RespCode(t)) + Zeros(28))[..4] == HtoNL(RespCode(t));
    if Answer(Respond(s), users) == Answer(Respond(t), users) { CodesDiffer(s, t); }
  }

  /** What a recipient is told when the sender of its latest message has gone (notify_about_disconnect). */
  function GoneText(subject: Bytes): Bytes {
    Ascii("Sender ") + subject + Ascii(" has disconnected, ") + Ascii("the latest message ") + Ascii("may have been partially delivered.")
  }

  function GoneNotice(subject: Bytes): (f: WireFrame)
    ensures f.Pdu?
  {
    Response(MT_INFO, HtoNL(RespCode(HvInvalSubj)), Text(Printed(GoneText(subject), 128)))
  }

  /** It names the sender who has gone, in full. */
  lemma GoneNoticeNames(subject: Bytes)
    requires 0 !in subject && |subject| <= UNAME_SIZE
    ensures GoneNotice(subject).hdr.kind == MT_INFO && GoneNotice(subject).hdr.opt[..4] == CodeBytes(HvInvalSubj)
    ensures GoneNotice(subject).payload == GoneText(subject) + [0]
    ensures |Ascii("Sender ")| == 7 && GoneText(subject)[7..7 + |subject|] == subject
  {
    CodeInOrder(HvInvalSubj);
    GoneTextPlain(subject);
    NoNulIsAll(GoneText(subject));
  }

  lemma GoneTextPlain(subject: Bytes)
    requires 0 !in subject
    ensures 0 !in GoneText(subject)
  {
    AsciiNoNul("Sender ");
    AsciiNoNul(" has disconnected, ");
    AsciiNoNul("the latest message ");
    AsciiNoNul("may have been partially delivered.");
  }
}
