/** What the relay makes of whole messages: one re-stamped PDU, then chunks, with every payload byte
    forwarded once and in order. */
module RelayMessages {
  import opened ByteStrings
  import opened Lwmp
  import opened Relay

  /** A message as a client sends it: a header announcing the whole body, then the body
      (cmd_msg and cmd_sendfile in client/clcmd.c). */
  datatype Message = Message(kind: bv8, to: Bytes, opt: Bytes, body: Bytes) {
    predicate Valid() {
      |to| == UNAME_SIZE && |opt| == OPTDATA_LEN && HDR_SIZE + |body| < TWO_64
    }

    function Hdr(): (h: Header)
      requires Valid()
      ensures h.Valid()
    {
      Header(kind, to, opt, |body|)
    }

    function OnWire(): Bytes
      requires Valid()
    {
      EncodeHeader(Hdr()) + body
    }

    /** Whom the message names: the text in the first 31 bytes of the field. */
    function Name(): Bytes
      requires Valid()
    {
      CString(to[..UNAME_SIZE - 1])
    }
  }

  /** The server accepts the message, and its recipient can be reached. */
  predicate Accepted(env: Env, m: Message) {
    && m.Valid()
    && (m.kind == MT_MSG || m.kind == MT_FILE)
    && (m.kind == MT_FILE ==> env.allowFiles)
    && (env.allowFiles ==> |m.body| <= env.maxFileSize)
    && (m.kind == MT_MSG ==> |m.body| <= MAX_TEXTMSG_SIZE)
    && env.Reachable(m.Name()) && env.Present(m.Name())
  }

  /** A client whose next message has not started. */
  function Idle(out: seq<Out>): Rx { Rx([], 0, 0, MT_NONE, [], false, false, out) }

  // ---------- The frames a message becomes ----------

  function Label(env: Env): (l: Bytes)
    ensures |l| == UNAME_SIZE
  {
    StrNCpy(env.me, UNAME_SIZE)
  }

  function Chunks(env: Env, data: Bytes): (fs: seq<WireFrame>)
    decreases |data|
  {
    if data == [] then []
    else
      var n := Min(|data|, CHUNK_BUF_SIZE);
      [Chunk(Label(env), data[..n])] + Chunks(env, data[n..])
  }

  function FirstPdu(env: Env, m: Message): (f: WireFrame)
    requires Accepted(env, m)
    ensures f.Pdu?
  {
    Pdu(Header(m.kind, Label(env), m.opt, |m.body|), m.body[..Min(|m.body|, PDU_BUF_SIZE)])
  }

  function Frames(env: Env, m: Message): (fs: seq<WireFrame>)
    requires Accepted(env, m)
    ensures |fs| >= 1
  {
    [FirstPdu(env, m)] + Chunks(env, m.body[Min(|m.body|, PDU_BUF_SIZE)..])
  }

  function Payload(f: Frame): Bytes {
    match f
    case Pdu(_, payload) => payload
    case Chunk(_, data) => data
  }

  function Payloads(fs: seq<WireFrame>): Bytes {
    if fs == [] then [] else Payload(fs[0]) + Payloads(fs[1..])
  }

  function Forwards(to: Bytes, fs: seq<WireFrame>): (out: seq<Out>)
    ensures |out| == |fs|
    ensures forall i | 0 <= i < |fs| :: out[i] == Forward(to, Encode(fs[i]))
  {
    if fs == [] then [] else [Forward(to, Encode(fs[0]))] + Forwards(to, fs[1..])
  }

  function Answers(env: Env, m: Message): seq<Out>
    requires Accepted(env, m)
  {
    [Respond(HvOk)] + Forwards(m.Name(), Frames(env, m))
  }

  /** Every chunk carries between 1 and CHUNK_BUF_SIZE bytes, and together the chunks are the data. */
  lemma {:induction false} ChunksCarryAll(env: Env, data: Bytes)
    ensures Payloads(Chunks(env, data)) == data
    ensures forall i | 0 <= i < |Chunks(env, data)| ::
      Chunks(env, data)[i].Chunk? && Chunks(env, data)[i].subject == Label(env) && 1 <= |Chunks(env, data)[i].data| <= CHUNK_BUF_SIZE
    decreases |data|
  {
    if data != [] {
      var n := Min(|data|, CHUNK_BUF_SIZE);
      ChunksCarryAll(env, data[n..]);
      var fs := Chunks(env, data);
      assert fs[1..] == Chunks(env, data[n..]);
      assert data[..n] + data[n..] == data;
      forall i | 0 <= i < |fs|
        ensures fs[i].Chunk? && fs[i].subject == Label(env) && 1 <= |fs[i].data| <= CHUNK_BUF_SIZE
      {
        if i > 0 { assert fs[i] == Chunks(env, data[n..])[i - 1]; }
      }
    }
  }

  /** Conservation: the forwarded payload bytes are the body, in order. */
  lemma FramesCarryBody(env: Env, m: Message)
    requires Accepted(env, m)
    ensures Payloads(Frames(env, m)) == m.body
    ensures forall i | 1 <= i < |Frames(env, m)| ::
      Frames(env, m)[i].Chunk? && Frames(env, m)[i].subject == Label(env) && 1 <= |Frames(env, m)[i].data| <= CHUNK_BUF_SIZE
  {
    var n := Min(|m.body|, PDU_BUF_SIZE);
    ChunksCarryAll(env, m.body[n..]);
    assert Frames(env, m)[1..] == Chunks(env, m.body[n..]);
    assert m.body[..n] + m.body[n..] == m.body;
    forall i | 1 <= i < |Frames(env, m)|
      ensures Frames(env, m)[i].Chunk? && Frames(env, m)[i].subject == Label(env) && 1 <= |Frames(env, m)[i].data| <= CHUNK_BUF_SIZE
    {
      assert Frames(env, m)[i] == Chunks(env, m.body[n..])[i - 1];
    }
  }

  // ---------- Running the machine over a message ----------

  lemma ChunkOfIsEncoded(env: Env, data: Bytes)
    requires 1 <= |data| <= CHUNK_BUF_SIZE
    ensures ValidFrame(Chunk(Label(env), data)) && ChunkOf(env, data) == Encode(Chunk(Label(env), data))
  {
    assert Min(|data| % 0x1_0000, CHUNK_BUF_SIZE) == |data| == Min(|data|, |data|);
    assert data[..|data|] == data;
  }

  lemma CoveredSlices(h: Header)
    requires h.Valid()
    ensures Covered(h)[..5] == PDU_MARK + [h.kind] && Covered(h)[37..] == h.opt + BigEndian(h.size, 8)
  {
    Assoc(PDU_MARK + [h.kind] + h.subject, h.opt, BigEndian(h.size, 8));
    Split(PDU_MARK + [h.kind] + h.subject, h.opt + BigEndian(h.size, 8));
    Split(PDU_MARK + [h.kind], h.subject + (h.opt + BigEndian(h.size, 8)));
    Assoc(PDU_MARK + [h.kind], h.subject, h.opt + BigEndian(h.size, 8));
  }

  lemma Split<T>(a: seq<T>, b: seq<T>)
    ensures (a + b)[..|a|] == a && (a + b)[|a|..] == b
  {
  }

  lemma PrefixSlices(c: Bytes, sum: Bytes, rest: Bytes)
    requires |c| == CRC_OFFSET && |sum| == 4
    ensures var buf := (c + sum) + rest;
      buf[..5] == c[..5] && buf[37..CRC_OFFSET] == c[37..] && buf[HDR_SIZE..] == rest
  {
  }

  lemma HeaderPieces(h: Header, rest: Bytes)
    requires h.Valid()
    ensures var buf := EncodeHeader(h) + rest;
      buf[..5] == PDU_MARK + [h.kind] && buf[37..CRC_OFFSET] == h.opt + BigEndian(h.size, 8) && buf[HDR_SIZE..] == rest
  {
    CoveredSlices(h);
    PrefixSlices(Covered(h), Sum(Covered(h)), rest);
  }

  lemma CoveredPieces(h: Header, tag: Bytes)
    requires h.Valid() && |tag| == UNAME_SIZE
    ensures (PDU_MARK + [h.kind]) + tag + (h.opt + BigEndian(h.size, 8)) == Covered(h.(subject := tag))
  {
    Assoc(PDU_MARK + [h.kind] + tag, h.opt, BigEndian(h.size, 8));
  }

  lemma RestampIsEncoded(env: Env, m: Message, n: nat)
    requires Accepted(env, m) && n == Min(|m.body|, PDU_BUF_SIZE)
    ensures Restamp(env, EncodeHeader(m.Hdr()) + m.body[..n]) == Encode(FirstPdu(env, m))
  {
    HeaderPieces(m.Hdr(), m.body[..n]);
    CoveredPieces(m.Hdr(), Label(env));
  }

  lemma AcceptedValidates(env: Env, m: Message, rest: Bytes)
    requires Accepted(env, m)
    ensures var buf := EncodeHeader(m.Hdr()) + rest;
      HeaderOf(buf) == m.Hdr() && Validate(env, buf, Recipient(m.Hdr())) == HvOk
  {
    HeaderRoundTrip(m.Hdr(), rest);
  }

  /** The state once n bytes of the body have followed the header. */
  function Collecting(env: Env, m: Message, n: nat, out: seq<Out>): Rx
    requires m.Valid() && n <= |m.body|
  {
    Rx(EncodeHeader(m.Hdr()) + m.body[..n], |m.body|, n, m.kind, Recipient(m.Hdr()), false, false, out)
  }

  /** The state once n bytes of the body have been forwarded and more are to come. */
  function Relaying(m: Message, n: nat, out: seq<Out>): Rx
    requires m.Valid()
  {
    Rx([], |m.body|, n, m.kind, Recipient(m.Hdr()), true, false, out)
  }

  lemma HeaderArrives(env: Env, m: Message, out: seq<Out>)
    requires m.Valid()
    ensures FeedAll(env, Idle(out), EncodeHeader(m.Hdr())) == SettlePdu(env, Collecting(env, m, 0, out))
  {
    var e := EncodeHeader(m.Hdr());
    HeaderRoundTrip(m.Hdr(), []);
    assert e + [] == e && [] + e == e && m.body[..0] == [];
    FeedHeader(env, Idle(out), e);
  }

  lemma FirstPduDispatched(env: Env, m: Message, out: seq<Out>)
    requires Accepted(env, m)
    ensures var n := Min(|m.body|, PDU_BUF_SIZE);
      var out1 := out + [Respond(HvOk)] + [Forward(Recipient(m.Hdr()), Encode(FirstPdu(env, m)))];
      SettlePdu(env, Collecting(env, m, n, out)) == if n == |m.body| then Idle(out1) else Relaying(m, n, out1)
  {
    var n := Min(|m.body|, PDU_BUF_SIZE);
    var s := Collecting(env, m, n, out);
    NeededBounds(s);
    AcceptedValidates(env, m, m.body[..n]);
    RestampIsEncoded(env, m, n);
  }

  lemma OneChunkForwarded(env: Env, m: Message, n: nat, k: nat, out: seq<Out>)
    requires Accepted(env, m) && n < |m.body| && k == Min(|m.body| - n, CHUNK_BUF_SIZE)
    ensures var out1 := out + [Forward(Recipient(m.Hdr()), Encode(Chunk(Label(env), m.body[n..n + k])))];
      FeedAll(env, Relaying(m, n, out), m.body[n..n + k]) == if n + k == |m.body| then Idle(out1) else Relaying(m, n + k, out1)
  {
    var head := m.body[n..n + k];
    FeedChunk(env, Relaying(m, n, out), head);
    assert [] + head == head;
    ChunkOfIsEncoded(env, head);
  }

  lemma ChunksUnfold(env: Env, m: Message, n: nat, k: nat)
    requires n < |m.body| && k == Min(|m.body| - n, CHUNK_BUF_SIZE)
    ensures m.body[n..] == m.body[n..n + k] + m.body[n + k..]
    ensures ValidFrame(Chunk(Label(env), m.body[n..n + k]))
    ensures Chunks(env, m.body[n..]) == [Chunk(Label(env), m.body[n..n + k])] + Chunks(env, m.body[n + k..])
  {
    assert m.body[n..][..k] == m.body[n..n + k] && m.body[n..][k..] == m.body[n + k..];
  }

  lemma ForwardsUnfold(to: Bytes, f: WireFrame, fs: seq<WireFrame>)
    ensures Forwards(to, [f] + fs) == [Forward(to, Encode(f))] + Forwards(to, fs)
  {
    assert ([f] + fs)[1..] == fs;
  }

  lemma {:induction false} ChunksForwarded(env: Env, m: Message, n: nat, out: seq<Out>)
    requires Accepted(env, m) && n < |m.body|
    ensures FeedAll(env, Relaying(m, n, out), m.body[n..])
            == Idle(out + Forwards(Recipient(m.Hdr()), Chunks(env, m.body[n..])))
    decreases |m.body| - n
  {
    var to, k := Recipient(m.Hdr()), Min(|m.body| - n, CHUNK_BUF_SIZE);
    var head, rest := m.body[n..n + k], m.body[n + k..];
    ChunksUnfold(env, m, n, k);
    OneChunkForwarded(env, m, n, k, out);
    FeedAppend(env, Relaying(m, n, out), head, rest);
    ForwardsUnfold(to, Chunk(Label(env), head), Chunks(env, rest));
    var step := [Forward(to, Encode(Chunk(Label(env), head)))];
    Assoc(out, step, Forwards(to, Chunks(env, rest)));
    if n + k < |m.body| {
      ChunksForwarded(env, m, n + k, out + step);
    } else {
      assert out + step + [] == out + step;
    }
  }

  /** While the first PDU is collected the state is what the receive machine expects of it. */
  lemma CollectsFirstPdu(env: Env, m: Message, n: nat, out: seq<Out>)
    requires m.Valid() && n <= Min(|m.body|, PDU_BUF_SIZE)
    ensures var s := Collecting(env, m, n, out);
      InFirstPdu(s) && |s.buf| == HDR_SIZE + n && Needed(s) == HDR_SIZE + Min(|m.body|, PDU_BUF_SIZE)
  {
    HeaderRoundTrip(m.Hdr(), m.body[..n]);
    NeededBounds(Collecting(env, m, n, out));
  }

  lemma CollectMore(env: Env, m: Message, n: nat, out: seq<Out>)
    requires m.Valid() && n <= |m.body|
    ensures Grown(Collecting(env, m, 0, out), m.body[..n]) == Collecting(env, m, n, out)
  {
    Assoc(EncodeHeader(m.Hdr()), m.body[..0], m.body[..n]);
    assert m.body[..0] + m.body[..n] == m.body[..n];
  }

  lemma FirstBodyArrives(env: Env, m: Message, out: seq<Out>)
    requires m.Valid()
    ensures var n := Min(|m.body|, PDU_BUF_SIZE);
      FeedAll(env, SettlePdu(env, Collecting(env, m, 0, out)), m.body[..n]) == SettlePdu(env, Collecting(env, m, n, out))
  {
    var n := Min(|m.body|, PDU_BUF_SIZE);
    CollectsFirstPdu(env, m, 0, out);
    CollectMore(env, m, n, out);
    PayloadRead(env, Collecting(env, m, 0, out), m.body[..n]);
  }

  lemma AnswersParts(env: Env, m: Message, out: seq<Out>)
    requires Accepted(env, m)
    ensures var to, rest := Recipient(m.Hdr()), m.body[Min(|m.body|, PDU_BUF_SIZE)..];
      out + Answers(env, m)
      == (out + [Respond(HvOk)] + [Forward(to, Encode(FirstPdu(env, m)))]) + Forwards(to, Chunks(env, rest))
  {
    var to, rest := Recipient(m.Hdr()), m.body[Min(|m.body|, PDU_BUF_SIZE)..];
    var first, chunks := [Forward(to, Encode(FirstPdu(env, m)))], Forwards(to, Chunks(env, rest));
    assert Frames(env, m)[1..] == Chunks(env, rest);
    assert Forwards(to, Frames(env, m)) == first + chunks;
    Assoc(out, [Respond(HvOk)], first + chunks);
    Assoc(out + [Respond(HvOk)], first, chunks);
  }

  /** The state once the first PDU has been handed over. */
  function AfterFirst(env: Env, m: Message, out: seq<Out>): Rx
    requires Accepted(env, m)
  {
    var n := Min(|m.body|, PDU_BUF_SIZE);
    var out1 := out + [Respond(HvOk)] + [Forward(Recipient(m.Hdr()), Encode(FirstPdu(env, m)))];
    if n == |m.body| then Idle(out1) else Relaying(m, n, out1)
  }

  lemma FirstPduRelayed(env: Env, m: Message, out: seq<Out>)
    requires Accepted(env, m)
    ensures FeedAll(env, Idle(out), EncodeHeader(m.Hdr()) + m.body[..Min(|m.body|, PDU_BUF_SIZE)]) == AfterFirst(env, m, out)
  {
    HeaderArrives(env, m, out);
    FirstBodyArrives(env, m, out);
    FirstPduDispatched(env, m, out);
    FeedAppend(env, Idle(out), EncodeHeader(m.Hdr()), m.body[..Min(|m.body|, PDU_BUF_SIZE)]);
  }

  lemma RestRelayed(env: Env, m: Message, out: seq<Out>)
    requires Accepted(env, m)
    ensures FeedAll(env, AfterFirst(env, m, out), m.body[Min(|m.body|, PDU_BUF_SIZE)..]) == Idle(out + Answers(env, m))
  {
    var n := Min(|m.body|, PDU_BUF_SIZE);
    AnswersParts(env, m, out);
    FinishRelay(env, m, n, out + [Respond(HvOk)] + [Forward(Recipient(m.Hdr()), Encode(FirstPdu(env, m)))]);
  }

  lemma FinishRelay(env: Env, m: Message, n: nat, out: seq<Out>)
    requires Accepted(env, m) && n <= |m.body|
    ensures FeedAll(env, if n == |m.body| then Idle(out) else Relaying(m, n, out), m.body[n..])
            == Idle(out + Forwards(Recipient(m.Hdr()), Chunks(env, m.body[n..])))
  {
    if n < |m.body| {
      ChunksForwarded(env, m, n, out);
    } else {
      assert out + [] == out;
    }
  }

  lemma WireParts(m: Message, n: nat)
    requires m.Valid() && n <= |m.body|
    ensures m.OnWire() == (EncodeHeader(m.Hdr()) + m.body[..n]) + m.body[n..]
  {
    assert m.body == m.body[..n] + m.body[n..];
    Assoc(EncodeHeader(m.Hdr()), m.body[..n], m.body[n..]);
  }

  /** An accepted message is answered with RESP_OK and leaves as exactly its frames, and the machine is
      ready for the next message. */
  lemma MessageRelayed(env: Env, m: Message, out: seq<Out>)
    requires Accepted(env, m)
    ensures FeedAll(env, Idle(out), m.OnWire()) == Idle(out + Answers(env, m))
  {
    var n := Min(|m.body|, PDU_BUF_SIZE);
    var first, tail := EncodeHeader(m.Hdr()) + m.body[..n], m.body[n..];
    WireParts(m, n);
    FeedAppend(env, Idle(out), first, tail);
    FirstPduRelayed(env, m, out);
    RestRelayed(env, m, out);
  }

  // ---------- Headers that stall the machine ----------

  /** The exact condition: from a border, a header makes the machine stop for good if and only if it announces
      2^64 - 81 bytes or more, whatever its type. */
  lemma StallsExactly(env: Env, h: Header, out: seq<Out>)
    requires h.Valid()
    ensures Stalled(FeedAll(env, Idle(out), EncodeHeader(h))) <==> HDR_SIZE + h.size >= TWO_64
  {
    var e := EncodeHeader(h);
    HeaderRoundTrip(h, []);
    assert e + [] == e && [] + e == e;
    FeedHeader(env, Idle(out), e);
    var s := TakeHeader(Rx(e, 0, 0, MT_NONE, [], false, false, out));
    NeededBounds(s);
    SettledStalls(env, s);
  }

  lemma SettledStalls(env: Env, s: Rx)
    requires InFirstPdu(s) && |s.buf| == HDR_SIZE && s.expected < TWO_64
    ensures Stalled(SettlePdu(env, s)) <==> Needed(s) < HDR_SIZE
  {
    NeededBounds(s);
  }

  // ---------- Messages that are not accepted ----------

  /** The verdict on a message, which depends on its header alone. */
  function Judged(env: Env, m: Message): Status
    requires m.Valid()
  {
    Validate(env, EncodeHeader(m.Hdr()), Recipient(m.Hdr()))
  }

  /** Everything a message makes the server do. */
  function Replies(env: Env, m: Message): seq<Out>
    requires m.Valid()
  {
    if Accepted(env, m) then Answers(env, m)
    else if Judged(env, m) != HvOk then [Respond(Judged(env, m))]
    else if m.kind == MT_REQ then [Respond(HvOk), SendUserList]
    else [Respond(HvOk), Unreachable(Recipient(m.Hdr()))]
  }

  lemma HeaderAlone(m: Message)
    requires m.Valid()
    ensures var buf := EncodeHeader(m.Hdr()); HeaderOf(buf) == m.Hdr() && ChecksumOk(buf) && buf[..4] == PDU_MARK
  {
    HeaderRoundTrip(m.Hdr(), []);
    assert EncodeHeader(m.Hdr()) + [] == EncodeHeader(m.Hdr());
  }

  lemma JudgedOnWire(env: Env, m: Message, rest: Bytes)
    requires m.Valid()
    ensures var buf := EncodeHeader(m.Hdr()) + rest;
      HeaderOf(buf) == m.Hdr() && Validate(env, buf, Recipient(m.Hdr())) == Judged(env, m) != HvCrcErr
  {
    HeaderRoundTrip(m.Hdr(), rest);
    HeaderAlone(m);
  }

  /** Accepted is exactly: passes every check, is no request, and its recipient is still there. */
  lemma AcceptedExactly(env: Env, m: Message)
    requires m.Valid()
    ensures Accepted(env, m) <==> Judged(env, m) == HvOk && m.kind != MT_REQ && env.Present(Recipient(m.Hdr()))
  {
    HeaderAlone(m);
  }

  lemma FirstPduRefused(env: Env, m: Message, out: seq<Out>)
    requires m.Valid() && !Accepted(env, m)
    ensures SettlePdu(env, Collecting(env, m, Min(|m.body|, PDU_BUF_SIZE), out)) == Idle(out + Replies(env, m))
  {
    var n := Min(|m.body|, PDU_BUF_SIZE);
    CollectsFirstPdu(env, m, n, out);
    JudgedOnWire(env, m, m.body[..n]);
    if Judged(env, m) == HvOk {
      PassedButRefused(env, m);
      AcceptRefuses(env, Collecting(env, m, n, out).Emit(Respond(HvOk)));
      Assoc(out, [Respond(HvOk)], [Refusal(env, m)]);
    }
  }

  /** What becomes of a message that passes the checks but is not accepted. */
  function Refusal(env: Env, m: Message): Out
    requires m.Valid()
  {
    if m.kind == MT_REQ then SendUserList else Unreachable(Recipient(m.Hdr()))
  }

  /** Such a message is a request that fits one PDU, or its recipient has left. */
  lemma PassedButRefused(env: Env, m: Message)
    requires m.Valid() && !Accepted(env, m) && Judged(env, m) == HvOk
    ensures if m.kind == MT_REQ then |m.body| <= PDU_BUF_SIZE else !env.Present(Recipient(m.Hdr()))
    ensures Replies(env, m) == [Respond(HvOk)] + [Refusal(env, m)]
  {
    AcceptedExactly(env, m);
    if m.kind == MT_REQ { RequestFits(env, m); }
  }

  lemma AcceptRefuses(env: Env, s: Rx)
    requires |s.buf| >= HDR_SIZE && if s.kind == MT_REQ then s.received == s.expected else !env.Present(s.dest)
    ensures Accept(env, s) == Idle(s.out + [if s.kind == MT_REQ then SendUserList else Unreachable(s.dest)])
  {
  }

  lemma RequestFits(env: Env, m: Message)
    requires m.Valid() && Judged(env, m) == HvOk && m.kind == MT_REQ
    ensures |m.body| <= PDU_BUF_SIZE
  {
    HeaderAlone(m);
  }

  /** A message that is not accepted is answered after its first PDU, and the machine is at a border at
      once: what follows of the body is taken for the next header. */
  lemma MessageRefused(env: Env, m: Message, out: seq<Out>)
    requires m.Valid() && !Accepted(env, m)
    ensures FeedAll(env, Idle(out), m.OnWire())
            == FeedAll(env, Idle(out + Replies(env, m)), m.body[Min(|m.body|, PDU_BUF_SIZE)..])
  {
    var n := Min(|m.body|, PDU_BUF_SIZE);
    var first := EncodeHeader(m.Hdr()) + m.body[..n];
    WireParts(m, n);
    FeedAppend(env, Idle(out), first, m.body[n..]);
    FeedAppend(env, Idle(out), EncodeHeader(m.Hdr()), m.body[..n]);
    HeaderArrives(env, m, out);
    FirstBodyArrives(env, m, out);
    FirstPduRefused(env, m, out);
  }

  /** Something has been collected or emitted since the output was n long. */
  predicate Moved(s: Rx, n: nat) { |s.out| > n || (|s.out| == n && s.buf != []) }

  lemma DispatchMoves(env: Env, s: Rx)
    requires |s.buf| >= HDR_SIZE
    ensures |Dispatch(env, s).out| > |s.out|
  {
    assert |s.Emit(Respond(Validate(env, s.buf, s.dest))).out| == |s.out| + 1;
  }

  lemma SettlePduMoves(env: Env, s: Rx, n: nat)
    requires |s.buf| >= HDR_SIZE && |s.out| >= n
    ensures Moved(SettlePdu(env, s), n)
  {
    if SettlePdu(env, s) != s { DispatchMoves(env, s); }
  }

  lemma SettleChunkMoves(env: Env, s: Rx, n: nat)
    requires s.buf != [] && |s.out| >= n
    ensures Moved(SettleChunk(env, s), n)
  {
  }

  lemma ChunkByteMoves(env: Env, s: Rx, b: bv8, n: nat)
    requires s.chunking && Moved(s, n)
    ensures Moved(Feed(env, s, b), n)
  {
    SettleChunkMoves(env, s.(buf := s.buf + [b], received := s.received + 1), n);
  }

  lemma PduByteMoves(env: Env, s: Rx, b: bv8, n: nat)
    requires !s.chunking && |s.out| >= n && (s.desynced || Stalled(s) ==> Moved(s, n))
    ensures Moved(Feed(env, s, b), n)
  {
    var t := s.(buf := s.buf + [b]);
    if |t.buf| == HDR_SIZE {
      SettlePduMoves(env, TakeHeader(t), n);
    } else if |t.buf| > HDR_SIZE {
      SettlePduMoves(env, t.(received := s.received + 1), n);
    }
  }

  lemma FeedMoves(env: Env, s: Rx, b: bv8, n: nat)
    requires Moved(s, n) || (s == Idle(s.out) && |s.out| == n)
    ensures Moved(Feed(env, s, b), n)
  {
    if s.chunking { ChunkByteMoves(env, s, b, n); } else { PduByteMoves(env, s, b, n); }
  }

  lemma {:induction false} AllMoves(env: Env, s: Rx, bytes: Bytes, n: nat)
    requires Moved(s, n)
    ensures Moved(FeedAll(env, s, bytes), n)
    decreases bytes
  {
    if bytes != [] {
      FeedMoves(env, s, bytes[0], n);
      AllMoves(env, Feed(env, s, bytes[0]), bytes[1..], n);
    }
  }

  /** The message is accepted or travels in one PDU. */
  predicate Orderly(env: Env, m: Message) {
    m.Valid() && (Accepted(env, m) || |m.body| <= PDU_BUF_SIZE)
  }

  /** The exact condition for staying in step: any message brings the machine to a border with exactly
      its replies emitted if and only if it is accepted or travels in one PDU. */
  lemma BorderReached(env: Env, m: Message, out: seq<Out>)
    requires m.Valid()
    ensures FeedAll(env, Idle(out), m.OnWire()) == Idle(out + Replies(env, m)) <==> Orderly(env, m)
  {
    if Accepted(env, m) {
      MessageRelayed(env, m, out);
    } else {
      MessageRefused(env, m, out);
      var s, rest := Idle(out + Replies(env, m)), m.body[Min(|m.body|, PDU_BUF_SIZE)..];
      if rest != [] {
        FeedMoves(env, s, rest[0], |s.out|);
        AllMoves(env, Feed(env, s, rest[0]), rest[1..], |s.out|);
      }
    }
  }

  // ---------- Streams of messages ----------

  predicate AllOrderly(env: Env, ms: seq<Message>) {
    forall i | 0 <= i < |ms| :: Orderly(env, ms[i])
  }

  function StreamOf(env: Env, ms: seq<Message>): Bytes
    requires AllOrderly(env, ms)
  {
    if ms == [] then [] else ms[0].OnWire() + StreamOf(env, ms[1..])
  }

  function AllReplies(env: Env, ms: seq<Message>): seq<Out>
    requires AllOrderly(env, ms)
  {
    if ms == [] then [] else Replies(env, ms[0]) + AllReplies(env, ms[1..])
  }

  /** A whole session of orderly messages: what is answered and enqueued depends on the messages alone. */
  lemma {:induction false} SessionRelayed(env: Env, ms: seq<Message>, out: seq<Out>)
    requires AllOrderly(env, ms)
    ensures FeedAll(env, Idle(out), StreamOf(env, ms)) == Idle(out + AllReplies(env, ms))
    decreases ms
  {
    if ms == [] {
      assert out + [] == out;
    } else {
      FeedAppend(env, Idle(out), ms[0].OnWire(), StreamOf(env, ms[1..]));
      BorderReached(env, ms[0], out);
      SessionRelayed(env, ms[1..], out + Replies(env, ms[0]));
      Assoc(out, Replies(env, ms[0]), AllReplies(env, ms[1..]));
    }
  }
}
