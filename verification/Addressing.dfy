/** To whom the relay hands an accepted message, and what: read off the bytes that come in and the bytes that go
    out, for every message. */
module Addressing {
  import opened ByteStrings
  import opened Lwmp
  import opened Relay
  import opened RelayMessages
  import Mailing

  lemma {:induction false} ZerosPrefix(n: nat, k: nat)
    requires k <= n
    ensures Zeros(n)[..k] == Zeros(k)
    decreases n
  {
    if k > 0 { ZerosPrefix(n - 1, k - 1); }
  }

  /** A name in the field, of which the last byte is taken for the NUL. */
  lemma NameField(m: Message, name: Bytes)
    requires m.Valid() && 0 !in name && m.to == StrNCpy(name, UNAME_SIZE)
    ensures m.Name() == name[..Min(|name|, 31)]
  {
    NoNulIsAll(name);
    if |name| < UNAME_SIZE {
      ZerosPrefix(UNAME_SIZE - |name|, 31 - |name|);
      assert m.to[..31] == name + Zeros(31 - |name|);
      CStringOfPadded(name, 31 - |name|);
      assert name[..|name|] == name;
    } else {
      assert m.to[..31] == name[..31];
      NoNulIsAll(name[..31]);
    }
  }

  /** Every message that an accepted one adds goes to the user named in it, and to nobody else; the sender is told
      first. */
  lemma Addressed(env: Env, m: Message, name: Bytes, out: seq<Out>)
    requires Accepted(env, m) && 0 !in name && m.to == StrNCpy(name, UNAME_SIZE)
    ensures var s := FeedAll(env, Idle(out), m.OnWire());
      && |s.out| >= |out| + 2 && s.out[..|out|] == out && s.out[|out|] == Respond(HvOk)
      && forall i | |out| < i < |s.out| :: s.out[i].Forward? && s.out[i].to == name[..Min(|name|, 31)]
  {
    NameField(m, name);
    MessageRelayed(env, m, out);
    forall i | |out| < i < |out + Answers(env, m)|
      ensures (out + Answers(env, m))[i].Forward? && (out + Answers(env, m))[i].to == m.Name()
    {
      assert (out + Answers(env, m))[i] == Forwards(m.Name(), Frames(env, m))[i - |out| - 1];
    }
  }

  /** When a text or a file is accepted, in terms of what stands in its fields. */
  lemma AcceptedFields(env: Env, m: Message, name: Bytes)
    requires m.Valid() && 0 !in name && m.to == StrNCpy(name, UNAME_SIZE) && |name| <= 31
    ensures Accepted(env, m) <==>
            && (m.kind == MT_MSG || m.kind == MT_FILE)
            && (m.kind == MT_FILE ==> env.allowFiles) && (env.allowFiles ==> |m.body| <= env.maxFileSize)
            && (m.kind == MT_MSG ==> |m.body| <= 4015)
            && name != [] && name in env.online && name in env.present
  {
    NameField(m, name);
    assert name[..|name|] == name;
  }

  /** What a session sends to a user is what names that user. */
  lemma SentToNamed(env: Env, m: Message, to: Bytes)
    requires Accepted(env, m) && 0 !in to && |to| <= 31 && m.to == StrNCpy(to, UNAME_SIZE)
    ensures Mailing.SentTo(env, m, to)
  {
    NameField(m, to);
    assert to[..|to|] == to;
  }

  // ---------- What is handed over ----------

  lemma AfterOne<T>(a: seq<T>, x: T, b: seq<T>, i: nat)
    requires i < |b|
    ensures (a + ([x] + b))[|a| + 1 + i] == b[i]
  {
  }

  lemma AnswerAt(env: Env, m: Message, i: nat, out: seq<Out>)
    requires Accepted(env, m) && i < |Frames(env, m)|
    ensures |out + Answers(env, m)| == |out| + 1 + |Frames(env, m)|
    ensures (out + Answers(env, m))[|out| + 1 + i] == Forward(m.Name(), Encode(Frames(env, m)[i]))
  {
    AfterOne(out, Respond(HvOk), Forwards(m.Name(), Frames(env, m)), i);
  }

  /** The first message handed over: type, optional data and announced size as they came, the sender's name in the
      place of the recipient's, a checksum that is right, and the first 4015 bytes of the body. */
  lemma FirstHandedOver(env: Env, m: Message, out: seq<Out>)
    requires Accepted(env, m)
    ensures var s := FeedAll(env, Idle(out), m.OnWire());
      |s.out| >= |out| + 2 && s.out[|out| + 1].Forward?
      && var b := s.out[|out| + 1].msg;
         && |b| >= 81 && ChecksumOk(b) && b[..4] == [0xF7, 0xC3, 0xED, 0xA8]
         && HeaderOf(b) == Header(m.kind, StrNCpy(env.me, 32), m.opt, |m.body|)
         && b[81..] == m.body[..Min(|m.body|, 4015)]
  {
    MessageRelayed(env, m, out);
    AnswerAt(env, m, 0, out);
    var h := Header(m.kind, Label(env), m.opt, |m.body|);
    HeaderRoundTrip(h, m.body[..Min(|m.body|, PDU_BUF_SIZE)]);
  }

  lemma {:induction false} ChunkAt(env: Env, data: Bytes, i: nat)
    requires 4058 * i < |data|
    ensures |Chunks(env, data)| > i
    ensures Chunks(env, data)[i] == Chunk(Label(env), data[4058 * i..Min(4058 * i + 4058, |data|)])
    decreases i
  {
    var n := Min(|data|, CHUNK_BUF_SIZE);
    if i == 0 {
      assert data[0..n] == data[..n];
    } else {
      ChunkAt(env, data[n..], i - 1);
      SliceOfRest(data, n, 4058 * (i - 1), Min(4058 * (i - 1) + 4058, |data[n..]|));
    }
  }

  /** And the others: piece i of the rest of the body, at most 4058 bytes, labelled with the sender's name. */
  lemma NextHandedOver(env: Env, m: Message, i: nat, out: seq<Out>)
    requires Accepted(env, m) && 4015 + 4058 * i < |m.body|
    ensures var s := FeedAll(env, Idle(out), m.OnWire());
      && |s.out| > |out| + 2 + i && s.out[|out| + 2 + i].Forward?
      && var piece := m.body[4015 + 4058 * i..Min(4015 + 4058 * i + 4058, |m.body|)];
         s.out[|out| + 2 + i].msg == ChunkHeader(StrNCpy(env.me, 32), |piece|) + piece
  {
    MessageRelayed(env, m, out);
    ChunkFrameAt(env, m, i);
    AnswerAt(env, m, i + 1, out);
  }

  lemma ChunkFrameAt(env: Env, m: Message, i: nat)
    requires Accepted(env, m) && 4015 + 4058 * i < |m.body|
    ensures var piece := m.body[4015 + 4058 * i..Min(4015 + 4058 * i + 4058, |m.body|)];
      |Frames(env, m)| > i + 1 && Frames(env, m)[i + 1] == Chunk(StrNCpy(env.me, 32), piece)
  {
    var rest := m.body[4015..];
    ChunkAt(env, rest, i);
    SliceOfRest(m.body, 4015, 4058 * i, Min(4058 * i + 4058, |rest|));
  }

  lemma SliceOfRest<T>(s: seq<T>, a: nat, x: nat, y: nat)
    requires x <= y && a + y <= |s|
    ensures s[a..][x..y] == s[a + x..a + y]
  {
  }

  // ---------- What goes wrong ----------

  /** The bytes of a first PDU, whatever they are. */
  ghost predicate OnePdu(b: Bytes) {
    |b| >= 81 && 81 + HeaderOf(b).size < TWO_64 && |b| == Min(81 + HeaderOf(b).size, 4096)
  }

  /** A header and then the rest of the first PDU, read one after the other. */
  lemma PduRead(env: Env, head: Bytes, body: Bytes, out: seq<Out>)
    requires |head| == 81
    requires var s := TakeHeader(Idle(out).(buf := head)); body == [] || 81 + |body| <= Needed(s)
    ensures FeedAll(env, Idle(out), head + body) == SettlePdu(env, Grown(TakeHeader(Idle(out).(buf := head)), body))
  {
    assert [] + head == head;
    FeedAppend(env, Idle(out), head, body);
    HeaderRead(env, Idle(out), head);
    PayloadRead(env, TakeHeader(Idle(out).(buf := head)), body);
  }

  /** Once it is all there it is dispatched. */
  lemma WholePduSettles(env: Env, s: Rx)
    requires 81 + s.expected < TWO_64 && |s.buf| == Min(81 + s.expected, 4096) && s.received == |s.buf| - 81
    ensures Needed(s) == |s.buf| && SettlePdu(env, s) == Dispatch(env, s)
  {
    NeededBounds(s);
  }

  lemma OnePduArrives(env: Env, b: Bytes, out: seq<Out>)
    requires OnePdu(b)
    ensures var h := HeaderOf(b);
      FeedAll(env, Idle(out), b) == Dispatch(env, Rx(b, h.size, |b| - 81, h.kind, Recipient(h), false, false, out))
  {
    var head, body := b[..81], b[81..];
    SameHeader(head, b);
    var whole := Grown(TakeHeader(Idle(out).(buf := head)), body);
    assert head + body == b;
    WholePduSettles(env, whole);
    PduRead(env, head, body, out);
  }

  /** A header whose checksum is wrong: the sender is told so, nothing is handed to anybody, and the stream counts as
      lost. With a wrong mark it is told otherwise, and the stream is read on. */
  lemma DamageIsTold(env: Env, b: Bytes, out: seq<Out>)
    requires OnePdu(b)
    ensures b[..4] == [0xF7, 0xC3, 0xED, 0xA8] && !ChecksumOk(b) ==>
              FeedAll(env, Idle(out), b) == Idle(out + [Respond(HvCrcErr)]).(desynced := true)
    ensures b[..4] != [0xF7, 0xC3, 0xED, 0xA8] ==> FeedAll(env, Idle(out), b) == Idle(out + [Respond(HvInvalPdu)])
  {
    OnePduArrives(env, b, out);
  }

  /** When the recipient turns out to be gone at a later piece, the sender is told who, this piece and what follows is
      handed to nobody, and the stream counts as lost. */
  lemma RecipientLost(env: Env, m: Message, n: nat, out: seq<Out>)
    requires m.Valid() && m.kind != MT_REQ && n < |m.body| && !env.Present(m.Name())
    ensures FeedAll(env, Relaying(m, n, out), m.body[n..]) == Idle(out + [Unreachable(m.Name())]).(desynced := true)
  {
    var k := Min(|m.body| - n, CHUNK_BUF_SIZE);
    TakeDrop(m.body[n..], k);
    FeedAppend(env, Relaying(m, n, out), m.body[n..][..k], m.body[n..][k..]);
    PieceLost(env, m, n, m.body[n..][..k], out);
    LostStays(env, Idle(out + [Unreachable(m.Name())]).(desynced := true), m.body[n..][k..]);
  }

  lemma PieceLost(env: Env, m: Message, n: nat, piece: Bytes, out: seq<Out>)
    requires m.Valid() && m.kind != MT_REQ && n < |m.body| && !env.Present(m.Name())
    requires |piece| == Min(|m.body| - n, CHUNK_BUF_SIZE)
    ensures FeedAll(env, Relaying(m, n, out), piece) == Idle(out + [Unreachable(m.Name())]).(desynced := true)
  {
    FeedChunk(env, Relaying(m, n, out), piece);
  }

  // ---------- Which verdict a message gets ----------

  /** The verdicts, each with its exact condition, in the order in which the conditions are tested. */
  lemma VerdictExactly(env: Env, m: Message)
    requires m.Valid()
    ensures var known, v := m.kind == MT_MSG || m.kind == MT_FILE || m.kind == MT_REQ, Judged(env, m);
      var barred, big := m.kind == MT_FILE && !env.allowFiles, env.allowFiles && |m.body| > env.maxFileSize;
      var long := m.kind != MT_FILE && |m.body| > 4015;
      var named := m.Name() != [] && m.Name() in env.online;
      && (v == HvInvalPdu <==> !known)
      && (v == HvFileNotAllowed <==> barred)
      && (v == HvFileTooBig <==> known && big)
      && (v == HvTextTooBig <==> known && !big && long)
      && (v == HvInvalSubj <==> known && !barred && !big && !long && m.kind != MT_REQ && !named)
      && (v == HvInvalReq <==> m.kind == MT_REQ && !big && !long && m.opt[..4] != [0, 0, 0, 0])
  {
    HeaderAlone(m);
  }
}
