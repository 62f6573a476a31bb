/** Messages that stop in the middle: what cmd_sendfile in client/clcmd.c leaves behind when the file cannot be
    read on or the server says no, and what the relay makes of the bytes that follow. */
module Uploads {
  import opened ByteStrings
  import opened Lwmp
  import opened Relay
  import opened RelayMessages
  import Mailing

  // ---------- How far the relay is ----------

  /** Some way into an accepted message: not at a border, and waiting for exactly the rest of it. */
  predicate Underway(s: Rx, m: Message, k: nat)
    requires m.Valid()
  {
    && Alive(s) && s != Idle(s.out)
    && if k < HDR_SIZE then s == Idle(s.out).(buf := m.OnWire()[..k])
       else s.expected == |m.body| && s.received == k - HDR_SIZE
  }

  lemma HeaderUnderway(env: Env, m: Message, k: nat, out: seq<Out>)
    requires m.Valid() && 0 < k < HDR_SIZE
    ensures Underway(FeedAll(env, Idle(out), m.OnWire()[..k]), m, k)
  {
    var part := m.OnWire()[..k];
    assert [] + part == part && part != [];
    FeedHeader(env, Idle(out), part);
  }

  lemma WireCut(m: Message, n: nat)
    requires m.Valid() && n <= |m.body|
    ensures m.OnWire()[..HDR_SIZE + n] == EncodeHeader(m.Hdr()) + m.body[..n]
    ensures m.OnWire()[HDR_SIZE + n..] == m.body[n..]
  {
    WireParts(m, n);
    Split(EncodeHeader(m.Hdr()) + m.body[..n], m.body[n..]);
  }

  /** While the first PDU comes in. */
  lemma FirstUnderway(env: Env, m: Message, n: nat, out: seq<Out>)
    requires Accepted(env, m) && n < Min(|m.body|, PDU_BUF_SIZE)
    ensures FeedAll(env, Idle(out), EncodeHeader(m.Hdr()) + m.body[..n]) == Collecting(env, m, n, out)
    ensures Underway(Collecting(env, m, n, out), m, HDR_SIZE + n)
  {
    CollectsFirstPdu(env, m, 0, out);
    CollectsFirstPdu(env, m, n, out);
    CollectMore(env, m, n, out);
    HeaderArrives(env, m, out);
    PayloadRead(env, Collecting(env, m, 0, out), m.body[..n]);
    FeedAppend(env, Idle(out), EncodeHeader(m.Hdr()), m.body[..n]);
  }

  lemma PartOfChunk(env: Env, m: Message, n: nat, k: nat, out: seq<Out>)
    requires Accepted(env, m) && n <= k < |m.body| && k - n < CHUNK_BUF_SIZE
    ensures Underway(FeedAll(env, Relaying(m, n, out), m.body[n..k]), m, HDR_SIZE + k)
  {
    ChunkRead(env, Relaying(m, n, out), m.body[n..k]);
  }

  lemma WholeChunk(env: Env, m: Message, n: nat, out: seq<Out>) returns (more: seq<Out>)
    requires Accepted(env, m) && n + CHUNK_BUF_SIZE < |m.body|
    ensures FeedAll(env, Relaying(m, n, out), m.body[n..n + CHUNK_BUF_SIZE]) == Relaying(m, n + CHUNK_BUF_SIZE, more)
  {
    OneChunkForwarded(env, m, n, CHUNK_BUF_SIZE, out);
    more := FeedAll(env, Relaying(m, n, out), m.body[n..n + CHUNK_BUF_SIZE]).out;
  }

  /** While the chunks come in. */
  lemma {:induction false} ChunksUnderway(env: Env, m: Message, n: nat, k: nat, out: seq<Out>)
    requires Accepted(env, m) && n <= k < |m.body|
    ensures Underway(FeedAll(env, Relaying(m, n, out), m.body[n..k]), m, HDR_SIZE + k)
    decreases k - n
  {
    var s := Relaying(m, n, out);
    if k - n < CHUNK_BUF_SIZE {
      PartOfChunk(env, m, n, k, out);
    } else {
      var rest := WholeChunk(env, m, n, out);
      assert m.body[n..k] == m.body[n..n + CHUNK_BUF_SIZE] + m.body[n + CHUNK_BUF_SIZE..k];
      FeedAppend(env, s, m.body[n..n + CHUNK_BUF_SIZE], m.body[n + CHUNK_BUF_SIZE..k]);
      ChunksUnderway(env, m, n + CHUNK_BUF_SIZE, k, rest);
    }
  }

  lemma RestUnderway(env: Env, m: Message, n: nat, out: seq<Out>)
    requires Accepted(env, m) && PDU_BUF_SIZE <= n < |m.body|
    ensures Underway(FeedAll(env, Idle(out), EncodeHeader(m.Hdr()) + m.body[..n]), m, HDR_SIZE + n)
  {
    var first := EncodeHeader(m.Hdr()) + m.body[..PDU_BUF_SIZE];
    assert m.body[..n] == m.body[..PDU_BUF_SIZE] + m.body[PDU_BUF_SIZE..n];
    Assoc(EncodeHeader(m.Hdr()), m.body[..PDU_BUF_SIZE], m.body[PDU_BUF_SIZE..n]);
    FeedAppend(env, Idle(out), first, m.body[PDU_BUF_SIZE..n]);
    FirstPduRelayed(env, m, out);
    ChunksUnderway(env, m, PDU_BUF_SIZE, n, AfterFirst(env, m, out).out);
  }

  /** An accepted message cut anywhere leaves the relay in the middle of it. */
  lemma CutIsUnderway(env: Env, m: Message, k: nat, out: seq<Out>)
    requires Accepted(env, m) && 0 < k < |m.OnWire()|
    ensures Underway(FeedAll(env, Idle(out), m.OnWire()[..k]), m, k)
  {
    if k < HDR_SIZE {
      HeaderUnderway(env, m, k, out);
    } else {
      var n: nat := k - HDR_SIZE;
      WireCut(m, n);
      if n < Min(|m.body|, PDU_BUF_SIZE) { FirstUnderway(env, m, n, out); } else { RestUnderway(env, m, n, out); }
    }
  }

  /** The exact condition: a part of an accepted message leaves the relay at a border if and only if it is all
      of it or nothing. */
  lemma BorderOnlyAtEnds(env: Env, m: Message, k: nat, out: seq<Out>)
    requires Accepted(env, m) && k <= |m.OnWire()|
    ensures var s := FeedAll(env, Idle(out), m.OnWire()[..k]); s == Idle(s.out) <==> k == 0 || k == |m.OnWire()|
  {
    if 0 < k < |m.OnWire()| {
      CutIsUnderway(env, m, k, out);
    } else if k > 0 {
      assert m.OnWire()[..k] == m.OnWire();
      MessageRelayed(env, m, out);
    }
  }

  // ---------- What becomes of the bytes that follow ----------

  /** The message the relay takes it for: the part that came, completed by what follows. */
  function Completed(m: Message, k: nat, more: Bytes): (c: Message)
    requires m.Valid() && HDR_SIZE <= k <= |m.OnWire()| && |more| == |m.OnWire()| - k
    ensures c.Valid() && c.Hdr() == m.Hdr() && c.OnWire() == m.OnWire()[..k] + more
    ensures c.body[k - HDR_SIZE..] == more
  {
    var n: nat := k - HDR_SIZE;
    WireCut(m, n);
    Assoc(EncodeHeader(m.Hdr()), m.body[..n], more);
    m.(body := m.body[..n] + more)
  }

  /** The bytes after a cut message are relayed as its content, byte for byte, until its announced size has been
      reached; only what is left then is read as messages. */
  lemma NextIsSwallowed(env: Env, m: Message, k: nat, next: Bytes, out: seq<Out>)
    requires Accepted(env, m) && HDR_SIZE <= k < |m.OnWire()| && |next| >= |m.OnWire()| - k
    ensures var missing := |m.OnWire()| - k;
      var c := Completed(m, k, next[..missing]);
      && Accepted(env, c) && Payloads(Frames(env, c)) == m.body[..k - HDR_SIZE] + next[..missing]
      && FeedAll(env, Idle(out), m.OnWire()[..k] + next) == FeedAll(env, Idle(out + Answers(env, c)), next[missing..])
  {
    var missing := |m.OnWire()| - k;
    var c := Completed(m, k, next[..missing]);
    FramesCarryBody(env, c);
    TakeDrop(next, missing);
    Assoc(m.OnWire()[..k], next[..missing], next[missing..]);
    FeedAppend(env, Idle(out), c.OnWire(), next[missing..]);
    MessageRelayed(env, c, out);
  }

  /** When that size is not reached, all of them are content, and whatever they were meant to be, no answer to
      them is ever sent: what has been emitted are the first of the replies to one message. */
  lemma NextIsContent(env: Env, m: Message, k: nat, next: Bytes, out: seq<Out>)
    requires Accepted(env, m) && HDR_SIZE <= k && k + |next| < |m.OnWire()|
    ensures var c := Completed(m, k, next + Zeros(|m.OnWire()| - k - |next|));
      var s := FeedAll(env, Idle(out), m.OnWire()[..k] + next);
      Accepted(env, c) && Underway(s, c, k + |next|) && s.out <= out + Answers(env, c)
  {
    var pad := Zeros(|m.OnWire()| - k - |next|);
    var c := Completed(m, k, next + pad);
    var part := m.OnWire()[..k] + next;
    Assoc(m.OnWire()[..k], next, pad);
    Split(part, pad);
    CutIsUnderway(env, c, |part|, out);
    MessageRelayed(env, c, out);
    FeedAppend(env, Idle(out), part, pad);
    Mailing.OutGrows(env, FeedAll(env, Idle(out), part), pad);
  }

  // ---------- A client that waits for the answer ----------

  /** What cmd_sendfile puts out when it can read the file and nothing interrupts it: the first PDU, and the rest
      if the server said OK. */
  function Played(env: Env, m: Message): Bytes
    requires m.Valid()
  {
    if Judged(env, m) == HvOk then m.OnWire() else EncodeHeader(m.Hdr()) + m.body[..Min(|m.body|, PDU_BUF_SIZE)]
  }

  /** The exact condition for staying in step with such a client: it is lost only over a message longer than one
      PDU whose recipient goes away after the header has been found valid. */
  lemma PlayedInStep(env: Env, m: Message, out: seq<Out>)
    requires m.Valid()
    ensures FeedAll(env, Idle(out), Played(env, m)) == Idle(out + Replies(env, m))
            <==> !(Judged(env, m) == HvOk && |m.body| > PDU_BUF_SIZE && !env.Present(Recipient(m.Hdr())))
  {
    AcceptedExactly(env, m);
    if Judged(env, m) == HvOk {
      BorderReached(env, m, out);
      if m.kind == MT_REQ { RequestFits(env, m); }
    } else {
      var n := Min(|m.body|, PDU_BUF_SIZE);
      FeedAppend(env, Idle(out), EncodeHeader(m.Hdr()), m.body[..n]);
      HeaderArrives(env, m, out);
      FirstBodyArrives(env, m, out);
      FirstPduRefused(env, m, out);
    }
  }
}
