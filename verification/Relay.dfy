/** The server's receive machine (wt_handle_inbound_data in server/worker.c) as a function of the bytes
    a client sends, one byte at a time: the reference the fragment-wise code is proved against. */
module Relay {
  import opened ByteStrings
  import opened Lwmp

  const MAX_TEXTMSG_SIZE := PDU_BUF_SIZE

  datatype Status = HvOk | HvFileNotAllowed | HvFileTooBig | HvTextTooBig | HvCrcErr | HvInvalReq | HvInvalPdu | HvInvalSubj

  /** What the machine looks up: server settings, the users connected when a header is validated, the
      users still connected when a message is handed over, and the sender's own name. */
  datatype Env = Env(allowFiles: bool, maxFileSize: nat, online: set<Bytes>, present: set<Bytes>, me: Bytes) {
    predicate Reachable(user: Bytes) { user != [] && user in online }

    predicate Present(user: Bytes) { user != [] && user in present }
  }

  datatype Out =
    | Respond(status: Status)          // an MT_INFO PDU back to the sender
    | SendUserList                     // the answer to a user list request
    | Unreachable(user: Bytes)         // the recipient went away
    | Forward(to: Bytes, msg: Bytes)   // a message enqueued for the recipient

  /** curr_recv_msg together with what has been emitted. */
  datatype Rx = Rx(buf: Bytes, expected: nat, received: nat, kind: bv8, dest: Bytes,
                   chunking: bool, desynced: bool, out: seq<Out>) {

    function Reset(): Rx { Rx([], 0, 0, MT_NONE, [], false, false, out) }

    function Emit(o: Out): Rx { this.(out := out + [o]) }
  }

  const Start := Rx([], 0, 0, MT_NONE, [], false, false, [])

  function Min(a: nat, b: nat): nat { if a < b then a else b }

  /** The request type field, big-endian, must be REQ_USER_LIST, which is 0. */
  predicate ValidRequest(hdr: Header)
    requires hdr.Valid()
  {
    hdr.kind == MT_REQ && hdr.opt[..4] == [0, 0, 0, 0]
  }

  /** lwmp_validate_hdrs, check by check. */
  function Validate(env: Env, buf: Bytes, dest: Bytes): Status
    requires |buf| >= HDR_SIZE
  {
    var hdr := HeaderOf(buf);
    if buf[..4] != PDU_MARK then HvInvalPdu
    else if !ChecksumOk(buf) then HvCrcErr
    else if hdr.kind != MT_MSG && hdr.kind != MT_FILE && hdr.kind != MT_REQ then HvInvalPdu
    else if hdr.kind == MT_FILE && !env.allowFiles then HvFileNotAllowed
    else if env.allowFiles && hdr.size > env.maxFileSize then HvFileTooBig
    else if hdr.kind != MT_FILE && hdr.size > MAX_TEXTMSG_SIZE then HvTextTooBig
    else if hdr.kind != MT_REQ && !env.Reachable(dest) then HvInvalSubj
    else if hdr.kind == MT_REQ && !ValidRequest(hdr) then HvInvalReq
    else HvOk
  }

  /** The sender's own name goes into the subject field, and the checksum is taken again. */
  function Restamp(env: Env, buf: Bytes): (b: Bytes)
    requires |buf| >= HDR_SIZE
    ensures |b| == |buf|
  {
    var covered := buf[..5] + StrNCpy(env.me, UNAME_SIZE) + buf[37..CRC_OFFSET];
    covered + Sum(covered) + buf[HDR_SIZE..]
  }

  /** The recipient named in a header: its last byte is forced to NUL. */
  function Recipient(hdr: Header): Bytes
    requires hdr.Valid()
  {
    if hdr.kind == MT_REQ then [] else CString(hdr.subject[..UNAME_SIZE - 1])
  }

  /** The header is complete: remember what it announces. */
  function TakeHeader(s: Rx): Rx
    requires |s.buf| == HDR_SIZE
  {
    var hdr := HeaderOf(s.buf);
    s.(kind := hdr.kind, dest := Recipient(hdr), expected := hdr.size, received := 0)
  }

  /** How much of the first PDU is collected; the sum is taken in 64 bits. */
  function Needed(s: Rx): nat { Min((HDR_SIZE + s.expected) % TWO_64, MAX_PDU_SIZE) }

  /** The first PDU of a message is complete. */
  function Dispatch(env: Env, s: Rx): Rx
    requires |s.buf| >= HDR_SIZE
  {
    var status := Validate(env, s.buf, s.dest);
    var s1 := s.Emit(Respond(status));
    if status != HvOk then s1.Reset().(desynced := status == HvCrcErr) else Accept(env, s1)
  }

  /** A validated first PDU: a request is answered, anything else goes to its recipient. */
  function Accept(env: Env, s: Rx): Rx
    requires |s.buf| >= HDR_SIZE
  {
    if s.kind != MT_REQ && !env.Present(s.dest) then s.Emit(Unreachable(s.dest)).Reset()
    else
      var s2 := if s.kind == MT_REQ then s.Emit(SendUserList)
                else s.Emit(Forward(s.dest, Restamp(env, s.buf))).(buf := []);
      if s.received == s.expected then s2.Reset() else s2.(chunking := true)
  }

  function SettlePdu(env: Env, s: Rx): Rx
    requires |s.buf| >= HDR_SIZE
  {
    if |s.buf| < Needed(s) then s
    else if s.received >= s.expected || |s.buf| == MAX_PDU_SIZE then Dispatch(env, s)
    else s
  }

  function SettleChunk(env: Env, s: Rx): Rx {
    if s.received < s.expected && |s.buf| < CHUNK_BUF_SIZE then s
    else if !env.Present(s.dest) then s.Emit(Unreachable(s.dest)).Reset().(desynced := true)
    else
      var s1 := s.Emit(Forward(s.dest, ChunkOf(env, s.buf))).(buf := []);
      if s.expected == s.received then s1.Reset() else s1
  }

  /** lwmp_prepare_chunk: at most CHUNK_BUF_SIZE bytes, labelled with the sender. */
  function ChunkOf(env: Env, data: Bytes): Bytes {
    var size := Min(|data| % 0x1_0000, CHUNK_BUF_SIZE);
    ChunkHeader(StrNCpy(env.me, UNAME_SIZE), size) + data[..Min(size, |data|)]
  }

  /** A header that declares so much that header plus size wraps around 64 bits: nothing more is read. */
  predicate Stalled(s: Rx) {
    !s.desynced && !s.chunking && |s.buf| == HDR_SIZE && Needed(s) < HDR_SIZE && s.received < s.expected
  }

  function Feed(env: Env, s: Rx, b: bv8): Rx {
    if s.desynced || Stalled(s) then s
    else
      var t := s.(buf := s.buf + [b]);
      if s.chunking then SettleChunk(env, t.(received := s.received + 1))
      else if |t.buf| < HDR_SIZE then t
      else if |t.buf| == HDR_SIZE then SettlePdu(env, TakeHeader(t))
      else SettlePdu(env, t.(received := s.received + 1))
  }

  function FeedAll(env: Env, s: Rx, bytes: Bytes): Rx
    decreases bytes
  {
    if bytes == [] then s else FeedAll(env, Feed(env, s, bytes[0]), bytes[1..])
  }

  /** Cutting the stream anywhere makes no difference. */
  lemma {:induction false} FeedAppend(env: Env, s: Rx, a: Bytes, b: Bytes)
    ensures FeedAll(env, s, a + b) == FeedAll(env, FeedAll(env, s, a), b)
    decreases a
  {
    if a == [] {
      assert a + b == b;
    } else {
      assert (a + b)[1..] == a[1..] + b;
      FeedAppend(env, Feed(env, s, a[0]), a[1..], b);
    }
  }

  // ---------- States between reads ----------

  /** Nothing is pending that could be emitted already. */
  ghost predicate Settled(s: Rx) {
    if s.desynced then true
    else if s.chunking then s.received < s.expected && |s.buf| < CHUNK_BUF_SIZE && s.received >= |s.buf|
    else if |s.buf| < HDR_SIZE then s.expected == 0 && s.received == 0 && s.kind == MT_NONE && s.dest == []
    else InFirstPdu(s) && (|s.buf| < Needed(s) || Stalled(s))
  }

  ghost predicate InFirstPdu(s: Rx) {
    && !s.desynced && !s.chunking && HDR_SIZE <= |s.buf| <= MAX_PDU_SIZE
    && s.received == |s.buf| - HDR_SIZE
    && var hdr := HeaderOf(s.buf);
       s.kind == hdr.kind && s.expected == hdr.size && s.dest == Recipient(hdr)
  }

  lemma NeededBounds(s: Rx)
    requires s.expected < TWO_64
    ensures Needed(s) <= MAX_PDU_SIZE
    ensures Needed(s) >= HDR_SIZE ==> Needed(s) == Min(HDR_SIZE + s.expected, MAX_PDU_SIZE)
    ensures Needed(s) < HDR_SIZE <==> HDR_SIZE + s.expected >= TWO_64
  {
  }

  /** Reading header bytes in one piece. */
  lemma {:induction false} FeedHeader(env: Env, s: Rx, data: Bytes)
    requires Settled(s) && !s.desynced && !s.chunking && |s.buf| + |data| <= HDR_SIZE && data != [] && |s.buf| < HDR_SIZE
    ensures var t := s.(buf := s.buf + data);
      FeedAll(env, s, data) == if |t.buf| < HDR_SIZE then t else SettlePdu(env, TakeHeader(t))
    decreases data
  {
    var s1 := Feed(env, s, data[0]);
    if |data| == 1 {
      assert data == [data[0]];
    } else {
      assert s.buf + data == (s.buf + [data[0]]) + data[1..];
      FeedHeader(env, s1, data[1..]);
    }
  }

  /** The first PDU after more of its payload has been read. */
  function Grown(s: Rx, data: Bytes): Rx { s.(buf := s.buf + data, received := s.received + |data|) }

  lemma FeedOneByte(env: Env, s: Rx, b: bv8)
    requires InFirstPdu(s) && HDR_SIZE <= |s.buf| < Needed(s)
    ensures var t := Grown(s, [b]);
      Feed(env, s, b) == SettlePdu(env, t) && InFirstPdu(t) && Needed(t) == Needed(s) && (|t.buf| < Needed(s) ==> SettlePdu(env, t) == t)
  {
    NeededBounds(s);
    SameHeader(s.buf, s.buf + [b]);
  }

  lemma GrowTwice(s: Rx, b: bv8, rest: Bytes)
    ensures Grown(Grown(s, [b]), rest) == Grown(s, [b] + rest)
  {
    Assoc(s.buf, [b], rest);
  }

  /** Reading payload bytes of the first PDU in one piece. */
  lemma {:induction false} FeedPayload(env: Env, s: Rx, data: Bytes)
    requires InFirstPdu(s) && HDR_SIZE <= |s.buf| < Needed(s) && |s.buf| + |data| <= Needed(s) && data != []
    ensures FeedAll(env, s, data) == SettlePdu(env, Grown(s, data))
    decreases data
  {
    var b, rest := data[0], data[1..];
    HeadTail(data);
    FeedOneByte(env, s, b);
    if rest == [] {
      assert data == [b];
    } else {
      FeedPayload(env, Grown(s, [b]), rest);
      GrowTwice(s, b, rest);
    }
  }

  lemma SameHeader(a: Bytes, b: Bytes)
    requires HDR_SIZE <= |a| <= |b| && a == b[..|a|]
    ensures HeaderOf(a) == HeaderOf(b)
  {
    assert a[5..37] == b[5..37] && a[37..69] == b[37..69] && a[69..77] == b[69..77];
  }

  lemma FeedOneChunkByte(env: Env, s: Rx, b: bv8)
    requires !s.desynced && s.chunking && s.received < s.expected && |s.buf| < CHUNK_BUF_SIZE
    ensures var t := Grown(s, [b]);
      Feed(env, s, b) == SettleChunk(env, t) && (t.received < t.expected && |t.buf| < CHUNK_BUF_SIZE ==> SettleChunk(env, t) == t)
  {
  }

  /** Reading chunk bytes in one piece. */
  lemma {:induction false} FeedChunk(env: Env, s: Rx, data: Bytes)
    requires !s.desynced && s.chunking && s.received < s.expected && |s.buf| < CHUNK_BUF_SIZE && data != []
    requires s.received + |data| <= s.expected && |s.buf| + |data| <= CHUNK_BUF_SIZE
    ensures FeedAll(env, s, data) == SettleChunk(env, Grown(s, data))
    decreases data
  {
    var b, rest := data[0], data[1..];
    HeadTail(data);
    FeedOneChunkByte(env, s, b);
    if rest == [] {
      assert data == [b];
    } else {
      FeedChunk(env, Grown(s, [b]), rest);
      GrowTwice(s, b, rest);
    }
  }

  lemma SettlePduSettles(env: Env, s: Rx)
    requires InFirstPdu(s) && (|s.buf| <= Needed(s) || |s.buf| == HDR_SIZE)
    ensures Settled(SettlePdu(env, s))
  {
    NeededBounds(s);
  }

  lemma SettleChunkSettles(env: Env, s: Rx)
    requires !s.desynced && s.chunking && |s.buf| <= s.received <= s.expected && |s.buf| <= CHUNK_BUF_SIZE
    ensures Settled(SettleChunk(env, s))
  {
  }

  /** Reading payload bytes in any pieces, from a first PDU that may already be complete. */
  lemma PayloadRead(env: Env, s: Rx, data: Bytes)
    requires InFirstPdu(s) && (|s.buf| <= Needed(s) || |s.buf| == HDR_SIZE)
    requires data == [] || |s.buf| + |data| <= Needed(s)
    ensures InFirstPdu(Grown(s, data)) && Needed(Grown(s, data)) == Needed(s)
    ensures FeedAll(env, SettlePdu(env, s), data) == SettlePdu(env, Grown(s, data))
    ensures |s.buf| + |data| < Needed(s) ==> SettlePdu(env, Grown(s, data)) == Grown(s, data) && Settled(Grown(s, data))
  {
    NeededBounds(s);
    SameHeader(s.buf, s.buf + data);
    if data == [] {
      assert s.buf + data == s.buf;
    } else {
      FeedPayload(env, s, data);
    }
  }

  /** Reading header bytes in any pieces. */
  lemma HeaderRead(env: Env, s: Rx, data: Bytes)
    requires Settled(s) && !s.desynced && !s.chunking && |s.buf| < HDR_SIZE && |s.buf| + |data| <= HDR_SIZE
    ensures var h := s.(buf := s.buf + data);
      if |h.buf| < HDR_SIZE then FeedAll(env, s, data) == h && Settled(h)
      else InFirstPdu(TakeHeader(h)) && FeedAll(env, s, data) == SettlePdu(env, TakeHeader(h))
  {
    if data == [] {
      assert s.buf + data == s.buf;
    } else {
      FeedHeader(env, s, data);
    }
  }

  /** A first PDU that waits for more bytes is not touched by settling it again. */
  lemma WaitingIsSettled(env: Env, s: Rx)
    requires Settled(s) && !s.desynced && !s.chunking && |s.buf| >= HDR_SIZE
    ensures InFirstPdu(s) && SettlePdu(env, s) == s && (|s.buf| <= Needed(s) || |s.buf| == HDR_SIZE)
  {
    NeededBounds(s);
  }

  /** Reading chunk bytes in any pieces. */
  lemma ChunkRead(env: Env, s: Rx, data: Bytes)
    requires Settled(s) && !s.desynced && s.chunking
    requires s.received + |data| <= s.expected && |s.buf| + |data| <= CHUNK_BUF_SIZE
    ensures FeedAll(env, s, data) == SettleChunk(env, Grown(s, data)) && Settled(SettleChunk(env, Grown(s, data)))
  {
    if data == [] {
      assert s.buf + data == s.buf;
    } else {
      FeedChunk(env, s, data);
    }
    SettleChunkSettles(env, Grown(s, data));
  }

  /** A machine that waits for an impossible size consumes nothing more. */
  lemma {:induction false} StuckStays(env: Env, s: Rx, bytes: Bytes)
    requires Stalled(s)
    ensures FeedAll(env, s, bytes) == s
    decreases bytes
  {
    if bytes != [] { StuckStays(env, s, bytes[1..]); }
  }

  /** Where the model ends: what the source does to get back in step is not part of it. */
  lemma {:induction false} LostStays(env: Env, s: Rx, bytes: Bytes)
    requires s.desynced
    ensures FeedAll(env, s, bytes) == s
    decreases bytes
  {
    if bytes != [] { LostStays(env, s, bytes[1..]); }
  }

  predicate Alive(s: Rx) { !s.desynced && !Stalled(s) }

  /** A machine that ends up alive was alive all the way. */
  lemma AliveBefore(env: Env, s: Rx, bytes: Bytes, n: nat)
    requires n <= |bytes| && Alive(FeedAll(env, s, bytes))
    ensures Alive(FeedAll(env, s, bytes[..n]))
  {
    FeedAppend(env, s, bytes[..n], bytes[n..]);
    assert bytes[..n] + bytes[n..] == bytes;
    var t := FeedAll(env, s, bytes[..n]);
    if t.desynced { LostStays(env, t, bytes[n..]); }
    if Stalled(t) { StuckStays(env, t, bytes[n..]); }
  }
}
