/** The resumable receive handler of a worker thread (wt_handle_inbound_data in server/worker.c): it can
    be stopped at any byte and carries on at the next call. */
module ServerInbound {
  import opened ByteStrings
  import opened Lwmp
  import opened Network
  import opened Relay
  import opened RelayMessages

  datatype Verdict = Disconnected | StopBlocked | StopBorder

  class Inbound {
    const env: Env
    const sock: Socket
    const recvBuf: array<bv8>
    var offset: nat
    var expected: nat
    var received: nat
    var kind: bv8
    var dest: Bytes
    var notInitPdu: bool
    var desynced: bool
    var out: seq<Out>

    function State(): Rx
      reads this, recvBuf
      requires offset <= recvBuf.Length
    {
      Rx(recvBuf[..offset], expected, received, kind, dest, notInitPdu, desynced, out)
    }

    ghost predicate Valid()
      reads this, recvBuf
    {
      recvBuf.Length == MAX_PDU_SIZE && offset <= MAX_PDU_SIZE
    }

    constructor (env: Env, sock: Socket)
      ensures Valid() && fresh(recvBuf) && this.env == env && this.sock == sock && State() == Start
    {
      this.env, this.sock := env, sock;
      recvBuf := new bv8[MAX_PDU_SIZE];
      offset, expected, received, kind, dest, notInitPdu, desynced, out := 0, 0, 0, MT_NONE, [], false, false, [];
    }

    /** The memset over curr_recv_msg after the buffer. */
    method ResetMessage()
      requires Valid()
      modifies this
      ensures Valid() && State() == old(State()).Reset()
    {
      offset, expected, received, kind, dest, notInitPdu, desynced := 0, 0, 0, MT_NONE, [], false, false;
    }

    method Emit(o: Out)
      requires Valid()
      modifies this`out
      ensures State() == old(State()).Emit(o)
    {
      out := out + [o];
    }

    /** Stopping short has a reason: the socket, asked again, had nothing or failed. */
    twostate predicate Asked(v: Verdict)
      reads sock
    {
      && sock.asks >= old(sock.asks)
      && (v.StopBlocked? ==> sock.refused && sock.asks > old(sock.asks))
      && (v.Disconnected? ==> sock.broken && sock.asks > old(sock.asks))
    }

    /** Or, for a whole call, the recipient of the message at hand has just turned out to be gone. */
    twostate predicate Reasoned(v: Verdict)
      reads this`out, sock
    {
      && sock.asks >= old(sock.asks) && |out| >= |old(out)|
      && (v.StopBlocked? ==> (sock.refused && sock.asks > old(sock.asks)) || (|out| > |old(out)| && out[|out| - 1].Unreachable?))
      && (v.Disconnected? ==> sock.broken && sock.asks > old(sock.asks))
    }

    /** One recv into the buffer behind what is already there. */
    method RecvInto(limit: nat) returns (v: Verdict, n: nat, ghost data: Bytes)
      requires Valid() && 0 < limit && offset + limit <= MAX_PDU_SIZE
      modifies this`offset, recvBuf, sock
      ensures Valid() && data + sock.incoming == old(sock.incoming) && n == |data|
      ensures v.StopBorder? ==> 0 < |data| <= limit && State() == old(State()).(buf := old(State()).buf + data)
      ensures !v.StopBorder? ==> data == [] && State() == old(State())
      ensures Asked(v)
    {
      var r := sock.Recv(limit);
      match r
      case Failed => return Disconnected, 0, [];
      case WouldBlock => return StopBlocked, 0, [];
      case Received(got) =>
        var i := 0;
        ghost var rest, asks := sock.incoming, sock.asks;
        while i < |got|
          invariant i <= |got| && offset == old(offset) && sock.incoming == rest && sock.asks == asks
          invariant recvBuf[..offset + i] == old(recvBuf[..offset]) + got[..i]
        {
          recvBuf[offset + i] := got[i];
          i := i + 1;
        }
        assert got[..|got|] == got;
        offset := offset + |got|;
        return StopBorder, |got|, got;
    }

    /** The header loop and the interpretation of a complete header. */
    method ReadHeader() returns (v: Verdict, ghost data: Bytes)
      requires Valid() && Settled(State()) && !desynced && !notInitPdu && offset < HDR_SIZE
      modifies this, recvBuf, sock
      ensures Valid() && data + sock.incoming == old(sock.incoming)
      ensures old(offset) + |data| <= HDR_SIZE
      ensures v.StopBorder? <==> old(offset) + |data| == HDR_SIZE
      ensures var h := old(State()).(buf := old(State()).buf + data);
        State() == if v.StopBorder? then TakeHeader(h) else h
      ensures Asked(v)
    {
      ghost var s0 := State();
      data := [];
      assert s0.buf + [] == s0.buf;
      while offset < HDR_SIZE
        invariant Valid() && data + sock.incoming == old(sock.incoming)
        invariant offset <= HDR_SIZE && State() == s0.(buf := s0.buf + data) && sock.asks >= old(sock.asks)
        decreases HDR_SIZE - offset
      {
        var n;
        ghost var got;
        v, n, got := RecvInto(HDR_SIZE - offset);
        Assoc(data, got, sock.incoming);
        if !v.StopBorder? { return; }
        Assoc(s0.buf, data, got);
        data := data + got;
      }
      v := StopBorder;
      InterpretHeader();
    }

    /** What a complete header announces is noted, once. */
    method InterpretHeader()
      requires Valid() && offset == HDR_SIZE && kind == MT_NONE && expected == 0
      modifies this`kind, this`dest, this`expected, this`received
      ensures Valid() && State() == TakeHeader(old(State()))
    {
      var hdr := HeaderOf(recvBuf[..offset]);
      kind := hdr.kind;
      dest := Recipient(hdr);
      expected := hdr.size;
      received := offset - HDR_SIZE;
    }

    /** The payload loop of the first PDU. */
    method ReadPayload() returns (v: Verdict, ghost data: Bytes)
      requires Valid() && InFirstPdu(State())
      modifies this, recvBuf, sock
      ensures Valid() && data + sock.incoming == old(sock.incoming)
      ensures State() == Grown(old(State()), data)
      ensures data == [] || old(offset) + |data| <= Needed(old(State()))
      ensures v.StopBorder? <==> old(offset) + |data| >= Needed(old(State()))
      ensures Asked(v) && out == old(out)
    {
      NeededBounds(State());
      v, data := ReadUpTo(Needed(State()));
    }

    method ReadUpTo(needed: nat) returns (v: Verdict, ghost data: Bytes)
      requires Valid()
      requires offset < needed ==> needed == Min(HDR_SIZE + expected, MAX_PDU_SIZE) && offset == HDR_SIZE + received
      modifies this, recvBuf, sock
      ensures Valid() && data + sock.incoming == old(sock.incoming)
      ensures State() == Grown(old(State()), data)
      ensures data == [] || old(offset) + |data| <= needed
      ensures v.StopBorder? <==> old(offset) + |data| >= needed
      ensures Asked(v) && out == old(out)
    {
      ghost var s0 := State();
      data := [];
      assert s0.buf + [] == s0.buf;
      while offset < needed
        invariant Valid() && data + sock.incoming == old(sock.incoming)
        invariant State() == Grown(s0, data) && (data == [] || |s0.buf| + |data| <= needed) && sock.asks >= old(sock.asks)
        decreases needed - offset
      {
        var n;
        ghost var got;
        v, n, got := RecvInto(Min(expected - received, recvBuf.Length - offset));
        Assoc(data, got, sock.incoming);
        if !v.StopBorder? { return; }
        Assoc(s0.buf, data, got);
        data := data + got;
        received := received + n;
      }
      v := StopBorder;
    }

    /** Validation and hand-over once the first PDU is there. */
    method DispatchPdu() returns (v: Verdict)
      requires Valid() && InFirstPdu(State()) && offset >= Needed(State())
      modifies this
      ensures Valid() && State() == SettlePdu(env, old(State()))
      ensures v.StopBorder? || v.StopBlocked?
      ensures old(received) < old(expected) && old(offset) != MAX_PDU_SIZE ==> v.StopBorder?
      ensures v.StopBlocked? ==> offset == 0 && out != [] && out[|out| - 1].Unreachable?
      ensures |out| >= |old(out)| && (v.StopBlocked? ==> |out| > |old(out)|)
    {
      if received < expected && offset != recvBuf.Length { return StopBorder; }
      var status := Validate(env, recvBuf[..offset], dest);
      Emit(Respond(status));
      if status != HvOk {
        ResetMessage();
        desynced := status == HvCrcErr;
        return StopBorder;
      }
      v := HandOver();
    }

    /** A validated first PDU is answered or enqueued for its recipient. */
    method HandOver() returns (v: Verdict)
      requires Valid() && offset >= HDR_SIZE
      modifies this
      ensures Valid() && State() == Accept(env, old(State()))
      ensures v.StopBorder? || v.StopBlocked?
      ensures v.StopBlocked? ==> offset == 0 && out != [] && out[|out| - 1].Unreachable?
      ensures |out| >= |old(out)| && (v.StopBlocked? ==> |out| > |old(out)|)
    {
      if kind == MT_REQ {
        Emit(SendUserList);
      } else if !env.Present(dest) {
        Emit(Unreachable(dest));
        ResetMessage();
        return StopBlocked;
      } else {
        Emit(Forward(dest, Restamp(env, recvBuf[..offset])));
        offset := 0;
      }
      if received == expected { ResetMessage(); } else { notInitPdu := true; }
      return StopBorder;
    }

    /** The chunk loop of a file that continues. */
    method ReadChunk() returns (v: Verdict, ghost data: Bytes)
      requires Valid() && Settled(State()) && !desynced && notInitPdu
      modifies this, recvBuf, sock
      ensures Valid() && data + sock.incoming == old(sock.incoming)
      ensures State() == Grown(old(State()), data)
      ensures received <= expected && old(offset) + |data| == offset <= CHUNK_BUF_SIZE
      ensures v.StopBorder? <==> !(received < expected && offset < CHUNK_BUF_SIZE)
      ensures Asked(v) && out == old(out)
    {
      ghost var s0 := State();
      data := [];
      assert s0.buf + [] == s0.buf;
      while received < expected && offset < CHUNK_BUF_SIZE
        invariant Valid() && data + sock.incoming == old(sock.incoming)
        invariant State() == Grown(s0, data) && received <= expected && sock.asks >= old(sock.asks)
        invariant old(offset) + |data| == offset <= CHUNK_BUF_SIZE
        decreases CHUNK_BUF_SIZE - offset
      {
        var n;
        ghost var got;
        v, n, got := RecvInto(Min(expected - received, CHUNK_BUF_SIZE - offset));
        Assoc(data, got, sock.incoming);
        if !v.StopBorder? { return; }
        Assoc(s0.buf, data, got);
        data := data + got;
        received := received + n;
      }
      v := StopBorder;
    }

    method EmitChunk() returns (v: Verdict)
      requires Valid() && notInitPdu && !(received < expected && offset < CHUNK_BUF_SIZE)
      modifies this
      ensures Valid() && State() == SettleChunk(env, old(State()))
      ensures v.StopBorder? || v.StopBlocked?
      ensures |out| >= |old(out)| && (v.StopBlocked? ==> |out| > |old(out)| && out[|out| - 1].Unreachable?)
    {
      if !env.Present(dest) {
        Emit(Unreachable(dest));
        ResetMessage();
        desynced := true;
        return StopBlocked;
      }
      Emit(Forward(dest, ChunkOf(env, recvBuf[..offset])));
      offset := 0;
      if expected == received { ResetMessage(); }
      return StopBorder;
    }

    method HandleChunk() returns (v: Verdict, ghost data: Bytes)
      requires Valid() && Settled(State()) && !desynced && notInitPdu
      modifies this, recvBuf, sock
      ensures Valid() && data + sock.incoming == old(sock.incoming)
      ensures Settled(State()) && State() == FeedAll(env, old(State()), data)
      ensures v.StopBorder? ==> data != []
      ensures Stalled(State()) ==> v.StopBorder?
      ensures Reasoned(v)
    {
      ghost var s0 := State();
      v, data := ReadChunk();
      ChunkRead(env, s0, data);
      if v.StopBorder? { v := EmitChunk(); }
    }

    /** The first PDU, from a complete header on. */
    method HandlePayload() returns (v: Verdict, ghost data: Bytes)
      requires Valid() && InFirstPdu(State()) && (offset <= Needed(State()) || offset == HDR_SIZE)
      modifies this, recvBuf, sock
      ensures Valid() && data + sock.incoming == old(sock.incoming)
      ensures Settled(State()) && State() == FeedAll(env, SettlePdu(env, old(State())), data)
      ensures v.StopBorder? ==> data != [] || old(offset) >= Needed(old(State()))
      ensures Stalled(old(State())) ==> v.StopBorder? && data == []
      ensures Stalled(State()) ==> v.StopBorder?
      ensures Reasoned(v)
      ensures data == [] || old(offset) + |data| <= Needed(old(State()))
    {
      ghost var s1 := State();
      v, data := ReadPayload();
      PayloadRead(env, s1, data);
      if v.StopBorder? {
        SettlePduSettles(env, State());
        v := DispatchPdu();
      }
    }

    /** One call of wt_handle_inbound_data: whatever bytes it happened to get, and wherever it stopped,
        the state is the one the bytes determine. A call that reports a message border has consumed
        something, except when the declared size overflows. */
    method HandleInbound() returns (v: Verdict, ghost data: Bytes)
      requires Valid() && Settled(State()) && !desynced
      modifies this, recvBuf, sock
      ensures Valid() && data + sock.incoming == old(sock.incoming)
      ensures Settled(State()) && State() == FeedAll(env, old(State()), data)
      ensures v.StopBorder? ==> (data == [] <==> Stalled(old(State())))
      ensures Stalled(old(State())) ==> v.StopBorder? && data == []
      ensures Stalled(State()) ==> v.StopBorder?
      ensures Reasoned(v)
    {
      ghost var s0 := State();
      if notInitPdu {
        v, data := HandleChunk();
        return;
      }
      ghost var body;
      if offset < HDR_SIZE {
        v, data := ReadHeader();
        HeaderRead(env, s0, data);
        if !v.StopBorder? { return; }
        NeededBounds(State());
        v, body := HandlePayload();
        FeedAppend(env, s0, data, body);
        Assoc(data, body, sock.incoming);
        data := data + body;
      } else {
        WaitingIsSettled(env, s0);
        v, data := HandlePayload();
      }
    }

    /** The loop of wt_handle_clientevent around the handler, for at most this many calls, on any bytes: given
        more calls than bytes, and a stream not found to be damaged, it goes on if and only if the client is stalled.
        Then every further call reports a border without reading anything, so the loop never ends. */
    method HandleFor(calls: nat) returns (v: Verdict, ghost data: Bytes)
      requires Valid() && Settled(State()) && !desynced && calls > 0
      modifies this, recvBuf, sock
      ensures Valid() && data + sock.incoming == old(sock.incoming)
      ensures Settled(State()) && State() == FeedAll(env, old(State()), data)
      ensures calls > |old(sock.incoming)| && !desynced ==> (v.StopBorder? <==> Stalled(State()))
      ensures Stalled(old(State())) ==> v.StopBorder? && data == []
      ensures Reasoned(v)
    {
      data := [];
      v := StopBorder;
      var i := 0;
      ghost var stalled := Stalled(State());
      assert [] + sock.incoming == sock.incoming;
      while i < calls && v.StopBorder? && !desynced
        invariant Valid() && Settled(State()) && i <= calls
        invariant data + sock.incoming == old(sock.incoming) && State() == FeedAll(env, old(State()), data)
        invariant v.StopBorder? && !desynced ==> Stalled(State()) || i <= |data|
        invariant Stalled(State()) ==> v.StopBorder?
        invariant stalled ==> v.StopBorder? && data == []
        invariant Reasoned(v)
      {
        ghost var got, before := [], data;
        v, got := HandleInbound();
        FeedAppend(env, old(State()), before, got);
        Assoc(before, got, sock.incoming);
        data := before + got;
        i := i + 1;
      }
    }

    /** The loop of wt_handle_clientevent, on any bytes that do not stall the client: it ends, unless the stream
        is found to be damaged. */
    method HandleReadable() returns (v: Verdict, ghost data: Bytes)
      requires Valid() && Settled(State()) && !desynced && NeverStalls(env, State(), sock.incoming)
      modifies this, recvBuf, sock
      ensures Valid() && data + sock.incoming == old(sock.incoming)
      ensures Settled(State()) && State() == FeedAll(env, old(State()), data)
      ensures (!v.StopBorder? || desynced) && Reasoned(v)
    {
      ghost var coming := sock.incoming;
      v, data := HandleFor(|sock.incoming| + 1);
      assert coming[..|data|] == data;
    }

    /** The peer has sent, and will send, exactly these orderly messages; `taken` of it has been read. */
    ghost predicate Serving(ms: seq<Message>, taken: Bytes)
      requires Valid()
      reads this, recvBuf, sock
    {
      && AllOrderly(env, ms)
      && taken + sock.incoming == StreamOf(env, ms)
      && Settled(State()) && State() == FeedAll(env, Start, taken)
    }

    lemma ServingIsAlive(ms: seq<Message>, taken: Bytes)
      requires Valid() && Serving(ms, taken)
      ensures Alive(State())
      ensures sock.incoming == [] ==> out == AllReplies(env, ms)
    {
      SessionRelayed(env, ms, []);
      assert [] + AllReplies(env, ms) == AllReplies(env, ms);
      AliveBefore(env, Start, StreamOf(env, ms), |taken|);
      assert StreamOf(env, ms)[..|taken|] == taken;
      if sock.incoming == [] { assert taken + [] == taken; }
    }

    lemma ServingNeverStalls(ms: seq<Message>, taken: Bytes)
      requires Valid() && Serving(ms, taken)
      ensures NeverStalls(env, State(), sock.incoming)
    {
      SessionRelayed(env, ms, []);
      AliveNeverStalls(env, taken, sock.incoming);
    }

    /** The same on an in-sync stream: it ends, and what has been emitted depends on the bytes alone. */
    method ServeReadable(ghost ms: seq<Message>, ghost taken: Bytes) returns (v: Verdict, ghost now: Bytes)
      requires Valid() && Serving(ms, taken)
      modifies this, recvBuf, sock
      ensures Valid() && Serving(ms, now) && taken <= now && !v.StopBorder? && Reasoned(v)
      ensures sock.incoming == [] ==> out == AllReplies(env, ms)
    {
      ServingIsAlive(ms, taken);
      ServingNeverStalls(ms, taken);
      ghost var data;
      v, data := HandleReadable();
      FeedAppend(env, Start, taken, data);
      Assoc(taken, data, sock.incoming);
      now := taken + data;
      ServingIsAlive(ms, now);
    }

    /** Any number of readiness events, with the stream cut and blocked anywhere. */
    method Serve(events: nat, ghost ms: seq<Message>) returns (ghost now: Bytes)
      requires Valid() && State() == Start && AllOrderly(env, ms) && sock.incoming == StreamOf(env, ms)
      modifies this, recvBuf, sock
      ensures Valid() && now + sock.incoming == StreamOf(env, ms)
      ensures out == FeedAll(env, Start, now).out
      ensures sock.incoming == [] ==> out == AllReplies(env, ms)
      ensures events > 0 ==> sock.asks > old(sock.asks) || |out| > |old(out)|
    {
      now := [];
      assert [] + sock.incoming == sock.incoming;
      var i := 0;
      ServingIsAlive(ms, now);
      while i < events
        invariant Valid() && Serving(ms, now) && sock.asks >= old(sock.asks) && |out| >= |old(out)|
        invariant sock.incoming == [] ==> out == AllReplies(env, ms)
        invariant i > 0 ==> sock.asks > old(sock.asks) || |out| > |old(out)|
      {
        var v;
        v, now := ServeReadable(ms, now);
        i := i + 1;
      }
    }
  }

  /** Feeding these bytes never leads to a header that stalls the machine. */
  ghost predicate NeverStalls(env: Env, s: Rx, bytes: Bytes) {
    forall k {:trigger bytes[..k]} | 0 <= k <= |bytes| :: !Stalled(FeedAll(env, s, bytes[..k]))
  }

  lemma AliveNeverStalls(env: Env, taken: Bytes, coming: Bytes)
    requires Alive(FeedAll(env, Start, taken + coming))
    ensures NeverStalls(env, FeedAll(env, Start, taken), coming)
  {
    forall k | 0 <= k <= |coming|
      ensures !Stalled(FeedAll(env, FeedAll(env, Start, taken), coming[..k]))
    {
      StillAlive(env, taken, coming, k);
    }
  }

  lemma StillAlive(env: Env, taken: Bytes, coming: Bytes, k: nat)
    requires Alive(FeedAll(env, Start, taken + coming)) && k <= |coming|
    ensures Alive(FeedAll(env, FeedAll(env, Start, taken), coming[..k]))
  {
    FeedAppend(env, Start, taken, coming[..k]);
    Cut(taken, coming, |taken| + k);
    AliveBefore(env, Start, taken + coming, |taken| + k);
  }
}
