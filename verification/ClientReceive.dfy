/** The receiving client (client/clrecv.c): filling the receive buffer, parsing it in place, and writing
    the files that arrive. */
module ClientReceive {
  import opened ByteStrings
  import opened Lwmp
  import opened Resync
  import opened FrameStream
  import opened Transfers
  import opened Network
  import opened Rounds

  class Client {
    const sock: Socket
    const recvBuf: array<bv8>
    var recvLen: nat
    var connected: bool
    var slots: seq<Slot>
    var files: seq<RxFile>
    ghost var delivered: seq<WireFrame>

    ghost predicate Valid()
      reads this, recvBuf
    {
      && recvBuf.Length == RECV_BUF_SIZE
      && recvLen <= RECV_BUF_SIZE
      && Box().Valid()
    }

    function Box(): Inbox
      reads this
    {
      Inbox(slots, files)
    }

    ghost function Buffered(): Bytes
      reads this, recvBuf
      requires Valid()
    {
      recvBuf[..recvLen]
    }

    constructor (s: Socket)
      ensures Valid() && fresh(recvBuf) && sock == s && recvLen == 0 && connected
      ensures delivered == [] && Box() == EmptyInbox()
    {
      sock := s;
      recvBuf := new bv8[RECV_BUF_SIZE];
      recvLen := 0;
      connected := true;
      slots := seq(MAX_ACTIVE_TRANSFERS, _ => Slot(false, 0, 0, 0, []));
      files := [];
      delivered := [];
    }

    method FindTransfer(sender: Bytes) returns (r: nat)
      ensures r == Box().Find(sender)
    {
      r := 0;
      while r < |slots|
        invariant r <= |slots|
        invariant Box().Find(sender) == Box().Find(sender, r)
      {
        if slots[r].active && slots[r].sender == sender { return; }
        r := r + 1;
      }
    }

    method AllocTransfer() returns (r: nat)
      ensures r == Box().Free()
    {
      r := 0;
      while r < |slots|
        invariant r <= |slots|
        invariant Box().Free() == Box().Free(r)
      {
        if !slots[r].active { return; }
        r := r + 1;
      }
    }

    method CloseTransfer(i: nat)
      requires i < |slots| && slots[i].file < |files|
      modifies this`slots, this`files
      ensures Box() == old(Box()).Close(i)
    {
      var f := slots[i].file;
      files := files[f := files[f].(isOpen := false)];
      slots := slots[i := slots[i].(active := false)];
    }

    /** close_all_transfers, on a lost connection. */
    method CloseAllTransfers()
      requires Box().Valid()
      modifies this`slots, this`files
      ensures Box() == old(Box()).CloseFrom(0)
    {
      var i := 0;
      while i < |slots|
        invariant i <= |slots| && Box().Valid()
        invariant Box().CloseFrom(i) == old(Box()).CloseFrom(0)
      {
        if slots[i].active {
          assert Box().SlotOk(i);
          Box().CloseKeepsValid(i);
          CloseTransfer(i);
        }
        i := i + 1;
      }
    }

    /** clrecv_fill: reads until the buffer is full or the socket, asked again, would block or fails. */
    method Fill()
      requires Valid() && connected
      modifies this`recvLen, this`connected, this`slots, this`files, recvBuf, sock
      ensures Valid()
      ensures connected ==> Buffered() + sock.incoming == old(Buffered() + sock.incoming)
      ensures connected ==> Box() == old(Box()) && old(recvLen) <= recvLen
      ensures !connected ==> recvLen == 0 && Box() == old(Box()).CloseFrom(0)
      ensures connected ==> recvLen == RECV_BUF_SIZE || (sock.refused && sock.asks > old(sock.asks))
      ensures !connected ==> sock.broken && sock.asks > old(sock.asks)
      ensures sock.asks >= old(sock.asks) && (old(recvLen) < RECV_BUF_SIZE ==> sock.asks > old(sock.asks))
    {
      ghost var all := Buffered() + sock.incoming;
      while recvLen < RECV_BUF_SIZE
        invariant Valid() && connected && Box() == old(Box()) && old(recvLen) <= recvLen
        invariant Buffered() + sock.incoming == all && sock.asks >= old(sock.asks)
        invariant recvLen > old(recvLen) ==> sock.asks > old(sock.asks)
        decreases RECV_BUF_SIZE - recvLen
      {
        var r := sock.Recv(RECV_BUF_SIZE - recvLen);
        match r {
          case WouldBlock => break;
          case Failed =>
            connected := false;
            recvLen := 0;
            Box().ClosedFrom(0);
            CloseAllTransfers();
            return;
          case Received(data) =>
            ghost var was := Buffered();
            Append(data);
            Assoc(was, data, sock.incoming);
        }
      }
    }

    method Append(data: Bytes)
      requires Valid() && recvLen + |data| <= RECV_BUF_SIZE
      modifies this`recvLen, recvBuf
      ensures Valid() && Buffered() == old(Buffered()) + data
    {
      var i := 0;
      while i < |data|
        invariant i <= |data| && recvLen == old(recvLen)
        invariant recvBuf[..recvLen + i] == old(Buffered()) + data[..i]
      {
        recvBuf[recvLen + i] := data[i];
        i := i + 1;
      }
      recvLen := recvLen + |data|;
    }

    // ---------- One frame ----------

    /** The MT_FILE branch of process_received_pdu. */
    method ProcessFilePdu(sender: Bytes, size: nat, payload: Bytes)
      requires Box().Valid()
      modifies this`slots, this`files
      ensures Box() == old(Box()).StartFile(sender, size, payload)
    {
      var e := FindTransfer(sender);
      if e < |slots| {
        assert Box().SlotOk(e);
        CloseTransfer(e);
      }
      var s := AllocTransfer();
      if s == |slots| { return; }
      files := files + [RxFile(sender, payload, |payload| < size)];
      if |payload| < size {
        slots := slots[s := Slot(true, |files| - 1, size, |payload|, sender)];
      }
    }

    /** The chunk branch of clrecv_parse. */
    method ProcessChunk(sender: Bytes, data: Bytes)
      requires Box().Valid()
      modifies this`slots, this`files
      ensures Box() == old(Box()).AddChunk(sender, data)
    {
      if |data| == 0 { return; }
      var s := FindTransfer(sender);
      if s == |slots| { return; }
      assert Box().SlotOk(s);
      var f := slots[s].file;
      files := files[f := files[f].(data := files[f].data + data)];
      slots := slots[s := slots[s].(received := slots[s].received + |data|)];
      if slots[s].received >= slots[s].expected {
        CloseTransfer(s);
      }
    }

    /** memmove of what follows the frame, once it is processed. */
    method Consume(total: nat)
      requires Valid() && total <= recvLen
      modifies this`recvLen, recvBuf
      ensures Valid() && Buffered() == old(Buffered())[total..]
    {
      MoveToFront(recvBuf, total, recvLen);
      assert old(recvBuf[total..recvLen]) == old(Buffered())[total..];
      recvLen := recvLen - total;
    }

    /** The NUL that ends a printed text: over its last byte, or over the byte at the payload's start
        when the payload is empty or longer than a PDU can carry. */
    method TerminateText(payloadSize: nat)
      requires Valid() && HDR_SIZE + payloadSize <= recvLen
      modifies recvBuf
      ensures Valid()
      ensures Buffered()[HDR_SIZE + payloadSize..]
              == if payloadSize == 0 && recvLen > HDR_SIZE then [0] + old(Buffered())[HDR_SIZE + 1..]
                 else old(Buffered())[HDR_SIZE + payloadSize..]
    {
      var at := if 0 < payloadSize <= PDU_BUF_SIZE then HDR_SIZE + payloadSize - 1 else HDR_SIZE;
      recvBuf[at] := 0;
    }

    /** A complete PDU stands at the front of the buffer. */
    method TakePdu(hdr: Header, payload: Bytes)
      requires Valid() && ValidFrame(Pdu(hdr, payload)) && HeadOf(Buffered()) == Whole(Pdu(hdr, payload))
      modifies this`recvLen, this`slots, this`files, this`delivered, recvBuf
      ensures Valid() && Buffered() == AfterFrame(old(Buffered()), Pdu(hdr, payload))
      ensures delivered == old(delivered) + [Pdu(hdr, payload)]
      ensures Box() == old(Box()).Accept(Pdu(hdr, payload))
    {
      var total := HDR_SIZE + |payload|;
      if hdr.kind == MT_MSG {
        TerminateText(|payload|);
      } else if hdr.kind == MT_FILE {
        Box().StartFileKeepsValid(CString(hdr.subject), hdr.size, payload);
        ProcessFilePdu(CString(hdr.subject), hdr.size, payload);
      }
      Consume(total);
      delivered := delivered + [Pdu(hdr, payload)];
    }

    method TakeChunk(subject: Bytes, data: Bytes)
      requires Valid() && ValidFrame(Chunk(subject, data)) && HeadOf(Buffered()) == Whole(Chunk(subject, data))
      modifies this`recvLen, this`slots, this`files, this`delivered, recvBuf
      ensures Valid() && Buffered() == AfterFrame(old(Buffered()), Chunk(subject, data))
      ensures delivered == old(delivered) + [Chunk(subject, data)]
      ensures Box() == old(Box()).Accept(Chunk(subject, data))
    {
      Box().AddChunkKeepsValid(CString(subject), data);
      ProcessChunk(CString(subject), data);
      Consume(CHUNK_HDR_SIZE + |data|);
      delivered := delivered + [Chunk(subject, data)];
    }

    /** A header for which total_needed has wrapped: the PDU is handled as if its payload were there, and
        less than the header is removed. */
    method TakeWrapped(hdr: Header, total: nat)
      requires Valid() && HeadOf(Buffered()) == Wrapped(hdr, total)
      modifies this`recvLen, recvBuf
      ensures Valid() && Buffered() == AfterWrapped(old(Buffered()), hdr, total)
    {
      if hdr.kind == MT_MSG { recvBuf[HDR_SIZE] := 0; }
      Consume(total);
    }

    method ResyncBuffer()
      requires Valid()
      modifies this`recvLen, recvBuf
      ensures Valid() && Buffered() == Resynced(old(Buffered()))
    {
      recvLen := StreamResync(recvBuf, recvLen);
    }

    // ---------- The loop ----------

    /** One turn of the loop in clrecv_parse, for any bytes in the buffer. */
    method Turn() returns (stop: bool)
      requires Valid()
      modifies this`recvLen, this`slots, this`files, this`delivered, recvBuf
      ensures Valid()
      ensures stop ==> HeadOf(old(Buffered())).NeedMore? && Buffered() == old(Buffered())
                       && delivered == old(delivered) && Box() == old(Box())
      ensures !stop ==> TurnResult(old(Buffered()), old(delivered), old(Box()), Buffered(), delivered, Box())
    {
      if recvLen < 4 { return true; }
      ghost var buf := Buffered();
      assert recvBuf[..4] == buf[..4];
      stop := false;
      if recvBuf[..4] == PDU_MARK {
        if recvLen < HDR_SIZE { return true; }
        assert recvBuf[CRC_OFFSET..HDR_SIZE] == buf[CRC_OFFSET..HDR_SIZE] && recvBuf[..CRC_OFFSET] == buf[..CRC_OFFSET];
        var sum := Sum(recvBuf[..CRC_OFFSET]);
        if recvBuf[CRC_OFFSET..HDR_SIZE] != sum {
          Blot(recvBuf, recvLen);
          assert Buffered() == Blotted(buf);
          ResyncBuffer();
          return false;
        }
        var hdr := HeaderOf(recvBuf[..recvLen]);
        var needed := TotalNeeded(hdr);
        if recvLen < needed { return true; }
        if needed < HDR_SIZE {
          TakeWrapped(hdr, needed);
        } else {
          TakePdu(hdr, recvBuf[..recvLen][HDR_SIZE..needed]);
        }
      } else if recvBuf[..4] == CHUNK_MARK {
        if recvLen < CHUNK_HDR_SIZE { return true; }
        var needed := CHUNK_HDR_SIZE + ChunkSize(recvBuf[..recvLen]);
        if recvLen < needed { return true; }
        TakeChunk(recvBuf[..recvLen][6..CHUNK_HDR_SIZE], recvBuf[..recvLen][CHUNK_HDR_SIZE..needed]);
      } else {
        ResyncBuffer();
      }
    }

    /** What a turn means for the parse of the whole buffer. It shrinks the buffer unless it is the last one,
        or in front of a header of which nothing is removed. */
    method Advance() returns (stop: bool, ghost got: seq<WireFrame>)
      requires Valid()
      modifies this`recvLen, this`slots, this`files, this`delivered, recvBuf
      ensures Valid() && (stop <==> Ended(old(Buffered())))
      ensures Buffered() == NextBuffer(old(Buffered()))
      ensures recvLen < old(recvLen) <==> !stop && !Spinning(old(Buffered()))
      ensures !Spinning(old(Buffered())) ==> Leads(old(Buffered()), got, Buffered())
      ensures Spinning(old(Buffered())) ==> got == []
      ensures delivered == old(delivered) + got && Box() == AcceptAll(old(Box()), got)
    {
      ghost var buf, log, box := Buffered(), delivered, Box();
      stop := Turn();
      got := if stop then [] else Got(buf);
      TurnShrinks(buf);
      if stop {
        LeadsNowhere(buf);
      } else {
        TurnMeans(buf, log, box, Buffered(), delivered, Box());
      }
    }

    /** The loop of clrecv_parse, for at most this many turns: given enough of them it ends if and only if it
        does not get to a header that announces 2^64 - 81 bytes; if it does get there it never ends. */
    method ParseFor(turns: nat) returns (stop: bool)
      requires Valid()
      modifies this`recvLen, this`slots, this`files, this`delivered, recvBuf
      ensures Valid()
      ensures stop ==> !Spins(old(Buffered()))
      ensures turns > old(recvLen) ==> (stop <==> !Spins(old(Buffered())))
      ensures stop ==> Buffered() == Parse(old(Buffered())).rest
      ensures !stop && turns > old(recvLen) ==> Spinning(Buffered())
      ensures stop || turns > old(recvLen) ==> delivered == old(delivered) + Parse(old(Buffered())).frames
      ensures stop || turns > old(recvLen) ==> Box() == AcceptAll(old(Box()), Parse(old(Buffered())).frames)
    {
      ghost var buf, log, box := Buffered(), delivered, Box();
      ghost var taken: seq<WireFrame> := [];
      var i := 0;
      stop := false;
      LeadsNowhere(buf);
      while i < turns && !stop
        invariant Valid() && i <= turns
        invariant Going(buf, i, stop, taken, Buffered())
        invariant delivered == log + taken && Box() == AcceptAll(box, taken)
      {
        ghost var now, got := Buffered(), [];
        stop, got := Advance();
        GoesOn(buf, i, taken, now, stop, got, Buffered());
        AcceptAllAppend(box, taken, got);
        Assoc(log, taken, got);
        taken := taken + got;
        i := i + 1;
      }
      GoneTo(buf, i, stop, taken, Buffered());
    }

    /** clrecv_parse: whatever the buffer holds, unless there is such a header in it, the loop ends and exactly
        the frames of Parse are delivered, in order, and exactly its rest is kept. */
    method ParseBuffer()
      requires Valid() && !Spins(Buffered())
      modifies this`recvLen, this`slots, this`files, this`delivered, recvBuf
      ensures Valid()
      ensures Buffered() == Parse(old(Buffered())).rest
      ensures delivered == old(delivered) + Parse(old(Buffered())).frames
      ensures Box() == AcceptAll(old(Box()), Parse(old(Buffered())).frames)
    {
      var stop := ParseFor(recvLen + 1);
    }

    // ---------- Sessions ----------

    /** The peer sends the frames fs, so far these bytes of them. Exactly the first frames have been delivered,
        and the buffer holds a proper part of the next one. */
    ghost predicate InSync(fs: seq<WireFrame>, sent: Bytes)
      requires Valid()
      reads this, recvBuf, sock
    {
      Synced(fs, sent, delivered, Buffered(), sock.incoming)
    }

    /** What is buffered, and what is still to be read. */
    ghost function OnLine(): Line
      requires Valid()
      reads this, recvBuf, sock
    {
      Line(Buffered(), sock.incoming)
    }

    /** The buffer always has room as long as the next frame fits it. It is full only when it has filled with
        the beginning of one that does not, and then the client stays as it is whatever the socket does. */
    lemma RoomToRead(fs: seq<WireFrame>, sent: Bytes)
      requires Valid() && InSync(fs, sent)
      ensures |delivered| == |fs| || Fits(fs[|delivered|]) ==> recvLen < RECV_BUF_SIZE
      ensures recvLen == RECV_BUF_SIZE ==> forall wants :: Run(OnLine(), wants) == Receipt([], OnLine())
    {
      if |delivered| == |fs| || Fits(fs[|delivered|]) {
        RoomForNext(fs, sent, delivered, Buffered(), sock.incoming);
      }
      if recvLen == RECV_BUF_SIZE {
        SyncedEnded(fs, sent, delivered, Buffered(), sock.incoming);
        forall wants ensures Run(OnLine(), wants) == Receipt([], OnLine()) {
          FullStays(OnLine(), wants);
        }
      }
    }

    /** The parse of one round, whatever the socket has added to the buffer. */
    method ParseRound(ghost fs: seq<WireFrame>, ghost sent: Bytes)
      requires Valid() && Arriving(fs, sent, delivered, Buffered() + sock.incoming)
      modifies this`recvLen, this`slots, this`files, this`delivered, recvBuf
      ensures Valid() && InSync(fs, sent)
      ensures delivered == old(delivered) + Parse(old(Buffered())).frames && Buffered() == Parse(old(Buffered())).rest
      ensures Box() == AcceptAll(old(Box()), Parse(old(Buffered())).frames)
    {
      ParseSynced(fs, sent, delivered, Buffered(), sock.incoming);
      ParseBuffer();
    }

    /** handle_socket_data on a well-formed stream, with frames of any size. It delivers what Round says for as
        much as the socket gave. When the connection is lost nothing more is delivered and every transfer is
        closed. A round ends only with a full buffer, or when the socket, asked again, had nothing or failed. */
    method HandleSocketData(ghost fs: seq<WireFrame>, ghost sent: Bytes) returns (ghost want: nat)
      requires Valid() && connected && InSync(fs, sent)
      modifies this, recvBuf, sock
      ensures Valid()
      ensures connected ==> InSync(fs, sent)
      ensures connected ==> var r := Round(old(OnLine()), want);
        delivered == old(delivered) + r.frames && OnLine() == r.line && Box() == AcceptAll(old(Box()), r.frames)
      ensures !connected ==> recvLen == 0 && delivered == old(delivered) && Box() == old(Box()).CloseFrom(0)
      ensures connected ==>
                old(recvLen) + Grab(old(OnLine()), want) == RECV_BUF_SIZE || (sock.refused && sock.asks > old(sock.asks))
      ensures !connected ==> sock.broken && sock.asks > old(sock.asks)
      ensures sock.asks >= old(sock.asks) && (old(recvLen) < RECV_BUF_SIZE ==> sock.asks > old(sock.asks))
    {
      ghost var l := OnLine();
      Fill();
      want := 0;
      if connected {
        want := Filled(l, Buffered(), sock.incoming);
        ParseRound(fs, sent);
      }
    }

    /** Any number of rounds, whatever the socket does in each. */
    method Receive(rounds: nat, ghost fs: seq<WireFrame>, ghost sent: Bytes) returns (ghost wants: seq<nat>)
      requires Valid() && connected && InSync(fs, sent)
      modifies this, recvBuf, sock
      ensures Valid()
      ensures delivered == old(delivered) + Run(old(OnLine()), wants).frames && delivered <= fs && AllFit(delivered)
      ensures connected ==> InSync(fs, sent) && OnLine() == Run(old(OnLine()), wants).line
      ensures var box := AcceptAll(old(Box()), Run(old(OnLine()), wants).frames);
        Box() == if connected then box else box.CloseFrom(0)
      ensures rounds > 0 && old(recvLen) < RECV_BUF_SIZE ==> sock.asks > old(sock.asks)
    {
      var i := 0;
      wants := [];
      ghost var l, log, box := OnLine(), delivered, Box();
      assert log + [] == log;
      while i < rounds && connected
        invariant Valid()
        invariant connected ==> InSync(fs, sent) && OnLine() == Run(l, wants).line
        invariant delivered == log + Run(l, wants).frames && delivered <= fs && AllFit(delivered)
        invariant var now := AcceptAll(box, Run(l, wants).frames); Box() == if connected then now else now.CloseFrom(0)
        invariant i == 0 ==> recvLen == old(recvLen) && connected
        invariant i > 0 && old(recvLen) < RECV_BUF_SIZE ==> sock.asks > old(sock.asks)
        invariant sock.asks >= old(sock.asks)
      {
        ghost var now, got := OnLine(), Run(l, wants).frames;
        ghost var want := HandleSocketData(fs, sent);
        if connected {
          RunAppend(l, wants, want);
          AcceptAllAppend(box, got, Round(now, want).frames);
          Assoc(log, got, Round(now, want).frames);
          wants := wants + [want];
        }
        i := i + 1;
      }
    }
  }

  /** How much a fill has taken. */
  lemma Filled(l: Line, buf: Bytes, tail: Bytes) returns (want: nat)
    requires |l.buf| <= |buf| <= RECV_BUF_SIZE && buf + tail == l.buf + l.tail
    ensures Grab(l, want) == want <= |l.tail| && buf == l.buf + l.tail[..want] && tail == l.tail[want..]
  {
    want := |buf| - |l.buf|;
    assert |buf| + |tail| == |l.buf| + |l.tail|;
    assert buf == (buf + tail)[..|buf|] == (l.buf + l.tail)[..|buf|] == l.buf + l.tail[..want];
    assert tail == (buf + tail)[|buf|..] == (l.buf + l.tail)[|buf|..] == l.tail[want..];
  }

  lemma AcceptOne(box: Inbox, f: WireFrame)
    requires box.Valid()
    ensures AcceptAll(box, [f]) == box.Accept(f)
  {
    box.AcceptKeepsValid(f);
    assert [f][1..] == [];
  }

  /** What one turn makes of the buffer, the log of frames and the box. */
  ghost predicate TurnResult(buf: Bytes, log: seq<WireFrame>, box: Inbox, now: Bytes, newLog: seq<WireFrame>, newBox: Inbox)
    requires box.Valid()
  {
    match HeadOf(buf)
    case NeedMore => false
    case Whole(f) => now == AfterFrame(buf, f) && newLog == log + [f] && newBox == box.Accept(f)
    case Wrapped(hdr, total) => now == AfterWrapped(buf, hdr, total) && newLog == log && newBox == box
    case BadChecksum => buf != [] && now == Resynced(Blotted(buf)) && newLog == log && newBox == box
    case NoMark => now == Resynced(buf) && newLog == log && newBox == box
  }

  function Got(buf: Bytes): seq<WireFrame> {
    if HeadOf(buf).Whole? then [HeadOf(buf).frame] else []
  }

  lemma LeadsNowhere(buf: Bytes)
    ensures Leads(buf, [], buf)
  {
    assert [] + Parse(buf).frames == Parse(buf).frames;
  }

  lemma TurnMeans(buf: Bytes, log: seq<WireFrame>, box: Inbox, now: Bytes, newLog: seq<WireFrame>, newBox: Inbox)
    requires box.Valid() && TurnResult(buf, log, box, now, newLog, newBox)
    ensures now == NextBuffer(buf) && (!Spinning(buf) ==> Leads(buf, Got(buf), now)) && (Spinning(buf) ==> Got(buf) == [])
    ensures newLog == log + Got(buf) && newBox == AcceptAll(box, Got(buf))
  {
    TurnShrinks(buf);
    if HeadOf(buf).Whole? {
      AcceptOne(box, HeadOf(buf).frame);
    } else {
      assert [] + Parse(now).frames == Parse(now).frames;
      assert log + [] == log;
    }
  }

  /** Either the turns so far lead from buf to now, or the loop is in front of a header it does not get past. */
  ghost predicate LeadsOrSpins(buf: Bytes, taken: seq<WireFrame>, now: Bytes) {
    Leads(buf, taken, now) || (Spinning(now) && Spins(buf) && Parse(buf).frames == taken)
  }

  lemma LeadsOn(buf: Bytes, taken: seq<WireFrame>, now: Bytes, got: seq<WireFrame>, next: Bytes)
    requires LeadsOrSpins(buf, taken, now) && next == NextBuffer(now)
    requires if Spinning(now) then got == [] else Leads(now, got, next)
    ensures LeadsOrSpins(buf, taken + got, next)
  {
    if Spinning(now) {
      SpinsOn(now);
      assert taken + [] == taken;
    } else {
      LeadsTransitive(buf, taken, now, got, next);
    }
  }

  /** After i turns. */
  ghost predicate Going(buf: Bytes, i: nat, stop: bool, taken: seq<WireFrame>, now: Bytes) {
    && LeadsOrSpins(buf, taken, now)
    && if stop then Ended(now) else Spinning(now) || |now| + i <= |buf|
  }

  lemma GoesOn(buf: Bytes, i: nat, taken: seq<WireFrame>, now: Bytes, stop: bool, got: seq<WireFrame>, next: Bytes)
    requires Going(buf, i, false, taken, now) && next == NextBuffer(now) && (stop <==> Ended(now))
    requires if Spinning(now) then got == [] else Leads(now, got, next)
    ensures Going(buf, i + 1, stop, taken + got, next)
  {
    LeadsOn(buf, taken, now, got, next);
    TurnShrinks(now);
    if Spinning(now) { SpinsOn(now); }
  }

  lemma GoneTo(buf: Bytes, i: nat, stop: bool, taken: seq<WireFrame>, now: Bytes)
    requires Going(buf, i, stop, taken, now)
    ensures stop ==> Parse(buf) == Parsed(taken, now) && !Spins(buf)
    ensures !stop && i > |buf| ==> Parse(buf).frames == taken && Spins(buf) && Spinning(now)
  {
    LeadsToResult(buf, taken, now);
  }

  lemma LeadsToResult(buf: Bytes, taken: seq<WireFrame>, now: Bytes)
    requires LeadsOrSpins(buf, taken, now)
    ensures Ended(now) ==> Parse(buf) == Parsed(taken, now) && !Spins(buf)
    ensures Spinning(now) ==> Parse(buf).frames == taken && Spins(buf)
  {
    if Ended(now) { LeadsToEnd(buf, taken, now); }
    assert taken + [] == taken;
  }
}
