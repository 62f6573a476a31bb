/** A client that receives a stream into a buffer of fixed size (handle_socket_data in client/clrecv.c): what
    any fragmentation delivers, as a function, and how far it gets. */
module Rounds {
  import opened ByteStrings
  import opened Lwmp
  import opened FrameStream

  const RECV_BUF_SIZE := 16384

  /** What is in the buffer, and what the socket still holds. */
  datatype Line = Line(buf: Bytes, tail: Bytes)

  /** What one round, or several, have delivered. */
  datatype Receipt = Receipt(frames: seq<WireFrame>, line: Line)

  /** How much a round reads when the socket is ready to give `want` bytes: the buffer may be full first. */
  function Grab(l: Line, want: nat): (n: nat)
    ensures n <= |l.tail| && (|l.buf| <= RECV_BUF_SIZE ==> |l.buf| + n <= RECV_BUF_SIZE)
  {
    var room := if |l.buf| <= RECV_BUF_SIZE then RECV_BUF_SIZE - |l.buf| else 0;
    var n := if want < room then want else room;
    if n < |l.tail| then n else |l.tail|
  }

  /** One round with any parser. */
  function RoundBy(parse: Bytes -> Parsed, l: Line, want: nat): Receipt {
    var n := Grab(l, want);
    var p := parse(l.buf + l.tail[..n]);
    Receipt(p.frames, Line(p.rest, l.tail[n..]))
  }

  function Round(l: Line, want: nat): Receipt { RoundBy(Parse, l, want) }

  /** Any number of rounds, with any fragmentation. */
  function Run(l: Line, wants: seq<nat>): Receipt
    decreases wants
  {
    if wants == [] then Receipt([], l)
    else
      var first := Round(l, wants[0]);
      var later := Run(first.line, wants[1..]);
      Receipt(first.frames + later.frames, later.line)
  }

  predicate Fits(f: WireFrame) { FrameSize(f) <= RECV_BUF_SIZE }

  predicate AllFit(fs: seq<WireFrame>) { forall i | 0 <= i < |fs| :: Fits(fs[i]) }

  // ---------- In step with the stream ----------

  /** Of the frames fs the peer has sent these bytes; the frames of the log have been delivered, and what has
      been sent behind them is in the buffer and on the way. */
  ghost predicate Arriving(fs: seq<WireFrame>, sent: Bytes, log: seq<WireFrame>, coming: Bytes) {
    Harmless(fs) && sent <= EncodeAll(fs) && log <= fs && sent == EncodeAll(log) + coming && AllFit(log)
  }

  /** The buffer holds less than one frame. */
  ghost predicate Synced(fs: seq<WireFrame>, sent: Bytes, log: seq<WireFrame>, buf: Bytes, tail: Bytes) {
    && Arriving(fs, sent, log, buf + tail)
    && if |log| == |fs| then buf == [] else |buf| < FrameSize(fs[|log|])
  }

  lemma {:induction false} NoFrameLarger(fs: seq<WireFrame>, i: nat)
    requires i < |fs|
    ensures FrameSize(fs[i]) <= TotalSize(fs)
    decreases i
  {
    if i > 0 { NoFrameLarger(fs[1..], i - 1); }
  }

  lemma HarmlessDrop(fs: seq<WireFrame>, k: nat)
    requires Harmless(fs) && k <= |fs|
    ensures Harmless(fs[k..])
  {
    forall i | 0 <= i < |fs[k..]| - 1
      ensures !EmptyText(fs[k..][i])
    {
      assert !EmptyText(fs[k + i]);
    }
  }

  /** The buffered part of the stream. */
  lemma BufferIsNext(fs: seq<WireFrame>, sent: Bytes, log: seq<WireFrame>, buf: Bytes, tail: Bytes)
    requires Arriving(fs, sent, log, buf + tail)
    ensures |buf| <= |EncodeAll(fs[|log|..])| && EncodeAll(fs[|log|..])[..|buf|] == buf
  {
    ComingIsNext(fs, log, buf + tail);
    PrefixOfPrefix(buf, tail, EncodeAll(fs[|log|..]));
  }

  lemma ComingIsNext(fs: seq<WireFrame>, log: seq<WireFrame>, coming: Bytes)
    requires log <= fs && EncodeAll(log) + coming <= EncodeAll(fs)
    ensures coming <= EncodeAll(fs[|log|..])
  {
    assert fs[..|log|] == log;
    WireSplit(Encode, fs, |log|);
    SamePrefix(EncodeAll(log), coming, EncodeAll(fs[|log|..]));
  }

  /** One parse, of whatever has got into the buffer, delivers the next frames of the stream and no others. */
  lemma ParseSynced(fs: seq<WireFrame>, sent: Bytes, log: seq<WireFrame>, buf: Bytes, tail: Bytes)
    requires Arriving(fs, sent, log, buf + tail) && |buf| <= RECV_BUF_SIZE
    ensures Synced(fs, sent, log + Parse(buf).frames, Parse(buf).rest, tail)
    ensures !Spins(buf)
  {
    var k, p := |log|, Parse(buf);
    var todo := fs[k..];
    BufferIsNext(fs, sent, log, buf, tail);
    HarmlessDrop(fs, k);
    var m := ParsePrefix(todo, |buf|);
    TakeMore(fs, log, p.frames, m);
    WireAppend(Encode, log, p.frames);
    Assoc(EncodeAll(log), EncodeAll(p.frames), p.rest + tail);
    Assoc(EncodeAll(p.frames), p.rest, tail);
    DeliveredFit(buf, log);
    RestIsPart(todo, |buf|, m, p);
  }

  lemma TakeMore(fs: seq<WireFrame>, log: seq<WireFrame>, got: seq<WireFrame>, m: nat)
    requires log <= fs && m <= |fs| - |log| && got == fs[|log|..][..m]
    ensures log + got <= fs && |log + got| == |log| + m
    ensures |log| + m < |fs| ==> fs[|log|..][m] == fs[|log| + m]
  {
    assert log + got == fs[..|log| + m];
  }

  lemma DeliveredFit(buf: Bytes, log: seq<WireFrame>)
    requires |buf| <= RECV_BUF_SIZE && AllFit(log)
    ensures AllFit(log + Parse(buf).frames)
  {
    ParseConserves(buf);
    forall i | 0 <= i < |Parse(buf).frames| ensures Fits(Parse(buf).frames[i]) {
      NoFrameLarger(Parse(buf).frames, i);
    }
  }

  /** What is left behind whole frames is less than a frame, and no header that wraps. */
  lemma RestIsPart(todo: seq<WireFrame>, n: nat, m: nat, p: Parsed)
    requires Completes(todo, n, m, p)
    ensures m == |todo| ==> p.rest == []
    ensures m < |todo| ==> |p.rest| < FrameSize(todo[m]) && p.rest == Encode(todo[m])[..|p.rest|]
    ensures Ended(p.rest)
  {
    WireSplit(Encode, todo, m);
    TakeDrop(EncodeAll(todo), n);
    PrefixOfPrefix(EncodeAll(todo[..m]) + p.rest, EncodeAll(todo)[n..], EncodeAll(todo));
    SamePrefix(EncodeAll(todo[..m]), p.rest, EncodeAll(todo[m..]));
    if m < |todo| {
      PartOfFirst(todo[m..], p.rest);
      HeadOfPrefix(todo[m], |p.rest|);
    } else {
      assert todo[m..] == [];
    }
  }

  lemma PartOfFirst(fs: seq<WireFrame>, part: Bytes)
    requires fs != [] && part <= EncodeAll(fs) && |part| < FrameSize(fs[0])
    ensures part == Encode(fs[0])[..|part|]
  {
    EncodeAllNonempty(fs);
  }

  // ---------- Any fragmentation ----------

  lemma RoundSynced(fs: seq<WireFrame>, sent: Bytes, log: seq<WireFrame>, l: Line, want: nat)
    requires Synced(fs, sent, log, l.buf, l.tail) && |l.buf| <= RECV_BUF_SIZE
    ensures var r := Round(l, want);
      Synced(fs, sent, log + r.frames, r.line.buf, r.line.tail) && |r.line.buf| <= RECV_BUF_SIZE
  {
    var n := Grab(l, want);
    TakeDrop(l.tail, n);
    Assoc(l.buf, l.tail[..n], l.tail[n..]);
    ParseSynced(fs, sent, log, l.buf + l.tail[..n], l.tail[n..]);
  }

  /** However the stream is cut, the frames delivered are its next ones, and all of them fit the buffer. */
  lemma {:induction false} RunSynced(fs: seq<WireFrame>, sent: Bytes, log: seq<WireFrame>, l: Line, wants: seq<nat>)
    requires Synced(fs, sent, log, l.buf, l.tail) && |l.buf| <= RECV_BUF_SIZE
    ensures var r := Run(l, wants);
      Synced(fs, sent, log + r.frames, r.line.buf, r.line.tail) && |r.line.buf| <= RECV_BUF_SIZE
    decreases wants
  {
    if wants == [] {
      assert log + [] == log;
    } else {
      var first := Round(l, wants[0]);
      RoundSynced(fs, sent, log, l, wants[0]);
      RunSynced(fs, sent, log + first.frames, first.line, wants[1..]);
      Assoc(log, first.frames, Run(first.line, wants[1..]).frames);
    }
  }

  lemma FreshSynced(fs: seq<WireFrame>, sent: Bytes)
    requires Harmless(fs) && sent <= EncodeAll(fs)
    ensures Synced(fs, sent, [], [], sent)
  {
    assert [] + sent == sent && EncodeAll([]) == [];
    if fs != [] { assert FrameSize(fs[0]) > 0; }
  }

  /** Once everything has been sent and read, everything has been delivered. */
  lemma AllArrived(fs: seq<WireFrame>, log: seq<WireFrame>, buf: Bytes)
    requires Synced(fs, EncodeAll(fs), log, buf, [])
    ensures log == fs && buf == []
  {
    assert buf + [] == buf && fs[..|log|] == log;
    if |log| < |fs| {
      WireSplit(Encode, fs, |log|);
      EncodeAllNonempty(fs[|log|..]);
    }
  }

  predicate DeliversAll(fs: seq<WireFrame>, wants: seq<nat>) { Run(Line([], EncodeAll(fs)), wants).frames == fs }

  function Sizes(fs: seq<WireFrame>): seq<nat> {
    if fs == [] then [] else [FrameSize(fs[0])] + Sizes(fs[1..])
  }

  /** Frames that fit can arrive one by one, whatever is behind them. */
  lemma {:induction false} FirstFrames(fs: seq<WireFrame>, behind: Bytes)
    requires AllFit(fs)
    ensures Run(Line([], EncodeAll(fs) + behind), Sizes(fs)) == Receipt(fs, Line([], behind))
    decreases fs
  {
    if fs == [] {
      assert [] + behind == behind;
    } else {
      EncodeAllNonempty(fs);
      Assoc(Encode(fs[0]), EncodeAll(fs[1..]), behind);
      OneFrame(fs[0], EncodeAll(fs[1..]) + behind);
      FirstFrames(fs[1..], behind);
      HeadTail(fs);
    }
  }

  lemma FrameByFrame(fs: seq<WireFrame>)
    requires AllFit(fs)
    ensures Run(Line([], EncodeAll(fs)), Sizes(fs)) == Receipt(fs, Line([], []))
  {
    FirstFrames(fs, []);
    assert EncodeAll(fs) + [] == EncodeAll(fs);
  }

  lemma OneFrame(f: WireFrame, tail: Bytes)
    requires Fits(f)
    ensures Round(Line([], Encode(f) + tail), FrameSize(f)) == Receipt([f], Line([], tail))
  {
    var all := Encode(f) + tail;
    assert all[..FrameSize(f)] == Encode(f) && all[FrameSize(f)..] == tail;
    assert [] + Encode(f) == Encode(f) && Encode(f) + [] == Encode(f);
    ParseFirst(f, []);
    assert Parse([]) == Parsed([], []) && [f] + [] == [f];
  }

  /** The exact condition: some fragmentation delivers the whole stream if and only if every frame fits the
      receive buffer. */
  lemma DeliveredExactly(fs: seq<WireFrame>)
    requires Harmless(fs)
    ensures (exists wants :: DeliversAll(fs, wants)) <==> AllFit(fs)
  {
    if AllFit(fs) {
      FrameByFrame(fs);
      assert DeliversAll(fs, Sizes(fs));
    }
    if wants :| DeliversAll(fs, wants) {
      FreshSynced(fs, EncodeAll(fs));
      RunSynced(fs, EncodeAll(fs), [], Line([], EncodeAll(fs)), wants);
      assert [] + fs == fs;
    }
  }

  /** When the next frame fits there is room to read on. */
  lemma RoomForNext(fs: seq<WireFrame>, sent: Bytes, log: seq<WireFrame>, buf: Bytes, tail: Bytes)
    requires Synced(fs, sent, log, buf, tail) && (|log| == |fs| || Fits(fs[|log|]))
    ensures |buf| < RECV_BUF_SIZE
  {
  }

  /** When it does not, nothing is delivered any more, however much is read. */
  lemma TooLargeWedges(fs: seq<WireFrame>, sent: Bytes, log: seq<WireFrame>, l: Line, wants: seq<nat>)
    requires Synced(fs, sent, log, l.buf, l.tail) && |l.buf| <= RECV_BUF_SIZE
    requires |log| < |fs| && !Fits(fs[|log|])
    ensures Run(l, wants).frames == []
  {
    RunSynced(fs, sent, log, l, wants);
    NextFits(fs, log, Run(l, wants).frames);
  }

  lemma NextFits(fs: seq<WireFrame>, log: seq<WireFrame>, got: seq<WireFrame>)
    requires log + got <= fs && AllFit(log + got)
    ensures got != [] ==> |log| < |fs| && Fits(fs[|log|])
  {
    if got != [] { assert (log + got)[|log|] == fs[|log|]; }
  }

  /** In step, what is buffered makes the parser wait for more. */
  lemma SyncedEnded(fs: seq<WireFrame>, sent: Bytes, log: seq<WireFrame>, buf: Bytes, tail: Bytes)
    requires Synced(fs, sent, log, buf, tail)
    ensures Ended(buf)
  {
    BufferIsNext(fs, sent, log, buf, tail);
    if |log| < |fs| {
      PartOfFirst(fs[|log|..], buf);
      HeadOfPrefix(fs[|log|], |buf|);
    }
  }

  /** And once the buffer is full, nothing is read any more either. */
  lemma {:induction false} FullStays(l: Line, wants: seq<nat>)
    requires |l.buf| == RECV_BUF_SIZE && Ended(l.buf)
    ensures Run(l, wants) == Receipt([], l)
    decreases wants
  {
    if wants != [] {
      assert l.buf + l.tail[..0] == l.buf && l.tail[0..] == l.tail;
      FullStays(l, wants[1..]);
    }
  }

  lemma {:induction false} RunAppend(l: Line, wants: seq<nat>, want: nat)
    ensures var first := Run(l, wants);
      var next := Round(first.line, want);
      Run(l, wants + [want]) == Receipt(first.frames + next.frames, next.line)
    decreases wants
  {
    if wants == [] {
      var r := Round(l, want);
      assert [want][1..] == [] && r.frames + [] == r.frames == [] + r.frames;
    } else {
      var r := Round(l, wants[0]);
      assert (wants + [want])[1..] == wants[1..] + [want];
      RunAppend(r.line, wants[1..], want);
      Assoc(r.frames, Run(r.line, wants[1..]).frames, Round(Run(r.line, wants[1..]).line, want).frames);
    }
  }

  /** The peer sends on. */
  lemma SyncedGrows(fs: seq<WireFrame>, sent: Bytes, log: seq<WireFrame>, buf: Bytes, tail: Bytes,
                    more: seq<WireFrame>, later: Bytes)
    requires Synced(fs, sent, log, buf, tail) && fs <= more && Harmless(more) && sent <= later <= EncodeAll(more)
    ensures Synced(more, later, log, buf, tail + later[|sent|..])
  {
    var data := later[|sent|..];
    assert later == sent + data;
    Assoc(EncodeAll(log), buf + tail, data);
    Assoc(buf, tail, data);
    Transitive(log, fs, more);
    if |log| < |fs| {
      assert fs[|log|] == more[|log|];
    } else if |log| < |more| {
      assert FrameSize(more[|log|]) > 0;
    }
  }
}
