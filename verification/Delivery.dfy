/** What a recipient makes of the bytes that its outbound side has sent so far. */
module Delivery {
  import opened ByteStrings
  import opened Lwmp
  import opened FrameStream
  import opened Rounds
  import opened Outbound

  /** The message is one frame, no empty text. */
  predicate IsFrame(m: Msg) {
    HeadOf(m.bytes).Whole? && m.bytes == Encode(HeadOf(m.bytes).frame) && !EmptyText(HeadOf(m.bytes).frame)
  }

  predicate AreFrames(ms: seq<Msg>) { forall i | 0 <= i < |ms| :: IsFrame(ms[i]) }

  function FrameOf(m: Msg): WireFrame {
    if HeadOf(m.bytes).Whole? then HeadOf(m.bytes).frame else Chunk(Zeros(UNAME_SIZE), [])
  }

  function FramesOf(ms: seq<Msg>): (fs: seq<WireFrame>)
    ensures |fs| == |ms|
  {
    Map(FrameOf, ms)
  }

  lemma EncodedIsFrame(f: WireFrame, subject: Bytes)
    requires !EmptyText(f)
    ensures IsFrame(Msg(Encode(f), subject)) && FrameOf(Msg(Encode(f), subject)) == f
  {
    HeadOfEncoded(f, []);
    assert Encode(f) + [] == Encode(f);
  }

  lemma FramesPrefix(a: seq<Msg>, b: seq<Msg>)
    requires a <= b
    ensures FramesOf(a) <= FramesOf(b) && (AreFrames(b) ==> AreFrames(a))
  {
    MapPrefix(FrameOf, a, b);
    if AreFrames(b) {
      forall i | 0 <= i < |a| ensures IsFrame(a[i]) { assert a[i] == b[i]; }
    }
  }

  lemma FramesHarmless(ms: seq<Msg>)
    requires AreFrames(ms)
    ensures Harmless(FramesOf(ms))
  {
    forall i | 0 <= i < |ms| - 1 ensures !EmptyText(FramesOf(ms)[i]) { assert IsFrame(ms[i]); }
  }

  lemma {:induction false} ConcatIsWire(log: Log)
    requires AreFrames(log.All())
    ensures log.Concat() == EncodeAll(FramesOf(log.All()))
    decreases log
  {
    match log
    case Empty =>
    case Then(earlier, last) =>
      var ms := log.All();
      assert ms[..|ms| - 1] == earlier.All() && ms[|ms| - 1] == last;
      FramesPrefix(earlier.All(), ms);
      ConcatIsWire(earlier);
      OneMoreFrame(earlier.All(), last);
  }

  lemma OneMoreFrame(ms: seq<Msg>, m: Msg)
    requires AreFrames(ms + [m])
    ensures AreFrames(ms) && IsFrame(m) && EncodeAll(FramesOf(ms + [m])) == EncodeAll(FramesOf(ms)) + m.bytes
  {
    FramesPrefix(ms, ms + [m]);
    assert (ms + [m])[|ms|] == m;
    MapAppend(FrameOf, ms, [m]);
    assert Map(FrameOf, [m]) == [FrameOf(m)];
    WireAppend(Encode, FramesOf(ms), [FrameOf(m)]);
    WireOne(Encode, FrameOf(m));
  }

  /** The bytes sent are those of the messages begun, up to the sent part of the last. */
  lemma WireIsBegun(c: StdClient)
    requires c.Framed() && AreFrames(c.Begun())
    ensures c.wire <= EncodeAll(FramesOf(c.Begun()))
    ensures c.inFlight.None? ==> c.wire == EncodeAll(FramesOf(c.Begun()))
  {
    var ms := c.whole.All();
    FramesPrefix(ms, c.Begun());
    ConcatIsWire(c.whole);
    if c.inFlight.Some? {
      OneMoreFrame(ms, c.inFlight.value);
    } else {
      assert c.whole.Concat() + [] == c.whole.Concat();
    }
  }

  lemma Shorter(gs: seq<WireFrame>, log: seq<WireFrame>)
    requires log <= gs && |log| < |gs|
    ensures |EncodeAll(gs)| >= |EncodeAll(log)| + FrameSize(gs[|log|])
  {
    assert log == gs[..|log|];
    WireSplit(Encode, gs, |log|);
    EncodeAllNonempty(gs[|log|..]);
  }

  /** Bytes that reach into the frame behind fs contain no more and no fewer whole frames than fs. */
  lemma CutAfter(fs: seq<WireFrame>, gs: seq<WireFrame>, log: seq<WireFrame>, part: Bytes, buf: Bytes)
    requires |EncodeAll(fs)| + |part| == |EncodeAll(log)| + |buf| && fs <= gs && log <= gs
    requires if |fs| == |gs| then part == [] else |part| < FrameSize(gs[|fs|])
    requires |log| < |gs| ==> |buf| < FrameSize(gs[|log|])
    ensures log == fs
  {
    if |log| < |fs| { Shorter(fs, log); }
    if |fs| < |log| { Shorter(log, fs); }
  }

  /** However far the sending has got and however the receiver's stream is cut: what its buffered parser
      delivers is a part of the messages that have gone out whole, in order, each of which fits the buffer; and
      once it has read everything it is all of them, with the sent part of the one in flight in the buffer. */
  lemma SentIsDelivered(c: StdClient, wants: seq<nat>)
    requires c.Framed() && AreFrames(c.Begun()) && (c.inFlight.Some? ==> c.offset < |c.inFlight.value.bytes|)
    ensures AreFrames(c.whole.All())
    ensures var r, fs := Run(Line([], c.wire), wants), FramesOf(c.whole.All());
      && r.frames <= fs && AllFit(r.frames)
      && (r.line.tail == [] ==> r.frames == fs && r.line.buf == c.Partial())
  {
    FramesPrefix(c.whole.All(), c.Begun());
    FramesHarmless(c.Begun());
    WireIsBegun(c);
    var r, fs, gs := Run(Line([], c.wire), wants), FramesOf(c.whole.All()), FramesOf(c.Begun());
    FreshSynced(gs, c.wire);
    RunSynced(gs, c.wire, [], Line([], c.wire), wants);
    assert [] + r.frames == r.frames;
    ConcatIsWire(c.whole);
    PartDelivered(fs, gs, c.Partial(), r);
  }

  lemma PartDelivered(fs: seq<WireFrame>, gs: seq<WireFrame>, part: Bytes, r: Receipt)
    requires Synced(gs, EncodeAll(fs) + part, r.frames, r.line.buf, r.line.tail) && fs <= gs
    requires if |fs| == |gs| then part == [] else |part| < FrameSize(gs[|fs|])
    ensures r.frames <= fs && (r.line.tail == [] ==> r.frames == fs && r.line.buf == part)
  {
    if |fs| < |r.frames| { Shorter(r.frames, fs); }
    if r.line.tail == [] {
      assert r.line.buf + [] == r.line.buf;
      CutAfter(fs, gs, r.frames, part, r.line.buf);
      SameSuffix(EncodeAll(fs), part, r.line.buf);
    }
  }
}
