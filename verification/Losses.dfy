/** What empty texts cost a client that receives into a buffer of fixed size. */
module Losses {
  import opened ByteStrings
  import opened Lwmp
  import opened FrameStream
  import opened Rounds

  lemma {:induction false} RunConcat(l: Line, a: seq<nat>, b: seq<nat>)
    ensures var first := Run(l, a);
      var later := Run(first.line, b);
      Run(l, a + b) == Receipt(first.frames + later.frames, later.line)
    decreases a
  {
    if a == [] {
      assert a + b == b && [] + Run(l, b).frames == Run(l, b).frames;
    } else {
      var r := Round(l, a[0]);
      assert (a + b)[1..] == a[1..] + b;
      RunConcat(r.line, a[1..], b);
      Assoc(r.frames, Run(r.line, a[1..]).frames, Run(Run(r.line, a[1..]).line, b).frames);
    }
  }

  lemma {:induction false} TotalAppend(a: seq<WireFrame>, b: seq<WireFrame>)
    ensures TotalSize(a + b) == TotalSize(a) + TotalSize(b)
    decreases a
  {
    if a == [] {
      assert a + b == b;
    } else {
      assert (a + b)[1..] == a[1..] + b;
      TotalAppend(a[1..], b);
    }
  }

  function Weight(l: Line): nat { |l.buf| + |l.tail| }

  /** Frames are made of bytes that have been sent, whatever happens. */
  lemma {:induction false} RunConserves(l: Line, wants: seq<nat>)
    ensures TotalSize(Run(l, wants).frames) + Weight(Run(l, wants).line) <= Weight(l)
    decreases wants
  {
    if wants != [] {
      var r := Round(l, wants[0]);
      ParseConserves(l.buf + l.tail[..Grab(l, wants[0])]);
      RunConserves(r.line, wants[1..]);
      TotalAppend(r.frames, Run(r.line, wants[1..]).frames);
    }
  }

  /** What is still to come, from any state in step with a stream that has been sent. */
  lemma ToCome(fs: seq<WireFrame>, log: seq<WireFrame>, buf: Bytes, tail: Bytes)
    requires Synced(fs, EncodeAll(fs), log, buf, tail) && |log| < |fs|
    ensures buf + tail == Encode(fs[|log|]) + EncodeAll(fs[|log| + 1..]) && |buf| < FrameSize(fs[|log|])
  {
    var rest := fs[|log|..];
    assert log == fs[..|log|];
    WireSplit(Encode, fs, |log|);
    SameSuffix(EncodeAll(log), buf + tail, EncodeAll(rest));
    EncodeAllNonempty(rest);
    assert rest[0] == fs[|log|] && rest[1..] == fs[|log| + 1..];
  }

  lemma GrabAll(l: Line, n: nat)
    requires n <= |l.tail| && |l.buf| + n <= RECV_BUF_SIZE
    ensures Grab(l, n) == n
  {
  }

  /** A piece of the stream that is parsed without a rest can be read by itself. */
  lemma NextPiece(parse: Bytes -> Parsed, e: Bytes, got: seq<WireFrame>, after: Bytes, buf: Bytes, tail: Bytes)
    requires buf + tail == e + after && |buf| <= |e| <= RECV_BUF_SIZE && parse(e) == Parsed(got, [])
    ensures RoundBy(parse, Line(buf, tail), |e| - |buf|) == Receipt(got, Line([], after))
  {
    RestOfFrame(e, after, buf, tail);
    GrabAll(Line(buf, tail), |e| - |buf|);
  }

  lemma ParseOne(f: WireFrame)
    ensures Parse(Encode(f)) == Parsed([f], [])
  {
    ParseFirst(f, []);
    assert Encode(f) + [] == Encode(f) && [f] + [] == [f];
    assert Parse([]) == Parsed([], []);
  }

  /** The rest of a frame can be read by itself. */
  lemma NextFrame(f: WireFrame, after: Bytes, buf: Bytes, tail: Bytes)
    requires buf + tail == Encode(f) + after && |buf| < FrameSize(f) && Fits(f)
    ensures Round(Line(buf, tail), FrameSize(f) - |buf|) == Receipt([f], Line([], after))
  {
    ParseOne(f);
    NextPiece(Parse, Encode(f), [f], after, buf, tail);
  }

  lemma RestOfFrame(e: Bytes, after: Bytes, buf: Bytes, tail: Bytes)
    requires buf + tail == e + after && |buf| <= |e|
    ensures |e| - |buf| <= |tail| && buf + tail[..|e| - |buf|] == e && tail[|e| - |buf|..] == after
  {
    var n := |e| - |buf|;
    assert |buf| + |tail| == |e| + |after|;
    assert buf + tail[..n] == (buf + tail)[..|e|] == (e + after)[..|e|] == e;
    assert tail[n..] == (buf + tail)[|e|..] == (e + after)[|e|..] == after;
  }

  /** Whatever has been read so far, the whole stream can still be delivered. */
  ghost predicate CanComplete(fs: seq<WireFrame>, wants: seq<nat>) { exists more :: DeliversAll(fs, wants + more) }

  lemma Finish(fs: seq<WireFrame>, log: seq<WireFrame>, l: Line) returns (more: seq<nat>)
    requires Synced(fs, EncodeAll(fs), log, l.buf, l.tail) && AllFit(fs)
    ensures log + Run(l, more).frames == fs
  {
    if |log| == |fs| {
      more := [];
      assert log + [] == log == fs;
    } else {
      ToCome(fs, log, l.buf, l.tail);
      more := FinishNext(fs[|log|], fs[|log| + 1..], l);
      Rejoin(fs, |log|);
      assert log == fs[..|log|];
    }
  }

  lemma FinishNext(f: WireFrame, rest: seq<WireFrame>, l: Line) returns (more: seq<nat>)
    requires l.buf + l.tail == Encode(f) + EncodeAll(rest) && |l.buf| < FrameSize(f) && Fits(f) && AllFit(rest)
    ensures Run(l, more).frames == [f] + rest
  {
    var want, next := FrameSize(f) - |l.buf|, Line([], EncodeAll(rest));
    NextFrame(f, EncodeAll(rest), l.buf, l.tail);
    FinishRest(l, want, [f], next, rest);
    more := [want] + Sizes(rest);
  }

  lemma Rejoin<T>(fs: seq<T>, k: nat)
    requires k < |fs|
    ensures fs[..k] + ([fs[k]] + fs[k + 1..]) == fs && fs[..k] + [fs[k]] == fs[..k + 1]
  {
  }

  lemma FinishRest(l: Line, want: nat, first: seq<WireFrame>, next: Line, rest: seq<WireFrame>)
    requires Round(l, want) == Receipt(first, next) && next == Line([], EncodeAll(rest)) && AllFit(rest)
    ensures Run(l, [want] + Sizes(rest)).frames == first + rest
  {
    OthersFollow(rest, next);
    RunHead(l, want, Sizes(rest), first, next, rest);
  }

  lemma OthersFollow(rest: seq<WireFrame>, l: Line)
    requires AllFit(rest) && l == Line([], EncodeAll(rest))
    ensures Run(l, Sizes(rest)).frames == rest
  {
    FrameByFrame(rest);
  }

  lemma RunHead(l: Line, want: nat, wants: seq<nat>, first: seq<WireFrame>, next: Line, later: seq<WireFrame>)
    requires Round(l, want) == Receipt(first, next) && Run(next, wants).frames == later
    ensures Run(l, [want] + wants).frames == first + later
  {
    assert ([want] + wants)[1..] == wants;
  }

  lemma StillCompletes(fs: seq<WireFrame>, wants: seq<nat>)
    requires Harmless(fs) && AllFit(fs)
    ensures CanComplete(fs, wants)
  {
    var l := Line([], EncodeAll(fs));
    var r := Run(l, wants);
    FreshSynced(fs, EncodeAll(fs));
    RunSynced(fs, EncodeAll(fs), [], l, wants);
    assert [] + r.frames == r.frames;
    var more := Finish(fs, r.frames, r.line);
    RunConcat(l, wants, more);
    assert DeliversAll(fs, wants + more);
  }

  /** One frame at a time up to an empty text, and that together with the mark behind it. */
  function UnluckyWants(fs: seq<WireFrame>, i: nat): seq<nat>
    requires i < |fs|
  {
    Sizes(fs[..i]) + [FrameSize(fs[i]) + 4]
  }

  lemma UnluckyRun(fs: seq<WireFrame>, i: nat)
    requires AllFit(fs) && i < |fs| - 1 && EmptyText(fs[i])
    ensures var after := EncodeAll(fs[i + 1..]);
      |after| >= 4 && Run(Line([], EncodeAll(fs)), UnluckyWants(fs, i)) == Receipt(fs[..i + 1], Line([], after[4..]))
  {
    var head, f, rest := fs[..i], fs[i], fs[i + 1..];
    WireSplit(Encode, fs, i);
    FirstFrames(head, EncodeAll(fs[i..]));
    HeadOfRest(fs, i);
    HeadOfRest(fs, i + 1);
    TakesMark(f, rest[0], EncodeAll(rest), EncodeAll(fs[i + 2..]));
    RunAppend(Line([], EncodeAll(fs)), Sizes(head), FrameSize(f) + 4);
    Rejoin(fs, i);
  }

  lemma HeadOfRest(fs: seq<WireFrame>, i: nat)
    requires i < |fs|
    ensures EncodeAll(fs[i..]) == Encode(fs[i]) + EncodeAll(fs[i + 1..])
  {
    EncodeAllNonempty(fs[i..]);
    assert fs[i..][0] == fs[i] && fs[i..][1..] == fs[i + 1..];
  }

  /** When an empty text is read together with the mark of the next frame, the stream cannot be delivered any
      more, however it goes on. */
  lemma Loses(fs: seq<WireFrame>, i: nat, more: seq<nat>)
    requires AllFit(fs) && i < |fs| - 1 && EmptyText(fs[i])
    ensures !DeliversAll(fs, UnluckyWants(fs, i) + more)
  {
    UnluckyRun(fs, i);
    var after := EncodeAll(fs[i + 1..]);
    RunConcat(Line([], EncodeAll(fs)), UnluckyWants(fs, i), more);
    RunConserves(Line([], after[4..]), more);
    LostFour(fs, i, fs[..i + 1], Run(Line([], after[4..]), more).frames, after);
  }

  lemma TakesMark(f: WireFrame, g: WireFrame, after: Bytes, rest: Bytes)
    requires EmptyText(f) && Fits(f) && after == Encode(g) + rest
    ensures Round(Line([], Encode(f) + after), FrameSize(f) + 4) == Receipt([f], Line([], after[4..]))
  {
    var all, mark := Encode(f) + after, Encode(g)[..4];
    assert after == mark + after[4..];
    Assoc(Encode(f), mark, after[4..]);
    EmptyTextTakesMark(f, g);
    assert [] + all == all;
    NextPiece(Parse, Encode(f) + mark, [f], after[4..], [], all);
  }

  lemma LostFour(fs: seq<WireFrame>, i: nat, head: seq<WireFrame>, later: seq<WireFrame>, after: Bytes)
    requires i < |fs| - 1 && head == fs[..i + 1] && after == EncodeAll(fs[i + 1..]) && TotalSize(later) + 4 <= |after|
    ensures head + later != fs
  {
    EncodeAllSize(fs[i + 1..]);
    Apart(head, later, fs);
  }

  lemma Apart(head: seq<WireFrame>, later: seq<WireFrame>, fs: seq<WireFrame>)
    requires |head| <= |fs|
    ensures head + later == fs ==> later == fs[|head|..]
  {
    assert (head + later)[|head|..] == later;
  }

  /** The exact condition: for frames that fit, the whole stream can always still be delivered, however it has
      been cut so far, if and only if no empty text is followed by another frame. */
  lemma NothingLostExactly(fs: seq<WireFrame>)
    requires AllFit(fs)
    ensures (forall wants :: CanComplete(fs, wants)) <==> Harmless(fs)
  {
    if Harmless(fs) {
      forall wants ensures CanComplete(fs, wants) { StillCompletes(fs, wants); }
    } else {
      var i :| 0 <= i < |fs| - 1 && EmptyText(fs[i]);
      var wants := UnluckyWants(fs, i);
      forall more: seq<nat> ensures !DeliversAll(fs, wants + more) { Loses(fs, i, more); }
      assert !CanComplete(fs, wants);
    }
  }
}
