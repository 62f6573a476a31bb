/** Cutting a received byte stream back into frames (clrecv_parse in client/clrecv.c), as a function. */
module FrameStream {
  import opened ByteStrings
  import opened Lwmp
  import opened Resync
  import opened Iteration

  /** The frames found, and the bytes kept for the next round. */
  datatype Parsed = Parsed(frames: seq<WireFrame>, rest: Bytes)

  /** A text message without any payload. */
  predicate EmptyText(f: Frame) {
    f.Pdu? && f.hdr.kind == MT_MSG && f.payload == []
  }

  /** What is left of the buffer once a frame is consumed. Terminating an empty text writes one byte
      past the end of its frame: over the first byte of the next one, if that has arrived. */
  function AfterFrame(buf: Bytes, f: Frame): (r: Bytes)
    requires FrameSize(f) <= |buf|
    ensures |r| == |buf| - FrameSize(f)
  {
    var r := buf[FrameSize(f)..];
    if EmptyText(f) && r != [] then [0] + r[1..] else r
  }

  /** What is left once a header is handled whose total_needed has wrapped: fewer bytes are removed than
      the header has. Terminating the text that it announces writes a byte behind the header. */
  function AfterWrapped(buf: Bytes, hdr: Header, total: nat): (r: Bytes)
    requires total < HDR_SIZE <= |buf|
    ensures |r| == |buf| - total
  {
    var b := if hdr.kind == MT_MSG && |buf| > HDR_SIZE then buf[HDR_SIZE := 0] else buf;
    b[total..]
  }

  /** Byte by byte: all that is behind the frame stays, but for the byte that ends an empty text. */
  lemma FrameLeaves(buf: Bytes, f: WireFrame, k: nat)
    requires FrameSize(f) + k < |buf|
    ensures AfterFrame(buf, f)[k]
            == if k == 0 && f.Pdu? && f.hdr.kind == MT_MSG && f.payload == [] then 0 else buf[FrameSize(f) + k]
  {
  }

  /** And so does all that is behind the bytes removed when the sum wraps, but for the one behind the header. */
  lemma WrappedLeaves(buf: Bytes, hdr: Header, total: nat, k: nat)
    requires total < HDR_SIZE <= |buf| && total + k < |buf|
    ensures AfterWrapped(buf, hdr, total)[k] == if hdr.kind == MT_MSG && total + k == HDR_SIZE then 0 else buf[total + k]
  {
  }

  /** The loop is in front of a header of which nothing is removed. */
  predicate Spinning(buf: Bytes) { HeadOf(buf).Wrapped? && HeadOf(buf).total == 0 }

  function Blotted(buf: Bytes): (r: Bytes)
    requires buf != []
    ensures |r| == |buf|
  {
    [0] + buf[1..]
  }

  lemma BlottedIsBad(buf: Bytes)
    requires |buf| >= 4
    ensures Blotted(buf)[..4] != PDU_MARK && Blotted(buf)[..4] != CHUNK_MARK
    ensures !GoodStart(Blotted(buf))
  {
    assert Blotted(buf)[..4][0] == 0 && PDU_MARK[0] != 0 && CHUNK_MARK[0] != 0;
  }

  /** Every turn of the parser's loop that does not stop it shrinks the buffer. */
  lemma ResyncShrinks(buf: Bytes)
    requires |buf| >= 1 && !GoodStart(buf)
    ensures |Resynced(buf)| < |buf|
  {
    var r := Resynced(buf);
    assert buf[0..] == buf;
    assert |r| == |buf| ==> r == buf;
  }

  /** The header of a buffer decides whether it is one that wraps. */
  lemma SameHeaderWraps(a: Bytes, b: Bytes)
    requires HeadOf(a).Wrapped? && |b| >= HDR_SIZE && a[..HDR_SIZE] == b[..HDR_SIZE]
    ensures HeadOf(b) == HeadOf(a)
  {
    var h := a[..HDR_SIZE];
    assert a[..4] == h[..4] == b[..4] && a[4] == h[4] == b[4];
    assert a[5..37] == h[5..37] == b[5..37] && a[37..69] == h[37..69] == b[37..69] && a[69..77] == h[69..77] == b[69..77];
    assert a[..CRC_OFFSET] == h[..CRC_OFFSET] == b[..CRC_OFFSET];
    assert a[CRC_OFFSET..HDR_SIZE] == h[CRC_OFFSET..] == b[CRC_OFFSET..HDR_SIZE];
  }

  lemma SpinsOn(buf: Bytes)
    requires Spinning(buf)
    ensures Spinning(AfterWrapped(buf, HeadOf(buf).hdr, 0)) && |AfterWrapped(buf, HeadOf(buf).hdr, 0)| == |buf|
  {
    var r := AfterWrapped(buf, HeadOf(buf).hdr, 0);
    assert r[..HDR_SIZE] == buf[..HDR_SIZE];
    SameHeaderWraps(buf, r);
  }

  /** The frames that the loop delivers from a buffer, and what it leaves. In front of a header of which
      nothing is removed it does not get any further. */
  function Parse(buf: Bytes): (p: Parsed)
    ensures |p.rest| <= |buf|
    decreases |buf|
  {
    match HeadOf(buf)
    case NeedMore => Parsed([], buf)
    case Whole(f) =>
      var p := Parse(AfterFrame(buf, f));
      Parsed([f] + p.frames, p.rest)
    case Wrapped(hdr, total) =>
      if total == 0 then Parsed([], buf) else Parse(AfterWrapped(buf, hdr, total))
    case BadChecksum =>
      BlottedIsBad(buf);
      ResyncShrinks(Blotted(buf));
      Parse(Resynced(Blotted(buf)))
    case NoMark =>
      ResyncShrinks(buf);
      Parse(Resynced(buf))
  }

  // ---------- When the loop ends ----------

  /** One turn of the loop. */
  function NextBuffer(buf: Bytes): (r: Bytes)
  {
    match HeadOf(buf)
    case NeedMore => buf
    case Whole(f) => AfterFrame(buf, f)
    case Wrapped(hdr, total) => AfterWrapped(buf, hdr, total)
    case BadChecksum => if buf == [] then [] else Resynced(Blotted(buf))
    case NoMark => Resynced(buf)
  }

  predicate Ended(buf: Bytes) { HeadOf(buf).NeedMore? }

  /** The buffer after so many turns. */
  function After(buf: Bytes, turns: nat): Bytes { Iterate(NextBuffer, buf, turns) }

  /** The loop never leaves the header it gets to. */
  predicate Spins(buf: Bytes) { Spinning(Parse(buf).rest) }

  lemma TurnShrinks(buf: Bytes)
    ensures HeadOf(buf).NeedMore? <==> NextBuffer(buf) == buf && !Spinning(buf)
    ensures |NextBuffer(buf)| < |buf| <==> !HeadOf(buf).NeedMore? && !Spinning(buf)
    ensures |NextBuffer(buf)| <= |buf|
  {
    match HeadOf(buf)
    case BadChecksum =>
      BlottedIsBad(buf);
      ResyncShrinks(Blotted(buf));
    case NoMark => ResyncShrinks(buf);
    case _ =>
  }

  /** The bytes of the frame, or of the header that wraps, that a turn handles. */
  function HandledBytes(buf: Bytes): nat {
    match HeadOf(buf)
    case Whole(f) => FrameSize(f)
    case Wrapped(_, _) => HDR_SIZE
    case _ => 0
  }

  /** A turn removes at least the bytes of what it has handled, so that nothing is handled twice, exactly
      when that was not a header that wraps. */
  lemma NothingTwice(buf: Bytes)
    requires !HeadOf(buf).NeedMore?
    ensures HandledBytes(buf) <= |buf| - |NextBuffer(buf)| <==> !HeadOf(buf).Wrapped?
  {
    TurnShrinks(buf);
  }

  lemma SpinsNext(buf: Bytes)
    ensures Spins(NextBuffer(buf)) <==> Spins(buf)
  {
    TurnShrinks(buf);
    if Spinning(buf) { SpinsOn(buf); }
  }

  /** What the loop leaves is where it ends, or the header it does not get past. */
  lemma {:induction false} ParseRest(buf: Bytes)
    ensures Ended(Parse(buf).rest) || Spinning(Parse(buf).rest)
    ensures Ended(buf) ==> !Spins(buf)
    ensures Spinning(buf) ==> Spins(buf)
    decreases |buf|
  {
    TurnShrinks(buf);
    if !Ended(buf) && !Spinning(buf) { ParseRest(NextBuffer(buf)); }
  }

  lemma TurnLaws()
    ensures forall b :: (Ended(b) ==> Ended(NextBuffer(b))) && (Spinning(b) ==> Spinning(NextBuffer(b)))
    ensures forall b :: Ended(b) || Spinning(b) || Size(NextBuffer(b)) < Size(b)
    ensures forall b :: !(Ended(b) && Spinning(b))
  {
    forall b ensures (Ended(b) ==> Ended(NextBuffer(b))) && (Spinning(b) ==> Spinning(NextBuffer(b))) {
      if Spinning(b) { SpinsOn(b); }
    }
    forall b ensures Ended(b) || Spinning(b) || Size(NextBuffer(b)) < Size(b) {
      TurnShrinks(b);
    }
  }

  function Size(buf: Bytes): nat { |buf| }

  predicate EndedAfter(buf: Bytes, turns: nat) { Ended(After(buf, turns)) }

  predicate SpinningAfter(buf: Bytes, turns: nat) { Spinning(After(buf, turns)) }

  /** The loop has ended after one turn more than there are bytes, or it never ends. */
  lemma EndsOrSpins(buf: Bytes, turns: nat)
    ensures EndedAfter(buf, turns) ==> !Spins(buf)
    ensures SpinningAfter(buf, turns) ==> Spins(buf)
    ensures turns > |buf| ==> if Spins(buf) then SpinningAfter(buf, turns) else EndedAfter(buf, turns)
  {
    TurnLaws();
    forall b ensures Spins(NextBuffer(b)) <==> Spins(b) { SpinsNext(b); }
    if Spins(buf) { IterateKeeps(NextBuffer, Spins, buf, turns); } else { IterateKeeps(NextBuffer, b => !Spins(b), buf, turns); }
    ParseRest(After(buf, turns));
    if turns > |buf| { EndsOrSticks(NextBuffer, Size, Ended, Spinning, buf, turns); }
  }

  /** The exact condition: the loop ends if and only if it does not get to a header that announces 2^64 - 81
      bytes and is not that of a file. */
  lemma EndsExactly(buf: Bytes)
    ensures (exists n: nat :: EndedAfter(buf, n)) <==> !exists n: nat :: SpinningAfter(buf, n)
    ensures Spins(buf) <==> exists n: nat :: SpinningAfter(buf, n)
  {
    EndsOrSpins(buf, |buf| + 1);
    forall n: nat
      ensures (EndedAfter(buf, n) ==> !Spins(buf)) && (SpinningAfter(buf, n) ==> Spins(buf))
    {
      EndsOrSpins(buf, n);
    }
  }

  /** Which headers those are. */
  lemma SpinsExactlyOn(hdr: Header, rest: Bytes)
    requires hdr.Valid()
    ensures Spinning(EncodeHeader(hdr) + rest) <==> hdr.kind != MT_FILE && hdr.size == TWO_64 - HDR_SIZE
  {
    HeadOfWrapped(hdr, rest);
  }

  /** Parsing buf delivers `taken` and then whatever parsing `now` delivers. */
  ghost predicate Leads(buf: Bytes, taken: seq<WireFrame>, now: Bytes) {
    Parse(buf).frames == taken + Parse(now).frames && Parse(buf).rest == Parse(now).rest
  }

  lemma LeadsTransitive(buf: Bytes, taken: seq<WireFrame>, now: Bytes, got: seq<WireFrame>, next: Bytes)
    requires Leads(buf, taken, now) && Leads(now, got, next)
    ensures Leads(buf, taken + got, next)
  {
    assert taken + (got + Parse(next).frames) == (taken + got) + Parse(next).frames;
  }

  lemma LeadsToEnd(buf: Bytes, taken: seq<WireFrame>, now: Bytes)
    requires Leads(buf, taken, now) && HeadOf(now).NeedMore?
    ensures Parse(buf) == Parsed(taken, now)
  {
    assert taken + [] == taken;
  }

  function TotalSize(fs: seq<WireFrame>): nat {
    if fs == [] then 0 else FrameSize(fs[0]) + TotalSize(fs[1..])
  }

  /** What is delivered and what is kept fit in the buffer, and a resynchronisation loses at least one byte. */
  lemma {:induction false} ParseConserves(buf: Bytes)
    ensures TotalSize(Parse(buf).frames) + |Parse(buf).rest| <= |buf|
    ensures HeadOf(buf).BadChecksum? || HeadOf(buf).NoMark?
            ==> TotalSize(Parse(buf).frames) + |Parse(buf).rest| < |buf|
    decreases |buf|
  {
    match HeadOf(buf)
    case NeedMore =>
    case Whole(f) =>
      ParseConserves(AfterFrame(buf, f));
      assert Parse(buf).frames[1..] == Parse(AfterFrame(buf, f)).frames;
    case Wrapped(hdr, total) => if total > 0 { ParseConserves(AfterWrapped(buf, hdr, total)); }
    case BadChecksum =>
      BlottedIsBad(buf);
      ResyncShrinks(Blotted(buf));
      ParseConserves(Resynced(Blotted(buf)));
    case NoMark =>
      ResyncShrinks(buf);
      ParseConserves(Resynced(buf));
  }

  // ---------- Round trip on well-formed streams ----------

  /** No empty text is followed by another frame. */
  predicate Harmless(fs: seq<WireFrame>) {
    forall i | 0 <= i < |fs| - 1 :: !EmptyText(fs[i])
  }

  lemma {:induction false} EncodeAllSize(fs: seq<WireFrame>)
    ensures |EncodeAll(fs)| == TotalSize(fs)
    decreases fs
  {
    if fs != [] { EncodeAllSize(fs[1..]); }
  }

  lemma EncodeAllNonempty(fs: seq<WireFrame>)
    requires fs != []
    ensures EncodeAll(fs) == Encode(fs[0]) + EncodeAll(fs[1..]) && |EncodeAll(fs)| >= CHUNK_HDR_SIZE
  {
  }

  lemma HarmlessTail(fs: seq<WireFrame>)
    requires Harmless(fs) && fs != []
    ensures Harmless(fs[1..])
    ensures fs[1..] != [] ==> !EmptyText(fs[0])
  {
    forall i | 0 <= i < |fs[1..]| - 1
      ensures !EmptyText(fs[1..][i])
    {
      assert !EmptyText(fs[i + 1]);
    }
  }

  lemma ParseFirst(f: WireFrame, tail: Bytes)
    requires tail == [] || !EmptyText(f)
    ensures Parse(Encode(f) + tail) == Parsed([f] + Parse(tail).frames, Parse(tail).rest)
  {
    HeadOfEncoded(f, tail);
    assert (Encode(f) + tail)[FrameSize(f)..] == tail;
  }

  /** The first n bytes of the stream complete its first k frames, and p is what a parser makes of them. */
  ghost predicate Completes(fs: seq<WireFrame>, n: nat, k: nat, p: Parsed) {
    && n <= |EncodeAll(fs)| && k <= |fs| && p.frames == fs[..k]
    && EncodeAll(fs)[..n] == EncodeAll(fs[..k]) + p.rest
    && if k < |fs| then |p.rest| < FrameSize(fs[k]) else n == |EncodeAll(fs)|
  }

  lemma CompletesOneMore(fs: seq<WireFrame>, m: nat, k: nat, p: Parsed)
    requires fs != [] && Completes(fs[1..], m, k, p)
    ensures Completes(fs, FrameSize(fs[0]) + m, k + 1, Parsed([fs[0]] + p.frames, p.rest))
  {
    EncodeAllNonempty(fs);
    AddFirst(fs, k, p.rest);
    Cut(Encode(fs[0]), EncodeAll(fs[1..]), FrameSize(fs[0]) + m);
  }

  lemma CompletesNone(fs: seq<WireFrame>, n: nat)
    requires if fs == [] then n == 0 else n < FrameSize(fs[0])
    ensures n <= |EncodeAll(fs)| && Completes(fs, n, 0, Parsed([], EncodeAll(fs)[..n]))
  {
    if fs != [] { EncodeAllNonempty(fs); }
    assert fs[..0] == [] && EncodeAll(fs[..0]) == [];
    assert [] + EncodeAll(fs)[..n] == EncodeAll(fs)[..n];
  }

  /** Any prefix of a well-formed stream, cut at any byte, parses into exactly the frames it completes;
      what is kept is exactly the incomplete rest. */
  lemma {:induction false} ParsePrefix(fs: seq<WireFrame>, n: nat) returns (k: nat)
    requires Harmless(fs) && n <= |EncodeAll(fs)|
    ensures Completes(fs, n, k, Parse(EncodeAll(fs)[..n]))
    decreases fs
  {
    if fs == [] || n < FrameSize(fs[0]) {
      CompletesNone(fs, n);
      ParseTooLittle(fs, n);
      k := 0;
    } else {
      HarmlessTail(fs);
      ParseOneMore(fs, n);
      k := ParsePrefix(fs[1..], n - FrameSize(fs[0]));
      CompletesOneMore(fs, n - FrameSize(fs[0]), k, Parse(EncodeAll(fs[1..])[..n - FrameSize(fs[0])]));
      k := k + 1;
    }
  }

  lemma ParseTooLittle(fs: seq<WireFrame>, n: nat)
    requires if fs == [] then n == 0 else n < FrameSize(fs[0])
    ensures n <= |EncodeAll(fs)| && Parse(EncodeAll(fs)[..n]) == Parsed([], EncodeAll(fs)[..n])
  {
    if fs != [] {
      EncodeAllNonempty(fs);
      ParseNothing(fs[0], EncodeAll(fs[1..]), n);
    }
  }

  lemma ParseNothing(f: WireFrame, tail: Bytes, n: nat)
    requires n < FrameSize(f)
    ensures n <= |Encode(f) + tail| && Parse((Encode(f) + tail)[..n]) == Parsed([], (Encode(f) + tail)[..n])
  {
    assert (Encode(f) + tail)[..n] == Encode(f)[..n];
    HeadOfPrefix(f, n);
  }

  lemma ParseOneMore(fs: seq<WireFrame>, n: nat)
    requires fs != [] && FrameSize(fs[0]) <= n <= |EncodeAll(fs)| && (fs[1..] != [] ==> !EmptyText(fs[0]))
    ensures n - FrameSize(fs[0]) <= |EncodeAll(fs[1..])|
    ensures var p := Parse(EncodeAll(fs[1..])[..n - FrameSize(fs[0])]);
      Parse(EncodeAll(fs)[..n]) == Parsed([fs[0]] + p.frames, p.rest)
  {
    EncodeAllNonempty(fs);
    Cut(Encode(fs[0]), EncodeAll(fs[1..]), n);
    ParseFirst(fs[0], EncodeAll(fs[1..])[..n - FrameSize(fs[0])]);
  }

  lemma AddFirst(fs: seq<WireFrame>, k: nat, rest: Bytes)
    requires 1 <= k + 1 <= |fs|
    ensures fs[..k + 1] == [fs[0]] + fs[1..][..k]
    ensures Encode(fs[0]) + (EncodeAll(fs[1..][..k]) + rest) == EncodeAll(fs[..k + 1]) + rest
  {
    assert fs[..k + 1][1..] == fs[1..][..k];
    Assoc(Encode(fs[0]), EncodeAll(fs[1..][..k]), rest);
  }

  /** The exact condition: a well-formed stream that arrives in one piece is delivered frame by frame
      if and only if no empty text is followed by another frame. */
  lemma ParseWholeStream(fs: seq<WireFrame>)
    ensures Parse(EncodeAll(fs)) == Parsed(fs, []) <==> Harmless(fs)
  {
    if Harmless(fs) {
      HarmlessWhole(fs);
    } else {
      EmptyTextLosesFrames(fs);
      EncodeAllSize(fs);
    }
  }

  lemma {:induction false} HarmlessWhole(fs: seq<WireFrame>)
    requires Harmless(fs)
    ensures Parse(EncodeAll(fs)) == Parsed(fs, [])
    decreases fs
  {
    if fs != [] {
      EncodeAllNonempty(fs);
      HarmlessTail(fs);
      ParseFirst(fs[0], EncodeAll(fs[1..]));
      HarmlessWhole(fs[1..]);
      assert fs == [fs[0]] + fs[1..];
    }
  }

  lemma {:induction false} EmptyTextLosesFrames(fs: seq<WireFrame>)
    requires !Harmless(fs)
    ensures TotalSize(Parse(EncodeAll(fs)).frames) < TotalSize(fs)
    decreases fs
  {
    var f, tail := fs[0], EncodeAll(fs[1..]);
    var i :| 0 <= i < |fs| - 1 && EmptyText(fs[i]);
    EncodeAllNonempty(fs);
    EncodeAllNonempty(fs[1..]);
    EncodeAllSize(fs[1..]);
    if EmptyText(f) {
      LosesFirst(f, tail);
    } else {
      ParseFirst(f, tail);
      assert ([f] + Parse(tail).frames)[1..] == Parse(tail).frames;
      assert EmptyText(fs[1..][i - 1]);
      EmptyTextLosesFrames(fs[1..]);
    }
  }

  /** Eighty-five bytes are enough: when the mark of the next frame has arrived with an empty text, both are
      gone from the buffer after the parse. */
  lemma EmptyTextTakesMark(f: WireFrame, g: WireFrame)
    requires EmptyText(f)
    ensures Parse(Encode(f) + Encode(g)[..4]) == Parsed([f], [])
  {
    var mark := Encode(g)[..4];
    HeadOfEncoded(f, mark);
    assert (Encode(f) + mark)[FrameSize(f)..] == mark;
    BadMarkGoes(Blotted(mark), mark);
    assert [f] + [] == [f];
  }

  lemma BadMarkGoes(b: Bytes, mark: Bytes)
    requires |mark| == 4 && b == Blotted(mark)
    ensures Parse(b) == Parsed([], [])
  {
    BlottedIsBad(mark);
    assert b[..4] == b;
    assert Resynced(b) == [];
    assert HeadOf([]) == NeedMore;
  }

  /** After an empty text the frame that follows it at once is not recognised. */
  lemma LosesFirst(f: WireFrame, tail: Bytes)
    requires EmptyText(f) && |tail| >= 4
    ensures TotalSize(Parse(Encode(f) + tail).frames) < FrameSize(f) + |tail|
  {
    var b := Encode(f) + tail;
    HeadOfEncoded(f, tail);
    assert b[FrameSize(f)..] == tail;
    assert AfterFrame(b, f) == Blotted(tail);
    BlottedIsBad(tail);
    ParseConserves(Blotted(tail));
    assert Parse(b).frames[1..] == Parse(Blotted(tail)).frames;
  }
}
