/** A file's way from the sending client through the relay to the receiving client. */
module EndToEnd {
  import opened ByteStrings
  import opened Lwmp
  import opened Relay
  import opened RelayMessages
  import opened FrameStream
  import opened Rounds
  import opened Transfers

  /** The frame takes part in a file transfer of user x. */
  predicate Mine(f: WireFrame, x: Bytes) {
    match f
    case Pdu(hdr, _) => hdr.kind == MT_FILE && CString(hdr.subject) == x
    case Chunk(subject, _) => CString(subject) == x
  }

  /** The frames of x among everything a client receives. */
  function Only(fs: seq<WireFrame>, x: Bytes): seq<WireFrame> {
    if fs == [] then [] else (if Mine(fs[0], x) then [fs[0]] else []) + Only(fs[1..], x)
  }

  // ---------- An open transfer among other traffic ----------

  /** Slot i of the box belongs to x, expects `size` bytes, and has written `got` to file k. */
  ghost predicate Tracks(box: Inbox, x: Bytes, k: nat, got: Bytes, size: nat, i: nat) {
    && box.Valid()
    && i < |box.slots| && k < |box.files|
    && box.slots[i] == Slot(true, k, size, |got|, x)
    && box.files[k] == RxFile(x, got, true)
    && |got| < size
  }

  /** File k is complete and no transfer writes to it any more. */
  ghost predicate Done(box: Inbox, k: nat, file: RxFile) {
    box.Valid() && k < |box.files| && box.files[k] == file && !file.isOpen
  }

  lemma FindOwn(box: Inbox, x: Bytes, i: nat)
    requires box.Valid() && i < |box.slots| && box.slots[i].active && box.slots[i].sender == x
    ensures box.Find(x) == i
  {
    var r := box.Find(x);
    assert r <= i;
    assert box.slots[r].active && box.slots[r].sender == x;
  }

  lemma OtherStart(box: Inbox, sender: Bytes, size: nat, payload: Bytes, x: Bytes, k: nat, got: Bytes, n: nat, i: nat)
    requires Tracks(box, x, k, got, n, i) && sender != x
    ensures Tracks(box.StartFile(sender, size, payload), x, k, got, n, i)
  {
    box.StartFileKeepsValid(sender, size, payload);
    var e := box.Find(sender);
    if e < |box.slots| { assert box.slots[e].file != k; }
  }

  lemma OtherChunk(box: Inbox, sender: Bytes, data: Bytes, x: Bytes, k: nat, got: Bytes, n: nat, i: nat)
    requires Tracks(box, x, k, got, n, i) && sender != x
    ensures Tracks(box.AddChunk(sender, data), x, k, got, n, i)
  {
    box.AddChunkKeepsValid(sender, data);
    var e := box.Find(sender);
    if e < |box.slots| { assert box.slots[e].file != k; }
  }

  /** Frames of other users, and texts and notices of anyone, leave the transfer alone. */
  lemma OthersKeepTracking(box: Inbox, f: WireFrame, x: Bytes, k: nat, got: Bytes, n: nat, i: nat)
    requires Tracks(box, x, k, got, n, i) && !Mine(f, x)
    ensures Tracks(box.Accept(f), x, k, got, n, i)
  {
    match f
    case Pdu(hdr, payload) =>
      if hdr.kind == MT_FILE { OtherStart(box, CString(hdr.subject), hdr.size, payload, x, k, got, n, i); }
    case Chunk(subject, data) => OtherChunk(box, CString(subject), data, x, k, got, n, i);
  }

  /** Nothing that arrives changes a file that is closed. */
  lemma ClosedStays(box: Inbox, f: WireFrame, k: nat, file: RxFile)
    requires Done(box, k, file)
    ensures Done(box.Accept(f), k, file)
  {
    box.AcceptKeepsValid(f);
    forall i | 0 <= i < |box.slots| && box.slots[i].active
      ensures box.slots[i].file != k
    {
      assert box.SlotOk(i);
    }
  }

  lemma {:induction false} AllClosedStays(box: Inbox, fs: seq<WireFrame>, k: nat, file: RxFile)
    requires Done(box, k, file)
    ensures Done(AcceptAll(box, fs), k, file)
    decreases fs
  {
    if fs != [] {
      ClosedStays(box, fs[0], k, file);
      AllClosedStays(box.Accept(fs[0]), fs[1..], k, file);
    }
  }

  /** A chunk of x is appended to its file, which is closed exactly when all of it has arrived. */
  lemma OwnChunk(box: Inbox, x: Bytes, data: Bytes, k: nat, got: Bytes, size: nat, i: nat)
    requires Tracks(box, x, k, got, size, i) && data != [] && |got| + |data| <= size
    ensures var r := box.AddChunk(x, data);
      if |got| + |data| < size then Tracks(r, x, k, got + data, size, i) else Done(r, k, RxFile(x, got + data, false))
  {
    FindOwn(box, x, i);
    box.AddChunkKeepsValid(x, data);
  }

  predicate ChunksOf(fs: seq<WireFrame>, x: Bytes) {
    forall i | 0 <= i < |fs| :: fs[i].Chunk? && CString(fs[i].subject) == x && fs[i].data != []
  }

  lemma OwnChunkFirst(fs: seq<WireFrame>, x: Bytes)
    requires fs != [] && Mine(fs[0], x) && ChunksOf(Only(fs, x), x)
    ensures fs[0].Chunk? && CString(fs[0].subject) == x && fs[0].data != []
    ensures ChunksOf(Only(fs[1..], x), x)
    ensures Payloads(Only(fs, x)) == fs[0].data + Payloads(Only(fs[1..], x))
  {
    var own := Only(fs[1..], x);
    assert Only(fs, x) == [fs[0]] + own && Only(fs, x)[1..] == own;
    assert Only(fs, x)[0] == fs[0] && forall j | 0 <= j < |own| :: own[j] == Only(fs, x)[j + 1];
  }

  /** Whatever else arrives in between: after any part of the traffic the file holds exactly the chunks
      of x so far, and it is closed when, and only when, that is the whole file. */
  lemma {:induction false} ChunksArrive(box: Inbox, fs: seq<WireFrame>, x: Bytes, k: nat, got: Bytes, size: nat, i: nat)
    requires Tracks(box, x, k, got, size, i)
    requires ChunksOf(Only(fs, x), x) && |got| + |Payloads(Only(fs, x))| <= size
    ensures var now := got + Payloads(Only(fs, x));
      if |now| < size then Tracks(AcceptAll(box, fs), x, k, now, size, i) else Done(AcceptAll(box, fs), k, RxFile(x, now, false))
    decreases fs
  {
    if fs == [] {
      assert got + [] == got;
      return;
    }
    var f, rest := fs[0], fs[1..];
    var own := Only(rest, x);
    box.AcceptKeepsValid(f);
    if Mine(f, x) {
      OwnChunkFirst(fs, x);
      var data := f.data;
      OwnChunk(box, x, data, k, got, size, i);
      Assoc(got, data, Payloads(own));
      if |got| + |data| < size {
        ChunksArrive(box.Accept(f), rest, x, k, got + data, size, i);
      } else {
        assert Payloads(own) == [] && got + data + [] == got + data;
        AllClosedStays(box.Accept(f), rest, k, RxFile(x, got + data, false));
      }
    } else {
      assert Only(fs, x) == own;
      OthersKeepTracking(box, f, x, k, got, size, i);
      ChunksArrive(box.Accept(f), rest, x, k, got, size, i);
    }
  }

  // ---------- The start of a transfer ----------

  /** A transfer of x can start: a slot is free, or an unfinished transfer of x is given up. */
  predicate CanStart(box: Inbox, x: Bytes) {
    box.Find(x) < |box.slots| || box.Free() < |box.slots|
  }

  lemma OwnStart(box: Inbox, x: Bytes, size: nat, payload: Bytes) returns (i: nat)
    requires box.Valid() && CanStart(box, x) && |payload| <= size
    ensures var r := box.StartFile(x, size, payload);
      if |payload| < size then Tracks(r, x, |box.files|, payload, size, i)
      else Done(r, |box.files|, RxFile(x, payload, false))
  {
    box.StartFileKeepsValid(x, size, payload);
    var e := box.Find(x);
    var b := if e < |box.slots| then box.Close(e) else box;
    if e < |box.slots| { assert !b.slots[e].active; }
    i := b.Free();
    assert |b.files| == |box.files|;
  }

  // ---------- The whole way ----------

  /** The names the server knows its users by. */
  predicate UserName(x: Bytes) { 0 !in x && |x| <= UNAME_SIZE }

  /** Where the first frame of x stands in the traffic. */
  function FirstMine(fs: seq<WireFrame>, x: Bytes): (p: nat)
    ensures p <= |fs|
    ensures p < |fs| ==> Mine(fs[p], x)
    ensures forall j | 0 <= j < p :: !Mine(fs[j], x)
  {
    if fs == [] || Mine(fs[0], x) then 0 else 1 + FirstMine(fs[1..], x)
  }

  lemma {:induction false} OnlyAppend(a: seq<WireFrame>, b: seq<WireFrame>, x: Bytes)
    ensures Only(a + b, x) == Only(a, x) + Only(b, x)
    decreases a
  {
    if a == [] {
      assert a + b == b;
    } else {
      assert (a + b)[1..] == a[1..] + b;
      OnlyAppend(a[1..], b, x);
      Assoc(if Mine(a[0], x) then [a[0]] else [], Only(a[1..], x), Only(b, x));
    }
  }

  lemma {:induction false} OnlyNone(fs: seq<WireFrame>, x: Bytes)
    requires forall j | 0 <= j < |fs| :: !Mine(fs[j], x)
    ensures Only(fs, x) == []
    decreases fs
  {
    if fs != [] {
      assert forall j | 0 <= j < |fs[1..]| :: !Mine(fs[1..][j], x) by {
        forall j | 0 <= j < |fs[1..]| ensures !Mine(fs[1..][j], x) { assert !Mine(fs[j + 1], x); }
      }
      OnlyNone(fs[1..], x);
    }
  }

  /** The traffic of x is split at its first frame. */
  lemma OnlyFirst(fs: seq<WireFrame>, x: Bytes)
    ensures var p := FirstMine(fs, x);
      if p == |fs| then Only(fs, x) == []
      else Only(fs, x) == [fs[p]] + Only(fs[p + 1..], x) && fs == fs[..p] + ([fs[p]] + fs[p + 1..])
  {
    var p := FirstMine(fs, x);
    OnlyNone(fs[..p], x);
    TakeDrop(fs, p);
    OnlyAppend(fs[..p], fs[p..], x);
    if p < |fs| {
      HeadTail(fs[p..]);
      assert fs[p..][1..] == fs[p + 1..];
    } else {
      assert fs[..p] == fs;
    }
  }

  lemma {:induction false} PayloadsAppend(a: seq<WireFrame>, b: seq<WireFrame>)
    ensures Payloads(a + b) == Payloads(a) + Payloads(b)
    decreases a
  {
    if a == [] {
      assert a + b == b;
    } else {
      assert (a + b)[1..] == a[1..] + b;
      PayloadsAppend(a[1..], b);
      Assoc(Payload(a[0]), Payloads(a[1..]), Payloads(b));
    }
  }

  /** The frames a relayed message is made of are all its sender's, and the later ones are chunks. */
  lemma FramesAreMine(env: Env, m: Message)
    requires Accepted(env, m) && m.kind == MT_FILE && UserName(env.me)
    ensures CString(Label(env)) == env.me && Mine(FirstPdu(env, m), env.me)
    ensures ChunksOf(Frames(env, m)[1..], env.me)
    ensures Payloads(Frames(env, m)) == m.body
    ensures Payloads(Frames(env, m)) == FirstPdu(env, m).payload + Payloads(Frames(env, m)[1..])
  {
    NameRoundTrip(env.me, UNAME_SIZE);
    FramesCarryBody(env, m);
    forall i | 0 <= i < |Frames(env, m)[1..]|
      ensures var f := Frames(env, m)[1..][i]; f.Chunk? && CString(f.subject) == env.me && f.data != []
    {
      assert Frames(env, m)[1..][i] == Frames(env, m)[i + 1];
    }
  }

  /** The receiver's traffic starts with the frames fs, of which those of the sender are the first
      frames of the relayed file m, in order. */
  ghost predicate Carries(fs: seq<WireFrame>, env: Env, m: Message)
    requires Accepted(env, m)
  {
    Only(fs, env.me) <= Frames(env, m)
  }

  /** From the frame that starts a transfer on. */
  lemma TransferRuns(box: Inbox, size: nat, payload: Bytes, rest: seq<WireFrame>, x: Bytes)
    requires box.Valid() && CanStart(box, x) && box.StartFile(x, size, payload).Valid()
    requires ChunksOf(Only(rest, x), x) && |payload| + |Payloads(Only(rest, x))| <= size
    ensures var end, now := AcceptAll(box.StartFile(x, size, payload), rest), payload + Payloads(Only(rest, x));
      |box.files| < |end.files| && end.files[|box.files|] == RxFile(x, now, |now| < size)
  {
    var i := OwnStart(box, x, size, payload);
    var r := box.StartFile(x, size, payload);
    if |payload| < size {
      ChunksArrive(r, rest, x, |box.files|, payload, size, i);
    } else {
      assert payload + [] == payload;
      AllClosedStays(r, rest, |box.files|, RxFile(x, payload, false));
    }
  }

  lemma FirstThenRest(box: Inbox, fs: seq<WireFrame>, p: nat, first: WireFrame)
    requires box.Valid() && p < |fs| && fs[p] == first && fs == fs[..p] + ([first] + fs[p + 1..])
    ensures AcceptAll(box, fs[..p]).Accept(first).Valid()
    ensures AcceptAll(box, fs) == AcceptAll(AcceptAll(box, fs[..p]).Accept(first), fs[p + 1..])
  {
    AcceptAllAppend(box, fs[..p], [first] + fs[p + 1..]);
    AcceptAll(box, fs[..p]).AcceptKeepsValid(first);
    assert ([first] + fs[p + 1..])[1..] == fs[p + 1..];
  }

  /** The sender's share of the traffic so far. */
  lemma OwnShare(env: Env, m: Message, fs: seq<WireFrame>)
    requires Accepted(env, m) && m.kind == MT_FILE && UserName(env.me)
    requires Carries(fs, env, m) && Only(fs, env.me) != []
    ensures var p := FirstMine(fs, env.me);
      && p < |fs| && fs[p] == FirstPdu(env, m) && fs == fs[..p] + ([fs[p]] + fs[p + 1..])
      && var own := Only(fs[p + 1..], env.me);
      && ChunksOf(own, env.me)
      && Payloads(Only(fs, env.me)) == FirstPdu(env, m).payload + Payloads(own)
      && Payloads(Only(fs, env.me)) <= m.body
  {
    var x, p := env.me, FirstMine(fs, env.me);
    OnlyFirst(fs, x);
    FramesAreMine(env, m);
    var own, all := Only(fs[p + 1..], x), Frames(env, m);
    assert Only(fs, x)[0] == fs[p] == all[0];
    assert own == Only(fs, x)[1..] && own <= all[1..];
    ChunksPrefix(all[1..], own, x);
    OwnPrefix(all, Only(fs, x));
  }

  lemma FirstAccepted(env: Env, m: Message, box: Inbox)
    requires Accepted(env, m) && m.kind == MT_FILE && UserName(env.me) && box.Valid()
    ensures box.Accept(FirstPdu(env, m)) == box.StartFile(env.me, |m.body|, FirstPdu(env, m).payload)
    ensures box.Accept(FirstPdu(env, m)).Valid()
  {
    FramesAreMine(env, m);
    box.AcceptKeepsValid(FirstPdu(env, m));
  }

  lemma ProperPrefix(a: Bytes, b: Bytes)
    requires a <= b
    ensures a != b <==> |a| < |b|
  {
  }

  /** At every moment of the transfer the receiver's file holds exactly the bytes relayed so far, a prefix
      of the file sent; it is closed once that is the whole file, and never before. */
  lemma FileArrives(env: Env, m: Message, box: Inbox, fs: seq<WireFrame>)
    requires Accepted(env, m) && m.kind == MT_FILE && UserName(env.me)
    requires box.Valid() && Carries(fs, env, m) && Only(fs, env.me) != []
    requires CanStart(AcceptAll(box, fs[..FirstMine(fs, env.me)]), env.me)
    ensures var k := |AcceptAll(box, fs[..FirstMine(fs, env.me)]).files|;
      var end, got := AcceptAll(box, fs), Payloads(Only(fs, env.me));
      && got <= m.body
      && k < |end.files|
      && end.files[k] == RxFile(env.me, got, got != m.body)
  {
    var p := FirstMine(fs, env.me);
    OwnShare(env, m, fs);
    var first, rest := FirstPdu(env, m), fs[p + 1..];
    FirstThenRest(box, fs, p, first);
    var before := AcceptAll(box, fs[..p]);
    FirstAccepted(env, m, before);
    ProperPrefix(Payloads(Only(fs, env.me)), m.body);
    TransferRuns(before, |m.body|, first.payload, rest, env.me);
  }

  lemma OwnPrefix(all: seq<WireFrame>, own: seq<WireFrame>)
    requires own <= all
    ensures Payloads(own) <= Payloads(all)
  {
    assert all == own + all[|own|..];
    PayloadsAppend(own, all[|own|..]);
  }

  lemma ChunksPrefix(all: seq<WireFrame>, own: seq<WireFrame>, x: Bytes)
    requires own <= all && ChunksOf(all, x)
    ensures ChunksOf(own, x)
  {
    forall i | 0 <= i < |own|
      ensures own[i].Chunk? && CString(own[i].subject) == x && own[i].data != []
    {
      assert own[i] == all[i];
    }
  }

  // ---------- Up to eight senders at once ----------

  /** The users who start a file transfer somewhere in the traffic. */
  function Starters(fs: seq<WireFrame>): set<Bytes> {
    if fs == [] then {}
    else (if fs[0].Pdu? && fs[0].hdr.kind == MT_FILE then {CString(fs[0].hdr.subject)} else {}) + Starters(fs[1..])
  }

  /** Only these users have transfers under way. */
  ghost predicate SendersWithin(box: Inbox, users: set<Bytes>) {
    box.Valid() && forall i | 0 <= i < |box.slots| && box.slots[i].active :: box.slots[i].sender in users
  }

  lemma AcceptWithin(box: Inbox, f: WireFrame, users: set<Bytes>)
    requires SendersWithin(box, users) && Starters([f]) <= users
    ensures SendersWithin(box.Accept(f), users)
  {
    box.AcceptKeepsValid(f);
    if f.Pdu? && f.hdr.kind == MT_FILE { assert CString(f.hdr.subject) in Starters([f]); }
  }

  lemma {:induction false} AllWithin(box: Inbox, fs: seq<WireFrame>, users: set<Bytes>)
    requires SendersWithin(box, users) && Starters(fs) <= users
    ensures SendersWithin(AcceptAll(box, fs), users)
    decreases fs
  {
    if fs != [] {
      assert Starters([fs[0]]) <= Starters(fs);
      AcceptWithin(box, fs[0], users);
      AllWithin(box.Accept(fs[0]), fs[1..], users);
    }
  }

  lemma {:induction false} StartersPrefix(fs: seq<WireFrame>, p: nat)
    requires p <= |fs|
    ensures Starters(fs[..p]) <= Starters(fs)
    decreases p
  {
    if p > 0 {
      assert fs[..p][1..] == fs[1..][..p - 1];
      StartersPrefix(fs[1..], p - 1);
    }
  }

  lemma {:induction false} Starter(fs: seq<WireFrame>, p: nat)
    requires p < |fs| && fs[p].Pdu? && fs[p].hdr.kind == MT_FILE
    ensures CString(fs[p].hdr.subject) in Starters(fs)
    decreases p
  {
    if p > 0 { Starter(fs[1..], p - 1); }
  }

  /** The senders of n active slots, no two of them alike, are n users. */
  lemma {:induction false} ActiveSenders(box: Inbox, n: nat) returns (names: set<Bytes>)
    requires box.Valid() && n <= |box.slots| && forall i | 0 <= i < n :: box.slots[i].active
    ensures |names| == n && forall y :: y in names <==> exists i :: 0 <= i < n && box.slots[i].sender == y
    decreases n
  {
    if n == 0 {
      names := {};
    } else {
      names := ActiveSenders(box, n - 1);
      assert box.slots[n - 1].sender !in names;
      names := names + {box.slots[n - 1].sender};
    }
  }

  /** With no more users than slots there is always room for the next transfer. */
  lemma RoomLeft(box: Inbox, users: set<Bytes>, x: Bytes)
    requires SendersWithin(box, users) && x in users && |users| <= MAX_ACTIVE_TRANSFERS
    ensures CanStart(box, x)
  {
    if !CanStart(box, x) {
      var names := ActiveSenders(box, |box.slots|);
      assert x !in names && names <= users - {x};
      Smaller(names, users - {x});
      assert false;
    }
  }

  lemma {:induction false} Smaller(a: set<Bytes>, b: set<Bytes>)
    requires a <= b
    ensures |a| <= |b|
    decreases a
  {
    if a != {} {
      var y :| y in a;
      Smaller(a - {y}, b - {y});
    }
  }

  /** The traffic consists of the frames a and the frames b, each in their own order. */
  ghost predicate Interleaves(traffic: seq<WireFrame>, a: seq<WireFrame>, b: seq<WireFrame>)
    decreases traffic
  {
    if traffic == [] then a == [] && b == []
    else
      || (a != [] && a[0] == traffic[0] && Interleaves(traffic[1..], a[1..], b))
      || (b != [] && b[0] == traffic[0] && Interleaves(traffic[1..], a, b[1..]))
  }

  ghost predicate AllMine(fs: seq<WireFrame>, x: Bytes) { forall i | 0 <= i < |fs| :: Mine(fs[i], x) }

  ghost predicate NoneMine(fs: seq<WireFrame>, x: Bytes) { forall i | 0 <= i < |fs| :: !Mine(fs[i], x) }

  lemma {:induction false} OwnOfInterleaved(traffic: seq<WireFrame>, a: seq<WireFrame>, b: seq<WireFrame>, x: Bytes)
    requires Interleaves(traffic, a, b) && AllMine(a, x) && NoneMine(b, x)
    ensures Only(traffic, x) == a
    decreases traffic
  {
    if traffic != [] {
      if a != [] && a[0] == traffic[0] && Interleaves(traffic[1..], a[1..], b) {
        OwnOfInterleaved(traffic[1..], a[1..], b, x);
        HeadTail(a);
      } else {
        OwnOfInterleaved(traffic[1..], a, b[1..], x);
      }
    }
  }

  // ---------- Several files of one sender ----------

  /** The traffic before the own frame number n, and from there on. */
  lemma {:induction false} SplitOwn(fs: seq<WireFrame>, x: Bytes, n: nat) returns (before: seq<WireFrame>, rest: seq<WireFrame>)
    ensures fs == before + rest && (rest != [] ==> Mine(rest[0], x)) && (rest == [] <==> n >= |Only(fs, x)|)
    ensures var k := Min(n, |Only(fs, x)|);
      Only(before, x) == Only(fs, x)[..k] && Only(rest, x) == Only(fs, x)[k..]
    decreases fs
  {
    if fs == [] || (Mine(fs[0], x) && n == 0) {
      before, rest := [], fs;
      assert [] + fs == fs;
    } else {
      var f, own, m := fs[0], Only(fs[1..], x), if Mine(fs[0], x) then n - 1 else n;
      before, rest := SplitOwn(fs[1..], x, m);
      OneMoreOwn(f, own, Min(m, |own|));
      Assoc([f], before, rest);
      HeadTail(fs);
      OnlyOneMore(f, before, x);
      before := [f] + before;
    }
  }

  lemma OnlyOneMore(f: WireFrame, fs: seq<WireFrame>, x: Bytes)
    ensures Only([f] + fs, x) == if Mine(f, x) then [f] + Only(fs, x) else Only(fs, x)
  {
    assert ([f] + fs)[1..] == fs;
  }

  lemma OneMoreOwn(f: WireFrame, own: seq<WireFrame>, k: nat)
    requires k <= |own|
    ensures ([f] + own)[..k + 1] == [f] + own[..k] && ([f] + own)[k + 1..] == own[k..]
  {
  }

  /** The files of the sender in order: behind the frames a of earlier files, those of m have come in part. */
  ghost predicate Reached(fs: seq<WireFrame>, env: Env, a: seq<WireFrame>, m: Message, c: seq<WireFrame>)
    requires Accepted(env, m)
  {
    |a| < |Only(fs, env.me)| && Only(fs, env.me) <= a + (Frames(env, m) + c)
  }

  /** The part of m that has come. */
  function PartOf(fs: seq<WireFrame>, env: Env, a: seq<WireFrame>, m: Message): seq<WireFrame>
    requires Accepted(env, m) && |a| <= |Only(fs, env.me)|
  {
    Only(fs, env.me)[|a|..Min(|a| + |Frames(env, m)|, |Only(fs, env.me)|)]
  }

  /** The traffic up to the first frame of m, from there to the last one that has come, and what follows. */
  lemma CutsAt(fs: seq<WireFrame>, env: Env, a: seq<WireFrame>, m: Message, c: seq<WireFrame>)
    returns (before: seq<WireFrame>, mid: seq<WireFrame>, after: seq<WireFrame>)
    requires Accepted(env, m) && Reached(fs, env, a, m, c)
    ensures fs == before + (mid + after) && mid != [] && Mine(mid[0], env.me)
    ensures Only(mid, env.me) == PartOf(fs, env, a, m) && Carries(mid, env, m)
    ensures after != [] ==> Only(mid, env.me) == Frames(env, m)
    ensures |Only(fs, env.me)| >= |a| + |Frames(env, m)| ==> Only(mid, env.me) == Frames(env, m)
  {
    var own, f, rest := Only(fs, env.me), Frames(env, m), [];
    before, rest := SplitOwn(fs, env.me, |a|);
    mid, after := SplitOwn(rest, env.me, |f|);
    PartCarries(own, a, f, c);
    MiddlePart(own, |a|, |f|);
    assert mid[0] == rest[0];
  }

  lemma MiddlePart<T>(own: seq<T>, n: nat, len: nat)
    requires n <= |own|
    ensures own[n..][..Min(len, |own[n..]|)] == own[n..Min(n + len, |own|)]
  {
  }

  /** The part that has come is written to a new file. */
  lemma PartArrives(env: Env, box: Inbox, users: set<Bytes>, m: Message, mid: seq<WireFrame>)
    returns (k: nat)
    requires Accepted(env, m) && m.kind == MT_FILE && UserName(env.me) && Carries(mid, env, m)
    requires mid != [] && Mine(mid[0], env.me)
    requires SendersWithin(box, users) && |users| <= MAX_ACTIVE_TRANSFERS && env.me in users
    ensures var end, got := AcceptAll(box, mid), Payloads(Only(mid, env.me));
      k < |end.files| && got <= m.body && end.files[k] == RxFile(env.me, got, got != m.body)
      && (Only(mid, env.me) == Frames(env, m) ==> got == m.body)
  {
    RoomLeft(box, users, env.me);
    assert FirstMine(mid, env.me) == 0 && mid[..0] == [];
    FileArrives(env, m, box, mid);
    FramesCarryBody(env, m);
    k := |box.files|;
  }

  /** Between its first frame and the end of its last the file grows; afterwards it stays. */
  lemma NthFileArrives(env: Env, box: Inbox, users: set<Bytes>, a: seq<WireFrame>, m: Message, c: seq<WireFrame>, fs: seq<WireFrame>)
    requires Accepted(env, m) && m.kind == MT_FILE && UserName(env.me) && Reached(fs, env, a, m, c)
    requires SendersWithin(box, users) && Starters(fs) <= users && |users| <= MAX_ACTIVE_TRANSFERS && env.me in users
    ensures var got := Payloads(PartOf(fs, env, a, m));
      got <= m.body && RxFile(env.me, got, got != m.body) in AcceptAll(box, fs).files
      && (|Only(fs, env.me)| >= |a| + |Frames(env, m)| ==> got == m.body)
  {
    var before, mid, after := CutsAt(fs, env, a, m, c);
    assert before == fs[..|before|];
    StartersPrefix(fs, |before|);
    AllWithin(box, before, users);
    var box1 := AcceptAll(box, before);
    var k := PartArrives(env, box1, users, m, mid);
    AcceptAllAppend(box, before, mid + after);
    AcceptAllAppend(box1, mid, after);
    StaysBehind(AcceptAll(box1, mid), after, k, RxFile(env.me, Payloads(Only(mid, env.me)), Payloads(Only(mid, env.me)) != m.body));
  }

  lemma StaysBehind(box: Inbox, after: seq<WireFrame>, k: nat, file: RxFile)
    requires box.Valid() && k < |box.files| && box.files[k] == file && (after != [] ==> !file.isOpen)
    ensures file in AcceptAll(box, after).files
  {
    if after != [] {
      AllClosedStays(box, after, k, file);
    }
  }

  lemma PartCarries(own: seq<WireFrame>, a: seq<WireFrame>, f: seq<WireFrame>, c: seq<WireFrame>)
    requires |a| < |own| && own <= a + (f + c)
    ensures own[|a|..Min(|a| + |f|, |own|)] <= f
    ensures |own| >= |a| + |f| ==> own[|a|..Min(|a| + |f|, |own|)] == f
  {
    var part := own[|a|..Min(|a| + |f|, |own|)];
    assert forall i | 0 <= i < |part| :: part[i] == own[|a| + i] == (a + (f + c))[|a| + i] == f[i];
  }

  lemma {:induction false} OnlyPrefix(a: seq<WireFrame>, b: seq<WireFrame>, x: Bytes)
    requires a <= b
    ensures Only(a, x) <= Only(b, x)
  {
    TakeDrop(b, |a|);
    assert b[..|a|] == a;
    OnlyAppend(a, b[|a|..], x);
  }

  /** A client that has just connected receives, in any fragmentation, the frames of a relayed file in any
      interleaving with those of others, of any size. As long as at most eight users send it files, what has
      come of this file is always in its file, and once the client has read everything the file is complete. */
  lemma FileDeliveredAmong(env: Env, m: Message, traffic: seq<WireFrame>, others: seq<WireFrame>, wants: seq<nat>)
    requires Accepted(env, m) && m.kind == MT_FILE && UserName(env.me)
    requires Harmless(traffic) && Interleaves(traffic, Frames(env, m), others) && NoneMine(others, env.me)
    requires |Starters(traffic)| <= MAX_ACTIVE_TRANSFERS
    ensures var r := Run(Line([], EncodeAll(traffic)), wants);
      var got, files := Payloads(Only(r.frames, env.me)), AcceptAll(EmptyInbox(), r.frames).files;
      && got <= m.body
      && (Only(r.frames, env.me) != [] ==> RxFile(env.me, got, got != m.body) in files)
      && (r.line.tail == [] ==> RxFile(env.me, m.body, false) in files)
  {
    var x, r := env.me, Run(Line([], EncodeAll(traffic)), wants);
    FramesAreMine(env, m);
    OwnOfInterleaved(traffic, Frames(env, m), others, x);
    FreshSynced(traffic, EncodeAll(traffic));
    RunSynced(traffic, EncodeAll(traffic), [], Line([], EncodeAll(traffic)), wants);
    assert [] + r.frames == r.frames;
    OnlyPrefix(r.frames, traffic, x);
    OwnPrefix(Frames(env, m), Only(r.frames, x));
    if r.line.tail == [] { AllArrived(traffic, r.frames, r.line.buf); }
    if Only(r.frames, x) != [] { DeliveredSoFar(env, m, traffic, r.frames); }
  }

  lemma DeliveredSoFar(env: Env, m: Message, traffic: seq<WireFrame>, fs: seq<WireFrame>)
    requires Accepted(env, m) && m.kind == MT_FILE && UserName(env.me) && fs <= traffic
    requires Only(traffic, env.me) == Frames(env, m) && |Starters(traffic)| <= MAX_ACTIVE_TRANSFERS && Only(fs, env.me) != []
    ensures var got := Payloads(Only(fs, env.me));
      got <= m.body && RxFile(env.me, got, got != m.body) in AcceptAll(EmptyInbox(), fs).files
  {
    OnlyPrefix(fs, traffic, env.me);
    assert traffic[..|fs|] == fs;
    StartersPrefix(traffic, |fs|);
    OwnShare(env, m, fs);
    FramesAreMine(env, m);
    Starter(fs, FirstMine(fs, env.me));
    assert [] + (Frames(env, m) + []) == Frames(env, m);
    assert PartOf(fs, env, [], m) == Only(fs, env.me);
    NthFileArrives(env, EmptyInbox(), Starters(traffic), [], m, [], fs);
  }
}
