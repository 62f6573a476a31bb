/** The way of a session's files from the relay's output through a recipient's queues, as far as it concerns the
    contents and the order of messages. */
module Mailing {
  import opened ByteStrings
  import opened Lwmp
  import opened Relay
  import opened RelayMessages
  import opened FrameStream
  import opened Outbound
  import opened Delivery
  import opened EndToEnd
  import Prepare

  /** What the relay has put out for one recipient, as messages of the sender. */
  function Mail(out: seq<Out>, to: Bytes, me: Bytes): seq<Msg> {
    if out == [] then []
    else Posted(out[0], to, me) + Mail(out[1..], to, me)
  }

  function Posted(o: Out, to: Bytes, me: Bytes): seq<Msg> {
    if o.Forward? && o.to == to then [Msg(o.msg, me)] else []
  }

  lemma {:induction false} MailAppend(a: seq<Out>, b: seq<Out>, to: Bytes, me: Bytes)
    ensures Mail(a + b, to, me) == Mail(a, to, me) + Mail(b, to, me)
    decreases a
  {
    if a == [] {
      assert a + b == b;
    } else {
      assert (a + b)[1..] == a[1..] + b;
      MailAppend(a[1..], b, to, me);
      Assoc(Posted(a[0], to, me), Mail(a[1..], to, me), Mail(b, to, me));
    }
  }

  lemma MailPrefix(a: seq<Out>, b: seq<Out>, to: Bytes, me: Bytes)
    requires a <= b
    ensures Mail(a, to, me) <= Mail(b, to, me)
  {
    TakeDrop(b, |a|);
    assert b[..|a|] == a;
    MailAppend(a, b[|a|..], to, me);
  }

  /** The messages of one sender. */
  function From(ms: seq<Msg>, x: Bytes): seq<Msg> {
    if ms == [] then [] else (if ms[0].subject == x then [ms[0]] else []) + From(ms[1..], x)
  }

  lemma {:induction false} FromAppend(a: seq<Msg>, b: seq<Msg>, x: Bytes)
    ensures From(a + b, x) == From(a, x) + From(b, x)
    decreases a
  {
    if a == [] {
      assert a + b == b;
    } else {
      assert (a + b)[1..] == a[1..] + b;
      FromAppend(a[1..], b, x);
      Assoc(if a[0].subject == x then [a[0]] else [], From(a[1..], x), From(b, x));
    }
  }

  lemma FromOne(m: Msg, x: Bytes)
    ensures From([m], x) == if m.subject == x then [m] else []
  {
    assert [m][1..] == [];
  }

  /** Giving up another sender loses nothing of x. */
  lemma {:induction false} FromWithout(ms: seq<Msg>, gone: Bytes, x: Bytes)
    requires gone != x
    ensures From(Without(ms, gone), x) == From(ms, x)
    decreases ms
  {
    if ms != [] {
      FromWithout(ms[1..], gone, x);
      if ms[0].subject != gone { assert ([ms[0]] + Without(ms[1..], gone))[1..] == Without(ms[1..], gone); }
    }
  }

  lemma FromGivenUp(oldDue: seq<Msg>, oldUser: seq<Msg>, due: seq<Msg>, before: seq<Msg>, x: Bytes)
    requires GivenUp(oldDue, oldUser, due) && oldDue == before + oldUser && oldUser[0].subject != x
    ensures From(due, x) == From(oldDue, x)
  {
    assert oldDue[..|before|] == before;
    FromWithout(oldUser, oldUser[0].subject, x);
    FromAppend(before, oldUser, x);
    FromAppend(before, Without(oldUser, oldUser[0].subject), x);
  }

  /** The messages of x among those begun are user messages. */
  lemma {:induction false} FromLog(log: Log, x: Bytes)
    requires x != []
    ensures From(log.All(), x) == From(log.Of(true), x)
    decreases log
  {
    match log
    case Empty =>
    case Then(earlier, last) =>
      FromLog(earlier, x);
      FromAppend(earlier.All(), [last], x);
      FromAppend(earlier.Of(true), Part(last, true), x);
      FromOne(last, x);
      assert From(earlier.Of(true), x) + [] == From(earlier.Of(true), x);
  }

  // ---------- Messages that are what they say ----------

  /** One frame that names its sender; files come only from these users. */
  predicate Clean(m: Msg, users: set<Bytes>) {
    && IsFrame(m)
    && var f := FrameOf(m);
       match f
       case Pdu(hdr, _) => hdr.kind == MT_FILE ==> IsUser(m) && CString(hdr.subject) == m.subject && m.subject in users
       case Chunk(subject, _) => IsUser(m) && CString(subject) == m.subject
  }

  predicate AllClean(ms: seq<Msg>, users: set<Bytes>) { forall i {:trigger Clean(ms[i], users)} | 0 <= i < |ms| :: Clean(ms[i], users) }

  lemma CleanIsSendable(m: Msg, users: set<Bytes>)
    requires AllClean([m], users)
    ensures m.bytes != []
  {
    assert Clean([m][0], users);
  }

  lemma CleanAppend(a: seq<Msg>, b: seq<Msg>, users: set<Bytes>)
    ensures AllClean(a + b, users) <==> AllClean(a, users) && AllClean(b, users)
  {
    if AllClean(a + b, users) {
      forall i | 0 <= i < |a| ensures Clean(a[i], users) { assert (a + b)[i] == a[i]; }
      forall i | 0 <= i < |b| ensures Clean(b[i], users) { assert (a + b)[|a| + i] == b[i]; }
    }
  }

  lemma CleanAreFrames(ms: seq<Msg>, users: set<Bytes>)
    requires AllClean(ms, users)
    ensures AreFrames(ms)
  {
    forall i | 0 <= i < |ms| ensures IsFrame(ms[i]) { assert Clean(ms[i], users); }
  }

  lemma NoticeClean(subject: Bytes, users: set<Bytes>)
    ensures Clean(Notice(subject), users)
  {
    EncodedIsFrame(Prepare.GoneNotice(subject), []);
  }

  lemma CleanTail(ms: seq<Msg>, users: set<Bytes>)
    requires AllClean(ms, users) && ms != []
    ensures Clean(ms[0], users) && AllClean(ms[1..], users)
  {
    forall i | 0 <= i < |ms[1..]| ensures Clean(ms[1..][i], users) { assert ms[1..][i] == ms[i + 1]; }
  }

  lemma MineIsFrom(m: Msg, x: Bytes, users: set<Bytes>)
    requires Clean(m, users) && m.subject != x
    ensures x != [] ==> !Mine(FrameOf(m), x)
  {
  }

  /** Of clean messages the frames of x's transfers are those of the messages of x. */
  lemma {:induction false} OnlyFrom(ms: seq<Msg>, x: Bytes, users: set<Bytes>)
    requires AllClean(ms, users) && x != []
    ensures Only(FramesOf(ms), x) == Only(FramesOf(From(ms, x)), x)
    decreases ms
  {
    if ms != [] {
      var m, rest := ms[0], ms[1..];
      CleanTail(ms, users);
      OnlyFrom(rest, x, users);
      HeadTail(ms);
      MapHead(FrameOf, m, rest);
      OnlyOneMore(FrameOf(m), FramesOf(rest), x);
      if m.subject == x {
        MapHead(FrameOf, m, From(rest, x));
        OnlyOneMore(FrameOf(m), FramesOf(From(rest, x)), x);
      } else {
        MineIsFrom(m, x, users);
        assert [] + From(rest, x) == From(rest, x);
      }
    }
  }

  lemma StarterClean(m: Msg, users: set<Bytes>)
    requires Clean(m, users)
    ensures Starters([FrameOf(m)]) <= users
  {
    assert [FrameOf(m)][1..] == [];
  }

  lemma {:induction false} StartersClean(ms: seq<Msg>, users: set<Bytes>)
    requires AllClean(ms, users)
    ensures Starters(FramesOf(ms)) <= users
    decreases ms
  {
    if ms != [] {
      CleanTail(ms, users);
      StarterClean(ms[0], users);
      StartersClean(ms[1..], users);
      HeadTail(ms);
      MapHead(FrameOf, ms[0], ms[1..]);
      StartersHead(FrameOf(ms[0]), FramesOf(ms[1..]));
    }
  }

  lemma StartersHead(f: WireFrame, fs: seq<WireFrame>)
    ensures Starters([f] + fs) == Starters([f]) + Starters(fs)
  {
    assert ([f] + fs)[1..] == fs && [f][1..] == [];
  }

  // ---------- What a session sends to one recipient ----------

  predicate SentTo(env: Env, m: Message, to: Bytes) {
    Accepted(env, m) && m.Name() == to
  }

  function RelayedFrames(env: Env, ms: seq<Message>, to: Bytes): seq<WireFrame>
  {
    if ms == [] then []
    else (if SentTo(env, ms[0], to) then RelayMessages.Frames(env, ms[0]) else []) + RelayedFrames(env, ms[1..], to)
  }

  function FileFrames(env: Env, ms: seq<Message>, to: Bytes): seq<WireFrame>
  {
    if ms == [] then []
    else (if SentTo(env, ms[0], to) && ms[0].kind == MT_FILE then RelayMessages.Frames(env, ms[0]) else [])
         + FileFrames(env, ms[1..], to)
  }

  function MessagesOf(fs: seq<WireFrame>, me: Bytes): (ms: seq<Msg>)
    ensures |ms| == |fs|
  {
    Map((f: WireFrame) => Msg(Encode(f), me), fs)
  }

  lemma {:induction false} MailOfForwards(to: Bytes, fs: seq<WireFrame>, r: Bytes, me: Bytes)
    ensures Mail(Forwards(to, fs), r, me) == if to == r then MessagesOf(fs, me) else []
    decreases fs
  {
    if fs != [] {
      MailOfForwards(to, fs[1..], r, me);
      assert Forwards(to, fs)[1..] == Forwards(to, fs[1..]);
      HeadTail(fs);
      MapHead((f: WireFrame) => Msg(Encode(f), me), fs[0], fs[1..]);
    }
  }

  lemma MailOfReplies(env: Env, m: Message, to: Bytes)
    requires m.Valid()
    ensures Mail(Replies(env, m), to, env.me)
            == if SentTo(env, m, to) then MessagesOf(RelayMessages.Frames(env, m), env.me) else []
  {
    if Accepted(env, m) {
      MailOfForwards(m.Name(), RelayMessages.Frames(env, m), to, env.me);
      assert Replies(env, m)[1..] == Forwards(m.Name(), RelayMessages.Frames(env, m));
    } else {
      assert forall o | o in Replies(env, m) :: !o.Forward?;
      NoMail(Replies(env, m), to, env.me);
    }
  }

  lemma {:induction false} NoMail(out: seq<Out>, to: Bytes, me: Bytes)
    requires forall o | o in out :: !o.Forward?
    ensures Mail(out, to, me) == []
    decreases out
  {
    if out != [] { NoMail(out[1..], to, me); }
  }

  lemma {:induction false} MailOfSession(env: Env, ms: seq<Message>, to: Bytes)
    requires AllOrderly(env, ms)
    ensures Mail(AllReplies(env, ms), to, env.me) == MessagesOf(RelayedFrames(env, ms, to), env.me)
    decreases ms
  {
    if ms != [] {
      MailAppend(Replies(env, ms[0]), AllReplies(env, ms[1..]), to, env.me);
      MailOfReplies(env, ms[0], to);
      MailOfSession(env, ms[1..], to);
      MessagesAppend(if SentTo(env, ms[0], to) then RelayMessages.Frames(env, ms[0]) else [], RelayedFrames(env, ms[1..], to), env.me);
    }
  }

  lemma MessagesAppend(a: seq<WireFrame>, b: seq<WireFrame>, me: Bytes)
    ensures MessagesOf(a + b, me) == MessagesOf(a, me) + MessagesOf(b, me)
  {
    MapAppend((f: WireFrame) => Msg(Encode(f), me), a, b);
  }

  /** Texts are not empty. */
  predicate Texts(ms: seq<Message>) { forall i | 0 <= i < |ms| && ms[i].kind == MT_MSG :: ms[i].body != [] }

  lemma FramesClean(env: Env, m: Message, users: set<Bytes>)
    requires Accepted(env, m) && UserName(env.me) && env.me != [] && env.me in users && (m.kind == MT_MSG ==> m.body != [])
    ensures AllClean(MessagesOf(RelayMessages.Frames(env, m), env.me), users)
  {
    var fs := RelayMessages.Frames(env, m);
    NameRoundTrip(env.me, UNAME_SIZE);
    FramesCarryBody(env, m);
    forall i | 0 <= i < |fs|
      ensures Clean(MessagesOf(fs, env.me)[i], users)
    {
      assert !EmptyText(fs[i]);
      EncodedIsFrame(fs[i], env.me);
    }
  }

  lemma {:induction false} SessionClean(env: Env, ms: seq<Message>, to: Bytes, users: set<Bytes>)
    requires UserName(env.me) && env.me != [] && env.me in users && Texts(ms)
    ensures AllClean(MessagesOf(RelayedFrames(env, ms, to), env.me), users)
    decreases ms
  {
    if ms != [] {
      TextsTail(ms);
      SessionClean(env, ms[1..], to, users);
      if SentTo(env, ms[0], to) {
        FramesClean(env, ms[0], users);
        BothClean(RelayMessages.Frames(env, ms[0]), RelayedFrames(env, ms[1..], to), env.me, users);
      } else {
        assert [] + RelayedFrames(env, ms[1..], to) == RelayedFrames(env, ms[1..], to);
      }
    }
  }

  lemma TextsTail(ms: seq<Message>)
    requires Texts(ms) && ms != []
    ensures Texts(ms[1..]) && (ms[0].kind == MT_MSG ==> ms[0].body != [])
  {
    forall i | 0 <= i < |ms[1..]| && ms[1..][i].kind == MT_MSG ensures ms[1..][i].body != [] { assert ms[1..][i] == ms[i + 1]; }
  }

  lemma BothClean(a: seq<WireFrame>, b: seq<WireFrame>, me: Bytes, users: set<Bytes>)
    requires AllClean(MessagesOf(a, me), users) && AllClean(MessagesOf(b, me), users)
    ensures AllClean(MessagesOf(a + b, me), users)
  {
    MessagesAppend(a, b, me);
    CleanAppend(MessagesOf(a, me), MessagesOf(b, me), users);
  }

  lemma FramesBack(fs: seq<WireFrame>, me: Bytes)
    ensures FramesOf(MessagesOf(fs, me)) == fs
  {
    forall i | 0 <= i < |fs| ensures FrameOf(MessagesOf(fs, me)[i]) == fs[i] {
      HeadOfEncoded(fs[i], []);
      assert Encode(fs[i]) + [] == Encode(fs[i]);
    }
  }

  /** The transfers in a session are those of its files. */
  lemma {:induction false} OnlyFiles(env: Env, ms: seq<Message>, to: Bytes)
    requires UserName(env.me)
    ensures Only(RelayedFrames(env, ms, to), env.me) == FileFrames(env, ms, to)
    decreases ms
  {
    if ms != [] {
      OnlyFiles(env, ms[1..], to);
      var first := if SentTo(env, ms[0], to) then RelayMessages.Frames(env, ms[0]) else [];
      OnlyAppend(first, RelayedFrames(env, ms[1..], to), env.me);
      if SentTo(env, ms[0], to) {
        if ms[0].kind == MT_FILE { OnlyOfFile(env, ms[0]); } else { OnlyOfText(env, ms[0]); }
      }
    }
  }

  lemma OnlyOfFile(env: Env, m: Message)
    requires Accepted(env, m) && m.kind == MT_FILE && UserName(env.me)
    ensures Only(RelayMessages.Frames(env, m), env.me) == RelayMessages.Frames(env, m)
  {
    FramesAreMine(env, m);
    var fs := RelayMessages.Frames(env, m);
    forall i | 0 <= i < |fs| ensures Mine(fs[i], env.me) {
      if i > 0 { assert fs[i] == fs[1..][i - 1]; }
    }
    OnlyAll(fs, env.me);
  }

  lemma {:induction false} OnlyAll(fs: seq<WireFrame>, x: Bytes)
    requires forall i | 0 <= i < |fs| :: Mine(fs[i], x)
    ensures Only(fs, x) == fs
    decreases fs
  {
    if fs != [] {
      forall i | 0 <= i < |fs[1..]| ensures Mine(fs[1..][i], x) { assert fs[1..][i] == fs[i + 1]; }
      OnlyAll(fs[1..], x);
      HeadTail(fs);
    }
  }

  lemma OnlyOfText(env: Env, m: Message)
    requires Accepted(env, m) && m.kind == MT_MSG
    ensures Only(RelayMessages.Frames(env, m), env.me) == []
  {
    assert m.body[Min(|m.body|, PDU_BUF_SIZE)..] == [];
    OnlyOneMore(FirstPdu(env, m), [], env.me);
    assert [FirstPdu(env, m)] + [] == [FirstPdu(env, m)];
  }

  lemma {:induction false} FilesSplit(env: Env, ms: seq<Message>, to: Bytes, i: nat)
    requires i < |ms| && SentTo(env, ms[i], to) && ms[i].kind == MT_FILE
    ensures FileFrames(env, ms, to)
            == FileFrames(env, ms[..i], to) + (RelayMessages.Frames(env, ms[i]) + FileFrames(env, ms[i + 1..], to))
    decreases i
  {
    if i == 0 {
      assert ms[..0] == [] && [] + FileFrames(env, ms, to) == FileFrames(env, ms, to);
    } else {
      FilesSplit(env, ms[1..], to, i - 1);
      assert ms[1..][..i - 1] == ms[..i][1..] && ms[1..][i..] == ms[i + 1..];
      var first := if SentTo(env, ms[0], to) && ms[0].kind == MT_FILE then RelayMessages.Frames(env, ms[0]) else [];
      Assoc(first, FileFrames(env, ms[..i][1..], to), RelayMessages.Frames(env, ms[i]) + FileFrames(env, ms[i + 1..], to));
    }
  }

  // ---------- From the relay to the recipient ----------

  /** What the relay has put out stays so. */
  lemma DispatchGrows(env: Env, s: Rx)
    requires |s.buf| >= HDR_SIZE
    ensures s.out <= Dispatch(env, s).out
  {
    assert s.out <= s.Emit(Respond(Validate(env, s.buf, s.dest))).out;
  }

  lemma SettlePduGrows(env: Env, s: Rx)
    requires |s.buf| >= HDR_SIZE
    ensures s.out <= SettlePdu(env, s).out
  {
    if SettlePdu(env, s) != s { DispatchGrows(env, s); }
  }

  lemma SettleChunkGrows(env: Env, s: Rx)
    ensures s.out <= SettleChunk(env, s).out
  {
  }

  lemma HeaderByteGrows(env: Env, s: Rx, b: bv8)
    requires !s.chunking && |s.buf| < HDR_SIZE
    ensures s.out <= Feed(env, s, b).out
  {
    if |s.buf| + 1 == HDR_SIZE { SettlePduGrows(env, TakeHeader(s.(buf := s.buf + [b]))); }
  }

  lemma PayloadByteGrows(env: Env, s: Rx, b: bv8)
    requires !s.chunking && |s.buf| >= HDR_SIZE
    ensures s.out <= Feed(env, s, b).out
  {
    SettlePduGrows(env, s.(buf := s.buf + [b], received := s.received + 1));
  }

  lemma FeedGrows(env: Env, s: Rx, b: bv8)
    ensures s.out <= Feed(env, s, b).out
  {
    if s.chunking {
      SettleChunkGrows(env, s.(buf := s.buf + [b], received := s.received + 1));
    } else if |s.buf| < HDR_SIZE {
      HeaderByteGrows(env, s, b);
    } else {
      PayloadByteGrows(env, s, b);
    }
  }

  lemma {:induction false} OutGrows(env: Env, s: Rx, bytes: Bytes)
    ensures s.out <= FeedAll(env, s, bytes).out
    decreases bytes
  {
    if bytes != [] {
      FeedGrows(env, s, bytes[0]);
      OutGrows(env, Feed(env, s, bytes[0]), bytes[1..]);
      Transitive(s.out, Feed(env, s, bytes[0]).out, FeedAll(env, s, bytes).out);
    }
  }

  /** If the messages begun hold, of this sender, only what the relay has put out, the frames delivered of its
      transfers are a part of its files. */
  lemma DeliveredOfFiles(env: Env, ms: seq<Message>, to: Bytes, users: set<Bytes>, out: seq<Out>,
                         begun: seq<Msg>, delivered: seq<WireFrame>)
    requires AllOrderly(env, ms) && Texts(ms) && UserName(env.me) && env.me != [] && env.me in users
    requires out <= AllReplies(env, ms) && AllClean(begun, users) && From(begun, env.me) <= Mail(out, to, env.me)
    requires delivered <= FramesOf(begun)
    ensures Only(delivered, env.me) <= FileFrames(env, ms, to) && Starters(delivered) <= users
    ensures out == AllReplies(env, ms) && From(begun, env.me) == Mail(out, to, env.me) && delivered == FramesOf(begun)
            ==> Only(delivered, env.me) == FileFrames(env, ms, to)
  {
    var x, all := env.me, RelayedFrames(env, ms, to);
    MailPrefix(out, AllReplies(env, ms), to, x);
    MailOfSession(env, ms, to);
    OnlyFrom(begun, x, users);
    FramesBack(all, x);
    Transitive(From(begun, x), Mail(out, to, x), MessagesOf(all, x));
    FramesPrefix(From(begun, x), MessagesOf(all, x));
    OnlyPrefix(delivered, FramesOf(begun), x);
    OnlyPrefix(FramesOf(From(begun, x)), all, x);
    OnlyFiles(env, ms, to);
    StartersClean(begun, users);
    assert FramesOf(begun)[..|delivered|] == delivered;
    StartersPrefix(FramesOf(begun), |delivered|);
  }

  lemma MailNext(out: seq<Out>, i: nat, to: Bytes, me: Bytes)
    requires i < |out|
    ensures Mail(out[..i + 1], to, me) == Mail(out[..i], to, me) + Posted(out[i], to, me)
  {
    assert out[..i + 1] == out[..i] + [out[i]];
    MailAppend(out[..i], [out[i]], to, me);
    assert [out[i]][1..] == [];
    assert Posted(out[i], to, me) + [] == Posted(out[i], to, me);
  }

  lemma PrefixClean(a: seq<Msg>, b: seq<Msg>, users: set<Bytes>)
    requires a <= b && AllClean(b, users)
    ensures AllClean(a, users)
  {
    forall i | 0 <= i < |a| ensures Clean(a[i], users) { assert a[i] == b[i]; }
  }

  /** All that the relay puts out for the recipient is clean. */
  lemma MailClean(env: Env, ms: seq<Message>, to: Bytes, users: set<Bytes>, out: seq<Out>)
    requires AllOrderly(env, ms) && Texts(ms) && UserName(env.me) && env.me != [] && env.me in users
    requires out <= AllReplies(env, ms)
    ensures AllClean(Mail(out, to, env.me), users)
  {
    MailPrefix(out, AllReplies(env, ms), to, env.me);
    MailOfSession(env, ms, to);
    SessionClean(env, ms, to, users);
    PrefixClean(Mail(out, to, env.me), MessagesOf(RelayedFrames(env, ms, to), env.me), users);
  }

  lemma NextClean(out: seq<Out>, i: nat, to: Bytes, me: Bytes, users: set<Bytes>)
    requires i < |out| && AllClean(Mail(out, to, me), users)
    ensures AllClean(Posted(out[i], to, me), users)
  {
    MailNext(out, i, to, me);
    MailPrefix(out[..i + 1], out, to, me);
    PrefixClean(Mail(out[..i + 1], to, me), Mail(out, to, me), users);
    CleanAppend(Mail(out[..i], to, me), Posted(out[i], to, me), users);
  }

  // ---------- The recipient's queues ----------

  lemma {:induction false} LogClean(log: Log, users: set<Bytes>)
    requires AllClean(log.Of(true), users) && AllClean(log.Of(false), users)
    ensures AllClean(log.All(), users)
    decreases log
  {
    match log
    case Empty =>
    case Then(earlier, last) =>
      CleanAppend(earlier.Of(true), Part(last, true), users);
      CleanAppend(earlier.Of(false), Part(last, false), users);
      LogClean(earlier, users);
      if IsUser(last) { assert Part(last, true)[0] == last; } else { assert Part(last, false)[0] == last; }
      CleanAppend(earlier.All(), [last], users);
  }

  /** What a connected client's side holds when all that is due to it is clean. */
  lemma LinkCarries(c: StdClient, users: set<Bytes>, x: Bytes)
    requires c.Valid() && c.connected && AllClean(c.dueUser, users) && AllClean(c.dueCtrl, users) && x != []
    ensures AllClean(c.Begun(), users) && AreFrames(c.Begun()) && Harmless(FramesOf(c.Begun()))
    ensures c.wire <= EncodeAll(FramesOf(c.Begun()))
    ensures From(c.Begun(), x) <= From(c.dueUser, x)
    ensures c.inFlight.None? && c.user == [] ==> From(c.Begun(), x) == From(c.dueUser, x) && c.wire == EncodeAll(FramesOf(c.Begun()))
  {
    CleanAppend(c.Share(true), c.user, users);
    CleanAppend(c.Share(false), c.ctrl, users);
    BegunClean(c, users);
    CleanAreFrames(c.Begun(), users);
    FramesHarmless(c.Begun());
    WireIsBegun(c);
    BegunFrom(c, x);
    FromAppend(c.Share(true), c.user, x);
    assert c.Share(true) + [] == c.Share(true);
  }

  lemma BegunClean(c: StdClient, users: set<Bytes>)
    requires AllClean(c.Share(true), users) && AllClean(c.Share(false), users)
    ensures AllClean(c.Begun(), users)
  {
    if c.inFlight.Some? {
      var m := c.inFlight.value;
      CleanAppend(c.whole.Of(true), Part(m, true), users);
      CleanAppend(c.whole.Of(false), Part(m, false), users);
      if IsUser(m) { assert Part(m, true)[0] == m; } else { assert Part(m, false)[0] == m; }
      LogClean(c.whole, users);
      CleanAppend(c.whole.All(), [m], users);
    } else {
      LogClean(c.whole, users);
    }
  }

  lemma BegunFrom(c: StdClient, x: Bytes)
    requires x != []
    ensures From(c.Begun(), x) == From(c.Share(true), x)
  {
    FromLog(c.whole, x);
    if c.inFlight.Some? {
      var m := c.inFlight.value;
      FromAppend(c.whole.All(), [m], x);
      FromAppend(c.whole.Of(true), Part(m, true), x);
      FromOne(m, x);
      assert From(c.whole.Of(true), x) + [] == From(c.whole.Of(true), x);
    }
  }

  lemma CleanWithout(ms: seq<Msg>, gone: Bytes, users: set<Bytes>)
    requires AllClean(ms, users)
    ensures AllClean(Without(ms, gone), users)
  {
    var kept := Without(ms, gone);
    WithoutMembers(ms, gone);
    forall i | 0 <= i < |kept| ensures Clean(kept[i], users) { assert kept[i] in ms; }
  }

  /** When the next user message is served, or its sender given up, nothing of a sender who is there changes. */
  lemma ServedKeeps(online: set<Bytes>, oldDue: seq<Msg>, oldUser: seq<Msg>, oldCtrl: seq<Msg>, due: seq<Msg>, ctrl: seq<Msg>,
                    before: seq<Msg>, users: set<Bytes>, x: Bytes)
    requires NextServed(online, oldDue, oldUser, oldCtrl, due, ctrl) && oldDue == before + oldUser && x in online
    requires AllClean(oldDue, users) && AllClean(oldCtrl, users)
    ensures AllClean(due, users) && AllClean(ctrl, users) && From(due, x) == From(oldDue, x)
  {
    var gone := oldUser[0].subject;
    if gone !in online {
      CleanAppend(before, oldUser, users);
      CleanWithout(oldUser, gone, users);
      assert oldDue[..|before|] == before;
      CleanAppend(before, Without(oldUser, gone), users);
      FromGivenUp(oldDue, oldUser, due, before, x);
      OneMoreNotice(oldCtrl, gone, users);
    }
  }

  lemma OneMoreNotice(ctrl: seq<Msg>, gone: Bytes, users: set<Bytes>)
    requires AllClean(ctrl, users)
    ensures AllClean(ctrl + [Notice(gone)], users)
  {
    NoticeClean(gone, users);
    CleanAppend(ctrl, [Notice(gone)], users);
  }
}
