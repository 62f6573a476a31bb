/** A sender's session, the relay, the queues of one recipient and the recipient's client, together: any
    interleaving of their events, with any other traffic. */
module Conversation {
  import opened ByteStrings
  import opened Lwmp
  import opened Network
  import opened Relay
  import opened RelayMessages
  import opened ServerInbound
  import opened FrameStream
  import opened Transfers
  import opened ClientReceive
  import opened Outbound
  import opened Delivery
  import opened EndToEnd
  import opened Mailing
  import Addressing
  import Rounds

  /** What happens on the recipient's side of the relay; the users given are those who are online. */
  datatype Event = Answered(m: Msg) | Writable(online: set<Bytes>) | QueueReady(online: set<Bytes>)

  class Path {
    const server: Inbound      // the sender's connection, as the relay sees it
    const link: StdClient      // the recipient's side of the relay
    const client: Client       // the recipient
    const to: Bytes            // the recipient's name
    const users: set<Bytes>    // everybody who may send it files
    ghost const ms: seq<Message>
    ghost var taken: Bytes         // what the relay has read of the session
    ghost var begun: seq<Msg>      // the messages begun while the link was up
    ghost var sent: Bytes          // the bytes that have gone to the client

    function Me(): Bytes { server.env.me }

    /** The session: orderly messages, no empty texts, from one of at most eight users. */
    ghost predicate Given() {
      && AllOrderly(server.env, ms) && Texts(ms)
      && UserName(Me()) && Me() != [] && Me() in users && |users| <= MAX_ACTIVE_TRANSFERS
      && server.sock != client.sock && server.recvBuf != client.recvBuf
    }

    ghost predicate ServerOk()
      reads this`taken, server, server.recvBuf, server.sock
    {
      server.Valid() && server.Serving(ms, taken)
    }

    /** What is due to the recipient is clean, and of this sender it is what the relay has put out for it. */
    ghost predicate LinkOk(mail: seq<Msg>)
      reads link
    {
      && link.Valid()
      && (link.connected ==>
            && AllClean(link.dueUser, users) && AllClean(link.dueCtrl, users)
            && From(link.dueUser, Me()) == mail)
    }

    /** What has gone to the client. */
    ghost predicate Gone(mail: seq<Msg>)
      reads this`begun, this`sent, link`connected, link`inFlight, link`whole, link`wire
    {
      && AllClean(begun, users) && Harmless(FramesOf(begun)) && From(begun, Me()) <= mail
      && (link.connected ==> begun == link.Begun() && sent == link.wire)
    }

    ghost predicate ClientOk()
      reads this`begun, this`sent, client, client.recvBuf, client.sock
    {
      && client.Valid()
      && (client.connected ==> client.Box() == AcceptAll(EmptyInbox(), client.delivered) && client.InSync(FramesOf(begun), sent))
    }

    ghost predicate Valid()
      reads this, server, server.recvBuf, server.sock, link, client, client.recvBuf, client.sock
    {
      Given() && ServerOk() && LinkOk(Mail(server.out, to, Me())) && Gone(Mail(server.out, to, Me())) && ClientOk()
    }

    constructor (server: Inbound, link: StdClient, client: Client, to: Bytes, users: set<Bytes>, ghost ms: seq<Message>)
      requires AllOrderly(server.env, ms) && Texts(ms)
      requires UserName(server.env.me) && server.env.me != [] && server.env.me in users && |users| <= MAX_ACTIVE_TRANSFERS
      requires server.sock != client.sock && server.recvBuf != client.recvBuf
      requires server.Valid() && server.State() == Start && server.sock.incoming == StreamOf(server.env, ms)
      requires link.Valid() && link.connected && link.dueUser == [] && link.dueCtrl == [] && link.wire == [] && link.Begun() == []
      requires client.Valid() && client.connected && client.recvLen == 0 && client.delivered == []
      requires client.Box() == EmptyInbox() && client.sock.incoming == []
      ensures Valid() && this.server == server && this.link == link && this.client == client
      ensures this.to == to && this.users == users && this.ms == ms
    {
      this.server, this.link, this.client, this.to, this.users, this.ms := server, link, client, to, users, ms;
      taken, begun, sent := [], [], [];
      new;
      StartsServer();
      StartsClient();
    }

    lemma StartsServer()
      requires server.Valid() && server.State() == Start && AllOrderly(server.env, ms)
      requires server.sock.incoming == StreamOf(server.env, ms) && taken == []
      ensures ServerOk() && server.out == [] && Mail(server.out, to, Me()) == []
    {
      assert [] + server.sock.incoming == server.sock.incoming;
    }

    lemma StartsClient()
      requires client.Valid() && client.connected && client.recvLen == 0 && client.delivered == []
      requires client.Box() == EmptyInbox() && client.sock.incoming == [] && begun == [] && sent == []
      ensures ClientOk()
    {
      assert FramesOf([]) == [] && EncodeAll([]) == [];
      Rounds.FreshSynced([], []);
      assert client.Buffered() == [];
    }

    // ---------- The relay ----------

    lemma ServerOutput()
      requires Given() && ServerOk()
      ensures server.out <= AllReplies(server.env, ms)
      ensures server.sock.incoming == [] ==> server.out == AllReplies(server.env, ms)
    {
      var env := server.env;
      SessionRelayed(env, ms, []);
      assert [] + AllReplies(env, ms) == AllReplies(env, ms);
      FeedAppend(env, Start, taken, server.sock.incoming);
      OutGrows(env, FeedAll(env, Start, taken), server.sock.incoming);
      server.ServingIsAlive(ms, taken);
    }

    /** The relay reads on, and hands over what it puts out. */
    method ServerTurn()
      requires Valid()
      modifies server, server.recvBuf, server.sock, link`user, link`dueUser, this`taken
      ensures Valid()
      ensures server.sock.asks > old(server.sock.asks) || |server.out| > |old(server.out)|
    {
      RelayTurn();
    }

    method RelayTurn()
      requires Given() && ServerOk() && LinkOk(Mail(server.out, to, Me())) && Gone(Mail(server.out, to, Me()))
      modifies server, server.recvBuf, server.sock, link`user, link`dueUser, this`taken
      ensures ServerOk() && LinkOk(Mail(server.out, to, Me())) && Gone(Mail(server.out, to, Me()))
      ensures server.sock.asks > old(server.sock.asks) || |server.out| > |old(server.out)|
    {
      ghost var was := server.out;
      ReadAndPost();
      StillGone(was);
    }

    lemma StillGone(was: seq<Out>)
      requires Gone(Mail(was, to, Me())) && was <= server.out
      ensures Gone(Mail(server.out, to, Me()))
    {
      MailPrefix(was, server.out, to, Me());
      Transitive(From(begun, Me()), Mail(was, to, Me()), Mail(server.out, to, Me()));
    }

    method ReadAndPost()
      requires Given() && ServerOk() && LinkOk(Mail(server.out, to, Me()))
      modifies server, server.recvBuf, server.sock, link`user, link`dueUser, this`taken
      ensures ServerOk() && LinkOk(Mail(server.out, to, Me())) && old(server.out) <= server.out
      ensures server.sock.asks > old(server.sock.asks) || |server.out| > |old(server.out)|
    {
      var n := |server.out|;
      ghost var was := server.out;
      var v;
      v, taken := ServerReads();
      assert server.out[..n] == was;
      ServerOutput();
      MailClean(server.env, ms, to, users, server.out);
      Post(n);
    }

    method ServerReads() returns (v: Verdict, ghost now: Bytes)
      requires Given() && ServerOk()
      modifies server, server.recvBuf, server.sock
      ensures server.Valid() && server.Serving(ms, now) && old(server.out) <= server.out
      ensures server.sock.asks > old(server.sock.asks) || |server.out| > |old(server.out)|
    {
      ghost var was := server.State();
      ghost var before := taken;
      v, now := server.ServeReadable(ms, taken);
      OutputGrows(before, now);
    }

    lemma OutputGrows(before: Bytes, now: Bytes)
      requires before <= now
      ensures FeedAll(server.env, Start, before).out <= FeedAll(server.env, Start, now).out
    {
      TakeDrop(now, |before|);
      assert now[..|before|] == before;
      FeedAppend(server.env, Start, before, now[|before|..]);
      OutGrows(server.env, FeedAll(server.env, Start, before), now[|before|..]);
    }

    /** mpscq_enqueue of what is for the recipient, in order. */
    method Post(n: nat)
      requires n <= |server.out| && Me() != [] && AllClean(Mail(server.out, to, Me()), users)
      requires LinkOk(Mail(server.out[..n], to, Me()))
      modifies link`user, link`dueUser
      ensures LinkOk(Mail(server.out, to, Me()))
    {
      var i := n;
      while i < |server.out|
        invariant n <= i <= |server.out| && LinkOk(Mail(server.out[..i], to, Me()))
      {
        PostNext(i);
        i := i + 1;
      }
      assert server.out[..i] == server.out;
    }

    method PostNext(i: nat)
      requires i < |server.out| && Me() != [] && AllClean(Mail(server.out, to, Me()), users)
      requires LinkOk(Mail(server.out[..i], to, Me()))
      modifies link`user, link`dueUser
      ensures LinkOk(Mail(server.out[..i + 1], to, Me()))
    {
      MailNext(server.out, i, to, Me());
      NextClean(server.out, i, to, Me(), users);
      PostOne(server.out[i], Mail(server.out[..i], to, Me()));
    }

    method PostOne(o: Out, ghost mail: seq<Msg>)
      requires LinkOk(mail) && Me() != [] && AllClean(Posted(o, to, Me()), users)
      modifies link`user, link`dueUser
      ensures LinkOk(mail + Posted(o, to, Me()))
    {
      if o.Forward? && o.to == to {
        var m := Msg(o.msg, Me());
        assert Posted(o, to, Me())[0] == m;
        Enqueue(m, mail);
      } else {
        assert mail + [] == mail;
      }
    }

    /** A message joins the user queue of the recipient. */
    method Enqueue(m: Msg, ghost mail: seq<Msg>)
      requires LinkOk(mail) && AllClean([m], users) && IsUser(m)
      modifies link`user, link`dueUser
      ensures LinkOk(if m.subject == Me() then mail + [m] else mail)
    {
      CleanAppend(link.dueUser, [m], users);
      FromAppend(link.dueUser, [m], Me());
      FromOne(m, Me());
      assert mail + [] == mail;
      CleanIsSendable(m, users);
      link.EnqueueUser(m);
    }

    // ---------- Everybody else ----------

    /** Somebody else's message joins the user queue. */
    method OthersSend()
      requires Valid()
      modifies link`user, link`dueUser
      ensures Valid()
    {
      var m: Msg := *;
      if AllClean([m], users) && IsUser(m) && m.subject != Me() { Enqueue(m, Mail(server.out, to, Me())); }
    }

    // ---------- The recipient's side of the relay ----------

    /** What holds right after an event there, before its bytes have reached the client. */
    ghost predicate Ahead()
      reads this, server, server.recvBuf, server.sock, link, client, client.recvBuf, client.sock
    {
      && Given() && ServerOk() && LinkOk(Mail(server.out, to, Me())) && ClientOk()
      && AllClean(begun, users) && Harmless(FramesOf(begun)) && From(begun, Me()) <= Mail(server.out, to, Me())
      && (link.connected ==> begun <= link.Begun() && sent <= link.wire)
    }

    lemma ClientFollows()
      requires Ahead() && link.connected && client.connected
      ensures Rounds.Synced(FramesOf(link.Begun()), link.wire, client.delivered, client.Buffered(),
                            client.sock.incoming + link.wire[|sent|..])
    {
      LinkCarries(link, users, Me());
      FramesPrefix(begun, link.Begun());
      Rounds.SyncedGrows(FramesOf(begun), sent, client.delivered, client.Buffered(), client.sock.incoming,
                         FramesOf(link.Begun()), link.wire);
    }

    /** Bytes reach the client. */
    method Hand(data: Bytes, ghost more: seq<Msg>, ghost later: Bytes)
      requires client.Valid()
      requires client.connected ==>
                 && client.Box() == AcceptAll(EmptyInbox(), client.delivered)
                 && Rounds.Synced(FramesOf(more), later, client.delivered, client.Buffered(), client.sock.incoming + data)
      modifies this`begun, this`sent, client.sock
      ensures ClientOk() && begun == more && sent == later
    {
      begun, sent := more, later;
      client.sock.Arrive(data);
    }

    /** What has been sent reaches the client. */
    method Deliver(n: nat)
      requires Ahead() && n == |sent|
      modifies this`begun, this`sent, client.sock
      ensures Valid()
    {
      if !link.connected { return; }
      LinkCarries(link, users, Me());
      if client.connected { ClientFollows(); }
      Hand(link.wire[n..], link.Begun(), link.wire);
    }

    /** The relay has an answer or a notice for the recipient itself. */
    method AnswerTurn(m: Msg, ghost mail: seq<Msg>)
      requires LinkOk(mail) && link.connected && AllClean([m], users) && !IsUser(m)
      modifies link
      ensures LinkOk(mail) && old(link.Begun()) <= link.Begun() && old(link.wire) <= link.wire
      ensures link.connected ==> link.dueCtrl == old(link.dueCtrl) + [m]
    {
      CleanAppend(link.dueCtrl, [m], users);
      CleanIsSendable(m, users);
      link.ServeResponse(m);
    }

    method WritableTurn(online: set<Bytes>, ghost mail: seq<Msg>)
      requires LinkOk(mail) && link.connected && link.watchOut
      modifies link
      ensures LinkOk(mail) && old(link.Begun()) <= link.Begun() && old(link.wire) <= link.wire
      ensures link.connected ==> Went() && (link.inFlight.None? ==> link.ctrl == [])
    {
      NoticesClean(online);
      link.SocketWritable(online);
    }

    lemma NoticesClean(online: set<Bytes>)
      requires AllClean(link.dueCtrl, users)
      ensures AllClean(link.AfterNotice(online), users)
    {
      if link.SenderGone(online) { OneMoreNotice(link.dueCtrl, link.inFlight.value.subject, users); }
    }

    /** Somebody may have gone, but the sender is there. */
    method QueueTurn(online: set<Bytes>, ghost mail: seq<Msg>)
      requires LinkOk(mail) && link.connected && link.watchUser && Me() in online
      modifies link
      ensures LinkOk(mail) && old(link.Begun()) <= link.Begun() && old(link.wire) <= link.wire
      ensures link.connected ==> Went()
      ensures link.connected && link.inFlight.None? ==> link.ctrl == [] && (old(link.user) != [] ==> |link.user| < |old(link.user)|)
    {
      ghost var due, user, before, ctrl := link.dueUser, link.user, link.Share(true), link.AfterNotice(online);
      NoticesClean(online);
      link.UserQueueReadable(online);
      if link.connected && NextServed(online, due, user, ctrl, link.dueUser, link.dueCtrl) {
        ServedKeeps(online, due, user, ctrl, link.dueUser, link.dueCtrl, before, users, Me());
      }
    }

    /** An event that epoll reports, or an answer that is due. */
    predicate Possible(event: Event)
      reads link`watchOut, link`watchUser
    {
      match event
      case Answered(m) => AllClean([m], users) && !IsUser(m)
      case Writable(_) => link.watchOut
      case QueueReady(online) => link.watchUser && Me() in online
    }

    method LinkEvent(event: Event, ghost mail: seq<Msg>)
      requires LinkOk(mail) && link.connected && Possible(event)
      modifies link
      ensures LinkOk(mail) && old(link.Begun()) <= link.Begun() && old(link.wire) <= link.wire
      ensures Moved(event)
    {
      match event
      case Answered(m) => AnswerTurn(m, mail);
      case Writable(online) => WritableTurn(online, mail);
      case QueueReady(online) => QueueTurn(online, mail);
    }

    /** What such an event brings about: a message is left in flight only because the socket, asked again, took
        nothing; otherwise the control queue has gone out, and a user message if there was one. */
    twostate predicate Moved(event: Event)
      reads link`connected, link`inFlight, link`ctrl, link`user, link`dueCtrl, link`tries, link`pushedBack
    {
      link.connected ==>
        match event
        case Answered(m) => link.dueCtrl == old(link.dueCtrl) + [m]
        case Writable(_) => Went() && (link.inFlight.None? ==> link.ctrl == [])
        case QueueReady(_) => Went() && (link.inFlight.None? ==> link.ctrl == [] && (old(link.user) != [] ==> |link.user| < |old(link.user)|))
    }

    twostate predicate Went()
      reads link`inFlight, link`tries, link`pushedBack
    {
      link.inFlight.Some? ==> link.tries > old(link.tries) && link.pushedBack
    }

    method LinkTurn(event: Event)
      requires Valid() && link.connected && Possible(event)
      modifies link, this`begun, this`sent, client.sock
      ensures Valid() && Moved(event)
    {
      var n := LinkGoes(event);
      Deliver(n);
    }

    method LinkGoes(event: Event) returns (n: nat)
      requires Valid() && link.connected && Possible(event)
      modifies link
      ensures Ahead() && n == |sent| && Moved(event)
    {
      n := |link.wire|;
      LinkEvent(event, Mail(server.out, to, Me()));
    }

    // ---------- The recipient ----------

    method ClientTurn()
      requires Valid()
      modifies client, client.recvBuf, client.sock
      ensures Valid() && (old(client.connected) ==> client.sock.asks > old(client.sock.asks) || old(client.recvLen) == Rounds.RECV_BUF_SIZE)
    {
      if client.connected { ClientReads(); }
    }

    method ClientReads()
      requires ClientOk() && client.connected
      modifies client, client.recvBuf, client.sock
      ensures ClientOk() && (client.sock.asks > old(client.sock.asks) || old(client.recvLen) == Rounds.RECV_BUF_SIZE)
    {
      ghost var l := client.OnLine();
      ghost var log := client.delivered;
      ghost var want := client.HandleSocketData(FramesOf(begun), sent);
      if client.connected { AcceptAllAppend(EmptyInbox(), log, Rounds.Round(l, want).frames); }
    }

    // ---------- Whole runs ----------

    /** Nothing is on the way any more: the session has been read, the recipient's queue is empty, all that was
        sent has been read. */
    ghost predicate Quiet()
      reads server.sock, link, client.sock
    {
      server.sock.incoming == [] && link.connected && link.inFlight.None? && link.user == [] && client.sock.incoming == []
    }

    lemma DeliveredIsBegun()
      requires Valid() && client.connected
      ensures Only(client.delivered, Me()) <= FileFrames(server.env, ms, to) && Starters(client.delivered) <= users
      ensures Quiet() ==> Only(client.delivered, Me()) == FileFrames(server.env, ms, to)
    {
      ServerOutput();
      if Quiet() { QuietDelivered(Mail(server.out, to, Me())); }
      DeliveredOfFiles(server.env, ms, to, users, server.out, begun, client.delivered);
    }

    lemma QuietDelivered(mail: seq<Msg>)
      requires Quiet() && LinkOk(mail) && Gone(mail) && ClientOk() && client.connected && Me() != []
      ensures client.delivered == FramesOf(begun) && From(begun, Me()) == mail
    {
      LinkCarries(link, users, Me());
      Rounds.AllArrived(FramesOf(begun), client.delivered, client.Buffered());
    }

    /** The file that is message number i. */
    ghost predicate IsFile(i: nat) { i < |ms| && SentTo(server.env, ms[i], to) && ms[i].kind == MT_FILE }

    ghost function Before(i: nat): seq<WireFrame>
      requires i <= |ms|
    {
      FileFrames(server.env, ms[..i], to)
    }

    /** The frames of that file which the client has handled. */
    ghost function Come(i: nat): seq<WireFrame>
      requires IsFile(i) && |Before(i)| <= |Only(client.delivered, Me())|
      reads client`delivered
    {
      PartOf(client.delivered, server.env, Before(i), ms[i])
    }

    /** As soon as the first frame of a file has been handled, the client has a file of this sender with exactly
        what has come of it, which is a prefix of what was sent; it is closed when that is all of it, and not
        before. */
    ghost predicate SoFar(i: nat)
      requires IsFile(i)
      reads client
    {
      |Only(client.delivered, Me())| > |Before(i)| ==>
        var got := Payloads(Come(i));
        got <= ms[i].body && RxFile(Me(), got, got != ms[i].body) in client.files
    }

    lemma FileArrives(i: nat)
      requires Valid() && client.connected && IsFile(i)
      ensures SoFar(i)
      ensures Quiet() ==> RxFile(Me(), ms[i].body, false) in client.files
    {
      var env, fs, x := server.env, client.delivered, Me();
      var a, f, c := Before(i), RelayMessages.Frames(env, ms[i]), FileFrames(env, ms[i + 1..], to);
      DeliveredIsBegun();
      FilesSplit(env, ms, to, i);
      EmptyWithin(users);
      if |Only(fs, x)| > |a| { NthFileArrives(env, EmptyInbox(), users, a, ms[i], c, fs); }
      assert |a + (f + c)| >= |a| + |f| > |a|;
    }

    /** Any interleaving of the events of the relay, of the recipient's side, of the client and of everybody
        else, with any fragmentation and push-back on both connections. */
    method Run(events: nat)
      requires Valid()
      modifies this`taken, this`begun, this`sent, server, server.recvBuf, server.sock, link, client, client.recvBuf, client.sock
      ensures Valid()
      ensures client.connected ==> forall i: nat | IsFile(i) :: SoFar(i)
      ensures client.connected && Quiet() ==> forall i: nat | IsFile(i) :: RxFile(Me(), ms[i].body, false) in client.files
    {
      var k := 0;
      while k < events
        invariant Valid()
      {
        var event: Event := *;
        if {
          case true => ServerTurn();
          case true => OthersSend();
          case link.connected && Possible(event) => LinkTurn(event);
          case true => ClientTurn();
        }
        k := k + 1;
      }
      if client.connected {
        forall i: nat | IsFile(i)
          ensures SoFar(i) && (Quiet() ==> RxFile(Me(), ms[i].body, false) in client.files)
        {
          FileArrives(i);
        }
      }
    }
  }

  /** Sender, relay and recipient as they are when both have just logged in. */
  method Connect(env: Env, to: Bytes, users: set<Bytes>, ms: seq<Message>) returns (p: Path)
    requires AllOrderly(env, ms) && Texts(ms)
    requires UserName(env.me) && env.me != [] && env.me in users && |users| <= MAX_ACTIVE_TRANSFERS
    ensures p.Valid() && p.server.env == env && p.ms == ms && p.to == to && p.client.connected
    ensures fresh(p) && fresh(p.server) && fresh(p.server.recvBuf) && fresh(p.server.sock) && fresh(p.link)
    ensures fresh(p.client) && fresh(p.client.recvBuf) && fresh(p.client.sock)
  {
    var up := new Socket(StreamOf(env, ms));
    var down := new Socket([]);
    var server := new Inbound(env, up);
    var link := new StdClient();
    var client := new Client(down);
    p := new Path(server, link, client, to, users, ms);
  }

  /** End to end: whatever the events since both logged in, every file of the session is so far exactly what has
      come of it, and complete and closed when nothing is on the way any more. */
  method Converse(env: Env, to: Bytes, users: set<Bytes>, ms: seq<Message>, events: nat) returns (p: Path)
    requires forall i | 0 <= i < |ms| :: Orderly(env, ms[i])
    requires forall i | 0 <= i < |ms| && ms[i].kind == MT_MSG :: ms[i].body != []
    requires 0 !in env.me && 0 < |env.me| <= 32 && env.me in users && |users| <= 8
    ensures p.server.env == env && p.ms == ms && p.to == to
    ensures p.client.connected ==> forall i: nat | p.IsFile(i) :: p.SoFar(i)
    ensures p.client.connected && p.Quiet() ==>
              forall i: nat | p.IsFile(i) :: RxFile(env.me, ms[i].body, false) in p.client.files
    ensures p.client.connected && p.Quiet() && 0 !in to && |to| <= 31 ==>
              forall i | 0 <= i < |ms| && Accepted(env, ms[i]) && ms[i].kind == MT_FILE && ms[i].to == StrNCpy(to, UNAME_SIZE) ::
                RxFile(env.me, ms[i].body, false) in p.client.files
  {
    p := Connect(env, to, users, ms);
    p.Run(events);
    if 0 !in to && |to| <= 31 {
      forall i | 0 <= i < |ms| && Accepted(env, ms[i]) && ms[i].kind == MT_FILE && ms[i].to == StrNCpy(to, UNAME_SIZE)
        ensures p.IsFile(i)
      {
        Addressing.SentToNamed(env, ms[i], to);
      }
    }
  }

  lemma EmptyWithin(users: set<Bytes>)
    ensures SendersWithin(EmptyInbox(), users)
  {
  }
}
