/** The outbound side of a connected client in server/worker.c: one message in flight, a control queue, a
    user queue, and the two epoll watches that are switched when the socket pushes back. */
module Outbound {
  import opened ByteStrings
  import Lwmp
  import Prepare

  /** A queued message; control messages carry no subject, user messages name their sender. */
  datatype Msg = Msg(bytes: Bytes, subject: Bytes)

  datatype Option<+T> = None | Some(value: T)

  datatype SendResult = Sent(n: nat) | WouldBlock | Failed

  datatype Outcome = Done | Blocked | Broken

  /** The messages that have gone out completely, in order. */
  datatype Log = Empty | Then(earlier: Log, last: Msg) {

    /** Their bytes, one message after the other. */
    function Concat(): Bytes {
      match this
      case Empty => []
      case Then(earlier, last) => earlier.Concat() + last.bytes
    }

    /** The messages themselves, in order. */
    function All(): seq<Msg> {
      match this
      case Empty => []
      case Then(earlier, last) => earlier.All() + [last]
    }

    /** The user messages among them, or the control messages. */
    function Of(users: bool): seq<Msg> {
      match this
      case Empty => []
      case Then(earlier, last) => earlier.Of(users) + Part(last, users)
    }
  }

  predicate IsUser(m: Msg) { m.subject != [] }

  function Part(m: Msg, users: bool): seq<Msg> { if IsUser(m) == users then [m] else [] }

  /** notify_about_disconnect: what is said of a sender who has gone. */
  function Notice(subject: Bytes): (m: Msg)
    ensures m.bytes != [] && !IsUser(m)
  {
    Msg(Lwmp.Encode(Prepare.GoneNotice(subject)), [])
  }

  predicate Sendable(ms: seq<Msg>) {
    forall i | 0 <= i < |ms| :: ms[i].bytes != []
  }

  /** The messages that survive a flush of one subject, in order. */
  function Without(ms: seq<Msg>, subject: Bytes): (r: seq<Msg>)
    ensures |r| <= |ms|
  {
    if ms == [] then []
    else
      var r := Without(ms[1..], subject);
      if ms[0].subject == subject then r else [ms[0]] + r
  }

  lemma {:induction false} WithoutMembers(ms: seq<Msg>, subject: Bytes)
    ensures forall m :: m in Without(ms, subject) <==> m in ms && m.subject != subject
    decreases ms
  {
    if ms != [] {
      WithoutMembers(ms[1..], subject);
      HeadTail(ms);
    }
  }

  /** Everything the first sender in the queue had pending was dropped from what is due. */
  ghost predicate GivenUp(oldDue: seq<Msg>, oldUser: seq<Msg>, due: seq<Msg>) {
    oldUser != [] && |oldUser| <= |oldDue|
    && due == oldDue[..|oldDue| - |oldUser|] + Without(oldUser, oldUser[0].subject)
  }

  /** The first user message of the queue is handed to the socket, or its sender has gone and the recipient
      is told so instead. */
  ghost predicate NextServed(online: set<Bytes>, oldDue: seq<Msg>, oldUser: seq<Msg>, oldCtrl: seq<Msg>, due: seq<Msg>, ctrl: seq<Msg>) {
    && oldUser != []
    && if oldUser[0].subject in online then due == oldDue && ctrl == oldCtrl
       else GivenUp(oldDue, oldUser, due) && ctrl == oldCtrl + [Notice(oldUser[0].subject)]
  }

  lemma GivesUp(share: seq<Msg>, queue: seq<Msg>)
    requires queue != []
    ensures GivenUp(share + queue, queue, share + Without(queue, queue[0].subject))
  {
    assert (share + queue)[..|share|] == share;
  }

  lemma WithoutUsers(queue: seq<Msg>)
    requires queue != [] && Sendable(queue) && forall i | 0 <= i < |queue| :: IsUser(queue[i])
    ensures var kept := Without(queue, queue[0].subject);
            |kept| < |queue| && Sendable(kept) && forall i | 0 <= i < |kept| :: IsUser(kept[i])
  {
    var kept := Without(queue, queue[0].subject);
    WithoutMembers(queue, queue[0].subject);
    forall i | 0 <= i < |kept|
      ensures IsUser(kept[i]) && kept[i].bytes != []
    {
      assert kept[i] in queue;
    }
  }

  /** The first message of a queue changes over from waiting to on its way. */
  lemma Handover(share: seq<Msg>, queue: seq<Msg>)
    requires queue != []
    ensures share + queue == (share + [queue[0]]) + queue[1..]
  {
  }

  class StdClient {
    var inFlight: Option<Msg>
    var offset: nat
    var ctrl: seq<Msg>
    var user: seq<Msg>
    var watchOut: bool    // EPOLLOUT on the socket
    var watchUser: bool   // EPOLLIN on the user queue's eventfd
    var connected: bool
    var wire: Bytes       // every byte the socket has accepted
    ghost var tries: nat           // how often the socket was asked to send
    ghost var pushedBack: bool     // whether it took nothing the last time
    ghost var whole: Log           // the messages that have gone out completely
    ghost var dueUser: seq<Msg>    // the user messages accepted for this client and not given up, in order
    ghost var dueCtrl: seq<Msg>    // the control messages for this client, in order

    /** Whole messages, then exactly the sent part of the one in flight. */
    ghost predicate Framed()
      reads this`inFlight, this`offset, this`ctrl, this`user, this`wire, this`whole
    {
      && Sendable(ctrl) && Sendable(user)
      && (inFlight.Some? ==> offset <= |inFlight.value.bytes| && inFlight.value.bytes != [])
      && wire == whole.Concat() + Partial()
    }

    ghost function Partial(): Bytes
      reads this`inFlight, this`offset
    {
      if inFlight.Some? && offset <= |inFlight.value.bytes| then inFlight.value.bytes[..offset] else []
    }

    /** The messages of one kind that are out, or on their way. */
    ghost function Share(users: bool): seq<Msg>
      reads this`inFlight, this`whole
    {
      if inFlight.Some? then whole.Of(users) + Part(inFlight.value, users) else whole.Of(users)
    }

    /** The messages whose sending has begun, in order. */
    ghost function Begun(): seq<Msg>
      reads this`inFlight, this`whole
    {
      if inFlight.Some? then whole.All() + [inFlight.value] else whole.All()
    }

    /** Bytes that have been sent, and messages that have been begun, stay so. */
    twostate predicate Onward()
      reads this
    {
      old(wire) <= wire && old(Begun()) <= Begun()
    }

    /** No message is lost, duplicated or overtaken by one of its own queue. */
    ghost predicate InOrder()
      reads this`inFlight, this`whole, this`user, this`ctrl, this`dueUser, this`dueCtrl
    {
      && dueUser == Share(true) + user && dueCtrl == Share(false) + ctrl
      && (forall i | 0 <= i < |user| :: IsUser(user[i]))
      && (forall i | 0 <= i < |ctrl| :: !IsUser(ctrl[i]))
    }

    /** Work is pending only if an armed event will come back to it. */
    ghost predicate Covered()
      reads this`inFlight, this`offset, this`ctrl, this`watchOut, this`watchUser
    {
      && (inFlight.Some? ==> watchOut && offset < |inFlight.value.bytes|)
      && (ctrl != [] ==> inFlight.Some?)
      && (!watchUser ==> inFlight.Some?)
    }

    /** Between two events of the client. */
    ghost predicate Valid()
      reads this
    {
      Framed() && (connected ==> InOrder() && Covered())
    }

    /** A message is left in flight only because the socket, asked again, took nothing. */
    twostate predicate Tried()
      reads this
    {
      inFlight.Some? ==> tries > old(tries) && pushedBack
    }

    constructor ()
      ensures Valid() && connected && wire == [] && dueUser == [] && dueCtrl == [] && Begun() == []
    {
      inFlight, offset, ctrl, user := None, 0, [], [];
      watchOut, watchUser, connected := false, true, true;
      wire, whole, dueUser, dueCtrl, tries, pushedBack := [], Empty, [], [], 0, false;
    }

    /** send: some of the bytes, or none now, or a broken connection. */
    method Send(data: Bytes) returns (r: SendResult)
      requires data != []
      modifies this`wire, this`tries, this`pushedBack
      ensures r.Sent? ==> 0 < r.n <= |data| && wire == old(wire) + data[..r.n]
      ensures !r.Sent? ==> wire == old(wire)
      ensures tries == old(tries) + 1 && pushedBack == r.WouldBlock?
    {
      tries, pushedBack := tries + 1, false;
      if * {
        pushedBack := true;
        return WouldBlock;
      } else if * {
        return Failed;
      }
      var n: nat :| 0 < n <= |data|;
      wire := wire + data[..n];
      return Sent(n);
    }

    /** send_one_msg, also inlined in wt_serve_response. */
    method SendOne() returns (res: Outcome)
      requires Framed() && inFlight.Some?
      modifies this`inFlight, this`offset, this`wire, this`whole, this`connected, this`tries, this`pushedBack
      ensures Framed() && Share(true) == old(Share(true)) && Share(false) == old(Share(false))
      ensures old(wire) <= wire && Begun() == old(Begun())
      ensures res.Done? ==> inFlight.None? && connected == old(connected)
      ensures res.Blocked? ==> inFlight == old(inFlight) && offset < |inFlight.value.bytes| && connected == old(connected)
      ensures res.Blocked? ==> tries > old(tries) && pushedBack
      ensures res.Broken? ==> !connected
      ensures tries >= old(tries)
    {
      var m := inFlight.value;
      while offset < |m.bytes|
        invariant Framed() && inFlight == old(inFlight) && whole == old(whole) && connected == old(connected)
        invariant tries >= old(tries) && old(wire) <= wire
        decreases |m.bytes| - offset
      {
        var r := Send(m.bytes[offset..]);
        match r {
          case Failed =>
            connected := false;
            return Broken;
          case WouldBlock => return Blocked;
          case Sent(n) =>
            assert m.bytes[..offset] + m.bytes[offset..][..n] == m.bytes[..offset + n];
            Assoc(whole.Concat(), m.bytes[..offset], m.bytes[offset..][..n]);
            offset := offset + n;
        }
      }
      assert m.bytes[..|m.bytes|] == m.bytes;
      whole := Then(whole, m);
      inFlight := None;
      offset := 0;
      assert wire == whole.Concat() + [];
      return Done;
    }

    /** Takes the message out of its queue into the in-flight slot. */
    method Start(m: Msg)
      requires Framed() && inFlight.None? && m.bytes != []
      modifies this`inFlight, this`offset
      ensures Framed() && inFlight == Some(m) && offset == 0 && Begun() == old(Begun()) + [m]
      ensures Share(true) == old(Share(true)) + Part(m, true) && Share(false) == old(Share(false)) + Part(m, false)
    {
      inFlight, offset := Some(m), 0;
      assert m.bytes[..0] == [];
    }

    /** mpscq_enqueue into the user queue, by whichever worker relays the message. */
    method EnqueueUser(m: Msg)
      requires Valid() && m.bytes != [] && IsUser(m)
      modifies this`user, this`dueUser
      ensures Valid() && user == old(user) + [m] && dueUser == old(dueUser) + [m]
    {
      user := user + [m];
      Assoc(Share(true), old(user), [m]);
      dueUser := dueUser + [m];
    }

    /** mpscq_enqueue into the control queue. */
    method EnqueueCtrl(m: Msg)
      requires Framed() && InOrder() && m.bytes != [] && !IsUser(m)
      modifies this`ctrl, this`dueCtrl
      ensures Framed() && InOrder() && ctrl == old(ctrl) + [m] && dueCtrl == old(dueCtrl) + [m]
    {
      ctrl := ctrl + [m];
      Assoc(Share(false), old(ctrl), [m]);
      dueCtrl := dueCtrl + [m];
    }

    /** wt_serve_response: a control message for this client, queued behind what is in flight. */
    method ServeResponse(m: Msg)
      requires Valid() && connected && m.bytes != [] && !IsUser(m)
      modifies this
      ensures Valid() && user == old(user) && Onward()
      ensures connected ==> dueUser == old(dueUser) && dueCtrl == old(dueCtrl) + [m]
      ensures connected && old(inFlight).None? ==> Tried()
    {
      if inFlight.Some? {
        EnqueueCtrl(m);
      } else {
        StartCtrl(m);
        SendAnswer();
      }
    }

    /** The end of wt_serve_response: if the socket pushes back, only its own watch is changed. */
    method SendAnswer()
      requires Framed() && InOrder() && inFlight.Some? && ctrl == [] && connected
      modifies this`inFlight, this`offset, this`wire, this`whole, this`connected, this`tries, this`pushedBack, this`watchOut
      ensures Framed() && (connected ==> InOrder() && (inFlight.Some? ==> watchOut && offset < |inFlight.value.bytes|))
      ensures tries >= old(tries) && old(wire) <= wire && Begun() == old(Begun())
      ensures connected && inFlight.Some? ==> tries > old(tries) && pushedBack
    {
      var res := SendOne();
      if res.Blocked? { watchOut := true; }
    }

    /** A control message that needs no queue. */
    method StartCtrl(m: Msg)
      requires Framed() && InOrder() && inFlight.None? && ctrl == [] && m.bytes != [] && !IsUser(m)
      modifies this`inFlight, this`offset, this`dueCtrl
      ensures Framed() && InOrder() && inFlight == Some(m) && offset == 0 && dueCtrl == old(dueCtrl) + [m]
      ensures Begun() == old(Begun()) + [m]
    {
      Start(m);
      dueCtrl := dueCtrl + [m];
    }

    /** The loop over the control queue in both event handlers. */
    method DrainControl() returns (res: Outcome)
      requires Framed() && InOrder() && inFlight.None? && connected
      modifies this`inFlight, this`offset, this`wire, this`whole, this`connected, this`ctrl, this`tries, this`pushedBack
      ensures Framed() && tries >= old(tries) && Onward()
      ensures !res.Broken? ==> InOrder() && connected
      ensures res.Done? ==> inFlight.None? && ctrl == []
      ensures res.Blocked? ==> inFlight.Some? && offset < |inFlight.value.bytes| && tries > old(tries) && pushedBack
      ensures res.Broken? ==> !connected
    {
      while ctrl != []
        invariant Framed() && InOrder() && inFlight.None? && connected && tries >= old(tries) && Onward()
        decreases |ctrl|
      {
        NextControl();
        res := SendOne();
        if !res.Done? { return; }
      }
      return Done;
    }

    /** mpscq_dequeue on the control queue; the message is in flight from here on. */
    method NextControl()
      requires Framed() && InOrder() && inFlight.None? && ctrl != []
      modifies this`inFlight, this`offset, this`ctrl
      ensures Framed() && InOrder() && inFlight == Some(old(ctrl)[0]) && ctrl == old(ctrl)[1..] && old(Begun()) <= Begun()
    {
      var m := PopCtrl();
      Start(m);
    }

    method PopCtrl() returns (m: Msg)
      requires Framed() && InOrder() && ctrl != []
      modifies this`ctrl
      ensures m == old(ctrl)[0] && m.bytes != [] && !IsUser(m) && ctrl == old(ctrl)[1..]
      ensures Framed() && dueCtrl == (Share(false) + [m]) + ctrl && forall i | 0 <= i < |ctrl| :: !IsUser(ctrl[i])
    {
      m := ctrl[0];
      Handover(Share(false), ctrl);
      ctrl := ctrl[1..];
    }

    /** Tells the client that the sender of the message in flight has gone. */
    method NotifyIfGone(online: set<Bytes>)
      requires Framed() && InOrder() && inFlight.Some?
      modifies this`ctrl, this`dueCtrl
      ensures Framed() && InOrder()
      ensures dueCtrl == old(AfterNotice(online))
    {
      if inFlight.value.subject != [] && inFlight.value.subject !in online {
        EnqueueCtrl(Notice(inFlight.value.subject));
      }
    }

    /** The common start of both event handlers: finish what is in flight, then the control queue. */
    method FinishPending(online: set<Bytes>) returns (res: Outcome)
      requires Valid() && connected
      modifies this`inFlight, this`offset, this`wire, this`whole, this`connected, this`ctrl, this`dueCtrl, this`tries, this`pushedBack
      ensures Framed() && tries >= old(tries) && Onward()
      ensures !res.Broken? ==> InOrder() && connected && dueCtrl == old(AfterNotice(online))
      ensures res.Done? ==> inFlight.None? && ctrl == []
      ensures res.Blocked? ==> inFlight.Some? && offset < |inFlight.value.bytes| && tries > old(tries) && pushedBack
      ensures res.Broken? ==> !connected
    {
      if inFlight.Some? {
        res := FinishCurrent(online);
        if !res.Done? { return; }
      }
      res := DrainControl();
    }

    method FinishCurrent(online: set<Bytes>) returns (res: Outcome)
      requires Framed() && InOrder() && inFlight.Some? && connected
      modifies this`inFlight, this`offset, this`wire, this`whole, this`connected, this`ctrl, this`dueCtrl, this`tries, this`pushedBack
      ensures Framed() && tries >= old(tries) && Onward()
      ensures !res.Broken? ==> InOrder() && connected && dueCtrl == old(AfterNotice(online))
      ensures res.Done? ==> inFlight.None?
      ensures res.Blocked? ==> inFlight.Some? && offset < |inFlight.value.bytes| && tries > old(tries) && pushedBack
      ensures res.Broken? ==> !connected
    {
      NotifyIfGone(online);
      res := SendOne();
    }

    /** The user message in flight is from somebody who is not there any more. */
    ghost predicate SenderGone(online: set<Bytes>)
      reads this`inFlight
    {
      inFlight.Some? && IsUser(inFlight.value) && inFlight.value.subject !in online
    }

    /** The control messages due once that has been noticed. */
    ghost function AfterNotice(online: set<Bytes>): seq<Msg>
      reads this`inFlight, this`dueCtrl
    {
      if SenderGone(online) then dueCtrl + [Notice(inFlight.value.subject)] else dueCtrl
    }

    /** wt_handle_outbound_data: the socket is writable again. */
    method SocketWritable(online: set<Bytes>)
      requires Valid() && connected && watchOut
      modifies this
      ensures Valid() && user == old(user) && Onward()
      ensures connected ==> dueUser == old(dueUser)
      ensures connected ==> dueCtrl == old(AfterNotice(online))
      ensures connected ==> Tried()
      ensures connected && inFlight.None? ==> ctrl == [] && watchUser && !watchOut
    {
      var res := FinishPending(online);
      if !res.Done? { return; }
      watchOut := false;
      watchUser := true;
    }

    /** The masks after the socket has pushed back while user messages were handled. */
    method PushBack()
      requires Framed() && InOrder() && inFlight.Some? && offset < |inFlight.value.bytes|
      modifies this`watchOut, this`watchUser
      ensures Framed() && InOrder() && Covered() && watchOut && !watchUser
    {
      watchOut, watchUser := true, false;
    }

    /** wt_handle_queued_messages: the user queue has something. At most one user message is started,
        and only when nothing else is in flight. */
    method UserQueueReadable(online: set<Bytes>)
      requires Valid() && connected && watchUser
      modifies this
      ensures Valid() && Onward()
      ensures connected ==> Tried()
      ensures connected ==> NextServed(online, old(dueUser), old(user), old(AfterNotice(online)), dueUser, dueCtrl)
                            || (dueUser == old(dueUser) && user == old(user) && dueCtrl == old(AfterNotice(online)))
      ensures connected && inFlight.None? ==> ctrl == [] && watchUser && (old(user) != [] ==> |user| < |old(user)|)
    {
      var done := FinishFirst(online);
      if done && user != [] { SendNextUser(online); }
    }

    /** Its first part; the user queue is not watched while the socket pushes back. */
    method FinishFirst(online: set<Bytes>) returns (done: bool)
      requires Valid() && connected && watchUser
      modifies this
      ensures Valid() && tries >= old(tries) && user == old(user) && Onward()
      ensures connected ==> dueUser == old(dueUser) && dueCtrl == old(AfterNotice(online)) && Tried()
      ensures done ==> connected && inFlight.None? && ctrl == [] && watchUser
      ensures !done && connected ==> inFlight.Some?
    {
      var res := FinishPending(online);
      if res.Blocked? { PushBack(); }
      done := res.Done?;
    }

    /** The end of wt_handle_queued_messages: one user message, or the notice that replaces it. */
    method SendNextUser(online: set<Bytes>)
      requires Framed() && InOrder() && inFlight.None? && ctrl == [] && user != [] && connected && watchUser
      modifies this
      ensures Valid() && |user| < |old(user)| && tries >= old(tries) && Onward()
      ensures connected ==> Tried()
      ensures connected ==> NextServed(online, old(dueUser), old(user), old(dueCtrl), dueUser, dueCtrl)
      ensures connected && inFlight.None? ==> ctrl == [] && watchUser
    {
      StartUser(online);
      SendStarted();
    }

    /** The message just started is sent as far as the socket takes it. */
    method SendStarted()
      requires Framed() && InOrder() && inFlight.Some? && ctrl == [] && connected && watchUser
      modifies this`inFlight, this`offset, this`wire, this`whole, this`connected, this`tries, this`pushedBack, this`watchOut, this`watchUser
      ensures Valid() && tries >= old(tries) && old(wire) <= wire && Begun() == old(Begun())
      ensures connected && inFlight.Some? ==> tries > old(tries) && pushedBack
      ensures connected && inFlight.None? ==> watchUser
    {
      var res := SendOne();
      if res.Blocked? { PushBack(); }
    }

    /** Picks the next user message; if its sender has gone, all that sender's messages are flushed and
        the notice about it is sent instead. */
    method StartUser(online: set<Bytes>)
      requires Framed() && InOrder() && inFlight.None? && ctrl == [] && user != []
      modifies this`inFlight, this`offset, this`user, this`dueUser, this`dueCtrl
      ensures Framed() && InOrder() && offset == 0 && |user| < |old(user)| && old(Begun()) <= Begun()
      ensures inFlight == Some(if old(user)[0].subject in online then old(user)[0] else Notice(old(user)[0].subject))
      ensures NextServed(online, old(dueUser), old(user), old(dueCtrl), dueUser, dueCtrl)
    {
      if user[0].subject in online {
        NextUser();
      } else {
        ReplaceSender(Notice(user[0].subject));
      }
    }

    method ReplaceSender(notice: Msg)
      requires Framed() && InOrder() && inFlight.None? && ctrl == [] && user != [] && notice.bytes != [] && !IsUser(notice)
      modifies this`inFlight, this`offset, this`user, this`dueUser, this`dueCtrl
      ensures Framed() && InOrder() && offset == 0 && inFlight == Some(notice) && |user| < |old(user)|
      ensures Begun() == old(Begun()) + [notice]
      ensures GivenUp(old(dueUser), old(user), dueUser) && dueCtrl == old(dueCtrl) + [notice]
    {
      FlushSender();
      StartCtrl(notice);
    }

    /** mpscq_dequeue on the user queue; the message is in flight from here on. */
    method NextUser()
      requires Framed() && InOrder() && inFlight.None? && user != []
      modifies this`inFlight, this`offset, this`user
      ensures Framed() && InOrder() && inFlight == Some(old(user)[0]) && offset == 0 && user == old(user)[1..]
      ensures old(Begun()) <= Begun()
    {
      var m := user[0];
      Handover(Share(true), user);
      user := user[1..];
      Start(m);
    }

    /** mpscq_flush_msgs_with_subject, and the message already taken is freed. */
    method FlushSender()
      requires Framed() && InOrder() && inFlight.None? && user != []
      modifies this`user, this`dueUser
      ensures Framed() && InOrder() && GivenUp(old(dueUser), old(user), dueUser) && |user| < |old(user)|
    {
      GivesUp(Share(true), user);
      WithoutUsers(user);
      user := Without(user, user[0].subject);
      dueUser := Share(true) + user;
    }

    /** Any run of events: bytes on the wire are always whole messages and a prefix of one, and no work is
        ever stranded, whatever the socket and the other workers do. */
    method Run(events: nat)
      requires Valid() && connected
      modifies this
      ensures Valid()
      ensures connected ==> (inFlight.Some? || ctrl != [] ==> watchOut) && (user != [] ==> watchUser || watchOut)
    {
      var i := 0;
      while i < events && connected
        invariant Valid()
        decreases events - i
      {
        var online: set<Bytes> := *;
        var bytes: Bytes, sender: Bytes := *, *;
        if bytes != [] {
          if {
            case sender != [] => EnqueueUser(Msg(bytes, sender));
            case true => ServeResponse(Msg(bytes, []));
            case watchOut => SocketWritable(online);
            case watchUser && user != [] => UserQueueReadable(online);
          }
        }
        i := i + 1;
      }
    }
  }
}
