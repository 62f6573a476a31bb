/** How a client puts a message or a file on its connection (cmd_msg and cmd_sendfile in client/clcmd.c). */
module ClientSend {
  import opened ByteStrings
  import opened Lwmp
  import opened Relay
  import opened RelayMessages
  import opened Addressing

  class Outgoing {
    const up: bool          // the connection lasts
    ghost var wire: Bytes   // every byte it has accepted

    constructor (up: bool)
      ensures wire == [] && this.up == up
    {
      this.up, wire := up, [];
    }

    /** send_all: all of it, or an error after some of it. */
    method SendAll(data: Bytes) returns (ok: bool)
      modifies this
      ensures up ==> ok
      ensures ok ==> wire == old(wire) + data
      ensures old(wire) <= wire <= old(wire) + data
    {
      ok := *;
      if up { ok := true; }
      var n := |data|;
      if !ok { n :| 0 <= n <= |data|; }
      wire := wire + data[..n];
      assert data[..|data|] == data;
    }
  }

  // ---------- What is sent ----------

  /** A text of 31 bytes in a field of 32 zeros. */
  function Field(s: Bytes): (f: Bytes)
    ensures |f| == 32
  {
    StrNCpy(s, 31) + [0]
  }

  /** The message that a file becomes. */
  function FileMessage(recipient: Bytes, name: Bytes, file: Bytes): (m: Message)
    ensures |m.to| == UNAME_SIZE && |m.opt| == OPTDATA_LEN && m.body == file
  {
    Message(MT_FILE, Field(recipient), Field(name), file)
  }

  /** The message that a text becomes: its NUL goes with it. */
  function TextMessage(recipient: Bytes, text: Bytes): (m: Message)
    ensures |m.to| == UNAME_SIZE && |m.opt| == OPTDATA_LEN && m.body == text + [0]
  {
    Message(MT_MSG, Field(recipient), Zeros(OPTDATA_LEN), text + [0])
  }

  function Cut31(s: Bytes): Bytes { s[..Min(|s|, 31)] }

  lemma FieldRead(s: Bytes)
    ensures CString(Field(s)) == Cut31(CString(s))
    ensures Field(s) == StrNCpy(Cut31(CString(s)), 32)
  {
    var c := Cut31(CString(s));
    FieldIsPadded(s);
    NoNulIsAll(c);
    CStringOfPadded(c, 32 - |c|);
  }

  lemma FieldIsPadded(s: Bytes)
    ensures 0 !in Cut31(CString(s)) && |Cut31(CString(s))| <= 31
    ensures Field(s) == Cut31(CString(s)) + Zeros(32 - |Cut31(CString(s))|)
  {
    var t := CString(s);
    if |t| >= 31 { OneZero(); } else { Padded31(t); }
  }

  lemma OneZero()
    ensures Zeros(1) == [0]
  {
  }

  lemma Padded31(t: Bytes)
    requires |t| < 31
    ensures Cut31(t) == t && (t + Zeros(31 - |t|)) + [0] == t + Zeros(32 - |t|)
  {
    ZerosEnd(31 - |t|);
    Assoc(t, Zeros(31 - |t|), [0]);
  }

  lemma {:induction false} ZerosEnd(n: nat)
    ensures Zeros(n) + [0] == Zeros(n + 1)
    decreases n
  {
    if n > 0 { ZerosEnd(n - 1); }
  }

  /** The bytes of a message as a receiver reads them. */
  ghost predicate Reads(sent: Bytes, kind: bv8, recipient: Bytes, opt: Bytes, size: nat, body: Bytes) {
    |sent| >= 81 ==>
      && sent[..4] == [0xF7, 0xC3, 0xED, 0xA8] && ChecksumOk(sent)
      && var h := HeaderOf(sent);
         && h.kind == kind && h.size == size && CString(h.subject) == recipient && CString(h.opt) == opt
         && sent[81..] <= body
  }

  lemma PartReads(m: Message, recipient: Bytes, name: Bytes, k: nat)
    requires m.Valid() && m.to == Field(recipient) && m.opt == Field(name) && k <= |m.OnWire()|
    ensures Reads(m.OnWire()[..k], m.kind, Cut31(CString(recipient)), Cut31(CString(name)), |m.body|, m.body)
  {
    if k >= HDR_SIZE {
      var n := k - HDR_SIZE;
      assert m.OnWire()[..k] == EncodeHeader(m.Hdr()) + m.body[..n];
      HeaderRoundTrip(m.Hdr(), m.body[..n]);
      FieldRead(recipient);
      FieldRead(name);
    }
  }

  // ---------- Sending ----------

  /** Since `before`, the first k bytes of the message have gone out. */
  ghost predicate PartSent(wire: Bytes, before: Bytes, message: Bytes, k: nat) {
    k <= |message| && wire == before + message[..k]
  }

  /** After another piece, or a part of it. */
  lemma PieceSent(wire: Bytes, before: Bytes, message: Bytes, at: nat, n: nat) returns (k: nat)
    requires at + n <= |message|
    requires before + message[..at] <= wire <= before + message[..at] + message[at..at + n]
    ensures at <= k <= at + n && PartSent(wire, before, message, k)
    ensures wire == before + message[..at] + message[at..at + n] ==> k == at + n
  {
    k := |wire| - |before|;
    assert message[..at] + message[at..at + n] == message[..at + n];
    Assoc(before, message[..at], message[at..at + n]);
    assert wire == (before + message[..at + n])[..|wire|] == before + message[..k];
  }

  /** Sends one piece of the message. */
  method SendPiece(conn: Outgoing, ghost before: Bytes, message: Bytes, at: nat, n: nat) returns (ok: bool, ghost k: nat)
    requires at + n <= |message| && PartSent(conn.wire, before, message, at)
    modifies conn
    ensures at <= k <= at + n && PartSent(conn.wire, before, message, k) && (ok ==> k == at + n) && (conn.up ==> ok)
  {
    ok := conn.SendAll(message[at..at + n]);
    k := PieceSent(conn.wire, before, message, at, n);
  }

  /** cmd_msg: a text that is not empty and fits one PDU with its NUL goes out as one message, with the recipient in
      the field for it. */
  method SendText(conn: Outgoing, recipient: Bytes, text: Bytes) returns (sent: bool, ghost k: nat)
    requires 0 !in text && HDR_SIZE + |text| + 1 < 0x1_0000_0000_0000_0000
    modifies conn
    ensures PartSent(conn.wire, old(conn.wire), TextMessage(recipient, text).OnWire(), k)
    ensures Reads(conn.wire[|old(conn.wire)|..], MT_MSG, Cut31(CString(recipient)), [], |text| + 1, text + [0])
    ensures sent ==> k == HDR_SIZE + |text| + 1
    ensures conn.up ==> (sent <==> 0 < |text| < PDU_BUF_SIZE)
    ensures !(0 < |text| < PDU_BUF_SIZE) ==> !sent && k == 0
  {
    var m := TextMessage(recipient, text);
    var message := m.OnWire();
    ghost var before := conn.wire;
    assert before + message[..0] == before;
    sent, k := false, 0;
    if text != [] && |text| + 1 <= PDU_BUF_SIZE { sent, k := SendPiece(conn, before, message, 0, |message|); }
    EmptyField();
    PartReads(m, recipient, [], k);
    assert conn.wire[|before|..] == message[..k];
  }

  lemma EmptyField()
    ensures Field([]) == Zeros(32) && Cut31(CString([])) == []
  {
    ZerosEnd(31);
  }

  /** What befalls an upload: how much of the file can be read, whether the server agrees, and whether nothing the
      socket brings between two pieces ends it. */
  datatype Luck = Luck(readable: nat, agreed: bool, calm: bool)

  ghost predicate Lucky(luck: Luck, size: nat) {
    0 < size <= luck.readable && (size > PDU_BUF_SIZE ==> luck.agreed && luck.calm)
  }

  /** cmd_sendfile: the first PDU of a file and, once the server has agreed, the rest of it, a buffer at a time.
      Whatever happens, what has gone out are the first bytes of one message, which names recipient and file in the
      fields for them: all of it when nothing went wrong, and, unless the connection broke, otherwise either none
      or at least the first PDU. */
  method SendFile(conn: Outgoing, recipient: Bytes, name: Bytes, file: Bytes, luck: Luck) returns (sent: bool, broken: bool, ghost k: nat)
    requires HDR_SIZE + |file| < 0x1_0000_0000_0000_0000
    modifies conn
    ensures PartSent(conn.wire, old(conn.wire), FileMessage(recipient, name, file).OnWire(), k)
    ensures Reads(conn.wire[|old(conn.wire)|..], MT_FILE, Cut31(CString(recipient)), Cut31(CString(name)), |file|, file)
    ensures sent ==> k == HDR_SIZE + |file| && !broken
    ensures conn.up ==> !broken && (Lucky(luck, |file|) ==> sent)
    ensures !broken ==> k == 0 || k == HDR_SIZE + |file| || k >= HDR_SIZE + PDU_BUF_SIZE
    ensures file == [] ==> !sent && k == 0
  {
    var m := FileMessage(recipient, name, file);
    ghost var before := conn.wire;
    sent, broken, k := SendMessage(conn, m.OnWire(), luck);
    PartReads(m, recipient, name, k);
    assert conn.wire[|before|..] == m.OnWire()[..k];
  }

  method SendMessage(conn: Outgoing, message: Bytes, luck: Luck) returns (sent: bool, broken: bool, ghost k: nat)
    requires |message| >= HDR_SIZE
    modifies conn
    ensures PartSent(conn.wire, old(conn.wire), message, k)
    ensures sent ==> k == |message| && !broken
    ensures conn.up ==> !broken && (Lucky(luck, |message| - HDR_SIZE) ==> sent)
    ensures !broken ==> k == 0 || k == |message| || k >= HDR_SIZE + PDU_BUF_SIZE
    ensures |message| == HDR_SIZE ==> !sent && k == 0
  {
    ghost var before := conn.wire;
    assert before + message[..0] == before;
    sent, broken, k := false, false, 0;
    var size := |message| - HDR_SIZE;
    var first := if size < PDU_BUF_SIZE then size else PDU_BUF_SIZE;
    if size == 0 || luck.readable < first { return; }
    var ok;
    ok, k := SendPiece(conn, before, message, 0, HDR_SIZE + first);
    if !ok { return false, true, k; }
    if first == size { return true, false, k; }
    if !luck.agreed { return false, false, k; }   // await_resp
    sent, broken, k := SendRest(conn, before, message, HDR_SIZE + first, luck);
  }

  /** The loop over the rest of the file. */
  method SendRest(conn: Outgoing, ghost before: Bytes, message: Bytes, first: nat, luck: Luck) returns (sent: bool, broken: bool, ghost k: nat)
    requires HDR_SIZE <= first <= |message| && PartSent(conn.wire, before, message, first)
    modifies conn
    ensures PartSent(conn.wire, before, message, k) && k >= first
    ensures sent ==> k == |message| && !broken
    ensures conn.up ==> !broken && (luck.readable >= |message| - HDR_SIZE && luck.calm ==> sent)
  {
    var at := first;
    sent, broken, k := false, false, first;
    while at < |message|
      invariant first <= at <= |message| && k == at && PartSent(conn.wire, before, message, at)
    {
      var n := if |message| - at < MAX_PDU_SIZE then |message| - at else MAX_PDU_SIZE;
      if luck.readable < at + n - HDR_SIZE { return; }
      var ok;
      ok, k := SendPiece(conn, before, message, at, n);
      if !ok { return false, true, k; }
      at := at + n;
      var interrupted: bool := *;   // pump_socket_once
      if interrupted && !luck.calm { return; }
    }
    sent := true;
  }

  // ---------- Where it goes ----------

  /** A file that is sent and accepted is handed to exactly the user it was sent to, under its name and size. */
  lemma FileGoesToRecipient(env: Env, recipient: Bytes, name: Bytes, file: Bytes, out: seq<Out>)
    requires 0 !in recipient && |recipient| <= 31 && Accepted(env, FileMessage(recipient, name, file))
    ensures var s := FeedAll(env, Idle(out), FileMessage(recipient, name, file).OnWire());
      && |s.out| >= |out| + 2 && s.out[|out| + 1].Forward?
      && (forall i | |out| < i < |s.out| :: s.out[i].Forward? && s.out[i].to == recipient)
      && var b := s.out[|out| + 1].msg;
         |b| >= 81 && HeaderOf(b).kind == MT_FILE && HeaderOf(b).size == |file| && CString(HeaderOf(b).opt) == Cut31(CString(name))
  {
    var m := FileMessage(recipient, name, file);
    GoesTo(env, m, recipient, out);
    FirstHandedOver(env, m, out);
    FieldRead(name);
  }

  lemma GoesTo(env: Env, m: Message, recipient: Bytes, out: seq<Out>)
    requires 0 !in recipient && |recipient| <= 31 && Accepted(env, m) && m.to == Field(recipient)
    ensures var s := FeedAll(env, Idle(out), m.OnWire());
      && |s.out| >= |out| + 2
      && (forall i | |out| < i < |s.out| :: s.out[i].Forward? && s.out[i].to == recipient)
  {
    FieldRead(recipient);
    NoNulIsAll(recipient);
    assert Cut31(recipient) == recipient == recipient[..Min(|recipient|, 31)];
    Addressed(env, m, recipient, out);
  }

  /** And so is a text. */
  lemma TextGoesToRecipient(env: Env, recipient: Bytes, text: Bytes, out: seq<Out>)
    requires 0 !in recipient && |recipient| <= 31 && |text| < PDU_BUF_SIZE && Accepted(env, TextMessage(recipient, text))
    ensures var s := FeedAll(env, Idle(out), TextMessage(recipient, text).OnWire());
      && |s.out| == |out| + 2 && s.out[|out| + 1].Forward? && s.out[|out| + 1].to == recipient
      && var b := s.out[|out| + 1].msg; |b| >= 81 && HeaderOf(b).kind == MT_MSG && b[81..] == text + [0]
  {
    var m := TextMessage(recipient, text);
    GoesTo(env, m, recipient, out);
    FirstHandedOver(env, m, out);
    MessageRelayed(env, m, out);
    assert m.body[..|m.body|] == m.body;
  }
}
