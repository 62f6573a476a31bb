/** What a receiving client does with each frame: reassembling files per sender
    (process_received_pdu and the chunk branch of clrecv_parse in client/clrecv.c). */
module Transfers {
  import opened ByteStrings
  import opened Lwmp

  const MAX_ACTIVE_TRANSFERS := 8

  /** One entry of client_ctx.transfers; `file` names the entry of the file log it writes to. */
  datatype Slot = Slot(active: bool, file: nat, expected: nat, received: nat, sender: Bytes)

  /** A file the client has created: who sent it, what was written, whether it is still open. */
  datatype RxFile = RxFile(sender: Bytes, data: Bytes, isOpen: bool)

  datatype Inbox = Inbox(slots: seq<Slot>, files: seq<RxFile>) {

    /** Every active transfer writes to an open file of its own sender, and no two transfers share a
        sender or a file. */
    ghost predicate Valid() {
      && |slots| == MAX_ACTIVE_TRANSFERS
      && (forall i | 0 <= i < |slots| && slots[i].active :: SlotOk(i))
      && (forall i, j | 0 <= i < j < |slots| && slots[i].active && slots[j].active ::
            slots[i].sender != slots[j].sender && slots[i].file != slots[j].file)
    }

    ghost predicate SlotOk(i: nat)
      requires i < |slots|
    {
      var s := slots[i];
      && s.file < |files|
      && files[s.file].isOpen
      && files[s.file].sender == s.sender
      && |files[s.file].data| == s.received
      && s.received < s.expected
    }

    /** find_transfer: the first active slot of this sender. */
    function Find(sender: Bytes, from: nat := 0): (r: nat)
      requires from <= |slots|
      ensures from <= r <= |slots|
      ensures r < |slots| ==> slots[r].active && slots[r].sender == sender
      ensures forall i | from <= i < r :: !(slots[i].active && slots[i].sender == sender)
      decreases |slots| - from
    {
      if from == |slots| || (slots[from].active && slots[from].sender == sender) then from else Find(sender, from + 1)
    }

    /** alloc_transfer: the first inactive slot. */
    function Free(from: nat := 0): (r: nat)
      requires from <= |slots|
      ensures from <= r <= |slots|
      ensures r < |slots| ==> !slots[r].active
      ensures forall i | from <= i < r :: slots[i].active
      decreases |slots| - from
    {
      if from == |slots| || !slots[from].active then from else Free(from + 1)
    }

    function Close(i: nat): Inbox
      requires i < |slots| && slots[i].file < |files|
    {
      var f := slots[i].file;
      Inbox(slots[i := slots[i].(active := false)], files[f := files[f].(isOpen := false)])
    }

    /** The MT_FILE branch: an unfinished transfer of the same sender is given up first. */
    function StartFile(sender: Bytes, size: nat, payload: Bytes): Inbox
      requires Valid()
    {
      var e := Find(sender);
      var box := if e < |slots| then Close(e) else this;
      var s := box.Free();
      if s == |slots| then box
      else if |payload| >= size then box.(files := box.files + [RxFile(sender, payload, false)])
      else Inbox(box.slots[s := Slot(true, |box.files|, size, |payload|, sender)],
                 box.files + [RxFile(sender, payload, true)])
    }

    /** The chunk branch: append, and close once everything expected has arrived. */
    function AddChunk(sender: Bytes, data: Bytes): Inbox
      requires Valid()
    {
      var s := Find(sender);
      if data == [] || s == |slots| then this
      else
        var slot := slots[s];
        var grown := slot.(received := slot.received + |data|);
        var box := Inbox(slots[s := grown], files[slot.file := files[slot.file].(data := files[slot.file].data + data)]);
        if grown.received >= grown.expected then box.Close(s) else box
    }

    function Accept(f: WireFrame): Inbox
      requires Valid()
    {
      match f
      case Pdu(hdr, payload) =>
        if hdr.kind == MT_FILE then StartFile(CString(hdr.subject), hdr.size, payload) else this
      case Chunk(subject, data) => AddChunk(CString(subject), data)
    }

    lemma CloseKeepsValid(i: nat)
      requires Valid() && i < |slots| && slots[i].active
      ensures Close(i).Valid()
    {
      var box := Close(i);
      forall j | 0 <= j < |box.slots| && box.slots[j].active
        ensures box.SlotOk(j)
      {
        assert SlotOk(j) && SlotOk(i);
      }
    }

    /** A new file for a sender without a transfer, in a free slot if it does not end with its first frame. */
    lemma OpenKeepsValid(sender: Bytes, size: nat, payload: Bytes)
      requires Valid() && Free() < |slots|
      requires forall i | 0 <= i < |slots| && slots[i].active :: slots[i].sender != sender
      ensures this.(files := files + [RxFile(sender, payload, false)]).Valid()
      ensures |payload| < size ==> Inbox(slots[Free() := Slot(true, |files|, size, |payload|, sender)],
                                         files + [RxFile(sender, payload, true)]).Valid()
    {
      forall f: RxFile, j | 0 <= j < |slots| && slots[j].active
        ensures this.(files := files + [f]).SlotOk(j) && slots[j].file < |files|
      {
        assert SlotOk(j);
      }
      if |payload| < size {
        var r := Inbox(slots[Free() := Slot(true, |files|, size, |payload|, sender)], files + [RxFile(sender, payload, true)]);
        forall j | 0 <= j < |r.slots| && r.slots[j].active
          ensures r.SlotOk(j)
        {
          if j != Free() { assert SlotOk(j); }
        }
      }
    }

    lemma StartFileKeepsValid(sender: Bytes, size: nat, payload: Bytes)
      requires Valid()
      ensures StartFile(sender, size, payload).Valid()
    {
      var e := Find(sender);
      if e < |slots| { CloseKeepsValid(e); }
      var box := if e < |slots| then Close(e) else this;
      assert forall i | 0 <= i < |slots| && box.slots[i].active :: box.slots[i].sender != sender;
      if box.Free() < |box.slots| { box.OpenKeepsValid(sender, size, payload); }
    }

    lemma AddChunkKeepsValid(sender: Bytes, data: Bytes)
      requires Valid()
      ensures AddChunk(sender, data).Valid()
    {
      var s := Find(sender);
      if data != [] && s < |slots| {
        assert SlotOk(s);
        var r := AddChunk(sender, data);
        forall j | 0 <= j < |r.slots| && r.slots[j].active
          ensures r.SlotOk(j)
        {
          assert SlotOk(j);
        }
      }
    }

    // ---------- No open file without a transfer ----------

    ghost predicate Owned(k: nat) {
      exists i :: 0 <= i < |slots| && slots[i].active && slots[i].file == k
    }

    /** Every open file belongs to a transfer that will close it. */
    ghost predicate NoLeak() {
      forall k | 0 <= k < |files| && files[k].isOpen :: Owned(k)
    }

    lemma CloseLeaksNothing(i: nat)
      requires Valid() && NoLeak() && i < |slots| && slots[i].active
      ensures Close(i).NoLeak()
    {
      var box := Close(i);
      forall k | 0 <= k < |box.files| && box.files[k].isOpen
        ensures box.Owned(k)
      {
        assert Owned(k);
        var j :| 0 <= j < |slots| && slots[j].active && slots[j].file == k;
        assert box.slots[j].active && box.slots[j].file == k;
      }
    }

    /** Whatever frame arrives, no file is left open without a transfer. */
    lemma AcceptLeaksNothing(f: WireFrame)
      requires Valid() && NoLeak()
      ensures Accept(f).NoLeak()
    {
      match f
      case Pdu(hdr, payload) =>
        if hdr.kind == MT_FILE { StartLeaksNothing(CString(hdr.subject), hdr.size, payload); }
      case Chunk(subject, data) => ChunkLeaksNothing(CString(subject), data);
    }

    lemma OpenLeaksNothing(f: RxFile, s: nat, slot: Slot)
      requires Valid() && NoLeak() && s < |slots| && !slots[s].active && slot.active && slot.file == |files|
      ensures Inbox(slots[s := slot], files + [f]).NoLeak()
    {
      var r := Inbox(slots[s := slot], files + [f]);
      assert r.slots[s].active && r.slots[s].file == |files|;
      forall k | 0 <= k < |r.files| && r.files[k].isOpen
        ensures r.Owned(k)
      {
        if k < |files| {
          assert Owned(k);
          var j :| 0 <= j < |slots| && slots[j].active && slots[j].file == k;
          assert r.slots[j].active && r.slots[j].file == k;
        }
      }
    }

    lemma DoneLeaksNothing(f: RxFile)
      requires NoLeak() && !f.isOpen
      ensures this.(files := files + [f]).NoLeak()
    {
      forall k | 0 <= k < |files| && files[k].isOpen
        ensures this.(files := files + [f]).Owned(k)
      {
        assert Owned(k);
      }
    }

    lemma StartLeaksNothing(sender: Bytes, size: nat, payload: Bytes)
      requires Valid() && NoLeak()
      ensures StartFile(sender, size, payload).NoLeak()
    {
      var e := Find(sender);
      var box := if e < |slots| then Close(e) else this;
      if e < |slots| {
        CloseLeaksNothing(e);
        CloseKeepsValid(e);
      }
      var s := box.Free();
      if s < |box.slots| {
        if |payload| >= size {
          box.DoneLeaksNothing(RxFile(sender, payload, false));
        } else {
          box.OpenLeaksNothing(RxFile(sender, payload, true), s, Slot(true, |box.files|, size, |payload|, sender));
        }
      }
    }

    lemma ChunkLeaksNothing(sender: Bytes, data: Bytes)
      requires Valid() && NoLeak()
      ensures AddChunk(sender, data).NoLeak()
    {
      var r := AddChunk(sender, data);
      forall k | 0 <= k < |r.files| && r.files[k].isOpen
        ensures r.Owned(k)
      {
        assert Owned(k);
        var j :| 0 <= j < |slots| && slots[j].active && slots[j].file == k;
        assert r.slots[j].active && r.slots[j].file == k;
      }
    }

    // ---------- What a frame does to the files ----------

    /** There is a slot for a file of this sender: a free one, or that of the file it gives up. */
    ghost predicate HasRoom(sender: Bytes) {
      exists i :: 0 <= i < |slots| && (!slots[i].active || slots[i].sender == sender)
    }

    /** The open file of a sender, if any: what its slot writes to. */
    lemma OpenFile(k: nat)
      requires Valid() && NoLeak() && k < |files| && files[k].isOpen
      ensures exists i :: 0 <= i < |slots| && slots[i].active && slots[i].file == k && slots[i].sender == files[k].sender
    {
      assert Owned(k);
      var i :| 0 <= i < |slots| && slots[i].active && slots[i].file == k;
      assert SlotOk(i);
    }

    /** Without room, a file that starts changes nothing at all. */
    lemma NoRoomNoFile(hdr: Header, payload: Bytes)
      requires Valid() && ValidFrame(Pdu(hdr, payload)) && hdr.kind == MT_FILE && !HasRoom(CString(hdr.subject))
      ensures Accept(Pdu(hdr, payload)) == this
    {
      assert Find(CString(hdr.subject)) == |slots| && Free() == |slots|;
    }

    /** With room, exactly one file is added, with the payload, open unless that is all of it; the files before it
        keep their data, and of them only those of the same sender are closed. */
    lemma FileStarts(hdr: Header, payload: Bytes)
      requires Valid() && NoLeak() && ValidFrame(Pdu(hdr, payload)) && hdr.kind == MT_FILE && HasRoom(CString(hdr.subject))
      ensures var sender, now := CString(hdr.subject), Accept(Pdu(hdr, payload)).files;
        && |now| == |files| + 1 && now[|files|] == RxFile(sender, payload, |payload| < hdr.size)
        && forall k | 0 <= k < |files| :: now[k] == RxFile(files[k].sender, files[k].data, files[k].isOpen && files[k].sender != sender)
    {
      var sender := CString(hdr.subject);
      var e := Find(sender);
      var box := if e < |slots| then Close(e) else this;
      var i :| 0 <= i < |slots| && (!slots[i].active || slots[i].sender == sender);
      assert !box.slots[i].active;
      assert box.Free() < |box.slots|;
      forall k | 0 <= k < |files|
        ensures box.files[k] == RxFile(files[k].sender, files[k].data, files[k].isOpen && files[k].sender != sender)
      {
        if files[k].isOpen {
          OpenFile(k);
          if e < |slots| { assert SlotOk(e); }
        }
        if e < |slots| { assert SlotOk(e); }
      }
    }

    /** No other PDU touches the files. */
    lemma TextKeepsFiles(hdr: Header, payload: Bytes)
      requires Valid() && ValidFrame(Pdu(hdr, payload)) && hdr.kind != MT_FILE
      ensures Accept(Pdu(hdr, payload)) == this
    {
    }

    /** A chunk of a sender grows its open file by exactly its data, and closes it at the expected size; no file is
        added, and no other is touched. */
    lemma ChunkGrows(subject: Bytes, data: Bytes, i: nat)
      requires Valid() && ValidFrame(Chunk(subject, data)) && data != []
      requires i < |slots| && slots[i].active && slots[i].sender == CString(subject)
      ensures var s, now := slots[i], Accept(Chunk(subject, data)).files;
        s.file < |files| && |now| == |files|
        && now[s.file] == RxFile(s.sender, files[s.file].data + data, |files[s.file].data + data| < s.expected)
        && forall k | 0 <= k < |files| && k != s.file :: now[k] == files[k]
    {
      assert SlotOk(i);
      assert Find(CString(subject)) == i;
    }

    /** A chunk of anybody else, or an empty one, changes nothing. */
    lemma ChunkOfNobody(subject: Bytes, data: Bytes)
      requires Valid() && ValidFrame(Chunk(subject, data))
      requires data == [] || forall i | 0 <= i < |slots| && slots[i].active :: slots[i].sender != CString(subject)
      ensures Accept(Chunk(subject, data)) == this
    {
    }

    /** Whatever frame comes: a file is added exactly for a file that can start, and every file keeps its sender and
        what has been written to it. */
    lemma FilesGrow(f: WireFrame)
      requires Valid() && NoLeak()
      ensures var now := Accept(f).files;
        && |now| == |files| + (if f.Pdu? && f.hdr.kind == MT_FILE && HasRoom(CString(f.hdr.subject)) then 1 else 0)
        && forall k | 0 <= k < |files| :: now[k].sender == files[k].sender && files[k].data <= now[k].data
    {
      match f
      case Pdu(hdr, payload) =>
        if hdr.kind == MT_FILE {
          if HasRoom(CString(hdr.subject)) { FileStarts(hdr, payload); } else { NoRoomNoFile(hdr, payload); }
        }
      case Chunk(subject, data) =>
        if data != [] && Find(CString(subject)) < |slots| {
          ChunkGrows(subject, data, Find(CString(subject)));
        } else {
          ChunkOfNobody(subject, data);
        }
    }

    /** close_all_transfers, from slot i on. */
    function CloseFrom(i: nat): Inbox
      requires Valid() && i <= |slots|
      decreases |slots| - i
    {
      if i == |slots| then this
      else if slots[i].active then
        CloseKeepsValid(i);
        Close(i).CloseFrom(i + 1)
      else CloseFrom(i + 1)
    }

    /** When the connection is lost every transfer ends, what was written stays, and no file is left open. */
    lemma {:induction false} ClosedFrom(i: nat)
      requires Valid() && i <= |slots| && forall j | 0 <= j < i :: !slots[j].active
      ensures var r := CloseFrom(i);
        && r.Valid() && |r.slots| == |slots| && (forall j | 0 <= j < |r.slots| :: !r.slots[j].active)
        && |r.files| == |files|
        && (forall k | 0 <= k < |files| :: r.files[k].data == files[k].data && r.files[k].sender == files[k].sender)
        && (NoLeak() ==> forall k | 0 <= k < |files| :: !r.files[k].isOpen)
      decreases |slots| - i
    {
      if i < |slots| {
        if slots[i].active {
          CloseKeepsValid(i);
          if NoLeak() { CloseLeaksNothing(i); }
          Close(i).ClosedFrom(i + 1);
        } else {
          ClosedFrom(i + 1);
        }
      }
    }

    lemma AcceptKeepsValid(f: WireFrame)
      requires Valid()
      ensures Accept(f).Valid()
    {
      match f
      case Pdu(hdr, payload) =>
        if hdr.kind == MT_FILE { StartFileKeepsValid(CString(hdr.subject), hdr.size, payload); }
      case Chunk(subject, data) => AddChunkKeepsValid(CString(subject), data);
    }
  }

  /** What a client starts with: all slots free, no files. */
  function EmptyInbox(): (r: Inbox)
    ensures r.Valid()
  {
    Inbox(seq(MAX_ACTIVE_TRANSFERS, _ => Slot(false, 0, 0, 0, [])), [])
  }

  function AcceptAll(box: Inbox, fs: seq<WireFrame>): (r: Inbox)
    requires box.Valid()
    ensures r.Valid()
    decreases fs
  {
    if fs == [] then box
    else
      box.AcceptKeepsValid(fs[0]);
      AcceptAll(box.Accept(fs[0]), fs[1..])
  }

  lemma {:induction false} AcceptAllAppend(box: Inbox, a: seq<WireFrame>, b: seq<WireFrame>)
    requires box.Valid()
    ensures AcceptAll(box, a + b) == AcceptAll(AcceptAll(box, a), b)
    decreases a
  {
    if a == [] {
      assert a + b == b;
    } else {
      box.AcceptKeepsValid(a[0]);
      assert (a + b)[1..] == a[1..] + b;
      AcceptAllAppend(box.Accept(a[0]), a[1..], b);
    }
  }
}
