/** The ring of lib/zlog/src/fifo.c: two free-running 32-bit counters over a power of two of bytes. */
module RingFifo {
  import opened Arithmetic
  import opened RingSize

  /** Unsigned 32-bit arithmetic. */
  function Wrap(n: int): (w: nat)
    ensures w < WORD
    decreases if n < 0 then -n else n
  {
    if n < 0 then (if n + WORD >= 0 then n + WORD else Wrap(n + WORD))
    else if n < WORD then n
    else Wrap(n - WORD)
  }

  lemma {:induction false} WrapIsRemainder(n: int)
    ensures Wrap(n) == n % WORD
    decreases if n < 0 then -n else n
  {
    if n < 0 && n + WORD < 0 { WrapIsRemainder(n + WORD); }
    if n >= WORD { WrapIsRemainder(n - WORD); }
  }

  const HEAD_SIZE := 8

  datatype Flag = Reserved | Committed | Discarded

  /** A message head, kept at its first byte, or a byte of payload. */
  datatype Cell = Head(total: nat, flag: Flag) | Byte(value: bv8)

  /** A live message: where it starts on the endless tape of everything ever written, and its extent. */
  datatype Entry = Entry(pos: nat, total: nat)

  /** & mask, for a ring size that is a power of two: the position within the ring. */
  function Residue(x: nat, size: nat): (r: nat)
    requires size > 0
    ensures r < size
  {
    if x < size then x else Residue(x - size, size)
  }

  lemma {:induction false} ResidueIsRemainder(x: nat, size: nat)
    requires size > 0
    ensures Residue(x, size) == x % size
    decreases x
  {
    if x >= size {
      ResidueIsRemainder(x - size, size);
      AddMultiple(x - size, size, 1);
    } else {
      DivMod(size, 0, x);
    }
  }

  /** For a power of two it is the mask. */
  lemma MaskIsResidue(x: nat, k: nat)
    ensures BitAnd(x, Pow2(k) - 1) == Residue(x, Pow2(k))
  {
    MaskIsRemainder(x, k);
    ResidueIsRemainder(x, Pow2(k));
  }

  /** Less than one ring apart, two positions do not share a residue. */
  lemma Apart(x: nat, y: nat, size: nat)
    requires size > 0 && x < y < x + size
    ensures Residue(x, size) != Residue(y, size)
  {
    ResidueIsRemainder(x, size);
    ResidueIsRemainder(y, size);
    RemaindersApart(x, y, size);
  }

  lemma RemaindersApart(x: nat, y: nat, size: nat)
    requires size > 0 && x < y < x + size
    ensures x % size != y % size
  {
    var p, q := x / size, y / size;
    assert x == size * p + x % size && y == size * q + y % size;
    if q > p { MulMonotone(size, p + 1, q); } else { MulMonotone(size, q, p); }
  }

  /** The counters wrap at 2^32 without losing the residue, since the ring size divides 2^32. */
  lemma WrapKeepsResidue(x: nat, size: nat, times: nat)
    requires size > 0 && size * times == WORD
    ensures Residue(Wrap(x), size) == Residue(x, size)
  {
    ResidueIsRemainder(x, size);
    ResidueIsRemainder(Wrap(x), size);
    WrapIsRemainder(x);
    DividesTwice(x, size, times);
  }

  lemma DividesTwice(x: nat, size: nat, times: nat)
    requires size > 0 && size * times == WORD
    ensures x % WORD % size == x % size
  {
    var q, w := x / WORD, x % WORD;
    assert x == WORD * q + w;
    Regroup(size, times, q);
    AddMultiple(w, size, times * q);
  }

  lemma Regroup(a: nat, b: nat, c: nat)
    ensures a * b * c == a * (b * c)
  {
  }

  /** A ring size for which wrapping the counters is harmless: one that divides 2^32. */
  ghost predicate Periodic(size: nat) {
    0 < size < WORD && forall x: nat {:trigger Residue(Wrap(x), size)} :: Residue(Wrap(x), size) == Residue(x, size)
  }

  lemma DivisorsArePeriodic(size: nat, times: nat)
    requires size > 0 && times > 1 && size * times == WORD
    ensures Periodic(size)
  {
    MulMonotone(size, 2, times);
    forall x: nat
      ensures Residue(Wrap(x), size) == Residue(x, size)
    {
      WrapKeepsResidue(x, size, times);
    }
  }

  lemma WrapAdd(x: nat, n: nat)
    ensures Wrap(Wrap(x) + n) == Wrap(x + n)
  {
    WrapIsRemainder(x);
    WrapIsRemainder(x + n);
    WrapIsRemainder(Wrap(x) + n);
  }

  /** The difference of the wrapped counters is the number of live bytes. */
  lemma UsedIsExact(gin: nat, gout: nat)
    requires gout <= gin < gout + WORD
    ensures Wrap(Wrap(gin) - Wrap(gout)) == gin - gout
    ensures Wrap(gin) == Wrap(gout) <==> gin == gout
  {
    WrapIsRemainder(gin);
    WrapIsRemainder(gout);
    WrapIsRemainder(Wrap(gin) - Wrap(gout));
  }

  lemma ResidueStep(x: nat, k: nat, size: nat)
    requires size > 0
    ensures Residue(Residue(x, size) + k, size) == Residue(x + k, size)
  {
    ResidueIsRemainder(x, size);
    ResidueIsRemainder(x + k, size);
    ResidueIsRemainder(x % size + k, size);
    assert x + k == size * (x / size) + (x % size + k);
    AddMultiple(x % size + k, size, x / size);
  }

  /** fifo_reserve says that a payload of n bytes fits when total_size <= free; total_size has wrapped when
      n is within a head of 2^32, and then the answer is right only if even the wrapped size does not fit. */
  lemma ReserveAnswer(n: nat, free: nat)
    requires n < WORD && free < WORD
    ensures (Wrap(n + HEAD_SIZE) <= free <==> n + HEAD_SIZE <= free) <==> n + HEAD_SIZE < WORD || n + HEAD_SIZE - WORD > free
  {
  }

  // ---------- The live messages on the tape ----------

  /** The live messages lie end to end on the tape from gout on, each with its head at its first byte. */
  ghost predicate Laid(live: seq<Entry>, tape: seq<Cell>, gout: nat)
    decreases |live|
  {
    if live == [] then gout == |tape|
    else
      var last := live[|live| - 1];
      && last.total >= HEAD_SIZE && last.pos + last.total == |tape|
      && tape[last.pos].Head? && tape[last.pos].total == last.total
      && Laid(live[..|live| - 1], tape[..last.pos], gout)
  }

  lemma {:induction false} LaidAt(live: seq<Entry>, tape: seq<Cell>, gout: nat, i: nat)
    requires Laid(live, tape, gout) && i < |live|
    ensures gout <= live[i].pos && live[i].pos + live[i].total <= |tape| && live[i].total >= HEAD_SIZE
    ensures tape[live[i].pos].Head? && tape[live[i].pos].total == live[i].total
    ensures i == 0 ==> live[i].pos == gout
    decreases |live|
  {
    var n := |live| - 1;
    if i < n {
      LaidAt(live[..n], tape[..live[n].pos], gout, i);
    } else if n > 0 {
      LaidAt(live[..n], tape[..live[n].pos], gout, 0);
    }
  }

  /** Live messages do not overlap, in the ring either. */
  lemma {:induction false} LaidDisjoint(live: seq<Entry>, tape: seq<Cell>, gout: nat, size: nat, i: nat, j: nat, x: nat, y: nat)
    requires Laid(live, tape, gout) && |tape| <= gout + size && size > 0 && i < j < |live|
    requires live[i].pos <= x < live[i].pos + live[i].total && live[j].pos <= y < live[j].pos + live[j].total
    ensures x < y && Residue(x, size) != Residue(y, size)
  {
    LaidInOrder(live, tape, gout, i, j);
    LaidAt(live, tape, gout, i);
    LaidAt(live, tape, gout, j);
    Apart(x, y, size);
  }

  lemma {:induction false} LaidInOrder(live: seq<Entry>, tape: seq<Cell>, gout: nat, i: nat, j: nat)
    requires Laid(live, tape, gout) && i < j < |live|
    ensures live[i].pos + live[i].total <= live[j].pos
    decreases |live|
  {
    var n := |live| - 1;
    if j < n {
      LaidInOrder(live[..n], tape[..live[n].pos], gout, i, j);
    } else {
      LaidAt(live[..n], tape[..live[n].pos], gout, i);
    }
  }

  lemma LaidAppend(live: seq<Entry>, tape: seq<Cell>, gout: nat, cells: seq<Cell>)
    requires Laid(live, tape, gout) && |cells| >= HEAD_SIZE && cells[0].Head? && cells[0].total == |cells|
    ensures Laid(live + [Entry(|tape|, |cells|)], tape + cells, gout)
  {
    var next := live + [Entry(|tape|, |cells|)];
    assert next[..|live|] == live && (tape + cells)[..|tape|] == tape;
  }

  lemma {:induction false} LaidDrop(live: seq<Entry>, tape: seq<Cell>, gout: nat)
    requires Laid(live, tape, gout) && live != []
    ensures Laid(live[1..], tape, gout + live[0].total)
    decreases |live|
  {
    var n := |live| - 1;
    LaidAt(live, tape, gout, 0);
    if n > 0 {
      LaidDrop(live[..n], tape[..live[n].pos], gout);
      assert live[1..][..n - 1] == live[..n][1..];
    }
  }

  /** Changing a flag, or a byte of payload, leaves the layout as it is. */
  lemma {:induction false} LaidWrite(live: seq<Entry>, tape: seq<Cell>, gout: nat, i: nat, x: nat, c: Cell)
    requires Laid(live, tape, gout) && i < |live| && live[i].pos <= x < live[i].pos + live[i].total && x < |tape|
    requires x == live[i].pos ==> c.Head? && c.total == live[i].total
    ensures Laid(live, tape[x := c], gout)
    decreases |live|
  {
    var n := |live| - 1;
    var p := live[n].pos;
    if i < n {
      LaidInOrder(live, tape, gout, i, n);
      LaidWrite(live[..n], tape[..p], gout, i, x, c);
      assert tape[x := c][..p] == tape[..p][x := c];
    } else {
      assert tape[x := c][..p] == tape[..p];
    }
  }

  class Fifo {
    const size: nat
    const ring: array<Cell>
    var inn: nat         // both counters are 32-bit words
    var out: nat
    ghost var gout: nat        // the counters as they would be without wrapping; the other one is |tape|
    ghost var tape: seq<Cell>
    ghost var live: seq<Entry>

    /** The ring holds the last part of the tape, byte for byte. */
    ghost predicate Window()
      reads this, ring
    {
      && Periodic(size) && size == ring.Length
      && gout <= |tape| <= gout + size
      && inn == Wrap(|tape|) && out == Wrap(gout)
      && forall x {:trigger tape[x]} | gout <= x < |tape| :: ring[Residue(x, size)] == tape[x]
    }

    ghost predicate Valid()
      reads this, ring
    {
      Window() && Laid(live, tape, gout)
    }

    ghost function Used(): nat
      reads this`gout, this`tape
      requires gout <= |tape|
    {
      |tape| - gout
    }

    /** fifo_create, for as many pages as the source can give. */
    constructor (pages: bv32)
      requires pages <= 0x8_0000
      ensures Valid() && size == RingBytes(pages) && live == [] && fresh(ring)
    {
      ghost var k := RingDivides(pages);
      DivisorsArePeriodic(RingBytes(pages), Pow2(20 - k));
      size := RingBytes(pages);
      ring := new Cell[RingBytes(pages)](_ => Byte(0));
      inn, out, gout, tape, live := 0, 0, 0, [], [];
    }

    /** One byte of the ring that stands for a live byte of the tape. */
    method Poke(r: nat, c: Cell, ghost x: nat)
      requires Window() && gout <= x < |tape| && r == Residue(x, size)
      modifies ring, this`tape
      ensures Window() && tape == old(tape)[x := c]
    {
      forall y | gout <= y < |tape| && y != x
        ensures Residue(y, size) != r
      {
        if x < y { Apart(x, y, size); } else { Apart(y, x, size); }
      }
      ring[r] := c;
      tape := tape[x := c];
    }

    lemma CountersExact()
      requires Window()
      ensures Residue(inn, size) == Residue(|tape|, size) && Residue(out, size) == Residue(gout, size)
      ensures Wrap(inn - out) == Used()
    {
      UsedIsExact(|tape|, gout);
    }

    /** What a reserved stretch of the ring holds once its head is written. */
    ghost function Fresh(total: nat): (cells: seq<Cell>)
      requires Window() && HEAD_SIZE <= total
      reads this, ring
      ensures |cells| == total && cells[0] == Head(total, Reserved)
      ensures forall k {:trigger cells[k]} | 0 < k < total :: cells[k] == ring[Residue(|tape| + k, size)]
    {
      seq(total, k requires 0 <= k < total && Window() reads this, ring =>
        if k == 0 then Head(total, Reserved) else ring[Residue(|tape| + k, size)])
    }

    /** The stores of fifo_reserve. */
    method Stamp(head: nat, total: nat, ghost nextTape: seq<Cell>)
      requires head < ring.Length
      modifies ring, this`inn, this`tape
      ensures ring[head] == Head(total, Reserved)
      ensures forall r | 0 <= r < ring.Length && r != head :: ring[r] == old(ring[r])
      ensures inn == Wrap(old(inn) + total) && tape == nextTape
    {
      ring[head] := Head(total, Reserved);
      inn := Wrap(inn + total);
      tape := nextTape;
    }

    /** The tape grows by a stretch of the ring that fits. */
    method Extend(head: nat, total: nat)
      requires Window() && HEAD_SIZE <= total <= size - Used() && head == Residue(|tape|, size)
      modifies ring, this`inn, this`tape
      ensures Window() && tape == old(tape) + old(Fresh(total))
    {
      ghost var end := |tape|;
      ghost var cells := Fresh(total);
      forall y | gout <= y < end + total && y != end
        ensures Residue(y, size) != head
      {
        if y < end { Apart(y, end, size); } else { Apart(end, y, size); }
      }
      forall y | end < y < end + total
        ensures (tape + cells)[y] == ring[Residue(y, size)]
      {
        assert (tape + cells)[y] == cells[y - end];
      }
      WrapAdd(end, total);
      Stamp(head, total, tape + cells);
    }

    /** A message of at least a head that fits comes alive. */
    method Append(head: nat, total: nat)
      requires Valid() && HEAD_SIZE <= total <= size - Used() && head == Residue(|tape|, size)
      modifies ring, this`inn, this`tape, this`live
      ensures Valid() && live == old(live) + [Entry(old(|tape|), total)]
      ensures |tape| == old(|tape|) + total && tape[..old(|tape|)] == old(tape)
      ensures tape[old(|tape|)] == Head(total, Reserved)
    {
      LaidAppend(live, tape, gout, Fresh(total));
      live := live + [Entry(|tape|, total)];
      Extend(head, total);
    }

    /** The decision of fifo_reserve: where the message would start, its size, and whether it fits. */
    method Offer(n: nat) returns (head: nat, total: nat, ok: bool)
      requires Window() && n < WORD
      ensures total == Wrap(n + HEAD_SIZE) && (total >= HEAD_SIZE <==> n + HEAD_SIZE < WORD)
      ensures n + HEAD_SIZE < WORD ==> total == n + HEAD_SIZE
      ensures head == Residue(|tape|, size) && head < ring.Length && (ok <==> total <= size - Used())
    {
      CountersExact();
      var free := Wrap(size - Wrap(inn - out));
      total := Wrap(n + HEAD_SIZE);
      head, ok := Residue(inn, size), total <= free;
    }

    /** fifo_reserve. The head is written, and the rest of the message comes alive with whatever the ring
        holds there. */
    method Reserve(n: nat) returns (head: nat, ok: bool)
      requires Valid() && n < WORD
      modifies ring, this`inn, this`tape, this`live
      ensures ok <==> Wrap(n + HEAD_SIZE) <= size - old(Used())
      ensures n + HEAD_SIZE < WORD ==> Valid()
      ensures !ok ==> tape == old(tape) && live == old(live)
      ensures ok && n + HEAD_SIZE < WORD ==>
                && head == Residue(old(|tape|), size) && live == old(live) + [Entry(old(|tape|), n + HEAD_SIZE)]
                && |tape| == old(|tape|) + n + HEAD_SIZE && tape[..old(|tape|)] == old(tape)
                && tape[old(|tape|)] == Head(n + HEAD_SIZE, Reserved)
    {
      var total;
      head, total, ok := Offer(n);
      if !ok { return; }
      if total >= HEAD_SIZE {
        Append(head, total);
      } else {
        Stamp(head, total, tape);
      }
    }

    /** fifo_commit and fifo_discard. */
    method SetFlag(head: nat, flag: Flag, ghost i: nat)
      requires Valid() && i < |live| && head == Residue(live[i].pos, size)
      modifies ring, this`tape
      ensures Valid() && live[i].pos < old(|tape|) && tape == old(tape)[live[i].pos := Head(live[i].total, flag)]
    {
      ghost var x := live[i].pos;
      LaidAt(live, tape, gout, i);
      LaidWrite(live, tape, gout, i, x, Head(live[i].total, flag));
      assert ring[Residue(x, size)] == tape[x];
      Poke(head, Head(ring[head].total, flag), x);
    }

    /** A producer fills in a byte of its payload; the ring is mapped twice, so it just writes on. */
    method Write(head: nat, k: nat, b: bv8, ghost i: nat)
      requires Valid() && i < |live| && head == Residue(live[i].pos, size) && HEAD_SIZE + k < live[i].total
      modifies ring, this`tape
      ensures Valid() && live[i].pos + HEAD_SIZE + k < old(|tape|)
      ensures tape == old(tape)[live[i].pos + HEAD_SIZE + k := Byte(b)]
    {
      ghost var x := live[i].pos + HEAD_SIZE + k;
      ResidueStep(live[i].pos, HEAD_SIZE + k, size);
      LaidAt(live, tape, gout, i);
      LaidWrite(live, tape, gout, i, x, Byte(b));
      Poke(Residue(head + HEAD_SIZE + k, size), Byte(b), x);
    }

    /** fifo_peek: the oldest live message, if there is one. */
    method Peek() returns (head: nat, some: bool)
      requires Valid()
      ensures some <==> live != []
      ensures some ==> head == Residue(live[0].pos, size) && head < ring.Length
      ensures some ==> live[0].pos < |tape| && ring[head] == tape[live[0].pos]
    {
      CountersExact();
      if live != [] { LaidAt(live, tape, gout, 0); }
      var used := Wrap(inn - out);
      head, some := 0, used != 0;
      if some {
        head := Residue(out, size);
        assert tape[gout] == ring[Residue(gout, size)];
      }
    }

    /** The consumer reads a byte of the payload of a live message: what its producer wrote. */
    method Read(head: nat, k: nat, ghost i: nat) returns (c: Cell)
      requires Valid() && i < |live| && head == Residue(live[i].pos, size) && HEAD_SIZE + k < live[i].total
      ensures live[i].pos + HEAD_SIZE + k < |tape| && c == tape[live[i].pos + HEAD_SIZE + k]
    {
      ResidueStep(live[i].pos, HEAD_SIZE + k, size);
      LaidAt(live, tape, gout, i);
      assert tape[live[i].pos + HEAD_SIZE + k] == ring[Residue(live[i].pos + HEAD_SIZE + k, size)];
      return ring[Residue(head + HEAD_SIZE + k, size)];
    }

    method Advance(total: nat)
      requires Window() && gout + total <= |tape|
      modifies this`out, this`gout
      ensures Window() && gout == old(gout) + total
    {
      WrapAdd(gout, total);
      out := Wrap(out + total);
      gout := gout + total;
    }

    /** fifo_out: the oldest message leaves; its bytes are free again. */
    method Out(head: nat)
      requires Valid() && live != [] && head == Residue(live[0].pos, size)
      modifies this`out, this`gout, this`live
      ensures Valid() && live == old(live)[1..] && gout == old(gout) + old(live)[0].total
    {
      LaidAt(live, tape, gout, 0);
      LaidDrop(live, tape, gout);
      assert tape[gout] == ring[Residue(gout, size)];
      live := live[1..];
      Advance(ring[head].total);
    }
  }
}
