/** The deadline heap of server/cltimerheap.c: an array of clients that know their own slot. */
module TimerHeap {
  import opened TimerOrder

  datatype State = ACCEPTING | ACCEPTED | AUTHENTICATED | DISCONNECTED

  const INVALID_INDEX := -1

  class Client {
    var deadline: Time
    var index: int
    var state: State

    constructor (s: State)
      ensures index == INVALID_INDEX && state == s
    {
      deadline, index, state := Time(0, 0), INVALID_INDEX, s;
    }
  }

  class Heap {
    const reading: Reading
    var slots: array<Client?>
    var num: nat
    ghost var members: seq<Client>   // the clients in the heap, slot by slot
    ghost var times: seq<Time>       // their deadlines
    ghost var repr: set<Client>

    /** Every client in the heap knows its slot. */
    ghost predicate Valid()
      reads this, slots, repr
    {
      && num == |members| == |times| <= slots.Length
      && 0 < slots.Length
      && forall i {:trigger members[i]} {:trigger slots[i]} | 0 <= i < num ::
           && slots[i] == members[i] && members[i] in repr
           && members[i].index == i && members[i].deadline == times[i]
    }

    constructor (r: Reading)
      ensures Valid() && reading == r && members == [] && fresh(slots) && repr == {}
    {
      reading, num, members, times, repr := r, 0, [], [], {};
      slots := new Client?[256](_ => null);
    }

    /** MIN on the clients in two slots. */
    function MinSlot(a: nat, b: nat): (m: nat)
      requires Valid() && a < num && b < num
      reads this, slots, repr
      ensures m == Min(times, a, b)
    {
      var x, y := slots[a].deadline, slots[b].deadline;
      if x.sec < y.sec then a else if x.sec != y.sec then b else if x.nsec < y.nsec then a else b
    }

    /** MIN(..) == x, under either reading. */
    predicate MinSlotIs(a: nat, b: nat, x: nat)
      requires Valid() && a < num && b < num
      reads this, slots, repr
      ensures MinSlotIs(a, b, x) == MinIs(reading, times, a, b, x)
    {
      if reading.AsWritten? && slots[a].deadline.sec < slots[b].deadline.sec then a != 0 else MinSlot(a, b) == x
    }

    /** The only child of a slot, or the earlier of two. */
    function ChildSlot(i: nat, maxIndex: nat): (c: nat)
      requires Valid() && maxIndex == num - 1 && 2 * i + 1 <= maxIndex
      reads this, slots, repr
      ensures c == Child(times, i)
    {
      if 2 * i + 2 > maxIndex then 2 * i + 1 else MinSlot(2 * i + 1, 2 * i + 2)
    }

    /** The pointer and index updates of swap. */
    method Exchange(i: nat, j: nat, a: Client, b: Client)
      requires i < slots.Length && j < slots.Length && slots[i] == a && slots[j] == b && a != b
      requires i < |members| && j < |members| && |times| == |members|
      modifies slots, this`members, this`times, a`index, b`index
      ensures slots[i] == b && slots[j] == a
      ensures forall k | 0 <= k < slots.Length && k != i && k != j :: slots[k] == old(slots[k])
      ensures a.index == old(b.index) && b.index == old(a.index)
      ensures members == Swapped(old(members), i, j) && times == Swapped(old(times), i, j)
    {
      var aIndex, bIndex := a.index, b.index;
      slots[i] := b;
      slots[j] := a;
      b.index := aIndex;
      a.index := bIndex;
      members, times := Swapped(members, i, j), Swapped(times, i, j);
    }

    method Swap(i: nat, j: nat)
      requires Valid() && i < num && j < num && i != j
      modifies slots, this`members, this`times, repr`index
      ensures Valid()
      ensures members == Swapped(old(members), i, j) && times == Swapped(old(times), i, j)
    {
      assert members[i].index == i && members[j].index == j;
      Exchange(i, j, slots[i], slots[j]);
    }

    method HeapifyUp(start: nat)
      requires Valid() && start < num
      modifies slots, this`members, this`times, repr`index
      ensures Valid()
      ensures times == SiftUp(reading, old(times), start) && multiset(members) == old(multiset(members))
    {
      var index := start;
      while index > 0 && MinSlotIs(index, (index - 1) / 2, index)
        invariant Valid() && 0 <= index < num
        invariant SiftUp(reading, times, index) == SiftUp(reading, old(times), start)
        invariant multiset(members) == old(multiset(members))
      {
        SwappedPermutes(members, index, (index - 1) / 2);
        Swap(index, (index - 1) / 2);
        index := (index - 1) / 2;
      }
    }

    method HeapifyDown(start: nat)
      requires Valid() && start < num
      modifies slots, this`members, this`times, repr`index
      ensures Valid()
      ensures times == SiftDown(reading, old(times), start) && multiset(members) == old(multiset(members))
    {
      var index := start;
      var maxIndex := num - 1;
      while true
        invariant Valid() && index < num
        invariant SiftDown(reading, times, index) == SiftDown(reading, old(times), start)
        invariant multiset(members) == old(multiset(members))
        decreases num - index
      {
        if 2 * index + 1 > maxIndex { break; }
        var next := ChildSlot(index, maxIndex);
        if MinSlotIs(index, next, next) {
          SwappedPermutes(members, index, next);
          Swap(index, next);
          index := next;
        } else {
          break;
        }
      }
    }

    /** cl_timerheap_resize: the number of slots doubles unless that does not fit 32 bits. */
    method Resize() returns (ok: bool)
      requires Valid()
      modifies this`slots
      ensures Valid() && (ok ==> slots.Length == 2 * old(slots.Length) && fresh(slots))
      ensures !ok ==> slots == old(slots)
      ensures ok <==> old(slots.Length) < 0x8000_0000
    {
      var newNumSlots := 2 * slots.Length % 0x1_0000_0000;
      if newNumSlots < slots.Length { return false; }
      var grown := new Client?[newNumSlots](_ => null);
      var was := slots;
      for k := 0 to was.Length
        invariant slots == was && forall j | 0 <= j < k :: grown[j] == was[j]
      {
        grown[k] := was[k];
      }
      slots := grown;
      return true;
    }

    /** The new client in the first free slot. */
    method Place(cl: Client, deadline: Time)
      requires Valid() && num < slots.Length && cl !in repr
      modifies this`num, this`members, this`times, this`repr, slots, cl
      ensures Valid() && cl.state == old(cl.state) && cl.deadline == deadline
      ensures members == old(members) + [cl] && times == old(times) + [deadline] && repr == old(repr) + {cl}
    {
      slots[num] := cl;
      cl.deadline := deadline;
      cl.index := num;
      num := num + 1;
      members, times, repr := members + [cl], times + [deadline], repr + {cl};
    }

    /** cl_timerheap_add: the deadline lies the given number of seconds after now. */
    method Add(cl: Client, now: Time, length: int) returns (ok: bool)
      requires Valid() && cl !in repr
      modifies this, slots, cl, repr`index
      ensures Valid() && (slots == old(slots) || fresh(slots))
      ensures ok <==> old(num) < old(slots.Length) || old(num) < 0x8000_0000
      ensures ok ==> multiset(members) == old(multiset(members)) + multiset{cl} && repr == old(repr) + {cl}
      ensures ok ==> cl.deadline == Time(now.sec + length, now.nsec)
      ensures Ordered(old(times)) ==> Ordered(times)
      ensures !ok ==> members == old(members) && times == old(times) && repr == old(repr)
    {
      if num == slots.Length {
        ok := Resize();
        if !ok { return; }
      }
      Join(cl, Time(now.sec + length, now.nsec));
      return true;
    }

    /** Its second part, when there is a slot. */
    method Join(cl: Client, at: Time)
      requires Valid() && cl !in repr && num < slots.Length
      modifies this`num, this`members, this`times, this`repr, slots, cl, repr`index
      ensures Valid() && repr == old(repr) + {cl} && cl.deadline == at
      ensures multiset(members) == old(multiset(members)) + multiset{cl}
      ensures Ordered(old(times)) ==> Ordered(times)
    {
      AppendOrders(times, at);
      Place(cl, at);
      HeapifyUp(num - 1);
    }

    lemma AppendOrders(h: seq<Time>, t: Time)
      ensures Ordered(h) ==> Ordered(SiftUp(reading, h + [t], |h|))
    {
      if Ordered(h) { AddedOrders(reading, h, t); }
    }

    /** The last slot is given up and its client forgets its index. */
    method Shrink()
      requires Valid() && num > 0
      modifies this`num, this`members, this`times, this`repr, repr`index
      ensures Valid() && num == old(num) - 1 && old(members)[num].index == INVALID_INDEX
      ensures members == old(members)[..num] && times == old(times)[..num] && repr == old(repr) - {old(members)[num]}
    {
      num := num - 1;
      slots[num].index := INVALID_INDEX;
      ghost var last := members[num];
      members, times, repr := members[..num], times[..num], repr - {last};
    }

    /** Puts the last client in the place of another and gives up its slot. */
    method Detach(i: nat)
      requires Valid() && i < num
      modifies this`num, this`members, this`times, this`repr, slots, repr`index
      ensures Valid() && num == old(num) - 1 && old(members)[i].index == INVALID_INDEX
      ensures times == if i == num then old(times)[..num] else Replaced(old(times), i)
      ensures multiset(members) == old(multiset(members)) - multiset{old(members)[i]}
      ensures repr == old(repr) - {old(members)[i]}
    {
      DetachPermutes(members, i);
      if i != num - 1 {
        Swap(i, num - 1);
      }
      Shrink();
    }

    /** cl_timerheap_pop. */
    method Pop() returns (popped: Client?)
      requires Valid()
      modifies this, slots, repr`index
      ensures Valid() && slots == old(slots)
      ensures popped == null <==> old(num) == 0
      ensures popped == null ==> members == old(members) && times == old(times) && repr == old(repr)
      ensures popped != null ==> popped == old(members)[0] && popped.index == INVALID_INDEX && repr == old(repr) - {popped}
      ensures popped != null ==> multiset(members) == old(multiset(members)) - multiset{popped}
      ensures popped != null ==> times == Removed(reading, old(times), 0)
    {
      if num == 0 { return null; }
      popped := slots[0];
      Detach(0);
      if num != 0 { HeapifyDown(0); }
    }

    /** cl_timerheap_remove: a client anywhere in the heap, or one that is not in it. */
    method Remove(cl: Client)
      requires Valid() && (cl.index == INVALID_INDEX || cl in members)
      modifies this, slots, repr`index
      ensures Valid() && slots == old(slots)
      ensures cl.index == INVALID_INDEX
      ensures old(cl.index) == INVALID_INDEX ==> members == old(members) && times == old(times) && repr == old(repr)
      ensures old(cl.index) != INVALID_INDEX ==> 0 <= old(cl.index) < old(num) && times == Removed(reading, old(times), old(cl.index))
      ensures old(cl.index) != INVALID_INDEX ==> multiset(members) == old(multiset(members)) - multiset{cl} && repr == old(repr) - {cl}
    {
      if num == 0 || cl.index == INVALID_INDEX { return; }
      var index := cl.index;
      Detach(index);
      if index == num { return; }
      if index == 0 {
        HeapifyDown(index);
        return;
      }
      if MinSlotIs(index, (index - 1) / 2, index) { HeapifyUp(index); } else { HeapifyDown(index); }
    }
  }
}
