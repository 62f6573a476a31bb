/** The striped hash table of server/htable.c: sorted chains of nodes hanging off a bucket array, rehashed in
    place. Every operation is one step under its locks. */
module HashTable {
  import opened Arithmetic
  import opened ByteStrings
  import opened Chains
  import opened KeyOrder
  import opened TableChains

  class Table {
    const cmp: Compare
    const hash: Bytes -> nat
    ghost const key: Bytes -> bool
    const stripe: nat    // buckets per lock
    const load: nat      // threshold load factor, in percent
    const growth: nat    // how many times as many buckets a resize makes, 1 << htable_pow2_resize_factor
    var buckets: array<Node?>
    var elementCount: nat
    var threshold: nat
    var lockCount: nat
    ghost var chains: seq<seq<Node>>
    ghost var repr: set<Node>

    ghost predicate Valid()
      reads this, buckets, repr
    {
      && Shape()
      && Lawful(cmp, hash, chains, repr)
      && Keyed(key, repr)
      && elementCount == |repr|
      && Geometry(buckets.Length)
    }

    /** htable_create with its powers of two. */
    constructor (c: Compare, h: Bytes -> nat, ghost k: Bytes -> bool,
                 sizeFactor: nat, resizeFactor: nat, loadFactor: nat, stripeFactor: nat)
      requires loadFactor > 0 && stripeFactor <= sizeFactor && resizeFactor > 0
      ensures Valid() && repr == {} && cmp == c && hash == h && key == k && fresh(buckets)
      ensures buckets.Length == Pow2(sizeFactor) && stripe == Pow2(stripeFactor)
    {
      Pow2Sum(sizeFactor - stripeFactor, stripeFactor);
      Pow2Grows(resizeFactor);
      cmp, hash, key, load := c, h, k, loadFactor;
      stripe, growth := Pow2(stripeFactor), Pow2(resizeFactor);
      buckets := new Node?[Pow2(sizeFactor)](_ => null);
      chains, repr, elementCount := Empties(Pow2(sizeFactor)), {}, 0;
      threshold, lockCount := Pow2(sizeFactor) * loadFactor / 100, Pow2(sizeFactor - stripeFactor);
    }

    /** Everything that is shifted is a power of two, every stripe of buckets has its lock, and the threshold
        fits the number of buckets. */
    ghost predicate Geometry(count: nat)
      reads this`lockCount, this`threshold
    {
      && IsPow2(count) && IsPow2(stripe) && IsPow2(growth)
      && 0 < stripe && 0 < load && 1 < growth && lockCount * stripe == count && threshold == count * load / 100
    }

    /** The links: every chain starts at its bucket, every node of the table is in exactly one chain. */
    ghost predicate Shape()
      reads this`buckets, this`chains, this`repr, buckets, repr
    {
      && |chains| == buckets.Length
      && (forall b {:trigger Distinct(chains[b])} | 0 <= b < |chains| :: Distinct(chains[b]))
      && (forall b {:trigger buckets[b]} | 0 <= b < |chains| :: buckets[b] == ChainAt(chains[b], 0))
      && (forall b, i {:trigger chains[b][i]} | 0 <= b < |chains| && 0 <= i < |chains[b]| ::
            chains[b][i] in repr && chains[b][i].home == b)
      && (forall b, i {:trigger chains[b][i].next} | 0 <= b < |chains| && 0 <= i < |chains[b]| ::
            chains[b][i].next == ChainAt(chains[b], i + 1))
    }

    /** The masked hash of a key. */
    method BucketOf(k: Bytes) returns (b: nat)
      requires IsPow2(buckets.Length)
      ensures b == Bucket(hash(k), buckets.Length)
    {
      b := BitAnd(hash(k), buckets.Length - 1);
      MaskIsBucket(hash(k), buckets.Length);
    }

    /** The pointer updates that put a node between two neighbours, or at the front of a bucket. */
    method Hook(b: nat, ghost j: nat, prev: Node?, next: Node?, e: Node)
      requires b < buckets.Length && |chains| == buckets.Length && j <= |chains[b]| && prev != e
      modifies buckets, this`chains, this`repr, e, if prev == null then {} else {prev}
      ensures e.next == next && e.home == b
      ensures prev != null ==> prev.next == e && prev.home == old(prev.home)
      ensures buckets[b] == if prev == null then e else old(buckets[b])
      ensures forall c | 0 <= c < buckets.Length && c != b :: buckets[c] == old(buckets[c])
      ensures chains == old(chains)[b := Inserted(old(chains)[b], j, e)] && repr == old(repr) + {e}
    {
      e.next := next;
      if prev == null { buckets[b] := e; } else { prev.next := e; }
      e.home := b;
      chains := chains[b := Inserted(chains[b], j, e)];
      repr := repr + {e};
    }

    method Link(b: nat, ghost j: nat, prev: Node?, next: Node?, e: Node)
      requires Shape() && b < buckets.Length && j <= |chains[b]| && e !in repr
      requires prev == ChainAt(chains[b], j - 1) && next == ChainAt(chains[b], j)
      modifies buckets, this`chains, this`repr, e, repr
      ensures Shape()
      ensures chains == old(chains)[b := Inserted(old(chains)[b], j, e)] && repr == old(repr) + {e}
    {
      OnlyAt(chains[b], j - 1);
      DistinctInserted(chains[b], j, e);
      Hook(b, j, prev, next, e);
    }

    /** The pointer updates that take a node out of its bucket. */
    method Unhook(b: nat, ghost i: nat, prev: Node?, e: Node)
      requires b < buckets.Length && |chains| == buckets.Length && i < |chains[b]| && prev != e
      modifies buckets, this`chains, this`repr, e, if prev == null then {} else {prev}
      ensures e.next == null
      ensures prev != null ==> prev.next == old(e.next) && prev.home == old(prev.home)
      ensures buckets[b] == if prev == null then old(e.next) else old(buckets[b])
      ensures forall c | 0 <= c < buckets.Length && c != b :: buckets[c] == old(buckets[c])
      ensures chains == old(chains)[b := Removed(old(chains)[b], i)] && repr == old(repr) - {e}
    {
      if prev == null { buckets[b] := e.next; } else { prev.next := e.next; }
      e.next := null;
      chains := chains[b := Removed(chains[b], i)];
      repr := repr - {e};
    }

    method Unlink(b: nat, ghost i: nat, prev: Node?, e: Node)
      requires Shape() && b < buckets.Length && i < |chains[b]| && e == chains[b][i] && prev == ChainAt(chains[b], i - 1)
      modifies buckets, this`chains, this`repr, repr
      ensures Shape() && e in old(repr)
      ensures chains == old(chains)[b := Removed(old(chains)[b], i)] && repr == old(repr) - {e}
    {
      OnlyAt(chains[b], i - 1);
      OnlyAt(chains[b], i);
      DistinctRemoved(chains[b], i);
      Unhook(b, i, prev, e);
    }

    /** Walks a sorted chain until the key is found or passed. */
    method Locate(b: nat, k: Bytes) returns (found: bool, prev: Node?, here: Node?, ghost j: nat)
      requires Shape() && b < buckets.Length && TotalOrder(cmp, key) && key(k)
      requires Sorted(cmp, chains[b]) && forall i | 0 <= i < |chains[b]| :: key(chains[b][i].key)
      ensures j <= |chains[b]| && prev == ChainAt(chains[b], j - 1) && here == ChainAt(chains[b], j)
      ensures found <==> exists i | 0 <= i < |chains[b]| :: chains[b][i].key == k
      ensures !found ==> Belongs(cmp, chains[b], j, k)
    {
      prev, here, j := null, buckets[b], 0;
      ghost var chain := chains[b];
      while here != null
        invariant j <= |chain| && prev == ChainAt(chain, j - 1) && here == ChainAt(chain, j)
        invariant forall i | 0 <= i < j :: Less(cmp, chain[i].key, k) && chain[i].key != k
        decreases |chain| - j
      {
        var res := cmp(k, here.key);
        if res == 0 { return true, prev, here, j; }
        if res < 0 {
          PassedBy(cmp, key, chain, j, k);
          return false, prev, here, j;
        }
        prev, here, j := here, here.next, j + 1;
      }
      return false, prev, here, j;
    }

    /** Walks a chain until the key is found. */
    method Find(b: nat, k: Bytes) returns (prev: Node?, here: Node?, ghost i: nat)
      requires Shape() && b < buckets.Length && TotalOrder(cmp, key) && key(k)
      requires forall i | 0 <= i < |chains[b]| :: key(chains[b][i].key)
      ensures here == null ==> forall i | 0 <= i < |chains[b]| :: chains[b][i].key != k
      ensures here != null ==> i < |chains[b]| && here == chains[b][i] && here.key == k && prev == ChainAt(chains[b], i - 1)
    {
      prev, here, i := null, buckets[b], 0;
      ghost var chain := chains[b];
      while here != null
        invariant i <= |chain| && prev == ChainAt(chain, i - 1) && here == ChainAt(chain, i)
        invariant forall t | 0 <= t < i :: chain[t].key != k
        decreases |chain| - i
      {
        if cmp(k, here.key) == 0 { return; }
        prev, here, i := here, here.next, i + 1;
      }
    }

    /** The walk of htable_add in the bucket of a key. */
    method LocateKey(k: Bytes) returns (found: bool, b: nat, prev: Node?, here: Node?, ghost j: nat)
      requires Valid() && TotalOrder(cmp, key) && key(k)
      ensures found <==> exists n :: n in repr && n.key == k
      ensures b == Bucket(hash(k), |chains|)
      ensures !found ==> Belongs(cmp, chains[b], j, k) && prev == ChainAt(chains[b], j - 1) && here == ChainAt(chains[b], j)
    {
      b := BucketOf(k);
      LookUp(hash, chains, repr, k);
      found, prev, here, j := Locate(b, k);
    }

    method LinkNew(b: nat, ghost j: nat, prev: Node?, here: Node?, e: Node)
      requires Valid() && key(e.key) && e !in repr && b == Bucket(hash(e.key), |chains|)
      requires Belongs(cmp, chains[b], j, e.key) && prev == ChainAt(chains[b], j - 1) && here == ChainAt(chains[b], j)
      modifies this`chains, this`repr, this`elementCount, buckets, e, repr
      ensures Valid() && repr == old(repr) + {e}
    {
      AddedLawful(cmp, hash, chains, repr, b, j, e);
      elementCount := elementCount + 1;
      Link(b, j, prev, here, e);
    }

    /** The locked part of htable_add. */
    method Insert(e: Node) returns (added: bool)
      requires Valid() && TotalOrder(cmp, key) && key(e.key) && e !in repr
      modifies this`chains, this`repr, this`elementCount, buckets, e, repr
      ensures Valid() && (added <==> forall n | n in old(repr) :: n.key != e.key)
      ensures repr == if added then old(repr) + {e} else old(repr)
    {
      e.next := null;
      var found, b, prev, here, j := LocateKey(e.key);
      if found { return false; }
      LinkNew(b, j, prev, here, e);
      return true;
    }

    /** The walk of htable_remove and htable_get in the bucket of a key. */
    method FindKey(k: Bytes) returns (b: nat, prev: Node?, here: Node?, ghost i: nat)
      requires Valid() && TotalOrder(cmp, key) && key(k)
      ensures b == Bucket(hash(k), |chains|)
      ensures here == null ==> forall n | n in repr :: n.key != k
      ensures here != null ==> i < |chains[b]| && here == chains[b][i] && here in repr && here.key == k && prev == ChainAt(chains[b], i - 1)
    {
      b := BucketOf(k);
      LookUp(hash, chains, repr, k);
      prev, here, i := Find(b, k);
    }

    method Get(k: Bytes) returns (target: Node?)
      requires Valid() && TotalOrder(cmp, key) && key(k)
      ensures Unique(repr)
      ensures target == if k in Content(repr) then Content(repr)[k] else null
    {
      NoKeyTwice(cmp, hash, key, chains, repr);
      var _, _, here, i := FindKey(k);
      return here;
    }

    method RemoveFound(b: nat, ghost i: nat, prev: Node?, e: Node)
      requires Valid() && b < |chains| && i < |chains[b]| && e == chains[b][i] && prev == ChainAt(chains[b], i - 1)
      modifies this`chains, this`repr, this`elementCount, buckets, repr
      ensures Valid() && repr == old(repr) - {e}
    {
      RemovedLawful(cmp, hash, chains, repr, b, i, e);
      elementCount := elementCount - 1;
      Unlink(b, i, prev, e);
    }

    method RemoveKey(k: Bytes) returns (removed: Node?)
      requires Valid() && TotalOrder(cmp, key) && key(k)
      modifies this`chains, this`repr, this`elementCount, buckets, repr
      ensures Valid()
      ensures repr == old(repr) - {removed}
      ensures removed == null ==> forall n | n in old(repr) :: n.key != k
      ensures removed != null ==> removed in old(repr) && removed.key == k
    {
      var b, prev, here, i := FindKey(k);
      if here == null { return null; }
      RemoveFound(b, i, prev, here);
      return here;
    }

    /** htable_remove: the binding of a key goes, if there is one. */
    method Remove(k: Bytes) returns (removed: Node?)
      requires Valid() && TotalOrder(cmp, key) && key(k)
      modifies this`chains, this`repr, this`elementCount, buckets, repr
      ensures Valid() && TakenOut(old(repr), repr, k, removed)
    {
      NoKeyTwice(cmp, hash, key, chains, repr);
      ghost var nodes := repr;
      removed := RemoveKey(k);
      ContentWithout(nodes, k, removed);
    }

    // ---------- Listing ----------

    /** htable_copy_all_keys: under one lock after the other, the buckets of each stripe. */
    method CopyAllKeys(keep: Bytes -> bool) returns (keys: seq<Bytes>)
      requires Valid()
      ensures keys == KeysOf(chains, keep)
    {
      if elementCount == 0 {
        NoNodes();
        NoKeys(chains, keep);
        return [];
      }
      keys := CopyStripes(keep);
    }

    lemma NoNodes()
      requires Shape() && |repr| == 0
      ensures forall b | 0 <= b < |chains| :: chains[b] == []
    {
      forall b | 0 <= b < |chains|
        ensures chains[b] == []
      {
        SomeNode(b);
      }
    }

    lemma SomeNode(b: nat)
      requires Shape() && b < |chains|
      ensures chains[b] != [] ==> |repr| > 0
    {
      if chains[b] != [] { assert chains[b][0] in repr; }
    }

    /** What is listed: every wanted key of the table exactly once, and nothing else. */
    lemma ListsEveryKeyOnce(keep: Bytes -> bool)
      requires Valid() && TotalOrder(cmp, key)
      ensures Unique(repr) && Distinct(KeysOf(chains, keep))
      ensures forall k :: k in KeysOf(chains, keep) <==> keep(k) && k in Content(repr)
    {
      NoKeyTwice(cmp, hash, key, chains, repr);
      forall b | 0 <= b < |chains|
        ensures forall i {:trigger chains[b][i].key} | 0 <= i < |chains[b]| :: key(chains[b][i].key)
      {
        KeysOfChain(b);
      }
      EveryKeyOnce(cmp, hash, key, chains, repr, keep);
    }

    method CopyStripes(keep: Bytes -> bool) returns (keys: seq<Bytes>)
      requires Shape() && Geometry(buckets.Length)
      ensures keys == KeysOf(chains, keep)
    {
      keys := [];
      var i := 0;
      while i < lockCount
        invariant i <= lockCount && i * stripe <= |chains|
        invariant keys == KeysOf(chains[..i * stripe], keep)
      {
        StripeFits(i, lockCount, stripe);
        keys := CopyStripe(i * stripe, (i + 1) * stripe, keys, keep);
        i := i + 1;
      }
      assert chains[..lockCount * stripe] == chains;
    }

    method CopyStripe(from: nat, to: nat, before: seq<Bytes>, keep: Bytes -> bool) returns (keys: seq<Bytes>)
      requires Shape() && from <= to <= |chains| && before == KeysOf(chains[..from], keep)
      ensures keys == KeysOf(chains[..to], keep)
    {
      keys := before;
      var j := from;
      while j < to
        invariant from <= j <= to && keys == KeysOf(chains[..j], keep)
      {
        assert chains[..j + 1][..j] == chains[..j];
        keys := CopyBucket(j, keys, keep);
        j := j + 1;
      }
    }

    method CopyBucket(b: nat, before: seq<Bytes>, keep: Bytes -> bool) returns (keys: seq<Bytes>)
      requires Shape() && b < |chains|
      ensures keys == before + KeptKeys(chains[b], keep)
    {
      keys := before;
      var here := buckets[b];
      ghost var i := 0;
      ghost var chain := chains[b];
      while here != null
        invariant i <= |chain| && here == ChainAt(chain, i)
        invariant keys == before + KeptKeys(chain[..i], keep)
        decreases |chain| - i
      {
        assert chain[..i + 1][..i] == chain[..i];
        if keep(here.key) {
          Assoc(before, KeptKeys(chain[..i], keep), [here.key]);
          keys := keys + [here.key];
        }
        here, i := here.next, i + 1;
      }
      assert chain[..i] == chain;
    }

    // ---------- Growing ----------

    /** The growth loop: more buckets until the elements are below the threshold again. */
    method GrowCount() returns (count: nat, ghost times: nat, ghost less: nat)
      requires Geometry(buckets.Length) && buckets.Length > 0
      modifies this`threshold
      ensures times > 0 && count == buckets.Length * times && threshold == count * load / 100
      ensures IsPow2(count) && elementCount < threshold
      ensures elementCount < old(threshold) ==> count == buckets.Length
      ensures count != buckets.Length ==> count == less * growth && elementCount >= less * load / 100
    {
      count, times, less := buckets.Length, 1, 0;
      while elementCount >= threshold
        invariant times > 0 && count == buckets.Length * times && threshold == count * load / 100
        invariant IsPow2(count)
        invariant elementCount < old(threshold) ==> count == buckets.Length && threshold == old(threshold)
        invariant count != buckets.Length ==> count == less * growth && elementCount >= less * load / 100
        decreases 100 * (elementCount + 1) - count * load
      {
        GrowsBy(count, load, growth, buckets.Length, times);
        Pow2Product(count, growth);
        less, count, times := count, count * growth, times * growth;
        threshold := count * load / 100;
      }
    }

    /** realloc of the buckets, and the new ones cleared. */
    method CopyBuckets(count: nat) returns (temp: array<Node?>)
      requires count >= buckets.Length
      ensures fresh(temp) && temp.Length == count
      ensures forall c | 0 <= c < buckets.Length :: temp[c] == buckets[c]
      ensures forall c | buckets.Length <= c < count :: temp[c] == null
    {
      temp := new Node?[count](_ => null);
      for k := 0 to buckets.Length
        invariant forall c | 0 <= c < k :: temp[c] == buckets[c]
        invariant forall c | k <= c < count :: temp[c] == null
      {
        temp[k] := buckets[k];
      }
    }

    method SetBuckets(temp: array<Node?>)
      requires Shape() && temp.Length >= buckets.Length
      requires forall c | 0 <= c < buckets.Length :: temp[c] == buckets[c]
      requires forall c | buckets.Length <= c < temp.Length :: temp[c] == null
      modifies this`buckets, this`chains
      ensures Shape() && buckets == temp
      ensures chains == old(chains) + Empties(temp.Length - old(buckets.Length))
    {
      ghost var more := temp.Length - buckets.Length;
      buckets, chains := temp, chains + Empties(more);
    }

    /** Moves one node to the bucket its hash asks for. */
    method MoveNode(src: nat, ghost i: nat, prev: Node?, e: Node, d: nat, ghost was: nat, ghost times: nat)
      requires Shape() && TotalOrder(cmp, key) && Keyed(key, repr) && Unique(repr)
      requires src < was && Moving(cmp, hash, chains, repr, was, src) && |chains| == was * times && times > 0
      requires i < |chains[src]| && e == chains[src][i] && prev == ChainAt(chains[src], i - 1) && Stay(hash, chains, src, i)
      requires d == Bucket(hash(e.key), |chains|) && d != src
      modifies buckets, this`chains, this`repr, repr
      ensures Shape() && repr == old(repr) && |chains| == old(|chains|)
      ensures Moving(cmp, hash, chains, repr, was, src)
      ensures chains[src] == Removed(old(chains[src]), i) && Stay(hash, chains, src, i)
    {
      ghost var before, nodes := chains, repr;
      Unlink(src, i, prev, e);
      ghost var j := Rehang(d, e);
      assert chains == Moved(before, src, i, d, j, e) && repr == nodes;
      MoveKeeps(cmp, hash, before, nodes, was, times, src, i, j, e);
    }

    /** Puts an unlinked node where it belongs in its new chain. */
    method Rehang(d: nat, e: Node) returns (ghost j: nat)
      requires Shape() && TotalOrder(cmp, key) && Keyed(key, repr) && key(e.key) && e !in repr
      requires d < |chains| && Sorted(cmp, chains[d]) && forall n | n in repr :: n.key != e.key
      modifies buckets, this`chains, this`repr, e, repr
      ensures Shape() && Belongs(cmp, old(chains)[d], j, e.key)
      ensures chains == old(chains)[d := Inserted(old(chains)[d], j, e)] && repr == old(repr) + {e}
    {
      var prev, here;
      prev, here, j := PlaceOf(d, e.key);
      Link(d, j, prev, here, e);
    }

    /** The walk over the destination chain, which cannot hold the key. */
    method PlaceOf(d: nat, k: Bytes) returns (prev: Node?, here: Node?, ghost j: nat)
      requires Shape() && TotalOrder(cmp, key) && Keyed(key, repr) && key(k)
      requires d < |chains| && Sorted(cmp, chains[d]) && forall n | n in repr :: n.key != k
      ensures Belongs(cmp, chains[d], j, k) && prev == ChainAt(chains[d], j - 1) && here == ChainAt(chains[d], j)
    {
      KeysOfChain(d);
      var found;
      found, prev, here, j := Locate(d, k);
      assert !found;
    }

    lemma KeysOfChain(b: nat)
      requires Shape() && Keyed(key, repr) && b < |chains|
      ensures forall i {:trigger chains[b][i].key} | 0 <= i < |chains[b]| :: key(chains[b][i].key)
    {
    }

    /** The walk over one old bucket. */
    method Rebucket(src: nat, ghost was: nat, ghost times: nat)
      requires Shape() && TotalOrder(cmp, key) && Keyed(key, repr) && Unique(repr)
      requires src < was && Moving(cmp, hash, chains, repr, was, src) && |chains| == was * times && times > 0
      requires IsPow2(|chains|)
      modifies buckets, this`chains, this`repr, repr
      ensures Shape() && repr == old(repr) && |chains| == old(|chains|)
      ensures Moving(cmp, hash, chains, repr, was, src + 1)
    {
      var prev, here := null, buckets[src];
      ghost var i := 0;
      while here != null
        invariant Shape() && repr == old(repr) && |chains| == old(|chains|)
        invariant Moving(cmp, hash, chains, repr, was, src)
        invariant i <= |chains[src]| && prev == ChainAt(chains[src], i - 1) && here == ChainAt(chains[src], i)
        invariant Stay(hash, chains, src, i)
        decreases |chains[src]| - i
      {
        var d := BucketOf(here.key);
        var next := here.next;
        if d == src {
          prev := here;
          i := i + 1;
        } else {
          MoveNode(src, i, prev, here, d, was, times);
        }
        here := next;
      }
      MovingNext(cmp, hash, chains, repr, was, src);
    }

    /** htable_resize, with the write lock held: the nodes stay the same, the elements are below the new
        threshold, and every node hangs off bucket hash & (bucket_count - 1) of the new count. */
    method Resize()
      requires Valid() && TotalOrder(cmp, key)
      modifies this`buckets, this`chains, this`repr, this`threshold, this`lockCount, buckets, repr
      ensures Valid() && repr == old(repr) && elementCount < threshold == buckets.Length * load / 100
      ensures chains != [] && Hung(hash, chains, repr) && |chains| == buckets.Length >= old(buckets.Length)
      ensures buckets.Length != old(buckets.Length) ==> elementCount >= buckets.Length / growth * load / 100
      ensures buckets == old(buckets) || fresh(buckets)
    {
      NoKeyTwice(cmp, hash, key, chains, repr);
      var was := buckets.Length;
      var count, times := Regrow();
      if count != was { Spread(count, times); }
      LawfulHung(cmp, hash, chains, repr);
    }

    /** The growth loop and the lock count that goes with it. */
    method Regrow() returns (count: nat, ghost times: nat)
      requires Geometry(buckets.Length) && buckets.Length > 0
      modifies this`threshold, this`lockCount
      ensures Geometry(count) && elementCount < threshold
      ensures times > 0 && count == buckets.Length * times && count >= buckets.Length
      ensures count != buckets.Length ==> elementCount >= count / growth * load / 100
    {
      ghost var locks, less := lockCount, 0;
      count, times, less := GrowCount();
      DivMod(growth, less, 0);
      StripesExtend(locks, stripe, times, count);
      MulMonotone(buckets.Length, 1, times);
      if count != buckets.Length { lockCount := count / stripe; }
    }

    method Spread(count: nat, ghost times: nat)
      requires Shape() && TotalOrder(cmp, key) && Keyed(key, repr) && Unique(repr)
      requires Lawful(cmp, hash, chains, repr) && count == |chains| * times && count > |chains| && IsPow2(count)
      modifies this`buckets, this`chains, this`repr, buckets, repr
      ensures Shape() && repr == old(repr) && Lawful(cmp, hash, chains, repr)
      ensures buckets.Length == count && fresh(buckets)
    {
      var was := buckets.Length;
      MovingStarts(cmp, hash, chains, repr, count - was);
      var temp := CopyBuckets(count);
      SetBuckets(temp);
      Rehash(was, times);
    }

    /** The rehash loop over all old buckets. */
    method Rehash(was: nat, ghost times: nat)
      requires Shape() && TotalOrder(cmp, key) && Keyed(key, repr) && Unique(repr)
      requires Moving(cmp, hash, chains, repr, was, 0) && |chains| == was * times && times > 0 && IsPow2(|chains|)
      modifies buckets, this`chains, this`repr, repr
      ensures Shape() && repr == old(repr) && Lawful(cmp, hash, chains, repr) && |chains| == old(|chains|)
    {
      var src := 0;
      while src < was
        invariant Shape() && repr == old(repr) && |chains| == old(|chains|) && src <= was
        invariant Moving(cmp, hash, chains, repr, was, src)
      {
        Rebucket(src, was, times);
        src := src + 1;
      }
      MovingEnds(cmp, hash, chains, repr, was);
    }

    /** htable_add: succeeds exactly for a key that is not there, whether or not it is this thread that gets
        the lock to resize first. */
    method Add(e: Node, locked: bool) returns (added: bool)
      requires Valid() && TotalOrder(cmp, key) && key(e.key) && e !in repr
      modifies this, buckets, e, repr
      ensures Valid() && Unique(old(repr)) && (added <==> e.key !in Content(old(repr)))
      ensures Unique(repr) && Content(repr) == if added then Content(old(repr))[e.key := e] else Content(old(repr))
      ensures buckets == old(buckets) || fresh(buckets)
      ensures locked ==> elementCount <= threshold
      ensures !locked || old(elementCount) < old(threshold) ==> buckets == old(buckets)
    {
      if elementCount >= threshold && locked { Resize(); }
      NoKeyTwice(cmp, hash, key, chains, repr);
      ghost var nodes := repr;
      added := Insert(e);
      if added { ContentAdded(nodes, e); }
    }
  }

  lemma GrowsBy(count: nat, load: nat, growth: nat, buckets: nat, times: nat)
    requires growth > 1 && load > 0 && buckets > 0 && times > 0 && count == buckets * times
    ensures count * growth == buckets * (times * growth) && times * growth > 0
    ensures count * growth * load > count * load
  {
    assert count > 0;
    MulMonotone(count, 2, growth);
    MulMonotone(load, 2 * count, count * growth);
    assert load * (2 * count) == 2 * (count * load);
    assert count * load > 0;
  }

  lemma StripesExtend(locks: nat, stripe: nat, times: nat, count: nat)
    requires stripe > 0 && count == locks * stripe * times
    ensures count / stripe * stripe == count
  {
    assert count == stripe * (locks * times);
    DivMod(stripe, locks * times, 0);
    assert count == stripe * (count / stripe) + count % stripe;
  }
}
