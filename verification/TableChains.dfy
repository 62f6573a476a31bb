/** What the chains of the hash table in server/htable.c satisfy: where nodes are, in which order, what the
    table stands for as a map, and how rehashing moves them. */
module TableChains {
  import opened Arithmetic
  import opened ByteStrings
  import opened Chains
  import opened KeyOrder

  class Node {
    const key: Bytes
    var next: Node?
    ghost var home: nat   // the bucket it hangs off

    constructor (k: Bytes)
      ensures key == k && next == null
    {
      key, next := k, null;
    }
  }

  ghost function ChainAt(chain: seq<Node>, i: int): (n: Node?) {
    if 0 <= i < |chain| then chain[i] else null
  }

  ghost predicate Sorted(cmp: Compare, chain: seq<Node>) {
    forall i, j {:trigger chain[i].key, chain[j].key} | 0 <= i < j < |chain| :: Less(cmp, chain[i].key, chain[j].key)
  }

  /** Position j of a chain is where a new key belongs. */
  ghost predicate Belongs(cmp: Compare, chain: seq<Node>, j: nat, k: Bytes) {
    && j <= |chain|
    && (forall i | 0 <= i < j :: Less(cmp, chain[i].key, k))
    && (forall i | j <= i < |chain| :: Less(cmp, k, chain[i].key))
  }

  lemma SortedInserted(cmp: Compare, chain: seq<Node>, j: nat, e: Node)
    requires Sorted(cmp, chain) && Belongs(cmp, chain, j, e.key)
    ensures Sorted(cmp, Inserted(chain, j, e))
  {
  }

  lemma SortedRemoved(cmp: Compare, chain: seq<Node>, j: nat)
    requires j < |chain| && Sorted(cmp, chain)
    ensures Sorted(cmp, Removed(chain, j))
  {
  }

  // ---------- Where nodes are ----------

  /** hash & (bucket_count - 1), for bucket counts that are powers of two. */
  function Bucket(h: nat, count: nat): (b: nat)
    requires count > 0
    ensures b < count
  {
    h % count
  }

  /** When the buckets multiply, a node stays in its bucket or moves behind all the old ones. */
  lemma MovesUp(h: nat, was: nat, times: nat)
    requires was > 0 && times > 0
    ensures Bucket(h, was * times) == Bucket(h, was) || Bucket(h, was * times) >= was
  {
    var q, r := h / (was * times), h % (was * times);
    assert h == was * (times * q) + r;
    if r < was { DivMod(was, times * q, r); }
  }

  /** While buckets from `from` on still have to be sorted out: nodes are in their new bucket, or still in
      their old one. */
  ghost predicate Placed(hash: Bytes -> nat, chains: seq<seq<Node>>, was: nat, from: nat)
    requires 0 < was <= |chains|
  {
    forall b, i {:trigger chains[b][i].key} | 0 <= b < |chains| && 0 <= i < |chains[b]| ::
      var h := hash(chains[b][i].key);
      b == Bucket(h, |chains|) || (from <= b && b == Bucket(h, was))
  }

  /** Every node of the table hangs off its bucket, the new one or the old one. */
  ghost predicate Found(hash: Bytes -> nat, chains: seq<seq<Node>>, nodes: set<Node>, was: nat)
    requires 0 < was <= |chains|
  {
    forall n {:trigger n.key} | n in nodes ::
      n in chains[Bucket(hash(n.key), |chains|)] || n in chains[Bucket(hash(n.key), was)]
  }

  /** What the chains of a settled table satisfy, links apart. */
  ghost predicate Lawful(cmp: Compare, hash: Bytes -> nat, chains: seq<seq<Node>>, nodes: set<Node>) {
    && chains != []
    && (forall b {:trigger Sorted(cmp, chains[b])} | 0 <= b < |chains| :: Sorted(cmp, chains[b]))
    && Placed(hash, chains, |chains|, |chains|)
    && Found(hash, chains, nodes, |chains|)
  }

  ghost predicate Keyed(key: Bytes -> bool, nodes: set<Node>) {
    forall n {:trigger key(n.key)} | n in nodes :: key(n.key)
  }

  /** Looking only into the bucket of a key finds it whenever it is in the table. */
  lemma LookUp(hash: Bytes -> nat, chains: seq<seq<Node>>, nodes: set<Node>, k: Bytes)
    requires chains != [] && Found(hash, chains, nodes, |chains|)
    ensures forall n | n in nodes && n.key == k :: n in chains[Bucket(hash(k), |chains|)]
  {
  }

  lemma AddedPlaced(hash: Bytes -> nat, chains: seq<seq<Node>>, nodes: set<Node>, b: nat, j: nat, e: Node)
    requires chains != [] && Found(hash, chains, nodes, |chains|) && Placed(hash, chains, |chains|, |chains|)
    requires b == Bucket(hash(e.key), |chains|) && j <= |chains[b]|
    ensures Found(hash, chains[b := Inserted(chains[b], j, e)], nodes + {e}, |chains|)
    ensures Placed(hash, chains[b := Inserted(chains[b], j, e)], |chains|, |chains|)
  {
    var after: seq<seq<Node>> := chains[b := Inserted(chains[b], j, e)];
    forall c, i | 0 <= c < |after| && 0 <= i < |after[c]|
      ensures Bucket(hash(after[c][i].key), |chains|) == c
    {
      if c == b && i != j {
        assert after[c][i].key == chains[c][if i < j then i else i - 1].key;
      } else if c != b {
        assert after[c][i].key == chains[c][i].key;
      }
    }
    forall n | n in nodes + {e}
      ensures n in after[Bucket(hash(n.key), |chains|)]
    {
      InInserted(chains[b], j, e, n);
    }
  }

  lemma RemovedPlaced(hash: Bytes -> nat, chains: seq<seq<Node>>, nodes: set<Node>, b: nat, i: nat, e: Node)
    requires chains != [] && Found(hash, chains, nodes, |chains|) && Placed(hash, chains, |chains|, |chains|)
    requires b < |chains| && i < |chains[b]| && e == chains[b][i]
    ensures Found(hash, chains[b := Removed(chains[b], i)], nodes - {e}, |chains|)
    ensures Placed(hash, chains[b := Removed(chains[b], i)], |chains|, |chains|)
  {
    var after: seq<seq<Node>> := chains[b := Removed(chains[b], i)];
    forall c, j | 0 <= c < |after| && 0 <= j < |after[c]|
      ensures Bucket(hash(after[c][j].key), |chains|) == c
    {
      if c == b {
        assert after[c][j].key == chains[c][if j < i then j else j + 1].key;
      } else {
        assert after[c][j].key == chains[c][j].key;
      }
    }
    forall n | n in nodes - {e}
      ensures n in after[Bucket(hash(n.key), |chains|)]
    {
      InRemoved(chains[b], i, n);
    }
  }

  lemma AddedLawful(cmp: Compare, hash: Bytes -> nat, chains: seq<seq<Node>>, nodes: set<Node>, b: nat, j: nat, e: Node)
    requires Lawful(cmp, hash, chains, nodes)
    requires b == Bucket(hash(e.key), |chains|) && Belongs(cmp, chains[b], j, e.key)
    ensures Lawful(cmp, hash, chains[b := Inserted(chains[b], j, e)], nodes + {e})
  {
    AddedPlaced(hash, chains, nodes, b, j, e);
    SortedInserted(cmp, chains[b], j, e);
  }

  lemma RemovedLawful(cmp: Compare, hash: Bytes -> nat, chains: seq<seq<Node>>, nodes: set<Node>, b: nat, i: nat, e: Node)
    requires Lawful(cmp, hash, chains, nodes)
    requires b < |chains| && i < |chains[b]| && e == chains[b][i]
    ensures Lawful(cmp, hash, chains[b := Removed(chains[b], i)], nodes - {e})
  {
    RemovedPlaced(hash, chains, nodes, b, i, e);
    SortedRemoved(cmp, chains[b], i);
  }

  // ---------- The table as a finite map ----------

  ghost predicate Unique(nodes: set<Node>) {
    forall n, m {:trigger n.key, m.key} | n in nodes && m in nodes && n.key == m.key :: n == m
  }

  /** No key is in the table twice: the two nodes would be in one strictly sorted chain. */
  lemma NoKeyTwice(cmp: Compare, hash: Bytes -> nat, key: Bytes -> bool, chains: seq<seq<Node>>, nodes: set<Node>)
    requires TotalOrder(cmp, key) && Keyed(key, nodes) && Lawful(cmp, hash, chains, nodes)
    ensures Unique(nodes)
  {
    forall n, m | n in nodes && m in nodes && n.key == m.key
      ensures n == m
    {
      var chain := chains[Bucket(hash(n.key), |chains|)];
      assert Sorted(cmp, chain) && key(n.key) && cmp(n.key, n.key) == 0;
      var i :| 0 <= i < |chain| && chain[i] == n;
      var j :| 0 <= j < |chain| && chain[j] == m;
      assert chain[i].key == chain[j].key;
    }
  }

  ghost function Content(nodes: set<Node>): (m: map<Bytes, Node>)
    requires Unique(nodes)
    ensures forall n | n in nodes :: n.key in m && m[n.key] == n
    ensures forall k | k in m :: m[k] in nodes && m[k].key == k
  {
    map n | n in nodes :: n.key := n
  }

  /** An added node is one more binding. */
  lemma ContentAdded(nodes: set<Node>, e: Node)
    requires Unique(nodes) && forall n | n in nodes :: n.key != e.key
    ensures Unique(nodes + {e}) && Content(nodes + {e}) == Content(nodes)[e.key := e]
  {
    var m := Content(nodes + {e});
    forall k | k in Content(nodes)[e.key := e]
      ensures k in m && m[k] == Content(nodes)[e.key := e][k]
    {
    }
  }

  /** A removed node is one binding less. */
  lemma ContentRemoved(nodes: set<Node>, e: Node)
    requires Unique(nodes) && e in nodes
    ensures Unique(nodes - {e}) && Content(nodes - {e}) == Content(nodes) - {e.key}
  {
    forall k | k in Content(nodes) - {e.key}
      ensures k in Content(nodes - {e})
    {
      assert Content(nodes)[k].key == k && Content(nodes)[k] in nodes - {e};
    }
  }

  /** What a removal returns and leaves. */
  ghost predicate TakenOut(nodes: set<Node>, after: set<Node>, k: Bytes, removed: Node?) {
    && Unique(nodes) && Unique(after) && after <= nodes
    && removed == (if k in Content(nodes) then Content(nodes)[k] else null)
    && Content(after) == Content(nodes) - {k}
  }

  lemma ContentWithout(nodes: set<Node>, k: Bytes, removed: Node?)
    requires Unique(nodes)
    requires removed == null ==> forall n | n in nodes :: n.key != k
    requires removed != null ==> removed in nodes && removed.key == k
    ensures TakenOut(nodes, nodes - {removed}, k, removed)
  {
    if removed == null {
      assert nodes - {removed} == nodes;
      assert Content(nodes) - {k} == Content(nodes);
    } else {
      ContentRemoved(nodes, removed);
    }
  }

  // ---------- Listing all keys ----------

  function KeptKeys(chain: seq<Node>, keep: Bytes -> bool): seq<Bytes> {
    if chain == [] then []
    else
      var last := chain[|chain| - 1];
      KeptKeys(chain[..|chain| - 1], keep) + if keep(last.key) then [last.key] else []
  }

  function KeysOf(chains: seq<seq<Node>>, keep: Bytes -> bool): seq<Bytes> {
    if chains == [] then [] else KeysOf(chains[..|chains| - 1], keep) + KeptKeys(chains[|chains| - 1], keep)
  }

  lemma StripeFits(i: nat, locks: nat, stripe: nat)
    requires i < locks
    ensures i * stripe <= (i + 1) * stripe <= locks * stripe
  {
    MulMonotone(stripe, i, i + 1);
    MulMonotone(stripe, i + 1, locks);
  }

  ghost predicate HasKey(chain: seq<Node>, k: Bytes) {
    exists i | 0 <= i < |chain| :: chain[i].key == k
  }

  lemma HasKeySplit(chain: seq<Node>, k: Bytes)
    requires chain != []
    ensures HasKey(chain, k) <==> HasKey(chain[..|chain| - 1], k) || chain[|chain| - 1].key == k
  {
    var rest := chain[..|chain| - 1];
    if i :| 0 <= i < |chain| && chain[i].key == k {
      assert i < |rest| ==> rest[i].key == k;
    }
    if i :| 0 <= i < |rest| && rest[i].key == k {
      assert chain[i].key == k;
    }
  }

  lemma {:induction false} InKeptKeys(chain: seq<Node>, keep: Bytes -> bool, k: Bytes)
    ensures k in KeptKeys(chain, keep) <==> keep(k) && HasKey(chain, k)
    decreases |chain|
  {
    if chain != [] {
      HasKeySplit(chain, k);
      InKeptKeys(chain[..|chain| - 1], keep, k);
    }
  }

  lemma {:induction false} InKeysOf(chains: seq<seq<Node>>, keep: Bytes -> bool, k: Bytes)
    ensures k in KeysOf(chains, keep) <==> keep(k) && exists b | 0 <= b < |chains| :: HasKey(chains[b], k)
    decreases |chains|
  {
    if chains != [] {
      var rest: seq<seq<Node>> := chains[..|chains| - 1];
      InKeysOf(rest, keep, k);
      InKeptKeys(chains[|chains| - 1], keep, k);
      if b :| 0 <= b < |rest| && HasKey(rest[b], k) {
        assert HasKey(chains[b], k);
      }
      if b :| 0 <= b < |chains| && HasKey(chains[b], k) {
        assert b < |rest| ==> HasKey(rest[b], k);
      }
    }
  }

  lemma LastIsNew(cmp: Compare, key: Bytes -> bool, chain: seq<Node>)
    requires TotalOrder(cmp, key) && Sorted(cmp, chain) && chain != [] && key(chain[|chain| - 1].key)
    ensures forall n | n in chain[..|chain| - 1] :: n.key != chain[|chain| - 1].key
  {
    var last := chain[|chain| - 1];
    assert cmp(last.key, last.key) == 0;
    forall i | 0 <= i < |chain| - 1
      ensures chain[i].key != last.key
    {
      assert Less(cmp, chain[i].key, chain[|chain| - 1].key);
    }
  }

  lemma OtherBucket(hash: Bytes -> nat, chains: seq<seq<Node>>, b: nat, i: nat, c: nat, j: nat)
    requires chains != [] && Placed(hash, chains, |chains|, |chains|)
    requires b < |chains| && i < |chains[b]| && c < |chains| && j < |chains[c]| && b != c
    ensures chains[b][i].key != chains[c][j].key
  {
  }

  lemma {:induction false} KeptKeysOnce(cmp: Compare, key: Bytes -> bool, chain: seq<Node>, keep: Bytes -> bool)
    requires TotalOrder(cmp, key) && Sorted(cmp, chain) && forall i | 0 <= i < |chain| :: key(chain[i].key)
    ensures Distinct(KeptKeys(chain, keep))
    decreases |chain|
  {
    if chain != [] {
      var rest, last := chain[..|chain| - 1], chain[|chain| - 1];
      forall i, j | 0 <= i < j < |rest|
        ensures Less(cmp, rest[i].key, rest[j].key)
      {
        assert chain[i].key == rest[i].key && chain[j].key == rest[j].key;
      }
      KeptKeysOnce(cmp, key, rest, keep);
      InKeptKeys(rest, keep, last.key);
      LastIsNew(cmp, key, chain);
      DistinctAppend(KeptKeys(rest, keep), last.key);
    }
  }

  lemma {:induction false} KeysOnceUpTo(cmp: Compare, hash: Bytes -> nat, key: Bytes -> bool, chains: seq<seq<Node>>,
                                        nodes: set<Node>, upto: nat, keep: Bytes -> bool)
    requires TotalOrder(cmp, key) && Lawful(cmp, hash, chains, nodes) && upto <= |chains|
    requires forall b, i {:trigger chains[b][i].key} | 0 <= b < |chains| && 0 <= i < |chains[b]| :: key(chains[b][i].key)
    ensures Distinct(KeysOf(chains[..upto], keep))
    decreases upto
  {
    if upto > 0 {
      var last := chains[upto - 1];
      assert chains[..upto][..upto - 1] == chains[..upto - 1];
      KeysOnceUpTo(cmp, hash, key, chains, nodes, upto - 1, keep);
      assert Sorted(cmp, last);
      KeptKeysOnce(cmp, key, last, keep);
      forall k | k in KeysOf(chains[..upto - 1], keep)
        ensures k !in KeptKeys(last, keep)
      {
        InKeysOf(chains[..upto - 1], keep, k);
        var b :| 0 <= b < upto - 1 && HasKey(chains[..upto - 1][b], k);
        var i :| 0 <= i < |chains[b]| && chains[b][i].key == k;
        InKeptKeys(last, keep, k);
        forall j | 0 <= j < |last|
          ensures last[j].key != k
        {
          OtherBucket(hash, chains, b, i, upto - 1, j);
        }
      }
      DistinctConcat(KeysOf(chains[..upto - 1], keep), KeptKeys(last, keep));
    }
  }

  /** The listing has every wanted key of the table exactly once, and nothing else. */
  lemma EveryKeyOnce(cmp: Compare, hash: Bytes -> nat, key: Bytes -> bool, chains: seq<seq<Node>>, nodes: set<Node>, keep: Bytes -> bool)
    requires TotalOrder(cmp, key) && Lawful(cmp, hash, chains, nodes) && Keyed(key, nodes)
    requires forall b, i {:trigger chains[b][i]} | 0 <= b < |chains| && 0 <= i < |chains[b]| :: chains[b][i] in nodes
    ensures Distinct(KeysOf(chains, keep))
    ensures forall k :: k in KeysOf(chains, keep) <==> keep(k) && exists n :: n in nodes && n.key == k
  {
    assert chains[..|chains|] == chains;
    KeysOnceUpTo(cmp, hash, key, chains, nodes, |chains|, keep);
    forall k
      ensures k in KeysOf(chains, keep) <==> keep(k) && exists n :: n in nodes && n.key == k
    {
      InKeysOf(chains, keep, k);
      if n :| n in nodes && n.key == k {
        var chain := chains[Bucket(hash(k), |chains|)];
        var i :| 0 <= i < |chain| && chain[i] == n;
        assert HasKey(chain, k);
      }
    }
  }

  lemma {:induction false} NoKeys(chains: seq<seq<Node>>, keep: Bytes -> bool)
    requires forall b | 0 <= b < |chains| :: chains[b] == []
    ensures KeysOf(chains, keep) == []
    decreases |chains|
  {
    if chains != [] { NoKeys(chains[..|chains| - 1], keep); }
  }

  // ---------- Rehashing in place ----------

  /** While buckets from `from` on still have to be sorted out. */
  ghost predicate Moving(cmp: Compare, hash: Bytes -> nat, chains: seq<seq<Node>>, nodes: set<Node>, was: nat, from: nat) {
    && 0 < was <= |chains|
    && (forall b {:trigger Sorted(cmp, chains[b])} | 0 <= b < |chains| :: Sorted(cmp, chains[b]))
    && Placed(hash, chains, was, from)
    && Found(hash, chains, nodes, was)
  }

  /** The first nodes of the bucket being sorted out that stay. */
  ghost predicate Stay(hash: Bytes -> nat, chains: seq<seq<Node>>, src: nat, upto: nat)
    requires src < |chains| && upto <= |chains[src]|
  {
    forall t {:trigger chains[src][t].key} | 0 <= t < upto :: Bucket(hash(chains[src][t].key), |chains|) == src
  }

  lemma MovingStarts(cmp: Compare, hash: Bytes -> nat, chains: seq<seq<Node>>, nodes: set<Node>, more: nat)
    requires Lawful(cmp, hash, chains, nodes)
    ensures Moving(cmp, hash, chains + Empties(more), nodes, |chains|, 0)
  {
    var all: seq<seq<Node>> := chains + Empties(more);
    forall b, i | 0 <= b < |all| && 0 <= i < |all[b]|
      ensures b == Bucket(hash(all[b][i].key), |chains|)
    {
      assert all[b][i].key == chains[b][i].key;
    }
    forall b | 0 <= b < |all|
      ensures Sorted(cmp, all[b])
    {
      if b < |chains| { assert Sorted(cmp, chains[b]); }
    }
  }

  lemma MovingNext(cmp: Compare, hash: Bytes -> nat, chains: seq<seq<Node>>, nodes: set<Node>, was: nat, src: nat)
    requires Moving(cmp, hash, chains, nodes, was, src) && src < |chains| && Stay(hash, chains, src, |chains[src]|)
    ensures Moving(cmp, hash, chains, nodes, was, src + 1)
  {
  }

  lemma MovingEnds(cmp: Compare, hash: Bytes -> nat, chains: seq<seq<Node>>, nodes: set<Node>, was: nat)
    requires Moving(cmp, hash, chains, nodes, was, was)
    ensures Lawful(cmp, hash, chains, nodes)
  {
    forall n | n in nodes
      ensures n in chains[Bucket(hash(n.key), |chains|)]
    {
      var b := Bucket(hash(n.key), was);
      if n in chains[b] {
        var i :| 0 <= i < |chains[b]| && chains[b][i] == n;
        assert chains[b][i].key == n.key;
      }
    }
  }

  ghost function Empties(n: nat): (e: seq<seq<Node>>)
    ensures |e| == n
    ensures forall b | 0 <= b < n :: e[b] == []
  {
    seq(n, _ => [])
  }

  ghost function Moved(chains: seq<seq<Node>>, src: nat, i: nat, d: nat, j: nat, e: Node): (r: seq<seq<Node>>)
    requires src < |chains| && d < |chains| && src != d && i < |chains[src]| && j <= |chains[d]|
    ensures |r| == |chains|
  {
    chains[src := Removed(chains[src], i)][d := Inserted(chains[d], j, e)]
  }

  /** Moving one node to the bucket its hash now asks for: it lands behind all old buckets, chains stay
      sorted, and the nodes before it in its old chain stay. */
  lemma MoveKeeps(cmp: Compare, hash: Bytes -> nat, chains: seq<seq<Node>>, nodes: set<Node>,
                  was: nat, times: nat, src: nat, i: nat, j: nat, e: Node)
    requires Moving(cmp, hash, chains, nodes, was, src) && src < was && |chains| == was * times && times > 0
    requires i < |chains[src]| && e == chains[src][i] && Stay(hash, chains, src, i)
    requires var d := Bucket(hash(e.key), |chains|); d != src && Belongs(cmp, chains[d], j, e.key)
    ensures var d := Bucket(hash(e.key), |chains|);
            && d >= was
            && Moving(cmp, hash, Moved(chains, src, i, d, j, e), nodes, was, src)
            && Stay(hash, Moved(chains, src, i, d, j, e), src, i)
  {
    var d := Bucket(hash(e.key), |chains|);
    var r: seq<seq<Node>> := Moved(chains, src, i, d, j, e);
    assert src == Bucket(hash(chains[src][i].key), was);
    MovesUp(hash(e.key), was, times);
    SortedInserted(cmp, chains[d], j, e);
    SortedRemoved(cmp, chains[src], i);
    MovePlaced(hash, chains, was, src, i, d, j, e);
    MoveFound(hash, chains, nodes, was, src, i, d, j, e);
    forall b | 0 <= b < |r|
      ensures Sorted(cmp, r[b])
    {
      if b != src && b != d { assert Sorted(cmp, chains[b]); }
    }
    forall t | 0 <= t < i
      ensures Bucket(hash(r[src][t].key), |r|) == src
    {
      assert r[src][t].key == chains[src][t].key;
    }
  }

  lemma MovePlaced(hash: Bytes -> nat, chains: seq<seq<Node>>, was: nat, src: nat, i: nat, d: nat, j: nat, e: Node)
    requires 0 < was <= |chains| && Placed(hash, chains, was, src)
    requires src < |chains| && i < |chains[src]| && e == chains[src][i]
    requires d == Bucket(hash(e.key), |chains|) && d != src && j <= |chains[d]|
    ensures Placed(hash, Moved(chains, src, i, d, j, e), was, src)
  {
    var r: seq<seq<Node>> := Moved(chains, src, i, d, j, e);
    forall b, t | 0 <= b < |r| && 0 <= t < |r[b]|
      ensures var h := hash(r[b][t].key); b == Bucket(h, |r|) || (src <= b && b == Bucket(h, was))
    {
      if b == src {
        assert r[b][t].key == chains[b][if t < i then t else t + 1].key;
      } else if b == d && t != j {
        assert r[b][t].key == chains[b][if t < j then t else t - 1].key;
      } else if b != d {
        assert r[b][t].key == chains[b][t].key;
      }
    }
  }

  lemma MoveFound(hash: Bytes -> nat, chains: seq<seq<Node>>, nodes: set<Node>, was: nat, src: nat, i: nat, d: nat, j: nat, e: Node)
    requires 0 < was <= |chains| && Found(hash, chains, nodes, was)
    requires src < |chains| && i < |chains[src]| && e == chains[src][i]
    requires d == Bucket(hash(e.key), |chains|) && d != src && j <= |chains[d]|
    ensures Found(hash, Moved(chains, src, i, d, j, e), nodes, was)
  {
    var r: seq<seq<Node>> := Moved(chains, src, i, d, j, e);
    forall n | n in nodes
      ensures n in r[Bucket(hash(n.key), |r|)] || n in r[Bucket(hash(n.key), was)]
    {
      InRemoved(chains[src], i, n);
      InInserted(chains[d], j, e, n);
    }
  }

  /** The mask of a power of two is the remainder, so bucket numbers are what Bucket says. */
  lemma MaskIsBucket(h: nat, count: nat)
    requires IsPow2(count)
    ensures BitAnd(h, count - 1) == Bucket(h, count)
  {
    var n: nat :| count == Pow2(n);
    MaskIsRemainder(h, n);
  }

  /** A node hangs off the bucket that the masked hash of its key names, and off no other. */
  ghost predicate HangsAt(chains: seq<seq<Node>>, n: Node, b: nat) {
    b < |chains| && n in chains[b] && forall c | 0 <= c < |chains| && c != b :: n !in chains[c]
  }

  ghost predicate Hung(hash: Bytes -> nat, chains: seq<seq<Node>>, nodes: set<Node>)
    requires chains != []
  {
    forall n | n in nodes :: HangsAt(chains, n, BitAnd(hash(n.key), |chains| - 1))
  }

  lemma OffOneBucket(hash: Bytes -> nat, chains: seq<seq<Node>>, nodes: set<Node>, n: Node)
    requires chains != [] && Placed(hash, chains, |chains|, |chains|) && Found(hash, chains, nodes, |chains|) && n in nodes
    ensures HangsAt(chains, n, Bucket(hash(n.key), |chains|))
  {
    forall c | 0 <= c < |chains| && n in chains[c]
      ensures c == Bucket(hash(n.key), |chains|)
    {
      var i :| 0 <= i < |chains[c]| && chains[c][i] == n;
      assert chains[c][i].key == n.key;
    }
  }

  lemma LawfulHung(cmp: Compare, hash: Bytes -> nat, chains: seq<seq<Node>>, nodes: set<Node>)
    requires Lawful(cmp, hash, chains, nodes) && IsPow2(|chains|)
    ensures Hung(hash, chains, nodes)
  {
    forall n | n in nodes
      ensures HangsAt(chains, n, BitAnd(hash(n.key), |chains| - 1))
    {
      OffOneBucket(hash, chains, nodes, n);
      MaskIsBucket(hash(n.key), |chains|);
    }
  }

  /** A key before one node of a sorted chain is before all that follow. */
  lemma PassedBy(cmp: Compare, key: Bytes -> bool, chain: seq<Node>, j: nat, k: Bytes)
    requires TotalOrder(cmp, key) && key(k) && Sorted(cmp, chain) && j < |chain|
    requires forall i | 0 <= i < |chain| :: key(chain[i].key)
    requires Less(cmp, k, chain[j].key)
    ensures forall i | j <= i < |chain| :: Less(cmp, k, chain[i].key) && chain[i].key != k
  {
    forall i | j <= i < |chain|
      ensures Less(cmp, k, chain[i].key) && chain[i].key != k
    {
      if i > j { assert Ascending(cmp, k, chain[j].key, chain[i].key); }
    }
  }
}
