/**
 * The two indexes of the NVMe block cache (kernel/src/driver/nvme.c): the list of cache
 * slots in order of last use, and the chained hash map from block id to slot.
 */
module NvmeIndex {
  import opened Links

  /** NVME_IDX_INV */
  const INV := 0xFFFF_FFFF_FFFF_FFFF

  /** Unlinking s[k] and linking it in front again. */
  lemma MoveToFront(next: map<int, int>, prev: map<int, int>, s: seq<int>, k: int)
    requires IsList(next, prev, s) && 0 < k < |s|
    ensures var n := s[k];
            IsList(NextWithout(next, s, k)[n := s[0]], PrevWithout(prev, s, k)[n := NULL][s[0] := n],
                   [n] + Without(s, k))
  {
    Unlink(next, prev, s, k);
    FieldsAt(next, prev, s, k);
    assert Without(s, k)[0] == s[0];
    PushFront(NextWithout(next, s, k), PrevWithout(prev, s, k), Without(s, k), s[k]);
  }

  /** Times of last use, newest first. */
  ghost predicate NewestFirst(stamp: map<int, nat>, clock: nat, s: seq<int>) {
    && (forall a | a in s :: a in stamp && stamp[a] <= clock)
    && (forall i, j | 0 <= i < j < |s| :: stamp[s[i]] >= stamp[s[j]])
  }

  lemma NewestMoved(stamp: map<int, nat>, s: seq<int>, k: int, t: nat)
    requires NewestFirst(stamp, t, s) && Distinct(s) && 0 <= k < |s|
    ensures NewestFirst(stamp[s[k] := t + 1], t + 1, [s[k]] + Without(s, k))
    ensures k == 0 ==> [s[k]] + Without(s, k) == s
    ensures forall a | a in [s[k]] + Without(s, k) :: a in s
  {
    hide NewestFirst;
    var r, stamp' := [s[k]] + Without(s, k), stamp[s[k] := t + 1];
    assert forall a | a in r :: a in s;
    NewestPairs(stamp, s, k, t);
  }

  lemma NewestPairs(stamp: map<int, nat>, s: seq<int>, k: int, t: nat)
    requires NewestFirst(stamp, t, s) && Distinct(s) && 0 <= k < |s|
    ensures NewestFirst(stamp[s[k] := t + 1], t + 1, [s[k]] + Without(s, k))
  {
    hide Without;
    var r, stamp' := [s[k]] + Without(s, k), stamp[s[k] := t + 1];
    forall i, j | 0 <= i < j < |r| ensures r[i] in stamp' && r[j] in stamp' && stamp'[r[i]] >= stamp'[r[j]] {
      NewestPair(stamp, s, k, t, i, j);
    }
  }

  lemma NewestPair(stamp: map<int, nat>, s: seq<int>, k: int, t: nat, i: int, j: int)
    requires NewestFirst(stamp, t, s) && Distinct(s) && 0 <= k < |s| && 0 <= i < j < |s|
    ensures var r, stamp' := [s[k]] + Without(s, k), stamp[s[k] := t + 1];
            |r| == |s| && r[i] in stamp' && r[j] in stamp' && stamp'[r[i]] >= stamp'[r[j]]
  {
    hide Without;
    MovedIndex(s, k, i);
    MovedIndex(s, k, j);
    var q := if j <= k then j - 1 else j;
    assert s[q] in s;
    if i > 0 {
      var p := if i <= k then i - 1 else i;
      assert stamp[s[p]] >= stamp[s[q]];
    }
  }

  /** Where the elements come from when s[k] moves to the front. */
  lemma MovedIndex(s: seq<int>, k: int, i: int)
    requires Distinct(s) && 0 <= k < |s| && 0 <= i < |s|
    ensures ([s[k]] + Without(s, k))[i] == if i == 0 then s[k] else if i <= k then s[i - 1] else s[i]
    ensures i > 0 ==> ([s[k]] + Without(s, k))[i] != s[k]
  {
  }

  /** The least recently used list: nodes carry the index of their cache slot. */
  class LruList {
    var head: int
    var tail: int
    var next: map<int, int>
    var prev: map<int, int>
    var index: map<int, int>
    /** The nodes from most to least recently used, and the time of each node's last use. */
    ghost var order: seq<int>
    ghost var stamp: map<int, nat>
    ghost var clock: nat

    ghost predicate Valid()
      reads this
    {
      && IsList(next, prev, order)
      && head == At(order, 0) && tail == At(order, |order| - 1)
      && NewestFirst(stamp, clock, order)
      && (forall a | a in order :: a in index)
    }

    /** The list part of nvme_cache_container_init: slot i gets the node nodes[i], and each
        new node goes to the front.  `nodes` are the addresses that kcalloc returns. */
    constructor (nodes: seq<int>)
      requires Distinct(nodes) && forall i | 0 <= i < |nodes| :: 0 <= nodes[i]
      ensures Valid() && |order| == |nodes| && fresh(this)
      ensures forall i | 0 <= i < |nodes| ::
                order[|nodes| - 1 - i] == nodes[i] && nodes[i] in index && index[nodes[i]] == i
    {
      head, tail := NULL, NULL;
      next, prev, index := map[], map[], map[];
      order, stamp, clock := [], map[], 0;
      new;
      for i := 0 to |nodes|
        invariant Valid() && |order| == i && clock == 0
        invariant forall j | 0 <= j < i :: order[i - 1 - j] == nodes[j] && nodes[j] in index && index[nodes[j]] == j
      {
        assert nodes[i] !in order by {
          forall k | 0 <= k < i ensures order[k] != nodes[i] {
            assert order[i - 1 - (i - 1 - k)] == nodes[i - 1 - k];
          }
        }
        AddFront(nodes[i], i);
      }
    }

    /** One round of the initialising loop. */
    method AddFront(n: int, i: nat)
      requires Valid() && 0 <= n && n !in order && clock == 0 && (i == 0 <==> order == [])
      modifies this
      ensures Valid() && order == [n] + old(order) && clock == 0 && index == old(index)[n := i]
    {
      PushFront(next, prev, order, n);
      NonNull(next, prev, order);
      if i == 0 {
        tail := n;
      }
      var first := head;
      head := n;
      prev := prev[n := NULL];
      next := next[n := first];
      index := index[n := i];
      if first != NULL {
        prev := prev[first := n];
      }
      order, stamp := [n] + order, stamp[n := 0];
    }

    /** nvme_cache_inform_usage: move a node to the front. */
    method InformUsage(node: int)
      requires Valid() && node in order
      modifies this
      ensures Valid() && index == old(index)
      ensures order == [node] + Without(old(order), IndexOf(old(order), node))
      ensures node in stamp && stamp == old(stamp)[node := clock] && clock == old(clock) + 1
    {
      hide IsList, NewestFirst, NextWithout, PrevWithout;
      ghost var s, k := order, IndexOf(order, node);
      ListDistinct(next, prev, s);
      FieldsAt(next, prev, s, k);
      NewestMoved(stamp, s, k, clock);
      clock := clock + 1;
      stamp := stamp[node := clock];
      if node == head {
        return;
      }
      MoveToFront(next, prev, s, k);
      Relink(node, s, k);
      order := [node] + Without(s, k);
    }

    /** The pointer writes of nvme_cache_inform_usage for a node that is not at the head. */
    method Relink(node: int, ghost s: seq<int>, ghost k: int)
      requires IsList(next, prev, s) && 0 < k < |s| && node == s[k]
      requires head == At(s, 0) && tail == At(s, |s| - 1)
      modifies this`next, this`prev, this`head, this`tail
      ensures next == NextWithout(old(next), s, k)[node := s[0]]
      ensures prev == PrevWithout(old(prev), s, k)[node := NULL][s[0] := node]
      ensures head == node && tail == At([node] + Without(s, k), |s| - 1)
    {
      FieldsAt(next, prev, s, k);
      if prev[node] != NULL {
        next := next[prev[node] := next[node]];
      }
      if next[node] != NULL {
        prev := prev[next[node] := prev[node]];
      }
      if node == tail {
        tail := prev[node];
      }
      next := next[node := head];
      prev := prev[node := NULL];
      prev := prev[head := node];
      head := node;
    }

    /** The choice of nvme_cache_lru_evict: the slot at the tail, used no later than any
        other. */
    method Oldest() returns (slot: int)
      requires Valid() && order != []
      ensures tail in index && slot == index[tail] && tail in order
      ensures forall a | a in order :: tail in stamp && a in stamp && stamp[tail] <= stamp[a]
    {
      assert tail == order[|order| - 1];
      forall a | a in order ensures stamp[tail] <= stamp[a] {
        var i := IndexOf(order, a);
      }
      slot := index[tail];
    }
  }

  datatype Pair = Pair(bid: nat, index: nat)

  /** One bucket: the entry inside the array (INV when vacant) and the chain behind it. */
  datatype Bucket = Bucket(bid: nat, index: nat, chain: seq<Pair>) {
    function Entries(): (s: seq<Pair>) {
      (if bid == INV then [] else [Pair(bid, index)]) + chain
    }
  }

  /** The entries of bucket h are mappings of the dictionary ... */
  ghost predicate Mapped(s: seq<Pair>, h: nat, hash: nat -> nat, dict: map<nat, nat>) {
    forall e | e in s :: e.bid != INV && hash(e.bid) == h && e.bid in dict && dict[e.bid] == e.index
  }

  /** ... each once ... */
  ghost predicate Unique(s: seq<Pair>) {
    forall i, j | 0 <= i < j < |s| :: s[i].bid != s[j].bid
  }

  /** ... and all of those that hash to h. */
  ghost predicate Complete(s: seq<Pair>, h: nat, hash: nat -> nat, dict: map<nat, nat>) {
    forall b: nat | b in dict && hash(b) == h :: Pair(b, dict[b]) in s
  }

  ghost predicate BucketRight(s: seq<Pair>, h: nat, hash: nat -> nat, dict: map<nat, nat>) {
    Mapped(s, h, hash, dict) && Unique(s) && Complete(s, h, hash, dict)
  }

  lemma RemovedMembers(s: seq<Pair>, k: int)
    requires Unique(s) && 0 <= k < |s|
    ensures var r := s[..k] + s[k + 1..];
            Unique(r) && forall e :: e in r <==> e in s && e.bid != s[k].bid
  {
    var r := s[..k] + s[k + 1..];
    forall i | 0 <= i < |r| ensures r[i] == s[if i < k then i else i + 1] {
    }
    forall e | e in s && e.bid != s[k].bid ensures e in r {
      var i :| 0 <= i < |s| && s[i] == e;
      assert r[if i < k then i else i - 1] == e;
    }
  }

  /** Taking the entry at position k out of a bucket takes its id out of the dictionary. */
  lemma EntryRemoved(s: seq<Pair>, h: nat, hash: nat -> nat, dict: map<nat, nat>, k: int)
    requires BucketRight(s, h, hash, dict) && 0 <= k < |s|
    ensures BucketRight(s[..k] + s[k + 1..], h, hash, dict - {s[k].bid})
  {
    RemovedMembers(s, k);
  }

  lemma AddedMembers(s: seq<Pair>, k: int, e: Pair)
    requires Unique(s) && 0 <= k <= |s| && forall d | d in s :: d.bid != e.bid
    ensures var r := s[..k] + [e] + s[k..];
            Unique(r) && forall d :: d in r <==> d in s || d == e
  {
    var r := s[..k] + [e] + s[k..];
    assert r[k] == e;
    forall i, j | 0 <= i < j < |r| ensures r[i].bid != r[j].bid {
      assert i < k ==> r[i] == s[i];
      assert i > k ==> r[i] == s[i - 1];
      assert j < k ==> r[j] == s[j];
      assert j > k ==> r[j] == s[j - 1];
    }
    forall d | d in s ensures d in r {
      var i :| 0 <= i < |s| && s[i] == d;
      assert r[if i < k then i else i + 1] == d;
    }
  }

  /** Adding an entry for a new id to its bucket adds it to the dictionary. */
  lemma EntryAdded(s: seq<Pair>, h: nat, hash: nat -> nat, dict: map<nat, nat>, e: Pair, k: int)
    requires BucketRight(s, h, hash, dict) && 0 <= k <= |s|
    requires e.bid != INV && hash(e.bid) == h && e.bid !in dict
    ensures BucketRight(s[..k] + [e] + s[k..], h, hash, dict[e.bid := e.index])
  {
    AddedMembers(s, k, e);
  }

  /** Other buckets do not notice a change of the dictionary at one id. */
  lemma OtherBucket(s: seq<Pair>, h: nat, hash: nat -> nat, dict: map<nat, nat>, dict': map<nat, nat>, b: nat)
    requires BucketRight(s, h, hash, dict) && hash(b) != h
    requires forall c: nat | c != b :: (c in dict <==> c in dict') && (c in dict ==> dict'[c] == dict[c])
    ensures BucketRight(s, h, hash, dict')
  {
  }

  /** Where the entry of a mapped id sits in its bucket. */
  lemma EntryPosition(bk: Bucket, h: nat, hash: nat -> nat, dict: map<nat, nat>, b: nat) returns (at: int)
    requires BucketRight(bk.Entries(), h, hash, dict) && b in dict && hash(b) == h && b != INV
    ensures var s := bk.Entries();
            && 0 <= at < |s| && s[at].bid == b && (forall i | 0 <= i < |s| && i != at :: s[i].bid != b)
            && (bk.bid == b <==> at == 0 && bk.bid != INV)
            && (bk.bid != b ==> at >= |s| - |bk.chain| && bk.chain[at - (|s| - |bk.chain|)].bid == b)
  {
    var s := bk.Entries();
    at :| 0 <= at < |s| && s[at] == Pair(b, dict[b]);
    if bk.bid != INV {
      assert s[0].bid == bk.bid;
    }
  }

  lemma PositionIsFirst(bk: Bucket, at: int, k: int, b: nat)
    requires var s := bk.Entries();
             && 0 <= at < |s| && (forall i | 0 <= i < |s| && i != at :: s[i].bid != b)
             && 0 <= k < |bk.chain| && bk.chain[k].bid == b
    ensures at == |bk.Entries()| - |bk.chain| + k
  {
    var j := |bk.Entries()| - |bk.chain| + k;
    assert bk.Entries()[j] == bk.chain[k];
  }

  class HashMap {
    /** nvme_cache_hash_func: any function into the table. */
    const hash: nat -> nat
    var buckets: seq<Bucket>
    ghost var dict: map<nat, nat>

    ghost predicate Valid()
      reads this
    {
      && (forall b: nat :: hash(b) < |buckets|)
      && INV !in dict
      && forall h: nat | h < |buckets| :: BucketRight(buckets[h].Entries(), h, hash, dict)
    }

    constructor (hash: nat -> nat, size: nat)
      requires forall b: nat :: hash(b) < size
      ensures Valid() && dict == map[] && fresh(this) && this.hash == hash
    {
      this.hash := hash;
      buckets := seq(size, _ => Bucket(INV, INV, []));
      dict := map[];
    }

    /** nvme_cache_hashmap_find: the slot of a block id, INV if it is not mapped. */
    method Find(bid: nat) returns (index: nat)
      requires Valid() && bid != INV
      ensures bid in dict ==> index == dict[bid]
      ensures bid !in dict ==> index == INV
    {
      var pos := buckets[hash(bid)];
      assert BucketRight(pos.Entries(), hash(bid), hash, dict);
      if pos.bid == bid {
        assert Pair(bid, pos.index) == pos.Entries()[0];
        return pos.index;
      }
      var k := 0;
      while k < |pos.chain|
        invariant 0 <= k <= |pos.chain|
        invariant forall j | 0 <= j < k :: pos.chain[j].bid != bid
      {
        if pos.chain[k].bid == bid {
          assert pos.chain[k] in pos.Entries();
          return pos.chain[k].index;
        }
        k := k + 1;
      }
      assert forall e | e in pos.Entries() :: e.bid != bid;
      return INV;
    }

    /** The removing half of nvme_cache_hashmap_update. */
    method Remove(old_bid: nat)
      requires Valid() && old_bid in dict
      modifies this`buckets, this`dict
      ensures Valid() && dict == old(dict) - {old_bid}
    {
      hide BucketRight;
      var h := hash(old_bid);
      var bk := buckets[h];
      ghost var d := dict;
      ghost var at := EntryPosition(bk, h, hash, dict, old_bid);
      if bk.bid == old_bid {
        buckets := buckets[h := bk.(bid := INV, index := INV)];
      } else {
        var k := 0;
        while bk.chain[k].bid != old_bid
          invariant buckets == old(buckets) && dict == d
          invariant 0 <= k <= at - (|bk.Entries()| - |bk.chain|)
          decreases |bk.chain| - k
        {
          k := k + 1;
        }
        buckets := buckets[h := bk.(chain := bk.chain[..k] + bk.chain[k + 1..])];
        PositionIsFirst(bk, at, k, old_bid);
      }
      assert buckets[h].Entries() == bk.Entries()[..at] + bk.Entries()[at + 1..];
      EntryRemoved(bk.Entries(), h, hash, d, at);
      dict := d - {old_bid};
      forall g: nat | g < |buckets| ensures BucketRight(buckets[g].Entries(), g, hash, dict) {
        if g != h {
          OtherBucket(buckets[g].Entries(), g, hash, d, dict, old_bid);
        }
      }
    }

    /** The adding half of nvme_cache_hashmap_update. */
    method Add(bid: nat, index: nat)
      requires Valid() && bid != INV && bid !in dict
      modifies this`buckets, this`dict
      ensures Valid() && dict == old(dict)[bid := index]
    {
      hide BucketRight;
      var h := hash(bid);
      var bk := buckets[h];
      ghost var d, s, e := dict, bk.Entries(), Pair(bid, index);
      if bk.bid == INV {
        buckets := buckets[h := bk.(bid := bid, index := index)];
        assert buckets[h].Entries() == s[..0] + [e] + s[0..];
        EntryAdded(s, h, hash, d, e, 0);
      } else {
        buckets := buckets[h := bk.(chain := [Pair(bid, index)] + bk.chain)];
        assert buckets[h].Entries() == s[..1] + [e] + s[1..];
        EntryAdded(s, h, hash, d, e, 1);
      }
      dict := d[bid := index];
      forall g: nat | g < |buckets| ensures BucketRight(buckets[g].Entries(), g, hash, dict) {
        if g != h {
          OtherBucket(buckets[g].Entries(), g, hash, d, dict, bid);
        }
      }
    }

    /** nvme_cache_hashmap_update. */
    method Update(old_bid: nat, bid: nat, index: nat)
      requires Valid() && (old_bid == INV || old_bid in dict) && bid != INV && bid !in dict
      modifies this`buckets, this`dict
      ensures Valid() && dict == (old(dict) - {old_bid})[bid := index]
    {
      if old_bid != INV {
        Remove(old_bid);
      }
      Add(bid, index);
    }
  }
}
