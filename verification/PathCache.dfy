/**
 * One directory of the pathname cache, kernel/src/fs/pathncache.c: a red-black tree from
 * hash to the head of a doubly linked chain of entries with that hash.  For every hash
 * function the whole behaves as a map from names to entries, where names that contain a NUL count
 * up to it.
 */
module PathCache {
  import opened Links
  import opened RbModel
  import opened RbTree

  // --------------------------------------------------------------- comparing

  /** strncmp(a, b, n) == 0, from index i on. */
  predicate StrnEqual(a: string, b: string, n: nat, i: nat)
    requires i <= n <= |a| && n <= |b|
    decreases n - i
  {
    i == n || (a[i] == b[i] && (a[i] == '\0' || StrnEqual(a, b, n, i + 1)))
  }

  /** The test that lookup and eviction make on an entry. */
  predicate SameName(a: string, b: string) {
    |a| == |b| && StrnEqual(a, b, |a|, 0)
  }

  /** A name up to its first NUL. */
  function UpToNul(s: string): (r: string) {
    if s == [] || s[0] == '\0' then [] else [s[0]] + UpToNul(s[1..])
  }

  /** What the cache tells names apart by: hash, length, and the characters before a NUL. */
  datatype Id = Id(key: nat, length: nat, text: string)

  function IdOf(hash: string -> nat, name: string): (id: Id) {
    Id(hash(name), |name|, UpToNul(name))
  }

  lemma {:induction false} StrnEqualIff(a: string, b: string, i: nat)
    requires i <= |a| == |b|
    ensures StrnEqual(a, b, |a|, i) <==> UpToNul(a[i..]) == UpToNul(b[i..])
    decreases |a| - i
  {
    if i < |a| {
      StrnEqualIff(a, b, i + 1);
      var x, y := a[i..], b[i..];
      assert x[1..] == a[i + 1..] && y[1..] == b[i + 1..];
      if x[0] != '\0' && y[0] != '\0' {
        assert UpToNul(x)[0] == x[0] && UpToNul(y)[0] == y[0];
        assert UpToNul(x)[1..] == UpToNul(x[1..]) && UpToNul(y)[1..] == UpToNul(y[1..]);
      }
    }
  }

  /** Names with the same hash are the same for the cache exactly if they have the same identity. */
  lemma SameNameIff(hash: string -> nat, a: string, b: string)
    requires hash(a) == hash(b)
    ensures SameName(a, b) <==> IdOf(hash, a) == IdOf(hash, b)
  {
    if |a| == |b| {
      StrnEqualIff(a, b, 0);
      assert a[0..] == a && b[0..] == b;
    }
  }

  lemma {:induction false} NulFreeText(s: string)
    requires '\0' !in s
    ensures UpToNul(s) == s
  {
    if s != [] {
      NulFreeText(s[1..]);
    }
  }

  /** Names without a NUL are told apart by every hash function. */
  lemma NamesToldApart(hash: string -> nat, a: string, b: string)
    requires '\0' !in a && '\0' !in b
    ensures IdOf(hash, a) == IdOf(hash, b) <==> a == b
  {
    NulFreeText(a);
    NulFreeText(b);
  }

  // ----------------------------------------------------------- the tree as an index

  /** The tree items are exactly the pairs of a map. */
  ghost predicate IsIndex(items: seq<Item>, heads: map<nat, int>) {
    && (forall i | i in items :: i.key in heads && heads[i.key] == i.ref)
    && (forall k | k in heads :: Item(k, heads[k]) in items)
  }

  lemma NoItem(items: seq<Item>, heads: map<nat, int>, k: nat)
    requires IsIndex(items, heads) && forall i | i in items :: i.key != k
    ensures k !in heads
  {
    assert k in heads ==> Item(k, heads[k]).key == k;
  }

  lemma IndexInsert(items: seq<Item>, items': seq<Item>, heads: map<nat, int>, data: Item, k: int)
    requires IsIndex(items, heads) && data.key !in heads
    requires 0 <= k <= |items| && items' == items[..k] + [data] + items[k..]
    ensures IsIndex(items', heads[data.key := data.ref])
  {
    forall i | i in items'
      ensures i == data || i in items
    {
    }
    forall i | i in items
      ensures i in items'
    {
      assert items == items[..k] + items[k..];
    }
    assert items'[k] == data;
  }

  lemma IndexSet(items: seq<Item>, items': seq<Item>, heads: map<nat, int>, data: Item, k: int)
    requires IsIndex(items, heads) && Descending(items)
    requires 0 <= k < |items| && items[k].key == data.key && items' == items[k := data]
    ensures IsIndex(items', heads[data.key := data.ref])
  {
    var heads' := heads[data.key := data.ref];
    forall i | i in items'
      ensures i.key in heads' && heads'[i.key] == i.ref
    {
      var j :| 0 <= j < |items'| && items'[j] == i;
      if j != k {
        assert items[j] in items && items[j].key != items[k].key;
      }
    }
    forall x | x in heads'
      ensures Item(x, heads'[x]) in items'
    {
      if x == data.key {
        assert items'[k] == data;
      } else {
        var j :| 0 <= j < |items| && items[j] == Item(x, heads[x]);
        assert items'[j] == items[j];
      }
    }
  }

  lemma RemovedItems(items: seq<Item>, items': seq<Item>, x: Item, k: int)
    requires Descending(items) && RemovedAt(items, items', x, k)
    ensures forall i | i in items' :: i in items && i.key != x.key
    ensures forall i | i in items && i != x :: i in items'
  {
    hide Descending;
    forall i | i in items'
      ensures i in items && i.key != x.key
    {
      var j :| 0 <= j < |items'| && items'[j] == i;
      RemovedIndex(items, items', x, k, j);
    }
    forall i | i in items && i != x
      ensures i in items'
    {
      var j :| 0 <= j < |items| && items[j] == i;
      assert items'[if j < k then j else j - 1] == i;
    }
  }

  lemma RemovedIndex(items: seq<Item>, items': seq<Item>, x: Item, k: int, j: int)
    requires Descending(items) && RemovedAt(items, items', x, k) && 0 <= j < |items'|
    ensures items'[j] in items && items'[j].key != x.key
  {
    var m := if j < k then j else j + 1;
    assert items'[j] == items[m];
    assert if j < k then items[m].key > items[k].key else items[k].key > items[m].key;
  }

  lemma IndexRemove(items: seq<Item>, items': seq<Item>, heads: map<nat, int>, x: Item)
    requires IsIndex(items, heads) && Descending(items) && Removed(items, items', x)
    ensures IsIndex(items', heads - {x.key}) && x.key in heads && heads[x.key] == x.ref
  {
    var k :| RemovedAt(items, items', x, k);
    RemovedItems(items, items', x, k);
    assert items[k] in items;
  }

  // --------------------------------------------------------------- the chains

  /** The fields of struct pnc_entry other than the chain links; all entries of one directory
      have it as their parent. */
  datatype Entry = Entry(name: string, vnode: int, key: nat)

  /** Entry records, their links, the chain of every hash, and the map they stand for. */
  datatype Store = Store(ent: map<int, Entry>, next: map<int, int>, prev: map<int, int>,
                         chains: map<nat, seq<int>>, dict: map<Id, int>)

  ghost predicate EntryRight(st: Store, hash: string -> nat, k: nat, a: int) {
    && a in st.ent && st.ent[a].key == k && hash(st.ent[a].name) == k
    && IdOf(hash, st.ent[a].name) in st.dict && st.dict[IdOf(hash, st.ent[a].name)] == a
  }

  ghost predicate ChainRight(st: Store, hash: string -> nat, k: nat)
    requires k in st.chains
  {
    && st.chains[k] != [] && IsList(st.next, st.prev, st.chains[k])
    && forall a | a in st.chains[k] :: EntryRight(st, hash, k, a)
  }

  /** The entry with identity d is on the chain of its hash. */
  ghost predicate Filed(st: Store, hash: string -> nat, d: Id, a: int) {
    d.key in st.chains && a in st.chains[d.key] && a in st.ent && IdOf(hash, st.ent[a].name) == d
  }

  ghost predicate Right(st: Store, hash: string -> nat) {
    && (forall k | k in st.chains :: ChainRight(st, hash, k))
    && (forall d | d in st.dict :: Filed(st, hash, d, st.dict[d]))
    && (forall a | a in st.ent :: IdOf(hash, st.ent[a].name) in st.dict && st.dict[IdOf(hash, st.ent[a].name)] == a)
  }

  ghost function Heads(chains: map<nat, seq<int>>): (h: map<nat, int>)
    requires forall k | k in chains :: chains[k] != []
  {
    map k | k in chains :: chains[k][0]
  }

  /** A chain whose entries, links and names are left alone stays right. */
  lemma ChainKept(st: Store, st': Store, hash: string -> nat, k: nat)
    requires k in st.chains && ChainRight(st, hash, k) && k in st'.chains && st'.chains[k] == st.chains[k]
    requires forall a | a in st.chains[k] ::
               && a in st'.ent && a in st.ent && st'.ent[a] == st.ent[a]
               && (a in st.next ==> a in st'.next && st'.next[a] == st.next[a])
               && (a in st.prev ==> a in st'.prev && st'.prev[a] == st.prev[a])
               && var d := IdOf(hash, st.ent[a].name);
                  d in st.dict ==> d in st'.dict && st'.dict[d] == st.dict[d]
    ensures ChainRight(st', hash, k)
  {
    Frame(st.next, st.prev, st'.next, st'.prev, st.chains[k]);
    forall a | a in st'.chains[k]
      ensures EntryRight(st', hash, k, a)
    {
      assert EntryRight(st, hash, k, a);
    }
  }

  /** The entry on any chain: its record, and that it is on no other chain. */
  lemma OnChain(st: Store, hash: string -> nat, k: nat, a: int)
    requires Right(st, hash) && k in st.chains && a in st.chains[k]
    ensures EntryRight(st, hash, k, a)
  {
    assert ChainRight(st, hash, k);
  }

  // ------------------------------------------------------------------- adding

  /** A new chain of one entry, or a new entry behind the head of an old chain. */
  ghost function AddedChain(st: Store, k: nat, x: int): (c: seq<int>)
  {
    if k in st.chains && st.chains[k] != [] then st.chains[k][..1] + [x] + st.chains[k][1..] else [x]
  }

  ghost predicate Linked(st: Store, k: nat, x: int, next': map<int, int>, prev': map<int, int>) {
    && IsList(next', prev', AddedChain(st, k, x))
    && (forall a | a in st.next && a != x && !(k in st.chains && a in st.chains[k]) ::
          a in next' && next'[a] == st.next[a])
    && (forall a | a in st.prev && a != x && !(k in st.chains && a in st.chains[k]) ::
          a in prev' && prev'[a] == st.prev[a])
  }

  ghost function Added(st: Store, hash: string -> nat, x: int, e: Entry, next': map<int, int>, prev': map<int, int>)
    : (st': Store)
  {
    Store(st.ent[x := e], next', prev', st.chains[e.key := AddedChain(st, e.key, x)],
          st.dict[IdOf(hash, e.name) := x])
  }

  lemma AddedRight(st: Store, hash: string -> nat, x: int, e: Entry, next': map<int, int>, prev': map<int, int>)
    requires Right(st, hash) && x !in st.ent && e.key == hash(e.name) && IdOf(hash, e.name) !in st.dict
    requires Linked(st, e.key, x, next', prev')
    ensures Right(Added(st, hash, x, e, next', prev'), hash)
  {
    hide IsList, Linked, AddedChain, ChainRight, IdOf;
    var st' := Added(st, hash, x, e, next', prev');
    forall k | k in st'.chains
      ensures ChainRight(st', hash, k)
    {
      if k == e.key {
        AddedHere(st, hash, x, e, next', prev');
      } else {
        AddedElsewhere(st, hash, x, e, next', prev', k);
      }
    }
    OnAddedChain(st, e.key, x);
    forall d | d in st'.dict
      ensures Filed(st', hash, d, st'.dict[d])
    {
      if d != IdOf(hash, e.name) {
        assert Filed(st, hash, d, st.dict[d]);
      } else {
        IdKey(hash, e.name);
      }
    }
  }

  lemma IdKey(hash: string -> nat, name: string)
    ensures IdOf(hash, name).key == hash(name)
  {
  }

  lemma AddedHere(st: Store, hash: string -> nat, x: int, e: Entry, next': map<int, int>, prev': map<int, int>)
    requires Right(st, hash) && x !in st.ent && e.key == hash(e.name) && IdOf(hash, e.name) !in st.dict
    requires Linked(st, e.key, x, next', prev')
    ensures ChainRight(Added(st, hash, x, e, next', prev'), hash, e.key)
  {
    hide IsList, IdOf, Right;
    var st' := Added(st, hash, x, e, next', prev');
    forall a | a in st'.chains[e.key]
      ensures EntryRight(st', hash, e.key, a)
    {
      if a != x {
        OnChain(st, hash, e.key, a);
      }
    }
  }

  lemma OnAddedChain(st: Store, k: nat, x: int)
    ensures x in AddedChain(st, k, x)
    ensures k in st.chains ==> forall a | a in st.chains[k] :: a in AddedChain(st, k, x)
  {
    if k in st.chains && st.chains[k] != [] {
      var c := st.chains[k];
      assert c == c[..1] + c[1..];
      assert AddedChain(st, k, x)[1] == x;
    } else {
      assert AddedChain(st, k, x)[0] == x;
    }
  }

  lemma AddedElsewhere(st: Store, hash: string -> nat, x: int, e: Entry, next': map<int, int>, prev': map<int, int>,
                       k: nat)
    requires Right(st, hash) && x !in st.ent && IdOf(hash, e.name) !in st.dict && Linked(st, e.key, x, next', prev')
    requires k in st.chains && k != e.key
    ensures ChainRight(Added(st, hash, x, e, next', prev'), hash, k)
  {
    hide IsList, IdOf;
    assert ChainRight(st, hash, k);
    forall a | a in st.chains[k]
      ensures a != x && !(e.key in st.chains && a in st.chains[e.key])
      ensures a in st.ent && IdOf(hash, st.ent[a].name) != IdOf(hash, e.name)
    {
      OnChain(st, hash, k, a);
      if e.key in st.chains && a in st.chains[e.key] {
        OnChain(st, hash, e.key, a);
      }
    }
    ChainKept(st, Added(st, hash, x, e, next', prev'), hash, k);
  }

  // ------------------------------------------------------------------- evicting

  /** The chain loses its element j; a chain of one disappears. */
  ghost function EvictedChains(chains: map<nat, seq<int>>, k: nat, j: int): (c: map<nat, seq<int>>)
    requires k in chains && 0 <= j < |chains[k]|
  {
    if |chains[k]| == 1 then chains - {k} else chains[k := Without(chains[k], j)]
  }

  ghost function Evicted(st: Store, hash: string -> nat, k: nat, j: int, next': map<int, int>, prev': map<int, int>)
    : (st': Store)
    requires k in st.chains && 0 <= j < |st.chains[k]| && st.chains[k][j] in st.ent
  {
    var x := st.chains[k][j];
    Store(st.ent - {x}, next', prev', EvictedChains(st.chains, k, j), st.dict - {IdOf(hash, st.ent[x].name)})
  }

  /** What the two neighbour writes leave in the links of the records that stay. */
  ghost predicate Unlinked(st: Store, k: nat, j: int, next': map<int, int>, prev': map<int, int>)
    requires k in st.chains && 0 <= j < |st.chains[k]|
  {
    && IsList(next', prev', Without(st.chains[k], j))
    && (forall a | a in st.next && a !in st.chains[k] :: a in next' && next'[a] == st.next[a])
    && (forall a | a in st.prev && a !in st.chains[k] :: a in prev' && prev'[a] == st.prev[a])
  }

  lemma EvictedRight(st: Store, hash: string -> nat, k: nat, j: int, next': map<int, int>, prev': map<int, int>)
    requires Right(st, hash) && k in st.chains && 0 <= j < |st.chains[k]| && st.chains[k][j] in st.ent
    requires Unlinked(st, k, j, next', prev')
    ensures Right(Evicted(st, hash, k, j, next', prev'), hash)
  {
    hide IsList, Without;
    var st' := Evicted(st, hash, k, j, next', prev');
    var c := st.chains[k];
    var x := c[j];
    assert ChainRight(st, hash, k);
    ListDistinct(st.next, st.prev, c);
    OnChain(st, hash, k, x);
    forall h | h in st'.chains
      ensures ChainRight(st', hash, h)
    {
      if h == k {
        forall a | a in st'.chains[k]
          ensures EntryRight(st', hash, k, a)
        {
          OnChain(st, hash, k, a);
        }
      } else {
        EvictedElsewhere(st, hash, k, j, next', prev', h);
      }
    }
    forall d | d in st'.dict
      ensures Filed(st', hash, d, st'.dict[d])
    {
      assert Filed(st, hash, d, st.dict[d]);
    }
  }

  lemma EvictedElsewhere(st: Store, hash: string -> nat, k: nat, j: int, next': map<int, int>, prev': map<int, int>,
                         h: nat)
    requires Right(st, hash) && k in st.chains && 0 <= j < |st.chains[k]| && st.chains[k][j] in st.ent
    requires Unlinked(st, k, j, next', prev') && h in st.chains && h != k
    ensures ChainRight(Evicted(st, hash, k, j, next', prev'), hash, h)
  {
    hide IsList, Without;
    var x := st.chains[k][j];
    OnChain(st, hash, k, x);
    assert ChainRight(st, hash, h);
    forall a | a in st.chains[h]
      ensures a in st.ent && a !in st.chains[k] && IdOf(hash, st.ent[a].name) != IdOf(hash, st.ent[x].name)
    {
      OnChain(st, hash, h, a);
      if a in st.chains[k] {
        OnChain(st, hash, k, a);
      }
    }
    ChainKept(st, Evicted(st, hash, k, j, next', prev'), hash, h);
  }

  // ------------------------------------------------------------- the directory

  class Directory {
    const hash: string -> nat
    const tree: RedBlackTree
    /** Entry records in memory, with their chain links. */
    var ent: map<int, Entry>
    var next: map<int, int>
    var prev: map<int, int>
    ghost var chains: map<nat, seq<int>>
    /** The directory as a map from names, as far as it can tell them apart, to entries. */
    ghost var dict: map<Id, int>

    ghost function St(): (st: Store)
      reads this
    {
      Store(ent, next, prev, chains, dict)
    }

    ghost predicate Valid()
      reads this, tree
    {
      && tree.Valid() && Right(St(), hash)
      && (forall k | k in chains :: chains[k] != [])
      && IsIndex(tree.Contents(), Heads(chains))
    }

    /** A directory without entries (init_root_node). */
    constructor (h: string -> nat)
      ensures Valid() && fresh(tree) && dict == map[] && ent == map[] && hash == h
    {
      hash := h;
      tree := new RedBlackTree();
      ent, next, prev, chains, dict := map[], map[], map[], map[], map[];
    }

    /** tree_find as a question to the index. */
    method Head(k: nat) returns (first: int)
      requires Valid()
      ensures first == if k in chains then chains[k][0] else NULL
      ensures k in chains ==> first != NULL
    {
      hide RedBlackTree.Valid, RedBlackTree.Contents, Right;
      var found := tree.Find(k);
      match found {
        case None =>
          NoItem(tree.Contents(), Heads(chains), k);
          first := NULL;
        case Some(i) =>
          first := i.ref;
          HeadNotNull(St(), hash, k);
      }
    }

    /** pnc_lookup_section. */
    method Lookup(section: string) returns (found: int)
      requires Valid()
      ensures var d := IdOf(hash, section);
              found == if d in dict then dict[d] else NULL
      ensures IdOf(hash, section) in dict ==> found in ent && IdOf(hash, ent[found].name) == IdOf(hash, section)
    {
      hide RedBlackTree.Valid, RedBlackTree.Contents, Right, IsIndex;
      var k := hash(section);
      found := Head(k);
      if found == NULL {
        NotFiled(St(), hash, section);
        return;
      }
      found := Search(k, section, found);
    }

    /** The chain walk of pnc_lookup_section. */
    method Search(k: nat, section: string, first: int) returns (found: int)
      requires Valid() && k == hash(section) && k in chains && first == chains[k][0]
      ensures var d := IdOf(hash, section);
              found == if d in dict then dict[d] else NULL
      ensures IdOf(hash, section) in dict ==> found in ent && IdOf(hash, ent[found].name) == IdOf(hash, section)
    {
      hide RedBlackTree.Valid, RedBlackTree.Contents, Right, IsIndex, IsList, SameName, EntryRight;
      found := first;
      ghost var c, i := chains[k], 0;
      while true
        invariant 0 <= i < |c| && found == c[i]
        invariant forall m | 0 <= m < i :: c[m] in ent && IdOf(hash, ent[c[m]].name) != IdOf(hash, section)
        decreases |c| - i
      {
        ChainStep(St(), hash, k, i, section);
        if SameName(section, ent[found].name) {
          return;
        }
        if next[found] == NULL {
          NotOnChain(St(), hash, k, section);
          return NULL;
        }
        found, i := next[found], i + 1;
      }
    }

    /** tree_insert, seen from the index. */
    method IndexAdd(data: Item, node: int) returns (dup: int)
      requires tree.Valid() && 0 < node && node !in tree.mem
      requires (forall k | k in chains :: chains[k] != []) && IsIndex(tree.Contents(), Heads(chains))
      modifies tree
      ensures tree.Valid()
      ensures data.key in chains ==> dup == chains[data.key][0] && IsIndex(tree.Contents(), Heads(chains))
      ensures data.key !in chains ==> dup == NULL && IsIndex(tree.Contents(), Heads(chains)[data.key := data.ref])
    {
      hide RedBlackTree.Valid, Items;
      ghost var items := tree.Contents();
      ghost var heads := Heads(chains);
      var found := tree.Insert(data, node);
      match found {
        case Some(i) =>
          dup := i.ref;
        case None =>
          dup := NULL;
          NoItem(items, heads, data.key);
          ghost var k :| 0 <= k <= |items| && tree.Contents() == items[..k] + [data] + items[k..];
          IndexInsert(items, tree.Contents(), heads, data, k);
      }
    }

    /** pnc_add_section; x and node are the addresses that kmalloc gives the new entry and,
        if its hash is new, the new tree node. */
    method Add(vnode: int, section: string, x: int, node: int) returns (entry: int)
      requires Valid()
      requires 0 <= x && x !in ent && 0 < node && node !in tree.mem
      modifies this, tree
      ensures Valid()
      ensures var d := IdOf(hash, section);
              if d in old(dict) then entry == old(dict)[d] && dict == old(dict) && ent == old(ent)
              else && entry == x && dict == old(dict)[d := x]
                   && ent == old(ent)[x := Entry(section, vnode, hash(section))]
    {
      var known := Lookup(section);
      if known != NULL {
        return known;
      }
      InDictNotNull(St(), hash, section);
      Link(vnode, section, x, node);
      return x;
    }

    /** The part of pnc_add_section that enters a new name. */
    method Link(vnode: int, section: string, x: int, node: int)
      requires Valid() && IdOf(hash, section) !in dict
      requires 0 <= x && x !in ent && 0 < node && node !in tree.mem
      modifies this, tree
      ensures Valid()
      ensures dict == old(dict)[IdOf(hash, section) := x]
      ensures ent == old(ent)[x := Entry(section, vnode, hash(section))]
    {
      hide RedBlackTree.Valid, RedBlackTree.Contents, Right, IsIndex, AddedChain, IdOf;
      ghost var st := St();
      var k := hash(section);
      var dup := IndexAdd(Item(k, x), node);
      LinkEntry(x, Entry(section, vnode, k), dup);
      AddedHeads(st, k, x);
      chains := chains[k := AddedChain(st, k, x)];
      dict := dict[IdOf(hash, section) := x];
    }

    /** The new entry and its links. */
    method LinkEntry(x: int, e: Entry, dup: int)
      requires Right(St(), hash) && IdOf(hash, e.name) !in dict && 0 <= x && x !in ent && e.key == hash(e.name)
      requires forall k | k in chains :: chains[k] != []
      requires dup == if e.key in chains then chains[e.key][0] else NULL
      modifies this`ent, this`next, this`prev
      ensures ent == old(ent)[x := e]
      ensures Right(Added(old(St()), hash, x, e, next, prev), hash)
    {
      hide Right, IsList, Linked, AddedChain, IdOf;
      ghost var st := St();
      NewEntry(x, e);
      LinkedNew(st, hash, e.key, x);
      if dup != NULL {
        LinkBehind(x, dup);
      }
      AddedRight(st, hash, x, e, next, prev);
    }

    /** new_pnc_entry. */
    method NewEntry(x: int, e: Entry)
      modifies this`ent, this`next, this`prev
      ensures ent == old(ent)[x := e] && next == old(next)[x := NULL] && prev == old(prev)[x := NULL]
    {
      ent, next, prev := ent[x := e], next[x := NULL], prev[x := NULL];
    }

    /** The new entry goes behind the entry that the tree has for its hash. */
    method LinkBehind(x: int, dup: int)
      requires dup in next && dup != x && x in next && x in prev
      modifies this`next, this`prev
      ensures var n := old(next)[dup]; var p := old(prev)[x := dup];
              next == old(next)[x := n][dup := x] && prev == if n != NULL then p[n := x] else p
    {
      var oldNext := next[dup];
      prev := prev[x := dup];
      next := next[x := oldNext];
      next := next[dup := x];
      if oldNext != NULL {
        prev := prev[oldNext := x];
      }
    }

    /** pnc_evict_section. */
    method Evict(entry: int) returns (panics: bool)
      requires Valid() && entry in ent
      modifies this, tree
      ensures Valid() && !panics
      ensures dict == old(dict) - {IdOf(hash, old(ent)[entry].name)} && ent == old(ent) - {entry}
    {
      hide RedBlackTree.Valid, RedBlackTree.Contents, Right, IsIndex, IsList, Linked;
      panics := false;
      EntryFacts(St(), hash, entry);
      if next[entry] != NULL || prev[entry] != NULL {
        panics := EvictShared(entry);
      } else {
        EvictAlone(entry);
      }
    }

    /** tree_remove, seen from the index. */
    method IndexDrop(k: nat) returns (ref: int)
      requires tree.Valid() && (forall h | h in chains :: chains[h] != []) && IsIndex(tree.Contents(), Heads(chains))
      requires k in chains
      modifies tree
      ensures tree.Valid() && ref == chains[k][0] && IsIndex(tree.Contents(), Heads(chains) - {k})
    {
      hide RedBlackTree.Valid, Items;
      ghost var items := tree.Contents();
      Ordered(tree);
      assert Item(k, Heads(chains)[k]) in items;
      var out := tree.Remove(k);
      IndexRemove(items, tree.Contents(), Heads(chains), out.value);
      ref := out.value.ref;
    }

    /** tree_set_data_at, seen from the index; dataKey is the key field of the new datum. */
    method IndexPoint(k: nat, ref: int, dataKey: nat) returns (panics: bool)
      requires tree.Valid() && (forall h | h in chains :: chains[h] != []) && IsIndex(tree.Contents(), Heads(chains))
      requires k in chains
      modifies tree
      ensures tree.Valid() && (panics <==> dataKey != k)
      ensures !panics ==> IsIndex(tree.Contents(), Heads(chains)[k := ref])
    {
      hide RedBlackTree.Valid, Items;
      ghost var items := tree.Contents();
      Ordered(tree);
      assert Item(k, Heads(chains)[k]) in items;
      var nullWrite;
      panics, nullWrite := tree.SetDataAt(k, Item(dataKey, ref));
      assert !nullWrite;
      if !panics {
        ghost var i :| 0 <= i < |items| && items[i].key == k && tree.Contents() == items[i := Item(k, ref)];
        IndexSet(items, tree.Contents(), Heads(chains), Item(k, ref), i);
      }
    }

    /** The only entry with its hash: the tree node goes. */
    method EvictAlone(entry: int)
      requires Valid() && entry in ent && ent[entry].key in chains && chains[ent[entry].key] == [entry]
      modifies this, tree
      ensures Valid()
      ensures dict == old(dict) - {IdOf(hash, old(ent)[entry].name)} && ent == old(ent) - {entry}
    {
      hide RedBlackTree.Valid, RedBlackTree.Contents, Right, IsList, IsIndex;
      ghost var st := St();
      var k := ent[entry].key;
      var evicted := IndexDrop(k);
      Forget(evicted, st, k, 0) by { UnlinkedAlone(st, k, entry); }
      assert Heads(chains) == Heads(st.chains) - {k};
    }

    /** kfree of the entry, and the ghost state that follows. */
    method Forget(evicted: int, ghost st: Store, ghost k: nat, ghost j: int)
      requires Right(st, hash) && k in st.chains && 0 <= j < |st.chains[k]|
      requires evicted == st.chains[k][j] && evicted in st.ent
      requires ent == st.ent && chains == st.chains && dict == st.dict
      requires Unlinked(st, k, j, next - {evicted}, prev - {evicted})
      modifies this
      ensures Right(St(), hash) && chains == EvictedChains(st.chains, k, j)
      ensures dict == st.dict - {IdOf(hash, st.ent[evicted].name)} && ent == st.ent - {evicted}
    {
      hide Right, IsList;
      ent := ent - {evicted};
      next := next - {evicted};
      prev := prev - {evicted};
      EvictedRight(st, hash, k, j, next, prev);
      chains := EvictedChains(st.chains, k, j);
      dict := dict - {IdOf(hash, st.ent[evicted].name)};
    }

    /** An entry that shares its hash with others. */
    method EvictShared(entry: int) returns (panics: bool)
      requires Valid() && entry in ent && ent[entry].key in chains && entry in chains[ent[entry].key]
      requires |chains[ent[entry].key]| > 1
      modifies this, tree
      ensures Valid() && !panics
      ensures dict == old(dict) - {IdOf(hash, old(ent)[entry].name)} && ent == old(ent) - {entry}
    {
      hide RedBlackTree.Valid, RedBlackTree.Contents, Right, IsList, IsIndex, SameName;
      ghost var st := St();
      var k := ent[entry].key;
      ghost var j := IndexOf(chains[k], entry);
      var first := Head(k);
      SameEntry(st, hash, k, j, 0);
      ChainStep(st, hash, k, 0, ent[entry].name);
      if SameName(ent[entry].name, ent[first].name) {
        panics := EvictHead(first);
      } else {
        EvictLater(entry, first, j);
        panics := false;
      }
    }

    /** The head of a longer chain: the tree is pointed at the second entry. */
    method EvictHead(first: int) returns (panics: bool)
      requires Valid() && first in ent && ent[first].key in chains && chains[ent[first].key][0] == first
      requires |chains[ent[first].key]| > 1
      modifies this, tree
      ensures Valid() && !panics
      ensures dict == old(dict) - {IdOf(hash, old(ent)[first].name)} && ent == old(ent) - {first}
    {
      hide RedBlackTree.Valid, RedBlackTree.Contents, Right, IsList, IsIndex, SameName, Unlinked, EvictedChains;
      ghost var st := St();
      var k := ent[first].key;
      UnlinkedChain(st, hash, k, 0);
      panics := IndexPoint(k, next[first], ent[next[first]].key);
      prev := prev[next[first] := NULL];
      next, prev := next[first := POISON], prev[first := POISON];
      Forget(first, st, k, 0);
      EvictedHeads(st, k, 0);
    }

    /** A later entry: found by walking from the head, and unlinked. */
    method EvictLater(entry: int, head: int, ghost j: int)
      requires Valid() && entry in ent && ent[entry].key in chains && chains[ent[entry].key][0] == head
      requires 0 < j < |chains[ent[entry].key]| && chains[ent[entry].key][j] == entry
      modifies this
      ensures Valid()
      ensures dict == old(dict) - {IdOf(hash, old(ent)[entry].name)} && ent == old(ent) - {entry}
    {
      hide RedBlackTree.Valid, RedBlackTree.Contents, Right, IsList, IsIndex, SameName, Unlinked, EvictedChains;
      ghost var st := St();
      ghost var k := ent[entry].key;
      var first := WalkTo(entry, head, j);
      UnlinkedChain(st, hash, k, j);
      if prev[first] != NULL {
        next := next[prev[first] := next[first]];
      }
      if next[first] != NULL {
        prev := prev[next[first] := prev[first]];
      }
      next, prev := next[first := POISON], prev[first := POISON];
      Forget(first, st, k, j);
      EvictedHeads(st, k, j);
    }

    /** The search of pnc_evict_section from the head of the chain; its panic, an entry that
        is not on its chain, cannot happen. */
    method WalkTo(entry: int, head: int, ghost j: int) returns (first: int)
      requires Valid() && entry in ent && ent[entry].key in chains && chains[ent[entry].key][0] == head
      requires 0 <= j < |chains[ent[entry].key]| && chains[ent[entry].key][j] == entry
      ensures first == entry
    {
      hide RedBlackTree.Valid, RedBlackTree.Contents, Right, IsList, IsIndex, SameName, EntryRight;
      ghost var k := ent[entry].key;
      ghost var c, i := chains[k], 0;
      first := head;
      SameEntry(St(), hash, k, j, 0);
      while !SameName(ent[entry].name, ent[first].name)
        invariant 0 <= i <= j && first == c[i] && first in ent
        invariant SameName(ent[entry].name, ent[first].name) <==> i == j
        decreases |c| - i
      {
        ChainStep(St(), hash, k, i, ent[entry].name);
        if next[first] == NULL {
          assert false;
        }
        first, i := next[first], i + 1;
        SameEntry(St(), hash, k, j, i);
      }
    }
  }

  // --------------------------------------------------- facts about a right store

  lemma Ordered(t: RedBlackTree)
    requires t.Valid()
    ensures Descending(t.Contents())
  {
  }

  lemma HeadNotNull(st: Store, hash: string -> nat, k: nat)
    requires Right(st, hash)
    ensures k in st.chains ==> st.chains[k] != [] && st.chains[k][0] != NULL
  {
    if k in st.chains {
      assert ChainRight(st, hash, k);
      FieldsAt(st.next, st.prev, st.chains[k], 0);
    }
  }

  lemma NotFiled(st: Store, hash: string -> nat, n: string)
    requires Right(st, hash) && hash(n) !in st.chains
    ensures IdOf(hash, n) !in st.dict
  {
  }

  lemma InDictNotNull(st: Store, hash: string -> nat, n: string)
    requires Right(st, hash)
    ensures IdOf(hash, n) in st.dict ==> st.dict[IdOf(hash, n)] != NULL
  {
    var d := IdOf(hash, n);
    if d in st.dict {
      assert Filed(st, hash, d, st.dict[d]);
      assert ChainRight(st, hash, d.key);
      FieldsAt(st.next, st.prev, st.chains[d.key], IndexOf(st.chains[d.key], st.dict[d]));
    }
  }

  /** What a chain walk sees at the i-th entry. */
  lemma ChainStep(st: Store, hash: string -> nat, k: nat, i: int, n: string)
    requires Right(st, hash) && k in st.chains && 0 <= i < |st.chains[k]| && k == hash(n)
    ensures var a := st.chains[k][i];
            && a in st.ent && a in st.next && a in st.prev && st.next[a] == At(st.chains[k], i + 1)
            && (i + 1 < |st.chains[k]| ==> st.next[a] != NULL)
            && var d := IdOf(hash, n);
               && (SameName(n, st.ent[a].name) <==> IdOf(hash, st.ent[a].name) == d)
               && (IdOf(hash, st.ent[a].name) == d ==> d in st.dict && st.dict[d] == a)
  {
    hide IsList;
    assert ChainRight(st, hash, k);
    var a := st.chains[k][i];
    OnChain(st, hash, k, a);
    FieldsAt(st.next, st.prev, st.chains[k], i);
    SameNameIff(hash, n, st.ent[a].name);
  }

  lemma NotOnChain(st: Store, hash: string -> nat, k: nat, n: string)
    requires Right(st, hash) && k == hash(n) && k in st.chains
    requires forall m | 0 <= m < |st.chains[k]| ::
               st.chains[k][m] in st.ent && IdOf(hash, st.ent[st.chains[k][m]].name) != IdOf(hash, n)
    ensures IdOf(hash, n) !in st.dict
  {
    if IdOf(hash, n) in st.dict {
      assert false;
    }
  }

  /** Two entries of a chain have the same name only if they are the same. */
  lemma SameEntry(st: Store, hash: string -> nat, k: nat, j: int, i: int)
    requires Right(st, hash) && k in st.chains && 0 <= j < |st.chains[k]| && 0 <= i < |st.chains[k]|
    ensures var a, b := st.chains[k][j], st.chains[k][i];
            && a in st.ent && b in st.ent && hash(st.ent[a].name) == k
            && (SameName(st.ent[a].name, st.ent[b].name) <==> i == j)
  {
    hide IsList;
    var a, b := st.chains[k][j], st.chains[k][i];
    OnChain(st, hash, k, a);
    OnChain(st, hash, k, b);
    assert ChainRight(st, hash, k);
    ListDistinct(st.next, st.prev, st.chains[k]);
    SameNameIff(hash, st.ent[a].name, st.ent[b].name);
  }

  /** Where an entry is, and what its links say about its chain. */
  lemma EntryFacts(st: Store, hash: string -> nat, a: int)
    requires Right(st, hash) && a in st.ent
    ensures var k := st.ent[a].key;
            && k in st.chains && a in st.chains[k] && a in st.next && a in st.prev
            && (st.next[a] == NULL && st.prev[a] == NULL ==> st.chains[k] == [a])
            && (st.next[a] != NULL || st.prev[a] != NULL ==> |st.chains[k]| > 1)
  {
    var d := IdOf(hash, st.ent[a].name);
    assert Filed(st, hash, d, st.dict[d]);
    OnChain(st, hash, d.key, a);
    var c := st.chains[st.ent[a].key];
    assert ChainRight(st, hash, st.ent[a].key);
    FieldsAt(st.next, st.prev, c, IndexOf(c, a));
  }

  /** The links of a new entry, as pnc_add_section writes them. */
  lemma LinkedNew(st: Store, hash: string -> nat, k: nat, x: int)
    requires Right(st, hash) && 0 <= x && x !in st.ent
    ensures k !in st.chains ==> Linked(st, k, x, st.next[x := NULL], st.prev[x := NULL])
    ensures k in st.chains ==>
              && st.chains[k] != []
              && var d := st.chains[k][0];
                 d != x && d != NULL && d in st.next &&
                 var n := st.next[d];
                 var p := st.prev[x := NULL][x := d];
                 Linked(st, k, x, st.next[x := NULL][x := n][d := x], if n != NULL then p[n := x] else p)
  {
    if k in st.chains {
      assert ChainRight(st, hash, k);
      var c := st.chains[k];
      forall a | a in c
        ensures a != x
      {
        OnChain(st, hash, k, a);
      }
      FieldsAt(st.next, st.prev, c, 0);
      if |c| > 1 {
        FieldsAt(st.next, st.prev, c, 1);
      }
      InsertAfter(st.next, st.prev, c, 0, x);
      assert st.next[x := NULL][x := At(c, 1)] == st.next[x := At(c, 1)];
      assert st.prev[x := NULL][x := c[0]] == st.prev[x := c[0]];
    }
  }

  /** A new entry never becomes the head of an old chain. */
  lemma AddedHeads(st: Store, k: nat, x: int)
    requires forall h | h in st.chains :: st.chains[h] != []
    ensures var chains' := st.chains[k := AddedChain(st, k, x)];
            && (forall h | h in chains' :: chains'[h] != [])
            && Heads(chains') == if k in st.chains then Heads(st.chains) else Heads(st.chains)[k := x]
  {
  }

  lemma UnlinkedAlone(st: Store, k: nat, x: int)
    requires k in st.chains && st.chains[k] == [x]
    ensures Unlinked(st, k, 0, st.next - {x}, st.prev - {x})
  {
  }

  /** The neighbour writes of an eviction unlink the entry. */
  lemma UnlinkedChain(st: Store, hash: string -> nat, k: nat, j: int)
    requires Right(st, hash) && k in st.chains && 0 <= j < |st.chains[k]| && |st.chains[k]| > 1
    ensures var c := st.chains[k]; var x := c[j];
            && x in st.ent && x in st.next && x in st.prev && st.next[x] != x && st.prev[x] != x
            && (j == 0 ==> st.next[x] != NULL && st.next[x] in st.ent && st.ent[st.next[x]].key == k
                           && st.next[x] == c[1] && st.prev[x] == NULL)
            && (j > 0 ==> st.prev[x] != NULL)
            && (st.next[x] != NULL ==> st.next[x] in st.prev) && (st.prev[x] != NULL ==> st.prev[x] in st.next)
            && (st.next[x] != NULL ==> st.next[x] != st.prev[x])
            && var n := if st.prev[x] != NULL then st.next[st.prev[x] := st.next[x]] else st.next;
               var p := if st.next[x] != NULL then st.prev[st.next[x] := st.prev[x]] else st.prev;
               Unlinked(st, k, j, n[x := POISON] - {x}, p[x := POISON] - {x})
  {
    var c := st.chains[k];
    var x := c[j];
    assert ChainRight(st, hash, k);
    OnChain(st, hash, k, x);
    FieldsAt(st.next, st.prev, c, j);
    if j == 0 {
      OnChain(st, hash, k, c[1]);
    }
    NonNull(st.next, st.prev, c);
    Unlink(st.next, st.prev, c, j);
    var n := NextWithout(st.next, c, j);
    var p := PrevWithout(st.prev, c, j);
    Frame(n, p, n[x := POISON] - {x}, p[x := POISON] - {x}, Without(c, j));
  }

  lemma EvictedHeads(st: Store, k: nat, j: int)
    requires forall h | h in st.chains :: st.chains[h] != []
    requires k in st.chains && 0 <= j < |st.chains[k]| && |st.chains[k]| > 1
    ensures var chains' := EvictedChains(st.chains, k, j);
            && (forall h | h in chains' :: chains'[h] != [])
            && Heads(chains') == if j == 0 then Heads(st.chains)[k := st.chains[k][1]] else Heads(st.chains)
  {
  }
}
