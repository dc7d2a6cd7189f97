/**
 * Red-black trees as values: the shape that the nodes of kernel/src/std/rbtree.c spell
 * out, the balance and colour rules, and the contexts ("tree with a hole") in which
 * the fix-up loops work.
 *
 * The child index used by the source is `child[key < node.key]`, so smaller keys sit
 * in child 1 and the left-to-right order of a tree is descending.
 */
module RbModel {
  import opened Arith

  datatype Color = Red | Black

  /** struct rb_tree_data: the key, and the record that carries it. */
  datatype Item = Item(key: nat, ref: int)

  type Dir = d: int | 0 <= d <= 1

  /** A tree together with the addresses of its nodes. */
  datatype Tree = Leaf | Node(addr: int, color: Color, item: Item, left: Tree, right: Tree) {
    function Child(d: Dir): (c: Tree)
      requires Node?
    {
      if d == 0 then left else right
    }

    /** The same node with child d replaced. */
    function With(d: Dir, c: Tree): (t: Tree)
      requires Node?
      ensures t.Node? && t.Child(d) == c && t.Child(1 - d) == Child(1 - d)
    {
      if d == 0 then this.(left := c) else this.(right := c)
    }
  }

  /** A tree with a hole at child `dir` of the node `addr`; Top is the hole at the root. */
  datatype Ctx = Top | Step(dir: Dir, addr: int, color: Color, item: Item, sibling: Tree, up: Ctx)

  /** Close the innermost step of a context over t. */
  function Fill(c: Ctx, t: Tree): (r: Tree)
    requires c.Step?
    ensures r.Node? && r.Child(c.dir) == t && r.Child(1 - c.dir) == c.sibling
    ensures r.addr == c.addr && r.color == c.color && r.item == c.item
  {
    if c.dir == 0 then Node(c.addr, c.color, c.item, t, c.sibling)
    else Node(c.addr, c.color, c.item, c.sibling, t)
  }

  /** The step that leads from the root of t to its child d. */
  function Into(d: Dir, t: Tree, up: Ctx): (c: Ctx)
    requires t.Node?
    ensures c.Step? && Fill(c, t.Child(d)) == t && c.up == up && c.dir == d
  {
    Step(d, t.addr, t.color, t.item, t.Child(1 - d), up)
  }

  function Plug(c: Ctx, t: Tree): (r: Tree)
    decreases c
  {
    if c.Top? then t else Plug(c.up, Fill(c, t))
  }

  // ---------------------------------------------------------------- colours

  predicate IsRed(t: Tree) {
    t.Node? && t.color == Red
  }

  function Paint(t: Tree, c: Color): (r: Tree)
    requires t.Node?
  {
    t.(color := c)
  }

  /** Balanced(t, h): every path from t to a leaf crosses h black nodes, and no red
      node has a red child. */
  ghost predicate Balanced(t: Tree, h: int) {
    match t
    case Leaf => h == 0
    case Node(_, Red, _, l, r) => !IsRed(l) && !IsRed(r) && Balanced(l, h) && Balanced(r, h)
    case Node(_, Black, _, l, r) => Balanced(l, h - 1) && Balanced(r, h - 1)
  }

  lemma {:induction false} BalancedNonNegative(t: Tree, h: int)
    requires Balanced(t, h)
    ensures 0 <= h && (h > 0 ==> t.Node?)
  {
    if t.Node? {
      BalancedNonNegative(t.left, if t.color == Red then h else h - 1);
      if t.color == Red && h > 0 {
      }
    }
  }

  /** A context that becomes balanced, with a black root, once a tree of black height h
      fills the hole (a black-rooted one if the node above the hole is red). */
  ghost predicate Awaits(c: Ctx, h: int)
    decreases c
  {
    match c
    case Top => true
    case Step(_, _, Red, _, s, up) =>
      !IsRed(s) && Balanced(s, h) && up.Step? && up.color == Black && Awaits(up, h)
    case Step(_, _, Black, _, s, up) =>
      Balanced(s, h) && Awaits(up, h + 1)
  }

  /** The black height of a balanced tree, read off its left spine. */
  function BlackHeight(t: Tree): (h: nat) {
    match t
    case Leaf => 0
    case Node(_, c, _, l, _) => BlackHeight(l) + if c == Black then 1 else 0
  }

  lemma {:induction false} HeightIsUnique(t: Tree, h: int)
    requires Balanced(t, h)
    ensures BlackHeight(t) == h
  {
    if t.Node? {
      HeightIsUnique(t.left, if t.color == Red then h else h - 1);
    }
  }

  /** The whole-tree rules: black root, no red node under a red one, one black height. */
  ghost predicate RedBlack(t: Tree) {
    !IsRed(t) && Balanced(t, BlackHeight(t))
  }

  lemma {:induction false} PlugBalanced(c: Ctx, t: Tree, h: int)
    requires Balanced(t, h) && Awaits(c, h)
    requires IsRed(t) ==> c.Step? && c.color == Black
    ensures RedBlack(Plug(c, t))
    decreases c
  {
    if c.Top? {
      HeightIsUnique(t, h);
    } else {
      PlugBalanced(c.up, Fill(c, t), if c.color == Red then h else h + 1);
    }
  }

  // ------------------------------------------------- logarithmic height

  function Height(t: Tree): (h: nat) {
    match t
    case Leaf => 0
    case Node(_, _, _, l, r) => 1 + if Height(l) < Height(r) then Height(r) else Height(l)
  }

  function Size(t: Tree): (n: nat) {
    match t
    case Leaf => 0
    case Node(_, _, _, l, r) => 1 + Size(l) + Size(r)
  }

  lemma {:induction false} HeightBound(t: Tree, h: nat)
    requires Balanced(t, h)
    ensures Height(t) <= 2 * h + (if IsRed(t) then 1 else 0)
    ensures Size(t) + 1 >= Pow2(h)
  {
    if t.Node? {
      var g := if t.color == Red then h else h - 1;
      BalancedNonNegative(t.left, g);
      HeightBound(t.left, g);
      HeightBound(t.right, g);
    }
  }

  lemma {:induction false} Pow2Double(n: nat)
    ensures Pow2(2 * n) == Pow2(n) * Pow2(n)
  {
    if n > 0 {
      Pow2Double(n - 1);
      var p := Pow2(n - 1);
      assert Pow2(2 * n) == 2 * Pow2(2 * n - 1) == 4 * Pow2(2 * (n - 1));
      assert (2 * p) * (2 * p) == 4 * (p * p);
    }
  }

  lemma SquareMonotone(p: nat, n: nat)
    requires p <= n
    ensures p * p <= n * n
  {
    assert p * p <= p * n <= n * n;
  }

  /** Height at most 2 * log2(n + 1), for every red-black tree of n nodes. */
  lemma LogarithmicHeight(t: Tree)
    requires RedBlack(t)
    ensures Pow2(Height(t)) <= (Size(t) + 1) * (Size(t) + 1)
  {
    var h := BlackHeight(t);
    HeightBound(t, h);
    Pow2Monotone(Height(t), 2 * h);
    Pow2Double(h);
    SquareMonotone(Pow2(h), Size(t) + 1);
  }

  // ---------------------------------------------------------------- contents

  /** The items from left to right. */
  function Items(t: Tree): (s: seq<Item>) {
    match t
    case Leaf => []
    case Node(_, _, i, l, r) => Items(l) + [i] + Items(r)
  }

  /** The items to the left and to the right of the hole. */
  function Before(c: Ctx): (s: seq<Item>)
    decreases c
  {
    if c.Top? then []
    else if c.dir == 0 then Before(c.up)
    else Before(c.up) + Items(c.sibling) + [c.item]
  }

  function After(c: Ctx): (s: seq<Item>)
    decreases c
  {
    if c.Top? then []
    else if c.dir == 0 then [c.item] + Items(c.sibling) + After(c.up)
    else After(c.up)
  }

  lemma {:induction false} PlugItems(c: Ctx, t: Tree)
    ensures Items(Plug(c, t)) == Before(c) + Items(t) + After(c)
    decreases c
  {
    if c.Step? {
      PlugItems(c.up, Fill(c, t));
    }
  }

  /** Strictly descending keys: the search-tree order, and no key twice. */
  ghost predicate Descending(s: seq<Item>) {
    forall i, j | 0 <= i < j < |s| :: s[i].key > s[j].key
  }

  /** The bounds that a search for `key` has established when it reaches the hole. */
  ghost predicate Between(c: Ctx, key: nat) {
    && (forall i | i in Before(c) :: i.key > key)
    && (forall i | i in After(c) :: i.key < key)
  }

  lemma Regroup(a: seq<Item>, b: seq<Item>, c: seq<Item>, d: seq<Item>, e: seq<Item>)
    ensures a + (b + c + d) + e == (a + b) + c + (d + e)
  {
  }

  lemma Around(a: seq<Item>, x: Item, b: seq<Item>)
    requires Descending(a + [x] + b)
    ensures forall i | i in a :: i.key > x.key
    ensures forall i | i in b :: i.key < x.key
  {
    var s := a + [x] + b;
    assert s[|a|] == x;
    forall i | i in a ensures i.key > x.key {
      var k :| 0 <= k < |a| && a[k] == i;
      assert s[k] == i;
    }
    forall i | i in b ensures i.key < x.key {
      var k :| 0 <= k < |b| && b[k] == i;
      assert s[|a| + 1 + k] == i;
    }
  }

  /** The search step: which way to go, and what it establishes. */
  lemma Descend(c: Ctx, t: Tree, key: nat)
    requires t.Node? && Between(c, key) && Descending(Items(Plug(c, t))) && key != t.item.key
    ensures Between(Into(if key < t.item.key then 1 else 0, t, c), key)
  {
    PlugItems(c, t);
    Regroup(Before(c), Items(t.left), [t.item], Items(t.right), After(c));
    Around(Before(c) + Items(t.left), t.item, Items(t.right) + After(c));
  }

  /** A key that reaches a leaf occurs nowhere and belongs exactly there. */
  lemma InsertHere(c: Ctx, item: Item)
    requires Between(c, item.key) && Descending(Items(Plug(c, Leaf)))
    ensures Items(Plug(c, Leaf)) == Before(c) + After(c)
    ensures Descending(Before(c) + [item] + After(c))
    ensures forall i | i in Before(c) + After(c) :: i.key != item.key
  {
    PlugItems(c, Leaf);
    assert Before(c) + [] + After(c) == Before(c) + After(c);
    InsertBetween(Before(c), item, After(c));
  }

  lemma InsertBetween(b: seq<Item>, item: Item, a: seq<Item>)
    requires Descending(b + a)
    requires forall i | i in b :: i.key > item.key
    requires forall i | i in a :: i.key < item.key
    ensures Descending(b + [item] + a)
  {
    var s, r := b + a, b + [item] + a;
    forall i, j | 0 <= i < j < |r| ensures r[i].key > r[j].key {
      assert i < |b| ==> r[i] == b[i] == s[i];
      assert i > |b| ==> r[i] == a[i - |b| - 1] == s[i - 1];
      assert j < |b| ==> r[j] == b[j] == s[j];
      assert j > |b| ==> r[j] == a[j - |b| - 1] == s[j - 1];
    }
  }

  // ---------------------------------------------------------------- rotation

  /** The child 1-d of t comes up, t becomes its child d. */
  function Rotated(t: Tree, d: Dir): (r: Tree)
    requires t.Node? && t.Child(1 - d).Node?
    ensures Items(r) == Items(t)
    ensures r.Node?
  {
    var n := t.Child(1 - d);
    var r := n.With(d, t.With(1 - d, n.Child(d)));
    assert Items(r) == Items(t) by {
      if d == 0 {
        assert Items(t) == Items(t.left) + [t.item] + (Items(n.left) + [n.item] + Items(n.right));
      } else {
        assert Items(t) == (Items(n.left) + [n.item] + Items(n.right)) + [t.item] + Items(t.right);
        assert r == Node(n.addr, n.color, n.item, n.left, Node(t.addr, t.color, t.item, n.right, t.right));
      }
    }
    r
  }
}
