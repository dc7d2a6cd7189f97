/**
 * The red-black tree of kernel/src/std/rbtree.c: rotations, the two fix-up loops,
 * insertion, removal and search, as writes to node records in memory.
 */
module RbTree {
  import opened Options
  import opened RbModel
  import opened RbMemory
  import opened Links

  ghost function Depth(c: Ctx): (n: nat)
    decreases c
  {
    if c.Top? then 0 else 1 + Depth(c.up)
  }

  /** The hole of c holds t, whose black height is one short of what c awaits (or t is
      red and turning it black makes up for it). */
  ghost predicate Deficit(c: Ctx, t: Tree, h: int) {
    && Awaits(c, h + 1)
    && (if IsRed(t) then Balanced(Paint(t, Black), h + 1) else Balanced(t, h))
  }

  /** Replacing a subtree by one with the same items keeps the items of the whole. */
  lemma SameItems(c: Ctx, t: Tree, t': Tree)
    requires Items(t) == Items(t')
    ensures Items(Plug(c, t)) == Items(Plug(c, t'))
  {
    PlugItems(c, t);
    PlugItems(c, t');
  }

  // ------------------------------------------------------- insertion fix-up

  /** Red parent and red uncle turn black, the grandparent turns red. */
  function Recolored(c: Ctx, t: Tree): (r: Tree)
    requires c.Step? && c.up.Step? && c.up.sibling.Node?
    ensures r.Node? && r.color == Red
  {
    Fill(c.up.(color := Red, sibling := Paint(c.up.sibling, Black)), Fill(c.(color := Black), t))
  }

  lemma RecoloredFits(c: Ctx, t: Tree, h: int)
    requires c.Step? && c.color == Red && Awaits(c, h) && Balanced(t, h) && IsRed(c.up.sibling)
    ensures Balanced(Recolored(c, t), h + 1) && Awaits(c.up.up, h + 1)
    ensures Items(Plug(c.up.up, Recolored(c, t))) == Items(Plug(c, t))
  {
    var old2 := Fill(c.up, Fill(c, t));
    assert Plug(c, t) == Plug(c.up.up, old2);
    assert Items(Fill(c.(color := Black), t)) == Items(Fill(c, t));
    assert Items(Paint(c.up.sibling, Black)) == Items(c.up.sibling);
    SameItems(c.up.up, old2, Recolored(c, t));
  }

  /** A node on the inner side, turned so that its old parent hangs outside below it. */
  function TurnedCtx(c: Ctx, t: Tree): (r: Ctx)
    requires c.Step? && t.Node?
    ensures r.Step?
  {
    Into(1 - c.dir, Rotated(Fill(c, t), 1 - c.dir), c.up)
  }

  function TurnedNode(c: Ctx, t: Tree): (r: Tree)
    requires c.Step? && t.Node?
    ensures r.Node?
  {
    Rotated(Fill(c, t), 1 - c.dir).Child(1 - c.dir)
  }

  lemma TurnedFits(c: Ctx, t: Tree, h: int)
    requires c.Step? && c.color == Red && Awaits(c, h) && IsRed(t) && Balanced(t, h)
    ensures var c', t' := TurnedCtx(c, t), TurnedNode(c, t);
            && c'.color == Red && c'.up == c.up && c'.dir == 1 - c.dir
            && Awaits(c', h) && IsRed(t') && Balanced(t', h)
            && Items(Plug(c', t')) == Items(Plug(c, t))
  {
    var r := Rotated(Fill(c, t), 1 - c.dir);
    assert Plug(TurnedCtx(c, t), TurnedNode(c, t)) == Plug(c.up, r);
    SameItems(c.up, Fill(c, t), r);
  }

  /** Parent black over node and red grandparent. */
  function Lifted(c: Ctx, t: Tree): (r: Tree)
    requires c.Step? && c.up.Step? && c.dir == c.up.dir && t.Node?
    ensures r.Node? && r.Child(c.dir) == t && r.color == Black
  {
    Rotated(Fill(c.up.(color := Red), Fill(c.(color := Black), t)), 1 - c.dir)
  }

  lemma LiftedFits(c: Ctx, t: Tree, h: int)
    requires c.Step? && c.color == Red && Awaits(c, h) && IsRed(t) && Balanced(t, h)
    requires c.dir == c.up.dir && !IsRed(c.up.sibling)
    ensures var c' := Into(c.dir, Lifted(c, t), c.up.up);
            && c'.color == Black && Awaits(c', h) && Depth(c') < Depth(c)
            && Items(Plug(c', t)) == Items(Plug(c, t))
  {
    var old2 := Fill(c.up, Fill(c, t));
    assert Plug(c, t) == Plug(c.up.up, old2);
    assert Items(Fill(c.(color := Black), t)) == Items(Fill(c, t));
    SameItems(c.up.up, old2, Lifted(c, t));
    assert Plug(Into(c.dir, Lifted(c, t), c.up.up), t) == Plug(c.up.up, Lifted(c, t));
  }

  /** What the fields around a red node with a red parent say. */
  lemma GrandFields(mem: Memory, root: int, c: Ctx, t: Tree)
    requires Focus(mem, root, c, t) && Sentinel(mem) && t.Node? && c.Step? && c.up.Step?
    ensures t.addr in mem && mem[t.addr].parent == c.addr
    ensures c.addr in mem && mem[c.addr].parent == c.up.addr
    ensures c.up.addr in mem && (c.addr == mem[c.up.addr].child0 <==> c.up.dir == 0)
    ensures t.addr == mem[c.addr].Child(1 - c.up.dir) <==> c.dir == 1 - c.up.dir
    ensures var uncle := mem[c.up.addr].Child(1 - c.up.dir);
            uncle == Addr(c.up.sibling) && uncle in mem && (mem[uncle].color == Red <==> IsRed(c.up.sibling))
  {
    assert c.sibling.Node? ==> c.sibling.addr in CtxAddrs(c);
    assert c.up.sibling.Node? ==> c.up.sibling.addr in Addrs(c.up.sibling);
    assert CtxAt(mem, root, c.up, c.addr);
    assert TreeAt(mem, c.up.addr, c.up.sibling);
    assert c.addr !in CtxAddrs(c.up);
  }

  /** What the fields around a hole with a sibling say. */
  lemma HoleFields(mem: Memory, root: int, c: Ctx, t: Tree)
    requires Focus(mem, root, c, t) && Sentinel(mem) && c.Step? && c.sibling.Node?
    ensures c.addr in mem && Addr(t) in mem
    ensures Addr(t) == mem[c.addr].child0 <==> c.dir == 0
    ensures mem[c.addr].Child(1 - c.dir) == c.sibling.addr && c.sibling.addr in mem
    ensures mem[c.sibling.addr].color == c.sibling.color && c.sibling.addr != NIL && c.addr != NIL
    ensures forall d: Dir ::
              var a := mem[c.sibling.addr].Child(d);
              a == Addr(c.sibling.Child(d)) && a in mem && (mem[a].color == Red <==> IsRed(c.sibling.Child(d)))
  {
    assert TreeAt(mem, c.addr, c.sibling);
    assert TreeAt(mem, c.sibling.addr, c.sibling.left) && TreeAt(mem, c.sibling.addr, c.sibling.right);
    assert c.sibling.addr in CtxAddrs(c);
  }

  lemma RemoveDone(mem: Memory, root: int, c: Ctx, t: Tree, h: int) returns (whole: Tree)
    requires Focus(mem, root, c, t) && Sentinel(mem) && Deficit(c, t, h)
    requires c.Top? || IsRed(t)
    ensures Addr(t) in mem && Focus(mem[Addr(t) := mem[Addr(t)].(color := Black)], root, Top, whole)
    ensures Addrs(whole) == AllAddrs(c, t) && Items(whole) == Items(Plug(c, t)) && RedBlack(whole)
  {
    var mem' := mem[Addr(t) := mem[Addr(t)].(color := Black)];
    if IsRed(t) {
      Painted(mem, root, c, t, Black);
      var t' := Paint(t, Black);
      assert Items(t') == Items(t);
      PlugBalanced(c, t', h + 1);
      SameItems(c, t, t');
      Refocus(mem', root, c, t');
      whole := Plug(c, t');
    } else {
      whole := t;
      assert mem' == mem;
      HeightIsUnique(t, h);
    }
  }

  /** The child that takes the place of a spliced-out node. */
  function OnlyChild(t: Tree): (r: Tree)
    requires t.Node?
  {
    if t.left.Leaf? then t.right else t.left
  }

  lemma SpliceFields(mem: Memory, root: int, c: Ctx, t: Tree)
    requires Focus(mem, root, c, t) && Sentinel(mem) && t.Node?
    ensures var o := OnlyChild(t);
            && t.addr in mem && Addr(o) in mem && t.addr != Addr(o) && t.addr != NIL
            && mem[t.addr] == Rec(Above(c), Addr(t.left), Addr(t.right), t.color, t.item)
            && (t.left.Node? <==> Addr(t.left) != NIL) && (t.right.Node? <==> Addr(t.right) != NIL)
            && TreeAt(mem, t.addr, o) && t.addr !in Addrs(o) && Addr(o) !in CtxAddrs(c)
            && Addrs(o) !! CtxAddrs(c)
            && (c.Step? ==>
                  && c.addr in mem && c.addr != Addr(o) && c.addr != t.addr && c.addr != NULL
                  && (mem[c.addr].child0 == t.addr <==> c.dir == 0))
  {
    assert TreeAt(mem, t.addr, t.left) && TreeAt(mem, t.addr, t.right);
    LeafAddr(mem, Above(c), t);
    assert OnlyChild(t).Node? ==> OnlyChild(t).addr in Addrs(OnlyChild(t));
    if c.Step? {
      RootAbove(mem, root, c, Addr(t));
      assert c.addr in CtxAddrs(c);
      assert c.sibling.Node? ==> c.sibling.addr in CtxAddrs(c);
    }
  }

  lemma RelabelledItems(c: Ctx, t: Tree, i: Item) returns (k: int)
    requires t.Node?
    ensures 0 <= k < |Items(Plug(c, t))| && Items(Plug(c, t))[k] == t.item
    ensures Items(Plug(c, t.(item := i))) == Items(Plug(c, t))[k := i]
  {
    PlugItems(c, t);
    PlugItems(c, t.(item := i));
    Regroup(Before(c), Items(t.left), [t.item], Items(t.right), After(c));
    Regroup(Before(c), Items(t.left), [i], Items(t.right), After(c));
    k := |Before(c) + Items(t.left)|;
  }

  lemma {:induction false} RelabelledBalance(c: Ctx, t: Tree, i: Item)
    requires t.Node? && RedBlack(Plug(c, t))
    ensures RedBlack(Plug(c, t.(item := i)))
  {
    var h := Unplug(c, Top, t, BlackHeight(Plug(c, t)));
    ComposeTop(c);
    PlugBalanced(c, t.(item := i), h);
  }

  /** s' is s with one occurrence of x taken out. */
  ghost predicate Removed(s: seq<Item>, s': seq<Item>, x: Item) {
    exists k :: RemovedAt(s, s', x, k)
  }

  ghost predicate RemovedAt(s: seq<Item>, s': seq<Item>, x: Item, k: int) {
    0 <= k < |s| && s[k] == x && s' == s[..k] + s[k + 1..]
  }

  lemma RemovedDescending(s: seq<Item>, s': seq<Item>, x: Item)
    requires Removed(s, s', x) && Descending(s)
    ensures Descending(s')
  {
    var k :| RemovedAt(s, s', x, k);
    forall i, j | 0 <= i < j < |s'| ensures s'[i].key > s'[j].key {
      RemovedIndex(s, s', x, k, i);
      RemovedIndex(s, s', x, k, j);
    }
  }

  lemma RemovedIndex(s: seq<Item>, s': seq<Item>, x: Item, k: int, i: int)
    requires RemovedAt(s, s', x, k) && 0 <= i < |s'|
    ensures |s'| == |s| - 1 && s'[i] == s[if i < k then i else i + 1]
  {
  }

  lemma RemovedAround(a: seq<Item>, x: Item, b: seq<Item>)
    ensures Removed(a + [x] + b, a + b, x)
  {
    var s := a + [x] + b;
    assert s[|a|] == x && s[..|a|] == a && s[|a| + 1..] == b;
    assert RemovedAt(s, a + b, x, |a|);
  }

  /** Taking an item out of a subtree takes it out of the whole. */
  lemma RemovedInside(c: Ctx, t: Tree, t': Tree, x: Item)
    requires Removed(Items(t), Items(t'), x)
    ensures Removed(Items(Plug(c, t)), Items(Plug(c, t')), x)
  {
    PlugItems(c, t);
    PlugItems(c, t');
    RemovedWithin(Before(c), Items(t), Items(t'), After(c), x);
  }

  lemma RemovedWithin(a: seq<Item>, s: seq<Item>, s': seq<Item>, b: seq<Item>, x: Item)
    requires Removed(s, s', x)
    ensures Removed(a + s + b, a + s' + b, x)
  {
    var k :| RemovedAt(s, s', x, k);
    var w, j := a + s + b, |a| + k;
    assert w[j] == x;
    assert w[..j] == a + s[..k];
    assert w[j + 1..] == s[k + 1..] + b;
    assert a + s' + b == w[..j] + w[j + 1..];
    assert RemovedAt(w, a + s' + b, x, j);
  }

  /** The tree after unlinking tx (t itself, or the largest node below t). */
  lemma RemovedWhole(c: Ctx, t: Tree, inner: Ctx, tx: Tree)
    requires t.Node? && tx.Node? && (tx.left.Leaf? || tx.right.Leaf?)
    requires tx.addr != t.addr ==> Plug(inner, tx) == t.right && tx.left.Leaf? && Before(inner) == []
    requires tx.addr == t.addr ==> tx == t
    ensures var cy := if tx.addr == t.addr then c else Compose(inner, Into(1, t.(item := tx.item), c));
            Removed(Items(Plug(c, t)), Items(Plug(cy, OnlyChild(tx))), t.item)
  {
    if tx.addr == t.addr {
      RemovedAround(Items(t.left), t.item, Items(t.right));
      assert Items(OnlyChild(t)) == Items(t.left) + Items(t.right);
      RemovedInside(c, t, OnlyChild(t), t.item);
    } else {
      RemovedBelow(c, t, inner, tx);
    }
  }

  lemma RemovedBelow(c: Ctx, t: Tree, inner: Ctx, tx: Tree)
    requires t.Node? && tx.Node? && Plug(inner, tx) == t.right && tx.left.Leaf? && Before(inner) == []
    ensures Removed(Items(Plug(c, t)),
                    Items(Plug(Compose(inner, Into(1, t.(item := tx.item), c)), OnlyChild(tx))), t.item)
  {
    hide Plug, Items, Before, Removed, Compose;
    var o := OnlyChild(tx);
    var t' := t.(item := tx.item, right := Plug(inner, o));
    LeftmostItem(inner, tx);
    ReplacedItem(t, t');
    RemovedInside(c, t, t', t.item);
    PlugCompose(inner, Into(1, t.(item := tx.item), c), o);
    PlugInto(t.(item := tx.item), c, Plug(inner, o));
  }

  /** The leftmost node of a subtree holds its first item. */
  lemma LeftmostItem(inner: Ctx, tx: Tree)
    requires tx.Node? && tx.left.Leaf? && Before(inner) == []
    ensures Items(Plug(inner, tx)) == [tx.item] + Items(Plug(inner, OnlyChild(tx)))
  {
    PlugItems(inner, tx);
    PlugItems(inner, OnlyChild(tx));
    assert Items(tx) == [tx.item] + Items(OnlyChild(tx));
  }

  lemma ReplacedItem(t: Tree, t': Tree)
    requires t.Node? && t'.Node? && t'.left == t.left && Items(t.right) == [t'.item] + Items(t'.right)
    ensures Removed(Items(t), Items(t'), t.item)
  {
    hide Items, Removed;
    NodeItems(t);
    NodeItems(t');
    RemovedAround(Items(t.left), t.item, Items(t.right));
    assert Items(t.left) + [t'.item] + Items(t'.right) == Items(t.left) + ([t'.item] + Items(t'.right));
  }

  lemma NodeItems(t: Tree)
    requires t.Node?
    ensures Items(t) == Items(t.left) + [t.item] + Items(t.right)
  {
  }

  lemma PlugInto(t: Tree, c: Ctx, right: Tree)
    requires t.Node?
    ensures Plug(Into(1, t, c), right) == Plug(c, t.(right := right))
  {
  }

  lemma {:induction false} PlugCompose(inner: Ctx, outer: Ctx, t: Tree)
    ensures Plug(Compose(inner, outer), t) == Plug(outer, Plug(inner, t))
    decreases inner
  {
    if inner.Step? {
      PlugCompose(inner.up, outer, Fill(inner, t));
      assert Fill(Compose(inner, outer), t) == Fill(inner, t);
    }
  }

  lemma {:induction false} PlugAddrs(c: Ctx, t: Tree)
    ensures Addrs(Plug(c, t)) == CtxAddrs(c) + Addrs(t)
    decreases c
  {
    if c.Step? {
      PlugAddrs(c.up, Fill(c, t));
    }
  }

  /** Where the node to unlink sits, and what its surroundings await. */
  lemma Position(mem: Memory, root: int, c: Ctx, t: Tree, inner: Ctx, tx: Tree) returns (cx: Ctx, h: int)
    requires Focus(mem, root, c, t) && RedBlack(Plug(c, t)) && t.Node? && tx.Node?
    requires tx.addr != t.addr ==> Plug(inner, tx) == t.right
    requires tx.addr == t.addr ==> tx == t
    ensures cx == if tx.addr == t.addr then c else Compose(inner, Into(1, t, c))
    ensures Focus(mem, root, cx, tx) && AllAddrs(cx, tx) == AllAddrs(c, t)
    ensures Balanced(tx, h) && (IsRed(tx) ==> cx.Step? && cx.color == Black)
    ensures Awaits(cx, h)
    ensures tx.addr != t.addr ==> forall i: Item :: Awaits(Compose(inner, Into(1, t.(item := i), c)), h)
    ensures tx.addr != t.addr ==>
      forall i: Item :: var c' := Compose(inner, Into(1, t.(item := i), c)); c'.Step? && c'.color == cx.color
  {
    h := Unplug(c, Top, t, BlackHeight(Plug(c, t)));
    ComposeTop(c);
    if tx.addr == t.addr {
      cx := c;
    } else {
      var hr := if t.color == Red then h else h - 1;
      cx := Compose(inner, Into(1, t, c));
      GoDown(mem, root, c, t, 1);
      FocusIn(mem, root, inner, Into(1, t, c), tx);
      h := Unplug(inner, Into(1, t, c), tx, hr);
      forall i: Item ensures var c' := Compose(inner, Into(1, t.(item := i), c));
                             Awaits(c', h) && c'.Step? && c'.color == cx.color {
        AwaitsItemFree(inner, Into(1, t, c), Into(1, t.(item := i), c), h);
      }
    }
  }

  /** The awaited height does not depend on the items. */
  lemma {:induction false} AwaitsItemFree(inner: Ctx, outer: Ctx, outer': Ctx, h: int)
    requires outer.Step? && outer'.Step? && outer' == outer.(item := outer'.item)
    requires Awaits(Compose(inner, outer), h)
    ensures Awaits(Compose(inner, outer'), h)
    ensures Compose(inner, outer).Step? && Compose(inner, outer').Step?
    ensures Compose(inner, outer').color == Compose(inner, outer).color
    decreases inner
  {
    if inner.Step? {
      AwaitsItemFree(inner.up, outer, outer', if inner.color == Red then h else h + 1);
    }
  }

  lemma {:induction false} ComposeAbove(inner: Ctx, outer: Ctx, outer': Ctx)
    requires outer.Step? && outer'.Step? && outer'.addr == outer.addr
    ensures Above(Compose(inner, outer')) == Above(Compose(inner, outer))
    decreases inner
  {
    if inner.Step? {
      ComposeAbove(inner.up, outer, outer');
    }
  }

  /** Unlinking a black node leaves a deficit of one; unlinking a red one leaves none. */
  lemma SplicedBalance(c: Ctx, t: Tree, h: int)
    requires t.Node? && (t.left.Leaf? || t.right.Leaf?) && Balanced(t, h) && Awaits(c, h)
    requires IsRed(t) ==> c.Step? && c.color == Black
    ensures t.color == Black ==> Deficit(c, OnlyChild(t), h - 1)
    ensures t.color == Red ==> RedBlack(Plug(c, OnlyChild(t)))
  {
    if t.color == Red {
      PlugBalanced(c, OnlyChild(t), h);
    } else {
      var o := OnlyChild(t);
      assert Balanced(o, h - 1);
      assert IsRed(o) ==> Balanced(Paint(o, Black), h);
    }
  }

  /** kfree of a record that is no longer part of the tree. */
  lemma Freed(mem: Memory, root: int, t: Tree, x: int)
    requires Focus(mem, root, Top, t) && Sentinel(mem) && mem.Keys == Addrs(t) + {x, NIL}
    requires x !in Addrs(t) && x != NIL
    ensures Focus(mem - {x}, root, Top, t) && Sentinel(mem - {x}) && (mem - {x}).Keys == Addrs(t) + {NIL}
  {
    TreeFrame(mem, mem - {x}, NULL, t);
  }

  /** The write `n->data = x->data` at an ancestor of the hole. */
  lemma RelabelAbove(mem: Memory, root: int, c: Ctx, t: Tree, inner: Ctx, o: Tree, i: Item)
    requires t.Node? && Focus(mem, root, Compose(inner, Into(1, t, c)), o)
    ensures t.addr in mem
    ensures var mem' := mem[t.addr := mem[t.addr].(item := i)];
            var cy := Compose(inner, Into(1, t.(item := i), c));
            Focus(mem', root, cy, o) && AllAddrs(cy, o) == AllAddrs(Compose(inner, Into(1, t, c)), o)
  {
    var r := Plug(inner, o);
    FocusOut(mem, root, inner, Into(1, t, c), o);
    GoUp(mem, root, Into(1, t, c), r);
    var u := Fill(Into(1, t, c), r);
    Relabelled(mem, root, c, u, i);
    var mem' := mem[t.addr := mem[t.addr].(item := i)];
    GoDown(mem', root, c, u.(item := i), 1);
    assert Into(1, u.(item := i), c) == Into(1, t.(item := i), c);
    FocusIn(mem', root, inner, Into(1, t.(item := i), c), o);
  }

  /** When the loop stops, at most the root is red. */
  lemma InsertDone(mem: Memory, root: int, c: Ctx, t: Tree, h: int) returns (whole: Tree)
    requires Focus(mem, root, c, t) && Sentinel(mem) && IsRed(t) && Balanced(t, h) && Awaits(c, h)
    requires c.Step? ==> c.color == Black
    ensures root in mem && Focus(mem[root := mem[root].(color := Black)], root, Top, whole)
    ensures Addrs(whole) == AllAddrs(c, t) && Items(whole) == Items(Plug(c, t)) && RedBlack(whole)
    ensures c.Step? ==> mem[root].color == Black
    ensures root != NIL
  {
    if c.Top? {
      Painted(mem, root, c, t, Black);
      whole := Paint(t, Black);
      assert Balanced(whole, h + 1);
      HeightIsUnique(whole, h + 1);
    } else {
      PlugBalanced(c, t, h);
      Refocus(mem, root, c, t);
      RootAbove(mem, root, c, Addr(t));
      whole := Plug(c, t);
      assert mem[root := mem[root].(color := Black)] == mem;
    }
  }

  lemma RootAddr(mem: Memory, root: int, t: Tree)
    requires Focus(mem, root, Top, t)
    ensures root == Addr(t) && Plug(Top, t) == t
  {
  }

  /** What a fix-up loop reads around a node. */
  lemma Surroundings(mem: Memory, root: int, c: Ctx, t: Tree)
    requires Focus(mem, root, c, t) && t.Node?
    ensures t.addr != root <==> c.Step?
    ensures t.addr in mem && mem[t.addr].parent == Above(c)
    ensures c.Step? ==> c.addr in mem && mem[c.addr].color == c.color
  {
    RootDiffers(mem, root, c, t);
    Fields(mem, root, c, t);
  }

  lemma RootDiffers(mem: Memory, root: int, c: Ctx, t: Tree)
    requires Focus(mem, root, c, t)
    ensures Addr(t) != root <==> c.Step?
  {
    if c.Step? {
      RootAbove(mem, root, c, Addr(t));
    }
  }

  // ------------------------------------------------------- removal fix-up

  /** Red sibling: it becomes the black grandparent of the hole, over a red parent. */
  function SpunTree(c: Ctx, t: Tree): (r: Tree)
    requires c.Step? && c.sibling.Node?
    ensures r.Node? && r.Child(c.dir).Node? && r.Child(c.dir).Child(c.dir) == t
  {
    Rotated(Fill(c.(color := Red, sibling := Paint(c.sibling, Black)), t), c.dir)
  }

  function SpunCtx(c: Ctx, t: Tree): (r: Ctx)
    requires c.Step? && c.sibling.Node?
    ensures r.Step?
  {
    Into(c.dir, SpunTree(c, t).Child(c.dir), Into(c.dir, SpunTree(c, t), c.up))
  }

  lemma SpunFits(c: Ctx, t: Tree, h: int)
    requires c.Step? && IsRed(c.sibling) && Deficit(c, t, h) && !IsRed(t)
    ensures var c' := SpunCtx(c, t);
            && Deficit(c', t, h) && c'.color == Red && !IsRed(c'.sibling)
            && c'.dir == c.dir && c'.addr == c.addr && Depth(c') == Depth(c) + 1
            && Items(Plug(c', t)) == Items(Plug(c, t))
  {
    var r := SpunTree(c, t);
    assert Plug(SpunCtx(c, t), t) == Plug(c.up, r);
    assert Items(Paint(c.sibling, Black)) == Items(c.sibling);
    assert Items(Fill(c.(color := Red, sibling := Paint(c.sibling, Black)), t)) == Items(Fill(c, t));
    SameItems(c.up, Fill(c, t), r);
  }

  /** A hole with a deficit always has a sibling. */
  lemma SiblingExists(c: Ctx, t: Tree, h: int)
    requires c.Step? && Deficit(c, t, h) && !IsRed(t)
    ensures c.sibling.Node?
  {
    BalancedNonNegative(t, h);
    BalancedNonNegative(c.sibling, h + 1);
  }

  /** Black sibling with black children: it turns red and the deficit moves up. */
  function Drained(c: Ctx, t: Tree): (r: Tree)
    requires c.Step? && c.sibling.Node?
    ensures r.Node? && r.color == c.color
  {
    Fill(c.(sibling := Paint(c.sibling, Red)), t)
  }

  lemma DrainedFits(c: Ctx, t: Tree, h: int)
    requires c.Step? && c.sibling.Node? && c.sibling.color == Black && Deficit(c, t, h) && !IsRed(t)
    requires !IsRed(c.sibling.left) && !IsRed(c.sibling.right)
    ensures Deficit(c.up, Drained(c, t), if c.color == Black then h + 1 else h)
    ensures Items(Plug(c.up, Drained(c, t))) == Items(Plug(c, t))
  {
    assert Items(Paint(c.sibling, Red)) == Items(c.sibling);
    SameItems(c.up, Fill(c, t), Drained(c, t));
  }

  /** Black sibling, red near nephew, black far nephew: the near nephew becomes the sibling. */
  function TurnedSibling(c: Ctx): (r: Tree)
    requires c.Step? && c.sibling.Node? && c.sibling.Child(c.dir).Node?
    ensures r.Node? && r.Child(1 - c.dir).Node?
  {
    var s := c.sibling;
    Rotated(Paint(s.With(c.dir, Paint(s.Child(c.dir), Black)), Red), 1 - c.dir)
  }

  lemma TurnedSiblingFits(c: Ctx, t: Tree, h: int)
    requires c.Step? && c.sibling.Node? && c.sibling.color == Black && Deficit(c, t, h)
    requires IsRed(c.sibling.Child(c.dir)) && !IsRed(c.sibling.Child(1 - c.dir))
    ensures var c' := c.(sibling := TurnedSibling(c));
            && Deficit(c', t, h) && c'.sibling.color == Black && IsRed(c'.sibling.Child(1 - c.dir))
            && Items(Plug(c', t)) == Items(Plug(c, t))
  {
    var s := c.sibling;
    var n := s.Child(c.dir);
    assert Items(Paint(n, Black)) == Items(n);
    assert Items(Paint(s.With(c.dir, Paint(n, Black)), Red)) == Items(s);
    assert Balanced(n, h) && Balanced(s.Child(1 - c.dir), h);
    assert Balanced(n.left, h) && Balanced(n.right, h);
    var r := TurnedSibling(c);
    assert r.Child(c.dir) == n.Child(c.dir);
    assert r.Child(1 - c.dir).color == Red && r.Child(1 - c.dir).Child(c.dir) == n.Child(1 - c.dir)
        && r.Child(1 - c.dir).Child(1 - c.dir) == s.Child(1 - c.dir);
    assert Balanced(r.Child(1 - c.dir), h);
    assert Balanced(r, h + 1);
    SameItems(c.up, Fill(c, t), Fill(c.(sibling := TurnedSibling(c)), t));
  }

  /** Black sibling, red far nephew: the sibling takes the parent's place and colour. */
  function Refilled(c: Ctx, t: Tree): (r: Tree)
    requires c.Step? && c.sibling.Node? && c.sibling.Child(1 - c.dir).Node?
    ensures r.Node?
  {
    var s := Paint(c.sibling, c.color);
    Rotated(Fill(c.(color := Black, sibling := s.With(1 - c.dir, Paint(s.Child(1 - c.dir), Black))), t), c.dir)
  }

  lemma RefilledFits(c: Ctx, t: Tree, h: int)
    requires c.Step? && c.sibling.Node? && c.sibling.color == Black && Deficit(c, t, h) && !IsRed(t)
    requires IsRed(c.sibling.Child(1 - c.dir))
    ensures var r := Plug(c.up, Refilled(c, t));
            RedBlack(r) && Deficit(Top, r, BlackHeight(r)) && r.Node?
    ensures Items(Plug(c.up, Refilled(c, t))) == Items(Plug(c, t))
  {
    hide Refilled, Items;
    RefilledItems(c, t);
    SameItems(c.up, Fill(c, t), Refilled(c, t));
    RefilledBalanced(c, t, h);
    PlugBalanced(c.up, Refilled(c, t), if c.color == Black then h + 2 else h + 1);
    PlugNode(c.up, Refilled(c, t));
  }

  lemma RefilledItems(c: Ctx, t: Tree)
    requires c.Step? && c.sibling.Node? && c.sibling.Child(1 - c.dir).Node?
    ensures Items(Refilled(c, t)) == Items(Fill(c, t))
  {
    var s := Paint(c.sibling, c.color);
    var f := s.Child(1 - c.dir);
    assert Items(s) == Items(c.sibling);
    assert Items(Paint(f, Black)) == Items(f);
    var s' := s.With(1 - c.dir, Paint(f, Black));
    assert Items(s') == Items(s);
    assert Items(Fill(c.(color := Black, sibling := s'), t)) == Items(Fill(c, t));
  }

  lemma RefilledBalanced(c: Ctx, t: Tree, h: int)
    requires c.Step? && c.sibling.Node? && c.sibling.color == Black && Deficit(c, t, h) && !IsRed(t)
    requires IsRed(c.sibling.Child(1 - c.dir))
    ensures var hh := if c.color == Black then h + 2 else h + 1;
            Balanced(Refilled(c, t), hh) && Awaits(c.up, hh) && Refilled(c, t).color == c.color
  {
    var s := Paint(c.sibling, c.color);
    var f := s.Child(1 - c.dir);
    assert Balanced(f, h) && Balanced(s.Child(c.dir), h);
    assert Balanced(Paint(f, Black), h + 1);
    var r := Refilled(c, t);
    assert r.Child(1 - c.dir) == Paint(f, Black);
    assert r.Child(c.dir).color == Black && r.Child(c.dir).Child(c.dir) == t
        && r.Child(c.dir).Child(1 - c.dir) == s.Child(c.dir);
    assert Balanced(r.Child(c.dir), h + 1);
  }

  lemma {:induction false} PlugNode(c: Ctx, t: Tree)
    requires t.Node?
    ensures Plug(c, t).Node?
    decreases c
  {
    if c.Step? {
      PlugNode(c.up, Fill(c, t));
    }
  }

  /** The records a rotation reads, and that they are all different. */
  lemma RotateShape(mem: Memory, root: int, c: Ctx, t: Tree, dir: Dir)
    requires Focus(mem, root, c, t) && t.Node? && t.Child(1 - dir).Node?
    ensures var u := t.Child(1 - dir);
            var inner := u.Child(dir);
            && t.addr in mem && u.addr in mem && 0 < t.addr && 0 < u.addr && t.addr != u.addr
            && mem[t.addr] == Rec(Above(c), Addr(t.left), Addr(t.right), t.color, t.item)
            && mem[u.addr] == Rec(t.addr, Addr(u.left), Addr(u.right), u.color, u.item)
            && (inner.Node? ==> inner.addr in mem && 0 < inner.addr && inner.addr !in {t.addr, u.addr})
            && Addr(t.Child(dir)) != u.addr
            && (c.Step? ==>
                  && c.addr in mem && 0 < c.addr && c.addr !in {t.addr, u.addr, Addr(inner)}
                  && mem[c.addr].Child(c.dir) == t.addr && mem[c.addr].Child(1 - c.dir) != t.addr)
  {
    var u := t.Child(1 - dir);
    assert TreeAt(mem, t.addr, u) && TreeAt(mem, t.addr, t.Child(dir));
    assert TreeAt(mem, u.addr, u.Child(dir));
    if c.Step? {
      assert Addr(u.Child(dir)) != c.addr;
    }
  }

  /** The records that a rotation at `subtree` writes exist and are all different. */
  ghost predicate Rotatable(mem: Memory, subtree: int, dir: Dir) {
    && subtree in mem && 0 < subtree
    && var n, above := mem[subtree].Child(1 - dir), mem[subtree].parent;
       && n in mem && 0 < n && n != subtree
       && var moved := mem[n].Child(dir);
          && (moved != NIL ==> moved in mem && 0 < moved && moved !in {subtree, n})
          && (above != NULL ==> above in mem && above !in {NIL, subtree, n, moved})
  }

  /** The memory after the writes of _rotate, as one expression. */
  ghost function RotatedMemory(mem: Memory, subtree: int, dir: Dir): (mem': Memory)
    requires Rotatable(mem, subtree, dir)
    ensures mem'.Keys == mem.Keys
  {
    var n, above := mem[subtree].Child(1 - dir), mem[subtree].parent;
    var moved := mem[n].Child(dir);
    var m := mem[subtree := mem[subtree].WithChild(1 - dir, moved).(parent := n)]
                [n := mem[n].WithChild(dir, subtree).(parent := above)];
    var m' := if moved == NIL then m else m[moved := mem[moved].(parent := subtree)];
    if above == NULL then m'
    else m'[above := mem[above].WithChild(if subtree == mem[above].Child(dir) then dir else 1 - dir, n)]
  }

  lemma RotateReady(mem: Memory, root: int, c: Ctx, t: Tree, dir: Dir)
    requires Focus(mem, root, c, t) && t.Node? && t.Child(1 - dir).Node?
    ensures Rotatable(mem, t.addr, dir) && mem[t.addr].Child(1 - dir) == t.Child(1 - dir).addr
    ensures mem[t.addr].parent == NULL <==> c.Top?
  {
    hide Focus;
    RotateShape(mem, root, c, t, dir);
  }

  /** What these writes do to the records of t. */
  ghost predicate Turned(mem: Memory, mem': Memory, c: Ctx, t: Tree, dir: Dir)
    requires t.Node? && t.Child(1 - dir).Node?
  {
    var u := t.Child(1 - dir);
    var inner := u.Child(dir);
    && mem'.Keys == mem.Keys
    && t.addr in mem && u.addr in mem && (inner.Node? ==> inner.addr in mem) && (c.Step? ==> c.addr in mem)
    && (forall a | a in mem && a !in {t.addr, u.addr, Addr(inner), Above(c)} :: mem'[a] == mem[a])
    && mem'[t.addr] == mem[t.addr].WithChild(1 - dir, Addr(inner)).(parent := u.addr)
    && mem'[u.addr] == mem[u.addr].WithChild(dir, t.addr).(parent := Above(c))
    && (inner.Node? ==> mem'[inner.addr] == mem[inner.addr].(parent := t.addr))
    && (c.Step? ==> mem'[c.addr] == mem[c.addr].WithChild(c.dir, u.addr))
  }

  lemma RotatedFields(mem: Memory, root: int, c: Ctx, t: Tree, dir: Dir)
    requires Focus(mem, root, c, t) && t.Node? && t.Child(1 - dir).Node? && Rotatable(mem, t.addr, dir)
    ensures Turned(mem, RotatedMemory(mem, t.addr, dir), c, t, dir)
  {
    hide Focus;
    RotateShape(mem, root, c, t, dir);
  }

  /** Four records written turn the records of t into those of the rotated tree. */
  lemma RotateWrites(mem: Memory, mem': Memory, root: int, c: Ctx, t: Tree, dir: Dir)
    requires Focus(mem, root, c, t) && t.Node? && t.Child(1 - dir).Node? && Turned(mem, mem', c, t, dir)
    ensures var root' := if c.Top? then t.Child(1 - dir).addr else root;
            Focus(mem', root', c, Rotated(t, dir))
    ensures AllAddrs(c, Rotated(t, dir)) == AllAddrs(c, t)
  {
    var u := t.Child(1 - dir);
    var inner := u.Child(dir);
    RotateShape(mem, root, c, t, dir);
    RotateParts(mem, root, c, t, dir);
    Reparent(mem, mem', u.addr, t.addr, inner);
    TreeFrame(mem, mem', t.addr, t.Child(dir));
    TreeFrame(mem, mem', u.addr, u.Child(1 - dir));
    RotateAssembled(mem', Above(c), t, dir);
    Swapped(mem, mem', root, if c.Top? then u.addr else root, c, t, Rotated(t, dir));
  }

  /** The three subtrees that a rotation moves are disjoint from everything it writes. */
  lemma RotateParts(mem: Memory, root: int, c: Ctx, t: Tree, dir: Dir)
    requires Focus(mem, root, c, t) && t.Node? && t.Child(1 - dir).Node?
    ensures var u := t.Child(1 - dir);
            var inner, near, far := u.Child(dir), t.Child(dir), u.Child(1 - dir);
            && TreeAt(mem, u.addr, inner) && TreeAt(mem, t.addr, near) && TreeAt(mem, u.addr, far)
            && (forall a | a in Addrs(near) :: a !in {t.addr, u.addr, Addr(inner), Above(c)})
            && (forall a | a in Addrs(far) :: a !in {t.addr, u.addr, Addr(inner), Above(c)})
            && (forall a | a in Addrs(inner) :: a !in {t.addr, u.addr, Above(c)})
            && Addrs(near) !! Addrs(inner) && Addrs(near) !! Addrs(far) && Addrs(inner) !! Addrs(far)
            && Addrs(t) == {t.addr, u.addr} + Addrs(near) + Addrs(inner) + Addrs(far)
            && t.addr != u.addr
            && t.addr !in Addrs(near) + Addrs(far) + Addrs(inner)
            && u.addr !in Addrs(near) + Addrs(far) + Addrs(inner)
            && {t.addr, u.addr, Addr(inner)} !! CtxAddrs(c)
  {
    hide TreeAt, CtxAt, Addrs, CtxAddrs;
    RotateTreeParts(mem, Above(c), t, dir);
    AboveIsCtx(mem, root, c, Addr(t));
  }

  lemma AboveIsCtx(mem: Memory, root: int, c: Ctx, hole: int)
    requires CtxAt(mem, root, c, hole)
    ensures c.Step? ==> Above(c) in CtxAddrs(c)
    ensures c.Top? ==> Above(c) == NULL
    ensures NIL !in CtxAddrs(c)
    decreases c
  {
    if c.Step? {
      RootAbove(mem, root, c, hole);
    }
  }

  /** The same for the subtree alone. */
  lemma RotateTreeParts(mem: Memory, p: int, t: Tree, dir: Dir)
    requires TreeAt(mem, p, t) && t.Node? && t.Child(1 - dir).Node?
    ensures var u := t.Child(1 - dir);
            var inner, near, far := u.Child(dir), t.Child(dir), u.Child(1 - dir);
            && TreeAt(mem, u.addr, inner) && TreeAt(mem, t.addr, near) && TreeAt(mem, u.addr, far)
            && Addrs(near) !! Addrs(inner) && Addrs(near) !! Addrs(far) && Addrs(inner) !! Addrs(far)
            && Addrs(t) == {t.addr, u.addr} + Addrs(near) + Addrs(inner) + Addrs(far)
            && t.addr != u.addr
            && t.addr !in Addrs(near) + Addrs(far) + Addrs(inner)
            && u.addr !in Addrs(near) + Addrs(far) + Addrs(inner)
            && (inner.Node? ==> Addr(inner) in Addrs(inner)) && (inner.Leaf? ==> Addr(inner) == NIL)
            && NULL !in Addrs(t) && NIL !in Addrs(t)
  {
    hide TreeAt, Addrs;
    var u := t.Child(1 - dir);
    TreeParts(mem, p, t, dir);
    TreeParts(mem, t.addr, u, dir);
  }

  /** The parts of one node. */
  lemma TreeParts(mem: Memory, p: int, t: Tree, dir: Dir)
    requires TreeAt(mem, p, t) && t.Node?
    ensures TreeAt(mem, t.addr, t.Child(dir)) && TreeAt(mem, t.addr, t.Child(1 - dir))
    ensures Addrs(t) == {t.addr} + Addrs(t.Child(dir)) + Addrs(t.Child(1 - dir))
    ensures t.addr !in Addrs(t.Child(0)) + Addrs(t.Child(1)) && Addrs(t.Child(0)) !! Addrs(t.Child(1))
    ensures forall d: Dir :: t.Child(d).Node? ==> Addr(t.Child(d)) in Addrs(t.Child(d))
    ensures NULL !in Addrs(t) && NIL !in Addrs(t)
  {
    LeafAddr(mem, p, t);
  }

  lemma RotateAssembled(mem: Memory, p: int, t: Tree, dir: Dir)
    requires t.Node? && t.Child(1 - dir).Node?
    requires var u := t.Child(1 - dir);
             var inner, near, far := u.Child(dir), t.Child(dir), u.Child(1 - dir);
             var low := t.With(1 - dir, inner);
             && 0 < t.addr && 0 < u.addr && t.addr in mem && u.addr in mem && t.addr != u.addr
             && TreeAt(mem, t.addr, inner) && TreeAt(mem, t.addr, near) && TreeAt(mem, u.addr, far)
             && t.addr !in Addrs(near) + Addrs(far) + Addrs(inner)
             && u.addr !in Addrs(near) + Addrs(far) + Addrs(inner)
             && Addrs(near) !! Addrs(inner) && Addrs(near) !! Addrs(far) && Addrs(inner) !! Addrs(far)
             && Addrs(t) == {t.addr, u.addr} + Addrs(near) + Addrs(inner) + Addrs(far)
             && mem[t.addr] == Rec(u.addr, Addr(low.left), Addr(low.right), t.color, t.item)
             && mem[u.addr].Child(dir) == t.addr && mem[u.addr].Child(1 - dir) == Addr(far)
             && mem[u.addr].parent == p && mem[u.addr].color == u.color && mem[u.addr].item == u.item
    ensures TreeAt(mem, p, Rotated(t, dir)) && Addrs(Rotated(t, dir)) == Addrs(t)
  {
    hide TreeAt;
    var u := t.Child(1 - dir);
    var low := t.With(1 - dir, u.Child(dir));
    AssembledLow(mem, u.addr, t, u.Child(dir), dir);
    assert Rotated(t, dir) == u.With(dir, low);
    AssembledTop(mem, p, u, low, dir);
  }

  lemma AssembledLow(mem: Memory, p: int, t: Tree, inner: Tree, dir: Dir)
    requires t.Node? && 0 < t.addr && t.addr in mem
    requires TreeAt(mem, t.addr, inner) && TreeAt(mem, t.addr, t.Child(dir)) && Addrs(t.Child(dir)) !! Addrs(inner)
    requires t.addr !in Addrs(inner) && t.addr !in Addrs(t.Child(dir))
    requires var low := t.With(1 - dir, inner);
             mem[t.addr] == Rec(p, Addr(low.left), Addr(low.right), t.color, t.item)
    ensures TreeAt(mem, p, t.With(1 - dir, inner))
    ensures Addrs(t.With(1 - dir, inner)) == {t.addr} + Addrs(t.Child(dir)) + Addrs(inner)
  {
  }

  lemma AssembledTop(mem: Memory, p: int, u: Tree, low: Tree, dir: Dir)
    requires u.Node? && low.Node? && 0 < u.addr && u.addr in mem
    requires TreeAt(mem, u.addr, low) && TreeAt(mem, u.addr, u.Child(1 - dir))
    requires u.addr !in Addrs(low) && u.addr !in Addrs(u.Child(1 - dir)) && Addrs(low) !! Addrs(u.Child(1 - dir))
    requires mem[u.addr].Child(dir) == low.addr && mem[u.addr].Child(1 - dir) == Addr(u.Child(1 - dir))
    requires mem[u.addr].parent == p && mem[u.addr].color == u.color && mem[u.addr].item == u.item
    ensures TreeAt(mem, p, u.With(dir, low))
    ensures Addrs(u.With(dir, low)) == {u.addr} + Addrs(low) + Addrs(u.Child(1 - dir))
  {
  }

  /** A key that belongs into the hole goes to the hole's side of the node above. */
  lemma AttachSide(c: Ctx, key: nat)
    requires Between(c, key)
    ensures c.Step? ==> (key < c.item.key <==> c.dir == 1)
  {
    assert c.Step? ==> c.item in (if c.dir == 0 then After(c) else Before(c));
  }

  class RedBlackTree {
    var root: int
    var mem: Memory
    /** What the records spell out. */
    ghost var tree: Tree

    ghost predicate Valid()
      reads this
    {
      && Sentinel(mem)
      && Focus(mem, root, Top, tree)
      && mem.Keys == Addrs(tree) + {NIL}
      && RedBlack(tree)
      && Descending(Items(tree))
    }

    /** The items in descending key order. */
    ghost function Contents(): (s: seq<Item>)
      reads this
    {
      Items(tree)
    }

    /** init_root_node. */
    constructor ()
      ensures Valid() && Contents() == []
    {
      root := NIL;
      mem := map[NIL := Rec(NULL, NIL, NIL, Black, Item(0, NULL))];
      tree := Leaf;
    }

    method Rotate(subtree: int, dir: Dir, ghost c: Ctx, ghost t: Tree)
      requires Sentinel(mem) && Focus(mem, root, c, t)
      requires t.Node? && t.addr == subtree && t.Child(1 - dir).Node?
      modifies this`root, this`mem
      ensures Sentinel(mem) && Focus(mem, root, c, Rotated(t, dir))
      ensures mem.Keys == old(mem.Keys) && mem[NIL] == old(mem[NIL])
      ensures AllAddrs(c, Rotated(t, dir)) == AllAddrs(c, t)
    {
      hide Focus, AllAddrs, Items, Rotatable, RotatedMemory, Turned;
      RotateReady(mem, root, c, t, dir);
      RotatedFields(mem, root, c, t, dir);
      RotateWrites(mem, RotatedMemory(mem, subtree, dir), root, c, t, dir);
      RotateLinks(subtree, dir);
    }

    /** The writes of _rotate. */
    method RotateLinks(subtree: int, dir: Dir)
      requires Rotatable(mem, subtree, dir) && NIL in mem
      modifies this`root, this`mem
      ensures mem == RotatedMemory(old(mem), subtree, dir) && mem[NIL] == old(mem[NIL])
      ensures root == if old(mem)[subtree].parent == NULL then old(mem)[subtree].Child(1 - dir) else old(root)
    {
      hide Rec.Child, Rec.WithChild;
      var n := mem[subtree].Child(1 - dir);
      var moved := mem[n].Child(dir);
      ghost var m, above0 := mem, mem[subtree].parent;
      ghost var s1 := m[subtree].WithChild(1 - dir, moved);
      ghost var n1 := m[n].(parent := above0);
      ParentThenChild(m[n], above0, dir, subtree);
      mem := mem[subtree := mem[subtree].WithChild(1 - dir, moved)];
      if moved != NIL {
        mem := mem[moved := mem[moved].(parent := subtree)];
      }
      if n != NIL {
        mem := mem[n := mem[n].(parent := mem[subtree].parent)];
      }
      var above := mem[subtree].parent;
      ghost var b := m[NIL];
      if above != NULL {
        var lr: Dir := if subtree == mem[above].Child(dir) then dir else 1 - dir;
        b := mem[above].WithChild(lr, n);
        mem := mem[above := mem[above].WithChild(lr, n)];
      } else {
        root := n;
      }
      mem := mem[n := mem[n].WithChild(dir, subtree)];
      if subtree != NIL {
        mem := mem[subtree := mem[subtree].(parent := n)];
      }
      ghost var a := if moved == NIL then m[NIL] else m[moved].(parent := subtree);
      WritesCommute(m, subtree, s1, s1.(parent := n), n, n1, n1.WithChild(dir, subtree), moved, a, above, b);
    }

    method SetColor(a: int, k: Color)
      requires a in mem
      modifies this`mem
      ensures mem == old(mem)[a := old(mem)[a].(color := k)]
    {
      mem := mem[a := mem[a].(color := k)];
    }

    /** Red parent, red uncle: recolour and continue at the grandparent. */
    method InsertRecolor(node: int, uncle: int, ghost c: Ctx, ghost t: Tree)
      returns (next: int, ghost t': Tree)
      requires Sentinel(mem) && Focus(mem, root, c, t) && t.Node? && t.addr == node
      requires c.Step? && c.up.Step? && c.up.sibling.Node? && c.up.sibling.addr == uncle
      modifies this`mem
      ensures Sentinel(mem) && mem.Keys == old(mem.Keys) && mem[NIL] == old(mem[NIL])
      ensures t' == Recolored(c, t) && next == t'.addr
      ensures Focus(mem, root, c.up.up, t') && AllAddrs(c.up.up, t') == AllAddrs(c, t)
    {
      hide Focus, AllAddrs, Items;
      Fields(mem, root, c, t);
      var parent := mem[node].parent;
      PaintedParent(mem, root, c, t, Black);
      SetColor(parent, Black);
      ghost var c1 := c.(color := Black);
      GoUp(mem, root, c1, t);
      Fields(mem, root, c1.up, Fill(c1, t));
      ghost var mem1 := mem;
      SetColor(uncle, Black);
      PaintedSibling(mem1, root, c1.up, Fill(c1, t), Black);
      ghost var c2 := c1.up.(sibling := Paint(c1.up.sibling, Black));
      ghost var mem2 := mem;
      SetColor(mem[parent].parent, Red);
      PaintedParent(mem2, root, c2, Fill(c1, t), Red);
      GoUp(mem, root, c2.(color := Red), Fill(c1, t));
      next := mem[parent].parent;
      t' := Recolored(c, t);
    }

    /** Red parent, black uncle, node on the inner side: turn it to the outer side. */
    method InsertTurn(node: int, dir: Dir, ghost c: Ctx, ghost t: Tree)
      returns (next: int, ghost c': Ctx, ghost t': Tree)
      requires Sentinel(mem) && Focus(mem, root, c, t) && t.Node? && t.addr == node
      requires c.Step? && c.dir == dir
      modifies this`mem, this`root
      ensures Sentinel(mem) && mem.Keys == old(mem.Keys) && mem[NIL] == old(mem[NIL])
      ensures c' == TurnedCtx(c, t) && t' == TurnedNode(c, t) && next == t'.addr
      ensures Focus(mem, root, c', t') && AllAddrs(c', t') == AllAddrs(c, t)
    {
      GoUp(mem, root, c, t);
      next := mem[node].parent;
      Rotate(next, 1 - dir, c.up, Fill(c, t));
      GoDown(mem, root, c.up, Rotated(Fill(c, t), 1 - dir), 1 - dir);
      c', t' := TurnedCtx(c, t), TurnedNode(c, t);
    }

    /** Red parent, black uncle, node on the outer side: recolour and rotate. */
    method InsertRotate(node: int, dir: Dir, ghost c: Ctx, ghost t: Tree)
      returns (ghost c': Ctx)
      requires Sentinel(mem) && Focus(mem, root, c, t) && t.Node? && t.addr == node
      requires c.Step? && c.up.Step? && c.dir == c.up.dir == 1 - dir
      modifies this`mem, this`root
      ensures Sentinel(mem) && mem.Keys == old(mem.Keys) && mem[NIL] == old(mem[NIL])
      ensures c' == Into(1 - dir, Lifted(c, t), c.up.up)
      ensures Focus(mem, root, c', t) && AllAddrs(c', t) == AllAddrs(c, t)
    {
      hide Focus, AllAddrs, Items;
      Fields(mem, root, c, t);
      var parent := mem[node].parent;
      PaintedParent(mem, root, c, t, Black);
      SetColor(parent, Black);
      ghost var c1 := c.(color := Black);
      GoUp(mem, root, c1, t);
      Fields(mem, root, c1.up, Fill(c1, t));
      ghost var mem1 := mem;
      var grand := mem[parent].parent;
      SetColor(grand, Red);
      PaintedParent(mem1, root, c1.up, Fill(c1, t), Red);
      ghost var g := Fill(c1.up.(color := Red), Fill(c1, t));
      GoUp(mem, root, c1.up.(color := Red), Fill(c1, t));
      Rotate(grand, dir, c.up.up, g);
      c' := Into(1 - dir, Lifted(c, t), c.up.up);
      GoDown(mem, root, c.up.up, Lifted(c, t), 1 - dir);
    }

    /** One round of the insertion fix-up. */
    method InsertStep(node: int, ghost c: Ctx, ghost t: Tree, ghost h: int)
      returns (next: int, ghost c': Ctx, ghost t': Tree, ghost h': int)
      requires Sentinel(mem) && Focus(mem, root, c, t)
      requires IsRed(t) && t.addr == node && Balanced(t, h) && Awaits(c, h)
      requires c.Step? && c.color == Red
      modifies this`mem, this`root
      ensures Sentinel(mem) && mem.Keys == old(mem.Keys) && mem[NIL] == old(mem[NIL])
      ensures Focus(mem, root, c', t') && AllAddrs(c', t') == AllAddrs(c, t)
      ensures IsRed(t') && t'.addr == next && Balanced(t', h') && Awaits(c', h')
      ensures Items(Plug(c', t')) == Items(Plug(c, t))
      ensures Depth(c') < Depth(c)
    {
      next, c', t', h' := node, c, t, h;
      GrandFields(mem, root, c, t);
      var parent := mem[node].parent;
      var grand := mem[parent].parent;
      var dir: Dir := if parent == mem[grand].child0 then 1 else 0;
      var uncle := mem[grand].Child(dir);
      if mem[uncle].color == Red {
        RecoloredFits(c, t, h);
        next, t' := InsertRecolor(node, uncle, c, t);
        c', h' := c.up.up, h + 1;
      } else {
        if node == mem[parent].Child(dir) {
          TurnedFits(c, t, h);
          next, c', t' := InsertTurn(node, dir, c, t);
        }
        LiftedFits(c', t', h);
        c' := InsertRotate(next, dir, c', t');
      }
    }

    /** _insert_fixup: a red node may have a red parent at entry; at exit no rule is broken. */
    method InsertFixup(start: int, ghost c0: Ctx, ghost t0: Tree, ghost h0: int)
      requires Sentinel(mem) && Focus(mem, root, c0, t0) && mem.Keys == AllAddrs(c0, t0) + {NIL}
      requires IsRed(t0) && t0.addr == start && Balanced(t0, h0) && Awaits(c0, h0)
      requires Descending(Items(Plug(c0, t0)))
      modifies this
      ensures Valid() && Contents() == Items(Plug(c0, t0)) && Addrs(tree) == AllAddrs(c0, t0)
    {
      hide Items, Balanced, Awaits, Plug, Descending, Focus, AllAddrs;
      var node := start;
      ghost var c, t, h := c0, t0, h0;
      Surroundings(mem, root, c, t);
      while node != root && mem[mem[node].parent].color == Red
        invariant Sentinel(mem) && Focus(mem, root, c, t)
        invariant mem.Keys == AllAddrs(c, t) + {NIL} && AllAddrs(c, t) == AllAddrs(c0, t0)
        invariant IsRed(t) && t.addr == node && Balanced(t, h) && Awaits(c, h)
        invariant Items(Plug(c, t)) == Items(Plug(c0, t0))
        invariant (node != root <==> c.Step?) && node in mem && mem[node].parent == Above(c)
        invariant c.Step? ==> c.addr in mem && mem[c.addr].color == c.color
        decreases Depth(c)
      {
        node, c, t, h := InsertStep(node, c, t, h);
        Surroundings(mem, root, c, t);
      }
      tree := InsertDone(mem, root, c, t, h);
      SetColor(root, Black);
    }

    /** The second half of tree_insert: hang a red node into the leaf position c. */
    method Attach(parent: int, data: Item, head: int, ghost c: Ctx)
      requires Valid() && 0 < head && head !in mem
      requires Focus(mem, root, c, Leaf) && Plug(c, Leaf) == tree && AllAddrs(c, Leaf) == Addrs(tree)
      requires parent == Above(c) && Between(c, data.key)
      requires Descending(Before(c) + [data] + After(c))
      modifies this
      ensures Valid() && Contents() == Before(c) + [data] + After(c)
      ensures Addrs(tree) == old(Addrs(tree)) + {head}
    {
      hide Focus, Descending, Between, Sentinel;
      ghost var h := Unplug(c, Top, Leaf, BlackHeight(tree));
      ComposeTop(c);
      ghost var added := Node(head, Red, data, Leaf, Leaf);
      AttachWrites(parent, data, head, c);
      assert Addrs(added) == {head};
      PlugItems(c, added);
      assert Items(added) == [data];
      InsertFixup(head, c, added, h);
    }

    /** The writes of tree_insert before its fix-up: a red node in the hole. */
    method AttachWrites(parent: int, data: Item, head: int, ghost c: Ctx)
      requires Sentinel(mem) && 0 < head && head !in mem && Focus(mem, root, c, Leaf)
      requires CtxAddrs(c) <= mem.Keys && parent == Above(c) && Between(c, data.key)
      modifies this`mem, this`root
      ensures Sentinel(mem) && Focus(mem, root, c, Node(head, Red, data, Leaf, Leaf))
      ensures mem.Keys == old(mem.Keys) + {head} && mem[NIL] == old(mem[NIL])
    {
      hide Between, Before, After;
      AttachSide(c, data.key);
      assert c.Step? ==> c.addr in CtxAddrs(c);
      ghost var added := Node(head, Red, data, Leaf, Leaf);
      mem := mem[head := Rec(parent, NIL, NIL, Red, data)];
      if parent != NULL {
        var d: Dir := if data.key < mem[parent].item.key then 1 else 0;
        mem := mem[parent := mem[parent].WithChild(d, head)];
      } else {
        root := head;
      }
      assert Addrs(added) == {head};
      Swapped(old(mem), mem, old(root), root, c, Leaf, added);
    }

    /** tree_insert: the datum already stored under the key, and nothing changes; or None,
        and exactly the new datum is added.  `head` is the node that kmalloc returns. */
    method Insert(data: Item, head: int) returns (dup: Option<Item>)
      requires Valid()
      requires 0 < head && head !in mem
      modifies this
      ensures Valid()
      ensures dup.Some? ==>
                && dup.value in old(Contents()) && dup.value.key == data.key
                && mem == old(mem) && root == old(root) && tree == old(tree)
      ensures dup.None? ==>
                && (forall i | i in old(Contents()) :: i.key != data.key)
                && Addrs(tree) == old(Addrs(tree)) + {head}
                && exists k :: 0 <= k <= |old(Contents())| &&
                     Contents() == old(Contents())[..k] + [data] + old(Contents())[k..]
    {
      var curr, parent := root, NULL;
      ghost var c, t := Top, tree;
      while curr != NIL
        invariant mem == old(mem) && root == old(root) && tree == old(tree)
        invariant Focus(mem, root, c, t) && Plug(c, t) == tree && AllAddrs(c, t) == Addrs(tree)
        invariant curr == Addr(t) && parent == Above(c) && Between(c, data.key)
        decreases t
      {
        LeafAddr(mem, Above(c), t);
        if mem[curr].item.key == data.key {
          PlugItems(c, t);
          return Some(mem[curr].item);
        }
        parent := curr;
        var d: Dir := if data.key < mem[curr].item.key then 1 else 0;
        Descend(c, t, data.key);
        GoDown(mem, root, c, t, d);
        curr := mem[curr].Child(d);
        c, t := Into(d, t, c), t.Child(d);
      }
      LeafAddr(mem, Above(c), t);
      InsertHere(c, data);
      Attach(parent, data, head, c);
      assert Contents() == old(Contents())[..|Before(c)|] + [data] + old(Contents())[|Before(c)|..];
      return None;
    }

    /** Removal fix-up, red sibling. */
    method RemoveSpin(parent: int, sibling: int, dir: Dir, ghost c: Ctx, ghost t: Tree)
      requires Sentinel(mem) && Focus(mem, root, c, t)
      requires c.Step? && c.dir == 1 - dir && c.addr == parent && c.sibling.Node? && c.sibling.addr == sibling
      modifies this`mem, this`root
      ensures Sentinel(mem) && mem.Keys == old(mem.Keys) && mem[NIL] == old(mem[NIL])
      ensures Focus(mem, root, SpunCtx(c, t), t) && AllAddrs(SpunCtx(c, t), t) == AllAddrs(c, t)
    {
      hide Focus, AllAddrs, Items;
      Fields(mem, root, c, t);
      PaintedSibling(mem, root, c, t, Black);
      ghost var c1 := c.(sibling := Paint(c.sibling, Black));
      SetColor(sibling, Black);
      PaintedParent(mem, root, c1, t, Red);
      ghost var c2 := c1.(color := Red);
      SetColor(parent, Red);
      GoUp(mem, root, c2, t);
      Rotate(parent, 1 - dir, c.up, Fill(c2, t));
      ghost var r := SpunTree(c, t);
      GoDown(mem, root, c.up, r, c.dir);
      GoDown(mem, root, Into(c.dir, r, c.up), r.Child(c.dir), c.dir);
    }

    /** Removal fix-up, black sibling with a red near and a black far child. */
    method RemoveTurn(sibling: int, dir: Dir, ghost c: Ctx, ghost t: Tree)
      requires Sentinel(mem) && Focus(mem, root, c, t)
      requires c.Step? && c.dir == 1 - dir && c.sibling.Node? && c.sibling.addr == sibling
      requires c.sibling.Child(c.dir).Node?
      modifies this`mem, this`root
      ensures Sentinel(mem) && mem.Keys == old(mem.Keys) && mem[NIL] == old(mem[NIL])
      ensures Focus(mem, root, c.(sibling := TurnedSibling(c)), t)
      ensures AllAddrs(c.(sibling := TurnedSibling(c)), t) == AllAddrs(c, t)
    {
      hide Focus, AllAddrs, Items;
      ghost var s, near := c.sibling, c.sibling.Child(c.dir);
      GoAcross(mem, root, c, t);
      Fields(mem, root, Into(dir, Fill(c, t), c.up), c.sibling);
      ChildFields(mem, root, Into(dir, Fill(c, t), c.up), c.sibling, c.dir);
      ghost var cs := Into(dir, Fill(c, t), c.up);
      PaintedChild(mem, root, cs, s, c.dir, Black);
      ghost var s1 := s.With(c.dir, Paint(near, Black));
      SetColor(mem[sibling].Child(1 - dir), Black);
      Painted(mem, root, cs, s1, Red);
      SetColor(sibling, Red);
      Rotate(sibling, dir, cs, Paint(s1, Red));
      GoAcross(mem, root, cs, TurnedSibling(c));
    }

    /** Removal fix-up, black sibling with a red far child. */
    method RemoveRefill(parent: int, sibling: int, dir: Dir, ghost c: Ctx, ghost t: Tree)
      requires Sentinel(mem) && Focus(mem, root, c, t)
      requires c.Step? && c.dir == 1 - dir && c.addr == parent
      requires c.sibling.Node? && c.sibling.addr == sibling && c.sibling.Child(dir).Node?
      modifies this`mem, this`root
      ensures Sentinel(mem) && mem.Keys == old(mem.Keys) && mem[NIL] == old(mem[NIL])
      ensures Focus(mem, root, c.up, Refilled(c, t)) && AllAddrs(c.up, Refilled(c, t)) == AllAddrs(c, t)
    {
      hide Focus, AllAddrs, Items;
      Fields(mem, root, c, t);
      PaintedSibling(mem, root, c, t, c.color);
      ghost var s := Paint(c.sibling, c.color);
      ghost var c1 := c.(sibling := s);
      SetColor(sibling, mem[parent].color);
      PaintedParent(mem, root, c1, t, Black);
      ghost var c2 := c1.(color := Black);
      SetColor(parent, Black);
      GoAcross(mem, root, c2, t);
      ghost var cs := Into(dir, Fill(c2, t), c.up);
      Fields(mem, root, cs, s);
      ChildFields(mem, root, cs, s, dir);
      PaintedChild(mem, root, cs, s, dir, Black);
      ghost var s1 := s.With(dir, Paint(s.Child(dir), Black));
      SetColor(mem[sibling].Child(dir), Black);
      GoUp(mem, root, cs, s1);
      Rotate(parent, 1 - dir, c.up, Fill(cs, s1));
      assert Fill(cs, s1) == Fill(c2.(sibling := s1), t);
    }

    /** One round of the removal fix-up once the sibling is black. */
    method RemoveBelowBlack(node: int, dir: Dir, ghost c: Ctx, ghost t: Tree, ghost h: int)
      returns (next: int, ghost c': Ctx, ghost t': Tree, ghost h': int)
      requires Sentinel(mem) && Focus(mem, root, c, t) && Addr(t) == node
      requires c.Step? && c.dir == 1 - dir && !IsRed(t) && Deficit(c, t, h) && mem[node].parent == c.addr
      requires c.sibling.Node? && c.sibling.color == Black
      modifies this`mem, this`root
      ensures Sentinel(mem) && mem.Keys == old(mem.Keys) && mem[NIL] == old(mem[NIL])
      ensures Focus(mem, root, c', t') && AllAddrs(c', t') == AllAddrs(c, t) && Addr(t') == next
      ensures Deficit(c', t', h') && t'.Node?
      ensures Items(Plug(c', t')) == Items(Plug(c, t))
      ensures c'.Top? || (c' == c.up && t'.color == c.color)
    {
      hide Focus, AllAddrs, Items, Balanced, Awaits, Deficit;
      HoleFields(mem, root, c, t);
      Fields(mem, root, c, t);
      var parent := mem[node].parent;
      var sibling := mem[parent].Child(dir);
      if mem[mem[sibling].Child(1 - dir)].color == Black && mem[mem[sibling].Child(dir)].color == Black {
        DrainedFits(c, t, h);
        PaintedSibling(mem, root, c, t, Red);
        SetColor(sibling, Red);
        GoUp(mem, root, c.(sibling := Paint(c.sibling, Red)), t);
        Fields(mem, root, c.(sibling := Paint(c.sibling, Red)), t);
        next, c', t', h' := mem[node].parent, c.up, Drained(c, t), if c.color == Black then h + 1 else h;
      } else {
        ghost var c1 := c;
        if mem[mem[sibling].Child(dir)].color == Black {
          TurnedSiblingFits(c, t, h);
          RemoveTurn(sibling, dir, c, t);
          c1 := c.(sibling := TurnedSibling(c));
          HoleFields(mem, root, c1, t);
          Fields(mem, root, c1, t);
          sibling := mem[mem[node].parent].Child(dir);
        }
        RefilledFits(c1, t, h);
        RemoveRefill(parent, sibling, dir, c1, t);
        Refocus(mem, root, c1.up, Refilled(c1, t));
        next, c', t' := root, Top, Plug(c1.up, Refilled(c1, t));
        h' := BlackHeight(t');
        RootAddr(mem, root, t');
      }
    }

    /** One round of the removal fix-up. */
    method RemoveStep(node: int, ghost c: Ctx, ghost t: Tree, ghost h: int)
      returns (next: int, ghost c': Ctx, ghost t': Tree, ghost h': int)
      requires Sentinel(mem) && Focus(mem, root, c, t) && Addr(t) == node
      requires c.Step? && !IsRed(t) && Deficit(c, t, h) && mem[node].parent == c.addr
      modifies this`mem, this`root
      ensures Sentinel(mem) && mem.Keys == old(mem.Keys) && mem[NIL] == old(mem[NIL])
      ensures Focus(mem, root, c', t') && AllAddrs(c', t') == AllAddrs(c, t) && Addr(t') == next
      ensures Deficit(c', t', h') && t'.Node?
      ensures Items(Plug(c', t')) == Items(Plug(c, t))
      ensures IsRed(t') || Depth(c') < Depth(c)
    {
      ghost var c1 := c;
      SiblingExists(c, t, h);
      HoleFields(mem, root, c, t);
      var parent := mem[node].parent;
      var dir: Dir := if node == mem[parent].child0 then 1 else 0;
      var sibling := mem[parent].Child(dir);
      if mem[sibling].color == Red {
        SpunFits(c, t, h);
        RemoveSpin(parent, sibling, dir, c, t);
        c1 := SpunCtx(c, t);
        SiblingExists(c1, t, h);
      }
      next, c', t', h' := RemoveBelowBlack(node, dir, c1, t, h);
    }

    /** _remove_fixup: one black node is missing above or at `start` at entry; at exit no
        rule is broken. */
    method RemoveFixup(start: int, ghost c0: Ctx, ghost t0: Tree, ghost h0: int)
      requires Sentinel(mem) && Focus(mem, root, c0, t0) && Addr(t0) == start
      requires Deficit(c0, t0, h0) && mem[start].parent == Above(c0)
      modifies this
      ensures Sentinel(mem) && mem.Keys == old(mem.Keys) && Focus(mem, root, Top, tree)
      ensures RedBlack(tree) && Addrs(tree) == AllAddrs(c0, t0) && Items(tree) == Items(Plug(c0, t0))
    {
      hide Items, Balanced, Awaits, Plug, Descending;
      var node := start;
      ghost var c, t, h := c0, t0, h0;
      RootDiffers(mem, root, c, t);
      while node != root && mem[node].color == Black
        invariant Sentinel(mem) && mem.Keys == old(mem.Keys)
        invariant Focus(mem, root, c, t) && AllAddrs(c, t) == AllAddrs(c0, t0) && Addr(t) == node
        invariant Deficit(c, t, h) && mem[node].parent == Above(c)
        invariant Items(Plug(c, t)) == Items(Plug(c0, t0))
        invariant node != root <==> c.Step?
        decreases if IsRed(t) then 0 else Depth(c)
      {
        node, c, t, h := RemoveStep(node, c, t, h);
        RootDiffers(mem, root, c, t);
      }
      tree := RemoveDone(mem, root, c, t, h);
      SetColor(node, Black);
    }

    /** Take out a node that has at most one child. */
    method Splice(x: int, ghost c: Ctx, ghost t: Tree) returns (node: int)
      requires Sentinel(mem) && Focus(mem, root, c, t) && t.Node? && t.addr == x
      requires t.left.Leaf? || t.right.Leaf?
      modifies this`mem, this`root
      ensures Sentinel(mem) && mem.Keys == old(mem.Keys) && mem[x] == old(mem[x])
      ensures node == Addr(OnlyChild(t)) && node in mem && mem[node].parent == Above(c)
      ensures Focus(mem, root, c, OnlyChild(t)) && AllAddrs(c, OnlyChild(t)) == AllAddrs(c, t) - {x}
    {
      SpliceFields(mem, root, c, t);
      node := mem[x].Child(if mem[x].child0 == NIL then 1 else 0);
      mem := mem[node := mem[node].(parent := mem[x].parent)];
      var above := mem[x].parent;
      if above != NULL {
        var d: Dir := if x != mem[above].child0 then 1 else 0;
        mem := mem[above := mem[above].WithChild(d, node)];
      } else {
        root := node;
      }
      Reparent(old(mem), mem, t.addr, Above(c), OnlyChild(t));
      Swapped(old(mem), mem, old(root), root, c, t, OnlyChild(t));
    }

    /** _find_node. */
    method FindNode(key: nat) returns (n: int, ghost c: Ctx, ghost t: Tree)
      requires Valid()
      ensures n == NULL ==> forall i | i in Contents() :: i.key != key
      ensures n != NULL ==>
                && t.Node? && t.addr == n && n in mem && t.item.key == key && mem[n].item == t.item
                && Focus(mem, root, c, t) && Plug(c, t) == tree && AllAddrs(c, t) == Addrs(tree)
                && t.item in Contents()
    {
      n := root;
      c, t := Top, tree;
      while n != NIL
        invariant Focus(mem, root, c, t) && Plug(c, t) == tree && AllAddrs(c, t) == Addrs(tree)
        invariant n == Addr(t) && Between(c, key)
        decreases t
      {
        LeafAddr(mem, Above(c), t);
        if mem[n].item.key == key {
          PlugItems(c, t);
          return;
        }
        Descend(c, t, key);
        GoDown(mem, root, c, t, if key < t.item.key then 1 else 0);
        var d: Dir := if key < mem[n].item.key then 1 else 0;
        n := mem[n].Child(d);
        c, t := Into(d, t, c), t.Child(d);
      }
      LeafAddr(mem, Above(c), t);
      InsertHere(c, Item(key, NULL));
      n := NULL;
    }

    /** tree_find. */
    method Find(key: nat) returns (found: Option<Item>)
      requires Valid()
      ensures found.Some? ==> found.value in Contents() && found.value.key == key
      ensures found.None? ==> forall i | i in Contents() :: i.key != key
    {
      var n, _, _ := FindNode(key);
      return if n != NULL then Some(mem[n].item) else None;
    }

    /** tree_set_data_at: swap the datum stored under a key for another with the same key.
        `panics` is the source's "wrong key" stop; `nullWrite` says that the key is not there, and
        the store would go through a null pointer. */
    method SetDataAt(key: nat, data: Item) returns (panics: bool, nullWrite: bool)
      requires Valid()
      modifies this
      ensures Valid() && Addrs(tree) == old(Addrs(tree))
      ensures panics <==> data.key != key
      ensures nullWrite <==> data.key == key && forall i | i in old(Contents()) :: i.key != key
      ensures panics || nullWrite ==> mem == old(mem) && tree == old(tree)
      ensures !panics && !nullWrite ==>
                exists k :: 0 <= k < |old(Contents())| && old(Contents())[k].key == key &&
                            Contents() == old(Contents())[k := data]
    {
      hide Focus, Descending, Sentinel;
      var found, c, t := FindNode(key);
      panics, nullWrite := false, false;
      if key == data.key {
        if found == NULL {
          nullWrite := true;
        } else {
          assert t.item in Contents() && t.item.key == key;
          SetItem(found, data, c, t);
        }
      } else {
        panics := true;
      }
    }

    /** The write of tree_set_data_at. */
    method SetItem(found: int, data: Item, ghost c: Ctx, ghost t: Tree)
      requires Valid() && t.Node? && t.addr == found && found in mem && t.item.key == data.key
      requires Focus(mem, root, c, t) && Plug(c, t) == tree && AllAddrs(c, t) == Addrs(tree)
      modifies this
      ensures Valid() && Addrs(tree) == old(Addrs(tree))
      ensures exists k :: 0 <= k < |old(Contents())| && old(Contents())[k].key == data.key &&
                          Contents() == old(Contents())[k := data]
    {
      Relabelled(mem, root, c, t, data);
      mem := mem[found := mem[found].(item := data)];
      Refocus(mem, root, c, t.(item := data));
      RelabelledBalance(c, t, data);
      ghost var k := RelabelledItems(c, t, data);
      assert old(Contents())[k].key == data.key;
      tree := Plug(c, t.(item := data));
    }

    /** Unlink the node x: n itself, or the largest node below n (then n takes over its
        datum). */
    method Detach(n: int, x: int, ghost c: Ctx, ghost t: Tree, ghost inner: Ctx, ghost tx: Tree)
      returns (node: int, ghost cy: Ctx, ghost h: int)
      requires Sentinel(mem) && Focus(mem, root, c, t) && RedBlack(Plug(c, t))
      requires t.Node? && t.addr == n && tx.Node? && tx.addr == x
      requires tx.left.Leaf? || tx.right.Leaf?
      requires x == n ==> tx == t
      requires x != n ==> Plug(inner, tx) == t.right && tx.left.Leaf? && Before(inner) == []
      modifies this`mem, this`root
      ensures Sentinel(mem) && mem.Keys == old(mem.Keys) && x in mem && mem[x].color == tx.color
      ensures node == Addr(OnlyChild(tx)) && node in mem && mem[node].parent == Above(cy)
      ensures Focus(mem, root, cy, OnlyChild(tx)) && AllAddrs(cy, OnlyChild(tx)) == AllAddrs(c, t) - {x}
      ensures Balanced(tx, h) && Awaits(cy, h) && (IsRed(tx) ==> cy.Step? && cy.color == Black)
      ensures Removed(Items(Plug(c, t)), Items(Plug(cy, OnlyChild(tx))), t.item)
      ensures x != NIL
    {
      hide Focus, AllAddrs, Items, Balanced, Awaits, Removed;
      ghost var cx;
      cx, h := Position(mem, root, c, t, inner, tx);
      SpliceFields(mem, root, cx, tx);
      node := Splice(x, cx, tx);
      cy := cx;
      RemovedWhole(c, t, inner, tx);
      if x != n {
        RelabelAbove(mem, root, c, t, inner, OnlyChild(tx), tx.item);
        ComposeAbove(inner, Into(1, t, c), Into(1, t.(item := tx.item), c));
        mem := mem[n := mem[n].(item := mem[x].item)];
        cy := Compose(inner, Into(1, t.(item := tx.item), c));
      }
    }

    method Rebalance(x: int, node: int, ghost c: Ctx, ghost tx: Tree, ghost h: int)
      requires Sentinel(mem) && tx.Node? && (tx.left.Leaf? || tx.right.Leaf?)
      requires Balanced(tx, h) && Awaits(c, h) && (IsRed(tx) ==> c.Step? && c.color == Black)
      requires x in mem && mem[x].color == tx.color
      requires Focus(mem, root, c, OnlyChild(tx))
      requires node == Addr(OnlyChild(tx)) && node in mem && mem[node].parent == Above(c)
      modifies this
      ensures Sentinel(mem) && mem.Keys == old(mem.Keys) && Focus(mem, root, Top, tree) && RedBlack(tree)
      ensures Addrs(tree) == AllAddrs(c, OnlyChild(tx)) && Items(tree) == Items(Plug(c, OnlyChild(tx)))
    {
      SplicedBalance(c, tx, h);
      if mem[x].color == Black {
        RemoveFixup(node, c, OnlyChild(tx), h - 1);
      } else {
        Refocus(mem, root, c, OnlyChild(tx));
        tree := Plug(c, OnlyChild(tx));
      }
    }

    /** The rest of tree_remove once the node x to unlink is known. */
    method Unhook(n: int, x: int, ghost c: Ctx, ghost t: Tree, ghost inner: Ctx, ghost tx: Tree)
      requires Valid() && Focus(mem, root, c, t) && Plug(c, t) == tree && AllAddrs(c, t) == Addrs(tree)
      requires t.Node? && t.addr == n && tx.Node? && tx.addr == x
      requires tx.left.Leaf? || tx.right.Leaf?
      requires x == n ==> tx == t
      requires x != n ==> Plug(inner, tx) == t.right && tx.left.Leaf? && Before(inner) == []
      modifies this
      ensures Valid() && Removed(old(Contents()), Contents(), t.item)
      ensures Addrs(tree) == old(Addrs(tree)) - {x}
    {
      hide Removed, Balanced, Awaits, Descending, TreeAt, CtxAt;
      var node, cy, h := Detach(n, x, c, t, inner, tx);
      Rebalance(x, node, cy, tx, h);
      Freed(mem, root, tree, x);
      RemovedDescending(old(Contents()), Items(tree), t.item);
      mem := mem - {x};
    }

    /** tree_remove: None and nothing changes if the key is absent; otherwise exactly the
        datum stored under the key is taken out and returned. */
    method Remove(key: nat) returns (out: Option<Item>)
      requires Valid()
      modifies this
      ensures Valid()
      ensures out.None? ==>
                && (forall i | i in old(Contents()) :: i.key != key)
                && mem == old(mem) && root == old(root) && tree == old(tree)
      ensures out.Some? ==>
                && out.value.key == key && Removed(old(Contents()), Contents(), out.value)
                && exists a :: a in old(Addrs(tree)) && Addrs(tree) == old(Addrs(tree)) - {a}
    {
      var n, c, t := FindNode(key);
      if n == NULL || n == NIL {
        return None;
      }
      out := Some(mem[n].item);
      var x := n;
      ghost var inner, tx := Top, t;
      SpliceFields(mem, root, c, t);
      if mem[n].child0 != NIL && mem[n].child1 != NIL {
        x := mem[n].child1;
        GoDown(mem, root, c, t, 1);
        tx := t.right;
        ghost var outer := Into(1, t, c);
        while mem[x].child0 != NIL
          invariant mem == old(mem) && root == old(root) && tree == old(tree)
          invariant Plug(inner, tx) == t.right && tx.Node? && tx.addr == x && Before(inner) == []
          invariant Focus(mem, root, Compose(inner, outer), tx)
          decreases tx
        {
          GoDown(mem, root, Compose(inner, outer), tx, 0);
          x := mem[x].child0;
          inner, tx := Into(0, tx, inner), tx.left;
        }
        assert tx.left.Leaf? by {
          assert TreeAt(mem, x, tx.left);
        }
        assert x != n by {
          FocusOut(mem, root, inner, outer, tx);
          assert x in AllAddrs(outer, t.right);
          PlugAddrs(inner, tx);
        }
      }
      Unhook(n, x, c, t, inner, tx);
    }
  }
}
