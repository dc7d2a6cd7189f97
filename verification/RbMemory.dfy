/**
 * Red-black trees in memory: when the node records at a set of addresses spell out a
 * tree (or a tree with a hole), and which writes keep or change what they spell out.
 */
module RbMemory {
  import opened RbModel
  import opened Links

  /** Address of the shared sentinel (RB_NIL). */
  const NIL := 0

  /** rb_tree_node_t. */
  datatype Rec = Rec(parent: int, child0: int, child1: int, color: Color, item: Item) {
    function Child(d: Dir): (a: int) {
      if d == 0 then child0 else child1
    }

    function WithChild(d: Dir, a: int): (r: Rec)
      ensures r.Child(d) == a && r.Child(1 - d) == Child(1 - d)
      ensures r.parent == parent && r.color == color && r.item == item
    {
      if d == 0 then this.(child0 := a) else this.(child1 := a)
    }
  }

  /** Writes to different fields of a record commute. */
  lemma ParentThenChild(r: Rec, p: int, d: Dir, a: int)
    ensures r.(parent := p).WithChild(d, a) == r.WithChild(d, a).(parent := p)
  {
  }

  type Memory = map<int, Rec>

  /** Writes to two records, each written twice, with one or two others in between. */
  lemma WritesCommute(mem: Memory, s: int, s1: Rec, s2: Rec, n: int, n1: Rec, n2: Rec, a: int, ra: Rec, b: int, rb: Rec)
    requires s != n && a != s && a != n && b != s && b != n && a != b
    ensures mem[s := s1][a := ra][n := n1][b := rb][n := n2][s := s2] == mem[s := s2][n := n2][a := ra][b := rb]
    ensures mem[s := s1][n := n1][b := rb][n := n2][s := s2] == mem[s := s2][n := n2][b := rb]
    ensures mem[s := s1][a := ra][n := n1][n := n2][s := s2] == mem[s := s2][n := n2][a := ra]
    ensures mem[s := s1][n := n1][n := n2][s := s2] == mem[s := s2][n := n2]
  {
  }

  function Addr(t: Tree): (a: int) {
    if t.Leaf? then NIL else t.addr
  }

  /** The address of the node above the hole. */
  function Above(c: Ctx): (a: int) {
    if c.Top? then NULL else c.addr
  }

  ghost function Addrs(t: Tree): (s: set<int>) {
    if t.Leaf? then {} else {t.addr} + Addrs(t.left) + Addrs(t.right)
  }

  ghost function CtxAddrs(c: Ctx): (s: set<int>)
    decreases c
  {
    if c.Top? then {} else {c.addr} + Addrs(c.sibling) + CtxAddrs(c.up)
  }

  /** The records spell out t, hanging below the node at p. */
  ghost predicate TreeAt(mem: Memory, p: int, t: Tree)
    decreases t
  {
    t.Node? ==>
      && 0 < t.addr && t.addr in mem
      && mem[t.addr] == Rec(p, Addr(t.left), Addr(t.right), t.color, t.item)
      && TreeAt(mem, t.addr, t.left) && TreeAt(mem, t.addr, t.right)
      && t.addr !in Addrs(t.left) && t.addr !in Addrs(t.right) && Addrs(t.left) !! Addrs(t.right)
  }

  /** The records spell out the context c with the address h in its hole. */
  ghost predicate CtxAt(mem: Memory, root: int, c: Ctx, h: int)
    decreases c
  {
    if c.Top? then root == h
    else
      && 0 < c.addr && c.addr in mem
      && mem[c.addr].Child(c.dir) == h && mem[c.addr].Child(1 - c.dir) == Addr(c.sibling)
      && mem[c.addr].parent == Above(c.up) && mem[c.addr].color == c.color && mem[c.addr].item == c.item
      && TreeAt(mem, c.addr, c.sibling)
      && CtxAt(mem, root, c.up, c.addr)
      && c.addr !in Addrs(c.sibling) && c.addr !in CtxAddrs(c.up) && Addrs(c.sibling) !! CtxAddrs(c.up)
  }

  /** The whole tree is Plug(c, t), seen from the root of t. */
  ghost predicate Focus(mem: Memory, root: int, c: Ctx, t: Tree) {
    TreeAt(mem, Above(c), t) && CtxAt(mem, root, c, Addr(t)) && CtxAddrs(c) !! Addrs(t)
  }

  ghost function AllAddrs(c: Ctx, t: Tree): (s: set<int>) {
    CtxAddrs(c) + Addrs(t)
  }

  /** The memory agrees on a set of addresses. */
  ghost predicate Same(mem: Memory, mem': Memory, s: set<int>) {
    forall a | a in s :: a in mem ==> a in mem' && mem'[a] == mem[a]
  }

  lemma {:induction false} TreeFrame(mem: Memory, mem': Memory, p: int, t: Tree)
    requires TreeAt(mem, p, t) && Same(mem, mem', Addrs(t))
    ensures TreeAt(mem', p, t)
    decreases t
  {
    if t.Node? {
      TreeFrame(mem, mem', t.addr, t.left);
      TreeFrame(mem, mem', t.addr, t.right);
    }
  }

  /** Moving a subtree below another node takes one write, to its root. */
  lemma Reparent(mem: Memory, mem': Memory, p: int, p': int, t: Tree)
    requires TreeAt(mem, p, t) && Same(mem, mem', Addrs(t) - {Addr(t)})
    requires t.Node? ==> t.addr in mem' && mem'[t.addr] == mem[t.addr].(parent := p')
    ensures TreeAt(mem', p', t)
  {
    if t.Node? {
      TreeFrame(mem, mem', t.addr, t.left);
      TreeFrame(mem, mem', t.addr, t.right);
    }
  }

  lemma {:induction false} CtxFrame(mem: Memory, mem': Memory, root: int, c: Ctx, h: int)
    requires CtxAt(mem, root, c, h) && Same(mem, mem', CtxAddrs(c))
    ensures CtxAt(mem', root, c, h)
    decreases c
  {
    if c.Step? {
      TreeFrame(mem, mem', c.addr, c.sibling);
      CtxFrame(mem, mem', root, c.up, c.addr);
    }
  }

  /** Hanging another tree into the hole takes one write: to the node above, or to *root. */
  lemma Rehole(mem: Memory, mem': Memory, root: int, root': int, c: Ctx, h: int, h': int)
    requires CtxAt(mem, root, c, h) && Same(mem, mem', CtxAddrs(c) - {Above(c)})
    requires c.Step? ==> root' == root && c.addr in mem' && mem'[c.addr] == mem[c.addr].WithChild(c.dir, h')
    requires c.Top? ==> root' == h'
    ensures CtxAt(mem', root', c, h')
  {
    if c.Step? {
      TreeFrame(mem, mem', c.addr, c.sibling);
      CtxFrame(mem, mem', root, c.up, c.addr);
    }
  }

  /** Looking at the same memory from one node further up or down. */
  lemma GoUp(mem: Memory, root: int, c: Ctx, t: Tree)
    requires Focus(mem, root, c, t) && c.Step?
    ensures Focus(mem, root, c.up, Fill(c, t)) && Plug(c, t) == Plug(c.up, Fill(c, t))
    ensures AllAddrs(c, t) == AllAddrs(c.up, Fill(c, t))
  {
  }

  lemma GoDown(mem: Memory, root: int, c: Ctx, t: Tree, d: Dir)
    requires Focus(mem, root, c, t) && t.Node?
    ensures Focus(mem, root, Into(d, t, c), t.Child(d)) && Plug(Into(d, t, c), t.Child(d)) == Plug(c, t)
    ensures AllAddrs(c, t) == AllAddrs(Into(d, t, c), t.Child(d))
  {
  }

  lemma {:induction false} Refocus(mem: Memory, root: int, c: Ctx, t: Tree)
    requires Focus(mem, root, c, t)
    ensures Focus(mem, root, Top, Plug(c, t)) && AllAddrs(Top, Plug(c, t)) == AllAddrs(c, t)
    decreases c
  {
    if c.Step? {
      GoUp(mem, root, c, t);
      Refocus(mem, root, c.up, Fill(c, t));
    }
  }

  /** The effect of the single write `node->color = k` at the focused node. */
  lemma Painted(mem: Memory, root: int, c: Ctx, t: Tree, k: Color)
    requires Focus(mem, root, c, t) && t.Node?
    ensures t.addr in mem && Focus(mem[t.addr := mem[t.addr].(color := k)], root, c, Paint(t, k))
    ensures AllAddrs(c, Paint(t, k)) == AllAddrs(c, t)
  {
    var mem' := mem[t.addr := mem[t.addr].(color := k)];
    TreeFrame(mem, mem', t.addr, t.left);
    TreeFrame(mem, mem', t.addr, t.right);
    CtxFrame(mem, mem', root, c, Addr(t));
  }

  /** The effect of the single write `node->data = item` at the focused node. */
  lemma Relabelled(mem: Memory, root: int, c: Ctx, t: Tree, i: Item)
    requires Focus(mem, root, c, t) && t.Node?
    ensures Focus(mem[t.addr := mem[t.addr].(item := i)], root, c, t.(item := i))
  {
    var mem' := mem[t.addr := mem[t.addr].(item := i)];
    TreeFrame(mem, mem', t.addr, t.left);
    TreeFrame(mem, mem', t.addr, t.right);
    CtxFrame(mem, mem', root, c, Addr(t));
  }

  /** The effect of replacing what hangs in the hole, given the new tree's own records. */
  lemma Swapped(mem: Memory, mem': Memory, root: int, root': int, c: Ctx, t: Tree, t': Tree)
    requires Focus(mem, root, c, t)
    requires TreeAt(mem', Above(c), t') && CtxAddrs(c) !! Addrs(t')
    requires Same(mem, mem', CtxAddrs(c) - {Above(c)})
    requires c.Step? ==> root' == root && c.addr in mem' && mem'[c.addr] == mem[c.addr].WithChild(c.dir, Addr(t'))
    requires c.Top? ==> root' == Addr(t')
    ensures Focus(mem', root', c, t')
  {
    Rehole(mem, mem', root, root', c, Addr(t), Addr(t'));
  }

  /** The sentinel is black and has no children; its parent field is scratch. */
  ghost predicate Sentinel(mem: Memory) {
    NIL in mem && mem[NIL].color == Black && mem[NIL].child0 == NIL && mem[NIL].child1 == NIL
  }

  /** Below the root the *root pointer differs from every address in the hole. */
  lemma {:induction false} RootAbove(mem: Memory, root: int, c: Ctx, h: int)
    requires CtxAt(mem, root, c, h) && c.Step?
    ensures root in CtxAddrs(c) && 0 < root && NIL !in CtxAddrs(c)
    decreases c
  {
    LeafAddr(mem, c.addr, c.sibling);
    if c.up.Step? {
      RootAbove(mem, root, c.up, c.addr);
    }
  }

  lemma {:induction false} LeafAddr(mem: Memory, p: int, t: Tree)
    requires TreeAt(mem, p, t)
    ensures forall a | a in Addrs(t) :: 0 < a
    decreases t
  {
    if t.Node? {
      LeafAddr(mem, t.addr, t.left);
      LeafAddr(mem, t.addr, t.right);
    }
  }

  /** What the fields of the focused node and of the nodes around it hold. */
  lemma Fields(mem: Memory, root: int, c: Ctx, t: Tree)
    requires Focus(mem, root, c, t)
    ensures t.Node? ==> 0 < t.addr && t.addr in mem
                        && mem[t.addr] == Rec(Above(c), Addr(t.left), Addr(t.right), t.color, t.item)
    ensures c.Step? ==> 0 < c.addr && c.addr in mem && c.addr != Addr(t)
                        && mem[c.addr].Child(c.dir) == Addr(t) && mem[c.addr].Child(1 - c.dir) == Addr(c.sibling)
                        && mem[c.addr].parent == Above(c.up) && mem[c.addr].color == c.color
    ensures c.Step? && c.sibling.Node? ==>
              var s := c.sibling;
              && 0 < s.addr && s.addr in mem && s.addr != c.addr && s.addr != Addr(t)
              && mem[s.addr] == Rec(c.addr, Addr(s.left), Addr(s.right), s.color, s.item)
  {
    if c.Step? {
      RootAbove(mem, root, c, Addr(t));
      assert c.addr in CtxAddrs(c);
      assert c.sibling.Node? ==> c.sibling.addr in CtxAddrs(c);
      assert t.Node? ==> t.addr in Addrs(t);
    }
  }

  lemma ChildFields(mem: Memory, root: int, c: Ctx, t: Tree, d: Dir)
    requires Focus(mem, root, c, t) && t.Node? && t.Child(d).Node?
    ensures var u := t.Child(d);
            && 0 < u.addr && u.addr in mem && u.addr != t.addr
            && mem[u.addr] == Rec(t.addr, Addr(u.left), Addr(u.right), u.color, u.item)
  {
    assert TreeAt(mem, t.addr, t.Child(d));
  }

  /** The writes `parent->color`, `sibling->color` and the like, seen from below. */
  lemma PaintedParent(mem: Memory, root: int, c: Ctx, t: Tree, k: Color)
    requires Focus(mem, root, c, t) && c.Step?
    ensures c.addr in mem && Focus(mem[c.addr := mem[c.addr].(color := k)], root, c.(color := k), t)
    ensures AllAddrs(c.(color := k), t) == AllAddrs(c, t)
  {
    GoUp(mem, root, c, t);
    Painted(mem, root, c.up, Fill(c, t), k);
    GoDown(mem[c.addr := mem[c.addr].(color := k)], root, c.up, Paint(Fill(c, t), k), c.dir);
  }

  lemma PaintedSibling(mem: Memory, root: int, c: Ctx, t: Tree, k: Color)
    requires Focus(mem, root, c, t) && c.Step? && c.sibling.Node?
    ensures var s := c.sibling;
            s.addr in mem && Focus(mem[s.addr := mem[s.addr].(color := k)], root, c.(sibling := Paint(s, k)), t)
    ensures AllAddrs(c.(sibling := Paint(c.sibling, k)), t) == AllAddrs(c, t)
  {
    var s := c.sibling;
    var mem' := mem[s.addr := mem[s.addr].(color := k)];
    GoUp(mem, root, c, t);
    var u := Fill(c, t);
    GoDown(mem, root, c.up, u, 1 - c.dir);
    Painted(mem, root, Into(1 - c.dir, u, c.up), s, k);
    GoUp(mem', root, Into(1 - c.dir, u, c.up), Paint(s, k));
    GoDown(mem', root, c.up, u.With(1 - c.dir, Paint(s, k)), c.dir);
  }

  /** One context inside another. */
  function Compose(inner: Ctx, outer: Ctx): (c: Ctx)
    decreases inner
  {
    if inner.Top? then outer else inner.(up := Compose(inner.up, outer))
  }

  lemma {:induction false} FocusOut(mem: Memory, root: int, inner: Ctx, outer: Ctx, t: Tree)
    requires Focus(mem, root, Compose(inner, outer), t)
    ensures Focus(mem, root, outer, Plug(inner, t))
    ensures AllAddrs(Compose(inner, outer), t) == AllAddrs(outer, Plug(inner, t))
    decreases inner
  {
    if inner.Step? {
      GoUp(mem, root, Compose(inner, outer), t);
      FocusOut(mem, root, inner.up, outer, Fill(inner, t));
    }
  }

  lemma {:induction false} FocusIn(mem: Memory, root: int, inner: Ctx, outer: Ctx, t: Tree)
    requires Focus(mem, root, outer, Plug(inner, t))
    ensures Focus(mem, root, Compose(inner, outer), t)
    ensures AllAddrs(Compose(inner, outer), t) == AllAddrs(outer, Plug(inner, t))
    decreases inner
  {
    if inner.Step? {
      FocusIn(mem, root, inner.up, outer, Fill(inner, t));
      GoDown(mem, root, Compose(inner.up, outer), Fill(inner, t), inner.dir);
      assert Into(inner.dir, Fill(inner, t), Compose(inner.up, outer)) == Compose(inner, outer);
    }
  }

  /** Inside a balanced tree, every hole awaits exactly what fills it. */
  lemma {:induction false} Unplug(inner: Ctx, outer: Ctx, t: Tree, hh: int) returns (h: int)
    requires Balanced(Plug(inner, t), hh) && Awaits(outer, hh)
    requires IsRed(Plug(inner, t)) ==> outer.Step? && outer.color == Black
    ensures Balanced(t, h) && Awaits(Compose(inner, outer), h)
    ensures IsRed(t) ==> Compose(inner, outer).Step? && Compose(inner, outer).color == Black
    decreases inner
  {
    if inner.Top? {
      h := hh;
    } else {
      h := Unplug(inner.up, outer, Fill(inner, t), hh);
      h := if inner.color == Red then h else h - 1;
    }
  }

  lemma ComposeTop(c: Ctx)
    ensures Compose(c, Top) == c
    decreases c
  {
    if c.Step? {
      ComposeTop(c.up);
    }
  }

  lemma PaintedChild(mem: Memory, root: int, c: Ctx, t: Tree, d: Dir, k: Color)
    requires Focus(mem, root, c, t) && t.Node? && t.Child(d).Node?
    ensures var a := t.Child(d).addr;
            && a in mem
            && Focus(mem[a := mem[a].(color := k)], root, c, t.With(d, Paint(t.Child(d), k)))
            && AllAddrs(c, t.With(d, Paint(t.Child(d), k))) == AllAddrs(c, t)
  {
    var u := t.Child(d);
    GoDown(mem, root, c, t, d);
    Painted(mem, root, Into(d, t, c), u, k);
    GoUp(mem[u.addr := mem[u.addr].(color := k)], root, Into(d, t, c), Paint(u, k));
  }

  /** From the hole over to its sibling. */
  lemma GoAcross(mem: Memory, root: int, c: Ctx, t: Tree)
    requires Focus(mem, root, c, t) && c.Step?
    ensures Focus(mem, root, Into(1 - c.dir, Fill(c, t), c.up), c.sibling)
    ensures AllAddrs(Into(1 - c.dir, Fill(c, t), c.up), c.sibling) == AllAddrs(c, t)
  {
    GoUp(mem, root, c, t);
    GoDown(mem, root, c.up, Fill(c, t), 1 - c.dir);
  }
}
