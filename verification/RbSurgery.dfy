/** How the pointer assignments of the red-black operations change the tree. */
module RbSurgery {
  import opened Elements
  import opened RbModel

  // ---------- rotation ----------

  /** x, its child y on the other side, the inner grandchild b and the parent p are all there
      and different. */
  ghost predicate Rotatable(h: Links, x: Node, s: Side) {
    x in h && h[x].Kid(Other(s)) != null && h[x].Kid(Other(s)) in h &&
    var y := h[x].Kid(Other(s));
    var b, p := h[y].Kid(s), h[x].parent;
    && x != y && b != x && b != y && (b != null ==> b != p && b in h)
    && p != x && p != y && (p != null ==> p in h)
  }

  /** x has been rotated to side s. */
  ghost predicate Rotated(h: Links, h': Links, x: Node, s: Side)
    requires Rotatable(h, x, s)
  {
    var y := h[x].Kid(Other(s));
    var b, p := h[y].Kid(s), h[x].parent;
    && h'.Keys == h.Keys
    && h'[x] == h[x].WithKid(Other(s), b).(parent := y)
    && h'[y] == h[y].WithKid(s, x).(parent := p)
    && (b != null ==> h'[b] == h[b].(parent := x))
    && (p != null ==> h'[p] == if h[p].left == x then h[p].(left := y) else h[p].(right := y))
    && forall n | n in h && n != x && n != y && n != b && n != p :: h'[n] == h[n]
  }

  lemma RotateNodes(s: Side, a: Tree, x: Node, cx: Color, b: Tree, y: Node, cy: Color, c: Tree)
    ensures var t, t' := Join(s, a, x, cx, Join(s, b, y, cy, c)), Join(s, Join(s, a, x, cx, b), y, cy, c);
            Nodes(t') == Nodes(t) && (Apart(t') <==> Apart(t))
  {
    hide Nodes, Apart, Join;
    JoinNodes(s, a, x, cx, b);
    JoinNodes(s, b, y, cy, c);
    JoinNodes(s, a, x, cx, Join(s, b, y, cy, c));
    JoinNodes(s, Join(s, a, x, cx, b), y, cy, c);
  }

  lemma RotateInOrder(s: Side, a: Tree, x: Node, cx: Color, b: Tree, y: Node, cy: Color, c: Tree)
    ensures InOrder(Join(s, a, x, cx, Join(s, b, y, cy, c))) == InOrder(Join(s, Join(s, a, x, cx, b), y, cy, c))
  {
    var u, v := Join(s, a, x, cx, b), Join(s, b, y, cy, c);
    assert InOrder(u) == if s == L then InOrder(a) + [x] + InOrder(b) else InOrder(b) + [x] + InOrder(a);
    assert InOrder(v) == if s == L then InOrder(b) + [y] + InOrder(c) else InOrder(c) + [y] + InOrder(b);
  }

  lemma RotateParts(s: Side, a: Tree, x: Node, cx: Color, b: Tree, y: Node, cy: Color, c: Tree, others: set<Node>)
    requires var t := Join(s, a, x, cx, Join(s, b, y, cy, c)); Apart(t) && others !! Nodes(t)
    ensures Apart(b) && x != y
    ensures x !in Nodes(a) + Nodes(b) + Nodes(c) + others && y !in Nodes(a) + Nodes(b) + Nodes(c) + others
    ensures Nodes(a) !! Nodes(b) && Nodes(b) !! Nodes(c)
    ensures others !! Nodes(a) + Nodes(b) + Nodes(c)
  {
    var v := Join(s, b, y, cy, c);
    assert Nodes(v) == Nodes(b) + {y} + Nodes(c);
    assert Apart(v);
  }

  lemma RotateReady(h: Links, root: Node?, k: Ctx, s: Side,
                    a: Tree, x: Node, cx: Color, b: Tree, y: Node, cy: Color, c: Tree)
    requires At(h, root, k, Join(s, a, x, cx, Join(s, b, y, cy, c)))
    ensures Rotatable(h, x, s)
    ensures h[x] == JoinCell(s, Root(a), y, Parent(k), cx) && h[y] == JoinCell(s, Root(b), Root(c), x, cy)
    ensures Shape(h, a, x) && Shape(h, b, y) && Shape(h, c, y)
  {
    hide Shape, CtxShape, Nodes, CtxNodes, Apart, CtxApart;
    RotateParts(s, a, x, cx, b, y, cy, c, CtxNodes(k));
    ShapeFork(h, s, a, x, cx, Join(s, b, y, cy, c), Parent(k));
    ShapeFork(h, s, b, y, cy, c, x);
    ShapeRoot(h, b, y);
    CtxShapeParent(h, k, x, root);
  }

  lemma RotateShape(h: Links, h': Links, root: Node?, k: Ctx, s: Side,
                    a: Tree, x: Node, cx: Color, b: Tree, y: Node, cy: Color, c: Tree)
    requires At(h, root, k, Join(s, a, x, cx, Join(s, b, y, cy, c)))
    requires Rotatable(h, x, s) && Rotated(h, h', x, s)
    ensures At(h', if k.Top? then y else root, k, Join(s, Join(s, a, x, cx, b), y, cy, c))
  {
    hide Nodes, CtxNodes, Apart, CtxApart, CtxShape, Shape;
    RotateParts(s, a, x, cx, b, y, cy, c, CtxNodes(k));
    RotateNodes(s, a, x, cx, b, y, cy, c);
    RotateReady(h, root, k, s, a, x, cx, b, y, cy, c);
    CtxShapeParent(h, k, x, root);
    ShapeRoot(h, b, y);
    ShapeFrame(h, h', a, x);
    ShapeFrame(h, h', c, y);
    ShapeReparent(h, h', b, y, x);
    if k.In? {
      HoleSide(h, k, x, root);
    }
    CtxRelink(h, h', k, x, y, root, if k.Top? then y else root);
    ShapeFork(h', s, a, x, cx, b, y);
    ShapeFork(h', s, Join(s, a, x, cx, b), y, cy, c, Parent(k));
  }

  // ---------- recolouring ----------

  lemma RecolorShape(h: Links, root: Node?, k: Ctx, t: Tree, c: Color)
    requires At(h, root, k, t) && t.Fork?
    ensures t.node in h
    ensures At(h[t.node := h[t.node].(color := c)], root, k, t.(color := c))
  {
    var h' := h[t.node := h[t.node].(color := c)];
    assert Nodes(t.(color := c)) == Nodes(t);
    ShapeFrame(h, h', t.left, t.node);
    ShapeFrame(h, h', t.right, t.node);
    CtxShapeFrame(h, h', k, t.node, root);
  }

  // ---------- attaching a leaf ----------

  lemma AttachShape(h: Links, h': Links, root: Node?, k: Ctx, n: Node)
    requires At(h, root, k, Leaf) && n !in h
    requires h'.Keys == h.Keys + {n} && h'[n] == Cell(null, null, Parent(k), Red)
    requires k.In? ==> k.node in h && h'[k.node] == h[k.node].WithKid(k.side, n)
    requires forall m | m in h && m != Parent(k) :: h'[m] == h[m]
    ensures At(h', if k.Top? then n else root, k, Fork(Leaf, n, Red, Leaf))
  {
    CtxRelink(h, h', k, null, n, root, if k.Top? then n else root);
    assert Nodes(Fork(Leaf, n, Red, Leaf)) == {n};
  }

  // ---------- splicing out a node with at most one child ----------

  /** The links after `child` took the place of n below p. */
  ghost predicate Spliced(h: Links, h': Links, n: Node, child: Node?, p: Node?)
    requires n in h && (child != null ==> child in h) && (p != null ==> p in h)
  {
    && h'.Keys == h.Keys && h'[n] == h[n]
    && (child != null ==> h'[child] == h[child].(parent := p))
    && (p != null ==> h'[p] == if h[p].left == n then h[p].(left := child) else h[p].(right := child))
    && forall m | m in h && m != child && m != p :: h'[m] == h[m]
  }

  lemma SpliceReady(h: Links, root: Node?, k: Ctx, s: Side, n: Node, c: Color, u: Tree)
    requires At(h, root, k, Join(s, Leaf, n, c, u))
    ensures n in h && (Root(u) != null ==> Root(u) in h) && (k.In? ==> k.node in h)
    ensures h[n] == JoinCell(s, null, Root(u), Parent(k), c)
    ensures n != Root(u) && n != Parent(k) && (Root(u) != null ==> Root(u) != Parent(k))
  {
    hide CtxApart, CtxShape, CtxNodes;
    CtxShapeParent(h, k, n, root);
    ShapeRoot(h, u, n);
  }

  lemma SpliceShape(h: Links, h': Links, root: Node?, k: Ctx, s: Side, n: Node, c: Color, u: Tree)
    requires At(h, root, k, Join(s, Leaf, n, c, u))
    requires n in h && (Root(u) != null ==> Root(u) in h) && (k.In? ==> k.node in h)
    requires Spliced(h, h', n, Root(u), Parent(k))
    ensures At(h' - {n}, if k.Top? then Root(u) else root, k, u)
  {
    hide CtxShape, CtxNodes, CtxApart;
    var t := Join(s, Leaf, n, c, u);
    var h'' := h' - {n};
    assert Nodes(t) == Nodes(u) + {n} && Apart(u) && n !in Nodes(u);
    SpliceReady(h, root, k, s, n, c, u);
    ShapeRoot(h, u, n);
    CtxShapeParent(h, k, n, root);
    ShapeReparent(h, h'', u, n, Parent(k));
    if k.In? {
      HoleSide(h, k, n, root);
    }
    CtxRelink(h, h'', k, n, Root(u), root, if k.Top? then Root(u) else root);
  }

  // ---------- putting one node in the place of another ----------

  /** The links after y took over the fields of n and the pointers to n. */
  ghost predicate Replaced(h: Links, h': Links, n: Node, y: Node)
    requires n in h
  {
    var l, r, p := h[n].left, h[n].right, h[n].parent;
    && h'.Keys == h.Keys + {y} && h'[y] == h[n]
    && (l != null && l in h ==> h'[l] == h[l].(parent := y))
    && (r != null && r in h ==> h'[r] == h[r].(parent := y))
    && (p != null && p in h ==> h'[p] == if h[p].left == n then h[p].(left := y) else h[p].(right := y))
    && forall m | m in h && m != l && m != r && m != p :: h'[m] == h[m]
  }

  lemma ReplaceReady(h: Links, root: Node?, k: Ctx, l: Tree, n: Node, c: Color, r: Tree)
    requires At(h, root, k, Fork(l, n, c, r))
    ensures n in h && h[n] == Cell(Root(l), Root(r), Parent(k), c)
    ensures n != Root(l) && n != Root(r) && n != Parent(k)
    ensures Root(l) != null ==> Root(l) in h && Root(l) != Root(r) && Root(l) != Parent(k)
    ensures Root(r) != null ==> Root(r) in h && Root(r) != Parent(k)
    ensures k.In? ==> k.node in h
  {
    hide CtxShape, CtxNodes, CtxApart;
    ShapeRoot(h, l, n);
    ShapeRoot(h, r, n);
    CtxShapeParent(h, k, n, root);
  }

  lemma ReplaceShape(h: Links, h': Links, root: Node?, k: Ctx, l: Tree, n: Node, c: Color, r: Tree, y: Node)
    requires At(h, root, k, Fork(l, n, c, r)) && y !in h
    requires n in h && Replaced(h, h', n, y)
    ensures At(h' - {n}, if k.Top? then y else root, k, Fork(l, y, c, r))
  {
    hide CtxShape, CtxNodes, CtxApart;
    var h'' := h' - {n};
    ShapeRoot(h, l, n);
    ShapeRoot(h, r, n);
    CtxShapeParent(h, k, n, root);
    ShapeReparent(h, h'', l, n, y);
    ShapeReparent(h, h'', r, n, y);
    if k.In? {
      HoleSide(h, k, n, root);
    }
    CtxRelink(h, h'', k, n, y, root, if k.Top? then y else root);
    assert Nodes(Fork(l, y, c, r)) == Nodes(l) + {y} + Nodes(r);
  }
}
