/** Red-black trees as values: the shape that the links of the elements spell out,
    seen as a whole tree or as a subtree in its context. */
module RbModel {
  import opened Elements

  datatype Tree = Leaf | Fork(left: Tree, node: Node, color: Color, right: Tree)

  /** The way from a subtree up to the root: on which side of which node it hangs,
      and what hangs on the other side. */
  datatype Ctx = Top | In(side: Side, up: Ctx, node: Node, color: Color, sibling: Tree)

  /** The tree at n whose subtree on side s is t and whose other subtree is u. */
  function Join(s: Side, t: Tree, n: Node, c: Color, u: Tree): Tree {
    if s == L then Fork(t, n, c, u) else Fork(u, n, c, t)
  }

  function Plug(k: Ctx, t: Tree): Tree {
    match k
    case Top => t
    case In(s, up, n, c, u) => Plug(up, Join(s, t, n, c, u))
  }

  function Root(t: Tree): Node? {
    if t.Leaf? then null else t.node
  }

  function Parent(k: Ctx): Node? {
    if k.Top? then null else k.node
  }

  function Depth(k: Ctx): nat {
    if k.Top? then 0 else 1 + Depth(k.up)
  }

  lemma {:induction false} PlugRoot(k: Ctx, t: Tree)
    ensures k.In? || t.Fork? ==> Plug(k, t).Fork?
    ensures k.In? ==> Root(Plug(k, t)) in CtxNodes(k)
    decreases k
  {
    match k
    case Top =>
    case In(s, up, n, c, u) => PlugRoot(up, Join(s, t, n, c, u));
  }

  // ---------- the nodes of a tree ----------

  ghost function Nodes(t: Tree): set<Node> {
    match t
    case Leaf => {}
    case Fork(l, n, _, r) => Nodes(l) + {n} + Nodes(r)
  }

  ghost function CtxNodes(k: Ctx): set<Node> {
    match k
    case Top => {}
    case In(_, up, n, _, u) => CtxNodes(up) + Nodes(u) + {n}
  }

  /** No node occurs twice. */
  ghost predicate Apart(t: Tree) {
    match t
    case Leaf => true
    case Fork(l, n, _, r) =>
      && n !in Nodes(l) && n !in Nodes(r) && Nodes(l) !! Nodes(r)
      && Apart(l) && Apart(r)
  }

  ghost predicate CtxApart(k: Ctx) {
    match k
    case Top => true
    case In(_, up, n, _, u) =>
      && n !in Nodes(u) && n !in CtxNodes(up) && Nodes(u) !! CtxNodes(up)
      && Apart(u) && CtxApart(up)
  }

  lemma JoinNodes(s: Side, t: Tree, n: Node, c: Color, u: Tree)
    ensures Nodes(Join(s, t, n, c, u)) == Nodes(t) + {n} + Nodes(u)
    ensures Apart(Join(s, t, n, c, u)) <==>
            n !in Nodes(t) && n !in Nodes(u) && Nodes(t) !! Nodes(u) && Apart(t) && Apart(u)
  {}

  lemma {:induction false} PlugApart(k: Ctx, t: Tree)
    ensures Nodes(Plug(k, t)) == CtxNodes(k) + Nodes(t)
    ensures Apart(Plug(k, t)) <==> Apart(t) && CtxApart(k) && CtxNodes(k) !! Nodes(t)
    decreases k
  {
    match k
    case Top =>
    case In(s, up, n, c, u) => PlugApart(up, Join(s, t, n, c, u));
  }

  // ---------- in-order sequences ----------

  ghost function InOrder(t: Tree): seq<Node> {
    match t
    case Leaf => []
    case Fork(l, n, _, r) => InOrder(l) + [n] + InOrder(r)
  }

  lemma InOrderFork(t: Tree)
    requires t.Fork?
    ensures InOrder(t) == InOrder(t.left) + [t.node] + InOrder(t.right)
  {}

  lemma JoinInOrder(s: Side, t: Tree, n: Node, c: Color, u: Tree)
    ensures InOrder(Join(s, t, n, c, u)) ==
            if s == L then InOrder(t) + [n] + InOrder(u) else InOrder(u) + [n] + InOrder(t)
  {}

  lemma InOrderLeaf()
    ensures InOrder(Leaf) == []
  {}

  ghost function Before(k: Ctx): seq<Node> {
    match k
    case Top => []
    case In(s, up, n, _, u) => if s == L then Before(up) else Before(up) + InOrder(u) + [n]
  }

  ghost function After(k: Ctx): seq<Node> {
    match k
    case Top => []
    case In(s, up, n, _, u) => if s == L then [n] + InOrder(u) + After(up) else After(up)
  }

  lemma {:induction false} PlugInOrder(k: Ctx, t: Tree)
    ensures InOrder(Plug(k, t)) == Before(k) + InOrder(t) + After(k)
    decreases k
  {
    hide InOrder;
    match k
    case Top =>
      assert [] + InOrder(t) + [] == InOrder(t);
    case In(s, up, n, c, u) =>
      PlugInOrder(up, Join(s, t, n, c, u));
      JoinInOrder(s, t, n, c, u);
      if s == L {
        Regroup(Before(up), InOrder(t), [n] + InOrder(u), After(up));
        assert InOrder(t) + ([n] + InOrder(u)) == InOrder(t) + [n] + InOrder(u);
      } else {
        Regroup(Before(up), InOrder(u) + [n], InOrder(t), After(up));
        assert Before(up) + (InOrder(u) + [n]) == Before(up) + InOrder(u) + [n];
      }
  }

  lemma Regroup(a: seq<Node>, b: seq<Node>, c: seq<Node>, d: seq<Node>)
    ensures a + (b + c) + d == (a + b) + c + d == a + b + (c + d)
  {}

  lemma {:induction false} InOrderNodes(t: Tree)
    ensures forall n | n in InOrder(t) :: n in Nodes(t)
    ensures forall n | n in Nodes(t) :: n in InOrder(t)
  {
    if t.Fork? {
      InOrderNodes(t.left);
      InOrderNodes(t.right);
    }
  }

  lemma NodesBelow(t: Tree, key: int)
    requires AllBelow(InOrder(t), key)
    ensures forall n | n in Nodes(t) :: n.key < key
  {
    InOrderNodes(t);
    forall n | n in Nodes(t) ensures n.key < key {
      assert n in InOrder(t);
    }
  }

  lemma NodesAbove(t: Tree, key: int)
    requires AllAbove(InOrder(t), key)
    ensures forall n | n in Nodes(t) :: key < n.key
  {
    InOrderNodes(t);
    forall n | n in Nodes(t) ensures key < n.key {
      assert n in InOrder(t);
    }
  }

  lemma {:induction false} AscendingApart(t: Tree)
    requires Ascending(InOrder(t))
    ensures Apart(t)
  {
    hide Ascending;
    if t.Fork? {
      AscendingAround(InOrder(t.left), t.node, InOrder(t.right));
      NodesBelow(t.left, t.node.key);
      NodesAbove(t.right, t.node.key);
      AscendingApart(t.left);
      AscendingApart(t.right);
    }
  }

  // ---------- the links of the nodes ----------

  datatype Cell = Cell(left: Node?, right: Node?, parent: Node?, color: Color) {
    function Kid(s: Side): Node? {
      if s == L then left else right
    }
    function WithKid(s: Side, x: Node?): Cell {
      if s == L then this.(left := x) else this.(right := x)
    }
  }

  type Links = map<Node, Cell>

  function JoinCell(s: Side, x: Node?, y: Node?, p: Node?, c: Color): Cell {
    if s == L then Cell(x, y, p, c) else Cell(y, x, p, c)
  }

  /** The links spell out t below a node whose parent is p. */
  ghost predicate Shape(h: Links, t: Tree, p: Node?) {
    match t
    case Leaf => true
    case Fork(l, n, c, r) =>
      && n in h && h[n] == Cell(Root(l), Root(r), p, c)
      && Shape(h, l, n) && Shape(h, r, n)
  }

  /** The links and the root pointer spell out k around a subtree with root `hole`. */
  ghost predicate CtxShape(h: Links, k: Ctx, hole: Node?, root: Node?) {
    match k
    case Top => root == hole
    case In(s, up, n, c, u) =>
      && n in h && h[n] == JoinCell(s, hole, Root(u), Parent(up), c)
      && Shape(h, u, n) && CtxShape(h, up, n, root)
  }

  /** The links spell out exactly t in k. */
  ghost predicate At(h: Links, root: Node?, k: Ctx, t: Tree) {
    && Shape(h, t, Parent(k)) && CtxShape(h, k, Root(t), root)
    && Apart(t) && CtxApart(k) && CtxNodes(k) !! Nodes(t)
    && h.Keys == CtxNodes(k) + Nodes(t)
  }

  lemma {:induction false} AtPlug(h: Links, root: Node?, k: Ctx, t: Tree)
    ensures At(h, root, k, t) <==> At(h, root, Top, Plug(k, t))
    decreases k
  {
    PlugApart(k, t);
    match k
    case Top =>
    case In(s, up, n, c, u) =>
      PlugApart(up, Join(s, t, n, c, u));
      AtPlug(h, root, up, Join(s, t, n, c, u));
  }

  lemma ShapeFork(h: Links, s: Side, t: Tree, n: Node, c: Color, u: Tree, p: Node?)
    ensures Shape(h, Join(s, t, n, c, u), p) <==>
            n in h && h[n] == JoinCell(s, Root(t), Root(u), p, c) && Shape(h, t, n) && Shape(h, u, n)
  {}

  lemma ShapeRoot(h: Links, t: Tree, p: Node?)
    requires Shape(h, t, p)
    ensures Root(t) != null ==> Root(t) in Nodes(t) && Root(t) in h && h[Root(t)].parent == p
  {}

  lemma CtxShapeParent(h: Links, k: Ctx, hole: Node?, root: Node?)
    requires CtxShape(h, k, hole, root)
    ensures !k.Top? ==> k.node in CtxNodes(k) && k.node in h && h[k.node].Kid(k.side) == hole
    ensures k.Top? ==> root == hole
  {}

  /** Which link of the parent leads into the hole. */
  lemma HoleSide(h: Links, k: Ctx, hole: Node?, root: Node?)
    requires CtxShape(h, k, hole, root) && k.In?
    requires if hole == null then k.sibling.Fork? else hole !in CtxNodes(k)
    ensures k.node in h && h[k.node].Kid(k.side) == hole != h[k.node].Kid(Other(k.side))
  {
    ShapeRoot(h, k.sibling, k.node);
  }

  // ---------- what a change of links leaves in place ----------

  lemma {:induction false} ShapeFrame(h: Links, h': Links, t: Tree, p: Node?)
    requires Shape(h, t, p)
    requires forall n | n in Nodes(t) && n in h :: n in h' && h'[n] == h[n]
    ensures Shape(h', t, p)
  {
    if t.Fork? {
      ShapeFrame(h, h', t.left, t.node);
      ShapeFrame(h, h', t.right, t.node);
    }
  }

  lemma {:induction false} CtxShapeFrame(h: Links, h': Links, k: Ctx, hole: Node?, root: Node?)
    requires CtxShape(h, k, hole, root)
    requires forall n | n in CtxNodes(k) && n in h :: n in h' && h'[n] == h[n]
    ensures CtxShape(h', k, hole, root)
  {
    match k
    case Top =>
    case In(s, up, n, c, u) =>
      ShapeFrame(h, h', u, n);
      CtxShapeFrame(h, h', up, n, root);
  }

  /** The root of t gets another parent; nothing else in t changes. */
  lemma ShapeReparent(h: Links, h': Links, t: Tree, p: Node?, p': Node?)
    requires Shape(h, t, p) && Apart(t)
    requires forall n | n in Nodes(t) && n in h ::
               n in h' && h'[n] == if n == Root(t) then h[n].(parent := p') else h[n]
    ensures Shape(h', t, p')
  {
    if t.Fork? {
      ShapeFrame(h, h', t.left, t.node);
      ShapeFrame(h, h', t.right, t.node);
    }
  }

  /** The link into the hole is redirected; nothing else in the context changes. */
  lemma CtxRelink(h: Links, h': Links, k: Ctx, hole: Node?, hole': Node?, root: Node?, root': Node?)
    requires CtxShape(h, k, hole, root) && CtxApart(k)
    requires root' == if k.Top? then hole' else root
    requires forall n | n in CtxNodes(k) && n in h ::
               n in h' && h'[n] == if n == Parent(k) then h[n].WithKid(k.side, hole') else h[n]
    ensures CtxShape(h', k, hole', root')
  {
    match k
    case Top =>
    case In(s, up, n, c, u) =>
      ShapeFrame(h, h', u, n);
      CtxShapeFrame(h, h', up, n, root);
  }

  /** A tree determines all links. */
  lemma AtUnique(h: Links, h': Links, root: Node?, root': Node?, t: Tree)
    requires At(h, root, Top, t) && At(h', root', Top, t)
    ensures h == h' && root == root'
  {
    ShapeUnique(h, h', t, null);
  }

  lemma {:induction false} ShapeUnique(h: Links, h': Links, t: Tree, p: Node?)
    requires Shape(h, t, p) && Shape(h', t, p)
    ensures forall n | n in Nodes(t) :: n in h && n in h' && h[n] == h'[n]
  {
    if t.Fork? {
      ShapeUnique(h, h', t.left, t.node);
      ShapeUnique(h, h', t.right, t.node);
    }
  }
}
