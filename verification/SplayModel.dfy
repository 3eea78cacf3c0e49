/** Splay trees as values, and the three parts a top-down splay tears a tree into. */
module SplayModel {
  import opened Elements

  datatype Tree = Leaf | Fork(left: Tree, node: Node, right: Tree)

  /** The tree at n with t on side s and u on the other side. */
  function Join(s: Side, t: Tree, n: Node, u: Tree): Tree {
    if s == L then Fork(t, n, u) else Fork(u, n, t)
  }

  function Root(t: Tree): Node? {
    if t.Leaf? then null else t.node
  }

  ghost function Nodes(t: Tree): set<Node> {
    match t
    case Leaf => {}
    case Fork(l, n, r) => Nodes(l) + {n} + Nodes(r)
  }

  /** No node occurs twice. */
  ghost predicate Apart(t: Tree) {
    match t
    case Leaf => true
    case Fork(l, n, r) =>
      && n !in Nodes(l) && n !in Nodes(r) && Nodes(l) !! Nodes(r)
      && Apart(l) && Apart(r)
  }

  ghost function InOrder(t: Tree): seq<Node> {
    match t
    case Leaf => []
    case Fork(l, n, r) => InOrder(l) + [n] + InOrder(r)
  }

  lemma JoinNodes(s: Side, t: Tree, n: Node, u: Tree)
    ensures Nodes(Join(s, t, n, u)) == Nodes(t) + {n} + Nodes(u)
    ensures Apart(Join(s, t, n, u)) <==>
            n !in Nodes(t) && n !in Nodes(u) && Nodes(t) !! Nodes(u) && Apart(t) && Apart(u)
  {}

  lemma JoinInOrder(s: Side, t: Tree, n: Node, u: Tree)
    ensures InOrder(Join(s, t, n, u)) ==
            if s == L then InOrder(t) + [n] + InOrder(u) else InOrder(u) + [n] + InOrder(t)
  {}

  lemma InOrderLeaf()
    ensures InOrder(Leaf) == []
  {}

  lemma {:induction false} InOrderNodes(t: Tree)
    ensures forall n | n in InOrder(t) :: n in Nodes(t)
    ensures forall n | n in Nodes(t) :: n in InOrder(t)
  {
    if t.Fork? {
      InOrderNodes(t.left);
      InOrderNodes(t.right);
    }
  }

  // ---------- the spines ----------

  /** One of the two outer parts, from its last node to its first one.
      On the left each node carries its left subtree, and the next node hangs on its right;
      on the right it is the other way round. */
  datatype Spine = End | Link(prev: Spine, sub: Tree, node: Node)

  /** The node whose inner link is to be assigned next: the dummy as long as the spine is empty. */
  function Last(sp: Spine, dummy: Node): Node {
    if sp.End? then dummy else sp.node
  }

  ghost function SpineNodes(sp: Spine): set<Node> {
    match sp
    case End => {}
    case Link(prev, sub, n) => SpineNodes(prev) + Nodes(sub) + {n}
  }

  ghost predicate SpineApart(sp: Spine) {
    match sp
    case End => true
    case Link(prev, sub, n) =>
      && n !in Nodes(sub) && n !in SpineNodes(prev) && Nodes(sub) !! SpineNodes(prev)
      && Apart(sub) && SpineApart(prev)
  }

  ghost function SpineOrder(s: Side, sp: Spine): seq<Node> {
    match sp
    case End => []
    case Link(prev, sub, n) =>
      if s == L then SpineOrder(s, prev) + InOrder(sub) + [n] else [n] + InOrder(sub) + SpineOrder(s, prev)
  }

  function Length(sp: Spine): nat {
    if sp.End? then 0 else 1 + Length(sp.prev)
  }

  /** The tree that results when t is hung on the inner side of the last node. */
  function Hang(s: Side, sp: Spine, t: Tree): Tree {
    match sp
    case End => t
    case Link(prev, sub, n) => Hang(s, prev, Join(s, sub, n, t))
  }

  lemma Regroup(a: seq<Node>, b: seq<Node>, n: Node, c: seq<Node>)
    ensures a + (b + [n] + c) == (a + b + [n]) + c
    ensures a + ([n] + c) == (a + [n]) + c
  {}

  lemma {:induction false} HangInOrder(s: Side, sp: Spine, t: Tree)
    ensures InOrder(Hang(s, sp, t)) ==
            if s == L then SpineOrder(s, sp) + InOrder(t) else InOrder(t) + SpineOrder(s, sp)
    decreases sp
  {
    hide InOrder, Join;
    match sp
    case End =>
    case Link(prev, sub, n) =>
      HangInOrder(s, prev, Join(s, sub, n, t));
      JoinInOrder(s, sub, n, t);
      Regroup(SpineOrder(s, prev), InOrder(sub), n, InOrder(t));
      Regroup(InOrder(t), [], n, InOrder(sub) + SpineOrder(s, prev));
  }

  lemma {:induction false} HangNodes(s: Side, sp: Spine, t: Tree)
    ensures Nodes(Hang(s, sp, t)) == SpineNodes(sp) + Nodes(t)
    ensures Apart(Hang(s, sp, t)) <==> Apart(t) && SpineApart(sp) && SpineNodes(sp) !! Nodes(t)
    decreases sp
  {
    match sp
    case End =>
    case Link(prev, sub, n) => HangNodes(s, prev, Join(s, sub, n, t));
  }

  // ---------- links ----------

  datatype Cell = Cell(left: Node?, right: Node?) {
    function Kid(s: Side): Node? {
      if s == L then left else right
    }
    function WithKid(s: Side, x: Node?): Cell {
      if s == L then this.(left := x) else this.(right := x)
    }
  }

  type Links = map<Node, Cell>

  function JoinCell(s: Side, x: Node?, y: Node?): Cell {
    if s == L then Cell(x, y) else Cell(y, x)
  }

  /** The links spell out t. */
  ghost predicate Shape(h: Links, t: Tree) {
    match t
    case Leaf => true
    case Fork(l, n, r) => n in h && h[n] == Cell(Root(l), Root(r)) && Shape(h, l) && Shape(h, r)
  }

  /** The links spell out a spine; the inner link of its last node is stale. */
  ghost predicate SpineShape(h: Links, s: Side, sp: Spine, dummy: Node) {
    match sp
    case End => true
    case Link(prev, sub, n) =>
      && n in h && h[n].Kid(s) == Root(sub) && Shape(h, sub)
      && Last(prev, dummy) in h && h[Last(prev, dummy)].Kid(Other(s)) == n
      && SpineShape(h, s, prev, dummy)
  }

  lemma ShapeJoin(h: Links, s: Side, t: Tree, n: Node, u: Tree)
    ensures Shape(h, Join(s, t, n, u)) <==>
            n in h && h[n] == JoinCell(s, Root(t), Root(u)) && Shape(h, t) && Shape(h, u)
  {}

  lemma {:induction false} ShapeFrame(h: Links, h': Links, t: Tree)
    requires Shape(h, t)
    requires forall n | n in Nodes(t) && n in h :: n in h' && h'[n] == h[n]
    ensures Shape(h', t)
  {
    if t.Fork? {
      ShapeFrame(h, h', t.left);
      ShapeFrame(h, h', t.right);
    }
  }

  lemma LastInside(h: Links, s: Side, sp: Spine, dummy: Node)
    requires SpineShape(h, s, sp, dummy) && dummy in h
    ensures Last(sp, dummy) in h && (Last(sp, dummy) in SpineNodes(sp) || (sp.End? && Last(sp, dummy) == dummy))
  {}

  /** A spine does not depend on the stale inner link of its last node,
      nor on the outer link of the dummy. */
  lemma {:induction false} SpineFrame(h: Links, h': Links, s: Side, sp: Spine, dummy: Node)
    requires SpineShape(h, s, sp, dummy) && SpineApart(sp) && dummy !in SpineNodes(sp)
    requires forall n | n in SpineNodes(sp) && n in h && n != Last(sp, dummy) :: n in h' && h'[n] == h[n]
    requires sp.Link? ==> sp.node in h' && h'[sp.node].Kid(s) == h[sp.node].Kid(s)
    requires sp.Link? && dummy in h ==> dummy in h' && h'[dummy].Kid(Other(s)) == h[dummy].Kid(Other(s))
    ensures SpineShape(h', s, sp, dummy)
  {
    match sp
    case End =>
    case Link(prev, sub, n) =>
      ShapeFrame(h, h', sub);
      SpineFrame(h, h', s, prev, dummy);
  }

  /** Once the last node leads to t, the spine and t are one tree, and the dummy leads to it. */
  lemma {:induction false} HangShape(h: Links, s: Side, sp: Spine, dummy: Node, t: Tree)
    requires SpineShape(h, s, sp, dummy) && Shape(h, t) && dummy in h
    requires Last(sp, dummy) in h && h[Last(sp, dummy)].Kid(Other(s)) == Root(t)
    ensures Shape(h, Hang(s, sp, t))
    ensures h[dummy].Kid(Other(s)) == Root(Hang(s, sp, t))
    decreases sp
  {
    match sp
    case End =>
    case Link(prev, sub, n) =>
      ShapeJoin(h, s, sub, n, t);
      HangShape(h, s, prev, dummy, Join(s, sub, n, t));
  }

  // ---------- the torn tree ----------

  /** What a splay has torn a tree into: the spine of nodes known to be on side s of the key,
      the middle, and the spine of nodes known to be on the other side. */
  ghost predicate Torn(h: Links, dummy: Node, s: Side, a: Spine, m: Tree, b: Spine) {
    && Shape(h, m) && SpineShape(h, s, a, dummy) && SpineShape(h, Other(s), b, dummy)
    && Pieces(dummy, a, m, b)
    && h.Keys == Nodes(m) + SpineNodes(a) + SpineNodes(b) + {dummy}
  }

  ghost predicate Pieces(dummy: Node, a: Spine, m: Tree, b: Spine) {
    && Apart(m) && SpineApart(a) && SpineApart(b)
    && Nodes(m) !! SpineNodes(a) && Nodes(m) !! SpineNodes(b) && SpineNodes(a) !! SpineNodes(b)
    && dummy !in Nodes(m) && dummy !in SpineNodes(a) && dummy !in SpineNodes(b)
  }

  lemma TornSwap(h: Links, dummy: Node, s: Side, a: Spine, m: Tree, b: Spine)
    requires Torn(h, dummy, s, a, m, b)
    ensures Torn(h, dummy, Other(s), b, m, a)
  {
    hide Nodes, Apart, Shape, SpineNodes, SpineApart, SpineShape;
    assert Other(Other(s)) == s;
  }

  lemma SpineLink(h: Links, s: Side, prev: Spine, sub: Tree, n: Node, dummy: Node)
    ensures SpineNodes(Link(prev, sub, n)) == SpineNodes(prev) + Nodes(sub) + {n}
    ensures SpineApart(Link(prev, sub, n)) <==>
            && n !in Nodes(sub) && n !in SpineNodes(prev) && Nodes(sub) !! SpineNodes(prev)
            && Apart(sub) && SpineApart(prev)
    ensures SpineShape(h, s, Link(prev, sub, n), dummy) <==>
            && n in h && h[n].Kid(s) == Root(sub) && Shape(h, sub)
            && Last(prev, dummy) in h && h[Last(prev, dummy)].Kid(Other(s)) == n
            && SpineShape(h, s, prev, dummy)
  {}

  /** SPLAY_LINKRIGHT (s == L) and SPLAY_LINKLEFT (s == R): the root joins the spine on side s. */
  lemma LinkTorn(h: Links, h': Links, dummy: Node, s: Side, a: Spine, sub: Tree, n: Node, m: Tree, b: Spine)
    requires Torn(h, dummy, s, a, Join(s, sub, n, m), b)
    requires Last(a, dummy) in h && h' == h[Last(a, dummy) := h[Last(a, dummy)].WithKid(Other(s), n)]
    ensures Torn(h', dummy, s, Link(a, sub, n), m, b)
  {
    hide Nodes, Apart, Shape, SpineNodes, SpineApart, SpineShape;
    JoinNodes(s, sub, n, m);
    ShapeJoin(h, s, sub, n, m);
    LastInSpine(a, dummy);
    LastInSpine(b, dummy);
    ShapeFrame(h, h', sub);
    ShapeFrame(h, h', m);
    SpineFrame(h, h', s, a, dummy);
    SpineFrame(h, h', Other(s), b, dummy);
    SpineLink(h', s, a, sub, n, dummy);
  }

  lemma RotatePieces(s: Side, x: Tree, n: Node, y: Tree, t: Node, z: Tree)
    ensures var m, m' := Join(s, x, n, Join(s, y, t, z)), Join(s, Join(s, x, n, y), t, z);
            Nodes(m') == Nodes(m) && (Apart(m') <==> Apart(m)) && InOrder(m') == InOrder(m)
  {
    hide Nodes, Apart, InOrder, Join;
    JoinNodes(s, y, t, z);
    JoinNodes(s, x, n, Join(s, y, t, z));
    JoinNodes(s, x, n, y);
    JoinNodes(s, Join(s, x, n, y), t, z);
    JoinInOrder(s, y, t, z);
    JoinInOrder(s, x, n, Join(s, y, t, z));
    JoinInOrder(s, x, n, y);
    JoinInOrder(s, Join(s, x, n, y), t, z);
  }

  /** SPLAY_ROTATE_LEFT (s == L) and SPLAY_ROTATE_RIGHT (s == R). */
  lemma RotateTorn(h: Links, h': Links, dummy: Node, s: Side,
                   a: Spine, x: Tree, n: Node, y: Tree, t: Node, z: Tree, b: Spine)
    requires Torn(h, dummy, s, a, Join(s, x, n, Join(s, y, t, z)), b)
    requires n in h && t in h && n != t
    requires h' == h[n := h[n].WithKid(Other(s), Root(y))][t := h[t].WithKid(s, n)]
    ensures Torn(h', dummy, s, a, Join(s, Join(s, x, n, y), t, z), b)
  {
    hide Nodes, Apart, Shape, SpineShape, SpineNodes, SpineApart;
    JoinNodes(s, y, t, z);
    JoinNodes(s, x, n, Join(s, y, t, z));
    RotatePieces(s, x, n, y, t, z);
    ShapeJoin(h, s, y, t, z);
    ShapeJoin(h, s, x, n, Join(s, y, t, z));
    ShapeFrame(h, h', x);
    ShapeFrame(h, h', y);
    ShapeFrame(h, h', z);
    ShapeJoin(h', s, x, n, y);
    ShapeJoin(h', s, Join(s, x, n, y), t, z);
    LastInSpine(a, dummy);
    LastInSpine(b, dummy);
    SpineFrame(h, h', s, a, dummy);
    SpineFrame(h, h', Other(s), b, dummy);
  }

  lemma LinkRightTorn(h: Links, dummy: Node, a: Spine, m: Tree, b: Spine)
    requires Torn(h, dummy, L, a, m, b) && m.Fork?
    ensures var n := Last(a, dummy);
            n in h && n != m.node && Torn(h[n := h[n].(right := m.node)], dummy, L, Link(a, m.left, m.node), m.right, b)
  {
    LastInside(h, L, a, dummy);
    var n := Last(a, dummy);
    LinkTorn(h, h[n := h[n].(right := m.node)], dummy, L, a, m.left, m.node, m.right, b);
  }

  lemma LinkLeftTorn(h: Links, dummy: Node, a: Spine, m: Tree, b: Spine)
    requires Torn(h, dummy, L, a, m, b) && m.Fork?
    ensures var n := Last(b, dummy);
            n in h && n != m.node && Torn(h[n := h[n].(left := m.node)], dummy, L, a, m.left, Link(b, m.right, m.node))
  {
    LastInside(h, R, b, dummy);
    var n := Last(b, dummy);
    var h' := h[n := h[n].(left := m.node)];
    TornSwap(h, dummy, L, a, m, b);
    LinkTorn(h, h', dummy, R, b, m.right, m.node, m.left, a);
    TornSwap(h', dummy, R, Link(b, m.right, m.node), m.left, a);
  }

  function TurnedLeft(m: Tree): Tree
    requires m.Fork? && m.right.Fork?
  {
    Fork(Fork(m.left, m.node, m.right.left), m.right.node, m.right.right)
  }

  function TurnedRight(m: Tree): Tree
    requires m.Fork? && m.left.Fork?
  {
    Fork(m.left.left, m.left.node, Fork(m.left.right, m.node, m.right))
  }

  lemma RotateLeftTorn(h: Links, dummy: Node, a: Spine, m: Tree, b: Spine)
    requires Torn(h, dummy, L, a, m, b) && m.Fork? && m.right.Fork?
    ensures var n, t := m.node, m.right.node;
            n in h && t in h && n != t &&
            Torn(h[n := h[n].(right := Root(m.right.left))][t := h[t].(left := n)], dummy, L, a, TurnedLeft(m), b)
    ensures InOrder(TurnedLeft(m)) == InOrder(m)
  {
    hide SpineShape, SpineNodes, SpineApart;
    var n, y, t, z := m.node, m.right.left, m.right.node, m.right.right;
    ShapeJoin(h, L, y, t, z);
    RotatePieces(L, m.left, n, y, t, z);
    RotateTorn(h, h[n := h[n].(right := Root(y))][t := h[t].(left := n)], dummy, L, a, m.left, n, y, t, z, b);
  }

  lemma RotateRightTorn(h: Links, dummy: Node, a: Spine, m: Tree, b: Spine)
    requires Torn(h, dummy, L, a, m, b) && m.Fork? && m.left.Fork?
    ensures var n, t := m.node, m.left.node;
            n in h && t in h && n != t &&
            Torn(h[n := h[n].(left := Root(m.left.right))][t := h[t].(right := n)], dummy, L, a, TurnedRight(m), b)
    ensures InOrder(TurnedRight(m)) == InOrder(m)
  {
    hide SpineShape, SpineNodes, SpineApart;
    var n, y, t, z := m.node, m.left.right, m.left.node, m.left.left;
    var h' := h[n := h[n].(left := Root(y))][t := h[t].(right := n)];
    ShapeJoin(h, R, y, t, z);
    RotatePieces(R, m.right, n, y, t, z);
    TornSwap(h, dummy, L, a, m, b);
    RotateTorn(h, h', dummy, R, b, m.right, n, y, t, z, a);
    TornSwap(h', dummy, R, b, TurnedRight(m), a);
  }

  lemma LastInSpine(sp: Spine, dummy: Node)
    ensures sp.Link? ==> sp.node in SpineNodes(sp)
  {}

  ghost function TornOrder(a: Spine, m: Tree, b: Spine): seq<Node> {
    SpineOrder(L, a) + InOrder(m) + SpineOrder(R, b)
  }

  /** SPLAY_ASSEMBLE, first half: the subtrees of the root are hung on the spines. */
  lemma HungShape(h: Links, dummy: Node, a: Spine, m: Tree, b: Spine, h1: Links, h2: Links)
    requires Torn(h, dummy, L, a, m, b) && m.Fork?
    requires var n := Last(a, dummy); n in h && h1 == h[n := h[n].(right := Root(m.left))]
    requires var n := Last(b, dummy); n in h1 && h2 == h1[n := h1[n].(left := Root(m.right))]
    ensures Shape(h2, Hang(L, a, m.left)) && Shape(h2, Hang(R, b, m.right))
    ensures h2[dummy] == Cell(Root(Hang(R, b, m.right)), Root(Hang(L, a, m.left)))
  {
    hide Shape, SpineShape, SpineNodes, SpineApart, Hang, Nodes, Apart;
    var l, n, r := m.left, m.node, m.right;
    JoinNodes(L, l, n, r);
    ShapeJoin(h, L, l, n, r);
    LastInSpine(a, dummy);
    LastInSpine(b, dummy);
    ShapeFrame(h, h2, l);
    ShapeFrame(h, h2, r);
    SpineFrame(h, h2, L, a, dummy);
    SpineFrame(h, h2, R, b, dummy);
    HangShape(h2, L, a, dummy, l);
    HangShape(h2, R, b, dummy, r);
  }

  /** SPLAY_ASSEMBLE, second half: the results become the subtrees of the root. */
  lemma AssembleShape(h: Links, dummy: Node, a: Spine, m: Tree, b: Spine, h2: Links, h': Links)
    requires m.Fork? && Pieces(dummy, a, m, b)
    requires h.Keys == Nodes(m) + SpineNodes(a) + SpineNodes(b) + {dummy} && h2.Keys == h.Keys
    requires Shape(h2, Hang(L, a, m.left)) && Shape(h2, Hang(R, b, m.right))
    requires dummy in h2 && h2[dummy] == Cell(Root(Hang(R, b, m.right)), Root(Hang(L, a, m.left)))
    requires h' == h2[m.node := Cell(h2[dummy].right, h2[dummy].left)] - {dummy}
    ensures var t := Fork(Hang(L, a, m.left), m.node, Hang(R, b, m.right));
            Shape(h', t) && Apart(t) && h'.Keys == Nodes(t)
  {
    hide Shape, SpineNodes, SpineApart, Hang, Nodes, Apart;
    var l, n, r := m.left, m.node, m.right;
    JoinNodes(L, l, n, r);
    HangNodes(L, a, l);
    HangNodes(R, b, r);
    ShapeFrame(h2, h', Hang(L, a, l));
    ShapeFrame(h2, h', Hang(R, b, r));
    ShapeJoin(h', L, Hang(L, a, l), n, Hang(R, b, r));
    JoinNodes(L, Hang(L, a, l), n, Hang(R, b, r));
  }

  /** The links after SPLAY_ASSEMBLE, without the dummy. */
  function Assembled(h: Links, dummy: Node, p: Node, q: Node, n: Node): Links
    requires dummy in h && p in h && q in h && n in h
  {
    var h2 := h[p := h[p].(right := h[n].left)];
    var h2 := h2[q := h2[q].(left := h[n].right)];
    h2[n := Cell(h2[dummy].right, h2[dummy].left)] - {dummy}
  }

  lemma AssembleTorn(h: Links, dummy: Node, a: Spine, m: Tree, b: Spine)
    requires Torn(h, dummy, L, a, m, b) && m.Fork?
    ensures var p, q, n := Last(a, dummy), Last(b, dummy), m.node;
            var t := Fork(Hang(L, a, m.left), n, Hang(R, b, m.right));
            && dummy in h && p in h && q in h && n in h && n != p && n != q && n != dummy
            && h[n] == Cell(Root(m.left), Root(m.right))
            && Shape(Assembled(h, dummy, p, q, n), t) && Apart(t)
            && Nodes(t) == Assembled(h, dummy, p, q, n).Keys == h.Keys - {dummy}
  {
    hide SpineShape, Nodes, Apart, SpineNodes, SpineApart, Hang;
    var p, q, n := Last(a, dummy), Last(b, dummy), m.node;
    LastInside(h, L, a, dummy);
    LastInside(h, R, b, dummy);
    JoinNodes(L, m.left, n, m.right);
    var h1 := h[p := h[p].(right := Root(m.left))];
    var h2 := h1[q := h1[q].(left := Root(m.right))];
    HungShape(h, dummy, a, m, b, h1, h2);
    AssembleShape(h, dummy, a, m, b, h2, h2[n := Cell(h2[dummy].right, h2[dummy].left)] - {dummy});
  }

  // ---------- a new root, and two trees joined ----------

  /** The links spell out exactly t. */
  ghost predicate Spells(h: Links, t: Tree) {
    Shape(h, t) && Apart(t) && h.Keys == Nodes(t)
  }

  lemma SpellsParts(h: Links, t: Tree)
    requires Spells(h, t) && t.Fork?
    ensures t.node in h && h[t.node] == Cell(Root(t.left), Root(t.right))
    ensures Shape(h, t.left) && Shape(h, t.right) && Apart(t.left) && Apart(t.right)
    ensures t.node !in Nodes(t.left) && t.node !in Nodes(t.right) && Nodes(t.left) !! Nodes(t.right)
    ensures h.Keys == Nodes(t.left) + {t.node} + Nodes(t.right)
  {}

  /** elm becomes the root; the old root keeps only its subtree on the far side of elm. */
  lemma SplitSpells(h: Links, s: Side, t: Tree, n: Node, u: Tree, elm: Node)
    requires Spells(h, Join(s, t, n, u)) && elm !in h
    ensures n in h
    ensures Spells(h[elm := JoinCell(s, Root(t), n)][n := JoinCell(s, null, Root(u))],
                   Join(s, t, elm, Join(s, Leaf, n, u)))
  {
    hide Shape, Apart, Nodes;
    JoinNodes(s, t, n, u);
    ShapeJoin(h, s, t, n, u);
    var h' := h[elm := JoinCell(s, Root(t), n)][n := JoinCell(s, null, Root(u))];
    ShapeFrame(h, h', t);
    ShapeFrame(h, h', u);
    LeafSpells(h');
    JoinNodes(s, Leaf, n, u);
    ShapeJoin(h', s, Leaf, n, u);
    JoinNodes(s, t, elm, Join(s, Leaf, n, u));
    ShapeJoin(h', s, t, elm, Join(s, Leaf, n, u));
  }

  lemma LeafSpells(h: Links)
    ensures Shape(h, Leaf) && Apart(Leaf) && Nodes(Leaf) == {}
  {}

  ghost function Restrict(h: Links, s: set<Node>): Links {
    map n | n in h && n in s :: h[n]
  }

  lemma RestrictSpells(h: Links, t: Tree)
    requires Spells(h, t) && t.Fork?
    ensures Spells(Restrict(h, Nodes(t.left)), t.left) && Spells(Restrict(h, Nodes(t.right)), t.right)
  {
    SpellsParts(h, t);
    hide Shape, Apart, Nodes;
    ShapeFrame(h, Restrict(h, Nodes(t.left)), t.left);
    ShapeFrame(h, Restrict(h, Nodes(t.right)), t.right);
  }

  /** r is hung on the right of the root of u, which has no right subtree. */
  lemma JoinSpells(hl: Links, hr: Links, u: Tree, r: Tree)
    requires Spells(hl, u) && Spells(hr, r) && u.Fork? && u.right.Leaf? && Nodes(u) !! Nodes(r)
    ensures u.node in hl
    ensures Spells((hl + hr)[u.node := hl[u.node].(right := Root(r))], Fork(u.left, u.node, r))
  {
    SpellsParts(hl, u);
    hide Shape, Apart;
    var h := (hl + hr)[u.node := hl[u.node].(right := Root(r))];
    ShapeFrame(hl, h, u.left);
    ShapeFrame(hr, h, r);
    JoinNodes(L, u.left, u.node, r);
    ShapeJoin(h, L, u.left, u.node, r);
  }

  lemma TearSpells(h: Links, dummy: Node, t: Tree)
    requires Spells(h, t) && dummy !in h
    ensures Torn(h[dummy := Cell(null, null)], dummy, L, End, t, End)
  {
    hide Shape, Apart, Nodes;
    ShapeFrame(h, h[dummy := Cell(null, null)], t);
  }
}
