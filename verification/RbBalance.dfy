/** The red-black conditions, and what each case of the two fix-up loops does to them. */
module RbBalance {
  import opened Elements
  import opened RbModel

  ghost predicate IsRed(t: Tree) {
    t.Fork? && t.color == Red
  }

  /** The number of black nodes on the leftmost path. */
  ghost function Blacks(t: Tree): nat {
    match t
    case Leaf => 0
    case Fork(l, _, c, _) => Blacks(l) + if c == Black then 1 else 0
  }

  /** No red node has a red child, and all paths carry the same number of black nodes. */
  ghost predicate Balanced(t: Tree) {
    match t
    case Leaf => true
    case Fork(l, _, c, r) =>
      && Balanced(l) && Balanced(r) && Blacks(l) == Blacks(r)
      && (c == Red ==> !IsRed(l) && !IsRed(r))
  }

  lemma BalancedJoin(s: Side, t: Tree, n: Node, c: Color, u: Tree)
    ensures Balanced(Join(s, t, n, c, u)) <==>
            && Balanced(t) && Balanced(u) && Blacks(t) == Blacks(u)
            && (c == Red ==> !IsRed(t) && !IsRed(u))
    ensures Blacks(t) == Blacks(u) ==> Blacks(Join(s, t, n, c, u)) == Blacks(t) + if c == Black then 1 else 0
  {}

  ghost predicate RedBlack(t: Tree) {
    Balanced(t) && !IsRed(t)
  }

  ghost predicate UnderBlack(k: Ctx) {
    k.In? && k.color == Black
  }

  /** The context is in order for a subtree with b black nodes on its paths,
      whatever colour the root of that subtree has. */
  ghost predicate CtxBalanced(k: Ctx, b: nat) {
    match k
    case Top => true
    case In(_, up, _, c, u) =>
      && Balanced(u) && Blacks(u) == b
      && (c == Red ==> !IsRed(u) && UnderBlack(up))
      && CtxBalanced(up, b + if c == Black then 1 else 0)
  }

  lemma {:induction false} PlugBalanced(k: Ctx, t: Tree)
    ensures RedBlack(Plug(k, t)) <==>
            Balanced(t) && CtxBalanced(k, Blacks(t)) && (IsRed(t) ==> UnderBlack(k))
    decreases k
  {
    match k
    case Top =>
    case In(s, up, n, c, u) => PlugBalanced(up, Join(s, t, n, c, u));
  }

  // ---------- insertion: a red node that may have a red parent ----------

  ghost predicate RedRed(k: Ctx, t: Tree) {
    IsRed(t) && Balanced(t) && CtxBalanced(k, Blacks(t))
  }

  /** Red uncle: the conflict moves two levels up. */
  lemma UncleRed(s: Side, s2: Side, up: Ctx, g: Node, cg: Color, u: Tree, p: Node, sib: Tree, t: Tree)
    requires RedRed(In(s, In(s2, up, g, cg, u), p, Red, sib), t) && IsRed(u)
    ensures cg == Black
    ensures RedRed(up, Join(s2, Join(s, t, p, Black, sib), g, Red, u.(color := Black)))
  {
    assert CtxBalanced(In(s2, up, g, cg, u), Blacks(t));
  }

  /** Inner child: one rotation makes it an outer child with the same conflict. */
  lemma InnerChild(s: Side, up: Ctx, g: Node, cg: Color, u: Tree, p: Node, sib: Tree, b: Tree, n: Node, c: Tree)
    requires RedRed(In(Other(s), In(s, up, g, cg, u), p, Red, sib), Join(s, b, n, Red, c))
    ensures RedRed(In(s, In(s, up, g, cg, u), n, Red, c), Join(s, sib, p, Red, b))
  {
    assert CtxBalanced(In(s, up, g, cg, u), Blacks(sib));
  }

  /** Outer child and no red uncle: one rotation of the grandparent ends the conflict. */
  lemma OuterChild(s: Side, up: Ctx, g: Node, cg: Color, u: Tree, p: Node, sib: Tree, t: Tree)
    requires RedRed(In(s, In(s, up, g, cg, u), p, Red, sib), t) && !IsRed(u)
    ensures RedRed(In(s, up, p, Black, Join(s, sib, g, Red, u)), t)
  {
    assert CtxBalanced(In(s, up, g, cg, u), Blacks(t));
  }

  lemma ConflictSettled(k: Ctx, t: Tree)
    requires RedRed(k, t) && (k.Top? || UnderBlack(k))
    ensures var tree := Plug(k, t); tree.Fork? && RedBlack(tree.(color := Black))
  {
    PlugRoot(k, t);
    PlugBalanced(k, t);
  }

  // ---------- removal: a subtree that lacks one black node ----------

  ghost function Blackened(t: Tree): Tree {
    if t.Leaf? then Leaf else t.(color := Black)
  }

  /** One more black node is due on the paths through t.
      If the root of t is red, making it black settles the matter. */
  ghost predicate LacksBlack(k: Ctx, t: Tree) {
    Balanced(Blackened(t)) && CtxBalanced(k, Blacks(t) + 1)
  }

  lemma RedSettles(k: Ctx, t: Tree)
    requires LacksBlack(k, t) && (IsRed(t) || k.Top?)
    ensures RedBlack(Plug(k, Blackened(t)))
  {
    PlugBalanced(k, Blackened(t));
  }

  lemma WholeLacks(t: Tree)
    requires RedBlack(t)
    ensures LacksBlack(Top, t)
  {}

  /** The sibling is a node, and if it is red then its parent and its children are not. */
  lemma SiblingIsNode(s: Side, up: Ctx, p: Node, cp: Color, w: Tree, t: Tree)
    requires LacksBlack(In(s, up, p, cp, w), t) && !IsRed(t)
    ensures w.Fork? && Balanced(w)
    ensures IsRed(w) ==> cp == Black && w.left.Fork? && w.right.Fork? && !IsRed(w.left) && !IsRed(w.right)
  {}

  /** Red sibling: one rotation of the parent leads to a black sibling below a red parent. */
  lemma SiblingRed(s: Side, up: Ctx, p: Node, wn: Node, near: Tree, far: Tree, t: Tree)
    requires LacksBlack(In(s, up, p, Black, Join(s, near, wn, Red, far)), t) && !IsRed(t)
    ensures LacksBlack(In(s, In(s, up, wn, Black, far), p, Red, near), t)
    ensures near.Fork? && near.color == Black
  {}

  /** Black sibling with black children: the lack moves to the parent. */
  lemma NephewsBlack(s: Side, up: Ctx, p: Node, cp: Color, w: Tree, t: Tree)
    requires LacksBlack(In(s, up, p, cp, w), t) && !IsRed(t)
    requires w.Fork? && w.color == Black && !IsRed(w.left) && !IsRed(w.right)
    ensures LacksBlack(up, Join(s, t, p, cp, w.(color := Red)))
  {}

  /** Only the near nephew is red: one rotation of the sibling makes the far nephew red. */
  lemma NearNephewRed(s: Side, up: Ctx, p: Node, cp: Color, n1: Tree, nn: Node, n2: Tree, wn: Node, far: Tree, t: Tree)
    requires LacksBlack(In(s, up, p, cp, Join(s, Join(s, n1, nn, Red, n2), wn, Black, far)), t) && !IsRed(far)
    ensures LacksBlack(In(s, up, p, cp, Join(s, n1, nn, Black, Join(s, n2, wn, Red, far))), t)
  {
    BalancedJoin(s, n1, nn, Red, n2);
    BalancedJoin(s, Join(s, n1, nn, Red, n2), wn, Black, far);
    BalancedJoin(s, n2, wn, Red, far);
    BalancedJoin(s, n1, nn, Black, Join(s, n2, wn, Red, far));
  }

  /** The far nephew is red: one rotation of the parent settles the matter. */
  lemma FarNephewRed(s: Side, up: Ctx, p: Node, cp: Color, near: Tree, wn: Node, far: Tree, t: Tree)
    requires LacksBlack(In(s, up, p, cp, Join(s, near, wn, Black, far)), t) && !IsRed(t) && IsRed(far)
    ensures RedBlack(Plug(up, Join(s, Join(s, t, p, Black, near), wn, cp, Blackened(far))))
  {
    BalancedJoin(s, near, wn, Black, far);
    BalancedJoin(s, t, p, Black, near);
    BalancedJoin(s, Join(s, t, p, Black, near), wn, cp, Blackened(far));
    PlugBalanced(up, Join(s, Join(s, t, p, Black, near), wn, cp, Blackened(far)));
  }

  /** Taking out a node with at most one child. */
  lemma SplicedOut(k: Ctx, s: Side, n: Node, c: Color, u: Tree)
    requires RedBlack(Plug(k, Join(s, Leaf, n, c, u)))
    ensures if c == Black then LacksBlack(k, u) else RedBlack(Plug(k, u))
  {
    PlugBalanced(k, Join(s, Leaf, n, c, u));
    PlugBalanced(k, u);
  }
}
