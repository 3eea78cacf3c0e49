/** Walking down and up red-black trees: order, height, neighbours. */
module RbSearch {
  import opened Arith
  import opened Elements
  import opened RbModel
  import opened RbBalance

  // ---------- the descent for a key ----------

  /** The subtree at k is the only place for the key. */
  ghost predicate Between(k: Ctx, key: int) {
    AllBelow(Before(k), key) && AllAbove(After(k), key)
  }

  lemma AroundFork(k: Ctx, l: Tree, n: Node, c: Color, r: Tree)
    ensures InOrder(Plug(k, Fork(l, n, c, r))) == (Before(k) + InOrder(l)) + [n] + (InOrder(r) + After(k))
  {
    hide Plug, Before, After;
    PlugInOrder(k, Fork(l, n, c, r));
  }

  lemma OrderAround(k: Ctx, t: Tree)
    requires Ascending(InOrder(Plug(k, t))) && t.Fork?
    ensures InOrder(Plug(k, t)) ==
            (Before(k) + InOrder(t.left)) + [t.node] + (InOrder(t.right) + After(k))
    ensures AllBelow(Before(k) + InOrder(t.left), t.node.key)
    ensures AllAbove(InOrder(t.right) + After(k), t.node.key)
  {
    hide Ascending, AllBelow, AllAbove, InOrder, Plug, Before, After;
    AroundFork(k, t.left, t.node, t.color, t.right);
    AscendingAround(Before(k) + InOrder(t.left), t.node, InOrder(t.right) + After(k));
  }

  lemma StepLeft(k: Ctx, t: Tree, key: int)
    requires Ascending(InOrder(Plug(k, t))) && t.Fork? && Between(k, key) && key < t.node.key
    ensures var k' := In(L, k, t.node, t.color, t.right);
            Plug(k', t.left) == Plug(k, t) && Between(k', key)
  {
    hide Ascending, AllBelow, AllAbove, InOrder;
    OrderAround(k, t);
    var b := InOrder(t.right) + After(k);
    assert After(In(L, k, t.node, t.color, t.right)) == [t.node] + b;
    AboveFrom(t.node, b, key);
  }

  lemma StepRight(k: Ctx, t: Tree, key: int)
    requires Ascending(InOrder(Plug(k, t))) && t.Fork? && Between(k, key) && t.node.key < key
    ensures var k' := In(R, k, t.node, t.color, t.left);
            Plug(k', t.right) == Plug(k, t) && Between(k', key)
  {
    hide Ascending, AllBelow, AllAbove, InOrder;
    OrderAround(k, t);
    BelowUpTo(Before(k) + InOrder(t.left), t.node, key);
  }

  lemma AboveFrom(n: Node, b: seq<Node>, key: int)
    requires key < n.key && AllAbove(b, n.key)
    ensures AllAbove([n] + b, key)
  {}

  lemma BelowUpTo(a: seq<Node>, n: Node, key: int)
    requires n.key < key && AllBelow(a, n.key)
    ensures AllBelow(a + [n], key)
  {}

  lemma FoundHere(k: Ctx, t: Tree)
    requires Ascending(InOrder(Plug(k, t))) && t.Fork?
    ensures Lookup(InOrder(Plug(k, t)), t.node.key) == t.node
    ensures IsCeiling(InOrder(Plug(k, t)), t.node.key, t.node)
  {
    hide Ascending, InOrder;
    var s := InOrder(Plug(k, t));
    OrderAround(k, t);
    var i := |Before(k) + InOrder(t.left)|;
    assert s[i] == t.node && s[..i] == Before(k) + InOrder(t.left);
    LookupHit(s, t.node);
  }

  lemma NotFound(k: Ctx, key: int)
    requires Between(k, key)
    ensures Lookup(InOrder(Plug(k, Leaf)), key) == null
    ensures IsCeiling(InOrder(Plug(k, Leaf)), key, NodeAt(After(k), 0))
  {
    PlugInOrder(k, Leaf);
    var s, a, b := InOrder(Plug(k, Leaf)), Before(k), After(k);
    assert s == a + b;
    LookupMiss(a, b, key);
    if b != [] {
      assert s[|a|] == b[0] && s[..|a|] == a;
    }
  }

  // ---------- height ----------

  function Height(t: Tree): nat {
    if t.Leaf? then 0 else 1 + Max(Height(t.left), Height(t.right))
  }

  lemma {:induction false} HeightByBlacks(t: Tree)
    requires Balanced(t)
    ensures Height(t) <= 2 * Blacks(t) + if IsRed(t) then 1 else 0
  {
    if t.Fork? {
      HeightByBlacks(t.left);
      HeightByBlacks(t.right);
    }
  }

  lemma {:induction false} SizeByBlacks(t: Tree)
    requires Balanced(t)
    ensures Pow2(Blacks(t)) <= |InOrder(t)| + 1
  {
    if t.Fork? {
      SizeByBlacks(t.left);
      SizeByBlacks(t.right);
    }
  }

  /** The maximum height is 2 lg (n + 1). */
  lemma HeightBound(t: Tree)
    requires RedBlack(t)
    ensures Pow2(Height(t)) <= (|InOrder(t)| + 1) * (|InOrder(t)| + 1)
  {
    hide Pow2, Height, Blacks, Balanced, InOrder;
    var b := Blacks(t);
    HeightByBlacks(t);
    SizeByBlacks(t);
    Pow2Monotone(Height(t), b + b);
    Pow2Sum(b, b);
    SquareMonotone(Pow2(b), |InOrder(t)| + 1);
  }

  // ---------- finding the place of a node ----------

  lemma {:induction false} Locate(k: Ctx, t: Tree, n: Node) returns (k': Ctx, t': Tree)
    requires n in InOrder(t)
    ensures Plug(k', t') == Plug(k, t) && t'.Fork? && t'.node == n
    decreases t
  {
    if n == t.node {
      k', t' := k, t;
    } else if n in InOrder(t.left) {
      k', t' := Locate(In(L, k, t.node, t.color, t.right), t.left, n);
    } else {
      k', t' := Locate(In(R, k, t.node, t.color, t.left), t.right, n);
    }
  }

  lemma IndexHere(k: Ctx, t: Tree)
    requires Ascending(InOrder(Plug(k, t))) && t.Fork?
    ensures var s := InOrder(Plug(k, t));
            t.node in s && IndexOf(s, t.node) == |Before(k) + InOrder(t.left)|
  {
    hide Ascending, InOrder, IndexOf;
    OrderAround(k, t);
    IndexUnique(Before(k) + InOrder(t.left), t.node, InOrder(t.right) + After(k));
  }

  // ---------- a new leaf ----------

  lemma LeafBalanced(k: Ctx, n: Node)
    requires RedBlack(Plug(k, Leaf))
    ensures RedRed(k, Fork(Leaf, n, Red, Leaf))
  {
    PlugBalanced(k, Leaf);
  }

  lemma LeafInOrder(k: Ctx, n: Node)
    requires Ascending(InOrder(Plug(k, Leaf))) && Between(k, n.key)
    ensures var s, s' := InOrder(Plug(k, Leaf)), InOrder(Plug(k, Fork(Leaf, n, Red, Leaf)));
            Ascending(s') && IsInserted(s, n, s')
  {
    hide Ascending, IsInserted;
    PlugInOrder(k, Leaf);
    PlugInOrder(k, Fork(Leaf, n, Red, Leaf));
    assert InOrder(Plug(k, Leaf)) == Before(k) + After(k);
    assert InOrder(Plug(k, Fork(Leaf, n, Red, Leaf))) == Before(k) + [n] + After(k);
    InsertedAscending(Before(k), n, After(k));
  }

  // ---------- the successor relink ----------

  /** The context k2 of a subtree inside another subtree whose context is k. */
  function Under(k2: Ctx, k: Ctx): Ctx {
    match k2
    case Top => k
    case In(s, up, n, c, u) => In(s, Under(up, k), n, c, u)
  }

  lemma {:induction false} PlugUnder(k2: Ctx, k: Ctx, t: Tree)
    ensures Plug(Under(k2, k), t) == Plug(k, Plug(k2, t))
    decreases k2
  {
    match k2
    case Top =>
    case In(s, up, n, c, u) => PlugUnder(up, k, Join(s, t, n, c, u));
  }

  lemma {:induction false} UnderNodes(k2: Ctx, k: Ctx)
    ensures CtxNodes(Under(k2, k)) == CtxNodes(k2) + CtxNodes(k)
    ensures CtxApart(Under(k2, k)) ==> CtxNodes(k2) !! CtxNodes(k)
  {
    if k2.In? {
      UnderNodes(k2.up, k);
    }
  }

  /** The balance of a context does not depend on which node has two children in it. */
  lemma {:induction false} UnderBalanced(k2: Ctx, k: Ctx, l: Tree, n: Node, n': Node, c: Color, b: nat)
    ensures CtxBalanced(Under(k2, In(R, k, n, c, l)), b) <==> CtxBalanced(Under(k2, In(R, k, n', c, l)), b)
    ensures UnderBlack(Under(k2, In(R, k, n, c, l))) <==> UnderBlack(Under(k2, In(R, k, n', c, l)))
    decreases k2
  {
    match k2
    case Top =>
    case In(s, up, m, d, u) => UnderBalanced(up, k, l, n, n', c, b + if d == Black then 1 else 0);
  }

  /** y, the first node of the right subtree of n, takes the place of n; u was below y. */
  lemma SuccessorBalanced(k: Ctx, l: Tree, n: Node, c: Color, k2: Ctx, y: Node, cy: Color, u: Tree)
    requires RedBlack(Plug(Under(k2, In(R, k, n, c, l)), Fork(Leaf, y, cy, u)))
    ensures var k' := Under(k2, In(R, k, y, c, l));
            if cy == Black then LacksBlack(k', u) else RedBlack(Plug(k', u))
  {
    var k1, k' := Under(k2, In(R, k, n, c, l)), Under(k2, In(R, k, y, c, l));
    PlugBalanced(k1, Fork(Leaf, y, cy, u));
    PlugBalanced(k', u);
    UnderBalanced(k2, k, l, n, y, c, Blacks(u));
    UnderBalanced(k2, k, l, n, y, c, Blacks(u) + 1);
  }

  lemma SuccessorInOrder(k: Ctx, l: Tree, n: Node, c: Color, k2: Ctx, y: Node, cy: Color, u: Tree)
    requires Before(k2) == []
    requires Ascending(InOrder(Plug(k, Fork(l, n, c, Plug(k2, Fork(Leaf, y, cy, u))))))
    ensures var s, s' := InOrder(Plug(k, Fork(l, n, c, Plug(k2, Fork(Leaf, y, cy, u))))),
                         InOrder(Plug(k, Fork(l, y, c, Plug(k2, u))));
            Ascending(s') && IsRemoved(s, n, s')
  {
    hide Ascending, IsRemoved, Plug, Before, After, InOrder;
    var t, t' := Plug(k2, Fork(Leaf, y, cy, u)), Plug(k2, u);
    AroundFork(k2, Leaf, y, cy, u);
    PlugInOrder(k2, u);
    InOrderLeaf();
    assert InOrder(t) == [y] + InOrder(t');
    AroundFork(k, l, n, c, t);
    AroundFork(k, l, y, c, t');
    var a, b := Before(k) + InOrder(l), InOrder(t) + After(k);
    assert InOrder(Plug(k, Fork(l, y, c, t'))) == a + b;
    RemovedAscending(a, n, b);
  }

  lemma SpliceInOrder(k: Ctx, s: Side, n: Node, c: Color, u: Tree)
    requires Ascending(InOrder(Plug(k, Join(s, Leaf, n, c, u))))
    ensures var q, q' := InOrder(Plug(k, Join(s, Leaf, n, c, u))), InOrder(Plug(k, u));
            Ascending(q') && IsRemoved(q, n, q')
  {
    hide Ascending, IsRemoved, Plug, Before, After, InOrder;
    InOrderLeaf();
    PlugInOrder(k, u);
    if s == L {
      AroundFork(k, Leaf, n, c, u);
      RemovedAscending(Before(k) + InOrder(Leaf), n, InOrder(u) + After(k));
      assert InOrder(Plug(k, u)) == (Before(k) + InOrder(Leaf)) + (InOrder(u) + After(k));
    } else {
      AroundFork(k, u, n, c, Leaf);
      RemovedAscending(Before(k) + InOrder(u), n, InOrder(Leaf) + After(k));
      assert InOrder(Plug(k, u)) == (Before(k) + InOrder(u)) + (InOrder(Leaf) + After(k));
    }
  }
}
