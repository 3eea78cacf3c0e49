/** What the steps of a splay do to the order of the nodes. */
module SplayOrder {
  import opened Elements
  import opened SplayModel

  /** The root is the node with the key or a neighbour of where the key would be. */
  ghost predicate Splayed(t: Tree, key: int) {
    t.Fork? &&
    (key < t.node.key ==> AllBelow(InOrder(t.left), key)) &&
    (t.node.key < key ==> AllAbove(InOrder(t.right), key))
  }

  /** The same in terms of the sequence. */
  ghost predicate AtOrBeside(s: seq<Node>, key: int, n: Node) {
    exists i | 0 <= i < |s| :: s[i] == n &&
      (key < n.key ==> AllBelow(s[..i], key)) && (n.key < key ==> AllAbove(s[i + 1..], key))
  }

  lemma SplayedBeside(t: Tree, key: int)
    requires Splayed(t, key)
    ensures AtOrBeside(InOrder(t), key, t.node)
  {
    hide AllBelow, AllAbove;
    var s, i := InOrder(t), |InOrder(t.left)|;
    assert s[i] == t.node && s[..i] == InOrder(t.left) && s[i + 1..] == InOrder(t.right);
  }

  lemma Middle(a: seq<Node>, b: seq<Node>, n: Node, c: seq<Node>, d: seq<Node>)
    ensures a + (b + [n] + c) + d == (a + b) + [n] + (c + d)
  {}

  lemma AroundMiddle(a: Spine, l: Tree, n: Node, r: Tree, b: Spine)
    ensures TornOrder(a, Fork(l, n, r), b) == (SpineOrder(L, a) + InOrder(l)) + [n] + (InOrder(r) + SpineOrder(R, b))
  {
    hide SpineOrder, InOrder;
    InOrderFork(l, n, r);
    Middle(SpineOrder(L, a), InOrder(l), n, InOrder(r), SpineOrder(R, b));
  }

  lemma InOrderFork(l: Tree, n: Node, r: Tree)
    ensures InOrder(Fork(l, n, r)) == InOrder(l) + [n] + InOrder(r)
  {}

  lemma LinkedOrder(sp: Spine, sub: Tree, n: Node)
    ensures SpineOrder(L, Link(sp, sub, n)) == (SpineOrder(L, sp) + InOrder(sub)) + [n]
    ensures SpineOrder(R, Link(sp, sub, n)) == [n] + (InOrder(sub) + SpineOrder(R, sp))
  {
    hide InOrder;
    assert [n] + InOrder(sub) + SpineOrder(R, sp) == [n] + (InOrder(sub) + SpineOrder(R, sp));
  }

  lemma Associate(a: seq<Node>, b: seq<Node>, c: seq<Node>, d: seq<Node>)
    ensures (a + b) + c + d == a + b + (c + d)
  {}

  /** The root and its right subtree go to the right spine. */
  lemma LinkLeftOrder(a: Spine, l: Tree, n: Node, r: Tree, b: Spine)
    ensures TornOrder(a, l, Link(b, r, n)) == TornOrder(a, Fork(l, n, r), b)
    ensures SpineOrder(R, Link(b, r, n)) == [n] + (InOrder(r) + SpineOrder(R, b))
  {
    hide InOrder, SpineOrder;
    AroundMiddle(a, l, n, r, b);
    LinkedOrder(b, r, n);
    Associate(SpineOrder(L, a), InOrder(l), [n], InOrder(r) + SpineOrder(R, b));
  }

  lemma LinkRightOrder(a: Spine, l: Tree, n: Node, r: Tree, b: Spine)
    ensures TornOrder(Link(a, l, n), r, b) == TornOrder(a, Fork(l, n, r), b)
    ensures SpineOrder(L, Link(a, l, n)) == (SpineOrder(L, a) + InOrder(l)) + [n]
  {
    hide InOrder, SpineOrder;
    AroundMiddle(a, l, n, r, b);
    LinkedOrder(a, l, n);
    Associate(SpineOrder(L, a) + InOrder(l), [n], InOrder(r), SpineOrder(R, b));
  }

  lemma AroundBounds(a: Spine, l: Tree, n: Node, r: Tree, b: Spine)
    requires Ascending(TornOrder(a, Fork(l, n, r), b))
    ensures AllBelow(SpineOrder(L, a) + InOrder(l), n.key)
    ensures AllAbove(InOrder(r) + SpineOrder(R, b), n.key)
  {
    hide Ascending, AllBelow, AllAbove, InOrder, SpineOrder, TornOrder;
    AroundMiddle(a, l, n, r, b);
    AscendingAround(SpineOrder(L, a) + InOrder(l), n, InOrder(r) + SpineOrder(R, b));
  }

  /** If the key is left of the root, what joins the right spine is right of the key. */
  lemma RightOfKey(a: Spine, l: Tree, n: Node, r: Tree, b: Spine, key: int)
    requires Ascending(TornOrder(a, Fork(l, n, r), b)) && key < n.key
    ensures AllAbove(SpineOrder(R, Link(b, r, n)), key)
  {
    hide Ascending, InOrder, SpineOrder, TornOrder;
    AroundBounds(a, l, n, r, b);
    LinkLeftOrder(a, l, n, r, b);
  }

  lemma LeftOfKey(a: Spine, l: Tree, n: Node, r: Tree, b: Spine, key: int)
    requires Ascending(TornOrder(a, Fork(l, n, r), b)) && n.key < key
    ensures AllBelow(SpineOrder(L, Link(a, l, n)), key)
  {
    hide Ascending, InOrder, SpineOrder, TornOrder;
    AroundBounds(a, l, n, r, b);
    LinkRightOrder(a, l, n, r, b);
  }

  /** One round of the loop to the left keeps the order and what is known about the key. */
  lemma StepLeftOrder(a: Spine, m: Tree, b: Spine, turn: bool, key: int)
    requires m.Fork? && m.left.Fork? && Ascending(TornOrder(a, m, b))
    requires AllAbove(SpineOrder(R, b), key) && key < m.node.key && (turn ==> key < m.left.node.key)
    ensures var m1 := if turn then TurnedRight(m) else m;
            && TornOrder(a, m1, b) == TornOrder(a, m, b) && key < m1.node.key
            && TornOrder(a, m1.left, Link(b, m1.right, m1.node)) == TornOrder(a, m, b)
            && AllAbove(SpineOrder(R, Link(b, m1.right, m1.node)), key)
  {
    hide Ascending, AllAbove, SpineOrder, InOrder;
    var m1 := if turn then TurnedRight(m) else m;
    RotatePieces(R, m.right, m.node, m.left.right, m.left.node, m.left.left);
    LinkLeftOrder(a, m1.left, m1.node, m1.right, b);
    RightOfKey(a, m1.left, m1.node, m1.right, b, key);
  }

  lemma StepRightOrder(a: Spine, m: Tree, b: Spine, turn: bool, key: int)
    requires m.Fork? && m.right.Fork? && Ascending(TornOrder(a, m, b))
    requires AllBelow(SpineOrder(L, a), key) && m.node.key < key && (turn ==> m.right.node.key < key)
    ensures var m1 := if turn then TurnedLeft(m) else m;
            && TornOrder(a, m1, b) == TornOrder(a, m, b) && m1.node.key < key
            && TornOrder(Link(a, m1.left, m1.node), m1.right, b) == TornOrder(a, m, b)
            && AllBelow(SpineOrder(L, Link(a, m1.left, m1.node)), key)
  {
    hide Ascending, AllBelow, SpineOrder, InOrder;
    var m1 := if turn then TurnedLeft(m) else m;
    RotatePieces(L, m.left, m.node, m.right.left, m.right.node, m.right.right);
    LinkRightOrder(a, m1.left, m1.node, m1.right, b);
    LeftOfKey(a, m1.left, m1.node, m1.right, b, key);
  }

  lemma TurnLinkLeftOrder(a: Spine, m: Tree, b: Spine)
    requires m.Fork? && m.left.Fork?
    ensures var m1 := TurnedRight(m);
            && TornOrder(a, m1, b) == TornOrder(a, m, b)
            && TornOrder(a, m1.left, Link(b, m1.right, m1.node)) == TornOrder(a, m, b)
  {
    hide SpineOrder, InOrder;
    var m1 := TurnedRight(m);
    RotatePieces(R, m.right, m.node, m.left.right, m.left.node, m.left.left);
    LinkLeftOrder(a, m1.left, m1.node, m1.right, b);
  }

  lemma TurnLinkRightOrder(a: Spine, m: Tree, b: Spine)
    requires m.Fork? && m.right.Fork?
    ensures var m1 := TurnedLeft(m);
            && TornOrder(a, m1, b) == TornOrder(a, m, b)
            && TornOrder(Link(a, m1.left, m1.node), m1.right, b) == TornOrder(a, m, b)
  {
    hide SpineOrder, InOrder;
    var m1 := TurnedLeft(m);
    RotatePieces(L, m.left, m.node, m.right.left, m.right.node, m.right.right);
    LinkRightOrder(a, m1.left, m1.node, m1.right, b);
  }

  lemma TearOrder(t: Tree)
    ensures TornOrder(End, t, End) == InOrder(t)
    ensures SpineOrder(L, End) == [] && SpineOrder(R, End) == []
  {
    hide InOrder;
  }

  /** SPLAY_ASSEMBLE puts the nodes back in order. */
  lemma AssembledOrder(a: Spine, l: Tree, n: Node, r: Tree, b: Spine)
    ensures InOrder(Fork(Hang(L, a, l), n, Hang(R, b, r))) == TornOrder(a, Fork(l, n, r), b)
  {
    hide InOrder, SpineOrder, Hang, TornOrder;
    InOrderFork(Hang(L, a, l), n, Hang(R, b, r));
    HangInOrder(L, a, l);
    HangInOrder(R, b, r);
    AroundMiddle(a, l, n, r, b);
  }

  /** The search ended at n: either n has the key, or there is nothing more on the side of the key. */
  lemma AssembledSplayed(a: Spine, l: Tree, n: Node, r: Tree, b: Spine, key: int)
    requires AllBelow(SpineOrder(L, a), key) && AllAbove(SpineOrder(R, b), key)
    requires (key < n.key ==> l.Leaf?) && (n.key < key ==> r.Leaf?)
    ensures Splayed(Fork(Hang(L, a, l), n, Hang(R, b, r)), key)
  {
    hide SpineOrder, Hang;
    HangInOrder(L, a, l);
    HangInOrder(R, b, r);
  }

  // ---------- consequences for the callers ----------

  lemma AscendingFork(t: Tree)
    requires Ascending(InOrder(t)) && t.Fork?
    ensures Ascending(InOrder(t.left)) && Ascending(InOrder(t.right))
    ensures AllBelow(InOrder(t.left), t.node.key) && AllAbove(InOrder(t.right), t.node.key)
  {
    hide Ascending, AllBelow, AllAbove;
    AscendingAround(InOrder(t.left), t.node, InOrder(t.right));
  }

  lemma SplayedLookup(t: Tree, key: int)
    requires Ascending(InOrder(t)) && Splayed(t, key)
    ensures Lookup(InOrder(t), key) == if t.node.key == key then t.node else null
  {
    var a, b := InOrder(t.left), InOrder(t.right);
    AscendingFork(t);
    if t.node.key == key {
      assert InOrder(t)[|a|] == t.node;
      LookupHit(InOrder(t), t.node);
    } else if key < t.node.key {
      assert AllAbove([t.node] + b, key);
      assert InOrder(t) == a + ([t.node] + b);
      LookupMiss(a, [t.node] + b, key);
    } else {
      LookupMiss(a + [t.node], b, key);
    }
  }

  /** The split of SPLAY_INSERT is in order because the old root is a neighbour of the key. */
  lemma SplitOrder(t: Tree, elm: Node)
    requires Ascending(InOrder(t)) && Splayed(t, elm.key) && t.node.key != elm.key
    ensures var t' := if elm.key < t.node.key then Fork(t.left, elm, Fork(Leaf, t.node, t.right))
                      else Fork(Fork(t.left, t.node, Leaf), elm, t.right);
            Ascending(InOrder(t')) && IsInserted(InOrder(t), elm, InOrder(t'))
  {
    hide Ascending, IsInserted;
    var a, b := InOrder(t.left), InOrder(t.right);
    AscendingFork(t);
    InOrderLeaf();
    if elm.key < t.node.key {
      assert InOrder(t) == a + ([t.node] + b);
      assert InOrder(Fork(t.left, elm, Fork(Leaf, t.node, t.right))) == a + [elm] + ([t.node] + b);
      InsertedAscending(a, elm, [t.node] + b);
    } else {
      assert InOrder(Fork(Fork(t.left, t.node, Leaf), elm, t.right)) == (a + [t.node]) + [elm] + b;
      InsertedAscending(a + [t.node], elm, b);
    }
  }

  /** Splaying a key above all nodes brings the last node to the root, with no right subtree. */
  lemma NothingRight(t: Tree, key: int)
    requires Splayed(t, key) && AllBelow(InOrder(t), key)
    ensures t.right.Leaf?
  {
    hide InOrder;
    InOrderFork(t.left, t.node, t.right);
    BelowParts(InOrder(t.left), t.node, InOrder(t.right), key);
    NothingBetween(InOrder(t.right), key);
    InOrderEmpty(t.right);
  }

  lemma NothingLeft(t: Tree, key: int)
    requires Splayed(t, key) && AllAbove(InOrder(t), key)
    ensures t.left.Leaf?
  {
    hide InOrder;
    InOrderFork(t.left, t.node, t.right);
    AboveParts(InOrder(t.left), t.node, InOrder(t.right), key);
    NothingBetween(InOrder(t.left), key);
    InOrderEmpty(t.left);
  }

  lemma AboveFork(t: Tree, key: int)
    requires t.Fork? && AllAbove(InOrder(t), key)
    ensures key < t.node.key && AllAbove(InOrder(t.left), key)
  {
    InOrderFork(t.left, t.node, t.right);
    AboveParts(InOrder(t.left), t.node, InOrder(t.right), key);
  }

  lemma BelowFork(t: Tree, key: int)
    requires t.Fork? && AllBelow(InOrder(t), key)
    ensures t.node.key < key && AllBelow(InOrder(t.right), key)
  {
    InOrderFork(t.left, t.node, t.right);
    BelowParts(InOrder(t.left), t.node, InOrder(t.right), key);
  }

  lemma InOrderEmpty(t: Tree)
    ensures InOrder(t) == [] <==> t.Leaf?
  {}

  /** Removing the root: its subtrees joined at the last node of the left one. */
  lemma JoinedOrder(t: Tree, u: Tree)
    requires Ascending(InOrder(t)) && t.Fork? && u.Fork? && u.right.Leaf? && InOrder(u) == InOrder(t.left)
    ensures var t' := Fork(u.left, u.node, t.right);
            Ascending(InOrder(t')) && IsRemoved(InOrder(t), t.node, InOrder(t'))
  {
    hide Ascending, IsRemoved;
    InOrderLeaf();
    assert InOrder(Fork(u.left, u.node, t.right)) == InOrder(u) + InOrder(t.right);
    RemovedAscending(InOrder(t.left), t.node, InOrder(t.right));
  }

  lemma RightOrder(t: Tree)
    requires Ascending(InOrder(t)) && t.Fork? && t.left.Leaf?
    ensures Ascending(InOrder(t.right)) && IsRemoved(InOrder(t), t.node, InOrder(t.right))
  {
    hide Ascending, IsRemoved;
    InOrderLeaf();
    RemovedAscending([], t.node, InOrder(t.right));
    assert [] + InOrder(t.right) == InOrder(t.right);
  }

  // ---------- the splay as a function ----------

  /** What the loop of SPLAY leaves of the three parts. */
  function Parts(a: Spine, m: Tree, b: Spine, key: int): (p: (Spine, Tree, Spine))
    requires m.Fork?
    ensures p.1.Fork?
    decreases m
  {
    if key < m.node.key && m.left.Fork? then
      var m1 := if key < m.left.node.key then TurnedRight(m) else m;
      if m1.left.Leaf? then (a, m1, b) else Parts(a, m1.left, Link(b, m1.right, m1.node), key)
    else if m.node.key < key && m.right.Fork? then
      var m1 := if m.right.node.key < key then TurnedLeft(m) else m;
      if m1.right.Leaf? then (a, m1, b) else Parts(Link(a, m1.left, m1.node), m1.right, b, key)
    else (a, m, b)
  }

  function Assembly(p: (Spine, Tree, Spine)): (t: Tree)
    requires p.1.Fork?
    ensures t.Fork? && t.node == p.1.node
  {
    Fork(Hang(L, p.0, p.1.left), p.1.node, Hang(R, p.2, p.1.right))
  }

  /** The tree after splaying the key. */
  function TopDown(t: Tree, key: int): (t': Tree)
    requires t.Fork?
    ensures t'.Fork?
  {
    Assembly(Parts(End, t, End, key))
  }

  /** The tree after SPLAY_INSERT of an element with a new key, when t is the tree splayed for that key. */
  function SplitAt(t: Tree, elm: Node): (t': Tree)
    requires t.Fork?
    ensures t'.Fork? && t'.node == elm
  {
    if elm.key < t.node.key then Fork(t.left, elm, Fork(Leaf, t.node, t.right))
    else Fork(Fork(t.left, t.node, Leaf), elm, t.right)
  }

  /** The tree after SPLAY_REMOVE of the root of t. */
  function WithoutRoot(t: Tree): Tree
    requires t.Fork?
  {
    if t.left.Leaf? then t.right
    else
      var u := TopDown(t.left, t.node.key);
      Fork(u.left, u.node, t.right)
  }

  lemma {:induction false} PartsOrder(a: Spine, m: Tree, b: Spine, key: int)
    requires m.Fork?
    ensures var p := Parts(a, m, b, key); TornOrder(p.0, p.1, p.2) == TornOrder(a, m, b)
    decreases m
  {
    hide TornOrder, InOrder, SpineOrder;
    if key < m.node.key && m.left.Fork? {
      var m1 := if key < m.left.node.key then TurnedRight(m) else m;
      TurnLinkLeftOrder(a, m, b);
      LinkLeftOrder(a, m.left, m.node, m.right, b);
      if m1.left.Fork? {
        PartsOrder(a, m1.left, Link(b, m1.right, m1.node), key);
      }
    } else if m.node.key < key && m.right.Fork? {
      var m1 := if m.right.node.key < key then TurnedLeft(m) else m;
      TurnLinkRightOrder(a, m, b);
      LinkRightOrder(a, m.left, m.node, m.right, b);
      if m1.right.Fork? {
        PartsOrder(Link(a, m1.left, m1.node), m1.right, b, key);
      }
    }
  }

  /** A splay keeps the sequence of the nodes. */
  lemma TopDownOrder(t: Tree, key: int)
    requires t.Fork?
    ensures InOrder(TopDown(t, key)) == InOrder(t)
  {
    hide TornOrder, InOrder, SpineOrder, Parts;
    var p := Parts(End, t, End, key);
    PartsOrder(End, t, End, key);
    TearOrder(t);
    AssembledOrder(p.0, p.1.left, p.1.node, p.1.right, p.2);
  }

  lemma {:induction false} PartsSplayed(a: Spine, m: Tree, b: Spine, key: int)
    requires m.Fork? && Ascending(TornOrder(a, m, b))
    requires AllBelow(SpineOrder(L, a), key) && AllAbove(SpineOrder(R, b), key)
    ensures var p := Parts(a, m, b, key);
            && AllBelow(SpineOrder(L, p.0), key) && AllAbove(SpineOrder(R, p.2), key)
            && (key < p.1.node.key ==> p.1.left.Leaf?) && (p.1.node.key < key ==> p.1.right.Leaf?)
    decreases m
  {
    hide TornOrder, InOrder, SpineOrder, Ascending, AllBelow, AllAbove;
    if key < m.node.key && m.left.Fork? {
      var m1 := if key < m.left.node.key then TurnedRight(m) else m;
      StepLeftOrder(a, m, b, key < m.left.node.key, key);
      if m1.left.Fork? {
        PartsSplayed(a, m1.left, Link(b, m1.right, m1.node), key);
      }
    } else if m.node.key < key && m.right.Fork? {
      var m1 := if m.right.node.key < key then TurnedLeft(m) else m;
      StepRightOrder(a, m, b, m.right.node.key < key, key);
      if m1.right.Fork? {
        PartsSplayed(Link(a, m1.left, m1.node), m1.right, b, key);
      }
    }
  }

  /** A splay brings the node with the key, or a neighbour of the key, to the root. */
  lemma TopDownSplayed(t: Tree, key: int)
    requires t.Fork? && Ascending(InOrder(t))
    ensures Splayed(TopDown(t, key), key)
  {
    hide TornOrder, InOrder, SpineOrder, Parts, Ascending, Splayed;
    var p := Parts(End, t, End, key);
    TearOrder(t);
    NothingYet(key);
    PartsSplayed(End, t, End, key);
    AssembledSplayed(p.0, p.1.left, p.1.node, p.1.right, p.2, key);
  }

  lemma NothingYet(key: int)
    ensures AllBelow([], key) && AllAbove([], key)
  {}

  /** Splaying a key below (above) all nodes brings the first (last) one to the root. */
  lemma TopDownEnds(t: Tree, key: int)
    requires t.Fork? && Ascending(InOrder(t))
    ensures AllAbove(InOrder(t), key) ==> TopDown(t, key).left.Leaf?
    ensures AllBelow(InOrder(t), key) ==> TopDown(t, key).right.Leaf?
  {
    hide TopDown, Ascending;
    TopDownSplayed(t, key);
    TopDownOrder(t, key);
    if AllAbove(InOrder(t), key) {
      NothingLeft(TopDown(t, key), key);
    }
    if AllBelow(InOrder(t), key) {
      NothingRight(TopDown(t, key), key);
    }
  }

  // ---------- how far the path to the key is shortened ----------

  /** The number of nodes that a search for the key meets. */
  function Path(t: Tree, key: int): nat {
    if t.Leaf? then 0
    else if key < t.node.key then 1 + Path(t.left, key)
    else if t.node.key < key then 1 + Path(t.right, key)
    else 1
  }

  /** Two levels of the path, out of d, add at most one node to a spine: at a straight step by the rotation,
      at a bent one because the next step goes the other way. */
  ghost predicate Halving(d: nat, a: Spine, m: Tree, b: Spine, key: int) {
    && m.Fork? && Path(m, key) <= d
    && 2 * Length(a) <= d - Path(m, key) + 1 && 2 * Length(b) <= d - Path(m, key) + 1
    && (m.node.key < key ==> 2 * Length(a) <= d - Path(m, key))
    && (key < m.node.key ==> 2 * Length(b) <= d - Path(m, key))
  }

  lemma StepLeftHalving(d: nat, a: Spine, m: Tree, b: Spine, key: int)
    requires Halving(d, a, m, b, key) && key < m.node.key && m.left.Fork?
    ensures var m1 := if key < m.left.node.key then TurnedRight(m) else m;
            m1.left.Fork? ==> Halving(d, a, m1.left, Link(b, m1.right, m1.node), key)
  {
    var m1 := if key < m.left.node.key then TurnedRight(m) else m;
    assert Path(m, key) == 1 + Path(m.left, key);
    assert key < m.left.node.key ==> Path(m.left, key) == 1 + Path(m.left.left, key);
    assert Length(Link(b, m1.right, m1.node)) == 1 + Length(b);
  }

  lemma StepRightHalving(d: nat, a: Spine, m: Tree, b: Spine, key: int)
    requires Halving(d, a, m, b, key) && m.node.key < key && m.right.Fork?
    ensures var m1 := if m.right.node.key < key then TurnedLeft(m) else m;
            m1.right.Fork? ==> Halving(d, Link(a, m1.left, m1.node), m1.right, b, key)
  {
    var m1 := if m.right.node.key < key then TurnedLeft(m) else m;
    assert Path(m, key) == 1 + Path(m.right, key);
    assert m.right.node.key < key ==> Path(m.right, key) == 1 + Path(m.right.right, key);
    assert Length(Link(a, m1.left, m1.node)) == 1 + Length(a);
  }

  lemma {:induction false} PartsHalving(d: nat, a: Spine, m: Tree, b: Spine, key: int)
    requires Halving(d, a, m, b, key)
    ensures var p := Parts(a, m, b, key); 2 * Length(p.0) <= d && 2 * Length(p.2) <= d
    decreases m
  {
    assert Path(m, key) >= 1;
    hide Halving, Path;
    if key < m.node.key && m.left.Fork? {
      StepLeftHalving(d, a, m, b, key);
      var m1 := if key < m.left.node.key then TurnedRight(m) else m;
      if m1.left.Fork? {
        PartsHalving(d, a, m1.left, Link(b, m1.right, m1.node), key);
      }
    } else if m.node.key < key && m.right.Fork? {
      StepRightHalving(d, a, m, b, key);
      var m1 := if m.right.node.key < key then TurnedLeft(m) else m;
      if m1.right.Fork? {
        PartsHalving(d, Link(a, m1.left, m1.node), m1.right, b, key);
      }
    }
  }

  /** What hung below the end of the search path is, after the splay,
      below spines at most half as long as that path. */
  lemma TopDownHalves(t: Tree, key: int)
    requires t.Fork?
    ensures var p := Parts(End, t, End, key);
            && TopDown(t, key) == Fork(Hang(L, p.0, p.1.left), p.1.node, Hang(R, p.2, p.1.right))
            && 2 * Length(p.0) <= Path(t, key) && 2 * Length(p.2) <= Path(t, key)
  {
    PartsHalving(Path(t, key), End, t, End, key);
  }
}
