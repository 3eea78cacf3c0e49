/** The splay tree: top-down splaying by assignments, and the tree the links spell out. */
module SplayTree {
  import opened Elements
  import opened SplayModel
  import opened SplayOrder

  ghost predicate Agrees(h: Links)
    reads h.Keys
  {
    forall n | n in h :: Cell(n.speLeft, n.speRight) == h[n]
  }

  class Head {
    var root: Node?
    ghost var links: Links  // the fields of the linked elements, as a map
    ghost var tree: Tree    // the tree they spell out, between operations

    /** The fields of the elements spell out exactly the tree t. */
    ghost predicate Has(t: Tree)
      reads this`root, this`links, links.Keys
    {
      Agrees(links) && Spells(links, t) && root == Root(t)
    }

    /** In the middle of a splay. */
    ghost predicate IsTorn(dummy: Node, a: Spine, m: Tree, b: Spine)
      reads this`root, this`links, links.Keys
    {
      Agrees(links) && Torn(links, dummy, L, a, m, b) && root == Root(m)
    }

    lemma ReadRoot(dummy: Node, a: Spine, m: Tree, b: Spine)
      requires IsTorn(dummy, a, m, b) && m.Fork?
      ensures m.node in links && m.node.speLeft == Root(m.left) && m.node.speRight == Root(m.right)
    {
      hide SpineShape, Apart, SpineApart, Nodes, SpineNodes;
    }

    lemma ReadChildren(dummy: Node, a: Spine, m: Tree, b: Spine)
      requires IsTorn(dummy, a, m, b) && m.Fork?
      ensures m.left.Fork? ==>
        && m.left.node in links
        && m.left.node.speLeft == Root(m.left.left) && m.left.node.speRight == Root(m.left.right)
      ensures m.right.Fork? ==>
        && m.right.node in links
        && m.right.node.speLeft == Root(m.right.left) && m.right.node.speRight == Root(m.right.right)
    {
      hide SpineShape, Apart, SpineApart, Nodes, SpineNodes;
      assert Shape(links, m.left) && Shape(links, m.right);
    }

    /** SPLAY_ASSEMBLE: the links it assigns. */
    method AssignLinks(node: Node, left: Node, right: Node)
      requires root != null && root != left && root != right && root != node
      modifies left`speRight, right`speLeft, root`speLeft, root`speRight
      ensures left.speRight == old(root.speLeft) && right.speLeft == old(root.speRight)
      ensures root.speLeft == node.speRight && root.speRight == node.speLeft
    {
      left.speRight := root.speLeft;
      right.speLeft := root.speRight;
      root.speLeft := node.speRight;
      root.speRight := node.speLeft;
    }

    /** SPLAY_ASSEMBLE in a torn tree. */
    method Assemble(node: Node, left: Node, right: Node, ghost a: Spine, ghost m: Tree, ghost b: Spine)
      returns (ghost t: Tree)
      requires IsTorn(node, a, m, b) && m.Fork? && left == Last(a, node) && right == Last(b, node)
      modifies this, links.Keys
      ensures t == Fork(Hang(L, a, m.left), m.node, Hang(R, b, m.right)) && Has(t)
      ensures links.Keys == old(links.Keys) - {node} && tree == old(tree)
    {
      hide Shape, Nodes, Apart, Hang, Torn;
      AssembleTorn(links, node, a, m, b);
      ghost var h := links;
      AssignLinks(node, left, right);
      links := Assembled(h, node, left, right, m.node);
      t := Fork(Hang(L, a, m.left), m.node, Hang(R, b, m.right));
    }

    /** SPLAY_ROTATE_RIGHT, where tmp is the left child of the root. */
    method RotateRight(tmp: Node, ghost dummy: Node, ghost a: Spine, ghost m: Tree, ghost b: Spine)
      requires IsTorn(dummy, a, m, b) && m.Fork? && m.left.Fork? && tmp == m.left.node
      modifies this, links.Keys
      ensures IsTorn(dummy, a, TurnedRight(m), b)
      ensures links.Keys == old(links.Keys) && tree == old(tree) && InOrder(TurnedRight(m)) == InOrder(m)
    {
      hide Torn, Shape, InOrder;
      RotateRightTorn(links, dummy, a, m, b);
      ReadChildren(dummy, a, m, b);
      root.speLeft := tmp.speRight;
      tmp.speRight := root;
      links := links[root := links[root].(left := Root(m.left.right))][tmp := links[tmp].(right := root)];
      root := tmp;
    }

    /** SPLAY_LINKLEFT, where last is the node to link to. */
    method LinkLeft(last: Node, ghost dummy: Node, ghost a: Spine, ghost m: Tree, ghost b: Spine) returns (tmp: Node)
      requires IsTorn(dummy, a, m, b) && m.Fork? && last == Last(b, dummy)
      modifies this, links.Keys
      ensures IsTorn(dummy, a, m.left, Link(b, m.right, m.node)) && tmp == m.node
      ensures links.Keys == old(links.Keys) && tree == old(tree)
    {
      hide Torn, Shape;
      LinkLeftTorn(links, dummy, a, m, b);
      ReadRoot(dummy, a, m, b);
      last.speLeft := root;
      links := links[last := links[last].(left := root)];
      tmp := root;
      root := root.speLeft;
    }

    /** SPLAY_ROTATE_LEFT, where tmp is the right child of the root. */
    method RotateLeft(tmp: Node, ghost dummy: Node, ghost a: Spine, ghost m: Tree, ghost b: Spine)
      requires IsTorn(dummy, a, m, b) && m.Fork? && m.right.Fork? && tmp == m.right.node
      modifies this, links.Keys
      ensures IsTorn(dummy, a, TurnedLeft(m), b)
      ensures links.Keys == old(links.Keys) && tree == old(tree) && InOrder(TurnedLeft(m)) == InOrder(m)
    {
      hide Torn, Shape, InOrder;
      RotateLeftTorn(links, dummy, a, m, b);
      ReadChildren(dummy, a, m, b);
      root.speRight := tmp.speLeft;
      tmp.speLeft := root;
      links := links[root := links[root].(right := Root(m.right.left))][tmp := links[tmp].(left := root)];
      root := tmp;
    }

    /** SPLAY_LINKRIGHT, where last is the node to link to. */
    method LinkRight(last: Node, ghost dummy: Node, ghost a: Spine, ghost m: Tree, ghost b: Spine) returns (tmp: Node)
      requires IsTorn(dummy, a, m, b) && m.Fork? && last == Last(a, dummy)
      modifies this, links.Keys
      ensures IsTorn(dummy, Link(a, m.left, m.node), m.right, b) && tmp == m.node
      ensures links.Keys == old(links.Keys) && tree == old(tree)
    {
      hide Torn, Shape;
      LinkRightTorn(links, dummy, a, m, b);
      ReadRoot(dummy, a, m, b);
      last.speRight := root;
      links := links[last := links[last].(right := root)];
      tmp := root;
      root := root.speRight;
    }

    /** One round of the splay loop towards the left child tmp: perhaps a rotation, then a link.
        It ends early if after a rotation there is nothing more on the left. */
    method StepLeft(tmp: Node, turn: bool, last0: Node, ghost dummy: Node,
        ghost a: Spine, ghost m: Tree, ghost b: Spine)
      returns (last: Node, stop: bool, ghost m': Tree, ghost b': Spine)
      requires IsTorn(dummy, a, m, b) && m.Fork? && m.left.Fork? && tmp == m.left.node && last0 == Last(b, dummy)
      modifies this, links.Keys
      ensures IsTorn(dummy, a, m', b') && m'.Fork? && last == Last(b', dummy)
      ensures links.Keys == old(links.Keys) && tree == old(tree)
      ensures var m1 := if turn then TurnedRight(m) else m;
              if stop then turn && m' == m1 && m1.left.Leaf? && b' == b
              else m' == m1.left && b' == Link(b, m1.right, m1.node)
      ensures stop || m' < m
    {
      hide Torn, Shape, InOrder;
      last, stop, m', b' := last0, false, m, b;
      if turn {
        RotateRight(tmp, dummy, a, m, b);
        m' := TurnedRight(m);
        ReadRoot(dummy, a, m', b);
        if root.speLeft == null {
          stop := true;
          return;
        }
      }
      b' := Link(b, m'.right, m'.node);
      last := LinkLeft(last, dummy, a, m', b);
      m' := m'.left;
    }

    /** One round of the splay loop towards the right child tmp: perhaps a rotation, then a link.
        It ends early if after a rotation there is nothing more on the right. */
    method StepRight(tmp: Node, turn: bool, last0: Node, ghost dummy: Node,
        ghost a: Spine, ghost m: Tree, ghost b: Spine)
      returns (last: Node, stop: bool, ghost m': Tree, ghost a': Spine)
      requires IsTorn(dummy, a, m, b) && m.Fork? && m.right.Fork? && tmp == m.right.node && last0 == Last(a, dummy)
      modifies this, links.Keys
      ensures IsTorn(dummy, a', m', b) && m'.Fork? && last == Last(a', dummy)
      ensures links.Keys == old(links.Keys) && tree == old(tree)
      ensures var m1 := if turn then TurnedLeft(m) else m;
              if stop then turn && m' == m1 && m1.right.Leaf? && a' == a
              else m' == m1.right && a' == Link(a, m1.left, m1.node)
      ensures stop || m' < m
    {
      hide Torn, Shape, InOrder;
      last, stop, m', a' := last0, false, m, a;
      if turn {
        RotateLeft(tmp, dummy, a, m, b);
        m' := TurnedLeft(m);
        ReadRoot(dummy, a, m', b);
        if root.speRight == null {
          stop := true;
          return;
        }
      }
      a' := Link(a, m'.left, m'.node);
      last := LinkRight(last, dummy, a, m', b);
      m' := m'.right;
    }

    /** The branch of the loop of SPLAY for a key on the left of the root. */
    method SeekLeft(elm: Node, last0: Node, ghost dummy: Node, ghost a: Spine, ghost m: Tree, ghost b: Spine)
      returns (last: Node, stop: bool, ghost m': Tree, ghost b': Spine)
      requires IsTorn(dummy, a, m, b) && m.Fork? && last0 == Last(b, dummy) && elm.key < m.node.key
      modifies this, links.Keys
      ensures IsTorn(dummy, a, m', b') && m'.Fork? && last == Last(b', dummy)
      ensures links.Keys == old(links.Keys) && tree == old(tree)
      ensures Parts(a, m, b, elm.key) == if stop then (a, m', b') else Parts(a, m', b', elm.key)
      ensures stop || m' < m
    {
      hide Torn;
      last, stop, m', b' := last0, true, m, b;
      ReadRoot(dummy, a, m, b);
      var tmp := root.speLeft;
      if tmp != null {
        last, stop, m', b' := StepLeft(tmp, Cmp(elm, tmp) < 0, last, dummy, a, m, b);
      }
    }

    /** The branch of the loop of SPLAY_MINMAX that goes to the left: as for a key below all nodes. */
    method SeekEndLeft(last0: Node, ghost key: int, ghost dummy: Node, ghost a: Spine, ghost m: Tree, ghost b: Spine)
      returns (last: Node, stop: bool, ghost m': Tree, ghost b': Spine)
      requires IsTorn(dummy, a, m, b) && m.Fork? && last0 == Last(b, dummy) && AllAbove(InOrder(m), key)
      modifies this, links.Keys
      ensures IsTorn(dummy, a, m', b') && m'.Fork? && last == Last(b', dummy)
      ensures links.Keys == old(links.Keys) && tree == old(tree)
      ensures Parts(a, m, b, key) == if stop then (a, m', b') else Parts(a, m', b', key)
      ensures stop || (m' < m && AllAbove(InOrder(m'), key))
    {
      hide Torn, AllAbove, InOrder;
      last, stop, m', b' := last0, true, m, b;
      ReadRoot(dummy, a, m, b);
      AboveFork(m, key);
      var tmp := root.speLeft;
      if tmp != null {
        AboveFork(m.left, key);
        last, stop, m', b' := StepLeft(tmp, true, last, dummy, a, m, b);
      }
    }

    /** The branch of the loop of SPLAY for a key on the right of the root. */
    method SeekRight(elm: Node, last0: Node, ghost dummy: Node, ghost a: Spine, ghost m: Tree, ghost b: Spine)
      returns (last: Node, stop: bool, ghost m': Tree, ghost a': Spine)
      requires IsTorn(dummy, a, m, b) && m.Fork? && last0 == Last(a, dummy) && m.node.key < elm.key
      modifies this, links.Keys
      ensures IsTorn(dummy, a', m', b) && m'.Fork? && last == Last(a', dummy)
      ensures links.Keys == old(links.Keys) && tree == old(tree)
      ensures Parts(a, m, b, elm.key) == if stop then (a', m', b) else Parts(a', m', b, elm.key)
      ensures stop || m' < m
    {
      hide Torn;
      last, stop, m', a' := last0, true, m, a;
      ReadRoot(dummy, a, m, b);
      var tmp := root.speRight;
      if tmp != null {
        last, stop, m', a' := StepRight(tmp, Cmp(elm, tmp) > 0, last, dummy, a, m, b);
      }
    }

    /** The branch of the loop of SPLAY_MINMAX that goes to the right: as for a key above all nodes. */
    method SeekEndRight(last0: Node, ghost key: int, ghost dummy: Node, ghost a: Spine, ghost m: Tree, ghost b: Spine)
      returns (last: Node, stop: bool, ghost m': Tree, ghost a': Spine)
      requires IsTorn(dummy, a, m, b) && m.Fork? && last0 == Last(a, dummy) && AllBelow(InOrder(m), key)
      modifies this, links.Keys
      ensures IsTorn(dummy, a', m', b) && m'.Fork? && last == Last(a', dummy)
      ensures links.Keys == old(links.Keys) && tree == old(tree)
      ensures Parts(a, m, b, key) == if stop then (a', m', b) else Parts(a', m', b, key)
      ensures stop || (m' < m && AllBelow(InOrder(m'), key))
    {
      hide Torn, AllBelow, InOrder;
      last, stop, m', a' := last0, true, m, a;
      ReadRoot(dummy, a, m, b);
      BelowFork(m, key);
      var tmp := root.speRight;
      if tmp != null {
        BelowFork(m.right, key);
        last, stop, m', a' := StepRight(tmp, true, last, dummy, a, m, b);
      }
    }

    /** The outset of a splay: an empty spine on either side of the dummy. */
    method Tear(ghost t: Tree) returns (node: Node)
      requires Has(t) && t.Fork?
      modifies this
      ensures fresh(node) && IsTorn(node, End, t, End)
      ensures links.Keys == old(links.Keys) + {node} && root == old(root) && tree == old(tree)
    {
      node := new Node(0);
      ghost var h := links;
      node.speLeft, node.speRight := null, null;
      links := links[node := Cell(null, null)];
      TearSpells(h, node, t);
    }

    /** SPLAY: the node with the key of elm, or else a neighbour of it, comes to the root. */
    method Splay(elm: Node, ghost t: Tree) returns (ghost t': Tree)
      requires Has(t) && t.Fork? && Ascending(InOrder(t))
      modifies this, links.Keys
      ensures Has(t') && t' == TopDown(t, elm.key)
      ensures InOrder(t') == InOrder(t) && Splayed(t', elm.key)
      ensures links.Keys == old(links.Keys) && tree == old(tree)
    {
      hide Spells, Torn, Ascending, Splayed, InOrder;
      ghost var a, m, b := End, t, End;
      var node := Tear(t);
      var left, right := node, node;
      while Cmp(elm, root) != 0
        invariant IsTorn(node, a, m, b) && m.Fork? && left == Last(a, node) && right == Last(b, node)
        invariant links.Keys == old(links.Keys) + {node} && tree == old(tree)
        invariant Parts(a, m, b, elm.key) == Parts(End, t, End, elm.key)
        decreases m
      {
        var stop;
        if Cmp(elm, root) < 0 {
          right, stop, m, b := SeekLeft(elm, right, node, a, m, b);
        } else {
          left, stop, m, a := SeekRight(elm, left, node, a, m, b);
        }
        if stop {
          break;
        }
      }
      t' := Assemble(node, left, right, a, m, b);
      TopDownOrder(t, elm.key);
      TopDownSplayed(t, elm.key);
    }

    /** SPLAY_MINMAX, for a direction other than zero: as SPLAY for a key beyond all nodes in that direction. */
    method SplayMinMax(comp: int, ghost key: int, ghost t: Tree) returns (ghost t': Tree)
      requires Has(t) && t.Fork? && Ascending(InOrder(t)) && comp != 0
      requires if comp < 0 then AllAbove(InOrder(t), key) else AllBelow(InOrder(t), key)
      modifies this, links.Keys
      ensures Has(t') && t' == TopDown(t, key)
      ensures InOrder(t') == InOrder(t) && if comp < 0 then t'.left.Leaf? else t'.right.Leaf?
      ensures links.Keys == old(links.Keys) && tree == old(tree)
    {
      hide Spells, Torn, Ascending, InOrder, AllAbove, AllBelow;
      ghost var a, m, b := End, t, End;
      var node := Tear(t);
      var left, right := node, node;
      while true
        invariant IsTorn(node, a, m, b) && m.Fork? && left == Last(a, node) && right == Last(b, node)
        invariant links.Keys == old(links.Keys) + {node} && tree == old(tree)
        invariant Parts(a, m, b, key) == Parts(End, t, End, key)
        invariant if comp < 0 then AllAbove(InOrder(m), key) else AllBelow(InOrder(m), key)
        decreases m
      {
        var stop;
        if comp < 0 {
          right, stop, m, b := SeekEndLeft(right, key, node, a, m, b);
        } else {
          left, stop, m, a := SeekEndRight(left, key, node, a, m, b);
        }
        if stop {
          break;
        }
      }
      t' := Assemble(node, left, right, a, m, b);
      TopDownOrder(t, key);
      TopDownEnds(t, key);
    }

    // ---------- the operations ----------

    ghost predicate Valid()
      reads this, links.Keys
    {
      Has(tree) && Ascending(InOrder(tree))
    }

    /** The linked elements, in order. */
    ghost function Contents(): seq<Node>
      reads this
    {
      InOrder(tree)
    }

    /** The elements are in ascending order, hence all different. */
    lemma InOrderly()
      requires Valid()
      ensures Ascending(Contents())
    {}

    /** The linked elements are those of the sequence. */
    lemma Linked()
      requires Valid()
      ensures forall n | n in Contents() :: n in links
      ensures forall n | n in links :: n in Contents()
    {
      InOrderNodes(tree);
    }

    lemma RootLinks(t: Tree)
      requires Has(t)
      ensures root == null <==> t.Leaf?
      ensures t.Fork? ==>
        && root == t.node && root in links
        && root.speLeft == Root(t.left) && root.speRight == Root(t.right)
    {
      hide Apart, Nodes;
    }

    /** SPLAY_INIT */
    constructor ()
      ensures Valid() && Contents() == [] && links == map[]
    {
      root := null;
      links, tree := map[], Leaf;
    }

    /** SPLAY_FIND */
    method Find(elm: Node) returns (r: Node?)
      requires Valid()
      modifies this, links.Keys
      ensures Valid() && Contents() == old(Contents()) && links.Keys == old(links.Keys)
      ensures r == Lookup(Contents(), elm.key)
      ensures if Contents() == [] then root == null else root != null && AtOrBeside(Contents(), elm.key, root)
      ensures tree == if old(tree).Leaf? then Leaf else TopDown(old(tree), elm.key)
    {
      hide Has, Ascending, InOrder, Splayed, AtOrBeside;
      RootLinks(tree);
      if root == null {
        InOrderLeaf();
        return null;
      }
      tree := Splay(elm, tree);
      SplayedLookup(tree, elm.key);
      SplayedBeside(tree, elm.key);
      InOrderEmpty(tree);
      RootLinks(tree);
      if Cmp(elm, root) == 0 {
        return root;
      }
      return null;
    }

    /** SPLAY_NEXT, for an element of the tree. */
    method Next(elm0: Node) returns (elm: Node?)
      requires Valid() && elm0 in Contents()
      modifies this, links.Keys
      ensures Valid() && Contents() == old(Contents()) && links.Keys == old(links.Keys)
      ensures elm == NodeAt(Contents(), IndexOf(Contents(), elm0) + 1) && root == elm0
      ensures old(tree).Fork? && tree == TopDown(old(tree), elm0.key)
    {
      hide Ascending, InOrder, Splayed, Apart, IndexOf, Nodes, TopDown;
      InOrderLeaf();
      elm := elm0;
      LookupHit(Contents(), elm0);
      tree := Splay(elm, tree);
      SplayedLookup(tree, elm.key);
      RootLinks(tree);
      InOrderFork(tree.left, tree.node, tree.right);
      IndexUnique(InOrder(tree.left), elm, InOrder(tree.right));
      if elm.speRight != null {
        elm := elm.speRight;
        ghost var s := tree.right;
        InOrderFork(s.left, s.node, s.right);
        while elm.speLeft != null
          invariant Valid() && s.Fork? && s.node == elm && Shape(links, s)
          invariant NodeAt(InOrder(s), 0) == NodeAt(InOrder(tree.right), 0)
          modifies {}
          decreases s
        {
          InOrderFork(s.left, s.node, s.right);
          elm := elm.speLeft;
          s := s.left;
          InOrderFork(s.left, s.node, s.right);
        }
        InOrderFork(s.left, s.node, s.right);
      } else {
        elm := null;
      }
    }

    /** SPLAY_MIN (val < 0) and SPLAY_MAX (val > 0) */
    method MinMax(val: int) returns (r: Node?)
      requires Valid() && val != 0
      modifies this, links.Keys
      ensures Valid() && Contents() == old(Contents()) && links.Keys == old(links.Keys)
      ensures r == NodeAt(Contents(), if val < 0 then 0 else |Contents()| - 1) && root == r
      ensures old(tree).Fork? ==> Contents() != [] && tree == TopDown(old(tree), Beyond(Contents(), val))
    {
      hide Has, Ascending, InOrder;
      InOrderLeaf();
      RootLinks(tree);
      if root == null {
        return null;
      }
      InOrderEmpty(tree);
      ghost var key := Beyond(Contents(), val);
      tree := SplayMinMax(val, key, tree);
      RootLinks(tree);
      InOrderFork(tree.left, tree.node, tree.right);
      return root;
    }

    /** SPLAY_INSERT: links elm in, unless an element with the same key is there already. */
    method Insert(elm: Node) returns (r: Node?)
      requires Valid()
      modifies this, links.Keys, elm
      ensures Valid()
      ensures r == Lookup(old(Contents()), elm.key) && root == if r == null then elm else r
      ensures r != null ==> Contents() == old(Contents()) && links.Keys == old(links.Keys)
      ensures r == null ==> links.Keys == old(links.Keys) + {elm} && elm !in old(links.Keys)
      ensures r == null ==> IsInserted(old(Contents()), elm, Contents())
      ensures tree == if old(tree).Leaf? then Fork(Leaf, elm, Leaf)
                      else var t := TopDown(old(tree), elm.key); if r != null then t else SplitAt(t, elm)
    {
      hide Ascending, InOrder, Splayed, Apart, Shape, IsInserted, Nodes, Has, TopDown;
      RootLinks(tree);
      Linked();
      if root == null {
        InOrderLeaf();
        Single(elm);
        LinkSingle(elm);
        return null;
      }
      tree := Splay(elm, tree);
      SplayedLookup(tree, elm.key);
      RootLinks(tree);
      Linked();
      var comp := Cmp(elm, root);
      if comp == 0 {
        return root;
      }
      SplitOrder(tree, elm);
      if comp < 0 {
        LinkBelowLeft(elm);
      } else {
        LinkBelowRight(elm);
      }
      return null;
    }

    lemma Single(elm: Node)
      ensures Ascending(InOrder(Fork(Leaf, elm, Leaf))) && IsInserted([], elm, InOrder(Fork(Leaf, elm, Leaf)))
    {
      assert InOrder(Fork(Leaf, elm, Leaf)) == [elm];
      assert [elm] == [][..0] + [elm] + [][0..];
    }

    /** SPLAY_INSERT into an empty tree. */
    method LinkSingle(elm: Node)
      requires Has(tree) && tree.Leaf?
      modifies this, elm
      ensures tree == Fork(Leaf, elm, Leaf) && Has(tree) && links.Keys == {elm} && root == elm
    {
      elm.speLeft, elm.speRight := null, null;
      root := elm;
      tree := Fork(Leaf, elm, Leaf);
      SpellsSingle(elm);
      links := map[elm := Cell(null, null)];
    }

    lemma SpellsSingle(elm: Node)
      ensures Spells(map[elm := Cell(null, null)], Fork(Leaf, elm, Leaf))
    {}

    /** SPLAY_INSERT when elm comes before the root. */
    method LinkBelowLeft(elm: Node)
      requires Has(tree) && tree.Fork? && elm !in links
      modifies this, links.Keys, elm
      ensures tree == Fork(old(tree.left), elm, Fork(Leaf, old(tree.node), old(tree.right)))
      ensures Has(tree) && links.Keys == old(links.Keys) + {elm} && root == elm
    {
      hide InOrder, Spells;
      ghost var l, n, r := tree.left, tree.node, tree.right;
      RootLinks(tree);
      SplitSpells(links, L, l, n, r, elm);
      elm.speLeft := root.speLeft;
      elm.speRight := root;
      root.speLeft := null;
      root := elm;
      links := links[elm := Cell(Root(l), n)][n := Cell(null, Root(r))];
      tree := Fork(l, elm, Fork(Leaf, n, r));
    }

    /** SPLAY_INSERT when elm comes after the root. */
    method LinkBelowRight(elm: Node)
      requires Has(tree) && tree.Fork? && elm !in links
      modifies this, links.Keys, elm
      ensures tree == Fork(Fork(old(tree.left), old(tree.node), Leaf), elm, old(tree.right))
      ensures Has(tree) && links.Keys == old(links.Keys) + {elm} && root == elm
    {
      hide InOrder, Spells;
      ghost var l, n, r := tree.left, tree.node, tree.right;
      RootLinks(tree);
      SplitSpells(links, R, r, n, l, elm);
      elm.speRight := root.speRight;
      elm.speLeft := root;
      root.speRight := null;
      root := elm;
      links := links[elm := Cell(n, Root(r))][n := Cell(Root(l), null)];
      tree := Fork(Fork(l, n, Leaf), elm, r);
    }

    /** SPLAY_REMOVE: takes out whatever has the key of elm. */
    method Remove(elm: Node) returns (r: Node?)
      requires Valid()
      modifies this, links.Keys
      ensures Valid()
      ensures var found := Lookup(old(Contents()), elm.key);
              if found == null then r == null && Contents() == old(Contents()) && links.Keys == old(links.Keys)
              else r == elm && IsRemoved(old(Contents()), found, Contents()) && links.Keys == old(links.Keys) - {found}
      // what comes to the root: a neighbour of a key that is not found, or else the element before the removed one
      ensures var s, found := old(Contents()), Lookup(old(Contents()), elm.key);
              if found == null then (s == [] && root == null) || (root != null && AtOrBeside(s, elm.key, root))
              else found in s && (IndexOf(s, found) > 0 ==> root == s[IndexOf(s, found) - 1])
      ensures tree == if old(tree).Leaf? then Leaf
                      else var t := TopDown(old(tree), elm.key); if r == null then t else WithoutRoot(t)
    {
      hide Ascending, InOrder, Splayed, Apart, Shape, IsRemoved, Nodes, Has, TopDown, IndexOf, AtOrBeside;
      RootLinks(tree);
      if root == null {
        InOrderLeaf();
        return null;
      }
      tree := Splay(elm, tree);
      SplayedLookup(tree, elm.key);
      SplayedBeside(tree, elm.key);
      RootLinks(tree);
      if Cmp(elm, root) == 0 {
        RootAt(tree);
        if root.speLeft == null {
          DropRoot();
        } else {
          JoinBelow(elm);
        }
        return elm;
      }
      return null;
    }

    /** The root comes right after its left subtree. */
    lemma RootAt(t: Tree)
      requires t.Fork? && Ascending(InOrder(t))
      ensures t.node in InOrder(t) && IndexOf(InOrder(t), t.node) == |InOrder(t.left)|
      ensures var l, i := InOrder(t.left), |InOrder(t.left)| - 1; NodeAt(l, i) == NodeAt(InOrder(t), i)
      ensures InOrder(t.left) == [] <==> t.left.Leaf?
    {
      hide Ascending, IndexOf;
      InOrderEmpty(t.left);
      IndexUnique(InOrder(t.left), t.node, InOrder(t.right));
    }

    lemma LastIsRoot(t: Tree)
      requires t.Fork? && t.right.Leaf?
      ensures NodeAt(InOrder(t), |InOrder(t)| - 1) == t.node
    {
      InOrderLeaf();
      InOrderFork(t.left, t.node, t.right);
    }

    /** SPLAY_REMOVE when the root has no left child. */
    method DropRoot()
      requires Valid() && tree.Fork? && tree.left.Leaf?
      modifies this
      ensures Valid() && tree == old(tree.right) && IsRemoved(old(Contents()), old(tree.node), Contents())
      ensures links.Keys == old(links.Keys) - {old(tree.node)}
    {
      hide Ascending, InOrder, IsRemoved, Spells, Nodes;
      RightOrder(tree);
      RootLinks(tree);
      SpellsParts(links, tree);
      RestrictSpells(links, tree);
      LeafSpells(links);
      links := Restrict(links, Nodes(tree.right));
      root := root.speRight;
      tree := tree.right;
    }

    /** What the left subtree is once the key of the root is splayed in it. */
    lemma JoinReady(t: Tree, u: Tree)
      requires Ascending(InOrder(t)) && t.Fork? && t.left.Fork?
      requires u == TopDown(t.left, t.node.key) && InOrder(u) == InOrder(t.left) && Splayed(u, t.node.key)
      ensures u.right.Leaf? && Nodes(u) == Nodes(t.left)
      ensures u.node == NodeAt(InOrder(t.left), |InOrder(t.left)| - 1)
      ensures WithoutRoot(t) == Fork(u.left, u.node, t.right)
      ensures Ascending(InOrder(WithoutRoot(t))) && IsRemoved(InOrder(t), t.node, InOrder(WithoutRoot(t)))
    {
      hide Ascending, InOrder, IsRemoved, Splayed, Nodes, TopDown;
      AscendingFork(t);
      NothingRight(u, t.node.key);
      LastIsRoot(u);
      JoinedOrder(t, u);
      SameNodes(u, t.left);
    }

    /** SPLAY_REMOVE when the root has a left child: the key is splayed again in the left subtree. */
    method JoinBelow(elm: Node)
      requires Valid() && tree.Fork? && tree.left.Fork? && tree.node.key == elm.key
      modifies this, links.Keys
      ensures Valid() && tree == WithoutRoot(old(tree)) && IsRemoved(old(Contents()), old(tree.node), Contents())
      ensures root == NodeAt(InOrder(old(tree.left)), |InOrder(old(tree.left))| - 1)
      ensures links.Keys == old(links.Keys) - {old(tree.node)}
    {
      hide Ascending, InOrder, IsRemoved, Splayed, Spells, Nodes, Shape, Apart, TopDown, NodeAt;
      ghost var was, l, r := tree, tree.left, tree.right;
      RootLinks(was);
      AscendingFork(was);
      SpellsParts(links, was);
      RestrictSpells(links, was);
      ghost var hr := Restrict(links, Nodes(r));
      var tmp := root.speRight;
      root := root.speLeft;
      links := Restrict(links, Nodes(l));
      ghost var u := Splay(elm, l);
      JoinReady(was, u);
      HangRight(tmp, u, r, hr);
      tree := Fork(u.left, u.node, r);
    }

    /** The saved right subtree becomes that of the new root. */
    method HangRight(tmp: Node?, ghost u: Tree, ghost r: Tree, ghost hr: Links)
      requires Has(u) && u.Fork? && u.right.Leaf?
      requires Agrees(hr) && Spells(hr, r) && tmp == Root(r) && Nodes(u) !! Nodes(r)
      modifies this, links.Keys
      ensures Has(Fork(u.left, u.node, r)) && links.Keys == old(links.Keys) + hr.Keys && tree == old(tree)
    {
      hide Shape, Apart, Nodes;
      RootLinks(u);
      JoinSpells(links, hr, u, r);
      root.speRight := tmp;
      links := (links + hr)[root := links[root].(right := tmp)];
    }

    lemma SameNodes(t: Tree, t': Tree)
      requires InOrder(t) == InOrder(t')
      ensures Nodes(t) == Nodes(t')
    {
      InOrderNodes(t);
      InOrderNodes(t');
    }
  }
}
