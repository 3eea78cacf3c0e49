/** The red-black tree: links that are assigned one by one, and the tree they spell out. */
module RbTree {
  import opened Elements
  import opened RbModel
  import opened RbSurgery
  import opened RbBalance
  import opened RbSearch

  ghost function Snap(s: set<Node>): Links
    reads s
  {
    map n | n in s :: Cell(n.left, n.right, n.parent, n.color)
  }

  class Head {
    var root: Node?
    ghost var links: Links  // the fields of the linked elements, as a map
    ghost var tree: Tree    // the tree they spell out, between operations
    ghost var turns: nat    // how many rotations there have been

    /** The fields of the elements spell out exactly the tree t. */
    ghost predicate Has(t: Tree)
      reads this`root, this`links, links.Keys
    {
      && (forall n | n in links :: Cell(n.left, n.right, n.parent, n.color) == links[n])
      && At(links, root, Top, t)
    }

    /** What the fields of an element hold, by its place in the tree. */
    lemma Read(k: Ctx, t: Tree)
      requires Has(Plug(k, t))
      ensures root == Root(Plug(k, t))
      ensures t.Fork? ==>
        && t.node in links
        && t.node.left == Root(t.left) && t.node.right == Root(t.right)
        && t.node.parent == Parent(k) && t.node.color == t.color
    {
      hide CtxNodes, CtxApart;
      AtPlug(links, root, k, t);
    }

    /** Assigning the colour of an element, wherever it stands in the tree. */
    method Recolor(elm: Node, color: Color, ghost k: Ctx, ghost t: Tree)
      requires Has(Plug(k, t)) && t.Fork? && t.node == elm
      modifies this`links, links.Keys
      ensures Has(Plug(k, t.(color := color))) && links.Keys == old(links.Keys)
      ensures InOrder(Plug(k, t.(color := color))) == InOrder(Plug(k, t))
    {
      hide At, Plug;
      PlugInOrder(k, t);
      PlugInOrder(k, t.(color := color));
      AtPlug(links, root, k, t);
      RecolorShape(links, root, k, t, color);
      elm.color := color;
      links := links[elm := links[elm].(color := color)];
      AtPlug(links, root, k, t.(color := color));
    }

    /** RB_ROTATE_LEFT: the links it assigns. */
    method TurnLeft(elm: Node) returns (tmp: Node)
      requires elm.right != null
      requires var y, b, p := elm.right, elm.right.left, elm.parent;
               elm != y && b != elm && b != y && (b != null ==> b != p) && p != elm && p != y
      modifies this`root, elm, elm.right, elm.right.left, elm.parent
      ensures tmp == old(elm.right) && root == if old(elm.parent) == null then tmp else old(root)
      ensures elm.left == old(elm.left) && elm.right == old(elm.right.left)
      ensures elm.parent == tmp && elm.color == old(elm.color)
      ensures tmp.left == elm && tmp.right == old(elm.right.right)
      ensures tmp.parent == old(elm.parent) && tmp.color == old(elm.right.color)
      ensures var b := old(elm.right.left);
              b != null ==>
                && b.left == old(elm.right.left.left) && b.right == old(elm.right.left.right)
                && b.parent == elm && b.color == old(elm.right.left.color)
      ensures var p := old(elm.parent);
              p != null ==>
                && p.left == (if old(elm.parent.left) == elm then tmp else old(elm.parent.left))
                && p.right == (if old(elm.parent.left) == elm then old(elm.parent.right) else tmp)
                && p.parent == old(elm.parent.parent) && p.color == old(elm.parent.color)
    {
      tmp := elm.right;
      elm.right := tmp.left;
      if elm.right != null {
        tmp.left.parent := elm;
      }
      tmp.parent := elm.parent;
      if tmp.parent != null {
        if elm == elm.parent.left {
          elm.parent.left := tmp;
        } else {
          elm.parent.right := tmp;
        }
      } else {
        root := tmp;
      }
      tmp.left := elm;
      elm.parent := tmp;
    }

    /** RB_ROTATE_LEFT in a tree, wherever elm stands in it. */
    method RotateLeft(elm: Node, ghost k: Ctx, ghost t: Tree) returns (tmp: Node, ghost t': Tree)
      requires Has(Plug(k, t)) && t.Fork? && t.node == elm && t.right.Fork?
      modifies this`root, this`links, this`turns, links.Keys
      ensures tmp == t.right.node && turns == old(turns) + 1
      ensures t' == Fork(Fork(t.left, elm, t.color, t.right.left), tmp, t.right.color, t.right.right)
      ensures Has(Plug(k, t')) && links.Keys == old(links.Keys) && InOrder(Plug(k, t')) == InOrder(Plug(k, t))
    {
      hide At, InOrder, Plug;
      ghost var a, b, c, y, d := t.left, t.right.left, t.right.right, t.right.node, t.right.color;
      ghost var h, r := links, root;
      AtPlug(links, root, k, t);
      RotateReady(links, root, k, L, a, elm, t.color, b, y, d, c);
      tmp := TurnLeft(elm);
      links := Snap(links.Keys);
      turns := turns + 1;
      assert Rotated(h, links, elm, L);
      t' := Fork(Fork(t.left, elm, t.color, t.right.left), tmp, t.right.color, t.right.right);
      RotateShape(h, links, r, k, L, a, elm, t.color, b, y, d, c);
      RotateInOrder(L, a, elm, t.color, b, y, d, c);
      AtPlug(links, root, k, t');
      PlugInOrder(k, t);
      PlugInOrder(k, t');
    }

    /** RB_ROTATE_RIGHT: the links it assigns. */
    method TurnRight(elm: Node) returns (tmp: Node)
      requires elm.left != null
      requires var y, b, p := elm.left, elm.left.right, elm.parent;
               elm != y && b != elm && b != y && (b != null ==> b != p) && p != elm && p != y
      modifies this`root, elm, elm.left, elm.left.right, elm.parent
      ensures tmp == old(elm.left) && root == if old(elm.parent) == null then tmp else old(root)
      ensures elm.right == old(elm.right) && elm.left == old(elm.left.right)
      ensures elm.parent == tmp && elm.color == old(elm.color)
      ensures tmp.right == elm && tmp.left == old(elm.left.left)
      ensures tmp.parent == old(elm.parent) && tmp.color == old(elm.left.color)
      ensures var b := old(elm.left.right);
              b != null ==>
                && b.left == old(elm.left.right.left) && b.right == old(elm.left.right.right)
                && b.parent == elm && b.color == old(elm.left.right.color)
      ensures var p := old(elm.parent);
              p != null ==>
                && p.left == (if old(elm.parent.left) == elm then tmp else old(elm.parent.left))
                && p.right == (if old(elm.parent.left) == elm then old(elm.parent.right) else tmp)
                && p.parent == old(elm.parent.parent) && p.color == old(elm.parent.color)
    {
      tmp := elm.left;
      elm.left := tmp.right;
      if elm.left != null {
        tmp.right.parent := elm;
      }
      tmp.parent := elm.parent;
      if tmp.parent != null {
        if elm == elm.parent.left {
          elm.parent.left := tmp;
        } else {
          elm.parent.right := tmp;
        }
      } else {
        root := tmp;
      }
      tmp.right := elm;
      elm.parent := tmp;
    }

    /** RB_ROTATE_RIGHT in a tree, wherever elm stands in it. */
    method RotateRight(elm: Node, ghost k: Ctx, ghost t: Tree) returns (tmp: Node, ghost t': Tree)
      requires Has(Plug(k, t)) && t.Fork? && t.node == elm && t.left.Fork?
      modifies this`root, this`links, this`turns, links.Keys
      ensures tmp == t.left.node && turns == old(turns) + 1
      ensures t' == Fork(t.left.left, tmp, t.left.color, Fork(t.left.right, elm, t.color, t.right))
      ensures Has(Plug(k, t')) && links.Keys == old(links.Keys) && InOrder(Plug(k, t')) == InOrder(Plug(k, t))
    {
      hide At, InOrder, Plug;
      ghost var a, b, c, y, d := t.right, t.left.right, t.left.left, t.left.node, t.left.color;
      ghost var h, r := links, root;
      AtPlug(links, root, k, t);
      RotateReady(links, root, k, R, a, elm, t.color, b, y, d, c);
      tmp := TurnRight(elm);
      links := Snap(links.Keys);
      turns := turns + 1;
      assert Rotated(h, links, elm, R);
      t' := Fork(t.left.left, tmp, t.left.color, Fork(t.left.right, elm, t.color, t.right));
      RotateShape(h, links, r, k, R, a, elm, t.color, b, y, d, c);
      RotateInOrder(R, a, elm, t.color, b, y, d, c);
      AtPlug(links, root, k, t');
      PlugInOrder(k, t);
      PlugInOrder(k, t');
    }

    /** What the fields of the parent hold. */
    lemma ReadUp(k: Ctx, t: Tree)
      requires Has(Plug(k, t)) && k.In? && (t.Fork? || k.sibling.Fork?)
      ensures k.node in links && k.node.parent == Parent(k.up) && k.node.color == k.color
      ensures k.side == L ==> k.node.left == Root(t) != k.node.right == Root(k.sibling)
      ensures k.side == R ==> k.node.right == Root(t) != k.node.left == Root(k.sibling)
    {
      hide CtxNodes, CtxApart, Nodes, Apart, Shape, CtxShape;
      Read(k.up, Join(k.side, t, k.node, k.color, k.sibling));
      AtPlug(links, root, k.up, Join(k.side, t, k.node, k.color, k.sibling));
      JoinNodes(k.side, t, k.node, k.color, k.sibling);
      ShapeFork(links, k.side, t, k.node, k.color, k.sibling, Parent(k.up));
      ShapeRoot(links, t, k.node);
      ShapeRoot(links, k.sibling, k.node);
    }

    /** RB_SET_BLACKRED on a parent and its parent. */
    method SetBlackRed(parent: Node, gparent: Node, ghost k: Ctx, ghost t: Tree) returns (ghost t': Tree)
      requires Has(Plug(k, t)) && k.In? && k.up.In? && k.node == parent && k.up.node == gparent
      modifies this`links, links.Keys
      ensures t' == Join(k.up.side, Join(k.side, t, parent, Black, k.sibling), gparent, Red, k.up.sibling)
      ensures Has(Plug(k.up.up, t')) && links.Keys == old(links.Keys)
      ensures InOrder(Plug(k.up.up, t')) == InOrder(Plug(k, t))
    {
      hide At, InOrder;
      ghost var p := Join(k.side, t, parent, k.color, k.sibling);
      Recolor(parent, Black, k.up, p);
      p := p.(color := Black);
      t' := Join(k.up.side, p, gparent, k.up.color, k.up.sibling);
      Recolor(gparent, Red, k.up.up, t');
      t' := t'.(color := Red);
    }

    /** The recolouring in RB_INSERT_COLOR when the uncle is red. */
    method BlackenUncle(uncle: Node, parent: Node, gparent: Node, ghost k: Ctx, ghost t: Tree) returns (ghost t': Tree)
      requires Has(Plug(k, t)) && k.In? && k.up.In? && k.node == parent && k.up.node == gparent
      requires k.up.sibling.Fork? && k.up.sibling.node == uncle
      modifies this`links, links.Keys
      ensures var u := k.up.sibling.(color := Black);
              t' == Join(k.up.side, Join(k.side, t, parent, Black, k.sibling), gparent, Red, u)
      ensures Has(Plug(k.up.up, t')) && links.Keys == old(links.Keys)
      ensures InOrder(Plug(k.up.up, t')) == InOrder(Plug(k, t))
    {
      hide At, InOrder;
      ghost var up, s, u := k.up.up, k.up.side, k.up.sibling;
      ghost var p := Join(k.side, t, parent, k.color, k.sibling);
      Recolor(uncle, Black, In(Other(s), up, gparent, k.up.color, p), u);
      ghost var k' := In(k.side, In(s, up, gparent, k.up.color, u.(color := Black)), parent, k.color, k.sibling);
      t' := SetBlackRed(parent, gparent, k', t);
    }

    /** The loop body of RB_INSERT_COLOR when the parent is the left child of the grandparent. */
    method FixInsertLeft(elm0: Node, parent0: Node, gparent: Node, ghost k: Ctx, ghost t: Tree)
      returns (elm: Node, ghost k': Ctx, ghost t': Tree)
      requires Has(Plug(k, t)) && RedRed(k, t) && t.node == elm0
      requires k.In? && k.color == Red && k.node == parent0
      requires k.up.In? && k.up.side == L && k.up.node == gparent
      modifies this`root, this`links, this`turns, links.Keys
      ensures Has(Plug(k', t')) && RedRed(k', t') && t'.node == elm
      ensures InOrder(Plug(k', t')) == InOrder(Plug(k, t)) && links.Keys == old(links.Keys)
      ensures if turns == old(turns) then k' == k.up.up else turns <= old(turns) + 2 && UnderBlack(k')
      ensures old(turns) <= turns
    {
      hide At, InOrder, Balanced, CtxBalanced, Blacks;
      elm := elm0;
      k', t' := k, t;
      var parent := parent0;
      ghost var up, cg, u := k.up.up, k.up.color, k.up.sibling;
      ghost var p := Join(k.side, t, parent, Red, k.sibling);
      ReadUp(k, t);
      ReadUp(k.up, p);
      Read(In(R, up, gparent, cg, p), u);
      var tmp := gparent.right;
      if tmp != null && tmp.color == Red {
        UncleRed(k.side, L, up, gparent, cg, u, parent, k.sibling, t);
        t' := BlackenUncle(tmp, parent, gparent, k, t);
        elm, k' := gparent, up;
        return;
      }
      if parent.right == elm {
        InnerChild(L, up, gparent, cg, u, parent, k.sibling, t.left, elm, t.right);
        tmp, t' := RotateLeft(parent, k.up, p);
        k' := In(L, k.up, elm, Red, t'.right);
        t' := t'.left;
        tmp := parent;
        parent := elm;
        elm := tmp;
      }
      OuterChild(L, up, gparent, cg, u, parent, k'.sibling, t');
      ghost var g := SetBlackRed(parent, gparent, k', t');
      tmp, g := RotateRight(gparent, up, g);
      k' := In(L, up, parent, Black, g.right);
    }

    /** The loop body of RB_INSERT_COLOR when the parent is the right child of the grandparent. */
    method FixInsertRight(elm0: Node, parent0: Node, gparent: Node, ghost k: Ctx, ghost t: Tree)
      returns (elm: Node, ghost k': Ctx, ghost t': Tree)
      requires Has(Plug(k, t)) && RedRed(k, t) && t.node == elm0
      requires k.In? && k.color == Red && k.node == parent0
      requires k.up.In? && k.up.side == R && k.up.node == gparent
      modifies this`root, this`links, this`turns, links.Keys
      ensures Has(Plug(k', t')) && RedRed(k', t') && t'.node == elm
      ensures InOrder(Plug(k', t')) == InOrder(Plug(k, t)) && links.Keys == old(links.Keys)
      ensures if turns == old(turns) then k' == k.up.up else turns <= old(turns) + 2 && UnderBlack(k')
      ensures old(turns) <= turns
    {
      hide At, InOrder, Balanced, CtxBalanced, Blacks;
      elm := elm0;
      k', t' := k, t;
      var parent := parent0;
      ghost var up, cg, u := k.up.up, k.up.color, k.up.sibling;
      ghost var p := Join(k.side, t, parent, Red, k.sibling);
      ReadUp(k, t);
      ReadUp(k.up, p);
      Read(In(L, up, gparent, cg, p), u);
      var tmp := gparent.left;
      if tmp != null && tmp.color == Red {
        UncleRed(k.side, R, up, gparent, cg, u, parent, k.sibling, t);
        t' := BlackenUncle(tmp, parent, gparent, k, t);
        elm, k' := gparent, up;
        return;
      }
      if parent.left == elm {
        InnerChild(R, up, gparent, cg, u, parent, k.sibling, t.right, elm, t.left);
        tmp, t' := RotateRight(parent, k.up, p);
        k' := In(R, k.up, elm, Red, t'.left);
        t' := t'.right;
        tmp := parent;
        parent := elm;
        elm := tmp;
      }
      OuterChild(R, up, gparent, cg, u, parent, k'.sibling, t');
      ghost var g := SetBlackRed(parent, gparent, k', t');
      tmp, g := RotateLeft(gparent, up, g);
      k' := In(R, up, parent, Black, g.left);
    }

    /** RB_INSERT_COLOR: elm is the red root of t; at most its parent is red too. */
    method InsertColor(elm0: Node, ghost k0: Ctx, ghost t0: Tree) returns (ghost tree: Tree)
      requires Has(Plug(k0, t0)) && RedRed(k0, t0) && t0.node == elm0
      modifies this`root, this`links, this`turns, links.Keys
      ensures Has(tree) && RedBlack(tree) && links.Keys == old(links.Keys)
      ensures InOrder(tree) == InOrder(Plug(k0, t0))
      ensures turns <= old(turns) + 2
    {
      hide At, InOrder, Balanced, Blacks;
      var elm := elm0;
      ghost var k, t := k0, t0;
      ReadAround(k, t);
      while elm.parent != null && elm.parent.color == Red
        invariant Has(Plug(k, t)) && links.Keys == old(links.Keys)
        invariant RedRed(k, t) && t.node == elm
        invariant elm.parent == Parent(k) && (k.In? ==> k.node.color == k.color)
        invariant InOrder(Plug(k, t)) == InOrder(Plug(k0, t0))
        invariant old(turns) <= turns <= old(turns) + 2 && (turns > old(turns) ==> UnderBlack(k))
        decreases if UnderBlack(k) then 0 else Depth(k)
      {
        ReadUp(k, t);
        ReadUp(k.up, Join(k.side, t, k.node, Red, k.sibling));
        assert Depth(k) == 2 + Depth(k.up.up);
        var parent := elm.parent;
        var gparent := parent.parent;
        if parent == gparent.left {
          elm, k, t := FixInsertLeft(elm, parent, gparent, k, t);
        } else {
          elm, k, t := FixInsertRight(elm, parent, gparent, k, t);
        }
        ReadAround(k, t);
      }
      tree := Plug(k, t);
      ConflictSettled(k, t);
      Read(Top, tree);
      assert Plug(Top, tree) == tree;
      Recolor(root, Black, Top, tree);
      tree := tree.(color := Black);
      assert Plug(Top, tree) == tree;
    }

    /** What the fields of an element and of its parent hold. */
    lemma ReadAround(k: Ctx, t: Tree)
      requires Has(Plug(k, t)) && t.Fork?
      ensures t.node in links && t.node.parent == Parent(k)
      ensures k.In? ==>
        && k.node in links && k.node.color == k.color
        && (k.node.left == t.node <==> k.side == L) && (k.node.right == t.node <==> k.side == R)
    {
      hide At;
      Read(k, t);
      if k.In? {
        ReadUp(k, t);
      }
    }

    /** The first part of the loop body of RB_REMOVE_COLOR: elm is a left child and its sibling is red. */
    method SiblingRedLeft(parent: Node, red: Node, ghost k: Ctx, ghost t: Tree) returns (tmp: Node, ghost k': Ctx)
      requires Has(Plug(k, t)) && LacksBlack(k, t) && !IsRed(t)
      requires k.In? && k.side == L && k.node == parent && IsRed(k.sibling) && k.sibling.node == red
      modifies this`root, this`links, this`turns, links.Keys
      ensures k'.In? && k'.side == L && k'.node == parent && k'.color == Red && k'.sibling.Fork?
      ensures turns == old(turns) + 1
      ensures k'.sibling.node == tmp && k'.sibling.color == Black
      ensures Has(Plug(k', t)) && LacksBlack(k', t) && links.Keys == old(links.Keys)
      ensures InOrder(Plug(k', t)) == InOrder(Plug(k, t))
    {
      hide At, InOrder, Balanced, CtxBalanced, Blacks, Blackened;
      ghost var w := k.sibling;
      SiblingIsNode(L, k.up, parent, k.color, w, t);
      ghost var t' := SetBlackRed(red, parent, In(L, In(R, k.up, parent, k.color, t), red, Red, w.right), w.left);
      tmp, t' := RotateLeft(parent, k.up, t');
      k' := In(L, In(L, k.up, red, Black, w.right), parent, Red, w.left);
      SiblingRed(L, k.up, parent, red, w.left, w.right, t);
      assert Plug(k', t) == Plug(k.up, t');
      ReadUp(k', t);
      tmp := parent.right;
    }

    /** Another part of it: the near nephew is red and the far nephew is not. */
    method NearNephewLeft(parent: Node, sibling: Node, ghost k: Ctx, ghost t: Tree) returns (tmp: Node, ghost k': Ctx)
      requires Has(Plug(k, t)) && LacksBlack(k, t)
      requires k.In? && k.side == L && k.node == parent && k.sibling.Fork? && k.sibling.node == sibling
      requires k.sibling.color == Black && IsRed(k.sibling.left) && !IsRed(k.sibling.right)
      modifies this`root, this`links, this`turns, links.Keys
      ensures turns == old(turns) + 1
      ensures k'.In? && k' == k.(sibling := k'.sibling) && k'.sibling.Fork? && k'.sibling.node == tmp
      ensures k'.sibling.color == Black && IsRed(k'.sibling.right)
      ensures Has(Plug(k', t)) && LacksBlack(k', t) && links.Keys == old(links.Keys)
      ensures InOrder(Plug(k', t)) == InOrder(Plug(k, t))
    {
      hide At, InOrder, Balanced, CtxBalanced, Blacks, Blackened;
      ghost var near, far := k.sibling.left, k.sibling.right;
      ghost var kw := In(R, k.up, parent, k.color, t);
      NearNephewRed(L, k.up, parent, k.color, near.left, near.node, near.right, sibling, far, t);
      Read(kw, k.sibling);
      var nephew := sibling.left;
      if nephew != null {
        Recolor(nephew, Black, In(L, kw, sibling, Black, far), near);
      }
      near := near.(color := Black);
      Recolor(sibling, Red, kw, Join(L, near, sibling, Black, far));
      ghost var w;
      nephew, w := RotateRight(sibling, kw, Join(L, near, sibling, Red, far));
      k' := k.(sibling := w);
      ReadUp(k', t);
      tmp := parent.right;
    }

    /** The last part of it: the far nephew is red. */
    method FarNephewLeft(parent: Node, tmp0: Node, ghost k: Ctx, ghost t: Tree) returns (ghost tree: Tree)
      requires Has(Plug(k, t)) && LacksBlack(k, t) && !IsRed(t)
      requires k.In? && k.side == L && k.node == parent && k.sibling.Fork? && k.sibling.node == tmp0
      requires k.sibling.color == Black && IsRed(k.sibling.right)
      modifies this`root, this`links, this`turns, links.Keys
      ensures Has(tree) && RedBlack(tree) && links.Keys == old(links.Keys)
      ensures turns == old(turns) + 1
      ensures InOrder(tree) == InOrder(Plug(k, t))
    {
      hide At, InOrder, Balanced, CtxBalanced, Blacks;
      var tmp := tmp0;
      ghost var near, far, c := k.sibling.left, k.sibling.right, k.color;
      ghost var kw := In(R, k.up, parent, c, t);
      FarNephewRed(L, k.up, parent, c, near, tmp, far, t);
      ReadUp(k, t);
      Recolor(tmp, parent.color, kw, k.sibling);
      ghost var w := Join(L, near, tmp, c, far);
      Recolor(parent, Black, k.up, Join(L, t, parent, c, w));
      kw := In(R, k.up, parent, Black, t);
      Read(kw, w);
      if tmp.right != null {
        Recolor(tmp.right, Black, In(R, kw, tmp, c, near), far);
      }
      tmp, tree := RotateLeft(parent, k.up, Join(L, t, parent, Black, Join(L, near, tmp, c, Blackened(far))));
      tree := Plug(k.up, tree);
    }

    /** The rest of it, from where the sibling is black. */
    method FixBlackSiblingLeft(parent0: Node, tmp0: Node, ghost k: Ctx, ghost t: Tree)
      returns (elm: Node?, parent: Node?, done: bool, ghost k': Ctx, ghost t': Tree)
      requires Has(Plug(k, t)) && LacksBlack(k, t) && !IsRed(t)
      requires k.In? && k.side == L && k.node == parent0
      requires k.sibling.Fork? && k.sibling.node == tmp0 && k.sibling.color == Black
      modifies this`root, this`links, this`turns, links.Keys
      ensures Has(Plug(k', t')) && LacksBlack(k', t') && links.Keys == old(links.Keys)
      ensures InOrder(Plug(k', t')) == InOrder(Plug(k, t)) && elm == Root(t')
      ensures if done then k'.Top? && turns <= old(turns) + 2
              else parent == Parent(k') && turns == old(turns) && k' == k.up && t'.Fork? && t'.color == k.color
    {
      hide At, InOrder, Balanced, CtxBalanced, Blacks, Blackened;
      var tmp := tmp0;
      parent, done, k' := parent0, false, k;
      ghost var w := k.sibling;
      ghost var kw := In(R, k.up, parent, k.color, t);
      Read(kw, w);
      Read(In(L, kw, tmp, Black, w.right), w.left);
      Read(In(R, kw, tmp, Black, w.left), w.right);
      if (tmp.left == null || tmp.left.color == Black) && (tmp.right == null || tmp.right.color == Black) {
        NephewsBlack(L, k.up, parent, k.color, w, t);
        Recolor(tmp, Red, kw, w);
        t' := Join(L, t, parent, k.color, w.(color := Red));
        k' := k.up;
        elm := parent;
        Read(k', t');
        parent := elm.parent;
      } else {
        if tmp.right == null || tmp.right.color == Black {
          tmp, k' := NearNephewLeft(parent, tmp, k, t);
        }
        t' := FarNephewLeft(parent, tmp, k', t);
        k' := Top;
        Read(Top, t');
        WholeLacks(t');
        elm := root;
        done := true;
      }
    }

    /** The loop body of RB_REMOVE_COLOR when elm is the left child of the parent. */
    method FixRemoveLeft(parent0: Node, elm0: Node?, ghost k: Ctx, ghost t: Tree)
      returns (elm: Node?, parent: Node?, done: bool, ghost k': Ctx, ghost t': Tree)
      requires Has(Plug(k, t)) && LacksBlack(k, t) && !IsRed(t) && Root(t) == elm0
      requires k.In? && k.side == L && k.node == parent0
      modifies this`root, this`links, this`turns, links.Keys
      ensures Has(Plug(k', t')) && LacksBlack(k', t') && links.Keys == old(links.Keys)
      ensures InOrder(Plug(k', t')) == InOrder(Plug(k, t)) && elm == Root(t')
      ensures if done then k'.Top? && turns <= old(turns) + 3
              else parent == Parent(k') &&
                   ((turns == old(turns) && k' == k.up) || (turns == old(turns) + 1 && IsRed(t')))
    {
      hide At, InOrder, Balanced, CtxBalanced, Blacks, Blackened;
      SiblingIsNode(L, k.up, parent0, k.color, k.sibling, t);
      ReadUp(k, t);
      Read(In(R, k.up, parent0, k.color, t), k.sibling);
      var tmp := parent0.right;
      if tmp.color == Red {
        tmp, k' := SiblingRedLeft(parent0, tmp, k, t);
        elm, parent, done, k', t' := FixBlackSiblingLeft(parent0, tmp, k', t);
      } else {
        elm, parent, done, k', t' := FixBlackSiblingLeft(parent0, tmp, k, t);
      }
    }

    /** The first part of the loop body of RB_REMOVE_COLOR: elm is a right child and its sibling is red. */
    method SiblingRedRight(parent: Node, red: Node, ghost k: Ctx, ghost t: Tree) returns (tmp: Node, ghost k': Ctx)
      requires Has(Plug(k, t)) && LacksBlack(k, t) && !IsRed(t)
      requires k.In? && k.side == R && k.node == parent && IsRed(k.sibling) && k.sibling.node == red
      modifies this`root, this`links, this`turns, links.Keys
      ensures k'.In? && k'.side == R && k'.node == parent && k'.color == Red && k'.sibling.Fork?
      ensures turns == old(turns) + 1
      ensures k'.sibling.node == tmp && k'.sibling.color == Black
      ensures Has(Plug(k', t)) && LacksBlack(k', t) && links.Keys == old(links.Keys)
      ensures InOrder(Plug(k', t)) == InOrder(Plug(k, t))
    {
      hide At, InOrder, Balanced, CtxBalanced, Blacks, Blackened;
      ghost var w := k.sibling;
      SiblingIsNode(R, k.up, parent, k.color, w, t);
      ghost var t' := SetBlackRed(red, parent, In(R, In(L, k.up, parent, k.color, t), red, Red, w.left), w.right);
      tmp, t' := RotateRight(parent, k.up, t');
      k' := In(R, In(R, k.up, red, Black, w.left), parent, Red, w.right);
      SiblingRed(R, k.up, parent, red, w.right, w.left, t);
      assert Plug(k', t) == Plug(k.up, t');
      ReadUp(k', t);
      tmp := parent.left;
    }

    /** Another part of it: the near nephew is red and the far nephew is not. */
    method NearNephewRight(parent: Node, sibling: Node, ghost k: Ctx, ghost t: Tree) returns (tmp: Node, ghost k': Ctx)
      requires Has(Plug(k, t)) && LacksBlack(k, t)
      requires k.In? && k.side == R && k.node == parent && k.sibling.Fork? && k.sibling.node == sibling
      requires k.sibling.color == Black && IsRed(k.sibling.right) && !IsRed(k.sibling.left)
      modifies this`root, this`links, this`turns, links.Keys
      ensures turns == old(turns) + 1
      ensures k'.In? && k' == k.(sibling := k'.sibling) && k'.sibling.Fork? && k'.sibling.node == tmp
      ensures k'.sibling.color == Black && IsRed(k'.sibling.left)
      ensures Has(Plug(k', t)) && LacksBlack(k', t) && links.Keys == old(links.Keys)
      ensures InOrder(Plug(k', t)) == InOrder(Plug(k, t))
    {
      hide At, InOrder, Balanced, CtxBalanced, Blacks, Blackened;
      ghost var near, far := k.sibling.right, k.sibling.left;
      ghost var kw := In(L, k.up, parent, k.color, t);
      NearNephewRed(R, k.up, parent, k.color, near.right, near.node, near.left, sibling, far, t);
      Read(kw, k.sibling);
      var nephew := sibling.right;
      if nephew != null {
        Recolor(nephew, Black, In(R, kw, sibling, Black, far), near);
      }
      near := near.(color := Black);
      Recolor(sibling, Red, kw, Join(R, near, sibling, Black, far));
      ghost var w;
      nephew, w := RotateLeft(sibling, kw, Join(R, near, sibling, Red, far));
      k' := k.(sibling := w);
      ReadUp(k', t);
      tmp := parent.left;
    }

    /** The last part of it: the far nephew is red. */
    method FarNephewRight(parent: Node, tmp0: Node, ghost k: Ctx, ghost t: Tree) returns (ghost tree: Tree)
      requires Has(Plug(k, t)) && LacksBlack(k, t) && !IsRed(t)
      requires k.In? && k.side == R && k.node == parent && k.sibling.Fork? && k.sibling.node == tmp0
      requires k.sibling.color == Black && IsRed(k.sibling.left)
      modifies this`root, this`links, this`turns, links.Keys
      ensures Has(tree) && RedBlack(tree) && links.Keys == old(links.Keys)
      ensures turns == old(turns) + 1
      ensures InOrder(tree) == InOrder(Plug(k, t))
    {
      hide At, InOrder, Balanced, CtxBalanced, Blacks;
      var tmp := tmp0;
      ghost var near, far, c := k.sibling.right, k.sibling.left, k.color;
      ghost var kw := In(L, k.up, parent, c, t);
      FarNephewRed(R, k.up, parent, c, near, tmp, far, t);
      ReadUp(k, t);
      Recolor(tmp, parent.color, kw, k.sibling);
      ghost var w := Join(R, near, tmp, c, far);
      Recolor(parent, Black, k.up, Join(R, t, parent, c, w));
      kw := In(L, k.up, parent, Black, t);
      Read(kw, w);
      if tmp.left != null {
        Recolor(tmp.left, Black, In(L, kw, tmp, c, near), far);
      }
      tmp, tree := RotateRight(parent, k.up, Join(R, t, parent, Black, Join(R, near, tmp, c, Blackened(far))));
      tree := Plug(k.up, tree);
    }

    /** The rest of it, from where the sibling is black. */
    method FixBlackSiblingRight(parent0: Node, tmp0: Node, ghost k: Ctx, ghost t: Tree)
      returns (elm: Node?, parent: Node?, done: bool, ghost k': Ctx, ghost t': Tree)
      requires Has(Plug(k, t)) && LacksBlack(k, t) && !IsRed(t)
      requires k.In? && k.side == R && k.node == parent0
      requires k.sibling.Fork? && k.sibling.node == tmp0 && k.sibling.color == Black
      modifies this`root, this`links, this`turns, links.Keys
      ensures Has(Plug(k', t')) && LacksBlack(k', t') && links.Keys == old(links.Keys)
      ensures InOrder(Plug(k', t')) == InOrder(Plug(k, t)) && elm == Root(t')
      ensures if done then k'.Top? && turns <= old(turns) + 2
              else parent == Parent(k') && turns == old(turns) && k' == k.up && t'.Fork? && t'.color == k.color
    {
      hide At, InOrder, Balanced, CtxBalanced, Blacks, Blackened;
      var tmp := tmp0;
      parent, done, k' := parent0, false, k;
      ghost var w := k.sibling;
      ghost var kw := In(L, k.up, parent, k.color, t);
      Read(kw, w);
      Read(In(L, kw, tmp, Black, w.right), w.left);
      Read(In(R, kw, tmp, Black, w.left), w.right);
      if (tmp.left == null || tmp.left.color == Black) && (tmp.right == null || tmp.right.color == Black) {
        NephewsBlack(R, k.up, parent, k.color, w, t);
        Recolor(tmp, Red, kw, w);
        t' := Join(R, t, parent, k.color, w.(color := Red));
        k' := k.up;
        elm := parent;
        Read(k', t');
        parent := elm.parent;
      } else {
        if tmp.left == null || tmp.left.color == Black {
          tmp, k' := NearNephewRight(parent, tmp, k, t);
        }
        t' := FarNephewRight(parent, tmp, k', t);
        k' := Top;
        Read(Top, t');
        WholeLacks(t');
        elm := root;
        done := true;
      }
    }

    /** The loop body of RB_REMOVE_COLOR when elm is the right child of the parent. */
    method FixRemoveRight(parent0: Node, elm0: Node?, ghost k: Ctx, ghost t: Tree)
      returns (elm: Node?, parent: Node?, done: bool, ghost k': Ctx, ghost t': Tree)
      requires Has(Plug(k, t)) && LacksBlack(k, t) && !IsRed(t) && Root(t) == elm0
      requires k.In? && k.side == R && k.node == parent0
      modifies this`root, this`links, this`turns, links.Keys
      ensures Has(Plug(k', t')) && LacksBlack(k', t') && links.Keys == old(links.Keys)
      ensures InOrder(Plug(k', t')) == InOrder(Plug(k, t)) && elm == Root(t')
      ensures if done then k'.Top? && turns <= old(turns) + 3
              else parent == Parent(k') &&
                   ((turns == old(turns) && k' == k.up) || (turns == old(turns) + 1 && IsRed(t')))
    {
      hide At, InOrder, Balanced, CtxBalanced, Blacks, Blackened;
      SiblingIsNode(R, k.up, parent0, k.color, k.sibling, t);
      ReadUp(k, t);
      Read(In(L, k.up, parent0, k.color, t), k.sibling);
      var tmp := parent0.left;
      if tmp.color == Red {
        tmp, k' := SiblingRedRight(parent0, tmp, k, t);
        elm, parent, done, k', t' := FixBlackSiblingRight(parent0, tmp, k', t);
      } else {
        elm, parent, done, k', t' := FixBlackSiblingRight(parent0, tmp, k, t);
      }
    }

    /** One round of the loop of RB_REMOVE_COLOR. */
    method FixRemove(parent0: Node?, elm0: Node?, ghost k: Ctx, ghost t: Tree)
      returns (elm: Node?, parent: Node?, done: bool, ghost k': Ctx, ghost t': Tree)
      requires Has(Plug(k, t)) && LacksBlack(k, t) && !IsRed(t) && elm0 == Root(t)
      requires k.In? && parent0 == Parent(k)
      modifies this`root, this`links, this`turns, links.Keys
      ensures Has(Plug(k', t')) && LacksBlack(k', t') && links.Keys == old(links.Keys)
      ensures InOrder(Plug(k', t')) == InOrder(Plug(k, t)) && elm == Root(t')
      ensures if done then k'.Top? && turns <= old(turns) + 3
              else parent == Parent(k') &&
                   ((turns == old(turns) && k' == k.up) || (turns == old(turns) + 1 && IsRed(t')))
    {
      hide At, InOrder, Balanced, CtxBalanced, Blacks;
      SiblingIsNode(k.side, k.up, parent0, k.color, k.sibling, t);
      ReadUp(k, t);
      if parent0.left == elm0 {
        elm, parent, done, k', t' := FixRemoveLeft(parent0, elm0, k, t);
      } else {
        elm, parent, done, k', t' := FixRemoveRight(parent0, elm0, k, t);
      }
    }

    /** RB_REMOVE_COLOR: elm, possibly null, is the root of a subtree that lacks a black node. */
    method RemoveColor(parent0: Node?, elm0: Node?, ghost k0: Ctx, ghost t0: Tree) returns (ghost tree: Tree)
      requires Has(Plug(k0, t0)) && LacksBlack(k0, t0) && elm0 == Root(t0) && parent0 == Parent(k0)
      modifies this`root, this`links, this`turns, links.Keys
      ensures Has(tree) && RedBlack(tree) && links.Keys == old(links.Keys)
      ensures InOrder(tree) == InOrder(Plug(k0, t0))
      ensures turns <= old(turns) + 3
    {
      hide At, InOrder, Balanced, CtxBalanced, Blacks, LacksBlack, RedBlack, Plug;
      var elm, parent := elm0, parent0;
      ghost var k, t := k0, t0;
      ReadTop(k, t);
      while (elm == null || elm.color == Black) && elm != root
        invariant Has(Plug(k, t)) && LacksBlack(k, t) && links.Keys == old(links.Keys)
        invariant elm == Root(t) && parent == Parent(k)
        invariant t.Fork? ==> elm.color == t.color
        invariant elm == root <==> k.Top?
        invariant InOrder(Plug(k, t)) == InOrder(Plug(k0, t0))
        invariant turns == old(turns) || (turns == old(turns) + 1 && IsRed(t))
        decreases if IsRed(t) then 0 else Depth(k)
      {
        var done: bool;
        elm, parent, done, k, t := FixRemove(parent, elm, k, t);
        ReadTop(k, t);
        if done {
          break;
        }
      }
      RedSettles(k, t);
      if elm != null {
        Recolor(elm, Black, k, t);
      }
      tree := Plug(k, Blackened(t));
    }

    /** The element is the root exactly if nothing is above it. */
    lemma ReadTop(k: Ctx, t: Tree)
      requires Has(Plug(k, t))
      ensures Root(t) == root <==> k.Top?
      ensures t.Fork? ==> t.node in links && t.node.color == t.color
    {
      hide Shape, CtxShape, CtxApart, Apart;
      Read(k, t);
      AtPlug(links, root, k, t);
      ShapeRoot(links, t, Parent(k));
      PlugRoot(k, t);
    }

    /** Rotating at an element and then back at the one that replaced it restores every link. */
    method RotateThereAndBack(elm: Node, ghost k: Ctx, ghost t: Tree)
      requires Has(Plug(k, t)) && t.Fork? && t.node == elm && t.right.Fork?
      modifies this, links.Keys
      ensures root == old(root) && links == old(links)
      ensures forall n | n in links ::
        n.left == old(n.left) && n.right == old(n.right) && n.parent == old(n.parent) && n.color == old(n.color)
    {
      hide At, InOrder, Plug;
      ghost var h, r := links, root;
      var tmp, t' := RotateLeft(elm, k, t);
      var back, t'' := RotateRight(tmp, k, t');
      assert t'' == t;
      AtUnique(h, links, r, root, Plug(k, t));
    }

    // ---------- the operations ----------

    ghost predicate Valid()
      reads this, links.Keys
    {
      Has(tree) && RedBlack(tree) && Ascending(InOrder(tree))
    }

    /** The linked elements, in order. */
    ghost function Contents(): seq<Node>
      reads this
    {
      InOrder(tree)
    }

    /** The linked elements are those of the sequence. */
    lemma Linked()
      requires Valid()
      ensures forall n | n in Contents() :: n in links
      ensures forall n | n in links :: n in Contents()
    {
      InOrderNodes(tree);
    }

    /** The elements are in ascending order, hence all different. */
    lemma InOrderly()
      requires Valid()
      ensures Ascending(Contents())
    {}

    /** RB_INIT */
    constructor ()
      ensures Valid() && Contents() == [] && links == map[]
    {
      root := null;
      links, tree, turns := map[], Leaf, 0;
    }

    /** RB_FIND */
    method Find(elm: Node) returns (r: Node?, ghost comparisons: nat)
      requires Valid()
      ensures r == Lookup(Contents(), elm.key)
      ensures comparisons <= Height(tree)
    {
      hide At, Balanced, Ascending, InOrder, Before, After, AllBelow, AllAbove;
      var tmp := root;
      ghost var k, t := Top, tree;
      comparisons := 0;
      Outset();
      while tmp != null
        invariant Plug(k, t) == tree && Between(k, elm.key) && tmp == Root(t)
        invariant comparisons + Height(t) <= Height(tree)
        decreases t
      {
        Read(k, t);
        var comp := Cmp(elm, tmp);
        comparisons := comparisons + 1;
        if comp < 0 {
          StepLeft(k, t, elm.key);
          tmp := tmp.left;
          k, t := In(L, k, t.node, t.color, t.right), t.left;
        } else if comp > 0 {
          StepRight(k, t, elm.key);
          tmp := tmp.right;
          k, t := In(R, k, t.node, t.color, t.left), t.right;
        } else {
          FoundHere(k, t);
          return tmp, comparisons;
        }
      }
      NotFound(k, elm.key);
      return null, comparisons;
    }

    /** RB_NFIND */
    method NFind(elm: Node) returns (r: Node?, ghost comparisons: nat)
      requires Valid()
      ensures IsCeiling(Contents(), elm.key, r)
      ensures comparisons <= Height(tree)
    {
      hide At, Balanced, Ascending, InOrder, Before, AllBelow, AllAbove, IsCeiling;
      var tmp := root;
      var res: Node? := null;
      ghost var k, t := Top, tree;
      comparisons := 0;
      Outset();
      while tmp != null
        invariant Plug(k, t) == tree && Between(k, elm.key) && tmp == Root(t)
        invariant res == NodeAt(After(k), 0)
        invariant comparisons + Height(t) <= Height(tree)
        decreases t
      {
        Read(k, t);
        var comp := Cmp(elm, tmp);
        comparisons := comparisons + 1;
        if comp < 0 {
          StepLeft(k, t, elm.key);
          res := tmp;
          tmp := tmp.left;
          k, t := In(L, k, t.node, t.color, t.right), t.left;
        } else if comp > 0 {
          StepRight(k, t, elm.key);
          tmp := tmp.right;
          k, t := In(R, k, t.node, t.color, t.left), t.right;
        } else {
          FoundHere(k, t);
          return tmp, comparisons;
        }
      }
      NotFound(k, elm.key);
      return res, comparisons;
    }

    /** RB_MINMAX: the first element for a negative val, the last one otherwise. */
    method MinMax(val: int) returns (parent: Node?)
      requires Valid()
      ensures parent == NodeAt(Contents(), if val < 0 then 0 else |Contents()| - 1)
    {
      hide At, Balanced, Ascending;
      var tmp := root;
      parent := null;
      ghost var k, t := Top, tree;
      Outset();
      while tmp != null
        invariant Plug(k, t) == tree && tmp == Root(t) && parent == Parent(k)
        invariant if val < 0 then Before(k) == [] && parent == NodeAt(After(k), 0)
                  else After(k) == [] && parent == NodeAt(Before(k), |Before(k)| - 1)
        decreases t
      {
        Read(k, t);
        parent := tmp;
        if val < 0 {
          tmp := tmp.left;
          k, t := In(L, k, t.node, t.color, t.right), t.left;
        } else {
          tmp := tmp.right;
          k, t := In(R, k, t.node, t.color, t.left), t.right;
        }
      }
      PlugInOrder(k, t);
    }

    /** Where every descent starts. */
    lemma Outset()
      requires Valid()
      ensures root == Root(tree) && Plug(Top, tree) == tree
      ensures forall key :: Between(Top, key)
    {
      Read(Top, tree);
    }

    /** The first part of RB_NEXT: down the right subtree. */
    method NextBelow(elm0: Node, ghost k0: Ctx, ghost t0: Tree) returns (elm: Node)
      requires Has(Plug(k0, t0)) && t0.Fork? && t0.node == elm0 && t0.right.Fork?
      ensures var s, i := InOrder(Plug(k0, t0)), |Before(k0)| + |InOrder(t0.left)| + 1;
              elm == NodeAt(s, i)
    {
      hide At, InOrder;
      ghost var k, t := k0, t0;
      Read(k, t);
      elm := elm0.right;
      k, t := In(R, k, t.node, t.color, t.left), t.right;
      Read(k, t);
      while elm.left != null
        invariant Plug(k, t) == Plug(k0, t0) && t.Fork? && elm == t.node && elm.left == Root(t.left)
        invariant |Before(k)| == |Before(k0)| + |InOrder(t0.left)| + 1
        decreases t
      {
        elm := elm.left;
        k, t := In(L, k, t.node, t.color, t.right), t.left;
        Read(k, t);
      }
      PlugInOrder(k, t);
      InOrderFork(t);
      InOrderLeaf();
    }

    /** The second part of RB_NEXT: up to the first ancestor on the other side. */
    method NextAbove(elm0: Node, ghost k0: Ctx, ghost t0: Tree) returns (elm: Node?)
      requires Has(Plug(k0, t0)) && t0.Fork? && t0.node == elm0
      ensures elm == NodeAt(After(k0), 0)
    {
      hide At, InOrder;
      elm := elm0;
      ghost var k, t := k0, t0;
      ReadAround(k, t);
      if elm.parent != null && elm == elm.parent.left {
        elm := elm.parent;
      } else {
        while elm.parent != null && elm == elm.parent.right
          invariant Plug(k, t) == Plug(k0, t0) && t.Fork? && elm == t.node && elm.parent == Parent(k)
          invariant k.In? ==> (k.node.left == elm <==> k.side == L) && (k.node.right == elm <==> k.side == R)
          invariant After(k) == After(k0)
          decreases Depth(k)
        {
          elm := elm.parent;
          k, t := k.up, Join(k.side, t, k.node, k.color, k.sibling);
          ReadAround(k, t);
        }
        elm := elm.parent;
      }
    }

    /** RB_NEXT */
    method Next(elm0: Node) returns (elm: Node?)
      requires Valid() && elm0 in Contents()
      ensures elm == NodeAt(Contents(), IndexOf(Contents(), elm0) + 1)
    {
      hide At, Balanced, Ascending, IndexOf, InOrder, Before, After;
      ghost var k, t := Locate(Top, tree, elm0);
      Outset();
      IndexHere(k, t);
      PlugInOrder(k, t);
      InOrderFork(t);
      Read(k, t);
      if elm0.right != null {
        elm := NextBelow(elm0, k, t);
      } else {
        InOrderLeaf();
        elm := NextAbove(elm0, k, t);
      }
    }

    /** The first part of RB_PREV: down the left subtree. */
    method PrevBelow(elm0: Node, ghost k0: Ctx, ghost t0: Tree) returns (elm: Node)
      requires Has(Plug(k0, t0)) && t0.Fork? && t0.node == elm0 && t0.left.Fork?
      ensures var s, i := InOrder(Plug(k0, t0)), |After(k0)| + |InOrder(t0.right)| + 1;
              elm == NodeAt(s, |s| - 1 - i)
    {
      hide At, InOrder;
      ghost var k, t := k0, t0;
      Read(k, t);
      elm := elm0.left;
      k, t := In(L, k, t.node, t.color, t.right), t.left;
      Read(k, t);
      while elm.right != null
        invariant Plug(k, t) == Plug(k0, t0) && t.Fork? && elm == t.node && elm.right == Root(t.right)
        invariant |After(k)| == |After(k0)| + |InOrder(t0.right)| + 1
        decreases t
      {
        elm := elm.right;
        k, t := In(R, k, t.node, t.color, t.left), t.right;
        Read(k, t);
      }
      PlugInOrder(k, t);
      InOrderFork(t);
      InOrderLeaf();
    }

    /** The second part of RB_PREV: up to the first ancestor on the other side. */
    method PrevAbove(elm0: Node, ghost k0: Ctx, ghost t0: Tree) returns (elm: Node?)
      requires Has(Plug(k0, t0)) && t0.Fork? && t0.node == elm0
      ensures elm == NodeAt(Before(k0), |Before(k0)| - 1)
    {
      hide At, InOrder;
      elm := elm0;
      ghost var k, t := k0, t0;
      ReadAround(k, t);
      if elm.parent != null && elm == elm.parent.right {
        elm := elm.parent;
      } else {
        while elm.parent != null && elm == elm.parent.left
          invariant Plug(k, t) == Plug(k0, t0) && t.Fork? && elm == t.node && elm.parent == Parent(k)
          invariant k.In? ==> (k.node.left == elm <==> k.side == L) && (k.node.right == elm <==> k.side == R)
          invariant Before(k) == Before(k0)
          decreases Depth(k)
        {
          elm := elm.parent;
          k, t := k.up, Join(k.side, t, k.node, k.color, k.sibling);
          ReadAround(k, t);
        }
        elm := elm.parent;
      }
    }

    /** RB_PREV */
    method Prev(elm0: Node) returns (elm: Node?)
      requires Valid() && elm0 in Contents()
      ensures elm == NodeAt(Contents(), IndexOf(Contents(), elm0) - 1)
    {
      hide At, Balanced, Ascending, IndexOf, InOrder, After, Before;
      ghost var k, t := Locate(Top, tree, elm0);
      Outset();
      IndexHere(k, t);
      PlugInOrder(k, t);
      InOrderFork(t);
      Read(k, t);
      if elm0.left != null {
        elm := PrevBelow(elm0, k, t);
      } else {
        InOrderLeaf();
        elm := PrevAbove(elm0, k, t);
      }
    }

    /** Linking a new red leaf in, as RB_INSERT does below the last node of its descent. */
    method Attach(elm: Node, parent: Node?, comp: int, ghost k: Ctx)
      requires Has(Plug(k, Leaf)) && elm !in links && parent == Parent(k) && (k.In? ==> (comp < 0 <==> k.side == L))
      modifies this`root, this`links, links.Keys, elm
      ensures Has(Plug(k, Fork(Leaf, elm, Red, Leaf))) && links.Keys == old(links.Keys) + {elm}
    {
      hide Plug, Shape, CtxShape, Apart, CtxApart, Nodes, CtxNodes;
      ghost var h, r := links, root;
      AtPlug(h, r, k, Leaf);
      CtxShapeParent(h, k, null, r);
      elm.parent := parent;
      elm.left, elm.right := null, null;
      elm.color := Red;
      if parent != null {
        if comp < 0 {
          parent.left := elm;
        } else {
          parent.right := elm;
        }
      } else {
        root := elm;
      }
      links := Snap(links.Keys + {elm});
      AttachShape(h, links, r, k, elm);
      AtPlug(links, root, k, Fork(Leaf, elm, Red, Leaf));
    }

    /** RB_INSERT: links elm in, unless an element with the same key is there already. */
    method Insert(elm: Node) returns (r: Node?, ghost comparisons: nat)
      requires Valid()
      modifies this, links.Keys, elm
      ensures Valid()
      ensures r == Lookup(old(Contents()), elm.key)
      ensures r != null ==> unchanged(this) && unchanged(old(links.Keys)) && unchanged(elm)
      ensures r == null ==> links.Keys == old(links.Keys) + {elm} && elm !in old(links.Keys)
      ensures r == null ==> IsInserted(old(Contents()), elm, Contents())
      ensures comparisons <= Height(old(tree)) && turns <= old(turns) + 2
    {
      hide At, Balanced, Ascending, InOrder, AllBelow, AllAbove, IsInserted, Lookup, IsCeiling;
      var tmp := root;
      var parent: Node? := null;
      var comp := 0;
      ghost var k, t := Top, tree;
      comparisons := 0;
      Outset();
      while tmp != null
        invariant Plug(k, t) == tree && Between(k, elm.key) && tmp == Root(t) && parent == Parent(k)
        invariant k.In? ==> (comp < 0 <==> k.side == L)
        invariant comparisons + Height(t) <= Height(tree)
        modifies {}
        decreases t
      {
        Read(k, t);
        parent := tmp;
        comp := Cmp(elm, parent);
        comparisons := comparisons + 1;
        if comp < 0 {
          StepLeft(k, t, elm.key);
          tmp := tmp.left;
          k, t := In(L, k, t.node, t.color, t.right), t.left;
        } else if comp > 0 {
          StepRight(k, t, elm.key);
          tmp := tmp.right;
          k, t := In(R, k, t.node, t.color, t.left), t.right;
        } else {
          FoundHere(k, t);
          return tmp, comparisons;
        }
      }
      NotFound(k, elm.key);
      Linked();
      LeafBalanced(k, elm);
      LeafInOrder(k, elm);
      Attach(elm, parent, comp, k);
      tree := InsertColor(elm, k, Fork(Leaf, elm, Red, Leaf));
      r := null;
    }

    /** Taking a node with at most one child out of the tree, as RB_REMOVE does in both its parts. */
    method Splice(elm: Node, child: Node?, parent: Node?, ghost k: Ctx, ghost s: Side, ghost c: Color, ghost u: Tree)
      requires Has(Plug(k, Join(s, Leaf, elm, c, u))) && child == Root(u) && parent == Parent(k)
      modifies this`root, this`links, links.Keys
      ensures Has(Plug(k, u)) && links.Keys == old(links.Keys) - {elm} && elm in old(links.Keys)
      ensures unchanged(elm)
    {
      hide Plug, Shape, CtxShape, Apart, CtxApart, Nodes, CtxNodes, At;
      ghost var h, r := links, root;
      AtPlug(h, r, k, Join(s, Leaf, elm, c, u));
      SpliceReady(h, r, k, s, elm, c, u);
      if child != null {
        child.parent := parent;
      }
      if parent != null {
        if parent.left == elm {
          parent.left := child;
        } else {
          parent.right := child;
        }
      } else {
        root := child;
      }
      ghost var h' := Snap(links.Keys);
      assert Spliced(h, h', elm, child, parent);
      SpliceShape(h, h', r, k, s, elm, c, u);
      links := h' - {elm};
      AtPlug(links, root, k, u);
    }

    /** elm takes over the links and the colour of was, and the pointers to it:
        the assignments of RB_REMOVE that put the successor in place. */
    method TakeLinks(elm: Node, was: Node)
      requires was.left != null && elm != was
      requires var l, r, p := was.left, was.right, was.parent;
               && elm != l && elm != r && elm != p && was != l && was != r && was != p
               && l != r && l != p && (r != null ==> r != p)
      modifies this`root, elm, was.left, was.right, was.parent
      ensures root == if was.parent == null then elm else old(root)
      ensures elm.left == was.left && elm.right == was.right && elm.parent == was.parent && elm.color == was.color
      ensures var l := was.left;
              && l.left == old(was.left.left) && l.right == old(was.left.right)
              && l.parent == elm && l.color == old(was.left.color)
      ensures var r := was.right;
              r != null ==>
                && r.left == old(was.right.left) && r.right == old(was.right.right)
                && r.parent == elm && r.color == old(was.right.color)
      ensures var p := was.parent;
              p != null ==>
                && p.left == (if old(was.parent.left) == was then elm else old(was.parent.left))
                && p.right == (if old(was.parent.left) == was then old(was.parent.right) else elm)
                && p.parent == old(was.parent.parent) && p.color == old(was.parent.color)
    {
      elm.left, elm.right, elm.parent, elm.color := was.left, was.right, was.parent, was.color;
      if was.parent != null {
        if was.parent.left == was {
          was.parent.left := elm;
        } else {
          was.parent.right := elm;
        }
      } else {
        root := elm;
      }
      was.left.parent := elm;
      if was.right != null {
        was.right.parent := elm;
      }
    }

    /** The same in a tree. */
    method TakeOver(elm: Node, was: Node, ghost k: Ctx, ghost l: Tree, ghost c: Color, ghost r: Tree)
      requires Has(Plug(k, Fork(l, was, c, r))) && l.Fork? && elm !in links
      modifies this`root, this`links, links.Keys, elm
      ensures Has(Plug(k, Fork(l, elm, c, r)))
      ensures links.Keys == old(links.Keys) + {elm} - {was} && was in old(links.Keys)
    {
      hide Plug, Shape, CtxShape, Apart, CtxApart, Nodes, CtxNodes, At;
      ghost var h, top := links, root;
      AtPlug(h, top, k, Fork(l, was, c, r));
      ReplaceReady(h, top, k, l, was, c, r);
      TakeLinks(elm, was);
      ghost var h' := Snap(links.Keys + {elm});
      assert Replaced(h, h', was, elm);
      ReplaceShape(h, h', top, k, l, was, c, r, elm);
      links := h' - {was};
      AtPlug(links, root, k, Fork(l, elm, c, r));
    }

    /** The successor of an element with a right child, and where it stands below it. */
    method Leftmost(was: Node, ghost k: Ctx, ghost t: Tree) returns (elm: Node, ghost k2: Ctx, ghost s: Tree)
      requires Has(Plug(k, t)) && t.Fork? && t.node == was && t.right.Fork?
      ensures Plug(k2, s) == t.right && s.Fork? && s.node == elm && s.left.Leaf? && Before(k2) == []
      ensures Plug(Under(k2, In(R, k, was, t.color, t.left)), s) == Plug(k, t)
    {
      hide At, InOrder;
      ghost var base := In(R, k, was, t.color, t.left);
      k2, s := Top, t.right;
      Read(k, t);
      elm := was.right;
      Read(base, s);
      while elm.left != null
        invariant Plug(k2, s) == t.right && s.Fork? && s.node == elm && elm.left == Root(s.left)
        invariant Before(k2) == [] && Plug(Under(k2, base), s) == Plug(k, t)
        decreases s
      {
        elm := elm.left;
        k2, s := In(L, k2, s.node, s.color, s.right), s.left;
        Read(Under(k2, base), s);
      }
    }

    /** The part of RB_REMOVE for an element with two children: its successor is relinked in its place.
        The result is what the fix-up starts from. */
    method RelinkSuccessor(was: Node, ghost k: Ctx, ghost t: Tree)
      returns (child: Node?, parent: Node?, color: Color, ghost k': Ctx, ghost u: Tree)
      requires Valid() && Plug(k, t) == tree && t.Fork? && t.node == was && t.left.Fork? && t.right.Fork?
      modifies this`root, this`links, links.Keys
      ensures Has(Plug(k', u)) && child == Root(u) && parent == Parent(k')
      ensures if color == Black then LacksBlack(k', u) else RedBlack(Plug(k', u))
      ensures links.Keys == old(links.Keys) - {was}
      ensures Ascending(InOrder(Plug(k', u))) && IsRemoved(InOrder(tree), was, InOrder(Plug(k', u)))
    {
      hide At, Balanced, Ascending, InOrder, RedBlack, LacksBlack, IsRemoved, Before;
      ghost var l, c, base := t.left, t.color, In(R, k, was, t.color, t.left);
      Read(k, t);
      var elm, k2, s := Leftmost(was, k, t);
      u := s.right;
      ghost var cy := s.color;
      assert s == Fork(Leaf, elm, cy, u) && t == Fork(l, was, c, Plug(k2, s));
      SuccessorBalanced(k, l, was, c, k2, elm, cy, u);
      SuccessorInOrder(k, l, was, c, k2, elm, cy, u);
      Read(Under(k2, base), s);
      UnderParent(k2, base, s);
      child, parent, color := elm.right, elm.parent, elm.color;
      Splice(elm, child, parent, Under(k2, base), L, cy, u);
      PlugUnder(k2, base, u);
      if elm.parent == was {
        parent := elm;
      }
      TakeOver(elm, was, k, l, c, Plug(k2, u));
      k' := Under(k2, In(R, k, elm, c, l));
      PlugUnder(k2, In(R, k, elm, c, l), u);
    }

    /** Which element the spliced successor hung below. */
    lemma UnderParent(k2: Ctx, base: Ctx, s: Tree)
      requires Has(Plug(Under(k2, base), s)) && base.In?
      ensures Parent(Under(k2, base)) == if k2.Top? then base.node else k2.node
      ensures k2.In? ==> k2.node != base.node
    {
      hide Shape, CtxShape, Apart;
      AtPlug(links, root, Under(k2, base), s);
      UnderNodes(k2, base);
      assert k2.In? ==> k2.node in CtxNodes(k2);
      assert base.node in CtxNodes(base);
    }

    /** RB_REMOVE */
    method Remove(elm: Node) returns (was: Node)
      requires Valid() && elm in Contents()
      modifies this, links.Keys
      ensures Valid() && was == elm
      ensures IsRemoved(old(Contents()), elm, Contents())
      ensures links.Keys == old(links.Keys) - {elm}
      ensures turns <= old(turns) + 3
    {
      hide At, Balanced, Ascending, InOrder, LacksBlack, IsRemoved, RedBlack;
      was := elm;
      var child: Node?, parent: Node?, color: Color;
      ghost var k, t := Locate(Top, tree, elm);
      ghost var u;
      Outset();
      Read(k, t);
      if elm.left != null && elm.right != null {
        child, parent, color, k, u := RelinkSuccessor(elm, k, t);
      } else {
        ghost var s := if t.left.Leaf? then L else R;
        u := if t.left.Leaf? then t.right else t.left;
        assert t == Join(s, Leaf, elm, t.color, u);
        SplicedOut(k, s, elm, t.color, u);
        SpliceInOrder(k, s, elm, t.color, u);
        if elm.left == null {
          child := elm.right;
        } else {
          child := elm.left;
        }
        parent, color := elm.parent, elm.color;
        Splice(elm, child, parent, k, s, t.color, u);
      }
      tree := Plug(k, u);
      if color == Black {
        tree := RemoveColor(parent, child, k, u);
      }
    }
  }
}
