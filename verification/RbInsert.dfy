/** Insertion into the red-black tree: `rb_link_node` and `rb_insert_color`. */
module RbInsert {
  import opened RbTree

  /** The state of the fix-up: only the red root of `t` may have a red parent. */
  ghost predicate Inserting(root: Root, c: Ctx, t: Tree, h: int)
    reads root, All(c, t)
  {
    In(root, c, t) && IsRed(t) && Calm(t) && Balanced(t, h) && Fits(c, h)
  }

  /** Red uncle: the two children of the grandparent turn black, the grandparent red. */
  ghost function Recoloured(g: Tree): Tree
    requires g.Fork?
  {
    Fork(Painted(g.l, false), g.n, true, Painted(g.r, false))
  }

  lemma {:induction false} RecolouredRules(c: Ctx, t: Tree, h: int)
    requires IsRed(t) && Calm(t) && Balanced(t, h) && Fits(c, h) && !c.Top? && c.red
    requires var g := GTree(c, t); IsRed(if c.up.InLeft? then g.r else g.l)
    ensures var g, g' := GTree(c, t), Recoloured(GTree(c, t));
            IsRed(g') && Calm(g') && Balanced(g', h + 1) && Fits(c.up.up, h + 1) && InOrder(g') == InOrder(g)
  {
    assert !c.up.Top? && !c.up.red;
  }

  lemma {:induction false} ReadingUp(root: Root, c: Ctx, t: Tree)
    requires In(root, c, t) && t.Fork? && !c.Top? && !c.up.Top?
    ensures var g := c.up.n;
            && g in All(c, t) && (g.left == c.n <==> c.up.InLeft?)
            && (c.up.InLeft? ==>
                  g.right == Ptr(c.up.r) && (c.up.r.Fork? ==> c.up.r.n.red == c.up.r.red && c.up.r.n in All(c, t)))
            && (c.up.InRight? ==>
                  g.left == Ptr(c.up.l) && (c.up.l.Fork? ==> c.up.l.n.red == c.up.l.red && c.up.l.n in All(c, t)))
  {
    ZipTwice(root, c, t);
    Reading(root, c.up, UpTree(c, t));
    var g := GTree(c, t);
    Facts(root, c.up.up, g);
    var m := Snap(All(c.up.up, g));
    assert TreeAt(m, g.l, g.n) && TreeAt(m, g.r, g.n);
  }

  // ----- the parent is a left child -----

  /** Node and parent after the inner rotation have changed places. */
  ghost function InnerCtxL(c: Ctx, t: Tree): Ctx
    requires c.InRight? && t.Fork?
  {
    InLeft(c.up, t.n, true, t.r)
  }

  ghost function InnerTreeL(c: Ctx, t: Tree): Tree
    requires c.InRight? && t.Fork?
  {
    Fork(c.l, c.n, true, t.l)
  }

  lemma {:induction false} InnerRulesL(c: Ctx, t: Tree, h: int)
    requires IsRed(t) && Calm(t) && Balanced(t, h) && Fits(c, h) && c.InRight? && c.red
    ensures var c', t' := InnerCtxL(c, t), InnerTreeL(c, t);
            && IsRed(t') && Calm(t') && Balanced(t', h) && Fits(c', h)
            && RotatedLeft(UpTree(c, t)) == UpTree(c', t') && Order(c', t') == Order(c, t)
  {
    ZipOrder(c, t);
    ZipOrder(InnerCtxL(c, t), InnerTreeL(c, t));
    RotationOrder(UpTree(c, t));
  }

  ghost function OuterCtxL(c: Ctx): Ctx
    requires c.InLeft? && c.up.InLeft?
  {
    InLeft(c.up.up, c.n, false, Fork(c.r, c.up.n, true, c.up.r))
  }

  lemma {:induction false} OuterRulesL(c: Ctx, t: Tree, h: int)
    requires IsRed(t) && Calm(t) && Balanced(t, h) && Fits(c, h) && c.InLeft? && c.red && c.up.InLeft? && !IsRed(c.up.r)
    ensures Fits(OuterCtxL(c), h)
    ensures UpTree(OuterCtxL(c), t) == RotatedRight(Fork(Fork(t, c.n, false, c.r), c.up.n, true, c.up.r))
    ensures Order(OuterCtxL(c), t) == Order(c, t)
  {
    assert !c.up.red && !IsRed(c.r);
    ZipOrder(OuterCtxL(c), t);
    ZipOrder(c, t);
    ZipOrder(c.up, UpTree(c, t));
    RotationOrder(Fork(Fork(t, c.n, false, c.r), c.up.n, true, c.up.r));
  }

  method RedUncleLeft(node: Node, parent: Node, uncle: Node, gparent: Node, root: Root, ghost c: Ctx, ghost t: Tree,
                      ghost h: int)
    returns (node': Node, ghost c': Ctx, ghost t': Tree, ghost h': int)
    requires Inserting(root, c, t, h) && !c.Top? && c.red && c.up.InLeft?
    requires c.n == parent && c.up.n == gparent && IsRed(c.up.r) && c.up.r.n == uncle
    modifies root, All(c, t)
    ensures Inserting(root, c', t', h') && t'.n == node' && Depth(c') < Depth(c)
    ensures All(c', t') == All(c, t) && Order(c', t') == Order(c, t)
  {
    ghost var g, gc := GTree(c, t), c.up.up;
    ZipTwice(root, c, t);
    Facts(root, gc, g);
    RecolouredRules(c, t, h);
    assert uncle in All(c, t) && parent in All(c, t) && gparent in All(c, t);
    PaintRight(uncle, false, root, gc, g);
    PaintLeft(parent, false, root, gc, Fork(g.l, g.n, g.red, Painted(g.r, false)));
    Paint(gparent, true, root, gc, Fork(Painted(g.l, false), g.n, g.red, Painted(g.r, false)));
    node', c', t', h' := gparent, gc, Recoloured(g), h + 1;
  }

  /** The parent turns black and the grandparent red. */
  method OuterPaintLeft(parent: Node, gparent: Node, root: Root, ghost gc: Ctx, ghost g: Tree)
    requires In(root, gc, g) && g.Fork? && g.n == gparent && g.l.Fork? && g.l.n == parent
    modifies Nodes(g)
    ensures In(root, gc, Fork(Painted(g.l, false), gparent, true, g.r))
  {
    assert parent in Nodes(g.l);
    PaintLeft(parent, false, root, gc, g);
    Paint(gparent, true, root, gc, Fork(Painted(g.l, false), g.n, g.red, g.r));
  }

  /** Paint parent and grandparent, and rotate the parent above the grandparent. */
  method BlackUncleLeft(parent: Node, gparent: Node, root: Root, ghost c: Ctx, ghost t: Tree, ghost h: int)
    requires Inserting(root, c, t, h) && c.InLeft? && c.red && c.up.InLeft? && !IsRed(c.up.r)
    requires c.n == parent && c.up.n == gparent
    modifies root, All(c, t)
    ensures Inserting(root, OuterCtxL(c), t, h)
    ensures All(OuterCtxL(c), t) == All(c, t) && Order(OuterCtxL(c), t) == Order(c, t)
  {
    ghost var g, gc := GTree(c, t), c.up.up;
    ZipTwice(root, c, t);
    OuterPaintLeft(parent, gparent, root, gc, g);
    ghost var g' := Fork(Painted(g.l, false), gparent, true, g.r);
    assert Nodes(g') == Nodes(g);
    RotateRight(gparent, root, gc, g');
    OuterDoneL(root, c, t, h);
  }

  lemma OuterDoneL(root: Root, c: Ctx, t: Tree, h: int)
    requires IsRed(t) && Calm(t) && Balanced(t, h) && Fits(c, h) && c.InLeft? && c.red && c.up.InLeft? && !IsRed(c.up.r)
    requires In(root, c.up.up, RotatedRight(Fork(Painted(GTree(c, t).l, false), c.up.n, true, GTree(c, t).r)))
    ensures Inserting(root, OuterCtxL(c), t, h) && All(OuterCtxL(c), t) == All(c, t)
    ensures Order(OuterCtxL(c), t) == Order(c, t)
  {
    OuterRulesL(c, t, h);
    Zip(root, OuterCtxL(c), t);
    assert CtxNodes(c) == CtxNodes(c.up.up) + {c.up.n} + Nodes(c.up.r) + {c.n} + Nodes(c.r);
    assert CtxNodes(OuterCtxL(c)) == CtxNodes(c);
  }

  /** If the node is a right child, rotate it above its parent and exchange the two names. */
  method InnerLeft(node: Node, parent: Node, root: Root, ghost c: Ctx, ghost t: Tree, ghost h: int)
    returns (node': Node, parent': Node, ghost c': Ctx, ghost t': Tree)
    requires Inserting(root, c, t, h) && !c.Top? && c.red && t.n == node && c.n == parent
    modifies root, All(c, t)
    ensures Inserting(root, c', t', h) && t'.n == node' && c'.InLeft? && c'.red && c'.n == parent' && c'.up == c.up
    ensures All(c', t') == All(c, t) && Order(c', t') == Order(c, t)
  {
    Reading(root, c, t);
    node', parent', c', t' := node, parent, c, t;
    if parent.right == node {
      Zip(root, c, t);
      RotateLeft(parent, root, c.up, UpTree(c, t));
      InnerRulesL(c, t, h);
      c', t' := InnerCtxL(c, t), InnerTreeL(c, t);
      node', parent' := parent, node;
      Zip(root, c', t');
    }
  }

  /** One round of the loop when the parent is the left child of the grandparent. */
  method StepLeft(node: Node, parent: Node, gparent: Node, root: Root, ghost c: Ctx, ghost t: Tree, ghost h: int)
    returns (node': Node, ghost c': Ctx, ghost t': Tree, ghost h': int)
    requires Inserting(root, c, t, h) && !c.Top? && c.red && c.up.InLeft?
    requires t.n == node && c.n == parent && c.up.n == gparent
    modifies root, All(c, t)
    ensures Inserting(root, c', t', h') && t'.n == node' && Depth(c') < Depth(c)
    ensures All(c', t') == All(c, t) && Order(c', t') == Order(c, t)
  {
    ReadingUp(root, c, t);
    var uncle := gparent.right;
    if uncle != null && uncle.red {
      node', c', t', h' := RedUncleLeft(node, parent, uncle, gparent, root, c, t, h);
      return;
    }
    var parent';
    node', parent', c', t' := InnerLeft(node, parent, root, c, t, h);
    BlackUncleLeft(parent', gparent, root, c', t', h);
    c', h' := OuterCtxL(c'), h;
  }

  // ----- the parent is a right child -----

  ghost function InnerCtxR(c: Ctx, t: Tree): Ctx
    requires c.InLeft? && t.Fork?
  {
    InRight(t.l, t.n, true, c.up)
  }

  ghost function InnerTreeR(c: Ctx, t: Tree): Tree
    requires c.InLeft? && t.Fork?
  {
    Fork(t.r, c.n, true, c.r)
  }

  lemma {:induction false} InnerRulesR(c: Ctx, t: Tree, h: int)
    requires IsRed(t) && Calm(t) && Balanced(t, h) && Fits(c, h) && c.InLeft? && c.red
    ensures var c', t' := InnerCtxR(c, t), InnerTreeR(c, t);
            && IsRed(t') && Calm(t') && Balanced(t', h) && Fits(c', h)
            && RotatedRight(UpTree(c, t)) == UpTree(c', t') && Order(c', t') == Order(c, t)
  {
    ZipOrder(c, t);
    ZipOrder(InnerCtxR(c, t), InnerTreeR(c, t));
    RotationOrder(UpTree(c, t));
  }

  ghost function OuterCtxR(c: Ctx): Ctx
    requires c.InRight? && c.up.InRight?
  {
    InRight(Fork(c.up.l, c.up.n, true, c.l), c.n, false, c.up.up)
  }

  lemma {:induction false} OuterRulesR(c: Ctx, t: Tree, h: int)
    requires IsRed(t) && Calm(t) && Balanced(t, h) && Fits(c, h) && c.InRight? && c.red && c.up.InRight?
    requires !IsRed(c.up.l)
    ensures Fits(OuterCtxR(c), h)
    ensures UpTree(OuterCtxR(c), t) == RotatedLeft(Fork(c.up.l, c.up.n, true, Fork(c.l, c.n, false, t)))
    ensures Order(OuterCtxR(c), t) == Order(c, t)
  {
    assert !c.up.red && !IsRed(c.l);
    ZipOrder(OuterCtxR(c), t);
    ZipOrder(c, t);
    ZipOrder(c.up, UpTree(c, t));
    RotationOrder(Fork(c.up.l, c.up.n, true, Fork(c.l, c.n, false, t)));
  }

  method RedUncleRight(node: Node, parent: Node, uncle: Node, gparent: Node, root: Root, ghost c: Ctx, ghost t: Tree,
                       ghost h: int)
    returns (node': Node, ghost c': Ctx, ghost t': Tree, ghost h': int)
    requires Inserting(root, c, t, h) && !c.Top? && c.red && c.up.InRight?
    requires c.n == parent && c.up.n == gparent && IsRed(c.up.l) && c.up.l.n == uncle
    modifies root, All(c, t)
    ensures Inserting(root, c', t', h') && t'.n == node' && Depth(c') < Depth(c)
    ensures All(c', t') == All(c, t) && Order(c', t') == Order(c, t)
  {
    ghost var g, gc := GTree(c, t), c.up.up;
    ZipTwice(root, c, t);
    Facts(root, gc, g);
    RecolouredRules(c, t, h);
    assert uncle in All(c, t) && parent in All(c, t) && gparent in All(c, t);
    PaintLeft(uncle, false, root, gc, g);
    PaintRight(parent, false, root, gc, Fork(Painted(g.l, false), g.n, g.red, g.r));
    Paint(gparent, true, root, gc, Fork(Painted(g.l, false), g.n, g.red, Painted(g.r, false)));
    node', c', t', h' := gparent, gc, Recoloured(g), h + 1;
  }

  method OuterPaintRight(parent: Node, gparent: Node, root: Root, ghost gc: Ctx, ghost g: Tree)
    requires In(root, gc, g) && g.Fork? && g.n == gparent && g.r.Fork? && g.r.n == parent
    modifies Nodes(g)
    ensures In(root, gc, Fork(g.l, gparent, true, Painted(g.r, false)))
  {
    assert parent in Nodes(g.r);
    PaintRight(parent, false, root, gc, g);
    Paint(gparent, true, root, gc, Fork(g.l, g.n, g.red, Painted(g.r, false)));
  }

  method BlackUncleRight(parent: Node, gparent: Node, root: Root, ghost c: Ctx, ghost t: Tree, ghost h: int)
    requires Inserting(root, c, t, h) && c.InRight? && c.red && c.up.InRight? && !IsRed(c.up.l)
    requires c.n == parent && c.up.n == gparent
    modifies root, All(c, t)
    ensures Inserting(root, OuterCtxR(c), t, h)
    ensures All(OuterCtxR(c), t) == All(c, t) && Order(OuterCtxR(c), t) == Order(c, t)
  {
    ghost var g, gc := GTree(c, t), c.up.up;
    ZipTwice(root, c, t);
    OuterPaintRight(parent, gparent, root, gc, g);
    ghost var g' := Fork(g.l, gparent, true, Painted(g.r, false));
    assert Nodes(g') == Nodes(g);
    RotateLeft(gparent, root, gc, g');
    OuterDoneR(root, c, t, h);
  }

  lemma OuterDoneR(root: Root, c: Ctx, t: Tree, h: int)
    requires IsRed(t) && Calm(t) && Balanced(t, h) && Fits(c, h) && c.InRight? && c.red && c.up.InRight?
    requires !IsRed(c.up.l)
    requires In(root, c.up.up, RotatedLeft(Fork(GTree(c, t).l, c.up.n, true, Painted(GTree(c, t).r, false))))
    ensures Inserting(root, OuterCtxR(c), t, h) && All(OuterCtxR(c), t) == All(c, t)
    ensures Order(OuterCtxR(c), t) == Order(c, t)
  {
    OuterRulesR(c, t, h);
    Zip(root, OuterCtxR(c), t);
    assert CtxNodes(c) == CtxNodes(c.up.up) + {c.up.n} + Nodes(c.up.l) + {c.n} + Nodes(c.l);
    assert CtxNodes(OuterCtxR(c)) == CtxNodes(c);
  }

  /** If the node is a left child, rotate it above its parent and exchange the two names. */
  method InnerRight(node: Node, parent: Node, root: Root, ghost c: Ctx, ghost t: Tree, ghost h: int)
    returns (node': Node, parent': Node, ghost c': Ctx, ghost t': Tree)
    requires Inserting(root, c, t, h) && !c.Top? && c.red && t.n == node && c.n == parent
    modifies root, All(c, t)
    ensures Inserting(root, c', t', h) && t'.n == node' && c'.InRight? && c'.red && c'.n == parent' && c'.up == c.up
    ensures All(c', t') == All(c, t) && Order(c', t') == Order(c, t)
  {
    Reading(root, c, t);
    node', parent', c', t' := node, parent, c, t;
    if parent.left == node {
      Zip(root, c, t);
      RotateRight(parent, root, c.up, UpTree(c, t));
      InnerRulesR(c, t, h);
      c', t' := InnerCtxR(c, t), InnerTreeR(c, t);
      node', parent' := parent, node;
      Zip(root, c', t');
    }
  }

  /** One round of the loop when the parent is the right child of the grandparent. */
  method StepRight(node: Node, parent: Node, gparent: Node, root: Root, ghost c: Ctx, ghost t: Tree, ghost h: int)
    returns (node': Node, ghost c': Ctx, ghost t': Tree, ghost h': int)
    requires Inserting(root, c, t, h) && !c.Top? && c.red && c.up.InRight?
    requires t.n == node && c.n == parent && c.up.n == gparent
    modifies root, All(c, t)
    ensures Inserting(root, c', t', h') && t'.n == node' && Depth(c') < Depth(c)
    ensures All(c', t') == All(c, t) && Order(c', t') == Order(c, t)
  {
    ReadingUp(root, c, t);
    var uncle := gparent.left;
    if uncle != null && uncle.red {
      node', c', t', h' := RedUncleRight(node, parent, uncle, gparent, root, c, t, h);
      return;
    }
    var parent';
    node', parent', c', t' := InnerRight(node, parent, root, c, t, h);
    BlackUncleRight(parent', gparent, root, c', t', h);
    c', h' := OuterCtxR(c'), h;
  }

  // ----- the fix-up loop -----

  /**
   `rb_insert_color`: after a red leaf `node` has been linked at place `c` of a red-black
   tree, restore the rules.  The order of the nodes does not change.
   */
  method InsertColor(node: Node, root: Root, ghost c0: Ctx) returns (ghost t1: Tree)
    requires In(root, c0, Fork(Leaf, node, true, Leaf)) && Fits(c0, 0)
    modifies root, CtxNodes(c0), node
    ensures In(root, Top, t1) && RedBlack(t1)
    ensures InOrder(t1) == Before(c0) + [node] + After(c0)
  {
    var n := node;
    ghost var c, t, h := c0, Fork(Leaf, node, true, Leaf), 0;
    assert InOrder(t) == [node] && Nodes(t) == {node};
    Reading(root, c, t);
    while n.parent != null && n.parent.red
      invariant Inserting(root, c, t, h) && t.n == n
      invariant All(c, t) == CtxNodes(c0) + {node} && Order(c, t) == Before(c0) + [node] + After(c0)
      invariant n.parent == Parent(c) && (!c.Top? ==> c.n.red == c.red)
      decreases Depth(c)
    {
      n, c, t, h := Step(n, n.parent, root, c, t, h);
      Reading(root, c, t);
    }
    t1 := BlackenRoot(root, c, t, h);
  }

  /** One round of the loop. */
  method Step(node: Node, parent: Node, root: Root, ghost c: Ctx, ghost t: Tree, ghost h: int)
    returns (node': Node, ghost c': Ctx, ghost t': Tree, ghost h': int)
    requires Inserting(root, c, t, h) && !c.Top? && c.red && t.n == node && c.n == parent
    modifies root, All(c, t)
    ensures Inserting(root, c', t', h') && t'.n == node' && Depth(c') < Depth(c)
    ensures All(c', t') == All(c, t) && Order(c', t') == Order(c, t)
  {
    Reading(root, c, t);
    ReadingUp(root, c, t);
    var gparent := parent.parent;
    if parent == gparent.left {
      node', c', t', h' := StepLeft(node, parent, gparent, root, c, t, h);
    } else {
      node', c', t', h' := StepRight(node, parent, gparent, root, c, t, h);
    }
  }

  /** The last statement: the root turns black, which changes something only when it is the focus. */
  method BlackenRoot(root: Root, ghost c: Ctx, ghost t: Tree, ghost h: int) returns (ghost t1: Tree)
    requires Inserting(root, c, t, h) && (c.Top? || !c.red)
    modifies All(c, t)
    ensures In(root, Top, t1) && RedBlack(t1) && InOrder(t1) == Order(c, t)
  {
    ghost var m := Snap(CtxNodes(c) + Nodes(t));
    if !c.Top? {
      RootIsBlack(m, c, t.n, h);
    }
    root.node.red := false;
    if c.Top? {
      PaintDone(root, c, t, m, false);
      t1 := Painted(t, false);
      assert Balanced(t1, h + 1);
    } else {
      assert Snap(CtxNodes(c) + Nodes(t)) == m;
      PlugIn(root, c, t);
      PlugRedBlack(c, t, h);
      PlugInOrder(c, t);
      t1 := Plug(c, t);
    }
  }

  lemma {:induction false} LinkDone(root: Root, node: Node, c: Ctx, m: Cells)
    requires At(m, c, Leaf) && m.Keys == CtxNodes(c) && node !in CtxNodes(c)
    requires forall n :: n in m && n != Parent(c) ==> CellOf(n) == m[n]
    requires !c.Top? ==> c.n in m && CellOf(c.n) == Linked(m, c, node)
    requires CellOf(node) == Cell(null, null, Parent(c), true) && root.node == RootPtr(c, node)
    ensures In(root, c, Fork(Leaf, node, true, Leaf))
  {
    var t := Fork(Leaf, node, true, Leaf);
    assert Nodes(t) == {node};
    Rehang(m, Snap(CtxNodes(c) + Nodes(t)), c, null, node);
  }

  /**
   `rb_link_node` at an empty place and `rb_insert_color`: the red-black tree gains
   `node` exactly at that place of the order.  `left` says which link of `parent` is meant.
   */
  method Insert(node: Node, parent: Node?, left: bool, root: Root, ghost c: Ctx) returns (ghost t1: Tree)
    requires In(root, c, Leaf) && RedBlack(Plug(c, Leaf)) && node !in CtxNodes(c)
    requires parent == Parent(c) && (parent != null ==> left == c.InLeft?)
    modifies root, CtxNodes(c), node
    ensures In(root, Top, t1) && RedBlack(t1)
    ensures InOrder(t1) == Before(c) + [node] + After(c)
  {
    ghost var m := Snap(CtxNodes(c));
    assert CtxNodes(c) + Nodes(Leaf) == CtxNodes(c);
    node.parent := parent;
    node.red := true;
    node.left := null;
    node.right := null;
    if parent == null {
      root.node := node;
    } else if left {
      parent.left := node;
    } else {
      parent.right := node;
    }
    LinkDone(root, node, c, m);
    PlaceFits(c);
    t1 := InsertColor(node, root, c);
  }

  /** An empty place of a red-black tree has black height 0. */
  lemma {:induction false} PlaceFits(c: Ctx)
    requires RedBlack(Plug(c, Leaf))
    ensures Fits(c, 0)
  {
    var h :| Balanced(Plug(c, Leaf), h);
    UnplugFits(c, Leaf, h);
  }
}
