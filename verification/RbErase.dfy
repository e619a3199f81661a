/** Removal from the red-black tree: `rb_erase` and `__rb_erase_color`. */
module RbErase {
  import opened RbTree

  lemma {:induction false} BalancedHeight(t: Tree, h: int)
    requires Balanced(t, h)
    ensures h >= 0
  {
    if t.Fork? {
      BalancedHeight(t.l, if t.red then h else h - 1);
    }
  }

  /** The state of the fix-up: the subtree `t` lacks one black node; its root may be red with a red child. */
  ghost predicate Erasing(root: Root, c: Ctx, t: Tree, h: int)
    reads root, All(c, t)
  {
    In(root, c, t) && Balanced(t, h) && Fits(c, h + 1) && (t.Fork? ==> Calm(t.l) && Calm(t.r))
  }

  /** A tree that obeys the rules in its surroundings. */
  ghost predicate Settled(root: Root, c: Ctx, t: Tree, h: int)
    reads root, All(c, t)
  {
    In(root, c, t) && Balanced(t, h) && Fits(c, h) && Calm(t) && (IsRed(t) ==> !c.Top? && !c.red)
  }

  ghost function Sibling(c: Ctx): Tree
    requires !c.Top?
  {
    if c.InLeft? then c.r else c.l
  }

  /** What the loop reads: the sibling exists, and which side the focus is on. */
  lemma {:induction false} ReadingSibling(root: Root, c: Ctx, t: Tree, h: int)
    requires In(root, c, t) && Balanced(t, h) && Fits(c, h + 1) && !c.Top?
    ensures var s := Sibling(c);
            && s.Fork? && s.n in All(c, t) && c.n in All(c, t)
            && CellOf(s.n) == Cell(Ptr(s.l), Ptr(s.r), c.n, s.red)
            && (s.l.Fork? ==> s.l.n.red == s.l.red && s.l.n in All(c, t))
            && (s.r.Fork? ==> s.r.n.red == s.r.red && s.r.n in All(c, t))
            && c.n.red == c.red && c.n.parent == Parent(c.up)
            && (c.n.left == Ptr(t) <==> c.InLeft?) && (c.InLeft? ==> c.n.right == s.n) &&
            (c.InRight? ==> c.n.left == s.n)
  {
    BalancedHeight(t, h);
    var m, s := Snap(All(c, t)), Sibling(c);
    Facts(root, c, t);
    assert TreeAt(m, s, c.n);
    assert s.Fork?;
    assert s.n in Nodes(s) && Nodes(s) <= CtxNodes(c);
    assert TreeAt(m, s.l, s.n) && TreeAt(m, s.r, s.n);
    assert s.l.Fork? ==> s.l.n in Nodes(s.l) && m[s.l.n] == CellOf(s.l.n);
    assert s.r.Fork? ==> s.r.n in Nodes(s.r) && m[s.r.n] == CellOf(s.r.n);
    assert m[s.n] == CellOf(s.n);
  }

  // ----- the focus is a left child -----

  ghost function RedSiblingCtxL(c: Ctx): Ctx
    requires c.InLeft? && c.r.Fork?
  {
    InLeft(InLeft(c.up, c.r.n, false, c.r.r), c.n, true, c.r.l)
  }

  lemma {:induction false} RedSiblingRulesL(c: Ctx, t: Tree, h: int)
    requires Fits(c, h + 1) && c.InLeft? && IsRed(c.r)
    ensures var c' := RedSiblingCtxL(c);
            && Fits(c', h + 1) && !IsRed(c'.r)
            && RotatedLeft(Fork(t, c.n, true, Painted(c.r, false))) == UpTree(c'.up, UpTree(c', t))
            && Order(c', t) == Order(c, t) && All(c', t) == All(c, t)
  {
    var c' := RedSiblingCtxL(c);
    assert !c.red;
    assert Nodes(c.r) == Nodes(c.r.l) + {c.r.n} + Nodes(c.r.r);
    assert CtxNodes(c'.up) == CtxNodes(c.up) + {c.r.n} + Nodes(c.r.r);
    ZipOrder(c, t);
    ZipOrder(c', t);
    ZipOrder(c'.up, UpTree(c', t));
    RotationOrder(Fork(t, c.n, true, Painted(c.r, false)));
  }

  /** A red sibling: rotate it above the parent, so that the new sibling is black. */
  method RedSiblingLeft(parent: Node, other: Node, root: Root, ghost c: Ctx, ghost t: Tree, ghost h: int)
    requires Erasing(root, c, t, h) && c.InLeft? && IsRed(c.r) && parent == c.n && other == c.r.n
    modifies root, All(c, t)
    ensures Erasing(root, RedSiblingCtxL(c), t, h) && !IsRed(RedSiblingCtxL(c).r)
    ensures All(RedSiblingCtxL(c), t) == All(c, t) && Order(RedSiblingCtxL(c), t) == Order(c, t)
  {
    ghost var f, c' := UpTree(c, t), RedSiblingCtxL(c);
    Zip(root, c, t);
    ReadingSibling(root, c, t, h);
    RedSiblingPaintLeft(parent, other, root, c.up, f);
    RedSiblingRulesL(c, t, h);
    RotateLeft(parent, root, c.up, Fork(t, c.n, true, Painted(c.r, false)));
    ZipTwice(root, c', t);
  }

  method RedSiblingPaintLeft(parent: Node, other: Node, root: Root, ghost up: Ctx, ghost f: Tree)
    requires In(root, up, f) && f.Fork? && f.n == parent && f.r.Fork? && f.r.n == other
    modifies parent, other
    ensures In(root, up, Fork(f.l, parent, true, Painted(f.r, false)))
    ensures All(up, Fork(f.l, parent, true, Painted(f.r, false))) == All(up, f)
  {
    PaintRight(other, false, root, up, f);
    Paint(parent, true, root, up, Fork(f.l, f.n, f.red, Painted(f.r, false)));
    assert Nodes(Painted(f.r, false)) == Nodes(f.r);
  }

  /** A black sibling with black children turns red; the deficit moves up to the parent. */
  lemma {:induction false} BlackNephewsRules(c: Ctx, t: Tree, h: int)
    requires Balanced(t, h) && !IsRed(t) && (t.Fork? ==> Calm(t.l) && Calm(t.r)) && Fits(c, h + 1) && !c.Top?
    requires var s := Sibling(c); s.Fork? && !s.red && !IsRed(s.l) && !IsRed(s.r)
    ensures var c' := if c.InLeft? then c.(r := Painted(c.r, true)) else c.(l := Painted(c.l, true));
            var t', h' := UpTree(c', t), if c.red then h else h + 1;
            && Balanced(t', h') && Fits(c.up, h' + 1) && Calm(t'.l) && Calm(t'.r)
            && InOrder(t') == InOrder(UpTree(c, t)) && Nodes(t') == Nodes(UpTree(c, t))
  {
  }

  method BlackNephewsLeft(parent: Node, other: Node, root: Root, ghost c: Ctx, ghost t: Tree, ghost h: int)
    returns (ghost t': Tree, ghost h': int)
    requires Erasing(root, c, t, h) && !IsRed(t) && c.InLeft? && parent == c.n
    requires c.r.Fork? && !c.r.red && !IsRed(c.r.l) && !IsRed(c.r.r) && other == c.r.n
    modifies root, All(c, t)
    ensures Erasing(root, c.up, t', h') && t'.Fork? && t'.n == parent && t'.red == c.red
    ensures All(c.up, t') == All(c, t) && Order(c.up, t') == Order(c, t)
  {
    ghost var f := UpTree(c, t);
    Zip(root, c, t);
    ReadingSibling(root, c, t, h);
    PaintRight(other, true, root, c.up, f);
    t', h' := Fork(f.l, f.n, f.red, Painted(f.r, true)), if c.red then h else h + 1;
    BlackNephewsRules(c, t, h);
    ZipOrder(c, t);
  }

  ghost function InnerCtxL(c: Ctx): Ctx
    requires c.InLeft? && c.r.Fork? && c.r.l.Fork?
  {
    InLeft(c.up, c.n, c.red, Fork(c.r.l.l, c.r.l.n, false, Fork(c.r.l.r, c.r.n, true, c.r.r)))
  }

  lemma {:induction false} InnerRulesL(c: Ctx, t: Tree, h: int)
    requires Fits(c, h + 1) && c.InLeft? && c.r.Fork? && !c.r.red && IsRed(c.r.l) && !IsRed(c.r.r)
    ensures var c' := InnerCtxL(c);
            && Fits(c', h + 1) && c'.r == RotatedRight(Fork(Painted(c.r.l, false), c.r.n, true, c.r.r))
            && InOrder(c'.r) == InOrder(c.r) && Nodes(c'.r) == Nodes(c.r)
  {
    assert Balanced(c.r.l, h) && Calm(c.r.l) && Balanced(c.r.r, h) && Calm(c.r.r);
    RotationOrder(Fork(Painted(c.r.l, false), c.r.n, true, c.r.r));
  }

  /** The near nephew is red and the far one is not: rotate the near one above the sibling. */
  method InnerLeft(parent: Node, other: Node, nephew: Node, root: Root, ghost c: Ctx, ghost t: Tree, ghost h: int)
    requires Erasing(root, c, t, h) && c.InLeft? && parent == c.n
    requires c.r.Fork? && !c.r.red && IsRed(c.r.l) && !IsRed(c.r.r) && other == c.r.n && nephew == c.r.l.n
    modifies root, All(c, t)
    ensures Erasing(root, InnerCtxL(c), t, h)
    ensures All(InnerCtxL(c), t) == All(c, t) && Order(InnerCtxL(c), t) == Order(c, t)
  {
    ghost var sc, s := InRight(t, c.n, c.red, c.up), c.r;
    Zip(root, c, t);
    Zip(root, sc, s);
    ReadingSibling(root, c, t, h);
    PaintLeft(nephew, false, root, sc, s);
    ghost var s1 := Fork(Painted(s.l, false), s.n, s.red, s.r);
    Paint(other, true, root, sc, s1);
    ghost var s2 := Painted(s1, true);
    assert All(sc, s2) == All(sc, s);
    RotateRight(other, root, sc, s2);
    InnerRulesL(c, t, h);
    Zip(root, sc, InnerCtxL(c).r);
    Zip(root, InnerCtxL(c), t);
  }

  ghost function OuterTreeL(c: Ctx, t: Tree): Tree
    requires c.InLeft? && c.r.Fork?
  {
    Fork(Fork(t, c.n, false, c.r.l), c.r.n, c.red, Painted(c.r.r, false))
  }

  lemma {:induction false} OuterRulesL(c: Ctx, t: Tree, h: int)
    requires Balanced(t, h) && !IsRed(t) && (t.Fork? ==> Calm(t.l) && Calm(t.r))
    requires Fits(c, h + 1) && c.InLeft? && c.r.Fork? && !c.r.red && IsRed(c.r.r)
    ensures var t', h' := OuterTreeL(c, t), if c.red then h + 1 else h + 2;
            && Balanced(t', h') && Fits(c.up, h') && Calm(t') && (IsRed(t') ==> !c.up.Top? && !c.up.red)
            && t' == RotatedLeft(Fork(t, c.n, false, Fork(c.r.l, c.r.n, c.red, Painted(c.r.r, false))))
            && Order(c.up, t') == Order(c, t) && All(c.up, t') == All(c, t)
  {
    ZipOrder(c, t);
    assert Balanced(c.r.l, h) && Calm(c.r.l) && Balanced(c.r.r, h) && Calm(c.r.r);
    assert Balanced(Painted(c.r.r, false), h + 1) && Calm(Painted(c.r.r, false));
    var f := Fork(t, c.n, false, Fork(c.r.l, c.r.n, c.red, Painted(c.r.r, false)));
    RotationOrder(f);
    assert InOrder(f.r) == InOrder(c.r);
    SameNodes(f, false);
    SameNodes(c.r.r, false);
    assert Nodes(f.r) == Nodes(c.r);
  }

  /** The sibling takes the parent's colour; parent and far nephew turn black. */
  method OuterPaintLeft(parent: Node, other: Node, nephew: Node, root: Root, ghost up: Ctx, ghost f: Tree)
    requires In(root, up, f) && f.Fork? && f.n == parent && f.r.Fork? && f.r.n == other && f.r.r.Fork?
    requires f.r.r.n == nephew
    modifies Nodes(f)
    ensures In(root, up, Fork(f.l, parent, false, Fork(f.r.l, other, f.red, Painted(f.r.r, false))))
  {
    Facts(root, up, f);
    assert other in Nodes(f.r) && nephew in Nodes(f.r.r) && Nodes(f.r.r) <= Nodes(f.r);
    PaintRight(other, parent.red, root, up, f);
    ghost var f1 := Fork(f.l, f.n, f.red, Painted(f.r, f.red));
    Paint(parent, false, root, up, f1);
    ghost var sc, s := InRight(f.l, f.n, false, up), Painted(f.r, f.red);
    Zip(root, sc, s);
    PaintRight(nephew, false, root, sc, s);
    Zip(root, sc, Fork(s.l, s.n, s.red, Painted(s.r, false)));
  }

  /** The far nephew is red: rotate the sibling above the parent, and the deficit is gone. */
  method OuterLeft(parent: Node, other: Node, nephew: Node, root: Root, ghost c: Ctx, ghost t: Tree, ghost h: int)
    returns (ghost t': Tree, ghost h': int)
    requires Erasing(root, c, t, h) && !IsRed(t) && c.InLeft? && parent == c.n
    requires c.r.Fork? && !c.r.red && IsRed(c.r.r) && other == c.r.n && nephew == c.r.r.n
    modifies root, All(c, t)
    ensures Settled(root, c.up, t', h')
    ensures All(c.up, t') == All(c, t) && Order(c.up, t') == Order(c, t)
  {
    ghost var f := UpTree(c, t);
    Zip(root, c, t);
    OuterPaintLeft(parent, other, nephew, root, c.up, f);
    ghost var f' := Fork(t, parent, false, Fork(c.r.l, other, c.red, Painted(c.r.r, false)));
    assert Nodes(f'.r) == Nodes(f.r);
    OuterRulesL(c, t, h);
    t', h' := OuterTreeL(c, t), if c.red then h + 1 else h + 2;
    RotateLeft(parent, root, c.up, f');
  }

  /** One round of the loop when the focus is a left child: finished, or the deficit has moved up. */
  method StepLeft(node: Node?, parent: Node, root: Root, ghost c: Ctx, ghost t: Tree, ghost h: int)
    returns (stop: bool, node': Node?, ghost c': Ctx, ghost t': Tree, ghost h': int)
    requires Erasing(root, c, t, h) && !IsRed(t) && c.InLeft? && parent == c.n && node == Ptr(t)
    modifies root, All(c, t)
    ensures if stop then Settled(root, c', t', h')
            else Erasing(root, c', t', h') && t'.Fork? && node' == t'.n && (t'.red || Depth(c') < Depth(c))
    ensures All(c', t') == All(c, t) && Order(c', t') == Order(c, t)
  {
    ReadingSibling(root, c, t, h);
    var other := parent.right;
    c' := c;
    if other.red {
      RedSiblingLeft(parent, other, root, c, t, h);
      c' := RedSiblingCtxL(c);
      ReadingSibling(root, c', t, h);
      other := parent.right;
    }
    stop, node', c', t', h' := BlackSiblingLeft(node, parent, other, root, c', t, h);
  }

  /** The rest of the round, with a black sibling. */
  method BlackSiblingLeft(node: Node?, parent: Node, other: Node, root: Root, ghost c: Ctx, ghost t: Tree, ghost h: int)
    returns (stop: bool, node': Node?, ghost c': Ctx, ghost t': Tree, ghost h': int)
    requires Erasing(root, c, t, h) && !IsRed(t) && c.InLeft? && parent == c.n
    requires c.r.Fork? && !c.r.red && other == c.r.n
    modifies root, All(c, t)
    ensures if stop then Settled(root, c', t', h')
            else Erasing(root, c', t', h') && node' == Ptr(t') && c' == c.up && t'.Fork? && t'.red == c.red
    ensures All(c', t') == All(c, t) && Order(c', t') == Order(c, t)
  {
    ReadingSibling(root, c, t, h);
    c' := c.up;
    if (other.left == null || !other.left.red) && (other.right == null || !other.right.red) {
      t', h' := BlackNephewsLeft(parent, other, root, c, t, h);
      stop, node' := false, parent;
    } else {
      stop, node' := true, null;
      ghost var d := c;
      var other' := other;
      if other.right == null || !other.right.red {
        InnerLeft(parent, other, other.left, root, c, t, h);
        d := InnerCtxL(c);
        ReadingSibling(root, d, t, h);
        other' := parent.right;
      }
      t', h' := OuterLeft(parent, other', other'.right, root, d, t, h);
    }
  }

  // ----- the focus is a right child -----

  ghost function RedSiblingCtxR(c: Ctx): Ctx
    requires c.InRight? && c.l.Fork?
  {
    InRight(c.l.r, c.n, true, InRight(c.l.l, c.l.n, false, c.up))
  }

  lemma {:induction false} RedSiblingRulesR(c: Ctx, t: Tree, h: int)
    requires Fits(c, h + 1) && c.InRight? && IsRed(c.l)
    ensures var c' := RedSiblingCtxR(c);
            && Fits(c', h + 1) && !IsRed(c'.l)
            && RotatedRight(Fork(Painted(c.l, false), c.n, true, t)) == UpTree(c'.up, UpTree(c', t))
            && Order(c', t) == Order(c, t) && All(c', t) == All(c, t)
  {
    var c' := RedSiblingCtxR(c);
    assert !c.red;
    assert Nodes(c.l) == Nodes(c.l.r) + {c.l.n} + Nodes(c.l.l);
    assert CtxNodes(c'.up) == CtxNodes(c.up) + {c.l.n} + Nodes(c.l.l);
    ZipOrder(c, t);
    ZipOrder(c', t);
    ZipOrder(c'.up, UpTree(c', t));
    RotationOrder(Fork(Painted(c.l, false), c.n, true, t));
  }

  /** A red sibling: rotate it above the parent, so that the new sibling is black. */
  method RedSiblingRight(parent: Node, other: Node, root: Root, ghost c: Ctx, ghost t: Tree, ghost h: int)
    requires Erasing(root, c, t, h) && c.InRight? && IsRed(c.l) && parent == c.n && other == c.l.n
    modifies root, All(c, t)
    ensures Erasing(root, RedSiblingCtxR(c), t, h) && !IsRed(RedSiblingCtxR(c).l)
    ensures All(RedSiblingCtxR(c), t) == All(c, t) && Order(RedSiblingCtxR(c), t) == Order(c, t)
  {
    ghost var f, c' := UpTree(c, t), RedSiblingCtxR(c);
    Zip(root, c, t);
    ReadingSibling(root, c, t, h);
    RedSiblingPaintRight(parent, other, root, c.up, f);
    RedSiblingRulesR(c, t, h);
    RotateRight(parent, root, c.up, Fork(Painted(c.l, false), c.n, true, t));
    ZipTwice(root, c', t);
  }

  method RedSiblingPaintRight(parent: Node, other: Node, root: Root, ghost up: Ctx, ghost f: Tree)
    requires In(root, up, f) && f.Fork? && f.n == parent && f.l.Fork? && f.l.n == other
    modifies parent, other
    ensures In(root, up, Fork(Painted(f.l, false), parent, true, f.r))
    ensures All(up, Fork(Painted(f.l, false), parent, true, f.r)) == All(up, f)
  {
    PaintLeft(other, false, root, up, f);
    Paint(parent, true, root, up, Fork(Painted(f.l, false), f.n, f.red, f.r));
    assert Nodes(Painted(f.l, false)) == Nodes(f.l);
  }

  method BlackNephewsRight(parent: Node, other: Node, root: Root, ghost c: Ctx, ghost t: Tree, ghost h: int)
    returns (ghost t': Tree, ghost h': int)
    requires Erasing(root, c, t, h) && !IsRed(t) && c.InRight? && parent == c.n
    requires c.l.Fork? && !c.l.red && !IsRed(c.l.r) && !IsRed(c.l.l) && other == c.l.n
    modifies root, All(c, t)
    ensures Erasing(root, c.up, t', h') && t'.Fork? && t'.n == parent && t'.red == c.red
    ensures All(c.up, t') == All(c, t) && Order(c.up, t') == Order(c, t)
  {
    ghost var f := UpTree(c, t);
    Zip(root, c, t);
    ReadingSibling(root, c, t, h);
    PaintLeft(other, true, root, c.up, f);
    t', h' := Fork(Painted(f.l, true), f.n, f.red, f.r), if c.red then h else h + 1;
    BlackNephewsRules(c, t, h);
    ZipOrder(c, t);
  }

  ghost function InnerCtxR(c: Ctx): Ctx
    requires c.InRight? && c.l.Fork? && c.l.r.Fork?
  {
    InRight(Fork(Fork(c.l.l, c.l.n, true, c.l.r.l), c.l.r.n, false, c.l.r.r), c.n, c.red, c.up)
  }

  lemma {:induction false} InnerRulesR(c: Ctx, t: Tree, h: int)
    requires Fits(c, h + 1) && c.InRight? && c.l.Fork? && !c.l.red && IsRed(c.l.r) && !IsRed(c.l.l)
    ensures var c' := InnerCtxR(c);
            && Fits(c', h + 1) && c'.l == RotatedLeft(Fork(c.l.l, c.l.n, true, Painted(c.l.r, false)))
            && InOrder(c'.l) == InOrder(c.l) && Nodes(c'.l) == Nodes(c.l)
  {
    assert Balanced(c.l.r, h) && Calm(c.l.r) && Balanced(c.l.l, h) && Calm(c.l.l);
    RotationOrder(Fork(c.l.l, c.l.n, true, Painted(c.l.r, false)));
  }

  /** The near nephew is red and the far one is not: rotate the near one above the sibling. */
  method InnerRight(parent: Node, other: Node, nephew: Node, root: Root, ghost c: Ctx, ghost t: Tree, ghost h: int)
    requires Erasing(root, c, t, h) && c.InRight? && parent == c.n
    requires c.l.Fork? && !c.l.red && IsRed(c.l.r) && !IsRed(c.l.l) && other == c.l.n && nephew == c.l.r.n
    modifies root, All(c, t)
    ensures Erasing(root, InnerCtxR(c), t, h)
    ensures All(InnerCtxR(c), t) == All(c, t) && Order(InnerCtxR(c), t) == Order(c, t)
  {
    ghost var sc, s := InLeft(c.up, c.n, c.red, t), c.l;
    Zip(root, c, t);
    Zip(root, sc, s);
    ReadingSibling(root, c, t, h);
    PaintRight(nephew, false, root, sc, s);
    ghost var s1 := Fork(s.l, s.n, s.red, Painted(s.r, false));
    Paint(other, true, root, sc, s1);
    ghost var s2 := Painted(s1, true);
    assert All(sc, s2) == All(sc, s);
    RotateLeft(other, root, sc, s2);
    InnerRulesR(c, t, h);
    Zip(root, sc, InnerCtxR(c).l);
    Zip(root, InnerCtxR(c), t);
  }

  ghost function OuterTreeR(c: Ctx, t: Tree): Tree
    requires c.InRight? && c.l.Fork?
  {
    Fork(Painted(c.l.l, false), c.l.n, c.red, Fork(c.l.r, c.n, false, t))
  }

  lemma {:induction false} OuterRulesR(c: Ctx, t: Tree, h: int)
    requires Balanced(t, h) && !IsRed(t) && (t.Fork? ==> Calm(t.r) && Calm(t.l))
    requires Fits(c, h + 1) && c.InRight? && c.l.Fork? && !c.l.red && IsRed(c.l.l)
    ensures var t', h' := OuterTreeR(c, t), if c.red then h + 1 else h + 2;
            && Balanced(t', h') && Fits(c.up, h') && Calm(t') && (IsRed(t') ==> !c.up.Top? && !c.up.red)
            && t' == RotatedRight(Fork(Fork(Painted(c.l.l, false), c.l.n, c.red, c.l.r), c.n, false, t))
            && Order(c.up, t') == Order(c, t) && All(c.up, t') == All(c, t)
  {
    ZipOrder(c, t);
    assert Balanced(c.l.r, h) && Calm(c.l.r) && Balanced(c.l.l, h) && Calm(c.l.l);
    assert Balanced(Painted(c.l.l, false), h + 1) && Calm(Painted(c.l.l, false));
    var f := Fork(Fork(Painted(c.l.l, false), c.l.n, c.red, c.l.r), c.n, false, t);
    RotationOrder(f);
    assert InOrder(f.l) == InOrder(c.l);
    SameNodes(f, false);
    SameNodes(c.l.l, false);
    assert Nodes(f.l) == Nodes(c.l);
  }

  /** The sibling takes the parent's colour; parent and far nephew turn black. */
  method OuterPaintRight(parent: Node, other: Node, nephew: Node, root: Root, ghost up: Ctx, ghost f: Tree)
    requires In(root, up, f) && f.Fork? && f.n == parent && f.l.Fork? && f.l.n == other && f.l.l.Fork?
    requires f.l.l.n == nephew
    modifies Nodes(f)
    ensures In(root, up, Fork(Fork(Painted(f.l.l, false), other, f.red, f.l.r), parent, false, f.r))
  {
    Facts(root, up, f);
    assert other in Nodes(f.l) && nephew in Nodes(f.l.l) && Nodes(f.l.l) <= Nodes(f.l);
    PaintLeft(other, parent.red, root, up, f);
    ghost var f1 := Fork(Painted(f.l, f.red), f.n, f.red, f.r);
    Paint(parent, false, root, up, f1);
    ghost var sc, s := InLeft(up, f.n, false, f.r), Painted(f.l, f.red);
    Zip(root, sc, s);
    PaintLeft(nephew, false, root, sc, s);
    Zip(root, sc, Fork(Painted(s.l, false), s.n, s.red, s.r));
  }

  /** The far nephew is red: rotate the sibling above the parent, and the deficit is gone. */
  method OuterRight(parent: Node, other: Node, nephew: Node, root: Root, ghost c: Ctx, ghost t: Tree, ghost h: int)
    returns (ghost t': Tree, ghost h': int)
    requires Erasing(root, c, t, h) && !IsRed(t) && c.InRight? && parent == c.n
    requires c.l.Fork? && !c.l.red && IsRed(c.l.l) && other == c.l.n && nephew == c.l.l.n
    modifies root, All(c, t)
    ensures Settled(root, c.up, t', h')
    ensures All(c.up, t') == All(c, t) && Order(c.up, t') == Order(c, t)
  {
    ghost var f := UpTree(c, t);
    Zip(root, c, t);
    OuterPaintRight(parent, other, nephew, root, c.up, f);
    ghost var f' := Fork(Fork(Painted(c.l.l, false), other, c.red, c.l.r), parent, false, t);
    assert Nodes(f'.l) == Nodes(f.l);
    OuterRulesR(c, t, h);
    t', h' := OuterTreeR(c, t), if c.red then h + 1 else h + 2;
    RotateRight(parent, root, c.up, f');
  }

  /** One round of the loop when the focus is a right child: finished, or the deficit has moved up. */
  method StepRight(node: Node?, parent: Node, root: Root, ghost c: Ctx, ghost t: Tree, ghost h: int)
    returns (stop: bool, node': Node?, ghost c': Ctx, ghost t': Tree, ghost h': int)
    requires Erasing(root, c, t, h) && !IsRed(t) && c.InRight? && parent == c.n && node == Ptr(t)
    modifies root, All(c, t)
    ensures if stop then Settled(root, c', t', h')
            else Erasing(root, c', t', h') && t'.Fork? && node' == t'.n && (t'.red || Depth(c') < Depth(c))
    ensures All(c', t') == All(c, t) && Order(c', t') == Order(c, t)
  {
    ReadingSibling(root, c, t, h);
    var other := parent.left;
    c' := c;
    if other.red {
      RedSiblingRight(parent, other, root, c, t, h);
      c' := RedSiblingCtxR(c);
      ReadingSibling(root, c', t, h);
      other := parent.left;
    }
    stop, node', c', t', h' := BlackSiblingRight(node, parent, other, root, c', t, h);
  }

  /** The rest of the round, with a black sibling. */
  method BlackSiblingRight(node: Node?, parent: Node, other: Node, root: Root, ghost c: Ctx, ghost t: Tree,
                           ghost h: int)
    returns (stop: bool, node': Node?, ghost c': Ctx, ghost t': Tree, ghost h': int)
    requires Erasing(root, c, t, h) && !IsRed(t) && c.InRight? && parent == c.n
    requires c.l.Fork? && !c.l.red && other == c.l.n
    modifies root, All(c, t)
    ensures if stop then Settled(root, c', t', h')
            else Erasing(root, c', t', h') && node' == Ptr(t') && c' == c.up && t'.Fork? && t'.red == c.red
    ensures All(c', t') == All(c, t) && Order(c', t') == Order(c, t)
  {
    ReadingSibling(root, c, t, h);
    c' := c.up;
    if (other.right == null || !other.right.red) && (other.left == null || !other.left.red) {
      t', h' := BlackNephewsRight(parent, other, root, c, t, h);
      stop, node' := false, parent;
    } else {
      stop, node' := true, null;
      ghost var d := c;
      var other' := other;
      if other.left == null || !other.left.red {
        InnerRight(parent, other, other.right, root, c, t, h);
        d := InnerCtxR(c);
        ReadingSibling(root, d, t, h);
        other' := parent.left;
      }
      t', h' := OuterRight(parent, other', other'.left, root, d, t, h);
    }
  }

  // ----- the fix-up loop -----

  lemma {:induction false} AtRoot(root: Root, c: Ctx, t: Tree)
    requires In(root, c, t)
    ensures root.node == Ptr(t) <==> c.Top?
    ensures t.Fork? ==> t.n.red == t.red && t.n.parent == Parent(c) && t.n in All(c, t)
  {
    Facts(root, c, t);
    if !c.Top? {
      RootAbove(c, Ptr(t));
    }
  }

  lemma {:induction false} RootAbove(c: Ctx, hole: Node?)
    requires !c.Top?
    ensures RootPtr(c, hole) != null && RootPtr(c, hole) in CtxNodes(c)
    decreases c
  {
    if !c.up.Top? {
      RootAbove(c.up, c.n);
    }
  }

  /** Either the loop has stopped with the rules restored, or the focus is red or the root. */
  method Finish(node: Node?, root: Root, stop: bool, ghost c: Ctx, ghost t: Tree, ghost h: int) returns (ghost t1: Tree)
    requires if stop then Settled(root, c, t, h) && node == root.node
             else Erasing(root, c, t, h) && node == Ptr(t) && (IsRed(t) || c.Top?)
    modifies All(c, t)
    ensures In(root, Top, t1) && RedBlack(t1) && InOrder(t1) == Order(c, t)
  {
    ghost var m := Snap(CtxNodes(c) + Nodes(t));
    ghost var t', h' := t, h;
    AtRoot(root, c, t);
    if stop && !c.Top? {
      RootAbove(c, Ptr(t));
      RootIsBlack(m, c, Ptr(t), h);
    }
    if node != null {
      node.red := false;
      if !stop || c.Top? {
        PaintDone(root, c, t, m, false);
        t', h' := Painted(t, false), if IsRed(t) then h + 1 else h;
      } else {
        assert Snap(CtxNodes(c) + Nodes(t)) == m;
      }
    }
    t1 := Plugged(root, c, t', h');
  }

  /** The whole tree. */
  lemma Plugged(root: Root, c: Ctx, t: Tree, h: int) returns (t1: Tree)
    requires Settled(root, c, t, h)
    ensures In(root, Top, t1) && RedBlack(t1) && InOrder(t1) == Order(c, t)
  {
    PlugIn(root, c, t);
    PlugRedBlack(c, t, h);
    PlugInOrder(c, t);
    t1 := Plug(c, t);
  }

  /** `__rb_erase_color`: the subtree at `child` lacks one black node; restore the rules. */
  method EraseColor(child: Node?, above: Node?, root: Root, ghost c0: Ctx, ghost t0: Tree, ghost h0: int)
    returns (ghost t1: Tree)
    requires Erasing(root, c0, t0, h0) && child == Ptr(t0) && above == Parent(c0)
    modifies root, All(c0, t0)
    ensures In(root, Top, t1) && RedBlack(t1) && InOrder(t1) == Order(c0, t0)
  {
    var node, parent, stop := child, above, false;
    ghost var c, t, h := c0, t0, h0;
    AtRoot(root, c, t);
    while (node == null || !node.red) && node != root.node
      invariant Erasing(root, c, t, h) && node == Ptr(t) && parent == Parent(c) && !stop
      invariant All(c, t) == All(c0, t0) && Order(c, t) == Order(c0, t0)
      invariant (node == root.node <==> c.Top?) && (node != null ==> node.red == t.red && node.parent == Parent(c))
      decreases if IsRed(t) then 0 else Depth(c) + 1
    {
      ReadingSibling(root, c, t, h);
      if parent.left == node {
        stop, node, c, t, h := StepLeft(node, parent, root, c, t, h);
      } else {
        stop, node, c, t, h := StepRight(node, parent, root, c, t, h);
      }
      if stop {
        node := root.node;
        break;
      }
      AtRoot(root, c, t);
      parent := node.parent;
    }
    t1 := Finish(node, root, stop, c, t, h);
  }

  // ----- taking a node out -----

  lemma {:induction false} SpliceDone(root: Root, c: Ctx, t: Tree, k: Tree, m: Cells)
    requires At(m, c, t) && m.Keys == CtxNodes(c) + Nodes(t)
    requires t.Fork? && ((t.l.Leaf? && k == t.r) || (t.r.Leaf? && k == t.l))
    requires forall n :: n in m && n !in {t.n, Ptr(k), Parent(c)} ==> CellOf(n) == m[n]
    requires k.Fork? ==> k.n in m && CellOf(k.n) == m[k.n].(parent := Parent(c))
    requires !c.Top? ==> c.n in m && CellOf(c.n) == Linked(m, c, Ptr(k))
    requires root.node == RootPtr(c, Ptr(k))
    ensures In(root, c, k)
  {
    var m' := Snap(CtxNodes(c) + Nodes(k));
    assert Nodes(k) <= Nodes(t) && t.n !in Nodes(k);
    assert TreeAt(m, k, t.n);
    Reparent(m, m', k, t.n, Parent(c));
    Rehang(m, m', c, t.n, Ptr(k));
  }

  /** Put the only child of `node` in its place. */
  method Splice(node: Node, child: Node?, root: Root, ghost c: Ctx, ghost t: Tree, ghost k: Tree)
    requires In(root, c, t) && t.Fork? && t.n == node && child == Ptr(k)
    requires (t.l.Leaf? && k == t.r) || (t.r.Leaf? && k == t.l)
    modifies root, CtxNodes(c), Nodes(k)
    ensures In(root, c, k)
  {
    ghost var m := Snap(CtxNodes(c) + Nodes(t));
    Reading(root, c, t);
    SpliceReady(root, c, t, k);
    var parent := node.parent;
    if child != null {
      child.parent := parent;
    }
    if parent != null {
      if parent.left == node {
        parent.left := child;
      } else {
        parent.right := child;
      }
    } else {
      root.node := child;
    }
    SpliceDone(root, c, t, k, m);
  }

  lemma {:induction false} SpliceReady(root: Root, c: Ctx, t: Tree, k: Tree)
    requires In(root, c, t) && t.Fork? && ((t.l.Leaf? && k == t.r) || (t.r.Leaf? && k == t.l))
    ensures Nodes(k) <= Nodes(t) && t.n !in Nodes(k) && (k.Fork? ==> k.n in Nodes(k))
    ensures !c.Top? ==> c.n in CtxNodes(c) && c.n !in Nodes(t)
    ensures t.n !in CtxNodes(c) && CtxNodes(c) !! Nodes(t)
  {
    assert TreeAt(Snap(CtxNodes(c) + Nodes(t)), t, Parent(c));
  }

  lemma {:induction false} ReplaceDone(root: Root, c: Ctx, t: Tree, s: Node, m: Cells)
    requires At(m, c, t) && m.Keys == CtxNodes(c) + Nodes(t) && t.Fork? && s !in m
    requires forall n :: n in m && n !in {t.n, Ptr(t.l), Ptr(t.r), Parent(c)} ==> CellOf(n) == m[n]
    requires t.l.Fork? ==> t.l.n in m && CellOf(t.l.n) == m[t.l.n].(parent := s)
    requires t.r.Fork? ==> t.r.n in m && CellOf(t.r.n) == m[t.r.n].(parent := s)
    requires !c.Top? ==> c.n in m && CellOf(c.n) == Linked(m, c, s)
    requires CellOf(s) == m[t.n] && root.node == RootPtr(c, s)
    ensures In(root, c, Fork(t.l, s, t.red, t.r))
  {
    var t' := Fork(t.l, s, t.red, t.r);
    var m' := Snap(CtxNodes(c) + Nodes(t'));
    Reparent(m, m', t.l, t.n, s);
    Reparent(m, m', t.r, t.n, s);
    Rehang(m, m', c, t.n, s);
  }

  lemma {:induction false} ReplaceReady(root: Root, c: Ctx, t: Tree)
    requires In(root, c, t) && t.Fork?
    ensures CellOf(t.n) == Cell(Ptr(t.l), Ptr(t.r), Parent(c), t.red)
    ensures t.l.Fork? ==> t.l.n in Nodes(t) && t.l.n != t.n
    ensures t.r.Fork? ==> t.r.n in Nodes(t) && t.r.n != t.n
    ensures t.l.Fork? && t.r.Fork? ==> t.l.n != t.r.n
    ensures t.n !in CtxNodes(c) && CtxNodes(c) !! Nodes(t)
    ensures !c.Top? ==> c.n in CtxNodes(c) && (c.n.left == t.n <==> c.InLeft?)
  {
    Reading(root, c, t);
    Facts(root, c, t);
    var m := Snap(CtxNodes(c) + Nodes(t));
    assert TreeAt(m, t, Parent(c));
    assert t.l.Fork? ==> t.l.n in Nodes(t.l);
    assert t.r.Fork? ==> t.r.n in Nodes(t.r);
  }

  /** The statements that put `s` in the place of `victim`, and what they do to the fields they touch. */
  method ReplaceLinks(victim: Node, s: Node, root: Root)
    requires victim.left != null && victim.left != victim && victim.right != victim && victim.left != victim.right
    requires s != victim && s != victim.left && s != victim.right && s != victim.parent
    requires victim.parent != victim && victim.parent != victim.left
    requires (victim.parent != null ==> victim.parent != victim.right)
    modifies root, s, victim.left, victim.right, victim.parent
    ensures CellOf(s) == old(CellOf(victim)) && CellOf(victim) == old(CellOf(victim))
    ensures var l := old(victim.left); l != null && CellOf(l) == old(CellOf(l)).(parent := s)
    ensures var r := old(victim.right); r != null ==> CellOf(r) == old(CellOf(r)).(parent := s)
    ensures var p := old(victim.parent);
            p != null ==>
              CellOf(p) == if old(p.left) == victim then old(CellOf(p)).(left := s) else old(CellOf(p)).(right := s)
    ensures root.node == if old(victim.parent) == null then s else old(root.node)
  {
    s.parent := victim.parent;
    s.red := victim.red;
    s.right := victim.right;
    s.left := victim.left;
    if victim.parent != null {
      if victim.parent.left == victim {
        victim.parent.left := s;
      } else {
        victim.parent.right := s;
      }
    } else {
      root.node := s;
    }
    victim.left.parent := s;
    if victim.right != null {
      victim.right.parent := s;
    }
  }

  /** Put the detached node `s` in the place of `victim`. */
  method Replace(victim: Node, s: Node, root: Root, ghost c: Ctx, ghost t: Tree)
    requires In(root, c, t) && t.Fork? && t.n == victim && t.l.Fork? && s !in All(c, t)
    modifies root, CtxNodes(c), Nodes(t), s
    ensures In(root, c, Fork(t.l, s, t.red, t.r))
  {
    ghost var m := Snap(CtxNodes(c) + Nodes(t));
    ReplaceReady(root, c, t);
    ReplaceLinks(victim, s, root);
    ReplaceDone(root, c, t, s, m);
  }

  // ----- the path to the successor -----

  /** Append surroundings: the path `p` below the place `base`. */
  ghost function Rebase(p: Ctx, base: Ctx): Ctx {
    match p
    case Top => base
    case InLeft(up, n, red, r) => InLeft(Rebase(up, base), n, red, r)
    case InRight(l, n, red, up) => InRight(l, n, red, Rebase(up, base))
  }

  /** A path that only goes left. */
  ghost predicate LeftPath(p: Ctx) {
    p.Top? || (p.InLeft? && LeftPath(p.up))
  }

  lemma {:induction false} RebaseIn(root: Root, p: Ctx, base: Ctx, t: Tree)
    ensures In(root, Rebase(p, base), t) <==> In(root, base, Plug(p, t))
    ensures All(Rebase(p, base), t) == All(base, Plug(p, t))
    ensures Order(Rebase(p, base), t) == Order(base, Plug(p, t))
    ensures Parent(Rebase(p, base)) == if p.Top? then Parent(base) else p.n
    decreases p
  {
    if !p.Top? {
      Zip(root, Rebase(p, base), t);
      ZipOrder(Rebase(p, base), t);
      RebaseIn(root, p.up, base, UpTree(p, t));
    }
  }

  lemma {:induction false} LeftPathOrder(p: Ctx, t: Tree)
    requires LeftPath(p)
    ensures InOrder(Plug(p, t)) == InOrder(t) + After(p) && Before(p) == []
    decreases p
  {
    PlugInOrder(p, t);
    if !p.Top? {
      LeftPathOrder(p.up, t);
    }
  }

  /** The rules do not depend on which node carries a colour. */
  lemma {:induction false} RenameFits(p: Ctx, l: Tree, n: Node, n': Node, red: bool, c: Ctx, h: int)
    requires Fits(Rebase(p, InRight(l, n, red, c)), h)
    ensures Fits(Rebase(p, InRight(l, n', red, c)), h)
    decreases p
  {
    if !p.Top? {
      RenameFits(p.up, l, n, n', red, c, if p.red then h else h + 1);
      assert !p.up.Top? ==> Rebase(p.up, InRight(l, n, red, c)).red == Rebase(p.up, InRight(l, n', red, c)).red;
    }
  }

  // ----- rb_erase -----

  /** The label `color`: a removed black node leaves a deficit, a removed red one does not. */
  method Rebalance(child: Node?, parent: Node?, red: bool, root: Root, ghost c: Ctx, ghost k: Tree, ghost h: int)
    returns (ghost t1: Tree)
    requires In(root, c, k) && child == Ptr(k) && parent == Parent(c)
    requires Fits(c, h) && Calm(k) && Balanced(k, if red then h else h - 1) && (red ==> !IsRed(k))
    modifies root, All(c, k)
    ensures In(root, Top, t1) && RedBlack(t1) && InOrder(t1) == Order(c, k)
  {
    if !red {
      t1 := EraseColor(child, parent, root, c, k, h - 1);
    } else {
      PlugIn(root, c, k);
      PlugRedBlack(c, k, h);
      PlugInOrder(c, k);
      t1 := Plug(c, k);
    }
  }

  /** A node with at most one child. */
  method EraseSimple(node: Node, child: Node?, root: Root, ghost c: Ctx, ghost t: Tree, ghost k: Tree, ghost h: int)
    returns (ghost t1: Tree)
    requires Settled(root, c, t, h) && t.Fork? && t.n == node && child == Ptr(k)
    requires (t.l.Leaf? && k == t.r) || (t.r.Leaf? && k == t.l)
    modifies root, All(c, t)
    ensures In(root, Top, t1) && RedBlack(t1) && InOrder(t1) == Order(c, k)
  {
    ReplaceReady(root, c, t);
    SpliceReady(root, c, t, k);
    var parent, red := node.parent, node.red;
    Splice(node, child, root, c, t, k);
    t1 := Rebalance(child, parent, red, root, c, k, h);
  }

  /** Walk down to the leftmost node of the right subtree. */
  method Successor(first: Node, root: Root, ghost base: Ctx, ghost r: Tree, ghost h: int)
    returns (node: Node, ghost p: Ctx, ghost s: Tree, ghost k: int)
    requires In(root, base, r) && r.Fork? && r.n == first && Balanced(r, h) && Fits(base, h) && Calm(r)
    requires (IsRed(r) ==> !base.Top? && !base.red)
    ensures LeftPath(p) && Plug(p, s) == r && s.Fork? && s.l.Leaf? && s.n == node
    ensures In(root, Rebase(p, base), s) && Settled(root, Rebase(p, base), s, k)
  {
    node, p, s, k := first, Top, r, h;
    Facts(root, base, r);
    while node.left != null
      invariant LeftPath(p) && Plug(p, s) == r && s.Fork? && s.n == node && node.left == Ptr(s.l)
      invariant Settled(root, Rebase(p, base), s, k)
      decreases s
    {
      p, s, k := OneDown(root, base, p, s, k);
      node := node.left;
    }
  }

  /** The path, the tree below it and its black height after a step to the left. */
  lemma OneDown(root: Root, base: Ctx, p: Ctx, s: Tree, k: int) returns (p': Ctx, s': Tree, k': int)
    requires Settled(root, Rebase(p, base), s, k) && LeftPath(p) && s.Fork? && s.l.Fork?
    ensures p' == InLeft(p, s.n, s.red, s.r) && s' == s.l && LeftPath(p') && Plug(p', s') == Plug(p, s)
    ensures Settled(root, Rebase(p', base), s', k') && s'.n.left == Ptr(s'.l) && s.n.left == s'.n
  {
    Facts(root, Rebase(p, base), s);
    p', s', k' := InLeft(p, s.n, s.red, s.r), s.l, if s.red then k else k - 1;
    Zip(root, Rebase(p', base), s');
    Facts(root, Rebase(p', base), s');
  }

  /** A node with two children: its successor leaves its own place and takes that of the node. */
  method EraseTwo(node: Node, root: Root, ghost c: Ctx, ghost t: Tree, ghost h: int) returns (ghost t1: Tree)
    requires Settled(root, c, t, h) && t.Fork? && t.n == node && t.l.Fork? && t.r.Fork?
    modifies root, All(c, t)
    ensures In(root, Top, t1) && RedBlack(t1) && InOrder(t1) == Before(c) + InOrder(t.l) + InOrder(t.r) + After(c)
  {
    ghost var base, hr := InRight(t.l, t.n, t.red, c), if t.red then h else h - 1;
    Zip(root, base, t.r);
    ReplaceReady(root, c, t);
    var s;
    ghost var p, st, k;
    s, p, st, k := Successor(node.right, root, base, t.r, hr);
    t1 := EraseAt(node, s, root, c, t, p, st, k);
    SuccessorOrder(c, t, p, st);
  }

  /** Taking out the node, or letting its successor replace it, removes the same element from the order. */
  lemma {:induction false} SuccessorOrder(c: Ctx, t: Tree, p: Ctx, s: Tree)
    requires t.Fork? && s.Fork? && s.l.Leaf? && LeftPath(p) && Plug(p, s) == t.r
    ensures Order(c, Fork(t.l, s.n, t.red, Plug(p, s.r))) == Before(c) + InOrder(t.l) + InOrder(t.r) + After(c)
  {
    LeftPathOrder(p, s);
    LeftPathOrder(p, s.r);
    assert InOrder(s) == [s.n] + InOrder(s.r);
    assert InOrder(t.r) == [s.n] + InOrder(Plug(p, s.r));
  }

  lemma {:induction false} PathNodes(root: Root, c: Ctx, t: Tree, p: Ctx, s: Tree)
    requires t.Fork? && s.Fork? && Plug(p, s) == t.r
    requires In(root, Rebase(p, InRight(t.l, t.n, t.red, c)), s)
    ensures All(Rebase(p, InRight(t.l, t.n, t.red, c)), s) == All(c, t)
    ensures s.n in Nodes(s) && s.n !in CtxNodes(Rebase(p, InRight(t.l, t.n, t.red, c)))
    ensures s.n !in Nodes(s.l) && s.n !in Nodes(s.r)
    ensures s.n.parent == (if p.Top? then t.n else p.n) && (s.n.parent == t.n <==> p.Top?)
  {
    var base := InRight(t.l, t.n, t.red, c);
    RebaseIn(root, p, base, s);
    Zip(root, base, t.r);
    Facts(root, Rebase(p, base), s);
    if !p.Top? {
      assert p.n in CtxNodes(p);
      RebaseIn(root, p, Top, s);
      Zip(root, base, t.r);
      PathInside(p, s);
      assert TreeAt(Snap(All(c, t)), t, Parent(c)) by { assert In(root, c, t); }
    }
  }

  lemma {:induction false} PathInside(p: Ctx, s: Tree)
    ensures CtxNodes(p) <= Nodes(Plug(p, s))
    decreases p
  {
    if !p.Top? {
      PathInside(p.up, UpTree(p, s));
      PlugNodes(p.up, UpTree(p, s));
    }
  }

  method EraseAt(node: Node, s: Node, root: Root, ghost c: Ctx, ghost t: Tree, ghost p: Ctx, ghost st: Tree,
                 ghost k: int)
    returns (ghost t1: Tree)
    requires t.Fork? && t.n == node && t.l.Fork? && st.Fork? && st.l.Leaf? && st.n == s && Plug(p, st) == t.r
    requires Settled(root, Rebase(p, InRight(t.l, t.n, t.red, c)), st, k)
    modifies root, All(c, t)
    ensures In(root, Top, t1) && RedBlack(t1)
    ensures InOrder(t1) == Order(c, Fork(t.l, s, t.red, Plug(p, st.r)))
  {
    ghost var base, base' := InRight(t.l, t.n, t.red, c), InRight(t.l, s, t.red, c);
    ghost var rest := Plug(p, st.r);
    PathNodes(root, c, t, p, st);
    ReplaceReady(root, Rebase(p, base), st);
    var child, parent, red := s.right, s.parent, s.red;
    Splice(s, child, root, Rebase(p, base), st, st.r);
    RebaseIn(root, p, base, st.r);
    Zip(root, base, rest);
    if s.parent == node {
      parent := s;
    }
    Replace(node, s, root, c, Fork(t.l, t.n, t.red, rest));
    Zip(root, base', rest);
    RebaseIn(root, p, base', st.r);
    RenameFits(p, t.l, t.n, s, t.red, c, k);
    t1 := Rebalance(child, parent, red, root, Rebase(p, base'), st.r, k);
    ZipOrder(base', rest);
  }

  lemma {:induction false} Locate(t: Tree, c: Ctx, n: Node) returns (d: Ctx, s: Tree)
    requires n in Nodes(t)
    ensures Plug(d, s) == Plug(c, t) && s.Fork? && s.n == n
    decreases t
  {
    if t.n == n {
      d, s := c, t;
    } else if n in Nodes(t.l) {
      d, s := Locate(t.l, InLeft(c, t.n, t.red, t.r), n);
    } else {
      d, s := Locate(t.r, InRight(t.l, t.n, t.red, c), n);
    }
  }

  ghost function Without(ns: seq<Node>, n: Node): seq<Node> {
    if ns == [] then [] else if ns[0] == n then ns[1..] else [ns[0]] + Without(ns[1..], n)
  }

  lemma {:induction false} WithoutMiddle(a: seq<Node>, n: Node, b: seq<Node>)
    requires n !in a
    ensures Without(a + [n] + b, n) == a + b
  {
    if a == [] {
      assert (a + [n] + b)[1..] == b && a + b == b;
    } else {
      WithoutMiddle(a[1..], n, b);
      var s := a + [n] + b;
      assert s[0] == a[0] && s[1..] == a[1..] + [n] + b;
      assert [a[0]] + (a[1..] + b) == a + b;
    }
  }

  lemma {:induction false} BeforeNodes(c: Ctx, n: Node)
    requires n in Before(c)
    ensures n in CtxNodes(c)
    decreases c
  {
    if c.InLeft? {
      BeforeNodes(c.up, n);
    } else if c.InRight? {
      InOrderNodes(c.l, n);
      if n in Before(c.up) {
        BeforeNodes(c.up, n);
      }
    }
  }

  /** The order without the node in the focus. */
  lemma {:induction false} OrderWithout(root: Root, c: Ctx, t: Tree)
    requires In(root, c, t) && t.Fork?
    ensures Without(Order(c, t), t.n) == Before(c) + InOrder(t.l) + InOrder(t.r) + After(c)
  {
    NotBefore(root, c, t);
    SplitOrder(c, t);
  }

  lemma {:induction false} SplitOrder(c: Ctx, t: Tree)
    requires t.Fork? && t.n !in Before(c) + InOrder(t.l)
    ensures Without(Order(c, t), t.n) == Before(c) + InOrder(t.l) + InOrder(t.r) + After(c)
  {
    SplitSeq(Before(c), InOrder(t.l), t.n, InOrder(t.r), After(c));
  }

  lemma {:induction false} SplitSeq(p: seq<Node>, l: seq<Node>, n: Node, r: seq<Node>, q: seq<Node>)
    requires n !in p + l
    ensures Without(p + (l + [n] + r) + q, n) == p + l + r + q
  {
    WithoutMiddle(p + l, n, r + q);
    assert p + (l + [n] + r) + q == p + l + [n] + (r + q);
    assert p + l + (r + q) == p + l + r + q;
  }

  lemma {:induction false} NotBefore(root: Root, c: Ctx, t: Tree)
    requires In(root, c, t) && t.Fork?
    ensures t.n !in Before(c) + InOrder(t.l)
  {
    ReplaceReady(root, c, t);
    InOrderNodes(t.l, t.n);
    if t.n in Before(c) {
      BeforeNodes(c, t.n);
    }
    assert TreeAt(Snap(CtxNodes(c) + Nodes(t)), t, Parent(c));
  }

  /** Every node of a red-black tree has its place in it. */
  lemma {:induction false} Place(root: Root, t0: Tree, node: Node) returns (c: Ctx, t: Tree, h: int)
    requires In(root, Top, t0) && RedBlack(t0) && node in Nodes(t0)
    ensures Settled(root, c, t, h) && t.Fork? && t.n == node && All(c, t) == Nodes(t0)
    ensures Without(InOrder(t0), node) == Before(c) + InOrder(t.l) + InOrder(t.r) + After(c)
  {
    c, t := Locate(t0, Top, node);
    PlugIn(root, c, t);
    var h0 :| Balanced(t0, h0);
    UnplugFits(c, t, h0);
    h :| Balanced(t, h) && Fits(c, h);
    PlugInOrder(c, t);
    OrderWithout(root, c, t);
  }

  method EraseInPlace(node: Node, root: Root, ghost c: Ctx, ghost t: Tree, ghost h: int) returns (ghost t1: Tree)
    requires Settled(root, c, t, h) && t.Fork? && t.n == node
    modifies root, All(c, t)
    ensures In(root, Top, t1) && RedBlack(t1) && InOrder(t1) == Before(c) + InOrder(t.l) + InOrder(t.r) + After(c)
  {
    ReplaceReady(root, c, t);
    if node.left == null {
      t1 := EraseSimple(node, node.right, root, c, t, t.r, h);
      assert InOrder(t.l) == [] && Before(c) + [] == Before(c);
    } else if node.right == null {
      t1 := EraseSimple(node, node.left, root, c, t, t.l, h);
      assert InOrder(t.r) == [] && Before(c) + InOrder(t.l) + [] == Before(c) + InOrder(t.l);
    } else {
      t1 := EraseTwo(node, root, c, t, h);
    }
  }

  /**
   `rb_erase`: removing a node of a red-black tree leaves a red-black tree whose
   nodes, in order, are the old ones without that node.
   */
  method Erase(node: Node, root: Root, ghost t0: Tree) returns (ghost t1: Tree)
    requires In(root, Top, t0) && RedBlack(t0) && node in Nodes(t0)
    modifies root, Nodes(t0)
    ensures In(root, Top, t1) && RedBlack(t1) && InOrder(t1) == Without(InOrder(t0), node)
  {
    ghost var c, t, h := Place(root, t0, node);
    t1 := EraseInPlace(node, root, c, t, h);
  }
}
