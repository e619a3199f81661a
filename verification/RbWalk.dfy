/** Walking the tree in order: its ends, and the node after and the node before a given one. */
module RbWalk {
  import opened RbTree

  ghost function First(s: seq<Node>): Node? { if s == [] then null else s[0] }

  ghost function Last(s: seq<Node>): Node? { if s == [] then null else s[|s| - 1] }

  /** The heap holds the cells. */
  ghost predicate Holds(cells: Cells)
    reads cells.Keys
  {
    forall n :: n in cells ==> CellOf(n) == cells[n]
  }

  lemma {:induction false} Ends(t: Tree)
    requires t.Fork?
    ensures InOrder(t) != []
    ensures First(InOrder(t)) == if t.l.Leaf? then t.n else First(InOrder(t.l))
    ensures Last(InOrder(t)) == if t.r.Leaf? then t.n else Last(InOrder(t.r))
  {
    if t.l.Fork? {
      Ends(t.l);
    }
    if t.r.Fork? {
      Ends(t.r);
    }
  }

  method Leftmost(node: Node, ghost cells: Cells, ghost t: Tree, ghost p0: Node?) returns (n: Node)
    requires Holds(cells) && TreeAt(cells, t, p0) && t.Fork? && t.n == node
    ensures n == First(InOrder(t))
  {
    n := node;
    ghost var s, p := t, p0;
    while n.left != null
      invariant TreeAt(cells, s, p) && s.Fork? && s.n == n && First(InOrder(s)) == First(InOrder(t))
      decreases s
    {
      Ends(s);
      n := n.left;
      s, p := s.l, s.n;
    }
    Ends(s);
  }

  method Rightmost(node: Node, ghost cells: Cells, ghost t: Tree, ghost p0: Node?) returns (n: Node)
    requires Holds(cells) && TreeAt(cells, t, p0) && t.Fork? && t.n == node
    ensures n == Last(InOrder(t))
  {
    n := node;
    ghost var s, p := t, p0;
    while n.right != null
      invariant TreeAt(cells, s, p) && s.Fork? && s.n == n && Last(InOrder(s)) == Last(InOrder(t))
      decreases s
    {
      Ends(s);
      n := n.right;
      s, p := s.r, s.n;
    }
    Ends(s);
  }

  /** `rb_first`: the first node of the whole tree, `null` if it is empty. */
  method RbFirst(root: Root, ghost t: Tree) returns (n: Node?)
    requires In(root, Top, t)
    ensures n == First(InOrder(t))
  {
    n := root.node;
    if n == null {
      return;
    }
    n := Leftmost(n, Snap(CtxNodes(Top) + Nodes(t)), t, null);
  }

  /** `rb_last`: the last one. */
  method RbLast(root: Root, ghost t: Tree) returns (n: Node?)
    requires In(root, Top, t)
    ensures n == Last(InOrder(t))
  {
    n := root.node;
    if n == null {
      return;
    }
    n := Rightmost(n, Snap(CtxNodes(Top) + Nodes(t)), t, null);
  }

  /** `rb_next`: the node that follows in the order of the whole tree. */
  method RbNext(node: Node, ghost cells: Cells, ghost c: Ctx, ghost t: Tree) returns (r: Node?)
    requires Holds(cells) && At(cells, c, t) && t.Fork? && t.n == node
    ensures r == First(InOrder(t.r) + After(c))
  {
    if node.right != null {
      Ends(t.r);
      r := Leftmost(node.right, cells, t.r, t.n);
      return;
    }
    assert InOrder(t.r) + After(c) == After(c);
    var n := node;
    ghost var d, h := c, t;
    while n.parent != null && n == n.parent.right
      invariant At(cells, d, h) && h.Fork? && h.n == n && After(c) == After(d)
      decreases d
    {
      h := UpTree(d, h);
      d := d.up;
      n := n.parent;
    }
    return n.parent;
  }

  /** `rb_prev`: the node before it. */
  method RbPrev(node: Node, ghost cells: Cells, ghost c: Ctx, ghost t: Tree) returns (r: Node?)
    requires Holds(cells) && At(cells, c, t) && t.Fork? && t.n == node
    ensures r == Last(Before(c) + InOrder(t.l))
  {
    if node.left != null {
      Ends(t.l);
      r := Rightmost(node.left, cells, t.l, t.n);
      return;
    }
    assert Before(c) + InOrder(t.l) == Before(c);
    var n := node;
    ghost var d, h := c, t;
    while n.parent != null && n == n.parent.left
      invariant At(cells, d, h) && h.Fork? && h.n == n && Before(c) == Before(d)
      decreases d
    {
      h := UpTree(d, h);
      d := d.up;
      n := n.parent;
    }
    return n.parent;
  }

  /** The two walk the in-order sequence of the tree one step forward and back. */
  lemma Neighbours(c: Ctx, t: Tree) returns (i: nat)
    requires t.Fork?
    ensures var s := InOrder(Plug(c, t));
            && i < |s| && s[i] == t.n
            && First(InOrder(t.r) + After(c)) == (if i + 1 < |s| then s[i + 1] else null)
            && Last(Before(c) + InOrder(t.l)) == (if i > 0 then s[i - 1] else null)
  {
    PlugInOrder(c, t);
    var a, b := Before(c) + InOrder(t.l), InOrder(t.r) + After(c);
    i := |a|;
    assert InOrder(Plug(c, t)) == a + [t.n] + b;
  }
}
