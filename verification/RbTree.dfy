/**
 The red-black tree of the kernel on linked nodes with parent pointers.  A ghost
 tree says what the pointers represent; a ghost context (the path from a place in
 the tree up to the root) says what surrounds the node an operation works on.
 */
module RbTree {

  class Node {
    var left: Node?
    var right: Node?
    var parent: Node?
    var red: bool

    constructor ()
    {
      left, right, parent, red := null, null, null, false;
    }
  }

  class Root {
    var node: Node?

    constructor ()
      ensures node == null
    {
      node := null;
    }
  }

  datatype Tree = Leaf | Fork(l: Tree, n: Node, red: bool, r: Tree)

  /** The surroundings of a subtree: it is the left or the right child of `n`, and so on upwards. */
  datatype Ctx =
    | Top
    | InLeft(up: Ctx, n: Node, red: bool, r: Tree)
    | InRight(l: Tree, n: Node, red: bool, up: Ctx)

  // ----- shape -----

  ghost function Ptr(t: Tree): Node? { if t.Leaf? then null else t.n }

  ghost function Parent(c: Ctx): Node? { if c.Top? then null else c.n }

  ghost function Nodes(t: Tree): set<Node> {
    match t
    case Leaf => {}
    case Fork(l, n, _, r) => Nodes(l) + {n} + Nodes(r)
  }

  ghost function CtxNodes(c: Ctx): set<Node> {
    match c
    case Top => {}
    case InLeft(up, n, _, r) => CtxNodes(up) + {n} + Nodes(r)
    case InRight(l, n, _, up) => CtxNodes(up) + {n} + Nodes(l)
  }

  ghost function InOrder(t: Tree): seq<Node> {
    match t
    case Leaf => []
    case Fork(l, n, _, r) => InOrder(l) + [n] + InOrder(r)
  }

  /** The nodes before and after the place of a context. */
  ghost function Before(c: Ctx): seq<Node> {
    match c
    case Top => []
    case InLeft(up, _, _, _) => Before(up)
    case InRight(l, n, _, up) => Before(up) + InOrder(l) + [n]
  }

  ghost function After(c: Ctx): seq<Node> {
    match c
    case Top => []
    case InLeft(up, n, _, r) => [n] + InOrder(r) + After(up)
    case InRight(_, _, _, up) => After(up)
  }

  /** The whole tree: `t` put into its surroundings. */
  ghost function Plug(c: Ctx, t: Tree): Tree {
    match c
    case Top => t
    case InLeft(up, n, red, r) => Plug(up, Fork(t, n, red, r))
    case InRight(l, n, red, up) => Plug(up, Fork(l, n, red, t))
  }

  /** The root pointer, when the subtree in place `c` is pointed to by `hole`. */
  ghost function RootPtr(c: Ctx, hole: Node?): Node? {
    if c.Top? then hole else RootPtr(c.up, c.n)
  }

  ghost function Depth(c: Ctx): nat {
    if c.Top? then 0 else Depth(c.up) + 1
  }

  // ----- what the heap represents -----

  /** The fields of a node. */
  datatype Cell = Cell(left: Node?, right: Node?, parent: Node?, red: bool)

  type Cells = map<Node, Cell>

  ghost function CellOf(n: Node): Cell
    reads n
  {
    Cell(n.left, n.right, n.parent, n.red)
  }

  ghost function Snap(ns: set<Node>): Cells
    reads ns
  {
    map n | n in ns :: CellOf(n)
  }

  /** The cells of `t` hold exactly its links, parent links and colours, and its nodes are all different. */
  ghost predicate TreeAt(m: Cells, t: Tree, p: Node?) {
    match t
    case Leaf => true
    case Fork(l, n, red, r) =>
      n in m && m[n] == Cell(Ptr(l), Ptr(r), p, red) &&
      n !in Nodes(l) && n !in Nodes(r) && Nodes(l) !! Nodes(r) &&
      TreeAt(m, l, n) && TreeAt(m, r, n)
  }

  /** The same for the surroundings of a subtree that is pointed to by `hole`. */
  ghost predicate CtxAt(m: Cells, c: Ctx, hole: Node?) {
    match c
    case Top => true
    case InLeft(up, n, red, r) =>
      n in m && m[n] == Cell(hole, Ptr(r), Parent(up), red) &&
      n !in CtxNodes(up) && n !in Nodes(r) && Nodes(r) !! CtxNodes(up) &&
      TreeAt(m, r, n) && CtxAt(m, up, n)
    case InRight(l, n, red, up) =>
      n in m && m[n] == Cell(Ptr(l), hole, Parent(up), red) &&
      n !in CtxNodes(up) && n !in Nodes(l) && Nodes(l) !! CtxNodes(up) &&
      TreeAt(m, l, n) && CtxAt(m, up, n)
  }

  ghost predicate At(m: Cells, c: Ctx, t: Tree) {
    CtxNodes(c) !! Nodes(t) && CtxAt(m, c, Ptr(t)) && TreeAt(m, t, Parent(c))
  }

  /** The heap represents the tree `Plug(c, t)` rooted at `root`. */
  ghost predicate In(root: Root, c: Ctx, t: Tree)
    reads root, CtxNodes(c), Nodes(t)
  {
    root.node == RootPtr(c, Ptr(t)) && At(Snap(CtxNodes(c) + Nodes(t)), c, t)
  }

  ghost predicate Agree(m: Cells, m': Cells, ns: set<Node>) {
    forall n :: n in ns ==> n in m && n in m' && m'[n] == m[n]
  }

  lemma {:induction false} TreeFrame(m: Cells, m': Cells, t: Tree, p: Node?)
    requires TreeAt(m, t, p)
    requires Agree(m, m', Nodes(t))
    ensures TreeAt(m', t, p)
  {
    if t.Fork? {
      TreeFrame(m, m', t.l, t.n);
      TreeFrame(m, m', t.r, t.n);
    }
  }

  lemma {:induction false} CtxFrame(m: Cells, m': Cells, c: Ctx, hole: Node?)
    requires CtxAt(m, c, hole)
    requires Agree(m, m', CtxNodes(c))
    ensures CtxAt(m', c, hole)
  {
    match c
    case Top =>
    case InLeft(up, n, _, r) => TreeFrame(m, m', r, n); CtxFrame(m, m', up, n);
    case InRight(l, n, _, up) => TreeFrame(m, m', l, n); CtxFrame(m, m', up, n);
  }

  /** Only the parent link of the subtree's root changes. */
  lemma {:induction false} Reparent(m: Cells, m': Cells, t: Tree, p: Node?, q: Node?)
    requires TreeAt(m, t, p)
    requires t.Fork? ==> t.n in m && t.n in m' && m'[t.n] == m[t.n].(parent := q)
    requires Agree(m, m', Nodes(t) - {Ptr(t)})
    ensures TreeAt(m', t, q)
  {
    if t.Fork? {
      TreeFrame(m, m', t.l, t.n);
      TreeFrame(m, m', t.r, t.n);
    }
  }

  /** The cell of the node above, after its link to the subtree has changed to `hole`. */
  ghost function Linked(m: Cells, c: Ctx, hole: Node?): Cell
    requires !c.Top? && c.n in m
  {
    if c.InLeft? then m[c.n].(left := hole) else m[c.n].(right := hole)
  }

  lemma {:induction false} Rehang(m: Cells, m': Cells, c: Ctx, old_: Node?, new_: Node?)
    requires CtxAt(m, c, old_)
    requires !c.Top? ==> c.n in m' && m'[c.n] == Linked(m, c, new_)
    requires Agree(m, m', CtxNodes(c) - {Parent(c)})
    ensures CtxAt(m', c, new_)
  {
    match c
    case Top =>
    case InLeft(up, n, _, r) => TreeFrame(m, m', r, n); CtxFrame(m, m', up, n);
    case InRight(l, n, _, up) => TreeFrame(m, m', l, n); CtxFrame(m, m', up, n);
  }

  lemma {:induction false} NodesIn(m: Cells, t: Tree, p: Node?)
    requires TreeAt(m, t, p)
    ensures forall n :: n in Nodes(t) ==> n in m
  {
    if t.Fork? {
      NodesIn(m, t.l, t.n);
      NodesIn(m, t.r, t.n);
    }
  }

  lemma {:induction false} CtxNodesIn(m: Cells, c: Ctx, hole: Node?)
    requires CtxAt(m, c, hole)
    ensures forall n :: n in CtxNodes(c) ==> n in m
  {
    match c
    case Top =>
    case InLeft(up, n, _, r) => NodesIn(m, r, n); CtxNodesIn(m, up, n);
    case InRight(l, n, _, up) => NodesIn(m, l, n); CtxNodesIn(m, up, n);
  }

  // ----- the rotations -----

  ghost function RotatedLeft(t: Tree): Tree
    requires t.Fork? && t.r.Fork?
  {
    Fork(Fork(t.l, t.n, t.red, t.r.l), t.r.n, t.r.red, t.r.r)
  }

  ghost function RotatedRight(t: Tree): Tree
    requires t.Fork? && t.l.Fork?
  {
    Fork(t.l.l, t.l.n, t.l.red, Fork(t.l.r, t.n, t.red, t.r))
  }

  /** Three subtrees under two nodes: where they hang, and that everything is apart. */
  ghost predicate Pieces(m: Cells, a: Tree, pa: Node?, x: Node, b: Tree, pb: Node?, y: Node, d: Tree, pd: Node?) {
    x != y && {x, y} !! Nodes(a) && {x, y} !! Nodes(b) && {x, y} !! Nodes(d) &&
    Nodes(a) !! Nodes(b) && Nodes(a) !! Nodes(d) && Nodes(b) !! Nodes(d) &&
    TreeAt(m, a, pa) && TreeAt(m, b, pb) && TreeAt(m, d, pd)
  }

  lemma {:induction false} LeftPieces(m: Cells, t: Tree, p: Node?)
    requires t.Fork? && t.l.Fork?
    ensures TreeAt(m, t, p) <==>
            && Pieces(m, t.l.l, t.l.n, t.l.n, t.l.r, t.l.n, t.n, t.r, t.n)
            && t.n in m && m[t.n] == Cell(t.l.n, Ptr(t.r), p, t.red)
            && t.l.n in m && m[t.l.n] == Cell(Ptr(t.l.l), Ptr(t.l.r), t.n, t.l.red)
  {
    assert TreeAt(m, t, p) ==> TreeAt(m, t.l, t.n);
  }

  lemma {:induction false} RightPieces(m: Cells, t: Tree, p: Node?)
    requires t.Fork? && t.r.Fork?
    ensures TreeAt(m, t, p) <==>
            && Pieces(m, t.l, t.n, t.n, t.r.l, t.r.n, t.r.n, t.r.r, t.r.n)
            && t.n in m && m[t.n] == Cell(Ptr(t.l), t.r.n, p, t.red)
            && t.r.n in m && m[t.r.n] == Cell(Ptr(t.r.l), Ptr(t.r.r), t.n, t.r.red)
  {
    assert TreeAt(m, t, p) ==> TreeAt(m, t.r, t.n);
  }

  lemma {:induction false} MovePieces(m: Cells, m': Cells, a: Tree, b: Tree, d: Tree, x: Node, y: Node, pa: Node?,
                                      pb: Node?, pb': Node?, pd: Node?)
    requires Pieces(m, a, pa, x, b, pb, y, d, pd)
    requires Agree(m, m', Nodes(a)) && Agree(m, m', Nodes(d)) && Agree(m, m', Nodes(b) - {Ptr(b)})
    requires b.Fork? ==> b.n in m && b.n in m' && m'[b.n] == m[b.n].(parent := pb')
    ensures Pieces(m', a, pa, x, b, pb', y, d, pd)
  {
    TreeFrame(m, m', a, pa);
    TreeFrame(m, m', d, pd);
    Reparent(m, m', b, pb, pb');
  }

  /** What is changed by a rotation around `x` and `y` with middle subtree `b`. */
  ghost predicate Changes(m: Cells, m': Cells, c: Ctx, x: Node, y: Node, b: Tree, q: Node, top: Node)
    requires !c.Top? ==> c.n in m
  {
    Agree(m, m', m.Keys - {x, y, Ptr(b), Parent(c)}) && x in m' && y in m' &&
    (b.Fork? ==> b.n in m && b.n in m' && m'[b.n] == m[b.n].(parent := q)) &&
    (!c.Top? ==> c.n in m' && m'[c.n] == Linked(m, c, top))
  }

  lemma {:induction false} RotateLeftCells(m: Cells, m': Cells, c: Ctx, t: Tree)
    requires At(m, c, t) && t.Fork? && t.r.Fork?
    requires Changes(m, m', c, t.n, t.r.n, t.r.l, t.n, t.r.n)
    requires m'[t.n] == Cell(Ptr(t.l), Ptr(t.r.l), t.r.n, t.red)
    requires m'[t.r.n] == Cell(t.n, Ptr(t.r.r), Parent(c), t.r.red)
    ensures At(m', c, RotatedLeft(t))
  {
    NodesIn(m, t, Parent(c));
    CtxNodesIn(m, c, Ptr(t));
    RightPieces(m, t, Parent(c));
    MovePieces(m, m', t.l, t.r.l, t.r.r, t.n, t.r.n, t.n, t.r.n, t.n, t.r.n);
    LeftPieces(m', RotatedLeft(t), Parent(c));
    Rehang(m, m', c, t.n, t.r.n);
  }

  lemma {:induction false} RotateRightCells(m: Cells, m': Cells, c: Ctx, t: Tree)
    requires At(m, c, t) && t.Fork? && t.l.Fork?
    requires Changes(m, m', c, t.l.n, t.n, t.l.r, t.n, t.l.n)
    requires m'[t.n] == Cell(Ptr(t.l.r), Ptr(t.r), t.l.n, t.red)
    requires m'[t.l.n] == Cell(Ptr(t.l.l), t.n, Parent(c), t.l.red)
    ensures At(m', c, RotatedRight(t))
  {
    NodesIn(m, t, Parent(c));
    CtxNodesIn(m, c, Ptr(t));
    LeftPieces(m, t, Parent(c));
    MovePieces(m, m', t.l.l, t.l.r, t.r, t.l.n, t.n, t.l.n, t.l.n, t.n, t.n);
    RightPieces(m', RotatedRight(t), Parent(c));
    Rehang(m, m', c, t.n, t.l.n);
  }

  /** The nodes of a tree in the heap that a local operation may touch. */
  lemma {:induction false} Facts(root: Root, c: Ctx, t: Tree)
    requires In(root, c, t)
    ensures t.Fork? ==>
              t.n in Nodes(t) && t.n !in CtxNodes(c) && CellOf(t.n) == Cell(Ptr(t.l), Ptr(t.r), Parent(c), t.red)
    ensures c.InLeft? ==>
              c.n in CtxNodes(c) && c.n !in Nodes(t) && CellOf(c.n) == Cell(Ptr(t), Ptr(c.r), Parent(c.up), c.red)
    ensures c.InRight? ==>
              c.n in CtxNodes(c) && c.n !in Nodes(t) && CellOf(c.n) == Cell(Ptr(c.l), Ptr(t), Parent(c.up), c.red)
    ensures c.InRight? && t.Fork? ==> Ptr(c.l) != t.n
  {
  }

  /** The statements of the rotation, and what they do to the fields they touch. */
  method RotateLeftLinks(node: Node, right: Node, root: Root)
    requires node.right == right && node != right && right.left != right && right.left != node
    requires node.parent != node && node.parent != right && (node.parent != null ==> node.parent != right.left)
    modifies root, node, right, right.left, node.parent
    ensures CellOf(node) == old(CellOf(node).(right := right.left, parent := right))
    ensures CellOf(right) == old(CellOf(right).(left := node, parent := node.parent))
    ensures var b := old(right.left); b != null ==> CellOf(b) == old(CellOf(b)).(parent := node)
    ensures var p := old(node.parent);
            p != null ==>
              CellOf(p) == if old(p.left) == node then old(CellOf(p)).(left := right)
                           else old(CellOf(p)).(right := right)
    ensures root.node == if old(node.parent) == null then right else old(root.node)
  {
    node.right := right.left;
    if right.left != null {
      right.left.parent := node;
    }
    right.left := node;
    right.parent := node.parent;
    if right.parent != null {
      if node == node.parent.left {
        node.parent.left := right;
      } else {
        node.parent.right := right;
      }
    } else {
      root.node := right;
    }
    node.parent := right;
  }

  /** In a tree, the nodes a left rotation touches are different. */
  lemma {:induction false} LeftReady(root: Root, c: Ctx, t: Tree)
    requires In(root, c, t) && t.Fork? && t.r.Fork?
    ensures var x, y, b := t.n, t.r.n, t.r.l;
            && x.right == y && x != y && y.left == Ptr(b) && Ptr(b) != y && Ptr(b) != x
            && x.parent == Parent(c) && Parent(c) != x && Parent(c) != y && (!c.Top? ==> Parent(c) != Ptr(b))
            && y in Nodes(t) && (b.Fork? ==> b.n in Nodes(t))
            && CellOf(x) == Cell(Ptr(t.l), y, Parent(c), t.red) && CellOf(y) == Cell(Ptr(b), Ptr(t.r.r), x, t.r.red)
    ensures !c.Top? ==> c.n in CtxNodes(c) && (c.n.left == t.n <==> c.InLeft?)
  {
    var m := Snap(CtxNodes(c) + Nodes(t));
    Facts(root, c, t);
    RightPieces(m, t, Parent(c));
    assert CellOf(t.r.n) == m[t.r.n];
  }

  /** The heap now, against the cells `m` of the tree before the rotation. */
  lemma {:induction false} LeftDone(root: Root, c: Ctx, t: Tree, m: Cells)
    requires At(m, c, t) && t.Fork? && t.r.Fork? && m.Keys == CtxNodes(c) + Nodes(t)
    requires forall n :: n in m && n !in {t.n, t.r.n, Ptr(t.r.l), Parent(c)} ==> CellOf(n) == m[n]
    requires CellOf(t.n) == Cell(Ptr(t.l), Ptr(t.r.l), t.r.n, t.red)
    requires CellOf(t.r.n) == Cell(t.n, Ptr(t.r.r), Parent(c), t.r.red)
    requires t.r.l.Fork? ==> t.r.l.n in m && CellOf(t.r.l.n) == m[t.r.l.n].(parent := t.n)
    requires !c.Top? ==> CellOf(c.n) == Linked(m, c, t.r.n)
    requires root.node == RootPtr(c, t.r.n)
    ensures In(root, c, RotatedLeft(t))
  {
    var all := CtxNodes(c) + Nodes(t);
    assert t.r.n in Nodes(t.r) && t.n in all && t.r.n in all;
    RotateLeftCells(m, Snap(all), c, t);
    assert Nodes(RotatedLeft(t)) == Nodes(t);
  }

  method RotateLeft(node: Node, root: Root, ghost c: Ctx, ghost t: Tree)
    requires In(root, c, t) && t.Fork? && t.n == node && t.r.Fork?
    modifies root, CtxNodes(c), Nodes(t)
    ensures In(root, c, RotatedLeft(t))
  {
    ghost var m := Snap(CtxNodes(c) + Nodes(t));
    LeftReady(root, c, t);
    var right := node.right;
    RotateLeftLinks(node, right, root);
    LeftDone(root, c, t, m);
  }

  method RotateRightLinks(node: Node, left: Node, root: Root)
    requires node.left == left && node != left && left.right != left && left.right != node
    requires node.parent != node && node.parent != left && (node.parent != null ==> node.parent != left.right)
    modifies root, node, left, left.right, node.parent
    ensures CellOf(node) == old(CellOf(node).(left := left.right, parent := left))
    ensures CellOf(left) == old(CellOf(left).(right := node, parent := node.parent))
    ensures var b := old(left.right); b != null ==> CellOf(b) == old(CellOf(b)).(parent := node)
    ensures var p := old(node.parent);
            p != null ==>
              CellOf(p) == if old(p.right) == node then old(CellOf(p)).(right := left)
                           else old(CellOf(p)).(left := left)
    ensures root.node == if old(node.parent) == null then left else old(root.node)
  {
    node.left := left.right;
    if left.right != null {
      left.right.parent := node;
    }
    left.right := node;
    left.parent := node.parent;
    if left.parent != null {
      if node == node.parent.right {
        node.parent.right := left;
      } else {
        node.parent.left := left;
      }
    } else {
      root.node := left;
    }
    node.parent := left;
  }

  lemma {:induction false} RightReady(root: Root, c: Ctx, t: Tree)
    requires In(root, c, t) && t.Fork? && t.l.Fork?
    ensures var x, y, b := t.n, t.l.n, t.l.r;
            && x.left == y && x != y && y.right == Ptr(b) && Ptr(b) != y && Ptr(b) != x
            && x.parent == Parent(c) && Parent(c) != x && Parent(c) != y && (!c.Top? ==> Parent(c) != Ptr(b))
            && y in Nodes(t) && (b.Fork? ==> b.n in Nodes(t))
            && CellOf(x) == Cell(y, Ptr(t.r), Parent(c), t.red) && CellOf(y) == Cell(Ptr(t.l.l), Ptr(b), x, t.l.red)
    ensures !c.Top? ==> c.n in CtxNodes(c) && (c.n.right == t.n <==> c.InRight?)
  {
    var m := Snap(CtxNodes(c) + Nodes(t));
    Facts(root, c, t);
    LeftPieces(m, t, Parent(c));
    assert CellOf(t.l.n) == m[t.l.n];
  }

  lemma {:induction false} RightDone(root: Root, c: Ctx, t: Tree, m: Cells)
    requires At(m, c, t) && t.Fork? && t.l.Fork? && m.Keys == CtxNodes(c) + Nodes(t)
    requires forall n :: n in m && n !in {t.n, t.l.n, Ptr(t.l.r), Parent(c)} ==> CellOf(n) == m[n]
    requires CellOf(t.n) == Cell(Ptr(t.l.r), Ptr(t.r), t.l.n, t.red)
    requires CellOf(t.l.n) == Cell(Ptr(t.l.l), t.n, Parent(c), t.l.red)
    requires t.l.r.Fork? ==> t.l.r.n in m && CellOf(t.l.r.n) == m[t.l.r.n].(parent := t.n)
    requires !c.Top? ==> CellOf(c.n) == Linked(m, c, t.l.n)
    requires root.node == RootPtr(c, t.l.n)
    ensures In(root, c, RotatedRight(t))
  {
    var all := CtxNodes(c) + Nodes(t);
    assert t.l.n in Nodes(t.l) && t.n in all && t.l.n in all;
    RotateRightCells(m, Snap(all), c, t);
    assert Nodes(RotatedRight(t)) == Nodes(t);
  }

  method RotateRight(node: Node, root: Root, ghost c: Ctx, ghost t: Tree)
    requires In(root, c, t) && t.Fork? && t.n == node && t.l.Fork?
    modifies root, CtxNodes(c), Nodes(t)
    ensures In(root, c, RotatedRight(t))
  {
    ghost var m := Snap(CtxNodes(c) + Nodes(t));
    RightReady(root, c, t);
    var left := node.left;
    RotateRightLinks(node, left, root);
    RightDone(root, c, t, m);
  }

  // ----- colours -----

  ghost function Painted(t: Tree, red: bool): Tree {
    if t.Leaf? then t else Fork(t.l, t.n, red, t.r)
  }

  lemma {:induction false} PaintDone(root: Root, c: Ctx, t: Tree, m: Cells, red: bool)
    requires At(m, c, t) && t.Fork? && m.Keys == CtxNodes(c) + Nodes(t)
    requires forall n :: n in m && n != t.n ==> CellOf(n) == m[n]
    requires CellOf(t.n) == m[t.n].(red := red) && root.node == RootPtr(c, t.n)
    ensures In(root, c, Painted(t, red))
  {
    var m' := Snap(CtxNodes(c) + Nodes(t));
    TreeFrame(m, m', t.l, t.n);
    TreeFrame(m, m', t.r, t.n);
    CtxFrame(m, m', c, t.n);
    assert Nodes(Painted(t, red)) == Nodes(t);
  }

  method Paint(node: Node, red: bool, root: Root, ghost c: Ctx, ghost t: Tree)
    requires In(root, c, t) && t.Fork? && t.n == node
    modifies node
    ensures In(root, c, Painted(t, red))
  {
    ghost var m := Snap(CtxNodes(c) + Nodes(t));
    node.red := red;
    PaintDone(root, c, t, m, red);
  }

  // ----- moving the focus -----

  ghost function UpTree(c: Ctx, t: Tree): Tree
    requires !c.Top?
  {
    if c.InLeft? then Fork(t, c.n, c.red, c.r) else Fork(c.l, c.n, c.red, t)
  }

  /** Looking at a subtree in its surroundings, or at the tree one level up. */
  lemma {:induction false} Zip(root: Root, c: Ctx, t: Tree)
    requires !c.Top?
    ensures In(root, c, t) <==> In(root, c.up, UpTree(c, t))
    ensures CtxNodes(c) + Nodes(t) == CtxNodes(c.up) + Nodes(UpTree(c, t))
  {
    assert CtxNodes(c) + Nodes(t) == CtxNodes(c.up) + Nodes(UpTree(c, t));
  }

  /** Paint the left child of the focus. */
  method PaintLeft(node: Node, red: bool, root: Root, ghost c: Ctx, ghost t: Tree)
    requires In(root, c, t) && t.Fork? && t.l.Fork? && t.l.n == node
    modifies node
    ensures In(root, c, Fork(Painted(t.l, red), t.n, t.red, t.r))
  {
    ghost var down := InLeft(c, t.n, t.red, t.r);
    Zip(root, down, t.l);
    Paint(node, red, root, down, t.l);
    Zip(root, down, Painted(t.l, red));
  }

  /** Paint the right child of the focus. */
  method PaintRight(node: Node, red: bool, root: Root, ghost c: Ctx, ghost t: Tree)
    requires In(root, c, t) && t.Fork? && t.r.Fork? && t.r.n == node
    modifies node
    ensures In(root, c, Fork(t.l, t.n, t.red, Painted(t.r, red)))
  {
    ghost var down := InRight(t.l, t.n, t.red, c);
    Zip(root, down, t.r);
    Paint(node, red, root, down, t.r);
    Zip(root, down, Painted(t.r, red));
  }

  // ----- the red-black rules -----

  ghost predicate IsRed(t: Tree) { t.Fork? && t.red }

  /** Every path down from `t` passes `h` black nodes. */
  ghost predicate Balanced(t: Tree, h: int) {
    match t
    case Leaf => h == 0
    case Fork(l, _, red, r) => var k := if red then h else h - 1; Balanced(l, k) && Balanced(r, k)
  }

  /** No red node has a red child. */
  ghost predicate Calm(t: Tree) {
    match t
    case Leaf => true
    case Fork(l, _, red, r) => (red ==> !IsRed(l) && !IsRed(r)) && Calm(l) && Calm(r)
  }

  ghost predicate RedBlack(t: Tree) {
    !IsRed(t) && Calm(t) && exists h :: Balanced(t, h)
  }

  /** Surroundings that obey the rules when the place holds a black tree of black height `h`. */
  ghost predicate Fits(c: Ctx, h: int) {
    match c
    case Top => true
    case InLeft(up, _, red, r) =>
      Balanced(r, h) && Calm(r) && (red ==> !IsRed(r) && !up.Top? && !up.red) && Fits(up, if red then h else h + 1)
    case InRight(l, _, red, up) =>
      Balanced(l, h) && Calm(l) && (red ==> !IsRed(l) && !up.Top? && !up.red) && Fits(up, if red then h else h + 1)
  }

  lemma {:induction false} PlugRedBlack(c: Ctx, t: Tree, h: int)
    requires Fits(c, h) && Balanced(t, h) && Calm(t) && (IsRed(t) ==> !c.Top? && !c.red)
    ensures RedBlack(Plug(c, t))
    decreases c
  {
    if !c.Top? {
      PlugRedBlack(c.up, UpTree(c, t), if c.red then h else h + 1);
    }
  }

  lemma {:induction false} PlugInOrder(c: Ctx, t: Tree)
    ensures InOrder(Plug(c, t)) == Before(c) + InOrder(t) + After(c)
    decreases c
  {
    if !c.Top? {
      PlugInOrder(c.up, UpTree(c, t));
    }
  }

  lemma {:induction false} PlugIn(root: Root, c: Ctx, t: Tree)
    ensures In(root, c, t) <==> In(root, Top, Plug(c, t))
    ensures CtxNodes(c) + Nodes(t) == Nodes(Plug(c, t))
    decreases c
  {
    if !c.Top? {
      Zip(root, c, t);
      PlugIn(root, c.up, UpTree(c, t));
    }
  }

  lemma {:induction false} PlugNodes(c: Ctx, t: Tree)
    ensures Nodes(Plug(c, t)) == CtxNodes(c) + Nodes(t)
    decreases c
  {
    if !c.Top? {
      PlugNodes(c.up, UpTree(c, t));
    }
  }

  lemma {:induction false} InOrderNodes(t: Tree, n: Node)
    ensures n in InOrder(t) <==> n in Nodes(t)
  {
    if t.Fork? {
      InOrderNodes(t.l, n);
      InOrderNodes(t.r, n);
    }
  }

  /** The nodes from left to right, of a subtree in its surroundings. */
  ghost function Order(c: Ctx, t: Tree): seq<Node> {
    Before(c) + InOrder(t) + After(c)
  }

  lemma {:induction false} ZipOrder(c: Ctx, t: Tree)
    requires !c.Top?
    ensures Order(c, t) == Order(c.up, UpTree(c, t))
  {
  }

  lemma {:induction false} RotationOrder(t: Tree)
    requires t.Fork?
    ensures t.r.Fork? ==> InOrder(RotatedLeft(t)) == InOrder(t)
    ensures t.l.Fork? ==> InOrder(RotatedRight(t)) == InOrder(t)
  {
  }

  ghost function All(c: Ctx, t: Tree): set<Node> { CtxNodes(c) + Nodes(t) }

  /** The facts about pointers and colours around the focus. */
  lemma {:induction false} Reading(root: Root, c: Ctx, t: Tree)
    requires In(root, c, t) && t.Fork?
    ensures t.n.parent == Parent(c) && t.n in All(c, t)
    ensures !c.Top? ==> c.n in All(c, t) && c.n.red == c.red && c.n.parent == Parent(c.up)
    ensures !c.Top? ==> (c.n.left == t.n <==> c.InLeft?) && (c.n.right == t.n <==> c.InRight?)
  {
    Facts(root, c, t);
    var m := Snap(CtxNodes(c) + Nodes(t));
    assert c.InLeft? && c.r.Fork? ==> c.r.n in CtxNodes(c);
    assert c.InRight? && c.l.Fork? ==> c.l.n in CtxNodes(c);
  }

  /** A root that lies above the focus is black. */
  lemma {:induction false} RootIsBlack(m: Cells, c: Ctx, hole: Node?, h: int)
    requires CtxAt(m, c, hole) && Fits(c, h) && !c.Top?
    ensures var r := RootPtr(c, hole); r != null && r in CtxNodes(c) && r in m && !m[r].red
    decreases c
  {
    if !c.up.Top? {
      RootIsBlack(m, c.up, c.n, if c.red then h else h + 1);
    }
  }

  lemma {:induction false} UnplugFits(c: Ctx, t: Tree, h: int)
    requires Balanced(Plug(c, t), h) && Calm(Plug(c, t)) && !IsRed(Plug(c, t))
    ensures exists k :: Balanced(t, k) && Fits(c, k)
    ensures Calm(t) && (IsRed(t) ==> !c.Top? && !c.red)
    decreases c
  {
    if c.Top? {
      assert Balanced(t, h) && Fits(c, h);
    } else {
      UnplugFits(c.up, UpTree(c, t), h);
      var k :| Balanced(UpTree(c, t), k) && Fits(c.up, k);
      var k' := if c.red then k else k - 1;
      assert Balanced(t, k') && Fits(c, k');
    }
  }

  /** The tree two levels up. */
  ghost function GTree(c: Ctx, t: Tree): Tree
    requires !c.Top? && !c.up.Top?
  {
    UpTree(c.up, UpTree(c, t))
  }

  lemma {:induction false} ZipTwice(root: Root, c: Ctx, t: Tree)
    requires !c.Top? && !c.up.Top?
    ensures In(root, c, t) <==> In(root, c.up, UpTree(c, t))
    ensures In(root, c, t) <==> In(root, c.up.up, GTree(c, t))
    ensures All(c, t) == All(c.up.up, GTree(c, t)) && All(c, t) == All(c.up, UpTree(c, t))
    ensures Order(c, t) == Order(c.up.up, GTree(c, t))
  {
    Zip(root, c, t);
    Zip(root, c.up, UpTree(c, t));
    ZipOrder(c, t);
    ZipOrder(c.up, UpTree(c, t));
  }

  lemma {:induction false} SameNodes(t: Tree, red: bool)
    ensures Nodes(Painted(t, red)) == Nodes(t)
    ensures t.Fork? && t.r.Fork? ==> Nodes(RotatedLeft(t)) == Nodes(t)
    ensures t.Fork? && t.l.Fork? ==> Nodes(RotatedRight(t)) == Nodes(t)
  {
  }
}
