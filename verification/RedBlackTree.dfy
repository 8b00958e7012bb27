/**
 * The shape of a red-black tree as a value: which node hangs where, and with which colour.
 * `Tree` is a subtree, `Path` is everything around it (the way from the subtree up to the root).
 * The heap in module RedBlackMap is tied to these values; every fact about order and balance
 * is proved here, away from the heap.
 */
module RedBlackTree {
  import opened Basics
  import opened Points

  datatype Color = Red | Black

  /** A stored value: an opaque handle to a piece. */
  type Piece = int

  class Node {
    const key: Point
    const value: Piece
    var color: Color
    var left: Node
    var right: Node
    var parent: Node

    /** A sentinel or a node that is not linked yet: every link leads back to itself. */
    constructor (key: Point, value: Piece, color: Color)
      ensures this.key == key && this.value == value && this.color == color
      ensures left == this && right == this
    {
      this.key, this.value, this.color := key, value, color;
      left, right, parent := this, this, this;
    }
  }

  datatype Tree =
    | Leaf
    | Branch(left: Tree, node: Node, color: Color, right: Tree)

  /** The surroundings of a subtree: the subtree is a left child, a right child, or the whole tree. */
  datatype Path =
    | Top
    | InLeft(up: Path, node: Node, color: Color, right: Tree)
    | InRight(up: Path, left: Tree, node: Node, color: Color)

  // ----- nodes and their order -----

  function Nodes(t: Tree): (s: set<Node>)
    ensures t.Branch? ==> t.node in s
  {
    match t
    case Leaf => {}
    case Branch(l, n, _, r) => Nodes(l) + {n} + Nodes(r)
  }

  function PathNodes(p: Path): (s: set<Node>)
    ensures !p.Top? ==> p.node in s
  {
    match p
    case Top => {}
    case InLeft(up, n, _, r) => PathNodes(up) + {n} + Nodes(r)
    case InRight(up, l, n, _) => PathNodes(up) + {n} + Nodes(l)
  }

  function Inorder(t: Tree): seq<Node> {
    match t
    case Leaf => []
    case Branch(l, n, _, r) => Inorder(l) + [n] + Inorder(r)
  }

  function Before(p: Path): seq<Node> {
    match p
    case Top => []
    case InLeft(up, _, _, _) => Before(up)
    case InRight(up, l, n, _) => Before(up) + (Inorder(l) + [n])
  }

  function After(p: Path): seq<Node> {
    match p
    case Top => []
    case InLeft(up, n, _, r) => [n] + Inorder(r) + After(up)
    case InRight(up, _, _, _) => After(up)
  }

  predicate Sorted(s: seq<Node>) {
    forall i, j :: 0 <= i < j < |s| ==> Less(s[i].key, s[j].key)
  }

  function Plug(p: Path, t: Tree): Tree {
    match p
    case Top => t
    case InLeft(up, n, c, r) => Plug(up, Branch(t, n, c, r))
    case InRight(up, l, n, c) => Plug(up, Branch(l, n, c, t))
  }

  function Append(inner: Path, outer: Path): Path {
    match inner
    case Top => outer
    case InLeft(up, n, c, r) => InLeft(Append(up, outer), n, c, r)
    case InRight(up, l, n, c) => InRight(Append(up, outer), l, n, c)
  }

  function Depth(p: Path): nat {
    match p
    case Top => 0
    case InLeft(up, _, _, _) => 1 + Depth(up)
    case InRight(up, _, _, _) => 1 + Depth(up)
  }

  /** No node occurs twice. */
  predicate Distinct(t: Tree) {
    match t
    case Leaf => true
    case Branch(l, n, _, r) =>
      && Distinct(l) && Distinct(r)
      && n !in Nodes(l) && n !in Nodes(r) && Nodes(l) !! Nodes(r)
  }

  predicate PathDistinct(p: Path) {
    match p
    case Top => true
    case InLeft(up, n, _, r) =>
      && PathDistinct(up) && Distinct(r)
      && n !in PathNodes(up) && n !in Nodes(r) && PathNodes(up) !! Nodes(r)
    case InRight(up, l, n, _) =>
      && PathDistinct(up) && Distinct(l)
      && n !in PathNodes(up) && n !in Nodes(l) && PathNodes(up) !! Nodes(l)
  }

  // ----- balance -----

  function ColorOf(t: Tree): Color {
    if t.Leaf? then Black else t.color
  }

  function Recolor(t: Tree, c: Color): Tree {
    if t.Leaf? then t else t.(color := c)
  }

  function BlackHeight(t: Tree): nat {
    match t
    case Leaf => 0
    case Branch(l, _, c, _) => BlackHeight(l) + (if c == Black then 1 else 0)
  }

  /** No red node has a red child, and both sides of every node have the same black height. */
  predicate Balanced(t: Tree) {
    match t
    case Leaf => true
    case Branch(l, _, c, r) =>
      && Balanced(l) && Balanced(r) && BlackHeight(l) == BlackHeight(r)
      && (c == Red ==> ColorOf(l) == Black && ColorOf(r) == Black)
  }

  /** Putting a balanced tree of black height `h` and root colour `c` here gives a red-black tree. */
  predicate Accepts(p: Path, h: nat, c: Color) {
    match p
    case Top => c == Black
    case InLeft(up, _, c', r) =>
      && Balanced(r) && BlackHeight(r) == h
      && (c' == Red ==> c == Black && ColorOf(r) == Black)
      && Accepts(up, h + (if c' == Black then 1 else 0), c')
    case InRight(up, l, _, c') =>
      && Balanced(l) && BlackHeight(l) == h
      && (c' == Red ==> c == Black && ColorOf(l) == Black)
      && Accepts(up, h + (if c' == Black then 1 else 0), c')
  }

  predicate RedBlack(t: Tree) {
    Balanced(t) && ColorOf(t) == Black
  }

  lemma {:induction false} NodesOfInorder(t: Tree)
    ensures Nodes(t) == set n | n in Inorder(t)
  {
    match t
    case Leaf =>
    case Branch(l, n, c, r) =>
      NodesOfInorder(l);
      NodesOfInorder(r);
  }

  // ----- rotations as functions -----

  function RotateLeft(t: Tree): Tree
    requires t.Branch? && t.right.Branch?
  {
    var y := t.right;
    Branch(Branch(t.left, t.node, t.color, y.left), y.node, y.color, y.right)
  }

  function RotateRight(t: Tree): Tree
    requires t.Branch? && t.left.Branch?
  {
    var y := t.left;
    Branch(y.left, y.node, y.color, Branch(y.right, t.node, t.color, t.right))
  }

  lemma Regroup<T>(a: seq<T>, b: seq<T>, c: seq<T>, d: seq<T>, e: seq<T>)
    ensures a + b + (c + d + e) == (a + b + c) + d + e
  {
  }

  lemma RotateLeftKeepsOrder(t: Tree)
    requires t.Branch? && t.right.Branch?
    ensures Inorder(RotateLeft(t)) == Inorder(t)
  {
    var y := t.right;
    Regroup(Inorder(t.left), [t.node], Inorder(y.left), [y.node], Inorder(y.right));
  }

  lemma RotateRightKeepsOrder(t: Tree)
    requires t.Branch? && t.left.Branch?
    ensures Inorder(RotateRight(t)) == Inorder(t)
  {
    var y := t.left;
    Regroup(Inorder(y.left), [y.node], Inorder(y.right), [t.node], Inorder(t.right));
  }

  lemma RotateLeftKeepsNodes(t: Tree)
    requires t.Branch? && t.right.Branch?
    ensures Nodes(RotateLeft(t)) == Nodes(t)
    ensures Distinct(RotateLeft(t)) <==> Distinct(t)
  {
    var r := RotateLeft(t);
    assert Nodes(t) == Nodes(t.left) + {t.node} + (Nodes(r.left.right) + {r.node} + Nodes(r.right));
  }

  lemma RotateRightKeepsNodes(t: Tree)
    requires t.Branch? && t.left.Branch?
    ensures Nodes(RotateRight(t)) == Nodes(t)
    ensures Distinct(RotateRight(t)) <==> Distinct(t)
  {
    var r := RotateRight(t);
    assert Nodes(t) == (Nodes(r.left) + {r.node} + Nodes(r.right.left)) + {t.node} + Nodes(t.right);
  }

  // ----- moving between a subtree and the whole -----

  lemma {:induction false} PlugOrder(p: Path, t: Tree)
    ensures Inorder(Plug(p, t)) == Before(p) + Inorder(t) + After(p)
  {
    match p
    case Top =>
    case InLeft(up, n, c, r) =>
      PlugOrder(up, Branch(t, n, c, r));
      Regroup(Before(up), Inorder(t), [n], Inorder(r), After(up));
      Regroup(Before(up), [], Inorder(t), [n], Inorder(r));
      assert Before(up) + [] == Before(up);
    case InRight(up, l, n, c) =>
      PlugOrder(up, Branch(l, n, c, t));
      Regroup(Before(up), [], Inorder(l), [n], Inorder(t));
      assert Before(up) + [] == Before(up);
      assert Before(up) + (Inorder(l) + [n]) == Before(up) + Inorder(l) + [n];
  }

  lemma {:induction false} PlugNodes(p: Path, t: Tree)
    ensures Nodes(Plug(p, t)) == PathNodes(p) + Nodes(t)
  {
    match p
    case Top =>
    case InLeft(up, n, c, r) => PlugNodes(up, Branch(t, n, c, r));
    case InRight(up, l, n, c) => PlugNodes(up, Branch(l, n, c, t));
  }

  /** The filled hole is a red-black tree exactly because the path accepts what fills it. */
  lemma {:induction false} PlugBalanced(p: Path, t: Tree)
    requires Balanced(t)
    ensures Accepts(p, BlackHeight(t), ColorOf(t)) <==> RedBlack(Plug(p, t))
  {
    match p
    case Top =>
    case InLeft(up, n, c, r) =>
      var b := Branch(t, n, c, r);
      if Balanced(b) {
        PlugBalanced(up, b);
      } else {
        PlugUnbalanced(up, b);
      }
    case InRight(up, l, n, c) =>
      var b := Branch(l, n, c, t);
      if Balanced(b) {
        PlugBalanced(up, b);
      } else {
        PlugUnbalanced(up, b);
      }
  }

  lemma {:induction false} PlugUnbalanced(p: Path, t: Tree)
    requires !Balanced(t)
    ensures !Balanced(Plug(p, t))
  {
    match p
    case Top =>
    case InLeft(up, n, c, r) => PlugUnbalanced(up, Branch(t, n, c, r));
    case InRight(up, l, n, c) => PlugUnbalanced(up, Branch(l, n, c, t));
  }

  lemma {:induction false} PlugBranch(p: Path, t: Tree)
    requires t.Branch?
    ensures Plug(p, t).Branch?
  {
    match p
    case Top =>
    case InLeft(up, n, c, r) => PlugBranch(up, Branch(t, n, c, r));
    case InRight(up, l, n, c) => PlugBranch(up, Branch(l, n, c, t));
  }

  lemma PlugRecolored(p: Path, t: Tree, c: Color)
    ensures Inorder(Plug(p, Recolor(t, c))) == Inorder(Plug(p, t))
  {
    PlugOrder(p, t);
    PlugOrder(p, Recolor(t, c));
    RecolorKeepsOrder(t, c);
  }

  lemma {:induction false} AppendFacts(inner: Path, outer: Path, t: Tree)
    ensures Plug(Append(inner, outer), t) == Plug(outer, Plug(inner, t))
    ensures PathNodes(Append(inner, outer)) == PathNodes(inner) + PathNodes(outer)
    ensures Before(Append(inner, outer)) == Before(outer) + Before(inner)
    ensures After(Append(inner, outer)) == After(inner) + After(outer)
  {
    AppendPlug(inner, outer, t);
    AppendNodes(inner, outer);
    AppendOrder(inner, outer);
  }

  lemma {:induction false} AppendPlug(inner: Path, outer: Path, t: Tree)
    ensures Plug(Append(inner, outer), t) == Plug(outer, Plug(inner, t))
  {
    match inner
    case Top =>
    case InLeft(up, n, c, r) => AppendPlug(up, outer, Branch(t, n, c, r));
    case InRight(up, l, n, c) => AppendPlug(up, outer, Branch(l, n, c, t));
  }

  lemma {:induction false} AppendNodes(inner: Path, outer: Path)
    ensures PathNodes(Append(inner, outer)) == PathNodes(inner) + PathNodes(outer)
  {
    if !inner.Top? { AppendNodes(inner.up, outer); }
  }

  lemma {:induction false} AppendOrder(inner: Path, outer: Path)
    ensures Before(Append(inner, outer)) == Before(outer) + Before(inner)
    ensures After(Append(inner, outer)) == After(inner) + After(outer)
  {
    if !inner.Top? { AppendOrder(inner.up, outer); }
  }

  // ----- repairing a red node below a red node -----

  /** The subtree one level up. */
  function Above(p: Path, t: Tree): Tree
    requires !p.Top?
  {
    if p.InLeft? then Branch(t, p.node, p.color, p.right) else Branch(p.left, p.node, p.color, t)
  }

  /** The subtree on the other side of the parent. */
  function Sibling(p: Path): Tree
    requires !p.Top?
  {
    if p.InLeft? then p.right else p.left
  }

  function WithSibling(p: Path, w: Tree): Path
    requires !p.Top?
  {
    if p.InLeft? then p.(right := w) else p.(left := w)
  }

  datatype Focus = Focus(path: Path, tree: Tree)

  /** One round of the repair after an insertion, for a focus whose parent is red. */
  function InsertStep(p: Path, t: Tree): Focus
    requires t.Branch? && !p.Top? && !p.up.Top?
  {
    var g := p.up;
    var parent := Above(p, t);
    if g.InLeft? then
      if ColorOf(g.right) == Red then
        Focus(g.up, Branch(Recolor(parent, Black), g.node, Red, Recolor(g.right, Black)))
      else
        var inner := if p.InRight? then RotateLeft(parent) else parent;
        var r := RotateRight(Branch(Recolor(inner, Black), g.node, Red, g.right));
        Focus(InLeft(g.up, r.node, r.color, r.right), r.left)
    else
      if ColorOf(g.left) == Red then
        Focus(g.up, Branch(Recolor(g.left, Black), g.node, Red, Recolor(parent, Black)))
      else
        var inner := if p.InLeft? then RotateRight(parent) else parent;
        var r := RotateLeft(Branch(g.left, g.node, Red, Recolor(inner, Black)));
        Focus(InRight(g.up, r.left, r.node, r.color), r.right)
  }

  /** The focus holds a red node that may sit below a red parent; everything else is in order. */
  predicate RedFocus(p: Path, t: Tree) {
    t.Branch? && t.color == Red && Balanced(t) && Accepts(p, BlackHeight(t), Black)
  }

  /** Painting the root black ends the repair once the parent is black. */
  lemma RedFocusEnds(p: Path, t: Tree)
    requires RedFocus(p, t) && (p.Top? || p.color == Black)
    ensures Plug(p, t).Branch? && RedBlack(Recolor(Plug(p, t), Black))
  {
    PlugBranch(p, t);
    if !p.Top? {
      PlugBalanced(p, t);
    }
  }

  lemma InsertStepKeepsShape(p: Path, t: Tree)
    requires RedFocus(p, t) && !p.Top? && p.color == Red
    ensures !p.up.Top? && p.up.color == Black
    ensures var f := InsertStep(p, t); RedFocus(f.path, f.tree) && Depth(f.path) < Depth(p)
  {
    var g := p.up;
    assert Accepts(g, BlackHeight(t), Red) && Accepts(g.up, BlackHeight(t) + 1, Black);
    if ColorOf(Sibling(g)) == Red {
      var f := InsertStep(p, t);
      assert Balanced(f.tree.left) && Balanced(f.tree.right);
    } else {
      InsertRotateKeepsShape(p, t);
    }
  }

  lemma InsertRotateKeepsShape(p: Path, t: Tree)
    requires RedFocus(p, t) && !p.Top? && p.color == Red && !p.up.Top? && p.up.color == Black
    requires ColorOf(Sibling(p.up)) == Black
    ensures var f := InsertStep(p, t); RedFocus(f.path, f.tree) && Depth(f.path) < Depth(p)
  {
    var g := p.up;
    assert Accepts(g, BlackHeight(t), Red) && Accepts(g.up, BlackHeight(t) + 1, Black);
    assert Balanced(Sibling(p)) && Balanced(Sibling(g)) && Balanced(t.left) && Balanced(t.right);
    var f := InsertStep(p, t);
    var outer := Sibling(f.path);
    assert Balanced(outer) && BlackHeight(outer) == BlackHeight(f.tree);
  }

  lemma RecolorKeepsOrder(t: Tree, c: Color)
    ensures Inorder(Recolor(t, c)) == Inorder(t) && Nodes(Recolor(t, c)) == Nodes(t)
  {
  }

  lemma InsertStepKeepsOrder(p: Path, t: Tree)
    requires t.Branch? && !p.Top? && !p.up.Top?
    ensures var f := InsertStep(p, t); Inorder(Plug(f.path, f.tree)) == Inorder(Plug(p, t))
  {
    var g := p.up;
    var parent := Above(p, t);
    var f := InsertStep(p, t);
    assert Plug(p, t) == Plug(g, parent) == Plug(g.up, Above(g, parent));
    PlugOrder(g.up, Above(g, parent));
    RecolorKeepsOrder(parent, Black);
    if g.InLeft? {
      if ColorOf(g.right) == Red {
        RecolorKeepsOrder(g.right, Black);
        PlugOrder(f.path, f.tree);
      } else {
        var inner := if p.InRight? then RotateLeft(parent) else parent;
        if p.InRight? { RotateLeftKeepsOrder(parent); }
        RecolorKeepsOrder(inner, Black);
        var r := Branch(Recolor(inner, Black), g.node, Red, g.right);
        RotateRightKeepsOrder(r);
        PlugOrder(g.up, RotateRight(r));
      }
    } else {
      if ColorOf(g.left) == Red {
        RecolorKeepsOrder(g.left, Black);
        PlugOrder(f.path, f.tree);
      } else {
        var inner := if p.InLeft? then RotateRight(parent) else parent;
        if p.InLeft? { RotateRightKeepsOrder(parent); }
        RecolorKeepsOrder(inner, Black);
        var r := Branch(g.left, g.node, Red, Recolor(inner, Black));
        RotateLeftKeepsOrder(r);
        PlugOrder(g.up, RotateLeft(r));
      }
    }
  }

  // ----- repairing a subtree that is one black node short -----

  /** A red sibling is rotated above the parent, which makes the parent red and the new sibling black. */
  function LowerParent(p: Path): Path
    requires !p.Top? && Sibling(p).Branch?
  {
    var w := Sibling(p);
    if w.color == Black then p
    else if p.InLeft? then InLeft(InLeft(p.up, w.node, Black, w.right), p.node, Red, w.left)
    else InRight(InRight(p.up, w.left, w.node, Black), w.right, p.node, Red)
  }

  /** The black sibling after its outer child has been made red if it was not. */
  function TurnSibling(p: Path): Tree
    requires !p.Top? && Sibling(p).Branch? && (p.InLeft? ==> p.right.left.Branch? || ColorOf(p.right.right) == Red)
    requires p.InRight? ==> p.left.right.Branch? || ColorOf(p.left.left) == Red
  {
    var w := Sibling(p);
    if p.InLeft? then
      if ColorOf(w.right) == Black then RotateRight(Branch(Recolor(w.left, Black), w.node, Red, w.right)) else w
    else
      if ColorOf(w.left) == Black then RotateLeft(Branch(w.left, w.node, Red, Recolor(w.right, Black))) else w
  }

  /** The subtree of the parent, painted for the last rotation. */
  function BeforeSupply(p: Path, t: Tree, w: Tree): Tree
    requires !p.Top? && w.Branch?
  {
    if p.InLeft? then Branch(t, p.node, Black, Branch(w.left, w.node, p.color, Recolor(w.right, Black)))
    else Branch(Branch(Recolor(w.left, Black), w.node, p.color, w.right), p.node, Black, t)
  }

  /** The last rotation, which supplies the missing black node. */
  function Supply(p: Path, t: Tree, w: Tree): Tree
    requires !p.Top? && w.Branch?
  {
    if p.InLeft? then RotateLeft(BeforeSupply(p, t, w)) else RotateRight(BeforeSupply(p, t, w))
  }

  /** One round of the repair after a removal, below a black sibling. */
  function DeleteStep(p: Path, t: Tree): Focus
    requires !p.Top? && Sibling(p).Branch?
  {
    var w := Sibling(p);
    if ColorOf(w.left) == Black && ColorOf(w.right) == Black then
      Focus(p.up, if p.InLeft? then Branch(t, p.node, p.color, w.(color := Red)) else Branch(w.(color := Red), p.node, p.color, t))
    else
      Focus(Top, Plug(p.up, Supply(p, t, TurnSibling(p))))
  }

  /** The focus is one black node short; its top node may be red and have red children. */
  predicate ShortFocus(p: Path, t: Tree) {
    Balanced(Recolor(t, Black)) && Accepts(p, BlackHeight(t) + 1, Black)
  }

  /** Painting the focus black ends the repair when it is red or the whole tree. */
  lemma ShortFocusEnds(p: Path, t: Tree)
    requires ShortFocus(p, t) && (p.Top? || ColorOf(t) == Red)
    ensures RedBlack(Plug(p, Recolor(t, Black)))
  {
    PlugBalanced(p, Recolor(t, Black));
  }

  lemma SiblingExists(p: Path, t: Tree)
    requires ShortFocus(p, t) && !p.Top?
    ensures Sibling(p).Branch?
    ensures Sibling(p).color == Red ==> p.color == Black && Sibling(p).left.Branch? && Sibling(p).right.Branch?
  {
  }

  lemma LowerParentKeepsShape(p: Path, t: Tree)
    requires ShortFocus(p, t) && !p.Top? && Sibling(p).Branch?
    ensures var q := LowerParent(p); ShortFocus(q, t) && !q.Top? && Sibling(q).Branch? && Sibling(q).color == Black
    ensures LowerParent(p) != p ==> LowerParent(p).color == Red && Depth(LowerParent(p)) == Depth(p) + 1
  {
    var w := Sibling(p);
    if w.color == Red {
      assert Balanced(w.left) && Balanced(w.right) && Accepts(p.up, BlackHeight(t) + 2, Black);
      var q := LowerParent(p);
      assert Accepts(q.up, BlackHeight(t) + 1, Red);
    }
  }

  lemma SupplyKeepsShape(p: Path, t: Tree, w: Tree)
    requires ShortFocus(p, t) && ColorOf(t) == Black && !p.Top? && w.Branch? && w.color == Black
    requires Balanced(w) && BlackHeight(w) == BlackHeight(t) + 1
    requires if p.InLeft? then ColorOf(w.right) == Red else ColorOf(w.left) == Red
    ensures RedBlack(Plug(p.up, Supply(p, t, w)))
  {
    var s := Supply(p, t, w);
    assert Balanced(w.left) && Balanced(w.right);
    assert Balanced(s.left) && Balanced(s.right);
    PlugBalanced(p.up, s);
  }

  lemma TurnSiblingKeepsShape(p: Path, t: Tree)
    requires ShortFocus(p, t) && ColorOf(t) == Black && !p.Top? && Sibling(p).Branch? && Sibling(p).color == Black
    requires ColorOf(Sibling(p).left) == Red || ColorOf(Sibling(p).right) == Red
    ensures var w := TurnSibling(p); w.Branch? && w.color == Black && Balanced(w) && BlackHeight(w) == BlackHeight(t) + 1
    ensures if p.InLeft? then ColorOf(TurnSibling(p).right) == Red else ColorOf(TurnSibling(p).left) == Red
  {
    var w := Sibling(p);
    assert Balanced(w.left) && Balanced(w.right);
    assert w.left.Branch? ==> Balanced(w.left.left) && Balanced(w.left.right);
    assert w.right.Branch? ==> Balanced(w.right.left) && Balanced(w.right.right);
    var w' := TurnSibling(p);
    assert Balanced(w'.left) && Balanced(w'.right);
  }

  lemma DeleteStepKeepsShape(p: Path, t: Tree)
    requires ShortFocus(p, t) && !p.Top? && Sibling(p).Branch? && Sibling(p).color == Black && ColorOf(t) == Black
    ensures var f := DeleteStep(p, t);
      && ShortFocus(f.path, f.tree)
      && ((f.path == p.up && ColorOf(f.tree) == p.color) || f.path == Top)
  {
    var w := Sibling(p);
    if ColorOf(w.left) == Black && ColorOf(w.right) == Black {
      var f := DeleteStep(p, t);
      assert Recolor(t, Black) == t && Balanced(w.(color := Red));
      assert Accepts(p.up, BlackHeight(t) + 1 + (if p.color == Black then 1 else 0), p.color);
      assert Accepts(p.up, BlackHeight(f.tree) + 1, Black);
    } else {
      TurnSiblingKeepsShape(p, t);
      SupplyKeepsShape(p, t, TurnSibling(p));
    }
  }

  lemma LowerParentKeepsOrder(p: Path, t: Tree)
    requires !p.Top? && Sibling(p).Branch?
    ensures Inorder(Plug(LowerParent(p), t)) == Inorder(Plug(p, t))
  {
    var (w, q) := (Sibling(p), LowerParent(p));
    if w.color == Red {
      var a := Above(p, t);
      assert Plug(p, t) == Plug(p.up, a);
      assert Plug(q, t) == Plug(p.up, Above(q.up, Above(q, t)));
      PlugOrder(p.up, a);
      PlugOrder(p.up, Above(q.up, Above(q, t)));
      if p.InLeft? { RotateLeftKeepsOrder(a); } else { RotateRightKeepsOrder(a); }
    }
  }

  lemma DeleteStepKeepsOrder(p: Path, t: Tree)
    requires !p.Top? && Sibling(p).Branch?
    ensures var f := DeleteStep(p, t); Inorder(Plug(f.path, f.tree)) == Inorder(Plug(p, t))
  {
    var (w, a, f) := (Sibling(p), Above(p, t), DeleteStep(p, t));
    assert Plug(p, t) == Plug(p.up, a);
    PlugOrder(p.up, a);
    if ColorOf(w.left) == Black && ColorOf(w.right) == Black {
      PlugOrder(p.up, f.tree);
    } else {
      var w' := TurnSibling(p);
      assert Inorder(w') == Inorder(w) by {
        RecolorKeepsOrder(w.left, Black);
        RecolorKeepsOrder(w.right, Black);
        if p.InLeft? && ColorOf(w.right) == Black {
          RotateRightKeepsOrder(Branch(Recolor(w.left, Black), w.node, Red, w.right));
        }
        if p.InRight? && ColorOf(w.left) == Black {
          RotateLeftKeepsOrder(Branch(w.left, w.node, Red, Recolor(w.right, Black)));
        }
      }
      RecolorKeepsOrder(w'.left, Black);
      RecolorKeepsOrder(w'.right, Black);
      if p.InLeft? {
        RotateLeftKeepsOrder(Branch(t, p.node, Black, Branch(w'.left, w'.node, p.color, Recolor(w'.right, Black))));
      } else {
        RotateRightKeepsOrder(Branch(Branch(Recolor(w'.left, Black), w'.node, p.color, w'.right), p.node, Black, t));
      }
      PlugOrder(p.up, Supply(p, t, w'));
    }
  }

  /** A whole round of the repair after a removal: it keeps the order, stays repairable and comes to an end. */
  lemma DeleteRoundKeeps(p: Path, t: Tree) returns (f: Focus)
    requires ShortFocus(p, t) && ColorOf(t) == Black && !p.Top?
    ensures Sibling(p).Branch?
    ensures var q := LowerParent(p); !q.Top? && Sibling(q).Branch? && f == DeleteStep(q, t)
    ensures ShortFocus(f.path, f.tree) && Inorder(Plug(f.path, f.tree)) == Inorder(Plug(p, t))
    ensures f.path.Top? || f.tree.Branch?
    ensures Depth(f.path) < Depth(p) || (Depth(f.path) == Depth(p) && ColorOf(f.tree) == Red)
  {
    SiblingExists(p, t);
    LowerParentKeepsShape(p, t);
    LowerParentKeepsOrder(p, t);
    var q := LowerParent(p);
    DeleteStepKeepsShape(q, t);
    DeleteStepKeepsOrder(q, t);
    f := DeleteStep(q, t);
  }

  // ----- searching -----

  /** Every node before the hole has a smaller key than `key`, every node after it a greater one. */
  predicate Between(p: Path, key: Point) {
    && (forall n :: n in Before(p) ==> Less(n.key, key))
    && (forall n :: n in After(p) ==> Less(key, n.key))
  }

  lemma SplitSorted(a: seq<Node>, z: Node, b: seq<Node>)
    requires Sorted(a + [z] + b)
    ensures forall n :: n in a ==> Less(n.key, z.key)
    ensures forall n :: n in b ==> Less(z.key, n.key)
  {
    var s := a + [z] + b;
    assert s[|a|] == z;
    forall n | n in a ensures Less(n.key, z.key) {
      var j :| 0 <= j < |a| && a[j] == n;
      assert s[j] == n;
    }
    forall n | n in b ensures Less(z.key, n.key) {
      var j :| 0 <= j < |b| && b[j] == n;
      assert s[|a| + 1 + j] == n;
    }
  }

  lemma DescendLeft(p: Path, t: Tree, key: Point)
    requires Sorted(Before(p) + Inorder(t) + After(p)) && Between(p, key) && t.Branch? && Less(key, t.node.key)
    ensures Between(InLeft(p, t.node, t.color, t.right), key)
  {
    SpliceRegroup(Before(p), Inorder(t.left), t.node, Inorder(t.right), After(p));
    hide Sorted;
    SplitSorted(Before(p) + Inorder(t.left), t.node, Inorder(t.right) + After(p));
  }

  lemma DescendRight(p: Path, t: Tree, key: Point)
    requires Sorted(Before(p) + Inorder(t) + After(p)) && Between(p, key) && t.Branch? && Less(t.node.key, key)
    ensures Between(InRight(p, t.left, t.node, t.color), key)
  {
    SpliceRegroup(Before(p), Inorder(t.left), t.node, Inorder(t.right), After(p));
    hide Sorted;
    SplitSorted(Before(p) + Inorder(t.left), t.node, Inorder(t.right) + After(p));
  }

  // ----- the finite map a sorted run of nodes stands for -----

  function ToMap(s: seq<Node>): map<Point, Piece>
    requires Sorted(s)
  {
    map n | n in s :: n.key := n.value
  }

  lemma ToMapHas(s: seq<Node>, n: Node)
    requires Sorted(s) && n in s
    ensures n.key in ToMap(s) && ToMap(s)[n.key] == n.value
  {
  }

  lemma InsertIntoSorted(a: seq<Node>, z: Node, b: seq<Node>)
    requires Sorted(a + b)
    requires forall n :: n in a ==> Less(n.key, z.key)
    requires forall n :: n in b ==> Less(z.key, n.key)
    ensures Sorted(a + [z] + b)
    ensures z.key !in ToMap(a + b)
    ensures ToMap(a + [z] + b) == ToMap(a + b)[z.key := z.value]
  {
    var s := a + [z] + b;
    forall i, j | 0 <= i < j < |s| ensures Less(s[i].key, s[j].key) {
      var (i', j') := (if i > |a| then i - 1 else i, if j > |a| then j - 1 else j);
      assert i != |a| ==> s[i] == (a + b)[i'];
      assert j != |a| ==> s[j] == (a + b)[j'];
      assert i == |a| ==> s[j] in b;
      assert j == |a| ==> s[i] in a;
    }
    MembersAround(a, z, b);
  }

  lemma MembersAround<T>(a: seq<T>, z: T, b: seq<T>)
    ensures forall n :: n in a + [z] + b <==> n == z || n in a + b
    ensures forall n :: n in a + b <==> n in a || n in b
  {
  }

  lemma RemoveFromSorted(a: seq<Node>, z: Node, b: seq<Node>)
    requires Sorted(a + [z] + b)
    ensures Sorted(a + b)
    ensures z.key in ToMap(a + [z] + b)
    ensures ToMap(a + b) == ToMap(a + [z] + b) - {z.key}
  {
    var s := a + [z] + b;
    assert forall i :: 0 <= i < |a + b| ==> (a + b)[i] == s[if i < |a| then i else i + 1];
    assert forall n :: n in a + b ==> n.key != z.key by {
      forall n | n in a + b ensures n.key != z.key {
        var i :| 0 <= i < |a + b| && (a + b)[i] == n;
        assert s[|a|] == z && s[if i < |a| then i else i + 1] == n;
      }
    }
    MembersAround(a, z, b);
    MapsAgree(a, z, b);
  }

  lemma MapsAgree(a: seq<Node>, z: Node, b: seq<Node>)
    requires Sorted(a + [z] + b) && Sorted(a + b)
    requires forall n :: n in a + [z] + b <==> n == z || n in a + b
    requires forall n :: n in a + b ==> n.key != z.key
    ensures ToMap(a + b) == ToMap(a + [z] + b) - {z.key}
  {
  }

  // ----- what an insertion and a removal do to the whole tree -----

  lemma LeafFocus(p: Path, z: Node)
    requires RedBlack(Plug(p, Leaf))
    ensures RedFocus(p, Branch(Leaf, z, Red, Leaf))
  {
    PlugBalanced(p, Leaf);
  }

  lemma InsertedOrder(p: Path, z: Node, t: Tree)
    requires Sorted(Inorder(Plug(p, Leaf))) && Between(p, z.key)
    requires Inorder(t) == Inorder(Plug(p, Branch(Leaf, z, Red, Leaf)))
    ensures Sorted(Inorder(t)) && Nodes(t) == Nodes(Plug(p, Leaf)) + {z}
    ensures ToMap(Inorder(t)) == ToMap(Inorder(Plug(p, Leaf)))[z.key := z.value]
  {
    hide Sorted, ToMap, Nodes, Plug, Before, After;
    PlugOrder(p, Leaf);
    PlugOrder(p, Branch(Leaf, z, Red, Leaf));
    assert Inorder(Plug(p, Leaf)) == Before(p) + After(p);
    assert Inorder(t) == Before(p) + [z] + After(p);
    InsertIntoSorted(Before(p), z, After(p));
    MembersAround(Before(p), z, After(p));
    NodesOfInorder(t);
    NodesOfInorder(Plug(p, Leaf));
  }

  /** Taking out a node with an empty side leaves a red-black tree, or one that is short at `x`. */
  lemma Splice(q: Path, b: Tree, x: Tree)
    requires RedBlack(Plug(q, b)) && b.Branch?
    requires (b.left.Leaf? && x == b.right) || (b.right.Leaf? && x == b.left)
    ensures Balanced(x)
    ensures if b.color == Black then ShortFocus(q, x) else Accepts(q, BlackHeight(x), ColorOf(x))
  {
    hide Plug;
    assert Balanced(b) by {
      if !Balanced(b) {
        PlugUnbalanced(q, b);
      }
    }
    PlugBalanced(q, b);
    if b.color == Red {
      assert x == Leaf;
    }
  }

  lemma SpliceOrder(p: Path, b: Tree, x: Tree)
    requires b.Branch? && ((b.left.Leaf? && x == b.right) || (b.right.Leaf? && x == b.left))
    ensures var l := if b.left.Leaf? then [] else Inorder(b.left);
      var r := if b.left.Leaf? then Inorder(b.right) else [];
      && Inorder(Plug(p, b)) == (Before(p) + l) + [b.node] + (r + After(p))
      && Inorder(Plug(p, x)) == (Before(p) + l) + (r + After(p))
  {
    PlugOrder(p, b);
    PlugOrder(p, x);
    var (l, r) := if b.left.Leaf? then ([], Inorder(b.right)) else (Inorder(b.left), []);
    assert Inorder(b) == l + [b.node] + r && Inorder(x) == l + r;
    SpliceRegroup(Before(p), l, b.node, r, After(p));
  }

  lemma SpliceRegroup<T>(p: seq<T>, l: seq<T>, z: T, r: seq<T>, q: seq<T>)
    ensures p + (l + [z] + r) + q == (p + l) + [z] + (r + q)
    ensures p + (l + r) + q == (p + l) + (r + q)
  {
  }

  /** The successor variant of Splice: afterwards `y` lies on the path where `z` was. */
  lemma SpliceSuccessor(inner: Path, p: Path, l: Tree, z: Node, y: Node, c: Color, k: Color, x: Tree)
    requires RedBlack(Plug(p, Branch(l, z, c, Plug(inner, Branch(Leaf, y, k, x)))))
    ensures var q := Append(inner, InRight(p, l, y, c));
      if k == Black then ShortFocus(q, x) else RedBlack(Plug(q, x))
  {
    var q := Append(inner, InRight(p, l, z, c));
    AppendFacts(inner, InRight(p, l, z, c), Branch(Leaf, y, k, x));
    Splice(q, Branch(Leaf, y, k, x), x);
    AcceptsOther(inner, p, l, z, y, c, BlackHeight(x) + 1, Black);
    AcceptsOther(inner, p, l, z, y, c, BlackHeight(x), ColorOf(x));
    PlugBalanced(Append(inner, InRight(p, l, y, c)), x);
  }

  /** Whether a path accepts a subtree does not depend on which nodes lie on it. */
  lemma {:induction false} AcceptsOther(inner: Path, p: Path, l: Tree, z: Node, y: Node, c: Color, h: nat, k: Color)
    ensures Accepts(Append(inner, InRight(p, l, z, c)), h, k) <==> Accepts(Append(inner, InRight(p, l, y, c)), h, k)
  {
    match inner
    case Top =>
    case InLeft(up, n, c', r) => AcceptsOther(up, p, l, z, y, c, h + (if c' == Black then 1 else 0), c');
    case InRight(up, l', n, c') => AcceptsOther(up, p, l, z, y, c, h + (if c' == Black then 1 else 0), c');
  }

  /** The in-order neighbour `y` takes the place of `z`: only `z` leaves the order. */
  lemma SuccessorOrder(inner: Path, p: Path, l: Tree, z: Node, y: Node, c: Color, k: Color, x: Tree)
    requires Before(inner) == []
    ensures var a := Before(p) + Inorder(l);
      var b := [y] + Inorder(x) + After(inner) + After(p);
      && Inorder(Plug(Append(inner, InRight(p, l, z, c)), Branch(Leaf, y, k, x))) == a + [z] + b
      && Inorder(Plug(Append(inner, InRight(p, l, y, c)), x)) == a + b
  {
    var b := Branch(Leaf, y, k, x);
    assert Inorder(b) == [y] + Inorder(x);
    AppendFacts(inner, InRight(p, l, z, c), b);
    AppendFacts(inner, InRight(p, l, y, c), x);
    hide Plug, Append, Inorder;
    PlugOrder(Append(inner, InRight(p, l, z, c)), b);
    PlugOrder(Append(inner, InRight(p, l, y, c)), x);
    SuccessorRegroup(Before(p), Inorder(l), z, y, Inorder(x), After(inner), After(p));
  }

  lemma SuccessorRegroup<T>(p: seq<T>, l: seq<T>, z: T, y: T, x: seq<T>, a: seq<T>, q: seq<T>)
    ensures p + (l + [z]) + [] + ([y] + x) + (a + q) == (p + l) + [z] + ([y] + x + a + q)
    ensures p + (l + [y]) + [] + x + (a + q) == (p + l) + ([y] + x + a + q)
  {
  }

  /** The tree `t`, without its top node `z`, is ready for the repair at `sub` inside `q`. */
  ghost predicate TakenOut(whole: Tree, z: Node, color: Color, q: Path, sub: Tree, a: seq<Node>, b: seq<Node>) {
    && (if color == Black then ShortFocus(q, sub) else RedBlack(Plug(q, sub)))
    && Inorder(whole) == a + [z] + b && Inorder(Plug(q, sub)) == a + b
  }

  lemma SimpleTakenOut(p: Path, t: Tree, sub: Tree) returns (a: seq<Node>, b: seq<Node>)
    requires RedBlack(Plug(p, t)) && t.Branch?
    requires (t.left.Leaf? && sub == t.right) || (t.right.Leaf? && sub == t.left)
    ensures TakenOut(Plug(p, t), t.node, t.color, p, sub, a, b)
  {
    SpliceOrder(p, t, sub);
    Splice(p, t, sub);
    if t.color == Red { PlugBalanced(p, sub); }
    a := Before(p) + if t.left.Leaf? then [] else Inorder(t.left);
    b := (if t.left.Leaf? then Inorder(t.right) else []) + After(p);
  }

  lemma InnerTakenOut(p: Path, t: Tree, inner: Path, y: Node, color: Color, sub: Tree) returns (a: seq<Node>, b: seq<Node>)
    requires RedBlack(Plug(p, t)) && t.Branch? && t.right == Plug(inner, Branch(Leaf, y, color, sub)) && Before(inner) == []
    ensures TakenOut(Plug(p, t), t.node, color, Append(inner, InRight(p, t.left, y, t.color)), sub, a, b)
  {
    var b0 := Branch(Leaf, y, color, sub);
    assert t == Branch(t.left, t.node, t.color, Plug(inner, b0));
    AppendFacts(inner, InRight(p, t.left, t.node, t.color), b0);
    assert Plug(p, t) == Plug(InRight(p, t.left, t.node, t.color), t.right);
    hide Plug, Append, Before, After, Inorder, Accepts, Balanced;
    SpliceSuccessor(inner, p, t.left, t.node, y, t.color, color, sub);
    SuccessorOrder(inner, p, t.left, t.node, y, t.color, color, sub);
    a := Before(p) + Inorder(t.left);
    b := [y] + Inorder(sub) + After(inner) + After(p);
  }

  lemma RemovedOrder(old': Tree, t: Tree, a: seq<Node>, z: Node, b: seq<Node>)
    requires Inorder(old') == a + [z] + b && Inorder(t) == a + b && Sorted(Inorder(old'))
    ensures Sorted(Inorder(t)) && Nodes(t) == Nodes(old') - {z}
    ensures ToMap(Inorder(t)) == ToMap(Inorder(old')) - {z.key}
  {
    RemoveFromSorted(a, z, b);
    MembersAround(a, z, b);
    NodesOfInorder(t);
    NodesOfInorder(old');
    assert z !in Inorder(t) by {
      if z in Inorder(t) {
        ToMapHas(Inorder(t), z);
      }
    }
  }

  // ----- what red-black means for the ways down -----

  /** The turns `route`, true for left, stay in the tree. */
  predicate IsWay(t: Tree, route: seq<bool>) {
    route == [] || (t.Branch? && IsWay(if route[0] then t.left else t.right, route[1..]))
  }

  /** The subtree that they lead to. */
  function Follow(t: Tree, route: seq<bool>): Tree
    requires IsWay(t, route)
  {
    if route == [] then t else Follow(if route[0] then t.left else t.right, route[1..])
  }

  /** The black nodes that they pass. */
  function Blacks(t: Tree, route: seq<bool>): nat
    requires IsWay(t, route)
  {
    if route == [] then 0
    else (if t.color == Black then 1 else 0) + Blacks(if route[0] then t.left else t.right, route[1..])
  }

  predicate IsWayDown(t: Tree, route: seq<bool>) {
    IsWay(t, route) && Follow(t, route).Leaf?
  }

  /** No red node has a red child, and all ways down pass equally many black nodes. */
  ghost predicate BalancedWays(t: Tree) {
    && (forall route :: IsWay(t, route) ==> NoTwoReds(Follow(t, route)))
    && (forall a, b :: IsWayDown(t, a) && IsWayDown(t, b) ==> Blacks(t, a) == Blacks(t, b))
  }

  predicate NoTwoReds(s: Tree) {
    s.Branch? && s.color == Red ==> !(s.left.Branch? && s.left.color == Red) && !(s.right.Branch? && s.right.color == Red)
  }

  lemma {:induction false} WaysOfBalanced(t: Tree, route: seq<bool>)
    requires Balanced(t) && IsWay(t, route)
    ensures Balanced(Follow(t, route)) && Blacks(t, route) + BlackHeight(Follow(t, route)) == BlackHeight(t)
    decreases |route|
  {
    if route != [] {
      WaysOfBalanced(if route[0] then t.left else t.right, route[1..]);
    }
  }

  lemma {:induction false} WaysOfChild(t: Tree, left: bool, route: seq<bool>)
    requires t.Branch?
    ensures var c := if left then t.left else t.right;
      && (IsWay(t, [left] + route) <==> IsWay(c, route))
      && (IsWay(c, route) ==>
            Follow(t, [left] + route) == Follow(c, route)
            && Blacks(t, [left] + route) == (if t.color == Black then 1 else 0) + Blacks(c, route))
  {
    assert ([left] + route)[1..] == route;
  }

  lemma {:induction false} SomeWay(t: Tree) returns (route: seq<bool>)
    ensures IsWayDown(t, route)
  {
    route := [];
    if t.Branch? {
      var rest := SomeWay(t.left);
      WaysOfChild(t, true, rest);
      route := [true] + rest;
    }
  }

  lemma {:induction false} ChildWays(t: Tree, left: bool)
    requires t.Branch? && BalancedWays(t)
    ensures BalancedWays(if left then t.left else t.right)
  {
    hide Blacks, Follow, IsWay, NoTwoReds;
    var c := if left then t.left else t.right;
    forall route | IsWay(c, route) ensures NoTwoReds(Follow(c, route)) {
      WaysOfChild(t, left, route);
    }
    forall a, b | IsWayDown(c, a) && IsWayDown(c, b) ensures Blacks(c, a) == Blacks(c, b) {
      WaysOfChild(t, left, a);
      WaysOfChild(t, left, b);
      assert IsWayDown(t, [left] + a) && IsWayDown(t, [left] + b);
    }
  }

  lemma {:induction false} WaysMakeBalance(t: Tree)
    requires BalancedWays(t)
    ensures Balanced(t)
  {
    if t.Branch? {
      ChildWays(t, true);
      ChildWays(t, false);
      WaysMakeBalance(t.left);
      WaysMakeBalance(t.right);
      assert IsWay(t, []) && Follow(t, []) == t;
      var a := SomeWay(t.left);
      var b := SomeWay(t.right);
      WaysOfChild(t, true, a);
      WaysOfChild(t, false, b);
      assert IsWayDown(t, [true] + a) && IsWayDown(t, [false] + b);
      WaysOfBalanced(t.left, a);
      WaysOfBalanced(t.right, b);
    }
  }

  /** A tree is red-black exactly when its root is not red, no red node has a red child and all ways down are equally black. */
  lemma {:induction false} RedBlackMeans(t: Tree)
    ensures RedBlack(t) <==> !(t.Branch? && t.color == Red) && BalancedWays(t)
  {
    hide Blacks, Follow, IsWay;
    if BalancedWays(t) { WaysMakeBalance(t); }
    if Balanced(t) {
      forall route | IsWay(t, route)
        ensures Balanced(Follow(t, route)) && Blacks(t, route) + BlackHeight(Follow(t, route)) == BlackHeight(t)
      {
        WaysOfBalanced(t, route);
      }
    }
  }

  /** A way is at most twice as long as the tree is black, one more below a red top. */
  lemma {:induction false} WaysAreShort(t: Tree, route: seq<bool>)
    requires Balanced(t) && IsWay(t, route)
    ensures |route| <= 2 * BlackHeight(t) + (if ColorOf(t) == Red then 1 else 0)
    decreases |route|
  {
    if route != [] {
      WaysAreShort(if route[0] then t.left else t.right, route[1..]);
    }
  }

  lemma {:induction false} BlackNodes(t: Tree)
    requires Balanced(t)
    ensures |Inorder(t)| + 1 >= Pow2(BlackHeight(t))
  {
    if t.Branch? {
      BlackNodes(t.left);
      BlackNodes(t.right);
    }
  }

  /** The search in a map of n nodes passes at most 2 * h of them, for an h with 2^h <= n + 1. */
  lemma {:induction false} SearchIsLogarithmic(t: Tree, route: seq<bool>)
    requires RedBlack(t) && IsWay(t, route)
    ensures exists h: nat :: |route| <= 2 * h && Pow2(h) <= |Inorder(t)| + 1
  {
    WaysAreShort(t, route);
    BlackNodes(t);
  }
}
