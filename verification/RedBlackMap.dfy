/** The map itself: nodes with parent links and one shared sentinel, rewired in place. */
module RedBlackMap {
  import opened Basics
  import opened Points
  import opened RedBlackTree
  import opened RedBlackMemory

  ghost function Snapshot(s: set<Node>): Memory
    reads s
  {
    map n | n in s :: Links(n.left, n.right, n.parent, n.color)
  }

  class Map {
    var root: Node
    const nil: Node
    ghost var tree: Tree

    constructor ()
      ensures Valid() && tree == Leaf && fresh(nil)
    {
      nil := new Node(Point(0, 0), 0, Black);
      root := nil;
      tree := Leaf;
    }

    ghost predicate SentinelOk()
      reads nil
    {
      nil.color == Black && nil.left == nil && nil.right == nil
    }

    ghost predicate Valid()
      reads this, nil, Nodes(tree)
    {
      && SentinelOk()
      && Holds(Snapshot(Nodes(tree)), nil, root, Top, tree)
      && RedBlack(tree)
      && Sorted(Inorder(tree))
    }

    // ----- rotations: the pointer surgery, then what it does to the tree -----

    method LeftRotate(node: Node, ghost s: set<Node>)
      requires LeftReady(Snapshot(s), nil, node)
      modifies s, `root
      ensures LeftRotated(old(Snapshot(s)), Snapshot(s), nil, node)
      ensures root == if old(node.parent) == nil then old(node.right) else old(root)
    {
      var y := node.right;
      node.right := y.left;
      if y.left != nil {
        y.left.parent := node;
      }
      y.parent := node.parent;
      if node.parent == nil {
        root := y;
      } else {
        if node == node.parent.left {
          node.parent.left := y;
        } else {
          node.parent.right := y;
        }
      }
      y.left := node;
      node.parent := y;
    }

    method RightRotate(node: Node, ghost s: set<Node>)
      requires RightReady(Snapshot(s), nil, node)
      modifies s, `root
      ensures RightRotated(old(Snapshot(s)), Snapshot(s), nil, node)
      ensures root == if old(node.parent) == nil then old(node.left) else old(root)
    {
      var y := node.left;
      node.left := y.right;
      if nil != y.right {
        y.right.parent := node;
      }
      y.parent := node.parent;
      if node.parent == nil {
        root := y;
      } else {
        if node == node.parent.left {
          node.parent.left := y;
        } else {
          node.parent.right := y;
        }
      }
      y.right := node;
      node.parent := y;
    }

    method LeftRotateAt(node: Node, ghost s: set<Node>, ghost p: Path, ghost t: Tree)
      requires Holds(Snapshot(s), nil, root, p, t) && t.Branch? && t.right.Branch? && node == t.node
      modifies s, `root
      ensures Holds(Snapshot(s), nil, root, p, RotateLeft(t))
      ensures node in s && node.parent == t.right.node
    {
      CanRotateLeft(Snapshot(s), nil, root, p, t);
      LeftRotate(node, s);
      RotatedLeft(old(Snapshot(s)), Snapshot(s), nil, old(root), p, t);
    }

    method RightRotateAt(node: Node, ghost s: set<Node>, ghost p: Path, ghost t: Tree)
      requires Holds(Snapshot(s), nil, root, p, t) && t.Branch? && t.left.Branch? && node == t.node
      modifies s, `root
      ensures Holds(Snapshot(s), nil, root, p, RotateRight(t))
      ensures node in s && node.parent == t.left.node
    {
      CanRotateRight(Snapshot(s), nil, root, p, t);
      RightRotate(node, s);
      RotatedRight(old(Snapshot(s)), Snapshot(s), nil, old(root), p, t);
    }

    method Paint(node: Node, c: Color, ghost s: set<Node>, ghost p: Path, ghost t: Tree)
      requires Holds(Snapshot(s), nil, root, p, t) && t.Branch? && node == t.node
      modifies s
      ensures Holds(Snapshot(s), nil, root, p, t.(color := c))
    {
      Repaint(Snapshot(s), nil, root, p, t, c);
      hide Holds;
      node.color := c;
      assert Snapshot(s) == old(Snapshot(s)[node := Snapshot(s)[node].(color := c)]);
    }

    method PaintSibling(node: Node, c: Color, ghost s: set<Node>, ghost p: Path, ghost t: Tree)
      requires Holds(Snapshot(s), nil, root, p, t) && !p.Top? && Sibling(p).Branch? && node == Sibling(p).node
      modifies s
      ensures Holds(Snapshot(s), nil, root, WithSibling(p, Sibling(p).(color := c)), t)
    {
      FocusAcross(Snapshot(s), nil, root, p, t);
      Paint(node, c, s, Across(p, t), Sibling(p));
      FocusAcross(Snapshot(s), nil, root, WithSibling(p, Sibling(p).(color := c)), t);
    }

    // ----- insertion -----

    /** One round of the repair loop: returns the node the loop goes on with. */
    method InsertRound(newNode: Node, ghost s: set<Node>, ghost p: Path, ghost t: Tree) returns (next: Node)
      requires SentinelOk() && Holds(Snapshot(s), nil, root, p, t)
      requires t.Branch? && t.node == newNode && !p.Top? && !p.up.Top?
      modifies s, `root
      ensures SentinelOk()
      ensures var f := InsertStep(p, t);
        Holds(Snapshot(s), nil, root, f.path, f.tree) && f.tree.Branch? && f.tree.node == next
    {
      ghost var (g, above) := (p.up, Above(p, t));
      NearFocus(Snapshot(s), nil, root, p, t);
      FocusUp(Snapshot(s), nil, root, p, t);
      NearFocus(Snapshot(s), nil, root, g, above);
      hide Holds, Nodes, PathNodes, Plug, PathDistinct, Distinct;
      var parent := newNode.parent;
      var grand := parent.parent;
      if parent == grand.left {
        var y := grand.right;
        if y.color == Red {
          next := RecolorRound(parent, grand, y, s, g, above);
        } else {
          next := RotateRoundLeft(newNode, parent, grand, s, p, t);
        }
      } else {
        var y := grand.left;
        if y.color == Red {
          next := RecolorRound(parent, grand, y, s, g, above);
        } else {
          next := RotateRoundRight(newNode, parent, grand, s, p, t);
        }
      }
    }

    method RecolorRound(parent: Node, grand: Node, y: Node, ghost s: set<Node>, ghost g: Path, ghost above: Tree)
      returns (next: Node)
      requires Holds(Snapshot(s), nil, root, g, above) && !g.Top? && above.Branch? && Sibling(g).Branch?
      requires parent == above.node && grand == g.node && y == Sibling(g).node
      modifies s
      ensures next == grand
      ensures Holds(Snapshot(s), nil, root, g.up,
        Recolor(Above(WithSibling(g, Recolor(Sibling(g), Black)), Recolor(above, Black)), Red))
    {
      Paint(parent, Black, s, g, above);
      PaintSibling(y, Black, s, g, Recolor(above, Black));
      ghost var g' := WithSibling(g, Recolor(Sibling(g), Black));
      FocusUp(Snapshot(s), nil, root, g', Recolor(above, Black));
      Paint(grand, Red, s, g.up, Above(g', Recolor(above, Black)));
      next := grand;
    }

    /** The grandparent goes below its left child, which becomes black. */
    method LowerGrandRight(parent: Node, grand: Node, ghost s: set<Node>, ghost g: Path, ghost inner: Tree)
      requires Holds(Snapshot(s), nil, root, g, inner) && g.InLeft? && inner.Branch?
      requires parent == inner.node && grand == g.node
      modifies s, `root
      ensures var r := RotateRight(Branch(Recolor(inner, Black), g.node, Red, g.right));
        Holds(Snapshot(s), nil, root, InLeft(g.up, r.node, r.color, r.right), r.left)
    {
      hide Holds, Nodes, PathNodes, Plug, Snapshot;
      Paint(parent, Black, s, g, inner);
      ghost var b := Recolor(inner, Black);
      FocusUp(Snapshot(s), nil, root, g, b);
      Paint(grand, Red, s, g.up, Above(g, b));
      RightRotateAt(grand, s, g.up, Above(g, b).(color := Red));
      ghost var r := RotateRight(Above(g, b).(color := Red));
      FocusUp(Snapshot(s), nil, root, InLeft(g.up, r.node, r.color, r.right), r.left);
    }

    method LowerGrandLeft(parent: Node, grand: Node, ghost s: set<Node>, ghost g: Path, ghost inner: Tree)
      requires Holds(Snapshot(s), nil, root, g, inner) && g.InRight? && inner.Branch?
      requires parent == inner.node && grand == g.node
      modifies s, `root
      ensures var r := RotateLeft(Branch(g.left, g.node, Red, Recolor(inner, Black)));
        Holds(Snapshot(s), nil, root, InRight(g.up, r.left, r.node, r.color), r.right)
    {
      hide Holds, Nodes, PathNodes, Plug, Snapshot;
      Paint(parent, Black, s, g, inner);
      ghost var b := Recolor(inner, Black);
      FocusUp(Snapshot(s), nil, root, g, b);
      Paint(grand, Red, s, g.up, Above(g, b));
      LeftRotateAt(grand, s, g.up, Above(g, b).(color := Red));
      ghost var r := RotateLeft(Above(g, b).(color := Red));
      FocusUp(Snapshot(s), nil, root, InRight(g.up, r.left, r.node, r.color), r.right);
    }

    method RotateRoundLeft(newNode: Node, parent: Node, grand: Node, ghost s: set<Node>, ghost p: Path, ghost t: Tree)
      returns (next: Node)
      requires Holds(Snapshot(s), nil, root, p, t) && t.Branch? && !p.Top? && p.up.InLeft?
      requires ColorOf(p.up.right) == Black
      requires newNode == t.node && parent == p.node && grand == p.up.node
      modifies s, `root
      ensures var f := InsertStep(p, t);
        Holds(Snapshot(s), nil, root, f.path, f.tree) && f.tree.Branch? && f.tree.node == next
    {
      NearFocus(Snapshot(s), nil, root, p, t);
      FocusUp(Snapshot(s), nil, root, p, t);
      assert newNode.parent == parent && (newNode == parent.right <==> p.InRight?);
      hide Holds, Nodes, PathNodes, Plug, Snapshot;
      next := newNode;
      if next == parent.right {
        next := parent;
        LeftRotateAt(next, s, p.up, Above(p, t));
        LowerGrandRight(next.parent, grand, s, p.up, RotateLeft(Above(p, t)));
      } else {
        LowerGrandRight(next.parent, grand, s, p.up, Above(p, t));
      }
    }

    method RotateRoundRight(newNode: Node, parent: Node, grand: Node, ghost s: set<Node>, ghost p: Path, ghost t: Tree)
      returns (next: Node)
      requires Holds(Snapshot(s), nil, root, p, t) && t.Branch? && !p.Top? && p.up.InRight?
      requires ColorOf(p.up.left) == Black
      requires newNode == t.node && parent == p.node && grand == p.up.node
      modifies s, `root
      ensures var f := InsertStep(p, t);
        Holds(Snapshot(s), nil, root, f.path, f.tree) && f.tree.Branch? && f.tree.node == next
    {
      NearFocus(Snapshot(s), nil, root, p, t);
      FocusUp(Snapshot(s), nil, root, p, t);
      assert newNode.parent == parent && (newNode == parent.left <==> p.InLeft?);
      hide Holds, Nodes, PathNodes, Plug, Snapshot;
      next := newNode;
      if next == parent.left {
        next := parent;
        RightRotateAt(next, s, p.up, Above(p, t));
        LowerGrandLeft(next.parent, grand, s, p.up, RotateRight(Above(p, t)));
      } else {
        LowerGrandLeft(next.parent, grand, s, p.up, Above(p, t));
      }
    }

    method InsertFixup(x: Node, ghost s: set<Node>, ghost path: Path, ghost sub: Tree)
      requires SentinelOk() && Holds(Snapshot(s), nil, root, path, sub)
      requires RedFocus(path, sub) && sub.node == x
      modifies s, `root, `tree
      ensures SentinelOk() && Holds(Snapshot(s), nil, root, Top, tree) && RedBlack(tree)
      ensures Inorder(tree) == Inorder(Plug(path, sub))
    {
      hide Holds, Nodes, PathNodes, Plug, Inorder, Balanced, BlackHeight;
      ghost var p, t := path, sub;
      var newNode := x;
      NearFocus(Snapshot(s), nil, root, p, t);
      while newNode.parent.color == Red
        invariant SentinelOk() && Holds(Snapshot(s), nil, root, p, t)
        invariant RedFocus(p, t) && t.node == newNode && newNode in s && newNode.parent == ParentOf(nil, p)
        invariant !p.Top? ==> p.node in s && p.node.color == p.color
        invariant Inorder(Plug(p, t)) == Inorder(Plug(path, sub))
        decreases Depth(p)
      {
        InsertStepKeepsShape(p, t);
        InsertStepKeepsOrder(p, t);
        newNode := InsertRound(newNode, s, p, t);
        p, t := InsertStep(p, t).path, InsertStep(p, t).tree;
        NearFocus(Snapshot(s), nil, root, p, t);
      }
      FocusTop(Snapshot(s), nil, root, p, t);
      tree := Recolor(Plug(p, t), Black);
      RecolorKeepsOrder(Plug(p, t), Black);
      RedFocusEnds(p, t);
      NearFocus(Snapshot(s), nil, root, Top, Plug(p, t));
      Paint(root, Black, s, Top, Plug(p, t));
    }

    // ----- searching -----

    /** The map this object stands for. */
    ghost function Contents(): map<Point, Piece>
      reads this, nil, Nodes(tree)
      requires Valid()
    {
      ToMap(Inorder(tree))
    }

    /** Finds the node with the key, or the empty place where such a node belongs. */
    method GetNodeByKey(key: Point) returns (v: Node, ghost p: Path, ghost t: Tree)
      requires Valid()
      ensures Valid() && Plug(p, t) == tree && Holds(Snapshot(Nodes(tree)), nil, root, p, t)
      ensures v == Pointer(nil, t)
      ensures if v == nil then t.Leaf? && Between(p, key) && key !in Contents()
              else t.Branch? && v.key == key && v in Inorder(tree)
    {
      v, p, t := root, Top, tree;
      while v != nil
        invariant Valid() && Plug(p, t) == tree && Holds(Snapshot(Nodes(tree)), nil, root, p, t)
        invariant v == Pointer(nil, t) && Between(p, key)
        decreases t
      {
        NearFocus(Snapshot(Nodes(tree)), nil, root, p, t);
        PlugOrder(p, t);
        if ComparePoints(key, v.key) == 1 {
          DescendLeft(p, t, key);
          FocusUp(Snapshot(Nodes(tree)), nil, root, InLeft(p, t.node, t.color, t.right), t.left);
          v := v.left;
          p, t := InLeft(p, t.node, t.color, t.right), t.left;
          continue;
        }
        if ComparePoints(key, v.key) == -1 {
          DescendRight(p, t, key);
          FocusUp(Snapshot(Nodes(tree)), nil, root, InRight(p, t.left, t.node, t.color), t.right);
          v := v.right;
          p, t := InRight(p, t.left, t.node, t.color), t.right;
          continue;
        }
        if ComparePoints(key, v.key) == 0 {
          return;
        }
      }
      NearFocus(Snapshot(Nodes(tree)), nil, root, p, t);
      PlugOrder(p, t);
    }

    method GetValue(key: Point) returns (value: Option<Piece>)
      requires Valid()
      ensures Valid()
      ensures value == if key in Contents() then Some(Contents()[key]) else None
    {
      var node, p, t := GetNodeByKey(key);
      if node != nil {
        ToMapHas(Inorder(tree), node);
        value := Some(node.value);
      } else {
        value := None;
      }
    }

    /** Walks down to the empty place for an absent key. */
    method FindPlace(key: Point) returns (y: Node, ghost p: Path)
      requires Valid() && key !in Contents()
      ensures Valid() && Plug(p, Leaf) == tree && Holds(Snapshot(Nodes(tree)), nil, root, p, Leaf)
      ensures y == ParentOf(nil, p) && Between(p, key)
    {
      var x := root;
      y := nil;
      p := Top;
      ghost var t := tree;
      while x != nil
        invariant Valid() && Plug(p, t) == tree && Holds(Snapshot(Nodes(tree)), nil, root, p, t)
        invariant x == Pointer(nil, t) && y == ParentOf(nil, p) && Between(p, key)
        decreases t
      {
        NearFocus(Snapshot(Nodes(tree)), nil, root, p, t);
        PlugOrder(p, t);
        ToMapHas(Inorder(tree), x);
        y := x;
        if ComparePoints(key, x.key) == 1 {
          DescendLeft(p, t, key);
          FocusUp(Snapshot(Nodes(tree)), nil, root, InLeft(p, t.node, t.color, t.right), t.left);
          x := x.left;
          p, t := InLeft(p, t.node, t.color, t.right), t.left;
        } else {
          DescendRight(p, t, key);
          FocusUp(Snapshot(Nodes(tree)), nil, root, InRight(p, t.left, t.node, t.color), t.right);
          x := x.right;
          p, t := InRight(p, t.left, t.node, t.color), t.right;
        }
      }
      NearFocus(Snapshot(Nodes(tree)), nil, root, p, t);
    }

    /** Links a new node into the empty place. */
    method Hang(newNode: Node, y: Node, ghost s: set<Node>, ghost p: Path)
      requires SentinelOk() && Holds(Snapshot(s), nil, root, p, Leaf) && y == ParentOf(nil, p)
      requires newNode !in s && newNode != nil && Between(p, newNode.key)
      modifies s, newNode, `root
      ensures SentinelOk()
      ensures Holds(Snapshot(s + {newNode}), nil, root, p, Branch(Leaf, newNode, Red, Leaf))
    {
      NearFocus(Snapshot(s), nil, root, p, Leaf);
      hide Holds, Nodes, PathNodes;
      newNode.parent := y;
      if y == nil {
        root := newNode;
      } else {
        assert y in if p.InLeft? then After(p) else Before(p);
        if ComparePoints(newNode.key, y.key) == 1 {
          y.left := newNode;
        } else {
          y.right := newNode;
        }
      }
      newNode.left := nil;
      newNode.right := nil;
      newNode.color := Red;
      LeafFilled(old(Snapshot(s)), Snapshot(s + {newNode}), nil, old(root), p, newNode);
    }

    method InsertValue(key: Point, value: Piece)
      requires Valid()
      modifies `root, `tree, Nodes(tree)
      ensures Valid() && fresh(Nodes(tree) - old(Nodes(tree)))
      ensures Contents() == if key in old(Contents()) then old(Contents()) else old(Contents())[key := value]
    {
      hide Holds, Nodes, PathNodes, Plug, Inorder, Before, After, Balanced, Accepts, ToMap, Sorted, Between;
      var z, _, _ := GetNodeByKey(key);
      if z == nil {
        assert allocated(Nodes(tree));
        var newNode := new Node(key, value, Red);
        var y, p := FindPlace(key);
        ghost var (s, t) := (Nodes(tree), Branch(Leaf, newNode, Red, Leaf));
        LeafFocus(p, newNode);
        Hang(newNode, y, s, p);
        InsertFixup(newNode, s + {newNode}, p, t);
        InsertedOrder(p, newNode, tree);
      } else {
        ToMapHas(Inorder(tree), z);
      }
    }

    // ----- removal: the repair loop -----

    method PaintLeftChild(node: Node, c: Color, ghost s: set<Node>, ghost p: Path, ghost t: Tree)
      requires Holds(Snapshot(s), nil, root, p, t) && t.Branch? && t.left.Branch? && node == t.left.node
      modifies s
      ensures Holds(Snapshot(s), nil, root, p, t.(left := t.left.(color := c)))
    {
      ghost var q := InLeft(p, t.node, t.color, t.right);
      FocusUp(Snapshot(s), nil, root, q, t.left);
      Paint(node, c, s, q, t.left);
      FocusUp(Snapshot(s), nil, root, q, t.left.(color := c));
    }

    method PaintRightChild(node: Node, c: Color, ghost s: set<Node>, ghost p: Path, ghost t: Tree)
      requires Holds(Snapshot(s), nil, root, p, t) && t.Branch? && t.right.Branch? && node == t.right.node
      modifies s
      ensures Holds(Snapshot(s), nil, root, p, t.(right := t.right.(color := c)))
    {
      ghost var q := InRight(p, t.left, t.node, t.color);
      FocusUp(Snapshot(s), nil, root, q, t.right);
      Paint(node, c, s, q, t.right);
      FocusUp(Snapshot(s), nil, root, q, t.right.(color := c));
    }

    // The loop's two mirrored branches share these steps; `onLeft` says which branch is running.

    /** A red sibling `w` of the focus is rotated above the parent; returns the new sibling. */
    method LowerRedSibling(onLeft: bool, parent: Node, w: Node, ghost s: set<Node>, ghost p: Path, ghost t: Tree)
      returns (w': Node)
      requires SentinelOk() && Holds(Snapshot(s), nil, root, p, t) && !p.Top? && Sibling(p).Branch?
      requires onLeft == p.InLeft? && parent == p.node && w == Sibling(p).node && Sibling(p).color == Red
      requires Sibling(LowerParent(p)).Branch?
      modifies s, `root
      ensures SentinelOk() && Holds(Snapshot(s), nil, root, LowerParent(p), t)
      ensures w' == Sibling(LowerParent(p)).node
    {
      hide Holds, Nodes, PathNodes, Plug, PathDistinct, Distinct;
      PaintSibling(w, Black, s, p, t);
      ghost var p1 := WithSibling(p, Sibling(p).(color := Black));
      FocusUp(Snapshot(s), nil, root, p1, t);
      Paint(parent, Red, s, p.up, Above(p1, t));
      ghost var (b, q) := (Above(p1, t).(color := Red), LowerParent(p));
      if onLeft {
        LeftRotateAt(parent, s, p.up, b);
      } else {
        RightRotateAt(parent, s, p.up, b);
      }
      FocusUp(Snapshot(s), nil, root, q.up, Above(q, t));
      FocusUp(Snapshot(s), nil, root, q, t);
      NearFocus(Snapshot(s), nil, root, q, t);
      w' := if onLeft then parent.right else parent.left;
    }

    /** Turns a black `w` with a red inner and a black outer child so that the outer child is red. */
    method TurnSiblingAt(onLeft: bool, w: Node, ghost s: set<Node>, ghost q: Path, ghost b: Tree)
      requires SentinelOk() && Holds(Snapshot(s), nil, root, q, b) && b.Branch? && w == b.node
      requires if onLeft then b.left.Branch? else b.right.Branch?
      modifies s, `root
      ensures SentinelOk()
      ensures Holds(Snapshot(s), nil, root, q,
          if onLeft then RotateRight(Branch(Recolor(b.left, Black), b.node, Red, b.right))
          else RotateLeft(Branch(b.left, b.node, Red, Recolor(b.right, Black))))
    {
      NearFocus(Snapshot(s), nil, root, q, b);
      hide Holds, Nodes, PathNodes, Plug, PathDistinct, Distinct;
      if onLeft {
        PaintLeftChild(w.left, Black, s, q, b);
        ghost var b1 := b.(left := Recolor(b.left, Black));
        Paint(w, Red, s, q, b1);
        RightRotateAt(w, s, q, b1.(color := Red));
      } else {
        PaintRightChild(w.right, Black, s, q, b);
        ghost var b1 := b.(right := Recolor(b.right, Black));
        Paint(w, Red, s, q, b1);
        LeftRotateAt(w, s, q, b1.(color := Red));
      }
    }

    /** Paints the outer child of the sibling `w` black. */
    method PaintOuter(onLeft: bool, w: Node, ghost s: set<Node>, ghost p: Path, ghost t: Tree)
      requires Holds(Snapshot(s), nil, root, p, t) && !p.Top? && Sibling(p).Branch? && w == Sibling(p).node
      requires onLeft == p.InLeft? && if onLeft then Sibling(p).right.Branch? else Sibling(p).left.Branch?
      modifies s
      ensures var b := Sibling(p);
        Holds(Snapshot(s), nil, root, WithSibling(p, if onLeft then b.(right := Recolor(b.right, Black))
                                                     else b.(left := Recolor(b.left, Black))), t)
    {
      ghost var b := Sibling(p);
      FocusAcross(Snapshot(s), nil, root, p, t);
      ChildColors(Snapshot(s), nil, root, Across(p, t), b);
      hide Holds, Nodes, PathNodes, Plug, PathDistinct, Distinct;
      if onLeft {
        PaintRightChild(w.right, Black, s, Across(p, t), b);
        b := b.(right := Recolor(b.right, Black));
      } else {
        PaintLeftChild(w.left, Black, s, Across(p, t), b);
        b := b.(left := Recolor(b.left, Black));
      }
      FocusAcross(Snapshot(s), nil, root, WithSibling(p, b), t);
    }

    /** Paints the three nodes that the last rotation of the repair moves. */
    method PaintForSupply(onLeft: bool, parent: Node, w: Node, ghost s: set<Node>, ghost p: Path, ghost t: Tree)
      requires SentinelOk() && nil !in s && Holds(Snapshot(s), nil, root, p, t) && !p.Top? && Sibling(p).Branch?
      requires onLeft == p.InLeft? && parent == p.node && w == Sibling(p).node && parent.color == p.color
      requires if onLeft then Sibling(p).right.Branch? else Sibling(p).left.Branch?
      modifies s
      ensures SentinelOk() && Holds(Snapshot(s), nil, root, p.up, BeforeSupply(p, t, Sibling(p)))
    {
      hide Holds, Nodes, PathNodes, Plug, PathDistinct, Distinct, Snapshot;
      PaintSibling(w, parent.color, s, p, t);
      ghost var p1 := WithSibling(p, Sibling(p).(color := p.color));
      PaintOuter(onLeft, w, s, p1, t);
      ghost var b := Sibling(p1);
      ghost var p2 := WithSibling(p1, if onLeft then b.(right := Recolor(b.right, Black)) else b.(left := Recolor(b.left, Black)));
      FocusUp(Snapshot(s), nil, root, p2, t);
      Paint(parent, Black, s, p.up, Above(p2, t));
    }

    /** The last rotation of the repair. */
    method SupplyAt(onLeft: bool, parent: Node, w: Node, ghost s: set<Node>, ghost p: Path, ghost t: Tree)
      requires SentinelOk() && Holds(Snapshot(s), nil, root, p, t) && !p.Top? && Sibling(p).Branch?
      requires onLeft == p.InLeft? && parent == p.node && w == Sibling(p).node
      requires if onLeft then Sibling(p).right.Branch? else Sibling(p).left.Branch?
      modifies s, `root
      ensures SentinelOk() && Holds(Snapshot(s), nil, root, p.up, Supply(p, t, Sibling(p)))
    {
      NearFocus(Snapshot(s), nil, root, p, t);
      assert parent.color == p.color && nil !in s;
      hide Holds, Nodes, PathNodes, Plug, PathDistinct, Distinct, Snapshot;
      PaintForSupply(onLeft, parent, w, s, p, t);
      ghost var b := BeforeSupply(p, t, Sibling(p));
      if onLeft {
        LeftRotateAt(parent, s, p.up, b);
      } else {
        RightRotateAt(parent, s, p.up, b);
      }
    }

    /** One round of the repair loop. */
    method DeleteRound(x: Node, ghost s: set<Node>, ghost p: Path, ghost t: Tree) returns (next: Node)
      requires SentinelOk() && Holds(Snapshot(s), nil, root, p, t) && x == Pointer(nil, t)
      requires ShortFocus(p, t) && ColorOf(t) == Black && !p.Top? && x.parent == p.node
      modifies s, `root
      ensures SentinelOk() && !LowerParent(p).Top? && Sibling(LowerParent(p)).Branch?
      ensures var f := DeleteStep(LowerParent(p), t);
        Holds(Snapshot(s), nil, root, f.path, f.tree) && next == Pointer(nil, f.tree)
    {
      SiblingExists(p, t);
      LowerParentKeepsShape(p, t);
      NearFocus(Snapshot(s), nil, root, p, t);
      hide Holds, Nodes, PathNodes, Plug, PathDistinct, Distinct, Accepts, Balanced, BlackHeight;
      var parent := x.parent;
      var onLeft := x == parent.left;
      var w := if onLeft then parent.right else parent.left;
      if w.color == Red {
        w := LowerRedSibling(onLeft, parent, w, s, p, t);
      }
      ghost var q := LowerParent(p);
      next := DeleteRoundBlack(onLeft, parent, w, s, q, t);
    }

    method DeleteRoundBlack(onLeft: bool, parent: Node, w: Node, ghost s: set<Node>, ghost p: Path, ghost t: Tree)
      returns (next: Node)
      requires SentinelOk() && Holds(Snapshot(s), nil, root, p, t)
      requires !p.Top? && Sibling(p).Branch?
      requires onLeft == p.InLeft? && parent == p.node && w == Sibling(p).node
      modifies s, `root
      ensures SentinelOk()
      ensures var f := DeleteStep(p, t);
        Holds(Snapshot(s), nil, root, f.path, f.tree) && next == Pointer(nil, f.tree)
    {
      FocusAcross(Snapshot(s), nil, root, p, t);
      NearFocus(Snapshot(s), nil, root, p, t);
      ghost var b := Sibling(p);
      ChildColors(Snapshot(s), nil, root, Across(p, t), b);
      assert w.left.color == ColorOf(b.left) && w.right.color == ColorOf(b.right);
      hide Holds, Nodes, PathNodes, Plug, PathDistinct, Distinct;
      if w.left.color == Black && w.right.color == Black {
        PaintSibling(w, Red, s, p, t);
        FocusUp(Snapshot(s), nil, root, WithSibling(p, b.(color := Red)), t);
        next := parent;
      } else {
        if (if onLeft then w.right else w.left).color == Black {
          TurnSiblingAt(onLeft, w, s, Across(p, t), b);
        }
        ghost var p' := WithSibling(p, TurnSibling(p));
        FocusAcross(Snapshot(s), nil, root, p', t);
        NearFocus(Snapshot(s), nil, root, p', t);
        var w' := if onLeft then parent.right else parent.left;
        SupplyAt(onLeft, parent, w', s, p', t);
        FocusTop(Snapshot(s), nil, root, p.up, Supply(p, t, TurnSibling(p)));
        ghost var f := DeleteStep(p, t);
        NearFocus(Snapshot(s), nil, root, f.path, f.tree);
        next := root;
      }
    }

    method DeleteFixup(x0: Node, ghost s: set<Node>, ghost path: Path, ghost sub: Tree)
      requires SentinelOk() && Holds(Snapshot(s), nil, root, path, sub)
      requires ShortFocus(path, sub) && x0 == Pointer(nil, sub) && x0.parent == ParentOf(nil, path)
      modifies s, `root, `tree, nil`color
      ensures SentinelOk() && Holds(Snapshot(s), nil, root, Top, tree) && RedBlack(tree)
      ensures Inorder(tree) == Inorder(Plug(path, sub))
    {
      hide Holds, Nodes, PathNodes, Plug, Inorder, ShortFocus, RedBlack, Recolor, LowerParent, DeleteStep;
      ghost var p, t := path, sub;
      var x := x0;
      assert x.color == ColorOf(t) && (p.Top? <==> root == x) && (!p.Top? ==> x.parent == p.node) by {
        NearFocus(Snapshot(s), nil, root, p, t);
      }
      while x != root && x.color == Black
        invariant SentinelOk() && Holds(Snapshot(s), nil, root, p, t)
        invariant ShortFocus(p, t) && x == Pointer(nil, t)
        invariant x.color == ColorOf(t) && (p.Top? <==> root == x)
        invariant !p.Top? ==> x.parent == p.node
        invariant Inorder(Plug(p, t)) == Inorder(Plug(path, sub))
        decreases Depth(p), ColorOf(t) == Black
      {
        ghost var f := DeleteRoundKeeps(p, t);
        x := DeleteRound(x, s, p, t);
        p, t := f.path, f.tree;
        assert x.color == ColorOf(t) && (p.Top? <==> root == x) && (!p.Top? ==> x.parent == p.node) by {
          NearFocus(Snapshot(s), nil, root, p, t);
        }
      }
      ShortFocusEnds(p, t);
      PlugRecolored(p, t, Black);
      tree := Plug(p, Recolor(t, Black));
      Blacken(x, s, p, t);
    }

    method Blacken(x: Node, ghost s: set<Node>, ghost p: Path, ghost t: Tree)
      requires SentinelOk() && Holds(Snapshot(s), nil, root, p, t) && x == Pointer(nil, t)
      modifies s, nil`color
      ensures SentinelOk() && Holds(Snapshot(s), nil, root, Top, Plug(p, Recolor(t, Black)))
    {
      FocusTop(Snapshot(s)[x := Links(x.left, x.right, x.parent, Black)], nil, root, p, Recolor(t, Black));
      FocusTop(Snapshot(s), nil, root, p, Recolor(t, Black));
      if t.Branch? {
        Repaint(Snapshot(s), nil, root, p, t, Black);
      }
      NearFocus(Snapshot(s), nil, root, p, t);
      hide Holds;
      x.color := Black;
      assert t.Branch? ==> Snapshot(s) == old(Snapshot(s)[x := Snapshot(s)[x].(color := Black)]);
      assert t.Leaf? ==> Snapshot(s) == old(Snapshot(s));
    }

    // ----- removal -----

    method Transplant(u: Node, v: Node, ghost s: set<Node>)
      requires SentinelOk() && TransplantReady(Snapshot(s), nil, u, v)
      modifies s, nil`parent, `root
      ensures SentinelOk() && Transplanted(old(Snapshot(s)), Snapshot(s), nil, u, v)
      ensures v.parent == old(u.parent) && (v != nil ==> nil.parent == old(nil.parent))
      ensures root == if old(u.parent) == nil then v else old(root)
    {
      if u.parent == nil {
        root := v;
      } else {
        if u == u.parent.left {
          u.parent.left := v;
        } else {
          u.parent.right := v;
        }
      }
      v.parent := u.parent;
    }

    method TreeMinimum(node: Node, ghost s: set<Node>, ghost p: Path, ghost t: Tree)
      returns (v: Node, ghost inner: Path, ghost sub: Tree)
      requires Holds(Snapshot(s), nil, root, p, t) && t.Branch? && node == t.node
      ensures Holds(Snapshot(s), nil, root, Append(inner, p), sub)
      ensures sub.Branch? && sub.left.Leaf? && v == sub.node && Before(inner) == [] && Plug(inner, sub) == t
    {
      v, inner, sub := node, Top, t;
      NearFocus(Snapshot(s), nil, root, p, t);
      while v.left != nil
        invariant Holds(Snapshot(s), nil, root, Append(inner, p), sub)
        invariant sub.Branch? && v == sub.node && v in s && v.left == Pointer(nil, sub.left) && nil !in s
        invariant Before(inner) == [] && Plug(inner, sub) == t
        decreases sub
      {
        v := v.left;
        inner, sub := InLeft(inner, sub.node, sub.color, sub.right), sub.left;
        FocusUp(Snapshot(s), nil, root, Append(inner, p), sub);
        NearFocus(Snapshot(s), nil, root, Append(inner, p), sub);
      }
      if sub.left.Branch? {
        ChildColors(Snapshot(s), nil, root, Append(inner, p), sub);
      }
    }

    /** Puts `y` in the place of `z`, with the left subtree and the colour of `z`. */
    method ReplaceBy(z: Node, y: Node, ghost s: set<Node>)
      requires SentinelOk() && TransplantReady(Snapshot(s), nil, z, y) && y in s && y != z
      requires z.left in s && z.left != y && z.left != z && z.left != z.parent
      modifies s, nil`parent, `root
      ensures SentinelOk() && Replaced(old(Snapshot(s)), Snapshot(s), nil, z, y)
      ensures nil.parent == old(nil.parent)
      ensures root == if old(z.parent) == nil then y else old(root)
    {
      Transplant(z, y, s);
      y.left := z.left;
      y.left.parent := y;
      y.color := z.color;
    }

    /** Hangs the right subtree of `z` below `y`, which is outside the tree. */
    method HangBelow(z: Node, y: Node, ghost s: set<Node>, ghost p: Path, ghost l: Tree, ghost c: Color, ghost r: Tree)
      requires SentinelOk() && Holds(Snapshot(s), nil, root, p, Branch(l, z, c, r)) && l.Branch? && r.Branch? && y in s
      requires y !in PathNodes(p) && y != z && y !in Nodes(l) && y !in Nodes(r)
      modifies s
      ensures SentinelOk() && Loose(Snapshot(s), nil, root, p, l, z, c, r, y)
    {
      NearFocus(Snapshot(s), nil, root, p, Branch(l, z, c, r));
      FocusUp(Snapshot(s), nil, root, InRight(p, l, z, c), r);
      NearFocus(Snapshot(s), nil, root, InRight(p, l, z, c), r);
      assert r.node in Nodes(r);
      hide Holds, Nodes, PathNodes, Loose;
      y.right := z.right;
      y.right.parent := y;
      LooseBelow(old(Snapshot(s)), Snapshot(s), nil, root, p, l, z, c, r, y);
    }

    /** Unlinks the successor `y` of `z`, which lies deeper, and hangs the rest of the right subtree below it. */
    method DetachDeep(z: Node, y: Node, ghost s: set<Node>, ghost p: Path, ghost t: Tree, ghost inner: Path, ghost b: Tree)
      requires t.Branch? && t.node == z && t.left.Branch? && b.Branch? && b.left.Leaf? && y == b.node
      requires Before(inner) == [] && !inner.Top?
      requires SentinelOk() && Holds(Snapshot(s), nil, root, Append(inner, InRight(p, t.left, z, t.color)), b)
      modifies s, nil`parent, `root
      ensures SentinelOk() && Loose(Snapshot(s), nil, root, p, t.left, z, t.color, Plug(inner, b.right), y)
      ensures b.right.Leaf? ==> nil.parent == inner.node
    {
      ghost var zp := InRight(p, t.left, z, t.color);
      ghost var q := Append(inner, zp);
      SplicedOut(Snapshot(s), nil, root, inner, p, t.left, z, t.color, b);
      NearFocus(Snapshot(s), nil, root, q, b);
      CanSplice(Snapshot(s), nil, root, q, b, b.right);
      hide Holds, Nodes, PathNodes, PathDistinct, Distinct, Plug, Loose, Before;
      assert q.node == inner.node;
      Transplant(y, y.right, s);
      Spliced(old(Snapshot(s)), Snapshot(s), nil, old(root), q, b, b.right);
      FocusOut(Snapshot(s), nil, root, inner, zp, b.right);
      FocusUp(Snapshot(s), nil, root, zp, Plug(inner, b.right));
      HangBelow(z, y, s, p, t.left, t.color, Plug(inner, b.right));
    }

    method SetParent(x: Node, y: Node, ghost s: set<Node>)
      requires SentinelOk() && nil !in s && (x == nil || (x in s && x.parent == y))
      modifies s, nil`parent
      ensures SentinelOk() && Snapshot(s) == old(Snapshot(s)) && x.parent == y
    {
      x.parent := y;
    }

    /** The successor `y` is the right child: its right subtree `x` stays below it. */
    method DetachNear(x: Node, y: Node, ghost s: set<Node>, ghost p: Path, ghost t: Tree)
      requires SentinelOk() && nil !in s && Holds(Snapshot(s), nil, root, p, t) && t.Branch? && t.left.Branch?
      requires t.right.Branch? && t.right.left.Leaf? && y == t.right.node && x == Pointer(nil, t.right.right)
      modifies s, nil`parent
      ensures SentinelOk() && Loose(Snapshot(s), nil, root, p, t.left, t.node, t.color, t.right.right, y) && x.parent == y
    {
      hide Holds, Nodes, PathNodes, PathDistinct, Distinct, Loose, Plug;
      ghost var (zp, b) := (InRight(p, t.left, t.node, t.color), t.right);
      LooseChild(Snapshot(s), nil, root, p, t.left, t.node, t.color, b);
      if b.right.Branch? {
        FocusUp(Snapshot(s), nil, root, zp, b);
        FocusUp(Snapshot(s), nil, root, InRight(zp, Leaf, y, b.color), b.right);
        NearFocus(Snapshot(s), nil, root, InRight(zp, Leaf, y, b.color), b.right);
      }
      SetParent(x, y, s);
    }

    /** Unlinks the successor `y` of `z`; what is left of the right subtree of `z` ends up below it. */
    method DetachSuccessor(z: Node, ghost s: set<Node>, ghost p: Path, ghost t: Tree)
      returns (x: Node, color: Color, y: Node, ghost inner: Path, ghost sub: Tree)
      requires SentinelOk() && Holds(Snapshot(s), nil, root, p, t)
      requires t.Branch? && t.node == z && t.left.Branch? && t.right.Branch?
      modifies s, nil`parent, `root
      ensures SentinelOk() && x == Pointer(nil, sub)
      ensures Before(inner) == [] && Plug(inner, Branch(Leaf, y, color, sub)) == t.right
      ensures Loose(Snapshot(s), nil, root, p, t.left, z, t.color, Plug(inner, sub), y)
      ensures x == nil ==> nil.parent == ParentOf(nil, Append(inner, InRight(p, t.left, y, t.color)))
    {
      ghost var (zp, b) := (InRight(p, t.left, z, t.color), Leaf);
      NearFocus(Snapshot(s), nil, root, p, t);
      FocusUp(Snapshot(s), nil, root, zp, t.right);
      assert z.right == t.right.node;
      hide Holds, Nodes, PathNodes, PathDistinct, Distinct, Loose, Before;
      y, inner, b := TreeMinimum(z.right, s, zp, t.right);
      sub := b.right;
      assert y in s && y.color == b.color && y.right == Pointer(nil, sub) && (y.parent == z <==> inner.Top?) by {
        NearFocus(Snapshot(s), nil, root, Append(inner, zp), b);
        SplicedOut(Snapshot(s), nil, root, inner, p, t.left, z, t.color, b);
      }
      color := y.color;
      x := y.right;
      if y.parent == z {
        DetachNear(x, y, s, p, t);
      } else {
        DetachDeep(z, y, s, p, t, inner, b);
      }
    }

    /** Takes out a node one of whose sides is empty: its other side `sub` moves up. */
    method TakeOutSimple(z: Node, x: Node, ghost s: set<Node>, ghost p: Path, ghost t: Tree, ghost sub: Tree)
      requires SentinelOk() && Holds(Snapshot(s), nil, root, p, t) && t.Branch? && t.node == z && x == Pointer(nil, sub)
      requires (t.left.Leaf? && sub == t.right) || (t.right.Leaf? && sub == t.left)
      modifies s, nil`parent, `root
      ensures SentinelOk() && Holds(Snapshot(s), nil, root, p, sub) && x.parent == ParentOf(nil, p)
    {
      CanSplice(Snapshot(s), nil, root, p, t, sub);
      hide Holds;
      Transplant(z, x, s);
      Spliced(old(Snapshot(s)), Snapshot(s), nil, old(root), p, t, sub);
    }

    /** Takes out a node with two children: its successor `y` moves into its place. */
    method TakeOutInner(z: Node, ghost s: set<Node>, ghost p: Path, ghost t: Tree)
      returns (x: Node, color: Color, ghost y: Node, ghost inner: Path, ghost sub: Tree)
      requires SentinelOk() && Holds(Snapshot(s), nil, root, p, t)
      requires t.Branch? && t.node == z && t.left.Branch? && t.right.Branch?
      modifies s, nil`parent, `root
      ensures SentinelOk() && x == Pointer(nil, sub)
      ensures Before(inner) == [] && Plug(inner, Branch(Leaf, y, color, sub)) == t.right
      ensures var q := Append(inner, InRight(p, t.left, y, t.color));
        Holds(Snapshot(s), nil, root, q, sub) && x.parent == ParentOf(nil, q)
    {
      hide Holds, Nodes, PathNodes, Loose, Plug, Before;
      var y';
      x, color, y', inner, sub := DetachSuccessor(z, s, p, t);
      y := y';
      ghost var (m, r) := (Snapshot(s), Plug(inner, sub));
      CanReplace(m, nil, root, p, t.left, z, t.color, r, y);
      ghost var root' := root;
      ReplaceBy(z, y', s);
      Replacement(m, Snapshot(s), nil, root', p, t.left, z, t.color, r, y);
      ghost var yp := InRight(p, t.left, y, t.color);
      FocusUp(Snapshot(s), nil, root, yp, r);
      FocusOut(Snapshot(s), nil, root, inner, yp, sub);
      NearFocus(Snapshot(s), nil, root, Append(inner, yp), sub);
    }

    /** Unlinks `z`. The tree is then short of a black node at `sub` if a black node left its place. */
    method TakeOut(z: Node, ghost p: Path, ghost t: Tree)
      returns (x: Node, color: Color, ghost q: Path, ghost sub: Tree, ghost a: seq<Node>, ghost b: seq<Node>)
      requires Valid() && Plug(p, t) == tree && Holds(Snapshot(Nodes(tree)), nil, root, p, t)
      requires t.Branch? && t.node == z
      modifies Nodes(tree), nil`parent, `root
      ensures SentinelOk() && Holds(Snapshot(Nodes(tree)), nil, root, q, sub)
      ensures x == Pointer(nil, sub) && x.parent == ParentOf(nil, q)
      ensures TakenOut(tree, z, color, q, sub, a, b)
    {
      NearFocus(Snapshot(Nodes(tree)), nil, root, p, t);
      hide Holds, Nodes, PathNodes, Plug, Before, Inorder, Sorted, Append, TakenOut;
      color := z.color;
      if z.left == nil || z.right == nil {
        sub := if t.left.Leaf? then t.right else t.left;
        x := if z.left == nil then z.right else z.left;
        TakeOutSimple(z, x, Nodes(tree), p, t, sub);
        q := p;
        a, b := SimpleTakenOut(p, t, sub);
      } else {
        ghost var y, inner;
        x, color, y, inner, sub := TakeOutInner(z, Nodes(tree), p, t);
        q := Append(inner, InRight(p, t.left, y, t.color));
        a, b := InnerTakenOut(p, t, inner, y, color, sub);
      }
    }

    method RemoveValue(key: Point)
      requires Valid()
      modifies `root, `tree, Nodes(tree), nil
      ensures Valid() && Nodes(tree) <= old(Nodes(tree))
      ensures Contents() == old(Contents()) - {key}
    {
      hide Holds, PathNodes, Plug, Inorder, Before, After, Balanced, Accepts, ToMap, Sorted, Between, ShortFocus;
      var z, p, t := GetNodeByKey(key);
      if z != nil {
        ghost var s := Nodes(tree);
        var x, color, q, sub, a, b := TakeOut(z, p, t);
        if color == Black {
          DeleteFixup(x, s, q, sub);
        } else {
          tree := Plug(q, sub);
          FocusTop(Snapshot(s), nil, root, q, sub);
        }
        RemovedOrder(old(tree), tree, a, z, b);
        NearFocus(Snapshot(s), nil, root, Top, tree);
        Restrict(Snapshot(s), Snapshot(Nodes(tree)), nil, root, tree);
      }
    }
  }

  // ----- whole runs -----

  datatype Op = Insert(key: Point, value: Piece) | Remove(key: Point)

  /** The map a run of operations builds: the first value inserted for a key stays until the key is removed. */
  function Play(ops: seq<Op>): map<Point, Piece> {
    if ops == [] then map[]
    else
      var m := Play(ops[..|ops| - 1]);
      match ops[|ops| - 1]
      case Insert(k, v) => if k in m then m else m[k := v]
      case Remove(k) => m - {k}
  }

  /** Every run from the empty map keeps the tree valid and ends with the map it should. */
  method Run(ops: seq<Op>) returns (m: Map)
    ensures fresh(m) && m.Valid() && m.Contents() == Play(ops)
  {
    m := new Map();
    for i := 0 to |ops|
      invariant fresh(m) && fresh(m.nil) && m.Valid() && fresh(Nodes(m.tree))
      invariant m.Contents() == Play(ops[..i])
    {
      assert ops[..i + 1][..i] == ops[..i];
      match ops[i]
      case Insert(k, v) => m.InsertValue(k, v);
      case Remove(k) => m.RemoveValue(k);
    }
    assert ops[..|ops|] == ops;
  }
}
