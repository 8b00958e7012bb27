/**
 * How a tree lies in memory. `Memory` is a snapshot of the links of all tree nodes;
 * `Holds` says that a snapshot holds the tree made of the surroundings `p` and the subtree `t`.
 */
module RedBlackMemory {
  import opened RedBlackTree

  datatype Links = Links(left: Node, right: Node, parent: Node, color: Color)
  type Memory = map<Node, Links>

  function Pointer(nil: Node, t: Tree): Node {
    if t.Leaf? then nil else t.node
  }

  function ParentOf(nil: Node, p: Path): Node {
    if p.Top? then nil else p.node
  }

  /** The subtree `t` hangs at pointer `ptr`, below the node `up`. */
  ghost predicate Linked(m: Memory, nil: Node, t: Tree, ptr: Node, up: Node)
    ensures Linked(m, nil, t, ptr, up) ==> ptr == Pointer(nil, t) && Nodes(t) <= m.Keys
  {
    match t
    case Leaf => ptr == nil
    case Branch(l, n, c, r) =>
      && ptr == n && n in m && m[n].color == c && m[n].parent == up
      && Linked(m, nil, l, m[n].left, n) && Linked(m, nil, r, m[n].right, n)
  }

  /** Everything around a hole is in place, and the pointer in the hole is `hole`. */
  ghost predicate Surrounds(m: Memory, nil: Node, root: Node, p: Path, hole: Node)
    ensures Surrounds(m, nil, root, p, hole) ==> PathNodes(p) <= m.Keys
  {
    match p
    case Top => root == hole
    case InLeft(up, n, c, r) =>
      && n in m && m[n].left == hole && m[n].color == c && m[n].parent == ParentOf(nil, up)
      && Linked(m, nil, r, m[n].right, n) && Surrounds(m, nil, root, up, n)
    case InRight(up, l, n, c) =>
      && n in m && m[n].right == hole && m[n].color == c && m[n].parent == ParentOf(nil, up)
      && Linked(m, nil, l, m[n].left, n) && Surrounds(m, nil, root, up, n)
  }

  ghost predicate Holds(m: Memory, nil: Node, root: Node, p: Path, t: Tree) {
    && nil !in m
    && PathDistinct(p) && Distinct(t) && PathNodes(p) !! Nodes(t)
    && Linked(m, nil, t, Pointer(nil, t), ParentOf(nil, p))
    && Surrounds(m, nil, root, p, Pointer(nil, t))
  }

  ghost predicate SameOn(m: Memory, m': Memory, s: set<Node>) {
    forall n :: n in s && n in m ==> n in m' && m'[n] == m[n]
  }

  // ----- what a write elsewhere leaves alone -----

  lemma {:induction false} LinkedFrame(m: Memory, m': Memory, nil: Node, t: Tree, ptr: Node, up: Node)
    requires Linked(m, nil, t, ptr, up) && SameOn(m, m', Nodes(t))
    ensures Linked(m', nil, t, ptr, up)
  {
    match t
    case Leaf =>
    case Branch(l, n, c, r) =>
      LinkedFrame(m, m', nil, l, m[n].left, n);
      LinkedFrame(m, m', nil, r, m[n].right, n);
  }

  /** Hanging a subtree below another node changes only the parent link of its top node. */
  lemma Reparent(m: Memory, m': Memory, nil: Node, t: Tree, ptr: Node, up: Node, up': Node)
    requires Linked(m, nil, t, ptr, up) && Distinct(t)
    requires SameOn(m, m', Nodes(t) - {ptr})
    requires t.Branch? ==> ptr in m' && m'[ptr] == m[ptr].(parent := up')
    ensures Linked(m', nil, t, ptr, up')
  {
    if t.Branch? {
      LinkedFrame(m, m', nil, t.left, m[ptr].left, ptr);
      LinkedFrame(m, m', nil, t.right, m[ptr].right, ptr);
    }
  }

  lemma {:induction false} SurroundsFrame(m: Memory, m': Memory, nil: Node, root: Node, p: Path, hole: Node)
    requires Surrounds(m, nil, root, p, hole) && SameOn(m, m', PathNodes(p))
    ensures Surrounds(m', nil, root, p, hole)
  {
    match p
    case Top =>
    case InLeft(up, n, c, r) =>
      LinkedFrame(m, m', nil, r, m[n].right, n);
      SurroundsFrame(m, m', nil, root, up, n);
    case InRight(up, l, n, c) =>
      LinkedFrame(m, m', nil, l, m[n].left, n);
      SurroundsFrame(m, m', nil, root, up, n);
  }

  /** What `m'` has where `m` has the parent of the hole: the pointer to `hole` became one to `hole'`. */
  ghost predicate Refilled(m: Memory, m': Memory, up: Node, hole: Node, hole': Node) {
    up in m ==> up in m' && m'[up] == if m[up].left == hole then m[up].(left := hole') else m[up].(right := hole')
  }

  lemma RefillSurrounds(m: Memory, m': Memory, nil: Node, root: Node, p: Path, hole: Node, hole': Node)
    requires Surrounds(m, nil, root, p, hole) && PathDistinct(p)
    requires hole != nil && nil !in m && hole !in PathNodes(p)
    requires Refilled(m, m', ParentOf(nil, p), hole, hole')
    requires SameOn(m, m', PathNodes(p) - {ParentOf(nil, p)})
    ensures Surrounds(m', nil, if p.Top? then hole' else root, p, hole')
  {
    match p
    case Top =>
    case InLeft(up, n, c, r) =>
      LinkedFrame(m, m', nil, r, m[n].right, n);
      SurroundsFrame(m, m', nil, root, up, n);
    case InRight(up, l, n, c) =>
      LinkedFrame(m, m', nil, l, m[n].left, n);
      SurroundsFrame(m, m', nil, root, up, n);
  }

  // ----- moving the focus -----

  lemma FocusUp(m: Memory, nil: Node, root: Node, p: Path, t: Tree)
    requires !p.Top?
    ensures Holds(m, nil, root, p, t) <==> Holds(m, nil, root, p.up, Above(p, t))
  {
    var b := Above(p, t);
    assert (PathDistinct(p) && Distinct(t) && PathNodes(p) !! Nodes(t))
      <==> (PathDistinct(p.up) && Distinct(b) && PathNodes(p.up) !! Nodes(b));
    assert (Linked(m, nil, t, Pointer(nil, t), p.node) && Surrounds(m, nil, root, p, Pointer(nil, t)))
      <==> (Linked(m, nil, b, p.node, ParentOf(nil, p.up)) && Surrounds(m, nil, root, p.up, p.node));
  }

  /** The path seen from the sibling. */
  function Across(p: Path, t: Tree): Path
    requires !p.Top?
  {
    if p.InLeft? then InRight(p.up, t, p.node, p.color) else InLeft(p.up, p.node, p.color, t)
  }

  lemma FocusAcross(m: Memory, nil: Node, root: Node, p: Path, t: Tree)
    requires !p.Top?
    ensures Holds(m, nil, root, p, t) <==> Holds(m, nil, root, Across(p, t), Sibling(p))
  {
    FocusUp(m, nil, root, p, t);
    FocusUp(m, nil, root, Across(p, t), Sibling(p));
  }

  lemma {:induction false} FocusTop(m: Memory, nil: Node, root: Node, p: Path, t: Tree)
    ensures Holds(m, nil, root, p, t) <==> Holds(m, nil, root, Top, Plug(p, t))
  {
    match p
    case Top =>
    case InLeft(up, n, c, r) =>
      FocusUp(m, nil, root, p, t);
      FocusTop(m, nil, root, up, Above(p, t));
    case InRight(up, l, n, c) =>
      FocusUp(m, nil, root, p, t);
      FocusTop(m, nil, root, up, Above(p, t));
  }

  lemma {:induction false} RootOnPath(m: Memory, nil: Node, root: Node, p: Path, hole: Node)
    requires Surrounds(m, nil, root, p, hole) && !p.Top?
    ensures root in PathNodes(p) && root in m
  {
    if !p.up.Top? {
      RootOnPath(m, nil, root, p.up, p.node);
    }
  }

  /** What the pointers near the focus are. */
  lemma NearFocus(m: Memory, nil: Node, root: Node, p: Path, t: Tree)
    requires Holds(m, nil, root, p, t)
    ensures nil !in m
    ensures t.Branch? ==> t.node in m && m[t.node] == Links(Pointer(nil, t.left), Pointer(nil, t.right), ParentOf(nil, p), t.color)
    ensures p.Top? <==> root == Pointer(nil, t)
    ensures !p.Top? ==> p.node in m && m[p.node].color == p.color && m[p.node].parent == ParentOf(nil, p.up)
    ensures p.InLeft? ==> m[p.node].left == Pointer(nil, t) && m[p.node].right == Pointer(nil, p.right)
    ensures p.InRight? ==> m[p.node].right == Pointer(nil, t) && m[p.node].left == Pointer(nil, p.left)
    ensures !p.Top? && Sibling(p).Branch? ==> Sibling(p).node in m && Sibling(p).node != Pointer(nil, t)
    ensures !p.Top? && Sibling(p).Branch? ==> (var w := Sibling(p);
      m[w.node] == Links(Pointer(nil, w.left), Pointer(nil, w.right), p.node, w.color))
  {
    if !p.Top? {
      RootOnPath(m, nil, root, p, Pointer(nil, t));
    }
  }

  lemma ChildColors(m: Memory, nil: Node, root: Node, p: Path, t: Tree)
    requires Holds(m, nil, root, p, t) && t.Branch?
    ensures t.node in m && m[t.node].left == Pointer(nil, t.left) && m[t.node].right == Pointer(nil, t.right)
    ensures t.left.Branch? ==> t.left.node in m && m[t.left.node].color == t.left.color
    ensures t.right.Branch? ==> t.right.node in m && m[t.right.node].color == t.right.color
  {
    assert Linked(m, nil, t.left, m[t.node].left, t.node) && Linked(m, nil, t.right, m[t.node].right, t.node);
  }

  lemma {:induction false} FocusOut(m: Memory, nil: Node, root: Node, inner: Path, outer: Path, t: Tree)
    ensures Holds(m, nil, root, Append(inner, outer), t) <==> Holds(m, nil, root, outer, Plug(inner, t))
  {
    if !inner.Top? {
      FocusUp(m, nil, root, Append(inner, outer), t);
      FocusOut(m, nil, root, inner.up, outer, Above(inner, t));
    }
  }

  // ----- the writes the algorithms make -----

  lemma Repaint(m: Memory, nil: Node, root: Node, p: Path, t: Tree, c: Color)
    requires Holds(m, nil, root, p, t) && t.Branch?
    ensures t.node in m
    ensures Holds(m[t.node := m[t.node].(color := c)], nil, root, p, t.(color := c))
  {
    var n := t.node;
    var m' := m[n := m[n].(color := c)];
    LinkedFrame(m, m', nil, t.left, m[n].left, n);
    LinkedFrame(m, m', nil, t.right, m[n].right, n);
    SurroundsFrame(m, m', nil, root, p, n);
  }

  /** A new red node in the place of an empty subtree. */
  lemma LeafFilled(m: Memory, m': Memory, nil: Node, root: Node, p: Path, z: Node)
    requires Holds(m, nil, root, p, Leaf) && z !in m && z != nil
    requires m'.Keys == m.Keys + {z} && m'[z] == Links(nil, nil, ParentOf(nil, p), Red)
    requires p.InLeft? && p.node in m ==> m'[p.node] == m[p.node].(left := z)
    requires p.InRight? && p.node in m ==> m'[p.node] == m[p.node].(right := z)
    requires forall n :: n in m && n != ParentOf(nil, p) ==> m'[n] == m[n]
    ensures Holds(m', nil, if p.Top? then z else root, p, Branch(Leaf, z, Red, Leaf))
  {
    assert PathNodes(p) <= m.Keys;
    match p
    case Top =>
    case InLeft(up, n, c, r) =>
      LinkedFrame(m, m', nil, r, m[n].right, n);
      SurroundsFrame(m, m', nil, root, up, n);
    case InRight(up, l, n, c) =>
      LinkedFrame(m, m', nil, l, m[n].left, n);
      SurroundsFrame(m, m', nil, root, up, n);
  }

  // ----- transplants -----

  /** The pointers that moving `v` into the place of `u` relies on. */
  ghost predicate TransplantReady(m: Memory, nil: Node, u: Node, v: Node) {
    && nil !in m && u in m && (v in m || v == nil)
    && (m[u].parent == nil || (m[u].parent in m && m[u].parent != u && m[u].parent != v))
  }

  ghost predicate Transplanted(m: Memory, m': Memory, nil: Node, u: Node, v: Node)
    requires TransplantReady(m, nil, u, v)
  {
    var up := m[u].parent;
    && m'.Keys == m.Keys
    && Refilled(m, m', up, u, v)
    && (v in m ==> m'[v] == m[v].(parent := up))
    && forall n :: n in m && n != v && n != up ==> m'[n] == m[n]
  }

  lemma CanSplice(m: Memory, nil: Node, root: Node, p: Path, b: Tree, x: Tree)
    requires Holds(m, nil, root, p, b) && b.Branch? && (x == b.left || x == b.right)
    ensures TransplantReady(m, nil, b.node, Pointer(nil, x)) && m[b.node].parent == ParentOf(nil, p)
  {
    ChildColors(m, nil, root, p, b);
  }

  /** A node with an empty side is replaced by its other side. */
  lemma Spliced(m: Memory, m': Memory, nil: Node, root: Node, p: Path, b: Tree, x: Tree)
    requires Holds(m, nil, root, p, b) && b.Branch?
    requires (b.left.Leaf? && x == b.right) || (b.right.Leaf? && x == b.left)
    requires TransplantReady(m, nil, b.node, Pointer(nil, x)) && Transplanted(m, m', nil, b.node, Pointer(nil, x))
    ensures Holds(m', nil, if p.Top? then Pointer(nil, x) else root, p, x)
  {
    RefillSurrounds(m, m', nil, root, p, b.node, Pointer(nil, x));
    Reparent(m, m', nil, x, Pointer(nil, x), b.node, ParentOf(nil, p));
  }

  /** `y`, whose right side is in place, has taken over everything else from `z`. */
  ghost predicate Replaced(m: Memory, m': Memory, nil: Node, z: Node, y: Node)
    requires z in m && y in m
  {
    var (l, up) := (m[z].left, m[z].parent);
    && m'.Keys == m.Keys
    && m'[y] == Links(l, m[y].right, up, m[z].color)
    && (l in m ==> m'[l] == m[l].(parent := y))
    && Refilled(m, m', up, z, y)
    && forall n :: n in m && n != y && n != l && n != up ==> m'[n] == m[n]
  }

  ghost predicate Apart(p: Path, l: Tree, r: Tree, y: Node) {
    && PathDistinct(p) && Distinct(l) && Distinct(r) && Nodes(l) !! Nodes(r)
    && PathNodes(p) !! Nodes(l) && PathNodes(p) !! Nodes(r)
    && y !in PathNodes(p) && y !in Nodes(l) && y !in Nodes(r)
  }

  /** `z` still sits at the hole of `p` above its left subtree `l`; `r` hangs below `y`, which is about to replace `z`. */
  ghost predicate Loose(m: Memory, nil: Node, root: Node, p: Path, l: Tree, z: Node, c: Color, r: Tree, y: Node) {
    && nil !in m && z in m && y in m && z != y && l.Branch? && Apart(p, l, r, y)
    && z !in PathNodes(p) && z !in Nodes(l) && z !in Nodes(r)
    && m[z].parent == ParentOf(nil, p) && m[z].color == c
    && Linked(m, nil, l, m[z].left, z) && Linked(m, nil, r, m[y].right, y) && Surrounds(m, nil, root, p, z)
  }

  lemma CanReplace(m: Memory, nil: Node, root: Node, p: Path, l: Tree, z: Node, c: Color, r: Tree, y: Node)
    requires Loose(m, nil, root, p, l, z, c, r, y)
    ensures TransplantReady(m, nil, z, y) && y in m && y != z && (m[z].parent == nil <==> p.Top?)
    ensures m[z].left in m && m[z].left != y && m[z].left != z && m[z].left != m[z].parent
  {
  }

  lemma Replacement(m: Memory, m': Memory, nil: Node, root: Node, p: Path, l: Tree, z: Node, c: Color, r: Tree, y: Node)
    requires Loose(m, nil, root, p, l, z, c, r, y) && Replaced(m, m', nil, z, y)
    ensures Holds(m', nil, if p.Top? then y else root, p, Branch(l, y, c, r))
  {
    ReplacementFrame(m, m', nil, p, l, z, y, r);
    hide Nodes, PathNodes, Distinct, PathDistinct;
    RefillSurrounds(m, m', nil, root, p, z, y);
    Reparent(m, m', nil, l, m[z].left, z, y);
    LinkedFrame(m, m', nil, r, m[y].right, y);
    Assembled(m', nil, if p.Top? then y else root, p, l, y, c, r);
  }

  lemma ReplacementFrame(m: Memory, m': Memory, nil: Node, p: Path, l: Tree, z: Node, y: Node, r: Tree)
    requires z in m && y in m && l.Branch? && m[z].left == l.node && m[z].parent == ParentOf(nil, p) && nil !in m
    requires Replaced(m, m', nil, z, y) && Apart(p, l, r, y)
    requires z !in PathNodes(p) && z !in Nodes(l) && z !in Nodes(r)
    ensures SameOn(m, m', Nodes(l) - {l.node}) && SameOn(m, m', Nodes(r))
    ensures SameOn(m, m', PathNodes(p) - {ParentOf(nil, p)})
  {
    assert l.node in Nodes(l);
  }

  lemma Assembled(m: Memory, nil: Node, root: Node, p: Path, l: Tree, y: Node, c: Color, r: Tree)
    requires nil !in m && y in m && Apart(p, l, r, y) && m[y].parent == ParentOf(nil, p) && m[y].color == c
    requires Linked(m, nil, l, m[y].left, y) && Linked(m, nil, r, m[y].right, y) && Surrounds(m, nil, root, p, y)
    ensures Holds(m, nil, root, p, Branch(l, y, c, r))
  {
  }

  /** The successor is the right child itself. */
  lemma LooseChild(m: Memory, nil: Node, root: Node, p: Path, l: Tree, z: Node, c: Color, b: Tree)
    requires Holds(m, nil, root, p, Branch(l, z, c, b)) && l.Branch? && b.Branch? && b.left.Leaf?
    ensures Loose(m, nil, root, p, l, z, c, b.right, b.node)
  {
    assert Linked(m, nil, b, m[z].right, z) && Distinct(b);
  }

  /** The right subtree `r` of `z` has been hung below `y`, a node outside the tree. */
  lemma LooseBelow(m: Memory, m': Memory, nil: Node, root: Node, p: Path, l: Tree, z: Node, c: Color, r: Tree, y: Node)
    requires Holds(m, nil, root, p, Branch(l, z, c, r)) && l.Branch? && r.Branch? && y in m
    requires y !in PathNodes(p) && y != z && y !in Nodes(l) && y !in Nodes(r)
    requires m'.Keys == m.Keys && r.node in m
    requires m'[y] == m[y].(right := r.node) && m'[r.node] == m[r.node].(parent := y)
    requires forall n :: n in m && n != y && n != r.node ==> m'[n] == m[n]
    ensures Loose(m', nil, root, p, l, z, c, r, y)
  {
    LinkedFrame(m, m', nil, l, m[z].left, z);
    Reparent(m, m', nil, r, m[z].right, z, y);
    SurroundsFrame(m, m', nil, root, p, z);
  }

  /** After the successor `y` has been spliced out of the right subtree, it is outside the tree. */
  lemma SplicedOut(m: Memory, nil: Node, root: Node, inner: Path, p: Path, l: Tree, z: Node, c: Color, b: Tree)
    requires b.Branch? && Holds(m, nil, root, Append(inner, InRight(p, l, z, c)), b) && Before(inner) == []
    ensures var r := Plug(inner, b.right);
      b.node !in PathNodes(p) && b.node != z && b.node !in Nodes(l) && b.node !in Nodes(r)
    ensures ParentOf(nil, Append(inner, InRight(p, l, z, c))) == z <==> inner.Top?
    ensures !inner.Top? ==> Plug(inner, b.right).Branch?
  {
    AppendFacts(inner, InRight(p, l, z, c), b);
    PlugNodes(inner, b.right);
    FocusOut(m, nil, root, inner, InRight(p, l, z, c), b);
    PlugNodes(inner, b);
    if !inner.Top? {
      PlugBranch(inner.up, Above(inner, b.right));
      assert Append(inner, InRight(p, l, z, c)).node == inner.node;
      assert inner.node in PathNodes(inner);
    }
  }

  lemma Restrict(m: Memory, m': Memory, nil: Node, root: Node, t: Tree)
    requires Holds(m, nil, root, Top, t) && SameOn(m, m', Nodes(t)) && nil !in m'
    ensures Holds(m', nil, root, Top, t)
  {
    LinkedFrame(m, m', nil, t, Pointer(nil, t), nil);
  }

  // ----- rotations -----

  /** The pointers a left rotation of `x` relies on. */
  ghost predicate LeftReady(m: Memory, nil: Node, x: Node) {
    && nil !in m && x in m && m[x].right in m && m[x].right != x
    && (var b := m[m[x].right].left; b == nil || (b in m && b != x && b != m[x].right))
    && (var up := m[x].parent; up == nil || (up in m && up != x && up != m[x].right && up != m[m[x].right].left))
  }

  /** The links a left rotation of `x` leaves. */
  ghost predicate LeftRotated(m: Memory, m': Memory, nil: Node, x: Node)
    requires LeftReady(m, nil, x)
  {
    var y, b, up := m[x].right, m[m[x].right].left, m[x].parent;
    && m'.Keys == m.Keys
    && m'[x] == m[x].(right := b, parent := y)
    && m'[y] == m[y].(left := x, parent := up)
    && (b in m ==> m'[b] == m[b].(parent := x))
    && Refilled(m, m', up, x, y)
    && forall n :: n in m && n !in {x, y, b, up} ==> m'[n] == m[n]
  }

  ghost predicate RightReady(m: Memory, nil: Node, x: Node) {
    && nil !in m && x in m && m[x].left in m && m[x].left != x
    && (var b := m[m[x].left].right; b == nil || (b in m && b != x && b != m[x].left))
    && (var up := m[x].parent; up == nil || (up in m && up != x && up != m[x].left && up != m[m[x].left].right))
  }

  ghost predicate RightRotated(m: Memory, m': Memory, nil: Node, x: Node)
    requires RightReady(m, nil, x)
  {
    var y, b, up := m[x].left, m[m[x].left].right, m[x].parent;
    && m'.Keys == m.Keys
    && m'[x] == m[x].(left := b, parent := y)
    && m'[y] == m[y].(right := x, parent := up)
    && (b in m ==> m'[b] == m[b].(parent := x))
    && Refilled(m, m', up, x, y)
    && forall n :: n in m && n !in {x, y, b, up} ==> m'[n] == m[n]
  }

  lemma CanRotateLeft(m: Memory, nil: Node, root: Node, p: Path, t: Tree)
    requires t.Branch? && t.right.Branch? && Holds(m, nil, root, p, t)
    ensures LeftReady(m, nil, t.node) && m[t.node].right == t.right.node
    ensures m[t.node].parent == ParentOf(nil, p)
  {
    assert Linked(m, nil, t.right, m[t.node].right, t.node) && Distinct(t.right);
  }

  lemma CanRotateRight(m: Memory, nil: Node, root: Node, p: Path, t: Tree)
    requires t.Branch? && t.left.Branch? && Holds(m, nil, root, p, t)
    ensures RightReady(m, nil, t.node) && m[t.node].left == t.left.node
    ensures m[t.node].parent == ParentOf(nil, p)
  {
    assert Linked(m, nil, t.left, m[t.node].left, t.node) && Distinct(t.left);
  }

  lemma RotatedLeft(m: Memory, m': Memory, nil: Node, root: Node, p: Path, t: Tree)
    requires t.Branch? && t.right.Branch? && Holds(m, nil, root, p, t)
    requires LeftReady(m, nil, t.node) && LeftRotated(m, m', nil, t.node)
    ensures Holds(m', nil, if p.Top? then t.right.node else root, p, RotateLeft(t))
  {
    var (x, y, a, b, c) := (t.node, t.right.node, t.left, t.right.left, t.right.right);
    assert Linked(m, nil, t.right, m[x].right, x) && Distinct(t.right);
    RefillSurrounds(m, m', nil, root, p, x, y);
    LinkedFrame(m, m', nil, a, m[x].left, x);
    Reparent(m, m', nil, b, m[y].left, y, x);
    LinkedFrame(m, m', nil, c, m[y].right, y);
    RotateLeftKeepsNodes(t);
    assert Linked(m', nil, Branch(a, x, t.color, b), x, y);
  }

  lemma RotatedRight(m: Memory, m': Memory, nil: Node, root: Node, p: Path, t: Tree)
    requires t.Branch? && t.left.Branch? && Holds(m, nil, root, p, t)
    requires RightReady(m, nil, t.node) && RightRotated(m, m', nil, t.node)
    ensures Holds(m', nil, if p.Top? then t.left.node else root, p, RotateRight(t))
  {
    var (x, y, a, b, c) := (t.node, t.left.node, t.left.left, t.left.right, t.right);
    assert Linked(m, nil, t.left, m[x].left, x) && Distinct(t.left);
    RefillSurrounds(m, m', nil, root, p, x, y);
    LinkedFrame(m, m', nil, a, m[y].left, y);
    Reparent(m, m', nil, b, m[y].right, y, x);
    LinkedFrame(m, m', nil, c, m[x].right, x);
    RotateRightKeepsNodes(t);
    assert Linked(m', nil, Branch(b, x, t.color, c), x, y);
  }
}
