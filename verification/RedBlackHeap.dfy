/**
  The heap side of the red-black tree: when the nodes in memory hold a given tree,
  and what each in-place rewrite of pointers and colours does to that tree.
 */
module RedBlackHeap {
  import opened RedBlackShape

  function RootOf(t: Tree): Node? {
    if t.Nil? then null else t.n
  }

  predicate IsRedNode(node: Node?)
    reads node
  {
    node != null && node.red
  }

  /** The heap holds exactly the tree `t`. */
  ghost predicate Stored(t: Tree)
    reads Nodes(t)
  {
    t.Bin? ==>
      && t.n.red == t.red && t.n.val == t.e.val && t.n.str == t.e.str
      && t.n.left == RootOf(t.left) && t.n.right == RootOf(t.right)
      && Stored(t.left) && Stored(t.right)
  }

  /** The heap holds the path `p` with `child` at its end.  `head` is the scratch
      node whose right child is the root. */
  ghost predicate StoredPath(p: Path, head: Node, child: Node?)
    reads PathNodes(p), head
  {
    if p.Top? then
      head.left == null && head.right == child
    else
      && p.n.red == p.red && p.n.val == p.e.val && p.n.str == p.e.str
      && p.n.Child(p.dir) == child && p.n.Child(!p.dir) == RootOf(p.sib)
      && Stored(p.sib) && StoredPath(p.up, head, p.n)
  }

  ghost predicate AtPosition(p: Path, t: Tree, head: Node)
    reads PathNodes(p), Nodes(t), head
  {
    && AllDistinct(p, t) && head !in PathNodes(p) + Nodes(t)
    && Stored(t) && StoredPath(p, head, RootOf(t))
  }

  ghost function EndOr(p: Path, head: Node): Node {
    if p.Top? then head else p.n
  }

  lemma {:induction false} NodesAllocated(t: Tree)
    ensures forall n | n in Nodes(t) :: allocated(n)
  {
    if t.Bin? {
      NodesAllocated(t.left);
      NodesAllocated(t.right);
    }
  }

  lemma {:induction false} PathNodesAllocated(p: Path)
    ensures forall n | n in PathNodes(p) :: allocated(n)
  {
    if p.Step? {
      NodesAllocated(p.sib);
      PathNodesAllocated(p.up);
    }
  }

  lemma AtFill(p: Path, t: Tree, head: Node)
    requires p.Step?
    ensures AtPosition(p, t, head) <==> AtPosition(p.up, Fill(p, t), head)
  {
    DistinctFill(p, t);
  }

  lemma {:induction false} AtPlug(p: Path, t: Tree, head: Node)
    requires AtPosition(p, t, head)
    ensures AtPosition(Top, Plug(p, t), head)
    ensures PathNodes(p) + Nodes(t) == Nodes(Plug(p, t))
  {
    if p.Step? {
      AtFill(p, t, head);
      DistinctFill(p, t);
      AtPlug(p.up, Fill(p, t), head);
    }
  }

  lemma AtNode(p: Path, t: Tree, head: Node)
    requires AtPosition(p, t, head) && t.Bin?
    ensures t.n.val == t.e.val && t.n.left == RootOf(t.left) && t.n.right == RootOf(t.right)
  {
  }

  lemma AtDown(p: Path, t: Tree, dir: bool, head: Node)
    requires AtPosition(p, t, head) && t.Bin?
    ensures AtPosition(Down(p, t, dir), t.Child(dir), head)
    ensures PathNodes(Down(p, t, dir)) + Nodes(t.Child(dir)) == PathNodes(p) + Nodes(t)
  {
    FillDown(p, t, dir);
    AtFill(Down(p, t, dir), t.Child(dir), head);
    DistinctFill(Down(p, t, dir), t.Child(dir));
  }

  method Paint(node: Node, red: bool, head: Node, ghost p: Path, ghost t: Tree)
    requires AtPosition(p, t, head) && node == RootOf(t)
    modifies node
    ensures AtPosition(p, t.(red := red), head)
  {
    assert node in Nodes(t) && node !in Nodes(t.left) + Nodes(t.right);
    node.red := red;
    assert Stored(t.left) && Stored(t.right);
    assert Nodes(t.(red := red)) == Nodes(t);
  }

  method PaintChild(ghost node: Node, child: Node, ghost dir: bool, red: bool, head: Node, ghost p: Path, ghost t: Tree)
    requires AtPosition(p, t, head) && node == RootOf(t) && child == RootOf(t.Child(dir))
    modifies child
    ensures AtPosition(p, t.SetChild(dir, t.Child(dir).(red := red)), head)
  {
    hide AtPosition;
    ghost var q, c := Down(p, t, dir), t.Child(dir);
    AtDown(p, t, dir, head);
    Paint(child, red, head, q, c);
    AtFill(q, c.(red := red), head);
  }

  method SingleRotate(oldroot: Node, dir: bool, ghost t: Tree) returns (newroot: Node)
    requires Stored(t) && Distinct(t) && RootOf(t) == oldroot && t.Child(!dir).Bin?
    modifies oldroot, t.Child(!dir).n
    ensures Stored(Rotate(t, dir)) && RootOf(Rotate(t, dir)) == newroot
  {
    hide Stored, Nodes, Distinct, Rotate;
    RotationParts(t, dir);
    newroot := oldroot.Child(!dir);
    ghost var a, b, c := t.Child(dir), t.Child(!dir).Child(dir), t.Child(!dir).Child(!dir);
    NodesAllocated(a);
    NodesAllocated(b);
    NodesAllocated(c);
    oldroot.SetChild(!dir, newroot.Child(dir));
    newroot.SetChild(dir, oldroot);
    oldroot.red := true;
    newroot.red := false;
    RotationStored(t, dir);
  }

  /** The two nodes of a rotation and the three subtrees below them. */
  lemma RotationParts(t: Tree, dir: bool)
    requires Stored(t) && Distinct(t) && t.Bin? && t.Child(!dir).Bin?
    ensures var m, a, b, c := t.Child(!dir).n, t.Child(dir), t.Child(!dir).Child(dir), t.Child(!dir).Child(!dir);
      && t.n != m && t.n !in Nodes(a) + Nodes(b) + Nodes(c) && m !in Nodes(a) + Nodes(b) + Nodes(c)
      && Stored(a) && Stored(b) && Stored(c)
      && t.n.Child(!dir) == m && t.n.Child(dir) == RootOf(a) && m.Child(dir) == RootOf(b) && m.Child(!dir) == RootOf(c)
      && t.n.val == t.e.val && t.n.str == t.e.str && m.val == t.Child(!dir).e.val && m.str == t.Child(!dir).e.str
  {
    assert Distinct(t.Child(!dir)) && Stored(t.Child(!dir));
  }

  lemma RotationStored(t: Tree, dir: bool)
    requires t.Bin? && t.Child(!dir).Bin?
    requires var m, a, b, c := t.Child(!dir).n, t.Child(dir), t.Child(!dir).Child(dir), t.Child(!dir).Child(!dir);
      && Stored(a) && Stored(b) && Stored(c) && t.n.red && !m.red
      && t.n.Child(!dir) == RootOf(b) && t.n.Child(dir) == RootOf(a)
      && m.Child(dir) == t.n && m.Child(!dir) == RootOf(c)
      && t.n.val == t.e.val && t.n.str == t.e.str && m.val == t.Child(!dir).e.val && m.str == t.Child(!dir).e.str
    ensures Stored(Rotate(t, dir)) && RootOf(Rotate(t, dir)) == t.Child(!dir).n
  {
    assert Stored(Rotate(t, dir).Child(dir));
  }

  method DoubleRotate(root: Node, dir: bool, ghost t: Tree) returns (newroot: Node)
    requires Stored(t) && Distinct(t) && RootOf(t) == root
    requires t.Child(!dir).Bin? && t.Child(!dir).Child(dir).Bin?
    modifies root, t.Child(!dir).n, t.Child(!dir).Child(dir).n
    ensures Stored(RotateTwice(t, dir)) && RootOf(RotateTwice(t, dir)) == newroot
  {
    ghost var below, other := t.Child(!dir), t.Child(dir);
    NodesAllocated(other);
    RotateNodes(below, !dir);
    assert Distinct(below) && below.Child(dir).n in Nodes(below) && root !in Nodes(below);
    assert Stored(other) && Nodes(below) !! Nodes(other);
    var child := SingleRotate(root.Child(!dir), !dir, below);
    ghost var turned := Rotate(below, !dir);
    NodesAllocated(turned);
    assert Stored(other) && Stored(turned);
    root.SetChild(!dir, child);
    assert Stored(other) && Stored(turned);
    ghost var mid := t.SetChild(!dir, turned);
    newroot := SingleRotate(root, dir, mid);
  }

  /** Hang the subtree `t` below the end of the path. */
  method Relink(holder: Node, dir: bool, child: Node?, head: Node, ghost p: Path, ghost t: Tree, ghost was: Node?)
    requires holder == (if p.Top? then head else p.n) && dir == (p.Top? || p.dir)
    requires Stored(t) && RootOf(t) == child && StoredPath(p, head, was)
    requires AllDistinct(p, t) && head !in PathNodes(p) + Nodes(t)
    modifies holder
    ensures AtPosition(p, t, head)
  {
    NodesAllocated(t);
    PathNodesAllocated(p);
    assert holder !in Nodes(t) && (p.Step? ==> holder !in Nodes(p.sib) + PathNodes(p.up));
    holder.SetChild(dir, child);
  }

  /** Comparing pointers tells on which side of its parent a node hangs. */
  lemma SideOf(head: Node, p: Path, t: Tree)
    requires AtPosition(p, t, head) && t.Bin?
    ensures p.Top? ==> head.right == t.n
    ensures p.Step? ==> (forall dir :: (p.n.Child(dir) == t.n) == (dir == p.dir))
  {
    assert t.n in Nodes(t);
    if p.Step? && p.sib.Bin? {
      assert p.sib.n in Nodes(p.sib) && Nodes(p.sib) <= PathNodes(p);
    }
  }

  /** Rotate the subtree `t` once and hang the result back below `holder`. */
  method RotateBelow(holder: Node, node: Node, dir: bool, head: Node, ghost p: Path, ghost t: Tree) returns (top: Node)
    requires AtPosition(p, t, head) && node == RootOf(t) && t.Child(!dir).Bin?
    requires holder == if p.Step? then p.n else head
    modifies holder, node, t.Child(!dir).n
    ensures AtPosition(p, Rotate(t, dir), head) && top == RootOf(Rotate(t, dir))
  {
    PathNodesAllocated(p);
    RotateNodes(t, dir);
    assert t.Child(!dir).n in Nodes(t);
    SideOf(head, p, t);
    var side := holder.right == node;
    top := SingleRotate(node, dir, t);
    Relink(holder, side, top, head, p, Rotate(t, dir), node);
  }

  method RotateTwiceBelow(holder: Node, node: Node, dir: bool, head: Node, ghost p: Path, ghost t: Tree)
    requires AtPosition(p, t, head) && node == RootOf(t)
    requires t.Child(!dir).Bin? && t.Child(!dir).Child(dir).Bin?
    requires holder == if p.Step? then p.n else head
    modifies holder, node, t.Child(!dir).n, t.Child(!dir).Child(dir).n
    ensures AtPosition(p, RotateTwice(t, dir), head)
  {
    PathNodesAllocated(p);
    RotateTwiceNodes(t, dir);
    assert t.Child(!dir).n in Nodes(t);
    assert t.Child(!dir).Child(dir).n in Nodes(t.Child(!dir));
    SideOf(head, p, t);
    var side := holder.right == node;
    var top := DoubleRotate(node, dir, t);
    Relink(holder, side, top, head, p, RotateTwice(t, dir), node);
  }

  method SetEntry(node: Node, val: int, str: string, head: Node, ghost p: Path, ghost t: Tree)
    requires AtPosition(p, t, head) && node == RootOf(t)
    modifies node
    ensures AtPosition(p, t.(e := Entry(val, str)), head)
  {
    assert node in Nodes(t) && node !in Nodes(t.left) + Nodes(t.right);
    node.val := val;
    node.str := str;
    assert Stored(t.left) && Stored(t.right);
    assert Nodes(t.(e := Entry(val, str))) == Nodes(t);
  }

  lemma AtEnd(p: Path, t: Tree, head: Node)
    requires AtPosition(p, t, head)
    ensures EndOr(p, head).Child(p.Top? || p.dir) == RootOf(t)
    ensures p.Step? ==> p.n.val == p.e.val && p.n.str == p.e.str
  {
  }

  lemma AtColors(p: Path, t: Tree, head: Node)
    requires AtPosition(p, t, head) && t.Bin?
    ensures IsRedNode(t.n) == IsRed(t)
    ensures forall dir :: t.n.Child(dir) == RootOf(t.Child(dir)) && IsRedNode(t.n.Child(dir)) == IsRed(t.Child(dir))
  {
    assert Stored(t.left) && Stored(t.right);
  }

  lemma AtSibling(p: Path, t: Tree, head: Node)
    requires AtPosition(p, t, head)
    ensures p.Top? ==> head.left == null
    ensures p.Step? ==> p.n.Child(!p.dir) == RootOf(p.sib)
    ensures p.Step? && p.sib.Bin? ==>
      forall dir ::
        && p.sib.n.Child(dir) == RootOf(p.sib.Child(dir))
        && IsRedNode(p.sib.n.Child(dir)) == IsRed(p.sib.Child(dir))
  {
    if p.Step? && p.sib.Bin? {
      assert Stored(p.sib.left) && Stored(p.sib.right);
    }
  }
}
