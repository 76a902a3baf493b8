/**
  The two loops that rewrite the red-black tree in place, in a single pass from the
  root down and without parent pointers, proved against the values of
  RedBlackInsert and RedBlackDelete.
 */
module RedBlackPasses {
  import opened RedBlackShape
  import opened RedBlackHeap
  import opened RedBlackInsert
  import Cut = RedBlackDelete

  // Insertion

  method FlipColors(node: Node, head: Node, ghost p: Path, ghost t: Tree)
    requires AtPosition(p, t, head) && BothRed(t) && node == t.n
    modifies Nodes(t)
    ensures AtPosition(p, Flip(t), head)
  {
    assert t.left.n in Nodes(t.left) && t.right.n in Nodes(t.right);
    hide AtPosition, Nodes;
    Paint(node, true, head, p, t);
    ghost var t1 := t.(red := true);
    AtNode(p, t1, head);
    PaintChild(node, node.left, false, false, head, p, t1);
    ghost var t2 := t1.(left := t.left.(red := false));
    AtNode(p, t2, head);
    PaintChild(node, node.right, true, false, head, p, t2);
  }

  /** Rotate at the grandparent, which hangs below `ggparent`. */
  method RepairRed(node: Node, parent: Node, gparent: Node, ggparent: Node, last: bool,
                   head: Node, ghost p: Path, ghost t: Tree)
    requires AtPosition(p, t, head) && t.Bin? && p.Step? && p.up.Step?
    requires node == t.n && parent == p.n && gparent == p.up.n && last == p.up.dir
    requires ggparent == if p.up.up.Step? then p.up.up.n else head
    modifies head, PathNodes(p), Nodes(t)
    ensures AtPosition(RepairedPath(p), RepairedTree(p, t), head)
  {
    ghost var f := Fill(p, t);
    ghost var g := Fill(p.up, f);
    AtFill(p, t, head);
    AtFill(p.up, f, head);
    assert g.Child(last) == f && f.Child(p.dir) == t;
    SideOf(head, p, t);
    if node == parent.Child(last) {
      var _ := RotateBelow(ggparent, gparent, !last, head, p.up.up, g);
      SingleRotation(p, t);
      AtFill(SinglePath(p), t, head);
    } else {
      RotateTwiceBelow(ggparent, gparent, !last, head, p.up.up, g);
    }
  }

  ghost function EndNode(p: Path): Node? {
    if p.Top? then null else p.n
  }

  /** What the variables of the pass say about the ancestors, phase by phase. */
  ghost predicate Tracking(phase: Phase, p: Path, head: Node, parent: Node?, gparent: Node?, ggparent: Node,
                           dir: bool, last: bool) {
    && parent == EndNode(p) && (p.Step? ==> dir == p.dir)
    && match phase
       case Tracked =>
         if p.Step? && p.up.Step? then
           && gparent == p.up.n && last == p.up.dir
           && ggparent == if p.up.up.Step? then p.up.up.n else head
         else
           gparent == null && ggparent == head
       case AfterSingle => p.Step? && gparent == EndNode(p.up)
       case AfterDouble => true
  }

  /** Make the node at the position exist, and flip colours if both children are red. */
  method Settle(at: Node?, parent: Node?, dir: bool, head: Node, val: int, str: string,
                ghost phase: Phase, ghost p: Path, ghost t: Tree)
    returns (node: Node, added: bool, ghost t': Tree)
    requires AtPosition(p, t, head) && at == RootOf(t) && PassShape(phase, p, t, val)
    requires parent == EndNode(p) && (p.Step? ==> dir == p.dir) && (p.Step? || t.Bin?)
    modifies PathNodes(p), Nodes(t)
    ensures AtPosition(p, t', head) && t'.Bin? && node == t'.n
    ensures Settled(phase, p, t', val)
    ensures added == t.Nil?
    ensures added ==> t'.e == Entry(val, str) && InOrder(t') == [t'.e] && fresh(node) && Nodes(t') == {node}
    ensures !added ==> InOrder(t') == InOrder(t) && Nodes(t') == Nodes(t) && Count(t') == Count(t)
    ensures !added ==> StepsLeft(phase, t', val) == StepsLeft(phase, t, val)
  {
    added := false;
    t' := t;
    assert t.Bin? ==> Stored(t.left) && Stored(t.right);
    if at == null {
      PathNodesAllocated(p);
      node := new Node(val, str, true);
      t' := Bin(node, true, Entry(val, str), Nil, Nil);
      assert Nodes(t') == {node} + Nodes(t'.left) + Nodes(t'.right);
      Relink(parent, dir, node, head, p, t', null);
      LeafSettles(phase, p, node, val, str);
      added := true;
    } else if IsRedNode(at.left) && IsRedNode(at.right) {
      node := at;
      FlipColors(node, head, p, t);
      t' := Flip(t);
      FlipNodes(t);
      FlipSettles(phase, p, t, val);
    } else {
      node := at;
      NoFlipSettles(phase, p, t, val);
    }
  }

  lemma TrackingParent(phase: Phase, p: Path, head: Node, parent: Node?, gparent: Node?, ggparent: Node, dir: bool,
                       last: bool)
    requires Tracking(phase, p, head, parent, gparent, ggparent, dir, last)
    ensures parent == EndNode(p) && (p.Step? ==> dir == p.dir)
  {
  }

  lemma ColorsAt(p: Path, t: Tree, head: Node)
    requires AtPosition(p, t, head) && t.Bin?
    ensures IsRedNode(t.n) == IsRed(t) && (p.Step? ==> IsRedNode(p.n) == p.red)
  {
  }

  /** Where there is a violation, the variables are up to date. */
  lemma ViolationTracked(phase: Phase, p: Path, t: Tree, val: int, head: Node,
                         parent: Node?, gparent: Node?, ggparent: Node, dir: bool, last: bool)
    requires Settled(phase, p, t, val) && Violation(p, t)
    requires Tracking(phase, p, head, parent, gparent, ggparent, dir, last)
    ensures p.up.Step? && gparent == p.up.n && last == p.up.dir
    ensures ggparent == if p.up.up.Step? then p.up.up.n else head
  {
    hide RedBlack, Fits;
  }

  /** Going on, the variables move up by one. */
  lemma SettledTracking(phase: Phase, p: Path, t: Tree, val: int, head: Node,
                        parent: Node?, gparent: Node?, ggparent: Node, dir: bool, last: bool)
    requires Settled(phase, p, t, val) && !Violation(p, t)
    requires Tracking(phase, p, head, parent, gparent, ggparent, dir, last)
    ensures var dir' := t.e.val < val;
      Tracking(PhaseAfter(phase), Down(p, t, dir'), head, t.n, parent,
               if gparent != null then gparent else ggparent, dir', dir)
  {
    hide RedBlack, Fits;
  }

  /** After a repair they do so too, but no longer say where the new ancestors are. */
  lemma RepairedTracking(phase: Phase, p: Path, t: Tree, val: int, head: Node,
                         parent: Node?, gparent: Node?, ggparent: Node, dir: bool, last: bool)
    requires Settled(phase, p, t, val) && Violation(p, t)
    requires Tracking(phase, p, head, parent, gparent, ggparent, dir, last)
    ensures p.up.Step?
    ensures var p', t' := RepairedPath(p), RepairedTree(p, t);
      var dir' := t.e.val < val;
      && t'.Bin?
      && Tracking(PhaseAfterRepair(p), Down(p', t', dir'), head, t.n, parent,
                  if gparent != null then gparent else ggparent, dir', dir)
  {
    hide RedBlack, Fits;
    if p.dir != p.up.dir {
      DoubleRotation(p, t);
    }
  }

  /** Everything the loop does at one node before it compares keys. */
  method Visit(at: Node?, parent: Node?, gparent: Node?, ggparent: Node, dir: bool, last: bool, head: Node,
               val: int, str: string, ghost phase: Phase, ghost p: Path, ghost t: Tree, ghost s: seq<Entry>)
    returns (node: Node, added: bool, ghost phase': Phase, ghost p': Path, ghost t': Tree)
    requires AtPosition(p, t, head) && at == RootOf(t) && PassShape(phase, p, t, val)
    requires Tracking(phase, p, head, parent, gparent, ggparent, dir, last) && (p.Step? || t.Bin?)
    requires Located(p, t, val, s)
    modifies head, PathNodes(p), Nodes(t)
    ensures AtPosition(p', t', head) && t'.Bin? && node == t'.n
    ensures MayDescend(phase', p', t', val, StepsLeft(phase, t, val))
    ensures added == t.Nil?
    ensures added ==>
      && t'.e == Entry(val, str) && Whole(p', t') == Before(p) + [t'.e] + After(p)
      && fresh(node) && PathNodes(p') + Nodes(t') == PathNodes(p) + {node}
    ensures !added ==>
      && Located(p', t', val, s) && PathNodes(p') + Nodes(t') == PathNodes(p) + Nodes(t)
    ensures t'.e.val != val ==>
      var dir' := t'.e.val < val;
      Tracking(phase', Down(p', t', dir'), head, node, parent, if gparent != null then gparent else ggparent, dir', dir)
  {
    hide AtPosition, PassShape, MayDescend, Tracking, Settled, StepsLeft, Nodes, PathNodes;
    hide RepairedPath, RepairedTree, Before, After, Sorted, AllBelow, AllAbove, InOrder;
    TrackingParent(phase, p, head, parent, gparent, ggparent, dir, last);
    ghost var t1;
    node, added, t1 := Settle(at, parent, dir, head, val, str, phase, p, t);
    ColorsAt(p, t1, head);
    if IsRedNode(node) && IsRedNode(parent) {
      ViolationTracked(phase, p, t1, val, head, parent, gparent, ggparent, dir, last);
      RepairRed(node, parent, gparent, ggparent, last, head, p, t1);
      RepairedDescends(phase, p, t1, val, Whole(p, t1));
      RepairedNodes(p, t1);
      RepairedTracking(phase, p, t1, val, head, parent, gparent, ggparent, dir, last);
      phase', p', t' := PhaseAfterRepair(p), RepairedPath(p), RepairedTree(p, t1);
    } else {
      SettledDescends(phase, p, t1, val);
      SettledTracking(phase, p, t1, val, head, parent, gparent, ggparent, dir, last);
      phase', p', t' := PhaseAfter(phase), p, t1;
    }
    if added {
      ArrivedAnyway(phase', p', t', val, StepsLeft(phase, t1, val), StepsLeft(phase, t, val));
    }
  }

  lemma ArrivedAnyway(phase: Phase, p: Path, t: Tree, val: int, steps: nat, steps': nat)
    requires MayDescend(phase, p, t, val, steps) && t.e.val == val
    ensures MayDescend(phase, p, t, val, steps')
  {
  }

  /** The downward loop of insertion, from the root `t` hung below `head`. */
  method InsertPass(head: Node, val: int, str: string, ghost t: Tree) returns (ret: bool, ghost whole: Tree)
    requires t.Bin? && AtPosition(Top, t, head)
    requires RedBlack(t) && !t.red && Sorted(InOrder(t))
    modifies head, Nodes(t)
    ensures AtPosition(Top, whole, head) && whole.Bin? && RedBlack(whole) && Sorted(InOrder(whole))
    ensures forall n | n in Nodes(whole) :: n in Nodes(t) || fresh(n)
    ensures ret == !Occurs(InOrder(t), val)
    ensures ret ==> Inserted(InOrder(t), Entry(val, str), InOrder(whole))
    ensures !ret ==> InOrder(whole) == InOrder(t)
  {
    var dir, last := true, true;
    var parent: Node?, gparent: Node?, ggparent: Node := null, null, head;
    var at := head.right;
    assert at == t.n && PassShape(Tracked, Top, t, val) && PathNodes(Top) == {};
    hide AtPosition, PassShape, PathNodes, Nodes, Fits, RedBlack, IsRed, StepsLeft, Before, After;
    hide Inserted, Sorted, Occurs;
    ret := false;
    ghost var s := InOrder(t);
    ghost var p, f, phase := Top, t, Tracked;
    assert Whole(p, f) == s;
    while true
      invariant AtPosition(p, f, head) && PathNodes(p) + Nodes(f) == Nodes(t)
      invariant at == RootOf(f) && !ret && (p.Step? || f.Bin?)
      invariant Tracking(phase, p, head, parent, gparent, ggparent, dir, last)
      invariant PassShape(phase, p, f, val) && Located(p, f, val, s)
      decreases StepsLeft(phase, f, val)
    {
      if f.Nil? {
        LocatedGap(p, Entry(val, str), s);
      }
      var node;
      node, ret, phase, p, f := Visit(at, parent, gparent, ggparent, dir, last, head, val, str, phase, p, f, s);
      AtNode(p, f, head);
      var cmp := node.val - val;
      if cmp == 0 {
        break;
      }
      LocatedDown(p, f, val, s);
      last := dir;
      dir := cmp < 0;
      if gparent != null {
        ggparent := gparent;
      }
      gparent := parent;
      parent := node;
      at := node.Child(dir);
      AtDown(p, f, dir, head);
      p, f := Down(p, f, dir), f.Child(dir);
    }
    if !ret {
      OccursAt(p, f);
    }
    whole := Plug(p, f);
    AtPlug(p, f, head);
    PlugRedBlack(p, f);
    PlugInOrder(p, f);
  }

  // Deletion

  /** Recolour around the node that a borrowing rotation brought up. */
  method RecolorBelow(top: Node, node: Node, dir: bool, head: Node, ghost p: Path, ghost r: Tree, ghost t: Tree)
    requires AtPosition(p, r, head) && RootOf(r) == top && r.left.Bin? && r.right.Bin?
    requires t.Bin? && r.Child(dir).Child(dir) == t && t.n == node
    modifies Nodes(r)
    ensures AtPosition(p, Cut.Recolored(r, dir, t.(red := true)), head)
  {
    ghost var c, d := r.Child(dir), r.Child(!dir);
    assert c.n in Nodes(c) && d.n in Nodes(d) && t.n in Nodes(t) && Nodes(t) <= Nodes(c);
    hide AtPosition, Nodes;
    Paint(top, true, head, p, r);
    ghost var r1 := r.(red := true);
    AtDown(p, r1, dir, head);
    PaintChild(c.n, node, dir, true, head, Down(p, r1, dir), c);
    ghost var c1 := c.SetChild(dir, t.(red := true));
    AtFill(Down(p, r1, dir), c1, head);
    ghost var r2 := r1.SetChild(dir, c1);
    AtNode(p, r2, head);
    PaintChild(top, top.Child(dir), dir, false, head, p, r2);
    ghost var r3 := r1.SetChild(dir, c1.(red := false));
    AtNode(p, r3, head);
    PaintChild(top, top.Child(!dir), !dir, false, head, p, r3);
  }

  /** The rotation at the parent that brings up a red node from the sibling's side. */
  method BorrowRotate(parent: Node, gparent: Node, last: bool, head: Node, ghost p: Path, ghost t: Tree)
    requires AtPosition(p, t, head) && t.Bin?
    requires p.Step? && p.sib.Bin? && !Cut.BlackNephews(p)
    requires parent == p.n && gparent == EndOr(p.up, head) && last == p.dir
    modifies head, PathNodes(p), Nodes(t)
    ensures AtPosition(p.up, Cut.Borrowed(p, t), head)
  {
    AtSibling(p, t, head);
    AtFill(p, t, head);
    ghost var s := p.sib;
    assert s.n in Nodes(s) && Nodes(s) <= PathNodes(p);
    assert s.Child(last).Bin? ==> s.Child(last).n in Nodes(s);
    hide AtPosition, Nodes, PathNodes;
    var sibling := parent.Child(!last);
    if IsRedNode(sibling.Child(last)) {
      RotateTwiceBelow(gparent, parent, last, head, p.up, Fill(p, t));
    } else {
      var _ := RotateBelow(gparent, parent, last, head, p.up, Fill(p, t));
    }
  }

  lemma BorrowedNodes(p: Path, t: Tree)
    requires t.Bin? && p.Step? && p.sib.Bin? && !Cut.BlackNephews(p)
    ensures Nodes(Cut.Borrowed(p, t)) == Nodes(Fill(p, t))
  {
    if IsRed(p.sib.Child(p.dir)) {
      RotateTwiceNodes(Fill(p, t), p.dir);
    } else {
      RotateNodes(Fill(p, t), p.dir);
    }
  }

  /** Give the black node at the position a red one from its sibling's side. */
  method Borrow(node: Node, parent: Node, gparent: Node, last: bool, head: Node, ghost p: Path, ghost t: Tree)
    requires AtPosition(p, t, head) && RootOf(t) == node
    requires p.Step? && p.sib.Bin? && !Cut.BlackNephews(p)
    requires parent == p.n && gparent == EndOr(p.up, head) && last == p.dir
    modifies head, PathNodes(p), Nodes(t)
    ensures AtPosition(Cut.BorrowedPath(p, t), t.(red := true), head)
  {
    AtFill(p, t, head);
    SideOf(head, p.up, Fill(p, t));
    var dir2 := gparent.right == parent;
    BorrowRotate(parent, gparent, last, head, p, t);
    ghost var r := Cut.Borrowed(p, t);
    assert Nodes(r) <= PathNodes(p) + Nodes(t) by {
      BorrowedNodes(p, t);
      DistinctFill(p, t);
    }
    hide AtPosition, Nodes, PathNodes;
    Cut.BorrowedShape(p, t);
    SideOf(head, p.up, r);
    RecolorBelow(gparent.Child(dir2), node, last, head, p.up, r, t);
    ghost var r' := Cut.Recolored(r, last, t.(red := true));
    AtDown(p.up, r', last, head);
    AtDown(Down(p.up, r', last), r'.Child(last), last, head);
  }

  /** The parent passes its red on to the node at the position and its sibling. */
  method FlipDown(node: Node, parent: Node, sibling: Node, head: Node, ghost p: Path, ghost t: Tree)
    requires AtPosition(p, t, head) && RootOf(t) == node && p.Step? && parent == p.n && RootOf(p.sib) == sibling
    modifies PathNodes(p), Nodes(t)
    ensures AtPosition(Cut.FlippedPath(p), t.(red := true), head)
  {
    assert sibling in Nodes(p.sib) && parent in PathNodes(p) && node in Nodes(t);
    hide AtPosition, Nodes, PathNodes;
    AtFill(p, t, head);
    ghost var u, f := p.up, Fill(p, t);
    Paint(parent, false, head, u, f);
    ghost var f1 := f.(red := false);
    PaintChild(parent, sibling, !p.dir, true, head, u, f1);
    ghost var f2 := f1.SetChild(!p.dir, p.sib.(red := true));
    PaintChild(parent, node, p.dir, true, head, u, f2);
    AtDown(u, f2.SetChild(p.dir, t.(red := true)), p.dir, head);
  }

  /** Push red down to the node at the position, or past it. */
  method PushDown(node: Node, above: Node, gparent: Node?, last: bool, dir: bool, head: Node, ghost p: Path,
                  ghost t: Tree)
    returns (parent: Node)
    requires AtPosition(p, t, head) && RootOf(t) == node
    requires above == EndOr(p, head) && last == (p.Top? || p.dir) && (p.Step? ==> gparent == EndOr(p.up, head))
    modifies head, PathNodes(p), Nodes(t)
    ensures AtPosition(Cut.PushedPath(p, t, dir), Cut.PushedTree(p, t, dir), head)
    ensures parent == EndOr(Cut.PushedPath(p, t, dir), head)
  {
    parent := above;
    AtColors(p, t, head);
    AtSibling(p, t, head);
    assert t.Child(!dir).Bin? ==> t.Child(!dir).n in Nodes(t.Child(!dir));
    assert t.n in Nodes(t) && (p.Step? ==> p.n in PathNodes(p));
    hide AtPosition;
    if !IsRedNode(node) && !IsRedNode(node.Child(dir)) {
      if IsRedNode(node.Child(!dir)) {
        parent := RotateBelow(parent, node, dir, head, p, t);
        AtDown(p, Rotate(t, dir), dir, head);
      } else {
        var sibling := parent.Child(!last);
        if sibling != null {
          if !IsRedNode(sibling.Child(!last)) && !IsRedNode(sibling.Child(last)) {
            FlipDown(node, parent, sibling, head, p, t);
          } else {
            Borrow(node, parent, gparent, last, head, p, t);
          }
        }
      }
    }
  }

  lemma PushedNodes(p: Path, t: Tree, dir: bool)
    requires t.Bin?
    ensures PathNodes(Cut.PushedPath(p, t, dir)) + Nodes(Cut.PushedTree(p, t, dir)) == PathNodes(p) + Nodes(t)
  {
    if Cut.RedBehind(t, dir) {
      var r := Rotate(t, dir);
      RotateNodes(t, dir);
      DownNodes(p, r, dir);
    } else if Cut.CanBorrow(t, dir, p) {
      var t' := t.(red := true);
      if Cut.BlackNephews(p) {
        assert Nodes(p.sib.(red := true)) == Nodes(p.sib);
      } else {
        Cut.BorrowedShape(p, t);
        var r := Cut.Borrowed(p, t);
        var r' := Cut.Recolored(r, p.dir, t');
        RecoloredNodes(r, p.dir, t);
        BorrowedNodes(p, t);
        DistinctFill(p, t);
        DownNodes(p.up, r', p.dir);
        DownNodes(Down(p.up, r', p.dir), r'.Child(p.dir), p.dir);
      }
    }
  }

  lemma DownNodes(p: Path, t: Tree, dir: bool)
    requires t.Bin?
    ensures PathNodes(Down(p, t, dir)) + Nodes(t.Child(dir)) == PathNodes(p) + Nodes(t)
  {
  }

  lemma RecoloredNodes(r: Tree, dir: bool, t: Tree)
    requires r.Bin? && r.left.Bin? && r.right.Bin? && t.Bin? && r.Child(dir).Child(dir) == t
    ensures Nodes(Cut.Recolored(r, dir, t.(red := true))) == Nodes(r)
  {
    var t' := t.(red := true);
    var c, d := r.Child(dir), r.Child(!dir);
    assert Nodes(t') == Nodes(t);
    assert Nodes(c.(red := false).SetChild(dir, t')) == Nodes(c);
    assert Nodes(d.(red := false)) == Nodes(d);
  }

  lemma {:induction false} AtTurn(p: Path, t: Tree, head: Node)
    requires Cut.Turn(p).Step?
    ensures AtPosition(p, t, head) <==> AtPosition(Cut.Turn(p).up, Cut.TurnTree(p, t), head)
  {
    AtFill(p, t, head);
    if p.dir {
      AtTurn(p.up, Fill(p, t), head);
    }
  }

  /** Move the last node's entry to the node found, and cut the last node off. */
  method CutOff(found: Node, node: Node, parent: Node, head: Node, ghost p: Path)
    requires AtPosition(p, Nil, head) && p.Step? && p.sib.Nil?
    requires Cut.Turn(p).Step? && found == Cut.Turn(p).n && node == p.n && parent == EndOr(p.up, head)
    modifies head, PathNodes(p)
    ensures AtPosition(Cut.CutPath(p), Nil, head)
  {
    AtEnd(p, Nil, head);
    AtTurn(p, Nil, head);
    ghost var p', leaf := Cut.Renamed(p, p.e), Fill(Cut.Renamed(p, p.e), Nil);
    assert p'.up == Cut.CutPath(p) && p'.n == node && leaf.left == Nil && leaf.right == Nil;
    assert found in Nodes(Cut.TurnTree(p, Nil)) && found in PathNodes(p) by {
      Cut.RenamedTurn(p, Nil, p.e);
      TurnInPath(p);
    }
    Cut.RenamedTurn(p, Nil, p.e);
    SetEntry(found, node.val, node.str, head, Cut.Turn(p).up, Cut.TurnTree(p, Nil));
    AtTurn(p', Nil, head);
    AtFill(p', Nil, head);
    SideOf(head, p'.up, leaf);
    AtNode(p'.up, leaf, head);
    assert AllDistinct(p'.up, Nil) && head !in PathNodes(p'.up);
    Relink(parent, parent.right == node, node.Child(node.left == null), head, p'.up, Nil, node);
  }

  lemma {:induction false} TurnInPath(p: Path)
    requires Cut.Turn(p).Step?
    ensures Cut.Turn(p).n in PathNodes(p)
  {
    if p.dir {
      TurnInPath(p.up);
    }
  }

  lemma {:induction false} RenamedNodes(p: Path, e: Entry)
    ensures PathNodes(Cut.Renamed(p, e)) == PathNodes(p)
  {
    if p.Step? && p.dir {
      RenamedNodes(p.up, e);
    }
  }

  lemma RemovedOccurs(s: seq<Entry>, val: int, s': seq<Entry>)
    requires Cut.Removed(s, val, s')
    ensures Occurs(s, val)
  {
  }

  /** The downward loop of deletion, from the root `t` hung below `head`. */
  method DeletePass(head: Node, val: int, ghost t: Tree) returns (ret: bool, ghost whole: Tree)
    requires t.Bin? && AtPosition(Top, t, head) && RedBlack(t) && Sorted(InOrder(t))
    modifies head, Nodes(t)
    ensures AtPosition(Top, whole, head) && RedBlack(whole) && Nodes(whole) <= Nodes(t)
    ensures ret == Occurs(InOrder(t), val)
    ensures ret ==> Cut.Removed(InOrder(t), val, InOrder(whole))
    ensures !ret ==> InOrder(whole) == InOrder(t)
  {
    hide AtPosition, Cut.Seeking, Cut.PassShape, PathNodes, Nodes, Cut.PushedPath, Cut.PushedTree;
    hide RedBlack, Sorted, Occurs, Cut.Removed, InOrder;
    var node := head;
    var parent: Node?, gparent: Node?, found: Node? := null, null, null;
    var dir := true;
    ghost var s := InOrder(t);
    ghost var p, f := Top, t;
    SeekStart(t, val);
    AtEnd(p, f, head);
    while node.Child(dir) != null
      invariant AtPosition(p, f, head) && PathNodes(p) + Nodes(f) == Nodes(t)
      invariant node == EndOr(p, head) && dir == (p.Top? || p.dir) && node.Child(dir) == RootOf(f)
      invariant parent == if p.Step? then EndOr(p.up, head) else null
      invariant p.Step? || f.Bin?
      invariant Cut.PassShape(p, f) && Cut.Seeking(p, f, val, s, found)
      decreases Count(f)
    {
      var last := dir;
      gparent := parent;
      parent := node;
      node := node.Child(dir);
      AtNode(p, f, head);
      var cmp := node.val - val;
      dir := cmp < 0;
      Cut.PushShape(p, f, dir);
      Cut.PushKeys(p, f, val, s, found);
      PushedNodes(p, f, dir);
      if cmp == 0 {
        found := node;
      }
      parent := PushDown(node, parent, gparent, last, dir, head, p, f);
      ghost var p', f' := Cut.PushedPath(p, f, dir), Cut.PushedTree(p, f, dir);
      AtDown(p', f', dir, head);
      p, f := Down(p', f', dir), f'.Child(dir);
      AtEnd(p, f, head);
    }
    ret := found != null;
    whole := FinishDelete(found, node, parent, head, val, p, s);
  }

  lemma SeekStart(t: Tree, val: int)
    requires t.Bin? && RedBlack(t) && Sorted(InOrder(t))
    ensures Cut.PassShape(Top, t) && Cut.Seeking(Top, t, val, InOrder(t), null) && PathNodes(Top) + Nodes(t) == Nodes(t)
  {
  }

  lemma CutFits(p: Path)
    requires p.Step? && Cut.PassShape(p, Nil) && Cut.Turn(p).Step?
    ensures p.sib.Nil? && Fits(Cut.CutPath(p), 0, false) && PathNodes(Cut.CutPath(p)) <= PathNodes(p)
  {
    Cut.EndIsLeaf(p);
    Cut.RenamedFits(p.up, p.e, 0, false);
    RenamedNodes(p.up, p.e);
  }

  /** The loop has come to the end of the tree; what was found on the way is removed. */
  method FinishDelete(found: Node?, node: Node, parent: Node?, head: Node, val: int, ghost p: Path, ghost s: seq<Entry>)
    returns (ghost whole: Tree)
    requires p.Step? && AtPosition(p, Nil, head) && Cut.PassShape(p, Nil) && Cut.Seeking(p, Nil, val, s, found)
    requires node == p.n && parent == EndOr(p.up, head)
    modifies head, PathNodes(p)
    ensures AtPosition(Top, whole, head) && RedBlack(whole) && Nodes(whole) <= PathNodes(p)
    ensures found != null <==> Occurs(s, val)
    ensures found != null ==> Cut.Removed(s, val, InOrder(whole))
    ensures found == null ==> InOrder(whole) == s
  {
    hide AtPosition, PathNodes, Nodes, Sorted, Occurs, Cut.Removed, Cut.CutPath, Cut.PassShape, Before, After;
    ghost var q := p;
    if found != null {
      CutFits(p);
      Cut.CutRemoves(p, val, s, found);
      CutOff(found, node, parent, head, p);
      RemovedOccurs(s, val, Whole(Cut.CutPath(p), Nil));
      q := Cut.CutPath(p);
    } else {
      Cut.SeekEndMisses(p, val, s);
      EndFits(p);
    }
    whole := Plug(q, Nil);
    AtPlug(q, Nil, head);
    NilNodes();
    PlugRedBlack(q, Nil);
    PlugInOrder(q, Nil);
  }

  lemma EndFits(p: Path)
    requires Cut.PassShape(p, Nil)
    ensures Fits(p, 0, false)
  {
  }

  lemma NilNodes()
    ensures Nodes(Nil) == {}
  {
  }
}
