/**
  The values behind one downward pass of insertion: what the colour flips and
  rotations made on the way down do to shape, balance and contents, and why the
  pass may go on for up to two steps with out-of-date ancestors after a rotation.
 */
module RedBlackInsert {
  import opened RedBlackShape

  /** How much the pass knows about the ancestors of the current position. */
  datatype Phase =
    | Tracked      // parent, grandparent and great-grandparent are all up to date
    | AfterSingle  // great-grandparent is out of date
    | AfterDouble  // grandparent and great-grandparent are out of date

  /** A black node with black children: neither red, nor about to be flipped to red. */
  predicate Calm(t: Tree) {
    t.Bin? && !t.red && !IsRed(t.left) && !IsRed(t.right)
  }

  predicate BothRed(t: Tree) {
    t.Bin? && IsRed(t.left) && IsRed(t.right)
  }

  /** The shape invariant of the pass.  It says that a red node with a red parent can
      come up only in phase `Tracked`, and then with a black uncle. */
  predicate PassShape(phase: Phase, p: Path, t: Tree, val: int) {
    && RedBlack(t) && Fits(p, BlackHeight(t), IsRed(t))
    && match phase
       case Tracked =>
         && (IsRed(t) ==> p.Step? && !IsRed(p.sib))
         && (p.Step? && p.red ==> Calm(t) || (p.up.Step? && !IsRed(p.up.sib)))
       case AfterSingle => Calm(t) && p.Step? && p.up.Step?
       case AfterDouble => IsRed(t) && p.Step? && !p.red && Calm(t.Child(t.e.val < val))
  }

  /** The position lies where `val` belongs in the sorted contents `s`. */
  ghost predicate Located(p: Path, t: Tree, val: int, s: seq<Entry>) {
    Whole(p, t) == s && Sorted(s) && AllBelow(Before(p), val) && AllAbove(After(p), val)
  }

  function Flip(t: Tree): Tree
    requires BothRed(t)
  {
    t.(red := true, left := t.left.(red := false), right := t.right.(red := false))
  }

  lemma FlipNodes(t: Tree)
    requires BothRed(t)
    ensures Nodes(Flip(t)) == Nodes(t) && Distinct(Flip(t)) == Distinct(t)
  {
    var l, r := t.left, t.right;
    assert Nodes(l.(red := false)) == Nodes(l) && Nodes(r.(red := false)) == Nodes(r);
    assert Distinct(l.(red := false)) == Distinct(l) && Distinct(r.(red := false)) == Distinct(r);
  }

  predicate Violation(p: Path, t: Tree) {
    p.Step? && p.red && IsRed(t)
  }

  /** What one visit leaves at the position before the ancestors are looked at. */
  predicate Settled(phase: Phase, p: Path, t: Tree, val: int) {
    && RedBlack(t) && t.Bin? && !BothRed(t)
    && Fits(p, BlackHeight(t), false)
    && (Violation(p, t) ==> phase.Tracked? && p.up.Step? && !p.up.red && !IsRed(p.up.sib))
    && (Violation(p, t) ==> t.e.val == val || (Calm(t.left) && Calm(t.right)))
    && (!Violation(p, t) ==> Fits(p, BlackHeight(t), IsRed(t)))
    && match phase
       case Tracked =>
         IsRed(t) ==>
           (t.e.val == val) || (Calm(t.left) && Calm(t.right)) || (p.Step? && !IsRed(p.sib))
       case AfterSingle => Calm(t) && p.Step? && p.up.Step?
       case AfterDouble => IsRed(t) && p.Step? && !p.red && Calm(t.Child(t.e.val < val))
  }

  /** A flip turns the node red and calms both children; height and contents stay. */
  lemma FlipSettles(phase: Phase, p: Path, t: Tree, val: int)
    requires PassShape(phase, p, t, val) && BothRed(t)
    ensures phase.Tracked?
    ensures Settled(phase, p, Flip(t), val) && InOrder(Flip(t)) == InOrder(t)
    ensures Calm(Flip(t).left) && Calm(Flip(t).right)
  {
    assert RedBlack(t.left) && RedBlack(t.right);
  }

  lemma NoFlipSettles(phase: Phase, p: Path, t: Tree, val: int)
    requires PassShape(phase, p, t, val) && t.Bin? && !BothRed(t)
    ensures Settled(phase, p, t, val) && !Violation(p, t)
  {
  }

  /** A new red leaf where the search ran off the tree. */
  lemma LeafSettles(phase: Phase, p: Path, n: Node, val: int, str: string)
    requires PassShape(phase, p, Nil, val)
    ensures phase.Tracked?
    ensures Settled(phase, p, Bin(n, true, Entry(val, str), Nil, Nil), val)
  {
  }

  // Rotations

  /** The path after a single rotation at the grandparent. */
  function SinglePath(p: Path): Path
    requires p.Step? && p.up.Step? && p.dir == p.up.dir
  {
    Step(p.up.up, p.n, false, p.e, p.dir, Reddened(p.up, p.sib))
  }

  function Reddened(p: Path, t: Tree): Tree
    requires p.Step?
  {
    Fill(p.(red := true), t)
  }

  lemma SingleRotation(p: Path, t: Tree)
    requires p.Step? && p.up.Step? && p.dir == p.up.dir
    ensures Rotate(Fill(p.up, Fill(p, t)), !p.up.dir) == Fill(SinglePath(p), t)
    ensures Before(SinglePath(p)) == Before(p) && After(SinglePath(p)) == After(p)
  {
    var u := p.up.up;
    if p.dir {
      assert Before(p) == Before(u) + (InOrder(p.up.sib) + [p.up.e] + InOrder(p.sib)) + [p.e];
    } else {
      assert After(p) == [p.e] + (InOrder(p.sib) + [p.up.e] + InOrder(p.up.sib)) + After(u);
    }
  }

  lemma SingleRotationFits(p: Path, t: Tree, val: int)
    requires Settled(Tracked, p, t, val) && Violation(p, t) && p.dir == p.up.dir
    ensures Fits(SinglePath(p), BlackHeight(t), true)
  {
    var h := BlackHeight(t);
    assert Fits(p.up, h, true) && Fits(p.up.up, h + 1, false);
    assert RedBlack(Reddened(p.up, p.sib)) && BlackHeight(Reddened(p.up, p.sib)) == h;
  }

  /** The node after a double rotation at the grandparent: black, on top of its old
      parent and grandparent, which are both red. */
  function DoubleTree(p: Path, t: Tree): Tree
    requires t.Bin? && p.Step? && p.up.Step? && p.dir != p.up.dir
  {
    RotateTwice(Fill(p.up, Fill(p, t)), !p.up.dir)
  }

  lemma DoubleRotation(p: Path, t: Tree)
    requires t.Bin? && p.Step? && p.up.Step? && p.dir != p.up.dir
    ensures var d := DoubleTree(p, t);
      && d.Bin? && d.n == t.n && d.e == t.e && !d.red
      && d.Child(p.up.dir) == Reddened(p, t.Child(p.up.dir))
      && d.Child(p.dir) == Reddened(p.up, t.Child(p.dir))
      && Whole(p.up.up, d) == Whole(p, t)
  {
    RotateTwiceInOrder(Fill(p.up, Fill(p, t)), !p.up.dir);
    FillWhole(p, t);
    FillWhole(p.up, Fill(p, t));
  }

  lemma DoubleRotationFits(p: Path, t: Tree, val: int)
    requires Settled(Tracked, p, t, val) && Violation(p, t) && p.dir != p.up.dir
    ensures var d := DoubleTree(p, t);
      RedBlack(d) && Fits(p.up.up, BlackHeight(d), false)
  {
    DoubleRotation(p, t);
    var h := BlackHeight(t);
    assert Fits(p.up, h, true) && Fits(p.up.up, h + 1, false);
    assert RedBlack(Reddened(p, t.Child(p.up.dir))) && BlackHeight(Reddened(p, t.Child(p.up.dir))) == h;
    assert RedBlack(Reddened(p.up, t.Child(p.dir))) && BlackHeight(Reddened(p.up, t.Child(p.dir))) == h;
  }

  /** The pass makes at most this many more steps. */
  function StepsLeft(phase: Phase, t: Tree, val: int): nat {
    if phase.AfterDouble? && t.Bin? then 1 + Count(t.Child(t.e.val < val)) else Count(t)
  }

  // Going one step down

  lemma LocatedDown(p: Path, t: Tree, val: int, s: seq<Entry>)
    requires Located(p, t, val, s) && t.Bin? && t.e.val != val
    ensures var dir := t.e.val < val; Located(Down(p, t, dir), t.Child(dir), val, s)
  {
    var dir := t.e.val < val;
    FillDown(p, t, dir);
    var l, r := InOrder(t.left), InOrder(t.right);
    assert s == Before(p) + (l + [t.e] + r) + After(p);
    SplitSorted(Before(p), l, t.e, r, After(p));
  }

  /** Without a rotation the ancestors stay known a step further up. */
  lemma PlainDown(phase: Phase, p: Path, t: Tree, val: int)
    requires Settled(phase, p, t, val) && !Violation(p, t) && t.e.val != val
    ensures var dir := t.e.val < val;
      PassShape(if phase.AfterDouble? then AfterSingle else Tracked, Down(p, t, dir), t.Child(dir), val)
  {
  }

  lemma SingleDown(p: Path, t: Tree, val: int)
    requires Settled(Tracked, p, t, val) && Violation(p, t) && p.dir == p.up.dir
    requires Calm(t.left) && Calm(t.right)
    ensures var dir := t.e.val < val;
      PassShape(AfterSingle, Down(SinglePath(p), t, dir), t.Child(dir), val)
  {
    SingleRotationFits(p, t, val);
  }

  lemma DoubleDown(p: Path, t: Tree, val: int)
    requires Settled(Tracked, p, t, val) && Violation(p, t) && p.dir != p.up.dir
    requires Calm(t.left) && Calm(t.right)
    requires AllBelow(Before(p), val) && AllAbove(After(p), val) && t.e.val != val
    ensures var dir := t.e.val < val; var d := DoubleTree(p, t);
      && PassShape(AfterDouble, Down(p.up.up, d, dir), d.Child(dir), val)
      && d.Child(dir).Child(d.Child(dir).e.val < val) == t.Child(dir)
  {
    DoubleRotation(p, t);
    DoubleRotationFits(p, t, val);
    AncestorsSide(p, val);
  }

  /** The two nearest ancestors lie on the side of `val` that the path says. */
  lemma AncestorsSide(p: Path, val: int)
    requires p.Step? && p.up.Step?
    requires AllBelow(Before(p), val) && AllAbove(After(p), val)
    ensures p.dir <==> p.e.val < val
    ensures !p.dir <==> p.e.val > val
    ensures p.up.dir <==> p.up.e.val < val
    ensures !p.up.dir <==> p.up.e.val > val
  {
    if p.dir {
      assert Before(p)[|Before(p)| - 1] == p.e;
    } else {
      assert After(p)[0] == p.e;
    }
    var u := p.up;
    if u.dir {
      var k := |Before(u)| - 1;
      assert Before(u)[k] == u.e;
      assert Before(p)[k] == u.e;
    } else {
      assert After(u)[0] == u.e;
      var k := |After(p)| - |After(u)|;
      assert After(p)[k] == u.e;
    }
  }

  // A whole visit: settle, repair if needed, go on

  ghost function RepairedPath(p: Path): Path
    requires p.Step? && p.up.Step?
  {
    if p.dir == p.up.dir then SinglePath(p) else p.up.up
  }

  ghost function RepairedTree(p: Path, t: Tree): Tree
    requires t.Bin? && p.Step? && p.up.Step?
  {
    if p.dir == p.up.dir then t else DoubleTree(p, t)
  }

  lemma RepairedNodes(p: Path, t: Tree)
    requires t.Bin? && p.Step? && p.up.Step?
    ensures PathNodes(RepairedPath(p)) + Nodes(RepairedTree(p, t)) == PathNodes(p) + Nodes(t)
  {
    var f := Fill(p, t);
    var g := Fill(p.up, f);
    DistinctFill(p, t);
    DistinctFill(p.up, f);
    if p.dir == p.up.dir {
      SingleRotation(p, t);
      RotateNodes(g, !p.up.dir);
      DistinctFill(SinglePath(p), t);
    } else {
      RotateTwiceNodes(g, !p.up.dir);
    }
  }

  /** Without a repair the ancestors become known again one step at a time. */
  function PhaseAfter(phase: Phase): Phase {
    if phase.AfterDouble? then AfterSingle else Tracked
  }

  function PhaseAfterRepair(p: Path): Phase
    requires p.Step? && p.up.Step?
  {
    if p.dir == p.up.dir then AfterSingle else AfterDouble
  }

  /** The pass may go on from `t` at `p` in phase `phase`, if `val` is not already there. */
  ghost predicate MayDescend(phase: Phase, p: Path, t: Tree, val: int, steps: nat) {
    && t.Bin? && RedBlack(t) && Fits(p, BlackHeight(t), IsRed(t))
    && (t.e.val != val ==>
          var dir := t.e.val < val;
          && PassShape(phase, Down(p, t, dir), t.Child(dir), val)
          && StepsLeft(phase, t.Child(dir), val) < steps)
  }

  lemma SettledDescends(phase: Phase, p: Path, t: Tree, val: int)
    requires Settled(phase, p, t, val) && !Violation(p, t)
    ensures MayDescend(PhaseAfter(phase), p, t, val, StepsLeft(phase, t, val))
  {
    if t.e.val != val {
      PlainDown(phase, p, t, val);
    }
  }

  lemma RepairedDescends(phase: Phase, p: Path, t: Tree, val: int, s: seq<Entry>)
    requires Settled(phase, p, t, val) && Violation(p, t)
    requires Whole(p, t) == s && AllBelow(Before(p), val) && AllAbove(After(p), val)
    ensures RepairedTree(p, t).n == t.n && RepairedTree(p, t).e == t.e
    ensures Whole(RepairedPath(p), RepairedTree(p, t)) == s
    ensures AllBelow(Before(RepairedPath(p)), val) && AllAbove(After(RepairedPath(p)), val)
    ensures MayDescend(PhaseAfterRepair(p), RepairedPath(p), RepairedTree(p, t), val, StepsLeft(phase, t, val))
  {
    assert Count(t) == 1 + Count(t.left) + Count(t.right);
    if p.dir == p.up.dir {
      SingleRotation(p, t);
      SingleRotationFits(p, t, val);
      if t.e.val != val {
        SingleDown(p, t, val);
      }
    } else {
      DoubleRotation(p, t);
      DoubleRotationFits(p, t, val);
      ShorterPath(p, val);
      ShorterPath(p.up, val);
      if t.e.val != val {
        DoubleDown(p, t, val);
        assert Count(t.left) > 0 && Count(t.right) > 0;
      }
    }
  }

  lemma ShorterPath(p: Path, val: int)
    requires p.Step? && AllBelow(Before(p), val) && AllAbove(After(p), val)
    ensures AllBelow(Before(p.up), val) && AllAbove(After(p.up), val)
  {
    if p.dir {
      assert forall i :: 0 <= i < |Before(p.up)| ==> Before(p.up)[i] == Before(p)[i];
    } else {
      var k := 1 + |InOrder(p.sib)|;
      assert forall i :: 0 <= i < |After(p.up)| ==> After(p.up)[i] == After(p)[k + i];
    }
  }

  // What insertion means for the contents

  /** `s'` is `s` with one new entry. */
  ghost predicate Inserted(s: seq<Entry>, e: Entry, s': seq<Entry>) {
    exists i :: 0 <= i <= |s| && s' == s[..i] + [e] + s[i..]
  }

  lemma InsertedBetween(a: seq<Entry>, e: Entry, b: seq<Entry>)
    requires Sorted(a + b) && AllBelow(a, e.val) && AllAbove(b, e.val)
    ensures Inserted(a + b, e, a + [e] + b) && Sorted(a + [e] + b) && !Occurs(a + b, e.val)
  {
    var s, s' := a + b, a + [e] + b;
    assert s[..|a|] == a && s[|a|..] == b;
    forall i, j | 0 <= i < j < |s'| ensures s'[i].val < s'[j].val {
      if i != |a| && j != |a| {
        var k, m := if i < |a| then i else i - 1, if j < |a| then j else j - 1;
        assert s'[i] == s[k] && s'[j] == s[m];
      }
    }
  }

  lemma LocatedGap(p: Path, e: Entry, s: seq<Entry>)
    requires Located(p, Nil, e.val, s)
    ensures var s' := Before(p) + [e] + After(p);
      Inserted(s, e, s') && Sorted(s') && !Occurs(s, e.val)
  {
    assert Before(p) + After(p) == s;
    InsertedBetween(Before(p), e, After(p));
  }

  lemma OccursAt(p: Path, t: Tree)
    requires t.Bin?
    ensures Occurs(Whole(p, t), t.e.val)
  {
    assert Whole(p, t)[|Before(p)| + |InOrder(t.left)|] == t.e;
  }

  lemma InsertedMap(s: seq<Entry>, e: Entry, s': seq<Entry>)
    requires Sorted(s') && Inserted(s, e, s')
    ensures MapOf(s') == MapOf(s)[e.val := e.str]
  {
    var i :| 0 <= i <= |s| && s' == s[..i] + [e] + s[i..];
    assert s[..i] + s[i..] == s;
    MapOfMiddle(s[..i], e, s[i..]);
  }
}
