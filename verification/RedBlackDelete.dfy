/**
  The values behind one downward pass of deletion: a red node is pushed down ahead
  of the search, so that the node finally cut off is a red leaf (or the root alone).
 */
module RedBlackDelete {
  import opened RedBlackShape

  // Colours on the way down

  /** The node at the end of the path, or the next one, is red.  The root needs not be,
      as long as neither of its children is red. */
  predicate Pushed(p: Path, t: Tree) {
    p.Step? ==> p.red || IsRed(t) || (p.up.Top? && !IsRed(p.sib))
  }

  predicate PassShape(p: Path, t: Tree) {
    RedBlack(t) && Fits(p, BlackHeight(t), IsRed(t)) && Pushed(p, t)
  }

  /** Nothing to do: red is already here or one step ahead. */
  predicate AlreadyRed(t: Tree, dir: bool)
    requires t.Bin?
  {
    IsRed(t) || IsRed(t.Child(dir))
  }

  predicate RedBehind(t: Tree, dir: bool)
    requires t.Bin?
  {
    !AlreadyRed(t, dir) && IsRed(t.Child(!dir))
  }

  predicate CanBorrow(t: Tree, dir: bool, p: Path)
    requires t.Bin?
  {
    !AlreadyRed(t, dir) && !IsRed(t.Child(!dir)) && p.Step? && p.sib.Bin?
  }

  predicate BlackNephews(p: Path)
    requires p.Step? && p.sib.Bin?
  {
    !IsRed(p.sib.left) && !IsRed(p.sib.right)
  }

  function FlippedPath(p: Path): Path
    requires p.Step? && p.sib.Bin?
  {
    p.(red := false, sib := p.sib.(red := true))
  }

  /** The parent's subtree after a rotation towards the pass, recoloured. */
  function Borrowed(p: Path, t: Tree): Tree
    requires t.Bin? && p.Step? && p.sib.Bin? && !BlackNephews(p)
  {
    if IsRed(p.sib.Child(p.dir)) then RotateTwice(Fill(p, t), p.dir) else Rotate(Fill(p, t), p.dir)
  }

  function Recolored(r: Tree, dir: bool, t: Tree): Tree
    requires r.Bin? && r.Child(dir).Bin? && r.Child(!dir).Bin?
  {
    r.(red := true)
      .SetChild(dir, r.Child(dir).(red := false).SetChild(dir, t))
      .SetChild(!dir, r.Child(!dir).(red := false))
  }

  function BorrowedPath(p: Path, t: Tree): Path
    requires t.Bin? && p.Step? && p.sib.Bin? && !BlackNephews(p)
  {
    var r := Recolored(Borrowed(p, t), p.dir, t);
    Down(Down(p.up, r, p.dir), r.Child(p.dir), p.dir)
  }

  /** Where the pass stands after pushing red to (or past) the node at the position. */
  function PushedPath(p: Path, t: Tree, dir: bool): Path
    requires t.Bin?
  {
    if RedBehind(t, dir) then Down(p, Rotate(t, dir), dir)
    else if CanBorrow(t, dir, p) then
      if BlackNephews(p) then FlippedPath(p) else BorrowedPath(p, t)
    else p
  }

  function PushedTree(p: Path, t: Tree, dir: bool): Tree
    requires t.Bin?
  {
    if RedBehind(t, dir) then Rotate(t, dir).Child(dir)
    else if CanBorrow(t, dir, p) then t.(red := true)
    else t
  }

  lemma BorrowedShape(p: Path, t: Tree)
    requires t.Bin? && p.Step? && p.sib.Bin? && !BlackNephews(p)
    ensures var r := Borrowed(p, t);
      && r.Bin? && r.Child(!p.dir).Bin? && r.Child(p.dir).Bin?
      && r.Child(p.dir).Child(p.dir) == t && r.Child(p.dir).n == p.n && r.Child(p.dir).e == p.e
  {
  }

  /** Pushing down keeps the tree red-black, and gets red ahead of the next step. */
  lemma PushShape(p: Path, t: Tree, dir: bool)
    requires PassShape(p, t) && t.Bin?
    ensures var p', t' := PushedPath(p, t, dir), PushedTree(p, t, dir);
      && t'.Bin? && t'.n == t.n && t'.e == t.e && t'.Child(dir) == t.Child(dir)
      && RedBlack(t') && Fits(p', BlackHeight(t'), IsRed(t'))
      && PassShape(Down(p', t', dir), t'.Child(dir))
  {
    if RedBehind(t, dir) {
      RotateShape(p, t, dir);
    } else if CanBorrow(t, dir, p) {
      if BlackNephews(p) {
        FlipShape(p, t, dir);
      } else {
        BorrowShape(p, t, dir);
      }
    } else if !AlreadyRed(t, dir) {
      assert p.Top?;
    }
  }

  lemma RotateShape(p: Path, t: Tree, dir: bool)
    requires PassShape(p, t) && t.Bin? && RedBehind(t, dir)
    ensures var r := Rotate(t, dir);
      && RedBlack(r.Child(dir)) && IsRed(r.Child(dir)) && r.Child(dir).Child(dir) == t.Child(dir)
      && Fits(Down(p, r, dir), BlackHeight(r.Child(dir)), true)
  {
    assert RedBlack(t.Child(!dir));
  }

  lemma FlipShape(p: Path, t: Tree, dir: bool)
    requires PassShape(p, t) && t.Bin? && CanBorrow(t, dir, p) && BlackNephews(p)
    ensures RedBlack(t.(red := true)) && Fits(FlippedPath(p), BlackHeight(t.(red := true)), true)
  {
    var h := BlackHeight(t);
    assert RedBlack(p.sib) && BlackHeight(p.sib) == h;
    assert p.red || p.up.Top?;
    if p.red {
      FitsAnyBlack(p.up, h, true);
    }
  }

  lemma BorrowShape(p: Path, t: Tree, dir: bool)
    requires PassShape(p, t) && t.Bin? && CanBorrow(t, dir, p) && !BlackNephews(p)
    ensures RedBlack(t.(red := true)) && Fits(BorrowedPath(p, t), BlackHeight(t.(red := true)), true)
  {
    BorrowedShape(p, t);
    var s := p.sib;
    assert RedBlack(s) && RedBlack(s.left) && RedBlack(s.right);
    assert BlackHeight(s) == BlackHeight(t);
  }

  // Keys on the way down

  /** The nearest ancestor to the right of the position. */
  function Turn(p: Path): Path {
    if p.Step? && p.dir then Turn(p.up) else p
  }

  /** The position lies where `val` belongs in `s`; once the key has been found, its node
      is the next one to the right of the position. */
  ghost predicate Seeking(p: Path, t: Tree, val: int, s: seq<Entry>, found: Node?) {
    && Whole(p, t) == s && Sorted(s) && AllBelow(Before(p), val)
    && (found == null ==> AllAbove(After(p), val))
    && (found != null ==> Turn(p).Step? && Turn(p).n == found && Turn(p).e.val == val)
  }

  lemma {:induction false} TurnIsNext(p: Path)
    requires Turn(p).Step?
    ensures After(p) != [] && After(p)[0] == Turn(p).e
  {
    if p.dir {
      TurnIsNext(p.up);
    }
  }

  /** One step down, without any rewriting. */
  lemma SeekDown(p: Path, t: Tree, val: int, s: seq<Entry>, found: Node?)
    requires t.Bin? && Seeking(p, t, val, s, found)
    ensures var dir := t.e.val < val;
      Seeking(Down(p, t, dir), t.Child(dir), val, s, if t.e.val == val then t.n else found)
  {
    var dir := t.e.val < val;
    FillDown(p, t, dir);
    assert s == Before(p) + (InOrder(t.left) + [t.e] + InOrder(t.right)) + After(p);
    SplitSorted(Before(p), InOrder(t.left), t.e, InOrder(t.right), After(p));
    if found != null {
      TurnIsNext(p);
    }
  }

  /** Rewriting around the position leaves what is left and right of it. */
  lemma PushSides(p: Path, t: Tree, dir: bool)
    requires t.Bin? && !RedBehind(t, dir)
    ensures var p', t' := PushedPath(p, t, dir), PushedTree(p, t, dir);
      && Before(p') == Before(p) && After(p') == After(p) && InOrder(t') == InOrder(t)
      && Turn(p').Step? == Turn(p).Step?
      && (Turn(p).Step? ==> Turn(p').n == Turn(p).n && Turn(p').e == Turn(p).e)
  {
    if CanBorrow(t, dir, p) {
      if BlackNephews(p) {
        assert InOrder(p.sib.(red := true)) == InOrder(p.sib);
      } else {
        BorrowSides(p, t);
      }
    }
  }

  lemma BorrowSides(p: Path, t: Tree)
    requires t.Bin? && p.Step? && p.sib.Bin? && !BlackNephews(p)
    ensures var p' := BorrowedPath(p, t);
      && p'.Step? && p'.n == p.n && p'.e == p.e && p'.dir == p.dir && p'.up.Step? && p'.up.dir == p.dir
      && p'.up.up == p.up
      && Before(p') == Before(p) && After(p') == After(p)
  {
    hide Before, After, InOrder;
    BorrowedShape(p, t);
    if IsRed(p.sib.Child(p.dir)) {
      BorrowTwiceSides(p, t);
    } else {
      BorrowOnceSides(p, t);
    }
  }

  lemma BorrowOnceSides(p: Path, t: Tree)
    requires t.Bin? && p.Step? && p.sib.Bin? && !IsRed(p.sib.Child(p.dir)) && IsRed(p.sib.Child(!p.dir))
    ensures Before(BorrowedPath(p, t)) == Before(p) && After(BorrowedPath(p, t)) == After(p)
  {
    BorrowedShape(p, t);
    var s := p.sib;
    var a, b := InOrder(s.left), InOrder(s.right);
    if p.dir {
      assert Before(p) == Before(p.up) + a + [s.e] + b + [p.e];
    } else {
      assert After(p) == [p.e] + a + [s.e] + b + After(p.up);
    }
  }

  lemma BorrowTwiceSides(p: Path, t: Tree)
    requires t.Bin? && p.Step? && p.sib.Bin? && IsRed(p.sib.Child(p.dir))
    ensures Before(BorrowedPath(p, t)) == Before(p) && After(BorrowedPath(p, t)) == After(p)
  {
    BorrowedShape(p, t);
    var s := p.sib;
    var p', m := BorrowedPath(p, t), s.Child(p.dir);
    var a, b, c := InOrder(s.Child(!p.dir)), InOrder(m.left), InOrder(m.right);
    if p.dir {
      assert InOrder(s) == a + [s.e] + (b + [m.e] + c);
      assert InOrder(p'.up.sib) == a + [s.e] + b && InOrder(p'.sib) == c;
      RegroupLeft(Before(p.up), a + [s.e], b, m.e, c, p.e);
    } else {
      assert InOrder(s) == (b + [m.e] + c) + [s.e] + a;
      assert InOrder(p'.up.sib) == c + [s.e] + a && InOrder(p'.sib) == b;
      RegroupRight(p.e, b, m.e, c, [s.e] + a, After(p.up));
      assert c + ([s.e] + a) == c + [s.e] + a;
      assert (b + [m.e] + c) + ([s.e] + a) == (b + [m.e] + c) + [s.e] + a;
    }
  }

  lemma RegroupLeft(x: seq<Entry>, a: seq<Entry>, b: seq<Entry>, m: Entry, c: seq<Entry>, e: Entry)
    ensures (x + (a + b) + [m]) + c + [e] == x + (a + (b + [m] + c)) + [e]
  {
  }

  lemma RegroupRight(e: Entry, b: seq<Entry>, m: Entry, c: seq<Entry>, a: seq<Entry>, x: seq<Entry>)
    ensures [e] + b + ([m] + (c + a) + x) == [e] + ((b + [m] + c) + a) + x
  {
  }

  /** The pass stays on course whatever it rewrites. */
  lemma PushKeys(p: Path, t: Tree, val: int, s: seq<Entry>, found: Node?)
    requires t.Bin? && Seeking(p, t, val, s, found)
    ensures var dir := t.e.val < val;
      var p', t' := PushedPath(p, t, dir), PushedTree(p, t, dir);
      Seeking(Down(p', t', dir), t'.Child(dir), val, s, if t.e.val == val then t.n else found)
  {
    hide Sorted, AllBelow, AllAbove;
    var dir := t.e.val < val;
    if RedBehind(t, dir) {
      var r := Rotate(t, dir);
      RotateInOrder(t, dir);
      RotatedSide(p, t, val, s, found);
      SeekDown(p, r, val, s, found);
      SeekDown(Down(p, r, dir), r.Child(dir), val, s, found);
    } else {
      PushSides(p, t, dir);
      SeekDown(PushedPath(p, t, dir), PushedTree(p, t, dir), val, s, found);
    }
  }

  /** The node rotated up lies on the side of `val` that the pass comes from. */
  lemma RotatedSide(p: Path, t: Tree, val: int, s: seq<Entry>, found: Node?)
    requires t.Bin? && Seeking(p, t, val, s, found) && t.Child(!(t.e.val < val)).Bin?
    ensures var dir := t.e.val < val;
      var r := Rotate(t, dir); r.e.val != val && (r.e.val < val) == dir
  {
    var dir := t.e.val < val;
    var c := t.Child(!dir);
    var l, r := InOrder(t.left), InOrder(t.right);
    assert s == Before(p) + (l + [t.e] + r) + After(p);
    SplitSorted(Before(p), l, t.e, r, After(p));
    assert InOrder(c)[|InOrder(c.left)|] == c.e;
  }

  // Cutting off the last node of the pass

  /** The pass ends at a node without children. */
  lemma EndIsLeaf(p: Path)
    requires PassShape(p, Nil) && p.Step?
    ensures p.sib.Nil? && Fits(p.up, 0, false)
  {
    if p.red {
      FitsAnyBlack(p.up, 0, true);
    }
  }

  /** The path with another entry at the nearest ancestor to the right. */
  function Renamed(p: Path, e: Entry): Path {
    if p.Top? then Top else if p.dir then p.(up := Renamed(p.up, e)) else p.(e := e)
  }

  /** The subtree of the nearest ancestor to the right, with `t` at the position. */
  function TurnTree(p: Path, t: Tree): Tree
    requires Turn(p).Step?
  {
    if p.dir then TurnTree(p.up, Fill(p, t)) else Fill(p, t)
  }

  lemma {:induction false} RenamedTurn(p: Path, t: Tree, e: Entry)
    requires Turn(p).Step?
    ensures Turn(Renamed(p, e)).Step? && Turn(Renamed(p, e)).up == Turn(p).up
    ensures TurnTree(p, t).Bin? && TurnTree(p, t).n == Turn(p).n
    ensures TurnTree(Renamed(p, e), t) == TurnTree(p, t).(e := e)
  {
    if p.dir {
      RenamedTurn(p.up, Fill(p, t), e);
    }
  }

  lemma {:induction false} RenamedFits(p: Path, e: Entry, h: nat, red: bool)
    ensures Fits(Renamed(p, e), h, red) == Fits(p, h, red)
  {
    if p.Step? && p.dir {
      RenamedFits(p.up, e, h + if p.red then 0 else 1, p.red);
    }
  }

  lemma {:induction false} RenamedSides(p: Path, e: Entry)
    requires Turn(p).Step?
    ensures After(p) != []
    ensures Before(Renamed(p, e)) == Before(p) && After(Renamed(p, e)) == [e] + After(p)[1..]
  {
    if p.dir {
      RenamedSides(p.up, e);
    } else {
      assert After(p)[1..] == InOrder(p.sib) + After(p.up);
    }
  }

  /** `s'` is `s` without its entry for `val`. */
  ghost predicate Removed(s: seq<Entry>, val: int, s': seq<Entry>) {
    exists i :: 0 <= i < |s| && s[i].val == val && s' == s[..i] + s[i + 1..]
  }

  /** The path left when the node at the end of `p` is cut off and its entry moves to
      the node that was found. */
  function CutPath(p: Path): Path
    requires p.Step?
  {
    if p.dir then Renamed(p.up, p.e) else p.up
  }

  /** Cutting off removes exactly the entry that was looked for. */
  lemma CutRemoves(p: Path, val: int, s: seq<Entry>, found: Node)
    requires p.Step? && p.sib.Nil? && Seeking(p, Nil, val, s, found)
    ensures Removed(s, val, Whole(CutPath(p), Nil))
  {
    hide AllBelow, AllAbove, Sorted;
    var b := Before(p.up);
    if p.dir {
      var a := After(p.up);
      TurnIsNext(p.up);
      RenamedSides(p.up, p.e);
      assert s == b + [p.e] + a && a == [a[0]] + a[1..];
      var i := |b| + 1;
      assert s[i] == a[0] && s[..i] == b + [p.e] && s[i + 1..] == a[1..];
      assert Whole(CutPath(p), Nil) == b + [] + ([p.e] + a[1..]);
      assert Whole(CutPath(p), Nil) == s[..i] + s[i + 1..];
    } else {
      var a := After(p.up);
      assert s == b + [p.e] + a;
      var i := |b|;
      assert s[i] == p.e && s[..i] == b && s[i + 1..] == a;
      assert Whole(CutPath(p), Nil) == b + [] + a;
      assert Whole(CutPath(p), Nil) == s[..i] + s[i + 1..];
    }
  }

  lemma SeekEndMisses(p: Path, val: int, s: seq<Entry>)
    requires Seeking(p, Nil, val, s, null)
    ensures !Occurs(s, val)
  {
    assert s == Before(p) + After(p);
  }

  lemma RemovedMap(s: seq<Entry>, val: int, s': seq<Entry>)
    requires Sorted(s) && Removed(s, val, s')
    ensures MapOf(s') == MapOf(s) - {val} && val in MapOf(s) && Sorted(s') && |s'| == |s| - 1
  {
    hide MapOf, Sorted;
    var i :| 0 <= i < |s| && s[i].val == val && s' == s[..i] + s[i + 1..];
    assert s == s[..i] + [s[i]] + s[i + 1..];
    MapOfMiddle(s[..i], s[i], s[i + 1..]);
    SortedMiddle(s[..i], s[i], s[i + 1..]);
    MapOfKeys(s, val);
  }
}
