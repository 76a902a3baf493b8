/**
  Red-black trees as values: the shapes that the pointer structure of the hash
  ring's index passes through while it is rewritten in place.

  A `Tree` names the heap node at each position, so the same value describes both
  the shape and which object sits where.  A `Path` is the context of a position
  (everything in the tree except the subtree there); the downward loops of the
  index are at all times at one position, so their state is a path and a subtree.
 */
module RedBlackShape {

  /** A node of the index, with the fields that the source updates in place. */
  class Node {
    var val: int
    var str: string
    var left: Node?
    var right: Node?
    var red: bool

    constructor (val: int, str: string, red: bool)
      ensures this.val == val && this.str == str && this.red == red
      ensures left == null && right == null
    {
      this.val, this.str, this.red := val, str, red;
      left, right := null, null;
    }

    function Child(right: bool): Node?
      reads this
    {
      if right then this.right else left
    }

    method SetChild(right: bool, node: Node?)
      modifies this
      ensures Child(right) == node && Child(!right) == old(Child(!right))
      ensures val == old(val) && str == old(str) && red == old(red)
    {
      if right {
        this.right := node;
      } else {
        left := node;
      }
    }
  }

  datatype Entry = Entry(val: int, str: string)

  datatype Tree = Nil | Bin(n: Node, red: bool, e: Entry, left: Tree, right: Tree) {
    function Child(dir: bool): Tree
      requires Bin?
    {
      if dir then right else left
    }

    function SetChild(dir: bool, t: Tree): Tree
      requires Bin?
    {
      if dir then this.(right := t) else this.(left := t)
    }
  }

  /** The context of a position: `dir` says on which side of `n` the position lies,
      `sib` is the subtree on the other side. */
  datatype Path =
    | Top
    | Step(up: Path, n: Node, red: bool, e: Entry, dir: bool, sib: Tree)

  predicate IsRed(t: Tree) {
    t.Bin? && t.red
  }

  // Contents in search order

  function InOrder(t: Tree): seq<Entry> {
    match t
    case Nil => []
    case Bin(_, _, e, l, r) => InOrder(l) + [e] + InOrder(r)
  }

  ghost predicate Sorted(s: seq<Entry>) {
    forall i, j :: 0 <= i < j < |s| ==> s[i].val < s[j].val
  }

  ghost predicate AllBelow(s: seq<Entry>, v: int) {
    forall i :: 0 <= i < |s| ==> s[i].val < v
  }

  ghost predicate AllAbove(s: seq<Entry>, v: int) {
    forall i :: 0 <= i < |s| ==> s[i].val > v
  }

  ghost predicate Occurs(s: seq<Entry>, val: int) {
    exists i :: 0 <= i < |s| && s[i].val == val
  }

  /** The finite map that a sequence of entries with distinct keys stands for. */
  ghost function MapOf(s: seq<Entry>): map<int, string> {
    if s == [] then map[] else map[s[0].val := s[0].str] + MapOf(s[1..])
  }

  lemma {:induction false} MapOfKeys(s: seq<Entry>, val: int)
    ensures val in MapOf(s) <==> Occurs(s, val)
  {
    if s != [] {
      MapOfKeys(s[1..], val);
      if Occurs(s[1..], val) {
        var i :| 0 <= i < |s[1..]| && s[1..][i].val == val;
        assert s[i + 1].val == val;
      }
      if Occurs(s, val) && s[0].val != val {
        var i :| 0 <= i < |s| && s[i].val == val;
        assert s[1..][i - 1].val == val;
      }
    }
  }

  lemma {:induction false} MapOfConcat(a: seq<Entry>, b: seq<Entry>)
    ensures MapOf(a + b) == MapOf(a) + MapOf(b)
  {
    if a == [] {
      assert a + b == b;
    } else {
      assert (a + b)[1..] == a[1..] + b && (a + b)[0] == a[0];
      MapOfConcat(a[1..], b);
      MapUnionAssoc(map[a[0].val := a[0].str], MapOf(a[1..]), MapOf(b));
    }
  }

  lemma MapOfSingle(e: Entry)
    ensures MapOf([e]) == map[e.val := e.str]
  {
    assert MapOf([]) == map[];
  }

  lemma MapUnionAssoc<K, V>(x: map<K, V>, y: map<K, V>, z: map<K, V>)
    ensures x + (y + z) == (x + y) + z
  {
  }

  /** One entry more in a sorted sequence is one binding more in the map. */
  lemma MapOfMiddle(a: seq<Entry>, e: Entry, b: seq<Entry>)
    requires Sorted(a + [e] + b)
    ensures MapOf(a + [e] + b) == MapOf(a + b)[e.val := e.str]
    ensures MapOf(a + b) == MapOf(a + [e] + b) - {e.val}
  {
    hide MapOf, Sorted, Occurs;
    SortedMiddle(a, e, b);
    MapOfSingle(e);
    MapOfConcat(a + [e], b);
    MapOfConcat(a, [e]);
    MapOfConcat(a, b);
    MapOfKeys(a, e.val);
    MapOfKeys(b, e.val);
    MapUnionMiddle(MapOf(a), e.val, e.str, MapOf(b));
  }

  lemma MapUnionMiddle<K, V>(x: map<K, V>, k: K, v: V, y: map<K, V>)
    requires k !in x && k !in y
    ensures (x + map[k := v]) + y == (x + y)[k := v]
    ensures ((x + map[k := v]) + y) - {k} == x + y
  {
  }

  lemma SortedMiddle(a: seq<Entry>, e: Entry, b: seq<Entry>)
    requires Sorted(a + [e] + b)
    ensures Sorted(a + b) && !Occurs(a, e.val) && !Occurs(b, e.val)
  {
    var s, s' := a + [e] + b, a + b;
    assert forall i :: 0 <= i < |s'| ==> s'[i] == s[if i < |a| then i else i + 1];
    assert forall i :: 0 <= i < |a| ==> a[i] == s[i];
    assert forall i :: 0 <= i < |b| ==> b[i] == s[|a| + 1 + i];
    assert s[|a|] == e;
  }

  lemma SortedParts(l: seq<Entry>, e: Entry, r: seq<Entry>)
    requires Sorted(l + [e] + r)
    ensures Sorted(l) && Sorted(r) && AllBelow(l, e.val) && AllAbove(r, e.val)
  {
    var s := l + [e] + r;
    assert s[|l|] == e;
    assert forall i :: 0 <= i < |l| ==> s[i] == l[i];
    assert forall i :: 0 <= i < |r| ==> s[|l| + 1 + i] == r[i];
  }

  lemma SplitSorted(a: seq<Entry>, l: seq<Entry>, e: Entry, r: seq<Entry>, b: seq<Entry>)
    requires Sorted(a + (l + [e] + r) + b)
    ensures AllBelow(l, e.val) && AllAbove(r, e.val)
    ensures AllBelow(a, e.val) && AllAbove(b, e.val)
  {
    hide Sorted;
    assert a + (l + [e] + r) + b == (a + l) + [e] + (r + b);
    SortedParts(a + l, e, r + b);
    BoundParts(a, l, e.val);
    BoundParts(r, b, e.val);
  }

  lemma BoundParts(a: seq<Entry>, b: seq<Entry>, v: int)
    ensures AllBelow(a + b, v) ==> AllBelow(a, v) && AllBelow(b, v)
    ensures AllAbove(a + b, v) ==> AllAbove(a, v) && AllAbove(b, v)
  {
    assert forall i :: 0 <= i < |a| ==> (a + b)[i] == a[i];
    assert forall i :: 0 <= i < |b| ==> (a + b)[|a| + i] == b[i];
  }

  // Balance

  function BlackHeight(t: Tree): nat {
    match t
    case Nil => 0
    case Bin(_, red, _, l, _) => BlackHeight(l) + if red then 0 else 1
  }

  /** No red node has a red child, and every path to a leaf meets the same number
      of black nodes. */
  predicate RedBlack(t: Tree) {
    match t
    case Nil => true
    case Bin(_, red, _, l, r) =>
      && RedBlack(l) && RedBlack(r)
      && BlackHeight(l) == BlackHeight(r)
      && (red ==> !IsRed(l) && !IsRed(r))
  }

  function Count(t: Tree): nat {
    match t
    case Nil => 0
    case Bin(_, _, _, l, r) => 1 + Count(l) + Count(r)
  }

  // Positions

  function Fill(p: Path, t: Tree): Tree
    requires p.Step?
  {
    if p.dir then Bin(p.n, p.red, p.e, p.sib, t) else Bin(p.n, p.red, p.e, t, p.sib)
  }

  function Plug(p: Path, t: Tree): Tree {
    if p.Top? then t else Plug(p.up, Fill(p, t))
  }

  /** The path from a node to its child on side `dir`. */
  function Down(p: Path, t: Tree, dir: bool): Path
    requires t.Bin?
  {
    Step(p, t.n, t.red, t.e, dir, t.Child(!dir))
  }

  function Before(p: Path): seq<Entry> {
    if p.Top? then []
    else if p.dir then Before(p.up) + InOrder(p.sib) + [p.e]
    else Before(p.up)
  }

  function After(p: Path): seq<Entry> {
    if p.Top? then []
    else if p.dir then After(p.up)
    else [p.e] + InOrder(p.sib) + After(p.up)
  }

  function Whole(p: Path, t: Tree): seq<Entry> {
    Before(p) + InOrder(t) + After(p)
  }

  /** A subtree of black height `h` (with a red root if `red`) may stand at `p`. */
  predicate Fits(p: Path, h: nat, red: bool) {
    p.Step? ==>
      && RedBlack(p.sib) && BlackHeight(p.sib) == h
      && (p.red ==> !red && !IsRed(p.sib))
      && Fits(p.up, h + if p.red then 0 else 1, p.red)
  }

  lemma {:induction false} PlugInOrder(p: Path, t: Tree)
    ensures InOrder(Plug(p, t)) == Whole(p, t)
  {
    if p.Step? {
      PlugInOrder(p.up, Fill(p, t));
      FillWhole(p, t);
    }
  }

  lemma FillWhole(p: Path, t: Tree)
    requires p.Step?
    ensures Whole(p.up, Fill(p, t)) == Whole(p, t)
  {
    if p.dir {
      RegroupLeft(Before(p.up), InOrder(p.sib), p.e, InOrder(t), After(p.up));
    } else {
      RegroupRight(Before(p.up), InOrder(t), p.e, InOrder(p.sib), After(p.up));
    }
  }

  lemma RegroupLeft(b: seq<Entry>, s: seq<Entry>, e: Entry, t: seq<Entry>, a: seq<Entry>)
    ensures b + (s + [e] + t) + a == (b + s + [e]) + t + a
  {
    assert b + (s + [e] + t) == (b + s + [e]) + t;
  }

  lemma RegroupRight(b: seq<Entry>, t: seq<Entry>, e: Entry, s: seq<Entry>, a: seq<Entry>)
    ensures b + (t + [e] + s) + a == b + t + ([e] + s + a)
  {
    assert (b + t) + ([e] + s + a) == ((b + t) + ([e] + s)) + a;
    assert b + (t + [e] + s) == (b + t) + ([e] + s);
  }

  lemma FillDown(p: Path, t: Tree, dir: bool)
    requires t.Bin?
    ensures Fill(Down(p, t, dir), t.Child(dir)) == t
    ensures Whole(Down(p, t, dir), t.Child(dir)) == Whole(p, t)
    ensures Plug(Down(p, t, dir), t.Child(dir)) == Plug(p, t)
  {
    FillWhole(Down(p, t, dir), t.Child(dir));
  }

  /** `Fits` is exactly what makes the whole tree red-black. */
  lemma {:induction false} PlugRedBlack(p: Path, t: Tree)
    ensures RedBlack(Plug(p, t)) <==> RedBlack(t) && Fits(p, BlackHeight(t), IsRed(t))
  {
    if p.Step? {
      PlugRedBlack(p.up, Fill(p, t));
    }
  }

  lemma {:induction false} FitsAnyBlack(p: Path, h: nat, red: bool)
    requires Fits(p, h, red)
    ensures Fits(p, h, false)
  {
  }

  lemma {:induction false} CountInOrder(t: Tree)
    ensures |InOrder(t)| == Count(t)
  {
    if t.Bin? {
      CountInOrder(t.left);
      CountInOrder(t.right);
    }
  }

  // Rotations, as the source performs them

  function Rotate(t: Tree, dir: bool): Tree
    requires t.Bin? && t.Child(!dir).Bin?
  {
    var top := t.Child(!dir);
    top.SetChild(dir, t.SetChild(!dir, top.Child(dir)).(red := true)).(red := false)
  }

  function RotateTwice(t: Tree, dir: bool): Tree
    requires t.Bin? && t.Child(!dir).Bin? && t.Child(!dir).Child(dir).Bin?
  {
    Rotate(t.SetChild(!dir, Rotate(t.Child(!dir), !dir)), dir)
  }

  lemma RotateInOrder(t: Tree, dir: bool)
    requires t.Bin? && t.Child(!dir).Bin?
    ensures InOrder(Rotate(t, dir)) == InOrder(t)
  {
    var top := t.Child(!dir);
    var a, b, c := InOrder(t.Child(dir)), InOrder(top.Child(dir)), InOrder(top.Child(!dir));
    if dir {
      assert (c + [top.e] + b) + [t.e] + a == c + [top.e] + (b + [t.e] + a);
    } else {
      assert a + [t.e] + (b + [top.e] + c) == (a + [t.e] + b) + [top.e] + c;
    }
  }

  lemma RotateTwiceInOrder(t: Tree, dir: bool)
    requires t.Bin? && t.Child(!dir).Bin? && t.Child(!dir).Child(dir).Bin?
    ensures InOrder(RotateTwice(t, dir)) == InOrder(t)
  {
    RotateInOrder(t.Child(!dir), !dir);
    RotateInOrder(t.SetChild(!dir, Rotate(t.Child(!dir), !dir)), dir);
  }

  // Which nodes make up a tree or a path

  ghost function Nodes(t: Tree): set<Node> {
    if t.Nil? then {} else {t.n} + Nodes(t.left) + Nodes(t.right)
  }

  ghost function PathNodes(p: Path): set<Node> {
    if p.Top? then {} else {p.n} + Nodes(p.sib) + PathNodes(p.up)
  }

  /** No node occurs twice. */
  ghost predicate Distinct(t: Tree) {
    t.Bin? ==>
      && t.n !in Nodes(t.left) && t.n !in Nodes(t.right)
      && Nodes(t.left) !! Nodes(t.right)
      && Distinct(t.left) && Distinct(t.right)
  }

  ghost predicate PathDistinct(p: Path) {
    p.Step? ==>
      && p.n !in Nodes(p.sib) && p.n !in PathNodes(p.up)
      && Nodes(p.sib) !! PathNodes(p.up)
      && Distinct(p.sib) && PathDistinct(p.up)
  }

  ghost predicate AllDistinct(p: Path, t: Tree) {
    Distinct(t) && PathDistinct(p) && Nodes(t) !! PathNodes(p)
  }

  lemma RotateNodes(t: Tree, dir: bool)
    requires t.Bin? && t.Child(!dir).Bin?
    ensures Nodes(Rotate(t, dir)) == Nodes(t)
    ensures Distinct(Rotate(t, dir)) == Distinct(t)
  {
    var top := t.Child(!dir);
    var low := t.SetChild(!dir, top.Child(dir));
    assert Distinct(top) == Distinct(top);
    assert Nodes(low) == {t.n} + Nodes(t.Child(dir)) + Nodes(top.Child(dir));
    assert Nodes(t) == {t.n} + Nodes(t.Child(dir)) + {top.n} + Nodes(top.Child(dir)) + Nodes(top.Child(!dir));
  }

  lemma RotateTwiceNodes(t: Tree, dir: bool)
    requires t.Bin? && t.Child(!dir).Bin? && t.Child(!dir).Child(dir).Bin?
    ensures Nodes(RotateTwice(t, dir)) == Nodes(t)
    ensures Distinct(RotateTwice(t, dir)) == Distinct(t)
  {
    var child := Rotate(t.Child(!dir), !dir);
    RotateNodes(t.Child(!dir), !dir);
    RotateNodes(t.SetChild(!dir, child), dir);
  }

  lemma DistinctFill(p: Path, t: Tree)
    requires p.Step?
    ensures AllDistinct(p, t) <==> AllDistinct(p.up, Fill(p, t))
    ensures PathNodes(p) + Nodes(t) == PathNodes(p.up) + Nodes(Fill(p, t))
  {
  }

  lemma {:induction false} PlugDistinct(p: Path, t: Tree)
    ensures AllDistinct(p, t) <==> Distinct(Plug(p, t))
    ensures PathNodes(p) + Nodes(t) == Nodes(Plug(p, t))
  {
    if p.Step? {
      PlugDistinct(p.up, Fill(p, t));
      DistinctFill(p, t);
    }
  }
}
