/**
  The index of the hash ring: a red-black tree from points to strings.
 */
module RedBlackTrees {
  import opened RedBlackShape
  import opened RedBlackHeap
  import opened RedBlackInsert
  import opened RedBlackPasses
  import Cut = RedBlackDelete

  // Lookups

  /** The entries at or above `val`, in order. */
  function AtOrAbove(s: seq<Entry>, val: int): seq<Entry> {
    if s == [] then []
    else (if s[0].val >= val then [s[0]] else []) + AtOrAbove(s[1..], val)
  }

  /** Add the strings of `s` to `found`, in order, until there are `n`. */
  function CollectUnique(s: seq<Entry>, n: int, found: set<string>): set<string> {
    if s == [] || |found| >= n then found else CollectUnique(s[1..], n, found + {s[0].str})
  }

  lemma {:induction false} AtOrAboveConcat(a: seq<Entry>, b: seq<Entry>, val: int)
    ensures AtOrAbove(a + b, val) == AtOrAbove(a, val) + AtOrAbove(b, val)
  {
    if a == [] {
      assert a + b == b;
    } else {
      assert (a + b)[1..] == a[1..] + b && (a + b)[0] == a[0];
      AtOrAboveConcat(a[1..], b, val);
      ConcatAssoc(if a[0].val >= val then [a[0]] else [], AtOrAbove(a[1..], val), AtOrAbove(b, val));
    }
  }

  lemma ConcatAssoc(x: seq<Entry>, y: seq<Entry>, z: seq<Entry>)
    ensures x + (y + z) == (x + y) + z
  {
  }

  lemma {:induction false} AtOrAboveNone(s: seq<Entry>, val: int)
    requires AllBelow(s, val)
    ensures AtOrAbove(s, val) == []
  {
    if s != [] {
      AtOrAboveNone(s[1..], val);
    }
  }

  lemma {:induction false} CollectConcat(a: seq<Entry>, b: seq<Entry>, n: int, found: set<string>)
    ensures CollectUnique(a + b, n, found) == CollectUnique(b, n, CollectUnique(a, n, found))
  {
    if a == [] {
      assert a + b == b;
    } else if |found| < n {
      assert (a + b)[1..] == a[1..] + b;
      CollectConcat(a[1..], b, n, found + {a[0].str});
    }
  }

  lemma AtOrAboveOne(e: Entry, val: int)
    ensures AtOrAbove([e], val) == if e.val >= val then [e] else []
  {
    assert AtOrAbove([e], val) == (if e.val >= val then [e] else []) + AtOrAbove([], val);
  }

  lemma AtOrAboveNode(t: Tree, val: int)
    requires t.Bin? && Sorted(InOrder(t))
    ensures AtOrAbove(InOrder(t), val) ==
            AtOrAbove(InOrder(t.left), val) + (if t.e.val >= val then [t.e] else []) + AtOrAbove(InOrder(t.right), val)
    ensures t.e.val < val ==> AtOrAbove(InOrder(t.left), val) == []
    ensures Sorted(InOrder(t.left)) && Sorted(InOrder(t.right))
  {
    hide AtOrAbove, Sorted, AllBelow, AllAbove;
    var l, r := InOrder(t.left), InOrder(t.right);
    AtOrAboveConcat(l + [t.e], r, val);
    AtOrAboveConcat(l, [t.e], val);
    AtOrAboveOne(t.e, val);
    SortedParts(l, t.e, r);
    if t.e.val < val {
      AtOrAboveNone(l, val);
    }
  }

  /** Recursive search that skips left subtrees below `val` and stops at `n` strings. */
  method FindNUniqueAbove(node: Node?, n: int, val: int, found: set<string>,
                          ghost t: Tree) returns (result: set<string>)
    requires Stored(t) && RootOf(t) == node && Sorted(InOrder(t))
    ensures result == CollectUnique(AtOrAbove(InOrder(t), val), n, found)
    decreases t
  {
    result := found;
    if |result| >= n || node == null {
      return;
    }
    AtOrAboveNode(t, val);
    ghost var a, b := AtOrAbove(InOrder(t.left), val), if t.e.val >= val then [t.e] else [];
    ghost var c := AtOrAbove(InOrder(t.right), val);
    CollectConcat(a + b, c, n, found);
    CollectConcat(a, b, n, found);
    NodesAllocated(t.right);
    if node.val >= val {
      result := FindNUniqueAbove(node.left, n, val, result, t.left);
    }
    if |result| >= n {
      return;
    }
    if node.val >= val {
      result := result + {node.str};
    }
    result := FindNUniqueAbove(node.right, n, val, result, t.right);
  }

  /** Binary search below a node. */
  function SearchFrom(node: Node, val: int, ghost t: Tree): (r: (string, bool))
    requires Stored(t) && RootOf(t) == node && Sorted(InOrder(t))
    reads Nodes(t)
    ensures r.1 <==> val in MapOf(InOrder(t))
    ensures r.0 == if r.1 then MapOf(InOrder(t))[val] else ""
    decreases t
  {
    SearchSplit(t, val);
    hide MapOf, Sorted, InOrder;
    if node.val == val then (node.str, true)
    else if val < node.val then
      (if node.left != null then SearchFrom(node.left, val, t.left) else ("", false))
    else
      (if node.right != null then SearchFrom(node.right, val, t.right) else ("", false))
  }

  ghost predicate SameAt(m: map<int, string>, m': map<int, string>, k: int) {
    (k in m <==> k in m') && (k in m ==> m[k] == m'[k])
  }

  /** A key can only be on its own side of a node. */
  lemma SearchSplit(t: Tree, val: int)
    requires t.Bin? && Sorted(InOrder(t))
    ensures Sorted(InOrder(t.left)) && Sorted(InOrder(t.right))
    ensures val == t.e.val ==> val in MapOf(InOrder(t)) && MapOf(InOrder(t))[val] == t.e.str
    ensures t.left.Nil? ==> val !in MapOf(InOrder(t.left))
    ensures t.right.Nil? ==> val !in MapOf(InOrder(t.right))
    ensures val < t.e.val ==> SameAt(MapOf(InOrder(t)), MapOf(InOrder(t.left)), val)
    ensures val > t.e.val ==> SameAt(MapOf(InOrder(t)), MapOf(InOrder(t.right)), val)
  {
    var l, r := InOrder(t.left), InOrder(t.right);
    SortedParts(l, t.e, r);
    MapOfKeys(l, val);
    MapOfKeys(r, val);
    hide MapOf, Sorted;
    MapOfConcat(l + [t.e], r);
    MapOfConcat(l, [t.e]);
    MapOfSingle(t.e);
  }

  /** The last act of both operations. */
  method BlackenRoot(root: Node, ghost t: Tree)
    requires Stored(t) && Distinct(t) && RootOf(t) == root
    modifies root
    ensures Stored(t.(red := false))
  {
    root.red := false;
    assert Stored(t.left) && Stored(t.right);
  }

  lemma BlackenKeeps(t: Tree)
    requires t.Bin?
    ensures var t' := t.(red := false);
      && InOrder(t') == InOrder(t) && Count(t') == Count(t)
      && Nodes(t') == Nodes(t) && Distinct(t') == Distinct(t) && (RedBlack(t) ==> RedBlack(t'))
  {
  }

  ghost predicate Holds(root: Node?, t: Tree)
    reads Nodes(t)
  {
    root == RootOf(t) && Stored(t) && Distinct(t)
  }

  /** A red-black tree with a black root, in strict search order. */
  ghost predicate WellFormed(t: Tree) {
    RedBlack(t) && !IsRed(t) && Sorted(InOrder(t))
  }

  method InsertInto(root: Node?, val: int, str: string, ghost t: Tree) returns (top: Node, ret: bool, ghost t': Tree)
    requires Holds(root, t) && WellFormed(t)
    modifies Nodes(t)
    ensures Holds(top, t') && WellFormed(t')
    ensures forall n | n in Nodes(t') :: n in Nodes(t) || fresh(n)
    ensures ret == !Occurs(InOrder(t), val)
    ensures ret ==> Inserted(InOrder(t), Entry(val, str), InOrder(t'))
    ensures !ret ==> InOrder(t') == InOrder(t)
  {
    if root == null {
      top := new Node(val, str, false);
      ret, t' := true, Bin(top, false, Entry(val, str), Nil, Nil);
      var e := Entry(val, str);
      assert InOrder(t') == [e] && [e] == InOrder(t)[..0] + [e] + InOrder(t)[0..];
      assert Nodes(t') == {top} + Nodes(t'.left) + Nodes(t'.right);
    } else {
      NodesAllocated(t);
      var head := new Node(0, "", false);
      head.right := root;
      assert AtPosition(Top, t, head);
      ret, t' := InsertPass(head, val, str, t);
      top := head.right;
    }
    assert top in Nodes(t) || fresh(top) by {
      assert top in Nodes(t');
      assert top in Nodes(t) || top in Nodes(t') - Nodes(t);
    }
    hide InOrder, Sorted, Nodes, Distinct, Inserted;
    BlackenKeeps(t');
    BlackenRoot(top, t');
    t' := t'.(red := false);
  }

  method DeleteFrom(root: Node?, val: int, ghost t: Tree) returns (top: Node?, ret: bool, ghost t': Tree)
    requires Holds(root, t) && WellFormed(t)
    modifies Nodes(t)
    ensures Holds(top, t') && WellFormed(t') && Nodes(t') <= Nodes(t)
    ensures ret == Occurs(InOrder(t), val)
    ensures ret ==> Cut.Removed(InOrder(t), val, InOrder(t'))
    ensures !ret ==> InOrder(t') == InOrder(t)
  {
    if root == null {
      return null, false, t;
    }
    NodesAllocated(t);
    var head := new Node(0, "", true);
    head.right := root;
    assert AtPosition(Top, t, head);
    ret, t' := DeletePass(head, val, t);
    if ret {
      Cut.RemovedMap(InOrder(t), val, InOrder(t'));
    }
    top := head.right;
    hide InOrder, Sorted, Nodes, Distinct, MapOf;
    if top != null {
      BlackenKeeps(t');
      BlackenRoot(top, t');
      t' := t'.(red := false);
    }
  }

  class RedBlackTree {
    var root: Node?
    var size: int
    ghost var tree: Tree

    /** The heap holds a red-black tree with a black root, in strict search order, whose
        node count is `size`. */
    ghost predicate Valid()
      reads this, Nodes(tree)
    {
      Holds(root, tree) && WellFormed(tree) && size == Count(tree)
    }

    ghost function Points(): seq<Entry>
      reads this
    {
      InOrder(tree)
    }

    ghost function Contents(): map<int, string>
      reads this
    {
      MapOf(InOrder(tree))
    }

    constructor ()
      ensures Valid() && Points() == [] && Contents() == map[] && Nodes(tree) == {}
    {
      root, size := null, 0;
      tree := Nil;
    }

    /** A taken point is left alone, whatever was rewritten on the way down. */
    method Insert(val: int, str: string) returns (ret: bool)
      requires Valid()
      modifies this, Nodes(tree)
      ensures Valid()
      ensures forall n | n in Nodes(tree) :: n in old(Nodes(tree)) || fresh(n)
      ensures ret == (val !in old(Contents()))
      ensures Contents() == if ret then old(Contents())[val := str] else old(Contents())
      ensures size == old(size) + if ret then 1 else 0
    {
      ghost var t, s := tree, InOrder(tree);
      MapOfKeys(s, val);
      CountInOrder(t);
      hide MapOf, Holds, RedBlack, Nodes, InOrder, Sorted;
      root, ret, tree := InsertInto(root, val, str, t);
      CountInOrder(tree);
      if ret {
        InsertedMap(s, Entry(val, str), InOrder(tree));
        size := size + 1;
      }
    }

    /** An absent key leaves the contents alone, whatever was rewritten on the way down. */
    method Delete(val: int) returns (ret: bool)
      requires Valid()
      modifies this, Nodes(tree)
      ensures Valid() && Nodes(tree) <= old(Nodes(tree))
      ensures ret == (val in old(Contents()))
      ensures Contents() == old(Contents()) - {val}
      ensures size == old(size) - if ret then 1 else 0
    {
      ghost var t, s := tree, InOrder(tree);
      MapOfKeys(s, val);
      CountInOrder(t);
      hide MapOf, Holds, RedBlack, Nodes, InOrder, Sorted;
      root, ret, tree := DeleteFrom(root, val, t);
      CountInOrder(tree);
      if ret {
        Cut.RemovedMap(s, val, InOrder(tree));
        size := size - 1;
      }
    }

    method Search(val: int) returns (str: string, ok: bool)
      requires Valid()
      ensures ok == (val in Contents())
      ensures str == if ok then Contents()[val] else ""
    {
      if root == null {
        return "", false;
      }
      var r := SearchFrom(root, val, tree);
      return r.0, r.1;
    }

    method LookupNUniqueAt(n: int, val: int, found: set<string>) returns (result: set<string>)
      requires Valid()
      ensures result == CollectUnique(AtOrAbove(Points(), val), n, found)
    {
      result := FindNUniqueAbove(root, n, val, found, tree);
    }
  }
}
