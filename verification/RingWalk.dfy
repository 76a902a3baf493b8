/**
  The meaning of a lookup on the ring: walk the points clockwise from the hash of
  the key and take owners in the order in which they are first met.
 */
module RingWalk {
  import opened RedBlackShape
  import opened RedBlackTrees
  import opened Sequences

  /** The points in the order of a clockwise walk from `h`, with wrap-around. */
  function Clockwise(s: seq<Entry>, h: int): seq<Entry> {
    AtOrAbove(s, h) + Below(s, h)
  }

  function Below(s: seq<Entry>, h: int): seq<Entry> {
    if s == [] then []
    else (if s[0].val < h then [s[0]] else []) + Below(s[1..], h)
  }

  /** The owners met on a walk, each once, in order; `seen` were met before. */
  function OwnersAfter(s: seq<Entry>, seen: seq<string>): seq<string> {
    if s == [] then seen
    else OwnersAfter(s[1..], if s[0].str in seen then seen else seen + [s[0].str])
  }

  function Owners(s: seq<Entry>): seq<string> {
    OwnersAfter(s, [])
  }

  function First<T>(s: seq<T>, n: int): seq<T> {
    if n <= 0 then [] else if n >= |s| then s else s[..n]
  }

  function Labels(s: seq<Entry>): set<string> {
    set e | e in s :: e.str
  }

  lemma LabelsSplit(s: seq<Entry>)
    requires s != []
    ensures Labels(s) == {s[0].str} + Labels(s[1..])
  {
    assert s == [s[0]] + s[1..];
  }

  // Owners

  lemma {:induction false} OwnersFacts(s: seq<Entry>, seen: seq<string>)
    requires NoDuplicates(seen)
    ensures var o := OwnersAfter(s, seen);
      NoDuplicates(o) && seen <= o && Elements(o) == Elements(seen) + Labels(s)
  {
    if s != [] {
      var seen' := if s[0].str in seen then seen else seen + [s[0].str];
      assert Elements(seen') == Elements(seen) + {s[0].str};
      OwnersFacts(s[1..], seen');
      LabelsSplit(s);
    }
  }

  /** Collecting strings until there are `n` takes the first `n` owners of the walk. */
  lemma {:induction false} CollectIsFirst(s: seq<Entry>, n: int, seen: seq<string>)
    requires NoDuplicates(seen) && |seen| <= n
    ensures CollectUnique(s, n, Elements(seen)) == Elements(First(OwnersAfter(s, seen), n))
  {
    OwnersFacts(s, seen);
    ElementsSize(seen);
    var o := OwnersAfter(s, seen);
    if |seen| >= n {
      assert First(o, n) == o[..|seen|] == seen;
    } else if s != [] {
      var seen' := if s[0].str in seen then seen else seen + [s[0].str];
      ElementsExtend(seen, s[0].str);
      assert Elements(seen') == Elements(seen) + {s[0].str};
      CollectIsFirst(s[1..], n, seen');
    }
  }

  // Wrap-around

  lemma {:induction false} CollectGrows(s: seq<Entry>, n: int, found: set<string>)
    ensures found <= CollectUnique(s, n, found) <= found + Labels(s)
    ensures |CollectUnique(s, n, found)| < n ==> CollectUnique(s, n, found) == found + Labels(s)
  {
    if s == [] {
      assert Labels(s) == {};
    } else if |found| < n {
      LabelsSplit(s);
      hide Labels;
      CollectGrows(s[1..], n, found + {s[0].str});
    }
  }

  lemma {:induction false} CollectKnown(s: seq<Entry>, n: int, found: set<string>)
    requires Labels(s) <= found
    ensures CollectUnique(s, n, found) == found
  {
    if s != [] && |found| < n {
      assert s[0] in s;
      assert found + {s[0].str} == found;
      assert Labels(s[1..]) <= Labels(s);
      CollectKnown(s[1..], n, found);
    }
  }

  lemma {:induction false} SplitAt(s: seq<Entry>, h: int)
    requires Sorted(s)
    ensures s == Below(s, h) + AtOrAbove(s, h)
  {
    if s != [] {
      assert Sorted(s[1..]);
      SplitAt(s[1..], h);
      if s[0].val >= h {
        NoneBelow(s, h);
        AllAtOrAbove(s, h);
      } else {
        assert s == [s[0]] + s[1..];
      }
    }
  }

  lemma {:induction false} NoneBelow(s: seq<Entry>, h: int)
    requires forall i :: 0 <= i < |s| ==> s[i].val >= h
    ensures Below(s, h) == []
  {
    if s != [] {
      NoneBelow(s[1..], h);
    }
  }

  lemma {:induction false} AllAtOrAbove(s: seq<Entry>, h: int)
    requires forall i :: 0 <= i < |s| ==> s[i].val >= h
    ensures AtOrAbove(s, h) == s
  {
    if s != [] {
      AllAtOrAbove(s[1..], h);
      assert s == [s[0]] + s[1..];
    }
  }

  /** Looking from `h`, and again from 0 if that was not enough, is one clockwise walk. */
  lemma TwoPasses(s: seq<Entry>, h: int, n: int)
    requires Sorted(s) && forall i :: 0 <= i < |s| ==> s[i].val >= 0
    ensures var first := CollectUnique(AtOrAbove(s, h), n, {});
      var both := if |first| < n then CollectUnique(AtOrAbove(s, 0), n, first) else first;
      both == CollectUnique(Clockwise(s, h), n, {})
  {
    var up, low := AtOrAbove(s, h), Below(s, h);
    var first := CollectUnique(up, n, {});
    CollectConcat(up, low, n, {});
    AllAtOrAbove(s, 0);
    SplitAt(s, h);
    CollectGrows(up, n, {});
    if |first| < n {
      CollectConcat(low, up, n, first);
      CollectGrows(low, n, first);
      CollectKnown(up, n, CollectUnique(low, n, first));
    }
  }

  // Taking one owner out

  function Without(s: seq<Entry>, x: string): seq<Entry> {
    if s == [] then [] else (if s[0].str != x then [s[0]] else []) + Without(s[1..], x)
  }

  function Omit(o: seq<string>, x: string): seq<string> {
    if o == [] then [] else Omit(o[..|o| - 1], x) + if o[|o| - 1] != x then [o[|o| - 1]] else []
  }

  lemma {:induction false} OmitMember(o: seq<string>, x: string, y: string)
    ensures y in Omit(o, x) <==> y in o && y != x
  {
    if o != [] {
      OmitMember(o[..|o| - 1], x, y);
      assert o == o[..|o| - 1] + [o[|o| - 1]];
    }
  }

  lemma {:induction false} OwnersWithout(s: seq<Entry>, seen: seq<string>, x: string)
    ensures OwnersAfter(Without(s, x), Omit(seen, x)) == Omit(OwnersAfter(s, seen), x)
  {
    if s != [] {
      var y := s[0].str;
      var seen' := if y in seen then seen else seen + [y];
      OwnersWithout(s[1..], seen', x);
      assert (seen + [y])[..|seen|] == seen;
      OmitMember(seen, x, y);
      if y != x {
        assert Without(s, x)[0] == s[0] && Without(s, x)[1..] == Without(s[1..], x);
      } else {
        assert Without(s, x) == Without(s[1..], x);
        assert Omit(seen', x) == Omit(seen, x);
      }
    }
  }

  lemma {:induction false} WithoutConcat(a: seq<Entry>, b: seq<Entry>, x: string)
    ensures Without(a + b, x) == Without(a, x) + Without(b, x)
  {
    if a == [] {
      assert a + b == b;
    } else {
      assert (a + b)[1..] == a[1..] + b && (a + b)[0] == a[0];
      WithoutConcat(a[1..], b, x);
      ConcatAssoc(if a[0].str != x then [a[0]] else [], Without(a[1..], x), Without(b, x));
    }
  }

  lemma {:induction false} BelowConcat(a: seq<Entry>, b: seq<Entry>, h: int)
    ensures Below(a + b, h) == Below(a, h) + Below(b, h)
  {
    if a == [] {
      assert a + b == b;
    } else {
      assert (a + b)[1..] == a[1..] + b && (a + b)[0] == a[0];
      BelowConcat(a[1..], b, h);
      ConcatAssoc(if a[0].val < h then [a[0]] else [], Below(a[1..], h), Below(b, h));
    }
  }

  lemma {:induction false} WithoutHalves(s: seq<Entry>, h: int, x: string)
    ensures AtOrAbove(Without(s, x), h) == Without(AtOrAbove(s, h), x)
    ensures Below(Without(s, x), h) == Without(Below(s, h), x)
  {
    if s != [] {
      var e, r := [s[0]], s[1..];
      assert s == e + r;
      WithoutHalves(r, h, x);
      assert AtOrAbove(Without(e, x), h) == Without(AtOrAbove(e, h), x);
      assert Below(Without(e, x), h) == Without(Below(e, h), x);
      WithoutConcat(e, r, x);
      AtOrAboveConcat(e, r, h);
      AtOrAboveConcat(Without(e, x), Without(r, x), h);
      WithoutConcat(AtOrAbove(e, h), AtOrAbove(r, h), x);
      BelowConcat(e, r, h);
      BelowConcat(Without(e, x), Without(r, x), h);
      WithoutConcat(Below(e, h), Below(r, h), x);
    }
  }

  lemma ClockwiseWithout(s: seq<Entry>, h: int, x: string)
    ensures Clockwise(Without(s, x), h) == Without(Clockwise(s, h), x)
  {
    WithoutHalves(s, h, x);
    WithoutConcat(AtOrAbove(s, h), Below(s, h), x);
  }

  lemma {:induction false} OmitNone(o: seq<string>, x: string)
    requires x !in o
    ensures Omit(o, x) == o
  {
    if o != [] {
      OmitNone(o[..|o| - 1], x);
    }
  }

  lemma {:induction false} OmitAt(o: seq<string>, i: nat)
    requires NoDuplicates(o) && i < |o|
    ensures Omit(o, o[i]) == o[..i] + o[i + 1..]
  {
    var k := |o| - 1;
    if i == k {
      OmitNone(o[..k], o[k]);
    } else {
      OmitAt(o[..k], i);
      CutShorter(o, i);
    }
  }

  lemma CutShorter(o: seq<string>, i: nat)
    requires i < |o| - 1
    ensures var r := o[..|o| - 1]; r[..i] + r[i + 1..] + [o[|o| - 1]] == o[..i] + o[i + 1..]
  {
  }

  /** Leaving out one owner shifts at most one other owner in. */
  lemma FirstOmit(o: seq<string>, x: string, n: int)
    requires NoDuplicates(o)
    ensures Elements(First(o, n)) <= Elements(First(Omit(o, x), n)) + {x}
    ensures x !in First(o, n) ==> First(Omit(o, x), n) == First(o, n)
  {
    hide NoDuplicates, Omit;
    if x in o {
      var i :| 0 <= i < |o| && o[i] == x;
      OmitAt(o, i);
      FirstCut(o, i, n);
    } else {
      OmitNone(o, x);
    }
  }

  lemma FirstCut(o: seq<string>, i: nat, n: int)
    requires i < |o|
    ensures var p := o[..i] + o[i + 1..];
      && Elements(First(o, n)) <= Elements(First(p, n)) + {o[i]}
      && (o[i] !in First(o, n) ==> First(p, n) == First(o, n))
  {
    var p := o[..i] + o[i + 1..];
    if 0 < n <= i {
      assert First(p, n) == o[..n];
    } else if n > i {
      assert First(o, n)[i] == o[i];
      var m := |First(o, n)|;
      assert First(o, n) == o[..i] + [o[i]] + o[i + 1..m];
      assert p[..m - 1] == o[..i] + o[i + 1..m];
      assert First(p, n)[..m - 1] == p[..m - 1];
      assert forall y :: y in p[..m - 1] ==> y in First(p, n);
    }
  }

  /** Minimal disruption: with the points of `x` gone, a lookup keeps its other owners, and
      is the same if `x` was not among them. */
  lemma Disruption(s: seq<Entry>, h: int, n: int, x: string)
    ensures var with, without := Owners(Clockwise(s, h)), Owners(Clockwise(Without(s, x), h));
      && Elements(First(with, n)) <= Elements(First(without, n)) + {x}
      && (x !in First(with, n) ==> First(without, n) == First(with, n))
  {
    ClockwiseWithout(s, h, x);
    OwnersWithout(Clockwise(s, h), [], x);
    OwnersFacts(Clockwise(s, h), []);
    FirstOmit(Owners(Clockwise(s, h)), x, n);
  }
}
