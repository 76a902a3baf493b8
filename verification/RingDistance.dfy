/**
  Consistent hashing without a walk: the owners of a key are the servers that are nearest to
  its hash, measured clockwise around the circle of 32-bit hashes.
 */
module RingDistance {
  import opened RedBlackShape
  import opened RedBlackTrees
  import opened RingWalk
  import opened Sequences
  import opened RingPoints
  import opened RingGuarantees

  const Circle := 0x1_0000_0000

  /** How far it is clockwise from one place to another. */
  function Distance(from: int, to: int): int {
    if to >= from then to - from else to - from + Circle
  }

  /** Some point of `y` comes before all points of `x`. */
  ghost predicate Nearer(points: seq<Entry>, h: int, y: string, x: string) {
    exists e :: e in points && e.str == y && ComesBefore(points, h, e, x)
  }

  ghost predicate ComesBefore(points: seq<Entry>, h: int, e: Entry, x: string) {
    forall d :: d in points && d.str == x ==> Distance(h, e.val) < Distance(h, d.val)
  }

  ghost function NearerThan(points: seq<Entry>, h: int, x: string): set<string> {
    set y | y in Labels(points) && Nearer(points, h, y, x)
  }

  ghost predicate OnCircle(points: seq<Entry>) {
    forall e :: e in points ==> 0 <= e.val < Circle
  }

  // The walk goes from near to far

  lemma {:induction false} HalvesBounds(s: seq<Entry>, h: int)
    ensures forall e :: e in AtOrAbove(s, h) ==> e in s && e.val >= h
    ensures forall e :: e in Below(s, h) ==> e in s && e.val < h
  {
    if s != [] {
      HalvesBounds(s[1..], h);
      assert s == [s[0]] + s[1..];
    }
  }

  ghost predicate GoesFar(w: seq<Entry>, h: int) {
    forall i, j :: 0 <= i < j < |w| ==> Distance(h, w[i].val) < Distance(h, w[j].val)
  }

  lemma WalkGoesFar(s: seq<Entry>, h: int)
    requires Sorted(s) && OnCircle(s) && 0 <= h < Circle
    ensures GoesFar(Clockwise(s, h), h)
  {
    var up, low := AtOrAbove(s, h), Below(s, h);
    SplitAt(s, h);
    HalvesBounds(s, h);
    hide AtOrAbove, Below;
    assert forall i :: 0 <= i < |up| ==> up[i] in up;
    assert forall i :: 0 <= i < |low| ==> low[i] in low;
    HalvesGoFar(up, low, h);
  }

  lemma HalvesGoFar(up: seq<Entry>, low: seq<Entry>, h: int)
    requires forall i :: 0 <= i < |up| ==> h <= up[i].val < Circle
    requires forall i :: 0 <= i < |low| ==> 0 <= low[i].val < h
    requires Sorted(low + up)
    ensures GoesFar(up + low, h)
  {
    var s := low + up;
    assert forall i :: 0 <= i < |up| ==> s[|low| + i] == up[i];
    assert forall i, j :: 0 <= i < j < |up| ==> up[i].val < up[j].val by {
      forall i, j | 0 <= i < j < |up| ensures up[i].val < up[j].val {
        assert s[|low| + i].val < s[|low| + j].val;
      }
    }
    assert forall i, j :: 0 <= i < j < |low| ==> low[i].val < low[j].val by {
      forall i, j | 0 <= i < j < |low| ensures low[i].val < low[j].val {
        assert s[i].val < s[j].val;
      }
    }
  }

  lemma WalkSame(s: seq<Entry>, h: int)
    requires Sorted(s)
    ensures forall e :: e in Clockwise(s, h) <==> e in s
  {
    SplitAt(s, h);
    var a, b := AtOrAbove(s, h), Below(s, h);
    hide AtOrAbove, Below;
    assert forall e :: e in a + b <==> e in b + a;
  }

  // Owners before the first point of a server

  lemma {:induction false} OwnersConcat(a: seq<Entry>, b: seq<Entry>, seen: seq<string>)
    ensures OwnersAfter(a + b, seen) == OwnersAfter(b, OwnersAfter(a, seen))
  {
    if a == [] {
      assert a + b == b;
    } else {
      assert (a + b)[0] == a[0] && (a + b)[1..] == a[1..] + b;
      OwnersConcat(a[1..], b, if a[0].str in seen then seen else seen + [a[0].str]);
    }
  }

  /** The owners that the walk meets before the first point of `x` come first, and `x` next. */
  lemma OwnersUpTo(w: seq<Entry>, i: nat, n: int)
    requires i < |w| && w[i].str !in Labels(w[..i])
    ensures w[i].str in First(Owners(w), n) <==> |Labels(w[..i])| < n
  {
    var x, a := w[i].str, w[..i];
    var before := Owners(a);
    OwnersFacts(a, []);
    ElementsSize(before);
    assert Elements(before) == Labels(a);
    assert w == a + w[i..] && w[i..] == [w[i]] + w[i + 1..];
    OwnersConcat(a, w[i..], []);
    assert x !in before;
    assert w[i..][1..] == w[i + 1..];
    OwnersFacts(w[i + 1..], before + [x]);
    var o := Owners(w);
    assert o == OwnersAfter(w[i + 1..], before + [x]) && before + [x] <= o;
    IndexIn(o, |before|, n);
  }

  lemma IndexIn(o: seq<string>, k: nat, n: int)
    requires k < |o| && NoDuplicates(o)
    ensures o[k] in First(o, n) <==> k < n
  {
    if k < n {
      assert First(o, n)[k] == o[k];
    }
  }

  lemma {:induction false} FirstPointOf(w: seq<Entry>, x: string) returns (i: nat)
    requires x in Labels(w)
    ensures i < |w| && w[i].str == x && x !in Labels(w[..i])
  {
    i := 0;
    while w[i].str != x
      invariant i < |w| && x !in Labels(w[..i])
      decreases |w| - i
    {
      assert w[..i + 1] == w[..i] + [w[i]];
      assert x !in Labels(w[..i + 1]) && w[..|w|] == w;
      i := i + 1;
    }
  }

  /** Entry `i` is the first of its label. */
  ghost predicate FirstOfLabel(points: seq<Entry>, w: seq<Entry>, h: int, i: nat) {
    GoesFar(w, h) && (forall e :: e in w <==> e in points) && i < |w| && w[i].str !in Labels(w[..i])
  }

  lemma EarlierIsNearer(points: seq<Entry>, w: seq<Entry>, h: int, i: nat, k: nat)
    requires FirstOfLabel(points, w, h, i) && k < i
    ensures w[k].str in NearerThan(points, h, w[i].str)
  {
    var x, e := w[i].str, w[k];
    assert e in w;
    assert forall j :: 0 <= j < i ==> w[j] in w[..i];
    forall d | d in points && d.str == x ensures Distance(h, e.val) < Distance(h, d.val) {
      var j :| 0 <= j < |w| && w[j] == d;
    }
    assert ComesBefore(points, h, e, x);
  }

  lemma NearerIsEarlier(points: seq<Entry>, w: seq<Entry>, h: int, i: nat, y: string)
    requires FirstOfLabel(points, w, h, i) && y in NearerThan(points, h, w[i].str)
    ensures y in Labels(w[..i])
  {
    var e :| e in points && e.str == y && ComesBefore(points, h, e, w[i].str);
    var k :| 0 <= k < |w| && w[k] == e;
    assert w[i] in points;
    assert w[..i][k] == e;
  }

  lemma NearerAreEarlier(points: seq<Entry>, w: seq<Entry>, h: int, i: nat)
    requires FirstOfLabel(points, w, h, i)
    ensures NearerThan(points, h, w[i].str) == Labels(w[..i])
  {
    hide FirstOfLabel, NearerThan;
    assert i < |w| by {
      AtFirst(points, w, h, i);
    }
    forall y | y in Labels(w[..i]) ensures y in NearerThan(points, h, w[i].str) {
      var k :| 0 <= k < i && w[..i][k].str == y;
      EarlierIsNearer(points, w, h, i, k);
    }
    forall y | y in NearerThan(points, h, w[i].str) ensures y in Labels(w[..i]) {
      NearerIsEarlier(points, w, h, i, y);
    }
  }

  lemma AtFirst(points: seq<Entry>, w: seq<Entry>, h: int, i: nat)
    requires FirstOfLabel(points, w, h, i)
    ensures i < |w|
  {
  }

  /** Consistent hashing: a server is among the first `n` owners of a key exactly if fewer than `n` others have a
      point nearer to the hash of the key than all of its own. */
  lemma OwnersAreNearest(points: seq<Entry>, h: int, n: int, x: string)
    requires Sorted(points) && OnCircle(points) && 0 <= h < Circle && x in Labels(points)
    ensures x in FirstOwners(points, h, n) <==> |NearerThan(points, h, x)| < n
  {
    var w := Clockwise(points, h);
    WalkGoesFar(points, h);
    WalkSame(points, h);
    ClockwiseLabels(points, h);
    hide Clockwise, Owners, Labels, Sorted, NearerThan;
    var i := FirstPointOf(w, x);
    NearerAreEarlier(points, w, h, i);
    OwnersUpTo(w, i, n);
  }

  // On a ring

  /** Some replica of `y` comes before all replicas of `x`. */
  ghost predicate Closer(c: Setup, h: int, y: string, x: string) {
    exists p :: p in PointsOf(c, y) && LeadsTo(c, h, p, x)
  }

  ghost predicate LeadsTo(c: Setup, h: int, p: int, x: string) {
    forall q :: q in PointsOf(c, x) ==> Distance(h, p) < Distance(h, q)
  }

  lemma {:induction false} IndexEntries(s: seq<Entry>, e: Entry)
    requires Sorted(s)
    ensures e in s <==> e.val in MapOf(s) && MapOf(s)[e.val] == e.str
  {
    if s != [] {
      HeadSplit(s);
      IndexEntries(s[1..], e);
      assert s == [s[0]] + s[1..];
    }
  }

  /** On a ring with exact points the entries are the replicas. */
  lemma ExactEntries(c: Setup, r: Ring, points: seq<Entry>, e: Entry)
    requires Indexes(points, r) && Exact(c, r)
    ensures e in points <==> e.str in r.servers && e.val in PointsOf(c, e.str)
  {
    hide PointsOf;
    IndexEntries(points, e);
  }

  lemma CloserIsNearer(c: Setup, r: Ring, points: seq<Entry>, h: int, y: string, x: string)
    requires Indexes(points, r) && Exact(c, r) && x in r.servers && y in r.servers
    ensures Closer(c, h, y, x) <==> Nearer(points, h, y, x)
  {
    hide PointsOf, Exact, Indexes, Distance;
    forall e ensures e in points <==> e.str in r.servers && e.val in PointsOf(c, e.str) {
      ExactEntries(c, r, points, e);
    }
    if p :| p in PointsOf(c, y) && LeadsTo(c, h, p, x) {
      var e := Entry(p, y);
      assert e in points && ComesBefore(points, h, e, x);
    }
    if e :| e in points && e.str == y && ComesBefore(points, h, e, x) {
      forall q | q in PointsOf(c, x) ensures Distance(h, e.val) < Distance(h, q) {
        assert Entry(q, x) in points;
      }
      assert LeadsTo(c, h, e.val, x);
    }
  }

  lemma ExactOnCircle(c: Setup, r: Ring, points: seq<Entry>)
    requires Indexes(points, r) && Exact(c, r)
    ensures OnCircle(points)
  {
    forall e | e in points ensures 0 <= e.val < Circle {
      ExactEntries(c, r, points, e);
      var i :| 0 <= i < c.replicas && e.val == Point(c, e.str, i);
    }
  }

  /** Consistent hashing, after every history of a ring with distinct replica points: a lookup of `n` servers finds a
      server exactly if fewer than `n` others have a replica closer to the key than all of its own. Neither the
      tree nor the history has a part in it. */
  lemma LookupIsNearest(c: Setup, ops: seq<Op>, points: seq<Entry>, h: uint32, n: int, x: string)
    requires DistinctPoints(c, NamedIn(ops)) && Indexes(points, Run(c, ops)) && c.replicas >= 1
    ensures var servers := Run(c, ops).servers;
      x in LookupSet(points, servers, h, n) <==>
        x in servers && |set y | y in servers && Closer(c, h, y, x)| < n
  {
    var r := Run(c, ops);
    RunAgrees(c, ops, NamedIn(ops));
    hide Run, DistinctPoints, Exact, Indexes, LookupSet, FirstOwners, Closer, PointsOf;
    RingLookupIsNearest(c, r, points, h, n, x);
  }

  lemma RingLookupIsNearest(c: Setup, r: Ring, points: seq<Entry>, h: uint32, n: int, x: string)
    requires Exact(c, r) && Indexes(points, r) && c.replicas >= 1
    ensures x in LookupSet(points, r.servers, h, n) <==>
      x in r.servers && |set y | y in r.servers && Closer(c, h, y, x)| < n
  {
    ExactLabels(c, r, points);
    ExactOnCircle(c, r, points);
    assert Sorted(points);
    LookupIsWalk(points, r.servers, h, n);
    hide Exact, Indexes, LookupSet, Closer, PointsOf, Sorted, OnCircle;
    if x in r.servers {
      OwnersAreNearest(points, h, n, x);
      CloserServers(c, r, points, h, x);
    } else {
      OwnersLabelled(points, h, n, x);
    }
  }

  lemma CloserServers(c: Setup, r: Ring, points: seq<Entry>, h: int, x: string)
    requires Indexes(points, r) && Exact(c, r) && x in r.servers && Labels(points) == r.servers
    ensures NearerThan(points, h, x) == set y | y in r.servers && Closer(c, h, y, x)
  {
    hide Exact, Indexes, Closer, Nearer;
    forall y | y in r.servers ensures Closer(c, h, y, x) <==> Nearer(points, h, y, x) {
      CloserIsNearer(c, r, points, h, y, x);
    }
  }

  lemma OwnersLabelled(points: seq<Entry>, h: int, n: int, x: string)
    requires Sorted(points) && x !in Labels(points)
    ensures x !in FirstOwners(points, h, n)
  {
    OwnersFacts(Clockwise(points, h), []);
    ClockwiseLabels(points, h);
    var o := Owners(Clockwise(points, h));
    hide Clockwise, Owners;
    assert forall y :: y in o ==> y in Elements(o);
  }
}
