/**
  What the ring promises over whole histories of server changes: points agree with
  the server set, history does not matter, and lookups move as little as possible.
 */
module RingGuarantees {
  import opened RedBlackShape
  import opened RedBlackTrees
  import opened RingWalk
  import opened Sequences
  import opened RingPoints
  import opened Texts

  datatype Op =
    | Add(server: string)
    | Remove(server: string)
    | AddRemove(add: seq<string>, remove: seq<string>)

  ghost function Apply(c: Setup, r: Ring, op: Op): Ring {
    match op
    case Add(s) => Batched(c, r, [s], [])
    case Remove(s) => Batched(c, r, [], [s])
    case AddRemove(add, remove) => Batched(c, r, add, remove)
  }

  ghost function Run(c: Setup, ops: seq<Op>): Ring {
    if ops == [] then EmptyRing else Apply(c, Run(c, ops[..|ops| - 1]), ops[|ops| - 1])
  }

  ghost function Named(op: Op): set<string> {
    match op
    case Add(s) => {s}
    case Remove(s) => {s}
    case AddRemove(add, remove) => Elements(add) + Elements(remove)
  }

  ghost function NamedIn(ops: seq<Op>): set<string> {
    if ops == [] then {} else NamedIn(ops[..|ops| - 1]) + Named(ops[|ops| - 1])
  }

  lemma SingleBatches(c: Setup, r: Ring, s: string)
    ensures BatchChanges(c, r, [s], []) == (s !in r.servers) && BatchChanges(c, r, [], [s]) == (s in r.servers)
    ensures RemovedAll(c, AddedAll(c, r, [s]), []) == Added(c, r, s)
    ensures RemovedAll(c, AddedAll(c, r, []), [s]) == Removed(c, r, s)
  {
    assert [s][..0] == [];
    assert AddedAll(c, r, []) == r && RemovedAll(c, r, []) == r;
    assert AddChanges(c, r, [s]) == (AddChanges(c, r, []) || s !in r.servers);
    assert RemoveChanges(c, r, [s]) == (RemoveChanges(c, r, []) || s in r.servers);
    hide Added, Removed;
    assert AddedAll(c, r, [s]) == Added(c, r, s);
    assert RemovedAll(c, r, [s]) == Removed(c, r, s);
  }

  // Agreement over every run

  lemma {:induction false} AddedAllAgrees(c: Setup, r: Ring, add: seq<string>, u: set<string>)
    requires r.servers <= u && Elements(add) <= u
    ensures var r' := AddedAll(c, r, add);
      && r'.servers == r.servers + Elements(add) && r'.checksum == r.checksum
      && (NoStaleOwner(c, r) ==> NoStaleOwner(c, r'))
      && (Exact(c, r) && DistinctPoints(c, u) ==> Exact(c, r'))
      && (!AddChanges(c, r, add) ==> r' == r)
  {
    if add != [] {
      var rest, s := add[..|add| - 1], add[|add| - 1];
      assert add == rest + [s];
      ElementsExtend(rest, s);
      AddedAllAgrees(c, r, rest, u);
      hide NoStaleOwner, Exact, PointsOf;
      AddedAgrees(c, AddedAll(c, r, rest), s);
    }
  }

  lemma {:induction false} RemovedAllAgrees(c: Setup, r: Ring, remove: seq<string>, u: set<string>)
    requires r.servers <= u && Elements(remove) <= u
    ensures var r' := RemovedAll(c, r, remove);
      && r'.servers == r.servers - Elements(remove) && r'.checksum == r.checksum
      && (NoStaleOwner(c, r) ==> NoStaleOwner(c, r'))
      && (Exact(c, r) && DistinctPoints(c, u) ==> Exact(c, r'))
      && (!RemoveChanges(c, r, remove) ==> r' == r)
  {
    if remove != [] {
      var rest, s := remove[..|remove| - 1], remove[|remove| - 1];
      assert remove == rest + [s];
      ElementsExtend(rest, s);
      RemovedAllAgrees(c, r, rest, u);
      hide NoStaleOwner, Exact, PointsOf;
      RemovedAgrees(c, RemovedAll(c, r, rest), s);
    }
  }

  /** A batch changes something exactly if it adds a server that is not there, or removes one that is there by then. */
  lemma BatchChangesIff(c: Setup, r: Ring, add: seq<string>, remove: seq<string>)
    ensures BatchChanges(c, r, add, remove) <==>
      !(Elements(add) <= r.servers) || Elements(remove) * (r.servers + Elements(add)) != {}
  {
    hide NoStaleOwner, Exact, PointsOf, DistinctPoints;
    AddedAllAgrees(c, r, add, r.servers + Elements(add));
    AddChangesIff(c, r, add);
    RemoveChangesIff(c, AddedAll(c, r, add), remove);
  }

  lemma {:induction false} AddChangesIff(c: Setup, r: Ring, add: seq<string>)
    ensures AddChanges(c, r, add) <==> !(Elements(add) <= r.servers)
  {
    if add != [] {
      var rest, s := add[..|add| - 1], add[|add| - 1];
      assert add == rest + [s];
      ElementsExtend(rest, s);
      AddChangesIff(c, r, rest);
      hide NoStaleOwner, Exact, PointsOf, DistinctPoints;
      AddedAllAgrees(c, r, rest, r.servers + Elements(rest));
    }
  }

  lemma {:induction false} RemoveChangesIff(c: Setup, r: Ring, remove: seq<string>)
    ensures RemoveChanges(c, r, remove) <==> Elements(remove) * r.servers != {}
  {
    if remove != [] {
      var rest, s := remove[..|remove| - 1], remove[|remove| - 1];
      assert remove == rest + [s];
      ElementsExtend(rest, s);
      RemoveChangesIff(c, r, rest);
      hide NoStaleOwner, Exact, PointsOf, DistinctPoints;
      RemovedAllAgrees(c, r, rest, r.servers + Elements(rest));
      assert Elements(remove) * r.servers == Elements(rest) * r.servers + ({s} * r.servers);
      assert s in r.servers <==> s in {s} * r.servers;
      if Elements(rest) * r.servers == {} {
        assert r.servers - Elements(rest) == r.servers;
      }
    }
  }

  lemma BatchAgrees(c: Setup, r: Ring, add: seq<string>, remove: seq<string>, u: set<string>)
    requires r.servers <= u && Elements(add) <= u && Elements(remove) <= u
    ensures var r' := Batched(c, r, add, remove);
      && r'.servers == r.servers + Elements(add) - Elements(remove)
      && (NoStaleOwner(c, r) ==> NoStaleOwner(c, r'))
      && (Exact(c, r) && DistinctPoints(c, u) ==> Exact(c, r'))
      && (BatchChanges(c, r, add, remove) ==> r'.checksum == ChecksumOf(c, r'.servers))
      && (!BatchChanges(c, r, add, remove) ==> r' == r)
  {
    hide NoStaleOwner, Exact, DistinctPoints;
    AddedAllAgrees(c, r, add, u);
    RemovedAllAgrees(c, AddedAll(c, r, add), remove, u);
    var r' := RemovedAll(c, AddedAll(c, r, add), remove);
    ChecksumApart(c, r', ChecksumOf(c, r'.servers));
  }

  lemma ChecksumApart(c: Setup, r: Ring, x: uint32)
    ensures NoStaleOwner(c, r) ==> NoStaleOwner(c, r.(checksum := x))
    ensures Exact(c, r) ==> Exact(c, r.(checksum := x))
  {
  }

  /** Over every run no point has an owner that is gone, and unless nothing ever changed
      the checksum is that of the current servers.  With distinct replica points the
      points are exactly those of the current servers. */
  lemma {:induction false} RunAgrees(c: Setup, ops: seq<Op>, u: set<string>)
    requires NamedIn(ops) <= u
    ensures var r := Run(c, ops);
      && r.servers <= u && NoStaleOwner(c, r)
      && (r != EmptyRing ==> r.checksum == ChecksumOf(c, r.servers))
      && (DistinctPoints(c, u) ==> Exact(c, r))
  {
    if ops != [] {
      var rest, op := ops[..|ops| - 1], ops[|ops| - 1];
      RunAgrees(c, rest, u);
      var r := Run(c, rest);
      var (add, remove) := match op
        case Add(s) => ([s], [])
        case Remove(s) => ([], [s])
        case AddRemove(a, d) => (a, d);
      assert Elements(add) + Elements(remove) == Named(op);
      hide NoStaleOwner, Exact, DistinctPoints;
      BatchAgrees(c, r, add, remove, u);
    }
  }

  lemma ExactDetermines(c: Setup, r: Ring, r': Ring)
    requires Exact(c, r) && Exact(c, r') && r.servers == r'.servers
    ensures r.points == r'.points
  {
    assert forall p :: p in r.points ==> p in r'.points && r'.points[p] == r.points[p];
    assert forall p :: p in r'.points ==> p in r.points;
  }

  /** Two histories that end with the same servers end with the same ring. */
  lemma HistoryIndependent(c: Setup, ops: seq<Op>, ops': seq<Op>)
    requires Run(c, ops).servers == Run(c, ops').servers
    requires DistinctPoints(c, NamedIn(ops) + NamedIn(ops'))
    ensures Run(c, ops).points == Run(c, ops').points
    ensures Run(c, ops) != EmptyRing && Run(c, ops') != EmptyRing ==> Run(c, ops) == Run(c, ops')
  {
    var u := NamedIn(ops) + NamedIn(ops');
    RunAgrees(c, ops, u);
    RunAgrees(c, ops', u);
    ExactDetermines(c, Run(c, ops), Run(c, ops'));
  }

  /** Once anything has changed, the checksums of two histories agree exactly if their servers do, for names that
      are not empty and have no semicolon and a fingerprint that keeps the two texts apart. */
  lemma ChecksumsTell(c: Setup, ops: seq<Op>, ops': seq<Op>)
    requires Run(c, ops) != EmptyRing && Run(c, ops') != EmptyRing
    requires var s, s' := Run(c, ops).servers, Run(c, ops').servers;
      && Plain(s) && Plain(s') && "" !in s && "" !in s'
      && (ServerText(s) != ServerText(s') ==> c.fingerprint(ServerText(s)) != c.fingerprint(ServerText(s')))
    ensures Run(c, ops).checksum == Run(c, ops').checksum <==> Run(c, ops).servers == Run(c, ops').servers
  {
    RunAgrees(c, ops, NamedIn(ops));
    RunAgrees(c, ops', NamedIn(ops'));
    ChecksumTellsServers(c, Run(c, ops).servers, Run(c, ops').servers);
  }

  /** Without distinct points agreement is lost: adding and removing a server restores the
      points exactly when none of its points was taken. */
  lemma AddRemoveRestores(c: Setup, r: Ring, server: string)
    requires server !in r.servers
    ensures Removed(c, Added(c, r, server), server).points == r.points - PointsOf(c, server)
    ensures Removed(c, Added(c, r, server), server).points == r.points <==> r.points.Keys !! PointsOf(c, server)
  {
    var k := Replicas(c);
    AllPoints(c, server);
    WithReplicasPoints(c, r.points, server, k);
    WithoutReplicasPoints(c, WithReplicas(c, r.points, server, k), server, k);
    var m := Removed(c, Added(c, r, server), server).points;
    assert m == r.points - PointsOf(c, server);
    if m == r.points {
      assert forall p :: p in r.points.Keys ==> p !in PointsOf(c, server);
    } else {
      var p :| p in r.points && p !in m;
      assert p in r.points.Keys && p in PointsOf(c, server);
    }
  }

  /** Replica names can coincide whatever the hash function is. */
  lemma ReplicaNamesCollide(c: Setup)
    requires c.replicas > 10
    ensures exists p :: p in PointsOf(c, "x:3000") && p in PointsOf(c, "x:30001")
    ensures !DistinctPoints(c, {"x:3000", "x:30001"})
  {
    var s, t := "x:3000", "x:30001";
    assert Decimal(10) == Decimal(1) + Decimal(0) == "10";
    assert s + Decimal(10) == t + Decimal(0);
    assert Point(c, s, 10) in PointsOf(c, s);
    assert Point(c, t, 0) in PointsOf(c, t);
    assert s != t;
  }

  /** So a ring of one server loses points to another that comes and goes. */
  lemma VisitTakesPoints(c: Setup)
    requires c.replicas > 10
    ensures var r := Added(c, EmptyRing, "x:3000");
      && Exact(c, r)
      && Removed(c, Added(c, r, "x:30001"), "x:30001").points != r.points
      && !Exact(c, Removed(c, Added(c, r, "x:30001"), "x:30001"))
  {
    hide Point, WithReplicas, WithoutReplicas, Added, Removed;
    var s, t := "x:3000", "x:30001";
    var r := Added(c, EmptyRing, s);
    ReplicaNamesCollide(c);
    OwnPoints(c, s);
    var p :| p in PointsOf(c, s) && p in PointsOf(c, t);
    hide PointsOf;
    AddRemoveRestores(c, r, t);
    ComesAndGoes(c, r, t);
    var gone := Removed(c, Added(c, r, t), t);
    assert gone.points == r.points - PointsOf(c, t);
    assert p !in gone.points && gone.servers == {s};
  }

  lemma ComesAndGoes(c: Setup, r: Ring, server: string)
    requires server !in r.servers
    ensures Removed(c, Added(c, r, server), server).servers == r.servers
  {
  }

  /** The first server gets all of its points. */
  lemma OwnPoints(c: Setup, s: string)
    ensures var r := Added(c, EmptyRing, s);
      r.servers == {s} && r.points == (map p | p in PointsOf(c, s) :: s) && Exact(c, r)
  {
    AllPoints(c, s);
    WithReplicasPoints(c, map[], s, Replicas(c));
  }

  // Lookups

  /** The servers that LookupN reports for a key with hash `h`: all of them if that many
      are asked for, otherwise the first `n` owners met clockwise. */
  ghost function LookupSet(points: seq<Entry>, servers: set<string>, h: int, n: int): set<string> {
    if n >= |servers| then servers else FirstOwners(points, h, n)
  }

  ghost function FirstOwners(points: seq<Entry>, h: int, n: int): set<string> {
    Elements(First(Owners(Clockwise(points, h)), n))
  }

  /** A lookup of one server finds at most one. */
  lemma LookupOne(points: seq<Entry>, servers: set<string>, h: int)
    ensures |LookupSet(points, servers, h, 1)| <= 1
  {
    var o := Owners(Clockwise(points, h));
    OwnersFacts(Clockwise(points, h), []);
    ElementsSize(First(o, 1));
  }

  /** The index of a ring: its points in order. */
  ghost predicate Indexes(points: seq<Entry>, r: Ring) {
    Sorted(points) && MapOf(points) == r.points
  }

  function Values(m: map<int, string>): set<string> {
    set p | p in m :: m[p]
  }

  lemma {:induction false} LabelsAreValues(s: seq<Entry>)
    requires Sorted(s)
    ensures Labels(s) == Values(MapOf(s))
  {
    if s == [] {
    } else {
      var e, r := s[0], s[1..];
      assert s == [] + [e] + r;
      assert Sorted(r);
      LabelsAreValues(r);
      LabelsSplit(s);
      MapOfMiddle([], e, r);
      SortedMiddle([], e, r);
      MapOfKeys(r, e.val);
      assert [] + r == r;
      InsertedValues(MapOf(r), e.val, e.str);
    }
  }

  lemma InsertedValues(m: map<int, string>, k: int, v: string)
    requires k !in m
    ensures Values(m[k := v]) == Values(m) + {v}
  {
    var m' := m[k := v];
    assert m'[k] == v;
    forall x | x in Values(m) ensures x in Values(m') {
      var j :| j in m && m[j] == x;
      assert m'[j] == x;
    }
  }

  lemma ClockwiseLabels(s: seq<Entry>, h: int)
    requires Sorted(s)
    ensures Labels(Clockwise(s, h)) == Labels(s)
  {
    SplitAt(s, h);
    var a, b := AtOrAbove(s, h), Below(s, h);
    assert forall e :: e in a + b <==> e in b + a;
  }

  /** A lookup is the first `n` owners of the walk exactly when fewer than all servers are
      asked for or every server has a point. */
  lemma LookupIsWalk(points: seq<Entry>, servers: set<string>, h: int, n: int)
    requires Sorted(points) && Labels(points) <= servers
    ensures LookupSet(points, servers, h, n) == FirstOwners(points, h, n)
            <==> n < |servers| || Labels(points) == servers
  {
    var o := Owners(Clockwise(points, h));
    OwnersFacts(Clockwise(points, h), []);
    ClockwiseLabels(points, h);
    if n >= |servers| {
      ElementsSize(o);
      SubsetSize(Elements(o), servers);
      assert First(o, n) == o;
    }
  }

  lemma ExactLabels(c: Setup, r: Ring, points: seq<Entry>)
    requires Indexes(points, r) && NoStaleOwner(c, r)
    ensures Labels(points) <= r.servers
    ensures Exact(c, r) && c.replicas >= 1 ==> Labels(points) == r.servers
  {
    LabelsAreValues(points);
    forall v | v in Values(r.points) ensures v in r.servers {
      var p :| p in r.points && r.points[p] == v;
    }
    if Exact(c, r) && c.replicas >= 1 {
      forall s | s in r.servers ensures s in Values(r.points) {
        assert Point(c, s, 0) in PointsOf(c, s);
        assert r.points[Point(c, s, 0)] == s;
      }
    }
  }

  /** With exact points a lookup is the walk, has `min(n, servers)` members, and grows with `n`. */
  lemma LookupOnExactRing(c: Setup, r: Ring, points: seq<Entry>, h: int, n: int, m: int)
    requires Indexes(points, r) && Exact(c, r) && c.replicas >= 1 && 0 <= n <= m
    ensures LookupSet(points, r.servers, h, n) == FirstOwners(points, h, n)
    ensures |LookupSet(points, r.servers, h, n)| == if n < |r.servers| then n else |r.servers|
    ensures LookupSet(points, r.servers, h, n) <= LookupSet(points, r.servers, h, m)
  {
    ExactLabels(c, r, points);
    LookupIsWalk(points, r.servers, h, n);
    LookupIsWalk(points, r.servers, h, m);
    var o := Owners(Clockwise(points, h));
    OwnersFacts(Clockwise(points, h), []);
    ClockwiseLabels(points, h);
    ElementsSize(o);
    ElementsSize(First(o, n));
    assert First(o, n) <= First(o, m);
  }

  /** Lookups depend on the servers only, not on the history that led to them. */
  lemma LookupsIndependent(c: Setup, ops: seq<Op>, ops': seq<Op>, points: seq<Entry>, points': seq<Entry>, h: int,
                           n: int)
    requires Run(c, ops).servers == Run(c, ops').servers && DistinctPoints(c, NamedIn(ops) + NamedIn(ops'))
    requires Indexes(points, Run(c, ops)) && Indexes(points', Run(c, ops'))
    ensures points == points'
    ensures LookupSet(points, Run(c, ops).servers, h, n) == LookupSet(points', Run(c, ops').servers, h, n)
  {
    HistoryIndependent(c, ops, ops');
    IndexUnique(points, points');
  }

  // Minimal disruption

  lemma HeadSplit(s: seq<Entry>)
    requires Sorted(s) && s != []
    ensures Sorted(s[1..]) && AllAbove(s[1..], s[0].val)
    ensures s[0].val !in MapOf(s[1..]) && MapOf(s) == map[s[0].val := s[0].str] + MapOf(s[1..])
    ensures MapOf(s[1..]) == MapOf(s) - {s[0].val}
  {
    MapOfKeys(s[1..], s[0].val);
  }

  /** A ring's index is determined by its points. */
  lemma {:induction false} IndexUnique(a: seq<Entry>, b: seq<Entry>)
    requires Sorted(a) && Sorted(b) && MapOf(a) == MapOf(b)
    ensures a == b
  {
    if a == [] {
      if b != [] {
        HeadSplit(b);
      }
    } else {
      MapOfKeys(b, a[0].val);
      HeadSplit(a);
      assert b != [];
      HeadSplit(b);
      MapOfKeys(a, b[0].val);
      HeadsAgree(a, b);
      hide MapOf, Sorted;
      IndexUnique(a[1..], b[1..]);
      assert a == [a[0]] + a[1..] && b == [b[0]] + b[1..];
    }
  }

  lemma HeadsAgree(a: seq<Entry>, b: seq<Entry>)
    requires Sorted(a) && Sorted(b) && a != [] && b != []
    requires Occurs(b, a[0].val) && Occurs(a, b[0].val)
    ensures a[0].val == b[0].val
  {
    var i :| 0 <= i < |b| && b[i].val == a[0].val;
    var j :| 0 <= j < |a| && a[j].val == b[0].val;
  }

  ghost function Disowned(m: map<int, string>, x: string): map<int, string> {
    map p | p in m && m[p] != x :: m[p]
  }

  lemma DisownedHead(k: int, v: string, m: map<int, string>, x: string)
    requires k !in m
    ensures Disowned(map[k := v] + m, x) == (if v != x then map[k := v] else map[]) + Disowned(m, x)
  {
  }

  lemma {:induction false} WithoutAbove(s: seq<Entry>, x: string, v: int)
    requires AllAbove(s, v)
    ensures AllAbove(Without(s, x), v)
  {
    if s != [] {
      WithoutAbove(s[1..], x, v);
    }
  }

  lemma {:induction false} WithoutSorted(s: seq<Entry>, x: string)
    requires Sorted(s)
    ensures Sorted(Without(s, x))
  {
    if s != [] {
      HeadSplit(s);
      WithoutSorted(s[1..], x);
      WithoutAbove(s[1..], x, s[0].val);
    }
  }

  lemma {:induction false} WithoutMap(s: seq<Entry>, x: string)
    requires Sorted(s)
    ensures MapOf(Without(s, x)) == Disowned(MapOf(s), x)
  {
    if s != [] {
      var e, w := s[0], Without(s[1..], x);
      HeadSplit(s);
      WithoutMap(s[1..], x);
      DisownedHead(e.val, e.str, MapOf(s[1..]), x);
      if e.str != x {
        assert Without(s, x) == [e] + w && ([e] + w)[1..] == w;
        assert MapOf([e] + w) == map[e.val := e.str] + MapOf(w);
      } else {
        assert Without(s, x) == w;
      }
    }
  }

  /** A ring with one more server is the old ring with that server's points put in. */
  lemma OneMoreServer(c: Setup, r: Ring, r': Ring, points: seq<Entry>, points': seq<Entry>, x: string)
    requires Exact(c, r) && Exact(c, r') && x !in r.servers && r'.servers == r.servers + {x}
    requires Indexes(points, r) && Indexes(points', r')
    ensures points == Without(points', x)
  {
    hide Exact, Disowned, MapOf, Without, Sorted;
    ExactDisowned(c, r, r', x);
    WithoutSorted(points', x);
    WithoutMap(points', x);
    IndexUnique(points, Without(points', x));
  }

  lemma ExactDisowned(c: Setup, r: Ring, r': Ring, x: string)
    requires Exact(c, r) && Exact(c, r') && x !in r.servers && r'.servers == r.servers + {x}
    ensures Disowned(r'.points, x) == r.points
  {
    hide PointsOf;
    assert forall p :: p in r.points ==> p in r'.points && r'.points[p] == r.points[p] && r.points[p] != x;
    assert forall p :: p in r'.points && r'.points[p] != x ==> p in r.points;
  }

  /** Minimal disruption: adding `x` changes a lookup only by letting `x` in, and removing it
      changes only lookups that `x` was part of. */
  lemma LookupMovesLittle(c: Setup, r: Ring, r': Ring, points: seq<Entry>, points': seq<Entry>, x: string, h: int,
                          n: int)
    requires Exact(c, r) && Exact(c, r') && x !in r.servers && r'.servers == r.servers + {x}
    requires Indexes(points, r) && Indexes(points', r') && c.replicas >= 1 && n >= 0
    ensures var l, l' := LookupSet(points, r.servers, h, n), LookupSet(points', r'.servers, h, n);
      l' <= l + {x} && (x !in l' ==> l' == l)
  {
    hide Exact, Indexes;
    OneMoreServer(c, r, r', points, points', x);
    LookupOnExactRing(c, r, points, h, n, n);
    LookupOnExactRing(c, r', points', h, n, n);
    Disruption(points', h, n, x);
  }
}
