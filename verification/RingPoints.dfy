/**
  The ring as a value: which points every operation leaves, under whose name, and
  what that means for the server set, the checksum and lookups.
 */
module RingPoints {
  import opened Sequences
  import opened Texts

  type uint32 = x: int | 0 <= x < 0x1_0000_0000

  /** What a ring is configured with: its hash function, the number of replica points
      per server, and the fingerprint used for the checksum. */
  datatype Setup = Setup(hash: string -> uint32, replicas: int, fingerprint: string -> uint32)

  datatype Ring = Ring(points: map<int, string>, servers: set<string>, checksum: uint32)

  const EmptyRing := Ring(map[], {}, 0)

  function Point(c: Setup, server: string, i: nat): int {
    c.hash(server + Decimal(i))
  }

  function PointsOf(c: Setup, server: string): set<int> {
    set i | 0 <= i < c.replicas :: Point(c, server, i)
  }

  /** Insert the first `k` replicas of a server; a taken point is left alone. */
  function WithReplicas(c: Setup, m: map<int, string>, server: string, k: nat): map<int, string> {
    if k == 0 then m
    else
      var m' := WithReplicas(c, m, server, k - 1);
      if Point(c, server, k - 1) in m' then m' else m'[Point(c, server, k - 1) := server]
  }

  /** Delete the first `k` replicas of a server, whoever owns those points. */
  function WithoutReplicas(c: Setup, m: map<int, string>, server: string, k: nat): map<int, string> {
    if k == 0 then m else WithoutReplicas(c, m, server, k - 1) - {Point(c, server, k - 1)}
  }

  lemma ReplicasFromNone(c: Setup, m: map<int, string>, server: string)
    ensures WithReplicas(c, m, server, 0) == m && WithoutReplicas(c, m, server, 0) == m
  {
  }

  lemma ReplicasNext(c: Setup, m: map<int, string>, server: string, k: nat)
    ensures var p: int, w := c.hash(server + Decimal(k)), WithReplicas(c, m, server, k);
      WithReplicas(c, m, server, k + 1) == if p in w then w else w[p := server]
    ensures WithoutReplicas(c, m, server, k + 1) == WithoutReplicas(c, m, server, k) - {c.hash(server + Decimal(k))}
  {
    hide Decimal;
  }

  function Replicas(c: Setup): nat {
    if c.replicas < 0 then 0 else c.replicas
  }

  // Operations

  function Added(c: Setup, r: Ring, server: string): Ring {
    if server in r.servers then r
    else r.(servers := r.servers + {server}, points := WithReplicas(c, r.points, server, Replicas(c)))
  }

  function Removed(c: Setup, r: Ring, server: string): Ring {
    if server !in r.servers then r
    else r.(servers := r.servers - {server}, points := WithoutReplicas(c, r.points, server, Replicas(c)))
  }

  function AddedAll(c: Setup, r: Ring, add: seq<string>): Ring {
    if add == [] then r else Added(c, AddedAll(c, r, add[..|add| - 1]), add[|add| - 1])
  }

  function RemovedAll(c: Setup, r: Ring, remove: seq<string>): Ring {
    if remove == [] then r else Removed(c, RemovedAll(c, r, remove[..|remove| - 1]), remove[|remove| - 1])
  }

  /** Whether some call in the batch was not a no-op. */
  function AddChanges(c: Setup, r: Ring, add: seq<string>): bool {
    add != [] && (AddChanges(c, r, add[..|add| - 1]) || add[|add| - 1] !in AddedAll(c, r, add[..|add| - 1]).servers)
  }

  function RemoveChanges(c: Setup, r: Ring, remove: seq<string>): bool {
    remove != [] &&
    (|| RemoveChanges(c, r, remove[..|remove| - 1])
     || remove[|remove| - 1] in RemovedAll(c, r, remove[..|remove| - 1]).servers)
  }

  function BatchChanges(c: Setup, r: Ring, add: seq<string>, remove: seq<string>): bool {
    AddChanges(c, r, add) || RemoveChanges(c, AddedAll(c, r, add), remove)
  }

  /** Adds come before removes. */
  ghost function Batched(c: Setup, r: Ring, add: seq<string>, remove: seq<string>): Ring {
    var r' := RemovedAll(c, AddedAll(c, r, add), remove);
    if BatchChanges(c, r, add, remove) then r'.(checksum := ChecksumOf(c, r'.servers)) else r'
  }

  // Checksum

  /** Some order of a set; the checksum does not depend on which. */
  ghost function Listed(s: set<string>): (l: seq<string>)
    ensures multiset(l) == multiset(s)
  {
    if s == {} then [] else
      var x :| x in s;
      assert multiset(s) == multiset(s - {x}) + multiset{x};
      [x] + Listed(s - {x})
  }

  /** The text that is fingerprinted. */
  ghost function ServerText(servers: set<string>): string {
    Join(SortTexts(Listed(servers)), ";")
  }

  ghost function ChecksumOf(c: Setup, servers: set<string>): uint32 {
    c.fingerprint(ServerText(servers))
  }

  /** Any listing of the servers gives the same checksum. */
  lemma ChecksumAnyOrder(c: Setup, servers: set<string>, l: seq<string>)
    requires multiset(l) == multiset(servers)
    ensures Join(SortTexts(l), ";") == ServerText(servers)
    ensures c.fingerprint(Join(SortTexts(l), ";")) == ChecksumOf(c, servers)
  {
    SortCanonical(l, Listed(servers));
  }

  predicate Plain(servers: set<string>) {
    forall s :: s in servers ==> Lacks(s, ';')
  }

  lemma ListedIn(l: seq<string>, servers: set<string>)
    requires multiset(l) == multiset(servers)
    ensures Plain(servers) ==> AllLack(l, ';')
    ensures Elements(l) == servers
  {
    hide Lacks;
    forall x ensures x in l <==> x in servers {
      assert x in l <==> x in multiset(l);
      assert x in servers <==> x in multiset(servers);
    }
  }

  /** Names without semicolons can be read back from the text, so that it tells the servers; only no server
      at all and the empty name look alike. */
  lemma TextTellsServers(servers: set<string>, servers': set<string>)
    requires Plain(servers) && Plain(servers')
    ensures ServerText(servers) == ServerText(servers') <==>
      servers == servers' || (servers <= {""} && servers' <= {""})
  {
    var l, l' := SortTexts(Listed(servers)), SortTexts(Listed(servers'));
    SortTextsCorrect(Listed(servers));
    SortTextsCorrect(Listed(servers'));
    hide SortTexts, SortedTexts, Join, Plain, AllLack;
    ListedIn(l, servers);
    ListedIn(l', servers');
    EmptyTextIff(l, servers);
    EmptyTextIff(l', servers');
    if l != [] && l' != [] && ServerText(servers) == ServerText(servers') {
      JoinInjective(l, l', ';');
    }
  }

  lemma EmptyTextIff(l: seq<string>, servers: set<string>)
    requires multiset(l) == multiset(servers)
    ensures Join(l, ";") == "" <==> servers <= {""}
    ensures l == [] <==> servers == {}
  {
    hide Join, Plain;
    ListedIn(l, servers);
    JoinEmptyIff(l, ';');
    assert [';'] == ";";
    if l != [] {
      assert l[0] in Elements(l);
      EmptyNameAlone(l, servers);
    }
  }

  lemma EmptyNameAlone(l: seq<string>, servers: set<string>)
    requires multiset(l) == multiset(servers) && Elements(l) == servers && l != []
    ensures l == [""] <==> servers <= {""}
  {
    if servers <= {""} {
      assert l[0] in Elements(l);
      assert servers == {""};
      assert multiset(l) == multiset{""};
      assert |l| == |multiset(l)| == 1;
    }
    if l == [""] {
      assert forall x :: x in servers ==> x in l;
    }
  }

  /** With names that are not empty and have no semicolon, and a fingerprint that keeps the two texts
      apart, the checksum tells whether two rings have the same servers. */
  lemma ChecksumTellsServers(c: Setup, servers: set<string>, servers': set<string>)
    requires Plain(servers) && Plain(servers') && "" !in servers && "" !in servers'
    requires ServerText(servers) != ServerText(servers') ==>
      c.fingerprint(ServerText(servers)) != c.fingerprint(ServerText(servers'))
    ensures ChecksumOf(c, servers) == ChecksumOf(c, servers') <==> servers == servers'
  {
    TextTellsServers(servers, servers');
  }

  /** With a semicolon in a name they can be mixed up: two servers and one whose name reads like both. */
  lemma SemicolonMixesUp(c: Setup, a: string, b: string)
    requires a != b && Leq(a, b)
    ensures ServerText({a, b}) == ServerText({a + ";" + b}) == a + ";" + b
    ensures ChecksumOf(c, {a, b}) == ChecksumOf(c, {a + ";" + b}) && {a, b} != {a + ";" + b}
  {
    var one := a + ";" + b;
    assert multiset([a, b]) == multiset({a, b}) && multiset([one]) == multiset({one});
    ChecksumAnyOrder(c, {a, b}, [a, b]);
    ChecksumAnyOrder(c, {one}, [one]);
    assert [a, b][1..] == [b] && [one][1..] == [] && [b][1..] == [];
    assert SortTexts([b]) == [b] && SortTexts([one]) == [one];
    assert SortTexts([a, b]) == [a, b];
    assert |one| > |a| && a in {a, b};
  }

  // Agreement of points and servers

  /** Every point is labelled with a current server, at one of that server's own points. */
  ghost predicate NoStaleOwner(c: Setup, r: Ring) {
    forall p :: p in r.points ==> r.points[p] in r.servers && p in PointsOf(c, r.points[p])
  }

  ghost predicate DistinctPoints(c: Setup, servers: set<string>) {
    forall s, t :: s in servers && t in servers && s != t ==> PointsOf(c, s) !! PointsOf(c, t)
  }

  /** The points are exactly the union of all servers' points, each under its server. */
  ghost predicate Exact(c: Setup, r: Ring) {
    && NoStaleOwner(c, r)
    && forall s, p :: s in r.servers && p in PointsOf(c, s) ==> p in r.points && r.points[p] == s
  }

  ghost function FirstPoints(c: Setup, server: string, k: nat): set<int> {
    if k == 0 then {} else FirstPoints(c, server, k - 1) + {Point(c, server, k - 1)}
  }

  lemma {:induction false} FirstPointsAre(c: Setup, server: string, k: nat)
    ensures FirstPoints(c, server, k) == set i | 0 <= i < k :: Point(c, server, i)
  {
    hide Point;
    if k > 0 {
      FirstPointsAre(c, server, k - 1);
    }
  }

  lemma AllPoints(c: Setup, server: string)
    ensures FirstPoints(c, server, Replicas(c)) == PointsOf(c, server)
  {
    FirstPointsAre(c, server, Replicas(c));
  }

  lemma {:induction false} WithReplicasPoints(c: Setup, m: map<int, string>, server: string, k: nat)
    ensures WithReplicas(c, m, server, k) == (map p | p in FirstPoints(c, server, k) :: server) + m
  {
    if k > 0 {
      WithReplicasPoints(c, m, server, k - 1);
    }
  }

  lemma {:induction false} WithoutReplicasPoints(c: Setup, m: map<int, string>, server: string, k: nat)
    ensures WithoutReplicas(c, m, server, k) == m - FirstPoints(c, server, k)
  {
    if k > 0 {
      WithoutReplicasPoints(c, m, server, k - 1);
    }
  }

  lemma AddedAgrees(c: Setup, r: Ring, server: string)
    ensures NoStaleOwner(c, r) ==> NoStaleOwner(c, Added(c, r, server))
    ensures Exact(c, r) && DistinctPoints(c, r.servers + {server}) ==> Exact(c, Added(c, r, server))
  {
    AllPoints(c, server);
    WithReplicasPoints(c, r.points, server, Replicas(c));
  }

  lemma RemovedAgrees(c: Setup, r: Ring, server: string)
    ensures NoStaleOwner(c, r) ==> NoStaleOwner(c, Removed(c, r, server))
    ensures Exact(c, r) && DistinctPoints(c, r.servers + {server}) ==> Exact(c, Removed(c, r, server))
  {
    AllPoints(c, server);
    WithoutReplicasPoints(c, r.points, server, Replicas(c));
  }
}
