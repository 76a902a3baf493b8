/**
  How the ring follows the member list: applied changes become server changes.
 */
module RingMembership {
  import opened SwimMembers
  import opened SwimNodes
  import opened SwimCoupling
  import opened Sequences
  import opened RingPoints
  import opened RingGuarantees
  import opened HashRings

  function AliveIn(cs: seq<Change>): set<string> {
    set c | c in cs && c.status == Alive :: c.address
  }

  function GoneIn(cs: seq<Change>): set<string> {
    set c | c in cs && (c.status == Faulty || c.status == Leave) :: c.address
  }

  /** The ring's servers after a batch of applied changes. */
  function Followed(servers: set<string>, cs: seq<Change>): set<string> {
    servers + AliveIn(cs) - GoneIn(cs)
  }

  function AliveList(cs: seq<Change>): seq<string> {
    if cs == [] then []
    else
      var c := cs[|cs| - 1];
      AliveList(cs[..|cs| - 1]) + if c.status == Alive then [c.address] else []
  }

  function GoneList(cs: seq<Change>): seq<string> {
    if cs == [] then []
    else
      var c := cs[|cs| - 1];
      GoneList(cs[..|cs| - 1]) + if c.status == Faulty || c.status == Leave then [c.address] else []
  }

  /** Applied changes as one change of the ring. */
  function RingOp(cs: seq<Change>): Op {
    AddRemove(AliveList(cs), GoneList(cs))
  }

  /** A batch of changes leads the ring from its old servers to those that follow. */
  lemma RingOpFollows(c: Setup, r: Ring, cs: seq<Change>)
    ensures Apply(c, r, RingOp(cs)).servers == Followed(r.servers, cs)
  {
    hide AliveIn, GoneIn, NoStaleOwner, Exact;
    ListedElements(cs);
    var add, remove := AliveList(cs), GoneList(cs);
    BatchAgrees(c, r, add, remove, r.servers + Elements(add) + Elements(remove));
  }

  lemma {:induction false} ListedElements(cs: seq<Change>)
    ensures Elements(AliveList(cs)) == AliveIn(cs) && Elements(GoneList(cs)) == GoneIn(cs)
  {
    if cs != [] {
      var rest, c := cs[..|cs| - 1], cs[|cs| - 1];
      assert cs == rest + [c];
      ListedElements(rest);
      ListsExtend(rest, c);
      hide AliveIn, GoneIn;
      ElementsExtend(AliveList(rest), c.address);
      ElementsExtend(GoneList(rest), c.address);
      assert AliveList(rest) + [] == AliveList(rest) && GoneList(rest) + [] == GoneList(rest);
    }
  }

  /** Turn applied changes into one change of the ring. */
  method HandleChanges(ring: HashRing, changes: seq<Change>)
    requires ring.Valid()
    modifies ring.Repr()
    ensures ring.Valid() && ring.serverSet == Followed(old(ring.serverSet), changes)
    ensures ring.State() == Apply(ring.setup, old(ring.State()), RingOp(changes))
  {
    hide HashRing.Valid, Followed, Apply;
    var serversToAdd: seq<string>, serversToRemove: seq<string> := [], [];
    var i := 0;
    while i < |changes|
      invariant 0 <= i <= |changes|
      invariant serversToAdd == AliveList(changes[..i]) && serversToRemove == GoneList(changes[..i])
      invariant ring.Valid() && ring.State() == old(ring.State()) && ring.Repr() == old(ring.Repr())
    {
      var change := changes[i];
      assert changes[..i + 1][..i] == changes[..i];
      match change.status {
        case Alive => serversToAdd := serversToAdd + [change.address];
        case Faulty => serversToRemove := serversToRemove + [change.address];
        case Leave => serversToRemove := serversToRemove + [change.address];
        case Suspect =>
      }
      i := i + 1;
    }
    assert changes[..i] == changes;
    RingOpFollows(ring.setup, ring.State(), changes);
    var _ := ring.AddRemoveServers(serversToAdd, serversToRemove);
  }

  lemma ListsExtend(cs: seq<Change>, c: Change)
    ensures AliveIn(cs + [c]) == AliveIn(cs) + if c.status == Alive then {c.address} else {}
    ensures GoneIn(cs + [c]) == GoneIn(cs) + if c.status == Faulty || c.status == Leave then {c.address} else {}
  {
  }

  // Agreement of ring and member list

  ghost predicate FollowsAt(members: map<string, Member>, servers: set<string>, a: string) {
    && (a in members && members[a].status == Alive ==> a in servers)
    && (a in servers ==> a in members && IsReachable(members[a]))
  }

  /** Alive members are in the ring, and every server in the ring is alive or suspect. */
  ghost predicate Follows(members: map<string, Member>, servers: set<string>) {
    forall a :: FollowsAt(members, servers, a)
  }

  /** The batch ends with `a` alive although it also declared it gone. */
  ghost predicate Relapse(applied: seq<Change>, a: string) {
    LastAbout(applied, a).Last? && LastAbout(applied, a).c.status == Alive && a in GoneIn(applied)
  }

  lemma FollowedAt(members: map<string, Member>, servers: set<string>, local: string, cs: seq<Change>, now: seq<int>,
                   a: string)
    requires |now| == |cs| && Follows(members, servers)
    ensures var applied := AppliedOf(members, local, cs, now);
      FollowsAt(Merged(members, local, cs, now), Followed(servers, applied), a) <==> !Relapse(applied, a)
  {
    var applied := AppliedOf(members, local, cs, now);
    MergedIsLast(members, local, cs, now, a);
    LastAboutIsAbout(applied, a);
    assert FollowsAt(members, servers, a);
    var last := LastAbout(applied, a);
    if last.Last? {
      assert last.c.status == Alive ==> a in AliveIn(applied);
      assert last.c.status == Faulty || last.c.status == Leave ==> a in GoneIn(applied);
    }
  }

  /** The ring still follows after a batch exactly when no address was declared gone before
      it was last declared alive in the same batch. */
  lemma FollowsIff(members: map<string, Member>, servers: set<string>, local: string, cs: seq<Change>, now: seq<int>)
    requires |now| == |cs| && Follows(members, servers)
    ensures var applied := AppliedOf(members, local, cs, now);
      Follows(Merged(members, local, cs, now), Followed(servers, applied)) <==> forall a :: !Relapse(applied, a)
  {
    forall a {
      FollowedAt(members, servers, local, cs, now, a);
    }
  }

  lemma {:induction false} AppliedDistinct(members: map<string, Member>, local: string, cs: seq<Change>, now: seq<int>)
    requires |now| == |cs| && DistinctAddresses(cs)
    ensures DistinctAddresses(AppliedOf(members, local, cs, now))
  {
    if cs != [] {
      var k := |cs| - 1;
      AppliedDistinct(members, local, cs[..k], now[..k]);
      var rest := AppliedOf(members, local, cs[..k], now[..k]);
      forall i | 0 <= i < |rest|
        ensures rest[i].address != cs[k].address
      {
        AppliedAddress(members, local, cs[..k], now[..k], rest[i]);
      }
    }
  }

  lemma {:induction false} AppliedAddress(members: map<string, Member>, local: string, cs: seq<Change>, now: seq<int>,
                                          c: Change)
    requires |now| == |cs| && c in AppliedOf(members, local, cs, now)
    ensures exists i :: 0 <= i < |cs| && cs[i].address == c.address
  {
    var k := |cs| - 1;
    if c in AppliedOf(members, local, cs[..k], now[..k]) {
      AppliedAddress(members, local, cs[..k], now[..k], c);
      var i :| 0 <= i < k && cs[..k][i].address == c.address;
      assert cs[i].address == c.address;
    } else {
      assert cs[k].address == c.address;
    }
  }

  lemma DistinctNoRelapse(applied: seq<Change>, a: string)
    requires DistinctAddresses(applied)
    ensures !Relapse(applied, a)
  {
    LastAboutIsAbout(applied, a);
  }

  datatype Batch = Batch(cs: seq<Change>, now: seq<int>)

  ghost predicate Proper(b: Batch) {
    |b.now| == |b.cs| && DistinctAddresses(b.cs)
  }

  /** Member list and ring after a series of batches, from nothing. */
  ghost function Tracked(local: string, bs: seq<Batch>): (map<string, Member>, set<string>)
    requires forall b :: b in bs ==> Proper(b)
  {
    if bs == [] then (map[], {})
    else
      var k := |bs| - 1;
      assert Proper(bs[k]) && forall b :: b in bs[..k] ==> b in bs;
      var (m, servers) := Tracked(local, bs[..k]);
      (Merged(m, local, bs[k].cs, bs[k].now), Followed(servers, AppliedOf(m, local, bs[k].cs, bs[k].now)))
  }

  /** The ring follows the member list over every run of batches without repeated addresses. */
  lemma {:induction false} RingFollowsMembers(local: string, bs: seq<Batch>)
    requires forall b :: b in bs ==> Proper(b)
    ensures Follows(Tracked(local, bs).0, Tracked(local, bs).1)
  {
    if bs != [] {
      var k := |bs| - 1;
      assert bs[k] in bs && forall b :: b in bs[..k] ==> b in bs;
      RingFollowsMembers(local, bs[..k]);
      var (m, servers) := Tracked(local, bs[..k]);
      AppliedDistinct(m, local, bs[k].cs, bs[k].now);
      FollowsIff(m, servers, local, bs[k].cs, bs[k].now);
      forall a {
        DistinctNoRelapse(AppliedOf(m, local, bs[k].cs, bs[k].now), a);
      }
    }
  }

  /** With a repeated address the ring can lose an alive member. */
  lemma RepeatedAddressLosesMember(local: string, a: string, i: int, j: int, now: int)
    requires a != local && i < j
    ensures var members, servers := map[a := Member(Alive, i)], {a};
      var cs := [Change(local, now, a, i, Faulty), Change(local, now, a, j, Alive)];
      && Follows(members, servers)
      && Merged(members, local, cs, [now, now]) == map[a := Member(Alive, j)]
      && Followed(servers, AppliedOf(members, local, cs, [now, now])) == {}
  {
    var members := map[a := Member(Alive, i)];
    var c, d := Change(local, now, a, i, Faulty), Change(local, now, a, j, Alive);
    var cs := [c, d];
    assert cs[..1] == [c] && [now, now][..1] == [now] && [c][..0] == [] && [now][..0] == [];
    assert Merged(members, local, [c], [now]) == map[a := Member(Faulty, i)];
    assert AppliedOf(members, local, [c], [now]) == [c];
    assert AppliedOf(members, local, cs, [now, now]) == [c] + [d];
    assert GoneIn([c] + [d]) == {a} by {
      assert c in [c] + [d];
    }
  }
}
