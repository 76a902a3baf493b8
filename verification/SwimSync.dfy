/**
  Full lists in both directions settle everything between two nodes, also what they say
  about each other, because a node refutes what it finds wrong about itself.
 */
module SwimSync {
  import opened SwimMembers
  import opened SwimNodes
  import opened SwimRuns
  import opened SwimConvergence
  import opened SwimCluster
  import opened SwimCoupling

  // Lists with one change about an address

  lemma {:induction false} MergedElsewhere(members: map<string, Member>, local: string, cs: seq<Change>, now: seq<int>,
                                           a: string)
    requires |now| == |cs| && forall i :: 0 <= i < |cs| ==> cs[i].address != a
    ensures Lookup(Merged(members, local, cs, now), a) == Lookup(members, a)
  {
    if cs != [] {
      var k := |cs| - 1;
      MergedElsewhere(members, local, cs[..k], now[..k], a);
    }
  }

  lemma {:induction false} MergedAt(members: map<string, Member>, local: string, cs: seq<Change>, now: seq<int>, i: nat)
    requires |now| == |cs| && DistinctAddresses(cs) && i < |cs|
    ensures var a := cs[i].address;
      Lookup(Merged(members, local, cs, now), a) == Lookup(TakeOne(members, Decide(members, local, cs[i], now[i])), a)
  {
    var k := |cs| - 1;
    if i == k {
      MergedElsewhere(members, local, cs[..k], now[..k], cs[k].address);
    } else {
      MergedAt(members, local, cs[..k], now[..k], i);
    }
  }

  lemma ListedAt(n: Node, cs: seq<Change>, a: string) returns (i: nat)
    requires IsFullSync(n, cs) && a in n.members
    ensures i < |cs| && cs[i].address == a && Claim(cs[i]) == n.members[a]
  {
    assert n.members[a] in ClaimsAbout(cs, a);
    var c :| c in cs && c.address == a && Claim(c) == n.members[a];
    i :| 0 <= i < |cs| && cs[i] == c;
  }

  lemma NotListed(n: Node, cs: seq<Change>, a: string)
    requires IsFullSync(n, cs) && a !in n.members
    ensures forall i :: 0 <= i < |cs| ==> cs[i].address != a
  {
    assert forall i :: 0 <= i < |cs| && cs[i].address == a ==> Claim(cs[i]) in ClaimsAbout(cs, a);
  }

  /** The node holds itself alive or as having left. */
  ghost predicate SelfAware(n: Node) {
    AliveOrLeft(n.members, n.address)
  }

  /** Every reading is past the incarnation of the node. */
  ghost predicate ClockPast(n: Node, now: seq<int>)
    requires n.address in n.members
  {
    forall i :: 0 <= i < |now| ==> now[i] > n.members[n.address].incarnation
  }

  ghost predicate ListOf(n: Node, cs: seq<Change>, now: seq<int>) {
    IsFullSync(n, cs) && DistinctAddresses(cs) && |now| == |cs|
  }

  predicate Wrong(m: Member) {
    m.status == Suspect || m.status == Faulty
  }

  /** What a node makes of itself when it gets the list of another. */
  lemma OwnAfterList(x: Node, y: Node, cs: seq<Change>, now: seq<int>)
    requires !x.stopped && SelfAware(x) && ListOf(y, cs, now)
    ensures var x' := Updated(x, cs, now);
      && x'.address == x.address && !x'.stopped && x.address in x'.members
      && var own, own' := x.members[x.address], x'.members[x.address];
         if x.address !in y.members then own' == own
         else if Wrong(y.members[x.address]) then
           own'.status == Alive && (ClockPast(x, now) ==> own'.incarnation > own.incarnation)
         else own' == Later(own, y.members[x.address])
  {
    UpdateAddress(x, cs, now);
    var a := x.address;
    if a in y.members {
      var i := ListedAt(y, cs, a);
      MergedAt(x.members, a, cs, now, i);
      OverrideIsAbove(x.members[a], cs[i]);
    } else {
      NotListed(y, cs, a);
      MergedElsewhere(x.members, a, cs, now, a);
    }
  }

  /** The entry of one node about another is not ahead of what that other says of itself. */
  ghost predicate Behind(x: Node, y: Node) {
    y.address in y.members &&
    (y.address in x.members ==> x.members[y.address].incarnation <= y.members[y.address].incarnation)
  }

  // Three lists: y to x, x to y, y to x again

  lemma SyncThird(x: Node, y: Node, fromY: seq<Change>, nowX: seq<int>, fromX: seq<Change>, nowY: seq<int>,
                  again: seq<Change>, nowX': seq<int>, a: string)
    requires !x.stopped && !y.stopped && a != x.address && a != y.address
    requires ListOf(y, fromY, nowX) && ListOf(Updated(x, fromY, nowX), fromX, nowY)
    requires ListOf(Updated(y, fromX, nowY), again, nowX')
    ensures var x', y' := Updated(x, fromY, nowX), Updated(y, fromX, nowY);
      Lookup(Updated(x', again, nowX').members, a) == Lookup(y'.members, a)
  {
    var x', y' := Updated(x, fromY, nowX), Updated(y, fromX, nowY);
    UpdateAddress(x, fromY, nowX);
    UpdateAddress(y, fromX, nowY);
    hide IsFullSync, Updated;
    FullSyncDominates(x, y, fromY, nowX, a);
    FullSyncDominates(y, x', fromX, nowY, a);
    FullSyncDominates(x', y', again, nowX', a);
  }

  /** What is said about `y`: wrong news comes back to it and is refuted. */
  lemma SyncAboutY(x: Node, y: Node, fromY: seq<Change>, nowX: seq<int>, fromX: seq<Change>, nowY: seq<int>,
                   again: seq<Change>, nowX': seq<int>)
    requires !x.stopped && !y.stopped && x.address != y.address && SelfAware(y) && Behind(x, y)
    requires ListOf(y, fromY, nowX) && ListOf(Updated(x, fromY, nowX), fromX, nowY)
    requires ListOf(Updated(y, fromX, nowY), again, nowX') && ClockPast(y, nowY)
    ensures var x', y' := Updated(x, fromY, nowX), Updated(y, fromX, nowY);
      Lookup(Updated(x', again, nowX').members, y.address) == Lookup(y'.members, y.address)
  {
    hide IsFullSync, DistinctAddresses, Updated, Merged, AtMost, KnownAtMost;
    var x', y' := Updated(x, fromY, nowX), Updated(y, fromX, nowY);
    UpdateAddress(x, fromY, nowX);
    UpdateAddress(y, fromX, nowY);
    FullSyncDominates(x, y, fromY, nowX, y.address);
    OwnAfterList(y, x', fromX, nowY);
    FullSyncDominates(x', y', again, nowX', y.address);
    ReturnedNews(Lookup(x.members, y.address), y.members[y.address], y'.members[y.address]);
  }

  /** News about a node that another held reaches it and comes back right. */
  lemma ReturnedNews(k: Knowledge, own: Member, own': Member)
    requires !Wrong(own) && (k.Known? ==> k.m.incarnation <= own.incarnation)
    requires var held := LaterKnown(k, Known(own)).m;
      if Wrong(held) then own'.status == Alive && own'.incarnation > own.incarnation else own' == Later(own, held)
    ensures LaterKnown(LaterKnown(k, Known(own)), Known(own')) == Known(own')
  {
  }

  /** What is said about `x`: it sees the wrong news in the first list. */
  lemma SyncAboutX(x: Node, y: Node, fromY: seq<Change>, nowX: seq<int>, fromX: seq<Change>, nowY: seq<int>,
                   again: seq<Change>, nowX': seq<int>)
    requires !x.stopped && !y.stopped && x.address != y.address && SelfAware(x) && Behind(y, x)
    requires ListOf(y, fromY, nowX) && ListOf(Updated(x, fromY, nowX), fromX, nowY)
    requires ListOf(Updated(y, fromX, nowY), again, nowX') && ClockPast(x, nowX)
    ensures var x', y' := Updated(x, fromY, nowX), Updated(y, fromX, nowY);
      Lookup(Updated(x', again, nowX').members, x.address) == Lookup(y'.members, x.address)
  {
    hide IsFullSync, DistinctAddresses, Updated, Merged, AtMost, KnownAtMost;
    var x', y' := Updated(x, fromY, nowX), Updated(y, fromX, nowY);
    UpdateAddress(x, fromY, nowX);
    UpdateAddress(y, fromX, nowY);
    OwnAfterList(x, y, fromY, nowX);
    FullSyncDominates(y, x', fromX, nowY, x.address);
    SeenNews(Lookup(y.members, x.address), x.members[x.address], x'.members[x.address]);
    OwnAfterList(x', y', again, nowX');
  }

  /** A node sees what another holds of it, and sends back what is right. */
  lemma SeenNews(k: Knowledge, own: Member, own': Member)
    requires !Wrong(own) && (k.Known? ==> k.m.incarnation <= own.incarnation)
    requires if k.Unknown? then own' == own
      else if Wrong(k.m) then own'.status == Alive && own'.incarnation > own.incarnation
      else own' == Later(own, k.m)
    ensures LaterKnown(k, Known(own')) == Known(own') && !Wrong(own') && Later(own', own') == own'
  {
  }

  /** After the three lists two nodes know exactly the same, about everyone. */
  lemma MutualSync(x: Node, y: Node, fromY: seq<Change>, nowX: seq<int>, fromX: seq<Change>, nowY: seq<int>,
                   again: seq<Change>, nowX': seq<int>)
    requires !x.stopped && !y.stopped && x.address != y.address
    requires SelfAware(x) && SelfAware(y) && Behind(x, y) && Behind(y, x) && ClockPast(x, nowX) && ClockPast(y, nowY)
    requires ListOf(y, fromY, nowX) && ListOf(Updated(x, fromY, nowX), fromX, nowY)
    requires ListOf(Updated(y, fromX, nowY), again, nowX')
    ensures Updated(Updated(x, fromY, nowX), again, nowX').members == Updated(y, fromX, nowY).members
  {
    var m, m' := Updated(Updated(x, fromY, nowX), again, nowX').members, Updated(y, fromX, nowY).members;
    hide Updated, ListOf, SelfAware, Behind, ClockPast;
    forall a ensures Lookup(m, a) == Lookup(m', a) {
      if a == x.address {
        SyncAboutX(x, y, fromY, nowX, fromX, nowY, again, nowX');
      } else if a == y.address {
        SyncAboutY(x, y, fromY, nowX, fromX, nowY, again, nowX');
      } else {
        SyncThird(x, y, fromY, nowX, fromX, nowY, again, nowX', a);
      }
    }
    SameLookups(m, m');
  }

  lemma SameLookups(m: map<string, Member>, m': map<string, Member>)
    requires forall a :: Lookup(m, a) == Lookup(m', a)
    ensures m == m'
  {
    forall a ensures (a in m <==> a in m') && (a in m ==> m[a] == m'[a]) {
      assert Lookup(m, a) == Lookup(m', a);
    }
  }

  /** In every reachable state of a cluster any two running nodes agree on everyone after three full lists. */
  lemma ClusterSync(cl: Cluster, events: seq<Event>, a: string, b: string, fromB: seq<Change>, nowA: seq<int>,
                    fromA: seq<Change>, nowB: seq<int>, again: seq<Change>, nowA': seq<int>)
    requires Bootstrapped(cl)
    requires var cl' := RunCluster(cl, events);
      && a in cl'.nodes && b in cl'.nodes && a != b
      && var x, y := cl'.nodes[a], cl'.nodes[b];
         && !x.stopped && !y.stopped
         && (x.address in x.members ==> ClockPast(x, nowA)) && (y.address in y.members ==> ClockPast(y, nowB))
         && ListOf(y, fromB, nowA) && ListOf(Updated(x, fromB, nowA), fromA, nowB)
         && ListOf(Updated(y, fromA, nowB), again, nowA')
    ensures var cl' := RunCluster(cl, events);
      Updated(Updated(cl'.nodes[a], fromB, nowA), again, nowA').members == Updated(cl'.nodes[b], fromA, nowB).members
  {
    ClusterSafe(cl, events);
    var cl' := RunCluster(cl, events);
    assert NodeSafe(cl', a) && NodeSafe(cl', b);
    var x, y := cl'.nodes[a], cl'.nodes[b];
    assert b in x.members ==> NotAhead(cl', b, x.members[b].incarnation);
    assert a in y.members ==> NotAhead(cl', a, y.members[a].incarnation);
    hide RunCluster, Updated, ListOf, Coupled;
    MutualSync(x, y, fromB, nowA, fromA, nowB, again, nowA');
  }
}
