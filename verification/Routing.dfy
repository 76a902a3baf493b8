/**
  The whole system: member list and ring of a node over every run, and when two nodes
  answer every lookup alike.
 */
module Routing {
  import opened SwimMembers
  import opened SwimNodes
  import opened SwimRuns
  import opened SwimConvergence
  import opened SwimCluster
  import opened SwimSync
  import opened MembershipChecksum
  import opened RingPoints
  import opened RingGuarantees
  import opened RingMembership
  import RedBlackShape

  /** The changes that a step applies, which the ring hears of. */
  function AppliedIn(n: Node, s: Step): seq<Change> {
    if !Allowed(n, s) || n.stopped then [] else AppliedOf(n.members, n.address, Offered(n, s), Readings(n, s))
  }

  /** What a run of a node does to its ring. */
  function RingOps(n: Node, steps: seq<Step>): seq<Op> {
    if steps == [] then []
    else
      var rest := steps[..|steps| - 1];
      RingOps(n, rest) + [RingOp(AppliedIn(RunOf(n, rest), steps[|steps| - 1]))]
  }

  /** Received lists have at most one change about an address. */
  ghost predicate Orderly(steps: seq<Step>) {
    forall s :: s in steps ==> (s.Receive? || s.Join? ==> DistinctAddresses(s.cs))
  }

  ghost function RingOf(c: Setup, address: string, steps: seq<Step>): Ring {
    Run(c, RingOps(FreshNode(address), steps))
  }

  function NodeOf(address: string, steps: seq<Step>): Node {
    RunOf(FreshNode(address), steps)
  }

  lemma StepFollows(n: Node, s: Step, servers: set<string>)
    requires Follows(n.members, servers) && (s.Receive? || s.Join? ==> DistinctAddresses(s.cs))
    ensures Follows(Stepped(n, s).members, Followed(servers, AppliedIn(n, s)))
  {
    if Allowed(n, s) {
      StepMembers(n, s);
    }
    hide Follows, Followed, Stepped, Merged, AppliedOf;
    if Allowed(n, s) && !n.stopped {
      var cs, now := Offered(n, s), Readings(n, s);
      assert DistinctAddresses(cs);
      AppliedDistinct(n.members, n.address, cs, now);
      FollowsIff(n.members, servers, n.address, cs, now);
      forall a {
        DistinctNoRelapse(AppliedOf(n.members, n.address, cs, now), a);
      }
    } else {
      FollowedNothing(servers);
    }
  }

  lemma FollowedNothing(servers: set<string>)
    ensures Followed(servers, []) == servers
  {
  }

  /** Over every run of a node, its ring follows its member list. */
  lemma {:induction false} RingFollowsRun(c: Setup, address: string, steps: seq<Step>)
    requires Orderly(steps)
    ensures Follows(NodeOf(address, steps).members, RingOf(c, address, steps).servers)
  {
    if steps != [] {
      var rest, s := steps[..|steps| - 1], steps[|steps| - 1];
      assert steps == rest + [s] && s in steps;
      assert forall t :: t in rest ==> t in steps;
      RingFollowsRun(c, address, rest);
      var n := NodeOf(address, rest);
      StepFollows(n, s, RingOf(c, address, rest).servers);
      hide Stepped, Follows, Followed, AppliedIn, Apply, Orderly;
      var ops := RingOps(FreshNode(address), rest);
      var op := RingOp(AppliedIn(n, s));
      assert RingOps(FreshNode(address), steps) == ops + [op] && (ops + [op])[..|ops|] == ops;
      RingOpFollows(c, Run(c, ops), AppliedIn(n, s));
    }
  }

  ghost predicate NoSuspects(members: map<string, Member>) {
    forall a :: a in members ==> members[a].status != Suspect
  }

  /** Without suspects the member list leaves the ring no choice. */
  lemma FollowsDetermines(members: map<string, Member>, servers: set<string>, servers': set<string>)
    requires Follows(members, servers) && Follows(members, servers') && NoSuspects(members)
    ensures servers == servers'
  {
    forall a ensures a in servers <==> a in servers' {
      assert FollowsAt(members, servers, a) && FollowsAt(members, servers', a);
    }
  }

  /** Two nodes that know the same members, none of them suspect, have the same ring and answer every
      lookup alike, whatever they went through. */
  lemma SameMembersRouteAlike(c: Setup, x: string, xs: seq<Step>, y: string, ys: seq<Step>,
                              points: seq<RedBlackShape.Entry>, points': seq<RedBlackShape.Entry>, h: int, n: int)
    requires Orderly(xs) && Orderly(ys)
    requires NodeOf(x, xs).members == NodeOf(y, ys).members && NoSuspects(NodeOf(x, xs).members)
    requires DistinctPoints(c, NamedIn(RingOps(FreshNode(x), xs)) + NamedIn(RingOps(FreshNode(y), ys)))
    requires Indexes(points, RingOf(c, x, xs)) && Indexes(points', RingOf(c, y, ys))
    ensures RingOf(c, x, xs).servers == RingOf(c, y, ys).servers && points == points'
    ensures LookupSet(points, RingOf(c, x, xs).servers, h, n) == LookupSet(points', RingOf(c, y, ys).servers, h, n)
  {
    hide Follows, NoSuspects, Orderly, LookupSet, DistinctPoints, Indexes;
    RingFollowsRun(c, x, xs);
    RingFollowsRun(c, y, ys);
    FollowsDetermines(NodeOf(x, xs).members, RingOf(c, x, xs).servers, RingOf(c, y, ys).servers);
    LookupsIndependent(c, RingOps(FreshNode(x), xs), RingOps(FreshNode(y), ys), points, points', h, n);
  }

  /** The claims of two nodes about all third parties agree, and so do their entries about each other. */
  ghost predicate Informed(x: string, xs: seq<Step>, y: string, ys: seq<Step>) {
    && (forall a :: a != x && a != y ==>
          ClaimsAbout(ReachedIn(FreshNode(x), xs), a) == ClaimsAbout(ReachedIn(FreshNode(y), ys), a))
    && Lookup(NodeOf(x, xs).members, x) == Lookup(NodeOf(y, ys).members, x)
    && Lookup(NodeOf(x, xs).members, y) == Lookup(NodeOf(y, ys).members, y)
  }

  lemma InformedAgree(x: string, xs: seq<Step>, y: string, ys: seq<Step>)
    requires Informed(x, xs, y, ys)
    ensures NodeOf(x, xs).members == NodeOf(y, ys).members
  {
    var m, m' := NodeOf(x, xs).members, NodeOf(y, ys).members;
    forall a ensures Lookup(m, a) == Lookup(m', a) {
      if a != x && a != y {
        Converges(FreshNode(x), FreshNode(y), xs, ys, a);
      }
    }
    SameLookups(m, m');
  }

  /** What the system is for: nodes that have heard the same route alike, in whatever order they heard it. */
  lemma InformedRouteAlike(c: Setup, x: string, xs: seq<Step>, y: string, ys: seq<Step>,
                           points: seq<RedBlackShape.Entry>, points': seq<RedBlackShape.Entry>, h: int, n: int)
    requires Orderly(xs) && Orderly(ys) && Informed(x, xs, y, ys) && NoSuspects(NodeOf(x, xs).members)
    requires DistinctPoints(c, NamedIn(RingOps(FreshNode(x), xs)) + NamedIn(RingOps(FreshNode(y), ys)))
    requires Indexes(points, RingOf(c, x, xs)) && Indexes(points', RingOf(c, y, ys))
    ensures LookupSet(points, RingOf(c, x, xs).servers, h, n) == LookupSet(points', RingOf(c, y, ys).servers, h, n)
  {
    hide Informed, Orderly, NoSuspects, LookupSet, DistinctPoints, Indexes;
    InformedAgree(x, xs, y, ys);
    SameMembersRouteAlike(c, x, xs, y, ys, points, points', h, n);
  }

  /** So do nodes whose checksum texts agree, which is all that a ping compares. */
  lemma SameTextsRouteAlike(c: Setup, x: string, xs: seq<Step>, y: string, ys: seq<Step>, l: seq<string>,
                            l': seq<string>,
                            points: seq<RedBlackShape.Entry>, points': seq<RedBlackShape.Entry>, h: int, n: int)
    requires Orderly(xs) && Orderly(ys) && NoSuspects(NodeOf(x, xs).members)
    requires Lists(l, NodeOf(x, xs).members) && Lists(l', NodeOf(y, ys).members)
    requires forall a :: a in NodeOf(x, xs).members || a in NodeOf(y, ys).members ==> Clear(a)
    requires (forall a :: a in l ==> a in NodeOf(x, xs).members) && forall a :: a in l' ==> a in NodeOf(y, ys).members
    requires ChecksumText(l, NodeOf(x, xs).members) == ChecksumText(l', NodeOf(y, ys).members)
    requires DistinctPoints(c, NamedIn(RingOps(FreshNode(x), xs)) + NamedIn(RingOps(FreshNode(y), ys)))
    requires Indexes(points, RingOf(c, x, xs)) && Indexes(points', RingOf(c, y, ys))
    ensures LookupSet(points, RingOf(c, x, xs).servers, h, n) == LookupSet(points', RingOf(c, y, ys).servers, h, n)
  {
    hide NodeOf, ChecksumText, Clear, Lists, Orderly, NoSuspects, LookupSet, DistinctPoints, Indexes;
    ChecksumIdentifies(l, NodeOf(x, xs).members, l', NodeOf(y, ys).members);
    SameMembersRouteAlike(c, x, xs, y, ys, points, points', h, n);
  }

  // After a sync

  /** The steps of a node since it was booted, in a run of its cluster. */
  ghost function StepsOf(cl: Cluster, events: seq<Event>, a: string): (steps: seq<Step>)
    requires Bootstrapped(cl) && a in cl.nodes
    ensures a in RunCluster(cl, events).nodes && RunCluster(cl, events).nodes[a] == NodeOf(a, steps)
  {
    hide Stepped, CanHappen;
    if events == [] then
      var now, boot :| cl.nodes[a] == Booted(a, now, boot);
      OneStep(a, Reincarnate(now, boot));
      [Reincarnate(now, boot)]
    else
      var rest, e := events[..|events| - 1], events[|events| - 1];
      var steps := StepsOf(cl, rest, a);
      if e.address != a || !CanHappen(RunCluster(cl, rest), e) then steps
      else match e
        case At(_, s) =>
          OneStepMore(a, steps, s);
          steps + [s]
        case Restart(_, now, boot) =>
          OneStep(a, Reincarnate(now, boot));
          [Reincarnate(now, boot)]
        case _ => steps
  }

  lemma OneStep(a: string, s: Step)
    ensures NodeOf(a, [s]) == Stepped(FreshNode(a), s)
  {
    hide Stepped;
    assert [s][..0] == [];
    assert RunOf(FreshNode(a), [s]) == Stepped(RunOf(FreshNode(a), []), s);
  }

  lemma OneStepMore(a: string, steps: seq<Step>, s: Step)
    ensures NodeOf(a, steps + [s]) == Stepped(NodeOf(a, steps), s)
  {
    hide Stepped;
    assert (steps + [s])[..|steps|] == steps;
  }

  lemma ReceivedMore(a: string, steps: seq<Step>, cs: seq<Change>, now: seq<int>)
    requires |now| == |cs|
    ensures NodeOf(a, steps + [Receive(cs, now)]) == Updated(NodeOf(a, steps), cs, now)
  {
    OneStepMore(a, steps, Receive(cs, now));
  }

  lemma OrderlyMore(steps: seq<Step>, cs: seq<Change>, now: seq<int>)
    requires Orderly(steps) && DistinctAddresses(cs)
    ensures Orderly(steps + [Receive(cs, now)])
  {
  }

  /**
    After a full sync, y to x, x to y and y to x again, any two running nodes of a reachable cluster
    route alike as soon as they hold nobody suspect, whatever went before.
   */
  lemma SyncedRouteAlike(c: Setup, cl: Cluster, events: seq<Event>, x: string, y: string,
                         fromY: seq<Change>, nowX: seq<int>, fromX: seq<Change>, nowY: seq<int>,
                         again: seq<Change>, nowX': seq<int>,
                         points: seq<RedBlackShape.Entry>, points': seq<RedBlackShape.Entry>, h: int, n: int)
    requires Bootstrapped(cl) && x in cl.nodes && y in cl.nodes && x != y
    requires Orderly(StepsOf(cl, events, x)) && Orderly(StepsOf(cl, events, y))
    requires var m, k := RunCluster(cl, events).nodes[x], RunCluster(cl, events).nodes[y];
      && !m.stopped && !k.stopped
      && (m.address in m.members ==> ClockPast(m, nowX)) && (k.address in k.members ==> ClockPast(k, nowY))
      && ListOf(k, fromY, nowX) && ListOf(Updated(m, fromY, nowX), fromX, nowY)
      && ListOf(Updated(k, fromX, nowY), again, nowX')
    requires var xs := StepsOf(cl, events, x) + [Receive(fromY, nowX)] + [Receive(again, nowX')];
      var ys := StepsOf(cl, events, y) + [Receive(fromX, nowY)];
      && NoSuspects(NodeOf(x, xs).members)
      && DistinctPoints(c, NamedIn(RingOps(FreshNode(x), xs)) + NamedIn(RingOps(FreshNode(y), ys)))
      && Indexes(points, RingOf(c, x, xs)) && Indexes(points', RingOf(c, y, ys))
    ensures var xs := StepsOf(cl, events, x) + [Receive(fromY, nowX)] + [Receive(again, nowX')];
      var ys := StepsOf(cl, events, y) + [Receive(fromX, nowY)];
      && NodeOf(x, xs).members == NodeOf(y, ys).members
      && LookupSet(points, RingOf(c, x, xs).servers, h, n) == LookupSet(points', RingOf(c, y, ys).servers, h, n)
  {
    hide StepsOf, RunCluster, NodeOf, Orderly, NoSuspects, LookupSet, DistinctPoints, Indexes, Updated;
    hide ClockPast, IsFullSync, RingOf, RingOps, NamedIn;
    var hx, hy := StepsOf(cl, events, x), StepsOf(cl, events, y);
    ReceivedMore(x, hx, fromY, nowX);
    ReceivedMore(x, hx + [Receive(fromY, nowX)], again, nowX');
    ReceivedMore(y, hy, fromX, nowY);
    OrderlyMore(hx, fromY, nowX);
    OrderlyMore(hx + [Receive(fromY, nowX)], again, nowX');
    OrderlyMore(hy, fromX, nowY);
    ClusterSync(cl, events, x, y, fromY, nowX, fromX, nowY, again, nowX');
    SameMembersRouteAlike(c, x, hx + [Receive(fromY, nowX)] + [Receive(again, nowX')],
                          y, hy + [Receive(fromX, nowY)], points, points', h, n);
  }
}
