/**
  Atomic updates are a special case of interleaved ones: every run of a node, and of a cluster, is
  matched by one in which nothing gets in between.
 */
module SwimRefinement {
  import opened SwimMembers
  import opened SwimNodes
  import opened SwimCoupling
  import opened SwimRuns
  import opened SwimConvergence
  import C = SwimCluster
  import opened SwimInterleaved

  lemma {:induction false} RunLooseConcat(l: Loose, a: seq<Moment>, b: seq<Moment>)
    ensures RunLoose(l, a + b) == RunLoose(RunLoose(l, a), b)
  {
    if b == [] {
      assert a + b == a;
    } else {
      var k := |b| - 1;
      assert (a + b)[..|a| + k] == a + b[..k] && (a + b)[|a| + k] == b[k];
      RunLooseConcat(l, a, b[..k]);
    }
  }

  lemma RunLooseOne(l: Loose, m: Moment)
    ensures RunLoose(l, [m]) == Happened(l, m)
  {
    assert [m][..0] == [];
    assert RunLoose(l, []) == l;
  }

  // One update without interruption

  /** Do what is left of a task, or its first `n` parts. */
  function Works(task: nat, n: nat): seq<Moment> {
    seq(n, _ => Work(task))
  }

  lemma {:induction false} WorkedOff(l: Loose, k: nat, n: nat)
    requires k < |l.tasks| && n <= |l.tasks[k]|
    ensures RunLoose(l, Works(k, n)) == Loose(DoneAll(l.n, l.tasks[k][..n]), l.tasks[k := l.tasks[k][n..]])
  {
    var t := l.tasks[k];
    if n == 0 {
      assert Works(k, 0) == [] && t[0..] == t;
    } else {
      WorkedOff(l, k, n - 1);
      assert Works(k, n)[..n - 1] == Works(k, n - 1) && t[..n][..n - 1] == t[..n - 1];
      var l' := Loose(DoneAll(l.n, t[..n - 1]), l.tasks[k := t[n - 1..]]);
      assert t[n - 1..][1..] == t[n..] && t[n - 1..][0] == t[n - 1];
      hide Done;
      assert RunLoose(l, Works(k, n)) == Happened(l', Work(k));
      assert Happened(l', Work(k)) == Loose(Done(l'.n, t[n - 1]), l'.tasks[k := t[n..]]);
      assert l'.tasks[k := t[n..]] == l.tasks[k := t[n..]];
      assert DoneAll(l.n, t[..n]) == Done(DoneAll(l.n, t[..n - 1]), t[..n][n - 1]);
    }
  }

  /** Merge changes and do all that follows from them. */
  function Undisturbed(l: Loose, m: Moment): seq<Moment>
    requires May(l, m) && Taken(m)
  {
    OffersTimed(l, m);
    [m] + Works(|l.tasks|, |Micros(AppliedOf(l.n.members, l.n.address, Offers(l.n, m), Clocks(m)))|)
  }

  lemma UndisturbedIsUpdate(l: Loose, m: Moment)
    requires May(l, m) && Taken(m) && !l.n.stopped && |Clocks(m)| == |Offers(l.n, m)|
    ensures RunLoose(l, Undisturbed(l, m)).n == Updated(l.n, Offers(l.n, m), Clocks(m))
  {
    var cs, now := Offers(l.n, m), Clocks(m);
    var applied := AppliedOf(l.n.members, l.n.address, cs, now);
    var l' := Happened(l, m);
    var k, n := |l.tasks|, |Micros(applied)|;
    assert l' == Taking(l, cs, now) && l'.tasks[k] == Micros(applied);
    hide Happened, AppliedOf, Merged, Micros, DoneAll;
    RunLooseOne(l, m);
    RunLooseConcat(l, [m], Works(k, n));
    WorkedOff(l', k, n);
    assert Micros(applied)[..n] == Micros(applied);
    MicrosAreHandled(l'.n, applied);
  }

  // Every step of a node

  /** The merging that a step comes down to. */
  function MomentOf(n: Node, s: Step): Moment
    requires Allowed(n, s)
  {
    match s
    case Receive(cs, now) => Merge(cs, now)
    case Join(cs, now) => Merge(cs, now)
    case Unreachable(a, now) => Suspecting(a, n.members[a].incarnation, now)
    case Timeout(a, i, now) => Expire(a, i, now)
    case Reincarnate(now, boot) => Rejoin(now, boot)
    case LeaveCluster(now) => Depart(LocalIncarnation(n, now), now)
    case _ => TimersOn
  }

  predicate Updates(s: Step) {
    s.Receive? || s.Join? || s.Unreachable? || s.Timeout? || s.Reincarnate? || s.LeaveCluster?
  }

  /** Clear what a join list has changed about others. */
  function Clears(local: string, applied: seq<Change>): seq<Moment> {
    if applied == [] then []
    else
      var k := |applied| - 1;
      Clears(local, applied[..k]) + if applied[k].address == local then [] else [Clear(applied[k].address)]
  }

  function Moments(l: Loose, s: Step): seq<Moment>
    requires Allowed(l.n, s)
  {
    match s
    case Spread(addresses, maxP) => [Counting(addresses, maxP)]
    case Disable => [TimersOff]
    case Reenable => [TimersOn]
    case StopNode => [TimersOff, SetStopped(true)]
    case StartNode => [TimersOn, SetStopped(false)]
    case Join(cs, now) =>
      if l.n.stopped then []
      else Undisturbed(l, Merge(cs, now)) + Clears(l.n.address, AppliedOf(l.n.members, l.n.address, cs, now))
    case _ => if l.n.stopped then [] else Undisturbed(l, MomentOf(l.n, s))
  }

  lemma {:induction false} ClearsClear(l: Loose, applied: seq<Change>)
    ensures RunLoose(l, Clears(l.n.address, applied)).n == Cleared(l.n, applied)
  {
    hide RunLoose, Happened, Cleared;
    if applied == [] {
      ClearedNone(l.n);
      NothingHappens(l);
    } else {
      var k := |applied| - 1;
      var c := applied[k];
      assert applied == applied[..k] + [c];
      ClearsClear(l, applied[..k]);
      ClearedExtend(l.n, applied[..k], c);
      if c.address != l.n.address {
        RunLooseConcat(l, Clears(l.n.address, applied[..k]), [Clear(c.address)]);
        var l' := RunLoose(l, Clears(l.n.address, applied[..k]));
        RunLooseOne(l', Clear(c.address));
        ClearOne(l', c.address);
      } else {
        assert Clears(l.n.address, applied) == Clears(l.n.address, applied[..k]);
      }
    }
  }

  lemma NothingHappens(l: Loose)
    ensures RunLoose(l, []) == l
  {
  }

  lemma ClearOne(l: Loose, a: string)
    ensures Happened(l, Clear(a)).n == l.n.(pending := l.n.pending - {a})
  {
  }

  /** The clock is read for a refutation only. */
  lemma ClockIrrelevant(n: Node, c: Change, now: int, now': int)
    requires !LocalOverride(c.address, n.address, c)
    ensures Updated(n, [c], [now]) == Updated(n, [c], [now'])
  {
    if !n.stopped {
      SingleUpdate(n, c, now);
      SingleUpdate(n, c, now');
      hide Updated, Handled;
      assert Decide(n.members, n.address, c, now) == Decide(n.members, n.address, c, now');
    }
  }

  lemma MomentOfOffers(l: Loose, s: Step)
    requires Allowed(l.n, s) && Updates(s)
    ensures var m := MomentOf(l.n, s);
      && May(l, m) && Taken(m) && Offers(l.n, m) == Offered(l.n, s) && |Clocks(m)| == |Offers(l.n, m)|
      && Updated(l.n, Offers(l.n, m), Clocks(m)) == Updated(l.n, Offered(l.n, s), Readings(l.n, s))
  {
    hide Updated;
    if s.Reincarnate? {
      ClockIrrelevant(l.n, MakeChange(l.n, l.n.address, s.now, Alive, s.boot), s.now, s.boot);
    }
  }

  /** Every step is a sequence of moments. */
  lemma StepIsMoments(l: Loose, s: Step)
    requires Allowed(l.n, s)
    ensures RunLoose(l, Moments(l, s)).n == Stepped(l.n, s)
  {
    if Updates(s) {
      UpdateIsMoments(l, s);
    } else {
      SwitchIsMoments(l, s);
    }
  }

  lemma UpdateIsMoments(l: Loose, s: Step)
    requires Allowed(l.n, s) && Updates(s)
    ensures RunLoose(l, Moments(l, s)).n == Stepped(l.n, s)
  {
    MomentOfOffers(l, s);
    hide Updated, Undisturbed, May, Offers, Offered, Readings, RunLoose;
    if l.n.stopped {
      StoppedStays(l, s);
    } else {
      var m := MomentOf(l.n, s);
      UndisturbedIsUpdate(l, m);
      if s.Join? {
        JoinIsMoments(l, s.cs, s.clock);
      }
    }
  }

  lemma StoppedStays(l: Loose, s: Step)
    requires Allowed(l.n, s) && Updates(s) && l.n.stopped
    ensures Stepped(l.n, s) == l.n && Moments(l, s) == [] && RunLoose(l, []) == l
  {
  }

  lemma JoinIsMoments(l: Loose, cs: seq<Change>, now: seq<int>)
    requires |now| == |cs| && !l.n.stopped
    ensures RunLoose(l, Moments(l, Join(cs, now))).n == Stepped(l.n, Join(cs, now))
  {
    var m, applied := Merge(cs, now), AppliedOf(l.n.members, l.n.address, cs, now);
    UndisturbedIsUpdate(l, m);
    UpdateAddress(l.n, cs, now);
    hide Updated, Undisturbed, AppliedOf, RunLoose, Cleared, Clears;
    RunLooseConcat(l, Undisturbed(l, m), Clears(l.n.address, applied));
    ClearsClear(RunLoose(l, Undisturbed(l, m)), applied);
    assert Moments(l, Join(cs, now)) == Undisturbed(l, m) + Clears(l.n.address, applied);
    assert Offers(l.n, m) == cs && Clocks(m) == now && Offered(l.n, Join(cs, now)) == cs;
    assert Readings(l.n, Join(cs, now)) == now;
  }

  lemma SwitchIsMoments(l: Loose, s: Step)
    requires Allowed(l.n, s) && !Updates(s)
    ensures RunLoose(l, Moments(l, s)).n == Stepped(l.n, s)
  {
    UpdatedNothing(l.n);
    hide Updated, RunLoose;
    var ms := Moments(l, s);
    if |ms| == 2 {
      assert ms == [ms[0]] + [ms[1]];
      RunLooseConcat(l, [ms[0]], [ms[1]]);
      RunLooseOne(l, ms[0]);
      RunLooseOne(Happened(l, ms[0]), ms[1]);
    } else {
      assert ms == [ms[0]];
      RunLooseOne(l, ms[0]);
    }
  }

  /** Every run of a node with atomic updates is a run with interleaved ones. */
  lemma {:induction false} RunIsMoments(l: Loose, steps: seq<Step>)
    ensures exists ms :: RunLoose(l, ms).n == RunOf(l.n, steps)
  {
    if steps == [] {
      assert RunLoose(l, []).n == l.n;
    } else {
      hide Stepped, Happened;
      var rest, s := steps[..|steps| - 1], steps[|steps| - 1];
      RunIsMoments(l, rest);
      var ms :| RunLoose(l, ms).n == RunOf(l.n, rest);
      var l' := RunLoose(l, ms);
      if Allowed(l'.n, s) {
        StepIsMoments(l', s);
        RunLooseConcat(l, ms, Moments(l', s));
      } else {
        NotAllowedStays(l'.n, s);
      }
    }
  }

  lemma NotAllowedStays(n: Node, s: Step)
    requires !Allowed(n, s)
    ensures Stepped(n, s) == n
  {
  }

  // Every event of a cluster

  /** The same nodes, apart from unfinished work, and the same messages. */
  ghost predicate Matches(ms: Mesh, cl: C.Cluster) {
    && ms.net == cl.net && ms.nodes.Keys == cl.nodes.Keys
    && forall a :: a in ms.nodes ==> ms.nodes[a].n == cl.nodes[a]
  }

  function AllAt(a: string, moments: seq<Moment>): seq<Event> {
    seq(|moments|, i requires 0 <= i < |moments| => Event.At(a, moments[i]))
  }

  lemma {:induction false} RunMeshConcat(ms: Mesh, a: seq<Event>, b: seq<Event>)
    ensures RunMesh(ms, a + b) == RunMesh(RunMesh(ms, a), b)
  {
    if b == [] {
      assert a + b == a;
    } else {
      hide NextMesh;
      var k := |b| - 1;
      assert (a + b)[..|a| + k] == a + b[..k] && (a + b)[|a| + k] == b[k];
      RunMeshConcat(ms, a, b[..k]);
    }
  }

  lemma RunMeshOne(ms: Mesh, e: Event)
    ensures RunMesh(ms, [e]) == NextMesh(ms, e)
  {
    hide NextMesh;
    assert [e][..0] == [];
    assert RunMesh(ms, []) == ms;
  }

  /** Moments that read no clock can occur whenever they may. */
  lemma MomentOccurs(ms: Mesh, a: string, m: Moment)
    requires a in ms.nodes && (m.Merge? ==> forall c :: c in m.cs ==> c in ms.net)
    requires !m.Rejoin? ==> C.ClockAhead(ms.nodes[a].n, Clocks(m))
    ensures NextMesh(ms, Event.At(a, m)) == ms.(nodes := ms.nodes[a := Happened(ms.nodes[a], m)])
  {
    hide Happened, May;
    if !May(ms.nodes[a], m) {
      MayNot(ms.nodes[a], m);
      assert ms.nodes[a := ms.nodes[a]] == ms.nodes;
    }
  }

  lemma MayNot(l: Loose, m: Moment)
    requires !May(l, m)
    ensures Happened(l, m) == l
  {
  }

  lemma {:induction false} QuietOccur(ms: Mesh, a: string, moments: seq<Moment>)
    requires a in ms.nodes && forall i :: 0 <= i < |moments| ==> !Taken(moments[i])
    ensures RunMesh(ms, AllAt(a, moments)) == ms.(nodes := ms.nodes[a := RunLoose(ms.nodes[a], moments)])
  {
    if moments == [] {
      assert ms.nodes[a := ms.nodes[a]] == ms.nodes;
    } else {
      hide NextMesh, Happened;
      var k := |moments| - 1;
      QuietOccur(ms, a, moments[..k]);
      assert AllAt(a, moments)[..k] == AllAt(a, moments[..k]);
      var ms' := RunMesh(ms, AllAt(a, moments[..k]));
      MomentOccurs(ms', a, moments[k]);
    }
  }

  /** After the first moment of a step nothing more is merged. */
  lemma QuietAfterFirst(l: Loose, s: Step)
    requires Allowed(l.n, s)
    ensures var ms := Moments(l, s);
      && (forall i :: 1 <= i < |ms| ==> !Taken(ms[i]))
      && (ms != [] && Taken(ms[0]) ==> Updates(s) && ms[0] == MomentOf(l.n, s))
  {
    hide AppliedOf, Micros, May, Offers;
    if s.Join? && !l.n.stopped {
      ClearsQuiet(l.n.address, AppliedOf(l.n.members, l.n.address, s.cs, s.clock));
    }
    if Updates(s) {
      MomentOfOffers(l, s);
    }
  }

  lemma {:induction false} ClearsQuiet(local: string, applied: seq<Change>)
    ensures forall i :: 0 <= i < |Clears(local, applied)| ==> Clears(local, applied)[i].Clear?
  {
    if applied != [] {
      ClearsQuiet(local, applied[..|applied| - 1]);
    }
  }

  /** The first of some moments can occur, and the others read no clock: so they all occur. */
  lemma AllOccur(ms: Mesh, a: string, moments: seq<Moment>)
    requires a in ms.nodes && moments != [] && forall i :: 1 <= i < |moments| ==> !Taken(moments[i])
    requires NextMesh(ms, Event.At(a, moments[0])) == ms.(nodes := ms.nodes[a := Happened(ms.nodes[a], moments[0])])
    ensures RunMesh(ms, AllAt(a, moments)) == ms.(nodes := ms.nodes[a := RunLoose(ms.nodes[a], moments)])
  {
    hide NextMesh, Happened, RunLoose, RunMesh, Taken, AllAt;
    var l, first, rest := ms.nodes[a], moments[0], moments[1..];
    AllAtSplit(a, moments);
    RunMeshOne(ms, Event.At(a, first));
    RunMeshConcat(ms, [Event.At(a, first)], AllAt(a, rest));
    QuietOccur(NextMesh(ms, Event.At(a, first)), a, rest);
    RunLooseOne(l, first);
    RunLooseConcat(l, [first], rest);
    AssignTwice(ms.nodes, a, Happened(l, first), RunLoose(l, moments));
  }

  lemma AllAtSplit(a: string, moments: seq<Moment>)
    requires moments != []
    ensures moments == [moments[0]] + moments[1..]
    ensures AllAt(a, moments) == [Event.At(a, moments[0])] + AllAt(a, moments[1..])
  {
  }

  lemma AssignTwice(nodes: map<string, Loose>, a: string, l: Loose, l': Loose)
    ensures nodes[a := l][a := l'] == nodes[a := l']
  {
  }

  /** A step of a node in a cluster, as events of the mesh. */
  lemma StepIsEvents(ms: Mesh, cl: C.Cluster, a: string, s: Step)
    requires Matches(ms, cl) && C.CanHappen(cl, C.At(a, s))
    ensures Matches(RunMesh(ms, AllAt(a, Moments(ms.nodes[a], s))), C.Next(cl, C.At(a, s)))
  {
    hide Moments, Stepped, NextMesh, RunMesh, RunLoose, Taken, AllAt;
    var l := ms.nodes[a];
    assert l.n == cl.nodes[a];
    var moments := Moments(l, s);
    StepIsMoments(l, s);
    QuietAfterFirst(l, s);
    if moments == [] {
      NothingOccurs(ms, a, moments);
    } else {
      FirstOccurs(ms, cl, a, s, moments[0]);
      AllOccur(ms, a, moments);
    }
    StepMatches(ms, cl, a, RunLoose(l, moments), s);
  }

  lemma NothingOccurs(ms: Mesh, a: string, moments: seq<Moment>)
    requires a in ms.nodes && moments == []
    ensures RunMesh(ms, AllAt(a, moments)) == ms.(nodes := ms.nodes[a := RunLoose(ms.nodes[a], moments)])
  {
    assert ms.nodes[a := ms.nodes[a]] == ms.nodes;
  }

  lemma StepMatches(ms: Mesh, cl: C.Cluster, a: string, l: Loose, s: Step)
    requires Matches(ms, cl) && C.CanHappen(cl, C.At(a, s)) && l.n == Stepped(cl.nodes[a], s)
    ensures Matches(ms.(nodes := ms.nodes[a := l]), C.Next(cl, C.At(a, s)))
  {
    hide Stepped;
  }

  lemma FirstOccurs(ms: Mesh, cl: C.Cluster, a: string, s: Step, first: Moment)
    requires Matches(ms, cl) && C.CanHappen(cl, C.At(a, s))
    requires Taken(first) ==> Updates(s) && first == MomentOf(ms.nodes[a].n, s)
    ensures NextMesh(ms, Event.At(a, first)) == ms.(nodes := ms.nodes[a := Happened(ms.nodes[a], first)])
  {
    hide NextMesh, Happened, May;
    assert ms.nodes[a].n == cl.nodes[a];
    MomentOccurs(ms, a, first);
  }

  /** Every event of a cluster with atomic updates is matched by events without. */
  lemma EventIsEvents(ms: Mesh, cl: C.Cluster, e: C.Event)
    requires Matches(ms, cl)
    ensures exists es :: Matches(RunMesh(ms, es), C.Next(cl, e))
  {
    if !C.CanHappen(cl, e) {
      assert Matches(RunMesh(ms, []), C.Next(cl, e));
    } else if e.At? {
      StepIsEvents(ms, cl, e.address, e.step);
    } else {
      var e' := if e.Gossip? then Event.Gossip(e.address) else if e.SyncAll? then Event.SyncAll(e.address)
                else Event.Restart(e.address, e.now, e.boot);
      OtherEvent(ms, cl, e, e');
      RunMeshOne(ms, e');
      assert Matches(RunMesh(ms, [e']), C.Next(cl, e));
    }
  }

  lemma OtherEvent(ms: Mesh, cl: C.Cluster, e: C.Event, e': Event)
    requires Matches(ms, cl) && C.CanHappen(cl, e) && !e.At? && e'.address == e.address
    requires (e.Gossip? <==> e'.Gossip?) && (e.SyncAll? <==> e'.SyncAll?)
    requires e.Restart? ==> e' == Event.Restart(e.address, e.now, e.boot)
    ensures Matches(NextMesh(ms, e'), C.Next(cl, e))
  {
    hide C.Booted, C.SyncChanges;
    assert ms.nodes[e.address].n == cl.nodes[e.address];
  }

  /** Every run of a cluster with atomic updates is matched by a run without. */
  lemma {:induction false} ClusterIsMesh(ms: Mesh, cl: C.Cluster, events: seq<C.Event>)
    requires Matches(ms, cl)
    ensures exists es :: Matches(RunMesh(ms, es), C.RunCluster(cl, events))
  {
    if events == [] {
      assert Matches(RunMesh(ms, []), C.RunCluster(cl, events));
    } else {
      var rest, e := events[..|events| - 1], events[|events| - 1];
      ClusterIsMesh(ms, cl, rest);
      var es :| Matches(RunMesh(ms, es), C.RunCluster(cl, rest));
      hide Matches, C.Next, NextMesh;
      EventIsEvents(RunMesh(ms, es), C.RunCluster(cl, rest), e);
      var es' :| Matches(RunMesh(RunMesh(ms, es), es'), C.Next(C.RunCluster(cl, rest), e));
      RunMeshConcat(ms, es, es');
    }
  }
}
