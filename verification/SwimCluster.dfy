/**
  A cluster of SWIM nodes and the changes in flight between them.  Messages may be
  lost, repeated, reordered and cut into batches in any way.
 */
module SwimCluster {
  import opened SwimMembers
  import opened SwimNodes
  import opened SwimCoupling
  import opened SwimRuns
  import opened SwimConvergence

  datatype Cluster = Cluster(nodes: map<string, Node>, net: set<Change>)

  datatype Event =
    | At(address: string, step: Step)
    | Gossip(address: string)             // pending changes go out
    | SyncAll(address: string)            // the whole member list goes out
    | Restart(address: string, now: int, boot: int)  // a node loses its memory and bootstraps again

  function Booted(address: string, now: int, boot: int): Node {
    Stepped(FreshNode(address), Reincarnate(now, boot))
  }

  /** The incarnation of a node according to itself. */
  function Own(cl: Cluster, a: string): int
    requires a in cl.nodes && a in cl.nodes[a].members
  {
    cl.nodes[a].members[a].incarnation
  }

  ghost predicate ClockAhead(n: Node, readings: seq<int>) {
    && (n.address in n.members ==> forall i :: 0 <= i < |readings| ==> readings[i] >= n.members[n.address].incarnation)
    && forall i, j :: 0 <= i < j < |readings| ==> readings[i] <= readings[j]
  }

  /** When an event can happen: received changes come from the network, and a node's clock
      is never behind an incarnation it used before. */
  ghost predicate CanHappen(cl: Cluster, e: Event) {
    && e.address in cl.nodes
    && var n := cl.nodes[e.address];
       match e
       case At(_, s) =>
         && Allowed(n, s) && ClockAhead(n, Readings(n, s))
         && ((s.Receive? || s.Join?) ==> forall c :: c in Offered(n, s) ==> c in cl.net)
       case Restart(_, now, _) => ClockAhead(n, [now])
       case _ => true
  }

  ghost function SyncChanges(n: Node): set<Change> {
    set a | a in n.members ::
      Change(n.address, LocalIncarnation(n, -1), a, n.members[a].incarnation, n.members[a].status)
  }

  ghost function Next(cl: Cluster, e: Event): Cluster {
    if !CanHappen(cl, e) then cl
    else
      var n := cl.nodes[e.address];
      match e
      case At(a, s) => cl.(nodes := cl.nodes[a := Stepped(n, s)])
      case Gossip(_) => cl.(net := cl.net + set b | b in n.pending :: n.pending[b].change)
      case SyncAll(_) => cl.(net := cl.net + SyncChanges(n))
      case Restart(a, now, boot) => cl.(nodes := cl.nodes[a := Booted(a, now, boot)])
  }

  ghost function RunCluster(cl: Cluster, events: seq<Event>): Cluster {
    if events == [] then cl else Next(RunCluster(cl, events[..|events| - 1]), events[|events| - 1])
  }

  /** Every node has just bootstrapped and nothing was sent. */
  ghost predicate Bootstrapped(cl: Cluster) {
    cl.net == {} && forall a :: a in cl.nodes ==> exists now, boot :: cl.nodes[a] == Booted(a, now, boot)
  }

  // Safety

  ghost predicate KnowsItself(n: Node, a: string) {
    n.address == a && a in n.members && n.members[a].status != Suspect && n.members[a].status != Faulty
  }

  /** A claim about `a` is not ahead of `a` itself. */
  ghost predicate NotAhead(cl: Cluster, a: string, incarnation: int) {
    a in cl.nodes && a in cl.nodes[a].members && incarnation <= Own(cl, a)
  }

  ghost predicate NodeSafe(cl: Cluster, b: string)
    requires b in cl.nodes
  {
    var n := cl.nodes[b];
    && KnowsItself(n, b) && Coupled(n)
    && forall a :: a in n.members ==> NotAhead(cl, a, n.members[a].incarnation)
  }

  ghost predicate Invariant(cl: Cluster) {
    && (forall b :: b in cl.nodes ==> NodeSafe(cl, b))
    && (forall c :: c in cl.net ==> NotAhead(cl, c.address, c.incarnation))
  }

  /** No entry, pending change, timer, callback or message about an address is ahead of that
      address itself, and no node holds itself suspect or faulty. */
  ghost predicate Safe(cl: Cluster) {
    && (forall b :: b in cl.nodes ==>
          var n := cl.nodes[b];
          && b in n.members && n.members[b].status != Suspect && n.members[b].status != Faulty
          && (forall a :: a in n.members ==> NotAhead(cl, a, n.members[a].incarnation))
          && (forall a :: a in n.pending ==> NotAhead(cl, a, n.pending[a].change.incarnation))
          && (forall a :: a in n.timers ==> NotAhead(cl, a, n.timers[a]))
          && (forall a, i :: (a, i) in n.callbacks ==> NotAhead(cl, a, i)))
    && (forall c :: c in cl.net ==> NotAhead(cl, c.address, c.incarnation))
  }

  lemma NodeSafeParts(cl: Cluster, b: string)
    requires b in cl.nodes && NodeSafe(cl, b)
    ensures var n := cl.nodes[b];
      && (forall a :: a in n.pending ==> NotAhead(cl, a, n.pending[a].change.incarnation))
      && (forall a :: a in n.timers ==> NotAhead(cl, a, n.timers[a]))
      && (forall a, i :: (a, i) in n.callbacks ==> NotAhead(cl, a, i))
  {
    var n := cl.nodes[b];
    forall a, i | (a, i) in n.callbacks ensures NotAhead(cl, a, i) {
      assert CallbackBelow(n, a, i);
    }
    forall a | a in n.timers ensures NotAhead(cl, a, n.timers[a]) {
      assert CoupledAt(n, a);
    }
    forall a | a in n.pending ensures NotAhead(cl, a, n.pending[a].change.incarnation) {
      assert CoupledAt(n, a);
    }
  }

  lemma InvariantIsSafe(cl: Cluster)
    requires Invariant(cl)
    ensures Safe(cl)
  {
    hide NotAhead, Coupled;
    forall b | b in cl.nodes
      ensures var n := cl.nodes[b];
        && (forall a :: a in n.pending ==> NotAhead(cl, a, n.pending[a].change.incarnation))
        && (forall a :: a in n.timers ==> NotAhead(cl, a, n.timers[a]))
        && (forall a, i :: (a, i) in n.callbacks ==> NotAhead(cl, a, i))
    {
      NodeSafeParts(cl, b);
    }
  }

  predicate AliveOrLeft(members: map<string, Member>, local: string) {
    local in members && members[local].status != Suspect && members[local].status != Faulty
  }

  /** A node's own entry stays alive or left, and its incarnation never goes back. */
  lemma {:induction false} OwnMerged(members: map<string, Member>, local: string, cs: seq<Change>, now: seq<int>)
    requires |now| == |cs| && AliveOrLeft(members, local)
    requires forall i :: 0 <= i < |cs| ==> members[local].incarnation <= now[i]
    requires forall i, j :: 0 <= i < j < |cs| ==> now[i] <= now[j]
    requires forall i :: 0 <= i < |cs| && cs[i].address == local ==> cs[i].incarnation <= members[local].incarnation
    ensures var m := Merged(members, local, cs, now);
      && AliveOrLeft(m, local) && members[local].incarnation <= m[local].incarnation
      && (m[local].incarnation == members[local].incarnation || (cs != [] && m[local].incarnation <= now[|cs| - 1]))
  {
    if cs != [] {
      var k := |cs| - 1;
      OwnMerged(members, local, cs[..k], now[..k]);
      var m := Merged(members, local, cs[..k], now[..k]);
      OwnTaken(m, local, cs[k], now[k]);
    }
  }

  lemma OwnTaken(members: map<string, Member>, local: string, c: Change, now: int)
    requires AliveOrLeft(members, local) && members[local].incarnation <= now
    ensures var m := TakeOne(members, Decide(members, local, c, now));
      && AliveOrLeft(m, local) && members[local].incarnation <= m[local].incarnation
      && (m[local].incarnation == members[local].incarnation || m[local].incarnation == now
          || (c.address == local && m[local].incarnation == c.incarnation))
  {
  }

  // Steps keep the invariant

  /** What a step of `b` offers is not ahead of anyone, except `b` on itself. */
  lemma OffersNotAhead(cl: Cluster, b: string, s: Step)
    requires Invariant(cl) && CanHappen(cl, At(b, s))
    ensures forall c :: c in Offered(cl.nodes[b], s) ==>
      (s.Reincarnate? && c.address == b) || NotAhead(cl, c.address, c.incarnation)
  {
    hide Invariant, CanHappen, NodeSafe, NotAhead, Coupled;
    StepFacts(cl, b, s);
    var n := cl.nodes[b];
    forall c | c in Offered(n, s)
      ensures (s.Reincarnate? && c.address == b) || NotAhead(cl, c.address, c.incarnation)
    {
      match s {
        case Receive(_, _) => NetNotAhead(cl, b, s, c);
        case Join(_, _) => NetNotAhead(cl, b, s, c);
        case Unreachable(a, _) => HeldNotAhead(cl, b, a);
        case Timeout(a, i, _) => CalledBackNotAhead(cl, b, a, i);
        case LeaveCluster(_) => HeldNotAhead(cl, b, b);
        case _ =>
      }
    }
  }

  lemma NetNotAhead(cl: Cluster, b: string, s: Step, c: Change)
    requires Invariant(cl) && CanHappen(cl, At(b, s)) && (s.Receive? || s.Join?) && c in Offered(cl.nodes[b], s)
    ensures NotAhead(cl, c.address, c.incarnation)
  {
  }

  lemma HeldNotAhead(cl: Cluster, b: string, a: string)
    requires Invariant(cl) && b in cl.nodes && a in cl.nodes[b].members
    ensures NotAhead(cl, a, cl.nodes[b].members[a].incarnation)
  {
    assert NodeSafe(cl, b);
  }

  lemma CalledBackNotAhead(cl: Cluster, b: string, a: string, i: int)
    requires Invariant(cl) && b in cl.nodes && (a, i) in cl.nodes[b].callbacks
    ensures NotAhead(cl, a, i)
  {
    assert NodeSafe(cl, b);
    NodeSafeParts(cl, b);
  }

  lemma MergedOne(members: map<string, Member>, local: string, c: Change, now: int)
    ensures Merged(members, local, [c], [now]) == TakeOne(members, Decide(members, local, c, now))
  {
    assert [c][..0] == [] && [now][..0] == [];
    assert Merged(members, local, [], []) == members;
  }

  lemma StepMembers(n: Node, s: Step)
    requires Allowed(n, s)
    ensures Stepped(n, s).address == n.address
    ensures Stepped(n, s).members ==
            if n.stopped then n.members else Merged(n.members, n.address, Offered(n, s), Readings(n, s))
  {
    UpdateAddress(n, Offered(n, s), Readings(n, s));
  }

  lemma StepOwn(cl: Cluster, b: string, s: Step)
    requires Invariant(cl) && CanHappen(cl, At(b, s))
    ensures var n' := Stepped(cl.nodes[b], s);
      KnowsItself(n', b) && Coupled(n') && Own(cl, b) <= n'.members[b].incarnation
  {
    hide Invariant, CanHappen, Coupled, Stepped, Merged, Offered, Readings;
    OffersNotAhead(cl, b, s);
    StepFacts(cl, b, s);
    var n := cl.nodes[b];
    StepCoupled(n, s);
    StepMembers(n, s);
    var cs, now := Offered(n, s), Readings(n, s);
    if s.Reincarnate? {
      ReincarnateOffers(n, s);
      OwnTaken(n.members, b, cs[0], now[0]);
      MergedOne(n.members, b, cs[0], now[0]);
    } else {
      assert forall i :: 0 <= i < |cs| ==> cs[i] in cs;
      OwnMerged(n.members, b, cs, now);
    }
  }

  lemma ReincarnateOffers(n: Node, s: Step)
    requires s.Reincarnate?
    ensures Offered(n, s) == [MakeChange(n, n.address, s.now, Alive, s.boot)] && Readings(n, s) == [s.now]
  {
  }

  lemma StepFacts(cl: Cluster, b: string, s: Step)
    requires Invariant(cl) && CanHappen(cl, At(b, s))
    ensures b in cl.nodes && Allowed(cl.nodes[b], s) && ClockAhead(cl.nodes[b], Readings(cl.nodes[b], s))
    ensures KnowsItself(cl.nodes[b], b) && Coupled(cl.nodes[b])
  {
    assert NodeSafe(cl, b);
  }

  /** Entries about others come from old entries or from what was offered. */
  lemma StepOthers(cl: Cluster, b: string, s: Step, a: string)
    requires Invariant(cl) && CanHappen(cl, At(b, s)) && a != b && a in Stepped(cl.nodes[b], s).members
    ensures NotAhead(cl, a, Stepped(cl.nodes[b], s).members[a].incarnation)
  {
    var n := cl.nodes[b];
    var n' := Stepped(n, s);
    assert NodeSafe(cl, b);
    StepIsGreatest(n, s, a);
    OffersNotAhead(cl, b, s);
    hide Stepped;
    if Lookup(n'.members, a) != Lookup(n.members, a) {
      var c :| c in Reached(n, s) && c.address == a && Claim(c) == n'.members[a];
      assert NotAhead(cl, a, c.incarnation);
    }
  }

  lemma NotAheadGrows(cl: Cluster, cl': Cluster, b: string)
    requires b in cl.nodes && b in cl'.nodes && b in cl.nodes[b].members && cl'.nodes == cl.nodes[b := cl'.nodes[b]]
    requires b in cl'.nodes[b].members && Own(cl, b) <= Own(cl', b)
    ensures forall a, i :: NotAhead(cl, a, i) ==> NotAhead(cl', a, i)
  {
  }

  lemma StepKeepsInvariant(cl: Cluster, b: string, s: Step)
    requires Invariant(cl) && CanHappen(cl, At(b, s))
    ensures Invariant(Next(cl, At(b, s)))
  {
    var n, cl' := cl.nodes[b], Next(cl, At(b, s));
    var n' := Stepped(n, s);
    StepOwn(cl, b, s);
    assert NodeSafe(cl, b);
    NotAheadGrows(cl, cl', b);
    forall a | a in n'.members
      ensures NotAhead(cl', a, n'.members[a].incarnation)
    {
      if a != b {
        StepOthers(cl, b, s, a);
      }
    }
    hide Stepped, Coupled;
    ReplacedNode(cl, cl', b);
  }

  /** Replacing one safe node that is not behind its old self keeps the invariant. */
  lemma ReplacedNode(cl: Cluster, cl': Cluster, b: string)
    requires Invariant(cl) && b in cl.nodes && b in cl'.nodes
    requires cl'.nodes == cl.nodes[b := cl'.nodes[b]] && cl'.net == cl.net
    requires forall a, i :: NotAhead(cl, a, i) ==> NotAhead(cl', a, i)
    requires NodeSafe(cl', b)
    ensures Invariant(cl')
  {
    hide Coupled, NotAhead;
    forall x | x in cl'.nodes
      ensures NodeSafe(cl', x)
    {
      if x != b {
        assert NodeSafe(cl, x);
      }
    }
  }

  lemma BootedNode(a: string, now: int, boot: int)
    ensures var n := Booted(a, now, boot);
      && KnowsItself(n, a) && Coupled(n) && n.members == map[a := Member(Alive, now)]
  {
    StepCoupled(FreshNode(a), Reincarnate(now, boot));
    SingleUpdate(FreshNode(a), MakeChange(FreshNode(a), a, now, Alive, boot), now);
  }

  lemma GossipKeepsInvariant(cl: Cluster, b: string)
    requires Invariant(cl) && b in cl.nodes
    ensures Invariant(Next(cl, Gossip(b)))
  {
    var n, cl' := cl.nodes[b], Next(cl, Gossip(b));
    assert NodeSafe(cl, b);
    NodeSafeParts(cl, b);
    forall c | c in cl'.net ensures NotAhead(cl, c.address, c.incarnation) {
      if c !in cl.net {
        var a :| a in n.pending && c == n.pending[a].change;
        assert CoupledAt(n, a);
      }
    }
    SameNodes(cl, cl');
  }

  lemma RestartAhead(cl: Cluster, b: string, now: int, boot: int)
    requires Invariant(cl) && CanHappen(cl, Restart(b, now, boot))
    ensures b in cl.nodes && b in cl.nodes[b].members && Own(cl, b) <= now
  {
    assert NodeSafe(cl, b);
    assert [now][0] == now;
  }

  lemma RestartKeepsInvariant(cl: Cluster, b: string, now: int, boot: int)
    requires Invariant(cl) && CanHappen(cl, Restart(b, now, boot))
    ensures Invariant(Next(cl, Restart(b, now, boot)))
  {
    hide Invariant, CanHappen, Coupled, Booted;
    RestartAhead(cl, b, now, boot);
    BootedNode(b, now, boot);
    var cl' := cl.(nodes := cl.nodes[b := Booted(b, now, boot)]);
    NotAheadGrows(cl, cl', b);
    ReplacedNode(cl, cl', b);
  }

  lemma SyncKeepsInvariant(cl: Cluster, b: string)
    requires Invariant(cl) && b in cl.nodes
    ensures Invariant(Next(cl, SyncAll(b)))
  {
    var n, cl' := cl.nodes[b], Next(cl, SyncAll(b));
    forall c | c in cl'.net ensures NotAhead(cl, c.address, c.incarnation) {
      if c !in cl.net {
        var a :| a in n.members && c.address == a && c.incarnation == n.members[a].incarnation;
        HeldNotAhead(cl, b, a);
      }
    }
    hide NotAhead, NodeSafe;
    SameNodes(cl, cl');
  }

  lemma NextKeepsInvariant(cl: Cluster, e: Event)
    requires Invariant(cl)
    ensures Invariant(Next(cl, e))
  {
    hide Invariant;
    if CanHappen(cl, e) {
      match e {
        case At(b, s) => StepKeepsInvariant(cl, b, s);
        case Gossip(b) => GossipKeepsInvariant(cl, b);
        case SyncAll(b) => SyncKeepsInvariant(cl, b);
        case Restart(b, now, boot) => RestartKeepsInvariant(cl, b, now, boot);
      }
    }
  }

  lemma SameNodes(cl: Cluster, cl': Cluster)
    requires Invariant(cl) && cl'.nodes == cl.nodes
    requires forall c :: c in cl'.net ==> NotAhead(cl, c.address, c.incarnation)
    ensures Invariant(cl')
  {
    assert forall a, i :: NotAhead(cl, a, i) == NotAhead(cl', a, i);
    forall x | x in cl'.nodes ensures NodeSafe(cl', x) {
      assert NodeSafe(cl, x);
    }
  }

  lemma BootstrappedInvariant(cl: Cluster)
    requires Bootstrapped(cl)
    ensures Invariant(cl)
  {
    forall b | b in cl.nodes ensures NodeSafe(cl, b) {
      var now, boot :| cl.nodes[b] == Booted(b, now, boot);
      BootedNode(b, now, boot);
    }
  }

  /** Safety over every run of a bootstrapped cluster. */
  lemma {:induction false} ClusterSafe(cl: Cluster, events: seq<Event>)
    requires Bootstrapped(cl)
    ensures Safe(RunCluster(cl, events)) && Invariant(RunCluster(cl, events))
  {
    if events == [] {
      BootstrappedInvariant(cl);
    } else {
      ClusterSafe(cl, events[..|events| - 1]);
      NextKeepsInvariant(RunCluster(cl, events[..|events| - 1]), events[|events| - 1]);
    }
    InvariantIsSafe(RunCluster(cl, events));
  }

  // Refutation

  /** The change that a node issues when it hears that it is suspect or faulty. */
  function Refutation(c: Change, now: int): Change {
    c.(incarnation := now, status := Alive)
  }

  /** In every reachable state, a node that hears it is suspect or faulty issues a refutation at its clock,
      which is not behind its incarnation. Another running node ends with that claim exactly when it
      did not know the member, or held it at a smaller incarnation, or held just that claim. With a clock
      past the incarnation that is every node; with a clock equal to it, a node that holds the
      suspicion at that very incarnation does not listen. */
  lemma RefutationIsAccepted(cl: Cluster, events: seq<Event>, a: string, b: string, c: Change, now: int, now': int)
    requires Bootstrapped(cl)
    requires var cl' := RunCluster(cl, events);
      && a in cl'.nodes && b in cl'.nodes && a != b && !cl'.nodes[a].stopped && !cl'.nodes[b].stopped
      && c.address == a && (c.status == Suspect || c.status == Faulty)
      && (a in cl'.nodes[a].members ==> now >= Own(cl', a))
    ensures var cl' := RunCluster(cl, events);
      var a', r := Stepped(cl'.nodes[a], Receive([c], [now])), Refutation(c, now);
      var b' := Stepped(cl'.nodes[b], Receive([r], [now']));
      && a in cl'.nodes[a].members
      && a'.members == cl'.nodes[a].members[a := Member(Alive, now)]
      && a in a'.pending && a'.pending[a] == Pending(r, 0)
      && (Lookup(b'.members, a) == Known(Member(Alive, now)) <==>
            || a !in cl'.nodes[b].members
            || cl'.nodes[b].members[a].incarnation < now || cl'.nodes[b].members[a] == Member(Alive, now))
      && (now > Own(cl', a) ==> b'.members == cl'.nodes[b].members[a := Member(Alive, now)])
  {
    ClusterSafe(cl, events);
    var cl' := RunCluster(cl, events);
    assert NodeSafe(cl', a) && NodeSafe(cl', b);
    var n, m := cl'.nodes[a], cl'.nodes[b];
    assert a in m.members ==> NotAhead(cl', a, m.members[a].incarnation);
    hide Stepped, RunCluster, Coupled;
    NodeRefutes(n, c, now);
    AliveAcceptedIff(m, Refutation(c, now), now');
    if now > Own(cl', a) {
      NodeAccepts(m, Refutation(c, now), now');
    }
  }

  /** An alive claim about another member is accepted exactly when it is newer than the entry, or already there. */
  lemma AliveAcceptedIff(n: Node, c: Change, now: int)
    requires !n.stopped && c.address != n.address && c.status == Alive
    ensures Lookup(Stepped(n, Receive([c], [now])).members, c.address) == Known(Claim(c)) <==>
      || c.address !in n.members
      || n.members[c.address].incarnation < c.incarnation || n.members[c.address] == Claim(c)
  {
    SingleUpdate(n, c, now);
  }

  /** What a node makes of news about itself: before it knows itself it believes anything, later it refutes that it is
      suspect or faulty, and otherwise takes what is later. */
  lemma NewsOfItself(n: Node, c: Change, now: int)
    requires !n.stopped && c.address == n.address
    ensures Lookup(Stepped(n, Receive([c], [now])).members, n.address) == Known(
      if n.address !in n.members then Claim(c)
      else if c.status == Suspect || c.status == Faulty then Member(Alive, now)
      else Later(n.members[n.address], Claim(c)))
  {
    SingleUpdate(n, c, now);
    if n.address in n.members {
      OverrideIsAbove(n.members[n.address], c);
    }
  }

  lemma NodeRefutes(n: Node, c: Change, now: int)
    requires n.address in n.members && !n.stopped && c.address == n.address
    requires (c.status == Suspect || c.status == Faulty)
    ensures var n' := Stepped(n, Receive([c], [now]));
      && n'.members == n.members[n.address := Member(Alive, now)]
      && n.address in n'.pending && n'.pending[n.address] == Pending(Refutation(c, now), 0)
  {
    SingleUpdate(n, c, now);
  }

  /** A newer claim about another address replaces an older entry. */
  lemma NodeAccepts(n: Node, c: Change, now: int)
    requires !n.stopped && c.address != n.address
    requires c.address in n.members ==> n.members[c.address].incarnation < c.incarnation
    ensures Stepped(n, Receive([c], [now])).members == n.members[c.address := Claim(c)]
  {
    SingleUpdate(n, c, now);
  }

  // Delivery

  /** What a node makes of changes that were sent: nothing it gets about another is lost on it. */
  lemma ReceivedKnown(n: Node, cs: seq<Change>, now: seq<int>, c: Change)
    requires |now| == |cs| && !n.stopped && c in cs && c.address != n.address
    ensures KnownAtMost(Known(Claim(c)), Lookup(Stepped(n, Receive(cs, now)).members, c.address))
  {
    StepMembers(n, Receive(cs, now));
    MergedIsGreatest(n.members, n.address, cs, now, c.address);
    assert Claim(c) in ClaimsAbout(cs, c.address);
  }

  /** Messages that are in the network can be received, and change no other node. */
  lemma Arrives(cl: Cluster, b: string, cs: seq<Change>, now: seq<int>)
    requires b in cl.nodes && |now| == |cs| && ClockAhead(cl.nodes[b], now) && forall c :: c in cs ==> c in cl.net
    ensures Next(cl, At(b, Receive(cs, now))).nodes == cl.nodes[b := Stepped(cl.nodes[b], Receive(cs, now))]
  {
    hide Stepped, ClockAhead;
    assert Readings(cl.nodes[b], Receive(cs, now)) == now && Offered(cl.nodes[b], Receive(cs, now)) == cs;
  }

  /** The changes are exactly the pending ones of the node. */
  ghost predicate AllPending(n: Node, cs: seq<Change>) {
    forall c :: c in cs <==> c.address in n.pending && n.pending[c.address].change == c
  }

  lemma GossipSends(cl: Cluster, a: string, cs: seq<Change>)
    requires a in cl.nodes && AllPending(cl.nodes[a], cs)
    ensures Next(cl, Gossip(a)).nodes == cl.nodes && forall c :: c in cs ==> c in Next(cl, Gossip(a)).net
  {
  }

  lemma PendingReceived(n: Node, m: Node, cs: seq<Change>, now: seq<int>, x: string)
    requires CoupledAt(n, x) && x in n.pending && AllPending(n, cs) && |now| == |cs| && !m.stopped && x != m.address
    ensures x in n.members && KnownAtMost(Lookup(n.members, x), Lookup(Stepped(m, Receive(cs, now)).members, x))
  {
    hide Stepped;
    ReceivedKnown(m, cs, now, n.pending[x].change);
  }

  lemma InvariantAt(cl: Cluster, b: string)
    requires Invariant(cl) && b in cl.nodes
    ensures Coupled(cl.nodes[b]) && KnowsItself(cl.nodes[b], b)
    ensures forall a :: a in cl.nodes[b].members ==> NotAhead(cl, a, cl.nodes[b].members[a].incarnation)
  {
    assert NodeSafe(cl, b);
  }

  /** The pending changes of `a` go out and `b` receives them. Then `b` is at least as far as `a` about
      everyone `a` has news of, other than `b` itself, and no other node has changed. */
  lemma GossipDelivers(cl: Cluster, events: seq<Event>, a: string, b: string, cs: seq<Change>, now: seq<int>)
    requires Bootstrapped(cl) && |now| == |cs|
    requires var cl' := RunCluster(cl, events);
      && a in cl'.nodes && b in cl'.nodes && !cl'.nodes[b].stopped && ClockAhead(cl'.nodes[b], now)
      && AllPending(cl'.nodes[a], cs)
    ensures var cl' := RunCluster(cl, events);
      var cl'' := Next(Next(cl', Gossip(a)), At(b, Receive(cs, now)));
      && cl''.nodes == cl'.nodes[b := Stepped(cl'.nodes[b], Receive(cs, now))]
      && (forall x :: x in cl'.nodes[a].pending && x != b ==>
            x in cl'.nodes[a].members && KnownAtMost(Lookup(cl'.nodes[a].members, x), Lookup(cl''.nodes[b].members, x)))
  {
    hide Stepped, RunCluster, Next, Invariant, Safe, AllPending, ClockAhead, KnownAtMost, CoupledAt, Bootstrapped;
    ClusterSafe(cl, events);
    var cl' := RunCluster(cl, events);
    InvariantAt(cl', a);
    InvariantAt(cl', b);
    GossipSends(cl', a, cs);
    Arrives(Next(cl', Gossip(a)), b, cs, now);
    forall x | x in cl'.nodes[a].pending && x != b
      ensures x in cl'.nodes[a].members
      ensures KnownAtMost(Lookup(cl'.nodes[a].members, x), Lookup(Stepped(cl'.nodes[b], Receive(cs, now)).members, x))
    {
      PendingReceived(cl'.nodes[a], cl'.nodes[b], cs, now, x);
    }
  }

  /** The same for the whole list of `a`, about everyone. */
  lemma SyncDelivers(cl: Cluster, events: seq<Event>, a: string, b: string, cs: seq<Change>, now: seq<int>)
    requires Bootstrapped(cl) && |now| == |cs|
    requires var cl' := RunCluster(cl, events);
      && a in cl'.nodes && b in cl'.nodes && !cl'.nodes[b].stopped && ClockAhead(cl'.nodes[b], now)
      && (forall c :: c in cs <==> c in SyncChanges(cl'.nodes[a]))
    ensures var cl' := RunCluster(cl, events);
      var cl'' := Next(Next(cl', SyncAll(a)), At(b, Receive(cs, now)));
      && cl''.nodes == cl'.nodes[b := Stepped(cl'.nodes[b], Receive(cs, now))]
      && IsFullSync(cl'.nodes[a], cs)
      && (forall x :: x != b ==> KnownAtMost(Lookup(cl'.nodes[a].members, x), Lookup(cl''.nodes[b].members, x)))
  {
    hide Stepped, RunCluster, Next, Invariant, Safe, ClockAhead, SyncChanges, Coupled, Bootstrapped;
    hide KnownAtMost, IsFullSync;
    ClusterSafe(cl, events);
    var cl' := RunCluster(cl, events);
    InvariantAt(cl', b);
    SyncSends(cl', a, cs);
    SyncIsFull(cl'.nodes[a], cs);
    Arrives(Next(cl', SyncAll(a)), b, cs, now);
    forall x | x != b
      ensures KnownAtMost(Lookup(cl'.nodes[a].members, x), Lookup(Stepped(cl'.nodes[b], Receive(cs, now)).members, x))
    {
      ListReceived(cl'.nodes[a], cl'.nodes[b], cs, now, x);
    }
  }

  lemma SyncSends(cl: Cluster, a: string, cs: seq<Change>)
    requires a in cl.nodes && forall c :: c in cs <==> c in SyncChanges(cl.nodes[a])
    ensures Next(cl, SyncAll(a)).nodes == cl.nodes && forall c :: c in cs ==> c in Next(cl, SyncAll(a)).net
  {
    hide SyncChanges;
  }

  lemma ListReceived(n: Node, m: Node, cs: seq<Change>, now: seq<int>, x: string)
    requires IsFullSync(n, cs) && |now| == |cs| && !m.stopped && x != m.address
    ensures KnownAtMost(Lookup(n.members, x), Lookup(Stepped(m, Receive(cs, now)).members, x))
  {
    hide Stepped;
    if x in n.members {
      assert n.members[x] in ClaimsAbout(cs, x);
      var c :| c in cs && c.address == x && Claim(c) == n.members[x];
      ReceivedKnown(m, cs, now, c);
    }
  }

  lemma SyncIsFull(n: Node, cs: seq<Change>)
    requires forall c :: c in cs <==> c in SyncChanges(n)
    ensures IsFullSync(n, cs)
  {
    forall a ensures ClaimsAbout(cs, a) == if a in n.members then {n.members[a]} else {} {
      if a in n.members {
        var c := Change(n.address, LocalIncarnation(n, -1), a, n.members[a].incarnation, n.members[a].status);
        assert c in SyncChanges(n) && Claim(c) == n.members[a];
      }
    }
  }

  lemma BootedPending(a: string, now: int, boot: int)
    ensures var n := Booted(a, now, boot);
      && n.members == map[a := Member(Alive, now)]
      && a in n.pending && n.pending[a].change.address == a && Claim(n.pending[a].change) == Member(Alive, now)
  {
    ReincarnateIffLater(FreshNode(a), now, boot);
  }

  lemma RestartSends(cl: Cluster, a: string, now: int, boot: int)
    requires a in cl.nodes && ClockAhead(cl.nodes[a], [now])
    ensures var cl' := Next(Next(cl, Restart(a, now, boot)), Gossip(a));
      && cl'.nodes == cl.nodes[a := Booted(a, now, boot)]
      && forall x :: x in Booted(a, now, boot).pending ==> Booted(a, now, boot).pending[x].change in cl'.net
  {
    hide Booted, ClockAhead;
    var mid := Next(cl, Restart(a, now, boot));
    assert mid.nodes == cl.nodes[a := Booted(a, now, boot)];
  }

  /** A node that restarts with a later clock is back: it knows itself alone, and whoever hears of it holds it alive at
      that clock, whatever was said of it before. */
  lemma RestartIsHeard(cl: Cluster, events: seq<Event>, a: string, b: string, now: int, boot: int, now': int)
    requires Bootstrapped(cl)
    requires var cl' := RunCluster(cl, events);
      && a in cl'.nodes && b in cl'.nodes && a != b && !cl'.nodes[b].stopped
      && (a in cl'.nodes[a].members ==> now > Own(cl', a)) && ClockAhead(cl'.nodes[b], [now'])
    ensures var cl' := RunCluster(cl, events);
      var cl'' := Next(Next(cl', Restart(a, now, boot)), Gossip(a));
      && a in cl''.nodes && cl''.nodes[a].members == map[a := Member(Alive, now)] && a in cl''.nodes[a].pending
      && var c := cl''.nodes[a].pending[a].change;
         Next(cl'', At(b, Receive([c], [now']))).nodes ==
           cl''.nodes[b := Stepped(cl'.nodes[b], Receive([c], [now']))]
         && Stepped(cl'.nodes[b], Receive([c], [now'])).members == cl'.nodes[b].members[a := Member(Alive, now)]
  {
    hide Stepped, RunCluster, Next, Invariant, Safe, ClockAhead, Booted, Coupled, Bootstrapped;
    ClusterSafe(cl, events);
    var cl' := RunCluster(cl, events);
    InvariantAt(cl', a);
    InvariantAt(cl', b);
    LaterClock(cl'.nodes[a], now);
    BootedPending(a, now, boot);
    RestartSends(cl', a, now, boot);
    var cl'' := Next(Next(cl', Restart(a, now, boot)), Gossip(a));
    var c := cl''.nodes[a].pending[a].change;
    Arrives(cl'', b, [c], [now']);
    NodeAccepts(cl'.nodes[b], c, now');
  }

  lemma LaterClock(n: Node, now: int)
    requires n.address in n.members ==> now >= n.members[n.address].incarnation
    ensures ClockAhead(n, [now])
  {
  }
}
