/**
  The same protocol without atomic updates. The source locks the member list while it merges
  changes, the disseminator while it records one, and the suspicion timers while it starts or
  stops one; between these anything else can happen. Claims in a change were read earlier.
 */
module SwimInterleaved {
  import opened SwimMembers
  import opened SwimNodes
  import opened SwimCoupling
  import opened SwimRuns
  import opened SwimConvergence
  import opened SwimCluster

  /** The two locked parts of handling an applied change. */
  datatype Micro = Record(c: Change) | Act(c: Change)

  /** A node, and what the updates that are under way have still to do, each in its order. */
  datatype Loose = Loose(n: Node, tasks: seq<seq<Micro>>)

  function Micros(cs: seq<Change>): seq<Micro> {
    if cs == [] then []
    else
      var k := |cs| - 1;
      Micros(cs[..k]) + [Record(cs[k]), Act(cs[k])]
  }

  function Done(n: Node, m: Micro): Node {
    match m
    case Record(c) => Recorded(n, c)
    case Act(c) => if c.status == Suspect then Started(n, c) else Stopped(n, c)
  }

  function DoneAll(n: Node, ms: seq<Micro>): Node {
    if ms == [] then n else Done(DoneAll(n, ms[..|ms| - 1]), ms[|ms| - 1])
  }

  /** Undisturbed, the parts add up to the consequences of an update. */
  lemma {:induction false} MicrosAreHandled(n: Node, cs: seq<Change>)
    ensures DoneAll(n, Micros(cs)) == HandledAll(n, cs)
  {
    if cs != [] {
      var k := |cs| - 1;
      var ms, c := Micros(cs[..k]), cs[k];
      MicrosAreHandled(n, cs[..k]);
      var all := ms + [Record(c), Act(c)];
      assert all[..|ms| + 1] == ms + [Record(c)] && (ms + [Record(c)])[..|ms|] == ms;
      assert DoneAll(n, ms + [Record(c)]) == Done(DoneAll(n, ms), Record(c));
      assert DoneAll(n, all) == Done(DoneAll(n, ms + [Record(c)]), Act(c));
    }
  }

  /** What happens while a lock is held. */
  datatype Moment =
    | Merge(cs: seq<Change>, clock: seq<int>)            // changes from outside
    | Suspecting(target: string, seen: int, now: int)    // `seen` is an incarnation the member had
    | Expire(address: string, incarnation: int, now: int)
    | Rejoin(at: int, now: int)                          // `at` is an earlier reading of the clock
    | Depart(seen: int, now: int)
    | Work(task: nat)
    | Counting(addresses: seq<string>, maxP: int)
    | Clear(address: string)
    | TimersOff
    | TimersOn
    | SetStopped(stopped: bool)

  predicate May(l: Loose, m: Moment) {
    match m
    case Merge(cs, now) => |now| == |cs|
    case Suspecting(a, i, _) => a != l.n.address && a in l.n.members && i <= l.n.members[a].incarnation
    case Expire(a, i, _) => (a, i) in l.n.callbacks
    case Depart(i, _) => l.n.address in l.n.members ==> i <= l.n.members[l.n.address].incarnation
    case Work(k) => k < |l.tasks| && l.tasks[k] != []
    case _ => true
  }

  /** The changes that are merged, and the clock readings for refutations. */
  function Offers(n: Node, m: Moment): seq<Change> {
    match m
    case Merge(cs, _) => cs
    case Suspecting(a, i, now) => [MakeChange(n, a, i, Suspect, now)]
    case Expire(a, i, now) => [MakeChange(n, a, i, Faulty, now)]
    case Rejoin(at, now) => [MakeChange(n, n.address, at, Alive, now)]
    case Depart(i, now) => [MakeChange(n, n.address, i, Leave, now)]
    case _ => []
  }

  function Clocks(m: Moment): seq<int> {
    match m
    case Merge(_, now) => now
    case Suspecting(_, _, now) => [now]
    case Expire(_, _, now) => [now]
    case Rejoin(_, now) => [now]
    case Depart(_, now) => [now]
    case _ => []
  }

  /** Merge changes; what follows from them is left to be done. A node that is stopped meanwhile goes on. */
  function Taking(l: Loose, cs: seq<Change>, now: seq<int>): Loose
    requires |now| == |cs|
  {
    Loose(l.n.(members := Merged(l.n.members, l.n.address, cs, now)),
          l.tasks + [Micros(AppliedOf(l.n.members, l.n.address, cs, now))])
  }

  function Working(l: Loose, k: nat): Loose
    requires k < |l.tasks| && l.tasks[k] != []
  {
    Loose(Done(l.n, l.tasks[k][0]), l.tasks[k := l.tasks[k][1..]])
  }

  function Happened(l: Loose, m: Moment): Loose {
    if !May(l, m) then l
    else
      match m
      case Work(k) => Working(l, k)
      case Counting(addresses, maxP) => l.(n := l.n.(pending := Bumped(l.n.pending, addresses, maxP)))
      case Clear(a) => l.(n := l.n.(pending := l.n.pending - {a}))
      case TimersOff => l.(n := Disabled(l.n))
      case TimersOn => l.(n := l.n.(enabled := true))
      case SetStopped(s) => l.(n := l.n.(stopped := s))
      case _ => Taking(l, Offers(l.n, m), Clocks(m))
  }

  function RunLoose(l: Loose, ms: seq<Moment>): Loose {
    if ms == [] then l else Happened(RunLoose(l, ms[..|ms| - 1]), ms[|ms| - 1])
  }

  predicate Taken(m: Moment) {
    m.Merge? || m.Suspecting? || m.Expire? || m.Rejoin? || m.Depart?
  }

  // A property of all claims that are on their way

  /** Everything that is still to be done, pending, timed or called back concerns claims with the property. */
  ghost predicate AllClaims(l: Loose, p: (string, Member) -> bool) {
    && (forall t :: t in l.tasks ==> forall m :: m in t ==> p(m.c.address, Claim(m.c)))
    && (forall a :: a in l.n.pending ==> l.n.pending[a].change.address == a && p(a, Claim(l.n.pending[a].change)))
    && (forall a :: a in l.n.timers ==> (a, l.n.timers[a]) in l.n.callbacks)
    && (forall a, i :: (a, i) in l.n.callbacks ==> a != l.n.address && p(a, Member(Suspect, i)))
  }

  lemma {:induction false} MicrosOf(cs: seq<Change>)
    ensures forall m :: m in Micros(cs) ==> m.c in cs
  {
    if cs != [] {
      var k := |cs| - 1;
      MicrosOf(cs[..k]);
      assert cs == cs[..k] + [cs[k]];
    }
  }

  lemma WorkKeepsClaims(l: Loose, k: nat, p: (string, Member) -> bool)
    requires k < |l.tasks| && l.tasks[k] != [] && AllClaims(l, p)
    ensures AllClaims(Working(l, k), p)
  {
    var m := l.tasks[k][0];
    assert l.tasks[k] in l.tasks && m in l.tasks[k];
    assert p(m.c.address, Claim(m.c));
    var l' := Working(l, k);
    forall t | t in l'.tasks ensures forall x :: x in t ==> p(x.c.address, Claim(x.c)) {
      if t == l.tasks[k][1..] {
        assert forall x :: x in t ==> x in l.tasks[k];
      } else {
        assert t in l.tasks;
      }
    }
  }

  lemma OtherKeepsClaims(l: Loose, m: Moment, p: (string, Member) -> bool)
    requires AllClaims(l, p) && May(l, m) && !Taken(m) && !m.Work?
    ensures AllClaims(Happened(l, m), p)
    ensures Happened(l, m).n.members == l.n.members && Happened(l, m).n.address == l.n.address
  {
    if m.Counting? {
      BumpedKeeps(l.n.pending, m.addresses, m.maxP);
    }
  }

  lemma TakingKeepsClaims(l: Loose, cs: seq<Change>, now: seq<int>, p: (string, Member) -> bool)
    requires |now| == |cs| && AllClaims(l, p)
    requires forall c :: c in AppliedOf(l.n.members, l.n.address, cs, now) ==> p(c.address, Claim(c))
    ensures AllClaims(Taking(l, cs, now), p)
  {
    var applied := AppliedOf(l.n.members, l.n.address, cs, now);
    MicrosOf(applied);
    hide Merged, AppliedOf, Micros;
    assert forall t :: t in Taking(l, cs, now).tasks ==> t in l.tasks || t == Micros(applied);
  }

  lemma ClaimsWeaken(l: Loose, p: (string, Member) -> bool, q: (string, Member) -> bool)
    requires AllClaims(l, p) && forall a, m :: p(a, m) ==> q(a, m)
    ensures AllClaims(l, q)
  {
  }

  // Late timeouts

  /** A claim about another is not above what the list has. */
  function Under(members: map<string, Member>, local: string): (string, Member) -> bool {
    (a, m) => a != local ==> KnownAtMost(Known(m), Lookup(members, a))
  }

  lemma UnderGrows(members: map<string, Member>, local: string, cs: seq<Change>, now: seq<int>, a: string, m: Member)
    requires |now| == |cs| && Under(members, local)(a, m)
    ensures Under(Merged(members, local, cs, now), local)(a, m)
  {
    if a != local {
      MergedIsGreatest(members, local, cs, now, a);
      hide AtMost;
      if a in members && a in Merged(members, local, cs, now) {
        AtMostIsTotalOrder(m, members[a], Merged(members, local, cs, now)[a]);
      }
    }
  }

  lemma TakingUnder(l: Loose, cs: seq<Change>, now: seq<int>)
    requires |now| == |cs| && AllClaims(l, Under(l.n.members, l.n.address))
    ensures AllClaims(Taking(l, cs, now), Under(Taking(l, cs, now).n.members, l.n.address))
  {
    var p, q := Under(l.n.members, l.n.address), Under(Merged(l.n.members, l.n.address, cs, now), l.n.address);
    forall a, m | p(a, m) ensures q(a, m) {
      UnderGrows(l.n.members, l.n.address, cs, now, a, m);
    }
    forall c | c in AppliedOf(l.n.members, l.n.address, cs, now) ensures q(c.address, Claim(c)) {
      if c.address != l.n.address {
        AppliedBelow(l.n.members, l.n.address, cs, now, c);
      }
    }
    hide Under, AllClaims, Merged, AppliedOf;
    ClaimsWeaken(l, p, q);
    TakingKeepsClaims(l, cs, now, q);
  }

  lemma MomentUnder(l: Loose, m: Moment)
    requires AllClaims(l, Under(l.n.members, l.n.address))
    ensures var l' := Happened(l, m);
      l'.n.address == l.n.address && AllClaims(l', Under(l'.n.members, l'.n.address))
  {
    hide AllClaims, Under;
    if May(l, m) {
      if Taken(m) {
        TakingUnder(l, Offers(l.n, m), Clocks(m));
      } else if m.Work? {
        WorkKeepsClaims(l, m.task, Under(l.n.members, l.n.address));
      } else {
        OtherKeepsClaims(l, m, Under(l.n.members, l.n.address));
      }
    }
  }

  /** Whatever is on its way in a node was overtaken by its list at most, never ahead of it. */
  lemma {:induction false} RunUnder(address: string, ms: seq<Moment>)
    ensures var l := RunLoose(Loose(FreshNode(address), []), ms);
      l.n.address == address && AllClaims(l, Under(l.n.members, address))
  {
    if ms != [] {
      RunUnder(address, ms[..|ms| - 1]);
      MomentUnder(RunLoose(Loose(FreshNode(address), []), ms[..|ms| - 1]), ms[|ms| - 1]);
    }
  }

  /** A suspicion callback has its effect exactly in the same case when updates are not atomic: it makes a member
      faulty that is still suspected at its incarnation, with the consequences left to be done, and otherwise
      changes nothing. */
  lemma LateTimeoutStillHarmless(address: string, ms: seq<Moment>, a: string, i: int, now: int)
    requires (a, i) in RunLoose(Loose(FreshNode(address), []), ms).n.callbacks
    ensures var l := RunLoose(Loose(FreshNode(address), []), ms);
      var l' := Happened(l, Expire(a, i, now));
      if Lookup(l.n.members, a) == Known(Member(Suspect, i)) then
        && l'.n == l.n.(members := l.n.members[a := Member(Faulty, i)])
        && exists c :: l'.tasks == l.tasks + [[Record(c), Act(c)]] && c.address == a && Claim(c) == Member(Faulty, i)
      else l' == l.(tasks := l.tasks + [[]])
  {
    RunUnder(address, ms);
    var l := RunLoose(Loose(FreshNode(address), []), ms);
    hide RunLoose;
    assert a != l.n.address && Under(l.n.members, address)(a, Member(Suspect, i));
    var c := MakeChange(l.n, a, i, Faulty, now);
    MergedOne(l.n.members, address, c, now);
    AppliedOne(l.n.members, address, c, now);
    var d := Decide(l.n.members, address, c, now);
    MicrosOne(c);
    assert d.Take? ==> d.change == c;
  }

  lemma AppliedOne(members: map<string, Member>, local: string, c: Change, now: int)
    ensures var d := Decide(members, local, c, now);
      AppliedOf(members, local, [c], [now]) == if d.Skip? then [] else [d.change]
  {
    assert [c][..0] == [] && [now][..0] == [];
    assert Merged(members, local, [], []) == members && AppliedOf(members, local, [], []) == [];
  }

  lemma MicrosOne(c: Change)
    ensures Micros([c]) == [Record(c), Act(c)] && Micros([]) == []
  {
    assert [c][..0] == [];
    assert Micros([c]) == Micros([]) + [Record(c), Act(c)];
  }

  // Convergence

  function Reaches(l: Loose, m: Moment): seq<Change> {
    if May(l, m) then Offers(l.n, m) else []
  }

  function ReachesIn(l: Loose, ms: seq<Moment>): seq<Change> {
    if ms == [] then []
    else
      var rest := ms[..|ms| - 1];
      ReachesIn(l, rest) + Reaches(RunLoose(l, rest), ms[|ms| - 1])
  }

  lemma MomentIsGreatest(l: Loose, m: Moment, a: string)
    requires a != l.n.address
    ensures Happened(l, m).n.address == l.n.address
    ensures IsGreatest(Lookup(Happened(l, m).n.members, a), Lookup(l.n.members, a), ClaimsAbout(Reaches(l, m), a))
  {
    if May(l, m) && Taken(m) {
      OffersTimed(l, m);
      MergedIsGreatest(l.n.members, l.n.address, Offers(l.n, m), Clocks(m), a);
    }
    assert ClaimsAbout([], a) == {};
  }

  lemma {:induction false} LooseIsGreatest(l: Loose, ms: seq<Moment>, a: string)
    requires a != l.n.address
    ensures RunLoose(l, ms).n.address == l.n.address
    ensures IsGreatest(Lookup(RunLoose(l, ms).n.members, a), Lookup(l.n.members, a), ClaimsAbout(ReachesIn(l, ms), a))
  {
    hide IsGreatest, ClaimsAbout, Happened, Reaches;
    if ms == [] {
      NothingReached(Lookup(l.n.members, a), a);
    } else {
      var rest, m := ms[..|ms| - 1], ms[|ms| - 1];
      LooseIsGreatest(l, rest, a);
      var k := RunLoose(l, rest);
      MomentIsGreatest(k, m, a);
      ClaimsConcat(ReachesIn(l, rest), Reaches(k, m), a);
      GreatestCompose(Lookup(l.n.members, a), Lookup(k.n.members, a), Lookup(Happened(k, m).n.members, a),
                      ClaimsAbout(ReachesIn(l, rest), a), ClaimsAbout(Reaches(k, m), a));
    }
  }

  lemma NothingReached(k: Knowledge, a: string)
    ensures IsGreatest(k, k, ClaimsAbout([], a))
  {
    assert ClaimsAbout([], a) == {};
  }

  /** Convergence does not need atomic updates either. */
  lemma LooseConverges(x: Loose, y: Loose, xs: seq<Moment>, ys: seq<Moment>, a: string)
    requires a != x.n.address && a != y.n.address && Lookup(x.n.members, a) == Lookup(y.n.members, a)
    requires ClaimsAbout(ReachesIn(x, xs), a) == ClaimsAbout(ReachesIn(y, ys), a)
    ensures Lookup(RunLoose(x, xs).n.members, a) == Lookup(RunLoose(y, ys).n.members, a)
  {
    hide IsGreatest, ClaimsAbout, RunLoose, ReachesIn;
    LooseIsGreatest(x, xs, a);
    LooseIsGreatest(y, ys, a);
    GreatestUnique(Lookup(RunLoose(x, xs).n.members, a), Lookup(RunLoose(y, ys).n.members, a), Lookup(x.n.members, a),
                   ClaimsAbout(ReachesIn(x, xs), a));
  }

  // Clusters

  datatype Mesh = Mesh(nodes: map<string, Loose>, net: set<Change>)

  datatype Event =
    | At(address: string, moment: Moment)
    | Gossip(address: string)
    | SyncAll(address: string)
    | Restart(address: string, now: int, boot: int)

  ghost predicate CanOccur(ms: Mesh, e: Event) {
    && e.address in ms.nodes
    && var l := ms.nodes[e.address];
       match e
       case At(_, m) =>
         && May(l, m) && (!m.Rejoin? ==> ClockAhead(l.n, Clocks(m)))
         && (m.Merge? ==> forall c :: c in m.cs ==> c in ms.net)
       case Restart(_, now, _) => ClockAhead(l.n, [now])
       case _ => true
  }

  ghost function NextMesh(ms: Mesh, e: Event): Mesh {
    if !CanOccur(ms, e) then ms
    else
      var l := ms.nodes[e.address];
      match e
      case At(a, m) => ms.(nodes := ms.nodes[a := Happened(l, m)])
      case Gossip(_) => ms.(net := ms.net + set b | b in l.n.pending :: l.n.pending[b].change)
      case SyncAll(_) => ms.(net := ms.net + SyncChanges(l.n))
      case Restart(a, now, boot) => ms.(nodes := ms.nodes[a := Loose(Booted(a, now, boot), [])])
  }

  ghost function RunMesh(ms: Mesh, events: seq<Event>): Mesh {
    if events == [] then ms else NextMesh(RunMesh(ms, events[..|events| - 1]), events[|events| - 1])
  }

  ghost predicate BootstrappedMesh(ms: Mesh) {
    && ms.net == {}
    && forall a :: a in ms.nodes ==> exists now, boot :: ms.nodes[a] == Loose(Booted(a, now, boot), [])
  }

  /** What every address says of itself. */
  ghost function OwnIn(ms: Mesh): map<string, int> {
    map a | a in ms.nodes && a in ms.nodes[a].n.members :: ms.nodes[a].n.members[a].incarnation
  }

  /** A claim is not ahead of the address it is about. */
  ghost function Within(own: map<string, int>): (string, Member) -> bool {
    (a: string, m: Member) => a in own && m.incarnation <= own[a]
  }

  ghost predicate LooseSafe(l: Loose, b: string, own: map<string, int>) {
    && KnowsItself(l.n, b) && AllClaims(l, Within(own))
    && forall a :: a in l.n.members ==> Within(own)(a, l.n.members[a])
  }

  ghost predicate MeshInvariant(ms: Mesh) {
    && (forall b :: b in ms.nodes ==> LooseSafe(ms.nodes[b], b, OwnIn(ms)))
    && (forall c :: c in ms.net ==> Within(OwnIn(ms))(c.address, Claim(c)))
  }

  /** Applied changes are among those offered, or refute one. */
  lemma {:induction false} AppliedFrom(members: map<string, Member>, local: string, cs: seq<Change>, now: seq<int>,
                                       c: Change)
    requires |now| == |cs| && c in AppliedOf(members, local, cs, now)
    ensures c in cs || (c.address == local && exists i :: 0 <= i < |cs| && Refutes(c, cs[i], local, now[i]))
  {
    var k := |cs| - 1;
    assert cs == cs[..k] + [cs[k]];
    if c in AppliedOf(members, local, cs[..k], now[..k]) {
      AppliedFrom(members, local, cs[..k], now[..k], c);
      if c !in cs {
        var i :| 0 <= i < k && Refutes(c, cs[..k][i], local, now[..k][i]);
        assert Refutes(c, cs[i], local, now[i]);
      }
    } else if c !in cs {
      assert Refutes(c, cs[k], local, now[k]);
    }
  }

  /** One change refutes another: alive at a clock reading, under the source of the other. */
  predicate Refutes(c: Change, d: Change, local: string, now: int) {
    LocalOverride(d.address, local, d) && c == d.(incarnation := now, status := Alive)
  }

  /** What a node applies to itself is not ahead of what it ends with. */
  lemma {:induction false} AppliedOwn(members: map<string, Member>, local: string, cs: seq<Change>, now: seq<int>,
                                      c: Change)
    requires |now| == |cs| && AliveOrLeft(members, local)
    requires forall i :: 0 <= i < |cs| ==> members[local].incarnation <= now[i]
    requires forall i, j :: 0 <= i < j < |cs| ==> now[i] <= now[j]
    requires forall i :: 0 <= i < |cs| && cs[i].address == local ==> cs[i].incarnation <= members[local].incarnation
    requires c in AppliedOf(members, local, cs, now) && c.address == local
    ensures var m := Merged(members, local, cs, now); local in m && c.incarnation <= m[local].incarnation
  {
    var k := |cs| - 1;
    var m := Merged(members, local, cs[..k], now[..k]);
    OwnMerged(members, local, cs[..k], now[..k]);
    OwnTaken(m, local, cs[k], now[k]);
    if c in AppliedOf(members, local, cs[..k], now[..k]) {
      AppliedOwn(members, local, cs[..k], now[..k], c);
    }
  }

  // Moments keep the invariant

  ghost predicate Grown(own: map<string, int>, own': map<string, int>) {
    forall a :: a in own ==> a in own' && own[a] <= own'[a]
  }

  lemma WithinGrown(l: Loose, own: map<string, int>, own': map<string, int>)
    requires AllClaims(l, Within(own)) && Grown(own, own')
    ensures AllClaims(l, Within(own'))
  {
    hide AllClaims;
    ClaimsWeaken(l, Within(own), Within(own'));
  }

  /** A node takes another value, not behind its old one. */
  lemma OwnGrown(ms: Mesh, b: string, l': Loose)
    requires b in ms.nodes && KnowsItself(ms.nodes[b].n, b) && KnowsItself(l'.n, b)
    requires ms.nodes[b].n.members[b].incarnation <= l'.n.members[b].incarnation
    ensures var own' := OwnIn(ms.(nodes := ms.nodes[b := l']));
      Grown(OwnIn(ms), own') && b in own' && own'[b] == l'.n.members[b].incarnation
  {
  }

  lemma ReplacedLoose(ms: Mesh, b: string, l': Loose)
    requires MeshInvariant(ms) && b in ms.nodes
    requires var own' := OwnIn(ms.(nodes := ms.nodes[b := l'])); Grown(OwnIn(ms), own') && LooseSafe(l', b, own')
    ensures MeshInvariant(ms.(nodes := ms.nodes[b := l']))
  {
    var ms' := ms.(nodes := ms.nodes[b := l']);
    var own, own' := OwnIn(ms), OwnIn(ms');
    hide AllClaims, OwnIn;
    forall x | x in ms'.nodes ensures LooseSafe(ms'.nodes[x], x, own') {
      if x != b {
        assert LooseSafe(ms.nodes[x], x, own);
        WithinGrown(ms.nodes[x], own, own');
      }
    }
  }

  lemma SafeAt(ms: Mesh, b: string)
    requires MeshInvariant(ms) && b in ms.nodes
    ensures LooseSafe(ms.nodes[b], b, OwnIn(ms))
    ensures b in OwnIn(ms) && OwnIn(ms)[b] == ms.nodes[b].n.members[b].incarnation
  {
    hide AllClaims;
    assert LooseSafe(ms.nodes[b], b, OwnIn(ms));
  }

  /** Members do not change, and no new claims come up. */
  lemma QuietMoment(ms: Mesh, b: string, m: Moment)
    requires MeshInvariant(ms) && b in ms.nodes && May(ms.nodes[b], m) && !Taken(m)
    ensures MeshInvariant(ms.(nodes := ms.nodes[b := Happened(ms.nodes[b], m)]))
  {
    hide AllClaims, OwnIn, MeshInvariant, Within, Happened;
    var l := ms.nodes[b];
    var l' := Happened(l, m);
    SafeAt(ms, b);
    QuietClaims(l, m, Within(OwnIn(ms)));
    OwnGrown(ms, b, l');
    WithinGrown(l', OwnIn(ms), OwnIn(ms.(nodes := ms.nodes[b := l'])));
    MembersGrown(l.n.members, OwnIn(ms), OwnIn(ms.(nodes := ms.nodes[b := l'])));
    ReplacedLoose(ms, b, l');
  }

  lemma MembersGrown(members: map<string, Member>, own: map<string, int>, own': map<string, int>)
    requires Grown(own, own') && forall a :: a in members ==> Within(own)(a, members[a])
    ensures forall a :: a in members ==> Within(own')(a, members[a])
  {
  }

  lemma QuietClaims(l: Loose, m: Moment, p: (string, Member) -> bool)
    requires AllClaims(l, p) && May(l, m) && !Taken(m)
    ensures AllClaims(Happened(l, m), p)
    ensures Happened(l, m).n.members == l.n.members && Happened(l, m).n.address == l.n.address
  {
    hide AllClaims;
    if m.Work? {
      WorkKeepsClaims(l, m.task, p);
    } else {
      OtherKeepsClaims(l, m, p);
    }
  }

  /** Entries about others come from old entries or from what was offered. */
  lemma TakingOthers(l: Loose, cs: seq<Change>, now: seq<int>, own: map<string, int>, a: string)
    requires |now| == |cs| && a != l.n.address && a in Taking(l, cs, now).n.members
    requires forall x :: x in l.n.members ==> Within(own)(x, l.n.members[x])
    requires forall c :: c in cs && c.address == a ==> Within(own)(a, Claim(c))
    ensures Within(own)(a, Taking(l, cs, now).n.members[a])
  {
    MergedIsGreatest(l.n.members, l.n.address, cs, now, a);
  }

  /** Changes are merged that are not ahead, except perhaps about the node itself. */
  lemma TakingLoose(l: Loose, b: string, cs: seq<Change>, now: seq<int>, own: map<string, int>)
    requires |now| == |cs| && LooseSafe(l, b, own)
    requires forall c :: c in cs && c.address != b ==> Within(own)(c.address, Claim(c))
    requires var n' := Taking(l, cs, now).n;
      && KnowsItself(n', b) && b in own && own[b] == n'.members[b].incarnation
      && forall c :: c in AppliedOf(l.n.members, b, cs, now) && c.address == b ==> c.incarnation <= own[b]
    ensures LooseSafe(Taking(l, cs, now), b, own)
  {
    hide AllClaims, Merged, AppliedOf, Micros;
    var l' := Taking(l, cs, now);
    forall c | c in AppliedOf(l.n.members, b, cs, now) ensures Within(own)(c.address, Claim(c)) {
      AppliedFrom(l.n.members, b, cs, now, c);
    }
    TakingKeepsClaims(l, cs, now, Within(own));
    forall a | a in l'.n.members ensures Within(own)(a, l'.n.members[a]) {
      if a != b {
        TakingOthers(l, cs, now, own, a);
      }
    }
  }

  lemma TakingSafe(ms: Mesh, b: string, cs: seq<Change>, now: seq<int>)
    requires MeshInvariant(ms) && b in ms.nodes && |now| == |cs|
    requires forall c :: c in cs && c.address != b ==> Within(OwnIn(ms))(c.address, Claim(c))
    requires var n, n' := ms.nodes[b].n, Taking(ms.nodes[b], cs, now).n;
      && KnowsItself(n, b) && KnowsItself(n', b) && n.members[b].incarnation <= n'.members[b].incarnation
      && forall c :: c in AppliedOf(n.members, b, cs, now) && c.address == b ==>
           c.incarnation <= n'.members[b].incarnation
    ensures MeshInvariant(ms.(nodes := ms.nodes[b := Taking(ms.nodes[b], cs, now)]))
  {
    hide AllClaims, OwnIn, MeshInvariant, Taking, AppliedOf;
    var l := ms.nodes[b];
    var l' := Taking(l, cs, now);
    var own, own' := OwnIn(ms), OwnIn(ms.(nodes := ms.nodes[b := l']));
    SafeAt(ms, b);
    OwnGrown(ms, b, l');
    MembersGrown(l.n.members, own, own');
    WithinGrown(l, own, own');
    TakingLoose(l, b, cs, now, own');
    ReplacedLoose(ms, b, l');
  }

  /** What is merged, other than a rejoining node's news of itself, is not ahead of anyone. */
  lemma OffersWithin(ms: Mesh, b: string, m: Moment, c: Change)
    requires MeshInvariant(ms) && CanOccur(ms, Event.At(b, m)) && Taken(m) && !m.Rejoin?
    requires c in Offers(ms.nodes[b].n, m)
    ensures Within(OwnIn(ms))(c.address, Claim(c))
  {
    hide MeshInvariant, OwnIn, AllClaims;
    SafeAt(ms, b);
    if m.Merge? {
      NetWithin(ms, c);
    } else if m.Expire? {
      CallbackWithin(ms.nodes[b], m.address, m.incarnation, OwnIn(ms));
    }
  }

  lemma NetWithin(ms: Mesh, c: Change)
    requires MeshInvariant(ms) && c in ms.net
    ensures Within(OwnIn(ms))(c.address, Claim(c))
  {
  }

  lemma CallbackWithin(l: Loose, a: string, i: int, own: map<string, int>)
    requires AllClaims(l, Within(own)) && (a, i) in l.n.callbacks
    ensures a in own && i <= own[a]
  {
    assert Within(own)(a, Member(Suspect, i));
  }

  lemma MergingMoment(ms: Mesh, b: string, m: Moment)
    requires MeshInvariant(ms) && CanOccur(ms, Event.At(b, m)) && Taken(m) && !m.Rejoin?
    ensures MeshInvariant(ms.(nodes := ms.nodes[b := Happened(ms.nodes[b], m)]))
  {
    hide MeshInvariant, AllClaims, OwnIn, Merged, AppliedOf, Offers;
    var l := ms.nodes[b];
    SafeAt(ms, b);
    var cs, now := Offers(l.n, m), Clocks(m);
    OffersTimed(l, m);
    forall c | c in cs ensures Within(OwnIn(ms))(c.address, Claim(c)) {
      OffersWithin(ms, b, m, c);
    }
    assert forall i :: 0 <= i < |cs| ==> cs[i] in cs;
    OwnMerged(l.n.members, b, cs, now);
    forall c | c in AppliedOf(l.n.members, b, cs, now) && c.address == b
      ensures c.incarnation <= Merged(l.n.members, b, cs, now)[b].incarnation
    {
      AppliedOwn(l.n.members, b, cs, now, c);
    }
    TakingSafe(ms, b, cs, now);
  }

  /** A node that rejoins takes its own news, or is ahead of it already. */
  lemma RejoiningMoment(ms: Mesh, b: string, at: int, now: int)
    requires MeshInvariant(ms) && b in ms.nodes
    ensures MeshInvariant(ms.(nodes := ms.nodes[b := Happened(ms.nodes[b], Rejoin(at, now))]))
  {
    hide MeshInvariant, AllClaims, OwnIn, Merged, AppliedOf;
    var l := ms.nodes[b];
    SafeAt(ms, b);
    var c := MakeChange(l.n, b, at, Alive, now);
    SelfTaken(l.n.members, b, c, now);
    TakingSafe(ms, b, [c], [now]);
  }

  lemma SelfTaken(members: map<string, Member>, b: string, c: Change, now: int)
    requires AliveOrLeft(members, b) && c.address == b && c.status == Alive
    ensures var m := Merged(members, b, [c], [now]);
      && AliveOrLeft(m, b) && members[b].incarnation <= m[b].incarnation
      && forall d :: d in AppliedOf(members, b, [c], [now]) ==> d.incarnation <= m[b].incarnation
  {
    MergedOne(members, b, c, now);
    assert [c][..0] == [] && [now][..0] == [];
    assert Merged(members, b, [], []) == members && AppliedOf(members, b, [], []) == [];
  }

  lemma SentMore(ms: Mesh, net: set<Change>)
    requires MeshInvariant(ms) && forall c :: c in net ==> Within(OwnIn(ms))(c.address, Claim(c))
    ensures MeshInvariant(ms.(net := ms.net + net))
  {
    var ms' := ms.(net := ms.net + net);
    assert OwnIn(ms') == OwnIn(ms);
    hide OwnIn, AllClaims;
    forall b | b in ms'.nodes ensures LooseSafe(ms'.nodes[b], b, OwnIn(ms')) {
      assert LooseSafe(ms.nodes[b], b, OwnIn(ms));
    }
  }

  lemma PendingWithin(l: Loose, a: string, own: map<string, int>)
    requires AllClaims(l, Within(own)) && a in l.n.pending
    ensures l.n.pending[a].change.address == a && Within(own)(a, Claim(l.n.pending[a].change))
  {
  }

  lemma OffersTimed(l: Loose, m: Moment)
    requires May(l, m)
    ensures |Clocks(m)| == |Offers(l.n, m)|
  {
  }

  lemma GossipMesh(ms: Mesh, b: string)
    requires MeshInvariant(ms) && b in ms.nodes
    ensures MeshInvariant(NextMesh(ms, Event.Gossip(b)))
  {
    hide OwnIn, MeshInvariant, AllClaims;
    var n := ms.nodes[b].n;
    SafeAt(ms, b);
    var net := set a | a in n.pending :: n.pending[a].change;
    forall c | c in net ensures Within(OwnIn(ms))(c.address, Claim(c)) {
      var a :| a in n.pending && c == n.pending[a].change;
      PendingWithin(ms.nodes[b], a, OwnIn(ms));
    }
    SentMore(ms, net);
  }

  lemma SyncMesh(ms: Mesh, b: string)
    requires MeshInvariant(ms) && b in ms.nodes
    ensures MeshInvariant(NextMesh(ms, Event.SyncAll(b)))
  {
    hide OwnIn, MeshInvariant, AllClaims;
    var n := ms.nodes[b].n;
    SafeAt(ms, b);
    forall c | c in SyncChanges(n) ensures Within(OwnIn(ms))(c.address, Claim(c)) {
      var a :| a in n.members && c.address == a && Claim(c) == n.members[a];
    }
    SentMore(ms, SyncChanges(n));
  }

  lemma BootedLoose(a: string, now: int, boot: int, own: map<string, int>)
    requires a in own && now <= own[a]
    ensures LooseSafe(Loose(Booted(a, now, boot), []), a, own)
    ensures Booted(a, now, boot).members == map[a := Member(Alive, now)]
  {
    BootedNode(a, now, boot);
    SingleUpdate(FreshNode(a), MakeChange(FreshNode(a), a, now, Alive, boot), now);
  }

  lemma RestartMesh(ms: Mesh, b: string, now: int, boot: int)
    requires MeshInvariant(ms) && CanOccur(ms, Event.Restart(b, now, boot))
    ensures MeshInvariant(NextMesh(ms, Event.Restart(b, now, boot)))
  {
    hide OwnIn, MeshInvariant, AllClaims, Booted, Coupled;
    var l' := Loose(Booted(b, now, boot), []);
    SafeAt(ms, b);
    assert [now][0] == now;
    BootedNode(b, now, boot);
    OwnGrown(ms, b, l');
    BootedLoose(b, now, boot, OwnIn(ms.(nodes := ms.nodes[b := l'])));
    ReplacedLoose(ms, b, l');
  }

  lemma NextMeshInvariant(ms: Mesh, e: Event)
    requires MeshInvariant(ms)
    ensures MeshInvariant(NextMesh(ms, e))
  {
    hide MeshInvariant, Happened, Booted;
    if CanOccur(ms, e) {
      match e {
        case At(b, m) =>
          if !Taken(m) {
            QuietMoment(ms, b, m);
          } else if m.Rejoin? {
            RejoiningMoment(ms, b, m.at, m.now);
          } else {
            MergingMoment(ms, b, m);
          }
        case Gossip(b) => GossipMesh(ms, b);
        case SyncAll(b) => SyncMesh(ms, b);
        case Restart(b, now, boot) => RestartMesh(ms, b, now, boot);
      }
    }
  }

  lemma BootstrappedMeshInvariant(ms: Mesh)
    requires BootstrappedMesh(ms)
    ensures MeshInvariant(ms)
  {
    forall b | b in ms.nodes ensures LooseSafe(ms.nodes[b], b, OwnIn(ms)) {
      var now, boot :| ms.nodes[b] == Loose(Booted(b, now, boot), []);
      BootedNode(b, now, boot);
      BootedLoose(b, now, boot, OwnIn(ms));
    }
  }

  /** Safety over every run of a bootstrapped cluster, without atomic updates: no entry, pending change, timer,
      callback, message or unfinished work about an address is ahead of that address itself, and no node
      holds itself suspect or faulty. */
  lemma {:induction false} MeshSafe(ms: Mesh, events: seq<Event>)
    requires BootstrappedMesh(ms)
    ensures MeshInvariant(RunMesh(ms, events))
  {
    hide MeshInvariant;
    if events == [] {
      BootstrappedMeshInvariant(ms);
    } else {
      MeshSafe(ms, events[..|events| - 1]);
      NextMeshInvariant(RunMesh(ms, events[..|events| - 1]), events[|events| - 1]);
    }
  }
}
