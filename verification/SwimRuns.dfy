/**
  Every run of one node: the steps the source can take, and what holds after any
  sequence of them.
 */
module SwimRuns {
  import opened SwimMembers
  import opened SwimNodes
  import opened SwimCoupling
  import opened Sequences

  datatype Step =
    | Receive(cs: seq<Change>, clock: seq<int>)   // changes from a ping, a response or a full sync
    | Join(cs: seq<Change>, clock: seq<int>)      // a join response
    | Unreachable(target: string, now: int)       // neither ping nor ping-req got through
    | Timeout(address: string, incarnation: int, now: int)
    | Reincarnate(now: int, boot: int)            // `boot` is used if the node does not know itself yet
    | LeaveCluster(now: int)
    | Spread(addresses: seq<string>, maxP: int)   // changes were passed on once more
    | Disable
    | Reenable
    | StopNode
    | StartNode

  /** The source incarnation of a node's own changes; before the node knows itself it is
      a clock reading. */
  function LocalIncarnation(n: Node, now: int): int {
    if n.address in n.members then n.members[n.address].incarnation else now
  }

  function MakeChange(n: Node, address: string, incarnation: int, status: Status, now: int): Change {
    Change(n.address, LocalIncarnation(n, now), address, incarnation, status)
  }

  /** When a step can be taken. */
  predicate Allowed(n: Node, s: Step) {
    match s
    case Receive(cs, now) => |now| == |cs|
    case Join(cs, now) => |now| == |cs|
    case Unreachable(a, _) => a in n.members && a != n.address
    case Timeout(a, i, _) => (a, i) in n.callbacks
    case _ => true
  }

  /** The changes that a step hands to the member list. */
  function Offered(n: Node, s: Step): seq<Change>
    requires Allowed(n, s)
  {
    match s
    case Receive(cs, _) => cs
    case Join(cs, _) => cs
    case Unreachable(a, now) => [MakeChange(n, a, n.members[a].incarnation, Suspect, now)]
    case Timeout(a, i, now) => [MakeChange(n, a, i, Faulty, now)]
    case Reincarnate(now, boot) => [MakeChange(n, n.address, now, Alive, boot)]
    case LeaveCluster(now) => [MakeChange(n, n.address, LocalIncarnation(n, now), Leave, now)]
    case _ => []
  }

  function Readings(n: Node, s: Step): seq<int>
    requires Allowed(n, s)
    ensures |Readings(n, s)| == |Offered(n, s)|
  {
    match s
    case Receive(_, now) => now
    case Join(_, now) => now
    case Unreachable(_, now) => [now]
    case Timeout(_, _, now) => [now]
    case Reincarnate(now, _) => [now]
    case LeaveCluster(now) => [now]
    case _ => []
  }

  function Bumped(pending: map<string, Pending>, addresses: seq<string>, maxP: int): map<string, Pending> {
    if addresses == [] then pending
    else
      var m, a := Bumped(pending, addresses[..|addresses| - 1], maxP), addresses[|addresses| - 1];
      if a !in m then m
      else if m[a].p + 1 >= maxP then m - {a}
      else m[a := m[a].(p := m[a].p + 1)]
  }

  /** Join lists are not spread further, except for what they say about the node itself. */
  function Cleared(n: Node, applied: seq<Change>): Node {
    n.(pending := n.pending - ClearedAddresses(n.address, applied))
  }

  function ClearedAddresses(local: string, applied: seq<Change>): set<string> {
    set c | c in applied && c.address != local :: c.address
  }

  function Disabled(n: Node): Node {
    if n.enabled then n.(timers := map[], enabled := false) else n
  }

  function Stepped(n: Node, s: Step): Node {
    if !Allowed(n, s) then n
    else
      var n' := Updated(n, Offered(n, s), Readings(n, s));
      match s
      case Join(cs, now) => if n.stopped then n else Cleared(n', AppliedOf(n.members, n.address, cs, now))
      case Spread(addresses, maxP) => n.(pending := Bumped(n.pending, addresses, maxP))
      case Disable => Disabled(n)
      case Reenable => n.(enabled := true)
      case StopNode => Disabled(n).(stopped := true)
      case StartNode => n.(enabled := true, stopped := false)
      case _ => n'
  }

  function FreshNode(address: string): Node {
    Node(address, map[], map[], map[], {}, true, false)
  }

  /** A run; a step that is not allowed when its turn comes does nothing. */
  function RunOf(n: Node, steps: seq<Step>): Node {
    if steps == [] then n else Stepped(RunOf(n, steps[..|steps| - 1]), steps[|steps| - 1])
  }

  // Coupling over every run

  lemma {:induction false} BumpedKeeps(pending: map<string, Pending>, addresses: seq<string>, maxP: int)
    ensures var m := Bumped(pending, addresses, maxP);
      forall a :: a in m ==> a in pending && m[a].change == pending[a].change
  {
    if addresses != [] {
      BumpedKeeps(pending, addresses[..|addresses| - 1], maxP);
    }
  }

  lemma BumpedNone(pending: map<string, Pending>, maxP: int)
    ensures Bumped(pending, [], maxP) == pending
  {
  }

  lemma UpdatedNothing(n: Node)
    ensures Updated(n, [], []) == n && AppliedOf(n.members, n.address, [], []) == []
  {
    assert Merged(n.members, n.address, [], []) == n.members;
  }

  lemma FewerPending(n: Node, n': Node)
    requires Coupled(n) && n' == n.(pending := n'.pending)
    requires forall a :: a in n'.pending ==> a in n.pending && n'.pending[a].change == n.pending[a].change
    ensures Coupled(n') && TimersComplete(n') == TimersComplete(n)
  {
    assert forall a :: CoupledAt(n, a) ==> CoupledAt(n', a);
    assert forall a, i :: CallbackBelow(n, a, i) == CallbackBelow(n', a, i);
  }

  lemma OtherSwitches(n: Node, n': Node)
    requires Coupled(n) && n' == n.(timers := n'.timers, enabled := n'.enabled, stopped := n'.stopped)
    requires n'.timers == n.timers || n'.timers == map[]
    requires !n'.enabled ==> n'.timers == map[]
    ensures Coupled(n')
    ensures TimersComplete(n) && n'.enabled && n'.timers == n.timers ==> TimersComplete(n')
  {
    assert forall a :: CoupledAt(n, a) ==> CoupledAt(n', a);
    assert forall a, i :: CallbackBelow(n, a, i) == CallbackBelow(n', a, i);
  }

  lemma StepCoupled(n: Node, s: Step)
    requires Coupled(n)
    ensures Coupled(Stepped(n, s)) && Stepped(n, s).address == n.address
    ensures TimersComplete(n) && s != Disable && s != StopNode ==> TimersComplete(Stepped(n, s))
  {
    if Allowed(n, s) {
      var n' := Stepped(n, s);
      match s {
        case Join(cs, now) =>
          UpdateKeepsCoupled(n, cs, now);
          UpdateAddress(n, cs, now);
          if !n.stopped {
            FewerPending(Updated(n, cs, now), n');
          }
        case Spread(addresses, maxP) =>
          BumpedKeeps(n.pending, addresses, maxP);
          FewerPending(n, n');
        case Disable => OtherSwitches(n, n');
        case Reenable => OtherSwitches(n, n');
        case StopNode => OtherSwitches(n, n');
        case StartNode => OtherSwitches(n, n');
        case _ =>
          UpdateKeepsCoupled(n, Offered(n, s), Readings(n, s));
          UpdateAddress(n, Offered(n, s), Readings(n, s));
      }
    }
  }

  lemma UpdateAddress(n: Node, cs: seq<Change>, now: seq<int>)
    requires |now| == |cs|
    ensures Updated(n, cs, now).address == n.address && Updated(n, cs, now).stopped == n.stopped
    ensures Updated(n, cs, now).members == if n.stopped then n.members else Merged(n.members, n.address, cs, now)
    ensures Updated(n, cs, now).enabled == n.enabled
  {
    if !n.stopped {
      HandledIsLast(n.(members := Merged(n.members, n.address, cs, now)), AppliedOf(n.members, n.address, cs, now), "");
    }
  }

  /** Over every run pending changes repeat the member list and timers run only for
      suspects; as long as suspicion was never disabled, for all of them. */
  lemma {:induction false} RunCoupled(address: string, steps: seq<Step>)
    ensures var n := RunOf(FreshNode(address), steps);
      && Coupled(n) && n.address == address
      && (Disable !in steps && StopNode !in steps ==> TimersComplete(n))
  {
    if steps != [] {
      var rest, s := steps[..|steps| - 1], steps[|steps| - 1];
      assert steps == rest + [s];
      RunCoupled(address, rest);
      StepCoupled(RunOf(FreshNode(address), rest), s);
    }
  }

  lemma JoinClears(n: Node, cs: seq<Change>, now: seq<int>)
    requires |now| == |cs|
    ensures n.stopped ==> Updated(n, cs, now) == n
    ensures Stepped(n, Join(cs, now)) ==
      Cleared(Updated(n, cs, now), if n.stopped then [] else AppliedOf(n.members, n.address, cs, now))
  {
    if n.stopped {
      ClearedNone(n);
    }
  }

  /** A join list is not spread further: what it changed about others is not pending, all else is pending as
      it was, and news of the node itself stay pending as after any update. */
  lemma JoinNotSpread(n: Node, cs: seq<Change>, now: seq<int>, a: string)
    requires |now| == |cs| && !n.stopped
    ensures var n', applied := Stepped(n, Join(cs, now)), AppliedOf(n.members, n.address, cs, now);
      && n' == Updated(n, cs, now).(pending := n'.pending)
      && (if a == n.address then PendingAt(n', a) == PendingAt(Updated(n, cs, now), a)
          else if exists c :: c in applied && c.address == a then a !in n'.pending
          else PendingAt(n', a) == PendingAt(n, a))
  {
    var n1, applied := n.(members := Merged(n.members, n.address, cs, now)), AppliedOf(n.members, n.address, cs, now);
    HandledIsLast(n1, applied, a);
    LastAboutIsAbout(applied, a);
  }

  lemma ClearedNone(n: Node)
    ensures Cleared(n, []) == n
  {
    assert ClearedAddresses(n.address, []) == {};
  }

  lemma ClearedExtend(n: Node, cs: seq<Change>, c: Change)
    ensures Cleared(n, cs + [c]) ==
            if c.address == n.address then Cleared(n, cs)
            else Cleared(n, cs).(pending := Cleared(n, cs).pending - {c.address})
  {
    ClearedAddressesExtend(n.address, cs, c);
    var a := ClearedAddresses(n.address, cs);
    hide ClearedAddresses;
    if c.address == n.address {
      assert a + {} == a;
    } else {
      RemoveBoth(n.pending, a, {c.address});
    }
  }

  lemma ClearedAddressesExtend(local: string, cs: seq<Change>, c: Change)
    ensures ClearedAddresses(local, cs + [c]) ==
            ClearedAddresses(local, cs) + if c.address == local then {} else {c.address}
  {
  }

  lemma RemoveBoth(m: map<string, Pending>, a: set<string>, b: set<string>)
    ensures m - (a + b) == (m - a) - b
  {
  }

  datatype MaybePending = NotPending | IsPending(p: Pending)

  function PendingAt(n: Node, a: string): MaybePending {
    if a in n.pending then IsPending(n.pending[a]) else NotPending
  }

  /** Two updates that are merged in one order and handled in the other leave a node that spreads what
      its list has overridden, and a timer that runs for an alive member. */
  lemma OutOfOrderUncouples(local: string, a: string, i: int, j: int, now: int)
    requires a != local && i < j
    ensures var c, d := Change(local, now, a, i, Suspect), Change(local, now, a, j, Alive);
      var n := FreshNode(local).(members := map[a := Member(Alive, j)]);
      && Merged(map[], local, [c, d], [now, now]) == n.members
      && Coupled(HandledAll(n, [c, d])) && !Coupled(HandledAll(n, [d, c]))
      && a in HandledAll(n, [d, c]).timers
      && a in HandledAll(n, [d, c]).pending && HandledAll(n, [d, c]).pending[a].change == c
  {
    var c, d := Change(local, now, a, i, Suspect), Change(local, now, a, j, Alive);
    var n := FreshNode(local).(members := map[a := Member(Alive, j)]);
    hide Merged, AppliedOf, HandledAll, Coupled, LastAbout, SameLast;
    TwoMerged(local, c, d, now);
    FreshCoupled(local);
    TwoOrders(c, d);
    HandledIsLast(n, [d, c], a);
    assert FreshNode(local).members == map[] && FreshNode(local).(members := n.members) == n;
    OutOfOrderIff(FreshNode(local), [c, d], [now, now], [c, d]);
    OutOfOrderIff(FreshNode(local), [c, d], [now, now], [d, c]);
  }

  lemma TwoOrders(c: Change, d: Change)
    requires c.address == d.address && Claim(c) != Claim(d)
    ensures SameLast([c, d], [c, d]) && !SameLast([d, c], [c, d])
    ensures LastAbout([d, c], c.address) == Last(c) && multiset([d, c]) == multiset([c, d])
  {
    assert [c] + [d] == [c, d] && [d] + [c] == [d, c];
    LastAboutExtend([c], d, c.address);
    LastAboutExtend([d], c, c.address);
  }

  lemma FreshCoupled(local: string)
    ensures Coupled(FreshNode(local))
  {
  }

  lemma TwoMerged(local: string, c: Change, d: Change, now: int)
    requires c.address == d.address != local && c.incarnation < d.incarnation
    ensures Merged(map[], local, [c, d], [now, now]) == map[d.address := Claim(d)]
    ensures AppliedOf(map[], local, [c, d], [now, now]) == [c, d]
  {
    assert [c, d][..1] == [c] && [now, now][..1] == [now] && [c][..0] == [] && [now][..0] == [];
    assert Merged(map[], local, [c], [now]) == map[c.address := Claim(c)];
    assert AppliedOf(map[], local, [c], [now]) == [c];
  }

  // Late timeouts

  /** A node takes a claim about another: the list has it, it is pending, and its timer is stopped. */
  ghost predicate Declared(n: Node, n': Node, a: string, m: Member) {
    && n' == n.(members := n.members[a := m], pending := n'.pending, timers := n.timers - {a})
    && a in n'.pending && Claim(n'.pending[a].change) == m && n'.pending[a].p == 0
    && n'.pending[a].change.address == a && n'.pending - {a} == n.pending - {a}
  }

  /** A suspicion callback started at incarnation `i`, run however late, makes its member faulty at `i` exactly if
      the node runs and still suspects the member at `i`. Otherwise it changes nothing. */
  lemma LateTimeoutHarmless(address: string, steps: seq<Step>, a: string, i: int, now: int)
    requires (a, i) in RunOf(FreshNode(address), steps).callbacks
    ensures var n := RunOf(FreshNode(address), steps);
      var n' := Stepped(n, Timeout(a, i, now));
      if !n.stopped && Lookup(n.members, a) == Known(Member(Suspect, i)) then Declared(n, n', a, Member(Faulty, i))
      else n' == n
  {
    RunCoupled(address, steps);
    TimeoutIff(RunOf(FreshNode(address), steps), a, i, now);
  }

  lemma TimeoutIff(n: Node, a: string, i: int, now: int)
    requires Coupled(n) && (a, i) in n.callbacks
    ensures var n' := Stepped(n, Timeout(a, i, now));
      if !n.stopped && Lookup(n.members, a) == Known(Member(Suspect, i)) then Declared(n, n', a, Member(Faulty, i))
      else n' == n
  {
    assert CallbackBelow(n, a, i);
    if !n.stopped {
      ChangeDeclares(n, MakeChange(n, a, i, Faulty, now), now);
    }
    hide Updated, Declared;
  }

  /** A change that is not a suspicion is declared if it is taken as it is, and otherwise changes nothing. */
  lemma ChangeDeclares(n: Node, c: Change, now: int)
    requires !n.stopped && c.status != Suspect && !LocalOverride(c.address, n.address, c)
    ensures if Decide(n.members, n.address, c, now).Skip? then Updated(n, [c], [now]) == n
      else Declared(n, Updated(n, [c], [now]), c.address, Claim(c))
  {
    SingleUpdate(n, c, now);
    hide Updated;
    var n1 := n.(members := n.members[c.address := Claim(c)]);
    assert Handled(n1, c) ==
      n1.(pending := n.pending[c.address := Pending(c, 0)], timers := n.timers - {c.address});
    assert n.pending[c.address := Pending(c, 0)] - {c.address} == n.pending - {c.address};
  }

  // What a node says about itself

  /** Leaving takes effect at once: nothing refutes it, at the incarnation the node has, or at its clock if it
      does not know itself. Unless it has left before, the news is pending. */
  lemma LeaveTakesEffect(n: Node, now: int)
    requires !n.stopped
    ensures var n' := Stepped(n, LeaveCluster(now));
      var left := Member(Leave, if n.address in n.members then n.members[n.address].incarnation else now);
      if Lookup(n.members, n.address) == Known(left) then n' == n else Declared(n, n', n.address, left)
  {
    hide Updated, Declared;
    ChangeDeclares(n, MakeChange(n, n.address, LocalIncarnation(n, now), Leave, now), now);
  }

  /** Reincarnating makes a node alive exactly if its clock has passed its incarnation, or it does not know
      itself, and otherwise changes nothing. In particular a node that left rejoins only with a later clock. */
  lemma ReincarnateIffLater(n: Node, now: int, boot: int)
    requires !n.stopped
    ensures var n' := Stepped(n, Reincarnate(now, boot));
      if n.address in n.members && now <= n.members[n.address].incarnation then n' == n
      else Declared(n, n', n.address, Member(Alive, now))
  {
    hide Updated, Declared;
    ChangeDeclares(n, MakeChange(n, n.address, now, Alive, boot), now);
  }

  /** A node that does not know itself has no use for its clock. */
  lemma ReadingUnused(n: Node, c: Change, now: int, now': int)
    requires n.address !in n.members
    ensures Updated(n, [c], [now]) == Updated(n, [c], [now'])
  {
    if !n.stopped {
      SingleUpdate(n, c, now);
      SingleUpdate(n, c, now');
      hide Updated, Handled;
      assert Decide(n.members, n.address, c, now) == Decide(n.members, n.address, c, now');
    }
  }

  // How often a change is passed on

  function Addresses(cs: seq<Change>): seq<string> {
    seq(|cs|, i requires 0 <= i < |cs| => cs[i].address)
  }

  /** Changes that went out together, and the limit when they were counted. */
  datatype Sending = Sending(cs: seq<Change>, maxP: int)

  predicate Mentioned(s: Sending, a: string) {
    a in Addresses(s.cs)
  }

  /** How many of the sendings had a change about an address. */
  function Mentions(ss: seq<Sending>, a: string): nat {
    if ss == [] then 0
    else Mentions(ss[..|ss| - 1], a) + if Mentioned(ss[|ss| - 1], a) then 1 else 0
  }

  /** How many of the sendings had the change itself. */
  function GoneOut(ss: seq<Sending>, c: Change): nat {
    if ss == [] then 0
    else GoneOut(ss[..|ss| - 1], c) + if c in ss[|ss| - 1].cs then 1 else 0
  }

  /** The change went out no more often than it was counted, and as often exactly if every sending about its address
      had it, and not one that it has replaced since. */
  lemma {:induction false} CountIsRightIff(ss: seq<Sending>, c: Change)
    ensures GoneOut(ss, c) <= Mentions(ss, c.address)
    ensures GoneOut(ss, c) == Mentions(ss, c.address) <==>
      forall s :: s in ss && Mentioned(s, c.address) ==> c in s.cs
  {
    if ss != [] {
      var rest, s := ss[..|ss| - 1], ss[|ss| - 1];
      assert ss == rest + [s];
      CountIsRightIff(rest, c);
      if c in s.cs {
        var i :| 0 <= i < |s.cs| && s.cs[i] == c;
        assert Addresses(s.cs)[i] == c.address;
      }
    }
  }

  function BumpedBy(pending: map<string, Pending>, ss: seq<Sending>): map<string, Pending> {
    if ss == [] then pending
    else
      var s := ss[|ss| - 1];
      Bumped(BumpedBy(pending, ss[..|ss| - 1]), Addresses(s.cs), s.maxP)
  }

  /** No sending so far was the last that the limit of its time allows. */
  predicate Outlives(ss: seq<Sending>, a: string) {
    ss == [] ||
    (var s := ss[|ss| - 1];
     Outlives(ss[..|ss| - 1], a) && (Mentioned(s, a) ==> Mentions(ss, a) < s.maxP))
  }

  /** A change that was counted `p` times, or is gone. */
  ghost predicate Counted(pending: map<string, Pending>, a: string, c: Change, p: int, gone: bool) {
    if gone then a !in pending else a in pending && pending[a] == Pending(c, p)
  }

  lemma {:induction false} BumpedOnce(pending: map<string, Pending>, addresses: seq<string>, maxP: int,
                                      a: string, c: Change, p: int, gone: bool)
    requires NoDuplicates(addresses) && Counted(pending, a, c, p, gone)
    ensures var mentioned := a in addresses;
      Counted(Bumped(pending, addresses, maxP), a, c,
              p + if mentioned then 1 else 0, gone || (mentioned && p + 1 >= maxP))
  {
    if addresses != [] {
      var rest, b := addresses[..|addresses| - 1], addresses[|addresses| - 1];
      assert addresses == rest + [b] && b !in rest;
      BumpedOnce(pending, rest, maxP, a, c, p, gone);
    }
  }

  /** A recorded change is counted once for every sending that mentions its address, and is dropped by
      the first that brings the count up to the limit of its time. */
  lemma {:induction false} PassedOnTimes(pending: map<string, Pending>, ss: seq<Sending>, a: string, c: Change)
    requires forall s :: s in ss ==> NoDuplicates(Addresses(s.cs))
    requires a in pending && pending[a] == Pending(c, 0)
    ensures Counted(BumpedBy(pending, ss), a, c, Mentions(ss, a), !Outlives(ss, a))
  {
    if ss != [] {
      var rest, s := ss[..|ss| - 1], ss[|ss| - 1];
      assert ss == rest + [s];
      PassedOnTimes(pending, rest, a, c);
      BumpedOnce(BumpedBy(pending, rest), Addresses(s.cs), s.maxP, a, c, Mentions(rest, a), !Outlives(rest, a));
      OutlivesExtend(rest, s, a);
    }
  }

  lemma OutlivesExtend(rest: seq<Sending>, s: Sending, a: string)
    ensures Outlives(rest + [s], a) <==> Outlives(rest, a) && (Mentioned(s, a) ==> Mentions(rest, a) + 1 < s.maxP)
  {
    var ss := rest + [s];
    assert ss[..|rest|] == rest;
    assert Mentions(ss, a) == Mentions(rest, a) + if Mentioned(s, a) then 1 else 0;
  }

  /** While the limit does not change, a change goes out with exactly as many sendings as it says. */
  lemma {:induction false} OutlivesFixedLimit(ss: seq<Sending>, a: string, maxP: int)
    requires maxP > 0 && forall s :: s in ss ==> s.maxP == maxP
    ensures Outlives(ss, a) <==> Mentions(ss, a) < maxP
  {
    if ss != [] {
      var rest, s := ss[..|ss| - 1], ss[|ss| - 1];
      assert ss == rest + [s] && s in ss;
      OutlivesFixedLimit(rest, a, maxP);
      OutlivesExtend(rest, s, a);
    }
  }

  /** The sender of a ping counts when it is answered, and by address: a change that was recorded in the
      meantime, in place of the one that was sent, is counted although it did not go out, and dropped if
      one is the limit. */
  lemma LateRecordIsCounted(n: Node, was: Change, c: Change, maxP: int)
    requires was.address == c.address && was != c
    ensures var sending := Sending([was], maxP);
      && GoneOut([sending], c) == 0 && Mentions([sending], c.address) == 1
      && Counted(Stepped(Recorded(n, c), Spread(Addresses([was]), maxP)).pending, c.address, c, 1, 1 >= maxP)
  {
    var ss := [Sending([was], maxP)];
    assert ss[..0] == [] && Addresses([was]) == [c.address];
    assert Mentions(ss, c.address) == Mentions([], c.address) + 1;
    assert GoneOut(ss, c) == GoneOut([], c);
    BumpedOnce(Recorded(n, c).pending, [c.address], maxP, c.address, c, 0, false);
  }

  lemma SingleUpdate(n: Node, c: Change, now: int)
    requires !n.stopped
    ensures var d := Decide(n.members, n.address, c, now);
      Updated(n, [c], [now]) == if d.Skip? then n else Handled(n.(members := TakeOne(n.members, d)), d.change)
  {
    assert [c][..0] == [] && [now][..0] == [];
    assert Merged(n.members, n.address, [], []) == n.members;
    var d := Decide(n.members, n.address, c, now);
    var n1 := n.(members := TakeOne(n.members, d));
    if d.Skip? {
      assert AppliedOf(n.members, n.address, [c], [now]) == [];
    } else {
      assert AppliedOf(n.members, n.address, [c], [now]) == [d.change];
      assert [d.change][..0] == [];
      assert HandledAll(n1, [d.change]) == Handled(HandledAll(n1, []), d.change);
    }
  }
}
