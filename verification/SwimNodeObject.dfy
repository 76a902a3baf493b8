/**
  The SWIM node object, which couples member list, disseminator and suspicion.
 */
module SwimNodeObjects {
  import opened SwimMembers
  import opened SwimNodes
  import opened SwimRuns
  import opened SwimConvergence
  import opened SwimState
  import opened Sequences

  /** The member that a node takes for itself before it is in its own list. */
  datatype Local = Nobody | Placeholder(incarnation: int)

  class SwimNode {
    const address: string
    const limit: nat -> int                // how often a change is passed on, by the number of members to ping
    const memberlist: Memberlist
    const disseminator: Disseminator
    const suspicion: Suspicion
    var stopped: bool
    var local: Local

    ghost function Repr(): set<object> {
      {this, memberlist, disseminator, suspicion}
    }

    ghost predicate Valid()
      reads Repr()
    {
      && memberlist.Valid() && disseminator.Valid() && suspicion.local == address
      && (memberlist.byAddress == map[] || memberlist.Current())
    }

    /** The incarnation of the placeholder, which is made with the given clock reading if there is none. */
    function Boot(clock: int): int
      reads this
    {
      match local
      case Nobody => clock
      case Placeholder(i) => i
    }

    /** The node as a value. */
    ghost function State(): Node
      reads Repr()
    {
      Node(address, memberlist.byAddress, disseminator.changes, suspicion.timers, suspicion.callbacks,
           suspicion.enabled, stopped)
    }

    constructor (address: string, fingerprint: string -> int, limit: nat -> int)
      ensures Valid() && State() == FreshNode(address) && local == Nobody && fresh(Repr()) && this.limit == limit
    {
      this.address, this.limit := address, limit;
      memberlist := new Memberlist(fingerprint);
      disseminator := new Disseminator();
      suspicion := new Suspicion(address);
      stopped, local := false, Nobody;
    }

    /** What one applied change leads to. */
    method HandleChange(change: Change)
      requires Valid()
      modifies disseminator, suspicion
      ensures Valid() && State() == Handled(old(State()), change)
      ensures disseminator.maxP ==
        if change.status == Faulty then old(disseminator.maxP) else limit(|Pingables(memberlist.byAddress, address)|)
    {
      hide Memberlist.Current, Memberlist.Valid, Pingables;
      disseminator.RecordChange(change);
      match change.status {
        case Alive => suspicion.Stop(change);
        case Faulty => suspicion.Stop(change);
        case Suspect => suspicion.Start(change);
        case Leave => suspicion.Stop(change);
      }
      if change.status != Faulty {
        var n := memberlist.NumPingableMembers(address);
        disseminator.AdjustMaxPropagations(limit, n);
      }
    }

    method HandleChanges(changes: seq<Change>)
      requires Valid()
      modifies disseminator, suspicion
      ensures Valid() && State() == HandledAll(old(State()), changes)
      ensures disseminator.maxP ==
        if Adjusts(changes) then limit(|Pingables(memberlist.byAddress, address)|) else old(disseminator.maxP)
    {
      hide Valid, Pingables, Adjusts, Handled;
      AdjustsNone();
      var i := 0;
      while i < |changes|
        invariant 0 <= i <= |changes| && Valid()
        invariant State() == HandledAll(old(State()), changes[..i])
        invariant disseminator.maxP ==
          if Adjusts(changes[..i]) then limit(|Pingables(memberlist.byAddress, address)|) else old(disseminator.maxP)
      {
        assert changes[..i + 1][..i] == changes[..i];
        assert changes[..i + 1] == changes[..i] + [changes[i]];
        AdjustsExtend(changes[..i], changes[i]);
        HandleChange(changes[i]);
        i := i + 1;
      }
      assert changes[..i] == changes;
    }

    /** Applied changes made the limit that of the pingable members, or left it as it was. */
    predicate Fitted(applied: seq<Change>, maxP: int)
      reads Repr()
    {
      disseminator.maxP == if Adjusts(applied) then limit(|Pingables(memberlist.byAddress, address)|) else maxP
    }

    /** Apply changes selectively; `now[i]` is the clock when change `i` comes up, `draws` the
        random numbers that place new members in the list. */
    method Update(changes: seq<Change>, now: seq<int>, draws: seq<nat>) returns (applied: seq<Change>)
      requires Valid() && |now| == |changes| && |draws| == |changes|
      modifies Repr()
      ensures Valid() && State() == Updated(old(State()), changes, now)
      ensures applied == if old(stopped) then [] else AppliedOf(old(State()).members, address, changes, now)
      ensures local == old(local) && Fitted(applied, old(disseminator.maxP))
    {
      hide Memberlist.Current, Memberlist.Valid, Disseminator.Valid, Merged, AppliedOf;
      UpdatedNothing(State());
      AdjustsNone();
      applied := [];
      if stopped || |changes| == 0 {
        return;
      }
      applied := memberlist.Merge(address, changes, now, draws);
      if |applied| > 0 {
        memberlist.ComputeChecksum();
        HandleChanges(applied);
      }
    }

    /** Merge a join response without spreading it further. */
    method AddJoinList(list: seq<Change>, now: seq<int>, draws: seq<nat>)
      requires Valid() && |now| == |list| && |draws| == |list|
      modifies Repr()
      ensures Valid() && State() == Stepped(old(State()), Join(list, now)) && local == old(local)
    {
      hide Stepped, Updated, Cleared, AppliedOf, Memberlist.Valid, Memberlist.Current, Fitted;
      JoinClears(State(), list, now);
      var applied := Update(list, now, draws);
      ghost var n := State();
      ClearedNone(n);
      var i := 0;
      while i < |applied|
        invariant 0 <= i <= |applied| && Valid() && local == old(local)
        invariant State() == Cleared(n, applied[..i])
      {
        assert applied[..i + 1] == applied[..i] + [applied[i]];
        ClearedExtend(n, applied[..i], applied[i]);
        if applied[i].address != address {
          disseminator.ClearChange(applied[i].address);
        }
        i := i + 1;
      }
      assert applied[..i] == applied;
    }

    /** A change made by this node itself. If it does not know itself yet, it makes a placeholder
        with the reading `clock`, once and for all. */
    method MakeChange(target: string, incarnation: int, status: Status, now: int, clock: int, draw: nat)
      returns (applied: seq<Change>)
      requires Valid()
      modifies Repr()
      ensures Valid()
      ensures local == if address in old(memberlist.byAddress) then old(local) else Placeholder(old(Boot(clock)))
      ensures old(local) != Nobody ==> local == old(local)
      ensures var c := SwimRuns.MakeChange(old(State()), target, incarnation, status, old(Boot(clock)));
        && (address !in old(memberlist.byAddress) ==> c.sourceIncarnation == local.incarnation)
        && State() == Updated(old(State()), [c], [now])
        && applied == if old(stopped) then [] else AppliedOf(old(State()).members, address, [c], [now])
      ensures Fitted(applied, old(disseminator.maxP))
    {
      if address !in memberlist.byAddress && local == Nobody {
        local := Placeholder(clock);
      }
      var sourceIncarnation :=
        if address in memberlist.byAddress then memberlist.byAddress[address].incarnation else local.incarnation;
      applied := Update([Change(address, sourceIncarnation, target, incarnation, status)], [now], [draw]);
    }

    /** The reading that stands for the node's clock in a step: the one used for the placeholder,
        as long as there is need for one. */
    function Reading(now: int, clock: int): int
      reads this, memberlist
    {
      if address in memberlist.byAddress then now else Boot(clock)
    }

    /** The callback of a suspicion timer that was started at `incarnation`. */
    method SuspicionTimeout(target: string, incarnation: int, now: int, clock: int, draw: nat)
      requires Valid() && (target, incarnation) in suspicion.callbacks
      modifies Repr()
      ensures Valid() && State() == Stepped(old(State()), Timeout(target, incarnation, old(Reading(now, clock))))
      ensures local == if address in old(memberlist.byAddress) then old(local) else Placeholder(old(Boot(clock)))
    {
      ghost var n, r := State(), Reading(now, clock);
      if address !in memberlist.byAddress {
        ReadingUnused(n, SwimRuns.MakeChange(n, target, incarnation, Faulty, r), now, r);
      }
      hide Updated;
      var _ := MakeChange(target, incarnation, Faulty, now, clock, draw);
    }

    /** Neither a ping nor ping requests reached a member. */
    method MemberUnreachable(target: string, now: int, clock: int, draw: nat)
      requires Valid() && target in memberlist.byAddress && target != address
      modifies Repr()
      ensures Valid() && State() == Stepped(old(State()), Unreachable(target, old(Reading(now, clock))))
      ensures local == if address in old(memberlist.byAddress) then old(local) else Placeholder(old(Boot(clock)))
    {
      ghost var n, r := State(), Reading(now, clock);
      var incarnation := memberlist.byAddress[target].incarnation;
      if address !in memberlist.byAddress {
        ReadingUnused(n, SwimRuns.MakeChange(n, target, incarnation, Suspect, r), now, r);
      }
      hide Updated;
      var _ := MakeChange(target, incarnation, Suspect, now, clock, draw);
    }

    /** Leave, at the incarnation of the node or of its placeholder. Without either the source dereferences nil. */
    method LeaveCluster(now: int, draw: nat) returns (panicked: bool)
      requires Valid()
      modifies Repr()
      ensures Valid() && local == old(local)
      ensures panicked <==> old(address !in memberlist.byAddress && local == Nobody)
      ensures panicked ==> State() == old(State())
      ensures !panicked ==> State() == Stepped(old(State()), SwimRuns.LeaveCluster(old(Reading(now, now))))
      ensures !panicked && !old(stopped) ==>
        var i := if address in old(memberlist.byAddress) then old(memberlist.byAddress)[address].incarnation
                 else old(local).incarnation;
        memberlist.byAddress == old(memberlist.byAddress)[address := Member(Leave, i)]
    {
      hide Updated, Stepped, Memberlist.Valid, Memberlist.Current, Disseminator.Valid, Fitted, AppliedOf;
      if address !in memberlist.byAddress && local == Nobody {
        return true;
      }
      ghost var n, r := State(), Reading(now, now);
      var incarnation :=
        if address in memberlist.byAddress then memberlist.byAddress[address].incarnation else local.incarnation;
      if address !in memberlist.byAddress {
        ReadingUnused(n, SwimRuns.MakeChange(n, address, incarnation, Leave, r), now, r);
      }
      LeaveOffers(n, r);
      var _ := MakeChange(address, incarnation, Leave, now, now, draw);
      return false;
    }

    method Reincarnate(now: int, clock: int, draw: nat)
      requires Valid()
      modifies Repr()
      ensures Valid() && State() == Stepped(old(State()), SwimRuns.Reincarnate(now, old(Boot(clock))))
      ensures local == if address in old(memberlist.byAddress) then old(local) else Placeholder(old(Boot(clock)))
    {
      hide Updated;
      var _ := MakeChange(address, now, Alive, now, clock, draw);
    }

    /** Every member as a change, in list order. */
    method FullSync() returns (changes: seq<Change>)
      requires Valid()
      ensures IsFullSync(State(), changes) && DistinctAddresses(changes)
      ensures Addresses(changes) == memberlist.list
      ensures forall k :: 0 <= k < |changes| ==>
        changes[k].source == address && changes[k].sourceIncarnation == LocalIncarnation(State(), Boot(-1))
    {
      hide Memberlist.Current, IsFullSync;
      changes := [];
      var incarnation :=
        if address in memberlist.byAddress then memberlist.byAddress[address].incarnation
        else if local.Placeholder? then local.incarnation
        else -1;
      var i := 0;
      while i < |memberlist.list|
        invariant 0 <= i <= |memberlist.list|
        invariant Addresses(changes) == memberlist.list[..i]
        invariant forall k :: 0 <= k < i ==> changes[k].source == address && changes[k].sourceIncarnation == incarnation
        invariant forall k :: 0 <= k < i ==>
          changes[k].address == memberlist.list[k] && Claim(changes[k]) == memberlist.byAddress[memberlist.list[k]]
      {
        var a := memberlist.list[i];
        assert a in Elements(memberlist.list);
        var member := memberlist.byAddress[a];
        changes := changes + [Change(address, incarnation, a, member.incarnation, member.status)];
        i := i + 1;
      }
      FullSyncListed(State(), memberlist.list, changes);
    }

    /** The changes to ping with: all pending ones. */
    method IssueAsSender() returns (changes: seq<Change>)
      requires Valid()
      ensures DistinctAddresses(changes)
      ensures forall c :: c in changes <==>
        c.address in disseminator.changes && disseminator.changes[c.address].change == c
    {
      changes := disseminator.IssueChanges();
    }

    /** The ping was answered: what is pending now for the addresses that went out is counted. */
    method PingAnswered(changes: seq<Change>)
      requires Valid()
      modifies disseminator
      ensures Valid() && State() == Stepped(old(State()), Spread(Addresses(changes), disseminator.maxP))
      ensures disseminator.maxP == old(disseminator.maxP)
    {
      disseminator.BumpPiggybackCounters(changes);
    }

    /** The changes to answer a ping with: all pending ones that did not come from the sender,
        or the whole member list if there are none although the checksums differ. */
    method IssueAsReceiver(sender: string, senderIncarnation: int, senderChecksum: int)
      returns (changes: seq<Change>, fullSync: bool)
      requires Valid()
      modifies disseminator
      ensures Valid() && DistinctAddresses(changes) && disseminator.maxP == old(disseminator.maxP)
      ensures fullSync <==>
        memberlist.checksum != senderChecksum && PendingFor(old(State()), sender, senderIncarnation) == {}
      ensures fullSync ==> State() == old(State()) && IsFullSync(State(), changes)
      ensures !fullSync ==> Elements(changes) == PendingFor(old(State()), sender, senderIncarnation)
      ensures !fullSync ==> State() == Stepped(old(State()), Spread(Addresses(changes), disseminator.maxP))
    {
      hide Memberlist.Current, Memberlist.Valid, IsFullSync, Bumped, FromSender;
      BumpedNone(disseminator.changes, disseminator.maxP);
      var issued := disseminator.IssueChanges();
      var cs := new Change[|issued|](i requires 0 <= i < |issued| => issued[i]);
      assert cs[..] == issued;
      var n := FilterChangesFromSender(cs, sender, senderIncarnation);
      changes := cs[..n];
      FilteredPending(State(), sender, senderIncarnation, issued, cs[..], n);
      disseminator.BumpPiggybackCounters(changes);
      assert |changes| > 0 ==> changes[0] in Elements(changes);
      if |changes| > 0 || memberlist.checksum == senderChecksum {
        return changes, false;
      }
      assert Addresses(changes) == [];
      changes := FullSync();
      fullSync := true;
    }

    method Stop()
      requires Valid()
      modifies this`stopped, suspicion
      ensures Valid() && State() == Stepped(old(State()), StopNode)
    {
      suspicion.Disable();
      stopped := true;
    }

    method Start()
      requires Valid()
      modifies this`stopped, suspicion
      ensures Valid() && State() == Stepped(old(State()), StartNode)
    {
      suspicion.Reenable();
      stopped := false;
    }
  }

  lemma LeaveOffers(n: Node, now: int)
    ensures var c := SwimRuns.MakeChange(n, n.address, LocalIncarnation(n, now), Leave, now);
      Stepped(n, SwimRuns.LeaveCluster(now)) == Updated(n, [c], [now])
    ensures !n.stopped ==>
      Stepped(n, SwimRuns.LeaveCluster(now)).members ==
        n.members[n.address := Member(Leave, LocalIncarnation(n, now))]
  {
    hide Updated;
    if !n.stopped {
      LeaveTakesEffect(n, now);
    }
  }

  /** Some change makes the node fit its limit anew. */
  predicate Adjusts(cs: seq<Change>) {
    exists i :: 0 <= i < |cs| && cs[i].status != Faulty
  }

  lemma AdjustsNone()
    ensures !Adjusts([])
  {
  }

  lemma AdjustsExtend(cs: seq<Change>, c: Change)
    ensures Adjusts(cs + [c]) <==> Adjusts(cs) || c.status != Faulty
  {
    var all := cs + [c];
    if i :| 0 <= i < |cs| && cs[i].status != Faulty {
      assert all[i].status != Faulty;
    }
    if c.status != Faulty {
      assert all[|cs|].status != Faulty;
    }
  }

  /** The pending changes that did not come from the sender. */
  ghost function PendingFor(n: Node, sender: string, incarnation: int): set<Change> {
    set a | a in n.pending && !FromSender(n.pending[a].change, sender, incarnation) :: n.pending[a].change
  }

  /** A change that a node made is not sent back to it, as long as its incarnation is the one it made the change with.
      Here `n` took the change from the node `made` and has it pending. */
  lemma OwnChangeHeldBackIff(n: Node, made: Node, target: string, incarnation: int, status: Status, clock: int,
                             now: int, asked: int)
    requires var c := SwimRuns.MakeChange(made, target, incarnation, status, clock);
      && !n.stopped && !LocalOverride(target, n.address, c)
      && (target in n.members ==> NonLocalOverride(n.members[target], c))
    ensures var c := SwimRuns.MakeChange(made, target, incarnation, status, clock);
      var n' := Stepped(n, Receive([c], [now]));
      && target in n'.pending && n'.pending[target].change == c
      && (c in PendingFor(n', made.address, asked) <==> asked != LocalIncarnation(made, clock))
      && (made.address != n.address ==> c in PendingFor(n', n.address, asked))
  {
    var c := SwimRuns.MakeChange(made, target, incarnation, status, clock);
    SingleUpdate(n, c, now);
    var n' := Stepped(n, Receive([c], [now]));
    hide Stepped, Updated;
    assert n'.pending[target].change == c;
  }

  /** A refutation goes by the source of what it refutes. So the node that made the suspicion does not get it in
      answer to its pings, unless by a full sync or at another incarnation; other nodes do. */
  lemma RefutationHeldBackIff(n: Node, c: Change, now: int, asker: string, asked: int)
    requires !n.stopped && n.address in n.members && LocalOverride(c.address, n.address, c)
    ensures var n' := Stepped(n, Receive([c], [now]));
      && n.address in n'.pending && Claim(n'.pending[n.address].change) == Member(Alive, now)
      && (n'.pending[n.address].change in PendingFor(n', asker, asked) <==>
            asker != c.source || asked != c.sourceIncarnation)
  {
    SingleUpdate(n, c, now);
    var n' := Stepped(n, Receive([c], [now]));
    hide Stepped, Updated;
    assert n'.pending[n.address].change == c.(incarnation := now, status := Alive);
  }

  lemma FilteredPending(n: Node, sender: string, incarnation: int, issued: seq<Change>, cs: seq<Change>, k: nat)
    requires forall a :: a in n.pending ==> n.pending[a].change.address == a
    requires forall c :: c in issued <==> c.address in n.pending && n.pending[c.address].change == c
    requires multiset(cs) == multiset(issued) && DistinctAddresses(issued) && k <= |cs|
    requires forall i :: 0 <= i < k ==> !FromSender(cs[i], sender, incarnation)
    requires forall i :: k <= i < |cs| ==> FromSender(cs[i], sender, incarnation)
    ensures Elements(cs[..k]) == PendingFor(n, sender, incarnation) && DistinctAddresses(cs[..k])
  {
    PermutedDistinct(issued, cs);
    forall i, j | 0 <= i < j < |cs| ensures cs[i].address != cs[j].address {
      assert cs[i] in Elements(cs) && cs[j] in Elements(cs) && cs[i] != cs[j];
    }
    hide FromSender;
    forall c
      ensures c in cs[..k] <==> c in PendingFor(n, sender, incarnation)
    {
      assert c in issued <==> c in Elements(cs);
      if c in cs[..k] {
        var i :| 0 <= i < k && cs[i] == c;
      }
      if c in cs && !FromSender(c, sender, incarnation) {
        var i :| 0 <= i < |cs| && cs[i] == c;
        assert cs[..k][i] == c;
      }
    }
  }

  lemma FullSyncListed(n: Node, list: seq<string>, cs: seq<Change>)
    requires NoDuplicates(list) && Elements(list) == n.members.Keys && |cs| == |list|
    requires forall k :: 0 <= k < |cs| ==>
      cs[k].address == list[k] && list[k] in n.members && Claim(cs[k]) == n.members[list[k]]
    ensures IsFullSync(n, cs)
  {
    forall a
      ensures ClaimsAbout(cs, a) == if a in n.members then {n.members[a]} else {}
    {
      if a in n.members {
        assert a in Elements(list);
        var k :| 0 <= k < |list| && list[k] == a;
        assert cs[k] in cs;
      }
    }
  }
}
