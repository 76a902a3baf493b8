/**
  Failure detection: an unreachable member is suspected, and faulty when its suspicion times
  out; and what a node does not do while it is stopped or its suspicion is disabled.
 */
module SwimDetection {
  import opened SwimMembers
  import opened SwimNodes
  import opened SwimCoupling
  import opened SwimRuns

  // From unreachable to suspect

  /** A node begins to suspect a member: list and pending changes have the suspicion, and a timer is
      started at its incarnation if suspicion is enabled and none is running. */
  ghost predicate Suspects(n: Node, n': Node, a: string, i: int) {
    && n' == n.(members := n.members[a := Member(Suspect, i)], pending := n'.pending, timers := n'.timers,
                callbacks := n'.callbacks)
    && a in n'.pending && Claim(n'.pending[a].change) == Member(Suspect, i) && n'.pending[a].p == 0
    && n'.pending[a].change.address == a && n'.pending - {a} == n.pending - {a}
    && n'.timers == (if n.enabled && a !in n.timers then n.timers[a := i] else n.timers)
    && n'.callbacks == n.callbacks + (if n.enabled && a !in n.timers then {(a, i)} else {})
  }

  /** An alive member that cannot be reached is suspected, at the incarnation it has. For a member in any other
      state that is no news. */
  lemma UnreachableSuspected(n: Node, a: string, now: int)
    requires !n.stopped && a in n.members && a != n.address
    ensures var n' := Stepped(n, Unreachable(a, now));
      if n.members[a].status == Alive then Suspects(n, n', a, n.members[a].incarnation) else n' == n
  {
    var c := MakeChange(n, a, n.members[a].incarnation, Suspect, now);
    SingleUpdate(n, c, now);
    hide Updated;
    if n.members[a].status == Alive {
      HandledSuspicion(n.(members := n.members[a := Claim(c)]), c);
    }
  }

  lemma HandledSuspicion(n: Node, c: Change)
    requires c.status == Suspect && c.address != n.address
    ensures var n', started := Handled(n, c), n.enabled && c.address !in n.timers;
      n' == n.(pending := n.pending[c.address := Pending(c, 0)],
               timers := if started then n.timers[c.address := c.incarnation] else n.timers,
               callbacks := n.callbacks + if started then {(c.address, c.incarnation)} else {})
  {
  }

  /** A suspicion of another that is news. */
  lemma SuspicionTaken(n: Node, c: Change, now: int)
    requires !n.stopped && c.status == Suspect && c.address != n.address
    requires c.address in n.members ==> NonLocalOverride(n.members[c.address], c)
    ensures Suspects(n, Stepped(n, Receive([c], [now])), c.address, c.incarnation)
  {
    SingleUpdate(n, c, now);
    hide Updated;
    HandledSuspicion(n.(members := n.members[c.address := Claim(c)]), c);
    assert n.pending[c.address := Pending(c, 0)] - {c.address} == n.pending - {c.address};
  }

  // From suspect to faulty

  lemma StepCallbacks(n: Node, s: Step)
    ensures n.callbacks <= Stepped(n, s).callbacks
  {
    if Allowed(n, s) && !n.stopped {
      var cs, now := Offered(n, s), Readings(n, s);
      HandledCallbacks(n.(members := Merged(n.members, n.address, cs, now)),
                       AppliedOf(n.members, n.address, cs, now));
    }
  }

  lemma {:induction false} RunFrom(n: Node, steps: seq<Step>)
    requires Coupled(n)
    ensures Coupled(RunOf(n, steps)) && RunOf(n, steps).address == n.address
    ensures n.callbacks <= RunOf(n, steps).callbacks
  {
    if steps != [] {
      hide Coupled, Stepped;
      RunFrom(n, steps[..|steps| - 1]);
      StepCoupled(RunOf(n, steps[..|steps| - 1]), steps[|steps| - 1]);
      StepCallbacks(RunOf(n, steps[..|steps| - 1]), steps[|steps| - 1]);
    }
  }

  /** The whole way: a member that was alive and cannot be reached becomes faulty when its suspicion times out,
      exactly if the node runs then and has heard nothing in the meantime that takes the suspicion back or goes
      beyond it. Otherwise the timeout changes nothing. */
  lemma SilentMemberFails(address: string, steps: seq<Step>, a: string, now: int, meanwhile: seq<Step>, now': int)
    requires var n := RunOf(FreshNode(address), steps);
      !n.stopped && n.enabled && a != address && a in n.members && n.members[a].status == Alive
    ensures var n := RunOf(FreshNode(address), steps);
      var i, n' := n.members[a].incarnation, RunOf(Stepped(n, Unreachable(a, now)), meanwhile);
      var n'' := Stepped(n', Timeout(a, i, now'));
      if !n'.stopped && Lookup(n'.members, a) == Known(Member(Suspect, i)) then Declared(n', n'', a, Member(Faulty, i))
      else n'' == n'
  {
    RunCoupled(address, steps);
    var n := RunOf(FreshNode(address), steps);
    assert CoupledAt(n, a);
    UnreachableSuspected(n, a, now);
    StepCoupled(n, Unreachable(a, now));
    hide Stepped, Coupled, Declared;
    RunFrom(Stepped(n, Unreachable(a, now)), meanwhile);
    TimeoutIff(RunOf(Stepped(n, Unreachable(a, now)), meanwhile), a, n.members[a].incarnation, now');
  }

  /** Some timeout that is still to come makes the member faulty. */
  ghost predicate WillTimeOut(n: Node, a: string) {
    exists i, now ::
      (a, i) in n.callbacks && Lookup(Stepped(n, Timeout(a, i, now)).members, a) == Known(Member(Faulty, i))
  }

  /** A suspect can time out exactly if a timer was started at the incarnation at which it is suspected. */
  lemma TimesOutIff(n: Node, a: string)
    requires Coupled(n) && !n.stopped && a in n.members && n.members[a].status == Suspect
    ensures WillTimeOut(n, a) <==> (a, n.members[a].incarnation) in n.callbacks
  {
    hide Coupled, Stepped;
    if (a, n.members[a].incarnation) in n.callbacks {
      TimeoutIff(n, a, n.members[a].incarnation, 0);
      assert Lookup(Stepped(n, Timeout(a, n.members[a].incarnation, 0)).members, a)
             == Known(Member(Faulty, n.members[a].incarnation));
    }
    if i, now :| (a, i) in n.callbacks
                 && Lookup(Stepped(n, Timeout(a, i, now)).members, a) == Known(Member(Faulty, i)) {
      TimeoutIff(n, a, i, now);
    }
  }

  /** A suspicion that is news to a node which never disabled suspicion can time out exactly if the member was not
      suspected before. If it was, the timer that runs was started for the older suspicion, whose timeout
      no longer has an effect: the member stays suspect until the node hears something newer. */
  lemma NewSuspicionTimesOutIff(address: string, steps: seq<Step>, c: Change, now: int)
    requires Disable !in steps && StopNode !in steps && c.status == Suspect && c.address != address
    requires var n := RunOf(FreshNode(address), steps);
      !n.stopped && (c.address in n.members ==> NonLocalOverride(n.members[c.address], c))
    ensures var n := RunOf(FreshNode(address), steps);
      var n' := Stepped(n, Receive([c], [now]));
      && Suspects(n, n', c.address, c.incarnation)
      && (WillTimeOut(n', c.address) <==> !(c.address in n.members && n.members[c.address].status == Suspect))
  {
    RunCoupled(address, steps);
    var n := RunOf(FreshNode(address), steps);
    hide RunOf, WillTimeOut;
    var n' := Stepped(n, Receive([c], [now]));
    StepCoupled(n, Receive([c], [now]));
    SuspicionTaken(n, c, now);
    hide Stepped;
    assert CoupledAt(n, c.address);
    assert (c.address, c.incarnation) in n.callbacks ==> CallbackBelow(n, c.address, c.incarnation);
    TimesOutIff(n', c.address);
  }

  /** A second suspicion at a newer incarnation, while the first is timed: whatever timeouts come, nothing happens. */
  lemma SuspectedTwiceStays(local: string, source: string, a: string, i: int, j: int, now: int, k: int, now': int)
    requires a != local && i < j
    ensures var c, d := Change(source, now, a, i, Suspect), Change(source, now, a, j, Suspect);
      var n := RunOf(FreshNode(local), [Receive([c], [now]), Receive([d], [now])]);
      && n.members == map[a := Member(Suspect, j)] && n.timers == map[a := i]
      && Stepped(n, Timeout(a, k, now')) == n
  {
    var c, d := Change(source, now, a, i, Suspect), Change(source, now, a, j, Suspect);
    var s, t := Receive([c], [now]), Receive([d], [now]);
    var f := FreshNode(local);
    assert [s, t][..1] == [s] && [s][..0] == [];
    assert RunOf(f, []) == f && RunOf(f, [s]) == Stepped(f, s);
    var n1 := Stepped(f, s);
    var n := Stepped(n1, t);
    assert n == RunOf(f, [s, t]);
    hide Stepped, Coupled, RunOf;
    SuspicionTaken(f, c, now);
    SuspicionTaken(n1, d, now);
    RunCoupled(local, [s, t]);
    if (a, k) in n.callbacks {
      TimeoutIff(n, a, k, now');
    }
  }

  // Stopped and disabled

  /** While a node is stopped it takes no news and starts no timers, whatever happens, until it is started again. */
  lemma {:induction false} StoppedIsDeaf(n: Node, steps: seq<Step>)
    requires n.stopped && StartNode !in steps
    ensures var n' := RunOf(n, steps);
      n'.stopped && n'.members == n.members && n'.callbacks == n.callbacks && n'.timers.Keys <= n.timers.Keys
  {
    if steps != [] {
      var rest, s := steps[..|steps| - 1], steps[|steps| - 1];
      assert steps == rest + [s];
      StoppedIsDeaf(n, rest);
      hide Stepped;
      StoppedStep(RunOf(n, rest), s);
    }
  }

  lemma StoppedStep(n: Node, s: Step)
    requires n.stopped && s != StartNode
    ensures var n' := Stepped(n, s);
      n'.stopped && n'.members == n.members && n'.callbacks == n.callbacks && n'.timers.Keys <= n.timers.Keys
  {
    hide Offered, Readings;
  }

  /** A node that was stopped and is started again knows what it knew, suspects whom it suspected, but times
      none of them; from then on it takes news and times suspicions. */
  lemma StopAndStart(n: Node, steps: seq<Step>)
    requires StartNode !in steps && Coupled(n)
    ensures var n' := Stepped(RunOf(Stepped(n, StopNode), steps), StartNode);
      && !n'.stopped && n'.enabled && n'.timers == map[] && n'.members == n.members && n'.callbacks == n.callbacks
  {
    var stopped := Stepped(n, StopNode);
    assert stopped.timers == map[];
    StoppedIsDeaf(stopped, steps);
    assert RunOf(stopped, steps).timers.Keys == {};
    assert RunOf(stopped, steps).timers == map[];
  }

  /** While suspicion is disabled no timer runs and no callback is started, until it is enabled again. */
  lemma {:induction false} DisabledTimesNothing(n: Node, steps: seq<Step>)
    requires Coupled(n) && Reenable !in steps && StartNode !in steps
    ensures var n' := RunOf(Stepped(n, Disable), steps);
      Coupled(n') && !n'.enabled && n'.timers == map[] && n'.callbacks == n.callbacks
  {
    if steps == [] {
      StepCoupled(n, Disable);
    } else {
      var rest, s := steps[..|steps| - 1], steps[|steps| - 1];
      assert steps == rest + [s];
      DisabledTimesNothing(n, rest);
      var m := RunOf(Stepped(n, Disable), rest);
      StepCoupled(m, s);
      hide Coupled;
      DisabledStep(m, s);
    }
  }

  lemma DisabledStep(n: Node, s: Step)
    requires !n.enabled && n.timers == map[] && s != Reenable && s != StartNode
    ensures var n' := Stepped(n, s); !n'.enabled && n'.timers == map[] && n'.callbacks == n.callbacks
  {
    if Allowed(n, s) && !n.stopped {
      var cs, now := Offered(n, s), Readings(n, s);
      HandledNothingTimed(n.(members := Merged(n.members, n.address, cs, now)),
                          AppliedOf(n.members, n.address, cs, now));
    }
  }

  lemma {:induction false} HandledNothingTimed(n: Node, cs: seq<Change>)
    requires !n.enabled && n.timers == map[]
    ensures var n' := HandledAll(n, cs); !n'.enabled && n'.timers == map[] && n'.callbacks == n.callbacks
  {
    if cs != [] {
      HandledNothingTimed(n, cs[..|cs| - 1]);
    }
  }

  /** Enabled again, a node times the suspicions that are news to it, but not those it has. */
  lemma ReenabledTimesNews(n: Node, c: Change, now: int)
    requires Coupled(n) && !n.stopped && !n.enabled && c.status == Suspect && c.address != n.address
    requires c.address in n.members ==> NonLocalOverride(n.members[c.address], c)
    ensures var n' := Stepped(n, Reenable);
      && n'.timers == map[] && n'.members == n.members
      && Stepped(n', Receive([c], [now])).timers == map[c.address := c.incarnation]
  {
    SuspicionTaken(Stepped(n, Reenable), c, now);
  }
}
