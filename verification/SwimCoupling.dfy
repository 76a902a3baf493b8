/**
  What ties the parts of a node together over every run: pending changes repeat the
  member list, timers run exactly for suspects, and late timeouts do no harm.
 */
module SwimCoupling {
  import opened SwimMembers
  import opened SwimNodes

  datatype Last = Never | Last(c: Change)

  /** The last change about an address. */
  function LastAbout(cs: seq<Change>, a: string): Last {
    if cs == [] then Never
    else if cs[|cs| - 1].address == a then Last(cs[|cs| - 1])
    else LastAbout(cs[..|cs| - 1], a)
  }

  lemma LastAboutExtend(cs: seq<Change>, c: Change, a: string)
    ensures LastAbout(cs + [c], a) == if c.address == a then Last(c) else LastAbout(cs, a)
  {
    assert (cs + [c])[..|cs|] == cs;
  }

  lemma {:induction false} LastAboutIsAbout(cs: seq<Change>, a: string)
    ensures LastAbout(cs, a).Last? ==> LastAbout(cs, a).c.address == a && LastAbout(cs, a).c in cs
    ensures LastAbout(cs, a).Never? ==> forall c :: c in cs ==> c.address != a
  {
    if cs != [] {
      LastAboutIsAbout(cs[..|cs| - 1], a);
      assert cs == cs[..|cs| - 1] + [cs[|cs| - 1]];
    }
  }

  /** The member list holds the last applied claim about an address. */
  lemma {:induction false} MergedIsLast(members: map<string, Member>, local: string, cs: seq<Change>, now: seq<int>,
                                        a: string)
    requires |now| == |cs|
    ensures var last := LastAbout(AppliedOf(members, local, cs, now), a);
      Lookup(Merged(members, local, cs, now), a) == if last.Last? then Known(Claim(last.c)) else Lookup(members, a)
  {
    if cs != [] {
      var k := |cs| - 1;
      MergedIsLast(members, local, cs[..k], now[..k], a);
      var m := Merged(members, local, cs[..k], now[..k]);
      var d := Decide(m, local, cs[k], now[k]);
      if d.Take? {
        LastAboutExtend(AppliedOf(members, local, cs[..k], now[..k]), d.change, a);
      }
    }
  }

  /** Applied claims about another address only go up. */
  lemma {:induction false} AppliedBelow(members: map<string, Member>, local: string, cs: seq<Change>, now: seq<int>,
                                        c: Change)
    requires |now| == |cs| && c in AppliedOf(members, local, cs, now) && c.address != local
    ensures KnownAtMost(Known(Claim(c)), Lookup(Merged(members, local, cs, now), c.address))
  {
    var k := |cs| - 1;
    var m := Merged(members, local, cs[..k], now[..k]);
    if c in AppliedOf(members, local, cs[..k], now[..k]) {
      AppliedBelow(members, local, cs[..k], now[..k], c);
      if cs[k].address == c.address {
        OverrideIsAbove(m[c.address], cs[k]);
      }
    }
  }

  /** What handling applied changes leaves for one address. */
  lemma {:induction false} HandledIsLast(n: Node, cs: seq<Change>, a: string)
    ensures var n', last := HandledAll(n, cs), LastAbout(cs, a);
      && n'.address == n.address && n'.members == n.members && n'.enabled == n.enabled && n'.stopped == n.stopped
      && (last.Never? ==> (a in n'.pending <==> a in n.pending) && (a in n.pending ==> n'.pending[a] == n.pending[a]))
      && (last.Never? ==> (a in n'.timers <==> a in n.timers) && (a in n.timers ==> n'.timers[a] == n.timers[a]))
      && (last.Last? ==> a in n'.pending && n'.pending[a] == Pending(last.c, 0))
      && (last.Last? && last.c.status != Suspect ==> a !in n'.timers)
      && (last.Last? && last.c.status == Suspect && n.enabled && a != n.address ==> a in n'.timers)
  {
    if cs != [] {
      hide Handled;
      HandledIsLast(n, cs[..|cs| - 1], a);
      HandledAt(HandledAll(n, cs[..|cs| - 1]), cs[|cs| - 1], a);
    }
  }

  lemma HandledAt(n: Node, c: Change, a: string)
    ensures var n' := Handled(n, c);
      && n'.address == n.address && n'.members == n.members && n'.enabled == n.enabled && n'.stopped == n.stopped
      && (c.address != a ==> (a in n'.pending <==> a in n.pending))
      && (c.address != a && a in n.pending ==> n'.pending[a] == n.pending[a])
      && (c.address != a ==> (a in n'.timers <==> a in n.timers) && (a in n.timers ==> n'.timers[a] == n.timers[a]))
      && (c.address == a ==> a in n'.pending && n'.pending[a] == Pending(c, 0))
      && (c.address == a && c.status != Suspect ==> a !in n'.timers)
      && (c.address == a && c.status == Suspect && n.enabled && a != n.address ==> a in n'.timers)
  {
  }

  /** A timer or callback is an old one, or was started by a suspicion just handled. */
  lemma {:induction false} HandledCallbacks(n: Node, cs: seq<Change>)
    ensures var n' := HandledAll(n, cs);
      && n.callbacks <= n'.callbacks && n'.address == n.address
      && (forall a, i :: (a, i) in n'.callbacks && (a, i) !in n.callbacks ==>
            a != n.address && exists c :: c in cs && c.address == a && c.status == Suspect && c.incarnation == i)
      && (forall a :: a in n'.timers && (a in n.timers ==> n'.timers[a] != n.timers[a]) ==>
            (a, n'.timers[a]) in n'.callbacks && a != n.address)
  {
    if cs != [] {
      var rest, c := cs[..|cs| - 1], cs[|cs| - 1];
      hide Handled;
      HandledCallbacks(n, rest);
      assert cs == rest + [c];
      assert forall d :: d in rest ==> d in cs;
      HandledCallback(HandledAll(n, rest), c);
    }
  }

  lemma HandledCallback(n: Node, c: Change)
    ensures var n' := Handled(n, c);
      && n.callbacks <= n'.callbacks && n'.address == n.address
      && (forall a, i :: (a, i) in n'.callbacks && (a, i) !in n.callbacks ==>
            a != n.address && c.address == a && c.status == Suspect && c.incarnation == i)
      && (forall a :: a in n'.timers && (a in n.timers ==> n'.timers[a] != n.timers[a]) ==>
            (a, n'.timers[a]) in n'.callbacks && a != n.address)
  {
  }

  /** A suspicion that finds a timer running does not touch it: it keeps the incarnation it was started at. */
  lemma RunningTimerStays(n: Node, c: Change)
    requires c.status == Suspect && c.address in n.timers
    ensures Handled(n, c).timers == n.timers && Handled(n, c).callbacks == n.callbacks
  {
  }

  /** Nothing but suspicion was said of the address. */
  predicate OnlySuspected(cs: seq<Change>, a: string) {
    forall i :: 0 <= i < |cs| && cs[i].address == a ==> cs[i].status == Suspect
  }

  /** A timer that runs stays as it is while its member is only suspected again. */
  lemma {:induction false} TimerKept(n: Node, cs: seq<Change>, a: string)
    requires a in n.timers && OnlySuspected(cs, a)
    ensures a in HandledAll(n, cs).timers && HandledAll(n, cs).timers[a] == n.timers[a]
  {
    if cs != [] {
      var k := |cs| - 1;
      TimerKept(n, cs[..k], a);
      var m := HandledAll(n, cs[..k]);
      if cs[k].address == a {
        RunningTimerStays(m, cs[k]);
      }
    }
  }

  /** So a timer runs at the first suspicion since something else was said of its member, or since there was none. */
  lemma TimerIsFirst(n: Node, before: seq<Change>, c: Change, after: seq<Change>)
    requires n.enabled && c.status == Suspect && c.address != n.address && OnlySuspected(after, c.address)
    requires c.address !in HandledAll(n, before).timers
    ensures var n' := HandledAll(n, before + [c] + after);
      c.address in n'.timers && n'.timers[c.address] == c.incarnation && (c.address, c.incarnation) in n'.callbacks
  {
    var m := HandledAll(n, before);
    HandledIsLast(n, before, c.address);
    assert (before + [c])[..|before|] == before;
    var m' := HandledAll(n, before + [c]);
    assert m' == Handled(m, c);
    HandledConcat(n, before + [c], after);
    TimerKept(m', after, c.address);
    HandledCallbacks(m', after);
  }

  lemma {:induction false} HandledConcat(n: Node, cs: seq<Change>, ds: seq<Change>)
    ensures HandledAll(n, cs + ds) == HandledAll(HandledAll(n, cs), ds)
  {
    if ds == [] {
      assert cs + ds == cs;
    } else {
      var k := |ds| - 1;
      assert (cs + ds)[..|cs| + k] == cs + ds[..k] && (cs + ds)[|cs| + k] == ds[k];
      HandledConcat(n, cs, ds[..k]);
    }
  }

  lemma {:induction false} HandledDisabled(n: Node, cs: seq<Change>)
    requires !n.enabled && n.timers == map[]
    ensures HandledAll(n, cs).timers == map[] && !HandledAll(n, cs).enabled
  {
    if cs != [] {
      HandledDisabled(n, cs[..|cs| - 1]);
    }
  }

  // The invariant of a node

  ghost predicate CoupledAt(n: Node, a: string) {
    && (a in n.pending ==>
          n.pending[a].change.address == a && Lookup(n.members, a) == Known(Claim(n.pending[a].change)))
    && (a in n.timers ==>
          && a != n.address && (a, n.timers[a]) in n.callbacks
          && a in n.members && n.members[a].status == Suspect)
  }

  /** A started callback never gets ahead of the member list. */
  ghost predicate CallbackBelow(n: Node, a: string, i: int) {
    a != n.address && KnownAtMost(Known(Member(Suspect, i)), Lookup(n.members, a))
  }

  /** Pending changes repeat the member list, and timers run only for suspects. */
  ghost predicate Coupled(n: Node) {
    && (forall a :: CoupledAt(n, a))
    && (forall a, i :: (a, i) in n.callbacks ==> CallbackBelow(n, a, i))
    && (!n.enabled ==> n.timers == map[])
  }

  /** A timer runs for every suspect other than the node itself. */
  ghost predicate TimersComplete(n: Node) {
    n.enabled && forall a :: a in n.members && a != n.address && n.members[a].status == Suspect ==> a in n.timers
  }

  // Consequences in any order

  /** Handling leaves the last word about every address to the change that had it in the list. */
  ghost predicate SameLast(hs: seq<Change>, applied: seq<Change>) {
    forall a :: LastAbout(hs, a).Last? ==>
      LastAbout(applied, a).Last? && Claim(LastAbout(hs, a).c) == Claim(LastAbout(applied, a).c)
  }

  lemma HandledCouplesAt(n: Node, cs: seq<Change>, now: seq<int>, hs: seq<Change>, a: string)
    requires |now| == |cs| && Coupled(n) && multiset(hs) == multiset(AppliedOf(n.members, n.address, cs, now))
    ensures var applied := AppliedOf(n.members, n.address, cs, now);
      var n' := HandledAll(n.(members := Merged(n.members, n.address, cs, now)), hs);
      var same := LastAbout(hs, a).Last? ==>
        LastAbout(applied, a).Last? && Claim(LastAbout(hs, a).c) == Claim(LastAbout(applied, a).c);
      && (CoupledAt(n', a) <==> same)
      && (same && TimersComplete(n) && a in n'.members && a != n.address && n'.members[a].status == Suspect ==>
            a in n'.timers)
  {
    var applied := AppliedOf(n.members, n.address, cs, now);
    var n1 := n.(members := Merged(n.members, n.address, cs, now));
    MergedIsLast(n.members, n.address, cs, now, a);
    LastAboutIsAbout(applied, a);
    LastAboutIsAbout(hs, a);
    SameAddresses(hs, applied, a);
    HandledIsLast(n1, hs, a);
    HandledCallbacks(n1, hs);
    assert CoupledAt(n, a);
  }

  lemma SameAddresses(hs: seq<Change>, applied: seq<Change>, a: string)
    requires multiset(hs) == multiset(applied)
    ensures LastAbout(hs, a).Last? == LastAbout(applied, a).Last?
  {
    LastAboutIsAbout(applied, a);
    LastAboutIsAbout(hs, a);
    if LastAbout(hs, a).Last? {
      assert LastAbout(hs, a).c in multiset(applied);
    }
    if LastAbout(applied, a).Last? {
      assert LastAbout(applied, a).c in multiset(hs);
    }
  }

  lemma HandledCallbacksBelow(n: Node, cs: seq<Change>, now: seq<int>, hs: seq<Change>, a: string, i: int)
    requires |now| == |cs| && Coupled(n) && multiset(hs) == multiset(AppliedOf(n.members, n.address, cs, now))
    requires (a, i) in HandledAll(n.(members := Merged(n.members, n.address, cs, now)), hs).callbacks
    ensures CallbackBelow(HandledAll(n.(members := Merged(n.members, n.address, cs, now)), hs), a, i)
  {
    var n1 := n.(members := Merged(n.members, n.address, cs, now));
    HandledCallbacks(n1, hs);
    HandledIsLast(n1, hs, a);
    if (a, i) in n.callbacks {
      assert CallbackBelow(n, a, i);
      MergedIsGreatest(n.members, n.address, cs, now, a);
    } else {
      var c :| c in hs && c.address == a && c.status == Suspect && c.incarnation == i;
      assert c in multiset(AppliedOf(n.members, n.address, cs, now));
      AppliedBelow(n.members, n.address, cs, now, c);
    }
  }

  /** The source releases the member list before it handles what was applied, so that the consequences
      of several updates can come in any order. The parts of the node agree in the end exactly when,
      for every address, the change handled last makes the claim applied last. */
  lemma OutOfOrderIff(n: Node, cs: seq<Change>, now: seq<int>, hs: seq<Change>)
    requires |now| == |cs| && Coupled(n) && multiset(hs) == multiset(AppliedOf(n.members, n.address, cs, now))
    ensures var n' := HandledAll(n.(members := Merged(n.members, n.address, cs, now)), hs);
      && (Coupled(n') <==> SameLast(hs, AppliedOf(n.members, n.address, cs, now)))
      && (Coupled(n') && TimersComplete(n) ==> TimersComplete(n'))
  {
    var applied := AppliedOf(n.members, n.address, cs, now);
    var n1 := n.(members := Merged(n.members, n.address, cs, now));
    var n' := HandledAll(n1, hs);
    HandledIsLast(n1, hs, n.address);
    if !n.enabled {
      HandledDisabled(n1, hs);
    }
    forall a, i | (a, i) in n'.callbacks ensures CallbackBelow(n', a, i) {
      HandledCallbacksBelow(n, cs, now, hs, a, i);
    }
    hide HandledAll, Merged, AppliedOf, CallbackBelow, CoupledAt;
    forall a
      ensures CoupledAt(n', a) <==>
        (LastAbout(hs, a).Last? ==>
          LastAbout(applied, a).Last? && Claim(LastAbout(hs, a).c) == Claim(LastAbout(applied, a).c))
      ensures CoupledAt(n', a) && TimersComplete(n) ==>
        (a in n'.members && a != n.address && n'.members[a].status == Suspect ==> a in n'.timers)
    {
      HandledCouplesAt(n, cs, now, hs, a);
    }
  }

  lemma UpdateKeepsCoupled(n: Node, cs: seq<Change>, now: seq<int>)
    requires |now| == |cs| && Coupled(n)
    ensures Coupled(Updated(n, cs, now))
    ensures TimersComplete(n) ==> TimersComplete(Updated(n, cs, now))
  {
    if !n.stopped {
      OutOfOrderIff(n, cs, now, AppliedOf(n.members, n.address, cs, now));
    }
  }
}
