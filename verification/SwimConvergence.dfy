/**
  Convergence: what a node believes about others depends only on which claims reached
  it, and a full sync in both directions makes two nodes agree.
 */
module SwimConvergence {
  import opened SwimMembers
  import opened SwimNodes
  import opened SwimRuns

  /** The changes that reached the member list in a step. */
  function Reached(n: Node, s: Step): seq<Change> {
    if !Allowed(n, s) || n.stopped then [] else Offered(n, s)
  }

  function ReachedIn(n: Node, steps: seq<Step>): seq<Change> {
    if steps == [] then []
    else
      var rest := steps[..|steps| - 1];
      ReachedIn(n, rest) + Reached(RunOf(n, rest), steps[|steps| - 1])
  }

  lemma StepIsGreatest(n: Node, s: Step, a: string)
    requires a != n.address
    ensures Stepped(n, s).address == n.address
    ensures IsGreatest(Lookup(Stepped(n, s).members, a), Lookup(n.members, a), ClaimsAbout(Reached(n, s), a))
  {
    if Allowed(n, s) {
      UpdateAddress(n, Offered(n, s), Readings(n, s));
      MergedIsGreatest(n.members, n.address, Offered(n, s), Readings(n, s), a);
    }
    assert ClaimsAbout([], a) == {};
  }

  lemma GreatestCompose(k0: Knowledge, k1: Knowledge, k2: Knowledge, c1: set<Member>, c2: set<Member>)
    requires IsGreatest(k1, k0, c1) && IsGreatest(k2, k1, c2)
    ensures IsGreatest(k2, k0, c1 + c2)
  {
    hide AtMost;
    if k1.Known? && k2.Known? {
      forall m ensures AtMost(m, k1.m) && AtMost(k1.m, k2.m) ==> AtMost(m, k2.m) {
        AtMostIsTotalOrder(m, k1.m, k2.m);
      }
    }
  }

  lemma ClaimsConcat(cs: seq<Change>, ds: seq<Change>, a: string)
    ensures ClaimsAbout(cs + ds, a) == ClaimsAbout(cs, a) + ClaimsAbout(ds, a)
  {
  }

  /** After any run a node holds, for every address but its own, the greatest of what it
      knew and what reached it; in particular entries only move up. */
  lemma {:induction false} RunIsGreatest(n: Node, steps: seq<Step>, a: string)
    requires a != n.address
    ensures RunOf(n, steps).address == n.address
    ensures IsGreatest(Lookup(RunOf(n, steps).members, a), Lookup(n.members, a), ClaimsAbout(ReachedIn(n, steps), a))
  {
    if steps == [] {
      assert ClaimsAbout([], a) == {};
    } else {
      var rest, s := steps[..|steps| - 1], steps[|steps| - 1];
      RunIsGreatest(n, rest, a);
      var m := RunOf(n, rest);
      StepIsGreatest(m, s, a);
      ClaimsConcat(ReachedIn(n, rest), Reached(m, s), a);
      GreatestCompose(Lookup(n.members, a), Lookup(m.members, a), Lookup(Stepped(m, s).members, a),
                      ClaimsAbout(ReachedIn(n, rest), a), ClaimsAbout(Reached(m, s), a));
    }
  }

  /** Convergence: the same set of claims, in any order, batching and repetition, leaves two
      nodes with the same entry for every address other than their own. */
  lemma Converges(x: Node, y: Node, xs: seq<Step>, ys: seq<Step>, a: string)
    requires a != x.address && a != y.address && Lookup(x.members, a) == Lookup(y.members, a)
    requires ClaimsAbout(ReachedIn(x, xs), a) == ClaimsAbout(ReachedIn(y, ys), a)
    ensures Lookup(RunOf(x, xs).members, a) == Lookup(RunOf(y, ys).members, a)
  {
    RunIsGreatest(x, xs, a);
    RunIsGreatest(y, ys, a);
    GreatestUnique(Lookup(RunOf(x, xs).members, a), Lookup(RunOf(y, ys).members, a), Lookup(x.members, a),
                   ClaimsAbout(ReachedIn(x, xs), a));
  }

  // Full sync

  /** A full sync lists every member once, as the node has it. */
  ghost predicate IsFullSync(n: Node, cs: seq<Change>) {
    forall a :: ClaimsAbout(cs, a) == if a in n.members then {n.members[a]} else {}
  }

  function LaterKnown(k: Knowledge, k': Knowledge): Knowledge {
    if k.Unknown? then k' else if k'.Unknown? then k else Known(Later(k.m, k'.m))
  }

  /** Applying a full sync takes the later entry everywhere but at home. */
  lemma FullSyncDominates(x: Node, y: Node, cs: seq<Change>, now: seq<int>, a: string)
    requires !x.stopped && IsFullSync(y, cs) && |now| == |cs| && a != x.address
    ensures var x' := Updated(x, cs, now);
      && Lookup(x'.members, a) == LaterKnown(Lookup(x.members, a), Lookup(y.members, a))
      && KnownAtMost(Lookup(y.members, a), Lookup(x'.members, a))
  {
    UpdateAddress(x, cs, now);
    MergedIsGreatest(x.members, x.address, cs, now, a);
    assert ClaimsAbout(cs, a) == if a in y.members then {y.members[a]} else {};
  }

  /** After a full sync both ways two nodes agree on all third parties, and doing it again
      changes nothing there. */
  lemma FullSyncSettles(x: Node, y: Node, fromY: seq<Change>, fromX: seq<Change>, again: seq<Change>, back: seq<Change>,
                        now: seq<int>, now': seq<int>, now'': seq<int>, now3: seq<int>, a: string)
    requires !x.stopped && !y.stopped && a != x.address && a != y.address
    requires |now| == |fromY| && |now'| == |fromX| && |now''| == |again| && |now3| == |back|
    requires IsFullSync(y, fromY) && IsFullSync(Updated(x, fromY, now), fromX)
    requires IsFullSync(Updated(y, fromX, now'), again)
    requires IsFullSync(Updated(Updated(x, fromY, now), again, now''), back)
    ensures var x', y' := Updated(x, fromY, now), Updated(y, fromX, now');
      && Lookup(x'.members, a) == Lookup(y'.members, a)
      && Lookup(Updated(x', again, now'').members, a) == Lookup(x'.members, a)
      && Lookup(Updated(y', back, now3).members, a) == Lookup(y'.members, a)
  {
    var x', y' := Updated(x, fromY, now), Updated(y, fromX, now');
    UpdateAddress(x, fromY, now);
    UpdateAddress(y, fromX, now');
    UpdateAddress(x', again, now'');
    hide IsFullSync, Updated;
    FullSyncDominates(x, y, fromY, now, a);
    FullSyncDominates(y, x', fromX, now', a);
    FullSyncDominates(x', y', again, now'', a);
    FullSyncDominates(y', Updated(x', again, now''), back, now3, a);
  }
}
