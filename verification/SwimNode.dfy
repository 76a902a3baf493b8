/**
  One SWIM node as a value: its member list, the changes it has still to spread, and
  its suspicion timers, with an update and its consequences as one step.
 */
module SwimNodes {
  import opened SwimMembers

  /** A change and how often it was passed on. */
  datatype Pending = Pending(change: Change, p: int)

  datatype Node = Node(
    address: string,
    members: map<string, Member>,
    pending: map<string, Pending>,
    timers: map<string, int>,          // running suspicion timers and the incarnation they act on
    callbacks: set<(string, int)>,     // every timer callback ever started, stopped or not
    enabled: bool,
    stopped: bool)

  ghost predicate DistinctAddresses(cs: seq<Change>) {
    forall i, j :: 0 <= i < j < |cs| ==> cs[i].address != cs[j].address
  }

  // Updating the member list

  /** What one change does to the list, and the change that is then passed on.  `now` is
      the clock reading that a refutation would use. */
  datatype Applied = Skip | Take(change: Change)

  function Decide(members: map<string, Member>, local: string, c: Change, now: int): Applied {
    if c.address !in members then Take(c)
    else if LocalOverride(c.address, local, c) then Take(c.(incarnation := now, status := Alive))
    else if NonLocalOverride(members[c.address], c) then Take(c)
    else Skip
  }

  function TakeOne(members: map<string, Member>, a: Applied): map<string, Member> {
    match a
    case Skip => members
    case Take(c) => members[c.address := Claim(c)]
  }

  /** The member list after a batch of changes. */
  function Merged(members: map<string, Member>, local: string, cs: seq<Change>, now: seq<int>): map<string, Member>
    requires |now| == |cs|
  {
    if cs == [] then members
    else
      var k := |cs| - 1;
      var m := Merged(members, local, cs[..k], now[..k]);
      TakeOne(m, Decide(m, local, cs[k], now[k]))
  }

  /** The changes of a batch that were applied, refutations in place of what they refute. */
  function AppliedOf(members: map<string, Member>, local: string, cs: seq<Change>, now: seq<int>): seq<Change>
    requires |now| == |cs|
  {
    if cs == [] then []
    else
      var k := |cs| - 1;
      var m := Merged(members, local, cs[..k], now[..k]);
      var rest := AppliedOf(members, local, cs[..k], now[..k]);
      match Decide(m, local, cs[k], now[k])
      case Skip => rest
      case Take(c) => rest + [c]
  }

  // Consequences of an applied change

  function Started(n: Node, c: Change): Node {
    if !n.enabled || c.address == n.address || c.address in n.timers then n
    else n.(timers := n.timers[c.address := c.incarnation], callbacks := n.callbacks + {(c.address, c.incarnation)})
  }

  function Stopped(n: Node, c: Change): Node {
    n.(timers := n.timers - {c.address})
  }

  function Recorded(n: Node, c: Change): Node {
    n.(pending := n.pending[c.address := Pending(c, 0)])
  }

  function Handled(n: Node, c: Change): Node {
    if c.status == Suspect then Started(Recorded(n, c), c) else Stopped(Recorded(n, c), c)
  }

  function HandledAll(n: Node, cs: seq<Change>): Node {
    if cs == [] then n else Handled(HandledAll(n, cs[..|cs| - 1]), cs[|cs| - 1])
  }

  function Updated(n: Node, cs: seq<Change>, now: seq<int>): Node
    requires |now| == |cs|
  {
    if n.stopped then n
    else HandledAll(n.(members := Merged(n.members, n.address, cs, now)), AppliedOf(n.members, n.address, cs, now))
  }

  // The list, address by address

  /** The fold of `Later` over the claims about `a`, starting from what is known. */
  datatype Knowledge = Unknown | Known(m: Member)

  function Lookup(members: map<string, Member>, a: string): Knowledge {
    if a in members then Known(members[a]) else Unknown
  }

  predicate KnownAtMost(k: Knowledge, k': Knowledge) {
    k.Unknown? || (k'.Known? && AtMost(k.m, k'.m))
  }

  function ClaimsAbout(cs: seq<Change>, a: string): set<Member> {
    set c | c in cs && c.address == a :: Claim(c)
  }

  /** `k` is the greatest of what was known and what was claimed. */
  ghost predicate IsGreatest(k: Knowledge, known: Knowledge, claims: set<Member>) {
    && KnownAtMost(known, k) && (forall m :: m in claims ==> KnownAtMost(Known(m), k))
    && (k == known || (k.Known? && k.m in claims))
  }

  /** For every address but its own, a node holds the greatest claim it has met. */
  lemma {:induction false} MergedIsGreatest(members: map<string, Member>, local: string, cs: seq<Change>,
                                            now: seq<int>, a: string)
    requires |now| == |cs| && a != local
    ensures IsGreatest(Lookup(Merged(members, local, cs, now), a), Lookup(members, a), ClaimsAbout(cs, a))
  {
    if cs == [] {
      assert ClaimsAbout(cs, a) == {};
    } else {
      var k := |cs| - 1;
      MergedIsGreatest(members, local, cs[..k], now[..k], a);
      assert cs == cs[..k] + [cs[k]];
      ClaimsExtend(cs[..k], cs[k], a);
      var m := Merged(members, local, cs[..k], now[..k]);
      hide IsGreatest, Decide, TakeOne;
      GreatestStep(m, local, cs[k], now[k], a, Lookup(members, a), ClaimsAbout(cs[..k], a));
    }
  }

  lemma GreatestStep(m: map<string, Member>, local: string, c: Change, now: int, a: string, known: Knowledge,
                     claims: set<Member>)
    requires a != local && IsGreatest(Lookup(m, a), known, claims)
    ensures IsGreatest(Lookup(TakeOne(m, Decide(m, local, c, now)), a), known,
                       claims + if c.address == a then {Claim(c)} else {})
  {
    if c.address == a && a in m {
      OverrideIsAbove(m[a], c);
    }
  }

  lemma ClaimsExtend(cs: seq<Change>, c: Change, a: string)
    ensures ClaimsAbout(cs + [c], a) == ClaimsAbout(cs, a) + if c.address == a then {Claim(c)} else {}
  {
  }

  lemma GreatestUnique(k: Knowledge, k': Knowledge, known: Knowledge, claims: set<Member>)
    requires IsGreatest(k, known, claims) && IsGreatest(k', known, claims)
    ensures k == k'
  {
    hide AtMost;
    if k.Known? && k'.Known? {
      AtMostIsTotalOrder(k.m, k'.m, k.m);
    }
  }
}
