/**
  Members, changes, and which changes override which members.
 */
module SwimMembers {

  datatype Status = Alive | Suspect | Faulty | Leave

  /** What a node knows about one address. */
  datatype Member = Member(status: Status, incarnation: int)

  datatype Change = Change(source: string, sourceIncarnation: int, address: string, incarnation: int, status: Status)

  function Claim(c: Change): Member {
    Member(c.status, c.incarnation)
  }

  function StatePrecedence(s: Status): int {
    match s
    case Alive => 0
    case Suspect => 1
    case Faulty => 2
    case Leave => 3
  }

  /** The change replaces the member, if it is not about the node itself. */
  predicate NonLocalOverride(m: Member, c: Change) {
    if c.incarnation > m.incarnation then true
    else if c.incarnation < m.incarnation then false
    else StatePrecedence(c.status) > StatePrecedence(m.status)
  }

  /** The change says that the node itself is suspect or faulty. */
  predicate LocalOverride(address: string, local: string, c: Change) {
    address == local && (c.status == Faulty || c.status == Suspect)
  }

  predicate IsReachable(m: Member) {
    m.status == Alive || m.status == Suspect
  }

  predicate Pingable(local: string, address: string, m: Member) {
    address != local && IsReachable(m)
  }

  /** The members that a node can ping. */
  function Pingables(members: map<string, Member>, local: string): set<string> {
    set a | a in members && Pingable(local, a, members[a])
  }

  // Members in the order in which they give way to one another

  /** Suspicion takes an alive member, fault both, and leaving all of them; nothing comes back. */
  predicate GivesWay(s: Status, s': Status) {
    match s
    case Alive => s' != Alive
    case Suspect => s' == Faulty || s' == Leave
    case Faulty => s' == Leave
    case Leave => false
  }

  /** A member is at most another if it is older, or of the same incarnation and gives way to it. */
  predicate AtMost(m: Member, m': Member) {
    || m.incarnation < m'.incarnation
    || (m.incarnation == m'.incarnation && (m.status == m'.status || GivesWay(m.status, m'.status)))
  }

  function Later(m: Member, m': Member): Member {
    if AtMost(m, m') then m' else m
  }

  lemma AtMostIsTotalOrder(a: Member, b: Member, c: Member)
    ensures AtMost(a, a) && (AtMost(a, b) || AtMost(b, a))
    ensures AtMost(a, b) && AtMost(b, a) ==> a == b
    ensures AtMost(a, b) && AtMost(b, c) ==> AtMost(a, c)
  {
  }

  /** A change overrides exactly when it is strictly above the member. */
  lemma OverrideIsAbove(m: Member, c: Change)
    ensures NonLocalOverride(m, c) <==> !AtMost(Claim(c), m)
    ensures (if NonLocalOverride(m, c) then Claim(c) else m) == Later(m, Claim(c))
  {
  }
}
