/**
  The iterator that picks the next member to ping: whatever the shuffles, it finds a
  pingable member if there is one, and nobody waits for long.
 */
module ProbeIterators {
  import opened Sequences
  import opened SwimMembers
  import opened SwimState

  /** How many members are visited before `a` is, at most, from place `at` of the list on. */
  ghost function Wait(list: seq<string>, at: int, a: string): (w: int)
    requires -1 <= at < |list| && a in list
    ensures 1 <= w <= 2 * |list| - 1
  {
    if a in list[..at + 1] then |list| - 1 - at + |list|
    else
      var i :| 0 <= i < |list| && list[i] == a;
      i - at
  }

  lemma WaitAhead(list: seq<string>, at: int, i: nat)
    requires -1 <= at < i < |list| && NoDuplicates(list)
    ensures Wait(list, at, list[i]) == i - at
  {
  }

  lemma WaitBehind(list: seq<string>, at: int, i: nat)
    requires 0 <= i <= at < |list|
    ensures Wait(list, at, list[i]) == |list| - 1 - at + |list|
  {
    assert list[i] == list[..at + 1][i];
  }

  /** What a search has visited that began at place `start` of `list` and is now at place `at` of `now`. */
  ghost function Seen(list: seq<string>, start: int, now: seq<string>, at: int, shuffled: bool): set<string>
    requires -1 <= start < |list| == |now| && -1 <= at < |now| && (!shuffled ==> start <= at)
  {
    if shuffled then Elements(list[start + 1..]) + Elements(now[..at + 1]) else Elements(list[start + 1..at + 1])
  }

  /** Coming to the end of a list that was searched from its beginning, all has been seen. */
  lemma SeenAll(list: seq<string>, start: int, now: seq<string>, at: int, shuffled: bool)
    requires -1 <= start < |list| == |now| && at == |now| - 1 && NoDuplicates(now)
    requires shuffled || (start == -1 && now == list)
    ensures |Seen(list, start, now, at, shuffled)| >= |now|
  {
    assert now[..at + 1] == now && (!shuffled ==> list[start + 1..at + 1] == now);
    ElementsSize(now);
    SubsetSize(Elements(now), Seen(list, start, now, at, shuffled));
  }

  lemma SeenNext(list: seq<string>, start: int, now: seq<string>, at: nat, shuffled: bool)
    requires -1 <= start < |list| == |now| && at < |now| && (shuffled ==> at > 0)
    requires (!shuffled ==> start < at && now == list)
    ensures Seen(list, start, now, at, shuffled) == Seen(list, start, now, at - 1, shuffled) + {now[at]}
  {
    if shuffled {
      assert now[..at + 1] == now[..at] + [now[at]];
    } else {
      assert list[start + 1..at + 1] == list[start + 1..at] + [list[at]];
    }
  }

  lemma SeenShuffled(list: seq<string>, start: int, now: seq<string>)
    requires list != [] && -1 <= start < |list| == |now|
    ensures Seen(list, start, now, 0, true) == Seen(list, start, list, |list| - 1, false) + {now[0]}
  {
    assert list[start + 1..|list| - 1 + 1] == list[start + 1..] && now[..1] == [now[0]];
  }

  /** Whoever has not been seen has less to wait. */
  lemma WaitShrinks(list: seq<string>, start: int, now: seq<string>, at: nat, shuffled: bool, a: string)
    requires -1 <= start < |list| == |now| && at < |now| && (!shuffled ==> start < at && now == list)
    requires NoDuplicates(list) && NoDuplicates(now) && a in list && a in now
    requires a !in Seen(list, start, now, at, shuffled)
    ensures Wait(now, at, a) < Wait(list, start, a)
  {
    var i :| 0 <= i < |list| && list[i] == a;
    var j :| 0 <= j < |now| && now[j] == a;
    if shuffled {
      WaitBehind(list, start, i);
      WaitAhead(now, at, j);
    } else if i <= start {
      WaitBehind(list, start, i);
      WaitBehind(now, at, i);
    } else {
      WaitAhead(list, start, i);
      WaitAhead(now, at, i);
    }
  }

  class MemberlistIter {
    const m: Memberlist
    const local: string
    const perm: (nat, nat) -> seq<nat>     // the permutation drawn for a round
    var currentIndex: int
    var currentRound: nat

    ghost predicate Valid()
      reads this, m
    {
      && m.Valid() && -1 <= currentIndex && (currentIndex == -1 || currentIndex < |m.list|)
      && forall k, n :: IsPermutation(perm(k, n), n)
    }

    constructor (m: Memberlist, local: string, perm: (nat, nat) -> seq<nat>)
      requires m.Valid() && forall k, n :: IsPermutation(perm(k, n), n)
      modifies m
      ensures Valid() && this.m == m && this.local == local && currentIndex == -1
      ensures m.byAddress == old(m.byAddress) && Elements(m.list) == Elements(old(m.list))
      ensures |m.list| == |old(m.list)| && currentRound == 0 && IsPermutation(perm(0, |m.list|), |m.list|)
      ensures forall o :: 0 <= o < |m.list| ==> m.list[perm(0, |m.list|)[o]] == old(m.list)[o]
    {
      this.m, this.local, this.perm, currentIndex, currentRound := m, local, perm, -1, 0;
      new;
      m.Shuffle(perm(0, |m.list|));
    }

    /** Step to the next place, shuffling the list at its end. */
    method Advance()
      requires Valid() && m.list != []
      modifies this, m
      ensures Valid() && m.byAddress == old(m.byAddress) && |m.list| == |old(m.list)|
      ensures Elements(m.list) == Elements(old(m.list)) && 0 <= currentIndex
      ensures old(currentIndex) < |old(m.list)| - 1 ==> m.list == old(m.list) && currentIndex == old(currentIndex) + 1
      ensures old(currentIndex) == |old(m.list)| - 1 ==> currentIndex == 0
      ensures old(currentIndex) == |old(m.list)| - 1 ==>
        forall o :: 0 <= o < |m.list| ==> m.list[perm(currentRound, |m.list|)[o]] == old(m.list)[o]
      ensures currentRound == old(currentRound) + if old(currentIndex) == |old(m.list)| - 1 then 1 else 0
    {
      currentIndex := currentIndex + 1;
      if currentIndex >= |m.list| {
        currentIndex := 0;
        currentRound := currentRound + 1;
        m.Shuffle(perm(currentRound, |m.list|));
      }
    }

    predicate CanPing(a: string)
      reads this, m
    {
      a in m.byAddress && Pingable(local, a, m.byAddress[a])
    }

    lemma PingableIff(a: string)
      ensures CanPing(a) <==> a in m.byAddress && a != local && m.byAddress[a].status in {Alive, Suspect}
    {
    }

    lemma OthersCloser(list: seq<string>, start: int, shuffled: bool, visited: set<string>, member: string)
      requires Valid() && NoDuplicates(list) && Elements(list) == Elements(m.list)
      requires -1 <= start < |list| == |m.list| && 0 <= currentIndex
      requires !shuffled ==> start < currentIndex && m.list == list
      requires visited == Seen(list, start, m.list, currentIndex, shuffled)
      requires forall a :: a in visited && a != member ==> !CanPing(a)
      ensures forall a :: CanPing(a) && a != member ==>
        a in m.list && a in list && Wait(m.list, currentIndex, a) < Wait(list, start, a)
    {
      forall a | CanPing(a) && a != member
        ensures a in m.list && a in list && Wait(m.list, currentIndex, a) < Wait(list, start, a)
      {
        assert a in Elements(m.list) && a in Elements(list);
        WaitShrinks(list, start, m.list, currentIndex, shuffled, a);
      }
    }

    /** A search that began at place `start` of `list` has come here in so many visits. */
    ghost predicate Searching(list: seq<string>, start: int, shuffled: bool, visited: set<string>, visits: nat)
      reads this, m
    {
      && -1 <= start && (start == -1 || start < |list|) && NoDuplicates(list)
      && |m.list| == |list| && Elements(m.list) == Elements(list) && visited <= Elements(list)
      && (if shuffled then 0 <= currentIndex && 0 <= start else m.list == list && start <= currentIndex)
      && -1 <= currentIndex && (currentIndex == -1 || currentIndex < |list|)
      && (list != [] ==> visited == Seen(list, start, m.list, currentIndex, shuffled))
      && visits == if shuffled then |list| - start + currentIndex else currentIndex - start
    }

    lemma StartSearch()
      requires Valid()
      ensures Searching(m.list, currentIndex, false, {}, 0)
    {
      SeenNothing(m.list, currentIndex);
    }

    /** Visit one more member, if not all were visited. */
    method Visit(visited: set<string>, ghost list: seq<string>, ghost start: int,
                 ghost shuffled: bool, ghost visits: nat)
      returns (member: string, ghost shuffled': bool)
      requires Valid() && Searching(list, start, shuffled, visited, visits) && |visited| < |m.list|
      modifies this, m
      ensures Valid() && m.byAddress == old(m.byAddress)
      ensures Searching(list, start, shuffled', visited + {member}, visits + 1)
      ensures 0 <= currentIndex && (!shuffled' ==> start < currentIndex)
      ensures shuffled ==> shuffled'
      ensures shuffled == shuffled' ==> currentIndex > old(currentIndex)
    {
      hide Seen, IsPermutation, NoDuplicates, Elements;
      if (shuffled || start == -1) && currentIndex == |m.list| - 1 {
        SeenAll(list, start, m.list, currentIndex, shuffled);
      }
      ghost var turn := currentIndex == |m.list| - 1;
      Advance();
      member := m.list[currentIndex];
      shuffled' := shuffled || turn;
      if turn {
        SeenShuffled(list, start, m.list);
      } else {
        SeenNext(list, start, m.list, currentIndex, shuffled);
      }
      Listed(m.list, currentIndex);
    }

    /** Everyone was visited and nobody can be pinged. */
    lemma SearchedAll(list: seq<string>, start: int, shuffled: bool, visited: set<string>, visits: nat)
      requires Valid() && Searching(list, start, shuffled, visited, visits) && |visited| >= |m.list|
      requires forall a :: a in visited ==> !CanPing(a)
      ensures forall a :: !CanPing(a)
    {
      AllVisited(list, visited);
    }

    lemma FewVisits(list: seq<string>, start: int, shuffled: bool, visited: set<string>, visits: nat)
      requires Searching(list, start, shuffled, visited, visits)
      ensures visits == 0 || visits < 2 * |list|
    {
    }

    /**
      The next pingable member. It is found exactly when there is one, after fewer than 2N
      visits, and every other pingable member comes closer to its turn.
     */
    method Next() returns (member: string, ok: bool, ghost visits: nat)
      requires Valid()
      modifies this, m
      ensures Valid() && m.byAddress == old(m.byAddress) && |m.list| == |old(m.list)|
      ensures Elements(m.list) == Elements(old(m.list))
      ensures ok ==> CanPing(member) && member != local && m.byAddress[member].status in {Alive, Suspect}
      ensures !ok ==> forall a :: a in m.byAddress && m.byAddress[a].status in {Alive, Suspect} ==> a == local
      ensures !ok ==> forall a :: !CanPing(a)
      ensures visits == 0 || visits < 2 * |m.list|
      ensures forall a :: CanPing(a) && a != member ==>
        a in m.list && a in old(m.list) && Wait(m.list, currentIndex, a) < Wait(old(m.list), old(currentIndex), a)
    {
      hide Seen, Wait, IsPermutation, Pingable, NoDuplicates, Elements;
      var maxToVisit := |m.list|;
      var visited: set<string> := {};
      ghost var start, list, shuffled := currentIndex, m.list, false;
      visits := 0;
      StartSearch();
      while |visited| < maxToVisit
        invariant Valid() && m.byAddress == old(m.byAddress) && |m.list| == maxToVisit
        invariant Searching(list, start, shuffled, visited, visits)
        invariant forall a :: a in visited ==> !CanPing(a)
        decreases !shuffled, maxToVisit - currentIndex
      {
        member, shuffled := Visit(visited, list, start, shuffled, visits);
        visited := visited + {member};
        visits := visits + 1;
        if CanPing(member) {
          OthersCloser(list, start, shuffled, visited, member);
          FewVisits(list, start, shuffled, visited, visits);
          PingableIff(member);
          return member, true, visits;
        }
      }
      SearchedAll(list, start, shuffled, visited, visits);
      FewVisits(list, start, shuffled, visited, visits);
      forall a | a in m.byAddress && m.byAddress[a].status in {Alive, Suspect} ensures a == local {
        PingableIff(a);
      }
      member, ok := "", false;
    }
  }

  /** The states of the members change; then the next one is picked. */
  method ProbeOnce(iter: MemberlistIter, view: map<string, Member>) returns (member: string, ok: bool)
    requires iter.Valid() && view.Keys == iter.m.byAddress.Keys
    modifies iter, iter.m
    ensures iter.Valid() && iter.m.byAddress == view && |iter.m.list| == |old(iter.m.list)|
    ensures ok ==> iter.CanPing(member) && member != iter.local
    ensures forall a :: iter.CanPing(a) && !(ok && a == member) ==>
      && a in iter.m.list && a in old(iter.m.list)
      && Wait(iter.m.list, iter.currentIndex, a) < Wait(old(iter.m.list), old(iter.currentIndex), a)
  {
    hide Wait, NoDuplicates, IsPermutation;
    iter.m.byAddress := view;
    ghost var visits;
    member, ok, visits := iter.Next();
  }

  lemma SeenNothing(list: seq<string>, start: int)
    requires -1 <= start && (start == -1 || start < |list|)
    ensures list != [] ==> Seen(list, start, list, start, false) == {}
  {
    if list != [] {
      assert list[start + 1..start + 1] == [];
    }
  }

  lemma Listed(list: seq<string>, i: nat)
    requires i < |list|
    ensures list[i] in Elements(list)
  {
  }

  lemma AllVisited(list: seq<string>, visited: set<string>)
    requires NoDuplicates(list) && visited <= Elements(list) && |visited| >= |list|
    ensures visited == Elements(list)
  {
    ElementsSize(list);
    if a :| a in Elements(list) && a !in visited {
      SubsetSize(visited, Elements(list) - {a});
    }
  }

  ghost predicate Steady(local: string, views: seq<map<string, Member>>, a: string) {
    forall i :: 0 <= i < |views| ==> a in views[i] && Pingable(local, a, views[i][a])
  }

  /**
    A member that is pingable all the while is pinged within 2N - 1 calls, whatever becomes of
    the others in between and whatever the shuffles.
   */
  method Probe(iter: MemberlistIter, views: seq<map<string, Member>>) returns (pinged: seq<string>)
    requires iter.Valid() && forall i :: 0 <= i < |views| ==> views[i].Keys == iter.m.byAddress.Keys
    modifies iter, iter.m
    ensures |pinged| <= |views| && iter.local !in pinged
    ensures |views| >= 2 * |old(iter.m.list)| - 1 ==>
      forall a :: a in old(iter.m.byAddress) && Steady(iter.local, views, a) ==> a in pinged
  {
    hide Wait, MemberlistIter.Valid, Pingable;
    pinged := [];
    ghost var list, start := iter.m.list, iter.currentIndex;
    forall a | a in iter.m.byAddress ensures Waiting(list, start, list, start, a, 0) {
      InList(iter, a);
    }
    for i := 0 to |views|
      invariant iter.Valid() && iter.m.byAddress.Keys == old(iter.m.byAddress.Keys) && |pinged| <= i
      invariant iter.local !in pinged
      invariant forall a :: a in old(iter.m.byAddress) && Steady(iter.local, views, a) && a !in pinged ==>
        Waiting(list, start, iter.m.list, iter.currentIndex, a, i)
    {
      ghost var was, at := iter.m.list, iter.currentIndex;
      var member, ok := ProbeOnce(iter, views[i]);
      forall a | a in old(iter.m.byAddress) && Steady(iter.local, views, a) && a !in pinged && !(ok && a == member)
        ensures Waiting(list, start, iter.m.list, iter.currentIndex, a, i + 1)
      {
        assert iter.CanPing(a);
        InList(iter, a);
        assert Waiting(list, start, was, at, a, i);
      }
      if ok {
        pinged := pinged + [member];
      }
    }
  }

  lemma InList(iter: MemberlistIter, a: string)
    requires iter.Valid() && a in iter.m.byAddress
    ensures a in iter.m.list && -1 <= iter.currentIndex < |iter.m.list|
  {
    assert a in Elements(iter.m.list);
  }

  ghost predicate Waiting(list: seq<string>, start: int, now: seq<string>, at: int, a: string, calls: nat) {
    && -1 <= start < |list| && -1 <= at < |now| == |list| && a in list && a in now
    && Wait(now, at, a) + calls <= Wait(list, start, a)
  }
}
