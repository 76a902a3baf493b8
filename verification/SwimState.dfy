/**
  The parts of a SWIM node that are changed in place, with every operation proved to
  take the node, seen as a value, to its next value.
 */
module SwimState {
  import opened SwimMembers
  import opened SwimNodes
  import opened SwimRuns
  import opened Sequences
  import opened Texts
  import opened MembershipChecksum

  class Memberlist {
    const fingerprint: string -> int
    var list: seq<string>                  // the members in probing order
    var byAddress: map<string, Member>
    var checksum: int

    ghost predicate Valid()
      reads this
    {
      NoDuplicates(list) && Elements(list) == byAddress.Keys
    }

    /** The checksum is that of the members. */
    ghost predicate Current()
      reads this
    {
      (forall a :: a in list ==> a in byAddress) && checksum == fingerprint(ChecksumText(list, byAddress))
    }

    constructor (fingerprint: string -> int)
      ensures Valid() && list == [] && byAddress == map[] && checksum == 0 && this.fingerprint == fingerprint
    {
      this.fingerprint := fingerprint;
      list, byAddress, checksum := [], map[], 0;
    }

    /** Apply a change; a new member joins the list at a random place. */
    method Apply(change: Change, draw: nat)
      requires Valid()
      modifies this
      ensures Valid() && byAddress == old(byAddress)[change.address := Claim(change)] && checksum == old(checksum)
      ensures list ==
        if change.address in old(byAddress) then old(list) else InsertedAt(old(list), change.address, draw)
    {
      if change.address !in byAddress {
        var i := if |list| == 0 then 0 else draw % |list|;
        InsertedMember(list, change.address, draw);
        assert change.address !in Elements(list);
        list := list[..i] + [change.address] + list[i..];
      }
      byAddress := byAddress[change.address := Claim(change)];
    }

    /** Apply changes selectively; `now[i]` is the clock when change `i` comes up, `draws` the
        random numbers that place new members in the list. */
    method Merge(local: string, changes: seq<Change>, now: seq<int>, draws: seq<nat>) returns (applied: seq<Change>)
      requires Valid() && |now| == |changes| && |draws| == |changes|
      modifies this
      ensures Valid() && checksum == old(checksum) && byAddress == Merged(old(byAddress), local, changes, now)
      ensures applied == AppliedOf(old(byAddress), local, changes, now)
      ensures applied == [] ==> unchanged(this)
    {
      hide Valid;
      applied := [];
      var i := 0;
      while i < |changes|
        invariant 0 <= i <= |changes| && Valid() && checksum == old(checksum)
        invariant byAddress == Merged(old(byAddress), local, changes[..i], now[..i])
        invariant applied == AppliedOf(old(byAddress), local, changes[..i], now[..i])
        invariant applied == [] ==> unchanged(this)
      {
        assert changes[..i + 1][..i] == changes[..i] && now[..i + 1][..i] == now[..i];
        var change := changes[i];
        if change.address !in byAddress {
          Apply(change, draws[i]);
          applied := applied + [change];
        } else {
          var member := byAddress[change.address];
          if LocalOverride(change.address, local, change) {
            var overrideChange := Change(change.source, change.sourceIncarnation, change.address, now[i], Alive);
            Apply(overrideChange, draws[i]);
            applied := applied + [overrideChange];
          } else if NonLocalOverride(member, change) {
            Apply(change, draws[i]);
            applied := applied + [change];
          }
        }
        i := i + 1;
      }
      assert changes[..i] == changes && now[..i] == now;
    }

    /** Count the members that can be pinged: others that are alive or suspect. */
    method NumPingableMembers(local: string) returns (n: nat)
      requires Valid()
      ensures n == |Pingables(byAddress, local)|
      ensures Pingables(byAddress, local) ==
        set a | a in byAddress && a != local && (byAddress[a].status == Alive || byAddress[a].status == Suspect)
    {
      hide Pingable, PingablesIn, Pingables;
      n := 0;
      ListedKnown();
      NonePingable(byAddress, local);
      for i := 0 to |list|
        invariant n == |PingablesIn(list[..i], byAddress, local)|
      {
        OneMorePingable(list, i, byAddress, local);
        if Pingable(local, list[i], byAddress[list[i]]) {
          n := n + 1;
        }
      }
      assert list[..|list|] == list;
      AllPingables(list, byAddress, local);
      PingablesAre(byAddress, local);
    }

    lemma ListedKnown()
      requires Valid()
      ensures forall a :: a in list ==> a in byAddress
    {
      assert forall a :: a in list ==> a in Elements(list);
    }

    /** The text that is fingerprinted. */
    method GenChecksumString() returns (text: string)
      requires Valid()
      ensures (forall a :: a in list ==> a in byAddress) && text == ChecksumText(list, byAddress)
    {
      hide SortTexts, Describe, Valid, Descriptions, Terminated;
      ListedKnown();
      DescriptionsNone(byAddress);
      var strings: seq<string> := [];
      for i := 0 to |list|
        invariant strings == Descriptions(list[..i], byAddress)
      {
        DescriptionsNext(list, byAddress, i);
        strings := strings + [Describe(list[i], byAddress[list[i]])];
      }
      assert list[..|list|] == list;
      strings := SortTexts(strings);
      text := "";
      for i := 0 to |strings|
        invariant text == Terminated(strings[..i])
      {
        TerminatedNext(strings, i);
        text := text + strings[i] + ";";
      }
      assert strings[..|strings|] == strings;
    }

    method ComputeChecksum()
      requires Valid()
      modifies this
      ensures Valid() && Current() && list == old(list) && byAddress == old(byAddress)
    {
      var text := GenChecksumString();
      checksum := fingerprint(text);
    }

    /** Replace the list by a permutation of it; the checksum stays right. */
    method Shuffle(newIndexes: seq<nat>)
      requires Valid() && IsPermutation(newIndexes, |list|)
      modifies this
      ensures Valid() && byAddress == old(byAddress) && checksum == old(checksum) && |list| == |old(list)|
      ensures Elements(list) == Elements(old(list)) && (old(Current()) ==> Current())
      ensures forall o :: 0 <= o < |list| ==> list[newIndexes[o]] == old(list)[o]
    {
      ghost var l := list;
      list := Shuffled(list, newIndexes);
      ChecksumAnyOrder(l, list, byAddress);
    }
  }

  function PingablesIn(s: seq<string>, members: map<string, Member>, local: string): set<string> {
    set a | a in s && a in members && Pingable(local, a, members[a])
  }

  lemma PingablesAre(members: map<string, Member>, local: string)
    ensures Pingables(members, local) ==
      set a | a in members && a != local && (members[a].status == Alive || members[a].status == Suspect)
  {
  }

  lemma NonePingable(members: map<string, Member>, local: string)
    ensures PingablesIn([], members, local) == {}
  {
  }

  lemma OneMorePingable(s: seq<string>, i: nat, members: map<string, Member>, local: string)
    requires NoDuplicates(s) && i < |s| && s[i] in members
    ensures |PingablesIn(s[..i + 1], members, local)| ==
      |PingablesIn(s[..i], members, local)| + if Pingable(local, s[i], members[s[i]]) then 1 else 0
  {
    assert s[..i + 1] == s[..i] + [s[i]] && s[i] !in s[..i];
    var before, after := PingablesIn(s[..i], members, local), PingablesIn(s[..i + 1], members, local);
    assert after == if Pingable(local, s[i], members[s[i]]) then before + {s[i]} else before;
  }

  lemma AllPingables(s: seq<string>, members: map<string, Member>, local: string)
    requires Elements(s) == members.Keys
    ensures PingablesIn(s, members, local) == Pingables(members, local)
  {
    assert forall a :: a in members <==> a in Elements(s);
  }

  /** Move the member at place `o` to place `newIndexes[o]`. */
  method Shuffled(members: seq<string>, newIndexes: seq<nat>) returns (newMembers: seq<string>)
    requires NoDuplicates(members) && IsPermutation(newIndexes, |members|)
    ensures |newMembers| == |members| && NoDuplicates(newMembers) && Elements(newMembers) == Elements(members)
    ensures forall o :: 0 <= o < |members| ==> newMembers[newIndexes[o]] == members[o]
  {
    newMembers := seq(|members|, _ => "");
    var o := 0;
    while o < |members|
      invariant 0 <= o <= |members| == |newMembers|
      invariant forall k :: 0 <= k < o ==> newMembers[newIndexes[k]] == members[k]
    {
      newMembers := newMembers[newIndexes[o] := members[o]];
      o := o + 1;
    }
    ShuffledMembers(members, newIndexes, newMembers);
  }

  lemma ShuffledMembers(s: seq<string>, p: seq<nat>, s': seq<string>)
    requires NoDuplicates(s) && IsPermutation(p, |s|) && |s'| == |s|
    requires forall o :: 0 <= o < |s| ==> s'[p[o]] == s[o]
    ensures NoDuplicates(s') && Elements(s') == Elements(s)
  {
    forall i | 0 <= i < |s'|
      ensures exists o :: 0 <= o < |s| && p[o] == i && s'[i] == s[o]
    {
      PermutationCovers(p, |s|, i);
    }
  }

  /** A new member takes a place drawn at random. */
  function InsertedAt(l: seq<string>, x: string, draw: nat): seq<string> {
    var i := if |l| == 0 then 0 else draw % |l|;
    l[..i] + [x] + l[i..]
  }

  /** The others stay in order, and the last one stays last. */
  lemma InsertedMember(l: seq<string>, x: string, draw: nat)
    requires NoDuplicates(l) && x !in l
    ensures var l' := InsertedAt(l, x, draw);
      && |l'| == |l| + 1 && NoDuplicates(l') && Elements(l') == Elements(l) + {x}
      && (if l == [] then l' == [x]
          else var i := draw % |l|; l'[i] == x && l'[..i] + l'[i + 1..] == l && l'[|l|] == l[|l| - 1])
  {
    var i := if |l| == 0 then 0 else draw % |l|;
    assert l == l[..i] + l[i..];
  }

  class Disseminator {
    var changes: map<string, Pending>
    var maxP: int

    ghost predicate Valid()
      reads this
    {
      forall a :: a in changes ==> changes[a].change.address == a
    }

    constructor ()
      ensures Valid() && changes == map[] && maxP == 15
    {
      changes, maxP := map[], 15;
    }

    /** Fit the limit to the number of members that can be pinged; `limit` is the source's formula. */
    method AdjustMaxPropagations(limit: nat -> int, numPingable: nat)
      modifies this
      ensures changes == old(changes) && maxP == limit(numPingable)
    {
      var newMaxP := limit(numPingable);
      if newMaxP != maxP {
        maxP := newMaxP;
      }
    }

    method RecordChange(change: Change)
      modifies this
      ensures changes == old(changes)[change.address := Pending(change, 0)] && maxP == old(maxP)
      ensures old(Valid()) ==> Valid()
    {
      changes := changes[change.address := Pending(change, 0)];
    }

    method ClearChange(address: string)
      modifies this
      ensures changes == old(changes) - {address} && maxP == old(maxP)
    {
      changes := changes - {address};
    }

    /** All pending changes, in the order in which iteration over the map happens to give them. */
    method IssueChanges() returns (result: seq<Change>)
      requires Valid()
      ensures forall c :: c in result <==> c.address in changes && changes[c.address].change == c
      ensures DistinctAddresses(result)
    {
      result := [];
      var rest := changes.Keys;
      while rest != {}
        invariant rest <= changes.Keys
        invariant forall c :: c in result <==> c.address in changes.Keys - rest && changes[c.address].change == c
        invariant DistinctAddresses(result)
      {
        var a :| a in rest;
        result := result + [changes[a].change];
        rest := rest - {a};
      }
    }

    /** Count one more transmission of each change, dropping those sent often enough. */
    method BumpPiggybackCounters(cs: seq<Change>)
      modifies this
      ensures changes == Bumped(old(changes), Addresses(cs), maxP) && maxP == old(maxP)
      ensures old(Valid()) ==> Valid()
    {
      BumpedKeeps(changes, Addresses(cs), maxP);
      var i := 0;
      while i < |cs|
        invariant 0 <= i <= |cs| && maxP == old(maxP)
        invariant changes == Bumped(old(changes), Addresses(cs)[..i], maxP)
      {
        assert Addresses(cs)[..i + 1][..i] == Addresses(cs)[..i];
        var a := cs[i].address;
        if a in changes {
          var c := changes[a];
          if c.p + 1 >= maxP {
            changes := changes - {a};
          } else {
            changes := changes[a := c.(p := c.p + 1)];
          }
        }
        i := i + 1;
      }
      assert Addresses(cs)[..i] == Addresses(cs);
    }
  }

  predicate FromSender(c: Change, source: string, incarnation: int) {
    c.sourceIncarnation == incarnation && c.source == source
  }

  ghost predicate Rearranged<T>(s: seq<T>, s': seq<T>) {
    multiset(s) == multiset(s')
  }

  lemma RearrangedTwice<T>(s: seq<T>, s': seq<T>, s'': seq<T>)
    requires Rearranged(s, s') && Rearranged(s', s'')
    ensures Rearranged(s, s'')
  {
  }

  function Swapped<T>(s: seq<T>, i: nat, j: nat): seq<T>
    requires i < |s| && j < |s|
  {
    s[i := s[j]][j := s[i]]
  }

  method Swap<T>(a: array<T>, i: nat, j: nat)
    requires i < a.Length && j < a.Length
    modifies a
    ensures a[..] == Swapped(old(a[..]), i, j) && Rearranged(old(a[..]), a[..])
  {
    ghost var s := a[..];
    a[i], a[j] := a[j], a[i];
    assert a[..] == s[i := s[j]][j := s[i]];
  }

  /** Move the changes that came from the sender behind the others; `n` others remain. */
  method FilterChangesFromSender(cs: array<Change>, source: string, incarnation: int) returns (n: nat)
    modifies cs
    ensures n <= cs.Length && Rearranged(old(cs[..]), cs[..])
    ensures forall k :: 0 <= k < n ==> !FromSender(cs[k], source, incarnation)
    ensures forall k :: n <= k < cs.Length ==> FromSender(cs[k], source, incarnation)
  {
    hide FromSender, Sifted, Rearranged, Swapped;
    n := cs.Length;
    var i := 0;
    ghost var s0, s := cs[..], cs[..];
    SiftStart(s, source, incarnation);
    while i < n
      invariant 0 <= i <= n <= cs.Length && s == cs[..]
      invariant Rearranged(s0, s) && Sifted(s, i, n, source, incarnation)
      decreases n - i
    {
      assert s[i] == cs[i];
      if FromSender(cs[i], source, incarnation) {
        SiftSwap(s, i, n, source, incarnation);
        Swap(cs, i, n - 1);
        RearrangedTwice(s0, s, Swapped(s, i, n - 1));
        s := Swapped(s, i, n - 1);
        n := n - 1;
      } else {
        SiftKeep(s, i, n, source, incarnation);
        i := i + 1;
      }
    }
    SiftEnd(s, n, source, incarnation);
    assert forall k :: 0 <= k < cs.Length ==> cs[k] == s[k];
  }

  /** The first `i` changes did not come from the sender, those from `n` on did. */
  ghost predicate Sifted(s: seq<Change>, i: nat, n: nat, source: string, incarnation: int) {
    && i <= n <= |s|
    && (forall k :: 0 <= k < i ==> !FromSender(s[k], source, incarnation))
    && (forall k :: n <= k < |s| ==> FromSender(s[k], source, incarnation))
  }

  lemma SiftStart(s: seq<Change>, source: string, incarnation: int)
    ensures Sifted(s, 0, |s|, source, incarnation) && Rearranged(s, s)
  {
  }

  lemma SiftKeep(s: seq<Change>, i: nat, n: nat, source: string, incarnation: int)
    requires Sifted(s, i, n, source, incarnation) && i < n && !FromSender(s[i], source, incarnation)
    ensures Sifted(s, i + 1, n, source, incarnation)
  {
  }

  lemma SiftSwap(s: seq<Change>, i: nat, n: nat, source: string, incarnation: int)
    requires Sifted(s, i, n, source, incarnation) && i < n && FromSender(s[i], source, incarnation)
    ensures Sifted(Swapped(s, i, n - 1), i, n - 1, source, incarnation)
  {
    hide FromSender;
  }

  lemma SiftEnd(s: seq<Change>, n: nat, source: string, incarnation: int)
    requires Sifted(s, n, n, source, incarnation)
    ensures forall k :: 0 <= k < n ==> !FromSender(s[k], source, incarnation)
    ensures forall k :: n <= k < |s| ==> FromSender(s[k], source, incarnation)
  {
  }

  class Suspicion {
    const local: string
    var timers: map<string, int>
    ghost var callbacks: set<(string, int)>
    var enabled: bool

    constructor (local: string)
      ensures this.local == local && timers == map[] && callbacks == {} && enabled
    {
      this.local := local;
      timers, callbacks, enabled := map[], {}, true;
    }

    method Start(change: Change)
      modifies this
      ensures enabled == old(enabled)
      ensures if old(enabled) && change.address != local && change.address !in old(timers)
              then timers == old(timers)[change.address := change.incarnation]
                   && callbacks == old(callbacks) + {(change.address, change.incarnation)}
              else timers == old(timers) && callbacks == old(callbacks)
    {
      if !enabled || change.address == local || change.address in timers {
        return;
      }
      timers := timers[change.address := change.incarnation];
      callbacks := callbacks + {(change.address, change.incarnation)};
    }

    method Stop(change: Change)
      modifies this
      ensures timers == old(timers) - {change.address} && callbacks == old(callbacks) && enabled == old(enabled)
    {
      timers := timers - {change.address};
    }

    method Disable()
      modifies this
      ensures callbacks == old(callbacks) && !enabled
      ensures timers == if old(enabled) then map[] else old(timers)
    {
      if !enabled {
        return;
      }
      enabled := false;
      timers := map[];
    }

    method Reenable()
      modifies this
      ensures enabled && timers == old(timers) && callbacks == old(callbacks)
    {
      enabled := true;
    }
  }
}
