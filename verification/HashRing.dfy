/**
  The consistent hash ring: servers at replica points in a red-black tree, changed
  in place, with every operation tied to the ring as a value.
 */
module HashRings {
  import opened RedBlackShape
  import opened RedBlackHeap
  import opened RedBlackTrees
  import opened RingWalk
  import opened Sequences
  import opened RingPoints
  import opened RingGuarantees
  import opened Texts

  class HashRing {
    const setup: Setup
    const tree: RedBlackTree
    var serverSet: set<string>
    var checksum: uint32

    ghost function State(): Ring
      reads this, tree
    {
      Ring(tree.Contents(), serverSet, checksum)
    }

    ghost function Repr(): set<object>
      reads this, tree
    {
      {this, tree} + Nodes(tree.tree)
    }

    ghost predicate Valid()
      reads Repr()
    {
      tree.Valid() && NoStaleOwner(setup, State())
    }

    constructor (setup: Setup)
      ensures Valid() && State() == EmptyRing && this.setup == setup
      ensures fresh(tree) && Nodes(tree.tree) == {}
    {
      this.setup := setup;
      tree := new RedBlackTree();
      serverSet, checksum := {}, 0;
    }

    method AddReplicas(server: string)
      requires tree.Valid()
      modifies Repr()
      ensures tree.Valid() && checksum == old(checksum) && serverSet == old(serverSet) + {server}
      ensures tree.Contents() == WithReplicas(setup, old(tree.Contents()), server, Replicas(setup))
      ensures forall n | n in Nodes(tree.tree) :: n in old(Nodes(tree.tree)) || fresh(n)
    {
      hide RedBlackTree.Valid, Nodes, MapOf, WithReplicas, Decimal;
      ReplicasFromNone(setup, tree.Contents(), server);
      serverSet := serverSet + {server};
      var i := 0;
      while i < setup.replicas
        invariant 0 <= i <= Replicas(setup)
        invariant tree.Valid() && checksum == old(checksum) && serverSet == old(serverSet) + {server}
        invariant tree.Contents() == WithReplicas(setup, old(tree.Contents()), server, i)
        invariant forall n | n in Nodes(tree.tree) :: n in old(Nodes(tree.tree)) || fresh(n)
      {
        var address := server + Decimal(i);
        ReplicasNext(setup, old(tree.Contents()), server, i);
        var _ := tree.Insert(setup.hash(address), server);
        i := i + 1;
      }
    }

    method RemoveReplicas(server: string)
      requires tree.Valid()
      modifies Repr()
      ensures tree.Valid() && checksum == old(checksum) && serverSet == old(serverSet) - {server}
      ensures tree.Contents() == WithoutReplicas(setup, old(tree.Contents()), server, Replicas(setup))
      ensures forall n | n in Nodes(tree.tree) :: n in old(Nodes(tree.tree)) || fresh(n)
    {
      hide RedBlackTree.Valid, Nodes, MapOf, WithoutReplicas, Decimal;
      ReplicasFromNone(setup, tree.Contents(), server);
      serverSet := serverSet - {server};
      var i := 0;
      while i < setup.replicas
        invariant 0 <= i <= Replicas(setup)
        invariant tree.Valid() && checksum == old(checksum) && serverSet == old(serverSet) - {server}
        invariant tree.Contents() == WithoutReplicas(setup, old(tree.Contents()), server, i)
        invariant Nodes(tree.tree) <= old(Nodes(tree.tree))
      {
        var address := server + Decimal(i);
        ReplicasNext(setup, old(tree.Contents()), server, i);
        var _ := tree.Delete(setup.hash(address));
        i := i + 1;
      }
    }

    method AddServerNoLock(address: string) returns (ok: bool)
      requires Valid()
      modifies Repr()
      ensures Valid() && ok == (address !in old(serverSet))
      ensures State() == Added(setup, old(State()), address)
      ensures forall n | n in Nodes(tree.tree) :: n in old(Nodes(tree.tree)) || fresh(n)
    {
      AddedAgrees(setup, State(), address);
      if address in serverSet {
        return false;
      }
      AddReplicas(address);
      return true;
    }

    method RemoveServerNoLock(address: string) returns (ok: bool)
      requires Valid()
      modifies Repr()
      ensures Valid() && ok == (address in old(serverSet))
      ensures State() == Removed(setup, old(State()), address)
      ensures forall n | n in Nodes(tree.tree) :: n in old(Nodes(tree.tree)) || fresh(n)
    {
      RemovedAgrees(setup, State(), address);
      if address !in serverSet {
        return false;
      }
      RemoveReplicas(address);
      return true;
    }

    /** The servers in the order in which iteration over the set happens to give them. */
    method CopyServers() returns (servers: seq<string>)
      ensures multiset(servers) == multiset(serverSet)
      ensures NoDuplicates(servers) && Elements(servers) == serverSet
    {
      servers := ListOf(serverSet);
    }

    method ComputeChecksum()
      requires Valid()
      modifies this
      ensures Valid() && State() == old(State()).(checksum := ChecksumOf(setup, old(serverSet)))
    {
      NodesAllocated(tree.tree);
      var addresses := CopyServers();
      ChecksumAnyOrder(setup, serverSet, addresses);
      checksum := setup.fingerprint(Join(SortTexts(addresses), ";"));
    }

    method AddServer(address: string) returns (ok: bool)
      requires Valid()
      modifies Repr()
      ensures Valid() && ok == (address !in old(serverSet))
      ensures State() == Apply(setup, old(State()), Add(address))
      ensures forall n | n in Nodes(tree.tree) :: n in old(Nodes(tree.tree)) || fresh(n)
    {
      SingleBatches(setup, State(), address);
      ok := AddServerNoLock(address);
      if ok {
        ComputeChecksum();
      }
    }

    method RemoveServer(address: string) returns (ok: bool)
      requires Valid()
      modifies Repr()
      ensures Valid() && ok == (address in old(serverSet))
      ensures State() == Apply(setup, old(State()), Remove(address))
      ensures forall n | n in Nodes(tree.tree) :: n in old(Nodes(tree.tree)) || fresh(n)
    {
      SingleBatches(setup, State(), address);
      ok := RemoveServerNoLock(address);
      if ok {
        ComputeChecksum();
      }
    }

    method AddRemoveServers(add: seq<string>, remove: seq<string>) returns (changed: bool)
      requires Valid()
      modifies Repr()
      ensures Valid() && changed == BatchChanges(setup, old(State()), add, remove)
      ensures State() == Apply(setup, old(State()), AddRemove(add, remove))
      ensures forall n | n in Nodes(tree.tree) :: n in old(Nodes(tree.tree)) || fresh(n)
    {
      hide NoStaleOwner, Added, Removed, MapOf, Nodes;
      changed := false;
      var i := 0;
      while i < |add|
        invariant 0 <= i <= |add| && Valid()
        invariant State() == AddedAll(setup, old(State()), add[..i])
        invariant changed == AddChanges(setup, old(State()), add[..i])
        invariant forall n | n in Nodes(tree.tree) :: n in old(Nodes(tree.tree)) || fresh(n)
      {
        hide Valid;
        assert add[..i + 1][..i] == add[..i];
        var ok := AddServerNoLock(add[i]);
        if ok {
          changed := true;
        }
        i := i + 1;
      }
      assert add[..i] == add;
      ghost var mid := State();
      i := 0;
      while i < |remove|
        invariant 0 <= i <= |remove| && Valid()
        invariant State() == RemovedAll(setup, mid, remove[..i])
        invariant changed == (AddChanges(setup, old(State()), add) || RemoveChanges(setup, mid, remove[..i]))
        invariant forall n | n in Nodes(tree.tree) :: n in old(Nodes(tree.tree)) || fresh(n)
      {
        hide Valid;
        assert remove[..i + 1][..i] == remove[..i];
        var ok := RemoveServerNoLock(remove[i]);
        if ok {
          changed := true;
        }
        i := i + 1;
      }
      assert remove[..i] == remove;
      if changed {
        ComputeChecksum();
      }
    }

    /** Up to `n` servers that own a key. */
    method LookupN(key: string, n: int) returns (servers: seq<string>)
      requires Valid()
      ensures NoDuplicates(servers)
      ensures Elements(servers) == LookupSet(tree.Points(), serverSet, setup.hash(key), n)
    {
      if n >= |serverSet| {
        servers := CopyServers();
        return;
      }
      PointsNotNegative();
      var h := setup.hash(key);
      ghost var points := tree.Points();
      TwoPasses(points, h, n);
      NodesAllocated(tree.tree);
      var unique := tree.LookupNUniqueAt(n, h, {});
      if |unique| < n {
        unique := tree.LookupNUniqueAt(n, 0, unique);
      }
      if n >= 0 {
        CollectIsFirst(Clockwise(points, h), n, []);
        assert Elements<string>([]) == {};
      }
      servers := ListOf(unique);
    }

    method Lookup(key: string) returns (server: string, ok: bool)
      requires Valid()
      ensures ok == (LookupSet(tree.Points(), serverSet, setup.hash(key), 1) != {})
      ensures ok ==> LookupSet(tree.Points(), serverSet, setup.hash(key), 1) == {server}
      ensures !ok ==> server == ""
    {
      var strs := LookupN(key, 1);
      LookupOne(tree.Points(), serverSet, setup.hash(key));
      ElementsSize(strs);
      if |strs| == 0 {
        return "", false;
      }
      assert Elements(strs) == {strs[0]};
      return strs[0], true;
    }

    lemma PointsNotNegative()
      requires Valid()
      ensures forall i :: 0 <= i < |tree.Points()| ==> tree.Points()[i].val >= 0
    {
      forall i | 0 <= i < |tree.Points()| ensures tree.Points()[i].val >= 0 {
        MapOfKeys(tree.Points(), tree.Points()[i].val);
      }
    }
  }

  method ListOf(s: set<string>) returns (l: seq<string>)
    ensures multiset(l) == multiset(s)
    ensures NoDuplicates(l) && Elements(l) == s
  {
    l := [];
    var rest := s;
    while rest != {}
      invariant rest <= s && NoDuplicates(l) && Elements(l) == s - rest
    {
      var x :| x in rest;
      ElementsExtend(l, x);
      assert x !in Elements(l);
      l := l + [x];
      rest := rest - {x};
    }
    ListedOnce(l, s);
  }
}
