/**
  Forwarding a request with retries: the sender calls the destination, and after a failure
  waits, looks up the keys again and calls again, perhaps elsewhere.
 */
module RequestSenders {
  import opened Sequences

  datatype Option<T> = None | Some(value: T)

  /** How one call to a destination ends. */
  datatype CallOutcome = Answered(response: seq<int>) | ApplicationError(message: string) | ForwardError | TimedOut

  datatype SendResult =
    | Response(response: seq<int>)
    | Refused(message: string)
    | MaxRetriesExceeded
    | RequestTimedOut
    | DestinationsDiverged
    | ScheduleTooShort        // the source indexes the retry schedule out of range

  /** The rest of the cluster: what becomes of call number `k`, and whom keys belong to at retry number `k`. */
  datatype World = World(call: (nat, string) -> CallOutcome, lookup: (nat, string) -> Option<string>)

  /** The destinations of the keys at retry number `k`; keys that are not found do not count. */
  ghost function Owners(w: World, keys: seq<string>, k: nat): set<string> {
    if keys == [] then {}
    else
      Owners(w, keys[..|keys| - 1], k)
      + match w.lookup(k, keys[|keys| - 1]) case Some(d) => {d} case None => {}
  }

  lemma {:induction false} OwnersAre(w: World, keys: seq<string>, k: nat, d: string)
    ensures d in Owners(w, keys, k) <==> exists key :: key in keys && w.lookup(k, key) == Some(d)
  {
    if keys != [] {
      var front, last := keys[..|keys| - 1], keys[|keys| - 1];
      OwnersAre(w, front, k, d);
      assert keys == front + [last];
      assert last in keys;
    }
  }

  /** Call number `k + 1` goes where it should: the call before failed, all keys that are found belong to one
      destination, and the request goes there if it is rerouted, and otherwise where it went before. */
  ghost predicate Follows(w: World, keys: seq<string>, reroute: bool, k: nat, before: string, now: string) {
    && w.call(k, before) == ForwardError
    && exists d :: Owners(w, keys, k + 1) == {d} && now == if reroute then d else before
  }

  /** No call gets through, although the keys always belong to one destination. */
  ghost predicate Hopeless(w: World, keys: seq<string>) {
    (forall k, d :: w.call(k, d) == ForwardError) && forall k :: exists d :: Owners(w, keys, k) == {d}
  }

  /** The result of a run of calls: what became of the last one, or why it was not repeated. */
  ghost predicate Conclusion(w: World, keys: seq<string>, maxRetries: int, scheduled: nat, called: seq<string>,
                             r: SendResult)
    requires called != []
  {
    var k := |called| - 1;
    match w.call(k, called[k])
    case Answered(res) => r == Response(res)
    case ApplicationError(m) => r == Refused(m)
    case TimedOut => r == RequestTimedOut
    case ForwardError =>
      if k >= maxRetries then r == MaxRetriesExceeded
      else if k >= scheduled then r == ScheduleTooShort
      else r == DestinationsDiverged && forall d :: Owners(w, keys, k + 1) != {d}
  }

  class RequestSender {
    const world: World
    const keys: seq<string>
    const maxRetries: int
    const retrySchedule: seq<int>
    const rerouteRetries: bool
    var destination: string
    var retries: nat
    var called: seq<string>        // the destinations called so far
    var slept: seq<int>            // the times waited so far

    constructor (world: World, keys: seq<string>, destination: string, maxRetries: int, retrySchedule: seq<int>,
                 rerouteRetries: bool)
      ensures this.world == world && this.keys == keys && this.destination == destination
      ensures this.maxRetries == maxRetries && this.retrySchedule == retrySchedule
      ensures this.rerouteRetries == rerouteRetries
      ensures retries == 0 && called == [] && slept == []
    {
      this.world, this.keys, this.destination := world, keys, destination;
      this.maxRetries, this.retrySchedule, this.rerouteRetries := maxRetries, retrySchedule, rerouteRetries;
      retries, called, slept := 0, [], [];
    }

    /** The calls so far, the next one included. */
    ghost predicate History(ds: seq<string>) {
      && |ds| > 0 && (|ds| > 1 ==> |ds| - 1 <= maxRetries && |ds| - 1 <= |retrySchedule|)
      && forall k :: 0 <= k < |ds| - 1 ==> Follows(world, keys, rerouteRetries, k, ds[k], ds[k + 1])
    }

    ghost predicate AboutToSend()
      reads this
    {
      |called| == retries && History(called + [destination]) && slept == retrySchedule[..retries]
    }

    ghost predicate Concludes(r: SendResult)
      reads this
    {
      && History(called) && Conclusion(world, keys, maxRetries, |retrySchedule|, called, r)
      && slept == if r == DestinationsDiverged then retrySchedule[..|called|] else retrySchedule[..|called| - 1]
    }

    lemma HistoryExtend(ds: seq<string>, d: string)
      requires History(ds) && |ds| <= maxRetries && |ds| <= |retrySchedule|
      requires Follows(world, keys, rerouteRetries, |ds| - 1, ds[|ds| - 1], d)
      ensures History(ds + [d])
    {
    }

    /** Look up the destinations of the keys, each once. */
    method LookupKeys() returns (dests: seq<string>)
      ensures NoDuplicates(dests) && Elements(dests) == Owners(world, keys, retries)
    {
      var destSet: set<string> := {};
      for i := 0 to |keys|
        invariant destSet == Owners(world, keys[..i], retries)
      {
        assert keys[..i + 1][..i] == keys[..i];
        match world.lookup(retries, keys[i]) {
          case None =>
          case Some(dest) => destSet := destSet + {dest};
        }
      }
      assert keys[..|keys|] == keys;
      dests := [];
      ghost var all := destSet;
      while destSet != {}
        invariant NoDuplicates(dests) && Elements(dests) + destSet == all && Elements(dests) !! destSet
      {
        var dest :| dest in destSet;
        ElementsExtend(dests, dest);
        assert dest !in Elements(dests);
        dests := dests + [dest];
        destSet := destSet - {dest};
      }
    }

    method Send() returns (r: SendResult)
      requires AboutToSend()
      modifies this
      ensures Concludes(r) && old(called + [destination]) <= called
      decreases maxRetries - retries, 2
    {
      var outcome := world.call(retries, destination);
      called := called + [destination];
      match outcome {
        case Answered(res) => return Response(res);
        case ApplicationError(m) => return Refused(m);
        case TimedOut => return RequestTimedOut;
        case ForwardError =>
          if retries < maxRetries {
            r := ScheduleRetry();
          } else {
            return MaxRetriesExceeded;
          }
      }
    }

    method ScheduleRetry() returns (r: SendResult)
      requires |called| == retries + 1 && History(called) && slept == retrySchedule[..retries]
      requires world.call(retries, called[retries]) == ForwardError && destination == called[retries]
      requires retries < maxRetries
      modifies this
      ensures Concludes(r) && old(called) <= called
      decreases maxRetries - retries, 1
    {
      if retries >= |retrySchedule| {
        return ScheduleTooShort;
      }
      slept := slept + [retrySchedule[retries]];
      r := AttemptRetry();
    }

    method AttemptRetry() returns (r: SendResult)
      requires |called| == retries + 1 && History(called) && retries < |retrySchedule|
      requires slept == retrySchedule[..retries + 1]
      requires world.call(retries, called[retries]) == ForwardError && destination == called[retries]
      requires retries < maxRetries
      modifies this
      ensures Concludes(r) && old(called) <= called
      decreases maxRetries - retries, 0
    {
      retries := retries + 1;
      var dests := LookupKeys();
      OneElement(dests);
      hide Owners, Elements, NoDuplicates, History, Follows;
      if |dests| != 1 {
        return DestinationsDiverged;
      }
      if rerouteRetries {
        var newDest := dests[0];
        if newDest != destination {
          MayFollow(newDest, newDest);
          r := RerouteRetry(newDest);
          return;
        }
      }
      MayFollow(dests[0], destination);
      r := Send();
    }

    /** A call that failed may be repeated, if the keys have a single owner `d` now. */
    lemma MayFollow(d: string, now: string)
      requires |called| == retries > 0 && History(called) && retries <= maxRetries && retries <= |retrySchedule|
      requires world.call(retries - 1, called[retries - 1]) == ForwardError && Owners(world, keys, retries) == {d}
      requires now == if rerouteRetries then d else called[retries - 1]
      ensures History(called + [now])
    {
      hide Owners;
      assert Follows(world, keys, rerouteRetries, retries - 1, called[retries - 1], now);
      HistoryExtend(called, now);
    }

    method RerouteRetry(newDestination: string) returns (r: SendResult)
      requires |called| == retries && History(called + [newDestination]) && slept == retrySchedule[..retries]
      modifies this
      ensures Concludes(r) && old(called) <= called
      decreases maxRetries - retries, 3
    {
      destination := newDestination;
      r := Send();
    }
  }

  lemma OneElement(s: seq<string>)
    requires NoDuplicates(s)
    ensures |s| == 1 ==> Elements(s) == {s[0]}
    ensures |s| != 1 ==> forall d :: Elements(s) != {d}
  {
    ElementsSize(s);
  }

  /**
    A whole run from the start: the request is sent at most `maxRetries + 1` times, each time
    after the first because forwarding failed and the keys have a single owner, and to another
    destination only if it is rerouted. It ends for the reason the result tells. In particular
    the schedule is overrun exactly when it is shorter than the retries that are allowed
    and all of its retries fail. If every call fails and the keys always have a single owner, all retries are made.
   */
  method Forward(world: World, keys: seq<string>, destination: string, maxRetries: int, retrySchedule: seq<int>,
                 rerouteRetries: bool)
    returns (r: SendResult, called: seq<string>, slept: seq<int>)
    ensures called != [] && called[0] == destination && (|called| > 1 ==> |called| <= maxRetries + 1)
    ensures forall k :: 0 <= k < |called| - 1 ==> Follows(world, keys, rerouteRetries, k, called[k], called[k + 1])
    ensures !rerouteRetries ==> forall k :: 0 <= k < |called| ==> called[k] == destination
    ensures forall k :: 0 <= k < |called| - 1 ==> world.call(k, called[k]) == ForwardError
    ensures rerouteRetries ==> forall k :: 0 < k < |called| ==> Owners(world, keys, k) == {called[k]}
    ensures Conclusion(world, keys, maxRetries, |retrySchedule|, called, r)
    ensures var k := |called| - 1;
      && (forall res :: r == Response(res) <==> world.call(k, called[k]) == Answered(res))
      && (forall m :: r == Refused(m) <==> world.call(k, called[k]) == ApplicationError(m))
      && (r == RequestTimedOut <==> world.call(k, called[k]) == TimedOut)
    ensures maxRetries <= |retrySchedule| ==> r != ScheduleTooShort
    ensures r == MaxRetriesExceeded ==> |called| == if maxRetries <= 0 then 1 else maxRetries + 1
    ensures Hopeless(world, keys) && maxRetries <= |retrySchedule| ==> r == MaxRetriesExceeded
    ensures var waits := if r == DestinationsDiverged then |called| else |called| - 1;
      waits <= |retrySchedule| && slept == retrySchedule[..waits]
  {
    hide Owners;
    var s := new RequestSender(world, keys, destination, maxRetries, retrySchedule, rerouteRetries);
    assert s.called + [destination] == [destination];
    r := s.Send();
    called, slept := s.called, s.slept;
    forall k | 0 <= k < |called| - 1 ensures world.call(k, called[k]) == ForwardError {
      CallFailed(s, called, k);
    }
    if rerouteRetries {
      forall k | 0 < k < |called| ensures Owners(world, keys, k) == {called[k]} {
        CallFailed(s, called, k - 1);
      }
    }
    if Hopeless(world, keys) && maxRetries <= |retrySchedule| {
      HopelessEnds(world, keys, maxRetries, |retrySchedule|, called, r);
    }
    if !rerouteRetries {
      SameDestination(s, called, |called|);
    }
  }

  lemma CallFailed(s: RequestSender, ds: seq<string>, k: nat)
    requires s.History(ds) && k < |ds| - 1
    ensures s.world.call(k, ds[k]) == ForwardError
    ensures s.rerouteRetries ==> Owners(s.world, s.keys, k + 1) == {ds[k + 1]}
  {
    hide Owners;
    assert Follows(s.world, s.keys, s.rerouteRetries, k, ds[k], ds[k + 1]);
  }

  lemma HopelessEnds(w: World, keys: seq<string>, maxRetries: int, scheduled: nat, called: seq<string>, r: SendResult)
    requires called != [] && Conclusion(w, keys, maxRetries, scheduled, called, r)
    requires Hopeless(w, keys) && maxRetries <= scheduled
    ensures r == MaxRetriesExceeded
  {
    hide Owners;
    var d :| Owners(w, keys, |called|) == {d};
  }

  lemma {:induction false} SameDestination(s: RequestSender, ds: seq<string>, n: nat)
    requires s.History(ds) && !s.rerouteRetries && n <= |ds|
    ensures forall k :: 0 <= k < n ==> ds[k] == ds[0]
  {
    hide Owners;
    if n > 1 {
      SameDestination(s, ds, n - 1);
      assert Follows(s.world, s.keys, s.rerouteRetries, n - 2, ds[n - 2], ds[n - 1]);
    }
  }
}
