/**
  The exponential back-off between attempts to join a cluster. Settings are durations in
  whole milliseconds. The source computes in floating point, which is exact for these up
  to the point where the power of two overflows.
 */
module JoinDelayers {

  /** Milliseconds in a duration of 64-bit nanoseconds. */
  type Millis = x: int | -9_223_372_036_854 <= x <= 9_223_372_036_854

  /** A floating point number that stands for an integer. A product beyond the largest
      one is kept exact, which compares with a duration just as infinity does. */
  datatype Float = Finite(v: int) | Infinite(negative: bool) | NaN

  function Pow2(k: nat): nat {
    if k == 0 then 1 else 2 * Pow2(k - 1)
  }

  /** The power that overflows. */
  const Overflow: nat := 1024

  function Power(k: nat): Float {
    if k < Overflow then Finite(Pow2(k)) else Infinite(false)
  }

  function Times(x: int, p: Float): Float {
    match p
    case Finite(v) => Finite(x * v)
    case Infinite(negative) => if x == 0 then NaN else Infinite(negative != (x < 0))
    case NaN => NaN
  }

  function Min(x: int, f: Float): Float {
    match f
    case Finite(v) => if x < v then Finite(x) else f
    case Infinite(negative) => if negative then f else Finite(x)
    case NaN => NaN
  }

  predicate AtLeast(f: Float, x: int) {
    match f
    case Finite(v) => v >= x
    case Infinite(negative) => !negative
    case NaN => false
  }

  /** The cap of delay number `k`. */
  function Capped(initial: Millis, max: Millis, k: nat): Float {
    Min(max, Times(initial, Power(k)))
  }

  /** The delay before was capped at this. */
  function Low(initial: Millis, max: Millis, k: nat): int {
    if k == 0 then 0 else match Capped(initial, max, k - 1) case Finite(v) => v case _ => 0
  }

  /** Delay number `k` can be drawn: its window is empty, or has a size that the random
      number generator accepts. */
  predicate Accepted(initial: Millis, max: Millis, k: nat) {
    Capped(initial, max, k).Finite? && Low(initial, max, k) <= Capped(initial, max, k).v
  }

  /** The cap of delay number `k` is the maximum. */
  predicate CapReached(initial: Millis, max: Millis, k: nat) {
    AtLeast(Times(initial, Power(k)), max)
  }

  /** A random number generator: the answer to the k-th call, for a given bound. */
  ghost predicate Draws(random: (nat, int) -> int) {
    forall k, n :: n > 0 ==> 0 <= random(k, n) < n
  }

  /** The delay is drawn from the window, which leaves out the cap unless there is nothing to draw. */
  ghost predicate Jittered(random: (nat, int) -> int, k: nat, low: int, high: int, delay: int) {
    if low < high then delay == low + random(k, high - low) < high else delay == low == high
  }

  lemma Doubling(initial: int, k: nat)
    requires initial >= 0
    ensures 0 <= initial * Pow2(k) <= initial * Pow2(k + 1)
  {
    var p: int := Pow2(k);
    assert initial * p >= 0;
    assert initial * (2 * p) == initial * p + initial * p;
  }

  lemma {:induction false} Pow2Add(a: nat, b: nat)
    ensures Pow2(a + b) == Pow2(a) * Pow2(b)
  {
    if b == 0 {
      assert Pow2(0) == 1;
    } else {
      Pow2Add(a, b - 1);
      var x: int, y: int := Pow2(a), Pow2(b - 1);
      assert Pow2(a + b) == 2 * Pow2(a + (b - 1)) && Pow2(b) == 2 * y;
      TwiceProduct(x, y);
    }
  }

  lemma TwiceProduct(x: int, y: int)
    ensures 2 * (x * y) == x * (2 * y)
  {
  }

  /** Long before the overflow the power exceeds every duration. */
  lemma {:induction false} Pow2Large(k: nat)
    requires k >= 44
    ensures Pow2(k) > 9_223_372_036_854
  {
    if k == 44 {
      assert Pow2(4) == 16 && Pow2(7) == 128;
      Pow2Add(4, 7);
      Pow2Add(11, 11);
      Pow2Add(22, 22);
    } else {
      Pow2Large(k - 1);
    }
  }

  function Smaller(x: int, y: int): int {
    if x < y then x else y
  }

  /** Settings with which delay number `k` is still computed. */
  predicate Computed(initial: Millis, max: Millis, k: nat) {
    initial >= 0 && max >= 0 && (initial > 0 || k < Overflow)
  }

  /** The windows follow one another up to the maximum. */
  lemma Windows(initial: Millis, max: Millis, k: nat)
    requires Computed(initial, max, k)
    ensures Accepted(initial, max, k)
    ensures 0 <= Low(initial, max, k) <= Capped(initial, max, k).v == Low(initial, max, k + 1) <= max
    ensures CapReached(initial, max, k) <==> Capped(initial, max, k) == Finite(max)
    ensures k > 0 && CapReached(initial, max, k - 1) ==> CapReached(initial, max, k) && Low(initial, max, k) == max
  {
    if k < Overflow {
      Doubling(initial, k);
    }
    if 0 < k <= Overflow {
      Doubling(initial, k - 1);
    }
  }

  /** The first cap is the initial delay, and every further one twice the cap before, both up to the maximum. */
  lemma CapsDouble(initial: Millis, max: Millis, k: nat)
    requires Computed(initial, max, k)
    ensures Capped(initial, max, k) ==
      Finite(if k == 0 then Smaller(initial, max) else Smaller(max, 2 * Low(initial, max, k)))
  {
    if k == 0 {
      assert Pow2(0) == 1;
    } else if k <= Overflow {
      var p: int := Pow2(k - 1);
      assert Pow2(k) == 2 * p && initial * (2 * p) == 2 * (initial * p);
      Doubling(initial, k - 1);
      if k == Overflow {
        Pow2Large(k - 1);
        assert initial * p >= p;
      }
    }
  }

  /** At the overflow, zero times infinity is not a number, and there is no window. */
  lemma ZeroOverflows(max: Millis, k: nat)
    requires k >= Overflow
    ensures Capped(0, max, k) == NaN && !Accepted(0, max, k)
  {
  }

  lemma NegativeRejected(initial: Millis, max: Millis)
    requires initial < 0 || max < 0
    ensures !Accepted(initial, max, 0)
  {
    assert Pow2(0) == 1;
  }

  /** All delays of all runs can be drawn exactly when the initial delay is positive and the maximum
      not negative, and those before the overflow exactly when neither is negative. */
  lemma BoundsAccepted(initial: Millis, max: Millis)
    ensures (forall k :: Accepted(initial, max, k)) <==> initial > 0 && max >= 0
    ensures (forall k | 0 <= k < Overflow :: Accepted(initial, max, k)) <==> initial >= 0 && max >= 0
  {
    hide Accepted;
    if initial < 0 || max < 0 {
      NegativeRejected(initial, max);
    } else {
      forall k: nat | initial > 0 || k < Overflow ensures Accepted(initial, max, k) {
        Windows(initial, max, k);
      }
      if initial == 0 {
        ZeroOverflows(max, Overflow);
      }
    }
  }

  datatype Slept = Slept(millis: int) | Panicked

  class ExponentialDelayer {
    const initialDelay: Millis
    const maxDelay: Millis
    const random: (nat, int) -> int
    var maxDelayReached: bool
    var nextDelayMin: int
    var numDelays: nat

    ghost predicate Valid()
      reads this
    {
      && Draws(random) && nextDelayMin == Low(initialDelay, maxDelay, numDelays)
      && (numDelays > 0 ==> Computed(initialDelay, maxDelay, numDelays - 1))
      && (maxDelayReached <==> numDelays > 0 && CapReached(initialDelay, maxDelay, numDelays - 1))
    }

    constructor (initial: Millis, max: Millis, random: (nat, int) -> int)
      requires Draws(random)
      ensures Valid() && numDelays == 0 && initialDelay == initial && maxDelay == max && this.random == random
    {
      initialDelay, maxDelay, this.random := initial, max, random;
      maxDelayReached, nextDelayMin, numDelays := false, 0, 0;
    }

    /** Sleep for a random time from the current window, and move the window on. */
    method Delay() returns (r: Slept)
      requires Valid()
      modifies this
      ensures Valid()
      ensures r == Panicked <==> !Computed(initialDelay, maxDelay, old(numDelays))
      ensures r == Panicked ==> unchanged(this)
      ensures r != Panicked ==> numDelays == old(numDelays) + 1
      ensures r != Panicked ==>
        var low, high := Low(initialDelay, maxDelay, old(numDelays)), Capped(initialDelay, maxDelay, old(numDelays)).v;
        low <= r.millis <= high && Jittered(random, old(numDelays), low, high, r.millis)
    {
      ComputedIff(initialDelay, maxDelay, numDelays);
      hide Low, Computed;
      var uncapped := Times(initialDelay, Power(numDelays));
      var capped := Min(maxDelay, uncapped);
      var jittered;
      if capped == Finite(nextDelayMin) {
        jittered := nextDelayMin;
      } else {
        if !capped.Finite? || capped.v - nextDelayMin <= 0 {
          return Panicked;
        }
        jittered := random(numDelays, capped.v - nextDelayMin) + nextDelayMin;
      }
      Windows(initialDelay, maxDelay, numDelays);
      if AtLeast(uncapped, maxDelay) && !maxDelayReached {
        maxDelayReached := true;
      }
      nextDelayMin := capped.v;
      numDelays := numDelays + 1;
      return Slept(jittered);
    }
  }

  /** What comes after a run of delays that could be drawn. */
  lemma ComputedIff(initial: Millis, max: Millis, k: nat)
    requires k > 0 ==> Computed(initial, max, k - 1)
    ensures Accepted(initial, max, k) <==> Computed(initial, max, k)
  {
    if Computed(initial, max, k) {
      Windows(initial, max, k);
    } else if k == 0 {
      NegativeRejected(initial, max);
    } else {
      ZeroOverflows(max, k);
    }
  }

  /**
    The delays of a whole run, up to `n` of them. The run panics exactly where the settings
    make it: at once if one is negative, and at the overflow if the initial delay is zero.
    Up to there each delay lies in its window, whose cap is the initial delay at first and then
    doubles up to the maximum; no delay is shorter than one before it, none exceeds the maximum,
    and from the step after the one whose cap reaches the maximum on, all are the maximum.
   */
  method Backoff(initial: Millis, max: Millis, random: (nat, int) -> int, n: nat)
    returns (delays: seq<int>, panicked: bool)
    requires Draws(random)
    ensures panicked <==> n > 0 && !Computed(initial, max, n - 1)
    ensures |delays| == if !panicked then n else if initial < 0 || max < 0 then 0 else Overflow
    ensures forall i :: 0 <= i < |delays| ==>
      Capped(initial, max, i).Finite? && Low(initial, max, i) <= delays[i] <= Capped(initial, max, i).v <= max
    ensures forall i :: 0 <= i < |delays| ==>
      Jittered(random, i, Low(initial, max, i), Capped(initial, max, i).v, delays[i])
    ensures forall i :: 0 <= i < |delays| ==>
      if i == 0 then Low(initial, max, i) == 0 && Capped(initial, max, i).v == Smaller(initial, max)
      else Low(initial, max, i) == Capped(initial, max, i - 1).v
           && Capped(initial, max, i).v == Smaller(max, 2 * Capped(initial, max, i - 1).v)
    ensures forall i, j :: 0 <= i < j < |delays| ==> delays[i] <= delays[j]
    ensures forall i :: 0 < i < |delays| && CapReached(initial, max, i - 1) ==> delays[i] == max
  {
    hide Low, Capped, CapReached, Draws, Jittered;
    var d := new ExponentialDelayer(initial, max, random);
    delays, panicked := [], false;
    while |delays| < n && !panicked
      invariant |delays| <= n && d.Valid() && d.numDelays == |delays|
      invariant d.initialDelay == initial && d.maxDelay == max && d.random == random
      invariant |delays| > 0 ==> Computed(initial, max, |delays| - 1)
      invariant panicked ==> |delays| < n && !Computed(initial, max, |delays|)
      invariant forall i :: 0 <= i < |delays| ==>
        Capped(initial, max, i).Finite? && Low(initial, max, i) <= delays[i] <= Capped(initial, max, i).v
      invariant forall i :: 0 <= i < |delays| ==>
        Jittered(random, i, Low(initial, max, i), Capped(initial, max, i).v, delays[i])
      decreases n - |delays|, !panicked
    {
      var r := d.Delay();
      if r == Panicked {
        panicked := true;
      } else {
        Windows(initial, max, |delays|);
        delays := delays + [r.millis];
      }
    }
    forall i | 0 <= i < |delays|
      ensures Capped(initial, max, i).v <= max && (i > 0 && CapReached(initial, max, i - 1) ==> delays[i] == max)
    {
      Windows(initial, max, i);
    }
    forall i | 0 <= i < |delays|
      ensures if i == 0 then Low(initial, max, i) == 0 && Capped(initial, max, i).v == Smaller(initial, max)
              else Low(initial, max, i) == Capped(initial, max, i - 1).v
                   && Capped(initial, max, i).v == Smaller(max, 2 * Capped(initial, max, i - 1).v)
    {
      CapsDouble(initial, max, i);
      if i == 0 {
        NoLow(initial, max);
      } else {
        Windows(initial, max, i - 1);
      }
    }
    forall i, j | 0 <= i < j < |delays| ensures delays[i] <= delays[j] {
      WindowsOrdered(initial, max, i, j);
    }
  }

  lemma NoLow(initial: Millis, max: Millis)
    ensures Low(initial, max, 0) == 0
  {
  }

  lemma {:induction false} WindowsOrdered(initial: Millis, max: Millis, i: nat, j: nat)
    requires Computed(initial, max, j) && i < j
    ensures Capped(initial, max, i).Finite? && Capped(initial, max, i).v <= Low(initial, max, j)
    decreases j
  {
    Windows(initial, max, j - 1);
    if i < j - 1 {
      WindowsOrdered(initial, max, i, j - 1);
    }
  }
}
