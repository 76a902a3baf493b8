/**
  Sequences as lists of distinct things, and the sets they list.
 */
module Sequences {

  function Elements<T>(s: seq<T>): set<T> {
    set x | x in s
  }

  ghost predicate NoDuplicates<T>(s: seq<T>) {
    forall i, j :: 0 <= i < j < |s| ==> s[i] != s[j]
  }

  lemma {:induction false} ElementsSize<T>(s: seq<T>)
    requires NoDuplicates(s)
    ensures |Elements(s)| == |s|
  {
    if s != [] {
      var r := s[..|s| - 1];
      ElementsSize(r);
      assert s == r + [s[|s| - 1]];
      assert Elements(s) == Elements(r) + {s[|s| - 1]};
      assert s[|s| - 1] !in r;
    }
  }

  lemma ElementsExtend<T>(s: seq<T>, x: T)
    ensures Elements(s + [x]) == Elements(s) + {x}
  {
  }

  lemma {:induction false} SubsetSize<T>(a: set<T>, b: set<T>)
    requires a <= b
    ensures |a| <= |b|
    decreases |a|
  {
    if a != {} {
      var x :| x in a;
      SubsetSize(a - {x}, b - {x});
    }
  }

  /** The numbers below `n`. */
  ghost function UpTo(n: nat): set<nat> {
    if n == 0 then {} else UpTo(n - 1) + {n - 1}
  }

  lemma {:induction false} UpToSize(n: nat)
    ensures |UpTo(n)| == n && forall k: nat :: k in UpTo(n) <==> k < n
  {
    if n > 0 {
      UpToSize(n - 1);
    }
  }

  /** A sequence of the numbers below `n`, each once, as a random permutation gives. */
  ghost predicate IsPermutation(s: seq<nat>, n: nat) {
    |s| == n && NoDuplicates(s) && forall i :: 0 <= i < n ==> s[i] < n
  }

  lemma PermutationCovers(s: seq<nat>, n: nat, k: nat)
    requires IsPermutation(s, n) && k < n
    ensures k in s
  {
    ElementsSize(s);
    UpToSize(n);
    assert Elements(s) <= UpTo(n);
    if k !in s {
      SubsetSize(Elements(s), UpTo(n) - {k});
    }
  }

  lemma {:induction false} AtMostOnce<T>(s: seq<T>, x: T)
    requires NoDuplicates(s)
    ensures multiset(s)[x] <= 1
  {
    if s != [] {
      var r, y := s[..|s| - 1], s[|s| - 1];
      assert s == r + [y] && y !in r;
      AtMostOnce(r, x);
      assert y !in multiset(r);
    }
  }

  /** A permutation of distinct things lists distinct things. */
  lemma PermutedDistinct<T>(s: seq<T>, s': seq<T>)
    requires NoDuplicates(s) && multiset(s) == multiset(s')
    ensures NoDuplicates(s') && Elements(s') == Elements(s)
  {
    assert forall x :: x in s <==> x in multiset(s);
    assert forall x :: x in s' <==> x in multiset(s');
    forall i, j | 0 <= i < j < |s'| ensures s'[i] != s'[j] {
      AtMostOnce(s, s'[i]);
      if s'[i] == s'[j] {
        Twice(s', i, j);
      }
    }
  }

  lemma Twice<T>(s: seq<T>, i: nat, j: nat)
    requires i < j < |s| && s[i] == s[j]
    ensures multiset(s)[s[i]] >= 2
  {
    assert s == s[..j] + s[j..] && s[..j][i] == s[i] && s[j..][0] == s[i];
    assert s[i] in multiset(s[..j]) && s[i] in multiset(s[j..]);
  }

  /** Distinct things are listed once each, whatever the order. */
  lemma ListedOnce<T>(l: seq<T>, s: set<T>)
    requires NoDuplicates(l) && Elements(l) == s
    ensures multiset(l) == multiset(s)
  {
    forall x ensures multiset(l)[x] == multiset(s)[x] {
      AtMostOnce(l, x);
      assert x in l <==> x in multiset(l);
      assert x in l <==> x in Elements(l);
    }
  }
}
