/**
  The text that is fingerprinted as the membership checksum, and what it tells about
  the membership.
 */
module MembershipChecksum {
  import opened SwimMembers
  import opened Sequences
  import opened Texts

  function StatusText(s: Status): string {
    match s
    case Alive => "alive"
    case Suspect => "suspect"
    case Faulty => "faulty"
    case Leave => "leave"
  }

  /** What follows the address of a member in the text. */
  function Suffix(m: Member): string {
    StatusText(m.status) + FormatInt(m.incarnation)
  }

  /** A member in the text. */
  function Describe(address: string, m: Member): string {
    address + Suffix(m)
  }

  function Descriptions(list: seq<string>, members: map<string, Member>): seq<string>
    requires forall a :: a in list ==> a in members
  {
    seq(|list|, i requires 0 <= i < |list| => Describe(list[i], members[list[i]]))
  }

  /** Every string, followed by a semicolon. */
  function Terminated(ss: seq<string>): string {
    if ss == [] then "" else Terminated(ss[..|ss| - 1]) + ss[|ss| - 1] + ";"
  }

  function ChecksumText(list: seq<string>, members: map<string, Member>): string
    requires forall a :: a in list ==> a in members
  {
    Terminated(SortTexts(Descriptions(list, members)))
  }

  /** How members look in the text. */
  lemma Samples(a: string)
    ensures Describe(a, Member(Alive, 10)) == a + "alive10" && Describe(a, Member(Suspect, -2)) == a + "suspect-2"
    ensures Describe(a, Member(Faulty, 0)) == a + "faulty0" && Describe(a, Member(Leave, 7)) == a + "leave7"
  {
    assert Decimal(10) == Decimal(1) + Decimal(0) == "10";
    assert Decimal(2) == "2" && Decimal(0) == "0" && Decimal(7) == "7";
    assert FormatInt(-2) == "-" + "2" == "-2";
    assert "alive" + "10" == "alive10" && "suspect" + "-2" == "suspect-2";
    assert "faulty" + "0" == "faulty0" && "leave" + "7" == "leave7";
  }

  lemma DescriptionsNone(members: map<string, Member>)
    ensures Descriptions([], members) == [] && Terminated([]) == ""
  {
  }

  lemma DescriptionsNext(list: seq<string>, members: map<string, Member>, i: nat)
    requires (forall a :: a in list ==> a in members) && i < |list|
    ensures Descriptions(list[..i + 1], members) ==
            Descriptions(list[..i], members) + [Describe(list[i], members[list[i]])]
  {
    hide Describe;
  }

  lemma TerminatedNext(ss: seq<string>, i: nat)
    requires i < |ss|
    ensures Terminated(ss[..i + 1]) == Terminated(ss[..i]) + ss[i] + ";"
  {
    assert ss[..i + 1][..i] == ss[..i];
  }

  /** The list has every member once. */
  ghost predicate Lists(list: seq<string>, members: map<string, Member>) {
    NoDuplicates(list) && Elements(list) == members.Keys
  }

  /** No description followed by a semicolon stands at the beginning of the address. */
  ghost predicate Clear(a: string) {
    forall b, m :: !(Describe(b, m) + ";" <= a)
  }

  // A description can be read back

  predicate Numeric(c: char) {
    IsDigit(c) || c == '-'
  }

  lemma FormatIntNumeric(i: int)
    ensures FormatInt(i) != [] && forall k :: 0 <= k < |FormatInt(i)| ==> Numeric(FormatInt(i)[k])
  {
    DecimalDigits(if i < 0 then -i else i);
  }

  lemma ShorterNumber(p: string, i: int, q: string, j: int)
    requires p + FormatInt(i) == q + FormatInt(j) && p != [] && !Numeric(p[|p| - 1])
    ensures |FormatInt(i)| >= |FormatInt(j)|
  {
    FormatIntNumeric(j);
    var t := q + FormatInt(j);
    assert forall k :: |q| <= k < |t| ==> t[k] == FormatInt(j)[k - |q|];
    assert t[|p| - 1] == p[|p| - 1];
  }

  lemma SplitNumber(p: string, i: int, q: string, j: int)
    requires p + FormatInt(i) == q + FormatInt(j)
    requires p != [] && !Numeric(p[|p| - 1]) && q != [] && !Numeric(q[|q| - 1])
    ensures p == q && i == j
  {
    ShorterNumber(p, i, q, j);
    ShorterNumber(q, j, p, i);
    var s := p + FormatInt(i);
    assert p == s[..|p|] == q && FormatInt(i) == s[|p|..] == FormatInt(j);
    FormatIntInjective(i, j);
  }

  lemma SplitStatus(a: string, s: Status, b: string, t: Status)
    requires a + StatusText(s) == b + StatusText(t)
    ensures a == b && s == t
  {
    var x := a + StatusText(s);
    var y := b + StatusText(t);
    var n := |x|;
    assert x[n - 1] == StatusText(s)[|StatusText(s)| - 1] && y[n - 1] == StatusText(t)[|StatusText(t)| - 1];
    assert x[n - 3] == StatusText(s)[|StatusText(s)| - 3] && y[n - 3] == StatusText(t)[|StatusText(t)| - 3];
    assert s == t;
    assert a == x[..|a|] && b == y[..|b|];
  }

  lemma StatusEnds(a: string, s: Status)
    ensures var p := a + StatusText(s); p != [] && !Numeric(p[|p| - 1])
  {
  }

  /** Different members, or the same in different states, are described differently. */
  lemma DescribeInjective(a: string, m: Member, b: string, m': Member)
    requires Describe(a, m) == Describe(b, m')
    ensures a == b && m == m'
  {
    hide FormatInt, StatusText, Numeric;
    var p, q := a + StatusText(m.status), b + StatusText(m'.status);
    StatusEnds(a, m.status);
    StatusEnds(b, m'.status);
    assert Describe(a, m) == p + FormatInt(m.incarnation);
    assert Describe(b, m') == q + FormatInt(m'.incarnation);
    SplitNumber(p, m.incarnation, q, m'.incarnation);
    SplitStatus(a, m.status, b, m'.status);
  }

  lemma SuffixPlain(m: Member)
    ensures Suffix(m) != [] && forall k :: 0 <= k < |Suffix(m)| ==> Suffix(m)[k] != ';'
  {
    hide FormatInt;
    FormatIntNumeric(m.incarnation);
  }

  /** One entry can only begin another inside the address of the other. */
  lemma BeginsInAddress(d: string, a: string, m: Member)
    requires d + ";" <= Describe(a, m) + ";"
    ensures d == Describe(a, m) || d + ";" <= a
  {
    hide Suffix;
    SuffixPlain(m);
    var e := Describe(a, m);
    assert d == (e + ";")[..|d|];
    assert forall k :: |a| <= k < |e| ==> e[k] == Suffix(m)[k - |a|];
    if |d| < |e| {
      assert (e + ";")[|d|] == (d + ";")[|d|] == ';';
      assert d + ";" == (e + ";")[..|d| + 1] == a[..|d| + 1];
    }
  }

  // So can a list of them

  lemma {:induction false} TerminatedFront(x: string, ss: seq<string>)
    ensures Terminated([x] + ss) == x + ";" + Terminated(ss)
  {
    var all := [x] + ss;
    var k := |all| - 1;
    if ss == [] {
      assert all[..0] == [] && Terminated(all) == Terminated([]) + x + ";";
    } else {
      assert all[..k] == [x] + ss[..k - 1] && all[k] == ss[k - 1];
      TerminatedFront(x, ss[..k - 1]);
    }
  }

  /** A description of a clear address. */
  ghost predicate ClearEntry(s: string) {
    exists a, m :: Clear(a) && s == Describe(a, m)
  }

  ghost predicate ClearEntries(ss: seq<string>) {
    forall i :: 0 <= i < |ss| ==> ClearEntry(ss[i])
  }

  lemma PrefixOfOther(x: string, y: string, s: string)
    requires x <= s && y <= s && |x| <= |y|
    ensures x <= y
  {
  }

  lemma SameEntry(x: string, y: string, s: string)
    requires x + ";" <= s && y + ";" <= s && |x| <= |y| && ClearEntry(x) && ClearEntry(y)
    ensures x == y
  {
    var a, m :| Clear(a) && y == Describe(a, m);
    var b, n :| Clear(b) && x == Describe(b, n);
    hide Describe;
    PrefixOfOther(x + ";", y + ";", s);
    BeginsInAddress(x, a, m);
  }

  lemma {:induction false} TerminatedInjective(ss: seq<string>, ts: seq<string>)
    requires ClearEntries(ss) && ClearEntries(ts) && Terminated(ss) == Terminated(ts)
    ensures ss == ts
  {
    hide ClearEntry, Terminated;
    TerminatedEmpty(ss);
    TerminatedEmpty(ts);
    if ss != [] {
      var x, y, r, q := ss[0], ts[0], ss[1..], ts[1..];
      assert ss == [x] + r && ts == [y] + q;
      TerminatedFront(x, r);
      TerminatedFront(y, q);
      SameHeads(x, Terminated(r), y, Terminated(q));
      TerminatedInjective(r, q);
    }
  }

  lemma TerminatedEmpty(ss: seq<string>)
    ensures Terminated(ss) == "" <==> ss == []
  {
  }

  lemma SameHeads(x: string, u: string, y: string, v: string)
    requires ClearEntry(x) && ClearEntry(y) && x + ";" + u == y + ";" + v
    ensures x == y && u == v
  {
    hide ClearEntry;
    var s := x + ";" + u;
    assert x + ";" == s[..|x| + 1] && y + ";" == s[..|y| + 1];
    if |x| <= |y| {
      SameEntry(x, y, s);
    } else {
      SameEntry(y, x, s);
    }
    assert u == s[|x| + 1..] == v;
  }

  // The checksum text identifies the membership

  lemma DescribedOnce(list: seq<string>, members: map<string, Member>)
    requires Lists(list, members)
    ensures forall a :: a in list ==> a in members
    ensures NoDuplicates(Descriptions(list, members))
  {
    assert forall a :: a in list ==> a in Elements(list);
    var d := Descriptions(list, members);
    forall i, j | 0 <= i < j < |d| ensures d[i] != d[j] {
      if d[i] == d[j] {
        DescribeInjective(list[i], members[list[i]], list[j], members[list[j]]);
      }
    }
  }

  lemma Described(list: seq<string>, members: map<string, Member>, a: string)
    requires Lists(list, members) && a in members
    ensures forall b :: b in list ==> b in members
    ensures Describe(a, members[a]) in Descriptions(list, members)
  {
    assert forall b :: b in list ==> b in Elements(list);
    assert a in Elements(list);
    var i :| 0 <= i < |list| && list[i] == a;
    assert Descriptions(list, members)[i] == Describe(a, members[a]);
  }

  /** The order of the list, which differs from node to node, does not matter. */
  lemma ChecksumAnyOrder(l: seq<string>, l': seq<string>, members: map<string, Member>)
    requires Lists(l, members) && Lists(l', members)
    ensures (forall a :: a in l ==> a in members) && forall a :: a in l' ==> a in members
    ensures ChecksumText(l, members) == ChecksumText(l', members)
  {
    DescribedOnce(l, members);
    DescribedOnce(l', members);
    var d, d' := Descriptions(l, members), Descriptions(l', members);
    forall x ensures x in Elements(d) <==> x in Elements(d') {
      if x in d {
        var i :| 0 <= i < |d| && d[i] == x;
        Described(l', members, l[i]);
      }
      if x in d' {
        var i :| 0 <= i < |d'| && d'[i] == x;
        Described(l, members, l'[i]);
      }
    }
    ListedOnce(d, Elements(d));
    ListedOnce(d', Elements(d'));
    assert Elements(d) == Elements(d');
    SortCanonical(d, d');
  }

  lemma AllClear(list: seq<string>, members: map<string, Member>)
    requires Lists(list, members) && forall a :: a in members ==> Clear(a)
    ensures forall a :: a in list ==> a in members
    ensures ClearEntries(SortTexts(Descriptions(list, members)))
  {
    hide SortTexts, Describe, Clear;
    assert forall a :: a in list ==> a in Elements(list);
    var d := Descriptions(list, members);
    SortTextsCorrect(d);
    var ss := SortTexts(d);
    forall i | 0 <= i < |ss| ensures ClearEntry(ss[i]) {
      var k := EntryOf(d, ss, i);
      assert Clear(list[k]) && ss[i] == Describe(list[k], members[list[k]]);
    }
  }

  lemma EntryOf(d: seq<string>, ss: seq<string>, i: nat) returns (k: nat)
    requires multiset(ss) == multiset(d) && i < |ss|
    ensures k < |d| && d[k] == ss[i]
  {
    assert ss[i] in multiset(d);
    k :| 0 <= k < |d| && d[k] == ss[i];
  }

  lemma TextDetermines(l: seq<string>, ms: map<string, Member>, l': seq<string>, ms': map<string, Member>, a: string)
    requires Lists(l, ms) && Lists(l', ms') && a in ms
    requires (forall b :: b in l ==> b in ms) && forall b :: b in l' ==> b in ms'
    requires SortTexts(Descriptions(l, ms)) == SortTexts(Descriptions(l', ms'))
    ensures a in ms' && ms'[a] == ms[a]
  {
    hide SortTexts, Describe, NoDuplicates;
    var d, d' := Descriptions(l, ms), Descriptions(l', ms');
    SortTextsCorrect(d);
    SortTextsCorrect(d');
    Described(l, ms, a);
    assert Describe(a, ms[a]) in multiset(d');
    var i :| 0 <= i < |d'| && d'[i] == Describe(a, ms[a]);
    DescribeInjective(a, ms[a], l'[i], ms'[l'[i]]);
  }

  lemma TextsDetermine(l: seq<string>, ms: map<string, Member>, l': seq<string>, ms': map<string, Member>)
    requires Lists(l, ms) && Lists(l', ms')
    requires (forall b :: b in l ==> b in ms) && forall b :: b in l' ==> b in ms'
    requires SortTexts(Descriptions(l, ms)) == SortTexts(Descriptions(l', ms'))
    ensures ms == ms'
  {
    forall a | a in ms ensures a in ms' && ms'[a] == ms[a] {
      TextDetermines(l, ms, l', ms', a);
    }
    forall a | a in ms' ensures a in ms && ms[a] == ms'[a] {
      TextDetermines(l', ms', l, ms, a);
    }
  }

  /**
    Two nodes have the same checksum text exactly when they know the same members in the
    same states, as long as no address begins with a description and a semicolon; no
    address without a semicolon does.
   */
  lemma ChecksumIdentifies(l: seq<string>, ms: map<string, Member>, l': seq<string>, ms': map<string, Member>)
    requires Lists(l, ms) && Lists(l', ms')
    requires (forall a :: a in ms ==> Clear(a)) && forall a :: a in ms' ==> Clear(a)
    ensures (forall a :: a in l ==> a in ms) && forall a :: a in l' ==> a in ms'
    ensures ChecksumText(l, ms) == ChecksumText(l', ms') <==> ms == ms'
  {
    hide SortTexts, Terminated, Describe, Clear, ClearEntries, NoDuplicates;
    AllClear(l, ms);
    AllClear(l', ms');
    if ms == ms' {
      ChecksumAnyOrder(l, l', ms);
    }
    if ChecksumText(l, ms) == ChecksumText(l', ms') {
      TerminatedInjective(SortTexts(Descriptions(l, ms)), SortTexts(Descriptions(l', ms')));
      TextsDetermine(l, ms, l', ms');
    }
  }

  /** An address without a semicolon is clear. */
  lemma PlainIsClear(a: string)
    requires ';' !in a
    ensures Clear(a)
  {
    hide Describe;
    forall b, m ensures !(Describe(b, m) + ";" <= a) {
      if Describe(b, m) + ";" <= a {
        HasSemicolon(Describe(b, m), a);
      }
    }
  }

  lemma HasSemicolon(d: string, a: string)
    requires d + ";" <= a
    ensures ';' in a
  {
    assert a[|d|] == (d + ";")[|d|];
  }

  /**
    With semicolons it never identifies a membership of two or more: there is always an
    address that reads like all of the others.
   */
  lemma SemicolonsCollide(l: seq<string>, ms: map<string, Member>) returns (a: string, m: Member)
    requires Lists(l, ms) && |l| >= 2
    ensures forall b :: b in l ==> b in ms
    ensures Lists([a], map[a := m]) && map[a := m] != ms
    ensures ChecksumText([a], map[a := m]) == ChecksumText(l, ms)
  {
    hide SortTexts, Describe;
    var i := LastDescription(l, ms);
    var ss := SortTexts(Descriptions(l, ms));
    var before, last := Terminated(ss[..|ss| - 1]), ss[|ss| - 1];
    a, m := before + l[i], ms[l[i]];
    SortOne(Describe(a, m));
    var only := map[a := m];
    DescribePrefixed(before, l[i], m);
    assert Descriptions([a], only) == [Describe(a, m)];
    ElementsSize(l);
    assert only.Keys == {a} && |ms.Keys| >= 2;
  }

  lemma LastDescription(l: seq<string>, ms: map<string, Member>) returns (i: nat)
    requires Lists(l, ms) && l != []
    ensures forall b :: b in l ==> b in ms
    ensures var ss := SortTexts(Descriptions(l, ms)); ss != [] && i < |l| && ss[|ss| - 1] == Describe(l[i], ms[l[i]])
  {
    hide SortTexts, Describe, NoDuplicates;
    assert forall b :: b in l ==> b in Elements(l);
    var d := Descriptions(l, ms);
    var ss := SortTexts(d);
    SortTextsCorrect(d);
    assert |multiset(ss)| == |ss| && |multiset(d)| == |d|;
    assert ss[|ss| - 1] in multiset(d);
    i :| 0 <= i < |d| && d[i] == ss[|ss| - 1];
  }

  lemma DescribePrefixed(p: string, a: string, m: Member)
    ensures Describe(p + a, m) == p + Describe(a, m)
  {
    hide FormatInt, StatusText;
  }

  lemma SortOne(s: string)
    ensures SortTexts([s]) == [s] && Terminated([s]) == s + ";"
  {
    var one := [s];
    assert one[1..] == [] && one[..0] == [];
    assert Terminated(one) == Terminated(one[..0]) + s + ";";
  }

  // Which addresses are confused with several

  /** The address reads like an entry and another address, in the order of the text. */
  ghost predicate Splits(a: string, b: string, m: Member, t: string, n: Member) {
    b != t && a == Describe(b, m) + ";" + t && Leq(Describe(b, m), Describe(t, n))
  }

  /** A membership that has the text of the single member `a`. */
  ghost predicate Confused(a: string, m: Member, l: seq<string>, ms: map<string, Member>) {
    && Lists(l, ms) && (forall b :: b in l ==> b in ms) && ms != map[a := m]
    && ChecksumText(l, ms) == ChecksumText([a], map[a := m])
  }

  lemma OneMemberText(a: string, m: Member)
    ensures ChecksumText([a], map[a := m]) == Describe(a, m) + ";"
  {
    hide Describe;
    SortOne(Describe(a, m));
    assert Descriptions([a], map[a := m]) == [Describe(a, m)];
  }

  lemma SortTwo(d: string, e: string)
    requires Leq(d, e)
    ensures SortTexts([d, e]) == [d, e] && Terminated([d, e]) == d + ";" + (e + ";")
  {
    hide Leq, SortTexts, Terminated;
    SortTextsCorrect([d, e]);
    SortedUnique(SortTexts([d, e]), [d, e]);
    SortOne(e);
    TerminatedFront(d, [e]);
    assert [d, e] == [d] + [e];
  }

  lemma SplitCollides(a: string, b: string, m: Member, t: string, n: Member)
    requires Splits(a, b, m, t, n)
    ensures Confused(a, n, [b, t], map[b := m, t := n])
  {
    var l, ms := [b, t], map[b := m, t := n];
    DescribePrefixed(Describe(b, m) + ";", t, n);
    hide Describe, SortTexts, Terminated, Leq;
    OneMemberText(a, n);
    assert Descriptions(l, ms) == [Describe(b, m), Describe(t, n)];
    SortTwo(Describe(b, m), Describe(t, n));
    assert ms != map[a := n] by {
      assert b in ms && t in ms;
    }
  }

  lemma PrefixLeq(p: string, s: string)
    requires p <= s
    ensures Leq(p, s)
    decreases |p|
  {
    if p != [] {
      PrefixLeq(p[1..], s[1..]);
    }
  }

  /** The first of several entries that read like one, and what the others read like. */
  lemma FirstOfSeveral(ss: seq<string>, a: string, m: Member) returns (t: string)
    requires |ss| >= 2 && Terminated(ss) == Describe(a, m) + ";"
    ensures a == ss[0] + ";" + t && ss[1] + ";" <= Describe(t, m) + ";"
    ensures |ss| == 2 ==> ss[1] == Describe(t, m)
    ensures |ss| > 2 ==> ss[1] + ";" <= t
  {
    hide Suffix, Terminated;
    var d, r := ss[0], ss[1..];
    assert ss == [d] + r && r == [r[0]] + r[1..];
    TerminatedFront(d, r);
    TerminatedFront(r[0], r[1..]);
    TerminatedEmpty(r);
    TerminatedEmpty(r[1..]);
    var e := Describe(a, m) + ";";
    assert d + ";" == e[..|d| + 1];
    assert |e| > |d| + 1;
    BeginsInAddress(d, a, m);
    t := a[|d| + 1..];
    assert Describe(t, m) + ";" == e[|d| + 1..] == Terminated(r);
    assert r[0] + ";" == (Describe(t, m) + ";")[..|r[0]| + 1];
    BeginsInAddress(r[0], t, m);
  }

  lemma SortedEntries(l: seq<string>, ms: map<string, Member>)
    requires Lists(l, ms)
    ensures forall b :: b in l ==> b in ms
    ensures var ss := SortTexts(Descriptions(l, ms));
      && SortedTexts(ss) && NoDuplicates(ss) && |ss| == |l|
      && forall i :: 0 <= i < |ss| ==> exists b :: b in ms && ss[i] == Describe(b, ms[b])
  {
    hide Describe, SortTexts;
    DescribedOnce(l, ms);
    var d := Descriptions(l, ms);
    var ss := SortTexts(d);
    SortTextsCorrect(d);
    PermutedDistinct(d, ss);
    assert |multiset(ss)| == |ss| && |multiset(d)| == |d|;
    forall i | 0 <= i < |ss| ensures exists b :: b in ms && ss[i] == Describe(b, ms[b]) {
      var k := EntryOf(d, ss, i);
      assert l[k] in ms && ss[i] == Describe(l[k], ms[l[k]]);
    }
  }

  /** A membership of one with the text of another is that one. */
  lemma OneIsAlone(a: string, m: Member, l: seq<string>, ms: map<string, Member>)
    requires Lists(l, ms) && |l| == 1 && (forall b :: b in l ==> b in ms)
    requires ChecksumText(l, ms) == ChecksumText([a], map[a := m])
    ensures ms == map[a := m]
  {
    hide Describe, SortTexts, Terminated;
    var b := l[0];
    assert l == [b] && ms.Keys == {b};
    assert ms == map[b := ms[b]];
    OneMemberText(a, m);
    OneMemberText(b, ms[b]);
    SameUpToEnd(Describe(a, m), Describe(b, ms[b]));
    DescribeInjective(a, m, b, ms[b]);
  }

  lemma SameUpToEnd(x: string, y: string)
    requires x + ";" == y + ";"
    ensures x == y
  {
    assert x == (x + ";")[..|x|] && y == (y + ";")[..|y|];
  }

  /** The first entry is about another address than what the others read like. */
  lemma OtherOwner(ss: seq<string>, ms: map<string, Member>, b: string, t: string, m: Member)
    requires |ss| >= 2 && NoDuplicates(ss) && Leq(ss[0], ss[1]) && b in ms && ss[0] == Describe(b, ms[b])
    requires exists c :: c in ms && ss[1] == Describe(c, ms[c])
    requires if |ss| == 2 then ss[1] == Describe(t, m) else ss[1] + ";" <= t
    ensures b != t
  {
    if b == t {
      if |ss| == 2 {
        var c :| c in ms && ss[1] == Describe(c, ms[c]);
        DescribeInjective(c, ms[c], t, m);
      } else {
        assert ss[1] <= t <= ss[0];
        PrefixLeq(ss[1], ss[0]);
        LeqAntisymmetric(ss[0], ss[1]);
      }
    }
  }

  lemma ConfusedSplits(a: string, m: Member, l: seq<string>, ms: map<string, Member>)
    returns (b: string, n: Member, t: string)
    requires Confused(a, m, l, ms)
    ensures Splits(a, b, n, t, m)
  {
    hide Describe, SortTexts, Terminated, NoDuplicates, Leq;
    var ss := SortTexts(Descriptions(l, ms));
    SortedEntries(l, ms);
    OneMemberText(a, m);
    TerminatedEmpty(ss);
    if |l| == 1 {
      OneIsAlone(a, m, l, ms);
    }
    t := FirstOfSeveral(ss, a, m);
    b :| b in ms && ss[0] == Describe(b, ms[b]);
    n := ms[b];
    OtherOwner(ss, ms, b, t, m);
    SameOrShorter(ss[1], Describe(t, m));
    PrefixLeq(ss[1], Describe(t, m));
    LeqTransitive(ss[0], ss[1], Describe(t, m));
  }

  lemma SameOrShorter(x: string, y: string)
    requires x + ";" <= y + ";"
    ensures x <= y
  {
    assert x == (y + ";")[..|x|];
  }

  /** Exactly these addresses can be taken for several members. */
  lemma AloneCollidesIff(a: string)
    ensures (exists m, l, ms :: Confused(a, m, l, ms)) <==> exists b, m, t, n :: Splits(a, b, m, t, n)
  {
    hide Confused, Splits;
    if m, l, ms :| Confused(a, m, l, ms) {
      var b, n, t := ConfusedSplits(a, m, l, ms);
    }
    if b, m, t, n :| Splits(a, b, m, t, n) {
      SplitCollides(a, b, m, t, n);
    }
  }
}
