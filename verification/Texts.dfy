/**
  The library functions on strings that the checksums and replica names rely on:
  decimal numerals, lexicographic order, sorting and joining.
 */
module Texts {

  // Numerals, as the %v verb prints them

  function Digit(d: nat): char
    requires d < 10
  {
    "0123456789"[d]
  }

  function Decimal(n: nat): string {
    if n < 10 then [Digit(n)] else Decimal(n / 10) + [Digit(n % 10)]
  }

  function FormatInt(i: int): string {
    if i < 0 then "-" + Decimal(-i) else Decimal(i)
  }

  predicate IsDigit(c: char) {
    '0' <= c <= '9'
  }

  lemma {:induction false} DecimalDigits(n: nat)
    ensures Decimal(n) != [] && forall i :: 0 <= i < |Decimal(n)| ==> IsDigit(Decimal(n)[i])
  {
    if n >= 10 {
      DecimalDigits(n / 10);
    }
  }

  lemma {:induction false} DecimalInjective(m: nat, n: nat)
    requires Decimal(m) == Decimal(n)
    ensures m == n
  {
    var a, b := Decimal(m), Decimal(n);
    if m >= 10 {
      DecimalDigits(m / 10);
    }
    if n >= 10 {
      DecimalDigits(n / 10);
    }
    assert a[|a| - 1] == Digit(m % 10) && b[|b| - 1] == Digit(n % 10);
    if m >= 10 && n >= 10 {
      assert a[..|a| - 1] == Decimal(m / 10) && b[..|b| - 1] == Decimal(n / 10);
      DecimalInjective(m / 10, n / 10);
    }
  }

  function DigitValue(c: char): int {
    c as int - '0' as int
  }

  /** The number that a string of digits stands for, place by place. */
  function ValueOf(s: string): int {
    if s == [] then 0 else 10 * ValueOf(s[..|s| - 1]) + DigitValue(s[|s| - 1])
  }

  /** A numeral stands for its number, and has no zero in front. */
  lemma {:induction false} DecimalIsNumeral(n: nat)
    ensures ValueOf(Decimal(n)) == n && (n > 0 ==> Decimal(n)[0] != '0')
    ensures Decimal(n) != [] && (n == 0 ==> |Decimal(n)| == 1)
  {
    if n < 10 {
      assert [Digit(n)][..0] == [];
    } else {
      DecimalIsNumeral(n / 10);
      var s := Decimal(n / 10) + [Digit(n % 10)];
      assert s[..|s| - 1] == Decimal(n / 10);
    }
  }

  lemma FormatIntSign(i: int)
    ensures FormatInt(i) != [] && (FormatInt(i)[0] == '-' <==> i < 0)
  {
    DecimalDigits(if i < 0 then -i else i);
  }

  lemma FormatIntInjective(i: int, j: int)
    requires FormatInt(i) == FormatInt(j)
    ensures i == j
  {
    hide Decimal;
    FormatIntSign(i);
    FormatIntSign(j);
    if i < 0 {
      assert FormatInt(i)[1..] == Decimal(-i) && FormatInt(j)[1..] == Decimal(-j);
      DecimalInjective(-i, -j);
    } else {
      DecimalInjective(i, j);
    }
  }

  /** The integer that a numeral with a sign stands for. */
  function IntegerOf(s: string): int {
    if s != [] && s[0] == '-' then -ValueOf(s[1..]) else ValueOf(s)
  }

  lemma FormatIntIsNumeral(i: int)
    ensures IntegerOf(FormatInt(i)) == i
  {
    hide Decimal, ValueOf;
    FormatIntSign(i);
    DecimalIsNumeral(if i < 0 then -i else i);
    assert i < 0 ==> FormatInt(i)[1..] == Decimal(-i);
  }

  // Lexicographic order and sorting

  predicate Leq(a: string, b: string) {
    a == [] || (b != [] && (a[0] < b[0] || (a[0] == b[0] && Leq(a[1..], b[1..]))))
  }

  lemma {:induction false} LeqTotal(a: string, b: string)
    ensures Leq(a, b) || Leq(b, a)
  {
    if a != [] && b != [] {
      LeqTotal(a[1..], b[1..]);
    }
  }

  lemma {:induction false} LeqAntisymmetric(a: string, b: string)
    requires Leq(a, b) && Leq(b, a)
    ensures a == b
  {
    if a != [] {
      LeqAntisymmetric(a[1..], b[1..]);
      assert a == [a[0]] + a[1..] && b == [b[0]] + b[1..];
    }
  }

  lemma {:induction false} LeqTransitive(a: string, b: string, c: string)
    requires Leq(a, b) && Leq(b, c)
    ensures Leq(a, c)
  {
    if a != [] && a[0] == b[0] && b[0] == c[0] {
      LeqTransitive(a[1..], b[1..], c[1..]);
    }
  }

  /** The strings agree up to a place where the first has the smaller character. */
  ghost predicate SmallerAt(a: string, b: string, k: int) {
    0 <= k < |a| && k < |b| && a[..k] == b[..k] && a[k] < b[k]
  }

  /** The order of a dictionary: one is the beginning of the other, or the first difference decides. */
  lemma {:induction false} LeqIff(a: string, b: string)
    ensures Leq(a, b) <==> a <= b || exists k :: SmallerAt(a, b, k)
  {
    if a != [] && b != [] {
      if a[0] == b[0] {
        LeqIff(a[1..], b[1..]);
        SameHead(a, b);
      } else {
        OtherHead(a, b);
      }
    }
  }

  lemma SameHead(a: string, b: string)
    requires a != [] && b != [] && a[0] == b[0]
    ensures a <= b <==> a[1..] <= b[1..]
    ensures (exists k :: SmallerAt(a, b, k)) <==> exists k :: SmallerAt(a[1..], b[1..], k)
  {
    assert a == [a[0]] + a[1..] && b == [b[0]] + b[1..];
    if k :| SmallerAt(a, b, k) {
      assert k > 0 && a[1..][..k - 1] == a[..k][1..] && b[1..][..k - 1] == b[..k][1..];
      assert SmallerAt(a[1..], b[1..], k - 1);
    }
    if k :| SmallerAt(a[1..], b[1..], k) {
      assert a[..k + 1] == [a[0]] + a[1..][..k] && b[..k + 1] == [b[0]] + b[1..][..k];
      assert SmallerAt(a, b, k + 1);
    }
  }

  lemma OtherHead(a: string, b: string)
    requires a != [] && b != [] && a[0] != b[0]
    ensures !(a <= b) && ((exists k :: SmallerAt(a, b, k)) <==> a[0] < b[0])
  {
    assert forall k :: 0 < k <= |a| && k <= |b| ==> a[..k][0] == a[0] && b[..k][0] == b[0];
    if a[0] < b[0] {
      assert SmallerAt(a, b, 0);
    }
  }

  ghost predicate SortedTexts(s: seq<string>) {
    forall i, j :: 0 <= i < j < |s| ==> Leq(s[i], s[j])
  }

  function InsertText(x: string, s: seq<string>): seq<string> {
    if s == [] || Leq(x, s[0]) then [x] + s else [s[0]] + InsertText(x, s[1..])
  }

  function SortTexts(s: seq<string>): seq<string> {
    if s == [] then [] else InsertText(s[0], SortTexts(s[1..]))
  }

  lemma {:induction false} InsertTextPermutes(x: string, s: seq<string>)
    ensures multiset(InsertText(x, s)) == multiset(s) + multiset{x}
  {
    if s != [] && !Leq(x, s[0]) {
      InsertTextPermutes(x, s[1..]);
      assert s == [s[0]] + s[1..];
    }
  }

  lemma {:induction false} InsertTextSorts(x: string, s: seq<string>)
    requires SortedTexts(s)
    ensures SortedTexts(InsertText(x, s))
  {
    if s != [] {
      if Leq(x, s[0]) {
        var r := [x] + s;
        forall i, j | 0 <= i < j < |r| ensures Leq(r[i], r[j]) {
          if i == 0 && j > 1 {
            LeqTransitive(x, s[0], s[j - 1]);
          }
        }
      } else {
        LeqTotal(x, s[0]);
        var t := InsertText(x, s[1..]);
        InsertTextSorts(x, s[1..]);
        InsertTextPermutes(x, s[1..]);
        forall j | 0 <= j < |t| ensures Leq(s[0], t[j]) {
          assert t[j] in multiset(s[1..]) + multiset{x};
        }
      }
    }
  }

  lemma {:induction false} SortTextsCorrect(s: seq<string>)
    ensures SortedTexts(SortTexts(s)) && multiset(SortTexts(s)) == multiset(s)
  {
    hide InsertText, Leq;
    if s != [] {
      SortTextsCorrect(s[1..]);
      InsertTextSorts(s[0], SortTexts(s[1..]));
      InsertTextPermutes(s[0], SortTexts(s[1..]));
      assert s == [s[0]] + s[1..];
    }
  }

  /** There is only one sorted arrangement of given strings. */
  lemma {:induction false} SortedUnique(a: seq<string>, b: seq<string>)
    requires SortedTexts(a) && SortedTexts(b) && multiset(a) == multiset(b)
    ensures a == b
  {
    if a == [] {
      assert multiset(b) == multiset{};
    } else {
      assert a == [a[0]] + a[1..];
      assert a[0] in multiset(b);
      assert b == [b[0]] + b[1..];
      assert b[0] in multiset(a);
      HeadLeast(a, b[0]);
      HeadLeast(b, a[0]);
      LeqAntisymmetric(a[0], b[0]);
      assert multiset(a[1..]) == multiset(a) - multiset{a[0]};
      assert multiset(b[1..]) == multiset(b) - multiset{b[0]};
      SortedUnique(a[1..], b[1..]);
    }
  }

  lemma HeadLeast(s: seq<string>, x: string)
    requires SortedTexts(s) && x in s
    ensures Leq(s[0], x)
  {
    var i :| 0 <= i < |s| && s[i] == x;
    if i == 0 {
      LeqTotal(x, x);
    }
  }

  /** Sorting forgets the order in which the strings came. */
  lemma SortCanonical(a: seq<string>, b: seq<string>)
    requires multiset(a) == multiset(b)
    ensures SortTexts(a) == SortTexts(b)
  {
    SortTextsCorrect(a);
    SortTextsCorrect(b);
    SortedUnique(SortTexts(a), SortTexts(b));
  }

  function Join(s: seq<string>, sep: string): string {
    if s == [] then "" else if |s| == 1 then s[0] else s[0] + sep + Join(s[1..], sep)
  }

  // What can be read off a joined text

  predicate Lacks(s: string, c: char) {
    forall i :: 0 <= i < |s| ==> s[i] != c
  }

  predicate AllLack(s: seq<string>, c: char) {
    forall i :: 0 <= i < |s| ==> Lacks(s[i], c)
  }

  /** The text up to the first separator, if there is one. */
  lemma FirstPart(x: string, rest: string, y: string, rest': string, c: char)
    requires Lacks(x, c) && Lacks(y, c) && x + [c] + rest == y + [c] + rest'
    ensures x == y && rest == rest'
  {
    var s, t := x + [c] + rest, y + [c] + rest';
    assert s[|x|] == t[|y|] == c;
    assert |x| == |y|;
    assert x == s[..|x|] && y == t[..|y|] && rest == s[|x| + 1..] && rest' == t[|y| + 1..];
  }

  lemma JoinFront(s: seq<string>, c: char)
    requires |s| > 1
    ensures Join(s, [c]) == s[0] + [c] + Join(s[1..], [c]) && !Lacks(Join(s, [c]), c)
  {
    assert (s[0] + [c] + Join(s[1..], [c]))[|s[0]|] == c;
  }

  /** Strings without the separator can be read back from their joined text, except that no string
      at all and one empty string look alike. */
  lemma {:induction false} JoinInjective(s: seq<string>, t: seq<string>, c: char)
    requires AllLack(s, c) && AllLack(t, c) && s != [] && t != [] && Join(s, [c]) == Join(t, [c])
    ensures s == t
  {
    if |s| > 1 {
      JoinFront(s, c);
    }
    if |t| > 1 {
      JoinFront(t, c);
    }
    if |s| > 1 && |t| > 1 {
      FirstPart(s[0], Join(s[1..], [c]), t[0], Join(t[1..], [c]), c);
      JoinInjective(s[1..], t[1..], c);
      assert s == [s[0]] + s[1..] && t == [t[0]] + t[1..];
    }
  }

  lemma {:induction false} JoinEmptyIff(s: seq<string>, c: char)
    ensures Join(s, [c]) == "" <==> s == [] || s == [""]
  {
    if |s| > 1 {
      JoinFront(s, c);
    }
  }
}
