/** The orders the sources sort by. */
module Sorting {

  /** Code-point order on strings. */
  predicate StringLess(a: string, b: string) {
    |b| > 0 && (|a| == 0 || a[0] < b[0] || (a[0] == b[0] && StringLess(a[1..], b[1..])))
  }

  lemma {:induction false} StringOrderIsTotal(a: string, b: string)
    ensures StringLess(a, b) || a == b || StringLess(b, a)
  {
    if |a| > 0 && |b| > 0 && a[0] == b[0] {
      StringOrderIsTotal(a[1..], b[1..]);
      assert a == [a[0]] + a[1..] && b == [b[0]] + b[1..];
    }
  }

  lemma {:induction false} StringOrderIsStrict(a: string, b: string)
    requires StringLess(a, b)
    ensures a != b && !StringLess(b, a)
  {
    if |a| > 0 && a[0] == b[0] {
      StringOrderIsStrict(a[1..], b[1..]);
    }
  }

  lemma {:induction false} StringOrderIsTransitive(a: string, b: string, c: string)
    requires StringLess(a, b) && StringLess(b, c)
    ensures StringLess(a, c)
  {
    if |a| > 0 && a[0] == b[0] && b[0] == c[0] {
      StringOrderIsTransitive(a[1..], b[1..], c[1..]);
    }
  }

  // ---------------------------------------------------------------- any order

  function InsertWith<T>(x: T, s: seq<T>, less: (T, T) -> bool): (r: seq<T>)
    ensures multiset(r) == multiset(s) + multiset{x}
  {
    if |s| == 0 || less(x, s[0]) then [x] + s
    else
      assert s == [s[0]] + s[1..];
      [s[0]] + InsertWith(x, s[1..], less)
  }

  /** `sorted` by `less`: equal elements keep their order. */
  function SortWith<T>(s: seq<T>, less: (T, T) -> bool): (r: seq<T>)
    ensures multiset(r) == multiset(s)
  {
    if |s| == 0 then []
    else
      assert s == s[..|s| - 1] + [s[|s| - 1]];
      InsertWith(s[|s| - 1], SortWith(s[..|s| - 1], less), less)
  }

  ghost predicate IsOrder<T(!new)>(less: (T, T) -> bool) {
    && (forall a, b :: less(a, b) ==> !less(b, a))
    && (forall a, b, c :: !less(b, a) && !less(c, b) ==> !less(c, a))
  }

  ghost predicate OrderedBy<T>(s: seq<T>, less: (T, T) -> bool) {
    forall i, j :: 0 <= i < j < |s| ==> !less(s[j], s[i])
  }

  lemma InsertMembers<T(!new)>(x: T, s: seq<T>, less: (T, T) -> bool)
    ensures forall y :: y in InsertWith(x, s, less) <==> y == x || y in s
  {
    var r := InsertWith(x, s, less);
    hide InsertWith;
    forall y
      ensures y in r <==> y == x || y in s
    {
      assert y in r <==> y in multiset(r);
      assert y in s <==> y in multiset(s);
    }
  }

  lemma SortMembers<T(!new)>(s: seq<T>, less: (T, T) -> bool)
    ensures forall y :: y in SortWith(s, less) <==> y in s
  {
    var r := SortWith(s, less);
    hide SortWith;
    forall y
      ensures y in r <==> y in s
    {
      assert y in r <==> y in multiset(r);
      assert y in s <==> y in multiset(s);
    }
  }

  lemma PrependOrders<T(!new)>(x: T, s: seq<T>, less: (T, T) -> bool)
    requires OrderedBy(s, less) && forall y :: y in s ==> !less(y, x)
    ensures OrderedBy([x] + s, less)
  {
    forall i, j | 0 <= i < j < |s| + 1
      ensures !less(([x] + s)[j], ([x] + s)[i])
    {
      assert ([x] + s)[j] == s[j - 1] && s[j - 1] in s;
    }
  }

  lemma {:induction false} InsertOrders<T(!new)>(x: T, s: seq<T>, less: (T, T) -> bool)
    requires IsOrder(less) && OrderedBy(s, less)
    ensures OrderedBy(InsertWith(x, s, less), less)
  {
    if |s| > 0 {
      if less(x, s[0]) {
        forall y | y in s
          ensures !less(y, x)
        {
          var i :| 0 <= i < |s| && s[i] == y;
          assert !less(s[0], x);
          assert i > 0 ==> !less(s[i], s[0]);
        }
        PrependOrders(x, s, less);
      } else {
        var tail := InsertWith(x, s[1..], less);
        InsertOrders(x, s[1..], less);
        InsertMembers(x, s[1..], less);
        forall y | y in tail
          ensures !less(y, s[0])
        {
          if y != x {
            var i :| 0 <= i < |s[1..]| && s[1..][i] == y;
            assert s[i + 1] == y;
          }
        }
        PrependOrders(s[0], tail, less);
      }
    }
  }

  lemma {:induction false} SortOrders<T(!new)>(s: seq<T>, less: (T, T) -> bool)
    requires IsOrder(less)
    ensures OrderedBy(SortWith(s, less), less)
  {
    if |s| > 0 {
      SortOrders(s[..|s| - 1], less);
      InsertOrders(s[|s| - 1], SortWith(s[..|s| - 1], less), less);
    }
  }

  lemma SameMembers<T(!new)>(a: seq<T>, b: seq<T>)
    requires multiset(a) == multiset(b)
    ensures forall x :: x in a <==> x in b
  {
    forall x
      ensures x in a <==> x in b
    {
      assert x in a <==> x in multiset(a);
      assert x in b <==> x in multiset(b);
    }
  }

  // ---------------------------------------------------------------- listings without repetition

  lemma {:induction false} CountOne<T(!new)>(a: seq<T>, x: T)
    requires forall i, j :: 0 <= i < j < |a| ==> a[i] != a[j]
    ensures multiset(a)[x] == if x in a then 1 else 0
  {
    if |a| > 0 {
      CountOne(a[1..], x);
      assert a == [a[0]] + a[1..];
      assert a[0] !in a[1..];
    }
  }

  lemma TwiceCounts<T(!new)>(b: seq<T>, i: nat, j: nat)
    requires i < j < |b|
    ensures b[i] == b[j] ==> multiset(b)[b[i]] >= 2
  {
    assert b == b[..j] + [b[j]] + b[j + 1..];
    assert b[i] in b[..j] by { assert b[..j][i] == b[i]; }
    assert b[i] in multiset(b[..j]);
  }

  /** A permutation of a listing without repetition has none. */
  lemma PermutationDistinct<T(!new)>(a: seq<T>, b: seq<T>)
    requires multiset(a) == multiset(b)
    requires forall i, j :: 0 <= i < j < |a| ==> a[i] != a[j]
    ensures forall i, j :: 0 <= i < j < |b| ==> b[i] != b[j]
  {
    forall i, j | 0 <= i < j < |b|
      ensures b[i] != b[j]
    {
      CountOne(a, b[i]);
      TwiceCounts(b, i, j);
    }
  }

  // ---------------------------------------------------------------- strings

  /** `sorted` on strings */
  function SortStrings(s: seq<string>): (r: seq<string>)
    ensures multiset(r) == multiset(s)
  {
    SortWith(s, StringLess)
  }

  lemma SortedStringsDistinct(s: seq<string>)
    requires forall i, j :: 0 <= i < j < |s| ==> s[i] != s[j]
    ensures forall i, j :: 0 <= i < j < |SortStrings(s)| ==> SortStrings(s)[i] != SortStrings(s)[j]
    ensures forall x :: x in SortStrings(s) <==> x in s
  {
    SortMembers(s, StringLess);
    PermutationDistinct(s, SortStrings(s));
  }

  // ---------------------------------------------------------------- by age

  /** The sort key of both clean-ups: modification time, then text. */
  predicate OlderPair(a: int, s: string, b: int, t: string) {
    a < b || (a == b && StringLess(s, t))
  }

  lemma OlderPairIsStrict(a: int, s: string, b: int, t: string)
    requires OlderPair(a, s, b, t)
    ensures !OlderPair(b, t, a, s)
  {
    if a == b {
      StringOrderIsStrict(s, t);
    }
  }

  lemma OlderPairIsTransitive(a: int, s: string, b: int, t: string, c: int, u: string)
    requires !OlderPair(b, t, a, s) && !OlderPair(c, u, b, t)
    ensures !OlderPair(c, u, a, s)
  {
    if a == b == c && StringLess(u, s) {
      StringOrderIsTotal(s, t);
      StringOrderIsTotal(t, u);
      if StringLess(s, t) {
        StringOrderIsTransitive(u, s, t);
      }
    }
  }

  lemma AgeIsOrder<T(!new)>(older: (T, T) -> bool, time: T -> int, text: T -> string)
    requires forall a, b :: older(a, b) <==> OlderPair(time(a), text(a), time(b), text(b))
    ensures IsOrder(older)
  {
    forall a, b | older(a, b)
      ensures !older(b, a)
    {
      OlderPairIsStrict(time(a), text(a), time(b), text(b));
    }
    forall a, b, c | !older(b, a) && !older(c, b)
      ensures !older(c, a)
    {
      OlderPairIsTransitive(time(a), text(a), time(b), text(b), time(c), text(c));
    }
  }
}
