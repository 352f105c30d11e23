/** Sums over listings, which do not depend on the order of the listing. */
module Totals {
  import opened Sorting

  function Total<T>(s: seq<T>, f: T -> nat): nat {
    if |s| == 0 then 0 else f(s[0]) + Total(s[1..], f)
  }

  lemma {:induction false} TotalAppend<T(!new)>(a: seq<T>, b: seq<T>, f: T -> nat)
    ensures Total(a + b, f) == Total(a, f) + Total(b, f)
  {
    if |a| == 0 {
      assert a + b == b;
    } else {
      TotalAppend(a[1..], b, f);
      assert (a + b)[1..] == a[1..] + b;
    }
  }

  lemma RemoveOne<T(!new)>(b: seq<T>, i: nat)
    requires i < |b|
    ensures multiset(b[..i] + b[i + 1..]) == multiset(b) - multiset{b[i]}
  {
    assert b == b[..i] + ([b[i]] + b[i + 1..]);
    assert multiset(b) == multiset(b[..i]) + (multiset{b[i]} + multiset(b[i + 1..]));
  }

  lemma TotalWithout<T(!new)>(b: seq<T>, i: nat, f: T -> nat)
    requires i < |b|
    ensures Total(b, f) == f(b[i]) + Total(b[..i] + b[i + 1..], f)
  {
    var front, back := b[..i], b[i..];
    assert b == front + back;
    TotalAppend(front, back, f);
    TotalAppend(front, b[i + 1..], f);
    assert back[1..] == b[i + 1..];
  }

  /** The listing without its `i`th element. */
  function Without<T>(s: seq<T>, i: nat): seq<T>
    requires i < |s|
  {
    s[..i] + s[i + 1..]
  }

  lemma WithoutOne<T(!new)>(s: seq<T>, i: nat, f: T -> nat)
    requires i < |s|
    ensures multiset(Without(s, i)) == multiset(s) - multiset{s[i]} && |Without(s, i)| == |s| - 1
    ensures Total(s, f) == f(s[i]) + Total(Without(s, i), f)
  {
    RemoveOne(s, i);
    TotalWithout(s, i, f);
    hide Total;
  }

  lemma {:induction false} TotalPermutation<T(!new)>(a: seq<T>, b: seq<T>, f: T -> nat)
    requires multiset(a) == multiset(b)
    ensures Total(a, f) == Total(b, f) && |a| == |b|
    decreases |a|
  {
    hide Total, Without;
    if |a| == 0 {
      assert |multiset(b)| == 0;
    } else {
      assert a[0] in multiset(b);
      var i :| 0 <= i < |b| && b[i] == a[0];
      WithoutOne(a, 0, f);
      WithoutOne(b, i, f);
      TotalPermutation(Without(a, 0), Without(b, i), f);
    }
  }

  lemma {:induction false} TotalIsAtLeast<T(!new)>(s: seq<T>, x: T, f: T -> nat)
    requires x in s
    ensures Total(s, f) >= f(x)
  {
    if s[0] != x {
      TotalIsAtLeast(s[1..], x, f);
    }
  }

  lemma TotalsAddUp<T(!new)>(all: seq<T>, a: seq<T>, b: seq<T>, f: T -> nat)
    requires multiset(all) == multiset(a) + multiset(b)
    ensures |a| + |b| == |all| && Total(a, f) + Total(b, f) == Total(all, f)
  {
    assert multiset(a + b) == multiset(all);
    TotalPermutation(a + b, all, f);
    TotalAppend(a, b, f);
  }

  /** The elements that satisfy `p`, in order. */
  function Select<T>(s: seq<T>, p: T -> bool): (r: seq<T>)
    ensures |r| <= |s|
  {
    if |s| == 0 then [] else if p(s[0]) then [s[0]] + Select(s[1..], p) else Select(s[1..], p)
  }

  lemma {:induction false} SelectMembers<T(!new)>(s: seq<T>, p: T -> bool)
    ensures forall x :: x in Select(s, p) <==> x in s && p(x)
  {
    if |s| > 0 {
      SelectMembers(s[1..], p);
      assert s == [s[0]] + s[1..];
    }
  }

  function When<T>(x: T, here: bool): seq<T> {
    if here then [x] else []
  }

  lemma SelectUnfold<T(!new)>(s: seq<T>, p: T -> bool)
    requires |s| > 0
    ensures Select(s, p) == When(s[0], p(s[0])) + Select(s[1..], p)
  {
  }

  lemma Regroup<T(!new)>(a: seq<T>, b: seq<T>, c: seq<T>)
    ensures a + (b + c) == a + b + c
  {
  }

  lemma {:induction false} SelectConcat<T(!new)>(a: seq<T>, b: seq<T>, p: T -> bool)
    ensures Select(a + b, p) == Select(a, p) + Select(b, p)
  {
    if |a| == 0 {
      assert a + b == b;
    } else {
      var here, tail := When(a[0], p(a[0])), a[1..];
      assert (a + b)[0] == a[0] && (a + b)[1..] == tail + b;
      hide Select, When;
      SelectUnfold(a, p);
      SelectUnfold(a + b, p);
      SelectConcat(tail, b, p);
      Regroup(here, Select(tail, p), Select(b, p));
    }
  }

  lemma SelectPush<T(!new)>(s: seq<T>, i: nat, p: T -> bool)
    requires i < |s|
    ensures Select(s[..0], p) == []
    ensures Select(s[..i + 1], p) == Select(s[..i], p) + if p(s[i]) then [s[i]] else []
  {
    assert s[..i + 1] == s[..i] + [s[i]];
    SelectConcat(s[..i], [s[i]], p);
  }

  lemma {:induction false} CountSelected<T(!new)>(s: seq<T>, p: T -> bool, x: T)
    ensures multiset(Select(s, p))[x] == if p(x) then multiset(s)[x] else 0
  {
    if |s| > 0 {
      CountSelected(s[1..], p, x);
      assert s == [s[0]] + s[1..];
    }
  }

  lemma SelectSplits<T(!new)>(s: seq<T>, p: T -> bool, q: T -> bool)
    requires forall x :: x in s ==> p(x) != q(x)
    ensures multiset(s) == multiset(Select(s, p)) + multiset(Select(s, q))
  {
    forall x
      ensures multiset(s)[x] == (multiset(Select(s, p)) + multiset(Select(s, q)))[x]
    {
      CountSelected(s, p, x);
      CountSelected(s, q, x);
      assert x in multiset(s) <==> x in s;
    }
  }

  lemma {:induction false} SelectDistinct<T(!new)>(s: seq<T>, p: T -> bool)
    requires forall i, j :: 0 <= i < j < |s| ==> s[i] != s[j]
    ensures forall i, j :: 0 <= i < j < |Select(s, p)| ==> Select(s, p)[i] != Select(s, p)[j]
  {
    if |s| > 0 {
      SelectDistinct(s[1..], p);
      SelectMembers(s[1..], p);
      assert s[0] !in s[1..];
    }
  }

  /** Two listings without repetition of the same elements are permutations of each other. */
  lemma {:induction false} SameElements<T(!new)>(a: seq<T>, b: seq<T>)
    requires forall x :: x in a <==> x in b
    requires forall i, j :: 0 <= i < j < |a| ==> a[i] != a[j]
    requires forall i, j :: 0 <= i < j < |b| ==> b[i] != b[j]
    ensures multiset(a) == multiset(b)
  {
    forall x
      ensures multiset(a)[x] == multiset(b)[x]
    {
      CountOne(a, x);
      CountOne(b, x);
    }
  }

  lemma PrefixMembers<T(!new)>(p: seq<T>, s: seq<T>)
    requires p <= s
    ensures forall x :: x in p ==> x in s
  {
    forall x | x in p
      ensures x in s
    {
      var i :| 0 <= i < |p| && p[i] == x;
      assert s[i] == x;
    }
  }

  lemma NotInPrefix<T(!new)>(p: seq<T>, s: seq<T>, j: nat, x: T)
    requires p <= s && j < |s| && s[j] == x && x !in p
    ensures j >= |p|
  {
    assert forall k :: 0 <= k < |p| ==> s[k] == p[k] && p[k] in p;
  }

  lemma {:induction false} SelectKeepsOrder<T(!new)>(s: seq<T>, p: T -> bool, less: (T, T) -> bool)
    requires OrderedBy(s, less)
    ensures OrderedBy(Select(s, p), less)
  {
    if |s| > 0 {
      SelectKeepsOrder(s[1..], p, less);
      SelectMembers(s[1..], p);
      forall x | x in Select(s[1..], p)
        ensures !less(x, s[0])
      {
        var i :| 0 <= i < |s[1..]| && s[1..][i] == x;
        assert s[i + 1] == x;
      }
      if p(s[0]) {
        PrependOrders(s[0], Select(s[1..], p), less);
      }
    }
  }
}
