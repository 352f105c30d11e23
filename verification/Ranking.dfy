/** Average ranks and the rank correlation of the grading sheet, over exact numbers. */
module Ranking {
  import opened Sorting
  import opened Totals

  // ---------------------------------------------------------------- ranks

  function Below(v: real): real -> nat {
    x => if x < v then 1 else 0
  }

  function Same(v: real): real -> nat {
    x => if x == v then 1 else 0
  }

  /** How many values are strictly smaller. */
  function CountBelow(values: seq<real>, v: real): nat {
    Total(values, Below(v))
  }

  /** How many values are equal. */
  function CountSame(values: seq<real>, v: real): nat {
    Total(values, Same(v))
  }

  /** The average rank of a value: the number below it and half of one more than the number equal to it. */
  function RankOf(values: seq<real>, v: real): real {
    CountBelow(values, v) as real + (CountSame(values, v) + 1) as real / 2.0
  }

  function RanksOf(values: seq<real>): (r: seq<real>)
    ensures |r| == |values| && forall i :: 0 <= i < |r| ==> r[i] == RankOf(values, values[i])
  {
    seq(|values|, i requires 0 <= i < |values| => RankOf(values, values[i]))
  }

  // ---------------------------------------------------------------- the code of `_ranks`

  function At(values: seq<real>, i: nat): real {
    if i < |values| then values[i] else 0.0
  }

  function ByValue(values: seq<real>): (nat, nat) -> bool {
    (i: nat, j: nat) => At(values, i) < At(values, j)
  }

  function Indices(n: nat): (r: seq<nat>)
    ensures |r| == n && forall i :: 0 <= i < n ==> r[i] == i
  {
    seq(n, i requires 0 <= i < n => i)
  }

  /** `order`: the indices sorted by value. */
  function OrderOf(values: seq<real>): seq<nat> {
    SortWith(Indices(|values|), ByValue(values))
  }

  /** A listing of the indices in which values never fall. */
  ghost predicate IsOrderOf(order: seq<nat>, values: seq<real>) {
    && |order| == |values|
    && (forall k :: 0 <= k < |order| ==> order[k] < |values|)
    && (forall k, l :: 0 <= k < l < |order| ==> order[k] != order[l] && values[order[k]] <= values[order[l]])
    && multiset(Gathered(order, values)) == multiset(values)
    && forall i :: 0 <= i < |values| ==> i in order
  }

  function Gathered(order: seq<nat>, values: seq<real>): (r: seq<real>)
    ensures |r| == |order| && forall k :: 0 <= k < |r| ==> r[k] == At(values, order[k])
  {
    seq(|order|, k requires 0 <= k < |order| => At(values, order[k]))
  }

  function HasValue(values: seq<real>, v: real): nat -> nat {
    (i: nat) => if At(values, i) == v then 1 else 0
  }

  lemma {:induction false} CountGathered(a: seq<nat>, values: seq<real>, v: real)
    ensures multiset(Gathered(a, values))[v] == Total(a, HasValue(values, v))
  {
    if |a| > 0 {
      CountGathered(a[1..], values, v);
      assert Gathered(a, values) == [At(values, a[0])] + Gathered(a[1..], values);
    } else {
      assert Gathered(a, values) == [];
    }
  }

  lemma GatherPermutes(a: seq<nat>, b: seq<nat>, values: seq<real>)
    requires multiset(a) == multiset(b)
    ensures multiset(Gathered(a, values)) == multiset(Gathered(b, values))
  {
    forall v
      ensures multiset(Gathered(a, values))[v] == multiset(Gathered(b, values))[v]
    {
      CountGathered(a, values, v);
      CountGathered(b, values, v);
      TotalPermutation(a, b, HasValue(values, v));
    }
  }

  lemma OrderIsOrder(values: seq<real>)
    ensures IsOrderOf(OrderOf(values), values)
  {
    hide SortWith, Gathered, IsOrder;
    var ids, order := Indices(|values|), OrderOf(values);
    ValuesOrder(values);
    SortOrders(ids, ByValue(values));
    SortMembers(ids, ByValue(values));
    PermutationDistinct(ids, order);
    forall k | 0 <= k < |order|
      ensures order[k] < |values|
    {
      assert order[k] in order;
    }
    assert |multiset(order)| == |multiset(ids)|;
    GatherPermutes(order, ids, values);
    assert Gathered(ids, values) == values;
    forall i | 0 <= i < |values|
      ensures i in order
    {
      assert ids[i] in ids;
    }
  }

  lemma ValuesOrder(values: seq<real>)
    ensures forall a, b :: ByValue(values)(a, b) ==> !ByValue(values)(b, a)
    ensures forall a, b, c :: !ByValue(values)(b, a) && !ByValue(values)(c, b) ==> !ByValue(values)(c, a)
  {
  }

  lemma {:induction false} TotalNone<T(!new)>(s: seq<T>, f: T -> nat)
    requires forall k :: 0 <= k < |s| ==> f(s[k]) == 0
    ensures Total(s, f) == 0
  {
    if |s| > 0 {
      TotalNone(s[1..], f);
    }
  }

  lemma {:induction false} TotalAll<T(!new)>(s: seq<T>, f: T -> nat)
    requires forall k :: 0 <= k < |s| ==> f(s[k]) == 1
    ensures Total(s, f) == |s|
  {
    if |s| > 0 {
      TotalAll(s[1..], f);
    }
  }

  lemma TotalThree<T(!new)>(s: seq<T>, f: T -> nat, p: nat, e: nat)
    requires p <= e <= |s|
    ensures Total(s, f) == Total(s[..p], f) + Total(s[p..e], f) + Total(s[e..], f)
  {
    assert s == s[..p] + s[p..] && s[p..] == s[p..e] + s[e..];
    hide Total;
    TotalAppend(s[..p], s[p..], f);
    TotalAppend(s[p..e], s[e..], f);
  }

  ghost predicate IsBlock(s: seq<real>, p: nat, e: nat, v: real) {
    && p < e <= |s|
    && (forall k :: 0 <= k < p ==> s[k] < v)
    && (forall k :: p <= k < e ==> s[k] == v)
    && (forall k :: e <= k < |s| ==> s[k] > v)
  }

  lemma CountBlock(s: seq<real>, p: nat, e: nat, v: real)
    requires IsBlock(s, p, e, v)
    ensures Total(s, Below(v)) == p && Total(s, Same(v)) == e - p
  {
    TotalThree(s, Below(v), p, e);
    TotalThree(s, Same(v), p, e);
    hide Total;
    TotalAll(s[..p], Below(v));
    TotalNone(s[p..e], Below(v));
    TotalNone(s[e..], Below(v));
    TotalNone(s[..p], Same(v));
    TotalAll(s[p..e], Same(v));
    TotalNone(s[e..], Same(v));
  }

  /** In sorted order, the block of one value says how many values are below it and how many are equal to it. */
  lemma BlockCounts(values: seq<real>, order: seq<nat>, p: nat, e: nat)
    requires IsOrderOf(order, values) && p < e <= |order|
    requires forall k :: p <= k < e ==> values[order[k]] == values[order[p]]
    requires p > 0 ==> values[order[p - 1]] < values[order[p]]
    requires e < |order| ==> values[order[e]] != values[order[p]]
    ensures CountBelow(values, values[order[p]]) == p && CountSame(values, values[order[p]]) == e - p
  {
    hide Total;
    var s, v := Gathered(order, values), values[order[p]];
    assert IsBlock(s, p, e, v) by {
      assert forall k :: 0 <= k < p ==> values[order[k]] <= values[order[p - 1]];
      assert forall k :: e <= k < |order| ==> values[order[e]] <= values[order[k]];
    }
    CountBlock(s, p, e, v);
    TotalPermutation(s, values, Below(v));
    TotalPermutation(s, values, Same(v));
  }

  lemma AverageIsRank(values: seq<real>, order: seq<nat>, p: nat, e: nat)
    requires IsOrderOf(order, values) && p < e <= |order|
    requires forall k :: p <= k < e ==> values[order[k]] == values[order[p]]
    requires p > 0 ==> values[order[p - 1]] < values[order[p]]
    requires e < |order| ==> values[order[e]] != values[order[p]]
    ensures (p + (e - 1)) as real / 2.0 + 1.0 == RankOf(values, values[order[p]])
  {
    hide CountBelow, CountSame;
    BlockCounts(values, order, p, e);
  }

  /** The ranks of the first `k` indices in order are filled in. */
  ghost predicate Filled(ranks: array<real>, values: seq<real>, order: seq<nat>, k: nat)
    requires IsOrderOf(order, values) && ranks.Length == |values|
    reads ranks
  {
    k <= |order| && forall j :: 0 <= j < k ==> ranks[order[j]] == RankOf(values, values[order[j]])
  }

  /** The inner loops of `_ranks`: one block of equal values. */
  method FillBlock(ranks: array<real>, values: seq<real>, order: seq<nat>, position: nat) returns (next: nat)
    requires IsOrderOf(order, values) && ranks.Length == |values| && position < |order|
    requires Filled(ranks, values, order, position)
    requires position > 0 ==> values[order[position - 1]] < values[order[position]]
    modifies ranks
    ensures position < next <= |order| && Filled(ranks, values, order, next)
    ensures next < |order| ==> values[order[next - 1]] < values[order[next]]
  {
    hide RankOf;
    var end := position;
    while end + 1 < |order| && values[order[end + 1]] == values[order[position]]
      invariant position <= end < |order|
      invariant forall k :: position <= k <= end ==> values[order[k]] == values[order[position]]
    {
      end := end + 1;
    }
    var average := (position + end) as real / 2.0 + 1.0;
    AverageIsRank(values, order, position, end + 1);
    var k := position;
    while k <= end
      invariant position <= k <= end + 1 && Filled(ranks, values, order, k)
    {
      ranks[order[k]] := average;
      k := k + 1;
    }
    next := end + 1;
  }

  /** `_ranks` */
  method ComputeRanks(values: seq<real>) returns (ranks: array<real>)
    ensures fresh(ranks) && ranks[..] == RanksOf(values)
  {
    hide RankOf, OrderOf;
    var order := OrderOf(values);
    OrderIsOrder(values);
    ranks := new real[|values|](_ => 0.0);
    var position := 0;
    while position < |order|
      invariant Filled(ranks, values, order, position)
      invariant 0 < position < |order| ==> values[order[position - 1]] < values[order[position]]
    {
      position := FillBlock(ranks, values, order, position);
    }
    forall i | 0 <= i < |values|
      ensures ranks[i] == RankOf(values, values[i])
    {
      assert i in order;
    }
  }

  // ---------------------------------------------------------------- what ranks say

  lemma {:induction false} TotalLess<T(!new)>(s: seq<T>, f: T -> nat, g: T -> nat, h: T -> nat)
    requires forall x :: f(x) + g(x) <= h(x)
    ensures Total(s, f) + Total(s, g) <= Total(s, h)
  {
    if |s| > 0 {
      TotalLess(s[1..], f, g, h);
    }
  }

  lemma {:induction false} CountsItself(values: seq<real>, i: nat)
    requires i < |values|
    ensures CountSame(values, values[i]) >= 1
  {
    TotalWithout(values, i, Same(values[i]));
    hide Total;
  }

  /** Ranks keep the order of the values strictly, and equal values share their rank. */
  lemma RanksKeepOrder(values: seq<real>, i: nat, j: nat)
    requires i < |values| && j < |values|
    ensures RanksOf(values)[i] < RanksOf(values)[j] <==> values[i] < values[j]
    ensures RanksOf(values)[i] == RanksOf(values)[j] <==> values[i] == values[j]
  {
    if values[i] < values[j] {
      RankRises(values, i, j);
    } else if values[j] < values[i] {
      RankRises(values, j, i);
    }
  }

  lemma RankRises(values: seq<real>, i: nat, j: nat)
    requires i < |values| && j < |values| && values[i] < values[j]
    ensures RankOf(values, values[i]) < RankOf(values, values[j])
  {
    hide Total;
    CountsItself(values, i);
    CountsItself(values, j);
    TotalLess(values, Below(values[i]), Same(values[i]), Below(values[j]));
  }

  /** Values in the same order have the same ranks, whatever their sizes. */
  lemma SameOrderSameRanks(a: seq<real>, b: seq<real>)
    requires SameOrder(a, b)
    ensures RanksOf(a) == RanksOf(b)
  {
    forall i | 0 <= i < |a|
      ensures RankOf(a, a[i]) == RankOf(b, b[i])
    {
      SameTotals(a, b, Below(a[i]), Below(b[i]));
      SameTotals(a, b, Same(a[i]), Same(b[i]));
    }
  }

  ghost predicate SameOrder(a: seq<real>, b: seq<real>) {
    |a| == |b| && forall i, j :: 0 <= i < |a| && 0 <= j < |a| ==> (a[i] < a[j] <==> b[i] < b[j])
  }

  lemma {:induction false} SameTotals(a: seq<real>, b: seq<real>, f: real -> nat, g: real -> nat)
    requires |a| == |b| && forall k :: 0 <= k < |a| ==> f(a[k]) == g(b[k])
    ensures Total(a, f) == Total(b, g)
  {
    if |a| > 0 {
      SameTotals(a[1..], b[1..], f, g);
    }
  }

  // ---------------------------------------------------------------- the sum of the ranks

  function Sum(s: seq<real>): real {
    if |s| == 0 then 0.0 else s[0] + Sum(s[1..])
  }

  /** What `w` contributes to the rank of `v`. */
  function Half(v: real, w: real): real {
    if w < v then 1.0 else if w == v then 0.5 else 0.0
  }

  function Halves(values: seq<real>, v: real): real {
    if |values| == 0 then 0.0 else Half(v, values[0]) + Halves(values[1..], v)
  }

  lemma {:induction false} RankIsHalves(values: seq<real>, v: real)
    ensures RankOf(values, v) == Halves(values, v) + 0.5
  {
    if |values| > 0 {
      RankIsHalves(values[1..], v);
    }
  }

  /** The contributions of all of `others` to all of `values`. */
  function AllHalves(values: seq<real>, others: seq<real>): real {
    if |values| == 0 then 0.0 else Halves(others, values[0]) + AllHalves(values[1..], others)
  }

  lemma {:induction false} AllHalvesCons(values: seq<real>, x: real, others: seq<real>)
    ensures AllHalves(values, [x] + others) == AllHalves(values, [x]) + AllHalves(values, others)
  {
    if |values| > 0 {
      AllHalvesCons(values[1..], x, others);
      assert ([x] + others)[1..] == others && [x][1..] == [];
      assert Halves([x], values[0]) == Half(values[0], x);
      assert Halves([x] + others, values[0]) == Half(values[0], x) + Halves(others, values[0]);
    }
  }

  /** Two values contribute one rank to each other, however they compare. */
  lemma {:induction false} HalvesMeet(values: seq<real>, x: real)
    ensures Halves(values, x) + AllHalves(values, [x]) == |values| as real
  {
    if |values| > 0 {
      HalvesMeet(values[1..], x);
      assert [x][1..] == [];
      assert Halves([x], values[0]) == Half(values[0], x);
      assert |values| as real == |values[1..]| as real + 1.0;
    }
  }

  lemma {:induction false} AllHalvesSquare(values: seq<real>)
    ensures AllHalves(values, values) == (|values| * |values|) as real / 2.0
  {
    if |values| > 0 {
      var x, rest := values[0], values[1..];
      AllHalvesSquare(rest);
      assert values == [x] + rest;
      AllHalvesCons(rest, x, rest);
      HalvesMeet(rest, x);
      assert Halves(values, x) == 0.5 + Halves(rest, x);
      SquareStep(|rest|);
    }
  }

  lemma SquareStep(n: nat)
    ensures ((n + 1) * (n + 1)) as real / 2.0 == (n * n) as real / 2.0 + n as real + 0.5
  {
    assert (n + 1) * (n + 1) == n * n + 2 * n + 1;
  }

  lemma {:induction false} SumIsHalves(ranks: seq<real>, values: seq<real>, all: seq<real>)
    requires |ranks| == |values| && forall i :: 0 <= i < |values| ==> ranks[i] == RankOf(all, values[i])
    ensures Sum(ranks) == AllHalves(values, all) + |values| as real / 2.0
  {
    if |values| > 0 {
      SumIsHalves(ranks[1..], values[1..], all);
      RankIsHalves(all, values[0]);
    }
  }

  /** The ranks of `n` values sum to n(n+1)/2, ties or not. */
  lemma RanksSum(values: seq<real>)
    ensures Sum(RanksOf(values)) == (|values| * (|values| + 1)) as real / 2.0
  {
    SumIsHalves(RanksOf(values), values, values);
    AllHalvesSquare(values);
    assert |values| * (|values| + 1) == |values| * |values| + |values|;
  }
}
