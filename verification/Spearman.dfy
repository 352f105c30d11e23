/** The rank correlation before its square root and rounding: the covariance and the two variances of the ranks. */
module Spearman {
  import opened Wrappers
  import opened Totals
  import opened Ranking

  /** Multiplication by name, so that proofs use only the laws they need. */
  function Times(x: real, y: real): real {
    x * y
  }

  /** `cov / (varX * varY) ** 0.5`, kept exact. */
  datatype Correlation = Correlation(cov: real, varX: real, varY: real) {
    /** The value lies between -1 and 1. */
    predicate InRange() {
      varX > 0.0 && varY > 0.0 && Times(cov, cov) <= Times(varX, varY)
    }

    predicate IsOne() {
      cov > 0.0 && Times(cov, cov) == Times(varX, varY)
    }

    predicate IsMinusOne() {
      cov < 0.0 && Times(cov, cov) == Times(varX, varY)
    }
  }

  function Mean(s: seq<real>): real
    requires |s| > 0
  {
    Sum(s) / |s| as real
  }

  function Deviations(s: seq<real>): (r: seq<real>)
    requires |s| > 0
    ensures |r| == |s| && forall i :: 0 <= i < |r| ==> r[i] == s[i] - Mean(s)
  {
    seq(|s|, i requires 0 <= i < |s| => s[i] - Mean(s))
  }

  /** The sum of the products. */
  function Dot(a: seq<real>, b: seq<real>): real
    requires |a| == |b|
  {
    if |a| == 0 then 0.0 else Times(a[0], b[0]) + Dot(a[1..], b[1..])
  }

  function Firsts(pairs: seq<(real, real)>): (r: seq<real>)
    ensures |r| == |pairs| && forall i :: 0 <= i < |r| ==> r[i] == pairs[i].0
  {
    seq(|pairs|, i requires 0 <= i < |pairs| => pairs[i].0)
  }

  function Seconds(pairs: seq<(real, real)>): (r: seq<real>)
    ensures |r| == |pairs| && forall i :: 0 <= i < |r| ==> r[i] == pairs[i].1
  {
    seq(|pairs|, i requires 0 <= i < |pairs| => pairs[i].1)
  }

  function Correlate(xs: seq<real>, ys: seq<real>): Option<Correlation>
    requires |xs| == |ys|
  {
    if |xs| < 2 then None
    else
      var dx, dy := Deviations(RanksOf(xs)), Deviations(RanksOf(ys));
      if Dot(dx, dx) == 0.0 || Dot(dy, dy) == 0.0 then None
      else Some(Correlation(Dot(dx, dy), Dot(dx, dx), Dot(dy, dy)))
  }

  method ComputeSpearman(pairs: seq<(real, real)>) returns (r: Option<Correlation>)
    ensures r == Correlate(Firsts(pairs), Seconds(pairs))
  {
    hide RanksOf, Times;
    if |pairs| < 2 {
      return None;
    }
    var ranksX := ComputeRanks(Firsts(pairs));
    var ranksY := ComputeRanks(Seconds(pairs));
    var dx, dy := Deviations(ranksX[..]), Deviations(ranksY[..]);
    var cov, varX, varY := 0.0, 0.0, 0.0;
    var i := |pairs|;
    while i > 0
      invariant 0 <= i <= |pairs|
      invariant cov == Dot(dx[i..], dy[i..]) && varX == Dot(dx[i..], dx[i..]) && varY == Dot(dy[i..], dy[i..])
    {
      i := i - 1;
      assert dx[i..][1..] == dx[i + 1..] && dy[i..][1..] == dy[i + 1..];
      cov := cov + Times(dx[i], dy[i]);
      varX := varX + Times(dx[i], dx[i]);
      varY := varY + Times(dy[i], dy[i]);
    }
    assert dx[0..] == dx && dy[0..] == dy;
    return if varX == 0.0 || varY == 0.0 then None else Some(Correlation(cov, varX, varY));
  }

  // ---------------------------------------------------------------- Cauchy–Schwarz

  lemma SquareIsNotNegative(x: real)
    ensures Times(x, x) >= 0.0
  {
  }

  lemma PositiveSquare(x: real)
    requires x > 0.0
    ensures Times(x, x) > 0.0
  {
    SquareIsNotNegative(x);
    Cancel(x, x);
    hide Times;
    assert 0.0 / x == 0.0;
  }

  lemma NegatedSquare(x: real)
    ensures Times(-x, -x) == Times(x, x)
  {
  }

  lemma ZeroSquare(x: real)
    requires Times(x, x) <= 0.0
    ensures x == 0.0
  {
    hide Times;
    NegatedSquare(x);
    if x > 0.0 {
      PositiveSquare(x);
    } else if -x > 0.0 {
      PositiveSquare(-x);
    }
  }

  lemma Distribute(x: real, y: real, t: real)
    ensures Times(x + y, t) == Times(x, t) + Times(y, t)
  {
  }

  /** The sum of (a t + b)^2. */
  function Squares(a: seq<real>, b: seq<real>, t: real): (r: real)
    requires |a| == |b|
    ensures r >= 0.0
  {
    if |a| == 0 then 0.0
    else
      var x := Times(a[0], t) + b[0];
      SquareIsNotNegative(x);
      Times(x, x) + Squares(a[1..], b[1..], t)
  }

  lemma BinomialSquare(a: real, b: real, t: real)
    ensures var x := Times(a, t) + b;
      Times(x, x) == Times(Times(a, a), Times(t, t)) + Times(2.0 * Times(a, b), t) + Times(b, b)
  {
    var y := a * t;
    assert (y + b) * (y + b) == y * y + 2.0 * (y * b) + b * b;
    assert y * y == (a * a) * (t * t);
    assert 2.0 * (y * b) == 2.0 * (a * b) * t;
  }

  lemma ZeroTimes(x: real)
    ensures Times(0.0, x) == 0.0
  {
  }

  lemma {:induction false} SquaresExpand(a: seq<real>, b: seq<real>, t: real)
    requires |a| == |b|
    ensures Squares(a, b, t) == Times(Dot(a, a), Times(t, t)) + Times(2.0 * Dot(a, b), t) + Dot(b, b)
  {
    hide Times;
    if |a| == 0 {
      ZeroTimes(t);
      ZeroTimes(Times(t, t));
    } else {
      SquaresExpand(a[1..], b[1..], t);
      BinomialSquare(a[0], b[0], t);
      Distribute(Times(a[0], a[0]), Dot(a[1..], a[1..]), Times(t, t));
      Distribute(2.0 * Times(a[0], b[0]), 2.0 * Dot(a[1..], b[1..]), t);
    }
  }

  lemma {:induction false} DotIsNotNegative(a: seq<real>)
    ensures Dot(a, a) >= 0.0
  {
    hide Times;
    if |a| > 0 {
      SquareIsNotNegative(a[0]);
      DotIsNotNegative(a[1..]);
    }
  }

  lemma {:induction false} DotOfZero(a: seq<real>, b: seq<real>)
    requires |a| == |b| && Dot(a, a) == 0.0
    ensures Dot(a, b) == 0.0 && forall i :: 0 <= i < |a| ==> a[i] == 0.0
  {
    hide Times;
    if |a| > 0 {
      SquareIsNotNegative(a[0]);
      DotIsNotNegative(a[1..]);
      ZeroSquare(a[0]);
      ZeroTimes(b[0]);
      DotOfZero(a[1..], b[1..]);
      forall i | 0 <= i < |a|
        ensures a[i] == 0.0
      {
        if i > 0 {
          assert a[i] == a[1..][i - 1];
        }
      }
    }
  }

  /** Cauchy–Schwarz. */
  lemma CauchySchwarz(a: seq<real>, b: seq<real>)
    requires |a| == |b|
    ensures Times(Dot(a, b), Dot(a, b)) <= Times(Dot(a, a), Dot(b, b))
  {
    hide Dot, Times;
    DotIsNotNegative(a);
    var p, q, c := Dot(a, a), Dot(b, b), Dot(a, b);
    if p == 0.0 {
      DotOfZero(a, b);
      ZeroTimes(q);
      ZeroTimes(0.0);
    } else {
      var t := -c / p;
      SquaresExpand(a, b, t);
      Discriminant(p, c, q, t);
    }
  }

  lemma Discriminant(p: real, c: real, q: real, t: real)
    requires p > 0.0 && t == -c / p && Times(p, Times(t, t)) + Times(2.0 * c, t) + q >= 0.0
    ensures Times(c, c) <= Times(p, q)
  {
    assert p * t == -c;
    assert p * (t * t) == p * t * t == -c * t;
    assert q - -(c * t) >= 0.0;
    assert p * (c * t + q) >= 0.0;
    assert p * (c * t + q) == c * (p * t) + p * q;
  }

  // ---------------------------------------------------------------- the coefficient

  /** The coefficient always lies between -1 and 1. */
  lemma CorrelationIsInRange(xs: seq<real>, ys: seq<real>)
    requires |xs| == |ys|
    ensures Correlate(xs, ys).Some? ==> Correlate(xs, ys).value.InRange()
  {
    if |xs| >= 2 {
      var dx, dy := Deviations(RanksOf(xs)), Deviations(RanksOf(ys));
      hide RanksOf, Deviations, Dot, Times;
      CauchySchwarz(dx, dy);
      DotIsNotNegative(dx);
      DotIsNotNegative(dy);
    }
  }

  ghost predicate Constant(values: seq<real>) {
    forall i, j :: 0 <= i < |values| && 0 <= j < |values| ==> values[i] == values[j]
  }

  lemma {:induction false} SumOfConstant(s: seq<real>, c: real)
    requires forall i :: 0 <= i < |s| ==> s[i] == c
    ensures Sum(s) == Times(|s| as real, c)
  {
    if |s| > 0 {
      SumOfConstant(s[1..], c);
      assert |s| as real == |s[1..]| as real + 1.0;
    }
  }

  lemma {:induction false} DotOfZeros(a: seq<real>)
    requires forall i :: 0 <= i < |a| ==> a[i] == 0.0
    ensures Dot(a, a) == 0.0
  {
    hide Times;
    ZeroTimes(0.0);
    if |a| > 0 {
      DotOfZeros(a[1..]);
    }
  }

  lemma NoVarianceIff(values: seq<real>)
    requires |values| > 0
    ensures Dot(Deviations(RanksOf(values)), Deviations(RanksOf(values))) == 0.0 <==> Constant(values)
  {
    var ranks := RanksOf(values);
    var d := Deviations(ranks);
    forall i, j | 0 <= i < |values| && 0 <= j < |values|
      ensures ranks[i] == ranks[j] <==> values[i] == values[j]
    {
      RanksKeepOrder(values, i, j);
    }
    hide RanksOf, Dot, Times;
    if Dot(d, d) == 0.0 {
      DotOfZero(d, d);
      assert forall i :: 0 <= i < |values| ==> ranks[i] == Mean(ranks) + d[i];
    }
    if Constant(values) {
      SumOfConstant(ranks, ranks[0]);
      MeanOfConstant(ranks);
      DotOfZeros(d);
    }
  }

  lemma MeanOfConstant(s: seq<real>)
    requires |s| > 0 && Sum(s) == Times(|s| as real, s[0])
    ensures Mean(s) == s[0]
  {
    hide Sum;
    Cancel(s[0], |s| as real);
  }

  lemma Cancel(k: real, n: real)
    requires n > 0.0
    ensures Times(n, k) / n == k
  {
  }

  /** There is no coefficient exactly for fewer than two pairs or a constant side. */
  lemma UndefinedIff(xs: seq<real>, ys: seq<real>)
    requires |xs| == |ys|
    ensures Correlate(xs, ys).None? <==> |xs| < 2 || Constant(xs) || Constant(ys)
  {
    if |xs| >= 2 {
      NoVarianceIff(xs);
      NoVarianceIff(ys);
      hide RanksOf, Dot, Deviations, Constant, Times;
    }
  }

  /** The coefficient is 1 when both sides are in the same order, ties included. */
  lemma SameOrderIsOne(xs: seq<real>, ys: seq<real>)
    requires SameOrder(xs, ys) && Correlate(xs, ys).Some?
    ensures Correlate(xs, ys).value.IsOne()
  {
    hide RanksOf, Dot, Deviations, Times;
    SameOrderSameRanks(xs, ys);
    DotIsNotNegative(Deviations(RanksOf(xs)));
  }

  /** Only the order of the values counts: increasing maps of either side change nothing. */
  lemma OnlyOrderCounts(xs: seq<real>, ys: seq<real>, xs': seq<real>, ys': seq<real>)
    requires |xs| == |ys| && SameOrder(xs, xs') && SameOrder(ys, ys')
    ensures Correlate(xs, ys) == Correlate(xs', ys')
  {
    SameOrderSameRanks(xs, xs');
    SameOrderSameRanks(ys, ys');
  }

  lemma {:induction false} DotCommutes(a: seq<real>, b: seq<real>)
    requires |a| == |b|
    ensures Dot(a, b) == Dot(b, a)
  {
    if |a| > 0 {
      DotCommutes(a[1..], b[1..]);
    }
  }

  /** Exchanging the sides exchanges the variances and keeps the covariance. */
  lemma CorrelationIsSymmetric(xs: seq<real>, ys: seq<real>)
    requires |xs| == |ys|
    ensures Correlate(xs, ys).Some? <==> Correlate(ys, xs).Some?
    ensures Correlate(xs, ys).Some? ==>
              var (a, b) := (Correlate(xs, ys).value, Correlate(ys, xs).value);
              a.cov == b.cov && a.varX == b.varY && a.varY == b.varX
  {
    if |xs| >= 2 {
      DotCommutes(Deviations(RanksOf(xs)), Deviations(RanksOf(ys)));
    }
  }

  // ---------------------------------------------------------------- opposite order

  ghost predicate OppositeOrder(a: seq<real>, b: seq<real>) {
    |a| == |b| && forall i, j :: 0 <= i < |a| && 0 <= j < |a| ==> (a[i] < a[j] <==> b[j] < b[i])
  }

  /** In the opposite order every rank is counted from the other end. */
  lemma OppositeRanks(a: seq<real>, b: seq<real>, i: nat)
    requires OppositeOrder(a, b) && i < |a|
    ensures RanksOf(b)[i] == |a| as real + 1.0 - RanksOf(a)[i]
  {
    SameTotals(b, a, Below(b[i]), Above(a[i]));
    SameTotals(b, a, Same(b[i]), Same(a[i]));
    CountsAddUp(a, a[i]);
    hide Total;
  }

  function Above(v: real): real -> nat {
    x => if x > v then 1 else 0
  }

  lemma {:induction false} CountsAddUp(values: seq<real>, v: real)
    ensures Total(values, Below(v)) + Total(values, Same(v)) + Total(values, Above(v)) == |values|
  {
    if |values| > 0 {
      CountsAddUp(values[1..], v);
    }
  }

  lemma {:induction false} SumOfOpposites(a: seq<real>, b: seq<real>, c: real)
    requires |a| == |b| && forall i :: 0 <= i < |a| ==> b[i] == c - a[i]
    ensures Sum(b) == Times(|a| as real, c) - Sum(a)
  {
    if |a| > 0 {
      SumOfOpposites(a[1..], b[1..], c);
      assert |a| as real == |a[1..]| as real + 1.0;
    }
  }

  lemma {:induction false} DotOfOpposites(a: seq<real>, b: seq<real>)
    requires |a| == |b| && forall i :: 0 <= i < |a| ==> b[i] == -a[i]
    ensures Dot(a, b) == -Dot(a, a) && Dot(b, b) == Dot(a, a)
  {
    hide Times;
    if |a| > 0 {
      DotOfOpposites(a[1..], b[1..]);
      NegatedSquare(a[0]);
      NegatedFactor(a[0]);
    }
  }

  lemma NegatedFactor(x: real)
    ensures Times(x, -x) == -Times(x, x)
  {
  }

  /** The mean of the opposites is the opposite of the mean. */
  lemma OppositeMeans(n: real, sum: real, c: real)
    requires n > 0.0
    ensures (Times(n, c) - sum) / n == c - sum / n
  {
    var m := sum / n;
    assert n * (c - m) == n * c - n * m;
    Cancel(c - m, n);
  }

  /** The coefficient is -1 when the sides are in opposite order. */
  lemma OppositeOrderIsMinusOne(xs: seq<real>, ys: seq<real>)
    requires OppositeOrder(xs, ys) && Correlate(xs, ys).Some?
    ensures Correlate(xs, ys).value.IsMinusOne()
  {
    var c := |xs| as real + 1.0;
    var rx, ry := RanksOf(xs), RanksOf(ys);
    forall i | 0 <= i < |xs|
      ensures ry[i] == c - rx[i]
    {
      OppositeRanks(xs, ys, i);
    }
    hide RanksOf, Times, Dot, Sum;
    SumOfOpposites(rx, ry, c);
    OppositeMeans(|rx| as real, Sum(rx), c);
    DotOfOpposites(Deviations(rx), Deviations(ry));
    DotIsNotNegative(Deviations(rx));
    var v := Dot(Deviations(rx), Deviations(rx));
    NegatedSquare(v);
  }
}
