/** What the turns and the pairs are, said of positions in the list of rows. */
module TurnPairs {
  import opened Wrappers
  import opened Turns

  // ---------------------------------------------------------------- positions

  ghost predicate Increasing(s: seq<nat>) {
    forall a, b :: 0 <= a < b < |s| ==> s[a] < s[b]
  }

  /** The positions below `n` with a property, in order. */
  ghost function Where(n: nat, p: nat -> bool): (r: seq<nat>)
    ensures Increasing(r) && (forall i :: i in r <==> 0 <= i < n && p(i)) && forall k :: 0 <= k < |r| ==> r[k] < n && p(r[k])
  {
    if n == 0 then [] else Where(n - 1, p) + if p(n - 1) then [n - 1] else []
  }

  /** The rows at these positions. */
  ghost function At(rows: seq<Row>, places: seq<nat>): (r: seq<Row>)
    requires forall k :: 0 <= k < |places| ==> places[k] < |rows|
    ensures |r| == |places| && forall k :: 0 <= k < |r| ==> r[k] == rows[places[k]]
  {
    seq(|places|, k requires 0 <= k < |places| => rows[places[k]])
  }

  /** A list of positions in order is determined by its members. */
  lemma {:induction false} SamePlaces(a: seq<nat>, b: seq<nat>)
    requires Increasing(a) && Increasing(b) && forall i: nat :: i in a <==> i in b
    ensures a == b
  {
    if |a| == 0 {
      if |b| > 0 {
        LastIsLast(a, b);
      }
    } else {
      LastIsLast(b, a);
      LastIsLast(a, b);
      var x, y := a[|a| - 1], b[|b| - 1];
      var front, front' := a[..|a| - 1], b[..|b| - 1];
      assert x == y;
      forall i: nat
        ensures i in front <==> i in a && i != x
        ensures i in front' <==> i in b && i != x
      {
        InFront(a, i);
        InFront(b, i);
      }
      SamePlaces(front, front');
      assert a == front + [x] && b == front' + [x];
    }
  }

  lemma LastIsLast(a: seq<nat>, b: seq<nat>)
    requires |b| > 0 && Increasing(a) && forall i :: i in b ==> i in a
    ensures |a| > 0 && b[|b| - 1] <= a[|a| - 1]
  {
    assert b[|b| - 1] in a;
  }

  lemma InFront(a: seq<nat>, i: nat)
    requires Increasing(a) && |a| > 0
    ensures i in a[..|a| - 1] <==> i in a && i != a[|a| - 1]
  {
    assert a == a[..|a| - 1] + [a[|a| - 1]];
  }

  lemma SameWhere(n: nat, p: nat -> bool, q: nat -> bool)
    requires forall i :: 0 <= i < n ==> (p(i) <==> q(i))
    ensures Where(n, p) == Where(n, q)
  {
    SamePlaces(Where(n, p), Where(n, q));
  }

  // ---------------------------------------------------------------- the turn of a row

  ghost function Opening(rows: seq<Row>, session: string): nat -> bool {
    (j: nat) => j < |rows| && OpensTurn(rows[j]) && rows[j].session == session
  }

  /** The turn of a row: its own number, or how many rows of its session up to it open a turn, or none. */
  ghost function KeyAt(rows: seq<Row>, i: nat): Option<Key>
    requires i < |rows|
  {
    var r := rows[i];
    if r.turn.Some? then Some(Key(r.session, r.turn.value))
    else
      var count := |Where(i + 1, Opening(rows, r.session))|;
      if count == 0 then None else Some(Key(r.session, count))
  }

  lemma {:induction false} UsersAre(rows: seq<Row>, session: string, n: nat)
    requires n <= |rows|
    ensures UsersOf(rows[..n], session) == |Where(n, Opening(rows, session))|
  {
    hide OpensTurn;
    if n > 0 {
      UsersAre(rows, session, n - 1);
      assert rows[..n][..n - 1] == rows[..n - 1];
    }
  }

  lemma KeyIs(rows: seq<Row>, i: nat)
    requires i < |rows|
    ensures LastKey(rows[..i + 1]) == KeyAt(rows, i)
  {
    hide UsersOf;
    UsersAre(rows, rows[i].session, i + 1);
  }

  ghost function InTurn(rows: seq<Row>, key: Key): nat -> bool {
    (i: nat) => i < |rows| && KeyAt(rows, i) == Some(key)
  }

  ghost function Places(rows: seq<Row>, key: Key): (r: seq<nat>)
    ensures forall i :: i in r <==> 0 <= i < |rows| && KeyAt(rows, i) == Some(key)
    ensures forall k :: 0 <= k < |r| ==> r[k] < |rows|
  {
    Where(|rows|, InTurn(rows, key))
  }

  lemma AtPush(rows: seq<Row>, places: seq<nat>, i: nat)
    requires i < |rows| && forall k :: 0 <= k < |places| ==> places[k] < |rows|
    ensures At(rows, places + [i]) == At(rows, places) + [rows[i]]
  {
  }

  lemma {:induction false} RowsAre(rows: seq<Row>, key: Key, n: nat)
    requires n <= |rows|
    ensures RowsOf(rows[..n], key) == At(rows, Where(n, InTurn(rows, key)))
  {
    hide KeyAt, LastKey, At;
    if n > 0 {
      RowsAre(rows, key, n - 1);
      KeyIs(rows, n - 1);
      assert rows[..n][..n - 1] == rows[..n - 1];
      AtPush(rows, Where(n - 1, InTurn(rows, key)), n - 1);
    }
  }

  /** The first row of the turn. */
  ghost predicate IsFirst(rows: seq<Row>, i: int, key: Key) {
    0 <= i < |rows| && KeyAt(rows, i) == Some(key) && forall j :: 0 <= j < i ==> KeyAt(rows, j) != Some(key)
  }

  /** The turn has a row among the first `n`. */
  ghost predicate Begun(rows: seq<Row>, n: nat, key: Key) {
    exists i :: 0 <= i < n && IsFirst(rows, i, key)
  }

  lemma {:induction false} KeysAre(rows: seq<Row>, n: nat)
    requires n <= |rows|
    ensures var keys := KeysOf(rows[..n]);
      && (forall i :: 0 <= i < n && KeyAt(rows, i).Some? ==> KeyAt(rows, i).value in keys)
      && (forall key :: key in keys ==> Begun(rows, n, key))
      && (forall a, b, i, j :: 0 <= a < b < |keys| && IsFirst(rows, i, keys[a]) && IsFirst(rows, j, keys[b]) ==> i < j)
  {
    hide KeyAt, LastKey, IsFirst;
    if n > 0 {
      KeysAre(rows, n - 1);
      KeyIs(rows, n - 1);
      assert rows[..n][..n - 1] == rows[..n - 1];
      var keys, before := KeysOf(rows[..n]), KeysOf(rows[..n - 1]);
      if keys != before {
        NewKey(rows, n - 1, before);
      }
    }
  }

  lemma NewKey(rows: seq<Row>, n: nat, before: seq<Key>)
    requires n < |rows| && KeyAt(rows, n).Some? && KeyAt(rows, n).value !in before
    requires forall i :: 0 <= i < n && KeyAt(rows, i).Some? ==> KeyAt(rows, i).value in before
    requires forall key :: key in before ==> Begun(rows, n, key)
    ensures IsFirst(rows, n, KeyAt(rows, n).value) && Begun(rows, n + 1, KeyAt(rows, n).value)
    ensures forall key, i :: key in before && IsFirst(rows, i, key) ==> i < n
    ensures forall i :: IsFirst(rows, i, KeyAt(rows, n).value) ==> i == n
  {
    hide KeyAt;
    assert IsFirst(rows, n, KeyAt(rows, n).value);
  }

  /** The first row of these that opens a turn. */
  ghost predicate IsOpener(rows: seq<Row>, user: Option<Row>) {
    if user.None? then forall m :: 0 <= m < |rows| ==> !OpensTurn(rows[m])
    else exists m :: 0 <= m < |rows| && user.value == rows[m] && OpensFirst(rows, m)
  }

  ghost predicate OpensFirst(rows: seq<Row>, m: nat)
    requires m < |rows|
  {
    OpensTurn(rows[m]) && forall k :: 0 <= k < m ==> !OpensTurn(rows[k])
  }

  lemma {:induction false} UserIs(rows: seq<Row>)
    ensures IsOpener(rows, UserRow(rows))
  {
    hide OpensTurn;
    if |rows| > 0 {
      var front, last := rows[..|rows| - 1], |rows| - 1;
      UserIs(front);
      if UserRow(front).Some? {
        var m :| 0 <= m < |front| && UserRow(front).value == front[m] && OpensFirst(front, m);
        assert OpensFirst(rows, m);
      } else if OpensTurn(rows[last]) {
        assert OpensFirst(rows, last);
      }
    }
  }

  /** The turns are those some row has, in the order of their first rows; each holds exactly its rows, in order, and the
      first of them that opens a turn. */
  lemma TurnsAre(rows: seq<Row>)
    ensures var turns := TurnsOf(rows);
      && (forall i :: 0 <= i < |rows| && KeyAt(rows, i).Some? ==>
            exists k :: 0 <= k < |turns| && turns[k].key == KeyAt(rows, i).value)
      && (forall k :: 0 <= k < |turns| ==>
            && Begun(rows, |rows|, turns[k].key)
            && turns[k].rows == At(rows, Places(rows, turns[k].key))
            && IsOpener(turns[k].rows, turns[k].user))
      && (forall a, b, i, j :: 0 <= a < b < |turns| && IsFirst(rows, i, turns[a].key) && IsFirst(rows, j, turns[b].key) ==>
            i < j)
  {
    hide KeysOf, KeyAt, IsFirst, Begun, IsOpener, Places, RowsOf, UserRow, At;
    var keys, turns := KeysOf(rows), TurnsOf(rows);
    assert rows[..|rows|] == rows;
    KeysAre(rows, |rows|);
    forall i | 0 <= i < |rows| && KeyAt(rows, i).Some?
      ensures exists k :: 0 <= k < |turns| && turns[k].key == KeyAt(rows, i).value
    {
      var k :| 0 <= k < |keys| && keys[k] == KeyAt(rows, i).value;
      assert turns[k].key == keys[k];
    }
    forall k | 0 <= k < |turns|
      ensures Begun(rows, |rows|, turns[k].key) && turns[k].rows == At(rows, Places(rows, turns[k].key))
      ensures IsOpener(turns[k].rows, turns[k].user)
    {
      RowsOfTurn(rows, keys[k]);
      UserIs(RowsOf(rows, keys[k]));
    }
  }

  lemma RowsOfTurn(rows: seq<Row>, key: Key)
    ensures RowsOf(rows, key) == At(rows, Places(rows, key))
  {
    hide RowsOf, At;
    assert rows[..|rows|] == rows;
    RowsAre(rows, key, |rows|);
  }

  // ---------------------------------------------------------------- the pairs of tool calls

  /** A start of the call that waits for its end before position `n`: no end of the call has come since, and it is the first
      start of the call since the last end of it. */
  ghost predicate IsOpenTool(rows: seq<Row>, i: int, n: int, id: string) {
    && 0 <= i < n <= |rows| && StartsAt(rows, i, id)
    && (forall k :: i < k < n ==> !EndsAt(rows, k, id))
    && forall k :: 0 <= k < i && StartsAt(rows, k, id) ==> EndsBetween(rows, k, i)
  }

  ghost predicate IsToolPair(rows: seq<Row>, i: int, e: int) {
    0 <= i < e < |rows| && rows[e].kind.ToolEnd? && IsOpenTool(rows, i, e, rows[e].id)
  }

  lemma OneOpenTool(rows: seq<Row>, i: int, j: int, n: int, id: string)
    requires IsOpenTool(rows, i, n, id) && IsOpenTool(rows, j, n, id)
    ensures i == j
  {
  }

  /** The open starts by id are the starts that wait. */
  ghost predicate OpenToolsAre(rows: seq<Row>, n: nat, open: map<string, Row>) {
    && (forall i, id :: IsOpenTool(rows, i, n, id) ==> i < |rows| && id in open && open[id] == rows[i])
    && (forall id :: id in open ==> exists i :: IsOpenTool(rows, i, n, id))
  }

  lemma {:induction false} OpenTools(rows: seq<Row>, n: nat)
    requires n <= |rows|
    ensures OpenToolsAre(rows, n, PairTools(rows[..n]).open)
    decreases n
  {
    if n > 0 {
      OpenTools(rows, n - 1);
      assert rows[..n][..n - 1] == rows[..n - 1];
      OpenToolStep(rows, n - 1);
    }
  }

  lemma OpenToolStep(rows: seq<Row>, n: nat)
    requires n < |rows| && OpenToolsAre(rows, n, PairTools(rows[..n]).open)
    ensures OpenToolsAre(rows, n + 1, ToolStep(PairTools(rows[..n]), rows[n]).open)
  {
    hide IsOpenTool, PairTools;
    var m, p, q, last := n + 1, PairTools(rows[..n]), ToolStep(PairTools(rows[..n]), rows[n]), rows[n];
    forall i, id
      ensures IsOpenTool(rows, i, m, id)
         <==> (i == n && last.kind.ToolStart? && last.id == id && id !in p.open)
              || (i < n && IsOpenTool(rows, i, n, id) && !(last.kind.ToolEnd? && last.id == id))
    {
      if i == n {
        StartWaits(rows, n, id);
      } else {
        WaitsLonger(rows, i, n, id);
      }
    }
    WaitsBefore(rows, n);
    forall id | id in q.open
      ensures exists i :: IsOpenTool(rows, i, m, id)
    {
      if id in p.open {
        var i :| IsOpenTool(rows, i, n, id);
        assert IsOpenTool(rows, i, m, id);
      } else {
        assert IsOpenTool(rows, n, m, id);
      }
    }
  }

  lemma WaitsLonger(rows: seq<Row>, i: int, n: nat, id: string)
    requires n < |rows| && i != n
    ensures IsOpenTool(rows, i, n + 1, id) <==> i < n && IsOpenTool(rows, i, n, id) && !EndsAt(rows, n, id)
  {
  }

  lemma WaitsBefore(rows: seq<Row>, n: nat)
    ensures forall i, id :: IsOpenTool(rows, i, n, id) ==> i < n
  {
  }

  lemma StartWaits(rows: seq<Row>, n: nat, id: string)
    requires n < |rows|
    ensures IsOpenTool(rows, n, n + 1, id) <==> rows[n].kind.ToolStart? && rows[n].id == id && id !in PairTools(rows[..n]).open
  {
    hide PairTools;
    var front := rows[..n];
    OpenIff(front, id);
    assert forall k :: 0 <= k < n ==> (EndsAt(rows, k, id) <==> EndsAt(front, k, id));
    assert forall i :: 0 <= i < n ==> (StartsAt(rows, i, id) <==> StartsAt(front, i, id));
    forall i | 0 <= i < n && StartsAt(rows, i, id)
      ensures EndsBetween(rows, i, n) <==> !StartedLast(front, i, id)
    {
    }
  }

  /** These pairs, in the order of these ends. */
  ghost predicate PairsAre(rows: seq<Row>, pairs: seq<Pair>, ends: seq<nat>, together: (int, int) -> bool) {
    |pairs| == |ends| && forall k :: 0 <= k < |pairs| ==> IsPairOf(rows, pairs[k], ends[k], together)
  }

  ghost predicate IsPairOf(rows: seq<Row>, p: Pair, e: nat, together: (int, int) -> bool) {
    exists i :: 0 <= i < |rows| && e < |rows| && together(i, e) && p == Pair(rows[i], rows[e])
  }

  ghost function ToolsMeet(rows: seq<Row>): (int, int) -> bool {
    (i: int, e: int) => IsToolPair(rows, i, e)
  }

  /** The ends that meet some start. */
  ghost function Met(together: (int, int) -> bool): nat -> bool {
    (e: nat) => exists i :: together(i, e)
  }

  lemma PairsPush(rows: seq<Row>, pairs: seq<Pair>, n: nat, together: (int, int) -> bool, i: int)
    requires 0 <= i < |rows| && n < |rows| && together(i, n) && PairsAre(rows, pairs, Where(n, Met(together)), together)
    ensures PairsAre(rows, pairs + [Pair(rows[i], rows[n])], Where(n + 1, Met(together)), together)
  {
    assert IsPairOf(rows, Pair(rows[i], rows[n]), n, together);
    hide IsPairOf;
  }

  lemma PairsStay(n: nat, together: (int, int) -> bool)
    requires forall i :: !together(i, n)
    ensures Where(n + 1, Met(together)) == Where(n, Met(together))
  {
  }

  /** Tool calls are paired exactly as said: the pairs are, in the order of the ends, the ends that meet a start, each
      with that start, and the open starts are those that wait at the end of the list. */
  lemma {:induction false} ToolPairsAre(rows: seq<Row>, n: nat)
    requires n <= |rows|
    ensures PairsAre(rows, PairTools(rows[..n]).pairs, Where(n, Met(ToolsMeet(rows))), ToolsMeet(rows))
    ensures OpenToolsAre(rows, n, PairTools(rows[..n]).open)
    decreases n
  {
    hide PairsAre, Where, Met, IsOpenTool;
    OpenTools(rows, n);
    if n == 0 {
      NoPairs(rows, ToolsMeet(rows));
    } else {
      ToolPairsAre(rows, n - 1);
      assert rows[..n][..n - 1] == rows[..n - 1];
      var p, last := PairTools(rows[..n - 1]), rows[n - 1];
      WaitsBefore(rows, n - 1);
      if last.kind.ToolEnd? && last.id in p.open {
        var i :| IsOpenTool(rows, i, n - 1, last.id);
        OpenIsThere(rows, i, n - 1, last.id);
        PairsPush(rows, p.pairs, n - 1, ToolsMeet(rows), i);
      } else {
        PairsStay(n - 1, ToolsMeet(rows));
      }
    }
  }

  lemma NoPairs(rows: seq<Row>, together: (int, int) -> bool)
    ensures PairsAre(rows, [], Where(0, Met(together)), together)
  {
  }

  lemma OpenIsThere(rows: seq<Row>, i: int, n: int, id: string)
    requires IsOpenTool(rows, i, n, id)
    ensures 0 <= i < n
  {
  }

  // ---------------------------------------------------------------- the pairs of steps

  /** A start that no end before position `n` has taken. */
  ghost predicate IsOpenStep(rows: seq<Row>, i: int, n: int)
    decreases n, 0
  {
    && 0 <= i < n <= |rows| && rows[i].kind.StepStart?
    && forall e :: i < e < n ==> !IsStepPair(rows, i, e)
  }

  /** An end takes the last open start of its step, and when there is none the last open start. */
  ghost predicate IsStepPair(rows: seq<Row>, i: int, e: int)
    decreases e, 1
  {
    && 0 <= i < e < |rows| && rows[e].kind.StepEnd? && IsOpenStep(rows, i, e)
    && forall j :: 0 <= j < e && IsOpenStep(rows, j, e) ==> j == i || Prefers(rows[e].step, rows[i].step, i, rows[j].step, j)
  }

  /** For an end of this step the one open start comes before the other. */
  predicate Prefers(step: Option<int>, a: Option<int>, i: int, b: Option<int>, j: int) {
    if a == step then b != step || j < i else b != step && j < i
  }

  ghost function StepsMeet(rows: seq<Row>): (int, int) -> bool {
    (i: int, e: int) => IsStepPair(rows, i, e)
  }

  ghost function OpenSteps(rows: seq<Row>, n: nat): nat -> bool {
    (i: nat) => IsOpenStep(rows, i, n)
  }

  /** The open starts, in order. */
  ghost predicate OpenStepsAre(rows: seq<Row>, n: nat, open: seq<Row>)
    requires n <= |rows|
  {
    open == At(rows, Where(n, OpenSteps(rows, n)))
  }

  lemma StillOpen(rows: seq<Row>, i: int, n: nat)
    requires n < |rows|
    ensures var m := n + 1;
      IsOpenStep(rows, i, m)
      <==> (i == n && rows[n].kind.StepStart?) || (i < n && IsOpenStep(rows, i, n) && !IsStepPair(rows, i, n))
  {
    hide IsStepPair;
  }

  lemma InRest(w: seq<nat>, k: nat, i: nat)
    requires Increasing(w) && k < |w|
    ensures i in w[..k] + w[k + 1..] <==> i in w && i != w[k]
  {
    assert w == w[..k] + [w[k]] + w[k + 1..];
  }

  lemma RestIncreases(w: seq<nat>, k: nat)
    requires Increasing(w) && k < |w|
    ensures Increasing(w[..k] + w[k + 1..])
  {
  }

  /** One open start less. */
  lemma StartTaken(rows: seq<Row>, n: nat, k: nat)
    requires var w := Where(n, OpenSteps(rows, n));
      && n < |rows| && rows[n].kind.StepEnd? && k < |w| && forall i :: IsStepPair(rows, i, n) <==> i == w[k]
    ensures var w := Where(n, OpenSteps(rows, n)); Where(n + 1, OpenSteps(rows, n + 1)) == w[..k] + w[k + 1..]
  {
    var w := Where(n, OpenSteps(rows, n));
    hide Where, IsOpenStep, IsStepPair;
    RestIncreases(w, k);
    var v := Where(n + 1, OpenSteps(rows, n + 1));
    forall i: nat
      ensures i in v <==> i in w[..k] + w[k + 1..]
    {
      InRest(w, k, i);
      StillOpen(rows, i, n);
    }
    SamePlaces(v, w[..k] + w[k + 1..]);
  }

  /** A start is one open start more, any other row that takes none changes nothing. */
  lemma NoneTaken(rows: seq<Row>, n: nat)
    requires n < |rows| && forall i :: !IsStepPair(rows, i, n)
    ensures Where(n + 1, OpenSteps(rows, n + 1))
         == Where(n, OpenSteps(rows, n)) + if rows[n].kind.StepStart? then [n] else []
  {
    hide IsOpenStep, IsStepPair;
    StillOpen(rows, n, n);
    var p, q := OpenSteps(rows, n + 1), OpenSteps(rows, n);
    forall i: nat | i < n
      ensures p(i) <==> q(i)
    {
      StillOpen(rows, i, n);
    }
    SameWhere(n, p, q);
  }

  /** The start an end takes is the one the search finds. */
  lemma FoundIsPair(rows: seq<Row>, n: nat, k: nat)
    requires n < |rows| && rows[n].kind.StepEnd?
    requires var w := Where(n, OpenSteps(rows, n)); MatchFor(At(rows, w), rows[n]) == Some(k)
    ensures var w := Where(n, OpenSteps(rows, n));
      && k < |w| && forall i :: IsStepPair(rows, i, n) <==> i == w[k]
  {
    var w := Where(n, OpenSteps(rows, n));
    var open := At(rows, w);
    hide Where, IsOpenStep, MatchFor;
    MatchIs(open, rows[n], k);
    forall j | 0 <= j < |w|
      ensures j != k ==> Prefers(rows[n].step, rows[w[k]].step, w[k], rows[w[j]].step, w[j])
    {
    }
    assert w[k] in w;
    forall j | 0 <= j < n && IsOpenStep(rows, j, n)
      ensures j == w[k] || Prefers(rows[n].step, rows[w[k]].step, w[k], rows[j].step, j)
    {
      assert OpenSteps(rows, n)(j);
      assert j in w;
      var x :| 0 <= x < |w| && w[x] == j;
    }
  }

  lemma MatchIs(open: seq<Row>, r: Row, k: nat)
    requires MatchFor(open, r) == Some(k)
    ensures k < |open|
    ensures forall j :: 0 <= j < |open| && j != k ==> Prefers(r.step, open[k].step, k, open[j].step, j)
  {
  }

  lemma EndTakesStart(rows: seq<Row>, m: nat, p: Pairing, k: nat)
    requires m < |rows| && OpenStepsAre(rows, m, p.open)
    requires PairsAre(rows, p.pairs, Where(m, Met(StepsMeet(rows))), StepsMeet(rows))
    requires rows[m].kind.StepEnd? && MatchFor(p.open, rows[m]) == Some(k)
    ensures k < |p.open| && OpenStepsAre(rows, m + 1, p.open[..k] + p.open[k + 1..])
    ensures PairsAre(rows, p.pairs + [Pair(p.open[k], rows[m])], Where(m + 1, Met(StepsMeet(rows))), StepsMeet(rows))
  {
    hide PairsAre, Where, Met, IsOpenStep, IsStepPair, MatchFor, At, OpenSteps;
    var w := Where(m, OpenSteps(rows, m));
    FoundIsPair(rows, m, k);
    StartTaken(rows, m, k);
    AtWithout(rows, w, k);
    PairsPush(rows, p.pairs, m, StepsMeet(rows), w[k]);
  }

  /** What the next row does to pairs and open starts. */
  lemma StepPairsStep(rows: seq<Row>, m: nat, p: Pairing)
    requires m < |rows| && OpenStepsAre(rows, m, p.open)
    requires PairsAre(rows, p.pairs, Where(m, Met(StepsMeet(rows))), StepsMeet(rows))
    ensures var q := PairStep(p, rows[m]);
      && OpenStepsAre(rows, m + 1, q.open)
      && PairsAre(rows, q.pairs, Where(m + 1, Met(StepsMeet(rows))), StepsMeet(rows))
  {
    hide PairsAre, Where, Met, IsOpenStep, IsStepPair, MatchFor, At;
    var r, w := rows[m], Where(m, OpenSteps(rows, m));
    if r.kind.StepEnd? && MatchFor(p.open, r).Some? {
      EndTakesStart(rows, m, p, MatchFor(p.open, r).value);
    } else {
      NoneMeets(rows, m);
      NoneTaken(rows, m);
      PairsStay(m, StepsMeet(rows));
      if r.kind.StepStart? {
        AtPush(rows, w, m);
      } else {
        assert w + [] == w;
      }
    }
  }

  lemma NoSteps(rows: seq<Row>)
    ensures PairSteps(rows[..0]) == Pairing([], []) && OpenStepsAre(rows, 0, [])
    ensures PairsAre(rows, [], Where(0, Met(StepsMeet(rows))), StepsMeet(rows))
  {
    hide IsStepPair, IsOpenStep;
    NoPairs(rows, StepsMeet(rows));
  }

  /** Steps are paired exactly as said, in the order of the ends, and the open starts are those no end has taken. */
  lemma {:induction false} StepPairsAre(rows: seq<Row>, n: nat)
    requires n <= |rows|
    ensures PairsAre(rows, PairSteps(rows[..n]).pairs, Where(n, Met(StepsMeet(rows))), StepsMeet(rows))
    ensures OpenStepsAre(rows, n, PairSteps(rows[..n]).open)
    decreases n
  {
    hide PairsAre, OpenStepsAre, Where, Met, PairStep, OpenSteps, StepsMeet;
    if n == 0 {
      NoSteps(rows);
    } else {
      StepPairsAre(rows, n - 1);
      assert rows[..n][..n - 1] == rows[..n - 1];
      StepPairsStep(rows, n - 1, PairSteps(rows[..n - 1]));
    }
  }

  lemma AtWithout(rows: seq<Row>, places: seq<nat>, k: nat)
    requires k < |places| && forall j :: 0 <= j < |places| ==> places[j] < |rows|
    ensures At(rows, places)[k] == rows[places[k]]
    ensures At(rows, places[..k] + places[k + 1..]) == At(rows, places)[..k] + At(rows, places)[k + 1..]
  {
  }

  lemma NoneMeets(rows: seq<Row>, n: nat)
    requires n < |rows|
    requires rows[n].kind.StepEnd? ==> MatchFor(At(rows, Where(n, OpenSteps(rows, n))), rows[n]).None?
    ensures forall i :: !IsStepPair(rows, i, n)
  {
    hide IsOpenStep;
    var w := Where(n, OpenSteps(rows, n));
    if rows[n].kind.StepEnd? {
      forall i | 0 <= i < n
        ensures !IsOpenStep(rows, i, n)
      {
        assert i in w <==> OpenSteps(rows, n)(i);
      }
    }
  }
}
