/** Turn accounting: which turn a row belongs to, how starts meet their ends, and where the time went. */
module Turns {
  import opened Wrappers

  datatype Kind = User | ToolStart | ToolEnd | StepStart | StepEnd | OtherKind

  /** A row of the event log; `turn` is the payload's turn number when it is an integer, `id` its tool call with a
      missing id replaced by the row's own number, `step` its step when it has one. */
  datatype Row = Row(seqNo: int, session: string, kind: Kind, steer: bool, turn: Option<int>, id: string, step: Option<int>,
                     created: real)

  // ---------------------------------------------------------------- turns

  datatype Key = Key(session: string, turn: int)

  datatype Turn = Turn(key: Key, rows: seq<Row>, user: Option<Row>)

  predicate OpensTurn(r: Row) {
    r.kind.User? && !r.steer
  }

  /** How many turns of the session its rows have opened. */
  function UsersOf(rows: seq<Row>, session: string): nat {
    if |rows| == 0 then 0
    else
      var last := rows[|rows| - 1];
      UsersOf(rows[..|rows| - 1], session) + if OpensTurn(last) && last.session == session then 1 else 0
  }

  /** The turn of the last row: its own number, or the number of turns opened so far, or none before the first. */
  function LastKey(rows: seq<Row>): Option<Key>
    requires |rows| > 0
  {
    var r := rows[|rows| - 1];
    if r.turn.Some? then Some(Key(r.session, r.turn.value))
    else
      var n := UsersOf(rows, r.session);
      if n == 0 then None else Some(Key(r.session, n))
  }

  /** The rows of a turn, in order. */
  function RowsOf(rows: seq<Row>, key: Key): seq<Row> {
    if |rows| == 0 then []
    else RowsOf(rows[..|rows| - 1], key) + if LastKey(rows) == Some(key) then [rows[|rows| - 1]] else []
  }

  /** The rows of no turn. */
  function DroppedRows(rows: seq<Row>): seq<Row> {
    if |rows| == 0 then []
    else DroppedRows(rows[..|rows| - 1]) + if LastKey(rows) == None then [rows[|rows| - 1]] else []
  }

  /** The turns in the order of their first rows. */
  function KeysOf(rows: seq<Row>): (keys: seq<Key>)
    ensures forall i, j :: 0 <= i < j < |keys| ==> keys[i] != keys[j]
  {
    if |rows| == 0 then []
    else
      var keys, last := KeysOf(rows[..|rows| - 1]), LastKey(rows);
      if last.Some? && last.value !in keys then keys + [last.value] else keys
  }

  /** The first row that opens a turn among those of the turn. */
  function UserRow(rows: seq<Row>): Option<Row> {
    if |rows| == 0 then None
    else
      var before := UserRow(rows[..|rows| - 1]);
      if before.Some? then before else if OpensTurn(rows[|rows| - 1]) then Some(rows[|rows| - 1]) else None
  }

  function TurnOf(rows: seq<Row>, key: Key): Turn {
    Turn(key, RowsOf(rows, key), UserRow(RowsOf(rows, key)))
  }

  function TurnsOf(rows: seq<Row>): (turns: seq<Turn>)
    ensures |turns| == |KeysOf(rows)|
    ensures forall i :: 0 <= i < |turns| ==> turns[i] == TurnOf(rows, KeysOf(rows)[i])
  {
    var keys := KeysOf(rows);
    seq(|keys|, i requires 0 <= i < |keys| => TurnOf(rows, keys[i]))
  }

  ghost predicate TurnMap(turns: map<Key, Turn>, rows: seq<Row>) {
    && (forall key :: key in turns <==> key in KeysOf(rows))
    && forall key :: key in turns ==> turns[key] == TurnOf(rows, key)
  }

  lemma {:induction false} NoRowsWithoutKey(rows: seq<Row>, key: Key)
    requires key !in KeysOf(rows)
    ensures RowsOf(rows, key) == []
  {
    hide LastKey;
    if |rows| > 0 {
      NoRowsWithoutKey(rows[..|rows| - 1], key);
    }
  }

  lemma RowsPush(rows: seq<Row>, r: Row, key: Key)
    ensures RowsOf(rows + [r], key) == RowsOf(rows, key) + if LastKey(rows + [r]) == Some(key) then [r] else []
  {
    hide LastKey;
    assert (rows + [r])[..|rows|] == rows;
  }

  lemma KeysPush(rows: seq<Row>, r: Row)
    ensures var key := LastKey(rows + [r]);
      KeysOf(rows + [r]) == KeysOf(rows) + if key.Some? && key.value !in KeysOf(rows) then [key.value] else []
  {
    hide LastKey;
    assert (rows + [r])[..|rows|] == rows;
  }

  lemma UserPush(rows: seq<Row>, r: Row)
    ensures UserRow(rows + [r]) == if UserRow(rows).Some? then UserRow(rows) else if OpensTurn(r) then Some(r) else None
  {
    hide OpensTurn;
    assert (rows + [r])[..|rows|] == rows;
  }

  /** A turn with one more row. */
  function Extended(t: Turn, r: Row): Turn {
    Turn(t.key, t.rows + [r], if t.user.Some? then t.user else if OpensTurn(r) then Some(r) else None)
  }

  lemma TurnPush(rows: seq<Row>, r: Row, key: Key)
    ensures TurnOf(rows + [r], key) == if LastKey(rows + [r]) == Some(key) then Extended(TurnOf(rows, key), r) else TurnOf(rows, key)
  {
    hide LastKey, RowsOf, UserRow, OpensTurn;
    RowsPush(rows, r, key);
    UserPush(RowsOf(rows, key), r);
    if LastKey(rows + [r]) == Some(key) {
      assert RowsOf(rows + [r], key) == RowsOf(rows, key) + [r];
    } else {
      assert RowsOf(rows + [r], key) == RowsOf(rows, key);
    }
  }

  lemma EmptyTurn(rows: seq<Row>, key: Key)
    requires key !in KeysOf(rows)
    ensures TurnOf(rows, key) == Turn(key, [], None)
  {
    hide KeysOf, RowsOf;
    NoRowsWithoutKey(rows, key);
  }

  /** What one more row does to the turns. */
  lemma OneMoreRow(rows: seq<Row>, r: Row, turns: map<Key, Turn>)
    requires TurnMap(turns, rows)
    ensures var key := LastKey(rows + [r]);
      && (key.None? ==> TurnMap(turns, rows + [r]))
      && (key.Some? ==> TurnMap(turns[key.value := Extended(
                          if key.value in turns then turns[key.value] else Turn(key.value, [], None), r)], rows + [r]))
  {
    hide LastKey, KeysOf, TurnOf, Extended;
    KeysPush(rows, r);
    var key := LastKey(rows + [r]);
    forall k
      ensures TurnOf(rows + [r], k) == if key == Some(k) then Extended(TurnOf(rows, k), r) else TurnOf(rows, k)
    {
      TurnPush(rows, r, k);
    }
    if key.Some? && key.value !in turns {
      EmptyTurn(rows, key.value);
    }
  }

  lemma UsersPush(rows: seq<Row>, r: Row, session: string)
    ensures UsersOf(rows + [r], session) == UsersOf(rows, session) + if OpensTurn(r) && r.session == session then 1 else 0
  {
    assert (rows + [r])[..|rows|] == rows;
  }

  /** `build_turns` */
  method BuildTurns(rows: seq<Row>) returns (result: seq<Turn>)
    ensures result == TurnsOf(rows)
  {
    hide OpensTurn, RowsOf, KeysOf, UserRow, TurnOf, UsersOf;
    var turns: map<Key, Turn>, order: seq<Key>, users: map<string, nat> := map[], [], map[];
    NothingYet();
    assert rows[..0] == [];
    var i := 0;
    while i < |rows|
      invariant i <= |rows| && TurnMap(turns, rows[..i]) && order == KeysOf(rows[..i])
      invariant forall s :: (if s in users then users[s] else 0) == UsersOf(rows[..i], s)
    {
      var r := rows[i];
      assert rows[..i + 1] == rows[..i] + [r];
      forall s
        ensures UsersOf(rows[..i + 1], s) == UsersOf(rows[..i], s) + if OpensTurn(r) && r.session == s then 1 else 0
      {
        UsersPush(rows[..i], r, s);
      }
      OneMoreRow(rows[..i], r, turns);
      KeysPush(rows[..i], r);
      if OpensTurn(r) {
        users := users[r.session := (if r.session in users then users[r.session] else 0) + 1];
      }
      i := i + 1;
      var number := r.turn;
      if number.None? {
        if r.session !in users || users[r.session] == 0 {
          continue;
        }
        number := Some(users[r.session]);
      }
      var key := Key(r.session, number.value);
      assert LastKey(rows[..i]) == Some(key);
      var t := if key in turns then turns[key] else Turn(key, [], None);
      if key !in turns {
        order := order + [key];
      }
      t := t.(rows := t.rows + [r]);
      if OpensTurn(r) && t.user.None? {
        t := t.(user := Some(r));
      }
      turns := turns[key := t];
    }
    assert rows[..i] == rows;
    result := seq(|order|, k requires 0 <= k < |order| => turns[order[k]]);
  }

  lemma NothingYet()
    ensures TurnMap(map[], []) && KeysOf([]) == [] && forall s :: UsersOf([], s) == 0
  {
  }

  // ---------------------------------------------------------------- no row is lost or counted twice

  /** The rows of all turns, turn after turn. */
  function Flatten(rows: seq<Row>, keys: seq<Key>): seq<Row> {
    if |keys| == 0 then [] else Flatten(rows, keys[..|keys| - 1]) + RowsOf(rows, keys[|keys| - 1])
  }

  lemma FlattenCons(rows: seq<Row>, keys: seq<Key>, key: Key)
    ensures Flatten(rows, keys + [key]) == Flatten(rows, keys) + RowsOf(rows, key)
  {
    hide RowsOf;
    assert (keys + [key])[..|keys|] == keys;
  }

  function Once(r: Row, here: bool): multiset<Row> {
    if here then multiset{r} else multiset{}
  }

  lemma RowsPushed(rows: seq<Row>, r: Row, key: Key)
    ensures multiset(RowsOf(rows + [r], key)) == multiset(RowsOf(rows, key)) + Once(r, LastKey(rows + [r]) == Some(key))
  {
    hide RowsOf, LastKey;
    RowsPush(rows, r, key);
  }

  /** Some of the keys is the row's. */
  predicate Among(key: Option<Key>, keys: seq<Key>) {
    key.Some? && key.value in keys
  }

  /** A new row adds itself to the rows of these turns when one of them is its own. */
  ghost predicate Adds(rows: seq<Row>, r: Row, keys: seq<Key>) {
    multiset(Flatten(rows + [r], keys)) == multiset(Flatten(rows, keys)) + Once(r, Among(LastKey(rows + [r]), keys))
  }

  lemma {:induction false} FlattenPush(rows: seq<Row>, r: Row, keys: seq<Key>)
    requires forall i, j :: 0 <= i < j < |keys| ==> keys[i] != keys[j]
    ensures Adds(rows, r, keys)
  {
    if |keys| > 0 {
      hide Adds;
      var front, last := keys[..|keys| - 1], keys[|keys| - 1];
      FlattenPush(rows, r, front);
      assert keys == front + [last] && last !in front;
      FlattenPushLast(rows, r, front, last);
    }
  }

  lemma FlattenPushLast(rows: seq<Row>, r: Row, front: seq<Key>, last: Key)
    requires last !in front && Adds(rows, r, front)
    ensures Adds(rows, r, front + [last])
  {
    hide LastKey, RowsOf, Flatten, Once, Among;
    FlattenMore(rows, front, last);
    FlattenMore(rows + [r], front, last);
    RowsPushed(rows, r, last);
    OnceSplit(r, LastKey(rows + [r]), front, last);
  }

  lemma FlattenMore(rows: seq<Row>, keys: seq<Key>, key: Key)
    ensures multiset(Flatten(rows, keys + [key])) == multiset(Flatten(rows, keys)) + multiset(RowsOf(rows, key))
  {
    hide RowsOf, Flatten;
    FlattenCons(rows, keys, key);
  }

  lemma OnceSplit(r: Row, key: Option<Key>, front: seq<Key>, last: Key)
    requires last !in front
    ensures Once(r, Among(key, front + [last])) == Once(r, Among(key, front)) + Once(r, key == Some(last))
  {
  }

  lemma DroppedPush(rows: seq<Row>, r: Row)
    ensures multiset(DroppedRows(rows + [r])) == multiset(DroppedRows(rows)) + Once(r, LastKey(rows + [r]) == None)
  {
    hide LastKey;
    assert (rows + [r])[..|rows|] == rows;
  }

  /** The rows of all turns and the dropped rows are the rows, each as often as it occurs. */
  ghost predicate Partitioned(rows: seq<Row>) {
    multiset(rows) == multiset(Flatten(rows, KeysOf(rows))) + multiset(DroppedRows(rows))
  }

  lemma NewTurn(front: seq<Row>, r: Row, key: Key)
    requires LastKey(front + [r]) == Some(key) && key !in KeysOf(front)
    ensures multiset(Flatten(front + [r], KeysOf(front) + [key])) == multiset(Flatten(front + [r], KeysOf(front))) + multiset{r}
  {
    hide LastKey, Flatten, KeysOf, RowsOf;
    FlattenCons(front + [r], KeysOf(front), key);
    NoRowsWithoutKey(front, key);
    RowsPush(front, r, key);
    assert RowsOf(front + [r], key) == [r];
  }

  lemma PartitionedPush(front: seq<Row>, r: Row)
    requires Partitioned(front)
    ensures Partitioned(front + [r])
  {
    hide LastKey, Flatten, KeysOf, DroppedRows, RowsOf;
    var key := LastKey(front + [r]);
    assert multiset(front + [r]) == multiset(front) + multiset{r};
    KeysPush(front, r);
    FlattenPush(front, r, KeysOf(front));
    DroppedPush(front, r);
    if key.Some? && key.value !in KeysOf(front) {
      NewTurn(front, r, key.value);
    } else {
      assert KeysOf(front + [r]) == KeysOf(front);
    }
  }

  /** Every row lands in exactly one turn or is dropped. */
  lemma {:induction false} RowsArePartitioned(rows: seq<Row>)
    ensures Partitioned(rows)
  {
    hide Partitioned;
    if |rows| == 0 {
      assert rows == [];
      NothingIsPartitioned();
    } else {
      var front, last := rows[..|rows| - 1], rows[|rows| - 1];
      RowsArePartitioned(front);
      PartitionedPush(front, last);
      assert rows == front + [last];
    }
  }

  lemma NothingIsPartitioned()
    ensures Partitioned([])
  {
  }

  /** Only unnumbered rows before the first opened turn of their session are dropped. */
  lemma DroppedIff(rows: seq<Row>, i: nat)
    requires i < |rows|
    ensures LastKey(rows[..i + 1]) == None
       <==> rows[i].turn.None? && forall j :: 0 <= j <= i ==> !(OpensTurn(rows[j]) && rows[j].session == rows[i].session)
  {
    UsersAreCounted(rows[..i + 1], rows[i].session);
    assert forall j :: 0 <= j <= i ==> rows[..i + 1][j] == rows[j];
    hide UsersOf, OpensTurn;
  }

  lemma {:induction false} UsersAreCounted(rows: seq<Row>, session: string)
    ensures UsersOf(rows, session) == 0 <==> forall j :: 0 <= j < |rows| ==> !(OpensTurn(rows[j]) && rows[j].session == session)
  {
    hide OpensTurn;
    if |rows| > 0 {
      UsersAreCounted(rows[..|rows| - 1], session);
    }
  }

  // ---------------------------------------------------------------- starts and ends of steps

  datatype Pair = Pair(start: Row, end: Row)

  /** What the pairing carries: the pairs made and the starts still open. */
  datatype Pairing = Pairing(pairs: seq<Pair>, open: seq<Row>)

  /** The last open start of the step, else the last open start. */
  function MatchFor(open: seq<Row>, r: Row): (m: Option<nat>)
    ensures m.Some? ==> m.value < |open|
    ensures m.None? <==> |open| == 0
  {
    var exact := LastOfStep(open, r.step);
    if exact.Some? then exact else if |open| > 0 then Some(|open| - 1) else None
  }

  function LastOfStep(open: seq<Row>, step: Option<int>): (m: Option<nat>)
    ensures m.Some? ==> m.value < |open| && open[m.value].step == step
    ensures m.Some? ==> forall i :: m.value < i < |open| ==> open[i].step != step
    ensures m.None? ==> forall i :: 0 <= i < |open| ==> open[i].step != step
  {
    if |open| == 0 then None
    else if open[|open| - 1].step == step then Some(|open| - 1) else LastOfStep(open[..|open| - 1], step)
  }

  function PairStep(p: Pairing, r: Row): Pairing {
    match r.kind
    case StepStart => p.(open := p.open + [r])
    case StepEnd =>
      var m := MatchFor(p.open, r);
      if m.None? then p
      else Pairing(p.pairs + [Pair(p.open[m.value], r)], p.open[..m.value] + p.open[m.value + 1..])
    case _ => p
  }

  function PairSteps(rows: seq<Row>): Pairing {
    if |rows| == 0 then Pairing([], []) else PairStep(PairSteps(rows[..|rows| - 1]), rows[|rows| - 1])
  }

  /** The search loop of `_step_pairs`. */
  method FindMatch(open: seq<Row>, r: Row) returns (m: Option<nat>)
    ensures m == MatchFor(open, r)
  {
    var index := |open| - 1;
    assert open[..index + 1] == open;
    while index >= 0
      invariant -1 <= index < |open|
      invariant LastOfStep(open, r.step) == LastOfStep(open[..index + 1], r.step)
    {
      assert open[..index + 1][..index] == open[..index];
      if open[index].step == r.step {
        return Some(index);
      }
      index := index - 1;
    }
    return if |open| > 0 then Some(|open| - 1) else None;
  }

  /** `_step_pairs` */
  method StepPairs(rows: seq<Row>) returns (pairs: seq<Pair>, unclosed: nat)
    ensures pairs == PairSteps(rows).pairs && unclosed == |PairSteps(rows).open|
  {
    hide MatchFor;
    var open: seq<Row> := [];
    pairs := [];
    var i := 0;
    while i < |rows|
      invariant i <= |rows| && Pairing(pairs, open) == PairSteps(rows[..i])
    {
      var r := rows[i];
      assert rows[..i + 1][..i] == rows[..i];
      if r.kind.StepStart? {
        open := open + [r];
      } else if r.kind.StepEnd? {
        var m := FindMatch(open, r);
        if m.Some? {
          pairs := pairs + [Pair(open[m.value], r)];
          open := open[..m.value] + open[m.value + 1..];
        }
      }
      i := i + 1;
    }
    assert rows[..i] == rows;
    unclosed := |open|;
  }

  function OfKind(rows: seq<Row>, kind: Kind): seq<Row> {
    if |rows| == 0 then []
    else OfKind(rows[..|rows| - 1], kind) + if rows[|rows| - 1].kind == kind then [rows[|rows| - 1]] else []
  }

  function StartsOf(pairs: seq<Pair>): (r: seq<Row>)
    ensures |r| == |pairs| && forall i :: 0 <= i < |r| ==> r[i] == pairs[i].start
  {
    seq(|pairs|, i requires 0 <= i < |pairs| => pairs[i].start)
  }

  lemma Removed(open: seq<Row>, m: nat)
    requires m < |open|
    ensures multiset(open) == multiset(open[..m] + open[m + 1..]) + multiset{open[m]}
  {
    assert open == open[..m] + ([open[m]] + open[m + 1..]);
  }

  lemma StartsPush(pairs: seq<Pair>, p: Pair)
    ensures StartsOf(pairs + [p]) == StartsOf(pairs) + [p.start]
  {
  }

  lemma PairStepConserves(p: Pairing, r: Row)
    ensures var q := PairStep(p, r);
      multiset(StartsOf(q.pairs)) + multiset(q.open)
      == multiset(StartsOf(p.pairs)) + multiset(p.open) + Once(r, r.kind.StepStart?)
  {
    hide MatchFor, StartsOf;
    var m := MatchFor(p.open, r);
    if r.kind.StepEnd? && m.Some? {
      Removed(p.open, m.value);
      StartsPush(p.pairs, Pair(p.open[m.value], r));
    }
  }

  lemma KindPush(rows: seq<Row>, kind: Kind)
    requires |rows| > 0
    ensures multiset(OfKind(rows, kind))
         == multiset(OfKind(rows[..|rows| - 1], kind)) + Once(rows[|rows| - 1], rows[|rows| - 1].kind == kind)
  {
  }

  /** Every step start is used by one pair or still open: pairs and unclosed add up to the starts. */
  lemma {:induction false} StepStartsAreConserved(rows: seq<Row>)
    ensures var p := PairSteps(rows);
      multiset(OfKind(rows, StepStart)) == multiset(StartsOf(p.pairs)) + multiset(p.open)
    ensures |OfKind(rows, StepStart)| == |PairSteps(rows).pairs| + |PairSteps(rows).open|
  {
    if |rows| > 0 {
      StepStartsAreConserved(rows[..|rows| - 1]);
      KindPush(rows, StepStart);
      PairStepConserves(PairSteps(rows[..|rows| - 1]), rows[|rows| - 1]);
    }
    hide OfKind, PairSteps;
    var p := PairSteps(rows);
    SameSize(OfKind(rows, StepStart), StartsOf(p.pairs), p.open);
  }

  lemma SameSize(all: seq<Row>, a: seq<Row>, b: seq<Row>)
    requires multiset(all) == multiset(a) + multiset(b)
    ensures |all| == |a| + |b|
  {
    assert |multiset(all)| == |multiset(a)| + |multiset(b)|;
  }

  // ---------------------------------------------------------------- starts and ends of tools

  /** What `_tool_pairs` carries: the pairs, the open starts by id, and the ends without a start. */
  datatype ToolPairing = ToolPairing(pairs: seq<Pair>, open: map<string, Row>, unmatched: nat)

  function ToolStep(p: ToolPairing, r: Row): ToolPairing {
    match r.kind
    case ToolStart => if r.id in p.open then p else p.(open := p.open[r.id := r])
    case ToolEnd =>
      if r.id in p.open then p.(pairs := p.pairs + [Pair(p.open[r.id], r)], open := p.open - {r.id})
      else p.(unmatched := p.unmatched + 1)
    case _ => p
  }

  function PairTools(rows: seq<Row>): ToolPairing {
    if |rows| == 0 then ToolPairing([], map[], 0) else ToolStep(PairTools(rows[..|rows| - 1]), rows[|rows| - 1])
  }

  /** `_tool_pairs` */
  method ToolPairs(rows: seq<Row>) returns (pairs: seq<Pair>, unmatched: nat)
    ensures pairs == PairTools(rows).pairs && unmatched == PairTools(rows).unmatched + |PairTools(rows).open|
  {
    var open: map<string, Row>, ends: nat := map[], 0;
    pairs := [];
    var i := 0;
    while i < |rows|
      invariant i <= |rows| && ToolPairing(pairs, open, ends) == PairTools(rows[..i])
    {
      var r := rows[i];
      assert rows[..i + 1][..i] == rows[..i];
      if r.kind.ToolStart? {
        if r.id !in open {
          open := open[r.id := r];
        }
      } else if r.kind.ToolEnd? {
        if r.id in open {
          pairs := pairs + [Pair(open[r.id], r)];
          open := open - {r.id};
        } else {
          ends := ends + 1;
        }
      }
      i := i + 1;
    }
    assert rows[..i] == rows;
    unmatched := ends + |open|;
  }

  /** The starts whose id was still open: they are forgotten. */
  function ForgottenStarts(rows: seq<Row>): nat {
    if |rows| == 0 then 0
    else
      var r := rows[|rows| - 1];
      ForgottenStarts(rows[..|rows| - 1]) + if r.kind.ToolStart? && r.id in PairTools(rows[..|rows| - 1]).open then 1 else 0
  }

  /** Ends are paired or unmatched; starts are paired, open or forgotten. */
  lemma {:induction false} ToolCallsAreConserved(rows: seq<Row>)
    ensures var p := PairTools(rows);
      && |OfKind(rows, ToolEnd)| == |p.pairs| + p.unmatched
      && |OfKind(rows, ToolStart)| == |p.pairs| + |p.open| + ForgottenStarts(rows)
  {
    if |rows| > 0 {
      var before, r := PairTools(rows[..|rows| - 1]), rows[|rows| - 1];
      ToolCallsAreConserved(rows[..|rows| - 1]);
      OpenSize(before.open, r.id, r);
    }
  }

  lemma OpenSize(open: map<string, Row>, id: string, r: Row)
    ensures id !in open ==> |open[id := r]| == |open| + 1
    ensures id in open ==> |open - {id}| == |open| - 1
  {
    if id in open {
      assert open == (open - {id})[id := open[id]];
    }
  }

  predicate StartsAt(rows: seq<Row>, i: int, id: string) {
    0 <= i < |rows| && rows[i].kind.ToolStart? && rows[i].id == id
  }

  predicate EndsAt(rows: seq<Row>, i: int, id: string) {
    0 <= i < |rows| && rows[i].kind.ToolEnd? && rows[i].id == id
  }

  /** A start of the call without a later end. */
  ghost predicate StartedLast(rows: seq<Row>, i: int, id: string) {
    StartsAt(rows, i, id) && forall k :: i < k < |rows| ==> !EndsAt(rows, k, id)
  }

  /** A call is open exactly when some start of it has no later end. */
  lemma {:induction false} OpenIff(rows: seq<Row>, id: string)
    ensures id in PairTools(rows).open <==> exists i :: StartedLast(rows, i, id)
  {
    if |rows| > 0 {
      var front, last := rows[..|rows| - 1], |rows| - 1;
      OpenIff(front, id);
      assert forall k :: 0 <= k < last ==> (EndsAt(rows, k, id) <==> EndsAt(front, k, id));
      if EndsAt(rows, last, id) {
        assert forall i :: StartedLast(rows, i, id) ==> i == last;
      } else if StartsAt(rows, last, id) {
        assert StartedLast(rows, last, id);
      } else {
        forall i
          ensures StartedLast(rows, i, id) <==> StartedLast(front, i, id)
        {
        }
      }
    }
  }

  /** Between any two starts of one call there is an end of it. */
  ghost predicate EndsBetweenStarts(rows: seq<Row>) {
    forall i, j :: 0 <= i < j < |rows| && rows[i].kind.ToolStart? && StartsAt(rows, j, rows[i].id) ==>
      EndsBetween(rows, i, j)
  }

  ghost predicate EndsBetween(rows: seq<Row>, i: int, j: int)
    requires 0 <= i < j < |rows|
  {
    exists k :: i < k < j && EndsAt(rows, k, rows[i].id)
  }

  lemma {:induction false} NoneForgottenIff(rows: seq<Row>)
    ensures ForgottenStarts(rows) == 0 <==> EndsBetweenStarts(rows)
  {
    if |rows| > 0 {
      var front, r := rows[..|rows| - 1], rows[|rows| - 1];
      NoneForgottenIff(front);
      OpenIff(front, r.id);
      hide PairTools;
      BetweenInFront(rows);
    }
  }

  /** The last row adds one condition: if it starts a call, no start of that call may be the last word before it. */
  lemma BetweenInFront(rows: seq<Row>)
    requires |rows| > 0
    ensures var front, r := rows[..|rows| - 1], rows[|rows| - 1];
      EndsBetweenStarts(rows)
      <==> EndsBetweenStarts(front) && (r.kind.ToolStart? ==> forall i :: !StartedLast(front, i, r.id))
  {
    var front, last := rows[..|rows| - 1], |rows| - 1;
    assert forall k, id :: 0 <= k < last ==> (EndsAt(rows, k, id) <==> EndsAt(front, k, id));
    assert forall i, j :: 0 <= i < j < last ==> (EndsBetween(rows, i, j) <==> EndsBetween(front, i, j));
    assert forall i, id :: 0 <= i < last ==> (StartsAt(rows, i, id) <==> StartsAt(front, i, id));
    if rows[last].kind.ToolStart? {
      var id := rows[last].id;
      forall i | 0 <= i < last && StartsAt(rows, i, id)
        ensures EndsBetween(rows, i, last) <==> !StartedLast(front, i, id)
      {
      }
      assert StartsAt(rows, last, id);
    }
  }

  /** The reported number of unmatched calls accounts for every start and end that has no partner exactly when an end
      lies between any two starts with one id. */
  lemma UnmatchedIsCompleteIff(rows: seq<Row>)
    ensures var p := PairTools(rows);
      p.unmatched + |p.open| == |OfKind(rows, ToolStart)| + |OfKind(rows, ToolEnd)| - 2 * |p.pairs|
      <==> EndsBetweenStarts(rows)
  {
    ToolCallsAreConserved(rows);
    NoneForgottenIff(rows);
  }

  /** For example two starts with one id and no end are reported as one unmatched call. */
  lemma RepeatedStartIsForgotten(a: Row, b: Row)
    requires a.kind.ToolStart? && b.kind.ToolStart? && a.id == b.id
    ensures var p := PairTools([a, b]);
      p.pairs == [] && p.unmatched + |p.open| == 1 && |OfKind([a, b], ToolStart)| == 2
  {
    assert [a, b][..1] == [a] && [a][..0] == [];
    assert PairTools([a]) == ToolPairing([], map[a.id := a], 0);
    assert PairTools([a, b]) == ToolPairing([], map[a.id := a], 0);
    assert OfKind([a], ToolStart) == [a] && OfKind([a, b], ToolStart) == [a, b];
  }

  // ---------------------------------------------------------------- where the time went

  function Duration(p: Pair): real {
    (p.end.created - p.start.created) * 1000.0
  }

  function TotalTime(pairs: seq<Pair>): real {
    if |pairs| == 0 then 0.0 else TotalTime(pairs[..|pairs| - 1]) + Duration(pairs[|pairs| - 1])
  }

  /** The tool call starts within the step's window, ends included. */
  predicate StartsIn(tool: Pair, step: Pair) {
    step.start.created <= tool.start.created <= step.end.created
  }

  /** The time of the tool calls that start within the window. */
  function Inside(tools: seq<Pair>, step: Pair): real {
    if |tools| == 0 then 0.0
    else
      var last := tools[|tools| - 1];
      Inside(tools[..|tools| - 1], step) + if StartsIn(last, step) then Duration(last) else 0.0
  }

  function InsideTotal(tools: seq<Pair>, steps: seq<Pair>): real {
    if |steps| == 0 then 0.0 else InsideTotal(tools, steps[..|steps| - 1]) + Inside(tools, steps[|steps| - 1])
  }

  datatype Split = Split(model: real, tool: real, inside: real)

  /** The split in `summarise_turn`, before rounding. */
  method SplitTime(steps: seq<Pair>, tools: seq<Pair>) returns (r: Split)
    ensures r == Split(TotalTime(steps) - InsideTotal(tools, steps), TotalTime(tools), InsideTotal(tools, steps))
  {
    hide Duration, StartsIn;
    var tool, k := 0.0, 0;
    while k < |tools|
      invariant k <= |tools| && tool == TotalTime(tools[..k])
    {
      assert tools[..k + 1][..k] == tools[..k];
      tool := tool + Duration(tools[k]);
      k := k + 1;
    }
    assert tools[..k] == tools;
    var model, total, i := 0.0, 0.0, 0;
    while i < |steps|
      invariant i <= |steps| && total == InsideTotal(tools, steps[..i])
      invariant model == TotalTime(steps[..i]) - InsideTotal(tools, steps[..i])
    {
      assert steps[..i + 1][..i] == steps[..i];
      var inside, j := 0.0, 0;
      while j < |tools|
        invariant j <= |tools| && inside == Inside(tools[..j], steps[i])
      {
        assert tools[..j + 1][..j] == tools[..j];
        if StartsIn(tools[j], steps[i]) {
          inside := inside + Duration(tools[j]);
        }
        j := j + 1;
      }
      assert tools[..j] == tools;
      total := total + inside;
      model := model + (Duration(steps[i]) - inside);
      i := i + 1;
    }
    assert steps[..i] == steps;
    return Split(model, tool, total);
  }

  /** In how many windows the tool call starts. */
  function WindowsOf(tool: Pair, steps: seq<Pair>): nat {
    if |steps| == 0 then 0
    else WindowsOf(tool, steps[..|steps| - 1]) + if StartsIn(tool, steps[|steps| - 1]) then 1 else 0
  }

  /** Each tool call's time, as often as windows hold its start. */
  function Weighted(tools: seq<Pair>, steps: seq<Pair>): real {
    if |tools| == 0 then 0.0
    else Weighted(tools[..|tools| - 1], steps) + Times(WindowsOf(tools[|tools| - 1], steps), Duration(tools[|tools| - 1]))
  }

  function Times(n: nat, d: real): real {
    n as real * d
  }

  lemma TimesStep(n: nat, d: real)
    ensures Times(0, d) == 0.0 && Times(1, d) == d && Times(n + 1, d) == Times(n, d) + d
  {
  }

  lemma {:induction false} WeightedStep(tools: seq<Pair>, steps: seq<Pair>, step: Pair)
    ensures Weighted(tools, steps + [step]) == Weighted(tools, steps) + Inside(tools, step)
  {
    hide Times, Duration, StartsIn;
    if |tools| > 0 {
      var last := tools[|tools| - 1];
      WeightedStep(tools[..|tools| - 1], steps, step);
      assert (steps + [step])[..|steps|] == steps;
      TimesStep(WindowsOf(last, steps), Duration(last));
    }
  }

  lemma {:induction false} NoWindows(tools: seq<Pair>)
    ensures Weighted(tools, []) == 0.0
  {
    hide Times, Duration, StartsIn;
    if |tools| > 0 {
      NoWindows(tools[..|tools| - 1]);
      TimesStep(0, Duration(tools[|tools| - 1]));
    }
  }

  lemma {:induction false} InsideIsWeighted(tools: seq<Pair>, steps: seq<Pair>)
    ensures InsideTotal(tools, steps) == Weighted(tools, steps)
  {
    if |steps| == 0 {
      NoWindows(tools);
    } else {
      hide Times, Duration, StartsIn, Weighted;
      InsideIsWeighted(tools, steps[..|steps| - 1]);
      WeightedStep(tools, steps[..|steps| - 1], steps[|steps| - 1]);
      assert steps == steps[..|steps| - 1] + [steps[|steps| - 1]];
    }
  }

  lemma {:induction false} WeightedOnce(tools: seq<Pair>, steps: seq<Pair>)
    requires forall i :: 0 <= i < |tools| ==> WindowsOf(tools[i], steps) == 1
    ensures Weighted(tools, steps) == TotalTime(tools)
  {
    hide Times, Duration, WindowsOf;
    if |tools| > 0 {
      WeightedOnce(tools[..|tools| - 1], steps);
      TimesStep(0, Duration(tools[|tools| - 1]));
    }
  }

  /** Windows that share no moment. */
  ghost predicate Disjoint(steps: seq<Pair>) {
    forall i, j, t: real :: 0 <= i < j < |steps| ==> !(Covers(steps[i], t) && Covers(steps[j], t))
  }

  predicate Covers(step: Pair, t: real) {
    step.start.created <= t <= step.end.created
  }

  lemma {:induction false} OneWindow(tool: Pair, steps: seq<Pair>)
    requires Disjoint(steps)
    ensures WindowsOf(tool, steps) <= 1
    ensures WindowsOf(tool, steps) >= 1 <==> exists i :: 0 <= i < |steps| && StartsIn(tool, steps[i])
  {
    if |steps| > 0 {
      var front, last := steps[..|steps| - 1], steps[|steps| - 1];
      OneWindow(tool, front);
      forall i | 0 <= i < |front| && StartsIn(tool, front[i])
        ensures !StartsIn(tool, last)
      {
        assert front[i] == steps[i];
        assert Covers(steps[i], tool.start.created);
      }
      if exists i :: 0 <= i < |steps| && StartsIn(tool, steps[i]) {
        var i :| 0 <= i < |steps| && StartsIn(tool, steps[i]);
        if i < |front| {
          assert front[i] == steps[i];
        }
      }
    }
  }

  /** When the step windows are disjoint and every tool call starts in one of them, model time and tool time add up to
      the total of the windows. */
  lemma TimeIsConserved(steps: seq<Pair>, tools: seq<Pair>)
    requires Disjoint(steps)
    requires forall k :: 0 <= k < |tools| ==> exists i :: 0 <= i < |steps| && StartsIn(tools[k], steps[i])
    ensures InsideTotal(tools, steps) == TotalTime(tools)
    ensures (TotalTime(steps) - InsideTotal(tools, steps)) + TotalTime(tools) == TotalTime(steps)
  {
    forall k | 0 <= k < |tools|
      ensures WindowsOf(tools[k], steps) == 1
    {
      OneWindow(tools[k], steps);
    }
    InsideIsWeighted(tools, steps);
    WeightedOnce(tools, steps);
  }

  /** The call starts in some window, or takes no time. */
  ghost predicate Accounted(tool: Pair, steps: seq<Pair>) {
    Duration(tool) == 0.0 || exists i :: 0 <= i < |steps| && StartsIn(tool, steps[i])
  }

  /** Counting each call at most once never counts too much, and counts all exactly when no call that takes time is left out. */
  lemma {:induction false} WeightedAtMostOnce(tools: seq<Pair>, steps: seq<Pair>)
    requires Disjoint(steps) && forall k :: 0 <= k < |tools| ==> Duration(tools[k]) >= 0.0
    ensures Weighted(tools, steps) <= TotalTime(tools)
    ensures Weighted(tools, steps) == TotalTime(tools) <==> forall k :: 0 <= k < |tools| ==> Accounted(tools[k], steps)
  {
    if |tools| > 0 {
      var front, last := tools[..|tools| - 1], tools[|tools| - 1];
      WeightedAtMostOnce(front, steps);
      OneWindow(last, steps);
      TimesStep(0, Duration(last));
      assert Accounted(last, steps) <==> Times(WindowsOf(last, steps), Duration(last)) == Duration(last);
      hide Times, Duration, WindowsOf, Accounted, Disjoint;
      assert forall k :: 0 <= k < |tools| ==> tools[k] == if k < |front| then front[k] else last;
    }
  }

  /** When the step windows are disjoint and no call ends before it starts, model time and tool time add up to the
      windows exactly when every call that takes time starts in some window. */
  lemma TimeIsSplitIff(steps: seq<Pair>, tools: seq<Pair>)
    requires Disjoint(steps) && forall k :: 0 <= k < |tools| ==> tools[k].start.created <= tools[k].end.created
    ensures (TotalTime(steps) - InsideTotal(tools, steps)) + TotalTime(tools) == TotalTime(steps)
       <==> forall k :: 0 <= k < |tools| && tools[k].start.created < tools[k].end.created ==>
              exists i :: 0 <= i < |steps| && StartsIn(tools[k], steps[i])
  {
    InsideIsWeighted(tools, steps);
    WeightedAtMostOnce(tools, steps);
    assert forall k :: 0 <= k < |tools| ==>
      (Accounted(tools[k], steps)
       <==> (tools[k].start.created < tools[k].end.created ==> exists i :: 0 <= i < |steps| && StartsIn(tools[k], steps[i])));
  }

}
