/** Which renames a migration plans, in which order, and exactly when it accepts them. */
module MigrationAccepts {
  import opened Wrappers
  import opened Sorting
  import opened PlanNames
  import opened MigrationPlan
  import opened MigrationSafety

  // ---------------------------------------------------------------- what is wanted

  function Renaming(e: Entry, identity: string, version: nat): Change {
    Change(e.name, PlanName(version, identity), identity, version)
  }

  /** A plan that no merge takes, alone in its group under a version other than 1. */
  ghost predicate IsLone(es: seq<Entry>, merges: seq<Merge>, e: Entry) {
    !IsSource(e.identity, merges) && e.version != 1 && forall f :: f in es && f.identity == e.identity ==> f == e
  }

  /** The options ask for this renaming: into the target of a merge under the same version, or, alone, to version 1. */
  ghost predicate IsWanted(es: seq<Entry>, merges: seq<Merge>, renumber: bool, e: Entry, c: Change) {
    || (exists m :: m in merges && m.source == e.identity && c == Renaming(e, m.target, e.version))
    || (renumber && IsLone(es, merges, e) && c == Renaming(e, e.identity, 1))
  }

  /** Merges come in the order given, a group in the order of its versions; then lone plans in the order of identities. */
  ghost predicate Before(merges: seq<Merge>, e: Entry, f: Entry) {
    if IsSource(e.identity, merges) then IsSource(f.identity, merges) ==> MergedBefore(merges, e, f)
    else !IsSource(f.identity, merges) && StringLess(e.identity, f.identity)
  }

  ghost predicate MergedBefore(merges: seq<Merge>, e: Entry, f: Entry) {
    exists i, j :: 0 <= i <= j < |merges| && merges[i].source == e.identity && merges[j].source == f.identity
                   && (i < j || e.version < f.version)
  }

  /** The new name is nobody else's: no other plan is to get it, and one that has it is renamed before. */
  ghost predicate IsFree(es: seq<Entry>, merges: seq<Merge>, renumber: bool, e: Entry, c: Change) {
    && (forall f :: f in es && f.name == c.renameTo ==> IsRenamed(es, merges, renumber, f) && Before(merges, f, e))
    && (forall f, d :: f in es && f != e && IsWanted(es, merges, renumber, f, d) ==> d.renameTo != c.renameTo)
  }

  ghost predicate IsRenamed(es: seq<Entry>, merges: seq<Merge>, renumber: bool, e: Entry) {
    exists c :: IsWanted(es, merges, renumber, e, c)
  }

  /** The group of the merge is there, or that which it was merged into. */
  ghost predicate HasGroup(es: seq<Entry>, m: Merge) {
    exists e :: e in es && (e.identity == m.source || e.identity == m.target)
  }

  // ---------------------------------------------------------------- the renames in order

  /** An entry and what it is to become. */
  datatype Work = Work(entry: Entry, identity: string, version: nat)

  function ChangeOf(w: Work): Change {
    Renaming(w.entry, w.identity, w.version)
  }

  function GroupWork(members: seq<Entry>, target: string): (ws: seq<Work>)
    ensures |ws| == |members| && forall i :: 0 <= i < |ws| ==> ws[i] == Work(members[i], target, members[i].version)
  {
    seq(|members|, i requires 0 <= i < |members| => Work(members[i], target, members[i].version))
  }

  function MergeWork(es: seq<Entry>, merges: seq<Merge>, k: nat): seq<Work>
    requires k <= |merges|
    decreases |merges| - k
  {
    if k == |merges| then []
    else GroupWork(SortByVersion(Group(es, merges[k].source)), merges[k].target) + MergeWork(es, merges, k + 1)
  }

  function LoneWork(rest: seq<Entry>, ids: seq<string>): seq<Work> {
    if |ids| == 0 then []
    else
      var g := Group(rest, ids[0]);
      (if |g| == 1 && g[0].version != 1 then [Work(g[0], ids[0], 1)] else []) + LoneWork(rest, ids[1..])
  }

  /** One rename after the other, each refused when its new name is taken. */
  function PlanAll(plan: Plan, ws: seq<Work>): Result<Plan, MigrationError>
    decreases |ws|
  {
    if |ws| == 0 then Success(plan)
    else
      var plan1 :- PlanOne(plan, ws[0].entry, ws[0].identity, ws[0].version);
      PlanAll(plan1, ws[1..])
  }

  lemma {:induction false} PlanBoth(plan: Plan, a: seq<Work>, b: seq<Work>)
    ensures var r := PlanAll(plan, a); PlanAll(plan, a + b) == if r.Success? then PlanAll(r.value, b) else r
    decreases |a|
  {
    hide PlanOne;
    if |a| == 0 {
      assert a + b == b;
    } else {
      assert (a + b)[0] == a[0] && (a + b)[1..] == a[1..] + b;
      var r := PlanOne(plan, a[0].entry, a[0].identity, a[0].version);
      if r.Success? {
        PlanBoth(r.value, a[1..], b);
      }
    }
  }

  lemma {:induction false} GroupIsPlanned(plan: Plan, members: seq<Entry>, target: string)
    ensures MergeGroup(plan, members, target) == PlanAll(plan, GroupWork(members, target))
    decreases |members|
  {
    hide PlanOne;
    if |members| > 0 {
      assert GroupWork(members, target)[1..] == GroupWork(members[1..], target);
      var r := PlanOne(plan, members[0], target, members[0].version);
      if r.Success? {
        GroupIsPlanned(r.value, members[1..], target);
      }
    }
  }

  lemma HasGroupIff(es: seq<Entry>, m: Merge)
    ensures HasGroup(es, m) <==> |Group(es, m.source)| > 0 || |Group(es, m.target)| > 0
  {
    hide Group;
    assert |Group(es, m.source)| > 0 ==> Group(es, m.source)[0] in Group(es, m.source);
    assert |Group(es, m.target)| > 0 ==> Group(es, m.target)[0] in Group(es, m.target);
    if HasGroup(es, m) {
      var e :| e in es && (e.identity == m.source || e.identity == m.target);
      assert e in Group(es, m.source) || e in Group(es, m.target);
    }
  }

  lemma {:induction false} MergesArePlanned(plan: Plan, es: seq<Entry>, merges: seq<Merge>, k: nat)
    requires k <= |merges|
    ensures var (r, all) := (MergeAll(plan, es, merges[k..]), PlanAll(plan, MergeWork(es, merges, k)));
      && (r.Success? <==> all.Success? && forall i :: k <= i < |merges| ==> HasGroup(es, merges[i]))
      && (r.Success? ==> r == all)
    decreases |merges| - k
  {
    hide HasGroup, Group, SortByVersion, MergeGroup, GroupWork, PlanAll;
    if k == |merges| {
      NothingPlanned(plan);
    } else {
      assert merges[k..][1..] == merges[k + 1..];
      HasGroupIff(es, merges[k]);
      var members := SortByVersion(Group(es, merges[k].source));
      var here := GroupWork(members, merges[k].target);
      PlanBoth(plan, here, MergeWork(es, merges, k + 1));
      GroupIsPlanned(plan, members, merges[k].target);
      SortedEmpty(Group(es, merges[k].source));
      NothingPlanned(plan);
      var r := PlanAll(plan, here);
      if r.Success? {
        MergesArePlanned(r.value, es, merges, k + 1);
      }
    }
  }

  lemma NothingPlanned(plan: Plan)
    ensures PlanAll(plan, []) == Success(plan) && GroupWork([], "") == []
    ensures forall target :: GroupWork([], target) == []
  {
  }

  lemma SortedEmpty(es: seq<Entry>)
    ensures |SortByVersion(es)| == |es|
  {
    hide SortByVersion;
    assert |multiset(SortByVersion(es))| == |multiset(es)|;
  }

  lemma {:induction false} LoneArePlanned(plan: Plan, rest: seq<Entry>, ids: seq<string>)
    ensures RenumberAll(plan, rest, ids) == PlanAll(plan, LoneWork(rest, ids))
    decreases |ids|
  {
    hide Group, PlanOne;
    if |ids| > 0 {
      var g := Group(rest, ids[0]);
      var tail := LoneWork(rest, ids[1..]);
      if |g| == 1 && g[0].version != 1 {
        assert ([Work(g[0], ids[0], 1)] + tail)[1..] == tail;
        var r := PlanOne(plan, g[0], ids[0], 1);
        if r.Success? {
          LoneArePlanned(r.value, rest, ids[1..]);
        }
      } else {
        assert [] + tail == tail;
        LoneArePlanned(plan, rest, ids[1..]);
      }
    }
  }

  // ---------------------------------------------------------------- when the renames can be planned

  function NewName(w: Work): string {
    ChangeOf(w).renameTo
  }

  /** The new name is given to none before, and a plan that has it has been renamed before. */
  ghost predicate FreeAt(names: set<string>, ws: seq<Work>, k: nat)
    requires k < |ws|
  {
    && (forall j :: 0 <= j < k ==> NewName(ws[j]) != NewName(ws[k]))
    && (NewName(ws[k]) in names ==> GoneBefore(ws, k, NewName(ws[k])))
  }

  ghost predicate GoneBefore(ws: seq<Work>, k: nat, name: string)
    requires k <= |ws|
  {
    exists j :: 0 <= j < k && ws[j].entry.name == name
  }

  ghost predicate GivenBefore(ws: seq<Work>, k: nat, name: string)
    requires k <= |ws|
  {
    exists j :: 0 <= j < k && NewName(ws[j]) == name
  }

  ghost predicate TakenAre(names: set<string>, ws: seq<Work>, n: nat, taken: set<string>)
    requires n <= |ws|
  {
    forall x :: x in taken <==> (x in names && !GoneBefore(ws, n, x)) || GivenBefore(ws, n, x)
  }

  /** The renames are of plans of the list, each once. */
  ghost predicate Proper(names: set<string>, ws: seq<Work>) {
    && (forall i :: 0 <= i < |ws| ==> ws[i].entry.name in names)
    && forall i, j :: 0 <= i < j < |ws| ==> ws[i].entry.name != ws[j].entry.name
  }

  ghost predicate ChangesAre(changes: seq<Change>, ws: seq<Work>) {
    |changes| == |ws| && forall i :: 0 <= i < |ws| ==> changes[i] == ChangeOf(ws[i])
  }

  lemma {:induction false} PlanAllIff(names: set<string>, ws: seq<Work>, n: nat)
    requires Proper(names, ws) && n <= |ws|
    ensures var r := PlanAll(Plan([], names), ws[..n]);
      && (r.Success? <==> forall k :: 0 <= k < n ==> FreeAt(names, ws, k))
      && (r.Success? ==> ChangesAre(r.value.changes, ws[..n]) && TakenAre(names, ws, n, r.value.taken))
    decreases n
  {
    hide FreeAt, TakenAre, PlanAll, PlanOne;
    var start := Plan([], names);
    if n == 0 {
      NothingPlanned(start);
      NothingTaken(names, ws);
      assert ws[..0] == [];
    } else {
      PlanAllIff(names, ws, n - 1);
      assert ws[..n] == ws[..n - 1] + [ws[n - 1]];
      PlanBoth(start, ws[..n - 1], [ws[n - 1]]);
      var r := PlanAll(start, ws[..n - 1]);
      if r.Success? {
        OnePlanned(r.value, ws[n - 1]);
        TakenMore(names, ws, n - 1, r.value.taken);
      }
    }
  }

  lemma OnePlanned(plan: Plan, w: Work)
    ensures var r := PlanAll(plan, [w]);
      && (r.Success? <==> NewName(w) !in plan.taken)
      && (r.Success? ==> r.value.changes == plan.changes + [ChangeOf(w)]
                         && r.value.taken == plan.taken - {w.entry.name} + {NewName(w)})
  {
  }

  lemma NothingTaken(names: set<string>, ws: seq<Work>)
    ensures TakenAre(names, ws, 0, names)
  {
  }

  lemma TakenMore(names: set<string>, ws: seq<Work>, n: nat, taken: set<string>)
    requires Proper(names, ws) && n < |ws| && TakenAre(names, ws, n, taken)
    requires forall k :: 0 <= k < n ==> FreeAt(names, ws, k)
    ensures NewName(ws[n]) !in taken <==> FreeAt(names, ws, n)
    ensures FreeAt(names, ws, n) ==> TakenAre(names, ws, n + 1, taken - {ws[n].entry.name} + {NewName(ws[n])})
  {
    hide NewName;
    var path := ws[n].entry.name;
    forall j | 0 <= j < n
      ensures NewName(ws[j]) != path
    {
      assert FreeAt(names, ws, j);
    }
    forall x
      ensures GoneBefore(ws, n + 1, x) <==> GoneBefore(ws, n, x) || x == path
      ensures GivenBefore(ws, n + 1, x) <==> GivenBefore(ws, n, x) || x == NewName(ws[n])
    {
    }
  }

  // ---------------------------------------------------------------- the list is what is wanted, in order

  lemma {:induction false} MergeWorkIs(es: seq<Entry>, merges: seq<Merge>, k: nat)
    requires k <= |merges|
    ensures var ws := MergeWork(es, merges, k);
      && (forall w :: w in ws ==> SomeMerge(es, merges, k, w))
      && (forall e, i :: e in es && k <= i < |merges| && merges[i].source == e.identity ==>
            Work(e, merges[i].target, e.version) in ws)
    decreases |merges| - k
  {
    hide Group, SortByVersion, GroupWork, IsMergeOf;
    if k < |merges| {
      GroupWorkIs(es, merges[k]);
      MergeWorkIs(es, merges, k + 1);
      forall w | w in MergeWork(es, merges, k)
        ensures SomeMerge(es, merges, k, w)
      {
        assert IsMergeOf(es, merges[k], w) || SomeMerge(es, merges, k + 1, w);
      }
    }
  }

  ghost predicate SomeMerge(es: seq<Entry>, merges: seq<Merge>, k: nat, w: Work) {
    exists i :: k <= i < |merges| && IsMergeOf(es, merges[i], w)
  }

  lemma GroupWorkIs(es: seq<Entry>, m: Merge)
    ensures var ws := GroupWork(SortByVersion(Group(es, m.source)), m.target);
      && (forall w :: w in ws ==> IsMergeOf(es, m, w))
      && forall e :: e in es && m.source == e.identity ==> Work(e, m.target, e.version) in ws
  {
    var members := SortByVersion(Group(es, m.source));
    SortMembers(Group(es, m.source), LowerVersion);
    assert forall e :: e in members <==> e in es && e.identity == m.source;
    hide Group, SortByVersion;
    var ws := GroupWork(members, m.target);
    forall w | w in ws
      ensures IsMergeOf(es, m, w)
    {
      var x :| 0 <= x < |ws| && ws[x] == w;
      assert members[x] in members;
    }
    forall e | e in es && m.source == e.identity
      ensures Work(e, m.target, e.version) in ws
    {
      assert e in members;
      var x :| 0 <= x < |members| && members[x] == e;
      assert ws[x] == Work(e, m.target, e.version);
    }
  }

  ghost predicate IsMergeOf(es: seq<Entry>, m: Merge, w: Work) {
    w.entry in es && m.source == w.entry.identity && w.identity == m.target && w.version == w.entry.version
  }

  /** In a scanned list a group has no version twice. */
  lemma VersionsDiffer(es: seq<Entry>, e: Entry, f: Entry)
    requires Scanned(es) && e in es && f in es && e.identity == f.identity && e.version == f.version
    ensures e == f
  {
    hide ParseName, PlanName;
    PlanNameOfParse(e.name);
    PlanNameOfParse(f.name);
    NameDeterminesEntry(es, e, f);
  }

  lemma LowerIsOrder()
    ensures IsOrder(LowerVersion)
  {
  }

  lemma GroupInOrder(es: seq<Entry>, id: string)
    requires Scanned(es)
    ensures var g := SortByVersion(Group(es, id));
      && (forall e :: e in g <==> e in es && e.identity == id)
      && forall a, b :: 0 <= a < b < |g| ==> g[a].version < g[b].version
  {
    var g := SortByVersion(Group(es, id));
    LowerIsOrder();
    SortOrders(Group(es, id), LowerVersion);
    GroupDistinct(es, id);
    SortDistinct(Group(es, id));
    hide Group, SortByVersion, ParseName;
    forall a, b | 0 <= a < b < |g|
      ensures g[a].version < g[b].version
    {
      assert g[a] in g && g[b] in g && !LowerVersion(g[b], g[a]);
      if g[a].version == g[b].version {
        VersionsDiffer(es, g[a], g[b]);
      }
    }
  }

  ghost predicate InOrder(merges: seq<Merge>, ws: seq<Work>) {
    forall a, b :: 0 <= a < b < |ws| ==> Before(merges, ws[a].entry, ws[b].entry)
  }

  ghost predicate MergedInOrder(merges: seq<Merge>, ws: seq<Work>) {
    forall a, b :: 0 <= a < b < |ws| ==> MergedBefore(merges, ws[a].entry, ws[b].entry)
  }

  lemma {:induction false} MergeWorkInOrder(es: seq<Entry>, merges: seq<Merge>, k: nat)
    requires Scanned(es) && k <= |merges|
    ensures MergedInOrder(merges, MergeWork(es, merges, k))
    decreases |merges| - k
  {
    hide MergedInOrder, Scanned, Group, SortByVersion, GroupWork, SomeMerge;
    if k == |merges| {
      NothingInOrder(merges);
    } else {
      GroupInOrder(es, merges[k].source);
      MergeWorkInOrder(es, merges, k + 1);
      MergeWorkIs(es, merges, k + 1);
      GroupThenMerges(es, merges, k, SortByVersion(Group(es, merges[k].source)), MergeWork(es, merges, k + 1));
    }
  }

  lemma NothingInOrder(merges: seq<Merge>)
    ensures MergedInOrder(merges, [])
  {
  }

  lemma GroupThenMerges(es: seq<Entry>, merges: seq<Merge>, k: nat, g: seq<Entry>, later: seq<Work>)
    requires k < |merges| && MergedInOrder(merges, later) && forall w :: w in later ==> SomeMerge(es, merges, k + 1, w)
    requires forall e :: e in g ==> e.identity == merges[k].source
    requires forall a, b :: 0 <= a < b < |g| ==> g[a].version < g[b].version
    ensures MergedInOrder(merges, GroupWork(g, merges[k].target) + later)
  {
    var here := GroupWork(g, merges[k].target);
    hide GroupWork, SomeMerge, MergedBefore;
    var ws := here + later;
    forall a, b | 0 <= a < b < |ws|
      ensures MergedBefore(merges, ws[a].entry, ws[b].entry)
    {
      if a < |here| {
        assert g[a] in g;
        if b < |here| {
          assert g[b] in g;
          SameGroup(merges, k, g[a], g[b]);
        } else {
          assert ws[b] == later[b - |here|] && later[b - |here|] in later;
          EarlierGroup(es, merges, k, g[a], ws[b]);
        }
      } else {
        assert ws[a] == later[a - |here|] && ws[b] == later[b - |here|];
      }
    }
  }

  lemma SameGroup(merges: seq<Merge>, k: nat, e: Entry, f: Entry)
    requires k < |merges| && e.identity == f.identity == merges[k].source && e.version < f.version
    ensures MergedBefore(merges, e, f)
  {
  }

  lemma EarlierGroup(es: seq<Entry>, merges: seq<Merge>, k: nat, e: Entry, w: Work)
    requires k < |merges| && e.identity == merges[k].source && SomeMerge(es, merges, k + 1, w)
    ensures MergedBefore(merges, e, w.entry)
  {
    var i :| k + 1 <= i < |merges| && IsMergeOf(es, merges[i], w);
    assert merges[i].source == w.entry.identity;
  }

  // ---------------------------------------------------------------- lone plans

  lemma {:induction false} LoneWorkIs(rest: seq<Entry>, ids: seq<string>)
    requires Distinct(rest)
    ensures var ws := LoneWork(rest, ids);
      && (forall w :: w in ws ==> IsLoneOf(rest, w) && w.identity in ids)
      && (forall e :: e in rest && e.identity in ids && IsAlone(rest, e) ==> Work(e, e.identity, 1) in ws)
  {
    if |ids| > 0 {
      LoneWorkIs(rest, ids[1..]);
      LoneGroup(rest, ids[0]);
      hide Group, IsLoneOf, IsAlone;
      assert ids == [ids[0]] + ids[1..];
    }
  }

  ghost predicate IsAlone(rest: seq<Entry>, e: Entry) {
    e.version != 1 && forall f :: f in rest && f.identity == e.identity ==> f == e
  }

  ghost predicate IsLoneOf(rest: seq<Entry>, w: Work) {
    w.entry in rest && IsAlone(rest, w.entry) && w.identity == w.entry.identity && w.version == 1
  }

  lemma LoneGroup(rest: seq<Entry>, id: string)
    requires Distinct(rest)
    ensures var g := Group(rest, id);
      && (|g| == 1 && g[0].version != 1 ==> IsLoneOf(rest, Work(g[0], id, 1)))
      && (forall e :: e in rest && e.identity == id && IsAlone(rest, e) ==> g == [e])
  {
    GroupDistinct(rest, id);
    var g := Group(rest, id);
    hide Group;
    if |g| == 1 {
      assert g[0] in g;
      forall f | f in rest && f.identity == id
        ensures f == g[0]
      {
        assert f in g;
      }
    }
    forall e | e in rest && e.identity == id && IsAlone(rest, e)
      ensures g == [e]
    {
      assert e in g;
      forall i | 0 <= i < |g|
        ensures g[i] == e
      {
        assert g[i] in g;
      }
      OnlyOne(g, e);
    }
  }

  lemma OnlyOne(g: seq<Entry>, e: Entry)
    requires Distinct(g) && |g| > 0 && forall i :: 0 <= i < |g| ==> g[i] == e
    ensures g == [e]
  {
    assert |g| > 1 ==> g[1].name == g[0].name;
  }

  ghost predicate Ascending(ids: seq<string>) {
    forall a, b :: 0 <= a < b < |ids| ==> StringLess(ids[a], ids[b])
  }

  ghost predicate ByIdentity(ws: seq<Work>) {
    forall a, b :: 0 <= a < b < |ws| ==> StringLess(ws[a].entry.identity, ws[b].entry.identity)
  }

  lemma {:induction false} LoneWorkInOrder(rest: seq<Entry>, ids: seq<string>)
    requires Distinct(rest) && Ascending(ids)
    ensures ByIdentity(LoneWork(rest, ids))
  {
    hide Group, ByIdentity, IsAlone;
    if |ids| == 0 {
      NothingByIdentity();
    } else {
      var tail := LoneWork(rest, ids[1..]);
      LoneWorkInOrder(rest, ids[1..]);
      LoneWorkIs(rest, ids[1..]);
      LoneGroup(rest, ids[0]);
      var ws := LoneWork(rest, ids);
      if |Group(rest, ids[0])| == 1 && Group(rest, ids[0])[0].version != 1 {
        FirstByIdentity(Work(Group(rest, ids[0])[0], ids[0], 1), tail, ids);
      } else {
        assert ws == tail;
      }
    }
  }

  lemma NothingByIdentity()
    ensures ByIdentity([])
  {
  }

  lemma FirstByIdentity(w: Work, tail: seq<Work>, ids: seq<string>)
    requires |ids| > 0 && Ascending(ids) && ByIdentity(tail) && w.entry.identity == ids[0]
    requires forall x :: x in tail ==> x.entry.identity in ids[1..]
    ensures ByIdentity([w] + tail)
  {
    forall b | 0 <= b < |tail|
      ensures StringLess(ids[0], tail[b].entry.identity)
    {
      assert tail[b] in tail;
      var x :| 0 <= x < |ids[1..]| && ids[1..][x] == tail[b].entry.identity;
      assert StringLess(ids[0], ids[x + 1]);
    }
  }

  lemma SortedAscends(s: seq<string>)
    requires forall i, j :: 0 <= i < j < |s| ==> s[i] != s[j]
    ensures Ascending(SortStrings(s)) && forall x :: x in SortStrings(s) <==> x in s
  {
    SortedStringsDistinct(s);
    StringsAreOrdered();
    SortOrders(s, StringLess);
    var r := SortStrings(s);
    hide SortStrings;
    forall a, b | 0 <= a < b < |r|
      ensures StringLess(r[a], r[b])
    {
      assert !StringLess(r[b], r[a]);
      StringOrderIsTotal(r[a], r[b]);
    }
  }

  lemma StringsAreOrdered()
    ensures IsOrder(StringLess)
  {
    forall a, b | StringLess(a, b)
      ensures !StringLess(b, a)
    {
      StringOrderIsStrict(a, b);
    }
    forall a, b, c | !StringLess(b, a) && !StringLess(c, b)
      ensures !StringLess(c, a)
    {
      OlderPairIsTransitive(0, a, 0, b, 0, c);
    }
  }

  // ---------------------------------------------------------------- all of it

  ghost function Rest(es: seq<Entry>, merges: seq<Merge>): seq<Entry> {
    Unmerged(es, MergedNames(es, merges, |merges|))
  }

  ghost function AllWork(es: seq<Entry>, merges: seq<Merge>, renumber: bool): seq<Work> {
    var rest := Rest(es, merges);
    MergeWork(es, merges, 0) + if renumber then LoneWork(rest, SortStrings(Identities(rest))) else []
  }

  lemma RestIs(es: seq<Entry>, merges: seq<Merge>)
    requires Distinct(es)
    ensures Distinct(Rest(es, merges))
    ensures forall e :: e in Rest(es, merges) <==> e in es && !IsSource(e.identity, merges)
  {
    var names := MergedNames(es, merges, |merges|);
    UnmergedDistinct(es, names);
    forall e | e in es
      ensures e.name in names <==> IsSource(e.identity, merges)
    {
      if e.name in names {
        var f :| f in es && f.name == e.name && exists i :: 0 <= i < |merges| && merges[i].source == f.identity;
        NameDeterminesEntry(es, e, f);
        var i :| 0 <= i < |merges| && merges[i].source == f.identity;
        assert merges[i] in merges;
      }
      if IsSource(e.identity, merges) {
        var m :| m in merges && m.source == e.identity;
        var i :| 0 <= i < |merges| && merges[i] == m;
      }
    }
  }

  /** The list holds what is wanted of each plan, and nothing else. */
  lemma WorkIsWanted(es: seq<Entry>, merges: seq<Merge>, renumber: bool)
    requires Scanned(es)
    ensures forall w :: w in AllWork(es, merges, renumber) ==>
      w.entry in es && IsWanted(es, merges, renumber, w.entry, ChangeOf(w))
    ensures forall e, c :: e in es && IsWanted(es, merges, renumber, e, c) ==> Listed(AllWork(es, merges, renumber), e, c)
  {
    var rest := Rest(es, merges);
    var ids := SortStrings(Identities(rest));
    RestIs(es, merges);
    MergeWorkIs(es, merges, 0);
    LoneWorkIs(rest, ids);
    SortedStringsDistinct(Identities(rest));
    hide MergeWork, LoneWork, Rest, Identities, SortStrings, Scanned, ChangeOf, Renaming, IsSource, IsWanted, Listed,
      SomeMerge, IsLoneOf, IsAlone;
    var ws := AllWork(es, merges, renumber);
    forall w | w in ws
      ensures w.entry in es && IsWanted(es, merges, renumber, w.entry, ChangeOf(w))
    {
      if w in MergeWork(es, merges, 0) {
        MergeIsWanted(es, merges, renumber, w);
      } else {
        LoneIsWanted(es, merges, rest, w);
      }
    }
    forall e, c | e in es && IsWanted(es, merges, renumber, e, c)
      ensures Listed(ws, e, c)
    {
      var w := WantedWork(es, merges, renumber, rest, e, c);
      IsListed(ws, w);
    }
  }

  lemma MergeIsWanted(es: seq<Entry>, merges: seq<Merge>, renumber: bool, w: Work)
    requires SomeMerge(es, merges, 0, w)
    ensures w.entry in es && IsWanted(es, merges, renumber, w.entry, ChangeOf(w))
  {
    hide PlanName;
    var i :| 0 <= i < |merges| && IsMergeOf(es, merges[i], w);
    assert merges[i] in merges;
  }

  lemma LoneIsWanted(es: seq<Entry>, merges: seq<Merge>, rest: seq<Entry>, w: Work)
    requires IsLoneOf(rest, w) && forall f :: f in rest <==> f in es && !IsSource(f.identity, merges)
    ensures w.entry in es && IsWanted(es, merges, true, w.entry, ChangeOf(w))
  {
    hide PlanName, IsSource;
  }

  lemma WantedWork(es: seq<Entry>, merges: seq<Merge>, renumber: bool, rest: seq<Entry>, e: Entry, c: Change)
    returns (w: Work)
    requires e in es && IsWanted(es, merges, renumber, e, c)
    requires forall f :: f in rest <==> f in es && !IsSource(f.identity, merges)
    ensures w.entry == e && ChangeOf(w) == c
    ensures (exists i :: 0 <= i < |merges| && merges[i].source == e.identity && w == Work(e, merges[i].target, e.version))
            || (renumber && e in rest && IsAlone(rest, e) && w == Work(e, e.identity, 1))
  {
    hide PlanName, IsSource;
    if m :| m in merges && m.source == e.identity && c == Renaming(e, m.target, e.version) {
      var i :| 0 <= i < |merges| && merges[i] == m;
      w := Work(e, merges[i].target, e.version);
    } else {
      w := Work(e, e.identity, 1);
    }
  }

  ghost predicate Listed(ws: seq<Work>, e: Entry, c: Change) {
    exists k :: 0 <= k < |ws| && ws[k].entry == e && ChangeOf(ws[k]) == c
  }

  lemma IsListed(ws: seq<Work>, w: Work)
    requires w in ws
    ensures Listed(ws, w.entry, ChangeOf(w))
  {
    var k :| 0 <= k < |ws| && ws[k] == w;
  }

  lemma WorkInOrder(es: seq<Entry>, merges: seq<Merge>, renumber: bool)
    requires Scanned(es)
    ensures InOrder(merges, AllWork(es, merges, renumber))
  {
    var rest := Rest(es, merges);
    var ids := SortStrings(Identities(rest));
    RestIs(es, merges);
    MergeWorkIs(es, merges, 0);
    MergeWorkInOrder(es, merges, 0);
    SortedAscends(Identities(rest));
    LoneWorkInOrder(rest, ids);
    LoneWorkIs(rest, ids);
    hide MergeWork, LoneWork, Rest, Identities, SortStrings, Scanned, StringLess, MergedBefore, IsAlone;
    var front, back, ws := MergeWork(es, merges, 0), LoneWork(rest, ids), AllWork(es, merges, renumber);
    forall w | w in front
      ensures IsSource(w.entry.identity, merges)
    {
      assert SomeMerge(es, merges, 0, w);
      var i :| 0 <= i < |merges| && IsMergeOf(es, merges[i], w);
      assert merges[i] in merges;
    }
    BothInOrder(merges, front, if renumber then back else []);
  }

  lemma BothInOrder(merges: seq<Merge>, front: seq<Work>, back: seq<Work>)
    requires forall a, b :: 0 <= a < b < |front| ==> MergedBefore(merges, front[a].entry, front[b].entry)
    requires ByIdentity(back)
    requires forall w :: w in front ==> IsSource(w.entry.identity, merges)
    requires forall w :: w in back ==> !IsSource(w.entry.identity, merges)
    ensures InOrder(merges, front + back)
  {
    hide IsSource, MergedBefore, StringLess;
    var ws := front + back;
    forall a, b | 0 <= a < b < |ws|
      ensures Before(merges, ws[a].entry, ws[b].entry)
    {
      assert ws[a] in front || ws[a] in back;
      if a >= |front| {
        assert ws[a] == back[a - |front|] && ws[b] == back[b - |front|] && ws[a] in back && ws[b] in back;
      } else if b >= |front| {
        assert ws[a] in front && ws[b] == back[b - |front|] && ws[b] in back;
      } else {
        assert ws[a] in front && ws[b] in front;
      }
    }
  }

  /** What comes before something does not come after it. */
  lemma NotBothBefore(merges: seq<Merge>, e: Entry, f: Entry)
    requires DistinctSources(merges) && Before(merges, e, f)
    ensures !Before(merges, f, e)
  {
    if IsSource(e.identity, merges) {
      if IsSource(f.identity, merges) {
        forall i, j | 0 <= i < |merges| && 0 <= j < |merges| && merges[i].source == merges[j].source
          ensures i == j
        {
        }
      }
    } else {
      StringOrderIsStrict(e.identity, f.identity);
    }
  }

  lemma WorkIsProper(es: seq<Entry>, merges: seq<Merge>, renumber: bool)
    requires Scanned(es) && DistinctSources(merges)
    ensures Proper(Names(es), AllWork(es, merges, renumber))
  {
    var ws := AllWork(es, merges, renumber);
    WorkIsWanted(es, merges, renumber);
    WorkInOrder(es, merges, renumber);
    hide AllWork, IsWanted, Before, DistinctSources;
    forall i | 0 <= i < |ws|
      ensures ws[i].entry in es
    {
      assert ws[i] in ws;
    }
    forall i, j | 0 <= i < j < |ws|
      ensures ws[i].entry.name != ws[j].entry.name
    {
      NotBothBefore(merges, ws[i].entry, ws[j].entry);
      if ws[i].entry.name == ws[j].entry.name {
        NameDeterminesEntry(es, ws[i].entry, ws[j].entry);
      }
    }
  }

  /** The plan is that of the list, when the groups are there. */
  lemma RenamesArePlanned(es: seq<Entry>, merges: seq<Merge>, renumber: bool)
    requires Scanned(es) && DistinctSources(merges)
    ensures var r := RenameChanges(es, merges, renumber);
      var all := PlanAll(Plan([], Names(es)), AllWork(es, merges, renumber));
      && (r.Success? <==> all.Success? && forall i :: 0 <= i < |merges| ==> HasGroup(es, merges[i]))
      && (r.Success? ==> r == all)
  {
    hide MergeAll, RenumberAll, HasGroup, MergeWork, LoneWork, PlanAll, Identities, SortStrings, Unmerged, ParseName,
      PlanName;
    var start := Plan([], Names(es));
    assert merges[0..] == merges;
    assert SafePlan(Names(es), start);
    MergesArePlanned(start, es, merges, 0);
    var rest := Rest(es, merges);
    var back := LoneWork(rest, SortStrings(Identities(rest)));
    var merged := MergeAll(start, es, merges);
    PlanBoth(start, MergeWork(es, merges, 0), back);
    assert MergeWork(es, merges, 0) + [] == MergeWork(es, merges, 0);
    if merged.Success? {
      MergeAllIsSafe(es, merges, 0, start);
      LoneArePlanned(merged.value, rest, SortStrings(Identities(rest)));
    }
  }

  /** What is known of the list. */
  ghost predicate IsWork(es: seq<Entry>, merges: seq<Merge>, renumber: bool, ws: seq<Work>) {
    && (forall k :: 0 <= k < |ws| ==> ws[k].entry in es && IsWanted(es, merges, renumber, ws[k].entry, ChangeOf(ws[k])))
    && (forall e, c :: e in es && IsWanted(es, merges, renumber, e, c) ==> Listed(ws, e, c))
    && InOrder(merges, ws) && Proper(Names(es), ws)
  }

  lemma WorkIs(es: seq<Entry>, merges: seq<Merge>, renumber: bool)
    requires Scanned(es) && DistinctSources(merges)
    ensures IsWork(es, merges, renumber, AllWork(es, merges, renumber))
  {
    var ws := AllWork(es, merges, renumber);
    WorkIsWanted(es, merges, renumber);
    WorkInOrder(es, merges, renumber);
    WorkIsProper(es, merges, renumber);
    hide AllWork, IsWanted, InOrder, DistinctSources, Scanned, Proper, Listed, ChangeOf;
    forall k | 0 <= k < |ws|
      ensures ws[k].entry in es && IsWanted(es, merges, renumber, ws[k].entry, ChangeOf(ws[k]))
    {
      assert ws[k] in ws;
    }
  }

  /** A clash in the list is one of the renamings that are wanted. */
  lemma FreeFrom(es: seq<Entry>, merges: seq<Merge>, renumber: bool, ws: seq<Work>, k: nat)
    requires Distinct(es) && IsWork(es, merges, renumber, ws) && k < |ws|
    requires forall j :: 0 <= j < |ws| ==> FreeAt(Names(es), ws, j)
    ensures IsFree(es, merges, renumber, ws[k].entry, ChangeOf(ws[k]))
  {
    hide IsWanted, Before, Renaming;
    var e, c := ws[k].entry, ChangeOf(ws[k]);
    forall f | f in es && f.name == c.renameTo
      ensures IsRenamed(es, merges, renumber, f) && Before(merges, f, e)
    {
      assert FreeAt(Names(es), ws, k) && f.name in Names(es);
      var j :| 0 <= j < k && ws[j].entry.name == c.renameTo;
      NameDeterminesEntry(es, ws[j].entry, f);
    }
    forall f, d | f in es && f != e && IsWanted(es, merges, renumber, f, d)
      ensures d.renameTo != c.renameTo
    {
      assert Listed(ws, f, d);
      var j :| 0 <= j < |ws| && ws[j].entry == f && ChangeOf(ws[j]) == d;
      assert FreeAt(Names(es), ws, j) && FreeAt(Names(es), ws, k);
    }
  }

  lemma FreeTo(es: seq<Entry>, merges: seq<Merge>, renumber: bool, ws: seq<Work>, k: nat)
    requires Distinct(es) && DistinctSources(merges) && IsWork(es, merges, renumber, ws) && k < |ws|
    requires IsFree(es, merges, renumber, ws[k].entry, ChangeOf(ws[k]))
    ensures FreeAt(Names(es), ws, k)
  {
    hide IsWanted, Before, Renaming, DistinctSources;
    var e, c := ws[k].entry, ChangeOf(ws[k]);
    if c.renameTo in Names(es) {
      var f :| f in es && f.name == c.renameTo;
      var d :| IsWanted(es, merges, renumber, f, d);
      assert Listed(ws, f, d);
      var j :| 0 <= j < |ws| && ws[j].entry == f && ChangeOf(ws[j]) == d;
      NotBothBefore(merges, f, e);
      assert j < k;
    }
    forall j | 0 <= j < k
      ensures NewName(ws[j]) != NewName(ws[k])
    {
      assert ws[j].entry.name != e.name;
    }
  }

  /** Each new name that is wanted is free when its turn comes. */
  ghost predicate AllFree(es: seq<Entry>, merges: seq<Merge>, renumber: bool) {
    forall e, c :: e in es && IsWanted(es, merges, renumber, e, c) ==> IsFree(es, merges, renumber, e, c)
  }

  lemma NoClashIff(es: seq<Entry>, merges: seq<Merge>, renumber: bool, ws: seq<Work>)
    requires Distinct(es) && DistinctSources(merges) && IsWork(es, merges, renumber, ws)
    ensures (forall k :: 0 <= k < |ws| ==> FreeAt(Names(es), ws, k)) <==> AllFree(es, merges, renumber)
  {
    hide IsWanted, FreeAt, IsFree, Proper, InOrder, DistinctSources, Distinct, Names, ChangeOf;
    if AllFree(es, merges, renumber) {
      forall k | 0 <= k < |ws|
        ensures FreeAt(Names(es), ws, k)
      {
        FreeTo(es, merges, renumber, ws, k);
      }
    }
    if forall k :: 0 <= k < |ws| ==> FreeAt(Names(es), ws, k) {
      forall e, c | e in es && IsWanted(es, merges, renumber, e, c)
        ensures IsFree(es, merges, renumber, e, c)
      {
        assert Listed(ws, e, c);
        var k :| 0 <= k < |ws| && ws[k].entry == e && ChangeOf(ws[k]) == c;
        FreeFrom(es, merges, renumber, ws, k);
      }
    }
  }

  lemma WorkFacts(es: seq<Entry>, merges: seq<Merge>, renumber: bool, ws: seq<Work>)
    requires IsWork(es, merges, renumber, ws)
    ensures Proper(Names(es), ws)
  {
  }

  /** For distinct sources the renames are accepted exactly when every merge finds its group, or that which it was merged
      into, and each new name that is wanted is free when its turn comes; then they are exactly those wanted, in order. */
  lemma AcceptedIff(es: seq<Entry>, merges: seq<Merge>, renumber: bool)
    requires Scanned(es) && DistinctSources(merges)
    ensures var r := RenameChanges(es, merges, renumber);
      && (r.Success? <==> (forall m :: m in merges ==> HasGroup(es, m)) && AllFree(es, merges, renumber))
      && (r.Success? ==> AreWanted(es, merges, renumber, r.value.changes))
  {
    hide AllWork, RenameChanges, PlanAll, HasGroup, FreeAt, AllFree, AreWanted, IsWork, Proper, DistinctSources, Names,
      TakenAre;
    var ws := AllWork(es, merges, renumber);
    WorkIs(es, merges, renumber);
    WorkFacts(es, merges, renumber, ws);
    RenamesArePlanned(es, merges, renumber);
    PlanAllIff(Names(es), ws, |ws|);
    assert ws[..|ws|] == ws;
    NoClashIff(es, merges, renumber, ws);
    if RenameChanges(es, merges, renumber).Success? {
      WantedInOrder(es, merges, renumber, ws, RenameChanges(es, merges, renumber).value.changes);
    }
  }

  /** These are the renames that are wanted, each once, in the order in which they come. */
  ghost predicate AreWanted(es: seq<Entry>, merges: seq<Merge>, renumber: bool, changes: seq<Change>) {
    && (forall e, c :: e in es && IsWanted(es, merges, renumber, e, c) ==> c in changes)
    && (forall k :: 0 <= k < |changes| ==> ForSome(es, merges, renumber, changes[k]))
    && (forall a, b, e, f :: 0 <= a < b < |changes| && e in es && f in es && IsOf(e, changes[a]) && IsOf(f, changes[b]) ==>
          Before(merges, e, f))
  }

  predicate IsOf(e: Entry, c: Change) {
    e.name == c.path
  }

  ghost predicate ForSome(es: seq<Entry>, merges: seq<Merge>, renumber: bool, c: Change) {
    exists e :: e in es && IsWanted(es, merges, renumber, e, c)
  }

  lemma WantedInOrder(es: seq<Entry>, merges: seq<Merge>, renumber: bool, ws: seq<Work>, changes: seq<Change>)
    requires Distinct(es) && IsWork(es, merges, renumber, ws) && ChangesAre(changes, ws)
    ensures AreWanted(es, merges, renumber, changes)
  {
    hide IsWanted, Before;
    forall e, c | e in es && IsWanted(es, merges, renumber, e, c)
      ensures c in changes
    {
      assert Listed(ws, e, c);
      var k :| 0 <= k < |ws| && ws[k].entry == e && ChangeOf(ws[k]) == c;
      assert changes[k] == c;
    }
    forall a, b, e, f | 0 <= a < b < |changes| && e in es && f in es && IsOf(e, changes[a]) && IsOf(f, changes[b])
      ensures Before(merges, e, f)
    {
      NameDeterminesEntry(es, e, ws[a].entry);
      NameDeterminesEntry(es, f, ws[b].entry);
    }
  }
}
