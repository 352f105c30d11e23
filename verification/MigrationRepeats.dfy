/**
 When the renames of an accepted plan are all carried out, whatever merges were asked for: a source may be given more
 than once, and then only the last change of a path counts.
 */
module MigrationRepeats {
  import opened Wrappers
  import opened Sorting
  import opened PlanNames
  import opened MigrationPlan
  import opened MigrationSafety
  import opened MigrationApply
  import opened MigrationLaws

  // ---------------------------------------------------------------- what any accepted plan consists of

  /** The change is of a plan that was scanned, to the plan name of its version and identity. */
  predicate OfPlan(c: Change, es: seq<Entry>) {
    c.path in Names(es) && c.renameTo == PlanName(c.version, c.identity)
  }

  ghost predicate OfPlans(changes: seq<Change>, es: seq<Entry>) {
    forall c :: c in changes ==> OfPlan(c, es)
  }

  lemma {:induction false} MergeGroupOfPlans(plan: Plan, members: seq<Entry>, target: string, es: seq<Entry>)
    requires OfPlans(plan.changes, es) && MergeGroup(plan, members, target).Success?
    requires forall e :: e in members ==> e in es
    ensures OfPlans(MergeGroup(plan, members, target).value.changes, es)
    decreases |members|
  {
    hide PlanName;
    if |members| > 0 {
      MergeGroupOfPlans(PlanOne(plan, members[0], target, members[0].version).value, members[1..], target, es);
    }
  }

  lemma {:induction false} MergeAllOfPlans(plan: Plan, es: seq<Entry>, merges: seq<Merge>)
    requires OfPlans(plan.changes, es) && MergeAll(plan, es, merges).Success?
    ensures OfPlans(MergeAll(plan, es, merges).value.changes, es)
    decreases |merges|
  {
    hide OfPlans, MergeGroup;
    if |merges| > 0 {
      var members := Group(es, merges[0].source);
      if |members| > 0 {
        SortMembers(members, LowerVersion);
        MergeGroupOfPlans(plan, SortByVersion(members), merges[0].target, es);
      }
      MergeAllOfPlans(MergeOne(plan, es, merges[0]).value, es, merges[1..]);
    }
  }

  lemma {:induction false} RenumberAllOfPlans(plan: Plan, es: seq<Entry>, all: seq<Entry>, ids: seq<string>)
    requires OfPlans(plan.changes, all) && RenumberAll(plan, es, ids).Success? && forall e :: e in es ==> e in all
    ensures OfPlans(RenumberAll(plan, es, ids).value.changes, all)
    decreases |ids|
  {
    hide PlanName;
    if |ids| > 0 {
      RenumberAllOfPlans(RenumberOne(plan, es, ids[0]).value, es, all, ids[1..]);
    }
  }

  lemma AcceptedOfPlans(es: seq<Entry>, merges: seq<Merge>, renumber: bool)
    requires RenameChanges(es, merges, renumber).Success?
    ensures OfPlans(RenameChanges(es, merges, renumber).value.changes, es)
  {
    hide MergeAll, RenumberAll;
    var start := Plan([], Names(es));
    MergeAllOfPlans(start, es, merges);
    if renumber {
      var merged := MergeAll(start, es, merges).value;
      var rest := Unmerged(es, Paths(merged.changes));
      RenumberAllOfPlans(merged, rest, es, SortStrings(Identities(rest)));
    }
  }

  // ---------------------------------------------------------------- which renames are carried out

  ghost predicate PathsDistinct(changes: seq<Change>) {
    forall i, j :: 0 <= i < j < |changes| ==> changes[i].path != changes[j].path
  }

  /** The changes of a dictionary by path, of plans in the directory. */
  ghost predicate Renames(dir: Directory, changes: seq<Change>) {
    && PathsDistinct(changes)
    && forall c :: c in changes ==> c.path in dir && !IsTemporary(c.path) && !IsTemporary(c.renameTo)
  }

  /** The new name of the `k`-th rename is a name, no earlier rename has it, and if a file has it an earlier rename takes
      that file away. */
  ghost predicate WillBeFree(dir: Directory, changes: seq<Change>, k: nat)
    requires k < |changes|
  {
    var to := changes[k].renameTo;
    && '/' !in to
    && (forall j :: 0 <= j < k ==> changes[j].renameTo != to)
    && (to in dir ==> exists j :: 0 <= j < k && changes[j].path == to)
  }

  ghost predicate AllWillBeFree(dir: Directory, changes: seq<Change>) {
    forall k :: 0 <= k < |changes| ==> WillBeFree(dir, changes, k)
  }

  /** A file has this name once all renames are done. */
  ghost predicate Stands(dir: Directory, changes: seq<Change>, n: string) {
    (n in dir && forall j :: 0 <= j < |changes| ==> changes[j].path != n)
    || exists j :: 0 <= j < |changes| && changes[j].renameTo == n
  }

  lemma FreeFront(dir: Directory, changes: seq<Change>)
    requires |changes| > 0
    ensures var front := changes[..|changes| - 1];
      AllWillBeFree(dir, changes) <==> AllWillBeFree(dir, front) && WillBeFree(dir, changes, |changes| - 1)
  {
    var front := changes[..|changes| - 1];
    assert forall k :: 0 <= k < |front| ==> (WillBeFree(dir, changes, k) <==> WillBeFree(dir, front, k));
  }

  lemma NeverOnto(dir: Directory, changes: seq<Change>, path: string)
    requires AllWillBeFree(dir, changes) && path in dir && forall j :: 0 <= j < |changes| ==> changes[j].path != path
    ensures forall j :: 0 <= j < |changes| ==> changes[j].renameTo != path
  {
    forall j | 0 <= j < |changes|
      ensures changes[j].renameTo != path
    {
      assert WillBeFree(dir, changes, j);
    }
  }

  /** One more rename: its new name was free exactly when nothing stood there, and then stands in place of the old. */
  lemma StandsPush(dir: Directory, front: seq<Change>, c: Change)
    requires Renames(dir, front + [c]) && AllWillBeFree(dir, front)
    ensures Stands(dir, front, c.path)
    ensures WillBeFree(dir, front + [c], |front|) <==> '/' !in c.renameTo && !Stands(dir, front, c.renameTo)
    ensures !Stands(dir, front, c.renameTo) ==>
              forall n :: Stands(dir, front + [c], n) <==> n == c.renameTo || (Stands(dir, front, n) && n != c.path)
  {
    var changes := front + [c];
    assert changes[|front|] == c && c in changes;
    assert forall j :: 0 <= j < |front| ==> changes[j] == front[j];
    assert forall j :: 0 <= j < |front| ==> front[j].path != c.path by {
      assert forall j :: 0 <= j < |front| ==> changes[j].path != changes[|front|].path;
    }
    NeverOnto(dir, front, c.path);
    if !Stands(dir, front, c.renameTo) {
      forall n
        ensures Stands(dir, changes, n) <==> n == c.renameTo || (Stands(dir, front, n) && n != c.path)
      {
        if n == c.renameTo {
          assert changes[|front|].renameTo == n;
        } else if Stands(dir, front, n) && n != c.path {
          if j :| 0 <= j < |front| && front[j].renameTo == n {
            assert changes[j].renameTo == n;
          }
        }
      }
    }
  }

  lemma NamesAfterRename(d: Directory, c: Change, header: Option<HeaderChange>)
    requires c.path in d && !IsTemporary(c.path)
    ensures var r := ApplyRename(d, c, header);
      && (r.Success? <==> '/' !in c.renameTo && c.renameTo !in d)
      && (r.Success? ==> forall n :: !IsTemporary(n) ==> (n in r.value <==> n == c.renameTo || (n in d && n != c.path)))
  {
    hide Written, IsTemporary;
    TemporaryEnds(c.renameTo);
  }

  /** The last rename, after all before it. */
  lemma LastRename(dir: Directory, changes: seq<Change>, d: Directory, header: Option<HeaderChange>)
    requires Renames(dir, changes) && |changes| > 0 && AllWillBeFree(dir, changes[..|changes| - 1])
    requires forall n :: !IsTemporary(n) ==> (n in d <==> Stands(dir, changes[..|changes| - 1], n))
    ensures var r := ApplyRename(d, changes[|changes| - 1], header);
      && (r.Success? <==> WillBeFree(dir, changes, |changes| - 1))
      && (r.Success? ==> forall n :: !IsTemporary(n) ==> (n in r.value <==> Stands(dir, changes, n)))
  {
    var front, c := changes[..|changes| - 1], changes[|changes| - 1];
    assert c in changes && changes == front + [c];
    StandsPush(dir, front, c);
    hide IsTemporary, WillBeFree, AllWillBeFree, Stands, ApplyRename;
    NamesAfterRename(d, c, header);
  }

  lemma TemporaryEnds(name: string)
    ensures IsTemporary(name + TEMPORARY)
  {
    assert (name + TEMPORARY)[|name|..] == TEMPORARY;
  }

  /** The renames are all carried out exactly when each new name will be free at its turn. */
  lemma {:induction false} RenamesAreDoneIff(dir: Directory, changes: seq<Change>, headers: seq<HeaderChange>)
    requires Renames(dir, changes)
    ensures var (d, done) := ApplyRenames(dir, changes, headers);
      && (done == |changes| <==> AllWillBeFree(dir, changes))
      && (done == |changes| ==> forall n :: !IsTemporary(n) ==> (n in d <==> Stands(dir, changes, n)))
  {
    hide ApplyRename, IsTemporary, HeaderFor, WillBeFree;
    if |changes| > 0 {
      var front, c := changes[..|changes| - 1], changes[|changes| - 1];
      assert Renames(dir, front);
      RenamesAreDoneIff(dir, front, headers);
      FreeFront(dir, changes);
      hide AllWillBeFree, Stands, Renames;
      var (d, done) := ApplyRenames(dir, front, headers);
      if done == |front| {
        LastRename(dir, changes, d, HeaderFor(headers, c.path));
      }
    }
  }

  // ---------------------------------------------------------------- whole runs

  lemma {:induction false} PutMembers(changes: seq<Change>, c: Change)
    requires PathsDistinct(changes)
    ensures PathsDistinct(Put(changes, c))
    ensures forall d :: d in Put(changes, c) ==> d == c || (d in changes && d.path != c.path)
  {
    if |changes| > 0 && changes[0].path != c.path {
      PutMembers(changes[1..], c);
    }
  }

  lemma {:induction false} RenameMapMembers(changes: seq<Change>)
    ensures PathsDistinct(RenameMap(changes))
    ensures forall c :: c in RenameMap(changes) ==> c in changes
  {
    hide Put;
    if |changes| > 0 {
      var front := changes[..|changes| - 1];
      RenameMapMembers(front);
      PutMembers(RenameMap(front), changes[|changes| - 1]);
    }
  }

  /** Whatever the merges, an accepted run carries out all its renames exactly when each new name is a name, no earlier
      rename has it, and a file that has it is renamed before. */
  lemma RunCompletesIff(dir: Directory, names: seq<string>, merges: seq<Merge>, renumber: bool, plan: Plan)
    requires Lists(names, dir) && RenameChanges(Scan(dir, names), merges, renumber) == Success(plan)
    ensures Run(dir, names, merges, renumber).Ran?
    ensures Run(dir, names, merges, renumber).report.applied <==> AllWillBeFree(dir, RenameMap(plan.changes))
  {
    hide ApplyRenames, ApplyHeaders, RenameChanges, RenameMap, PlanHeaders, AllWillBeFree, Scan, PathsDistinct,
      HasHeader, ParseName;
    var es, renames := Scan(dir, names), RenameMap(plan.changes);
    ScanIsScanned(dir, names);
    AcceptedOfPlans(es, merges, renumber);
    RenameMapMembers(plan.changes);
    forall c | c in renames
      ensures c.path in dir && !IsTemporary(c.path) && !IsTemporary(c.renameTo)
    {
      assert OfPlan(c, es);
      var e :| e in es && e.name == c.path;
      PlanNameOfParse(e.name);
      PlanNamesAreNotTemporary(e.version, e.identity);
      PlanNamesAreNotTemporary(c.version, c.identity);
    }
    RenamesAreDoneIff(dir, renames, PlanHeaders(FinalEntries(es, plan.changes)));
  }

  // ---------------------------------------------------------------- a run that stops half way

  lemma DifferentSlugs(a: string, b: string)
    requires a != b
    ensures PlanName(1, a) != PlanName(1, b)
  {
    if PlanName(1, a) == PlanName(1, b) {
      PlanNameIsInjective(1, a, 1, b);
    }
  }

  lemma OneMember(plan: Plan, es: seq<Entry>, m: Merge, e: Entry)
    requires Group(es, m.source) == [e] && PlanName(e.version, m.target) !in plan.taken
    ensures MergeOne(plan, es, m)
         == Success(Plan(plan.changes + [Change(e.name, PlanName(e.version, m.target), m.target, e.version)],
                         plan.taken - {e.name} + {PlanName(e.version, m.target)}))
  {
    hide PlanName, Group;
    assert [e][1..] == [] && [e][..0] == [];
    assert SortByVersion([e]) == [e];
    var plan1 := PlanOne(plan, e, m.target, e.version).value;
    assert MergeGroup(plan1, [], m.target) == Success(plan1);
    assert MergeGroup(plan, [e], m.target) == Success(plan1);
  }

  lemma PairGroups(e: Entry, f: Entry)
    requires e.identity != f.identity
    ensures Group([e, f], e.identity) == [e] && Group([e, f], f.identity) == [f]
  {
    assert [e, f][1..] == [f] && [f][1..] == [];
    assert Group([], e.identity) == [] && Group([], f.identity) == [];
    assert Group([f], f.identity) == [f] && Group([f], e.identity) == [];
  }

  const TWICE := [Merge("a", "x"), Merge("c", "d"), Merge("a", "c")]

  lemma TwiceIsAccepted(e: Entry, f: Entry)
    requires e.name == PlanName(1, "a") && e.version == 1 && e.identity == "a"
    requires f.name == PlanName(1, "c") && f.version == 1 && f.identity == "c"
    ensures RenameChanges([e, f], TWICE, false).Success?
    ensures RenameChanges([e, f], TWICE, false).value.changes
         == [Change(e.name, PlanName(1, "x"), "x", 1), Change(f.name, PlanName(1, "d"), "d", 1), Change(e.name, f.name, "c", 1)]
  {
    hide PlanName, Group, MergeOne, MergeAll;
    DifferentSlugs("a", "c");
    DifferentSlugs("a", "x");
    DifferentSlugs("c", "x");
    DifferentSlugs("c", "d");
    DifferentSlugs("x", "d");
    var es := [e, f];
    PairGroups(e, f);
    var p0 := Plan([], Names(es));
    assert p0.taken == {e.name, f.name};
    OneMember(p0, es, Merge("a", "x"), e);
    var p1 := MergeOne(p0, es, Merge("a", "x")).value;
    OneMember(p1, es, Merge("c", "d"), f);
    var p2 := MergeOne(p1, es, Merge("c", "d")).value;
    OneMember(p2, es, Merge("a", "c"), e);
    ThreeMerges(p0, es, Merge("a", "x"), Merge("c", "d"), Merge("a", "c"));
  }

  lemma ThreeMerges(plan: Plan, es: seq<Entry>, a: Merge, b: Merge, c: Merge)
    requires MergeOne(plan, es, a).Success? && MergeOne(MergeOne(plan, es, a).value, es, b).Success?
    ensures MergeAll(plan, es, [a, b, c]) == MergeOne(MergeOne(MergeOne(plan, es, a).value, es, b).value, es, c)
  {
    hide MergeOne;
    var p1 := MergeOne(plan, es, a).value;
    var p2 := MergeOne(p1, es, b).value;
    assert [c][1..] == [] && MergeAll(p2, es, [c]) == MergeOne(p2, es, c);
    assert [b, c][1..] == [c] && MergeAll(p1, es, [b, c]) == MergeAll(p2, es, [c]);
    assert [a, b, c][1..] == [b, c];
  }

  lemma LastChangeReplaces(c1: Change, c2: Change, c3: Change)
    requires c1.path == c3.path != c2.path
    ensures RenameMap([c1, c2, c3]) == [c3, c2]
  {
    assert [c1, c2, c3][..2] == [c1, c2] && [c1, c2][..1] == [c1] && [c1][..0] == [];
    assert [c1][1..] == [] && Put([], c1) == [c1] && Put([], c2) == [c2];
    assert RenameMap([c1]) == [c1];
    assert RenameMap([c1, c2]) == [c1, c2];
  }

  /** With `a` merged twice the plan is accepted, but its first rename finds the target taken, because only the last
      change of a path is carried out. */
  lemma SourceGivenTwiceStops(dir: Directory, e: Entry, f: Entry, headers: seq<HeaderChange>)
    requires e.name == PlanName(1, "a") && e.version == 1 && e.identity == "a"
    requires f.name == PlanName(1, "c") && f.version == 1 && f.identity == "c"
    requires e.name in dir && f.name in dir
    ensures RenameChanges([e, f], TWICE, false).Success?
    ensures var renames := RenameMap(RenameChanges([e, f], TWICE, false).value.changes);
      |renames| == 2 && ApplyRenames(dir, renames, headers) == (dir, 0)
  {
    TwiceIsAccepted(e, f);
    DifferentSlugs("a", "c");
    hide PlanName, RenameChanges, RenameMap, HeaderFor, ApplyHeader, ApplyRenames;
    var c2, c3 := Change(f.name, PlanName(1, "d"), "d", 1), Change(e.name, f.name, "c", 1);
    LastChangeReplaces(Change(e.name, PlanName(1, "x"), "x", 1), c2, c3);
    assert ApplyRename(dir, c3, HeaderFor(headers, c3.path)).Failure?;
    FirstIsRefused(dir, c3, c2, headers);
  }

  lemma FirstIsRefused(dir: Directory, first: Change, second: Change, headers: seq<HeaderChange>)
    requires ApplyRename(dir, first, HeaderFor(headers, first.path)).Failure?
    ensures ApplyRenames(dir, [first, second], headers) == (dir, 0)
  {
    hide ApplyRename, HeaderFor;
    assert [first, second][..1] == [first] && [first][..0] == [];
    assert ApplyRenames(dir, [first], headers) == (dir, 0);
  }
}
