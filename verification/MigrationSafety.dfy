/** An accepted plan never renames a file onto a plan that is there when its turn comes. */
module MigrationSafety {
  import opened Wrappers
  import opened Sorting
  import opened PlanNames
  import opened MigrationPlan

  ghost predicate Distinct(es: seq<Entry>) {
    forall i, j :: 0 <= i < j < |es| ==> es[i].name != es[j].name
  }

  /** Entries as `scan` produces them. */
  ghost predicate Scanned(es: seq<Entry>) {
    && Distinct(es)
    && forall e :: e in es ==> ParseName(e.name) == Some(Parsed(e.version, e.identity))
  }

  lemma {:induction false} ScanIsScanned(dir: Directory, names: seq<string>)
    requires forall n :: n in names ==> n in dir
    requires forall i, j :: 0 <= i < j < |names| ==> names[i] != names[j]
    ensures Scanned(Scan(dir, names))
    ensures forall e :: e in Scan(dir, names) ==> e.name in names && e.header == HasHeader(dir[e.name])
    ensures forall n :: n in names && ParseName(n).Some? ==> exists e :: e in Scan(dir, names) && e.name == n
  {
    hide HasHeader, ParseName;
    if |names| > 0 {
      ScanIsScanned(dir, names[1..]);
      var rest := Scan(dir, names[1..]);
      forall n | n in names && ParseName(n).Some?
        ensures exists e :: e in Scan(dir, names) && e.name == n
      {
        if n == names[0] {
          assert Scan(dir, names)[0].name == n;
        } else {
          assert n in names[1..];
          var e :| e in rest && e.name == n;
          assert e in Scan(dir, names);
        }
      }
    }
  }

  // ---------------------------------------------------------------- sub-lists keep names distinct

  lemma {:induction false} GroupDistinct(es: seq<Entry>, identity: string)
    requires Distinct(es)
    ensures Distinct(Group(es, identity))
  {
    if |es| > 0 {
      GroupDistinct(es[1..], identity);
      forall e | e in Group(es[1..], identity)
        ensures e.name != es[0].name
      {
        assert e in es[1..];
      }
    }
  }

  lemma {:induction false} UnmergedDistinct(es: seq<Entry>, paths: set<string>)
    requires Distinct(es)
    ensures Distinct(Unmerged(es, paths))
  {
    if |es| > 0 {
      UnmergedDistinct(es[1..], paths);
      forall e | e in Unmerged(es[1..], paths)
        ensures e.name != es[0].name
      {
        assert e in es[1..];
      }
    }
  }

  lemma SortDistinct(es: seq<Entry>)
    requires Distinct(es)
    ensures Distinct(SortByVersion(es))
    ensures forall f :: f in SortByVersion(es) <==> f in es
  {
    var sorted := SortByVersion(es);
    SortMembers(es, LowerVersion);
    assert forall i, j :: 0 <= i < j < |es| ==> es[i] != es[j];
    PermutationDistinct(es, sorted);
    hide SortByVersion;
    forall i, j | 0 <= i < j < |sorted|
      ensures sorted[i].name != sorted[j].name
    {
      assert sorted[i] in es && sorted[j] in es;
      if sorted[i].name == sorted[j].name {
        NameDeterminesEntry(es, sorted[i], sorted[j]);
      }
    }
  }

  // ---------------------------------------------------------------- safe plans

  /** The plan names present once the changes are carried out in order. */
  ghost function NamesAfter(names: set<string>, changes: seq<Change>): set<string> {
    if |changes| == 0 then names
    else
      var c := changes[|changes| - 1];
      NamesAfter(names, changes[..|changes| - 1]) - {c.path} + {c.renameTo}
  }

  /** Each change renames a plan that no earlier change has renamed to a name that is free by then. */
  ghost predicate SafeChanges(names: set<string>, changes: seq<Change>) {
    |changes| == 0 ||
    var front, c := changes[..|changes| - 1], changes[|changes| - 1];
    SafeChanges(names, front) && c.path in names && c.path !in Paths(front) && c.renameTo !in NamesAfter(names, front)
  }

  ghost predicate SafePlan(names: set<string>, plan: Plan) {
    SafeChanges(names, plan.changes) && plan.taken == NamesAfter(names, plan.changes)
  }

  lemma PathsPush(changes: seq<Change>, c: Change)
    ensures Paths(changes + [c]) == Paths(changes) + {c.path}
  {
  }

  lemma PlanOneIsSafe(names: set<string>, plan: Plan, e: Entry, identity: string, version: nat)
    requires SafePlan(names, plan) && e.name in names && e.name !in Paths(plan.changes)
    requires PlanOne(plan, e, identity, version).Success?
    ensures var plan' := PlanOne(plan, e, identity, version).value;
      SafePlan(names, plan') && Paths(plan'.changes) == Paths(plan.changes) + {e.name}
  {
    var plan' := PlanOne(plan, e, identity, version).value;
    assert plan'.changes[..|plan.changes|] == plan.changes;
    PathsPush(plan.changes, plan'.changes[|plan.changes|]);
  }

  ghost predicate IsSource(identity: string, merges: seq<Merge>) {
    exists m :: m in merges && m.source == identity
  }

  /** What a merge or a renumbering may turn an entry into. */
  ghost predicate FromEntry(c: Change, es: seq<Entry>, merges: seq<Merge>) {
    && c.renameTo == PlanName(c.version, c.identity)
    && (exists e :: e in es && e.name == c.path
          && ((Merge(e.identity, c.identity) in merges && c.version == e.version)
              || (c.identity == e.identity && c.version == 1 && !IsSource(e.identity, merges))))
  }

  ghost predicate AllFrom(changes: seq<Change>, es: seq<Entry>, merges: seq<Merge>) {
    forall c :: c in changes ==> FromEntry(c, es, merges)
  }

  lemma {:induction false} MergeGroupIsSafe(names: set<string>, plan: Plan, members: seq<Entry>, m: Merge,
                                            es: seq<Entry>, merges: seq<Merge>)
    requires SafePlan(names, plan) && Distinct(members) && m in merges && AllFrom(plan.changes, es, merges)
    requires forall e :: e in members ==> e in es && e.identity == m.source && e.name in names && e.name !in Paths(plan.changes)
    requires MergeGroup(plan, members, m.target).Success?
    ensures var plan' := MergeGroup(plan, members, m.target).value;
      && SafePlan(names, plan') && AllFrom(plan'.changes, es, merges)
      && Paths(plan'.changes) == Paths(plan.changes) + Names(members)
    decreases |members|
  {
    hide SafePlan, PlanName;
    if |members| > 0 {
      var e := members[0];
      assert e in members;
      PlanOneIsSafe(names, plan, e, m.target, e.version);
      var plan1 := PlanOne(plan, e, m.target, e.version).value;
      assert FromEntry(plan1.changes[|plan.changes|], es, merges) by {
        assert Merge(e.identity, m.target) == m;
      }
      forall f | f in members[1..]
        ensures f in members && f.name !in Paths(plan1.changes)
      {
        assert f.name != e.name;
      }
      MergeGroupIsSafe(names, plan1, members[1..], m, es, merges);
      assert Names(members) == {e.name} + Names(members[1..]) by {
        assert members == [e] + members[1..];
      }
    }
  }

  ghost predicate DistinctSources(merges: seq<Merge>) {
    forall i, j :: 0 <= i < j < |merges| ==> merges[i].source != merges[j].source
  }

  /** The entries whose group is a source among the first `k` merges. */
  ghost function MergedNames(es: seq<Entry>, merges: seq<Merge>, k: nat): set<string>
    requires k <= |merges|
  {
    set e | e in es && exists i :: 0 <= i < k && merges[i].source == e.identity :: e.name
  }

  lemma NameDeterminesEntry(es: seq<Entry>, e: Entry, f: Entry)
    requires Distinct(es) && e in es && f in es && e.name == f.name
    ensures e == f
  {
  }

  lemma NotYetMerged(es: seq<Entry>, merges: seq<Merge>, k: nat, e: Entry)
    requires Distinct(es) && DistinctSources(merges) && k < |merges| && e in es && e.identity == merges[k].source
    ensures e.name !in MergedNames(es, merges, k)
  {
    forall f | f in es && f.name == e.name
      ensures f == e
    {
      NameDeterminesEntry(es, e, f);
    }
  }

  lemma {:induction false} MergeAllIsSafe(es: seq<Entry>, merges: seq<Merge>, k: nat, plan: Plan)
    requires Scanned(es) && DistinctSources(merges) && k <= |merges|
    requires SafePlan(Names(es), plan) && AllFrom(plan.changes, es, merges)
    requires Paths(plan.changes) == MergedNames(es, merges, k)
    requires MergeAll(plan, es, merges[k..]).Success?
    ensures var plan' := MergeAll(plan, es, merges[k..]).value;
      && SafePlan(Names(es), plan') && AllFrom(plan'.changes, es, merges)
      && Paths(plan'.changes) == MergedNames(es, merges, |merges|)
    decreases |merges| - k
  {
    hide SafePlan, PlanName, AllFrom, SortByVersion, Group, MergeGroup, ParseName;
    if k < |merges| {
      var m := merges[k];
      var members := Group(es, m.source);
      var plan1 := MergeOne(plan, es, m).value;
      assert merges[k..][1..] == merges[k + 1..];
      if |members| > 0 {
        GroupDistinct(es, m.source);
        SortDistinct(members);
        var ordered := SortByVersion(members);
        forall e | e in ordered
          ensures e in es && e.identity == m.source && e.name in Names(es) && e.name !in Paths(plan.changes)
        {
          NotYetMerged(es, merges, k, e);
        }
        MergeGroupIsSafe(Names(es), plan, ordered, m, es, merges);
      }
      MergedGrows(es, merges, k);
      MergeAllIsSafe(es, merges, k + 1, plan1);
    }
  }

  lemma MergedGrows(es: seq<Entry>, merges: seq<Merge>, k: nat)
    requires k < |merges| && Distinct(es)
    ensures MergedNames(es, merges, k + 1) == MergedNames(es, merges, k) + Names(SortByVersion(Group(es, merges[k].source)))
    ensures |Group(es, merges[k].source)| == 0 ==> MergedNames(es, merges, k + 1) == MergedNames(es, merges, k)
  {
    var g := SortByVersion(Group(es, merges[k].source));
    SameMembers(g, Group(es, merges[k].source));
    hide Group, SortByVersion;
    var here := set e | e in es && e.identity == merges[k].source :: e.name;
    assert Names(g) == here;
    MergedStep(es, merges, k, here);
  }

  lemma MergedStep(es: seq<Entry>, merges: seq<Merge>, k: nat, here: set<string>)
    requires k < |merges| && here == set e | e in es && e.identity == merges[k].source :: e.name
    ensures MergedNames(es, merges, k + 1) == MergedNames(es, merges, k) + here
  {
    forall n | n in MergedNames(es, merges, k + 1)
      ensures n in MergedNames(es, merges, k) + here
    {
      var e :| e in es && e.name == n && exists i :: 0 <= i < k + 1 && merges[i].source == e.identity;
    }
  }

  lemma {:induction false} RenumberAllIsSafe(es: seq<Entry>, merges: seq<Merge>, rest: seq<Entry>, ids: seq<string>, plan: Plan)
    requires Scanned(es) && Distinct(rest)
    requires forall i, j :: 0 <= i < j < |ids| ==> ids[i] != ids[j]
    requires SafePlan(Names(es), plan) && AllFrom(plan.changes, es, merges)
    requires forall e :: e in rest ==> e in es && (e.identity in ids ==> e.name !in Paths(plan.changes))
    requires forall e :: e in rest ==> !IsSource(e.identity, merges)
    requires RenumberAll(plan, rest, ids).Success?
    ensures var plan' := RenumberAll(plan, rest, ids).value;
      SafePlan(Names(es), plan') && AllFrom(plan'.changes, es, merges)
    decreases |ids|
  {
    hide SafePlan, PlanName, Group, ParseName;
    if |ids| > 0 {
      var members := Group(rest, ids[0]);
      var plan1 := RenumberOne(plan, rest, ids[0]).value;
      if |members| == 1 && members[0].version != 1 {
        var e := members[0];
        assert e in members;
        PlanOneIsSafe(Names(es), plan, e, ids[0], 1);
        assert FromEntry(plan1.changes[|plan.changes|], es, merges);
        forall f | f in rest && f.identity in ids[1..]
          ensures f.name !in Paths(plan1.changes)
        {
          assert f.identity != ids[0];
          if f.name == e.name {
            NameDeterminesEntry(rest, f, e);
          }
        }
      }
      RenumberAllIsSafe(es, merges, rest, ids[1..], plan1);
    }
  }

  /** Distinct merge sources: every accepted plan is safe, and each change comes from a merge or a renumbering. */
  lemma AcceptedPlanIsSafe(es: seq<Entry>, merges: seq<Merge>, renumber: bool)
    requires Scanned(es) && DistinctSources(merges)
    requires RenameChanges(es, merges, renumber).Success?
    ensures var plan := RenameChanges(es, merges, renumber).value;
      SafePlan(Names(es), plan) && AllFrom(plan.changes, es, merges)
  {
    hide MergeAll, RenumberAll, PlanName, ParseName;
    var start := Plan([], Names(es));
    assert merges[0..] == merges;
    assert SafePlan(Names(es), start);
    MergeAllIsSafe(es, merges, 0, start);
    if renumber {
      var merged := MergeAll(start, es, merges).value;
      var rest := Unmerged(es, Paths(merged.changes));
      var ids := SortStrings(Identities(rest));
      UnmergedDistinct(es, Paths(merged.changes));
      SortedStringsDistinct(Identities(rest));
      forall e | e in rest
        ensures !IsSource(e.identity, merges)
      {
        assert e.name !in MergedNames(es, merges, |merges|);
      }
      RenumberAllIsSafe(es, merges, rest, ids, merged);
    }
  }
}
