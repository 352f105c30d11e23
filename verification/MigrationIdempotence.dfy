/** Running a migration a second time: when it finds nothing to do, and when it does not. */
module MigrationIdempotence {
  import opened Wrappers
  import opened Sorting
  import opened PlanGrammar
  import opened PlanNames
  import opened MigrationPlan
  import opened MigrationSafety
  import opened MigrationApply
  import opened MigrationHeaders
  import opened MigrationLaws

  /** No merge feeds another. */
  ghost predicate TargetsAreNoSources(merges: seq<Merge>) {
    forall m :: m in merges ==> !IsSource(m.target, merges)
  }

  ghost predicate TargetsAreSlugs(merges: seq<Merge>) {
    forall m :: m in merges ==> IsSlug(m.target)
  }

  /** A plan that ends up alone in its group ends up as version 1. */
  ghost predicate LoneAreFirst(es: seq<Entry>, changes: seq<Change>) {
    forall e :: e in es && AloneAfter(es, changes, e) ==> FinalEntry(e, changes).version == 1
  }

  ghost predicate AloneAfter(es: seq<Entry>, changes: seq<Change>, e: Entry) {
    forall g :: g in es && FinalEntry(g, changes).identity == FinalEntry(e, changes).identity ==> g == e
  }

  // ---------------------------------------------------------------- what the first run made of each plan

  lemma SourcesAreRenamed(es: seq<Entry>, merges: seq<Merge>, renumber: bool, plan: Plan, e: Entry)
    requires Scanned(es) && DistinctSources(merges) && RenameChanges(es, merges, renumber) == Success(plan)
    requires e in es && IsSource(e.identity, merges)
    ensures e.name in Paths(plan.changes)
  {
    hide MergeAll, RenumberAll, ParseName;
    var start := Plan([], Names(es));
    assert merges[0..] == merges;
    assert SafePlan(Names(es), start);
    MergeAllIsSafe(es, merges, 0, start);
    var merged := MergeAll(start, es, merges).value;
    var m :| m in merges && m.source == e.identity;
    var i :| 0 <= i < |merges| && merges[i] == m;
    assert e.name in MergedNames(es, merges, |merges|);
    if renumber {
      var rest := Unmerged(es, Paths(merged.changes));
      RenumberAllGrows(merged, rest, SortStrings(Identities(rest)));
    }
  }

  /** Renumbering adds a change for each lone plan that is not version 1, and no other. */
  lemma {:induction false} RenumberAllGrows(plan: Plan, rest: seq<Entry>, ids: seq<string>)
    requires RenumberAll(plan, rest, ids).Success?
    ensures var plan' := RenumberAll(plan, rest, ids).value;
      && Paths(plan.changes) <= Paths(plan'.changes) && |plan.changes| <= |plan'.changes|
      && (forall id :: id in ids && Renumbers(rest, id) ==> Group(rest, id)[0].name in Paths(plan'.changes)
                                                            && |plan.changes| < |plan'.changes|)
    decreases |ids|
  {
    hide Group, PlanName;
    if |ids| > 0 {
      var plan1 := RenumberOne(plan, rest, ids[0]).value;
      if Renumbers(rest, ids[0]) {
        PathsPush(plan.changes, plan1.changes[|plan.changes|]);
      }
      RenumberAllGrows(plan1, rest, ids[1..]);
    }
  }

  predicate Renumbers(rest: seq<Entry>, identity: string) {
    |Group(rest, identity)| == 1 && Group(rest, identity)[0].version != 1
  }

  lemma {:induction false} NothingToRenumber(plan: Plan, rest: seq<Entry>, ids: seq<string>)
    requires forall id :: id in ids ==> !Renumbers(rest, id)
    ensures RenumberAll(plan, rest, ids) == Success(plan)
    decreases |ids|
  {
    hide Group;
    if |ids| > 0 {
      assert !Renumbers(rest, ids[0]);
      NothingToRenumber(plan, rest, ids[1..]);
    }
  }

  lemma SameSource(merges: seq<Merge>, a: Merge, b: Merge)
    requires DistinctSources(merges) && a in merges && b in merges && a.source == b.source
    ensures a == b
  {
  }

  /** A merged plan ends in the target group under its version, any other plan stays in its group. */
  lemma FinalIdentity(es: seq<Entry>, merges: seq<Merge>, renumber: bool, plan: Plan, e: Entry)
    requires Scanned(es) && DistinctSources(merges) && RenameChanges(es, merges, renumber) == Success(plan)
    requires AllFrom(plan.changes, es, merges) && e in es
    ensures var f := FinalEntry(e, plan.changes);
      && (forall m :: m in merges && m.source == e.identity ==> f.identity == m.target && f.version == e.version)
      && (!IsSource(e.identity, merges) ==> f.identity == e.identity && (f.version == e.version || f.version == 1))
  {
    hide RenameChanges, PlanName, ParseName;
    UnchangedName(e, plan.changes);
    if IsSource(e.identity, merges) {
      SourcesAreRenamed(es, merges, renumber, plan, e);
    }
    var c := ChangeFor(plan.changes, e.name);
    if c.Some? {
      assert FromEntry(c.value, es, merges);
      var g :| g in es && g.name == c.value.path
               && ((Merge(g.identity, c.value.identity) in merges && c.value.version == g.version)
                   || (c.value.identity == g.identity && c.value.version == 1 && !IsSource(g.identity, merges)));
      NameDeterminesEntry(es, g, e);
      if Merge(g.identity, c.value.identity) in merges {
        forall m | m in merges && m.source == e.identity
          ensures m == Merge(g.identity, c.value.identity)
        {
          SameSource(merges, m, Merge(g.identity, c.value.identity));
        }
      }
    }
  }

  lemma SourceGroupsAreEmptied(es: seq<Entry>, merges: seq<Merge>, renumber: bool, plan: Plan, e: Entry)
    requires Scanned(es) && DistinctSources(merges) && TargetsAreNoSources(merges)
    requires RenameChanges(es, merges, renumber) == Success(plan) && AllFrom(plan.changes, es, merges) && e in es
    ensures !IsSource(FinalEntry(e, plan.changes).identity, merges)
  {
    hide RenameChanges, AllFrom, FinalEntry, ParseName;
    FinalIdentity(es, merges, renumber, plan, e);
    if IsSource(e.identity, merges) {
      var m :| m in merges && m.source == e.identity;
    }
  }

  /** An accepted merge leaves its target group with a plan in it. */
  lemma TargetGroupsAreFilled(es: seq<Entry>, merges: seq<Merge>, renumber: bool, plan: Plan, m: Merge)
    returns (e: Entry)
    requires Scanned(es) && DistinctSources(merges) && TargetsAreNoSources(merges) && m in merges
    requires RenameChanges(es, merges, renumber) == Success(plan) && AllFrom(plan.changes, es, merges)
    ensures e in es && FinalEntry(e, plan.changes).identity == m.target
  {
    hide AllFrom, FinalEntry, ParseName, Group, RenumberAll;
    AcceptedMerges(Plan([], Names(es)), es, merges, m);
    if |Group(es, m.source)| > 0 {
      e := Group(es, m.source)[0];
      assert e in Group(es, m.source);
    } else {
      e := Group(es, m.target)[0];
      assert e in Group(es, m.target);
    }
    FinalIdentity(es, merges, renumber, plan, e);
  }

  lemma {:induction false} AcceptedMerges(plan: Plan, es: seq<Entry>, merges: seq<Merge>, m: Merge)
    requires MergeAll(plan, es, merges).Success? && m in merges
    ensures |Group(es, m.source)| > 0 || |Group(es, m.target)| > 0
    decreases |merges|
  {
    hide Group, SortByVersion;
    if m != merges[0] {
      assert m in merges[1..];
      AcceptedMerges(MergeOne(plan, es, merges[0]).value, es, merges[1..], m);
    }
  }

  // ---------------------------------------------------------------- the second scan

  /** The second scan's entry for the plan scanned as `e` the first time. */
  ghost predicate Becomes(e2: Entry, e: Entry, changes: seq<Change>) {
    var f := FinalEntry(e, changes);
    e2 == Entry(FinalName(e, changes), f.version, f.identity, true)
  }

  /** The second scan sees the plans whose final identity is a slug, and a header in each. */
  ghost predicate Rescanned(es2: seq<Entry>, es: seq<Entry>, changes: seq<Change>) {
    && Scanned(es2)
    && (forall e2 :: e2 in es2 ==> exists e :: e in es && Becomes(e2, e, changes))
    && (forall e :: e in es && IsSlug(FinalEntry(e, changes).identity) ==> exists e2 :: e2 in es2 && Becomes(e2, e, changes))
  }

  lemma HoldsHeader(text: string, dir: Directory, es: seq<Entry>, changes: seq<Change>, e: Entry)
    requires e.name in dir && e.header == HasHeader(dir[e.name]) && Holds(text, dir, es, changes, e)
    requires IsSlug(FinalEntry(e, changes).identity)
    ensures HasHeader(text)
  {
    hide HasHeader, Written, IsParent, FinalEntry, IsSlug;
    if !e.header {
      var f := FinalEntry(e, changes);
      var h :| HeaderOf(FinalEntries(es, changes), f, h) && text == Written(h, dir[e.name]);
      SlugChars(f.identity);
      WrittenHasHeader(h, dir[e.name]);
    }
  }

  lemma SecondScan(dir: Directory, names: seq<string>, merges: seq<Merge>, changes: seq<Change>, d: Directory, names2: seq<string>)
    requires Lists(names, dir) && Lists(names2, d)
    requires Setting(dir, Scan(dir, names), merges, changes) && Migrated(d, dir, Scan(dir, names), changes)
    ensures Rescanned(Scan(d, names2), Scan(dir, names), changes)
  {
    hide Scan, HasHeader, ParseName, FinalName, FinalEntry, Holds, SafeChanges, AllFrom, OthersStay, IsSlug, PlanName,
      FinalNamesDistinct, Distinct;
    var es, es2 := Scan(dir, names), Scan(d, names2);
    ScanIsScanned(dir, names);
    ScanIsScanned(d, names2);
    forall e2 | e2 in es2
      ensures exists e :: e in es && Becomes(e2, e, changes)
    {
      assert e2.name in d && ParseName(e2.name).Some?;
      assert e2.name in dir ==> e2.name in Names(es);
      var e :| e in es && FinalName(e, changes) == e2.name;
      FinalNameReadsIff(es, merges, changes, e);
      HoldsHeader(d[e2.name], dir, es, changes, e);
      assert Becomes(e2, e, changes);
    }
    forall e | e in es && IsSlug(FinalEntry(e, changes).identity)
      ensures exists e2 :: e2 in es2 && Becomes(e2, e, changes)
    {
      FinalNameReadsIff(es, merges, changes, e);
      var e2 :| e2 in es2 && e2.name == FinalName(e, changes);
      HoldsHeader(d[e2.name], dir, es, changes, e);
      assert Becomes(e2, e, changes);
    }
  }

  // ---------------------------------------------------------------- the second plan

  /** When every source group is gone, the merges are skipped exactly when every target group is there. */
  lemma {:induction false} MergesAreSkippedIff(plan: Plan, es: seq<Entry>, merges: seq<Merge>)
    requires forall m :: m in merges ==> |Group(es, m.source)| == 0
    ensures MergeAll(plan, es, merges)
         == if forall m :: m in merges ==> |Group(es, m.target)| > 0 then Success(plan) else Failure(NoSuchGroup)
    decreases |merges|
  {
    hide Group;
    if |merges| > 0 {
      assert merges == [merges[0]] + merges[1..];
      MergesAreSkippedIff(plan, es, merges[1..]);
      assert merges[0] in merges;
    }
  }

  lemma SecondMerge(es2: seq<Entry>, es: seq<Entry>, merges: seq<Merge>, renumber: bool, plan: Plan)
    requires Scanned(es) && DistinctSources(merges) && TargetsAreNoSources(merges)
    requires RenameChanges(es, merges, renumber) == Success(plan) && AllFrom(plan.changes, es, merges)
    requires Rescanned(es2, es, plan.changes)
    ensures MergeAll(Plan([], Names(es2)), es2, merges)
         == if TargetsAreSlugs(merges) then Success(Plan([], Names(es2))) else Failure(NoSuchGroup)
  {
    hide RenameChanges, AllFrom, FinalEntry, FinalName, IsSlug, ParseName, MergeAll, Distinct, DistinctSources,
      TargetsAreNoSources;
    forall m | m in merges
      ensures |Group(es2, m.source)| == 0
      ensures |Group(es2, m.target)| > 0 <==> IsSlug(m.target)
    {
      if |Group(es2, m.source)| > 0 {
        var e2 := Group(es2, m.source)[0];
        assert e2 in Group(es2, m.source);
        var e :| e in es && Becomes(e2, e, plan.changes);
        SourceGroupsAreEmptied(es, merges, renumber, plan, e);
      }
      if |Group(es2, m.target)| > 0 {
        var e2 := Group(es2, m.target)[0];
        assert e2 in Group(es2, m.target);
        PlanNameOfParse(e2.name);
      }
      if IsSlug(m.target) {
        var e := TargetGroupsAreFilled(es, merges, renumber, plan, m);
        var e2 :| e2 in es2 && Becomes(e2, e, plan.changes);
        assert e2 in Group(es2, m.target);
      }
    }
    MergesAreSkippedIff(Plan([], Names(es2)), es2, merges);
  }

  lemma LoneGroup(es: seq<Entry>, e: Entry)
    requires Distinct(es) && e in es
    ensures |Group(es, e.identity)| == 1 <==> forall g :: g in es && g.identity == e.identity ==> g == e
    ensures |Group(es, e.identity)| == 1 ==> Group(es, e.identity)[0] == e
  {
    var g := Group(es, e.identity);
    GroupDistinct(es, e.identity);
    hide Group;
    assert e in g;
    if |g| == 1 {
      assert g[0] == e;
    } else {
      assert g[0] in g && g[1] in g && g[0].name != g[1].name;
    }
  }

  lemma RenumbersIff(es2: seq<Entry>, es: seq<Entry>, changes: seq<Change>, e: Entry, e2: Entry)
    requires Rescanned(es2, es, changes) && FinalNamesDistinct(es, changes)
    requires forall e :: e in es ==> IsSlug(FinalEntry(e, changes).identity)
    requires e in es && e2 in es2 && Becomes(e2, e, changes)
    ensures Renumbers(es2, e2.identity) <==> AloneAfter(es, changes, e) && FinalEntry(e, changes).version != 1
  {
    LoneAlike(es2, es, changes, e, e2);
    hide FinalEntry, FinalName, IsSlug, ParseName, Group, AloneAfter, FinalNamesDistinct;
    LoneGroup(es2, e2);
  }

  lemma SecondRenumber(es2: seq<Entry>, es: seq<Entry>, changes: seq<Change>)
    requires Rescanned(es2, es, changes) && FinalNamesDistinct(es, changes)
    requires forall e :: e in es ==> IsSlug(FinalEntry(e, changes).identity)
    ensures (forall id :: id in Identities(es2) ==> !Renumbers(es2, id)) <==> LoneAreFirst(es, changes)
  {
    hide FinalEntry, FinalName, IsSlug, ParseName, LoneAreFirst, AloneAfter, FinalNamesDistinct, Renumbers;
    if LoneAreFirst(es, changes) {
      forall id | id in Identities(es2)
        ensures !Renumbers(es2, id)
      {
        var e2 :| e2 in es2 && e2.identity == id;
        var e :| e in es && Becomes(e2, e, changes);
        RenumbersIff(es2, es, changes, e, e2);
        if AloneAfter(es, changes, e) { UseLone(es, changes, e); }
      }
    } else {
      var e := NotLone(es, changes);
      var e2 :| e2 in es2 && Becomes(e2, e, changes);
      RenumbersIff(es2, es, changes, e, e2);
      assert e2.identity in Identities(es2);
    }
  }

  lemma UseLone(es: seq<Entry>, changes: seq<Change>, e: Entry)
    requires LoneAreFirst(es, changes) && e in es && AloneAfter(es, changes, e)
    ensures FinalEntry(e, changes).version == 1
  {
  }

  lemma NotLone(es: seq<Entry>, changes: seq<Change>) returns (e: Entry)
    requires !LoneAreFirst(es, changes)
    ensures e in es && AloneAfter(es, changes, e) && FinalEntry(e, changes).version != 1
  {
    e :| e in es && AloneAfter(es, changes, e) && FinalEntry(e, changes).version != 1;
  }

  lemma LoneAlike(es2: seq<Entry>, es: seq<Entry>, changes: seq<Change>, e: Entry, e2: Entry)
    requires Rescanned(es2, es, changes) && FinalNamesDistinct(es, changes)
    requires forall e :: e in es ==> IsSlug(FinalEntry(e, changes).identity)
    requires e in es && e2 in es2 && Becomes(e2, e, changes)
    ensures (forall g2 :: g2 in es2 && g2.identity == e2.identity ==> g2 == e2) <==> AloneAfter(es, changes, e)
  {
    hide FinalEntry, FinalName, IsSlug, ParseName;
    if forall g2 :: g2 in es2 && g2.identity == e2.identity ==> g2 == e2 {
      forall g | g in es && FinalEntry(g, changes).identity == FinalEntry(e, changes).identity
        ensures g == e
      {
        var g2 :| g2 in es2 && Becomes(g2, g, changes);
      }
    }
    if AloneAfter(es, changes, e) {
      forall g2 | g2 in es2 && g2.identity == e2.identity
        ensures g2 == e2
      {
        var g :| g in es && Becomes(g2, g, changes);
      }
    }
  }

  lemma {:induction false} UnmergedAll(es: seq<Entry>)
    ensures Unmerged(es, Paths([])) == es
  {
    if |es| > 0 {
      UnmergedAll(es[1..]);
      assert es == [es[0]] + es[1..];
    }
  }

  /** The second plan is empty exactly when every target is a slug and nothing is left to renumber. */
  lemma SecondPlan(es2: seq<Entry>, es: seq<Entry>, merges: seq<Merge>, renumber: bool, plan: Plan)
    requires Scanned(es) && DistinctSources(merges) && TargetsAreNoSources(merges)
    requires RenameChanges(es, merges, renumber) == Success(plan) && AllFrom(plan.changes, es, merges)
    requires Rescanned(es2, es, plan.changes) && FinalNamesDistinct(es, plan.changes)
    ensures (RenameChanges(es2, merges, renumber).Success? && RenameChanges(es2, merges, renumber).value.changes == [])
       <==> TargetsAreSlugs(merges) && (renumber ==> LoneAreFirst(es, plan.changes))
  {
    hide AllFrom, FinalEntry, FinalName, IsSlug, ParseName, MergeAll, Group, RenumberAll, LoneAreFirst, TargetsAreSlugs,
      FinalNamesDistinct, Rescanned, Identities;
    SecondMerge(es2, es, merges, renumber, plan);
    if TargetsAreSlugs(merges) && renumber {
      AllSlugs(es, merges, renumber, plan);
      SecondRenumber(es2, es, plan.changes);
      UnmergedAll(es2);
      var start, ids := Plan([], Names(es2)), SortStrings(Identities(es2));
      SortedStringsDistinct(Identities(es2));
      if LoneAreFirst(es, plan.changes) {
        NothingToRenumber(start, es2, ids);
      } else {
        if RenumberAll(start, es2, ids).Success? {
          RenumberAllGrows(start, es2, ids);
        }
      }
    }
  }

  lemma AllSlugs(es: seq<Entry>, merges: seq<Merge>, renumber: bool, plan: Plan)
    requires Scanned(es) && DistinctSources(merges) && TargetsAreSlugs(merges)
    requires RenameChanges(es, merges, renumber) == Success(plan) && AllFrom(plan.changes, es, merges)
    ensures forall e :: e in es ==> IsSlug(FinalEntry(e, plan.changes).identity)
  {
    hide AllFrom, FinalEntry, IsSlug, ParseName, RenameChanges, PlanName;
    forall e | e in es
      ensures IsSlug(FinalEntry(e, plan.changes).identity)
    {
      FinalIdentity(es, merges, renumber, plan, e);
      PlanNameOfParse(e.name);
    }
  }

  // ---------------------------------------------------------------- no headers are left to write

  lemma {:induction false} NoGroupHeaders(ordered: seq<Entry>, index: nat)
    requires index <= |ordered| && forall e :: e in ordered ==> e.header
    ensures GroupHeaders(ordered, index) == []
    decreases |ordered| - index
  {
    if index < |ordered| {
      NoGroupHeaders(ordered, index + 1);
    }
  }

  lemma {:induction false} NoHeaders(finals: seq<Entry>, ids: seq<string>)
    requires forall e :: e in finals ==> e.header
    ensures AllHeaders(finals, ids) == []
  {
    if |ids| > 0 {
      var g := Group(finals, ids[0]);
      SameMembers(SortByVersion(g), g);
      NoGroupHeaders(SortByVersion(g), 0);
      NoHeaders(finals, ids[1..]);
    }
  }

  lemma NoHeadersPlanned(es2: seq<Entry>, es: seq<Entry>, changes: seq<Change>, changes2: seq<Change>)
    requires Rescanned(es2, es, changes)
    ensures PlanHeaders(FinalEntries(es2, changes2)) == []
  {
    hide Scanned, FinalName, Identities;
    forall f | f in FinalEntries(es2, changes2)
      ensures f.header
    {
      var e2 := EntryOfFinal(es2, changes2, f);
    }
    NoHeaders(FinalEntries(es2, changes2), SortStrings(Identities(FinalEntries(es2, changes2))));
  }

  lemma {:induction false} RenameMapKeepsAll(changes: seq<Change>)
    ensures |changes| > 0 ==> |RenameMap(changes)| > 0
  {
  }

  /** The run that is repeated with the same arguments: `d` is the first run's directory, `names2` its listing. */
  ghost predicate Repeated(dir: Directory, names: seq<string>, merges: seq<Merge>, renumber: bool, plan: Plan,
                           d: Directory, names2: seq<string>) {
    && Lists(names, dir) && Lists(names2, d) && DistinctSources(merges) && TargetsAreNoSources(merges)
    && RenameChanges(Scan(dir, names), merges, renumber) == Success(plan)
    && (Run(dir, names, merges, renumber) == Ran(Report(d, true, true))
        || Run(dir, names, merges, renumber) == Ran(Report(d, true, false)))
  }

  lemma RepeatedSetting(dir: Directory, names: seq<string>, merges: seq<Merge>, renumber: bool, plan: Plan,
                        d: Directory, names2: seq<string>)
    requires Repeated(dir, names, merges, renumber, plan, d, names2)
    ensures Setting(dir, Scan(dir, names), merges, plan.changes)
    ensures Rescanned(Scan(d, names2), Scan(dir, names), plan.changes)
    ensures FinalNamesDistinct(Scan(dir, names), plan.changes)
  {
    hide Setting, Rescanned, RenameChanges, Run, Scan, HeadersPlanned, FinalNamesDistinct, NothingElse, OthersStay, Holds;
    RunSetting(dir, names, merges, renumber);
    RunMigrates(dir, names, merges, renumber, plan);
    SecondScan(dir, names, merges, plan.changes, d, names2);
  }

  /** Without headers to write, a run is idle exactly when it plans no renames. */
  lemma IdleIff(d: Directory, names: seq<string>, merges: seq<Merge>, renumber: bool)
    requires forall n :: n in names ==> n in d
    requires forall changes :: PlanHeaders(FinalEntries(Scan(d, names), changes)) == []
    ensures Run(d, names, merges, renumber) == Ran(Report(d, true, true))
       <==> (RenameChanges(Scan(d, names), merges, renumber).Success?
             && RenameChanges(Scan(d, names), merges, renumber).value.changes == [])
  {
    var r := RenameChanges(Scan(d, names), merges, renumber);
    hide RenameChanges, Scan, PlanHeaders, FinalEntries;
    if r.Success? {
      assert PlanHeaders(FinalEntries(Scan(d, names), r.value.changes)) == [];
      if r.value.changes != [] {
        RenameMapKeepsAll(r.value.changes);
      }
    }
  }

  /** Running the same arguments again after a complete run leaves the directory alone and reports nothing to do
      exactly when every merge target is a slug and, under `--renumber-lone`, no plan that ended up alone has a
      version other than 1. */
  lemma SecondRunIsIdleIff(dir: Directory, names: seq<string>, merges: seq<Merge>, renumber: bool, plan: Plan,
                           d: Directory, names2: seq<string>)
    requires Repeated(dir, names, merges, renumber, plan, d, names2)
    ensures Run(d, names2, merges, renumber) == Ran(Report(d, true, true))
       <==> TargetsAreSlugs(merges) && (renumber ==> LoneAreFirst(Scan(dir, names), plan.changes))
  {
    var es, es2 := Scan(dir, names), Scan(d, names2);
    hide Rescanned, RenameChanges, Run, Scan, FinalNamesDistinct, TargetsAreSlugs, LoneAreFirst, PlanHeaders, FinalEntries,
      AllFrom, Scanned, SafeChanges;
    RepeatedSetting(dir, names, merges, renumber, plan, d, names2);
    SecondPlan(es2, es, merges, renumber, plan);
    forall changes
      ensures PlanHeaders(FinalEntries(es2, changes)) == []
    {
      NoHeadersPlanned(es2, es, plan.changes, changes);
    }
    IdleIff(d, names2, merges, renumber);
  }

  /** Without mixing the two options, what decides is only whether the targets are slugs. */
  lemma SecondRunIsIdle(dir: Directory, names: seq<string>, merges: seq<Merge>, renumber: bool, plan: Plan,
                        d: Directory, names2: seq<string>)
    requires Repeated(dir, names, merges, renumber, plan, d, names2)
    requires !renumber || merges == []
    ensures Run(d, names2, merges, renumber) == Ran(Report(d, true, true)) <==> TargetsAreSlugs(merges)
  {
    SecondRunIsIdleIff(dir, names, merges, renumber, plan, d, names2);
    if renumber {
      RepeatedSetting(dir, names, merges, renumber, plan, d, names2);
      hide Rescanned, RenameChanges, Scan, FinalNamesDistinct, TargetsAreSlugs, LoneAreFirst, Run;
      RenumberedAreFirst(Scan(dir, names), plan);
    }
  }

  lemma RenumberedAreFirst(es: seq<Entry>, plan: Plan)
    requires Scanned(es) && RenameChanges(es, [], true) == Success(plan) && AllFrom(plan.changes, es, [])
    ensures LoneAreFirst(es, plan.changes)
  {
    hide ParseName, PlanName, Group, Identities, RenumberAll;
    UnmergedAll(es);
    SortedStringsDistinct(Identities(es));
    var start, ids := Plan([], Names(es)), SortStrings(Identities(es));
    assert RenumberAll(start, es, ids) == Success(plan);
    RenumberAllGrows(start, es, ids);
    forall e | e in es && AloneAfter(es, plan.changes, e)
      ensures FinalEntry(e, plan.changes).version == 1
    {
      AloneBefore(es, plan, e);
      LoneGroup(es, e);
      assert e.identity in Identities(es);
      UnchangedName(e, plan.changes);
      if e.version != 1 {
        assert Renumbers(es, e.identity);
        assert FromEntry(ChangeFor(plan.changes, e.name).value, es, []);
      } else {
        FinalIdentity(es, [], true, plan, e);
      }
    }
  }

  lemma AloneBefore(es: seq<Entry>, plan: Plan, e: Entry)
    requires Scanned(es) && RenameChanges(es, [], true) == Success(plan) && AllFrom(plan.changes, es, [])
    requires e in es && AloneAfter(es, plan.changes, e)
    ensures forall g :: g in es && g.identity == e.identity ==> g == e
  {
    hide ParseName, RenameChanges, AllFrom, FinalEntry;
    FinalIdentity(es, [], true, plan, e);
    forall g | g in es && g.identity == e.identity
      ensures g == e
    {
      FinalIdentity(es, [], true, plan, g);
    }
  }
}
