/** A merge into "B", which is no slug: the file may be in the way, and when it is not the plan is read no more. */
module MigrationExamples {
  import opened Wrappers
  import opened Strings
  import opened PlanGrammar
  import opened PlanNames
  import opened MigrationPlan
  import opened MigrationSafety
  import opened MigrationApply
  import opened MigrationLaws
  import opened MigrationRepeats

  const PLAN := PlanName(1, "a")
  const TARGET := PlanName(1, "B")
  const MERGES := [Merge("a", "B")]

  lemma NamesRead()
    ensures PLAN != TARGET && ParseName(PLAN) == Some(Parsed(1, "a")) && ParseName(TARGET) == None
  {
    SlugsOfOne();
    DifferentSlugs("a", "B");
    hide PlanName, ParseName, IsSlug;
    ParseOfPlanName(1, "a");
    if ParseName(TARGET).Some? {
      PlanNameOfParse(TARGET);
      var p := ParseName(TARGET).value;
      PlanNameIsInjective(p.version, p.slug, 1, "B");
    }
  }

  lemma SlugsOfOne()
    ensures IsSlug("a") && !IsSlug("B")
  {
    SplitWhole("a", '-');
    SplitWhole("B", '-');
    assert "B" in Split("B", '-');
  }

  function Found(text: string): Entry {
    Entry(PLAN, 1, "a", HasHeader(text))
  }

  lemma MergeIsPlanned(text: string)
    ensures RenameChanges([Found(text)], MERGES, false) == Success(Plan([Change(PLAN, TARGET, "B", 1)], {TARGET}))
  {
    NamesRead();
    hide PlanName, ParseName, HasHeader, Group, MergeOne;
    var e, es := Found(text), [Found(text)];
    assert Group(es, "a") == [e] by { OneGroup(e); }
    var start := Plan([], Names(es));
    assert start.taken == {PLAN};
    OneMember(start, es, MERGES[0], e);
    assert {PLAN} - {PLAN} + {TARGET} == {TARGET};
    var merged := MergeOne(start, es, MERGES[0]).value;
    assert merged == Plan([Change(PLAN, TARGET, "B", 1)], {TARGET});
    assert MERGES[1..] == [] && MergeAll(merged, es, []) == Success(merged);
    assert MergeAll(start, es, MERGES) == Success(merged);
  }

  lemma OneGroup(e: Entry)
    ensures Group([e], e.identity) == [e]
  {
    assert [e][1..] == [] && Group([], e.identity) == [];
  }

  lemma ScanOfBoth(text: string, other: string)
    ensures Scan(map[PLAN := text, TARGET := other], [PLAN, TARGET]) == [Found(text)]
    ensures Scan(map[PLAN := text], [PLAN]) == [Found(text)]
  {
    NamesRead();
    hide PlanName, ParseName, HasHeader;
    var both, one := map[PLAN := text, TARGET := other], map[PLAN := text];
    assert [PLAN, TARGET][1..] == [TARGET] && [TARGET][1..] == [] && [PLAN][1..] == [];
    assert Scan(both, []) == [] && Scan(one, []) == [];
    assert Scan(both, [TARGET]) == [];
  }

  lemma MergesAreDistinct()
    ensures DistinctSources(MERGES)
  {
  }

  /** With a file of the new name in the directory the merge is planned, and the run stops before it. */
  lemma MergeOntoAFile(text: string, other: string)
    ensures var dir, names := map[PLAN := text, TARGET := other], [PLAN, TARGET];
      && RenameChanges(Scan(dir, names), MERGES, false).Success?
      && Run(dir, names, MERGES, false).Ran? && !Run(dir, names, MERGES, false).report.applied
  {
    NamesRead();
    ScanOfBoth(text, other);
    MergeIsPlanned(text);
    MergesAreDistinct();
    hide PlanName, Scan, Run, RenameChanges, ParseName, HasHeader, DistinctSources, Migrated;
    var dir, names := map[PLAN := text, TARGET := other], [PLAN, TARGET];
    var plan := Plan([Change(PLAN, TARGET, "B", 1)], {TARGET});
    RunMigrates(dir, names, MERGES, false, plan);
    assert StandsInTheWay(dir, [Found(text)], plan.changes[0]);
  }

  /** Without it the plan ends up under a name that is no plan name, alone, and the same arguments are refused. */
  lemma MergeIntoAnUnreadName(text: string)
    ensures var r := Run(map[PLAN := text], [PLAN], MERGES, false);
      && r.Ran? && r.report.applied && ParseName(TARGET) == None
      && r.report.directory.Keys == {TARGET}
      && Run(r.report.directory, [TARGET], MERGES, false) == Refused(NoSuchGroup)
  {
    NamesRead();
    ScanOfBoth(text, "");
    MergeIsPlanned(text);
    MergesAreDistinct();
    TargetHasNoSlash();
    hide PlanName, ParseName, HasHeader, DistinctSources, RenameChanges, Scan, Run, Migrated;
    var dir, plan := map[PLAN := text], Plan([Change(PLAN, TARGET, "B", 1)], {TARGET});
    RunMigrates(dir, [PLAN], MERGES, false, plan);
    var d := Run(dir, [PLAN], MERGES, false).report.directory;
    OnlyTheTarget(d, text);
    NothingToMerge(d);
  }

  lemma OnlyTheTarget(d: Directory, text: string)
    requires Migrated(d, map[PLAN := text], [Found(text)], [Change(PLAN, TARGET, "B", 1)])
    ensures d.Keys == {TARGET}
  {
    hide PlanName, HasHeader, Holds;
    assert Found(text) in [Found(text)] && Names([Found(text)]) == {PLAN};
    assert FinalName(Found(text), [Change(PLAN, TARGET, "B", 1)]) == TARGET;
  }

  lemma TargetHasNoSlash()
    ensures '/' !in TARGET
  {
    assert '/' !in "v" && '/' !in "-" && '/' !in "B" && '/' !in ".md";
  }

  lemma NothingToMerge(d: Directory)
    requires TARGET in d
    ensures Run(d, [TARGET], MERGES, false) == Refused(NoSuchGroup)
  {
    NamesRead();
    hide PlanName, ParseName, HasHeader;
    assert [TARGET][1..] == [] && Scan(d, []) == [] && Scan(d, [TARGET]) == [];
    assert MERGES[0] == Merge("a", "B") && Group([], "a") == [] && Group([], "B") == [];
    assert MergeAll(Plan([], Names([])), [], MERGES) == Failure(NoSuchGroup);
  }
}
