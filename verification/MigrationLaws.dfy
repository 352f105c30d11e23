/** What a migration run leaves behind: every plan under its final name with its own text. */
module MigrationLaws {
  import opened Wrappers
  import opened PlanGrammar
  import opened PlanNames
  import opened PlanHeader
  import opened MigrationPlan
  import opened MigrationSafety
  import opened MigrationApply
  import opened MigrationHeaders

  // ---------------------------------------------------------------- final names

  lemma {:induction false} UnchangedName(e: Entry, changes: seq<Change>)
    ensures ChangeFor(changes, e.name).None? <==> e.name !in Paths(changes)
    ensures e.name !in Paths(changes) ==> FinalName(e, changes) == e.name
    ensures ChangeFor(changes, e.name).Some? ==> ChangeFor(changes, e.name).value in changes
                                                 && ChangeFor(changes, e.name).value.path == e.name
  {
    if |changes| > 0 {
      var front, last := changes[..|changes| - 1], changes[|changes| - 1];
      UnchangedName(e, front);
      assert changes == front + [last];
      PathsPush(front, last);
    }
  }

  lemma FinalNamePush(e: Entry, front: seq<Change>, c: Change)
    ensures FinalName(e, front + [c]) == if e.name == c.path then c.renameTo else FinalName(e, front)
    ensures FinalEntry(e, front + [c]) == if e.name == c.path then e.(identity := c.identity, version := c.version)
                                          else FinalEntry(e, front)
  {
    assert (front + [c])[..|front|] == front;
  }

  ghost predicate FinalNamesDistinct(es: seq<Entry>, changes: seq<Change>) {
    forall e, f :: e in es && f in es && FinalName(e, changes) == FinalName(f, changes) ==> e == f
  }

  /** Renaming is a bijection on the plans, and `NamesAfter` is its image. */
  lemma {:induction false} FinalNamesAreDistinct(es: seq<Entry>, changes: seq<Change>)
    requires Distinct(es) && SafeChanges(Names(es), changes)
    ensures FinalNamesDistinct(es, changes)
    ensures forall e :: e in es ==> FinalName(e, changes) in NamesAfter(Names(es), changes)
    ensures forall n :: n in NamesAfter(Names(es), changes) ==> exists e :: e in es && FinalName(e, changes) == n
  {
    if |changes| == 0 {
      forall e, f | e in es && f in es && e.name == f.name
        ensures e == f
      {
        NameDeterminesEntry(es, e, f);
      }
    } else {
      var front, c := changes[..|changes| - 1], changes[|changes| - 1];
      FinalNamesAreDistinct(es, front);
      assert changes == front + [c];
      var e0 :| e0 in es && e0.name == c.path;
      UnchangedName(e0, front);
      forall e | e in es
        ensures FinalName(e, changes) == if e == e0 then c.renameTo else FinalName(e, front)
        ensures e != e0 ==> FinalName(e, front) != c.path
      {
        FinalNamePush(e, front, c);
        if e.name == e0.name { NameDeterminesEntry(es, e, e0); }
      }
      forall n | n in NamesAfter(Names(es), changes)
        ensures exists e :: e in es && FinalName(e, changes) == n
      {
        if n == c.renameTo {
          assert FinalName(e0, changes) == n;
        } else {
          var e :| e in es && FinalName(e, front) == n;
          assert FinalName(e, changes) == n;
        }
      }
    }
  }

  /** The final name is the plan name of the final version and identity. */
  lemma FinalNameIsPlanName(es: seq<Entry>, merges: seq<Merge>, changes: seq<Change>, e: Entry)
    requires Scanned(es) && AllFrom(changes, es, merges) && e in es
    ensures var f := FinalEntry(e, changes); FinalName(e, changes) == PlanName(f.version, f.identity)
  {
    hide PlanName, ParseName;
    UnchangedName(e, changes);
    PlanNameOfParse(e.name);
    var c := ChangeFor(changes, e.name);
    if c.Some? {
      assert FromEntry(c.value, es, merges);
    }
  }

  lemma FinalsAreDistinct(es: seq<Entry>, merges: seq<Merge>, changes: seq<Change>)
    requires Scanned(es) && AllFrom(changes, es, merges) && SafeChanges(Names(es), changes)
    ensures Distinct(FinalEntries(es, changes)) && VersionsDistinct(FinalEntries(es, changes))
  {
    hide PlanName, ParseName, SafeChanges, FinalName, FromEntry;
    var finals := FinalEntries(es, changes);
    FinalNamesAreDistinct(es, changes);
    forall f, g | f in finals && g in finals && f.identity == g.identity && f.version == g.version
      ensures f == g
    {
      var i :| 0 <= i < |es| && finals[i] == f;
      var j :| 0 <= j < |es| && finals[j] == g;
      FinalNameIsPlanName(es, merges, changes, es[i]);
      FinalNameIsPlanName(es, merges, changes, es[j]);
    }
  }

  // ---------------------------------------------------------------- the directory during the run

  ghost predicate IsTemporary(name: string) {
    |name| >= |TEMPORARY| && name[|name| - |TEMPORARY|..] == TEMPORARY
  }

  lemma PlanNamesAreNotTemporary(version: nat, slug: string)
    ensures !IsTemporary(PlanName(version, slug))
  {
    var name := PlanName(version, slug);
    assert name[|name| - 1] == 'd';
    assert TEMPORARY[|TEMPORARY| - 1] == 'g';
  }

  /** The text an entry's file must hold once the headers of `done` are written. */
  ghost function TextOf(dir: Directory, headers: seq<HeaderChange>, done: set<string>, e: Entry): string
    requires e.name in dir
  {
    var h := HeaderFor(headers, e.name);
    if e.name in done && h.Some? then Written(h.value, dir[e.name]) else dir[e.name]
  }

  ghost predicate PlansReflect(d: Directory, dir: Directory, es: seq<Entry>, changes: seq<Change>,
                               headers: seq<HeaderChange>, done: set<string>)
    requires forall e :: e in es ==> e.name in dir
  {
    forall e :: e in es ==> FinalName(e, changes) in d && d[FinalName(e, changes)] == TextOf(dir, headers, done, e)
  }

  ghost predicate NothingElse(d: Directory, dir: Directory, es: seq<Entry>, changes: seq<Change>) {
    forall n :: n in d ==> (exists e :: e in es && FinalName(e, changes) == n)
                           || (n in dir && n !in Names(es) && d[n] == dir[n])
  }

  ghost predicate OthersStay(d: Directory, dir: Directory, es: seq<Entry>) {
    forall n :: n in dir && n !in Names(es) && !IsTemporary(n) ==> n in d
  }

  /** The directory `d` reached from `dir`: each plan under its name so far with its text, and every other
      file untouched, save that temporary names may go. */
  ghost predicate Reflects(d: Directory, dir: Directory, es: seq<Entry>, changes: seq<Change>,
                           headers: seq<HeaderChange>, done: set<string>)
    requires forall e :: e in es ==> e.name in dir
  {
    PlansReflect(d, dir, es, changes, headers, done) && NothingElse(d, dir, es, changes) && OthersStay(d, dir, es)
  }

  /** The facts about one run that every step uses. */
  ghost predicate Setting(dir: Directory, es: seq<Entry>, merges: seq<Merge>, changes: seq<Change>) {
    && Scanned(es) && (forall e :: e in es ==> e.name in dir)
    && SafeChanges(Names(es), changes) && AllFrom(changes, es, merges)
  }

  /** A name that only a file which is no plan stands on. */
  predicate StandsInTheWay(dir: Directory, es: seq<Entry>, c: Change) {
    '/' in c.renameTo || (c.renameTo in dir && c.renameTo !in Names(es))
  }

  lemma SettingFront(dir: Directory, es: seq<Entry>, merges: seq<Merge>, changes: seq<Change>)
    requires Setting(dir, es, merges, changes) && |changes| > 0
    ensures Setting(dir, es, merges, changes[..|changes| - 1])
  {
    hide FromEntry, ParseName;
  }

  /** When a change has its turn, its source is there, and its target is free unless a non-plan stands on it. */
  lemma TurnComes(d: Directory, dir: Directory, es: seq<Entry>, merges: seq<Merge>, changes: seq<Change>,
                  headers: seq<HeaderChange>, done: set<string>)
    requires Setting(dir, es, merges, changes) && |changes| > 0
    requires Reflects(d, dir, es, changes[..|changes| - 1], headers, done)
    ensures var c := changes[|changes| - 1];
      c.path in d && (('/' in c.renameTo || c.renameTo in d) <==> StandsInTheWay(dir, es, c))
  {
    hide ParseName, PlanName, TextOf, IsTemporary;
    var front, c := changes[..|changes| - 1], changes[|changes| - 1];
    FinalNamesAreDistinct(es, front);
    var e0 :| e0 in es && e0.name == c.path;
    UnchangedName(e0, front);
    assert FinalName(e0, front) in d;
    assert FromEntry(c, es, merges);
    PlanNamesAreNotTemporary(c.version, c.identity);
  }

  lemma RenameStep(d: Directory, dir: Directory, es: seq<Entry>, merges: seq<Merge>, changes: seq<Change>,
                   headers: seq<HeaderChange>, done: set<string>)
    requires Setting(dir, es, merges, changes) && |changes| > 0
    requires Reflects(d, dir, es, changes[..|changes| - 1], headers, done)
    requires done == Paths(changes[..|changes| - 1])
    ensures var c := changes[|changes| - 1];
      var r := ApplyRename(d, c, HeaderFor(headers, c.path));
      && (r.Failure? <==> StandsInTheWay(dir, es, c))
      && (r.Success? ==> Reflects(r.value, dir, es, changes, headers, done + {c.path}))
  {
    var c := changes[|changes| - 1];
    TurnComes(d, dir, es, merges, changes, headers, done);
    if !StandsInTheWay(dir, es, c) {
      RenamedReflects(d, dir, es, merges, changes, headers, done);
    }
  }

  lemma RenamedReflects(d: Directory, dir: Directory, es: seq<Entry>, merges: seq<Merge>, changes: seq<Change>,
                        headers: seq<HeaderChange>, done: set<string>)
    requires Setting(dir, es, merges, changes) && |changes| > 0
    requires Reflects(d, dir, es, changes[..|changes| - 1], headers, done)
    requires done == Paths(changes[..|changes| - 1])
    requires var c := changes[|changes| - 1]; c.path in d && c.renameTo !in d && '/' !in c.renameTo
    ensures var c := changes[|changes| - 1];
      var r := ApplyRename(d, c, HeaderFor(headers, c.path));
      r.Success? && Reflects(r.value, dir, es, changes, headers, done + {c.path})
  {
    assert forall e :: e in es ==> e.name in dir;
    hide *;
    RenamedPlans(d, dir, es, merges, changes, headers, done);
    RenamedNothingElse(d, dir, es, merges, changes, headers, done);
    RenamedOthers(d, dir, es, merges, changes, headers, done);
    AssembleReflects(d, dir, es, changes, headers, done);
  }

  lemma AssembleReflects(d: Directory, dir: Directory, es: seq<Entry>, changes: seq<Change>,
                         headers: seq<HeaderChange>, done: set<string>)
    requires |changes| > 0 && forall e :: e in es ==> e.name in dir
    requires var c := changes[|changes| - 1];
      var r := ApplyRename(d, c, HeaderFor(headers, c.path));
      r.Success? && PlansReflect(r.value, dir, es, changes, headers, done + {c.path})
      && NothingElse(r.value, dir, es, changes) && OthersStay(r.value, dir, es)
    ensures var c := changes[|changes| - 1];
      Reflects(ApplyRename(d, c, HeaderFor(headers, c.path)).value, dir, es, changes, headers, done + {c.path})
  {
    hide PlansReflect, NothingElse, OthersStay, ApplyRename;
  }

  /** The directory after one rename, name by name. */
  ghost predicate OneRename(d: Directory, d': Directory, c: Change, header: Option<HeaderChange>)
    requires c.path in d
  {
    && c.renameTo in d' && d'[c.renameTo] == (if header.Some? then Written(header.value, d[c.path]) else d[c.path])
    && (forall n :: n in d && n != c.path && n != c.renameTo + TEMPORARY ==> n in d' && d'[n] == d[n])
    && (forall n :: n in d' && n != c.renameTo ==> n in d && n != c.path && d'[n] == d[n])
  }

  lemma ApplyRenameIsOneRename(d: Directory, c: Change, header: Option<HeaderChange>)
    requires c.path in d && c.renameTo !in d && '/' !in c.renameTo
    ensures ApplyRename(d, c, header).Success? && OneRename(d, ApplyRename(d, c, header).value, c, header)
  {
    hide Written;
  }

  lemma RenamedPlans(d: Directory, dir: Directory, es: seq<Entry>, merges: seq<Merge>, changes: seq<Change>,
                     headers: seq<HeaderChange>, done: set<string>)
    requires Setting(dir, es, merges, changes) && |changes| > 0
    requires Reflects(d, dir, es, changes[..|changes| - 1], headers, done)
    requires done == Paths(changes[..|changes| - 1])
    requires var c := changes[|changes| - 1]; c.path in d && c.renameTo !in d && '/' !in c.renameTo
    ensures var c := changes[|changes| - 1];
      var r := ApplyRename(d, c, HeaderFor(headers, c.path));
      r.Success? && PlansReflect(r.value, dir, es, changes, headers, done + {c.path})
  {
    hide ParseName, PlanName, ApplyRename, FinalName, FromEntry, OneRename, Reflects, TextOf;
    var c := changes[|changes| - 1];
    ApplyRenameIsOneRename(d, c, HeaderFor(headers, c.path));
    var d' := ApplyRename(d, c, HeaderFor(headers, c.path)).value;
    forall e | e in es
      ensures FinalName(e, changes) in d' && d'[FinalName(e, changes)] == TextOf(dir, headers, done + {c.path}, e)
    {
      if e.name == c.path {
        RenamedPlan(d, d', dir, es, merges, changes, headers, done, e);
      } else {
        OtherPlan(d, d', dir, es, merges, changes, headers, done, e);
      }
    }
  }

  lemma RenamedPlan(d: Directory, d': Directory, dir: Directory, es: seq<Entry>, merges: seq<Merge>,
                    changes: seq<Change>, headers: seq<HeaderChange>, done: set<string>, e: Entry)
    requires Setting(dir, es, merges, changes) && |changes| > 0
    requires Reflects(d, dir, es, changes[..|changes| - 1], headers, done)
    requires done == Paths(changes[..|changes| - 1])
    requires var c := changes[|changes| - 1]; c.path in d && OneRename(d, d', c, HeaderFor(headers, c.path))
    requires e in es && e.name == changes[|changes| - 1].path
    ensures FinalName(e, changes) in d' && d'[FinalName(e, changes)] == TextOf(dir, headers, done + {e.name}, e)
  {
    hide ParseName, Written, FinalName, FromEntry, NothingElse, OthersStay;
    var front, c := changes[..|changes| - 1], changes[|changes| - 1];
    assert changes == front + [c];
    UnchangedName(e, front);
    FinalNamePush(e, front, c);
    assert d[FinalName(e, front)] == TextOf(dir, headers, done, e);
  }

  lemma OtherPlan(d: Directory, d': Directory, dir: Directory, es: seq<Entry>, merges: seq<Merge>,
                  changes: seq<Change>, headers: seq<HeaderChange>, done: set<string>, e: Entry)
    requires Setting(dir, es, merges, changes) && |changes| > 0
    requires Reflects(d, dir, es, changes[..|changes| - 1], headers, done)
    requires var c := changes[|changes| - 1]; c.path in d && OneRename(d, d', c, HeaderFor(headers, c.path))
    requires e in es && e.name != changes[|changes| - 1].path
    ensures FinalName(e, changes) in d'
    ensures d'[FinalName(e, changes)] == TextOf(dir, headers, done + {changes[|changes| - 1].path}, e)
  {
    hide ParseName, Written, FinalName, FromEntry, NothingElse, OthersStay, IsTemporary, Scanned, SafeChanges, AllFrom;
    ElsewhereStays(dir, es, merges, changes, e);
    TemporaryIsTemporary(changes[|changes| - 1].renameTo);
  }

  /** A plan that the last change does not concern keeps its name, which is neither the source nor temporary. */
  lemma ElsewhereStays(dir: Directory, es: seq<Entry>, merges: seq<Merge>, changes: seq<Change>, e: Entry)
    requires Setting(dir, es, merges, changes) && |changes| > 0
    requires e in es && e.name != changes[|changes| - 1].path
    ensures var front := changes[..|changes| - 1];
      && FinalName(e, changes) == FinalName(e, front) && FinalName(e, front) != changes[|changes| - 1].path
      && !IsTemporary(FinalName(e, front))
  {
    hide ParseName, FinalName, FromEntry, IsTemporary;
    var front, c := changes[..|changes| - 1], changes[|changes| - 1];
    assert changes == front + [c];
    FinalNamesAreDistinct(es, front);
    var e0 :| e0 in es && e0.name == c.path;
    UnchangedName(e0, front);
    FinalNamePush(e, front, c);
    SettingFront(dir, es, merges, changes);
    FinalIsNotTemporary(es, merges, front, e);
  }

  lemma RenamedNothingElse(d: Directory, dir: Directory, es: seq<Entry>, merges: seq<Merge>, changes: seq<Change>,
                           headers: seq<HeaderChange>, done: set<string>)
    requires Setting(dir, es, merges, changes) && |changes| > 0
    requires Reflects(d, dir, es, changes[..|changes| - 1], headers, done)
    requires var c := changes[|changes| - 1]; c.path in d && c.renameTo !in d && '/' !in c.renameTo
    ensures var c := changes[|changes| - 1];
      var r := ApplyRename(d, c, HeaderFor(headers, c.path));
      r.Success? && NothingElse(r.value, dir, es, changes)
  {
    hide ParseName, PlanName, IsTemporary, Written, PlansReflect, OthersStay, ApplyRename, FinalName, FromEntry;
    var front, c := changes[..|changes| - 1], changes[|changes| - 1];
    assert changes == front + [c];
    var header := HeaderFor(headers, c.path);
    ApplyRenameIsOneRename(d, c, header);
    var d' := ApplyRename(d, c, header).value;
    var e0 :| e0 in es && e0.name == c.path;
    UnchangedName(e0, front);
    FinalNamePush(e0, front, c);
    forall n | n in d'
      ensures (exists e :: e in es && FinalName(e, changes) == n) || (n in dir && n !in Names(es) && d'[n] == dir[n])
    {
      if n == c.renameTo {
        assert FinalName(e0, changes) == n;
      } else {
        assert n in d && n != c.path && d'[n] == d[n];
        if exists e :: e in es && FinalName(e, front) == n {
          var e :| e in es && FinalName(e, front) == n;
          FinalNamePush(e, front, c);
          UnchangedName(e, front);
          assert FinalName(e, changes) == n;
        }
      }
    }
  }

  lemma RenamedOthers(d: Directory, dir: Directory, es: seq<Entry>, merges: seq<Merge>, changes: seq<Change>,
                      headers: seq<HeaderChange>, done: set<string>)
    requires Setting(dir, es, merges, changes) && |changes| > 0
    requires Reflects(d, dir, es, changes[..|changes| - 1], headers, done)
    requires var c := changes[|changes| - 1]; c.path in d && c.renameTo !in d && '/' !in c.renameTo
    ensures var c := changes[|changes| - 1];
      var r := ApplyRename(d, c, HeaderFor(headers, c.path));
      r.Success? && OthersStay(r.value, dir, es)
  {
    hide ParseName, PlanName, IsTemporary, Written, PlansReflect, NothingElse, ApplyRename, FromEntry;
    var c := changes[|changes| - 1];
    ApplyRenameIsOneRename(d, c, HeaderFor(headers, c.path));
    TemporaryIsTemporary(c.renameTo);
    assert c.path in Names(es);
  }

  lemma TemporaryIsTemporary(name: string)
    ensures IsTemporary(name + TEMPORARY)
  {
  }

  lemma FinalIsNotTemporary(es: seq<Entry>, merges: seq<Merge>, changes: seq<Change>, e: Entry)
    requires Scanned(es) && AllFrom(changes, es, merges) && e in es
    ensures !IsTemporary(FinalName(e, changes))
  {
    hide IsTemporary, PlanName;
    FinalNameIsPlanName(es, merges, changes, e);
    var f := FinalEntry(e, changes);
    PlanNamesAreNotTemporary(f.version, f.identity);
  }

  /** After any number of renames, also when the run stops there: nothing lost, nothing overwritten; and it
      stops exactly at the first change whose target is refused or stands on a file that is no plan. */
  lemma {:induction false} RenamesReflect(dir: Directory, es: seq<Entry>, merges: seq<Merge>, changes: seq<Change>,
                                          headers: seq<HeaderChange>)
    requires Setting(dir, es, merges, changes)
    ensures var (d, done) := ApplyRenames(dir, changes, headers);
      && Reflects(d, dir, es, changes[..done], headers, Paths(changes[..done]))
      && (forall i :: 0 <= i < done ==> !StandsInTheWay(dir, es, changes[i]))
      && (done < |changes| ==> StandsInTheWay(dir, es, changes[done]))
  {
    hide ApplyRename, StandsInTheWay, ParseName, PlanName, AllFrom, Reflects;
    if |changes| == 0 {
      NothingRenamed(dir, es, headers);
    } else {
      var front, c := changes[..|changes| - 1], changes[|changes| - 1];
      SettingFront(dir, es, merges, changes);
      RenamesReflect(dir, es, merges, front, headers);
      var (d, done) := ApplyRenames(dir, front, headers);
      assert changes[..done] == front[..done];
      if done == |front| {
        assert front[..done] == front && changes[..done + 1] == changes;
        RenameStep(d, dir, es, merges, changes, headers, Paths(front));
        PathsPush(front, c);
        assert changes == front + [c];
      }
    }
  }

  lemma NothingRenamed(dir: Directory, es: seq<Entry>, headers: seq<HeaderChange>)
    requires forall e :: e in es ==> e.name in dir
    ensures Reflects(dir, dir, es, [], headers, Paths([]))
  {
    forall n | n in dir && n in Names(es)
      ensures exists e :: e in es && FinalName(e, []) == n
    {
      var e :| e in es && e.name == n;
      assert FinalName(e, []) == n;
    }
  }

  // ---------------------------------------------------------------- the headers of files that stayed

  function HeaderPaths(headers: seq<HeaderChange>): set<string> {
    set h | h in headers :: h.path
  }

  /** The headers are those planned for the final entries, and the entries' flags are true of the files. */
  ghost predicate HeadersPlanned(dir: Directory, es: seq<Entry>, changes: seq<Change>, headers: seq<HeaderChange>) {
    && headers == PlanHeaders(FinalEntries(es, changes))
    && Distinct(FinalEntries(es, changes)) && VersionsDistinct(FinalEntries(es, changes))
    && forall e :: e in es ==> e.name in dir && e.header == HasHeader(dir[e.name])
  }

  lemma FinalEntryOf(es: seq<Entry>, changes: seq<Change>, e: Entry)
    requires e in es
    ensures FinalEntry(e, changes) in FinalEntries(es, changes)
    ensures FinalEntry(e, changes).name == e.name && FinalEntry(e, changes).header == e.header
  {
    var i :| 0 <= i < |es| && es[i] == e;
    assert FinalEntries(es, changes)[i] == FinalEntry(e, changes);
  }

  lemma EntryOfFinal(es: seq<Entry>, changes: seq<Change>, f: Entry) returns (e: Entry)
    requires f in FinalEntries(es, changes)
    ensures e in es && f == FinalEntry(e, changes) && f.name == e.name && f.header == e.header
  {
    var i :| 0 <= i < |es| && FinalEntries(es, changes)[i] == f;
    e := es[i];
  }

  lemma ParentIsUnique(finals: seq<Entry>, f: Entry, p: Option<nat>, q: Option<nat>)
    requires IsParent(finals, f, p) && IsParent(finals, f, q)
    ensures p == q
  {
  }

  /** The only header an entry can get is the one found under its path. */
  lemma HeaderIsTheOne(dir: Directory, es: seq<Entry>, changes: seq<Change>, headers: seq<HeaderChange>, h: HeaderChange)
    returns (e: Entry)
    requires HeadersPlanned(dir, es, changes, headers) && h in headers
    ensures e in es && e.name == h.path && !e.header && HeaderFor(headers, e.name) == Some(h)
    ensures h.identity == FinalEntry(e, changes).identity
  {
    hide IsParent, PlanHeaders, HasHeader, Distinct, VersionsDistinct;
    var finals := FinalEntries(es, changes);
    PlannedHeaders(finals);
    var f :| f in finals && !f.header && HeaderOf(finals, f, h);
    e := EntryOfFinal(es, changes, f);
    HeaderForEntry(finals, f);
    ParentIsUnique(finals, f, h.parent, HeaderFor(headers, f.name).value.parent);
  }

  lemma HeaderStep(d: Directory, dir: Directory, es: seq<Entry>, merges: seq<Merge>, changes: seq<Change>,
                   headers: seq<HeaderChange>, done: set<string>, h: HeaderChange)
    requires Setting(dir, es, merges, changes) && HeadersPlanned(dir, es, changes, headers) && h in headers
    requires Reflects(d, dir, es, changes, headers, done) && Paths(changes) <= done
    ensures Reflects(OneHeader(d, h, Paths(changes)), dir, es, changes, headers, done + {h.path})
  {
    hide HasHeader, Written, FromEntry, ParseName, IsParent, PlanHeaders, IsTemporary, NothingElse, OthersStay,
      SafeChanges, FinalName, Distinct, VersionsDistinct;
    assert h.path in done ==> done + {h.path} == done;
    var e := HeaderIsTheOne(dir, es, changes, headers, h);
    UnchangedName(e, changes);
    if h.path !in Paths(changes) {
      assert d[h.path] == TextOf(dir, headers, done, e);
      StayingSlug(es, changes, e);
      if h.path in done {
        WrittenHasHeader(h, dir[e.name]);
      } else {
        HeaderReflects(d, dir, es, merges, changes, headers, done, h, e);
      }
    }
  }

  lemma StayingSlug(es: seq<Entry>, changes: seq<Change>, e: Entry)
    requires Scanned(es) && e in es && e.name !in Paths(changes)
    ensures FinalEntry(e, changes) == e && '\r' !in e.identity
  {
    UnchangedName(e, changes);
    PlanNameOfParse(e.name);
    SlugChars(e.identity);
  }

  lemma HeaderReflects(d: Directory, dir: Directory, es: seq<Entry>, merges: seq<Merge>, changes: seq<Change>,
                       headers: seq<HeaderChange>, done: set<string>, h: HeaderChange, e: Entry)
    requires Setting(dir, es, merges, changes) && Reflects(d, dir, es, changes, headers, done)
    requires e in es && e.name == h.path && HeaderFor(headers, e.name) == Some(h)
    requires FinalName(e, changes) == h.path && h.path !in done && h.path in d
    ensures Reflects(ApplyHeader(d, h.path, h), dir, es, changes, headers, done + {h.path})
  {
    hide Written, FromEntry, ParseName, IsTemporary, SafeChanges, FinalName, PlanName, AllFrom, Scanned;
    var d' := ApplyHeader(d, h.path, h);
    TemporaryIsTemporary(h.path);
    forall f | f in es
      ensures FinalName(f, changes) in d' && d'[FinalName(f, changes)] == TextOf(dir, headers, done + {h.path}, f)
    {
      OthersElsewhere(es, merges, changes, e, f);
      assert d[FinalName(f, changes)] == TextOf(dir, headers, done, f);
    }
    assert NothingElse(d', dir, es, changes) by {
      assert FinalName(e, changes) == h.path;
    }
    assert OthersStay(d', dir, es) by {
      assert h.path in Names(es);
    }
  }

  lemma OthersElsewhere(es: seq<Entry>, merges: seq<Merge>, changes: seq<Change>, e: Entry, f: Entry)
    requires Scanned(es) && AllFrom(changes, es, merges) && SafeChanges(Names(es), changes)
    requires e in es && f in es
    ensures !IsTemporary(FinalName(f, changes))
    ensures FinalName(f, changes) == FinalName(e, changes) <==> f.name == e.name
    ensures f.name == e.name ==> f == e
  {
    hide FromEntry, ParseName, IsTemporary, SafeChanges, FinalName, AllFrom;
    FinalNamesAreDistinct(es, changes);
    FinalIsNotTemporary(es, merges, changes, f);
    if f.name == e.name {
      NameDeterminesEntry(es, f, e);
    }
  }

  lemma {:induction false} HeadersReflect(d: Directory, dir: Directory, es: seq<Entry>, merges: seq<Merge>,
                                          changes: seq<Change>, headers: seq<HeaderChange>, k: nat)
    requires Setting(dir, es, merges, changes) && HeadersPlanned(dir, es, changes, headers) && k <= |headers|
    requires Reflects(d, dir, es, changes, headers, Paths(changes))
    ensures Reflects(ApplyHeaders(d, headers[..k], Paths(changes)), dir, es, changes, headers,
                     Paths(changes) + HeaderPaths(headers[..k]))
  {
    hide Setting, HeadersPlanned, Reflects, OneHeader, Paths, HeaderPaths;
    if k == 0 {
      NoHeaderPaths();
      assert headers[..k] == [];
      assert Paths(changes) + HeaderPaths(headers[..k]) == Paths(changes);
      SettingEntries(dir, es, merges, changes);
    } else {
      HeadersReflect(d, dir, es, merges, changes, headers, k - 1);
      HeaderPathsPush(headers, k);
      var done := Paths(changes) + HeaderPaths(headers[..k - 1]);
      assert Paths(changes) + HeaderPaths(headers[..k]) == done + {headers[k - 1].path};
      SettingEntries(dir, es, merges, changes);
      var d1 := ApplyHeaders(d, headers[..k - 1], Paths(changes));
      HeaderStep(d1, dir, es, merges, changes, headers, done, headers[k - 1]);
      assert ApplyHeaders(d, headers[..k], Paths(changes)) == OneHeader(d1, headers[k - 1], Paths(changes));
    }
  }

  lemma NoHeaderPaths()
    ensures HeaderPaths([]) == {}
  {
  }

  lemma HeaderPathsPush(headers: seq<HeaderChange>, k: nat)
    requires 0 < k <= |headers|
    ensures headers[..k][..k - 1] == headers[..k - 1]
    ensures HeaderPaths(headers[..k]) == HeaderPaths(headers[..k - 1]) + {headers[k - 1].path}
  {
    assert headers[..k] == headers[..k - 1] + [headers[k - 1]];
  }

  lemma SettingEntries(dir: Directory, es: seq<Entry>, merges: seq<Merge>, changes: seq<Change>)
    requires Setting(dir, es, merges, changes)
    ensures forall e :: e in es ==> e.name in dir
  {
  }

  // ---------------------------------------------------------------- the whole run

  /** The result of a complete run: the plans are exactly the final names, one for each plan of before, holding
      its text, below the header planned for it when it had none; all other files are as they were. */
  ghost predicate Migrated(d: Directory, dir: Directory, es: seq<Entry>, changes: seq<Change>)
    requires forall e :: e in es ==> e.name in dir
  {
    && FinalNamesDistinct(es, changes)
    && (forall e :: e in es ==> FinalName(e, changes) in d && Holds(d[FinalName(e, changes)], dir, es, changes, e))
    && NothingElse(d, dir, es, changes)
    && OthersStay(d, dir, es)
  }

  ghost predicate Holds(text: string, dir: Directory, es: seq<Entry>, changes: seq<Change>, e: Entry)
    requires e.name in dir
  {
    if e.header then text == dir[e.name]
    else exists h :: HeaderOf(FinalEntries(es, changes), FinalEntry(e, changes), h) && text == Written(h, dir[e.name])
  }

  /** `names` lists the directory. */
  ghost predicate Lists(names: seq<string>, dir: Directory) {
    && (forall n :: n in names <==> n in dir)
    && forall i, j :: 0 <= i < j < |names| ==> names[i] != names[j]
  }

  lemma RunSetting(dir: Directory, names: seq<string>, merges: seq<Merge>, renumber: bool)
    requires Lists(names, dir) && DistinctSources(merges)
    requires RenameChanges(Scan(dir, names), merges, renumber).Success?
    ensures var es := Scan(dir, names);
      var changes := RenameChanges(es, merges, renumber).value.changes;
      && Setting(dir, es, merges, changes)
      && HeadersPlanned(dir, es, changes, PlanHeaders(FinalEntries(es, changes)))
      && RenameMap(changes) == changes
  {
    hide HasHeader, ParseName, RenameChanges, PlanHeaders, SafeChanges, Distinct, VersionsDistinct, AllFrom;
    var es := Scan(dir, names);
    ScanIsScanned(dir, names);
    AcceptedPlanIsSafe(es, merges, renumber);
    var changes := RenameChanges(es, merges, renumber).value.changes;
    FinalsAreDistinct(es, merges, changes);
    SafeChangesAreAMap(Names(es), changes);
  }

  lemma {:induction false} SafeChangesAreAMap(names: set<string>, changes: seq<Change>)
    requires SafeChanges(names, changes)
    ensures RenameMap(changes) == changes
  {
    if |changes| > 0 {
      var front, c := changes[..|changes| - 1], changes[|changes| - 1];
      SafeChangesAreAMap(names, front);
      PutNew(front, c);
      assert changes == front + [c];
    }
  }

  lemma {:induction false} PutNew(changes: seq<Change>, c: Change)
    requires c.path !in Paths(changes)
    ensures Put(changes, c) == changes + [c]
  {
    if |changes| > 0 {
      assert changes == [changes[0]] + changes[1..];
      PathsCons(changes[0], changes[1..]);
      PutNew(changes[1..], c);
    }
  }

  /** With distinct merge sources an accepted run is complete exactly when no new name is refused or stands on
      a file that is no plan; and a complete run migrates everything. */
  lemma RunMigrates(dir: Directory, names: seq<string>, merges: seq<Merge>, renumber: bool, plan: Plan)
    requires Lists(names, dir) && DistinctSources(merges)
    requires RenameChanges(Scan(dir, names), merges, renumber) == Success(plan)
    ensures Run(dir, names, merges, renumber).Ran?
    ensures Run(dir, names, merges, renumber).report.applied
       <==> forall c :: c in plan.changes ==> !StandsInTheWay(dir, Scan(dir, names), c)
    ensures forall e :: e in Scan(dir, names) ==> e.name in dir
    ensures Run(dir, names, merges, renumber).report.applied ==>
              Migrated(Run(dir, names, merges, renumber).report.directory, dir, Scan(dir, names), plan.changes)
  {
    hide Setting, HeadersPlanned, Reflects, StandsInTheWay, ApplyRenames, ApplyHeaders, Migrated, RenameChanges,
      Scan, PlanHeaders, RenameMap;
    RunSetting(dir, names, merges, renumber);
    var es, changes := Scan(dir, names), plan.changes;
    var headers := PlanHeaders(FinalEntries(es, changes));
    SettingEntries(dir, es, merges, changes);
    RenamesReflect(dir, es, merges, changes, headers);
    var (d, done) := ApplyRenames(dir, changes, headers);
    if done == |changes| {
      assert changes[..done] == changes;
      HeadersReflect(d, dir, es, merges, changes, headers, |headers|);
      assert headers[..|headers|] == headers;
      AllDone(ApplyHeaders(d, headers, Paths(changes)), dir, es, merges, changes, headers);
    } else {
      assert changes[done] in changes;
    }
  }

  lemma AllDone(d: Directory, dir: Directory, es: seq<Entry>, merges: seq<Merge>, changes: seq<Change>,
                headers: seq<HeaderChange>)
    requires Setting(dir, es, merges, changes) && HeadersPlanned(dir, es, changes, headers)
    requires Reflects(d, dir, es, changes, headers, Paths(changes) + HeaderPaths(headers))
    ensures Migrated(d, dir, es, changes)
  {
    hide FinalName, HasHeader, ParseName, NothingElse, OthersStay, SafeChanges, HeaderOf, Written, PlanHeaders,
      Distinct, VersionsDistinct, FromEntry;
    FinalNamesAreDistinct(es, changes);
    forall e | e in es
      ensures FinalName(e, changes) in d && Holds(d[FinalName(e, changes)], dir, es, changes, e)
    {
      var finals := FinalEntries(es, changes);
      FinalEntryOf(es, changes, e);
      HeaderForEntry(finals, FinalEntry(e, changes));
      assert d[FinalName(e, changes)] == TextOf(dir, headers, Paths(changes) + HeaderPaths(headers), e);
    }
  }

  /** An incomplete run has lost nothing either: it is where the carried out changes leave it. */
  lemma StoppedRunLosesNothing(dir: Directory, names: seq<string>, merges: seq<Merge>, renumber: bool, plan: Plan)
    returns (k: nat)
    requires Lists(names, dir) && DistinctSources(merges)
    requires RenameChanges(Scan(dir, names), merges, renumber) == Success(plan)
    requires Run(dir, names, merges, renumber).Ran? && !Run(dir, names, merges, renumber).report.applied
    ensures k < |plan.changes|
    ensures forall e :: e in Scan(dir, names) ==> e.name in dir
    ensures Reflects(Run(dir, names, merges, renumber).report.directory, dir, Scan(dir, names), plan.changes[..k],
                     PlanHeaders(FinalEntries(Scan(dir, names), plan.changes)), Paths(plan.changes[..k]))
  {
    hide Setting, HeadersPlanned, Reflects, StandsInTheWay, ApplyRenames, ApplyHeaders, RenameChanges, Scan, RenameMap;
    RunSetting(dir, names, merges, renumber);
    var es, changes := Scan(dir, names), plan.changes;
    SettingEntries(dir, es, merges, changes);
    RenamesReflect(dir, es, merges, changes, PlanHeaders(FinalEntries(es, changes)));
    k := ApplyRenames(dir, changes, PlanHeaders(FinalEntries(es, changes))).1;
  }

  // ---------------------------------------------------------------- what the written headers say

  /** A final name is still a plan name exactly when the final identity is a slug; only then does the reader
      find the file, and then the header of a migrated file agrees with its name. */
  lemma FinalNameReadsIff(es: seq<Entry>, merges: seq<Merge>, changes: seq<Change>, e: Entry)
    requires Scanned(es) && AllFrom(changes, es, merges) && e in es
    ensures var f := FinalEntry(e, changes);
      && 1 <= f.version < VERSION_LIMIT
      && (IsSlug(f.identity) ==> ParseName(FinalName(e, changes)) == Some(Parsed(f.version, f.identity)))
      && (!IsSlug(f.identity) ==> ParseName(FinalName(e, changes)).None?)
  {
    hide PlanName, ParseName, IsSlug;
    FinalNameIsPlanName(es, merges, changes, e);
    var f := FinalEntry(e, changes);
    FinalVersionIsProper(es, merges, changes, e);
    if IsSlug(f.identity) {
      ParseOfPlanName(f.version, f.identity);
    } else if ParseName(FinalName(e, changes)).Some? {
      PlanNameOfParse(FinalName(e, changes));
      var p := ParseName(FinalName(e, changes)).value;
      PlanNameIsInjective(f.version, f.identity, p.version, p.slug);
    }
  }

  lemma FinalVersionIsProper(es: seq<Entry>, merges: seq<Merge>, changes: seq<Change>, e: Entry)
    requires Scanned(es) && AllFrom(changes, es, merges) && e in es
    ensures 1 <= FinalEntry(e, changes).version < VERSION_LIMIT
  {
    hide PlanName, ParseName;
    PlanNameOfParse(e.name);
    UnchangedName(e, changes);
    var c := ChangeFor(changes, e.name);
    if c.Some? {
      assert FromEntry(c.value, es, merges);
      var g :| g in es && g.name == c.value.path && (g.version == c.value.version || c.value.version == 1);
      NameDeterminesEntry(es, g, e);
    }
  }

  /** Every header a complete run writes for a slug parses `ok`, matches the final file name and names the
      greatest smaller version of the final group as parent. */
  lemma WrittenHeaderAgrees(dir: Directory, es: seq<Entry>, merges: seq<Merge>, changes: seq<Change>, e: Entry, text: string)
    requires Setting(dir, es, merges, changes) && e in es && !e.header
    requires Holds(text, dir, es, changes, e) && IsSlug(FinalEntry(e, changes).identity)
    ensures var f := FinalEntry(e, changes);
      && ParseName(FinalName(e, changes)) == Some(Parsed(f.version, f.identity))
      && ParsePlanHeader(text).status.Ok? && ParsePlanHeader(text).version == Some(f.version)
      && ParsePlanHeader(text).identity == f.identity && ParsePlanHeader(text).bodyOffset == 6
      && IsParent(FinalEntries(es, changes), f, ParsePlanHeader(text).parent)
  {
    hide ParseName, IsSlug, ParsePlanHeader, Written, IsParent, SafeChanges, FinalName;
    var f, finals := FinalEntry(e, changes), FinalEntries(es, changes);
    FinalNameReadsIff(es, merges, changes, e);
    var h :| HeaderOf(finals, f, h) && text == Written(h, dir[e.name]);
    ParentIsProper(es, merges, changes, f, h.parent);
    WrittenParses(h, dir[e.name]);
  }

  lemma ParentIsProper(es: seq<Entry>, merges: seq<Merge>, changes: seq<Change>, f: Entry, parent: Option<nat>)
    requires Scanned(es) && AllFrom(changes, es, merges)
    requires IsParent(FinalEntries(es, changes), f, parent)
    ensures parent.Some? ==> 1 <= parent.value < VERSION_LIMIT
  {
    hide ParseName, FromEntry;
    if parent.Some? {
      var g :| g in FinalEntries(es, changes) && g.identity == f.identity && g.version == parent.value;
      var e := EntryOfFinal(es, changes, g);
      FinalVersionIsProper(es, merges, changes, e);
    }
  }
}
