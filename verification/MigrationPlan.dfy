/**
 The planning half of the migration: which files `rename_changes` renames, and which headers
 `plan_headers` adds once the new names are known. Nothing here touches the directory.
 */
module MigrationPlan {
  import opened Wrappers
  import opened Strings
  import opened Sorting
  import opened PlanNames

  /** The plans directory: the decoded text of each file, by name. */
  type Directory = map<string, string>

  datatype Entry = Entry(name: string, version: nat, identity: string, header: bool)

  datatype Merge = Merge(source: string, target: string)

  datatype Change = Change(path: string, renameTo: string, identity: string, version: nat)

  datatype HeaderChange = HeaderChange(path: string, identity: string, version: nat, parent: Option<nat>)

  datatype MigrationError = TargetExists | NoSuchGroup

  // ---------------------------------------------------------------- scanning

  /** Text mode: "\r\n" and "\r" become "\n". */
  function UniversalNewlines(s: string): string {
    if |s| == 0 then ""
    else if s[0] == '\r' then "\n" + UniversalNewlines(s[if |s| > 1 && s[1] == '\n' then 2 else 1..])
    else [s[0]] + UniversalNewlines(s[1..])
  }

  const HEAD_SIZE := 8192

  /** `read_head` */
  function Head(text: string): string {
    var t := UniversalNewlines(text);
    if |t| <= HEAD_SIZE then t else t[..HEAD_SIZE]
  }

  const MARK := "boxfox-plan"

  /** `^<!--\s*boxfox-plan\s*$` matches at `i`, with the mark at `j` and the line ending at `k`. */
  predicate MarkAt(t: string, i: nat, j: nat, k: nat) {
    && i + 4 <= j && j + |MARK| <= k <= |t|
    && (i == 0 || t[i - 1] == '\n') && t[i..i + 4] == "<!--" && AllSpace(t[i + 4..j])
    && t[j..j + |MARK|] == MARK && AllSpace(t[j + |MARK|..k]) && (k == |t| || t[k] == '\n')
  }

  /** `already_has_header` */
  predicate HasHeader(text: string) {
    var t := Head(text);
    exists i: nat, j: nat, k: nat | i <= |t| && j <= |t| && k <= |t| :: MarkAt(t, i, j, k)
  }

  /** `scan` over the listed names. */
  function Scan(dir: Directory, names: seq<string>): (es: seq<Entry>)
    requires forall n :: n in names ==> n in dir
  {
    if |names| == 0 then []
    else
      var rest := Scan(dir, names[1..]);
      match ParseName(names[0])
      case None => rest
      case Some(p) => [Entry(names[0], p.version, p.slug, HasHeader(dir[names[0]]))] + rest
  }

  // ---------------------------------------------------------------- groups

  function Group(es: seq<Entry>, identity: string): (g: seq<Entry>)
    ensures forall e :: e in g <==> e in es && e.identity == identity
  {
    if |es| == 0 then []
    else if es[0].identity == identity then [es[0]] + Group(es[1..], identity)
    else Group(es[1..], identity)
  }

  predicate LowerVersion(a: Entry, b: Entry) {
    a.version < b.version
  }

  /** `sorted(members, key=version)` */
  function SortByVersion(es: seq<Entry>): (r: seq<Entry>)
    ensures multiset(r) == multiset(es)
  {
    SortWith(es, LowerVersion)
  }

  /** The identities that occur, each once. */
  function Identities(es: seq<Entry>): (ids: seq<string>)
    ensures forall id :: id in ids <==> exists e :: e in es && e.identity == id
    ensures forall i, j :: 0 <= i < j < |ids| ==> ids[i] != ids[j]
  {
    if |es| == 0 then []
    else
      var ids, last := Identities(es[..|es| - 1]), es[|es| - 1];
      assert es == es[..|es| - 1] + [last];
      if last.identity in ids then ids else ids + [last.identity]
  }

  // ---------------------------------------------------------------- renaming

  /** What the planning loops carry: the changes so far and the names then taken. */
  datatype Plan = Plan(changes: seq<Change>, taken: set<string>)

  function Names(es: seq<Entry>): set<string> {
    set e | e in es :: e.name
  }

  /** One rename, refused when the new name is taken. */
  function PlanOne(plan: Plan, e: Entry, identity: string, version: nat): Result<Plan, MigrationError> {
    var destination := PlanName(version, identity);
    if destination in plan.taken then Failure(TargetExists)
    else Success(Plan(plan.changes + [Change(e.name, destination, identity, version)],
                      plan.taken - {e.name} + {destination}))
  }

  function MergeGroup(plan: Plan, members: seq<Entry>, target: string): Result<Plan, MigrationError>
    decreases |members|
  {
    if |members| == 0 then Success(plan)
    else
      var plan1 :- PlanOne(plan, members[0], target, members[0].version);
      MergeGroup(plan1, members[1..], target)
  }

  /** One `--merge`: an absent source group is an error unless the target group exists. */
  function MergeOne(plan: Plan, es: seq<Entry>, m: Merge): Result<Plan, MigrationError> {
    var members := Group(es, m.source);
    if |members| > 0 then MergeGroup(plan, SortByVersion(members), m.target)
    else if |Group(es, m.target)| > 0 then Success(plan)
    else Failure(NoSuchGroup)
  }

  function MergeAll(plan: Plan, es: seq<Entry>, merges: seq<Merge>): Result<Plan, MigrationError>
    decreases |merges|
  {
    if |merges| == 0 then Success(plan)
    else
      var plan1 :- MergeOne(plan, es, merges[0]);
      MergeAll(plan1, es, merges[1..])
  }

  /** The entries no merge renames. */
  function Unmerged(es: seq<Entry>, paths: set<string>): (r: seq<Entry>)
    ensures forall e :: e in r <==> e in es && e.name !in paths
  {
    if |es| == 0 then []
    else if es[0].name in paths then Unmerged(es[1..], paths)
    else [es[0]] + Unmerged(es[1..], paths)
  }

  function RenumberOne(plan: Plan, es: seq<Entry>, identity: string): Result<Plan, MigrationError> {
    var members := Group(es, identity);
    if |members| != 1 || members[0].version == 1 then Success(plan)
    else PlanOne(plan, members[0], identity, 1)
  }

  function RenumberAll(plan: Plan, es: seq<Entry>, ids: seq<string>): Result<Plan, MigrationError>
    decreases |ids|
  {
    if |ids| == 0 then Success(plan)
    else
      var plan1 :- RenumberOne(plan, es, ids[0]);
      RenumberAll(plan1, es, ids[1..])
  }

  function Paths(changes: seq<Change>): set<string> {
    set c | c in changes :: c.path
  }

  /** `rename_changes` */
  function RenameChanges(es: seq<Entry>, merges: seq<Merge>, renumber: bool): Result<Plan, MigrationError> {
    var merged :- MergeAll(Plan([], Names(es)), es, merges);
    if !renumber then Success(merged)
    else
      var rest := Unmerged(es, Paths(merged.changes));
      RenumberAll(merged, rest, SortStrings(Identities(rest)))
  }

  // ---------------------------------------------------------------- headers

  /** `by_name`: the last change of the path. */
  function ChangeFor(changes: seq<Change>, path: string): Option<Change> {
    if |changes| == 0 then None
    else if changes[|changes| - 1].path == path then Some(changes[|changes| - 1])
    else ChangeFor(changes[..|changes| - 1], path)
  }

  /** An entry after its rename, under the current name. */
  function FinalEntry(e: Entry, changes: seq<Change>): Entry {
    match ChangeFor(changes, e.name)
    case None => e
    case Some(c) => e.(identity := c.identity, version := c.version)
  }

  /** `finalName` */
  function FinalName(e: Entry, changes: seq<Change>): string {
    match ChangeFor(changes, e.name)
    case None => e.name
    case Some(c) => c.renameTo
  }

  /** `final_entries` */
  function FinalEntries(es: seq<Entry>, changes: seq<Change>): (r: seq<Entry>)
    ensures |r| == |es|
    ensures forall i :: 0 <= i < |es| ==> r[i] == FinalEntry(es[i], changes)
  {
    seq(|es|, i requires 0 <= i < |es| => FinalEntry(es[i], changes))
  }

  /** The headers of one ordered group, from `index` on: the parent is the entry just before. */
  function GroupHeaders(ordered: seq<Entry>, index: nat): seq<HeaderChange>
    requires index <= |ordered|
    decreases |ordered| - index
  {
    if index == |ordered| then []
    else
      var e := ordered[index];
      var parent := if index > 0 then Some(ordered[index - 1].version) else None;
      (if e.header then [] else [HeaderChange(e.name, e.identity, e.version, parent)])
      + GroupHeaders(ordered, index + 1)
  }

  function AllHeaders(finals: seq<Entry>, ids: seq<string>): seq<HeaderChange> {
    if |ids| == 0 then []
    else GroupHeaders(SortByVersion(Group(finals, ids[0])), 0) + AllHeaders(finals, ids[1..])
  }

  /** `plan_headers` */
  function PlanHeaders(finals: seq<Entry>): seq<HeaderChange> {
    AllHeaders(finals, SortStrings(Identities(finals)))
  }

  // ---------------------------------------------------------------- the code

  method RenameChangesLoop(es: seq<Entry>, merges: seq<Merge>, renumber: bool)
    returns (r: Result<Plan, MigrationError>)
    ensures r == RenameChanges(es, merges, renumber)
  {
    hide PlanName, SortByVersion, Identities, Unmerged, SortStrings, Names;
    var changes: seq<Change>, taken, m := [], Names(es), 0;
    while m < |merges|
      invariant 0 <= m <= |merges|
      invariant MergeAll(Plan([], Names(es)), es, merges) == MergeAll(Plan(changes, taken), es, merges[m..])
    {
      assert merges[m..][1..] == merges[m + 1..];
      var members := Group(es, merges[m].source);
      if |members| == 0 {
        if |Group(es, merges[m].target)| == 0 {
          return Failure(NoSuchGroup);
        }
      } else {
        var ordered, k := SortByVersion(members), 0;
        ghost var goal := MergeGroup(Plan(changes, taken), ordered, merges[m].target);
        while k < |ordered|
          invariant 0 <= k <= |ordered|
          invariant goal == MergeGroup(Plan(changes, taken), ordered[k..], merges[m].target)
        {
          assert ordered[k..][1..] == ordered[k + 1..];
          var e := ordered[k];
          var destination := PlanName(e.version, merges[m].target);
          if destination in taken {
            return Failure(TargetExists);
          }
          taken := taken - {e.name} + {destination};
          changes := changes + [Change(e.name, destination, merges[m].target, e.version)];
          k := k + 1;
        }
      }
      m := m + 1;
    }
    if renumber {
      var rest := Unmerged(es, Paths(changes));
      var ids, i := SortStrings(Identities(rest)), 0;
      ghost var goal := RenumberAll(Plan(changes, taken), rest, ids);
      while i < |ids|
        invariant 0 <= i <= |ids|
        invariant goal == RenumberAll(Plan(changes, taken), rest, ids[i..])
      {
        assert ids[i..][1..] == ids[i + 1..];
        var members := Group(rest, ids[i]);
        if |members| == 1 && members[0].version != 1 {
          var destination := PlanName(1, ids[i]);
          if destination in taken {
            return Failure(TargetExists);
          }
          taken := taken - {members[0].name} + {destination};
          changes := changes + [Change(members[0].name, destination, ids[i], 1)];
        }
        i := i + 1;
      }
    }
    return Success(Plan(changes, taken));
  }
}
