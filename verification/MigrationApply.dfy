/** The applying half of the migration: renames in order, then the headers of the files that stayed. */
module MigrationApply {
  import opened Wrappers
  import opened PlanHeader
  import opened MigrationPlan

  /** The dictionary `by path`: the last header planned for the path. */
  function HeaderFor(headers: seq<HeaderChange>, path: string): (r: Option<HeaderChange>)
    ensures r.Some? ==> r.value in headers && r.value.path == path
    ensures r.None? ==> forall h :: h in headers ==> h.path != path
  {
    if |headers| == 0 then None
    else if headers[|headers| - 1].path == path then Some(headers[|headers| - 1])
    else HeaderFor(headers[..|headers| - 1], path)
  }

  const TEMPORARY := ".migrating"

  /** What `apply_header` writes for a file that holds `text`. */
  function Written(h: HeaderChange, text: string): string {
    HeaderBlock(h.version, h.identity, h.parent, h.identity) + UniversalNewlines(text)
  }

  /** `apply_header`: through a temporary file beside the plan, which replaces one of that name. */
  function ApplyHeader(dir: Directory, name: string, h: HeaderChange): Directory
    requires name in dir
  {
    (dir - {name + TEMPORARY})[name := Written(h, dir[name])]
  }

  datatype ApplyError = NameRefused | OntoExisting | SourceGone

  /** `apply_rename`; a new name with a slash makes `with_name` raise. */
  function ApplyRename(dir: Directory, c: Change, header: Option<HeaderChange>): Result<Directory, ApplyError> {
    if '/' in c.renameTo then Failure(NameRefused)
    else if c.renameTo in dir then Failure(OntoExisting)
    else if c.path !in dir then Failure(SourceGone)
    else
      var dir1 := (dir - {c.path})[c.renameTo := dir[c.path]];
      Success(if header.Some? then ApplyHeader(dir1, c.renameTo, header.value) else dir1)
  }

  /** The directory after as many of the changes as can be carried out, and how many that was. */
  function ApplyRenames(dir: Directory, changes: seq<Change>, headers: seq<HeaderChange>): (r: (Directory, nat))
    ensures r.1 <= |changes|
  {
    if |changes| == 0 then (dir, 0)
    else
      var (d, done) := ApplyRenames(dir, changes[..|changes| - 1], headers);
      var c := changes[|changes| - 1];
      if done < |changes| - 1 then (d, done)
      else
        match ApplyRename(d, c, HeaderFor(headers, c.path))
        case Failure(_) => (d, done)
        case Success(d') => (d', done + 1)
  }

  /** One planned header: skipped for a renamed path, a missing file or a file that has one. */
  function OneHeader(dir: Directory, h: HeaderChange, renamed: set<string>): Directory {
    if h.path in renamed || h.path !in dir || HasHeader(dir[h.path]) then dir else ApplyHeader(dir, h.path, h)
  }

  /** The headers of the files that were not renamed. */
  function ApplyHeaders(dir: Directory, headers: seq<HeaderChange>, renamed: set<string>): Directory {
    if |headers| == 0 then dir
    else OneHeader(ApplyHeaders(dir, headers[..|headers| - 1], renamed), headers[|headers| - 1], renamed)
  }

  /** `rename_map`: a path changed twice keeps its first place and its last change. */
  function RenameMap(changes: seq<Change>): seq<Change> {
    if |changes| == 0 then [] else Put(RenameMap(changes[..|changes| - 1]), changes[|changes| - 1])
  }

  function Put(changes: seq<Change>, c: Change): seq<Change> {
    if |changes| == 0 then [c]
    else if changes[0].path == c.path then [c] + changes[1..]
    else [changes[0]] + Put(changes[1..], c)
  }

  datatype Report = Report(directory: Directory, applied: bool, nothingToDo: bool)

  datatype RunResult = Refused(error: MigrationError) | Ran(report: Report)

  /** `run` with `--apply` and no deletions. */
  function Run(dir: Directory, names: seq<string>, merges: seq<Merge>, renumber: bool): RunResult
    requires forall n :: n in names ==> n in dir
  {
    var es := Scan(dir, names);
    match RenameChanges(es, merges, renumber)
    case Failure(e) => Refused(e)
    case Success(plan) =>
      var headers := PlanHeaders(FinalEntries(es, plan.changes));
      var renames := RenameMap(plan.changes);
      var (d, done) := ApplyRenames(dir, renames, headers);
      if done < |renames| then Ran(Report(d, false, false))
      else Ran(Report(ApplyHeaders(d, headers, Paths(plan.changes)), true, |plan.changes| == 0 && |headers| == 0))
  }

  // ---------------------------------------------------------------- the code

  class PlansDirectory {
    var files: Directory

    constructor (initial: Directory)
      ensures files == initial
    {
      files := initial;
    }

    method WriteHeader(name: string, h: HeaderChange)
      requires name in files
      modifies this
      ensures files == ApplyHeader(old(files), name, h)
    {
      var body := UniversalNewlines(files[name]);
      var temporary := name + TEMPORARY;
      files := files[temporary := HeaderBlock(h.version, h.identity, h.parent, h.identity) + body];
      assert temporary != name;
      var text := files[temporary];
      files := files - {temporary};
      files := files[name := text];
      assert files == ApplyHeader(old(files), name, h);
    }

    method RenameFile(c: Change, header: Option<HeaderChange>) returns (o: Outcome<ApplyError>)
      modifies this
      ensures o.Pass? <==> ApplyRename(old(files), c, header).Success?
      ensures files == if o.Pass? then ApplyRename(old(files), c, header).value else old(files)
    {
      if '/' in c.renameTo { return Fail(NameRefused); }
      if c.renameTo in files { return Fail(OntoExisting); }
      if c.path !in files { return Fail(SourceGone); }
      var text := files[c.path];
      files := files - {c.path};
      files := files[c.renameTo := text];
      if header.Some? {
        WriteHeader(c.renameTo, header.value);
      }
      return Pass;
    }

    method Migrate(names: seq<string>, merges: seq<Merge>, renumber: bool) returns (o: RunResult)
      requires forall n :: n in names ==> n in files
      modifies this
      ensures o == Run(old(files), names, merges, renumber)
      ensures files == if o.Ran? then o.report.directory else old(files)
    {
      hide ApplyRenames, ApplyHeaders, RenameChanges, PlanHeaders, Scan, RenameMap;
      var es := Scan(files, names);
      var planned := RenameChangesLoop(es, merges, renumber);
      if planned.Failure? { return Refused(planned.error); }
      var plan := planned.value;
      var headers := PlanHeaders(FinalEntries(es, plan.changes));
      var complete := ApplyChanges(RenameMap(plan.changes), headers);
      if complete {
        WriteHeaders(headers, Paths(plan.changes));
      }
      return Ran(Report(files, complete, complete && |plan.changes| == 0 && |headers| == 0));
    }

    /** The renaming loop of `run`; false when it stops half way. */
    method ApplyChanges(changes: seq<Change>, headers: seq<HeaderChange>) returns (complete: bool)
      modifies this
      ensures var (d, done) := ApplyRenames(old(files), changes, headers);
        files == d && (complete <==> done == |changes|)
    {
      hide ApplyRename;
      var k := 0;
      while k < |changes|
        invariant 0 <= k <= |changes|
        invariant ApplyRenames(old(files), changes[..k], headers) == (files, k)
      {
        assert changes[..k + 1][..k] == changes[..k];
        var o := RenameFile(changes[k], HeaderFor(headers, changes[k].path));
        if o.Fail? {
          StoppedStays(old(files), changes, headers, k + 1);
          return false;
        }
        k := k + 1;
      }
      assert changes[..k] == changes;
      return true;
    }

    /** The header loop of `run`. */
    method WriteHeaders(headers: seq<HeaderChange>, renamed: set<string>)
      modifies this
      ensures files == ApplyHeaders(old(files), headers, renamed)
    {
      hide ApplyHeader, HasHeader;
      var j := 0;
      while j < |headers|
        invariant 0 <= j <= |headers|
        invariant files == ApplyHeaders(old(files), headers[..j], renamed)
      {
        assert headers[..j + 1][..j] == headers[..j];
        var h := headers[j];
        if h.path !in renamed && h.path in files && !HasHeader(files[h.path]) {
          WriteHeader(h.path, h);
        }
        j := j + 1;
      }
      assert headers[..j] == headers;
    }
  }

  lemma PathsCons(c: Change, rest: seq<Change>)
    ensures Paths([c] + rest) == {c.path} + Paths(rest)
  {
  }

  lemma {:induction false} StoppedStays(dir: Directory, changes: seq<Change>, headers: seq<HeaderChange>, k: nat)
    requires k <= |changes| && ApplyRenames(dir, changes[..k], headers).1 < k
    ensures ApplyRenames(dir, changes, headers) == ApplyRenames(dir, changes[..k], headers)
    decreases |changes|
  {
    hide ApplyRename;
    if k < |changes| {
      assert changes[..|changes| - 1][..k] == changes[..k];
      StoppedStays(dir, changes[..|changes| - 1], headers, k);
    } else {
      assert changes[..k] == changes;
    }
  }
}
