/**
 The workspace file operations as functions on the tree: path validation, `make_directory`,
 `touch_file`, `rename_entry`, `move_entry`, `delete_entry` and `extract_zip`. Each call is one
 atomic step that returns the new state even when it fails part of the way.
 */
module WorkspaceOps {
  import opened Bytes
  import opened Wrappers
  import opened Strings
  import opened Tree

  const MAX_DEPTH := 16
  const MAX_ENTRIES := 2000
  const MAX_TOUCH_CONTENT_BYTES := 1024 * 1024
  const MAX_UNZIP_TOTAL_BYTES := 256 * 1024 * 1024
  const MAX_TRASH_COUNTER := 1000
  const TRASH := ".trash"

  const PROTECTED: set<string> := {".plans", TRASH, ".generated_artifacts", ".session-history", ".uploaded_artifacts"}

  /** The HTTP statuses the module's exceptions carry: 400, 404, 409, 413 and 422. */
  datatype Error = BadRequest | Missing | Conflict | TooLarge | BadArchive

  // ---------------------------------------------------------------- paths and names

  predicate IsLetter(c: char) {
    'a' <= c <= 'z' || 'A' <= c <= 'Z'
  }

  predicate DriveLike(s: string) {
    |s| >= 2 && IsLetter(s[0]) && s[1] == ':'
  }

  /** The segments that carry meaning: neither empty nor ".". */
  function Significant(parts: seq<string>): (r: Path)
    ensures forall p :: p in r ==> p in parts && p != "" && p != "."
    ensures forall p :: p in parts && p != "" && p != "." ==> p in r
  {
    if |parts| == 0 then []
    else if parts[0] == "" || parts[0] == "." then Significant(parts[1..])
    else [parts[0]] + Significant(parts[1..])
  }

  predicate AllNames(p: Path) {
    forall name :: name in p ==> IsName(name)
  }

  /** `validate_rel_path`, returning the segments its result joins. */
  function ParseOnce(path: string): (r: Result<Path, Error>)
    ensures r.Success? ==> AllNames(r.value) && |r.value| <= MAX_DEPTH
  {
    var segments := Significant(Split(path, '/'));
    if '\0' in path || (|path| > 0 && path[0] == '/') || DriveLike(path) then Failure(BadRequest)
    else if ".." in segments || |segments| > MAX_DEPTH then Failure(BadRequest)
    else Success(segments)
  }

  /** `"/".join` */
  function Join(p: Path): string {
    if |p| == 0 then "" else if |p| == 1 then p[0] else p[0] + "/" + Join(p[1..])
  }

  /** What every operation starts with: `split_segments(validate_rel_path(path))`, which validates twice. */
  function ParsePath(path: string): (r: Result<Path, Error>)
    ensures r.Success? ==> AllNames(r.value) && |r.value| <= MAX_DEPTH
  {
    var once := ParseOnce(path);
    if once.Failure? then once else ParseOnce(Join(once.value))
  }

  /** `_validate_filename` */
  function FileName(name: string): (r: Result<string, Error>)
    ensures r.Success? ==> IsName(r.value)
  {
    var s := Strip(name);
    if s == "" || s == "." || s == ".." || '/' in s || '\\' in s || '\0' in s then Failure(BadRequest)
    else Success(s)
  }

  /** `_reject_protected_rel` */
  predicate IsProtected(p: Path) {
    |p| == 1 && p[0] in PROTECTED
  }

  // ---------------------------------------------------------------- creating

  /** `_ensure_dirs`: the missing directories of the chain, stopping at a file in the way. */
  function EnsureDirs(s: State, current: Path, segments: Path): (State, Outcome<Error>)
    decreases |segments|
  {
    if |segments| == 0 then (s, Pass)
    else
      var p := current + [segments[0]];
      if p !in s.tree then EnsureDirs(Add(s, p, Dir(s.next)), p, segments[1..])
      else if s.tree[p].Dir? then EnsureDirs(s, p, segments[1..])
      else (s, Fail(Conflict))
  }

  function MakeDirectory(s: State, path: string, existOk: bool): (State, Result<Path, Error>) {
    match ParsePath(path)
    case Failure(e) => (s, Failure(e))
    case Success(segments) =>
      if segments == [] then (s, Failure(BadRequest)) else
      match FileName(Base(segments))
      case Failure(e) => (s, Failure(e))
      case Success(name) =>
        var (s1, o) := EnsureDirs(s, [], Parent(segments));
        var p := Parent(segments) + [name];
        if o.Fail? then (s1, Failure(o.error))
        else if p !in s1.tree then (Add(s1, p, Dir(s1.next)), Success(p))
        else if existOk && s1.tree[p].Dir? then (s1, Success(p))
        else (s1, Failure(Conflict))
  }

  function Touch(s: State, path: string, content: ByteString): (State, Result<Path, Error>) {
    if |content| > MAX_TOUCH_CONTENT_BYTES then (s, Failure(TooLarge)) else
    match ParsePath(path)
    case Failure(e) => (s, Failure(e))
    case Success(segments) =>
      if segments == [] then (s, Failure(BadRequest)) else
      match FileName(Base(segments))
      case Failure(e) => (s, Failure(e))
      case Success(name) =>
        var (s1, o) := EnsureDirs(s, [], Parent(segments));
        var p := Parent(segments) + [name];
        if o.Fail? then (s1, Failure(o.error))
        else if p in s1.tree then (s1, Failure(Conflict))
        else (Add(s1, p, File(s1.next, content)), Success(p))
  }

  // ---------------------------------------------------------------- renaming and moving

  /** `_rename_at`, after the caller has seen that the target name is free in an existing directory. */
  function RenameAt(s: State, from: Path, to: Path): (State, Result<Path, Error>)
    requires WellFormed(s) && |from| > 0 && |to| > 0
    requires to !in s.tree && IsDirAt(s.tree, Parent(to)) && IsName(Base(to))
  {
    if from !in s.tree then (s, Failure(Missing))
    else if from <= to then (s, Failure(Conflict))
    else (RelocateState(s, from, to), Success(to))
  }

  function Rename(s: State, path: string, newName: string): (State, Result<Path, Error>)
    requires WellFormed(s)
  {
    match ParsePath(path)
    case Failure(e) => (s, Failure(e))
    case Success(from) =>
      if from == [] then (s, Failure(BadRequest))
      else if IsProtected(from) then (s, Failure(Conflict)) else
      match FileName(newName)
      case Failure(e) => (s, Failure(e))
      case Success(name) =>
        var to := Parent(from) + [name];
        if !IsDirAt(s.tree, Parent(from)) then (s, Failure(Missing))
        else if to in s.tree then (s, Failure(Conflict))
        else RenameAt(s, from, to)
  }

  function Move(s: State, path: string, destination: string): (State, Result<Path, Error>)
    requires WellFormed(s)
  {
    match ParsePath(path)
    case Failure(e) => (s, Failure(e))
    case Success(from) =>
      if from == [] || ParseOnce(destination).Failure? then (s, Failure(BadRequest))
      else if IsProtected(from) then (s, Failure(Conflict)) else
      match ParsePath(destination)
      case Failure(e) => (s, Failure(e))
      case Success(into) =>
        var to := into + [Base(from)];
        if IsProtected(into) then (s, Failure(Conflict))
        else if !IsDirAt(s.tree, Parent(from)) || !IsDirAt(s.tree, into) then (s, Failure(Missing))
        else if to in s.tree then (s, Failure(Conflict))
        else
          assert Base(from) in from;
          RenameAt(s, from, to)
  }

  // ---------------------------------------------------------------- deleting

  function TrashCandidate(stamp: nat, counter: nat, name: string): string {
    if counter == 0 then Decimal(stamp) + "-" + name
    else Decimal(stamp) + "-" + Decimal(counter) + "-" + name
  }

  /** `_unique_trash_name`, from `counter` on. */
  function FreeTrashName(t: Tree, stamp: nat, name: string, counter: nat): (r: Option<string>)
    ensures r.Some? ==> [TRASH, r.value] !in t
    ensures r.Some? ==> exists k :: r.value == TrashCandidate(stamp, k, name)
    decreases MAX_TRASH_COUNTER + 1 - counter
  {
    if counter > MAX_TRASH_COUNTER then None
    else if [TRASH, TrashCandidate(stamp, counter, name)] !in t then Some(TrashCandidate(stamp, counter, name))
    else FreeTrashName(t, stamp, name, counter + 1)
  }

  lemma TrashCandidateIsName(stamp: nat, counter: nat, name: string)
    requires IsName(name)
    ensures IsName(TrashCandidate(stamp, counter, name))
  {
    var c := TrashCandidate(stamp, counter, name);
    assert '/' !in Decimal(stamp) && '/' !in Decimal(counter);
    assert c[|Decimal(stamp)|] == '-';
  }

  /** `_ensure_trash_dir` */
  function EnsureTrash(s: State): (State, Outcome<Error>) {
    if [TRASH] !in s.tree then (Add(s, [TRASH], Dir(s.next)), Pass)
    else if s.tree[[TRASH]].Dir? then (s, Pass)
    else (s, Fail(Conflict))
  }

  lemma EnsureTrashExtends(s: State)
    requires WellFormed(s)
    ensures var (s1, o) := EnsureTrash(s);
      && WellFormed(s1) && Extends(s, s1) && (o.Pass? ==> IsDirAt(s1.tree, [TRASH]))
  {
    hide WellFormed, Extends;
    ExtendsItself(s);
    if [TRASH] !in s.tree {
      RootIsDir(s);
      assert Parent([TRASH]) == [];
      AddExtends(s, [TRASH], Dir(s.next));
    }
  }

  lemma ExtendsItself(s: State)
    ensures Extends(s, s)
  {
  }

  lemma RootIsDir(s: State)
    requires WellFormed(s)
    ensures IsDirAt(s.tree, [])
  {
  }

  function Delete(s: State, path: string, stamp: nat): (State, Result<Path, Error>)
    requires WellFormed(s)
  {
    match ParsePath(path)
    case Failure(e) => (s, Failure(e))
    case Success(from) =>
      if from == [] || IsProtected(from) then (s, Failure(Conflict))
      else if !IsDirAt(s.tree, Parent(from)) || from !in s.tree then (s, Failure(Missing)) else
      var (s1, o) := EnsureTrash(s);
      EnsureTrashExtends(s);
      if o.Fail? then (s1, Failure(o.error)) else
      match FreeTrashName(s1.tree, stamp, Base(from), 0)
      case None => (s1, Failure(Conflict))
      case Some(name) =>
        assert IsName(name) by {
          assert Base(from) in from;
          var k :| name == TrashCandidate(stamp, k, Base(from));
          TrashCandidateIsName(stamp, k, Base(from));
        }
        assert Parent([TRASH, name]) == [TRASH];
        RenameAt(s1, from, [TRASH, name])
  }

  // ---------------------------------------------------------------- unpacking

  datatype Member = Member(name: string, data: ByteString)

  datatype Unpacked = Extracted(size: nat) | Skipped | Ignored

  datatype Summary = Summary(extracted: nat, skipped: nat)

  /** `_validate_zip_member` accepts the name. */
  predicate MemberNameOk(name: string) {
    && name != "" && '\0' !in name && name[0] != '/' && name[0] != '\\' && !DriveLike(name) && '\\' !in name
    && var stripped := if name[|name| - 1] == '/' then name[..|name| - 1] else name;
       stripped != "" && "" !in Split(stripped, '/') && ".." !in Split(stripped, '/')
  }

  /** `validate_rel_path` accepts an already split directory path. */
  predicate DirectoryOk(p: Path) {
    ParseOnce(Join(p)).Success?
  }

  /** One member; `remaining` is what the byte limit still allows. */
  function ExtractMember(s: State, base: Path, m: Member, remaining: nat): (r: (State, Result<Unpacked, Error>))
    ensures r.1.Success? && r.1.value.Extracted? ==> r.1.value.size == |m.data| <= remaining
  {
    if !MemberNameOk(m.name) then (s, Failure(Conflict))
    else if m.name[|m.name| - 1] == '/' then (s, Success(Ignored)) else
    var segments := Significant(Split(m.name, '/'));
    if segments == [] then (s, Success(Ignored)) else
    var (s1, o) := EnsureDirs(s, base, Parent(segments));
    if o.Fail? then (s1, Failure(o.error)) else
    var folder := base + Parent(segments);
    if !DirectoryOk(folder) then (s1, Failure(BadRequest))
    else if folder + [Base(segments)] in s1.tree then (s1, Success(Skipped))
    else if |m.data| > remaining then (s1, Failure(TooLarge)) else
    match FileName(Base(segments))
    case Failure(e) => (s1, Failure(e))
    case Success(name) => Overwrite(s1, folder + [name], m.data)
  }

  /** `write_as_agent`: create the file, or truncate the one that is there. */
  function Overwrite(s: State, p: Path, data: ByteString): (State, Result<Unpacked, Error>) {
    if p !in s.tree then (Add(s, p, File(s.next, data)), Success(Extracted(|data|)))
    else if s.tree[p].Dir? then (s, Failure(Conflict))
    else (s.(tree := s.tree[p := File(s.tree[p].inode, data)]), Success(Extracted(|data|)))
  }

  function ExtractMembers(s: State, base: Path, members: seq<Member>, total: nat, done: Summary)
    : (State, Result<Summary, Error>)
    requires total <= MAX_UNZIP_TOTAL_BYTES
    decreases |members|
  {
    if |members| == 0 then (s, Success(done)) else
    var (s1, r) := ExtractMember(s, base, members[0], MAX_UNZIP_TOTAL_BYTES - total);
    match r
    case Failure(e) => (s1, Failure(e))
    case Success(Extracted(n)) =>
      ExtractMembers(s1, base, members[1..], total + n, done.(extracted := done.extracted + 1))
    case Success(Skipped) => ExtractMembers(s1, base, members[1..], total, done.(skipped := done.skipped + 1))
    case Success(Ignored) => ExtractMembers(s1, base, members[1..], total, done)
  }

  /** The loop over the members, which gives up when it meets one too many. */
  function ExtractAll(s: State, base: Path, members: seq<Member>): (State, Result<Summary, Error>) {
    if |members| <= MAX_ENTRIES then ExtractMembers(s, base, members, 0, Summary(0, 0))
    else
      var (s1, r) := ExtractMembers(s, base, members[..MAX_ENTRIES], 0, Summary(0, 0));
      (s1, if r.Failure? then r else Failure(TooLarge))
  }

  /** `extract_zip`; `unzip` lists the members of an archive, or nothing for a broken one. */
  function Extract(s: State, path: string, unzip: ByteString -> Option<seq<Member>>): (State, Result<Summary, Error>) {
    match ParsePath(path)
    case Failure(e) => (s, Failure(e))
    case Success(p) =>
      if p == [] then (s, Failure(BadRequest))
      else if !IsDirAt(s.tree, Parent(p)) || p !in s.tree || s.tree[p].Dir? then (s, Failure(Missing)) else
      match unzip(s.tree[p].bytes)
      case None => (s, Failure(BadArchive))
      case Some(members) => ExtractAll(s, Parent(p), members)
  }
}
