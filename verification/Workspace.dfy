/** The workspace as the object the requests update: the operations step by step, against their functions. */
module WorkspaceFiles {
  import opened Bytes
  import opened Wrappers
  import opened Strings
  import opened Tree
  import opened WorkspaceOps
  import opened WorkspaceLaws

  class Workspace {
    var tree: Tree
    var next: nat

    ghost predicate Valid()
      reads this
    {
      WellFormed(Current())
    }

    ghost function Current(): State
      reads this
    {
      State(tree, next)
    }

    /** An empty workspace. */
    constructor ()
      ensures Valid() && Current() == State(map[[] := Dir(0)], 1)
    {
      tree, next := map[[] := Dir(0)], 1;
    }

    /** `_open_dir_fd`: walk down one segment at a time. */
    method OpenDirectory(p: Path) returns (ok: bool)
      requires Valid()
      ensures ok == IsDirAt(tree, p)
    {
      var k := 0;
      while k < |p|
        invariant 0 <= k <= |p|
        invariant IsDirAt(tree, p[..k])
      {
        if !(p[..k + 1] in tree && tree[p[..k + 1]].Dir?) {
          if IsDirAt(tree, p) {
            PrefixIsDir(Current(), p, k + 1);
          }
          return false;
        }
        k := k + 1;
      }
      assert p[..k] == p;
      return true;
    }

    /** `os.mkdir`, the name being free. */
    method CreateDir(p: Path)
      requires Valid() && CanCreate(Current(), p)
      modifies this
      ensures Valid() && Current() == Add(old(Current()), p, Dir(old(next)))
    {
      AddExtends(Current(), p, Dir(next));
      tree, next := tree[p := Dir(next)], next + 1;
    }

    /** `os.open` with `O_CREAT | O_EXCL` and a write, the name being free. */
    method CreateFile(p: Path, bytes: ByteString)
      requires Valid() && CanCreate(Current(), p)
      modifies this
      ensures Valid() && Current() == Add(old(Current()), p, File(old(next), bytes))
    {
      AddExtends(Current(), p, File(next, bytes));
      tree, next := tree[p := File(next, bytes)], next + 1;
    }

    method EnsureDirectories(base: Path, segments: Path) returns (o: Outcome<Error>)
      requires Valid() && IsDirAt(tree, base) && AllNames(segments)
      modifies this
      ensures Valid() && Extends(old(Current()), Current())
      ensures (Current(), o) == EnsureDirs(old(Current()), base, segments)
      ensures o.Pass? ==> IsDirAt(tree, base + segments)
    {
      hide WellFormed, Extends, IsName;
      EnsureDirsExtends(Current(), base, segments);
      var current, k := base, 0;
      while k < |segments|
        invariant 0 <= k <= |segments|
        invariant Valid() && IsDirAt(tree, current)
        invariant EnsureDirs(old(Current()), base, segments) == EnsureDirs(Current(), current, segments[k..])
      {
        var p := current + [segments[k]];
        assert Parent(p) == current && Base(p) == segments[k] && segments[k] in segments;
        assert segments[k..][1..] == segments[k + 1..];
        if p !in tree {
          CanCreateHere(Current(), p);
          CreateDir(p);
        } else if !tree[p].Dir? {
          return Fail(Conflict);
        }
        current, k := p, k + 1;
      }
      return Pass;
    }

    method MakeDirectoryAt(path: string, existOk: bool) returns (r: Result<Path, Error>)
      requires Valid()
      modifies this
      ensures Valid() && (Current(), r) == MakeDirectory(old(Current()), path, existOk)
    {
      hide WellFormed, Extends, EnsureDirs, IsName, FileName;
      var parsed := ParsePath(path);
      if parsed.Failure? { return parsed; }
      var segments := parsed.value;
      if segments == [] { return Failure(BadRequest); }
      var name := FileName(Base(segments));
      if name.Failure? { return Failure(name.error); }
      RootIsDir(Current());
      NamesAbove(segments);
      var o := EnsureDirectories([], Parent(segments));
      if o.Fail? { return Failure(o.error); }
      var p := Parent(segments) + [name.value];
      assert [] + Parent(segments) == Parent(p) && Base(p) == name.value;
      if p !in tree {
        CanCreateHere(Current(), p);
        CreateDir(p);
        return Success(p);
      }
      return if existOk && tree[p].Dir? then Success(p) else Failure(Conflict);
    }

    method TouchAt(path: string, content: ByteString) returns (r: Result<Path, Error>)
      requires Valid()
      modifies this
      ensures Valid() && (Current(), r) == Touch(old(Current()), path, content)
    {
      hide WellFormed, Extends, EnsureDirs, IsName, FileName;
      if |content| > MAX_TOUCH_CONTENT_BYTES { return Failure(TooLarge); }
      var parsed := ParsePath(path);
      if parsed.Failure? { return parsed; }
      var segments := parsed.value;
      if segments == [] { return Failure(BadRequest); }
      var name := FileName(Base(segments));
      if name.Failure? { return Failure(name.error); }
      RootIsDir(Current());
      NamesAbove(segments);
      var o := EnsureDirectories([], Parent(segments));
      if o.Fail? { return Failure(o.error); }
      var p := Parent(segments) + [name.value];
      assert [] + Parent(segments) == Parent(p) && Base(p) == name.value;
      if p in tree { return Failure(Conflict); }
      CanCreateHere(Current(), p);
      CreateFile(p, content);
      return Success(p);
    }

    /** `os.rename` onto a free name in an existing directory. */
    method RenameOnDisk(from: Path, to: Path) returns (r: Result<Path, Error>)
      requires Valid() && |from| > 0 && |to| > 0
      requires to !in tree && IsDirAt(tree, Parent(to)) && IsName(Base(to))
      modifies this
      ensures Valid() && (Current(), r) == RenameAt(old(Current()), from, to)
    {
      hide IsName, Moved, Relocate;
      if from !in tree { return Failure(Missing); }
      if from <= to { return Failure(Conflict); }
      RelocateIsWellFormed(Current(), from, to);
      AllMovedBack(Current(), from, to);
      tree := Relocate(tree, from, to);
      return Success(to);
    }

    method RenameEntry(path: string, newName: string) returns (r: Result<Path, Error>)
      requires Valid()
      modifies this
      ensures Valid() && (Current(), r) == Rename(old(Current()), path, newName)
    {
      hide WellFormed, IsName, FileName, RenameAt;
      var parsed := ParsePath(path);
      if parsed.Failure? { return parsed; }
      var from := parsed.value;
      if from == [] { return Failure(BadRequest); }
      if IsProtected(from) { return Failure(Conflict); }
      var name := FileName(newName);
      if name.Failure? { return Failure(name.error); }
      var found := OpenDirectory(Parent(from));
      if !found { return Failure(Missing); }
      var to := Parent(from) + [name.value];
      assert Parent(to) == Parent(from) && Base(to) == name.value;
      if to in tree { return Failure(Conflict); }
      r := RenameOnDisk(from, to);
    }

    method MoveEntry(path: string, destination: string) returns (r: Result<Path, Error>)
      requires Valid()
      modifies this
      ensures Valid() && (Current(), r) == Move(old(Current()), path, destination)
    {
      hide WellFormed, IsName, RenameAt;
      var parsed := ParsePath(path);
      if parsed.Failure? { return parsed; }
      var from := parsed.value;
      if from == [] { return Failure(BadRequest); }
      var once := ParseOnce(destination);
      if once.Failure? { return Failure(BadRequest); }
      if IsProtected(from) { return Failure(Conflict); }
      var dest := ParsePath(destination);
      if dest.Failure? { return dest; }
      var into := dest.value;
      if IsProtected(into) { return Failure(Conflict); }
      var source := OpenDirectory(Parent(from));
      if !source { return Failure(Missing); }
      var target := OpenDirectory(into);
      if !target { return Failure(Missing); }
      var to := into + [Base(from)];
      assert Parent(to) == into && Base(to) == Base(from) && Base(from) in from;
      if to in tree { return Failure(Conflict); }
      r := RenameOnDisk(from, to);
    }

    method UniqueTrashName(stamp: nat, name: string) returns (r: Option<string>)
      ensures r == FreeTrashName(tree, stamp, name, 0)
    {
      var candidate, counter := TrashCandidate(stamp, 0, name), 0;
      while [TRASH, candidate] in tree
        invariant 0 <= counter <= MAX_TRASH_COUNTER
        invariant candidate == TrashCandidate(stamp, counter, name)
        invariant FreeTrashName(tree, stamp, name, 0) == FreeTrashName(tree, stamp, name, counter)
        decreases MAX_TRASH_COUNTER - counter
      {
        counter := counter + 1;
        if counter > MAX_TRASH_COUNTER { return None; }
        candidate := TrashCandidate(stamp, counter, name);
      }
      return Some(candidate);
    }

    method DeleteEntry(path: string, stamp: nat) returns (r: Result<Path, Error>)
      requires Valid()
      modifies this
      ensures Valid() && (Current(), r) == Delete(old(Current()), path, stamp)
    {
      hide WellFormed, IsName, RenameAt, FreeTrashName, TrashCandidate, Extends, ParsePath, IsProtected;
      var parsed := ParsePath(path);
      if parsed.Failure? { return parsed; }
      var from := parsed.value;
      if from == [] || IsProtected(from) { return Failure(Conflict); }
      var source := OpenDirectory(Parent(from));
      if !source || from !in tree { return Failure(Missing); }
      EnsureTrashExtends(Current());
      if [TRASH] !in tree {
        RootIsDir(Current());
        assert Parent([TRASH]) == [];
        CanCreateHere(Current(), [TRASH]);
        CreateDir([TRASH]);
      } else if !tree[[TRASH]].Dir? {
        return Failure(Conflict);
      }
      var name := UniqueTrashName(stamp, Base(from));
      if name.None? { return Failure(Conflict); }
      assert Base(from) in from;
      ghost var k :| name.value == TrashCandidate(stamp, k, Base(from));
      TrashCandidateIsName(stamp, k, Base(from));
      assert Parent([TRASH, name.value]) == [TRASH];
      r := RenameOnDisk(from, [TRASH, name.value]);
    }

    /** `write_as_agent`: create or truncate. */
    method WriteFile(p: Path, data: ByteString) returns (r: Result<Unpacked, Error>)
      requires Valid() && |p| > 0 && IsDirAt(tree, Parent(p)) && IsName(Base(p))
      modifies this
      ensures Valid() && (Current(), r) == Overwrite(old(Current()), p, data)
    {
      OverwriteKeeps(Current(), p, data);
      if p !in tree {
        CreateFile(p, data);
        return Success(Extracted(|data|));
      }
      if tree[p].Dir? { return Failure(Conflict); }
      tree := tree[p := File(tree[p].inode, data)];
      return Success(Extracted(|data|));
    }

    method UnpackMember(base: Path, m: Member, remaining: nat) returns (r: Result<Unpacked, Error>)
      requires Valid() && IsDirAt(tree, base)
      modifies this
      ensures Valid() && (Current(), r) == ExtractMember(old(Current()), base, m, remaining)
    {
      hide WellFormed, IsName, FileName, EnsureDirs, Extends, Overwrite;
      if !MemberNameOk(m.name) { return Failure(Conflict); }
      if m.name[|m.name| - 1] == '/' { return Success(Ignored); }
      var segments := Significant(Split(m.name, '/'));
      if segments == [] { return Success(Ignored); }
      MemberSegmentsAreNames(m);
      NamesAbove(segments);
      var o := EnsureDirectories(base, Parent(segments));
      if o.Fail? { return Failure(o.error); }
      var folder := base + Parent(segments);
      if !DirectoryOk(folder) { return Failure(BadRequest); }
      if folder + [Base(segments)] in tree { return Success(Skipped); }
      if |m.data| > remaining { return Failure(TooLarge); }
      var name := FileName(Base(segments));
      if name.Failure? { return Failure(name.error); }
      var p := folder + [name.value];
      assert Parent(p) == folder && Base(p) == name.value;
      r := WriteFile(p, m.data);
    }

    method UnpackAll(base: Path, members: seq<Member>) returns (r: Result<Summary, Error>)
      requires Valid() && IsDirAt(tree, base)
      modifies this
      ensures Valid() && (Current(), r) == ExtractAll(old(Current()), base, members)
    {
      hide WellFormed, ExtractMember;
      var extracted, skipped, total, count := 0, 0, 0, 0;
      ghost var most := if |members| <= MAX_ENTRIES then members else members[..MAX_ENTRIES];
      ghost var goal := ExtractMembers(Current(), base, most, 0, Summary(0, 0));
      assert most[0..] == most;
      while count < |members|
        invariant 0 <= count <= |most| && total <= MAX_UNZIP_TOTAL_BYTES
        invariant Valid() && IsDirAt(tree, base)
        invariant goal == ExtractMembers(Current(), base, most[count..], total, Summary(extracted, skipped))
      {
        if count + 1 > MAX_ENTRIES { return Failure(TooLarge); }
        BaseSurvives(Current(), base, members[count], MAX_UNZIP_TOTAL_BYTES - total);
        assert most[count..][0] == members[count] && most[count..][1..] == most[count + 1..];
        var one := UnpackMember(base, members[count], MAX_UNZIP_TOTAL_BYTES - total);
        if one.Failure? { return Failure(one.error); }
        match one.value {
          case Extracted(n) => total, extracted := total + n, extracted + 1;
          case Skipped => skipped := skipped + 1;
          case Ignored =>
        }
        count := count + 1;
      }
      return Success(Summary(extracted, skipped));
    }

    method ExtractZip(path: string, unzip: ByteString -> Option<seq<Member>>) returns (r: Result<Summary, Error>)
      requires Valid()
      modifies this
      ensures Valid() && (Current(), r) == Extract(old(Current()), path, unzip)
    {
      hide WellFormed, ExtractAll, IsName;
      var parsed := ParsePath(path);
      if parsed.Failure? { return Failure(parsed.error); }
      var p := parsed.value;
      if p == [] { return Failure(BadRequest); }
      var folder := OpenDirectory(Parent(p));
      if !folder || p !in tree || tree[p].Dir? { return Failure(Missing); }
      var listed := unzip(tree[p].bytes);
      if listed.None? { return Failure(BadArchive); }
      r := UnpackAll(Parent(p), listed.value);
    }
  }

  lemma {:induction false} PrefixIsDir(s: State, p: Path, k: nat)
    requires WellFormed(s) && IsDirAt(s.tree, p) && k <= |p|
    ensures IsDirAt(s.tree, p[..k])
    decreases |p|
  {
    hide IsName;
    if k == |p| {
      assert p[..k] == p;
    } else {
      assert IsDirAt(s.tree, Parent(p));
      PrefixIsDir(s, Parent(p), k);
      assert Parent(p)[..k] == p[..k];
    }
  }

  lemma CanCreateHere(s: State, p: Path)
    requires WellFormed(s) && |p| > 0 && p !in s.tree && IsDirAt(s.tree, Parent(p)) && IsName(Base(p))
    ensures CanCreate(s, p)
  {
  }

  lemma NamesAbove(p: Path)
    requires AllNames(p) && |p| > 0
    ensures AllNames(Parent(p))
  {
  }
}
