/** What every run of workspace operations keeps, and the two promises the code does not quite keep. */
module WorkspaceLaws {
  import opened Bytes
  import opened Wrappers
  import opened Strings
  import opened Tree
  import opened WorkspaceOps

  /** One step in order: still a well-formed tree, every node conserved, protected entries in place. */
  ghost predicate Keeps(s: State, s': State) {
    && WellFormed(s')
    && Conserves(s, s')
    && forall name :: name in PROTECTED ==> StaysAt(s, s', [name])
  }

  lemma KeepsItself(s: State)
    requires WellFormed(s)
    ensures Keeps(s, s)
  {
    hide WellFormed;
    ExtendsConserves(s, s);
  }

  lemma KeepsTransitive(a: State, b: State, c: State)
    requires Keeps(a, b) && Keeps(b, c)
    ensures Keeps(a, c)
  {
    hide WellFormed, Conserves;
    ConservesTransitive(a, b, c);
  }

  lemma ExtendingKeeps(s: State, s': State)
    requires WellFormed(s') && Extends(s, s')
    ensures Keeps(s, s')
  {
    hide WellFormed, Conserves, Extends;
    ExtendsConserves(s, s');
  }

  // ---------------------------------------------------------------- creating

  lemma ExtendsTransitive(a: State, b: State, c: State)
    requires Extends(a, b) && Extends(b, c)
    ensures Extends(a, c)
  {
  }

  /** Every file of `s'` was there before. */
  ghost predicate NoNewFiles(s: State, s': State) {
    forall p :: p in s'.tree && s'.tree[p].File? ==> p in s.tree && s.tree[p] == s'.tree[p]
  }

  lemma {:induction false} EnsureDirsAddsNoFiles(s: State, current: Path, segments: Path)
    ensures NoNewFiles(s, EnsureDirs(s, current, segments).0)
    decreases |segments|
  {
    if |segments| > 0 {
      var p := current + [segments[0]];
      if p !in s.tree {
        EnsureDirsAddsNoFiles(Add(s, p, Dir(s.next)), p, segments[1..]);
      } else if s.tree[p].Dir? {
        EnsureDirsAddsNoFiles(s, p, segments[1..]);
      }
    }
  }

  lemma {:induction false} EnsureDirsExtends(s: State, current: Path, segments: Path)
    requires WellFormed(s) && IsDirAt(s.tree, current) && AllNames(segments)
    ensures var (s', o) := EnsureDirs(s, current, segments);
      && WellFormed(s') && Extends(s, s') && (o.Pass? ==> IsDirAt(s'.tree, current + segments))
    decreases |segments|
  {
    hide WellFormed, Extends, IsName;
    ExtendsItself(s);
    if |segments| == 0 {
      assert current + segments == current;
    } else {
      var p := current + [segments[0]];
      assert Parent(p) == current && Base(p) == segments[0];
      assert AllNames(segments[1..]);
      assert current + segments == p + segments[1..];
      if p !in s.tree {
        assert segments[0] in segments;
        AddExtends(s, p, Dir(s.next));
        var s1 := Add(s, p, Dir(s.next));
        EnsureDirsExtends(s1, p, segments[1..]);
        ExtendsTransitive(s, s1, EnsureDirs(s1, p, segments[1..]).0);
      } else if s.tree[p].Dir? {
        EnsureDirsExtends(s, p, segments[1..]);
      }
    }
  }

  function NewNode(s: State, content: Option<ByteString>): (n: Node)
    ensures n.inode == s.next
  {
    if content.None? then Dir(s.next) else File(s.next, content.value)
  }

  lemma CreatingLast(s: State, segments: Path, name: string, content: Option<ByteString>)
    requires WellFormed(s) && segments != [] && AllNames(segments) && IsName(name)
    ensures var (s1, o) := EnsureDirs(s, [], Parent(segments));
      var p := Parent(segments) + [name];
      && WellFormed(s1) && Extends(s, s1)
      && (o.Pass? && p !in s1.tree ==> WellFormed(Add(s1, p, NewNode(s1, content))) && Extends(s, Add(s1, p, NewNode(s1, content))))
  {
    hide WellFormed, Extends, IsName;
    RootIsDir(s);
    assert AllNames(Parent(segments));
    EnsureDirsExtends(s, [], Parent(segments));
    var (s1, o) := EnsureDirs(s, [], Parent(segments));
    var p := Parent(segments) + [name];
    assert [] + Parent(segments) == Parent(segments) == Parent(p) && Base(p) == name;
    if o.Pass? && p !in s1.tree {
      AddExtends(s1, p, NewNode(s1, content));
      ExtendsTransitive(s, s1, Add(s1, p, NewNode(s1, content)));
    }
  }

  lemma MakeDirectoryExtends(s: State, path: string, existOk: bool)
    requires WellFormed(s)
    ensures var (s', r) := MakeDirectory(s, path, existOk);
      && WellFormed(s') && Extends(s, s') && NoNewFiles(s, s') && (r.Success? ==> IsDirAt(s'.tree, r.value))
  {
    hide WellFormed, Extends, EnsureDirs;
    ExtendsItself(s);
    if ParsePath(path).Success? && ParsePath(path).value != [] {
      var segments := ParsePath(path).value;
      EnsureDirsAddsNoFiles(s, [], Parent(segments));
      var name := FileName(Base(segments));
      if name.Success? {
        CreatingLast(s, segments, name.value, None);
        var (s1, o) := EnsureDirs(s, [], Parent(segments));
        var q := Parent(segments) + [name.value];
        assert o.Pass? && q !in s1.tree ==> MakeDirectory(s, path, existOk).0 == Add(s1, q, Dir(s1.next));
      }
    }
  }

  lemma TouchExtends(s: State, path: string, content: ByteString)
    requires WellFormed(s)
    ensures var (s', r) := Touch(s, path, content);
      && WellFormed(s') && Extends(s, s')
      && (r.Success? ==> r.value !in s.tree && r.value in s'.tree && s'.tree[r.value] == File(s'.tree[r.value].inode, content))
  {
    hide WellFormed, EnsureDirs;
    ExtendsItself(s);
    if ParsePath(path).Success? && ParsePath(path).value != [] {
      var segments := ParsePath(path).value;
      var name := FileName(Base(segments));
      if name.Success? {
        CreatingLast(s, segments, name.value, Some(content));
        var (s1, o) := EnsureDirs(s, [], Parent(segments));
        var q := Parent(segments) + [name.value];
        assert |content| <= MAX_TOUCH_CONTENT_BYTES && o.Pass? && q !in s1.tree ==>
          Touch(s, path, content).0 == Add(s1, q, File(s1.next, content));
      }
    }
  }

  // ---------------------------------------------------------------- renaming, moving, deleting

  lemma PrefixOfOne(p: Path, name: string)
    requires |p| > 0
    ensures p <= [name] ==> p == [name]
  {
  }

  lemma RenameAtKeeps(s: State, from: Path, to: Path)
    requires WellFormed(s) && |from| > 0 && |to| > 0
    requires to !in s.tree && IsDirAt(s.tree, Parent(to)) && IsName(Base(to))
    requires !IsProtected(from)
    ensures Keeps(s, RenameAt(s, from, to).0)
  {
    hide WellFormed, Conserves, RelocateState;
    KeepsItself(s);
    if from in s.tree && !(from <= to) {
      RelocateIsWellFormed(s, from, to);
      RelocateConserves(s, from, to);
      forall name | name in PROTECTED
        ensures StaysAt(s, RelocateState(s, from, to), [name])
      {
        PrefixOfOne(from, name);
      }
    }
  }

  lemma RenameKeeps(s: State, path: string, newName: string)
    requires WellFormed(s)
    ensures Keeps(s, Rename(s, path, newName).0)
  {
    hide WellFormed, Keeps, RenameAt, IsName;
    KeepsItself(s);
    var parsed, given := ParsePath(path), FileName(newName);
    if parsed.Success? && parsed.value != [] && !IsProtected(parsed.value) && given.Success? {
      var from := parsed.value;
      var to := Parent(from) + [given.value];
      assert Parent(to) == Parent(from) && Base(to) == given.value;
      if IsDirAt(s.tree, Parent(from)) && to !in s.tree {
        RenameAtKeeps(s, from, to);
      }
    }
  }

  lemma MoveKeeps(s: State, path: string, destination: string)
    requires WellFormed(s)
    ensures Keeps(s, Move(s, path, destination).0)
  {
    hide WellFormed, Keeps, RenameAt, IsName;
    KeepsItself(s);
    var parsed, dest := ParsePath(path), ParsePath(destination);
    if parsed.Success? && parsed.value != [] && dest.Success? {
      var from, into := parsed.value, dest.value;
      var to := into + [Base(from)];
      assert Parent(to) == into && Base(to) == Base(from) && Base(from) in from;
      if !IsProtected(from) && !IsProtected(into) && IsDirAt(s.tree, into) && to !in s.tree {
        RenameAtKeeps(s, from, to);
      }
    }
  }

  /** Delete keeps everything too; when it reports success the entry is in `.trash` under the reported,
      previously free name, node and all. */
  lemma DeleteKeeps(s: State, path: string, stamp: nat)
    requires WellFormed(s)
    ensures var (s', r) := Delete(s, path, stamp);
      && Keeps(s, s')
      && (r.Success? ==>
           && ParsePath(path).Success? && ParsePath(path).value in s.tree
           && |r.value| == 2 && r.value[0] == TRASH && r.value !in s.tree
           && r.value in s'.tree && s'.tree[r.value] == s.tree[ParsePath(path).value])
  {
    hide WellFormed, Keeps, IsName, EnsureTrash, RelocateState, IsProtected, Extends;
    KeepsItself(s);
    var parsed := ParsePath(path);
    if parsed.Success? && parsed.value != [] && !IsProtected(parsed.value)
       && IsDirAt(s.tree, Parent(parsed.value)) && parsed.value in s.tree {
      var from := parsed.value;
      var (s1, o) := EnsureTrash(s);
      EnsureTrashExtends(s);
      ExtendingKeeps(s, s1);
      if o.Pass? {
        var free := FreeTrashName(s1.tree, stamp, Base(from), 0);
        if free.Some? {
          var k :| free.value == TrashCandidate(stamp, k, Base(from));
          assert Base(from) in from;
          TrashCandidateIsName(stamp, k, Base(from));
          var to := [TRASH, free.value];
          assert Parent(to) == [TRASH] && Base(to) == free.value;
          RenameAtKeeps(s1, from, to);
          KeepsTransitive(s, s1, RenameAt(s1, from, to).0);
          ExtendsAt(s, s1, from);
          ExtendsAt(s, s1, to);
          if !(from <= to) {
            RelocateAt(s1, from, to, from);
            assert Moved(from, from, to) == to;
          }
        }
      }
    }
  }

  lemma ExtendsAt(s: State, s': State, p: Path)
    requires Extends(s, s')
    ensures p in s.tree ==> p in s'.tree && s'.tree[p] == s.tree[p]
  {
  }

  // ---------------------------------------------------------------- unpacking

  /** The member's file name is what `_validate_filename` will make of it. */
  predicate Trimmed(m: Member) {
    var segments := Significant(Split(m.name, '/'));
    segments != [] ==> Strip(Base(segments)) == Base(segments)
  }

  /** The member finds no entry under its own name, but a file with other bytes under the stripped one. */
  ghost predicate Clobbers(s: State, base: Path, m: Member, remaining: nat) {
    MemberNameOk(m.name) && m.name[|m.name| - 1] != '/'
    && var segments := Significant(Split(m.name, '/'));
    segments != []
    && var (s1, o) := EnsureDirs(s, base, Parent(segments));
    var folder := base + Parent(segments);
    o.Pass? && DirectoryOk(folder) && folder + [Base(segments)] !in s1.tree && |m.data| <= remaining
    && FileName(Base(segments)).Success?
    && var p := folder + [FileName(Base(segments)).value];
    p in s1.tree && s1.tree[p].File? && s1.tree[p].bytes != m.data
  }

  /** `FileName` keeps a trimmed name, so a trimmed member never finds a stranger in its place. */
  lemma TrimmedNeverClobbers(s: State, base: Path, m: Member, remaining: nat)
    requires Trimmed(m)
    ensures !Clobbers(s, base, m, remaining)
  {
  }

  lemma OverwriteKeeps(s: State, p: Path, data: ByteString)
    requires WellFormed(s) && |p| > 0 && IsDirAt(s.tree, Parent(p)) && IsName(Base(p))
    ensures WellFormed(Overwrite(s, p, data).0)
    ensures Conserves(s, Overwrite(s, p, data).0) <==> !(p in s.tree && s.tree[p].File? && s.tree[p].bytes != data)
    ensures !(p in s.tree && s.tree[p].File? && s.tree[p].bytes != data) ==> Extends(s, Overwrite(s, p, data).0)
  {
    ExtendsItself(s);
    if p !in s.tree {
      AddExtends(s, p, File(s.next, data));
      ExtendsConserves(s, Add(s, p, File(s.next, data)));
    } else if s.tree[p].File? {
      OverwrittenIsWellFormed(s, p, data);
      if s.tree[p].bytes == data {
        assert Overwrite(s, p, data).0 == s;
        ExtendsConserves(s, s);
      } else {
        OverwrittenIsLost(s, p, data);
      }
    } else {
      ExtendsConserves(s, s);
    }
  }

  lemma OverwrittenIsWellFormed(s: State, p: Path, data: ByteString)
    requires WellFormed(s) && p in s.tree && s.tree[p].File?
    ensures WellFormed(Overwrite(s, p, data).0)
  {
    RewriteKeepsRooted(s.tree, p, File(s.tree[p].inode, data));
  }

  lemma RewriteKeepsRooted(t: Tree, p: Path, node: Node)
    requires Rooted(t) && p in t && t[p].File?
    ensures Rooted(t[p := node])
  {
    hide IsName;
    var t' := t[p := node];
    forall q | q in t' && q != []
      ensures IsDirAt(t', Parent(q)) && IsName(Base(q))
    {
      assert q in t && IsDirAt(t, Parent(q));
    }
  }

  lemma OverwrittenIsLost(s: State, p: Path, data: ByteString)
    requires WellFormed(s) && p in s.tree && s.tree[p].File? && s.tree[p].bytes != data
    ensures !Holds(Overwrite(s, p, data).0.tree, s.tree[p])
    ensures !Conserves(s, Overwrite(s, p, data).0)
  {
    hide Rooted;
    var t := Overwrite(s, p, data).0.tree;
    forall q | q in t
      ensures t[q] != s.tree[p]
    {
      if q != p {
        assert q in s.tree;
      }
    }
  }

  /** Unpacking one member conserves every node exactly when it does not clobber one. */
  lemma ExtractMemberKeepsIff(s: State, base: Path, m: Member, remaining: nat)
    requires WellFormed(s) && IsDirAt(s.tree, base)
    ensures var s' := ExtractMember(s, base, m, remaining).0;
      && WellFormed(s')
      && (Conserves(s, s') <==> !Clobbers(s, base, m, remaining))
      && (!Clobbers(s, base, m, remaining) ==> Extends(s, s'))
  {
    hide WellFormed, Conserves, Extends, EnsureDirs, IsName;
    ExtendsItself(s);
    ExtendsConserves(s, s);
    var segments := Significant(Split(m.name, '/'));
    if MemberNameOk(m.name) && m.name[|m.name| - 1] != '/' && segments != [] {
      var (s1, o) := EnsureDirs(s, base, Parent(segments));
      MemberSegmentsAreNames(m);
      EnsureDirsExtends(s, base, Parent(segments));
      ExtendsConserves(s, s1);
      var folder := base + Parent(segments);
      var name := FileName(Base(segments));
      if o.Pass? && name.Success? {
        var p := folder + [name.value];
        assert Parent(p) == folder && Base(p) == name.value;
        OverwriteKeeps(s1, p, m.data);
        var s2 := Overwrite(s1, p, m.data).0;
        EnsureDirsAddsNoFiles(s, base, Parent(segments));
        ConserveThroughExtension(s, s1, p, m.data);
      }
    }
  }

  lemma ConserveThroughExtension(s: State, s1: State, p: Path, data: ByteString)
    requires WellFormed(s1) && Extends(s, s1) && NoNewFiles(s, s1)
    ensures var s2 := Overwrite(s1, p, data).0;
      && (Conserves(s1, s2) ==> Conserves(s, s2))
      && (Extends(s1, s2) ==> Extends(s, s2))
      && (p in s1.tree && s1.tree[p].File? && s1.tree[p].bytes != data ==> !Conserves(s, s2))
  {
    var s2 := Overwrite(s1, p, data).0;
    ExtendsConserves(s, s1);
    if Conserves(s1, s2) {
      ConservesTransitive(s, s1, s2);
    }
    if p in s1.tree && s1.tree[p].File? && s1.tree[p].bytes != data {
      OverwrittenIsLost(s1, p, data);
      assert p in s.tree && s.tree[p] == s1.tree[p];
    }
  }

  lemma MemberSegmentsAreNames(m: Member)
    requires MemberNameOk(m.name)
    ensures m.name[|m.name| - 1] != '/' ==> AllNames(Significant(Split(m.name, '/')))
  {
  }

  // ---------------------------------------------------------------- whole runs

  datatype Op =
    | OpMakeDirectory(path: string, existOk: bool)
    | OpTouch(path: string, content: ByteString)
    | OpRename(path: string, newName: string)
    | OpMove(path: string, destination: string)
    | OpDelete(path: string, stamp: nat)
    | OpExtract(path: string)

  function Apply(s: State, op: Op, unzip: ByteString -> Option<seq<Member>>): State
    requires WellFormed(s)
  {
    match op
    case OpMakeDirectory(path, existOk) => MakeDirectory(s, path, existOk).0
    case OpTouch(path, content) => Touch(s, path, content).0
    case OpRename(path, newName) => Rename(s, path, newName).0
    case OpMove(path, destination) => Move(s, path, destination).0
    case OpDelete(path, stamp) => Delete(s, path, stamp).0
    case OpExtract(path) => Extract(s, path, unzip).0
  }

  /** The archives a caller hands to `extract_zip` hold no name with white space at either end. */
  ghost predicate TrimmedArchives(unzip: ByteString -> Option<seq<Member>>) {
    forall b: ByteString, m :: unzip(b).Some? && m in unzip(b).value ==> Trimmed(m)
  }

  /** The bytes counted once the member is done. */
  function Counted(total: nat, r: Result<Unpacked, Error>): nat
    requires r.Success?
  {
    if r.value.Extracted? then total + r.value.size else total
  }

  /** Each member, at its turn, overwrites no other file. */
  ghost predicate NoneClobbers(s: State, base: Path, members: seq<Member>, total: nat)
    requires total <= MAX_UNZIP_TOTAL_BYTES
    decreases |members|
  {
    |members| == 0 ||
    var remaining := MAX_UNZIP_TOTAL_BYTES - total;
    var (s1, r) := ExtractMember(s, base, members[0], remaining);
    && !Clobbers(s, base, members[0], remaining)
    && (r.Success? ==> NoneClobbers(s1, base, members[1..], Counted(total, r)))
  }

  /** Each member, at its turn, conserves every node. */
  ghost predicate EachConserves(s: State, base: Path, members: seq<Member>, total: nat)
    requires total <= MAX_UNZIP_TOTAL_BYTES
    decreases |members|
  {
    |members| == 0 ||
    var (s1, r) := ExtractMember(s, base, members[0], MAX_UNZIP_TOTAL_BYTES - total);
    Conserves(s, s1) && (r.Success? ==> EachConserves(s1, base, members[1..], Counted(total, r)))
  }

  lemma {:induction false} ExtractMembersKeeps(s: State, base: Path, members: seq<Member>, total: nat, done: Summary)
    requires WellFormed(s) && IsDirAt(s.tree, base) && total <= MAX_UNZIP_TOTAL_BYTES
    ensures var s' := ExtractMembers(s, base, members, total, done).0;
      && WellFormed(s')
      && (NoneClobbers(s, base, members, total) ==> Keeps(s, s'))
    ensures EachConserves(s, base, members, total) <==> NoneClobbers(s, base, members, total)
    decreases |members|
  {
    hide Keeps, WellFormed, ExtractMember, Conserves, Extends, Clobbers;
    if |members| == 0 {
      KeepsItself(s);
    } else {
      var remaining := MAX_UNZIP_TOTAL_BYTES - total;
      var (s1, r) := ExtractMember(s, base, members[0], remaining);
      ExtractMemberKeepsIff(s, base, members[0], remaining);
      BaseSurvives(s, base, members[0], remaining);
      if !Clobbers(s, base, members[0], remaining) {
        ExtendingKeeps(s, s1);
      }
      if r.Success? {
        var done' := match r.value
          case Extracted(_) => done.(extracted := done.extracted + 1)
          case Skipped => done.(skipped := done.skipped + 1)
          case Ignored => done;
        ExtractMembersKeeps(s1, base, members[1..], Counted(total, r), done');
        if NoneClobbers(s, base, members, total) {
          KeepsTransitive(s, s1, ExtractMembers(s1, base, members[1..], Counted(total, r), done').0);
        }
      }
    }
  }

  lemma {:induction false} TrimmedClobberNothing(s: State, base: Path, members: seq<Member>, total: nat)
    requires total <= MAX_UNZIP_TOTAL_BYTES && forall m :: m in members ==> Trimmed(m)
    ensures NoneClobbers(s, base, members, total)
    decreases |members|
  {
    hide ExtractMember, Clobbers, Trimmed;
    if |members| > 0 {
      var remaining := MAX_UNZIP_TOTAL_BYTES - total;
      var (s1, r) := ExtractMember(s, base, members[0], remaining);
      TrimmedNeverClobbers(s, base, members[0], remaining);
      if r.Success? {
        TrimmedClobberNothing(s1, base, members[1..], Counted(total, r));
      }
    }
  }

  lemma BaseSurvives(s: State, base: Path, m: Member, remaining: nat)
    requires WellFormed(s) && IsDirAt(s.tree, base)
    ensures IsDirAt(ExtractMember(s, base, m, remaining).0.tree, base)
  {
    hide WellFormed, Extends, EnsureDirs, IsName, FileName;
    var segments := Significant(Split(m.name, '/'));
    if MemberNameOk(m.name) && m.name[|m.name| - 1] != '/' && segments != [] {
      MemberSegmentsAreNames(m);
      EnsureDirsExtends(s, base, Parent(segments));
      ExtendsAt(s, EnsureDirs(s, base, Parent(segments)).0, base);
    }
  }

  /** Where `extract_zip` unpacks, and the members it comes to, unless it is refused before. */
  function Unpacks(s: State, path: string, unzip: ByteString -> Option<seq<Member>>): Option<(Path, seq<Member>)> {
    match ParsePath(path)
    case Failure(_) => None
    case Success(p) =>
      if p == [] || !IsDirAt(s.tree, Parent(p)) || p !in s.tree || s.tree[p].Dir? then None else
      match unzip(s.tree[p].bytes)
      case None => None
      case Some(members) => Some((Parent(p), if |members| <= MAX_ENTRIES then members else members[..MAX_ENTRIES]))
  }

  /** The request overwrites no other file. */
  ghost predicate ClobbersNothing(s: State, op: Op, unzip: ByteString -> Option<seq<Member>>) {
    op.OpExtract? && Unpacks(s, op.path, unzip).Some? ==>
      var (base, members) := Unpacks(s, op.path, unzip).value;
      NoneClobbers(s, base, members, 0)
  }

  /** The request conserves every node, and unpacking does so member by member. */
  ghost predicate StepConserves(s: State, op: Op, unzip: ByteString -> Option<seq<Member>>)
    requires WellFormed(s)
  {
    if op.OpExtract? && Unpacks(s, op.path, unzip).Some? then
      var (base, members) := Unpacks(s, op.path, unzip).value;
      EachConserves(s, base, members, 0)
    else Conserves(s, Apply(s, op, unzip))
  }

  /** Unpacking keeps everything when no member overwrites another file at its turn, and each of its steps conserves
      every node exactly then. */
  lemma ExtractKeeps(s: State, path: string, unzip: ByteString -> Option<seq<Member>>)
    requires WellFormed(s)
    ensures WellFormed(Extract(s, path, unzip).0)
    ensures ClobbersNothing(s, OpExtract(path), unzip) ==> Keeps(s, Extract(s, path, unzip).0)
    ensures StepConserves(s, OpExtract(path), unzip) <==> ClobbersNothing(s, OpExtract(path), unzip)
  {
    hide WellFormed, ExtractMembers, NoneClobbers, EachConserves, ParsePath;
    KeepsItself(s);
    if Unpacks(s, path, unzip).Some? {
      var (base, members) := Unpacks(s, path, unzip).value;
      ExtractMembersKeeps(s, base, members, 0, Summary(0, 0));
      hide Keeps, Conserves;
      assert Extract(s, path, unzip).0 == ExtractMembers(s, base, members, 0, Summary(0, 0)).0;
    }
  }

  lemma ApplyKeeps(s: State, op: Op, unzip: ByteString -> Option<seq<Member>>)
    requires WellFormed(s)
    ensures WellFormed(Apply(s, op, unzip))
    ensures ClobbersNothing(s, op, unzip) ==> Keeps(s, Apply(s, op, unzip))
    ensures StepConserves(s, op, unzip) <==> ClobbersNothing(s, op, unzip)
  {
    hide Keeps, WellFormed, Conserves, NoneClobbers, EachConserves, Unpacks, MakeDirectory, Touch, Rename, Move, Delete,
      Extract, Extends, NoNewFiles;
    match op
    case OpMakeDirectory(path, existOk) =>
      MakeDirectoryExtends(s, path, existOk);
      ExtendingKeeps(s, MakeDirectory(s, path, existOk).0);
      KeepsFacts(s, MakeDirectory(s, path, existOk).0);
    case OpTouch(path, content) =>
      TouchExtends(s, path, content);
      ExtendingKeeps(s, Touch(s, path, content).0);
      KeepsFacts(s, Touch(s, path, content).0);
    case OpRename(path, newName) =>
      RenameKeeps(s, path, newName);
      KeepsFacts(s, Rename(s, path, newName).0);
    case OpMove(path, destination) =>
      MoveKeeps(s, path, destination);
      KeepsFacts(s, Move(s, path, destination).0);
    case OpDelete(path, stamp) =>
      DeleteKeeps(s, path, stamp);
      KeepsFacts(s, Delete(s, path, stamp).0);
    case OpExtract(path) =>
      ExtractKeeps(s, path, unzip);
  }

  lemma KeepsFacts(s: State, s': State)
    requires Keeps(s, s')
    ensures WellFormed(s') && Conserves(s, s')
  {
  }

  /** A whole run of requests, each succeeding or failing as it may. */
  ghost function Run(s: State, ops: seq<Op>, unzip: ByteString -> Option<seq<Member>>): (s': State)
    requires WellFormed(s)
    ensures WellFormed(s')
    decreases |ops|
  {
    if |ops| == 0 then s
    else
      ApplyKeeps(s, ops[0], unzip);
      Run(Apply(s, ops[0], unzip), ops[1..], unzip)
  }

  /** No request of the run overwrites another file at its turn. */
  ghost predicate RunClobbersNothing(s: State, ops: seq<Op>, unzip: ByteString -> Option<seq<Member>>)
    requires WellFormed(s)
    decreases |ops|
  {
    |ops| == 0 ||
    (ClobbersNothing(s, ops[0], unzip)
     && (ApplyKeeps(s, ops[0], unzip); RunClobbersNothing(Apply(s, ops[0], unzip), ops[1..], unzip)))
  }

  /** Each step of the run conserves every node. */
  ghost predicate RunConserves(s: State, ops: seq<Op>, unzip: ByteString -> Option<seq<Member>>)
    requires WellFormed(s)
    decreases |ops|
  {
    |ops| == 0 ||
    (StepConserves(s, ops[0], unzip)
     && (ApplyKeeps(s, ops[0], unzip); RunConserves(Apply(s, ops[0], unzip), ops[1..], unzip)))
  }

  /** Over every run in which no member overwrites another file: a well-formed tree, every entry of the start at exactly
      one place with its inode and bytes, and protected entries where they were. These are exactly the runs of which
      each step conserves every node. */
  lemma {:induction false} RunKeeps(s: State, ops: seq<Op>, unzip: ByteString -> Option<seq<Member>>)
    requires WellFormed(s)
    ensures RunClobbersNothing(s, ops, unzip) ==> Keeps(s, Run(s, ops, unzip))
    ensures RunConserves(s, ops, unzip) <==> RunClobbersNothing(s, ops, unzip)
    decreases |ops|
  {
    hide Keeps, WellFormed, ClobbersNothing, StepConserves, Apply;
    if |ops| == 0 {
      KeepsItself(s);
    } else {
      var s1 := Apply(s, ops[0], unzip);
      ApplyKeeps(s, ops[0], unzip);
      RunKeeps(s1, ops[1..], unzip);
      if RunClobbersNothing(s, ops, unzip) {
        KeepsTransitive(s, s1, Run(s1, ops[1..], unzip));
      }
    }
  }

  lemma TrimmedArchiveClobbersNothing(s: State, op: Op, unzip: ByteString -> Option<seq<Member>>)
    requires TrimmedArchives(unzip)
    ensures ClobbersNothing(s, op, unzip)
  {
    hide ParsePath, NoneClobbers, Trimmed;
    if op.OpExtract? && Unpacks(s, op.path, unzip).Some? {
      var (base, members) := Unpacks(s, op.path, unzip).value;
      forall m | m in members
        ensures Trimmed(m)
      {
        assert m in unzip(s.tree[ParsePath(op.path).value].bytes).value;
      }
      TrimmedClobberNothing(s, base, members, 0);
    }
  }

  /** Archives whose member names have no white space at their ends overwrite nothing, whatever the run. */
  lemma {:induction false} TrimmedRunsClobberNothing(s: State, ops: seq<Op>, unzip: ByteString -> Option<seq<Member>>)
    requires WellFormed(s) && TrimmedArchives(unzip)
    ensures RunClobbersNothing(s, ops, unzip)
    decreases |ops|
  {
    hide WellFormed, Apply, ClobbersNothing, TrimmedArchives;
    if |ops| > 0 {
      TrimmedArchiveClobbersNothing(s, ops[0], unzip);
      ApplyKeeps(s, ops[0], unzip);
      TrimmedRunsClobberNothing(Apply(s, ops[0], unzip), ops[1..], unzip);
    }
  }

  /** Read out: after such a run an entry of the start is at one path and no other. */
  lemma EntryIsAtOnePath(s: State, ops: seq<Op>, unzip: ByteString -> Option<seq<Member>>, p: Path)
    requires WellFormed(s) && RunClobbersNothing(s, ops, unzip) && p in s.tree
    ensures var t := Run(s, ops, unzip).tree;
      exists q :: q in t && t[q] == s.tree[p] && forall r :: r in t && t[r].inode == s.tree[p].inode ==> r == q
  {
    hide Run, RunClobbersNothing, RunConserves;
    RunKeeps(s, ops, unzip);
    var t := Run(s, ops, unzip).tree;
    assert Holds(t, s.tree[p]);
    var q :| q in t && t[q] == s.tree[p];
    assert forall r :: r in t && t[r].inode == s.tree[p].inode ==> r == q;
  }
}
