/** What unpacking an archive leaves in the tree, said of the tree it started from and the list of members alone. */
module UnpackResults {
  import opened Bytes
  import opened Wrappers
  import opened Strings
  import opened Tree
  import opened WorkspaceOps
  import opened WorkspaceLaws
  import opened WorkspaceFindings
  import opened WorkspaceResults

  // ---------------------------------------------------------------- one member

  function Segments(m: Member): Path {
    Significant(Split(m.name, '/'))
  }

  /** The member's name is that of a file. */
  predicate Named(m: Member) {
    MemberNameOk(m.name) && m.name[|m.name| - 1] != '/' && Segments(m) != []
  }

  function Folder(base: Path, m: Member): Path
    requires Named(m)
  {
    base + Parent(Segments(m))
  }

  /** Where the member's own name would put it. */
  function Own(base: Path, m: Member): Path
    requires Named(m)
  {
    Folder(base, m) + [Base(Segments(m))]
  }

  /** Where it is put: under its name without white space at the ends. */
  function Place(base: Path, m: Member): Path
    requires Named(m)
  {
    Folder(base, m) + [Strip(Base(Segments(m)))]
  }

  /** A folder the member needs, below the one the archive is unpacked in. */
  predicate Above(q: Path, base: Path, m: Member) {
    Named(m) && base < q <= Folder(base, m)
  }

  ghost predicate IsFileAt(t: Tree, q: Path) {
    q in t && t[q].File?
  }

  /** No file stands where the member needs a folder. */
  ghost predicate WayIsFree(t: Tree, base: Path, m: Member) {
    forall q :: Above(q, base, m) ==> !IsFileAt(t, q)
  }

  /** The member can be unpacked into this tree. */
  ghost predicate CanUnpack(t: Tree, base: Path, m: Member, remaining: int) {
    MemberNameOk(m.name)
    && (Named(m) ==>
          && WayIsFree(t, base, m) && DirectoryOk(Folder(base, m))
          && (Own(base, m) !in t ==>
                |m.data| <= remaining && FileName(Base(Segments(m))).Success? && !IsDirAt(t, Place(base, m))))
  }

  /** The member is in the tree: its folders, and it under its place, unless something was there under its own name. */
  ghost predicate IsUnpacked(t: Tree, base: Path, m: Member, t': Tree) {
    && (forall q :: IsDirAt(t', q) <==> IsDirAt(t, q) || Above(q, base, m))
    && (forall q :: IsFileAt(t', q) <==> IsFileAt(t, q) || (Named(m) && Own(base, m) !in t && q == Place(base, m)))
    && (forall q :: q in t && !(Named(m) && Own(base, m) !in t && q == Place(base, m)) ==> q in t' && t'[q] == t[q])
    && (Named(m) && Own(base, m) !in t ==> Place(base, m) in t' && t'[Place(base, m)].File? && t'[Place(base, m)].bytes == m.data)
  }

  /** What is reported of the member. */
  ghost function Report(t: Tree, base: Path, m: Member): Unpacked {
    if !Named(m) then Ignored else if Own(base, m) in t then Skipped else Extracted(|m.data|)
  }

  /** Unpacking a member succeeds exactly when it can be done, and then it is done. */
  lemma ExtractMemberDoes(s: State, base: Path, m: Member, remaining: nat)
    requires WellFormed(s) && IsDirAt(s.tree, base)
    ensures var (s', r) := ExtractMember(s, base, m, remaining);
      && (r.Success? <==> CanUnpack(s.tree, base, m, remaining))
      && (r.Success? ==>
            && IsUnpacked(s.tree, base, m, s'.tree)
            && r.value == Report(s.tree, base, m))
  {
    hide WellFormed, EnsureDirs, MemberNameOk, DirectoryOk, FileName, Split, Significant, IsName, IsUnpacked, CanUnpack,
      AllNames;
    if Named(m) {
      var p := Segments(m);
      MemberSegmentsAreNames(m);
      NamesInFront(p);
      FoldersAreThere(s, base, m);
      NamedMember(s, base, m, remaining);
    } else {
      Unnamed(s.tree, base, m, remaining);
    }
  }

  lemma NamesInFront(p: Path)
    requires AllNames(p) && |p| > 0
    ensures AllNames(Parent(p))
  {
  }

  lemma Unnamed(t: Tree, base: Path, m: Member, remaining: nat)
    requires !Named(m)
    ensures IsUnpacked(t, base, m, t)
    ensures CanUnpack(t, base, m, remaining) <==> MemberNameOk(m.name)
  {
  }

  /** The cases of `ExtractMember` for a member with a file name. */
  lemma NamedMember(s: State, base: Path, m: Member, remaining: nat)
    requires Named(m) && FoldersDone(s, base, m)
    ensures var (s', r) := ExtractMember(s, base, m, remaining);
      && (r.Success? <==> CanUnpack(s.tree, base, m, remaining))
      && (r.Success? ==> IsUnpacked(s.tree, base, m, s'.tree) && r.value == Report(s.tree, base, m))
  {
    hide EnsureDirs, MemberNameOk, DirectoryOk, FileName, Split, Significant, Strip, WayIsFree, Above;
    var (s1, o) := EnsureDirs(s, base, Parent(Segments(m)));
    FileNameIsStripped(Base(Segments(m)));
    NotAbove(base, m);
  }

  lemma NotAbove(base: Path, m: Member)
    requires Named(m)
    ensures !Above(Own(base, m), base, m) && !Above(Place(base, m), base, m)
  {
  }

  /** What making the member's folders does. */
  ghost predicate FoldersDone(s: State, base: Path, m: Member)
    requires Named(m)
  {
    var (s1, o) := EnsureDirs(s, base, Parent(Segments(m)));
    && (o.Pass? <==> WayIsFree(s.tree, base, m))
    && (forall q :: q in s.tree ==> q in s1.tree && s1.tree[q] == s.tree[q])
    && (forall q :: q in s1.tree && q !in s.tree ==> Above(q, base, m) && s1.tree[q].Dir?)
    && (o.Pass? ==> forall q :: Above(q, base, m) ==> q in s1.tree && s1.tree[q].Dir?)
  }

  lemma FoldersAreThere(s: State, base: Path, m: Member)
    requires WellFormed(s) && IsDirAt(s.tree, base) && Named(m) && AllNames(Parent(Segments(m)))
    ensures FoldersDone(s, base, m)
  {
    hide WellFormed, EnsureDirs, MemberNameOk, AllNames, Significant, Split;
    var p := Parent(Segments(m));
    var (s1, o) := EnsureDirs(s, base, p);
    EnsureDirsPassIff(s, base, p);
    WayIsFreeIff(s.tree, base, m);
    forall q
      ensures q in s.tree ==> q in s1.tree && s1.tree[q] == s.tree[q]
      ensures q in s1.tree && q !in s.tree ==> Above(q, base, m) && s1.tree[q].Dir?
      ensures o.Pass? && Above(q, base, m) ==> q in s1.tree
    {
      EnsureDirsAdds(s, base, p, q);
      if q in s.tree {
        EnsureDirsKeeps(s, base, p, q);
      }
    }
    forall q | o.Pass? && Above(q, base, m)
      ensures s1.tree[q].Dir?
    {
      assert !IsFileAt(s.tree, q);
    }
  }

  lemma WayIsFreeIff(t: Tree, base: Path, m: Member)
    requires IsDirAt(t, base) && Named(m)
    ensures WayIsFree(t, base, m) <==> NoFileInTheWay(t, base, Parent(Segments(m)))
  {
    hide MemberNameOk, Significant, Split;
    var p := Parent(Segments(m));
    assert base + p[..0] == base;
    if WayIsFree(t, base, m) {
      forall k | 0 <= k <= |p| && base + p[..k] in t
        ensures t[base + p[..k]].Dir?
      {
        if k > 0 {
          assert Above(base + p[..k], base, m);
        }
      }
    }
    if NoFileInTheWay(t, base, p) {
      forall q | Above(q, base, m)
        ensures !IsFileAt(t, q)
      {
        assert q == base + p[..|q| - |base|];
      }
    }
  }

  // ---------------------------------------------------------------- all members

  /** The member whose place this is. */
  predicate IsPlace(q: Path, base: Path, m: Member) {
    Named(m) && q == Place(base, m)
  }

  /** After the first `n` members a file is here: it was, or a member has been written to this place. */
  ghost predicate FileThere(t: Tree, base: Path, members: seq<Member>, n: nat, q: Path)
    requires n <= |members|
    decreases n, 0
  {
    IsFileAt(t, q) || exists k :: 0 <= k < n && Fresh(t, base, members, k) && IsPlace(q, base, members[k])
  }

  /** After the first `n` members a directory is here: it was, or a member needed it. */
  ghost predicate FolderThere(t: Tree, base: Path, members: seq<Member>, n: nat, q: Path)
    requires n <= |members|
  {
    IsDirAt(t, q) || exists k :: 0 <= k < n && Above(q, base, members[k])
  }

  /** Nothing is under this member's own name when it is its turn. */
  ghost predicate Fresh(t: Tree, base: Path, members: seq<Member>, k: nat)
    requires k < |members|
    decreases k, 1
  {
    && Named(members[k])
    && !FileThere(t, base, members, k, Own(base, members[k]))
    && !FolderThere(t, base, members, k, Own(base, members[k]))
  }

  ghost function FreshCount(t: Tree, base: Path, members: seq<Member>, n: nat): nat
    requires n <= |members|
  {
    if n == 0 then 0 else FreshCount(t, base, members, n - 1) + if Fresh(t, base, members, n - 1) then 1 else 0
  }

  ghost function NamedCount(members: seq<Member>, n: nat): nat
    requires n <= |members|
  {
    if n == 0 then 0 else NamedCount(members, n - 1) + if Named(members[n - 1]) then 1 else 0
  }

  ghost function FreshBytes(t: Tree, base: Path, members: seq<Member>, n: nat): nat
    requires n <= |members|
  {
    if n == 0 then 0
    else FreshBytes(t, base, members, n - 1) + if Fresh(t, base, members, n - 1) then |members[n - 1].data| else 0
  }

  /** The member can be unpacked when it is its turn. */
  ghost predicate Fits(t: Tree, base: Path, members: seq<Member>, n: nat)
    requires n < |members|
  {
    var m := members[n];
    MemberNameOk(m.name)
    && (Named(m) ==>
          && (forall q :: Above(q, base, m) ==> !FileThere(t, base, members, n, q))
          && DirectoryOk(Folder(base, m))
          && (Fresh(t, base, members, n) ==>
                && FreshBytes(t, base, members, n) + |m.data| <= MAX_UNZIP_TOTAL_BYTES
                && FileName(Base(Segments(m))).Success? && !FolderThere(t, base, members, n, Place(base, m))))
  }

  /** Of the first `n` members this is the last written to its place. */
  ghost predicate IsLast(t: Tree, base: Path, members: seq<Member>, n: nat, k: nat)
    requires k < n <= |members|
  {
    && Fresh(t, base, members, k)
    && forall j :: k < j < n && Fresh(t, base, members, j) ==> !IsPlace(Place(base, members[k]), base, members[j])
  }

  /** The tree after the first `n` members: files and directories where they should be, the last member written to a place
      in it, and every other entry as it was. */
  ghost predicate Holding(t: Tree, base: Path, members: seq<Member>, n: nat, t': Tree)
    requires n <= |members|
  {
    && (forall q :: IsFileAt(t', q) <==> FileThere(t, base, members, n, q))
    && (forall q :: IsDirAt(t', q) <==> FolderThere(t, base, members, n, q))
    && (forall k :: 0 <= k < n && IsLast(t, base, members, n, k) ==> HasData(t', base, members[k]))
    && (forall q :: q in t && !WrittenTo(t, base, members, n, q) ==> q in t' && t'[q] == t[q])
  }

  ghost predicate WrittenTo(t: Tree, base: Path, members: seq<Member>, n: nat, q: Path)
    requires n <= |members|
  {
    exists k :: 0 <= k < n && Fresh(t, base, members, k) && IsPlace(q, base, members[k])
  }

  ghost predicate HasData(t: Tree, base: Path, m: Member) {
    Named(m) && IsFileAt(t, Place(base, m)) && t[Place(base, m)].bytes == m.data
  }

  lemma NothingDone(t: Tree, base: Path, members: seq<Member>)
    ensures Holding(t, base, members, 0, t)
    ensures FreshCount(t, base, members, 0) == NamedCount(members, 0) == FreshBytes(t, base, members, 0) == 0
  {
  }

  lemma TurnIs(t: Tree, base: Path, members: seq<Member>, n: nat, t1: Tree)
    requires n < |members| && Holding(t, base, members, n, t1)
    ensures Named(members[n]) ==> (Fresh(t, base, members, n) <==> Own(base, members[n]) !in t1)
    ensures Fits(t, base, members, n)
       <==> CanUnpack(t1, base, members[n], MAX_UNZIP_TOTAL_BYTES - FreshBytes(t, base, members, n))
  {
    hide Named, MemberNameOk, DirectoryOk, FileName, FileThere, FolderThere, FreshBytes, Above, Segments, Strip;
    var m := members[n];
    if Named(m) {
      var own := Own(base, m);
      assert own in t1 <==> IsFileAt(t1, own) || IsDirAt(t1, own);
    }
  }

  lemma CountsGrow(t: Tree, base: Path, members: seq<Member>, n: nat, t1: Tree)
    requires n < |members| && Holding(t, base, members, n, t1)
    ensures var u := Report(t1, base, members[n]);
      && FreshCount(t, base, members, n + 1) == FreshCount(t, base, members, n) + (if u.Extracted? then 1 else 0)
      && NamedCount(members, n + 1) == NamedCount(members, n) + (if u.Ignored? then 0 else 1)
      && FreshBytes(t, base, members, n + 1) == FreshBytes(t, base, members, n) + (if u.Extracted? then u.size else 0)
  {
    hide Holding, Named;
    TurnIs(t, base, members, n, t1);
    if !Named(members[n]) {
      NotFresh(t, base, members, n);
    }
  }

  lemma NotFresh(t: Tree, base: Path, members: seq<Member>, n: nat)
    requires n < |members| && !Named(members[n])
    ensures !Fresh(t, base, members, n)
  {
  }

  lemma OneMore(t: Tree, base: Path, members: seq<Member>, n: nat, q: Path)
    requires n < |members|
    ensures FileThere(t, base, members, n + 1, q)
       <==> FileThere(t, base, members, n, q) || (Fresh(t, base, members, n) && IsPlace(q, base, members[n]))
    ensures FolderThere(t, base, members, n + 1, q) <==> FolderThere(t, base, members, n, q) || Above(q, base, members[n])
    ensures WrittenTo(t, base, members, n + 1, q)
       <==> WrittenTo(t, base, members, n, q) || (Fresh(t, base, members, n) && IsPlace(q, base, members[n]))
  {
    hide IsPlace, Fresh, Above, IsFileAt, IsDirAt;
  }

  lemma TurnDone(t: Tree, base: Path, members: seq<Member>, n: nat, t1: Tree, t2: Tree)
    requires n < |members| && Holding(t, base, members, n, t1) && IsUnpacked(t1, base, members[n], t2)
    ensures Holding(t, base, members, n + 1, t2)
  {
    hide Named, FileThere, FolderThere, WrittenTo, Above, Place, Own, Fresh;
    TurnIs(t, base, members, n, t1);
    forall q
      ensures IsFileAt(t2, q) <==> FileThere(t, base, members, n + 1, q)
      ensures IsDirAt(t2, q) <==> FolderThere(t, base, members, n + 1, q)
      ensures q in t && !WrittenTo(t, base, members, n + 1, q) ==> q in t2 && t2[q] == t[q]
    {
      OneMore(t, base, members, n, q);
    }
    forall k | 0 <= k < n + 1 && IsLast(t, base, members, n + 1, k)
      ensures HasData(t2, base, members[k])
    {
      StillLast(t, base, members, n, k);
    }
  }

  lemma StillLast(t: Tree, base: Path, members: seq<Member>, n: nat, k: nat)
    requires k <= n < |members| && IsLast(t, base, members, n + 1, k)
    ensures Named(members[k])
    ensures k < n ==> IsLast(t, base, members, n, k)
    ensures k < n && Fresh(t, base, members, n) ==> !IsPlace(Place(base, members[k]), base, members[n])
  {
    hide Named, Place, FileThere, FolderThere, IsPlace;
  }

  /** The bytes unpacked by the end of the loop over these members, or up to the one that fails. */
  ghost function TotalAfter(s: State, base: Path, members: seq<Member>, total: nat): (r: nat)
    requires total <= MAX_UNZIP_TOTAL_BYTES
    ensures r <= MAX_UNZIP_TOTAL_BYTES
    decreases |members|
  {
    if |members| == 0 then total else
    var (s1, r) := ExtractMember(s, base, members[0], MAX_UNZIP_TOTAL_BYTES - total);
    if r.Failure? then total else TotalAfter(s1, base, members[1..], Counted(total, r))
  }

  function Tally(done: Summary, one: Unpacked): Summary {
    match one
    case Extracted(_) => done.(extracted := done.extracted + 1)
    case Skipped => done.(skipped := done.skipped + 1)
    case Ignored => done
  }

  /** The loop over one member more. */
  lemma {:induction false} LoopOnce(s: State, base: Path, a: seq<Member>, m: Member, total: nat, done: Summary)
    requires total <= MAX_UNZIP_TOTAL_BYTES
    ensures var (s1, r1) := ExtractMembers(s, base, a, total, done);
      var (s2, r2) := ExtractMembers(s, base, a + [m], total, done);
      var n := TotalAfter(s, base, a, total);
      && (r1.Failure? ==> r2.Failure?)
      && (r1.Success? ==>
            var (s3, r3) := ExtractMember(s1, base, m, MAX_UNZIP_TOTAL_BYTES - n);
            && s2 == s3 && (r2.Success? <==> r3.Success?)
            && (r3.Success? ==>
                  r2.value == Tally(r1.value, r3.value) && TotalAfter(s, base, a + [m], total) == Counted(n, r3)))
    decreases |a|
  {
    hide ExtractMember;
    if |a| == 0 {
      assert a + [m] == [m];
    } else {
      var (s1, r) := ExtractMember(s, base, a[0], MAX_UNZIP_TOTAL_BYTES - total);
      assert (a + [m])[0] == a[0] && (a + [m])[1..] == a[1..] + [m];
      if r.Success? {
        LoopOnce(s1, base, a[1..], m, Counted(total, r), Tally(done, r.value));
      }
    }
  }

  lemma NoLoop(s: State, base: Path, members: seq<Member>)
    ensures ExtractMembers(s, base, members[..0], 0, Summary(0, 0)) == (s, Success(Summary(0, 0)))
    ensures TotalAfter(s, base, members[..0], 0) == 0
  {
  }

  /** The loop over the first `n` members succeeds exactly when each of them fits, and then the tree and both counts are
      what the members make them. */
  lemma {:induction false} UnpackedSoFar(s: State, base: Path, members: seq<Member>, n: nat)
    requires WellFormed(s) && IsDirAt(s.tree, base) && n <= |members|
    ensures var (s', r) := ExtractMembers(s, base, members[..n], 0, Summary(0, 0));
      && (r.Success? <==> forall k :: 0 <= k < n ==> Fits(s.tree, base, members, k))
      && (r.Success? ==>
            && WellFormed(s') && IsDirAt(s'.tree, base)
            && Holding(s.tree, base, members, n, s'.tree)
            && r.value.extracted == FreshCount(s.tree, base, members, n)
            && r.value.extracted + r.value.skipped == NamedCount(members, n)
            && TotalAfter(s, base, members[..n], 0) == FreshBytes(s.tree, base, members, n))
    decreases n
  {
    hide WellFormed, ExtractMember, ExtractMembers, TotalAfter, Holding, Fits, IsUnpacked, CanUnpack, Report, FreshCount,
      NamedCount, FreshBytes, Extends, Conserves, Clobbers;
    if n == 0 {
      NothingDone(s.tree, base, members);
      NoLoop(s, base, members);
    } else {
      var m, before := members[n - 1], members[..n - 1];
      assert members[..n] == before + [m];
      UnpackedSoFar(s, base, members, n - 1);
      LoopOnce(s, base, before, m, 0, Summary(0, 0));
      var (s1, r1) := ExtractMembers(s, base, before, 0, Summary(0, 0));
      if r1.Success? {
        var remaining := MAX_UNZIP_TOTAL_BYTES - TotalAfter(s, base, before, 0);
        ExtractMemberDoes(s1, base, m, remaining);
        ExtractMemberKeepsIff(s1, base, m, remaining);
        BaseSurvives(s1, base, m, remaining);
        TurnIs(s.tree, base, members, n - 1, s1.tree);
        CountsGrow(s.tree, base, members, n - 1, s1.tree);
        if CanUnpack(s1.tree, base, m, remaining) {
          TurnDone(s.tree, base, members, n - 1, s1.tree, ExtractMember(s1, base, m, remaining).0.tree);
        }
      }
    }
  }

  // ---------------------------------------------------------------- the archive

  /** Unpacking succeeds exactly when the path is an archive's, there are not too many members and each of them fits; then
      the tree holds the members as said above, and the report counts those written and those left alone. */
  lemma ExtractIff(s: State, path: string, unzip: ByteString -> Option<seq<Member>>)
    requires WellFormed(s)
    ensures var (s', r) := Extract(s, path, unzip);
      && (r.Success?
          <==> && ParsePath(path).Success?
               && var p := ParsePath(path).value;
               && p != [] && IsFileAt(s.tree, p) && unzip(s.tree[p].bytes).Some?
               && var members := unzip(s.tree[p].bytes).value;
               && |members| <= 2000 && forall k :: 0 <= k < |members| ==> Fits(s.tree, Parent(p), members, k))
      && (r.Success? ==>
            var p := ParsePath(path).value;
            var members := unzip(s.tree[p].bytes).value;
            && Holding(s.tree, Parent(p), members, |members|, s'.tree)
            && r.value.extracted == FreshCount(s.tree, Parent(p), members, |members|)
            && r.value.extracted + r.value.skipped == NamedCount(members, |members|))
  {
    hide WellFormed, ExtractMembers, Holding, Fits, ParsePath, FreshCount, NamedCount, TotalAfter, FreshBytes;
    if ParsePath(path).Success? && ParsePath(path).value != [] && IsFileAt(s.tree, ParsePath(path).value) {
      var p := ParsePath(path).value;
      AboveIsDir(s, p);
      var listed := unzip(s.tree[p].bytes);
      if listed.Some? {
        assert listed.value[..|listed.value|] == listed.value;
        UnpackedSoFar(s, Parent(p), listed.value, |listed.value|);
      }
    }
  }

  /** Nothing is in the tree under the member's name, and no earlier member is there or in a folder of that name. */
  ghost predicate IsNew(t: Tree, base: Path, members: seq<Member>, k: nat)
    requires k < |members|
  {
    && Named(members[k]) && Own(base, members[k]) !in t
    && forall j :: 0 <= j < k && Named(members[j]) ==> !(Own(base, members[k]) <= Own(base, members[j]))
  }

  lemma PlaceOfTrimmed(base: Path, m: Member)
    requires Trimmed(m) && Named(m)
    ensures Place(base, m) == Own(base, m)
  {
  }

  /** With no white space at the ends of the names, the members that find nothing are those that are new. */
  lemma FreshIffNew(t: Tree, base: Path, members: seq<Member>, k: nat)
    requires k < |members| && forall m :: m in members ==> Trimmed(m)
    ensures Fresh(t, base, members, k) <==> IsNew(t, base, members, k)
    decreases k
  {
    hide MemberNameOk, Segments, Trimmed;
    if Named(members[k]) {
      var own := Own(base, members[k]);
      assert own in t <==> IsFileAt(t, own) || IsDirAt(t, own);
      forall j | 0 <= j < k
        ensures Fresh(t, base, members, j) ==> Named(members[j]) && Place(base, members[j]) == Own(base, members[j])
        ensures Named(members[j]) && own <= Own(base, members[j]) ==> !Fresh(t, base, members, k)
      {
        EarlierIsThere(t, base, members, j, k);
      }
    }
  }

  lemma StillThere(t: Tree, base: Path, members: seq<Member>, j: nat, k: nat, q: Path)
    requires j <= k <= |members|
    ensures FileThere(t, base, members, j, q) ==> FileThere(t, base, members, k, q)
    ensures FolderThere(t, base, members, j, q) ==> FolderThere(t, base, members, k, q)
  {
    hide IsPlace, Fresh, Above;
  }

  lemma EarlierIsThere(t: Tree, base: Path, members: seq<Member>, j: nat, k: nat)
    requires j < k < |members| && Named(members[k]) && forall m :: m in members ==> Trimmed(m)
    ensures Fresh(t, base, members, j) ==> Named(members[j]) && Place(base, members[j]) == Own(base, members[j])
    ensures Named(members[j]) && Own(base, members[k]) <= Own(base, members[j]) ==> !Fresh(t, base, members, k)
  {
    hide MemberNameOk, Segments, Trimmed, IsFileAt, IsDirAt;
    var own := Own(base, members[k]);
    if Named(members[j]) {
      PlaceOfTrimmed(base, members[j]);
      if own <= Own(base, members[j]) {
        if own == Own(base, members[j]) {
          assert Fresh(t, base, members, j) ==> IsPlace(own, base, members[j]);
          StillThere(t, base, members, j, k, own);
        } else {
          assert Above(own, base, members[j]);
        }
      }
    }
  }

  /** So, with no white space at the ends of the names, each member that names a file is at its path afterwards: with its
      data when it was new, and as it was when the tree had it. */
  lemma MembersAreThere(s: State, path: string, unzip: ByteString -> Option<seq<Member>>, k: nat)
    requires WellFormed(s) && TrimmedArchives(unzip) && Extract(s, path, unzip).1.Success?
    requires var p := ParsePath(path).value;
      && ParsePath(path).Success? && p in s.tree && s.tree[p].File? && unzip(s.tree[p].bytes).Some?
      && k < |unzip(s.tree[p].bytes).value| && Named(unzip(s.tree[p].bytes).value[k])
    ensures var t := Extract(s, path, unzip).0.tree;
      var p := ParsePath(path).value;
      var members := unzip(s.tree[p].bytes).value;
      && p != []
      && var own := Own(Parent(p), members[k]);
      && own in t
      && (IsNew(s.tree, Parent(p), members, k) ==> t[own].File? && t[own].bytes == members[k].data)
      && (own in s.tree ==> t[own] == s.tree[own])
  {
    hide WellFormed, Extract, Holding, Fits, ParsePath, FreshCount, NamedCount, TrimmedArchives, Named, Trimmed, IsNew, Own;
    ExtractIff(s, path, unzip);
    var p := ParsePath(path).value;
    var members := unzip(s.tree[p].bytes).value;
    AllTrimmed(unzip, s.tree[p].bytes);
    MemberIsThere(s.tree, Parent(p), members, Extract(s, path, unzip).0.tree, k);
  }

  lemma AllTrimmed(unzip: ByteString -> Option<seq<Member>>, b: ByteString)
    requires TrimmedArchives(unzip) && unzip(b).Some?
    ensures forall m :: m in unzip(b).value ==> Trimmed(m)
  {
    hide Trimmed;
  }

  lemma MemberIsThere(t: Tree, base: Path, members: seq<Member>, t': Tree, k: nat)
    requires Holding(t, base, members, |members|, t') && forall m :: m in members ==> Trimmed(m)
    requires k < |members| && Named(members[k])
    ensures var own := Own(base, members[k]);
      && own in t'
      && (IsNew(t, base, members, k) ==> t'[own].File? && t'[own].bytes == members[k].data)
      && (own in t ==> t'[own] == t[own])
  {
    hide Named, Trimmed, IsNew, Place, Own, IsFileAt, IsDirAt, FileThere, FolderThere, Above;
    var n, own := |members|, Own(base, members[k]);
    PlaceOfTrimmed(base, members[k]);
    FreshIffNew(t, base, members, k);
    WrittenOnce(t, base, members, k);
    if Fresh(t, base, members, k) {
      assert IsLast(t, base, members, n, k);
      assert HasData(t', base, members[k]);
      FileIsIn(t', own);
    } else {
      StillThere(t, base, members, k, n, own);
      FileIsIn(t', own);
    }
    NewIsAbsent(t, base, members, k);
  }

  lemma FileIsIn(t: Tree, q: Path)
    ensures IsFileAt(t, q) ==> q in t && t[q].File?
    ensures IsDirAt(t, q) ==> q in t
  {
  }

  lemma NewIsAbsent(t: Tree, base: Path, members: seq<Member>, k: nat)
    requires k < |members| && Named(members[k])
    ensures IsNew(t, base, members, k) ==> Own(base, members[k]) !in t
  {
  }

  /** A path that is in the tree, or has been written to, is not written to later. */
  lemma WrittenOnce(t: Tree, base: Path, members: seq<Member>, k: nat)
    requires k < |members| && Named(members[k]) && forall m :: m in members ==> Trimmed(m)
    ensures var own := Own(base, members[k]);
      && (own in t ==> !WrittenTo(t, base, members, |members|, own))
      && forall j :: k < j < |members| && Fresh(t, base, members, j) ==> !IsPlace(own, base, members[j])
  {
    hide Named, Trimmed, Own, Place;
    var own := Own(base, members[k]);
    forall j | 0 <= j < |members| && Fresh(t, base, members, j) && IsPlace(own, base, members[j])
      ensures own !in t && j <= k
    {
      FreshIffNew(t, base, members, j);
      PlaceOfTrimmed(base, members[j]);
    }
  }

  // ---------------------------------------------------------------- the names a caller may give

  /** A directory path can be given to the API exactly when it is not too deep, holds no NUL and its first name does not look
      like a drive. */
  lemma DirectoryOkIff(p: Path)
    requires AllNames(p)
    ensures DirectoryOk(p)
       <==> && |p| <= 16 && (forall name :: name in p ==> '\0' !in name) && (p != [] ==> !DriveLike(p[0]))
  {
    hide IsName, Split, Significant;
    SegmentsOfJoin(p);
    NoDots(p);
    JoinHas(p, '\0');
    if |p| > 0 {
      JoinStarts(p);
    }
  }

  lemma {:induction false} JoinHas(p: Path, c: char)
    requires c != '/'
    ensures c in Join(p) <==> exists name :: name in p && c in name
  {
    if |p| > 1 {
      JoinHas(p[1..], c);
      assert p == [p[0]] + p[1..];
    }
  }

  /** The name of a member is accepted exactly when it is a list of names joined by slashes, none of them empty or "..", with
      or without a slash behind it, without NUL and backslash, and does not look like a drive. */
  lemma MemberNameIff(name: string)
    ensures MemberNameOk(name)
       <==> && '\0' !in name && '\\' !in name && !DriveLike(name)
            && exists parts: Path :: IsJoined(name, parts)
  {
    if MemberNameOk(name) {
      var stripped := if name[|name| - 1] == '/' then name[..|name| - 1] else name;
      JoinOfSplit(stripped);
      assert name == stripped || name == stripped + "/";
      assert IsJoined(name, Split(stripped, '/'));
    }
    if parts: Path :| IsJoined(name, parts) {
      SplitJoin(parts);
      EndsOfJoin(parts);
      var whole := Join(parts);
      assert (whole + "/")[..|whole|] == whole;
    }
  }

  ghost predicate IsJoined(name: string, parts: Path) {
    && |parts| > 0 && (forall x :: x in parts ==> x != "" && x != ".." && '/' !in x)
    && (name == Join(parts) || name == Join(parts) + "/")
  }

  lemma {:induction false} EndsOfJoin(parts: Path)
    requires |parts| > 0 && forall x :: x in parts ==> x != "" && '/' !in x
    ensures var whole := Join(parts); |whole| > 0 && whole[0] != '/' && whole[|whole| - 1] != '/'
  {
    assert parts[0] in parts && parts[0][0] in parts[0] && parts[0][|parts[0]| - 1] in parts[0];
    if |parts| > 1 {
      assert forall x :: x in parts[1..] ==> x in parts;
      EndsOfJoin(parts[1..]);
    }
  }

  lemma {:induction false} JoinOfSplit(s: string)
    ensures Join(Split(s, '/')) == s
  {
    if |s| > 0 {
      JoinOfSplit(s[1..]);
      var rest := Split(s[1..], '/');
      assert s == [s[0]] + s[1..];
      if s[0] == '/' {
        assert ([""] + rest)[1..] == rest;
      } else {
        assert ([[s[0]] + rest[0]] + rest[1..])[1..] == rest[1..];
      }
    }
  }
}
