/** When each request succeeds, and what it then leaves where. */
module WorkspaceResults {
  import opened Bytes
  import opened Wrappers
  import opened Strings
  import opened Tree
  import opened WorkspaceOps
  import opened WorkspaceLaws
  import opened WorkspaceFindings

  // ---------------------------------------------------------------- making the folders of a path

  /** No file stands where the path needs a directory. */
  ghost predicate NoFileInTheWay(t: Tree, base: Path, segments: Path) {
    forall k :: 0 <= k <= |segments| && base + segments[..k] in t ==> t[base + segments[..k]].Dir?
  }

  lemma {:induction false} EnsureDirsPassIff(s: State, base: Path, segments: Path)
    requires WellFormed(s) && IsDirAt(s.tree, base) && AllNames(segments)
    ensures EnsureDirs(s, base, segments).1.Pass? <==> NoFileInTheWay(s.tree, base, segments)
    decreases |segments|
  {
    hide WellFormed, IsName;
    if |segments| == 0 {
      assert base + segments[..0] == base;
    } else {
      var p, rest := base + [segments[0]], segments[1..];
      assert Parent(p) == base && Base(p) == segments[0] && segments[0] in segments;
      assert AllNames(rest);
      WayThrough(s.tree, base, segments);
      if p !in s.tree {
        AddExtends(s, p, Dir(s.next));
        var s1 := Add(s, p, Dir(s.next));
        EnsureDirsPassIff(s1, p, rest);
        forall k | 0 <= k <= |rest| && p + rest[..k] in s.tree
          ensures false
        {
          NothingBelowAbsent(s, p, p + rest[..k]);
        }
        assert p + rest[..0] == p;
        forall k | 0 <= k <= |rest| && p + rest[..k] in s1.tree
          ensures s1.tree[p + rest[..k]].Dir?
        {
        }
      } else if s.tree[p].Dir? {
        EnsureDirsPassIff(s, p, rest);
      } else {
        assert p + rest[..0] == p;
      }
    }
  }

  lemma WayThrough(t: Tree, base: Path, segments: Path)
    requires |segments| > 0 && IsDirAt(t, base)
    ensures NoFileInTheWay(t, base, segments) <==> NoFileInTheWay(t, base + [segments[0]], segments[1..])
  {
    var p, rest := base + [segments[0]], segments[1..];
    forall k | 0 <= k <= |rest|
      ensures p + rest[..k] == base + segments[..k + 1]
    {
      assert segments[..k + 1] == [segments[0]] + rest[..k];
    }
    assert base + segments[..0] == base;
    if NoFileInTheWay(t, p, rest) {
      forall k | 0 <= k <= |segments| && base + segments[..k] in t
        ensures t[base + segments[..k]].Dir?
      {
        if k > 0 {
          assert p + rest[..k - 1] == base + segments[..k];
        }
      }
    }
  }

  /** What is there afterwards: what was there, and the directories of the path. */
  lemma {:induction false} EnsureDirsAdds(s: State, base: Path, segments: Path, q: Path)
    ensures var (s', o) := EnsureDirs(s, base, segments);
      && (q in s'.tree ==> q in s.tree || (base < q <= base + segments && s'.tree[q].Dir?))
      && (o.Pass? && base < q <= base + segments ==> q in s'.tree)
    decreases |segments|
  {
    if |segments| > 0 {
      var p, rest := base + [segments[0]], segments[1..];
      assert p + rest == base + segments;
      assert base < q <= base + segments ==> q == p || p < q by {
        if base < q <= base + segments {
          assert q[|base|] == (base + segments)[|base|];
          assert q[..|base| + 1] == p;
        }
      }
      if p !in s.tree {
        EnsureDirsAdds(Add(s, p, Dir(s.next)), p, rest, q);
        EnsureDirsKeeps(Add(s, p, Dir(s.next)), p, rest, p);
      } else if s.tree[p].Dir? {
        EnsureDirsAdds(s, p, rest, q);
        EnsureDirsKeeps(s, p, rest, p);
      }
    } else {
      assert base + segments == base;
    }
  }

  lemma {:induction false} EnsureDirsKeeps(s: State, base: Path, segments: Path, q: Path)
    requires q in s.tree
    ensures var s' := EnsureDirs(s, base, segments).0; q in s'.tree && s'.tree[q] == s.tree[q]
    decreases |segments|
  {
    if |segments| > 0 {
      var p, rest := base + [segments[0]], segments[1..];
      if p !in s.tree {
        EnsureDirsKeeps(Add(s, p, Dir(s.next)), p, rest, q);
      } else if s.tree[p].Dir? {
        EnsureDirsKeeps(s, p, rest, q);
      }
    }
  }

  // ---------------------------------------------------------------- creating

  /** The path a request to create something is about: its folders, and its name without white space at the ends. */
  function Asked(segments: Path): Path
    requires |segments| > 0
  {
    Parent(segments) + [Strip(Base(segments))]
  }

  lemma FileNameIsStripped(name: string)
    ensures FileName(name).Success? ==> FileName(name).value == Strip(name)
  {
  }

  lemma CreatesAt(s: State, segments: Path)
    requires WellFormed(s) && segments != [] && AllNames(segments)
    ensures var (s1, o) := EnsureDirs(s, [], Parent(segments));
      && (o.Pass? <==> NoFileInTheWay(s.tree, [], Parent(segments)))
      && (Asked(segments) in s1.tree <==> Asked(segments) in s.tree)
      && (Asked(segments) in s.tree ==> s1.tree[Asked(segments)] == s.tree[Asked(segments)])
  {
    hide WellFormed, IsName, Strip;
    RootIsDir(s);
    assert AllNames(Parent(segments));
    EnsureDirsPassIff(s, [], Parent(segments));
    EnsureDirsAdds(s, [], Parent(segments), Asked(segments));
    if Asked(segments) in s.tree {
      EnsureDirsKeeps(s, [], Parent(segments), Asked(segments));
    }
  }

  /** mkdir succeeds exactly when the path names something, no file is in the way, and nothing is there, or a directory that
      may be there; the answer is the path asked for, and a directory is there. */
  lemma MakeDirectoryIff(s: State, path: string, existOk: bool)
    requires WellFormed(s)
    ensures var (s', r) := MakeDirectory(s, path, existOk);
      && (r.Success?
          <==> && ParsePath(path).Success?
               && var p := ParsePath(path).value;
               && p != [] && FileName(Base(p)).Success? && NoFileInTheWay(s.tree, [], Parent(p))
               && (Asked(p) in s.tree ==> existOk && s.tree[Asked(p)].Dir?))
      && (r.Success? ==> r.value == Asked(ParsePath(path).value) && IsDirAt(s'.tree, r.value))
  {
    hide WellFormed, EnsureDirs, IsName, Strip, ParsePath, FileName, NoFileInTheWay;
    if ParsePath(path).Success? && ParsePath(path).value != [] {
      var p := ParsePath(path).value;
      CreatesAt(s, p);
      FileNameIsStripped(Base(p));
      if FileName(Base(p)).Success? {
        assert Parent(p) + [FileName(Base(p)).value] == Asked(p);
        assert NoFileInTheWay(s.tree, [], Parent(p)) <==> EnsureDirs(s, [], Parent(p)).1.Pass?;
      }
    }
  }

  /** touch succeeds exactly when the content is small enough, the path names something, no file is in the way and nothing is
      there; the answer is the path asked for, and it holds the content. */
  lemma TouchIff(s: State, path: string, content: ByteString)
    requires WellFormed(s)
    ensures var (s', r) := Touch(s, path, content);
      && (r.Success?
          <==> && |content| <= 1_048_576 && ParsePath(path).Success?
               && var p := ParsePath(path).value;
               && p != [] && FileName(Base(p)).Success? && NoFileInTheWay(s.tree, [], Parent(p)) && Asked(p) !in s.tree)
      && (r.Success? ==>
            r.value == Asked(ParsePath(path).value) && r.value in s'.tree && s'.tree[r.value].File?
            && s'.tree[r.value].bytes == content)
  {
    hide WellFormed, EnsureDirs, IsName, Strip, ParsePath, FileName, NoFileInTheWay;
    if ParsePath(path).Success? && ParsePath(path).value != [] {
      var p := ParsePath(path).value;
      CreatesAt(s, p);
      FileNameIsStripped(Base(p));
      if FileName(Base(p)).Success? {
        assert Parent(p) + [FileName(Base(p)).value] == Asked(p);
        assert NoFileInTheWay(s.tree, [], Parent(p)) <==> EnsureDirs(s, [], Parent(p)).1.Pass?;
      }
    }
  }

  // ---------------------------------------------------------------- renaming, moving, deleting

  /** rename succeeds exactly when the path is an unprotected entry below the root and the new name is one, and free in the
      same directory; then the entry, with all below it, is there and no more where it was. */
  lemma RenameIff(s: State, path: string, newName: string)
    requires WellFormed(s)
    ensures var (s', r) := Rename(s, path, newName);
      && (r.Success?
          <==> && ParsePath(path).Success? && FileName(newName).Success?
               && var from := ParsePath(path).value;
               && from != [] && !IsProtected(from) && from in s.tree && Parent(from) + [Strip(newName)] !in s.tree)
      && (r.Failure? ==> s' == s)
      && (r.Success? ==>
            r.value == Parent(ParsePath(path).value) + [Strip(newName)] && IsMoved(s.tree, s'.tree, ParsePath(path).value, r.value))
  {
    hide WellFormed, IsName, Strip, ParsePath, IsProtected, RelocateState, IsMoved;
    if ParsePath(path).Success? && ParsePath(path).value != [] && FileName(newName).Success? {
      var from := ParsePath(path).value;
      var to := Parent(from) + [Strip(newName)];
      assert Parent(to) == Parent(from) && Base(to) == Strip(newName);
      if from in s.tree {
        AboveIsDir(s, from);
        if to !in s.tree {
          SiblingsAreApart(to, from);
          MovesThere(s, from, to);
        }
      }
    }
  }

  /** Everything at or below the one path is at or below the other instead, and all else is where it was. */
  ghost predicate IsMoved(t: Tree, t': Tree, from: Path, to: Path) {
    && (forall p :: p in t && from <= p ==> p !in t' && to + p[|from|..] in t' && t'[to + p[|from|..]] == t[p])
    && (forall p :: p in t && !(from <= p) ==> p in t' && t'[p] == t[p])
    && (forall p :: p in t' ==> (to <= p && from + p[|to|..] in t) || (p in t && !(from <= p)))
  }

  lemma AboveIsDir(s: State, p: Path)
    requires WellFormed(s) && p in s.tree && |p| > 0
    ensures IsDirAt(s.tree, Parent(p)) && IsName(Base(p))
  {
  }

  lemma MovesThere(s: State, from: Path, to: Path)
    requires CanRelocate(s, from, to)
    ensures IsMoved(s.tree, RelocateState(s, from, to).tree, from, to)
  {
    hide CanRelocate, RelocateState;
    var t' := RelocateState(s, from, to).tree;
    forall p | p in s.tree
      ensures Moved(p, from, to) in t' && t'[Moved(p, from, to)] == s.tree[p] && (from <= p ==> p !in t')
    {
      RelocateAt(s, from, to, p);
      if from <= p {
        GoneFrom(s, from, to, p);
      }
    }
    forall q | q in t'
      ensures (to <= q && from + q[|to|..] in s.tree) || (q in s.tree && !(from <= q))
    {
      RelocatedFrom(s, from, to, q);
      if q in s.tree && from <= q {
        GoneFrom(s, from, to, q);
      }
    }
  }

  lemma GoneFrom(s: State, from: Path, to: Path, p: Path)
    requires CanRelocate(s, from, to) && p in s.tree && from <= p
    ensures p !in RelocateState(s, from, to).tree
  {
    hide WellFormed, RelocateState, IsName;
    if p in RelocateState(s, from, to).tree {
      RelocatedFrom(s, from, to, p);
      if to <= p {
        NothingBelowAbsent(s, to, p);
      }
    }
  }

  /** move succeeds exactly when the path is an unprotected entry below the root, the destination an unprotected directory
      outside it, and the name is free there; then the entry, with all below it, is there and no more where it was. */
  lemma MoveIff(s: State, path: string, destination: string)
    requires WellFormed(s)
    ensures var (s', r) := Move(s, path, destination);
      && (r.Success?
          <==> && ParsePath(path).Success? && ParsePath(destination).Success?
               && var from, into := ParsePath(path).value, ParsePath(destination).value;
               && from != [] && !IsProtected(from) && from in s.tree
               && !IsProtected(into) && IsDirAt(s.tree, into) && !(from <= into) && into + [Base(from)] !in s.tree)
      && (r.Failure? ==> s' == s)
      && (r.Success? ==>
            r.value == ParsePath(destination).value + [Base(ParsePath(path).value)]
            && IsMoved(s.tree, s'.tree, ParsePath(path).value, r.value))
  {
    hide WellFormed, IsName, ParsePath, IsProtected, RelocateState, IsMoved;
    ParsedOnce(destination);
    if ParsePath(path).Success? && ParsePath(path).value != [] && ParsePath(destination).Success? {
      var from, into := ParsePath(path).value, ParsePath(destination).value;
      var to := into + [Base(from)];
      assert Parent(to) == into && Base(to) == Base(from) && Base(from) in from;
      if from in s.tree && to !in s.tree {
        AboveIsDir(s, from);
        assert from <= to <==> from <= into by {
          if from <= to { assert from != to; }
        }
        if IsDirAt(s.tree, into) && !(from <= into) {
          MovesThere(s, from, to);
        }
      }
    }
  }

  lemma ParsedOnce(path: string)
    ensures ParsePath(path).Success? ==> ParseOnce(path).Success?
  {
  }

  /** The bin has no entry under the name tried with this counter. */
  ghost predicate FreeInBin(t: Tree, stamp: nat, name: string, counter: nat) {
    [TRASH, TrashCandidate(stamp, counter, name)] !in t
  }

  lemma {:induction false} FirstFreeIsTaken(t: Tree, stamp: nat, name: string, counter: nat)
    ensures var r := FreeTrashName(t, stamp, name, counter);
      && (r.Some? <==> exists k :: counter <= k <= MAX_TRASH_COUNTER && FreeInBin(t, stamp, name, k))
      && forall k :: counter <= k <= MAX_TRASH_COUNTER && FreeInBin(t, stamp, name, k)
                     && (forall j :: counter <= j < k ==> !FreeInBin(t, stamp, name, j))
                     ==> r == Some(TrashCandidate(stamp, k, name))
    decreases MAX_TRASH_COUNTER + 1 - counter
  {
    hide TrashCandidate, TRASH;
    if counter <= MAX_TRASH_COUNTER && !FreeInBin(t, stamp, name, counter) {
      FirstFreeIsTaken(t, stamp, name, counter + 1);
    }
  }

  /** delete succeeds exactly when the path is an unprotected entry below the root, no file is where the bin should be, and
      one of the 1001 names tried is free there; then the entry, with all below it, is in the bin under the first of them. */
  lemma DeleteIff(s: State, path: string, stamp: nat)
    requires WellFormed(s)
    ensures var (s', r) := Delete(s, path, stamp);
      && (r.Success?
          <==> && ParsePath(path).Success?
               && var from := ParsePath(path).value;
               && from != [] && !IsProtected(from) && from in s.tree
               && ([TRASH] in s.tree ==> s.tree[[TRASH]].Dir?)
               && exists k :: 0 <= k <= 1000 && FreeInBin(s.tree, stamp, Base(from), k))
      && (r.Success? ==>
            var from := ParsePath(path).value;
            && IsMoved(EnsureTrash(s).0.tree, s'.tree, from, r.value)
            && forall k :: 0 <= k <= 1000 && FreeInBin(s.tree, stamp, Base(from), k)
                           && (forall j :: 0 <= j < k ==> !FreeInBin(s.tree, stamp, Base(from), j))
                           ==> r.value == [TRASH, TrashCandidate(stamp, k, Base(from))])
  {
    hide WellFormed, IsName, ParsePath, IsProtected, RelocateState, IsMoved, EnsureTrash, FreeTrashName, Extends;
    if ParsePath(path).Success? && ParsePath(path).value != [] && !IsProtected(ParsePath(path).value)
       && ParsePath(path).value in s.tree {
      var from := ParsePath(path).value;
      AboveIsDir(s, from);
      var (s1, o) := EnsureTrash(s);
      EnsureTrashExtends(s);
      ExtendsAt(s, s1, from);
      BinIsThere(s);
      forall k: nat
        ensures FreeInBin(s1.tree, stamp, Base(from), k) <==> FreeInBin(s.tree, stamp, Base(from), k)
      {
        hide TrashCandidate;
      }
      FirstFreeIsTaken(s1.tree, stamp, Base(from), 0);
      if o.Pass? && FreeTrashName(s1.tree, stamp, Base(from), 0).Some? {
        IntoTheBin(s1, from, stamp);
      }
    }
  }

  lemma BinIsThere(s: State)
    ensures var (s1, o) := EnsureTrash(s);
      && (o.Pass? <==> ([TRASH] in s.tree ==> s.tree[[TRASH]].Dir?))
      && forall p :: |p| != 1 ==> (p in s1.tree <==> p in s.tree)
  {
  }

  lemma OutsideTheBin(from: Path, name: string)
    requires |from| > 0 && !IsProtected(from) && from != [TRASH, name]
    ensures !(from <= [TRASH, name])
  {
    assert from <= [TRASH, name] && |from| == 1 ==> from == [TRASH];
  }

  lemma IntoTheBin(s: State, from: Path, stamp: nat)
    requires WellFormed(s) && IsDirAt(s.tree, [TRASH]) && |from| > 0 && from in s.tree && !IsProtected(from)
    requires FreeTrashName(s.tree, stamp, Base(from), 0).Some?
    ensures var to := [TRASH, FreeTrashName(s.tree, stamp, Base(from), 0).value];
      && CanRelocate(s, from, to) && IsMoved(s.tree, RelocateState(s, from, to).tree, from, to)
  {
    hide WellFormed, IsName, RelocateState, IsMoved, IsProtected, TRASH, TrashCandidate;
    var name := FreeTrashName(s.tree, stamp, Base(from), 0).value;
    var k :| name == TrashCandidate(stamp, k, Base(from));
    AboveIsDir(s, from);
    TrashCandidateIsName(stamp, k, Base(from));
    var to := [TRASH, name];
    assert Parent(to) == [TRASH] && Base(to) == name;
    OutsideTheBin(from, name);
    MovesThere(s, from, to);
  }
}
