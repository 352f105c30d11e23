/** Paths survive normalisation, a rename can be undone, and where two promises of the code end. */
module WorkspaceFindings {
  import opened Wrappers
  import opened Strings
  import opened Tree
  import opened WorkspaceOps
  import opened WorkspaceLaws

  // ---------------------------------------------------------------- normalised paths

  lemma SplitPart(a: string, rest: string, sep: char)
    requires sep !in a
    ensures Split(a, sep) == [a]
    ensures Split(a + [sep] + rest, sep) == [a] + Split(rest, sep)
  {
    SplitWhole(a, sep);
    SplitConcat(a, rest, sep);
  }

  lemma {:induction false} SplitJoin(p: Path)
    requires |p| > 0 && forall name :: name in p ==> '/' !in name
    ensures Split(Join(p), '/') == p
  {
    if |p| == 1 {
      SplitPart(p[0], "", '/');
    } else {
      SplitPart(p[0], Join(p[1..]), '/');
      SplitJoin(p[1..]);
      assert p == [p[0]] + p[1..];
    }
  }

  lemma {:induction false} SignificantNames(p: Path)
    requires AllNames(p)
    ensures Significant(p) == p
  {
    if |p| > 0 {
      assert p[0] in p;
      SignificantNames(p[1..]);
      assert p == [p[0]] + p[1..];
    }
  }

  /** Splitting what was joined from proper names gives the names back. */
  lemma SegmentsOfJoin(p: Path)
    requires AllNames(p)
    ensures Significant(Split(Join(p), '/')) == p
  {
    if |p| > 0 {
      SplitJoin(p);
      SignificantNames(p);
    }
  }

  /** The normal form is stable: a path that parsed parses again, joined, to the same segments. */
  lemma ParseIsStable(path: string)
    requires ParsePath(path).Success?
    ensures ParsePath(Join(ParsePath(path).value)) == ParsePath(path)
  {
    var p := ParseOnce(path).value;
    SegmentsOfJoin(p);
    assert ParsePath(path).value == p;
  }

  lemma {:induction false} JoinAvoids(p: Path, c: char)
    requires c != '/' && forall name :: name in p ==> c !in name
    ensures c !in Join(p)
  {
    if |p| > 1 {
      JoinAvoids(p[1..], c);
    }
  }

  /** What was joined from proper names starts with the first of them, so it looks like a drive exactly when that does. */
  lemma JoinStarts(p: Path)
    requires AllNames(p) && |p| > 0
    ensures |p[0]| > 0 && |Join(p)| > 0 && Join(p)[0] == p[0][0] != '/'
    ensures DriveLike(Join(p)) <==> DriveLike(p[0])
  {
    assert p[0] in p;
    assert p[0][0] in p[0];
    if |p| > 1 && |p[0]| == 1 {
      assert Join(p)[1] == '/';
    }
  }

  /** `validate_rel_path` alone is not stable: it takes its own result for the same path exactly when the first segment
      of the path does not look like a drive. */
  lemma ParseOnceIsStableIff(path: string)
    requires ParseOnce(path).Success?
    ensures var p := ParseOnce(path).value;
      && (ParseOnce(Join(p)) == ParseOnce(path) <==> !DriveLike(Join(p)))
      && (DriveLike(Join(p)) <==> |p| > 0 && DriveLike(p[0]))
  {
    hide IsName, Split, Significant;
    var p := ParseOnce(path).value;
    SegmentsOfJoin(p);
    PartsAvoid(path, '\0');
    JoinAvoids(p, '\0');
    if |p| > 0 {
      JoinStarts(p);
    }
    NoDots(p);
  }

  lemma PartsAvoid(path: string, c: char)
    requires c !in path
    ensures forall name :: name in Significant(Split(path, '/')) ==> c !in name
  {
  }

  lemma NoDots(p: Path)
    requires AllNames(p)
    ensures ".." !in p
  {
  }

  /** For example it accepts "./C:" and rejects its own result. */
  lemma ParseOnceIsNotStable()
    ensures ParseOnce("./C:") == Success(["C:"])
    ensures ParseOnce(Join(["C:"])) == Failure(BadRequest)
    ensures ParsePath("./C:") == Failure(BadRequest)
  {
    SplitPart(".", "C:", '/');
    SplitPart("C:", "", '/');
    assert "./C:" == "." + ['/'] + "C:";
    assert Significant([".", "C:"]) == Significant(["C:"]) == ["C:"];
  }

  // ---------------------------------------------------------------- undoing a rename

  /** The old name is one `rename_entry` would accept unchanged. */
  predicate CanBeGiven(name: string) {
    FileName(name) == Success(name)
  }

  /** The API can name this entry. */
  predicate Addressable(p: Path) {
    ParsePath(Join(p)) == Success(p)
  }

  /** Joining proper names gives a path that parses to them or does not parse at all. */
  lemma AddressableOrRejected(p: Path)
    requires AllNames(p)
    ensures Addressable(p) || ParsePath(Join(p)).Failure?
  {
    SegmentsOfJoin(p);
  }

  lemma RenameFacts(s: State, path: string, newName: string)
    requires WellFormed(s) && Rename(s, path, newName).1.Success?
    ensures var (s', r) := Rename(s, path, newName);
      var from := ParsePath(path).value;
      && ParsePath(path).Success? && |from| > 0 && |r.value| > 0
      && Parent(r.value) == Parent(from) && AllNames(r.value) && IsName(Base(from))
      && IsDirAt(s.tree, Parent(from))
      && CanRelocate(s, from, r.value) && s' == RelocateState(s, from, r.value)
  {
    hide RelocateState, IsProtected, PROTECTED, TRASH, WellFormed, FileName, ParsePath;
    var from, to := ParsePath(path).value, Rename(s, path, newName).1.value;
    assert Parent(to) == Parent(from);
    assert Base(from) in from;
    forall name | name in to
      ensures IsName(name)
    {
      assert name in Parent(from) || name == Base(to);
    }
  }

  /** Any successful rename of the moved entry, or a failed one, other than the exact way back. */
  lemma OtherwiseDifferent(s: State, from: Path, to: Path, s'': State)
    requires CanRelocate(s, from, to) && Parent(to) == Parent(from)
    requires var s' := RelocateState(s, from, to);
      s'' == s' || exists other :: |other| > 0 && Parent(other) == Parent(from) && other != from
                                  && CanRelocate(s', to, other) && s'' == RelocateState(s', to, other)
    ensures s'' != s
  {
    hide RelocateState, WellFormed, IsName;
    var s' := RelocateState(s, from, to);
    CanRelocateBack(s, from, to);
    assert from !in s'.tree;
    if s'' != s' && from in s''.tree {
      var other :| |other| > 0 && Parent(other) == Parent(from) && other != from
                   && CanRelocate(s', to, other) && s'' == RelocateState(s', to, other);
      RelocatedFrom(s', to, other, from);
      SiblingsAreApart(from, other);
    }
  }

  lemma SiblingsAreApart(p: Path, q: Path)
    requires |p| > 0 && |q| > 0 && Parent(p) == Parent(q) && p != q
    ensures !(q <= p)
  {
    assert p == Parent(p) + [Base(p)] && q == Parent(q) + [Base(q)];
  }

  /** After a successful rename, renaming the result to the old name restores the whole tree exactly when
      the old name can be given again and the new path is addressable and not a protected one. */
  lemma RenameIsUndoneIff(s: State, path: string, newName: string)
    requires WellFormed(s) && Rename(s, path, newName).1.Success?
    ensures var (s', r) := Rename(s, path, newName);
      var name := Base(ParsePath(path).value);
      && WellFormed(s')
      && (Rename(s', Join(r.value), name).0 == s
          <==> CanBeGiven(name) && Addressable(r.value) && !IsProtected(r.value))
  {
    RenameFacts(s, path, newName);
    hide WellFormed, RelocateState, IsProtected, IsName, FileName, CanRelocate, ParsePath;
    var (s', r) := Rename(s, path, newName);
    var from, to := ParsePath(path).value, r.value;
    RelocateIsWellFormed(s, from, to);
    RelocateUndoes(s, from, to);
    AddressableOrRejected(to);
    WayBack(s, s', from, to);
  }

  lemma WayBack(s: State, s': State, from: Path, to: Path)
    requires CanRelocate(s, from, to) && s' == RelocateState(s, from, to)
    requires Parent(to) == Parent(from) && IsName(Base(from)) && IsDirAt(s.tree, Parent(from))
    requires WellFormed(s') && CanRelocate(s', to, from) && RelocateState(s', to, from) == s
    requires Addressable(to) || ParsePath(Join(to)).Failure?
    ensures Rename(s', Join(to), Base(from)).0 == s
       <==> CanBeGiven(Base(from)) && Addressable(to) && !IsProtected(to)
  {
    CanRelocateFacts(s', to, from);
    hide *;
    if CanBeGiven(Base(from)) && Addressable(to) && !IsProtected(to) {
      WayBackOpen(s', to, from);
    } else {
      WayBackClosed(s, s', from, to);
    }
  }

  lemma PathParts(p: Path)
    requires |p| > 0
    ensures Parent(p) + [Base(p)] == p
  {
  }

  lemma WayBackOpen(s': State, to: Path, from: Path)
    requires CanRelocate(s', to, from) && Parent(to) == Parent(from)
    requires CanBeGiven(Base(from)) && Addressable(to) && !IsProtected(to)
    ensures Rename(s', Join(to), Base(from)).0 == RelocateState(s', to, from)
  {
    CanRelocateFacts(s', to, from);
    PathParts(from);
    hide RelocateState, IsProtected, IsName, FileName, ParsePath, Rename, CanRelocate, PROTECTED, TRASH, WellFormed, Join,
      Parent, Base;
    RenameWorks(s', Join(to), Base(from), to, Base(from));
  }

  lemma RenameWorks(s: State, path: string, newName: string, from: Path, name: string)
    requires ParsePath(path) == Success(from) && FileName(newName) == Success(name)
    requires |from| > 0 && !IsProtected(from) && CanRelocate(s, from, Parent(from) + [name])
    ensures Rename(s, path, newName) == (RelocateState(s, from, Parent(from) + [name]), Success(Parent(from) + [name]))
  {
    hide RelocateState, IsProtected, FileName, ParsePath, WellFormed;
    var to := Parent(from) + [name];
    assert Parent(to) == Parent(from) && Base(to) == name;
  }

  lemma WayBackClosed(s: State, s': State, from: Path, to: Path)
    requires CanRelocate(s, from, to) && s' == RelocateState(s, from, to)
    requires Parent(to) == Parent(from) && WellFormed(s')
    requires Addressable(to) || ParsePath(Join(to)).Failure?
    requires !(CanBeGiven(Base(from)) && Addressable(to) && !IsProtected(to))
    ensures Rename(s', Join(to), Base(from)).0 != s
  {
    hide WellFormed, RelocateState, IsProtected, IsName, FileName, ParsePath, Rename, PROTECTED, TRASH, Join;
    RenameUnfolds(s', Join(to), Base(from));
    var (s'', r) := Rename(s', Join(to), Base(from));
    if r.Success? {
      RenameFacts(s', Join(to), Base(from));
      assert r.value != from;
    }
    OtherwiseDifferent(s, from, to, s'');
  }

  lemma CanRelocateFacts(s: State, from: Path, to: Path)
    requires CanRelocate(s, from, to)
    ensures WellFormed(s) && |from| > 0 && |to| > 0
  {
  }

  /** `Rename` in two cases: a failure changes nothing, and a success is the relocation. */
  lemma RenameUnfolds(s: State, path: string, newName: string)
    requires WellFormed(s)
    ensures var (s', r) := Rename(s, path, newName);
      && (r.Failure? ==> s' == s)
      && (r.Success? ==> ParsePath(path).Success? && |ParsePath(path).value| > 0 && !IsProtected(ParsePath(path).value)
                         && FileName(newName).Success?
                         && r.value == Parent(ParsePath(path).value) + [FileName(newName).value])
  {
    hide IsProtected, IsName, RelocateState, WellFormed;
    if ParsePath(path).Success? && FileName(newName).Success? && |ParsePath(path).value| > 0 {
      var to := Parent(ParsePath(path).value) + [FileName(newName).value];
      assert Parent(to) == Parent(ParsePath(path).value) && Base(to) == FileName(newName).value;
    }
  }

  // ---------------------------------------------------------------- protected names can be taken

  /** `rename_entry` checks only the source: a protected name that is free is taken by exactly the renames that give
      this name to an unprotected entry at the top. */
  lemma RenameTakesProtectedIff(s: State, path: string, newName: string, name: string)
    requires WellFormed(s) && name in PROTECTED && [name] !in s.tree
    ensures [name] in Rename(s, path, newName).0.tree
       <==> && ParsePath(path).Success?
            && var from := ParsePath(path).value;
            && |from| == 1 && from in s.tree && !IsProtected(from) && FileName(newName) == Success(name)
  {
    hide RelocateState, IsProtected, IsName, WellFormed, ParsePath, PROTECTED, FileName;
    RenameUnfolds(s, path, newName);
    RootIsDir(s);
    var (s', r) := Rename(s, path, newName);
    if r.Success? {
      RenameFacts(s, path, newName);
      TakenIff(s, ParsePath(path).value, r.value, name);
    }
    if ParsePath(path).Success? && |ParsePath(path).value| == 1 && ParsePath(path).value in s.tree
       && !IsProtected(ParsePath(path).value) && FileName(newName) == Success(name) {
      var from := ParsePath(path).value;
      assert Parent(from) == [] && [] + [name] == [name];
      CanRelocateToTop(s, from, name);
      RenameWorks(s, path, newName, from, name);
      TakenIff(s, from, [name], name);
    }
  }

  lemma TakenIff(s: State, from: Path, to: Path, name: string)
    requires CanRelocate(s, from, to) && [name] !in s.tree
    ensures [name] in RelocateState(s, from, to).tree <==> to == [name]
  {
    hide WellFormed, RelocateState, IsName;
    RelocateAt(s, from, to, from);
    assert Moved(from, from, to) == to;
    if [name] in RelocateState(s, from, to).tree {
      RelocatedFrom(s, from, to, [name]);
      PrefixOfOne(to, name);
    }
  }

  lemma MoveFacts(s: State, path: string, destination: string)
    requires WellFormed(s)
    ensures var (s', r) := Move(s, path, destination);
      && (r.Failure? ==> s' == s)
      && (r.Success? ==>
           && ParsePath(path).Success? && |ParsePath(path).value| > 0 && ParsePath(destination).Success?
           && r.value == ParsePath(destination).value + [Base(ParsePath(path).value)]
           && CanRelocate(s, ParsePath(path).value, r.value)
           && s' == RelocateState(s, ParsePath(path).value, r.value))
  {
    hide RelocateState, IsProtected, IsName, WellFormed, ParsePath;
    if ParsePath(path).Success? && |ParsePath(path).value| > 0 && ParsePath(destination).Success? {
      var from, into := ParsePath(path).value, ParsePath(destination).value;
      assert Base(from) in from;
      assert Parent(into + [Base(from)]) == into && Base(into + [Base(from)]) == Base(from);
    }
  }

  /** `move_entry` likewise: exactly the moves to the top of an entry further down that has the protected name. */
  lemma MoveTakesProtectedIff(s: State, path: string, destination: string, name: string)
    requires WellFormed(s) && name in PROTECTED && [name] !in s.tree
    ensures [name] in Move(s, path, destination).0.tree
       <==> && ParsePath(path).Success?
            && var from := ParsePath(path).value;
            && |from| > 1 && Base(from) == name && from in s.tree && ParsePath(destination) == Success([])
  {
    hide RelocateState, IsName, WellFormed, ParsePath, PROTECTED;
    MoveFacts(s, path, destination);
    RootIsDir(s);
    var (s', r) := Move(s, path, destination);
    if r.Success? {
      TakenIff(s, ParsePath(path).value, r.value, name);
    }
    if ParsePath(path).Success? && |ParsePath(path).value| > 1 && Base(ParsePath(path).value) == name
       && ParsePath(path).value in s.tree && ParsePath(destination) == Success([]) {
      var from := ParsePath(path).value;
      assert name in from;
      CanRelocateToTop(s, from, name);
      MoveToTopWorks(s, path, destination, from);
      TakenIff(s, from, [name], name);
    }
  }

  lemma CanRelocateToTop(s: State, from: Path, name: string)
    requires WellFormed(s) && |from| > 0 && from in s.tree && [name] !in s.tree && IsName(name)
    ensures CanRelocate(s, from, [name])
  {
    assert Parent([name]) == [] && Base([name]) == name;
    PrefixOfOne(from, name);
  }

  lemma MoveToTopWorks(s: State, path: string, destination: string, from: Path)
    requires ParsePath(path) == Success(from) && ParsePath(destination) == Success([]) && |from| > 1
    requires CanRelocate(s, from, [Base(from)])
    ensures Move(s, path, destination) == (RelocateState(s, from, [Base(from)]), Success([Base(from)]))
  {
    hide RelocateState, IsName, PROTECTED;
    assert [] + [Base(from)] == [Base(from)];
    assert ParseOnce(destination).Success?;
    assert IsDirAt(s.tree, Parent(from)) && IsDirAt(s.tree, []);
  }

  /** A state in which the bin can be taken: one ordinary directory at the top. */
  function OneDirectory(): State {
    State(map[[] := Dir(0), ["d"] := Dir(1)], 2)
  }

  function BinTaken(): State {
    State(map[[] := Dir(0), [TRASH] := Dir(1)], 2)
  }

  lemma SmallTreesAreWellFormed()
    ensures WellFormed(OneDirectory()) && WellFormed(OneFile())
  {
    var d, f := OneDirectory().tree, OneFile().tree;
    assert d.Keys == {[], ["d"]} && Parent(["d"]) == [] && Base(["d"]) == "d";
    assert Rooted(d) && InodesDistinct(d, 2);
    assert f.Keys == {[], ["b"]} && Parent(["b"]) == [] && Base(["b"]) == "b";
    assert Rooted(f) && InodesDistinct(f, 2);
  }

  lemma ParseOneName(name: string)
    requires IsName(name) && '\0' !in name && !DriveLike(name)
    ensures ParsePath(name) == Success([name])
  {
    SplitPart(name, "", '/');
    SignificantNames([name]);
    assert Join([name]) == name;
    assert ParseOnce(name) == Success([name]);
  }

  lemma RelocateBin()
    ensures CanRelocate(OneDirectory(), ["d"], [TRASH])
    ensures RelocateState(OneDirectory(), ["d"], [TRASH]) == BinTaken()
  {
    hide RelocateState;
    var s := OneDirectory();
    SmallTreesAreWellFormed();
    assert Parent([TRASH]) == [];
    RelocateAt(s, ["d"], [TRASH], []);
    RelocateAt(s, ["d"], [TRASH], ["d"]);
    RelocateKeepsNext(s, ["d"], [TRASH]);
    var t := RelocateState(s, ["d"], [TRASH]).tree;
    assert Moved(["d"], ["d"], [TRASH]) == [TRASH] && Moved([], ["d"], [TRASH]) == [];
    forall q | q in t
      ensures q == [] || q == [TRASH]
    {
      RelocatedFrom(s, ["d"], [TRASH], q);
    }
    assert t == BinTaken().tree;
  }

  lemma TrashIsAName()
    ensures FileName(TRASH) == Success(TRASH)
  {
  }

  /** Renaming an ordinary directory to ".trash" is accepted. */
  lemma RenameTakesTheBin()
    ensures WellFormed(OneDirectory()) && [TRASH] !in OneDirectory().tree
    ensures Rename(OneDirectory(), "d", TRASH) == (BinTaken(), Success([TRASH]))
  {
    hide RelocateState, ParsePath, FileName, BinTaken, WellFormed;
    SmallTreesAreWellFormed();
    ParseOneName("d");
    TrashIsAName();
    RelocateBin();
    assert Parent(["d"]) == [] && [] + [TRASH] == [TRASH];
  }

  /** The same bin one level down. */
  function BinBelow(): State {
    State(map[[] := Dir(0), ["d"] := Dir(1), ["d", TRASH] := Dir(2)], 3)
  }

  function BinRaised(): State {
    State(map[[] := Dir(0), ["d"] := Dir(1), [TRASH] := Dir(2)], 3)
  }

  lemma BinBelowIsWellFormed()
    ensures WellFormed(BinBelow())
  {
    var t := BinBelow().tree;
    assert t.Keys == {[], ["d"], ["d", TRASH]};
    assert Parent(["d"]) == [] && Base(["d"]) == "d" && Parent(["d", TRASH]) == ["d"] && Base(["d", TRASH]) == TRASH;
    assert Rooted(t) && InodesDistinct(t, 3);
  }

  lemma RaiseBin()
    requires WellFormed(BinBelow())
    ensures CanRelocate(BinBelow(), ["d", TRASH], [TRASH])
    ensures RelocateState(BinBelow(), ["d", TRASH], [TRASH]) == BinRaised()
  {
    hide RelocateState, WellFormed;
    var s, from, to := BinBelow(), ["d", TRASH], [TRASH];
    CanRelocateToTop(s, from, TRASH);
    RelocateAt(s, from, to, []);
    RelocateAt(s, from, to, ["d"]);
    RelocateAt(s, from, to, from);
    RelocateKeepsNext(s, from, to);
    var t := RelocateState(s, from, to).tree;
    assert Moved(from, from, to) == to && Moved([], from, to) == [] && Moved(["d"], from, to) == ["d"];
    forall q | q in t
      ensures q == [] || q == ["d"] || q == to
    {
      RelocatedFrom(s, from, to, q);
    }
    assert t == BinRaised().tree;
  }

  lemma TwoSegments()
    ensures ParsePath("d/" + TRASH) == Success(["d", TRASH])
  {
    SegmentsOfJoin(["d", TRASH]);
    assert [TRASH] == ["d", TRASH][1..] && Join([TRASH]) == TRASH;
    assert Join(["d", TRASH]) == "d/" + TRASH;
    hide Split, Significant;
    assert ParseOnce("d/" + TRASH) == Success(["d", TRASH]);
  }

  lemma NoSegments()
    ensures ParsePath("") == Success([])
  {
    SplitPart("", "", '/');
    assert Significant([""]) == [];
  }

  /** Moving the entry "d/.trash" to the top is accepted. */
  lemma MoveTakesTheBin()
    ensures WellFormed(BinBelow()) && [TRASH] !in BinBelow().tree
    ensures Move(BinBelow(), "d/" + TRASH, "") == (BinRaised(), Success([TRASH]))
  {
    hide RelocateState, ParsePath, BinRaised, WellFormed;
    BinBelowIsWellFormed();
    TwoSegments();
    NoSegments();
    RaiseBin();
    MoveToTopWorks(BinBelow(), "d/" + TRASH, "", ["d", TRASH]);
  }

  // ---------------------------------------------------------------- unpacking over a file

  /** A workspace holding one file "b". */
  function OneFile(): State {
    State(map[[] := Dir(0), ["b"] := File(1, [1])], 2)
  }

  function FileReplaced(): State {
    State(map[[] := Dir(0), ["b"] := File(1, [2])], 2)
  }

  lemma SpacedMember()
    ensures Split(" b", '/') == [" b"] && Significant([" b"]) == [" b"]
    ensures MemberNameOk(" b")
    ensures FileName(" b") == Success("b")
  {
    SplitPart(" b", "", '/');
    assert StripLeft(" b") == StripLeft("b") == "b";
  }

  lemma RootIsOk()
    ensures DirectoryOk([])
  {
    SplitPart("", "", '/');
    assert Significant([""]) == [];
  }

  lemma TopLevelMember(s: State, m: Member, segment: string, name: string, remaining: nat)
    requires MemberNameOk(m.name) && m.name[|m.name| - 1] != '/'
    requires Significant(Split(m.name, '/')) == [segment] && FileName(segment) == Success(name)
    requires [segment] !in s.tree && |m.data| <= remaining
    ensures ExtractMember(s, [], m, remaining) == Overwrite(s, [name], m.data)
  {
    hide FileName, MemberNameOk, DirectoryOk, Split, Significant;
    RootIsOk();
    assert Parent([segment]) == [] && Base([segment]) == segment;
    assert [] + [segment] == [segment] && [] + [name] == [name];
    assert EnsureDirs(s, [], Parent([segment])) == (s, Pass) && [] + Parent([segment]) == [];
  }

  /** The member " b" is not skipped although "b" exists: its bytes replace those of "b". */
  lemma UnpackingClobbers()
    ensures WellFormed(OneFile())
    ensures ExtractMember(OneFile(), [], Member(" b", [2]), 100) == (FileReplaced(), Success(Extracted(1)))
    ensures !Conserves(OneFile(), FileReplaced())
  {
    hide FileName, MemberNameOk, WellFormed, Conserves, Split, Significant, ExtractMember;
    var s := OneFile();
    SmallTreesAreWellFormed();
    SpacedMember();
    TopLevelMember(s, Member(" b", [2]), " b", "b", 100);
    assert s.tree[["b"] := File(1, [2])] == FileReplaced().tree;
    OverwrittenIsLost(s, ["b"], [2]);
  }
}
