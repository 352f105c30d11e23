/**
 What the scanners find, said of the tree alone: a plan or a review is found exactly when its file lies at its place,
 under folders that are slugs and no links.
 */
module PlanFinds {
  import opened Wrappers
  import opened PlanGrammar
  import opened PlanNames
  import opened PlanHeader
  import opened PlanTree
  import opened PlanWatermark
  import opened PlanManifest
  import opened PlanManifestLaws

  // ---------------------------------------------------------------- plans of a tree

  /** Every node on the way to the path, and the one there, is a folder and no link. */
  ghost predicate IsFolderAt(root: Node, path: Path) {
    forall k :: 0 <= k <= |path| ==> NodeAt(root, path[..k]).Some? && NodeAt(root, path[..k]).value.Folder?
  }

  /** The plan's file lies in the tree, at most sixteen slugs down, and is no summary. */
  ghost predicate IsPlanIn(root: Node, c: Candidate) {
    && |c.directory| <= 16 && Slugs(c.directory) && IsFolderAt(root, c.directory)
    && IsSlug(c.slug) && 1 <= c.version < VERSION_LIMIT && !EndsWith(PlanName(c.version, c.slug), "-summary.md")
    && var at := NodeAt(root, c.directory + [PlanName(c.version, c.slug)]);
       at.Some? && at.value.File? && at.value.size == c.size && at.value.mtime == c.mtime && at.value.text == c.text
  }

  /** How many entries there are from entry `i` on, and below it in folders that are slugs, sixteen levels down. */
  function EntriesFrom(f: Node, i: nat, depth: nat): nat
    requires f.Folder? && i <= |f.entries|
    decreases f, |f.entries| - i
  {
    if i == |f.entries| then 0
    else
      var Item(name, node) := f.entries[i];
      1 + (if node.Folder? && depth < 16 && IsSlug(name) then EntriesFrom(node, 0, depth + 1) else 0)
      + EntriesFrom(f, i + 1, depth)
  }

  /** The tree has no more entries than are scanned. */
  predicate WithinLimit(root: Node)
    requires root.Folder?
  {
    EntriesFrom(root, 0, 0) <= 2_000
  }

  // ---------------------------------------------------------------- names that are looked at

  lemma SlugsAreLookedAt(name: string)
    requires IsSlug(name)
    ensures name != REVIEWS && !Hidden(name) && !Temporary(name)
  {
    SlugChars(name);
    hide IsSlug;
    assert forall c :: c in name ==> IsWordChar(c) || c == '-';
    assert name[0] in name && name[|name| - 1] in name;
    assert |name| >= 4 ==> name[|name| - 4] in name;
  }

  lemma PlanNamesAreLookedAt(version: nat, slug: string)
    ensures var name := PlanName(version, slug); name != REVIEWS && !Hidden(name) && !Temporary(name)
  {
    NameParts(version, slug);
    hide PlanName;
    var name := PlanName(version, slug);
    assert name[|name| - 1] == name[|name| - 3..][2] == 'd';
  }

  // ---------------------------------------------------------------- what the walk comes to

  /** The candidate is the file at entry `i`, or lies below the folder there. */
  ghost predicate EntryHolds(f: Node, i: nat, path: Path, depth: nat, c: Candidate)
    requires f.Folder? && i < |f.entries|
    decreases f, |f.entries| - i, 0
  {
    var Item(name, node) := f.entries[i];
    if node.File? then
      && c.directory == path && c.size == node.size && c.mtime == node.mtime && c.text == node.text
      && IsSlug(c.slug) && 1 <= c.version < VERSION_LIMIT && name == PlanName(c.version, c.slug) && !EndsWith(name, "-summary.md")
    else node.Folder? && depth < 16 && IsSlug(name) && FolderHolds(node, 0, path + [name], depth + 1, c)
  }

  ghost predicate FolderHolds(f: Node, i: nat, path: Path, depth: nat, c: Candidate)
    requires f.Folder? && i <= |f.entries|
    decreases f, |f.entries| - i, 1
  {
    exists j :: i <= j < |f.entries| && EntryHolds(f, j, path, depth, c)
  }

  lemma SomeEntryHolds(f: Node, i: nat, path: Path, depth: nat, c: Candidate) returns (j: nat)
    requires f.Folder? && i <= |f.entries| && FolderHolds(f, i, path, depth, c)
    ensures i <= j < |f.entries| && EntryHolds(f, j, path, depth, c)
  {
    j :| i <= j < |f.entries| && EntryHolds(f, j, path, depth, c);
  }

  lemma EntryAndRest(f: Node, i: nat, path: Path, depth: nat, c: Candidate)
    requires f.Folder? && i < |f.entries|
    ensures FolderHolds(f, i, path, depth, c) <==> EntryHolds(f, i, path, depth, c) || FolderHolds(f, i + 1, path, depth, c)
  {
    hide EntryHolds;
  }

  /** The walk stops early exactly when there are too many entries; if it does not, it adds exactly what the folder holds,
      and if it does, nothing else. */
  lemma {:induction false} WalkAdds(f: Node, i: nat, path: Path, depth: nat, s: Walked, c: Candidate)
    requires f.Folder? && i <= |f.entries| && s.go && s.total <= 2_000
    ensures var r := WalkItems(f, i, path, depth, s);
      && (r.go <==> s.total + EntriesFrom(f, i, depth) <= 2_000)
      && (r.go ==> r.total == s.total + EntriesFrom(f, i, depth))
      && (c in r.candidates ==> c in s.candidates || FolderHolds(f, i, path, depth, c))
      && (r.go ==> (c in s.candidates || FolderHolds(f, i, path, depth, c) ==> c in r.candidates))
    decreases f, |f.entries| - i
  {
    hide IsSlug, ParseName, Hidden, Temporary, IsSummary, PlanName, REVIEWS;
    if i < |f.entries| {
      var Item(name, node) := f.entries[i];
      var t := s.(total := s.total + 1);
      if t.total <= 2_000 {
        if node.Folder? && depth < 16 && IsSlug(name) {
          SlugsAreLookedAt(name);
          WalkAdds(node, 0, path + [name], depth + 1, t, c);
        }
        EntryAdds(f, i, path, depth, s, c);
        EntryAndRest(f, i, path, depth, c);
        var s1 := WalkItem(f, i, path, depth, s);
        hide WalkItem, EntryHolds, FolderHolds;
        if s1.go {
          WalkAdds(f, i + 1, path, depth, s1, c);
        }
      }
    }
  }

  lemma EntryAdds(f: Node, i: nat, path: Path, depth: nat, s: Walked, c: Candidate)
    requires f.Folder? && i < |f.entries| && s.go && s.total < 2_000
    requires var Item(name, node) := f.entries[i];
      node.Folder? && depth < 16 && IsSlug(name) ==>
        var t := s.(total := s.total + 1);
        var r := WalkItems(node, 0, path + [name], depth + 1, t);
        && (r.go <==> t.total + EntriesFrom(node, 0, depth + 1) <= 2_000)
        && (r.go ==> r.total == t.total + EntriesFrom(node, 0, depth + 1))
        && (c in r.candidates ==> c in s.candidates || FolderHolds(node, 0, path + [name], depth + 1, c))
        && (r.go ==> (c in s.candidates || FolderHolds(node, 0, path + [name], depth + 1, c) ==> c in r.candidates))
    ensures var Item(name, node) := f.entries[i];
      var below := if node.Folder? && depth < 16 && IsSlug(name) then EntriesFrom(node, 0, depth + 1) else 0;
      var r := WalkItem(f, i, path, depth, s);
      && (r.go <==> s.total + 1 + below <= 2_000)
      && (r.go ==> r.total == s.total + 1 + below)
      && (c in r.candidates ==> c in s.candidates || EntryHolds(f, i, path, depth, c))
      && (r.go ==> (c in s.candidates || EntryHolds(f, i, path, depth, c) ==> c in r.candidates))
  {
    hide IsSlug, ParseName, Hidden, Temporary, PlanName, REVIEWS, WalkItems, FolderHolds, EntriesFrom;
    var Item(name, node) := f.entries[i];
    if node.Folder? && IsSlug(name) {
      SlugsAreLookedAt(name);
    } else if node.File? {
      FileAdds(name, c);
    }
  }

  /** A file is a candidate by exactly the parts of its name. */
  lemma FileAdds(name: string, c: Candidate)
    ensures IsSlug(c.slug) && 1 <= c.version < VERSION_LIMIT && name == PlanName(c.version, c.slug)
       <==> ParseName(name) == Some(Parsed(c.version, c.slug))
    ensures ParseName(name).Some? ==> name != REVIEWS && !Hidden(name) && !Temporary(name)
  {
    hide IsSlug, ParseName, Hidden, Temporary, PlanName, REVIEWS;
    if IsSlug(c.slug) && 1 <= c.version < VERSION_LIMIT && name == PlanName(c.version, c.slug) {
      ParseOfPlanName(c.version, c.slug);
    }
    if ParseName(name).Some? {
      PlanNameOfParse(name);
      var p := ParseName(name).value;
      PlanNamesAreLookedAt(p.version, p.slug);
    }
  }

  // ---------------------------------------------------------------- from entries to paths

  lemma ChildOf(root: Node, path: Path, f: Node, name: string)
    requires NodeAt(root, path) == Some(f) && f.Folder?
    ensures NodeAt(root, path + [name]) == Find(f.entries, name)
  {
    assert (path + [name])[..|path|] == path;
  }

  lemma FolderAtMore(root: Node, path: Path, name: string)
    requires IsFolderAt(root, path)
    ensures IsFolderAt(root, path + [name]) <==> NodeAt(root, path + [name]).Some? && NodeAt(root, path + [name]).value.Folder?
  {
    hide NodeAt;
    var p := path + [name];
    assert p[..|p|] == p;
    assert forall k :: 0 <= k <= |path| ==> p[..k] == path[..k];
  }

  /** What a folder of the tree holds are the plans of the tree below its path. */
  lemma {:induction false} HoldsPlansIff(root: Node, f: Node, path: Path, c: Candidate)
    requires f.Folder? && WellFormed(f) && IsFolderAt(root, path) && NodeAt(root, path) == Some(f)
    requires |path| <= 16 && Slugs(path)
    ensures FolderHolds(f, 0, path, |path|, c) <==> path <= c.directory && IsPlanIn(root, c)
    decreases f, 1
  {
    hide IsSlug, PlanName, NodeAt, IsFolderAt;
    if FolderHolds(f, 0, path, |path|, c) {
      var j := SomeEntryHolds(f, 0, path, |path|, c);
      hide FolderHolds;
      HeldIsPlan(root, f, path, j, c);
    }
    if path <= c.directory && IsPlanIn(root, c) {
      hide EntryHolds;
      PlanIsHeld(root, f, path, c);
    }
  }

  lemma {:induction false} HeldIsPlan(root: Node, f: Node, path: Path, j: nat, c: Candidate)
    requires f.Folder? && WellFormed(f) && IsFolderAt(root, path) && NodeAt(root, path) == Some(f)
    requires |path| <= 16 && Slugs(path) && j < |f.entries| && EntryHolds(f, j, path, |path|, c)
    ensures path <= c.directory && IsPlanIn(root, c)
    decreases f, 0
  {
    hide IsSlug, PlanName, NodeAt, IsFolderAt, FolderHolds;
    var Item(name, node) := f.entries[j];
    FindAt(f, j);
    ChildOf(root, path, f, name);
    if node.Folder? {
      FolderAtMore(root, path, name);
      HoldsPlansIff(root, node, path + [name], c);
      assert path <= path + [name];
    }
  }

  lemma PrefixIsFolder(root: Node, path: Path, k: nat)
    requires IsFolderAt(root, path) && k <= |path|
    ensures IsFolderAt(root, path[..k]) && NodeAt(root, path[..k]).Some? && NodeAt(root, path[..k]).value.Folder?
  {
    hide NodeAt;
    assert forall j :: 0 <= j <= k ==> path[..k][..j] == path[..j];
  }

  /** The next entry on the way from a folder to a plan at or below it. */
  function NextName(path: Path, c: Candidate): string
    requires |c.directory| >= |path|
  {
    if |c.directory| == |path| then PlanName(c.version, c.slug) else c.directory[|path|]
  }

  lemma PlanIsBelow(root: Node, f: Node, path: Path, c: Candidate) returns (node: Node)
    requires f.Folder? && IsFolderAt(root, path) && NodeAt(root, path) == Some(f)
    requires path <= c.directory && IsPlanIn(root, c)
    ensures Slugs(c.directory) && |c.directory| <= 16
    ensures Find(f.entries, NextName(path, c)) == Some(node)
    ensures |c.directory| == |path| ==> c.directory == path && node == NodeAt(root, c.directory + [PlanName(c.version, c.slug)]).value
    ensures |c.directory| > |path| ==>
      var here := path + [c.directory[|path|]];
      here <= c.directory && node.Folder? && NodeAt(root, here) == Some(node) && IsFolderAt(root, here)
  {
    hide IsSlug, PlanName, NodeAt, IsFolderAt;
    ChildOf(root, path, f, NextName(path, c));
    if |c.directory| > |path| {
      PrefixIsFolder(root, c.directory, |path| + 1);
      assert c.directory[..|path| + 1] == path + [c.directory[|path|]];
    } else {
      assert c.directory == path;
    }
    node := Find(f.entries, NextName(path, c)).value;
  }

  lemma PlanIsHeld(root: Node, f: Node, path: Path, c: Candidate)
    requires f.Folder? && WellFormed(f) && IsFolderAt(root, path) && NodeAt(root, path) == Some(f)
    requires |path| <= 16 && Slugs(path) && path <= c.directory && IsPlanIn(root, c)
    ensures FolderHolds(f, 0, path, |path|, c)
    decreases f, 0
  {
    hide IsSlug, PlanName, NodeAt, IsFolderAt, EntryHolds, IsPlanIn;
    var node := PlanIsBelow(root, f, path, c);
    var j :| 0 <= j < |f.entries| && f.entries[j] == Item(NextName(path, c), node);
    if |c.directory| > |path| {
      assert c.directory[|path|] in c.directory;
      PlanIsHeld(root, node, path + [c.directory[|path|]], c);
    }
    HoldsThere(root, f, j, path, c);
  }

  lemma HoldsThere(root: Node, f: Node, j: nat, path: Path, c: Candidate)
    requires f.Folder? && j < |f.entries| && |path| <= 16 && path <= c.directory && IsPlanIn(root, c)
    requires var Item(name, node) := f.entries[j];
      && name == NextName(path, c)
      && if |c.directory| == |path| then node == NodeAt(root, c.directory + [PlanName(c.version, c.slug)]).value
         else node.Folder? && FolderHolds(node, 0, path + [name], |path| + 1, c)
    ensures EntryHolds(f, j, path, |path|, c)
  {
    hide IsSlug, PlanName, NodeAt, IsFolderAt, FolderHolds;
    if |c.directory| > |path| {
      assert c.directory[|path|] in c.directory;
    }
  }

  // ---------------------------------------------------------------- the plans that are found

  /** The walk is complete exactly when the tree is within the limit. Then a plan is found exactly when it is in the tree;
      and whatever the limit leaves out, nothing else is ever found. */
  lemma WalkFindsIff(root: Node, c: Candidate)
    requires root.Folder? && WellFormed(root)
    ensures Walk(root).go <==> WithinLimit(root)
    ensures c in Walk(root).candidates ==> IsPlanIn(root, c)
    ensures WithinLimit(root) ==> (c in Walk(root).candidates <==> IsPlanIn(root, c))
  {
    hide IsPlanIn, WalkItems, FolderHolds, EntriesFrom;
    RootIsThere(root);
    WalkAdds(root, 0, [], 0, NOTHING_WALKED, c);
    HoldsPlansIff(root, root, [], c);
  }

  lemma RootIsThere(root: Node)
    requires root.Folder?
    ensures NodeAt(root, []) == Some(root) && IsFolderAt(root, [])
  {
    var p: Path := [];
    assert p[..0] == p;
  }

  // ---------------------------------------------------------------- the manifest says so

  /** The identity of a plan: its folders and its slug. */
  function IdentityText(c: Candidate): string {
    Joined(c.directory + [c.slug])
  }

  lemma SlugPathsAreValid(path: Path)
    requires Slugs(path)
    ensures ValidPath(path)
  {
    forall name | name in path
      ensures ValidName(name)
    {
      SlugIsValidName(name);
    }
  }

  lemma IdentityDetermines(c: Candidate, d: Candidate)
    requires Slugs(c.directory) && IsSlug(c.slug) && Slugs(d.directory) && IsSlug(d.slug)
    ensures c.Identity() == d.Identity() <==> c.directory == d.directory && c.slug == d.slug
  {
    hide IsSlug;
    IdentityIsJoined(c);
    IdentityIsJoined(d);
    var p, q := c.directory + [c.slug], d.directory + [d.slug];
    SlugPathsAreValid(p);
    SlugPathsAreValid(q);
    if c.Identity() == d.Identity() {
      PathTextIsInjective(p, q);
      assert p[..|c.directory|] == c.directory && q[..|d.directory|] == d.directory;
      assert p[|c.directory|] == c.slug && q[|d.directory|] == d.slug;
    }
  }

  /** The tree has older versions of the plan and no newer one. */
  ghost predicate IsNewestOfSeveral(root: Node, c: Candidate) {
    && (forall d :: IsPlanIn(root, d) && d.directory == c.directory && d.slug == c.slug ==> d.version <= c.version)
    && exists d :: IsPlanIn(root, d) && d.directory == c.directory && d.slug == c.slug && d.version < c.version
  }

  lemma SameFile(root: Node, c: Candidate, d: Candidate)
    requires IsPlanIn(root, c) && IsPlanIn(root, d) && c.directory == d.directory && c.slug == d.slug && c.version == d.version
    ensures c == d
  {
  }

  lemma DraftIsNewest(root: Node, c: Candidate)
    requires root.Folder? && WellFormed(root) && WithinLimit(root) && IsPlanIn(root, c)
    ensures IsDraft(Walk(root).candidates, c) <==> IsNewestOfSeveral(root, c)
  {
    hide IsPlanIn, Walk, WithinLimit, Candidate.Identity;
    var cs := Walk(root).candidates;
    forall d
      ensures d in cs <==> IsPlanIn(root, d)
      ensures d in cs ==> (d.Identity() == c.Identity() <==> d.directory == c.directory && d.slug == c.slug)
      ensures d in cs && d.Identity() == c.Identity() && d.version == c.version ==> d == c
    {
      WalkFindsIff(root, d);
      if IsPlanIn(root, d) {
        PlanHasSlugs(root, c);
        PlanHasSlugs(root, d);
        IdentityDetermines(d, c);
        if d.Identity() == c.Identity() && d.version == c.version {
          SameFile(root, d, c);
        }
      }
    }
  }

  lemma PlanHasSlugs(root: Node, c: Candidate)
    requires IsPlanIn(root, c)
    ensures Slugs(c.directory) && IsSlug(c.slug)
  {
  }

  /** What is said of the header in the first part of a plan: none, one that is none or of another plan, or the plan's own. */
  ghost predicate SaysOfHeader(c: Candidate, h: HeaderFields) {
    var p := ParsePlanHeader(if |c.text| <= 4_096 then c.text else c.text[..4_096]);
    && (h.status == Legacy <==> p.status == Absent)
    && (h.status == Malformed <==> p.status == Invalid)
    && (h.status == Fine <==> p.status == Ok && p.version == Some(c.version) && p.identity == IdentityText(c))
    && (h.status == Legacy ==> h.version == None && h.identity == None && h.parent == None && h.slug == None)
    && (h.status != Legacy ==>
          h.version == p.version && h.parent == p.parent && h.slug == p.slug
          && (p.identity == "" <==> h.identity == None) && (h.identity.Some? ==> h.identity.value == p.identity))
  }

  lemma FieldsSaySo(c: Candidate)
    ensures SaysOfHeader(c, FieldsOf(c))
  {
    hide ParsePlanHeader;
    IdentityIsJoined(c);
  }

  /** In a tree within the limit the manifest finds every plan under its identity and version: where it lies, its size and
      time, what its header says, and whether it is a draft, the newest of several versions. */
  lemma ManifestFindsPlan(root: Node, c: Candidate)
    requires root.Folder? && WellFormed(root) && WithinLimit(root) && IsPlanIn(root, c)
    ensures var v := VersionFor(FreshManifest(root), IdentityText(c), c.version);
      && v.Some? && v.value.version == c.version && v.value.directory == c.directory
      && v.value.name == PlanName(c.version, c.slug) && v.value.size == c.size && v.value.mtime == c.mtime
      && (v.value.status == Draft <==> IsNewestOfSeveral(root, c)) && SaysOfHeader(c, v.value.header)
  {
    hide IsPlanIn, Walk, WithinLimit, IsDraft, IsNewestOfSeveral, SaysOfHeader, FreshManifest, VersionFor, FieldsOf;
    WalkFindsIff(root, c);
    ManifestFinds(root, c);
    DraftIsNewest(root, c);
    FieldsSaySo(c);
    IdentityIsJoined(c);
  }

  /** Whatever the manifest finds is a plan of the tree. */
  lemma ManifestFindsOnlyPlans(root: Node, identity: string, version: nat)
    requires root.Folder? && WellFormed(root) && VersionFor(FreshManifest(root), identity, version).Some?
    ensures exists c :: IsPlanIn(root, c) && IdentityText(c) == identity && c.version == version
  {
    hide IsPlanIn, Walk, FreshManifest, VersionFor;
    ManifestFindsOnly(root, identity, version);
    var c :| c in Walk(root).candidates && c.Identity() == identity && c.version == version;
    WalkFindsIff(root, c);
    IdentityIsJoined(c);
    assert IsPlanIn(root, c) && IdentityText(c) == identity;
  }
}
