/** Which reviews are read, said of the tree alone. */
module ReviewFinds {
  import opened Wrappers
  import opened Strings
  import opened Sorting
  import opened PlanGrammar
  import opened PlanTree
  import opened PlanWatermark
  import opened PlanManifestLaws
  import opened PlanFinds

  /** The last part of the path names the review file of that slug. */
  function FileOf(path: Path): Path
    requires |path| > 0
  {
    path[..|path| - 1] + [path[|path| - 1] + ".json"]
  }

  /** A readable review of at most 1 MiB lies under ".reviews" for the plan of this path, at most sixteen slugs down. */
  ghost predicate IsReviewIn(root: Node, path: Path, r: Review)
    requires |path| > 0
  {
    && |path| <= 17 && Slugs(path) && IsFolderAt(root, [".reviews"] + path[..|path| - 1])
    && var at := NodeAt(root, [".reviews"] + FileOf(path));
       at.Some? && at.value.File? && at.value.size <= 1_048_576 && at.value.review == Some(r)
  }

  // ---------------------------------------------------------------- what a folder holds

  ghost predicate EntryHolds(f: Node, i: nat, path: Path, p: Path, r: Review)
    requires f.Folder? && i < |f.entries| && |p| > 0
    decreases f, |f.entries| - i, 0
  {
    var Item(name, node) := f.entries[i];
    if node.File? then
      && p == path + [p[|p| - 1]] && IsSlug(p[|p| - 1]) && name == p[|p| - 1] + ".json"
      && node.size <= 1_048_576 && node.review == Some(r)
    else node.Folder? && |path| < 16 && IsSlug(name) && FolderHolds(node, 0, path + [name], p, r)
  }

  ghost predicate FolderHolds(f: Node, i: nat, path: Path, p: Path, r: Review)
    requires f.Folder? && i <= |f.entries| && |p| > 0
    decreases f, |f.entries| - i, 1
  {
    exists j :: i <= j < |f.entries| && EntryHolds(f, j, path, p, r)
  }

  lemma SomeEntryHolds(f: Node, i: nat, path: Path, p: Path, r: Review) returns (j: nat)
    requires f.Folder? && i <= |f.entries| && |p| > 0 && FolderHolds(f, i, path, p, r)
    ensures i <= j < |f.entries| && EntryHolds(f, j, path, p, r)
  {
    j :| i <= j < |f.entries| && EntryHolds(f, j, path, p, r);
  }

  lemma EntryAndRest(f: Node, i: nat, path: Path, p: Path, r: Review)
    requires f.Folder? && i < |f.entries| && |p| > 0
    ensures FolderHolds(f, i, path, p, r) <==> EntryHolds(f, i, path, p, r) || FolderHolds(f, i + 1, path, p, r)
  {
    hide EntryHolds;
  }

  /** What a folder holds lies below its path. */
  lemma {:induction false} HeldIsBelow(f: Node, i: nat, path: Path, p: Path, r: Review)
    requires f.Folder? && i <= |f.entries| && |p| > 0 && FolderHolds(f, i, path, p, r)
    ensures path < p
    ensures exists j :: i <= j < |f.entries| && EntryHolds(f, j, path, p, r)
    decreases f
  {
    var j :| i <= j < |f.entries| && EntryHolds(f, j, path, p, r);
    var Item(name, node) := f.entries[j];
    hide IsSlug;
    if node.Folder? {
      HeldIsBelow(node, 0, path + [name], p, r);
      assert path < path + [name];
    }
  }

  lemma EntryIsNamed(f: Node, i: nat, path: Path, p: Path, r: Review)
    requires f.Folder? && i < |f.entries| && |p| > 0 && EntryHolds(f, i, path, p, r)
    ensures path < p
    ensures f.entries[i].name == if |p| == |path| + 1 then p[|path|] + ".json" else p[|path|]
  {
    var Item(name, node) := f.entries[i];
    hide IsSlug;
    if node.Folder? {
      HeldIsBelow(node, 0, path + [name], p, r);
      assert p[..|path| + 1] == path + [name] && p[|path|] == name;
      assert path < path + [name];
    }
  }

  /** No two entries of a folder hold a review of one path. */
  lemma HeldOnce(f: Node, i: nat, j: nat, path: Path, p: Path, r: Review, s: Review)
    requires f.Folder? && WellFormed(f) && i < j < |f.entries| && |p| > 0
    ensures !(EntryHolds(f, i, path, p, r) && EntryHolds(f, j, path, p, s))
  {
    hide EntryHolds;
    StringOrderIsStrict(f.entries[i].name, f.entries[j].name);
    if EntryHolds(f, i, path, p, r) && EntryHolds(f, j, path, p, s) {
      EntryIsNamed(f, i, path, p, r);
      EntryIsNamed(f, j, path, p, s);
    }
  }

  // ---------------------------------------------------------------- what is collected

  lemma ReviewFileIsLookedAt(slug: string)
    requires IsSlug(slug)
    ensures var name := slug + ".json"; !Hidden(name) && !Temporary(name) && EndsWith(name, JSON)
  {
    SlugChars(slug);
    hide IsSlug;
    var name := slug + ".json";
    assert name[|slug|..] == ".json" && name[0] == slug[0] && name[|name| - 1] == 'n' && name[|name| - 4] == 'j';
  }

  lemma FrontOfJoined(path: Path, base: string)
    ensures Joined(path + [base + ".json"]) == Joined(path + [base]) + ".json"
  {
    assert (path + [base + ".json"])[..|path|] == path && (path + [base])[..|path|] == path;
  }

  /** The identity a review file is read under, for files in folders that are slugs. */
  lemma IdentityIs(path: Path, name: string)
    requires Slugs(path) && ValidName(name) && EndsWith(name, JSON) && name != JSON
    ensures var base := name[..|name| - 5];
      ReviewIdentity(path + [name]) == if IsSlug(base) then Some(Joined(path + [base])) else None
  {
    var base := name[..|name| - 5];
    assert name == base + ".json";
    FrontOfJoined(path, base);
    var text, id := Joined(path + [name]), Joined(path + [base]);
    assert text[..|text| - 5] == id && text[|text| - 5..] == ".json";
    SlugPathsAreValid(path);
    assert '/' !in base;
    JoinedSplits(path + [base]);
    assert forall part :: part in path + [base] <==> part in path || part == base;
    hide IsSlug, Joined;
    if IsSlug(base) {
      StartsWithNoSlash(path + [base]);
    }
  }

  lemma {:induction false} StartsWithNoSlash(p: Path)
    requires |p| > 0 && Slugs(p)
    ensures |Joined(p)| > 0 && Joined(p)[0] != '/'
  {
    hide IsSlug;
    assert p[|p| - 1] in p;
    SlugIsValidName(p[|p| - 1]);
    if |p| > 1 {
      StartsWithNoSlash(p[..|p| - 1]);
    }
  }

  lemma {:induction false} JoinedSplits(p: Path)
    requires |p| > 0 && forall name :: name in p ==> '/' !in name
    ensures Split(Joined(p), '/') == p
  {
    hide Split;
    var last := p[|p| - 1];
    assert last in p;
    SplitWhole(last, '/');
    if |p| > 1 {
      JoinedSplits(p[..|p| - 1]);
      SplitConcat(Joined(p[..|p| - 1]), last, '/');
      assert p == p[..|p| - 1] + [last];
    } else {
      assert p == [last];
    }
  }

  /** One entry: the review it holds for the path is the one recorded, and it changes no other. */
  ghost predicate Records(out: Reviews, after: Reviews, p: Path, held: iset<Review>)
    requires |p| > 0
  {
    var id := Joined(p);
    && (forall r :: r in held ==> id in after && after[id] == r)
    && (held == iset{} ==> (id in after <==> id in out) && (id in out ==> after[id] == out[id]))
  }

  ghost function HeldBy(f: Node, i: nat, path: Path, p: Path): iset<Review>
    requires f.Folder? && i < |f.entries| && |p| > 0
  {
    iset r: Review | EntryHolds(f, i, path, p, r)
  }

  ghost function HeldFrom(f: Node, i: nat, path: Path, p: Path): iset<Review>
    requires f.Folder? && i <= |f.entries| && |p| > 0
  {
    iset r: Review | FolderHolds(f, i, path, p, r)
  }

  lemma SamePath(p: Path, q: Path)
    requires Slugs(p) && Slugs(q) && |p| > 0 && |q| > 0
    ensures Joined(p) == Joined(q) <==> p == q
  {
    hide IsSlug;
    SlugPathsAreValid(p);
    SlugPathsAreValid(q);
    if Joined(p) == Joined(q) {
      PathTextIsInjective(p, q);
    }
  }

  lemma FileRecords(f: Node, i: nat, path: Path, out: Reviews, p: Path)
    requires f.Folder? && WellFormed(f) && i < |f.entries| && f.entries[i].node.File?
    requires Slugs(path) && Slugs(p) && |p| > 0 && |path| <= 16
    ensures Records(out, CollectItem(f, i, path, |path|, out), p, HeldBy(f, i, path, p))
  {
    hide IsSlug, Joined, Hidden, Temporary, ReviewIdentity;
    var Item(name, node) := f.entries[i];
    var slug := p[|p| - 1];
    assert slug in p;
    ReviewFileIsLookedAt(slug);
    if EndsWith(name, JSON) {
      var base := name[..|name| - 5];
      assert name == base + ".json";
      if name == JSON {
        assert Hidden(name) by { HiddenJson(); }
        SlugIsValidName(slug);
      } else {
        IdentityIs(path, name);
        assert (path + [base])[|path|] == base;
        if IsSlug(base) {
          SamePath(path + [base], p);
        }
        SuffixIsOne(base, slug);
        assert forall r :: r in HeldBy(f, i, path, p) ==> base == slug;
        if IsSlug(base) && p == path + [base] && node.size <= 1_048_576 && node.review.Some? {
          assert node.review.value in HeldBy(f, i, path, p);
        }
      }
    } else {
      assert HeldBy(f, i, path, p) == iset{};
    }
  }

  lemma HiddenJson()
    ensures Hidden(JSON)
  {
  }

  lemma SuffixIsOne(a: string, b: string)
    ensures a + ".json" == b + ".json" ==> a == b
  {
    assert (a + ".json")[..|a + ".json"| - 5] == a && (b + ".json")[..|b + ".json"| - 5] == b;
  }

  lemma {:induction false} CollectIs(f: Node, i: nat, path: Path, out: Reviews, p: Path)
    requires f.Folder? && WellFormed(f) && i <= |f.entries| && Slugs(path) && Slugs(p) && |p| > 0 && |path| <= 16
    ensures Records(out, CollectItems(f, i, path, |path|, out), p, HeldFrom(f, i, path, p))
    decreases f, |f.entries| - i
  {
    hide IsSlug, Joined, Hidden, Temporary, ReviewIdentity, Records;
    if i == |f.entries| {
      NothingRecorded(out, p, HeldFrom(f, i, path, p));
    } else {
      var Item(name, node) := f.entries[i];
      if node.Folder? && |path| < 16 && IsSlug(name) {
        SlugsAreLookedAt(name);
        CollectIs(node, 0, path + [name], out, p);
        assert HeldBy(f, i, path, p) == HeldFrom(node, 0, path + [name], p);
      } else if node.File? {
        FileRecords(f, i, path, out, p);
      } else {
        NothingRecorded(out, p, HeldBy(f, i, path, p));
      }
      var mid := CollectItem(f, i, path, |path|, out);
      hide CollectItem;
      CollectIs(f, i + 1, path, mid, p);
      ThenRecords(f, i, path, out, mid, CollectItems(f, i + 1, path, |path|, mid), p);
    }
  }

  lemma NothingRecorded(out: Reviews, p: Path, held: iset<Review>)
    requires |p| > 0 && forall r :: r !in held
    ensures Records(out, out, p, held)
  {
  }

  lemma ThenRecords(f: Node, i: nat, path: Path, out: Reviews, mid: Reviews, after: Reviews, p: Path)
    requires f.Folder? && WellFormed(f) && i < |f.entries| && |p| > 0
    requires Records(out, mid, p, HeldBy(f, i, path, p)) && Records(mid, after, p, HeldFrom(f, i + 1, path, p))
    ensures Records(out, after, p, HeldFrom(f, i, path, p))
  {
    hide EntryHolds, Joined;
    forall r
      ensures FolderHolds(f, i, path, p, r) <==> EntryHolds(f, i, path, p, r) || FolderHolds(f, i + 1, path, p, r)
    {
      EntryAndRest(f, i, path, p, r);
    }
    var here, later, all := HeldBy(f, i, path, p), HeldFrom(f, i + 1, path, p), HeldFrom(f, i, path, p);
    assert forall r :: r in all <==> r in here || r in later;
    forall r, s | r in here && s in later
      ensures false
    {
      assert FolderHolds(f, i + 1, path, p, s);
      var j :| i + 1 <= j < |f.entries| && EntryHolds(f, j, path, p, s);
      HeldOnce(f, i, j, path, p, r, s);
    }
    if later != iset{} {
      var s :| s in later;
      assert here == iset{};
    } else {
      assert all == here;
    }
  }

  // ---------------------------------------------------------------- from entries to paths

  /** What a folder under ".reviews" holds are the reviews of the tree below its path. */
  lemma {:induction false} HoldsReviewsIff(root: Node, f: Node, path: Path, p: Path, r: Review)
    requires f.Folder? && WellFormed(f) && IsFolderAt(root, [REVIEWS] + path) && NodeAt(root, [REVIEWS] + path) == Some(f)
    requires |path| <= 16 && Slugs(path) && |p| > 0
    ensures FolderHolds(f, 0, path, p, r) <==> path < p && IsReviewIn(root, p, r)
    decreases f
  {
    hide IsSlug, NodeAt, IsFolderAt;
    if FolderHolds(f, 0, path, p, r) {
      var j := SomeEntryHolds(f, 0, path, p, r);
      HeldIsThere(root, f, j, path, p, r);
    }
    if path < p && IsReviewIn(root, p, r) {
      ThereIsHeld(root, f, path, p, r);
    }
  }

  lemma HeldIsThere(root: Node, f: Node, j: nat, path: Path, p: Path, r: Review)
    requires f.Folder? && WellFormed(f) && IsFolderAt(root, [REVIEWS] + path) && NodeAt(root, [REVIEWS] + path) == Some(f)
    requires |path| <= 16 && Slugs(path) && |p| > 0 && j < |f.entries| && EntryHolds(f, j, path, p, r)
    ensures path < p && IsReviewIn(root, p, r)
    decreases f, 0
  {
    hide IsSlug, NodeAt, IsFolderAt, FolderHolds;
    var Item(name, node) := f.entries[j];
    var at := [REVIEWS] + path;
    FindAt(f, j);
    ChildOf(root, at, f, name);
    assert at + [name] == [REVIEWS] + (path + [name]);
    if node.Folder? {
      FolderAtMore(root, at, name);
      HoldsReviewsIff(root, node, path + [name], p, r);
      assert path < path + [name];
    } else {
      assert p[..|p| - 1] == path && FileOf(p) == path + [name];
    }
  }

  lemma ThereIsHeld(root: Node, f: Node, path: Path, p: Path, r: Review)
    requires f.Folder? && WellFormed(f) && IsFolderAt(root, [REVIEWS] + path) && NodeAt(root, [REVIEWS] + path) == Some(f)
    requires |path| <= 16 && Slugs(path) && |p| > 0 && path < p && IsReviewIn(root, p, r)
    ensures exists j :: 0 <= j < |f.entries| && EntryHolds(f, j, path, p, r)
    decreases f, 0
  {
    hide IsSlug, NodeAt, IsFolderAt, FolderHolds, EntryHolds, IsReviewIn;
    var name := if |p| == |path| + 1 then p[|path|] + ".json" else p[|path|];
    var node := ReviewIsBelow(root, f, path, p, r);
    var j :| 0 <= j < |f.entries| && f.entries[j] == Item(name, node);
    if |p| > |path| + 1 {
      HoldsReviewsIff(root, node, path + [name], p, r);
    }
    HoldsThere(f, j, path, p, r);
  }

  lemma HoldsThere(f: Node, j: nat, path: Path, p: Path, r: Review)
    requires f.Folder? && j < |f.entries| && path < p && |path| <= 16 && Slugs(p)
    requires var Item(name, node) := f.entries[j];
      if |p| == |path| + 1 then name == p[|path|] + ".json" && node.File? && node.size <= 1_048_576 && node.review == Some(r)
      else name == p[|path|] && node.Folder? && |path| < 16 && FolderHolds(node, 0, path + [name], p, r)
    ensures EntryHolds(f, j, path, p, r)
  {
    hide IsSlug, FolderHolds;
    assert p[|path|] in p;
    if |p| == |path| + 1 {
      assert p == path + [p[|path|]];
    }
  }

  /** The next node on the way from a folder to a review below it. */
  lemma ReviewIsBelow(root: Node, f: Node, path: Path, p: Path, r: Review) returns (node: Node)
    requires f.Folder? && IsFolderAt(root, [REVIEWS] + path) && NodeAt(root, [REVIEWS] + path) == Some(f)
    requires path < p && IsReviewIn(root, p, r)
    ensures Slugs(p) && |p| <= 17
    ensures Find(f.entries, if |p| == |path| + 1 then p[|path|] + ".json" else p[|path|]) == Some(node)
    ensures |p| == |path| + 1 ==> node.File? && node.size <= 1_048_576 && node.review == Some(r)
    ensures |p| > |path| + 1 ==>
              var here := [REVIEWS] + (path + [p[|path|]]);
              && path + [p[|path|]] < p && node.Folder? && NodeAt(root, here) == Some(node) && IsFolderAt(root, here)
  {
    hide NodeAt, IsFolderAt, IsSlug;
    var at, n := [REVIEWS] + path, |path|;
    if |p| == n + 1 {
      var name := p[n] + ".json";
      ChildOf(root, at, f, name);
      assert FileOf(p) == path + [name] && at + [name] == [REVIEWS] + FileOf(p);
      node := Find(f.entries, name).value;
    } else {
      var name, front := p[n], [REVIEWS] + p[..|p| - 1];
      ChildOf(root, at, f, name);
      PrefixIsFolder(root, front, n + 2);
      assert path + [name] == p[..n + 1];
      assert front[..n + 2] == at + [name] == [REVIEWS] + (path + [name]);
      node := Find(f.entries, name).value;
    }
  }

  /** The reviews that are read are exactly those of the tree, each under the identity of its plan. */
  lemma ReviewsFoundIff(root: Node, path: Path, r: Review)
    requires root.Folder? && WellFormed(root) && |path| > 0 && Slugs(path)
    ensures Joined(path) in ReadReviews(root) && ReadReviews(root)[Joined(path)] == r <==> IsReviewIn(root, path, r)
  {
    hide IsSlug, Joined, FolderHolds, CollectItems;
    RootIsThere(root);
    ChildOf(root, [], root, REVIEWS);
    FolderAtMore(root, [], REVIEWS);
    assert [] + [REVIEWS] == [REVIEWS] && [REVIEWS] + [] == [REVIEWS];
    var at := Find(root.entries, REVIEWS);
    if at.Some? && at.value.Folder? {
      var f := at.value;
      ReviewsAreWellFormed(root, f);
      CollectIs(f, 0, [], map[], path);
      forall s
        ensures s in HeldFrom(f, 0, [], path) <==> IsReviewIn(root, path, s)
      {
        HoldsReviewsIff(root, f, [], path, s);
      }
    } else if IsReviewIn(root, path, r) {
      ReviewsHaveAFolder(root, path, r);
    }
  }

  lemma ReviewsHaveAFolder(root: Node, path: Path, r: Review)
    requires |path| > 0 && IsReviewIn(root, path, r)
    ensures NodeAt(root, [REVIEWS]).Some? && NodeAt(root, [REVIEWS]).value.Folder?
  {
    hide NodeAt;
    var front := [REVIEWS] + path[..|path| - 1];
    PrefixIsFolder(root, front, 1);
    assert front[..1] == [REVIEWS];
  }

  lemma ReviewsAreWellFormed(root: Node, f: Node)
    requires root.Folder? && WellFormed(root) && Find(root.entries, REVIEWS) == Some(f)
    ensures WellFormed(f)
  {
  }
}
