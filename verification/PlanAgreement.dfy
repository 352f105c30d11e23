/** Equal watermarks force equal scans, save for reviews sixteen levels down. */
module PlanAgreement {
  import opened Wrappers
  import opened PlanGrammar
  import opened PlanNames
  import opened PlanTree
  import opened PlanWatermark

  // ---------------------------------------------------------------- looking the same

  predicate Ignored(name: string) {
    name == REVIEWS || Hidden(name) || Temporary(name)
  }

  /** The same to `_walk_plan_entries`. */
  ghost predicate SamePlans(a: Node, b: Node, depth: nat)
    decreases a
  {
    && a.Folder? && b.Folder? && SameListing(a, b)
    && forall i :: 0 <= i < |a.entries| && !Ignored(a.entries[i].name) ==>
         var (name, c, d) := (a.entries[i].name, a.entries[i].node, b.entries[i].node);
         && (c.Folder? && depth + 1 <= MAX_DEPTH && IsSlug(name) ==> SamePlans(c, d, depth + 1))
         && (c.File? && ParseName(name).Some? ==> c == d)
  }

  /** The same to `_collect_reviews`. */
  ghost predicate SameReviews(a: Node, b: Node, depth: nat)
    decreases a
  {
    && a.Folder? && b.Folder? && SameListing(a, b)
    && forall i :: 0 <= i < |a.entries| && !Ignored(a.entries[i].name) ==>
         var (name, c, d) := (a.entries[i].name, a.entries[i].node, b.entries[i].node);
         && (c.Folder? && depth + 1 <= MAX_DEPTH && IsSlug(name) ==> SameReviews(c, d, depth + 1))
         && (c.File? ==> c == d)
  }

  lemma {:induction false} WalksAlike(a: Node, b: Node, i: nat, path: Path, depth: nat, s: Walked)
    requires SamePlans(a, b, depth) && i <= |a.entries|
    ensures WalkItems(a, i, path, depth, s) == WalkItems(b, i, path, depth, s)
    decreases a, |a.entries| - i
  {
    hide IsSlug, ParseName, Hidden, Temporary, IsSummary;
    if i < |a.entries| {
      var Item(name, c) := a.entries[i];
      if c.Folder? && !Ignored(name) && depth + 1 <= MAX_DEPTH && IsSlug(name) {
        WalksAlike(c, b.entries[i].node, 0, path + [name], depth + 1, s.(total := s.total + 1));
      }
      var s1 := WalkItem(a, i, path, depth, s);
      assert s1 == WalkItem(b, i, path, depth, s);
      if s1.go {
        WalksAlike(a, b, i + 1, path, depth, s1);
      }
    }
  }

  lemma {:induction false} CollectsAlike(a: Node, b: Node, i: nat, path: Path, depth: nat, out: Reviews)
    requires SameReviews(a, b, depth) && i <= |a.entries|
    ensures CollectItems(a, i, path, depth, out) == CollectItems(b, i, path, depth, out)
    decreases a, |a.entries| - i
  {
    hide IsSlug, Hidden, Temporary, ReviewIdentity, EndsWith;
    if i < |a.entries| {
      var Item(name, c) := a.entries[i];
      ReviewsAreHidden();
      if c.Folder? && !Ignored(name) && depth + 1 <= MAX_DEPTH && IsSlug(name) {
        CollectsAlike(c, b.entries[i].node, 0, path + [name], depth + 1, out);
      }
      var out1 := CollectItem(a, i, path, depth, out);
      assert out1 == CollectItem(b, i, path, depth, out);
      CollectsAlike(a, b, i + 1, path, depth, out1);
    }
  }

  lemma ReviewsAreHidden()
    ensures Hidden(REVIEWS)
  {
  }

  // ---------------------------------------------------------------- parts force it

  lemma {:induction false} MarksInclude(f: Node, i: nat, k: nat, path: Path, depth: nat)
    requires f.Folder? && k <= i < |f.entries|
    ensures forall p :: p in MarksOfItem(f, i, path, depth) ==> p in MarksBelow(f, k, path, depth)
    decreases i - k
  {
    hide MarksOfItem;
    if k < i {
      MarksInclude(f, i, k + 1, path, depth);
    }
  }

  lemma {:induction false} FoldsInclude(f: Node, i: nat, k: nat, path: Path, depth: nat)
    requires f.Folder? && k <= i < |f.entries|
    ensures forall p :: p in FoldItem(f, i, path, depth) ==> p in FoldItems(f, k, path, depth)
    decreases i - k
  {
    hide FoldItem;
    if k < i {
      FoldsInclude(f, i, k + 1, path, depth);
    }
  }

  ghost predicate AllComeFrom(parts: seq<Part>, root: Node) {
    forall p :: p in parts ==> ComesFrom(p, root)
  }

  /** Two folders at the same path, with the same time and count. */
  ghost predicate Aligned(a: Node, b: Node, rootA: Node, rootB: Node, path: Path) {
    && a.Folder? && b.Folder? && WellFormed(a) && WellFormed(b) && Coherent(a, b) && ValidPath(path)
    && a.mtime == b.mtime && |a.entries| == |b.entries|
    && NodeAt(rootA, path) == Some(a) && NodeAt(rootB, path) == Some(b)
  }

  lemma AlignedChild(a: Node, b: Node, rootA: Node, rootB: Node, path: Path, i: nat)
    requires Aligned(a, b, rootA, rootB, path) && i < |a.entries|
    ensures SameListing(a, b)
    ensures var (here, c, d) := (path + [a.entries[i].name], a.entries[i].node, b.entries[i].node);
      && WellFormed(c) && WellFormed(d) && Coherent(c, d) && ValidPath(here)
      && NodeAt(rootA, here) == Some(c) && NodeAt(rootB, here) == Some(d)
  {
    ChildAt(rootA, path, a, a, i);
    ChildAt(rootB, path, b, b, i);
  }

  lemma {:induction false} PlansForced(a: Node, b: Node, rootA: Node, rootB: Node, path: Path, depth: nat)
    requires Aligned(a, b, rootA, rootB, path) && AllComeFrom(MarksBelow(a, 0, path, depth), rootB)
    ensures SamePlans(a, b, depth)
    decreases a
  {
    hide IsSlug, ParseName, Hidden, Temporary, NodeAt, ComesFrom, PathText, WellFormed;
    forall i | 0 <= i < |a.entries| && !Ignored(a.entries[i].name)
      ensures SameListing(a, b)
      ensures var (name, c, d) := (a.entries[i].name, a.entries[i].node, b.entries[i].node);
         && (c.Folder? && depth + 1 <= MAX_DEPTH && IsSlug(name) ==> SamePlans(c, d, depth + 1))
         && (c.File? && ParseName(name).Some? ==> c == d)
    {
      AlignedChild(a, b, rootA, rootB, path, i);
      var Item(name, c) := a.entries[i];
      var d, here := b.entries[i].node, path + [name];
      MarksInclude(a, i, 0, path, depth);
      if c.Folder? && depth + 1 <= MAX_DEPTH && IsSlug(name) {
        var p := Part(D, PathText(here), c.mtime, |c.entries|);
        assert p in MarksOfItem(a, i, path, depth);
        DescribesThere(p, rootB, here, d);
        PlansForced(c, d, rootA, rootB, here, depth + 1);
      } else if c.File? && ParseName(name).Some? {
        var p := Part(F, PathText(here), c.mtime, c.size);
        assert p in MarksOfItem(a, i, path, depth);
        DescribesThere(p, rootB, here, d);
      }
    }
    if |a.entries| == 0 {
      assert SameListing(a, b);
    }
  }

  /** No review folder that is read lies sixteen levels below `.reviews`, where `a` lies `depth` levels below. */
  ghost predicate Shallow(a: Node, depth: nat)
    decreases a
  {
    a.Folder? ==> forall i :: 0 <= i < |a.entries| && a.entries[i].node.Folder? && !Ignored(a.entries[i].name)
                              && IsSlug(a.entries[i].name) ==>
                    depth + 1 < MAX_DEPTH && Shallow(a.entries[i].node, depth + 1)
  }

  lemma {:induction false} ReviewsForced(a: Node, b: Node, rootA: Node, rootB: Node, path: Path, depth: nat)
    requires Aligned(a, b, rootA, rootB, path) && Shallow(a, depth)
    requires AllComeFrom(FoldItems(a, 0, path, depth + 1), rootB) && AllComeFrom(FoldItems(b, 0, path, depth + 1), rootA)
    ensures SameReviews(a, b, depth)
    decreases a
  {
    hide IsSlug, Hidden, Temporary, NodeAt, ComesFrom, PathText, WellFormed, Resolve;
    forall i | 0 <= i < |a.entries| && !Ignored(a.entries[i].name)
      ensures SameListing(a, b)
      ensures var (name, c, d) := (a.entries[i].name, a.entries[i].node, b.entries[i].node);
         && (c.Folder? && depth + 1 <= MAX_DEPTH && IsSlug(name) ==> SameReviews(c, d, depth + 1))
         && (c.File? ==> c == d)
    {
      AlignedChild(a, b, rootA, rootB, path, i);
      var Item(name, c) := a.entries[i];
      var d, here := b.entries[i].node, path + [name];
      FoldsInclude(a, i, 0, path, depth + 1);
      FoldsInclude(b, i, 0, path, depth + 1);
      if c.Folder? && depth + 1 <= MAX_DEPTH && IsSlug(name) {
        assert depth + 1 < MAX_DEPTH;
        SameFolder(c, d, rootA, rootB, here,
                   FoldItem(a, i, path, depth + 1), FoldItem(b, i, path, depth + 1));
        ReviewsForced(c, d, rootA, rootB, here, depth + 1);
      } else if c.File? {
        var p := Part(R, PathText(here), c.mtime, c.size);
        assert p in FoldItem(a, i, path, depth + 1);
        DescribesThere(p, rootB, here, d);
      }
    }
    if |a.entries| == 0 {
      assert SameListing(a, b);
    }
  }

  /** The two parts of a review folder settle its time and its count. */
  lemma SameFolder(c: Node, d: Node, rootA: Node, rootB: Node, here: Path, partsA: seq<Part>, partsB: seq<Part>)
    requires c.Folder? && d.Folder? && ValidPath(here) && NodeAt(rootA, here) == Some(c) && NodeAt(rootB, here) == Some(d)
    requires AllComeFrom(partsA, rootB) && AllComeFrom(partsB, rootA)
    requires Part(R, PathText(here), c.mtime, |c.entries|) in partsA
    requires Part(R, PathText(here), d.mtime, |d.entries|) in partsB
    ensures c.mtime == d.mtime && |c.entries| == |d.entries|
  {
    hide NodeAt, ComesFrom, PathText;
    DescribesThere(Part(R, PathText(here), c.mtime, |c.entries|), rootB, here, d);
    DescribesThere(Part(R, PathText(here), d.mtime, |d.entries|), rootA, here, c);
  }

  // ---------------------------------------------------------------- the theorem

  ghost predicate SameWatermark(a: Node, b: Node) {
    && a.Folder? && b.Folder? && WellFormed(a) && WellFormed(b) && Coherent(a, b)
    && WatermarkOf(a).Some? && WatermarkOf(a) == WatermarkOf(b)
  }

  lemma RootsAlign(a: Node, b: Node)
    requires SameWatermark(a, b)
    ensures Aligned(a, b, a, b, [])
    ensures AllComeFrom(AllMarks(a), b) && AllComeFrom(AllMarks(b), a)
  {
    WatermarkIsMarks(a);
    WatermarkIsMarks(b);
    hide WatermarkOf, ComesFrom, MarksBelow, WellFormed;
    assert forall p :: p in AllMarks(a) <==> p in multiset(AllMarks(a));
    assert forall p :: p in AllMarks(b) <==> p in multiset(AllMarks(b));
    assert RootPart(a) in AllMarks(a);
    DescribesThere(RootPart(a), b, [], b);
  }

  /** Equal watermarks force equal walks. */
  lemma WalksAgree(a: Node, b: Node)
    requires SameWatermark(a, b)
    ensures Walk(a) == Walk(b)
  {
    RootsAlign(a, b);
    hide MarksBelow, Aligned, ComesFrom, WalkItems, WatermarkOf, SamePlans;
    PlansForced(a, b, a, b, [], 0);
    SamePlansFolders(a, b);
    WalksAlike(a, b, 0, [], 0, NOTHING_WALKED);
  }

  lemma SamePlansFolders(a: Node, b: Node)
    requires SamePlans(a, b, 0)
    ensures a.Folder? && b.Folder?
  {
  }

  ghost predicate ShallowReviews(root: Node) {
    root.Folder? ==> forall i :: 0 <= i < |root.entries| && root.entries[i].name == REVIEWS ==> Shallow(root.entries[i].node, 0)
  }

  lemma FindsReviews(a: Node, b: Node)
    returns (i: nat)
    requires Aligned(a, b, a, b, [])
    ensures SameListing(a, b)
    ensures i <= |a.entries|
    ensures i == |a.entries| ==> Find(a.entries, REVIEWS) == None && Find(b.entries, REVIEWS) == None
    ensures i < |a.entries| ==> a.entries[i].name == b.entries[i].name == REVIEWS
                                && Find(a.entries, REVIEWS) == Some(a.entries[i].node)
                                && Find(b.entries, REVIEWS) == Some(b.entries[i].node)
  {
    hide REVIEWS;
    assert SameListing(a, b);
    if exists k :: 0 <= k < |a.entries| && a.entries[k].name == REVIEWS {
      i :| 0 <= i < |a.entries| && a.entries[i].name == REVIEWS;
      FindAt(a, i);
      FindAt(b, i);
    } else {
      i := |a.entries|;
    }
  }

  /** Equal watermarks force equal reviews when none are read sixteen levels down. */
  lemma ReviewsAgree(a: Node, b: Node)
    requires SameWatermark(a, b) && ShallowReviews(a)
    ensures ReadReviews(a) == ReadReviews(b)
  {
    hide WatermarkOf, Shallow, WellFormed, Coherent, MarksBelow, NodeAt, AllComeFrom, REVIEWS, CollectItems;
    RootsAlign(a, b);
    var i := FindsReviews(a, b);
    if i < |a.entries| && a.entries[i].node.Folder? {
      ReviewFoldersAgree(a, b, i);
    }
  }

  lemma ReviewFoldersAgree(a: Node, b: Node, i: nat)
    requires Aligned(a, b, a, b, []) && SameListing(a, b) && i < |a.entries| && a.entries[i].name == REVIEWS
    requires AllComeFrom(AllMarks(a), b) && AllComeFrom(AllMarks(b), a)
    requires a.entries[i].node.Folder? && Shallow(a.entries[i].node, 0)
    ensures CollectItems(a.entries[i].node, 0, [], 0, map[]) == CollectItems(b.entries[i].node, 0, [], 0, map[])
  {
    hide ComesFrom, Shallow, WellFormed, CollectItems, NodeAt, Coherent, REVIEWS, MarksOfItem, FoldItems, SameReviews;
    MarksInclude(a, i, 0, [], 0);
    MarksInclude(b, i, 0, [], 0);
    TopFolds(a, b, i);
    var c, d := a.entries[i].node, b.entries[i].node;
    ReviewsForced(c, d, a, b, [REVIEWS], 0);
    CollectsAlikeFromStart(c, d);
  }

  lemma CollectsAlikeFromStart(c: Node, d: Node)
    requires SameReviews(c, d, 0)
    ensures c.Folder? && d.Folder?
    ensures CollectItems(c, 0, [], 0, map[]) == CollectItems(d, 0, [], 0, map[])
  {
    CollectsAlike(c, d, 0, [], 0, map[]);
  }

  lemma TopFolds(a: Node, b: Node, i: nat)
    requires Aligned(a, b, a, b, []) && SameListing(a, b) && i < |a.entries| && a.entries[i].name == REVIEWS
    requires a.entries[i].node.Folder?
    requires AllComeFrom(MarksOfItem(a, i, [], 0), b) && AllComeFrom(MarksOfItem(b, i, [], 0), a)
    ensures Aligned(a.entries[i].node, b.entries[i].node, a, b, [REVIEWS])
    ensures AllComeFrom(FoldItems(a.entries[i].node, 0, [REVIEWS], 1), b)
    ensures AllComeFrom(FoldItems(b.entries[i].node, 0, [REVIEWS], 1), a)
  {
    hide REVIEWS, ComesFrom, WellFormed, NodeAt, FoldItems, PathText, Coherent;
    AlignedChild(a, b, a, b, [], i);
    var c, d := a.entries[i].node, b.entries[i].node;
    assert [] + [REVIEWS] == [REVIEWS];
    assert MarksOfItem(a, i, [], 0) == [Part(R, PathText([REVIEWS]), c.mtime, |c.entries|)] + FoldItems(c, 0, [REVIEWS], 1);
    assert MarksOfItem(b, i, [], 0) == [Part(R, PathText([REVIEWS]), d.mtime, |d.entries|)] + FoldItems(d, 0, [REVIEWS], 1);
    SameFolder(c, d, a, b, [REVIEWS], MarksOfItem(a, i, [], 0), MarksOfItem(b, i, [], 0));
  }
}
