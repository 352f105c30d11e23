/** Where the cache is wrong: reviews sixteen levels below `.reviews` are read but not watched. */
module PlanDeepReviews {
  import opened Wrappers
  import opened Strings
  import opened Sorting
  import opened PlanGrammar
  import opened PlanNames
  import opened PlanTree
  import opened PlanWatermark
  import opened PlanAgreement
  import opened PlanManifestLaws

  // ---------------------------------------------------------------- the identity of a review file

  lemma NotTemporary(name: string)
    requires |name| > 0 && name[0] != '.' && name[0] != '~' && name[|name| - 1] in {'a', 'n'}
    ensures !Temporary(name) && !Hidden(name)
  {
    assert forall s: string :: |s| > 0 && EndsWith(name, s) ==> s[|s| - 1] == name[|name| - 1];
  }

  lemma NamesOfTower()
    ensures IsSlug("a") && !Hidden("a") && !Temporary("a") && "a" != REVIEWS
    ensures EndsWith("a.json", JSON) && !Hidden("a.json") && !Temporary("a.json") && "a.json" != REVIEWS
  {
    hide Hidden, Temporary;
    SplitWhole("a", '-');
    assert "a.json"[1..] == JSON;
    NotTemporary("a");
    NotTemporary("a.json");
    assert |REVIEWS| == 8;
  }

  lemma SlugsAreValid(path: Path)
    requires Slugs(path)
    ensures ValidPath(path)
  {
    hide IsSlug;
    forall name | name in path
      ensures ValidName(name)
    {
      SlugIsValidName(name);
    }
  }

  lemma JoinedPush(path: Path, name: string)
    ensures Joined(path + [name]) == if |path| == 0 then name else Joined(path) + "/" + name
  {
    assert (path + [name])[..|path|] == path;
  }

  lemma ReviewAt(path: Path)
    requires Slugs(path)
    ensures ReviewIdentity(path + ["a.json"]) == Some(Joined(path + ["a"]))
    ensures Joined(path + ["a.json"]) == Joined(path + ["a"]) + JSON
  {
    NamesOfTower();
    hide IsSlug;
    SlugsAreValid(path);
    var identity := Joined(path + ["a"]);
    JoinedPush(path, "a");
    JoinedPush(path, "a.json");
    assert "a.json" == "a" + JSON;
    assert Joined(path + ["a.json"]) == identity + JSON;
    assert (identity + JSON)[..|identity|] == identity;
    assert ValidPath(path + ["a"]);
    JoinedIsSplit(path + ["a"]);
    assert IsIdentity(identity);
    IdentityStart(identity);
    hide Joined, IsIdentity;
  }

  lemma IdentityStart(identity: string)
    requires IsIdentity(identity)
    ensures |identity| > 0 && identity[0] != '/'
  {
    IdentityChars(identity);
    if identity[0] == '/' {
      assert Split(identity, '/')[0] == "";
      EmptyIsNoSlug();
    }
  }

  // ---------------------------------------------------------------- a tower

  /** `levels` folders named "a", and a review file at the bottom. */
  function Tower(levels: nat, file: Node): Node {
    if levels == 0 then Folder(0, [Item("a.json", file)]) else Folder(0, [Item("a", Tower(levels - 1, file))])
  }

  function ReviewFile(mtime: int, review: Review): Node {
    File(mtime, 0, "", Some(review))
  }

  /** A plan root with one review, `levels` folders below `.reviews`. */
  function TowerRoot(levels: nat, file: Node): Node {
    Folder(0, [Item(REVIEWS, Tower(levels, file))])
  }

  lemma {:induction false} TowerFolds(levels: nat, f: Node, g: Node, path: Path, depth: nat)
    requires f.File? && g.File? && depth + levels > MAX_DEPTH && depth <= MAX_DEPTH
    ensures FoldItems(Tower(levels, f), 0, path, depth) == FoldItems(Tower(levels, g), 0, path, depth)
    decreases levels
  {
    hide PathText;
    var a, b := Tower(levels, f), Tower(levels, g);
    assert levels > 0;
    var c, d := Tower(levels - 1, f), Tower(levels - 1, g);
    assert c.Folder? && d.Folder? && c.mtime == d.mtime && |c.entries| == |d.entries|;
    assert a.entries[0] == Item("a", c) && b.entries[0] == Item("a", d);
    if depth + 1 <= MAX_DEPTH {
      TowerFolds(levels - 1, f, g, path + ["a"], depth + 1);
    }
    assert FoldItem(a, 0, path, depth) == FoldItem(b, 0, path, depth);
    assert FoldItems(a, 1, path, depth) == [] && FoldItems(b, 1, path, depth) == [];
  }

  /** `levels` segments "a". */
  function As(levels: nat): Path {
    if levels == 0 then [] else As(levels - 1) + ["a"]
  }

  lemma {:induction false} AsAreAs(levels: nat)
    ensures |As(levels)| == levels && forall name :: name in As(levels) ==> name == "a"
  {
    if levels > 0 {
      AsAreAs(levels - 1);
    }
  }

  /** A tower is read down to its sixteenth level. */
  lemma {:induction false} TowerCollects(levels: nat, done: nat, mtime: int, review: Review, out: Reviews)
    requires done + levels <= MAX_DEPTH
    ensures CollectItems(Tower(levels, ReviewFile(mtime, review)), 0, As(done), done, out)
         == out[Joined(As(done + levels + 1)) := review]
    decreases levels
  {
    var t := Tower(levels, ReviewFile(mtime, review));
    NamesOfTower();
    AsAreAs(done);
    hide Joined, IsSlug, Hidden, Temporary, EndsWith, IsIdentity;
    if levels > 0 {
      TowerCollects(levels - 1, done + 1, mtime, review, out);
      assert As(done) + ["a"] == As(done + 1);
    } else {
      ReviewAt(As(done));
    }
    assert CollectItems(t, 1, As(done), done, CollectItem(t, 0, As(done), done, out)) == CollectItem(t, 0, As(done), done, out);
  }

  lemma {:induction false} TowerIsWellFormed(levels: nat, file: Node)
    requires file.File?
    ensures WellFormed(Tower(levels, file))
  {
    if levels > 0 {
      TowerIsWellFormed(levels - 1, file);
    }
  }

  lemma {:induction false} TowersAreCoherent(levels: nat, f: Node, g: Node)
    requires f.File? && g.File? && f.mtime != g.mtime
    ensures Coherent(Tower(levels, f), Tower(levels, g))
  {
    if levels > 0 {
      TowersAreCoherent(levels - 1, f, g);
    }
  }

  lemma TowerRootLooks(file: Node)
    requires file.File?
    ensures TowerRoot(16, file).Folder? && Tower(16, file).Folder?
    ensures Tower(16, file).mtime == 0 && |Tower(16, file).entries| == 1
    ensures WellFormed(TowerRoot(16, file))
  {
    TowerIsWellFormed(16, file);
  }

  lemma TowerRootsAreCoherent(f: Node, g: Node)
    requires f.File? && g.File? && f.mtime != g.mtime
    ensures Coherent(TowerRoot(16, f), TowerRoot(16, g))
  {
    TowersAreCoherent(16, f, g);
    TowerRootLooks(f);
    TowerRootLooks(g);
    hide Tower, WellFormed;
  }

  lemma TowerRootReviews(mtime: int, review: Review)
    ensures TowerRoot(16, ReviewFile(mtime, review)).Folder?
    ensures ReadReviews(TowerRoot(16, ReviewFile(mtime, review))) == map[Joined(As(17)) := review]
  {
    hide Tower, CollectItems, Joined, ReadReviews, As;
    TowerRootLooks(ReviewFile(mtime, review));
    OneEntry(TowerRoot(16, ReviewFile(mtime, review)), Tower(16, ReviewFile(mtime, review)));
    TowerCollects(16, 0, mtime, review, map[]);
    EmptyPath();
  }

  lemma EmptyPath()
    ensures As(0) == []
  {
  }

  lemma TowerRootWatermarks(f: Node, g: Node)
    requires f.File? && g.File? && f.mtime != g.mtime
    ensures SameWatermark(TowerRoot(16, f), TowerRoot(16, g))
  {
    hide Tower, FoldItems, PathText, WellFormed, Coherent, WatermarkOf, REVIEWS;
    TowerRootLooks(f);
    TowerRootLooks(g);
    TowerRootsAreCoherent(f, g);
    TowerFolds(16, f, g, [REVIEWS], 1);
    OneEntry(TowerRoot(16, f), Tower(16, f));
    OneEntry(TowerRoot(16, g), Tower(16, g));
    assert RootPart(TowerRoot(16, f)) == RootPart(TowerRoot(16, g));
  }

  /** `fold_reviews` goes one level less deep than `_collect_reviews`: a review sixteen levels down may be replaced,
      its file's time changing as it must, and the watermark stays what it was while the reviews do not. */
  lemma DeepReviewsAreMissed(before: Review, after: Review, a: Node, b: Node)
    requires before != after
    requires a == TowerRoot(16, ReviewFile(1, before)) && b == TowerRoot(16, ReviewFile(2, after))
    ensures SameWatermark(a, b) && ReadReviews(a) != ReadReviews(b)
  {
    hide Tower, CollectItems, Joined, ReadReviews, As, SameWatermark, TowerRoot;
    TowerRootReviews(1, before);
    TowerRootReviews(2, after);
    TowerRootWatermarks(ReviewFile(1, before), ReviewFile(2, after));
    AsAreAs(17);
    var key := Joined(As(17));
    assert map[key := before][key] != map[key := after][key];
  }

  lemma OneEntry(root: Node, reviews: Node)
    requires root == Folder(0, [Item(REVIEWS, reviews)]) && reviews.Folder?
    ensures ReadReviews(root) == CollectItems(reviews, 0, [], 0, map[])
    ensures WatermarkOf(root) == Some(multiset([RootPart(root)] + ([Part(R, PathText([REVIEWS]), reviews.mtime, |reviews.entries|)]
                                                                   + FoldItems(reviews, 0, [REVIEWS], 1))))
  {
    hide CollectItems, FoldItems, PathText;
    assert [] + [REVIEWS] == [REVIEWS];
    var m := Marks([RootPart(root)], 0);
    var m1 := MarkItem(root, 0, [], 0, m);
    assert MarkItems(root, 0, [], 0, m) == MarkItems(root, 1, [], 0, m1.value);
  }

  // ---------------------------------------------------------------- every tree that goes so deep

  lemma {:induction false} CoherentWithItself(a: Node)
    ensures Coherent(a, a)
  {
    if a.Folder? {
      forall i | 0 <= i < |a.entries|
        ensures Coherent(a.entries[i].node, a.entries[i].node)
      {
        CoherentWithItself(a.entries[i].node);
      }
    }
  }

  /** The entry through which a folder that is not shallow goes too deep. */
  ghost predicate Deepens(f: Node, depth: nat, i: nat)
  {
    && f.Folder? && i < |f.entries|
    && f.entries[i].node.Folder? && !Ignored(f.entries[i].name) && IsSlug(f.entries[i].name)
    && !(depth + 1 < MAX_DEPTH && Shallow(f.entries[i].node, depth + 1))
  }

  lemma NotShallowDeepens(f: Node, depth: nat)
    requires !Shallow(f, depth)
    ensures exists i: nat :: Deepens(f, depth, i)
  {
    var i :| 0 <= i < |f.entries| && f.entries[i].node.Folder? && !Ignored(f.entries[i].name) && IsSlug(f.entries[i].name)
             && !(depth + 1 < MAX_DEPTH && Shallow(f.entries[i].node, depth + 1));
    assert Deepens(f, depth, i);
  }

  ghost function Deep(f: Node, depth: nat): (i: nat)
    requires !Shallow(f, depth)
    ensures Deepens(f, depth, i)
  {
    NotShallowDeepens(f, depth);
    var i: nat :| Deepens(f, depth, i);
    i
  }

  /** Other review files in a folder, in another number. */
  function Refilled(f: Node, r: Review): Node
    requires f.Folder?
  {
    Folder(f.mtime, if |f.entries| == 1 then [Item("a.json", ReviewFile(0, r)), Item("b.json", ReviewFile(0, r))]
                    else [Item("a.json", ReviewFile(0, r))])
  }

  /** The tree with other reviews in one folder sixteen levels down. */
  ghost function Replanted(f: Node, depth: nat, r: Review): (g: Node)
    requires !Shallow(f, depth)
    ensures f.Folder? && g.Folder? && g.mtime == f.mtime && |g.entries| == |f.entries|
    decreases f
  {
    var i := Deep(f, depth);
    var Item(name, c) := f.entries[i];
    var d := if depth + 1 < MAX_DEPTH then Replanted(c, depth + 1, r) else Refilled(c, r);
    Folder(f.mtime, f.entries[i := Item(name, d)])
  }

  lemma RefilledLooks(f: Node, r: Review)
    requires f.Folder?
    ensures WellFormed(Refilled(f, r)) && Coherent(f, Refilled(f, r))
  {
  }

  lemma EntryReplaced(f: Node, i: nat, d: Node)
    requires f.Folder? && WellFormed(f) && i < |f.entries|
    requires WellFormed(d) && d.Folder? && f.entries[i].node.Folder? && Coherent(f.entries[i].node, d)
    ensures var g := Folder(f.mtime, f.entries[i := Item(f.entries[i].name, d)]);
      WellFormed(g) && Coherent(f, g)
  {
    var g := Folder(f.mtime, f.entries[i := Item(f.entries[i].name, d)]);
    forall k | 0 <= k < |f.entries|
      ensures Coherent(f.entries[k].node, g.entries[k].node)
    {
      if k != i {
        CoherentWithItself(f.entries[k].node);
      }
    }
  }

  lemma {:induction false} ReplantedLooks(f: Node, depth: nat, r: Review)
    requires !Shallow(f, depth) && WellFormed(f)
    ensures WellFormed(Replanted(f, depth, r)) && Coherent(f, Replanted(f, depth, r))
    decreases f
  {
    hide IsSlug, Ignored, Shallow, Coherent, WellFormed;
    var i := Deep(f, depth);
    var c := f.entries[i].node;
    ChildIsWellFormed(f, i);
    if depth + 1 < MAX_DEPTH {
      ReplantedLooks(c, depth + 1, r);
      EntryReplaced(f, i, Replanted(c, depth + 1, r));
    } else {
      RefilledLooks(c, r);
      EntryReplaced(f, i, Refilled(c, r));
    }
  }

  lemma {:induction false} FoldsSame(f: Node, g: Node, k: nat, path: Path, depth: nat)
    requires f.Folder? && g.Folder? && |f.entries| == |g.entries| && k <= |f.entries|
    requires forall j :: k <= j < |f.entries| ==> FoldItem(f, j, path, depth) == FoldItem(g, j, path, depth)
    ensures FoldItems(f, k, path, depth) == FoldItems(g, k, path, depth)
    decreases |f.entries| - k
  {
    hide FoldItem;
    if k < |f.entries| {
      FoldsSame(f, g, k + 1, path, depth);
    }
  }

  lemma {:induction false} ReplantedFolds(f: Node, depth: nat, r: Review, path: Path)
    requires !Shallow(f, depth) && depth < MAX_DEPTH
    ensures FoldItems(f, 0, path, depth + 1) == FoldItems(Replanted(f, depth, r), 0, path, depth + 1)
    decreases f
  {
    hide PathText, IsSlug, Hidden, Temporary;
    var i := Deep(f, depth);
    var Item(name, c) := f.entries[i];
    var g := Replanted(f, depth, r);
    if depth + 1 < MAX_DEPTH {
      ReplantedFolds(c, depth + 1, r, path + [name]);
    }
    assert FoldItem(f, i, path, depth + 1) == FoldItem(g, i, path, depth + 1);
    FoldsSame(f, g, 0, path, depth + 1);
  }

  // ---------------------------------------------------------------- which keys a folder sets

  /** The key is that of a review file below one of the entries from `k` on. */
  ghost predicate KeyBelow(key: string, f: Node, k: nat, path: Path)
    requires f.Folder?
  {
    exists q: Path, j: nat :: IsKeyAt(key, f, k, path, q, j)
  }

  ghost predicate IsKeyAt(key: string, f: Node, k: nat, path: Path, q: Path, j: nat)
    requires f.Folder?
  {
    && k <= j < |f.entries| && |q| > |path| && q[..|path|] == path && q[|path|] == f.entries[j].name
    && ValidPath(q) && Joined(q) == key + JSON
  }

  ghost predicate SameAt(a: Reviews, b: Reviews, key: string) {
    (key in a <==> key in b) && (key in a ==> a[key] == b[key])
  }

  lemma {:induction false} CollectSetsBelow(f: Node, k: nat, path: Path, depth: nat, out: Reviews, key: string)
    requires f.Folder? && WellFormed(f) && k <= |f.entries| && ValidPath(path)
    ensures SameAt(CollectItems(f, k, path, depth, out), out, key) || KeyBelow(key, f, k, path)
    decreases f, |f.entries| - k
  {
    hide IsSlug, Hidden, Temporary, EndsWith, Joined, ReviewIdentity, ValidName;
    if k < |f.entries| {
      var Item(name, c) := f.entries[k];
      var out1 := CollectItem(f, k, path, depth, out);
      CollectSetsBelow(f, k + 1, path, depth, out1, key);
      var here := path + [name];
      assert ValidPath(here);
      if KeyBelow(key, f, k + 1, path) {
        var q: Path, j: nat :| IsKeyAt(key, f, k + 1, path, q, j);
        assert IsKeyAt(key, f, k, path, q, j);
      } else if !SameAt(out1, out, key) {
        if c.Folder? {
          CollectSetsBelow(c, 0, here, depth + 1, out, key);
          var q: Path, j: nat :| IsKeyAt(key, c, 0, here, q, j);
          assert q[..|path| + 1][..|path|] == path && q[..|path| + 1][|path|] == name;
          assert IsKeyAt(key, f, k, path, q, k);
        } else {
          IdentityIsText(here);
          assert IsKeyAt(key, f, k, path, here, k);
        }
      }
    }
  }

  lemma IdentityIsText(path: Path)
    requires |path| > 0
    ensures ReviewIdentity(path).Some? ==> Joined(path) == ReviewIdentity(path).value + JSON
  {
    hide Joined, IsIdentity;
  }

  /** Entries after the one on the way to `q` leave its key alone. */
  lemma LaterEntriesKeep(f: Node, i: nat, path: Path, depth: nat, out: Reviews, key: string, q: Path)
    requires f.Folder? && WellFormed(f) && i < |f.entries| && ValidPath(path)
    requires |q| > |path| && q[|path|] == f.entries[i].name && ValidPath(q) && Joined(q) == key + JSON
    ensures SameAt(CollectItems(f, i + 1, path, depth, out), out, key)
  {
    hide Joined, ValidName;
    CollectSetsBelow(f, i + 1, path, depth, out, key);
    if KeyBelow(key, f, i + 1, path) {
      var p: Path, j: nat :| IsKeyAt(key, f, i + 1, path, p, j);
      PathTextIsInjective(p, q);
      StringOrderIsStrict(f.entries[i].name, f.entries[j].name);
    }
  }

  lemma {:induction false} CollectStep(f: Node, k: nat, i: nat, path: Path, depth: nat, out: Reviews) returns (at: Reviews)
    requires f.Folder? && k <= i < |f.entries|
    ensures CollectItems(f, k, path, depth, out) == CollectItems(f, i + 1, path, depth, CollectItem(f, i, path, depth, at))
    decreases i - k
  {
    hide CollectItem;
    if k == i {
      at := out;
    } else {
      at := CollectStep(f, k + 1, i, path, depth, CollectItem(f, k, path, depth, out));
    }
  }

  lemma FirstReview(g: Node, r: Review, path: Path, depth: nat, out: Reviews)
    requires g.Folder? && |g.entries| > 0 && g.entries[0] == Item("a.json", ReviewFile(0, r)) && Slugs(path)
    ensures CollectItem(g, 0, path, depth, out) == out[Joined(path + ["a"]) := r]
  {
    ReviewAt(path);
    NamesOfTower();
    hide Joined, IsSlug, Hidden, Temporary, EndsWith, ReviewIdentity;
  }

  lemma FirstReviewStays(g: Node, r: Review, path: Path, depth: nat, out: Reviews, key: string)
    requires g.Folder? && |g.entries| > 0 && g.entries[0] == Item("a.json", ReviewFile(0, r)) && Slugs(path)
    requires WellFormed(g) && key == Joined(path + ["a"])
    ensures var got := CollectItems(g, 0, path, depth, out); key in got && got[key] == r
  {
    FirstReview(g, r, path, depth, out);
    ReviewAt(path);
    SlugsAreValid(path);
    JsonIsValid();
    var out1 := CollectItem(g, 0, path, depth, out);
    var q := path + ["a.json"];
    assert q[|path|] == g.entries[0].name;
    hide Joined, IsSlug, EndsWith, ReviewIdentity, WellFormed, CollectItem, ValidName, JSON;
    LaterEntriesKeep(g, 0, path, depth, out1, key, q);
  }

  lemma RefilledCollects(f: Node, r: Review, path: Path, depth: nat, out: Reviews, key: string)
    requires f.Folder? && Slugs(path) && key == Joined(path + ["a"])
    ensures var got := CollectItems(Refilled(f, r), 0, path, depth, out); key in got && got[key] == r
  {
    RefilledLooks(f, r);
    FirstReviewStays(Refilled(f, r), r, path, depth, out, key);
  }

  /** The key of the new review. */
  ghost function DeepKey(f: Node, depth: nat, path: Path): string
    requires !Shallow(f, depth)
    decreases f
  {
    var Item(name, c) := f.entries[Deep(f, depth)];
    if depth + 1 < MAX_DEPTH then DeepKey(c, depth + 1, path + [name]) else Joined(path + [name] + ["a"])
  }

  lemma {:induction false} DeepKeyAt(f: Node, depth: nat, path: Path) returns (q: Path)
    requires !Shallow(f, depth) && Slugs(path)
    ensures |q| > |path| && q[..|path|] == path && q[|path|] == f.entries[Deep(f, depth)].name
    ensures ValidPath(q) && Joined(q) == DeepKey(f, depth, path) + JSON
    decreases f
  {
    hide Joined, IsSlug, ValidName, Hidden, Temporary;
    var Item(name, c) := f.entries[Deep(f, depth)];
    var here := path + [name];
    assert here[..|path|] == path;
    if depth + 1 < MAX_DEPTH {
      q := DeepKeyAt(c, depth + 1, here);
      assert q[..|path|] == q[..|here|][..|path|] && q[|path|] == q[..|here|][|path|];
    } else {
      q := here + ["a.json"];
      ReviewAt(here);
      SlugsAreValid(here);
      JsonIsValid();
    }
  }

  lemma JsonIsValid()
    ensures ValidName("a.json")
  {
  }

  lemma {:induction false} ReplantedCollects(f: Node, depth: nat, r: Review, path: Path, out: Reviews)
    requires !Shallow(f, depth) && WellFormed(f) && depth < MAX_DEPTH && Slugs(path)
    ensures var key := DeepKey(f, depth, path);
      var got := CollectItems(Replanted(f, depth, r), 0, path, depth, out);
      key in got && got[key] == r
    decreases f
  {
    hide Joined, IsSlug, Hidden, Temporary, WellFormed, ValidName;
    var i := Deep(f, depth);
    var Item(name, c) := f.entries[i];
    var g, key := Replanted(f, depth, r), DeepKey(f, depth, path);
    ReplantedLooks(f, depth, r);
    SlugsAreValid(path);
    var at := CollectStep(g, 0, i, path, depth, out);
    var got := CollectItem(g, i, path, depth, at);
    ReviewsAreHidden();
    assert g.entries[i].name == name;
    assert key in got && got[key] == r by {
      if depth + 1 < MAX_DEPTH {
        ChildIsWellFormed(f, i);
        ReplantedCollects(c, depth + 1, r, path + [name], at);
      } else {
        RefilledCollects(c, r, path + [name], depth + 1, at, key);
      }
    }
    var q := DeepKeyAt(f, depth, path);
    LaterEntriesKeep(g, i, path, depth, got, key, q);
  }

  lemma ChildIsWellFormed(f: Node, i: nat)
    requires f.Folder? && WellFormed(f) && i < |f.entries|
    ensures WellFormed(f.entries[i].node)
  {
  }

  // ---------------------------------------------------------------- the theorem

  lemma {:induction false} MarksSame(f: Node, g: Node, k: nat, path: Path, depth: nat, m: Marks)
    requires f.Folder? && g.Folder? && |f.entries| == |g.entries| && k <= |f.entries|
    requires forall j, m :: k <= j < |f.entries| ==> MarkItem(f, j, path, depth, m) == MarkItem(g, j, path, depth, m)
    ensures MarkItems(f, k, path, depth, m) == MarkItems(g, k, path, depth, m)
    decreases |f.entries| - k
  {
    hide MarkItem;
    if k < |f.entries| {
      var m1 := MarkItem(f, k, path, depth, m);
      assert m1 == MarkItem(g, k, path, depth, m);
      if m1.Some? {
        MarksSame(f, g, k + 1, path, depth, m1.value);
      }
    }
  }

  /** The root with other reviews sixteen levels below its `.reviews`. */
  ghost function RootReplanted(a: Node, i: nat, r: Review): Node
    requires a.Folder? && i < |a.entries| && !Shallow(a.entries[i].node, 0)
  {
    Folder(a.mtime, a.entries[i := Item(a.entries[i].name, Replanted(a.entries[i].node, 0, r))])
  }

  lemma RootReplantedWatermark(a: Node, i: nat, r: Review)
    requires a.Folder? && i < |a.entries| && !Shallow(a.entries[i].node, 0) && a.entries[i].name == REVIEWS
    ensures WatermarkOf(RootReplanted(a, i, r)) == WatermarkOf(a)
  {
    hide REVIEWS, IsSlug, Hidden, Temporary, ParseName, Shallow, FoldItems, Replanted, PathText;
    var b := RootReplanted(a, i, r);
    ReplantedFolds(a.entries[i].node, 0, r, [REVIEWS]);
    assert [] + [REVIEWS] == [REVIEWS];
    forall j, m: Marks | 0 <= j < |a.entries|
      ensures MarkItem(a, j, [], 0, m) == MarkItem(b, j, [], 0, m)
    {
    }
    hide MarkItem;
    MarksSame(a, b, 0, [], 0, Marks([RootPart(a)], 0));
  }

  lemma ReadsAt(a: Node, i: nat)
    requires a.Folder? && WellFormed(a) && i < |a.entries| && a.entries[i].name == REVIEWS && a.entries[i].node.Folder?
    ensures ReadReviews(a) == CollectItems(a.entries[i].node, 0, [], 0, map[])
  {
    hide REVIEWS, CollectItems, WellFormed;
    FindAt(a, i);
  }

  /** The reviews of a tree are safe behind its watermark. */
  ghost predicate ReviewsAreWatched(a: Node)
    requires a.Folder?
  {
    forall b :: SameWatermark(a, b) ==> ReadReviews(b) == ReadReviews(a)
  }

  /** Exactly the trees that keep all review folders fewer than sixteen levels below `.reviews` have them watched. */
  lemma ReviewsAreWatchedIff(a: Node)
    requires a.Folder? && WellFormed(a) && WatermarkOf(a).Some?
    ensures ReviewsAreWatched(a) <==> ShallowReviews(a)
  {
    hide WatermarkOf, WellFormed, ReadReviews, REVIEWS, Coherent, Shallow;
    if ShallowReviews(a) {
      forall b | SameWatermark(a, b)
        ensures ReadReviews(b) == ReadReviews(a)
      {
        ReviewsAgree(a, b);
      }
    } else {
      var b := DeepTreeIsMissed(a);
      assert !ReviewsAreWatched(a);
    }
  }

  lemma DeepTreeIsMissed(a: Node) returns (b: Node)
    requires a.Folder? && WellFormed(a) && WatermarkOf(a).Some? && !ShallowReviews(a)
    ensures SameWatermark(a, b) && ReadReviews(a) != ReadReviews(b)
  {
    hide WatermarkOf, WellFormed, ReadReviews, REVIEWS, Coherent, Shallow, Replanted, Joined, CollectItems;
    var i :| 0 <= i < |a.entries| && a.entries[i].name == REVIEWS && !Shallow(a.entries[i].node, 0);
    var c := a.entries[i].node;
    var key := DeepKey(c, 0, []);
    NotShallowDeepens(c, 0);
    ChildIsWellFormed(a, i);
    ReadsAt(a, i);
    var reviews := ReadReviews(a);
    var r := Review("approved", "", None, Some(if key in reviews && reviews[key].version == Some(1) then 2 else 1));
    b := RootReplanted(a, i, r);
    ReplantedLooks(c, 0, r);
    EntryReplaced(a, i, Replanted(c, 0, r));
    RootReplantedWatermark(a, i, r);
    ReadsAt(b, i);
    ReplantedCollects(c, 0, r, [], map[]);
  }
}
