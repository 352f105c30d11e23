/** The scanners as they run, and the manifest cache of `scan_plans`. */
module PlanStore {
  import opened Wrappers
  import opened PlanGrammar
  import opened PlanNames
  import opened PlanTree
  import opened PlanWatermark
  import opened PlanAgreement
  import opened PlanManifest

  // ---------------------------------------------------------------- the scanners

  /** `_walk_plan_entries` with its nonlocal counters. */
  class Walker {
    var candidates: seq<Candidate>
    var ignored: nat
    var warnings: seq<PlanTree.Warning>
    var total: nat

    constructor ()
      ensures State(true) == NOTHING_WALKED
    {
      candidates, ignored, warnings, total := [], 0, [], 0;
    }

    function State(go: bool): Walked
      reads this
    {
      Walked(candidates, ignored, warnings, total, go)
    }

    method Ignore(path: Path, reason: Reason)
      modifies this
      ensures State(true) == old(State(true)).Ignore(path, reason)
    {
      ignored := ignored + 1;
      warnings := warnings + [Warning(path, reason)];
    }

    method Walk(f: Node, path: Path, depth: nat) returns (go: bool)
      requires f.Folder?
      modifies this
      ensures State(go) == WalkItems(f, 0, path, depth, old(State(true)))
      decreases f
    {
      hide IsSlug, ParseName, Hidden, Temporary, IsSummary, REVIEWS;
      var i := 0;
      ghost var goal := WalkItems(f, 0, path, depth, State(true));
      while i < |f.entries|
        invariant i <= |f.entries| && goal == WalkItems(f, i, path, depth, State(true))
      {
        var Item(name, node) := f.entries[i];
        var here := path + [name];
        ghost var before := State(true);
        total := total + 1;
        if total > MAX_ENTRIES {
          Ignore(here, TooMany);
          return false;
        }
        if name == REVIEWS {
        } else if Hidden(name) {
          Ignore(here, HiddenSegment);
        } else if Temporary(name) {
          Ignore(here, TemporaryFile);
        } else if node.Link? {
          Ignore(here, SymbolicLink);
        } else if node.Folder? {
          if depth + 1 > MAX_DEPTH {
            Ignore(here, TooDeep);
          } else if !IsSlug(name) {
            Ignore(here, BadFolderName);
          } else {
            var below := Walk(node, here, depth + 1);
            if !below {
              assert State(false) == WalkItem(f, i, path, depth, before);
              return false;
            }
          }
        } else if !node.File? {
          Ignore(here, NotRegular);
        } else if !IsSummary(name) {
          var p := ParseName(name);
          if p.None? {
            Ignore(here, BadFileName);
          } else {
            candidates := candidates + [Candidate(path, p.value.slug, p.value.version, node.size, node.mtime, node.text)];
          }
        }
        assert State(true) == WalkItem(f, i, path, depth, before);
        i := i + 1;
      }
      return true;
    }
  }

  lemma FoldItemsUnfold(f: Node, i: nat, path: Path, depth: nat)
    requires f.Folder? && i <= |f.entries|
    ensures FoldItems(f, i, path, depth)
         == if i == |f.entries| then [] else FoldItem(f, i, path, depth) + FoldItems(f, i + 1, path, depth)
  {
  }

  lemma Regroup(a: seq<Part>, b: seq<Part>, c: seq<Part>)
    ensures a + (b + c) == a + b + c
  {
  }

  /** `_manifest_watermark` with its list of parts. */
  class Marker {
    var parts: seq<Part>
    var total: nat

    constructor ()
      ensures parts == [] && total == 0
    {
      parts, total := [], 0;
    }

    /** `fold_reviews` on a folder, which cannot fail below its top. */
    method Fold(f: Node, path: Path, depth: nat)
      requires f.Folder?
      modifies this`parts
      ensures parts == old(parts) + ([Part(R, PathText(path), f.mtime, |f.entries|)] + FoldItems(f, 0, path, depth))
      decreases f
    {
      hide PathText, FoldItems;
      parts := parts + [Part(R, PathText(path), f.mtime, |f.entries|)];
      var i := 0;
      ghost var goal := parts + FoldItems(f, 0, path, depth);
      Regroup(old(parts), [Part(R, PathText(path), f.mtime, |f.entries|)], FoldItems(f, 0, path, depth));
      while i < |f.entries|
        invariant i <= |f.entries| && goal == parts + FoldItems(f, i, path, depth)
      {
        var Item(name, node) := f.entries[i];
        var here := path + [name];
        ghost var before := parts;
        match node {
          case Link(_) =>
          case File(mtime, size, _, _) =>
            parts := parts + [Part(R, PathText(here), mtime, size)];
          case Special(mtime, size) =>
            parts := parts + [Part(R, PathText(here), mtime, size)];
          case Folder(mtime, entries) =>
            parts := parts + [Part(R, PathText(here), mtime, 0)];
            if depth + 1 <= MAX_DEPTH {
              Fold(node, here, depth + 1);
              Regroup(before, [Part(R, PathText(here), mtime, 0)],
                      [Part(R, PathText(here), mtime, |entries|)] + FoldItems(node, 0, here, depth + 1));
            }
        }
        assert parts == before + FoldItem(f, i, path, depth);
        FoldItemsUnfold(f, i, path, depth);
        Regroup(before, FoldItem(f, i, path, depth), FoldItems(f, i + 1, path, depth));
        i := i + 1;
      }
      FoldItemsUnfold(f, i, path, depth);
    }

    method Walk(f: Node, path: Path, depth: nat) returns (ok: bool)
      requires f.Folder?
      modifies this
      ensures ok <==> MarkItems(f, 0, path, depth, old(Marks(parts, total))).Some?
      ensures ok ==> MarkItems(f, 0, path, depth, old(Marks(parts, total))) == Some(Marks(parts, total))
      decreases f
    {
      hide PathText, IsSlug, ParseName, Hidden, Temporary, REVIEWS;
      var i := 0;
      ghost var goal := MarkItems(f, 0, path, depth, Marks(parts, total));
      while i < |f.entries|
        invariant i <= |f.entries| && goal == MarkItems(f, i, path, depth, Marks(parts, total))
      {
        var Item(name, node) := f.entries[i];
        var here := path + [name];
        ghost var before := Marks(parts, total);
        total := total + 1;
        if total > MAX_ENTRIES {
          return false;
        }
        if name == REVIEWS {
          var target := Resolve(node);
          if target.Some? {
            if !target.value.Folder? {
              return false;
            }
            Fold(target.value, here, depth + 1);
          } else {
            assert parts == before.parts + [];
          }
        } else if !Hidden(name) && !Temporary(name) {
          if node.Folder? {
            if depth + 1 <= MAX_DEPTH && IsSlug(name) {
              parts := parts + [Part(D, PathText(here), node.mtime, |node.entries|)];
              var below := Walk(node, here, depth + 1);
              if !below {
                return false;
              }
            }
          } else if node.File? && ParseName(name).Some? {
            parts := parts + [Part(F, PathText(here), node.mtime, node.size)];
          }
        }
        assert Some(Marks(parts, total)) == MarkItem(f, i, path, depth, before);
        i := i + 1;
      }
      return true;
    }
  }

  method ComputeWatermark(root: Node) returns (w: Option<Watermark>)
    requires root.Folder?
    ensures w == WatermarkOf(root)
  {
    hide MarkItems;
    var marker := new Marker();
    marker.parts := [RootPart(root)];
    var ok := marker.Walk(root, [], 0);
    return if ok then Some(multiset(marker.parts)) else None;
  }

  /** `_collect_reviews` */
  method Collect(f: Node, path: Path, depth: nat, before: Reviews) returns (out: Reviews)
    requires f.Folder?
    ensures out == CollectItems(f, 0, path, depth, before)
    decreases f
  {
    hide IsSlug, Hidden, Temporary, ReviewIdentity, EndsWith;
    out := before;
    var i := 0;
    while i < |f.entries|
      invariant i <= |f.entries| && CollectItems(f, 0, path, depth, before) == CollectItems(f, i, path, depth, out)
    {
      var Item(name, node) := f.entries[i];
      if !node.Link? && !Hidden(name) && !Temporary(name) {
        if node.Folder? {
          if depth + 1 <= MAX_DEPTH && IsSlug(name) {
            out := Collect(node, path + [name], depth + 1, out);
          }
        } else if node.File? && EndsWith(name, JSON) {
          var identity := ReviewIdentity(path + [name]);
          if identity.Some? && node.size <= MAX_FILE_SIZE && node.review.Some? {
            out := out[identity.value := node.review.value];
          }
        }
      }
      i := i + 1;
    }
  }

  // ---------------------------------------------------------------- the cache

  datatype Cached = Cached(watermark: Watermark, manifest: Manifest)

  type Cache = map<string, Cached>

  const EMPTY_MANIFEST := Manifest([], 0, [], {}, map[])

  /** One call of `scan_plans`, on the root found under a key or on none. */
  function ScanStep(cache: Cache, key: string, root: Option<Node>): (Manifest, Cache)
    requires root.Some? ==> root.value.Folder?
  {
    if root.None? then (EMPTY_MANIFEST, cache)
    else
      var w := WatermarkOf(root.value);
      if w.Some? && key in cache && cache[key].watermark == w.value then (cache[key].manifest, cache)
      else
        var m := FreshManifest(root.value);
        (m, if w.Some? then cache[key := Cached(w.value, m)] else cache - {key})
  }

  class PlanStore {
    var cache: Cache

    constructor ()
      ensures cache == map[]
    {
      cache := map[];
    }

    method ScanPlans(key: string, root: Option<Node>) returns (m: Manifest)
      requires root.Some? ==> root.value.Folder?
      modifies this
      ensures (m, cache) == ScanStep(old(cache), key, root)
    {
      hide WalkItems, CollectItems, WatermarkOf, Build;
      if root.None? { return EMPTY_MANIFEST; }
      var w := ComputeWatermark(root.value);
      if w.Some? && key in cache && cache[key].watermark == w.value {
        return cache[key].manifest;
      }
      var walker := new Walker();
      var go := walker.Walk(root.value, [], 0);
      var reviews := map[];
      var directory := Find(root.value.entries, PlanTree.REVIEWS);
      if directory.Some? && directory.value.Folder? {
        reviews := Collect(directory.value, [], 0, map[]);
      }
      m := Build(walker.State(go), reviews);
      cache := if w.Some? then cache[key := Cached(w.value, m)] else cache - {key};
    }
  }

  // ---------------------------------------------------------------- runs

  /** A call of `scan_plans` in a run: the key, and the tree as it is at that moment. */
  datatype Scan = Scan(key: string, root: Option<Node>)

  ghost predicate ProperScan(s: Scan) {
    s.root.Some? ==> s.root.value.Folder? && WellFormed(s.root.value) && ShallowReviews(s.root.value)
  }

  /** Between its scans a tree may change in any way that leaves the file system's stamps trustworthy. */
  ghost predicate ProperRun(scans: seq<Scan>) {
    && (forall i :: 0 <= i < |scans| ==> ProperScan(scans[i]))
    && forall i, j :: 0 <= i < j < |scans| && scans[i].key == scans[j].key && scans[i].root.Some? && scans[j].root.Some? ==>
         Coherent(scans[i].root.value, scans[j].root.value)
  }

  function CacheAfter(scans: seq<Scan>): Cache
    requires forall s :: s in scans && s.root.Some? ==> s.root.value.Folder?
  {
    if |scans| == 0 then map[]
    else
      var last := scans[|scans| - 1];
      ScanStep(CacheAfter(scans[..|scans| - 1]), last.key, last.root).1
  }

  /** The cached entry is what some scan of the run under that key stored. */
  ghost predicate StoredBy(cached: Cached, key: string, s: Scan) {
    && s.key == key && s.root.Some? && s.root.value.Folder?
    && WatermarkOf(s.root.value) == Some(cached.watermark) && cached.manifest == FreshManifest(s.root.value)
  }

  lemma {:induction false} CacheIsStored(scans: seq<Scan>, key: string) returns (i: nat)
    requires forall s :: s in scans && s.root.Some? ==> s.root.value.Folder?
    requires key in CacheAfter(scans)
    ensures i < |scans| && StoredBy(CacheAfter(scans)[key], key, scans[i])
  {
    hide WatermarkOf, FreshManifest;
    var front, last := scans[..|scans| - 1], scans[|scans| - 1];
    if key in CacheAfter(front) && CacheAfter(front)[key] == CacheAfter(scans)[key] {
      i := CacheIsStored(front, key);
    } else {
      i := |scans| - 1;
    }
  }

  /** Over every run, every manifest that is served is the manifest of the tree as it is when it is served. */
  lemma ServedIsFresh(scans: seq<Scan>, k: nat)
    requires ProperRun(scans) && k < |scans|
    ensures forall s :: s in scans && s.root.Some? ==> s.root.value.Folder?
    ensures ScanStep(CacheAfter(scans[..k]), scans[k].key, scans[k].root).0
         == if scans[k].root.None? then EMPTY_MANIFEST else FreshManifest(scans[k].root.value)
  {
    hide WatermarkOf, FreshManifest, WellFormed, ShallowReviews, Coherent;
    assert forall s :: s in scans ==> ProperScan(s);
    var cache, key := CacheAfter(scans[..k]), scans[k].key;
    if scans[k].root.Some? && key in cache {
      var i := CacheIsStored(scans[..k], key);
      assert scans[..k][i] == scans[i];
      var a, b := scans[i].root.value, scans[k].root.value;
      if WatermarkOf(b) == Some(cache[key].watermark) {
        assert ProperScan(scans[i]) && ProperScan(scans[k]);
        ManifestsAgree(a, b);
      }
    }
  }

  lemma ManifestsAgree(a: Node, b: Node)
    requires SameWatermark(a, b) && ShallowReviews(a)
    ensures FreshManifest(a) == FreshManifest(b)
  {
    WalksAgree(a, b);
    ReviewsAgree(a, b);
    hide Walk, ReadReviews, Build;
  }
}
