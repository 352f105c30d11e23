/** Retention keeps its limits where it may, removes the oldest first, and never makes a directory forget a number. */
module UploadLaws {
  import opened Wrappers
  import opened Sorting
  import opened Totals
  import opened Uploads

  function Free(all: seq<Upload>): Upload -> bool {
    (e: Upload) => !Pinned(all, e)
  }

  function BytesOf(rows: seq<Upload>): nat {
    Total(rows, Bytes)
  }

  /** `p` is the shortest prefix of `el` whose removal brings the totals within the limits, or all of `el`. */
  ghost predicate ShortestPrefix(p: seq<Upload>, el: seq<Upload>, files: int, bytes: int) {
    && p <= el
    && (forall k :: 0 <= k < |p| ==> !Within(files - k, bytes - BytesOf(el[..k])))
    && (p == el || Within(files - |p|, bytes - BytesOf(p)))
  }

  lemma BytesCons(e: Upload, s: seq<Upload>)
    ensures BytesOf([e] + s) == e.bytes + BytesOf(s)
  {
    assert ([e] + s)[1..] == s;
  }

  lemma PrefixCons(e: Upload, p: seq<Upload>, el: seq<Upload>, files: int, bytes: int)
    requires ShortestPrefix(p, el, files - 1, bytes - e.bytes) && !Within(files, bytes)
    ensures ShortestPrefix([e] + p, [e] + el, files, bytes)
  {
    hide Within, BytesOf;
    BytesCons(e, p);
    forall k | 0 <= k < |p| + 1
      ensures !Within(files - k, bytes - BytesOf(([e] + el)[..k]))
    {
      if k == 0 {
        NoBytes();
        assert ([e] + el)[..k] == [];
      } else {
        BytesCons(e, el[..k - 1]);
        assert ([e] + el)[..k] == [e] + el[..k - 1];
      }
    }
  }

  lemma NoBytes()
    ensures BytesOf([]) == 0
  {
  }

  lemma {:induction false} PlanIsPrefix(rows: seq<Upload>, all: seq<Upload>, files: int, bytes: int)
    ensures ShortestPrefix(PlanFrom(rows, all, files, bytes), Select(rows, Free(all)), files, bytes)
  {
    hide IsAnchor, Within, BytesOf;
    NoBytes();
    if |rows| > 0 {
      if Pinned(all, rows[0]) {
        PlanIsPrefix(rows[1..], all, files, bytes);
      } else if !Within(files, bytes) {
        PlanIsPrefix(rows[1..], all, files - 1, bytes - rows[0].bytes);
        PrefixCons(rows[0], PlanFrom(rows[1..], all, files - 1, bytes - rows[0].bytes), Select(rows[1..], Free(all)), files, bytes);
      }
    }
  }

  // ---------------------------------------------------------------- order

  lemma OlderIsOrder()
    ensures IsOrder(Older)
  {
    AgeIsOrder(Older, (e: Upload) => e.mtime, (e: Upload) => e.place.name);
  }

  lemma ByAgeOrders(rows: seq<Upload>)
    ensures OrderedBy(ByAge(rows), Older)
  {
    OlderIsOrder();
    SortOrders(rows, Older);
  }

  lemma ByAgeMembers(rows: seq<Upload>)
    ensures forall e :: e in ByAge(rows) <==> e in rows
  {
    SortMembers(rows, Older);
  }

  // ---------------------------------------------------------------- what is kept

  ghost predicate PlacesDistinct(rows: seq<Upload>) {
    forall i, j :: 0 <= i < j < |rows| ==> rows[i].place != rows[j].place
  }

  lemma PlannedAre(rows: seq<Upload>)
    ensures forall e :: e in Planned(rows) ==> e in rows && !Pinned(rows, e)
  {
    hide IsAnchor, ByAge, PlanFrom;
    PlanIsPrefix(ByAge(rows), rows, |rows|, BytesOf(rows));
    ByAgeMembers(rows);
    PrefixMembers(Planned(rows), Select(ByAge(rows), Free(rows)));
    SelectMembers(ByAge(rows), Free(rows));
  }

  lemma NotOlder(a: Upload, b: Upload)
    ensures Older(a, b) || b.mtime < a.mtime || (b.mtime == a.mtime && !StringLess(a.place.name, b.place.name))
  {
  }

  /** The removed rows are the oldest unpinned ones, of one time those first in the order of their names. */
  lemma OldestGoFirst(rows: seq<Upload>, gone: Upload, kept: Upload)
    requires gone in Planned(rows) && kept in rows && kept !in Planned(rows) && !Pinned(rows, kept)
    ensures gone.mtime < kept.mtime || (gone.mtime == kept.mtime && !StringLess(kept.place.name, gone.place.name))
  {
    NotOlder(kept, gone);
    hide IsAnchor, ByAge, PlanFrom, Older;
    PlanIsPrefix(ByAge(rows), rows, |rows|, BytesOf(rows));
    ByAgeMembers(rows);
    ByAgeOrders(rows);
    SelectKeepsOrder(ByAge(rows), Free(rows), Older);
    var el, p := Select(ByAge(rows), Free(rows)), Planned(rows);
    SelectMembers(ByAge(rows), Free(rows));
    var i :| 0 <= i < |p| && p[i] == gone;
    assert el[i] == gone && kept in el;
    var j :| 0 <= j < |el| && el[j] == kept;
    NotInPrefix(p, el, j, kept);
  }

  function Within'(places: set<Place>): Upload -> bool {
    (e: Upload) => e.place in places
  }

  lemma PlaceDetermines(rows: seq<Upload>, a: Upload, b: Upload)
    requires PlacesDistinct(rows) && a in rows && b in rows
    ensures a.place == b.place ==> a == b
  {
  }

  /** Kept and removed rows partition the listing: files and bytes add up. */
  lemma KeptAndRemoved(rows: seq<Upload>)
    requires PlacesDistinct(rows)
    ensures multiset(KeptRows(rows)) + multiset(Planned(rows)) == multiset(rows)
    ensures |KeptRows(rows)| + |Planned(rows)| == |rows|
    ensures BytesOf(KeptRows(rows)) + BytesOf(Planned(rows)) == BytesOf(rows)
  {
    var planned := Planned(rows);
    var places := PlacesOf(planned);
    PlannedAre(rows);
    PlannedDistinct(rows);
    hide Planned, Select;
    var gone := Select(rows, Within'(places));
    SelectSplits(rows, Elsewhere(places), Within'(places));
    RowsDistinct(rows);
    SelectDistinct(rows, Within'(places));
    GoneIsPlanned(rows, gone, planned);
    SameElements(gone, planned);
    TotalsAddUp(rows, KeptRows(rows), planned, Bytes);
  }

  lemma GoneIsPlanned(rows: seq<Upload>, gone: seq<Upload>, planned: seq<Upload>)
    requires PlacesDistinct(rows) && gone == Select(rows, Within'(PlacesOf(planned)))
    requires forall e :: e in planned ==> e in rows
    ensures forall e :: e in gone <==> e in planned
  {
    SelectMembers(rows, Within'(PlacesOf(planned)));
    hide Select;
    forall x | x in gone
      ensures x in planned
    {
      var y :| y in planned && y.place == x.place;
      PlaceDetermines(rows, x, y);
    }
  }

  lemma RowsDistinct(rows: seq<Upload>)
    requires PlacesDistinct(rows)
    ensures forall i, j :: 0 <= i < j < |rows| ==> rows[i] != rows[j]
  {
  }

  lemma PlannedDistinct(rows: seq<Upload>)
    requires PlacesDistinct(rows)
    ensures forall i, j :: 0 <= i < j < |Planned(rows)| ==> Planned(rows)[i] != Planned(rows)[j]
  {
    hide IsAnchor, ByAge, PlanFrom, PlacesDistinct;
    RowsDistinct(rows);
    var sorted := ByAge(rows);
    PermutationDistinct(rows, sorted);
    SelectDistinct(sorted, Free(rows));
    PlanIsPrefix(sorted, rows, |rows|, BytesOf(rows));
  }

  lemma PinnedPlacesStay(rows: seq<Upload>, e: Upload)
    requires PlacesDistinct(rows) && e in rows && Pinned(rows, e)
    ensures e.place !in PlacesOf(Planned(rows))
  {
    PlannedAre(rows);
    hide Planned, IsAnchor;
    forall x | x in Planned(rows)
      ensures x.place != e.place
    {
      PlaceDetermines(rows, x, e);
    }
  }

  lemma KeptAre(rows: seq<Upload>, e: Upload)
    ensures e in KeptRows(rows) <==> e in rows && e.place !in PlacesOf(Planned(rows))
  {
    SelectMembers(rows, Elsewhere(PlacesOf(Planned(rows))));
    hide Planned;
  }

  lemma PinnedAreKept(rows: seq<Upload>)
    requires PlacesDistinct(rows)
    ensures forall e :: e in rows && Pinned(rows, e) ==> e in KeptRows(rows)
  {
    hide Pinned, Planned, KeptRows;
    forall e | e in rows && Pinned(rows, e)
      ensures e in KeptRows(rows)
    {
      PinnedPlacesStay(rows, e);
      KeptAre(rows, e);
    }
  }

  lemma AllFreeGone(rows: seq<Upload>)
    requires Planned(rows) == Select(ByAge(rows), Free(rows))
    ensures forall e :: e in KeptRows(rows) ==> Pinned(rows, e)
  {
    ByAgeMembers(rows);
    SelectMembers(ByAge(rows), Free(rows));
    hide Pinned, Planned, KeptRows, ByAge;
    forall e | e in KeptRows(rows)
      ensures Pinned(rows, e)
    {
      KeptAre(rows, e);
      assert e !in Planned(rows);
    }
  }

  lemma PlanEnds(rows: seq<Upload>)
    ensures Planned(rows) == Select(ByAge(rows), Free(rows))
            || Within(|rows| - |Planned(rows)|, BytesOf(rows) - BytesOf(Planned(rows)))
  {
    hide Select, ByAge, Within;
    PlanIsPrefix(ByAge(rows), rows, |rows|, BytesOf(rows));
  }

  lemma KeptTotals(rows: seq<Upload>)
    requires PlacesDistinct(rows)
    ensures |KeptRows(rows)| == |rows| - |Planned(rows)| && BytesOf(KeptRows(rows)) == BytesOf(rows) - BytesOf(Planned(rows))
  {
    KeptAndRemoved(rows);
    hide Planned, KeptRows, BytesOf;
  }

  /** Protected files and anchors are kept, and when more than 200 files or 500 megabytes are kept, nothing else is kept. */
  lemma RetentionMeetsLimits(rows: seq<Upload>)
    requires PlacesDistinct(rows)
    ensures (|KeptRows(rows)| <= 200 && BytesOf(KeptRows(rows)) <= 524_288_000)
            || forall e :: e in KeptRows(rows) ==> Pinned(rows, e)
    ensures forall e :: e in rows && Pinned(rows, e) ==> e in KeptRows(rows)
  {
    hide Pinned, KeptRows, Select, PlacesDistinct, Planned, BytesOf, ByAge;
    PinnedAreKept(rows);
    PlanEnds(rows);
    KeptTotals(rows);
    if Planned(rows) == Select(ByAge(rows), Free(rows)) {
      AllFreeGone(rows);
    }
  }

  /** No shorter list of oldest files would have done: before each removal some limit was exceeded. */
  lemma NothingRemovedInVain(rows: seq<Upload>, k: nat)
    requires k < |Planned(rows)|
    ensures |rows| - k > 200 || BytesOf(rows) - BytesOf(Planned(rows)[..k]) > 524_288_000
  {
    hide IsAnchor, ByAge, PlanFrom;
    PlanIsPrefix(ByAge(rows), rows, |rows|, BytesOf(rows));
    var el := Select(ByAge(rows), Free(rows));
    assert Planned(rows)[..k] == el[..k];
  }

  // ---------------------------------------------------------------- the anchor

  lemma {:induction false} FirstMaxHasHighest(s: seq<Upload>)
    requires |s| > 0
    ensures forall e :: e in s ==> RowNumber(e) <= RowNumber(FirstMax(s, HigherNumber))
  {
    hide NumberedRow, NumberOf;
    if |s| > 1 {
      FirstMaxHasHighest(s[..|s| - 1]);
      assert s == s[..|s| - 1] + [s[|s| - 1]];
    }
  }

  /** Every number of a directory is at most its anchor's. */
  lemma AnchorHasHighest(rows: seq<Upload>, e: Upload)
    requires e in rows && NumberedRow(e)
    ensures |InDir(rows, e.place.dir)| > 0
    ensures var a := AnchorOf(rows, e.place.dir); NumberedRow(a) && RowNumber(e) <= RowNumber(a) && IsAnchor(rows, a)
  {
    hide NumberOf, FirstMax;
    var dir := e.place.dir;
    var numbered := Select(InDir(rows, dir), NumberedRow);
    SelectMembers(rows, OfDir(dir));
    SelectMembers(InDir(rows, dir), NumberedRow);
    assert e in InDir(rows, dir);
    assert e in numbered;
    FirstMaxHasHighest(numbered);
  }

  /** Of two files of a directory: a number before none, the higher number, the later time, of two without a number the later
      name. */
  predicate Outranks(a: Upload, b: Upload) {
    var m, n := NumberOf(a.place.name), NumberOf(b.place.name);
    if m.None? || n.None? then
      (m.Some? && n.None?)
      || (m.None? && n.None? && (a.mtime > b.mtime || (a.mtime == b.mtime && StringLess(b.place.name, a.place.name))))
    else m.value > n.value || (m.value == n.value && a.mtime > b.mtime)
  }

  lemma {:induction false} FirstMaxIsMax(s: seq<Upload>, better: (Upload, Upload) -> bool)
    requires |s| > 0 && IsOrder(better)
    ensures forall e :: e in s ==> !better(e, FirstMax(s, better))
  {
    if |s| > 1 {
      FirstMaxIsMax(s[..|s| - 1], better);
      assert s == s[..|s| - 1] + [s[|s| - 1]];
    }
  }

  lemma RanksAreOrders()
    ensures IsOrder(HigherNumber) && IsOrder(Newer)
  {
    OlderIsOrder();
    hide NumberOf, Older;
  }

  /** The anchor of a directory is one file of it that no other outranks: exactly this one and the protected files stay
      whatever the limits. */
  lemma AnchorIsTop(rows: seq<Upload>, e: Upload)
    requires PlacesDistinct(rows) && e in rows
    ensures |InDir(rows, e.place.dir)| > 0
    ensures var a := AnchorOf(rows, e.place.dir);
      && a in rows && a.place.dir == e.place.dir && !Outranks(e, a)
      && (Pinned(rows, e) <==> e.guarded || e == a)
  {
    hide NumberOf, FirstMax, Older, PlacesDistinct;
    var dir := e.place.dir;
    var here := InDir(rows, dir);
    var numbered := Select(here, NumberedRow);
    SelectMembers(rows, OfDir(dir));
    SelectMembers(here, NumberedRow);
    assert e in here;
    RanksAreOrders();
    FirstMaxIsMax(here, Newer);
    if |numbered| > 0 {
      FirstMaxIsMax(numbered, HigherNumber);
    }
    var a := AnchorOf(rows, dir);
    PlaceDetermines(rows, e, a);
    hide Select;
    TopRank(a, e, |numbered| > 0);
  }

  /** Not behind by the order that applies is not outranked. */
  lemma TopRank(a: Upload, e: Upload, numbers: bool)
    requires if numbers then NumberedRow(a) && (NumberedRow(e) ==> !HigherNumber(e, a))
             else !NumberedRow(a) && !NumberedRow(e) && !Newer(e, a)
    ensures !Outranks(e, a)
  {
    hide NumberOf;
  }

  lemma RowsAreDistinct(tree: UploadTree, walk: seq<Place>, protect: set<Place>)
    requires ListsFiles(walk, tree)
    ensures PlacesDistinct(Rows(tree, walk, protect))
  {
  }

  lemma RowAt(tree: UploadTree, walk: seq<Place>, protect: set<Place>, p: Place) returns (e: Upload)
    requires ListsFiles(walk, tree) && p in tree.files
    ensures e in Rows(tree, walk, protect) && e.place == p
  {
    var i :| 0 <= i < |walk| && walk[i] == p;
    e := Rows(tree, walk, protect)[i];
  }

  lemma NameIsIn(tree: UploadTree, dir: string, name: string)
    ensures name in tree.NamesIn(dir) <==> Place(dir, name) in tree.files || Place(dir, name) in tree.others
  {
  }

  lemma PrunedShrinks(tree: UploadTree, walk: seq<Place>, protect: set<Place>, stuck: set<Place>, dir: string)
    requires WalksFiles(walk, tree)
    ensures Pruned(tree, walk, protect, stuck).NamesIn(dir) <= tree.NamesIn(dir)
  {
    hide Planned, Rows, PlacesOf, WalksFiles;
  }

  /** Pruning never changes the highest number of any directory, whichever of the planned files could be unlinked. */
  lemma PruneKeepsHighest(tree: UploadTree, walk: seq<Place>, protect: set<Place>, stuck: set<Place>, dir: string)
    requires ListsFiles(walk, tree)
    ensures Highest(Pruned(tree, walk, protect, stuck).NamesIn(dir)) == Highest(tree.NamesIn(dir))
  {
    assert WalksFiles(walk, tree);
    hide Planned, Rows, NumberOf, Highest, ListsFiles, UploadTree.NamesIn, WalksFiles;
    var after := Pruned(tree, walk, protect, stuck);
    var h := Highest(tree.NamesIn(dir));
    if h > 0 {
      var name :| name in tree.NamesIn(dir) && NumberOf(name) == Some(h);
      var other := HighestStays(tree, walk, protect, stuck, dir, h, name);
    }
    hide Pruned;
    PrunedShrinks(tree, walk, protect, stuck, dir);
    assert IsHighest(h, after.NamesIn(dir));
    HighestIsUnique(h, after.NamesIn(dir));
  }

  lemma UnplannedStays(tree: UploadTree, walk: seq<Place>, protect: set<Place>, stuck: set<Place>, dir: string, name: string)
    requires ListsFiles(walk, tree) && name in tree.NamesIn(dir)
    requires Place(dir, name) !in PlacesOf(Planned(Rows(tree, walk, protect))) || Place(dir, name) !in tree.files
    ensures name in Pruned(tree, walk, protect, stuck).NamesIn(dir)
  {
    hide Planned, Rows, PlacesOf;
    NameIsIn(tree, dir, name);
    NameIsIn(Pruned(tree, walk, protect, stuck), dir, name);
  }

  lemma TopNumber(names: set<string>, h: nat, name: string)
    requires h == Highest(names) && name in names && NumberOf(name).Some? && NumberOf(name).value >= h
    ensures NumberOf(name) == Some(h)
  {
    hide NumberOf;
  }

  lemma HighestStays(tree: UploadTree, walk: seq<Place>, protect: set<Place>, stuck: set<Place>, dir: string, h: nat,
                     name: string) returns (other: string)
    requires ListsFiles(walk, tree) && name in tree.NamesIn(dir) && NumberOf(name) == Some(h) && h == Highest(tree.NamesIn(dir))
    ensures other in Pruned(tree, walk, protect, stuck).NamesIn(dir) && NumberOf(other) == Some(h)
  {
    assert WalksFiles(walk, tree);
    hide Planned, Rows, IsAnchor, ListsFiles, Highest, PlacesDistinct, NumberOf, UploadTree.NamesIn, PlacesOf, Pruned,
      WalksFiles;
    other := name;
    if Place(dir, name) in tree.files {
      var rows := Rows(tree, walk, protect);
      RowsAreDistinct(tree, walk, protect);
      var e := RowAt(tree, walk, protect, Place(dir, name));
      var a := AnchorWith(rows, e, h);
      RowInTree(tree, walk, protect, a);
      other := a.place.name;
      NameIsIn(tree, dir, other);
      assert Place(dir, other) == a.place;
      TopNumber(tree.NamesIn(dir), h, other);
      UnplannedStays(tree, walk, protect, stuck, dir, other);
    } else {
      UnplannedStays(tree, walk, protect, stuck, dir, name);
    }
  }

  lemma AnchorWith(rows: seq<Upload>, e: Upload, h: nat) returns (a: Upload)
    requires PlacesDistinct(rows) && e in rows && NumberOf(e.place.name) == Some(h)
    ensures a in rows && a.place.dir == e.place.dir && a.place !in PlacesOf(Planned(rows))
    ensures NumberOf(a.place.name).Some? && NumberOf(a.place.name).value >= h
  {
    hide Planned, IsAnchor, NumberOf, AnchorOf;
    AnchorHasHighest(rows, e);
    a := AnchorOf(rows, e.place.dir);
    PinnedPlacesStay(rows, a);
  }

  lemma RowInTree(tree: UploadTree, walk: seq<Place>, protect: set<Place>, a: Upload)
    requires ListsFiles(walk, tree) && a in Rows(tree, walk, protect)
    ensures a.place in tree.files
  {
  }
}
