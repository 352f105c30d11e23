/**
 The upload directories: numbered names, the allocator that reads the greatest number and reserves the next one,
 and the retention pass that must not make it forget.
 */
module Uploads {
  import opened Wrappers
  import opened Strings
  import opened Sorting
  import opened Totals

  // ---------------------------------------------------------------- numbers

  /** `name.rsplit(".", 1)[0]` when the name has a dot, the name otherwise. */
  function Stem(name: string): (s: string)
    ensures s <= name
  {
    if '.' !in name then name
    else if name[|name| - 1] == '.' then name[..|name| - 1]
    else Stem'(name)
  }

  function Stem'(name: string): (s: string)
    requires '.' in name
    ensures s <= name && |s| < |name| && name[|s|] == '.' && '.' !in name[|s| + 1..]
  {
    if name[|name| - 1] == '.' then name[..|name| - 1] else Stem'(name[..|name| - 1])
  }

  /** The number of an upload name, digits being ASCII digits. */
  function NumberOf(name: string): Option<nat> {
    var stem := Stem(name);
    if AllDigits(stem) then Some(Number(stem)) else None
  }

  /** `f".{ext}"` or nothing. */
  predicate IsSuffix(suffix: string) {
    suffix == "" || (|suffix| > 1 && suffix[0] == '.' && '.' !in suffix[1..])
  }

  function NumberedName(n: nat, suffix: string): string {
    Decimal(n) + suffix
  }

  lemma DotsAfter(name: string, i: nat)
    requires i < |name|
    ensures forall j :: i < j < |name| && name[j] == '.' ==> '.' in name[i + 1..]
  {
    forall j | i < j < |name| && name[j] == '.'
      ensures '.' in name[i + 1..]
    {
      assert name[i + 1..][j - i - 1] == '.';
    }
  }

  lemma StemIs(stem: string, suffix: string)
    requires |suffix| > 0 && suffix[0] == '.' && '.' !in suffix[1..]
    ensures (stem + suffix)[|stem|] == '.' && Stem'(stem + suffix) == stem
  {
    var name := stem + suffix;
    assert name[|stem|] == '.' && name[|stem| + 1..] == suffix[1..];
    var s := Stem'(name);
    DotsAfter(name, |s|);
    DotsAfter(name, |stem|);
    assert name[..|stem|] == stem;
  }

  /** A numbered name is read back as its number. */
  lemma NumberOfName(n: nat, suffix: string)
    requires IsSuffix(suffix)
    ensures NumberOf(NumberedName(n, suffix)) == Some(n)
  {
    NumberOfDecimal(n);
    var name := NumberedName(n, suffix);
    if suffix == "" {
      assert name == Decimal(n);
    } else {
      StemIs(Decimal(n), suffix);
      assert name[|name| - 1] == suffix[|suffix| - 1] && suffix[|suffix| - 1] in suffix[1..];
      assert name[|Decimal(n)|] == '.';
    }
  }

  /** A name has a number exactly when it is digits, with or without a dot behind them and no dot after that one. */
  lemma NumberOfIff(name: string, n: nat)
    ensures NumberOf(name) == Some(n)
       <==> exists digits :: AllDigits(digits) && Number(digits) == n && IsWithExtension(name, digits)
  {
    if NumberOf(name) == Some(n) {
      assert IsWithExtension(name, Stem(name)) by {
        if '.' in name { StemSplits(name); }
      }
    }
    if digits :| AllDigits(digits) && Number(digits) == n && IsWithExtension(name, digits) {
      if name != digits {
        var suffix := name[|digits|..];
        assert name == digits + suffix;
        StemIs(digits, suffix);
      }
    }
  }

  predicate IsWithExtension(name: string, stem: string) {
    stem <= name && (name == stem || (name[|stem|] == '.' && '.' !in name[|stem| + 1..]))
  }

  lemma StemSplits(name: string)
    requires '.' in name
    ensures Stem(name) == Stem'(name) && |Stem(name)| < |name| && name[|Stem(name)|] == '.' && '.' !in name[|Stem(name)| + 1..]
  {
  }

  /** `h` is the greatest number among the names, 0 when there is none. */
  ghost predicate IsHighest(h: nat, names: set<string>) {
    && (forall name :: name in names && NumberOf(name).Some? ==> NumberOf(name).value <= h)
    && (h == 0 || exists name :: name in names && NumberOf(name) == Some(h))
  }

  ghost function Highest(names: set<string>): (h: nat)
    ensures IsHighest(h, names)
  {
    if names == {} then 0
    else
      var name :| name in names;
      var rest := Highest(names - {name});
      if NumberOf(name).Some? && NumberOf(name).value > rest then NumberOf(name).value else rest
  }

  lemma HighestIsUnique(h: nat, names: set<string>)
    requires IsHighest(h, names)
    ensures h == Highest(names)
  {
  }

  lemma HighestGrows(a: set<string>, b: set<string>)
    requires a <= b
    ensures Highest(a) <= Highest(b)
  {
  }

  /** `highest_upload_number` */
  method HighestUploadNumber(listing: seq<string>) returns (highest: nat)
    ensures IsHighest(highest, set name | name in listing)
  {
    hide NumberOf;
    highest := 0;
    var i := 0;
    while i < |listing|
      invariant i <= |listing| && IsHighest(highest, set name | name in listing[..i])
    {
      var n := NumberOf(listing[i]);
      assert listing[..i + 1] == listing[..i] + [listing[i]];
      if n.Some? && n.value > highest {
        highest := n.value;
      }
      i := i + 1;
    }
    assert listing[..i] == listing;
  }

  // ---------------------------------------------------------------- the tree of uploads

  datatype Place = Place(dir: string, name: string)

  datatype Info = Info(bytes: nat, mtime: int)

  /** The regular files under the root, and all other entries. */
  datatype UploadTree = UploadTree(files: map<Place, Info>, others: set<Place>) {
    function NamesIn(dir: string): set<string> {
      (set p | p in files && p.dir == dir :: p.name) + (set p | p in others && p.dir == dir :: p.name)
    }
  }

  // ---------------------------------------------------------------- retention

  const KEEP_MAX_FILES := 200
  const KEEP_MAX_BYTES := 500 * 1024 * 1024

  /** One row of `_entries`. */
  datatype Upload = Upload(place: Place, bytes: nat, mtime: int, guarded: bool)

  function Bytes(e: Upload): nat {
    e.bytes
  }

  function Row(tree: UploadTree, p: Place, protect: set<Place>): Upload
    requires p in tree.files
  {
    Upload(p, tree.files[p].bytes, tree.files[p].mtime, p in protect)
  }

  predicate WalksFiles(walk: seq<Place>, tree: UploadTree) {
    forall p :: p in walk ==> p in tree.files
  }

  /** The walk meets every file once. */
  ghost predicate ListsFiles(walk: seq<Place>, tree: UploadTree) {
    && WalksFiles(walk, tree)
    && (forall p :: p in tree.files ==> p in walk)
    && forall i, j :: 0 <= i < j < |walk| ==> walk[i] != walk[j]
  }

  /** The rows in the order of the walk. */
  function Rows(tree: UploadTree, walk: seq<Place>, protect: set<Place>): (r: seq<Upload>)
    requires WalksFiles(walk, tree)
    ensures |r| == |walk| && forall i :: 0 <= i < |walk| ==> r[i] == Row(tree, walk[i], protect)
  {
    seq(|walk|, i requires 0 <= i < |walk| => Row(tree, walk[i], protect))
  }

  /** The sort key `(mtime, name)`. */
  predicate Older(a: Upload, b: Upload) {
    OlderPair(a.mtime, a.place.name, b.mtime, b.place.name)
  }

  /** `sorted(entries, key=(mtime, name))` */
  function ByAge(rows: seq<Upload>): (r: seq<Upload>)
    ensures multiset(r) == multiset(rows)
  {
    SortWith(rows, Older)
  }

  /** `max` keeps the first of several greatest. */
  function FirstMax(s: seq<Upload>, better: (Upload, Upload) -> bool): (r: Upload)
    requires |s| > 0
    ensures r in s
  {
    if |s| == 1 then s[0]
    else
      var best := FirstMax(s[..|s| - 1], better);
      if better(s[|s| - 1], best) then s[|s| - 1] else best
  }

  function NumberedRow(e: Upload): bool {
    NumberOf(e.place.name).Some?
  }

  function RowNumber(e: Upload): nat {
    if NumberedRow(e) then NumberOf(e.place.name).value else 0
  }

  function HigherNumber(a: Upload, b: Upload): bool {
    RowNumber(a) > RowNumber(b) || (RowNumber(a) == RowNumber(b) && a.mtime > b.mtime)
  }

  function Newer(a: Upload, b: Upload): bool {
    Older(b, a)
  }

  function OfDir(dir: string): Upload -> bool {
    (e: Upload) => e.place.dir == dir
  }

  function InDir(s: seq<Upload>, dir: string): seq<Upload> {
    Select(s, OfDir(dir))
  }

  /** The row that a directory keeps whatever the limits: its highest number, or its newest file when none has one. */
  function AnchorOf(s: seq<Upload>, dir: string): (r: Upload)
    requires |InDir(s, dir)| > 0
    ensures r in s && r.place.dir == dir
  {
    var numbered := Select(InDir(s, dir), NumberedRow);
    SelectMembers(s, OfDir(dir));
    SelectMembers(InDir(s, dir), NumberedRow);
    if |numbered| > 0 then FirstMax(numbered, HigherNumber) else FirstMax(InDir(s, dir), Newer)
  }

  predicate IsAnchor(s: seq<Upload>, e: Upload) {
    |InDir(s, e.place.dir)| > 0 && AnchorOf(s, e.place.dir).place == e.place
  }

  predicate Pinned(s: seq<Upload>, e: Upload) {
    e.guarded || IsAnchor(s, e)
  }

  predicate Within(files: int, bytes: int) {
    files <= KEEP_MAX_FILES && bytes <= KEEP_MAX_BYTES
  }

  /** The planning loop over the rows still to come, with the running totals. */
  function PlanFrom(rows: seq<Upload>, all: seq<Upload>, files: int, bytes: int): (planned: seq<Upload>) {
    if |rows| == 0 then []
    else if Pinned(all, rows[0]) then PlanFrom(rows[1..], all, files, bytes)
    else if Within(files, bytes) then []
    else [rows[0]] + PlanFrom(rows[1..], all, files - 1, bytes - rows[0].bytes)
  }

  /** `retention`: the rows to remove. */
  function Planned(rows: seq<Upload>): seq<Upload> {
    PlanFrom(ByAge(rows), rows, |rows|, Total(rows, Bytes))
  }

  function PlacesOf(rows: seq<Upload>): set<Place> {
    set e | e in rows :: e.place
  }

  function Elsewhere(places: set<Place>): Upload -> bool {
    (e: Upload) => e.place !in places
  }

  /** The rows the report lists as kept. */
  function KeptRows(rows: seq<Upload>): seq<Upload> {
    Select(rows, Elsewhere(PlacesOf(Planned(rows))))
  }

  method Retention(rows: seq<Upload>) returns (planned: seq<Upload>)
    ensures planned == Planned(rows)
  {
    hide IsAnchor, ByAge;
    var files, bytes := |rows|, 0;
    var i := 0;
    while i < |rows|
      invariant i <= |rows| && Total(rows, Bytes) == bytes + Total(rows[i..], Bytes)
    {
      assert rows[i..][1..] == rows[i + 1..];
      bytes := bytes + rows[i].bytes;
      i := i + 1;
    }
    planned := [];
    var left, leftBytes := files, bytes as int;
    var sorted, k := ByAge(rows), 0;
    ghost var goal := PlanFrom(sorted, rows, left, leftBytes);
    while k < |sorted|
      invariant k <= |sorted| && goal == planned + PlanFrom(sorted[k..], rows, left, leftBytes)
    {
      assert sorted[k..][1..] == sorted[k + 1..];
      var e := sorted[k];
      if !Pinned(rows, e) {
        if Within(left, leftBytes) {
          return;
        }
        planned := planned + [e];
        left := left - 1;
        leftBytes := leftBytes - e.bytes;
      }
      k := k + 1;
    }
  }

  // ---------------------------------------------------------------- the code

  const MAX_TRIES := 200

  /** The first number after `base`, from the given attempt on, whose name is free; none when all tries fail. */
  function FirstFree(tree: UploadTree, dir: string, suffix: string, base: nat, attempt: nat): (r: Option<nat>)
    requires attempt <= MAX_TRIES
    ensures r.Some? ==> base + attempt < r.value <= base + MAX_TRIES && NumberedName(r.value, suffix) !in tree.NamesIn(dir)
    ensures r.Some? ==> forall n :: base + attempt < n < r.value ==> NumberedName(n, suffix) in tree.NamesIn(dir)
    ensures r.None? ==> forall n :: base + attempt < n <= base + MAX_TRIES ==> NumberedName(n, suffix) in tree.NamesIn(dir)
    decreases MAX_TRIES - attempt
  {
    var place := Place(dir, NumberedName(base + 1 + attempt, suffix));
    if attempt == MAX_TRIES then None
    else if place !in tree.files && place !in tree.others then Some(base + 1 + attempt)
    else FirstFree(tree, dir, suffix, base, attempt + 1)
  }

  /** The tree after a number is given out. */
  function Assigned(tree: UploadTree, dir: string, n: nat, suffix: string, info: Info): UploadTree {
    tree.(files := tree.files[Place(dir, NumberedName(n, suffix)) := info])
  }

  /** The tree after the planned rows are unlinked, except where unlinking fails. */
  function Pruned(tree: UploadTree, walk: seq<Place>, protect: set<Place>, stuck: set<Place>): UploadTree
    requires WalksFiles(walk, tree)
  {
    tree.(files := tree.files - (PlacesOf(Planned(Rows(tree, walk, protect))) - stuck))
  }

  class UploadStore {
    var tree: UploadTree

    constructor (initial: UploadTree)
      ensures tree == initial
    {
      tree := initial;
    }

    /** `write_upload` with `assign_number`; the listing may be older than the directory by the time names are tried. */
    method WriteUpload(dir: string, suffix: string, info: Info, listing: seq<string>) returns (number: Option<nat>)
      modifies this
      ensures number == FirstFree(old(tree), dir, suffix, Highest(set name | name in listing), 0)
      ensures tree == if number.Some? then Assigned(old(tree), dir, number.value, suffix, info) else old(tree)
      ensures number.Some? ==> tree.files == old(tree).files[Place(dir, NumberedName(number.value, suffix)) := info]
      ensures tree.others == old(tree).others
    {
      hide NumberOf, NumberedName, Highest, UploadTree.NamesIn;
      var base := HighestUploadNumber(listing);
      HighestIsUnique(base, set name | name in listing);
      var attempt := 0;
      while attempt < MAX_TRIES
        invariant attempt <= MAX_TRIES && tree == old(tree)
        invariant FirstFree(tree, dir, suffix, base, 0) == FirstFree(tree, dir, suffix, base, attempt)
      {
        var n := base + 1 + attempt;
        var place := Place(dir, NumberedName(n, suffix));
        if place !in tree.files && place !in tree.others {
          tree := tree.(files := tree.files[place := info]);
          return Some(n);
        }
        attempt := attempt + 1;
      }
      return None;
    }

    /** `prune`: unlinks exactly what `retention` planned; `stuck` are the places where unlinking fails. */
    method Prune(walk: seq<Place>, protect: set<Place>, stuck: set<Place>) returns (deleted: seq<Place>, failed: seq<Place>)
      requires ListsFiles(walk, tree)
      modifies this
      ensures tree == Pruned(old(tree), walk, protect, stuck)
      ensures (set p | p in deleted) == PlacesOf(Planned(Rows(old(tree), walk, protect))) - stuck
      ensures (set p | p in failed) == PlacesOf(Planned(Rows(old(tree), walk, protect))) * stuck
      ensures |deleted| + |failed| == |Planned(Rows(old(tree), walk, protect))|
      ensures tree.others == old(tree).others && tree.files == old(tree).files - (set p | p in deleted)
    {
      hide Planned, Rows, PlacesOf;
      var planned := Retention(Rows(tree, walk, protect));
      deleted, failed := [], [];
      var i := 0;
      NoPlaces();
      while i < |planned|
        invariant i <= |planned| && tree.others == old(tree.others)
        invariant tree.files == old(tree.files) - (PlacesOf(planned[..i]) - stuck)
        invariant (set p | p in deleted) == PlacesOf(planned[..i]) - stuck
        invariant (set p | p in failed) == PlacesOf(planned[..i]) * stuck
        invariant |deleted| + |failed| == i
      {
        var place := planned[i].place;
        PlacesPush(planned, i);
        Collected(deleted, place);
        Collected(failed, place);
        if place in stuck {
          failed := failed + [place];
        } else {
          tree := tree.(files := tree.files - {place});
          deleted := deleted + [place];
        }
        i := i + 1;
      }
      assert planned[..i] == planned;
    }
  }

  lemma Collected(places: seq<Place>, p: Place)
    ensures (set q | q in places + [p]) == (set q | q in places) + {p}
  {
  }

  lemma NoPlaces()
    ensures PlacesOf([]) == {}
  {
  }

  lemma PlacesPush(rows: seq<Upload>, i: nat)
    requires i < |rows|
    ensures PlacesOf(rows[..0]) == {}
    ensures PlacesOf(rows[..i + 1]) == PlacesOf(rows[..i]) + {rows[i].place}
  {
    assert rows[..i + 1] == rows[..i] + [rows[i]];
  }
}
