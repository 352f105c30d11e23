/**
 The `.plans` tree as the two scanners of the manifest see it: `_walk_plan_entries` and `_collect_reviews`, which
 build the manifest, and `_manifest_watermark`, which decides whether a cached one may be served instead.
 */
module PlanTree {
  import opened Wrappers
  import opened PlanGrammar
  import opened PlanNames

  const MAX_DEPTH := 16
  const MAX_ENTRIES := 2_000

  datatype Review = Review(decision: string, note: string, updatedAt: Option<real>, version: Option<nat>)

  /** A file holds its decoded text and the review its JSON denotes, if it does; a link knows what it resolves to. */
  datatype Node =
    | Folder(mtime: int, entries: seq<Item>)
    | File(mtime: int, size: nat, text: string, review: Option<Review>)
    | Link(target: Option<Node>)
    | Special(mtime: int, size: nat)

  datatype Item = Item(name: string, node: Node)

  type Path = seq<string>

  /** `as_posix` of a relative path. */
  function PathText(path: Path): string {
    if |path| == 0 then "." else Joined(path)
  }

  function Joined(path: Path): string
    requires |path| > 0
  {
    if |path| == 1 then path[0] else Joined(path[..|path| - 1]) + "/" + path[|path| - 1]
  }

  // ---------------------------------------------------------------- names

  const REVIEWS := ".reviews"

  predicate StartsWith(name: string, prefix: string) {
    prefix <= name
  }

  predicate EndsWith(name: string, suffix: string) {
    |suffix| <= |name| && name[|name| - |suffix|..] == suffix
  }

  predicate Hidden(name: string) {
    StartsWith(name, ".")
  }

  /** `_is_temporary_name` */
  predicate Temporary(name: string) {
    EndsWith(name, "~") || StartsWith(name, ".#") || StartsWith(name, "~$")
    || EndsWith(name, ".tmp") || EndsWith(name, ".swp") || EndsWith(name, ".bak")
  }

  predicate IsSummary(name: string) {
    EndsWith(name, "-summary.md")
  }

  // ---------------------------------------------------------------- the walk

  datatype Candidate = Candidate(directory: Path, slug: string, version: nat, size: nat, mtime: int, text: string) {
    function Identity(): string {
      if |directory| == 0 then slug else Joined(directory) + "/" + slug
    }
  }

  datatype Reason = TooMany | HiddenSegment | TemporaryFile | SymbolicLink | TooDeep | BadFolderName | NotRegular | BadFileName

  datatype Warning = Warning(path: Path, reason: Reason)

  /** What `_walk_plan_entries` accumulates; `go` is false once the entry limit has stopped it. */
  datatype Walked = Walked(candidates: seq<Candidate>, ignored: nat, warnings: seq<Warning>, total: nat, go: bool) {
    function Ignore(path: Path, reason: Reason): Walked {
      this.(ignored := ignored + 1, warnings := warnings + [Warning(path, reason)])
    }
  }

  /** One entry of a folder. */
  function WalkItem(f: Node, i: nat, path: Path, depth: nat, s: Walked): Walked
    requires f.Folder? && i < |f.entries|
    decreases f, |f.entries| - i, 0
  {
    var Item(name, node) := f.entries[i];
    var here, s := path + [name], s.(total := s.total + 1);
    if s.total > MAX_ENTRIES then s.Ignore(here, TooMany).(go := false)
    else if name == REVIEWS then s
    else if Hidden(name) then s.Ignore(here, HiddenSegment)
    else if Temporary(name) then s.Ignore(here, TemporaryFile)
    else
      match node
      case Link(_) => s.Ignore(here, SymbolicLink)
      case Special(_, _) => s.Ignore(here, NotRegular)
      case Folder(_, _) =>
        if depth + 1 > MAX_DEPTH then s.Ignore(here, TooDeep)
        else if !IsSlug(name) then s.Ignore(here, BadFolderName)
        else WalkItems(node, 0, here, depth + 1, s)
      case File(mtime, size, text, _) =>
        if IsSummary(name) then s
        else
          match ParseName(name)
          case None => s.Ignore(here, BadFileName)
          case Some(p) => s.(candidates := s.candidates + [Candidate(path, p.slug, p.version, size, mtime, text)])
  }

  /** The entries of a folder from `i` on, until the walk is stopped. */
  function WalkItems(f: Node, i: nat, path: Path, depth: nat, s: Walked): Walked
    requires f.Folder? && i <= |f.entries|
    decreases f, |f.entries| - i, 1
  {
    if i == |f.entries| then s
    else
      var s1 := WalkItem(f, i, path, depth, s);
      if s1.go then WalkItems(f, i + 1, path, depth, s1) else s1
  }

  const NOTHING_WALKED := Walked([], 0, [], 0, true)

  /** `_walk_plan_entries` */
  function Walk(root: Node): Walked
    requires root.Folder?
  {
    WalkItems(root, 0, [], 0, NOTHING_WALKED)
  }

  // ---------------------------------------------------------------- the reviews

  const JSON := ".json"

  type Reviews = map<string, Review>

  /** The identity under which a review file is read, if any. */
  function ReviewIdentity(path: Path): Option<string>
    requires |path| > 0
  {
    var text := Joined(path);
    if EndsWith(text, JSON) && |text| > |JSON| && text[0] != '/' && IsIdentity(text[..|text| - |JSON|])
    then Some(text[..|text| - |JSON|]) else None
  }

  const MAX_FILE_SIZE := 1_024 * 1_024

  function CollectItem(f: Node, i: nat, path: Path, depth: nat, out: Reviews): Reviews
    requires f.Folder? && i < |f.entries|
    decreases f, |f.entries| - i, 0
  {
    var Item(name, node) := f.entries[i];
    if node.Link? || Hidden(name) || Temporary(name) then out
    else if node.Folder? then
      if depth + 1 > MAX_DEPTH || !IsSlug(name) then out else CollectItems(node, 0, path + [name], depth + 1, out)
    else if !node.File? || !EndsWith(name, JSON) then out
    else
      var identity := ReviewIdentity(path + [name]);
      if identity.None? || node.size > MAX_FILE_SIZE || node.review.None? then out
      else out[identity.value := node.review.value]
  }

  /** `_collect_reviews` from entry `i` on */
  function CollectItems(f: Node, i: nat, path: Path, depth: nat, out: Reviews): Reviews
    requires f.Folder? && i <= |f.entries|
    decreases f, |f.entries| - i, 1
  {
    if i == |f.entries| then out else CollectItems(f, i + 1, path, depth, CollectItem(f, i, path, depth, out))
  }

  /** The entry of that name. */
  function Find(entries: seq<Item>, name: string): (r: Option<Node>)
    ensures r.Some? ==> exists i :: 0 <= i < |entries| && entries[i] == Item(name, r.value)
    ensures r.None? ==> forall i :: 0 <= i < |entries| ==> entries[i].name != name
  {
    if |entries| == 0 then None else if entries[0].name == name then Some(entries[0].node) else Find(entries[1..], name)
  }

  /** `read_reviews`: nothing unless `.reviews` is a folder. */
  function ReadReviews(root: Node): Reviews
    requires root.Folder?
  {
    var reviews := Find(root.entries, REVIEWS);
    if reviews.Some? && reviews.value.Folder? then CollectItems(reviews.value, 0, [], 0, map[]) else map[]
  }

  // ---------------------------------------------------------------- the watermark

  datatype Kind = D | F | R

  datatype Part = Part(kind: Kind, path: string, mtime: int, number: nat)

  /** What a path leads to once links are followed. */
  function Resolve(node: Node): (r: Option<Node>)
    ensures r.Some? ==> !r.value.Link?
    ensures !node.Link? ==> r == Some(node)
  {
    if node.Link? then (if node.target.None? then None else Resolve(node.target.value)) else Some(node)
  }

  function FoldItem(f: Node, i: nat, path: Path, depth: nat): seq<Part>
    requires f.Folder? && i < |f.entries|
    decreases f, |f.entries| - i, 0
  {
    var Item(name, node) := f.entries[i];
    var here := path + [name];
    match node
    case Link(_) => []
    case File(mtime, size, _, _) => [Part(R, PathText(here), mtime, size)]
    case Special(mtime, size) => [Part(R, PathText(here), mtime, size)]
    case Folder(mtime, entries) =>
      [Part(R, PathText(here), mtime, 0)]
      + (if depth + 1 <= MAX_DEPTH
         then [Part(R, PathText(here), mtime, |entries|)] + FoldItems(node, 0, here, depth + 1) else [])
  }

  function FoldItems(f: Node, i: nat, path: Path, depth: nat): seq<Part>
    requires f.Folder? && i <= |f.entries|
    decreases f, |f.entries| - i, 1
  {
    if i == |f.entries| then [] else FoldItem(f, i, path, depth) + FoldItems(f, i + 1, path, depth)
  }

  /** `fold_reviews` on an entry named `.reviews`: a missing target adds nothing, a target that is no folder fails. */
  function FoldTop(node: Node, path: Path, depth: nat): Option<seq<Part>> {
    match Resolve(node)
    case None => Some([])
    case Some(target) =>
      if !target.Folder? then None
      else Some([Part(R, PathText(path), target.mtime, |target.entries|)] + FoldItems(target, 0, path, depth))
  }

  /** The parts and the entry count, or none once the walk has failed. */
  datatype Marks = Marks(parts: seq<Part>, total: nat)

  function MarkItem(f: Node, i: nat, path: Path, depth: nat, m: Marks): Option<Marks>
    requires f.Folder? && i < |f.entries|
    decreases f, |f.entries| - i, 0
  {
    var Item(name, node) := f.entries[i];
    var here, m := path + [name], m.(total := m.total + 1);
    if m.total > MAX_ENTRIES then None
    else if name == REVIEWS then
      match FoldTop(node, here, depth + 1)
      case None => None
      case Some(parts) => Some(m.(parts := m.parts + parts))
    else if Hidden(name) || Temporary(name) then Some(m)
    else
      match node
      case Link(_) => Some(m)
      case Special(_, _) => Some(m)
      case Folder(mtime, entries) =>
        if depth + 1 > MAX_DEPTH || !IsSlug(name) then Some(m)
        else MarkItems(node, 0, here, depth + 1, m.(parts := m.parts + [Part(D, PathText(here), mtime, |entries|)]))
      case File(mtime, size, _, _) =>
        if ParseName(name).None? then Some(m)
        else Some(m.(parts := m.parts + [Part(F, PathText(here), mtime, size)]))
  }

  function MarkItems(f: Node, i: nat, path: Path, depth: nat, m: Marks): Option<Marks>
    requires f.Folder? && i <= |f.entries|
    decreases f, |f.entries| - i, 1
  {
    if i == |f.entries| then Some(m)
    else
      match MarkItem(f, i, path, depth, m)
      case None => None
      case Some(m1) => MarkItems(f, i + 1, path, depth, m1)
  }

  function RootPart(root: Node): Part
    requires root.Folder?
  {
    Part(D, PathText([]), root.mtime, |root.entries|)
  }

  /** The sorted tuple of parts: which parts occur, and how often. */
  type Watermark = multiset<Part>

  /** `_manifest_watermark` */
  function WatermarkOf(root: Node): Option<Watermark>
    requires root.Folder?
  {
    match MarkItems(root, 0, [], 0, Marks([RootPart(root)], 0))
    case None => None
    case Some(m) => Some(multiset(m.parts))
  }
}
