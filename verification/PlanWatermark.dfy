/** Why the watermark is enough: two trees with the same watermark look the same to the scanners. */
module PlanWatermark {
  import opened Wrappers
  import opened Strings
  import opened Sorting
  import opened PlanGrammar
  import opened PlanNames
  import opened PlanTree

  // ---------------------------------------------------------------- trees

  predicate ValidName(name: string) {
    |name| > 0 && '/' !in name && name != "."
  }

  /** Names as a directory listing has them, sorted and distinct. */
  predicate WellFormed(node: Node) {
    match node
    case Folder(_, entries) =>
      && (forall i :: 0 <= i < |entries| ==> ValidName(entries[i].name) && WellFormed(entries[i].node))
      && (forall i, j :: 0 <= i < j < |entries| ==> StringLess(entries[i].name, entries[j].name))
    case Link(target) => target.Some? ==> WellFormed(target.value)
    case File(_, _, _, _) => true
    case Special(_, _) => true
  }

  predicate SameKind(a: Node, b: Node) {
    a.Folder? == b.Folder? && a.File? == b.File? && a.Link? == b.Link?
  }

  predicate SameListing(a: Node, b: Node)
    requires a.Folder? && b.Folder?
  {
    |a.entries| == |b.entries|
    && forall i :: 0 <= i < |a.entries| ==> a.entries[i].name == b.entries[i].name && SameKind(a.entries[i].node, b.entries[i].node)
  }

  /** What the file system is trusted for, at every path of both trees: modification time and entry count fix a folder's
      listing, modification time and size fix a file's content. */
  predicate Coherent(a: Node, b: Node) {
    && (a.Folder? && b.Folder? && a.mtime == b.mtime && |a.entries| == |b.entries| ==>
          SameListing(a, b) && forall i :: 0 <= i < |a.entries| ==> Coherent(a.entries[i].node, b.entries[i].node))
    && (a.File? && b.File? && a.mtime == b.mtime && a.size == b.size ==> a == b)
  }

  /** The node at a path, links followed on the way. */
  function NodeAt(node: Node, path: Path): Option<Node>
    decreases |path|
  {
    if |path| == 0 then Some(node)
    else
      var at := NodeAt(node, path[..|path| - 1]);
      if at.None? then None
      else
        var folder := Resolve(at.value);
        if folder.Some? && folder.value.Folder? then Find(folder.value.entries, path[|path| - 1]) else None
  }

  lemma {:induction false} FindAt(f: Node, i: nat)
    requires WellFormed(f) && f.Folder? && i < |f.entries|
    ensures Find(f.entries, f.entries[i].name) == Some(f.entries[i].node)
  {
    var r := Find(f.entries, f.entries[i].name);
    if r.Some? {
      var j :| 0 <= j < |f.entries| && f.entries[j] == Item(f.entries[i].name, r.value);
      if i < j {
        StringOrderIsStrict(f.entries[i].name, f.entries[j].name);
      } else if j < i {
        StringOrderIsStrict(f.entries[j].name, f.entries[i].name);
      }
    }
  }

  lemma ChildAt(root: Node, path: Path, f: Node, at: Node, i: nat)
    requires NodeAt(root, path) == Some(at) && Resolve(at) == Some(f) && WellFormed(f) && f.Folder? && i < |f.entries|
    ensures NodeAt(root, path + [f.entries[i].name]) == Some(f.entries[i].node)
  {
    FindAt(f, i);
    assert (path + [f.entries[i].name])[..|path|] == path;
  }

  // ---------------------------------------------------------------- paths

  predicate ValidPath(path: Path) {
    forall name :: name in path ==> ValidName(name)
  }

  lemma {:induction false} JoinedIsSplit(path: Path)
    requires |path| > 0 && ValidPath(path)
    ensures Split(Joined(path), '/') == path
  {
    if |path| == 1 {
      assert path[0] in path;
      SplitWhole(path[0], '/');
      assert path == [path[0]];
    } else {
      hide Split;
      var front, last := path[..|path| - 1], path[|path| - 1];
      assert last in path;
      JoinedIsSplit(front);
      SplitWhole(last, '/');
      SplitConcat(Joined(front), last, '/');
      assert path == front + [last];
    }
  }

  /** The text of a path says which path it is. */
  lemma PathTextIsInjective(p: Path, q: Path)
    requires ValidPath(p) && ValidPath(q) && PathText(p) == PathText(q)
    ensures p == q
  {
    if |p| > 0 {
      JoinedIsSplit(p);
    }
    if |q| > 0 {
      JoinedIsSplit(q);
    }
    if |p| == 0 && |q| > 0 {
      OnlyTheRootIsDot(q);
    }
    if |q| == 0 && |p| > 0 {
      OnlyTheRootIsDot(p);
    }
  }

  lemma OnlyTheRootIsDot(p: Path)
    requires ValidPath(p) && |p| > 0
    ensures Joined(p) != "."
  {
    JoinedIsSplit(p);
    SplitWhole(".", '/');
    assert p[0] in p;
  }

  // ---------------------------------------------------------------- where parts come from

  /** The parts below a folder, without the limits. */
  function MarksOfItem(f: Node, i: nat, path: Path, depth: nat): seq<Part>
    requires f.Folder? && i < |f.entries|
    decreases f, |f.entries| - i, 0
  {
    var Item(name, node) := f.entries[i];
    var here := path + [name];
    if name == REVIEWS then (var parts := FoldTop(node, here, depth + 1); if parts.None? then [] else parts.value)
    else if Hidden(name) || Temporary(name) then []
    else
      match node
      case Link(_) => []
      case Special(_, _) => []
      case Folder(mtime, entries) =>
        if depth + 1 > MAX_DEPTH || !IsSlug(name) then []
        else [Part(D, PathText(here), mtime, |entries|)] + MarksBelow(node, 0, here, depth + 1)
      case File(mtime, size, _, _) => if ParseName(name).None? then [] else [Part(F, PathText(here), mtime, size)]
  }

  function MarksBelow(f: Node, i: nat, path: Path, depth: nat): seq<Part>
    requires f.Folder? && i <= |f.entries|
    decreases f, |f.entries| - i, 1
  {
    if i == |f.entries| then [] else MarksOfItem(f, i, path, depth) + MarksBelow(f, i + 1, path, depth)
  }

  lemma {:induction false} MarkItemsAdd(f: Node, i: nat, path: Path, depth: nat, m: Marks)
    requires f.Folder? && i <= |f.entries|
    ensures MarkItems(f, i, path, depth, m).Some? ==>
              MarkItems(f, i, path, depth, m).value.parts == m.parts + MarksBelow(f, i, path, depth)
    decreases f, |f.entries| - i
  {
    hide FoldTop, PathText, ParseName, IsSlug, Hidden, Temporary, REVIEWS;
    if i < |f.entries| {
      var Item(name, node) := f.entries[i];
      var here := path + [name];
      var m1 := MarkItem(f, i, path, depth, m);
      if node.Folder? {
        MarkItemsAdd(node, 0, here, depth + 1,
                     Marks(m.parts + [Part(D, PathText(here), node.mtime, |node.entries|)], m.total + 1));
      }
      if m1.Some? {
        assert m1.value.parts == m.parts + MarksOfItem(f, i, path, depth);
        MarkItemsAdd(f, i + 1, path, depth, m1.value);
      }
    }
  }

  predicate Describes(p: Part, node: Node) {
    match p.kind
    case D => node.Folder? && p.mtime == node.mtime && p.number == |node.entries|
    case F => node.File? && p.mtime == node.mtime && p.number == node.size
    case R =>
      var r := Resolve(node);
      && r.Some? && !r.value.Link? && p.mtime == r.value.mtime
      && (if r.value.Folder? then p.number == |r.value.entries| || p.number == 0 else p.number == r.value.size)
  }

  /** The part is about a node of the tree, at a path spelt out in it. */
  ghost predicate ComesFrom(p: Part, root: Node) {
    exists path :: IsAbout(p, root, path)
  }

  ghost predicate IsAbout(p: Part, root: Node, path: Path) {
    ValidPath(path) && p.path == PathText(path) && NodeAt(root, path).Some? && Describes(p, NodeAt(root, path).value)
  }

  lemma {:induction false} FoldsComeFrom(root: Node, f: Node, at: Node, i: nat, path: Path, depth: nat)
    requires NodeAt(root, path) == Some(at) && Resolve(at) == Some(f) && WellFormed(f) && f.Folder? && i <= |f.entries|
    requires ValidPath(path)
    ensures forall p :: p in FoldItems(f, i, path, depth) ==> ComesFrom(p, root)
    decreases f, |f.entries| - i
  {
    hide PathText, NodeAt;
    if i < |f.entries| {
      FoldsComeFrom(root, f, at, i + 1, path, depth);
      var Item(name, node) := f.entries[i];
      var here := path + [name];
      ChildAt(root, path, f, at, i);
      if node.Folder? && depth + 1 <= MAX_DEPTH {
        FoldsComeFrom(root, node, node, 0, here, depth + 1);
      }
      forall p | p in FoldItem(f, i, path, depth)
        ensures ComesFrom(p, root)
      {
        if p.path == PathText(here) && Describes(p, node) {
          assert IsAbout(p, root, here);
        }
      }
    }
  }

  lemma {:induction false} ResolveWellFormed(node: Node)
    requires WellFormed(node)
    ensures Resolve(node).Some? ==> WellFormed(Resolve(node).value)
  {
    if node.Link? && node.target.Some? {
      ResolveWellFormed(node.target.value);
    }
  }

  lemma {:induction false} MarksComeFrom(root: Node, f: Node, i: nat, path: Path, depth: nat)
    requires NodeAt(root, path) == Some(f) && WellFormed(f) && f.Folder? && i <= |f.entries| && ValidPath(path)
    ensures forall p :: p in MarksBelow(f, i, path, depth) ==> ComesFrom(p, root)
    decreases f, |f.entries| - i
  {
    hide PathText, NodeAt, ParseName, IsSlug, Hidden, Temporary, REVIEWS, FoldItems;
    if i < |f.entries| {
      MarksComeFrom(root, f, i + 1, path, depth);
      var Item(name, node) := f.entries[i];
      var here := path + [name];
      ChildAt(root, path, f, f, i);
      var target := Resolve(node);
      ResolveWellFormed(node);
      if target.Some? && target.value.Folder? {
        FoldsComeFrom(root, target.value, node, 0, here, depth + 1);
      }
      if node.Folder? && name != REVIEWS {
        MarksComeFrom(root, node, 0, here, depth + 1);
      }
      forall p | p in MarksOfItem(f, i, path, depth)
        ensures ComesFrom(p, root)
      {
        if p.path == PathText(here) && Describes(p, node) {
          assert IsAbout(p, root, here);
        }
      }
    }
  }

  /** All the parts of a tree, the root's included. */
  function AllMarks(root: Node): seq<Part>
    requires root.Folder?
  {
    [RootPart(root)] + MarksBelow(root, 0, [], 0)
  }

  lemma WatermarkIsMarks(root: Node)
    requires root.Folder? && WellFormed(root)
    ensures WatermarkOf(root).Some? ==> WatermarkOf(root).value == multiset(AllMarks(root))
    ensures forall p :: p in AllMarks(root) ==> ComesFrom(p, root)
  {
    MarkItemsAdd(root, 0, [], 0, Marks([RootPart(root)], 0));
    MarksComeFrom(root, root, 0, [], 0);
    assert IsAbout(RootPart(root), root, []);
  }

  /** A part found in another tree's watermark describes the node at the same path there. */
  lemma DescribesThere(p: Part, root: Node, path: Path, node: Node)
    requires ComesFrom(p, root) && ValidPath(path) && p.path == PathText(path) && NodeAt(root, path) == Some(node)
    ensures Describes(p, node)
  {
    hide PathText, NodeAt;
    var q :| IsAbout(p, root, q);
    PathTextIsInjective(q, path);
  }
}
