/**
 The workspace as a tree: paths to nodes, each node carrying the inode number it keeps for life.
 Symbolic links are not part of this model.
 */
module Tree {
  import opened Bytes

  type Path = seq<string>

  datatype Node = Dir(inode: nat) | File(inode: nat, bytes: ByteString)

  type Tree = map<Path, Node>

  /** The tree and the next unused inode number. */
  datatype State = State(tree: Tree, next: nat)

  predicate IsDirAt(t: Tree, p: Path) {
    p in t && t[p].Dir?
  }

  function Parent(p: Path): Path
    requires |p| > 0
  {
    p[..|p| - 1]
  }

  function Base(p: Path): string
    requires |p| > 0
  {
    p[|p| - 1]
  }

  predicate IsName(name: string) {
    name != "" && name != "." && name != ".." && '/' !in name
  }

  /** The directory above every entry exists, and the entry has a proper name. */
  ghost predicate Rooted(t: Tree) {
    && IsDirAt(t, [])
    && forall p {:trigger Parent(p)} :: p in t && p != [] ==> IsDirAt(t, Parent(p)) && IsName(Base(p))
  }

  /** Every inode number in use is below `next` and in use at one path only. */
  ghost predicate InodesDistinct(t: Tree, next: nat) {
    && (forall p :: p in t ==> t[p].inode < next)
    && forall p, q :: p in t && q in t && t[p].inode == t[q].inode ==> p == q
  }

  ghost predicate WellFormed(s: State) {
    Rooted(s.tree) && InodesDistinct(s.tree, s.next)
  }

  ghost predicate Holds(t: Tree, node: Node) {
    exists q :: q in t && t[q] == node
  }

  /** Every node is still somewhere, with its inode and its bytes; `WellFormed` makes the place unique. */
  ghost predicate Conserves(s: State, s': State) {
    && s.next <= s'.next
    && forall p :: p in s.tree ==> Holds(s'.tree, s.tree[p])
  }

  /** The entry at `p`, when there is one, is the same entry afterwards. */
  ghost predicate StaysAt(s: State, s': State, p: Path) {
    p in s.tree ==> p in s'.tree && s'.tree[p] == s.tree[p]
  }

  lemma ConservesTransitive(a: State, b: State, c: State)
    requires Conserves(a, b) && Conserves(b, c)
    ensures Conserves(a, c)
  {
    forall p | p in a.tree
      ensures Holds(c.tree, a.tree[p])
    {
      var q :| q in b.tree && b.tree[q] == a.tree[p];
      assert Holds(c.tree, b.tree[q]);
    }
  }

  // ---------------------------------------------------------------- creating

  /** A new node at `p`, with the next inode number. */
  function Add(s: State, p: Path, node: Node): State
    requires node.inode == s.next
  {
    State(s.tree[p := node], s.next + 1)
  }

  ghost predicate CanCreate(s: State, p: Path) {
    WellFormed(s) && |p| > 0 && p !in s.tree && IsDirAt(s.tree, Parent(p)) && IsName(Base(p))
  }

  /** Nothing that was there changes. */
  ghost predicate Extends(s: State, s': State) {
    s.next <= s'.next && forall p :: p in s.tree ==> p in s'.tree && s'.tree[p] == s.tree[p]
  }

  lemma AddKeepsRooted(t: Tree, p: Path, node: Node)
    requires Rooted(t) && |p| > 0 && p !in t && IsDirAt(t, Parent(p)) && IsName(Base(p))
    ensures Rooted(t[p := node])
  {
    hide IsName;
    var t' := t[p := node];
    forall q | q in t' && q != []
      ensures IsDirAt(t', Parent(q)) && IsName(Base(q))
    {
      if q != p {
        assert q in t;
      }
    }
  }

  lemma AddKeepsDistinct(t: Tree, next: nat, p: Path, node: Node)
    requires InodesDistinct(t, next) && p !in t && node.inode == next
    ensures InodesDistinct(t[p := node], next + 1)
  {
  }

  lemma AddExtends(s: State, p: Path, node: Node)
    requires CanCreate(s, p) && node.inode == s.next
    ensures WellFormed(Add(s, p, node)) && Extends(s, Add(s, p, node))
  {
    hide IsName, Rooted, InodesDistinct;
    AddKeepsRooted(s.tree, p, node);
    AddKeepsDistinct(s.tree, s.next, p, node);
  }

  lemma ExtendsConserves(s: State, s': State)
    requires Extends(s, s')
    ensures Conserves(s, s')
    ensures forall p :: StaysAt(s, s', p)
  {
    forall p | p in s.tree
      ensures Holds(s'.tree, s.tree[p])
    {
      assert p in s'.tree && s'.tree[p] == s.tree[p];
    }
  }

  // ---------------------------------------------------------------- moving a subtree

  /** `p` after the subtree at `from` has been renamed to `to`. */
  function Moved(p: Path, from: Path, to: Path): Path {
    if from <= p then to + p[|from|..] else p
  }

  lemma MovedBack(s: State, p: Path, from: Path, to: Path)
    requires CanRelocate(s, from, to) && p in s.tree
    ensures Moved(Moved(p, from, to), to, from) == p
  {
    if from <= p {
      assert Moved(p, from, to)[|to|..] == p[|from|..];
      assert from + p[|from|..] == p;
    } else if to <= p {
      NothingBelowAbsent(s, to, p);
    }
  }

  /** The situation in which the code renames: the target is free and outside the source. */
  ghost predicate CanRelocate(s: State, from: Path, to: Path) {
    && WellFormed(s)
    && |from| > 0 && from in s.tree
    && |to| > 0 && to !in s.tree && IsDirAt(s.tree, Parent(to)) && IsName(Base(to))
    && !(from <= to)
  }

  lemma {:induction false} NothingBelowAbsent(s: State, at: Path, p: Path)
    requires WellFormed(s) && at !in s.tree && at <= p
    ensures p !in s.tree
    decreases |p|
  {
    hide IsName;
    if p in s.tree && p != at {
      NothingBelowAbsent(s, at, Parent(p));
    }
  }

  lemma AllMovedBack(s: State, from: Path, to: Path)
    requires CanRelocate(s, from, to)
    ensures forall p :: p in s.tree ==> Moved(Moved(p, from, to), to, from) == p
  {
    forall p | p in s.tree
      ensures Moved(Moved(p, from, to), to, from) == p
    {
      MovedBack(s, p, from, to);
    }
  }

  /** The effect of `os.rename`: the node at `from` and everything below it now hang from `to`. */
  function Relocate(t: Tree, from: Path, to: Path): Tree
    requires forall p :: p in t ==> Moved(Moved(p, from, to), to, from) == p
  {
    map q | q in (set p | p in t :: Moved(p, from, to)) :: t[Moved(q, to, from)]
  }

  function RelocateState(s: State, from: Path, to: Path): State
    requires CanRelocate(s, from, to)
  {
    AllMovedBack(s, from, to);
    s.(tree := Relocate(s.tree, from, to))
  }

  /** What a relocation does to the node at one path. */
  lemma RelocateAt(s: State, from: Path, to: Path, p: Path)
    requires CanRelocate(s, from, to) && p in s.tree
    ensures var t := RelocateState(s, from, to).tree;
      Moved(p, from, to) in t && t[Moved(p, from, to)] == s.tree[p]
  {
    hide Moved, CanRelocate;
    AllMovedBack(s, from, to);
  }

  /** Where the node now at `q` came from. */
  lemma RelocatedFrom(s: State, from: Path, to: Path, q: Path)
    requires CanRelocate(s, from, to) && q in RelocateState(s, from, to).tree
    ensures var p := Moved(q, to, from);
      p in s.tree && Moved(p, from, to) == q && RelocateState(s, from, to).tree[q] == s.tree[p]
  {
    hide Moved, CanRelocate;
    AllMovedBack(s, from, to);
  }

  lemma PrefixOfParent(p: Path, from: Path)
    requires |p| > 0
    ensures from <= Parent(p) ==> from <= p
  {
  }

  lemma MovedParent(p: Path, from: Path, to: Path)
    requires |p| > 0 && p != from && |to| > 0
    ensures |Moved(p, from, to)| > 0
    ensures Moved(Parent(p), from, to) == Parent(Moved(p, from, to))
    ensures Base(Moved(p, from, to)) == Base(p)
  {
    if from <= p {
      assert from <= Parent(p);
      assert Parent(p)[|from|..] == p[|from|..][..|p| - |from| - 1];
    } else {
      PrefixOfParent(p, from);
    }
  }

  lemma RelocateKeepsParents(s: State, from: Path, to: Path, q: Path)
    requires CanRelocate(s, from, to) && q in RelocateState(s, from, to).tree && q != []
    ensures IsDirAt(RelocateState(s, from, to).tree, Parent(q)) && IsName(Base(q))
  {
    hide IsName, RelocateState;
    var p := Moved(q, to, from);
    RelocatedFrom(s, from, to, q);
    if p == from {
      assert q == to;
      PrefixOfParent(to, from);
      RelocateAt(s, from, to, Parent(to));
    } else {
      RootStays(from, to);
      assert IsDirAt(s.tree, Parent(p)) && IsName(Base(p));
      MovedParent(p, from, to);
      RelocateAt(s, from, to, Parent(p));
    }
  }

  lemma RelocateIsWellFormed(s: State, from: Path, to: Path)
    requires CanRelocate(s, from, to)
    ensures WellFormed(RelocateState(s, from, to))
  {
    hide IsName, Moved;
    var s' := RelocateState(s, from, to);
    var t := s'.tree;
    RootStays(from, to);
    RelocateAt(s, from, to, []);
    forall q | q in t && q != []
      ensures IsDirAt(t, Parent(q)) && IsName(Base(q))
    {
      RelocateKeepsParents(s, from, to, q);
    }
    forall q | q in t
      ensures t[q].inode < s'.next
    {
      RelocatedFrom(s, from, to, q);
    }
    forall a, b | a in t && b in t && t[a].inode == t[b].inode
      ensures a == b
    {
      RelocatedFrom(s, from, to, a);
      RelocatedFrom(s, from, to, b);
    }
  }

  lemma RootStays(from: Path, to: Path)
    ensures |from| > 0 ==> Moved([], from, to) == []
  {
  }

  lemma RelocateConserves(s: State, from: Path, to: Path)
    requires CanRelocate(s, from, to)
    ensures Conserves(s, RelocateState(s, from, to))
    ensures forall p :: p in s.tree && !(from <= p) ==> StaysAt(s, RelocateState(s, from, to), p)
  {
    hide RelocateState;
    forall p | p in s.tree
      ensures Holds(RelocateState(s, from, to).tree, s.tree[p])
      ensures !(from <= p) ==> StaysAt(s, RelocateState(s, from, to), p)
    {
      RelocateAt(s, from, to, p);
    }
    RelocateKeepsNext(s, from, to);
  }

  lemma RelocateKeepsNext(s: State, from: Path, to: Path)
    requires CanRelocate(s, from, to)
    ensures RelocateState(s, from, to).next == s.next
  {
  }

  lemma CanRelocateBack(s: State, from: Path, to: Path)
    requires CanRelocate(s, from, to)
    ensures CanRelocate(RelocateState(s, from, to), to, from)
  {
    hide IsName, RelocateState;
    var t := RelocateState(s, from, to).tree;
    RelocateIsWellFormed(s, from, to);
    RelocateAt(s, from, to, from);
    assert Moved(from, from, to) == to;
    assert !(to <= from) by {
      if to <= from { NothingBelowAbsent(s, to, from); }
    }
    assert from !in t by {
      if from in t { RelocatedFrom(s, from, to, from); }
    }
    assert from != [] && IsDirAt(s.tree, Parent(from)) && IsName(Base(from));
    RelocateAt(s, from, to, Parent(from));
    assert Moved(Parent(from), from, to) == Parent(from);
  }

  /** Renaming back restores the tree exactly. */
  lemma RelocateUndoes(s: State, from: Path, to: Path)
    requires CanRelocate(s, from, to)
    ensures CanRelocate(RelocateState(s, from, to), to, from)
    ensures RelocateState(RelocateState(s, from, to), to, from) == s
  {
    hide RelocateState, Moved, CanRelocate;
    CanRelocateBack(s, from, to);
    var s' := RelocateState(s, from, to);
    var s'' := RelocateState(s', to, from);
    RelocateKeepsNext(s, from, to);
    RelocateKeepsNext(s', to, from);
    AllMovedBack(s, from, to);
    forall p | p in s.tree
      ensures p in s''.tree && s''.tree[p] == s.tree[p]
    {
      RelocateAt(s, from, to, p);
      RelocateAt(s', to, from, Moved(p, from, to));
    }
    forall q | q in s''.tree
      ensures q in s.tree
    {
      RelocatedFrom(s', to, from, q);
      RelocatedFrom(s, from, to, Moved(q, from, to));
    }
    assert s''.tree == s.tree;
  }
}
