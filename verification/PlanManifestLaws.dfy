/** What the manifest says about the tree: every plan file once, newest first, and never a collision. */
module PlanManifestLaws {
  import opened Wrappers
  import opened Sorting
  import opened PlanGrammar
  import opened PlanNames
  import opened PlanTree
  import opened PlanWatermark
  import opened PlanManifest

  /** Where a candidate's file lies. */
  function Place(c: Candidate): Path {
    c.directory + [FileName(c)]
  }

  /** A candidate found at or below entry `i` of the folder at `path`. */
  ghost predicate FoundAt(c: Candidate, f: Node, i: nat, path: Path)
    requires f.Folder?
  {
    && path <= c.directory && (forall name :: name in c.directory ==> IsSlug(name))
    && IsSlug(c.slug) && 1 <= c.version < VERSION_LIMIT
    && exists j :: i <= j < |f.entries| && Place(c)[|path|] == f.entries[j].name
  }

  ghost predicate PlacesDistinct(cs: seq<Candidate>) {
    forall i, j :: 0 <= i < j < |cs| ==> Place(cs[i]) != Place(cs[j])
  }

  /** `after` extends `before` by candidates found from entry `i` on, at distinct places. */
  ghost predicate Extends(before: Walked, after: Walked, f: Node, i: nat, path: Path)
    requires f.Folder?
  {
    && before.candidates <= after.candidates
    && PlacesDistinct(after.candidates[|before.candidates|..])
    && forall c :: c in after.candidates[|before.candidates|..] ==> FoundAt(c, f, i, path)
  }

  ghost predicate Slugs(path: Path) {
    forall name :: name in path ==> IsSlug(name)
  }

  lemma {:induction false} WalkItemsExtend(f: Node, i: nat, path: Path, depth: nat, s: Walked)
    requires f.Folder? && WellFormed(f) && i <= |f.entries| && Slugs(path)
    ensures Extends(s, WalkItems(f, i, path, depth, s), f, i, path)
    decreases f, |f.entries| - i
  {
    hide IsSlug, ParseName, Hidden, Temporary, IsSummary, PlanName, FoundAt, REVIEWS;
    if i < |f.entries| {
      var s1 := WalkItem(f, i, path, depth, s);
      var Item(name, node) := f.entries[i];
      if node.Folder? && IsSlug(name) {
        WalkItemsExtend(node, 0, path + [name], depth + 1, s.(total := s.total + 1));
      }
      WalkItemExtends(f, i, path, depth, s);
      if s1.go {
        WalkItemsExtend(f, i + 1, path, depth, s1);
        Chain(s, s1, WalkItems(f, i + 1, path, depth, s1), f, i, path);
      } else {
        Widen(s, s1, f, i, path);
      }
    }
  }

  /** One entry adds candidates whose places go through its name. */
  ghost predicate ExtendsHere(before: Walked, after: Walked, f: Node, i: nat, path: Path)
    requires f.Folder? && i < |f.entries|
  {
    && before.candidates <= after.candidates
    && PlacesDistinct(after.candidates[|before.candidates|..])
    && forall c :: c in after.candidates[|before.candidates|..] ==> FoundAt(c, f, i, path) && Place(c)[|path|] == f.entries[i].name
  }

  lemma WalkItemExtends(f: Node, i: nat, path: Path, depth: nat, s: Walked)
    requires f.Folder? && WellFormed(f) && i < |f.entries| && Slugs(path)
    requires var Item(name, node) := f.entries[i];
      node.Folder? && IsSlug(name) ==>
        var s' := s.(total := s.total + 1);
        Extends(s', WalkItems(node, 0, path + [name], depth + 1, s'), node, 0, path + [name])
    ensures ExtendsHere(s, WalkItem(f, i, path, depth, s), f, i, path)
  {
    hide IsSlug, ParseName, Hidden, Temporary, IsSummary, PlanName, WalkItems, REVIEWS;
    var Item(name, node) := f.entries[i];
    var s1 := WalkItem(f, i, path, depth, s);
    var added := s1.candidates[|s.candidates|..];
    if node.Folder? && IsSlug(name) {
      forall c | c in added
        ensures FoundAt(c, f, i, path) && Place(c)[|path|] == name
      {
        assert c.directory[..|path| + 1] == path + [name];
        assert c.directory[|path|] == name;
        assert path <= c.directory;
      }
    } else if node.File? && ParseName(name).Some? {
      PlanNameOfParse(name);
      var p := ParseName(name).value;
      var c := Candidate(path, p.slug, p.version, node.size, node.mtime, node.text);
      assert added == [c] || added == [];
      assert Place(c)[|path|] == name;
    }
  }

  lemma Widen(before: Walked, after: Walked, f: Node, i: nat, path: Path)
    requires f.Folder? && i < |f.entries| && ExtendsHere(before, after, f, i, path)
    ensures Extends(before, after, f, i, path)
  {
    hide FoundAt, PlacesDistinct;
  }

  lemma Chain(a: Walked, b: Walked, c: Walked, f: Node, i: nat, path: Path)
    requires f.Folder? && WellFormed(f) && i < |f.entries|
    requires ExtendsHere(a, b, f, i, path) && Extends(b, c, f, i + 1, path)
    ensures Extends(a, c, f, i, path)
  {
    var first, rest := b.candidates[|a.candidates|..], c.candidates[|b.candidates|..];
    var all := c.candidates[|a.candidates|..];
    assert all == first + rest;
    forall x, y | x in first && y in rest
      ensures Place(x) != Place(y)
    {
      var j :| i + 1 <= j < |f.entries| && Place(y)[|path|] == f.entries[j].name;
      StringOrderIsStrict(f.entries[i].name, f.entries[j].name);
    }
    forall m, n | 0 <= m < n < |all|
      ensures Place(all[m]) != Place(all[n])
    {
      if m < |first| <= n {
        assert all[m] in first && all[n] in rest;
      }
    }
    forall x | x in all
      ensures FoundAt(x, f, i, path)
    {
      if x in rest {
        assert FoundAt(x, f, i + 1, path);
      }
    }
  }

  // ---------------------------------------------------------------- identities

  lemma SlugIsValidName(s: string)
    requires IsSlug(s)
    ensures ValidName(s)
  {
    SlugChars(s);
    hide IsSlug;
    assert s[0] != '.' && forall c :: c in s ==> IsWordChar(c) || c == '-';
  }

  lemma KeyDeterminesPlace(c: Candidate, d: Candidate)
    requires Slugs(c.directory) && IsSlug(c.slug) && Slugs(d.directory) && IsSlug(d.slug)
    requires KeyOf(c) == KeyOf(d)
    ensures c.directory == d.directory && Place(c) == Place(d)
  {
    hide IsSlug, PlanName;
    IdentityIsJoined(c);
    IdentityIsJoined(d);
    var p, q := c.directory + [c.slug], d.directory + [d.slug];
    forall name | name in p || name in q
      ensures ValidName(name)
    {
      SlugIsValidName(name);
    }
    PathTextIsInjective(p, q);
    assert p[..|c.directory|] == c.directory && q[..|d.directory|] == d.directory;
    assert p[|c.directory|] == c.slug && q[|d.directory|] == d.slug;
  }

  lemma IdentityIsJoined(c: Candidate)
    ensures c.Identity() == Joined(c.directory + [c.slug])
  {
    var p := c.directory + [c.slug];
    assert p[..|p| - 1] == c.directory;
  }

  ghost predicate KeysDistinct(cs: seq<Candidate>) {
    forall i, j :: 0 <= i < j < |cs| ==> KeyOf(cs[i]) != KeyOf(cs[j])
  }

  lemma WalkedKeysAreDistinct(root: Node)
    requires root.Folder? && WellFormed(root)
    ensures KeysDistinct(Walk(root).candidates)
  {
    hide IsSlug, PlanName, WalkItems, KeyOf;
    WalkItemsExtend(root, 0, [], 0, NOTHING_WALKED);
    var cs := Walk(root).candidates;
    assert cs[0..] == cs;
    forall i, j | 0 <= i < j < |cs|
      ensures KeyOf(cs[i]) != KeyOf(cs[j])
    {
      assert FoundAt(cs[i], root, 0, []) && FoundAt(cs[j], root, 0, []);
      if KeyOf(cs[i]) == KeyOf(cs[j]) {
        KeyDeterminesPlace(cs[i], cs[j]);
      }
    }
  }

  lemma {:induction false} OneOfAKey(cs: seq<Candidate>, c: Candidate)
    requires KeysDistinct(cs) && c in cs
    ensures WithKey(cs, KeyOf(c)) == [c]
  {
    hide KeyOf;
    if c == cs[0] {
      NoneOfAKey(cs[1..], KeyOf(c));
    } else {
      OneOfAKey(cs[1..], c);
    }
  }

  lemma {:induction false} NoneOfAKey(cs: seq<Candidate>, key: Key)
    requires forall c :: c in cs ==> KeyOf(c) != key
    ensures WithKey(cs, key) == []
  {
    if |cs| > 0 {
      NoneOfAKey(cs[1..], key);
    }
  }

  lemma {:induction false} OutsideNothing(cs: seq<Candidate>)
    ensures Outside(cs, {}) == cs
  {
    if |cs| > 0 {
      OutsideNothing(cs[1..]);
    }
  }

  lemma {:induction false} NoSortedCollisions(cs: seq<Candidate>, all: seq<Candidate>)
    requires Collisions(all) == {}
    ensures SortedCollisions(cs, all) == []
  {
    if |cs| > 0 {
      NoSortedCollisions(cs[1..], all);
    }
  }

  /** On a directory tree two plan files never claim the same version of the same plan, so the whole collision
      handling of `scan_plans` has nothing to do. */
  lemma TreesHaveNoCollisions(root: Node)
    requires root.Folder? && WellFormed(root)
    ensures FreshManifest(root).collisions == {} && FreshManifest(root).ignored == Walk(root).ignored
    ensures KeysDistinct(Walk(root).candidates)
    ensures Outside(Walk(root).candidates, {}) == Walk(root).candidates
  {
    WalkedKeysAreDistinct(root);
    hide Walk, KeyOf, WithKey;
    var cs := Walk(root).candidates;
    forall c | c in cs
      ensures |WithKey(cs, KeyOf(c))| == 1
    {
      OneOfAKey(cs, c);
    }
    assert Collisions(cs) == {};
    NoSortedCollisions(cs, cs);
    OutsideNothing(cs);
  }

  // ---------------------------------------------------------------- the manifest lists each plan once

  ghost predicate NewestFirstOrder(cs: seq<Candidate>) {
    forall i, j :: 0 <= i < j < |cs| ==> cs[i].version >= cs[j].version
  }

  lemma NewestFirstOrders(cs: seq<Candidate>)
    ensures NewestFirstOrder(NewestFirst(cs))
  {
    assert IsOrder(HigherVersion);
    SortOrders(cs, HigherVersion);
  }

  lemma NewestFirstMembers(cs: seq<Candidate>)
    ensures forall d :: d in NewestFirst(cs) <==> d in cs
  {
    SortMembers(cs, HigherVersion);
  }

  /** The newest of several candidates of the plan. */
  ghost predicate IsDraft(cs: seq<Candidate>, c: Candidate) {
    && (forall d :: d in cs && d.Identity() == c.Identity() ==> d.version <= c.version)
    && exists d :: d in cs && d.Identity() == c.Identity() && d != c
  }

  lemma SameKeySame(cs: seq<Candidate>, c: Candidate, d: Candidate)
    requires KeysDistinct(cs) && c in cs && d in cs && KeyOf(c) == KeyOf(d)
    ensures c == d
  {
  }

  lemma GroupFinds(cs: seq<Candidate>, c: Candidate)
    requires KeysDistinct(cs) && c in cs && |OfIdentity(cs, c.Identity())| > 0
    ensures FirstVersion(GroupOf(cs, c.Identity()).versions, c.version) == Some(VersionOf(c, IsDraft(cs, c)))
  {
    var id := c.Identity();
    var of := OfIdentity(cs, id);
    var items := NewestFirst(of);
    NewestFirstMembers(of);
    NewestFirstOrders(of);
    hide NewestFirst, OfIdentity, FieldsOf, FileName, Candidate.Identity;
    assert c in items;
    var i :| 0 <= i < |items| && items[i] == c;
    ItemsUnique(cs, items, id, i);
    VersionsFind(items, VersionsOf(items), i);
    DraftIff(cs, items, id, i);
  }

  lemma ItemsUnique(cs: seq<Candidate>, items: seq<Candidate>, id: string, i: nat)
    requires KeysDistinct(cs) && NewestFirstOrder(items) && i < |items|
    requires forall d :: d in items <==> d in cs && d.Identity() == id
    requires |items| == |OfIdentity(cs, id)| && multiset(items) == multiset(OfIdentity(cs, id))
    ensures forall k :: 0 <= k < |items| && items[k].version == items[i].version ==> k == i
  {
    hide NewestFirstOrder;
    forall k | 0 <= k < |items| && items[k].version == items[i].version
      ensures k == i
    {
      assert items[k] in items && items[i] in items;
      SameKeySame(cs, items[k], items[i]);
      if k != i {
        OnlyOnce(cs, id, items[i]);
        TwiceCounts(items, if k < i then k else i, if k < i then i else k);
      }
    }
  }

  lemma {:induction false} OnlyOnce(cs: seq<Candidate>, id: string, c: Candidate)
    requires KeysDistinct(cs)
    ensures multiset(OfIdentity(cs, id))[c] <= 1
  {
    hide KeyOf, Candidate.Identity;
    if |cs| > 0 {
      OnlyOnce(cs[1..], id, c);
      if cs[0] == c {
        assert c !in cs[1..];
        assert c !in OfIdentity(cs[1..], id);
      }
    }
  }

  lemma {:induction false} VersionsFind(items: seq<Candidate>, versions: seq<PlanVersion>, i: nat)
    requires i < |items| == |versions|
    requires forall k :: 0 <= k < |items| ==> versions[k].version == items[k].version
    requires forall k :: 0 <= k < |items| && items[k].version == items[i].version ==> k == i
    ensures FirstVersion(versions, items[i].version) == Some(versions[i])
  {
    if i > 0 {
      assert forall k :: 0 <= k < |items[1..]| && items[1..][k].version == items[1..][i - 1].version ==> k + 1 == i;
      VersionsFind(items[1..], versions[1..], i - 1);
    }
  }

  lemma DraftIff(cs: seq<Candidate>, items: seq<Candidate>, id: string, i: nat)
    requires NewestFirstOrder(items) && i < |items|
    requires forall d :: d in items <==> d in cs && d.Identity() == id
    requires forall k :: 0 <= k < |items| && items[k].version == items[i].version ==> k == i
    ensures IsDraft(cs, items[i]) <==> |items| > 1 && i == 0
  {
    assert items[i] in items;
    if |items| > 1 && i == 0 {
      assert items[1] in items;
      forall d | d in cs && d.Identity() == id
        ensures d.version <= items[0].version
      {
        assert d in items;
      }
    }
    if IsDraft(cs, items[i]) {
      assert items[0] in items;
    }
  }

  lemma {:induction false} PlansFind(cs: seq<Candidate>, ids: seq<string>, id: string, version: nat)
    requires forall x :: x in ids ==> |OfIdentity(cs, x)| > 0
    ensures VersionIn(GroupsOf(cs, ids), id, version)
         == if id in ids then FirstVersion(GroupOf(cs, id).versions, version) else None
  {
    hide OfIdentity, GroupOf, FirstVersion;
    if |ids| > 0 {
      PlansFind(cs, ids[1..], id, version);
      assert GroupsOf(cs, ids)[1..] == GroupsOf(cs, ids[1..]);
      GroupIdentity(cs, ids[0]);
    }
  }

  lemma GroupIdentity(cs: seq<Candidate>, id: string)
    requires |OfIdentity(cs, id)| > 0
    ensures GroupOf(cs, id).identity == id
  {
  }

  /** The manifest finds exactly the plan files of the tree, each with its own data, and marks as draft exactly the
      newest of several versions. */
  lemma ManifestFinds(root: Node, c: Candidate)
    requires root.Folder? && WellFormed(root) && c in Walk(root).candidates
    ensures VersionFor(FreshManifest(root), c.Identity(), c.version)
         == Some(VersionOf(c, IsDraft(Walk(root).candidates, c)))
  {
    var cs := Walk(root).candidates;
    TreesHaveNoCollisions(root);
    IdentitiesHaveGroups(cs);
    hide Walk, OfIdentity, Candidate.Identity, FirstVersion, GroupOf, IdentitiesOf, SortStrings, IsDraft, KeysDistinct;
    IdentityListed(cs, c);
    PlansFind(cs, SortStrings(IdentitiesOf(cs)), c.Identity(), c.version);
    GroupFinds(cs, c);
  }

  lemma IdentityListed(cs: seq<Candidate>, c: Candidate)
    requires c in cs
    ensures c.Identity() in SortStrings(IdentitiesOf(cs))
  {
    SortedStringsDistinct(IdentitiesOf(cs));
  }

  /** Whatever the manifest finds is a plan file of the tree. */
  lemma ManifestFindsOnly(root: Node, identity: string, version: nat)
    requires root.Folder? && WellFormed(root) && VersionFor(FreshManifest(root), identity, version).Some?
    ensures exists c :: c in Walk(root).candidates && c.Identity() == identity && c.version == version
  {
    var cs := Walk(root).candidates;
    TreesHaveNoCollisions(root);
    IdentitiesHaveGroups(cs);
    hide Walk, OfIdentity, Candidate.Identity, IdentitiesOf, SortStrings, KeysDistinct;
    PlansFind(cs, SortStrings(IdentitiesOf(cs)), identity, version);
    var of := OfIdentity(cs, identity);
    var items := NewestFirst(of);
    NewestFirstMembers(of);
    var k := FirstIsThere(VersionsOf(items), version);
    assert items[k] in of;
  }

  lemma {:induction false} FirstIsThere(versions: seq<PlanVersion>, version: nat) returns (k: nat)
    requires FirstVersion(versions, version).Some?
    ensures k < |versions| && versions[k].version == version
  {
    if versions[0].version == version {
      k := 0;
    } else {
      k := FirstIsThere(versions[1..], version);
      k := k + 1;
    }
  }
}
