/** The manifest built from a scan: collisions, groups, versions newest first, headers, reviews. */
module PlanManifest {
  import opened Wrappers
  import opened Sorting
  import opened PlanNames
  import opened PlanHeader
  import opened PlanTree
  import opened PlanWatermark

  type Key = (string, nat)

  datatype HeaderStatus = Legacy | Fine | Malformed | Mismatch

  datatype HeaderFields = HeaderFields(
    status: HeaderStatus, version: Option<nat>, identity: Option<string>, parent: Option<nat>, slug: Option<string>)

  datatype PlanStatus = Draft | Approved

  datatype PlanVersion = PlanVersion(version: nat, directory: Path, name: string, size: nat, mtime: int,
                                     status: PlanStatus, header: HeaderFields)

  datatype PlanGroup = PlanGroup(identity: string, directory: Path, slug: string, versions: seq<PlanVersion>)

  datatype Remark = Scanned(warning: PlanTree.Warning) | Collides(identity: string, version: nat) | BadHeader(path: Path)

  datatype Manifest = Manifest(plans: seq<PlanGroup>, ignored: nat, warnings: seq<Remark>, collisions: set<Key>,
                               reviews: Reviews)

  // ---------------------------------------------------------------- headers

  const HEADER_READ_BYTES := 4_096

  function FirstPart(text: string): string {
    if |text| <= HEADER_READ_BYTES then text else text[..HEADER_READ_BYTES]
  }

  /** `_header_fields`, without the warning, which goes with the statuses `Malformed` and `Mismatch`. */
  function FieldsOf(c: Candidate): HeaderFields {
    var h := ParsePlanHeader(FirstPart(c.text));
    if h.status.Absent? then HeaderFields(Legacy, None, None, None, None)
    else
      var status := if h.status.Invalid? then Malformed
                    else if h.version != Some(c.version) || h.identity != c.Identity() then Mismatch else Fine;
      HeaderFields(status, h.version, if h.identity == "" then None else Some(h.identity), h.parent, h.slug)
  }

  function FileName(c: Candidate): string {
    PlanName(c.version, c.slug)
  }

  // ---------------------------------------------------------------- keys

  function KeyOf(c: Candidate): Key {
    (c.Identity(), c.version)
  }

  function WithKey(cs: seq<Candidate>, key: Key): (r: seq<Candidate>)
    ensures forall c :: c in r <==> c in cs && KeyOf(c) == key
  {
    if |cs| == 0 then []
    else if KeyOf(cs[0]) == key then [cs[0]] + WithKey(cs[1..], key) else WithKey(cs[1..], key)
  }

  /** The keys that more than one candidate has. */
  function Collisions(cs: seq<Candidate>): set<Key> {
    set c | c in cs && |WithKey(cs, KeyOf(c))| > 1 :: KeyOf(c)
  }

  /** The candidates outside `keys`. */
  function Outside(cs: seq<Candidate>, keys: set<Key>): (r: seq<Candidate>)
    ensures forall c :: c in r <==> c in cs && KeyOf(c) !in keys
  {
    if |cs| == 0 then []
    else if KeyOf(cs[0]) in keys then Outside(cs[1..], keys) else [cs[0]] + Outside(cs[1..], keys)
  }

  predicate KeyLess(a: Key, b: Key) {
    StringLess(a.0, b.0) || (a.0 == b.0 && a.1 < b.1)
  }

  function InsertKey(key: Key, keys: seq<Key>): seq<Key> {
    if |keys| == 0 || KeyLess(key, keys[0]) then [key] + keys
    else if key == keys[0] then keys
    else [keys[0]] + InsertKey(key, keys[1..])
  }

  /** `sorted(collisions)` */
  function SortedCollisions(cs: seq<Candidate>, all: seq<Candidate>): seq<Key> {
    if |cs| == 0 then []
    else
      var rest := SortedCollisions(cs[1..], all);
      if KeyOf(cs[0]) in Collisions(all) then InsertKey(KeyOf(cs[0]), rest) else rest
  }

  function CollisionRemarks(keys: seq<Key>): seq<Remark> {
    seq(|keys|, i requires 0 <= i < |keys| => Collides(keys[i].0, keys[i].1))
  }

  function CollisionCount(cs: seq<Candidate>, keys: seq<Key>): nat {
    if |keys| == 0 then 0 else |WithKey(cs, keys[0])| + CollisionCount(cs, keys[1..])
  }

  function HeaderRemarks(cs: seq<Candidate>): seq<Remark> {
    if |cs| == 0 then []
    else (if FieldsOf(cs[0]).status in {Malformed, Mismatch} then [BadHeader(cs[0].directory + [FileName(cs[0])])] else [])
         + HeaderRemarks(cs[1..])
  }

  // ---------------------------------------------------------------- groups

  function OfIdentity(cs: seq<Candidate>, identity: string): (r: seq<Candidate>)
    ensures forall c :: c in r <==> c in cs && c.Identity() == identity
  {
    if |cs| == 0 then []
    else if cs[0].Identity() == identity then [cs[0]] + OfIdentity(cs[1..], identity) else OfIdentity(cs[1..], identity)
  }

  function IdentitiesOf(cs: seq<Candidate>): (ids: seq<string>)
    ensures forall id :: id in ids <==> exists c :: c in cs && c.Identity() == id
    ensures forall i, j :: 0 <= i < j < |ids| ==> ids[i] != ids[j]
  {
    if |cs| == 0 then []
    else
      var ids, last := IdentitiesOf(cs[..|cs| - 1]), cs[|cs| - 1];
      assert cs == cs[..|cs| - 1] + [last];
      if last.Identity() in ids then ids else ids + [last.Identity()]
  }

  predicate HigherVersion(a: Candidate, b: Candidate) {
    a.version > b.version
  }

  /** `sorted(…, key=version, reverse=True)` */
  function NewestFirst(cs: seq<Candidate>): (r: seq<Candidate>)
    ensures multiset(r) == multiset(cs) && |r| == |cs|
  {
    var r := SortWith(cs, HigherVersion);
    assert |multiset(r)| == |multiset(cs)|;
    r
  }

  function VersionOf(c: Candidate, draft: bool): PlanVersion {
    PlanVersion(c.version, c.directory, FileName(c), c.size, c.mtime, if draft then Draft else Approved, FieldsOf(c))
  }

  /** The newest of several versions is a draft, all others are approved. */
  function VersionsOf(cs: seq<Candidate>): (r: seq<PlanVersion>)
    ensures |r| == |cs|
    ensures forall i :: 0 <= i < |cs| ==> r[i] == VersionOf(cs[i], |cs| > 1 && i == 0)
  {
    seq(|cs|, i requires 0 <= i < |cs| => VersionOf(cs[i], |cs| > 1 && i == 0))
  }

  function GroupOf(cs: seq<Candidate>, identity: string): PlanGroup
    requires |OfIdentity(cs, identity)| > 0
  {
    var items := NewestFirst(OfIdentity(cs, identity));
    PlanGroup(identity, items[0].directory, items[0].slug, VersionsOf(items))
  }

  function GroupsOf(cs: seq<Candidate>, ids: seq<string>): (r: seq<PlanGroup>)
    requires forall id :: id in ids ==> |OfIdentity(cs, id)| > 0
    ensures |r| == |ids|
    ensures forall i :: 0 <= i < |ids| ==> r[i] == GroupOf(cs, ids[i])
  {
    seq(|ids|, i requires 0 <= i < |ids| => GroupOf(cs, ids[i]))
  }

  lemma IdentitiesHaveGroups(cs: seq<Candidate>)
    ensures forall id :: id in SortStrings(IdentitiesOf(cs)) ==> |OfIdentity(cs, id)| > 0
  {
    SortedStringsDistinct(IdentitiesOf(cs));
    hide SortStrings, OfIdentity, IdentitiesOf;
    forall id | id in SortStrings(IdentitiesOf(cs))
      ensures |OfIdentity(cs, id)| > 0
    {
      assert id in IdentitiesOf(cs);
      var c :| c in cs && c.Identity() == id;
      assert c in OfIdentity(cs, id);
    }
  }

  function ScanRemarks(warnings: seq<PlanTree.Warning>): seq<Remark> {
    seq(|warnings|, i requires 0 <= i < |warnings| => Scanned(warnings[i]))
  }

  /** The manifest of what was scanned. */
  function Build(w: Walked, reviews: Reviews): Manifest {
    var collisions := Collisions(w.candidates);
    var keys := SortedCollisions(w.candidates, w.candidates);
    var kept := Outside(w.candidates, collisions);
    var ids := SortStrings(IdentitiesOf(kept));
    IdentitiesHaveGroups(kept);
    Manifest(GroupsOf(kept, ids), w.ignored + CollisionCount(w.candidates, keys),
             ScanRemarks(w.warnings) + CollisionRemarks(keys) + HeaderRemarks(kept), collisions, reviews)
  }

  /** The manifest `scan_plans` builds when no cached one is served. */
  function FreshManifest(root: Node): Manifest
    requires root.Folder?
  {
    Build(Walk(root), ReadReviews(root))
  }

  /** `version_for` */
  function VersionFor(m: Manifest, identity: string, version: nat): Option<PlanVersion> {
    VersionIn(m.plans, identity, version)
  }

  function VersionIn(plans: seq<PlanGroup>, identity: string, version: nat): Option<PlanVersion> {
    if |plans| == 0 then None
    else if plans[0].identity == identity then FirstVersion(plans[0].versions, version)
    else VersionIn(plans[1..], identity, version)
  }

  function FirstVersion(versions: seq<PlanVersion>, version: nat): Option<PlanVersion> {
    if |versions| == 0 then None
    else if versions[0].version == version then Some(versions[0]) else FirstVersion(versions[1..], version)
  }
}
