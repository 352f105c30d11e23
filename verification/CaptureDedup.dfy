/** Screenshots of a session: a free name for each, and one file for repeated content while its hash is remembered. */
module CaptureDedup {
  import opened Wrappers
  import opened Strings

  const CAPTURE_DEDUP_LRU := 256

  // ---------------------------------------------------------------- names

  /** A file is known by the hash of its content. */
  type Files = map<string, string>

  const LAST_INDEX := 999

  /** The candidates: the plain name, then `-2` up to `-999`. */
  function Candidate(stem: string, extension: string, index: nat): string {
    if index < 2 then stem + "." + extension else stem + "-" + Decimal(index) + "." + extension
  }

  function Fallback(stem: string, extension: string, now: nat): string {
    stem + "-" + Decimal(now) + "." + extension
  }

  /** The first free candidate from `index` on, or the time-stamped name when there is none. */
  function PathFrom(files: Files, stem: string, extension: string, now: nat, index: nat): string
    requires 1 <= index <= LAST_INDEX + 1
    decreases LAST_INDEX + 1 - index
  {
    if index > LAST_INDEX then Fallback(stem, extension, now)
    else if Candidate(stem, extension, index) !in files then Candidate(stem, extension, index)
    else PathFrom(files, stem, extension, now, index + 1)
  }

  /** `_new_path` for a known session; `stem` holds the directory, session, step and key. */
  function NewPath(files: Files, stem: string, extension: string, now: nat): string {
    PathFrom(files, stem, extension, now, 1)
  }

  // ---------------------------------------------------------------- remembered hashes

  datatype Entry = Entry(sha: string, path: string)

  /** An `OrderedDict` from hash to path, oldest first. */
  type Bucket = seq<Entry>

  function Lookup(b: Bucket, sha: string): (r: Option<string>)
    ensures r.Some? ==> Entry(sha, r.value) in b
    ensures r.None? ==> forall e :: e in b ==> e.sha != sha
  {
    if |b| == 0 then None else if b[0].sha == sha then Some(b[0].path) else Lookup(b[1..], sha)
  }

  function Drop(b: Bucket, sha: string): Bucket {
    if |b| == 0 then [] else if b[0].sha == sha then Drop(b[1..], sha) else [b[0]] + Drop(b[1..], sha)
  }

  function Newest(b: Bucket): (r: Bucket)
    ensures |r| <= CAPTURE_DEDUP_LRU
  {
    if |b| > CAPTURE_DEDUP_LRU then b[|b| - CAPTURE_DEDUP_LRU..] else b
  }

  /** `_dedup_remember` */
  function Remember(b: Bucket, e: Entry): Bucket {
    Newest(Drop(b, e.sha) + [e])
  }

  // ---------------------------------------------------------------- one capture

  /** The session directory and kind of a capture. */
  datatype Key = Key(sid8: string, kind: string)

  type Buckets = map<Key, Bucket>

  function BucketOf(buckets: Buckets, key: Key): Bucket {
    if key in buckets then buckets[key] else []
  }

  datatype Shot = Shot(key: Key, stem: string, extension: string, now: nat, sha: string)

  datatype Store = Store(files: Files, buckets: Buckets)

  datatype Finished = Finished(path: string, duplicate: bool)

  /** A screenshot is written to its new path and then finished by `_finish_image`. */
  function Take(s: Store, shot: Shot): (Finished, Store) {
    var path := NewPath(s.files, shot.stem, shot.extension, shot.now);
    var written := s.files[path := shot.sha];
    var earlier := if shot.sha == "" then None else Lookup(BucketOf(s.buckets, shot.key), shot.sha);
    if earlier.Some? && earlier.value != path && earlier.value in written then
      (Finished(earlier.value, true), Store(written - {path}, s.buckets))
    else if shot.sha == "" then (Finished(path, false), Store(written, s.buckets))
    else (Finished(path, false),
          Store(written, s.buckets[shot.key := Remember(BucketOf(s.buckets, shot.key), Entry(shot.sha, path))]))
  }

  // ---------------------------------------------------------------- the code

  class CaptureStore {
    var files: Files
    var buckets: Buckets

    constructor ()
      ensures Abstract() == Store(map[], map[])
    {
      files, buckets := map[], map[];
    }

    function Abstract(): Store
      reads this
    {
      Store(files, buckets)
    }

    method FreePath(stem: string, extension: string, now: nat) returns (path: string)
      ensures path == NewPath(files, stem, extension, now)
    {
      hide Candidate, Fallback;
      path := Candidate(stem, extension, 1);
      if path !in files { return; }
      var index := 2;
      while index <= LAST_INDEX
        invariant 2 <= index <= LAST_INDEX + 1
        invariant NewPath(files, stem, extension, now) == PathFrom(files, stem, extension, now, index)
      {
        path := Candidate(stem, extension, index);
        if path !in files { return; }
        index := index + 1;
      }
      path := Fallback(stem, extension, now);
    }

    method DedupRemember(key: Key, sha: string, path: string)
      requires sha != ""
      modifies this`buckets
      ensures buckets == old(buckets)[key := Remember(BucketOf(old(buckets), key), Entry(sha, path))]
    {
      var bucket := Drop(BucketOf(buckets, key), sha) + [Entry(sha, path)];
      ghost var whole := bucket;
      while |bucket| > CAPTURE_DEDUP_LRU
        invariant |bucket| <= |whole| && bucket == whole[|whole| - |bucket|..]
        invariant |whole| > CAPTURE_DEDUP_LRU ==> |bucket| >= CAPTURE_DEDUP_LRU
        invariant |whole| <= CAPTURE_DEDUP_LRU ==> bucket == whole
      {
        bucket := bucket[1..];
      }
      buckets := buckets[key := bucket];
    }

    method TakeShot(shot: Shot) returns (r: Finished)
      modifies this
      ensures (r, Abstract()) == Take(old(Abstract()), shot)
    {
      hide NewPath, Remember, Lookup;
      var path := FreePath(shot.stem, shot.extension, shot.now);
      files := files[path := shot.sha];
      var earlier := None;
      if shot.sha != "" {
        earlier := Lookup(BucketOf(buckets, shot.key), shot.sha);
      }
      if earlier.Some? && earlier.value != path && earlier.value in files {
        files := files - {path};
        return Finished(earlier.value, true);
      }
      if shot.sha != "" {
        DedupRemember(shot.key, shot.sha, path);
      }
      return Finished(path, false);
    }
  }

  // ---------------------------------------------------------------- names are free

  lemma {:induction false} PathFromIsFree(files: Files, stem: string, extension: string, now: nat, index: nat)
    requires 1 <= index <= LAST_INDEX + 1
    ensures PathFrom(files, stem, extension, now, index) !in files
       <==> Fallback(stem, extension, now) !in files
            || exists i :: index <= i <= LAST_INDEX && Candidate(stem, extension, i) !in files
    decreases LAST_INDEX + 1 - index
  {
    hide Candidate, Fallback;
    if index <= LAST_INDEX && Candidate(stem, extension, index) in files {
      PathFromIsFree(files, stem, extension, now, index + 1);
    }
  }

  /** No earlier capture is overwritten exactly when one of the 999 candidates or the time-stamped name is free. */
  lemma NewPathIsFreeIff(files: Files, stem: string, extension: string, now: nat)
    ensures NewPath(files, stem, extension, now) !in files
       <==> Fallback(stem, extension, now) !in files
            || exists i :: 1 <= i <= LAST_INDEX && Candidate(stem, extension, i) !in files
  {
    PathFromIsFree(files, stem, extension, now, 1);
  }

  function AllNames(stem: string, extension: string, now: nat): (names: set<string>)
    ensures Fallback(stem, extension, now) in names
    ensures forall i :: 1 <= i <= LAST_INDEX ==> Candidate(stem, extension, i) in names
  {
    (set i | 1 <= i <= LAST_INDEX :: Candidate(stem, extension, i)) + {Fallback(stem, extension, now)}
  }

  /** With all thousand names taken a capture goes over an earlier one. */
  lemma TakenNamesAreOverwritten(stem: string, extension: string, now: nat)
    ensures var files := map name | name in AllNames(stem, extension, now) :: "earlier";
      && NewPath(files, stem, extension, now) in files
      && !EarlierStay(Store(files, map[]), Take(Store(files, map[]), Shot(Key("s", "screen"), stem, extension, now, "later")).1)
  {
    var files := map name | name in AllNames(stem, extension, now) :: "earlier";
    NewPathIsFreeIff(files, stem, extension, now);
    hide NewPath, AllNames, Remember;
    assert "earlier"[0] != "later"[0];
  }

  // ---------------------------------------------------------------- the invariant

  /** Every capture kept under a key so far, oldest first. */
  type History = map<Key, Bucket>

  ghost predicate ShasDistinct(b: Bucket) {
    forall i, j :: 0 <= i < j < |b| ==> b[i].sha != b[j].sha
  }

  /** A bucket is the newest 256 captures kept under its key, all of different content, all still there. */
  ghost predicate BucketOk(files: Files, b: Bucket, kept: Bucket) {
    && b == Newest(kept) && ShasDistinct(b)
    && forall e :: e in kept ==> e.path in files && files[e.path] == e.sha && e.sha != ""
  }

  ghost predicate Inv(s: Store, h: History) {
    forall key :: BucketOk(s.files, BucketOf(s.buckets, key), BucketOf(h, key))
  }

  function Kept(s: Store, h: History, shot: Shot): History {
    var (r, _) := Take(s, shot);
    if r.duplicate || shot.sha == "" then h else h[shot.key := BucketOf(h, shot.key) + [Entry(shot.sha, r.path)]]
  }

  lemma {:induction false} DropAbsent(b: Bucket, sha: string)
    requires forall e :: e in b ==> e.sha != sha
    ensures Drop(b, sha) == b
  {
    if |b| > 0 {
      assert b[0] in b;
      DropAbsent(b[1..], sha);
      assert b == [b[0]] + b[1..];
    }
  }

  lemma NewestPush(kept: Bucket, e: Entry)
    ensures Newest(Newest(kept) + [e]) == Newest(kept + [e])
  {
  }

  lemma NewestMembers(kept: Bucket)
    ensures forall e :: e in Newest(kept) ==> e in kept
  {
  }

  lemma LookupFinds(b: Bucket, sha: string, path: string)
    requires ShasDistinct(b) && Entry(sha, path) in b
    ensures Lookup(b, sha) == Some(path)
  {
  }

  /** The whole effect of one capture whose name is free: a duplicate exactly when its content is among the newest 256
      kept under its key. */
  lemma TakeIs(s: Store, h: History, shot: Shot)
    requires Inv(s, h) && shot.sha != "" && NewPath(s.files, shot.stem, shot.extension, shot.now) !in s.files
    ensures var (r, t) := Take(s, shot);
      && (r.duplicate <==> exists e :: e in Newest(BucketOf(h, shot.key)) && e.sha == shot.sha)
      && r.path in t.files && t.files[r.path] == shot.sha
      && (r.duplicate ==> t == s)
      && (!r.duplicate ==> r.path !in s.files && t.files == s.files[r.path := shot.sha]
                           && t.buckets == s.buckets[shot.key := Newest(BucketOf(s.buckets, shot.key) + [Entry(shot.sha, r.path)])])
  {
    hide NewPath, Newest, Inv, ShasDistinct;
    var b, kept := BucketOf(s.buckets, shot.key), BucketOf(h, shot.key);
    assert BucketOk(s.files, b, kept) by { UseInv(s, h, shot.key); }
    NewestMembers(kept);
    var path := NewPath(s.files, shot.stem, shot.extension, shot.now);
    var found := Lookup(b, shot.sha);
    if found.Some? {
      assert Entry(shot.sha, found.value) in kept;
      assert s.files[path := shot.sha] - {path} == s.files;
    } else {
      DropAbsent(b, shot.sha);
    }
  }

  lemma UseInv(s: Store, h: History, key: Key)
    requires Inv(s, h)
    ensures BucketOk(s.files, BucketOf(s.buckets, key), BucketOf(h, key))
  {
  }

  lemma TakeKeeps(s: Store, h: History, shot: Shot)
    requires Inv(s, h) && NewPath(s.files, shot.stem, shot.extension, shot.now) !in s.files
    ensures Inv(Take(s, shot).1, Kept(s, h, shot))
  {
    var (r, t) := Take(s, shot);
    if shot.sha == "" {
      hide NewPath, Newest;
      assert forall key :: BucketOk(s.files, BucketOf(s.buckets, key), BucketOf(h, key));
      return;
    }
    TakeIs(s, h, shot);
    hide NewPath, Take, Newest, Inv;
    if !r.duplicate {
      forall key
        ensures BucketOk(t.files, BucketOf(t.buckets, key), BucketOf(Kept(s, h, shot), key))
      {
        UseInv(s, h, key);
        if key == shot.key {
          PushKeeps(s.files, BucketOf(s.buckets, key), BucketOf(h, key), Entry(shot.sha, r.path));
        }
      }
      IsInv(t, Kept(s, h, shot));
    }
  }

  lemma IsInv(s: Store, h: History)
    requires forall key :: BucketOk(s.files, BucketOf(s.buckets, key), BucketOf(h, key))
    ensures Inv(s, h)
  {
  }

  lemma PushKeeps(files: Files, b: Bucket, kept: Bucket, e: Entry)
    requires BucketOk(files, b, kept) && e.path !in files && e.sha != ""
    requires forall f :: f in Newest(kept) ==> f.sha != e.sha
    ensures BucketOk(files[e.path := e.sha], Newest(b + [e]), kept + [e])
  {
    NewestPush(kept, e);
    var c := b + [e];
    assert ShasDistinct(c) by {
      forall i | 0 <= i < |b|
        ensures b[i].sha != e.sha
      {
        assert b[i] in Newest(kept);
      }
    }
  }

  // ---------------------------------------------------------------- earlier files

  /** Every file that was there is there with its content. */
  ghost predicate EarlierStay(s: Store, t: Store) {
    forall p :: p in s.files ==> p in t.files && t.files[p] == s.files[p]
  }

  /** The new name is free, or it is that of a file with the same content and no other file is remembered for it. */
  predicate FindsRoom(s: Store, shot: Shot) {
    var path := NewPath(s.files, shot.stem, shot.extension, shot.now);
    var remembered := Lookup(BucketOf(s.buckets, shot.key), shot.sha);
    path !in s.files
    || (s.files[path] == shot.sha
        && (shot.sha == "" || remembered.None? || remembered.value == path || remembered.value !in s.files))
  }

  /** Whatever the store, a capture leaves every earlier file as it is exactly when it finds room. */
  lemma EarlierStayIff(s: Store, shot: Shot)
    ensures EarlierStay(s, Take(s, shot).1) <==> FindsRoom(s, shot)
  {
    hide NewPath, Remember, Lookup;
  }

  /** Every bucket holds at most 256 entries, each of a file with the content remembered. */
  ghost predicate Sound(s: Store) {
    forall key :: |BucketOf(s.buckets, key)| <= CAPTURE_DEDUP_LRU && Remembered(s.files, BucketOf(s.buckets, key))
  }

  ghost predicate Remembered(files: Files, b: Bucket) {
    forall e :: e in b ==> e.path in files && files[e.path] == e.sha
  }

  lemma {:induction false} DropMembers(b: Bucket, sha: string)
    ensures forall e :: e in Drop(b, sha) ==> e in b
  {
    if |b| > 0 {
      DropMembers(b[1..], sha);
    }
  }

  lemma RememberKeeps(files: Files, b: Bucket, e: Entry)
    requires Remembered(files, b) && e.path in files && files[e.path] == e.sha
    ensures Remembered(files, Remember(b, e)) && |Remember(b, e)| <= CAPTURE_DEDUP_LRU
  {
    hide Newest, Drop;
    DropMembers(b, e.sha);
    NewestMembers(Drop(b, e.sha) + [e]);
  }

  /** A capture that finds room leaves every bucket sound, and the path returned holds its content. */
  lemma TakeKeepsSound(s: Store, shot: Shot)
    requires Sound(s) && FindsRoom(s, shot)
    ensures var (r, t) := Take(s, shot); Sound(t) && r.path in t.files && t.files[r.path] == shot.sha
  {
    EarlierStayIff(s, shot);
    hide NewPath, Remember, Lookup, FindsRoom;
    var (r, t) := Take(s, shot);
    var b := BucketOf(s.buckets, shot.key);
    assert Remembered(s.files, b);
    assert r.path in t.files && t.files[r.path] == shot.sha;
    RememberKeeps(t.files, b, Entry(shot.sha, r.path));
  }

  predicate EachFindsRoom(s: Store, run: seq<Shot>)
    decreases |run|
  {
    |run| == 0 || (FindsRoom(s, run[0]) && EachFindsRoom(Take(s, run[0]).1, run[1..]))
  }

  ghost predicate EachKeepsEarlier(s: Store, run: seq<Shot>)
    decreases |run|
  {
    |run| == 0 || (EarlierStay(s, Take(s, run[0]).1) && EachKeepsEarlier(Take(s, run[0]).1, run[1..]))
  }

  function StoreAfter(s: Store, run: seq<Shot>): Store
    decreases |run|
  {
    if |run| == 0 then s else StoreAfter(Take(s, run[0]).1, run[1..])
  }

  /** The runs of which every capture keeps the earlier files are exactly those in which every capture finds room, and
      they keep every bucket sound. */
  lemma {:induction false} RunKeepsEarlierIff(s: Store, run: seq<Shot>)
    ensures EachKeepsEarlier(s, run) <==> EachFindsRoom(s, run)
    ensures EachFindsRoom(s, run) ==> EarlierStay(s, StoreAfter(s, run))
    ensures EachFindsRoom(s, run) && Sound(s) ==> Sound(StoreAfter(s, run))
    decreases |run|
  {
    hide Take, FindsRoom, Sound;
    if |run| > 0 {
      EarlierStayIff(s, run[0]);
      if FindsRoom(s, run[0]) && Sound(s) {
        TakeKeepsSound(s, run[0]);
      }
      RunKeepsEarlierIff(Take(s, run[0]).1, run[1..]);
    }
  }

  // ---------------------------------------------------------------- runs

  /** Each capture of the run finds a free name. */
  predicate FreshRun(s: Store, run: seq<Shot>)
    decreases |run|
  {
    |run| == 0
    || (NewPath(s.files, run[0].stem, run[0].extension, run[0].now) !in s.files
        && FreshRun(Take(s, run[0]).1, run[1..]))
  }

  function AfterRun(s: Store, h: History, run: seq<Shot>): (Store, History)
    decreases |run|
  {
    if |run| == 0 then (s, h) else AfterRun(Take(s, run[0]).1, Kept(s, h, run[0]), run[1..])
  }

  /** Over every run of captures without pruning: earlier files stay as they are, and every bucket is the newest 256
      captures of its key, each of them there with the content remembered. */
  lemma {:induction false} RunKeepsCaptures(s: Store, h: History, run: seq<Shot>)
    requires Inv(s, h) && FreshRun(s, run)
    ensures var (t, k) := AfterRun(s, h, run);
      && Inv(t, k)
      && EarlierStay(s, t)
      && forall key :: |BucketOf(t.buckets, key)| <= CAPTURE_DEDUP_LRU
    decreases |run|
  {
    hide NewPath, Take, Kept, Newest, Inv;
    if |run| > 0 {
      EarlierStayIff(s, run[0]);
      TakeKeeps(s, h, run[0]);
      RunKeepsCaptures(Take(s, run[0]).1, Kept(s, h, run[0]), run[1..]);
    } else {
      forall key
        ensures |BucketOf(s.buckets, key)| <= CAPTURE_DEDUP_LRU
      {
        UseInv(s, h, key);
      }
    }
  }

  /** Content captured again under its key is kept a second time exactly when at least 256 captures were kept since. */
  lemma KeptAgainIff(s: Store, h: History, shot: Shot, i: nat)
    requires Inv(s, h) && NewPath(s.files, shot.stem, shot.extension, shot.now) !in s.files
    requires i < |BucketOf(h, shot.key)| && BucketOf(h, shot.key)[i].sha == shot.sha
    requires forall j :: i < j < |BucketOf(h, shot.key)| ==> BucketOf(h, shot.key)[j].sha != shot.sha
    ensures !Take(s, shot).0.duplicate <==> |BucketOf(h, shot.key)| - i > CAPTURE_DEDUP_LRU
  {
    var kept := BucketOf(h, shot.key);
    UseInv(s, h, shot.key);
    assert kept[i] in kept;
    TakeIs(s, h, shot);
    hide NewPath, Take, Inv;
    var b := Newest(kept);
    var gone := |kept| - |b|;
    if i >= gone {
      assert b[i - gone] == kept[i];
    }
    forall e | e in b && e.sha == shot.sha
      ensures i >= gone
    {
      var j :| 0 <= j < |b| && b[j] == e;
      assert kept[gone + j] == e;
    }
  }

  /** A hit does not refresh an entry: the oldest content remembered is hit, other content is kept, and then the content
      just hit is kept again. */
  lemma HitDoesNotRefresh(s: Store, h: History, hit: Shot, other: Shot, again: Shot)
    requires Inv(s, h) && hit.key == other.key == again.key && hit.sha == again.sha && hit.sha != "" && other.sha != ""
    requires var kept := BucketOf(h, hit.key);
      |kept| == CAPTURE_DEDUP_LRU && kept[0].sha == hit.sha && forall e :: e in kept ==> e.sha != other.sha
    requires NewPath(s.files, hit.stem, hit.extension, hit.now) !in s.files
    requires NewPath(s.files, other.stem, other.extension, other.now) !in s.files
    requires var t := Take(s, other).1; NewPath(t.files, again.stem, again.extension, again.now) !in t.files
    ensures Take(s, hit) == (Finished(BucketOf(h, hit.key)[0].path, true), s)
    ensures !Take(Take(s, other).1, again).0.duplicate
  {
    var kept := BucketOf(h, hit.key);
    UseInv(s, h, hit.key);
    assert kept[0] in kept;
    TakeIs(s, h, hit);
    LookupFinds(kept, hit.sha, kept[0].path);
    TakeIs(s, h, other);
    TakeKeeps(s, h, other);
    hide NewPath, Inv;
    var k := Kept(s, h, other);
    assert BucketOf(k, hit.key) == kept + [Entry(other.sha, Take(s, other).0.path)];
    hide Take, Kept;
    KeptAgainIff(Take(s, other).1, k, again, 0);
  }

  // ---------------------------------------------------------------- an example

  const ANY_KEY := Key("s", "screen")

  /** The remembered contents "0" to "255", each in a file named like it. */
  function Numbered(): (b: Bucket)
    ensures |b| == CAPTURE_DEDUP_LRU && forall i :: 0 <= i < |b| ==> b[i] == Entry(Decimal(i), Decimal(i))
  {
    seq(CAPTURE_DEDUP_LRU, i requires 0 <= i < CAPTURE_DEDUP_LRU => Entry(Decimal(i), Decimal(i)))
  }

  function FullStore(): Store {
    Store(map e | e in Numbered() :: e.path := e.sha, map[ANY_KEY := Numbered()])
  }

  lemma FullStoreIsInv()
    ensures Inv(FullStore(), map[ANY_KEY := Numbered()])
  {
    var b := Numbered();
    forall i, j | 0 <= i < j < |b|
      ensures b[i].sha != b[j].sha
    {
      if b[i].sha == b[j].sha { DecimalIsInjective(i, j); }
    }
    hide Numbered;
    assert BucketOk(FullStore().files, b, b);
    assert BucketOk(FullStore().files, [], []);
  }

  lemma PlainNameIsFree(files: Files, stem: string, now: nat)
    requires stem + "." + "png" !in files
    ensures NewPath(files, stem, "png", now) == stem + "." + "png"
  {
  }

  lemma NumbersHaveNoDot(name: string)
    requires '.' in name || 'x' in name
    ensures name !in FullStore().files && forall e :: e in Numbered() ==> e.sha != name
  {
    forall e | e in Numbered()
      ensures e.sha == e.path && AllDigits(e.path)
    {
    }
    assert forall i :: 0 <= i < |name| && (name[i] == '.' || name[i] == 'x') ==> !AllDigits(name);
    hide Numbered;
  }

  /** With "0" to "255" remembered, "0" is hit, "x" is kept, and "0" is kept again. */
  lemma HitIsKeptAgain()
    ensures Take(FullStore(), Shot(ANY_KEY, "a", "png", 0, "0")).0.duplicate
    ensures var t := Take(FullStore(), Shot(ANY_KEY, "a", "png", 0, "x")).1;
      !Take(t, Shot(ANY_KEY, "b", "png", 0, "0")).0.duplicate
  {
    FullStoreIsInv();
    assert Decimal(0) == "0";
    hide Numbered, Inv, NewPath, Take, Decimal;
    var s, h := FullStore(), map[ANY_KEY := Numbered()];
    var a, b := "a" + "." + "png", "b" + "." + "png";
    assert '.' == a[1] == b[1] && 'x' == "x"[0];
    NumbersHaveNoDot(a);
    NumbersHaveNoDot(b);
    NumbersHaveNoDot("x");
    hide FullStore;
    PlainNameIsFree(s.files, "a", 0);
    var other := Shot(ANY_KEY, "a", "png", 0, "x");
    TakeIs(s, h, other);
    assert a[0] != b[0];
    PlainNameIsFree(Take(s, other).1.files, "b", 0);
    HitDoesNotRefresh(s, h, Shot(ANY_KEY, "a", "png", 0, "0"), other, Shot(ANY_KEY, "b", "png", 0, "0"));
  }
}
