/** The listing the clean-up starts from: the files in the folders of sessions, without the protected ones. */
module CaptureListing {
  import opened Strings
  import opened Sessions
  import opened Captures
  import opened CaptureLaws

  datatype DiskFile = DiskFile(name: string, bytes: nat, mtime: int, record: bool)

  /** The folder of a session, and the folder of a kind of captures; each listed in order of names. */
  datatype Folder = Folder(name: string, files: seq<DiskFile>)

  datatype Kind = Kind(name: string, folders: seq<Folder>)

  /** What `pathlib` makes of a path: its last part and its resolved form. Neither is part of this model. */
  datatype PathLib = PathLib(name: string -> string, resolve: string -> string)

  datatype Query = Query(root: string, lib: PathLib, session: string, protect: seq<string>)

  /** Folders inside folders, down to a file. */
  function PathOf(root: string, kind: string, folder: string, name: string): string {
    root + "/" + (kind + "/" + (folder + "/" + name))
  }

  // ---------------------------------------------------------------- what is protected, and what is wanted

  /** `_protected_set` */
  function ProtectedSet(lib: PathLib, protect: seq<string>): set<string> {
    set text, form | text in protect && Strip(text) != "" && form in Forms(lib, Strip(text)) :: form
  }

  function Forms(lib: PathLib, text: string): set<string> {
    {text, lib.name(text), lib.resolve(text)}
  }

  /** `_is_protected` */
  predicate IsProtected(q: Query, kind: string, folder: string, name: string) {
    var path, guarded := PathOf(q.root, kind, folder, name), ProtectedSet(q.lib, q.protect);
    path in guarded || name in guarded || q.lib.resolve(path) in guarded
  }

  /** A folder of a session, and of the session asked for when there is one. */
  predicate Wanted(q: Query, folder: string) {
    var prefix := Prefix(Normal(q.session), 8);
    IsSession(folder) && (prefix == "" || Prefix(folder, |prefix|) == prefix)
  }

  function CaptureOf(q: Query, kind: string, folder: string, f: DiskFile): Capture {
    Capture(PathOf(q.root, kind, folder, f.name), kind, folder, f.bytes, f.mtime, f.record)
  }

  // ---------------------------------------------------------------- the listing

  datatype Listing = Listing(entries: seq<Capture>, skipped: nat)

  function ListFiles(q: Query, l: Listing, kind: string, folder: string, files: seq<DiskFile>): Listing {
    if |files| == 0 then l
    else
      var before, f := ListFiles(q, l, kind, folder, files[..|files| - 1]), files[|files| - 1];
      if IsProtected(q, kind, folder, f.name) then before.(skipped := before.skipped + 1)
      else before.(entries := before.entries + [CaptureOf(q, kind, folder, f)])
  }

  function ListFolders(q: Query, l: Listing, kind: string, folders: seq<Folder>): Listing {
    if |folders| == 0 then l
    else
      var before, d := ListFolders(q, l, kind, folders[..|folders| - 1]), folders[|folders| - 1];
      if Wanted(q, d.name) then ListFiles(q, before, kind, d.name, d.files) else before
  }

  function ListKinds(q: Query, kinds: seq<Kind>): Listing {
    if |kinds| == 0 then Listing([], 0)
    else ListFolders(q, ListKinds(q, kinds[..|kinds| - 1]), kinds[|kinds| - 1].name, kinds[|kinds| - 1].folders)
  }

  /** `_capture_entries` */
  method CaptureEntries(q: Query, kinds: seq<Kind>) returns (entries: seq<Capture>, skipped: nat)
    ensures Listing(entries, skipped) == ListKinds(q, kinds)
  {
    hide IsProtected, Wanted, CaptureOf;
    entries, skipped := [], 0;
    var i := 0;
    while i < |kinds|
      invariant i <= |kinds| && Listing(entries, skipped) == ListKinds(q, kinds[..i])
    {
      var kind, j := kinds[i], 0;
      ghost var outer := Listing(entries, skipped);
      while j < |kind.folders|
        invariant j <= |kind.folders|
        invariant Listing(entries, skipped) == ListFolders(q, outer, kind.name, kind.folders[..j])
      {
        var folder := kind.folders[j];
        if Wanted(q, folder.name) {
          var k := 0;
          ghost var inner := Listing(entries, skipped);
          while k < |folder.files|
            invariant k <= |folder.files|
            invariant Listing(entries, skipped) == ListFiles(q, inner, kind.name, folder.name, folder.files[..k])
          {
            assert folder.files[..k + 1][..k] == folder.files[..k];
            if IsProtected(q, kind.name, folder.name, folder.files[k].name) {
              skipped := skipped + 1;
            } else {
              entries := entries + [CaptureOf(q, kind.name, folder.name, folder.files[k])];
            }
            k := k + 1;
          }
          assert folder.files[..k] == folder.files;
        }
        assert kind.folders[..j + 1][..j] == kind.folders[..j];
        j := j + 1;
      }
      assert kind.folders[..j] == kind.folders && kinds[..i + 1][..i] == kinds[..i];
      i := i + 1;
    }
    assert kinds[..i] == kinds;
  }

  // ---------------------------------------------------------------- what is listed

  /** The file is listed: it lies in a wanted folder and is not protected. */
  ghost predicate Lists(q: Query, kinds: seq<Kind>, e: Capture) {
    exists kind, d, f :: kind in kinds && FolderLists(q, kind.name, kind.folders, d, f, e)
  }

  ghost predicate FolderLists(q: Query, kind: string, folders: seq<Folder>, d: Folder, f: DiskFile, e: Capture) {
    d in folders && Wanted(q, d.name) && FileLists(q, kind, d.name, d.files, f, e)
  }

  ghost predicate FileLists(q: Query, kind: string, folder: string, files: seq<DiskFile>, f: DiskFile, e: Capture) {
    f in files && !IsProtected(q, kind, folder, f.name) && e == CaptureOf(q, kind, folder, f)
  }

  lemma {:induction false} FilesListed(q: Query, l: Listing, kind: string, folder: string, files: seq<DiskFile>, e: Capture)
    ensures e in ListFiles(q, l, kind, folder, files).entries
       <==> e in l.entries || exists f :: FileLists(q, kind, folder, files, f, e)
  {
    hide IsProtected, CaptureOf;
    if |files| > 0 {
      var front, last := files[..|files| - 1], files[|files| - 1];
      FilesListed(q, l, kind, folder, front, e);
      assert files == front + [last];
      if f :| FileLists(q, kind, folder, front, f, e) {
        assert FileLists(q, kind, folder, files, f, e);
      }
      assert FileLists(q, kind, folder, files, last, e)
        <==> !IsProtected(q, kind, folder, last.name) && e == CaptureOf(q, kind, folder, last);
      forall f | FileLists(q, kind, folder, files, f, e)
        ensures f == last || FileLists(q, kind, folder, front, f, e)
      {
      }
    }
  }

  lemma {:induction false} FoldersListed(q: Query, l: Listing, kind: string, folders: seq<Folder>, e: Capture)
    ensures e in ListFolders(q, l, kind, folders).entries
       <==> e in l.entries || exists d, f :: FolderLists(q, kind, folders, d, f, e)
  {
    hide FileLists, Wanted;
    if |folders| > 0 {
      var front, last := folders[..|folders| - 1], folders[|folders| - 1];
      FoldersListed(q, l, kind, front, e);
      FilesListed(q, ListFolders(q, l, kind, front), kind, last.name, last.files, e);
      assert folders == front + [last];
      if d, f :| FolderLists(q, kind, front, d, f, e) {
        assert FolderLists(q, kind, folders, d, f, e);
      }
      if Wanted(q, last.name) {
        if f :| FileLists(q, kind, last.name, last.files, f, e) {
          assert FolderLists(q, kind, folders, last, f, e);
        }
      }
      forall d, f | FolderLists(q, kind, folders, d, f, e)
        ensures FolderLists(q, kind, front, d, f, e)
             || (Wanted(q, last.name) && FileLists(q, kind, last.name, last.files, f, e))
      {
      }
    }
  }

  /** The listing holds exactly the unprotected files of the wanted folders. */
  lemma {:induction false} EntriesAre(q: Query, kinds: seq<Kind>, e: Capture)
    ensures e in ListKinds(q, kinds).entries <==> Lists(q, kinds, e)
  {
    hide FolderLists;
    if |kinds| > 0 {
      var front, last := kinds[..|kinds| - 1], kinds[|kinds| - 1];
      EntriesAre(q, front, e);
      FoldersListed(q, ListKinds(q, front), last.name, last.folders, e);
      assert kinds == front + [last];
      if kind, d, f :| kind in front && FolderLists(q, kind.name, kind.folders, d, f, e) {
        assert kind in kinds;
      }
      if d, f :| FolderLists(q, last.name, last.folders, d, f, e) {
        assert last in kinds;
      }
      forall kind, d, f | kind in kinds && FolderLists(q, kind.name, kind.folders, d, f, e)
        ensures kind in front || FolderLists(q, last.name, last.folders, d, f, e)
      {
      }
    }
  }

  // ---------------------------------------------------------------- paths

  predicate IsPart(name: string) {
    '/' !in name
  }

  /** The path of a file says in which folders it lies and how it is called. */
  lemma PathIsInjective(root: string, k: string, d: string, n: string, k': string, d': string, n': string)
    requires IsPart(k) && IsPart(d) && IsPart(n) && IsPart(k') && IsPart(d') && IsPart(n')
    requires PathOf(root, k, d, n) == PathOf(root, k', d', n')
    ensures k == k' && d == d' && n == n'
  {
    PartsOf(root, k, d, n);
    PartsOf(root, k', d', n');
    hide Split;
    var front := Split(root, '/');
    assert (front + [k, d, n])[|front|..] == [k, d, n] && (front + [k', d', n'])[|front|..] == [k', d', n'];
    assert [k, d, n][0] == k && [k, d, n][1] == d && [k, d, n][2] == n;
    assert [k', d', n'][0] == k' && [k', d', n'][1] == d' && [k', d', n'][2] == n';
  }

  lemma PartsOf(root: string, k: string, d: string, n: string)
    requires IsPart(k) && IsPart(d) && IsPart(n)
    ensures Split(PathOf(root, k, d, n), '/') == Split(root, '/') + [k, d, n]
  {
    SplitConcat(root, k + "/" + (d + "/" + n), '/');
    SplitConcat(k, d + "/" + n, '/');
    SplitConcat(d, n, '/');
    SplitWhole(k, '/');
    SplitWhole(d, '/');
    SplitWhole(n, '/');
    hide Split;
    assert [k] + ([d] + [n]) == [k, d, n];
  }

  /** Names are names, and no folder lists one twice. */
  ghost predicate Proper(kinds: seq<Kind>) {
    && (forall i, j :: 0 <= i < j < |kinds| ==> kinds[i].name != kinds[j].name)
    && forall kind :: kind in kinds ==> IsPart(kind.name) && ProperFolders(kind.folders)
  }

  ghost predicate ProperFolders(folders: seq<Folder>) {
    && (forall i, j :: 0 <= i < j < |folders| ==> folders[i].name != folders[j].name)
    && forall d :: d in folders ==> IsPart(d.name) && ProperFiles(d.files)
  }

  ghost predicate ProperFiles(files: seq<DiskFile>) {
    && (forall i, j :: 0 <= i < j < |files| ==> files[i].name != files[j].name)
    && forall f :: f in files ==> IsPart(f.name)
  }

  /** Every listed path is that of a file in the folders the entry names. */
  ghost predicate Placed(q: Query, entries: seq<Capture>) {
    forall e :: e in entries ==>
      IsPart(e.kind) && IsPart(e.sid8) && exists n :: IsPart(n) && e.path == PathOf(q.root, e.kind, e.sid8, n)
  }

  lemma PushDistinct(q: Query, entries: seq<Capture>, kind: string, folder: string, f: DiskFile)
    requires Placed(q, entries) && PathsDistinct(entries) && IsPart(kind) && IsPart(folder) && IsPart(f.name)
    requires forall e :: e in entries && e.kind == kind && e.sid8 == folder ==> e.path != PathOf(q.root, kind, folder, f.name)
    ensures Placed(q, entries + [CaptureOf(q, kind, folder, f)])
    ensures PathsDistinct(entries + [CaptureOf(q, kind, folder, f)])
  {
    hide IsPart, PathOf;
    var c := CaptureOf(q, kind, folder, f);
    forall e | e in entries
      ensures e.path != c.path
    {
      if e.path == c.path {
        var n :| IsPart(n) && e.path == PathOf(q.root, e.kind, e.sid8, n);
        PathIsInjective(q.root, e.kind, e.sid8, n, kind, folder, f.name);
      }
    }
  }

  ghost predicate InFolder(e: Capture, kind: string, folder: string) {
    e.kind == kind && e.sid8 == folder
  }

  lemma {:induction false} FilesDistinct(q: Query, l: Listing, kind: string, folder: string, files: seq<DiskFile>)
    requires Placed(q, l.entries) && PathsDistinct(l.entries) && IsPart(kind) && IsPart(folder) && ProperFiles(files)
    requires forall e :: e in l.entries ==> !InFolder(e, kind, folder)
    ensures var entries := ListFiles(q, l, kind, folder, files).entries;
      && Placed(q, entries) && PathsDistinct(entries)
      && (forall e :: e in entries ==> e in l.entries || InFolder(e, kind, folder))
      && (forall e :: e in entries && InFolder(e, kind, folder) ==>
            exists f :: f in files && e.path == PathOf(q.root, kind, folder, f.name))
  {
    hide IsProtected, PathOf, IsPart, Placed, PathsDistinct;
    if |files| > 0 {
      var front, last := files[..|files| - 1], files[|files| - 1];
      assert files == front + [last];
      FilesDistinct(q, l, kind, folder, front);
      var before := ListFiles(q, l, kind, folder, front);
      forall e | e in before.entries && InFolder(e, kind, folder)
        ensures e.path != PathOf(q.root, kind, folder, last.name)
      {
        var f :| f in front && e.path == PathOf(q.root, kind, folder, f.name);
        assert IsPart(f.name) && IsPart(last.name) && f.name != last.name;
        if e.path == PathOf(q.root, kind, folder, last.name) {
          PathIsInjective(q.root, kind, folder, f.name, kind, folder, last.name);
        }
      }
      PushDistinct(q, before.entries, kind, folder, last);
    }
  }

  lemma {:induction false} FoldersDistinct(q: Query, l: Listing, kind: string, folders: seq<Folder>)
    requires Placed(q, l.entries) && PathsDistinct(l.entries) && IsPart(kind) && ProperFolders(folders)
    requires forall e :: e in l.entries ==> e.kind != kind
    ensures var entries := ListFolders(q, l, kind, folders).entries;
      && Placed(q, entries) && PathsDistinct(entries)
      && (forall e :: e in entries ==> e in l.entries || (e.kind == kind && exists d :: d in folders && d.name == e.sid8))
  {
    hide Wanted, IsPart, Placed, PathsDistinct, ListFiles, ProperFiles;
    if |folders| > 0 {
      var front, last := folders[..|folders| - 1], folders[|folders| - 1];
      assert folders == front + [last];
      FoldersDistinct(q, l, kind, front);
      var before := ListFolders(q, l, kind, front);
      forall e | e in before.entries
        ensures !InFolder(e, kind, last.name)
      {
      }
      if Wanted(q, last.name) {
        FilesDistinct(q, before, kind, last.name, last.files);
      }
    }
  }

  /** No path is listed twice. */
  lemma {:induction false} ListedOnce(q: Query, kinds: seq<Kind>)
    requires Proper(kinds)
    ensures var entries := ListKinds(q, kinds).entries;
      && Placed(q, entries) && PathsDistinct(entries)
      && forall e :: e in entries ==> exists kind :: kind in kinds && kind.name == e.kind
  {
    hide IsPart, ListFolders, ProperFolders;
    if |kinds| > 0 {
      var front, last := kinds[..|kinds| - 1], kinds[|kinds| - 1];
      assert kinds == front + [last];
      ListedOnce(q, front);
      var before := ListKinds(q, front);
      forall e | e in before.entries
        ensures e.kind != last.name
      {
        var kind :| kind in front && kind.name == e.kind;
      }
      hide Placed, PathsDistinct;
      FoldersDistinct(q, before, last.name, last.folders);
    }
  }

  // ---------------------------------------------------------------- what a clean-up cannot touch

  /** A file is left out of every clean-up when its path, its name or its resolved path is a form of a protected text,
      or its folder is not wanted: nothing with its path is marked, whatever the limits. */
  lemma ProtectedIsNeverMarked(q: Query, kinds: seq<Kind>, kind: string, folder: string, name: string)
    requires Proper(kinds) && IsPart(kind) && IsPart(folder) && IsPart(name)
    requires IsProtected(q, kind, folder, name) || !Wanted(q, folder)
    ensures forall m :: m in Marked(ListKinds(q, kinds).entries) ==> m.path != PathOf(q.root, kind, folder, name)
  {
    hide Marked, IsProtected, Wanted, PathOf, IsPart;
    var entries := ListKinds(q, kinds).entries;
    ListedOnce(q, kinds);
    MarkedAre(entries);
    forall m | m in Marked(entries)
      ensures m.path != PathOf(q.root, kind, folder, name)
    {
      EntriesAre(q, kinds, m);
      var k, d, f :| k in kinds && FolderLists(q, k.name, k.folders, d, f, m);
      assert IsPart(k.name) && IsPart(d.name) && IsPart(f.name);
      if m.path == PathOf(q.root, kind, folder, name) {
        PathIsInjective(q.root, k.name, d.name, f.name, kind, folder, name);
      }
    }
  }

  /** All four limits hold at once of what is kept of any listing. */
  lemma ListingsMeetLimits(q: Query, kinds: seq<Kind>, kind: string, sid8: string)
    requires Proper(kinds)
    ensures var kept := Kept(ListKinds(q, kinds).entries);
      && Meets(kept, OfKind(kind, sid8), Files(CAPTURE_KEEP_PER_KIND))
      && Meets(kept, RecordsOf(sid8), Files(RECORD_KEEP_PER_SESSION))
      && Meets(kept, OfSession(sid8), Bytes(CAPTURE_MAX_BYTES_PER_SESSION))
      && Meets(kept, Everything, Bytes(CAPTURE_MAX_BYTES_BOX))
  {
    hide Kept, Meets, ListKinds;
    ListedOnce(q, kinds);
    AllLimitsHold(ListKinds(q, kinds).entries, kind, sid8);
  }
}
