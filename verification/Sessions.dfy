/** Which directory a session owns: the shortest free prefix of its id, widened while prefixes belong to others. */
module Sessions {
  import opened Wrappers
  import opened Strings

  // ---------------------------------------------------------------- ids and files

  predicate IsHex(c: char) {
    IsDigit(c) || 'a' <= c <= 'f'
  }

  /** `^[0-9a-f]{8,32}$` */
  predicate IsSession(s: string) {
    8 <= |s| <= 32 && forall i :: 0 <= i < |s| ==> IsHex(s[i])
  }

  function Lower(s: string): string {
    seq(|s|, i requires 0 <= i < |s| => if 'A' <= s[i] <= 'Z' then s[i] - 'A' + 'a' else s[i])
  }

  /** The session id in the form that is looked up. */
  function Normal(sid: string): string {
    Lower(Strip(sid))
  }

  /** A `session.json`: unreadable or no JSON object, or an object with the normalised value of its `session` field. */
  datatype SessionFile = Broken | Record(session: string)

  type Files = map<string, SessionFile>

  /** `_session_json_owner` */
  function Owner(files: Files, dir: string): Option<string> {
    if dir in files && files[dir].Record? && files[dir].session != "" then Some(files[dir].session) else None
  }

  const WIDTHS: seq<nat> := [8, 12, 16, 20, 24, 28, 32]

  function Prefix(s: string, width: nat): string {
    if width <= |s| then s[..width] else s
  }

  datatype SessionError = InvalidId | NoFreePrefix

  predicate Usable(files: Files, s: string, dir: string) {
    Owner(files, dir) == None || Owner(files, dir) == Some(s)
  }

  /** The first usable candidate from the `i`th width on. */
  function Search(files: Files, s: string, i: nat): (r: Option<string>)
    requires i <= |WIDTHS|
    decreases |WIDTHS| - i
  {
    if i == |WIDTHS| then None
    else
      var dir := Prefix(s, WIDTHS[i]);
      if Usable(files, s, dir) then Some(dir) else Search(files, s, i + 1)
  }

  /** `sid8_of` with a root */
  function Sid8Of(files: Files, sid: string): Result<string, SessionError> {
    var s := Normal(sid);
    if !IsSession(s) then Failure(InvalidId)
    else
      match Search(files, s, 0)
      case None => Failure(NoFreePrefix)
      case Some(dir) => Success(dir)
  }

  /** `session_ensure`: the file is created when there is none, and never replaced. */
  function Ensured(files: Files, dir: string, s: string): Files {
    if dir in files then files else files[dir := Record(s)]
  }

  /** A session starting: the directory it is given, and the files after. */
  function Start(files: Files, sid: string): (Result<string, SessionError>, Files) {
    var dir := Sid8Of(files, sid);
    if dir.Failure? then (dir, files) else (dir, Ensured(files, dir.value, Normal(sid)))
  }

  // ---------------------------------------------------------------- the code

  class SessionHistory {
    var files: Files

    constructor (initial: Files)
      ensures files == initial
    {
      files := initial;
    }

    method FindDirectory(sid: string) returns (r: Result<string, SessionError>)
      ensures r == Sid8Of(files, sid)
    {
      var value := Normal(sid);
      if !IsSession(value) { return Failure(InvalidId); }
      var i := 0;
      while i < |WIDTHS|
        invariant i <= |WIDTHS| && Search(files, value, 0) == Search(files, value, i)
      {
        var candidate := Prefix(value, WIDTHS[i]);
        var owner := Owner(files, candidate);
        if owner == None || owner == Some(value) {
          return Success(candidate);
        }
        i := i + 1;
      }
      return Failure(NoFreePrefix);
    }

    method Ensure(dir: string, session: string) returns (created: bool)
      modifies this
      ensures files == Ensured(old(files), dir, session) && (created <==> dir !in old(files))
    {
      created := false;
      if !(dir in files && files[dir].Record?) {
        // The link fails when the file is there after all, if only unreadable.
        if dir !in files {
          files := files[dir := Record(session)];
          created := true;
        }
      }
    }

    method StartSession(sid: string) returns (r: Result<string, SessionError>)
      modifies this
      ensures (r, files) == Start(old(files), sid)
    {
      r := FindDirectory(sid);
      if r.Success? {
        var _ := Ensure(r.value, Normal(sid));
      }
    }
  }

  // ---------------------------------------------------------------- one start

  lemma {:induction false} SearchIs(files: Files, s: string, i: nat)
    requires i <= |WIDTHS|
    ensures Search(files, s, i).None? <==> forall j :: i <= j < |WIDTHS| ==> !Usable(files, s, Prefix(s, WIDTHS[j]))
    ensures Search(files, s, i).Some? ==>
              exists j :: i <= j < |WIDTHS| && Search(files, s, i).value == Prefix(s, WIDTHS[j])
                          && Usable(files, s, Prefix(s, WIDTHS[j]))
                          && forall k :: i <= k < j ==> !Usable(files, s, Prefix(s, WIDTHS[k]))
    decreases |WIDTHS| - i
  {
    hide Usable, Prefix;
    if i < |WIDTHS| && !Usable(files, s, Prefix(s, WIDTHS[i])) {
      SearchIs(files, s, i + 1);
    }
  }

  /** A session is refused exactly when its id is no id or every one of its prefixes belongs to another session. */
  lemma RefusedIff(files: Files, sid: string)
    ensures Start(files, sid).0.Failure?
       <==> !IsSession(Normal(sid))
            || forall j :: 0 <= j < |WIDTHS| ==>
                 var owner := Owner(files, Prefix(Normal(sid), WIDTHS[j])); owner.Some? && owner.value != Normal(sid)
    ensures Start(files, sid).0.Failure? ==> Start(files, sid).1 == files
  {
    hide Normal, Prefix, WIDTHS, IsSession;
    SearchIs(files, Normal(sid), 0);
  }

  /** No start ever changes a file that is there. */
  lemma StartKeepsFiles(files: Files, sid: string, dir: string)
    requires dir in files
    ensures dir in Start(files, sid).1 && Start(files, sid).1[dir] == files[dir]
  {
    hide Normal, Search, IsSession;
  }

  /** The directory holds a `session.json` that names no session: it is unreadable or nameless. */
  predicate Ownerless(files: Files, dir: string) {
    dir in files && (files[dir].Broken? || files[dir].session == "")
  }

  /** The directory handed out is owned by the session exactly when it held no unreadable or nameless file. */
  lemma OwnedIff(files: Files, sid: string, dir: string)
    requires Start(files, sid).0 == Success(dir)
    ensures Owner(Start(files, sid).1, dir) == Some(Normal(sid))
       <==> !Ownerless(files, dir)
  {
    hide Normal, Prefix, WIDTHS, IsSession;
    SearchIs(files, Normal(sid), 0);
    SessionIsNotEmpty(Normal(sid));
  }

  lemma SessionIsNotEmpty(s: string)
    ensures IsSession(s) ==> s != ""
  {
  }

  // ---------------------------------------------------------------- runs

  function AfterRun(files: Files, sids: seq<string>): Files {
    if |sids| == 0 then files else Start(AfterRun(files, sids[..|sids| - 1]), sids[|sids| - 1]).1
  }

  lemma {:induction false} RunKeepsFiles(files: Files, sids: seq<string>, dir: string)
    requires dir in files
    ensures dir in AfterRun(files, sids) && AfterRun(files, sids)[dir] == files[dir]
  {
    if |sids| > 0 {
      hide Start;
      RunKeepsFiles(files, sids[..|sids| - 1], dir);
      StartKeepsFiles(AfterRun(files, sids[..|sids| - 1]), sids[|sids| - 1], dir);
    }
  }

  lemma FoundAt(files: Files, s: string) returns (j: nat)
    requires Search(files, s, 0).Some?
    ensures j < |WIDTHS| && Search(files, s, 0).value == Prefix(s, WIDTHS[j])
    ensures Usable(files, s, Prefix(s, WIDTHS[j])) && forall k :: 0 <= k < j ==> !Usable(files, s, Prefix(s, WIDTHS[k]))
  {
    hide Usable, Prefix, WIDTHS;
    SearchIs(files, s, 0);
    j :| 0 <= j < |WIDTHS| && Search(files, s, 0).value == Prefix(s, WIDTHS[j])
         && Usable(files, s, Prefix(s, WIDTHS[j])) && forall k :: 0 <= k < j ==> !Usable(files, s, Prefix(s, WIDTHS[k]));
  }

  lemma ForeignStaysForeign(files: Files, sid: string, later: seq<string>, s: string, dir: string)
    requires !Usable(files, s, dir)
    ensures !Usable(AfterRun(Start(files, sid).1, later), s, dir)
  {
    hide AfterRun, Start;
    StartKeepsFiles(files, sid, dir);
    RunKeepsFiles(Start(files, sid).1, later, dir);
  }

  lemma OwnStaysUsable(files: Files, sid: string, later: seq<string>, dir: string)
    requires Start(files, sid).0 == Success(dir)
    ensures var end := AfterRun(Start(files, sid).1, later); dir in end && Usable(end, Normal(sid), dir)
  {
    hide AfterRun, Start, Normal;
    StartHasFile(files, sid, dir);
    RunKeepsFiles(Start(files, sid).1, later, dir);
  }

  /** Whatever sessions start later, `sid8_of` gives a session the directory it was given at its start. */
  lemma DirectoryIsStable(files: Files, sid: string, dir: string, later: seq<string>)
    requires Start(files, sid).0 == Success(dir)
    ensures Sid8Of(AfterRun(Start(files, sid).1, later), sid) == Success(dir)
    ensures Start(AfterRun(Start(files, sid).1, later), sid).1 == AfterRun(Start(files, sid).1, later)
  {
    hide Normal, Prefix, IsSession, AfterRun, WIDTHS, Usable, Search;
    var s, end := Normal(sid), AfterRun(Start(files, sid).1, later);
    var j := FoundAt(files, s);
    OwnStaysUsable(files, sid, later, dir);
    forall k | 0 <= k < j
      ensures !Usable(end, s, Prefix(s, WIDTHS[k]))
    {
      ForeignStaysForeign(files, sid, later, s, Prefix(s, WIDTHS[k]));
    }
    SearchStops(end, s, 0, j);
  }

  lemma StartHasFile(files: Files, sid: string, dir: string)
    requires Start(files, sid).0 == Success(dir)
    ensures dir in Start(files, sid).1 && Usable(Start(files, sid).1, Normal(sid), dir)
  {
    hide Normal, Prefix, WIDTHS, IsSession;
    SearchIs(files, Normal(sid), 0);
  }

  lemma {:induction false} SearchStops(files: Files, s: string, i: nat, j: nat)
    requires i <= j < |WIDTHS| && Usable(files, s, Prefix(s, WIDTHS[j]))
    requires forall k :: i <= k < j ==> !Usable(files, s, Prefix(s, WIDTHS[k]))
    ensures Search(files, s, i) == Some(Prefix(s, WIDTHS[j]))
    decreases j - i
  {
    hide Usable, Prefix, WIDTHS;
    if i < j {
      SearchStops(files, s, i + 1, j);
    }
  }

  /** The directory is a prefix of the session's id, and all shorter ones belong to other sessions. */
  ghost predicate Reaches(files: Files, s: string, dir: string) {
    exists j :: 0 <= j < |WIDTHS| && dir == Prefix(s, WIDTHS[j])
                && forall k :: 0 <= k < j ==> !Usable(files, s, Prefix(s, WIDTHS[k]))
  }

  /** Different sessions, however many start in between, are given the same directory exactly when it held a file that
      names no session before the first of them started, and is reached by the second. */
  lemma DirectoryIsSharedIff(files: Files, first: string, between: seq<string>, second: string, dir: string, other: string)
    requires Normal(first) != Normal(second)
    requires Start(files, first).0 == Success(dir)
    requires Start(AfterRun(Start(files, first).1, between), second).0 == Success(other)
    ensures dir == other
       <==> Ownerless(files, dir) && Reaches(AfterRun(Start(files, first).1, between), Normal(second), dir)
  {
    hide Normal, AfterRun, Prefix, WIDTHS, IsSession, Search;
    var end := AfterRun(Start(files, first).1, between);
    StartHasFile(files, first, dir);
    OwnedIff(files, first, dir);
    RunKeepsFiles(Start(files, first).1, between, dir);
    assert end[dir] == Start(files, first).1[dir];
    var j := FoundAt(end, Normal(second));
    assert Reaches(end, Normal(second), other);
    if Ownerless(files, dir) && Reaches(end, Normal(second), dir) {
      StartKeepsFiles(files, first, dir);
      var i :| 0 <= i < |WIDTHS| && dir == Prefix(Normal(second), WIDTHS[i])
               && forall k :: 0 <= k < i ==> !Usable(end, Normal(second), Prefix(Normal(second), WIDTHS[k]));
      SearchStops(end, Normal(second), 0, i);
    }
  }

  /** So different sessions never get the same directory unless it held such a file. */
  lemma DirectoriesAreDistinct(files: Files, first: string, between: seq<string>, second: string, dir: string, other: string)
    requires Normal(first) != Normal(second) && !Ownerless(files, dir)
    requires Start(files, first).0 == Success(dir)
    requires Start(AfterRun(Start(files, first).1, between), second).0 == Success(other)
    ensures dir != other
  {
    hide Normal, AfterRun, Start, Reaches;
    DirectoryIsSharedIff(files, first, between, second, dir, other);
  }

  /** An unreadable `session.json` is shared: any two sessions with its prefix are given its directory. */
  lemma BrokenFileIsShared(files: Files, first: string, second: string)
    requires IsSession(Normal(first)) && IsSession(Normal(second))
    requires Normal(first)[..8] == Normal(second)[..8]
    requires Normal(first)[..8] in files && files[Normal(first)[..8]].Broken?
    ensures Start(files, first) == Start(files, second) == (Success(Normal(first)[..8]), files)
  {
    hide Normal;
    assert WIDTHS[0] == 8;
  }
}
