/** The clean-up of screenshots and recordings: four limits, from the narrowest to the widest, oldest files first. */
module Captures {
  import opened Sorting
  import opened Totals

  const CAPTURE_KEEP_PER_KIND := 200
  const RECORD_KEEP_PER_SESSION := 40
  const CAPTURE_MAX_BYTES_PER_SESSION := 512 * 1024 * 1024
  const CAPTURE_MAX_BYTES_BOX := 4 * 1024 * 1024 * 1024

  /** One entry of `_capture_entries`; protected files never become entries. */
  datatype Capture = Capture(path: string, kind: string, sid8: string, bytes: nat, mtime: int, record: bool)

  function BytesOf(e: Capture): nat {
    e.bytes
  }

  /** The sort key `(mtime, path)`. */
  predicate OlderCapture(a: Capture, b: Capture) {
    OlderPair(a.mtime, a.path, b.mtime, b.path)
  }

  function ByAge(rows: seq<Capture>): (r: seq<Capture>)
    ensures multiset(r) == multiset(rows) && |r| == |rows|
  {
    var r := SortWith(rows, OlderCapture);
    assert |r| == |multiset(r)| == |multiset(rows)|;
    r
  }

  // ---------------------------------------------------------------- rules

  /** The entries a limit is about. */
  datatype Bucket = OfKind(kind: string, sid8: string) | RecordsOf(sid8: string) | OfSession(sid8: string) | Everything

  predicate In(e: Capture, b: Bucket) {
    match b
    case OfKind(kind, sid8) => e.kind == kind && e.sid8 == sid8
    case RecordsOf(sid8) => e.sid8 == sid8 && e.record
    case OfSession(sid8) => e.sid8 == sid8
    case Everything => true
  }

  datatype Cap = Files(n: nat) | Bytes(n: nat)

  predicate Fits(rows: seq<Capture>, cap: Cap) {
    match cap
    case Files(n) => |rows| <= n
    case Bytes(n) => Total(rows, BytesOf) <= n
  }

  datatype Rule = Rule(bucket: Bucket, cap: Cap)

  /** The distinct keys of the entries, sorted. */
  function KindKeys(entries: seq<Capture>): (r: seq<(string, string)>)
    ensures forall e :: e in entries ==> (e.kind, e.sid8) in r
  {
    if |entries| == 0 then []
    else InsertKey((entries[0].kind, entries[0].sid8), KindKeys(entries[1..]))
  }

  function InsertKey(key: (string, string), keys: seq<(string, string)>): (r: seq<(string, string)>)
    ensures forall k :: k in r <==> k == key || k in keys
  {
    if |keys| == 0 then [key]
    else if keys[0] == key then keys
    else if StringLess(key.0, keys[0].0) || (key.0 == keys[0].0 && StringLess(key.1, keys[0].1)) then [key] + keys
    else [keys[0]] + InsertKey(key, keys[1..])
  }

  function SessionKeys(entries: seq<Capture>): (r: seq<string>)
    ensures forall e :: e in entries ==> e.sid8 in r
  {
    if |entries| == 0 then [] else InsertSession(entries[0].sid8, SessionKeys(entries[1..]))
  }

  function InsertSession(sid8: string, keys: seq<string>): (r: seq<string>)
    ensures forall k :: k in r <==> k == sid8 || k in keys
  {
    if |keys| == 0 then [sid8]
    else if keys[0] == sid8 then keys
    else if StringLess(sid8, keys[0]) then [sid8] + keys
    else [keys[0]] + InsertSession(sid8, keys[1..])
  }

  function KindRules(keys: seq<(string, string)>): (r: seq<Rule>)
    ensures |r| == |keys|
    ensures forall i :: 0 <= i < |r| ==> r[i] == Rule(OfKind(keys[i].0, keys[i].1), Files(CAPTURE_KEEP_PER_KIND))
  {
    seq(|keys|, i requires 0 <= i < |keys| => Rule(OfKind(keys[i].0, keys[i].1), Files(CAPTURE_KEEP_PER_KIND)))
  }

  function RecordRules(keys: seq<string>): (r: seq<Rule>)
    ensures |r| == |keys| && forall i :: 0 <= i < |r| ==> r[i] == Rule(RecordsOf(keys[i]), Files(RECORD_KEEP_PER_SESSION))
  {
    seq(|keys|, i requires 0 <= i < |keys| => Rule(RecordsOf(keys[i]), Files(RECORD_KEEP_PER_SESSION)))
  }

  function SessionRules(keys: seq<string>): (r: seq<Rule>)
    ensures |r| == |keys| && forall i :: 0 <= i < |r| ==> r[i] == Rule(OfSession(keys[i]), Bytes(CAPTURE_MAX_BYTES_PER_SESSION))
  {
    seq(|keys|, i requires 0 <= i < |keys| => Rule(OfSession(keys[i]), Bytes(CAPTURE_MAX_BYTES_PER_SESSION)))
  }

  /** The four phases, in order. */
  function Rules(entries: seq<Capture>): seq<Rule> {
    KindRules(KindKeys(entries)) + RecordRules(SessionKeys(entries)) + SessionRules(SessionKeys(entries))
    + [Rule(Everything, Bytes(CAPTURE_MAX_BYTES_BOX))]
  }

  lemma RulesAre(entries: seq<Capture>)
    ensures var (rules, kinds, sessions) := (Rules(entries), KindKeys(entries), SessionKeys(entries));
      && |rules| == |kinds| + |sessions| + |sessions| + 1
      && (forall i :: 0 <= i < |kinds| ==> rules[i] == Rule(OfKind(kinds[i].0, kinds[i].1), Files(CAPTURE_KEEP_PER_KIND)))
      && (forall i :: 0 <= i < |sessions| ==>
            rules[|kinds| + i] == Rule(RecordsOf(sessions[i]), Files(RECORD_KEEP_PER_SESSION)))
      && (forall i :: 0 <= i < |sessions| ==>
            rules[|kinds| + |sessions| + i] == Rule(OfSession(sessions[i]), Bytes(CAPTURE_MAX_BYTES_PER_SESSION)))
      && rules[|rules| - 1] == Rule(Everything, Bytes(CAPTURE_MAX_BYTES_BOX))
  {
    hide KindKeys, SessionKeys, KindRules, RecordRules, SessionRules;
  }

  // ---------------------------------------------------------------- marking

  function PathsOf(rows: seq<Capture>): set<string> {
    set e | e in rows :: e.path
  }

  function Open(marked: seq<Capture>, bucket: Bucket): Capture -> bool {
    (e: Capture) => e.path !in PathsOf(marked) && In(e, bucket)
  }

  /** The unmarked entries of a bucket. */
  function Rest(entries: seq<Capture>, marked: seq<Capture>, bucket: Bucket): seq<Capture> {
    Select(entries, Open(marked, bucket))
  }

  /** How many rows to drop from the front before the others fit. */
  function Excess(rows: seq<Capture>, cap: Cap): (n: nat)
    ensures n <= |rows|
  {
    if |rows| == 0 || Fits(rows, cap) then 0 else 1 + Excess(rows[1..], cap)
  }

  function Oldest(rows: seq<Capture>, cap: Cap): seq<Capture> {
    ByAge(rows)[..Excess(ByAge(rows), cap)]
  }

  function ApplyRule(entries: seq<Capture>, marked: seq<Capture>, rule: Rule): seq<Capture> {
    marked + Oldest(Rest(entries, marked, rule.bucket), rule.cap)
  }

  function ApplyRules(entries: seq<Capture>, rules: seq<Rule>): seq<Capture> {
    if |rules| == 0 then [] else ApplyRule(entries, ApplyRules(entries, rules[..|rules| - 1]), rules[|rules| - 1])
  }

  /** `retention`: what gets marked, in order. */
  function Marked(entries: seq<Capture>): seq<Capture> {
    ApplyRules(entries, Rules(entries))
  }

  function Kept(entries: seq<Capture>): seq<Capture> {
    Rest(entries, Marked(entries), Everything)
  }

  datatype Report = Report(removedFiles: nat, removedBytes: nat, keptFiles: nat, keptBytes: nat)

  function Unlinked(stuck: set<string>): Capture -> bool {
    (e: Capture) => e.path !in stuck
  }

  /** The report, `stuck` being the paths that cannot be unlinked. */
  function ReportOf(entries: seq<Capture>, dryRun: bool, stuck: set<string>): Report {
    var marked, kept := Marked(entries), Kept(entries);
    var removed := if dryRun then marked else Select(marked, Unlinked(stuck));
    Report(|removed|, Total(removed, BytesOf), |kept|, Total(kept, BytesOf))
  }

  // ---------------------------------------------------------------- the code

  lemma {:induction false} ExcessOfFiles(rows: seq<Capture>, n: nat)
    ensures Excess(rows, Files(n)) == if |rows| > n then |rows| - n else 0
  {
    if |rows| > 0 && |rows| > n {
      ExcessOfFiles(rows[1..], n);
    }
  }

  /** One clean-up: the entries, the marks made so far and the files on disk. */
  class Cleaner {
    const entries: seq<Capture>
    var marked: seq<Capture>

    constructor (found: seq<Capture>)
      ensures entries == found && marked == []
    {
      entries, marked := found, [];
    }

    /** A limit on the number of files of a bucket. */
    method LimitFiles(bucket: Bucket, n: nat)
      modifies this
      ensures marked == ApplyRule(entries, old(marked), Rule(bucket, Files(n)))
    {
      hide ByAge, Rest, Excess;
      var rows := ByAge(Rest(entries, marked, bucket));
      var count := if |rows| > n then |rows| - n else 0;
      ExcessOfFiles(rows, n);
      var k := 0;
      while k < count
        invariant k <= count && marked == old(marked) + rows[..k]
      {
        marked := marked + [rows[k]];
        assert rows[..k + 1] == rows[..k] + [rows[k]];
        k := k + 1;
      }
    }

    /** A limit on the bytes of a bucket. */
    method LimitBytes(bucket: Bucket, n: nat)
      modifies this
      ensures marked == ApplyRule(entries, old(marked), Rule(bucket, Bytes(n)))
    {
      hide ByAge, Rest;
      var rows := ByAge(Rest(entries, marked, bucket));
      var total := Total(rows, BytesOf);
      var k := 0;
      while k < |rows| && total > n
        invariant k <= |rows| && marked == old(marked) + rows[..k] && total == Total(rows[k..], BytesOf)
        invariant Excess(rows, Bytes(n)) == k + Excess(rows[k..], Bytes(n))
      {
        assert rows[k..][1..] == rows[k + 1..];
        total := total - rows[k].bytes;
        marked := marked + [rows[k]];
        assert rows[..k + 1] == rows[..k] + [rows[k]];
        k := k + 1;
      }
    }

    /** The first `k` rules have been applied. */
    ghost predicate Applied(k: nat)
      reads this
    {
      k <= |Rules(entries)| && marked == ApplyRules(entries, Rules(entries)[..k])
    }

    method MarkKinds(kinds: seq<(string, string)>)
      requires kinds == KindKeys(entries) && Applied(0)
      modifies this
      ensures Applied(|kinds|)
    {
      hide ApplyRule, KindKeys, SessionKeys, Rules;
      RulesAre(entries);
      var i := 0;
      while i < |kinds|
        invariant i <= |kinds| && Applied(i)
      {
        Advance(entries, Rules(entries), i);
        LimitFiles(OfKind(kinds[i].0, kinds[i].1), CAPTURE_KEEP_PER_KIND);
        i := i + 1;
      }
    }

    method MarkRecords(sessions: seq<string>, ghost done: nat)
      requires sessions == SessionKeys(entries) && done == |KindKeys(entries)| && Applied(done)
      modifies this
      ensures Applied(done + |sessions|)
    {
      hide ApplyRule, KindKeys, SessionKeys, Rules;
      RulesAre(entries);
      var i := 0;
      while i < |sessions|
        invariant i <= |sessions| && Applied(done + i)
      {
        Advance(entries, Rules(entries), done + i);
        LimitFiles(RecordsOf(sessions[i]), RECORD_KEEP_PER_SESSION);
        i := i + 1;
      }
    }

    method MarkSessions(sessions: seq<string>, ghost done: nat)
      requires sessions == SessionKeys(entries) && done == |KindKeys(entries)| + |sessions| && Applied(done)
      modifies this
      ensures Applied(done + |sessions|)
    {
      hide ApplyRule, KindKeys, SessionKeys, Rules;
      RulesAre(entries);
      var i := 0;
      while i < |sessions|
        invariant i <= |sessions| && Applied(done + i)
      {
        Advance(entries, Rules(entries), done + i);
        LimitBytes(OfSession(sessions[i]), CAPTURE_MAX_BYTES_PER_SESSION);
        i := i + 1;
      }
    }

    /** The four phases. */
    method Mark()
      requires marked == []
      modifies this
      ensures marked == Marked(entries)
    {
      hide ApplyRule, KindKeys, SessionKeys, Rules;
      RulesAre(entries);
      var kinds, sessions := KindKeys(entries), SessionKeys(entries);
      MarkKinds(kinds);
      MarkRecords(sessions, |kinds|);
      MarkSessions(sessions, |kinds| + |sessions|);
      ghost var rules := Rules(entries);
      Advance(entries, rules, |rules| - 1);
      LimitBytes(Everything, CAPTURE_MAX_BYTES_BOX);
      assert rules[..|rules|] == rules;
    }

    /** The unlinking loop; what cannot be unlinked is passed over. */
    method Unlink(stuck: set<string>) returns (removed: seq<Capture>, gone: set<string>)
      ensures removed == Select(marked, Unlinked(stuck)) && gone == PathsOf(marked) - stuck
    {
      removed, gone := [], {};
      var i := 0;
      assert Select(marked[..0], Unlinked(stuck)) == [] && PathsOf(marked[..0]) == {};
      hide Select, PathsOf;
      while i < |marked|
        invariant i <= |marked| && removed == Select(marked[..i], Unlinked(stuck))
        invariant gone == PathsOf(marked[..i]) - stuck
      {
        SelectPush(marked, i, Unlinked(stuck));
        PathsPush(marked, i);
        if marked[i].path !in stuck {
          gone := gone + {marked[i].path};
          removed := removed + [marked[i]];
        }
        i := i + 1;
      }
      assert marked[..i] == marked;
    }

    /** The clean-up and its report; `gone` is what is no longer on disk. */
    method Retention(dryRun: bool, stuck: set<string>) returns (report: Report, gone: set<string>)
      requires marked == []
      modifies this
      ensures report == ReportOf(entries, dryRun, stuck)
      ensures gone == if dryRun then {} else PathsOf(Marked(entries)) - stuck
    {
      hide Marked, Rest, Total, Select, PathsOf;
      Mark();
      var removed := marked;
      gone := {};
      if !dryRun {
        removed, gone := Unlink(stuck);
      }
      var kept := Rest(entries, marked, Everything);
      report := Report(|removed|, Total(removed, BytesOf), |kept|, Total(kept, BytesOf));
    }
  }

  lemma PathsPush(rows: seq<Capture>, i: nat)
    requires i < |rows|
    ensures PathsOf(rows[..i + 1]) == PathsOf(rows[..i]) + {rows[i].path}
  {
    assert rows[..i + 1] == rows[..i] + [rows[i]];
  }

  lemma Advance(entries: seq<Capture>, rules: seq<Rule>, i: nat)
    requires i < |rules|
    ensures ApplyRules(entries, rules[..i + 1]) == ApplyRule(entries, ApplyRules(entries, rules[..i]), rules[i])
  {
    assert rules[..i + 1][..i] == rules[..i];
    hide ApplyRule;
  }
}
