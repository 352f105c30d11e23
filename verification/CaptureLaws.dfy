/** What a clean-up leaves: all four limits at once, the oldest gone first, and books that balance. */
module CaptureLaws {
  import opened Sorting
  import opened Totals
  import opened Captures

  ghost predicate PathsDistinct(rows: seq<Capture>) {
    forall i, j :: 0 <= i < j < |rows| ==> rows[i].path != rows[j].path
  }

  lemma Distinct(rows: seq<Capture>)
    requires PathsDistinct(rows)
    ensures forall i, j :: 0 <= i < j < |rows| ==> rows[i] != rows[j]
  {
  }

  lemma SamePath(rows: seq<Capture>, a: Capture, b: Capture)
    requires PathsDistinct(rows) && a in rows && b in rows
    ensures a.path == b.path ==> a == b
  {
  }

  // ---------------------------------------------------------------- one rule

  /** Dropping `Excess` rows is enough, and dropping fewer is not. */
  lemma {:induction false} ExcessIsLeast(rows: seq<Capture>, cap: Cap)
    ensures var n := Excess(rows, cap);
      Fits(rows[n..], cap) && forall k :: 0 <= k < n ==> !Fits(rows[k..], cap)
  {
    if |rows| > 0 && !Fits(rows, cap) {
      ExcessIsLeast(rows[1..], cap);
      hide Fits;
      var n := Excess(rows, cap);
      assert rows[1..][n - 1..] == rows[n..];
      forall k | 0 <= k < n
        ensures !Fits(rows[k..], cap)
      {
        if k > 0 {
          assert rows[1..][k - 1..] == rows[k..];
        } else {
          assert rows[0..] == rows;
        }
      }
    } else {
      assert rows[0..] == rows;
    }
  }

  lemma {:induction false} FewerFit(entries: seq<Capture>, p: Capture -> bool, q: Capture -> bool, cap: Cap)
    requires forall e :: e in entries && q(e) ==> p(e)
    requires Fits(Select(entries, p), cap)
    ensures Fits(Select(entries, q), cap)
  {
    SelectLess(entries, p, q);
  }

  lemma {:induction false} SelectLess(entries: seq<Capture>, p: Capture -> bool, q: Capture -> bool)
    requires forall e :: e in entries && q(e) ==> p(e)
    ensures |Select(entries, q)| <= |Select(entries, p)|
    ensures Total(Select(entries, q), BytesOf) <= Total(Select(entries, p), BytesOf)
  {
    if |entries| > 0 {
      SelectLess(entries[1..], p, q);
    }
  }

  lemma PermutedFits(a: seq<Capture>, b: seq<Capture>, cap: Cap)
    requires multiset(a) == multiset(b)
    ensures Fits(a, cap) <==> Fits(b, cap)
  {
    TotalPermutation(a, b, BytesOf);
  }

  lemma ByAgeMembers(rows: seq<Capture>)
    ensures forall e :: e in ByAge(rows) <==> e in rows
  {
    SortMembers(rows, OlderCapture);
  }

  lemma RestMembers(entries: seq<Capture>, marked: seq<Capture>, b: Bucket, e: Capture)
    ensures e in Rest(entries, marked, b) <==> e in entries && e.path !in PathsOf(marked) && In(e, b)
  {
    SelectMembers(entries, Open(marked, b));
    hide PathsOf;
  }

  lemma PathsAppend(a: seq<Capture>, b: seq<Capture>)
    ensures PathsOf(a + b) == PathsOf(a) + PathsOf(b)
  {
  }

  /** The rows of a bucket in order of age, without repetition. */
  lemma RowsAre(entries: seq<Capture>, marked: seq<Capture>, b: Bucket)
    requires PathsDistinct(entries)
    ensures var rows := ByAge(Rest(entries, marked, b));
      && (forall e :: e in rows <==> e in entries && e.path !in PathsOf(marked) && In(e, b))
      && (forall i, j :: 0 <= i < j < |rows| ==> rows[i] != rows[j])
  {
    var rest := Rest(entries, marked, b);
    Distinct(entries);
    SelectDistinct(entries, Open(marked, b));
    ByAgeMembers(rest);
    PermutationDistinct(rest, ByAge(rest));
    hide PathsOf, ByAge, Rest, In;
    forall e
      ensures e in ByAge(rest) <==> e in entries && e.path !in PathsOf(marked) && In(e, b)
    {
      RestMembers(entries, marked, b, e);
    }
  }

  lemma PrefixOrSuffix(rows: seq<Capture>, n: nat, e: Capture)
    requires n <= |rows| && forall i, j :: 0 <= i < j < |rows| ==> rows[i] != rows[j]
    ensures e in rows <==> e in rows[..n] || e in rows[n..]
    ensures !(e in rows[..n] && e in rows[n..])
  {
    assert rows == rows[..n] + rows[n..];
  }

  /** A mark never has the path of another entry. */
  lemma PathOfMark(entries: seq<Capture>, marks: seq<Capture>, e: Capture)
    requires PathsDistinct(entries) && e in entries && forall m :: m in marks ==> m in entries
    ensures e.path in PathsOf(marks) <==> e in marks
  {
    if e.path in PathsOf(marks) {
      var m :| m in marks && m.path == e.path;
      SamePath(entries, m, e);
    }
  }

  /** After its rule has been applied, a bucket fits. */
  lemma RuleFits(entries: seq<Capture>, marked: seq<Capture>, rule: Rule)
    requires PathsDistinct(entries)
    ensures Fits(Rest(entries, ApplyRule(entries, marked, rule), rule.bucket), rule.cap)
  {
    var rows := ByAge(Rest(entries, marked, rule.bucket));
    var n := Excess(rows, rule.cap);
    var after := Rest(entries, marked + rows[..n], rule.bucket);
    ExcessIsLeast(rows, rule.cap);
    RowsAre(entries, marked, rule.bucket);
    AfterIsSuffix(entries, marked, rule.bucket, rows, n);
    hide Fits, Rest, ByAge, Excess;
    PermutedFits(after, rows[n..], rule.cap);
  }

  lemma AfterIsSuffix(entries: seq<Capture>, marked: seq<Capture>, b: Bucket, rows: seq<Capture>, n: nat)
    requires PathsDistinct(entries) && n <= |rows|
    requires forall e :: e in rows <==> e in entries && e.path !in PathsOf(marked) && In(e, b)
    requires forall i, j :: 0 <= i < j < |rows| ==> rows[i] != rows[j]
    ensures multiset(Rest(entries, marked + rows[..n], b)) == multiset(rows[n..])
  {
    var after := Rest(entries, marked + rows[..n], b);
    Distinct(entries);
    SelectDistinct(entries, Open(marked + rows[..n], b));
    PathsAppend(marked, rows[..n]);
    hide PathsOf, Rest, In;
    forall e
      ensures e in after <==> e in rows[n..]
    {
      RestMembers(entries, marked + rows[..n], b, e);
      PrefixOrSuffix(rows, n, e);
      if e in entries {
        PathOfMark(entries, rows[..n], e);
      }
    }
    SameElements(after, rows[n..]);
  }

  // ---------------------------------------------------------------- all rules

  /** Marks are entries, each marked once. */
  ghost predicate MarksAre(entries: seq<Capture>, marked: seq<Capture>) {
    PathsDistinct(marked) && forall m :: m in marked ==> m in entries
  }

  lemma RuleMarks(entries: seq<Capture>, marked: seq<Capture>, rule: Rule)
    requires PathsDistinct(entries) && MarksAre(entries, marked)
    ensures MarksAre(entries, ApplyRule(entries, marked, rule))
  {
    var rows := ByAge(Rest(entries, marked, rule.bucket));
    RowsAre(entries, marked, rule.bucket);
    hide Rest, ByAge, In;
    var more := Oldest(Rest(entries, marked, rule.bucket), rule.cap);
    PrefixMembers(more, rows);
    forall i, j | 0 <= i < j < |marked + more|
      ensures (marked + more)[i].path != (marked + more)[j].path
    {
      if i < |marked| <= j {
        assert marked[i] in marked && more[j - |marked|] in more;
      } else if |marked| <= i {
        var a, b := more[i - |marked|], more[j - |marked|];
        assert a in more && b in more && rows[i - |marked|] == a && rows[j - |marked|] == b;
        SamePath(entries, a, b);
      }
    }
  }

  lemma {:induction false} RulesMark(entries: seq<Capture>, rules: seq<Rule>)
    requires PathsDistinct(entries)
    ensures MarksAre(entries, ApplyRules(entries, rules))
  {
    hide ApplyRule, MarksAre;
    if |rules| == 0 {
      NoMarks(entries);
    } else {
      RulesMark(entries, rules[..|rules| - 1]);
      RuleMarks(entries, ApplyRules(entries, rules[..|rules| - 1]), rules[|rules| - 1]);
    }
  }

  lemma NoMarks(entries: seq<Capture>)
    ensures MarksAre(entries, [])
  {
  }

  /** Later rules never break a limit that holds. */
  lemma LaterRulesKeep(entries: seq<Capture>, marked: seq<Capture>, rule: Rule, b: Bucket, cap: Cap)
    requires Fits(Rest(entries, marked, b), cap)
    ensures Fits(Rest(entries, ApplyRule(entries, marked, rule), b), cap)
  {
    var more := Oldest(Rest(entries, marked, rule.bucket), rule.cap);
    PathsAppend(marked, more);
    hide Fits, Oldest, In, PathsOf;
    FewerFit(entries, Open(marked, b), Open(marked + more, b), cap);
  }

  lemma {:induction false} RulesFit(entries: seq<Capture>, rules: seq<Rule>)
    requires PathsDistinct(entries)
    ensures forall r :: r in rules ==> Fits(Rest(entries, ApplyRules(entries, rules), r.bucket), r.cap)
  {
    hide Fits, Rest, ApplyRule;
    if |rules| > 0 {
      var front, last := rules[..|rules| - 1], rules[|rules| - 1];
      RulesFit(entries, front);
      var marked := ApplyRules(entries, front);
      RuleFits(entries, marked, last);
      forall r | r in rules
        ensures Fits(Rest(entries, ApplyRules(entries, rules), r.bucket), r.cap)
      {
        if r != last {
          assert r in front;
          LaterRulesKeep(entries, marked, last, r.bucket, r.cap);
        }
      }
    }
  }

  // ---------------------------------------------------------------- the limits

  function InBucket(b: Bucket): Capture -> bool {
    (e: Capture) => In(e, b)
  }

  ghost predicate Meets(kept: seq<Capture>, b: Bucket, cap: Cap) {
    Fits(Select(kept, InBucket(b)), cap)
  }

  lemma {:induction false} SelectSelect(s: seq<Capture>, p: Capture -> bool, q: Capture -> bool, both: Capture -> bool)
    requires forall e :: e in s ==> (both(e) <==> p(e) && q(e))
    ensures Select(Select(s, p), q) == Select(s, both)
  {
    if |s| > 0 {
      SelectSelect(s[1..], p, q, both);
      if p(s[0]) {
        assert Select(s, p)[1..] == Select(s[1..], p);
      }
    }
  }

  lemma KeptOfBucket(entries: seq<Capture>, b: Bucket)
    ensures Select(Kept(entries), InBucket(b)) == Rest(entries, Marked(entries), b)
  {
    hide Marked, PathsOf;
    var marked := Marked(entries);
    SelectSelect(entries, Open(marked, Everything), InBucket(b), Open(marked, b));
  }

  lemma {:induction false} NoneInBucket(s: seq<Capture>, b: Bucket)
    requires forall e :: e in s ==> !In(e, b)
    ensures Select(s, InBucket(b)) == []
  {
    if |s| > 0 {
      NoneInBucket(s[1..], b);
    }
  }

  lemma RuleIsMet(entries: seq<Capture>, rule: Rule)
    requires PathsDistinct(entries) && rule in Rules(entries)
    ensures Meets(Kept(entries), rule.bucket, rule.cap)
  {
    hide Rules, Rest, Fits, ApplyRules;
    RulesFit(entries, Rules(entries));
    KeptOfBucket(entries, rule.bucket);
  }

  lemma KeptAreEntries(entries: seq<Capture>)
    ensures forall e :: e in Kept(entries) ==> e in entries
  {
    SelectMembers(entries, Open(Marked(entries), Everything));
    hide Marked;
  }

  lemma NothingMeets(kept: seq<Capture>, b: Bucket, cap: Cap)
    requires forall e :: e in kept ==> !In(e, b)
    ensures Meets(kept, b, cap)
  {
    NoneInBucket(kept, b);
  }

  lemma RulesOf(entries: seq<Capture>, kind: string, sid8: string)
    ensures (kind, sid8) in KindKeys(entries) ==> Rule(OfKind(kind, sid8), Files(CAPTURE_KEEP_PER_KIND)) in Rules(entries)
    ensures sid8 in SessionKeys(entries) ==>
              && Rule(RecordsOf(sid8), Files(RECORD_KEEP_PER_SESSION)) in Rules(entries)
              && Rule(OfSession(sid8), Bytes(CAPTURE_MAX_BYTES_PER_SESSION)) in Rules(entries)
    ensures Rule(Everything, Bytes(CAPTURE_MAX_BYTES_BOX)) in Rules(entries)
  {
    hide KindKeys, SessionKeys;
    var kinds, sessions := KindKeys(entries), SessionKeys(entries);
    if (kind, sid8) in kinds {
      var i :| 0 <= i < |kinds| && kinds[i] == (kind, sid8);
      assert KindRules(kinds)[i] in KindRules(kinds);
    }
    if sid8 in sessions {
      var i :| 0 <= i < |sessions| && sessions[i] == sid8;
      assert RecordRules(sessions)[i] in RecordRules(sessions);
      assert SessionRules(sessions)[i] in SessionRules(sessions);
    }
  }

  /** All four limits hold at once of what is kept, for every kind and session. */
  lemma AllLimitsHold(entries: seq<Capture>, kind: string, sid8: string)
    requires PathsDistinct(entries)
    ensures Meets(Kept(entries), OfKind(kind, sid8), Files(CAPTURE_KEEP_PER_KIND))
    ensures Meets(Kept(entries), RecordsOf(sid8), Files(RECORD_KEEP_PER_SESSION))
    ensures Meets(Kept(entries), OfSession(sid8), Bytes(CAPTURE_MAX_BYTES_PER_SESSION))
    ensures Meets(Kept(entries), Everything, Bytes(CAPTURE_MAX_BYTES_BOX))
  {
    hide Rules, Kept, Meets, KindKeys, SessionKeys;
    RulesOf(entries, kind, sid8);
    KeptAreEntries(entries);
    RuleIsMet(entries, Rule(Everything, Bytes(CAPTURE_MAX_BYTES_BOX)));
    if (kind, sid8) in KindKeys(entries) {
      RuleIsMet(entries, Rule(OfKind(kind, sid8), Files(CAPTURE_KEEP_PER_KIND)));
    } else {
      NothingMeets(Kept(entries), OfKind(kind, sid8), Files(CAPTURE_KEEP_PER_KIND));
    }
    if sid8 in SessionKeys(entries) {
      RuleIsMet(entries, Rule(RecordsOf(sid8), Files(RECORD_KEEP_PER_SESSION)));
      RuleIsMet(entries, Rule(OfSession(sid8), Bytes(CAPTURE_MAX_BYTES_PER_SESSION)));
    } else {
      NothingMeets(Kept(entries), RecordsOf(sid8), Files(RECORD_KEEP_PER_SESSION));
      NothingMeets(Kept(entries), OfSession(sid8), Bytes(CAPTURE_MAX_BYTES_PER_SESSION));
    }
  }

  lemma {:induction false} FewerRows(rows: seq<Capture>, s: seq<Capture>)
    requires (forall i, j :: 0 <= i < j < |rows| ==> rows[i] != rows[j]) && forall e :: e in rows ==> e in s
    ensures |rows| <= |s| && Total(rows, BytesOf) <= Total(s, BytesOf)
    decreases |rows|
  {
    if |rows| > 0 {
      assert rows[0] in rows && rows[0] in s;
      var i :| 0 <= i < |s| && s[i] == rows[0];
      var s' := Without(s, i);
      WithoutOne(s, i, BytesOf);
      forall e | e in rows[1..]
        ensures e in s'
      {
        assert e in rows && e in s;
        var k :| 0 <= k < |s| && s[k] == e;
        assert s'[if k < i then k else k - 1] == e;
      }
      FewerRows(rows[1..], s');
    }
  }

  /** Said of any kept files of one session, none of them twice: at most 200 are of one kind, at most 40 are records, and
      they have at most 512 megabytes. */
  lemma NoMoreIsKept(entries: seq<Capture>, rows: seq<Capture>, kind: string, sid8: string)
    requires PathsDistinct(entries) && forall i, j :: 0 <= i < j < |rows| ==> rows[i] != rows[j]
    requires forall e :: e in rows ==> e in Kept(entries) && e.sid8 == sid8
    ensures (forall e :: e in rows ==> e.kind == kind) ==> |rows| <= 200
    ensures (forall e :: e in rows ==> e.record) ==> |rows| <= 40
    ensures Total(rows, BytesOf) <= 536_870_912
  {
    hide Kept, Select, Total;
    AllLimitsHold(entries, kind, sid8);
    if forall e :: e in rows ==> e.kind == kind {
      RowsOfBucket(Kept(entries), rows, OfKind(kind, sid8));
    }
    if forall e :: e in rows ==> e.record {
      RowsOfBucket(Kept(entries), rows, RecordsOf(sid8));
    }
    RowsOfBucket(Kept(entries), rows, OfSession(sid8));
  }

  lemma RowsOfBucket(kept: seq<Capture>, rows: seq<Capture>, b: Bucket)
    requires forall i, j :: 0 <= i < j < |rows| ==> rows[i] != rows[j]
    requires forall e :: e in rows ==> e in kept && In(e, b)
    ensures |rows| <= |Select(kept, InBucket(b))| && Total(rows, BytesOf) <= Total(Select(kept, InBucket(b)), BytesOf)
  {
    SelectMembers(kept, InBucket(b));
    hide In, Select, Total;
    FewerRows(rows, Select(kept, InBucket(b)));
  }

  /** And all kept files together have at most 4 gigabytes. */
  lemma AllKeptFit(entries: seq<Capture>)
    requires PathsDistinct(entries)
    ensures Total(Kept(entries), BytesOf) <= 4_294_967_296
  {
    hide Kept, Total;
    AllLimitsHold(entries, "", "");
    AllInBucket(Kept(entries));
  }

  lemma {:induction false} AllInBucket(s: seq<Capture>)
    ensures Select(s, InBucket(Everything)) == s
  {
    if |s| > 0 {
      AllInBucket(s[1..]);
    }
  }

  // ---------------------------------------------------------------- oldest first, and no more than needed

  lemma OlderIsOrder()
    ensures IsOrder(OlderCapture)
  {
    AgeIsOrder(OlderCapture, (e: Capture) => e.mtime, (e: Capture) => e.path);
  }

  /** In the order of times, and for one time of paths, the first is not behind the other. */
  predicate NotBehind(a: Capture, b: Capture) {
    a.mtime < b.mtime || (a.mtime == b.mtime && !StringLess(b.path, a.path))
  }

  lemma NotOlder(a: Capture, b: Capture)
    requires !OlderCapture(a, b)
    ensures NotBehind(b, a)
  {
  }

  /** Each rule marks the oldest unmarked entries of its bucket, and as few of them as its limit allows: at each mark the
      bucket does not fit yet, and no unmarked entry of it is older. */
  lemma RuleMarksLeast(entries: seq<Capture>, marked: seq<Capture>, rule: Rule)
    requires PathsDistinct(entries)
    ensures var after := ApplyRule(entries, marked, rule);
      && marked <= after
      && forall k :: |marked| <= k < |after| ==> IsDue(entries, after, k, rule.bucket, rule.cap)
  {
    var rows := ByAge(Rest(entries, marked, rule.bucket));
    var n := Excess(rows, rule.cap);
    var after := ApplyRule(entries, marked, rule);
    RowsAre(entries, marked, rule.bucket);
    ExcessIsLeast(rows, rule.cap);
    RowsOrdered(entries, marked, rule.bucket);
    assert after == marked + rows[..n];
    hide Rest, ByAge, Fits, Excess, In, OlderCapture, PathsOf, NotBehind;
    forall k | |marked| <= k < |after|
      ensures IsDue(entries, after, k, rule.bucket, rule.cap)
    {
      var m := k - |marked|;
      assert after[..k] == marked + rows[..m] && after[k] == rows[m] && rows[m] in rows;
      AfterIsSuffix(entries, marked, rule.bucket, rows, m);
      var rest := Rest(entries, after[..k], rule.bucket);
      PermutedFits(rest, rows[m..], rule.cap);
      SameMembers(rest, rows[m..]);
      forall e | e in rest
        ensures NotBehind(after[k], e)
      {
        FirstIsOldest(rows, m, e);
      }
    }
  }

  /** At this mark the bucket holds the entry marked, does not fit, and holds no unmarked entry that is older. */
  ghost predicate IsDue(entries: seq<Capture>, marked: seq<Capture>, k: nat, b: Bucket, cap: Cap)
    requires k < |marked|
  {
    In(marked[k], b) && !Fits(Rest(entries, marked[..k], b), cap)
    && forall e :: e in Rest(entries, marked[..k], b) ==> NotBehind(marked[k], e)
  }

  lemma FirstIsOldest(rows: seq<Capture>, m: nat, e: Capture)
    requires OrderedBy(rows, OlderCapture) && m < |rows| && e in rows[m..]
    ensures NotBehind(rows[m], e)
  {
    hide OlderCapture, NotBehind;
    var j :| 0 <= j < |rows| - m && rows[m..][j] == e;
    assert rows[m + j] == e;
    if j == 0 {
      NotBehindItself(e);
    } else {
      NotOlder(e, rows[m]);
    }
  }

  lemma NotBehindItself(e: Capture)
    ensures NotBehind(e, e)
  {
    if StringLess(e.path, e.path) {
      StringOrderIsStrict(e.path, e.path);
    }
  }

  /** The limits an entry falls under: 200 files of its kind in its session, 40 records of the session if it is one, 512
      megabytes of the session, 4 gigabytes in all. */
  predicate IsLimitFor(e: Capture, b: Bucket, cap: Cap) {
    match b
    case OfKind(kind, sid8) => e.kind == kind && e.sid8 == sid8 && cap == Files(200)
    case RecordsOf(sid8) => e.record && e.sid8 == sid8 && cap == Files(40)
    case OfSession(sid8) => e.sid8 == sid8 && cap == Bytes(536_870_912)
    case Everything => cap == Bytes(4_294_967_296)
  }

  lemma {:induction false} RulesMarkLeast(entries: seq<Capture>, rules: seq<Rule>, k: nat)
    requires PathsDistinct(entries) && k < |ApplyRules(entries, rules)|
    ensures exists rule :: rule in rules && IsDue(entries, ApplyRules(entries, rules), k, rule.bucket, rule.cap)
  {
    hide ApplyRule, IsDue;
    if |rules| > 0 {
      var front, last := rules[..|rules| - 1], rules[|rules| - 1];
      var before, after := ApplyRules(entries, front), ApplyRules(entries, rules);
      RuleMarksLeast(entries, before, last);
      if k < |before| {
        RulesMarkLeast(entries, front, k);
        var rule :| rule in front && IsDue(entries, before, k, rule.bucket, rule.cap);
        StillDue(entries, before, after, k, rule);
        assert rule in rules;
      } else {
        assert last in rules && IsDue(entries, after, k, last.bucket, last.cap);
      }
    }
  }

  lemma StillDue(entries: seq<Capture>, before: seq<Capture>, after: seq<Capture>, k: nat, rule: Rule)
    requires before <= after && k < |before| && IsDue(entries, before, k, rule.bucket, rule.cap)
    ensures IsDue(entries, after, k, rule.bucket, rule.cap)
  {
    hide In, Fits, Rest, NotBehind;
    assert before[..k] == after[..k];
  }

  /** Nothing is marked in vain: at each mark one of the four limits does not hold, and of the unmarked files it is about
      the one marked is the oldest. */
  lemma NothingMarkedInVain(entries: seq<Capture>, k: nat)
    requires PathsDistinct(entries) && k < |Marked(entries)|
    ensures exists b, cap :: IsLimitFor(Marked(entries)[k], b, cap) && IsDue(entries, Marked(entries), k, b, cap)
  {
    hide ApplyRules, Fits, Rest, NotBehind, Rules;
    RulesMarkLeast(entries, Rules(entries), k);
    var rule :| rule in Rules(entries) && IsDue(entries, Marked(entries), k, rule.bucket, rule.cap);
    RulesAreLimits(entries, rule, Marked(entries)[k]);
  }

  lemma RulesAreLimits(entries: seq<Capture>, rule: Rule, e: Capture)
    requires rule in Rules(entries) && In(e, rule.bucket)
    ensures IsLimitFor(e, rule.bucket, rule.cap)
  {
    hide KindKeys, SessionKeys;
  }

  lemma RowsOrdered(entries: seq<Capture>, marked: seq<Capture>, b: Bucket)
    ensures OrderedBy(ByAge(Rest(entries, marked, b)), OlderCapture)
  {
    OlderIsOrder();
    SortOrders(Rest(entries, marked, b), OlderCapture);
  }

  // ---------------------------------------------------------------- the books

  /** Marked and kept entries partition the listing. */
  lemma MarkedAndKept(entries: seq<Capture>)
    requires PathsDistinct(entries)
    ensures multiset(Marked(entries)) + multiset(Kept(entries)) == multiset(entries)
    ensures |Marked(entries)| + |Kept(entries)| == |entries|
    ensures Total(Marked(entries), BytesOf) + Total(Kept(entries), BytesOf) == Total(entries, BytesOf)
  {
    hide Marked, PathsOf;
    var marked := Marked(entries);
    assert MarksAre(entries, marked) by { MarkedAre(entries); }
    var gone := Select(entries, MarkedIn(marked));
    SelectSplits(entries, MarkedIn(marked), Open(marked, Everything));
    Distinct(entries);
    Distinct(marked);
    SelectDistinct(entries, MarkedIn(marked));
    SelectMembers(entries, MarkedIn(marked));
    forall e
      ensures e in gone <==> e in marked
    {
      if e in entries {
        PathOfMark(entries, marked, e);
      }
    }
    SameElements(gone, marked);
    TotalsAddUp(entries, marked, Kept(entries), BytesOf);
  }

  function MarkedIn(marked: seq<Capture>): Capture -> bool {
    (e: Capture) => e.path in PathsOf(marked)
  }

  lemma MarkedAre(entries: seq<Capture>)
    requires PathsDistinct(entries)
    ensures MarksAre(entries, Marked(entries))
  {
    RulesMark(entries, Rules(entries));
  }

  function NotUnlinked(stuck: set<string>): Capture -> bool {
    (e: Capture) => e.path in stuck
  }

  /** The report accounts for every file exactly when it is a dry run or every marked file could be unlinked: a file
      that stays because unlinking failed is counted neither as removed nor as kept. */
  lemma ReportAddsUpIff(entries: seq<Capture>, dryRun: bool, stuck: set<string>)
    requires PathsDistinct(entries)
    ensures var r := ReportOf(entries, dryRun, stuck);
      && (r.removedFiles + r.keptFiles == |entries| <==> dryRun || forall e :: e in Marked(entries) ==> e.path !in stuck)
      && (dryRun || (forall e :: e in Marked(entries) ==> e.path !in stuck) ==>
            r.removedBytes + r.keptBytes == Total(entries, BytesOf))
  {
    MarkedAndKept(entries);
    hide Marked, Kept, Select, Total;
    if !dryRun {
      UnlinkedAll(Marked(entries), stuck);
    }
  }

  lemma UnlinkedAll(marked: seq<Capture>, stuck: set<string>)
    ensures |Select(marked, Unlinked(stuck))| == |marked| <==> forall e :: e in marked ==> e.path !in stuck
    ensures |Select(marked, Unlinked(stuck))| == |marked| ==>
              Total(Select(marked, Unlinked(stuck)), BytesOf) == Total(marked, BytesOf)
  {
    var left := Select(marked, NotUnlinked(stuck));
    SelectSplits(marked, Unlinked(stuck), NotUnlinked(stuck));
    TotalsAddUp(marked, Select(marked, Unlinked(stuck)), left, BytesOf);
    SelectMembers(marked, NotUnlinked(stuck));
    assert |left| == 0 ==> Total(left, BytesOf) == 0;
    hide Select, Total;
    if |left| > 0 {
      assert left[0] in left;
    }
    forall e | e in marked && e.path in stuck
      ensures |left| > 0
    {
      assert e in left;
    }
  }

  /** A capture too large for the box that cannot be unlinked is in no number of the report. */
  lemma StuckFileIsNotReported(e: Capture)
    requires e.bytes > CAPTURE_MAX_BYTES_BOX
    ensures ReportOf([e], false, {e.path}) == Report(0, 0, 0, 0)
  {
    assert PathsDistinct([e]);
    AllLimitsHold([e], e.kind, e.sid8);
    MarkedAre([e]);
    hide Marked;
    var kept, removed := Kept([e]), Select(Marked([e]), Unlinked({e.path}));
    SelectMembers(Marked([e]), Unlinked({e.path}));
    assert forall m :: m in Marked([e]) ==> m == e;
    SomeMember(removed);
    KeptAreEntries([e]);
    SelectMembers(kept, InBucket(Everything));
    EachFits(Select(kept, InBucket(Everything)), CAPTURE_MAX_BYTES_BOX);
    SomeMember(kept);
  }

  lemma EachFits(rows: seq<Capture>, n: nat)
    requires Total(rows, BytesOf) <= n
    ensures forall m :: m in rows ==> m.bytes <= n
  {
    forall m | m in rows
      ensures m.bytes <= n
    {
      TotalIsAtLeast(rows, m, BytesOf);
    }
  }

  lemma SomeMember(rows: seq<Capture>)
    ensures rows == [] || exists m :: m in rows
  {
    if |rows| > 0 {
      assert rows[0] in rows;
    }
  }
}
