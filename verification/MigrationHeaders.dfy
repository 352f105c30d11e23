/** Which headers a migration plans, what they say, and what writing one does to a file. */
module MigrationHeaders {
  import opened Wrappers
  import opened Strings
  import opened Sorting
  import opened PlanGrammar
  import opened PlanHeader
  import opened MigrationPlan
  import opened MigrationSafety
  import opened MigrationApply

  // ---------------------------------------------------------------- the parent

  /** `parent` is the greatest smaller version in `f`'s group, none when there is no smaller one. */
  ghost predicate IsParent(finals: seq<Entry>, f: Entry, parent: Option<nat>) {
    match parent
    case None => forall g :: g in finals && g.identity == f.identity ==> f.version <= g.version
    case Some(v) =>
      && v < f.version
      && (exists g :: g in finals && g.identity == f.identity && g.version == v)
      && (forall g :: g in finals && g.identity == f.identity && g.version < f.version ==> g.version <= v)
  }

  ghost predicate HeaderOf(finals: seq<Entry>, f: Entry, h: HeaderChange) {
    h.path == f.name && h.identity == f.identity && h.version == f.version && IsParent(finals, f, h.parent)
  }

  /** No two final entries claim the same version of the same plan. */
  ghost predicate VersionsDistinct(es: seq<Entry>) {
    forall e, f :: e in es && f in es && e.identity == f.identity && e.version == f.version ==> e == f
  }

  ghost predicate Ascending(es: seq<Entry>) {
    forall i, j :: 0 <= i < j < |es| ==> es[i].version <= es[j].version
  }

  lemma SortSorted(es: seq<Entry>)
    ensures Ascending(SortByVersion(es))
  {
    assert IsOrder(LowerVersion);
    SortOrders(es, LowerVersion);
  }

  ghost predicate Ordered(finals: seq<Entry>, ordered: seq<Entry>, identity: string) {
    && Distinct(ordered) && VersionsDistinct(ordered)
    && Ascending(ordered)
    && (forall e :: e in ordered <==> e in finals && e.identity == identity)
  }

  lemma PredecessorIsParent(finals: seq<Entry>, ordered: seq<Entry>, identity: string, i: nat)
    requires Ordered(finals, ordered, identity) && i < |ordered|
    ensures IsParent(finals, ordered[i], if i > 0 then Some(ordered[i - 1].version) else None)
  {
  }

  lemma {:induction false} GroupHeadersSay(finals: seq<Entry>, ordered: seq<Entry>, identity: string, index: nat)
    requires Ordered(finals, ordered, identity) && index <= |ordered|
    ensures forall h :: h in GroupHeaders(ordered, index) ==> exists f :: f in finals && !f.header && HeaderOf(finals, f, h)
    ensures forall i :: index <= i < |ordered| && !ordered[i].header ==>
              exists h :: h in GroupHeaders(ordered, index) && h.path == ordered[i].name
    decreases |ordered| - index
  {
    hide IsParent, Ordered;
    if index < |ordered| {
      GroupHeadersSay(finals, ordered, identity, index + 1);
      PredecessorIsParent(finals, ordered, identity, index);
      var e := ordered[index];
      var h := HeaderChange(e.name, e.identity, e.version, if index > 0 then Some(ordered[index - 1].version) else None);
      InGroup(finals, ordered, identity, index);
      assert HeaderOf(finals, e, h);
      var rest := GroupHeaders(ordered, index + 1);
      assert GroupHeaders(ordered, index) == (if e.header then [] else [h]) + rest;
      forall i | index <= i < |ordered| && !ordered[i].header
        ensures exists h' :: h' in GroupHeaders(ordered, index) && h'.path == ordered[i].name
      {
        if i == index {
          assert h in GroupHeaders(ordered, index);
        } else {
          var h' :| h' in rest && h'.path == ordered[i].name;
          assert h' in GroupHeaders(ordered, index);
        }
      }
    }
  }

  lemma InGroup(finals: seq<Entry>, ordered: seq<Entry>, identity: string, i: nat)
    requires Ordered(finals, ordered, identity) && i < |ordered|
    ensures ordered[i] in finals && ordered[i].identity == identity
  {
    assert ordered[i] in ordered;
  }

  lemma GroupIsOrdered(finals: seq<Entry>, identity: string)
    requires Distinct(finals) && VersionsDistinct(finals)
    ensures Ordered(finals, SortByVersion(Group(finals, identity)), identity)
  {
    var g := Group(finals, identity);
    GroupDistinct(finals, identity);
    SortDistinct(g);
    SortSorted(g);
  }

  lemma {:induction false} AllHeadersSay(finals: seq<Entry>, ids: seq<string>)
    requires Distinct(finals) && VersionsDistinct(finals)
    ensures forall h :: h in AllHeaders(finals, ids) ==> exists f :: f in finals && !f.header && HeaderOf(finals, f, h)
    ensures forall f :: f in finals && !f.header && f.identity in ids ==>
              exists h :: h in AllHeaders(finals, ids) && h.path == f.name
  {
    hide HeaderOf, SortByVersion, Group, Ordered;
    if |ids| > 0 {
      var ordered := SortByVersion(Group(finals, ids[0]));
      GroupIsOrdered(finals, ids[0]);
      GroupHeadersSay(finals, ordered, ids[0], 0);
      AllHeadersSay(finals, ids[1..]);
      var here, rest := GroupHeaders(ordered, 0), AllHeaders(finals, ids[1..]);
      assert AllHeaders(finals, ids) == here + rest;
      forall f | f in finals && !f.header && f.identity in ids
        ensures exists h :: h in AllHeaders(finals, ids) && h.path == f.name
      {
        if f.identity == ids[0] {
          MemberOfGroup(finals, ordered, ids[0], f);
          var i :| 0 <= i < |ordered| && ordered[i] == f;
          var h :| h in here && h.path == ordered[i].name;
          assert h in AllHeaders(finals, ids);
        } else {
          assert f.identity in ids[1..];
          var h :| h in rest && h.path == f.name;
          assert h in AllHeaders(finals, ids);
        }
      }
    }
  }

  lemma MemberOfGroup(finals: seq<Entry>, ordered: seq<Entry>, identity: string, f: Entry)
    requires Ordered(finals, ordered, identity) && f in finals && f.identity == identity
    ensures f in ordered
  {
  }

  /** The planned headers are one per entry without a header, each naming the right parent. */
  lemma PlannedHeaders(finals: seq<Entry>)
    requires Distinct(finals) && VersionsDistinct(finals)
    ensures forall h :: h in PlanHeaders(finals) ==> exists f :: f in finals && !f.header && HeaderOf(finals, f, h)
    ensures forall f :: f in finals && !f.header ==> HeaderFor(PlanHeaders(finals), f.name).Some?
  {
    hide HeaderOf, AllHeaders;
    SortedStringsDistinct(Identities(finals));
    var ids := SortStrings(Identities(finals));
    AllHeadersSay(finals, ids);
    forall f | f in finals && !f.header
      ensures HeaderFor(PlanHeaders(finals), f.name).Some?
    {
      assert f.identity in Identities(finals);
      var h :| h in AllHeaders(finals, ids) && h.path == f.name;
    }
  }

  /** The header a final entry gets, if it gets one. */
  lemma HeaderForEntry(finals: seq<Entry>, f: Entry)
    requires Distinct(finals) && VersionsDistinct(finals) && f in finals
    ensures HeaderFor(PlanHeaders(finals), f.name).Some? <==> !f.header
    ensures !f.header ==> HeaderOf(finals, f, HeaderFor(PlanHeaders(finals), f.name).value)
  {
    hide HeaderOf, PlanHeaders, IsParent;
    PlannedHeaders(finals);
    var r := HeaderFor(PlanHeaders(finals), f.name);
    if r.Some? {
      var g :| g in finals && !g.header && HeaderOf(finals, g, r.value);
      SameEntry(finals, f, g, r.value);
    }
  }

  lemma SameEntry(finals: seq<Entry>, f: Entry, g: Entry, h: HeaderChange)
    requires Distinct(finals) && f in finals && g in finals && HeaderOf(finals, g, h) && h.path == f.name
    ensures f == g
  {
    NameDeterminesEntry(finals, f, g);
  }

  // ---------------------------------------------------------------- writing a header

  lemma {:induction false} NewlinesAreUniversal(s: string)
    ensures '\r' !in UniversalNewlines(s)
  {
    if |s| > 0 {
      if s[0] == '\r' {
        NewlinesAreUniversal(s[if |s| > 1 && s[1] == '\n' then 2 else 1..]);
      } else {
        NewlinesAreUniversal(s[1..]);
      }
    }
  }

  /** Text mode leaves a text alone exactly when it has no carriage return. */
  lemma {:induction false} NewlinesKeptIff(s: string)
    ensures UniversalNewlines(s) == s <==> '\r' !in s
  {
    if |s| > 0 {
      if s[0] == '\r' {
        NewlinesAreUniversal(s);
      } else {
        NewlinesKeptIff(s[1..]);
        assert s == [s[0]] + s[1..];
      }
    }
  }

  /** The file's own text follows the new block unchanged exactly when it has no carriage return. */
  lemma TextKeptIff(h: HeaderChange, text: string)
    ensures Written(h, text) == HeaderBlock(h.version, h.identity, h.parent, h.identity) + text <==> '\r' !in text
  {
    hide UniversalNewlines, HeaderBlock;
    NewlinesKeptIff(text);
    var block := HeaderBlock(h.version, h.identity, h.parent, h.identity);
    assert (block + UniversalNewlines(text))[|block|..] == UniversalNewlines(text);
    assert (block + text)[|block|..] == text;
  }

  /** For example of "a", carriage return, line feed, the carriage return is lost. */
  lemma CarriageReturnIsLost(h: HeaderChange)
    ensures Written(h, "a\r\n") == HeaderBlock(h.version, h.identity, h.parent, h.identity) + "a\n"
  {
    hide HeaderBlock;
    assert "a\r\n"[1..] == "\r\n" && "\r\n"[2..] == "";
    assert UniversalNewlines("\r\n") == "\n";
  }

  /** A flat slug is an identity. */
  lemma SlugIsIdentity(s: string)
    requires IsSlug(s)
    ensures IsIdentity(s)
  {
    SlugChars(s);
    SplitWhole(s, '/');
  }

  /** A header written for a proper slug parses as `ok` with exactly what was planned. */
  lemma WrittenParses(h: HeaderChange, text: string)
    requires IsSlug(h.identity) && 1 <= h.version < VERSION_LIMIT
    requires h.parent.Some? ==> 1 <= h.parent.value < VERSION_LIMIT
    ensures ParsePlanHeader(Written(h, text))
         == Header(Some(h.version), h.identity, h.parent, Some(h.identity), Ok, 6)
  {
    hide HeaderBlock, UniversalNewlines, ParsePlanHeader, IsSlug, IsIdentity;
    SlugIsIdentity(h.identity);
    HeaderRoundTrip(h.version, h.identity, h.parent, h.identity, UniversalNewlines(text));
  }

  lemma BlockStarts(h: HeaderChange)
    ensures var block := HeaderBlock(h.version, h.identity, h.parent, h.identity);
      |block| > 17 && block[..16] == OPENING && block[16] == '\n'
  {
    var lines := HeaderLines(h.version, h.identity, h.parent, h.identity);
    assert lines[0] == OPENING && |OPENING| == 16;
    assert Unlines(lines) == OPENING + "\n" + Unlines(lines[1..]);
    assert Unlines(lines[1..]) == lines[1] + "\n" + Unlines(lines[1..][1..]);
  }

  lemma OpeningShape()
    ensures |OPENING| == 16 && OPENING[..4] == "<!--" && OPENING[4] == ' ' && OPENING[5..] == MARK && |MARK| == 11
  {
  }

  lemma MarkInOpening(t: string)
    requires |t| > 16 && t[..16] == OPENING && t[16] == '\n'
    ensures MarkAt(t, 0, 5, 16)
  {
    OpeningShape();
    hide OPENING, MARK;
    assert t[0..4] == t[..16][..4];
    assert t[4] == t[..16][4];
    assert t[5..16] == t[..16][5..];
  }

  lemma {:induction false} FrontKeepsNewlines(front: string, text: string)
    requires '\r' !in front
    ensures UniversalNewlines(front + text) == front + UniversalNewlines(text)
  {
    if |front| == 0 {
      assert front + text == text;
    } else {
      FrontKeepsNewlines(front[1..], text);
      assert (front + text)[1..] == front[1..] + text;
    }
  }

  lemma OpeningHasNoReturn()
    ensures '\r' !in OPENING + "\n"
  {
  }

  /** The opening line is read back, so the mark is found again: a file never gets a second header. */
  lemma WrittenHasHeader(h: HeaderChange, text: string)
    ensures HasHeader(Written(h, text))
  {
    hide HeaderBlock, UniversalNewlines, OPENING, MarkAt, MARK;
    var t := Written(h, text);
    BlockStarts(h);
    OpeningShape();
    var front := OPENING + "\n";
    assert t[..17] == front && t == front + t[17..];
    OpeningHasNoReturn();
    FrontKeepsNewlines(front, t[17..]);
    var head := Head(t);
    assert head[..16] == OPENING && head[16] == '\n';
    MarkInOpening(head);
  }
}
