/**
 The version header of a plan file: `header_block` prints it, `parse_plan_header` reads it. The two
 live in different programs; here each is the other's inverse, and the parser is characterised by
 what a correct block is.
 */
module PlanHeader {
  import opened Wrappers
  import opened Strings
  import opened PlanGrammar

  const HEADER_MAX_LINES := 12

  const OPENING := "<!-- boxfox-plan"
  const CLOSING := "-->"

  datatype Status = Ok | Invalid | Absent

  datatype Header = Header(
    version: Option<nat>, identity: string, parent: Option<nat>, slug: Option<string>,
    status: Status, bodyOffset: nat)

  // ---------------------------------------------------------------- printing

  function ParentText(parent: Option<nat>): string {
    match parent
    case None => "none"
    case Some(v) => "v" + Decimal(v)
  }

  const VERSION_KEY := "Version:"
  const IDENTITY_KEY := "Identity:"
  const PARENT_KEY := "Parent:"
  const SLUG_KEY := "Slug:"

  function KeyLine(key: string, value: string): string {
    key + " " + value
  }

  /** The lines `header_block` joins with newlines and closes with two: the last one is empty. */
  function HeaderLines(version: nat, identity: string, parent: Option<nat>, slug: string): (lines: seq<string>)
    ensures |lines| == 7
  {
    [OPENING, KeyLine(VERSION_KEY, "v" + Decimal(version)), KeyLine(IDENTITY_KEY, identity),
     KeyLine(PARENT_KEY, ParentText(parent)), KeyLine(SLUG_KEY, slug), CLOSING, ""]
  }

  /** `header_block` */
  function HeaderBlock(version: nat, identity: string, parent: Option<nat>, slug: string): string {
    Unlines(HeaderLines(version, identity, parent, slug))
  }

  // ---------------------------------------------------------------- recognising a line

  predicate IsOpening(line: string) {
    "<!--" <= line && Strip(line[4..]) == "boxfox-plan"
  }

  predicate IsClosing(line: string) {
    CLOSING <= line && AllSpace(line[3..])
  }

  /** What follows `key` and any white space. */
  function After(key: string, line: string): Option<string> {
    if key <= line then Some(StripLeft(line[|key|..])) else None
  }

  datatype Line = VersionLine(version: nat) | IdentityLine(identity: string) | ParentLine(parent: Option<nat>)
                | SlugLine(slug: string) | BlankLine | StrangeLine

  function VersionText(s: string): Option<nat> {
    if |s| > 0 && s[0] == 'v' && IsVersion(s[1..]) then Some(Number(s[1..])) else None
  }

  /** The line of the block, tried against the four patterns in the order of the code. */
  function Classify(line: string): Line {
    var version, identity := After(VERSION_KEY, line), After(IDENTITY_KEY, line);
    var parent, slug := After(PARENT_KEY, line), After(SLUG_KEY, line);
    if version.Some? && VersionText(version.value).Some? then VersionLine(VersionText(version.value).value)
    else if identity.Some? && IsIdentity(identity.value) then IdentityLine(identity.value)
    else if parent.Some? && VersionText(parent.value).Some? then ParentLine(VersionText(parent.value))
    else if parent.Some? && parent.value == "none" then ParentLine(None)
    else if slug.Some? && IsSlug(slug.value) then SlugLine(slug.value)
    else if Strip(line) == "" then BlankLine
    else StrangeLine
  }

  // ---------------------------------------------------------------- the parser's loops as functions

  /** The fields the loop updates; a field is seen once it is `Some`. */
  datatype Fields = Fields(
    version: Option<nat>, identity: Option<string>, parent: Option<Option<nat>>, slug: Option<string>, valid: bool)

  const NO_FIELDS := Fields(None, None, None, None, true)

  function Take(f: Fields, line: Line): Fields {
    match line
    case VersionLine(v) => if f.version.None? then f.(version := Some(v)) else f.(valid := false)
    case IdentityLine(i) => if f.identity.None? then f.(identity := Some(i)) else f.(valid := false)
    case ParentLine(p) => if f.parent.None? then f.(parent := Some(p)) else f.(valid := false)
    case SlugLine(s) => if f.slug.None? then f.(slug := Some(s)) else f.(valid := false)
    case BlankLine => f
    case StrangeLine => f.(valid := false)
  }

  function TakeAll(lines: seq<string>): Fields {
    if |lines| == 0 then NO_FIELDS else Take(TakeAll(lines[..|lines| - 1]), Classify(lines[|lines| - 1]))
  }

  /** The first opening line among the first `limit`. */
  function FindOpening(lines: seq<string>, limit: nat): (r: Option<nat>)
    requires limit <= |lines|
    ensures r.Some? ==> r.value < limit && IsOpening(lines[r.value])
                        && forall i :: 0 <= i < r.value ==> !IsOpening(lines[i])
    ensures r.None? ==> forall i :: 0 <= i < limit ==> !IsOpening(lines[i])
  {
    if limit == 0 then None
    else
      var before := FindOpening(lines, limit - 1);
      if before.Some? then before else if IsOpening(lines[limit - 1]) then Some(limit - 1) else None
  }

  /** The first closing line in `first..last`. */
  function FindClosing(lines: seq<string>, first: nat, last: nat): (r: Option<nat>)
    requires first <= last <= |lines|
    ensures r.Some? ==> first <= r.value < last && IsClosing(lines[r.value])
                        && forall i :: first <= i < r.value ==> !IsClosing(lines[i])
    ensures r.None? ==> (forall i :: first <= i < last ==> !IsClosing(lines[i]))
    decreases last - first
  {
    if first == last then None else if IsClosing(lines[first]) then Some(first) else FindClosing(lines, first + 1, last)
  }

  function Conclude(f: Fields, start: nat, closed: Option<nat>): Header {
    var complete := f.valid && closed.Some? && f.version.Some? && f.identity.Some? && f.parent.Some?;
    Header(f.version, if f.identity.Some? then f.identity.value else "",
           if f.parent.Some? then f.parent.value else None, f.slug,
           if complete then Ok else Invalid,
           if closed.Some? then closed.value + 1 else start + 1)
  }

  function ParseLines(lines: seq<string>): Header {
    match FindOpening(lines, Min(|lines|, HEADER_MAX_LINES))
    case None => Header(None, "", None, None, Absent, 0)
    case Some(start) =>
      var end := Min(|lines|, start + HEADER_MAX_LINES + 1);
      var closed := FindClosing(lines, start + 1, end);
      Conclude(TakeAll(lines[start + 1..if closed.Some? then closed.value else end]), start, closed)
  }

  /** `parse_plan_header` on a string */
  function ParsePlanHeader(markdown: string): Header {
    ParseLines(SplitLines(markdown))
  }

  // ---------------------------------------------------------------- the code

  method LocateOpening(lines: seq<string>) returns (r: Option<nat>)
    ensures r == FindOpening(lines, Min(|lines|, HEADER_MAX_LINES))
  {
    hide IsOpening;
    var start, limit := 0, Min(|lines|, HEADER_MAX_LINES);
    while start < limit
      invariant 0 <= start <= limit
      invariant FindOpening(lines, start).None?
    {
      if IsOpening(lines[start]) {
        OpeningStays(lines, start, limit);
        return Some(start);
      }
      start := start + 1;
    }
    return None;
  }

  lemma NothingTaken()
    ensures TakeAll([]) == NO_FIELDS
  {
  }

  lemma TakeAllPush(lines: seq<string>, first: nat, index: nat)
    requires first <= index < |lines|
    ensures TakeAll(lines[first..index + 1]) == Take(TakeAll(lines[first..index]), Classify(lines[index]))
  {
    hide Classify, Take;
    assert lines[first..index + 1][..index - first] == lines[first..index];
  }

  method ReadBlock(lines: seq<string>, start: nat) returns (h: Header)
    requires start < |lines|
    ensures var end := Min(|lines|, start + HEADER_MAX_LINES + 1);
      var closed := FindClosing(lines, start + 1, end);
      h == Conclude(TakeAll(lines[start + 1..if closed.Some? then closed.value else end]), start, closed)
  {
    hide IsClosing, Classify, Conclude, TakeAll;
    var version: Option<nat>, identity: Option<string>, parent: Option<Option<nat>>, slug: Option<string> :=
      None, None, None, None;
    var valid, closedAt: Option<nat> := true, None;
    var end := Min(|lines|, start + HEADER_MAX_LINES + 1);
    var index := start + 1;
    assert lines[start + 1..index] == [] && TakeAll([]) == NO_FIELDS by { NothingTaken(); }
    while index < end
      invariant start + 1 <= index <= end
      invariant Fields(version, identity, parent, slug, valid) == TakeAll(lines[start + 1..index])
      invariant FindClosing(lines, start + 1, end) == FindClosing(lines, index, end)
    {
      var line := lines[index];
      if IsClosing(line) {
        closedAt := Some(index);
        break;
      }
      TakeAllPush(lines, start + 1, index);
      match Classify(line) {
        case VersionLine(v) => if version.None? { version := Some(v); } else { valid := false; }
        case IdentityLine(i) => if identity.None? { identity := Some(i); } else { valid := false; }
        case ParentLine(p) => if parent.None? { parent := Some(p); } else { valid := false; }
        case SlugLine(s) => if slug.None? { slug := Some(s); } else { valid := false; }
        case BlankLine =>
        case StrangeLine => valid := false;
      }
      index := index + 1;
    }
    h := Conclude(Fields(version, identity, parent, slug, valid), start, closedAt);
  }

  method ParseHeader(markdown: string) returns (h: Header)
    ensures h == ParsePlanHeader(markdown)
  {
    hide Conclude, TakeAll, FindOpening, FindClosing;
    var lines := SplitLines(markdown);
    var start := LocateOpening(lines);
    if start.None? {
      return Header(None, "", None, None, Absent, 0);
    }
    h := ReadBlock(lines, start.value);
  }

  lemma {:induction false} OpeningStays(lines: seq<string>, start: nat, limit: nat)
    requires start < limit <= |lines| && FindOpening(lines, start).None? && IsOpening(lines[start])
    ensures FindOpening(lines, limit) == Some(start)
  {
    if limit > start + 1 {
      OpeningStays(lines, start, limit - 1);
    }
  }

  // ---------------------------------------------------------------- what the parser accepts

  datatype Kind = AVersion | AIdentity | AParent | ASlug | ABlank | AStrange

  function KindOf(line: Line): Kind {
    match line
    case VersionLine(_) => AVersion
    case IdentityLine(_) => AIdentity
    case ParentLine(_) => AParent
    case SlugLine(_) => ASlug
    case BlankLine => ABlank
    case StrangeLine => AStrange
  }

  /** How many of the lines are of the kind. */
  ghost function Count(lines: seq<string>, kind: Kind): nat {
    if |lines| == 0 then 0
    else Count(lines[..|lines| - 1], kind) + if KindOf(Classify(lines[|lines| - 1])) == kind then 1 else 0
  }

  /** A correct block body: each required key once, `Slug` at most once, nothing else but blank lines. */
  ghost predicate IsBlockBody(body: seq<string>) {
    && Count(body, AVersion) == 1
    && Count(body, AIdentity) == 1
    && Count(body, AParent) == 1
    && Count(body, ASlug) <= 1
    && Count(body, AStrange) == 0
  }

  ghost predicate FieldsCount(f: Fields, body: seq<string>) {
    && (f.version.Some? <==> Count(body, AVersion) >= 1)
    && (f.identity.Some? <==> Count(body, AIdentity) >= 1)
    && (f.parent.Some? <==> Count(body, AParent) >= 1)
    && (f.slug.Some? <==> Count(body, ASlug) >= 1)
    && (f.valid <==> && Count(body, AVersion) <= 1 && Count(body, AIdentity) <= 1
                     && Count(body, AParent) <= 1 && Count(body, ASlug) <= 1
                     && Count(body, AStrange) == 0)
  }

  lemma {:induction false} TakeAllCounts(body: seq<string>)
    ensures FieldsCount(TakeAll(body), body)
  {
    hide Classify;
    if |body| > 0 {
      TakeAllCounts(body[..|body| - 1]);
    }
  }

  ghost predicate Carries(body: seq<string>, line: Line) {
    exists i :: 0 <= i < |body| && Classify(body[i]) == line
  }

  /** The values of the fields are those of some line of the block. */
  ghost predicate FieldsFrom(f: Fields, body: seq<string>) {
    && (f.version.Some? ==> Carries(body, VersionLine(f.version.value)))
    && (f.identity.Some? ==> Carries(body, IdentityLine(f.identity.value)))
    && (f.parent.Some? ==> Carries(body, ParentLine(f.parent.value)))
    && (f.slug.Some? ==> Carries(body, SlugLine(f.slug.value)))
  }

  lemma CarriesMore(body: seq<string>)
    requires |body| > 0
    ensures Carries(body, Classify(body[|body| - 1]))
    ensures forall line :: Carries(body[..|body| - 1], line) ==> Carries(body, line)
  {
    hide Classify;
    var front := body[..|body| - 1];
    forall line | Carries(front, line)
      ensures Carries(body, line)
    {
      var i :| 0 <= i < |front| && Classify(front[i]) == line;
      assert Classify(body[i]) == line;
    }
  }

  lemma {:induction false} TakeAllTakes(body: seq<string>)
    ensures FieldsFrom(TakeAll(body), body)
  {
    hide Classify, Carries;
    if |body| > 0 {
      TakeAllTakes(body[..|body| - 1]);
      CarriesMore(body);
    }
  }

  /** The block of a text: from the first opening line to the first closing line, both within their limits. */
  ghost predicate HasBlock(lines: seq<string>, start: nat, close: nat) {
    && start < HEADER_MAX_LINES && start < close <= start + HEADER_MAX_LINES && close < |lines|
    && IsOpening(lines[start]) && (forall i :: 0 <= i < start ==> !IsOpening(lines[i]))
    && IsClosing(lines[close]) && (forall i :: start < i < close ==> !IsClosing(lines[i]))
  }

  lemma BlockIsFound(lines: seq<string>, start: nat, close: nat)
    requires HasBlock(lines, start, close)
    ensures FindOpening(lines, Min(|lines|, HEADER_MAX_LINES)) == Some(start)
    ensures FindClosing(lines, start + 1, Min(|lines|, start + HEADER_MAX_LINES + 1)) == Some(close)
  {
    hide IsOpening, IsClosing;
  }

  /** A block with a correct body parses as `ok` and reports the values its lines carry, and the line after
      the closing one. */
  lemma BlockIsOk(lines: seq<string>, start: nat, close: nat)
    requires HasBlock(lines, start, close) && IsBlockBody(lines[start + 1..close])
    ensures var h := ParseLines(lines);
      var body := lines[start + 1..close];
      && h.status.Ok? && h.bodyOffset == close + 1 && h.version.Some?
      && Carries(body, VersionLine(h.version.value)) && Carries(body, IdentityLine(h.identity))
      && Carries(body, ParentLine(h.parent)) && (h.slug.Some? ==> Carries(body, SlugLine(h.slug.value)))
  {
    hide IsOpening, IsClosing, TakeAll, Count, Carries, FindOpening, FindClosing;
    BlockIsFound(lines, start, close);
    TakeAllCounts(lines[start + 1..close]);
    TakeAllTakes(lines[start + 1..close]);
  }

  /** Conversely `ok` means exactly that: a block closed in time whose body is correct. */
  lemma OkHasBlock(lines: seq<string>) returns (start: nat, close: nat)
    requires ParseLines(lines).status.Ok?
    ensures HasBlock(lines, start, close) && IsBlockBody(lines[start + 1..close])
  {
    hide IsOpening, IsClosing, TakeAll, Count;
    start := FindOpening(lines, Min(|lines|, HEADER_MAX_LINES)).value;
    close := FindClosing(lines, start + 1, Min(|lines|, start + HEADER_MAX_LINES + 1)).value;
    TakeAllCounts(lines[start + 1..close]);
  }

  // ---------------------------------------------------------------- the round trip

  /** The arguments `header_block` is meant for. */
  ghost predicate Printable(version: nat, identity: string, parent: Option<nat>, slug: string) {
    && 1 <= version < VERSION_LIMIT && IsIdentity(identity) && IsSlug(slug)
    && (parent.Some? ==> 1 <= parent.value < VERSION_LIMIT)
  }

  lemma NamesOnOneLine(s: string)
    ensures IsIdentity(s) ==> OneLine(s)
    ensures IsSlug(s) ==> OneLine(s)
  {
    if IsIdentity(s) { IdentityChars(s); }
    if IsSlug(s) { SlugChars(s); }
  }

  /** A key line yields its value, and starts like no other key and no bracket. */
  lemma KeyLineReads(key: string, value: string)
    requires |key| > 0 && |value| > 0 && !IsSpace(value[0])
    ensures After(key, KeyLine(key, value)) == Some(value)
    ensures forall other :: |other| > 0 && other[0] != key[0] ==> After(other, KeyLine(key, value)).None?
    ensures key[0] != '-' ==> !IsClosing(KeyLine(key, value))
    ensures OneLine(key) && OneLine(value) ==> OneLine(KeyLine(key, value))
  {
    var line := KeyLine(key, value);
    assert line[|key|..] == " " + value;
    assert (" " + value)[1..] == value;
    assert StripLeft(" " + value) == StripLeft(value) == value;
    assert line[0] == key[0];
  }

  lemma KeyFacts()
    ensures |VERSION_KEY| > 0 && |IDENTITY_KEY| > 0 && |PARENT_KEY| > 0 && |SLUG_KEY| > 0
    ensures VERSION_KEY[0] == 'V' && IDENTITY_KEY[0] == 'I' && PARENT_KEY[0] == 'P' && SLUG_KEY[0] == 'S'
    ensures OneLine(VERSION_KEY) && OneLine(IDENTITY_KEY) && OneLine(PARENT_KEY) && OneLine(SLUG_KEY)
    ensures OneLine(OPENING) && OneLine(CLOSING)
  {
  }

  lemma BracketsRead()
    ensures IsOpening(OPENING) && IsClosing(CLOSING)
  {
    assert OPENING[4..] == " boxfox-plan";
    assert (" boxfox-plan")[1..] == "boxfox-plan";
    assert StripLeft(" boxfox-plan") == StripLeft("boxfox-plan") == "boxfox-plan";
  }

  /** A printed version, as `VersionText` sees it. */
  lemma VersionTextReads(version: nat)
    requires 1 <= version < VERSION_LIMIT
    ensures var value := "v" + Decimal(version);
      VersionText(value) == Some(version) && OneLine(value) && !IsSpace(value[0])
  {
    VersionPrints(version);
    var value := "v" + Decimal(version);
    assert value[1..] == Decimal(version);
  }

  lemma VersionLineReads(version: nat)
    requires 1 <= version < VERSION_LIMIT
    ensures var line := KeyLine(VERSION_KEY, "v" + Decimal(version));
      Classify(line) == VersionLine(version) && OneLine(line) && !IsClosing(line)
  {
    KeyFacts();
    VersionTextReads(version);
    hide Strip, VERSION_KEY, IDENTITY_KEY, PARENT_KEY, SLUG_KEY, IsClosing, After, KeyLine, OneLine, Decimal, VersionText;
    KeyLineReads(VERSION_KEY, "v" + Decimal(version));
  }

  lemma IdentityLineReads(identity: string)
    requires IsIdentity(identity)
    ensures var line := KeyLine(IDENTITY_KEY, identity);
      Classify(line) == IdentityLine(identity) && OneLine(line) && !IsClosing(line)
  {
    KeyFacts();
    IdentityChars(identity);
    NamesOnOneLine(identity);
    hide Strip, VERSION_KEY, IDENTITY_KEY, PARENT_KEY, SLUG_KEY, IsClosing, After, KeyLine, OneLine, IsIdentity, IsSlug;
    KeyLineReads(IDENTITY_KEY, identity);
  }

  lemma ParentTextReads(parent: Option<nat>)
    requires parent.Some? ==> 1 <= parent.value < VERSION_LIMIT
    ensures var value := ParentText(parent);
      && |value| > 0 && !IsSpace(value[0]) && OneLine(value)
      && VersionText(value) == parent && (parent.None? ==> value == "none")
  {
    if parent.Some? {
      VersionTextReads(parent.value);
    } else {
      assert ParentText(parent) == "none" && "none"[0] == 'n';
    }
  }

  lemma ParentLineReads(parent: Option<nat>)
    requires parent.Some? ==> 1 <= parent.value < VERSION_LIMIT
    ensures var line := KeyLine(PARENT_KEY, ParentText(parent));
      Classify(line) == ParentLine(parent) && OneLine(line) && !IsClosing(line)
  {
    KeyFacts();
    ParentTextReads(parent);
    hide Strip, VERSION_KEY, IDENTITY_KEY, PARENT_KEY, SLUG_KEY, IsClosing, After, KeyLine, OneLine, Decimal, VersionText,
      ParentText;
    KeyLineReads(PARENT_KEY, ParentText(parent));
  }

  lemma SlugLineReads(slug: string)
    requires IsSlug(slug)
    ensures var line := KeyLine(SLUG_KEY, slug);
      Classify(line) == SlugLine(slug) && OneLine(line) && !IsClosing(line)
  {
    KeyFacts();
    SlugChars(slug);
    NamesOnOneLine(slug);
    hide Strip, VERSION_KEY, IDENTITY_KEY, PARENT_KEY, SLUG_KEY, IsClosing, After, KeyLine, OneLine, IsIdentity, IsSlug;
    KeyLineReads(SLUG_KEY, slug);
  }

  /** Whatever text follows, the parser reads back the four fields and points just past the block. */
  lemma HeaderRoundTrip(version: nat, identity: string, parent: Option<nat>, slug: string, body: string)
    requires Printable(version, identity, parent, slug)
    ensures ParsePlanHeader(HeaderBlock(version, identity, parent, slug) + body)
         == Header(Some(version), identity, parent, Some(slug), Ok, 6)
  {
    hide Classify, IsOpening, IsClosing, SplitLines, Unlines, KeyLine, OneLine, IsIdentity, IsSlug, ParentText,
      VERSION_KEY, IDENTITY_KEY, PARENT_KEY, SLUG_KEY, OPENING, CLOSING, ParseLines;
    KeyFacts();
    BracketsRead();
    VersionLineReads(version);
    IdentityLineReads(identity);
    ParentLineReads(parent);
    SlugLineReads(slug);
    EmptyOnOneLine();
    var block := HeaderLines(version, identity, parent, slug);
    SplitUnlines(block, body);
    ParsesSixLines(block + SplitLines(body), version, identity, parent, slug);
  }

  lemma EmptyOnOneLine()
    ensures OneLine("")
  {
  }

  lemma ParsesSixLines(lines: seq<string>, version: nat, identity: string, parent: Option<nat>, slug: string)
    requires |lines| >= 6 && IsOpening(lines[0]) && IsClosing(lines[5])
    requires forall i :: 1 <= i < 5 ==> !IsClosing(lines[i])
    requires Classify(lines[1]) == VersionLine(version) && Classify(lines[2]) == IdentityLine(identity)
    requires Classify(lines[3]) == ParentLine(parent) && Classify(lines[4]) == SlugLine(slug)
    ensures ParseLines(lines) == Header(Some(version), identity, parent, Some(slug), Ok, 6)
  {
    hide Classify, IsOpening, IsClosing;
    BlockIsFound(lines, 0, 5);
    var body := lines[1..5];
    assert TakeAll(body[..0]) == NO_FIELDS;
    assert body[..1][..0] == body[..0] && body[..2][..1] == body[..1] && body[..3][..2] == body[..2];
    assert body[..3] == body[..4][..3] && body[..4] == body;
    assert TakeAll(body[..1]) == NO_FIELDS.(version := Some(version));
    assert TakeAll(body[..2]) == NO_FIELDS.(version := Some(version), identity := Some(identity));
    assert TakeAll(body[..3]) == Fields(Some(version), Some(identity), Some(parent), None, true);
    assert TakeAll(body) == Fields(Some(version), Some(identity), Some(parent), Some(slug), true);
  }
}
