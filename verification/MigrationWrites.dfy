/** Which plans a migration gives a header, and what it writes before their texts. */
module MigrationWrites {
  import opened Wrappers
  import opened Strings
  import opened PlanGrammar
  import opened PlanNames
  import opened PlanHeader
  import opened MigrationPlan
  import opened MigrationSafety
  import opened MigrationApply
  import opened MigrationHeaders
  import opened MigrationLaws

  // ---------------------------------------------------------------- text mode

  /** Up to the first carriage return a text is read as it is; the return, with a line feed behind it, is one line feed. */
  lemma NewlinesAreRead(front: string, rest: string)
    requires '\r' !in front
    ensures UniversalNewlines(front) == front
    ensures UniversalNewlines(front + "\r\n" + rest) == front + "\n" + UniversalNewlines(rest)
    ensures !("\n" <= rest) ==> UniversalNewlines(front + "\r" + rest) == front + "\n" + UniversalNewlines(rest)
  {
    hide UniversalNewlines;
    NewlinesKeptIff(front);
    FrontKeepsNewlines(front, "\r\n" + rest);
    FrontKeepsNewlines(front, "\r" + rest);
    ReturnIsRead(rest);
    assert front + ("\r\n" + rest) == front + "\r\n" + rest && front + ("\r" + rest) == front + "\r" + rest;
    assert front + ("\n" + UniversalNewlines(rest)) == front + "\n" + UniversalNewlines(rest);
  }

  lemma ReturnIsRead(rest: string)
    ensures UniversalNewlines("\r\n" + rest) == "\n" + UniversalNewlines(rest)
    ensures !("\n" <= rest) ==> UniversalNewlines("\r" + rest) == "\n" + UniversalNewlines(rest)
  {
    assert ("\r\n" + rest)[2..] == rest && ("\r" + rest)[1..] == rest;
  }

  // ---------------------------------------------------------------- what counts as a header

  /** A line opens a header: "<!--", white space, "boxfox-plan", white space, and the end of a line. */
  ghost predicate HasOpening(t: string) {
    exists before, gap, tail, after :: Opens(t, before, gap, tail, after)
  }

  predicate Opens(t: string, before: string, gap: string, tail: string, after: string) {
    && t == before + "<!--" + gap + "boxfox-plan" + tail + after
    && AllSpace(gap) && AllSpace(tail)
    && (before == "" || before[|before| - 1] == '\n') && (after == "" || after[0] == '\n')
  }

  /** The first 8192 characters in text mode. */
  function FirstCharacters(text: string): string {
    var t := UniversalNewlines(text);
    t[..if |t| < 8192 then |t| else 8192]
  }

  lemma MarkOpens(t: string, i: nat, j: nat, k: nat)
    requires MarkAt(t, i, j, k)
    ensures Opens(t, t[..i], t[i + 4..j], t[j + 11..k], t[k..])
  {
    assert |MARK| == 11;
    assert t == t[..i] + t[i..i + 4] + t[i + 4..j] + t[j..j + 11] + t[j + 11..k] + t[k..];
  }

  lemma OpeningIsMark(t: string, before: string, gap: string, tail: string, after: string)
    requires Opens(t, before, gap, tail, after)
    ensures var i := |before|;
      var j := i + 4 + |gap|;
      MarkAt(t, i, j, j + 11 + |tail|)
  {
    var i := |before|;
    var j := i + 4 + |gap|;
    var k := j + 11 + |tail|;
    assert |MARK| == 11 && |"<!--"| == 4;
    assert t[..i] == before && t[i..i + 4] == "<!--" && t[i + 4..j] == gap && t[j..j + 11] == MARK;
    assert t[j + 11..k] == tail && t[k..] == after;
    assert i > 0 ==> t[i - 1] == before[i - 1];
    assert k < |t| ==> t[k] == after[0];
  }

  /** A text has a header exactly when its first 8192 characters have such a line. */
  lemma HasHeaderIff(text: string)
    ensures HasHeader(text) <==> HasOpening(FirstCharacters(text))
  {
    hide UniversalNewlines, MarkAt, HasOpening;
    var t := Head(text);
    assert t == FirstCharacters(text);
    if HasHeader(text) {
      var i: nat, j: nat, k: nat :| i <= |t| && j <= |t| && k <= |t| && MarkAt(t, i, j, k);
      MarkIsOpening(t, i, j, k);
    }
    if HasOpening(t) {
      var i, j, k := SomeMark(t);
    }
  }

  lemma MarkIsOpening(t: string, i: nat, j: nat, k: nat)
    requires MarkAt(t, i, j, k)
    ensures HasOpening(t)
  {
    hide MarkAt, Opens;
    MarkBounds(t, i, j, k);
    MarkOpens(t, i, j, k);
  }

  lemma SomeMark(t: string) returns (i: nat, j: nat, k: nat)
    requires HasOpening(t)
    ensures MarkAt(t, i, j, k) && i <= |t| && j <= |t| && k <= |t|
  {
    hide MarkAt, Opens;
    var before, gap, tail, after :| Opens(t, before, gap, tail, after);
    OpeningIsMark(t, before, gap, tail, after);
    i, j := |before|, |before| + 4 + |gap|;
    k := j + 11 + |tail|;
    MarkBounds(t, i, j, k);
  }

  lemma MarkBounds(t: string, i: nat, j: nat, k: nat)
    requires MarkAt(t, i, j, k)
    ensures i + 4 <= j && j + 11 <= k <= |t|
  {
  }

  // ---------------------------------------------------------------- texts without the word

  predicate StandsAt(t: string, word: string, i: nat) {
    i + |word| <= |t| && t[i..i + |word|] == word
  }

  ghost predicate Contains(t: string, word: string) {
    exists i :: StandsAt(t, word, i)
  }

  lemma {:induction false} PrefixSurvives(word: string, text: string)
    requires '\n' !in word && word <= UniversalNewlines(text)
    ensures word <= text
  {
    if |word| > 0 {
      assert word[0] in word;
      if text[0] != '\r' {
        assert word[1..] <= UniversalNewlines(text[1..]);
        PrefixSurvives(word[1..], text[1..]);
        assert word == [word[0]] + word[1..] && text == [text[0]] + text[1..];
      }
    }
  }

  lemma NewlinesFromTheSecond(text: string)
    requires |text| > 0
    ensures var n := if text[0] == '\r' && |text| > 1 && text[1] == '\n' then 2 else 1;
      |UniversalNewlines(text)| > 0 && UniversalNewlines(text)[1..] == UniversalNewlines(text[n..])
  {
  }

  lemma StandsLater(t: string, word: string, i: nat, n: nat)
    requires n <= |t|
    ensures StandsAt(t[n..], word, i) <==> StandsAt(t, word, n + i)
  {
    if n + i + |word| <= |t| {
      assert t[n..][i..i + |word|] == t[n + i..n + i + |word|];
    }
  }

  /** Reading in text mode makes no word that was not there. */
  lemma {:induction false} WordSurvives(word: string, text: string, i: nat)
    requires '\n' !in word && |word| > 0 && StandsAt(UniversalNewlines(text), word, i)
    ensures Contains(text, word)
    decreases |text|
  {
    hide UniversalNewlines;
    var t := UniversalNewlines(text);
    if i == 0 {
      assert word <= t;
      PrefixSurvives(word, text);
      assert StandsAt(text, word, 0);
    } else {
      if text == "" { EmptyStays(); }
      var n := if text[0] == '\r' && |text| > 1 && text[1] == '\n' then 2 else 1;
      NewlinesFromTheSecond(text);
      StandsLater(t, word, i - 1, 1);
      hide StandsAt;
      WordSurvives(word, text[n..], i - 1);
      var k: nat :| StandsAt(text[n..], word, k);
      StandsLater(text, word, k, n);
    }
  }

  lemma EmptyStays()
    ensures UniversalNewlines("") == ""
  {
  }

  lemma NoWordNoHeader(text: string)
    requires !Contains(text, "boxfox-plan")
    ensures !HasHeader(text)
  {
    hide UniversalNewlines, MarkAt;
    if HasHeader(text) {
      var t := Head(text);
      var i: nat, j: nat, k: nat :| i <= |t| && j <= |t| && k <= |t| && MarkAt(t, i, j, k);
      MarkStands(t, i, j, k);
      assert StandsAt(UniversalNewlines(text), MARK, j) by {
        assert UniversalNewlines(text)[j..j + 11] == t[j..j + 11];
      }
      WordSurvives(MARK, text, j);
    }
  }

  lemma MarkStands(t: string, i: nat, j: nat, k: nat)
    requires MarkAt(t, i, j, k)
    ensures StandsAt(t, MARK, j) && |MARK| == 11 && '\n' !in MARK
  {
  }

  // ---------------------------------------------------------------- what a run writes

  lemma UnlinesOne(line: string, rest: seq<string>)
    ensures Unlines([line] + rest) == line + "\n" + Unlines(rest)
  {
    assert ([line] + rest)[1..] == rest;
  }

  lemma KeyLines(identity: string, version: string, parent: string, slug: string)
    ensures OPENING == "<!-- boxfox-plan" && CLOSING == "-->"
    ensures KeyLine(VERSION_KEY, version) == "Version: " + version && KeyLine(IDENTITY_KEY, identity) == "Identity: " + identity
    ensures KeyLine(PARENT_KEY, parent) == "Parent: " + parent && KeyLine(SLUG_KEY, slug) == "Slug: " + slug
  {
  }

  /** The block as it stands in a file: seven lines, the last one empty. */
  lemma BlockText(version: nat, identity: string, parent: Option<nat>, slug: string)
    ensures HeaderBlock(version, identity, parent, slug)
         == "<!-- boxfox-plan" + "\n"
            + ("Version: " + ("v" + Decimal(version)) + "\n"
               + ("Identity: " + identity + "\n"
                  + ("Parent: " + (if parent.Some? then "v" + Decimal(parent.value) else "none") + "\n"
                     + ("Slug: " + slug + "\n"
                        + ("-->" + "\n"
                           + ("" + "\n" + ""))))))
  {
    var lines := HeaderLines(version, identity, parent, slug);
    KeyLines(identity, "v" + Decimal(version), ParentText(parent), slug);
    hide OPENING, CLOSING, VERSION_KEY, IDENTITY_KEY, PARENT_KEY, SLUG_KEY, KeyLine, Unlines, Decimal;
    assert lines == [lines[0]] + ([lines[1]] + ([lines[2]] + ([lines[3]] + ([lines[4]] + ([lines[5]] + ([lines[6]] + []))))));
    UnlinesOne(lines[6], []);
    UnlinesOne(lines[5], [lines[6]] + []);
    UnlinesOne(lines[4], [lines[5]] + ([lines[6]] + []));
    UnlinesOne(lines[3], [lines[4]] + ([lines[5]] + ([lines[6]] + [])));
    UnlinesOne(lines[2], [lines[3]] + ([lines[4]] + ([lines[5]] + ([lines[6]] + []))));
    UnlinesOne(lines[1], [lines[2]] + ([lines[3]] + ([lines[4]] + ([lines[5]] + ([lines[6]] + [])))));
    UnlinesOne(lines[0], [lines[1]] + ([lines[2]] + ([lines[3]] + ([lines[4]] + ([lines[5]] + ([lines[6]] + []))))));
    NoLines();
  }

  lemma NoLines()
    ensures Unlines([]) == ""
  {
  }

  /** After a complete run every plan is under its final name. One whose text opens a header is as it was; every other has
      the block with its final version and identity, and the greatest smaller version of its group, before its text. */
  lemma RunWritesHeaders(dir: Directory, names: seq<string>, merges: seq<Merge>, renumber: bool, plan: Plan, e: Entry)
    returns (parent: Option<nat>)
    requires Lists(names, dir) && DistinctSources(merges)
    requires RenameChanges(Scan(dir, names), merges, renumber) == Success(plan)
    requires Run(dir, names, merges, renumber).Ran? && Run(dir, names, merges, renumber).report.applied
    requires e in Scan(dir, names)
    ensures e.name in dir
    ensures var d, f := Run(dir, names, merges, renumber).report.directory, FinalEntry(e, plan.changes);
      var name := PlanName(f.version, f.identity);
      && name in d
      && (HasOpening(FirstCharacters(dir[e.name])) ==> d[name] == dir[e.name])
      && (!HasOpening(FirstCharacters(dir[e.name])) ==>
            && d[name] == HeaderBlock(f.version, f.identity, parent, f.identity) + UniversalNewlines(dir[e.name])
            && IsParent(FinalEntries(Scan(dir, names), plan.changes), f, parent))
  {
    hide Scan, Run, RenameChanges, HasHeader, HasOpening, FirstCharacters, UniversalNewlines, IsParent, PlanName, HeaderBlock,
      ParseName, FinalName, FinalEntry, Setting, SafeChanges, AllFrom;
    var es := Scan(dir, names);
    RunMigrates(dir, names, merges, renumber, plan);
    RunSetting(dir, names, merges, renumber);
    ScanIsScanned(dir, names);
    SettingSays(dir, es, merges, plan.changes);
    FinalNameIsPlanName(es, merges, plan.changes, e);
    HasHeaderIff(dir[e.name]);
    parent := None;
    if !e.header {
      var f := FinalEntry(e, plan.changes);
      FinalEntryOf(es, plan.changes, e);
      var h :| HeaderOf(FinalEntries(es, plan.changes), f, h)
               && Run(dir, names, merges, renumber).report.directory[FinalName(e, plan.changes)] == Written(h, dir[e.name]);
      parent := h.parent;
    }
  }

  lemma SettingSays(dir: Directory, es: seq<Entry>, merges: seq<Merge>, changes: seq<Change>)
    requires Setting(dir, es, merges, changes)
    ensures Scanned(es) && AllFrom(changes, es, merges)
  {
  }

  /** In particular every plan whose text does not have the word "boxfox-plan" gets a header. */
  lemma PlainPlansGetHeaders(dir: Directory, names: seq<string>, merges: seq<Merge>, renumber: bool, plan: Plan, e: Entry)
    returns (parent: Option<nat>)
    requires Lists(names, dir) && DistinctSources(merges)
    requires RenameChanges(Scan(dir, names), merges, renumber) == Success(plan)
    requires Run(dir, names, merges, renumber).Ran? && Run(dir, names, merges, renumber).report.applied
    requires e in Scan(dir, names) && e.name in dir && !Contains(dir[e.name], "boxfox-plan")
    ensures var d, f := Run(dir, names, merges, renumber).report.directory, FinalEntry(e, plan.changes);
      var name := PlanName(f.version, f.identity);
      && name in d && d[name] == HeaderBlock(f.version, f.identity, parent, f.identity) + UniversalNewlines(dir[e.name])
      && IsParent(FinalEntries(Scan(dir, names), plan.changes), f, parent)
  {
    hide Scan, Run, RenameChanges, HasOpening, UniversalNewlines, IsParent, PlanName, HeaderBlock, FinalEntry, HasHeader;
    parent := RunWritesHeaders(dir, names, merges, renumber, plan, e);
    NoWordNoHeader(dir[e.name]);
    HasHeaderIff(dir[e.name]);
  }
}
